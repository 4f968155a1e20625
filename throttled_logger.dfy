/**
  `ThrottledLogger`: prints a message unless one was already printed during
  the same second-of-minute. The UTC clock reading is a parameter, in whole
  seconds, and the console is a ghost list of the printed messages.
*/
module ThrottledLogging {

  /** `DateTime.Second` of a clock reading given in whole seconds. */
  function SecondOf(now: nat): (second: int)
    ensures 0 <= second < 60
  {
    now % 60
  }

  /** The logger's field and what it has printed so far. */
  datatype LogState = LogState(logSecond: int, printed: seq<string>)

  /** One call of `Add`: its message and the clock reading it takes. */
  datatype Call = Call(message: string, now: nat)

  /** A new logger: `_logSecond` holds its default 0 and nothing is printed. */
  const Initial := LogState(0, [])

  /** The effect of one `Add`. */
  function Step(state: LogState, call: Call): (next: LogState)
    // the stored second becomes the call's second-of-minute
    ensures next.logSecond == SecondOf(call.now)
    // the call prints at most one message, its own, and does so exactly when the second differs
    ensures state.printed <= next.printed && |next.printed| <= |state.printed| + 1
    ensures |next.printed| == |state.printed| + 1 <==> state.logSecond != SecondOf(call.now)
    ensures |next.printed| == |state.printed| + 1 ==> next.printed[|state.printed|] == call.message
  {
    var second := SecondOf(call.now);
    if state.logSecond != second then LogState(second, state.printed + [call.message])
    else state
  }

  /** The effect of a sequence of `Add` calls, in order. */
  function Replay(state: LogState, calls: seq<Call>): LogState
    decreases |calls|
  {
    if calls == [] then state
    else Step(Replay(state, calls[..|calls| - 1]), calls[|calls| - 1])
  }

  class ThrottledLogger {
    var logSecond: int
    ghost var printed: seq<string>

    ghost function State(): LogState
      reads this
    {
      LogState(logSecond, printed)
    }

    constructor ()
      ensures State() == Initial
    {
      logSecond := 0;
      printed := [];
    }

    /** Prints `message` unless the stored second equals the current one, and stores the current second. */
    method Add(message: string, now: nat)
      modifies this
      ensures logSecond == SecondOf(now)
      ensures printed == old(printed) + (if old(logSecond) != SecondOf(now) then [message] else [])
      ensures State() == Step(old(State()), Call(message, now))
    {
      var nowSecond := SecondOf(now);
      if logSecond != nowSecond {
        logSecond := nowSecond;
        printed := printed + [message];
      }
    }
  }

  /** Replaying two runs one after the other is replaying their concatenation. */
  lemma {:induction false} ReplayConcat(state: LogState, first: seq<Call>, second: seq<Call>)
    ensures Replay(state, first + second) == Replay(Replay(state, first), second)
    decreases |second|
  {
    if second == [] {
      assert first + second == first;
    } else {
      assert (first + second)[..|first + second| - 1] == first + second[..|second| - 1];
      ReplayConcat(state, first, second[..|second| - 1]);
    }
  }

  /** After any call the stored second is that call's second-of-minute. */
  lemma ReplayStoresLastSecond(state: LogState, calls: seq<Call>)
    requires calls != []
    ensures Replay(state, calls).logSecond == SecondOf(calls[|calls| - 1].now)
  {
  }

  /** Calls append to what was printed; each printed message is the message of one of the calls. */
  lemma {:induction false} ReplayPrintsMessages(state: LogState, calls: seq<Call>)
    ensures var after := Replay(state, calls).printed;
            && state.printed <= after
            && |after| - |state.printed| <= |calls|
            && forall k :: |state.printed| <= k < |after| ==> exists i :: 0 <= i < |calls| && calls[i].message == after[k]
    decreases |calls|
  {
    if calls != [] {
      var calls' := calls[..|calls| - 1];
      ReplayPrintsMessages(state, calls');
      var before := Replay(state, calls').printed;
      var after := Replay(state, calls).printed;
      forall k | |state.printed| <= k < |after| ensures exists i :: 0 <= i < |calls| && calls[i].message == after[k] {
        if k < |before| {
          var i :| 0 <= i < |calls'| && calls'[i].message == before[k];
          assert calls[i].message == after[k];
        } else {
          assert calls[|calls| - 1].message == after[k];
        }
      }
    }
  }

  /** Calls that all fall in the same second-of-minute print at most once between them. */
  lemma {:induction false} SameSecondPrintsAtMostOnce(state: LogState, calls: seq<Call>, second: int)
    requires forall i :: 0 <= i < |calls| ==> SecondOf(calls[i].now) == second
    ensures |Replay(state, calls).printed| <= |state.printed| + 1
    ensures calls != [] ==> Replay(state, calls).logSecond == second
    decreases |calls|
  {
    if calls != [] {
      var calls' := calls[..|calls| - 1];
      SameSecondPrintsAtMostOnce(state, calls', second);
      if calls' != [] {
        assert Replay(state, calls).printed == Replay(state, calls').printed;
      }
    }
  }

  /** A first call made during second 0 prints nothing, since the stored second starts at 0. */
  lemma FirstCallAtSecondZeroIsSilent(call: Call)
    requires SecondOf(call.now) == 0
    ensures Replay(Initial, [call]).printed == []
  {
    assert [call][..0] == [];
  }

  /** Calls that print nothing leave the stored second as it was. */
  lemma {:induction false} SilentCallsKeepSecond(state: LogState, calls: seq<Call>)
    requires Replay(state, calls).printed == state.printed
    ensures Replay(state, calls).logSecond == state.logSecond
    decreases |calls|
  {
    if calls != [] {
      var calls' := calls[..|calls| - 1];
      ReplayPrintsMessages(state, calls');
      assert Replay(state, calls').printed == state.printed;
      SilentCallsKeepSecond(state, calls');
    }
  }

  /**
    Only the second-of-minute is compared: after a call that printed, and any
    number of calls that did not, a call a whole number of minutes later than
    the printing one prints nothing.
  */
  lemma WholeMinutesLaterIsSuppressed(state: LogState, before: seq<Call>, printing: Call, silent: seq<Call>,
                                      minutes: nat, message: string)
    requires Replay(state, before + [printing]).printed != Replay(state, before).printed
    requires Replay(state, before + [printing] + silent).printed == Replay(state, before + [printing]).printed
    ensures var calls := before + [printing] + silent;
            Replay(state, calls + [Call(message, printing.now + 60 * minutes)]).printed == Replay(state, calls).printed
  {
    var printed := Replay(state, before + [printing]);
    ReplayConcat(state, before + [printing], silent);
    SilentCallsKeepSecond(printed, silent);
    assert (before + [printing])[..|before|] == before;
    assert SecondOf(printing.now + 60 * minutes) == SecondOf(printing.now);
  }
}
