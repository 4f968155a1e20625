/**
  The Kahn-style topological sort of `EnumerableExtensions.TopologicalSort`.

  Nodes are values of a type with equality; `arrows(a)` lists the targets of the
  arrows leaving `a`. The sort keeps the not-yet-output nodes in `connected`, a
  work queue, the set `inserted` and the output list, as the source does, and
  throws "circular dependencies" when the queue runs dry before every node was
  released. The model runs only on well-formed input (distinct nodes, arrow
  targets among them, duplicate-free arrow lists); there a dequeued node is never
  already in `inserted` (`Step` proves it), so the `inserted` test always passes.
*/
module EnumerableExtensions {
  import opened Wrappers
  import opened Sequences

  /** `to` has no arrow into it from any node still in `connected` (the source's `noIncomingArrows`). */
  predicate NoIncomingArrows<T(==,!new)>(connected: seq<T>, arrows: T -> seq<T>, to: T) {
    forall node :: node in connected ==> to !in arrows(node)
  }

  /**
    The nodes of `candidates` that have no incoming arrow from `connected`, in the
    order of `candidates` (the source's `Where(noIncomingArrows)`).
  */
  function WhereNoIncomingArrows<T(==,!new)>(connected: seq<T>, arrows: T -> seq<T>, candidates: seq<T>): (r: seq<T>)
    ensures forall x :: x in r <==> x in candidates && NoIncomingArrows(connected, arrows, x)
    ensures Subsequence(r, candidates)
    decreases |candidates|
  {
    if candidates == [] then []
    else
      var last := candidates[|candidates| - 1];
      var front := candidates[..|candidates| - 1];
      assert candidates == front + [last];
      var r := WhereNoIncomingArrows(connected, arrows, front);
      if NoIncomingArrows(connected, arrows, last) then
        SubsequenceSnoc(r, front, last);
        r + [last]
      else
        r
  }

  /** The source's precondition: distinct nodes, every target a node, no target listed twice. */
  ghost predicate WellFormed<T(!new)>(source: seq<T>, arrows: T -> seq<T>) {
    && Distinct(source)
    && (forall a :: a in source ==> Distinct(arrows(a)))
    && (forall a, b :: a in source && b in arrows(a) ==> b in source)
  }

  /** A cycle of arrows among source nodes: each node points to the next, the last to the first. */
  ghost predicate IsCycle<T(!new)>(source: seq<T>, arrows: T -> seq<T>, cycle: seq<T>) {
    && |cycle| > 0
    && (forall k :: 0 <= k < |cycle| ==> cycle[k] in source)
    && (forall k {:trigger arrows(cycle[k])} :: 0 <= k < |cycle| ==> cycle[(k + 1) % |cycle|] in arrows(cycle[k]))
  }

  ghost predicate HasCycle<T(!new)>(source: seq<T>, arrows: T -> seq<T>) {
    exists cycle :: IsCycle(source, arrows, cycle)
  }

  /** The nodes of `nodes` with an arrow into `x`. */
  ghost function ArrowsInto<T(!new)>(nodes: set<T>, arrows: T -> seq<T>, x: T): set<T> {
    set a | a in nodes && x in arrows(a)
  }

  /**
    A non-empty set of source nodes each of which has an arrow into it from the set:
    none of them can ever be the first of the set to become ready.
  */
  ghost predicate Blocked<T(!new)>(source: seq<T>, arrows: T -> seq<T>, nodes: set<T>) {
    && nodes != {}
    && (forall x :: x in nodes ==> x in source)
    && (forall x :: x in nodes ==> ArrowsInto(nodes, arrows, x) != {})
  }

  /** For every arrow a -> b between output nodes, a comes before b. */
  ghost predicate RespectsArrows<T(!new)>(order: seq<T>, arrows: T -> seq<T>) {
    forall i, j :: 0 <= i < |order| && 0 <= j < |order| && order[j] in arrows(order[i]) ==> i < j
  }

  /**
    What holds each time the source's `while (s.Count != 0)` tests its condition.
  */
  ghost predicate SortInvariant<T(!new)>(source: seq<T>, arrows: T -> seq<T>,
                                   connected: seq<T>, queue: seq<T>, output: seq<T>, inserted: set<T>)
  {
    // `connected` holds the source nodes not yet output, once each
    && Distinct(connected)
    && (forall x :: x in connected <==> x in source && x !in output)
    && inserted == Elements(output)
    // the output and the queue are distinct source nodes that no connected node points to
    && Distinct(output + queue)
    && (forall x :: x in output + queue ==> x in source && NoIncomingArrows(connected, arrows, x))
    // every connected node that has become ready is waiting in the queue
    && (forall x :: x in connected && NoIncomingArrows(connected, arrows, x) ==> x in queue)
    // every node is output after all the nodes that point to it
    && (forall i, a :: 0 <= i < |output| && a in source && output[i] in arrows(a) ==> a in output[..i])
  }

  /** No node of a blocked set has been output or queued. */
  ghost predicate BlockedUntouched<T(!new)>(source: seq<T>, arrows: T -> seq<T>, output: seq<T>, queue: seq<T>) {
    forall nodes :: Blocked(source, arrows, nodes) ==> (forall x :: x in nodes ==> x !in output && x !in queue)
  }

  /** `List<T>.Remove`: drop the first occurrence of `x`, if any. */
  function RemoveFirst<T(==,!new)>(s: seq<T>, x: T): (r: seq<T>)
    ensures x in s ==> |r| == |s| - 1
    ensures x !in s ==> r == s
    ensures forall y :: y in r ==> y in s
    ensures forall y :: y in s && y != x ==> y in r
    ensures Distinct(s) ==> Distinct(r) && x !in r
    decreases |s|
  {
    if s == [] then []
    else if s[0] == x then
      assert s == [x] + s[1..];
      assert Distinct(s) ==> x !in s[1..];
      s[1..]
    else
      var rest := RemoveFirst(s[1..], x);
      assert s == [s[0]] + s[1..];
      assert Distinct(s) ==> Distinct(s[1..]) && s[0] !in s[1..];
      assert Distinct(s) ==> Distinct([s[0]] + rest) by {
        if Distinct(s) {
          DistinctConcat([s[0]], rest);
        }
      }
      [s[0]] + rest
  }

  method TopologicalSort<T(==,!new)>(source: seq<T>, arrows: T -> seq<T>) returns (r: Result<seq<T>, string>)
    requires WellFormed(source, arrows)
    ensures r.Failure? <==> HasCycle(source, arrows)
    ensures r.Failure? ==> r.error == "circular dependencies"
    ensures r.Success? ==> Distinct(r.value) && multiset(r.value) == multiset(source)
    ensures r.Success? ==> RespectsArrows(r.value, arrows)
    ensures source == [] ==> r == Success([])
  {
    var connected := source;
    var inserted: set<T> := {};
    var output: seq<T> := [];
    var queue := WhereNoIncomingArrows(connected, arrows, connected);
    InitialState(source, arrows);
    while |queue| != 0
      invariant SortInvariant(source, arrows, connected, queue, output, inserted)
      invariant BlockedUntouched(source, arrows, output, queue)
      decreases |connected|
    {
      Step(source, arrows, connected, queue, output, inserted);
      var n := queue[0];
      queue := queue[1..];
      if n !in inserted {
        inserted := inserted + {n};
        output := output + [n];
      }
      connected := RemoveFirst(connected, n);
      queue := EnqueueWhereNoIncomingArrows(queue, connected, arrows, arrows(n));
    }
    if |connected| != 0 {
      StuckMeansCycle(source, arrows, connected);
      return Failure("circular dependencies");
    }
    Finished(source, arrows, output, inserted);
    return Success(output);
  }

  /** The source's `foreach (var node in arrowsFrom(n).Where(noIncomingArrows)) s.Enqueue(node)`. */
  method EnqueueWhereNoIncomingArrows<T(==,!new)>(queue: seq<T>, connected: seq<T>, arrows: T -> seq<T>, targets: seq<T>)
    returns (queue': seq<T>)
    ensures queue' == queue + WhereNoIncomingArrows(connected, arrows, targets)
  {
    queue' := queue;
    var k := 0;
    while k < |targets|
      invariant 0 <= k <= |targets|
      invariant queue' == queue + WhereNoIncomingArrows(connected, arrows, targets[..k])
    {
      assert targets[..k + 1][..k] == targets[..k];
      if NoIncomingArrows(connected, arrows, targets[k]) {
        queue' := queue' + [targets[k]];
      }
      k := k + 1;
    }
    assert targets[..k] == targets;
  }

  lemma InitialState<T(!new)>(source: seq<T>, arrows: T -> seq<T>)
    requires WellFormed(source, arrows)
    ensures var queue := WhereNoIncomingArrows(source, arrows, source);
            && SortInvariant(source, arrows, source, queue, [], {})
            && BlockedUntouched(source, arrows, [], queue)
  {
    var queue := WhereNoIncomingArrows(source, arrows, source);
    SubsequenceDistinct(queue, source);
    assert [] + queue == queue;
    assert Elements<T>([]) == {};
    forall nodes | Blocked(source, arrows, nodes) ensures forall x :: x in nodes ==> x !in queue {
      forall x | x in nodes ensures x !in queue {
        var a :| a in ArrowsInto(nodes, arrows, x);
        assert !NoIncomingArrows(source, arrows, x);
      }
    }
  }

  /** One turn of the loop keeps the invariant, and the dequeued node is always new. */
  lemma Step<T(!new)>(source: seq<T>, arrows: T -> seq<T>,
                      connected: seq<T>, queue: seq<T>, output: seq<T>, inserted: set<T>)
    requires WellFormed(source, arrows)
    requires SortInvariant(source, arrows, connected, queue, output, inserted)
    requires BlockedUntouched(source, arrows, output, queue)
    requires |queue| > 0
    ensures queue[0] !in inserted
    ensures var n := queue[0];
            var connected' := RemoveFirst(connected, n);
            var queue' := queue[1..] + WhereNoIncomingArrows(connected', arrows, arrows(n));
            && |connected'| < |connected|
            && SortInvariant(source, arrows, connected', queue', output + [n], inserted + {n})
            && BlockedUntouched(source, arrows, output + [n], queue')
  {
    var n := queue[0];
    DequeuedIsNew(source, arrows, connected, queue, output, inserted);
    var connected' := RemoveFirst(connected, n);
    var ready := WhereNoIncomingArrows(connected', arrows, arrows(n));
    StepKeepsDistinct(source, arrows, connected, queue, output, inserted);
    StepKeepsReady(source, arrows, connected, queue, output, inserted);
    StepKeepsOrder(source, arrows, connected, queue, output, inserted);
    StepKeepsBlockedOut(source, arrows, connected, queue, output);
    assert Elements(output + [n]) == Elements(output) + {n};
  }

  /** The head of the queue is a connected node that was never output. */
  lemma DequeuedIsNew<T(!new)>(source: seq<T>, arrows: T -> seq<T>,
                               connected: seq<T>, queue: seq<T>, output: seq<T>, inserted: set<T>)
    requires SortInvariant(source, arrows, connected, queue, output, inserted)
    requires |queue| > 0
    ensures queue[0] !in output && queue[0] !in inserted && queue[0] in connected
    ensures NoIncomingArrows(connected, arrows, queue[0])
  {
    var k := |output|;
    assert (output + queue)[k] == queue[0];
    forall i | 0 <= i < |output| ensures output[i] != queue[0] {
      assert (output + queue)[i] == output[i];
    }
  }

  /** Newly ready targets of the dequeued node were neither output nor queued before. */
  lemma StepKeepsDistinct<T(!new)>(source: seq<T>, arrows: T -> seq<T>,
                                   connected: seq<T>, queue: seq<T>, output: seq<T>, inserted: set<T>)
    requires WellFormed(source, arrows)
    requires SortInvariant(source, arrows, connected, queue, output, inserted)
    requires |queue| > 0
    ensures var n := queue[0];
            var ready := WhereNoIncomingArrows(RemoveFirst(connected, n), arrows, arrows(n));
            Distinct(output + [n] + (queue[1..] + ready))
  {
    var n := queue[0];
    DequeuedIsNew(source, arrows, connected, queue, output, inserted);
    var ready := WhereNoIncomingArrows(RemoveFirst(connected, n), arrows, arrows(n));
    SubsequenceDistinct(ready, arrows(n));
    forall t | t in ready ensures t !in output + queue {
      assert !NoIncomingArrows(connected, arrows, t);
    }
    DistinctConcat(output + queue, ready);
    assert queue == [n] + queue[1..];
    assert output + [n] + (queue[1..] + ready) == (output + queue) + ready;
  }

  /** After the step, output and queue are still ready, and every ready connected node is queued. */
  lemma StepKeepsReady<T(!new)>(source: seq<T>, arrows: T -> seq<T>,
                                connected: seq<T>, queue: seq<T>, output: seq<T>, inserted: set<T>)
    requires WellFormed(source, arrows)
    requires SortInvariant(source, arrows, connected, queue, output, inserted)
    requires |queue| > 0
    ensures var n := queue[0];
            var connected' := RemoveFirst(connected, n);
            var queue' := queue[1..] + WhereNoIncomingArrows(connected', arrows, arrows(n));
            && |connected'| < |connected|
            && Distinct(connected')
            && (forall x :: x in connected' <==> x in source && x !in output + [n])
            && (forall x :: x in output + [n] + queue' ==> x in source && NoIncomingArrows(connected', arrows, x))
            && (forall x :: x in connected' && NoIncomingArrows(connected', arrows, x) ==> x in queue')
  {
    var n := queue[0];
    DequeuedIsNew(source, arrows, connected, queue, output, inserted);
    var connected' := RemoveFirst(connected, n);
    var ready := WhereNoIncomingArrows(connected', arrows, arrows(n));
    var queue' := queue[1..] + ready;
    assert queue == [n] + queue[1..];
    forall x | x in connected' && NoIncomingArrows(connected', arrows, x) ensures x in queue' {
      if NoIncomingArrows(connected, arrows, x) {
        assert x in queue && x != n;
      } else {
        var m :| m in connected && x in arrows(m);
        assert m == n;
      }
    }
    forall x | x in output + [n] + queue' ensures x in source && NoIncomingArrows(connected', arrows, x) {
      if x !in ready {
        assert x in output + queue;
      }
    }
  }

  /** The dequeued node is output after every node that points to it. */
  lemma StepKeepsOrder<T(!new)>(source: seq<T>, arrows: T -> seq<T>,
                                connected: seq<T>, queue: seq<T>, output: seq<T>, inserted: set<T>)
    requires SortInvariant(source, arrows, connected, queue, output, inserted)
    requires |queue| > 0
    ensures var output' := output + [queue[0]];
            forall i, a :: 0 <= i < |output'| && a in source && output'[i] in arrows(a) ==> a in output'[..i]
  {
    var n := queue[0];
    DequeuedIsNew(source, arrows, connected, queue, output, inserted);
    var output' := output + [n];
    forall i, a | 0 <= i < |output'| && a in source && output'[i] in arrows(a) ensures a in output'[..i] {
      if i < |output| {
        assert output'[i] == output[i] && output'[..i] == output[..i];
      } else {
        assert output'[..i] == output;
        assert a !in connected;
      }
    }
  }

  /** Nodes of a blocked set never become ready, so the step does not queue them. */
  lemma StepKeepsBlockedOut<T(!new)>(source: seq<T>, arrows: T -> seq<T>,
                                     connected: seq<T>, queue: seq<T>, output: seq<T>)
    requires forall x :: x in connected <==> x in source && x !in output
    requires Distinct(connected)
    requires BlockedUntouched(source, arrows, output, queue)
    requires |queue| > 0
    ensures var n := queue[0];
            var queue' := queue[1..] + WhereNoIncomingArrows(RemoveFirst(connected, n), arrows, arrows(n));
            BlockedUntouched(source, arrows, output + [n], queue')
  {
    var n := queue[0];
    var connected' := RemoveFirst(connected, n);
    var ready := WhereNoIncomingArrows(connected', arrows, arrows(n));
    var queue' := queue[1..] + ready;
    forall nodes | Blocked(source, arrows, nodes)
      ensures forall x :: x in nodes ==> x !in output + [n] && x !in queue'
    {
      assert n !in nodes;
      forall x | x in nodes ensures x !in output + [n] && x !in queue' {
        var a :| a in ArrowsInto(nodes, arrows, x);
        assert a in connected';
        assert !NoIncomingArrows(connected', arrows, x);
      }
    }
  }

  /** The queue is empty but nodes remain: they form a blocked set, hence a cycle. */
  lemma StuckMeansCycle<T(!new)>(source: seq<T>, arrows: T -> seq<T>, connected: seq<T>)
    requires connected != []
    requires forall x :: x in connected ==> x in source && !NoIncomingArrows(connected, arrows, x)
    ensures HasCycle(source, arrows)
  {
    var nodes := Elements(connected);
    assert connected[0] in nodes;
    forall x | x in nodes ensures ArrowsInto(nodes, arrows, x) != {} {
      var a :| a in connected && x in arrows(a);
      assert a in ArrowsInto(nodes, arrows, x);
    }
    BlockedHasCycle(source, arrows, nodes);
  }

  /** The queue is empty and every node was released: the output is a valid order. */
  lemma Finished<T(!new)>(source: seq<T>, arrows: T -> seq<T>, output: seq<T>, inserted: set<T>)
    requires WellFormed(source, arrows)
    requires SortInvariant(source, arrows, [], [], output, inserted)
    requires BlockedUntouched(source, arrows, output, [])
    ensures !HasCycle(source, arrows)
    ensures Distinct(output) && multiset(output) == multiset(source)
    ensures RespectsArrows(output, arrows)
    ensures source == [] ==> output == []
  {
    assert output + [] == output;
    if HasCycle(source, arrows) {
      var cycle :| IsCycle(source, arrows, cycle);
      CycleIsBlocked(source, arrows, cycle);
      assert false;
    }
    DistinctSameElements(output, source);
    forall i, j | 0 <= i < |output| && 0 <= j < |output| && output[j] in arrows(output[i]) ensures i < j {
      assert output[i] in output[..j];
      var k :| 0 <= k < j && output[..j][k] == output[i];
      assert output[k] == output[i];
    }
  }

  /** The nodes of a cycle form a blocked set: none of them ever becomes ready. */
  lemma CycleIsBlocked<T(!new)>(source: seq<T>, arrows: T -> seq<T>, cycle: seq<T>)
    requires IsCycle(source, arrows, cycle)
    ensures Blocked(source, arrows, Elements(cycle))
  {
    var nodes := Elements(cycle);
    assert cycle[0] in nodes;
    forall x | x in nodes ensures ArrowsInto(nodes, arrows, x) != {} {
      var k :| 0 <= k < |cycle| && cycle[k] == x;
      var p := if k == 0 then |cycle| - 1 else k - 1;
      NextIndex(p, |cycle|);
      assert cycle[(p + 1) % |cycle|] in arrows(cycle[p]);
      assert cycle[p] in ArrowsInto(nodes, arrows, x);
    }
  }

  /** The index after `p` around a cycle of length `n`. */
  lemma NextIndex(p: int, n: int)
    requires 0 <= p < n
    ensures (p + 1) % n == if p + 1 == n then 0 else p + 1
  {
  }

  /** Walking backwards along arrows inside a blocked set, `steps` times, starting at `x`. */
  ghost function BackWalk<T(!new)>(source: seq<T>, arrows: T -> seq<T>, nodes: set<T>, x: T, steps: nat): (w: seq<T>)
    requires Blocked(source, arrows, nodes) && x in nodes
    ensures |w| == steps + 1 && w[0] == x
    ensures forall k :: 0 <= k < |w| ==> w[k] in nodes
    ensures forall k {:trigger arrows(w[k])} :: 0 < k < |w| ==> w[k - 1] in arrows(w[k])
    decreases steps
  {
    if steps == 0 then [x]
    else
      var a :| a in ArrowsInto(nodes, arrows, x);
      var rest := BackWalk(source, arrows, nodes, a, steps - 1);
      assert forall k :: 1 < k < |rest| + 1 ==> ([x] + rest)[k] == rest[k - 1];
      [x] + rest
  }

  /** A blocked set contains a cycle (pigeonhole on a long enough backward walk). */
  lemma BlockedHasCycle<T(!new)>(source: seq<T>, arrows: T -> seq<T>, nodes: set<T>)
    requires Blocked(source, arrows, nodes)
    ensures HasCycle(source, arrows)
  {
    var x :| x in nodes;
    var w := BackWalk(source, arrows, nodes, x, |nodes|);
    Pigeonhole(w, nodes);
    var i, j :| 0 <= i < j < |w| && w[i] == w[j];
    ClosedWalkIsCycle(source, arrows, w, i, j);
  }

  /** A backward walk that returns to a node, read forwards, is a cycle. */
  lemma ClosedWalkIsCycle<T(!new)>(source: seq<T>, arrows: T -> seq<T>, w: seq<T>, i: nat, j: nat)
    requires i < j < |w| && w[i] == w[j]
    requires forall k :: 0 <= k < |w| ==> w[k] in source
    requires forall k {:trigger arrows(w[k])} :: 0 < k < |w| ==> w[k - 1] in arrows(w[k])
    ensures HasCycle(source, arrows)
  {
    // w[j], w[j - 1], ..., w[i + 1]
    var cycle := seq(j - i, m requires 0 <= m < j - i => w[j - m]);
    forall k | 0 <= k < |cycle| ensures cycle[(k + 1) % |cycle|] in arrows(cycle[k]) {
      assert cycle[k] == w[j - k];
      assert w[j - k - 1] in arrows(w[j - k]);
      if k + 1 < |cycle| {
        assert (k + 1) % |cycle| == k + 1;
      } else {
        assert (k + 1) % |cycle| == 0;
      }
    }
    assert IsCycle(source, arrows, cycle);
  }

  /** Failure happens exactly when some non-empty set of nodes each has an arrow into it from the set. */
  lemma CycleIffBlocked<T(!new)>(source: seq<T>, arrows: T -> seq<T>)
    ensures HasCycle(source, arrows) <==> exists nodes :: Blocked(source, arrows, nodes)
  {
    if HasCycle(source, arrows) {
      var cycle :| IsCycle(source, arrows, cycle);
      CycleIsBlocked(source, arrows, cycle);
    }
    if exists nodes :: Blocked(source, arrows, nodes) {
      var nodes :| Blocked(source, arrows, nodes);
      BlockedHasCycle(source, arrows, nodes);
    }
  }

  /** A node with an arrow to itself is a cycle of length one, so the sort throws. */
  lemma SelfArrowIsCycle<T(!new)>(source: seq<T>, arrows: T -> seq<T>, node: T)
    requires node in source && node in arrows(node)
    ensures HasCycle(source, arrows)
  {
    assert [node][(0 + 1) % 1] in arrows([node][0]);
    assert IsCycle(source, arrows, [node]);
  }
}
