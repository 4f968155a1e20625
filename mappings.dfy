/**
  The `a=b,c=d` name-mapping argument of an import: split on ',', each item
  split on '=', then `ToDictionary(m => m[0], m => m[1])`.
*/
module MappingArgument {
  import opened Wrappers
  import opened Strings
  import opened ImportPlanning

  /** The exceptions `ToDictionary` throws. */
  datatype MappingError =
    | MissingValue(item: string) // `m[1]` on an item without '=': IndexOutOfRangeException
    | DuplicateKey(key: string)  // `Dictionary.Add` of a key already present: ArgumentException

  /** `m[0]`: the text of an item before its first '='. */
  function Key(item: string): (key: string)
    ensures '=' !in key && key <= item
    ensures |key| < |item| ==> item[|key|] == '='
  {
    SplitHead(item, '=');
    Split(item, '=')[0]
  }

  /** `ToDictionary` over the split items, left to right; the first item that throws decides the error. */
  function Entries(items: seq<string>): (r: Result<map<string, string>, MappingError>)
    // each item adds one entry
    ensures r.Success? ==> |r.value| == |items|
    // an empty item list cannot fail
    ensures r.Failure? ==> items != []
    decreases |items|
  {
    if items == [] then Success(map[])
    else
      match Entries(items[..|items| - 1])
      case Failure(e) => Failure(e)
      case Success(m) =>
        var item := items[|items| - 1];
        var parts := Split(item, '=');
        if |parts| < 2 then Failure(MissingValue(item))
        else if parts[0] in m then Failure(DuplicateKey(parts[0]))
        else Success(m[parts[0] := parts[1]])
  }

  /** The mapping argument parsed into the dictionary. */
  function ParseMappings(arg: string): (r: Result<map<string, string>, MappingError>)
    // one entry per ','-separated item, so never an empty dictionary
    ensures r.Success? ==> |r.value| == |Split(arg, ',')| >= 1
    // keys and values contain neither separator
    ensures r.Success? ==> forall k :: k in r.value ==> ',' !in k && '=' !in k && ',' !in r.value[k] && '=' !in r.value[k]
  {
    ParsedNamesAreClean(Split(arg, ','));
    Entries(Split(arg, ','))
  }

  /** The keys and values of a parsed dictionary come from inside separator-free items. */
  lemma ParsedNamesAreClean(items: seq<string>)
    requires forall i :: 0 <= i < |items| ==> ',' !in items[i]
    ensures Entries(items).Success? ==>
              forall k :: k in Entries(items).value ==>
                ',' !in k && '=' !in k && ',' !in Entries(items).value[k] && '=' !in Entries(items).value[k]
  {
    if Entries(items).Success? {
      EntriesContents(items);
      var m := Entries(items).value;
      forall k | k in m ensures ',' !in k && '=' !in k && ',' !in m[k] && '=' !in m[k] {
        var i :| 0 <= i < |items| && Key(items[i]) == k;
        var v := Value(items[i]);
        assert k + "=" + v <= items[i];
        assert forall c :: c in k + "=" + v ==> c in items[i];
      }
    }
  }

  /** `m[1]`: the text of an item between its first and second '='. */
  function Value(item: string): (value: string)
    requires HasValue(item)
    ensures '=' !in value
    ensures Key(item) + "=" + value <= item
    ensures |Key(item)| + 1 + |value| < |item| ==> item[|Key(item)| + 1 + |value|] == '='
  {
    var key := Key(item);
    ValuePresent(item);
    assert |key| < |item|;
    var rest := item[|key| + 1..];
    assert item == key + ['='] + rest;
    SplitAfterHead(key, '=', rest);
    SplitHead(rest, '=');
    assert item == key + "=" + rest;
    Split(item, '=')[1]
  }

  /** `m[1]` exists. */
  predicate HasValue(item: string) {
    |Split(item, '=')| >= 2
  }

  /** An item has a value part exactly when it contains '='. */
  lemma {:induction false} ValuePresent(item: string)
    ensures HasValue(item) <==> '=' in item
    decreases |item|
  {
    if item != [] {
      ValuePresent(item[1..]);
      assert item == [item[0]] + item[1..];
    }
  }

  /** The items have distinct keys. */
  ghost predicate DistinctKeys(items: seq<string>) {
    forall i, j :: 0 <= i < j < |items| ==> Key(items[i]) != Key(items[j])
  }

  /** The items become a dictionary exactly when every item contains '=' and no two items share a key. */
  lemma {:induction false} EntriesSucceed(items: seq<string>)
    ensures Entries(items).Success? <==> (forall i :: 0 <= i < |items| ==> '=' in items[i]) && DistinctKeys(items)
    decreases |items|
  {
    if items != [] {
      var items' := items[..|items| - 1];
      var item := items[|items| - 1];
      EntriesSucceed(items');
      ValuePresent(item);
      SnocConditions(items);
      if Entries(items').Success? && '=' in item {
        EntriesKeys(items');
      }
    }
  }

  /** The conditions of `EntriesSucceed` for a list are those of its prefix plus those on its last item. */
  lemma SnocConditions(items: seq<string>)
    requires items != []
    ensures var items', item := items[..|items| - 1], items[|items| - 1];
            ((forall i :: 0 <= i < |items| ==> '=' in items[i]) && DistinctKeys(items)) <==>
            && (forall i :: 0 <= i < |items'| ==> '=' in items'[i])
            && DistinctKeys(items')
            && '=' in item
            && (forall i :: 0 <= i < |items'| ==> Key(items'[i]) != Key(item))
  {
    var items', last := items[..|items| - 1], |items| - 1;
    assert forall i :: 0 <= i < |items'| ==> items'[i] == items[i];
  }

  /** A parsed dictionary maps each item's key to its value part and holds nothing else. */
  lemma EntriesContents(items: seq<string>)
    ensures Entries(items).Success? ==>
              && (forall i :: 0 <= i < |items| ==> HasValue(items[i]))
              && (forall k :: k in Entries(items).value <==> exists i :: 0 <= i < |items| && Key(items[i]) == k)
              && (forall i :: 0 <= i < |items| ==> Entries(items).value[Key(items[i])] == Value(items[i]))
  {
    EntriesKeys(items);
    if Entries(items).Success? {
      EntriesValues(items);
    }
  }

  /** A parsed dictionary holds the key of every item, every item has a value part, and nothing else is held. */
  lemma {:induction false} EntriesKeys(items: seq<string>)
    ensures Entries(items).Success? ==>
              && (forall i :: 0 <= i < |items| ==> HasValue(items[i]))
              && (forall k :: k in Entries(items).value <==> exists i :: 0 <= i < |items| && Key(items[i]) == k)
    decreases |items|
  {
    if items != [] && Entries(items).Success? {
      var items' := items[..|items| - 1];
      var last := |items| - 1;
      EntriesKeys(items');
      var m', m := Entries(items').value, Entries(items).value;
      assert forall k :: k in m <==> k in m' || k == Key(items[last]);
      forall i | 0 <= i < |items| ensures HasValue(items[i]) && Key(items[i]) in m {
        if i < last {
          assert items'[i] == items[i];
        }
      }
      forall k | k in m ensures exists i :: 0 <= i < |items| && Key(items[i]) == k {
        if k != Key(items[last]) {
          assert k in m';
          var i :| 0 <= i < |items'| && Key(items'[i]) == k;
          assert items[i] == items'[i];
        }
      }
    }
  }

  /** A parsed dictionary maps each item's key to that item's value part. */
  lemma {:induction false} EntriesValues(items: seq<string>)
    requires Entries(items).Success?
    ensures forall i :: 0 <= i < |items| ==>
              HasValue(items[i]) && Key(items[i]) in Entries(items).value &&
              Entries(items).value[Key(items[i])] == Value(items[i])
    decreases |items|
  {
    if items != [] {
      var items' := items[..|items| - 1];
      var last := |items| - 1;
      EntriesValues(items');
      forall i | 0 <= i < last
        ensures HasValue(items[i]) && Key(items[i]) in Entries(items).value
        ensures Entries(items).value[Key(items[i])] == Value(items[i])
      {
        assert items'[i] == items[i];
      }
    }
  }

  /** A failing parse names an item without '=' or a key two items share. */
  lemma {:induction false} EntriesFailure(items: seq<string>)
    ensures match Entries(items)
            case Success(_) => true
            case Failure(MissingValue(item)) => item in items && '=' !in item
            case Failure(DuplicateKey(key)) =>
              exists i, j :: 0 <= i < j < |items| && Key(items[i]) == key && Key(items[j]) == key
    decreases |items|
  {
    if items != [] {
      var items' := items[..|items| - 1];
      var item := items[|items| - 1];
      EntriesFailure(items');
      EntriesContents(items');
      ValuePresent(item);
      assert forall i :: 0 <= i < |items'| ==> items'[i] == items[i];
      var prefix := Entries(items');
      if prefix.Success? && '=' in item && Key(item) in prefix.value {
        var i :| 0 <= i < |items'| && Key(items'[i]) == Key(item);
        assert Key(items[i]) == Key(items[|items| - 1]);
      }
    }
  }

  /**
    An item `key=value` followed by nothing or by a further '=' puts `value`
    under `key`: the key is the text before the first '=' and the value the
    text between the first and the second.
  */
  lemma MappingEntry(arg: string, i: int, key: string, value: string, rest: string)
    requires 0 <= i < |Split(arg, ',')|
    requires Split(arg, ',')[i] == key + "=" + value + rest
    requires '=' !in key && '=' !in value
    requires rest == [] || rest[0] == '='
    requires ParseMappings(arg).Success?
    ensures key in ParseMappings(arg).value && ParseMappings(arg).value[key] == value
  {
    var items := Split(arg, ',');
    var tail := value + rest;
    assert items[i] == key + ['='] + tail;
    SplitAfterHead(key, '=', tail);
    if rest == [] {
      assert tail == value;
      SplitWithoutSeparator(value, '=');
    } else {
      assert tail == value + ['='] + rest[1..];
      SplitAfterHead(value, '=', rest[1..]);
    }
    EntriesContents(items);
  }

  /** The mapping argument as `Main` builds it: the fourth argument, or the empty string without one. */
  function ImportMappingsAsWritten(args: seq<string>): (r: Result<map<string, string>, MappingError>)
    // without a fourth argument the parse throws
    ensures |args| < 4 ==> r.Failure?
    // so every import that gets past the parse has at least one mapping
    ensures r.Success? ==> |args| >= 4 && |r.value| >= 1
  {
    assert Split("", ',') == [""];
    assert Split("", '=') == [""];
    ParseMappings(if |args| < 4 then "" else args[3])
  }

  /**
    Without a fourth argument the parse throws: the empty string splits into
    one empty item, which has no '='.
  */
  lemma NoMappingArgumentThrows(args: seq<string>)
    requires |args| < 4
    ensures ImportMappingsAsWritten(args) == Failure(MissingValue(""))
  {
    assert Split("", ',') == [""];
    assert Split("", '=') == [""];
  }

  /** The mapping argument with a missing fourth argument read as no mappings. */
  function ImportMappings(args: seq<string>): (r: Result<map<string, string>, MappingError>)
    // with a fourth argument, the parse `Main` does
    ensures |args| >= 4 ==> r == ImportMappingsAsWritten(args)
    // without one, a successful parse in which every name resolves to itself
    ensures |args| < 4 ==> r.Success? && forall name :: MappedName(r.value, name) == name
  {
    if |args| < 4 then Success(map[]) else ParseMappings(args[3])
  }

  /**
    Without a fourth argument the import runs with no mappings: every table and
    column name resolves to itself. With one, the parse is the one `Main` does.
  */
  lemma NoMappingArgumentMapsNothing(args: seq<string>)
    ensures |args| < 4 ==> ImportMappings(args).Success? && ImportMappings(args).value == map[]
    ensures |args| < 4 ==> forall name :: MappedName(ImportMappings(args).value, name) == name
    ensures |args| >= 4 ==> ImportMappings(args) == ImportMappingsAsWritten(args)
  {
  }
}
