/**
 The selector, `filter_key_value` (filter_plugins/regex_filter_list.py:70-94):
 keeps the records of a list whose named field matches, and answers for a
 single record whether its field matches.
 */
module Selector {
  import opened PyValues
  import opened Matcher

  /** What `filter_key_value` returns, by input shape: the filtered list for a
      list (and an empty list for anything that is neither a list nor a dict);
      for a dict `{key: value}`, `{}`, or `None`. */
  datatype Reply =
    | Filtered(kept: seq<Value>)
    | Matched(key: string, value: Value)
    | NotMatched
    | Absent

  /** Python truthiness of a reply: a non-empty list or dict is true, `[]`, `{}`
      and `None` are false. */
  predicate Truthy(r: Reply)
  {
    match r
    case Filtered(kept) => kept != []
    case Matched(_, _) => true
    case NotMatched => false
    case Absent => false
  }

  /** The keep rule of the list loop: a truthy verdict, or `None`. */
  predicate Keep(r: Reply)
  {
    Truthy(r) || r.Absent?
  }

  /** The verdict on a dict item whose key is the filter key. */
  function Judge(item: (string, Value), exprList: Value, negate: bool, search: Search): Result<Reply>
  {
    match Matches(item.1, exprList, negate, search)
    case Err(e) => Err(e)
    case Ok(b) => Ok(if b then Matched(item.0, item.1) else NotMatched)
  }

  /** The dict scan: the first item whose key is `keyName` decides; `None` when
      there is none. A dict is never answered with a list. */
  function Lookup(items: seq<(string, Value)>, keyName: string, exprList: Value, negate: bool, search: Search): (r: Result<Reply>)
    ensures r.Ok? ==> !r.value.Filtered?
    decreases |items|
  {
    if items == [] then Ok(Absent)
    else if items[0].0 == keyName then Judge(items[0], exprList, negate, search)
    else Lookup(items[1..], keyName, exprList, negate, search)
  }

  /** The answer of `filter_key_value(v, keyName, exprList, negate)`. */
  function Filter(v: Value, keyName: string, exprList: Value, negate: bool, search: Search): Result<Reply>
    decreases v
  {
    match v
    case List(xs) =>
      (match FilterEntries(xs, keyName, exprList, negate, search)
       case Err(e) => Err(e)
       case Ok(kept) => Ok(Filtered(kept)))
    case Dict(items) => Lookup(items, keyName, exprList, negate, search)
    case _ => Ok(Filtered([]))
  }

  /** The list loop over `xs`, entry by entry: an entry is appended when the
      recursive verdict on it is kept; an exception aborts the whole loop. */
  function FilterEntries(xs: seq<Value>, keyName: string, exprList: Value, negate: bool, search: Search): Result<seq<Value>>
    decreases xs
  {
    if xs == [] then Ok([])
    else
      match FilterEntries(xs[..|xs| - 1], keyName, exprList, negate, search)
      case Err(e) => Err(e)
      case Ok(kept) =>
        match Filter(xs[|xs| - 1], keyName, exprList, negate, search)
        case Err(e) => Err(e)
        case Ok(r) => Ok(if Keep(r) then kept + [xs[|xs| - 1]] else kept)
  }

  /** Does entry `x` survive the list loop. */
  predicate Kept(x: Value, keyName: string, exprList: Value, negate: bool, search: Search)
  {
    Filter(x, keyName, exprList, negate, search).Ok? && Keep(Filter(x, keyName, exprList, negate, search).value)
  }

  /** `filter_key_value`: dispatch on the shape of the input, building the
      filtered list by appending, or scanning the dict items until the key. */
  method FilterKeyValue(v: Value, keyName: string, exprList: Value, negate: bool, search: Search) returns (r: Result<Reply>)
    ensures r == Filter(v, keyName, exprList, negate, search)
    decreases v
  {
    var filteredList: seq<Value> := [];
    if v.List? {
      var xs := v.elems;
      for i := 0 to |xs|
        invariant FilterEntries(xs[..i], keyName, exprList, negate, search) == Ok(filteredList)
      {
        assert xs[..i + 1][..i] == xs[..i];
        var verifyDict := FilterKeyValue(xs[i], keyName, exprList, negate, search);
        if verifyDict.Err? {
          FilterEntriesAbort(xs, i + 1, keyName, exprList, negate, search);
          return Err(verifyDict.error);
        }
        if Truthy(verifyDict.value) || verifyDict.value.Absent? {
          filteredList := filteredList + [xs[i]];
        }
      }
      assert xs[..|xs|] == xs;
    }
    if v.Dict? {
      var items := v.items;
      for i := 0 to |items|
        invariant Lookup(items, keyName, exprList, negate, search) == Lookup(items[i..], keyName, exprList, negate, search)
      {
        assert items[i..][1..] == items[i + 1..];
        var key, value := items[i].0, items[i].1;
        if key == keyName {
          var m := RegexFromList(value, exprList, negate, search);
          if m.Err? {
            return Err(m.error);
          }
          if m.value {
            return Ok(Matched(key, value));
          }
          return Ok(NotMatched);
        }
      }
      return Ok(Absent);
    }
    r := Ok(Filtered(filteredList));
  }

  /** An exception in the first `n` entries aborts the whole loop. */
  lemma {:induction false} FilterEntriesAbort(xs: seq<Value>, n: nat, keyName: string, exprList: Value, negate: bool, search: Search)
    requires n <= |xs|
    requires FilterEntries(xs[..n], keyName, exprList, negate, search).Err?
    ensures FilterEntries(xs, keyName, exprList, negate, search) == FilterEntries(xs[..n], keyName, exprList, negate, search)
    decreases |xs|
  {
    if n < |xs| {
      var m := |xs| - 1;
      assert xs[..m][..n] == xs[..n];
      FilterEntriesAbort(xs[..m], n, keyName, exprList, negate, search);
    } else {
      assert xs[..n] == xs;
    }
  }

  // ---------------------------------------------------------------------------
  // The dict scan

  ghost predicate HasKey(items: seq<(string, Value)>, keyName: string)
  {
    exists i :: 0 <= i < |items| && items[i].0 == keyName
  }

  /** Item `i` holds the first occurrence of `keyName`. */
  ghost predicate FirstKey(items: seq<(string, Value)>, keyName: string, i: int)
  {
    0 <= i < |items| && items[i].0 == keyName &&
    forall j :: 0 <= j < i ==> items[j].0 != keyName
  }

  /** A dict answers `None` exactly when it has no item with the filter key. */
  lemma {:induction false} LookupAbsent(items: seq<(string, Value)>, keyName: string, exprList: Value, negate: bool, search: Search)
    ensures Lookup(items, keyName, exprList, negate, search) == Ok(Absent) <==> !HasKey(items, keyName)
    decreases |items|
  {
    if items != [] && items[0].0 != keyName {
      LookupAbsent(items[1..], keyName, exprList, negate, search);
      assert HasKey(items, keyName) ==> HasKey(items[1..], keyName) by {
        if HasKey(items, keyName) {
          var i :| 0 <= i < |items| && items[i].0 == keyName;
          assert items[1..][i - 1] == items[i];
        }
      }
      assert HasKey(items[1..], keyName) ==> HasKey(items, keyName) by {
        if HasKey(items[1..], keyName) {
          var i :| 0 <= i < |items[1..]| && items[1..][i].0 == keyName;
          assert items[i + 1] == items[1..][i];
        }
      }
    } else if items != [] {
      assert HasKey(items, keyName) by { assert items[0].0 == keyName; }
    }
  }

  /** Only the first item with the filter key decides: `{key: value}` when the
      matcher says yes, `{}` when it says no; later items are never looked at. */
  lemma {:induction false} LookupFirstKey(items: seq<(string, Value)>, keyName: string, exprList: Value, negate: bool, search: Search, i: int)
    requires FirstKey(items, keyName, i)
    ensures Lookup(items, keyName, exprList, negate, search) == Judge(items[i], exprList, negate, search)
    ensures Matches(items[i].1, exprList, negate, search) == Ok(true) ==>
              Lookup(items, keyName, exprList, negate, search) == Ok(Matched(keyName, items[i].1))
    ensures Matches(items[i].1, exprList, negate, search) == Ok(false) ==>
              Lookup(items, keyName, exprList, negate, search) == Ok(NotMatched)
    decreases |items|
  {
    if i > 0 {
      assert items[0].0 != keyName;
      assert FirstKey(items[1..], keyName, i - 1) by {
        forall j | 0 <= j < i - 1 ensures items[1..][j].0 != keyName {
          assert items[1..][j] == items[j + 1];
        }
      }
      LookupFirstKey(items[1..], keyName, exprList, negate, search, i - 1);
    }
  }

  /** Negation never changes whether the dict scan raises, nor what it raises;
      a dict with the key is kept under exactly one of the two settings, and a
      dict without it answers `None` under both. */
  lemma {:induction false} LookupDuality(items: seq<(string, Value)>, keyName: string, exprList: Value, search: Search)
    ensures Lookup(items, keyName, exprList, true, search).Ok? <==> Lookup(items, keyName, exprList, false, search).Ok?
    ensures Lookup(items, keyName, exprList, true, search).Err? ==>
              Lookup(items, keyName, exprList, true, search).error == Lookup(items, keyName, exprList, false, search).error
    ensures Lookup(items, keyName, exprList, false, search).Ok? && HasKey(items, keyName) ==>
              Keep(Lookup(items, keyName, exprList, false, search).value) !=
              Keep(Lookup(items, keyName, exprList, true, search).value)
    ensures !HasKey(items, keyName) ==>
              Lookup(items, keyName, exprList, false, search) == Ok(Absent) &&
              Lookup(items, keyName, exprList, true, search) == Ok(Absent)
    decreases |items|
  {
    LookupAbsent(items, keyName, exprList, false, search);
    LookupAbsent(items, keyName, exprList, true, search);
    if items != [] {
      if items[0].0 == keyName {
        NegationDuality(items[0].1, exprList, search);
      } else {
        LookupDuality(items[1..], keyName, exprList, search);
        assert HasKey(items, keyName) ==> HasKey(items[1..], keyName) by {
          if HasKey(items, keyName) {
            var i :| 0 <= i < |items| && items[i].0 == keyName;
            assert items[1..][i - 1] == items[i];
          }
        }
      }
    }
  }

  // ---------------------------------------------------------------------------
  // The list loop

  /** The loop raises exactly when some entry raises, and then with the
      exception of the first entry that does. */
  lemma {:induction false} FilterEntriesRaises(xs: seq<Value>, keyName: string, exprList: Value, negate: bool, search: Search)
    ensures FilterEntries(xs, keyName, exprList, negate, search).Ok? <==>
              forall i :: 0 <= i < |xs| ==> Filter(xs[i], keyName, exprList, negate, search).Ok?
    ensures FilterEntries(xs, keyName, exprList, negate, search).Err? ==>
              exists i :: 0 <= i < |xs| &&
                Filter(xs[i], keyName, exprList, negate, search) == Err(FilterEntries(xs, keyName, exprList, negate, search).error) &&
                forall j :: 0 <= j < i ==> Filter(xs[j], keyName, exprList, negate, search).Ok?
    decreases |xs|
  {
    if xs != [] {
      var n := |xs| - 1;
      FilterEntriesRaises(xs[..n], keyName, exprList, negate, search);
      assert forall i :: 0 <= i < n ==> xs[..n][i] == xs[i];
    }
  }

  /** The output is a subsequence of the input: entry `k` of the output is the
      unmodified input entry at position `idx[k]`, the positions increase
      strictly, and they are exactly the positions of the entries that are kept. */
  lemma {:induction false} KeptPositions(xs: seq<Value>, keyName: string, exprList: Value, negate: bool, search: Search)
    returns (idx: seq<nat>)
    requires FilterEntries(xs, keyName, exprList, negate, search).Ok?
    ensures |idx| == |FilterEntries(xs, keyName, exprList, negate, search).value|
    ensures forall k :: 0 <= k < |idx| ==>
              idx[k] < |xs| && FilterEntries(xs, keyName, exprList, negate, search).value[k] == xs[idx[k]]
    ensures forall k, l :: 0 <= k < l < |idx| ==> idx[k] < idx[l]
    ensures forall i :: 0 <= i < |xs| ==> (i in idx <==> Kept(xs[i], keyName, exprList, negate, search))
    decreases |xs|
  {
    if xs == [] {
      idx := [];
    } else {
      var n := |xs| - 1;
      var init := xs[..n];
      var pre := KeptPositions(init, keyName, exprList, negate, search);
      assert forall i :: 0 <= i < n ==> init[i] == xs[i];
      if Kept(xs[n], keyName, exprList, negate, search) {
        idx := pre + [n];
      } else {
        idx := pre;
      }
    }
  }

  /** A value is in the output exactly when it is an entry of the input that is kept. */
  lemma {:induction false} KeptMembership(xs: seq<Value>, keyName: string, exprList: Value, negate: bool, search: Search)
    requires FilterEntries(xs, keyName, exprList, negate, search).Ok?
    ensures forall x :: x in FilterEntries(xs, keyName, exprList, negate, search).value <==>
              x in xs && Kept(x, keyName, exprList, negate, search)
    decreases |xs|
  {
    if xs != [] {
      var n := |xs| - 1;
      KeptMembership(xs[..n], keyName, exprList, negate, search);
      assert xs == xs[..n] + [xs[n]];
    }
  }

  /** Helper for FilterIdempotent: the list loop run on its own output. */
  lemma {:induction false} FilterEntriesIdempotent(xs: seq<Value>, keyName: string, exprList: Value, negate: bool, search: Search)
    requires FilterEntries(xs, keyName, exprList, negate, search).Ok?
    ensures FilterEntries(FilterEntries(xs, keyName, exprList, negate, search).value, keyName, exprList, negate, search) ==
              FilterEntries(xs, keyName, exprList, negate, search)
    decreases |xs|
  {
    if xs != [] {
      var n := |xs| - 1;
      var kept := FilterEntries(xs[..n], keyName, exprList, negate, search).value;
      FilterEntriesIdempotent(xs[..n], keyName, exprList, negate, search);
      if Kept(xs[n], keyName, exprList, negate, search) {
        assert (kept + [xs[n]])[..|kept|] == kept;
      }
    }
  }

  /** Filtering is idempotent: re-filtering the output with the same arguments
      returns it unchanged, since every kept entry is kept again. */
  lemma FilterIdempotent(v: Value, keyName: string, exprList: Value, negate: bool, search: Search, kept: seq<Value>)
    requires Filter(v, keyName, exprList, negate, search) == Ok(Filtered(kept))
    ensures Filter(List(kept), keyName, exprList, negate, search) == Ok(Filtered(kept))
  {
    if v.List? {
      FilterEntriesIdempotent(v.elems, keyName, exprList, negate, search);
    }
  }

  // ---------------------------------------------------------------------------
  // Negation

  /** Negation never changes whether filtering raises, nor what it raises. */
  lemma {:induction false} FilterRaisesIgnoreNegate(v: Value, keyName: string, exprList: Value, search: Search)
    ensures Filter(v, keyName, exprList, true, search).Ok? <==> Filter(v, keyName, exprList, false, search).Ok?
    ensures Filter(v, keyName, exprList, true, search).Err? ==>
              Filter(v, keyName, exprList, true, search).error == Filter(v, keyName, exprList, false, search).error
    decreases v, 1
  {
    match v
    case List(xs) => FilterEntriesRaisesIgnoreNegate(xs, keyName, exprList, search);
    case Dict(items) => LookupDuality(items, keyName, exprList, search);
    case Str(_) =>
    case Other =>
  }

  lemma {:induction false} FilterEntriesRaisesIgnoreNegate(xs: seq<Value>, keyName: string, exprList: Value, search: Search)
    ensures FilterEntries(xs, keyName, exprList, true, search).Ok? <==> FilterEntries(xs, keyName, exprList, false, search).Ok?
    ensures FilterEntries(xs, keyName, exprList, true, search).Err? ==>
              FilterEntries(xs, keyName, exprList, true, search).error == FilterEntries(xs, keyName, exprList, false, search).error
    decreases xs, 0
  {
    if xs != [] {
      var n := |xs| - 1;
      FilterEntriesRaisesIgnoreNegate(xs[..n], keyName, exprList, search);
      FilterRaisesIgnoreNegate(xs[n], keyName, exprList, search);
    }
  }

  /** The filter with and without negation: a record holding the filter key
      lands in exactly one of the two outputs, a record lacking it lands in
      both, and an entry that is neither a list nor a dict lands in neither. */
  lemma NegationPartition(xs: seq<Value>, keyName: string, exprList: Value, search: Search)
    requires FilterEntries(xs, keyName, exprList, false, search).Ok?
    ensures FilterEntries(xs, keyName, exprList, true, search).Ok?
    ensures forall x :: x in xs && x.Dict? && HasKey(x.items, keyName) ==>
              (x in FilterEntries(xs, keyName, exprList, false, search).value <==>
               x !in FilterEntries(xs, keyName, exprList, true, search).value)
    ensures forall x :: x in xs && x.Dict? && !HasKey(x.items, keyName) ==>
              x in FilterEntries(xs, keyName, exprList, false, search).value &&
              x in FilterEntries(xs, keyName, exprList, true, search).value
    ensures forall x :: x in xs && (x.Str? || x.Other?) ==>
              x !in FilterEntries(xs, keyName, exprList, false, search).value &&
              x !in FilterEntries(xs, keyName, exprList, true, search).value
  {
    FilterEntriesRaisesIgnoreNegate(xs, keyName, exprList, search);
    KeptMembership(xs, keyName, exprList, false, search);
    KeptMembership(xs, keyName, exprList, true, search);
    forall x | x in xs && x.Dict?
      ensures HasKey(x.items, keyName) ==>
                (Kept(x, keyName, exprList, false, search) <==> !Kept(x, keyName, exprList, true, search))
      ensures !HasKey(x.items, keyName) ==>
                Kept(x, keyName, exprList, false, search) && Kept(x, keyName, exprList, true, search)
    {
      LookupDuality(x.items, keyName, exprList, search);
    }
  }

  /** With an empty pattern list and no negation no field value matches, so of
      a list of records exactly those lacking the filter key are kept. */
  lemma {:induction false} EmptyPatternsKeepOnlyAbsent(xs: seq<Value>, keyName: string, search: Search)
    requires forall i :: 0 <= i < |xs| ==> xs[i].Dict?
    ensures FilterEntries(xs, keyName, List([]), false, search).Ok?
    ensures forall x :: x in FilterEntries(xs, keyName, List([]), false, search).value <==>
              x in xs && !HasKey(x.items, keyName)
  {
    forall i | 0 <= i < |xs|
      ensures Lookup(xs[i].items, keyName, List([]), false, search) ==
                if HasKey(xs[i].items, keyName) then Ok(NotMatched) else Ok(Absent)
    {
      LookupEmptyPatterns(xs[i].items, keyName, search);
    }
    FilterEntriesRaises(xs, keyName, List([]), false, search);
    KeptMembership(xs, keyName, List([]), false, search);
  }

  /** Helper for EmptyPatternsKeepOnlyAbsent: the dict scan with no patterns. */
  lemma {:induction false} LookupEmptyPatterns(items: seq<(string, Value)>, keyName: string, search: Search)
    ensures Lookup(items, keyName, List([]), false, search) ==
              if HasKey(items, keyName) then Ok(NotMatched) else Ok(Absent)
    decreases |items|
  {
    LookupAbsent(items, keyName, List([]), false, search);
    if items != [] {
      if items[0].0 == keyName {
        PatternCoercion(items[0].1, items[0].1, false, search);
      } else {
        LookupEmptyPatterns(items[1..], keyName, search);
      }
    }
  }
}
