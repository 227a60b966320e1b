/**
 The matcher, `regex_from_list` (filter_plugins/regex_filter_list.py:97-114):
 does a value match any pattern of a list, optionally inverted.
 */
module Matcher {
  import opened PyValues

  /** The pattern argument as a list: anything that is not a list stands for the
      one-element list holding it. */
  function Patterns(exprList: Value): seq<Value>
  {
    if exprList.List? then exprList.elems else [exprList]
  }

  /** The `match_list` flag after probing `patterns` from left to right. Every
      pattern is searched, also after a hit, so a later pattern that raises still
      aborts the scan; the first exception raised is the one propagated. */
  function AnyMatch(value: Value, patterns: seq<Value>, search: Search): Result<bool>
    decreases |patterns|
  {
    if patterns == [] then Ok(false)
    else
      match AnyMatch(value, patterns[..|patterns| - 1], search)
      case Err(e) => Err(e)
      case Ok(found) =>
        match search(patterns[|patterns| - 1], value)
        case Raise(e) => Err(e)
        case Hit => Ok(true)
        case Miss => Ok(found)
  }

  /** The answer of `regex_from_list(value, exprList, negate)`. */
  function Matches(value: Value, exprList: Value, negate: bool, search: Search): Result<bool>
  {
    match AnyMatch(value, Patterns(exprList), search)
    case Err(e) => Err(e)
    case Ok(found) => Ok(if negate then !found else found)
  }

  /** `regex_from_list`: one pass over the patterns updating the flag. */
  method RegexFromList(value: Value, exprList: Value, negate: bool, search: Search) returns (r: Result<bool>)
    ensures r == Matches(value, exprList, negate, search)
  {
    var matchList := false;
    var exprs := Patterns(exprList);
    var i := 0;
    while i < |exprs|
      invariant 0 <= i <= |exprs|
      invariant AnyMatch(value, exprs[..i], search) == Ok(matchList)
    {
      assert exprs[..i + 1][..i] == exprs[..i];
      var probe := search(exprs[i], value);
      if probe.Raise? {
        // the exception leaves the loop; the rest of the list is never probed
        AnyMatchAppend(value, exprs[..i + 1], exprs[i + 1..], search);
        assert exprs[..i + 1] + exprs[i + 1..] == exprs;
        return Err(probe.err);
      }
      if probe.Hit? && !matchList {
        matchList := true;
      }
      if !matchList {
        matchList := false;
      }
      i := i + 1;
    }
    assert exprs[..i] == exprs;
    if negate {
      matchList := !matchList;
    }
    r := Ok(matchList);
  }

  // ---------------------------------------------------------------------------
  // Reference definitions: "no pattern raises", "some pattern hits", and
  // "pattern i is the first one that raises".

  ghost predicate NoneRaises(value: Value, patterns: seq<Value>, search: Search)
  {
    forall i :: 0 <= i < |patterns| ==> !search(patterns[i], value).Raise?
  }

  ghost predicate SomeHit(value: Value, patterns: seq<Value>, search: Search)
  {
    exists i :: 0 <= i < |patterns| && search(patterns[i], value) == Hit
  }

  ghost predicate FirstRaise(value: Value, patterns: seq<Value>, search: Search, i: int, e: Error)
  {
    0 <= i < |patterns| && search(patterns[i], value) == Raise(e) &&
    NoneRaises(value, patterns[..i], search)
  }

  /** The flag is "any pattern hits", provided no pattern raises; otherwise the
      scan fails with the exception of the first pattern that raises. */
  lemma {:induction false} AnyMatchMeaning(value: Value, patterns: seq<Value>, search: Search)
    ensures AnyMatch(value, patterns, search).Ok? <==> NoneRaises(value, patterns, search)
    ensures AnyMatch(value, patterns, search).Ok? ==>
              (AnyMatch(value, patterns, search).value <==> SomeHit(value, patterns, search))
    ensures AnyMatch(value, patterns, search).Err? ==>
              exists i :: FirstRaise(value, patterns, search, i, AnyMatch(value, patterns, search).error)
    decreases |patterns|
  {
    if patterns != [] {
      var n := |patterns| - 1;
      var init := patterns[..n];
      AnyMatchMeaning(value, init, search);
      assert forall i :: 0 <= i < n ==> init[i] == patterns[i];
      if AnyMatch(value, init, search).Err? {
        var i :| FirstRaise(value, init, search, i, AnyMatch(value, init, search).error);
        assert init[..i] == patterns[..i];
        assert FirstRaise(value, patterns, search, i, AnyMatch(value, patterns, search).error);
      } else if search(patterns[n], value).Raise? {
        assert init == patterns[..n];
        assert FirstRaise(value, patterns, search, n, AnyMatch(value, patterns, search).error);
      } else if search(patterns[n], value) == Hit {
        assert SomeHit(value, patterns, search);
      } else {
        assert SomeHit(value, init, search) ==> SomeHit(value, patterns, search);
        assert SomeHit(value, patterns, search) ==> SomeHit(value, init, search);
      }
    }
  }

  /** `regex_from_list` without negation answers "some pattern hits"; with
      negation it answers the opposite; either way it raises exactly when some
      pattern raises, with the exception of the first such pattern. */
  lemma MatchesMeaning(value: Value, exprList: Value, negate: bool, search: Search)
    ensures Matches(value, exprList, negate, search).Ok? <==> NoneRaises(value, Patterns(exprList), search)
    ensures Matches(value, exprList, negate, search).Ok? ==>
              (Matches(value, exprList, negate, search).value <==> (SomeHit(value, Patterns(exprList), search) != negate))
    ensures Matches(value, exprList, negate, search).Err? ==>
              exists i :: FirstRaise(value, Patterns(exprList), search, i, Matches(value, exprList, negate, search).error)
  {
    AnyMatchMeaning(value, Patterns(exprList), search);
  }

  /** Negation inverts the answer and changes nothing else. */
  lemma NegationDuality(value: Value, exprList: Value, search: Search)
    ensures Matches(value, exprList, true, search).Ok? <==> Matches(value, exprList, false, search).Ok?
    ensures Matches(value, exprList, true, search).Ok? ==>
              Matches(value, exprList, true, search).value == !Matches(value, exprList, false, search).value
    ensures Matches(value, exprList, true, search).Err? ==>
              Matches(value, exprList, true, search).error == Matches(value, exprList, false, search).error
  {
  }

  /** Scanning a concatenation: the flag is the disjunction of the two halves,
      and the first half's exception, if any, wins. */
  lemma {:induction false} AnyMatchAppend(value: Value, ps: seq<Value>, qs: seq<Value>, search: Search)
    ensures AnyMatch(value, ps + qs, search) ==
              match AnyMatch(value, ps, search)
              case Err(e) => Err(e)
              case Ok(a) =>
                match AnyMatch(value, qs, search)
                case Err(e) => Err(e)
                case Ok(b) => Ok(a || b)
    decreases |qs|
  {
    if qs == [] {
      assert ps + qs == ps;
    } else {
      var n := |qs| - 1;
      assert (ps + qs)[..|ps + qs| - 1] == ps + qs[..n];
      AnyMatchAppend(value, ps, qs[..n], search);
    }
  }

  /** Once a pattern has hit, later patterns that miss do not reset the flag;
      but later patterns are still searched, so one that raises aborts the call. */
  lemma FlagNeverReset(value: Value, ps: seq<Value>, qs: seq<Value>, search: Search)
    requires AnyMatch(value, ps, search) == Ok(true)
    ensures NoneRaises(value, qs, search) ==> AnyMatch(value, ps + qs, search) == Ok(true)
    ensures !NoneRaises(value, qs, search) ==> AnyMatch(value, ps + qs, search).Err?
  {
    AnyMatchAppend(value, ps, qs, search);
    AnyMatchMeaning(value, qs, search);
  }

  /** A pattern that is not a list behaves as the one-element list holding it,
      i.e. as a single search; an empty pattern list matches nothing, so the
      answer is `negate`. */
  lemma PatternCoercion(value: Value, pattern: Value, negate: bool, search: Search)
    ensures !pattern.List? ==>
              Matches(value, pattern, negate, search) == Matches(value, List([pattern]), negate, search)
    ensures !pattern.List? ==>
              Matches(value, pattern, negate, search) ==
                match search(pattern, value)
                case Raise(e) => Err(e)
                case Hit => Ok(!negate)
                case Miss => Ok(negate)
    ensures Matches(value, List([]), negate, search) == Ok(negate)
  {
    assert [pattern][..0] == [];
    assert AnyMatch(value, [pattern][..0], search) == Ok(false);
  }
}
