/**
 The usage example documented with the filter
 (filter_plugins/regex_filter_list.py:23-50), and a record that lacks the key.
 */
module Scenario {
  import opened PyValues
  import opened Matcher
  import opened Selector

  function Record(name: string, other: string): Value
  {
    Dict([("name", Str(name)), ("other", Str(other))])
  }

  function Hans(): Value { Record("hans", "value 1") }
  function Haro(): Value { Record("haro", "value 2") }
  function Franz(): Value { Record("franz", "value 3") }

  /** `data_list | regex_filter_list('name', ["han.*"], negate)`, for any search
      under which "han.*" is found in "hans" only. */
  lemma {:induction false} DocumentedExample(search: Search)
    requires search(Str("han.*"), Str("hans")) == Hit
    requires search(Str("han.*"), Str("haro")) == Miss
    requires search(Str("han.*"), Str("franz")) == Miss
    ensures Filter(List([Hans(), Haro(), Franz()]), "name", List([Str("han.*")]), false, search) ==
              Ok(Filtered([Hans()]))
    ensures Filter(List([Hans(), Haro(), Franz()]), "name", List([Str("han.*")]), true, search) ==
              Ok(Filtered([Haro(), Franz()]))
  {
    var data := [Hans(), Haro(), Franz()];
    var filter := List([Str("han.*")]);
    forall negate: bool
      ensures FilterEntries(data, "name", filter, negate, search) ==
                Ok(if negate then [Haro(), Franz()] else [Hans()])
    {
      PatternCoercion(Str("hans"), Str("han.*"), negate, search);
      PatternCoercion(Str("haro"), Str("han.*"), negate, search);
      PatternCoercion(Str("franz"), Str("han.*"), negate, search);
      assert Filter(Hans(), "name", filter, negate, search) ==
               Ok(if negate then NotMatched else Matched("name", Str("hans")));
      assert Filter(Haro(), "name", filter, negate, search) ==
               Ok(if negate then Matched("name", Str("haro")) else NotMatched);
      assert Filter(Franz(), "name", filter, negate, search) ==
               Ok(if negate then Matched("name", Str("franz")) else NotMatched);
      assert FilterEntries([Hans()], "name", filter, negate, search) ==
               Ok(if negate then [] else [Hans()]) by {
        assert [Hans()][..0] == [];
        assert FilterEntries([], "name", filter, negate, search) == Ok([]);
        assert [] + [Hans()] == [Hans()];
      }
      assert FilterEntries([Hans(), Haro()], "name", filter, negate, search) ==
               Ok(if negate then [Haro()] else [Hans()]) by {
        assert [Hans(), Haro()][..1] == [Hans()];
        assert [] + [Haro()] == [Haro()];
      }
      assert data[..2] == [Hans(), Haro()];
      assert [Haro()] + [Franz()] == [Haro(), Franz()];
    }
  }

  /** A record without the "name" key survives with and without negation, and
      a scalar entry is dropped with and without negation. */
  lemma {:induction false} MissingKeyExample(search: Search, negate: bool)
    ensures Filter(List([Dict([("other", Str("value 4"))]), Other, Hans()]), "name", List([]), negate, search) ==
              Ok(Filtered(if negate then [Dict([("other", Str("value 4"))]), Hans()] else [Dict([("other", Str("value 4"))])]))
  {
    var record := Dict([("other", Str("value 4"))]);
    var data := [record, Other, Hans()];
    PatternCoercion(Str("hans"), Str("hans"), negate, search);
    assert Lookup(record.items, "name", List([]), negate, search) == Ok(Absent);
    assert Filter(Hans(), "name", List([]), negate, search) ==
             Ok(if negate then Matched("name", Str("hans")) else NotMatched);
    assert FilterEntries([record], "name", List([]), negate, search) == Ok([record]) by {
      assert [record][..0] == [];
      assert FilterEntries([], "name", List([]), negate, search) == Ok([]);
      assert [] + [record] == [record];
    }
    assert FilterEntries([record, Other], "name", List([]), negate, search) == Ok([record]) by {
      assert [record, Other][..1] == [record];
    }
    assert data[..2] == [record, Other];
    assert [record] + [Hans()] == [record, Hans()];
  }
}
