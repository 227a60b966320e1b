# regex_filter_list, modelled in Dafny

`regex_filter_list` is an Ansible filter. It takes a list of records (dicts), a field name, one or more regular-expression patterns and a `negate` flag. It keeps the records whose field value is found by some pattern, or, with `negate`, the records whose value no pattern finds. The whole logic sits in `filter_plugins/regex_filter_list.py`, and this project models its two routines:

- **`regex_from_list`, the matcher.** It searches the value with every pattern and sets a flag once one of them hits. It then inverts the flag when `negate` is set. A pattern argument that is not a list stands for the one-element list holding it.
- **`filter_key_value`, the selector.** It dispatches on the shape of its input:
  - **List:** it runs itself on every entry and keeps the entry when the answer is truthy or `None`.
  - **Dict:** the first key equal to the field name decides. The answer is `{key: value}` on a match and `{}` otherwise, and `None` when the key is missing.
  - **Anything else:** the answer is `[]`.

  Because `None` means "keep", a record without the field survives under both settings of `negate`.

Modules:

- `PyValues` (values.dfy) holds the data model:
  - the values the filter receives: dict as an ordered item sequence, list, string, other scalar;
  - the outcome of one `re.search` call: hit, miss, or a raised exception;
  - a `Result` type that carries a raised exception to the caller.
- `Matcher` (matcher.dfy) models `regex_from_list`:
  - `AnyMatch` and `Matches` are the specification functions;
  - `RegexFromList` is the loop, proved equal to `Matches`;
  - the lemmas relate `Matches` to the reference predicates "no pattern raises", "some pattern hits" and "the first pattern that raises".
- `Selector` (selector.dfy) models `filter_key_value`:
  - `Filter`, `FilterEntries` (the list loop) and `Lookup` (the dict scan) are the specification functions;
  - `FilterKeyValue` is the recursive method with both loops, proved equal to `Filter`;
  - the lemmas cover subsequence, membership, idempotence, negation and missing keys.
- `Scenario` (scenario.dfy) holds the usage example documented in the source file, plus a record that lacks the key.

`re.search` is not modelled as a regular-expression engine. Every operation takes it as a parameter `search: (pattern, subject) -> Hit | Miss | Raise(error)`, and every lemma holds for any such function. Exceptions are modelled, not left out. The first exception raised ends the whole call and is what the caller sees. The matcher runs `re.search` on every pattern, also after a hit, because line 108 calls `re.search` before it tests `not match_list`. So a later pattern that raises still ends the call, even when an earlier pattern has hit.

Python truthiness of the selector's answer (line 84) is spelled out in `Selector.Truthy`:

- a non-empty list and `{key: value}` are true;
- `[]`, `{}` and `None` are false.

`Selector.Keep` is "truthy or `None`". One consequence: a nested list inside the input list survives exactly when its own filtered list is non-empty, and it survives unfiltered.

## Model

| member | source | states |
|---|---|---|
| `Matcher.RegexFromList` | filter_plugins/regex_filter_list.py:97-114 | The loop over the patterns, with the `match_list` flag and the final negation, computes exactly `Matches`. An exception raised by a search leaves the loop at once. |
| `Matcher.AnyMatchMeaning` | filter_plugins/regex_filter_list.py:105-111 | The scan succeeds iff no pattern raises. When it succeeds, the flag is true iff some pattern hits. When it fails, the error is that of the first pattern that raises. |
| `Matcher.MatchesMeaning` | filter_plugins/regex_filter_list.py:105-114 | `regex_from_list` returns "some pattern hits" XOR `negate`, and raises exactly when some pattern raises, with the first such pattern's error. |
| `Matcher.NegationDuality` | filter_plugins/regex_filter_list.py:112-114 | With `negate` the answer is the negation of the answer without it. Whether and what the call raises does not depend on `negate`. |
| `Matcher.AnyMatchAppend` | filter_plugins/regex_filter_list.py:107-111 | Scanning `ps + qs` yields the disjunction of both flags, and the first half's exception wins. |
| `Matcher.FlagNeverReset` | filter_plugins/regex_filter_list.py:107-111 | After a hit, later misses leave the flag true. A later pattern that raises still aborts the call, because every pattern is searched. |
| `Matcher.PatternCoercion` | filter_plugins/regex_filter_list.py:106 | A non-list pattern behaves as the one-element list holding it, that is, as a single search. An empty pattern list yields `negate`. |
| `Selector.Lookup` | filter_plugins/regex_filter_list.py:87-93 | A dict is answered with `{key: value}`, `{}` or `None`, never with a list. |
| `Selector.FilterKeyValue` | filter_plugins/regex_filter_list.py:70-94 | The method computes exactly `Filter`. It appends each kept entry to the list (list input), returns at the first item with the key (dict input), returns `None` when no item has the key, and returns `[]` for any other input. |
| `Selector.LookupAbsent` | filter_plugins/regex_filter_list.py:87-93 | A dict answers `None` iff it has no item with the filter key. |
| `Selector.LookupFirstKey` | filter_plugins/regex_filter_list.py:88-92 | The first item with the filter key decides alone: `{key: value}` when the matcher is true, `{}` when it is false. |
| `Selector.LookupDuality` | filter_plugins/regex_filter_list.py:84-93 | A dict with the key is kept under exactly one of `negate=False` and `negate=True`. A dict without the key answers `None` under both. Whether the scan raises does not depend on `negate`. |
| `Selector.FilterEntriesRaises` | filter_plugins/regex_filter_list.py:82-85 | The list loop raises iff some entry raises, and then with the first such entry's error. |
| `Selector.KeptPositions` | filter_plugins/regex_filter_list.py:80-85 | The output is a subsequence of the input. Each output entry is the unmodified input entry at a strictly increasing position, and those positions are exactly the positions of the kept entries. |
| `Selector.KeptMembership` | filter_plugins/regex_filter_list.py:80-85 | A value is in the output iff it is an input entry that is kept. |
| `Selector.FilterIdempotent` | filter_plugins/regex_filter_list.py:80-85 | Filtering the output again with the same arguments returns it unchanged. |
| `Selector.FilterRaisesIgnoreNegate` | filter_plugins/regex_filter_list.py:70-94 | For any input, nested lists included, `negate` does not change whether the filter raises or what it raises. |
| `Selector.NegationPartition` | filter_plugins/regex_filter_list.py:80-94 | Compare the outputs for `negate=False` and `negate=True` on one list. A record with the filter key is in exactly one of them. A record without the key is in both. A string or other scalar entry is in neither. |
| `Selector.EmptyPatternsKeepOnlyAbsent` | filter_plugins/regex_filter_list.py:80-93 | Take an empty pattern list and no negation. On a list of records the filter does not raise, and it keeps exactly the records that lack the filter key. |
| `Scenario.DocumentedExample` | filter_plugins/regex_filter_list.py:23-50 | The documented example: filtering the hans/haro/franz records on `name` with `["han.*"]` yields the `hans` record alone, and with negation `haro` then `franz`. This holds whenever "han.*" is found in "hans" only. |
| `Scenario.MissingKeyExample` | filter_plugins/regex_filter_list.py:80-94 | A record without `name` survives under both negation settings, and a scalar entry is dropped under both. |

## Left out

- `re.search` itself (line 108) is an uninterpreted parameter. Regular-expression syntax and search semantics are the library's, and so is the decision of which arguments raise `re.error` or `TypeError`.
- `FilterModule.regex_filter_list` (lines 64-67) only forwards its arguments to `filter_key_value`, so `Selector.FilterKeyValue` is the model's entry point. Its default `negate=False` is the caller passing `false`.
- `FilterModule.filters` (lines 57-62) is Ansible registration, and `ANSIBLE_METADATA`, `DOCUMENTATION`, `EXAMPLES` and `RETURN` (lines 8-51) are strings. The examples appear only as `Scenario.DocumentedExample`.
- Dict keys are strings, and the field name is compared with string equality. Non-string keys, and Python's cross-type equality (`1 == True`), are not modelled.
- A Python dict cannot repeat a key, but the model's item sequence can. The model gives the first occurrence the decision, as the loop on line 88 would.
- Values are immutable in the model. "Unmodified" therefore means equal, not the same object, and aliasing between input and output is not modelled.
- Only `list` and `dict` are distinguished. Tuples, sets, subclasses and every other type fall into the "anything else" case, as `isinstance` would place them, except that subclasses of `list` or `dict` are not modelled.
- Python's recursion limit on deeply nested lists is not modelled.
