# Faceted search: a verified model of the filter evaluator

The application shows a list of catalogue items beside one checkbox panel per facet
(`color`, `material`, `department`). When the selection changes, the function `filterItems`
reads the selection (facet key to the list of checked values) and returns two things:

- the items that pass every facet, each object once, in input order. A facet with nothing
  checked lets every item through.
- `valueMap`, which holds, for every facet, how many items carry each value. Only items that
  pass every *other* facet are counted, so each number is how many items would carry that
  value if it were the facet's only constraint, given the other facets. A value that is checked
  keeps an entry even when its count is 0.

A checkbox handler appends a value to its facet's list when it is checked and removes every
occurrence of the value when it is unchecked.

The model has four modules:

- `FilterState` (`selection.dfy`): the selection as a `map<string, seq<string>>`, and the
  operations on it.
  - The initial state is folded from the configured keys.
  - `without` drops one key.
  - The checkbox update is `Toggle`, with `Unselect` as its unchecking half.
- `Facets` (`facets.dfy`): what `filterItems` computes, as specification functions with their
  properties proved.
  - `Filtered` gives the filtered items and `Counts` gives the `valueMap`.
  - `Count` counts one value and `Tally` replays the counting pass item by item.
- `Evaluator` (`evaluator.dfy`): `filterItems` as the program runs it.
  - A loop over the items and, inside it, a loop over the facet keys.
  - Then a loop over the selection that adds the checked values.
  - Each method is proved equal to the specification functions.
- `Scenarios` (`scenarios.dfy`): three worked selections over two items, each with its exact
  filtered list and full `valueMap`.

How JavaScript behaviour is modelled:

- An item is a map from attribute names to string values plus an `identity`. The identity
  stands for the object reference: the result `Set` drops repeats of the same object, not of
  equal contents.
- `for...in` over the selection's keys becomes a loop that picks any key not yet visited.
  The proofs hold whatever the order.
- An item without the attribute never matches a non-empty list of checked values. In the
  counts it falls under the key `"undefined"`, because `valueMap[attr][item[attr]]` coerces
  the missing value to that property name. So a panel can offer an `"undefined"` checkbox
  that, once checked, matches no item that lacks the attribute. It matches only items whose
  value is the text `undefined` (`ValueKey`, `MatchesValues`).

Where the specification of the system and the code disagree, the model follows the code:

- The specification's worked examples with a colour checked list only the checked colour under
  `color`. In the code, a facet's counts ignore that facet's own selection (lines 36-42), so
  every colour carried by an item that passes the other facets is listed as well.
  `Scenarios.RedCheckedResult` and `Scenarios.GreenCheckedResult` prove the code's output.
- The specification lists an error for a selection that lacks one of the configured facet keys
  or has a key that is not configured. `filterItems` has no such error path and never sees the
  configured keys. It filters and counts on whatever keys the selection has: an extra key is
  one more facet, and a missing key restricts nothing. The model follows this and has no error
  path.
- The specification claims that checking more values never increases the number of filtered
  items. That holds only for
  the first value checked under a facet (`FirstValueNarrows`). Within a facet the checked
  values are alternatives, so every further value can only widen the result
  (`FurtherValueWidens`).
- The specification says that toggling a value within a facet never changes that facet's
  counts. The counted values and their numbers do stay the same. But a checked value that no
  item carries is forced in with count 0, so such an entry appears when the value is checked
  and disappears when it is unchecked. `OwnFacetIgnored` states the exact relation, and
  `OwnCountsCanChange` exhibits the case.

## Model

| member | source | states |
|---|---|---|
| FilterState.InitialFilterState | src/filter.js:8-14 | the initial selection has exactly the configured keys, each mapped to the empty list |
| FilterState.InitialKeys | src/filter.js:6-14 | the application's initial selection has the keys `color`, `material` and `department` |
| FilterState.WithoutRemovesOnlyKey | src/filter.js:16-19 | `without(obj, key)` has the keys of `obj` except `key`, and every remaining entry is unchanged |
| FilterState.Unselect | src/filter.js:112 | the kept values are exactly the old values other than `value`, and there are no more of them than before |
| FilterState.UnselectCounts | src/filter.js:112 | unchecking removes every occurrence of the value and keeps every other value exactly as often as it was listed |
| FilterState.UnselectAppend | src/filter.js:112 | unchecking works element by element, so kept values keep their relative order |
| FilterState.UnselectAbsent | src/filter.js:112 | unchecking a value that is not listed leaves the list unchanged |
| FilterState.Toggle | src/filter.js:108-113 | only the toggled facet changes; checking appends the value at the end; unchecking removes it and keeps all other values with their multiplicities |
| FilterState.ToggleRoundTrip | src/filter.js:108-113 | checking and then unchecking a value that was not checked restores the selection |
| FilterState.ToggleKeepsDistinct | src/filter.js:105-113 | a value is only checked while its box is unchecked (`checked={filter[key].includes(value)}`), so a selection list never holds a value twice |
| Facets.Filtered | src/filter.js:56-57 | the filtered list is no longer than the input: at most as many items come out as went in |
| Facets.FilteredMembership | src/filter.js:25-58 | an item is in the filtered list iff it is in the input and every facet's list is empty or contains the item's value |
| Facets.FilteredDistinct | src/filter.js:56-57 | the filtered list holds each object once, as a `Set` does |
| Facets.FilteredOrder | src/filter.js:56-69 | filtered items come from the input and appear in the order of their first occurrence there (the `Set`'s insertion order) |
| Facets.Count | src/filter.js:44-52 | a value's count is at most the number of items |
| Facets.CountIsCardinality | src/filter.js:36-52 | a count is the number of input positions whose item carries the value and passes every other facet |
| Facets.CountPositive | src/filter.js:44-52 | a count is positive iff some item passing the other facets carries the value |
| Facets.TallyIsCounts | src/filter.js:44-52 | incrementing each value's count, starting from 0, item by item yields, for every observed value, exactly its count, and no other key |
| Facets.CountsKeys | src/filter.js:61-63 | `valueMap` has an entry for every facet key of the selection and for no other key |
| Facets.CountsEntries | src/filter.js:36-66 | a value has an entry under a facet iff it is checked there or carried by an item passing the other facets; the entry is the number of such items |
| Facets.SelectedRetained | src/filter.js:64-66 | a checked value that no item passing the other facets carries has the entry 0 |
| Facets.CountsBounded | src/filter.js:44-52 | every count in `valueMap` is at most the number of items |
| Facets.OwnFacetIgnored | src/filter.js:36-42 | replacing a facet's own checked values leaves its observed values and their counts unchanged; an entry that disappears is a checked value with count 0 |
| Facets.InitialIsEmpty | src/filter.js:8-14 | the initial selection restricts no facet |
| Facets.EmptySelectionFiltered | src/filter.js:30-32 | with nothing checked, every input item passes, and an input without repeated objects comes back unchanged |
| Facets.EmptySelectionCounts | src/filter.js:38-52 | with nothing checked, each facet lists exactly the values carried by some item, each with the number of items carrying it |
| Facets.FirstValueNarrows | src/filter.js:30-32 | checking the first value of a facet can only remove items from the result |
| Facets.FurtherValueWidens | src/filter.js:30-32 | checking a further value of a facet can only add items to the result |
| Evaluator.FilterItems | src/filter.js:21-70 | the loops return exactly `Filtered` and `Counts`, so an item is returned iff it passes every facet, and `valueMap` has exactly the selection's keys |
| Evaluator.VisitItem | src/filter.js:26-58 | the inner loop reports whether the item passes all facets and counts the item into every facet it passes the other facets of |
| Evaluator.AddSelectedValues | src/filter.js:61-67 | after the pass over the items, the loop over the selection turns the tallies into `Counts` for every facet |
| Evaluator.AddSelectedOfFacet | src/filter.js:62-66 | for one facet, defaulting each checked value's count to 0 turns the tally into that facet's counts |
| Scenarios.NoneCheckedResult | src/filter.js:21-70 | with nothing checked, both items pass; `color` is `{red: 1, blue: 1}` and `material` is `{wood: 2}` |
| Scenarios.RedCheckedResult | src/filter.js:21-70 | with `red` checked, only the red item passes; `color` is still `{red: 1, blue: 1}` and `material` is `{wood: 1}` |
| Scenarios.GreenCheckedResult | src/filter.js:21-70 | with an absent colour checked, nothing passes; `color` is `{red: 1, blue: 1, green: 0}` and `material` is empty |
| Scenarios.OwnCountsCanChange | src/filter.js:61-66 | checking a colour no item carries adds that colour with count 0 to the colour facet's own counts, which were empty before |
| Scenarios.UndefinedCheckbox | src/filter.js:30-32 | an item without a colour is counted under `undefined` but does not match a checked `undefined`; an item whose colour is the text `undefined` does |

## Left out

- The React component (`App`), its rendering and the cap of 100 displayed rows: user-interface code outside the evaluator.
- The `localeCompare` sort of a facet's values for display: presentation only.
- The timing measurement and console logging around the call: I/O and the clock.
- The sample catalogue built with `faker`: random data. Items are parameters of the model.
- The order in which `for...in` and `Object.entries` visit keys: the model picks any unvisited key, and every result is proved independent of the order.
- Non-string attribute values: values are strings. The code's `includes` compares by strict equality, while a property name coerces to a string, and the two would differ for numbers.
- Keys with special meaning to JavaScript objects, such as `__proto__`, and inherited enumerable properties are left out: a selection is a plain map. The same holds for attribute values used as keys of the per-facet count objects. For a value such as `constructor` or `toString`, `valueMap[attr][v] || 0` at lines 47-48 and 65 keeps the inherited function, and `+= 1` then turns the count into a string. The model starts every new value at 0 (`Facets.CountItem`).
- FilterState.Toggle: requires the facet key to be in the selection. The handler is only attached to configured keys, and on any other key `filter[key].filter` would throw.
- Evaluator.VisitItem: the `!== undefined` guard before the increment always holds after `|| 0`, so it is not modelled as a branch.
- The count panel's `valueMap[key]` lookup for a key missing from `valueMap`: the selection always has every configured key, so `CountsKeys` rules it out.
