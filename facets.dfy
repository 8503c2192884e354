/**
 Reference definitions of what the faceted-search evaluator computes, and the
 properties proved about them: which items pass a selection, in which order
 they are reported, and how many items each facet value would match when that
 facet's own selection is ignored.
 */
module Facets {
  import opened FilterState

  /** One catalogue item. `identity` stands for the object's reference (the result
      collects items in a `Set`, which tells objects apart by reference);
      `attrs` holds its properties by name. */
  datatype Item = Item(identity: nat, attrs: map<string, string>)

  /** Facet key to (value to count). */
  type ValueMap = map<string, map<string, nat>>

  /** `values.length === 0 || values.includes(item[key])`: an empty list lets every
      item through; an item without the property never matches a non-empty list. */
  predicate MatchesValues(item: Item, key: string, values: seq<string>)
  {
    |values| == 0 || (key in item.attrs && item.attrs[key] in values)
  }

  /** The item passes every facet of `filter` (AND across facets, OR within one). */
  predicate MatchesAll(item: Item, filter: Selection)
  {
    forall key :: key in filter ==> MatchesValues(item, key, filter[key])
  }

  /** The property name under which an item is counted: its value, or the text
      "undefined" when it lacks the property (object keys are strings). */
  function ValueKey(item: Item, key: string): string
  {
    if key in item.attrs then item.attrs[key] else "undefined"
  }

  /** The item is counted for value `v` of facet `key`: it has that value and passes
      every facet except `key`. */
  predicate Counted(item: Item, filter: Selection, key: string, v: string)
  {
    ValueKey(item, key) == v && MatchesAll(item, Without(filter, key))
  }

  /** The number of positions of `items` counted for value `v` of facet `key`. */
  function Count(items: seq<Item>, filter: Selection, key: string, v: string): (n: nat)
    ensures n <= |items|
  {
    if items == [] then 0
    else
      var last := |items| - 1;
      Count(items[..last], filter, key, v) + (if Counted(items[last], filter, key, v) then 1 else 0)
  }

  /** The values of facet `key` carried by some item that passes every other facet. */
  function Observed(items: seq<Item>, filter: Selection, key: string): set<string>
  {
    set i | 0 <= i < |items| && MatchesAll(items[i], Without(filter, key)) :: ValueKey(items[i], key)
  }

  /** The values listed in a selection list. */
  function Selected(values: seq<string>): set<string>
  {
    set v | v in values
  }

  /** The counts of facet `key` for the observed values and the values in `chosen`. */
  function CountsOver(items: seq<Item>, filter: Selection, key: string, chosen: set<string>): map<string, nat>
  {
    map v | v in Observed(items, filter, key) + chosen :: Count(items, filter, key, v)
  }

  /** Counting one item into the counts `t` of facet `key`: when the item passes every
      other facet, the count of its value goes up by one, starting from 0. */
  function CountItem(t: map<string, nat>, item: Item, filter: Selection, key: string): map<string, nat>
  {
    if MatchesAll(item, Without(filter, key)) then
      var v := ValueKey(item, key);
      t[v := (if v in t then t[v] else 0) + 1]
    else t
  }

  /** The counts of one facet as the pass over the items builds them, item by item. */
  function Tally(items: seq<Item>, filter: Selection, key: string): map<string, nat>
  {
    if items == [] then map[]
    else
      var last := |items| - 1;
      CountItem(Tally(items[..last], filter, key), items[last], filter, key)
  }

  /** The `valueMap` result: for every key of `filter`, the count of each value that
      is observed under the other facets or selected under this one. */
  function Counts(items: seq<Item>, filter: Selection): ValueMap
  {
    map key | key in filter :: FacetCounts(items, filter, key)
  }

  /** The counts of facet `key` in the result: every observed or selected value with its count. */
  function FacetCounts(items: seq<Item>, filter: Selection, key: string): map<string, nat>
    requires key in filter
  {
    CountsOver(items, filter, key, Selected(filter[key]))
  }

  /** `valueMap[key] || {}`. */
  function Get(valueMap: ValueMap, key: string): map<string, nat>
  {
    if key in valueMap then valueMap[key] else map[]
  }

  /** The `filteredItems` result: the items that pass every facet, each object once,
      in the order they are first met, as an insertion-ordered set collects them. */
  function Filtered(items: seq<Item>, filter: Selection): (r: seq<Item>)
    ensures |r| <= |items|
  {
    if items == [] then []
    else
      var last := |items| - 1;
      var r := Filtered(items[..last], filter);
      if MatchesAll(items[last], filter) && items[last] !in r then r + [items[last]] else r
  }

  /** The result for one more item: it is added when it passes and was not added before. */
  lemma FilteredSnoc(items: seq<Item>, x: Item, filter: Selection)
    ensures Filtered(items + [x], filter) ==
      if MatchesAll(x, filter) && x !in Filtered(items, filter) then Filtered(items, filter) + [x]
      else Filtered(items, filter)
  {
    assert (items + [x])[..|items|] == items;
  }

  /** The position at which `x` first occurs in `items`. */
  function FirstIndex(items: seq<Item>, x: Item): (n: nat)
    requires x in items
    ensures n < |items| && items[n] == x
    ensures forall i :: 0 <= i < n ==> items[i] != x
  {
    if items[0] == x then 0 else 1 + FirstIndex(items[1..], x)
  }

  // ---------------------------------------------------------------- filteredItems

  /** An item is reported iff it occurs in the input and passes every facet. */
  lemma {:induction false} FilteredMembership(items: seq<Item>, filter: Selection, x: Item)
    ensures x in Filtered(items, filter) <==> x in items && MatchesAll(x, filter)
  {
    if items != [] {
      var last := |items| - 1;
      FilteredMembership(items[..last], filter, x);
      assert items == items[..last] + [items[last]];
    }
  }

  /** No item is reported twice. */
  lemma {:induction false} FilteredDistinct(items: seq<Item>, filter: Selection)
    ensures Distinct(Filtered(items, filter))
  {
    if items != [] {
      FilteredDistinct(items[..|items| - 1], filter);
    }
  }

  /** The reported items keep the input order of their first occurrences. */
  lemma {:induction false} FilteredOrder(items: seq<Item>, filter: Selection)
    ensures forall x :: x in Filtered(items, filter) ==> x in items
    ensures forall i, j :: 0 <= i < j < |Filtered(items, filter)| ==>
      FirstIndex(items, Filtered(items, filter)[i]) < FirstIndex(items, Filtered(items, filter)[j])
  {
    if items != [] {
      var last := |items| - 1;
      var init := items[..last];
      var r := Filtered(init, filter);
      FilteredOrder(init, filter);
      assert items == init + [items[last]];
      forall x | x in init ensures FirstIndex(items, x) == FirstIndex(init, x) {
        FirstIndexAppend(init, [items[last]], x);
      }
      if MatchesAll(items[last], filter) && items[last] !in r {
        FilteredMembership(init, filter, items[last]);
        assert items[last] !in init;
        FirstIndexNew(init, items[last]);
      }
    }
  }

  /** Appending after a first occurrence does not move it. */
  lemma {:induction false} FirstIndexAppend(s: seq<Item>, t: seq<Item>, x: Item)
    requires x in s
    ensures FirstIndex(s + t, x) == FirstIndex(s, x)
  {
    if s[0] != x {
      assert (s + t)[1..] == s[1..] + t;
      FirstIndexAppend(s[1..], t, x);
    }
  }

  /** An item met for the first time at the end sits at the last position. */
  lemma FirstIndexNew(s: seq<Item>, x: Item)
    requires x !in s
    ensures FirstIndex(s + [x], x) == |s|
  {
  }

  // ---------------------------------------------------------------- valueMap

  /** The count is the size of the set of counted positions. */
  lemma CountIsCardinality(items: seq<Item>, filter: Selection, key: string, v: string)
    ensures Count(items, filter, key, v) == |set i | 0 <= i < |items| && Counted(items[i], filter, key, v)|
  {
    CountPrefix(items, |items|, filter, key, v);
    assert items[..|items|] == items;
  }

  /** The count over the first `n` items is the number of counted positions below `n`. */
  lemma {:induction false} CountPrefix(items: seq<Item>, n: nat, filter: Selection, key: string, v: string)
    requires n <= |items|
    ensures Count(items[..n], filter, key, v) == |set i | 0 <= i < n && Counted(items[i], filter, key, v)|
  {
    if n == 0 {
      assert items[..n] == [];
    } else {
      CountPrefix(items, n - 1, filter, key, v);
      CountSnoc(items, n, filter, key, v);
      PositionsCardStep(items, n, filter, key, v);
    }
  }

  /** Extending a prefix by one item adds that item's contribution to the count. */
  lemma CountSnoc(items: seq<Item>, n: nat, filter: Selection, key: string, v: string)
    requires 0 < n <= |items|
    ensures Count(items[..n], filter, key, v) ==
      Count(items[..n - 1], filter, key, v) + (if Counted(items[n - 1], filter, key, v) then 1 else 0)
  {
    assert items[..n][..n - 1] == items[..n - 1] && items[..n][n - 1] == items[n - 1];
  }

  /** The counted positions below `n` are those below `n - 1`, plus `n - 1` when it is counted. */
  lemma PositionsStep(items: seq<Item>, n: nat, filter: Selection, key: string, v: string)
    requires 0 < n <= |items|
    ensures (set i | 0 <= i < n && Counted(items[i], filter, key, v)) ==
      (set i | 0 <= i < n - 1 && Counted(items[i], filter, key, v)) +
      (if Counted(items[n - 1], filter, key, v) then {n - 1} else {})
  {
  }

  /** One more position adds one counted position exactly when that position is counted. */
  lemma PositionsCardStep(items: seq<Item>, n: nat, filter: Selection, key: string, v: string)
    requires 0 < n <= |items|
    ensures |set i | 0 <= i < n && Counted(items[i], filter, key, v)| ==
      |set i | 0 <= i < n - 1 && Counted(items[i], filter, key, v)| +
      (if Counted(items[n - 1], filter, key, v) then 1 else 0)
  {
    PositionsStep(items, n, filter, key, v);
  }

  /** A value has a positive count iff some item that passes the other facets carries it. */
  lemma {:induction false} CountPositive(items: seq<Item>, filter: Selection, key: string, v: string)
    ensures Count(items, filter, key, v) > 0 <==> v in Observed(items, filter, key)
  {
    if items != [] {
      var last := |items| - 1;
      var init := items[..last];
      CountPositive(init, filter, key, v);
      ObservedAppend(init, items[last], filter, key);
      assert items == init + [items[last]];
    }
  }

  /** Observing one more item adds its value when it passes the other facets. */
  lemma ObservedAppend(items: seq<Item>, x: Item, filter: Selection, key: string)
    ensures Observed(items + [x], filter, key) ==
      Observed(items, filter, key) + (if MatchesAll(x, Without(filter, key)) then {ValueKey(x, key)} else {})
  {
    var s := items + [x];
    var lhs := Observed(s, filter, key);
    var rhs := Observed(items, filter, key) + (if MatchesAll(x, Without(filter, key)) then {ValueKey(x, key)} else {});
    forall v | v in lhs ensures v in rhs {
      var i :| 0 <= i < |s| && MatchesAll(s[i], Without(filter, key)) && ValueKey(s[i], key) == v;
      if i < |items| { assert s[i] == items[i]; }
    }
    forall v | v in rhs ensures v in lhs {
      if v in Observed(items, filter, key) {
        var i :| 0 <= i < |items| && MatchesAll(items[i], Without(filter, key)) && ValueKey(items[i], key) == v;
        assert s[i] == items[i];
      } else {
        assert s[|items|] == x;
      }
    }
  }

  /** The pass over items counts one more item. */
  lemma TallySnoc(items: seq<Item>, x: Item, filter: Selection, key: string)
    ensures Tally(items + [x], filter, key) == CountItem(Tally(items, filter, key), x, filter, key)
  {
    assert (items + [x])[..|items|] == items;
  }

  /** Counting one more item into every facet at once. */
  lemma TallyAllSnoc(items: seq<Item>, x: Item, filter: Selection, before: ValueMap, after: ValueMap)
    requires forall key {:trigger Get(before, key)} :: key in filter ==> Get(before, key) == Tally(items, filter, key)
    requires forall key {:trigger Get(after, key)} :: key in filter ==> Get(after, key) == CountItem(Get(before, key), x, filter, key)
    ensures forall key {:trigger Get(after, key)} :: key in filter ==> Get(after, key) == Tally(items + [x], filter, key)
  {
    forall key | key in filter ensures Get(after, key) == Tally(items + [x], filter, key) {
      TallySnoc(items, x, filter, key);
    }
  }

  /** Counting item by item gives, for every observed value, its count. */
  lemma {:induction false} TallyIsCounts(items: seq<Item>, filter: Selection, key: string)
    ensures Tally(items, filter, key) == CountsOver(items, filter, key, {})
  {
    if items != [] {
      var last := |items| - 1;
      TallyIsCounts(items[..last], filter, key);
      assert items == items[..last] + [items[last]];
      CountsOverAppend(items[..last], items[last], filter, key);
    }
  }

  /** Counting one more item: its value's count goes up by one when it passes the
      other facets (starting from 0 when the value was not yet counted). */
  lemma CountsOverAppend(items: seq<Item>, x: Item, filter: Selection, key: string)
    ensures CountsOver(items + [x], filter, key, {}) == CountItem(CountsOver(items, filter, key, {}), x, filter, key)
  {
    var lhs := CountsOver(items + [x], filter, key, {});
    var rhs := CountItem(CountsOver(items, filter, key, {}), x, filter, key);
    CountsOverAppendKeys(items, x, filter, key);
    forall w | w in lhs ensures lhs[w] == rhs[w] {
      CountsOverAppendAt(items, x, filter, key, w);
    }
    assert lhs == rhs;
  }

  /** The values with an entry after one more item: the earlier ones, plus the item's
      own value when it passes the other facets. */
  lemma CountsOverAppendKeys(items: seq<Item>, x: Item, filter: Selection, key: string)
    ensures CountsOver(items + [x], filter, key, {}).Keys == CountItem(CountsOver(items, filter, key, {}), x, filter, key).Keys
  {
    ObservedAppend(items, x, filter, key);
  }

  /** The entry of one value after one more item. */
  lemma CountsOverAppendAt(items: seq<Item>, x: Item, filter: Selection, key: string, w: string)
    requires w in CountsOver(items + [x], filter, key, {})
    requires w in CountItem(CountsOver(items, filter, key, {}), x, filter, key)
    ensures CountsOver(items + [x], filter, key, {})[w] == CountItem(CountsOver(items, filter, key, {}), x, filter, key)[w]
  {
    CountAppend(items, x, filter, key, w);
    if w !in Observed(items, filter, key) {
      CountZero(items, filter, key, w);
    }
  }

  /** Counting over one more item adds that item's contribution. */
  lemma CountAppend(items: seq<Item>, x: Item, filter: Selection, key: string, v: string)
    ensures Count(items + [x], filter, key, v) == Count(items, filter, key, v) + (if Counted(x, filter, key, v) then 1 else 0)
  {
    assert (items + [x])[..|items|] == items;
  }

  /** A value nobody observes has count 0. */
  lemma CountZero(items: seq<Item>, filter: Selection, key: string, v: string)
    requires v !in Observed(items, filter, key)
    ensures Count(items, filter, key, v) == 0
  {
    CountPositive(items, filter, key, v);
  }

  /** Adding one more chosen value: it gets count 0 unless it already has an entry. */
  lemma CountsOverAdd(items: seq<Item>, filter: Selection, key: string, chosen: set<string>, value: string)
    ensures CountsOver(items, filter, key, chosen + {value}) ==
      if value in CountsOver(items, filter, key, chosen) then CountsOver(items, filter, key, chosen)
      else CountsOver(items, filter, key, chosen)[value := 0]
  {
    if value !in Observed(items, filter, key) {
      CountZero(items, filter, key, value);
    }
  }

  /** Every facet of the selection has an entry in the counts, and no other key does. */
  lemma CountsKeys(items: seq<Item>, filter: Selection)
    ensures Counts(items, filter).Keys == filter.Keys
  {
  }

  /** A value has an entry iff it is selected under its facet or some item that passes
      the other facets carries it; the entry holds the number of such items. */
  lemma CountsEntries(items: seq<Item>, filter: Selection, key: string, v: string)
    requires key in filter
    ensures v in Counts(items, filter)[key] <==>
      v in filter[key] || exists i :: 0 <= i < |items| && Counted(items[i], filter, key, v)
    ensures v in Counts(items, filter)[key] ==>
      Counts(items, filter)[key][v] == |set i | 0 <= i < |items| && Counted(items[i], filter, key, v)|
  {
    CountIsCardinality(items, filter, key, v);
    if exists i :: 0 <= i < |items| && Counted(items[i], filter, key, v) {
      var i :| 0 <= i < |items| && Counted(items[i], filter, key, v);
      assert v in Observed(items, filter, key);
    }
  }

  /** A selected value stays in the counts; with no item counted for it, its count is 0. */
  lemma SelectedRetained(items: seq<Item>, filter: Selection, key: string, v: string)
    requires key in filter && v in filter[key]
    requires forall i :: 0 <= i < |items| ==> !Counted(items[i], filter, key, v)
    ensures v in Counts(items, filter)[key] && Counts(items, filter)[key][v] == 0
  {
    CountIsCardinality(items, filter, key, v);
    assert (set i | 0 <= i < |items| && Counted(items[i], filter, key, v)) == {};
  }

  /** Every count is at most the number of items. */
  lemma CountsBounded(items: seq<Item>, filter: Selection, key: string, v: string)
    requires key in filter
    ensures v in Counts(items, filter)[key] ==> Counts(items, filter)[key][v] <= |items|
  {
  }

  /** A facet's own selection plays no part in its counts: replacing it by any other
      list keeps every count that both results show, and an entry only one of them
      shows is a selected value with count 0. */
  lemma OwnFacetIgnored(items: seq<Item>, filter: Selection, key: string, other: seq<string>)
    requires key in filter
    ensures Observed(items, filter[key := other], key) == Observed(items, filter, key)
    ensures forall v :: v in Counts(items, filter)[key] && v in Counts(items, filter[key := other])[key] ==>
      Counts(items, filter)[key][v] == Counts(items, filter[key := other])[key][v]
    ensures forall v :: v in Counts(items, filter)[key] && v !in Counts(items, filter[key := other])[key] ==>
      v in filter[key] && Counts(items, filter)[key][v] == 0
  {
    var changed := filter[key := other];
    assert Without(changed, key) == Without(filter, key);
    forall v ensures Count(items, changed, key, v) == Count(items, filter, key, v) {
      CountSameOthers(items, changed, filter, key, v);
    }
    forall v | v in Counts(items, filter)[key] && v !in Counts(items, changed)[key]
      ensures Counts(items, filter)[key][v] == 0
    {
      CountZero(items, filter, key, v);
    }
  }

  /** Counts only look at the other facets. */
  lemma {:induction false} CountSameOthers(items: seq<Item>, f: Selection, g: Selection, key: string, v: string)
    requires Without(f, key) == Without(g, key)
    ensures Count(items, f, key, v) == Count(items, g, key, v)
  {
    if items != [] {
      CountSameOthers(items[..|items| - 1], f, g, key, v);
    }
  }

  // ---------------------------------------------------------------- empty selection

  /** No facet restricts anything. */
  predicate AllEmpty(filter: Selection)
  {
    forall key :: key in filter ==> filter[key] == []
  }

  /** The initial selection restricts nothing. */
  lemma InitialIsEmpty(filterKeys: seq<string>)
    ensures AllEmpty(InitialFilterState(filterKeys))
  {
  }

  /** With nothing selected every item is reported, and a list without repeated
      objects comes back whole, in order. */
  lemma {:induction false} EmptySelectionFiltered(items: seq<Item>, filter: Selection)
    requires AllEmpty(filter)
    ensures forall x :: x in Filtered(items, filter) <==> x in items
    ensures Distinct(items) ==> Filtered(items, filter) == items
  {
    forall x ensures x in Filtered(items, filter) <==> x in items {
      FilteredMembership(items, filter, x);
    }
    if items != [] {
      var last := |items| - 1;
      EmptySelectionFiltered(items[..last], filter);
      if Distinct(items) {
        assert items[last] !in items[..last];
        assert items == items[..last] + [items[last]];
      }
    }
  }

  /** With nothing selected, each facet counts every item by its value: the values
      present are exactly the values carried, and each count is the number of items
      carrying it. */
  lemma EmptySelectionCounts(items: seq<Item>, filter: Selection, key: string, v: string)
    requires AllEmpty(filter) && key in filter
    ensures v in Counts(items, filter)[key] <==> exists i :: 0 <= i < |items| && ValueKey(items[i], key) == v
    ensures v in Counts(items, filter)[key] ==>
      Counts(items, filter)[key][v] == |set i | 0 <= i < |items| && ValueKey(items[i], key) == v|
  {
    forall i | 0 <= i < |items| ensures MatchesAll(items[i], Without(filter, key)) {
    }
    CountsEntries(items, filter, key, v);
    assert (set i | 0 <= i < |items| && Counted(items[i], filter, key, v)) ==
           (set i | 0 <= i < |items| && ValueKey(items[i], key) == v);
  }

  // ---------------------------------------------------------------- toggling

  /** Checking the first value of a facet can only remove items from the result. */
  lemma FirstValueNarrows(items: seq<Item>, filter: Selection, key: string, value: string)
    requires key in filter && filter[key] == []
    ensures forall x :: x in Filtered(items, Toggle(filter, key, value, true)) ==> x in Filtered(items, filter)
    ensures |Filtered(items, Toggle(filter, key, value, true))| <= |Filtered(items, filter)|
  {
    var narrowed := Toggle(filter, key, value, true);
    forall x | x in Filtered(items, narrowed) ensures x in Filtered(items, filter) {
      FilteredMembership(items, narrowed, x);
      FilteredMembership(items, filter, x);
    }
    FilteredDistinct(items, narrowed);
    FilteredDistinct(items, filter);
    DistinctSubsetLength(Filtered(items, narrowed), Filtered(items, filter));
  }

  /** Checking one more value of a facet that already has a selection can only add
      items to the result (values within one facet are alternatives). */
  lemma FurtherValueWidens(items: seq<Item>, filter: Selection, key: string, value: string)
    requires key in filter && filter[key] != []
    ensures forall x :: x in Filtered(items, filter) ==> x in Filtered(items, Toggle(filter, key, value, true))
  {
    var widened := Toggle(filter, key, value, true);
    forall x | x in Filtered(items, filter) ensures x in Filtered(items, widened) {
      FilteredMembership(items, widened, x);
      FilteredMembership(items, filter, x);
    }
  }

  /** A list without repeats whose elements all occur in another list without
      repeats is at most as long. */
  lemma DistinctSubsetLength(a: seq<Item>, b: seq<Item>)
    requires Distinct(a) && Distinct(b)
    requires forall x :: x in a ==> x in b
    ensures |a| <= |b|
  {
    DistinctCard(a);
    DistinctCard(b);
    var sa, sb := set x | x in a, set x | x in b;
    assert sb == sa + (sb - sa);
    assert |sb| == |sa| + |sb - sa|;
  }

  /** A list without repeats has as many distinct elements as positions. */
  lemma {:induction false} DistinctCard(s: seq<Item>)
    requires Distinct(s)
    ensures |set x | x in s| == |s|
  {
    if s != [] {
      var last := |s| - 1;
      DistinctCard(s[..last]);
      assert (set x | x in s) == (set x | x in s[..last]) + {s[last]};
      assert s[last] !in s[..last];
    }
  }
}
