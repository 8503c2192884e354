/**
 The faceted-search evaluator as the program runs it: one pass over the items
 that, per facet, records whether the item passes that facet and counts it under
 its value when it passes all the other facets; then one pass over the selection
 that gives every facet an entry and every selected value a count.
 */
module Evaluator {
  import opened FilterState
  import opened Facets

  /** `filterItems(items, filter)`: the items passing every facet, each object once
      in input order, and the per-facet value counts. The `Set` that collects the
      passing items is kept as a sequence to which an item is added when it is not
      yet present. */
  method FilterItems(items: seq<Item>, filter: Selection) returns (filteredItems: seq<Item>, valueMap: ValueMap)
    ensures filteredItems == Filtered(items, filter)
    ensures forall x :: x in filteredItems <==> x in items && MatchesAll(x, filter)
    ensures valueMap == Counts(items, filter)
    ensures valueMap.Keys == filter.Keys
  {
    valueMap := map[];
    var filtered: seq<Item> := [];
    ghost var seen: seq<Item> := [];
    for n := 0 to |items|
      invariant seen == items[..n]
      invariant filtered == Filtered(seen, filter)
      invariant valueMap.Keys <= filter.Keys
      invariant forall key {:trigger Get(valueMap, key)} :: key in filter ==> Get(valueMap, key) == Tally(seen, filter, key)
    {
      var item := items[n];
      var matches;
      ghost var before := valueMap;
      matches, valueMap := VisitItem(item, filter, valueMap);
      TallyAllSnoc(seen, item, filter, before, valueMap);
      FilteredSnoc(seen, item, filter);
      if matches {
        if item !in filtered {
          filtered := filtered + [item];
        }
      }
      seen := seen + [item];
      assert seen == items[..n + 1];
    }
    assert items[..|items|] == items;
    valueMap := AddSelectedValues(items, filter, valueMap);
    filteredItems := filtered;
    forall x ensures x in filteredItems <==> x in items && MatchesAll(x, filter) {
      FilteredMembership(items, filter, x);
    }
  }

  /** The body of the loop over items: for each facet, note whether `item` passes it,
      and when `item` passes every other facet count it under its value. Returns
      whether it passed all facets (`allFilterMatches.every(Boolean)`) and, for every
      facet, `counts` with this one item counted in. */
  method VisitItem(item: Item, filter: Selection, counts: ValueMap) returns (matches: bool, valueMap: ValueMap)
    requires counts.Keys <= filter.Keys
    ensures matches == MatchesAll(item, filter)
    ensures valueMap.Keys <= filter.Keys
    ensures forall key {:trigger Get(valueMap, key)} :: key in filter ==> Get(valueMap, key) == CountItem(Get(counts, key), item, filter, key)
  {
    valueMap := counts;
    var allFilterMatches: seq<bool> := [];
    var pending := filter.Keys;
    while pending != {}
      invariant pending <= filter.Keys
      invariant valueMap.Keys <= filter.Keys
      invariant forall key {:trigger Get(valueMap, key)} :: key in pending ==> Get(valueMap, key) == Get(counts, key)
      invariant forall key {:trigger Get(valueMap, key)} :: key in filter && key !in pending ==>
        Get(valueMap, key) == CountItem(Get(counts, key), item, filter, key)
      invariant false !in allFilterMatches <==>
        (forall key :: key in filter && key !in pending ==> MatchesValues(item, key, filter[key]))
      decreases pending
    {
      var filterAttribute :| filterAttribute in pending;
      var filterValues := filter[filterAttribute];
      var matchesFilter := MatchesValues(item, filterAttribute, filterValues);
      allFilterMatches := allFilterMatches + [matchesFilter];

      var filterWithoutThisFilterAttribute := Without(filter, filterAttribute);
      var matchesOtherFilter := MatchesAll(item, filterWithoutThisFilterAttribute);
      ghost var before := valueMap;
      if matchesOtherFilter {
        var facet := Get(valueMap, filterAttribute);              // valueMap[filterAttribute] || {}
        var value := ValueKey(item, filterAttribute);             // item[filterAttribute] as a property name
        var count := if value in facet then facet[value] else 0;  // ... || 0
        valueMap := valueMap[filterAttribute := facet[value := count + 1]];
      }
      assert Get(valueMap, filterAttribute) == CountItem(Get(counts, filterAttribute), item, filter, filterAttribute);
      assert forall key {:trigger Get(valueMap, key)} :: key != filterAttribute ==> Get(valueMap, key) == Get(before, key);
      pending := pending - {filterAttribute};
    }
    matches := false !in allFilterMatches;
  }

  /** The loop after the pass over items: every facet of the selection gets an entry,
      and every value selected under it gets count 0 unless it was already counted. */
  method AddSelectedValues(items: seq<Item>, filter: Selection, counts: ValueMap) returns (valueMap: ValueMap)
    requires counts.Keys <= filter.Keys
    requires forall key {:trigger Get(counts, key)} :: key in filter ==> Get(counts, key) == Tally(items, filter, key)
    ensures valueMap == Counts(items, filter)
  {
    valueMap := counts;
    var pending := filter.Keys;
    while pending != {}
      invariant pending <= filter.Keys
      invariant valueMap.Keys <= filter.Keys
      invariant forall key {:trigger Get(valueMap, key)} :: key in pending ==> Get(valueMap, key) == Tally(items, filter, key)
      invariant forall key {:trigger Get(valueMap, key)} :: key in filter && key !in pending ==>
        key in valueMap && Get(valueMap, key) == FacetCounts(items, filter, key)
      decreases pending
    {
      var filterAttribute :| filterAttribute in pending;
      var facetCounts := AddSelectedOfFacet(items, filter, filterAttribute, Get(valueMap, filterAttribute));
      ghost var before := valueMap;
      valueMap := valueMap[filterAttribute := facetCounts];
      assert forall key {:trigger Get(valueMap, key)} :: key != filterAttribute ==> Get(valueMap, key) == Get(before, key);
      assert Get(valueMap, filterAttribute) == FacetCounts(items, filter, filterAttribute);
      forall key | key in pending && key != filterAttribute ensures Get(valueMap, key) == Tally(items, filter, key) {
        assert Get(before, key) == Tally(items, filter, key);
      }
      forall key | key in filter && key !in pending ensures key in valueMap && Get(valueMap, key) == FacetCounts(items, filter, key) {
        assert Get(before, key) == FacetCounts(items, filter, key);
      }
      pending := pending - {filterAttribute};
    }
    forall key | key in filter ensures key in valueMap && valueMap[key] == Counts(items, filter)[key] {
      assert Get(valueMap, key) == FacetCounts(items, filter, key);
    }
    assert valueMap.Keys == Counts(items, filter).Keys;
  }

  /** The inner loop for one facet `key`: each value selected under it is given count 0
      when it has no count yet (`valueMap[key][value] || 0`). */
  method AddSelectedOfFacet(items: seq<Item>, filter: Selection, key: string, counts: map<string, nat>)
    returns (facetCounts: map<string, nat>)
    requires key in filter
    requires counts == Tally(items, filter, key)
    ensures facetCounts == FacetCounts(items, filter, key)
  {
    TallyIsCounts(items, filter, key);
    facetCounts := counts;
    var filterValues := filter[key];
    assert Selected(filterValues[..0]) == {};
    for j := 0 to |filterValues|
      invariant facetCounts == CountsOver(items, filter, key, Selected(filterValues[..j]))
    {
      var value := filterValues[j];
      assert Selected(filterValues[..j + 1]) == Selected(filterValues[..j]) + {value} by {
        assert filterValues[..j + 1] == filterValues[..j] + [value];
      }
      CountsOverAdd(items, filter, key, Selected(filterValues[..j]), value);
      if value !in facetCounts {
        facetCounts := facetCounts[value := 0];
      }
    }
    assert filterValues[..|filterValues|] == filterValues;
  }
}
