/**
 The selection state of the faceted-search panel: which values are checked
 under each facet key, how the empty state is built from the configured facet
 keys, how one key is dropped from it, and how a checkbox toggles one value.
 A JavaScript object keyed by facet names is modelled as a `map` from strings.
 */
module FilterState {

  /** Facet key to the list of values checked under that facet (an empty list puts no restriction on the facet). */
  type Selection = map<string, seq<string>>

  /** The facet keys the application is configured with. */
  const FilterKeys: seq<string> := ["color", "material", "department"]

  /** The selection before any checkbox is clicked: every configured key maps to the
      empty list. Built the way `reduce` folds the keys from left to right, each
      step adding one key to the accumulated object. */
  function InitialFilterState(filterKeys: seq<string>): (r: Selection)
    ensures r.Keys == set k | k in filterKeys
    ensures forall k :: k in r ==> r[k] == []
  {
    if filterKeys == [] then map[]
    else
      var last := |filterKeys| - 1;
      InitialFilterState(filterKeys[..last])[filterKeys[last] := []]
  }

  /** `obj` with the entry for `key` removed (an absent key leaves `obj` as it is). */
  function Without<V>(obj: map<string, V>, key: string): map<string, V>
  {
    obj - {key}
  }

  /** Exactly `key` is removed, and every other entry keeps its value. */
  lemma WithoutRemovesOnlyKey<V>(obj: map<string, V>, key: string)
    ensures Without(obj, key).Keys == obj.Keys - {key}
    ensures forall k :: k in Without(obj, key) ==> Without(obj, key)[k] == obj[k]
  {
  }

  /** The values of `values` other than `value`, in their order: the unchecking
      half of the toggle, `values.filter(v => v !== value)`. */
  function Unselect(values: seq<string>, value: string): (r: seq<string>)
    ensures |r| <= |values|
    ensures forall x :: x in r <==> x in values && x != value
  {
    if values == [] then []
    else (if values[0] == value then [] else [values[0]]) + Unselect(values[1..], value)
  }

  /** The checkbox handler's state update: checking appends `value` to the list of
      `key`, unchecking drops every occurrence of it; the other keys are copied.
      The handler is only wired to configured keys, which the selection always has. */
  function Toggle(filter: Selection, key: string, value: string, checked: bool): (r: Selection)
    requires key in filter
    ensures r.Keys == filter.Keys
    ensures forall k :: k in filter && k != key ==> r[k] == filter[k]
    ensures checked ==> r[key] == filter[key] + [value]
    ensures !checked ==> value !in r[key]
    ensures !checked ==> forall x :: x != value ==> multiset(r[key])[x] == multiset(filter[key])[x]
  {
    UnselectCounts(filter[key], value);
    filter[key := if checked then filter[key] + [value] else Unselect(filter[key], value)]
  }

  /** Unchecking keeps every other value as many times as it was there. */
  lemma {:induction false} UnselectCounts(values: seq<string>, value: string)
    ensures multiset(Unselect(values, value)) == multiset(values)[value := 0]
  {
    if values != [] {
      UnselectCounts(values[1..], value);
      assert values == [values[0]] + values[1..];
    }
  }

  /** Unchecking works element by element, so the kept values keep their relative order. */
  lemma {:induction false} UnselectAppend(a: seq<string>, b: seq<string>, value: string)
    ensures Unselect(a + b, value) == Unselect(a, value) + Unselect(b, value)
  {
    if a != [] {
      assert (a + b)[1..] == a[1..] + b;
      UnselectAppend(a[1..], b, value);
    } else {
      assert a + b == b;
    }
  }

  /** Unchecking a value that is not selected changes nothing. */
  lemma {:induction false} UnselectAbsent(values: seq<string>, value: string)
    requires value !in values
    ensures Unselect(values, value) == values
  {
    if values != [] {
      UnselectAbsent(values[1..], value);
      assert values == [values[0]] + values[1..];
    }
  }

  /** Unchecking a value just checked, where it was not checked before, restores the selection. */
  lemma ToggleRoundTrip(filter: Selection, key: string, value: string)
    requires key in filter && value !in filter[key]
    ensures Toggle(Toggle(filter, key, value, true), key, value, false) == filter
  {
    var checked := Toggle(filter, key, value, true);
    UnselectAppend(filter[key], [value], value);
    UnselectAbsent(filter[key], value);
    assert Unselect([value], value) == [] by {
      assert [value][1..] == [];
    }
    assert Toggle(checked, key, value, false)[key] == filter[key];
    assert Toggle(checked, key, value, false).Keys == filter.Keys;
  }

  /** No element is listed twice. */
  predicate Distinct<T(==)>(s: seq<T>)
  {
    forall i, j :: 0 <= i < j < |s| ==> s[i] != s[j]
  }

  /** Toggling keeps a selection free of repeated values, as long as a value is
      only checked while it is unchecked (which the checkbox's own state ensures). */
  lemma ToggleKeepsDistinct(filter: Selection, key: string, value: string, checked: bool)
    requires key in filter && Distinct(filter[key])
    requires checked ==> value !in filter[key]
    ensures Distinct(Toggle(filter, key, value, checked)[key])
  {
    var r := Toggle(filter, key, value, checked)[key];
    if !checked {
      forall i, j | 0 <= i < j < |r| ensures r[i] != r[j] {
        var x := r[i];
        UnselectCounts(filter[key], value);
        assert x in filter[key];
        DistinctCount(filter[key], x);
        if r[j] == x {
          TwoPositions(r, i, j);
          assert false;
        }
      }
    }
  }

  /** A value listed in a duplicate-free list occurs there exactly once. */
  lemma {:induction false} DistinctCount(values: seq<string>, x: string)
    requires Distinct(values) && x in values
    ensures multiset(values)[x] == 1
  {
    assert values == [values[0]] + values[1..];
    if values[0] == x {
      assert x !in values[1..];
    } else {
      DistinctCount(values[1..], x);
    }
  }

  /** Two positions holding the same value make it occur at least twice. */
  lemma {:induction false} TwoPositions(values: seq<string>, i: nat, j: nat)
    requires i < j < |values| && values[i] == values[j]
    ensures multiset(values)[values[i]] >= 2
  {
    var x := values[i];
    assert values == values[..j] + values[j..];
    assert values[..j] == values[..i] + values[i..j];
    assert x in values[i..j] && x in values[j..];
  }

  /** The initial selection has exactly the configured keys. */
  lemma InitialKeys()
    ensures InitialFilterState(FilterKeys).Keys == {"color", "material", "department"}
  {
  }
}
