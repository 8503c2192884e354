/**
 Worked examples of the evaluator on two catalogue items that share a material
 and differ in colour, with the facet keys `color` and `material`. They pin the
 model to concrete outputs: the filtered items and the full `valueMap`.
 */
module Scenarios {
  import opened FilterState
  import opened Facets

  const RedWood: Item := Item(1, map["color" := "red", "material" := "wood"])
  const BlueWood: Item := Item(2, map["color" := "blue", "material" := "wood"])
  const Records: seq<Item> := [RedWood, BlueWood]

  /** Nothing checked under either facet. */
  const NoneChecked: Selection := map["color" := [], "material" := []]
  /** Only `red` checked under `color`. */
  const RedChecked: Selection := map["color" := ["red"], "material" := []]
  /** Only `green`, which no item has, checked under `color`. */
  const GreenChecked: Selection := map["color" := ["green"], "material" := []]

  /** With nothing checked, both items pass; colours are counted once each, wood twice. */
  lemma NoneCheckedResult()
    ensures Filtered(Records, NoneChecked) == Records
    ensures Counts(Records, NoneChecked) ==
      map["color" := map["red" := 1, "blue" := 1], "material" := map["wood" := 2]]
  {
    NoneCheckedFiltered();
    NoneCheckedColor();
    NoneCheckedMaterial();
    TwoFacets(Records, NoneChecked, "color", "material");
  }

  lemma NoneCheckedFiltered()
    ensures Filtered(Records, NoneChecked) == Records
  {
    assert Records[..1] == [RedWood] && [RedWood][..0] == [];
    assert MatchesAll(RedWood, NoneChecked) && MatchesAll(BlueWood, NoneChecked);
  }

  lemma NoneCheckedColor()
    ensures FacetCounts(Records, NoneChecked, "color") == map["red" := 1, "blue" := 1]
  {
    var filter := NoneChecked;
    assert Records[..1] == [RedWood] && [RedWood][..0] == [];
    assert Without(filter, "color") == map["material" := []];
    assert MatchesAll(RedWood, Without(filter, "color"));
    assert MatchesAll(BlueWood, Without(filter, "color"));
    assert Observed(Records, filter, "color") == {"red", "blue"} by {
      assert ValueKey(Records[0], "color") == "red";
      assert ValueKey(Records[1], "color") == "blue";
    }
    assert Selected(filter["color"]) == {};
    assert Count(Records, filter, "color", "red") == 1;
    assert Count(Records, filter, "color", "blue") == 1;
    var m := FacetCounts(Records, filter, "color");
    assert m.Keys == {"red", "blue"};
  }

  lemma NoneCheckedMaterial()
    ensures FacetCounts(Records, NoneChecked, "material") == map["wood" := 2]
  {
    var filter := NoneChecked;
    assert Records[..1] == [RedWood] && [RedWood][..0] == [];
    assert Without(filter, "material") == map["color" := []];
    assert MatchesAll(RedWood, Without(filter, "material"));
    assert MatchesAll(BlueWood, Without(filter, "material"));
    assert Observed(Records, filter, "material") == {"wood"} by {
      assert ValueKey(Records[0], "material") == "wood";
      assert ValueKey(Records[1], "material") == "wood";
    }
    assert Selected(filter["material"]) == {};
    assert Count(Records, filter, "material", "wood") == 2;
    var m := FacetCounts(Records, filter, "material");
    assert m.Keys == {"wood"};
  }

  /** With `red` checked, only the red item passes. The colour facet ignores its own
      selection, so `blue` is still counted; the material facet respects it. */
  lemma RedCheckedResult()
    ensures Filtered(Records, RedChecked) == [RedWood]
    ensures Counts(Records, RedChecked) ==
      map["color" := map["red" := 1, "blue" := 1], "material" := map["wood" := 1]]
  {
    RedCheckedFiltered();
    RedCheckedColor();
    RedCheckedMaterial();
    TwoFacets(Records, RedChecked, "color", "material");
  }

  lemma RedCheckedFiltered()
    ensures Filtered(Records, RedChecked) == [RedWood]
  {
    assert Records[..1] == [RedWood] && [RedWood][..0] == [];
    assert MatchesAll(RedWood, RedChecked);
    assert !MatchesValues(BlueWood, "color", RedChecked["color"]);
  }

  lemma RedCheckedColor()
    ensures FacetCounts(Records, RedChecked, "color") == map["red" := 1, "blue" := 1]
  {
    var filter := RedChecked;
    assert Records[..1] == [RedWood] && [RedWood][..0] == [];
    assert Without(filter, "color") == map["material" := []];
    assert MatchesAll(RedWood, Without(filter, "color"));
    assert MatchesAll(BlueWood, Without(filter, "color"));
    assert Observed(Records, filter, "color") == {"red", "blue"} by {
      assert ValueKey(Records[0], "color") == "red";
      assert ValueKey(Records[1], "color") == "blue";
    }
    assert Selected(filter["color"]) == {"red"};
    assert Count(Records, filter, "color", "red") == 1;
    assert Count(Records, filter, "color", "blue") == 1;
    var m := FacetCounts(Records, filter, "color");
    assert m.Keys == {"red", "blue"};
  }

  lemma RedCheckedMaterial()
    ensures FacetCounts(Records, RedChecked, "material") == map["wood" := 1]
  {
    var filter := RedChecked;
    assert Records[..1] == [RedWood] && [RedWood][..0] == [];
    assert Without(filter, "material") == map["color" := ["red"]];
    assert MatchesAll(RedWood, Without(filter, "material"));
    assert !MatchesAll(BlueWood, Without(filter, "material")) by {
      assert !MatchesValues(BlueWood, "color", filter["color"]);
    }
    assert Observed(Records, filter, "material") == {"wood"} by {
      assert ValueKey(Records[0], "material") == "wood";
    }
    assert Selected(filter["material"]) == {};
    assert Count(Records, filter, "material", "wood") == 1;
    var m := FacetCounts(Records, filter, "material");
    assert m.Keys == {"wood"};
  }

  /** With `green` checked, no item passes. `green` is kept with count 0 beside the
      observed colours, and the material facet, which nothing reaches, stays empty. */
  lemma GreenCheckedResult()
    ensures Filtered(Records, GreenChecked) == []
    ensures Counts(Records, GreenChecked) ==
      map["color" := map["red" := 1, "blue" := 1, "green" := 0], "material" := map[]]
  {
    GreenCheckedFiltered();
    GreenCheckedColor();
    GreenCheckedMaterial();
    TwoFacets(Records, GreenChecked, "color", "material");
  }

  lemma GreenCheckedFiltered()
    ensures Filtered(Records, GreenChecked) == []
  {
    assert Records[..1] == [RedWood] && [RedWood][..0] == [];
    assert !MatchesValues(RedWood, "color", GreenChecked["color"]);
    assert !MatchesValues(BlueWood, "color", GreenChecked["color"]);
  }

  lemma GreenCheckedColor()
    ensures FacetCounts(Records, GreenChecked, "color") == map["red" := 1, "blue" := 1, "green" := 0]
  {
    var filter := GreenChecked;
    assert Records[..1] == [RedWood] && [RedWood][..0] == [];
    assert Without(filter, "color") == map["material" := []];
    assert MatchesAll(RedWood, Without(filter, "color"));
    assert MatchesAll(BlueWood, Without(filter, "color"));
    assert Observed(Records, filter, "color") == {"red", "blue"} by {
      assert ValueKey(Records[0], "color") == "red";
      assert ValueKey(Records[1], "color") == "blue";
    }
    assert Selected(filter["color"]) == {"green"};
    assert Count(Records, filter, "color", "red") == 1;
    assert Count(Records, filter, "color", "blue") == 1;
    assert Count(Records, filter, "color", "green") == 0;
    var m := FacetCounts(Records, filter, "color");
    assert m.Keys == {"red", "blue", "green"};
  }

  lemma GreenCheckedMaterial()
    ensures FacetCounts(Records, GreenChecked, "material") == map[]
  {
    var filter := GreenChecked;
    assert Without(filter, "material") == map["color" := ["green"]];
    assert !MatchesAll(RedWood, Without(filter, "material")) by {
      assert !MatchesValues(RedWood, "color", filter["color"]);
    }
    assert !MatchesAll(BlueWood, Without(filter, "material")) by {
      assert !MatchesValues(BlueWood, "color", filter["color"]);
    }
    assert Observed(Records, filter, "material") == {};
    assert Selected(filter["material"]) == {};
    var m := FacetCounts(Records, filter, "material");
    assert m.Keys == {};
  }

  /** Checking a colour that no item carries adds an entry with count 0 to the colour
      facet's own counts, so toggling within a facet can change that facet's counts. */
  lemma OwnCountsCanChange()
    ensures Counts([], map["color" := []])["color"] == map[]
    ensures Counts([], map["color" := ["green"]])["color"] == map["green" := 0]
  {
    assert Observed([], map["color" := []], "color") == {};
    assert Observed([], map["color" := ["green"]], "color") == {};
    assert Selected(["green"]) == {"green"};
  }

  /** An item without a colour is counted under `"undefined"`, yet checking that value
      does not select it; only an item whose colour is the text `undefined` matches. */
  lemma UndefinedCheckbox()
    ensures ValueKey(Item(3, map[]), "color") == "undefined"
    ensures !MatchesValues(Item(3, map[]), "color", ["undefined"])
    ensures MatchesValues(Item(4, map["color" := "undefined"]), "color", ["undefined"])
  {
  }

  /** The counts of a selection with exactly two facet keys, facet by facet. */
  lemma TwoFacets(items: seq<Item>, filter: Selection, a: string, b: string)
    requires filter.Keys == {a, b} && a != b
    ensures Counts(items, filter) == map[a := FacetCounts(items, filter, a), b := FacetCounts(items, filter, b)]
  {
    var m := Counts(items, filter);
    assert m.Keys == {a, b};
  }
}
