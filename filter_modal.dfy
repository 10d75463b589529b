/** The filter sheet of the home screen: the brand and model option lists built
 from the catalog, the selections the user toggles, the two price fields, and
 the filter object handed back on "apply". */
module FilterModal {
  import opened Js

  // ---------------------------------------------------------------------------
  // The option lists: `[...new Set(values)].sort()`

  /** The default `sort()` order on strings: character by character, a proper
   prefix first. */
  predicate Below(a: string, b: string)
  {
    if |a| == 0 then |b| > 0
    else |b| > 0 && (a[0] < b[0] || (a[0] == b[0] && Below(a[1..], b[1..])))
  }

  lemma {:induction false} BelowIrreflexive(a: string)
    ensures !Below(a, a)
  {
    if |a| > 0 {
      BelowIrreflexive(a[1..]);
    }
  }

  lemma {:induction false} BelowTransitive(a: string, b: string, c: string)
    requires Below(a, b) && Below(b, c)
    ensures Below(a, c)
  {
    if |a| > 0 && a[0] == b[0] && b[0] == c[0] {
      BelowTransitive(a[1..], b[1..], c[1..]);
    }
  }

  lemma {:induction false} BelowTotal(a: string, b: string)
    ensures a == b || Below(a, b) || Below(b, a)
  {
    if |a| > 0 && |b| > 0 && a[0] == b[0] {
      BelowTotal(a[1..], b[1..]);
      if a[1..] == b[1..] {
        assert a == [a[0]] + a[1..] && b == [b[0]] + b[1..];
      }
    }
  }

  /** Ascending in the sort order, hence free of duplicates. */
  ghost predicate StrictlySorted(s: seq<string>)
  {
    forall i, j | 0 <= i < j < |s| :: Below(s[i], s[j])
  }

  /** Each value appears at most once. */
  ghost predicate NoDuplicates(s: seq<string>)
  {
    forall i, j | 0 <= i < j < |s| :: s[i] != s[j]
  }

  /** Put `x` into its place in a strictly sorted list, unless it is already there. */
  function InsertSorted(s: seq<string>, x: string): (r: seq<string>)
    requires StrictlySorted(s)
    ensures StrictlySorted(r)
    ensures forall v :: v in r <==> v in s || v == x
  {
    if |s| == 0 then [x]
    else if x == s[0] then s
    else if Below(x, s[0]) then
      assert forall j | 0 < j < |s| :: Below(x, s[j]) by {
        forall j | 0 < j < |s| ensures Below(x, s[j]) { BelowTransitive(x, s[0], s[j]); }
      }
      [x] + s
    else
      BelowTotal(x, s[0]);
      assert StrictlySorted(s[1..]) by {
        forall i, j | 0 <= i < j < |s[1..]| ensures Below(s[1..][i], s[1..][j]) {
          assert s[1..][i] == s[i + 1] && s[1..][j] == s[j + 1];
        }
      }
      var rest := InsertSorted(s[1..], x);
      assert forall v | v in rest :: Below(s[0], v) by {
        forall v | v in rest ensures Below(s[0], v) {
          if v != x {
            var k :| 0 <= k < |s[1..]| && s[1..][k] == v;
            assert s[k + 1] == v;
          }
        }
      }
      var r := [s[0]] + rest;
      assert StrictlySorted(r) by {
        forall i, j | 0 <= i < j < |r| ensures Below(r[i], r[j]) {
          assert r[j] == rest[j - 1] && r[j] in rest;
          if i > 0 {
            assert r[i] == rest[i - 1];
          }
        }
      }
      r
  }

  /** The distinct values of `xs`, ascending: each value of `xs` exactly once. */
  function DistinctSorted(xs: seq<string>): (r: seq<string>)
    ensures StrictlySorted(r)
    ensures forall v :: v in r <==> v in xs
    ensures NoDuplicates(r)
  {
    if |xs| == 0 then []
    else
      var r := InsertSorted(DistinctSorted(xs[..|xs| - 1]), xs[|xs| - 1]);
      assert xs == xs[..|xs| - 1] + [xs[|xs| - 1]];
      assert NoDuplicates(r) by {
        forall i, j | 0 <= i < j < |r| ensures r[i] != r[j] {
          if r[i] == r[j] {
            BelowIrreflexive(r[i]);
          }
        }
      }
      r
  }

  /** Two strictly sorted lists with the same members are the same list: the
   option list does not depend on the order the catalog arrives in. */
  lemma {:induction false} SortedListsWithSameMembersAreEqual(a: seq<string>, b: seq<string>)
    requires StrictlySorted(a) && StrictlySorted(b)
    requires forall v :: v in a <==> v in b
    ensures a == b
  {
    // every member of one list is a member of the other, so neither is empty alone
    assert forall i | 0 <= i < |a| :: a[i] in b;
    assert forall i | 0 <= i < |b| :: b[i] in a;
    if |a| > 0 && |b| > 0 {
      // the head of each list is below every other member, so the heads agree
      assert a[0] in a && b[0] in b;
      if a[0] != b[0] {
        var i :| 0 <= i < |b| && b[i] == a[0];
        var j :| 0 <= j < |a| && a[j] == b[0];
        assert i > 0 && j > 0;
        assert Below(b[0], a[0]) && Below(a[0], b[0]);
        BelowTransitive(a[0], b[0], a[0]);
        BelowIrreflexive(a[0]);
      }
      forall v | v in a[1..] ensures v in b[1..] {
        var k :| 0 <= k < |a[1..]| && a[1..][k] == v;
        assert Below(a[0], a[k + 1]);
        if v == a[0] { BelowIrreflexive(v); }
        assert v in a && v in b;
        var m :| 0 <= m < |b| && b[m] == v;
        assert m > 0 && b[1..][m - 1] == v;
      }
      forall v | v in b[1..] ensures v in a[1..] {
        var k :| 0 <= k < |b[1..]| && b[1..][k] == v;
        assert Below(b[0], b[k + 1]);
        if v == b[0] { BelowIrreflexive(v); }
        assert v in b && v in a;
        var m :| 0 <= m < |a| && a[m] == v;
        assert m > 0 && a[1..][m - 1] == v;
      }
      assert StrictlySorted(a[1..]) by {
        forall i, j | 0 <= i < j < |a[1..]| ensures Below(a[1..][i], a[1..][j]) {
          assert a[1..][i] == a[i + 1] && a[1..][j] == a[j + 1];
        }
      }
      assert StrictlySorted(b[1..]) by {
        forall i, j | 0 <= i < j < |b[1..]| ensures Below(b[1..][i], b[1..][j]) {
          assert b[1..][i] == b[i + 1] && b[1..][j] == b[j + 1];
        }
      }
      SortedListsWithSameMembersAreEqual(a[1..], b[1..]);
      assert a == [a[0]] + a[1..] && b == [b[0]] + b[1..];
    }
  }

  /** `allBrands`: every product's brand exactly once, ascending, and nothing else. */
  function AllBrands(products: seq<Product>): (r: seq<string>)
    ensures StrictlySorted(r)
    ensures forall p | p in products :: p.brand in r
    ensures forall v | v in r :: exists p | p in products :: p.brand == v
  {
    var brands := seq(|products|, i requires 0 <= i < |products| => products[i].brand);
    assert forall p | p in products :: p.brand in brands by {
      forall p | p in products ensures p.brand in brands {
        var i :| 0 <= i < |products| && products[i] == p;
        assert brands[i] == p.brand;
      }
    }
    DistinctSorted(brands)
  }

  /** `allModels`: every product's model exactly once, ascending, and nothing else. */
  function AllModels(products: seq<Product>): (r: seq<string>)
    ensures StrictlySorted(r)
    ensures forall p | p in products :: p.model in r
    ensures forall v | v in r :: exists p | p in products :: p.model == v
  {
    var models := seq(|products|, i requires 0 <= i < |products| => products[i].model);
    assert forall p | p in products :: p.model in models by {
      forall p | p in products ensures p.model in models {
        var i :| 0 <= i < |products| && products[i] == p;
        assert models[i] == p.model;
      }
    }
    DistinctSorted(models)
  }

  // ---------------------------------------------------------------------------
  // The selections

  /** `sel.filter(v => v !== x)` */
  function RemoveAll(sel: seq<string>, x: string): (r: seq<string>)
    ensures forall v :: v in r <==> v in sel && v != x
    ensures |r| <= |sel|
  {
    if |sel| == 0 then []
    else (if sel[0] == x then [] else [sel[0]]) + RemoveAll(sel[1..], x)
  }

  /** `filter` distributes over concatenation, so the kept values keep their order. */
  lemma {:induction false} RemoveAllAppend(s: seq<string>, t: seq<string>, x: string)
    ensures RemoveAll(s + t, x) == RemoveAll(s, x) + RemoveAll(t, x)
  {
    if |s| == 0 {
      assert s + t == t;
    } else {
      assert (s + t)[0] == s[0] && (s + t)[1..] == s[1..] + t;
      RemoveAllAppend(s[1..], t, x);
    }
  }

  lemma {:induction false} RemoveAllAbsent(s: seq<string>, x: string)
    requires x !in s
    ensures RemoveAll(s, x) == s
  {
    if |s| > 0 {
      RemoveAllAbsent(s[1..], x);
      assert [s[0]] + s[1..] == s;
    }
  }

  lemma {:induction false} RemoveAllKeepsNoDuplicates(s: seq<string>, x: string)
    requires NoDuplicates(s)
    ensures NoDuplicates(RemoveAll(s, x))
  {
    if |s| > 0 {
      assert NoDuplicates(s[1..]) by {
        forall i, j | 0 <= i < j < |s[1..]| ensures s[1..][i] != s[1..][j] {
          assert s[1..][i] == s[i + 1] && s[1..][j] == s[j + 1];
        }
      }
      RemoveAllKeepsNoDuplicates(s[1..], x);
      var rest := RemoveAll(s[1..], x);
      if s[0] != x {
        assert s[0] !in s[1..];
        var r := [s[0]] + rest;
        forall i, j | 0 <= i < j < |r| ensures r[i] != r[j] {
          assert r[j] == rest[j - 1] && r[j] in rest;
          if i > 0 {
            assert r[i] == rest[i - 1];
          }
        }
      }
    }
  }

  /** `toggleBrand` / `toggleModel`: drop every occurrence of a selected value,
   append an unselected one. */
  function Toggle(sel: seq<string>, x: string): (r: seq<string>)
    ensures x in sel ==> x !in r && forall v :: v in r <==> v in sel && v != x
    ensures x !in sel ==> r == sel + [x]
  {
    if x in sel then RemoveAll(sel, x) else sel + [x]
  }

  /** Toggles never introduce a duplicate. */
  lemma ToggleKeepsNoDuplicates(sel: seq<string>, x: string)
    requires NoDuplicates(sel)
    ensures NoDuplicates(Toggle(sel, x))
  {
    if x in sel {
      RemoveAllKeepsNoDuplicates(sel, x);
    }
  }

  /** Selecting a value and deselecting it again gives back the original selection. */
  lemma ToggleTwiceRestores(sel: seq<string>, x: string)
    requires x !in sel
    ensures Toggle(Toggle(sel, x), x) == sel
  {
    RemoveAllAppend(sel, [x], x);
    RemoveAllAbsent(sel, x);
    assert RemoveAll([x], x) == [];
  }

  // ---------------------------------------------------------------------------
  // Price fields and the filter object

  /** What "apply" hands back. A price bound is kept as the text of the number;
   turning text into a number and back is not part of this model. */
  datatype FilterOptions = FilterOptions(brands: seq<string>, models: seq<string>,
                                         min: Option<string>, max: Option<string>)

  /** `minPrice ? parseFloat(minPrice) : null`: an empty field means no bound. */
  function Bound(text: string): (r: Option<string>)
    ensures r.None? <==> text == ""
    ensures r.Some? ==> r.value == text
  {
    if text == "" then None else Some(text)
  }

  /** `min !== null ? String(min) : ''`: what an open sheet shows for a bound. */
  function PriceText(bound: Option<string>): (r: string)
    ensures Bound(r) == (if bound == Some("") then None else bound)
  {
    match bound
    case Some(t) => t
    case None => ""
  }

  /** Opening the sheet on active filters and applying at once hands the same
   filters back (a bound's text is never empty). */
  lemma {:induction false} OpenThenApplyRoundTrip(f: FilterOptions)
    requires f.min.Some? ==> f.min.value != ""
    requires f.max.Some? ==> f.max.value != ""
    ensures FilterOptions(f.brands, f.models, Bound(PriceText(f.min)), Bound(PriceText(f.max))) == f
  {
  }

  class Sheet {
    var selectedBrands: seq<string>
    var selectedModels: seq<string>
    var minPrice: string
    var maxPrice: string

    constructor ()
      ensures selectedBrands == [] && selectedModels == [] && minPrice == "" && maxPrice == ""
    {
      selectedBrands, selectedModels := [], [];
      minPrice, maxPrice := "", "";
    }

    method ToggleBrand(brand: string)
      modifies this
      ensures selectedBrands == Toggle(old(selectedBrands), brand)
      ensures selectedModels == old(selectedModels) && minPrice == old(minPrice) && maxPrice == old(maxPrice)
    {
      selectedBrands := Toggle(selectedBrands, brand);
    }

    method ToggleModel(model: string)
      modifies this
      ensures selectedModels == Toggle(old(selectedModels), model)
      ensures selectedBrands == old(selectedBrands) && minPrice == old(minPrice) && maxPrice == old(maxPrice)
    {
      selectedModels := Toggle(selectedModels, model);
    }

    /** `handleClearFilters()` */
    method ClearFilters()
      modifies this
      ensures selectedBrands == [] && selectedModels == [] && minPrice == "" && maxPrice == ""
    {
      selectedBrands, selectedModels := [], [];
      minPrice, maxPrice := "", "";
    }

    /** The effect that runs when `visible` or `activeFilters` changes: an open
     sheet copies the active filters, or clears everything when there are none;
     a closed sheet keeps its state. */
    method OnOpen(visible: bool, active: Option<FilterOptions>)
      modifies this
      ensures !visible ==>
                selectedBrands == old(selectedBrands) && selectedModels == old(selectedModels) &&
                minPrice == old(minPrice) && maxPrice == old(maxPrice)
      ensures visible && active.Some? ==>
                selectedBrands == active.value.brands && selectedModels == active.value.models &&
                minPrice == PriceText(active.value.min) && maxPrice == PriceText(active.value.max)
      ensures visible && active.None? ==>
                selectedBrands == [] && selectedModels == [] && minPrice == "" && maxPrice == ""
    {
      if visible {
        match active
        case Some(f) =>
          selectedBrands, selectedModels := f.brands, f.models;
          minPrice, maxPrice := PriceText(f.min), PriceText(f.max);
        case None =>
          selectedBrands, selectedModels := [], [];
          minPrice, maxPrice := "", "";
      }
    }

    /** `handleApplyFilters()`: the selections as they are, and a bound for each
     non-empty price field. */
    method ApplyFilters() returns (f: FilterOptions)
      ensures f.brands == selectedBrands && f.models == selectedModels
      ensures f.min.None? <==> minPrice == ""
      ensures f.max.None? <==> maxPrice == ""
      ensures f.min.Some? ==> f.min.value == minPrice
      ensures f.max.Some? ==> f.max.value == maxPrice
    {
      f := FilterOptions(selectedBrands, selectedModels, Bound(minPrice), Bound(maxPrice));
    }
  }
}
