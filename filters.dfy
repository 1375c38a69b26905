/** The filter composer: the sidebar's size, price-range and topping
    criteria, applied to the rows as three successive boolean-mask
    selections, and the defaults the sidebar starts from. */
module Filters {
  import opened Seqs
  import opened Text
  import opened Dataset
  import opened Toppings

  /** The widget outputs: the selected sizes, the slider's closed price
      interval [lo, hi] and the selected toppings. */
  datatype Criteria = Criteria(sizes: seq<string>, lo: real, hi: real, toppings: seq<string>)

  /** `df['pizza_size'].isin(selected_sizes)` for one row. */
  predicate SizeSelected(rec: OrderRecord, sizes: seq<string>)
  {
    rec.size in sizes
  }

  /** `(unit_price >= lo) & (unit_price <= hi)` for one row. */
  predicate PriceInRange(rec: OrderRecord, lo: real, hi: real)
  {
    lo <= rec.price && rec.price <= hi
  }

  /** `any(topping in x for topping in selected_toppings)` on the row's
      ingredients string: a substring test, not a test on the pieces. */
  predicate HasAnyTopping(rec: OrderRecord, toppings: seq<string>)
  {
    exists k :: 0 <= k < |toppings| && Contains(rec.ingredients, toppings[k])
  }

  /** What the topping stage demands of a row: nothing when no topping is
      selected, otherwise one of the selected toppings. */
  predicate ToppingAccepted(rec: OrderRecord, toppings: seq<string>)
  {
    |toppings| == 0 || HasAnyTopping(rec, toppings)
  }

  /** A row survives the whole pipeline. */
  predicate Matches(rec: OrderRecord, c: Criteria)
  {
    SizeSelected(rec, c.sizes) && PriceInRange(rec, c.lo, c.hi) && ToppingAccepted(rec, c.toppings)
  }

  function BySize(sizes: seq<string>): OrderRecord -> bool
  {
    rec => SizeSelected(rec, sizes)
  }

  function ByPrice(lo: real, hi: real): OrderRecord -> bool
  {
    rec => PriceInRange(rec, lo, hi)
  }

  function ByAnyTopping(toppings: seq<string>): OrderRecord -> bool
  {
    rec => HasAnyTopping(rec, toppings)
  }

  function ByToppings(toppings: seq<string>): OrderRecord -> bool
  {
    rec => ToppingAccepted(rec, toppings)
  }

  function ByCriteria(c: Criteria): OrderRecord -> bool
  {
    rec => Matches(rec, c)
  }

  /** Stage 1, `df[df['pizza_size'].isin(selected_sizes)]`: the rows whose
      size is selected, in order. An empty selection keeps nothing. */
  function SizeStage(rows: seq<OrderRecord>, sizes: seq<string>): (r: seq<OrderRecord>)
    ensures r == Filter(rows, BySize(sizes))
    ensures IsSubsequence(r, rows)
    ensures forall x :: x in r <==> x in rows && SizeSelected(x, sizes)
    ensures sizes == [] ==> r == []
  {
    SelectMaskOf(rows, BySize(sizes));
    var r := Select(rows, MaskOf(rows, BySize(sizes)));
    assert r != [] ==> r[0] in r;
    r
  }

  /** Stage 2: the rows whose price lies in [lo, hi], both ends included. */
  function PriceStage(rows: seq<OrderRecord>, lo: real, hi: real): (r: seq<OrderRecord>)
    ensures r == Filter(rows, ByPrice(lo, hi))
    ensures IsSubsequence(r, rows)
    ensures forall x :: x in r <==> x in rows && PriceInRange(x, lo, hi)
  {
    SelectMaskOf(rows, ByPrice(lo, hi));
    Select(rows, MaskOf(rows, ByPrice(lo, hi)))
  }

  /** Stage 3: only when some topping is selected, the rows whose
      ingredients contain one of them; with no topping selected the rows
      pass unchanged. */
  function ToppingStage(rows: seq<OrderRecord>, toppings: seq<string>): (r: seq<OrderRecord>)
    ensures r == Filter(rows, ByToppings(toppings))
    ensures IsSubsequence(r, rows)
    ensures forall x :: x in r <==> x in rows && ToppingAccepted(x, toppings)
    ensures toppings == [] ==> r == rows
  {
    if |toppings| > 0 then
      SelectMaskOf(rows, ByAnyTopping(toppings));
      FilterExtensional(rows, ByAnyTopping(toppings), ByToppings(toppings));
      Select(rows, MaskOf(rows, ByAnyTopping(toppings)))
    else
      FilterKeepsAll(rows, ByToppings(toppings));
      rows
  }

  /** The three stages in sequence are one filter by the conjunction of
      their predicates. */
  lemma StagesAreConjunction(rows: seq<OrderRecord>, c: Criteria)
    ensures Filter(Filter(Filter(rows, BySize(c.sizes)), ByPrice(c.lo, c.hi)), ByToppings(c.toppings))
         == Filter(rows, ByCriteria(c))
  {
    var sizeAndPrice := (rec: OrderRecord) => SizeSelected(rec, c.sizes) && PriceInRange(rec, c.lo, c.hi);
    FilterConjunction(rows, BySize(c.sizes), ByPrice(c.lo, c.hi), sizeAndPrice);
    FilterConjunction(rows, sizeAndPrice, ByToppings(c.toppings), ByCriteria(c));
  }

  /** Lines 61-67 of the script: `df_filtered` rebound through the three
      stages. The result is the input's rows that meet every criterion, in
      their original order, and never more rows than the input. */
  function ApplyFilters(rows: seq<OrderRecord>, c: Criteria): (r: seq<OrderRecord>)
    ensures r == Filter(rows, ByCriteria(c))
    ensures IsSubsequence(r, rows) && |r| <= |rows|
    ensures forall x :: x in r <==> x in rows && Matches(x, c)
  {
    var bySize := SizeStage(rows, c.sizes);
    var byPrice := PriceStage(bySize, c.lo, c.hi);
    StagesAreConjunction(rows, c);
    ToppingStage(byPrice, c.toppings)
  }

  /** The stages may run in any order. */
  lemma StagesCommute(rows: seq<OrderRecord>, c: Criteria)
    ensures PriceStage(SizeStage(rows, c.sizes), c.lo, c.hi) == SizeStage(PriceStage(rows, c.lo, c.hi), c.sizes)
    ensures ToppingStage(SizeStage(rows, c.sizes), c.toppings) == SizeStage(ToppingStage(rows, c.toppings), c.sizes)
    ensures ToppingStage(PriceStage(rows, c.lo, c.hi), c.toppings) == PriceStage(ToppingStage(rows, c.toppings), c.lo, c.hi)
  {
    var size, price, topping := BySize(c.sizes), ByPrice(c.lo, c.hi), ByToppings(c.toppings);
    var sp := (rec: OrderRecord) => size(rec) && price(rec);
    FilterConjunction(rows, size, price, sp);
    FilterConjunction(rows, price, size, sp);
    var st := (rec: OrderRecord) => size(rec) && topping(rec);
    FilterConjunction(rows, size, topping, st);
    FilterConjunction(rows, topping, size, st);
    var pt := (rec: OrderRecord) => price(rec) && topping(rec);
    FilterConjunction(rows, price, topping, pt);
    FilterConjunction(rows, topping, price, pt);
  }

  /** Filtering an already filtered result with the same criteria changes
      nothing. */
  lemma ApplyFiltersIdempotent(rows: seq<OrderRecord>, c: Criteria)
    ensures ApplyFilters(ApplyFilters(rows, c), c) == ApplyFilters(rows, c)
  {
    FilterConjunction(rows, ByCriteria(c), ByCriteria(c), ByCriteria(c));
  }

  /** No size selected: no row survives, whatever the other criteria. */
  lemma NoSizeSelectsNothing(rows: seq<OrderRecord>, c: Criteria)
    requires c.sizes == []
    ensures ApplyFilters(rows, c) == []
  {
    assert SizeStage(rows, c.sizes) == [];
  }

  /** Widening the price interval keeps every row that survived the
      narrower one, in the same order, so the count never drops. */
  lemma WiderPriceRangeKeepsRows(rows: seq<OrderRecord>, c: Criteria, lo': real, hi': real)
    requires lo' <= c.lo && c.hi <= hi'
    ensures IsSubsequence(ApplyFilters(rows, c), ApplyFilters(rows, c.(lo := lo', hi := hi')))
    ensures |ApplyFilters(rows, c)| <= |ApplyFilters(rows, c.(lo := lo', hi := hi'))|
  {
    var wide := c.(lo := lo', hi := hi');
    FilterMonotone(rows, ByCriteria(c), ByCriteria(wide));
    SubsequenceLength(ApplyFilters(rows, c), ApplyFilters(rows, wide));
  }

  /** Selecting more sizes keeps every row that survived before. */
  lemma MoreSizesKeepRows(rows: seq<OrderRecord>, c: Criteria, sizes': seq<string>)
    requires forall s :: s in c.sizes ==> s in sizes'
    ensures IsSubsequence(ApplyFilters(rows, c), ApplyFilters(rows, c.(sizes := sizes')))
  {
    FilterMonotone(rows, ByCriteria(c), ByCriteria(c.(sizes := sizes')));
  }

  /** Adding toppings to a non-empty selection, or clearing the selection,
      keeps every row that survived before. Adding a topping to an empty
      selection is not covered: that turns the topping stage on. */
  lemma MoreToppingsKeepRows(rows: seq<OrderRecord>, c: Criteria, toppings': seq<string>)
    requires toppings' == [] || (c.toppings != [] && forall t :: t in c.toppings ==> t in toppings')
    ensures IsSubsequence(ApplyFilters(rows, c), ApplyFilters(rows, c.(toppings := toppings')))
  {
    var wide := c.(toppings := toppings');
    forall rec | Matches(rec, c)
      ensures Matches(rec, wide)
    {
      if toppings' != [] {
        var k :| 0 <= k < |c.toppings| && Contains(rec.ingredients, c.toppings[k]);
        assert c.toppings[k] in c.toppings;
        var k' :| 0 <= k' < |toppings'| && toppings'[k'] == c.toppings[k];
      }
    }
    FilterMonotone(rows, ByCriteria(c), ByCriteria(wide));
  }

  /** Line 36: `df['pizza_size'].unique().tolist()`, the size options and
      the default size selection. */
  function ObservedSizes(rows: seq<OrderRecord>): (r: seq<string>)
    ensures Distinct(r)
    ensures forall s :: s in r <==> exists i :: 0 <= i < |rows| && rows[i].size == s
  {
    var sizes := SizeColumn(rows);
    var r := Unique(sizes);
    assert forall s :: s in sizes <==> exists i :: 0 <= i < |rows| && rows[i].size == s by {
      forall s
        ensures s in sizes <==> exists i :: 0 <= i < |rows| && rows[i].size == s
      {
        if s in sizes {
          var i :| 0 <= i < |sizes| && sizes[i] == s;
          assert rows[i].size == s;
        }
        if exists i :: 0 <= i < |rows| && rows[i].size == s {
          var i :| 0 <= i < |rows| && rows[i].size == s;
          assert sizes[i] == s;
        }
      }
    }
    r
  }

  /** The sidebar's initial state: every observed size, the slider spanning
      [min price, max price], and no topping. */
  function DefaultCriteria(rows: seq<OrderRecord>): Criteria
    requires |rows| > 0
  {
    Criteria(ObservedSizes(rows), MinPrice(rows), MaxPrice(rows), [])
  }

  /** With the defaults the filtered view is the whole dataset. */
  lemma DefaultsKeepEverything(rows: seq<OrderRecord>)
    requires |rows| > 0
    ensures ApplyFilters(rows, DefaultCriteria(rows)) == rows
  {
    var c := DefaultCriteria(rows);
    forall i | 0 <= i < |rows|
      ensures ByCriteria(c)(rows[i])
    {
      assert rows[i].size in c.sizes;
    }
    FilterKeepsAll(rows, ByCriteria(c));
  }

  /** A topping taken from the vocabulary selects every row it was taken
      from, so a vocabulary entry never selects a row set missing its
      source rows. */
  lemma VocabularyToppingKeepsItsRows(rows: seq<OrderRecord>, t: string, k: int)
    requires 0 <= k < |rows| && IsPieceOf(t, rows[k])
    ensures t in Vocabulary(rows)
    ensures rows[k] in ToppingStage(rows, [t])
  {
    assert Contains(rows[k].ingredients, t);
    assert HasAnyTopping(rows[k], [t]) by {
      assert [t][0] == t;
    }
  }

  /** The topping test matches inside ingredient names: "Onions" selects a
      row whose only ingredient is "Red Onions", although "Onions" is not
      one of its pieces. */
  lemma ToppingIsSubstringTest(rec: OrderRecord)
    requires rec.ingredients == "Red Onions"
    ensures !IsPieceOf("Onions", rec)
    ensures ToppingStage([rec], ["Onions"]) == [rec]
  {
    RedOnionsPieces(rec);
    assert HasAnyTopping(rec, ["Onions"]) by {
      RedOnionsContainsOnions(rec);
      assert ["Onions"][0] == "Onions";
    }
  }

  lemma RedOnionsContainsOnions(rec: OrderRecord)
    requires rec.ingredients == "Red Onions"
    ensures Contains(rec.ingredients, "Onions")
  {
    assert "Red Onions" == "Red " + "Onions" + "";
    ContainedInMiddle("Red ", "Onions", "");
  }

  lemma RedOnionsPieces(rec: OrderRecord)
    requires rec.ingredients == "Red Onions"
    ensures Split(rec.ingredients, Delimiter) == ["Red Onions"]
    ensures !IsPieceOf("Onions", rec)
  {
    MissingCharNotContained("Red Onions", Delimiter, 0);
    DelimiterUnbordered();
    SplitJoin(["Red Onions"], Delimiter);
    assert |"Onions"| != |"Red Onions"|;
  }
}

module FilterExamples {
  import opened Seqs
  import opened Text
  import opened Dataset
  import opened Filters

  /** A row with ingredients "Cheese, Pepperoni, Basil" survives the
      topping selection ["Basil"]; one with "Cheese, Mushroom" does not. */
  lemma ToppingOrExample(kept: OrderRecord, dropped: OrderRecord)
    requires kept.ingredients == "Cheese, Pepperoni, Basil"
    requires dropped.ingredients == "Cheese, Mushroom"
    ensures ToppingStage([kept, dropped], ["Basil"]) == [kept]
  {
    BasilAtEnd(kept, "Cheese, Pepperoni, ");
    NoBasil(dropped);
    KeepFirstOfTwo([kept, dropped], ByToppings(["Basil"]));
  }

  /** Ingredients ending in "Basil" contain the topping Basil. */
  lemma BasilAtEnd(rec: OrderRecord, before: string)
    requires rec.ingredients == before + "Basil"
    ensures ToppingAccepted(rec, ["Basil"])
  {
    assert before + "Basil" == before + "Basil" + "";
    ContainedInMiddle(before, "Basil", "");
    assert ["Basil"][0] == "Basil";
  }

  /** Ingredients starting with "Basil" contain the topping Basil. */
  lemma BasilAtStart(rec: OrderRecord, after: string)
    requires rec.ingredients == "Basil" + after
    ensures ToppingAccepted(rec, ["Basil"])
  {
    assert "Basil" + after == "" + "Basil" + after;
    ContainedInMiddle("", "Basil", after);
    assert ["Basil"][0] == "Basil";
  }

  /** "Cheese, Mushroom" has no "B", so it does not contain Basil. */
  lemma NoBasil(rec: OrderRecord)
    requires rec.ingredients == "Cheese, Mushroom"
    ensures !ToppingAccepted(rec, ["Basil"])
  {
    MissingCharNotContained("Cheese, Mushroom", "Basil", 0);
  }

  lemma KeepFirstOfTwo(rows: seq<OrderRecord>, p: OrderRecord -> bool)
    requires |rows| == 2 && p(rows[0]) && !p(rows[1])
    ensures Filter(rows, p) == [rows[0]]
  {
    assert rows[1..][1..] == [];
    assert Filter(rows[1..], p) == [];
  }

  lemma KeepFirstAndLast(rows: seq<OrderRecord>, p: OrderRecord -> bool)
    requires |rows| == 3 && p(rows[0]) && !p(rows[1]) && p(rows[2])
    ensures Filter(rows, p) == [rows[0], rows[2]]
  {
    assert rows[1..][1..][1..] == [];
    assert Filter(rows[1..][1..], p) == [rows[2]];
    assert Filter(rows[1..], p) == [rows[2]];
  }

  /** Three rows (M, 9.5, "Cheese, Basil"), (L, 12.0, "Cheese, Pepperoni")
      and (M, 15.0, "Basil, Mushroom") filtered by size M, price [9, 16]
      and topping Basil leave the first and the third. */
  lemma EndToEndExample(r1: OrderRecord, r2: OrderRecord, r3: OrderRecord, c: Criteria)
    requires r1.size == "M" && r1.price == 9.5 && r1.ingredients == "Cheese, Basil"
    requires r2.size == "L" && r2.price == 12.0 && r2.ingredients == "Cheese, Pepperoni"
    requires r3.size == "M" && r3.price == 15.0 && r3.ingredients == "Basil, Mushroom"
    requires c == Criteria(["M"], 9.0, 16.0, ["Basil"])
    ensures ApplyFilters([r1, r2, r3], c) == [r1, r3]
  {
    BasilAtEnd(r1, "Cheese, ");
    BasilAtStart(r3, ", Mushroom");
    assert "L" != "M";
    KeepFirstAndLast([r1, r2, r3], ByCriteria(c));
  }
}
