/** The topping vocabulary offered by the topping selector: every
    `pizza_ingredients` string is split on ", ", the pieces of all rows are
    flattened (`explode`), de-duplicated (`unique`) and sorted. */
module Toppings {
  import opened Seqs
  import opened Text
  import opened Ordering
  import opened Dataset

  /** The literal delimiter of the ingredients column. */
  const Delimiter: string := ", "

  /** `t` is one of the pieces of the row's ingredients string. */
  predicate IsPieceOf(t: string, rec: OrderRecord)
  {
    t in Split(rec.ingredients, Delimiter)
  }

  /** `df['pizza_ingredients'].str.split(', ').explode()`: the pieces of
      every row, row after row. */
  function Pieces(rows: seq<OrderRecord>): (r: seq<string>)
    ensures forall t :: t in r <==> exists k :: 0 <= k < |rows| && IsPieceOf(t, rows[k])
    decreases |rows|
  {
    if rows == [] then []
    else
      var rest := Pieces(rows[1..]);
      assert forall k :: 1 <= k < |rows| ==> rows[k] == rows[1..][k - 1];
      Split(rows[0].ingredients, Delimiter) + rest
  }

  /** `sorted(all_ingredients.unique())`: strictly ascending, hence sorted
      and duplicate-free, and holding exactly the pieces of the rows. */
  function Vocabulary(rows: seq<OrderRecord>): (r: seq<string>)
    ensures StrictlyAscending(r)
    ensures forall t :: t in r <==> exists k :: 0 <= k < |rows| && IsPieceOf(t, rows[k])
  {
    var u := Unique(Pieces(rows));
    var v := Sort(u);
    SortedDistinctAscending(v);
    SameElements(u, v);
    v
  }

  lemma SameElements(u: seq<string>, v: seq<string>)
    requires multiset(u) == multiset(v)
    ensures forall t :: t in u <==> t in v
  {
    forall t
      ensures t in u <==> t in v
    {
      assert t in u <==> t in multiset(u);
      assert t in v <==> t in multiset(v);
    }
  }

  /** The vocabulary is the only strictly ascending list of the rows'
      pieces, so any correct sort of any de-duplication gives it. */
  lemma VocabularyDetermined(rows: seq<OrderRecord>, v: seq<string>)
    requires StrictlyAscending(v)
    requires forall t :: t in v <==> exists k :: 0 <= k < |rows| && IsPieceOf(t, rows[k])
    ensures v == Vocabulary(rows)
  {
    AscendingUnique(v, Vocabulary(rows));
  }

  /** Every vocabulary entry is a substring of the ingredients of a row it
      came from. */
  lemma VocabularyEntryOccurs(rows: seq<OrderRecord>, t: string)
    requires t in Vocabulary(rows)
    ensures exists k :: 0 <= k < |rows| && IsPieceOf(t, rows[k]) && Contains(rows[k].ingredients, t)
  {
    var k :| 0 <= k < |rows| && IsPieceOf(t, rows[k]);
    assert Contains(rows[k].ingredients, t);
  }

  /** The ", " delimiter cannot overlap itself, so splitting on it undoes
      joining with it. */
  lemma DelimiterUnbordered()
    ensures Unbordered(Delimiter)
  {
    assert Delimiter[1..] == " " && Delimiter[..1] == ",";
  }

  /** Splitting a literal whose pieces contain no comma. */
  lemma SplitTwo(a: string, b: string)
    requires ',' !in a && ',' !in b
    ensures Split(a + Delimiter + b, Delimiter) == [a, b]
  {
    DelimiterUnbordered();
    MissingCharNotContained(a, Delimiter, 0);
    MissingCharNotContained(b, Delimiter, 0);
    SplitJoin([a, b], Delimiter);
  }

  /** The pieces of two rows are those of the first followed by those of
      the second. */
  lemma PiecesOfTwo(first: OrderRecord, second: OrderRecord)
    ensures Pieces([first, second]) == Split(first.ingredients, Delimiter) + Split(second.ingredients, Delimiter)
  {
    assert [first, second][1..] == [second];
    assert [second][1..] == [];
    assert Pieces([second]) == Split(second.ingredients, Delimiter) + [];
  }

  /** The pieces of two rows whose ingredients split as "Cheese, Basil"
      and "Basil, Mushroom" do. */
  lemma ExamplePieces(first: OrderRecord, second: OrderRecord)
    requires Split(first.ingredients, Delimiter) == ["Cheese", "Basil"]
    requires Split(second.ingredients, Delimiter) == ["Basil", "Mushroom"]
    ensures Pieces([first, second]) == ["Cheese", "Basil", "Basil", "Mushroom"]
  {
    PiecesOfTwo(first, second);
  }

  /** Each example row's ingredients split into its two names. */
  lemma SplitCheeseBasil(rec: OrderRecord)
    requires rec.ingredients == "Cheese, Basil"
    ensures Split(rec.ingredients, Delimiter) == ["Cheese", "Basil"]
  {
    assert "Cheese, Basil" == "Cheese" + Delimiter + "Basil";
    SplitTwo("Cheese", "Basil");
  }

  lemma SplitBasilMushroom(rec: OrderRecord)
    requires rec.ingredients == "Basil, Mushroom"
    ensures Split(rec.ingredients, Delimiter) == ["Basil", "Mushroom"]
  {
    assert "Basil, Mushroom" == "Basil" + Delimiter + "Mushroom";
    SplitTwo("Basil", "Mushroom");
  }

  /** Rows with ingredients "Cheese, Basil" and "Basil, Mushroom" give the
      vocabulary ["Basil", "Cheese", "Mushroom"], whatever their other
      columns hold. */
  lemma VocabularyExample(first: OrderRecord, second: OrderRecord)
    requires first.ingredients == "Cheese, Basil"
    requires second.ingredients == "Basil, Mushroom"
    ensures Vocabulary([first, second]) == ["Basil", "Cheese", "Mushroom"]
  {
    var v := ["Basil", "Cheese", "Mushroom"];
    assert StrictlyAscending(v) by {
      assert Less("Basil", "Cheese") && Less("Cheese", "Mushroom") && Less("Basil", "Mushroom");
    }
    SplitCheeseBasil(first);
    SplitBasilMushroom(second);
    ExamplePieces(first, second);
    var u := Unique(Pieces([first, second]));
    var w := Sort(u);
    SameElements(u, w);
    assert Vocabulary([first, second]) == w;
    assert forall t :: t in w <==> t in v;
    AscendingUnique(v, w);
  }
}
