/** Python's ordering of `str` values and `sorted()` over a list of them. */
module Ordering {
  import opened Seqs

  /** Python's `a < b` on strings: lexicographic by code point, where a
      proper prefix is smaller than the longer string. */
  predicate Less(a: string, b: string)
    decreases |a|
  {
    if |b| == 0 then false
    else if |a| == 0 then true
    else if a[0] != b[0] then a[0] < b[0]
    else Less(a[1..], b[1..])
  }

  predicate LessEq(a: string, b: string)
  {
    a == b || Less(a, b)
  }

  lemma {:induction false} LessIrreflexive(a: string)
    ensures !Less(a, a)
    decreases |a|
  {
    if |a| > 0 {
      LessIrreflexive(a[1..]);
    }
  }

  lemma {:induction false} LessAsymmetric(a: string, b: string)
    requires Less(a, b)
    ensures !Less(b, a)
    decreases |a|
  {
    if |a| > 0 && a[0] == b[0] {
      LessAsymmetric(a[1..], b[1..]);
    }
  }

  lemma {:induction false} LessTransitive(a: string, b: string, c: string)
    requires Less(a, b) && Less(b, c)
    ensures Less(a, c)
    decreases |a|
  {
    if |a| > 0 && a[0] == b[0] && b[0] == c[0] {
      LessTransitive(a[1..], b[1..], c[1..]);
    }
  }

  /** Any two different strings are ordered one way or the other. */
  lemma {:induction false} LessTotal(a: string, b: string)
    ensures a == b || Less(a, b) || Less(b, a)
    decreases |a|
  {
    if |a| > 0 && |b| > 0 && a[0] == b[0] {
      LessTotal(a[1..], b[1..]);
      assert a == [a[0]] + a[1..] && b == [b[0]] + b[1..];
    }
  }

  lemma LessEqTransitive(a: string, b: string, c: string)
    requires LessEq(a, b) && LessEq(b, c)
    ensures LessEq(a, c)
  {
    if a != b && b != c {
      LessTransitive(a, b, c);
    }
  }

  /** Ascending order, ties allowed. */
  ghost predicate Sorted(v: seq<string>)
  {
    forall i, j :: 0 <= i < j < |v| ==> LessEq(v[i], v[j])
  }

  /** Ascending order without ties: sorted and free of duplicates. */
  ghost predicate StrictlyAscending(v: seq<string>)
  {
    forall i, j :: 0 <= i < j < |v| ==> Less(v[i], v[j])
  }

  /** Inserting `x` into a sorted list keeps it sorted and adds exactly
      one `x`. */
  function Insert(v: seq<string>, x: string): (r: seq<string>)
    requires Sorted(v)
    ensures Sorted(r)
    ensures multiset(r) == multiset(v) + multiset{x}
    ensures Distinct(v) && x !in v ==> Distinct(r)
    decreases |v|
  {
    if v == [] then [x]
    else if LessEq(x, v[0]) then
      InsertFront(v, x);
      [x] + v
    else
      var rest := Insert(v[1..], x);
      InsertBehind(v, x, rest);
      [v[0]] + rest
  }

  lemma InsertFront(v: seq<string>, x: string)
    requires Sorted(v) && v != [] && LessEq(x, v[0])
    ensures Sorted([x] + v)
    ensures multiset([x] + v) == multiset(v) + multiset{x}
    ensures Distinct(v) && x !in v ==> Distinct([x] + v)
  {
    forall j | 0 <= j < |v|
      ensures LessEq(x, v[j])
    {
      LessEqTransitive(x, v[0], v[j]);
    }
  }

  lemma InsertBehind(v: seq<string>, x: string, rest: seq<string>)
    requires Sorted(v) && v != [] && !LessEq(x, v[0])
    requires Sorted(rest) && multiset(rest) == multiset(v[1..]) + multiset{x}
    requires Distinct(v) && x !in v ==> Distinct(rest)
    ensures Sorted([v[0]] + rest)
    ensures multiset([v[0]] + rest) == multiset(v) + multiset{x}
    ensures Distinct(v) && x !in v ==> Distinct([v[0]] + rest)
  {
    LessTotal(x, v[0]);
    assert v == [v[0]] + v[1..];
    forall j | 0 <= j < |rest|
      ensures LessEq(v[0], rest[j]) && (x !in v ==> rest[j] != v[0] || !Distinct(v))
    {
      assert rest[j] in multiset(rest);
      assert rest[j] == x || rest[j] in v[1..];
    }
  }

  /** Python's `sorted()`: an ascending permutation of the input. */
  function Sort(xs: seq<string>): (r: seq<string>)
    ensures Sorted(r)
    ensures multiset(r) == multiset(xs)
    ensures Distinct(xs) ==> Distinct(r)
    decreases |xs|
  {
    if xs == [] then []
    else
      assert xs == [xs[0]] + xs[1..];
      var rest := Sort(xs[1..]);
      assert Distinct(xs) ==> xs[0] !in multiset(xs[1..]);
      Insert(rest, xs[0])
  }

  /** A sorted list without duplicates is strictly ascending. */
  lemma SortedDistinctAscending(v: seq<string>)
    requires Sorted(v) && Distinct(v)
    ensures StrictlyAscending(v)
  {
  }

  /** A strictly ascending list is determined by its elements: two with the
      same elements are equal. */
  lemma {:induction false} AscendingUnique(a: seq<string>, b: seq<string>)
    requires StrictlyAscending(a) && StrictlyAscending(b)
    requires forall x :: x in a <==> x in b
    ensures a == b
    decreases |a|
  {
    if a != [] {
      assert a[0] in b;
    }
    if b != [] {
      assert b[0] in a;
    }
    if a != [] && b != [] {
      var m :| 0 <= m < |b| && b[m] == a[0];
      var k :| 0 <= k < |a| && a[k] == b[0];
      if m > 0 && k > 0 {
        LessAsymmetric(b[0], a[0]);
      }
      assert a[0] == b[0];
      assert a == [a[0]] + a[1..] && b == [b[0]] + b[1..];
      LessIrreflexive(a[0]);
      forall x
        ensures x in a[1..] <==> x in b[1..]
      {
        if x in a[1..] {
          var i :| 0 <= i < |a[1..]| && a[1..][i] == x;
          assert Less(a[0], a[i + 1]);
          assert x in b && x != b[0];
          assert x in [b[0]] + b[1..];
        }
        if x in b[1..] {
          var i :| 0 <= i < |b[1..]| && b[1..][i] == x;
          assert Less(b[0], b[i + 1]);
          assert x in a && x != a[0];
          assert x in [a[0]] + a[1..];
        }
      }
      AscendingUnique(a[1..], b[1..]);
      assert a == [a[0]] + a[1..] && b == [b[0]] + b[1..];
    }
  }
}
