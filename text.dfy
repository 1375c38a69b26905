/** The Python string operations the dashboard relies on: the substring
    test `t in s` and `str.split(sep)` with an explicit separator. `Find` is
    the leftmost-occurrence search that the split performs, and `Join`
    (`sep.join`) is there to state that splitting undoes joining. */
module Text {

  datatype Option<T> = None | Some(value: T)

  /** `t` occurs in `s` starting at index `i`. */
  predicate OccursAt(s: string, t: string, i: nat)
  {
    i + |t| <= |s| && s[i..i + |t|] == t
  }

  /** Python's `t in s` for strings: `t` is a substring of `s`. The empty
      string is a substring of every string. */
  predicate Contains(s: string, t: string)
  {
    exists i: nat :: i <= |s| && OccursAt(s, t, i)
  }

  /** Occurrences in `s[1..]` are the occurrences in `s` shifted by one. */
  lemma OccursShift(s: string, t: string)
    requires |s| > 0
    ensures forall j: nat :: 1 <= j ==> (OccursAt(s, t, j) <==> OccursAt(s[1..], t, j - 1))
  {
    forall j: nat | 1 <= j
      ensures OccursAt(s, t, j) <==> OccursAt(s[1..], t, j - 1)
    {
      if j + |t| <= |s| {
        var u, v := s[j..j + |t|], s[1..][j - 1..j - 1 + |t|];
        assert |u| == |v|;
        assert forall k :: 0 <= k < |u| ==> u[k] == v[k];
        assert u == v;
      }
    }
  }

  /** The index of the first occurrence of `t` in `s`, or `None` when
      there is none (the search `str.split` makes for its separator). */
  function Find(s: string, t: string): (r: Option<nat>)
    ensures r.None? <==> !Contains(s, t)
    ensures r.Some? ==> OccursAt(s, t, r.value) && forall j: nat :: j < r.value ==> !OccursAt(s, t, j)
    decreases |s|
  {
    if |s| < |t| then None
    else if s[..|t|] == t then
      assert OccursAt(s, t, 0);
      Some(0)
    else
      assert !OccursAt(s, t, 0);
      OccursShift(s, t);
      match Find(s[1..], t)
      case None => None
      case Some(i) =>
        assert OccursAt(s, t, i + 1);
        Some(i + 1)
  }

  /** `sep.join(ps)`: the pieces with `sep` between consecutive ones. */
  function Join(ps: seq<string>, sep: string): string
    decreases |ps|
  {
    if |ps| == 0 then ""
    else if |ps| == 1 then ps[0]
    else ps[0] + sep + Join(ps[1..], sep)
  }

  /** The text before the first occurrence of `t` does not contain `t`. */
  lemma PrefixBeforeFirstIsFree(s: string, t: string, i: nat)
    requires |t| > 0 && i <= |s|
    requires forall j: nat :: j < i ==> !OccursAt(s, t, j)
    ensures !Contains(s[..i], t)
  {
    forall j: nat | j <= i
      ensures !OccursAt(s[..i], t, j)
    {
      if j + |t| <= i {
        assert s[..i][j..j + |t|] == s[j..j + |t|];
        assert !OccursAt(s, t, j);
      }
    }
  }

  /** A substring of a suffix of `s` is a substring of `s`. */
  lemma SuffixPiecesContained(s: string, m: nat, ps: seq<string>)
    requires m <= |s|
    requires forall p :: p in ps ==> Contains(s[m..], p)
    ensures forall p :: p in ps ==> Contains(s, p)
  {
    forall p | p in ps
      ensures Contains(s, p)
    {
      var j: nat :| j <= |s[m..]| && OccursAt(s[m..], p, j);
      assert s[m..][j..j + |p|] == s[m + j..m + j + |p|];
      assert OccursAt(s, p, m + j);
    }
  }

  /** Python's `s.split(sep)` with an explicit, non-empty separator (an
      empty one raises `ValueError`): the text is cut at each occurrence of
      `sep`, scanning left to right. The pieces joined with `sep` give `s`
      back, no piece contains `sep`, and each piece is a substring of `s`. */
  function Split(s: string, sep: string): (r: seq<string>)
    requires |sep| > 0
    ensures |r| >= 1
    ensures Join(r, sep) == s
    ensures forall p :: p in r ==> !Contains(p, sep)
    ensures forall p :: p in r ==> Contains(s, p)
    decreases |s|
  {
    match Find(s, sep)
    case None =>
      assert OccursAt(s, s, 0);
      [s]
    case Some(i) =>
      var rest := Split(s[i + |sep|..], sep);
      CutAtFirst(s, sep, i, rest);
      [s[..i]] + rest
  }

  /** Cutting `s` at the first occurrence of `sep`, at `i`, and appending
      the pieces of the remainder gives pieces with the properties `Split`
      promises. */
  lemma CutAtFirst(s: string, sep: string, i: nat, rest: seq<string>)
    requires |sep| > 0 && OccursAt(s, sep, i)
    requires forall j: nat :: j < i ==> !OccursAt(s, sep, j)
    requires |rest| >= 1 && Join(rest, sep) == s[i + |sep|..]
    requires forall p :: p in rest ==> !Contains(p, sep)
    requires forall p :: p in rest ==> Contains(s[i + |sep|..], p)
    ensures Join([s[..i]] + rest, sep) == s
    ensures forall p :: p in [s[..i]] + rest ==> !Contains(p, sep)
    ensures forall p :: p in [s[..i]] + rest ==> Contains(s, p)
  {
    CutJoin(s, sep, i, rest);
    PrefixBeforeFirstIsFree(s, sep, i);
    SuffixPiecesContained(s, i + |sep|, rest);
    assert OccursAt(s, s[..i], 0);
  }

  /** The text before an occurrence of `sep`, `sep`, and the text after it
      make up `s`. */
  lemma CutJoin(s: string, sep: string, i: nat, rest: seq<string>)
    requires OccursAt(s, sep, i)
    requires |rest| >= 1 && Join(rest, sep) == s[i + |sep|..]
    ensures Join([s[..i]] + rest, sep) == s
  {
    JoinCons(s[..i], rest, sep);
    CutAround(s, sep, i);
  }

  lemma CutAround(s: string, sep: string, i: nat)
    requires OccursAt(s, sep, i)
    ensures s == s[..i] + sep + s[i + |sep|..]
  {
    assert s[i..] == sep + s[i + |sep|..] by {
      assert s[i..][..|sep|] == s[i..i + |sep|] == sep;
      assert s[i..][|sep|..] == s[i + |sep|..];
      assert s[i..] == s[i..][..|sep|] + s[i..][|sep|..];
    }
    assert s == s[..i] + s[i..];
  }

  lemma JoinCons(p: string, rest: seq<string>, sep: string)
    requires |rest| >= 1
    ensures Join([p] + rest, sep) == p + sep + Join(rest, sep)
  {
    assert ([p] + rest)[0] == p && ([p] + rest)[1..] == rest;
  }

  /** Where `sep` first occurs at `i`, `Split` cuts there. */
  lemma SplitAtFirst(s: string, sep: string, i: nat)
    requires |sep| > 0 && OccursAt(s, sep, i)
    requires forall j: nat :: j < i ==> !OccursAt(s, sep, j)
    ensures Split(s, sep) == [s[..i]] + Split(s[i + |sep|..], sep)
  {
    var f := Find(s, sep);
    assert f.Some?;
    assert f.value == i;
  }

  /** `sep` overlaps no shifted copy of itself: no proper non-empty suffix
      equals the prefix of the same length. */
  ghost predicate Unbordered(sep: string)
  {
    forall k :: 0 < k < |sep| ==> sep[k..] != sep[..|sep| - k]
  }

  /** In `p + sep + rest` with `p` free of an unbordered `sep`, the first
      occurrence of `sep` is the one right after `p`. */
  lemma NoEarlyOccurrence(p: string, sep: string, rest: string)
    requires Unbordered(sep) && !Contains(p, sep)
    ensures forall j: nat :: j < |p| ==> !OccursAt(p + sep + rest, sep, j)
  {
    var s := p + sep + rest;
    forall j: nat | j < |p|
      ensures !OccursAt(s, sep, j)
    {
      if j + |sep| <= |p| {
        assert s[j..j + |sep|] == p[j..j + |sep|];
        assert !OccursAt(p, sep, j);
      } else if j + |sep| <= |s| {
        var k := |p| - j;
        assert 0 < k < |sep|;
        assert s[j..j + |sep|][k..] == sep[..|sep| - k] by {
          assert s[j..j + |sep|][k..] == s[|p|..|p| + |sep| - k];
          assert s[|p|..|p| + |sep|] == sep;
        }
        assert sep[k..] != sep[..|sep| - k];
      }
    }
  }

  /** Splitting undoes joining: pieces that do not contain an unbordered
      separator come back unchanged. */
  lemma {:induction false} SplitJoin(ps: seq<string>, sep: string)
    requires |sep| > 0 && Unbordered(sep) && |ps| >= 1
    requires forall p :: p in ps ==> !Contains(p, sep)
    ensures Split(Join(ps, sep), sep) == ps
    decreases |ps|
  {
    if |ps| == 1 {
      assert !Contains(ps[0], sep);
    } else {
      var p, rest := ps[0], Join(ps[1..], sep);
      var s := p + sep + rest;
      assert Join(ps, sep) == s;
      assert !Contains(p, sep);
      NoEarlyOccurrence(p, sep, rest);
      assert OccursAt(s, sep, |p|) by {
        assert s[|p|..|p| + |sep|] == sep;
      }
      SplitAtFirst(s, sep, |p|);
      assert s[..|p|] == p && s[|p| + |sep|..] == rest;
      SplitJoin(ps[1..], sep);
      assert ps == [p] + ps[1..];
    }
  }

  /** A string one of whose characters is missing from `s` is not a
      substring of `s`. */
  lemma MissingCharNotContained(s: string, t: string, k: nat)
    requires k < |t| && t[k] !in s
    ensures !Contains(s, t)
  {
    forall i: nat | i + |t| <= |s|
      ensures !OccursAt(s, t, i)
    {
      assert s[i..i + |t|][k] == s[i + k];
    }
  }

  /** `t` is a substring of any text it stands in the middle of. */
  lemma ContainedInMiddle(p: string, t: string, q: string)
    ensures Contains(p + t + q, t)
  {
    assert (p + t + q)[|p|..|p| + |t|] == t;
    assert OccursAt(p + t + q, t, |p|);
  }
}
