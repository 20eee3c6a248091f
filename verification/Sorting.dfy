/**
 Sorting of numeric samples, standing for Go's `sort.Float64s`: a sorted
 rearrangement, which is unique, so nothing depends on the algorithm used.
 */
module Sorting {
  import Sequences

  ghost predicate Ascending(s: seq<real>) {
    forall i, j :: 0 <= i < j < |s| ==> s[i] <= s[j]
  }

  function Insert(s: seq<real>, x: real): (r: seq<real>)
    ensures multiset(r) == multiset(s) + multiset{x}
  {
    if s == [] then [x]
    else if x <= s[0] then [x] + s
    else
      assert s == [s[0]] + s[1..];
      [s[0]] + Insert(s[1..], x)
  }

  lemma {:induction false} InsertAscending(s: seq<real>, x: real)
    requires Ascending(s)
    ensures Ascending(Insert(s, x))
  {
    if s != [] && s[0] < x {
      var rest := Insert(s[1..], x);
      InsertAscending(s[1..], x);
      forall i | 0 <= i < |rest| ensures s[0] <= rest[i] {
        assert rest[i] in multiset(rest);
        assert rest[i] == x || rest[i] in s[1..];
      }
      ConsAscending(s[0], rest);
    }
  }

  lemma ConsAscending(x: real, s: seq<real>)
    requires Ascending(s) && (s == [] || x <= s[0])
    ensures Ascending([x] + s)
  {
  }

  lemma HeadIsLeast(s: seq<real>, x: real)
    requires Ascending(s) && x in multiset(s)
    ensures s != [] && s[0] <= x
  {
    assert x in s;
  }

  lemma SameHead(a: seq<real>, b: seq<real>)
    requires Ascending(a) && Ascending(b) && multiset(a) == multiset(b) && a != []
    ensures b != [] && a[0] == b[0]
  {
    hide Ascending;
    assert a[0] in multiset(a) && a[0] in b;
    assert b[0] in multiset(b);
    HeadIsLeast(a, b[0]);
    HeadIsLeast(b, a[0]);
  }

  lemma TailAscending(s: seq<real>)
    requires Ascending(s) && s != []
    ensures Ascending(s[1..])
  {
  }

  /** An ascending sequence is determined by its multiset of elements. */
  lemma {:induction false} SortedUnique(a: seq<real>, b: seq<real>)
    requires Ascending(a) && Ascending(b)
    requires multiset(a) == multiset(b)
    ensures a == b
  {
    hide Ascending;
    if a != [] {
      SameHead(a, b);
      TailAscending(a);
      TailAscending(b);
      SameTail(a, b);
      SortedUnique(a[1..], b[1..]);
      SameWhole(a, b);
    } else if b != [] {
      SameHead(b, a);
    }
  }

  lemma SameTail(a: seq<real>, b: seq<real>)
    requires a != [] && b != [] && a[0] == b[0] && multiset(a) == multiset(b)
    ensures multiset(a[1..]) == multiset(b[1..])
  {
    Sequences.CutBoth(a, b, 0);
    assert b[..0] + b[1..] == b[1..];
  }

  lemma SameWhole(a: seq<real>, b: seq<real>)
    requires a != [] && b != [] && a[0] == b[0] && a[1..] == b[1..]
    ensures a == b
  {
    assert a == [a[0]] + a[1..] && b == [b[0]] + b[1..];
  }

  ghost predicate IsSortOf(r: seq<real>, s: seq<real>) {
    Ascending(r) && multiset(r) == multiset(s)
  }

  /** `sort.Float64s`. */
  method SortFloat64s(s: seq<real>) returns (r: seq<real>)
    ensures r == Sorted(s)
  {
    r := Sequences.Sort(s, (a, b) => a < b);
    SortedUnique(r, Sorted(s));
  }

  lemma {:induction false} SortExists(s: seq<real>) returns (r: seq<real>)
    ensures IsSortOf(r, s)
  {
    if s == [] {
      r := [];
    } else {
      var t := SortExists(s[1..]);
      InsertAscending(t, s[0]);
      assert s == [s[0]] + s[1..];
      r := Insert(t, s[0]);
    }
  }

  /** The sorted rearrangement of a sequence. */
  ghost function Sorted(s: seq<real>): (r: seq<real>)
    ensures IsSortOf(r, s) && |r| == |s|
  {
    var r := SortOf(s);
    assert |r| == |multiset(r)| == |multiset(s)| == |s|;
    r
  }

  ghost function SortOf(s: seq<real>): (r: seq<real>)
    ensures IsSortOf(r, s)
  {
    assert exists r :: IsSortOf(r, s) by { var r := SortExists(s); }
    var r :| IsSortOf(r, s);
    r
  }

  /** Sorting a low part and a high part separately sorts the whole. */
  lemma SortSplit(whole: seq<real>, low: seq<real>, high: seq<real>)
    requires multiset(whole) == multiset(low) + multiset(high)
    requires forall x, y :: x in multiset(low) && y in multiset(high) ==> x <= y
    ensures Sorted(whole) == Sorted(low) + Sorted(high)
  {
    var l, h := Sorted(low), Sorted(high);
    forall i, j | 0 <= i < j < |l + h| ensures (l + h)[i] <= (l + h)[j] {
      if i < |l| <= j {
        assert l[i] in multiset(l) && h[j - |l|] in multiset(h);
      }
    }
    SortedUnique(Sorted(whole), l + h);
  }
}
