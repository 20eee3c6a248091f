/** Sequences in general: regrouping, repeated elements, and `sort.Sort` by its contract. */
module Sequences {
  lemma Assoc<T>(a: seq<T>, b: seq<T>, c: seq<T>)
    ensures a + (b + c) == (a + b) + c
  {
  }

  lemma Regroup<T>(a: seq<T>, b: seq<T>, c: seq<T>, d: seq<T>, e: seq<T>)
    ensures (a + b) + c + (d + e) == a + (b + (c + d + e))
    ensures (a + b) + c + (d + e) == a + (b + c + d) + e
    ensures a + b + (c + d) == a + b + c + d
  {
  }

  /** All elements but those equal to `x`. */
  function Without<T(==)>(s: seq<T>, x: T): seq<T> {
    if s == [] then [] else Without(s[..|s| - 1], x) + (if s[|s| - 1] == x then [] else [s[|s| - 1]])
  }

  /** One element taken out. */
  lemma Cut<T>(s: seq<T>, k: nat)
    requires k < |s|
    ensures s == s[..k] + ([s[k]] + s[k + 1..])
    ensures multiset(s[..k] + s[k + 1..]) == multiset(s) - multiset{s[k]}
  {
    assert s == s[..k] + [s[k]] + s[k + 1..];
  }

  /** The first element taken out of one list, and its like out of a rearranged one. */
  lemma CutBoth<T>(a: seq<T>, b: seq<T>, i: nat)
    requires multiset(a) == multiset(b) && a != [] && i < |b| && b[i] == a[0]
    ensures a[..0] + a[1..] == a[1..] && multiset(a[1..]) == multiset(b[..i] + b[i + 1..])
  {
    Cut(a, 0);
    Cut(b, i);
    assert a[..0] + a[1..] == a[1..];
  }

  function Flatten<T>(ss: seq<seq<T>>): seq<T> {
    if ss == [] then [] else Flatten(ss[..|ss| - 1]) + ss[|ss| - 1]
  }

  predicate Distinct<T(==)>(s: seq<T>) {
    forall i, j :: 0 <= i < j < |s| ==> s[i] != s[j]
  }

  lemma TwoPlaces<T>(s: seq<T>, x: T) returns (m: nat, n: nat)
    requires multiset(s)[x] >= 2
    ensures m < n < |s| && s[m] == x && s[n] == x
  {
    m :| 0 <= m < |s| && s[m] == x;
    var rest := s[..m] + s[m + 1..];
    Cut(s, m);
    assert multiset(rest)[x] >= 1;
    var k :| 0 <= k < |rest| && rest[k] == x;
    if k < m {
      m, n := k, m;
    } else {
      n := k + 1;
    }
  }

  lemma TwiceIn<T>(s: seq<T>, m: nat, n: nat)
    requires m < n < |s| && s[m] == s[n]
    ensures multiset(s)[s[m]] >= 2
  {
    assert s == s[..n] + [s[n]] + s[n + 1..];
    assert s[m] in s[..n];
  }

  /** Elements that differ in one order differ in any. */
  lemma DistinctPermuted<T>(a: seq<T>, b: seq<T>)
    requires Distinct(a) && multiset(b) == multiset(a)
    ensures Distinct(b)
  {
    forall i, j | 0 <= i < j < |b| ensures b[i] != b[j] {
      if b[i] == b[j] {
        TwiceIn(b, i, j);
        var m, n := TwoPlaces(a, b[i]);
      }
    }
  }

  lemma SameElements<T>(a: seq<T>, b: seq<T>)
    requires multiset(a) == multiset(b)
    ensures forall x :: x in a <==> x in b
  {
    forall x ensures x in a <==> x in b {
      assert x in a <==> x in multiset(a);
      assert x in b <==> x in multiset(b);
    }
  }

  // ----- Sorting -----

  /** A `Less` to sort by: never both ways, and not being less carries over. */
  ghost predicate StrictOrder<T(!new)>(less: (T, T) -> bool) {
    && (forall x, y :: less(x, y) ==> !less(y, x))
    && forall x, y, z :: !less(y, x) && !less(z, y) ==> !less(z, x)
  }

  ghost predicate InOrder<T(!new)>(s: seq<T>, less: (T, T) -> bool) {
    forall i, j :: 0 <= i < j < |s| ==> !less(s[j], s[i])
  }

  lemma InsertedInOrder<T(!new)>(s: seq<T>, k: nat, x: T, less: (T, T) -> bool)
    requires StrictOrder(less) && InOrder(s, less) && k <= |s|
    requires (k > 0 ==> !less(x, s[k - 1])) && forall i :: k <= i < |s| ==> less(x, s[i])
    ensures InOrder(s[..k] + [x] + s[k..], less)
  {
    var r := s[..k] + [x] + s[k..];
    forall i, j | 0 <= i < j < |r| ensures !less(r[j], r[i]) {
      if j == k && i < k - 1 {
        assert !less(s[k - 1], s[i]);
      }
    }
  }

  /** `sort.Sort`: some rearrangement in order. Nothing else is relied on. */
  method Sort<T(!new)>(s: seq<T>, less: (T, T) -> bool) returns (r: seq<T>)
    requires StrictOrder(less)
    ensures InOrder(r, less) && multiset(r) == multiset(s)
  {
    r := [];
    for i := 0 to |s|
      invariant InOrder(r, less) && multiset(r) == multiset(s[..i])
    {
      var k := |r|;
      while k > 0 && less(s[i], r[k - 1])
        invariant 0 <= k <= |r| && forall j :: k <= j < |r| ==> less(s[i], r[j])
      {
        k := k - 1;
      }
      InsertedInOrder(r, k, s[i], less);
      Inserted(r, k, s[i]);
      assert s[..i + 1] == s[..i] + [s[i]];
      r := r[..k] + [s[i]] + r[k..];
    }
    assert s[..|s|] == s;
  }

  lemma Inserted<T>(s: seq<T>, k: nat, x: T)
    requires k <= |s|
    ensures multiset(s[..k] + [x] + s[k..]) == multiset(s) + multiset{x}
  {
    assert s == s[..k] + s[k..];
  }
}
