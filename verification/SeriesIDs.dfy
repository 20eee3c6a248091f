/** Sorted lists of series ids and their set operations (tsdb/meta.go, `SeriesIDs`). */
module SeriesIDs {
  import opened Sequences

  ghost predicate Ascending(s: seq<nat>) {
    forall i, j :: 0 <= i < j < |s| ==> s[i] < s[j]
  }

  /** Every element of `s` is at least `x`. */
  ghost predicate From(s: seq<nat>, x: int) {
    forall y :: y in s ==> x <= y
  }

  lemma AscendingTail(s: seq<nat>)
    requires Ascending(s) && s != []
    ensures Ascending(s[1..]) && From(s[1..], s[0] + 1) && From(s, s[0])
    ensures forall y :: y in s <==> y == s[0] || y in s[1..]
  {
    assert s == [s[0]] + s[1..];
  }

  lemma ConsAscending(x: nat, s: seq<nat>)
    requires Ascending(s) && From(s, x + 1)
    ensures Ascending([x] + s)
  {
    forall j | 0 <= j < |s| ensures x < s[j] {
      assert s[j] in s;
    }
  }

  lemma SnocAscending(s: seq<nat>, x: nat)
    requires Ascending(s) && forall y :: y in s ==> y < x
    ensures Ascending(s + [x])
  {
    forall j | 0 <= j < |s| ensures s[j] < x {
      assert s[j] in s;
    }
  }

  /** An ascending list is determined by its members. */
  lemma {:induction false} AscendingUnique(a: seq<nat>, b: seq<nat>)
    requires Ascending(a) && Ascending(b)
    requires forall x :: x in a <==> x in b
    ensures a == b
  {
    if b != [] {
      assert b[0] in a;
    }
    if a != [] {
      assert a[0] in b;
      AscendingTail(a);
      AscendingTail(b);
      assert a[0] == b[0];
      AscendingUnique(a[1..], b[1..]);
    }
  }

  lemma Step(s: seq<nat>, i: nat)
    requires i < |s|
    ensures s[i..] != [] && s[i..][0] == s[i] && s[i..][1..] == s[i + 1..]
  {
  }

  lemma Shift(out: seq<nat>, x: nat, rest: seq<nat>)
    ensures out + ([x] + rest) == out + [x] + rest
  {
  }

  // ----- Intersection -----

  function Meet(a: seq<nat>, b: seq<nat>): seq<nat>
    decreases |a| + |b|
  {
    if a == [] || b == [] then []
    else if a[0] == b[0] then [a[0]] + Meet(a[1..], b[1..])
    else if a[0] < b[0] then Meet(a[1..], b)
    else Meet(a, b[1..])
  }

  lemma {:induction false} MeetSymmetric(a: seq<nat>, b: seq<nat>)
    ensures Meet(a, b) == Meet(b, a)
    decreases |a| + |b|
  {
    if a != [] && b != [] {
      if a[0] == b[0] {
        MeetSymmetric(a[1..], b[1..]);
      } else if a[0] < b[0] {
        MeetSymmetric(a[1..], b);
      } else {
        MeetSymmetric(a, b[1..]);
      }
    }
  }

  lemma {:induction false} MeetExact(a: seq<nat>, b: seq<nat>)
    requires Ascending(a) && Ascending(b)
    ensures Ascending(Meet(a, b))
    ensures forall x :: x in Meet(a, b) <==> x in a && x in b
    decreases |a| + |b|
  {
    if a != [] && b != [] {
      AscendingTail(a);
      AscendingTail(b);
      if a[0] == b[0] {
        MeetExact(a[1..], b[1..]);
        ConsAscending(a[0], Meet(a[1..], b[1..]));
      } else if a[0] < b[0] {
        MeetExact(a[1..], b);
      } else {
        MeetExact(a, b[1..]);
      }
    }
  }

  /** `Intersect`: walks the shorter list first. */
  method Intersect(a: seq<nat>, b: seq<nat>) returns (ids: seq<nat>)
    ensures ids == Meet(a, b)
  {
    var l, r := a, b;
    if |b| < |a| {
      l, r := b, a;
    }
    MeetSymmetric(a, b);
    var i, j := 0, 0;
    ids := [];
    assert l[0..] == l && r[0..] == r;
    while i < |l| && j < |r|
      invariant 0 <= i <= |l| && 0 <= j <= |r|
      invariant ids + Meet(l[i..], r[j..]) == Meet(a, b)
      decreases |l| - i + |r| - j
    {
      Step(l, i);
      Step(r, j);
      Shift(ids, l[i], Meet(l[i + 1..], r[j + 1..]));
      if l[i] == r[j] {
        ids := ids + [l[i]];
        i, j := i + 1, j + 1;
      } else if l[i] < r[j] {
        i := i + 1;
      } else {
        j := j + 1;
      }
    }
  }

  // ----- Union -----

  function Join(a: seq<nat>, b: seq<nat>): seq<nat>
    decreases |a| + |b|
  {
    if a == [] then b
    else if b == [] then a
    else if a[0] == b[0] then [a[0]] + Join(a[1..], b[1..])
    else if a[0] < b[0] then [a[0]] + Join(a[1..], b)
    else [b[0]] + Join(a, b[1..])
  }

  lemma {:induction false} JoinExact(a: seq<nat>, b: seq<nat>)
    requires Ascending(a) && Ascending(b)
    ensures Ascending(Join(a, b))
    ensures forall x :: x in Join(a, b) <==> x in a || x in b
    decreases |a| + |b|
  {
    if a != [] && b != [] {
      AscendingTail(a);
      AscendingTail(b);
      if a[0] == b[0] {
        JoinExact(a[1..], b[1..]);
        ConsAscending(a[0], Join(a[1..], b[1..]));
      } else if a[0] < b[0] {
        JoinExact(a[1..], b);
        ConsAscending(a[0], Join(a[1..], b));
      } else {
        JoinExact(a, b[1..]);
        ConsAscending(b[0], Join(a, b[1..]));
      }
    }
  }

  /** `Union`: merges, then appends what one side has left. */
  method Union(a: seq<nat>, b: seq<nat>) returns (ids: seq<nat>)
    ensures ids == Join(a, b)
  {
    var i, j := 0, 0;
    ids := [];
    assert a[0..] == a && b[0..] == b;
    while i < |a| && j < |b|
      invariant 0 <= i <= |a| && 0 <= j <= |b|
      invariant ids + Join(a[i..], b[j..]) == Join(a, b)
      decreases |a| - i + |b| - j
    {
      Step(a, i);
      Step(b, j);
      if a[i] == b[j] {
        Shift(ids, a[i], Join(a[i + 1..], b[j + 1..]));
        ids := ids + [a[i]];
        i, j := i + 1, j + 1;
      } else if a[i] < b[j] {
        Shift(ids, a[i], Join(a[i + 1..], b[j..]));
        ids := ids + [a[i]];
        i := i + 1;
      } else {
        Shift(ids, b[j], Join(a[i..], b[j + 1..]));
        ids := ids + [b[j]];
        j := j + 1;
      }
    }
    if i < |a| {
      ids := ids + a[i..];
    } else if j < |b| {
      ids := ids + b[j..];
    }
  }

  // ----- Difference -----

  function Minus(a: seq<nat>, b: seq<nat>): seq<nat>
    decreases |a| + |b|
  {
    if a == [] || b == [] then a
    else if a[0] == b[0] then Minus(a[1..], b[1..])
    else if a[0] < b[0] then [a[0]] + Minus(a[1..], b)
    else Minus(a, b[1..])
  }

  lemma {:induction false} MinusExact(a: seq<nat>, b: seq<nat>)
    requires Ascending(a) && Ascending(b)
    ensures Ascending(Minus(a, b))
    ensures forall x :: x in Minus(a, b) <==> x in a && x !in b
    decreases |a| + |b|
  {
    if a != [] && b != [] {
      AscendingTail(a);
      AscendingTail(b);
      if a[0] == b[0] {
        MinusExact(a[1..], b[1..]);
      } else if a[0] < b[0] {
        MinusExact(a[1..], b);
        ConsAscending(a[0], Minus(a[1..], b));
      } else {
        MinusExact(a, b[1..]);
      }
    }
  }

  /** `Reject`. */
  method Reject(a: seq<nat>, b: seq<nat>) returns (ids: seq<nat>)
    ensures ids == Minus(a, b)
  {
    var i, j := 0, 0;
    ids := [];
    assert a[0..] == a && b[0..] == b;
    while i < |a| && j < |b|
      invariant 0 <= i <= |a| && 0 <= j <= |b|
      invariant ids + Minus(a[i..], b[j..]) == Minus(a, b)
      decreases |a| - i + |b| - j
    {
      Step(a, i);
      Step(b, j);
      if a[i] == b[j] {
        i, j := i + 1, j + 1;
      } else if a[i] < b[j] {
        Shift(ids, a[i], Minus(a[i + 1..], b[j..]));
        ids := ids + [a[i]];
        i := i + 1;
      } else {
        j := j + 1;
      }
    }
    if i < |a| {
      ids := ids + a[i..];
    }
  }

  // ----- Dropping one id -----

  lemma {:induction false} WithoutExact(s: seq<nat>, id: nat)
    requires Ascending(s)
    ensures Ascending(Without(s, id))
    ensures forall x :: x in Without(s, id) <==> x in s && x != id
  {
    if s != [] {
      var n := |s| - 1;
      WithoutExact(s[..n], id);
      assert s == s[..n] + [s[n]];
      forall i | 0 <= i < |Without(s[..n], id)| ensures Without(s[..n], id)[i] < s[n] {
        assert Without(s[..n], id)[i] in s[..n];
      }
    }
  }

  /** The filtering loop of `DropSeries`. */
  method Filter(s: seq<nat>, id: nat) returns (ids: seq<nat>)
    ensures ids == Without(s, id)
  {
    ids := [];
    for i := 0 to |s|
      invariant ids == Without(s[..i], id)
    {
      assert s[..i + 1][..i] == s[..i];
      if s[i] != id {
        ids := ids + [s[i]];
      }
    }
    assert s[..|s|] == s;
  }
}
