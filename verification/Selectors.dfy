/**
 The aggregates that select a sample (tsdb/functions.go): `min`, `max`, `first`
 and `last`, mapped over shards and reduced.
 */
module Selectors {
  import opened Values
  import opened Aggregates
  import opened Sequences

  datatype Pick = Min | Max | First | Last

  /**
   Which of two samples is selected: the extreme value, and then the earliest time;
   or the extreme time, and then the greatest value.
   */
  predicate Beats(pick: Pick, a: Sample, b: Sample) {
    var x, y := Number(a.value), Number(b.value);
    match pick
    case Min => x < y || (x == y && a.time < b.time)
    case Max => x > y || (x == y && a.time < b.time)
    case First => a.time < b.time || (a.time == b.time && x > y)
    case Last => a.time > b.time || (a.time == b.time && x > y)
  }

  ghost predicate IsBest(pick: Pick, s: seq<Sample>, p: Sample) {
    p in s && forall x :: x in s ==> !Beats(pick, x, p)
  }

  /** What each selection means: the extreme value at its earliest time, or the extreme time with its greatest value. */
  lemma SelectionMeans(s: seq<Sample>, p: Sample)
    requires p in s
    ensures IsBest(Min, s, p) <==> forall x :: x in s ==>
              Number(p.value) <= Number(x.value) && (Number(x.value) == Number(p.value) ==> p.time <= x.time)
    ensures IsBest(Max, s, p) <==> forall x :: x in s ==>
              Number(p.value) >= Number(x.value) && (Number(x.value) == Number(p.value) ==> p.time <= x.time)
    ensures IsBest(First, s, p) <==> forall x :: x in s ==>
              p.time <= x.time && (x.time == p.time ==> Number(p.value) >= Number(x.value))
    ensures IsBest(Last, s, p) <==> forall x :: x in s ==>
              p.time >= x.time && (x.time == p.time ==> Number(p.value) >= Number(x.value))
  {
    hide Number;
  }

  /** Samples of a shard come in time order. */
  predicate Ordered(s: seq<Sample>) {
    forall i, j :: 0 <= i < j < |s| ==> s[i].time <= s[j].time
  }

  /** The selected sample depends on which samples there are, not on how they are spread. */
  lemma SelectionUnique(pick: Pick, isInt: bool, s: seq<Sample>, t: seq<Sample>, p: Sample, q: Sample)
    requires OfType(isInt, s) && (forall x :: x in s <==> x in t)
    requires IsBest(pick, s, p) && IsBest(pick, t, q)
    ensures p == q
  {
    assert !Beats(pick, p, q) && !Beats(pick, q, p);
  }

  lemma BestJoin(pick: Pick, a: seq<Sample>, b: seq<Sample>, p: Sample, q: Sample)
    requires IsBest(pick, a, p) && IsBest(pick, b, q)
    ensures IsBest(pick, a + b, if Beats(pick, q, p) then q else p)
  {
    var r := if Beats(pick, q, p) then q else p;
    forall x | x in a + b ensures !Beats(pick, x, r) {
      assert x in a || x in b;
      if x in a {
        assert !Beats(pick, x, p);
      } else {
        assert !Beats(pick, x, q);
      }
    }
  }

  lemma BestOne(pick: Pick, x: Sample)
    ensures IsBest(pick, [x], x)
  {
  }

  // ----- min and max -----

  datatype MinMaxOut = MinMaxOut(time: int, val: real, isInt: bool)

  /** Position `k` holds the first of the extreme values. */
  ghost predicate FirstExtreme(pick: Pick, s: seq<Sample>, k: nat) {
    && k < |s|
    && (forall j :: 0 <= j < |s| ==> if pick.Max? then Number(s[j].value) <= Number(s[k].value) else Number(s[j].value) >= Number(s[k].value))
    && forall j :: 0 <= j < k ==> Number(s[j].value) != Number(s[k].value)
  }

  lemma ExtremeIsBest(pick: Pick, s: seq<Sample>, k: nat)
    requires (pick.Min? || pick.Max?) && Ordered(s) && FirstExtreme(pick, s, k)
    ensures IsBest(pick, s, s[k])
  {
    forall x | x in s ensures !Beats(pick, x, s[k]) {
      var j :| 0 <= j < |s| && s[j] == x;
      assert k < j ==> s[k].time <= s[j].time;
    }
  }

  /** What `MapMin` and `MapMax` give for a shard in time order. */
  ghost predicate PartialExtreme(pick: Pick, isInt: bool, s: seq<Sample>, p: Option<MinMaxOut>) {
    if s == [] then p.None?
    else p.Some? && p.value.isInt == isInt && IsBest(pick, s, Sample(p.value.time, Typed(isInt, p.value.val)))
         && Number(Typed(isInt, p.value.val)) == p.value.val
  }

  lemma MapsToExtreme(pick: Pick, isInt: bool, s: seq<Sample>, k: nat)
    requires (pick.Min? || pick.Max?) && OfType(isInt, s) && Ordered(s) && FirstExtreme(pick, s, k)
    ensures PartialExtreme(pick, isInt, s, Some(MinMaxOut(s[k].time, Number(s[k].value), isInt)))
  {
    ExtremeIsBest(pick, s, k);
    assert s[k] in s;
    TypedNumber(isInt, s[k].value);
  }

  lemma FirstExtremeNext(pick: Pick, s: seq<Sample>, k: nat, x: Sample)
    requires (pick.Min? || pick.Max?) && FirstExtreme(pick, s, k)
    ensures var better := if pick.Min? then Number(x.value) < Number(s[k].value) else Number(x.value) > Number(s[k].value);
      FirstExtreme(pick, s + [x], if better then |s| else k)
  {
    hide Number;
  }

  method MapMin(items: seq<Sample>) returns (r: Option<MinMaxOut>)
    requires forall x :: x in items ==> Numeric(x.value)
    ensures forall isInt :: OfType(isInt, items) && Ordered(items) ==> PartialExtreme(Min, isInt, items, r)
  {
    var min, pointsYielded := MinMaxOut(0, 0.0, false), false;
    ghost var k := 0;
    for i := 0 to |items|
      invariant pointsYielded <==> i > 0
      invariant i > 0 ==> FirstExtreme(Min, items[..i], k) && min.time == items[k].time && min.val == Number(items[k].value)
      invariant min.isInt <==> exists x :: x in items[..i] && x.value.Int?
    {
      assert items[..i + 1] == items[..i] + [items[i]] && items[i] in items;
      var val := 0.0;
      match items[i].value {
        case Float(f) => val := f;
        case Int(n) =>
          val := n as real;
          min := min.(isInt := true);
        case _ =>
      }
      if !pointsYielded {
        min := min.(time := items[i].time, val := val);
        pointsYielded := true;
        k := i;
      } else {
        FirstExtremeNext(Min, items[..i], k, items[i]);
      }
      hide FirstExtreme;
      var current := min.val;
      min := min.(val := Lesser(min.val, val));
      if current != min.val {
        min := min.(time := items[i].time);
        k := i;
      }
    }
    assert items[..|items|] == items;
    if !pointsYielded {
      return None;
    }
    r := Some(min);
    forall isInt | OfType(isInt, items) && Ordered(items) ensures PartialExtreme(Min, isInt, items, r) {
      assert items[0] in items;
      MapsToExtreme(Min, isInt, items, k);
    }
  }

  method MapMax(items: seq<Sample>) returns (r: Option<MinMaxOut>)
    requires forall x :: x in items ==> Numeric(x.value)
    ensures forall isInt :: OfType(isInt, items) && Ordered(items) ==> PartialExtreme(Max, isInt, items, r)
  {
    var max, pointsYielded := MinMaxOut(0, 0.0, false), false;
    ghost var k := 0;
    for i := 0 to |items|
      invariant pointsYielded <==> i > 0
      invariant i > 0 ==> FirstExtreme(Max, items[..i], k) && max.time == items[k].time && max.val == Number(items[k].value)
      invariant max.isInt <==> exists x :: x in items[..i] && x.value.Int?
    {
      assert items[..i + 1] == items[..i] + [items[i]] && items[i] in items;
      var val := 0.0;
      match items[i].value {
        case Float(f) => val := f;
        case Int(n) =>
          val := n as real;
          max := max.(isInt := true);
        case _ =>
      }
      if !pointsYielded {
        max := max.(time := items[i].time, val := val);
        pointsYielded := true;
        k := i;
      } else {
        FirstExtremeNext(Max, items[..i], k, items[i]);
      }
      hide FirstExtreme;
      var current := max.val;
      max := max.(val := Greater(max.val, val));
      if current != max.val {
        max := max.(time := items[i].time);
        k := i;
      }
    }
    assert items[..|items|] == items;
    if !pointsYielded {
      return None;
    }
    r := Some(max);
    forall isInt | OfType(isInt, items) && Ordered(items) ensures PartialExtreme(Max, isInt, items, r) {
      assert items[0] in items;
      MapsToExtreme(Max, isInt, items, k);
    }
  }

  /** The partial answers of the shards, in order. */
  ghost predicate PartialExtremes(pick: Pick, isInt: bool, shards: seq<seq<Sample>>, values: seq<Option<MinMaxOut>>) {
    |values| == |shards| && forall k :: 0 <= k < |values| ==> PartialExtreme(pick, isInt, shards[k], values[k])
  }

  /** The selected sample of all the shards, or none if there are no samples. */
  ghost predicate Selects(pick: Pick, s: seq<Sample>, r: Option<Sample>) {
    if s == [] then r.None? else r.Some? && IsBest(pick, s, r.value)
  }

  lemma ExtremesJoin(pick: Pick, isInt: bool, a: seq<Sample>, p: Option<MinMaxOut>, b: seq<Sample>, q: MinMaxOut)
    requires PartialExtreme(pick, isInt, a, p) && b != [] && PartialExtreme(pick, isInt, b, Some(q))
    ensures PartialExtreme(pick, isInt, a + b,
              Some(if p.None? || Beats(pick, Sample(q.time, Float(q.val)), Sample(p.value.time, Float(p.value.val))) then q else p.value))
  {
    hide Typed;
    if a == [] {
      assert a + b == b;
    } else {
      BestJoin(pick, a, b, Sample(p.value.time, Typed(isInt, p.value.val)), Sample(q.time, Typed(isInt, q.val)));
    }
  }

  method ReduceMin(ghost isInt: bool, ghost shards: seq<seq<Sample>>, values: seq<Option<MinMaxOut>>) returns (r: Option<Sample>)
    requires PartialExtremes(Min, isInt, shards, values)
    ensures Selects(Min, Flatten(shards), r)
  {
    var curr: Option<MinMaxOut> := None;
    for i := 0 to |values|
      invariant PartialExtreme(Min, isInt, Flatten(shards[..i]), curr)
    {
      hide PartialExtreme;
      assert shards[..i + 1][..i] == shards[..i];
      if values[i].None? {
        NoneIsEmpty(Min, isInt, shards[i]);
        assert Flatten(shards[..i]) + [] == Flatten(shards[..i]);
        continue;
      }
      var v := values[i].value;
      SomeIsNot(Min, isInt, shards[i], v);
      ExtremesJoin(Min, isInt, Flatten(shards[..i]), curr, shards[i], v);
      if curr.None? || v.val < curr.value.val || (v.val == curr.value.val && v.time < curr.value.time) {
        curr := Some(v);
      }
    }
    assert shards[..|values|] == shards;
    if curr.None? {
      return None;
    }
    return Some(Sample(curr.value.time, Typed(curr.value.isInt, curr.value.val)));
  }

  method ReduceMax(ghost isInt: bool, ghost shards: seq<seq<Sample>>, values: seq<Option<MinMaxOut>>) returns (r: Option<Sample>)
    requires PartialExtremes(Max, isInt, shards, values)
    ensures Selects(Max, Flatten(shards), r)
  {
    var curr: Option<MinMaxOut> := None;
    for i := 0 to |values|
      invariant PartialExtreme(Max, isInt, Flatten(shards[..i]), curr)
    {
      hide PartialExtreme;
      assert shards[..i + 1][..i] == shards[..i];
      if values[i].None? {
        NoneIsEmpty(Max, isInt, shards[i]);
        assert Flatten(shards[..i]) + [] == Flatten(shards[..i]);
        continue;
      }
      var v := values[i].value;
      SomeIsNot(Max, isInt, shards[i], v);
      ExtremesJoin(Max, isInt, Flatten(shards[..i]), curr, shards[i], v);
      if curr.None? || v.val > curr.value.val || (v.val == curr.value.val && v.time < curr.value.time) {
        curr := Some(v);
      }
    }
    assert shards[..|values|] == shards;
    if curr.None? {
      return None;
    }
    return Some(Sample(curr.value.time, Typed(curr.value.isInt, curr.value.val)));
  }

  lemma NoneIsEmpty(pick: Pick, isInt: bool, s: seq<Sample>)
    requires PartialExtreme(pick, isInt, s, None)
    ensures s == []
  {
  }

  lemma SomeIsNot(pick: Pick, isInt: bool, s: seq<Sample>, v: MinMaxOut)
    requires PartialExtreme(pick, isInt, s, Some(v))
    ensures s != []
  {
  }

  /** `min` over shards in time order: the least value, at its earliest time. */
  method Minimum(ghost isInt: bool, shards: seq<seq<Sample>>) returns (r: Option<Sample>)
    requires OfType(isInt, Flatten(shards)) && forall k :: 0 <= k < |shards| ==> Ordered(shards[k])
    ensures Selects(Min, Flatten(shards), r)
  {
    EachOfType(isInt, shards);
    var partials: seq<Option<MinMaxOut>> := [];
    for i := 0 to |shards|
      invariant PartialExtremes(Min, isInt, shards[..i], partials)
    {
      hide PartialExtreme;
      var p := MapMin(shards[i]);
      partials := partials + [p];
    }
    assert shards[..|shards|] == shards;
    r := ReduceMin(isInt, shards, partials);
  }

  /** `max` over shards in time order: the greatest value, at its earliest time. */
  method Maximum(ghost isInt: bool, shards: seq<seq<Sample>>) returns (r: Option<Sample>)
    requires OfType(isInt, Flatten(shards)) && forall k :: 0 <= k < |shards| ==> Ordered(shards[k])
    ensures Selects(Max, Flatten(shards), r)
  {
    EachOfType(isInt, shards);
    var partials: seq<Option<MinMaxOut>> := [];
    for i := 0 to |shards|
      invariant PartialExtremes(Max, isInt, shards[..i], partials)
    {
      hide PartialExtreme;
      var p := MapMax(shards[i]);
      partials := partials + [p];
    }
    assert shards[..|shards|] == shards;
    r := ReduceMax(isInt, shards, partials);
  }

  // ----- first and last -----

  predicate IsType(isInt: bool, v: Value) {
    if isInt then v.Int? else v.Float?
  }

  /** `greaterThan`, which panics on values of different types. */
  predicate GreaterThan(a: Value, b: Value)
    requires (a.Int? && b.Int?) || (a.Float? && b.Float?)
  {
    Number(a) > Number(b)
  }

  method MapFirst(ghost isInt: bool, items: seq<Sample>) returns (r: Option<Sample>)
    requires OfType(isInt, items)
    ensures Ordered(items) ==> Selects(First, items, r)
  {
    if |items| == 0 {
      return None;
    }
    var k, v := items[0].time, items[0].value;
    var i := 1;
    assert items[0] in items;
    while i < |items| && items[i].time == k
      invariant 1 <= i <= |items|
      invariant Sample(k, v) in items[..i] && IsType(isInt, v)
      invariant forall j :: 0 <= j < i ==> items[j].time == k && Number(items[j].value) <= Number(v)
    {
      assert items[i] in items;
      if GreaterThan(items[i].value, v) {
        v := items[i].value;
      }
      i := i + 1;
    }
    if Ordered(items) {
      forall x | x in items ensures !Beats(First, x, Sample(k, v)) {
        var j :| 0 <= j < |items| && items[j] == x;
        assert j >= i ==> items[i].time <= items[j].time;
      }
    }
    return Some(Sample(k, v));
  }

  method MapLast(ghost isInt: bool, items: seq<Sample>) returns (r: Option<Sample>)
    requires OfType(isInt, items)
    ensures Selects(Last, items, r)
  {
    var out, pointsYielded := Sample(0, Nil), false;
    for i := 0 to |items|
      invariant pointsYielded <==> i > 0
      invariant pointsYielded ==> IsBest(Last, items[..i], out) && IsType(isInt, out.value)
    {
      var item := items[i];
      assert item in items;
      assert items[..i + 1] == items[..i] + [item];
      BestOne(Last, item);
      if !pointsYielded {
        out := item;
        pointsYielded := true;
        assert items[..i + 1] == [item];
      } else {
        BestJoin(Last, items[..i], [item], out, item);
      }
      if item.time > out.time {
        out := item;
      } else if item.time == out.time && GreaterThan(item.value, out.value) {
        out := out.(value := item.value);
      }
    }
    assert items[..|items|] == items;
    return if pointsYielded then Some(out) else None;
  }

  ghost predicate PartialSelections(pick: Pick, shards: seq<seq<Sample>>, values: seq<Option<Sample>>) {
    |values| == |shards| && forall k :: 0 <= k < |values| ==> Selects(pick, shards[k], values[k])
  }

  lemma SelectionsJoin(pick: Pick, a: seq<Sample>, p: Option<Sample>, b: seq<Sample>, q: Option<Sample>)
    requires Selects(pick, a, p) && Selects(pick, b, q)
    ensures Selects(pick, a + b, if q.None? then p else if p.None? || Beats(pick, q.value, p.value) then q else p)
  {
    if a == [] {
      assert a + b == b;
    } else if b == [] {
      assert a + b == a;
    } else {
      BestJoin(pick, a, b, p.value, q.value);
    }
  }

  method ReduceFirst(ghost isInt: bool, ghost shards: seq<seq<Sample>>, values: seq<Option<Sample>>) returns (r: Option<Sample>)
    requires PartialSelections(First, shards, values)
    requires forall k :: 0 <= k < |values| && values[k].Some? ==> IsType(isInt, values[k].value.value)
    ensures Selects(First, Flatten(shards), r)
  {
    r := None;
    for i := 0 to |values|
      invariant Selects(First, Flatten(shards[..i]), r) && (r.Some? ==> IsType(isInt, r.value.value))
    {
      hide Selects;
      assert shards[..i + 1][..i] == shards[..i];
      SelectionsJoin(First, Flatten(shards[..i]), r, shards[i], values[i]);
      if values[i].None? {
        continue;
      }
      var val := values[i].value;
      if r.None? {
        r := Some(val);
      }
      if val.time < r.value.time {
        r := Some(val);
      } else if val.time == r.value.time && GreaterThan(val.value, r.value.value) {
        r := Some(r.value.(value := val.value));
      }
    }
    assert shards[..|values|] == shards;
  }

  method ReduceLast(ghost isInt: bool, ghost shards: seq<seq<Sample>>, values: seq<Option<Sample>>) returns (r: Option<Sample>)
    requires PartialSelections(Last, shards, values)
    requires forall k :: 0 <= k < |values| && values[k].Some? ==> IsType(isInt, values[k].value.value)
    ensures Selects(Last, Flatten(shards), r)
  {
    r := None;
    for i := 0 to |values|
      invariant Selects(Last, Flatten(shards[..i]), r) && (r.Some? ==> IsType(isInt, r.value.value))
    {
      hide Selects;
      assert shards[..i + 1][..i] == shards[..i];
      SelectionsJoin(Last, Flatten(shards[..i]), r, shards[i], values[i]);
      if values[i].None? {
        continue;
      }
      var val := values[i].value;
      if r.None? {
        r := Some(val);
      }
      if val.time > r.value.time {
        r := Some(val);
      } else if val.time == r.value.time && GreaterThan(val.value, r.value.value) {
        r := Some(r.value.(value := val.value));
      }
    }
    assert shards[..|values|] == shards;
  }

  /** `first` over shards in time order: the earliest time, with its greatest value. */
  method FirstOf(ghost isInt: bool, shards: seq<seq<Sample>>) returns (r: Option<Sample>)
    requires OfType(isInt, Flatten(shards)) && forall k :: 0 <= k < |shards| ==> Ordered(shards[k])
    ensures Selects(First, Flatten(shards), r)
  {
    EachOfType(isInt, shards);
    var partials: seq<Option<Sample>> := [];
    for i := 0 to |shards|
      invariant PartialSelections(First, shards[..i], partials)
      invariant forall k :: 0 <= k < i && partials[k].Some? ==> IsType(isInt, partials[k].value.value)
    {
      var p := MapFirst(isInt, shards[i]);
      partials := partials + [p];
    }
    assert shards[..|shards|] == shards;
    r := ReduceFirst(isInt, shards, partials);
  }

  /** `last` over shards: the latest time, with its greatest value. */
  method LastOf(ghost isInt: bool, shards: seq<seq<Sample>>) returns (r: Option<Sample>)
    requires OfType(isInt, Flatten(shards))
    ensures Selects(Last, Flatten(shards), r)
  {
    EachOfType(isInt, shards);
    var partials: seq<Option<Sample>> := [];
    for i := 0 to |shards|
      invariant PartialSelections(Last, shards[..i], partials)
      invariant forall k :: 0 <= k < i && partials[k].Some? ==> IsType(isInt, partials[k].value.value)
    {
      var p := MapLast(isInt, shards[i]);
      partials := partials + [p];
    }
    assert shards[..|shards|] == shards;
    r := ReduceLast(isInt, shards, partials);
  }
}
