/**
 Aggregates as map and reduce (tsdb/functions.go): each shard's samples are mapped
 to a partial answer, and the partial answers are reduced to one. Arithmetic is
 exact. A sample has a numeric value, and the values of one field are all floats
 or all integers.
 */
module Aggregates {
  import opened Values
  import R = Reduce
  import opened Sequences

  datatype Sample = Sample(time: int, value: Value)

  predicate Numeric(v: Value) {
    v.Float? || v.Int?
  }

  function Number(v: Value): real {
    if v.Float? then v.f else if v.Int? then v.i as real else 0.0
  }

  /** A number as the field's type has it: integers are converted back. */
  function Typed(isInt: bool, r: real): Value {
    if isInt then Int(R.Trunc(r)) else Float(r)
  }

  /** The samples of one field: all integers or all floats. */
  predicate OfType(isInt: bool, s: seq<Sample>) {
    forall x :: x in s ==> if isInt then x.value.Int? else x.value.Float?
  }

  lemma TypedNumber(isInt: bool, v: Value)
    requires if isInt then v.Int? else v.Float?
    ensures Typed(isInt, Number(v)) == v
  {
  }

  // ----- count, sum and mean -----

  function Total(s: seq<Sample>): real {
    if s == [] then 0.0 else Total(s[..|s| - 1]) + Number(s[|s| - 1].value)
  }

  lemma {:induction false} TotalSplit(a: seq<Sample>, b: seq<Sample>)
    ensures Total(a + b) == Total(a) + Total(b)
  {
    if b == [] {
      assert a + b == a;
    } else {
      var n := |b| - 1;
      assert (a + b)[..|a + b| - 1] == a + b[..n];
      TotalSplit(a, b[..n]);
    }
  }

  /** The total of one sample is its number; so the total of any is the sum of their numbers. */
  lemma TotalOne(x: Sample)
    ensures Total([x]) == Number(x.value)
    ensures x.value.Float? ==> Number(x.value) == x.value.f
    ensures x.value.Int? ==> Number(x.value) == x.value.i as real
  {
  }

  /** The total of integers is an integer. */
  lemma {:induction false} WholeTotal(s: seq<Sample>) returns (n: int)
    requires OfType(true, s)
    ensures Total(s) == n as real
  {
    if s == [] {
      n := 0;
    } else {
      var k := |s| - 1;
      n := WholeTotal(s[..k]);
      assert s[k] in s;
      n := n + s[k].value.i;
    }
  }

  method MapCount(items: seq<Sample>) returns (r: Value)
    ensures r == Float(|items| as real)
  {
    var n := 0.0;
    for i := 0 to |items|
      invariant n == i as real
    {
      n := n + 1.0;
    }
    return Float(n);
  }

  method MapSum(items: seq<Sample>) returns (r: Value)
    ensures items == [] <==> r.Nil?
    ensures forall isInt :: items != [] && OfType(isInt, items) ==> r == Typed(isInt, Total(items))
  {
    if |items| == 0 {
      return Nil;
    }
    var n, anyInt := 0.0, false;
    for i := 0 to |items|
      invariant (forall x :: x in items[..i] ==> Numeric(x.value)) ==> n == Total(items[..i])
      invariant anyInt <==> exists x :: x in items[..i] && x.value.Int?
    {
      assert items[..i + 1] == items[..i] + [items[i]];
      match items[i].value
      case Float(f) => n := n + f;
      case Int(k) =>
        n := n + k as real;
        anyInt := true;
      case _ =>
    }
    assert items[..|items|] == items;
    assert items[0] in items;
    return Typed(anyInt, n);
  }

  /** The total of the partial sums that are there. */
  function PartialTotal(vs: seq<Value>): real {
    if vs == [] then 0.0 else PartialTotal(vs[..|vs| - 1]) + Number(vs[|vs| - 1])
  }

  predicate ValuesOfType(isInt: bool, vs: seq<Value>) {
    forall v :: v in vs && !v.Nil? ==> if isInt then v.Int? else v.Float?
  }

  method ReduceSum(values: seq<Value>) returns (r: Value)
    ensures (forall v :: v in values ==> v.Nil?) <==> r.Nil?
    ensures forall isInt :: !r.Nil? && ValuesOfType(isInt, values) ==> r == Typed(isInt, PartialTotal(values))
  {
    var n, count, anyInt := 0.0, 0, false;
    for i := 0 to |values|
      invariant count > 0 <==> exists v :: v in values[..i] && !v.Nil?
      invariant (forall v :: v in values[..i] ==> Numeric(v) || v.Nil?) ==> n == PartialTotal(values[..i])
      invariant anyInt <==> exists v :: v in values[..i] && v.Int?
    {
      assert values[..i + 1] == values[..i] + [values[i]];
      if values[i].Nil? {
        continue;
      }
      count := count + 1;
      match values[i]
      case Float(f) => n := n + f;
      case Int(k) =>
        n := n + k as real;
        anyInt := true;
      case _ =>
    }
    assert values[..|values|] == values;
    if count > 0 {
      return Typed(anyInt, n);
    }
    return Nil;
  }

  /** Each partial sum is the sum of its shard. */
  ghost predicate Partials(isInt: bool, shards: seq<seq<Sample>>, partials: seq<Value>) {
    && |partials| == |shards|
    && forall i :: 0 <= i < |shards| ==> partials[i] == if shards[i] == [] then Nil else Typed(isInt, Total(shards[i]))
  }

  lemma {:induction false} PartialsAddUp(isInt: bool, shards: seq<seq<Sample>>, partials: seq<Value>)
    requires OfType(isInt, Flatten(shards)) && Partials(isInt, shards, partials)
    ensures PartialTotal(partials) == Total(Flatten(shards))
    ensures ValuesOfType(isInt, partials)
    ensures (forall v :: v in partials ==> v.Nil?) <==> Flatten(shards) == []
  {
    hide Typed;
    if shards != [] {
      var n := |shards| - 1;
      FlattenLast(shards);
      PartialsAddUp(isInt, shards[..n], partials[..n]);
      TotalSplit(Flatten(shards[..n]), shards[n]);
      PartialIsTotal(isInt, shards[n]);
      PartialsLast(isInt, shards, partials);
    }
  }

  lemma PartialsLast(isInt: bool, shards: seq<seq<Sample>>, partials: seq<Value>)
    requires Partials(isInt, shards, partials) && shards != []
    ensures var n := |shards| - 1;
      && (partials[n].Nil? <==> shards[n] == [])
      && (partials[n].Nil? || if isInt then partials[n].Int? else partials[n].Float?)
      && forall v :: v in partials <==> v in partials[..n] || v == partials[n]
  {
    hide R.Trunc, Total;
    assert partials == partials[..|partials| - 1] + [partials[|partials| - 1]];
  }

  lemma FlattenLast(shards: seq<seq<Sample>>)
    requires shards != []
    ensures forall x :: x in Flatten(shards[..|shards| - 1]) ==> x in Flatten(shards)
    ensures forall x :: x in shards[|shards| - 1] ==> x in Flatten(shards)
  {
  }

  lemma PartialIsTotal(isInt: bool, s: seq<Sample>)
    requires OfType(isInt, s)
    ensures Number(Typed(isInt, Total(s))) == Total(s)
  {
    hide R.Trunc, Total;
    if isInt {
      var n := WholeTotal(s);
      TruncWhole(n);
    }
  }

  lemma TruncWhole(n: int)
    ensures R.Trunc(n as real) == n
  {
  }

  /** `sum` over shards: the total of all samples, whatever shards they are in. */
  method Sum(shards: seq<seq<Sample>>) returns (r: Value)
    ensures forall isInt :: OfType(isInt, Flatten(shards)) ==>
              r == if Flatten(shards) == [] then Nil else Typed(isInt, Total(Flatten(shards)))
  {
    var partials := [];
    for i := 0 to |shards|
      invariant |partials| == i
      invariant forall isInt, k :: 0 <= k < i && OfType(isInt, shards[k]) ==>
                  partials[k] == if shards[k] == [] then Nil else Typed(isInt, Total(shards[k]))
    {
      hide Typed, Total;
      var p := MapSum(shards[i]);
      partials := partials + [p];
    }
    r := ReduceSum(partials);
    forall isInt | OfType(isInt, Flatten(shards))
      ensures r == if Flatten(shards) == [] then Nil else Typed(isInt, Total(Flatten(shards)))
    {
      EachOfType(isInt, shards);
      PartialsAddUp(isInt, shards, partials);
    }
  }

  lemma {:induction false} EachOfType(isInt: bool, shards: seq<seq<Sample>>)
    requires OfType(isInt, Flatten(shards))
    ensures forall k :: 0 <= k < |shards| ==> OfType(isInt, shards[k])
  {
    if shards != [] {
      FlattenLast(shards);
      EachOfType(isInt, shards[..|shards| - 1]);
    }
  }

  /** `count` over shards: how many samples there are in all. */
  method Count(shards: seq<seq<Sample>>) returns (r: Value)
    ensures shards != [] ==> r == Float(|Flatten(shards)| as real)
  {
    var partials := [];
    for i := 0 to |shards|
      invariant |partials| == i && forall k :: 0 <= k < i ==> partials[k] == Float(|shards[k]| as real)
    {
      var p := MapCount(shards[i]);
      partials := partials + [p];
    }
    r := ReduceSum(partials);
    CountsAddUp(shards, partials);
    if shards != [] {
      assert partials[0] in partials;
    }
  }

  lemma {:induction false} CountsAddUp(shards: seq<seq<Sample>>, partials: seq<Value>)
    requires |partials| == |shards| && forall k :: 0 <= k < |shards| ==> partials[k] == Float(|shards[k]| as real)
    ensures PartialTotal(partials) == |Flatten(shards)| as real && ValuesOfType(false, partials)
  {
    if shards != [] {
      var n := |shards| - 1;
      CountsAddUp(shards[..n], partials[..n]);
    }
  }

  datatype MeanOut = MeanOut(count: nat, total: real)

  method MapMean(items: seq<Sample>) returns (r: Option<MeanOut>)
    requires forall x :: x in items ==> Numeric(x.value)
    ensures items == [] <==> r.None?
    ensures r.Some? ==> r.value == MeanOut(|items|, Total(items))
  {
    if |items| == 0 {
      return None;
    }
    var count, total := 0, 0.0;
    for i := 0 to |items|
      invariant count == i && total == Total(items[..i])
    {
      assert items[..i + 1] == items[..i] + [items[i]];
      assert items[i] in items;
      count := count + 1;
      match items[i].value
      case Float(f) => total := total + f;
      case Int(k) => total := total + k as real;
      case _ =>
    }
    assert items[..|items|] == items;
    return Some(MeanOut(count, total));
  }

  /** `mean` over shards: the total over the count of all samples. */
  method Mean(shards: seq<seq<Sample>>) returns (r: Option<real>)
    requires forall x :: x in Flatten(shards) ==> Numeric(x.value)
    ensures r == if Flatten(shards) == [] then None else Some(Total(Flatten(shards)) / |Flatten(shards)| as real)
  {
    var partials: seq<Option<MeanOut>> := [];
    for i := 0 to |shards|
      invariant |partials| == i && forall k :: 0 <= k < i ==> PartialMean(shards[k], partials[k])
    {
      InShard(shards, i);
      var p := MapMean(shards[i]);
      partials := partials + [p];
    }
    r := ReduceMean(shards, partials);
  }

  ghost predicate PartialMean(s: seq<Sample>, p: Option<MeanOut>) {
    p == if s == [] then None else Some(MeanOut(|s|, Total(s)))
  }

  method ReduceMean(ghost shards: seq<seq<Sample>>, values: seq<Option<MeanOut>>) returns (r: Option<real>)
    requires |values| == |shards| && forall k :: 0 <= k < |values| ==> PartialMean(shards[k], values[k])
    ensures r == if Flatten(shards) == [] then None else Some(Total(Flatten(shards)) / |Flatten(shards)| as real)
  {
    var total, count := 0.0, 0;
    for i := 0 to |values|
      invariant total == Total(Flatten(shards[..i])) && count == |Flatten(shards[..i])|
    {
      assert shards[..i + 1][..i] == shards[..i];
      TotalSplit(Flatten(shards[..i]), shards[i]);
      if values[i].Some? {
        count := count + values[i].value.count;
        total := total + values[i].value.total;
      }
    }
    assert shards[..|values|] == shards;
    if count == 0 {
      return None;
    }
    return Some(total / count as real);
  }

  lemma {:induction false} InShard(shards: seq<seq<Sample>>, i: nat)
    requires i < |shards|
    ensures forall x :: x in shards[i] ==> x in Flatten(shards)
  {
    if i < |shards| - 1 {
      InShard(shards[..|shards| - 1], i);
      FlattenLast(shards);
    }
  }

  // ----- spread -----

  datatype SpreadOut = SpreadOut(min: real, max: real, isInt: bool)

  /** The least and the greatest number among the samples. */
  ghost predicate Ranges(s: seq<Sample>, min: real, max: real) {
    && (exists x :: x in s && Number(x.value) == min)
    && (exists x :: x in s && Number(x.value) == max)
    && forall x :: x in s ==> min <= Number(x.value) <= max
  }

  function Lesser(a: real, b: real): real {
    if b < a then b else a
  }

  function Greater(a: real, b: real): real {
    if b > a then b else a
  }

  lemma RangesJoin(a: seq<Sample>, b: seq<Sample>, min: real, max: real, min': real, max': real)
    requires Ranges(a, min, max) && Ranges(b, min', max')
    ensures Ranges(a + b, Lesser(min, min'), Greater(max, max'))
  {
    var lo :| lo in a && Number(lo.value) == min;
    var lo' :| lo' in b && Number(lo'.value) == min';
    var hi :| hi in a && Number(hi.value) == max;
    var hi' :| hi' in b && Number(hi'.value) == max';
    assert lo in a + b && lo' in a + b && hi in a + b && hi' in a + b;
  }

  lemma RangesOne(x: Sample)
    ensures Ranges([x], Number(x.value), Number(x.value))
  {
    assert x in [x];
  }

  method MapSpread(items: seq<Sample>) returns (r: Option<SpreadOut>)
    requires forall x :: x in items ==> Numeric(x.value)
    ensures items == [] <==> r.None?
    ensures r.Some? ==> Ranges(items, r.value.min, r.value.max)
    ensures r.Some? ==> forall isInt :: OfType(isInt, items) ==> r.value.isInt == isInt
  {
    var out, pointsYielded := SpreadOut(0.0, 0.0, false), false;
    for i := 0 to |items|
      invariant pointsYielded <==> i > 0
      invariant pointsYielded ==> Ranges(items[..i], out.min, out.max)
      invariant out.isInt <==> exists x :: x in items[..i] && x.value.Int?
    {
      hide Ranges;
      assert items[..i + 1] == items[..i] + [items[i]];
      var val := 0.0;
      match items[i].value {
        case Float(f) => val := f;
        case Int(k) =>
          val := k as real;
          out := out.(isInt := true);
        case _ =>
      }
      RangesOne(items[i]);
      if !pointsYielded {
        out := out.(max := val, min := val);
        pointsYielded := true;
        assert items[..i + 1] == [items[i]];
      } else {
        RangesJoin(items[..i], [items[i]], out.min, out.max, val, val);
      }
      out := out.(max := Greater(out.max, val), min := Lesser(out.min, val));
    }
    assert items[..|items|] == items;
    if pointsYielded {
      assert items[0] in items;
      return Some(out);
    }
    return None;
  }

  ghost predicate PartialSpread(isInt: bool, s: seq<Sample>, p: Option<SpreadOut>) {
    if s == [] then p.None? else p.Some? && Ranges(s, p.value.min, p.value.max) && p.value.isInt == isInt
  }

  method ReduceSpread(ghost isInt: bool, ghost shards: seq<seq<Sample>>, values: seq<Option<SpreadOut>>) returns (r: Value)
    requires |values| == |shards| && forall k :: 0 <= k < |values| ==> PartialSpread(isInt, shards[k], values[k])
    ensures Flatten(shards) == [] ==> r.Nil?
    ensures Flatten(shards) != [] ==> exists min, max :: Ranges(Flatten(shards), min, max) && r == Typed(isInt, max - min)
  {
    var result, pointsYielded := SpreadOut(0.0, 0.0, false), false;
    for i := 0 to |values|
      invariant pointsYielded <==> Flatten(shards[..i]) != []
      invariant pointsYielded ==> Ranges(Flatten(shards[..i]), result.min, result.max) && result.isInt == isInt
    {
      hide Ranges;
      assert shards[..i + 1][..i] == shards[..i];
      if values[i].None? {
        continue;
      }
      var val := values[i].value;
      if !pointsYielded {
        result := val;
        pointsYielded := true;
        assert [] + shards[i] == shards[i];
      } else {
        RangesJoin(Flatten(shards[..i]), shards[i], result.min, result.max, val.min, val.max);
      }
      result := result.(max := Greater(result.max, val.max), min := Lesser(result.min, val.min));
    }
    assert shards[..|values|] == shards;
    if pointsYielded {
      return Typed(result.isInt, result.max - result.min);
    }
    return Nil;
  }

  /** `spread` over shards: the greatest less the least of all samples. */
  method Spread(ghost isInt: bool, shards: seq<seq<Sample>>) returns (r: Value)
    requires OfType(isInt, Flatten(shards))
    ensures Flatten(shards) == [] ==> r.Nil?
    ensures Flatten(shards) != [] ==> exists min, max :: Ranges(Flatten(shards), min, max) && r == Typed(isInt, max - min)
  {
    EachOfType(isInt, shards);
    var partials: seq<Option<SpreadOut>> := [];
    for i := 0 to |shards|
      invariant |partials| == i && forall k :: 0 <= k < i ==> PartialSpread(isInt, shards[k], partials[k])
    {
      hide Ranges;
      var p := MapSpread(shards[i]);
      partials := partials + [p];
    }
    r := ReduceSpread(isInt, shards, partials);
  }

  // ----- However the samples are spread over shards, the answers are the same -----

  lemma TotalWithout(s: seq<Sample>, k: nat)
    requires k < |s|
    ensures Total(s) == Total(s[..k] + s[k + 1..]) + Total([s[k]])
  {
    hide Total;
    Cut(s, k);
    TotalSplit(s[..k], [s[k]] + s[k + 1..]);
    TotalSplit(s[..k], s[k + 1..]);
    TotalSplit([s[k]], s[k + 1..]);
  }

  lemma {:induction false} TotalPermuted(a: seq<Sample>, b: seq<Sample>)
    requires multiset(a) == multiset(b)
    ensures |a| == |b| && Total(a) == Total(b)
    decreases |a|
  {
    hide Total;
    assert |multiset(a)| == |a| && |multiset(b)| == |b|;
    if a == [] {
      assert a == b;
    } else {
      assert a[0] in multiset(b);
      var k :| 0 <= k < |b| && b[k] == a[0];
      TotalWithout(a, 0);
      TotalWithout(b, k);
      Cut(a, 0);
      Cut(b, k);
      assert a[..0] + a[1..] == a[1..];
      TotalPermuted(a[1..], b[..k] + b[k + 1..]);
    }
  }

  lemma RangesUnique(a: seq<Sample>, b: seq<Sample>, min: real, max: real, min': real, max': real)
    requires (forall x :: x in a <==> x in b) && Ranges(a, min, max) && Ranges(b, min', max')
    ensures min == min' && max == max'
  {
    var lo :| lo in a && Number(lo.value) == min;
    var lo' :| lo' in b && Number(lo'.value) == min';
    var hi :| hi in a && Number(hi.value) == max;
    var hi' :| hi' in b && Number(hi'.value) == max';
  }
}
