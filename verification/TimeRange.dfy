/**
 The time bounds of a condition (influxql/ast.go, `TimeRange`). Times are
 nanoseconds since the zero time; a bound at the zero time means no bound.
 */
module TimeRange {
  import opened Values
  import opened Ast
  import R = Reduce

  const UNIX_EPOCH: int := 62_135_596_800_000_000_000

  datatype Range = Range(min: int, max: int)

  const UNBOUNDED: Range := Range(0, 0)

  predicate Within(r: Range, t: int) {
    (r.min != 0 ==> r.min <= t) && (r.max != 0 ==> t <= r.max)
  }

  /** `timeExprValue`: the literal a time is compared with, or the zero time. */
  function TimeExprValue(ref: Expr, lit: Expr): int {
    if ref.VarRef? && Lower(ref.name) == "time" then
      match lit
      case Time(t) => t
      case Duration(d) => UNIX_EPOCH + d
      case Number(r) => UNIX_EPOCH + R.Trunc(r)
      case _ => 0
    else 0
  }

  /** The operator with its sides exchanged. */
  function Flip(op: Op): Op {
    if op == LT then GT else if op == LTE then GTE else if op == GT then LT else if op == GTE then LTE else op
  }

  datatype TimeBound = TimeBound(op: Op, value: int)

  function BoundOf(e: Expr): Option<TimeBound>
    requires e.Binary?
  {
    if TimeExprValue(e.lhs, e.rhs) != 0 then Some(TimeBound(e.op, TimeExprValue(e.lhs, e.rhs)))
    else if TimeExprValue(e.rhs, e.lhs) != 0 then Some(TimeBound(Flip(e.op), TimeExprValue(e.rhs, e.lhs)))
    else None
  }

  function RaiseMin(r: Range, value: int, min: int): Range {
    if r.min == 0 || value > r.min then r.(min := min) else r
  }

  function LowerMax(r: Range, value: int, max: int): Range {
    if r.max == 0 || value < r.max then r.(max := max) else r
  }

  function Narrow(r: Range, b: TimeBound): Range {
    if b.op == GT then RaiseMin(r, b.value, b.value + 1)
    else if b.op == GTE then RaiseMin(r, b.value, b.value)
    else if b.op == LT then LowerMax(r, b.value, b.value - 1)
    else if b.op == LTE then LowerMax(r, b.value, b.value)
    else if b.op == EQ then LowerMax(RaiseMin(r, b.value, b.value), b.value, b.value)
    else r
  }

  function Visit(e: Expr, r: Range): Range
    requires e.Binary?
  {
    match BoundOf(e)
    case Some(b) => Narrow(r, b)
    case None => r
  }

  /** The range after a walk that visits a node before its children. */
  function RangeAfter(e: Expr, r: Range): Range {
    match e
    case Binary(op, lhs, rhs) => RangeAfter(rhs, RangeAfter(lhs, Visit(e, r)))
    case Paren(x) => RangeAfter(x, r)
    case Call(f, args) => RangeAfterArgs(args, r)
    case _ => r
  }

  function RangeAfterArgs(args: seq<Expr>, r: Range): Range {
    if args == [] then r else RangeAfter(args[|args| - 1], RangeAfterArgs(args[..|args| - 1], r))
  }

  /** The bounds the walk updates as it goes. */
  class RangeFinder {
    var min: int
    var max: int

    constructor ()
      ensures Found() == UNBOUNDED
    {
      min, max := 0, 0;
    }

    function Found(): Range
      reads this
    {
      Range(min, max)
    }

    method Walk(e: Expr)
      modifies this
      ensures Found() == RangeAfter(e, old(Found()))
    {
      match e
      case Binary(op, lhs, rhs) =>
        VisitNode(e);
        Walk(lhs);
        Walk(rhs);
      case Paren(x) =>
        Walk(x);
      case Call(f, args) =>
        for i := 0 to |args|
          invariant Found() == RangeAfterArgs(args[..i], old(Found()))
        {
          assert args[..i + 1][..i] == args[..i];
          Walk(args[i]);
        }
        assert args[..|args|] == args;
      case _ =>
    }

    method VisitNode(n: Expr)
      requires n.Binary?
      modifies this
      ensures Found() == Visit(n, old(Found()))
    {
      var value, op := TimeExprValue(n.lhs, n.rhs), n.op;
      if value == 0 {
        value := TimeExprValue(n.rhs, n.lhs);
        if value == 0 {
          return;
        } else if op == LT {
          op := GT;
        } else if op == LTE {
          op := GTE;
        } else if op == GT {
          op := LT;
        } else if op == GTE {
          op := LTE;
        }
      }
      if op == GT {
        if min == 0 || value > min {
          min := value + 1;
        }
      } else if op == GTE {
        if min == 0 || value > min {
          min := value;
        }
      } else if op == LT {
        if max == 0 || value < max {
          max := value - 1;
        }
      } else if op == LTE {
        if max == 0 || value < max {
          max := value;
        }
      } else if op == EQ {
        if min == 0 || value > min {
          min := value;
        }
        if max == 0 || value < max {
          max := value;
        }
      }
    }
  }

  // ----- What a condition says about the time of a point -----

  predicate Meets(t: int, b: TimeBound) {
    if b.op == GT then t > b.value
    else if b.op == GTE then t >= b.value
    else if b.op == LT then t < b.value
    else if b.op == LTE then t <= b.value
    else if b.op == EQ then t == b.value
    else b.op == NEQ && t != b.value
  }

  predicate IsComparison(op: Op) {
    op == GT || op == GTE || op == LT || op == LTE || op == EQ || op == NEQ
  }

  /** Whether a point at time `t` satisfies the condition; `other` decides what does not concern the time. */
  predicate Satisfies(e: Expr, t: int, other: Expr -> bool) {
    match e
    case Paren(x) => Satisfies(x, t, other)
    case Binary(op, l, r) =>
      if op == AND then Satisfies(l, t, other) && Satisfies(r, t, other)
      else if op == OR then Satisfies(l, t, other) || Satisfies(r, t, other)
      else if BoundOf(e).Some? && IsComparison(op) then Meets(t, BoundOf(e).value)
      else other(e)
    case _ => other(e)
  }

  /** No part compares the time. */
  predicate Silent(e: Expr) {
    match e
    case Binary(op, l, r) => BoundOf(e).None? && Silent(l) && Silent(r)
    case Paren(x) => Silent(x)
    case Call(f, args) => forall a :: a in args ==> Silent(a)
    case _ => true
  }

  /** Comparisons, and anything silent about the time, joined by AND. */
  predicate Conjunction(e: Expr) {
    Silent(e) ||
    match e
    case Paren(x) => Conjunction(x)
    case Binary(op, l, r) =>
      if op == AND then Conjunction(l) && Conjunction(r) else op != OR && Silent(l) && Silent(r)
    case _ => false
  }

  lemma {:induction false} SilentKeeps(e: Expr, r: Range)
    requires Silent(e)
    ensures RangeAfter(e, r) == r
  {
    match e
    case Binary(op, lhs, rhs) =>
      SilentKeeps(lhs, r);
      SilentKeeps(rhs, r);
    case Paren(x) => SilentKeeps(x, r);
    case Call(f, args) => SilentArgsKeep(args, r);
    case _ =>
  }

  lemma {:induction false} SilentArgsKeep(args: seq<Expr>, r: Range)
    requires forall a :: a in args ==> Silent(a)
    ensures RangeAfterArgs(args, r) == r
  {
    if args != [] {
      SilentArgsKeep(args[..|args| - 1], r);
      SilentKeeps(args[|args| - 1], r);
    }
  }

  lemma NarrowKeeps(r: Range, b: TimeBound, t: int)
    requires Within(r, t) && (IsComparison(b.op) ==> Meets(t, b))
    ensures Within(Narrow(r, b), t)
  {
  }

  /** Every time that satisfies a conjunction lies within the range found for it. */
  lemma {:induction false} RangeContains(e: Expr, t: int, other: Expr -> bool, r: Range)
    requires Conjunction(e) && Satisfies(e, t, other) && Within(r, t)
    ensures Within(RangeAfter(e, r), t)
  {
    if Silent(e) {
      SilentKeeps(e, r);
    } else if e.Paren? {
      RangeContains(e.e, t, other, r);
    } else {
      VisitKeeps(e, t, other, r);
      if e.op == AND {
        RangeContains(e.lhs, t, other, Visit(e, r));
        RangeContains(e.rhs, t, other, RangeAfter(e.lhs, Visit(e, r)));
      } else {
        SilentKeeps(e.lhs, Visit(e, r));
        SilentKeeps(e.rhs, Visit(e, r));
      }
    }
  }

  lemma VisitKeeps(e: Expr, t: int, other: Expr -> bool, r: Range)
    requires e.Binary? && e.op != OR && Satisfies(e, t, other) && Within(r, t)
    ensures Within(Visit(e, r), t)
  {
    if BoundOf(e).Some? {
      NarrowKeeps(r, BoundOf(e).value, t);
    }
  }

  // ----- Exactly which times are in the range of any condition -----

  /** Comparisons that narrow the range: all but inequality. */
  predicate Narrows(op: Op) {
    IsComparison(op) && op != NEQ
  }

  function OwnBound(e: Expr): seq<TimeBound>
    requires e.Binary?
  {
    if BoundOf(e).Some? && Narrows(BoundOf(e).value.op) then [BoundOf(e).value] else []
  }

  /** Every bound the walk meets, whatever joins them. */
  function Bounds(e: Expr): seq<TimeBound> {
    match e
    case Binary(op, l, r) => OwnBound(e) + (Bounds(l) + Bounds(r))
    case Paren(x) => Bounds(x)
    case Call(f, args) => BoundsOfArgs(args)
    case _ => []
  }

  function BoundsOfArgs(args: seq<Expr>): seq<TimeBound> {
    if args == [] then [] else BoundsOfArgs(args[..|args| - 1]) + Bounds(args[|args| - 1])
  }

  function NarrowAll(r: Range, bs: seq<TimeBound>): Range {
    if bs == [] then r else Narrow(NarrowAll(r, bs[..|bs| - 1]), bs[|bs| - 1])
  }

  lemma {:induction false} NarrowAllSplit(r: Range, a: seq<TimeBound>, b: seq<TimeBound>)
    ensures NarrowAll(r, a + b) == NarrowAll(NarrowAll(r, a), b)
  {
    if b == [] {
      assert a + b == a;
    } else {
      assert (a + b)[..|a + b| - 1] == a + b[..|b| - 1];
      NarrowAllSplit(r, a, b[..|b| - 1]);
    }
  }

  lemma VisitNarrows(e: Expr, r: Range)
    requires e.Binary?
    ensures Visit(e, r) == NarrowAll(r, OwnBound(e))
  {
    if OwnBound(e) != [] {
      assert OwnBound(e)[..0] == [];
    }
  }

  /** The walk narrows by each bound in turn. */
  lemma {:induction false} RangeIsNarrowed(e: Expr, r: Range)
    ensures RangeAfter(e, r) == NarrowAll(r, Bounds(e))
  {
    match e
    case Binary(op, lhs, rhs) =>
      VisitNarrows(e, r);
      RangeIsNarrowed(lhs, Visit(e, r));
      RangeIsNarrowed(rhs, RangeAfter(lhs, Visit(e, r)));
      NarrowAllSplit(r, OwnBound(e), Bounds(lhs) + Bounds(rhs));
      NarrowAllSplit(Visit(e, r), Bounds(lhs), Bounds(rhs));
    case Paren(x) => RangeIsNarrowed(x, r);
    case Call(f, args) => ArgsAreNarrowed(args, r);
    case _ =>
  }

  lemma {:induction false} ArgsAreNarrowed(args: seq<Expr>, r: Range)
    ensures RangeAfterArgs(args, r) == NarrowAll(r, BoundsOfArgs(args))
  {
    if args != [] {
      var n := |args| - 1;
      ArgsAreNarrowed(args[..n], r);
      RangeIsNarrowed(args[n], RangeAfterArgs(args[..n], r));
      NarrowAllSplit(r, BoundsOfArgs(args[..n]), Bounds(args[n]));
    }
  }

  lemma {:induction false} BoundsNarrow(e: Expr)
    ensures forall b :: b in Bounds(e) ==> Narrows(b.op) && b.value != 0
  {
    match e
    case Binary(op, lhs, rhs) =>
      BoundsNarrow(lhs);
      BoundsNarrow(rhs);
    case Paren(x) => BoundsNarrow(x);
    case Call(f, args) => ArgsBoundsNarrow(args);
    case _ =>
  }

  lemma {:induction false} ArgsBoundsNarrow(args: seq<Expr>)
    ensures forall b :: b in BoundsOfArgs(args) ==> Narrows(b.op) && b.value != 0
  {
    if args != [] {
      ArgsBoundsNarrow(args[..|args| - 1]);
      BoundsNarrow(args[|args| - 1]);
    }
  }

  /**
   A strict bound is kept as the next nanosecond. That is the zero time, which
   means no bound, for the bounds `< 1` and `> -1`; and a strict bound that
   meets an equal one leaves it, so a time exactly at it is a case of its own.
   */
  predicate Regular(b: TimeBound, t: int) {
    && (b.op == GT ==> b.value != -1 && t != b.value)
    && (b.op == LT ==> b.value != 1 && t != b.value)
  }

  lemma {:induction false} NarrowAllExact(bs: seq<TimeBound>, t: int)
    requires forall b :: b in bs ==> Narrows(b.op) && b.value != 0 && Regular(b, t)
    ensures Within(NarrowAll(UNBOUNDED, bs), t) <==> forall b :: b in bs ==> Meets(t, b)
  {
    if bs != [] {
      var n := |bs| - 1;
      NarrowAllExact(bs[..n], t);
      NarrowExact(NarrowAll(UNBOUNDED, bs[..n]), bs[n], t);
      assert bs == bs[..n] + [bs[n]];
    }
  }

  lemma NarrowExact(r: Range, b: TimeBound, t: int)
    requires Narrows(b.op) && b.value != 0 && Regular(b, t)
    ensures Within(Narrow(r, b), t) <==> Within(r, t) && Meets(t, b)
  {
  }

  /**
   Of any condition, whatever joins its comparisons, a time is in the range if
   and only if it meets every bound.
   */
  lemma RangeExact(e: Expr, t: int)
    requires forall b :: b in Bounds(e) ==> Regular(b, t)
    ensures Within(RangeAfter(e, UNBOUNDED), t) <==> forall b :: b in Bounds(e) ==> Meets(t, b)
  {
    RangeIsNarrowed(e, UNBOUNDED);
    BoundsNarrow(e);
    NarrowAllExact(Bounds(e), t);
  }

  /** A time exactly at a strict bound. */
  predicate AtStrict(t: int, b: TimeBound) {
    (b.op == GT || b.op == LT) && t == b.value
  }

  lemma {:induction false} NarrowAllNearly(bs: seq<TimeBound>, t: int)
    requires forall b :: b in bs ==> Narrows(b.op) && b.value != 0
    ensures (forall b :: b in bs ==> Meets(t, b)) ==> Within(NarrowAll(UNBOUNDED, bs), t)
    ensures Within(NarrowAll(UNBOUNDED, bs), t) && (forall b :: b in bs ==> !Vanishes(b)) ==>
              forall b :: b in bs ==> Meets(t, b) || AtStrict(t, b)
  {
    if bs != [] {
      var n := |bs| - 1;
      NarrowAllNearly(bs[..n], t);
      NarrowNearly(NarrowAll(UNBOUNDED, bs[..n]), bs[n], t);
      assert bs == bs[..n] + [bs[n]];
    }
  }

  /** A strict bound whose next nanosecond is the zero time, and so no bound. */
  predicate Vanishes(b: TimeBound) {
    (b.op == GT && b.value == -1) || (b.op == LT && b.value == 1)
  }

  lemma NarrowNearly(r: Range, b: TimeBound, t: int)
    requires Narrows(b.op) && b.value != 0
    ensures Within(r, t) && Meets(t, b) ==> Within(Narrow(r, b), t)
    ensures Within(Narrow(r, b), t) && !Vanishes(b) ==> Within(r, t) && (Meets(t, b) || AtStrict(t, b))
  {
  }

  /**
   Of any condition and any time: a time that meets every bound is in the range, and
   one in the range meets every bound or is exactly at a strict one.
   */
  lemma RangeNearly(e: Expr, t: int)
    ensures (forall b :: b in Bounds(e) ==> Meets(t, b)) ==> Within(RangeAfter(e, UNBOUNDED), t)
    ensures Within(RangeAfter(e, UNBOUNDED), t) && (forall b :: b in Bounds(e) ==> !Vanishes(b)) ==>
              forall b :: b in Bounds(e) ==> Meets(t, b) || AtStrict(t, b)
  {
    RangeIsNarrowed(e, UNBOUNDED);
    BoundsNarrow(e);
    NarrowAllNearly(Bounds(e), t);
  }

  lemma {:induction false} SilentHasNone(e: Expr)
    requires Silent(e)
    ensures Bounds(e) == []
  {
    match e
    case Binary(op, lhs, rhs) =>
      SilentHasNone(lhs);
      SilentHasNone(rhs);
    case Paren(x) => SilentHasNone(x);
    case Call(f, args) => SilentArgsHaveNone(args);
    case _ =>
  }

  lemma {:induction false} SilentArgsHaveNone(args: seq<Expr>)
    requires forall a :: a in args ==> Silent(a)
    ensures BoundsOfArgs(args) == []
  {
    if args != [] {
      SilentArgsHaveNone(args[..|args| - 1]);
      SilentHasNone(args[|args| - 1]);
    }
  }

  /** A comparison of the time with a literal. */
  predicate IsBound(e: Expr, b: TimeBound) {
    e.Binary? && IsComparison(e.op) && BoundOf(e) == Some(b) && Narrows(b.op) && Silent(e.lhs) && Silent(e.rhs)
  }

  lemma OnlyBound(e: Expr, b: TimeBound)
    requires IsBound(e, b)
    ensures Bounds(e) == [b]
  {
    SilentHasNone(e.lhs);
    SilentHasNone(e.rhs);
  }

  /**
   A bound or something silent: the range keeps exactly the times that meet the
   bound, and loses every other time at which the silent part holds.
   */
  lemma SilentAlternativeIsLost(l: Expr, b: TimeBound, s: Expr, t: int, other: Expr -> bool)
    requires IsBound(l, b) && Silent(s) && Regular(b, t)
    ensures var e := Binary(OR, l, s);
      && (Within(RangeAfter(e, UNBOUNDED), t) <==> Meets(t, b))
      && (Satisfies(e, t, other) && !Within(RangeAfter(e, UNBOUNDED), t) <==> Satisfies(s, t, other) && !Meets(t, b))
  {
    hide *;
    OnlyBound(l, b);
    SilentHasNone(s);
    EitherOf(l, s, t, other);
    BoundHolds(l, b, t, other);
    var e := Binary(OR, l, s);
    assert Bounds(e) == [b];
    RangeExact(e, t);
  }

  /** Either of two bounds: exactly the times that meet one of them but not both are lost. */
  lemma OneOfTwoIsLost(l: Expr, b: TimeBound, r: Expr, c: TimeBound, t: int, other: Expr -> bool)
    requires IsBound(l, b) && IsBound(r, c) && Regular(b, t) && Regular(c, t)
    ensures var e := Binary(OR, l, r);
      Satisfies(e, t, other) && !Within(RangeAfter(e, UNBOUNDED), t) <==> Meets(t, b) != Meets(t, c)
  {
    hide *;
    OnlyBound(l, b);
    OnlyBound(r, c);
    EitherOf(l, r, t, other);
    BoundHolds(l, b, t, other);
    BoundHolds(r, c, t, other);
    var e := Binary(OR, l, r);
    assert Bounds(e) == [b, c];
    RangeExact(e, t);
    assert b in Bounds(e) && c in Bounds(e);
  }

  lemma EitherOf(l: Expr, r: Expr, t: int, other: Expr -> bool)
    ensures Bounds(Binary(OR, l, r)) == Bounds(l) + Bounds(r)
    ensures Satisfies(Binary(OR, l, r), t, other) <==> Satisfies(l, t, other) || Satisfies(r, t, other)
  {
    assert OwnBound(Binary(OR, l, r)) == [];
  }

  lemma BoundHolds(e: Expr, b: TimeBound, t: int, other: Expr -> bool)
    requires IsBound(e, b)
    ensures Satisfies(e, t, other) <==> Meets(t, b)
  {
  }
}
