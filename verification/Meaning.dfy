/**
 What the operators mean (influxql/ast.go): comparisons by the order of what is
 compared, arithmetic by its laws, and the time a condition such as
 `time > now() - 1h` asks for once it is folded.
 */
module Meaning {
  import opened Values
  import opened Ast
  import opened Reduce
  import T = TimeRange

  // ----- Comparisons -----

  predicate Compares(op: Op) {
    op in {EQ, NEQ, LT, LTE, GT, GTE}
  }

  /** `a op b`, by which of the two comes first. */
  predicate Stands(a: real, op: Op, b: real) {
    (a < b && op in {LT, LTE, NEQ}) || (a == b && op in {LTE, GTE, EQ}) || (a > b && op in {GT, GTE, NEQ})
  }

  predicate StandsInt(a: int, op: Op, b: int) {
    Stands(a as real, op, b as real)
  }

  /** Numbers are compared by their order, strings and booleans for equality. */
  lemma EvalCompares(op: Op, l: Expr, r: Expr, m: Env)
    requires Compares(op)
    ensures var x, y, v := Eval(l, m), Eval(r, m), Eval(Binary(op, l, r), m);
      && (x.Float? && y.Float? ==> v == Bool(Stands(x.f, op, y.f)))
      && (x.Int? && y.Float? ==> v == Bool(StandsInt(x.i, op, Trunc(y.f))))
      && (x.Str? && y.Str? && (op == EQ || op == NEQ) ==> v == Bool((x.s == y.s) == (op == EQ)))
      && (x.Bool? && y.Bool? && (op == EQ || op == NEQ) ==> v == Bool((x.b == y.b) == (op == EQ)))
  {
  }

  /** What is of another type counts as the zero of the left one's type; a left side without a value gives none. */
  lemma EvalMixed(op: Op, l: Expr, r: Expr, m: Env)
    requires Compares(op)
    ensures var x, y, v := Eval(l, m), Eval(r, m), Eval(Binary(op, l, r), m);
      && (x.Float? && !y.Float? ==> v == Bool(Stands(x.f, op, 0.0)))
      && (x.Int? && !y.Float? ==> v == Bool(StandsInt(x.i, op, 0)))
      && (x.Str? && !y.Str? && (op == EQ || op == NEQ) ==> v == Bool((x.s == "") == (op == EQ)))
      && (x.Bool? && !y.Bool? && (op == EQ || op == NEQ) ==> v == Bool(!x.b == (op == EQ)))
      && (x.Nil? ==> v.Nil?)
  {
  }

  /** Folding with nil: equal or not, it is false; other comparisons are false only with something known on the left. */
  lemma NilFolds(op: Op, x: Expr)
    requires Compares(op)
    ensures (Fold(op, NilLiteral, x) == Some(Boolean(false)) <==> op == EQ || op == NEQ)
    ensures x.Number? || x.Duration? || x.Time? || x.Boolean? ==> Fold(op, x, NilLiteral) == Some(Boolean(false))
    ensures x.String? ==> (Fold(op, x, NilLiteral) == Some(Boolean(false)) <==> op == EQ || op == NEQ)
  {
  }

  predicate Whole(r: real) {
    r == r.Floor as real
  }

  /** Truncation is the whole number next to a number on the side of zero. */
  lemma TruncExact(r: real)
    ensures r >= 0.0 ==> Trunc(r) as real <= r < Trunc(r) as real + 1.0
    ensures r <= 0.0 ==> Trunc(r) as real - 1.0 < r <= Trunc(r) as real
    ensures Whole(r) <==> Trunc(r) as real == r
  {
    if r < 0.0 {
      var f := (-r).Floor;
      assert f as real <= -r < f as real + 1.0;
      if Whole(r) {
        assert -r == (-(r.Floor)) as real;
      }
    }
  }

  lemma WholeOrder(a: int, b: int)
    ensures a < b <==> a as real < b as real
    ensures a < b ==> a as real + 1.0 <= b as real
  {
  }

  /**
   A field of integers is compared with a number as if the number were whole. That is
   how it compares with the number itself if and only if the number is whole, the value
   is not the one next to it, or the operator does not tell the two apart.
   */
  lemma IntFieldExact(a: int, op: Op, b: real)
    requires Compares(op)
    ensures StandsInt(a, op, Trunc(b)) == Stands(a as real, op, b) <==>
              Whole(b) || a != Trunc(b) || (if b > 0.0 then op in {LTE, GT} else op in {LT, GTE})
  {
    TruncExact(b);
    WholeOrder(a, Trunc(b));
    WholeOrder(Trunc(b), a);
    hide Trunc;
  }

  /** So a filter `i >= 5.5` passes the value 5. */
  lemma FivePassesFiveAndAHalf(i: string)
    ensures EvalBool(Binary(GTE, VarRef(i), Number(5.5)), map[i := Int(5)])
    ensures !Stands(5.0, GTE, 5.5)
  {
    assert (5.5).Floor == 5;
  }

  // ----- Arithmetic -----

  /** What a difference leaves, added to what was taken away, is the number. */
  lemma SumLaws(a: real, b: real)
    ensures Fold(ADD, Number(a), Number(b)) == Some(Number(a + b))
    ensures Fold(SUB, Number(a + b), Number(b)) == Some(Number(a))
  {
  }

  lemma ProductLaw(a: real, b: real)
    ensures Fold(MUL, Number(a), Number(b)) == Some(Number(a * b))
  {
    var p := a * b;
    assert FoldNumber(MUL, Number(a), Number(b)) == Number(p);
  }

  /** A quotient multiplied by the divisor is the number; dividing by zero gives zero. */
  lemma DivisionLaw(a: real, b: real) returns (c: real)
    ensures Fold(DIV, Number(a), Number(b)) == Some(Number(c))
    ensures if b == 0.0 then c == 0.0 else c * b == a
  {
    c := if b == 0.0 then 0.0 else a / b;
    QuotientTimes(a, b);
  }

  lemma QuotientTimes(a: real, b: real)
    ensures b != 0.0 ==> a / b * b == a
  {
  }

  function Abs(a: int): nat {
    if a < 0 then -a else a
  }

  lemma QuotientIs(a: int, b: int)
    requires b != 0
    ensures Quotient(a, b) == if (a < 0) == (b < 0) then Abs(a) / Abs(b) else -(Abs(a) / Abs(b))
  {
  }

  lemma SignedProduct(a: int, b: int, k: int)
    ensures (if (a < 0) == (b < 0) then k else -k) * b == if a < 0 then -(k * Abs(b)) else k * Abs(b)
  {
    Signs(k, b);
  }

  /** Division of integers: toward zero, with a remainder smaller than the divisor. */
  lemma QuotientExact(a: int, b: int)
    requires b != 0
    ensures var rest := a - Quotient(a, b) * b;
      Abs(rest) < Abs(b) && (a >= 0 ==> rest >= 0) && (a <= 0 ==> rest <= 0)
  {
    QuotientIs(a, b);
    hide Quotient;
    Divides(Abs(a), Abs(b));
    SignedProduct(a, b, Abs(a) / Abs(b));
  }

  lemma Divides(x: nat, y: nat)
    requires y > 0
    ensures 0 <= x - (x / y) * y < y
  {
  }

  lemma Signs(k: int, y: int)
    ensures (-k) * y == -(k * y) && k * -y == -(k * y) && (-k) * -y == k * y
  {
  }

  /** Integer fields: sums, differences and products are exact, and division is toward zero. */
  lemma IntLaws(a: int, r: real)
    ensures var b := Trunc(r);
      && EvalBinary(ADD, Int(a), Float(r)) == Int(a + b) && EvalBinary(MUL, Int(a), Float(r)) == Int(a * b)
      && (exists c :: EvalBinary(SUB, Int(a), Float(r)) == Int(c) && c + b == a)
      && EvalBinary(DIV, Int(a), Float(r)) == Int(if b == 0 then 0 else Quotient(a, b))
  {
    assert EvalBinary(SUB, Int(a), Float(r)) == Int(a - Trunc(r));
  }

  // ----- Times and durations -----

  /**
   Instants and spans of time as a linear form: how many instants there are in it, and
   how many nanoseconds. An expression of one instant is an instant, of none a span.
   */
  function Instants(e: Expr): int {
    match e
    case Time(_) => 1
    case Call(_, _) => 1
    case Paren(x) => Instants(x)
    case Binary(op, l, r) => if op == ADD then Instants(l) + Instants(r) else Instants(l) - Instants(r)
    case _ => 0
  }

  function Nanos(e: Expr, now: int): int {
    match e
    case Time(t) => t
    case Duration(d) => d
    case Call(_, _) => now
    case Paren(x) => Nanos(x, now)
    case Binary(op, l, r) => if op == ADD then Nanos(l, now) + Nanos(r, now) else Nanos(l, now) - Nanos(r, now)
    case _ => 0
  }

  /** Sums and differences of times, durations and `now()`, every part of which is an instant or a span. */
  ghost predicate Timed(e: Expr) {
    && 0 <= Instants(e) <= 1
    && match e
       case Time(_) => true
       case Duration(_) => true
       case Call(f, args) => f == "now" && args == []
       case Paren(x) => Timed(x)
       case Binary(op, l, r) => (op == ADD || op == SUB) && Timed(l) && Timed(r)
       case _ => false
  }

  function Clock(instants: int, nanos: int): Expr {
    if instants == 1 then Time(nanos) else Duration(nanos)
  }

  lemma FoldsClocks(op: Op, k: int, v: int, k': int, v': int)
    requires (op == ADD || op == SUB) && 0 <= k <= 1 && 0 <= k' <= 1 && 0 <= (if op == ADD then k + k' else k - k') <= 1
    ensures Fold(op, Clock(k, v), Clock(k', v')) == Some(if op == ADD then Clock(k + k', v + v') else Clock(k - k', v - v'))
  {
  }

  /** Folding works out the time. */
  lemma {:induction false} FoldsTime(e: Expr, valuer: Valuer, now: int)
    requires Timed(e) && valuer("now()") == Some(VTime(now))
    ensures Red(e, valuer) == Some(Clock(Instants(e), Nanos(e, now)))
  {
    hide Fold;
    match e
    case Paren(x) => FoldsTime(x, valuer, now);
    case Binary(op, l, r) =>
      FoldsTime(l, valuer, now);
      FoldsTime(r, valuer, now);
      FoldsClocks(op, Instants(l), Nanos(l, now), Instants(r), Nanos(r, now));
      hide Clock;
    case _ =>
  }

  /** A span multiplied or divided by a number: the number is made whole first. */
  lemma SpanScaled(d: int, x: real)
    ensures Fold(MUL, Duration(d), Number(x)) == Some(Duration(d * Trunc(x)))
    ensures Fold(DIV, Duration(d), Number(x)) ==
              if x == 0.0 then Some(Duration(0)) else if Trunc(x) == 0 then None else Some(Duration(Quotient(d, Trunc(x))))
  {
  }

  /** Instants and spans are compared by their order. */
  lemma TimeCompares(op: Op, a: int, b: int)
    requires Compares(op)
    ensures Fold(op, Time(a), Time(b)) == Some(Boolean(StandsInt(a, op, b)))
    ensures Fold(op, Duration(a), Duration(b)) == Some(Boolean(StandsInt(a, op, b)))
  {
  }

  // ----- What a comparison with the time asks for -----

  /** The instant a literal stands for: numbers and durations count from 1970. */
  ghost predicate Denotes(lit: Expr, v: int) {
    match lit
    case Time(t) => v == t
    case Duration(d) => v == T.UNIX_EPOCH + d
    case Number(r) => v == T.UNIX_EPOCH + Trunc(r)
    case _ => false
  }

  /** A comparison with the time, either way round, is one of the point's time with the instant. */
  lemma TimeMeans(op: Op, name: string, lit: Expr, v: int, t: int, other: Expr -> bool)
    requires Compares(op) && Lower(name) == "time" && Denotes(lit, v) && v != 0
    ensures T.Satisfies(Binary(op, VarRef(name), lit), t, other) <==> StandsInt(t, op, v)
    ensures T.Satisfies(Binary(op, lit, VarRef(name)), t, other) <==> StandsInt(v, op, t)
  {
    WholeOrder(t, v);
    WholeOrder(v, t);
  }

  /**
   The range of `time op x`, for any sum or difference of times and durations, `now()`
   among them: exactly the times that stand so to the instant x works out to. So
   `time > now() - d` asks for the times after `now() - d`.
   */
  lemma FoldedRange(op: Op, x: Expr, valuer: Valuer, now: int, t: int)
    requires Compares(op) && op != NEQ && Timed(x) && Instants(x) == 1
    requires valuer("now()") == Some(VTime(now)) && valuer("time").None? && Nanos(x, now) !in {-1, 0, 1}
    ensures var v := Nanos(x, now);
      && Reduce.Reduce(Binary(op, VarRef("time"), x), valuer) == Some(Binary(op, VarRef("time"), Time(v)))
      && Reduce.Reduce(Binary(op, x, VarRef("time")), valuer) == Some(Binary(op, Time(v), VarRef("time")))
      && (T.Within(T.RangeAfter(Binary(op, VarRef("time"), Time(v)), T.UNBOUNDED), t) <==> StandsInt(t, op, v))
      && (T.Within(T.RangeAfter(Binary(op, Time(v), VarRef("time")), T.UNBOUNDED), t) <==> StandsInt(v, op, t))
  {
    var v := Nanos(x, now);
    FoldsTime(x, valuer, now);
    LowerTime();
    assert Red(VarRef("time"), valuer) == Some(VarRef("time"));
    assert Fold(op, VarRef("time"), Time(v)) == Some(Binary(op, VarRef("time"), Time(v)));
    assert Fold(op, Time(v), VarRef("time")) == Some(Binary(op, Time(v), VarRef("time")));
    WholeOrder(t, v);
    WholeOrder(v, t);
    OneBound(op, v, t);
  }

  lemma LowerTime()
    ensures Lower("time") == "time"
  {
  }

  lemma OneBound(op: Op, v: int, t: int)
    requires Compares(op) && op != NEQ && v !in {-1, 0, 1}
    ensures T.Within(T.RangeAfter(Binary(op, VarRef("time"), Time(v)), T.UNBOUNDED), t) <==> StandsInt(t, op, v)
    ensures T.Within(T.RangeAfter(Binary(op, Time(v), VarRef("time")), T.UNBOUNDED), t) <==> StandsInt(v, op, t)
  {
    LowerTime();
    WholeOrder(t, v);
    WholeOrder(v, t);
    var e, f := Binary(op, VarRef("time"), Time(v)), Binary(op, Time(v), VarRef("time"));
    assert T.BoundOf(e) == Some(T.TimeBound(op, v));
    assert T.BoundOf(f) == Some(T.TimeBound(T.Flip(op), v));
    assert T.RangeAfter(e, T.UNBOUNDED) == T.Narrow(T.UNBOUNDED, T.TimeBound(op, v));
    assert T.RangeAfter(f, T.UNBOUNDED) == T.Narrow(T.UNBOUNDED, T.TimeBound(T.Flip(op), v));
  }
}
