/**
 Constant folding and evaluation of InfluxQL expressions (influxql/ast.go):
 `Eval`, `EvalBool`, `Reduce`. Numbers are exact reals and integers are
 unbounded; times are nanoseconds since Go's zero time.
 */
module Reduce {
  import opened Values
  import opened Ast
  import P = Parser

  // ----- Evaluation -----

  /** Go's conversion of a float to an integer: toward zero. */
  function Trunc(r: real): int {
    if r >= 0.0 then r.Floor else -((-r).Floor)
  }

  /** Go's integer division: toward zero. */
  function Quotient(a: int, b: int): int
    requires b != 0
  {
    var q := (if a < 0 then -a else a) / (if b < 0 then -b else b);
    if (a < 0) == (b < 0) then q else -q
  }

  type Env = map<string, Value>

  function Lookup(m: Env, name: string): Value {
    if name in m then m[name] else Nil
  }

  function Eval(e: Expr, m: Env): Value {
    match e
    case Binary(op, l, r) => EvalBinary(op, Eval(l, m), Eval(r, m))
    case Boolean(b) => Bool(b)
    case Number(r) => Float(r)
    case Paren(x) => Eval(x, m)
    case String(s) => Str(s)
    case VarRef(n) => Lookup(m, n)
    case _ => Nil
  }

  /** A right operand of another type counts as the zero of the left operand's type. */
  function EvalBinary(op: Op, l: Value, r: Value): Value {
    match l
    case Bool(a) => EvalBools(op, a, r.Bool? && r.b)
    case Float(a) => EvalFloats(op, a, if r.Float? then r.f else 0.0)
    case Int(a) => EvalInts(op, a, if r.Float? then Trunc(r.f) else 0)
    case Str(a) => EvalStrings(op, a, if r.Str? then r.s else "")
    case _ => Nil
  }

  function EvalBools(op: Op, a: bool, b: bool): Value {
    match op
    case AND => Bool(a && b)
    case OR => Bool(a || b)
    case EQ => Bool(a == b)
    case NEQ => Bool(a != b)
    case _ => Nil
  }

  function EvalFloats(op: Op, a: real, b: real): Value {
    match op
    case EQ => Bool(a == b)
    case NEQ => Bool(a != b)
    case LT => Bool(a < b)
    case LTE => Bool(a <= b)
    case GT => Bool(a > b)
    case GTE => Bool(a >= b)
    case ADD => Float(a + b)
    case SUB => Float(a - b)
    case MUL => Float(a * b)
    case DIV => if b == 0.0 then Float(0.0) else Float(a / b)
    case _ => Nil
  }

  function EvalInts(op: Op, a: int, b: int): Value {
    match op
    case EQ => Bool(a == b)
    case NEQ => Bool(a != b)
    case LT => Bool(a < b)
    case LTE => Bool(a <= b)
    case GT => Bool(a > b)
    case GTE => Bool(a >= b)
    case ADD => Int(a + b)
    case SUB => Int(a - b)
    case MUL => Int(a * b)
    case DIV => if b == 0 then Int(0) else Int(Quotient(a, b))
    case _ => Nil
  }

  function EvalStrings(op: Op, a: string, b: string): Value {
    match op
    case EQ => Bool(a == b)
    case NEQ => Bool(a != b)
    case _ => Nil
  }

  predicate IsTrue(v: Value) {
    v == Bool(true)
  }

  /** True only for a boolean true. */
  predicate EvalBool(e: Expr, m: Env) {
    IsTrue(Eval(e, m))
  }

  // ----- Folding -----

  datatype Valued = VBool(b: bool) | VDuration(d: int) | VFloat(r: real) | VString(s: string) | VTime(t: int) | VOther

  /** What is known of variables while folding; `now()` is one of the keys. */
  type Valuer = string -> Option<Valued>

  function FoldVarRef(name: string, valuer: Valuer): Expr {
    match valuer(name)
    case None => VarRef(name)
    case Some(v) =>
      match v
      case VBool(b) => Boolean(b)
      case VDuration(d) => Duration(d)
      case VFloat(r) => Number(r)
      case VString(s) => String(s)
      case VTime(t) => Time(t)
      case VOther => NilLiteral
  }

  function Compare(op: Op, a: int, b: int): Option<bool> {
    match op
    case EQ => Some(a == b)
    case NEQ => Some(a != b)
    case GT => Some(a > b)
    case GTE => Some(a >= b)
    case LT => Some(a < b)
    case LTE => Some(a <= b)
    case _ => None
  }

  function FoldBoolean(op: Op, l: Expr, r: Expr): Expr
    requires l.Boolean?
  {
    if r.Boolean? then
      match op
      case EQ => Boolean(l.b == r.b)
      case NEQ => Boolean(l.b != r.b)
      case AND => Boolean(l.b && r.b)
      case OR => Boolean(l.b || r.b)
      case _ => Binary(op, l, r)
    else if r.NilLiteral? then Boolean(false)
    else Binary(op, l, r)
  }

  /** None stands for the panic of dividing a duration by a number that truncates to zero. */
  function FoldDuration(op: Op, l: Expr, r: Expr): Option<Expr>
    requires l.Duration?
  {
    match r
    case Duration(d) =>
      if op == ADD then Some(Duration(l.d + d))
      else if op == SUB then Some(Duration(l.d - d))
      else (match Compare(op, l.d, d)
            case Some(b) => Some(Boolean(b))
            case None => Some(Binary(op, l, r)))
    case Number(x) =>
      if op == MUL then Some(Duration(l.d * Trunc(x)))
      else if op == DIV then
        if x == 0.0 then Some(Duration(0))
        else if Trunc(x) == 0 then None
        else Some(Duration(Quotient(l.d, Trunc(x))))
      else Some(Binary(op, l, r))
    case Time(t) => if op == ADD then Some(Time(t + l.d)) else Some(Binary(op, l, r))
    case NilLiteral => Some(Boolean(false))
    case _ => Some(Binary(op, l, r))
  }

  function FoldNil(op: Op, l: Expr, r: Expr): Expr {
    if op == EQ || op == NEQ then Boolean(false) else Binary(op, l, r)
  }

  function FoldNumber(op: Op, l: Expr, r: Expr): Expr
    requires l.Number?
  {
    match r
    case Number(b) =>
      var a := l.r;
      (match op
       case ADD => Number(a + b)
       case SUB => Number(a - b)
       case MUL => Number(a * b)
       case DIV => if b == 0.0 then Number(0.0) else Number(a / b)
       case EQ => Boolean(a == b)
       case NEQ => Boolean(a != b)
       case GT => Boolean(a > b)
       case GTE => Boolean(a >= b)
       case LT => Boolean(a < b)
       case LTE => Boolean(a <= b)
       case _ => Binary(op, l, r))
    case NilLiteral => Boolean(false)
    case _ => Binary(op, l, r)
  }

  function FoldString(op: Op, l: Expr, r: Expr): Expr
    requires l.String?
  {
    match r
    case String(b) =>
      if op == EQ then Boolean(l.s == b)
      else if op == NEQ then Boolean(l.s != b)
      else if op == ADD then String(l.s + b)
      else Binary(op, l, r)
    case NilLiteral => if op == EQ || op == NEQ then Boolean(false) else Binary(op, l, r)
    case _ => Binary(op, l, r)
  }

  function FoldTime(op: Op, l: Expr, r: Expr): Expr
    requires l.Time?
  {
    match r
    case Duration(d) =>
      if op == ADD then Time(l.t + d) else if op == SUB then Time(l.t - d) else Binary(op, l, r)
    case Time(t) =>
      if op == SUB then Duration(l.t - t)
      else (match Compare(op, l.t, t)
            case Some(b) => Boolean(b)
            case None => Binary(op, l, r))
    case NilLiteral => Boolean(false)
    case _ => Binary(op, l, r)
  }

  /** AND and OR with a boolean literal on one side; None if there is none. */
  function FoldConnective(op: Op, l: Expr, r: Expr): Option<Expr> {
    if op == AND && (l == Boolean(false) || r == Boolean(false)) then Some(Boolean(false))
    else if op == AND && l == Boolean(true) then Some(r)
    else if op == AND && r == Boolean(true) then Some(l)
    else if op == OR && (l == Boolean(true) || r == Boolean(true)) then Some(Boolean(true))
    else if op == OR && l == Boolean(false) then Some(r)
    else if op == OR && r == Boolean(false) then Some(l)
    else None
  }

  function FoldTyped(op: Op, l: Expr, r: Expr): Option<Expr> {
    match l
    case Boolean(_) => Some(FoldBoolean(op, l, r))
    case Duration(_) => FoldDuration(op, l, r)
    case NilLiteral => Some(FoldNil(op, l, r))
    case Number(_) => Some(FoldNumber(op, l, r))
    case String(_) => Some(FoldString(op, l, r))
    case Time(_) => Some(FoldTime(op, l, r))
    case _ => Some(Binary(op, l, r))
  }

  /** `reduceBinaryExpr`, once both sides are folded. */
  function Fold(op: Op, l: Expr, r: Expr): Option<Expr> {
    if FoldConnective(op, l, r).Some? then FoldConnective(op, l, r) else FoldTyped(op, l, r)
  }

  /** `reduce`; None when folding panics. */
  function Red(e: Expr, valuer: Valuer): Option<Expr>
    decreases e
  {
    match e
    case Binary(op, l, r) =>
      (match (Red(l, valuer), Red(r, valuer))
       case (Some(l'), Some(r')) => Fold(op, l', r')
       case _ => None)
    case Call(f, args) =>
      if f == "now" && args == [] && valuer("now()").Some? then
        Some(Time(if valuer("now()").value.VTime? then valuer("now()").value.t else 0))
      else
        (match RedArgs(args, valuer)
         case Some(args') => Some(Call(f, args'))
         case None => None)
    case Paren(x) =>
      (match Red(x, valuer)
       case Some(x') => if x'.Binary? then Some(Paren(x')) else Some(x')
       case None => None)
    case VarRef(n) => Some(FoldVarRef(n, valuer))
    case _ => Some(e)
  }

  function RedArgs(args: seq<Expr>, valuer: Valuer): (r: Option<seq<Expr>>)
    ensures r.Some? ==> |r.value| == |args|
    decreases args
  {
    if args == [] then Some([])
    else match (Red(args[0], valuer), RedArgs(args[1..], valuer))
      case (Some(x), Some(xs)) => Some([x] + xs)
      case _ => None
  }

  /** `Reduce`: folds, then unwraps parentheses at the top. */
  function Reduce(e: Expr, valuer: Valuer): Option<Expr> {
    match Red(e, valuer)
    case Some(x) => if x.Paren? then Some(x.e) else Some(x)
    case None => None
  }

  // ----- Folding keeps the value -----

  predicate Logical(op: Op) {
    op == AND || op == OR
  }

  /** The value a valuer gives a variable is the one the environment holds. */
  ghost predicate Known(name: string, valuer: Valuer, m: Env) {
    match valuer(name)
    case None => true
    case Some(v) =>
      match v
      case VBool(b) => Lookup(m, name) == Bool(b)
      case VFloat(r) => Lookup(m, name) == Float(r)
      case VString(s) => Lookup(m, name) == Str(s)
      case _ => false
  }

  /**
   Conditions over booleans, numbers and strings: both sides of AND and OR are
   boolean in this environment, + is not applied to strings, and no times,
   durations or nil are involved.
   */
  ghost predicate Foldable(e: Expr, valuer: Valuer, m: Env) {
    match e
    case Binary(op, l, r) =>
      && Foldable(l, valuer, m) && Foldable(r, valuer, m)
      && (Logical(op) ==> Eval(l, m).Bool? && Eval(r, m).Bool?)
      && (op == ADD ==> !Eval(l, m).Str?)
    case Paren(x) => Foldable(x, valuer, m)
    case VarRef(n) => Known(n, valuer, m)
    case Call(_, _) => false
    case Time(_) => false
    case Duration(_) => false
    case NilLiteral => false
    case _ => true
  }

  predicate Literal(e: Expr) {
    e.Boolean? || e.Number? || e.String?
  }

  function LiteralValue(e: Expr): Value
    requires Literal(e)
  {
    match e
    case Boolean(b) => Bool(b)
    case Number(r) => Float(r)
    case String(s) => Str(s)
  }

  predicate Plain(e: Expr) {
    !e.Time? && !e.Duration? && !e.NilLiteral?
  }

  lemma FoldKeepsValue(op: Op, l: Expr, r: Expr, m: Env)
    requires Plain(l) && Plain(r)
    requires Logical(op) ==> Eval(l, m).Bool? && Eval(r, m).Bool?
    requires op == ADD ==> !Eval(l, m).Str?
    ensures Fold(op, l, r).Some? && Plain(Fold(op, l, r).value)
    ensures Eval(Fold(op, l, r).value, m) == EvalBinary(op, Eval(l, m), Eval(r, m))
  {
    if Logical(op) {
      FoldLogicalKeepsValue(op, l, r, m);
    } else if Literal(l) {
      FoldLiteralKeepsValue(op, l, r, m);
    } else {
      assert Fold(op, l, r) == Some(Binary(op, l, r));
    }
  }

  lemma FoldLogicalKeepsValue(op: Op, l: Expr, r: Expr, m: Env)
    requires Plain(l) && Plain(r) && Logical(op) && Eval(l, m).Bool? && Eval(r, m).Bool?
    ensures Fold(op, l, r).Some? && Plain(Fold(op, l, r).value)
    ensures Eval(Fold(op, l, r).value, m) == EvalBinary(op, Eval(l, m), Eval(r, m))
  {
    hide Eval, FoldConnective, FoldTyped, EvalBinary;
    if FoldConnective(op, l, r).Some? {
      ConnectiveKeepsValue(op, l, r, m);
    } else {
      NoLiteralOperand(op, l, r, m);
      EvalOfBinary(op, l, r, m);
      assert Fold(op, l, r) == FoldTyped(op, l, r) == Some(Binary(op, l, r));
    }
  }

  lemma EvalOfBinary(op: Op, l: Expr, r: Expr, m: Env)
    ensures Eval(Binary(op, l, r), m) == EvalBinary(op, Eval(l, m), Eval(r, m))
  {
    hide EvalBinary;
  }

  lemma NoLiteralOperand(op: Op, l: Expr, r: Expr, m: Env)
    requires Plain(l) && Logical(op) && Eval(l, m).Bool? && FoldConnective(op, l, r).None?
    ensures !Literal(l) && FoldTyped(op, l, r) == Some(Binary(op, l, r))
  {
    hide FoldBoolean, FoldDuration, FoldNumber, FoldString, FoldTime;
    assert Literal(l) ==> l.Boolean?;
  }

  lemma ConnectiveKeepsValue(op: Op, l: Expr, r: Expr, m: Env)
    requires Plain(l) && Plain(r) && Eval(l, m).Bool? && Eval(r, m).Bool? && FoldConnective(op, l, r).Some?
    ensures var x := FoldConnective(op, l, r).value;
            Plain(x) && Eval(x, m) == EvalBinary(op, Eval(l, m), Eval(r, m))
  {
    ConnectiveCases(op, l, r);
    BooleanValue(m);
    ConnectiveValue(op, Eval(l, m).b, Eval(r, m).b);
    hide FoldConnective, Eval, EvalBinary;
    var x := FoldConnective(op, l, r).value;
    if op == AND {
      assert Eval(x, m) == Bool(Eval(l, m).b && Eval(r, m).b);
    } else {
      assert Eval(x, m) == Bool(Eval(l, m).b || Eval(r, m).b);
    }
  }

  lemma BooleanValue(m: Env)
    ensures Eval(Boolean(true), m) == Bool(true) && Eval(Boolean(false), m) == Bool(false)
  {
  }

  lemma ConnectiveValue(op: Op, a: bool, b: bool)
    requires Logical(op)
    ensures EvalBinary(op, Bool(a), Bool(b)) == if op == AND then Bool(a && b) else Bool(a || b)
  {
  }

  lemma ConnectiveCases(op: Op, l: Expr, r: Expr)
    requires FoldConnective(op, l, r).Some?
    ensures var x := FoldConnective(op, l, r).value;
            if op == AND then
              (x == Boolean(false) && (l == x || r == x)) || (l == Boolean(true) && x == r) || (r == Boolean(true) && x == l)
            else
              op == OR &&
              ((x == Boolean(true) && (l == x || r == x)) || (l == Boolean(false) && x == r) || (r == Boolean(false) && x == l))
  {
  }

  lemma NumbersFold(op: Op, a: real, b: real, m: Env)
    ensures var x := FoldNumber(op, Number(a), Number(b));
            Plain(x) && Eval(x, m) == EvalBinary(op, Float(a), Float(b))
  {
    assert EvalBinary(op, Float(a), Float(b)) == EvalFloats(op, a, b);
    hide EvalBinary;
    match op
    case ADD => case SUB => case MUL => case DIV =>
    case EQ => case NEQ => case LT => case LTE => case GT => case GTE =>
    case _ => assert FoldNumber(op, Number(a), Number(b)) == Binary(op, Number(a), Number(b));
  }

  lemma StringsFold(op: Op, a: string, b: string, m: Env)
    requires op != ADD
    ensures var x := FoldString(op, String(a), String(b));
            Plain(x) && Eval(x, m) == EvalBinary(op, Str(a), Str(b))
  {
    assert EvalBinary(op, Str(a), Str(b)) == EvalStrings(op, a, b);
    hide EvalBinary;
    if op != EQ && op != NEQ {
      assert FoldString(op, String(a), String(b)) == Binary(op, String(a), String(b));
    }
  }

  lemma BooleansFold(op: Op, a: bool, b: bool, m: Env)
    requires !Logical(op)
    ensures var x := FoldBoolean(op, Boolean(a), Boolean(b));
            Plain(x) && Eval(x, m) == EvalBinary(op, Bool(a), Bool(b))
  {
    assert EvalBinary(op, Bool(a), Bool(b)) == EvalBools(op, a, b);
    hide EvalBinary;
    if op != EQ && op != NEQ {
      assert FoldBoolean(op, Boolean(a), Boolean(b)) == Binary(op, Boolean(a), Boolean(b));
    }
  }

  lemma FoldLiteralsKeepValue(op: Op, l: Expr, r: Expr, m: Env)
    requires Literal(l) && Literal(r) && !Logical(op) && (op == ADD ==> !l.String?)
    ensures FoldTyped(op, l, r).Some? && Plain(FoldTyped(op, l, r).value)
    ensures Eval(FoldTyped(op, l, r).value, m) == EvalBinary(op, LiteralValue(l), LiteralValue(r))
  {
    hide EvalBinary, FoldNumber, FoldString, FoldBoolean;
    if l.Number? && r.Number? {
      NumbersFold(op, l.r, r.r, m);
    } else if l.String? && r.String? {
      StringsFold(op, l.s, r.s, m);
    } else if l.Boolean? && r.Boolean? {
      BooleansFold(op, l.b, r.b, m);
    } else {
      MixedFold(op, l, r, m);
    }
  }

  /** Literals of different types are not folded. */
  lemma MixedFold(op: Op, l: Expr, r: Expr, m: Env)
    requires Literal(l) && Literal(r) && !Logical(op)
    requires !(l.Number? && r.Number?) && !(l.String? && r.String?) && !(l.Boolean? && r.Boolean?)
    ensures FoldTyped(op, l, r) == Some(Binary(op, l, r)) && Plain(Binary(op, l, r))
    ensures Eval(Binary(op, l, r), m) == EvalBinary(op, LiteralValue(l), LiteralValue(r))
  {
    hide EvalBinary;
    assert Eval(l, m) == LiteralValue(l) && Eval(r, m) == LiteralValue(r);
  }

  lemma FoldLiteralKeepsValue(op: Op, l: Expr, r: Expr, m: Env)
    requires Literal(l) && Plain(r) && !Logical(op) && (op == ADD ==> !l.String?)
    ensures Fold(op, l, r).Some? && Plain(Fold(op, l, r).value)
    ensures Eval(Fold(op, l, r).value, m) == EvalBinary(op, Eval(l, m), Eval(r, m))
  {
    hide EvalBinary, FoldTyped, FoldConnective;
    OnlyConnectives(op, l, r);
    assert Eval(l, m) == LiteralValue(l);
    if Literal(r) {
      assert Eval(r, m) == LiteralValue(r);
      FoldLiteralsKeepValue(op, l, r, m);
    } else {
      UnlikeLiteral(op, l, r);
    }
  }

  lemma OnlyConnectives(op: Op, l: Expr, r: Expr)
    requires !Logical(op)
    ensures FoldConnective(op, l, r).None?
  {
  }

  lemma UnlikeLiteral(op: Op, l: Expr, r: Expr)
    requires Literal(l) && !Literal(r) && !r.NilLiteral?
    ensures FoldTyped(op, l, r) == Some(Binary(op, l, r))
  {
  }

  lemma {:induction false} RedKeepsValue(e: Expr, valuer: Valuer, m: Env)
    requires Foldable(e, valuer, m)
    ensures Red(e, valuer).Some? && Plain(Red(e, valuer).value)
    ensures Eval(Red(e, valuer).value, m) == Eval(e, m)
  {
    match e
    case Binary(op, l, r) =>
      RedKeepsValue(l, valuer, m);
      RedKeepsValue(r, valuer, m);
      FoldKeepsValue(op, Red(l, valuer).value, Red(r, valuer).value, m);
    case Paren(x) => RedKeepsValue(x, valuer, m);
    case _ =>
  }

  /** Folding a condition does not change what it evaluates to. */
  lemma ReduceKeepsMeaning(e: Expr, valuer: Valuer, m: Env)
    requires Foldable(e, valuer, m)
    ensures Reduce(e, valuer).Some?
    ensures Eval(Reduce(e, valuer).value, m) == Eval(e, m)
    ensures EvalBool(Reduce(e, valuer).value, m) == EvalBool(e, m)
  {
    RedKeepsValue(e, valuer, m);
  }

  // ----- Exactly which folds change the truth of a condition -----

  /**
   The folds that change truth: `x OR true` for an x that is not boolean; a
   literal that compares true with the zero of its type, folded against nil; and
   two times, or two durations, that compare true (evaluation knows neither).
   */
  ghost predicate FoldChangesTruth(op: Op, l: Expr, r: Expr, m: Env) {
    if Logical(op) then
      op == OR && r == Boolean(true) && !Eval(l, m).Bool?
    else if Literal(l) then
      r.NilLiteral? && IsTrue(EvalBinary(op, Eval(l, m), Nil))
    else
      || (l.Time? && r.Time? && Compare(op, l.t, r.t) == Some(true))
      || (l.Duration? && r.Duration? && Compare(op, l.d, r.d) == Some(true))
  }

  /** A fold changes the truth of an operation exactly in those cases. */
  lemma FoldTruthExact(op: Op, l: Expr, r: Expr, m: Env)
    requires Fold(op, l, r).Some?
    ensures EvalBool(Fold(op, l, r).value, m) == EvalBool(Binary(op, l, r), m) <==> !FoldChangesTruth(op, l, r, m)
  {
    hide *;
    if Logical(op) {
      LogicalTruthExact(op, l, r, m);
    } else if Literal(l) {
      LiteralTruthExact(op, l, r, m);
    } else {
      OtherTruthExact(op, l, r, m);
    }
  }

  lemma ConnectiveTruth(op: Op, a: Value, b: Value)
    requires Logical(op)
    ensures IsTrue(EvalBinary(op, a, b)) <==>
            a.Bool? && if op == AND then a.b && IsTrue(b) else a.b || IsTrue(b)
  {
  }

  lemma LogicalTruthExact(op: Op, l: Expr, r: Expr, m: Env)
    requires Logical(op) && Fold(op, l, r).Some?
    ensures EvalBool(Fold(op, l, r).value, m) == EvalBool(Binary(op, l, r), m)
            <==> !FoldChangesTruth(op, l, r, m)
  {
    hide EvalBinary;
    ConnectiveTruth(op, Eval(l, m), Eval(r, m));
    var x := Fold(op, l, r).value;
    if !l.Boolean? && !r.Boolean? {
      assert x == Binary(op, l, r) || (x == Boolean(false) && Plain(l) == l.Number?);
      assert l.Number? ==> Eval(l, m) == Float(l.r);
    }
  }

  lemma LiteralTruthExact(op: Op, l: Expr, r: Expr, m: Env)
    requires Literal(l) && !Logical(op) && Fold(op, l, r).Some?
    ensures EvalBool(Fold(op, l, r).value, m) == EvalBool(Binary(op, l, r), m)
            <==> !FoldChangesTruth(op, l, r, m)
  {
    hide Fold, FoldTyped, EvalBinary;
    assert Eval(l, m) == LiteralValue(l);
    if r.NilLiteral? {
      NilLiteralFold(op, l, r);
      NilTruth(op, l, m);
    } else if Literal(r) && !(op == ADD && l.String?) {
      LiteralsTruth(op, l, r, m);
    } else if Literal(r) {
      ConcatTruth(l, r, m);
    } else {
      UnlikeFold(op, l, r);
    }
  }

  lemma LiteralsTruth(op: Op, l: Expr, r: Expr, m: Env)
    requires Literal(l) && Literal(r) && !Logical(op) && (op == ADD ==> !l.String?) && Fold(op, l, r).Some?
    ensures EvalBool(Fold(op, l, r).value, m) == EvalBool(Binary(op, l, r), m)
  {
    hide FoldTyped, EvalBinary, FoldConnective;
    OnlyConnectives(op, l, r);
    assert Eval(l, m) == LiteralValue(l) && Eval(r, m) == LiteralValue(r);
    FoldLiteralsKeepValue(op, l, r, m);
  }

  lemma NilTruth(op: Op, l: Expr, m: Env)
    requires Literal(l) && !Logical(op)
    ensures EvalBool(Binary(op, l, NilLiteral), m) == IsTrue(EvalBinary(op, Eval(l, m), Nil))
    ensures l.String? && op != EQ && op != NEQ ==> !IsTrue(EvalBinary(op, Eval(l, m), Nil))
  {
    hide EvalFloats, EvalInts, EvalBools;
    assert Eval(NilLiteral, m) == Nil;
    assert Eval(l, m) == LiteralValue(l);
  }

  lemma ConcatTruth(l: Expr, r: Expr, m: Env)
    requires l.String? && Literal(r) && Fold(ADD, l, r).Some?
    ensures !EvalBool(Binary(ADD, l, r), m) && !EvalBool(Fold(ADD, l, r).value, m)
  {
    assert Eval(l, m) == LiteralValue(l) && Eval(r, m) == LiteralValue(r);
  }

  lemma UnlikeFold(op: Op, l: Expr, r: Expr)
    requires Literal(l) && !Literal(r) && !r.NilLiteral? && !Logical(op)
    ensures Fold(op, l, r) == Some(Binary(op, l, r))
  {
    UnlikeLiteral(op, l, r);
    hide FoldTyped;
  }

  lemma NilLiteralFold(op: Op, l: Expr, r: Expr)
    requires Literal(l) && r.NilLiteral? && !Logical(op)
    ensures Fold(op, l, r) == Some(Boolean(false)) || Fold(op, l, r) == Some(Binary(op, l, r))
    ensures Fold(op, l, r) == Some(Binary(op, l, r)) ==> l.String? && op != EQ && op != NEQ
  {
  }

  lemma OtherTruthExact(op: Op, l: Expr, r: Expr, m: Env)
    requires !Literal(l) && !Logical(op) && Fold(op, l, r).Some?
    ensures EvalBool(Fold(op, l, r).value, m) == EvalBool(Binary(op, l, r), m)
            <==> !FoldChangesTruth(op, l, r, m)
  {
    hide Trunc, Quotient;
    if l.Time? || l.Duration? || l.NilLiteral? {
      assert Eval(l, m) == Nil;
      assert !EvalBool(Binary(op, l, r), m);
      if l.Time? && r.Time? {
        assert Eval(Duration(l.t - r.t), m) == Nil;
      }
    } else {
      assert Fold(op, l, r) == Some(Binary(op, l, r));
    }
  }

  // ----- Folding keeps the normal form -----

  /** A folded tree binds at least as tightly as the tree it came from. */
  ghost predicate Tighter(r: Expr, e: Expr) {
    r.Binary? ==> e.Binary? && Precedence(r.op) >= Precedence(e.op)
  }

  predicate Leaf(e: Expr) {
    !e.Binary? && !e.Paren? && !e.Call?
  }

  /** Folding leaves the operation as it is, keeps one side of a connective, or makes a leaf. */
  lemma FoldShape(op: Op, l: Expr, r: Expr)
    requires Fold(op, l, r).Some?
    ensures var x := Fold(op, l, r).value;
            x == Binary(op, l, r) || Leaf(x) || (Logical(op) && (x == l || x == r))
  {
    hide Trunc, Quotient;
  }

  lemma FoldNormal(op: Op, l: Expr, r: Expr, l': Expr, r': Expr)
    requires Normal(Binary(op, l, r)) && Normal(l') && Normal(r')
    requires Tighter(l', l) && Tighter(r', r)
    requires IsRegexOp(op) ==> First(r').Regex?
    requires Fold(op, l', r').Some?
    ensures var x := Fold(op, l', r').value; Normal(x) && Tighter(x, Binary(op, l, r))
  {
    FoldShape(op, l', r');
    NormalBinary(op, l, r);
    NormalBinary(op, l', r');
    hide Fold, Normal, Precedence;
    var x := Fold(op, l', r').value;
    if Leaf(x) {
      LeafNormal(x);
    }
  }

  lemma NormalBinary(op: Op, l: Expr, r: Expr)
    ensures Normal(Binary(op, l, r)) <==>
            && Normal(l) && Normal(r)
            && (l.Binary? ==> Precedence(l.op) >= Precedence(op))
            && (r.Binary? ==> Precedence(r.op) > Precedence(op))
            && (IsRegexOp(op) ==> First(r).Regex?)
  {
  }

  lemma LeafNormal(x: Expr)
    requires Leaf(x)
    ensures Normal(x)
  {
  }

  /** Below a regex operator only arithmetic follows, and folding leaves its regex in front. */
  lemma {:induction false} FirstRegexStays(e: Expr, valuer: Valuer)
    requires Normal(e) && First(e).Regex? && (e.Binary? ==> Precedence(e.op) > 3)
    requires Red(e, valuer).Some?
    ensures First(Red(e, valuer).value).Regex?
  {
    if e.Binary? {
      FirstRegexStays(e.lhs, valuer);
    }
  }

  lemma {:induction false} RedNormal(e: Expr, valuer: Valuer)
    requires Normal(e) && Red(e, valuer).Some?
    ensures Normal(Red(e, valuer).value) && Tighter(Red(e, valuer).value, e)
    decreases e
  {
    hide Lower;
    match e
    case Binary(op, l, r) =>
      RedNormal(l, valuer);
      RedNormal(r, valuer);
      if IsRegexOp(op) {
        FirstRegexStays(r, valuer);
      }
      FoldNormal(op, l, r, Red(l, valuer).value, Red(r, valuer).value);
    case Paren(x) => RedNormal(x, valuer);
    case Call(f, args) =>
      if Red(e, valuer).value.Call? {
        RedArgsNormal(args, valuer);
      }
    case _ =>
  }

  lemma {:induction false} RedArgsNormal(args: seq<Expr>, valuer: Valuer)
    requires (forall i :: 0 <= i < |args| ==> Normal(args[i])) && RedArgs(args, valuer).Some?
    ensures forall i :: 0 <= i < |args| ==> Normal(RedArgs(args, valuer).value[i])
    decreases args
  {
    if args != [] {
      RedNormal(args[0], valuer);
      RedArgsNormal(args[1..], valuer);
    }
  }

  /**
   Folding keeps the parser's normal form, so a folded query survives printing
   and parsing exactly when folding left only leaves that can be written down.
   */
  lemma ReducedRoundTrip(e: Expr, valuer: Valuer, instant: P.Calendar)
    requires Normal(e) && Reduce(e, valuer).Some?
    ensures Normal(Reduce(e, valuer).value)
    ensures var r := Reduce(e, valuer).value;
            P.ParseExpr(P.Print(r), instant) == P.Parsed(r, []) <==> Printable(r)
  {
    RedNormal(e, valuer);
    P.RoundTripExact(Reduce(e, valuer).value, instant);
  }

  /** No name has a value. */
  function Nothing(name: string): Option<Valued> {
    None
  }

  /** A comparison with an operation of two literals that folds to a literal which cannot be written down. */
  lemma FoldedIsLost(op: Op, l: Expr, r: Expr, x: Expr, instant: P.Calendar)
    requires LiteralLeaf(l) && LiteralLeaf(r) && LiteralLeaf(x) && Precedence(op) > 3
    requires Fold(op, l, r) == Some(x) && !Printable(x)
    ensures var e := Binary(EQ, VarRef("v"), Binary(op, l, r));
            var r' := Binary(EQ, VarRef("v"), x);
            && Normal(e) && (Printable(l) && Printable(r) ==> Printable(e))
            && Reduce(e, Nothing) == Some(r')
            && P.ParseExpr(P.Print(r'), instant) != P.Parsed(r', [])
  {
    hide P.ParseExpr, P.Print, Fold, Printable;
    var v, s := VarRef("v"), Binary(op, l, r);
    LiteralParts(op, l, r);
    LiteralParts(EQ, v, s);
    LiteralParts(EQ, v, x);
    assert Printable(v) by { PlainName(); }
    assert Red(v, Nothing) == Some(v) && Red(s, Nothing) == Some(x);
    assert Fold(EQ, v, x) == Some(Binary(EQ, v, x)) by { NameStays(x); }
    assert Red(Binary(EQ, v, s), Nothing) == Some(Binary(EQ, v, x));
    ReducedRoundTrip(Binary(EQ, v, s), Nothing, instant);
  }

  predicate LiteralLeaf(e: Expr) {
    e.Number? || e.String? || e.Time? || e.Duration?
  }

  lemma LiteralParts(op: Op, l: Expr, r: Expr)
    ensures !IsRegexOp(op) ==> (Printable(Binary(op, l, r)) <==> Printable(l) && Printable(r))
  {
  }

  lemma PlainName()
    ensures Printable(VarRef("v"))
  {
  }

  lemma NameStays(x: Expr)
    ensures Fold(EQ, VarRef("v"), x) == Some(Binary(EQ, VarRef("v"), x))
  {
  }

  /** A sum of strings whose parts together look like a date is read back as a time. */
  lemma FoldedDateIsLost(a: string, b: string, instant: P.Calendar)
    requires LooksLikeDate(a + b)
    ensures var e := Binary(EQ, VarRef("v"), Binary(ADD, String(a), String(b)));
            var r := Binary(EQ, VarRef("v"), String(a + b));
            && (Printable(String(a)) && Printable(String(b)) ==> Printable(e))
            && Reduce(e, Nothing) == Some(r)
            && P.ParseExpr(P.Print(r), instant) != P.Parsed(r, [])
  {
    assert !ReadsBack(String(a + b), true);
    FoldedIsLost(ADD, String(a), String(b), String(a + b), instant);
  }

  /** Two such parts, each of which can be written down. */
  lemma DateFromParts(instant: P.Calendar)
    ensures var r := Binary(EQ, VarRef("v"), String("2015-" + "01-01"));
            && Printable(String("2015-")) && Printable(String("01-01"))
            && Reduce(Binary(EQ, VarRef("v"), Binary(ADD, String("2015-"), String("01-01"))), Nothing) == Some(r)
            && P.ParseExpr(P.Print(r), instant) != P.Parsed(r, [])
  {
    hide *;
    DateParts();
    FoldedDateIsLost("2015-", "01-01", instant);
  }

  lemma DateParts()
    ensures Printable(String("2015-")) && Printable(String("01-01")) && LooksLikeDate("2015-" + "01-01")
  {
    assert "2015-" + "01-01" == "2015-01-01";
  }

  /** A quotient that is not one of thousandths is rounded; one third is such. */
  lemma FoldedQuotientIsLost(a: real, b: real, instant: P.Calendar)
    requires b != 0.0 && !Thousandths(a / b)
    ensures var r := Binary(EQ, VarRef("v"), Number(a / b));
            && Reduce(Binary(EQ, VarRef("v"), Binary(DIV, Number(a), Number(b))), Nothing) == Some(r)
            && P.ParseExpr(P.Print(r), instant) != P.Parsed(r, [])
  {
    assert !ReadsBack(Number(a / b), true);
    FoldedIsLost(DIV, Number(a), Number(b), Number(a / b), instant);
  }

  lemma OneThird(instant: P.Calendar)
    ensures var r := Binary(EQ, VarRef("v"), Number(1.0 / 3.0));
            && Printable(Number(1.0)) && Printable(Number(3.0))
            && Reduce(Binary(EQ, VarRef("v"), Binary(DIV, Number(1.0), Number(3.0))), Nothing) == Some(r)
            && P.ParseExpr(P.Print(r), instant) != P.Parsed(r, [])
  {
    assert (1000.0 * 1.0).Floor == 1000 && (1000.0 * 3.0).Floor == 3000 && (1000.0 * (1.0 / 3.0)).Floor == 333;
    FoldedQuotientIsLost(1.0, 3.0, instant);
  }

  /** The difference of two times that is not one of whole milliseconds loses its unit. */
  lemma FoldedDifferenceIsLost(s: int, t: int, instant: P.Calendar)
    requires (s - t) % MILLISECOND != 0
    ensures var r := Binary(EQ, VarRef("v"), Duration(s - t));
            && Reduce(Binary(EQ, VarRef("v"), Binary(SUB, Time(s), Time(t))), Nothing) == Some(r)
            && P.ParseExpr(P.Print(r), instant) != P.Parsed(r, [])
  {
    assert !ReadsBack(Duration(s - t), true) && Fold(SUB, Time(s), Time(t)) == Some(Duration(s - t));
    hide Fold, Reduce, ReadsBack, P.ParseExpr, P.Print;
    FoldedIsLost(SUB, Time(s), Time(t), Duration(s - t), instant);
  }

  // ----- Folding again changes nothing -----

  lemma {:induction false} RedIdempotent(e: Expr, x: Expr)
    requires Red(e, Nothing) == Some(x)
    ensures Red(x, Nothing) == Some(x)
    decreases e
  {
    match e
    case Binary(op, l, r) =>
      var l', r' := Red(l, Nothing).value, Red(r, Nothing).value;
      RedIdempotent(l, l');
      RedIdempotent(r, r');
      FoldShape(op, l', r');
      hide Fold;
      if Leaf(x) {
        LeafIsFolded(x);
      }
    case Paren(y) => RedIdempotent(y, Red(y, Nothing).value);
    case Call(f, args) => RedArgsIdempotent(args, RedArgs(args, Nothing).value);
    case _ =>
  }

  lemma LeafIsFolded(x: Expr)
    requires Leaf(x)
    ensures Red(x, Nothing) == Some(x)
  {
  }

  lemma {:induction false} RedArgsIdempotent(args: seq<Expr>, xs: seq<Expr>)
    requires RedArgs(args, Nothing) == Some(xs)
    ensures RedArgs(xs, Nothing) == Some(xs)
    decreases args
  {
    if args != [] {
      RedIdempotent(args[0], Red(args[0], Nothing).value);
      RedArgsIdempotent(args[1..], RedArgs(args[1..], Nothing).value);
      assert xs[1..] == RedArgs(args[1..], Nothing).value;
    }
  }

  /** What can be folded once can be folded again. */
  lemma {:induction false} RedFoldable(e: Expr, m: Env)
    requires Foldable(e, Nothing, m)
    ensures Red(e, Nothing).Some? && Foldable(Red(e, Nothing).value, Nothing, m)
  {
    RedKeepsValue(e, Nothing, m);
    match e
    case Binary(op, l, r) =>
      RedFoldable(l, m);
      RedFoldable(r, m);
      RedKeepsValue(l, Nothing, m);
      RedKeepsValue(r, Nothing, m);
      var l', r' := Red(l, Nothing).value, Red(r, Nothing).value;
      FoldShape(op, l', r');
      hide Fold;
      assert Foldable(Binary(op, l', r'), Nothing, m);
    case Paren(y) => RedFoldable(y, m);
    case _ =>
  }
}
