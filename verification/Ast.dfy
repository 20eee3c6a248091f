/**
 InfluxQL expressions (influxql/ast.go, influxql/token.go): the tree, operator
 precedence, the in-order reading of a tree, and the normal form the parser
 builds.
 */
module Ast {
  import opened Sequences

  datatype Op = ADD | SUB | MUL | DIV | AND | OR | EQ | NEQ | EQREGEX | NEQREGEX | LT | LTE | GT | GTE

  function Precedence(op: Op): (p: nat)
    ensures 1 <= p <= 5
  {
    match op
    case OR => 1
    case AND => 2
    case EQ | NEQ | EQREGEX | NEQREGEX | LT | LTE | GT | GTE => 3
    case ADD | SUB => 4
    case MUL | DIV => 5
  }

  predicate IsRegexOp(op: Op) {
    op == EQREGEX || op == NEQREGEX
  }

  /** Numbers are exact, times and durations are nanoseconds, a regex is its text. */
  datatype Expr =
    | VarRef(name: string)
    | Call(func: string, args: seq<Expr>)
    | Distinct(field: string)
    | Number(r: real)
    | Boolean(b: bool)
    | String(s: string)
    | Time(t: int)
    | Duration(d: int)
    | NilLiteral
    | Wildcard
    | Regex(re: string)
    | Paren(e: Expr)
    | Binary(op: Op, lhs: Expr, rhs: Expr)

  // ----- In-order reading -----

  datatype Item = Operand(e: Expr) | Operator(op: Op)

  function Reading(e: Expr): (r: seq<Item>)
    ensures r != [] && r[0].Operand?
  {
    if e.Binary? then Reading(e.lhs) + [Operator(e.op)] + Reading(e.rhs) else [Operand(e)]
  }

  /** Left children bind at least as tightly as their parent, right children strictly tighter. */
  ghost predicate Bound(e: Expr) {
    e.Binary? ==>
      && Bound(e.lhs) && Bound(e.rhs)
      && (e.lhs.Binary? ==> Precedence(e.lhs.op) >= Precedence(e.op))
      && (e.rhs.Binary? ==> Precedence(e.rhs.op) > Precedence(e.op))
  }

  ghost predicate OpsAtLeast(r: seq<Item>, p: int) {
    forall i :: 0 <= i < |r| && r[i].Operator? ==> Precedence(r[i].op) >= p
  }

  lemma {:induction false} BoundOps(e: Expr)
    requires Bound(e) && e.Binary?
    ensures OpsAtLeast(Reading(e.lhs), Precedence(e.op))
    ensures OpsAtLeast(Reading(e.rhs), Precedence(e.op) + 1)
  {
    if e.lhs.Binary? {
      BoundOps(e.lhs);
    }
    if e.rhs.Binary? {
      BoundOps(e.rhs);
    }
  }

  /** Position p holds the last of the loosest operators of a reading. */
  ghost predicate LastLoosest(r: seq<Item>, p: int) {
    && 0 <= p < |r| && r[p].Operator?
    && (forall i :: 0 <= i < p && r[i].Operator? ==> Precedence(r[i].op) >= Precedence(r[p].op))
    && (forall i :: p < i < |r| && r[i].Operator? ==> Precedence(r[i].op) > Precedence(r[p].op))
  }

  lemma RootIsLastLoosest(e: Expr)
    requires Bound(e) && e.Binary?
    ensures LastLoosest(Reading(e), |Reading(e.lhs)|)
  {
    BoundOps(e);
    var r, p := Reading(e), |Reading(e.lhs)|;
    assert forall i :: p < i < |r| ==> r[i] == Reading(e.rhs)[i - p - 1];
  }

  lemma LastLoosestUnique(r: seq<Item>, p: int, q: int)
    requires LastLoosest(r, p) && LastLoosest(r, q)
    ensures p == q
  {
  }

  /** A reading has only one bound tree. */
  lemma {:induction false} BoundUnique(e: Expr, f: Expr)
    requires Bound(e) && Bound(f) && Reading(e) == Reading(f)
    ensures e == f
  {
    assert e.Binary? <==> |Reading(e)| > 1;
    assert f.Binary? <==> |Reading(f)| > 1;
    if e.Binary? {
      var r, p := Reading(e), |Reading(e.lhs)|;
      RootIsLastLoosest(e);
      RootIsLastLoosest(f);
      LastLoosestUnique(r, p, |Reading(f.lhs)|);
      assert Reading(e.lhs) == r[..p] == Reading(f.lhs);
      assert Reading(e.rhs) == r[p + 1..] == Reading(f.rhs);
      assert r[p] == Operator(e.op) == Operator(f.op);
      BoundUnique(e.lhs, f.lhs);
      BoundUnique(e.rhs, f.rhs);
    }
  }

  /** The operators, from the loosest to the tightest. */
  const CLASSES: seq<set<Op>> := [{OR}, {AND}, {EQ, NEQ, EQREGEX, NEQREGEX, LT, LTE, GT, GTE}, {ADD, SUB}, {MUL, DIV}]

  predicate TighterThan(q: Op, p: Op) {
    exists i, j :: 0 <= i < j < |CLASSES| && p in CLASSES[i] && q in CLASSES[j]
  }

  lemma ClassOf(op: Op)
    ensures forall k :: 0 <= k < |CLASSES| ==> (op in CLASSES[k] <==> k == Precedence(op) - 1)
  {
  }

  lemma TighterIsHigher(q: Op, p: Op)
    ensures TighterThan(q, p) <==> Precedence(q) > Precedence(p)
  {
    ClassOf(q);
    ClassOf(p);
    hide Precedence;
    if Precedence(q) > Precedence(p) {
      assert p in CLASSES[Precedence(p) - 1] && q in CLASSES[Precedence(q) - 1];
    }
  }

  /** A bound tree is split at the last of its loosest operators. */
  lemma SplitsAtLoosest(e: Expr)
    requires Bound(e) && e.Binary?
    ensures forall o: Op :: Operator(o) in Reading(e) ==> !TighterThan(e.op, o)
    ensures forall o: Op :: Operator(o) in Reading(e.rhs) ==> TighterThan(o, e.op)
  {
    BoundOps(e);
    hide TighterThan, Precedence;
    forall o: Op | Operator(o) in Reading(e) ensures !TighterThan(e.op, o) {
      TighterIsHigher(e.op, o);
    }
    forall o: Op | Operator(o) in Reading(e.rhs) ensures TighterThan(o, e.op) {
      TighterIsHigher(o, e.op);
    }
  }

  // ----- Insertion into the right spine -----

  /** The tree after appending `op rhs`: below every looser operator of the right spine. */
  function Insert(t: Expr, op: Op, rhs: Expr): Expr {
    if t.Binary? && Precedence(t.op) < Precedence(op) then Binary(t.op, t.lhs, Insert(t.rhs, op, rhs))
    else Binary(op, t, rhs)
  }

  /** Insertion appends to the reading and keeps the tree bound. */
  lemma {:induction false} InsertReads(t: Expr, op: Op, rhs: Expr)
    requires Bound(t) && !rhs.Binary?
    ensures Bound(Insert(t, op, rhs))
    ensures Reading(Insert(t, op, rhs)) == Reading(t) + [Operator(op), Operand(rhs)]
  {
    hide Precedence;
    var more := [Operator(op), Operand(rhs)];
    if t.Binary? && Precedence(t.op) < Precedence(op) {
      InsertReads(t.rhs, op, rhs);
      Regroup(Reading(t.lhs), [Operator(t.op)], Reading(t.rhs), more, []);
    } else {
      assert [Operator(op)] + [Operand(rhs)] == more;
      Regroup(Reading(t), [], [Operator(op)], [Operand(rhs)], []);
    }
  }

  /** Appends operator-operand pairs one after the other, as the loop of `ParseExpr` does. */
  function Build(t: Expr, more: seq<(Op, Expr)>): Expr
    decreases |more|
  {
    if more == [] then t else Build(Insert(t, more[0].0, more[0].1), more[1..])
  }

  function ItemsOf(more: seq<(Op, Expr)>): seq<Item> {
    if more == [] then [] else [Operator(more[0].0), Operand(more[0].1)] + ItemsOf(more[1..])
  }

  ghost predicate Operands(more: seq<(Op, Expr)>) {
    forall i :: 0 <= i < |more| ==> !more[i].1.Binary?
  }

  lemma {:induction false} BuildReads(t: Expr, more: seq<(Op, Expr)>)
    requires Bound(t) && Operands(more)
    ensures Bound(Build(t, more))
    ensures Reading(Build(t, more)) == Reading(t) + ItemsOf(more)
    decreases |more|
  {
    hide Bound, Insert, Reading, Precedence;
    if more != [] {
      InsertReads(t, more[0].0, more[0].1);
      BuildReads(Insert(t, more[0].0, more[0].1), more[1..]);
      assert Reading(t) + ItemsOf(more)
          == Reading(t) + [Operator(more[0].0), Operand(more[0].1)] + ItemsOf(more[1..]);
    }
  }

  /** Right-spine insertion builds the one bound tree that reads as the input. */
  lemma BuildExact(first: Expr, more: seq<(Op, Expr)>)
    requires !first.Binary? && Operands(more)
    ensures Bound(Build(first, more))
    ensures Reading(Build(first, more)) == [Operand(first)] + ItemsOf(more)
    ensures forall t :: Bound(t) && Reading(t) == [Operand(first)] + ItemsOf(more) ==> t == Build(first, more)
  {
    BuildReads(first, more);
    forall t | Bound(t) && Reading(t) == [Operand(first)] + ItemsOf(more) ensures t == Build(first, more) {
      BoundUnique(t, Build(first, more));
    }
  }

  // ----- A tree as its first operand and the pairs after it -----

  function First(e: Expr): (x: Expr)
    ensures !x.Binary?
  {
    if e.Binary? then First(e.lhs) else e
  }

  function More(e: Expr): seq<(Op, Expr)> {
    if e.Binary? then More(e.lhs) + [(e.op, First(e.rhs))] + More(e.rhs) else []
  }

  lemma {:induction false} ItemsOfAppend(a: seq<(Op, Expr)>, b: seq<(Op, Expr)>)
    ensures ItemsOf(a + b) == ItemsOf(a) + ItemsOf(b)
  {
    if a == [] {
      assert a + b == b;
    } else {
      ItemsOfAppend(a[1..], b);
      assert (a + b)[1..] == a[1..] + b;
      Assoc([Operator(a[0].0), Operand(a[0].1)], ItemsOf(a[1..]), ItemsOf(b));
    }
  }

  lemma ItemsOfMiddle(a: seq<(Op, Expr)>, op: Op, x: Expr, b: seq<(Op, Expr)>)
    ensures ItemsOf(a + [(op, x)] + b) == ItemsOf(a) + ([Operator(op)] + [Operand(x)] + ItemsOf(b))
  {
    assert a + [(op, x)] + b == a + ([(op, x)] + b);
    ItemsOfAppend(a, [(op, x)] + b);
    assert ([(op, x)] + b)[1..] == b;
  }

  lemma {:induction false} ReadingIsFirstMore(e: Expr)
    ensures Operands(More(e))
    ensures Reading(e) == [Operand(First(e))] + ItemsOf(More(e))
  {
    hide Precedence;
    if e.Binary? {
      ReadingIsFirstMore(e.lhs);
      ReadingIsFirstMore(e.rhs);
      var l, r, x := More(e.lhs), More(e.rhs), First(e.rhs);
      ItemsOfMiddle(l, e.op, x, r);
      hide ItemsOf;
      assert Reading(e) == Reading(e.lhs) + [Operator(e.op)] + Reading(e.rhs);
      hide Reading;
      Regroup([Operand(First(e))], ItemsOf(l), [Operator(e.op)], [Operand(x)], ItemsOf(r));
    }
  }

  /** A bound tree is rebuilt from its own operands and operators. */
  lemma Rebuild(e: Expr)
    requires Bound(e)
    ensures Build(First(e), More(e)) == e
  {
    ReadingIsFirstMore(e);
    BuildExact(First(e), More(e));
  }

  // ----- Normal form -----

  function LowerChar(c: char): char {
    if 'A' <= c <= 'Z' then c - 'A' + 'a' else c
  }

  /** `strings.ToLower`, on the letters A to Z. */
  function Lower(s: string): (r: string)
    ensures |r| == |s| && forall i :: 0 <= i < |s| ==> r[i] == LowerChar(s[i])
  {
    seq(|s|, i requires 0 <= i < |s| => LowerChar(s[i]))
  }

  /** Lower case leaves all but the letters A to Z as it is, and these become the letters a to z in turn. */
  lemma LowerExact(s: string, i: nat)
    requires i < |s|
    ensures var c, c' := s[i], Lower(s)[i];
      && (c < 'A' || c > 'Z' ==> c' == c)
      && ('A' <= c <= 'Z' ==> 'a' <= c' <= 'z' && c' as int - 'a' as int == c as int - 'A' as int)
  {
  }

  /**
   What the parser builds: bound trees whose regex operators are followed by a
   regex, all the way down, with lower-case function names.
   */
  ghost predicate Normal(e: Expr) {
    match e
    case Binary(op, l, r) =>
      && Normal(l) && Normal(r)
      && (l.Binary? ==> Precedence(l.op) >= Precedence(op))
      && (r.Binary? ==> Precedence(r.op) > Precedence(op))
      && (IsRegexOp(op) ==> First(r).Regex?)
    case Paren(x) => Normal(x)
    case Call(f, args) => Lower(f) == f && forall i :: 0 <= i < |args| ==> Normal(args[i])
    case _ => true
  }

  lemma {:induction false} NormalIsBound(e: Expr)
    requires Normal(e)
    ensures Bound(e)
  {
    if e.Binary? {
      NormalIsBound(e.lhs);
      NormalIsBound(e.rhs);
    }
  }

  lemma {:induction false} InsertNormal(t: Expr, op: Op, rhs: Expr)
    requires Normal(t) && Normal(rhs) && !rhs.Binary? && (IsRegexOp(op) ==> rhs.Regex?)
    ensures Normal(Insert(t, op, rhs)) && First(Insert(t, op, rhs)) == First(t)
  {
    hide Precedence, Lower, LowerChar;
    if t.Binary? && Precedence(t.op) < Precedence(op) {
      InsertNormal(t.rhs, op, rhs);
    }
  }

  predicate IsDigit(c: char) {
    '0' <= c <= '9'
  }

  /** A quoted string of this shape is read as a time, not as a string. */
  predicate LooksLikeDate(s: string) {
    && |s| >= 10
    && IsDigit(s[0]) && IsDigit(s[1]) && IsDigit(s[2]) && IsDigit(s[3]) && s[4] == '-'
    && IsDigit(s[5]) && IsDigit(s[6]) && s[7] == '-' && IsDigit(s[8]) && IsDigit(s[9])
    && (|s| == 10 || s[10] != '\n')
  }

  // ----- Leaves that survive being printed -----

  /** `FormatFloat(r, 'f', 3, 64)`: the nearest thousandth, the even one of two. */
  function Round3(r: real): real {
    var f := (1000.0 * r).Floor;
    var part := 1000.0 * r - f as real;
    (if part < 0.5 || (part == 0.5 && f % 2 == 0) then f else f + 1) as real / 1000.0
  }

  predicate Thousandths(r: real) {
    (1000.0 * r).Floor as real == 1000.0 * r
  }

  lemma Round3Exact(r: real)
    ensures Round3(r) == r <==> Thousandths(r)
    ensures Thousandths(Round3(r))
  {
    var f := (1000.0 * r).Floor;
    var k := if 1000.0 * r - f as real < 0.5 || (1000.0 * r - f as real == 0.5 && f % 2 == 0) then f else f + 1;
    assert 1000.0 * Round3(r) == k as real;
  }

  /** No thousandth is nearer; of two that are as near, the even one is taken. */
  lemma Round3Nearest(r: real, k: int)
    ensures var x := Round3(r);
      && Distance(x, r) <= Distance(k as real / 1000.0, r)
      && (Distance(x, r) == Distance(k as real / 1000.0, r) ==> x == k as real / 1000.0 || (1000.0 * x).Floor % 2 == 0)
  {
    var f := (1000.0 * r).Floor;
    var part := 1000.0 * r - f as real;
    var n := if part < 0.5 || (part == 0.5 && f % 2 == 0) then f else f + 1;
    assert 1000.0 * Round3(r) == n as real;
    assert (1000.0 * Round3(r)).Floor == n;
    if k <= f {
      assert k as real <= f as real;
    } else {
      assert k as real >= (f + 1) as real;
    }
  }

  function Distance(x: real, y: real): real {
    if x < y then y - x else x - y
  }

  const MILLISECOND: int := 1_000_000
  const DAY_LENGTH: int := 86_400_000_000_000

  /** The microseconds of a duration, cut off toward zero. */
  function Micros(d: int): int {
    if d >= 0 then d / 1000 else -((-d) / 1000)
  }

  /** A microsecond is a thousand nanoseconds, and what is left is of the duration's sign. */
  lemma MicrosExact(d: int)
    ensures var rest := d - 1000 * Micros(d);
      -1000 < rest < 1000 && (d >= 0 ==> rest >= 0) && (d <= 0 ==> rest <= 0)
  {
  }

  /** Times of the years 0000 to 9999; the year of any other time is not printed with four digits. */
  predicate FourDigitYear(t: int) {
    -366 * DAY_LENGTH <= t < 3_652_059 * DAY_LENGTH
  }

  /** Without the characters that the scanner takes for a new line or for the end of the text. */
  predicate Clean(s: string) {
    forall i :: 0 <= i < |s| ==> s[i] != '\r' && s[i] != '\0'
  }

  const KEYWORDS: set<string> := {
    "all", "alter", "any", "as", "asc", "begin", "by", "create", "continuous", "database", "databases", "default",
    "delete", "desc", "destinations", "diagnostics", "distinct", "drop", "duration", "end", "exists", "explain",
    "field", "for", "force", "from", "grant", "grants", "group", "if", "in", "inf", "inner", "insert", "into", "key",
    "keys", "limit", "measurement", "measurements", "not", "offset", "on", "order", "password", "policy", "policies",
    "privileges", "queries", "query", "read", "replication", "retention", "revoke", "select", "series", "server",
    "servers", "set", "show", "shards", "slimit", "soffset", "stats", "subscription", "subscriptions", "tag", "to",
    "user", "users", "values", "where", "with", "write", "and", "or", "true", "false"
  }

  predicate Reserved(word: string) {
    word != "" && word in KEYWORDS
  }

  predicate IsIdentFirst(c: char) {
    'a' <= c <= 'z' || 'A' <= c <= 'Z' || c == '_'
  }

  /** A name that scans as itself without quotes. */
  predicate Bare(s: string) {
    && s != "" && IsIdentFirst(s[0])
    && (forall i :: 0 <= i < |s| ==> IsIdentFirst(s[i]) || IsDigit(s[i]))
    && !Reserved(Lower(s))
  }

  /** A regex text that scans as itself: a backslash at its end would make the closing slash part of it. */
  predicate RegexText(re: string) {
    && Clean(re) && (forall i :: 0 <= i < |re| ==> re[i] != '\n')
    && (re == "" || re[|re| - 1] != '\\')
  }

  /** Whether the text of a leaf scans as that kind of leaf; `after` says that it follows a regex operator. */
  predicate WritableLeaf(e: Expr, after: bool) {
    match e
    case VarRef(n) => n != "" && Clean(n)
    case Distinct(v) => Bare(v)
    case String(s) => Clean(s)
    case Time(t) => FourDigitYear(t)
    case Regex(re) => after && RegexText(re)
    case _ => true
  }

  /** The names of calls are printed without quotes. */
  predicate WritableName(f: string) {
    f == "distinct" || Bare(f)
  }

  /** Every part of the text scans as what it was printed from. */
  ghost predicate Writable(e: Expr, after: bool) {
    match e
    case Binary(op, l, r) => Writable(l, after) && Writable(r, IsRegexOp(op))
    case Paren(x) => Writable(x, false)
    case Call(f, args) => WritableName(f) && forall i :: 0 <= i < |args| ==> Writable(args[i], false)
    case _ => WritableLeaf(e, after)
  }

  /** Every leaf, once scanned, has the value it was printed from; inexact numbers and durations may be let through. */
  ghost predicate ReadsBack(e: Expr, exact: bool) {
    match e
    case Binary(_, l, r) => ReadsBack(l, exact) && ReadsBack(r, exact)
    case Paren(x) => ReadsBack(x, exact)
    case Call(_, args) => forall i :: 0 <= i < |args| ==> ReadsBack(args[i], exact)
    case Number(r) => exact ==> Thousandths(r)
    case Duration(d) => exact ==> d % MILLISECOND == 0
    case String(s) => !LooksLikeDate(s)
    case NilLiteral => false
    case _ => true
  }

  /** Every leaf is one the language can write down as itself. */
  ghost predicate Printable(e: Expr) {
    Writable(e, false) && ReadsBack(e, true)
  }

  lemma ReadsBackParts(op: Op, l: Expr, r: Expr, exact: bool)
    ensures ReadsBack(Binary(op, l, r), exact) <==> ReadsBack(l, exact) && ReadsBack(r, exact)
  {
  }

  lemma {:induction false} InsertReadsBack(t: Expr, op: Op, rhs: Expr, exact: bool)
    requires ReadsBack(t, exact) && ReadsBack(rhs, exact)
    ensures ReadsBack(Insert(t, op, rhs), exact)
  {
    hide Precedence, ReadsBack;
    ReadsBackParts(op, t, rhs, exact);
    if t.Binary? && Precedence(t.op) < Precedence(op) {
      ReadsBackParts(t.op, t.lhs, t.rhs, exact);
      InsertReadsBack(t.rhs, op, rhs, exact);
      ReadsBackParts(t.op, t.lhs, Insert(t.rhs, op, rhs), exact);
    }
  }
}
