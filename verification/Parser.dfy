/**
 The expression grammar of InfluxQL (influxql/parser.go) over tokens, and the
 printer it must undo: a query travels to remote shards as its printed text.

 An identifier token stands for a whole dotted reference. `INSTANT` is a quoted
 string holding a printed time; `instant` says which time, if any, a string
 that looks like a date denotes. `OTHER` is any token no operand starts with; the
 printer writes it for a text that does not scan as the leaf it was printed from.
 */
module Parser {
  import opened Values
  import opened Ast
  import opened Sequences

  datatype Token =
    | OP(op: Op) | LPAREN | RPAREN | COMMA
    | IDENT(name: string) | DISTINCT
    | NUMBER(r: real) | STRING(s: string) | INSTANT(t: int) | DURATION(d: int)
    | TRUE | FALSE | REGEX(re: string)
    | OTHER

  type Calendar = string -> Option<int>

  // ----- Printing -----

  function NameToken(f: string): Token {
    if f == "distinct" then DISTINCT else IDENT(f)
  }

  function NumberToken(r: real): Token {
    NUMBER(Round3(r))
  }

  /** `FormatDuration`: without a unit, a number, unless the duration is one of whole milliseconds. */
  function DurationToken(d: int): Token {
    if d % MILLISECOND == 0 then DURATION(d) else NUMBER(Micros(d) as real)
  }

  function PrintLeaf(e: Expr): (ts: seq<Token>)
    ensures ts != []
  {
    match e
    case VarRef(n) => [IDENT(n)]
    case Distinct(v) => [DISTINCT, IDENT(v)]
    case Number(r) => [NumberToken(r)]
    case Boolean(b) => [if b then TRUE else FALSE]
    case String(s) => [STRING(s)]
    case Time(t) => [INSTANT(t)]
    case Duration(d) => [DurationToken(d)]
    case NilLiteral => [IDENT("nil")]
    case Wildcard => [OP(MUL)]
    case Regex(re) => [REGEX(re)]
    case _ => [OTHER]
  }

  /** `Expr.String()`, as tokens; `after` says that the text follows a regex operator. */
  function PrintAt(e: Expr, after: bool): (ts: seq<Token>)
    ensures ts != []
    decreases e
  {
    match e
    case Call(f, args) => [if WritableName(f) then NameToken(f) else OTHER, LPAREN] + PrintArgs(args) + [RPAREN]
    case Paren(x) => [LPAREN] + PrintAt(x, false) + [RPAREN]
    case Binary(op, l, r) => PrintAt(l, after) + [OP(op)] + PrintAt(r, IsRegexOp(op))
    case _ => if WritableLeaf(e, after) then PrintLeaf(e) else [OTHER]
  }

  function Print(e: Expr): seq<Token> {
    PrintAt(e, false)
  }

  function PrintArgs(args: seq<Expr>): seq<Token>
    decreases args
  {
    if |args| == 0 then []
    else if |args| == 1 then PrintAt(args[0], false)
    else PrintAt(args[0], false) + [COMMA] + PrintArgs(args[1..])
  }

  // ----- Parsing -----

  datatype Parsed = Fail | Parsed(e: Expr, rest: seq<Token>)
  datatype ParsedArgs = FailArgs | ParsedArgs(args: seq<Expr>, rest: seq<Token>)

  function ParseExpr(ts: seq<Token>, instant: Calendar): (r: Parsed)
    ensures r.Parsed? ==> |r.rest| < |ts|
    decreases |ts|, 2
  {
    match ParseUnary(ts, instant)
    case Fail => Fail
    case Parsed(e, rest) => ParseMore(e, rest, instant)
  }

  /** The loop of `ParseExpr`: operators and operands, inserted one by one. */
  function ParseMore(root: Expr, ts: seq<Token>, instant: Calendar): (r: Parsed)
    ensures r.Parsed? ==> |r.rest| <= |ts|
    decreases |ts|, 1
  {
    if ts == [] || !ts[0].OP? then Parsed(root, ts)
    else
      match ParseRhs(ts[0].op, ts[1..], instant)
      case Fail => Fail
      case Parsed(rhs, rest) => ParseMore(Insert(root, ts[0].op, rhs), rest, instant)
  }

  /** The operand after an operator: after a regex operator, a regex. */
  function ParseRhs(op: Op, ts: seq<Token>, instant: Calendar): (r: Parsed)
    ensures r.Parsed? ==> |r.rest| < |ts|
    decreases |ts|, 1
  {
    if IsRegexOp(op) then
      if ts != [] && ts[0].REGEX? then Parsed(Regex(ts[0].re), ts[1..]) else Fail
    else ParseUnary(ts, instant)
  }

  function ParseUnary(ts: seq<Token>, instant: Calendar): (r: Parsed)
    ensures r.Parsed? ==> |r.rest| < |ts|
    decreases |ts|, 0
  {
    if ts == [] then Fail
    else match ts[0]
      case LPAREN =>
        (match ParseExpr(ts[1..], instant)
         case Fail => Fail
         case Parsed(e, rest) => if rest != [] && rest[0] == RPAREN then Parsed(Paren(e), rest[1..]) else Fail)
      case IDENT(n) =>
        if |ts| > 1 && ts[1] == LPAREN then ParseCall(Lower(n), ts[2..], instant) else Parsed(VarRef(n), ts[1..])
      case DISTINCT =>
        if |ts| > 1 && ts[1] == LPAREN then ParseCall("distinct", ts[2..], instant)
        else if |ts| > 1 && ts[1].IDENT? then Parsed(Distinct(ts[1].name), ts[2..])
        else Fail
      case STRING(s) =>
        if !LooksLikeDate(s) then Parsed(String(s), ts[1..])
        else if instant(s).Some? then Parsed(Time(instant(s).value), ts[1..])
        else Fail
      case INSTANT(t) => Parsed(Time(t), ts[1..])
      case NUMBER(r) => Parsed(Number(r), ts[1..])
      case TRUE => Parsed(Boolean(true), ts[1..])
      case FALSE => Parsed(Boolean(false), ts[1..])
      case DURATION(d) => Parsed(Duration(d), ts[1..])
      case OP(op) => if op == MUL then Parsed(Wildcard, ts[1..]) else Fail
      case REGEX(re) => Parsed(Regex(re), ts[1..])
      case _ => Fail
  }

  /** The arguments of a call, after its name and left parenthesis. */
  function ParseCall(name: string, ts: seq<Token>, instant: Calendar): (r: Parsed)
    ensures r.Parsed? ==> |r.rest| < |ts|
    decreases |ts|, 4
  {
    if ts != [] && ts[0] == RPAREN then Parsed(Call(name, []), ts[1..])
    else match ParseArgs(ts, instant)
      case FailArgs => Fail
      case ParsedArgs(args, rest) =>
        if rest != [] && rest[0] == RPAREN then Parsed(Call(name, args), rest[1..]) else Fail
  }

  function ParseArgs(ts: seq<Token>, instant: Calendar): (r: ParsedArgs)
    ensures r.ParsedArgs? ==> |r.rest| < |ts|
    decreases |ts|, 3
  {
    match ParseExpr(ts, instant)
    case Fail => FailArgs
    case Parsed(e, rest) =>
      if rest != [] && rest[0] == COMMA then
        match ParseArgs(rest[1..], instant)
        case FailArgs => FailArgs
        case ParsedArgs(args, rest') => ParsedArgs([e] + args, rest')
      else ParsedArgs([e], rest)
  }

  // ----- What the parser builds, and from what -----

  /** Numbers in thousandths and durations in whole milliseconds, as the printer writes them. */
  predicate ExactToken(t: Token) {
    (t.NUMBER? ==> Thousandths(t.r)) && (t.DURATION? ==> t.d % MILLISECOND == 0)
  }

  predicate AllExact(ts: seq<Token>) {
    forall i :: 0 <= i < |ts| ==> ExactToken(ts[i])
  }

  /** What is left of `ts`, nothing of `OTHER` having been read. */
  predicate Eaten(ts: seq<Token>, rest: seq<Token>) {
    && |rest| <= |ts| && rest == ts[|ts| - |rest|..]
    && forall i :: 0 <= i < |ts| - |rest| ==> ts[i] != OTHER
  }

  lemma EatenMore(ts: seq<Token>, mid: seq<Token>, rest: seq<Token>)
    requires Eaten(ts, mid) && Eaten(mid, rest)
    ensures Eaten(ts, rest)
  {
    var n, m := |ts| - |mid|, |ts| - |rest|;
    assert rest == ts[m..];
    forall i | 0 <= i < m ensures ts[i] != OTHER {
      if i >= n {
        assert mid[i - n] == ts[i];
      }
    }
  }

  lemma EatOne(ts: seq<Token>)
    requires ts != [] && ts[0] != OTHER
    ensures Eaten(ts, ts[1..])
  {
  }

  ghost predicate GoodTree(ts: seq<Token>, e: Expr) {
    Normal(e) && ReadsBack(e, false) && (AllExact(ts) ==> ReadsBack(e, true))
  }

  ghost predicate Good(ts: seq<Token>, r: Parsed) {
    r.Parsed? ==> GoodTree(ts, r.e) && Eaten(ts, r.rest)
  }

  ghost predicate GoodOperand(ts: seq<Token>, r: Parsed) {
    Good(ts, r) && (r.Parsed? ==> !r.e.Binary?)
  }

  ghost predicate GoodArgs(ts: seq<Token>, r: ParsedArgs) {
    r.ParsedArgs? ==> Eaten(ts, r.rest) && forall i :: 0 <= i < |r.args| ==> GoodTree(ts, r.args[i])
  }

  lemma EatenExact(ts: seq<Token>, rest: seq<Token>)
    requires Eaten(ts, rest)
    ensures AllExact(ts) ==> AllExact(rest)
  {
    var n := |ts| - |rest|;
    forall i | AllExact(ts) && 0 <= i < |rest| ensures ExactToken(rest[i]) {
      assert rest[i] == ts[n + i];
    }
  }

  lemma {:induction false} ParseExprGood(ts: seq<Token>, instant: Calendar)
    ensures Good(ts, ParseExpr(ts, instant))
    decreases |ts|, 2
  {
    hide GoodTree, Eaten, AllExact, ParseUnary, ParseMore;
    ParseUnaryGood(ts, instant);
    var r := ParseUnary(ts, instant);
    if r.Parsed? {
      EatenExact(ts, r.rest);
      ParseMoreGood(r.e, ts, r.rest, instant);
    }
  }

  lemma InsertGood(all: seq<Token>, root: Expr, op: Op, rhs: Expr)
    requires GoodTree(all, root) && GoodTree(all, rhs) && !rhs.Binary? && (IsRegexOp(op) ==> rhs.Regex?)
    ensures GoodTree(all, Insert(root, op, rhs))
  {
    hide Normal, ReadsBack, Insert;
    InsertNormal(root, op, rhs);
    InsertReadsBack(root, op, rhs, false);
    if AllExact(all) {
      InsertReadsBack(root, op, rhs, true);
    }
  }

  lemma LaterTree(all: seq<Token>, ts: seq<Token>, e: Expr)
    requires Eaten(all, ts) && GoodTree(ts, e)
    ensures GoodTree(all, e)
  {
    hide Normal, ReadsBack, Eaten, AllExact;
    EatenExact(all, ts);
  }

  lemma RhsGood(op: Op, ts: seq<Token>, instant: Calendar)
    requires GoodOperand(ts, ParseUnary(ts, instant))
    ensures GoodOperand(ts, ParseRhs(op, ts, instant))
    ensures IsRegexOp(op) && ParseRhs(op, ts, instant).Parsed? ==> ParseRhs(op, ts, instant).e.Regex?
  {
    hide ParseUnary;
    if IsRegexOp(op) && ts != [] && ts[0].REGEX? {
      EatOne(ts);
    }
  }

  lemma {:induction false} ParseMoreGood(root: Expr, all: seq<Token>, ts: seq<Token>, instant: Calendar)
    requires GoodTree(all, root) && Eaten(all, ts)
    ensures Good(all, ParseMore(root, ts, instant))
    decreases |ts|, 1
  {
    hide GoodTree, Eaten, AllExact, ParseUnary, ParseRhs, Insert;
    if ts != [] && ts[0].OP? {
      var op := ts[0].op;
      ParseUnaryGood(ts[1..], instant);
      RhsGood(op, ts[1..], instant);
      var r := ParseRhs(op, ts[1..], instant);
      if r.Parsed? {
        EatOne(ts);
        EatenMore(all, ts, ts[1..]);
        LaterTree(all, ts[1..], r.e);
        InsertGood(all, root, op, r.e);
        EatenMore(all, ts[1..], r.rest);
        ParseMoreGood(Insert(root, op, r.e), all, r.rest, instant);
      }
    }
  }

  lemma {:induction false} ParseUnaryGood(ts: seq<Token>, instant: Calendar)
    ensures GoodOperand(ts, ParseUnary(ts, instant))
    decreases |ts|, 1
  {
    if ts != [] {
      match ts[0] {
        case LPAREN => ParseParenGood(ts, instant);
        case IDENT(n) =>
          if |ts| > 1 && ts[1] == LPAREN {
            assert Lower(Lower(n)) == Lower(n);
            ParseCallGood(Lower(n), ts, instant);
          }
        case DISTINCT =>
          if |ts| > 1 && ts[1] == LPAREN {
            assert Lower("distinct") == "distinct";
            ParseCallGood("distinct", ts, instant);
          }
        case _ =>
      }
    }
  }

  lemma {:induction false} ParseParenGood(ts: seq<Token>, instant: Calendar)
    requires ts != [] && ts[0] == LPAREN
    ensures GoodOperand(ts, ParseUnary(ts, instant))
    decreases |ts|, 0
  {
    hide ParseExpr, AllExact;
    ParseExprGood(ts[1..], instant);
    var r := ParseExpr(ts[1..], instant);
    if r.Parsed? && r.rest != [] && r.rest[0] == RPAREN {
      EatOne(ts);
      EatOne(r.rest);
      EatenMore(ts, ts[1..], r.rest);
      EatenMore(ts, r.rest, r.rest[1..]);
      LaterTree(ts, ts[1..], r.e);
    }
  }

  lemma {:induction false} ParseCallGood(name: string, ts: seq<Token>, instant: Calendar)
    requires Lower(name) == name && |ts| > 1 && ts[0] != OTHER && ts[1] == LPAREN
    ensures GoodOperand(ts, ParseCall(name, ts[2..], instant))
    decreases |ts|, 0
  {
    hide ParseArgs, AllExact, Lower;
    assert Eaten(ts, ts[2..]);
    ParseArgsGood(ts[2..], instant);
    var r := ParseArgs(ts[2..], instant);
    if |ts| > 2 && ts[2] == RPAREN {
      EatOne(ts[2..]);
      EatenMore(ts, ts[2..], ts[2..][1..]);
    } else if r.ParsedArgs? && r.rest != [] && r.rest[0] == RPAREN {
      EatOne(r.rest);
      EatenMore(ts, ts[2..], r.rest);
      EatenMore(ts, r.rest, r.rest[1..]);
      forall i | 0 <= i < |r.args| ensures GoodTree(ts, r.args[i]) {
        LaterTree(ts, ts[2..], r.args[i]);
      }
    }
  }

  lemma {:induction false} ParseArgsGood(ts: seq<Token>, instant: Calendar)
    ensures GoodArgs(ts, ParseArgs(ts, instant))
    decreases |ts|, 3
  {
    hide ParseExpr, GoodTree, Eaten, AllExact;
    ParseExprGood(ts, instant);
    var r := ParseExpr(ts, instant);
    if r.Parsed? && r.rest != [] && r.rest[0] == COMMA {
      EatOne(r.rest);
      EatenMore(ts, r.rest, r.rest[1..]);
      ParseArgsGood(r.rest[1..], instant);
      var q := ParseArgs(r.rest[1..], instant);
      if q.ParsedArgs? {
        EatenMore(ts, r.rest[1..], q.rest);
        forall i | 0 <= i < |q.args| ensures GoodTree(ts, q.args[i]) {
          LaterTree(ts, r.rest[1..], q.args[i]);
        }
      }
    }
  }

  // ----- Parsing undoes printing -----

  function Size(e: Expr): (n: nat)
    ensures n >= 1
    decreases e
  {
    match e
    case Binary(_, l, r) => 1 + Size(l) + Size(r)
    case Paren(x) => 1 + Size(x)
    case Call(_, args) => 1 + SizeArgs(args)
    case _ => 1
  }

  function SizeArgs(args: seq<Expr>): nat
    decreases args
  {
    if args == [] then 0 else Size(args[0]) + SizeArgs(args[1..])
  }

  /** Tokens that end an expression: neither an operator nor the start of an argument list. */
  ghost predicate Stops(rest: seq<Token>) {
    rest == [] || !(rest[0].OP? || rest[0].LPAREN?)
  }

  ghost predicate NoCall(rest: seq<Token>) {
    rest == [] || !rest[0].LPAREN?
  }

  function PrintMore(more: seq<(Op, Expr)>): seq<Token> {
    if more == [] then [] else [OP(more[0].0)] + PrintAt(more[0].1, IsRegexOp(more[0].0)) + PrintMore(more[1..])
  }

  lemma {:induction false} PrintMoreAppend(a: seq<(Op, Expr)>, b: seq<(Op, Expr)>)
    ensures PrintMore(a + b) == PrintMore(a) + PrintMore(b)
  {
    hide PrintAt;
    if a == [] {
      assert a + b == b;
    } else {
      PrintMoreAppend(a[1..], b);
      assert (a + b)[1..] == a[1..] + b;
    }
  }

  lemma PrintMoreMiddle(a: seq<(Op, Expr)>, op: Op, x: Expr, b: seq<(Op, Expr)>)
    ensures PrintMore(a + [(op, x)] + b) == PrintMore(a) + ([OP(op)] + PrintAt(x, IsRegexOp(op)) + PrintMore(b))
  {
    hide PrintAt;
    assert a + [(op, x)] + b == a + ([(op, x)] + b);
    PrintMoreAppend(a, [(op, x)] + b);
    assert ([(op, x)] + b)[1..] == b;
  }

  lemma {:induction false} PrintIsFirstMore(e: Expr, after: bool)
    ensures PrintAt(e, after) == PrintAt(First(e), after) + PrintMore(More(e))
  {
    if e.Binary? {
      var regex := IsRegexOp(e.op);
      PrintIsFirstMore(e.lhs, after);
      PrintIsFirstMore(e.rhs, regex);
      var l, r, x := More(e.lhs), More(e.rhs), First(e.rhs);
      PrintMoreMiddle(l, e.op, x, r);
      hide PrintMore;
      assert PrintAt(e, after) == PrintAt(e.lhs, after) + [OP(e.op)] + PrintAt(e.rhs, regex);
      hide PrintAt;
      Regroup(PrintAt(First(e), after), PrintMore(l), [OP(e.op)], PrintAt(x, regex), PrintMore(r));
    }
  }

  ghost predicate Survives(e: Expr, after: bool) {
    Writable(e, after) && ReadsBack(e, true)
  }

  /** An operand that may follow `op`, small enough for the induction. */
  ghost predicate Follows(op: Op, x: Expr, n: nat) {
    !x.Binary? && Normal(x) && Survives(x, IsRegexOp(op)) && Size(x) <= n && (IsRegexOp(op) ==> x.Regex?)
  }

  ghost predicate AllFollow(more: seq<(Op, Expr)>, n: nat) {
    forall i :: 0 <= i < |more| ==> Follows(more[i].0, more[i].1, n)
  }

  lemma {:induction false} PartsFollow(e: Expr, after: bool, n: nat)
    requires Normal(e) && Survives(e, after) && Size(e) <= n
    ensures Normal(First(e)) && Survives(First(e), after) && Size(First(e)) <= n
    ensures AllFollow(More(e), n)
  {
    if e.Binary? {
      PartsFollow(e.lhs, after, n);
      PartsFollow(e.rhs, IsRegexOp(e.op), n);
    }
  }

  /** Parsing the printed form of a normal, printable tree gives the tree back. */
  lemma {:induction false} ParsePrint(e: Expr, rest: seq<Token>, instant: Calendar)
    requires Normal(e) && Printable(e) && Stops(rest)
    ensures ParseExpr(Print(e) + rest, instant) == Parsed(e, rest)
    decreases Size(e), 2
  {
    hide Normal, Writable, ReadsBack, PrintAt, PrintMore, ParseUnary, ParseMore, First, More, Build, Size, Bound, AllFollow;
    PartsFollow(e, false, Size(e));
    PrintIsFirstMore(e, false);
    var tail := PrintMore(More(e)) + rest;
    Assoc(PrintAt(First(e), false), PrintMore(More(e)), rest);
    PrintMoreStart(More(e), rest);
    UnaryPrint(First(e), tail, instant);
    MorePrint(First(e), More(e), Size(e), rest, instant);
    NormalIsBound(e);
    Rebuild(e);
  }

  lemma PrintMoreStart(more: seq<(Op, Expr)>, rest: seq<Token>)
    requires Stops(rest)
    ensures NoCall(PrintMore(more) + rest)
  {
  }

  lemma {:induction false} MorePrint(root: Expr, more: seq<(Op, Expr)>, n: nat, rest: seq<Token>, instant: Calendar)
    requires AllFollow(more, n) && Stops(rest)
    ensures ParseMore(root, PrintMore(more) + rest, instant) == Parsed(Build(root, more), rest)
    decreases n, 1, |more|
  {
    hide Follows, ParseRhs, PrintAt;
    if more == [] {
      assert PrintMore(more) + rest == rest;
    } else {
      var op, x := more[0].0, more[0].1;
      var tail := PrintMore(more[1..]) + rest;
      var ts := PrintMore(more) + rest;
      assert ts == [OP(op)] + (PrintAt(x, IsRegexOp(op)) + tail);
      PrintMoreStart(more[1..], rest);
      RhsPrint(op, x, n, tail, instant);
      assert ts[1..] == PrintAt(x, IsRegexOp(op)) + tail;
      MorePrint(Insert(root, op, x), more[1..], n, rest, instant);
    }
  }

  lemma {:induction false} RhsPrint(op: Op, x: Expr, n: nat, tail: seq<Token>, instant: Calendar)
    requires Follows(op, x, n) && NoCall(tail)
    ensures ParseRhs(op, PrintAt(x, IsRegexOp(op)) + tail, instant) == Parsed(x, tail)
    decreases n, 1, 0
  {
    hide Normal, Writable, ReadsBack, ParseUnary, PrintAt;
    if IsRegexOp(op) {
      RegexPrint(x, tail);
    } else {
      UnaryPrint(x, tail, instant);
    }
  }

  lemma RegexPrint(x: Expr, tail: seq<Token>)
    requires x.Regex? && Survives(x, true)
    ensures var ts := PrintAt(x, true) + tail; ts[0] == REGEX(x.re) && ts[1..] == tail
  {
  }

  lemma {:induction false} UnaryPrint(x: Expr, rest: seq<Token>, instant: Calendar)
    requires !x.Binary? && Normal(x) && Printable(x) && NoCall(rest)
    ensures ParseUnary(Print(x) + rest, instant) == Parsed(x, rest)
    decreases Size(x), 0
  {
    match x {
      case Paren(y) => ParenPrint(y, rest, instant);
      case Call(f, args) => CallPrint(f, args, rest, instant);
      case _ => LeafPrint(x, rest, instant);
    }
  }

  lemma LeafPrint(x: Expr, rest: seq<Token>, instant: Calendar)
    requires !x.Binary? && !x.Paren? && !x.Call? && Printable(x) && NoCall(rest)
    ensures ParseUnary(Print(x) + rest, instant) == Parsed(x, rest)
  {
    hide Round3, Bare, Clean, RegexText, FourDigitYear, Thousandths, LooksLikeDate, Micros;
    var ts := PrintLeaf(x) + rest;
    assert Print(x) == PrintLeaf(x);
    if x.Distinct? {
      assert ts[2..] == rest;
    } else {
      assert ts[1..] == rest;
    }
    if x.Number? {
      Round3Exact(x.r);
    }
  }

  lemma {:induction false} ParenPrint(y: Expr, rest: seq<Token>, instant: Calendar)
    requires Normal(y) && Printable(y)
    ensures ParseUnary(Print(Paren(y)) + rest, instant) == Parsed(Paren(y), rest)
    decreases Size(y), 3
  {
    hide Normal, Printable, ParseExpr, Print;
    ParenShape(y, rest);
    ParsePrint(y, [RPAREN] + rest, instant);
    assert ([RPAREN] + rest)[1..] == rest;
  }

  lemma ParenShape(y: Expr, rest: seq<Token>)
    ensures var ts := Print(Paren(y)) + rest;
      |ts| >= 1 && ts[0] == LPAREN && ts[1..] == Print(y) + ([RPAREN] + rest)
  {
    hide Writable, ReadsBack;
    assert PrintAt(Paren(y), false) == [LPAREN] + PrintAt(y, false) + [RPAREN];
    hide PrintAt;
    var text := PrintAt(y, false);
    Assoc([LPAREN] + text, [RPAREN], rest);
    Assoc([LPAREN], text, [RPAREN] + rest);
    assert Print(Paren(y)) + rest == [LPAREN] + (text + ([RPAREN] + rest));
    assert ([LPAREN] + (text + ([RPAREN] + rest)))[1..] == text + ([RPAREN] + rest);
  }

  lemma CallShape(f: string, args: seq<Expr>, rest: seq<Token>)
    requires WritableName(f)
    ensures var ts := Print(Call(f, args)) + rest;
      |ts| >= 2 && ts[0] == NameToken(f) && ts[1] == LPAREN && ts[2..] == PrintArgs(args) + ([RPAREN] + rest)
  {
    hide WritableName;
    var head, text := [NameToken(f), LPAREN], PrintArgs(args);
    assert PrintAt(Call(f, args), false) == head + text + [RPAREN];
    hide PrintAt, PrintArgs, NameToken;
    Assoc(head + text, [RPAREN], rest);
    Assoc(head, text, [RPAREN] + rest);
  }

  ghost predicate GoodList(args: seq<Expr>) {
    forall i :: 0 <= i < |args| ==> Normal(args[i]) && Printable(args[i])
  }

  lemma {:induction false} CallPrint(f: string, args: seq<Expr>, rest: seq<Token>, instant: Calendar)
    requires Normal(Call(f, args)) && Printable(Call(f, args))
    ensures ParseUnary(Print(Call(f, args)) + rest, instant) == Parsed(Call(f, args), rest)
    decreases SizeArgs(args), 4
  {
    assert f == Lower(f) && GoodList(args) && WritableName(f);
    hide Normal, Printable, ParseArgs, GoodList, WritableName, Print;
    var tail := PrintArgs(args) + ([RPAREN] + rest);
    CallShape(f, args, rest);
    assert ([RPAREN] + rest)[1..] == rest;
    if args == [] {
      assert tail == [RPAREN] + rest;
    } else {
      ArgsPrint(args, [RPAREN] + rest, instant);
      ArgsStart(args);
      assert tail[0] == PrintArgs(args)[0];
    }
    assert ParseCall(f, tail, instant) == Parsed(Call(f, args), rest);
  }

  lemma {:induction false} PrintStart(e: Expr, after: bool)
    ensures PrintAt(e, after)[0] != RPAREN
  {
    if e.Binary? {
      PrintStart(e.lhs, after);
    }
  }

  lemma ArgsStart(args: seq<Expr>)
    requires args != []
    ensures PrintArgs(args) != [] && PrintArgs(args)[0] != RPAREN
  {
    PrintStart(args[0], false);
  }

  lemma {:induction false} ArgsPrint(args: seq<Expr>, rest: seq<Token>, instant: Calendar)
    requires args != [] && GoodList(args) && rest != [] && rest[0] == RPAREN
    ensures ParseArgs(PrintArgs(args) + rest, instant) == ParsedArgs(args, rest)
    decreases SizeArgs(args), 3
  {
    hide Normal, Printable, PrintAt, ParseExpr;
    var ts := PrintArgs(args) + rest;
    if |args| == 1 {
      ParsePrint(args[0], rest, instant);
      assert args == [args[0]];
    } else {
      var tail := [COMMA] + (PrintArgs(args[1..]) + rest);
      assert ts == Print(args[0]) + tail;
      ParsePrint(args[0], tail, instant);
      assert tail[1..] == PrintArgs(args[1..]) + rest;
      ArgsPrint(args[1..], rest, instant);
      assert args == [args[0]] + args[1..];
    }
  }

  // ----- What does not survive printing -----

  predicate NoOther(ts: seq<Token>) {
    forall i :: 0 <= i < |ts| ==> ts[i] != OTHER
  }

  lemma NoOtherParts(a: seq<Token>, b: seq<Token>)
    ensures NoOther(a + b) <==> NoOther(a) && NoOther(b)
    ensures AllExact(a) && AllExact(b) ==> AllExact(a + b)
  {
    forall i | NoOther(a + b) && 0 <= i < |a| ensures a[i] != OTHER {
      assert a[i] == (a + b)[i];
    }
    forall i | NoOther(a + b) && 0 <= i < |b| ensures b[i] != OTHER {
      assert b[i] == (a + b)[|a| + i];
    }
  }

  /** The printer writes numbers in thousandths and durations in whole milliseconds. */
  lemma {:induction false} PrintExact(e: Expr, after: bool)
    ensures AllExact(PrintAt(e, after))
    decreases e
  {
    match e
    case Binary(op, l, r) =>
      PrintExact(l, after);
      PrintExact(r, IsRegexOp(op));
    case Paren(x) => PrintExact(x, false);
    case Call(f, args) => ArgsExact(args);
    case _ => LeafExact(e, after);
  }

  lemma LeafExact(e: Expr, after: bool)
    requires !e.Binary? && !e.Paren? && !e.Call?
    ensures AllExact(PrintAt(e, after))
  {
    hide Round3, Bare, Clean, RegexText, FourDigitYear, Thousandths, Micros;
    if e.Number? {
      Round3Exact(e.r);
    } else if e.Duration? {
      WholeThousandths(Micros(e.d));
    }
  }

  lemma WholeThousandths(n: int)
    ensures Thousandths(n as real)
  {
    var k := 1000 * n;
    assert 1000.0 * n as real == k as real;
    assert (k as real).Floor == k;
  }

  lemma {:induction false} ArgsExact(args: seq<Expr>)
    ensures AllExact(PrintArgs(args))
    decreases args
  {
    if |args| > 0 {
      PrintExact(args[0], false);
      ArgsExact(args[1..]);
    }
  }

  /** A text that scans throughout is one of writable parts. */
  lemma {:induction false} ScannedIsWritable(e: Expr, after: bool)
    requires NoOther(PrintAt(e, after))
    ensures Writable(e, after)
    decreases e
  {
    match e
    case Binary(op, l, r) =>
      var a, b := PrintAt(l, after), PrintAt(r, IsRegexOp(op));
      NoOtherParts(a + [OP(op)], b);
      NoOtherParts(a, [OP(op)]);
      ScannedIsWritable(l, after);
      ScannedIsWritable(r, IsRegexOp(op));
    case Paren(x) =>
      NoOtherParts([LPAREN] + PrintAt(x, false), [RPAREN]);
      NoOtherParts([LPAREN], PrintAt(x, false));
      ScannedIsWritable(x, false);
    case Call(f, args) =>
      var head := [if WritableName(f) then NameToken(f) else OTHER, LPAREN];
      NoOtherParts(head + PrintArgs(args), [RPAREN]);
      NoOtherParts(head, PrintArgs(args));
      assert head[0] != OTHER;
      ScannedArgsAreWritable(args);
    case _ =>
      assert PrintAt(e, after)[0] != OTHER;
  }

  lemma {:induction false} ScannedArgsAreWritable(args: seq<Expr>)
    requires NoOther(PrintArgs(args))
    ensures forall i :: 0 <= i < |args| ==> Writable(args[i], false)
    decreases args
  {
    hide PrintAt, Writable;
    if |args| == 1 {
      ScannedIsWritable(args[0], false);
    } else if |args| > 1 {
      var a, b := PrintAt(args[0], false), PrintArgs(args[1..]);
      NoOtherParts(a + [COMMA], b);
      NoOtherParts(a, [COMMA]);
      ScannedIsWritable(args[0], false);
      ScannedArgsAreWritable(args[1..]);
      forall i | 0 <= i < |args| ensures Writable(args[i], false) {
        if i > 0 {
          assert args[i] == args[1..][i - 1];
        }
      }
    }
  }

  /** A normal tree survives printing and parsing exactly when all its leaves can be written down. */
  lemma RoundTripExact(e: Expr, instant: Calendar)
    requires Normal(e)
    ensures ParseExpr(Print(e), instant) == Parsed(e, []) <==> Printable(e)
  {
    hide Normal, Writable, ReadsBack, PrintAt, ParseExpr, AllExact;
    if Printable(e) {
      ParsePrint(e, [], instant);
      assert Print(e) + [] == Print(e);
    }
    ParseExprGood(Print(e), instant);
    if ParseExpr(Print(e), instant) == Parsed(e, []) {
      PrintExact(e, false);
      ScannedIsWritable(e, false);
    }
  }

  /** The same of the trees the parser builds, in which there are no nil and no strings that look like a date. */
  lemma RoundTrip(ts: seq<Token>, instant: Calendar)
    requires ParseExpr(ts, instant).Parsed?
    ensures var e := ParseExpr(ts, instant).e;
      && ReadsBack(e, false)
      && (ParseExpr(Print(e), instant) == Parsed(e, []) <==> Printable(e))
  {
    hide Normal, Writable, ReadsBack, PrintAt, ParseExpr, AllExact;
    ParseExprGood(ts, instant);
    RoundTripExact(ParseExpr(ts, instant).e, instant);
  }

  // ----- What comes back in place of what was printed -----

  /** The tree with every number rounded, and every duration not in whole milliseconds a number of microseconds. */
  function Reread(e: Expr): Expr {
    match e
    case Binary(op, l, r) => Binary(op, Reread(l), Reread(r))
    case Paren(x) => Paren(Reread(x))
    case Call(f, args) => Call(f, RereadArgs(args))
    case Number(r) => Number(Round3(r))
    case Duration(d) => if d % MILLISECOND == 0 then e else Number(Micros(d) as real)
    case _ => e
  }

  function RereadArgs(args: seq<Expr>): (r: seq<Expr>)
    ensures |r| == |args|
  {
    if args == [] then [] else [Reread(args[0])] + RereadArgs(args[1..])
  }

  lemma {:induction false} RereadFirst(e: Expr)
    ensures First(e).Regex? ==> First(Reread(e)).Regex?
    ensures Reread(e).Binary? <==> e.Binary?
  {
    if e.Binary? {
      RereadFirst(e.lhs);
    }
  }

  lemma {:induction false} RereadNormal(e: Expr)
    requires Normal(e)
    ensures Normal(Reread(e))
    decreases e
  {
    hide Round3, Micros, Lower;
    match e
    case Binary(op, l, r) =>
      RereadNormal(l);
      RereadNormal(r);
      RereadFirst(l);
      RereadFirst(r);
    case Paren(x) => RereadNormal(x);
    case Call(f, args) => RereadArgsNormal(args);
    case _ =>
  }

  lemma {:induction false} RereadArgsNormal(args: seq<Expr>)
    requires forall i :: 0 <= i < |args| ==> Normal(args[i])
    ensures forall i :: 0 <= i < |args| ==> Normal(RereadArgs(args)[i])
    decreases args
  {
    if args != [] {
      RereadNormal(args[0]);
      RereadArgsNormal(args[1..]);
    }
  }

  /** It is printed the same, and survives. */
  lemma {:induction false} RereadPrints(e: Expr, after: bool)
    requires Writable(e, after) && ReadsBack(e, false)
    ensures PrintAt(Reread(e), after) == PrintAt(e, after) && Survives(Reread(e), after)
    decreases e
  {
    match e
    case Binary(op, l, r) =>
      RereadPrints(l, after);
      RereadPrints(r, IsRegexOp(op));
    case Paren(x) => RereadPrints(x, false);
    case Call(f, args) => RereadArgsPrint(args);
    case _ => RereadLeaf(e, after);
  }

  lemma RereadLeaf(e: Expr, after: bool)
    requires !e.Binary? && !e.Paren? && !e.Call? && WritableLeaf(e, after) && ReadsBack(e, false)
    ensures PrintAt(Reread(e), after) == PrintAt(e, after) && Survives(Reread(e), after)
  {
    hide Round3, Bare, Clean, RegexText, FourDigitYear, Thousandths, LooksLikeDate, Micros;
    if e.Number? {
      Round3Exact(e.r);
      Round3Exact(Round3(e.r));
    } else if e.Duration? {
      WholeThousandths(Micros(e.d));
      Round3Exact(Micros(e.d) as real);
    }
  }

  lemma {:induction false} RereadArgsPrint(args: seq<Expr>)
    requires forall i :: 0 <= i < |args| ==> Writable(args[i], false) && ReadsBack(args[i], false)
    ensures PrintArgs(RereadArgs(args)) == PrintArgs(args)
    ensures forall i :: 0 <= i < |args| ==> Survives(RereadArgs(args)[i], false)
    decreases args
  {
    hide PrintAt, Reread, Writable, ReadsBack;
    if args != [] {
      RereadPrints(args[0], false);
      RereadArgsPrint(args[1..]);
      assert RereadArgs(args)[1..] == RereadArgs(args[1..]);
    }
  }

  /**
   Of a tree whose text scans, printing and parsing gives the same tree but for
   rounded numbers and durations that have lost their unit.
   */
  lemma PrintedMeans(e: Expr, instant: Calendar)
    requires Normal(e) && Writable(e, false) && ReadsBack(e, false)
    ensures ParseExpr(Print(e), instant) == Parsed(Reread(e), [])
  {
    hide Normal, Writable, ReadsBack, PrintAt, ParseExpr, Reread;
    RereadNormal(e);
    RereadPrints(e, false);
    ParsePrint(Reread(e), [], instant);
    assert Print(e) + [] == Print(e);
  }

  function Compared(n: string, x: Expr): Expr {
    Binary(GT, VarRef(n), x)
  }

  lemma ParseCompared(n: string, t: Token, x: Expr, instant: Calendar)
    requires (x.Number? && t == NUMBER(x.r)) || (x.Duration? && t == DURATION(x.d))
    ensures ParseExpr([IDENT(n), OP(GT), t], instant) == Parsed(Compared(n, x), [])
  {
    var ts, tail := [IDENT(n), OP(GT), t], [OP(GT), t];
    assert ts[1..] == tail && tail[1..] == [t] && [t][1..] == [];
    assert ParseUnary(ts, instant) == Parsed(VarRef(n), tail);
    assert ParseRhs(GT, [t], instant) == ParseUnary([t], instant) == Parsed(x, []);
    assert Insert(VarRef(n), GT, x) == Compared(n, x);
    assert ParseMore(Compared(n, x), [], instant) == Parsed(Compared(n, x), []);
    assert ParseMore(VarRef(n), tail, instant) == Parsed(Compared(n, x), []);
  }

  lemma ComparedParts(n: string, x: Expr)
    requires n != "" && Clean(n) && (x.Number? || x.Duration?)
    ensures Normal(Compared(n, x)) && Writable(Compared(n, x), false) && ReadsBack(Compared(n, x), false)
    ensures Reread(Compared(n, x)) == Compared(n, Reread(x))
  {
    assert Writable(VarRef(n), false) && ReadsBack(VarRef(n), false) && Normal(VarRef(n)) && Reread(VarRef(n)) == VarRef(n);
    assert Writable(x, false) && ReadsBack(x, false) && Normal(x);
  }

  /** A number that is not one of thousandths is parsed, and comes back rounded. */
  lemma NumberIsRounded(n: string, r: real, instant: Calendar)
    requires n != "" && Clean(n) && !Thousandths(r)
    ensures ParseExpr([IDENT(n), OP(GT), NUMBER(r)], instant) == Parsed(Compared(n, Number(r)), [])
    ensures ParseExpr(Print(Compared(n, Number(r))), instant) == Parsed(Compared(n, Number(Round3(r))), [])
    ensures Round3(r) != r
  {
    hide Round3, Clean, Thousandths, ParseExpr, Print, Normal, Writable, ReadsBack, Compared;
    ParseCompared(n, NUMBER(r), Number(r), instant);
    ComparedParts(n, Number(r));
    PrintedMeans(Compared(n, Number(r)), instant);
    Round3Exact(r);
  }

  /** A duration that is not one of whole milliseconds is parsed, and comes back as a number. */
  lemma DurationLosesUnit(n: string, d: int, instant: Calendar)
    requires n != "" && Clean(n) && d % MILLISECOND != 0
    ensures ParseExpr([IDENT(n), OP(GT), DURATION(d)], instant) == Parsed(Compared(n, Duration(d)), [])
    ensures ParseExpr(Print(Compared(n, Duration(d))), instant) == Parsed(Compared(n, Number(Micros(d) as real)), [])
  {
    hide Clean, Micros, ParseExpr, Print, Normal, Writable, ReadsBack, Compared;
    ParseCompared(n, DURATION(d), Duration(d), instant);
    ComparedParts(n, Duration(d));
    PrintedMeans(Compared(n, Duration(d)), instant);
  }

  /** So `x > 0.0001` comes back as `x > 0`, and `x > 1500u` as `x > 1500`. */
  lemma LostLeaves(instant: Calendar)
    ensures ParseExpr(Print(Compared("x", Number(0.0001))), instant) == Parsed(Compared("x", Number(0.0)), [])
    ensures ParseExpr(Print(Compared("x", Duration(1_500_000))), instant) == Parsed(Compared("x", Number(1500.0)), [])
  {
    hide ParseExpr, Print, Compared;
    assert (1000.0 * 0.0001).Floor == 0;
    NumberIsRounded("x", 0.0001, instant);
    DurationLosesUnit("x", 1_500_000, instant);
  }

  /** After `=~` and `!~` a regex is taken and nothing else; after any other operator, whatever an operand can be. */
  lemma RegexOperand(op: Op, t: Token, rest: seq<Token>, instant: Calendar)
    ensures op == EQREGEX || op == NEQREGEX ==>
              ParseRhs(op, [t] + rest, instant) == if t.REGEX? then Parsed(Regex(t.re), rest) else Fail
    ensures op != EQREGEX && op != NEQREGEX ==> ParseRhs(op, [t] + rest, instant) == ParseUnary([t] + rest, instant)
  {
    assert ([t] + rest)[1..] == rest;
  }

  /** What stands after an operator: a name, or after a regex operator a regex. */
  function TokenAfter(op: Op, text: string): Token {
    if IsRegexOp(op) then REGEX(text) else IDENT(text)
  }

  function OperandAfter(op: Op, text: string): Expr {
    if IsRegexOp(op) then Regex(text) else VarRef(text)
  }

  lemma ParseAfter(op: Op, text: string, rest: seq<Token>, instant: Calendar)
    requires rest == [] || rest[0].OP?
    ensures ParseRhs(op, [TokenAfter(op, text)] + rest, instant) == Parsed(OperandAfter(op, text), rest)
  {
    assert ([TokenAfter(op, text)] + rest)[1..] == rest;
  }

  lemma ParseStep(root: Expr, op: Op, text: string, rest: seq<Token>, instant: Calendar)
    requires rest == [] || rest[0].OP?
    ensures ParseMore(root, [OP(op), TokenAfter(op, text)] + rest, instant)
         == ParseMore(Insert(root, op, OperandAfter(op, text)), rest, instant)
  {
    var ts := [OP(op), TokenAfter(op, text)] + rest;
    assert ts[1..] == [TokenAfter(op, text)] + rest;
    ParseAfter(op, text, rest, instant);
    hide ParseRhs, Insert, TokenAfter, OperandAfter;
  }

  lemma InsertByClass(x: Expr, p: Op, y: Expr, q: Op, z: Expr)
    requires !x.Binary? && !y.Binary?
    ensures Insert(Insert(x, p, y), q, z) == if TighterThan(q, p) then Binary(p, x, Binary(q, y, z)) else Binary(q, Binary(p, x, y), z)
  {
    TighterIsHigher(q, p);
    hide TighterThan, Precedence;
  }

  /** Of three operands the second belongs to the operator of the tighter class, and to the first operator of two of one class. */
  lemma ParsesByClass(x: string, p: Op, y: string, q: Op, z: string, instant: Calendar)
    ensures var y', z' := OperandAfter(p, y), OperandAfter(q, z);
      ParseExpr([IDENT(x), OP(p), TokenAfter(p, y), OP(q), TokenAfter(q, z)], instant)
      == Parsed(if TighterThan(q, p) then Binary(p, VarRef(x), Binary(q, y', z')) else Binary(q, Binary(p, VarRef(x), y'), z'), [])
  {
    var y', z' := OperandAfter(p, y), OperandAfter(q, z);
    var last := [OP(q), TokenAfter(q, z)] + [];
    var more := [OP(p), TokenAfter(p, y)] + last;
    var ts := [IDENT(x), OP(p), TokenAfter(p, y), OP(q), TokenAfter(q, z)];
    assert ts == [IDENT(x)] + more && ts[1..] == more;
    InsertByClass(VarRef(x), p, y', q, z');
    assert ParseUnary(ts, instant) == Parsed(VarRef(x), more);
    hide TighterThan, Insert, ParseRhs, TokenAfter, OperandAfter, ParseUnary;
    ParseStep(VarRef(x), p, y, last, instant);
    ParseStep(Insert(VarRef(x), p, y'), q, z, [], instant);
  }

  /** A successful parse is an operand followed by operator-operand pairs, inserted in order. */
  lemma {:induction false} ParsedIsBuilt(root: Expr, ts: seq<Token>, instant: Calendar) returns (more: seq<(Op, Expr)>)
    requires ParseMore(root, ts, instant).Parsed?
    ensures Operands(more) && ParseMore(root, ts, instant).e == Build(root, more)
    decreases |ts|
  {
    if ts == [] || !ts[0].OP? {
      more := [];
    } else {
      var op := ts[0].op;
      ParseUnaryGood(ts[1..], instant);
      var r := ParseRhs(op, ts[1..], instant);
      var tail := ParsedIsBuilt(Insert(root, op, r.e), r.rest, instant);
      more := [(op, r.e)] + tail;
      assert more[1..] == tail;
    }
  }
}
