/**
 The parser as it runs (influxql/parser.go): a position in the token stream, a
 loop over operators, and an expression tree whose right spine is rewritten in
 place. Each method is tied to the grammar functions of `Parser`.
 */
module ParserImp {
  import opened Values
  import opened Ast
  import P = Parser

  type Token = P.Token

  /** What hangs to the right of a spine node: a last operand or the next spine node. */
  datatype Right = Last(e: Expr) | Sub(node: SpineNode)

  /** A `BinaryExpr` on the right spine: only its RHS is ever rewritten. */
  class SpineNode {
    const op: Op
    const lhs: Expr
    var rhs: Right

    constructor (op: Op, lhs: Expr, rhs: Right)
      ensures this.op == op && this.lhs == lhs && this.rhs == rhs
    {
      this.op, this.lhs, this.rhs := op, lhs, rhs;
    }
  }

  // ----- The tree below a spine, as a value -----

  function Wrap(pairs: seq<(Op, Expr)>, last: Expr): Expr {
    if pairs == [] then last else Binary(pairs[0].0, pairs[0].1, Wrap(pairs[1..], last))
  }

  ghost function Pairs(spine: seq<SpineNode>): (r: seq<(Op, Expr)>)
    ensures |r| == |spine| && forall i :: 0 <= i < |r| ==> r[i] == (spine[i].op, spine[i].lhs)
  {
    seq(|spine|, i requires 0 <= i < |spine| => (spine[i].op, spine[i].lhs))
  }

  lemma PairsSuffix(spine: seq<SpineNode>, k: nat)
    requires k < |spine|
    ensures Pairs(spine[1..])[k..] == Pairs(spine[k + 1..])
  {
  }

  lemma PairsExtended(spine: seq<SpineNode>, k: nat, node: SpineNode)
    requires k < |spine|
    ensures Pairs((spine[..k + 1] + [node])[1..]) == Pairs(spine[1..])[..k] + [(node.op, node.lhs)]
  {
  }

  lemma DropFirst<T>(s: seq<T>, k: nat, x: T)
    requires 0 < k <= |s|
    ensures (s[..k] + [x])[1..] == s[1..][..k - 1] + [x]
    ensures s[1..][k - 1..] == s[k..]
  {
  }

  lemma InsertAtTop(pairs: seq<(Op, Expr)>, last: Expr, op: Op, rhs: Expr)
    requires !last.Binary?
    requires pairs == [] || Precedence(pairs[0].0) >= Precedence(op)
    ensures Insert(Wrap(pairs, last), op, rhs) == Wrap([(op, Wrap(pairs, last))], rhs)
  {
    var new_: seq<(Op, Expr)> := [(op, Wrap(pairs, last))];
    assert new_[1..] == [];
  }

  /** Where the descent stops, the new node takes over everything below. */
  lemma {:induction false} InsertIntoSpine(pairs: seq<(Op, Expr)>, last: Expr, k: nat, op: Op, rhs: Expr)
    requires k <= |pairs| && !last.Binary?
    requires forall j :: 0 <= j < k ==> Precedence(pairs[j].0) < Precedence(op)
    requires k == |pairs| || Precedence(pairs[k].0) >= Precedence(op)
    ensures Insert(Wrap(pairs, last), op, rhs) == Wrap(pairs[..k] + [(op, Wrap(pairs[k..], last))], rhs)
  {
    hide Precedence;
    var new_ := (op, Wrap(pairs[k..], last));
    if k == 0 {
      InsertAtTop(pairs, last, op, rhs);
      assert pairs[..k] + [new_] == [new_] && pairs[k..] == pairs;
    } else {
      DropFirst(pairs, k, new_);
      InsertIntoSpine(pairs[1..], last, k - 1, op, rhs);
    }
  }

  /** `spine` is a right spine: linked by RHS, ending in an operand. */
  ghost predicate Linked(spine: seq<SpineNode>)
    reads spine
  {
    && spine != []
    && (forall i, j :: 0 <= i < j < |spine| ==> spine[i] != spine[j])
    && (forall i :: 0 <= i < |spine| - 1 ==> spine[i].rhs == Sub(spine[i + 1]))
    && spine[|spine| - 1].rhs.Last? && !spine[|spine| - 1].rhs.e.Binary?
  }

  /** The tree hanging off `spine[i]`, as a value. */
  ghost function Below(spine: seq<SpineNode>, i: nat): Expr
    requires Linked(spine) && i < |spine|
    reads spine
  {
    Wrap(Pairs(spine[i + 1..]), spine[|spine| - 1].rhs.e)
  }

  /** Reads off the tree hanging to the right of a spine node. */
  method Freeze(right: Right, ghost spine: seq<SpineNode>, ghost i: nat) returns (e: Expr)
    requires Linked(spine) && i < |spine| && right == spine[i].rhs
    ensures e == Below(spine, i)
    decreases |spine| - i
  {
    assert i < |spine| - 1 ==> spine[i].rhs == Sub(spine[i + 1]);
    if right.Last? {
      assert Pairs(spine[i + 1..]) == [];
      e := right.e;
    } else {
      var node := right.node;
      assert node == spine[i + 1];
      var tail := Freeze(node.rhs, spine, i + 1);
      e := Binary(node.op, node.lhs, tail);
      assert Pairs(spine[i + 1..])[1..] == Pairs(spine[i + 2..]);
    }
  }

  /** Descends the right spine to the last node before a tighter-or-equal operator. */
  method Descend(root: SpineNode, op: Op, ghost spine: seq<SpineNode>) returns (node: SpineNode, ghost k: nat)
    requires Linked(spine) && spine[0] == root
    ensures k < |spine| && node == spine[k]
    ensures forall j :: 0 < j <= k ==> Precedence(spine[j].op) < Precedence(op)
    ensures k == |spine| - 1 || Precedence(spine[k + 1].op) >= Precedence(op)
  {
    hide Precedence;
    node, k := root, 0;
    assert 0 < |spine| - 1 ==> spine[0].rhs == Sub(spine[1]);
    while node.rhs.Sub? && Precedence(node.rhs.node.op) < Precedence(op)
      invariant 0 <= k < |spine| && node == spine[k]
      invariant k < |spine| - 1 ==> spine[k].rhs == Sub(spine[k + 1])
      invariant forall j :: 0 < j <= k ==> Precedence(spine[j].op) < Precedence(op)
      decreases |spine| - k
    {
      node := node.rhs.node;
      k := k + 1;
    }
  }

  /** Puts a new node below `spine[k]`, cutting off what hung there. */
  method HangIn(node: SpineNode, op: Op, lhs: Expr, rhs: Expr, ghost spine: seq<SpineNode>, ghost k: nat)
    returns (new_: SpineNode)
    requires Linked(spine) && k < |spine| && node == spine[k] && !rhs.Binary?
    modifies node
    ensures fresh(new_) && new_.op == op && new_.lhs == lhs && new_.rhs == Last(rhs)
    ensures Linked(spine[..k + 1] + [new_])
  {
    new_ := new SpineNode(op, lhs, Last(rhs));
    node.rhs := Sub(new_);
    ghost var s := spine[..k + 1] + [new_];
    assert forall i :: 0 <= i <= k ==> s[i] == spine[i];
    assert forall i :: 0 <= i < k ==> spine[i].rhs == Sub(spine[i + 1]);
  }

  /** Descends the right spine and hangs the new operation in, in place. */
  method InsertInPlace(root: SpineNode, op: Op, rhs: Expr, ghost spine: seq<SpineNode>)
    returns (ghost spine': seq<SpineNode>)
    requires Linked(spine) && spine[0] == root && !rhs.Binary?
    modifies spine
    ensures Linked(spine') && spine' != [] && spine'[0] == root
    ensures forall i :: 0 <= i < |spine'| ==> spine'[i] in spine || fresh(spine'[i])
    ensures Below(spine', 0) == Insert(old(Below(spine, 0)), op, rhs)
  {
    hide *;
    var node;
    ghost var k;
    node, k := Descend(root, op, spine);
    InsertBelow(spine, k, op, rhs);
    var frozen := Freeze(node.rhs, spine, k);
    var new_ := HangIn(node, op, frozen, rhs, spine, k);
    spine' := spine[..k + 1] + [new_];
    BelowExtended(spine, k, new_, rhs);
    assert forall i :: 0 <= i < |spine'| ==> spine'[i] in spine || spine'[i] == new_;
  }

  lemma InsertBelow(spine: seq<SpineNode>, k: nat, op: Op, rhs: Expr)
    requires Linked(spine) && k < |spine|
    requires forall j :: 0 < j <= k ==> Precedence(spine[j].op) < Precedence(op)
    requires k == |spine| - 1 || Precedence(spine[k + 1].op) >= Precedence(op)
    ensures Insert(Below(spine, 0), op, rhs) == Wrap(Pairs(spine[1..])[..k] + [(op, Below(spine, k))], rhs)
  {
    hide Precedence, Insert, Wrap;
    InsertIntoSpine(Pairs(spine[1..]), spine[|spine| - 1].rhs.e, k, op, rhs);
    PairsSuffix(spine, k);
  }

  lemma BelowExtended(spine: seq<SpineNode>, k: nat, node: SpineNode, rhs: Expr)
    requires k < |spine| && Linked(spine[..k + 1] + [node]) && node.rhs == Last(rhs)
    ensures Below(spine[..k + 1] + [node], 0) == Wrap(Pairs(spine[1..])[..k] + [(node.op, node.lhs)], rhs)
  {
    hide Linked, Wrap, Pairs;
    PairsExtended(spine, k, node);
  }

  lemma SingleSpine(root: SpineNode, e: Expr)
    requires root.rhs == Last(e) && !e.Binary?
    ensures Linked([root]) && Below([root], 0) == e
  {
    assert Pairs([root][1..]) == [];
  }

  // ----- The parser -----

  /** What a parsing method returns, against what the grammar says of the tokens that were left. */
  ghost predicate Agrees(r: Option<Expr>, rest: seq<Token>, spec: P.Parsed) {
    match spec
    case Fail => r.None?
    case Parsed(e, s) => r == Some(e) && rest == s
  }

  ghost function Prepend(args: seq<Expr>, r: P.ParsedArgs): P.ParsedArgs {
    match r
    case FailArgs => P.FailArgs
    case ParsedArgs(more, rest) => P.ParsedArgs(args + more, rest)
  }

  class TokenParser {
    const tokens: seq<Token>
    const instant: P.Calendar
    var pos: nat

    ghost predicate Valid()
      reads this
    {
      pos <= |tokens|
    }

    ghost function Left(): seq<Token>
      reads this
      requires Valid()
    {
      tokens[pos..]
    }

    constructor (tokens: seq<Token>, instant: P.Calendar)
      ensures Valid() && this.tokens == tokens && this.instant == instant && Left() == tokens
    {
      this.tokens, this.instant, pos := tokens, instant, 0;
    }

    /** The next token, without taking it; at the end, a token no rule accepts. */
    function Peek(): (t: Token)
      reads this
      requires Valid()
      ensures Left() != [] ==> t == Left()[0]
      ensures Left() == [] ==> t == P.OTHER
    {
      if pos < |tokens| then tokens[pos] else P.OTHER
    }

    method Take()
      requires Valid() && Left() != []
      modifies this
      ensures Valid() && Left() == old(Left())[1..]
    {
      pos := pos + 1;
    }

    /** `ParseExpr`: the loop over operators, with the tree built in place. */
    method ParseExpr() returns (r: Option<Expr>)
      requires Valid()
      modifies this
      ensures Valid() && Agrees(r, Left(), P.ParseExpr(old(Left()), instant))
      ensures r.Some? ==> pos > old(pos)
      decreases |tokens| - pos, 2
    {
      hide P.ParseUnary, P.ParseRhs, Insert, Precedence, Linked, Below;
      ghost var spec := P.ParseExpr(Left(), instant);
      var first := ParseUnaryExpr();
      if first.None? {
        return None;
      }
      var root := new SpineNode(AND, NilLiteral, Last(first.value));
      ghost var spine := [root];
      SingleSpine(root, first.value);
      while true
        invariant Valid() && pos > old(pos)
        invariant spine != [] && spine[0] == root && Linked(spine)
        invariant forall i :: 0 <= i < |spine| ==> fresh(spine[i])
        invariant spec == P.ParseMore(Below(spine, 0), Left(), instant)
        decreases |tokens| - pos
      {
        if !Peek().OP? {
          var e := Freeze(root.rhs, spine, 0);
          return Some(e);
        }
        var op := Peek().op;
        Take();
        var rhs := ParseRhs(op);
        if rhs.None? {
          return None;
        }
        spine := InsertInPlace(root, op, rhs.value, spine);
      }
    }

    /** The operand after an operator; after a regex operator, a regex. */
    method ParseRhs(op: Op) returns (r: Option<Expr>)
      requires Valid()
      modifies this
      ensures Valid() && Agrees(r, Left(), P.ParseRhs(op, old(Left()), instant))
      ensures r.Some? ==> !r.value.Binary? && pos > old(pos)
      decreases |tokens| - pos, 1
    {
      hide P.ParseUnary;
      if IsRegexOp(op) {
        if !Peek().REGEX? {
          return None;
        }
        r := Some(Regex(Peek().re));
        Take();
      } else {
        r := ParseUnaryExpr();
      }
    }

    method ParseUnaryExpr() returns (r: Option<Expr>)
      requires Valid()
      modifies this
      ensures Valid() && Agrees(r, Left(), P.ParseUnary(old(Left()), instant))
      ensures r.Some? ==> !r.value.Binary? && pos > old(pos)
      decreases |tokens| - pos, 0
    {
      hide P.ParseExpr, P.ParseCall;
      if Peek().OTHER? {
        return None;
      }
      var tok := Peek();
      Take();
      match tok {
        case LPAREN =>
          var e := ParseExpr();
          if e.None? || Peek() != P.RPAREN {
            return None;
          }
          Take();
          r := Some(Paren(e.value));
        case IDENT(n) =>
          if Peek() == P.LPAREN {
            Take();
            r := ParseCall(Lower(n));
          } else {
            r := Some(VarRef(n));
          }
        case DISTINCT =>
          if Peek() == P.LPAREN {
            Take();
            r := ParseCall("distinct");
          } else if Peek().IDENT? {
            r := Some(Distinct(Peek().name));
            Take();
          } else {
            r := None;
          }
        case STRING(s) =>
          if !LooksLikeDate(s) {
            r := Some(String(s));
          } else if instant(s).Some? {
            r := Some(Time(instant(s).value));
          } else {
            r := None;
          }
        case INSTANT(t) => r := Some(Time(t));
        case NUMBER(x) => r := Some(Number(x));
        case TRUE => r := Some(Boolean(true));
        case FALSE => r := Some(Boolean(false));
        case DURATION(d) => r := Some(Duration(d));
        case OP(op) => r := if op == MUL then Some(Wildcard) else None;
        case REGEX(re) => r := Some(Regex(re));
        case _ => r := None;
      }
    }

    /** The argument loop of `parseCall`. */
    method ParseArgs() returns (args: seq<Expr>, ok: bool)
      requires Valid()
      modifies this
      ensures Valid()
      ensures match P.ParseArgs(old(Left()), instant)
              case FailArgs => !ok
              case ParsedArgs(a, rest) => ok && args == a && Left() == rest
      decreases |tokens| - pos, 3
    {
      hide P.ParseExpr;
      ghost var spec := P.ParseArgs(Left(), instant);
      args := [];
      assert spec == Prepend(args, spec);
      while true
        invariant Valid() && pos >= old(pos)
        invariant spec == Prepend(args, P.ParseArgs(Left(), instant))
        decreases |tokens| - pos
      {
        ghost var before := Left();
        var arg := ParseExpr();
        if arg.None? {
          return args, false;
        }
        ghost var prev := args;
        args := args + [arg.value];
        if Peek() != P.COMMA {
          return args, true;
        }
        Take();
        assert forall more :: prev + ([arg.value] + more) == args + more;
      }
    }

    /** `parseCall`. */
    method ParseCall(name: string) returns (r: Option<Expr>)
      requires Valid()
      modifies this
      ensures Valid() && Agrees(r, Left(), P.ParseCall(name, old(Left()), instant))
      ensures r.Some? ==> !r.value.Binary? && pos > old(pos)
      decreases |tokens| - pos, 4
    {
      hide P.ParseArgs;
      if Peek() == P.RPAREN {
        Take();
        return Some(Call(name, []));
      }
      var args, ok := ParseArgs();
      if !ok || Peek() != P.RPAREN {
        return None;
      }
      Take();
      r := Some(Call(name, args));
    }
  }
}
