/**
 The WHERE walker (tsdb/meta.go): `walkWhereForSeriesIds` turns a condition over
 tags and fields into a sorted list of series ids and, for each, a filter to be
 evaluated on its points. Regular expressions match as `matches` says.
 */
module WhereWalk {
  import opened Values
  import opened Ast
  import opened Reduce
  import opened SeriesIDs
  import opened TagIndex

  type Matcher = (string, string) -> bool

  predicate Comparison(op: Op) {
    op == EQ || op == NEQ || op == LT || op == LTE || op == GT || op == GTE || IsRegexOp(op)
  }

  datatype Sides = NoSide | Sides(name: string, value: Expr)

  /** The variable of a comparison, on either side, and what it is compared with. */
  function SidesOf(n: Expr): Sides
    requires n.Binary?
  {
    if n.lhs.VarRef? then Sides(n.lhs.name, n.rhs)
    else if n.rhs.VarRef? then Sides(n.rhs.name, n.lhs)
    else NoSide
  }

  predicate IsTimeBound(s: Sides)
    requires s.Sides?
  {
    s.value.Time? || s.name == "time"
  }

  /** A tag comparison, on the tags of one series. */
  predicate TagHolds(op: Op, tags: Tags, k: string, value: Expr, matches: Matcher) {
    match value
    case String(v) =>
      var equal := k in tags && tags[k] == v;
      (op == EQ && equal) || (op == NEQ && !equal)
    case Regex(re) =>
      var match_ := k in tags && matches(re, tags[k]);
      (op == EQREGEX && match_) || (op == NEQREGEX && !match_)
    case _ => false
  }

  // ----- What a condition means for a point of a series -----

  datatype Context = Context(fields: set<string>, keys: set<string>, matches: Matcher)

  /**
   AND, OR and parentheses over comparisons of a variable: with a time, of a
   field, or of a tag key.
   */
  ghost predicate Condition(c: Context, e: Expr) {
    match e
    case Binary(op, l, r) =>
      if Logical(op) then Condition(c, l) && Condition(c, r)
      else Comparison(op) && SidesOf(e).Sides? &&
           (IsTimeBound(SidesOf(e)) || SidesOf(e).name !in c.fields || Stays(e))
    case Paren(x) => Condition(c, x)
    case _ => false
  }

  /** Folding leaves a field comparison a comparison of its variable (and does not panic). */
  ghost predicate Stays(n: Expr) {
    n.Binary? && Comparison(n.op) &&
    match Red(n, Nothing)
    case Some(x) => x.Binary? && x.op == n.op && (x.lhs.VarRef? || x.rhs.VarRef?)
    case None => false
  }

  predicate IsFieldTest(c: Context, n: Expr)
    requires n.Binary? && SidesOf(n).Sides?
  {
    !IsTimeBound(SidesOf(n)) && SidesOf(n).name in c.fields
  }

  /** Plain evaluation, point by point; bounds on time are applied elsewhere. */
  ghost predicate Holds(c: Context, e: Expr, tags: Tags, m: Env)
    requires Condition(c, e)
  {
    match e
    case Binary(op, l, r) =>
      if op == AND then Holds(c, l, tags, m) && Holds(c, r, tags, m)
      else if op == OR then Holds(c, l, tags, m) || Holds(c, r, tags, m)
      else if IsTimeBound(SidesOf(e)) then true
      else if IsFieldTest(c, e) then EvalBool(e, m)
      else TagHolds(op, tags, SidesOf(e).name, SidesOf(e).value, c.matches)
    case Paren(x) => Holds(c, x, tags, m)
  }

  /** The series the walker selects: none by a tag key that no series of the measurement has. */
  ghost predicate Selects(c: Context, e: Expr, tags: Tags)
    requires Condition(c, e)
  {
    match e
    case Binary(op, l, r) =>
      if op == AND then Selects(c, l, tags) && Selects(c, r, tags)
      else if op == OR then Selects(c, l, tags) || Selects(c, r, tags)
      else if IsTimeBound(SidesOf(e)) || IsFieldTest(c, e) then true
      else SidesOf(e).name in c.keys && TagHolds(op, tags, SidesOf(e).name, SidesOf(e).value, c.matches)
    case Paren(x) => Selects(c, x, tags)
  }

  /** No tag comparison that is true of the series is of a key that no series has: such a comparison is an inequality. */
  ghost predicate Present(c: Context, e: Expr, tags: Tags)
    requires Condition(c, e)
  {
    match e
    case Binary(op, l, r) =>
      if Logical(op) then Present(c, l, tags) && Present(c, r, tags)
      else if IsTimeBound(SidesOf(e)) || IsFieldTest(c, e) then true
      else SidesOf(e).name in c.keys || !TagHolds(op, tags, SidesOf(e).name, SidesOf(e).value, c.matches)
    case Paren(x) => Present(c, x, tags)
  }

  /** An inequality on a tag key that no series has selects no series, though it is true of all of them; an equality is true of none. */
  lemma AbsentKey(c: Context, e: Expr, tags: Tags, m: Env)
    requires Condition(c, e) && e.Binary? && !Logical(e.op) && !IsTimeBound(SidesOf(e)) && !IsFieldTest(c, e)
    requires SidesOf(e).name !in c.keys && tags.Keys <= c.keys
    ensures !Selects(c, e, tags)
    ensures Holds(c, e, tags, m) <==> (e.op == NEQ && SidesOf(e).value.String?) || (e.op == NEQREGEX && SidesOf(e).value.Regex?)
    ensures Present(c, e, tags) <==> !Holds(c, e, tags, m)
  {
    assert SidesOf(e).name !in tags.Keys;
  }

  /** The points of a selected series that pass its filter: an OR one side of which does not select passes all. */
  ghost predicate Passes(c: Context, e: Expr, tags: Tags, m: Env)
    requires Condition(c, e)
  {
    match e
    case Binary(op, l, r) =>
      if op == AND then Passes(c, l, tags, m) && Passes(c, r, tags, m)
      else if op == OR then
        (Selects(c, l, tags) && Selects(c, r, tags)) ==> Passes(c, l, tags, m) || Passes(c, r, tags, m)
      else if IsTimeBound(SidesOf(e)) then true
      else if IsFieldTest(c, e) then EvalBool(e, m)
      else true
    case Paren(x) => Passes(c, x, tags, m)
  }

  /** No point is lost: what holds is selected and passes. */
  lemma {:induction false} NothingLost(c: Context, e: Expr, tags: Tags, m: Env)
    requires Condition(c, e) && Present(c, e, tags) && Holds(c, e, tags, m)
    ensures Selects(c, e, tags) && Passes(c, e, tags, m)
  {
    match e
    case Binary(op, l, r) =>
      if Logical(op) {
        if Holds(c, l, tags, m) {
          NothingLost(c, l, tags, m);
        }
        if Holds(c, r, tags, m) {
          NothingLost(c, r, tags, m);
        }
      }
    case Paren(x) => NothingLost(c, x, tags, m);
  }

  /** No field is compared: the condition is about tags (and time) alone. */
  ghost predicate TagsOnly(c: Context, e: Expr)
    requires Condition(c, e)
  {
    match e
    case Binary(op, l, r) =>
      if Logical(op) then TagsOnly(c, l) && TagsOnly(c, r) else IsTimeBound(SidesOf(e)) || !IsFieldTest(c, e)
    case Paren(x) => TagsOnly(c, x)
  }

  /** Without field comparisons the selected series are exactly those whose tags satisfy the condition. */
  lemma {:induction false} TagsOnlyExact(c: Context, e: Expr, tags: Tags, m: Env)
    requires Condition(c, e) && TagsOnly(c, e)
    ensures Selects(c, e, tags) ==> Holds(c, e, tags, m)
    ensures Present(c, e, tags) ==> (Selects(c, e, tags) <==> Holds(c, e, tags, m))
    ensures Selects(c, e, tags) ==> Passes(c, e, tags, m)
  {
    match e
    case Binary(op, l, r) =>
      if Logical(op) {
        TagsOnlyExact(c, l, tags, m);
        TagsOnlyExact(c, r, tags, m);
      }
    case Paren(x) => TagsOnlyExact(c, x, tags, m);
  }

  /** At every OR, both sides select the series, or the side that does compares no field. */
  ghost predicate Tight(c: Context, e: Expr, tags: Tags)
    requires Condition(c, e)
  {
    match e
    case Binary(op, l, r) =>
      if op == AND then Tight(c, l, tags) && Tight(c, r, tags)
      else if op == OR then
        && (Selects(c, l, tags) ==> Tight(c, l, tags) && (Selects(c, r, tags) || TagsOnly(c, l)))
        && (Selects(c, r, tags) ==> Tight(c, r, tags) && (Selects(c, l, tags) || TagsOnly(c, r)))
      else true
    case Paren(x) => Tight(c, x, tags)
  }

  /** For such series nothing extra passes either. */
  lemma {:induction false} NothingExtra(c: Context, e: Expr, tags: Tags, m: Env)
    requires Condition(c, e) && Tight(c, e, tags) && Selects(c, e, tags) && Passes(c, e, tags, m)
    ensures Holds(c, e, tags, m)
  {
    match e
    case Binary(op, l, r) =>
      if op == AND {
        NothingExtra(c, l, tags, m);
        NothingExtra(c, r, tags, m);
      } else if op == OR {
        if Selects(c, l, tags) && Selects(c, r, tags) {
          if Passes(c, l, tags, m) {
            NothingExtra(c, l, tags, m);
          } else {
            NothingExtra(c, r, tags, m);
          }
        } else if Selects(c, l, tags) {
          TagsOnlyExact(c, l, tags, m);
        } else {
          TagsOnlyExact(c, r, tags, m);
        }
      }
    case Paren(x) => NothingExtra(c, x, tags, m);
  }

  /** An OR that only one side selects passes every point of the series, whether that side holds or not. */
  lemma LooseOr(c: Context, l: Expr, r: Expr, tags: Tags, m: Env)
    requires Condition(c, Binary(OR, l, r)) && Selects(c, l, tags) && !Selects(c, r, tags)
    ensures Selects(c, Binary(OR, l, r), tags) && Passes(c, Binary(OR, l, r), tags, m)
    ensures Present(c, r, tags) ==> (Holds(c, Binary(OR, l, r), tags, m) <==> Holds(c, l, tags, m))
  {
    if Present(c, r, tags) && Holds(c, r, tags, m) {
      NothingLost(c, r, tags, m);
      assert false;
    }
  }

  /** Comparing a field with a number is such a condition, and a point carries the field if its value is a number. */
  lemma FieldTestQualifies(c: Context, op: Op, f: string, r: real, m: Env)
    requires op in {EQ, NEQ, LT, LTE, GT, GTE} && f in c.fields && f != "time"
    ensures Condition(c, Binary(op, VarRef(f), Number(r))) && IsFieldTest(c, Binary(op, VarRef(f), Number(r)))
    ensures f in m && (m[f].Float? || m[f].Int?) ==> Carries(c, Binary(op, VarRef(f), Number(r)), m)
    ensures forall tags :: Present(c, Binary(op, VarRef(f), Number(r)), tags) && Selects(c, Binary(op, VarRef(f), Number(r)), tags)
  {
    var e := Binary(op, VarRef(f), Number(r));
    assert Red(VarRef(f), Nothing) == Some(VarRef(f)) && Red(Number(r), Nothing) == Some(Number(r));
    assert Red(e, Nothing) == Fold(op, VarRef(f), Number(r)) == Some(e);
  }

  /** A comparison of `time`, or of anything with a time, is true of every point: bounds on time are applied elsewhere. */
  lemma TimeSelectsAll(c: Context, op: Op, name: string, x: Expr, tags: Tags, m: Env)
    requires op in {EQ, NEQ, LT, LTE, GT, GTE} && (name == "time" || x.Time?)
    ensures forall e :: e == Binary(op, VarRef(name), x) || (e == Binary(op, x, VarRef(name)) && !x.VarRef?) ==>
              && Condition(c, e) && TagsOnly(c, e) && Present(c, e, tags)
              && Selects(c, e, tags) && Passes(c, e, tags, m) && Holds(c, e, tags, m)
  {
  }

  /** What the comparisons of a tag select: the series with the value, or without it, if any series has the key. */
  lemma TagSelects(c: Context, k: string, v: string, tags: Tags)
    requires k !in c.fields && k != "time"
    ensures var eq, ne := Binary(EQ, VarRef(k), String(v)), Binary(NEQ, VarRef(k), String(v));
            var re, nre := Binary(EQREGEX, VarRef(k), Regex(v)), Binary(NEQREGEX, VarRef(k), Regex(v));
      && Condition(c, eq) && Condition(c, ne) && Condition(c, re) && Condition(c, nre)
      && TagsOnly(c, eq) && TagsOnly(c, ne) && TagsOnly(c, re) && TagsOnly(c, nre)
      && (Selects(c, eq, tags) <==> k in c.keys && k in tags && tags[k] == v)
      && (Selects(c, ne, tags) <==> k in c.keys && (k !in tags || tags[k] != v))
      && (Selects(c, re, tags) <==> k in c.keys && k in tags && c.matches(v, tags[k]))
      && (Selects(c, nre, tags) <==> k in c.keys && (k !in tags || !c.matches(v, tags[k])))
      && (k in c.keys ==> Present(c, eq, tags) && Present(c, ne, tags) && Present(c, re, tags) && Present(c, nre, tags))
  {
  }

  // ----- Filters -----

  /** The point evaluates every field comparison of the condition to a boolean. */
  ghost predicate Carries(c: Context, e: Expr, m: Env)
    requires Condition(c, e)
  {
    match e
    case Binary(op, l, r) =>
      if Logical(op) then Carries(c, l, m) && Carries(c, r, m)
      else if IsTimeBound(SidesOf(e)) then true
      else if IsFieldTest(c, e) then Foldable(e, Nothing, m) && Eval(e, m).Bool?
      else true
    case Paren(x) => Carries(c, x, m)
  }

  /** A filter that is left over: comparisons of variables, joined by AND and OR. */
  ghost predicate Residual(f: Expr) {
    match f
    case Binary(op, l, r) => if Logical(op) then Residual(l) && Residual(r) else Stays(f)
    case Paren(x) => Residual(x)
    case _ => false
  }

  ghost predicate Filter(f: Expr) {
    f == Boolean(true) || Residual(f)
  }

  lemma {:induction false} ResidualStays(f: Expr)
    requires Residual(f)
    ensures Red(f, Nothing).Some? && Residual(Red(f, Nothing).value)
  {
    match f
    case Binary(op, l, r) =>
      if Logical(op) {
        ResidualStays(l);
        ResidualStays(r);
        var l', r' := Red(l, Nothing).value, Red(r, Nothing).value;
        assert Fold(op, l', r') == Some(Binary(op, l', r'));
      } else {
        RedIdempotent(f, Red(f, Nothing).value);
      }
    case Paren(x) => ResidualStays(x);
  }

  /** Merging two filters never folds to false, so no series is culled. */
  lemma MergedIsFilter(op: Op, f: Expr, g: Expr)
    requires Logical(op) && Filter(f) && Filter(g)
    ensures Reduce.Reduce(Binary(op, f, g), Nothing).Some?
    ensures Filter(Reduce.Reduce(Binary(op, f, g), Nothing).value)
    ensures op == OR && (f == Boolean(true) || g == Boolean(true)) ==> Reduce.Reduce(Binary(op, f, g), Nothing) == Some(Boolean(true))
  {
    if Residual(f) {
      ResidualStays(f);
    }
    if Residual(g) {
      ResidualStays(g);
    }
    var f', g' := Red(f, Nothing).value, Red(g, Nothing).value;
    if !f'.Boolean? && !g'.Boolean? {
      assert Fold(op, f', g') == Some(Binary(op, f', g'));
    }
  }

  /** A filter says of every point that carries the fields whether it passes. */
  ghost predicate FilterMeans(c: Context, f: Expr, e: Expr, tags: Tags)
    requires Condition(c, e)
  {
    forall m :: Carries(c, e, m) ==> Foldable(f, Nothing, m) && Eval(f, m) == Bool(Passes(c, e, tags, m))
  }

  lemma MergedMeans(c: Context, op: Op, l: Expr, r: Expr, tags: Tags, f: Expr, g: Expr)
    requires Logical(op) && Condition(c, Binary(op, l, r)) && Filter(f) && Filter(g)
    requires Selects(c, l, tags) && Selects(c, r, tags)
    requires FilterMeans(c, f, l, tags) && FilterMeans(c, g, r, tags)
    ensures Reduce.Reduce(Binary(op, f, g), Nothing).Some?
    ensures FilterMeans(c, Reduce.Reduce(Binary(op, f, g), Nothing).value, Binary(op, l, r), tags)
  {
    MergedIsFilter(op, f, g);
    var x := Reduce.Reduce(Binary(op, f, g), Nothing).value;
    forall m | Carries(c, Binary(op, l, r), m)
      ensures Foldable(x, Nothing, m) && Eval(x, m) == Bool(Passes(c, Binary(op, l, r), tags, m))
    {
      assert Carries(c, l, m) && Carries(c, r, m);
      JoinedValue(op, f, g, m, Passes(c, l, tags, m), Passes(c, r, tags, m));
      hide Eval, Foldable, Reduce.Reduce;
    }
    hide Passes, Carries, Foldable, Reduce.Reduce;
  }

  lemma JoinedValue(op: Op, f: Expr, g: Expr, m: Env, a: bool, b: bool)
    requires Logical(op) && Foldable(f, Nothing, m) && Foldable(g, Nothing, m) && Eval(f, m) == Bool(a) && Eval(g, m) == Bool(b)
    requires Reduce.Reduce(Binary(op, f, g), Nothing).Some?
    ensures var x := Reduce.Reduce(Binary(op, f, g), Nothing).value;
      Foldable(x, Nothing, m) && Eval(x, m) == Bool(if op == AND then a && b else a || b)
  {
    var e := Binary(op, f, g);
    assert Foldable(e, Nothing, m);
    ReduceKeepsMeaning(e, Nothing, m);
    RedFoldable(e, m);
  }

  lemma TrueMeans(c: Context, e: Expr, tags: Tags)
    requires Condition(c, e) && forall m :: Carries(c, e, m) ==> Passes(c, e, tags, m)
    ensures FilterMeans(c, Boolean(true), e, tags)
  {
  }

  // ----- The walker -----

  ghost function ContextOf(m: Measurement, matches: Matcher): Context
    reads m
  {
    Context(m.fieldNames, m.seriesByTagKeyValue.Keys, matches)
  }

  datatype IdsResult = InvalidExpression | Ids(ids: seq<nat>, filter: Option<Expr>)

  /** Some processed value of the tag matches and lists this id. */
  ghost predicate ListedUnder(values: map<string, seq<nat>>, done: set<string>, re: string, matches: Matcher, id: nat) {
    exists v :: v in done && v in values && matches(re, v) && id in values[v]
  }

  /** The loop over the values of a tag, for a regex comparison, in any order. */
  method RegexIds(all: seq<nat>, values: map<string, seq<nat>>, op: Op, re: string, matches: Matcher) returns (ids: seq<nat>)
    requires Ascending(all) && forall v :: v in values ==> Ascending(values[v])
    ensures Ascending(ids)
    ensures forall id :: id in ids <==>
              || (op == NEQREGEX && id in all && !ListedUnder(values, values.Keys, re, matches, id))
              || (op == EQREGEX && ListedUnder(values, values.Keys, re, matches, id))
  {
    ids := if op == NEQREGEX then all else [];
    var todo := values.Keys;
    ghost var done: set<string> := {};
    while todo != {}
      invariant todo + done == values.Keys && todo !! done && Ascending(ids)
      invariant forall id :: id in ids <==>
                  || (op == NEQREGEX && id in all && !ListedUnder(values, done, re, matches, id))
                  || (op == EQREGEX && ListedUnder(values, done, re, matches, id))
      decreases |todo|
    {
      var k :| k in todo;
      JoinExact(ids, values[k]);
      MinusExact(ids, values[k]);
      ListedUnderStep(values, done, k, re, matches);
      if matches(re, k) && op == EQREGEX {
        ids := Union(ids, values[k]);
      } else if matches(re, k) && op == NEQREGEX {
        ids := Reject(ids, values[k]);
      }
      todo, done := todo - {k}, done + {k};
    }
    assert done == values.Keys;
  }

  lemma ListedUnderStep(values: map<string, seq<nat>>, done: set<string>, k: string, re: string, matches: Matcher)
    requires k in values
    ensures forall id :: ListedUnder(values, done + {k}, re, matches, id)
                    <==> ListedUnder(values, done, re, matches, id) || (matches(re, k) && id in values[k])
  {
    forall id ensures ListedUnder(values, done + {k}, re, matches, id)
                 <==> ListedUnder(values, done, re, matches, id) || (matches(re, k) && id in values[k])
    {
      if matches(re, k) && id in values[k] {
        assert k in done + {k};
      }
    }
  }

  /** The series whose tag value is, or is not, a given text. */
  method TextIds(m: Measurement, op: Op, name: string, text: string) returns (ids: seq<nat>)
    requires m.Valid() && name in m.seriesByTagKeyValue
    ensures Ascending(ids)
    ensures op == EQ ==> forall id :: id in ids <==> HasTag(m.seriesByID, id, name, text)
    ensures op == NEQ ==> forall id :: id in ids <==> id in m.seriesByID && !HasTag(m.seriesByID, id, name, text)
    ensures op != EQ && op != NEQ ==> ids == []
  {
    LiveIds(m);
    PostingOf(m, name, text);
    hide Exact;
    var tagVals := m.seriesByTagKeyValue[name];
    var listed := if text in tagVals then tagVals[text] else [];
    ids := [];
    if op == EQ {
      ids := listed;
    } else if op == NEQ {
      MinusExact(m.seriesIDs, listed);
      ids := Reject(m.seriesIDs, listed);
    }
  }

  /** The tag part of `idsForExpr`: a comparison of a tag key the measurement has. */
  method TagIds(m: Measurement, matches: Matcher, op: Op, name: string, value: Expr) returns (ids: seq<nat>, filter: Option<Expr>)
    requires m.Valid() && name in m.seriesByTagKeyValue
    ensures Ascending(ids) && (ids != [] ==> filter == Some(Boolean(true)))
    ensures forall id :: id in ids <==> id in m.seriesByID && TagHolds(op, m.seriesByID[id].tags, name, value, matches)
  {
    hide Exact, ListedUnder;
    if value.String? {
      ids := TextIds(m, op, name, value.s);
      return ids, Some(Boolean(true));
    }
    if value.Regex? {
      LiveIds(m);
      RegexPostings(m, name, value.re, matches);
      ids := RegexIds(m.seriesIDs, m.seriesByTagKeyValue[name], op, value.re, matches);
      return ids, Some(Boolean(true));
    }
    return [], None;
  }

  /** `idsForExpr`: the series of one comparison, and the filter for their points. */
  method IdsForExpr(m: Measurement, matches: Matcher, n: Expr) returns (r: IdsResult)
    requires m.Valid() && n.Binary?
    ensures r.InvalidExpression? <==> SidesOf(n).NoSide?
    ensures r.Ids? ==> Ascending(r.ids) && forall id :: id in r.ids ==> id in m.seriesByID
    ensures !Logical(n.op) && Condition(ContextOf(m, matches), n) ==>
              && r.Ids?
              && (r.ids != [] ==> r.filter == Some(if IsFieldTest(ContextOf(m, matches), n) then n else Boolean(true)))
              && forall id :: id in m.seriesByID ==>
                   (id in r.ids <==> Selects(ContextOf(m, matches), n, m.seriesByID[id].tags))
  {
    LiveIds(m);
    hide Exact, TagHolds, Stays;
    var s := SidesOf(n);
    if s.NoSide? {
      return InvalidExpression;
    }
    if s.value.Time? || s.name == "time" {
      return Ids(m.seriesIDs, Some(Boolean(true)));
    }
    if s.name in m.fieldNames {
      return Ids(m.seriesIDs, Some(n));
    }
    if s.name !in m.seriesByTagKeyValue {
      return Ids([], None);
    }
    var ids, filter := TagIds(m, matches, n.op, s.name, s.value);
    return Ids(ids, filter);
  }

  lemma LiveIds(m: Measurement)
    requires m.Valid()
    ensures Ascending(m.seriesIDs) && forall id :: id in m.seriesIDs <==> id in m.seriesByID
  {
  }

  lemma PostingOf(m: Measurement, k: string, v: string)
    requires m.Valid()
    ensures Ascending(Posting(m.seriesByTagKeyValue, k, v))
    ensures forall id :: id in Posting(m.seriesByTagKeyValue, k, v) <==> HasTag(m.seriesByID, id, k, v)
  {
    assert PostingExact(m.seriesByID, m.seriesByTagKeyValue, k, v);
  }

  lemma RegexPostings(m: Measurement, k: string, re: string, matches: Matcher)
    requires m.Valid() && k in m.seriesByTagKeyValue
    ensures var values := m.seriesByTagKeyValue[k];
            && (forall v :: v in values ==> Ascending(values[v]))
            && forall id :: ListedUnder(values, values.Keys, re, matches, id) <==>
                 id in m.seriesByID && k in m.seriesByID[id].tags && matches(re, m.seriesByID[id].tags[k])
  {
    var values := m.seriesByTagKeyValue[k];
    forall v | v in values ensures Ascending(values[v]) {
      PostingOf(m, k, v);
    }
    forall id ensures ListedUnder(values, values.Keys, re, matches, id) <==>
      id in m.seriesByID && k in m.seriesByID[id].tags && matches(re, m.seriesByID[id].tags[k])
    {
      if ListedUnder(values, values.Keys, re, matches, id) {
        var v :| v in values.Keys && v in values && matches(re, v) && id in values[v];
        PostingOf(m, k, v);
        assert HasTag(m.seriesByID, id, k, v);
      }
      if id in m.seriesByID && k in m.seriesByID[id].tags && matches(re, m.seriesByID[id].tags[k]) {
        var v := m.seriesByID[id].tags[k];
        PostingOf(m, k, v);
        assert HasTag(m.seriesByID, id, k, v);
        assert v in values.Keys;
      }
    }
  }

  type Filters = map<nat, Expr>

  /** The filter of one series after a merge; None when folding panics. */
  function MergedFilter(op: Op, lfilters: Filters, rfilters: Filters, id: nat): Option<Expr> {
    var def := Boolean(op == OR);
    Reduce.Reduce(Binary(op, if id in lfilters then lfilters[id] else def, if id in rfilters then rfilters[id] else def), Nothing)
  }

  /** The ids whose merged filter is not literally false, in order. */
  function Survivors(op: Op, ids: seq<nat>, lfilters: Filters, rfilters: Filters): seq<nat> {
    if ids == [] then []
    else Survivors(op, ids[..|ids| - 1], lfilters, rfilters) +
         (if MergedFilter(op, lfilters, rfilters, ids[|ids| - 1]) == Some(Boolean(false)) then [] else [ids[|ids| - 1]])
  }

  /** What a merge has built after the ids in `done`. */
  ghost predicate Built(op: Op, done: seq<nat>, lfilters: Filters, rfilters: Filters, series: seq<nat>, filters: Filters) {
    && (forall id :: id in done ==> MergedFilter(op, lfilters, rfilters, id).Some?)
    && series == Survivors(op, done, lfilters, rfilters)
    && (forall id :: id in filters <==> id in series)
    && forall id :: id in series ==> Some(filters[id]) == MergedFilter(op, lfilters, rfilters, id)
  }

  lemma BuiltSkip(op: Op, done: seq<nat>, id: nat, lfilters: Filters, rfilters: Filters, series: seq<nat>, filters: Filters)
    requires Built(op, done, lfilters, rfilters, series, filters)
    requires MergedFilter(op, lfilters, rfilters, id) == Some(Boolean(false))
    ensures Built(op, done + [id], lfilters, rfilters, series, filters)
  {
    hide MergedFilter;
    assert (done + [id])[..|done|] == done;
  }

  lemma BuiltKeep(op: Op, done: seq<nat>, id: nat, lfilters: Filters, rfilters: Filters, series: seq<nat>, filters: Filters)
    requires Built(op, done, lfilters, rfilters, series, filters)
    requires MergedFilter(op, lfilters, rfilters, id).Some? && MergedFilter(op, lfilters, rfilters, id).value != Boolean(false)
    ensures Built(op, done + [id], lfilters, rfilters, series + [id], filters[id := MergedFilter(op, lfilters, rfilters, id).value])
  {
    hide MergedFilter;
    assert (done + [id])[..|done|] == done;
  }

  lemma BuiltAll(op: Op, ids: seq<nat>, lfilters: Filters, rfilters: Filters, series: seq<nat>, filters: Filters)
    requires Built(op, ids, lfilters, rfilters, series, filters)
    ensures filters.Keys == (set id | id in series)
  {
  }

  /** `mergeSeriesFilters`: `ok` is false when folding a filter panics. */
  method MergeSeriesFilters(op: Op, ids: seq<nat>, lfilters: Filters, rfilters: Filters)
    returns (series: seq<nat>, filters: Filters, ok: bool)
    ensures ok <==> forall id :: id in ids ==> MergedFilter(op, lfilters, rfilters, id).Some?
    ensures ok ==> series == Survivors(op, ids, lfilters, rfilters)
    ensures ok ==> filters.Keys == (set id | id in series)
    ensures ok ==> forall id :: id in series ==> Some(filters[id]) == MergedFilter(op, lfilters, rfilters, id)
  {
    hide MergedFilter, Survivors;
    series, filters, ok := [], map[], true;
    assert Built(op, [], lfilters, rfilters, series, filters) by {
      BuiltNothing(op, lfilters, rfilters);
    }
    for i := 0 to |ids|
      invariant Built(op, ids[..i], lfilters, rfilters, series, filters)
    {
      var expr := MergedFilter(op, lfilters, rfilters, ids[i]);
      assert ids[..i + 1] == ids[..i] + [ids[i]];
      if expr.None? {
        return series, filters, false;
      }
      if expr.value == Boolean(false) {
        BuiltSkip(op, ids[..i], ids[i], lfilters, rfilters, series, filters);
        continue;
      }
      BuiltKeep(op, ids[..i], ids[i], lfilters, rfilters, series, filters);
      filters := filters[ids[i] := expr.value];
      series := series + [ids[i]];
    }
    assert ids[..|ids|] == ids;
    BuiltAll(op, ids, lfilters, rfilters, series, filters);
  }

  lemma BuiltNothing(op: Op, lfilters: Filters, rfilters: Filters)
    ensures Built(op, [], lfilters, rfilters, [], map[])
  {
  }

  lemma {:induction false} AllSurvive(op: Op, ids: seq<nat>, lfilters: Filters, rfilters: Filters)
    requires forall id :: id in ids ==> MergedFilter(op, lfilters, rfilters, id) != Some(Boolean(false))
    ensures Survivors(op, ids, lfilters, rfilters) == ids
  {
    hide MergedFilter;
    if ids != [] {
      AllSurvive(op, ids[..|ids| - 1], lfilters, rfilters);
      assert ids == ids[..|ids| - 1] + [ids[|ids| - 1]];
    }
  }

  lemma {:induction false} SurvivorsAscend(op: Op, ids: seq<nat>, lfilters: Filters, rfilters: Filters)
    requires Ascending(ids)
    ensures Ascending(Survivors(op, ids, lfilters, rfilters))
    ensures forall id :: id in Survivors(op, ids, lfilters, rfilters) ==> id in ids
  {
    hide MergedFilter;
    if ids != [] {
      var n := |ids| - 1;
      SurvivorsAscend(op, ids[..n], lfilters, rfilters);
      var s := Survivors(op, ids[..n], lfilters, rfilters);
      forall y | y in s ensures y < ids[n] {
        assert y in ids[..n];
      }
      SnocAscending(s, ids[n]);
    }
  }

  datatype WalkResult = Invalid | Panics | Walked(ids: seq<nat>, filters: Filters)

  /** The walker's answer: the selected series in order, each with a filter that says which points pass. */
  ghost predicate Answers(c: Context, byID: map<nat, Series>, e: Expr, ids: seq<nat>, filters: Filters)
    requires Condition(c, e)
  {
    && Ascending(ids)
    && (forall id :: id in ids <==> id in byID && Selects(c, e, byID[id].tags))
    && filters.Keys == (set id | id in ids)
    && forall id :: id in ids ==> Filter(filters[id]) && FilterMeans(c, filters[id], e, byID[id].tags)
  }

  lemma LeafFilterMeans(c: Context, n: Expr, tags: Tags)
    requires Condition(c, n) && n.Binary? && !Logical(n.op)
    ensures var f := if IsFieldTest(c, n) then n else Boolean(true);
            Filter(f) && FilterMeans(c, f, n, tags)
  {
    if IsFieldTest(c, n) {
      assert Stays(n);
    }
  }

  lemma MergedAnswers(c: Context, op: Op, l: Expr, r: Expr, tags: Tags, lfilters: Filters, rfilters: Filters, id: nat)
    requires Logical(op) && Condition(c, Binary(op, l, r)) && Selects(c, Binary(op, l, r), tags)
    requires id in lfilters <==> Selects(c, l, tags)
    requires id in rfilters <==> Selects(c, r, tags)
    requires id in lfilters ==> Filter(lfilters[id]) && FilterMeans(c, lfilters[id], l, tags)
    requires id in rfilters ==> Filter(rfilters[id]) && FilterMeans(c, rfilters[id], r, tags)
    ensures MergedFilter(op, lfilters, rfilters, id).Some?
    ensures var f := MergedFilter(op, lfilters, rfilters, id).value;
            Filter(f) && FilterMeans(c, f, Binary(op, l, r), tags)
  {
    if id in lfilters && id in rfilters {
      MergedIsFilter(op, lfilters[id], rfilters[id]);
      MergedMeans(c, op, l, r, tags, lfilters[id], rfilters[id]);
    } else {
      assert op == OR;
      MergedIsFilter(OR, if id in lfilters then lfilters[id] else Boolean(true), if id in rfilters then rfilters[id] else Boolean(true));
      TrueMeans(c, Binary(op, l, r), tags);
    }
  }

  lemma LogicalAnswers(c: Context, byID: map<nat, Series>, op: Op, l: Expr, r: Expr,
                       lids: seq<nat>, lfilters: Filters, rids: seq<nat>, rfilters: Filters, ids: seq<nat>)
    requires Logical(op) && Condition(c, Binary(op, l, r))
    requires Answers(c, byID, l, lids, lfilters) && Answers(c, byID, r, rids, rfilters)
    requires ids == if op == AND then Meet(lids, rids) else Join(lids, rids)
    ensures Ascending(ids)
    ensures forall id :: id in ids <==> id in byID && Selects(c, Binary(op, l, r), byID[id].tags)
    ensures forall id :: id in ids ==>
              && MergedFilter(op, lfilters, rfilters, id).Some?
              && var f := MergedFilter(op, lfilters, rfilters, id).value;
                 Filter(f) && FilterMeans(c, f, Binary(op, l, r), byID[id].tags)
  {
    hide MergedFilter, Filter, FilterMeans;
    MeetExact(lids, rids);
    JoinExact(lids, rids);
    forall id ensures id in ids <==> id in byID && Selects(c, Binary(op, l, r), byID[id].tags) {
    }
    forall id | id in ids
      ensures MergedFilter(op, lfilters, rfilters, id).Some?
      ensures Filter(MergedFilter(op, lfilters, rfilters, id).value)
      ensures FilterMeans(c, MergedFilter(op, lfilters, rfilters, id).value, Binary(op, l, r), byID[id].tags)
    {
      MergedAnswers(c, op, l, r, byID[id].tags, lfilters, rfilters, id);
    }
  }

  /** `walkWhereForSeriesIds`. */
  method WalkWhere(m: Measurement, matches: Matcher, e: Expr) returns (r: WalkResult)
    requires m.Valid()
    ensures r.Walked? ==> Ascending(r.ids)
    ensures Condition(ContextOf(m, matches), e) ==>
              r.Walked? && Answers(ContextOf(m, matches), m.seriesByID, e, r.ids, r.filters)
    decreases e
  {
    match e {
      case Binary(op, lhs, rhs) =>
        if Comparison(op) {
          r := WalkComparison(m, matches, e);
        } else if Logical(op) {
          r := WalkLogical(m, matches, op, lhs, rhs);
        } else {
          var found := IdsForExpr(m, matches, e);
          r := if found.Ids? then Walked(found.ids, map[]) else Invalid;
        }
      case Paren(x) =>
        r := WalkWhere(m, matches, x);
      case _ =>
        r := Walked([], map[]);
    }
  }

  method WalkComparison(m: Measurement, matches: Matcher, n: Expr) returns (r: WalkResult)
    requires m.Valid() && n.Binary? && Comparison(n.op)
    ensures r.Walked? ==> Ascending(r.ids)
    ensures Condition(ContextOf(m, matches), n) ==>
              r.Walked? && Answers(ContextOf(m, matches), m.seriesByID, n, r.ids, r.filters)
  {
    hide Exact;
    var found := IdsForExpr(m, matches, n);
    if found.InvalidExpression? {
      return Invalid;
    }
    var filters: Filters := map[];
    if found.filter.Some? {
      filters := map id | id in found.ids :: found.filter.value;
    }
    r := Walked(found.ids, filters);
    if Condition(ContextOf(m, matches), n) {
      forall id | id in r.ids
        ensures Filter(filters[id]) && FilterMeans(ContextOf(m, matches), filters[id], n, m.seriesByID[id].tags)
      {
        LeafFilterMeans(ContextOf(m, matches), n, m.seriesByID[id].tags);
      }
    }
  }

  method WalkLogical(m: Measurement, matches: Matcher, op: Op, lhs: Expr, rhs: Expr) returns (r: WalkResult)
    requires m.Valid() && Logical(op)
    ensures r.Walked? ==> Ascending(r.ids)
    ensures Condition(ContextOf(m, matches), Binary(op, lhs, rhs)) ==>
              r.Walked? && Answers(ContextOf(m, matches), m.seriesByID, Binary(op, lhs, rhs), r.ids, r.filters)
    decreases Binary(op, lhs, rhs), 0
  {
    hide *;
    ghost var c := ContextOf(m, matches);
    SidesAreConditions(c, op, lhs, rhs);
    var l := WalkWhere(m, matches, lhs);
    if !l.Walked? {
      return l;
    }
    var r' := WalkWhere(m, matches, rhs);
    if !r'.Walked? {
      return r';
    }
    var ids;
    if op == AND {
      ids := Intersect(l.ids, r'.ids);
      MeetExact(l.ids, r'.ids);
    } else {
      ids := Union(l.ids, r'.ids);
      JoinExact(l.ids, r'.ids);
    }
    var series, filters, ok := MergeSeriesFilters(op, ids, l.filters, r'.filters);
    SurvivorsAscend(op, ids, l.filters, r'.filters);
    r := if ok then Walked(series, filters) else Panics;
    if Condition(c, Binary(op, lhs, rhs)) {
      LogicalAnswers(c, m.seriesByID, op, lhs, rhs, l.ids, l.filters, r'.ids, r'.filters, ids);
      NotFalse(op, ids, l.filters, r'.filters);
      AllSurvive(op, ids, l.filters, r'.filters);
      CollectAnswers(c, m.seriesByID, op, lhs, rhs, l.filters, r'.filters, ids, filters);
    }
  }

  lemma SidesAreConditions(c: Context, op: Op, l: Expr, r: Expr)
    requires Logical(op)
    ensures Condition(c, Binary(op, l, r)) ==> Condition(c, l) && Condition(c, r)
    ensures op == AND || op == OR
  {
  }

  lemma CollectAnswers(c: Context, byID: map<nat, Series>, op: Op, l: Expr, r: Expr,
                       lfilters: Filters, rfilters: Filters, ids: seq<nat>, filters: Filters)
    requires Logical(op) && Condition(c, Binary(op, l, r)) && Ascending(ids)
    requires forall id :: id in ids <==> id in byID && Selects(c, Binary(op, l, r), byID[id].tags)
    requires forall id :: id in ids ==>
              && MergedFilter(op, lfilters, rfilters, id).Some?
              && var f := MergedFilter(op, lfilters, rfilters, id).value;
                 Filter(f) && FilterMeans(c, f, Binary(op, l, r), byID[id].tags)
    requires filters.Keys == (set id | id in ids)
    requires forall id :: id in ids ==> Some(filters[id]) == MergedFilter(op, lfilters, rfilters, id)
    ensures Answers(c, byID, Binary(op, l, r), ids, filters)
  {
    hide MergedFilter, Filter, FilterMeans, Selects, Condition;
  }

  lemma NotFalse(op: Op, ids: seq<nat>, lfilters: Filters, rfilters: Filters)
    requires forall id :: id in ids ==> MergedFilter(op, lfilters, rfilters, id).Some? && Filter(MergedFilter(op, lfilters, rfilters, id).value)
    ensures forall id :: id in ids ==> MergedFilter(op, lfilters, rfilters, id) != Some(Boolean(false))
  {
    hide MergedFilter;
    forall id | id in ids ensures MergedFilter(op, lfilters, rfilters, id) != Some(Boolean(false)) {
      assert Filter(MergedFilter(op, lfilters, rfilters, id).value);
    }
  }

  // ----- From a condition to the points that are read -----

  /** `OnlyTimeExpr`: nothing but bounds on time, with the variable on the left. */
  predicate OnlyTimeExpr(e: Expr) {
    match e
    case Binary(op, l, r) =>
      if Logical(op) then OnlyTimeExpr(l) && OnlyTimeExpr(r) else l.VarRef? && Lower(l.name) == "time"
    case Paren(x) => OnlyTimeExpr(x)
    case _ => false
  }

  /** The parts that AND, OR and parentheses join. */
  function Joined(e: Expr): seq<Expr> {
    match e
    case Binary(op, l, r) => if Logical(op) then Joined(l) + Joined(r) else [e]
    case Paren(x) => Joined(x)
    case _ => [e]
  }

  /** Every part compares the time, whatever the case of its letters. */
  lemma {:induction false} OnlyTimeExact(e: Expr)
    ensures OnlyTimeExpr(e) <==> forall x :: x in Joined(e) ==> x.Binary? && x.lhs.VarRef? && Lower(x.lhs.name) == "time"
  {
    match e
    case Binary(op, l, r) =>
      if Logical(op) {
        OnlyTimeExact(l);
        OnlyTimeExact(r);
      } else {
        assert e in Joined(e);
      }
    case Paren(x) => OnlyTimeExact(x);
    case _ => assert e in Joined(e);
  }

  /** A part that compares a name which is `time` but for the case of its letters is a bound on time to the walker. */
  ghost predicate Spelled(e: Expr) {
    forall x :: x in Joined(e) && x.Binary? && SidesOf(x).Sides? && Lower(SidesOf(x).name) == "time" ==> IsTimeBound(SidesOf(x))
  }

  /** It is so if every such name is `time` itself. */
  lemma SpelledSo(e: Expr)
    requires forall x :: x in Joined(e) && x.Binary? && SidesOf(x).Sides? && Lower(SidesOf(x).name) == "time" ==> SidesOf(x).name == "time"
    ensures Spelled(e)
  {
  }

  /** What the walker takes for bounds on time is enough to make the condition true. */
  ghost predicate TimeAlone(e: Expr) {
    match e
    case Binary(op, l, r) =>
      if op == AND then TimeAlone(l) && TimeAlone(r)
      else if op == OR then TimeAlone(l) || TimeAlone(r)
      else SidesOf(e).Sides? && IsTimeBound(SidesOf(e))
    case Paren(x) => TimeAlone(x)
    case _ => false
  }

  lemma {:induction false} TimeAloneHolds(c: Context, e: Expr, tags: Tags, m: Env)
    requires Condition(c, e) && TimeAlone(e)
    ensures Holds(c, e, tags, m) && Selects(c, e, tags) && Passes(c, e, tags, m)
  {
    match e
    case Binary(op, l, r) =>
      if Logical(op) {
        if TimeAlone(l) {
          TimeAloneHolds(c, l, tags, m);
        }
        if TimeAlone(r) {
          TimeAloneHolds(c, r, tags, m);
        }
      }
    case Paren(x) => TimeAloneHolds(c, x, tags, m);
  }

  lemma {:induction false} SpelledAlone(c: Context, e: Expr)
    requires Condition(c, e) && OnlyTimeExpr(e) && Spelled(e)
    ensures TimeAlone(e)
  {
    match e
    case Binary(op, l, r) =>
      if Logical(op) {
        SpelledAlone(c, l);
        SpelledAlone(c, r);
      } else {
        assert e in Joined(e);
      }
    case Paren(x) => SpelledAlone(c, x);
  }

  lemma {:induction false} MisspeltSelects(c: Context, e: Expr, tags: Tags)
    requires Condition(c, e) && OnlyTimeExpr(e) && forall n :: n in c.fields + c.keys ==> Lower(n) != "time"
    ensures Selects(c, e, tags) <==> TimeAlone(e)
  {
    match e
    case Binary(op, l, r) =>
      if Logical(op) {
        MisspeltSelects(c, l, tags);
        MisspeltSelects(c, r, tags);
      }
    case Paren(x) => MisspeltSelects(c, x, tags);
  }

  /**
   Reading every series of a condition that is only about time does what walking it
   would do, if the time is spelled `time`. If no field and no tag key is called so in
   any spelling, it does if and only if what the walker takes for bounds on time makes
   the condition true: otherwise the walker would select nothing.
   */
  lemma OnlyTimeReadsAll(c: Context, e: Expr, tags: Tags, m: Env)
    requires Condition(c, e) && OnlyTimeExpr(e)
    ensures Spelled(e) || TimeAlone(e) ==> Holds(c, e, tags, m) && Selects(c, e, tags) && Passes(c, e, tags, m)
    ensures (forall n :: n in c.fields + c.keys ==> Lower(n) != "time") ==>
              (Selects(c, e, tags) && Passes(c, e, tags, m) <==> TimeAlone(e))
  {
    hide *;
    if Spelled(e) {
      SpelledAlone(c, e);
    }
    if TimeAlone(e) {
      TimeAloneHolds(c, e, tags, m);
    }
    if forall n :: n in c.fields + c.keys ==> Lower(n) != "time" {
      MisspeltSelects(c, e, tags);
    }
  }

  type SeriesFilters = map<nat, Option<Expr>>

  /** A point of series `id` with these fields is read. */
  ghost predicate Read(f: SeriesFilters, id: nat, m: Env) {
    id in f && (f[id].Some? ==> EvalBool(f[id].value, m))
  }

  lemma AnswerReads(c: Context, byID: map<nat, Series>, e: Expr, ids: seq<nat>, filters: Filters, f: SeriesFilters, id: nat, m: Env)
    requires Condition(c, e) && Answers(c, byID, e, ids, filters) && Carries(c, e, m) && id in byID
    requires f.Keys == filters.Keys
    requires forall x :: x in f ==> f[x] == if filters[x] == Boolean(true) then None else Some(filters[x])
    ensures Read(f, id, m) <==> Selects(c, e, byID[id].tags) && Passes(c, e, byID[id].tags, m)
  {
    if id in ids {
      assert FilterMeans(c, filters[id], e, byID[id].tags);
    }
  }

  /** A point is read exactly if its series is selected and it passes; so are all that satisfy the condition, and of tight series no others. */
  ghost predicate ReadsAsWalked(c: Context, e: Expr, tags: Tags, env: Env, read: bool)
    requires Condition(c, e)
  {
    && (read <==> Selects(c, e, tags) && Passes(c, e, tags, env))
    && (Present(c, e, tags) && Holds(c, e, tags, env) ==> read)
    && ((TagsOnly(c, e) || Tight(c, e, tags)) && read ==> Holds(c, e, tags, env))
  }

  /**
   `filters`: for a condition over tags and fields, a point that carries the
   compared fields is read exactly if its series is selected and it passes. Unless
   an inequality on an absent tag key is true of its series, it is read if the
   condition holds of it. If no field is compared, or its series is tight for the
   condition, it is read only then. The one exception is a condition that is only
   about time, with the time in another spelling, of which every point is read.
   */
  method FiltersFor(m: Measurement, matches: Matcher, condition: Option<Expr>) returns (r: Option<SeriesFilters>)
    requires m.Valid()
    ensures condition.None? || OnlyTimeExpr(condition.value) ==>
              r.Some? && forall id, env :: Read(r.value, id, env) <==> id in m.seriesByID
    ensures condition.Some? && Condition(ContextOf(m, matches), condition.value) ==>
              && r.Some?
              && var c, e := ContextOf(m, matches), condition.value;
                 Spelled(e) || !OnlyTimeExpr(e) || TimeAlone(e) ==>
                   forall id, env :: id in m.seriesByID && Carries(c, e, env) ==>
                     ReadsAsWalked(c, e, m.seriesByID[id].tags, env, Read(r.value, id, env))
  {
    LiveIds(m);
    hide Exact, Answers, EvalBool, ReadsAsWalked, Spelled, TimeAlone;
    ghost var c := ContextOf(m, matches);
    if condition.None? || OnlyTimeExpr(condition.value) {
      r := Some(map id | id in m.seriesIDs :: None);
      if condition.Some? && Condition(c, condition.value) && (Spelled(condition.value) || TimeAlone(condition.value)) {
        forall id, env | id in m.seriesByID
          ensures ReadsAsWalked(c, condition.value, m.seriesByID[id].tags, env, Read(r.value, id, env))
        {
          AllReadAsWalked(c, condition.value, m.seriesByID[id].tags, env);
        }
      }
      return;
    }
    var e := condition.value;
    var walked := WalkWhere(m, matches, e);
    if !walked.Walked? {
      return None;
    }
    var f := UnwrapTrue(walked.ids, walked.filters);
    r := Some(f);
    if Condition(c, e) {
      FiltersAreKeyed(c, m.seriesByID, e, walked.ids, walked.filters);
      forall id, env | id in m.seriesByID && Carries(c, e, env)
        ensures ReadsAsWalked(c, e, m.seriesByID[id].tags, env, Read(f, id, env))
      {
        ReadIsHolds(c, m.seriesByID, e, walked.ids, walked.filters, f, id, env);
      }
    }
  }

  lemma AllReadAsWalked(c: Context, e: Expr, tags: Tags, env: Env)
    requires Condition(c, e) && OnlyTimeExpr(e) && (Spelled(e) || TimeAlone(e))
    ensures ReadsAsWalked(c, e, tags, env, true)
  {
    OnlyTimeReadsAll(c, e, tags, env);
  }

  lemma FiltersAreKeyed(c: Context, byID: map<nat, Series>, e: Expr, ids: seq<nat>, filters: Filters)
    requires Condition(c, e) && Answers(c, byID, e, ids, filters)
    ensures filters.Keys == set id | id in ids
  {
  }

  /** The loop at the end of `filters`: series without a filter, or with a literal true, get none. */
  method UnwrapTrue(ids: seq<nat>, filters: Filters) returns (f: SeriesFilters)
    ensures f.Keys == filters.Keys + set id | id in ids
    ensures forall x :: x in f ==> f[x] == if x in filters && (x !in ids || filters[x] != Boolean(true)) then Some(filters[x]) else None
  {
    f := map id | id in filters :: Some(filters[id]);
    for i := 0 to |ids|
      invariant f.Keys == filters.Keys + set id | id in ids[..i]
      invariant forall x :: x in f ==> f[x] == if x in filters && (x !in ids[..i] || filters[x] != Boolean(true)) then Some(filters[x]) else None
    {
      if ids[i] !in filters || filters[ids[i]] == Boolean(true) {
        f := f[ids[i] := None];
      }
      assert ids[..i + 1] == ids[..i] + [ids[i]];
    }
    assert ids[..|ids|] == ids;
  }

  lemma ReadIsHolds(c: Context, byID: map<nat, Series>, e: Expr, ids: seq<nat>, filters: Filters, f: SeriesFilters, id: nat, m: Env)
    requires Condition(c, e) && Answers(c, byID, e, ids, filters) && Carries(c, e, m) && id in byID
    requires f.Keys == filters.Keys
    requires forall x :: x in f ==> f[x] == if filters[x] == Boolean(true) then None else Some(filters[x])
    ensures ReadsAsWalked(c, e, byID[id].tags, m, Read(f, id, m))
  {
    AnswerReads(c, byID, e, ids, filters, f, id, m);
    hide Answers, Read;
    var tags := byID[id].tags;
    if Present(c, e, tags) && Holds(c, e, tags, m) {
      NothingLost(c, e, tags, m);
    }
    if TagsOnly(c, e) {
      TagsOnlyExact(c, e, tags, m);
    } else if Tight(c, e, tags) && Selects(c, e, tags) && Passes(c, e, tags, m) {
      NothingExtra(c, e, tags, m);
    }
  }
}
