/**
 The windows of an aggregate query (tsdb/aggregate.go): `Open`'s interval
 arithmetic, `nextInterval`, the clamping of `NextChunk`, and what each window
 reads from a cursor.
 */
module Windows {
  import R = Reduce

  const MAX_GROUP_BY_POINTS: int := 100_000

  /** The time-related parameters `Open` sets on a mapper. */
  datatype Shape = Shape(qmin: int, qmax: int, intervalN: int, intervalSize: int, qminWindow: int, offset: int)

  datatype Opened = TooManyPoints | NothingToRead | Ready(shape: Shape)

  function IntervalN(qmin: int, qmax: int, d: int): int {
    if qmin == 0 || d == 0 then 1
    else (R.Quotient(qmax, d) * d + d - R.Quotient(qmin, d) * d) / d
  }

  /** `d` is the GROUP BY interval, zero when there is none. */
  function Open(qmin: int, qmax: int, d: nat, limit: nat, offset: nat): Opened {
    var size := if qmin == 0 || d == 0 then qmax - qmin else d;
    var n := IntervalN(qmin, qmax, d);
    if (limit > 0 || offset > 0) && offset > n then NothingToRead
    else
      var n' := if (limit > 0 || offset > 0) && limit < n then limit else n;
      if n' > MAX_GROUP_BY_POINTS then TooManyPoints
      else Ready(Shape(qmin, qmax, n', size, if size > 0 && n' > 1 then R.Quotient(qmin, size) * size else qmin, offset))
  }

  /** The times a window asks the cursors for: from `lo` up to `hi`, and `lo` itself in any case. */
  datatype Window = Window(lo: int, hi: int) {
    predicate Reads(t: int) {
      t == lo || lo <= t < hi
    }

    function End(): int {
      if hi > lo then hi else lo + 1
    }
  }

  /** Where the interval number `i` starts, or -1 after the last. */
  function Start(m: Shape, i: nat): int {
    var t := m.qminWindow + (i + m.offset) * m.intervalSize;
    if t > m.qmax || i + 1 > m.intervalN then -1 else t
  }

  /** The clamped window of an interval. */
  function Clamp(m: Shape, start: int): Window {
    var end := start + m.intervalSize;
    Window(if start < m.qmin then m.qmin else start, if end > m.qmax then m.qmax + 1 else end)
  }

  /** The windows from interval `i` on: a start below zero ends them. */
  function WindowsFrom(m: Shape, i: nat): seq<Window>
    decreases m.intervalN - i
  {
    if Start(m, i) < 0 then [] else [Clamp(m, Start(m, i))] + WindowsFrom(m, i + 1)
  }

  // ----- When the windows tile the query range -----

  /** The windows follow one another without gap or overlap from `from` up to, not including, `to`. */
  predicate Tiles(ws: seq<Window>, from: int, to: int) {
    if ws == [] then from == to
    else ws[0].lo == from && Tiles(ws[1..], ws[0].End(), to)
  }

  /** A time in the range lies in exactly one of the tiles, and no other time lies in any. */
  lemma {:induction false} TilesReadOnce(ws: seq<Window>, from: int, to: int, t: int)
    requires Tiles(ws, from, to)
    ensures from <= to
    ensures (exists k :: 0 <= k < |ws| && ws[k].Reads(t)) <==> from <= t < to
    ensures forall j, k :: 0 <= j < |ws| && 0 <= k < |ws| && ws[j].Reads(t) && ws[k].Reads(t) ==> j == k
  {
    if ws != [] {
      TilesReadOnce(ws[1..], ws[0].End(), to, t);
      assert forall k :: 0 < k < |ws| ==> ws[k] == ws[1..][k - 1];
      if from <= t < to {
        if t < ws[0].End() {
          assert ws[0].Reads(t);
        } else {
          var k :| 0 <= k < |ws[1..]| && ws[1..][k].Reads(t);
          assert ws[k + 1].Reads(t);
        }
      }
    }
  }

  lemma FloorIs(q: int, d: int)
    requires 0 < d && 0 <= q
    ensures R.Quotient(q, d) * d == q - q % d
    ensures 0 <= q % d < d
  {
    assert R.Quotient(q, d) == q / d;
  }

  lemma ProductStep(n: int, d: int)
    ensures (n - 1) * d == n * d - d
  {
  }

  lemma QuotientOf(a: int, n: int, d: int)
    requires d > 0 && a == n * d
    ensures a / d == n
  {
    var q, r := a / d, a % d;
    assert (n - q) * d == r;
    Grid(n - q, d);
  }

  lemma Grid(k: int, d: int)
    requires d > 0 && 0 <= k * d < d
    ensures k == 0
  {
  }

  /** The remaining windows tile the rest of the range, from an interval that starts at `t`. */
  lemma {:induction false} TileFrom(m: Shape, i: nat, t: int)
    requires m.offset == 0 && m.intervalSize > 0 && 0 <= t <= m.qmax && 0 <= m.qmin <= m.qmax
    requires t == m.qminWindow + i * m.intervalSize
    requires i < m.intervalN && t + (m.intervalN - i) * m.intervalSize > m.qmax >= t + (m.intervalN - i - 1) * m.intervalSize
    requires m.qmin < t + m.intervalSize
    ensures Tiles(WindowsFrom(m, i), if t < m.qmin then m.qmin else t, m.qmax + 1)
    decreases m.intervalN - i
  {
    var s := m.intervalSize;
    assert i + m.offset == i;
    assert Start(m, i) == t;
    var ws := WindowsFrom(m, i);
    assert ws[1..] == WindowsFrom(m, i + 1);
    if i + 1 == m.intervalN {
      assert t + s > m.qmax;
      assert WindowsFrom(m, i + 1) == [];
    } else {
      NextStart(m, i);
      TileFrom(m, i + 1, t + s);
    }
  }

  lemma NextStart(m: Shape, i: nat)
    requires m.intervalSize > 0 && i + 1 < m.intervalN
    ensures m.qminWindow + (i + 1) * m.intervalSize == m.qminWindow + i * m.intervalSize + m.intervalSize
    ensures (m.intervalN - i) * m.intervalSize == (m.intervalN - (i + 1)) * m.intervalSize + m.intervalSize
    ensures (m.intervalN - i - 1) * m.intervalSize == (m.intervalN - (i + 1) - 1) * m.intervalSize + m.intervalSize
    ensures (m.intervalN - i - 1) * m.intervalSize >= m.intervalSize
  {
    var k := m.intervalN - i - 1;
    ProductStep(k, m.intervalSize);
    ProductStep(k + 1, m.intervalSize);
    ProductStep(i + 1, m.intervalSize);
    assert (k - 1) * m.intervalSize >= 0;
  }

  /** A grouped query with a positive lower bound, or a single instant. */
  predicate Tileable(qmin: int, qmax: int, d: nat) {
    qmin >= 0 && (qmin == qmax || (qmin > 0 && d > 0))
  }

  lemma {:induction false} WindowsTile(qmin: int, qmax: int, d: nat, m: Shape)
    requires Open(qmin, qmax, d, 0, 0) == Ready(m) && qmin <= qmax && Tileable(qmin, qmax, d)
    ensures Tiles(WindowsFrom(m, 0), qmin, qmax + 1)
  {
    hide Open, WindowsFrom, Start;
    if qmin == 0 || d == 0 {
      UngroupedShape(qmin, qmax, d, m);
      OneWindow(m);
      assert Tiles([], qmax + 1, qmax + 1);
    } else {
      GroupedTile(qmin, qmax, d, m);
    }
  }

  lemma UngroupedShape(qmin: int, qmax: int, d: nat, m: Shape)
    requires Open(qmin, qmax, d, 0, 0) == Ready(m) && (qmin == 0 || d == 0)
    ensures m == Shape(qmin, qmax, 1, qmax - qmin, qmin, 0)
  {
    hide R.Quotient;
  }

  /** With one interval the window is all of the interval. */
  lemma OneWindow(m: Shape)
    requires m.intervalN == 1 && m.offset == 0 && m.qminWindow == m.qmin && 0 <= m.qmin <= m.qmax
    ensures WindowsFrom(m, 0) == [Clamp(m, m.qmin)]
  {
    assert Start(m, 0) == m.qmin && Start(m, 1) == -1;
  }

  lemma GroupedTile(qmin: int, qmax: int, d: nat, m: Shape)
    requires Open(qmin, qmax, d, 0, 0) == Ready(m) && 0 < qmin <= qmax && d > 0
    ensures Tiles(WindowsFrom(m, 0), qmin, qmax + 1)
  {
    hide WindowsFrom, Start, Tiles;
    OpenedShape(qmin, qmax, d, 0, 0, m);
    GroupedCount(qmin, qmax, d);
    if m.intervalN == 1 {
      SingleTile(m);
    } else {
      GroupedSpans(qmin, qmax, d, m);
      WholeTiles(m, m.intervalN);
      assert Whole(m, m.intervalN) == m;
    }
  }

  lemma SingleTile(m: Shape)
    requires m.intervalN == 1 && m.offset == 0 && m.qminWindow == m.qmin && 0 <= m.qmin <= m.qmax
    requires m.qmin + m.intervalSize > m.qmax
    ensures Tiles(WindowsFrom(m, 0), m.qmin, m.qmax + 1)
  {
    OneWindow(m);
    assert Tiles([], m.qmax + 1, m.qmax + 1);
  }

  lemma IntervalCount(a: int, b: int, d: int)
    requires d > 0
    ensures ((a * d + d - b * d) / d) * d == a * d + d - b * d
  {
    Spread(a, b, d);
    QuotientOf(a * d + d - b * d, a - b + 1, d);
  }

  lemma Spread(a: int, b: int, d: int)
    ensures a * d + d - b * d == (a - b + 1) * d
  {
  }

  lemma AtLeastOne(n: int, d: int)
    requires d > 0 && n * d > 0
    ensures n >= 1
  {
  }

  lemma {:induction false} NoWindowBelowZero(m: Shape, i: nat, w: Window)
    requires w in WindowsFrom(m, i)
    ensures w.lo >= 0
    decreases m.intervalN - i
  {
    if w != Clamp(m, Start(m, i)) {
      NoWindowBelowZero(m, i + 1, w);
    }
  }

  predicate ReadBy(ws: seq<Window>, t: int) {
    exists k :: 0 <= k < |ws| && ws[k].Reads(t)
  }

  ghost predicate ReadsJust(ws: seq<Window>, qmin: int, qmax: int) {
    forall t :: ReadBy(ws, t) <==> qmin <= t <= qmax
  }

  /**
   Without LIMIT and OFFSET, the windows of a query read exactly the times of its
   range if and only if the query is grouped by time from a positive lower bound,
   or asks for one instant. (Ungrouped, or from time zero, the upper bound itself
   is not read; from below time zero, the lower bound is not.)
   */
  lemma WindowsExact(qmin: int, qmax: int, d: nat, m: Shape)
    requires Open(qmin, qmax, d, 0, 0) == Ready(m) && qmin <= qmax
    ensures ReadsJust(WindowsFrom(m, 0), qmin, qmax) <==> Tileable(qmin, qmax, d)
  {
    hide Open, WindowsFrom, Start, Tiles;
    var ws := WindowsFrom(m, 0);
    if Tileable(qmin, qmax, d) {
      WindowsTile(qmin, qmax, d, m);
      forall t ensures ReadBy(ws, t) <==> qmin <= t <= qmax {
        TilesReadOnce(ws, qmin, qmax + 1, t);
      }
    } else if qmin < 0 {
      forall k | 0 <= k < |ws| ensures !ws[k].Reads(qmin) {
        assert ws[k] in ws;
        NoWindowBelowZero(m, 0, ws[k]);
      }
      assert !ReadBy(ws, qmin);
      assert !ReadsJust(ws, qmin, qmax);
    } else {
      UngroupedShape(qmin, qmax, d, m);
      OneWindow(m);
      assert !ReadBy(ws, qmax);
      assert !ReadsJust(ws, qmin, qmax);
    }
  }

  // ----- LIMIT and OFFSET -----

  /** Where the interval number `k` of the grid starts. */
  function At(m: Shape, k: int): int {
    m.qminWindow + k * m.intervalSize
  }

  /** OFFSET without LIMIT leaves no window at all: the limit of zero is taken for a number of intervals. */
  lemma OffsetAlone(qmin: int, qmax: int, d: nat, offset: nat, m: Shape)
    requires offset > 0 && Open(qmin, qmax, d, 0, offset) == Ready(m)
    ensures WindowsFrom(m, 0) == []
  {
    hide R.Quotient, IntervalN;
  }

  /** The grid has `n` intervals that start within the range. */
  predicate Spans(m: Shape, n: int) {
    m.intervalSize > 0 && n >= 1 && At(m, 0) >= 0 && At(m, n - 1) <= m.qmax < At(m, n)
  }

  lemma Between(m: Shape, n: int, k: nat)
    requires Spans(m, n)
    ensures At(m, k) >= 0 && (At(m, k) <= m.qmax <==> k < n)
  {
    Product(0, k, m.intervalSize);
    if k < n {
      Product(k, n - 1, m.intervalSize);
    } else {
      Product(n, k, m.intervalSize);
    }
  }

  lemma Product(a: int, b: int, d: int)
    requires a <= b && d > 0
    ensures a * d <= b * d
  {
  }

  function Smaller(a: int, b: int): int {
    if a < b then a else b
  }

  /** How many windows there are from interval `i` on. */
  function Remaining(m: Shape, n: int, i: nat): nat {
    var left := Smaller(m.intervalN, n - m.offset) - i;
    if left < 0 then 0 else left
  }

  lemma StartAt(m: Shape, n: int, i: nat)
    requires Spans(m, n) && m.offset >= 0
    ensures Start(m, i) == if Remaining(m, n, i) > 0 then At(m, i + m.offset) else -1
    ensures At(m, i + m.offset) >= 0
  {
    Between(m, n, i + m.offset);
  }

  /** The windows are those of the intervals from the offset on, up to the limit. */
  lemma {:induction false} WindowsAt(m: Shape, n: int, i: nat)
    requires Spans(m, n) && m.offset >= 0
    ensures |WindowsFrom(m, i)| == Remaining(m, n, i)
    ensures forall k :: 0 <= k < Remaining(m, n, i) ==> WindowsFrom(m, i)[k] == Clamp(m, At(m, i + k + m.offset))
    decreases m.intervalN - i
  {
    hide Start, At, Clamp, Spans;
    StartAt(m, n, i);
    if Start(m, i) >= 0 {
      WindowsAt(m, n, i + 1);
      var ws := WindowsFrom(m, i);
      forall k | 0 <= k < Remaining(m, n, i) ensures ws[k] == Clamp(m, At(m, i + k + m.offset)) {
        if k > 0 {
          assert ws[k] == WindowsFrom(m, i + 1)[k - 1];
          assert i + 1 + (k - 1) + m.offset == i + k + m.offset;
        }
      }
    }
  }

  /** The shape with all intervals of the query. */
  function Whole(m: Shape, n: int): Shape {
    m.(intervalN := n, offset := 0)
  }

  lemma SameGrid(m: Shape, n: int, k: int)
    ensures At(Whole(m, n), k) == At(m, k) && Clamp(Whole(m, n), k) == Clamp(m, k)
  {
  }

  /** The windows of a limited query are a stretch of the windows of the same grid without the limit. */
  lemma LimitedSlice(m: Shape, n: int)
    requires Spans(m, n) && m.offset >= 0 && m.intervalN >= 0
    ensures var all, lo := WindowsFrom(Whole(m, n), 0), Smaller(m.offset, n);
      |all| == n && WindowsFrom(m, 0) == all[lo..Smaller(lo + m.intervalN, n)]
  {
    hide WindowsFrom, At, Clamp;
    var all, lo := WindowsFrom(Whole(m, n), 0), Smaller(m.offset, n);
    assert Spans(Whole(m, n), n) by { SpansWhole(m, n); }
    hide Spans;
    WindowsAt(m, n, 0);
    WindowsAt(Whole(m, n), n, 0);
    var some := all[lo..Smaller(lo + m.intervalN, n)];
    forall k | 0 <= k < |some| ensures some[k] == WindowsFrom(m, 0)[k] {
      assert some[k] == all[lo + k] && lo == m.offset;
      SameGrid(m, n, lo + k);
      SameGrid(m, n, At(m, lo + k));
      assert 0 + k + m.offset == lo + k && 0 + (lo + k) + 0 == lo + k;
    }
  }

  lemma SpansWhole(m: Shape, n: int)
    requires Spans(m, n)
    ensures Spans(Whole(m, n), n)
  {
    SameGrid(m, n, 0);
    SameGrid(m, n, n - 1);
    SameGrid(m, n, n);
  }

  /** The number of intervals of a grouped query, from the one with the lower bound to the one with the upper bound. */
  lemma GroupedCount(qmin: int, qmax: int, d: nat)
    requires 0 < qmin <= qmax && d > 0
    ensures IntervalN(qmin, qmax, d) * d == (qmax - qmax % d) + d - (qmin - qmin % d)
    ensures R.Quotient(qmin, d) * d == qmin - qmin % d
    ensures IntervalN(qmin, qmax, d) >= 1
  {
    FloorIs(qmin, d);
    FloorIs(qmax, d);
    IntervalCount(R.Quotient(qmax, d), R.Quotient(qmin, d), d);
    hide R.Quotient;
    AtLeastOne(IntervalN(qmin, qmax, d), d);
  }

  lemma GroupedSpans(qmin: int, qmax: int, d: nat, m: Shape)
    requires 0 < qmin <= qmax && d > 0 && m.qmin == qmin && m.qmax == qmax && m.intervalSize == d
    requires m.qminWindow == qmin - qmin % d
    ensures Spans(m, IntervalN(qmin, qmax, d))
  {
    hide *;
    GroupedCount(qmin, qmax, d);
    FloorIs(qmin, d);
    FloorIs(qmax, d);
    Floored(qmin, d);
    CountSpans(m, IntervalN(qmin, qmax, d), qmax - qmax % d);
  }

  lemma Floored(q: int, d: int)
    requires 0 < d && 0 <= q
    ensures q - q % d >= 0
  {
    assert q / d >= 0;
  }

  /** The intervals of a grid up to the last, which starts at `last`, span the range. */
  lemma CountSpans(m: Shape, n: int, last: int)
    requires m.intervalSize > 0 && n >= 1 && m.qminWindow >= 0
    requires n * m.intervalSize == last + m.intervalSize - m.qminWindow
    requires last <= m.qmax < last + m.intervalSize
    ensures Spans(m, n)
  {
    ProductStep(n, m.intervalSize);
  }

  /**
   A query grouped from a positive lower bound that keeps more than one interval
   reads the windows from the offset on, as many as the limit; without the limit the
   windows of its grid tile the range.
   */
  lemma LimitTakesSlice(qmin: int, qmax: int, d: nat, limit: nat, offset: nat, m: Shape)
    requires Open(qmin, qmax, d, limit, offset) == Ready(m) && 0 < qmin <= qmax && d > 0 && m.intervalN > 1
    ensures var n := IntervalN(qmin, qmax, d);
            var all, lo := WindowsFrom(Whole(m, n), 0), Smaller(offset, n);
      && |all| == n && Tiles(all, qmin, qmax + 1)
      && m.intervalN == (if limit > 0 then Smaller(limit, n) else n)
      && WindowsFrom(m, 0) == all[lo..Smaller(lo + m.intervalN, n)]
  {
    GroupedCount(qmin, qmax, d);
    OpenedShape(qmin, qmax, d, limit, offset, m);
    var n := IntervalN(qmin, qmax, d);
    hide Open, IntervalN, R.Quotient, WindowsFrom, Tiles;
    GroupedSpans(qmin, qmax, d, m);
    LimitedSlice(m, n);
    WholeTiles(m, n);
  }

  lemma OpenedShape(qmin: int, qmax: int, d: nat, limit: nat, offset: nat, m: Shape)
    requires Open(qmin, qmax, d, limit, offset) == Ready(m) && 0 < qmin <= qmax && d > 0
    ensures m.qmin == qmin && m.qmax == qmax && m.intervalSize == d && m.offset == offset
    ensures m.intervalN == if limit > 0 || offset > 0 then Smaller(limit, IntervalN(qmin, qmax, d)) else IntervalN(qmin, qmax, d)
    ensures m.qminWindow == if m.intervalN > 1 then qmin - qmin % d else qmin
  {
    GroupedCount(qmin, qmax, d);
    hide IntervalN, R.Quotient;
  }

  lemma WholeTiles(m: Shape, n: int)
    requires Spans(m, n) && 0 < m.qmin <= m.qmax && At(m, 0) <= m.qmin < At(m, 1)
    ensures Tiles(WindowsFrom(Whole(m, n), 0), m.qmin, m.qmax + 1)
  {
    var w := Whole(m, n);
    assert At(m, 0) == m.qminWindow && At(m, 1) == m.qminWindow + m.intervalSize;
    hide WindowsFrom, Start, Tiles;
    TileFrom(w, 0, w.qminWindow);
  }

  /**
   LIMIT 1 skips the rounding down to the grid. Of a query with more than one
   interval, the one window is that of the interval at the offset if and only if the
   lower bound is on the grid.
   */
  lemma LimitOneExact(qmin: int, qmax: int, d: nat, offset: nat, m: Shape)
    requires Open(qmin, qmax, d, 1, offset) == Ready(m) && 0 < qmin <= qmax && d > 0
    requires offset < IntervalN(qmin, qmax, d) && IntervalN(qmin, qmax, d) > 1
    ensures var grid := m.(qminWindow := qmin - qmin % d);
      WindowsFrom(m, 0) == [Clamp(grid, At(grid, offset))] <==> qmin % d == 0
    ensures WindowsFrom(m, 0) == if qmin + offset * d > qmax then [] else [Clamp(m, qmin + offset * d)]
  {
    OpenedShape(qmin, qmax, d, 1, offset, m);
    Product(0, offset, d);
    OneStart(m);
    var n := IntervalN(qmin, qmax, d);
    var grid := m.(qminWindow := qmin - qmin % d);
    GroupedSpans(qmin, qmax, d, grid);
    Between(grid, n, offset);
    hide Open, IntervalN, R.Quotient, WindowsFrom, Start, Spans;
    FirstInterval(qmin, qmax, d, offset, m, n);
  }

  lemma OneStart(m: Shape)
    requires m.intervalN == 1 && m.offset >= 0 && m.qminWindow + m.offset * m.intervalSize >= 0
    ensures var t := m.qminWindow + m.offset * m.intervalSize;
      WindowsFrom(m, 0) == if t > m.qmax then [] else [Clamp(m, t)]
  {
    assert 0 + m.offset == m.offset;
    assert Start(m, 1) == -1;
  }

  /** Off the grid, the one window starts later than the interval, or ends later if it is the first. */
  lemma FirstInterval(qmin: int, qmax: int, d: nat, offset: nat, m: Shape, n: int)
    requires 0 < qmin <= qmax && d > 0 && m.qmin == qmin && m.qmax == qmax && m.intervalSize == d && offset < n && n > 1
    requires Spans(m.(qminWindow := qmin - qmin % d), n)
    ensures var grid := m.(qminWindow := qmin - qmin % d);
      Clamp(grid, At(grid, offset)) == Clamp(m, qmin + offset * d) <==> qmin % d == 0
    ensures var grid := m.(qminWindow := qmin - qmin % d);
      qmin % d == 0 ==> qmin + offset * d <= qmax
  {
    var grid := m.(qminWindow := qmin - qmin % d);
    Between(grid, n, offset);
    Between(grid, n, 1);
    hide Spans;
    if offset == 0 {
      assert At(grid, 1) == qmin - qmin % d + d;
    } else {
      Product(1, offset, d);
    }
  }

  /**
   What `Open` refuses: an offset past the last interval leaves nothing to read, and
   more than 100,000 intervals are too many. How many there are is the number of
   intervals from that of the lower bound to that of the upper.
   */
  lemma OpenExact(qmin: int, qmax: int, d: nat, limit: nat, offset: nat)
    ensures var n := IntervalN(qmin, qmax, d);
            var taken := if limit == 0 && offset == 0 then n else Smaller(limit, n);
      && (Open(qmin, qmax, d, limit, offset) == NothingToRead <==> (limit > 0 || offset > 0) && offset > n)
      && (Open(qmin, qmax, d, limit, offset) == TooManyPoints <==> !((limit > 0 || offset > 0) && offset > n) && taken > 100_000)
    ensures 0 < qmin <= qmax && d > 0 ==>
              var n := IntervalN(qmin, qmax, d);
              var first := qmin - qmin % d;
              n >= 1 && first <= qmin && first + (n - 1) * d <= qmax < first + n * d
  {
    if 0 < qmin <= qmax && d > 0 {
      GroupedSpans(qmin, qmax, d, Shape(qmin, qmax, 0, d, qmin - qmin % d, 0));
    }
    hide IntervalN;
  }
}
