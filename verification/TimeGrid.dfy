/**
 The time grid of shard groups (meta/data.go). Times are nanoseconds since the
 zero time, so truncating a time to a duration is a Euclidean floor.
 */
module TimeGrid {
  const HOUR: int := 3_600_000_000_000
  const DAY: int := 24 * HOUR
  const WEEK: int := 7 * DAY

  /** The length of the groups of a policy that keeps its data for `d`. */
  function ShardGroupDuration(d: int): (g: int)
    ensures Unit(g)
  {
    if d >= 180 * DAY || d == 0 then WEEK
    else if d >= 2 * DAY then DAY
    else HOUR
  }

  predicate Unit(d: int) {
    d == HOUR || d == DAY || d == WEEK
  }

  /** `Time.Truncate`: a duration of zero or less leaves the time as it is. */
  function Truncate(t: int, d: int): int {
    if d <= 0 then t else t - t % d
  }

  /** A span that is one cell of the hour, day or week grid. */
  predicate Cell(start: int, end: int) {
    Unit(end - start) && Truncate(start, end - start) == start
  }

  predicate Apart(s0: int, e0: int, s1: int, e1: int) {
    e0 <= s1 || e1 <= s0
  }

  predicate Inside(s0: int, e0: int, s1: int, e1: int) {
    s1 <= s0 && e0 <= e1
  }

  /** The cell of a time contains it. */
  lemma CellOf(t: int, d: int)
    requires Unit(d)
    ensures Cell(Truncate(t, d), Truncate(t, d) + d)
    ensures Truncate(t, d) <= t < Truncate(t, d) + d
  {
    ModOfMultiple(t / d, d);
    assert Truncate(t, d) == (t / d) * d;
  }

  lemma ModOfMultiple(k: int, d: int)
    requires d > 0
    ensures (k * d) % d == 0
  {
    SmallMultiple(k - (k * d) / d, d);
  }

  lemma SmallMultiple(k: int, d: int)
    requires d > 0
    ensures k >= 1 ==> k * d >= d
    ensures k <= -1 ==> k * d <= -d
    ensures k * d > 0 ==> k >= 1
  {
  }

  /** Two multiples of `d` differ by a multiple of `d`. */
  lemma MultiplesApart(a: int, b: int, d: int)
    requires d > 0 && a % d == 0 && b % d == 0 && a < b
    ensures a + d <= b
  {
    var p, q := a / d, b / d;
    assert a == p * d && b == q * d;
    assert b - a == (q - p) * d;
    SmallMultiple(q - p, d);
  }

  lemma Coarser(a: int, d: int, k: int)
    requires d > 0 && k > 0 && a % (k * d) == 0
    ensures a % d == 0
  {
    var q := a / (k * d);
    assert a == (q * k) * d;
    ModOfMultiple(q * k, d);
  }

  /** Each grid refines the coarser ones, so a shorter cell never straddles a longer one's edge. */
  lemma ShorterCellNests(s0: int, e0: int, s1: int, e1: int)
    requires Cell(s0, e0) && Cell(s1, e1) && e0 - s0 <= e1 - s1
    ensures Apart(s0, e0, s1, e1) || Inside(s0, e0, s1, e1)
  {
    var d := e0 - s0;
    Refines(s1, e1 - s1, d);
    Refines(e1, e1 - s1, d);
    if s0 < s1 {
      MultiplesApart(s0, s1, d);
    } else if s0 < e1 {
      MultiplesApart(s0, e1, d);
    }
  }

  lemma Refines(t: int, longer: int, d: int)
    requires Unit(longer) && Unit(d) && d <= longer
    requires t % longer == 0 || (t - longer) % longer == 0
    ensures t % d == 0
  {
    var k := longer / d;
    assert longer == k * d;
    if t % longer == 0 {
      Coarser(t, d, k);
    } else {
      Coarser(t - longer, d, k);
      assert t == ((t - longer) / d + k) * d;
      ModOfMultiple((t - longer) / d + k, d);
    }
  }

  /** Any two cells of the three grids are disjoint or one lies inside the other. */
  lemma CellsNest(s0: int, e0: int, s1: int, e1: int)
    requires Cell(s0, e0) && Cell(s1, e1)
    ensures Apart(s0, e0, s1, e1) || Inside(s0, e0, s1, e1) || Inside(s1, e1, s0, e0)
  {
    if e0 - s0 <= e1 - s1 {
      ShorterCellNests(s0, e0, s1, e1);
    } else {
      ShorterCellNests(s1, e1, s0, e0);
    }
  }
}
