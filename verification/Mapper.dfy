/**
 The map phase of an aggregate query (tsdb/aggregate.go): reading the windows of
 every cursor, one chunk at a time.
 */
module Mapper {
  import opened Values
  import opened Ast
  import opened Cursors
  import opened Windows
  import R = Reduce
  import opened Sequences

  /** A sample as a map function sees it. */
  datatype MapItem = MapItem(timestamp: int, value: Value, fields: map<string, Value>)

  /** What an entry gives for a field: nothing if it has no value or the filter rejects it. */
  function ItemOf(e: Entry, filter: Option<Expr>, field: string): seq<MapItem> {
    var env := if e.value.Fields? then e.value.m else map[field := e.value];
    var value := if e.value.Fields? then R.Lookup(e.value.m, field) else e.value;
    if e.value.Nil? || (filter.Some? && !R.EvalBool(filter.value, env)) || value.Nil? then []
    else [MapItem(e.key, value, if e.value.Fields? then e.value.m else map["" := e.value])]
  }

  function ItemsOf(s: seq<Entry>, filter: Option<Expr>, field: string): seq<MapItem> {
    if s == [] then [] else ItemsOf(s[..|s| - 1], filter, field) + ItemOf(s[|s| - 1], filter, field)
  }

  /** The entries with keys from `lo` up to, not including, `hi`. */
  function Between(s: seq<Entry>, lo: int, hi: int): seq<Entry> {
    if s == [] then []
    else Between(s[..|s| - 1], lo, hi) + (if lo <= s[|s| - 1].key < hi then [s[|s| - 1]] else [])
  }

  /** What one window reads. */
  function WindowItems(s: seq<Entry>, filter: Option<Expr>, field: string, w: Window): seq<MapItem> {
    ItemsOf(Between(s, w.lo, w.End()), filter, field)
  }

  // ----- Which samples are read -----

  /**
   The sample of a field an entry gives: its value of the field, if it has one, and
   the filter holds of the entry's fields. A bare value is one of the field.
   */
  ghost predicate IsSample(e: Entry, filter: Option<Expr>, field: string, x: MapItem) {
    && x.timestamp == e.key && e.value != Nil && x.value != Nil
    && (e.value.Fields? ==> field in e.value.m && x.value == e.value.m[field] && x.fields == e.value.m)
    && (!e.value.Fields? ==> x.value == e.value && x.fields == map["" := e.value])
    && (filter.Some? ==> R.EvalBool(filter.value, if e.value.Fields? then e.value.m else map[field := e.value]))
  }

  /** All the samples of an entry: one or none. */
  ghost predicate AreSamples(r: seq<MapItem>, e: Entry, filter: Option<Expr>, field: string) {
    |r| <= 1 && forall x :: x in r <==> IsSample(e, filter, field, x)
  }

  ghost predicate HasSample(s: seq<Entry>, filter: Option<Expr>, field: string, x: MapItem) {
    exists e :: e in s && IsSample(e, filter, field, x)
  }

  predicate InTimeOrder(items: seq<MapItem>) {
    forall i, j :: 0 <= i < j < |items| ==> items[i].timestamp < items[j].timestamp
  }

  /** Exactly the samples from `lo` up to, not including, `hi`, each once, in time order. */
  ghost predicate ReadsExactly(items: seq<MapItem>, s: seq<Entry>, filter: Option<Expr>, field: string, lo: int, hi: int) {
    && InTimeOrder(items)
    && forall x :: x in items <==> lo <= x.timestamp < hi && HasSample(s, filter, field, x)
  }

  /** An entry gives its sample, if it has one, and nothing else. */
  lemma ItemIsSample(e: Entry, filter: Option<Expr>, field: string)
    ensures AreSamples(ItemOf(e, filter, field), e, filter, field)
  {
    hide R.EvalBool;
  }

  lemma {:induction false} ItemsAreSamples(s: seq<Entry>, filter: Option<Expr>, field: string)
    ensures forall x :: x in ItemsOf(s, filter, field) <==> HasSample(s, filter, field, x)
  {
    hide ItemOf, IsSample;
    if s != [] {
      var n := |s| - 1;
      ItemsAreSamples(s[..n], filter, field);
      ItemIsSample(s[n], filter, field);
      forall x ensures x in ItemsOf(s, filter, field) <==> HasSample(s, filter, field, x) {
        if HasSample(s, filter, field, x) {
          var e :| e in s && IsSample(e, filter, field, x);
          assert e in s[..n] || e == s[n];
        }
      }
    }
  }

  lemma {:induction false} ItemsInOrder(s: seq<Entry>, filter: Option<Expr>, field: string)
    requires Monotone(true, s)
    ensures InTimeOrder(ItemsOf(s, filter, field))
  {
    if s != [] {
      var n := |s| - 1;
      ItemsInOrder(s[..n], filter, field);
      ItemsAreSamples(s[..n], filter, field);
      ItemIsSample(s[n], filter, field);
      hide ItemOf;
      forall x | x in ItemsOf(s[..n], filter, field) ensures x.timestamp < s[n].key {
        var e :| e in s[..n] && IsSample(e, filter, field, x);
      }
    }
  }

  lemma {:induction false} BetweenMembers(s: seq<Entry>, lo: int, hi: int)
    ensures forall e :: e in Between(s, lo, hi) <==> e in s && lo <= e.key < hi
  {
    if s != [] {
      BetweenMembers(s[..|s| - 1], lo, hi);
    }
  }

  lemma {:induction false} BetweenMonotone(s: seq<Entry>, lo: int, hi: int)
    requires Monotone(true, s)
    ensures Monotone(true, Between(s, lo, hi))
  {
    if s != [] {
      BetweenMonotone(s[..|s| - 1], lo, hi);
      BetweenMembers(s[..|s| - 1], lo, hi);
    }
  }

  lemma StretchExact(s: seq<Entry>, filter: Option<Expr>, field: string, lo: int, hi: int)
    requires Monotone(true, s)
    ensures ReadsExactly(ItemsOf(Between(s, lo, hi), filter, field), s, filter, field, lo, hi)
  {
    BetweenMonotone(s, lo, hi);
    BetweenMembers(s, lo, hi);
    var b := Between(s, lo, hi);
    ItemsInOrder(b, filter, field);
    ItemsAreSamples(b, filter, field);
    hide Between, ItemsOf, Monotone;
    forall x ensures x in ItemsOf(b, filter, field) <==> lo <= x.timestamp < hi && HasSample(s, filter, field, x) {
      if HasSample(s, filter, field, x) {
        var e :| e in s && IsSample(e, filter, field, x);
        assert e in b <==> lo <= x.timestamp < hi;
      }
    }
  }

  // ----- Between -----

  lemma {:induction false} BetweenSplit(a: seq<Entry>, b: seq<Entry>, lo: int, hi: int)
    ensures Between(a + b, lo, hi) == Between(a, lo, hi) + Between(b, lo, hi)
  {
    if b == [] {
      assert a + b == a;
    } else {
      var n := |b| - 1;
      assert (a + b)[..|a + b| - 1] == a + b[..n];
      BetweenSplit(a, b[..n], lo, hi);
      Assoc(Between(a, lo, hi), Between(b[..n], lo, hi), if lo <= b[n].key < hi then [b[n]] else []);
    }
  }

  lemma {:induction false} BetweenAll(s: seq<Entry>, lo: int, hi: int)
    requires forall e :: e in s ==> lo <= e.key < hi
    ensures Between(s, lo, hi) == s
  {
    if s != [] {
      BetweenAll(s[..|s| - 1], lo, hi);
    }
  }

  lemma {:induction false} BetweenNone(s: seq<Entry>, lo: int, hi: int)
    requires forall e :: e in s ==> !(lo <= e.key < hi)
    ensures Between(s, lo, hi) == []
  {
    if s != [] {
      BetweenNone(s[..|s| - 1], lo, hi);
    }
  }

  lemma BetweenLast(s: seq<Entry>, lo: int, hi: int)
    requires s != []
    ensures var n := |s| - 1;
            Between(s, lo, hi) == if lo <= s[n].key < hi then Between(s[..n], lo, hi) + [s[n]] else Between(s[..n], lo, hi)
  {
  }

  /** Adjacent stretches of an ascending run make up the whole. */
  lemma {:induction false} BetweenJoin(s: seq<Entry>, lo: int, mid: int, hi: int)
    requires Monotone(true, s) && lo <= mid <= hi
    ensures Between(s, lo, hi) == Between(s, lo, mid) + Between(s, mid, hi)
  {
    if s != [] {
      hide Between;
      var n := |s| - 1;
      var a, b, last := Between(s[..n], lo, mid), Between(s[..n], mid, hi), [s[n]];
      BetweenJoin(s[..n], lo, mid, hi);
      BetweenLast(s, lo, hi);
      BetweenLast(s, lo, mid);
      BetweenLast(s, mid, hi);
      if lo <= s[n].key < mid {
        BetweenNone(s[..n], mid, hi);
        assert a + b == a && (a + last) + b == a + last;
      } else if mid <= s[n].key < hi {
        Assoc(a, b, last);
      }
    }
  }

  lemma {:induction false} ItemsSplit(a: seq<Entry>, b: seq<Entry>, filter: Option<Expr>, field: string)
    ensures ItemsOf(a + b, filter, field) == ItemsOf(a, filter, field) + ItemsOf(b, filter, field)
  {
    hide ItemOf;
    if b == [] {
      assert a + b == a;
    } else {
      var n := |b| - 1;
      assert (a + b)[..|a + b| - 1] == a + b[..n];
      ItemsSplit(a, b[..n], filter, field);
      Assoc(ItemsOf(a, filter, field), ItemsOf(b[..n], filter, field), ItemOf(b[n], filter, field));
    }
  }

  /** What all the windows read, one after another. */
  function ReadAll(s: seq<Entry>, filter: Option<Expr>, field: string, ws: seq<Window>): seq<MapItem> {
    if ws == [] then [] else WindowItems(s, filter, field, ws[0]) + ReadAll(s, filter, field, ws[1..])
  }

  lemma {:induction false} TilesReadAll(s: seq<Entry>, filter: Option<Expr>, field: string, ws: seq<Window>, from: int, to: int)
    requires Monotone(true, s) && Tiles(ws, from, to)
    ensures ReadAll(s, filter, field, ws) == ItemsOf(Between(s, from, to), filter, field)
  {
    hide Monotone;
    TilesReadOnce(ws, from, to, from);
    if ws == [] {
      BetweenNone(s, from, to);
    } else {
      TilesReadAll(s, filter, field, ws[1..], ws[0].End(), to);
      TilesReadOnce(ws[1..], ws[0].End(), to, from);
      BetweenJoin(s, from, ws[0].End(), to);
      ItemsSplit(Between(s, from, ws[0].End()), Between(s, ws[0].End(), to), filter, field);
    }
  }

  /**
   Over all windows of a query, each sample of a field in the query's range that
   passes the filter reaches the map function exactly once, in time order.
   */
  lemma EachSampleOnce(s: seq<Entry>, filter: Option<Expr>, field: string, qmin: int, qmax: int, d: nat, m: Shape)
    requires Monotone(true, s)
    requires Open(qmin, qmax, d, 0, 0) == Ready(m) && qmin <= qmax && Tileable(qmin, qmax, d)
    ensures ReadsExactly(ReadAll(s, filter, field, WindowsFrom(m, 0)), s, filter, field, qmin, qmax + 1)
  {
    hide ReadsExactly, ReadAll, WindowsFrom, ItemsOf, Between;
    StretchExact(s, filter, field, qmin, qmax + 1);
    WindowsTile(qmin, qmax, d, m);
    TilesReadAll(s, filter, field, WindowsFrom(m, 0), qmin, qmax + 1);
  }

  // ----- Reading one window of one cursor -----

  /** A cursor in use: ascending, and its cache tells the truth. */
  ghost predicate Usable(c: TagsCursor)
    reads c, c.cursor
  {
    c.Valid() && c.cursor.ascending && Coherent(true, c.cursor.entries, c.cursor.Rest(), c.Cached())
  }

  /** Seeking finds the first entry at or past the time, cached or not. */
  lemma SeekFinds(all: seq<Entry>, rest: seq<Entry>, c: Cache, to: int)
    requires IsRun(true, all) && Coherent(true, all, rest, c)
    ensures var found := FromSeek(true, all, to);
            var (out, rest', c') := CachedStep(true, all, rest, c, SeekTo(to));
      out == Head(found) && rest' == Tail(found) && Coherent(true, all, rest', c')
  {
    hide IsRun;
    if Hit(c, to) {
      HitIsExact(all, to, c);
    }
  }

  /** Where reading stops: past `k` entries from the seek on, all of the window has been read. */
  lemma StopsExactly(all: seq<Entry>, lo: int, hi: int, k: nat)
    requires IsRun(true, all) && lo != EOF && lo <= hi
    requires var found := FromSeek(true, all, lo);
             && k <= |found| && (forall i :: 0 <= i < k ==> lo <= found[i].key < hi)
             && (k < |found| ==> found[k].key >= hi)
    ensures Between(all, lo, hi) == FromSeek(true, all, lo)[..k]
  {
    var found := FromSeek(true, all, lo);
    var n := |all| - |found|;
    SkippedAreBefore(all, lo);
    RestIsBeyond(all, n, k, hi);
    hide IsRun, FromSeek, Between;
    ThreeParts(all, n, k);
    BetweenParts(all[..n], all[n..][..k], all[n..][k..], lo, hi);
  }

  lemma ThreeParts<T>(s: seq<T>, n: nat, k: nat)
    requires n + k <= |s|
    ensures s == s[..n] + (s[n..][..k] + s[n..][k..])
  {
  }

  lemma BetweenParts(a: seq<Entry>, b: seq<Entry>, c: seq<Entry>, lo: int, hi: int)
    requires forall e :: e in a ==> e.key < lo
    requires forall e :: e in b ==> lo <= e.key < hi
    requires forall e :: e in c ==> e.key >= hi
    ensures Between(a + (b + c), lo, hi) == b
  {
    hide Between;
    BetweenSplit(a, b + c, lo, hi);
    BetweenSplit(b, c, lo, hi);
    BetweenNone(a, lo, hi);
    BetweenAll(b, lo, hi);
    BetweenNone(c, lo, hi);
  }

  lemma {:induction false} SkippedAreBefore(all: seq<Entry>, lo: int)
    ensures forall e :: e in all[..|all| - |FromSeek(true, all, lo)|] ==> e.key < lo
  {
    if all != [] && all[0].key < lo {
      SkippedAreBefore(all[1..], lo);
      var n := |all| - |FromSeek(true, all, lo)|;
      assert all[..n] == [all[0]] + all[1..][..n - 1];
    }
  }

  lemma RestIsBeyond(all: seq<Entry>, n: nat, k: nat, hi: int)
    requires Monotone(true, all) && n + k <= |all| && (n + k < |all| ==> all[n + k].key >= hi)
    ensures forall e :: e in all[n..][k..] ==> e.key >= hi
  {
    forall e | e in all[n..][k..] ensures e.key >= hi {
      var j :| 0 <= j < |all[n..][k..]| && all[n..][k..][j] == e;
      assert e == all[n + k + j];
      assert j > 0 ==> Before(true, all[n + k].key, all[n + k + j].key);
    }
  }

  /** The body of `readMapItems`: the item of one entry, if it has one. */
  method TakeItem(timestamp: int, value: Value, filter: Option<Expr>, field: string) returns (r: seq<MapItem>)
    ensures r == ItemOf(Entry(timestamp, value), filter, field)
  {
    var fields := if value.Fields? then value.m else map["" := value];
    if value.Nil? {
      return [];
    }
    if filter.Some? {
      var m := if value.Fields? then value.m else map[field := value];
      if !R.EvalBool(filter.value, m) {
        return [];
      }
    }
    var v := value;
    if value.Fields? {
      v := if field in value.m then value.m[field] else Nil;
    }
    if v.Nil? {
      return [];
    }
    return [MapItem(timestamp, v, fields)];
  }

  /** How far reading has come: `k` entries of the window from `found`, and the next one at hand. */
  ghost predicate Reached(found: seq<Entry>, w: Window, k: nat, next: Entry, rest: seq<Entry>) {
    && k <= |found| && next == Head(found[k..]) && rest == Tail(found[k..])
    && forall i :: 0 <= i < k ==> w.lo <= found[i].key < w.End()
  }

  lemma ReachNext(found: seq<Entry>, w: Window, k: nat, next: Entry, rest: seq<Entry>)
    requires Reached(found, w, k, next, rest) && w.lo >= 0 && w.Reads(next.key)
    ensures k < |found| && found[k] == next && Reached(found, w, k + 1, Head(rest), Tail(rest))
    ensures found[..k + 1] == found[..k] + [next]
  {
    assert found[k..][1..] == found[k + 1..];
  }

  lemma ReachedEnd(all: seq<Entry>, w: Window, k: nat, next: Entry, rest: seq<Entry>)
    requires IsRun(true, all) && w.lo >= 0
    requires Reached(FromSeek(true, all, w.lo), w, k, next, rest) && !w.Reads(next.key)
    ensures Between(all, w.lo, w.End()) == FromSeek(true, all, w.lo)[..k]
  {
    hide IsRun, FromSeek, Between;
    var found := FromSeek(true, all, w.lo);
    if k < |found| {
      FoundAtLeast(all, w.lo, k);
      assert found[k..][0] == found[k];
    }
    StopsExactly(all, w.lo, w.End(), k);
  }

  lemma FoundAtLeast(all: seq<Entry>, lo: int, k: nat)
    requires IsRun(true, all) && k < |FromSeek(true, all, lo)|
    ensures FromSeek(true, all, lo)[k].key >= lo
  {
    FromSeekExact(true, all, lo);
    assert FromSeek(true, all, lo)[k] in FromSeek(true, all, lo);
  }

  lemma ItemsSnoc(s: seq<Entry>, e: Entry, filter: Option<Expr>, field: string)
    ensures ItemsOf(s + [e], filter, field) == ItemsOf(s, filter, field) + ItemOf(e, filter, field)
  {
    assert (s + [e])[..|s|] == s;
  }

  ghost function Rest(c: TagsCursor): seq<Entry>
    reads c, c.cursor
    requires Usable(c)
  {
    c.cursor.Rest()
  }

  ghost function Found(all: seq<Entry>, lo: int): seq<Entry> {
    FromSeek(true, all, lo)
  }

  method Seek(c: TagsCursor, to: int) returns (timestamp: int, value: Value)
    requires Usable(c)
    modifies c, c.cursor
    ensures Usable(c) && Entry(timestamp, value) == Head(Found(c.cursor.entries, to)) && Rest(c) == Tail(Found(c.cursor.entries, to))
  {
    hide IsRun, FromSeek, Hit;
    SeekFinds(c.cursor.entries, c.cursor.Rest(), c.Cached(), to);
    timestamp, value := c.SeekTo(to);
  }

  method Advance(c: TagsCursor) returns (timestamp: int, value: Value)
    requires Usable(c)
    modifies c, c.cursor
    ensures Usable(c) && Entry(timestamp, value) == Head(old(Rest(c))) && Rest(c) == Tail(old(Rest(c)))
  {
    hide IsRun, FromSeek, Hit;
    timestamp, value := c.Next();
  }

  lemma UsableIsRun(c: TagsCursor)
    requires Usable(c)
    ensures IsRun(true, c.cursor.entries)
  {
  }

  /** What a window reads are exactly its samples, each once, in time order. */
  lemma WindowExact(s: seq<Entry>, filter: Option<Expr>, field: string, w: Window)
    requires IsRun(true, s)
    ensures ReadsExactly(WindowItems(s, filter, field, w), s, filter, field, w.lo, w.End())
  {
    StretchExact(s, filter, field, w.lo, w.End());
  }

  /** `readMapItems`. */
  method ReadMapItems(c: TagsCursor, filter: Option<Expr>, field: string, w: Window) returns (items: seq<MapItem>)
    requires Usable(c) && w.lo >= 0
    modifies c, c.cursor
    ensures Usable(c)
    ensures items == WindowItems(c.cursor.entries, filter, field, w)
  {
    UsableIsRun(c);
    hide *;
    ghost var all := c.cursor.entries;
    var timestamp, value := Seek(c, w.lo);
    ghost var k := 0;
    items := [];
    ReadStart(all, filter, field, w);
    while timestamp == w.lo || !(timestamp < w.lo || timestamp >= w.hi)
      invariant Usable(c)
      invariant ReadSoFar(all, filter, field, w, k, Entry(timestamp, value), Rest(c), items)
      decreases |Found(all, w.lo)| - k
    {
      ReadMore(all, filter, field, w, k, Entry(timestamp, value), Rest(c), items);
      var item := TakeItem(timestamp, value, filter, field);
      items := items + item;
      timestamp, value := Advance(c);
      k := k + 1;
    }
    ReadDone(all, filter, field, w, k, Entry(timestamp, value), Rest(c), items);
  }

  ghost predicate ReadSoFar(all: seq<Entry>, filter: Option<Expr>, field: string, w: Window, k: nat, next: Entry, rest: seq<Entry>, items: seq<MapItem>) {
    var found := Found(all, w.lo);
    Reached(found, w, k, next, rest) && items == ItemsOf(found[..k], filter, field)
  }

  lemma ReadStart(all: seq<Entry>, filter: Option<Expr>, field: string, w: Window)
    ensures var found := Found(all, w.lo);
      ReadSoFar(all, filter, field, w, 0, Head(found), Tail(found), [])
  {
    var found := Found(all, w.lo);
    assert found[0..] == found;
  }

  lemma ReadMore(all: seq<Entry>, filter: Option<Expr>, field: string, w: Window, k: nat, next: Entry, rest: seq<Entry>, items: seq<MapItem>)
    requires ReadSoFar(all, filter, field, w, k, next, rest, items) && w.lo >= 0
    requires next.key == w.lo || !(next.key < w.lo || next.key >= w.hi)
    ensures k < |Found(all, w.lo)|
    ensures ReadSoFar(all, filter, field, w, k + 1, Head(rest), Tail(rest), items + ItemOf(next, filter, field))
  {
    hide Found, ItemsOf, ItemOf;
    var found := Found(all, w.lo);
    ReachNext(found, w, k, next, rest);
    ItemsSnoc(found[..k], next, filter, field);
  }

  lemma ReadDone(all: seq<Entry>, filter: Option<Expr>, field: string, w: Window, k: nat, next: Entry, rest: seq<Entry>, items: seq<MapItem>)
    requires ReadSoFar(all, filter, field, w, k, next, rest, items) && w.lo >= 0 && IsRun(true, all)
    requires !(next.key == w.lo || !(next.key < w.lo || next.key >= w.hi))
    ensures items == WindowItems(all, filter, field, w)
  {
    hide FromSeek, ItemsOf, IsRun;
    ReachedEnd(all, w, k, next, rest);
  }

  // ----- The mapper -----

  datatype SeriesCursor = SeriesCursor(cursor: TagsCursor, filter: Option<Expr>)

  /** The cursors of one tag set. */
  datatype CursorSet = CursorSet(key: string, cursors: seq<SeriesCursor>)

  /** One interval of one tag set: the input of every map function, for each cursor. */
  datatype Chunk = Chunk(key: string, time: int, inputs: seq<seq<seq<MapItem>>>)

  function InputsOf(c: SeriesCursor, fields: seq<string>, w: Window): seq<seq<MapItem>> {
    seq(|fields|, f requires 0 <= f < |fields| => WindowItems(c.cursor.cursor.entries, c.filter, fields[f], w))
  }

  function ChunkOf(cs: CursorSet, fields: seq<string>, start: int, w: Window): Chunk {
    Chunk(cs.key, start, seq(|cs.cursors|, j requires 0 <= j < |cs.cursors| => InputsOf(cs.cursors[j], fields, w)))
  }

  /** The chunks of one tag set from interval `i` on. */
  function ChunksFrom(m: Shape, cs: CursorSet, fields: seq<string>, i: nat): seq<Chunk>
    decreases m.intervalN - i
  {
    if Start(m, i) < 0 then []
    else [ChunkOf(cs, fields, Start(m, i), Clamp(m, Start(m, i)))] + ChunksFrom(m, cs, fields, i + 1)
  }

  lemma {:induction false} ChunkAt(m: Shape, cs: CursorSet, fields: seq<string>, i: nat, k: nat)
    requires k < |ChunksFrom(m, cs, fields, i)|
    ensures Start(m, i + k) >= 0
    ensures ChunksFrom(m, cs, fields, i)[k] == ChunkOf(cs, fields, Start(m, i + k), Clamp(m, Start(m, i + k)))
    decreases k
  {
    hide ChunkOf, Clamp, Start;
    if k > 0 {
      assert ChunksFrom(m, cs, fields, i)[k] == ChunksFrom(m, cs, fields, i + 1)[k - 1];
      ChunkAt(m, cs, fields, i + 1, k - 1);
    }
  }

  /** A chunk is of one interval, at the time where the interval starts, with the samples of its window for every cursor and field. */
  lemma ChunkExact(m: Shape, cs: CursorSet, fields: seq<string>, k: nat, j: nat, f: nat)
    requires k < |ChunksFrom(m, cs, fields, 0)| && j < |cs.cursors| && f < |fields| && IsRun(true, cs.cursors[j].cursor.cursor.entries)
    ensures var c := ChunksFrom(m, cs, fields, 0)[k];
            var start := m.qminWindow + (k + m.offset) * m.intervalSize;
            var w, cursor := Clamp(m, start), cs.cursors[j];
      && c.key == cs.key && c.time == start && 0 <= start <= m.qmax
      && |c.inputs| == |cs.cursors| && |c.inputs[j]| == |fields|
      && ReadsExactly(c.inputs[j][f], cursor.cursor.cursor.entries, cursor.filter, fields[f], w.lo, w.End())
  {
    ChunkAt(m, cs, fields, 0, k);
    var cursor := cs.cursors[j];
    WindowExact(cursor.cursor.cursor.entries, cursor.filter, fields[f], Clamp(m, Start(m, k)));
    hide ReadsExactly, WindowItems, ChunksFrom, Clamp, IsRun;
  }

  /** The chunks still to come, in order. */
  function ChunksAfter(m: Shape, sets: seq<CursorSet>, fields: seq<string>, k: nat, i: nat): seq<Chunk>
    decreases |sets| - k
  {
    if k >= |sets| then [] else ChunksFrom(m, sets[k], fields, i) + ChunksAfter(m, sets, fields, k + 1, 0)
  }

  /** What one map function is given, over some chunks, for one cursor. */
  function Given(chunks: seq<Chunk>, j: nat, f: nat): seq<MapItem> {
    if chunks == [] then []
    else (if j < |chunks[0].inputs| && f < |chunks[0].inputs[j]| then chunks[0].inputs[j][f] else []) + Given(chunks[1..], j, f)
  }

  lemma {:induction false} GivenIsRead(m: Shape, cs: CursorSet, fields: seq<string>, i: nat, j: nat, f: nat)
    requires j < |cs.cursors| && f < |fields|
    ensures var c := cs.cursors[j];
      Given(ChunksFrom(m, cs, fields, i), j, f) == ReadAll(c.cursor.cursor.entries, c.filter, fields[f], WindowsFrom(m, i))
    decreases m.intervalN - i
  {
    hide WindowItems;
    if Start(m, i) >= 0 {
      GivenIsRead(m, cs, fields, i + 1, j, f);
      assert ChunksFrom(m, cs, fields, i)[1..] == ChunksFrom(m, cs, fields, i + 1);
      assert WindowsFrom(m, i)[1..] == WindowsFrom(m, i + 1);
    }
  }

  /**
   Over the chunks of a tag set, each map function is given, for each cursor, each
   in-range, filter-passing sample of its field exactly once.
   */
  lemma EachSampleMapped(qmin: int, qmax: int, d: nat, m: Shape, cs: CursorSet, fields: seq<string>, j: nat, f: nat)
    requires Open(qmin, qmax, d, 0, 0) == Ready(m) && qmin <= qmax && Tileable(qmin, qmax, d)
    requires j < |cs.cursors| && f < |fields| && Monotone(true, cs.cursors[j].cursor.cursor.entries)
    ensures var c := cs.cursors[j];
      ReadsExactly(Given(ChunksFrom(m, cs, fields, 0), j, f), c.cursor.cursor.entries, c.filter, fields[f], qmin, qmax + 1)
  {
    hide ReadsExactly, ReadAll, ChunksFrom, Given;
    GivenIsRead(m, cs, fields, 0, j, f);
    EachSampleOnce(cs.cursors[j].cursor.cursor.entries, cs.cursors[j].filter, fields[f], qmin, qmax, d, m);
  }

  class AggregateMapper {
    const shape: Shape
    const sets: seq<CursorSet>
    const fields: seq<string>
    var interval: nat
    var cursorIndex: nat

    ghost function Cursors(): set<TagsCursor> {
      set k, j | 0 <= k < |sets| && 0 <= j < |sets[k].cursors| :: sets[k].cursors[j].cursor
    }

    ghost function Engines(): set<EngineCursor> {
      set c | c in Cursors() :: c.cursor
    }

    constructor (shape: Shape, sets: seq<CursorSet>, fields: seq<string>)
      ensures this.shape == shape && this.sets == sets && this.fields == fields
      ensures Remaining() == ChunksAfter(shape, sets, fields, 0, 0)
    {
      this.shape, this.sets, this.fields := shape, sets, fields;
      interval, cursorIndex := 0, 0;
    }

    /** Every cursor is usable, and no two read through the same engine cursor. */
    ghost predicate Valid()
      reads this, Cursors(), Engines()
    {
      && cursorIndex <= |sets|
      && (forall c :: c in Cursors() ==> Usable(c))
      && forall c, c' :: c in Cursors() && c' in Cursors() && c.cursor == c'.cursor ==> c == c'
    }

    function Remaining(): seq<Chunk>
      reads this
    {
      ChunksAfter(shape, sets, fields, cursorIndex, interval)
    }

    method NextInterval() returns (start: int)
      modifies this
      ensures start == Start(shape, old(interval))
      ensures interval == old(interval) + 1 && cursorIndex == old(cursorIndex)
    {
      var t := shape.qminWindow + (interval + shape.offset) * shape.intervalSize;
      interval := interval + 1;
      start := if t > shape.qmax || interval > shape.intervalN then -1 else t;
    }

    method ReadCursor(c: SeriesCursor, w: Window) returns (inputs: seq<seq<MapItem>>)
      requires Usable(c.cursor) && w.lo >= 0
      modifies c.cursor, c.cursor.cursor
      ensures Usable(c.cursor) && inputs == InputsOf(c, fields, w)
    {
      hide Usable, WindowItems;
      inputs := [];
      for i := 0 to |fields|
        invariant Usable(c.cursor) && |inputs| == i
        invariant forall f :: 0 <= f < i ==> inputs[f] == WindowItems(c.cursor.cursor.entries, c.filter, fields[f], w)
      {
        var items := ReadMapItems(c.cursor, c.filter, fields[i], w);
        inputs := inputs + [items];
      }
    }

    method ReadSet(k: nat, w: Window) returns (inputs: seq<seq<seq<MapItem>>>)
      requires Valid() && k < |sets| && w.lo >= 0
      modifies Cursors(), Engines()
      ensures Valid()
      ensures |inputs| == |sets[k].cursors| && forall j :: 0 <= j < |inputs| ==> inputs[j] == InputsOf(sets[k].cursors[j], fields, w)
    {
      hide Usable, InputsOf;
      inputs := [];
      for j := 0 to |sets[k].cursors|
        invariant Valid() && |inputs| == j
        invariant forall n :: 0 <= n < j ==> inputs[n] == InputsOf(sets[k].cursors[n], fields, w)
      {
        var c := sets[k].cursors[j];
        assert c.cursor in Cursors();
        assert c.cursor.cursor in Engines();
        label before:
        var input := ReadCursor(c, w);
        forall x | x in Cursors() && x != c.cursor ensures Usable(x) {
          assert old@before(Usable(x));
        }
        inputs := inputs + [input];
      }
    }

    /** `NextChunk` hands out the chunks one by one. */
    method NextChunk() returns (r: Option<Chunk>)
      requires Valid()
      modifies this, Cursors(), Engines()
      ensures Valid()
      ensures old(Remaining()) == [] ==> r.None? && Remaining() == []
      ensures old(Remaining()) != [] ==> r == Some(old(Remaining())[0]) && Remaining() == old(Remaining())[1..]
    {
      hide Usable, InputsOf;
      var start := -1;
      while start < 0
        invariant Valid()
        invariant start < 0 ==> Remaining() == old(Remaining())
        invariant start >= 0 ==>
          && cursorIndex < |sets|
          && [ChunkOf(sets[cursorIndex], fields, start, Clamp(shape, start))] + Remaining() == old(Remaining())
        decreases if start < 0 then |sets| - cursorIndex + 1 else 0
      {
        if cursorIndex == |sets| {
          return None;
        }
        start := NextInterval();
        if start < 0 {
          interval := 0;
          cursorIndex := cursorIndex + 1;
        }
      }
      var inputs := ReadSet(cursorIndex, Clamp(shape, start));
      assert inputs == ChunkOf(sets[cursorIndex], fields, start, Clamp(shape, start)).inputs;
      r := Some(Chunk(sets[cursorIndex].key, start, inputs));
    }
  }
}
