/**
 Cursors over one series (tsdb/cursor.go): the engine's cursor as a sorted run
 with a position, and `TagsCursor`, which caches the last seek.
 */
module Cursors {
  import opened Values

  /** The key returned when there is nothing left. */
  const EOF: int := -1

  datatype Entry = Entry(key: int, value: Value)

  const NOTHING := Entry(EOF, Nil)

  predicate Before(ascending: bool, a: int, b: int) {
    if ascending then a < b else a > b
  }

  ghost predicate Monotone(ascending: bool, s: seq<Entry>) {
    forall i, j :: 0 <= i < j < |s| ==> Before(ascending, s[i].key, s[j].key)
  }

  /** The run an engine keeps for a series: strictly monotone, no key is the EOF mark. */
  ghost predicate IsRun(ascending: bool, s: seq<Entry>) {
    Monotone(ascending, s) && forall e :: e in s ==> e.key != EOF
  }

  /** The entries at or past the seek, in the cursor's direction. */
  function FromSeek(ascending: bool, s: seq<Entry>, seek: int): (r: seq<Entry>)
    ensures |r| <= |s| && r == s[|s| - |r|..]
  {
    if s == [] || !Before(ascending, s[0].key, seek) then s else FromSeek(ascending, s[1..], seek)
  }

  lemma {:induction false} FromSeekMember(ascending: bool, s: seq<Entry>, seek: int, e: Entry)
    requires Monotone(ascending, s)
    ensures e in FromSeek(ascending, s, seek) <==> e in s && !Before(ascending, e.key, seek)
  {
    if s != [] && Before(ascending, s[0].key, seek) {
      FromSeekMember(ascending, s[1..], seek, e);
      assert s == [s[0]] + s[1..];
    }
  }

  lemma FromSeekExact(ascending: bool, s: seq<Entry>, seek: int)
    requires Monotone(ascending, s)
    ensures forall e :: e in FromSeek(ascending, s, seek) <==> e in s && !Before(ascending, e.key, seek)
  {
    forall e ensures e in FromSeek(ascending, s, seek) <==> e in s && !Before(ascending, e.key, seek) {
      FromSeekMember(ascending, s, seek, e);
    }
  }

  function Head(s: seq<Entry>): Entry {
    if s == [] then NOTHING else s[0]
  }

  function Tail(s: seq<Entry>): seq<Entry> {
    if s == [] then [] else s[1..]
  }

  /** An engine cursor: `entries[pos..]` is still to be read. */
  class EngineCursor {
    const ascending: bool
    const entries: seq<Entry>
    var pos: nat

    ghost predicate Valid()
      reads this
    {
      IsRun(ascending, entries) && pos <= |entries|
    }

    ghost function Rest(): seq<Entry>
      reads this
      requires Valid()
    {
      entries[pos..]
    }

    constructor (ascending: bool, entries: seq<Entry>)
      requires IsRun(ascending, entries)
      ensures Valid() && this.ascending == ascending && this.entries == entries && pos == 0
    {
      this.ascending, this.entries, pos := ascending, entries, 0;
    }

    method SeekTo(seek: int) returns (key: int, value: Value)
      requires Valid()
      modifies this
      ensures Valid()
      ensures var found := FromSeek(ascending, entries, seek);
              Entry(key, value) == Head(found) && Rest() == Tail(found)
    {
      pos := |entries| - |FromSeek(ascending, entries, seek)|;
      key, value := Next();
    }

    method Next() returns (key: int, value: Value)
      requires Valid()
      modifies this
      ensures Valid()
      ensures Entry(key, value) == Head(old(Rest())) && Rest() == Tail(old(Rest()))
    {
      if pos == |entries| {
        key, value := EOF, Nil;
      } else {
        key, value := entries[pos].key, entries[pos].value;
        pos := pos + 1;
      }
    }
  }

  // ----- TagsCursor: the seek cache -----

  datatype Op = SeekTo(seek: int) | Next

  /** What a `TagsCursor` remembers of its last seek; `seek == EOF` means nothing. */
  datatype Cache = Cache(seek: int, buf: Entry)

  const NO_CACHE := Cache(EOF, Entry(0, Nil))

  predicate Hit(c: Cache, seek: int) {
    c.seek != -1 && c.seek < seek && (c.buf.key == EOF || c.buf.key >= seek)
  }

  /** The wrapped cursor on its own: what one operation returns and what it leaves. */
  function BareStep(ascending: bool, all: seq<Entry>, rest: seq<Entry>, op: Op): (Entry, seq<Entry>) {
    match op
    case Next => (Head(rest), Tail(rest))
    case SeekTo(seek) => (Head(FromSeek(ascending, all, seek)), Tail(FromSeek(ascending, all, seek)))
  }

  function CachedStep(ascending: bool, all: seq<Entry>, rest: seq<Entry>, c: Cache, op: Op)
    : (Entry, seq<Entry>, Cache)
  {
    match op
    case Next => (Head(rest), Tail(rest), NO_CACHE)
    case SeekTo(seek) =>
      if Hit(c, seek) then (c.buf, rest, c)
      else
        var found := FromSeek(ascending, all, seek);
        (Head(found), Tail(found), Cache(seek, Head(found)))
  }

  ghost function BareRun(ascending: bool, all: seq<Entry>, rest: seq<Entry>, ops: seq<Op>): seq<Entry>
    decreases |ops|
  {
    if ops == [] then []
    else
      var (out, rest') := BareStep(ascending, all, rest, ops[0]);
      [out] + BareRun(ascending, all, rest', ops[1..])
  }

  ghost function CachedRun(ascending: bool, all: seq<Entry>, rest: seq<Entry>, c: Cache, ops: seq<Op>): seq<Entry>
    decreases |ops|
  {
    if ops == [] then []
    else
      var (out, rest', c') := CachedStep(ascending, all, rest, c, ops[0]);
      [out] + CachedRun(ascending, all, rest', c', ops[1..])
  }

  /** The cache describes the cursor: it was filled by the last operation. */
  ghost predicate Coherent(ascending: bool, all: seq<Entry>, rest: seq<Entry>, c: Cache) {
    c.seek != EOF ==>
      var found := FromSeek(ascending, all, c.seek);
      c.buf == Head(found) && rest == Tail(found)
  }

  /** A later seek that lands at or before the cached key finds the cached entry. */
  lemma {:induction false} HitIsExact(all: seq<Entry>, seek: int, c: Cache)
    requires IsRun(true, all)
    requires Hit(c, seek) && c.buf == Head(FromSeek(true, all, c.seek))
    ensures FromSeek(true, all, seek) == FromSeek(true, all, c.seek)
  {
    if all != [] {
      if Before(true, all[0].key, c.seek) {
        HitIsExact(all[1..], seek, c);
      } else {
        assert all[0] in all;
      }
    }
  }

  lemma {:induction false} AscendingRunsAgree(all: seq<Entry>, rest: seq<Entry>, c: Cache, ops: seq<Op>)
    requires IsRun(true, all) && Coherent(true, all, rest, c)
    ensures CachedRun(true, all, rest, c, ops) == BareRun(true, all, rest, ops)
    decreases |ops|
  {
    if ops != [] {
      if ops[0].SeekTo? && Hit(c, ops[0].seek) {
        HitIsExact(all, ops[0].seek, c);
      }
      var (_, rest', c') := CachedStep(true, all, rest, c, ops[0]);
      AscendingRunsAgree(all, rest', c', ops[1..]);
    }
  }

  lemma {:induction false} EmptyRunsAgree(ascending: bool, rest: seq<Entry>, c: Cache, ops: seq<Op>)
    requires rest == [] && (c.seek != EOF ==> c.buf == NOTHING)
    ensures CachedRun(ascending, [], rest, c, ops) == BareRun(ascending, [], rest, ops)
    decreases |ops|
  {
    if ops != [] {
      var (_, rest', c') := CachedStep(ascending, [], rest, c, ops[0]);
      EmptyRunsAgree(ascending, rest', c', ops[1..]);
    }
  }

  lemma DescendingSeeks(all: seq<Entry>, below: int)
    requires IsRun(false, all) && all != [] && below < all[|all| - 1].key
    ensures FromSeek(false, all, below) == []
    ensures var found := FromSeek(false, all, all[|all| - 1].key);
            found != [] && found[0].key != EOF
  {
    var last := all[|all| - 1];
    FromSeekExact(false, all, below);
    FromSeekExact(false, all, last.key);
    assert last in all && last in FromSeek(false, all, last.key);
    var none := FromSeek(false, all, below);
    assert forall e :: e in none ==> e in all && e.key <= below;
    assert forall e :: e !in none;
    assert none == [];
    var found := FromSeek(false, all, last.key);
    assert found[0] in found;
  }

  /** Seeking below every key of a descending run, then to its lowest key, gives the cache away. */
  lemma DescendingRunsDiffer(all: seq<Entry>) returns (ops: seq<Op>)
    requires IsRun(false, all) && all != []
    ensures CachedRun(false, all, all, NO_CACHE, ops) != BareRun(false, all, all, ops)
  {
    hide IsRun, Monotone, FromSeek;
    var key := all[|all| - 1].key;
    var below := if key - 1 == EOF then key - 2 else key - 1;
    var first, second := SeekTo(below), SeekTo(key);
    ops := [first, second];
    DescendingSeeks(all, below);
    var found := FromSeek(false, all, key);
    assert ops[1..] == [second];
    assert CachedRun(false, all, [], Cache(below, NOTHING), [second])[0] == NOTHING;
    assert BareRun(false, all, [], [second])[0] == found[0];
    assert CachedRun(false, all, all, NO_CACHE, ops)[1] == NOTHING;
    assert BareRun(false, all, all, ops)[1] == found[0];
  }

  /**
   The cache is indistinguishable from the bare cursor, under every sequence of
   seeks and reads from a fresh cursor, exactly when the cursor ascends (or
   holds nothing).
   */
  lemma CacheIndistinguishable(ascending: bool, all: seq<Entry>)
    requires IsRun(ascending, all)
    ensures (forall ops :: CachedRun(ascending, all, all, NO_CACHE, ops) == BareRun(ascending, all, all, ops))
            <==> (ascending || all == [])
  {
    if ascending {
      forall ops ensures CachedRun(true, all, all, NO_CACHE, ops) == BareRun(true, all, all, ops) {
        AscendingRunsAgree(all, all, NO_CACHE, ops);
      }
    } else if all == [] {
      forall ops ensures CachedRun(false, [], [], NO_CACHE, ops) == BareRun(false, [], [], ops) {
        EmptyRunsAgree(false, [], NO_CACHE, ops);
      }
    } else {
      var ops := DescendingRunsDiffer(all);
    }
  }

  class TagsCursor {
    const cursor: EngineCursor
    var seek: int
    var bufKey: int
    var bufValue: Value

    ghost predicate Valid()
      reads this, cursor
    {
      cursor.Valid()
    }

    function Cached(): Cache
      reads this
    {
      Cache(seek, Entry(bufKey, bufValue))
    }

    constructor (c: EngineCursor)
      requires c.Valid()
      ensures Valid() && cursor == c && Cached() == NO_CACHE
    {
      cursor, seek, bufKey, bufValue := c, EOF, 0, Nil;
    }

    method SeekTo(to: int) returns (key: int, value: Value)
      requires Valid()
      modifies this, cursor
      ensures Valid()
      ensures (Entry(key, value), cursor.Rest(), Cached())
           == CachedStep(cursor.ascending, cursor.entries, old(cursor.Rest()), old(Cached()), Op.SeekTo(to))
    {
      hide IsRun, FromSeek;
      if seek != -1 && seek < to && (bufKey == EOF || bufKey >= to) {
        return bufKey, bufValue;
      }
      key, value := cursor.SeekTo(to);
      seek := to;
      bufKey, bufValue := key, value;
    }

    method Next() returns (key: int, value: Value)
      requires Valid()
      modifies this, cursor
      ensures Valid()
      ensures (Entry(key, value), cursor.Rest(), Cached())
           == CachedStep(cursor.ascending, cursor.entries, old(cursor.Rest()), old(Cached()), Op.Next)
    {
      seek := -1;
      bufKey, bufValue := 0, Nil;
      key, value := cursor.Next();
    }
  }
}
