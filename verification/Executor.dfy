/** The merge of the shard mappers' outputs (tsdb/aggregate.go): one group of chunks per tag set, in order. */
module Executor {
  import opened Values
  import opened Strings
  import M = Mapper
  import W = Windows
  import opened Sequences

  type Chunk = M.Chunk

  /** The chunks of one tag set, from all mappers. */
  datatype Group = Group(key: string, chunks: seq<Chunk>)

  /** Tag set keys never fall and are never empty: a mapper's cursor sets are sorted by key. */
  predicate Ordered(s: seq<Chunk>) {
    && (forall i, j :: 0 <= i < j < |s| ==> !Less(s[j].key, s[i].key))
    && forall c :: c in s ==> c.key != ""
  }

  function Only(s: seq<Chunk>, key: string): seq<Chunk> {
    if s == [] then [] else (if s[0].key == key then [s[0]] else []) + Only(s[1..], key)
  }

  /** All chunks of a tag set: those of the first mapper, then those of the second, and so on. */
  function Gather(lists: seq<seq<Chunk>>, key: string): seq<Chunk> {
    if lists == [] then [] else Gather(lists[..|lists| - 1], key) + Only(lists[|lists| - 1], key)
  }

  /** A mapper with its last chunk buffered (tsdb/mapper.go). */
  class StatefulMapper {
    const chunks: seq<Chunk>
    var pos: nat
    var bufferedChunk: Option<Chunk>
    var drained: bool

    constructor (chunks: seq<Chunk>)
      ensures Valid() && this.chunks == chunks && Pending() == chunks && bufferedChunk.None?
    {
      this.chunks, pos, bufferedChunk, drained := chunks, 0, None, false;
    }

    predicate Valid()
      reads this
    {
      pos <= |chunks| && (drained ==> bufferedChunk.None? && pos == |chunks|)
    }

    /** What the mapper has yet to contribute. */
    function Pending(): seq<Chunk>
      reads this
    {
      (if bufferedChunk.Some? then [bufferedChunk.value] else []) + (if pos <= |chunks| then chunks[pos..] else [])
    }

    predicate Primed()
      reads this
    {
      Valid() && (drained || bufferedChunk.Some?)
    }

    method NextChunk() returns (c: Option<Chunk>)
      requires Valid()
      modifies this
      ensures Valid() && bufferedChunk == old(bufferedChunk) && drained == old(drained)
      ensures c.Some? ==> old(pos) < |chunks| && c.value == chunks[old(pos)] && pos == old(pos) + 1
      ensures c.None? ==> pos == old(pos) == |chunks|
    {
      if pos == |chunks| {
        return None;
      }
      c := Some(chunks[pos]);
      pos := pos + 1;
    }

    /** The chunk to offer next, read ahead if there is none. */
    method Prime()
      requires Valid()
      modifies this
      ensures Primed() && Pending() == old(Pending())
    {
      if drained || bufferedChunk.Some? {
        return;
      }
      bufferedChunk := NextChunk();
      if bufferedChunk.None? {
        drained := true;
      }
    }

    /** The inner loop of `readNextTagset`: every chunk up to the first of another tag set. */
    method Pull(tagset: string) returns (taken: seq<Chunk>)
      requires Primed()
      modifies this
      ensures Primed() && taken + Pending() == old(Pending())
      ensures forall c :: c in taken ==> c.key == tagset
      ensures Pending() != [] ==> Pending()[0].key != tagset
    {
      taken := [];
      while true
        invariant Primed() && taken + Pending() == old(Pending())
        invariant forall c :: c in taken ==> c.key == tagset
        decreases |Pending()|
      {
        if drained || bufferedChunk.value.key != tagset {
          break;
        }
        taken := taken + [bufferedChunk.value];
        bufferedChunk := None;
        Prime();
      }
    }
  }

  // ----- One round of the merge, on values -----

  /** Taking from each mapper its leading chunks of one tag set. */
  ghost predicate Taken(before: seq<seq<Chunk>>, key: string, taken: seq<seq<Chunk>>, after: seq<seq<Chunk>>) {
    && |taken| == |after| == |before|
    && forall k :: 0 <= k < |before| ==> TakenAt(before[k], key, taken[k], after[k])
  }

  ghost predicate TakenAt(before: seq<Chunk>, key: string, taken: seq<Chunk>, after: seq<Chunk>) {
    && taken + after == before
    && (forall c :: c in taken ==> c.key == key)
    && (after != [] ==> after[0].key != key)
  }

  /** No pending chunk comes before the tag set, and some pending chunk is of it. */
  ghost predicate IsNext(pending: seq<seq<Chunk>>, key: string) {
    && (forall k, c :: 0 <= k < |pending| && c in pending[k] ==> !Less(c.key, key))
    && exists k :: 0 <= k < |pending| && pending[k] != [] && pending[k][0].key == key
  }

  ghost predicate Sent(groups: seq<Group>, key: string) {
    exists g :: g in groups && g.key == key
  }

  /** What one mapper has contributed, and what it has left, against the groups sent out. */
  ghost predicate Split(list: seq<Chunk>, rest: seq<Chunk>, groups: seq<Group>) {
    && |rest| <= |list| && rest == list[|list| - |rest|..]
    && (forall c :: c in list[..|list| - |rest|] ==> Sent(groups, c.key))
    && forall c, g :: c in rest && g in groups ==> Less(g.key, c.key)
  }

  ghost predicate Ascending(groups: seq<Group>) {
    forall i, j :: 0 <= i < j < |groups| ==> Less(groups[i].key, groups[j].key)
  }

  /** Every group is non-empty and has all chunks of its tag set from all mappers. */
  ghost predicate Complete(lists: seq<seq<Chunk>>, groups: seq<Group>) {
    forall g :: g in groups ==> g.chunks != [] && g.chunks == Gather(lists, g.key)
  }

  ghost predicate Going(lists: seq<seq<Chunk>>, pending: seq<seq<Chunk>>, groups: seq<Group>) {
    && |pending| == |lists|
    && (forall k :: 0 <= k < |lists| ==> Split(lists[k], pending[k], groups))
    && Ascending(groups) && Complete(lists, groups)
  }

  lemma {:induction false} OnlySplit(a: seq<Chunk>, b: seq<Chunk>, key: string)
    ensures Only(a + b, key) == Only(a, key) + Only(b, key)
  {
    if a == [] {
      assert a + b == b;
    } else {
      OnlySplit(a[1..], b, key);
      assert (a + b)[1..] == a[1..] + b;
      Assoc(if a[0].key == key then [a[0]] else [], Only(a[1..], key), Only(b, key));
    }
  }

  lemma {:induction false} OnlyAll(s: seq<Chunk>, key: string)
    requires forall c :: c in s ==> c.key == key
    ensures Only(s, key) == s
  {
    if s != [] {
      OnlyAll(s[1..], key);
    }
  }

  lemma {:induction false} OnlyNone(s: seq<Chunk>, key: string)
    requires forall c :: c in s ==> c.key != key
    ensures Only(s, key) == []
  {
    if s != [] {
      OnlyNone(s[1..], key);
    }
  }

  /** After a round, what a mapper has left lies strictly after the tag set. */
  lemma LeftIsLater(before: seq<Chunk>, key: string, taken: seq<Chunk>, after: seq<Chunk>)
    requires Ordered(before) && TakenAt(before, key, taken, after) && forall c :: c in before ==> !Less(c.key, key)
    ensures forall c :: c in after ==> Less(key, c.key)
  {
    forall i | 0 <= i < |after| ensures Less(key, after[i].key) {
      var n := |taken|;
      assert before[n] == after[0] && before[n + i] == after[i];
      assert after[0] in before;
      LessIsTotal(key, after[0].key);
      if i > 0 {
        LessBefore(key, after[0].key, after[i].key);
      }
    }
  }

  /** One mapper's chunks of the tag set are just those taken. */
  lemma TakenIsOnly(list: seq<Chunk>, before: seq<Chunk>, groups: seq<Group>, key: string, taken: seq<Chunk>, after: seq<Chunk>)
    requires Ordered(list) && Split(list, before, groups) && TakenAt(before, key, taken, after)
    requires (forall c :: c in before ==> !Less(c.key, key)) && forall g :: g in groups ==> Less(g.key, key)
    ensures Only(list, key) == taken
    ensures forall c :: c in after ==> Less(key, c.key)
  {
    hide Less, Only;
    var n := |list| - |before|;
    assert Ordered(before);
    LeftIsLater(before, key, taken, after);
    LessIsStrict(key);
    assert list == list[..n] + before;
    OnlySplit(list[..n], before, key);
    OnlySplit(taken, after, key);
    OnlyNone(list[..n], key);
    OnlyAll(taken, key);
    OnlyNone(after, key);
  }

  lemma {:induction false} GatherIsTaken(lists: seq<seq<Chunk>>, key: string, taken: seq<seq<Chunk>>)
    requires |taken| == |lists| && forall k :: 0 <= k < |lists| ==> Only(lists[k], key) == taken[k]
    ensures Gather(lists, key) == Flatten(taken)
  {
    if lists != [] {
      var n := |lists| - 1;
      GatherIsTaken(lists[..n], key, taken[..n]);
    }
  }

  lemma {:induction false} FlattenHas(ss: seq<seq<Chunk>>, k: nat, c: Chunk)
    requires k < |ss| && c in ss[k]
    ensures c in Flatten(ss)
  {
    if k < |ss| - 1 {
      FlattenHas(ss[..|ss| - 1], k, c);
    }
  }

  lemma SplitNext(list: seq<Chunk>, before: seq<Chunk>, groups: seq<Group>, g: Group, taken: seq<Chunk>, after: seq<Chunk>)
    requires Split(list, before, groups) && TakenAt(before, g.key, taken, after)
    requires forall c :: c in after ==> Less(g.key, c.key)
    ensures Split(list, after, groups + [g])
  {
    hide Less;
    var n, n' := |list| - |before|, |list| - |after|;
    assert list[..n'] == list[..n] + taken;
    forall c | c in list[..n'] ensures Sent(groups + [g], c.key) {
      if c in list[..n] {
        assert Sent(groups, c.key);
        var h :| h in groups && h.key == c.key;
        assert h in groups + [g];
      } else {
        assert g in groups + [g];
      }
    }
    assert forall c :: c in after ==> c in before;
  }

  /** A round keeps the merge going, and its group is not empty. */
  lemma RoundKeeps(lists: seq<seq<Chunk>>, before: seq<seq<Chunk>>, groups: seq<Group>, key: string, taken: seq<seq<Chunk>>, after: seq<seq<Chunk>>)
    requires (forall k :: 0 <= k < |lists| ==> Ordered(lists[k])) && Going(lists, before, groups)
    requires IsNext(before, key) && Taken(before, key, taken, after)
    ensures Flatten(taken) != [] && Going(lists, after, groups + [Group(key, Flatten(taken))])
  {
    hide Less, Ordered, Only, Flatten, Gather, Split;
    var g := Group(key, Flatten(taken));
    var first :| 0 <= first < |before| && before[first] != [] && before[first][0].key == key;
    NextIsLater(lists, before, groups, first);
    forall k | 0 <= k < |lists| ensures Only(lists[k], key) == taken[k] && Split(lists[k], after[k], groups + [g]) {
      assert TakenAt(before[k], key, taken[k], after[k]);
      TakenIsOnly(lists[k], before[k], groups, key, taken[k], after[k]);
      SplitNext(lists[k], before[k], groups, g, taken[k], after[k]);
    }
    GatherIsTaken(lists, key, taken);
    assert TakenAt(before[first], key, taken[first], after[first]);
    assert taken[first] != [];
    FlattenHas(taken, first, taken[first][0]);
  }

  lemma NextIsLater(lists: seq<seq<Chunk>>, before: seq<seq<Chunk>>, groups: seq<Group>, k: nat)
    requires Going(lists, before, groups) && k < |before| && before[k] != []
    ensures forall g :: g in groups ==> Less(g.key, before[k][0].key)
  {
    assert Split(lists[k], before[k], groups);
    assert before[k][0] in before[k];
  }

  // ----- The executor -----

  ghost function PendingOf(ms: seq<StatefulMapper>): seq<seq<Chunk>>
    reads ms
  {
    seq(|ms|, k requires 0 <= k < |ms| reads ms => ms[k].Pending())
  }

  ghost predicate AllPrimed(ms: seq<StatefulMapper>)
    reads ms
  {
    forall k :: 0 <= k < |ms| ==> ms[k].Primed()
  }

  lemma OnOffer(m: StatefulMapper)
    requires m.Primed()
    ensures m.drained <==> m.Pending() == []
    ensures m.bufferedChunk.Some? <==> m.Pending() != []
    ensures m.bufferedChunk.Some? ==> m.Pending()[0] == m.bufferedChunk.value
  {
  }

  predicate Separate(ms: seq<StatefulMapper>) {
    forall j, k :: 0 <= j < k < |ms| ==> ms[j] != ms[k]
  }

  /** `initMappers`: buffer the first chunk of each mapper. */
  method InitMappers(ms: seq<StatefulMapper>)
    requires Separate(ms) && forall k :: 0 <= k < |ms| ==> ms[k].Valid()
    modifies ms
    ensures AllPrimed(ms) && PendingOf(ms) == old(PendingOf(ms))
  {
    for i := 0 to |ms|
      invariant forall k :: 0 <= k < |ms| ==> ms[k].Valid() && ms[k].Pending() == old(PendingOf(ms))[k]
      invariant forall k :: 0 <= k < i ==> ms[k].Primed()
    {
      ms[i].Prime();
    }
  }

  method MappersDrained(ms: seq<StatefulMapper>) returns (r: bool)
    requires AllPrimed(ms)
    ensures r <==> forall k :: 0 <= k < |ms| ==> PendingOf(ms)[k] == []
  {
    for i := 0 to |ms|
      invariant forall k :: 0 <= k < i ==> PendingOf(ms)[k] == []
    {
      OnOffer(ms[i]);
      if !ms[i].drained {
        assert PendingOf(ms)[i] != [];
        return false;
      }
    }
    return true;
  }

  /** The lowest tag set on offer by the first `n` mappers; "" stands for none. */
  ghost predicate Lowest(pending: seq<seq<Chunk>>, n: nat, tagset: string)
    requires n <= |pending|
  {
    if tagset == "" then forall k :: 0 <= k < n ==> pending[k] == []
    else
      && (exists k :: 0 <= k < n && pending[k] != [] && pending[k][0].key == tagset)
      && forall k :: 0 <= k < n && pending[k] != [] ==> !Less(pending[k][0].key, tagset)
  }

  lemma LowestStep(pending: seq<seq<Chunk>>, n: nat, tagset: string, key: string)
    requires n < |pending| && Lowest(pending, n, tagset) && pending[n] != [] && pending[n][0].key == key != ""
    ensures Lowest(pending, n + 1, if tagset == "" || Less(key, tagset) then key else tagset)
  {
    hide Less;
    LessIsStrict(key);
    if tagset != "" && Less(key, tagset) {
      LowerStays(pending, n, tagset, key);
    }
  }

  lemma LowerStays(pending: seq<seq<Chunk>>, i: nat, tagset: string, key: string)
    requires i <= |pending| && Less(key, tagset)
    requires forall k :: 0 <= k < i && pending[k] != [] ==> !Less(pending[k][0].key, tagset)
    ensures forall k :: 0 <= k < i && pending[k] != [] ==> !Less(pending[k][0].key, key)
  {
    forall k | 0 <= k < i && pending[k] != [] ensures !Less(pending[k][0].key, key) {
      if Less(pending[k][0].key, key) {
        LessIsTransitive(pending[k][0].key, key, tagset);
      }
    }
  }

  /** `nextMapperTagSet`: the lowest tag set on offer. */
  method NextMapperTagSet(ms: seq<StatefulMapper>) returns (tagset: string)
    requires AllPrimed(ms) && forall k :: 0 <= k < |ms| ==> Ordered(PendingOf(ms)[k])
    requires exists k :: 0 <= k < |ms| && PendingOf(ms)[k] != []
    ensures IsNext(PendingOf(ms), tagset)
  {
    hide Less;
    tagset := "";
    ghost var pending: seq<seq<Chunk>> := PendingOf(ms);
    for i := 0 to |ms|
      invariant Lowest(pending, i, tagset)
    {
      OnOffer(ms[i]);
      assert pending[i] == ms[i].Pending() && Ordered(pending[i]);
      hide Lowest;
      if ms[i].bufferedChunk.Some? {
        var key := ms[i].bufferedChunk.value.key;
        assert pending[i][0] in pending[i];
        LowestStep(pending, i, tagset, key);
        if tagset == "" {
          tagset := key;
        } else if Less(key, tagset) {
          tagset := key;
        }
      } else {
        LowestSkip(pending, i, tagset);
      }
    }
    HeadsFirst(pending, tagset);
  }

  lemma LowestSkip(pending: seq<seq<Chunk>>, n: nat, tagset: string)
    requires n < |pending| && Lowest(pending, n, tagset) && pending[n] == []
    ensures Lowest(pending, n + 1, tagset)
  {
  }

  lemma HeadsFirst(pending: seq<seq<Chunk>>, tagset: string)
    requires forall k :: 0 <= k < |pending| ==> Ordered(pending[k])
    requires forall k :: 0 <= k < |pending| && pending[k] != [] ==> !Less(pending[k][0].key, tagset)
    ensures forall k, c :: 0 <= k < |pending| && c in pending[k] ==> !Less(c.key, tagset)
  {
    forall k, c | 0 <= k < |pending| && c in pending[k] ensures !Less(c.key, tagset) {
      var i :| 0 <= i < |pending[k]| && pending[k][i] == c;
      assert Ordered(pending[k]);
      if i > 0 {
        NotLessTrans(tagset, pending[k][0].key, c.key);
      }
    }
  }

  /** `readNextTagset`: the chunks of one tag set from every mapper. */
  method ReadNextTagset(ms: seq<StatefulMapper>, tagset: string) returns (chunks: seq<Chunk>, ghost taken: seq<seq<Chunk>>)
    requires Separate(ms) && AllPrimed(ms)
    modifies ms
    ensures AllPrimed(ms) && Taken(old(PendingOf(ms)), tagset, taken, PendingOf(ms)) && chunks == Flatten(taken)
  {
    chunks, taken := [], [];
    ghost var before: seq<seq<Chunk>> := PendingOf(ms);
    for i := 0 to |ms|
      invariant AllPrimed(ms) && |taken| == i && chunks == Flatten(taken)
      invariant forall k :: i <= k < |ms| ==> ms[k].Pending() == before[k]
      invariant forall k :: 0 <= k < i ==> TakenAt(before[k], tagset, taken[k], ms[k].Pending())
    {
      hide TakenAt;
      label round:
      var mine := PullFrom(ms[i], tagset);
      assert forall k :: 0 <= k < |ms| && k != i ==> ms[k].Primed() && ms[k].Pending() == old@round(ms[k].Pending());
      chunks := chunks + mine;
      taken := taken + [mine];
      assert taken[..i] == taken[..|taken| - 1];
    }
  }

  method PullFrom(m: StatefulMapper, tagset: string) returns (taken: seq<Chunk>)
    requires m.Primed()
    modifies m
    ensures m.Primed() && TakenAt(old(m.Pending()), tagset, taken, m.Pending())
  {
    taken := m.Pull(tagset);
  }

  lemma {:induction false} TakenShrinks(before: seq<seq<Chunk>>, key: string, taken: seq<seq<Chunk>>, after: seq<seq<Chunk>>)
    requires Taken(before, key, taken, after)
    ensures |Flatten(before)| == |Flatten(taken)| + |Flatten(after)|
  {
    if before != [] {
      var n := |before| - 1;
      assert TakenAt(before[n], key, taken[n], after[n]);
      TakenShrinks(before[..n], key, taken[..n], after[..n]);
    }
  }

  /** The merge of the mappers' chunk lists. */
  ghost predicate IsMerge(lists: seq<seq<Chunk>>, groups: seq<Group>) {
    && Ascending(groups)
    && Complete(lists, groups)
    && forall k, c :: 0 <= k < |lists| && c in lists[k] ==> Sent(groups, c.key)
  }

  lemma MergeDone(lists: seq<seq<Chunk>>, pending: seq<seq<Chunk>>, groups: seq<Group>)
    requires Going(lists, pending, groups) && forall k :: 0 <= k < |pending| ==> pending[k] == []
    ensures IsMerge(lists, groups)
  {
    forall k, c | 0 <= k < |lists| && c in lists[k] ensures Sent(groups, c.key) {
      assert Split(lists[k], pending[k], groups);
      assert lists[k][..|lists[k]|] == lists[k];
    }
  }

  lemma MergeStarts(lists: seq<seq<Chunk>>)
    ensures Going(lists, lists, [])
  {
  }

  lemma PendingOrdered(lists: seq<seq<Chunk>>, pending: seq<seq<Chunk>>, groups: seq<Group>)
    requires Going(lists, pending, groups) && forall k :: 0 <= k < |lists| ==> Ordered(lists[k])
    ensures forall k :: 0 <= k < |pending| ==> Ordered(pending[k])
  {
    hide Less;
    forall k | 0 <= k < |pending| ensures Ordered(pending[k]) {
      assert Split(lists[k], pending[k], groups) && Ordered(lists[k]);
    }
  }

  /**
   The loop of `execute`: it ends, each round has chunks to send, and the groups
   are in strictly ascending order of tag set, each with all chunks of its tag set
   from all mappers, so no chunk is dropped.
   */
  method Execute(ms: seq<StatefulMapper>) returns (groups: seq<Group>)
    requires Separate(ms)
    requires forall k :: 0 <= k < |ms| ==> ms[k].Valid() && Ordered(ms[k].Pending())
    modifies ms
    ensures IsMerge(old(PendingOf(ms)), groups)
  {
    hide Less, Taken, Going, IsNext, IsMerge, Ordered, Flatten;
    ghost var lists: seq<seq<Chunk>> := PendingOf(ms);
    InitMappers(ms);
    groups := [];
    MergeStarts(lists);
    var drained := MappersDrained(ms);
    while !drained
      invariant AllPrimed(ms) && Going(lists, PendingOf(ms), groups)
      invariant drained <==> forall k :: 0 <= k < |ms| ==> PendingOf(ms)[k] == []
      decreases |Flatten(PendingOf(ms))|, !drained
    {
      PendingOrdered(lists, PendingOf(ms), groups);
      ghost var before: seq<seq<Chunk>> := PendingOf(ms);
      var tagset := NextMapperTagSet(ms);
      var chunks, taken := ReadNextTagset(ms, tagset);
      RoundKeeps(lists, before, groups, tagset, taken, PendingOf(ms));
      TakenShrinks(before, tagset, taken, PendingOf(ms));
      groups := groups + [Group(tagset, chunks)];
      drained := MappersDrained(ms);
    }
    MergeDone(lists, PendingOf(ms), groups);
  }

  // ----- The mappers do emit in order -----

  lemma {:induction false} ChunksOfSet(m: W.Shape, cs: M.CursorSet, fields: seq<string>, i: nat)
    ensures forall c :: c in M.ChunksFrom(m, cs, fields, i) ==> c.key == cs.key
    decreases m.intervalN - i
  {
    if W.Start(m, i) >= 0 {
      ChunksOfSet(m, cs, fields, i + 1);
    }
  }

  /** A mapper whose cursor sets are sorted by non-empty keys emits its chunks in order. */
  lemma {:induction false} MapperOrdered(m: W.Shape, sets: seq<M.CursorSet>, fields: seq<string>, k: nat)
    requires forall i, j :: 0 <= i < j < |sets| ==> !Less(sets[j].key, sets[i].key)
    requires forall i :: 0 <= i < |sets| ==> sets[i].key != ""
    ensures Ordered(M.ChunksAfter(m, sets, fields, k, 0))
    ensures forall c :: c in M.ChunksAfter(m, sets, fields, k, 0) ==> exists i :: k <= i < |sets| && sets[i].key == c.key
    decreases |sets| - k
  {
    hide Less;
    if k < |sets| {
      MapperOrdered(m, sets, fields, k + 1);
      ChunksOfSet(m, sets[k], fields, 0);
      LessIsStrict(sets[k].key);
      JoinOrdered(M.ChunksFrom(m, sets[k], fields, 0), M.ChunksAfter(m, sets, fields, k + 1, 0), sets[k].key);
    }
  }

  lemma JoinOrdered(a: seq<Chunk>, b: seq<Chunk>, key: string)
    requires (forall c :: c in a ==> c.key == key) && key != ""
    requires Ordered(b) && forall c :: c in b ==> !Less(c.key, key)
    ensures Ordered(a + b)
  {
    hide Less;
    LessIsStrict(key);
    var s := a + b;
    forall i, j | 0 <= i < j < |s| ensures !Less(s[j].key, s[i].key) {
      assert i < |a| ==> s[i] in a;
      assert j < |a| ==> s[j] in a;
      assert j >= |a| ==> s[j] in b;
    }
  }
}
