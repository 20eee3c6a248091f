/**
 The k-way merge of cursors (tsdb/cursor.go, `multiCursor`): a heap of the
 cursors' current entries, ordered by key in the cursors' direction and by
 priority among equal keys, popped with de-duplication on the previous key.

 The merged output is specified on the runs the cursors have left, without a
 heap: `Merge` takes the least head, from the first run that has it, and drops
 that key everywhere; `MergeExact` says what that list is.
 */
module MultiCursor {
  import opened Values
  import opened Cursors

  // ----- The specification: merging runs -----

  ghost predicate AllRuns(ascending: bool, runs: seq<seq<Entry>>) {
    forall i :: 0 <= i < |runs| ==> IsRun(ascending, runs[i])
  }

  function Total(runs: seq<seq<Entry>>): nat {
    if runs == [] then 0 else |runs[0]| + Total(runs[1..])
  }

  /** Run i has the least head, and is the first run with that key. */
  ghost predicate IsLeast(ascending: bool, runs: seq<seq<Entry>>, i: int) {
    && 0 <= i < |runs| && runs[i] != []
    && (forall j :: 0 <= j < |runs| && runs[j] != [] ==> !Before(ascending, runs[j][0].key, runs[i][0].key))
    && (forall j :: 0 <= j < i && runs[j] != [] ==> runs[j][0].key != runs[i][0].key)
  }

  ghost predicate Exhausted(runs: seq<seq<Entry>>) {
    forall i :: 0 <= i < |runs| ==> runs[i] == []
  }

  lemma {:induction false} LeastExists(ascending: bool, runs: seq<seq<Entry>>) returns (i: int)
    requires !Exhausted(runs)
    ensures IsLeast(ascending, runs, i)
  {
    var n := |runs| - 1;
    var front := runs[..n];
    if Exhausted(front) {
      i := n;
    } else {
      i := LeastExists(ascending, front);
      if runs[n] != [] && Before(ascending, runs[n][0].key, front[i][0].key) {
        i := n;
      }
    }
  }

  lemma LeastUnique(ascending: bool, runs: seq<seq<Entry>>, i: int, j: int)
    requires IsLeast(ascending, runs, i) && IsLeast(ascending, runs, j)
    ensures i == j
  {
  }

  function DropKey(run: seq<Entry>, key: int): seq<Entry> {
    if run != [] && run[0].key == key then run[1..] else run
  }

  function DropAll(runs: seq<seq<Entry>>, key: int): (r: seq<seq<Entry>>)
    ensures |r| == |runs|
    ensures forall i :: 0 <= i < |runs| ==> r[i] == DropKey(runs[i], key)
  {
    seq(|runs|, i requires 0 <= i < |runs| => DropKey(runs[i], key))
  }

  lemma {:induction false} TotalShrinks(runs: seq<seq<Entry>>, key: int)
    ensures Total(DropAll(runs, key)) <= Total(runs)
    ensures (exists i :: 0 <= i < |runs| && runs[i] != [] && runs[i][0].key == key) ==> Total(DropAll(runs, key)) < Total(runs)
  {
    if runs != [] {
      TotalShrinks(runs[1..], key);
      assert DropAll(runs, key)[1..] == DropAll(runs[1..], key);
      assert forall i :: 0 < i < |runs| ==> runs[i] == runs[1..][i - 1];
    }
  }

  ghost function Least(ascending: bool, runs: seq<seq<Entry>>): (i: int)
    requires !Exhausted(runs)
    ensures IsLeast(ascending, runs, i)
  {
    assert exists i :: IsLeast(ascending, runs, i) by { var i := LeastExists(ascending, runs); }
    var i :| IsLeast(ascending, runs, i);
    i
  }

  /** The merged list of what the runs hold. */
  ghost function Merge(ascending: bool, runs: seq<seq<Entry>>): seq<Entry>
    decreases Total(runs)
  {
    if Exhausted(runs) then []
    else
      var e := runs[Least(ascending, runs)][0];
      TotalShrinks(runs, e.key);
      [e] + Merge(ascending, DropAll(runs, e.key))
  }

  ghost predicate HasKey(run: seq<Entry>, key: int) {
    exists e :: e in run && e.key == key
  }

  /** Run i supplies e: it holds e, and no earlier run holds the key. */
  ghost predicate Supplies(runs: seq<seq<Entry>>, i: int, e: Entry) {
    && 0 <= i < |runs| && e in runs[i]
    && forall j :: 0 <= j < i ==> !HasKey(runs[j], e.key)
  }

  /** What the merge promises: monotone, exactly the keys held, values from the first holder. */
  ghost predicate IsMerge(ascending: bool, runs: seq<seq<Entry>>, out: seq<Entry>) {
    && Monotone(ascending, out)
    && (forall e :: e in out ==> exists i :: Supplies(runs, i, e))
    && (forall i :: 0 <= i < |runs| ==> forall e :: e in runs[i] ==> HasKey(out, e.key))
  }

  lemma HeadFirst(ascending: bool, run: seq<Entry>, e: Entry)
    requires IsRun(ascending, run) && e in run
    ensures !Before(ascending, e.key, run[0].key)
    ensures e == run[0] || (e in run[1..] && Before(ascending, run[0].key, e.key))
  {
  }

  /** Dropping the least key leaves every run a run, with only later keys. */
  lemma DropLeast(ascending: bool, runs: seq<seq<Entry>>, i: int)
    requires AllRuns(ascending, runs) && IsLeast(ascending, runs, i)
    ensures var key := runs[i][0].key;
            && AllRuns(ascending, DropAll(runs, key))
            && (forall j :: 0 <= j < |runs| ==>
                  forall e :: e in DropAll(runs, key)[j] <==> e in runs[j] && e.key != key)
            && (forall j :: 0 <= j < |runs| ==>
                  forall e :: e in DropAll(runs, key)[j] ==> Before(ascending, key, e.key))
  {
    var key := runs[i][0].key;
    forall j | 0 <= j < |runs|
      ensures IsRun(ascending, DropKey(runs[j], key))
      ensures forall e :: e in DropKey(runs[j], key) <==> e in runs[j] && e.key != key
      ensures forall e :: e in DropKey(runs[j], key) ==> Before(ascending, key, e.key)
    {
      forall e | e in runs[j]
        ensures e in DropKey(runs[j], key) <==> e.key != key
        ensures e.key != key ==> Before(ascending, key, e.key)
      {
        HeadFirst(ascending, runs[j], e);
      }
    }
  }

  /** The first holder of the least key is the run whose head is least. */
  lemma LeastSupplies(ascending: bool, runs: seq<seq<Entry>>, i: int)
    requires AllRuns(ascending, runs) && IsLeast(ascending, runs, i)
    ensures Supplies(runs, i, runs[i][0])
  {
    var key := runs[i][0].key;
    forall j | 0 <= j < i ensures !HasKey(runs[j], key) {
      forall e | e in runs[j] ensures e.key != key {
        HeadFirst(ascending, runs[j], e);
      }
    }
  }

  lemma SuppliesAfterDrop(ascending: bool, runs: seq<seq<Entry>>, i: int, j: int, e: Entry)
    requires AllRuns(ascending, runs) && IsLeast(ascending, runs, i)
    requires Supplies(DropAll(runs, runs[i][0].key), j, e)
    ensures Supplies(runs, j, e) && Before(ascending, runs[i][0].key, e.key)
  {
    DropLeast(ascending, runs, i);
    var rest := DropAll(runs, runs[i][0].key);
    forall j' | 0 <= j' < j ensures !HasKey(runs[j'], e.key) {
      assert !HasKey(rest[j'], e.key);
    }
  }

  lemma ConsMonotone(ascending: bool, e: Entry, out: seq<Entry>)
    requires Monotone(ascending, out)
    requires forall o :: o in out ==> Before(ascending, e.key, o.key)
    ensures Monotone(ascending, [e] + out)
  {
  }

  lemma ConsCovers(ascending: bool, runs: seq<seq<Entry>>, i: int, out: seq<Entry>, j: int, f: Entry)
    requires AllRuns(ascending, runs) && IsLeast(ascending, runs, i)
    requires IsMerge(ascending, DropAll(runs, runs[i][0].key), out)
    requires 0 <= j < |runs| && f in runs[j]
    ensures HasKey([runs[i][0]] + out, f.key)
  {
    var e := runs[i][0];
    DropLeast(ascending, runs, i);
    if f.key == e.key {
      assert e in [e] + out;
    } else {
      assert HasKey(out, f.key);
      var o :| o in out && o.key == f.key;
      assert o in [e] + out;
    }
  }

  lemma ConsIsMerge(ascending: bool, runs: seq<seq<Entry>>, i: int, out: seq<Entry>)
    requires AllRuns(ascending, runs) && IsLeast(ascending, runs, i)
    requires IsMerge(ascending, DropAll(runs, runs[i][0].key), out)
    ensures IsMerge(ascending, runs, [runs[i][0]] + out)
  {
    var e := runs[i][0];
    var whole := [e] + out;
    assert Monotone(ascending, out);
    forall o | o in whole
      ensures exists j :: Supplies(runs, j, o)
      ensures o in out ==> Before(ascending, e.key, o.key)
    {
      if o in out {
        var j :| Supplies(DropAll(runs, e.key), j, o);
        SuppliesAfterDrop(ascending, runs, i, j, o);
      } else {
        LeastSupplies(ascending, runs, i);
      }
    }
    ConsMonotone(ascending, e, out);
    forall j, f | 0 <= j < |runs| && f in runs[j] ensures HasKey(whole, f.key) {
      ConsCovers(ascending, runs, i, out, j, f);
    }
  }

  /** `Merge` is what it should be: monotone, every key once, from its first holder. */
  lemma {:induction false} MergeExact(ascending: bool, runs: seq<seq<Entry>>)
    requires AllRuns(ascending, runs)
    ensures IsMerge(ascending, runs, Merge(ascending, runs))
    decreases Total(runs)
  {
    if !Exhausted(runs) {
      var i := Least(ascending, runs);
      var key := runs[i][0].key;
      TotalShrinks(runs, key);
      DropLeast(ascending, runs, i);
      MergeExact(ascending, DropAll(runs, key));
      ConsIsMerge(ascending, runs, i, Merge(ascending, DropAll(runs, key)));
    }
  }

  lemma SameMembers(ascending: bool, runs: seq<seq<Entry>>, a: seq<Entry>, b: seq<Entry>, e: Entry)
    requires AllRuns(ascending, runs) && IsMerge(ascending, runs, a) && IsMerge(ascending, runs, b)
    requires e in a
    ensures e in b
  {
    var i :| Supplies(runs, i, e);
    assert HasKey(b, e.key);
    var f :| f in b && f.key == e.key;
    var j :| Supplies(runs, j, f);
    assert HasKey(runs[i], e.key) && HasKey(runs[j], e.key);
    assert i == j;
    assert IsRun(ascending, runs[i]);
  }

  lemma {:induction false} MonotoneUnique(ascending: bool, a: seq<Entry>, b: seq<Entry>)
    requires Monotone(ascending, a) && Monotone(ascending, b)
    requires forall e :: e in a <==> e in b
    ensures a == b
  {
    if b != [] {
      assert b[0] in a;
    }
    if a != [] {
      assert a[0] in b;
      assert a[0] == b[0];
      assert forall e :: e in a[1..] <==> e in a && e != a[0];
      assert forall e :: e in b[1..] <==> e in b && e != b[0];
      MonotoneUnique(ascending, a[1..], b[1..]);
    }
  }

  /** The promise determines the list: there is one merge of given runs. */
  lemma MergeUnique(ascending: bool, runs: seq<seq<Entry>>, a: seq<Entry>, b: seq<Entry>)
    requires AllRuns(ascending, runs) && IsMerge(ascending, runs, a) && IsMerge(ascending, runs, b)
    ensures a == b
  {
    forall e ensures e in a <==> e in b {
      if e in a {
        SameMembers(ascending, runs, a, b, e);
      }
      if e in b {
        SameMembers(ascending, runs, b, a, e);
      }
    }
    MonotoneUnique(ascending, a, b);
  }

  // ----- One pop, on the runs -----

  ghost predicate AtOrPast(ascending: bool, runs: seq<seq<Entry>>, key: int) {
    forall i :: 0 <= i < |runs| ==> forall e :: e in runs[i] ==> !Before(ascending, e.key, key)
  }

  /** What is still to come out after the key `prev` was returned. */
  ghost function PendingOf(ascending: bool, runs: seq<seq<Entry>>, prev: int): seq<Entry> {
    Merge(ascending, DropAll(runs, prev))
  }

  /** Popping a duplicate of the key just returned changes nothing that is to come. */
  lemma PopDuplicate(ascending: bool, runs: seq<seq<Entry>>, i: int, prev: int)
    requires AllRuns(ascending, runs) && IsLeast(ascending, runs, i) && runs[i][0].key == prev
    ensures PendingOf(ascending, runs[i := runs[i][1..]], prev) == PendingOf(ascending, runs, prev)
  {
    assert IsRun(ascending, runs[i]);
    assert DropAll(runs[i := runs[i][1..]], prev) == DropAll(runs, prev);
  }

  /** Popping a new key yields the head of what was to come. */
  lemma PopFresh(ascending: bool, runs: seq<seq<Entry>>, i: int, prev: int)
    requires AllRuns(ascending, runs) && IsLeast(ascending, runs, i) && runs[i][0].key != prev
    requires prev == EOF || AtOrPast(ascending, runs, prev)
    ensures PendingOf(ascending, runs, prev)
         == [runs[i][0]] + PendingOf(ascending, runs[i := runs[i][1..]], runs[i][0].key)
  {
    var key := runs[i][0].key;
    forall j | 0 <= j < |runs| ensures DropKey(runs[j], prev) == runs[j] {
      if runs[j] != [] {
        assert runs[j][0] in runs[j] && runs[i][0] in runs[i];
        assert IsRun(ascending, runs[j]);
      }
    }
    assert DropAll(runs, prev) == runs;
    LeastUnique(ascending, runs, i, Least(ascending, runs));
    assert IsRun(ascending, runs[i]);
    assert DropAll(runs[i := runs[i][1..]], key) == DropAll(runs, key);
  }

  lemma LeastIsPast(ascending: bool, runs: seq<seq<Entry>>, i: int)
    requires AllRuns(ascending, runs) && IsLeast(ascending, runs, i)
    ensures AtOrPast(ascending, runs[i := runs[i][1..]], runs[i][0].key)
  {
    assert forall e :: e in runs[i][1..] ==> e in runs[i];
    forall j | 0 <= j < |runs| ensures forall e :: e in runs[j] ==> !Before(ascending, e.key, runs[i][0].key) {
      forall e | e in runs[j] ensures !Before(ascending, e.key, runs[i][0].key) {
        HeadFirst(ascending, runs[j], e);
      }
    }
  }

  lemma {:induction false} TotalAfterPop(runs: seq<seq<Entry>>, i: int)
    requires 0 <= i < |runs| && runs[i] != []
    ensures Total(runs[i := runs[i][1..]]) < Total(runs)
  {
    if i > 0 {
      TotalAfterPop(runs[1..], i - 1);
      assert runs[i := runs[i][1..]][1..] == runs[1..][i - 1 := runs[i][1..]];
    } else {
      assert runs[i := runs[i][1..]][1..] == runs[1..];
    }
  }

  // ----- The cursor itself -----

  datatype HeapItem = HeapItem(key: int, value: Value, cursor: EngineCursor, priority: int)

  predicate Less(a: HeapItem, b: HeapItem) {
    if a.key == b.key then a.priority > b.priority
    else if a.cursor.ascending then a.key < b.key
    else a.key > b.key
  }

  /** `heap.Pop`, by its contract: takes out an item that no other item is less than. */
  method HeapPop(heap: seq<HeapItem>) returns (item: HeapItem, rest: seq<HeapItem>, ghost at: nat)
    requires heap != []
    requires forall x, y :: 0 <= x < |heap| && 0 <= y < |heap| ==> heap[x].cursor.ascending == heap[y].cursor.ascending
    ensures at < |heap| && item == heap[at] && rest == heap[..at] + heap[at + 1..]
    ensures forall x :: 0 <= x < |heap| ==> !Less(heap[x], item)
  {
    var least := 0;
    for k := 1 to |heap|
      invariant 0 <= least < k
      invariant forall x :: 0 <= x < k ==> !Less(heap[x], heap[least])
    {
      if Less(heap[k], heap[least]) {
        least := k;
      }
    }
    item, rest, at := heap[least], heap[..least] + heap[least + 1..], least;
  }

  /** The heap holds, for each run with something left, its head and its cursor. */
  ghost predicate HeapHolds(cursors: seq<EngineCursor>, heap: seq<HeapItem>, runs: seq<seq<Entry>>) {
    && |runs| == |cursors|
    && (forall x :: 0 <= x < |heap| ==> HeldBy(cursors, heap[x], runs))
    && (forall x, y :: 0 <= x < y < |heap| ==> heap[x].priority != heap[y].priority)
    && (forall i :: 0 <= i < |runs| && runs[i] != [] ==> InHeap(heap, |runs| - i))
  }

  ghost predicate HeldBy(cursors: seq<EngineCursor>, item: HeapItem, runs: seq<seq<Entry>>)
    requires |runs| == |cursors|
  {
    var i := |runs| - item.priority;
    0 <= i < |runs| && item.cursor == cursors[i] && runs[i] != [] && Entry(item.key, item.value) == runs[i][0]
  }

  ghost predicate InHeap(heap: seq<HeapItem>, priority: int) {
    exists x :: 0 <= x < |heap| && heap[x].priority == priority
  }

  /** A least heap item is the least head of the runs. */
  lemma LeastItem(cursors: seq<EngineCursor>, heap: seq<HeapItem>, runs: seq<seq<Entry>>, at: nat, ascending: bool)
    requires HeapHolds(cursors, heap, runs) && at < |heap|
    requires forall i :: 0 <= i < |cursors| ==> cursors[i].ascending == ascending
    requires forall x :: 0 <= x < |heap| ==> !Less(heap[x], heap[at])
    ensures IsLeast(ascending, runs, |runs| - heap[at].priority)
  {
    var i := |runs| - heap[at].priority;
    assert HeldBy(cursors, heap[at], runs);
    forall j | 0 <= j < |runs| && runs[j] != []
      ensures !Before(ascending, runs[j][0].key, runs[i][0].key)
      ensures j < i ==> runs[j][0].key != runs[i][0].key
    {
      assert InHeap(heap, |runs| - j);
      var x :| 0 <= x < |heap| && heap[x].priority == |runs| - j;
      assert HeldBy(cursors, heap[x], runs) && !Less(heap[x], heap[at]);
    }
  }

  lemma StillInHeap(heap: seq<HeapItem>, at: nat, priority: int)
    requires at < |heap| && heap[at].priority != priority && InHeap(heap, priority)
    ensures InHeap(heap[..at] + heap[at + 1..], priority)
  {
    var y :| 0 <= y < |heap| && heap[y].priority == priority;
    var x := if y < at then y else y - 1;
    assert (heap[..at] + heap[at + 1..])[x] == heap[y];
  }

  /** Each item left after removing one was in the heap, at another place. */
  lemma RestOfHeap(heap: seq<HeapItem>, at: nat, x: int)
    requires at < |heap| && 0 <= x < |heap| - 1
    ensures (heap[..at] + heap[at + 1..])[x] == heap[if x < at then x else x + 1]
  {
  }

  lemma HeapAfterPop(cursors: seq<EngineCursor>, heap: seq<HeapItem>, runs: seq<seq<Entry>>, at: nat)
    requires HeapHolds(cursors, heap, runs) && at < |heap|
    requires 0 <= |runs| - heap[at].priority < |runs|
    ensures HeapHolds(cursors, heap[..at] + heap[at + 1..], runs[|runs| - heap[at].priority := []])
    ensures !InHeap(heap[..at] + heap[at + 1..], heap[at].priority)
  {
    hide InHeap;
    var i := |runs| - heap[at].priority;
    var rest, runs' := heap[..at] + heap[at + 1..], runs[i := []];
    forall x | 0 <= x < |rest| ensures HeldBy(cursors, rest[x], runs') && rest[x].priority != heap[at].priority {
      RestOfHeap(heap, at, x);
      assert HeldBy(cursors, rest[x], runs);
    }
    forall x, y | 0 <= x < y < |rest| ensures rest[x].priority != rest[y].priority {
      RestOfHeap(heap, at, x);
      RestOfHeap(heap, at, y);
    }
    forall j | 0 <= j < |runs'| && runs'[j] != [] ensures InHeap(rest, |runs'| - j) {
      StillInHeap(heap, at, |runs| - j);
    }
    AbsentFromHeap(rest, heap[at].priority);
  }

  lemma AbsentFromHeap(heap: seq<HeapItem>, priority: int)
    requires forall x :: 0 <= x < |heap| ==> heap[x].priority != priority
    ensures !InHeap(heap, priority)
  {
  }

  lemma HeapAfterPush(cursors: seq<EngineCursor>, heap: seq<HeapItem>, runs: seq<seq<Entry>>, i: int,
                      item: HeapItem, run: seq<Entry>)
    requires HeapHolds(cursors, heap, runs) && 0 <= i < |runs| && run != []
    requires !InHeap(heap, item.priority) && item.priority == |runs| - i
    requires item.cursor == cursors[i] && Entry(item.key, item.value) == run[0]
    ensures HeapHolds(cursors, heap + [item], runs[i := run])
  {
    var h, r := heap + [item], runs[i := run];
    forall x | 0 <= x < |h| ensures HeldBy(cursors, h[x], r) {
      if x < |heap| {
        assert HeldBy(cursors, heap[x], runs);
      }
    }
    forall j | 0 <= j < |r| && r[j] != [] ensures InHeap(h, |r| - j) {
      if j == i {
        assert h[|heap|].priority == |r| - j;
      } else {
        assert InHeap(heap, |runs| - j);
        var x :| 0 <= x < |heap| && heap[x].priority == |runs| - j;
        assert h[x].priority == |r| - j;
      }
    }
  }

  /** Reading on in one run keeps every run a run, and past whatever it was past. */
  lemma RunsAfterPop(ascending: bool, runs: seq<seq<Entry>>, i: int, prev: int)
    requires AllRuns(ascending, runs) && 0 <= i < |runs| && runs[i] != []
    requires prev == EOF || AtOrPast(ascending, runs, prev)
    ensures AllRuns(ascending, runs[i := runs[i][1..]])
    ensures prev == EOF || AtOrPast(ascending, runs[i := runs[i][1..]], prev)
    ensures runs[i][1..] != [] ==> runs[i][1].key != EOF
  {
    var run := runs[i];
    assert IsRun(ascending, run);
    assert forall e :: e in run[1..] ==> e in run;
    if run[1..] != [] {
      assert run[1] in run;
    }
  }

  lemma HeapIsOneWay(cursors: seq<EngineCursor>, heap: seq<HeapItem>, runs: seq<seq<Entry>>, ascending: bool)
    requires HeapHolds(cursors, heap, runs)
    requires forall i :: 0 <= i < |cursors| ==> cursors[i].ascending == ascending
    ensures forall x :: 0 <= x < |heap| ==> heap[x].cursor.ascending == ascending
  {
    forall x | 0 <= x < |heap| ensures heap[x].cursor.ascending == ascending {
      assert HeldBy(cursors, heap[x], runs);
    }
  }

  lemma NothingPending(cursors: seq<EngineCursor>, runs: seq<seq<Entry>>, ascending: bool, prev: int)
    requires HeapHolds(cursors, [], runs)
    ensures PendingOf(ascending, runs, prev) == []
  {
    assert forall p :: !InHeap([], p);
    assert Exhausted(DropAll(runs, prev));
  }

  class MultiCursor {
    const cursors: seq<EngineCursor>
    var heap: seq<HeapItem>
    var prev: int
    ghost var runs: seq<seq<Entry>>  // what each cursor has left, its heap entry included

    /** The direction of the first cursor. */
    predicate Ascending() {
      if |cursors| == 0 then true else cursors[0].ascending
    }

    ghost predicate CursorsValid()
      reads cursors
    {
      && (forall i :: 0 <= i < |cursors| ==> cursors[i].Valid() && cursors[i].ascending == Ascending())
      && (forall i, j :: 0 <= i < j < |cursors| ==> cursors[i] != cursors[j])
    }

    ghost predicate Valid()
      reads this, cursors
    {
      && CursorsValid()
      && HeapHolds(cursors, heap, runs)
      && AllRuns(Ascending(), runs)
      && (forall i :: 0 <= i < |runs| && runs[i] != [] ==> cursors[i].Rest() == runs[i][1..])
      && (prev == EOF || AtOrPast(Ascending(), runs, prev))
    }

    /** The entries the merged cursor has still to return. */
    ghost function Pending(): seq<Entry>
      reads this, cursors
      requires Valid()
    {
      PendingOf(Ascending(), runs, prev)
    }

    constructor (cs: seq<EngineCursor>)
      requires forall i :: 0 <= i < |cs| ==> cs[i].Valid() && cs[i].ascending == cs[0].ascending
      requires forall i, j :: 0 <= i < j < |cs| ==> cs[i] != cs[j]
      ensures Valid() && cursors == cs && Pending() == []
    {
      cursors, heap, prev := cs, [], 0;
      runs := seq(|cs|, _ => []);
    }

    /** `heap.Pop` on the heap of this cursor. */
    method TakeLeast() returns (item: HeapItem, ghost i: int)
      requires Valid() && heap != []
      modifies this`heap
      ensures 0 <= i < |runs| == |cursors| && item.priority == |runs| - i && runs[i] != [] && IsLeast(Ascending(), runs, i)
      ensures item.cursor == cursors[i] && Entry(item.key, item.value) == runs[i][0]
      ensures HeapHolds(cursors, heap, runs[i := []]) && !InHeap(heap, item.priority)
    {
      hide IsLeast, AllRuns, IsRun, AtOrPast, InHeap;
      HeapIsOneWay(cursors, heap, runs, Ascending());
      var rest;
      ghost var at;
      item, rest, at := HeapPop(heap);
      assert HeldBy(cursors, heap[at], runs);
      i := |runs| - item.priority;
      LeastItem(cursors, heap, runs, at, Ascending());
      HeapAfterPop(cursors, heap, runs, at);
      heap := rest;
    }

    /** Takes the least item off the heap, reads on in its cursor, and puts that back. */
    method PopItem() returns (key: int, value: Value, ghost i: int)
      requires Valid() && heap != []
      modifies this`heap, this`runs, cursors
      ensures Valid()
      ensures 0 <= i < |old(runs)| && old(runs)[i] != []
      ensures IsLeast(Ascending(), old(runs), i) && Entry(key, value) == old(runs)[i][0]
      ensures runs == old(runs)[i := old(runs)[i][1..]]
    {
      hide IsLeast, AllRuns, IsRun, AtOrPast, InHeap, HeapHolds, PendingOf;
      var item;
      item, i := TakeLeast();
      RunsAfterPop(Ascending(), runs, i, prev);
      ghost var run := runs[i][1..];
      key, value := item.key, item.value;
      var k, v := item.cursor.Next();
      if k != EOF {
        var item' := item.(key := k, value := v);
        HeapAfterPush(cursors, heap, runs[i := []], i, item', run);
        heap := heap + [item'];
      }
      assert runs[i := []][i := run] == runs[i := run];
      assert k == EOF ==> run == [];
      assert cursors[i].Rest() == Tail(run);
      assert forall j :: 0 <= j < |cursors| && j != i ==> cursors[j].Rest() == old(cursors[j].Rest());
      runs := runs[i := run];
    }

    /** `pop`, which is also `Next`: the next entry still to come, or EOF for ever after. */
    method Pop() returns (key: int, value: Value)
      requires Valid()
      modifies this, cursors
      ensures Valid()
      ensures Entry(key, value) == Head(old(Pending())) && Pending() == Tail(old(Pending()))
    {
      hide IsLeast, AllRuns, IsRun, AtOrPast, HeapHolds, PendingOf, CursorsValid;
      while true
        invariant Valid() && Pending() == old(Pending())
        decreases Total(runs)
      {
        if |heap| == 0 {
          NothingPending(cursors, runs, Ascending(), prev);
          return EOF, Nil;
        }
        ghost var before := runs;
        ghost var i;
        key, value, i := PopItem();
        if key == prev {
          PopDuplicate(Ascending(), before, i, prev);
          TotalAfterPop(before, i);
          continue;
        }
        PopFresh(Ascending(), before, i, prev);
        LeastIsPast(Ascending(), before, i);
        prev := key;
        return;
      }
    }

    /** `SeekTo`: positions every cursor and returns the first entry of the merge. */
    method SeekTo(seek: int) returns (key: int, value: Value)
      requires Valid()
      modifies this, cursors
      ensures Valid()
      ensures var merged := Merge(Ascending(), SeekRuns(cursors, seek));
              Entry(key, value) == Head(merged) && Pending() == Tail(merged)
    {
      hide AllRuns, IsRun, AtOrPast, InHeap, HeapHolds, FromSeek, Merge, PendingOf, CursorsValid, SeekRuns, Head, Tail;
      ghost var r;
      heap, r := FillHeap(seek);
      prev := EOF;
      runs := r;
      NothingDropped(Ascending(), runs);
      key, value := Pop();
    }

    /** Seeks every cursor and collects those that have something. */
    method FillHeap(seek: int) returns (h: seq<HeapItem>, ghost r: seq<seq<Entry>>)
      requires CursorsValid()
      modifies cursors
      ensures CursorsValid()
      ensures r == SeekRuns(cursors, seek) && HeapHolds(cursors, h, r) && AllRuns(Ascending(), r)
      ensures forall i :: 0 <= i < |r| && r[i] != [] ==> cursors[i].Rest() == r[i][1..]
    {
      hide AllRuns, IsRun, InHeap, HeapHolds, FromSeek, HeldBy;
      h := [];
      r := seq(|cursors|, _ => []);
      EmptyHeapHolds(cursors, r);
      for i := 0 to |cursors|
        invariant CursorsValid()
        invariant |r| == |cursors| && HeapHolds(cursors, h, r) && AllRuns(Ascending(), r)
        invariant forall j :: 0 <= j < i ==> r[j] == FromSeek(Ascending(), cursors[j].entries, seek)
        invariant forall j :: i <= j < |r| ==> r[j] == []
        invariant forall j :: 0 <= j < i && r[j] != [] ==> cursors[j].Rest() == r[j][1..]
      {
        var c := cursors[i];
        ghost var run := FromSeek(c.ascending, c.entries, seek);
        SuffixIsRun(c.ascending, c.entries, seek);
        RunIsAdded(Ascending(), r, i, run);
        var k, v := c.SeekTo(seek);
        assert k == EOF <==> run == [];
        if k == EOF {
          assert r[i := run] == r;
          continue;
        }
        var item := HeapItem(k, v, c, |cursors| - i);
        NotInHeapYet(cursors, h, r, i);
        HeapAfterPush(cursors, h, r, i, item, run);
        h := h + [item];
        r := r[i := run];
      }
    }
  }

  lemma EmptyHeapHolds(cursors: seq<EngineCursor>, runs: seq<seq<Entry>>)
    requires |runs| == |cursors| && Exhausted(runs)
    ensures HeapHolds(cursors, [], runs) && AllRuns(true, runs) && AllRuns(false, runs)
  {
  }

  lemma NotInHeapYet(cursors: seq<EngineCursor>, heap: seq<HeapItem>, runs: seq<seq<Entry>>, i: int)
    requires HeapHolds(cursors, heap, runs) && 0 <= i < |runs| && runs[i] == []
    ensures !InHeap(heap, |runs| - i)
  {
    forall x | 0 <= x < |heap| ensures heap[x].priority != |runs| - i {
      assert HeldBy(cursors, heap[x], runs);
    }
  }

  lemma RunIsAdded(ascending: bool, runs: seq<seq<Entry>>, i: int, run: seq<Entry>)
    requires AllRuns(ascending, runs) && 0 <= i < |runs| && IsRun(ascending, run)
    ensures AllRuns(ascending, runs[i := run])
  {
  }

  lemma SuffixIsRun(ascending: bool, s: seq<Entry>, seek: int)
    requires IsRun(ascending, s)
    ensures IsRun(ascending, FromSeek(ascending, s, seek))
    ensures Head(FromSeek(ascending, s, seek)).key == EOF <==> FromSeek(ascending, s, seek) == []
  {
    hide FromSeek;
    DroppedIsRun(ascending, s, |s| - |FromSeek(ascending, s, seek)|);
  }

  lemma DroppedIsRun(ascending: bool, s: seq<Entry>, n: nat)
    requires IsRun(ascending, s) && n <= |s|
    ensures IsRun(ascending, s[n..])
    ensures Head(s[n..]).key == EOF <==> s[n..] == []
  {
    assert forall e :: e in s[n..] ==> e in s;
  }

  /** No key is the EOF mark, so a fresh seek drops nothing. */
  lemma NothingDropped(ascending: bool, runs: seq<seq<Entry>>)
    requires AllRuns(ascending, runs)
    ensures PendingOf(ascending, runs, EOF) == Merge(ascending, runs)
  {
    forall i | 0 <= i < |runs| ensures DropKey(runs[i], EOF) == runs[i] {
      assert IsRun(ascending, runs[i]);
    }
    assert DropAll(runs, EOF) == runs;
  }

  /** What each cursor holds at or past a seek. */
  ghost function SeekRuns(cursors: seq<EngineCursor>, seek: int): (r: seq<seq<Entry>>)
    ensures |r| == |cursors|
    ensures forall i :: 0 <= i < |r| ==> r[i] == FromSeek(cursors[i].ascending, cursors[i].entries, seek)
  {
    seq(|cursors|, i requires 0 <= i < |cursors| => FromSeek(cursors[i].ascending, cursors[i].entries, seek))
  }

  ghost function Contents(cursors: seq<EngineCursor>): (r: seq<seq<Entry>>)
    ensures |r| == |cursors| && forall i :: 0 <= i < |r| ==> r[i] == cursors[i].entries
  {
    seq(|cursors|, i requires 0 <= i < |cursors| => cursors[i].entries)
  }

  ghost predicate SomeoneHolds(lists: seq<seq<Entry>>, key: int) {
    exists i :: 0 <= i < |lists| && HasKey(lists[i], key)
  }

  /**
   `out` is the union of the lists from `seek` on: monotone, one entry for each
   key that some list holds at or past the seek, with the value of the first
   list that holds the key.
   */
  ghost predicate IsUnion(ascending: bool, lists: seq<seq<Entry>>, seek: int, out: seq<Entry>) {
    && Monotone(ascending, out)
    && (forall key :: HasKey(out, key) <==> SomeoneHolds(lists, key) && !Before(ascending, key, seek))
    && (forall e :: e in out ==> exists i :: Supplies(lists, i, e))
  }

  lemma KeyPastSeek(ascending: bool, s: seq<Entry>, seek: int, key: int)
    requires IsRun(ascending, s)
    ensures HasKey(FromSeek(ascending, s, seek), key) <==> HasKey(s, key) && !Before(ascending, key, seek)
  {
    FromSeekExact(ascending, s, seek);
  }

  lemma SuppliedFromAll(ascending: bool, lists: seq<seq<Entry>>, runs: seq<seq<Entry>>, seek: int, i: int, e: Entry)
    requires |runs| == |lists| && AllRuns(ascending, lists)
    requires forall j :: 0 <= j < |lists| ==> runs[j] == FromSeek(ascending, lists[j], seek)
    requires Supplies(runs, i, e)
    ensures Supplies(lists, i, e) && !Before(ascending, e.key, seek)
  {
    FromSeekExact(ascending, lists[i], seek);
    forall j | 0 <= j < i ensures !HasKey(lists[j], e.key) {
      KeyPastSeek(ascending, lists[j], seek, e.key);
    }
  }

  /** Merging what lies past the seek gives the union from the seek on. */
  lemma MergeIsUnion(ascending: bool, lists: seq<seq<Entry>>, runs: seq<seq<Entry>>, seek: int, out: seq<Entry>)
    requires |runs| == |lists| && AllRuns(ascending, lists)
    requires forall i :: 0 <= i < |lists| ==> runs[i] == FromSeek(ascending, lists[i], seek)
    requires IsMerge(ascending, runs, out)
    ensures IsUnion(ascending, lists, seek, out)
  {
    forall e | e in out ensures exists i :: Supplies(lists, i, e) && !Before(ascending, e.key, seek) {
      var i :| Supplies(runs, i, e);
      SuppliedFromAll(ascending, lists, runs, seek, i, e);
    }
    forall key ensures HasKey(out, key) <==> SomeoneHolds(lists, key) && !Before(ascending, key, seek) {
      if HasKey(out, key) {
        var e :| e in out && e.key == key;
        var i :| Supplies(lists, i, e);
        assert HasKey(lists[i], key);
      }
      if SomeoneHolds(lists, key) && !Before(ascending, key, seek) {
        var i :| 0 <= i < |lists| && HasKey(lists[i], key);
        KeyPastSeek(ascending, lists[i], seek, key);
        var e :| e in runs[i] && e.key == key;
        assert HasKey(out, e.key);
      }
    }
  }

  lemma MergedKeys(ascending: bool, runs: seq<seq<Entry>>, out: seq<Entry>)
    requires AllRuns(ascending, runs) && IsMerge(ascending, runs, out)
    ensures forall e :: e in out ==> e.key != EOF
  {
    forall e | e in out ensures e.key != EOF {
      var i :| Supplies(runs, i, e);
      assert IsRun(ascending, runs[i]);
    }
  }

  /** What a drained merge is, with the runs that lie past the seek. */
  lemma SeekMerge(mc: MultiCursor, seek: int)
    requires mc.Valid()
    ensures var merged := Merge(mc.Ascending(), SeekRuns(mc.cursors, seek));
            && IsUnion(mc.Ascending(), Contents(mc.cursors), seek, merged)
            && forall e :: e in merged ==> e.key != EOF
  {
    var ascending, runs, lists := mc.Ascending(), SeekRuns(mc.cursors, seek), Contents(mc.cursors);
    forall i | 0 <= i < |lists| ensures IsRun(ascending, lists[i]) && IsRun(ascending, runs[i]) {
      assert mc.cursors[i].Valid() && mc.cursors[i].ascending == ascending;
      SuffixIsRun(ascending, lists[i], seek);
    }
    MergeExact(ascending, runs);
    MergeIsUnion(ascending, lists, runs, seek, Merge(ascending, runs));
    MergedKeys(ascending, runs, Merge(ascending, runs));
  }

  /**
   A seek followed by reads until EOF returns the union of the cursors from the
   seek on; nothing is pending then, so every later read returns EOF again.
   */
  method Drain(mc: MultiCursor, seek: int) returns (out: seq<Entry>)
    requires mc.Valid()
    modifies mc, mc.cursors
    ensures mc.Valid() && mc.Pending() == []
    ensures IsUnion(mc.Ascending(), Contents(mc.cursors), seek, out)
  {
    hide *;
    ghost var merged := Merge(mc.Ascending(), SeekRuns(mc.cursors, seek));
    SeekMerge(mc, seek);
    var key, value := mc.SeekTo(seek);
    out := [];
    ghost var rest := merged;
    while key != EOF
      invariant mc.Valid()
      invariant merged == out + rest && Entry(key, value) == Head(rest) && mc.Pending() == Tail(rest)
      decreases |rest|
    {
      assert rest != [] by { HeadOfNothing(rest); }
      out := out + [Entry(key, value)];
      TailShrinks(rest);
      rest := Tail(rest);
      key, value := mc.Pop();
    }
    HeadOfNothing(rest);
    assert out == merged;
  }

  lemma HeadOfNothing(s: seq<Entry>)
    ensures s == [] ==> Head(s).key == EOF && Tail(s) == []
    ensures s != [] ==> Head(s) in s
  {
  }

  lemma TailShrinks(s: seq<Entry>)
    requires s != []
    ensures s == [Head(s)] + Tail(s)
  {
  }
}
