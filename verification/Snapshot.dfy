/** Incremental snapshots (snapshot/snapshot.go): manifests, and a reader that interleaves several archives. */
module Snapshot {
  import opened Values
  import opened Strings
  import opened Sequences

  datatype File = File(name: string, size: int, modTime: int)

  predicate UniqueNames(s: seq<File>) {
    forall i, j :: 0 <= i < j < |s| ==> s[i].name != s[j].name
  }

  /** In strict order of name. */
  predicate Sorted(s: seq<File>) {
    forall i, j :: 0 <= i < j < |s| ==> Less(s[i].name, s[j].name)
  }

  lemma UniqueByName(s: seq<File>, f: File, g: File)
    requires UniqueNames(s) && f in s && g in s && f.name == g.name
    ensures f == g
  {
    var i :| 0 <= i < |s| && s[i] == f;
    var j :| 0 <= j < |s| && s[j] == g;
  }

  lemma SortedIsUnique(s: seq<File>)
    requires Sorted(s)
    ensures UniqueNames(s)
  {
    forall i, j | 0 <= i < j < |s| ensures s[i].name != s[j].name {
      LessIsStrict(s[i].name);
    }
  }

  lemma HasHead(s: seq<File>)
    ensures s != [] ==> s[0] in s
  {
  }

  /** A sorted list is known by its members. */
  lemma {:induction false} SortedSame(a: seq<File>, b: seq<File>)
    requires Sorted(a) && Sorted(b) && forall f :: f in a <==> f in b
    ensures a == b
    decreases |a|
  {
    HasHead(a);
    HasHead(b);
    if a != [] {
      HeadsEqual(a, b);
      assert Sorted(a[1..]) && Sorted(b[1..]);
      forall f ensures f in a[1..] <==> f in b[1..] {
        InTail(a, f);
        InTail(b, f);
      }
      SortedSame(a[1..], b[1..]);
      assert a == [a[0]] + a[1..] && b == [b[0]] + b[1..];
    }
  }

  lemma InTail(s: seq<File>, f: File)
    requires Sorted(s) && s != []
    ensures f in s[1..] <==> f in s && f != s[0]
  {
    LessIsStrict(s[0].name);
    assert forall i :: 0 < i < |s| ==> Less(s[0].name, s[i].name);
    if f in s && f != s[0] {
      var i :| 0 <= i < |s| && s[i] == f;
      assert s[1..][i - 1] == f;
    }
  }

  lemma HeadsEqual(a: seq<File>, b: seq<File>)
    requires Sorted(a) && Sorted(b) && a != [] && b != [] && a[0] in b && b[0] in a
    ensures a[0] == b[0]
  {
    var i :| 0 <= i < |b| && b[i] == a[0];
    var j :| 0 <= j < |a| && a[j] == b[0];
    if i > 0 && j > 0 {
      assert Less(b[0].name, b[i].name) && Less(a[0].name, a[j].name);
      LessIsTransitive(a[0].name, b[0].name, a[0].name);
      LessIsStrict(a[0].name);
    }
  }

  // ----- Sorting -----

  predicate ByName(a: File, b: File) {
    Less(a.name, b.name)
  }

  lemma ByNameIsOrder()
    ensures StrictOrder(ByName)
  {
    hide Less;
    forall x, y | ByName(x, y) ensures !ByName(y, x) {
      if ByName(y, x) {
        LessIsTransitive(x.name, y.name, x.name);
        LessIsStrict(x.name);
      }
    }
    forall x, y, z | !ByName(y, x) && !ByName(z, y) ensures !ByName(z, x) {
      NotLessTrans(x.name, y.name, z.name);
    }
  }

  /** The files in order of name. */
  method SortFiles(s: seq<File>) returns (r: seq<File>)
    requires UniqueNames(s)
    ensures Sorted(r) && forall f :: f in r <==> f in s
  {
    hide Less;
    ByNameIsOrder();
    r := Sort(s, ByName);
    DistinctPermuted(s, r);
    SameElements(r, s);
    forall i, j | 0 <= i < j < |r| ensures Less(r[i].name, r[j].name) {
      assert r[i] in s && r[j] in s;
      if r[i].name == r[j].name {
        UniqueByName(s, r[i], r[j]);
      }
      LessIsTotal(r[i].name, r[j].name);
    }
  }

  // ----- Diff and Merge -----

  /** `g` is no older a version of the same file. */
  predicate Supersedes(g: File, f: File) {
    g.name == f.name && g.modTime >= f.modTime
  }

  predicate Outdates(g: File, f: File) {
    g.name == f.name && g.modTime > f.modTime
  }

  ghost predicate InDiff(a: seq<File>, b: seq<File>, f: File) {
    f in a && forall g :: g in b ==> !Supersedes(g, f)
  }

  /** The files of `a` that are newer than in `b`, or not in `b`. */
  ghost predicate IsDiff(a: seq<File>, b: seq<File>, r: seq<File>) {
    Sorted(r) && forall f :: f in r <==> InDiff(a, b, f)
  }

  ghost predicate InMerge(a: seq<File>, b: seq<File>, f: File) {
    (f in a && forall g :: g in b ==> !Outdates(g, f)) || InDiff(b, a, f)
  }

  /** The newest version of every file; of two versions of one age, that of `a`. */
  ghost predicate IsMerge(a: seq<File>, b: seq<File>, r: seq<File>) {
    Sorted(r) && forall f :: f in r <==> InMerge(a, b, f)
  }

  /** `Diff`. */
  method Diff(m: seq<File>, other: seq<File>) returns (diff: seq<File>)
    requires UniqueNames(m) && UniqueNames(other)
    ensures IsDiff(m, other, diff)
  {
    var files: seq<File> := [];
    for i := 0 to |m|
      invariant UniqueNames(files) && forall f :: f in files <==> InDiff(m[..i], other, f)
    {
      var a := m[i];
      assert m[..i + 1] == m[..i] + [a];
      var newer := IsNewer(a, other);
      if !newer {
        continue;
      }
      forall f | f in files ensures f.name != a.name {
        assert f in m[..i];
      }
      files := files + [a];
    }
    assert m[..|m|] == m;
    diff := SortFiles(files);
  }

  /** The inner loop of `Diff`. */
  method IsNewer(a: File, other: seq<File>) returns (newer: bool)
    requires UniqueNames(other)
    ensures newer <==> forall g :: g in other ==> !Supersedes(g, a)
  {
    for j := 0 to |other|
      invariant forall k :: 0 <= k < j ==> other[k].name != a.name
    {
      var b := other[j];
      if a.name != b.name {
        continue;
      } else if a.modTime <= b.modTime {
        assert b in other && Supersedes(b, a);
        return false;
      } else {
        forall g | g in other ensures !Supersedes(g, a) {
          if g.name == a.name {
            UniqueByName(other, g, b);
          }
        }
        return true;
      }
    }
    return true;
  }

  method IndexOf(files: seq<File>, name: string) returns (i: nat)
    ensures i <= |files| && (forall k :: 0 <= k < i ==> files[k].name != name) && (i < |files| ==> files[i].name == name)
  {
    i := 0;
    while i < |files| && files[i].name != name
      invariant i <= |files| && forall k :: 0 <= k < i ==> files[k].name != name
    {
      i := i + 1;
    }
  }

  /** `Merge`. */
  method Merge(m: seq<File>, other: seq<File>) returns (r: seq<File>)
    requires UniqueNames(m) && UniqueNames(other)
    ensures IsMerge(m, other, r)
  {
    var files := m;
    for k := 0 to |other|
      invariant UniqueNames(files) && forall f :: f in files <==> InMerge(m, other[..k], f)
    {
      var a := other[k];
      assert other[..k + 1] == other[..k] + [a];
      var i := IndexOf(files, a.name);
      MergeStep(m, other[..k], a, files, i);
      if i < |files| {
        if a.modTime > files[i].modTime {
          files := files[i := a];
        }
        continue;
      }
      files := files + [a];
    }
    assert other[..|other|] == other;
    r := SortFiles(files);
  }

  lemma MergeStep(m: seq<File>, done: seq<File>, a: File, files: seq<File>, i: nat)
    requires UniqueNames(m) && UniqueNames(done + [a]) && UniqueNames(files) && forall f :: f in files <==> InMerge(m, done, f)
    requires i <= |files| && (forall k :: 0 <= k < i ==> files[k].name != a.name) && (i < |files| ==> files[i].name == a.name)
    ensures var files' := if i == |files| then files + [a] else if a.modTime > files[i].modTime then files[i := a] else files;
      UniqueNames(files') && forall f :: f in files' <==> InMerge(m, done + [a], f)
  {
    var files' := if i == |files| then files + [a] else if a.modTime > files[i].modTime then files[i := a] else files;
    forall f ensures f in files' <==> InMerge(m, done + [a], f) {
      if f.name != a.name {
        OtherNames(m, done, a, f);
        OtherMembers(files, i, a, f);
      } else {
        SameName(m, done, a, files, i, f);
      }
    }
  }

  /** Another file's merge does not depend on this one. */
  lemma OtherNames(m: seq<File>, done: seq<File>, a: File, f: File)
    requires f.name != a.name
    ensures InMerge(m, done + [a], f) <==> InMerge(m, done, f)
  {
    assert forall g :: g in done + [a] <==> g in done || g == a;
  }

  lemma OtherMembers(files: seq<File>, i: nat, a: File, f: File)
    requires f.name != a.name && i <= |files| && (i < |files| ==> files[i].name == a.name)
    ensures i < |files| ==> (f in files[i := a] <==> f in files)
    ensures f in files + [a] <==> f in files
  {
    if i < |files| {
      var files' := files[i := a];
      if f in files {
        var k :| 0 <= k < |files| && files[k] == f;
        assert files'[k] == f;
      }
      if f in files' {
        var k :| 0 <= k < |files'| && files'[k] == f;
        assert files[k] == f;
      }
    }
  }

  lemma SameName(m: seq<File>, done: seq<File>, a: File, files: seq<File>, i: nat, f: File)
    requires UniqueNames(m) && UniqueNames(done + [a]) && UniqueNames(files) && forall g :: g in files <==> InMerge(m, done, g)
    requires i <= |files| && (forall k :: 0 <= k < i ==> files[k].name != a.name) && (i < |files| ==> files[i].name == a.name)
    requires f.name == a.name
    ensures var files' := if i == |files| then files + [a] else if a.modTime > files[i].modTime then files[i := a] else files;
      f in files' <==> InMerge(m, done + [a], f)
  {
    NotDone(done, a);
    assert forall g :: g in done + [a] <==> g in done || g == a;
    assert InMerge(m, done, f) <==> f in m;
    if i == |files| {
      assert f !in files;
      forall g | g in m ensures g.name != a.name {
        assert g.name == a.name ==> InMerge(m, done, g);
      }
    } else {
      assert files[i] in files && InMerge(m, done, files[i]);
      var was := files[i];
      assert was in m;
      forall g | g in m && g.name == a.name ensures g == was {
        UniqueByName(m, g, was);
      }
      if f in files {
        UniqueByName(files, f, was);
      }
      Replaced(files, i, a, f);
    }
  }

  lemma NotDone(done: seq<File>, a: File)
    requires UniqueNames(done + [a])
    ensures forall g :: g in done ==> g.name != a.name
  {
    forall g | g in done ensures g.name != a.name {
      var k :| 0 <= k < |done| && done[k] == g;
      assert (done + [a])[k] == g && (done + [a])[|done|] == a;
    }
  }

  lemma Replaced(files: seq<File>, i: nat, a: File, f: File)
    requires UniqueNames(files) && i < |files| && files[i].name == a.name && f.name == a.name
    ensures f in files[i := a] <==> f == a
  {
    var files' := files[i := a];
    assert files'[i] == a;
    if f in files' {
      var k :| 0 <= k < |files'| && files'[k] == f;
      assert k != i ==> files[k] == f && files[k].name == files[i].name;
    }
  }

  /** Merging a base with what is new in a later manifest is merging the two. */
  lemma DiffThenMerge(base: seq<File>, newer: seq<File>, d: seq<File>, r: seq<File>, r': seq<File>)
    requires UniqueNames(base) && IsDiff(newer, base, d) && IsMerge(base, d, r) && IsMerge(base, newer, r')
    ensures r == r'
  {
    forall f ensures InMerge(base, d, f) <==> InMerge(base, newer, f) {
      forall g | g in newer && f in base && Outdates(g, f) ensures g in d {
        forall h | h in base ensures !Supersedes(h, g) {
          if h.name == f.name {
            UniqueByName(base, h, f);
          }
        }
        assert InDiff(newer, base, g);
      }
    }
    SortedSame(r, r');
  }

  // ----- The manifest of several archives -----

  /** `f`, of archive `i`, is the newest version of its file; of equally new ones, the first archive's. */
  ghost predicate NewestAt(ms: seq<seq<File>>, i: nat, f: File) {
    && i < |ms| && f in ms[i]
    && forall j, g :: 0 <= j < |ms| && g in ms[j] && g.name == f.name ==> g.modTime <= f.modTime && (j < i ==> g.modTime < f.modTime)
  }

  ghost predicate Newest(ms: seq<seq<File>>, f: File) {
    exists i :: NewestAt(ms, i, f)
  }

  ghost predicate Covered(s: seq<File>, g: File) {
    exists h :: h in s && Supersedes(h, g)
  }

  /** `s` has, in order of name, the newest version of every file. */
  ghost predicate Combines(ms: seq<seq<File>>, s: seq<File>) {
    && Sorted(s)
    && (forall f :: f in s ==> Newest(ms, f))
    && forall j, g :: 0 <= j < |ms| && g in ms[j] ==> Covered(s, g)
  }

  lemma NewestUnique(ms: seq<seq<File>>, f: File, g: File)
    requires (forall i :: 0 <= i < |ms| ==> UniqueNames(ms[i])) && Newest(ms, f) && Newest(ms, g) && f.name == g.name
    ensures f == g
  {
    var i: nat :| NewestAt(ms, i, f);
    var j: nat :| NewestAt(ms, j, g);
    if i == j {
      UniqueByName(ms[i], f, g);
    }
  }

  /** The combined manifest has exactly the newest versions. */
  lemma CombinesExactly(ms: seq<seq<File>>, s: seq<File>, f: File)
    requires (forall i :: 0 <= i < |ms| ==> UniqueNames(ms[i])) && Combines(ms, s)
    ensures f in s <==> Newest(ms, f)
  {
    if Newest(ms, f) {
      var i: nat :| NewestAt(ms, i, f);
      assert Covered(s, f);
      var h :| h in s && Supersedes(h, f);
      NewestUnique(ms, f, h);
    }
  }

  lemma CombineStep(ms: seq<seq<File>>, s: seq<File>, m: seq<File>, r: seq<File>)
    requires Combines(ms, s) && UniqueNames(m) && IsMerge(s, m, r)
    ensures Combines(ms + [m], r)
  {
    SortedIsUnique(s);
    forall f | f in r ensures Newest(ms + [m], f) {
      assert InMerge(s, m, f);
      if InDiff(m, s, f) {
        AddedNewest(ms, s, m, f);
      } else {
        KeptNewest(ms, m, f);
      }
    }
    forall j, g | 0 <= j < |ms + [m]| && g in (ms + [m])[j] ensures Covered(r, g) {
      if j < |ms| {
        assert Covered(s, g);
        var h :| h in s && Supersedes(h, g);
        StaysCovered(s, m, r, h);
      } else if InDiff(m, s, g) {
        assert InMerge(s, m, g);
      } else {
        var h :| h in s && Supersedes(h, g);
        StaysCovered(s, m, r, h);
      }
    }
  }

  lemma KeptNewest(ms: seq<seq<File>>, m: seq<File>, f: File)
    requires Newest(ms, f) && forall g :: g in m ==> !Outdates(g, f)
    ensures Newest(ms + [m], f)
  {
    var i: nat :| NewestAt(ms, i, f);
    assert NewestAt(ms + [m], i, f);
  }

  lemma AddedNewest(ms: seq<seq<File>>, s: seq<File>, m: seq<File>, f: File)
    requires Combines(ms, s) && UniqueNames(m) && InDiff(m, s, f)
    ensures Newest(ms + [m], f)
  {
    var all: seq<seq<File>> := ms + [m];
    forall j, g | 0 <= j < |all| && g in all[j] && g.name == f.name
      ensures g.modTime <= f.modTime && (j < |ms| ==> g.modTime < f.modTime)
    {
      if j < |ms| {
        assert Covered(s, g);
        var h :| h in s && Supersedes(h, g);
        assert !Supersedes(h, f);
      } else {
        UniqueByName(m, f, g);
      }
    }
    assert NewestAt(all, |ms|, f);
  }

  /** What one side has is in the merge, or a newer version is. */
  lemma StaysCovered(s: seq<File>, m: seq<File>, r: seq<File>, h: File)
    requires UniqueNames(s) && IsMerge(s, m, r) && h in s
    ensures exists x :: x in r && Supersedes(x, h)
  {
    if forall g :: g in m ==> !Outdates(g, h) {
      assert InMerge(s, m, h);
      assert h in r && Supersedes(h, h);
    } else {
      var g :| g in m && Outdates(g, h);
      forall x | x in s ensures !Supersedes(x, g) {
        if x.name == h.name {
          UniqueByName(s, x, h);
        }
      }
      assert InMerge(s, m, g);
      assert g in r && Supersedes(g, h);
    }
  }

  // ----- The interleaving, on values -----

  ghost predicate Given(s: seq<File>, k: nat, name: string)
    requires k <= |s|
  {
    exists j :: 0 <= j < k && s[j].name == name
  }

  /** What one archive has given, and what is pending, when the files before the first `k` of the manifest are done. */
  ghost predicate Split(list: seq<File>, pending: seq<File>, s: seq<File>, k: nat)
    requires k <= |s|
  {
    && |pending| <= |list| && pending == list[|list| - |pending|..]
    && (forall f :: f in list[..|list| - |pending|] ==> Given(s, k, f.name))
    && forall f, j :: f in pending && 0 <= j < k ==> Less(s[j].name, f.name)
  }

  /** A pending file is not before the next file of the manifest. */
  lemma NotBefore(lists: seq<seq<File>>, s: seq<File>, k: nat, i: nat, pending: seq<File>, f: File)
    requires Combines(lists, s) && k < |s| && i < |lists| && Split(lists[i], pending, s, k) && f in pending
    ensures !Less(f.name, s[k].name)
  {
    assert f in lists[i];
    assert Covered(s, f);
    var h :| h in s && Supersedes(h, f);
    var j :| 0 <= j < |s| && s[j] == h;
    LessIsStrict(f.name);
    assert j >= k;
    if Less(f.name, s[k].name) && j > k {
      LessIsTransitive(f.name, s[k].name, f.name);
    }
  }

  /** Taking the next file off an archive, if it is at hand there. */
  function Advance(pending: seq<File>, name: string): seq<File> {
    if pending != [] && pending[0].name == name then pending[1..] else pending
  }

  lemma SplitNext(lists: seq<seq<File>>, s: seq<File>, k: nat, i: nat, pending: seq<File>)
    requires Combines(lists, s) && k < |s| && i < |lists| && Sorted(lists[i]) && Split(lists[i], pending, s, k)
    ensures Split(lists[i], Advance(pending, s[k].name), s, k + 1)
  {
    var list, after := lists[i], Advance(pending, s[k].name);
    var n, n' := |list| - |pending|, |list| - |after|;
    hide Less;
    assert after == list[n'..];
    forall f | f in list[..n'] ensures Given(s, k + 1, f.name) {
      if f in list[..n] {
        assert Given(s, k, f.name);
        var j :| 0 <= j < k && s[j].name == f.name;
      } else {
        assert list[..n'] == list[..n] + [list[n]];
        assert s[k].name == f.name;
      }
    }
    forall f, j | f in after && 0 <= j < k + 1 ensures Less(s[j].name, f.name) {
      assert f in pending;
      if j == k {
        LaterThan(lists, s, k, i, pending, f);
      }
    }
  }

  lemma LaterThan(lists: seq<seq<File>>, s: seq<File>, k: nat, i: nat, pending: seq<File>, f: File)
    requires Combines(lists, s) && k < |s| && i < |lists| && Sorted(lists[i]) && Split(lists[i], pending, s, k)
    requires f in Advance(pending, s[k].name)
    ensures Less(s[k].name, f.name)
  {
    var list := lists[i];
    var n := |list| - |pending|;
    hide Less;
    assert pending[0] in pending;
    NotBefore(lists, s, k, i, pending, pending[0]);
    var x :| 0 <= x < |pending| && pending[x] == f && (x > 0 || pending[0].name != s[k].name);
    LessIsTotal(pending[0].name, s[k].name);
    if x > 0 {
      assert list[n] == pending[0] && list[n + x] == f;
      assert Less(pending[0].name, f.name);
      LessAfter(s[k].name, pending[0].name, f.name);
    }
  }

  /** The next file of the manifest is at hand in an archive that has this version. */
  lemma AtHand(lists: seq<seq<File>>, s: seq<File>, k: nat, pending: seq<seq<File>>) returns (i: nat)
    requires (forall j :: 0 <= j < |lists| ==> Sorted(lists[j])) && Combines(lists, s) && k < |s| && |pending| == |lists|
    requires forall j :: 0 <= j < |lists| ==> Split(lists[j], pending[j], s, k)
    ensures i < |lists| && pending[i] != [] && pending[i][0] == s[k] && NewestAt(lists, i, s[k])
  {
    assert s[k] in s;
    i :| NewestAt(lists, i, s[k]);
    var list, p := lists[i], pending[i];
    var n := |list| - |p|;
    StillPending(list, p, s, k);
    hide Less, NewestAt, Split, Combines;
    var x :| 0 <= x < |p| && p[x] == s[k];
    assert p[0] in p;
    NotBefore(lists, s, k, i, p, p[0]);
    FirstOne(list, n, x);
  }

  lemma StillPending(list: seq<File>, p: seq<File>, s: seq<File>, k: nat)
    requires Sorted(s) && k < |s| && Split(list, p, s, k) && s[k] in list
    ensures s[k] in p && |p| <= |list|
    ensures forall x :: 0 <= x < |p| ==> list[|list| - |p| + x] == p[x]
  {
    hide Less;
    var n := |list| - |p|;
    forall f | f in list[..n] ensures f != s[k] {
      assert Given(s, k, f.name);
      var j :| 0 <= j < k && s[j].name == f.name;
      LessIsStrict(s[k].name);
      assert Less(s[j].name, s[k].name);
    }
    assert list == list[..n] + p;
  }

  lemma FirstOne(list: seq<File>, n: nat, x: nat)
    requires Sorted(list) && n + x < |list| && !Less(list[n].name, list[n + x].name)
    ensures x == 0
  {
  }

  // ----- Archives and their readers -----

  function IndexAt(files: seq<File>, name: string): (i: nat)
    ensures i <= |files| && (forall k :: 0 <= k < i ==> files[k].name != name) && (i < |files| ==> files[i].name == name)
  {
    if files == [] || files[0].name == name then 0 else 1 + IndexAt(files[1..], name)
  }

  /** An archive lists entries in order of name, and just those its manifest has. */
  predicate Matches(manifest: seq<File>, entries: seq<string>) {
    && UniqueNames(manifest)
    && (forall i, j :: 0 <= i < j < |entries| ==> Less(entries[i], entries[j]))
    && (forall i :: 0 <= i < |entries| ==> IndexAt(manifest, entries[i]) < |manifest|)
    && forall f :: f in manifest ==> f.name in entries
  }

  /** The files of an archive in the order of its entries. */
  function Listing(manifest: seq<File>, entries: seq<string>): (r: seq<File>)
    requires Matches(manifest, entries)
    ensures |r| == |entries|
  {
    seq(|entries|, i requires 0 <= i < |entries| => manifest[IndexAt(manifest, entries[i])])
  }

  lemma ListingIs(manifest: seq<File>, entries: seq<string>)
    requires Matches(manifest, entries)
    ensures Sorted(Listing(manifest, entries))
    ensures forall f :: f in Listing(manifest, entries) <==> f in manifest
  {
    var r := Listing(manifest, entries);
    forall f | f in manifest ensures f in r {
      var i :| 0 <= i < |entries| && entries[i] == f.name;
      UniqueByName(manifest, f, manifest[IndexAt(manifest, entries[i])]);
      assert r[i] == f;
    }
  }

  datatype ReadResult = Entry(file: File) | Eof | NotInManifest(name: string)

  class Reader {
    const manifest: seq<File>
    const entries: seq<string>
    var pos: nat

    constructor (manifest: seq<File>, entries: seq<string>)
      ensures this.manifest == manifest && this.entries == entries && pos == 0
    {
      this.manifest, this.entries, pos := manifest, entries, 0;
    }

    /** `Reader.Next`: the file of the next entry. */
    method Next() returns (r: ReadResult)
      requires pos <= |entries|
      modifies this
      ensures pos == if old(pos) < |entries| then old(pos) + 1 else old(pos)
      ensures r.Eof? <==> old(pos) == |entries|
      ensures r.NotInManifest? <==> old(pos) < |entries| && IndexAt(manifest, entries[old(pos)]) == |manifest|
      ensures r.Entry? ==> r.file == manifest[IndexAt(manifest, entries[old(pos)])]
    {
      if pos == |entries| {
        return Eof;
      }
      var name := entries[pos];
      pos := pos + 1;
      var i := IndexOf(manifest, name);
      FirstIndex(manifest, name, i);
      if i < |manifest| {
        return Entry(manifest[i]);
      }
      return NotInManifest(name);
    }
  }

  lemma FirstIndex(files: seq<File>, name: string, i: nat)
    requires i <= |files| && (forall k :: 0 <= k < i ==> files[k].name != name) && (i < |files| ==> files[i].name == name)
    ensures IndexAt(files, name) == i
  {
  }

  /** The loop of `MultiReader.Next` over the files at hand: the first reader with the file, and every version of it put aside. */
  method PickReader(files: seq<Option<File>>, sf: File) returns (files': seq<Option<File>>, at: Option<nat>)
    ensures |files'| == |files|
    ensures forall i :: 0 <= i < |files| ==> files'[i] == if files[i].Some? && files[i].value.name == sf.name then None else files[i]
    ensures at.Some? ==> at.value < |files| && files[at.value] == Some(sf) && forall i :: 0 <= i < at.value ==> files[i] != Some(sf)
    ensures at.None? ==> forall i :: 0 <= i < |files| ==> files[i] != Some(sf)
  {
    files', at := files, None;
    for i := 0 to |files|
      invariant |files'| == |files|
      invariant forall k :: 0 <= k < i ==> files'[k] == if files[k].Some? && files[k].value.name == sf.name then None else files[k]
      invariant forall k :: i <= k < |files| ==> files'[k] == files[k]
      invariant at.Some? ==> at.value < i && files[at.value] == Some(sf) && forall k :: 0 <= k < at.value ==> files[k] != Some(sf)
      invariant at.None? ==> forall k :: 0 <= k < i ==> files[k] != Some(sf)
    {
      var f := files[i];
      if f.None? || f.value.name != sf.name {
        continue;
      }
      if at.None? && f.value == sf {
        at := Some(i);
      }
      files' := files'[i := None];
    }
  }

  /** What a reader has yet to give: the file at hand, and the entries not yet read. */
  function Pending(atHand: Option<File>, listing: seq<File>, pos: nat): seq<File> {
    (if atHand.Some? then [atHand.value] else []) + (if pos <= |listing| then listing[pos..] else [])
  }

  lemma Cleared(atHand: Option<File>, listing: seq<File>, pos: nat, name: string)
    requires atHand.Some? <==> Pending(atHand, listing, pos) != []
    ensures Pending(if atHand.Some? && atHand.value.name == name then None else atHand, listing, pos)
         == Advance(Pending(atHand, listing, pos), name)
  {
  }

  /** How far the merge has come: the first `k` files of `s` are done, and each archive is just past them. */
  ghost predicate Interleaved(lists: seq<seq<File>>, pending: seq<seq<File>>, s: seq<File>, k: nat) {
    k <= |s| && |pending| == |lists| && forall i :: 0 <= i < |lists| ==> Split(lists[i], pending[i], s, k)
  }

  ghost predicate AllSorted(lists: seq<seq<File>>) {
    forall i :: 0 <= i < |lists| ==> Sorted(lists[i])
  }

  lemma InterleavedNext(lists: seq<seq<File>>, pending: seq<seq<File>>, s: seq<File>, k: nat, after: seq<seq<File>>)
    requires AllSorted(lists) && Combines(lists, s) && Interleaved(lists, pending, s, k) && k < |s|
    requires |after| == |pending| && forall i :: 0 <= i < |after| ==> after[i] == Advance(pending[i], s[k].name)
    ensures Interleaved(lists, after, s, k + 1)
  {
    hide Split, Combines, Sorted, Advance;
    forall i | 0 <= i < |lists| ensures Split(lists[i], after[i], s, k + 1) {
      SplitNext(lists, s, k, i, pending[i]);
    }
  }

  lemma InterleavedAtHand(lists: seq<seq<File>>, pending: seq<seq<File>>, s: seq<File>, k: nat) returns (i: nat)
    requires AllSorted(lists) && Combines(lists, s) && Interleaved(lists, pending, s, k) && k < |s|
    ensures i < |pending| && pending[i] != [] && pending[i][0] == s[k]
  {
    hide Split, Combines, Sorted;
    i := AtHand(lists, s, k, pending);
  }

  lemma InterleavedHead(lists: seq<seq<File>>, pending: seq<seq<File>>, s: seq<File>, k: nat, i: nat)
    requires Interleaved(lists, pending, s, k) && i < |pending| && pending[i] != []
    ensures pending[i][0] in lists[i]
  {
    assert Split(lists[i], pending[i], s, k);
    assert pending[i][0] in pending[i];
  }

  lemma InterleavedStart(lists: seq<seq<File>>, s: seq<File>)
    ensures Interleaved(lists, lists, s, 0)
  {
  }

  class MultiReader {
    const readers: seq<Reader>
    ghost const lists: seq<seq<File>>
    var files: seq<Option<File>>
    var manifest: Option<seq<File>>
    var index: int
    var curr: Option<Reader>
    ghost var pending: seq<seq<File>>

    constructor (readers: seq<Reader>)
      requires forall i, j :: 0 <= i < j < |readers| ==> readers[i] != readers[j]
      requires forall i :: 0 <= i < |readers| ==> Matches(readers[i].manifest, readers[i].entries) && readers[i].pos == 0
      ensures Valid() && this.readers == readers && index == -1 && manifest.None?
    {
      this.readers := readers;
      files, manifest, index, curr := seq(|readers|, i => None), None, -1, None;
      lists := seq(|readers|, i requires 0 <= i < |readers| && Matches(readers[i].manifest, readers[i].entries)
                              => Listing(readers[i].manifest, readers[i].entries));
      pending := lists;
      new;
      hide Matches, Listing, Interleaved;
      InterleavedStart(lists, []);
    }

    /** Different readers, each of an archive that matches its manifest. */
    ghost predicate Archives() {
      && |lists| == |readers|
      && (forall i, j :: 0 <= i < j < |readers| ==> readers[i] != readers[j])
      && forall i :: 0 <= i < |readers| ==>
           Matches(readers[i].manifest, readers[i].entries) && lists[i] == Listing(readers[i].manifest, readers[i].entries)
    }

    /** `pending` is what each reader has yet to give. */
    ghost predicate Holding()
      reads this, readers
    {
      && Archives() && |files| == |readers| == |pending|
      && forall i :: 0 <= i < |readers| ==>
           readers[i].pos <= |readers[i].entries| && pending[i] == Pending(files[i], lists[i], readers[i].pos)
    }

    /** The files handed out so far are the first ones of the manifest, and the readers are just past them. */
    ghost predicate Valid()
      reads this, readers
    {
      && Holding() && index >= -1
      && (manifest.None? ==> index == -1 && Interleaved(lists, pending, [], 0))
      && (manifest.Some? ==> Combines(lists, manifest.value) && Interleaved(lists, pending, manifest.value, index + 1))
    }

    ghost predicate Primed()
      reads this
    {
      |files| == |pending| && forall k :: 0 <= k < |files| ==> (files[k].Some? <==> pending[k] != [])
    }

    /** `MultiReader.Manifest`: the merge of the readers' manifests, worked out once. */
    method Manifest() returns (ss: seq<File>)
      requires Valid()
      modifies this`manifest
      ensures Valid() && manifest == Some(ss) && (old(manifest).Some? ==> manifest == old(manifest))
    {
      if manifest.Some? {
        return manifest.value;
      }
      ss := MergeAll();
      hide Combines, Split;
      forall i | 0 <= i < |lists| ensures Split(lists[i], pending[i], ss, 0) {
        SplitStays(lists[i], pending[i], ss);
      }
      manifest := Some(ss);
    }

    method MergeAll() returns (ss: seq<File>)
      requires Archives()
      ensures Combines(lists, ss)
    {
      ss := [];
      ghost var ms: seq<seq<File>> := [];
      for i := 0 to |readers|
        invariant |ms| == i && Combines(ms, ss) && forall k :: 0 <= k < i ==> ms[k] == readers[k].manifest
      {
        hide Combines;
        var other := readers[i].manifest;
        CombinedIsSorted(ms, ss);
        var merged := Merge(ss, other);
        CombineStep(ms, ss, other, merged);
        ss, ms := merged, ms + [other];
      }
      forall k | 0 <= k < |readers| ensures forall f :: f in lists[k] <==> f in ms[k] {
        ListingIs(readers[k].manifest, readers[k].entries);
      }
      CombinesSame(ms, lists, ss);
    }

    /** One turn of `nextFiles`; an entry its manifest does not have cannot turn up. */
    method Fill(i: nat)
      requires Holding() && i < |readers|
      modifies this`files, readers[i]
      ensures Holding() && (files[i].Some? <==> pending[i] != [])
      ensures forall k :: 0 <= k < |readers| && k != i ==> files[k] == old(files[k])
    {
      if files[i].None? {
        var sf := NextOf(i);
        hide Pending, Matches, Listing;
        if sf.NotInManifest? {
          assert false;
        } else if sf.Entry? {
          files := files[i := Some(sf.file)];
        }
      }
    }

    method NextOf(i: nat) returns (r: ReadResult)
      requires Holding() && i < |readers| && files[i].None?
      modifies readers[i]
      ensures readers[i].pos <= |readers[i].entries| && !r.NotInManifest?
      ensures r.Eof? ==> pending[i] == [] && pending[i] == Pending(None, lists[i], readers[i].pos)
      ensures r.Entry? ==> pending[i] != [] && pending[i] == Pending(Some(r.file), lists[i], readers[i].pos)
    {
      assert Matches(readers[i].manifest, readers[i].entries);
      r := readers[i].Next();
    }

    /** `nextFiles`: every reader with something left has a file at hand. */
    method NextFiles()
      requires Valid()
      modifies this`files, readers
      ensures Valid() && Primed()
    {
      for i := 0 to |readers|
        invariant Holding() && forall k :: 0 <= k < i ==> (files[k].Some? <==> pending[k] != [])
      {
        Fill(i);
        hide Pending, Matches, Listing;
      }
    }

    /**
     `MultiReader.Next` hands out the files of the merged manifest in order, each
     once, and leaves the reader of an archive that has this version current; the
     file is never missing.
     */
    method Next() returns (r: Option<File>)
      requires Valid()
      modifies this, readers
      ensures Valid() && manifest.Some? && (old(manifest).Some? ==> manifest == old(manifest))
      ensures r.None? <==> old(index) + 1 == |manifest.value|
      ensures r.None? ==> index == old(index) && curr.None?
      ensures r.Some? ==> index == old(index) + 1 && r.value == manifest.value[index]
      ensures r.Some? ==> curr.Some? && curr.value in readers && r.value in curr.value.manifest
    {
      var ss := Manifest();
      hide Combines, Split, Matches, Listing, Pending;
      if index == |ss| - 1 {
        curr := None;
        return None;
      }
      var sf := Take(ss);
      return Some(sf);
    }

    /** The file after those handed out, from the first reader that has it at hand. */
    method Take(ss: seq<File>) returns (sf: File)
      requires Valid() && manifest == Some(ss) && index + 1 < |ss|
      modifies this, readers
      ensures Valid() && manifest == Some(ss) && index == old(index) + 1 && sf == ss[index]
      ensures curr.Some? && curr.value in readers && sf in curr.value.manifest
    {
      hide *;
      ghost var i := NextAtHand(ss);
      NextFiles();
      sf := Choose(ss, i);
    }

    lemma NextAtHand(ss: seq<File>) returns (i: nat)
      requires Valid() && manifest == Some(ss) && index + 1 < |ss|
      ensures i < |pending| && pending[i] != [] && pending[i][0] == ss[index + 1]
    {
      hide Archives, Combines, Interleaved, AllSorted, Pending, Less;
      ListsSorted();
      i := InterleavedAtHand(lists, pending, ss, index + 1);
    }

    /** Every reader has its next file at hand, reader `i` the one to hand out. */
    method Choose(ss: seq<File>, ghost i: nat) returns (sf: File)
      requires Valid() && Primed() && manifest == Some(ss) && index + 1 < |ss|
      requires i < |pending| && pending[i] != [] && pending[i][0] == ss[index + 1]
      modifies this
      ensures Valid() && manifest == Some(ss) && index == old(index) + 1 && sf == ss[index]
      ensures curr.Some? && curr.value in readers && sf in curr.value.manifest
    {
      hide *;
      ValidParts(ss);
      HeadAtHand(i);
      sf := ss[index + 1];
      var files', at := PickReader(files, sf);
      if at.None? {
        assert false;
      }
      Chosen(ss, at.value);
      ghost var after := AllCleared(ss, sf.name, files');
      files, pending, index, curr := files', after, index + 1, Some(readers[at.value]);
      StillValid(ss);
    }

    lemma ValidParts(ss: seq<File>)
      requires Valid() && manifest == Some(ss)
      ensures Holding() && Archives() && |files| == |readers| == |pending| == |lists| && Combines(lists, ss) && index >= -1
      ensures forall k :: 0 <= k < |readers| ==> readers[k].pos <= |readers[k].entries|
    {
      hide Matches, Listing, Combines, Interleaved, Pending, Less;
    }

    lemma HeadAtHand(i: nat)
      requires Holding() && Primed() && i < |pending| && pending[i] != []
      ensures files[i] == Some(pending[i][0])
    {
    }

    lemma Chosen(ss: seq<File>, i: nat)
      requires Valid() && Primed() && manifest == Some(ss) && i < |readers| && files[i].Some?
      ensures files[i].value in readers[i].manifest
    {
      hide Archives, Combines, Interleaved, Pending, Less;
      HeadAtHand(i);
      InterleavedHead(lists, pending, ss, index + 1, i);
      InManifest(i, files[i].value);
    }

    lemma ListsSorted()
      requires Archives()
      ensures AllSorted(lists)
    {
      forall i | 0 <= i < |lists| ensures Sorted(lists[i]) {
        ListingIs(readers[i].manifest, readers[i].entries);
      }
    }

    lemma InManifest(i: nat, f: File)
      requires Archives() && i < |readers| && f in lists[i]
      ensures f in readers[i].manifest
    {
      ListingIs(readers[i].manifest, readers[i].entries);
    }

    /** Once the files of one name are put aside, every reader has advanced past it. */
    lemma AllCleared(ss: seq<File>, name: string, files': seq<Option<File>>) returns (after: seq<seq<File>>)
      requires Valid() && Primed() && manifest == Some(ss) && index + 1 < |ss| && name == ss[index + 1].name && |files'| == |files|
      requires forall k :: 0 <= k < |files| ==> files'[k] == if files[k].Some? && files[k].value.name == name then None else files[k]
      ensures |after| == |readers| && forall k :: 0 <= k < |after| ==> after[k] == Pending(files'[k], lists[k], readers[k].pos)
      ensures Interleaved(lists, after, ss, index + 2)
    {
      hide Archives, Combines, Interleaved, AllSorted, Less, Pending, Advance;
      ValidParts(ss);
      ListsSorted();
      var p := pending;
      after := seq(|p|, k requires 0 <= k < |p| => Advance(p[k], name));
      forall k | 0 <= k < |after| ensures after[k] == Pending(files'[k], lists[k], readers[k].pos) {
        Cleared(files[k], lists[k], readers[k].pos, name);
      }
      InterleavedNext(lists, pending, ss, index + 1, after);
    }

    lemma StillValid(ss: seq<File>)
      requires Archives() && |files| == |readers| == |pending| && manifest == Some(ss) && index >= 0
      requires forall k :: 0 <= k < |readers| ==> readers[k].pos <= |readers[k].entries|
      requires forall k :: 0 <= k < |readers| ==> pending[k] == Pending(files[k], lists[k], readers[k].pos)
      requires Combines(lists, ss) && Interleaved(lists, pending, ss, index + 1)
      ensures Valid()
    {
    }
  }

  /** Reading to the end gives exactly the newest version of every file, in order of name. */
  method ReadAll(m: MultiReader) returns (files: seq<File>)
    requires m.Valid() && m.index == -1
    modifies m, m.readers
    ensures Combines(m.lists, files)
  {
    hide Combines, Interleaved, Pending, Less;
    var ss := m.Manifest();
    files := [];
    while true
      invariant m.Valid() && m.manifest == Some(ss) && m.index + 1 <= |ss| && files == ss[..m.index + 1]
      decreases |ss| - m.index
    {
      var r := m.Next();
      if r.None? {
        break;
      }
      files := files + [r.value];
    }
    assert ss[..|ss|] == ss;
  }

  lemma SplitStays(list: seq<File>, pending: seq<File>, s: seq<File>)
    requires Split(list, pending, [], 0)
    ensures Split(list, pending, s, 0)
  {
    forall f: File ensures Given([], 0, f.name) ==> Given(s, 0, f.name) {
      NoneGiven(s, f.name);
    }
  }

  lemma NoneGiven(s: seq<File>, name: string)
    ensures Given([], 0, name) ==> Given(s, 0, name)
  {
  }

  lemma CombinedIsSorted(ms: seq<seq<File>>, s: seq<File>)
    requires Combines(ms, s)
    ensures UniqueNames(s)
  {
    SortedIsUnique(s);
  }

  lemma CombinesSame(ms: seq<seq<File>>, ls: seq<seq<File>>, s: seq<File>)
    requires Combines(ms, s) && |ls| == |ms| && forall k :: 0 <= k < |ms| ==> forall f :: f in ls[k] <==> f in ms[k]
    ensures Combines(ls, s)
  {
    forall f | f in s ensures Newest(ls, f) {
      assert Newest(ms, f);
      var i: nat :| NewestAt(ms, i, f);
      assert NewestAt(ls, i, f);
    }
  }
}
