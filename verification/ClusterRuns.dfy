/** What every run of metadata commands keeps: ids, ownership, order and the time grid. */
module ClusterRuns {
  import opened Values
  import opened TimeGrid
  import opened ClusterData
  import opened Sequences

  // ----- The groups and owners of the whole cluster -----

  function PolicyGroups(ps: seq<RetentionPolicyInfo>): seq<ShardGroupInfo> {
    if ps == [] then [] else ps[0].shardGroups + PolicyGroups(ps[1..])
  }

  function AllGroups(dbs: seq<DatabaseInfo>): seq<ShardGroupInfo> {
    if dbs == [] then [] else PolicyGroups(dbs[0].policies) + AllGroups(dbs[1..])
  }

  function OwnersOf(shards: seq<ShardInfo>): seq<nat> {
    if shards == [] then [] else OwnersOf(shards[..|shards| - 1]) + shards[|shards| - 1].owners
  }

  /** Two groups share neither their id nor a shard id. */
  ghost predicate Unlike(g: ShardGroupInfo, h: ShardGroupInfo) {
    g.id != h.id && forall s, t :: s in g.shards && t in h.shards ==> s.id != t.id
  }

  ghost predicate Pairwise(gs: seq<ShardGroupInfo>) {
    forall m, n :: 0 <= m < n < |gs| ==> Unlike(gs[m], gs[n])
  }

  function NodeIds(nodes: seq<NodeInfo>): set<nat> {
    set n | n in nodes :: n.id
  }

  // ----- The invariant -----

  predicate ShardSound(nodes: set<nat>, maxShard: nat, s: ShardInfo) {
    1 <= s.id <= maxShard && forall o :: o in s.owners ==> o in nodes
  }

  /** Shard ids are distinct, owners are live nodes, and no node is listed twice in the group. */
  predicate GroupSound(nodes: set<nat>, maxGroup: nat, maxShard: nat, g: ShardGroupInfo) {
    && 1 <= g.id <= maxGroup
    && g.shards != []
    && (forall m, n :: 0 <= m < n < |g.shards| ==> g.shards[m].id < g.shards[n].id)
    && (forall s :: s in g.shards ==> ShardSound(nodes, maxShard, s))
    && Distinct(OwnersOf(g.shards))
  }

  predicate PolicySound(p: RetentionPolicyInfo) {
    && p.shardGroupDuration == ShardGroupDuration(p.duration)
    && SortedByStart(p.shardGroups)
    && forall g :: g in p.shardGroups ==> Cell(g.start, g.end)
  }

  ghost predicate PoliciesSound(dbs: seq<DatabaseInfo>) {
    forall at :: IsPlace(dbs, at) ==> PolicySound(PolicyIn(dbs, at))
  }

  predicate NodesSound(nodes: seq<NodeInfo>, max: nat) {
    && (forall m, n :: 0 <= m < n < |nodes| ==> nodes[m].id < nodes[n].id)
    && forall n :: n in nodes ==> 1 <= n.id <= max
  }

  ghost predicate GroupsSound(nodes: set<nat>, maxGroup: nat, maxShard: nat, gs: seq<ShardGroupInfo>) {
    Pairwise(gs) && forall g :: g in gs ==> GroupSound(nodes, maxGroup, maxShard, g)
  }

  ghost predicate Sound(d: Metadata) {
    && NodesSound(d.nodes, d.maxNodeID)
    && GroupsSound(NodeIds(d.nodes), d.maxShardGroupID, d.maxShardID, AllGroups(d.databases))
    && PoliciesSound(d.databases)
  }

  // ----- Flattening -----

  lemma {:induction false} PolicyGroupsSplit(a: seq<RetentionPolicyInfo>, b: seq<RetentionPolicyInfo>)
    ensures PolicyGroups(a + b) == PolicyGroups(a) + PolicyGroups(b)
  {
    if a == [] {
      assert a + b == b;
    } else {
      PolicyGroupsSplit(a[1..], b);
      assert (a + b)[1..] == a[1..] + b && (a + b)[0] == a[0];
      assert PolicyGroups(a + b) == a[0].shardGroups + (PolicyGroups(a[1..]) + PolicyGroups(b));
      Assoc(a[0].shardGroups, PolicyGroups(a[1..]), PolicyGroups(b));
    }
  }

  lemma {:induction false} AllGroupsSplit(a: seq<DatabaseInfo>, b: seq<DatabaseInfo>)
    ensures AllGroups(a + b) == AllGroups(a) + AllGroups(b)
  {
    if a == [] {
      assert a + b == b;
    } else {
      AllGroupsSplit(a[1..], b);
      assert (a + b)[1..] == a[1..] + b && (a + b)[0] == a[0];
      assert AllGroups(a + b) == PolicyGroups(a[0].policies) + (AllGroups(a[1..]) + AllGroups(b));
      Assoc(PolicyGroups(a[0].policies), AllGroups(a[1..]), AllGroups(b));
    }
  }

  /** The groups before, of and after one database. */
  lemma AroundDatabase(dbs: seq<DatabaseInfo>, i: nat, db: DatabaseInfo)
    requires i < |dbs|
    ensures AllGroups(dbs[i := db]) == AllGroups(dbs[..i]) + PolicyGroups(db.policies) + AllGroups(dbs[i + 1..])
  {
    assert dbs[i := db] == dbs[..i] + ([db] + dbs[i + 1..]);
    AllGroupsSplit(dbs[..i], [db] + dbs[i + 1..]);
    assert ([db] + dbs[i + 1..])[1..] == dbs[i + 1..];
  }

  lemma AroundPolicy(ps: seq<RetentionPolicyInfo>, j: nat, p: RetentionPolicyInfo)
    requires j < |ps|
    ensures PolicyGroups(ps[j := p]) == PolicyGroups(ps[..j]) + p.shardGroups + PolicyGroups(ps[j + 1..])
  {
    assert ps[j := p] == ps[..j] + ([p] + ps[j + 1..]);
    PolicyGroupsSplit(ps[..j], [p] + ps[j + 1..]);
    assert ([p] + ps[j + 1..])[1..] == ps[j + 1..];
  }

  /** Replacing the groups of one policy replaces just those in the whole. */
  lemma GroupsReplaced(d: Metadata, at: Place, gs: seq<ShardGroupInfo>) returns (a: seq<ShardGroupInfo>, b: seq<ShardGroupInfo>)
    requires IsPlace(d.databases, at)
    ensures AllGroups(d.databases) == a + PolicyIn(d.databases, at).shardGroups + b
    ensures AllGroups(WithGroups(d, at, gs).databases) == a + gs + b
    ensures |a| == GroupsBefore(d.databases, at)
  {
    hide AllGroups, PolicyGroups;
    var dbs := d.databases;
    var db := dbs[at.i];
    var ps := db.policies;
    var p := ps[at.j].(shardGroups := gs);
    AroundDatabase(dbs, at.i, db);
    AroundDatabase(dbs, at.i, db.(policies := ps[at.j := p]));
    AroundPolicy(ps, at.j, ps[at.j]);
    AroundPolicy(ps, at.j, p);
    assert dbs[at.i := db] == dbs && ps[at.j := ps[at.j]] == ps;
    a := AllGroups(dbs[..at.i]) + PolicyGroups(ps[..at.j]);
    b := PolicyGroups(ps[at.j + 1..]) + AllGroups(dbs[at.i + 1..]);
    Regroup(AllGroups(dbs[..at.i]), PolicyGroups(ps[..at.j]), ps[at.j].shardGroups, PolicyGroups(ps[at.j + 1..]), AllGroups(dbs[at.i + 1..]));
    Regroup(AllGroups(dbs[..at.i]), PolicyGroups(ps[..at.j]), gs, PolicyGroups(ps[at.j + 1..]), AllGroups(dbs[at.i + 1..]));
  }

  // ----- Uniqueness survives permutation, removal and fresh additions -----

  /** Any selection from a pairwise unlike list, in any order, is pairwise unlike. */
  lemma PairwiseWithin(a: seq<ShardGroupInfo>, b: seq<ShardGroupInfo>)
    requires Pairwise(b) && multiset(a) <= multiset(b)
    ensures Pairwise(a)
  {
    forall m, n | 0 <= m < n < |a| ensures Unlike(a[m], a[n]) {
      UnlikeWithin(a, b, m, n);
    }
  }

  lemma OnceIn(b: seq<ShardGroupInfo>, g: ShardGroupInfo)
    requires Pairwise(b)
    ensures multiset(b)[g] <= 1
  {
    if multiset(b)[g] >= 2 {
      var x, y := TwoPlaces(b, g);
    }
  }

  lemma UnlikeWithin(a: seq<ShardGroupInfo>, b: seq<ShardGroupInfo>, m: nat, n: nat)
    requires Pairwise(b) && multiset(a) <= multiset(b) && m < n < |a|
    ensures Unlike(a[m], a[n])
  {
    assert a[m] in multiset(a) && a[n] in multiset(a);
    assert a[m] in multiset(b) && a[n] in multiset(b);
    if a[m] == a[n] {
      TwiceIn(a, m, n);
      OnceIn(b, a[m]);
    }
    var x :| 0 <= x < |b| && b[x] == a[m];
    var y :| 0 <= y < |b| && b[y] == a[n];
    assert x < y ==> Unlike(b[x], b[y]);
    assert y < x ==> Unlike(b[y], b[x]);
  }

  lemma SoundWithin(nodes: set<nat>, maxGroup: nat, maxShard: nat, a: seq<ShardGroupInfo>, b: seq<ShardGroupInfo>)
    requires GroupsSound(nodes, maxGroup, maxShard, b) && multiset(a) <= multiset(b)
    ensures GroupsSound(nodes, maxGroup, maxShard, a)
  {
    PairwiseWithin(a, b);
    forall g | g in a ensures GroupSound(nodes, maxGroup, maxShard, g) {
      assert g in multiset(a);
      assert g in multiset(b);
    }
  }

  lemma GroupSoundLater(nodes: set<nat>, maxGroup: nat, maxShard: nat, nodes': set<nat>, maxGroup': nat, maxShard': nat, g: ShardGroupInfo)
    requires GroupSound(nodes, maxGroup, maxShard, g)
    requires nodes <= nodes' && maxGroup <= maxGroup' && maxShard <= maxShard'
    ensures GroupSound(nodes', maxGroup', maxShard', g)
  {
    forall s | s in g.shards ensures ShardSound(nodes', maxShard', s) {
      assert ShardSound(nodes, maxShard, s);
    }
  }

  lemma SoundLater(nodes: set<nat>, maxGroup: nat, maxShard: nat, nodes': set<nat>, maxGroup': nat, maxShard': nat, gs: seq<ShardGroupInfo>)
    requires GroupsSound(nodes, maxGroup, maxShard, gs)
    requires nodes <= nodes' && maxGroup <= maxGroup' && maxShard <= maxShard'
    ensures GroupsSound(nodes', maxGroup', maxShard', gs)
  {
    forall g | g in gs ensures GroupSound(nodes', maxGroup', maxShard', g) {
      GroupSoundLater(nodes, maxGroup, maxShard, nodes', maxGroup', maxShard', g);
    }
  }

  // ----- A new shard group -----

  lemma DealSplit(nodes: seq<NodeInfo>, from: nat, a: nat, b: nat)
    requires nodes != []
    ensures Deal(nodes, from, a) + Deal(nodes, from + a, b) == Deal(nodes, from, a + b)
  {
    var left, whole := Deal(nodes, from, a) + Deal(nodes, from + a, b), Deal(nodes, from, a + b);
    forall k | 0 <= k < a + b ensures left[k] == whole[k] {
      assert k >= a ==> from + a + (k - a) == from + k;
    }
  }

  lemma OwnersSnoc(shards: seq<ShardInfo>, s: ShardInfo)
    ensures OwnersOf(shards + [s]) == OwnersOf(shards) + s.owners
  {
    assert (shards + [s])[..|shards|] == shards;
  }

  lemma {:induction false} NewShardsOwners(nodes: seq<NodeInfo>, maxShardID: nat, from: nat, replicas: nat, n: nat)
    requires nodes != []
    ensures OwnersOf(NewShards(nodes, maxShardID, from, replicas, n)) == Deal(nodes, from, Dealt(n, replicas))
  {
    if n > 0 {
      hide Deal, OwnersOf, Dealt;
      var m := Dealt(n - 1, replicas);
      var before := NewShards(nodes, maxShardID, from, replicas, n - 1);
      var last := ShardInfo(maxShardID + n, Deal(nodes, from + m, replicas));
      assert NewShards(nodes, maxShardID, from, replicas, n) == before + [last];
      NewShardsOwners(nodes, maxShardID, from, replicas, n - 1);
      hide NewShards;
      OwnersSnoc(before, last);
      DealSplit(nodes, from, m, replicas);
      DealtNext(n, replicas);
    }
  }

  lemma DealtNext(n: nat, r: nat)
    requires n > 0
    ensures Dealt(n - 1, r) + r == Dealt(n, r)
  {
  }

  lemma ModDistinct(x: int, y: int, n: int)
    requires n > 0 && x < y < x + n
    ensures x % n != y % n
  {
    if x % n == y % n {
      assert y - x == (y / n - x / n) * n;
      SmallMultiple(y / n - x / n, n);
    }
  }

  lemma DistinctNodes(nodes: seq<NodeInfo>, max: nat, x: nat, y: nat)
    requires NodesSound(nodes, max) && x < |nodes| && y < |nodes| && x != y
    ensures nodes[x].id != nodes[y].id
  {
  }

  lemma DealDistinct(nodes: seq<NodeInfo>, max: nat, from: nat, n: nat)
    requires nodes != [] && NodesSound(nodes, max) && n <= |nodes|
    ensures Distinct(Deal(nodes, from, n))
  {
    forall a, b | 0 <= a < b < n ensures Deal(nodes, from, n)[a] != Deal(nodes, from, n)[b] {
      ModDistinct(from + a, from + b, |nodes|);
      DistinctNodes(nodes, max, (from + a) % |nodes|, (from + b) % |nodes|);
    }
  }

  lemma {:induction false} NewShardsAre(nodes: seq<NodeInfo>, maxShardID: nat, from: nat, replicas: nat, n: nat, k: nat)
    requires nodes != [] && k < n
    ensures NewShards(nodes, maxShardID, from, replicas, n)[k].id == maxShardID + 1 + k
    ensures |NewShards(nodes, maxShardID, from, replicas, n)[k].owners| == replicas
    ensures forall o :: o in NewShards(nodes, maxShardID, from, replicas, n)[k].owners ==> o in NodeIds(nodes)
  {
    if k < n - 1 {
      NewShardsAre(nodes, maxShardID, from, replicas, n - 1, k);
    } else {
      DealtAreNodes(nodes, from + Dealt(n - 1, replicas), replicas);
    }
  }

  lemma DealtAreNodes(nodes: seq<NodeInfo>, from: nat, n: nat)
    requires nodes != []
    ensures forall o :: o in Deal(nodes, from, n) ==> o in NodeIds(nodes)
  {
    forall o | o in Deal(nodes, from, n) ensures o in NodeIds(nodes) {
      var k :| 0 <= k < n && Deal(nodes, from, n)[k] == o;
      assert nodes[(from + k) % |nodes|] in nodes;
    }
  }

  lemma QuotientFits(n: nat, r: nat)
    requires 1 <= r <= n
    ensures n / r >= 1 && (n / r) * r <= n
  {
    assert n == (n / r) * r + n % r;
  }

  /** A new group has `nodes / replicas` shards of `replicas` owners each, and is sound under the new counters. */
  lemma NewGroupSound(d: Metadata, p: RetentionPolicyInfo, t: int)
    requires d.nodes != [] && NodesSound(d.nodes, d.maxNodeID)
    ensures var g := NewGroup(d, p, t);
      && g.id == d.maxShardGroupID + 1
      && |g.shards| == |d.nodes| / Replicas(p.replicaN, |d.nodes|) >= 1
      && (forall s :: s in g.shards ==> |s.owners| == Replicas(p.replicaN, |d.nodes|) && s.id > d.maxShardID)
      && GroupSound(NodeIds(d.nodes), d.maxShardGroupID + 1, d.maxShardID + |g.shards|, g)
  {
    var r := Replicas(p.replicaN, |d.nodes|);
    var n := |d.nodes| / r;
    var from := d.index % |d.nodes|;
    QuotientFits(|d.nodes|, r);
    var shards := NewShards(d.nodes, d.maxShardID, from, r, n);
    assert NewGroup(d, p, t).shards == shards;
    NewShardsOwners(d.nodes, d.maxShardID, from, r, n);
    DealDistinct(d.nodes, d.maxNodeID, from, n * r);
    hide NewShards, Deal, OwnersOf;
    forall k | 0 <= k < n
      ensures shards[k].id == d.maxShardID + 1 + k && |shards[k].owners| == r
      ensures ShardSound(NodeIds(d.nodes), d.maxShardID + n, shards[k])
    {
      NewShardsAre(d.nodes, d.maxShardID, from, r, n, k);
    }
  }

  // ----- Adding and marking groups -----

  lemma SnocPairwise(gs: seq<ShardGroupInfo>, g: ShardGroupInfo)
    requires Pairwise(gs) && forall h :: h in gs ==> Unlike(h, g)
    ensures Pairwise(gs + [g])
  {
  }

  lemma AddGroupSound(d: Metadata, at: Place, t: int, gs: seq<ShardGroupInfo>)
    requires Sound(d) && d.nodes != [] && IsPlace(d.databases, at)
    requires IsSortOf(gs, PolicyIn(d.databases, at).shardGroups + [NewGroup(d, PolicyIn(d.databases, at), t)])
    ensures Sound(Grown(d, at, t, gs))
  {
    hide NewGroup, AllGroups, NodesSound, PolicySound, GroupSound, IsSortOf, GroupsSound, PoliciesSound, NodeIds;
    var p := PolicyIn(d.databases, at);
    var g := NewGroup(d, p, t);
    NewGroupSound(d, p, t);
    PolicyGrown(d, at, t, gs);
    GroupsGrown(d, at, t, gs);
    JoinSound(NodeIds(d.nodes), d.maxShardGroupID, d.maxShardID, AllGroups(d.databases), g,
              AllGroups(Grown(d, at, t, gs).databases));
  }

  lemma GroupsGrown(d: Metadata, at: Place, t: int, gs: seq<ShardGroupInfo>)
    requires d.nodes != [] && IsPlace(d.databases, at)
    requires IsSortOf(gs, PolicyIn(d.databases, at).shardGroups + [NewGroup(d, PolicyIn(d.databases, at), t)])
    ensures multiset(AllGroups(Grown(d, at, t, gs).databases))
         == multiset(AllGroups(d.databases) + [NewGroup(d, PolicyIn(d.databases, at), t)])
  {
    var p := PolicyIn(d.databases, at);
    var a, b := GroupsReplaced(d, at, gs);
    hide NewGroup, AllGroups;
    SameGroups(a, p.shardGroups, b, NewGroup(d, p, t), gs);
  }

  /** A new group, with a new id and new shard ids, joins the others. */
  lemma JoinSound(nodes: set<nat>, maxGroup: nat, maxShard: nat, gs: seq<ShardGroupInfo>, g: ShardGroupInfo, gs': seq<ShardGroupInfo>)
    requires GroupsSound(nodes, maxGroup, maxShard, gs)
    requires g.id == maxGroup + 1 && forall s :: s in g.shards ==> s.id > maxShard
    requires GroupSound(nodes, maxGroup + 1, maxShard + |g.shards|, g)
    requires multiset(gs') == multiset(gs + [g])
    ensures GroupsSound(nodes, maxGroup + 1, maxShard + |g.shards|, gs')
  {
    NewUnlike(nodes, maxGroup, maxShard, gs, g);
    hide GroupSound;
    SoundLater(nodes, maxGroup, maxShard, nodes, maxGroup + 1, maxShard + |g.shards|, gs);
    SnocPairwise(gs, g);
    SoundWithin(nodes, maxGroup + 1, maxShard + |g.shards|, gs', gs + [g]);
  }

  lemma SameGroups<T>(a: seq<T>, s: seq<T>, b: seq<T>, g: T, s': seq<T>)
    requires multiset(s') == multiset(s + [g])
    ensures multiset(a + s' + b) == multiset(a + s + b + [g])
  {
  }

  lemma NewUnlike(nodes: set<nat>, maxGroup: nat, maxShard: nat, gs: seq<ShardGroupInfo>, g: ShardGroupInfo)
    requires forall h :: h in gs ==> GroupSound(nodes, maxGroup, maxShard, h)
    requires g.id > maxGroup && forall s :: s in g.shards ==> s.id > maxShard
    ensures forall h :: h in gs ==> Unlike(h, g)
  {
    forall h | h in gs ensures Unlike(h, g) {
      assert GroupSound(nodes, maxGroup, maxShard, h);
      forall s, t | s in h.shards && t in g.shards ensures s.id != t.id {
        assert ShardSound(nodes, maxShard, s);
      }
    }
  }

  lemma NewCell(d: Metadata, p: RetentionPolicyInfo, t: int)
    requires d.nodes != [] && Unit(p.shardGroupDuration)
    ensures var g := NewGroup(d, p, t);
      && Cell(g.start, g.end) && g.Contains(t) && !g.Deleted() && g.end - g.start == p.shardGroupDuration
      && g.id == d.maxShardGroupID + 1
  {
    CellOf(t, p.shardGroupDuration);
  }

  lemma PolicyGrown(d: Metadata, at: Place, t: int, gs: seq<ShardGroupInfo>)
    requires PoliciesSound(d.databases) && d.nodes != [] && IsPlace(d.databases, at)
    requires IsSortOf(gs, PolicyIn(d.databases, at).shardGroups + [NewGroup(d, PolicyIn(d.databases, at), t)])
    ensures PoliciesSound(Grown(d, at, t, gs).databases)
  {
    var p := PolicyIn(d.databases, at);
    var g := NewGroup(d, p, t);
    NewCell(d, p, t);
    assert PolicySound(p);
    forall h | h in gs ensures Cell(h.start, h.end) {
      assert h in multiset(gs);
      assert h in p.shardGroups + [g];
    }
    PolicyReplaced(d, at, p.(shardGroups := gs));
  }

  /** Replacing one sound policy by another keeps all policies sound. */
  lemma PolicyReplaced(d: Metadata, at: Place, p: RetentionPolicyInfo)
    requires PoliciesSound(d.databases) && IsPlace(d.databases, at) && PolicySound(p)
    ensures PoliciesSound(WithPolicies(d, at.i, d.databases[at.i].policies[at.j := p]).databases)
  {
    hide PolicySound;
    var dbs := WithPolicies(d, at.i, d.databases[at.i].policies[at.j := p]).databases;
    forall x | IsPlace(dbs, x) ensures PolicySound(PolicyIn(dbs, x)) {
      assert x != at ==> IsPlace(d.databases, x) && PolicyIn(dbs, x) == PolicyIn(d.databases, x);
    }
  }

  // ----- Removing a node -----

  lemma {:induction false} WithoutMember(ids: seq<nat>, id: nat)
    ensures forall o :: o in Without(ids, id) <==> o in ids && o != id
  {
    if ids != [] {
      var last := |ids| - 1;
      WithoutMember(ids[..last], id);
      assert ids == ids[..last] + [ids[last]];
    }
  }

  lemma {:induction false} WithoutSplit(a: seq<nat>, b: seq<nat>, id: nat)
    ensures Without(a + b, id) == Without(a, id) + Without(b, id)
  {
    if b == [] {
      assert a + b == a;
    } else {
      var last := |b| - 1;
      assert (a + b)[..|a + b| - 1] == a + b[..last] && (a + b)[|a + b| - 1] == b[last];
      WithoutSplit(a, b[..last], id);
      var x := if b[last] == id then [] else [b[last]];
      assert Without(a + b, id) == (Without(a, id) + Without(b[..last], id)) + x;
      Assoc(Without(a, id), Without(b[..last], id), x);
    }
  }

  lemma {:induction false} WithoutDistinct(ids: seq<nat>, id: nat)
    requires Distinct(ids)
    ensures Distinct(Without(ids, id))
  {
    if ids != [] {
      var last := |ids| - 1;
      WithoutDistinct(ids[..last], id);
      WithoutMember(ids[..last], id);
      var r := Without(ids[..last], id);
      forall k | 0 <= k < |r| ensures r[k] != ids[last] {
        assert r[k] in r;
      }
    }
  }

  lemma {:induction false} StripOwners(shards: seq<ShardInfo>, id: nat, r: seq<ShardInfo>)
    requires |r| == |shards| && forall k :: 0 <= k < |r| ==> r[k] == StripShard(shards[k], id)
    ensures OwnersOf(r) == Without(OwnersOf(shards), id)
  {
    if shards != [] {
      var last := |shards| - 1;
      StripOwners(shards[..last], id, r[..last]);
      WithoutSplit(OwnersOf(shards[..last]), shards[last].owners, id);
    }
  }

  lemma StripGroupSound(nodes: set<nat>, maxGroup: nat, maxShard: nat, g: ShardGroupInfo, id: nat)
    requires GroupSound(nodes, maxGroup, maxShard, g)
    ensures GroupSound(nodes - {id}, maxGroup, maxShard, StripGroup(g, id))
  {
    var r := StripGroup(g, id).shards;
    StripOwners(g.shards, id, r);
    WithoutDistinct(OwnersOf(g.shards), id);
    forall s | s in r ensures ShardSound(nodes - {id}, maxShard, s) {
      var k :| 0 <= k < |r| && r[k] == s;
      assert ShardSound(nodes, maxShard, g.shards[k]);
      WithoutMember(g.shards[k].owners, id);
    }
  }

  lemma StripUnlike(g: ShardGroupInfo, h: ShardGroupInfo, id: nat)
    requires Unlike(g, h)
    ensures Unlike(StripGroup(g, id), StripGroup(h, id))
  {
    var g', h' := StripGroup(g, id), StripGroup(h, id);
    forall s, t | s in g'.shards && t in h'.shards ensures s.id != t.id {
      var m :| 0 <= m < |g'.shards| && g'.shards[m] == s;
      var n :| 0 <= n < |h'.shards| && h'.shards[n] == t;
      assert g.shards[m] in g.shards && h.shards[n] in h.shards;
    }
  }

  lemma StripSound(nodes: set<nat>, maxGroup: nat, maxShard: nat, gs: seq<ShardGroupInfo>, id: nat)
    requires GroupsSound(nodes, maxGroup, maxShard, gs)
    ensures GroupsSound(nodes - {id}, maxGroup, maxShard, StripGroups(gs, id))
  {
    hide GroupSound, Unlike, StripGroup;
    var r := StripGroups(gs, id);
    forall m, n | 0 <= m < n < |r| ensures Unlike(r[m], r[n]) {
      assert Unlike(gs[m], gs[n]);
      StripUnlike(gs[m], gs[n], id);
    }
    forall k | 0 <= k < |r| ensures GroupSound(nodes - {id}, maxGroup, maxShard, r[k]) {
      StripGroupSound(nodes, maxGroup, maxShard, gs[k], id);
    }
  }

  lemma StripGroupsSplit(a: seq<ShardGroupInfo>, b: seq<ShardGroupInfo>, id: nat)
    ensures StripGroups(a + b, id) == StripGroups(a, id) + StripGroups(b, id)
  {
    hide StripGroup;
  }

  lemma {:induction false} StripPolicyGroups(ps: seq<RetentionPolicyInfo>, id: nat, r: seq<RetentionPolicyInfo>)
    requires |r| == |ps| && forall k :: 0 <= k < |r| ==> r[k] == StripPolicy(ps[k], id)
    ensures PolicyGroups(r) == StripGroups(PolicyGroups(ps), id)
  {
    hide StripGroup;
    if ps != [] {
      StripPolicyGroups(ps[1..], id, r[1..]);
      StripGroupsSplit(ps[0].shardGroups, PolicyGroups(ps[1..]), id);
    }
  }

  lemma {:induction false} StripAllGroups(dbs: seq<DatabaseInfo>, id: nat, r: seq<DatabaseInfo>)
    requires |r| == |dbs| && forall k :: 0 <= k < |r| ==> r[k] == StripDatabase(dbs[k], id)
    ensures AllGroups(r) == StripGroups(AllGroups(dbs), id)
  {
    hide StripGroup, StripPolicy;
    if dbs != [] {
      StripAllGroups(dbs[1..], id, r[1..]);
      StripPolicyGroups(dbs[0].policies, id, r[0].policies);
      StripGroupsSplit(PolicyGroups(dbs[0].policies), AllGroups(dbs[1..]), id);
    }
  }

  lemma {:induction false} NodesWithoutAre(nodes: seq<NodeInfo>, max: nat, id: nat)
    requires NodesSound(nodes, max)
    ensures NodesSound(NodesWithout(nodes, id), max)
    ensures forall n :: n in NodesWithout(nodes, id) <==> n in nodes && n.id != id
  {
    if nodes != [] {
      var last := |nodes| - 1;
      NodesWithoutAre(nodes[..last], max, id);
      assert nodes == nodes[..last] + [nodes[last]];
      forall n | n in NodesWithout(nodes[..last], id) ensures n.id < nodes[last].id {
        assert n in nodes[..last];
      }
    }
  }

  lemma StripPolicies(dbs: seq<DatabaseInfo>, id: nat)
    requires PoliciesSound(dbs)
    ensures PoliciesSound(StripDatabases(dbs, id))
  {
    var dbs' := StripDatabases(dbs, id);
    forall at | IsPlace(dbs', at) ensures PolicySound(PolicyIn(dbs', at)) {
      assert IsPlace(dbs, at) && PolicySound(PolicyIn(dbs, at));
      StripPolicySound(PolicyIn(dbs, at), id);
    }
  }

  lemma StripPolicySound(p: RetentionPolicyInfo, id: nat)
    requires PolicySound(p)
    ensures PolicySound(StripPolicy(p, id))
  {
    var gs, r := p.shardGroups, StripPolicy(p, id).shardGroups;
    forall k | 0 <= k < |r| ensures r[k].start == gs[k].start && r[k].end == gs[k].end && Cell(r[k].start, r[k].end) {
      assert gs[k] in gs;
    }
  }

  lemma RemoveNodeSound(d: Metadata, id: nat)
    requires Sound(d)
    ensures Sound(d.(databases := StripDatabases(d.databases, id), nodes := NodesWithout(d.nodes, id)))
  {
    StripPolicies(d.databases, id);
    NodesWithoutAre(d.nodes, d.maxNodeID, id);
    StripAllGroups(d.databases, id, StripDatabases(d.databases, id));
    hide StripGroups, AllGroups, PolicySound, NodesSound, GroupSound, NodesWithout;
    StripSound(NodeIds(d.nodes), d.maxShardGroupID, d.maxShardID, AllGroups(d.databases), id);
    assert NodeIds(NodesWithout(d.nodes, id)) == NodeIds(d.nodes) - {id};
  }

  // ----- Ids in use -----

  function GroupIds(gs: seq<ShardGroupInfo>): set<nat> {
    set g | g in gs :: g.id
  }

  function ShardIds(gs: seq<ShardGroupInfo>): set<nat> {
    set g, s | g in gs && s in g.shards :: s.id
  }

  predicate NewOnly(ids: set<nat>, max: nat, ids': set<nat>, max': nat) {
    max <= max' && forall id :: id in ids' ==> id in ids || id > max
  }

  /** Counters never fall, and an id that was not in use before is above the old counter. */
  ghost predicate Fresh(d: Metadata, d': Metadata) {
    && NewOnly(NodeIds(d.nodes), d.maxNodeID, NodeIds(d'.nodes), d'.maxNodeID)
    && NewOnly(GroupIds(AllGroups(d.databases)), d.maxShardGroupID, GroupIds(AllGroups(d'.databases)), d'.maxShardGroupID)
    && NewOnly(ShardIds(AllGroups(d.databases)), d.maxShardID, ShardIds(AllGroups(d'.databases)), d'.maxShardID)
  }

  /** What a step keeps. */
  ghost predicate Kept(d: Metadata, d': Metadata) {
    Sound(d') && Fresh(d, d')
  }

  lemma IdsWithin(a: seq<ShardGroupInfo>, b: seq<ShardGroupInfo>)
    requires forall g :: g in a ==> g in b
    ensures GroupIds(a) <= GroupIds(b) && ShardIds(a) <= ShardIds(b)
  {
  }

  /** A step that only selects among the groups. */
  lemma SelectionKept(d: Metadata, d': Metadata)
    requires Sound(d) && d'.nodes == d.nodes && PoliciesSound(d'.databases)
    requires d'.maxNodeID == d.maxNodeID && d'.maxShardGroupID == d.maxShardGroupID && d'.maxShardID == d.maxShardID
    requires multiset(AllGroups(d'.databases)) <= multiset(AllGroups(d.databases))
    ensures Kept(d, d')
  {
    hide AllGroups, PoliciesSound, GroupsSound, NodesSound;
    var gs, gs' := AllGroups(d.databases), AllGroups(d'.databases);
    SoundWithin(NodeIds(d.nodes), d.maxShardGroupID, d.maxShardID, gs', gs);
    forall g | g in gs' ensures g in gs {
      assert g in multiset(gs');
    }
    IdsWithin(gs', gs);
  }

  // ----- Commands on nodes -----

  lemma AddNodeKept(d: Metadata, host: string, rand: nat)
    requires Sound(d) && AddNode(d, host, rand).Ok?
    ensures Kept(d, AddNode(d, host, rand).value)
  {
    var d' := AddNode(d, host, rand).value;
    assert NodeIds(d'.nodes) == NodeIds(d.nodes) + {d.maxNodeID + 1};
    hide AllGroups, PoliciesSound;
    SoundLater(NodeIds(d.nodes), d.maxShardGroupID, d.maxShardID, NodeIds(d'.nodes), d.maxShardGroupID, d.maxShardID, AllGroups(d.databases));
  }

  lemma MoveNodeKept(d: Metadata, id: nat, host: string)
    requires Sound(d) && MoveNode(d, id, host).Ok?
    ensures Kept(d, MoveNode(d, id, host).value)
  {
    var d' := MoveNode(d, id, host).value;
    assert |d'.nodes| == |d.nodes| && forall k :: 0 <= k < |d.nodes| ==> d'.nodes[k].id == d.nodes[k].id;
    SameNodeIds(d.nodes, d'.nodes);
    forall k | 0 <= k < |d'.nodes| ensures 1 <= d'.nodes[k].id <= d'.maxNodeID {
      assert d.nodes[k] in d.nodes;
    }
  }

  lemma SameNodeIds(nodes: seq<NodeInfo>, nodes': seq<NodeInfo>)
    requires |nodes'| == |nodes| && forall k :: 0 <= k < |nodes| ==> nodes'[k].id == nodes[k].id
    ensures NodeIds(nodes') == NodeIds(nodes)
  {
    forall id ensures id in NodeIds(nodes') <==> id in NodeIds(nodes) {
      if id in NodeIds(nodes') {
        var k :| 0 <= k < |nodes'| && nodes'[k].id == id;
        assert nodes[k] in nodes;
      }
      if id in NodeIds(nodes) {
        var k :| 0 <= k < |nodes| && nodes[k].id == id;
        assert nodes'[k] in nodes';
      }
    }
  }

  lemma RemoveNodeKept(d: Metadata, id: nat, force: bool)
    requires Sound(d) && RemoveNode(d, id, force).Ok?
    ensures Kept(d, RemoveNode(d, id, force).value)
  {
    RemoveNodeSound(d, id);
    NodesWithoutAre(d.nodes, d.maxNodeID, id);
    StripAllGroups(d.databases, id, StripDatabases(d.databases, id));
    hide AllGroups, NodesWithout, Sound;
    StripIds(AllGroups(d.databases), id);
  }

  lemma StripIds(gs: seq<ShardGroupInfo>, id: nat)
    ensures GroupIds(StripGroups(gs, id)) <= GroupIds(gs)
    ensures ShardIds(StripGroups(gs, id)) <= ShardIds(gs)
  {
    var r := StripGroups(gs, id);
    forall g | g in r ensures g.id in GroupIds(gs) && forall s :: s in g.shards ==> s.id in ShardIds(gs) {
      var k :| 0 <= k < |r| && r[k] == g;
      assert gs[k] in gs;
      forall s | s in g.shards ensures s.id in ShardIds(gs) {
        var n :| 0 <= n < |g.shards| && g.shards[n] == s;
        assert gs[k].shards[n] in gs[k].shards;
      }
    }
  }

  // ----- Commands on databases and policies -----

  lemma AddDatabaseKept(d: Metadata, name: string)
    requires Sound(d) && AddDatabase(d, name).Ok?
    ensures Kept(d, AddDatabase(d, name).value)
  {
    var d' := AddDatabase(d, name).value;
    var db := DatabaseInfo(name, "", []);
    AllGroupsSplit(d.databases, [db]);
    assert AllGroups([db]) == [];
    forall at | IsPlace(d'.databases, at) ensures PolicySound(PolicyIn(d'.databases, at)) {
      assert IsPlace(d.databases, at) && PolicyIn(d'.databases, at) == PolicyIn(d.databases, at);
    }
    SelectionKept(d, d');
  }

  lemma RemoveDatabaseKept(d: Metadata, name: string)
    requires Sound(d) && RemoveDatabase(d, name).Ok?
    ensures Kept(d, RemoveDatabase(d, name).value)
  {
    var d' := RemoveDatabase(d, name).value;
    var dbs, i := d.databases, DatabaseAt(d.databases, name);
    hide AllGroups, PolicySound, Sound, Kept, PoliciesSound;
    FewerGroups(dbs, i);
    FewerPolicies(d, i);
    SelectionKept(d, d');
  }

  lemma FewerGroups(dbs: seq<DatabaseInfo>, i: nat)
    requires i < |dbs|
    ensures multiset(AllGroups(dbs[..i] + dbs[i + 1..])) <= multiset(AllGroups(dbs))
  {
    hide AllGroups;
    AroundDatabase(dbs, i, dbs[i]);
    assert dbs[i := dbs[i]] == dbs;
    AllGroupsSplit(dbs[..i], dbs[i + 1..]);
  }

  lemma FewerPolicies(d: Metadata, i: nat)
    requires Sound(d) && i < |d.databases|
    ensures PoliciesSound(d.databases[..i] + d.databases[i + 1..])
  {
    hide AllGroups, PolicySound;
    var dbs, dbs' := d.databases, d.databases[..i] + d.databases[i + 1..];
    forall at | IsPlace(dbs', at) ensures PolicySound(PolicyIn(dbs', at)) {
      var was := if at.i < i then at else Place(at.i + 1, at.j);
      assert IsPlace(dbs, was) && PolicyIn(dbs', at) == PolicyIn(dbs, was);
    }
  }

  /** A step that changes the policies of one database, selecting among its groups. */
  lemma PoliciesKept(d: Metadata, i: nat, ps: seq<RetentionPolicyInfo>)
    requires Sound(d) && i < |d.databases|
    requires multiset(PolicyGroups(ps)) <= multiset(PolicyGroups(d.databases[i].policies))
    requires forall p :: p in ps ==> PolicySound(p)
    ensures Kept(d, WithPolicies(d, i, ps))
  {
    hide AllGroups, PolicyGroups, PolicySound;
    var d' := WithPolicies(d, i, ps);
    var dbs := d.databases;
    AroundDatabase(dbs, i, dbs[i]);
    AroundDatabase(dbs, i, dbs[i].(policies := ps));
    assert dbs[i := dbs[i]] == dbs;
    forall at | IsPlace(d'.databases, at) ensures PolicySound(PolicyIn(d'.databases, at)) {
      assert at.i == i ==> PolicyIn(d'.databases, at) in ps;
      assert at.i != i ==> IsPlace(dbs, at) && PolicyIn(d'.databases, at) == PolicyIn(dbs, at);
    }
    SelectionKept(d, d');
  }

  lemma PoliciesOf(d: Metadata, i: nat)
    requires PoliciesSound(d.databases) && i < |d.databases|
    ensures forall p :: p in d.databases[i].policies ==> PolicySound(p)
  {
    hide PolicySound;
    var ps := d.databases[i].policies;
    forall j | 0 <= j < |ps| ensures PolicySound(ps[j]) {
      assert IsPlace(d.databases, Place(i, j)) && PolicyIn(d.databases, Place(i, j)) == ps[j];
    }
  }

  lemma AddPolicyKept(d: Metadata, database: string, name: string, replicaN: nat, duration: int)
    requires Sound(d) && AddPolicy(d, database, name, replicaN, duration).Ok?
    ensures Kept(d, AddPolicy(d, database, name, replicaN, duration).value)
  {
    var i := DatabaseAt(d.databases, database);
    var ps := d.databases[i].policies;
    var p := RetentionPolicyInfo(name, replicaN, duration, ShardGroupDuration(duration), []);
    PoliciesOf(d, i);
    assert PolicySound(p);
    PolicyGroupsSplit(ps, [p]);
    assert PolicyGroups([p]) == [];
    hide PolicySound, Sound, PolicyGroups;
    PoliciesKept(d, i, ps + [p]);
  }

  lemma RemovePolicyKept(d: Metadata, database: string, name: string)
    requires Sound(d) && RemovePolicy(d, database, name).Ok?
    ensures Kept(d, RemovePolicy(d, database, name).value)
  {
    var i := DatabaseAt(d.databases, database);
    var ps := d.databases[i].policies;
    var j := PolicyAt(ps, name);
    PoliciesOf(d, i);
    hide PolicySound, Sound, PolicyGroups;
    AroundPolicy(ps, j, ps[j]);
    assert ps[j := ps[j]] == ps;
    PolicyGroupsSplit(ps[..j], ps[j + 1..]);
    PoliciesKept(d, i, ps[..j] + ps[j + 1..]);
  }

  lemma ChangePolicyKept(d: Metadata, database: string, name: string, u: PolicyUpdate)
    requires Sound(d) && ChangePolicy(d, database, name, u).Ok?
    ensures Kept(d, ChangePolicy(d, database, name, u).value)
  {
    var i := DatabaseAt(d.databases, database);
    var ps := d.databases[i].policies;
    var j := PolicyAt(ps, name);
    var p := Updated(ps[j], u);
    PoliciesOf(d, i);
    assert PolicySound(p) by {
      assert PolicySound(ps[j]);
    }
    hide PolicySound, Sound, PolicyGroups;
    AroundPolicy(ps, j, ps[j]);
    AroundPolicy(ps, j, p);
    assert ps[j := ps[j]] == ps;
    PoliciesKept(d, i, ps[j := p]);
  }

  lemma MakeDefaultKept(d: Metadata, database: string, name: string)
    requires Sound(d) && MakeDefault(d, database, name).Ok?
    ensures Kept(d, MakeDefault(d, database, name).value)
  {
    var d' := MakeDefault(d, database, name).value;
    var dbs, i := d.databases, DatabaseAt(d.databases, database);
    hide AllGroups, PolicySound;
    AroundDatabase(dbs, i, dbs[i]);
    AroundDatabase(dbs, i, dbs[i].(defaultPolicy := name));
    assert dbs[i := dbs[i]] == dbs;
    forall at | IsPlace(d'.databases, at) ensures PolicySound(PolicyIn(d'.databases, at)) {
      assert IsPlace(dbs, at) && PolicyIn(d'.databases, at) == PolicyIn(dbs, at);
    }
    SelectionKept(d, d');
  }

  // ----- Commands on shard groups -----

  lemma AddGroupKept(d: Metadata, database: string, policy: string, t: int, r: Result<Metadata, Error>)
    requires Sound(d) && AddsGroup(d, database, policy, t, r) && r.Ok?
    ensures Kept(d, r.value)
  {
    var at := Locate(d.databases, database, policy).value;
    var p := PolicyIn(d.databases, at);
    var g := NewGroup(d, p, t);
    hide NewGroup, AllGroups, NodesSound, PolicySound, GroupSound, IsSortOf, GroupsSound, PoliciesSound, GroupByTimestamp, SortedByStart;
    var gs :| IsSortOf(gs, p.shardGroups + [g]) && r.value == Grown(d, at, t, gs);
    AddGroupSound(d, at, t, gs);
    GroupsGrown(d, at, t, gs);
    NewGroupSound(d, p, t);
    JoinIds(AllGroups(d.databases), g, AllGroups(r.value.databases));
  }

  lemma JoinIds(gs: seq<ShardGroupInfo>, g: ShardGroupInfo, gs': seq<ShardGroupInfo>)
    requires multiset(gs') == multiset(gs + [g])
    ensures GroupIds(gs') <= GroupIds(gs) + {g.id}
    ensures ShardIds(gs') <= ShardIds(gs) + (set s | s in g.shards :: s.id)
  {
    forall h | h in gs' ensures h in gs || h == g {
      assert h in multiset(gs');
      assert h in gs + [g];
    }
  }

  lemma RemoveGroupKept(d: Metadata, database: string, policy: string, id: nat, now: Now)
    requires Sound(d) && RemoveGroup(d, database, policy, id, now).Ok?
    ensures Kept(d, RemoveGroup(d, database, policy, id, now).value)
  {
    var at := Locate(d.databases, database, policy).value;
    var p := PolicyIn(d.databases, at);
    var gs := p.shardGroups;
    var k := GroupAt(gs, id);
    var gs' := gs[k := gs[k].(deletedAt := now)];
    assert PolicySound(p);
    forall g | g in gs' ensures Cell(g.start, g.end) {
      assert gs[k] in gs;
    }
    PolicyReplaced(d, at, p.(shardGroups := gs'));
    MarkedGroups(d, at, k, now);
    var all, n := AllGroups(d.databases), GroupsBefore(d.databases, at) + k;
    hide *;
    MarkKept(NodeIds(d.nodes), d.maxShardGroupID, d.maxShardID, all, n, now);
  }

  /** How many groups come before those of one policy. */
  ghost function GroupsBefore(dbs: seq<DatabaseInfo>, at: Place): nat
    requires IsPlace(dbs, at)
  {
    |AllGroups(dbs[..at.i])| + |PolicyGroups(dbs[at.i].policies[..at.j])|
  }

  lemma MarkedGroups(d: Metadata, at: Place, k: nat, now: int)
    requires IsPlace(d.databases, at) && k < |PolicyIn(d.databases, at).shardGroups|
    ensures var gs := PolicyIn(d.databases, at).shardGroups;
            var all, n := AllGroups(d.databases), GroupsBefore(d.databases, at) + k;
      && n < |all| && all[n] == gs[k]
      && AllGroups(WithGroups(d, at, gs[k := gs[k].(deletedAt := now)]).databases) == all[n := gs[k].(deletedAt := now)]
  {
    var gs := PolicyIn(d.databases, at).shardGroups;
    var a, b := GroupsReplaced(d, at, gs[k := gs[k].(deletedAt := now)]);
    hide AllGroups, WithGroups;
  }

  lemma MarkKept(nodes: set<nat>, maxGroup: nat, maxShard: nat, gs: seq<ShardGroupInfo>, n: nat, now: int)
    requires GroupsSound(nodes, maxGroup, maxShard, gs) && n < |gs|
    ensures var gs' := gs[n := gs[n].(deletedAt := now)];
      GroupsSound(nodes, maxGroup, maxShard, gs') && GroupIds(gs') <= GroupIds(gs) && ShardIds(gs') <= ShardIds(gs)
  {
    assert gs[n] in gs;
  }

  // ----- Every run -----

  lemma StepKept(d: Metadata, c: Command, d': Metadata)
    requires Sound(d) && Step(d, c, d')
    ensures Kept(d, d')
  {
    var r :| Outcome(d, c, r) && d' == (if r.Ok? then r.value else d).(term := d'.term, index := d'.index);
    if r.Ok? {
      OutcomeKept(d, c, r);
    }
  }

  lemma OutcomeKept(d: Metadata, c: Command, r: Result<Metadata, Error>)
    requires Sound(d) && Outcome(d, c, r) && r.Ok?
    ensures Kept(d, r.value)
  {
    hide Kept, Sound;
    match c
    case CreateNode(host, rand) => AddNodeKept(d, host, rand);
    case UpdateNode(id, host) => MoveNodeKept(d, id, host);
    case DeleteNode(id, force) => RemoveNodeKept(d, id, force);
    case CreateDatabase(name) => AddDatabaseKept(d, name);
    case DropDatabase(name) => RemoveDatabaseKept(d, name);
    case CreateRetentionPolicy(db, name, n, duration) => AddPolicyKept(d, db, name, n, duration);
    case DropRetentionPolicy(db, name) => RemovePolicyKept(d, db, name);
    case SetDefaultRetentionPolicy(db, name) => MakeDefaultKept(d, db, name);
    case UpdateRetentionPolicy(db, name, u) => ChangePolicyKept(d, db, name, u);
    case CreateShardGroup(db, policy, t) => AddGroupKept(d, db, policy, t, r);
    case DeleteShardGroup(db, policy, id, now) => RemoveGroupKept(d, db, policy, id, now);
    case Other => NothingKept(d);
  }

  lemma NothingKept(d: Metadata)
    requires Sound(d)
    ensures Kept(d, d)
  {
  }

  /** The metadata after each command of a run. */
  ghost predicate IsRun(ds: seq<Metadata>, cs: seq<Command>) {
    |ds| == |cs| + 1 && forall i :: 0 <= i < |cs| ==> Step(ds[i], cs[i], ds[i + 1])
  }

  /** Every state of every run that starts empty is sound. */
  lemma {:induction false} RunSound(ds: seq<Metadata>, cs: seq<Command>, k: nat)
    requires IsRun(ds, cs) && ds[0] == EMPTY && k < |ds|
    ensures Sound(ds[k])
  {
    if k > 0 {
      RunSound(ds, cs, k - 1);
      StepKept(ds[k - 1], cs[k - 1], ds[k]);
    }
  }

  lemma {:induction false} RunFresh(ds: seq<Metadata>, cs: seq<Command>, i: nat, k: nat)
    requires IsRun(ds, cs) && ds[0] == EMPTY && i <= k < |ds|
    ensures Fresh(ds[i], ds[k])
    decreases k
  {
    hide Sound, Step;
    if i < k {
      RunFresh(ds, cs, i, k - 1);
      RunSound(ds, cs, k - 1);
      StepKept(ds[k - 1], cs[k - 1], ds[k]);
      FreshOn(ds[i], ds[k - 1], ds[k]);
    } else {
      FreshSelf(ds[i]);
    }
  }

  lemma FreshSelf(d: Metadata)
    ensures Fresh(d, d)
  {
  }

  lemma FreshOn(a: Metadata, b: Metadata, c: Metadata)
    requires Fresh(a, b) && Fresh(b, c)
    ensures Fresh(a, c)
  {
    hide AllGroups;
  }

  /** An id that goes out of use never comes back. */
  lemma NeverReused(ds: seq<Metadata>, cs: seq<Command>, i: nat, j: nat, k: nat)
    requires IsRun(ds, cs) && ds[0] == EMPTY && i <= j <= k < |ds|
    ensures NodeIds(ds[i].nodes) * NodeIds(ds[k].nodes) <= NodeIds(ds[j].nodes)
    ensures GroupIds(AllGroups(ds[i].databases)) * GroupIds(AllGroups(ds[k].databases)) <= GroupIds(AllGroups(ds[j].databases))
    ensures ShardIds(AllGroups(ds[i].databases)) * ShardIds(AllGroups(ds[k].databases)) <= ShardIds(AllGroups(ds[j].databases))
  {
    RunFresh(ds, cs, i, j);
    RunFresh(ds, cs, j, k);
    RunSound(ds, cs, i);
    IdsBounded(ds[i]);
  }

  lemma IdsBounded(d: Metadata)
    requires Sound(d)
    ensures forall id :: id in NodeIds(d.nodes) ==> 1 <= id <= d.maxNodeID
    ensures forall id :: id in GroupIds(AllGroups(d.databases)) ==> 1 <= id <= d.maxShardGroupID
    ensures forall id :: id in ShardIds(AllGroups(d.databases)) ==> 1 <= id <= d.maxShardID
  {
    forall g, s | g in AllGroups(d.databases) && s in g.shards ensures 1 <= s.id <= d.maxShardID {
      assert GroupSound(NodeIds(d.nodes), d.maxShardGroupID, d.maxShardID, g);
      assert ShardSound(NodeIds(d.nodes), d.maxShardID, s);
    }
  }
}
