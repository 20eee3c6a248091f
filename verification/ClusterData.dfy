/**
 The cluster metadata (meta/data.go) as values, the outcome of every metadata
 command (meta/store.go), and what holds in every run of commands.
 */
module ClusterData {
  import opened Values
  import opened TimeGrid
  import opened Sequences

  datatype NodeInfo = NodeInfo(id: nat, host: string)

  /** `owners` lists the ids of the nodes that hold a copy. */
  datatype ShardInfo = ShardInfo(id: nat, owners: seq<nat>)

  /** A group covers the times from `start` up to `end`; a `deletedAt` other than the zero time marks it deleted. */
  datatype ShardGroupInfo = ShardGroupInfo(id: nat, start: int, end: int, deletedAt: int, shards: seq<ShardInfo>) {
    predicate Contains(t: int) {
      start <= t < end
    }

    predicate Overlaps(min: int, max: int) {
      start <= max && min < end
    }

    predicate Deleted() {
      deletedAt != 0
    }
  }

  datatype RetentionPolicyInfo = RetentionPolicyInfo(
    name: string, replicaN: nat, duration: int, shardGroupDuration: int, shardGroups: seq<ShardGroupInfo>)

  datatype DatabaseInfo = DatabaseInfo(name: string, defaultPolicy: string, policies: seq<RetentionPolicyInfo>)

  datatype Metadata = Metadata(
    term: nat, index: nat, clusterID: nat, nodes: seq<NodeInfo>, databases: seq<DatabaseInfo>,
    maxNodeID: nat, maxShardGroupID: nat, maxShardID: nat)

  const EMPTY: Metadata := Metadata(0, 0, 0, [], [], 0, 0, 0)

  datatype Error =
    | NodeExists | NodeNotFound | NodesRequired | NodeIDRequired | NodeUnableToDropFinalNode
    | DatabaseExists | DatabaseNotFound | DatabaseNameRequired
    | RetentionPolicyExists | RetentionPolicyDefault | RetentionPolicyNotFound | RetentionPolicyNameRequired
    | RetentionPolicyNameExists | RetentionPolicyDurationTooLow | ReplicationFactorTooLow
    | ShardGroupExists | ShardGroupNotFound | ShardNotReplicated

  /** What the clock reads: never the zero time. */
  type Now = t: int | t != 0 witness 1

  /** `Other` stands for the commands on users, continuous queries and peers, which leave this part alone. */
  datatype Command =
    | CreateNode(host: string, rand: nat)
    | UpdateNode(id: nat, host: string)
    | DeleteNode(id: nat, force: bool)
    | CreateDatabase(name: string)
    | DropDatabase(name: string)
    | CreateRetentionPolicy(database: string, name: string, replicaN: nat, duration: int)
    | DropRetentionPolicy(database: string, name: string)
    | SetDefaultRetentionPolicy(database: string, name: string)
    | UpdateRetentionPolicy(database: string, name: string, update: PolicyUpdate)
    | CreateShardGroup(database: string, policy: string, timestamp: int)
    | DeleteShardGroup(database: string, policy: string, id: nat, now: Now)
    | Other

  datatype PolicyUpdate = PolicyUpdate(name: Option<string>, duration: Option<int>, replicaN: Option<nat>)

  // ----- Lookups: the first match, or the length when there is none -----

  function NodeAt(nodes: seq<NodeInfo>, id: nat): (i: nat)
    ensures i <= |nodes| && (i < |nodes| ==> nodes[i].id == id) && forall k :: 0 <= k < i ==> nodes[k].id != id
  {
    if nodes == [] || nodes[0].id == id then 0 else 1 + NodeAt(nodes[1..], id)
  }

  function HostAt(nodes: seq<NodeInfo>, host: string): (i: nat)
    ensures i <= |nodes| && (i < |nodes| ==> nodes[i].host == host) && forall k :: 0 <= k < i ==> nodes[k].host != host
  {
    if nodes == [] || nodes[0].host == host then 0 else 1 + HostAt(nodes[1..], host)
  }

  function DatabaseAt(dbs: seq<DatabaseInfo>, name: string): (i: nat)
    ensures i <= |dbs| && (i < |dbs| ==> dbs[i].name == name) && forall k :: 0 <= k < i ==> dbs[k].name != name
  {
    if dbs == [] || dbs[0].name == name then 0 else 1 + DatabaseAt(dbs[1..], name)
  }

  function PolicyAt(ps: seq<RetentionPolicyInfo>, name: string): (j: nat)
    ensures j <= |ps| && (j < |ps| ==> ps[j].name == name) && forall k :: 0 <= k < j ==> ps[k].name != name
  {
    if ps == [] || ps[0].name == name then 0 else 1 + PolicyAt(ps[1..], name)
  }

  function GroupAt(gs: seq<ShardGroupInfo>, id: nat): (k: nat)
    ensures k <= |gs| && (k < |gs| ==> gs[k].id == id) && forall n :: 0 <= n < k ==> gs[n].id != id
  {
    if gs == [] || gs[0].id == id then 0 else 1 + GroupAt(gs[1..], id)
  }

  predicate Serves(g: ShardGroupInfo, t: int) {
    g.Contains(t) && !g.Deleted()
  }

  /** `ShardGroupByTimestamp`: the first live group that contains the time. */
  function GroupByTimestamp(gs: seq<ShardGroupInfo>, t: int): (k: nat)
    ensures k <= |gs| && (k < |gs| ==> Serves(gs[k], t)) && forall n :: 0 <= n < k ==> !Serves(gs[n], t)
  {
    if gs == [] || Serves(gs[0], t) then 0 else 1 + GroupByTimestamp(gs[1..], t)
  }

  // ----- What each command makes of the metadata -----

  function AddNode(d: Metadata, host: string, rand: nat): Result<Metadata, Error> {
    if HostAt(d.nodes, host) < |d.nodes| then Err(NodeExists)
    else Ok(d.(maxNodeID := d.maxNodeID + 1, nodes := d.nodes + [NodeInfo(d.maxNodeID + 1, host)],
               clusterID := if d.clusterID == 0 then rand else d.clusterID))
  }

  function MoveNode(d: Metadata, id: nat, host: string): Result<Metadata, Error> {
    var i := NodeAt(d.nodes, id);
    if i == |d.nodes| then Err(NodeNotFound) else Ok(d.(nodes := d.nodes[i := d.nodes[i].(host := host)]))
  }

  function NodesWithout(nodes: seq<NodeInfo>, id: nat): seq<NodeInfo> {
    if nodes == [] then []
    else NodesWithout(nodes[..|nodes| - 1], id) + (if nodes[|nodes| - 1].id == id then [] else [nodes[|nodes| - 1]])
  }

  function StripShard(s: ShardInfo, id: nat): ShardInfo {
    s.(owners := Without(s.owners, id))
  }

  function StripGroup(g: ShardGroupInfo, id: nat): ShardGroupInfo {
    g.(shards := seq(|g.shards|, k requires 0 <= k < |g.shards| => StripShard(g.shards[k], id)))
  }

  function StripGroups(gs: seq<ShardGroupInfo>, id: nat): seq<ShardGroupInfo> {
    seq(|gs|, k requires 0 <= k < |gs| => StripGroup(gs[k], id))
  }

  function StripPolicy(p: RetentionPolicyInfo, id: nat): RetentionPolicyInfo {
    p.(shardGroups := StripGroups(p.shardGroups, id))
  }

  function StripDatabase(db: DatabaseInfo, id: nat): DatabaseInfo {
    db.(policies := seq(|db.policies|, k requires 0 <= k < |db.policies| => StripPolicy(db.policies[k], id)))
  }

  function StripDatabases(dbs: seq<DatabaseInfo>, id: nat): seq<DatabaseInfo> {
    seq(|dbs|, k requires 0 <= k < |dbs| => StripDatabase(dbs[k], id))
  }

  /** The node holds the only copy of a shard of this group. */
  predicate LastCopy(g: ShardGroupInfo, id: nat) {
    exists s :: s in g.shards && s.owners == [id]
  }

  predicate LastCopyIn(db: DatabaseInfo, id: nat) {
    exists p, g :: p in db.policies && p.replicaN <= 1 && g in p.shardGroups && LastCopy(g, id)
  }

  /** A shard of an unreplicated policy would lose its only copy with the node. */
  predicate Unreplicated(dbs: seq<DatabaseInfo>, id: nat) {
    exists db :: db in dbs && LastCopyIn(db, id)
  }

  function RemoveNode(d: Metadata, id: nat, force: bool): Result<Metadata, Error> {
    if id == 0 then Err(NodeIDRequired)
    else if NodeAt(d.nodes, id) == |d.nodes| then Err(NodeNotFound)
    else if |d.nodes| == 1 then Err(NodeUnableToDropFinalNode)
    else if !force && Unreplicated(d.databases, id) then Err(ShardNotReplicated)
    else Ok(d.(databases := StripDatabases(d.databases, id), nodes := NodesWithout(d.nodes, id)))
  }

  function AddDatabase(d: Metadata, name: string): Result<Metadata, Error> {
    if name == "" then Err(DatabaseNameRequired)
    else if DatabaseAt(d.databases, name) < |d.databases| then Err(DatabaseExists)
    else Ok(d.(databases := d.databases + [DatabaseInfo(name, "", [])]))
  }

  function RemoveDatabase(d: Metadata, name: string): Result<Metadata, Error> {
    var i := DatabaseAt(d.databases, name);
    if i == |d.databases| then Err(DatabaseNotFound)
    else Ok(d.(databases := d.databases[..i] + d.databases[i + 1..]))
  }

  function WithPolicies(d: Metadata, i: nat, ps: seq<RetentionPolicyInfo>): Metadata
    requires i < |d.databases|
  {
    d.(databases := d.databases[i := d.databases[i].(policies := ps)])
  }

  function AddPolicy(d: Metadata, database: string, name: string, replicaN: nat, duration: int): Result<Metadata, Error> {
    var i := DatabaseAt(d.databases, database);
    if name == "" then Err(RetentionPolicyNameRequired)
    else if replicaN < 1 then Err(ReplicationFactorTooLow)
    else if i == |d.databases| then Err(DatabaseNotFound)
    else if PolicyAt(d.databases[i].policies, name) < |d.databases[i].policies| then Err(RetentionPolicyExists)
    else Ok(WithPolicies(d, i, d.databases[i].policies
                               + [RetentionPolicyInfo(name, replicaN, duration, ShardGroupDuration(duration), [])]))
  }

  function RemovePolicy(d: Metadata, database: string, name: string): Result<Metadata, Error> {
    var i := DatabaseAt(d.databases, database);
    if i == |d.databases| then Err(DatabaseNotFound)
    else if d.databases[i].defaultPolicy == name then Err(RetentionPolicyDefault)
    else
      var ps := d.databases[i].policies;
      var j := PolicyAt(ps, name);
      if j == |ps| then Err(RetentionPolicyNotFound) else Ok(WithPolicies(d, i, ps[..j] + ps[j + 1..]))
  }

  function MakeDefault(d: Metadata, database: string, name: string): Result<Metadata, Error> {
    var i := DatabaseAt(d.databases, database);
    if i == |d.databases| then Err(DatabaseNotFound)
    else if PolicyAt(d.databases[i].policies, name) == |d.databases[i].policies| then Err(RetentionPolicyNotFound)
    else Ok(d.(databases := d.databases[i := d.databases[i].(defaultPolicy := name)]))
  }

  function Updated(p: RetentionPolicyInfo, u: PolicyUpdate): RetentionPolicyInfo {
    p.(name := if u.name.Some? then u.name.value else p.name,
       duration := if u.duration.Some? then u.duration.value else p.duration,
       shardGroupDuration := if u.duration.Some? then ShardGroupDuration(u.duration.value) else p.shardGroupDuration,
       replicaN := if u.replicaN.Some? then u.replicaN.value else p.replicaN)
  }

  function ChangePolicy(d: Metadata, database: string, name: string, u: PolicyUpdate): Result<Metadata, Error> {
    var i := DatabaseAt(d.databases, database);
    if i == |d.databases| then Err(DatabaseNotFound)
    else
      var ps := d.databases[i].policies;
      var j := PolicyAt(ps, name);
      if j == |ps| then Err(RetentionPolicyNotFound)
      else if u.name.Some? && u.name.value != name && PolicyAt(ps, u.name.value) < |ps| then Err(RetentionPolicyNameExists)
      else if u.duration.Some? && u.duration.value < HOUR && u.duration.value != 0 then Err(RetentionPolicyDurationTooLow)
      else Ok(WithPolicies(d, i, ps[j := Updated(ps[j], u)]))
  }

  datatype Place = Place(i: nat, j: nat)

  predicate IsPlace(dbs: seq<DatabaseInfo>, at: Place) {
    at.i < |dbs| && at.j < |dbs[at.i].policies|
  }

  function PolicyIn(dbs: seq<DatabaseInfo>, at: Place): RetentionPolicyInfo
    requires IsPlace(dbs, at)
  {
    dbs[at.i].policies[at.j]
  }

  /** Where a policy is, or why it is nowhere. */
  function Locate(dbs: seq<DatabaseInfo>, database: string, policy: string): (r: Result<Place, Error>)
    ensures r.Ok? ==> IsPlace(dbs, r.value) && PolicyIn(dbs, r.value).name == policy
  {
    var i := DatabaseAt(dbs, database);
    if i == |dbs| then Err(DatabaseNotFound)
    else
      var j := PolicyAt(dbs[i].policies, policy);
      if j == |dbs[i].policies| then Err(RetentionPolicyNotFound) else Ok(Place(i, j))
  }

  function WithGroups(d: Metadata, at: Place, gs: seq<ShardGroupInfo>): Metadata
    requires IsPlace(d.databases, at)
  {
    WithPolicies(d, at.i, d.databases[at.i].policies[at.j := PolicyIn(d.databases, at).(shardGroups := gs)])
  }

  function RemoveGroup(d: Metadata, database: string, policy: string, id: nat, now: Now): Result<Metadata, Error> {
    var r := Locate(d.databases, database, policy);
    if r.Err? then Err(r.error)
    else
      var gs := PolicyIn(d.databases, r.value).shardGroups;
      var k := GroupAt(gs, id);
      if k == |gs| then Err(ShardGroupNotFound) else Ok(WithGroups(d, r.value, gs[k := gs[k].(deletedAt := now)]))
  }

  /** At least one replica, at most one per node. */
  function Replicas(replicaN: nat, nodeN: nat): (r: nat)
    requires nodeN > 0
    ensures 1 <= r <= nodeN
  {
    if replicaN == 0 then 1 else if replicaN > nodeN then nodeN else replicaN
  }

  /** `n` nodes dealt round robin, from a position on. */
  function Deal(nodes: seq<NodeInfo>, from: nat, n: nat): seq<nat>
    requires nodes != []
  {
    seq<nat>(n, k requires 0 <= k => nodes[(from + k) % |nodes|].id)
  }

  /** How many nodes have been dealt to the first `n` shards. */
  function Dealt(n: nat, replicas: nat): nat {
    n * replicas
  }

  /** The first `n` shards of a new group. */
  function NewShards(nodes: seq<NodeInfo>, maxShardID: nat, from: nat, replicas: nat, n: nat): (s: seq<ShardInfo>)
    requires nodes != []
    ensures |s| == n
  {
    if n == 0 then []
    else NewShards(nodes, maxShardID, from, replicas, n - 1)
         + [ShardInfo(maxShardID + n, Deal(nodes, from + Dealt(n - 1, replicas), replicas))]
  }

  function NewGroup(d: Metadata, p: RetentionPolicyInfo, t: int): ShardGroupInfo
    requires d.nodes != []
  {
    var replicas := Replicas(p.replicaN, |d.nodes|);
    var start := Truncate(t, p.shardGroupDuration);
    ShardGroupInfo(d.maxShardGroupID + 1, start, start + p.shardGroupDuration, 0,
                   NewShards(d.nodes, d.maxShardID, d.index % |d.nodes|, replicas, |d.nodes| / replicas))
  }

  predicate SortedByStart(gs: seq<ShardGroupInfo>) {
    forall m, n :: 0 <= m < n < |gs| ==> gs[m].start <= gs[n].start
  }

  /** Sorting is known by its contract alone: groups that start together may end up in any order. */
  predicate IsSortOf(r: seq<ShardGroupInfo>, gs: seq<ShardGroupInfo>) {
    SortedByStart(r) && multiset(r) == multiset(gs)
  }

  function Grown(d: Metadata, at: Place, t: int, gs: seq<ShardGroupInfo>): Metadata
    requires d.nodes != [] && IsPlace(d.databases, at)
  {
    WithGroups(d, at, gs).(
      maxShardGroupID := d.maxShardGroupID + 1,
      maxShardID := d.maxShardID + |NewGroup(d, PolicyIn(d.databases, at), t).shards|)
  }

  ghost predicate AddsGroup(d: Metadata, database: string, policy: string, t: int, r: Result<Metadata, Error>) {
    var at := Locate(d.databases, database, policy);
    if d.nodes == [] then r == Err(NodesRequired)
    else if at.Err? then r == Err(at.error)
    else
      var p := PolicyIn(d.databases, at.value);
      if GroupByTimestamp(p.shardGroups, t) < |p.shardGroups| then r == Err(ShardGroupExists)
      else r.Ok? && exists gs :: IsSortOf(gs, p.shardGroups + [NewGroup(d, p, t)]) && r.value == Grown(d, at.value, t, gs)
  }

  /** The outcomes a command may have. */
  ghost predicate Outcome(d: Metadata, c: Command, r: Result<Metadata, Error>) {
    match c
    case CreateNode(host, rand) => r == AddNode(d, host, rand)
    case UpdateNode(id, host) => r == MoveNode(d, id, host)
    case DeleteNode(id, force) => r == RemoveNode(d, id, force)
    case CreateDatabase(name) => r == AddDatabase(d, name)
    case DropDatabase(name) => r == RemoveDatabase(d, name)
    case CreateRetentionPolicy(db, name, n, duration) => r == AddPolicy(d, db, name, n, duration)
    case DropRetentionPolicy(db, name) => r == RemovePolicy(d, db, name)
    case SetDefaultRetentionPolicy(db, name) => r == MakeDefault(d, db, name)
    case UpdateRetentionPolicy(db, name, u) => r == ChangePolicy(d, db, name, u)
    case CreateShardGroup(db, policy, t) => AddsGroup(d, db, policy, t, r)
    case DeleteShardGroup(db, policy, id, now) => r == RemoveGroup(d, db, policy, id, now)
    case Other => r == Ok(d)
  }

  /** `storeFSM.Apply`: a failed command changes nothing but the term and index. */
  ghost predicate Step(d: Metadata, c: Command, d': Metadata) {
    exists r :: Outcome(d, c, r) && d' == (if r.Ok? then r.value else d).(term := d'.term, index := d'.index)
  }
}
