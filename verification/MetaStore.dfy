/** The metadata as it is updated in place (meta/data.go), and the state machine around it (meta/store.go). */
module MetaStore {
  import opened Values
  import opened TimeGrid
  import opened ClusterData
  import opened ClusterRuns
  import ClusterTime
  import opened Sequences

  // ----- Searches -----

  method FindNode(nodes: seq<NodeInfo>, id: nat) returns (i: nat)
    ensures i == NodeAt(nodes, id)
  {
    i := 0;
    while i < |nodes|
      invariant i <= |nodes| && forall k :: 0 <= k < i ==> nodes[k].id != id
    {
      if nodes[i].id == id {
        break;
      }
      i := i + 1;
    }
  }

  method FindHost(nodes: seq<NodeInfo>, host: string) returns (i: nat)
    ensures i == HostAt(nodes, host)
  {
    i := 0;
    while i < |nodes|
      invariant i <= |nodes| && forall k :: 0 <= k < i ==> nodes[k].host != host
    {
      if nodes[i].host == host {
        break;
      }
      i := i + 1;
    }
  }

  method FindDatabase(dbs: seq<DatabaseInfo>, name: string) returns (i: nat)
    ensures i == DatabaseAt(dbs, name)
  {
    i := 0;
    while i < |dbs|
      invariant i <= |dbs| && forall k :: 0 <= k < i ==> dbs[k].name != name
    {
      if dbs[i].name == name {
        break;
      }
      i := i + 1;
    }
  }

  method FindPolicy(ps: seq<RetentionPolicyInfo>, name: string) returns (j: nat)
    ensures j == PolicyAt(ps, name)
  {
    j := 0;
    while j < |ps|
      invariant j <= |ps| && forall k :: 0 <= k < j ==> ps[k].name != name
    {
      if ps[j].name == name {
        break;
      }
      j := j + 1;
    }
  }

  method FindGroup(gs: seq<ShardGroupInfo>, id: nat) returns (k: nat)
    ensures k == GroupAt(gs, id)
  {
    k := 0;
    while k < |gs|
      invariant k <= |gs| && forall n :: 0 <= n < k ==> gs[n].id != id
    {
      if gs[k].id == id {
        break;
      }
      k := k + 1;
    }
  }

  /** `RetentionPolicyInfo.ShardGroupByTimestamp`. */
  method FindServing(gs: seq<ShardGroupInfo>, t: int) returns (k: nat)
    ensures k == GroupByTimestamp(gs, t)
  {
    k := 0;
    while k < |gs|
      invariant k <= |gs| && forall n :: 0 <= n < k ==> !Serves(gs[n], t)
    {
      if gs[k].Contains(t) && !gs[k].Deleted() {
        break;
      }
      k := k + 1;
    }
  }

  method FindPlace(dbs: seq<DatabaseInfo>, database: string, policy: string) returns (r: Result<Place, Error>)
    ensures r == Locate(dbs, database, policy)
  {
    var i := FindDatabase(dbs, database);
    if i == |dbs| {
      return Err(DatabaseNotFound);
    }
    var j := FindPolicy(dbs[i].policies, policy);
    if j == |dbs[i].policies| {
      return Err(RetentionPolicyNotFound);
    }
    return Ok(Place(i, j));
  }

  // ----- Loops of DeleteNode -----

  method HasLastCopy(g: ShardGroupInfo, id: nat) returns (found: bool)
    ensures found <==> LastCopy(g, id)
  {
    for k := 0 to |g.shards|
      invariant forall n :: 0 <= n < k ==> g.shards[n].owners != [id]
    {
      if id in g.shards[k].owners && |g.shards[k].owners| == 1 {
        assert g.shards[k].owners == [id];
        assert g.shards[k] in g.shards;
        return true;
      }
    }
    return false;
  }

  method PolicyHasLastCopy(p: RetentionPolicyInfo, id: nat) returns (found: bool)
    ensures found <==> exists g :: g in p.shardGroups && LastCopy(g, id)
  {
    for k := 0 to |p.shardGroups|
      invariant forall n :: 0 <= n < k ==> !LastCopy(p.shardGroups[n], id)
    {
      found := HasLastCopy(p.shardGroups[k], id);
      if found {
        assert p.shardGroups[k] in p.shardGroups;
        return;
      }
    }
    return false;
  }

  method DatabaseHasLastCopy(db: DatabaseInfo, id: nat) returns (found: bool)
    ensures found <==> LastCopyIn(db, id)
  {
    hide LastCopy;
    for k := 0 to |db.policies|
      invariant forall n, g :: 0 <= n < k && db.policies[n].replicaN <= 1 && g in db.policies[n].shardGroups ==> !LastCopy(g, id)
    {
      if db.policies[k].replicaN > 1 {
        continue;
      }
      found := PolicyHasLastCopy(db.policies[k], id);
      if found {
        assert db.policies[k] in db.policies;
        return;
      }
    }
    return false;
  }

  method IsUnreplicated(dbs: seq<DatabaseInfo>, id: nat) returns (found: bool)
    ensures found <==> Unreplicated(dbs, id)
  {
    hide LastCopyIn;
    for k := 0 to |dbs|
      invariant forall n :: 0 <= n < k ==> !LastCopyIn(dbs[n], id)
    {
      found := DatabaseHasLastCopy(dbs[k], id);
      if found {
        assert dbs[k] in dbs;
        return;
      }
    }
    return false;
  }

  lemma {:induction false} WithoutAbsent(ids: seq<nat>, id: nat)
    requires id !in ids
    ensures Without(ids, id) == ids
  {
    if ids != [] {
      WithoutAbsent(ids[..|ids| - 1], id);
    }
  }

  method RemoveOwner(s: ShardInfo, id: nat) returns (r: ShardInfo)
    ensures r == StripShard(s, id)
  {
    if id !in s.owners {
      WithoutAbsent(s.owners, id);
      return s;
    }
    var owners: seq<nat> := [];
    for k := 0 to |s.owners|
      invariant owners == Without(s.owners[..k], id)
    {
      assert s.owners[..k + 1][..k] == s.owners[..k];
      if s.owners[k] != id {
        owners := owners + [s.owners[k]];
      }
    }
    assert s.owners[..|s.owners|] == s.owners;
    return s.(owners := owners);
  }

  method RemoveOwners(g: ShardGroupInfo, id: nat) returns (r: ShardGroupInfo)
    ensures r == StripGroup(g, id)
  {
    hide StripShard;
    var shards := g.shards;
    for k := 0 to |shards|
      invariant |shards| == |g.shards|
      invariant forall n :: 0 <= n < k ==> shards[n] == StripShard(g.shards[n], id)
      invariant forall n :: k <= n < |shards| ==> shards[n] == g.shards[n]
    {
      var s := RemoveOwner(shards[k], id);
      shards := shards[k := s];
    }
    assert shards == StripGroup(g, id).shards;
    return g.(shards := shards);
  }

  method RemoveFromPolicy(p: RetentionPolicyInfo, id: nat) returns (r: RetentionPolicyInfo)
    ensures r == StripPolicy(p, id)
  {
    hide StripGroup;
    var gs := p.shardGroups;
    for k := 0 to |gs|
      invariant |gs| == |p.shardGroups|
      invariant forall n :: 0 <= n < k ==> gs[n] == StripGroup(p.shardGroups[n], id)
      invariant forall n :: k <= n < |gs| ==> gs[n] == p.shardGroups[n]
    {
      var g := RemoveOwners(gs[k], id);
      gs := gs[k := g];
    }
    assert gs == StripPolicy(p, id).shardGroups;
    return p.(shardGroups := gs);
  }

  method RemoveFromDatabase(db: DatabaseInfo, id: nat) returns (r: DatabaseInfo)
    ensures r == StripDatabase(db, id)
  {
    hide StripPolicy;
    var ps := db.policies;
    for k := 0 to |ps|
      invariant |ps| == |db.policies|
      invariant forall n :: 0 <= n < k ==> ps[n] == StripPolicy(db.policies[n], id)
      invariant forall n :: k <= n < |ps| ==> ps[n] == db.policies[n]
    {
      var p := RemoveFromPolicy(ps[k], id);
      ps := ps[k := p];
    }
    assert ps == StripDatabase(db, id).policies;
    return db.(policies := ps);
  }

  method RemoveFromDatabases(dbs: seq<DatabaseInfo>, id: nat) returns (r: seq<DatabaseInfo>)
    ensures r == StripDatabases(dbs, id)
  {
    hide StripDatabase;
    r := dbs;
    for k := 0 to |r|
      invariant |r| == |dbs|
      invariant forall n :: 0 <= n < k ==> r[n] == StripDatabase(dbs[n], id)
      invariant forall n :: k <= n < |r| ==> r[n] == dbs[n]
    {
      var db := RemoveFromDatabase(r[k], id);
      r := r[k := db];
    }
  }

  method OtherNodes(nodes: seq<NodeInfo>, id: nat) returns (r: seq<NodeInfo>)
    ensures r == NodesWithout(nodes, id)
  {
    r := [];
    for k := 0 to |nodes|
      invariant r == NodesWithout(nodes[..k], id)
    {
      assert nodes[..k + 1][..k] == nodes[..k];
      if nodes[k].id == id {
        continue;
      }
      r := r + [nodes[k]];
    }
    assert nodes[..|nodes|] == nodes;
  }

  // ----- Loops of CreateShardGroup -----

  method NewShardList(maxShardID: nat, n: nat) returns (shards: seq<ShardInfo>)
    ensures |shards| == n && forall i :: 0 <= i < n ==> shards[i] == ShardInfo(maxShardID + 1 + i, [])
  {
    shards := [];
    for i := 0 to n
      invariant |shards| == i && forall k :: 0 <= k < i ==> shards[k] == ShardInfo(maxShardID + 1 + k, [])
    {
      shards := shards + [ShardInfo(maxShardID + 1 + i, [])];
    }
  }

  method AssignShard(nodes: seq<NodeInfo>, s: ShardInfo, replicaN: nat, nodeIndex: nat) returns (r: ShardInfo)
    requires nodes != [] && s.owners == []
    ensures r == ShardInfo(s.id, Deal(nodes, nodeIndex, replicaN))
  {
    r := s;
    for j := 0 to replicaN
      invariant r == ShardInfo(s.id, Deal(nodes, nodeIndex, j))
    {
      r := r.(owners := r.owners + [nodes[(nodeIndex + j) % |nodes|].id]);
      assert r.owners == Deal(nodes, nodeIndex, j + 1);
    }
  }

  /** Nodes are dealt to the shards round robin, from a position the log index gives. */
  method AssignNodes(nodes: seq<NodeInfo>, shards: seq<ShardInfo>, maxShardID: nat, replicaN: nat, from: nat) returns (r: seq<ShardInfo>)
    requires nodes != [] && forall i :: 0 <= i < |shards| ==> shards[i] == ShardInfo(maxShardID + 1 + i, [])
    ensures r == NewShards(nodes, maxShardID, from, replicaN, |shards|)
  {
    r := [];
    var nodeIndex := from;
    for i := 0 to |shards|
      invariant nodeIndex == from + Dealt(i, replicaN)
      invariant r == NewShards(nodes, maxShardID, from, replicaN, i)
    {
      hide Deal, Dealt;
      var s := AssignShard(nodes, shards[i], replicaN, nodeIndex);
      r := r + [s];
      nodeIndex := nodeIndex + replicaN;
      DealtNext(i + 1, replicaN);
    }
  }

  /** The groups in order of start time. */
  method SortGroups(gs: seq<ShardGroupInfo>) returns (r: seq<ShardGroupInfo>)
    ensures IsSortOf(r, gs)
  {
    r := Sort(gs, (a: ShardGroupInfo, b: ShardGroupInfo) => a.start < b.start);
  }

  // ----- The metadata object -----

  /** A method's error, if any, and the metadata after it. */
  ghost predicate Did(r: Result<Metadata, Error>, before: Metadata, err: Option<Error>, after: Metadata) {
    if err.None? then r == Ok(after) else r == Err(err.value) && after == before
  }

  class Data {
    var term: nat
    var index: nat
    var clusterID: nat
    var nodes: seq<NodeInfo>
    var databases: seq<DatabaseInfo>
    var maxNodeID: nat
    var maxShardGroupID: nat
    var maxShardID: nat

    function View(): Metadata
      reads this
    {
      Metadata(term, index, clusterID, nodes, databases, maxNodeID, maxShardGroupID, maxShardID)
    }

    constructor ()
      ensures View() == EMPTY
    {
      term, index, clusterID, nodes, databases := 0, 0, 0, [], [];
      maxNodeID, maxShardGroupID, maxShardID := 0, 0, 0;
    }

    /** `Clone`: a deep copy. */
    constructor Clone(d: Data)
      ensures View() == d.View()
    {
      term, index, clusterID, nodes, databases := d.term, d.index, d.clusterID, d.nodes, d.databases;
      maxNodeID, maxShardGroupID, maxShardID := d.maxNodeID, d.maxShardGroupID, d.maxShardID;
    }

    method CreateNode(host: string) returns (err: Option<Error>)
      modifies this
      ensures Did(AddNode(old(View()), host, 0), old(View()), err, View())
    {
      var i := FindHost(nodes, host);
      if i < |nodes| {
        return Some(NodeExists);
      }
      maxNodeID := maxNodeID + 1;
      nodes := nodes + [NodeInfo(maxNodeID, host)];
      return None;
    }

    method DeleteNode(id: nat, force: bool) returns (err: Option<Error>)
      modifies this
      ensures Did(RemoveNode(old(View()), id, force), old(View()), err, View())
    {
      hide NodeAt, Unreplicated, StripDatabases, NodesWithout;
      if id == 0 {
        return Some(NodeIDRequired);
      }
      var i := FindNode(nodes, id);
      if i == |nodes| {
        return Some(NodeNotFound);
      }
      if |nodes| == 1 {
        return Some(NodeUnableToDropFinalNode);
      }
      if !force {
        var last := IsUnreplicated(databases, id);
        if last {
          return Some(ShardNotReplicated);
        }
      }
      databases := RemoveFromDatabases(databases, id);
      nodes := OtherNodes(nodes, id);
      return None;
    }

    method CreateDatabase(name: string) returns (err: Option<Error>)
      modifies this
      ensures Did(AddDatabase(old(View()), name), old(View()), err, View())
    {
      if name == "" {
        return Some(DatabaseNameRequired);
      }
      var i := FindDatabase(databases, name);
      if i < |databases| {
        return Some(DatabaseExists);
      }
      databases := databases + [DatabaseInfo(name, "", [])];
      return None;
    }

    method DropDatabase(name: string) returns (err: Option<Error>)
      modifies this
      ensures Did(RemoveDatabase(old(View()), name), old(View()), err, View())
    {
      var i := FindDatabase(databases, name);
      if i == |databases| {
        return Some(DatabaseNotFound);
      }
      databases := databases[..i] + databases[i + 1..];
      return None;
    }

    method CreateRetentionPolicy(database: string, name: string, replicaN: nat, duration: int) returns (err: Option<Error>)
      modifies this
      ensures Did(AddPolicy(old(View()), database, name, replicaN, duration), old(View()), err, View())
    {
      if name == "" {
        return Some(RetentionPolicyNameRequired);
      } else if replicaN < 1 {
        return Some(ReplicationFactorTooLow);
      }
      var i := FindDatabase(databases, database);
      if i == |databases| {
        return Some(DatabaseNotFound);
      }
      var j := FindPolicy(databases[i].policies, name);
      if j < |databases[i].policies| {
        return Some(RetentionPolicyExists);
      }
      var p := RetentionPolicyInfo(name, replicaN, duration, ShardGroupDuration(duration), []);
      databases := databases[i := databases[i].(policies := databases[i].policies + [p])];
      return None;
    }

    method DropRetentionPolicy(database: string, name: string) returns (err: Option<Error>)
      modifies this
      ensures Did(RemovePolicy(old(View()), database, name), old(View()), err, View())
    {
      var i := FindDatabase(databases, database);
      if i == |databases| {
        return Some(DatabaseNotFound);
      }
      if databases[i].defaultPolicy == name {
        return Some(RetentionPolicyDefault);
      }
      var ps := databases[i].policies;
      var j := FindPolicy(ps, name);
      if j == |ps| {
        return Some(RetentionPolicyNotFound);
      }
      databases := databases[i := databases[i].(policies := ps[..j] + ps[j + 1..])];
      return None;
    }

    method SetDefaultRetentionPolicy(database: string, name: string) returns (err: Option<Error>)
      modifies this
      ensures Did(MakeDefault(old(View()), database, name), old(View()), err, View())
    {
      var i := FindDatabase(databases, database);
      if i == |databases| {
        return Some(DatabaseNotFound);
      }
      var j := FindPolicy(databases[i].policies, name);
      if j == |databases[i].policies| {
        return Some(RetentionPolicyNotFound);
      }
      databases := databases[i := databases[i].(defaultPolicy := name)];
      return None;
    }

    method UpdateRetentionPolicy(database: string, name: string, u: PolicyUpdate) returns (err: Option<Error>)
      modifies this
      ensures Did(ChangePolicy(old(View()), database, name, u), old(View()), err, View())
    {
      var i := FindDatabase(databases, database);
      if i == |databases| {
        return Some(DatabaseNotFound);
      }
      var ps := databases[i].policies;
      var j := FindPolicy(ps, name);
      if j == |ps| {
        return Some(RetentionPolicyNotFound);
      }
      if u.name.Some? && u.name.value != name {
        var other := FindPolicy(ps, u.name.value);
        if other < |ps| {
          return Some(RetentionPolicyNameExists);
        }
      }
      if u.duration.Some? && u.duration.value < HOUR && u.duration.value != 0 {
        return Some(RetentionPolicyDurationTooLow);
      }
      var p := ps[j];
      if u.name.Some? {
        p := p.(name := u.name.value);
      }
      if u.duration.Some? {
        p := p.(duration := u.duration.value);
        p := p.(shardGroupDuration := ShardGroupDuration(p.duration));
      }
      if u.replicaN.Some? {
        p := p.(replicaN := u.replicaN.value);
      }
      databases := databases[i := databases[i].(policies := ps[j := p])];
      return None;
    }

    method DeleteShardGroup(database: string, policy: string, id: nat, now: Now) returns (err: Option<Error>)
      modifies this
      ensures Did(RemoveGroup(old(View()), database, policy, id, now), old(View()), err, View())
    {
      var r := FindPlace(databases, database, policy);
      if r.Err? {
        return Some(r.error);
      }
      var at := r.value;
      var p := PolicyIn(databases, at);
      var k := FindGroup(p.shardGroups, id);
      if k == |p.shardGroups| {
        return Some(ShardGroupNotFound);
      }
      p := p.(shardGroups := p.shardGroups[k := p.shardGroups[k].(deletedAt := now)]);
      databases := databases[at.i := databases[at.i].(policies := databases[at.i].policies[at.j := p])];
      return None;
    }

    method CreateShardGroup(database: string, policy: string, timestamp: int) returns (err: Option<Error>)
      modifies this
      ensures AddsGroup(old(View()), database, policy, timestamp, if err.None? then Ok(View()) else Err(err.value))
      ensures err.Some? ==> View() == old(View())
    {
      if |nodes| == 0 {
        return Some(NodesRequired);
      }
      var r := FindPlace(databases, database, policy);
      if r.Err? {
        return Some(r.error);
      }
      var at := r.value;
      var p := PolicyIn(databases, at);
      var k := FindServing(p.shardGroups, timestamp);
      if k < |p.shardGroups| {
        return Some(ShardGroupExists);
      }
      var g := MakeGroup(p, timestamp);
      var gs := SortGroups(p.shardGroups + [g]);
      databases := databases[at.i := databases[at.i].(policies := databases[at.i].policies[at.j := p.(shardGroups := gs)])];
      maxShardGroupID := maxShardGroupID + 1;
      maxShardID := maxShardID + |g.shards|;
      assert View() == Grown(old(View()), at, timestamp, gs);
      return None;
    }

    /** The group to add, with its shards dealt to the nodes. */
    method MakeGroup(p: RetentionPolicyInfo, timestamp: int) returns (g: ShardGroupInfo)
      requires nodes != []
      ensures g == NewGroup(View(), p, timestamp)
    {
      var replicaN := p.replicaN;
      if replicaN == 0 {
        replicaN := 1;
      } else if replicaN > |nodes| {
        replicaN := |nodes|;
      }
      var shardN := |nodes| / replicaN;
      var start := Truncate(timestamp, p.shardGroupDuration);
      var shards := NewShardList(maxShardID, shardN);
      shards := AssignNodes(nodes, shards, maxShardID, replicaN, index % |nodes|);
      g := ShardGroupInfo(maxShardGroupID + 1, start, start + p.shardGroupDuration, 0, shards);
    }
  }

  // ----- The state machine -----

  /** A command's error, if any, and the metadata after it, as one of its outcomes. */
  ghost predicate Applied(d: Metadata, c: Command, err: Option<Error>, d': Metadata) {
    if err.None? then Outcome(d, c, Ok(d')) else Outcome(d, c, Err(err.value)) && d' == d
  }

  lemma OutcomeKeepsTerm(d: Metadata, c: Command, r: Result<Metadata, Error>)
    requires Outcome(d, c, r) && r.Ok?
    ensures r.value.term == d.term && r.value.index == d.index
  {
  }

  lemma AppliedStep(d: Metadata, c: Command, err: Option<Error>, d': Metadata, term: nat, index: nat)
    requires Applied(d, c, err, d')
    ensures Step(d, c, d'.(term := term, index := index))
    ensures Sound(d) ==> Sound(d'.(term := term, index := index))
    ensures d'.term == d.term && d'.index == d.index
  {
    hide Outcome, Sound;
    var r: Result<Metadata, Error> := if err.None? then Ok(d') else Err(err.value);
    assert Outcome(d, c, r);
    if r.Ok? {
      OutcomeKeepsTerm(d, c, r);
    }
    var after := d'.(term := term, index := index);
    assert after == (if r.Ok? then r.value else d).(term := after.term, index := after.index);
    if Sound(d) {
      StepKept(d, c, after);
    }
  }

  class Store {
    var data: Data

    constructor ()
      ensures fresh(data) && data.View() == EMPTY
    {
      data := new Data();
    }

    /** The `apply*Command` steps, on a copy of the metadata. */
    static method Execute(other: Data, c: Command) returns (err: Option<Error>)
      modifies other
      ensures Applied(old(other.View()), c, err, other.View())
    {
      hide AddNode, MoveNode, RemoveNode, AddsGroup, ChangePolicy, AddPolicy, RemovePolicy, MakeDefault, AddDatabase, RemoveDatabase, RemoveGroup;
      match c
      case CreateNode(host, rand) => err := ExecuteCreateNode(other, host, rand);
      case UpdateNode(id, host) => err := ExecuteUpdateNode(other, id, host);
      case DeleteNode(id, force) => err := other.DeleteNode(id, force);
      case CreateDatabase(name) => err := other.CreateDatabase(name);
      case DropDatabase(name) => err := other.DropDatabase(name);
      case CreateRetentionPolicy(db, name, n, duration) => err := other.CreateRetentionPolicy(db, name, n, duration);
      case DropRetentionPolicy(db, name) => err := other.DropRetentionPolicy(db, name);
      case SetDefaultRetentionPolicy(db, name) => err := other.SetDefaultRetentionPolicy(db, name);
      case UpdateRetentionPolicy(db, name, u) => err := other.UpdateRetentionPolicy(db, name, u);
      case CreateShardGroup(db, policy, t) => err := other.CreateShardGroup(db, policy, t);
      case DeleteShardGroup(db, policy, id, now) => err := other.DeleteShardGroup(db, policy, id, now);
      case Other => err := None;
    }

    static method ExecuteCreateNode(other: Data, host: string, rand: nat) returns (err: Option<Error>)
      modifies other
      ensures Did(AddNode(old(other.View()), host, rand), old(other.View()), err, other.View())
    {
      err := other.CreateNode(host);
      if err.None? && other.clusterID == 0 {
        other.clusterID := rand;
      }
    }

    static method ExecuteUpdateNode(other: Data, id: nat, host: string) returns (err: Option<Error>)
      modifies other
      ensures Did(MoveNode(old(other.View()), id, host), old(other.View()), err, other.View())
    {
      var i := FindNode(other.nodes, id);
      if i == |other.nodes| {
        return Some(NodeNotFound);
      }
      other.nodes := other.nodes[i := other.nodes[i].(host := host)];
      return None;
    }

    /**
     `storeFSM.Apply`. A command that succeeds replaces the metadata by a changed
     copy, so the metadata seen before stays as it was.
     */
    method Apply(term: nat, index: nat, c: Command) returns (err: Option<Error>)
      modifies this, data
      ensures Applied(old(data.View()), c, err, data.View().(term := old(data.term), index := old(data.index)))
      ensures data.term == term && data.index == index
      ensures err.None? ==> fresh(data) && old(data).View() == old(data.View())
      ensures err.Some? ==> data == old(data)
      ensures Step(old(data.View()), c, data.View())
      ensures old(Sound(data.View())) ==> Sound(data.View())
    {
      hide Outcome, Sound;
      var other := new Data.Clone(data);
      err := Execute(other, c);
      AppliedStep(data.View(), c, err, other.View(), term, index);
      if err.None? {
        data := other;
      }
      data.term := term;
      data.index := index;
    }

    ghost predicate Valid()
      reads this, data
    {
      Sound(data.View())
    }

    method ShardGroupByTimestamp(database: string, policy: string, t: int) returns (r: Result<Option<ShardGroupInfo>, Error>)
      ensures r == LookUp(data.View(), database, policy, t)
    {
      var at := FindPlace(data.databases, database, policy);
      if at.Err? {
        return Err(at.error);
      }
      var gs := PolicyIn(data.databases, at.value).shardGroups;
      var k := FindServing(gs, t);
      return Ok(if k < |gs| then Some(gs[k]) else None);
    }

    /** `CreateShardGroup`, at whatever place in the log the command gets. */
    method CreateShardGroup(database: string, policy: string, t: int) returns (r: Result<Option<ShardGroupInfo>, Error>)
      requires Valid()
      modifies this, data
      ensures Valid() && (data == old(data) || fresh(data))
      ensures r.Err? ==> AddsGroup(old(data.View()), database, policy, t, Err(r.error))
      ensures r.Err? ==> data.databases == old(data.databases) && data.nodes == old(data.nodes)
      ensures r.Ok? ==>
        && AddsGroup(old(data.View()), database, policy, t, Ok(data.View().(term := old(data.term), index := old(data.index))))
        && r == LookUp(data.View(), database, policy, t)
    {
      hide Sound, AddsGroup;
      var term: nat, index: nat := *, *;
      ghost var d := data.View();
      var err := Apply(term, index, Command.CreateShardGroup(database, policy, t));
      if err.Some? {
        return Err(err.value);
      }
      ClusterTime.CreationServes(d, database, policy, t, Ok(data.View().(term := d.term, index := d.index)));
      r := ShardGroupByTimestamp(database, policy, t);
    }

    /** `CreateShardGroupIfNotExists`: the group that serves a time, made if there is none. */
    method CreateShardGroupIfNotExists(database: string, policy: string, t: int) returns (r: Result<Option<ShardGroupInfo>, Error>)
      requires Valid()
      modifies this, data
      ensures Valid() && (data == old(data) || fresh(data))
      ensures Ensured(old(data.View()), database, policy, t, data.View(), r)
    {
      hide Sound, AddsGroup, Ensured;
      ghost var d := data.View();
      r := ShardGroupByTimestamp(database, policy, t);
      if r.Err? || r.value.Some? {
        FoundEnsured(d, database, policy, t);
        return;
      }
      r := CreateShardGroup(database, policy, t);
      MadeEnsured(d, database, policy, t, data.View(), r);
      if r == Err(ShardGroupExists) {
        r := ShardGroupByTimestamp(database, policy, t);
      }
    }
  }

  function LookUp(d: Metadata, database: string, policy: string, t: int): Result<Option<ShardGroupInfo>, Error> {
    var at := Locate(d.databases, database, policy);
    if at.Err? then Err(at.error)
    else
      var gs := PolicyIn(d.databases, at.value).shardGroups;
      var k := GroupByTimestamp(gs, t);
      Ok(if k < |gs| then Some(gs[k]) else None)
  }

  /** The policy's groups have gained at most `g`, the cell of the time, and only if no group served the time. */
  ghost predicate GainsAtMost(p: RetentionPolicyInfo, p': RetentionPolicyInfo, t: int, g: ShardGroupInfo) {
    && p' == p.(shardGroups := p'.shardGroups)
    && g in p'.shardGroups && Serves(g, t) && g.shards != []
    && if exists h :: h in p.shardGroups && Serves(h, t) then p'.shardGroups == p.shardGroups
       else && multiset(p'.shardGroups) == multiset(p.shardGroups + [g])
            && g.start == Truncate(t, p.shardGroupDuration) && g.end == g.start + p.shardGroupDuration
  }

  /** No live group of the policy contains the time. */
  ghost predicate Unserved(p: RetentionPolicyInfo, t: int) {
    !exists h :: h in p.shardGroups && Serves(h, t)
  }

  /**
   Asking for the group of a time fails exactly without the policy, or without
   nodes when there is no such group yet. Without nodes no database changes.
   */
  ghost predicate Ensured(d: Metadata, database: string, policy: string, t: int, d': Metadata, r: Result<Option<ShardGroupInfo>, Error>) {
    var at := Locate(d.databases, database, policy);
    && Locate(d'.databases, database, policy) == at && d'.nodes == d.nodes
    && (r.Err? || d.nodes == [] ==> d'.databases == d.databases)
    && (r.Err? ==> || at == Err(r.error)
                   || (at.Ok? && d.nodes == [] && r.error == NodesRequired && Unserved(PolicyIn(d.databases, at.value), t)))
    && (r.Ok? ==> at.Ok? && r.value.Some?
                  && GainsAtMost(PolicyIn(d.databases, at.value), PolicyIn(d'.databases, at.value), t, r.value.value))
  }

  lemma PolicyAtPlace(d: Metadata, at: Place)
    requires Sound(d) && IsPlace(d.databases, at)
    ensures forall g :: g in PolicyIn(d.databases, at).shardGroups ==> g.shards != []
  {
    var p := PolicyIn(d.databases, at);
    var a, b := GroupsReplaced(d, at, []);
    forall g | g in p.shardGroups ensures g.shards != [] {
      assert g in AllGroups(d.databases);
      assert GroupSound(NodeIds(d.nodes), d.maxShardGroupID, d.maxShardID, g);
    }
  }

  lemma FoundEnsured(d: Metadata, database: string, policy: string, t: int)
    requires Sound(d)
    ensures var r := LookUp(d, database, policy, t);
      (r.Err? || r.value.Some?) ==> Ensured(d, database, policy, t, d, r)
  {
    var at := Locate(d.databases, database, policy);
    if at.Ok? {
      PolicyAtPlace(d, at.value);
      hide Sound;
      var gs := PolicyIn(d.databases, at.value).shardGroups;
      var k := GroupByTimestamp(gs, t);
      if k < |gs| {
        assert gs[k] in gs && Serves(gs[k], t);
      }
    }
  }

  lemma MadeEnsured(d: Metadata, database: string, policy: string, t: int, d': Metadata, r: Result<Option<ShardGroupInfo>, Error>)
    requires Sound(d) && LookUp(d, database, policy, t) == Ok(None)
    requires r.Err? ==> AddsGroup(d, database, policy, t, Err(r.error)) && d'.databases == d.databases && d'.nodes == d.nodes
    requires r.Ok? ==> AddsGroup(d, database, policy, t, Ok(d'.(term := d.term, index := d.index))) && r == LookUp(d', database, policy, t)
    ensures Ensured(d, database, policy, t, d', r)
    ensures r != Err(ShardGroupExists)
  {
    if r.Ok? {
      MadeGains(d, database, policy, t, d'.(term := d.term, index := d.index));
    }
  }

  lemma MadeGains(d: Metadata, database: string, policy: string, t: int, d': Metadata)
    requires Sound(d) && LookUp(d, database, policy, t) == Ok(None) && AddsGroup(d, database, policy, t, Ok(d'))
    ensures Locate(d.databases, database, policy).Ok? && Locate(d'.databases, database, policy) == Locate(d.databases, database, policy)
    ensures var at, r := Locate(d.databases, database, policy).value, LookUp(d', database, policy, t);
      r.Ok? && r.value.Some? && GainsAtMost(PolicyIn(d.databases, at), PolicyIn(d'.databases, at), t, r.value.value)
  {
    ClusterTime.CreationServes(d, database, policy, t, Ok(d'));
    var at := Locate(d.databases, database, policy).value;
    var p := PolicyIn(d.databases, at);
    assert PolicySound(p);
    NewGroupSound(d, p, t);
    NewCell(d, p, t);
    var g := NewGroup(d, p, t);
    assert g.start == Truncate(t, p.shardGroupDuration);
    hide Sound, NewGroup, PolicySound, GroupSound;
    var gs :| IsSortOf(gs, p.shardGroups + [g]) && d' == Grown(d, at, t, gs);
    ClusterTime.SameLocation(d, database, policy, gs);
    ClusterTime.OneServes(p.shardGroups, g, gs, t);
    hide AddsGroup, IsSortOf, GroupByTimestamp, Grown;
    assert PolicyIn(d'.databases, at) == p.(shardGroups := gs);
    assert !exists h :: h in p.shardGroups && Serves(h, t);
  }
}
