/**
 What each metadata command does (meta/data.go), as lookups by name and id show it.
 The names of databases and of a database's policies are unique in every run, so that
 a lookup finds the only one.
 */
module ClusterEffects {
  import opened Values
  import opened TimeGrid
  import opened ClusterData
  import opened ClusterRuns
  import opened Sequences

  // ----- Lookups -----

  function DatabaseOf(d: Metadata, name: string): Option<DatabaseInfo> {
    var i := DatabaseAt(d.databases, name);
    if i == |d.databases| then None else Some(d.databases[i])
  }

  function PolicyNamed(ps: seq<RetentionPolicyInfo>, name: string): Option<RetentionPolicyInfo> {
    var j := PolicyAt(ps, name);
    if j == |ps| then None else Some(ps[j])
  }

  function PolicyOf(d: Metadata, database: string, name: string): Option<RetentionPolicyInfo> {
    var db := DatabaseOf(d, database);
    if db.None? then None else PolicyNamed(db.value.policies, name)
  }

  function DefaultOf(d: Metadata, database: string): Option<string> {
    var db := DatabaseOf(d, database);
    if db.None? then None else Some(db.value.defaultPolicy)
  }

  function HostOf(d: Metadata, id: nat): Option<string> {
    var i := NodeAt(d.nodes, id);
    if i == |d.nodes| then None else Some(d.nodes[i].host)
  }

  predicate HasGroup(p: RetentionPolicyInfo, id: nat) {
    exists g :: g in p.shardGroups && g.id == id
  }

  // ----- What stays as it was -----

  /** Nothing but the databases has changed. */
  predicate OnlyDatabases(d: Metadata, d': Metadata) {
    d' == d.(databases := d'.databases)
  }

  ghost predicate PoliciesKept(d: Metadata, d': Metadata, database: string, policies: set<string>) {
    forall x, y :: x != database || y !in policies ==> PolicyOf(d', x, y) == PolicyOf(d, x, y)
  }

  ghost predicate DefaultsKept(d: Metadata, d': Metadata, databases: set<string>) {
    forall x :: x !in databases ==> DefaultOf(d', x) == DefaultOf(d, x)
  }

  /** One policy has become another, under its name; all else is as it was. */
  ghost predicate OnlyPolicyChanged(d: Metadata, d': Metadata, database: string, policy: string, p: RetentionPolicyInfo) {
    && OnlyDatabases(d, d') && PolicyOf(d', database, policy) == Some(p)
    && PoliciesKept(d, d', database, {policy}) && DefaultsKept(d, d', {})
  }

  // ----- Finding after a change -----

  lemma FirstDatabase(dbs: seq<DatabaseInfo>, name: string, i: nat)
    requires i <= |dbs| && (i < |dbs| ==> dbs[i].name == name) && forall k :: 0 <= k < i ==> dbs[k].name != name
    ensures DatabaseAt(dbs, name) == i
  {
  }

  lemma FirstPolicy(ps: seq<RetentionPolicyInfo>, name: string, j: nat)
    requires j <= |ps| && (j < |ps| ==> ps[j].name == name) && forall k :: 0 <= k < j ==> ps[k].name != name
    ensures PolicyAt(ps, name) == j
  {
  }

  /** A database has become another of its name. */
  lemma DatabaseReplaced(d: Metadata, d': Metadata, i: nat, db: DatabaseInfo, x: string)
    requires i < |d.databases| && DatabaseAt(d.databases, d.databases[i].name) == i && db.name == d.databases[i].name
    requires d'.databases == d.databases[i := db]
    ensures DatabaseOf(d', x) == if x == db.name then Some(db) else DatabaseOf(d, x)
  {
    FirstDatabase(d'.databases, x, DatabaseAt(d.databases, x));
  }

  lemma PolicyPut(ps: seq<RetentionPolicyInfo>, j: nat, p: RetentionPolicyInfo, y: string)
    requires j < |ps| && PolicyAt(ps, ps[j].name) == j && p.name == ps[j].name
    ensures PolicyNamed(ps[j := p], y) == if y == p.name then Some(p) else PolicyNamed(ps, y)
  {
    FirstPolicy(ps[j := p], y, PolicyAt(ps, y));
  }

  lemma Located(d: Metadata, database: string, policy: string)
    ensures var r := Locate(d.databases, database, policy);
      && (r == Err(DatabaseNotFound) <==> DatabaseOf(d, database).None?)
      && (r == Err(RetentionPolicyNotFound) <==> DatabaseOf(d, database).Some? && PolicyOf(d, database, policy).None?)
      && (r.Ok? <==> PolicyOf(d, database, policy).Some?)
      && (r.Ok? ==>
           && d.databases[r.value.i].name == database && DatabaseAt(d.databases, database) == r.value.i
           && PolicyAt(d.databases[r.value.i].policies, policy) == r.value.j
           && PolicyOf(d, database, policy) == Some(PolicyIn(d.databases, r.value)))
  {
  }

  lemma GroupsChanged(d: Metadata, database: string, policy: string, gs: seq<ShardGroupInfo>)
    requires PolicyOf(d, database, policy).Some?
    ensures Locate(d.databases, database, policy).Ok?
    ensures var d' := WithGroups(d, Locate(d.databases, database, policy).value, gs);
      OnlyPolicyChanged(d, d', database, policy, PolicyOf(d, database, policy).value.(shardGroups := gs))
  {
    Located(d, database, policy);
    var at := Locate(d.databases, database, policy).value;
    var d' := WithGroups(d, at, gs);
    var p := PolicyIn(d.databases, at).(shardGroups := gs);
    PolicyIsReplaced(d, d', at, p);
  }

  lemma PolicyIsReplaced(d: Metadata, d': Metadata, at: Place, p: RetentionPolicyInfo)
    requires IsPlace(d.databases, at) && p.name == PolicyIn(d.databases, at).name
    requires DatabaseAt(d.databases, d.databases[at.i].name) == at.i
    requires PolicyAt(d.databases[at.i].policies, p.name) == at.j
    requires d' == WithPolicies(d, at.i, d.databases[at.i].policies[at.j := p])
    ensures OnlyPolicyChanged(d, d', d.databases[at.i].name, p.name, p)
  {
    var db := d.databases[at.i];
    var db' := db.(policies := db.policies[at.j := p]);
    forall x ensures DatabaseOf(d', x) == if x == db.name then Some(db') else DatabaseOf(d, x) {
      DatabaseReplaced(d, d', at.i, db', x);
    }
    forall y ensures PolicyNamed(db'.policies, y) == if y == p.name then Some(p) else PolicyNamed(db.policies, y) {
      PolicyPut(db.policies, at.j, p, y);
    }
    assert DatabaseOf(d, db.name) == Some(db);
    hide DatabaseOf, PolicyNamed;
  }

  // ----- The commands on shard groups -----

  /** `DeleteShardGroup` marks the group of the id, in the policy named, and changes nothing else. */
  lemma GroupDeleted(d: Metadata, database: string, policy: string, id: nat, now: Now, r: Result<Metadata, Error>)
    requires Outcome(d, DeleteShardGroup(database, policy, id, now), r)
    ensures r == Err(DatabaseNotFound) <==> DatabaseOf(d, database).None?
    ensures r == Err(RetentionPolicyNotFound) <==> DatabaseOf(d, database).Some? && PolicyOf(d, database, policy).None?
    ensures r == Err(ShardGroupNotFound) <==>
              PolicyOf(d, database, policy).Some? && !HasGroup(PolicyOf(d, database, policy).value, id)
    ensures r.Ok? <==> PolicyOf(d, database, policy).Some? && HasGroup(PolicyOf(d, database, policy).value, id)
    ensures r.Ok? ==>
              var p := PolicyOf(d, database, policy).value;
              exists gs :: OnlyPolicyChanged(d, r.value, database, policy, p.(shardGroups := gs)) && Marked(p.shardGroups, gs, id, now)
  {
    Located(d, database, policy);
    if PolicyOf(d, database, policy).Some? {
      var p := PolicyOf(d, database, policy).value;
      var k := GroupAt(p.shardGroups, id);
      if k < |p.shardGroups| {
        assert p.shardGroups[k] in p.shardGroups;
        var gs := p.shardGroups[k := p.shardGroups[k].(deletedAt := now)];
        GroupsChanged(d, database, policy, gs);
        assert Marked(p.shardGroups, gs, id, now);
      }
    }
    hide OnlyPolicyChanged, Marked, DatabaseOf, PolicyOf;
  }

  /** A group of this id, the only one if ids are unique, is marked deleted at this time; the others are as they were. */
  ghost predicate Marked(gs: seq<ShardGroupInfo>, gs': seq<ShardGroupInfo>, id: nat, now: int) {
    && |gs'| == |gs|
    && (forall k :: 0 <= k < |gs| && gs[k].id != id ==> gs'[k] == gs[k])
    && exists k :: 0 <= k < |gs| && gs[k].id == id && gs'[k] == gs[k].(deletedAt := now) && forall n :: 0 <= n < |gs| && n != k ==> gs'[n] == gs[n]
  }

  lemma PolicyIdsUnique(d: Metadata, at: Place, m: nat, n: nat)
    requires Sound(d) && IsPlace(d.databases, at) && m < n < |PolicyIn(d.databases, at).shardGroups|
    ensures PolicyIn(d.databases, at).shardGroups[m].id != PolicyIn(d.databases, at).shardGroups[n].id
  {
    MarkedGroups(d, at, m, 0);
    MarkedGroups(d, at, n, 0);
    var all, before := AllGroups(d.databases), GroupsBefore(d.databases, at);
    assert Unlike(all[before + m], all[before + n]);
  }

  /** In a sound state the groups of a policy have different ids, so the group marked is the only one of its id. */
  lemma OnlyOneMarked(d: Metadata, database: string, policy: string, id: nat, now: Now, gs: seq<ShardGroupInfo>)
    requires Sound(d) && PolicyOf(d, database, policy).Some?
    requires Marked(PolicyOf(d, database, policy).value.shardGroups, gs, id, now)
    ensures forall k :: 0 <= k < |gs| ==>
              var g := PolicyOf(d, database, policy).value.shardGroups[k];
              gs[k] == if g.id == id then g.(deletedAt := now) else g
  {
    Located(d, database, policy);
    var at := Locate(d.databases, database, policy).value;
    var was := PolicyIn(d.databases, at).shardGroups;
    forall m, n | 0 <= m < n < |was| ensures was[m].id != was[n].id {
      PolicyIdsUnique(d, at, m, n);
    }
    hide Sound;
  }

  // ----- Names are unique -----

  predicate PolicyNamesUnique(ps: seq<RetentionPolicyInfo>) {
    forall m, n :: 0 <= m < n < |ps| ==> ps[m].name != ps[n].name
  }

  predicate NamesUnique(d: Metadata) {
    && (forall m, n :: 0 <= m < n < |d.databases| ==> d.databases[m].name != d.databases[n].name)
    && forall i :: 0 <= i < |d.databases| ==> PolicyNamesUnique(d.databases[i].policies)
  }

  lemma DatabaseChangeKeepsNames(d: Metadata, d': Metadata, i: nat, db: DatabaseInfo)
    requires NamesUnique(d) && i < |d.databases| && d'.databases == d.databases[i := db]
    requires db.name == d.databases[i].name && PolicyNamesUnique(db.policies)
    ensures NamesUnique(d')
  {
    hide PolicyNamesUnique;
  }

  lemma PolicyChangeKeepsNames(ps: seq<RetentionPolicyInfo>, j: nat, p: RetentionPolicyInfo)
    requires PolicyNamesUnique(ps) && j < |ps| && (p.name == ps[j].name || PolicyAt(ps, p.name) == |ps|)
    ensures PolicyNamesUnique(ps[j := p])
  {
  }

  lemma PoliciesKeepNames(d: Metadata, d': Metadata, database: string, ps: seq<RetentionPolicyInfo>)
    requires NamesUnique(d) && DatabaseAt(d.databases, database) < |d.databases| && PolicyNamesUnique(ps)
    requires d' == WithPolicies(d, DatabaseAt(d.databases, database), ps)
    ensures NamesUnique(d')
  {
    var i := DatabaseAt(d.databases, database);
    DatabaseChangeKeepsNames(d, d', i, d.databases[i].(policies := ps));
  }

  lemma DatabasesKeepNames(d: Metadata, name: string, d': Metadata)
    requires NamesUnique(d)
    requires AddDatabase(d, name) == Ok(d') || RemoveDatabase(d, name) == Ok(d')
    ensures NamesUnique(d')
  {
    hide PolicyNamesUnique;
    NoPoliciesUnique();
  }

  lemma NoPoliciesUnique()
    ensures PolicyNamesUnique([])
  {
  }

  lemma PolicyListsKeepNames(d: Metadata, c: Command, d': Metadata)
    requires NamesUnique(d) && Outcome(d, c, Ok(d'))
    requires c.CreateRetentionPolicy? || c.DropRetentionPolicy? || c.UpdateRetentionPolicy?
    ensures NamesUnique(d')
  {
    var i := DatabaseAt(d.databases, c.database);
    var ps := d.databases[i].policies;
    assert PolicyNamesUnique(ps);
    var j := PolicyAt(ps, c.name);
    if c.CreateRetentionPolicy? {
      PoliciesKeepNames(d, d', c.database, ps + [RetentionPolicyInfo(c.name, c.replicaN, c.duration, ShardGroupDuration(c.duration), [])]);
    } else if c.DropRetentionPolicy? {
      PoliciesKeepNames(d, d', c.database, ps[..j] + ps[j + 1..]);
    } else {
      PolicyChangeKeepsNames(ps, j, Updated(ps[j], c.update));
      PoliciesKeepNames(d, d', c.database, ps[j := Updated(ps[j], c.update)]);
    }
  }

  lemma GroupListsKeepNames(d: Metadata, c: Command, d': Metadata)
    requires NamesUnique(d) && Outcome(d, c, Ok(d')) && (c.CreateShardGroup? || c.DeleteShardGroup?)
    ensures NamesUnique(d')
  {
    hide NamesUnique;
    var at := Locate(d.databases, c.database, c.policy).value;
    var p := PolicyIn(d.databases, at);
    if c.CreateShardGroup? {
      var gs :| IsSortOf(gs, p.shardGroups + [NewGroup(d, p, c.timestamp)]) && d' == Grown(d, at, c.timestamp, gs);
      RegroupedNames(d, d', at, gs);
    } else {
      var k := GroupAt(p.shardGroups, c.id);
      RegroupedNames(d, d', at, p.shardGroups[k := p.shardGroups[k].(deletedAt := c.now)]);
    }
  }

  lemma OutcomeKeepsNames(d: Metadata, c: Command, d': Metadata)
    requires NamesUnique(d) && Outcome(d, c, Ok(d'))
    ensures NamesUnique(d')
  {
    match c
    case CreateNode(_, _) =>
    case UpdateNode(_, _) =>
    case DeleteNode(id, _) => StrippedNames(d, d', id);
    case CreateDatabase(name) => DatabasesKeepNames(d, name, d');
    case DropDatabase(name) => DatabasesKeepNames(d, name, d');
    case CreateRetentionPolicy(_, _, _, _) => PolicyListsKeepNames(d, c, d');
    case DropRetentionPolicy(_, _) => PolicyListsKeepNames(d, c, d');
    case UpdateRetentionPolicy(_, _, _) => PolicyListsKeepNames(d, c, d');
    case SetDefaultRetentionPolicy(database, _) =>
      var i := DatabaseAt(d.databases, database);
      DatabaseChangeKeepsNames(d, d', i, d'.databases[i]);
    case CreateShardGroup(_, _, _) => GroupListsKeepNames(d, c, d');
    case DeleteShardGroup(_, _, _, _) => GroupListsKeepNames(d, c, d');
    case Other =>
  }

  lemma RegroupedNames(d: Metadata, d': Metadata, at: Place, gs: seq<ShardGroupInfo>)
    requires NamesUnique(d) && IsPlace(d.databases, at) && d'.databases == WithGroups(d, at, gs).databases
    ensures NamesUnique(d')
  {
    PolicyChangeKeepsNames(d.databases[at.i].policies, at.j, PolicyIn(d.databases, at).(shardGroups := gs));
    DatabaseChangeKeepsNames(d, d', at.i, d'.databases[at.i]);
  }

  lemma StrippedNames(d: Metadata, d': Metadata, id: nat)
    requires NamesUnique(d) && d'.databases == StripDatabases(d.databases, id)
    ensures NamesUnique(d')
  {
    forall i | 0 <= i < |d'.databases| ensures PolicyNamesUnique(d'.databases[i].policies) {
      assert PolicyNamesUnique(d.databases[i].policies);
    }
  }

  lemma StepKeepsNames(d: Metadata, c: Command, d': Metadata)
    requires NamesUnique(d) && Step(d, c, d')
    ensures NamesUnique(d')
  {
    var r :| Outcome(d, c, r) && d' == (if r.Ok? then r.value else d).(term := d'.term, index := d'.index);
    if r.Ok? {
      OutcomeKeepsNames(d, c, r.value);
    }
  }

  /** In every run no two databases have the same name, and no two policies of a database. */
  lemma {:induction false} RunNamesUnique(ds: seq<Metadata>, cs: seq<Command>, k: nat)
    requires IsRun(ds, cs) && ds[0] == EMPTY && k < |ds|
    ensures NamesUnique(ds[k])
  {
    hide Step;
    if k > 0 {
      RunNamesUnique(ds, cs, k - 1);
      StepKeepsNames(ds[k - 1], cs[k - 1], ds[k]);
    }
  }

  // ----- The commands on databases and policies -----

  /** `CreateDatabase` adds an empty database of a new name, and changes nothing else. */
  lemma DatabaseCreated(d: Metadata, name: string, r: Result<Metadata, Error>)
    requires Outcome(d, CreateDatabase(name), r)
    ensures r == Err(DatabaseNameRequired) <==> name == ""
    ensures r == Err(DatabaseExists) <==> name != "" && DatabaseOf(d, name).Some?
    ensures r.Ok? <==> name != "" && DatabaseOf(d, name).None?
    ensures r.Ok? ==>
              && OnlyDatabases(d, r.value) && DatabaseOf(r.value, name) == Some(DatabaseInfo(name, "", []))
              && forall x :: x != name ==> DatabaseOf(r.value, x) == DatabaseOf(d, x)
  {
    if r.Ok? {
      forall x ensures DatabaseOf(r.value, x) == if x == name then Some(DatabaseInfo(name, "", [])) else DatabaseOf(d, x) {
        var i := DatabaseAt(d.databases, x);
        FirstDatabase(r.value.databases, x, if i < |d.databases| || x == name then i else i + 1);
      }
    }
  }

  /** `DropDatabase` removes the database of the name, and changes nothing else. */
  lemma DatabaseDropped(d: Metadata, name: string, r: Result<Metadata, Error>)
    requires Outcome(d, DropDatabase(name), r) && NamesUnique(d)
    ensures r == Err(DatabaseNotFound) <==> DatabaseOf(d, name).None?
    ensures r.Ok? <==> DatabaseOf(d, name).Some?
    ensures r.Ok? ==>
              && OnlyDatabases(d, r.value) && DatabaseOf(r.value, name).None?
              && forall x :: x != name ==> DatabaseOf(r.value, x) == DatabaseOf(d, x)
  {
    if r.Ok? {
      var i := DatabaseAt(d.databases, name);
      forall x ensures DatabaseOf(r.value, x) == if x == name then None else DatabaseOf(d, x) {
        var k := DatabaseAt(d.databases, x);
        FirstDatabase(r.value.databases, x, if x == name then |r.value.databases| else if k < i then k else k - 1);
      }
    }
  }

  /** How long the groups of a policy are: an hour, but a day from two days on, and a week from 180 days on and for ever. */
  predicate GroupsLast(duration: int, g: int) {
    && (duration == 0 || duration >= 4320 * HOUR ==> g == 168 * HOUR)
    && (48 * HOUR <= duration < 4320 * HOUR ==> g == 24 * HOUR)
    && (duration < 48 * HOUR && duration != 0 ==> g == HOUR)
  }

  lemma PoliciesOf(d: Metadata, d': Metadata, database: string, ps: seq<RetentionPolicyInfo>)
    requires DatabaseOf(d, database).Some?
    requires d' == WithPolicies(d, DatabaseAt(d.databases, database), ps)
    ensures OnlyDatabases(d, d') && DefaultsKept(d, d', {})
    ensures forall x, y :: PolicyOf(d', x, y) == if x == database then PolicyNamed(ps, y) else PolicyOf(d, x, y)
  {
    var i := DatabaseAt(d.databases, database);
    var db := d.databases[i].(policies := ps);
    forall x ensures DatabaseOf(d', x) == if x == database then Some(db) else DatabaseOf(d, x) {
      DatabaseReplaced(d, d', i, db, x);
    }
    assert DatabaseOf(d, database) == Some(d.databases[i]);
    hide DatabaseOf, PolicyNamed;
  }

  /** `CreateRetentionPolicy` adds a policy without groups, and changes nothing else. */
  lemma PolicyCreated(d: Metadata, database: string, name: string, replicaN: nat, duration: int, r: Result<Metadata, Error>)
    requires Outcome(d, CreateRetentionPolicy(database, name, replicaN, duration), r)
    ensures r == Err(RetentionPolicyNameRequired) <==> name == ""
    ensures r == Err(ReplicationFactorTooLow) <==> name != "" && replicaN == 0
    ensures r == Err(DatabaseNotFound) <==> name != "" && replicaN > 0 && DatabaseOf(d, database).None?
    ensures r == Err(RetentionPolicyExists) <==> name != "" && replicaN > 0 && PolicyOf(d, database, name).Some?
    ensures r.Ok? <==> name != "" && replicaN > 0 && DatabaseOf(d, database).Some? && PolicyOf(d, database, name).None?
    ensures r.Ok? ==>
              && OnlyDatabases(d, r.value) && DefaultsKept(d, r.value, {}) && PoliciesKept(d, r.value, database, {name})
              && exists g :: GroupsLast(duration, g) && PolicyOf(r.value, database, name) == Some(RetentionPolicyInfo(name, replicaN, duration, g, []))
  {
    if r.Ok? {
      var g := ShardGroupDuration(duration);
      var ps := d.databases[DatabaseAt(d.databases, database)].policies;
      var p := RetentionPolicyInfo(name, replicaN, duration, g, []);
      PoliciesOf(d, r.value, database, ps + [p]);
      forall y ensures PolicyNamed(ps + [p], y) == if y == name then Some(p) else PolicyNamed(ps, y) {
        var j := PolicyAt(ps, y);
        FirstPolicy(ps + [p], y, if j < |ps| || y == name then j else j + 1);
      }
      assert GroupsLast(duration, g);
    }
  }

  /** `DropRetentionPolicy` removes a policy other than the default, and changes nothing else. */
  lemma PolicyDropped(d: Metadata, database: string, name: string, r: Result<Metadata, Error>)
    requires Outcome(d, DropRetentionPolicy(database, name), r) && NamesUnique(d)
    ensures r == Err(DatabaseNotFound) <==> DatabaseOf(d, database).None?
    ensures r == Err(RetentionPolicyDefault) <==> DefaultOf(d, database) == Some(name)
    ensures r == Err(RetentionPolicyNotFound) <==>
              DatabaseOf(d, database).Some? && DefaultOf(d, database) != Some(name) && PolicyOf(d, database, name).None?
    ensures r.Ok? <==> DefaultOf(d, database) != Some(name) && PolicyOf(d, database, name).Some?
    ensures r.Ok? ==>
              && OnlyDatabases(d, r.value) && DefaultsKept(d, r.value, {}) && PoliciesKept(d, r.value, database, {name})
              && PolicyOf(r.value, database, name).None?
  {
    if r.Ok? {
      var ps := d.databases[DatabaseAt(d.databases, database)].policies;
      var j := PolicyAt(ps, name);
      var ps' := ps[..j] + ps[j + 1..];
      PoliciesOf(d, r.value, database, ps');
      forall y ensures PolicyNamed(ps', y) == if y == name then None else PolicyNamed(ps, y) {
        var k := PolicyAt(ps, y);
        FirstPolicy(ps', y, if y == name then |ps'| else if k < j then k else k - 1);
      }
    }
  }

  /** `SetDefaultRetentionPolicy` makes a policy of the database its default, and changes nothing else. */
  lemma DefaultSet(d: Metadata, database: string, name: string, r: Result<Metadata, Error>)
    requires Outcome(d, SetDefaultRetentionPolicy(database, name), r)
    ensures r == Err(DatabaseNotFound) <==> DatabaseOf(d, database).None?
    ensures r == Err(RetentionPolicyNotFound) <==> DatabaseOf(d, database).Some? && PolicyOf(d, database, name).None?
    ensures r.Ok? <==> PolicyOf(d, database, name).Some?
    ensures r.Ok? ==>
              && OnlyDatabases(d, r.value) && PoliciesKept(d, r.value, database, {})
              && DefaultOf(r.value, database) == Some(name) && DefaultsKept(d, r.value, {database})
  {
    if r.Ok? {
      var i := DatabaseAt(d.databases, database);
      forall x ensures DatabaseOf(r.value, x) == if x == database then Some(d.databases[i].(defaultPolicy := name)) else DatabaseOf(d, x) {
        DatabaseReplaced(d, r.value, i, d.databases[i].(defaultPolicy := name), x);
      }
    }
  }

  /** What an update makes of a policy: only what it names is new, and the length of the groups follows the duration. */
  predicate IsUpdate(p: RetentionPolicyInfo, u: PolicyUpdate, q: RetentionPolicyInfo) {
    && q.shardGroups == p.shardGroups
    && (if u.name.Some? then q.name == u.name.value else q.name == p.name)
    && (if u.replicaN.Some? then q.replicaN == u.replicaN.value else q.replicaN == p.replicaN)
    && (if u.duration.Some? then q.duration == u.duration.value && GroupsLast(q.duration, q.shardGroupDuration)
        else q.duration == p.duration && q.shardGroupDuration == p.shardGroupDuration)
  }

  /** `UpdateRetentionPolicy` changes the policy of the name as asked, and nothing else. */
  lemma PolicyUpdated(d: Metadata, database: string, name: string, u: PolicyUpdate, r: Result<Metadata, Error>)
    requires Outcome(d, UpdateRetentionPolicy(database, name, u), r) && NamesUnique(d)
    ensures var taken := u.name.Some? && u.name.value != name && PolicyOf(d, database, u.name.value).Some?;
            var low := u.duration.Some? && u.duration.value < HOUR && u.duration.value != 0;
            var found := PolicyOf(d, database, name).Some?;
      && (r == Err(DatabaseNotFound) <==> DatabaseOf(d, database).None?)
      && (r == Err(RetentionPolicyNotFound) <==> DatabaseOf(d, database).Some? && !found)
      && (r == Err(RetentionPolicyNameExists) <==> found && taken)
      && (r == Err(RetentionPolicyDurationTooLow) <==> found && !taken && low)
      && (r.Ok? <==> found && !taken && !low)
    ensures r.Ok? ==>
              exists q :: IsUpdate(PolicyOf(d, database, name).value, u, q) && PolicyBecame(d, r.value, database, name, q)
  {
    if r.Ok? {
      var q := Updated(PolicyOf(d, database, name).value, u);
      assert IsUpdate(PolicyOf(d, database, name).value, u, q);
      Became(d, r.value, database, name, q);
    }
  }

  lemma Became(d: Metadata, d': Metadata, database: string, name: string, q: RetentionPolicyInfo)
    requires NamesUnique(d) && PolicyOf(d, database, name).Some?
    requires q.name == name || PolicyOf(d, database, q.name).None?
    requires var i := DatabaseAt(d.databases, database);
             var ps := d.databases[i].policies;
             d' == WithPolicies(d, i, ps[PolicyAt(ps, name) := q])
    ensures PolicyBecame(d, d', database, name, q)
  {
    var ps := d.databases[DatabaseAt(d.databases, database)].policies;
    var j := PolicyAt(ps, name);
    PoliciesOf(d, d', database, ps[j := q]);
    assert PolicyNamesUnique(ps);
    RenamedPolicies(ps, j, q);
    assert forall y :: PolicyOf(d, database, y) == PolicyNamed(ps, y);
    hide PolicyOf, PolicyNamed, DefaultsKept;
  }

  /** The policy of this name is now the given one, found under its own name. */
  ghost predicate PolicyBecame(d: Metadata, d': Metadata, database: string, name: string, q: RetentionPolicyInfo) {
    && OnlyDatabases(d, d') && DefaultsKept(d, d', {}) && PoliciesKept(d, d', database, {name, q.name})
    && PolicyOf(d', database, q.name) == Some(q)
    && (q.name != name ==> PolicyOf(d', database, name).None?)
  }

  lemma RenamedPolicies(ps: seq<RetentionPolicyInfo>, j: nat, q: RetentionPolicyInfo)
    requires PolicyNamesUnique(ps) && j < |ps| && (q.name == ps[j].name || PolicyAt(ps, q.name) == |ps|)
    ensures forall y :: PolicyNamed(ps[j := q], y)
              == if y == q.name then Some(q) else if y == ps[j].name then None else PolicyNamed(ps, y)
  {
    forall y ensures PolicyNamed(ps[j := q], y)
              == if y == q.name then Some(q) else if y == ps[j].name then None else PolicyNamed(ps, y)
    {
      FirstPolicy(ps[j := q], y, if y == q.name then j else if y == ps[j].name then |ps| else PolicyAt(ps, y));
    }
  }

  // ----- The commands on nodes -----

  lemma FirstNode(nodes: seq<NodeInfo>, id: nat, i: nat)
    requires i <= |nodes| && (i < |nodes| ==> nodes[i].id == id) && forall k :: 0 <= k < i ==> nodes[k].id != id
    ensures NodeAt(nodes, id) == i
  {
  }

  /** `CreateNode` adds a node under the next id for a host that is new; the first one names the cluster. */
  lemma NodeCreated(d: Metadata, host: string, rand: nat, r: Result<Metadata, Error>)
    requires Outcome(d, CreateNode(host, rand), r) && Sound(d)
    ensures r == Err(NodeExists) <==> exists n :: n in d.nodes && n.host == host
    ensures r.Ok? <==> forall n :: n in d.nodes ==> n.host != host
    ensures r.Ok? ==>
              var d' := r.value;
              && d' == d.(nodes := d'.nodes, maxNodeID := d.maxNodeID + 1, clusterID := d'.clusterID)
              && d'.clusterID == (if d.clusterID == 0 then rand else d.clusterID)
              && forall id :: HostOf(d', id) == if id == d.maxNodeID + 1 then Some(host) else HostOf(d, id)
  {
    var i := HostAt(d.nodes, host);
    assert i < |d.nodes| ==> d.nodes[i] in d.nodes;
    if r.Ok? {
      var d' := r.value;
      forall id ensures HostOf(d', id) == if id == d.maxNodeID + 1 then Some(host) else HostOf(d, id) {
        var k := NodeAt(d.nodes, id);
        assert k < |d.nodes| ==> d.nodes[k] in d.nodes;
        FirstNode(d'.nodes, id, if k < |d.nodes| || id == d.maxNodeID + 1 then k else k + 1);
      }
    }
  }

  /** `UpdateNode` gives the node of the id a new host, and changes nothing else. */
  lemma NodeMoved(d: Metadata, id: nat, host: string, r: Result<Metadata, Error>)
    requires Outcome(d, UpdateNode(id, host), r)
    ensures r == Err(NodeNotFound) <==> HostOf(d, id).None?
    ensures r.Ok? <==> HostOf(d, id).Some?
    ensures r.Ok? ==>
              && r.value == d.(nodes := r.value.nodes)
              && forall x :: HostOf(r.value, x) == if x == id then Some(host) else HostOf(d, x)
  {
    if r.Ok? {
      forall x ensures HostOf(r.value, x) == if x == id then Some(host) else HostOf(d, x) {
        FirstNode(r.value.nodes, x, NodeAt(d.nodes, x));
      }
    }
  }

  /** The owners of a shard but for one node. */
  ghost predicate OwnersLess(s: ShardInfo, s': ShardInfo, id: nat) {
    s'.id == s.id && forall o :: multiset(s'.owners)[o] == if o == id then 0 else multiset(s.owners)[o]
  }

  ghost predicate GroupLess(g: ShardGroupInfo, g': ShardGroupInfo, id: nat) {
    && g' == g.(shards := g'.shards) && |g'.shards| == |g.shards|
    && forall k :: 0 <= k < |g.shards| ==> OwnersLess(g.shards[k], g'.shards[k], id)
  }

  /** A policy whose shards have lost an owner, and nothing else. */
  ghost predicate PolicyLess(p: RetentionPolicyInfo, p': RetentionPolicyInfo, id: nat) {
    && p' == p.(shardGroups := p'.shardGroups) && |p'.shardGroups| == |p.shardGroups|
    && forall k :: 0 <= k < |p.shardGroups| ==> GroupLess(p.shardGroups[k], p'.shardGroups[k], id)
  }

  lemma {:induction false} WithoutCounts(owners: seq<nat>, id: nat)
    ensures forall o :: multiset(Without(owners, id))[o] == if o == id then 0 else multiset(owners)[o]
  {
    if owners != [] {
      var n := |owners| - 1;
      WithoutCounts(owners[..n], id);
      assert owners == owners[..n] + [owners[n]];
    }
  }

  lemma GroupStripped(g: ShardGroupInfo, id: nat)
    ensures GroupLess(g, StripGroup(g, id), id)
  {
    forall k | 0 <= k < |g.shards| ensures OwnersLess(g.shards[k], StripGroup(g, id).shards[k], id) {
      WithoutCounts(g.shards[k].owners, id);
    }
  }

  lemma PolicyStripped(p: RetentionPolicyInfo, id: nat)
    ensures PolicyLess(p, StripPolicy(p, id), id)
  {
    forall k | 0 <= k < |p.shardGroups| ensures GroupLess(p.shardGroups[k], StripPolicy(p, id).shardGroups[k], id) {
      GroupStripped(p.shardGroups[k], id);
    }
  }

  /** Some shard of a policy with at most one replica has no owner but this node. */
  ghost predicate OnlyCopy(d: Metadata, id: nat) {
    exists db, p, g, s :: db in d.databases && p in db.policies && p.replicaN <= 1 && g in p.shardGroups && s in g.shards && s.owners == [id]
  }

  lemma OnlyCopyIs(d: Metadata, id: nat)
    ensures Unreplicated(d.databases, id) <==> OnlyCopy(d, id)
  {
    if OnlyCopy(d, id) {
      var db, p, g, s :| db in d.databases && p in db.policies && p.replicaN <= 1 && g in p.shardGroups && s in g.shards && s.owners == [id];
      assert LastCopy(g, id) && LastCopyIn(db, id);
    }
    if Unreplicated(d.databases, id) {
      var db :| db in d.databases && LastCopyIn(db, id);
      var p, g :| p in db.policies && p.replicaN <= 1 && g in p.shardGroups && LastCopy(g, id);
      var s :| s in g.shards && s.owners == [id];
    }
  }

  /**
   `DeleteNode` removes the node and its ownership of every shard, and changes nothing
   else; it refuses the last node and, unless forced, to lose the only copy of a shard.
   */
  lemma NodeDeleted(d: Metadata, id: nat, force: bool, r: Result<Metadata, Error>)
    requires Outcome(d, DeleteNode(id, force), r)
    ensures var known := id != 0 && HostOf(d, id).Some?;
      && (r == Err(NodeIDRequired) <==> id == 0)
      && (r == Err(NodeNotFound) <==> id != 0 && HostOf(d, id).None?)
      && (r == Err(NodeUnableToDropFinalNode) <==> known && |d.nodes| == 1)
      && (r == Err(ShardNotReplicated) <==> known && |d.nodes| != 1 && !force && OnlyCopy(d, id))
      && (r.Ok? <==> known && |d.nodes| != 1 && (force || !OnlyCopy(d, id)))
    ensures r.Ok? ==>
              var d' := r.value;
              && d' == d.(nodes := d'.nodes, databases := d'.databases)
              && (forall x :: HostOf(d', x) == if x == id then None else HostOf(d, x))
              && DefaultsKept(d, d', {}) && AllPoliciesLess(d, d', id)
  {
    OnlyCopyIs(d, id);
    hide Unreplicated, OnlyCopy;
    if r.Ok? {
      var d' := r.value;
      forall x ensures HostOf(d', x) == if x == id then None else HostOf(d, x) {
        NodesLess(d.nodes, id, x);
      }
      DatabasesStripped(d, d', id);
    }
  }

  ghost predicate AllPoliciesLess(d: Metadata, d': Metadata, id: nat) {
    forall x, y ::
      && PolicyOf(d', x, y).Some? == PolicyOf(d, x, y).Some?
      && (PolicyOf(d, x, y).Some? ==> PolicyLess(PolicyOf(d, x, y).value, PolicyOf(d', x, y).value, id))
  }

  lemma {:induction false} NodesLess(nodes: seq<NodeInfo>, id: nat, x: nat)
    ensures var nodes' := NodesWithout(nodes, id);
            var i, k := NodeAt(nodes, x), NodeAt(nodes', x);
      && (k == |nodes'| <==> x == id || i == |nodes|)
      && (k < |nodes'| ==> nodes'[k].host == nodes[i].host)
  {
    if nodes != [] {
      var n := |nodes| - 1;
      NodesLess(nodes[..n], id, x);
      var i := NodeAt(nodes[..n], x);
      var rest := NodesWithout(nodes[..n], id);
      var k := NodeAt(rest, x);
      FirstNode(nodes, x, if i < n || nodes[n].id == x then i else i + 1);
      if nodes[n].id == id {
        assert NodesWithout(nodes, id) == rest;
      } else {
        FirstNode(rest + [nodes[n]], x, if k < |rest| || nodes[n].id == x then k else k + 1);
      }
    }
  }

  lemma DatabasesStripped(d: Metadata, d': Metadata, id: nat)
    requires d'.databases == StripDatabases(d.databases, id)
    ensures DefaultsKept(d, d', {}) && AllPoliciesLess(d, d', id)
  {
    forall x
      ensures DatabaseOf(d', x) == if DatabaseOf(d, x).Some? then Some(StripDatabase(DatabaseOf(d, x).value, id)) else None
    {
      FirstDatabase(d'.databases, x, DatabaseAt(d.databases, x));
    }
    forall x, y
      ensures PolicyOf(d', x, y) == if PolicyOf(d, x, y).Some? then Some(StripPolicy(PolicyOf(d, x, y).value, id)) else None
    {
      if DatabaseOf(d, x).Some? {
        var db := DatabaseOf(d, x).value;
        FirstPolicy(StripDatabase(db, id).policies, y, PolicyAt(db.policies, y));
      }
    }
    forall x, y | PolicyOf(d, x, y).Some? ensures PolicyLess(PolicyOf(d, x, y).value, PolicyOf(d', x, y).value, id) {
      PolicyStripped(PolicyOf(d, x, y).value, id);
    }
    hide PolicyLess, PolicyOf;
  }

  // ----- Creating a shard group -----

  /** How many copies a policy gets of each shard: as many as it asks for, but one at least and one per node at most. */
  predicate Copies(replicaN: nat, nodeN: nat, n: nat) {
    && 1 <= n <= nodeN
    && (1 <= replicaN <= nodeN ==> n == replicaN) && (replicaN == 0 ==> n == 1) && (replicaN > nodeN ==> n == nodeN)
  }

  /** As many shards as the nodes allow, the owners of which follow one another round the list of nodes. */
  ghost predicate ShardsDealt(d: Metadata, n: nat, shards: seq<ShardInfo>)
    requires d.nodes != []
  {
    && |shards| * n <= |d.nodes| < (|shards| + 1) * n
    && forall i :: 0 <= i < |shards| ==> shards[i].id == d.maxShardID + 1 + i && OwnersDealt(d, i * n, n, shards[i].owners)
  }

  ghost predicate OwnersDealt(d: Metadata, from: nat, n: nat, owners: seq<nat>)
    requires d.nodes != []
  {
    |owners| == n && forall j :: 0 <= j < n ==> owners[j] == d.nodes[(d.index + from + j) % |d.nodes|].id
  }

  /** The group made for a time: the cell of the policy's grid with the time in it. */
  ghost predicate IsNewGroup(d: Metadata, p: RetentionPolicyInfo, t: int, g: ShardGroupInfo)
    requires d.nodes != []
  {
    && g.id == d.maxShardGroupID + 1 && !g.Deleted()
    && p.shardGroupDuration > 0 && g.end == g.start + p.shardGroupDuration && g.start % p.shardGroupDuration == 0 && g.start <= t < g.end
    && exists n :: Copies(p.replicaN, |d.nodes|, n) && ShardsDealt(d, n, g.shards)
  }

  lemma ModTwice(a: nat, b: nat, n: nat)
    requires n > 0
    ensures (a % n + b) % n == (a + b) % n
  {
    var q := a / n;
    assert a + b == (a % n + b) + q * n;
    ModShift(a % n + b, q, n);
  }

  lemma {:induction false} ModShift(x: nat, q: nat, n: nat)
    requires n > 0
    ensures (x + q * n) % n == x % n
  {
    if q > 0 {
      ModShift(x, q - 1, n);
      assert x + q * n == (x + (q - 1) * n) + n;
      ModOnce(x + (q - 1) * n, n);
    }
  }

  lemma ModOnce(x: nat, n: nat)
    requires n > 0
    ensures (x + n) % n == x % n
  {
    var q, r := x / n, x % n;
    assert x + n == (q + 1) * n + r;
    ModOfMultiple(q + 1, n);
    Unmod(q + 1, r, n);
  }

  lemma Unmod(q: int, r: int, n: int)
    requires 0 <= r < n
    ensures (q * n + r) % n == r
  {
    var q', r' := (q * n + r) / n, (q * n + r) % n;
    assert (q - q') * n == r' - r;
    SmallMultiple(q - q', n);
  }

  lemma {:induction false} NewShardsDealt(d: Metadata, replicas: nat, n: nat, i: nat)
    requires d.nodes != [] && i < n
    ensures var s := NewShards(d.nodes, d.maxShardID, d.index % |d.nodes|, replicas, n)[i];
      s.id == d.maxShardID + 1 + i && OwnersDealt(d, i * replicas, replicas, s.owners)
  {
    if i == n - 1 {
      var owners := NewShards(d.nodes, d.maxShardID, d.index % |d.nodes|, replicas, n)[i].owners;
      forall j | 0 <= j < replicas ensures owners[j] == d.nodes[(d.index + i * replicas + j) % |d.nodes|].id {
        ModTwice(d.index, i * replicas + j, |d.nodes|);
      }
    } else {
      NewShardsDealt(d, replicas, n - 1, i);
    }
  }

  lemma Divided(a: nat, n: nat)
    requires n > 0
    ensures (a / n) * n <= a < (a / n + 1) * n
  {
  }

  lemma NewGroupIs(d: Metadata, p: RetentionPolicyInfo, t: int)
    requires d.nodes != [] && Unit(p.shardGroupDuration)
    ensures IsNewGroup(d, p, t, NewGroup(d, p, t))
  {
    var g := NewGroup(d, p, t);
    var n := Replicas(p.replicaN, |d.nodes|);
    CellOf(t, p.shardGroupDuration);
    Divided(|d.nodes|, n);
    forall i | 0 <= i < |g.shards|
      ensures g.shards[i].id == d.maxShardID + 1 + i && OwnersDealt(d, i * n, n, g.shards[i].owners)
    {
      NewShardsDealt(d, n, |d.nodes| / n, i);
    }
    hide NewShards, OwnersDealt;
    assert Copies(p.replicaN, |d.nodes|, n) && ShardsDealt(d, n, g.shards);
  }

  /** `CreateShardGroup` adds one group to the policy named, and changes nothing else; the list stays sorted. */
  lemma GroupCreated(d: Metadata, database: string, policy: string, t: int, r: Result<Metadata, Error>)
    requires Outcome(d, CreateShardGroup(database, policy, t), r) && Sound(d)
    ensures var found := d.nodes != [] && PolicyOf(d, database, policy).Some?;
            var served := found && exists g :: g in PolicyOf(d, database, policy).value.shardGroups && Serves(g, t);
      && (r == Err(NodesRequired) <==> d.nodes == [])
      && (r == Err(DatabaseNotFound) <==> d.nodes != [] && DatabaseOf(d, database).None?)
      && (r == Err(RetentionPolicyNotFound) <==> d.nodes != [] && DatabaseOf(d, database).Some? && PolicyOf(d, database, policy).None?)
      && (r == Err(ShardGroupExists) <==> served)
      && (r.Ok? <==> found && !served)
    ensures r.Ok? ==> exists g, gs :: GroupAdded(d, r.value, database, policy, t, g, gs)
  {
    Located(d, database, policy);
    if d.nodes != [] && PolicyOf(d, database, policy).Some? {
      var at := Locate(d.databases, database, policy).value;
      var p := PolicyIn(d.databases, at);
      var k := GroupByTimestamp(p.shardGroups, t);
      if k < |p.shardGroups| {
        assert p.shardGroups[k] in p.shardGroups;
      } else {
        var g := NewGroup(d, p, t);
        var gs :| IsSortOf(gs, p.shardGroups + [g]) && r.value == Grown(d, at, t, gs);
        assert PolicySound(p);
        NewGroupIs(d, p, t);
        GroupsChanged(d, database, policy, gs);
        SameLookups(WithGroups(d, at, gs), r.value);
        assert GroupAdded(d, r.value, database, policy, t, g, gs);
      }
    }
  }

  lemma SameLookups(d: Metadata, d': Metadata)
    requires d'.databases == d.databases
    ensures forall x, y :: PolicyOf(d', x, y) == PolicyOf(d, x, y)
    ensures forall x :: DefaultOf(d', x) == DefaultOf(d, x)
  {
  }

  ghost predicate GroupAdded(d: Metadata, d': Metadata, database: string, policy: string, t: int, g: ShardGroupInfo, gs: seq<ShardGroupInfo>) {
    && d.nodes != [] && PolicyOf(d, database, policy).Some?
    && var p := PolicyOf(d, database, policy).value;
       && IsNewGroup(d, p, t, g) && multiset(gs) == multiset(p.shardGroups) + multiset{g} && SortedByStart(gs)
       && d' == d.(databases := d'.databases, maxShardGroupID := d.maxShardGroupID + 1, maxShardID := d.maxShardID + |g.shards|)
       && PolicyOf(d', database, policy) == Some(p.(shardGroups := gs))
       && PoliciesKept(d, d', database, {policy}) && DefaultsKept(d, d', {})
  }
}
