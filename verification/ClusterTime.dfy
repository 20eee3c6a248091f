/** The time spans of the shard groups of one policy, in every run. */
module ClusterTime {
  import opened Values
  import opened TimeGrid
  import opened ClusterData
  import opened ClusterRuns
  import opened Sequences

  /** Any two groups of one policy, in any state of any run, are disjoint or nested in time. */
  lemma GroupsNest(ds: seq<Metadata>, cs: seq<Command>, k: nat, at: Place, g: ShardGroupInfo, h: ShardGroupInfo)
    requires IsRun(ds, cs) && ds[0] == EMPTY && k < |ds| && IsPlace(ds[k].databases, at)
    requires g in PolicyIn(ds[k].databases, at).shardGroups && h in PolicyIn(ds[k].databases, at).shardGroups
    ensures || Apart(g.start, g.end, h.start, h.end)
            || Inside(g.start, g.end, h.start, h.end)
            || Inside(h.start, h.end, g.start, g.end)
  {
    RunSound(ds, cs, k);
    assert PolicySound(PolicyIn(ds[k].databases, at));
    CellsNest(g.start, g.end, h.start, h.end);
  }

  // ----- Live groups that do not overlap -----

  /** Not two live groups that share a time. */
  predicate Clear(g: ShardGroupInfo, h: ShardGroupInfo) {
    g.Deleted() || h.Deleted() || Apart(g.start, g.end, h.start, h.end)
  }

  predicate LiveApart(gs: seq<ShardGroupInfo>) {
    forall m, n :: 0 <= m < n < |gs| ==> Clear(gs[m], gs[n])
  }

  predicate AtLeast(gs: seq<ShardGroupInfo>, d: int) {
    forall g :: g in gs && !g.Deleted() ==> g.end - g.start >= d
  }

  /** Live groups do not overlap, and none is shorter than the groups to come. */
  predicate Tidy(p: RetentionPolicyInfo) {
    LiveApart(p.shardGroups) && AtLeast(p.shardGroups, p.shardGroupDuration)
  }

  lemma ClearWithin(a: seq<ShardGroupInfo>, b: seq<ShardGroupInfo>)
    requires LiveApart(b) && multiset(a) <= multiset(b)
    ensures LiveApart(a)
  {
    forall m, n | 0 <= m < n < |a| ensures Clear(a[m], a[n]) {
      ClearPair(a, b, m, n);
    }
  }

  lemma ClearPair(a: seq<ShardGroupInfo>, b: seq<ShardGroupInfo>, m: nat, n: nat)
    requires LiveApart(b) && multiset(a) <= multiset(b) && m < n < |a|
    ensures Clear(a[m], a[n])
  {
    assert a[m] in multiset(a) && a[n] in multiset(a);
    assert a[m] in multiset(b) && a[n] in multiset(b);
    if a[m] == a[n] {
      TwiceIn(a, m, n);
      var x, y := TwoPlaces(b, a[m]);
      assert Clear(b[x], b[y]);
    } else {
      var x :| 0 <= x < |b| && b[x] == a[m];
      var y :| 0 <= y < |b| && b[y] == a[n];
      assert x < y ==> Clear(b[x], b[y]);
      assert y < x ==> Clear(b[y], b[x]);
    }
  }

  /** A new group overlaps no live group exactly when none lies inside its span. */
  lemma NewGroupClear(d: Metadata, p: RetentionPolicyInfo, t: int, g: ShardGroupInfo)
    requires d.nodes != [] && PolicySound(p) && g in p.shardGroups && !Serves(g, t)
    ensures var added := NewGroup(d, p, t);
      Clear(g, added) <==> g.Deleted() || !Inside(g.start, g.end, added.start, added.end)
  {
    var added := NewGroup(d, p, t);
    NewCell(d, p, t);
    hide NewGroup;
    CellsNest(g.start, g.end, added.start, added.end);
  }

  /**
   Creating a group keeps the live groups of a policy disjoint if and only if no
   live group lies inside the new span. (One does when the policy's groups have
   grown longer since it was made.)
   */
  lemma CreationClearExact(d: Metadata, p: RetentionPolicyInfo, t: int, gs: seq<ShardGroupInfo>)
    requires d.nodes != [] && PolicySound(p) && LiveApart(p.shardGroups)
    requires GroupByTimestamp(p.shardGroups, t) == |p.shardGroups|
    requires IsSortOf(gs, p.shardGroups + [NewGroup(d, p, t)])
    ensures LiveApart(gs) <==>
            forall g :: g in p.shardGroups && !g.Deleted() ==> !Inside(g.start, g.end, NewGroup(d, p, t).start, NewGroup(d, p, t).end)
  {
    var added := NewGroup(d, p, t);
    var before := p.shardGroups;
    forall k | 0 <= k < |before|
      ensures Clear(before[k], added) <==> before[k].Deleted() || !Inside(before[k].start, before[k].end, added.start, added.end)
    {
      NewGroupClear(d, p, t, before[k]);
    }
    hide NewGroup, PolicySound, Clear, SortedByStart;
    if LiveApart(gs) {
      ClearWithin(before + [added], gs);
      forall k | 0 <= k < |before| ensures Clear(before[k], added) {
        assert Clear((before + [added])[k], (before + [added])[|before|]);
      }
    }
    if forall g :: g in before && !g.Deleted() ==> !Inside(g.start, g.end, added.start, added.end) {
      SnocClear(before, added);
      ClearWithin(gs, before + [added]);
    }
  }

  lemma SnocClear(gs: seq<ShardGroupInfo>, g: ShardGroupInfo)
    requires LiveApart(gs) && forall k :: 0 <= k < |gs| ==> Clear(gs[k], g)
    ensures LiveApart(gs + [g])
  {
    hide Clear;
  }

  lemma CreationTidy(d: Metadata, p: RetentionPolicyInfo, t: int, gs: seq<ShardGroupInfo>)
    requires d.nodes != [] && PolicySound(p) && Tidy(p)
    requires GroupByTimestamp(p.shardGroups, t) == |p.shardGroups|
    requires IsSortOf(gs, p.shardGroups + [NewGroup(d, p, t)])
    ensures Tidy(p.(shardGroups := gs))
  {
    var added := NewGroup(d, p, t);
    var before := p.shardGroups;
    NewCell(d, p, t);
    forall g | g in before && !g.Deleted() ensures !Inside(g.start, g.end, added.start, added.end) {
      assert !Serves(g, t);
    }
    CreationClearExact(d, p, t, gs);
    forall g | g in gs && !g.Deleted() ensures g.end - g.start >= p.shardGroupDuration {
      assert g in multiset(gs);
      assert g in before + [added];
    }
  }

  // ----- What becomes of a policy -----

  /** `q` has the spans of `p`, perhaps with more of them deleted. */
  predicate Follows(q: RetentionPolicyInfo, p: RetentionPolicyInfo) {
    && |q.shardGroups| == |p.shardGroups|
    && forall k :: 0 <= k < |q.shardGroups| ==>
         && q.shardGroups[k].start == p.shardGroups[k].start && q.shardGroups[k].end == p.shardGroups[k].end
         && (p.shardGroups[k].Deleted() ==> q.shardGroups[k].Deleted())
  }

  /** `q` is `p` with one more group. */
  ghost predicate Gains(d: Metadata, p: RetentionPolicyInfo, q: RetentionPolicyInfo) {
    && d.nodes != []
    && exists t :: GroupByTimestamp(p.shardGroups, t) == |p.shardGroups|
                && IsSortOf(q.shardGroups, p.shardGroups + [NewGroup(d, p, t)])
                && q == p.(shardGroups := q.shardGroups)
  }

  ghost predicate Descends(d: Metadata, p: RetentionPolicyInfo, q: RetentionPolicyInfo) {
    Follows(q, p) || Gains(d, p, q)
  }

  /** Where the policy at a place after a command was before it. */
  function Came(d: Metadata, c: Command, at: Place): Place {
    match c
    case DropDatabase(name) =>
      var i := DatabaseAt(d.databases, name);
      if i == |d.databases| || at.i < i then at else Place(at.i + 1, at.j)
    case DropRetentionPolicy(database, name) =>
      if RemovePolicy(d, database, name).Err? then at
      else
        var i := DatabaseAt(d.databases, database);
        if at.i == i && at.j >= PolicyAt(d.databases[i].policies, name) then Place(at.i, at.j + 1) else at
    case _ => at
  }

  /** An update that makes the groups of the policy it changes longer. */
  predicate Lengthens(d: Metadata, c: Command) {
    && c.UpdateRetentionPolicy? && c.update.duration.Some?
    && Locate(d.databases, c.database, c.name).Ok?
    && ShardGroupDuration(c.update.duration.value) > PolicyIn(d.databases, Locate(d.databases, c.database, c.name).value).shardGroupDuration
  }

  /** A policy after a command is new, or descends from the one it came from; its groups are no longer unless it was so updated. */
  ghost predicate Heir(d: Metadata, c: Command, at: Place, q: RetentionPolicyInfo) {
    if IsPlace(d.databases, Came(d, c, at)) then
      var p := PolicyIn(d.databases, Came(d, c, at));
      Descends(d, p, q) && (q.shardGroupDuration <= p.shardGroupDuration || Lengthens(d, c))
    else q.shardGroups == []
  }

  lemma FollowsTidy(q: RetentionPolicyInfo, p: RetentionPolicyInfo)
    requires Follows(q, p) && Tidy(p) && q.shardGroupDuration <= p.shardGroupDuration
    ensures Tidy(q)
  {
    forall m, n | 0 <= m < n < |q.shardGroups| ensures Clear(q.shardGroups[m], q.shardGroups[n]) {
      assert Clear(p.shardGroups[m], p.shardGroups[n]);
    }
    forall k | 0 <= k < |q.shardGroups| && !q.shardGroups[k].Deleted()
      ensures q.shardGroups[k].end - q.shardGroups[k].start >= q.shardGroupDuration
    {
      assert p.shardGroups[k] in p.shardGroups;
    }
  }

  lemma DescendantTidy(d: Metadata, p: RetentionPolicyInfo, q: RetentionPolicyInfo)
    requires PolicySound(p) && Tidy(p) && Descends(d, p, q) && q.shardGroupDuration <= p.shardGroupDuration
    ensures Tidy(q)
  {
    hide PolicySound, Tidy, NewGroup, GroupByTimestamp, IsSortOf;
    if Follows(q, p) {
      FollowsTidy(q, p);
    } else {
      var t :| GroupByTimestamp(p.shardGroups, t) == |p.shardGroups|
            && IsSortOf(q.shardGroups, p.shardGroups + [NewGroup(d, p, t)])
            && q == p.(shardGroups := q.shardGroups);
      CreationTidy(d, p, t, q.shardGroups);
    }
  }

  ghost predicate Heirs(d: Metadata, c: Command, dbs: seq<DatabaseInfo>) {
    forall at :: IsPlace(dbs, at) ==> Heir(d, c, at, PolicyIn(dbs, at))
  }

  /** A policy that is as it was where it came from, or is new. */
  predicate Moved(d: Metadata, c: Command, at: Place, q: RetentionPolicyInfo) {
    if IsPlace(d.databases, Came(d, c, at)) then q == PolicyIn(d.databases, Came(d, c, at)) else q.shardGroups == []
  }

  lemma MovedHeir(d: Metadata, c: Command, at: Place, q: RetentionPolicyInfo)
    requires Moved(d, c, at, q)
    ensures Heir(d, c, at, q)
  {
    hide Came, Gains, Lengthens;
    assert Follows(q, q);
  }

  /** The policies of a step that moves policies about without changing them. */
  lemma MovedHeirs(d: Metadata, c: Command, dbs: seq<DatabaseInfo>)
    requires forall at :: IsPlace(dbs, at) ==> Moved(d, c, at, PolicyIn(dbs, at))
    ensures Heirs(d, c, dbs)
  {
    hide Heir, Moved;
    forall at | IsPlace(dbs, at) ensures Heir(d, c, at, PolicyIn(dbs, at)) {
      MovedHeir(d, c, at, PolicyIn(dbs, at));
    }
  }

  predicate Drops(c: Command) {
    c.DropDatabase? || c.DropRetentionPolicy?
  }

  lemma ReplacedHeirs(d: Metadata, c: Command, at: Place, q: RetentionPolicyInfo)
    requires IsPlace(d.databases, at) && !Drops(c) && Heir(d, c, at, q)
    ensures Heirs(d, c, WithPolicies(d, at.i, d.databases[at.i].policies[at.j := q]).databases)
  {
    hide Heir;
    var dbs := WithPolicies(d, at.i, d.databases[at.i].policies[at.j := q]).databases;
    forall x | IsPlace(dbs, x) ensures Heir(d, c, x, PolicyIn(dbs, x)) {
      if x != at {
        assert IsPlace(d.databases, x) && PolicyIn(dbs, x) == PolicyIn(d.databases, x) && Came(d, c, x) == x;
        MovedHeir(d, c, x, PolicyIn(dbs, x));
      }
    }
  }

  lemma StripHeirs(d: Metadata, id: nat, force: bool)
    ensures Heirs(d, DeleteNode(id, force), StripDatabases(d.databases, id))
  {
    var dbs := StripDatabases(d.databases, id);
    forall at | IsPlace(dbs, at) ensures Heir(d, DeleteNode(id, force), at, PolicyIn(dbs, at)) {
      assert IsPlace(d.databases, at);
      assert PolicyIn(dbs, at) == StripPolicy(PolicyIn(d.databases, at), id);
      assert Follows(PolicyIn(dbs, at), PolicyIn(d.databases, at));
    }
  }

  lemma RemoveDatabaseHeirs(d: Metadata, name: string)
    requires RemoveDatabase(d, name).Ok?
    ensures Heirs(d, DropDatabase(name), RemoveDatabase(d, name).value.databases)
  {
    MovedHeirs(d, DropDatabase(name), RemoveDatabase(d, name).value.databases);
  }

  lemma RemovePolicyHeirs(d: Metadata, database: string, name: string)
    requires RemovePolicy(d, database, name).Ok?
    ensures Heirs(d, DropRetentionPolicy(database, name), RemovePolicy(d, database, name).value.databases)
  {
    MovedHeirs(d, DropRetentionPolicy(database, name), RemovePolicy(d, database, name).value.databases);
  }

  lemma ChangePolicyHeirs(d: Metadata, database: string, name: string, u: PolicyUpdate)
    requires ChangePolicy(d, database, name, u).Ok?
    ensures Heirs(d, UpdateRetentionPolicy(database, name, u), ChangePolicy(d, database, name, u).value.databases)
  {
    var at := Locate(d.databases, database, name).value;
    var p := PolicyIn(d.databases, at);
    assert Follows(Updated(p, u), p);
    ReplacedHeirs(d, UpdateRetentionPolicy(database, name, u), at, Updated(p, u));
  }

  lemma AddGroupHeirs(d: Metadata, database: string, policy: string, t: int, r: Result<Metadata, Error>)
    requires AddsGroup(d, database, policy, t, r) && r.Ok?
    ensures Heirs(d, CreateShardGroup(database, policy, t), r.value.databases)
  {
    hide NewGroup, IsSortOf;
    var at := Locate(d.databases, database, policy).value;
    var p := PolicyIn(d.databases, at);
    var gs :| IsSortOf(gs, p.shardGroups + [NewGroup(d, p, t)]) && r.value == Grown(d, at, t, gs);
    assert Gains(d, p, p.(shardGroups := gs));
    ReplacedHeirs(d, CreateShardGroup(database, policy, t), at, p.(shardGroups := gs));
  }

  lemma RemoveGroupHeirs(d: Metadata, database: string, policy: string, id: nat, now: Now)
    requires RemoveGroup(d, database, policy, id, now).Ok?
    ensures Heirs(d, DeleteShardGroup(database, policy, id, now), RemoveGroup(d, database, policy, id, now).value.databases)
  {
    var at := Locate(d.databases, database, policy).value;
    var p := PolicyIn(d.databases, at);
    var k := GroupAt(p.shardGroups, id);
    var q := p.(shardGroups := p.shardGroups[k := p.shardGroups[k].(deletedAt := now)]);
    assert Follows(q, p);
    ReplacedHeirs(d, DeleteShardGroup(database, policy, id, now), at, q);
  }

  lemma OutcomeHeirs(d: Metadata, c: Command, r: Result<Metadata, Error>)
    requires Outcome(d, c, r) && r.Ok?
    ensures Heirs(d, c, r.value.databases)
  {
    hide Heir;
    match c
    case DeleteNode(id, force) => StripHeirs(d, id, force);
    case UpdateRetentionPolicy(db, name, u) => ChangePolicyHeirs(d, db, name, u);
    case CreateShardGroup(db, policy, t) => AddGroupHeirs(d, db, policy, t, r);
    case DeleteShardGroup(db, policy, id, now) => RemoveGroupHeirs(d, db, policy, id, now);
    case DropDatabase(name) => RemoveDatabaseHeirs(d, name);
    case DropRetentionPolicy(db, name) => RemovePolicyHeirs(d, db, name);
    case _ => MovedHeirs(d, c, r.value.databases);
  }

  /** A command that fails leaves every policy where and as it is. */
  lemma FailedHeirs(d: Metadata, c: Command, r: Result<Metadata, Error>)
    requires Outcome(d, c, r) && r.Err?
    ensures Heirs(d, c, d.databases)
  {
    MovedHeirs(d, c, d.databases);
  }

  lemma StepHeirs(d: Metadata, c: Command, d': Metadata)
    requires Step(d, c, d')
    ensures Heirs(d, c, d'.databases)
  {
    hide Outcome, Heir;
    var r :| Outcome(d, c, r) && d' == (if r.Ok? then r.value else d).(term := d'.term, index := d'.index);
    if r.Ok? {
      OutcomeHeirs(d, c, r);
    } else {
      FailedHeirs(d, c, r);
    }
  }

  // ----- One policy through a run -----

  /** From when the policy at this place was made, its groups have not become longer. */
  ghost predicate NeverGrew(ds: seq<Metadata>, cs: seq<Command>, k: nat, at: Place)
    requires |ds| == |cs| + 1 && k < |ds| && IsPlace(ds[k].databases, at)
  {
    k > 0 && IsPlace(ds[k - 1].databases, Came(ds[k - 1], cs[k - 1], at)) ==>
      var from := Came(ds[k - 1], cs[k - 1], at);
      && PolicyIn(ds[k].databases, at).shardGroupDuration <= PolicyIn(ds[k - 1].databases, from).shardGroupDuration
      && NeverGrew(ds, cs, k - 1, from)
  }

  /**
   In every run, the live groups of a policy whose groups have never become longer
   are pairwise disjoint, and none is shorter than the groups to come.
   */
  lemma {:induction false} PolicyTidy(ds: seq<Metadata>, cs: seq<Command>, k: nat, at: Place)
    requires IsRun(ds, cs) && ds[0] == EMPTY && k < |ds| && IsPlace(ds[k].databases, at) && NeverGrew(ds, cs, k, at)
    ensures Tidy(PolicyIn(ds[k].databases, at))
    decreases k
  {
    hide Descends, Step, PolicySound, Came, Lengthens, Tidy;
    if k > 0 {
      var d, c := ds[k - 1], cs[k - 1];
      assert Step(d, c, ds[k]);
      StepHeirs(d, c, ds[k]);
      var from, q := Came(d, c, at), PolicyIn(ds[k].databases, at);
      assert Heir(d, c, at, q);
      if IsPlace(d.databases, from) {
        PolicyTidy(ds, cs, k - 1, from);
        RunSound(ds, cs, k - 1);
        DescendantTidy(d, PolicyIn(d.databases, from), q);
      } else {
        NewTidy(q);
      }
    }
  }

  lemma NewTidy(q: RetentionPolicyInfo)
    requires q.shardGroups == []
    ensures Tidy(q)
  {
  }

  lemma {:induction false} NeverLengthened(ds: seq<Metadata>, cs: seq<Command>, k: nat, at: Place)
    requires IsRun(ds, cs) && k < |ds| && IsPlace(ds[k].databases, at)
    requires forall i :: 0 <= i < k ==> !Lengthens(ds[i], cs[i])
    ensures NeverGrew(ds, cs, k, at)
    decreases k
  {
    hide Descends, Step, Came, Lengthens;
    if k > 0 && IsPlace(ds[k - 1].databases, Came(ds[k - 1], cs[k - 1], at)) {
      assert Step(ds[k - 1], cs[k - 1], ds[k]);
      StepHeirs(ds[k - 1], cs[k - 1], ds[k]);
      assert Heir(ds[k - 1], cs[k - 1], at, PolicyIn(ds[k].databases, at));
      NeverLengthened(ds, cs, k - 1, Came(ds[k - 1], cs[k - 1], at));
    }
  }

  /** In every run without an update that makes a policy's groups longer, every policy of every state is so. */
  lemma RunTidy(ds: seq<Metadata>, cs: seq<Command>, k: nat, at: Place)
    requires IsRun(ds, cs) && ds[0] == EMPTY && k < |ds| && IsPlace(ds[k].databases, at)
    requires forall i :: 0 <= i < k ==> !Lengthens(ds[i], cs[i])
    ensures Tidy(PolicyIn(ds[k].databases, at))
  {
    hide Lengthens, Step, Tidy;
    NeverLengthened(ds, cs, k, at);
    PolicyTidy(ds, cs, k, at);
  }

  // ----- A run in which a policy's groups become longer -----

  const SHORT_GROUP := ShardGroupInfo(1, 0, HOUR, 0, [ShardInfo(1, [1])])
  const LONG_GROUP := ShardGroupInfo(2, 0, DAY, 0, [ShardInfo(2, [1])])

  const GROWTH: seq<Command> := [
    CreateNode("a", 7), CreateDatabase("d"), CreateRetentionPolicy("d", "p", 1, HOUR), CreateShardGroup("d", "p", 0),
    UpdateRetentionPolicy("d", "p", PolicyUpdate(None, Some(2 * DAY), None)), CreateShardGroup("d", "p", 2 * HOUR)
  ]

  function OneNode(dbs: seq<DatabaseInfo>, groups: nat): Metadata {
    Metadata(0, 0, 7, [NodeInfo(1, "a")], dbs, 1, groups, groups)
  }

  function OnePolicy(duration: int, gs: seq<ShardGroupInfo>): Metadata {
    OneNode([DatabaseInfo("d", "", [RetentionPolicyInfo("p", 1, duration, ShardGroupDuration(duration), gs)])], |gs|)
  }

  const GROWTH_STATES: seq<Metadata> := [
    EMPTY, OneNode([], 0), OneNode([DatabaseInfo("d", "", [])], 0), OnePolicy(HOUR, []), OnePolicy(HOUR, [SHORT_GROUP]),
    OnePolicy(2 * DAY, [SHORT_GROUP]), OnePolicy(2 * DAY, [SHORT_GROUP, LONG_GROUP])
  ]

  lemma StepOf(d: Metadata, c: Command, d': Metadata)
    requires Outcome(d, c, Ok(d'))
    ensures Step(d, c, d')
  {
    hide Outcome;
    var r: Result<Metadata, Error> := Ok(d');
    assert Outcome(d, c, r) && d' == (if r.Ok? then r.value else d).(term := d'.term, index := d'.index);
  }

  lemma GrowthSetUp()
    ensures Step(GROWTH_STATES[0], GROWTH[0], GROWTH_STATES[1])
    ensures Step(GROWTH_STATES[1], GROWTH[1], GROWTH_STATES[2])
    ensures Step(GROWTH_STATES[2], GROWTH[2], GROWTH_STATES[3])
  {
    var db, p := DatabaseInfo("d", "", []), RetentionPolicyInfo("p", 1, HOUR, HOUR, []);
    assert [] + [NodeInfo(1, "a")] == [NodeInfo(1, "a")] && [] + [db] == [db] && [] + [p] == [p];
    assert AddNode(EMPTY, "a", 7) == Ok(OneNode([], 0));
    assert AddDatabase(OneNode([], 0), "d") == Ok(OneNode([db], 0));
    assert [db][0 := db.(policies := [p])] == [db.(policies := [p])];
    assert AddPolicy(OneNode([db], 0), "d", "p", 1, HOUR) == Ok(OnePolicy(HOUR, []));
    hide Step, Outcome;
    assert Outcome(EMPTY, GROWTH[0], Ok(OneNode([], 0))) by { SimpleOutcomes(EMPTY, "a", 7, "d", "p", 1, HOUR); }
    assert Outcome(OneNode([], 0), GROWTH[1], Ok(OneNode([db], 0))) by { SimpleOutcomes(OneNode([], 0), "a", 7, "d", "p", 1, HOUR); }
    assert Outcome(OneNode([db], 0), GROWTH[2], Ok(OnePolicy(HOUR, []))) by { SimpleOutcomes(OneNode([db], 0), "a", 7, "d", "p", 1, HOUR); }
    StepOf(EMPTY, GROWTH[0], OneNode([], 0));
    StepOf(OneNode([], 0), GROWTH[1], OneNode([db], 0));
    StepOf(OneNode([db], 0), GROWTH[2], OnePolicy(HOUR, []));
  }

  lemma SimpleOutcomes(d: Metadata, host: string, rand: nat, database: string, policy: string, replicaN: nat, duration: int)
    ensures Outcome(d, CreateNode(host, rand), AddNode(d, host, rand))
    ensures Outcome(d, CreateDatabase(database), AddDatabase(d, database))
    ensures Outcome(d, CreateRetentionPolicy(database, policy, replicaN, duration), AddPolicy(d, database, policy, replicaN, duration))
  {
  }

  lemma OnlyPlace(duration: int, gs: seq<ShardGroupInfo>)
    ensures Locate(OnePolicy(duration, gs).databases, "d", "p") == Ok(Place(0, 0))
    ensures IsPlace(OnePolicy(duration, gs).databases, Place(0, 0))
    ensures PolicyIn(OnePolicy(duration, gs).databases, Place(0, 0)) == RetentionPolicyInfo("p", 1, duration, ShardGroupDuration(duration), gs)
  {
  }

  lemma ReplacedPolicy(duration: int, gs: seq<ShardGroupInfo>, q: RetentionPolicyInfo)
    ensures WithPolicies(OnePolicy(duration, gs), 0, OnePolicy(duration, gs).databases[0].policies[0 := q]).databases
         == [DatabaseInfo("d", "", [q])]
  {
    var db := OnePolicy(duration, gs).databases[0];
    assert db.policies[0 := q] == [q];
    assert [db][0 := db.(policies := [q])] == [db.(policies := [q])];
  }

  /** A group made for the one policy of the one node. */
  lemma OneMore(duration: int, gs: seq<ShardGroupInfo>, t: int, g: ShardGroupInfo)
    requires GroupByTimestamp(gs, t) == |gs| && SortedByStart(gs + [g])
    requires var start := Truncate(t, ShardGroupDuration(duration));
      g == ShardGroupInfo(|gs| + 1, start, start + ShardGroupDuration(duration), 0, [ShardInfo(|gs| + 1, [1])])
    ensures Step(OnePolicy(duration, gs), CreateShardGroup("d", "p", t), OnePolicy(duration, gs + [g]))
  {
    OnlyPlace(duration, gs);
    NewGroupOfOne(duration, gs, t);
    var d, at := OnePolicy(duration, gs), Place(0, 0);
    ReplacedPolicy(duration, gs, PolicyIn(d.databases, at).(shardGroups := gs + [g]));
    assert OnePolicy(duration, gs + [g]) == Grown(d, at, t, gs + [g]);
    hide NewGroup, Locate, PolicyIn, GroupByTimestamp, Grown;
    assert IsSortOf(gs + [g], gs + [g]);
    assert AddsGroup(d, "d", "p", t, Ok(OnePolicy(duration, gs + [g])));
    StepOf(d, CreateShardGroup("d", "p", t), OnePolicy(duration, gs + [g]));
  }

  lemma NewGroupOfOne(duration: int, gs: seq<ShardGroupInfo>, t: int)
    ensures var p := PolicyIn(OnePolicy(duration, gs).databases, Place(0, 0));
            var start := Truncate(t, p.shardGroupDuration);
      NewGroup(OnePolicy(duration, gs), p, t)
      == ShardGroupInfo(|gs| + 1, start, start + p.shardGroupDuration, 0, [ShardInfo(|gs| + 1, [1])])
  {
    var d := OnePolicy(duration, gs);
    assert Deal(d.nodes, 0 + Dealt(0, 1), 1) == [1];
    assert NewShards(d.nodes, |gs|, 0, 1, 0) == [];
    assert NewShards(d.nodes, |gs|, 0, 1, 1) == [ShardInfo(|gs| + 1, [1])];
  }

  lemma FirstGroup()
    ensures Step(OnePolicy(HOUR, []), CreateShardGroup("d", "p", 0), OnePolicy(HOUR, [SHORT_GROUP]))
  {
    assert [] + [SHORT_GROUP] == [SHORT_GROUP];
    hide Step, OnePolicy;
    OneMore(HOUR, [], 0, SHORT_GROUP);
  }

  lemma LongerGroups()
    ensures Step(OnePolicy(HOUR, [SHORT_GROUP]), GROWTH[4], OnePolicy(2 * DAY, [SHORT_GROUP]))
  {
    var d, p := OnePolicy(HOUR, [SHORT_GROUP]), RetentionPolicyInfo("p", 1, 2 * DAY, DAY, [SHORT_GROUP]);
    OnlyPlace(HOUR, [SHORT_GROUP]);
    ReplacedPolicy(HOUR, [SHORT_GROUP], p);
    assert ChangePolicy(d, "d", "p", PolicyUpdate(None, Some(2 * DAY), None)) == Ok(OnePolicy(2 * DAY, [SHORT_GROUP]));
    hide OnePolicy, ChangePolicy;
    StepOf(d, GROWTH[4], OnePolicy(2 * DAY, [SHORT_GROUP]));
  }

  lemma SecondGroup()
    ensures Step(OnePolicy(2 * DAY, [SHORT_GROUP]), CreateShardGroup("d", "p", 2 * HOUR), OnePolicy(2 * DAY, [SHORT_GROUP, LONG_GROUP]))
  {
    assert Truncate(2 * HOUR, DAY) == 0 && [SHORT_GROUP][1..] == [];
    assert [SHORT_GROUP] + [LONG_GROUP] == [SHORT_GROUP, LONG_GROUP];
    hide Step, OnePolicy;
    OneMore(2 * DAY, [SHORT_GROUP], 2 * HOUR, LONG_GROUP);
  }

  /**
   A run that leaves two live groups of one policy at the same time: an hour group
   and, once the policy keeps data longer, the day group around it.
   */
  lemma GrowthOverlaps()
    ensures IsRun(GROWTH_STATES, GROWTH) && GROWTH_STATES[0] == EMPTY
    ensures Lengthens(GROWTH_STATES[4], GROWTH[4])
    ensures LiveApart(PolicyIn(GROWTH_STATES[5].databases, Place(0, 0)).shardGroups)
    ensures !LiveApart(PolicyIn(GROWTH_STATES[6].databases, Place(0, 0)).shardGroups)
  {
    hide Step;
    GrowthSetUp();
    FirstGroup();
    LongerGroups();
    SecondGroup();
    OnlyPlace(HOUR, [SHORT_GROUP]);
    assert !Clear(SHORT_GROUP, LONG_GROUP);
    var gs := PolicyIn(GROWTH_STATES[6].databases, Place(0, 0)).shardGroups;
    assert gs[0] == SHORT_GROUP && gs[1] == LONG_GROUP;
  }

  // ----- The group a creation makes is the one that serves its time -----

  lemma CreationServes(d: Metadata, database: string, policy: string, t: int, r: Result<Metadata, Error>)
    requires Sound(d) && AddsGroup(d, database, policy, t, r) && r.Ok?
    ensures Locate(d.databases, database, policy).Ok?
    ensures Locate(r.value.databases, database, policy) == Locate(d.databases, database, policy)
    ensures var gs := PolicyIn(r.value.databases, Locate(r.value.databases, database, policy).value).shardGroups;
            var k := GroupByTimestamp(gs, t);
      && k < |gs| && gs[k].id == d.maxShardGroupID + 1 && gs[k].shards != []
      && forall n :: 0 <= n < |gs| && Serves(gs[n], t) ==> n == k
  {
    var at := Locate(d.databases, database, policy).value;
    var p := PolicyIn(d.databases, at);
    var g := NewGroup(d, p, t);
    assert PolicySound(p);
    NewGroupSound(d, p, t);
    NewCell(d, p, t);
    hide NewGroup, Sound;
    var gs :| IsSortOf(gs, p.shardGroups + [g]) && r.value == Grown(d, at, t, gs);
    SameLocation(d, database, policy, gs);
    OneServes(p.shardGroups, g, gs, t);
    OneLookup(gs, g, t);
  }

  lemma OneServes(before: seq<ShardGroupInfo>, g: ShardGroupInfo, gs: seq<ShardGroupInfo>, t: int)
    requires GroupByTimestamp(before, t) == |before| && Serves(g, t) && multiset(gs) == multiset(before + [g])
    ensures g in gs && forall m, n :: 0 <= m < |gs| && 0 <= n < |gs| && Serves(gs[m], t) && Serves(gs[n], t) ==> m == n && gs[m] == g
  {
    assert g in before + [g];
    assert g in multiset(gs);
    forall m | 0 <= m < |gs| && Serves(gs[m], t) ensures gs[m] == g {
      assert gs[m] in multiset(gs);
      assert gs[m] in before + [g];
    }
    assert g !in before;
    assert multiset(gs)[g] == 1;
    forall m, n | 0 <= m < |gs| && 0 <= n < |gs| && Serves(gs[m], t) && Serves(gs[n], t) ensures m == n {
      if m < n {
        TwiceIn(gs, m, n);
      } else if n < m {
        TwiceIn(gs, n, m);
      }
    }
  }

  lemma OneLookup(gs: seq<ShardGroupInfo>, g: ShardGroupInfo, t: int)
    requires g in gs && Serves(g, t)
    ensures GroupByTimestamp(gs, t) < |gs|
  {
    var k :| 0 <= k < |gs| && gs[k] == g;
    assert Serves(gs[k], t);
  }

  lemma SameLocation(d: Metadata, database: string, policy: string, gs: seq<ShardGroupInfo>)
    requires Locate(d.databases, database, policy).Ok?
    ensures var at := Locate(d.databases, database, policy).value;
      && Locate(WithGroups(d, at, gs).databases, database, policy) == Ok(at)
      && PolicyIn(WithGroups(d, at, gs).databases, at).shardGroups == gs
  {
    var at := Locate(d.databases, database, policy).value;
    var dbs := WithGroups(d, at, gs).databases;
    FirstDatabase(dbs, database, at.i);
    FirstPolicy(dbs[at.i].policies, policy, at.j);
  }

  lemma FirstDatabase(dbs: seq<DatabaseInfo>, name: string, i: nat)
    requires i < |dbs| && dbs[i].name == name && forall k :: 0 <= k < i ==> dbs[k].name != name
    ensures DatabaseAt(dbs, name) == i
  {
  }

  lemma FirstPolicy(ps: seq<RetentionPolicyInfo>, name: string, j: nat)
    requires j < |ps| && ps[j].name == name && forall k :: 0 <= k < j ==> ps[k].name != name
    ensures PolicyAt(ps, name) == j
  {
  }
}
