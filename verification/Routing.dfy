/**
 Where points are written (cluster/points_writer.go, `MapShards`) and which
 shards a query is planned over (tsdb/query_executor.go, `PlanSelect`).
 */
module Routing {
  import opened Values
  import opened TimeGrid
  import opened ClusterData
  import opened ClusterRuns
  import opened ClusterTime
  import opened MetaStore
  import Sequences
  import Ast
  import T = TimeRange

  /** `hash` is what `HashID` gives for the point's key. */
  datatype Point = Point(time: int, hash: nat, body: string)

  function ShardFor(g: ShardGroupInfo, hash: nat): ShardInfo
    requires g.shards != []
  {
    g.shards[hash % |g.shards|]
  }

  /** The group each grid time of a request is served by. */
  type Groups = map<int, ShardGroupInfo>

  predicate Routes(groups: Groups, d: int, p: Point) {
    Truncate(p.time, d) in groups && groups[Truncate(p.time, d)].shards != []
  }

  function GroupOf(groups: Groups, d: int, p: Point): ShardGroupInfo
    requires Routes(groups, d, p)
  {
    groups[Truncate(p.time, d)]
  }

  function ShardOf(groups: Groups, d: int, p: Point): ShardInfo
    requires Routes(groups, d, p)
  {
    ShardFor(GroupOf(groups, d, p), p.hash)
  }

  /** The points of one shard, in the order they came. */
  function Picked(points: seq<Point>, groups: Groups, d: int, id: nat): seq<Point>
    requires forall p :: p in points ==> Routes(groups, d, p)
  {
    if points == [] then []
    else
      var last := points[|points| - 1];
      Picked(points[..|points| - 1], groups, d, id) + (if ShardOf(groups, d, last).id == id then [last] else [])
  }

  /** A point goes to the shard at the position of its hash modulo the number of shards of its group. */
  lemma {:induction false} PickedExact(points: seq<Point>, groups: Groups, d: int, id: nat, q: Point)
    requires forall p :: p in points ==> Routes(groups, d, p)
    ensures q in Picked(points, groups, d, id) <==>
              q in points &&
              var shards := groups[Truncate(q.time, d)].shards;
              shards != [] && shards[q.hash % |shards|].id == id
  {
    if points != [] {
      var n := |points| - 1;
      PickedExact(points[..n], groups, d, id, q);
    }
  }

  /** `ShardMapping`, which `MapPoint` fills point by point. */
  class ShardMapping {
    var points: map<nat, seq<Point>>
    var shards: map<nat, ShardInfo>

    constructor ()
      ensures points == map[] && shards == map[]
    {
      points, shards := map[], map[];
    }

    method MapPoint(shard: ShardInfo, p: Point)
      modifies this
      ensures points == old(points)[shard.id := (if shard.id in old(points) then old(points)[shard.id] else []) + [p]]
      ensures shards == old(shards)[shard.id := shard]
    {
      if shard.id !in points {
        assert [] + [p] == [p];
        points := points[shard.id := [p]];
      } else {
        points := points[shard.id := points[shard.id] + [p]];
      }
      shards := shards[shard.id := shard];
    }
  }

  /** One shard id has an entry exactly when points were routed to it, and then just those points. */
  ghost predicate MapsAt(points: map<nat, seq<Point>>, shards: map<nat, ShardInfo>, id: nat, picked: seq<Point>) {
    if picked == [] then id !in points && id !in shards
    else id in points && id in shards && points[id] == picked && shards[id].id == id
  }

  /** The mapping holds, under each shard id, just the points routed to that shard. */
  ghost predicate Maps(points: map<nat, seq<Point>>, shards: map<nat, ShardInfo>, done: seq<Point>, groups: Groups, d: int)
    requires forall p :: p in done ==> Routes(groups, d, p)
  {
    forall id :: MapsAt(points, shards, id, Picked(done, groups, d, id))
  }

  lemma PickedSnoc(points: seq<Point>, p: Point, groups: Groups, d: int, id: nat)
    requires forall q :: q in points + [p] ==> Routes(groups, d, q)
    ensures Picked(points + [p], groups, d, id)
         == (assert forall q :: q in points ==> q in points + [p]; Picked(points, groups, d, id))
            + (if (assert p in points + [p]; ShardOf(groups, d, p).id == id) then [p] else [])
  {
    assert (points + [p])[..|points|] == points;
  }

  lemma MapsStep(points: map<nat, seq<Point>>, shards: map<nat, ShardInfo>, done: seq<Point>, p: Point, groups: Groups, d: int)
    requires forall q :: q in done + [p] ==> Routes(groups, d, q)
    requires (assert forall q :: q in done ==> q in done + [p]; Maps(points, shards, done, groups, d))
    ensures p in done + [p]
    ensures var shard := ShardOf(groups, d, p);
      Maps(points[shard.id := (if shard.id in points then points[shard.id] else []) + [p]], shards[shard.id := shard],
           done + [p], groups, d)
  {
    assert forall q :: q in done ==> q in done + [p];
    assert p in done + [p];
    hide Picked, ShardOf, Routes, MapsAt;
    var shard := ShardOf(groups, d, p);
    var points' := points[shard.id := (if shard.id in points then points[shard.id] else []) + [p]];
    forall id ensures MapsAt(points', shards[shard.id := shard], id, Picked(done + [p], groups, d, id)) {
      PickedSnoc(done, p, groups, d, id);
      MapsAtStep(points, shards, id, Picked(done, groups, d, id), shard, p);
    }
  }

  lemma MapsAtStep(points: map<nat, seq<Point>>, shards: map<nat, ShardInfo>, id: nat, picked: seq<Point>, shard: ShardInfo, p: Point)
    requires MapsAt(points, shards, id, picked)
    ensures MapsAt(points[shard.id := (if shard.id in points then points[shard.id] else []) + [p]], shards[shard.id := shard],
                   id, picked + (if shard.id == id then [p] else []))
  {
  }

  /** The second loop of `MapShards`, over the points. */
  method MapPoints(points: seq<Point>, groups: Groups, d: int) returns (m: ShardMapping)
    requires forall p :: p in points ==> Routes(groups, d, p)
    ensures fresh(m) && Maps(m.points, m.shards, points, groups, d)
  {
    m := new ShardMapping();
    hide Picked, Maps;
    EmptyMaps(groups, d);
    for i := 0 to |points|
      invariant Maps(m.points, m.shards, points[..i], groups, d) && fresh(m)
    {
      assert points[..i + 1] == points[..i] + [points[i]];
      MapsStep(m.points, m.shards, points[..i], points[i], groups, d);
      m.MapPoint(ShardOf(groups, d, points[i]), points[i]);
    }
    assert points[..|points|] == points;
  }

  lemma EmptyMaps(groups: Groups, d: int)
    ensures Maps(map[], map[], [], groups, d)
  {
  }

  /** No point is lost or duplicated: each is counted in its own shard, as often as in the request, and in no other. */
  lemma {:induction false} PickedCount(points: seq<Point>, groups: Groups, d: int, id: nat, p: Point)
    requires forall q :: q in points ==> Routes(groups, d, q)
    ensures multiset(Picked(points, groups, d, id))[p]
         == if Routes(groups, d, p) && ShardOf(groups, d, p).id == id then multiset(points)[p] else 0
  {
    if points != [] {
      var n := |points| - 1;
      PickedCount(points[..n], groups, d, id, p);
      assert points == points[..n] + [points[n]];
      hide ShardOf;
    }
  }

  // ----- The groups of a request -----

  method GridTimes(points: seq<Point>, d: int) returns (times: set<int>)
    ensures forall t :: t in times <==> exists p :: p in points && Truncate(p.time, d) == t
  {
    hide Truncate;
    times := {};
    for i := 0 to |points|
      invariant forall p :: p in points[..i] ==> Truncate(p.time, d) in times
      invariant forall t :: t in times ==> exists p :: p in points && Truncate(p.time, d) == t
    {
      times := times + {Truncate(points[i].time, d)};
      assert points[i] in points;
    }
    assert points[..|points|] == points;
  }

  /** `g` serves a grid time: a group that did so from the start, or else the new cell of that time. */
  ghost predicate ServedBy(p: RetentionPolicyInfo, t: int, g: ShardGroupInfo) {
    && Serves(g, t) && g.shards != []
    && if exists h :: h in p.shardGroups && Serves(h, t) then g in p.shardGroups
       else g.start == t && g.end == t + p.shardGroupDuration
  }

  /** The policy while groups are looked up or made: it started as `p`, and `groups` has the answers so far. */
  ghost predicate Filling(p: RetentionPolicyInfo, p': RetentionPolicyInfo, groups: Groups) {
    && p' == p.(shardGroups := p'.shardGroups)
    && (forall g :: g in p.shardGroups ==> g in p'.shardGroups)
    && (forall t :: t in groups ==> groups[t] in p'.shardGroups && ServedBy(p, t, groups[t]))
    && forall g :: g in p'.shardGroups && g !in p.shardGroups ==> g.start in groups && g.end == g.start + p.shardGroupDuration
  }

  ghost predicate OnGrid(times: set<int>, d: int) {
    forall t :: t in times ==> Truncate(t, d) == t
  }

  /** A group made for one grid time does not serve another. */
  lemma OtherCell(t: int, g: ShardGroupInfo, d: int)
    requires Unit(d) && Truncate(t, d) == t && Truncate(g.start, d) == g.start && g.end == g.start + d && g.start != t
    ensures !Serves(g, t)
  {
    if g.start < t {
      MultiplesApart(g.start, t, d);
    }
  }

  lemma FillingStep(p: RetentionPolicyInfo, p': RetentionPolicyInfo, p'': RetentionPolicyInfo, groups: Groups, t: int, g: ShardGroupInfo)
    requires Unit(p.shardGroupDuration) && Filling(p, p', groups) && GainsAtMost(p', p'', t, g)
    requires OnGrid(groups.Keys + {t}, p.shardGroupDuration) && t !in groups
    ensures Filling(p, p'', groups[t := g])
  {
    var d := p.shardGroupDuration;
    forall h | h in p'.shardGroups && h !in p.shardGroups ensures !Serves(h, t) {
      assert Truncate(h.start, d) == h.start;
      OtherCell(t, h, d);
    }
    assert (exists h :: h in p'.shardGroups && Serves(h, t)) <==> (exists h :: h in p.shardGroups && Serves(h, t));
    Gained(p', p'', t, g);
    hide Truncate, Unit, Serves, GainsAtMost;
  }

  lemma Gained(p: RetentionPolicyInfo, p': RetentionPolicyInfo, t: int, g: ShardGroupInfo)
    requires GainsAtMost(p, p', t, g) && Truncate(t, p.shardGroupDuration) == t
    ensures p' == p.(shardGroups := p'.shardGroups)
    ensures forall h :: h in p.shardGroups ==> h in p'.shardGroups
    ensures forall h :: h in p'.shardGroups && h !in p.shardGroups ==> h == g
    ensures g in p'.shardGroups && ServedBy(p, t, g)
    ensures g !in p.shardGroups ==> g.start == t && g.end == t + p.shardGroupDuration
  {
    if !exists h :: h in p.shardGroups && Serves(h, t) {
      forall h ensures h in p'.shardGroups <==> h in p.shardGroups || h == g {
        assert h in p'.shardGroups <==> h in multiset(p'.shardGroups);
        assert h in p.shardGroups + [g] <==> h in multiset(p.shardGroups + [g]);
      }
    }
  }

  /** The errors of a request: no such policy, or no nodes to hold the group of a point that has none yet. */
  ghost predicate Fails(d: Metadata, database: string, policy: string, points: seq<Point>, e: Error) {
    var at := Locate(d.databases, database, policy);
    || at == Err(e)
    || (at.Ok? && d.nodes == [] && e == NodesRequired && AnyUnserved(PolicyIn(d.databases, at.value), points))
  }

  ghost predicate AnyUnserved(p: RetentionPolicyInfo, points: seq<Point>) {
    exists q :: q in points && Unserved(p, Truncate(q.time, p.shardGroupDuration))
  }

  /** A sound store whose policy, found at `at`, started as `p`. */
  ghost predicate Going(d: Metadata, database: string, policy: string, at: Place, p: RetentionPolicyInfo, groups: Groups) {
    Sound(d) && Locate(d.databases, database, policy) == Ok(at) && Filling(p, PolicyIn(d.databases, at), groups)
  }

  /** One turn of the loop below: the group of one more grid time. */
  method FillOne(store: Store, database: string, policy: string, t: int, groups: Groups, ghost at: Place, ghost p: RetentionPolicyInfo)
    returns (r: Result<Groups, Error>)
    requires Going(store.data.View(), database, policy, at, p, groups) && Unit(p.shardGroupDuration)
    requires OnGrid(groups.Keys + {t}, p.shardGroupDuration) && t !in groups
    modifies store, store.data
    ensures store.data == old(store.data) || fresh(store.data)
    ensures store.data.nodes == old(store.data.nodes)
    ensures r.Err? || store.data.nodes == [] ==> store.data.databases == old(store.data.databases)
    ensures r.Err? ==> r.error == NodesRequired && store.data.nodes == [] && Unserved(PolicyIn(old(store.data.databases), at), t)
    ensures r.Err? ==> Going(store.data.View(), database, policy, at, p, groups)
    ensures r.Ok? && store.data.nodes == [] ==> !Unserved(PolicyIn(old(store.data.databases), at), t)
    ensures r.Ok? ==> r.value.Keys == groups.Keys + {t} && Going(store.data.View(), database, policy, at, p, r.value)
  {
    hide Sound, Filling, GainsAtMost, Unit, Locate, Unserved;
    ghost var p' := PolicyIn(store.data.databases, at);
    var sg := store.CreateShardGroupIfNotExists(database, policy, t);
    if sg.Err? {
      return Err(sg.error);
    }
    ServedBefore(p', PolicyIn(store.data.databases, at), t, sg.value.value);
    FillingStep(p, p', PolicyIn(store.data.databases, at), groups, t, sg.value.value);
    return Ok(groups[t := sg.value.value]);
  }

  lemma ServedBefore(p: RetentionPolicyInfo, p': RetentionPolicyInfo, t: int, g: ShardGroupInfo)
    requires GainsAtMost(p, p', t, g)
    ensures p' == p ==> !Unserved(p, t)
  {
  }

  lemma GridWithin(times: set<int>, some: set<int>, d: int)
    requires OnGrid(times, d) && some <= times
    ensures OnGrid(some, d)
  {
  }

  lemma EmptyOrNot(times: set<int>)
    ensures times == {} || exists t :: t in times
  {
    if forall t :: t !in times {
      assert times == {};
    }
  }

  method AnyOf(times: set<int>) returns (t: int)
    requires times != {}
    ensures t in times
  {
    EmptyOrNot(times);
    t :| t in times;
  }

  /** The first loop of `MapShards`, over the grid times in whatever order the map gives them. */
  method FillGroups(store: Store, database: string, policy: string, times: set<int>, ghost at: Place, ghost p: RetentionPolicyInfo)
    returns (r: Result<Groups, Error>)
    requires Going(store.data.View(), database, policy, at, p, map[]) && PolicyIn(store.data.databases, at) == p
    requires Unit(p.shardGroupDuration) && OnGrid(times, p.shardGroupDuration)
    modifies store, store.data
    ensures store.data == old(store.data) || fresh(store.data)
    ensures r.Err? ==> r.error == NodesRequired && exists groups :: Going(store.data.View(), database, policy, at, p, groups)
    ensures r.Err? ==> old(store.data.nodes) == [] && store.data.databases == old(store.data.databases)
    ensures r.Err? ==> exists t :: t in times && Unserved(p, t)
    ensures r.Ok? && old(store.data.nodes) == [] ==> forall t :: t in times ==> !Unserved(p, t)
    ensures r.Ok? ==> r.value.Keys == times && Going(store.data.View(), database, policy, at, p, r.value)
  {
    hide *;
    var groups: Groups := map[];
    var todo := times;
    while todo != {}
      invariant store.data == old(store.data) || fresh(store.data)
      invariant todo <= times && groups.Keys == times - todo
      invariant Going(store.data.View(), database, policy, at, p, groups)
      invariant store.data.nodes == old(store.data.nodes)
      invariant store.data.nodes == [] ==> store.data.databases == old(store.data.databases)
      invariant store.data.nodes == [] ==> forall t :: t in groups ==> !Unserved(p, t)
      decreases |todo|
    {
      var t := AnyOf(todo);
      GridWithin(times, groups.Keys + {t}, p.shardGroupDuration);
      r := FillOne(store, database, policy, t, groups, at, p);
      if r.Err? {
        return;
      }
      groups := r.value;
      todo := todo - {t};
    }
    return Ok(groups);
  }

  lemma UnitPolicy(d: Metadata, at: Place)
    requires Sound(d) && IsPlace(d.databases, at)
    ensures Unit(PolicyIn(d.databases, at).shardGroupDuration) && PolicySound(PolicyIn(d.databases, at))
  {
  }

  lemma FillingNone(p: RetentionPolicyInfo)
    ensures Filling(p, p, map[])
  {
  }

  /** What a mapping answers for: the policy as it was and as it is, and the group of each grid time. */
  ghost predicate Mapped(d: Metadata, d': Metadata, database: string, policy: string, points: seq<Point>, groups: Groups) {
    var at := Locate(d.databases, database, policy);
    && at.Ok? && Locate(d'.databases, database, policy) == at
    && var p := PolicyIn(d.databases, at.value);
       && Filling(p, PolicyIn(d'.databases, at.value), groups)
       && forall q :: q in points ==> Routes(groups, p.shardGroupDuration, q)
  }

  /** `MapShards`. */
  method MapShards(store: Store, database: string, policy: string, points: seq<Point>)
    returns (r: Result<ShardMapping, Error>, ghost groups: Groups)
    requires store.Valid()
    modifies store, store.data
    ensures store.Valid()
    ensures r.Err? ==> Fails(old(store.data.View()), database, policy, points, r.error) && store.data.databases == old(store.data.databases)
    ensures r.Ok? ==> forall e :: !Fails(old(store.data.View()), database, policy, points, e)
    ensures r.Ok? ==>
      && Mapped(old(store.data.View()), store.data.View(), database, policy, points, groups)
      && fresh(r.value)
      && Maps(r.value.points, r.value.shards, points, groups,
              PolicyIn(old(store.data.databases), Locate(old(store.data.databases), database, policy).value).shardGroupDuration)
  {
    groups := map[];
    var at := FindPlace(store.data.databases, database, policy);
    if at.Err? {
      return Err(at.error), groups;
    }
    var p := PolicyIn(store.data.databases, at.value);
    UnitPolicy(store.data.View(), at.value);
    var times := GridTimes(points, p.shardGroupDuration);
    TimesOnGrid(points, p.shardGroupDuration, times);
    FillingNone(p);
    hide Sound, Filling, Unit, Truncate, Maps, Unserved, AnyUnserved;
    var filled := FillGroups(store, database, policy, times, at.value, p);
    UnservedTimes(p, points, times);
    if filled.Err? {
      return Err(filled.error), groups;
    }
    groups := filled.value;
    FilledRoutes(p, PolicyIn(store.data.databases, at.value), filled.value, points);
    var m := MapPoints(points, filled.value, p.shardGroupDuration);
    return Ok(m), groups;
  }

  lemma UnservedTimes(p: RetentionPolicyInfo, points: seq<Point>, times: set<int>)
    requires forall t :: t in times <==> exists q :: q in points && Truncate(q.time, p.shardGroupDuration) == t
    ensures AnyUnserved(p, points) <==> exists t :: t in times && Unserved(p, t)
  {
    hide Unserved, Truncate;
    if AnyUnserved(p, points) {
      var q :| q in points && Unserved(p, Truncate(q.time, p.shardGroupDuration));
      assert Truncate(q.time, p.shardGroupDuration) in times;
    }
  }

  lemma TimesOnGrid(points: seq<Point>, d: int, times: set<int>)
    requires Unit(d) && forall t :: t in times <==> exists p :: p in points && Truncate(p.time, d) == t
    ensures OnGrid(times, d)
  {
    forall t | t in times ensures Truncate(t, d) == t {
      var p :| p in points && Truncate(p.time, d) == t;
      CellOf(p.time, d);
    }
  }

  lemma FilledRoutes(p: RetentionPolicyInfo, p': RetentionPolicyInfo, groups: Groups, points: seq<Point>)
    requires Filling(p, p', groups)
    requires forall q :: q in points ==> Truncate(q.time, p.shardGroupDuration) in groups
    ensures forall q :: q in points ==> Routes(groups, p.shardGroupDuration, q)
  {
    hide Truncate;
    forall q | q in points ensures Routes(groups, p.shardGroupDuration, q) {
      assert ServedBy(p, Truncate(q.time, p.shardGroupDuration), groups[Truncate(q.time, p.shardGroupDuration)]);
    }
  }

  // ----- Points land in groups that contain their time -----

  /** A group that serves a grid time and is no shorter than the grid contains all of that cell. */
  lemma LongEnough(g: ShardGroupInfo, x: int, d: int)
    requires Unit(d) && Cell(g.start, g.end) && Serves(g, Truncate(x, d)) && g.end - g.start >= d
    ensures g.Contains(x)
  {
    CellOf(x, d);
    ShorterCellNests(Truncate(x, d), Truncate(x, d) + d, g.start, g.end);
  }

  /** When no live group is shorter than the policy's groups are now, every point is put in a group that contains its time. */
  lemma RoutedWell(d: Metadata, d': Metadata, database: string, policy: string, points: seq<Point>, groups: Groups, q: Point)
    requires Sound(d) && Mapped(d, d', database, policy, points, groups) && q in points
    requires var p := PolicyIn(d.databases, Locate(d.databases, database, policy).value);
             AtLeast(p.shardGroups, p.shardGroupDuration)
    ensures var at := Locate(d.databases, database, policy).value;
            var g := GroupOf(groups, PolicyIn(d.databases, at).shardGroupDuration, q);
      && g in PolicyIn(d'.databases, at).shardGroups && !g.Deleted() && g.Contains(q.time)
      && ShardOf(groups, PolicyIn(d.databases, at).shardGroupDuration, q) in g.shards
  {
    var at := Locate(d.databases, database, policy).value;
    var p := PolicyIn(d.databases, at);
    var t := Truncate(q.time, p.shardGroupDuration);
    assert PolicySound(p) && Routes(groups, p.shardGroupDuration, q);
    var g := groups[t];
    assert ServedBy(p, t, g);
    CellOf(q.time, p.shardGroupDuration);
    if g in p.shardGroups {
      LongEnough(g, q.time, p.shardGroupDuration);
    }
  }

  /**
   Whatever live groups overlap: a point is put in a group that contains its time if
   every live group that serves its grid time does, and is not if some serve it but
   none of them reaches the point.
   */
  lemma RoutedByAll(d: Metadata, d': Metadata, database: string, policy: string, points: seq<Point>, groups: Groups, q: Point)
    requires Sound(d) && Mapped(d, d', database, policy, points, groups) && q in points
    ensures var p := PolicyIn(d.databases, Locate(d.databases, database, policy).value);
            var t := Truncate(q.time, p.shardGroupDuration);
            var g := GroupOf(groups, p.shardGroupDuration, q);
      && ((forall h :: h in p.shardGroups && Serves(h, t) ==> h.Contains(q.time)) ==> g.Contains(q.time))
      && (!Unserved(p, t) && (forall h :: h in p.shardGroups && Serves(h, t) ==> !h.Contains(q.time)) ==> !g.Contains(q.time))
      && (Unserved(p, t) || (g in p.shardGroups && Serves(g, t)))
  {
    var p := PolicyIn(d.databases, Locate(d.databases, database, policy).value);
    var t := Truncate(q.time, p.shardGroupDuration);
    assert PolicySound(p) && Routes(groups, p.shardGroupDuration, q);
    assert ServedBy(p, t, groups[t]);
    CellOf(q.time, p.shardGroupDuration);
  }

  /**
   In general, for a policy whose live groups do not overlap, a point is put in a
   group that contains its time if and only if no live group serves the point's
   grid time without reaching the point.
   */
  lemma RoutedExact(d: Metadata, d': Metadata, database: string, policy: string, points: seq<Point>, groups: Groups, q: Point)
    requires Sound(d) && Mapped(d, d', database, policy, points, groups) && q in points
    requires LiveApart(PolicyIn(d.databases, Locate(d.databases, database, policy).value).shardGroups)
    ensures var p := PolicyIn(d.databases, Locate(d.databases, database, policy).value);
      GroupOf(groups, p.shardGroupDuration, q).Contains(q.time) <==>
      !exists g :: g in p.shardGroups && Serves(g, Truncate(q.time, p.shardGroupDuration)) && !g.Contains(q.time)
  {
    RoutedByAll(d, d', database, policy, points, groups, q);
    var p := PolicyIn(d.databases, Locate(d.databases, database, policy).value);
    var t := Truncate(q.time, p.shardGroupDuration);
    var g := GroupOf(groups, p.shardGroupDuration, q);
    hide Sound, Mapped, Locate, Truncate;
    forall h | h in p.shardGroups && Serves(h, t) ensures h == g {
      OneLive(p.shardGroups, g, h, t);
    }
  }

  lemma OneLive(gs: seq<ShardGroupInfo>, g: ShardGroupInfo, h: ShardGroupInfo, t: int)
    requires LiveApart(gs) && g in gs && h in gs && Serves(g, t) && Serves(h, t)
    ensures g == h
  {
    hide LiveApart;
    var m :| 0 <= m < |gs| && gs[m] == g;
    var n :| 0 <= n < |gs| && gs[n] == h;
    AtMostOne(gs, m, n, t);
  }

  lemma AtMostOne(gs: seq<ShardGroupInfo>, m: nat, n: nat, t: int)
    requires LiveApart(gs) && m < |gs| && n < |gs|
    ensures m != n ==> !(Serves(gs[m], t) && Serves(gs[n], t))
  {
    if m < n {
      assert Clear(gs[m], gs[n]);
    } else if n < m {
      assert Clear(gs[n], gs[m]);
    }
  }

  /**
   An hour group left in a policy that now makes day groups, as a run of commands
   leaves it, takes points of later hours.
   */
  lemma ShortGroupTakesLaterPoints()
    ensures IsRun(GROWTH_STATES, GROWTH) && GROWTH_STATES[0] == EMPTY
    ensures var d, q, groups := GROWTH_STATES[5], Point(2 * HOUR, 0, ""), map[0 := SHORT_GROUP];
      && Mapped(d, d, "d", "p", [q], groups)
      && !GroupOf(groups, PolicyIn(d.databases, Place(0, 0)).shardGroupDuration, q).Contains(q.time)
  {
    hide Step;
    GrowthOverlaps();
    OnlyPlace(2 * DAY, [SHORT_GROUP]);
    assert Truncate(2 * HOUR, DAY) == 0;
    assert SHORT_GROUP in [SHORT_GROUP] && Serves(SHORT_GROUP, 0);
  }

  // ----- Planning -----

  method ShardGroupsByTimeRange(gs: seq<ShardGroupInfo>, min: int, max: int) returns (r: seq<ShardGroupInfo>)
    ensures forall g :: g in r <==> g in gs && !g.Deleted() && g.Overlaps(min, max)
    ensures SortedByStart(gs) ==> SortedByStart(r)
  {
    r := [];
    for i := 0 to |gs|
      invariant forall g :: g in r <==> g in gs[..i] && !g.Deleted() && g.Overlaps(min, max)
      invariant SortedByStart(gs) ==> SortedByStart(r)
    {
      if gs[i].Deleted() || !gs[i].Overlaps(min, max) {
        continue;
      }
      forall k | 0 <= k < |r| && SortedByStart(gs) ensures r[k].start <= gs[i].start {
        assert r[k] in r;
      }
      r := r + [gs[i]];
    }
    assert gs[..|gs|] == gs;
  }

  datatype Source = Source(database: string, policy: string)

  /** A shard of a live group, of one source, that overlaps the time range. */
  ghost predicate InPlan(dbs: seq<DatabaseInfo>, src: Source, min: int, max: int, id: nat) {
    var at := Locate(dbs, src.database, src.policy);
    at.Ok? && exists g, s :: g in PolicyIn(dbs, at.value).shardGroups && !g.Deleted() && g.Overlaps(min, max) && s in g.shards && s.id == id
  }

  /** The shards found so far: `ids` lists the keys of `shards`, each once. */
  ghost predicate Listing(ids: seq<nat>, shards: map<nat, ShardInfo>) {
    Sequences.Distinct(ids) && forall id :: id in ids <==> id in shards
  }

  method AddShards(g: ShardGroupInfo, ids: seq<nat>, shards: map<nat, ShardInfo>) returns (ids': seq<nat>, shards': map<nat, ShardInfo>)
    requires Listing(ids, shards)
    ensures Listing(ids', shards')
    ensures forall id :: id in ids' <==> id in ids || exists s :: s in g.shards && s.id == id
  {
    ids', shards' := ids, shards;
    for i := 0 to |g.shards|
      invariant Listing(ids', shards')
      invariant forall id :: id in ids' <==> id in ids || exists s :: s in g.shards[..i] && s.id == id
    {
      var sh := g.shards[i];
      assert g.shards[..i + 1] == g.shards[..i] + [sh];
      if sh.id !in shards' {
        shards' := shards'[sh.id := sh];
        ids' := ids' + [sh.id];
      }
    }
    assert g.shards[..|g.shards|] == g.shards;
  }

  method AddGroups(gs: seq<ShardGroupInfo>, ids: seq<nat>, shards: map<nat, ShardInfo>) returns (ids': seq<nat>, shards': map<nat, ShardInfo>)
    requires Listing(ids, shards)
    ensures Listing(ids', shards')
    ensures forall id :: id in ids' <==> id in ids || exists g, s :: g in gs && s in g.shards && s.id == id
  {
    ids', shards' := ids, shards;
    for i := 0 to |gs|
      invariant Listing(ids', shards')
      invariant forall id :: id in ids' <==> id in ids || exists g, s :: g in gs[..i] && s in g.shards && s.id == id
    {
      hide Listing;
      assert gs[..i + 1] == gs[..i] + [gs[i]];
      ids', shards' := AddShards(gs[i], ids', shards');
    }
    assert gs[..|gs|] == gs;
  }

  method AddSource(store: Store, src: Source, min: int, max: int, ids: seq<nat>, shards: map<nat, ShardInfo>)
    returns (err: Option<Error>, ids': seq<nat>, shards': map<nat, ShardInfo>)
    requires Listing(ids, shards)
    ensures err.Some? <==> Locate(store.data.databases, src.database, src.policy).Err?
    ensures err.None? ==> Listing(ids', shards')
    ensures err.None? ==> forall id :: id in ids' <==> id in ids || InPlan(store.data.databases, src, min, max, id)
  {
    var at := FindPlace(store.data.databases, src.database, src.policy);
    if at.Err? {
      return Some(at.error), ids, shards;
    }
    hide Locate, Listing;
    var gs := ShardGroupsByTimeRange(PolicyIn(store.data.databases, at.value).shardGroups, min, max);
    ids', shards' := AddGroups(gs, ids, shards);
    return None, ids', shards';
  }

  /** The shard selection of `PlanSelect`. */
  method PlanShards(store: Store, sources: seq<Source>, min: int, max: int) returns (r: Result<seq<nat>, Error>)
    ensures r.Err? <==> exists src :: src in sources && Locate(store.data.databases, src.database, src.policy).Err?
    ensures r.Ok? ==>
      && (forall m, n :: 0 <= m < n < |r.value| ==> r.value[m] < r.value[n])
      && forall id :: id in r.value <==> exists src :: src in sources && InPlan(store.data.databases, src, min, max, id)
  {
    var ids, shards := [], map[];
    ghost var dbs := store.data.databases;
    for i := 0 to |sources|
      invariant forall src :: src in sources[..i] ==> Locate(dbs, src.database, src.policy).Ok?
      invariant Listing(ids, shards)
      invariant forall id :: id in ids <==> exists src :: src in sources[..i] && InPlan(dbs, src, min, max, id)
    {
      hide Locate, Listing, InPlan;
      assert sources[..i + 1] == sources[..i] + [sources[i]];
      var err, ids', shards' := AddSource(store, sources[i], min, max, ids, shards);
      if err.Some? {
        assert sources[i] in sources;
        return Err(err.value);
      }
      ids, shards := ids', shards';
    }
    assert sources[..|sources|] == sources;
    var sorted := SortIds(ids);
    return Ok(sorted);
  }

  method SortIds(ids: seq<nat>) returns (r: seq<nat>)
    requires Sequences.Distinct(ids)
    ensures forall m, n :: 0 <= m < n < |r| ==> r[m] < r[n]
    ensures forall id :: id in r <==> id in ids
  {
    r := Sequences.Sort(ids, (a, b) => a < b);
    Sequences.DistinctPermuted(ids, r);
    Sequences.SameElements(r, ids);
  }

  // ----- A point written is a point planned for -----

  function PlanRange(cond: Option<Ast.Expr>, now: int): T.Range {
    var r := if cond.Some? then T.RangeAfter(cond.value, T.UNBOUNDED) else T.UNBOUNDED;
    T.Range(if r.min == 0 then T.UNIX_EPOCH else r.min, if r.max == 0 then now else r.max)
  }

  /** A time that satisfies the condition, and is neither before 1970 nor in the future, is in the planned range. */
  lemma PlanCovers(cond: Option<Ast.Expr>, now: int, t: int, other: Ast.Expr -> bool)
    requires cond.Some? ==> T.Conjunction(cond.value) && T.Satisfies(cond.value, t, other)
    requires T.UNIX_EPOCH <= t <= now
    ensures PlanRange(cond, now).min <= t <= PlanRange(cond, now).max
  {
    if cond.Some? {
      T.RangeContains(cond.value, t, other, T.UNBOUNDED);
    }
  }

  /** Whatever range is planned, if it contains the time of a point, the plan has the shard the point was written to. */
  lemma WrittenIsPlanned(d: Metadata, d': Metadata, src: Source, points: seq<Point>, groups: Groups, q: Point, min: int, max: int)
    requires Sound(d) && Mapped(d, d', src.database, src.policy, points, groups) && q in points
    requires var p := PolicyIn(d.databases, Locate(d.databases, src.database, src.policy).value);
             AtLeast(p.shardGroups, p.shardGroupDuration)
    requires min <= q.time <= max
    ensures var p := PolicyIn(d.databases, Locate(d.databases, src.database, src.policy).value);
      InPlan(d'.databases, src, min, max, ShardOf(groups, p.shardGroupDuration, q).id)
  {
    hide Sound, Locate, AtLeast, Filling, Truncate, Routes;
    RoutedWell(d, d', src.database, src.policy, points, groups, q);
  }

  /** What is planned for: the range of the condition, from 1970 if it has no lower bound and up to now if it has no upper. */
  lemma PlanExact(cond: Option<Ast.Expr>, now: int, t: int)
    ensures var r := if cond.Some? then T.RangeAfter(cond.value, T.UNBOUNDED) else T.UNBOUNDED;
      PlanRange(cond, now).min <= t <= PlanRange(cond, now).max <==>
        T.Within(r, t) && (r.min == 0 ==> T.UNIX_EPOCH <= t) && (r.max == 0 ==> t <= now)
  {
  }

  /** A group overlaps a range of times exactly if it contains one of them. */
  lemma OverlapsExact(g: ShardGroupInfo, min: int, max: int)
    requires g.start < g.end && min <= max
    ensures g.Overlaps(min, max) <==> exists t :: min <= t <= max && g.Contains(t)
  {
    if g.Overlaps(min, max) {
      var t := if g.start < min then min else g.start;
      assert g.Contains(t);
    }
  }
}
