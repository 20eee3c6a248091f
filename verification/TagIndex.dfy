/**
 The in-memory index of series and tags (tsdb/meta.go): `Measurement` keeps the
 posting lists of its tags, `DatabaseIndex` hands out series ids.
 */
module TagIndex {
  import opened SeriesIDs
  import opened Sequences

  type Tags = map<string, string>
  type PostingMap = map<string, map<string, seq<nat>>>

  datatype Series = Series(key: string, tags: Tags, id: nat, measurement: Measurement)

  // ----- The index a set of series calls for -----

  function Posting(posting: PostingMap, k: string, v: string): seq<nat> {
    if k in posting && v in posting[k] then posting[k][v] else []
  }

  ghost predicate HasTag(byID: map<nat, Series>, id: nat, k: string, v: string) {
    id in byID && k in byID[id].tags && byID[id].tags[k] == v
  }

  ghost predicate IdsExact(byID: map<nat, Series>, ids: seq<nat>) {
    Ascending(ids) && forall id :: id in ids <==> id in byID
  }

  /** Each posting list ascends and holds exactly the series with that tag. */
  ghost predicate PostingsExact(byID: map<nat, Series>, posting: PostingMap) {
    forall k, v :: PostingExact(byID, posting, k, v)
  }

  ghost predicate PostingExact(byID: map<nat, Series>, posting: PostingMap, k: string, v: string) {
    Ascending(Posting(posting, k, v)) && forall id :: id in Posting(posting, k, v) <==> HasTag(byID, id, k, v)
  }

  ghost predicate NoneEmpty(posting: PostingMap) {
    forall k :: k in posting ==> posting[k] != map[] && forall v :: v in posting[k] ==> posting[k][v] != []
  }

  ghost predicate Exact(byID: map<nat, Series>, ids: seq<nat>, posting: PostingMap) {
    && IdsExact(byID, ids) && PostingsExact(byID, posting) && NoneEmpty(posting)
    && forall id :: id in byID ==> byID[id].id == id
  }

  lemma SamePosting(byID: map<nat, Series>, p: PostingMap, q: PostingMap, k: string, v: string)
    requires PostingsExact(byID, p) && PostingsExact(byID, q)
    ensures Posting(p, k, v) == Posting(q, k, v)
  {
    assert PostingExact(byID, p, k, v) && PostingExact(byID, q, k, v);
    AscendingUnique(Posting(p, k, v), Posting(q, k, v));
  }

  lemma SubPostings(byID: map<nat, Series>, p: PostingMap, q: PostingMap, k: string)
    requires PostingsExact(byID, p) && PostingsExact(byID, q) && NoneEmpty(p) && NoneEmpty(q) && k in p
    ensures k in q && forall v :: v in p[k] ==> v in q[k] && q[k][v] == p[k][v]
  {
    forall v | v in p[k] ensures k in q && v in q[k] && q[k][v] == p[k][v] {
      SamePosting(byID, p, q, k, v);
    }
    assert exists v :: v in p[k];
  }

  /** The series determine the index: rebuilding it from them gives the same lists. */
  lemma IndexUnique(byID: map<nat, Series>, ids: seq<nat>, p: PostingMap, ids': seq<nat>, q: PostingMap)
    requires Exact(byID, ids, p) && Exact(byID, ids', q)
    ensures ids == ids' && p == q
  {
    AscendingUnique(ids, ids');
    forall k ensures k in p <==> k in q {
      if k in p {
        SubPostings(byID, p, q, k);
      }
      if k in q {
        SubPostings(byID, q, p, k);
      }
    }
    forall k | k in p ensures p[k] == q[k] {
      SubPostings(byID, p, q, k);
      SubPostings(byID, q, p, k);
    }
  }

  // ----- Adding one series -----

  /** Adds an id to an ascending list; `sort.Sort` runs only if it is out of place. */
  method AddID(ids: seq<nat>, id: nat) returns (r: seq<nat>)
    requires Ascending(ids) && id !in ids
    ensures Ascending(r) && forall x :: x in r <==> x in ids || x == id
  {
    r := ids + [id];
    if |r| > 1 && r[|r| - 1] < r[|r| - 2] {
      JoinExact(ids, [id]);
      r := Union(ids, [id]);
    } else {
      forall y | y in ids ensures y < id {
        assert ids[|ids| - 1] < id;
      }
      SnocAscending(ids, id);
    }
  }

  /** The posting map while the tags in `todo` are still to be added. */
  ghost predicate PartlyAdded(old_: PostingMap, posting: PostingMap, tags: Tags, id: nat, todo: set<string>) {
    && NoneEmpty(posting)
    && (forall k, v :: Ascending(Posting(posting, k, v)))
    && (forall k, v, x :: x in Posting(posting, k, v) <==>
          x in Posting(old_, k, v) || (x == id && k in tags && tags[k] == v && k !in todo))
  }

  lemma PostingUpdated(posting: PostingMap, k: string, v: string, ids: seq<nat>, k': string, v': string)
    ensures var valueMap := if k in posting then posting[k] else map[];
            var r := posting[k := valueMap[v := ids]];
            Posting(r, k', v') == if k' == k && v' == v then ids else Posting(posting, k', v')
  {
  }

  lemma OneTagAdded(old_: PostingMap, posting: PostingMap, tags: Tags, id: nat, todo: set<string>,
                    k: string, ids: seq<nat>, r: PostingMap)
    requires PartlyAdded(old_, posting, tags, id, todo) && k in todo && k in tags
    requires Ascending(ids) && ids != [] && forall x :: x in ids <==> x in Posting(posting, k, tags[k]) || x == id
    requires r == posting[k := (if k in posting then posting[k] else map[])[tags[k] := ids]]
    ensures PartlyAdded(old_, r, tags, id, todo - {k})
  {
    var v := tags[k];
    assert v in r[k] && r[k][v] == ids;
    forall k', v' ensures Ascending(Posting(r, k', v')) {
      PostingUpdated(posting, k, v, ids, k', v');
      assert Ascending(Posting(posting, k', v'));
    }
    forall k', v', x ensures x in Posting(r, k', v') <==>
      x in Posting(old_, k', v') || (x == id && k' in tags && tags[k'] == v' && k' !in todo - {k})
    {
      PostingUpdated(posting, k, v, ids, k', v');
      assert x in Posting(posting, k', v') <==>
             x in Posting(old_, k', v') || (x == id && k' in tags && tags[k'] == v' && k' !in todo);
    }
  }

  /** One turn of the loop over a new series' tags. */
  method AddTag(old_: PostingMap, posting: PostingMap, tags: Tags, id: nat, todo: set<string>, k: string)
    returns (r: PostingMap)
    requires PartlyAdded(old_, posting, tags, id, todo) && k in todo && k in tags
    requires forall k, v :: id !in Posting(old_, k, v)
    ensures PartlyAdded(old_, r, tags, id, todo - {k})
  {
    var v := tags[k];
    var valueMap := if k in posting then posting[k] else map[];
    var ids := if v in valueMap then valueMap[v] else [];
    assert ids == Posting(posting, k, v);
    assert Ascending(Posting(posting, k, v)) && id !in Posting(old_, k, v);
    assert id !in ids;
    hide PartlyAdded;
    var ids' := AddID(ids, id);
    assert id in ids';
    r := posting[k := valueMap[v := ids']];
    OneTagAdded(old_, posting, tags, id, todo, k, ids', r);
  }

  /** The loop of `AddSeries` over the tags, in any order. */
  method AddTags(posting: PostingMap, tags: Tags, id: nat) returns (r: PostingMap)
    requires PartlyAdded(posting, posting, tags, id, tags.Keys)
    requires forall k, v :: id !in Posting(posting, k, v)
    ensures PartlyAdded(posting, r, tags, id, {})
  {
    r := posting;
    var todo := tags.Keys;
    while todo != {}
      invariant todo <= tags.Keys && PartlyAdded(posting, r, tags, id, todo)
      decreases |todo|
    {
      var k :| k in todo;
      r := AddTag(posting, r, tags, id, todo, k);
      todo := todo - {k};
    }
  }

  // ----- Dropping one series -----

  function DropFromValues(values: map<string, seq<nat>>, id: nat): map<string, seq<nat>> {
    map v | v in values && Without(values[v], id) != [] :: Without(values[v], id)
  }

  function DropFromPostings(posting: PostingMap, id: nat): PostingMap {
    map k | k in posting && DropFromValues(posting[k], id) != map[] :: DropFromValues(posting[k], id)
  }

  lemma DroppedPosting(posting: PostingMap, id: nat, k: string, v: string)
    ensures Posting(DropFromPostings(posting, id), k, v) == Without(Posting(posting, k, v), id)
  {
    var r := DropFromPostings(posting, id);
    if k in posting && v in posting[k] && Without(posting[k][v], id) != [] {
      assert v in DropFromValues(posting[k], id);
    } else if k in posting && v in posting[k] {
      assert v !in DropFromValues(posting[k], id);
    }
  }

  lemma DropKeepsExact(byID: map<nat, Series>, ids: seq<nat>, posting: PostingMap, id: nat)
    requires Exact(byID, ids, posting)
    ensures Exact(byID - {id}, Without(ids, id), DropFromPostings(posting, id))
  {
    WithoutExact(ids, id);
    var rest, p := byID - {id}, DropFromPostings(posting, id);
    forall k, v ensures PostingExact(rest, p, k, v) {
      assert PostingExact(byID, posting, k, v);
      DroppedPosting(posting, id, k, v);
      WithoutExact(Posting(posting, k, v), id);
    }
  }

  /** The inner loop of `DropSeries`, over the values of one tag. */
  method DropValues(values: map<string, seq<nat>>, id: nat) returns (r: map<string, seq<nat>>)
    ensures r == DropFromValues(values, id)
  {
    r := values;
    var todo := values.Keys;
    while todo != {}
      invariant todo <= values.Keys && r.Keys <= values.Keys
      invariant forall v :: v in todo ==> v in r && r[v] == values[v]
      invariant forall v :: v in values && v !in todo ==> (v in r <==> Without(values[v], id) != [])
      invariant forall v :: v in r && v !in todo ==> r[v] == Without(values[v], id)
      decreases |todo|
    {
      var v :| v in todo;
      var ids := Filter(values[v], id);
      if |ids| == 0 {
        r := r - {v};
      } else {
        r := r[v := ids];
      }
      todo := todo - {v};
    }
  }

  /** The outer loop of `DropSeries`, over the tag keys. */
  method DropTags(posting: PostingMap, id: nat) returns (r: PostingMap)
    ensures r == DropFromPostings(posting, id)
  {
    r := posting;
    var todo := posting.Keys;
    while todo != {}
      invariant todo <= posting.Keys && r.Keys <= posting.Keys
      invariant forall k :: k in todo ==> k in r && r[k] == posting[k]
      invariant forall k :: k in posting && k !in todo ==> (k in r <==> DropFromValues(posting[k], id) != map[])
      invariant forall k :: k in r && k !in todo ==> r[k] == DropFromValues(posting[k], id)
      decreases |todo|
    {
      var k :| k in todo;
      var values := DropValues(posting[k], id);
      if |values| == 0 {
        r := r - {k};
      } else {
        r := r[k := values];
      }
      todo := todo - {k};
    }
  }

  class Measurement {
    const name: string
    var fieldNames: set<string>
    var seriesByID: map<nat, Series>
    var seriesByTagKeyValue: PostingMap
    var seriesIDs: seq<nat>

    ghost predicate Valid()
      reads this
    {
      Exact(seriesByID, seriesIDs, seriesByTagKeyValue)
    }

    constructor (name: string)
      ensures Valid() && this.name == name && seriesByID == map[] && fieldNames == {}
    {
      this.name, fieldNames := name, {};
      seriesByID, seriesByTagKeyValue, seriesIDs := map[], map[], [];
    }

    /** `AddSeries`: false if a series with this id is already there. */
    method AddSeries(s: Series) returns (added: bool)
      requires Valid()
      modifies this
      ensures Valid()
      ensures added == (s.id !in old(seriesByID))
      ensures seriesByID == if added then old(seriesByID)[s.id := s] else old(seriesByID)
      ensures fieldNames == old(fieldNames)
    {
      if s.id in seriesByID {
        return false;
      }
      StartAdding(seriesByID, seriesByTagKeyValue, s);
      var ids := AddID(seriesIDs, s.id);
      var posting := AddTags(seriesByTagKeyValue, s.tags, s.id);
      AddedIsExact(seriesByID, seriesByTagKeyValue, posting, s);
      seriesByID := seriesByID[s.id := s];
      seriesIDs, seriesByTagKeyValue := ids, posting;
      added := true;
    }

    /** `DropSeries`: the index of the remaining series; nothing for an unknown id. */
    method DropSeries(id: nat)
      requires Valid()
      modifies this
      ensures Valid()
      ensures seriesByID == old(seriesByID) - {id} && fieldNames == old(fieldNames)
    {
      if id !in seriesByID {
        return;
      }
      DropKeepsExact(seriesByID, seriesIDs, seriesByTagKeyValue, id);
      seriesByID := seriesByID - {id};
      seriesIDs := Filter(seriesIDs, id);
      seriesByTagKeyValue := DropTags(seriesByTagKeyValue, id);
    }
  }

  lemma StartAdding(byID: map<nat, Series>, posting: PostingMap, s: Series)
    requires PostingsExact(byID, posting) && NoneEmpty(posting) && s.id !in byID
    ensures PartlyAdded(posting, posting, s.tags, s.id, s.tags.Keys)
    ensures forall k, v :: s.id !in Posting(posting, k, v)
  {
    forall k, v ensures Ascending(Posting(posting, k, v)) && s.id !in Posting(posting, k, v) {
      assert PostingExact(byID, posting, k, v);
    }
  }

  lemma AddedIsExact(byID: map<nat, Series>, old_: PostingMap, posting: PostingMap, s: Series)
    requires PostingsExact(byID, old_) && s.id !in byID
    requires PartlyAdded(old_, posting, s.tags, s.id, {})
    ensures PostingsExact(byID[s.id := s], posting)
  {
    var more := byID[s.id := s];
    forall k, v ensures PostingExact(more, posting, k, v) {
      assert PostingExact(byID, old_, k, v);
      assert Ascending(Posting(posting, k, v));
      forall id ensures id in Posting(posting, k, v) <==> HasTag(more, id, k, v) {
        assert id in Posting(old_, k, v) <==> HasTag(byID, id, k, v);
      }
    }
  }

  /** Adding the live series to an empty measurement, in any order, rebuilds the same index. */
  method Rebuild(m: Measurement) returns (r: Measurement)
    requires m.Valid()
    ensures fresh(r) && r.Valid() && r.seriesByID == m.seriesByID
    ensures r.seriesIDs == m.seriesIDs && r.seriesByTagKeyValue == m.seriesByTagKeyValue
  {
    r := new Measurement(m.name);
    var todo := m.seriesByID.Keys;
    assert forall id :: id in m.seriesByID ==> m.seriesByID[id].id == id;
    hide Exact;
    while todo != {}
      invariant todo <= m.seriesByID.Keys && fresh(r) && r.Valid() && m.Valid()
      invariant r.seriesByID == m.seriesByID - todo
      decreases |todo|
    {
      var id :| id in todo;
      var added := r.AddSeries(m.seriesByID[id]);
      todo := todo - {id};
    }
    assert m.seriesByID - {} == m.seriesByID;
    IndexUnique(m.seriesByID, r.seriesIDs, r.seriesByTagKeyValue, m.seriesIDs, m.seriesByTagKeyValue);
  }
}
