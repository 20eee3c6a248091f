/**
 The database index (tsdb/meta.go, `DatabaseIndex`): creates and drops series
 and measurements, keeping the database map and the measurements in step.
 */
module DatabaseIndex {
  import opened TagIndex

  // ----- What the index means: the live series and the last id handed out -----

  datatype Info = Info(id: nat, measurement: string, tags: Tags)
  datatype Abstract = Abstract(live: map<string, Info>, last: nat)

  datatype Command =
    | Create(measurement: string, key: string, tags: Tags)
    | DropKeys(keys: seq<string>)
    | DropMeasurement(name: string)

  function Apply(a: Abstract, c: Command): Abstract {
    match c
    case Create(m, key, tags) =>
      if key in a.live then a else Abstract(a.live[key := Info(a.last + 1, m, tags)], a.last + 1)
    case DropKeys(keys) => a.(live := map k | k in a.live && k !in keys :: a.live[k])
    case DropMeasurement(name) => a.(live := map k | k in a.live && a.live[k].measurement != name :: a.live[k])
  }

  /** Each command by what is live after it: a new key gets the next id, and drops take away just what they name. */
  lemma ApplyExact(a: Abstract, c: Command, k: string)
    ensures var a' := Apply(a, c);
      match c
      case Create(m, key, tags) =>
        if key in a.live then a' == a
        else a'.last == a.last + 1 && key in a'.live && a'.live[key] == Info(a'.last, m, tags)
             && (k != key ==> (k in a'.live <==> k in a.live) && (k in a.live ==> a'.live[k] == a.live[k]))
      case DropKeys(keys) =>
        a'.last == a.last && (k in a'.live <==> k in a.live && k !in keys) && (k in a'.live ==> a'.live[k] == a.live[k])
      case DropMeasurement(name) =>
        a'.last == a.last && (k in a'.live <==> k in a.live && a.live[k].measurement != name) && (k in a'.live ==> a'.live[k] == a.live[k])
  {
  }

  ghost function Run(a: Abstract, cs: seq<Command>): Abstract {
    if cs == [] then a else Apply(Run(a, cs[..|cs| - 1]), cs[|cs| - 1])
  }

  ghost predicate Sound(a: Abstract) {
    && (forall k :: k in a.live ==> 1 <= a.live[k].id <= a.last)
    && (forall k, k' :: k in a.live && k' in a.live && a.live[k].id == a.live[k'].id ==> k == k')
  }

  lemma ApplySound(a: Abstract, c: Command)
    requires Sound(a)
    ensures Sound(Apply(a, c)) && a.last <= Apply(a, c).last
    ensures forall k :: k in Apply(a, c).live && Apply(a, c).live[k].id <= a.last
              ==> k in a.live && a.live[k] == Apply(a, c).live[k]
  {
  }

  /**
   In every run, ids are unique and bounded, and an id that was handed out before
   the run began belongs, if it is live at all, to the series it was given to:
   ids are never reused.
   */
  lemma {:induction false} IdsNeverReused(a: Abstract, cs: seq<Command>)
    requires Sound(a)
    ensures Sound(Run(a, cs)) && a.last <= Run(a, cs).last
    ensures forall k :: k in Run(a, cs).live && Run(a, cs).live[k].id <= a.last
              ==> k in a.live && a.live[k] == Run(a, cs).live[k]
  {
    if cs != [] {
      var before := cs[..|cs| - 1];
      IdsNeverReused(a, before);
      ApplySound(Run(a, before), cs[|cs| - 1]);
    }
  }

  /** What the database map says of its series. */
  ghost function LiveOf(series: map<string, Series>): (r: map<string, Info>)
    ensures r.Keys == series.Keys
  {
    map k | k in series :: Info(series[k].id, series[k].measurement.name, series[k].tags)
  }

  lemma LiveOfAdded(series: map<string, Series>, key: string, s: Series)
    requires key !in series
    ensures LiveOf(series[key := s]) == LiveOf(series)[key := Info(s.id, s.measurement.name, s.tags)]
  {
  }

  lemma LiveOfDropped(series: map<string, Series>, keys: set<string>)
    ensures LiveOf(series - keys) == LiveOf(series) - keys
  {
  }

  /** The series a measurement holds are those the database map holds for it. */
  ghost predicate InStep(m: Measurement, byID: map<nat, Series>, series: map<string, Series>) {
    forall id :: id in byID ==>
      var s := byID[id];
      s.id == id && s.measurement == m && s.key in series && series[s.key] == s
  }

  ghost predicate SeriesHeld(k: string, s: Series, lastID: nat, byID: map<nat, Series>) {
    s.key == k && 1 <= s.id <= lastID && s.id in byID && byID[s.id] == s
  }

  ghost predicate UniqueIds(series: map<string, Series>) {
    forall k, k' :: k in series && k' in series && series[k].id == series[k'].id ==> k == k'
  }

  lemma InStepExtended(m: Measurement, byID: map<nat, Series>, series: map<string, Series>, key: string, s: Series)
    requires InStep(m, byID, series) && key !in series && s.key == key
    ensures InStep(m, byID, series[key := s])
    ensures s.measurement == m ==> InStep(m, byID[s.id := s], series[key := s])
  {
  }

  lemma InStepDropped(m: Measurement, byID: map<nat, Series>, series: map<string, Series>, k: string)
    requires InStep(m, byID, series) && k in series && series[k].key == k
    ensures series[k].measurement != m ==> InStep(m, byID, series - {k})
    ensures InStep(m, byID - {series[k].id}, series - {k})
  {
  }

  class DatabaseIndex {
    const unescape: string -> string
    var measurements: map<string, Measurement>
    var series: map<string, Series>
    var lastID: nat

    ghost predicate SeriesValid(k: string)
      reads this, measurements.Values
      requires k in series
    {
      var m := series[k].measurement;
      m.name in measurements && measurements[m.name] == m && SeriesHeld(k, series[k], lastID, m.seriesByID)
    }

    ghost predicate MeasurementValid(n: string)
      reads this, measurements.Values
      requires n in measurements
    {
      var m := measurements[n];
      m.name == n && m.Valid() && InStep(m, m.seriesByID, series)
    }

    ghost predicate Valid()
      reads this, measurements.Values
    {
      && (forall n :: n in measurements ==> MeasurementValid(n))
      && (forall k :: k in series ==> SeriesValid(k))
      && UniqueIds(series)
    }

    ghost function View(): Abstract
      reads this
    {
      Abstract(LiveOf(series), lastID)
    }

    constructor (unescape: string -> string)
      ensures Valid() && this.unescape == unescape && View() == Abstract(map[], 0)
    {
      this.unescape := unescape;
      measurements, series, lastID := map[], map[], 0;
    }

    /** `CreateMeasurementIndexIfNotExists`. */
    method CreateMeasurementIndexIfNotExists(name: string) returns (m: Measurement)
      requires Valid()
      modifies this`measurements
      ensures Valid()
      ensures m.name == unescape(name) && m.name in measurements && m == measurements[m.name]
      ensures m in old(measurements.Values) || fresh(m)
      ensures measurements == old(measurements)[m.name := m]
    {
      hide Exact, InStep, SeriesHeld;
      var n := unescape(name);
      if n in measurements {
        m := measurements[n];
        assert MeasurementValid(n);
      } else {
        m := new Measurement(n);
        assert InStep(m, m.seriesByID, series) by { EmptyInStep(m, series); }
        measurements := measurements[n := m];
        forall k | k in series ensures SeriesValid(k) {
          assert old(SeriesValid(k));
        }
        forall x | x in measurements ensures MeasurementValid(x) {
          assert x != n ==> old(MeasurementValid(x));
        }
      }
    }

    /** `CreateSeriesIndexIfNotExists`: the series under this key, new or not. */
    method CreateSeriesIndexIfNotExists(measurementName: string, key: string, tags: Tags) returns (s: Series)
      requires Valid()
      modifies this, measurements.Values
      ensures Valid() && key in series && s == series[key]
      ensures View() == Apply(old(View()), Create(unescape(measurementName), key, tags))
    {
      hide Exact, InStep, SeriesHeld, LiveOf;
      if key in series {
        return series[key];
      }
      var m := CreateMeasurementIndexIfNotExists(measurementName);
      s := AddNew(m, key, tags);
    }

    /** Hands out the next id to a new series of measurement `m`. */
    method AddNew(m: Measurement, key: string, tags: Tags) returns (s: Series)
      requires Valid() && key !in series && m.name in measurements && measurements[m.name] == m
      modifies this`series, this`lastID, m
      ensures Valid() && key in series && s == series[key]
      ensures View() == Apply(old(View()), Create(m.name, key, tags))
    {
      hide Exact, UniqueIds, LiveOf, InStep, SeriesHeld;
      NextIdIsFresh(m);
      s := Series(key, tags, lastID + 1, m);
      LiveOfAdded(series, key, s);
      NewIdUnique(series, key, s, lastID);
      lastID := lastID + 1;
      series := series[key := s];
      var added := m.AddSeries(s);
      NewSeriesHeld(key, s, lastID, m.seriesByID);
      forall k | k in series ensures SeriesValid(k) {
        if k != key {
          assert old(SeriesValid(k));
          SeriesStillHeld(k, series[k], old(lastID), old(series[k].measurement.seriesByID), s);
        }
      }
      forall x | x in measurements ensures MeasurementValid(x) {
        assert old(MeasurementValid(x));
        InStepExtended(measurements[x], old(measurements[x].seriesByID), old(series), key, s);
      }
    }

    /** One turn of `DropSeries`. */
    method DropOne(k: string)
      requires Valid()
      modifies this`series, measurements.Values
      ensures Valid() && series == old(series) - {k}
    {
      hide Exact, UniqueIds, InStep, SeriesHeld;
      if k !in series {
        assert series - {k} == series;
        return;
      }
      var s := series[k];
      assert SeriesValid(k) && MeasurementValid(s.measurement.name);
      assert s.key == k by { KeyOfHeld(k, s, lastID, s.measurement.seriesByID); }
      DroppedIdsUnique(series, {k});
      s.measurement.DropSeries(s.id);
      series := series - {k};
      forall k' | k' in series ensures SeriesValid(k') {
        assert old(SeriesValid(k'));
        OtherSeriesHeld(old(series), k, k', lastID, old(series[k'].measurement.seriesByID));
      }
      forall x | x in measurements ensures MeasurementValid(x) {
        assert old(MeasurementValid(x));
        InStepDropped(measurements[x], old(measurements[x].seriesByID), old(series), k);
      }
    }

    /** `DropSeries`: drops the series under these keys; unknown keys are skipped. */
    method DropSeries(keys: seq<string>)
      requires Valid()
      modifies this`series, measurements.Values
      ensures Valid() && View() == Apply(old(View()), DropKeys(keys))
    {
      hide Valid, LiveOf;
      ghost var gone: set<string> := {};
      for i := 0 to |keys|
        invariant Valid() && gone == (set k | k in keys[..i]) && series == old(series) - gone
      {
        DropOne(keys[i]);
        assert (old(series) - gone) - {keys[i]} == old(series) - (gone + {keys[i]});
        gone := gone + {keys[i]};
        assert keys[..i + 1] == keys[..i] + [keys[i]];
      }
      assert keys[..|keys|] == keys;
      LiveOfDropped(old(series), gone);
    }

    /** `DropMeasurement`: drops the measurement and all of its series. */
    method DropMeasurement(name: string)
      requires Valid()
      modifies this`measurements, this`series
      ensures Valid() && View() == Apply(old(View()), Command.DropMeasurement(name))
    {
      hide Exact, UniqueIds, InStep, SeriesHeld, LiveOf;
      if name !in measurements {
        NoSuchMeasurement(name);
        return;
      }
      var m := measurements[name];
      KeysOfMeasurement(name);
      ghost var keys := KeysOf(m.seriesByID);
      DroppedIdsUnique(series, keys);
      LiveOfMeasurementDropped(series, keys, name);
      hide KeysOf;
      measurements := measurements - {name};
      series := DeleteKeys(series, m.seriesByID);
      forall k | k in series ensures SeriesValid(k) {
        assert old(SeriesValid(k)) && k in old(series) && series[k] == old(series)[k] && k !in keys;
        var n := series[k].measurement.name;
        assert n != name && n in measurements && measurements[n] == old(measurements)[n];
      }
      forall x | x in measurements ensures MeasurementValid(x) {
        assert old(MeasurementValid(x));
        InStepElsewhere(measurements[x], measurements[x].seriesByID, old(series), keys);
      }
    }

    lemma NoSuchMeasurement(name: string)
      requires Valid() && name !in measurements
      ensures Apply(View(), Command.DropMeasurement(name)) == View()
    {
      forall k | k in series ensures series[k].measurement.name != name {
        assert SeriesValid(k);
      }
    }

    /** The keys of a measurement's series are the keys the database map holds for it. */
    lemma KeysOfMeasurement(name: string)
      requires Valid() && name in measurements
      ensures forall k :: k in series ==>
                (k in KeysOf(measurements[name].seriesByID) <==> series[k].measurement == measurements[name])
                && (series[k].measurement == measurements[name] <==> series[k].measurement.name == name)
    {
      var m := measurements[name];
      assert MeasurementValid(name);
      forall k | k in series
        ensures k in KeysOf(m.seriesByID) <==> series[k].measurement == m
        ensures series[k].measurement == m <==> series[k].measurement.name == name
      {
        assert SeriesValid(k);
      }
    }

    lemma NextIdIsFresh(m: Measurement)
      requires Valid() && m.name in measurements && measurements[m.name] == m
      ensures lastID + 1 !in m.seriesByID && m.Valid()
      ensures forall k :: k in series ==> series[k].id <= lastID
    {
      assert MeasurementValid(m.name);
      forall k | k in series ensures series[k].id <= lastID {
        assert SeriesValid(k);
      }
    }
  }

  ghost function KeysOf(byID: map<nat, Series>): set<string> {
    set id | id in byID :: byID[id].key
  }

  /** The loop of `DropMeasurement`, over a measurement's series in any order. */
  method DeleteKeys(series: map<string, Series>, byID: map<nat, Series>) returns (r: map<string, Series>)
    ensures r == series - KeysOf(byID)
  {
    r := series;
    var todo := byID.Keys;
    ghost var gone: set<string> := {};
    while todo != {}
      invariant todo <= byID.Keys && r == series - gone
      invariant gone == set id | id in byID && id !in todo :: byID[id].key
      decreases |todo|
    {
      var id :| id in todo;
      r := r - {byID[id].key};
      todo := todo - {id};
      gone := gone + {byID[id].key};
    }
  }

  lemma LiveOfMeasurementDropped(series: map<string, Series>, keys: set<string>, name: string)
    requires forall k :: k in series ==> (k in keys <==> series[k].measurement.name == name)
    ensures LiveOf(series - keys)
         == map k | k in LiveOf(series) && LiveOf(series)[k].measurement != name :: LiveOf(series)[k]
  {
  }

  lemma InStepElsewhere(m: Measurement, byID: map<nat, Series>, series: map<string, Series>, keys: set<string>)
    requires InStep(m, byID, series)
    requires forall k :: k in series && k in keys ==> series[k].measurement != m
    ensures InStep(m, byID, series - keys)
  {
  }

  lemma KeyOfHeld(k: string, s: Series, last: nat, byID: map<nat, Series>)
    requires SeriesHeld(k, s, last, byID)
    ensures s.key == k
  {
  }

  lemma DroppedIdsUnique(series: map<string, Series>, keys: set<string>)
    requires UniqueIds(series)
    ensures UniqueIds(series - keys)
  {
  }

  lemma OtherSeriesHeld(series: map<string, Series>, k: string, k': string, last: nat, byID: map<nat, Series>)
    requires UniqueIds(series) && k in series && k' in series && k != k' && SeriesHeld(k', series[k'], last, byID)
    ensures SeriesHeld(k', series[k'], last, byID - {series[k].id})
  {
  }

  lemma NewSeriesHeld(k: string, s: Series, last: nat, byID: map<nat, Series>)
    requires s.key == k && s.id == last && last > 0 && s.id in byID && byID[s.id] == s
    ensures SeriesHeld(k, s, last, byID)
  {
  }

  lemma SeriesStillHeld(k: string, s: Series, last: nat, byID: map<nat, Series>, s': Series)
    requires SeriesHeld(k, s, last, byID)
    ensures SeriesHeld(k, s, last + 1, byID)
    ensures s'.id > last ==> SeriesHeld(k, s, last + 1, byID[s'.id := s'])
  {
  }

  lemma EmptyInStep(m: Measurement, series: map<string, Series>)
    ensures InStep(m, map[], series)
  {
  }

  lemma NewIdUnique(series: map<string, Series>, key: string, s: Series, last: nat)
    requires UniqueIds(series) && s.id > last && forall k :: k in series ==> series[k].id <= last
    ensures UniqueIds(series[key := s])
  {
  }
}
