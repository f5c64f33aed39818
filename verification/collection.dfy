/**
 The scrape side of `Collector` (`collect` in temper_exporter/exporter.py):
 read every registered sensor, evict the ones whose read fails, and route
 the readings of the others into the temperature and humidity gauge families.
 */
module Collection {
  import opened Registry
  import opened Devices
  import opened Collector

  /** One gauge sample: its label values and its reading, passed through untouched. */
  datatype Sample<V> = Sample(labels: seq<string>, value: V)

  /** A gauge metric family as `GaugeMetricFamily` holds it. */
  datatype Family<V> = Family(name: string, help: string, labelNames: seq<string>, samples: seq<Sample<V>>)

  const TemperatureName := "temper_temperature_celsius"
  const HumidityName := "temper_humidity_rh"
  const LabelNames := ["name", "phy", "version"]

  /** The sample `add_metric([name, t.phy(), t.version], value)` adds for one reading. */
  function Labelled<V>(r: Reading<V>, phy: string, version: string): Sample<V>
  {
    Sample([r.name, phy, version], r.value)
  }

  /**
   The samples one handle's readings add to the family for `kind`, in the
   order of the readings: exactly the readings of that kind, each labelled.
   */
  function Route<V>(kind: string, rs: seq<Reading<V>>, phy: string, version: string): (out: seq<Sample<V>>)
    ensures forall smp | smp in out :: exists r | r in rs :: r.kind == kind && smp == Labelled(r, phy, version)
    ensures forall r | r in rs && r.kind == kind :: Labelled(r, phy, version) in out
    decreases |rs|
  {
    if |rs| == 0 then []
    else
      var last := rs[|rs| - 1];
      assert rs == rs[..|rs| - 1] + [last];
      Route(kind, rs[..|rs| - 1], phy, version) + (if last.kind == kind then [Labelled(last, phy, version)] else [])
  }

  /** The positions of the readings of `kind`. */
  function KindPositions<V>(kind: string, rs: seq<Reading<V>>): set<int>
  {
    set j | 0 <= j < |rs| && rs[j].kind == kind
  }

  /** The positions of a kind in `rs` are those in all but its last reading, plus possibly the last. */
  lemma KindPositionsSnoc<V>(kind: string, rs: seq<Reading<V>>)
    requires |rs| > 0
    ensures var n := |rs| - 1;
      && n !in KindPositions(kind, rs[..n])
      && KindPositions(kind, rs) == KindPositions(kind, rs[..n]) + (if rs[n].kind == kind then {n} else {})
  {
  }

  /** One sample per reading of the kind, and none for any other reading. */
  lemma {:induction false} RouteCount<V>(kind: string, rs: seq<Reading<V>>, phy: string, version: string)
    ensures |Route(kind, rs, phy, version)| == |KindPositions(kind, rs)|
    decreases |rs|
  {
    if |rs| > 0 {
      var n := |rs| - 1;
      RouteCount(kind, rs[..n], phy, version);
      KindPositionsSnoc(kind, rs);
    }
  }

  /** Routing a concatenation routes each part in turn. */
  lemma {:induction false} RouteAppend<V>(kind: string, a: seq<Reading<V>>, b: seq<Reading<V>>, phy: string, version: string)
    ensures Route(kind, a + b, phy, version) == Route(kind, a, phy, version) + Route(kind, b, phy, version)
    decreases |b|
  {
    if |b| == 0 {
      assert a + b == a;
    } else {
      var n := |b| - 1;
      var ab := a + b;
      var tail := if b[n].kind == kind then [Labelled(b[n], phy, version)] else [];
      assert ab[..|ab| - 1] == a + b[..n];
      assert ab[|ab| - 1] == b[n];
      assert Route(kind, ab, phy, version) == Route(kind, a + b[..n], phy, version) + tail;
      assert Route(kind, b, phy, version) == Route(kind, b[..n], phy, version) + tail;
      RouteAppend(kind, a, b[..n], phy, version);
    }
  }

  /**
   Each reading of the kind yields its own sample, at its own place: the
   reading at `j` is labelled into position `p`, where `p` counts the
   readings of the kind before it. With `RouteCount` this fixes the output
   completely: one sample per reading, in reading order.
   */
  lemma RouteInOrder<V>(kind: string, rs: seq<Reading<V>>, phy: string, version: string, j: int)
    requires 0 <= j < |rs| && rs[j].kind == kind
    ensures |KindPositions(kind, rs[..j])| < |Route(kind, rs, phy, version)|
    ensures Route(kind, rs, phy, version)[|KindPositions(kind, rs[..j])|] == Labelled(rs[j], phy, version)
  {
    var before, after := rs[..j], rs[j + 1..];
    assert rs == (before + [rs[j]]) + after;
    RouteAppend(kind, before + [rs[j]], after, phy, version);
    RouteAppend(kind, before, [rs[j]], phy, version);
    assert Route(kind, [rs[j]], phy, version) == [Labelled(rs[j], phy, version)] by {
      assert [rs[j]][..0] == [];
    }
    RouteCount(kind, before, phy, version);
  }

  /** The samples of the family for `kind` over a snapshot, handle by handle in snapshot order. */
  function FamilySamples<D(==), H, V>(t: Table<D, H>, sensors: Sensors<H, V>, kind: string): seq<Sample<V>>
    decreases |t|
  {
    if |t| == 0 then []
    else
      var h := t[|t| - 1].handle;
      FamilySamples(t[..|t| - 1], sensors, kind) + Route(kind, ReadingsOf(sensors, h), sensors.phy(h), sensors.version(h))
  }

  /**
   A sample is in the family for `kind` exactly when some handle of the
   snapshot read successfully and returned a reading of that kind that
   labels to it. Readings of any other kind, temperature and humidity
   included for each other's family, add nothing.
   */
  lemma {:induction false} FamilyRouting<D, H, V>(t: Table<D, H>, sensors: Sensors<H, V>, kind: string, smp: Sample<V>)
    ensures smp in FamilySamples(t, sensors, kind) <==>
      exists i, r | 0 <= i < |t| && r in ReadingsOf(sensors, t[i].handle) ::
        r.kind == kind && smp == Labelled(r, sensors.phy(t[i].handle), sensors.version(t[i].handle))
    decreases |t|
  {
    if |t| > 0 {
      var n := |t| - 1;
      var init := t[..n];
      var h := t[n].handle;
      FamilyRouting(init, sensors, kind, smp);
      var route := Route(kind, ReadingsOf(sensors, h), sensors.phy(h), sensors.version(h));
      assert FamilySamples(t, sensors, kind) == FamilySamples(init, sensors, kind) + route;
      if smp in FamilySamples(init, sensors, kind) {
        var i, r :| 0 <= i < |init| && r in ReadingsOf(sensors, init[i].handle)
          && r.kind == kind && smp == Labelled(r, sensors.phy(init[i].handle), sensors.version(init[i].handle));
        assert t[i] == init[i];
      } else if smp in route {
        var r :| r in ReadingsOf(sensors, h) && r.kind == kind && smp == Labelled(r, sensors.phy(h), sensors.version(h));
        assert r in ReadingsOf(sensors, t[n].handle);
      }
      if exists i, r | 0 <= i < |t| && r in ReadingsOf(sensors, t[i].handle) ::
           r.kind == kind && smp == Labelled(r, sensors.phy(t[i].handle), sensors.version(t[i].handle))
      {
        var i, r :| 0 <= i < |t| && r in ReadingsOf(sensors, t[i].handle)
          && r.kind == kind && smp == Labelled(r, sensors.phy(t[i].handle), sensors.version(t[i].handle));
        if i < n {
          assert init[i] == t[i];
        }
      }
    }
  }

  /** Entries whose read succeeds. */
  function ReadSucceeds<D, H, V>(sensors: Sensors<H, V>): Entry<D, H> -> bool
  {
    (e: Entry<D, H>) => sensors.read(e.handle).ReadOk?
  }

  /** Entries whose read fails. */
  function ReadFails<D, H, V>(sensors: Sensors<H, V>): Entry<D, H> -> bool
  {
    (e: Entry<D, H>) => sensors.read(e.handle).ReadFailed?
  }

  /** The two families `collect` yields, temperature first, then humidity. */
  function Families<V>(temp: seq<Sample<V>>, humid: seq<Sample<V>>): seq<Family<V>>
  {
    [ Family(TemperatureName, "Temperature reading", LabelNames, temp),
      Family(HumidityName, "Relative humidity reading", LabelNames, humid) ]
  }

  /**
   What one collection pass does, stated over the whole snapshot at once:
   the entries whose read succeeds stay, in order; one error per entry whose
   read fails; the families hold the routed readings of the survivors.
   */
  function CollectPass<D(==), H, V>(s: State<D, H>, sensors: Sensors<H, V>): (State<D, H>, seq<Family<V>>)
  {
    ( s.(sensors := Keep(s.sensors, ReadSucceeds(sensors)),
         errors := s.errors + |Keep(s.sensors, ReadFails(sensors))|),
      Families(FamilySamples(s.sensors, sensors, "temp"), FamilySamples(s.sensors, sensors, "humid")) )
  }

  /**
   The facts about one collection pass: every failed read evicts its
   device, every good read keeps its device with the same handle, nothing
   new appears, and the registry stays valid.
   */
  lemma CollectPassFacts<D, H, V>(s: State<D, H>, sensors: Sensors<H, V>)
    requires Valid(s)
    ensures var next := CollectPass(s, sensors).0;
      && Valid(next)
      && View(next.sensors).Keys <= View(s.sensors).Keys
      && forall i | 0 <= i < |s.sensors| ::
           if sensors.read(s.sensors[i].handle).ReadFailed? then s.sensors[i].device !in View(next.sensors)
           else s.sensors[i].device in View(next.sensors) && View(next.sensors)[s.sensors[i].device] == s.sensors[i].handle
  {
    KeepView(s.sensors, ReadSucceeds(sensors));
    ViewKeys(s.sensors);
    ViewKeys(Keep(s.sensors, ReadSucceeds(sensors)));
  }

  /**
   The inner loop of `collect` over one handle's readings: `temp` readings
   go to the temperature family, `humid` readings to the humidity family,
   and any other kind is only logged.
   */
  method RouteReadings<V>(temp: seq<Sample<V>>, humid: seq<Sample<V>>, readings: seq<Reading<V>>, phy: string, version: string)
    returns (temp': seq<Sample<V>>, humid': seq<Sample<V>>)
    ensures temp' == temp + Route("temp", readings, phy, version)
    ensures humid' == humid + Route("humid", readings, phy, version)
  {
    temp', humid' := temp, humid;
    var j := 0;
    while j < |readings|
      invariant 0 <= j <= |readings|
      invariant temp' == temp + Route("temp", readings[..j], phy, version)
      invariant humid' == humid + Route("humid", readings[..j], phy, version)
    {
      var r := readings[j];
      assert readings[..j + 1][..j] == readings[..j];
      if r.kind == "temp" {
        temp' := temp' + [Labelled(r, phy, version)];
      } else if r.kind == "humid" {
        humid' := humid' + [Labelled(r, phy, version)];
      }
      j := j + 1;
    }
    assert readings[..j] == readings;
  }

  /** How the pass over `snapshot[..i]` extends to `snapshot[..i + 1]`. */
  lemma CollectStep<D, H, V>(snapshot: Table<D, H>, sensors: Sensors<H, V>, i: int)
    requires Distinct(snapshot) && 0 <= i < |snapshot|
    ensures var e := snapshot[i];
      var kept := Keep(snapshot[..i], ReadSucceeds(sensors));
      && Keep(snapshot[..i + 1], ReadSucceeds(sensors)) == kept + (if sensors.read(e.handle).ReadOk? then [e] else [])
      && Keep(snapshot[..i + 1], ReadFails(sensors))
         == Keep(snapshot[..i], ReadFails(sensors)) + (if sensors.read(e.handle).ReadFailed? then [e] else [])
      && (sensors.read(e.handle).ReadFailed? ==> Remove(kept + snapshot[i..], e.device) == kept + snapshot[i + 1..])
      && (sensors.read(e.handle).ReadOk? ==> kept + snapshot[i..] == (kept + [e]) + snapshot[i + 1..])
      && FamilySamples(snapshot[..i + 1], sensors, "temp") == FamilySamples(snapshot[..i], sensors, "temp")
           + Route("temp", ReadingsOf(sensors, e.handle), sensors.phy(e.handle), sensors.version(e.handle))
      && FamilySamples(snapshot[..i + 1], sensors, "humid") == FamilySamples(snapshot[..i], sensors, "humid")
           + Route("humid", ReadingsOf(sensors, e.handle), sensors.phy(e.handle), sensors.version(e.handle))
  {
    var e := snapshot[i];
    var kept := Keep(snapshot[..i], ReadSucceeds(sensors));
    assert snapshot[..i + 1][..i] == snapshot[..i];
    assert snapshot[i..] == [e] + snapshot[i + 1..];
    assert kept + snapshot[i..] == kept + [e] + snapshot[i + 1..];
    if sensors.read(e.handle).ReadFailed? {
      DistinctSplit(snapshot, i);
      RemoveUnique(kept, e, snapshot[i + 1..]);
    }
  }

  /** One turn of the sweep: read `snapshot[i]`, then evict it or route its readings. */
  method Visit<D(==), H, V>(snapshot: Table<D, H>, sensors: Sensors<H, V>, i: int,
                            table: Table<D, H>, errors: nat, temp: seq<Sample<V>>, humid: seq<Sample<V>>)
    returns (table': Table<D, H>, errors': nat, temp': seq<Sample<V>>, humid': seq<Sample<V>>)
    requires Distinct(snapshot) && 0 <= i < |snapshot|
    requires table == Keep(snapshot[..i], ReadSucceeds(sensors)) + snapshot[i..]
    ensures table' == Keep(snapshot[..i + 1], ReadSucceeds(sensors)) + snapshot[i + 1..]
    ensures errors' == if sensors.read(snapshot[i].handle).ReadFailed? then errors + 1 else errors
    ensures var h := snapshot[i].handle;
      temp' == temp + Route("temp", ReadingsOf(sensors, h), sensors.phy(h), sensors.version(h))
    ensures var h := snapshot[i].handle;
      humid' == humid + Route("humid", ReadingsOf(sensors, h), sensors.phy(h), sensors.version(h))
  {
    var e := snapshot[i];
    CollectStep(snapshot, sensors, i);
    var outcome := sensors.read(e.handle);
    if outcome.ReadFailed? {
      errors', temp', humid' := errors + 1, temp, humid;
      table' := Remove(table, e.device);
    } else {
      table', errors' := table, errors;
      temp', humid' := RouteReadings(temp, humid, outcome.readings, sensors.phy(e.handle), sensors.version(e.handle));
    }
  }

  /**
   The locked part of `collect`: walk a snapshot of the registry; a handle
   whose read fails is closed (a close failure is swallowed), deleted from the
   live registry and counted as an error; the readings of the others are
   routed by kind.
   */
  method Sweep<D(==), H, V>(s: State<D, H>, sensors: Sensors<H, V>)
    returns (table: Table<D, H>, errors: nat, temp: seq<Sample<V>>, humid: seq<Sample<V>>)
    requires Valid(s)
    ensures table == Keep(s.sensors, ReadSucceeds(sensors))
    ensures errors == s.errors + |Keep(s.sensors, ReadFails(sensors))|
    ensures temp == FamilySamples(s.sensors, sensors, "temp")
    ensures humid == FamilySamples(s.sensors, sensors, "humid")
  {
    temp, humid := [], [];
    table, errors := s.sensors, s.errors;
    var snapshot := s.sensors;
    var i := 0;
    while i < |snapshot|
      invariant 0 <= i <= |snapshot|
      invariant table == Keep(snapshot[..i], ReadSucceeds(sensors)) + snapshot[i..]
      invariant errors == s.errors + |Keep(snapshot[..i], ReadFails(sensors))|
      invariant temp == FamilySamples(snapshot[..i], sensors, "temp")
      invariant humid == FamilySamples(snapshot[..i], sensors, "humid")
    {
      table, errors, temp, humid := Visit(snapshot, sensors, i, table, errors, temp, humid);
      CollectStep(snapshot, sensors, i);
      i := i + 1;
    }
    assert snapshot[..i] == snapshot && snapshot[i..] == [];
  }

  /** `collect`: sweep the registry, then yield the temperature and the humidity family. */
  method Collect<D(==), H, V>(s: State<D, H>, sensors: Sensors<H, V>) returns (next: State<D, H>, families: seq<Family<V>>)
    requires Valid(s)
    ensures (next, families) == CollectPass(s, sensors)
    // always two families, temperature then humidity, even for an empty registry
    ensures |families| == 2
    ensures families[0].name == TemperatureName && families[1].name == HumidityName
    ensures families[0].labelNames == LabelNames && families[1].labelNames == LabelNames
    ensures families[0].samples == FamilySamples(s.sensors, sensors, "temp")
    ensures families[1].samples == FamilySamples(s.sensors, sensors, "humid")
    // a failed read evicts its device, a good read keeps it with the same handle
    ensures forall i | 0 <= i < |s.sensors| ::
      if sensors.read(s.sensors[i].handle).ReadFailed? then s.sensors[i].device !in View(next.sensors)
      else s.sensors[i].device in View(next.sensors) && View(next.sensors)[s.sensors[i].device] == s.sensors[i].handle
    ensures View(next.sensors).Keys <= View(s.sensors).Keys
    // one error per failed read; exceptions untouched
    ensures next.errors == s.errors + |Keep(s.sensors, ReadFails(sensors))|
    ensures next.exceptions == s.exceptions
    ensures Valid(next)
  {
    var table, errors, temp, humid := Sweep(s, sensors);
    next := s.(sensors := table, errors := errors);
    families := Families(temp, humid);
    CollectPassFacts(s, sensors);
  }
}
