/** Whole runs of the two monitors, and what their integer arithmetic costs. */
module TempRuns {
  import opened MachineInts
  import opened WatchpointModel
  import opened TempModel

  datatype Event = Register(config: ZoneConfig) | Measure(zoneId: uint32, value: int32, time: uint64)

  datatype Output = Accepted(ok: bool) | Alerts(alerts: seq<TempAlert>)

  datatype DirectTrace = DirectTrace(zones: Zones, outputs: seq<Output>)

  datatype IndexedTrace = IndexedTrace(monitor: Indexed, outputs: seq<Output>)

  predicate Aligned(z: Zones) {
    && |z.configs| == |z.states| <= MAX_ZONES
    && forall i | 0 <= i < |z.states| :: z.states[i].active
  }

  function DirectStep(a: Arithmetic, tr: DirectTrace, e: Event): (r: DirectTrace)
    requires Aligned(tr.zones)
    ensures Aligned(r.zones)
  {
    match e
    case Register(cfg) =>
      if |tr.zones.configs| >= MAX_ZONES then tr.(outputs := tr.outputs + [Accepted(false)])
      else DirectTrace(Registered(tr.zones, cfg), tr.outputs + [Accepted(true)])
    case Measure(zoneId, value, time) =>
      var (zones, alerts) := DirectReading(a, tr.zones, zoneId, value, time);
      DirectTrace(zones, tr.outputs + [Alerts(alerts)])
  }

  function IndexedStep(a: Arithmetic, tr: IndexedTrace, e: Event): (r: IndexedTrace)
    requires Aligned(tr.monitor.zones)
    ensures Aligned(r.monitor.zones)
  {
    match e
    case Register(cfg) =>
      if |tr.monitor.zones.configs| >= MAX_ZONES then tr.(outputs := tr.outputs + [Accepted(false)])
      else IndexedTrace(IndexedRegistered(a, tr.monitor, cfg), tr.outputs + [Accepted(true)])
    case Measure(zoneId, value, time) =>
      var (monitor, alerts) := IndexedReading(a, tr.monitor, zoneId, value, time);
      IndexedTrace(monitor, tr.outputs + [Alerts(alerts)])
  }

  function DirectRun(a: Arithmetic, evs: seq<Event>): (tr: DirectTrace)
    ensures Aligned(tr.zones)
  {
    if evs == [] then DirectTrace(Zones([], []), [])
    else DirectStep(a, DirectRun(a, evs[..|evs| - 1]), evs[|evs| - 1])
  }

  function IndexedRun(a: Arithmetic, evs: seq<Event>): (tr: IndexedTrace)
    ensures Aligned(tr.monitor.zones)
  {
    if evs == [] then IndexedTrace(Indexed([], Zones([], [])), [])
    else IndexedStep(a, IndexedRun(a, evs[..|evs| - 1]), evs[|evs| - 1])
  }

  // ---------- the watchpoint table stands for the zones ----------

  const ZONE_LIMIT: int := 0x8000_0000

  /** Zone ids whose doubles fit in 32 bits. */
  predicate SmallIds(z: Zones) {
    forall i | 0 <= i < |z.configs| :: z.configs[i].zoneId < ZONE_LIMIT
  }

  /** No two enabled zones share an id. */
  predicate DistinctIds(z: Zones) {
    forall i, j | 0 <= i < j < |z.configs| && z.configs[i].enabled && z.configs[j].enabled ::
      z.configs[i].zoneId != z.configs[j].zoneId
  }

  function WpOf(a: Arithmetic, cfg: ZoneConfig, even: bool): Watchpoint {
    if even then FreezeWp(a, cfg) else OverheatWp(a, cfg)
  }

  /** Entries `2i` and `2i + 1` are the limits of zone `i`, whatever they have counted. */
  predicate Linked(a: Arithmetic, table: seq<Watchpoint>, z: Zones) {
    && |table| == 2 * |z.configs|
    && forall j | 0 <= j < |table| ::
         table[j] == WpOf(a, z.configs[j / 2], j % 2 == 0).(currentCount := table[j].currentCount)
  }

  lemma IdsAreInjective(a: Arithmetic, x: uint32, y: uint32)
    requires x < ZONE_LIMIT && y < ZONE_LIMIT
    ensures FreezeWpId(a, x) == 2 * x && OverheatWpId(a, y) == 2 * y + 1
    ensures FreezeWpId(a, x) != OverheatWpId(a, y)
  {
  }

  /**
   Past the limit keys collide in both copies. The wrapping one gives a zone the two keys of the zone 2^31 below it;
   the saturating one gives every such zone a single key for both its limits, and shares it with zone 2^31 - 1.
   */
  lemma LargeIdsCollide(x: uint32)
    requires x >= ZONE_LIMIT
    ensures FreezeWpId(Wrapping, x) == FreezeWpId(Wrapping, x - ZONE_LIMIT)
    ensures OverheatWpId(Wrapping, x) == OverheatWpId(Wrapping, x - ZONE_LIMIT)
    ensures FreezeWpId(Saturating, x) == OverheatWpId(Saturating, x) == OverheatWpId(Saturating, ZONE_LIMIT - 1)
  {
  }

  /** Where a zone's limit of one kind sits in the table; past its end if no zone takes the reading. */
  function Slot(z: Zones, zoneId: uint32, even: bool): nat
    requires Aligned(z)
  {
    2 * FirstMatch(z, zoneId, 0) + if even then 0 else 1
  }

  lemma OnlyItsSlotIsHit(a: Arithmetic, table: seq<Watchpoint>, z: Zones, zoneId: uint32, even: bool, r: Reading, j: nat)
    requires Aligned(z) && SmallIds(z) && DistinctIds(z) && Linked(a, table, z) && zoneId < ZONE_LIMIT
    requires r.sensorId == if even then FreezeWpId(a, zoneId) else OverheatWpId(a, zoneId)
    requires j < |table|
    ensures Hit(table[j], r) <==> j == Slot(z, zoneId, even)
  {
    var k, i := j / 2, FirstMatch(z, zoneId, 0);
    var cfg := z.configs[k];
    IdsAreInjective(a, cfg.zoneId, zoneId);
    IdsAreInjective(a, zoneId, cfg.zoneId);
    assert Hit(table[j], r) <==> (j % 2 == 0) == even && Matches(cfg, z.states[k], zoneId);
  }

  lemma BumpedStaysLinked(a: Arithmetic, table: seq<Watchpoint>, z: Zones, r: Reading)
    requires Linked(a, table, z)
    ensures Linked(a, Bumped(table, r), z)
  {
  }

  /** With persistence 1 a hit reports at once, whatever it has counted. */
  lemma LinkedReportsAtOnce(a: Arithmetic, table: seq<Watchpoint>, z: Zones, j: nat, r: Reading)
    requires Linked(a, table, z) && j < |table| && Hit(table[j], r)
    ensures var w := WpOf(a, z.configs[j / 2], j % 2 == 0);
            && table[j].threshold == w.threshold
            && (Reports(table[j], r) <==> Compare(r.value, w.op, w.threshold))
  {
  }

  /** The threshold phase of the direct monitor. */
  predicate LimitPassed(z: Zones, zoneId: uint32, even: bool, value: int32)
    requires Aligned(z)
  {
    var i := FirstMatch(z, zoneId, 0);
    i < |z.configs| &&
    if even then value <= z.configs[i].freezeThreshold else value >= z.configs[i].overheatThreshold
  }

  /** The whole table is scanned, and only the zone's own limit can report. */
  lemma ReportOfSlot(a: Arithmetic, table: seq<Watchpoint>, z: Zones, zoneId: uint32, even: bool, r: Reading)
    requires Aligned(z) && SmallIds(z) && DistinctIds(z) && Linked(a, table, z) && zoneId < ZONE_LIMIT
    requires r.sensorId == if even then FreezeWpId(a, zoneId) else OverheatWpId(a, zoneId)
    ensures var s := Slot(z, zoneId, even);
            && (s < |table| ==> Hit(table[s], r))
            && Evaluate(table, r) ==
               (Bumped(table, r),
                if s < |table| && Reports(table[s], r) then [Violation(s, r.value, table[s].threshold, table[s].op)]
                else [])
  {
    forall j: nat | j < |table| ensures Hit(table[j], r) <==> j == Slot(z, zoneId, even) {
      OnlyItsSlotIsHit(a, table, z, zoneId, even, r, j);
    }
    SoleHitReports(table, r, Slot(z, zoneId, even));
    FullScan(table, r);
  }

  /** One evaluation of the table: it reports the zone's own limit, at once, and stays linked. */
  lemma EvaluateLinked(
    a: Arithmetic, table: seq<Watchpoint>, z: Zones, zoneId: uint32, even: bool, value: int32, r: Reading)
    requires Aligned(z) && SmallIds(z) && DistinctIds(z) && Linked(a, table, z) && zoneId < ZONE_LIMIT
    requires r == Reading(if even then FreezeWpId(a, zoneId) else OverheatWpId(a, zoneId), value)
    ensures Linked(a, Evaluate(table, r).0, z)
    ensures var i, vs := FirstMatch(z, zoneId, 0), Evaluate(table, r).1;
            if LimitPassed(z, zoneId, even, value) then
              && |vs| == 1
              && vs[0].threshold == if even then z.configs[i].freezeThreshold else z.configs[i].overheatThreshold
            else vs == []
  {
    var s := Slot(z, zoneId, even);
    ReportOfSlot(a, table, z, zoneId, even, r);
    BumpedStaysLinked(a, table, z, r);
    if s < |table| {
      assert s / 2 == FirstMatch(z, zoneId, 0) && (s % 2 == 0) == even;
      LinkedReportsAtOnce(a, table, z, s, r);
    }
  }

  /** Everything registered has a small id, and no enabled id is registered twice. */
  predicate WellKeyed(evs: seq<Event>) {
    && (forall i | 0 <= i < |evs| ::
          (if evs[i].Register? then evs[i].config.zoneId else evs[i].zoneId) < ZONE_LIMIT)
    && (forall i, j | 0 <= i < j < |evs| && EnabledRegister(evs[i]) && EnabledRegister(evs[j]) ::
          evs[i].config.zoneId != evs[j].config.zoneId)
  }

  predicate EnabledRegister(e: Event) {
    e.Register? && e.config.enabled
  }

  /** These zones were registered by events of the run, and keep their ids small and distinct. */
  ghost predicate Keyed(evs: seq<Event>, z: Zones) {
    SmallIds(z) && DistinctIds(z) && forall k | 0 <= k < |z.configs| :: Register(z.configs[k]) in evs
  }

  lemma RegisterStaysKeyed(evs: seq<Event>, z: Zones, cfg: ZoneConfig)
    requires Keyed(evs, z) && WellKeyed(evs + [Register(cfg)])
    ensures Keyed(evs + [Register(cfg)], Registered(z, cfg))
  {
    var next := evs + [Register(cfg)];
    assert next[|evs|] == Register(cfg);
    forall k | 0 <= k < |z.configs| && cfg.enabled && z.configs[k].enabled
      ensures z.configs[k].zoneId != cfg.zoneId
    {
      var i :| 0 <= i < |evs| && evs[i] == Register(z.configs[k]);
      assert next[i] == evs[i] && EnabledRegister(next[i]) && EnabledRegister(next[|evs|]);
    }
  }

  lemma {:induction false} ZonesComeFromEvents(a: Arithmetic, evs: seq<Event>)
    requires WellKeyed(evs)
    ensures Keyed(evs, DirectRun(a, evs).zones)
  {
    if evs != [] {
      var before, e := evs[..|evs| - 1], evs[|evs| - 1];
      ZonesComeFromEvents(a, before);
      assert before + [e] == evs;
      if e.Register? {
        RegisterStaysKeyed(before, DirectRun(a, before).zones, e.config);
      } else {
        assert DirectRun(a, evs).zones.configs == DirectRun(a, before).zones.configs;
      }
    }
  }

  lemma RegisterStaysLinked(a: Arithmetic, m: Indexed, cfg: ZoneConfig)
    requires Aligned(m.zones) && |m.zones.configs| < MAX_ZONES && Linked(a, m.table, m.zones)
    ensures Linked(a, IndexedRegistered(a, m, cfg).table, Registered(m.zones, cfg))
  {
  }

  lemma ReadingAgrees(a: Arithmetic, m: Indexed, zoneId: uint32, value: int32, time: uint64)
    requires Aligned(m.zones) && SmallIds(m.zones) && DistinctIds(m.zones) && Linked(a, m.table, m.zones)
    requires zoneId < ZONE_LIMIT
    ensures var (m', alerts) := IndexedReading(a, m, zoneId, value, time);
            (m'.zones, alerts) == DirectReading(a, m.zones, zoneId, value, time) && Linked(a, m'.table, m'.zones)
  {
    var z, r1, r2 := m.zones, Reading(FreezeWpId(a, zoneId), value), Reading(OverheatWpId(a, zoneId), value);
    var (table1, freeze) := Evaluate(m.table, r1);
    EvaluateLinked(a, m.table, z, zoneId, true, value, r1);
    var (table2, overheat) := Evaluate(table1, r2);
    EvaluateLinked(a, table1, z, zoneId, false, value, r2);
    ThresholdPhasesAgree(z, zoneId, value, time, freeze, overheat);
  }

  lemma ThresholdPhasesAgree(
    z: Zones, zoneId: uint32, value: int32, time: uint64, freeze: seq<Violation>, overheat: seq<Violation>)
    requires Aligned(z)
    requires var i := FirstMatch(z, zoneId, 0);
             && (if LimitPassed(z, zoneId, true, value) then
                   |freeze| == 1 && freeze[0].threshold == z.configs[i].freezeThreshold else freeze == [])
             && (if LimitPassed(z, zoneId, false, value) then
                   |overheat| == 1 && overheat[0].threshold == z.configs[i].overheatThreshold else overheat == [])
    ensures var i := FirstMatch(z, zoneId, 0);
            ThresholdAlert(freeze, zoneId, Freeze, value, time) + ThresholdAlert(overheat, zoneId, Overheat, value, time)
            == if i < |z.configs| then LimitAlerts(z.configs[i], value, time) else []
  {
  }

  /**
   The indexed monitor refines the direct one: on every run with distinct enabled zones below 2^31 they give the
   same answers in the same order, in either arithmetic.
   */
  lemma {:induction false} IndexedEqualsDirect(a: Arithmetic, evs: seq<Event>)
    requires WellKeyed(evs)
    ensures IndexedRun(a, evs).outputs == DirectRun(a, evs).outputs
    ensures IndexedRun(a, evs).monitor.zones == DirectRun(a, evs).zones
    ensures Linked(a, IndexedRun(a, evs).monitor.table, DirectRun(a, evs).zones)
  {
    if evs != [] {
      var before, e := evs[..|evs| - 1], evs[|evs| - 1];
      IndexedEqualsDirect(a, before);
      ZonesComeFromEvents(a, before);
      var m := IndexedRun(a, before).monitor;
      match e
      case Register(cfg) =>
        if |m.zones.configs| < MAX_ZONES {
          RegisterStaysLinked(a, m, cfg);
        }
      case Measure(zoneId, value, time) => ReadingAgrees(a, m, zoneId, value, time);
    }
  }

  lemma {:induction false} MatchingIsBounded(s: seq<Watchpoint>, sensorId: uint32)
    ensures Matching(s, sensorId) <= |s|
  {
    if s != [] {
      MatchingIsBounded(s[..|s| - 1], sensorId);
    }
  }

  /** Two enabled zones of one id tell the monitors apart: the table answers for either zone, the scan for the first. */
  lemma SharedIdsDisagree(a: Arithmetic, first: ZoneConfig, second: ZoneConfig, value: int32, time: uint64)
    requires first.enabled && second.enabled && first.zoneId == second.zoneId < ZONE_LIMIT
    requires first.freezeThreshold < value < first.overheatThreshold && value <= second.freezeThreshold
    ensures var m := IndexedRegistered(a, IndexedRegistered(a, Indexed([], Zones([], [])), first), second);
            && IndexedReading(a, m, first.zoneId, value, time).1 != []
            && DirectReading(a, m.zones, first.zoneId, value, time).1 == []
  {
    var m := IndexedRegistered(a, IndexedRegistered(a, Indexed([], Zones([], [])), first), second);
    var r := Reading(FreezeWpId(a, first.zoneId), value);
    assert m.table == [FreezeWp(a, first), OverheatWp(a, first), FreezeWp(a, second), OverheatWp(a, second)];
    MatchingIsBounded(m.table, r.sensorId);
    FullScan(m.table, r);
    ReportedMembers(m.table, r, Violation(2, value, second.freezeThreshold, LessOrEqual));
    assert Evaluate(m.table, r).1 != [];
    assert FirstMatch(m.zones, first.zoneId, 0) == 0;
  }

  // ---------- what the arithmetic costs ----------

  /** The saturating comparison is the true one except at a threshold of `i32::MAX` that the true difference passes. */
  lemma SaturatingCheckIff(x: int32, y: int32, rate: int32)
    ensures (Diff(Saturating, x, y) > rate <==> Diff(Exact, x, y) > rate) <==> !(rate == I32_MAX && x - y > I32_MAX)
  {
  }

  /** The two wrapping comparisons of a reading are both the true ones exactly when the readings differ by an `i32`. */
  lemma WrappingChecksIff(x: int32, y: int32, rate: int32)
    ensures (Diff(Wrapping, x, y) > rate <==> Diff(Exact, x, y) > rate) &&
            (Diff(Wrapping, y, x) > rate <==> Diff(Exact, y, x) > rate)
       <==> -I32_MAX <= x - y <= I32_MAX
  {
  }

  /** With a threshold that is not negative, no reading is both a rapid drop and a rapid rise. */
  lemma DropExcludesRise(cfg: ZoneConfig, st: ZoneState, value: int32, time: uint64)
    requires cfg.rateThreshold >= 0
    ensures |RateAlerts(Saturating, cfg, st, value, time)| <= 1
  {
  }

  predicate ModestRates(evs: seq<Event>) {
    forall i | 0 <= i < |evs| && evs[i].Register? :: evs[i].config.rateThreshold < I32_MAX
  }

  predicate ModestZones(z: Zones) {
    forall k | 0 <= k < |z.configs| :: z.configs[k].rateThreshold < I32_MAX
  }

  lemma SaturatingReadingIsExact(z: Zones, zoneId: uint32, value: int32, time: uint64)
    requires Aligned(z) && ModestZones(z)
    ensures DirectReading(Saturating, z, zoneId, value, time) == DirectReading(Exact, z, zoneId, value, time)
  {
  }

  lemma {:induction false} SaturatingRunIsExact(evs: seq<Event>)
    requires ModestRates(evs)
    ensures DirectRun(Saturating, evs) == DirectRun(Exact, evs) && ModestZones(DirectRun(Exact, evs).zones)
  {
    if evs != [] {
      var before, e := evs[..|evs| - 1], evs[|evs| - 1];
      SaturatingRunIsExact(before);
      if e.Measure? {
        SaturatingReadingIsExact(DirectRun(Exact, before).zones, e.zoneId, e.value, e.time);
      }
    }
  }

  /** The deployed monitor, table and saturation and all, gives exactly the alerts of the mathematical definition. */
  lemma DeployedMonitorIsExact(evs: seq<Event>)
    requires WellKeyed(evs) && ModestRates(evs)
    ensures IndexedRun(Saturating, evs).outputs == DirectRun(Exact, evs).outputs
  {
    IndexedEqualsDirect(Saturating, evs);
    SaturatingRunIsExact(evs);
  }
}
