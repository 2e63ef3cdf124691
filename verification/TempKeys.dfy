/** Exactly when the watchpoint table answers a reading as the direct scan does: for any zones, any ids, any run. */
module TempKeys {
  import opened MachineInts
  import opened WatchpointModel
  import opened TempModel
  import opened TempRuns

  /** The limit that entry `j` of the table stands for. */
  function WpAt(a: Arithmetic, z: Zones, j: nat): Watchpoint
    requires j < 2 * |z.configs|
  {
    WpOf(a, z.configs[j / 2], j % 2 == 0)
  }

  function Key(a: Arithmetic, zoneId: uint32, even: bool): uint32 {
    if even then FreezeWpId(a, zoneId) else OverheatWpId(a, zoneId)
  }

  /** Entry `j` is enabled, sits on the key, and its limit is violated. */
  predicate Violated(a: Arithmetic, z: Zones, key: uint32, value: int32, j: nat)
    requires j < 2 * |z.configs|
  {
    var w := WpAt(a, z, j);
    w.enabled && w.sensorId == key && Compare(value, w.op, w.threshold)
  }

  /** The first violated entry on the key at or after `j`; past the table if there is none. */
  function FirstViolated(a: Arithmetic, z: Zones, key: uint32, value: int32, j: nat): (k: nat)
    requires j <= 2 * |z.configs|
    ensures j <= k <= 2 * |z.configs|
    ensures k < 2 * |z.configs| ==> Violated(a, z, key, value, k)
    ensures forall p | j <= p < k :: !Violated(a, z, key, value, p)
    decreases 2 * |z.configs| - j
  {
    if j == 2 * |z.configs| || Violated(a, z, key, value, j) then j else FirstViolated(a, z, key, value, j + 1)
  }

  function OwnLimit(z: Zones, zoneId: uint32, even: bool): int32
    requires Aligned(z) && FirstMatch(z, zoneId, 0) < |z.configs|
  {
    var cfg := z.configs[FirstMatch(z, zoneId, 0)];
    if even then cfg.freezeThreshold else cfg.overheatThreshold
  }

  /**
   The key answers for its zone: nothing on it is violated unless the zone's own limit is, and then the first violated
   entry carries that limit. A matter of the registered limits alone.
   */
  predicate Answers(a: Arithmetic, z: Zones, zoneId: uint32, even: bool, value: int32)
    requires Aligned(z)
  {
    var j := FirstViolated(a, z, Key(a, zoneId, even), value, 0);
    if LimitPassed(z, zoneId, even, value)
    then j < 2 * |z.configs| && WpAt(a, z, j).threshold == OwnLimit(z, zoneId, even)
    else j == 2 * |z.configs|
  }

  // ---------- what one evaluation reports first ----------

  lemma {:induction false} FirstOfReported(s: seq<Watchpoint>, r: Reading)
    ensures Reported(s, r) == [] <==> forall j | 0 <= j < |s| :: !Reports(s[j], r)
    ensures Reported(s, r) != [] ==>
              var v := Reported(s, r)[0];
              && v.watchpointId < |s| && Reports(s[v.watchpointId], r)
              && v.threshold == s[v.watchpointId].threshold
              && forall j | 0 <= j < v.watchpointId :: !Reports(s[j], r)
  {
    if s != [] {
      FirstOfReported(s[..|s| - 1], r);
    }
  }

  /** The first report of an evaluation is the table's first: the break comes too late to hide it. */
  lemma FirstOfEvaluate(s: seq<Watchpoint>, r: Reading)
    ensures var vs := Evaluate(s, r).1;
            && (vs == [] <==> forall j | 0 <= j < |s| :: !Reports(s[j], r))
            && (vs != [] ==>
                  && vs[0].watchpointId < |s| && Reports(s[vs[0].watchpointId], r)
                  && vs[0].threshold == s[vs[0].watchpointId].threshold
                  && forall j | 0 <= j < vs[0].watchpointId :: !Reports(s[j], r))
  {
    var k := Cut(s, r, 0);
    CutIsFullOrEnd(s, r, 0);
    FirstOfReported(s[..k], r);
    assert forall j | 0 <= j < k :: s[..k][j] == s[j];
  }

  lemma LinkedReports(a: Arithmetic, table: seq<Watchpoint>, z: Zones, key: uint32, value: int32, j: nat)
    requires Linked(a, table, z) && j < |table|
    ensures Reports(table[j], Reading(key, value)) <==> Violated(a, z, key, value, j)
    ensures table[j].threshold == WpAt(a, z, j).threshold
  {
    assert table[j] == WpAt(a, z, j).(currentCount := table[j].currentCount);
  }

  /** An evaluation of a linked table reports first the first violated entry on the key. */
  lemma EvaluateFirst(a: Arithmetic, table: seq<Watchpoint>, z: Zones, key: uint32, value: int32)
    requires Linked(a, table, z)
    ensures var vs, j := Evaluate(table, Reading(key, value)).1, FirstViolated(a, z, key, value, 0);
            && (vs == [] <==> j == |table|)
            && (vs != [] ==> j < |table| && vs[0].threshold == WpAt(a, z, j).threshold)
  {
    var r := Reading(key, value);
    FirstOfEvaluate(table, r);
    forall j: nat | j < |table|
      ensures Reports(table[j], r) <==> Violated(a, z, key, value, j)
      ensures table[j].threshold == WpAt(a, z, j).threshold
    {
      LinkedReports(a, table, z, key, value, j);
    }
  }

  /** Whatever an evaluation counts or skips, the table keeps standing for the zones. */
  lemma EvaluateStaysLinked(a: Arithmetic, table: seq<Watchpoint>, z: Zones, r: Reading)
    requires Linked(a, table, z)
    ensures Linked(a, Evaluate(table, r).0, z)
  {
    var t, k := Evaluate(table, r).0, Cut(table, r, 0);
    forall j | 0 <= j < |t| ensures t[j] == table[j].(currentCount := t[j].currentCount) {
      assert t[j] == if j < k then Bump(table[j], r) else table[j];
    }
  }

  // ---------- one threshold phase ----------

  function OwnAlert(z: Zones, zoneId: uint32, even: bool, value: int32, time: uint64): seq<TempAlert>
    requires Aligned(z)
  {
    if LimitPassed(z, zoneId, even, value)
    then [TempAlert(zoneId, if even then Freeze else Overheat, value, OwnLimit(z, zoneId, even), time)] else []
  }

  function TableAlert(
    a: Arithmetic, table: seq<Watchpoint>, zoneId: uint32, even: bool, value: int32, time: uint64): seq<TempAlert>
  {
    ThresholdAlert(Evaluate(table, Reading(Key(a, zoneId, even), value)).1, zoneId, if even then Freeze else Overheat,
                   value, time)
  }

  lemma LimitSurvivesCast(a: Arithmetic, z: Zones, j: nat)
    requires j < 2 * |z.configs|
    ensures var limit := WpAt(a, z, j).threshold; I32_MIN <= limit <= I32_MAX && WrapI32(limit) == limit
  {
  }

  lemma PhaseAgreesIff(
    a: Arithmetic, table: seq<Watchpoint>, z: Zones, zoneId: uint32, even: bool, value: int32, time: uint64)
    requires Aligned(z) && Linked(a, table, z)
    ensures TableAlert(a, table, zoneId, even, value, time) == OwnAlert(z, zoneId, even, value, time)
       <==> Answers(a, z, zoneId, even, value)
  {
    var key := Key(a, zoneId, even);
    var vs, j := Evaluate(table, Reading(key, value)).1, FirstViolated(a, z, key, value, 0);
    EvaluateFirst(a, table, z, key, value);
    if vs != [] {
      LimitSurvivesCast(a, z, j);
      assert TableAlert(a, table, zoneId, even, value, time)
          == [TempAlert(zoneId, if even then Freeze else Overheat, value, WpAt(a, z, j).threshold, time)];
    }
  }

  // ---------- one reading ----------

  predicate OfKind(s: seq<TempAlert>, kind: TempAlertType) {
    |s| <= 1 && forall i | 0 <= i < |s| :: s[i].alertType == kind
  }

  predicate NoneOfKind(s: seq<TempAlert>, kind: TempAlertType) {
    forall i | 0 <= i < |s| :: s[i].alertType != kind
  }

  lemma HeadsSplit(x: seq<TempAlert>, y: seq<TempAlert>, u: seq<TempAlert>, v: seq<TempAlert>, kind: TempAlertType)
    requires OfKind(x, kind) && OfKind(u, kind) && NoneOfKind(y, kind) && NoneOfKind(v, kind)
    ensures x + y == u + v <==> x == u && y == v
  {
    if |x| == |u| {
      assert x == (x + y)[..|x|] && y == (x + y)[|x|..] && v == (u + v)[|x|..] && u == (u + v)[..|x|];
    } else {
      assert (if x == [] then y else v) == [] || (if x == [] then y else v)[0].alertType != kind;
      assert (if x == [] then u + v else x + y)[0].alertType == kind;
    }
  }

  lemma PartsSplit(
    low: seq<TempAlert>, high: seq<TempAlert>, rate: seq<TempAlert>,
    low': seq<TempAlert>, high': seq<TempAlert>, rate': seq<TempAlert>)
    requires OfKind(low, Freeze) && OfKind(low', Freeze) && OfKind(high, Overheat) && OfKind(high', Overheat)
    requires NoneOfKind(rate, Freeze) && NoneOfKind(rate, Overheat)
    requires NoneOfKind(rate', Freeze) && NoneOfKind(rate', Overheat)
    ensures low + (high + rate) == low' + (high' + rate') <==> low == low' && high == high' && rate == rate'
  {
    HeadsSplit(low, high + rate, low', high' + rate', Freeze);
    HeadsSplit(high, rate, high', rate', Overheat);
  }

  lemma RatePhaseKinds(a: Arithmetic, z: Zones, zoneId: uint32, value: int32, time: uint64)
    requires Aligned(z)
    ensures var rate := RatePhase(a, z, zoneId, value, time); NoneOfKind(rate, Freeze) && NoneOfKind(rate, Overheat)
  {
  }

  /** The two comparisons of the rate phase come out alike in arithmetics `a` and `b`. */
  predicate RatesAgree(a: Arithmetic, b: Arithmetic, z: Zones, zoneId: uint32, value: int32)
    requires Aligned(z)
  {
    var i := FirstMatch(z, zoneId, 0);
    i < |z.configs| && z.states[i].lastTime > 0 ==>
      var last, rate := z.states[i].lastValue, z.configs[i].rateThreshold;
      && (Diff(a, last, value) > rate <==> Diff(b, last, value) > rate)
      && (Diff(a, value, last) > rate <==> Diff(b, value, last) > rate)
  }

  function RatePhase(a: Arithmetic, z: Zones, zoneId: uint32, value: int32, time: uint64): seq<TempAlert>
    requires Aligned(z)
  {
    var i := FirstMatch(z, zoneId, 0);
    if i < |z.configs| then RateAlerts(a, z.configs[i], z.states[i], value, time) else []
  }

  lemma RatePhaseAgreesIff(a: Arithmetic, b: Arithmetic, z: Zones, zoneId: uint32, value: int32, time: uint64)
    requires Aligned(z)
    ensures RatePhase(a, z, zoneId, value, time) == RatePhase(b, z, zoneId, value, time)
       <==> RatesAgree(a, b, z, zoneId, value)
  {
    var i := FirstMatch(z, zoneId, 0);
    if i < |z.configs| && z.states[i].lastTime > 0 {
      var last, rate := z.states[i].lastValue, z.configs[i].rateThreshold;
      var drop, rise := TempAlert(zoneId, RapidDrop, value, rate, time), TempAlert(zoneId, RapidRise, value, rate, time);
      HeadsSplit(if Diff(a, last, value) > rate then [drop] else [], if Diff(a, value, last) > rate then [rise] else [],
                 if Diff(b, last, value) > rate then [drop] else [], if Diff(b, value, last) > rate then [rise] else [],
                 RapidDrop);
    }
  }

  /** What the table monitor says of a reading, phase by phase. */
  lemma IndexedByPhase(a: Arithmetic, m: Indexed, zoneId: uint32, value: int32, time: uint64)
    requires Aligned(m.zones) && Linked(a, m.table, m.zones)
    ensures var table1 := Evaluate(m.table, Reading(Key(a, zoneId, true), value)).0;
            && Linked(a, table1, m.zones)
            && IndexedReading(a, m, zoneId, value, time).1 ==
               TableAlert(a, m.table, zoneId, true, value, time) +
               (TableAlert(a, table1, zoneId, false, value, time) + RatePhase(a, m.zones, zoneId, value, time))
  {
    EvaluateStaysLinked(a, m.table, m.zones, Reading(Key(a, zoneId, true), value));
  }

  /** What the direct scan says of it. */
  lemma DirectByPhase(b: Arithmetic, z: Zones, zoneId: uint32, value: int32, time: uint64)
    requires Aligned(z)
    ensures DirectReading(b, z, zoneId, value, time).1 ==
            OwnAlert(z, zoneId, true, value, time) +
            (OwnAlert(z, zoneId, false, value, time) + RatePhase(b, z, zoneId, value, time))
  {
  }

  /** One reading is answered alike if and only if both its keys answer for its zone and the rate comparisons agree. */
  lemma ReadingAgreesIff(a: Arithmetic, b: Arithmetic, m: Indexed, zoneId: uint32, value: int32, time: uint64)
    requires Aligned(m.zones) && Linked(a, m.table, m.zones)
    ensures IndexedReading(a, m, zoneId, value, time).1 == DirectReading(b, m.zones, zoneId, value, time).1
       <==> Answers(a, m.zones, zoneId, true, value) && Answers(a, m.zones, zoneId, false, value)
            && RatesAgree(a, b, m.zones, zoneId, value)
  {
    var z, table1 := m.zones, Evaluate(m.table, Reading(Key(a, zoneId, true), value)).0;
    IndexedByPhase(a, m, zoneId, value, time);
    DirectByPhase(b, z, zoneId, value, time);
    PhaseAgreesIff(a, m.table, z, zoneId, true, value, time);
    PhaseAgreesIff(a, table1, z, zoneId, false, value, time);
    RatePhaseAgreesIff(a, b, z, zoneId, value, time);
    var low, high, rate := TableAlert(a, m.table, zoneId, true, value, time),
                           TableAlert(a, table1, zoneId, false, value, time), RatePhase(a, z, zoneId, value, time);
    var low', high', rate' := OwnAlert(z, zoneId, true, value, time), OwnAlert(z, zoneId, false, value, time),
                              RatePhase(b, z, zoneId, value, time);
    RatePhaseKinds(a, z, zoneId, value, time);
    RatePhaseKinds(b, z, zoneId, value, time);
    PartsSplit(low, high, rate, low', high', rate');
  }

  // ---------- whole runs ----------

  /** The zones of the two monitors never differ, whatever their alerts do; and the table always stands for them. */
  lemma {:induction false} ZonesNeverDiffer(a: Arithmetic, b: Arithmetic, evs: seq<Event>)
    ensures IndexedRun(a, evs).monitor.zones == DirectRun(b, evs).zones
    ensures Linked(a, IndexedRun(a, evs).monitor.table, DirectRun(b, evs).zones)
    ensures |IndexedRun(a, evs).outputs| == |DirectRun(b, evs).outputs| == |evs|
  {
    if evs != [] {
      var before, e := evs[..|evs| - 1], evs[|evs| - 1];
      ZonesNeverDiffer(a, b, before);
      var m := IndexedRun(a, before).monitor;
      match e
      case Register(cfg) =>
        if |m.zones.configs| < MAX_ZONES {
          RegisterStaysLinked(a, m, cfg);
        }
      case Measure(zoneId, value, time) =>
        var r1, r2 := Reading(FreezeWpId(a, zoneId), value), Reading(OverheatWpId(a, zoneId), value);
        EvaluateStaysLinked(a, m.table, m.zones, r1);
        EvaluateStaysLinked(a, Evaluate(m.table, r1).0, m.zones, r2);
    }
  }

  /** Every reading of the run finds its keys answering for its zone and its rate comparisons agreeing. */
  predicate EveryReadingAnswered(a: Arithmetic, b: Arithmetic, evs: seq<Event>) {
    evs != [] ==>
      var before, e := evs[..|evs| - 1], evs[|evs| - 1];
      && EveryReadingAnswered(a, b, before)
      && (e.Measure? ==>
            var z := DirectRun(b, before).zones;
            && Answers(a, z, e.zoneId, true, e.value) && Answers(a, z, e.zoneId, false, e.value)
            && RatesAgree(a, b, z, e.zoneId, e.value))
  }

  lemma LastOutputs(xs: seq<Output>, x: Output, ys: seq<Output>, y: Output)
    requires |xs| == |ys|
    ensures xs + [x] == ys + [y] <==> xs == ys && x == y
  {
    if xs + [x] == ys + [y] {
      assert xs == (xs + [x])[..|xs|] && ys == (ys + [y])[..|xs|];
      assert (xs + [x])[|xs|] == (ys + [y])[|xs|];
    }
  }

  /**
   On every run at all, with any ids, shared or not: the table monitor in arithmetic `a` answers as the direct scan in
   arithmetic `b` if and only if every reading finds its keys answering for its zone and its comparisons agreeing.
   */
  lemma {:induction false} RunsAgreeIff(a: Arithmetic, b: Arithmetic, evs: seq<Event>)
    ensures IndexedRun(a, evs).outputs == DirectRun(b, evs).outputs <==> EveryReadingAnswered(a, b, evs)
  {
    if evs != [] {
      var before, e := evs[..|evs| - 1], evs[|evs| - 1];
      RunsAgreeIff(a, b, before);
      ZonesNeverDiffer(a, b, before);
      var n := |before|;
      var xs, ys := IndexedRun(a, evs).outputs, DirectRun(b, evs).outputs;
      var was, wasDirect := IndexedRun(a, before).outputs, DirectRun(b, before).outputs;
      if e.Measure? {
        var m := IndexedRun(a, before).monitor;
        ReadingAgreesIff(a, b, m, e.zoneId, e.value, e.time);
        LastOutputs(was, Alerts(IndexedReading(a, m, e.zoneId, e.value, e.time).1),
                    wasDirect, Alerts(DirectReading(b, m.zones, e.zoneId, e.value, e.time).1));
      } else {
        var ok := Accepted(|DirectRun(b, before).zones.configs| < MAX_ZONES);
        assert xs == was + [ok] && ys == wasDirect + [ok];
        LastOutputs(was, ok, wasDirect, ok);
      }
    }
  }

  // ---------- the condition in closed form ----------

  /** At a threshold of `i32::MAX` no difference of the run passes it. */
  predicate RateFits(z: Zones, zoneId: uint32, value: int32)
    requires Aligned(z)
  {
    var i := FirstMatch(z, zoneId, 0);
    i < |z.configs| && z.states[i].lastTime > 0 && z.configs[i].rateThreshold == I32_MAX ==>
      -I32_MAX <= z.states[i].lastValue - value <= I32_MAX
  }

  lemma SaturatingRatesAgreeIff(z: Zones, zoneId: uint32, value: int32)
    requires Aligned(z)
    ensures RatesAgree(Saturating, Exact, z, zoneId, value) <==> RateFits(z, zoneId, value)
  {
    var i := FirstMatch(z, zoneId, 0);
    if i < |z.configs| {
      SaturatingCheckIff(z.states[i].lastValue, value, z.configs[i].rateThreshold);
      SaturatingCheckIff(value, z.states[i].lastValue, z.configs[i].rateThreshold);
    }
  }

  /** Every reading of the run finds both its keys answering for its zone. */
  predicate KeysAnswer(a: Arithmetic, evs: seq<Event>) {
    evs != [] ==>
      var before, e := evs[..|evs| - 1], evs[|evs| - 1];
      && KeysAnswer(a, before)
      && (e.Measure? ==>
            var z := DirectRun(Exact, before).zones;
            Answers(a, z, e.zoneId, true, e.value) && Answers(a, z, e.zoneId, false, e.value))
  }

  predicate RatesFit(evs: seq<Event>) {
    evs != [] ==>
      var before, e := evs[..|evs| - 1], evs[|evs| - 1];
      RatesFit(before) && (e.Measure? ==> RateFits(DirectRun(Exact, before).zones, e.zoneId, e.value))
  }

  lemma ZonesIgnoreArithmetic(a: Arithmetic, b: Arithmetic, evs: seq<Event>)
    ensures DirectRun(a, evs).zones == DirectRun(b, evs).zones
  {
    ZonesNeverDiffer(a, a, evs);
    ZonesNeverDiffer(a, b, evs);
  }

  lemma {:induction false} SameArithmeticIsKeys(a: Arithmetic, evs: seq<Event>)
    ensures EveryReadingAnswered(a, a, evs) <==> KeysAnswer(a, evs)
  {
    if evs != [] {
      SameArithmeticIsKeys(a, evs[..|evs| - 1]);
      ZonesIgnoreArithmetic(a, Exact, evs[..|evs| - 1]);
    }
  }

  lemma {:induction false} DeployedIsKeysAndRates(evs: seq<Event>)
    ensures EveryReadingAnswered(Saturating, Exact, evs) <==> KeysAnswer(Saturating, evs) && RatesFit(evs)
  {
    if evs != [] {
      var before, e := evs[..|evs| - 1], evs[|evs| - 1];
      DeployedIsKeysAndRates(before);
      if e.Measure? {
        SaturatingRatesAgreeIff(DirectRun(Exact, before).zones, e.zoneId, e.value);
      }
    }
  }

  /** The two architectures answer a run alike if and only if the keys of every reading answer for its zone. */
  lemma IndexedEqualsDirectIff(a: Arithmetic, evs: seq<Event>)
    ensures IndexedRun(a, evs).outputs == DirectRun(a, evs).outputs <==> KeysAnswer(a, evs)
  {
    RunsAgreeIff(a, a, evs);
    SameArithmeticIsKeys(a, evs);
  }

  /** The deployed monitor answers a run exactly if and only if, besides, no difference passes a threshold of `i32::MAX`. */
  lemma DeployedMonitorIsExactIff(evs: seq<Event>)
    ensures IndexedRun(Saturating, evs).outputs == DirectRun(Exact, evs).outputs
       <==> KeysAnswer(Saturating, evs) && RatesFit(evs)
  {
    RunsAgreeIff(Saturating, Exact, evs);
    DeployedIsKeysAndRates(evs);
  }

  /** Zone `k` is enabled, has this id, and its limit is violated. */
  predicate ZoneViolates(z: Zones, zoneId: uint32, even: bool, value: int32, k: nat)
    requires k < |z.configs|
  {
    && z.configs[k].enabled && z.configs[k].zoneId == zoneId
    && if even then value <= z.configs[k].freezeThreshold else value >= z.configs[k].overheatThreshold
  }

  lemma SmallKeyIsOwn(a: Arithmetic, z: Zones, zoneId: uint32, even: bool, value: int32, j: nat)
    requires SmallIds(z) && zoneId < ZONE_LIMIT && j < 2 * |z.configs|
    ensures Violated(a, z, Key(a, zoneId, even), value, j) <==>
            (j % 2 == 0) == even && ZoneViolates(z, zoneId, even, value, j / 2)
  {
    IdsAreInjective(a, z.configs[j / 2].zoneId, zoneId);
    IdsAreInjective(a, zoneId, z.configs[j / 2].zoneId);
  }

  /** Below 2^31, for any number of zones of one id: no later one is violated unless the first is. */
  lemma SharedIdAnswersIff(a: Arithmetic, z: Zones, zoneId: uint32, even: bool, value: int32)
    requires Aligned(z) && SmallIds(z) && zoneId < ZONE_LIMIT
    ensures Answers(a, z, zoneId, even, value) <==>
            forall k: nat | k < |z.configs| && ZoneViolates(z, zoneId, even, value, k) ::
              LimitPassed(z, zoneId, even, value)
  {
    var key, n := Key(a, zoneId, even), 2 * |z.configs|;
    var j, i := FirstViolated(a, z, key, value, 0), FirstMatch(z, zoneId, 0);
    var slot := 2 * i + if even then 0 else 1;
    if LimitPassed(z, zoneId, even, value) {
      assert slot / 2 == i && (slot % 2 == 0) == even;
      SmallKeyIsOwn(a, z, zoneId, even, value, slot);
      assert j <= slot;
      SmallKeyIsOwn(a, z, zoneId, even, value, j);
      assert Matches(z.configs[j / 2], z.states[j / 2], zoneId);
    } else if j < n {
      SmallKeyIsOwn(a, z, zoneId, even, value, j);
      assert ZoneViolates(z, zoneId, even, value, j / 2);
    } else {
      forall k: nat | k < |z.configs| ensures !ZoneViolates(z, zoneId, even, value, k) {
        var p := 2 * k + if even then 0 else 1;
        assert p / 2 == k && (p % 2 == 0) == even;
        SmallKeyIsOwn(a, z, zoneId, even, value, p);
      }
    }
  }

  // ---------- two zones of one id, and one zone of a large id ----------

  /** A monitor with one registered zone. */
  function Lone(a: Arithmetic, cfg: ZoneConfig): (m: Indexed)
    ensures Aligned(m.zones) && Linked(a, m.table, m.zones) && m.zones.configs == [cfg]
  {
    IndexedRegistered(a, Indexed([], Zones([], [])), cfg)
  }

  /** A monitor with two registered zones. */
  function Pair(a: Arithmetic, first: ZoneConfig, second: ZoneConfig): (m: Indexed)
    ensures Aligned(m.zones) && Linked(a, m.table, m.zones) && m.zones.configs == [first, second]
  {
    var m := Lone(a, first);
    RegisterStaysLinked(a, m, second);
    IndexedRegistered(a, m, second)
  }

  lemma PairAnswersIff(a: Arithmetic, z: Zones, even: bool, value: int32)
    requires Aligned(z) && |z.configs| == 2 && z.configs[0].enabled && z.configs[1].enabled
    requires z.configs[0].zoneId == z.configs[1].zoneId < ZONE_LIMIT
    ensures var zone := z.configs[0].zoneId;
            Answers(a, z, zone, even, value) <==>
            (ZoneViolates(z, zone, even, value, 1) ==> ZoneViolates(z, zone, even, value, 0))
  {
    var zone := z.configs[0].zoneId;
    SharedIdAnswersIff(a, z, zone, even, value);
    assert Matches(z.configs[0], z.states[0], zone) && FirstMatch(z, zone, 0) == 0;
  }

  /** Two enabled zones of one id: alike exactly outside the values that only the second zone's limits catch. */
  lemma TwoZonesAgreeIff(a: Arithmetic, first: ZoneConfig, second: ZoneConfig, value: int32, time: uint64)
    requires first.enabled && second.enabled && first.zoneId == second.zoneId < ZONE_LIMIT
    ensures var m, zone := Pair(a, first, second), first.zoneId;
            IndexedReading(a, m, zone, value, time).1 == DirectReading(a, m.zones, zone, value, time).1
            <==> !(first.freezeThreshold < value <= second.freezeThreshold) &&
                 !(second.overheatThreshold <= value < first.overheatThreshold)
  {
    var m := Pair(a, first, second);
    ReadingAgreesIff(a, a, m, first.zoneId, value, time);
    PairAnswersIff(a, m.zones, true, value);
    PairAnswersIff(a, m.zones, false, value);
  }

  /** One enabled zone: the first entry on either of its own keys that the value violates. */
  lemma LoneZoneFirst(a: Arithmetic, z: Zones, cfg: ZoneConfig, even: bool, value: int32)
    requires Aligned(z) && z.configs == [cfg] && cfg.enabled
    ensures var shared := !a.Wrapping? && cfg.zoneId >= ZONE_LIMIT;
            FirstViolated(a, z, Key(a, cfg.zoneId, even), value, 0) ==
            if (even || shared) && value <= cfg.freezeThreshold then 0
            else if (!even || shared) && value >= cfg.overheatThreshold then 1
            else 2
  {
    var key, shared := Key(a, cfg.zoneId, even), !a.Wrapping? && cfg.zoneId >= ZONE_LIMIT;
    assert Violated(a, z, key, value, 0) <==> (even || shared) && value <= cfg.freezeThreshold;
    assert Violated(a, z, key, value, 1) <==> (!even || shared) && value >= cfg.overheatThreshold;
  }

  /**
   One enabled zone, any id: outside the wrapping copy, a zone from 2^31 on is answered alike exactly between its
   limits, or where both limits are the value.
   */
  lemma LoneZoneAgreesIff(a: Arithmetic, cfg: ZoneConfig, value: int32, time: uint64)
    requires cfg.enabled
    ensures var m, low, high := Lone(a, cfg), cfg.freezeThreshold, cfg.overheatThreshold;
            IndexedReading(a, m, cfg.zoneId, value, time).1 == DirectReading(a, m.zones, cfg.zoneId, value, time).1
            <==> a.Wrapping? || cfg.zoneId < ZONE_LIMIT || low < value < high || value == low == high
  {
    var m := Lone(a, cfg);
    ReadingAgreesIff(a, a, m, cfg.zoneId, value, time);
    LoneZoneFirst(a, m.zones, cfg, true, value);
    LoneZoneFirst(a, m.zones, cfg, false, value);
    assert Matches(m.zones.configs[0], m.zones.states[0], cfg.zoneId);
    assert FirstMatch(m.zones, cfg.zoneId, 0) == 0;
  }

  /** The failure at its plainest: a hot zone of a large id, alone, is reported as freezing by the saturating copy. */
  lemma LargeZoneRaisesFalseFreeze(cfg: ZoneConfig, value: int32, time: uint64)
    requires cfg.enabled && cfg.zoneId >= ZONE_LIMIT
    requires cfg.freezeThreshold < value && cfg.overheatThreshold <= value
    ensures var m, zone, high := Lone(Saturating, cfg), cfg.zoneId, cfg.overheatThreshold;
            && TempAlert(zone, Freeze, value, high, time) in IndexedReading(Saturating, m, zone, value, time).1
            && DirectReading(Exact, m.zones, zone, value, time).1 == [TempAlert(zone, Overheat, value, high, time)]
  {
    var m := Lone(Saturating, cfg);
    IndexedByPhase(Saturating, m, cfg.zoneId, value, time);
    EvaluateFirst(Saturating, m.table, m.zones, Key(Saturating, cfg.zoneId, true), value);
    LoneZoneFirst(Saturating, m.zones, cfg, true, value);
    assert Matches(m.zones.configs[0], m.zones.states[0], cfg.zoneId);
    assert FirstMatch(m.zones, cfg.zoneId, 0) == 0;
  }
}
