/** What the temperature monitors answer, told from the registrations and readings themselves. */
module TempHistory {
  import opened MachineInts
  import opened Options
  import opened TempModel
  import opened TempRuns
  import opened TempKeys

  // ---------- the history ----------

  /** The zones a run lists: those of its first 32 registrations, in the order of the calls. */
  function Listed(evs: seq<Event>): (configs: seq<ZoneConfig>)
    ensures |configs| <= 32
  {
    if evs == [] then []
    else
      var before, e := Listed(evs[..|evs| - 1]), evs[|evs| - 1];
      if e.Register? && |before| < 32 then before + [e.config] else before
  }

  predicate Takes(cfg: ZoneConfig, zoneId: uint32) {
    cfg.enabled && cfg.zoneId == zoneId
  }

  /** The position of the first enabled zone of that id; past the end if there is none. */
  function Speaker(configs: seq<ZoneConfig>, zoneId: uint32): (k: nat)
    ensures k <= |configs|
    ensures k < |configs| ==> Takes(configs[k], zoneId)
    ensures forall j | 0 <= j < k :: !Takes(configs[j], zoneId)
  {
    if configs == [] then 0
    else
      var n := |configs| - 1;
      var k := Speaker(configs[..n], zoneId);
      if k < n || Takes(configs[n], zoneId) then k else n + 1
  }

  predicate Known(evs: seq<Event>, zoneId: uint32) {
    Speaker(Listed(evs), zoneId) < |Listed(evs)|
  }

  datatype Sample = Sample(value: int32, time: uint64)

  /** The latest reading of an id that was already known, if any. */
  function LastReading(evs: seq<Event>, zoneId: uint32): Option<Sample> {
    if evs == [] then None
    else
      var before, e := evs[..|evs| - 1], evs[|evs| - 1];
      if e.Measure? && e.zoneId == zoneId && Known(before, zoneId) then Some(Sample(e.value, e.time))
      else LastReading(before, zoneId)
  }

  /** When an alert of a kind is due, in mathematical integers. A reading stamped 0 is no baseline. */
  predicate Due(kind: TempAlertType, cfg: ZoneConfig, last: Option<Sample>, value: int32) {
    match kind
    case Freeze => value <= cfg.freezeThreshold
    case Overheat => cfg.overheatThreshold <= value
    case RapidDrop => last.Some? && last.value.time > 0 && last.value.value > value + cfg.rateThreshold
    case RapidRise => last.Some? && last.value.time > 0 && value > last.value.value + cfg.rateThreshold
  }

  function Threshold(kind: TempAlertType, cfg: ZoneConfig): int32 {
    match kind
    case Freeze => cfg.freezeThreshold
    case Overheat => cfg.overheatThreshold
    case _ => cfg.rateThreshold
  }

  function AlertIfDue(kind: TempAlertType, cfg: ZoneConfig, last: Option<Sample>, value: int32, time: uint64)
    : seq<TempAlert>
  {
    if Due(kind, cfg, last, value) then [TempAlert(cfg.zoneId, kind, value, Threshold(kind, cfg), time)] else []
  }

  function AllDue(cfg: ZoneConfig, last: Option<Sample>, value: int32, time: uint64): seq<TempAlert> {
    AlertIfDue(Freeze, cfg, last, value, time) + AlertIfDue(Overheat, cfg, last, value, time) +
    AlertIfDue(RapidDrop, cfg, last, value, time) + AlertIfDue(RapidRise, cfg, last, value, time)
  }

  /** The alerts that a reading makes due after `evs`: by the limits of the id's zone, and by its latest reading. */
  function DueAlerts(evs: seq<Event>, zoneId: uint32, value: int32, time: uint64): seq<TempAlert> {
    var configs, k := Listed(evs), Speaker(Listed(evs), zoneId);
    if k < |configs| then AllDue(configs[k], LastReading(evs, zoneId), value, time) else []
  }

  /** Every answer of a run, from its history alone. */
  function Told(evs: seq<Event>): seq<Output> {
    if evs == [] then []
    else
      var before, e := evs[..|evs| - 1], evs[|evs| - 1];
      Told(before) + [match e
                      case Register(_) => Accepted(|Listed(before)| < 32)
                      case Measure(zoneId, value, time) => Alerts(DueAlerts(before, zoneId, value, time))]
  }

  // ---------- the zones keep the history ----------

  /** The state of a zone is its latest reading. */
  predicate Remembers(st: ZoneState, last: Option<Sample>) {
    if last.None? then st.lastTime == 0 else st.lastValue == last.value.value && st.lastTime == last.value.time
  }

  ghost predicate Faithful(evs: seq<Event>, z: Zones) {
    && Aligned(z) && z.configs == Listed(evs)
    && forall k: nat | k < |z.configs| && k == Speaker(z.configs, z.configs[k].zoneId) ::
         Remembers(z.states[k], LastReading(evs, z.configs[k].zoneId))
  }

  lemma HistorySnoc(evs: seq<Event>, e: Event, zoneId: uint32)
    ensures Listed(evs + [e]) == if e.Register? && |Listed(evs)| < 32 then Listed(evs) + [e.config] else Listed(evs)
    ensures LastReading(evs + [e], zoneId) ==
            if e.Measure? && e.zoneId == zoneId && Known(evs, zoneId) then Some(Sample(e.value, e.time))
            else LastReading(evs, zoneId)
    ensures Known(evs, zoneId) ==> Known(evs + [e], zoneId)
  {
    assert (evs + [e])[..|evs|] == evs;
    if e.Register? && |Listed(evs)| < 32 {
      SpeakerSnoc(Listed(evs), e.config, zoneId);
    }
  }

  lemma SpeakerSnoc(configs: seq<ZoneConfig>, cfg: ZoneConfig, zoneId: uint32)
    ensures Speaker(configs + [cfg], zoneId) ==
            var k := Speaker(configs, zoneId);
            if k < |configs| || Takes(cfg, zoneId) then k else k + 1
  {
    assert (configs + [cfg])[..|configs|] == configs;
  }

  /** An id not known yet has no reading. */
  lemma {:induction false} UnknownIsUnread(evs: seq<Event>, zoneId: uint32)
    ensures !Known(evs, zoneId) ==> LastReading(evs, zoneId).None?
  {
    if evs != [] {
      UnknownIsUnread(evs[..|evs| - 1], zoneId);
      assert evs[..|evs| - 1] + [evs[|evs| - 1]] == evs;
      HistorySnoc(evs[..|evs| - 1], evs[|evs| - 1], zoneId);
    }
  }

  /** The scan finds the zone that speaks for the id. */
  lemma MatchSpeaks(z: Zones, zoneId: uint32)
    requires Aligned(z)
    ensures FirstMatch(z, zoneId, 0) == Speaker(z.configs, zoneId)
  {
    assert forall j | 0 <= j < |z.configs| ::
        Matches(z.configs[j], z.states[j], zoneId) <==> Takes(z.configs[j], zoneId);
  }

  lemma MeasureStaysFaithful(evs: seq<Event>, z: Zones, zoneId: uint32, value: int32, time: uint64)
    requires Faithful(evs, z)
    ensures Faithful(evs + [Measure(zoneId, value, time)], DirectReading(Exact, z, zoneId, value, time).0)
  {
    var e, z' := Measure(zoneId, value, time), DirectReading(Exact, z, zoneId, value, time).0;
    HistorySnoc(evs, e, zoneId);
    MatchSpeaks(z, zoneId);
    forall k: nat | k < |z.configs| && k == Speaker(z.configs, z.configs[k].zoneId)
      ensures Remembers(z'.states[k], LastReading(evs + [e], z.configs[k].zoneId))
    {
      HistorySnoc(evs, e, z.configs[k].zoneId);
    }
  }

  lemma ZoneStaysRemembered(evs: seq<Event>, z: Zones, cfg: ZoneConfig, k: nat)
    requires Faithful(evs, z) && |z.configs| < 32 && k <= |z.configs|
    ensures var next := Registered(z, cfg);
            k == Speaker(next.configs, next.configs[k].zoneId) ==>
              Remembers(next.states[k], LastReading(evs, next.configs[k].zoneId))
  {
    var zoneId := if k < |z.configs| then z.configs[k].zoneId else cfg.zoneId;
    SpeakerSnoc(z.configs, cfg, zoneId);
    UnknownIsUnread(evs, zoneId);
  }

  lemma RegisterIsNoReading(evs: seq<Event>, cfg: ZoneConfig)
    ensures Listed(evs + [Register(cfg)]) == if |Listed(evs)| < 32 then Listed(evs) + [cfg] else Listed(evs)
    ensures forall zoneId :: LastReading(evs + [Register(cfg)], zoneId) == LastReading(evs, zoneId)
  {
    HistorySnoc(evs, Register(cfg), cfg.zoneId);
    forall zoneId: uint32 ensures LastReading(evs + [Register(cfg)], zoneId) == LastReading(evs, zoneId) {
      HistorySnoc(evs, Register(cfg), zoneId);
    }
  }

  lemma RegisterStaysFaithful(evs: seq<Event>, z: Zones, cfg: ZoneConfig, next: seq<Event>)
    requires Faithful(evs, z) && next == evs + [Register(cfg)] && |z.configs| < 32
    ensures Faithful(next, Registered(z, cfg))
  {
    var z' := Registered(z, cfg);
    RegisterIsNoReading(evs, cfg);
    forall k: nat | k < |z'.configs| && k == Speaker(z'.configs, z'.configs[k].zoneId)
      ensures Remembers(z'.states[k], LastReading(next, z'.configs[k].zoneId))
    {
      ZoneStaysRemembered(evs, z, cfg, k);
    }
  }

  lemma RefusedStaysFaithful(evs: seq<Event>, z: Zones, cfg: ZoneConfig, next: seq<Event>)
    requires Faithful(evs, z) && next == evs + [Register(cfg)] && |z.configs| >= 32
    ensures Faithful(next, z)
  {
    RegisterIsNoReading(evs, cfg);
  }

  lemma {:induction false} RunsAreFaithful(evs: seq<Event>)
    ensures Faithful(evs, DirectRun(Exact, evs).zones)
  {
    if evs != [] {
      var before, e := evs[..|evs| - 1], evs[|evs| - 1];
      RunsAreFaithful(before);
      assert before + [e] == evs;
      var z := DirectRun(Exact, before).zones;
      match e
      case Measure(zoneId, value, time) => MeasureStaysFaithful(before, z, zoneId, value, time);
      case Register(cfg) =>
        if |z.configs| < 32 {
          RegisterStaysFaithful(before, z, cfg, evs);
        } else {
          RefusedStaysFaithful(before, z, cfg, evs);
        }
    }
  }

  /** A registration adds one zone at the end, active and without a reading; the 33rd is ignored. */
  lemma RegisteredIsUnread(a: Arithmetic, evs: seq<Event>, cfg: ZoneConfig)
    ensures var was, now := DirectRun(a, evs).zones, DirectRun(a, evs + [Register(cfg)]).zones;
            now == if |Listed(evs)| < 32
                   then Zones(was.configs + [cfg], was.states + [ZoneState(cfg.zoneId, 0, 0, true)]) else was
  {
    RunsAreFaithful(evs);
    ZonesIgnoreArithmetic(a, Exact, evs);
    assert (evs + [Register(cfg)])[..|evs|] == evs;
  }

  // ---------- the answers follow the history ----------

  lemma FaithfulZonesTell(evs: seq<Event>, z: Zones, zoneId: uint32, value: int32, time: uint64)
    requires Faithful(evs, z)
    ensures DirectReading(Exact, z, zoneId, value, time).1 == DueAlerts(evs, zoneId, value, time)
  {
    var i := FirstMatch(z, zoneId, 0);
    MatchSpeaks(z, zoneId);
    if i < |z.configs| {
      var cfg, last := z.configs[i], LastReading(evs, zoneId);
      assert Remembers(z.states[i], last);
      assert LimitAlerts(cfg, value, time) ==
             AlertIfDue(Freeze, cfg, last, value, time) + AlertIfDue(Overheat, cfg, last, value, time);
      assert RateAlerts(Exact, cfg, z.states[i], value, time) ==
             AlertIfDue(RapidDrop, cfg, last, value, time) + AlertIfDue(RapidRise, cfg, last, value, time);
    }
  }

  /** After any run at all, the scan answers a reading with exactly the alerts its history makes due, in their order. */
  lemma AlertsFollowHistory(evs: seq<Event>, zoneId: uint32, value: int32, time: uint64)
    ensures DirectReading(Exact, DirectRun(Exact, evs).zones, zoneId, value, time).1
            == DueAlerts(evs, zoneId, value, time)
  {
    RunsAreFaithful(evs);
    FaithfulZonesTell(evs, DirectRun(Exact, evs).zones, zoneId, value, time);
  }

  /** So every answer of a run, registrations included, is the one its history tells. */
  lemma {:induction false} DirectRunIsTold(evs: seq<Event>)
    ensures DirectRun(Exact, evs).outputs == Told(evs)
  {
    if evs != [] {
      var before, e := evs[..|evs| - 1], evs[|evs| - 1];
      DirectRunIsTold(before);
      RunsAreFaithful(before);
      if e.Measure? {
        AlertsFollowHistory(before, e.zoneId, e.value, e.time);
      }
    }
  }

  /**
   The deployed monitor, with its table and its saturating arithmetic, tells a run as its history does if and only if
   the keys of every reading answer for its zone and no difference passes a threshold of `i32::MAX`.
   */
  lemma DeployedRunIsToldIff(evs: seq<Event>)
    ensures IndexedRun(Saturating, evs).outputs == Told(evs) <==> KeysAnswer(Saturating, evs) && RatesFit(evs)
  {
    DeployedMonitorIsExactIff(evs);
    DirectRunIsTold(evs);
  }

  /** Distinct enabled ids below 2^31 and rate thresholds below `i32::MAX` are enough. */
  lemma DeployedMonitorFollowsHistory(evs: seq<Event>)
    requires WellKeyed(evs) && ModestRates(evs)
    ensures IndexedRun(Saturating, evs).outputs == Told(evs)
  {
    DeployedMonitorIsExact(evs);
    DirectRunIsTold(evs);
  }
}
