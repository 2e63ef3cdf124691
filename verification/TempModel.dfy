/** The two temperature monitors as functions on values: one direct scan, and one over a watchpoint table. */
module TempModel {
  import opened MachineInts
  import opened WatchpointModel

  const MAX_ZONES: nat := 32
  const MAX_ALERTS_PER_READING: nat := 4

  datatype ZoneConfig = ZoneConfig(
    zoneId: uint32, freezeThreshold: int32, overheatThreshold: int32, rateThreshold: int32, enabled: bool)

  datatype ZoneState = ZoneState(zoneId: uint32, lastValue: int32, lastTime: uint64, active: bool)

  datatype TempAlertType = Freeze | Overheat | RapidDrop | RapidRise

  datatype TempAlert = TempAlert(zoneId: uint32, alertType: TempAlertType, value: int32, threshold: int32, time: uint64)

  /**
   How a copy of the engine subtracts two readings and doubles a zone id. `Exact` is the mathematical difference,
   which no copy computes but every copy means.
   */
  datatype Arithmetic = Wrapping | Saturating | Exact

  function Diff(a: Arithmetic, x: int32, y: int32): int {
    match a
    case Wrapping => WrapI32(x - y)
    case Saturating => SaturateI32(x - y)
    case Exact => x - y
  }

  function FreezeWpId(a: Arithmetic, zoneId: uint32): uint32 {
    if a.Wrapping? then 2 * zoneId % (U32_MAX + 1) else SatAdd32(zoneId, zoneId)
  }

  function OverheatWpId(a: Arithmetic, zoneId: uint32): uint32 {
    if a.Wrapping? then (2 * zoneId + 1) % (U32_MAX + 1) else SatAdd32(SatAdd32(zoneId, zoneId), 1)
  }

  /** Registered zones, in order: `configs[i]` belongs to `states[i]`. */
  datatype Zones = Zones(configs: seq<ZoneConfig>, states: seq<ZoneState>)

  predicate Matches(cfg: ZoneConfig, st: ZoneState, zoneId: uint32) {
    st.active && cfg.enabled && cfg.zoneId == zoneId
  }

  /** The first zone at or after `i` that takes the reading; the number of zones if none does. */
  function FirstMatch(z: Zones, zoneId: uint32, i: nat): (k: nat)
    requires i <= |z.configs| == |z.states|
    ensures i <= k <= |z.configs|
    ensures k < |z.configs| ==> Matches(z.configs[k], z.states[k], zoneId)
    ensures forall j | i <= j < k :: !Matches(z.configs[j], z.states[j], zoneId)
    decreases |z.configs| - i
  {
    if i == |z.configs| || Matches(z.configs[i], z.states[i], zoneId) then i else FirstMatch(z, zoneId, i + 1)
  }

  function RateAlerts(a: Arithmetic, cfg: ZoneConfig, st: ZoneState, value: int32, time: uint64): seq<TempAlert> {
    var rate := cfg.rateThreshold;
    if st.lastTime == 0 then []
    else
      (if Diff(a, st.lastValue, value) > rate then [TempAlert(cfg.zoneId, RapidDrop, value, rate, time)] else []) +
      (if Diff(a, value, st.lastValue) > rate then [TempAlert(cfg.zoneId, RapidRise, value, rate, time)] else [])
  }

  function Registered(z: Zones, cfg: ZoneConfig): Zones {
    Zones(z.configs + [cfg], z.states + [ZoneState(cfg.zoneId, 0, 0, true)])
  }

  function Remembered(z: Zones, i: nat, value: int32, time: uint64): Zones
    requires i < |z.states|
  {
    z.(states := z.states[i := z.states[i].(lastValue := value, lastTime := time)])
  }

  // ---------- one scan ----------

  function LimitAlerts(cfg: ZoneConfig, value: int32, time: uint64): seq<TempAlert> {
    var low, high := cfg.freezeThreshold, cfg.overheatThreshold;
    (if value <= low then [TempAlert(cfg.zoneId, Freeze, value, low, time)] else []) +
    (if value >= high then [TempAlert(cfg.zoneId, Overheat, value, high, time)] else [])
  }

  function DirectReading(a: Arithmetic, z: Zones, zoneId: uint32, value: int32, time: uint64): (Zones, seq<TempAlert>)
    requires |z.configs| == |z.states|
  {
    var i := FirstMatch(z, zoneId, 0);
    if i == |z.configs| then (z, [])
    else
      var cfg := z.configs[i];
      (Remembered(z, i, value, time), LimitAlerts(cfg, value, time) + RateAlerts(a, cfg, z.states[i], value, time))
  }

  // ---------- a watchpoint table beside the zones ----------

  datatype Indexed = Indexed(table: seq<Watchpoint>, zones: Zones)

  function FreezeWp(a: Arithmetic, cfg: ZoneConfig): Watchpoint {
    Watchpoint(FreezeWpId(a, cfg.zoneId), LessOrEqual, cfg.freezeThreshold, cfg.enabled, 1, 0)
  }

  function OverheatWp(a: Arithmetic, cfg: ZoneConfig): Watchpoint {
    Watchpoint(OverheatWpId(a, cfg.zoneId), GreaterOrEqual, cfg.overheatThreshold, cfg.enabled, 1, 0)
  }

  function IndexedRegistered(a: Arithmetic, m: Indexed, cfg: ZoneConfig): Indexed {
    Indexed(Added(Added(m.table, FreezeWp(a, cfg)), OverheatWp(a, cfg)), Registered(m.zones, cfg))
  }

  /** The alert of a threshold phase: the first violation decides. */
  function ThresholdAlert(vs: seq<Violation>, zoneId: uint32, kind: TempAlertType, value: int32, time: uint64)
    : seq<TempAlert>
  {
    if vs == [] then [] else [TempAlert(zoneId, kind, value, WrapI32(vs[0].threshold), time)]
  }

  function IndexedReading(a: Arithmetic, m: Indexed, zoneId: uint32, value: int32, time: uint64)
    : (Indexed, seq<TempAlert>)
    requires |m.zones.configs| == |m.zones.states|
  {
    var (table1, freeze) := Evaluate(m.table, Reading(FreezeWpId(a, zoneId), value));
    var (table2, overheat) := Evaluate(table1, Reading(OverheatWpId(a, zoneId), value));
    var alerts := ThresholdAlert(freeze, zoneId, Freeze, value, time) +
                  ThresholdAlert(overheat, zoneId, Overheat, value, time);
    var i := FirstMatch(m.zones, zoneId, 0);
    if i == |m.zones.configs| then (Indexed(table2, m.zones), alerts)
    else
      (Indexed(table2, Remembered(m.zones, i, value, time)),
       alerts + RateAlerts(a, m.zones.configs[i], m.zones.states[i], value, time))
  }
}
