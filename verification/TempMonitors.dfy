/** The two temperature monitors as objects. `arithmetic` says which copy of the source is meant. */
module TempMonitors {
  import opened MachineInts
  import opened WatchpointModel
  import opened WatchpointEngine
  import opened TempModel

  /** The rate-of-change check, the same lines in either monitor. The result has room for both alerts. */
  method PushRateAlerts(
    arithmetic: Arithmetic, cfg: ZoneConfig, st: ZoneState, value: int32, time: uint64, first: seq<TempAlert>)
    returns (alerts: seq<TempAlert>)
    requires |first| + 2 <= MAX_ALERTS_PER_READING
    ensures alerts == first + RateAlerts(arithmetic, cfg, st, value, time) && |alerts| <= MAX_ALERTS_PER_READING
  {
    alerts := first;
    if st.lastTime > 0 {
      if Diff(arithmetic, st.lastValue, value) > cfg.rateThreshold && |alerts| < MAX_ALERTS_PER_READING {
        alerts := alerts + [TempAlert(cfg.zoneId, RapidDrop, value, cfg.rateThreshold, time)];
      }
      if Diff(arithmetic, value, st.lastValue) > cfg.rateThreshold && |alerts| < MAX_ALERTS_PER_READING {
        alerts := alerts + [TempAlert(cfg.zoneId, RapidRise, value, cfg.rateThreshold, time)];
      }
    }
  }

  class DirectMonitor {
    const arithmetic: Arithmetic
    const configs: array<ZoneConfig>
    const states: array<ZoneState>
    var zoneCount: uint32

    ghost predicate Valid()
      reads this
    {
      configs.Length == states.Length == MAX_ZONES && zoneCount <= MAX_ZONES
    }

    ghost function Abs(): Zones
      requires Valid()
      reads this, configs, states
    {
      Zones(configs[..zoneCount], states[..zoneCount])
    }

    constructor (arithmetic: Arithmetic)
      ensures Valid() && Abs() == Zones([], []) && this.arithmetic == arithmetic && fresh(configs) && fresh(states)
    {
      this.arithmetic := arithmetic;
      configs := new ZoneConfig[MAX_ZONES](_ => ZoneConfig(0, 0, 0, 0, false));
      states := new ZoneState[MAX_ZONES](_ => ZoneState(0, 0, 0, false));
      zoneCount := 0;
    }

    method RegisterZone(config: ZoneConfig) returns (ok: bool)
      requires Valid()
      modifies this, configs, states
      ensures Valid() && ok == (old(zoneCount) < 32)
      ensures Abs() == if ok then Registered(old(Abs()), config) else old(Abs())
    {
      if zoneCount >= MAX_ZONES {
        return false;
      }
      configs[zoneCount] := config;
      states[zoneCount] := ZoneState(config.zoneId, 0, 0, true);
      zoneCount := zoneCount + 1;
      return true;
    }

    /** The four-slot result never refuses an alert: what is returned is the unbounded list. */
    method ProcessReading(zoneId: uint32, value: int32, time: uint64) returns (alerts: seq<TempAlert>)
      requires Valid()
      modifies states
      ensures Valid() && (Abs(), alerts) == DirectReading(arithmetic, old(Abs()), zoneId, value, time)
      ensures |alerts| <= MAX_ALERTS_PER_READING
    {
      alerts := [];
      var i: uint32 := 0;
      while i < zoneCount
        invariant i <= zoneCount && alerts == [] && Abs() == old(Abs())
        invariant FirstMatch(Abs(), zoneId, 0) == FirstMatch(Abs(), zoneId, i)
      {
        var cfg, st := configs[i], states[i];
        if st.active && cfg.enabled && cfg.zoneId == zoneId {
          if value <= cfg.freezeThreshold && |alerts| < MAX_ALERTS_PER_READING {
            alerts := alerts + [TempAlert(zoneId, Freeze, value, cfg.freezeThreshold, time)];
          }
          if value >= cfg.overheatThreshold && |alerts| < MAX_ALERTS_PER_READING {
            alerts := alerts + [TempAlert(zoneId, Overheat, value, cfg.overheatThreshold, time)];
          }
          assert alerts == LimitAlerts(cfg, value, time);
          alerts := PushRateAlerts(arithmetic, cfg, st, value, time, alerts);
          states[i] := st.(lastValue := value, lastTime := time);
          assert FirstMatch(old(Abs()), zoneId, 0) == i;
          assert Abs() == Remembered(old(Abs()), i, value, time);
          return;
        }
        i := i + 1;
      }
    }
  }

  class IndexedMonitor {
    const arithmetic: Arithmetic
    const watchpoints: WatchpointTable
    const configs: array<ZoneConfig>
    const states: array<ZoneState>
    var zoneCount: uint32

    ghost predicate Valid()
      reads this, watchpoints
    {
      watchpoints.Valid() && configs.Length == states.Length == MAX_ZONES && zoneCount <= MAX_ZONES
    }

    ghost function Abs(): Indexed
      requires Valid()
      reads this, watchpoints, watchpoints.entries, configs, states
    {
      Indexed(watchpoints.Abs(), Zones(configs[..zoneCount], states[..zoneCount]))
    }

    constructor (arithmetic: Arithmetic)
      ensures Valid() && Abs() == Indexed([], Zones([], [])) && this.arithmetic == arithmetic
      ensures fresh(watchpoints) && fresh(watchpoints.entries) && fresh(configs) && fresh(states)
    {
      this.arithmetic := arithmetic;
      watchpoints := new WatchpointTable();
      configs := new ZoneConfig[MAX_ZONES](_ => ZoneConfig(0, 0, 0, 0, false));
      states := new ZoneState[MAX_ZONES](_ => ZoneState(0, 0, 0, false));
      zoneCount := 0;
    }

    method RegisterZone(config: ZoneConfig) returns (ok: bool)
      requires Valid()
      modifies this, watchpoints, watchpoints.entries, configs, states
      ensures Valid() && ok == (old(zoneCount) < 32)
      ensures Abs() == if ok then IndexedRegistered(arithmetic, old(Abs()), config) else old(Abs())
    {
      if zoneCount >= MAX_ZONES {
        return false;
      }
      configs[zoneCount] := config;
      states[zoneCount] := ZoneState(config.zoneId, 0, 0, true);
      var _ := watchpoints.AddWatchpoint(FreezeWp(arithmetic, config));
      var _ := watchpoints.AddWatchpoint(OverheatWp(arithmetic, config));
      zoneCount := zoneCount + 1;
      return true;
    }

    /** Phase 2: rate of change, on the first zone that takes the reading. */
    method CheckRate(zoneId: uint32, value: int32, time: uint64, first: seq<TempAlert>) returns (alerts: seq<TempAlert>)
      requires Valid() && |first| + 2 <= MAX_ALERTS_PER_READING
      modifies states
      ensures Valid() && |alerts| <= MAX_ALERTS_PER_READING
      ensures var m, i := old(Abs()), FirstMatch(old(Abs()).zones, zoneId, 0);
              if i == |m.zones.configs| then Abs() == m && alerts == first
              else
                && Abs() == m.(zones := Remembered(m.zones, i, value, time))
                && alerts == first + RateAlerts(arithmetic, m.zones.configs[i], m.zones.states[i], value, time)
    {
      alerts := first;
      var i: uint32 := 0;
      while i < zoneCount
        invariant i <= zoneCount && alerts == first && Abs() == old(Abs())
        invariant FirstMatch(Abs().zones, zoneId, 0) == FirstMatch(Abs().zones, zoneId, i)
      {
        var cfg, st := configs[i], states[i];
        if st.active && cfg.zoneId == zoneId && cfg.enabled {
          alerts := PushRateAlerts(arithmetic, cfg, st, value, time, alerts);
          states[i] := st.(lastValue := value, lastTime := time);
          assert FirstMatch(old(Abs()).zones, zoneId, 0) == i;
          assert Abs().zones == Remembered(old(Abs()).zones, i, value, time);
          return;
        }
        i := i + 1;
      }
    }

    /** Here too the four-slot result never refuses an alert. */
    method ProcessReading(zoneId: uint32, value: int32, time: uint64) returns (alerts: seq<TempAlert>)
      requires Valid()
      modifies watchpoints.entries, states
      ensures Valid() && (Abs(), alerts) == IndexedReading(arithmetic, old(Abs()), zoneId, value, time)
      ensures |alerts| <= MAX_ALERTS_PER_READING
    {
      alerts := [];
      var freeze := watchpoints.Evaluate(Reading(FreezeWpId(arithmetic, zoneId), value));
      if |freeze| > 0 && |alerts| < MAX_ALERTS_PER_READING {
        alerts := alerts + [TempAlert(zoneId, Freeze, value, WrapI32(freeze[0].threshold), time)];
      }
      var overheat := watchpoints.Evaluate(Reading(OverheatWpId(arithmetic, zoneId), value));
      if |overheat| > 0 && |alerts| < MAX_ALERTS_PER_READING {
        alerts := alerts + [TempAlert(zoneId, Overheat, value, WrapI32(overheat[0].threshold), time)];
      }
      assert alerts == ThresholdAlert(freeze, zoneId, Freeze, value, time) +
                       ThresholdAlert(overheat, zoneId, Overheat, value, time);
      assert Abs().zones == old(Abs()).zones;
      alerts := CheckRate(zoneId, value, time, alerts);
    }
  }
}
