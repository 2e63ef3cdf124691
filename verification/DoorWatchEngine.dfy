/** The door watch as the hub calls it. */
module DoorWatchEngine {
  import opened MachineInts
  import opened DoorWatchModel

  class DoorWatch {
    const configs: array<ContactConfig>
    const states: array<ContactState>
    var contactCount: uint32

    ghost predicate Valid()
      reads this
    {
      configs.Length == states.Length == MAX_CONTACTS && contactCount <= MAX_CONTACTS
    }

    ghost function Abs(): (w: Watch)
      requires Valid()
      reads this, configs, states
      ensures w.Valid()
    {
      Watch(configs[..contactCount], states[..contactCount])
    }

    constructor ()
      ensures Valid() && Abs() == Watch([], []) && fresh(configs) && fresh(states)
    {
      configs := new ContactConfig[MAX_CONTACTS](_ => ContactConfig(0, 0, 0, 0, 0, false));
      states := new ContactState[MAX_CONTACTS](_ => ContactState(0, false, 0, false));
      contactCount := 0;
    }

    method RegisterContact(config: ContactConfig) returns (ok: bool)
      requires Valid()
      modifies this, configs, states
      ensures Valid() && Abs() == Registered(old(Abs()), config) && ok == (old(contactCount) < 32)
    {
      if contactCount >= MAX_CONTACTS {
        return false;
      }
      configs[contactCount] := config;
      states[contactCount] := ContactState(config.contactId, false, 0, true);
      contactCount := contactCount + 1;
      return true;
    }

    method ProcessEvent(contactId: uint32, open: bool, time: uint64) returns (alerts: seq<DoorAlert>)
      requires Valid()
      modifies states
      ensures Valid() && (Abs(), alerts) == Event(old(Abs()), contactId, open, time)
    {
      alerts := [];
      var i: uint32 := 0;
      while i < contactCount
        invariant i <= contactCount && alerts == [] && Abs() == old(Abs())
        invariant FirstMatch(Abs(), contactId, 0) == FirstMatch(Abs(), contactId, i)
      {
        var cfg, st := configs[i], states[i];
        if st.active && cfg.enabled && cfg.contactId == contactId {
          if open {
            states[i] := st.(open := true, openedAt := time);
            var hourOfDay := time % 86400 / 3600;
            if IsNightHour(hourOfDay, cfg.nightStartHour, cfg.nightEndHour) && |alerts| < MAX_ALERTS_PER_CHECK {
              alerts := alerts + [DoorAlert(contactId, cfg.zoneId, OpenedAtNight, 0, time)];
            }
          } else {
            states[i] := st.(open := false);
          }
          assert FirstMatch(old(Abs()), contactId, 0) == i;
          assert alerts == NightAlert(cfg, open, time);
          assert Abs().states == old(Abs()).states[i := Moved(st, open, time)];
          return;
        }
        i := i + 1;
      }
    }

    method CheckTimeouts(currentTime: uint64) returns (alerts: seq<DoorAlert>)
      requires Valid()
      ensures alerts == FirstFour(Timeouts(Abs(), contactCount, currentTime))
    {
      alerts := [];
      var i: uint32 := 0;
      while i < contactCount
        invariant i <= contactCount && alerts == FirstFour(Timeouts(Abs(), i, currentTime))
      {
        var cfg, st := configs[i], states[i];
        if st.active && cfg.enabled && st.open {
          if currentTime >= st.openedAt {
            var duration := currentTime - st.openedAt;
            if duration > cfg.maxOpenSec && |alerts| < MAX_ALERTS_PER_CHECK {
              alerts := alerts + [DoorAlert(cfg.contactId, cfg.zoneId, OpenTooLong, duration, currentTime)];
            }
          }
        }
        i := i + 1;
      }
    }
  }
}
