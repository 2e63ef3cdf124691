/** The door watch on values: contact events and the timeout scan. */
module DoorWatchModel {
  import opened MachineInts

  const MAX_CONTACTS: nat := 32
  const MAX_ALERTS_PER_CHECK: nat := 4

  datatype ContactConfig = ContactConfig(
    contactId: uint32, zoneId: uint32, maxOpenSec: uint32, nightStartHour: uint8, nightEndHour: uint8, enabled: bool)

  datatype ContactState = ContactState(contactId: uint32, open: bool, openedAt: uint64, active: bool)

  datatype DoorAlertType = OpenTooLong | OpenedAtNight

  datatype DoorAlert = DoorAlert(
    contactId: uint32, zoneId: uint32, alertType: DoorAlertType, openDurationSec: uint64, time: uint64)

  datatype Watch = Watch(configs: seq<ContactConfig>, states: seq<ContactState>) {
    predicate Valid() {
      |configs| == |states| <= MAX_CONTACTS
    }
  }

  predicate IsNightHour(hour: int, nightStart: uint8, nightEnd: uint8) {
    if nightStart <= nightEnd then nightStart <= hour < nightEnd else hour >= nightStart || hour < nightEnd
  }

  /** An hour as configured, cut to the day: nothing checks that it is below 24. */
  function OfDay(hour: uint8): nat {
    if hour < 24 then hour else 24
  }

  /** The hours of the night; a start and an end that are one hour leave it empty. */
  function NightLength(nightStart: uint8, nightEnd: uint8): nat {
    if nightStart <= nightEnd then OfDay(nightEnd) - OfDay(nightStart) else 24 - OfDay(nightStart) + OfDay(nightEnd)
  }

  /** The night is an arc of the clock, whatever is configured: its first `NightLength` hours from `nightStart` on. */
  lemma NightIsAnArc(hour: nat, nightStart: uint8, nightEnd: uint8)
    requires hour < 24
    ensures IsNightHour(hour, nightStart, nightEnd)
            <==> (hour - OfDay(nightStart)) % 24 < NightLength(nightStart, nightEnd)
  {
    if hour >= OfDay(nightStart) {
      assert (hour - OfDay(nightStart)) % 24 == hour - OfDay(nightStart);
    } else {
      assert (hour - OfDay(nightStart)) % 24 == hour - OfDay(nightStart) + 24;
    }
  }

  predicate Matches(cfg: ContactConfig, st: ContactState, contactId: uint32) {
    st.active && cfg.enabled && cfg.contactId == contactId
  }

  /** The first contact at or after `i` that takes the event; the number of contacts if none does. */
  function FirstMatch(w: Watch, contactId: uint32, i: nat): (k: nat)
    requires w.Valid() && i <= |w.configs|
    ensures i <= k <= |w.configs|
    ensures k < |w.configs| ==> Matches(w.configs[k], w.states[k], contactId)
    ensures forall j | i <= j < k :: !Matches(w.configs[j], w.states[j], contactId)
    decreases |w.configs| - i
  {
    if i == |w.configs| || Matches(w.configs[i], w.states[i], contactId) then i else FirstMatch(w, contactId, i + 1)
  }

  function Registered(w: Watch, cfg: ContactConfig): Watch {
    if |w.configs| >= MAX_CONTACTS then w
    else Watch(w.configs + [cfg], w.states + [ContactState(cfg.contactId, false, 0, true)])
  }

  function Moved(st: ContactState, open: bool, time: uint64): ContactState {
    if open then st.(open := true, openedAt := time) else st.(open := false)
  }

  function NightAlert(cfg: ContactConfig, open: bool, time: uint64): seq<DoorAlert> {
    if open && IsNightHour(time % 86400 / 3600, cfg.nightStartHour, cfg.nightEndHour)
    then [DoorAlert(cfg.contactId, cfg.zoneId, OpenedAtNight, 0, time)] else []
  }

  function Event(w: Watch, contactId: uint32, open: bool, time: uint64): (Watch, seq<DoorAlert>)
    requires w.Valid()
  {
    var i := FirstMatch(w, contactId, 0);
    if i == |w.configs| then (w, [])
    else (w.(states := w.states[i := Moved(w.states[i], open, time)]), NightAlert(w.configs[i], open, time))
  }

  /** The alert of a contact that is open since `openedAt`, if it is due at `now`. */
  function TimeoutAlert(cfg: ContactConfig, openedAt: uint64, now: uint64): seq<DoorAlert> {
    if now >= openedAt && now - openedAt > cfg.maxOpenSec
    then [DoorAlert(cfg.contactId, cfg.zoneId, OpenTooLong, now - openedAt, now)] else []
  }

  function ContactTimeout(cfg: ContactConfig, st: ContactState, now: uint64): seq<DoorAlert> {
    if st.active && cfg.enabled && st.open then TimeoutAlert(cfg, st.openedAt, now) else []
  }

  /** All due alerts of the first `n` contacts, in registration order. */
  function Timeouts(w: Watch, n: nat, now: uint64): seq<DoorAlert>
    requires w.Valid() && n <= |w.configs|
  {
    if n == 0 then [] else Timeouts(w, n - 1, now) + ContactTimeout(w.configs[n - 1], w.states[n - 1], now)
  }

  function FirstFour(s: seq<DoorAlert>): seq<DoorAlert> {
    if |s| <= MAX_ALERTS_PER_CHECK then s else s[..MAX_ALERTS_PER_CHECK]
  }
}
