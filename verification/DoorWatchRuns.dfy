/** What the door watch stores and reports, against the history of registrations and events. */
module DoorWatchRuns {
  import opened MachineInts
  import opened Options
  import opened DoorWatchModel

  datatype Op = Register(config: ContactConfig) | Contact(contactId: uint32, open: bool, time: uint64)

  function Step(w: Watch, op: Op): (r: Watch)
    requires w.Valid()
    ensures r.Valid()
  {
    match op
    case Register(cfg) => Registered(w, cfg)
    case Contact(contactId, open, time) => Event(w, contactId, open, time).0
  }

  function Run(ops: seq<Op>): (w: Watch)
    ensures w.Valid()
  {
    if ops == [] then Watch([], []) else Step(Run(ops[..|ops| - 1]), ops[|ops| - 1])
  }

  // ---------- the history ----------

  /** The contacts a run lists: those of its first 32 registrations, in the order of the calls. */
  function Listed(ops: seq<Op>): (configs: seq<ContactConfig>)
    ensures |configs| <= 32
  {
    if ops == [] then []
    else
      var before, op := Listed(ops[..|ops| - 1]), ops[|ops| - 1];
      if op.Register? && |before| < 32 then before + [op.config] else before
  }

  /** Contact `k` speaks for its id: it is enabled, and no enabled contact before it has that id. */
  predicate Speaks(configs: seq<ContactConfig>, k: nat) {
    && k < |configs| && configs[k].enabled
    && forall j | 0 <= j < k && configs[j].enabled :: configs[j].contactId != configs[k].contactId
  }

  predicate Known(configs: seq<ContactConfig>, contactId: uint32) {
    exists k | 0 <= k < |configs| :: configs[k].enabled && configs[k].contactId == contactId
  }

  datatype Seen = Seen(open: bool, time: uint64)

  /** The latest event under an id that was already known, if any. */
  function LastEvent(ops: seq<Op>, contactId: uint32): Option<Seen> {
    if ops == [] then None
    else
      var before, op := ops[..|ops| - 1], ops[|ops| - 1];
      if op.Contact? && op.contactId == contactId && Known(Listed(before), contactId) then Some(Seen(op.open, op.time))
      else LastEvent(before, contactId)
  }

  /** The time of the latest opening under an id that was already known, zero if there was none. */
  function LastOpening(ops: seq<Op>, contactId: uint32): uint64 {
    if ops == [] then 0
    else
      var before, op := ops[..|ops| - 1], ops[|ops| - 1];
      if op.Contact? && op.contactId == contactId && Known(Listed(before), contactId) && op.open then op.time
      else LastOpening(before, contactId)
  }

  /** What the state of contact `k` has to show: the latest event of its id, if it speaks for that id. */
  function Shown(ops: seq<Op>, k: nat): Option<Seen>
    requires k < |Listed(ops)|
  {
    if Speaks(Listed(ops), k) then LastEvent(ops, Listed(ops)[k].contactId) else None
  }

  /** Closed until the first event; then what it said, and since when. A closing keeps the time of the last opening. */
  predicate Reflects(st: ContactState, last: Option<Seen>, opening: uint64) {
    && st.active && st.openedAt == opening
    && (st.open <==> last.Some? && last.value.open)
    && (st.open ==> last.value.time == opening)
  }

  /** When contact `k` was last opened, if it speaks for its id. */
  function Opening(ops: seq<Op>, k: nat): uint64
    requires k < |Listed(ops)|
  {
    if Speaks(Listed(ops), k) then LastOpening(ops, Listed(ops)[k].contactId) else 0
  }

  ghost predicate Faithful(ops: seq<Op>, w: Watch) {
    && w.Valid() && w.configs == Listed(ops)
    && forall k | 0 <= k < |w.configs| ::
         Reflects(w.states[k], Shown(ops, k), Opening(ops, k)) && w.states[k].contactId == w.configs[k].contactId
  }

  // ---------- the watch keeps the history ----------

  lemma HistorySnoc(ops: seq<Op>, op: Op, contactId: uint32)
    ensures Listed(ops + [op]) == if op.Register? && |Listed(ops)| < 32 then Listed(ops) + [op.config] else Listed(ops)
    ensures LastEvent(ops + [op], contactId) ==
            if op.Contact? && op.contactId == contactId && Known(Listed(ops), contactId)
            then Some(Seen(op.open, op.time))
            else LastEvent(ops, contactId)
    ensures LastOpening(ops + [op], contactId) ==
            if op.Contact? && op.contactId == contactId && Known(Listed(ops), contactId) && op.open then op.time
            else LastOpening(ops, contactId)
  {
    assert (ops + [op])[..|ops|] == ops;
  }

  /** An id not known yet has no event. */
  lemma {:induction false} UnknownIsUnseen(ops: seq<Op>, contactId: uint32)
    ensures !Known(Listed(ops), contactId) ==> LastEvent(ops, contactId).None? && LastOpening(ops, contactId) == 0
  {
    if ops != [] {
      var before, op := ops[..|ops| - 1], ops[|ops| - 1];
      UnknownIsUnseen(before, contactId);
      assert before + [op] == ops;
      HistorySnoc(before, op, contactId);
      if k: nat :| k < |Listed(before)| && Listed(before)[k].enabled && Listed(before)[k].contactId == contactId {
        assert Listed(ops)[k] == Listed(before)[k];
      }
    }
  }

  /** The first match is the contact that speaks for the id, and there is one exactly for known ids. */
  lemma MatchSpeaks(w: Watch, contactId: uint32)
    requires w.Valid() && forall k | 0 <= k < |w.states| :: w.states[k].active
    ensures FirstMatch(w, contactId, 0) < |w.configs| <==> Known(w.configs, contactId)
    ensures forall k: nat | k < |w.configs| ::
              Speaks(w.configs, k) && w.configs[k].contactId == contactId <==> k == FirstMatch(w, contactId, 0)
  {
    var i := FirstMatch(w, contactId, 0);
    assert forall j | 0 <= j < |w.configs| ::
        Matches(w.configs[j], w.states[j], contactId) <==> w.configs[j].enabled && w.configs[j].contactId == contactId;
  }

  lemma ContactKeepsFaithful(ops: seq<Op>, w: Watch, op: Op)
    requires Faithful(ops, w) && op.Contact?
    ensures Faithful(ops + [op], Step(w, op))
  {
    MatchSpeaks(w, op.contactId);
    HistorySnoc(ops, op, op.contactId);
    forall k: nat | k < |w.configs|
      ensures Reflects(Step(w, op).states[k], Shown(ops + [op], k), Opening(ops + [op], k))
    {
      HistorySnoc(ops, op, w.configs[k].contactId);
    }
  }

  lemma SpeaksSnoc(configs: seq<ContactConfig>, cfg: ContactConfig, k: nat)
    requires k <= |configs|
    ensures Speaks(configs + [cfg], k) <==>
            if k < |configs| then Speaks(configs, k) else cfg.enabled && !Known(configs, cfg.contactId)
  {
    var next := configs + [cfg];
    assert next[k] == if k < |configs| then configs[k] else cfg;
    assert forall j | 0 <= j < |configs| :: next[j] == configs[j];
  }

  lemma RegisterKeepsFaithful(ops: seq<Op>, w: Watch, op: Op)
    requires Faithful(ops, w) && op.Register?
    ensures Faithful(ops + [op], Step(w, op))
  {
    var next := Listed(ops + [op]);
    HistorySnoc(ops, op, op.config.contactId);
    UnknownIsUnseen(ops, op.config.contactId);
    forall k: nat | k < |next|
      ensures Reflects(Step(w, op).states[k], Shown(ops + [op], k), Opening(ops + [op], k))
    {
      HistorySnoc(ops, op, next[k].contactId);
      SpeaksSnoc(w.configs, op.config, k);
    }
  }

  /**
   After any calls at all the watch lists exactly the contacts of the first 32 registrations, in order; each that
   speaks for its id is open exactly if the latest event of that id says so, since that event, and the others are
   closed.
   */
  lemma {:induction false} RunsAreFaithful(ops: seq<Op>)
    ensures Faithful(ops, Run(ops))
  {
    if ops != [] {
      var before, op := ops[..|ops| - 1], ops[|ops| - 1];
      RunsAreFaithful(before);
      assert before + [op] == ops;
      if op.Register? {
        RegisterKeepsFaithful(before, Run(before), op);
      } else {
        ContactKeepsFaithful(before, Run(before), op);
      }
    }
  }

  /** A registration adds one closed contact at the end and touches no other; the 33rd is ignored. */
  lemma RegisteredIsClosed(ops: seq<Op>, cfg: ContactConfig)
    ensures var was, now, n := Run(ops), Run(ops + [Register(cfg)]), |Run(ops).configs|;
            if n < 32 then
              && now.configs == was.configs + [cfg] && |now.states| == n + 1 && now.states[..n] == was.states
              && now.states[n] == ContactState(cfg.contactId, false, 0, true)
            else now == was
  {
    RunsAreFaithful(ops);
    RunsAreFaithful(ops + [Register(cfg)]);
    assert (ops + [Register(cfg)])[..|ops|] == ops;
  }

  // ---------- what is reported ----------

  /** The alerts the history calls for at `now`, among the first `n` contacts it lists. */
  function Expected(ops: seq<Op>, n: nat, now: uint64): seq<DoorAlert>
    requires n <= |Listed(ops)|
  {
    if n == 0 then []
    else
      var cfg, last := Listed(ops)[n - 1], Shown(ops, n - 1);
      Expected(ops, n - 1, now) +
      if last.Some? && last.value.open && last.value.time <= now && now - last.value.time > cfg.maxOpenSec
      then [DoorAlert(cfg.contactId, cfg.zoneId, OpenTooLong, now - last.value.time, now)] else []
  }

  lemma {:induction false} TimeoutsAreExpected(ops: seq<Op>, w: Watch, n: nat, now: uint64)
    requires Faithful(ops, w) && n <= |w.configs|
    ensures Timeouts(w, n, now) == Expected(ops, n, now)
  {
    if n > 0 {
      TimeoutsAreExpected(ops, w, n - 1, now);
    }
  }

  /**
   After any run, the scan at `now` reports exactly the first four, in registration order, of the contacts whose last
   event was an opening at some `o` with `o <= now` and `now - o > max_open_sec`, each with `now - o`.
   */
  lemma TimeoutScanFollowsHistory(ops: seq<Op>, now: uint64)
    ensures var w, due := Run(ops), Expected(ops, |Listed(ops)|, now);
            FirstFour(Timeouts(w, |w.configs|, now)) == if |due| <= 4 then due else due[..4]
  {
    RunsAreFaithful(ops);
    TimeoutsAreExpected(ops, Run(ops), |Run(ops).configs|, now);
  }

  /** The hour lies on the night arc of a contact. */
  predicate AtNight(h: nat, cfg: ContactConfig) {
    (h - OfDay(cfg.nightStartHour)) % 24 < NightLength(cfg.nightStartHour, cfg.nightEndHour)
  }

  lemma HourOfDay(d: nat, h: nat, m: nat)
    requires h < 24 && m < 3600
    ensures (86400 * d + 3600 * h + m) % 86400 / 3600 == h
  {
    var x := 3600 * h + m;
    assert (86400 * d + x) % 86400 == x by {
      assert 0 <= x < 86400;
    }
  }

  lemma EventAlerts(w: Watch, contactId: uint32, open: bool, time: uint64, h: nat)
    requires w.Valid() && h < 24 && time % 86400 / 3600 == h
    ensures var i := FirstMatch(w, contactId, 0);
            Event(w, contactId, open, time).1 ==
            if i < |w.configs| && open && AtNight(h, w.configs[i])
            then [DoorAlert(contactId, w.configs[i].zoneId, OpenedAtNight, 0, time)] else []
  {
    var i := FirstMatch(w, contactId, 0);
    if i < |w.configs| {
      NightIsAnArc(h, w.configs[i].nightStartHour, w.configs[i].nightEndHour);
    }
  }

  /**
   After any run, an event on day `d`, `m` seconds into hour `h`, is answered with one alert if and only if it is an
   opening, its id is known, and the hour is in the night of the contact that speaks for the id; otherwise with none.
   */
  lemma NightAlertsFollowHistory(ops: seq<Op>, contactId: uint32, open: bool, time: uint64, d: nat, h: nat, m: nat)
    requires time == 86400 * d + 3600 * h + m && h < 24 && m < 3600
    ensures var alerts, configs := Event(Run(ops), contactId, open, time).1, Listed(ops);
            && (!Known(configs, contactId) ==> alerts == [])
            && forall k: nat | Speaks(configs, k) && configs[k].contactId == contactId ::
                 alerts == if open && AtNight(h, configs[k])
                           then [DoorAlert(contactId, configs[k].zoneId, OpenedAtNight, 0, time)] else []
  {
    RunsAreFaithful(ops);
    MatchSpeaks(Run(ops), contactId);
    HourOfDay(d, h, m);
    EventAlerts(Run(ops), contactId, open, time, h);
  }
}
