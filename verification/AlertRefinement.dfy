/** What the bounded buffer is worth: the dispatcher against one that remembers every alert it ever sent. */
module AlertRefinement {
  import opened MachineInts
  import opened AlertModel
  import opened AlertRuns

  lemma OrderedSnoc(evs: seq<Event>, e: Event)
    ensures Ordered(evs + [e]) <==> Ordered(evs) && (e.Alert? ==> Clock(evs) <= e.time)
    ensures Clock(evs + [e]) == if e.Alert? then e.time else Clock(evs)
  {
    assert (evs + [e])[..|evs|] == evs;
  }

  /** A dispatcher that remembers every alert it ever sent, in unbounded arithmetic, and never clears. */
  datatype Ledger = Ledger(history: State, subs: set<uint32>, actions: seq<Action>)

  /** An alert of the key was sent less than 300 seconds before `t`. */
  predicate SentLately(sends: seq<AlertEntry>, zoneId: uint32, alertType: uint8, t: uint64) {
    exists e | e in sends :: e.zoneId == zoneId && e.alertType == alertType && t < e.time + 300
  }

  /** At most ten sends in a window of 60 seconds that begins with the first alert after the last one ran out. */
  function LedgerStep(l: Ledger, e: Event): Ledger {
    match e
    case Alert(zoneId, alertType, t) =>
      if SubscriptionMsgId(zoneId, alertType) !in l.subs then l.(actions := l.actions + [NotSubscribed])
      else
        var sends := l.history.recent;
        var (count, start) := if t >= l.history.minuteStart + 60 then (0, t)
                              else (l.history.minuteCount, l.history.minuteStart);
        if SentLately(sends, zoneId, alertType, t) then
          Ledger(State(sends, count, start), l.subs, l.actions + [Deduplicated])
        else if count >= 10 then Ledger(State(sends, count, start), l.subs, l.actions + [RateLimited])
        else Ledger(State(sends + [AlertEntry(zoneId, alertType, t)], count + 1, start), l.subs, l.actions + [Send])
    case Clear(_) => l
    case Subscriptions(ids) => l.(subs := ids)
  }

  function LedgerRun(evs: seq<Event>): Ledger {
    if evs == [] then Ledger(INITIAL, {}, []) else LedgerStep(LedgerRun(evs[..|evs| - 1]), evs[|evs| - 1])
  }

  /** The latest time an event carries. */
  function Latest(evs: seq<Event>): uint64 {
    if evs == [] then 0
    else if evs[|evs| - 1].Subscriptions? then Latest(evs[..|evs| - 1])
    else evs[|evs| - 1].time
  }

  /** Alerts and clears share one clock that never goes back, and stays below its last instant. */
  predicate InOrder(evs: seq<Event>) {
    evs != [] ==>
      var before, e := evs[..|evs| - 1], evs[|evs| - 1];
      InOrder(before) && (!e.Subscriptions? ==> Latest(before) <= e.time < U64_MAX)
  }

  lemma InOrderSnoc(evs: seq<Event>, e: Event)
    ensures InOrder(evs + [e]) <==> InOrder(evs) && (!e.Subscriptions? ==> Latest(evs) <= e.time < U64_MAX)
    ensures Latest(evs + [e]) == if e.Subscriptions? then Latest(evs) else e.time
  {
    assert (evs + [e])[..|evs|] == evs;
  }

  /** The alert that would extend the run is sent. */
  predicate IsSent(tr: Trace, e: Event) {
    e.Alert? && Process(tr.state, tr.subs, e.zoneId, e.alertType, e.time).1 == Send
  }

  /** No send of the run found the buffer full: what a caller can read off `recent_count` before each call. */
  predicate Lossless(evs: seq<Event>) {
    evs != [] ==>
      var before, e := evs[..|evs| - 1], evs[|evs| - 1];
      Lossless(before) && (IsSent(Run(before), e) ==> |Run(before).state.recent| < 64)
  }

  /** The buffer holds what is still live of the whole history, and nothing else differs. */
  ghost predicate Agree(tr: Trace, l: Ledger, now: uint64) {
    && tr.actions == l.actions && tr.sends == l.history.recent && tr.subs == l.subs
    && tr.state.minuteCount == l.history.minuteCount && tr.state.minuteStart == l.history.minuteStart
    && LiveOnly(tr.state.recent, now) == LiveOnly(l.history.recent, now)
  }

  lemma LiveStayEqual(s: seq<AlertEntry>, h: seq<AlertEntry>, now: uint64, t: uint64)
    requires LiveOnly(s, now) == LiveOnly(h, now) && now <= t
    ensures LiveOnly(s, t) == LiveOnly(h, t)
  {
    LiveOnlyAbsorbs(s, now, t);
    LiveOnlyAbsorbs(h, now, t);
  }

  lemma SameShadows(s: seq<AlertEntry>, h: seq<AlertEntry>, zoneId: uint32, alertType: uint8, t: uint64)
    requires LiveOnly(s, t) == LiveOnly(h, t) && t < U64_MAX
    ensures WouldDedup(s, zoneId, alertType, t) <==> SentLately(h, zoneId, alertType, t)
  {
    ClearedEntriesShadowNothing(s, t, zoneId, alertType, t);
    ClearedEntriesShadowNothing(h, t, zoneId, alertType, t);
    if e :| e in h && Shadows(e, zoneId, alertType, t) {
      assert e.zoneId == zoneId && e.alertType == alertType && t < e.time + 300;
    }
    if e :| e in h && e.zoneId == zoneId && e.alertType == alertType && t < e.time + 300 {
      assert Shadows(e, zoneId, alertType, t);
    }
  }

  lemma AlertAgrees(tr: Trace, l: Ledger, now: uint64, e: Event)
    requires Agree(tr, l, now) && e.Alert? && now <= e.time < U64_MAX
    requires IsSent(tr, e) ==> |tr.state.recent| < MAX_RECENT_ALERTS
    ensures Agree(Step(tr, e), LedgerStep(l, e), e.time)
  {
    var s, h, t, entry := tr.state, l.history, e.time, AlertEntry(e.zoneId, e.alertType, e.time);
    LiveStayEqual(s.recent, h.recent, now, t);
    SameShadows(s.recent, h.recent, e.zoneId, e.alertType, t);
    assert AfterReset(s, t) == GhostAfterReset(h, t).(recent := s.recent);
    LiveOnlySnoc(s.recent, entry, t);
    LiveOnlySnoc(h.recent, entry, t);
  }

  /**
   The bounded buffer refines the unbounded history: on every run in order, with clears anywhere, the engine answers
   each alert as the dispatcher that remembers everything does, as long as no send finds the buffer full.
   */
  lemma {:induction false} LosslessRunsAgree(evs: seq<Event>)
    requires InOrder(evs) && Lossless(evs)
    ensures Agree(Run(evs), LedgerRun(evs), Latest(evs))
  {
    if evs != [] {
      var before, e := evs[..|evs| - 1], evs[|evs| - 1];
      LosslessRunsAgree(before);
      var tr, l := Run(before), LedgerRun(before);
      match e
      case Alert(_, _, _) => AlertAgrees(tr, l, Latest(before), e);
      case Clear(c) =>
        LiveStayEqual(tr.state.recent, l.history.recent, Latest(before), c);
        LiveOnlyAbsorbs(tr.state.recent, c, c);
      case Subscriptions(_) =>
    }
  }

  lemma LedgerSnoc(evs: seq<Event>, e: Event)
    ensures LedgerRun(evs + [e]) == LedgerStep(LedgerRun(evs), e)
  {
    assert (evs + [e])[..|evs|] == evs;
  }

  lemma LedgerDedupsRepeat(l: Ledger, e: Event)
    requires e.Alert? && LedgerStep(l, e).history.recent == l.history.recent + [AlertEntry(e.zoneId, e.alertType, e.time)]
    ensures LedgerStep(LedgerStep(l, e), e).actions == LedgerStep(l, e).actions + [Deduplicated]
  {
    var h := LedgerStep(l, e).history.recent;
    assert h[|h| - 1] == AlertEntry(e.zoneId, e.alertType, e.time);
    assert SubscriptionMsgId(e.zoneId, e.alertType) in l.subs;
  }

  lemma RepeatStep(tr: Trace, l: Ledger, now: uint64, e: Event)
    requires Agree(tr, l, now) && IsSent(tr, e) && now <= e.time < U64_MAX
    ensures Step(Step(tr, e), e).actions == LedgerStep(LedgerStep(l, e), e).actions
       <==> |tr.state.recent| < MAX_RECENT_ALERTS
  {
    LiveStayEqual(tr.state.recent, l.history.recent, now, e.time);
    SameShadows(tr.state.recent, l.history.recent, e.zoneId, e.alertType, e.time);
    LedgerDedupsRepeat(l, e);
    assert LedgerStep(l, e).actions == l.actions + [Send];
    DedupAfterSendIff(tr.state, tr.subs, e.zoneId, e.alertType, e.time, e.time);
    var tr1 := Step(tr, e);
    var again := Process(tr1.state, tr1.subs, e.zoneId, e.alertType, e.time).1;
    assert Step(tr1, e).actions == tr1.actions + [again];
    assert tr1.actions == tr.actions + [Send];
    assert Step(tr1, e).actions[|tr1.actions|] == again;
    assert LedgerStep(LedgerStep(l, e), e).actions[|tr1.actions|] == Deduplicated;
  }

  /** And no longer: a send that finds the buffer full is exactly one whose repeat the two answer differently. */
  lemma RepeatAgreesIff(evs: seq<Event>, e: Event)
    requires InOrder(evs + [e]) && Lossless(evs) && IsSent(Run(evs), e)
    ensures Run(evs + [e] + [e]).actions == LedgerRun(evs + [e] + [e]).actions
       <==> |Run(evs).state.recent| < 64
  {
    InOrderSnoc(evs, e);
    LosslessRunsAgree(evs);
    RepeatStep(Run(evs), LedgerRun(evs), Latest(evs), e);
    RunSnoc(evs, e);
    RunSnoc(evs + [e], e);
    LedgerSnoc(evs, e);
    LedgerSnoc(evs + [e], e);
  }

  /** The same calls with `clear_expired(t)` put before every alert at `t`, and no other clearing. */
  function Eager(evs: seq<Event>): seq<Event> {
    if evs == [] then []
    else
      var before, e := Eager(evs[..|evs| - 1]), evs[|evs| - 1];
      match e
      case Alert(_, _, t) => before + [Clear(t)] + [e]
      case Clear(_) => before
      case Subscriptions(_) => before + [e]
  }

  lemma {:induction false} InOrderIsOrdered(evs: seq<Event>)
    requires InOrder(evs)
    ensures Ordered(evs) && BelowMax(evs) && Clock(evs) <= Latest(evs) < U64_MAX
  {
    if evs != [] {
      InOrderIsOrdered(evs[..|evs| - 1]);
    }
  }

  lemma {:induction false} EagerIsInOrder(evs: seq<Event>)
    requires Ordered(evs) && BelowMax(evs)
    ensures InOrder(Eager(evs)) && Latest(Eager(evs)) == Clock(evs)
  {
    if evs != [] {
      var before, e := Eager(evs[..|evs| - 1]), evs[|evs| - 1];
      EagerIsInOrder(evs[..|evs| - 1]);
      match e
      case Alert(_, _, t) =>
        InOrderSnoc(before, Clear(t));
        InOrderSnoc(before + [Clear(t)], e);
      case Clear(_) =>
      case Subscriptions(_) => InOrderSnoc(before, e);
    }
  }

  lemma {:induction false} LiveFitsItsSpan(s: seq<AlertEntry>, t: uint64)
    requires t < U64_MAX && forall i | 0 <= i < |s| :: s[i].time <= t
    ensures |LiveOnly(s, t)| <= CountIn(s, t - DEDUP_COOLDOWN_SEC, t)
  {
    if s != [] {
      LiveFitsItsSpan(s[..|s| - 1], t);
    }
  }

  lemma LiveFitsInSixty(evs: seq<Event>, t: uint64)
    requires InOrder(evs) && Latest(evs) <= t < U64_MAX
    ensures |LiveOnly(Run(evs).sends, t)| <= 60
  {
    InOrderIsOrdered(evs);
    SendsAreSorted(evs);
    LiveFitsItsSpan(Run(evs).sends, t);
    SpanBound(evs, t - DEDUP_COOLDOWN_SEC, DEDUP_COOLDOWN_SEC);
  }

  lemma LosslessSnoc(evs: seq<Event>, e: Event)
    ensures Lossless(evs + [e]) <==>
            Lossless(evs) && (IsSent(Run(evs), e) ==> |Run(evs).state.recent| < MAX_RECENT_ALERTS)
  {
    assert (evs + [e])[..|evs|] == evs;
  }

  /** The buffer holds the live part of all sends, and no more. */
  ghost predicate Tidy(evs: seq<Event>, now: uint64) {
    && Run(evs).state.recent == LiveOnly(Run(evs).sends, now)
    && Lossless(evs) && InOrder(evs) && Latest(evs) <= now < U64_MAX
  }

  lemma ClearStaysTidy(evs: seq<Event>, now: uint64, t: uint64)
    requires Tidy(evs, now) && now <= t < U64_MAX
    ensures Tidy(evs + [Clear(t)], t) && |Run(evs + [Clear(t)]).state.recent| <= 60
  {
    InOrderSnoc(evs, Clear(t));
    RunSnoc(evs, Clear(t));
    LiveOnlyAbsorbs(Run(evs).sends, now, t);
    LiveFitsInSixty(evs, t);
    LosslessSnoc(evs, Clear(t));
  }

  lemma ProcessRecords(s: State, subs: set<uint32>, e: Event)
    requires e.Alert?
    ensures var (s', action) := Process(s, subs, e.zoneId, e.alertType, e.time);
            s'.recent == if action == Send then Recorded(s.recent, AlertEntry(e.zoneId, e.alertType, e.time))
                         else s.recent
  {
  }

  lemma AlertKeepsLiveOnly(tr: Trace, e: Event)
    requires e.Alert? && |tr.state.recent| < MAX_RECENT_ALERTS
    requires tr.state.recent == LiveOnly(tr.sends, e.time)
    ensures Step(tr, e).state.recent == LiveOnly(Step(tr, e).sends, e.time)
  {
    ProcessRecords(tr.state, tr.subs, e);
    LiveOnlySnoc(tr.sends, AlertEntry(e.zoneId, e.alertType, e.time), e.time);
  }

  lemma AlertStaysTidy(evs: seq<Event>, e: Event)
    requires e.Alert? && Tidy(evs, e.time) && |Run(evs).state.recent| < MAX_RECENT_ALERTS
    ensures Tidy(evs + [e], e.time)
  {
    InOrderSnoc(evs, e);
    RunSnoc(evs, e);
    LosslessSnoc(evs, e);
    AlertKeepsLiveOnly(Run(evs), e);
  }

  lemma {:induction false} EagerIsTidy(evs: seq<Event>)
    requires Ordered(evs) && BelowMax(evs)
    ensures Tidy(Eager(evs), Clock(evs))
  {
    EagerIsInOrder(evs);
    InOrderIsOrdered(Eager(evs));
    if evs != [] {
      var before, e := Eager(evs[..|evs| - 1]), evs[|evs| - 1];
      EagerIsTidy(evs[..|evs| - 1]);
      match e
      case Alert(_, _, t) =>
        ClearStaysTidy(before, Clock(evs[..|evs| - 1]), t);
        AlertStaysTidy(before + [Clear(t)], e);
      case Clear(_) =>
      case Subscriptions(_) =>
        LosslessSnoc(before, e);
        RunSnoc(before, e);
    }
  }

  /** Sixty sends fit any closed 300 seconds and 60 < 64: cleared before each alert, the buffer never loses an entry. */
  lemma EagerIsLossless(evs: seq<Event>)
    requires Ordered(evs) && BelowMax(evs)
    ensures Lossless(Eager(evs)) && |Run(Eager(evs)).state.recent| <= 60
  {
    EagerIsTidy(evs);
    LiveFitsInSixty(Eager(evs), Clock(evs));
  }

  lemma LedgerSkipsClear(evs: seq<Event>, t: uint64, e: Event)
    ensures LedgerRun(evs + [Clear(t)] + [e]) == LedgerStep(LedgerRun(evs), e)
  {
    LedgerSnoc(evs, Clear(t));
    LedgerSnoc(evs + [Clear(t)], e);
  }

  lemma {:induction false} LedgerIgnoresClears(evs: seq<Event>)
    ensures LedgerRun(Eager(evs)) == LedgerRun(evs)
  {
    if evs != [] {
      var before, e := evs[..|evs| - 1], evs[|evs| - 1];
      LedgerIgnoresClears(before);
      assert LedgerRun(evs) == LedgerStep(LedgerRun(before), e);
      match e
      case Alert(_, _, t) => LedgerSkipsClear(Eager(before), t, e);
      case Clear(_) =>
      case Subscriptions(_) => LedgerSnoc(Eager(before), e);
    }
  }

  /** So with eager clearing the 64-slot limit never shows, on any run whose alert times do not go back. */
  lemma EagerRefinesUnbounded(evs: seq<Event>)
    requires Ordered(evs) && BelowMax(evs)
    ensures Run(Eager(evs)).actions == LedgerRun(evs).actions
    ensures Run(Eager(evs)).sends == LedgerRun(evs).history.recent
  {
    EagerIsInOrder(evs);
    EagerIsLossless(evs);
    LosslessRunsAgree(Eager(evs));
    LedgerIgnoresClears(evs);
  }

  lemma {:induction false} LedgerStaysSpaced(evs: seq<Event>)
    requires BelowMax(evs)
    ensures Spaced(LedgerRun(evs).history.recent)
  {
    if evs != [] {
      LedgerStaysSpaced(evs[..|evs| - 1]);
      var h := LedgerRun(evs[..|evs| - 1]).history.recent;
      assert forall i | 0 <= i < |h| :: h[i] in h;
    }
  }

  /** Hence no key is ever sent twice within the cooldown. */
  lemma EagerRunsNeverDuplicate(evs: seq<Event>)
    requires Ordered(evs) && BelowMax(evs)
    ensures Spaced(Run(Eager(evs)).sends)
  {
    EagerRefinesUnbounded(evs);
    LedgerStaysSpaced(evs);
  }
}
