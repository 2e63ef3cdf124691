/** Runs that show the limits of the dispatcher's promises, and what a full buffer does from then on. */
module AlertWitnesses {
  import opened MachineInts
  import opened AlertModel
  import opened AlertRuns
  import opened AlertRefinement

  predicate NoClears(evs: seq<Event>) {
    forall e | e in evs :: !e.Clear?
  }

  // ---------- a run that never clears ----------

  /** Without a clear a full buffer never changes again. */
  lemma {:induction false} FullBufferFreezes(evs: seq<Event>, rest: seq<Event>)
    requires NoClears(rest) && |Run(evs).state.recent| >= 64
    ensures Run(evs + rest).state.recent == Run(evs).state.recent
  {
    if rest == [] {
      assert evs + rest == evs;
    } else {
      var before, e := rest[..|rest| - 1], rest[|rest| - 1];
      FullBufferFreezes(evs, before);
      RunSnoc(evs + before, e);
      assert evs + rest == evs + before + [e];
    }
  }

  /** From then on an alert is deduplicated by what the buffer held when it filled, or not at all. */
  lemma FrozenDedupIff(evs: seq<Event>, rest: seq<Event>, e: Event)
    requires NoClears(rest) && |Run(evs).state.recent| >= 64 && e.Alert?
    ensures var tr := Run(evs + rest);
            Step(tr, e).actions == tr.actions + [Deduplicated]
            <==> SubscriptionMsgId(e.zoneId, e.alertType) in tr.subs &&
                 WouldDedup(Run(evs).state.recent, e.zoneId, e.alertType, e.time)
  {
    FullBufferFreezes(evs, rest);
    var tr := Run(evs + rest);
    var action := Process(tr.state, tr.subs, e.zoneId, e.alertType, e.time).1;
    assert Step(tr, e).actions == tr.actions + [action];
    assert Step(tr, e).actions[|tr.actions|] == action;
  }

  /** So a key the full buffer does not hold is never deduplicated again. */
  lemma MissedKeyIsNeverDeduplicated(evs: seq<Event>, rest: seq<Event>, e: Event)
    requires NoClears(rest) && |Run(evs).state.recent| >= 64 && e.Alert?
    requires forall x | x in Run(evs).state.recent :: !SameKey(x, e.zoneId, e.alertType)
    ensures Step(Run(evs + rest), e).actions != Run(evs + rest).actions + [Deduplicated]
  {
    FrozenDedupIff(evs, rest, e);
  }

  // ---------- extending a run by a send ----------

  lemma FreshKeyIsSent(tr: Trace, zoneId: uint32, t: uint64)
    requires SubscriptionMsgId(zoneId, 0) in tr.subs
    requires AfterReset(tr.state, t).minuteCount < MAX_ALERTS_PER_MINUTE
    requires forall e | e in tr.state.recent :: e.zoneId != zoneId
    ensures var tr', e, s := Step(tr, Alert(zoneId, 0, t)), AlertEntry(zoneId, 0, t), AfterReset(tr.state, t);
            tr'.sends == tr.sends + [e] && tr'.state == State(Recorded(s.recent, e), s.minuteCount + 1, s.minuteStart)
  {
  }

  /** Any run can be extended by a send of a key the buffer does not hold, while the minute has room. */
  lemma SendNext(evs: seq<Event>, zoneId: uint32, t: uint64) returns (next: seq<Event>)
    requires Ordered(evs) && BelowMax(evs) && Clock(evs) <= t < U64_MAX
    requires AfterReset(Run(evs).state, t).minuteCount < MAX_ALERTS_PER_MINUTE
    requires forall e | e in Run(evs).state.recent :: e.zoneId != zoneId
    ensures Ordered(next) && BelowMax(next) && Clock(next) == t && (NoClears(evs) ==> NoClears(next))
    ensures var tr, e, s := Run(evs), AlertEntry(zoneId, 0, t), AfterReset(Run(evs).state, t);
            && Run(next).sends == tr.sends + [e]
            && Run(next).state == State(Recorded(tr.state.recent, e), s.minuteCount + 1, s.minuteStart)
  {
    var s := Subscriptions({SubscriptionMsgId(zoneId, 0)});
    next := evs + [s] + [Alert(zoneId, 0, t)];
    RunSnoc(evs, s);
    RunSnoc(evs + [s], Alert(zoneId, 0, t));
    OrderedSnoc(evs, s);
    OrderedSnoc(evs + [s], Alert(zoneId, 0, t));
    FreshKeyIsSent(Run(evs + [s]), zoneId, t);
  }

  /** The buffer can be filled: zones `0 .. n - 1`, one a minute, never cleared. */
  lemma {:induction false} BufferFills(n: nat) returns (evs: seq<Event>)
    requires n <= MAX_RECENT_ALERTS
    ensures Ordered(evs) && BelowMax(evs) && NoClears(evs) && Clock(evs) == Run(evs).state.minuteStart == 60 * n
    ensures |Run(evs).state.recent| == n && forall e | e in Run(evs).state.recent :: e.zoneId < n
  {
    evs := [];
    if n > 0 {
      var before := BufferFills(n - 1);
      evs := SendNext(before, n - 1, MINUTE_SEC * n);
    }
  }

  /** Without clearing the promise fails: some run without a single clear sends one key twice within the cooldown. */
  lemma UnclearedRunCanDuplicate() returns (evs: seq<Event>)
    ensures Ordered(evs) && BelowMax(evs) && NoClears(evs) && !Spaced(Run(evs).sends)
  {
    var full := BufferFills(MAX_RECENT_ALERTS);
    var first := SendNext(full, 64, 3900);
    evs := SendNext(first, 64, 3960);
    var sends := Run(evs).sends;
    assert sends[|sends| - 1].time == sends[|sends| - 2].time + MINUTE_SEC;
  }

  // ---------- a clear ahead of the alerts ----------

  lemma {:induction false} SmallRunsAreLossless(evs: seq<Event>)
    requires |Run(evs).sends| <= MAX_RECENT_ALERTS
    ensures Lossless(evs) && |Run(evs).state.recent| <= |Run(evs).sends|
  {
    if evs != [] {
      SmallRunsAreLossless(evs[..|evs| - 1]);
    }
  }

  lemma {:induction false} NothingLive(s: seq<AlertEntry>, c: uint64)
    requires forall e | e in s :: !Live(e, c)
    ensures LiveOnly(s, c) == []
  {
    if s != [] {
      NothingLive(s[..|s| - 1], c);
    }
  }

  lemma ClearForgets(evs: seq<Event>, c: uint64)
    requires forall e | e in Run(evs).state.recent :: !Live(e, c)
    ensures Run(evs + [Clear(c)]) == Run(evs).(state := Run(evs).state.(recent := []))
  {
    RunSnoc(evs, Clear(c));
    NothingLive(Run(evs).state.recent, c);
  }

  lemma OneSend(e: AlertEntry) returns (evs: seq<Event>)
    requires e.alertType == 0 && MINUTE_SEC <= e.time < U64_MAX
    ensures Ordered(evs) && BelowMax(evs) && Clock(evs) == e.time
    ensures Run(evs).sends == [e] && Run(evs).state == State([e], 1, e.time)
  {
    evs := SendNext([], e.zoneId, e.time);
  }

  /**
   Nor may a clear run ahead of the alerts after it: one at 361 forgets a send at 60, and 120 sends it again. Two sends
   in all, so the buffer never holds more than two entries.
   */
  lemma ClearAheadCanDuplicate() returns (evs: seq<Event>)
    ensures Ordered(evs) && BelowMax(evs) && Lossless(evs) && !Spaced(Run(evs).sends)
    ensures |Run(evs).sends| == 2
  {
    var e := AlertEntry(0, 0, MINUTE_SEC);
    var c: uint64 :| c == e.time + DEDUP_COOLDOWN_SEC + 1;
    var first := OneSend(e);
    OrderedSnoc(first, Clear(c));
    ClearForgets(first, c);
    evs := SendNext(first + [Clear(c)], 0, e.time + MINUTE_SEC);
    var sends := Run(evs).sends;
    assert |sends| == 2 && sends[0] == e && sends[1] == AlertEntry(0, 0, e.time + MINUTE_SEC);
    assert SameKey(sends[0], sends[1].zoneId, sends[1].alertType);
    SmallRunsAreLossless(evs);
  }

  // ---------- the bound on sends in a span is attained ----------

  /** Ten sends at 59, then ten at every full minute: each window is used to its limit, the first at its very end. */
  function BurstTime(i: nat): nat {
    if i < 10 then 59 else 60 * (i / 10)
  }

  /** After the buffer is full, key 64 is never held, so it can be sent for ever. */
  function BurstZone(i: nat): uint32 {
    if i < MAX_RECENT_ALERTS then i else MAX_RECENT_ALERTS
  }

  function Bursts(n: nat): seq<AlertEntry>
    requires n > 0 ==> BurstTime(n - 1) < U64_MAX
  {
    if n == 0 then []
    else
      BurstTimesClimb(n - 1);
      Bursts(n - 1) + [AlertEntry(BurstZone(n - 1), 0, BurstTime(n - 1))]
  }

  lemma BurstTimesClimb(i: nat)
    ensures 59 <= BurstTime(i)
    ensures i > 0 ==> BurstTime(i - 1) <= BurstTime(i)
  {
  }

  /** The window in force after `n` bursts, and how much of it is used. */
  ghost predicate BurstWindow(s: State, n: nat) {
    && s.minuteStart == (if n <= 10 then 0 else 60 * ((n - 1) / 10))
    && s.minuteCount == (if n == 0 then 0 else (n - 1) % 10 + 1)
  }

  lemma BurstFitsWindow(s: State, n: nat)
    requires BurstWindow(s, n) && BurstTime(n) < U64_MAX
    ensures var r := AfterReset(s, BurstTime(n));
            r.minuteCount < MAX_ALERTS_PER_MINUTE && BurstWindow(r.(minuteCount := r.minuteCount + 1), n + 1)
  {
    if n < 10 {
    } else if n % 10 == 0 {
      assert (n - 1) / 10 == n / 10 - 1;
    } else {
      assert (n - 1) / 10 == n / 10 && (n - 1) % 10 == n % 10 - 1;
    }
  }

  lemma {:induction false} BurstsAreSent(n: nat) returns (evs: seq<Event>)
    requires n > 0 ==> BurstTime(n - 1) < U64_MAX
    ensures Ordered(evs) && BelowMax(evs) && NoClears(evs) && Clock(evs) == if n == 0 then 0 else BurstTime(n - 1)
    ensures Run(evs).sends == Bursts(n) && BurstWindow(Run(evs).state, n)
    ensures var recent := Run(evs).state.recent;
            && |recent| == (if n < MAX_RECENT_ALERTS then n else MAX_RECENT_ALERTS)
            && forall e | e in recent :: e.zoneId < |recent|
  {
    evs := [];
    if n > 0 {
      BurstTimesClimb(n - 1);
      var before := BurstsAreSent(n - 1);
      BurstFitsWindow(Run(before).state, n - 1);
      evs := SendNext(before, BurstZone(n - 1), BurstTime(n - 1));
    }
  }

  lemma {:induction false} AllBurstsCount(n: nat, hi: nat)
    requires n > 0 ==> BurstTime(n - 1) <= hi < U64_MAX
    ensures CountIn(Bursts(n), 59, hi) == n
  {
    if n > 0 {
      BurstTimesClimb(n - 1);
      AllBurstsCount(n - 1, hi);
    }
  }

  /**
   The bound of `SpanBound` is attained for every span length: 60 sends in a closed 300 seconds, and 70 in 301, so a
   clear that lags by one second can find more live entries than the 64 slots hold.
   */
  lemma SpanBoundIsAttained(len: nat) returns (evs: seq<Event>)
    requires len + 59 < U64_MAX
    ensures Ordered(evs) && BelowMax(evs) && NoClears(evs)
    ensures CountIn(Run(evs).sends, 59, 59 + len) == 10 * ((len + 59) / 60 + 1)
  {
    var n := MAX_ALERTS_PER_MINUTE * ((len + 59) / 60 + 1);
    assert BurstTime(n - 1) <= 59 + len;
    evs := BurstsAreSent(n);
    AllBurstsCount(n, 59 + len);
  }
}
