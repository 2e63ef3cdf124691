/**
 The alert dispatcher's transition as a function on values. `Process` and `LiveOnly` use the engine's saturating
 64-bit arithmetic; `GhostProcess` is the unbounded-arithmetic model of the repository's own deductive proof.
 */
module AlertModel {
  import opened MachineInts

  const MAX_RECENT_ALERTS: nat := 64
  const DEDUP_COOLDOWN_SEC: nat := 300
  const MAX_ALERTS_PER_MINUTE: nat := 10
  const MINUTE_SEC: nat := 60

  datatype AlertEntry = AlertEntry(zoneId: uint32, alertType: uint8, time: uint64)

  datatype Action = Send | Deduplicated | RateLimited | NotSubscribed

  /** `recent` is the filled prefix of the engine's buffer. */
  datatype State = State(recent: seq<AlertEntry>, minuteCount: nat, minuteStart: uint64)

  const INITIAL := State([], 0, 0)

  /** Upper 8 bits: alert type. Lower 24 bits: the zone, truncated. */
  function SubscriptionMsgId(zoneId: uint32, alertType: uint8): uint32 {
    alertType * 0x100_0000 + zoneId % 0x100_0000
  }

  /** Zones equal in their low 24 bits share their subscriptions, though not their dedup key. */
  lemma MsgIdsAliasIff(z1: uint32, k1: uint8, z2: uint32, k2: uint8)
    ensures SubscriptionMsgId(z1, k1) / 0x100_0000 == k1 && SubscriptionMsgId(z1, k1) % 0x100_0000 == z1 % 0x100_0000
    ensures SubscriptionMsgId(z1, k1) == SubscriptionMsgId(z2, k2) <==> k1 == k2 && z1 % 0x100_0000 == z2 % 0x100_0000
  {
  }

  predicate SameKey(e: AlertEntry, zoneId: uint32, alertType: uint8) {
    e.zoneId == zoneId && e.alertType == alertType
  }

  predicate Shadows(e: AlertEntry, zoneId: uint32, alertType: uint8, t: uint64) {
    SameKey(e, zoneId, alertType) && t < SatAdd64(e.time, DEDUP_COOLDOWN_SEC)
  }

  predicate WouldDedup(recent: seq<AlertEntry>, zoneId: uint32, alertType: uint8, t: uint64) {
    exists e | e in recent :: Shadows(e, zoneId, alertType, t)
  }

  function AfterReset(s: State, t: uint64): State {
    if t >= SatAdd64(s.minuteStart, MINUTE_SEC) then s.(minuteCount := 0, minuteStart := t) else s
  }

  /** The buffer after a Send: a full buffer drops the entry. */
  function Recorded(recent: seq<AlertEntry>, e: AlertEntry): seq<AlertEntry> {
    if |recent| < MAX_RECENT_ALERTS then recent + [e] else recent
  }

  function Process(s: State, subs: set<uint32>, zoneId: uint32, alertType: uint8, t: uint64): (State, Action) {
    if SubscriptionMsgId(zoneId, alertType) !in subs then (s, NotSubscribed)
    else
      var s1 := AfterReset(s, t);
      if WouldDedup(s1.recent, zoneId, alertType, t) then (s1, Deduplicated)
      else if s1.minuteCount >= MAX_ALERTS_PER_MINUTE then (s1, RateLimited)
      else
        (State(Recorded(s1.recent, AlertEntry(zoneId, alertType, t)), s1.minuteCount + 1, s1.minuteStart), Send)
  }

  /** What `clear_expired(c)` keeps. */
  predicate Live(e: AlertEntry, c: uint64) {
    SatAdd64(e.time, DEDUP_COOLDOWN_SEC) >= c
  }

  function LiveOnly(s: seq<AlertEntry>, c: uint64): (r: seq<AlertEntry>)
    ensures |r| <= |s|
  {
    if s == [] then []
    else
      var e := s[|s| - 1];
      var r := LiveOnly(s[..|s| - 1], c);
      if Live(e, c) then r + [e] else r
  }

  lemma LiveOnlyUnfold(s: seq<AlertEntry>, c: uint64)
    requires s != []
    ensures LiveOnly(s, c) ==
            if Live(s[|s| - 1], c) then LiveOnly(s[..|s| - 1], c) + [s[|s| - 1]] else LiveOnly(s[..|s| - 1], c)
  {
  }

  lemma LiveOnlySnoc(s: seq<AlertEntry>, e: AlertEntry, c: uint64)
    ensures LiveOnly(s + [e], c) == if Live(e, c) then LiveOnly(s, c) + [e] else LiveOnly(s, c)
  {
    assert (s + [e])[..|s|] == s;
  }

  lemma {:induction false} LiveOnlyMembers(s: seq<AlertEntry>, c: uint64)
    ensures forall e :: e in LiveOnly(s, c) <==> e in s && Live(e, c)
  {
    if s != [] {
      var n := |s| - 1;
      LiveOnlyMembers(s[..n], c);
      assert s == s[..n] + [s[n]];
    }
  }

  /** `kept` lists, in increasing order, exactly the live positions of `s`. */
  ghost predicate LivePositions(s: seq<AlertEntry>, c: uint64, kept: seq<nat>) {
    && (forall i | 0 <= i < |kept| :: kept[i] < |s|)
    && (forall i, j | 0 <= i < j < |kept| :: kept[i] < kept[j])
    && (forall k | 0 <= k < |s| :: k in kept <==> s[k].time + 300 >= c)
  }

  lemma LivePositionsSnoc(s: seq<AlertEntry>, e: AlertEntry, c: uint64, kept: seq<nat>)
    requires LivePositions(s, c, kept)
    ensures LivePositions(s + [e], c, if Live(e, c) then kept + [|s|] else kept)
  {
    var t, now := s + [e], if Live(e, c) then kept + [|s|] else kept;
    forall k | 0 <= k < |t| ensures k in now <==> Live(t[k], c) {
      assert k in now <==> k in kept || (k == |s| && Live(e, c));
    }
  }

  /** `r` lists the entries of `s` at the positions `kept`. */
  ghost predicate Selects(s: seq<AlertEntry>, kept: seq<nat>, r: seq<AlertEntry>) {
    |kept| == |r| && forall i | 0 <= i < |kept| :: kept[i] < |s| && s[kept[i]] == r[i]
  }

  lemma SelectsSnoc(s: seq<AlertEntry>, e: AlertEntry, kept: seq<nat>, r: seq<AlertEntry>)
    requires Selects(s, kept, r)
    ensures Selects(s + [e], kept, r) && Selects(s + [e], kept + [|s|], r + [e])
  {
  }

  /** The compaction is a stable filter: it keeps the live entries, all of them, in their order. */
  lemma {:induction false} LiveOnlyIsStable(s: seq<AlertEntry>, c: uint64) returns (kept: seq<nat>)
    ensures LivePositions(s, c, kept) && Selects(s, kept, LiveOnly(s, c))
  {
    if s == [] {
      kept := [];
    } else {
      var before, e := s[..|s| - 1], s[|s| - 1];
      var k := LiveOnlyIsStable(before, c);
      assert s == before + [e];
      LivePositionsSnoc(before, e, c, k);
      SelectsSnoc(before, e, k, LiveOnly(before, c));
      kept := if Live(e, c) then k + [|before|] else k;
    }
  }

  lemma {:induction false} LiveOnlyCommutes(s: seq<AlertEntry>, c: uint64, d: uint64)
    ensures LiveOnly(LiveOnly(s, c), d) == LiveOnly(LiveOnly(s, d), c)
  {
    if s != [] {
      var n := |s| - 1;
      LiveOnlyCommutes(s[..n], c, d);
      LiveOnlySnoc(LiveOnly(s[..n], c), s[n], d);
      LiveOnlySnoc(LiveOnly(s[..n], d), s[n], c);
      LiveOnlyUnfold(s, c);
      LiveOnlyUnfold(s, d);
    }
  }

  lemma {:induction false} LiveOnlyAbsorbs(s: seq<AlertEntry>, c: uint64, d: uint64)
    requires c <= d
    ensures LiveOnly(LiveOnly(s, c), d) == LiveOnly(s, d)
  {
    if s != [] {
      var n := |s| - 1;
      LiveOnlyAbsorbs(s[..n], c, d);
      LiveOnlySnoc(LiveOnly(s[..n], c), s[n], d);
      LiveOnlyUnfold(s, c);
      LiveOnlyUnfold(s, d);
    }
  }

  /** An entry `clear_expired(c)` drops can shadow no alert at or after `c`. */
  lemma ClearedEntriesShadowNothing(s: seq<AlertEntry>, c: uint64, zoneId: uint32, alertType: uint8, t: uint64)
    requires c <= t
    ensures WouldDedup(LiveOnly(s, c), zoneId, alertType, t) <==> WouldDedup(s, zoneId, alertType, t)
  {
    LiveOnlyMembers(s, c);
    if e :| e in s && Shadows(e, zoneId, alertType, t) {
      assert e in LiveOnly(s, c);
    }
  }

  // ---------- the unbounded-arithmetic model ----------

  predicate GhostShadows(e: AlertEntry, zoneId: uint32, alertType: uint8, t: uint64) {
    SameKey(e, zoneId, alertType) && t < e.time + DEDUP_COOLDOWN_SEC
  }

  predicate GhostWouldDedup(recent: seq<AlertEntry>, zoneId: uint32, alertType: uint8, t: uint64) {
    exists e | e in recent :: GhostShadows(e, zoneId, alertType, t)
  }

  function GhostAfterReset(s: State, t: uint64): State {
    if t >= s.minuteStart + MINUTE_SEC then s.(minuteCount := 0, minuteStart := t) else s
  }

  function GhostProcess(s: State, zoneId: uint32, alertType: uint8, t: uint64): (State, Action) {
    var s1 := GhostAfterReset(s, t);
    if GhostWouldDedup(s1.recent, zoneId, alertType, t) then (s1, Deduplicated)
    else if s1.minuteCount >= MAX_ALERTS_PER_MINUTE then (s1, RateLimited)
    else
      (State(Recorded(s1.recent, AlertEntry(zoneId, alertType, t)), s1.minuteCount + 1, s1.minuteStart), Send)
  }

  /** The states in which the engine and the model part at the last `u64` instant. */
  predicate SaturationVisible(s: State, zoneId: uint32, alertType: uint8) {
    || (s.minuteStart + MINUTE_SEC > U64_MAX && !(s.minuteCount == 0 && s.minuteStart == U64_MAX))
    || GhostWouldDedup(s.recent, zoneId, alertType, U64_MAX)
  }

  /**
   For a subscribed key the engine takes exactly the model's step, full buffer or not, at every time below
   `u64::MAX`; at `u64::MAX` itself exactly when no saturated sum is consulted.
   */
  lemma EngineMatchesGhostIff(s: State, subs: set<uint32>, zoneId: uint32, alertType: uint8, t: uint64)
    requires SubscriptionMsgId(zoneId, alertType) in subs
    ensures Process(s, subs, zoneId, alertType, t) == GhostProcess(s, zoneId, alertType, t)
       <==> t < U64_MAX || !SaturationVisible(s, zoneId, alertType)
  {
    if t < U64_MAX {
      ShadowsExactBelowMax(s.recent, zoneId, alertType, t);
    } else {
      assert !WouldDedup(s.recent, zoneId, alertType, t);
    }
  }

  lemma ShadowsExactBelowMax(recent: seq<AlertEntry>, zoneId: uint32, alertType: uint8, t: uint64)
    requires t < U64_MAX
    ensures WouldDedup(recent, zoneId, alertType, t) <==> GhostWouldDedup(recent, zoneId, alertType, t)
  {
    if e :| e in recent && Shadows(e, zoneId, alertType, t) {
      assert GhostShadows(e, zoneId, alertType, t);
    }
    if e :| e in recent && GhostShadows(e, zoneId, alertType, t) {
      assert Shadows(e, zoneId, alertType, t);
    }
  }

  /**
   The dedup promise for two calls with the same key: after a Send at `t1`, an alert at `t2` inside the cooldown is
   deduplicated exactly when the buffer had a free slot at the Send.
   */
  lemma DedupAfterSendIff(s: State, subs: set<uint32>, zoneId: uint32, alertType: uint8, t1: uint64, t2: uint64)
    requires Process(s, subs, zoneId, alertType, t1).1 == Send
    requires t1 <= t2 < t1 + 300 && t2 < U64_MAX
    ensures Process(Process(s, subs, zoneId, alertType, t1).0, subs, zoneId, alertType, t2).1 == Deduplicated
       <==> |s.recent| < 64
  {
    var e := AlertEntry(zoneId, alertType, t1);
    var s2 := AfterReset(Process(s, subs, zoneId, alertType, t1).0, t2);
    if |s.recent| < MAX_RECENT_ALERTS {
      assert s2.recent[|s.recent|] == e;
      assert Shadows(e, zoneId, alertType, t2);
    } else {
      assert s2.recent == s.recent;
      assert forall f | f in s.recent :: !Shadows(f, zoneId, alertType, t1);
    }
  }
}
