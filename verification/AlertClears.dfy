/** Exactly when a clear can be observed. */
module AlertClears {
  import opened MachineInts
  import opened AlertModel
  import opened AlertRuns
  import opened AlertRefinement

  // ---------- one clear, one alert ----------

  /** The clear drops an entry that would still deduplicate its key at `t`. */
  predicate Missed(e: AlertEntry, c: uint64, t: uint64) {
    t < SatAdd64(e.time, 300) < c
  }

  /** An entry of the same key survives the clear and deduplicates at `t`. */
  predicate Covers(f: AlertEntry, e: AlertEntry, c: uint64, t: uint64) {
    SameKey(f, e.zoneId, e.alertType) && c <= SatAdd64(f.time, 300) && t < SatAdd64(f.time, 300)
  }

  /** A clear at `c` leaves every key's dedup answer at `t` alone if and only if every missed entry has a cover. */
  lemma ClearIsHarmlessIff(s: seq<AlertEntry>, c: uint64, t: uint64)
    ensures (forall zoneId: uint32, alertType: uint8 ::
               WouldDedup(LiveOnly(s, c), zoneId, alertType, t) <==> WouldDedup(s, zoneId, alertType, t))
       <==> forall e | e in s && Missed(e, c, t) :: exists f | f in s :: Covers(f, e, c, t)
  {
    LiveOnlyMembers(s, c);
    if forall zoneId: uint32, alertType: uint8 ::
         WouldDedup(LiveOnly(s, c), zoneId, alertType, t) <==> WouldDedup(s, zoneId, alertType, t) {
      forall e | e in s && Missed(e, c, t) ensures exists f | f in s :: Covers(f, e, c, t) {
        assert Shadows(e, e.zoneId, e.alertType, t) && WouldDedup(s, e.zoneId, e.alertType, t);
        assert WouldDedup(LiveOnly(s, c), e.zoneId, e.alertType, t);
        var f :| f in LiveOnly(s, c) && Shadows(f, e.zoneId, e.alertType, t);
        assert Covers(f, e, c, t);
      }
    }
    if forall e | e in s && Missed(e, c, t) :: exists f | f in s :: Covers(f, e, c, t) {
      forall zoneId: uint32, alertType: uint8
        ensures WouldDedup(LiveOnly(s, c), zoneId, alertType, t) <==> WouldDedup(s, zoneId, alertType, t)
      {
        CoveredKeyKeepsDedup(s, c, zoneId, alertType, t);
      }
    }
  }

  lemma CoveredKeyKeepsDedup(s: seq<AlertEntry>, c: uint64, zoneId: uint32, alertType: uint8, t: uint64)
    requires forall e | e in s && Missed(e, c, t) :: exists f | f in s :: Covers(f, e, c, t)
    ensures WouldDedup(LiveOnly(s, c), zoneId, alertType, t) <==> WouldDedup(s, zoneId, alertType, t)
  {
    LiveOnlyMembers(s, c);
    if e :| e in s && Shadows(e, zoneId, alertType, t) {
      if Live(e, c) {
        assert e in LiveOnly(s, c);
      } else {
        assert Missed(e, c, t);
        var f :| f in s && Covers(f, e, c, t);
        assert f in LiveOnly(s, c) && Shadows(f, zoneId, alertType, t);
      }
    }
  }

  // ---------- a clear put anywhere into a run ----------

  /** What the run `evs + rest` still holds, after `rest`, of the entries it held after `evs`. */
  function Older(evs: seq<Event>, rest: seq<Event>): seq<AlertEntry> {
    if rest == [] then Run(evs).state.recent
    else
      var before, e := rest[..|rest| - 1], rest[|rest| - 1];
      if e.Clear? then LiveOnly(Older(evs, before), e.time) else Older(evs, before)
  }

  /** What it holds of the entries recorded since. */
  function Newer(evs: seq<Event>, rest: seq<Event>): seq<AlertEntry> {
    if rest == [] then []
    else
      var before, e := rest[..|rest| - 1], rest[|rest| - 1];
      match e
      case Clear(d) => LiveOnly(Newer(evs, before), d)
      case Alert(zoneId, alertType, t) =>
        if IsSent(Run(evs + before), e) then Newer(evs, before) + [AlertEntry(zoneId, alertType, t)]
        else Newer(evs, before)
      case Subscriptions(_) => Newer(evs, before)
  }

  /** If an entry that the clear dropped would deduplicate the alert, so does one it kept or one recorded since. */
  predicate Replaced(older: seq<AlertEntry>, newer: seq<AlertEntry>, c: uint64, e: Event)
    requires e.Alert?
  {
    (exists x | x in older :: !Live(x, c) && Shadows(x, e.zoneId, e.alertType, e.time)) ==>
      WouldDedup(LiveOnly(older, c) + newer, e.zoneId, e.alertType, e.time)
  }

  /** Every subscribed alert of `rest` has a replacement for what a clear at `c` before it drops. */
  predicate AllReplaced(evs: seq<Event>, c: uint64, rest: seq<Event>) {
    rest != [] ==>
      var before, e := rest[..|rest| - 1], rest[|rest| - 1];
      && AllReplaced(evs, c, before)
      && (e.Alert? && SubscriptionMsgId(e.zoneId, e.alertType) in Run(evs + before).subs ==>
            Replaced(Older(evs, before), Newer(evs, before), c, e))
  }

  /** The run with the clear and the run without it differ in what the clear dropped, and in nothing else. */
  ghost predicate Parallel(with: Trace, without: Trace, older: seq<AlertEntry>, newer: seq<AlertEntry>, c: uint64) {
    && without.state.recent == older + newer
    && with == without.(state := without.state.(recent := LiveOnly(older, c) + newer))
  }

  lemma {:induction false} LiveOnlyConcat(p: seq<AlertEntry>, q: seq<AlertEntry>, d: uint64)
    ensures LiveOnly(p + q, d) == LiveOnly(p, d) + LiveOnly(q, d)
  {
    if q == [] {
      assert p + q == p;
    } else {
      var n := |q| - 1;
      LiveOnlyConcat(p, q[..n], d);
      assert p + q == p + q[..n] + [q[n]];
      LiveOnlySnoc(p + q[..n], q[n], d);
    }
  }

  lemma ReplacedIff(older: seq<AlertEntry>, newer: seq<AlertEntry>, c: uint64, e: Event)
    requires e.Alert?
    ensures Replaced(older, newer, c, e) <==>
            (WouldDedup(LiveOnly(older, c) + newer, e.zoneId, e.alertType, e.time) <==>
             WouldDedup(older + newer, e.zoneId, e.alertType, e.time))
  {
    LiveOnlyMembers(older, c);
    var kept, all := LiveOnly(older, c) + newer, older + newer;
    assert forall x | x in kept :: x in all;
    assert forall x | x in all :: x in kept || (x in older && !Live(x, c));
  }

  lemma AlertStaysParallel(
    with: Trace, without: Trace, older: seq<AlertEntry>, newer: seq<AlertEntry>, c: uint64, e: Event)
    requires Parallel(with, without, older, newer, c) && e.Alert? && |without.state.recent| < MAX_RECENT_ALERTS
    requires SubscriptionMsgId(e.zoneId, e.alertType) in without.subs ==> Replaced(older, newer, c, e)
    ensures Parallel(Step(with, e), Step(without, e), older,
                     if IsSent(without, e) then newer + [AlertEntry(e.zoneId, e.alertType, e.time)] else newer, c)
  {
    ReplacedIff(older, newer, c, e);
    var entry := AlertEntry(e.zoneId, e.alertType, e.time);
    assert LiveOnly(older, c) + newer + [entry] == LiveOnly(older, c) + (newer + [entry]);
    assert older + newer + [entry] == older + (newer + [entry]);
  }

  lemma ClearStaysParallel(
    with: Trace, without: Trace, older: seq<AlertEntry>, newer: seq<AlertEntry>, c: uint64, d: uint64)
    requires Parallel(with, without, older, newer, c)
    ensures Parallel(Step(with, Clear(d)), Step(without, Clear(d)), LiveOnly(older, d), LiveOnly(newer, d), c)
  {
    LiveOnlyConcat(older, newer, d);
    LiveOnlyConcat(LiveOnly(older, c), newer, d);
    LiveOnlyCommutes(older, c, d);
  }

  /** An alert without its replacement is answered differently, at once. */
  lemma UnreplacedAlertShows(
    with: Trace, without: Trace, older: seq<AlertEntry>, newer: seq<AlertEntry>, c: uint64, e: Event)
    requires Parallel(with, without, older, newer, c) && e.Alert?
    requires SubscriptionMsgId(e.zoneId, e.alertType) in without.subs && !Replaced(older, newer, c, e)
    ensures Step(with, e).actions != Step(without, e).actions
  {
    ReplacedIff(older, newer, c, e);
    var n := |without.actions|;
    assert Step(without, e).actions[n] == Deduplicated;
    assert Step(with, e).actions[n] != Deduplicated;
  }

  lemma ActionsOnlyGrow(with: Trace, without: Trace, e: Event)
    requires |with.actions| == |without.actions|
    ensures |Step(with, e).actions| == |Step(without, e).actions|
    ensures with.actions != without.actions ==> Step(with, e).actions != Step(without, e).actions
  {
    var n := |with.actions|;
    assert Step(with, e).actions[..n] == with.actions && Step(without, e).actions[..n] == without.actions;
  }

  /** The run with the clear answers as the run without it if and only if what it dropped was replaced throughout. */
  ghost predicate ObservedIff(evs: seq<Event>, c: uint64, rest: seq<Event>) {
    var with, without := Run(evs + [Clear(c)] + rest), Run(evs + rest);
    && |with.actions| == |without.actions|
    && (with.actions == without.actions <==> AllReplaced(evs, c, rest))
    && (AllReplaced(evs, c, rest) ==> Parallel(with, without, Older(evs, rest), Newer(evs, rest), c))
  }

  lemma ObservedBySnoc(evs: seq<Event>, c: uint64, before: seq<Event>, e: Event)
    requires ObservedIff(evs, c, before) && |Run(evs + before).state.recent| < 64
    ensures ObservedIff(evs, c, before + [e])
  {
    RunAppend(evs, before, e);
    RunAppend(evs + [Clear(c)], before, e);
    ClearObservedByNext(Run(evs + [Clear(c)] + before), Run(evs + before), evs, c, before, e);
    AllReplacedSnoc(evs, c, before, e);
  }

  lemma RunAppend(evs: seq<Event>, before: seq<Event>, e: Event)
    ensures Run(evs + (before + [e])) == Step(Run(evs + before), e)
  {
    assert evs + (before + [e]) == evs + before + [e];
    RunSnoc(evs + before, e);
  }

  lemma AllReplacedSnoc(evs: seq<Event>, c: uint64, before: seq<Event>, e: Event)
    ensures AllReplaced(evs, c, before + [e]) <==>
            AllReplaced(evs, c, before) && Accounted(Run(evs + before), evs, c, before, e)
  {
    assert (before + [e])[..|before|] == before;
  }

  lemma NeverFullBefore(evs: seq<Event>, before: seq<Event>, e: Event)
    requires NeverFull(evs + (before + [e]), |evs|)
    ensures NeverFull(evs + before, |evs|) && |Run(evs + before).state.recent| < 64
  {
    var all := evs + (before + [e]);
    assert forall n | |evs| <= n <= |evs + before| :: (evs + before)[..n] == all[..n];
    assert (evs + before)[..|evs + before|] == evs + before;
  }

  /**
   A `clear_expired(c)` put anywhere into a run that does not fill its buffer from there on changes no action of the
   whole run if and only if each later alert has a replacement for what the clear dropped of its key. Times may come in
   any order, and `c` may be any.
   */
  lemma {:induction false} ClearIsUnobservableIff(evs: seq<Event>, c: uint64, rest: seq<Event>)
    requires NeverFull(evs + rest, |evs|)
    ensures Run(evs + [Clear(c)] + rest).actions == Run(evs + rest).actions <==> AllReplaced(evs, c, rest)
    ensures ObservedIff(evs, c, rest)
  {
    if rest == [] {
      RunSnoc(evs, Clear(c));
      assert evs + [] == evs && evs + [Clear(c)] + [] == evs + [Clear(c)];
    } else {
      var before, e := rest[..|rest| - 1], rest[|rest| - 1];
      assert rest == before + [e];
      NeverFullBefore(evs, before, e);
      ClearIsUnobservableIff(evs, c, before);
      ObservedBySnoc(evs, c, before, e);
    }
  }

  /** The next event asks for no replacement, or has it. */
  predicate Accounted(without: Trace, evs: seq<Event>, c: uint64, before: seq<Event>, e: Event) {
    e.Alert? && SubscriptionMsgId(e.zoneId, e.alertType) in without.subs ==>
      Replaced(Older(evs, before), Newer(evs, before), c, e)
  }

  lemma ClearObservedByNext(
    with: Trace, without: Trace, evs: seq<Event>, c: uint64, before: seq<Event>, e: Event)
    requires without == Run(evs + before) && |without.state.recent| < MAX_RECENT_ALERTS
    requires |with.actions| == |without.actions|
    requires with.actions == without.actions <==> AllReplaced(evs, c, before)
    requires AllReplaced(evs, c, before) ==> Parallel(with, without, Older(evs, before), Newer(evs, before), c)
    ensures |Step(with, e).actions| == |Step(without, e).actions|
    ensures Step(with, e).actions == Step(without, e).actions <==>
            AllReplaced(evs, c, before) && Accounted(without, evs, c, before, e)
    ensures AllReplaced(evs, c, before) && Accounted(without, evs, c, before, e) ==>
              Parallel(Step(with, e), Step(without, e), Older(evs, before + [e]), Newer(evs, before + [e]), c)
  {
    var older, newer := Older(evs, before), Newer(evs, before);
    assert (before + [e])[..|before|] == before;
    ActionsOnlyGrow(with, without, e);
    if AllReplaced(evs, c, before) {
      match e
      case Clear(d) => ClearStaysParallel(with, without, older, newer, c, d);
      case Subscriptions(_) =>
      case Alert(_, _, _) =>
        if Accounted(without, evs, c, before, e) {
          AlertStaysParallel(with, without, older, newer, c, e);
        } else {
          UnreplacedAlertShows(with, without, older, newer, c, e);
        }
    }
  }

  /** Alerts no earlier than the clear never need a replacement. */
  lemma {:induction false} LaterAlertsNeedNone(evs: seq<Event>, c: uint64, rest: seq<Event>)
    requires NotBefore(rest, c)
    ensures AllReplaced(evs, c, rest)
  {
    if rest != [] {
      LaterAlertsNeedNone(evs, c, rest[..|rest| - 1]);
    }
  }
}
