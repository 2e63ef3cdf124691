/** Whole runs of the dispatcher: how many alerts can be sent, and what the bounded buffer is worth. */
module AlertRuns {
  import opened MachineInts
  import opened AlertModel

  /** What a caller can do between two instants; `Subscriptions` stands for any subscribe or unsubscribe calls. */
  datatype Event =
    | Alert(zoneId: uint32, alertType: uint8, time: uint64)
    | Clear(time: uint64)
    | Subscriptions(ids: set<uint32>)

  /** `actions` has one entry per alert; `sends` lists the alerts that were sent. */
  datatype Trace = Trace(state: State, subs: set<uint32>, actions: seq<Action>, sends: seq<AlertEntry>)

  function Step(tr: Trace, e: Event): Trace {
    match e
    case Alert(zoneId, alertType, t) =>
      var (state, action) := Process(tr.state, tr.subs, zoneId, alertType, t);
      Trace(state, tr.subs, tr.actions + [action],
            if action == Send then tr.sends + [AlertEntry(zoneId, alertType, t)] else tr.sends)
    case Clear(c) => tr.(state := tr.state.(recent := LiveOnly(tr.state.recent, c)))
    case Subscriptions(ids) => tr.(subs := ids)
  }

  /** A run from `AlertDispatcher::new()`. */
  function Run(evs: seq<Event>): Trace {
    if evs == [] then Trace(INITIAL, {}, [], []) else Step(Run(evs[..|evs| - 1]), evs[|evs| - 1])
  }

  lemma RunSnoc(evs: seq<Event>, e: Event)
    ensures Run(evs + [e]) == Step(Run(evs), e)
  {
    assert (evs + [e])[..|evs|] == evs;
  }

  /** The time of the latest alert. */
  function Clock(evs: seq<Event>): uint64 {
    if evs == [] then 0
    else if evs[|evs| - 1].Alert? then evs[|evs| - 1].time
    else Clock(evs[..|evs| - 1])
  }

  predicate BelowMax(evs: seq<Event>) {
    forall i | 0 <= i < |evs| && evs[i].Alert? :: evs[i].time < U64_MAX
  }

  /** Alert times never go back. Clear times are free. */
  predicate Ordered(evs: seq<Event>) {
    evs != [] ==>
      var before, e := evs[..|evs| - 1], evs[|evs| - 1];
      Ordered(before) && (e.Alert? ==> Clock(before) <= e.time)
  }

  // ---------- what holds in any time order ----------

  predicate Spaced(s: seq<AlertEntry>) {
    forall i, j | 0 <= i < j < |s| && SameKey(s[i], s[j].zoneId, s[j].alertType) ::
      s[j].time >= s[i].time + 300
  }

  lemma {:induction false} LiveOnlyStaysSpaced(s: seq<AlertEntry>, c: uint64)
    requires Spaced(s)
    ensures Spaced(LiveOnly(s, c))
  {
    var kept := LiveOnlyIsStable(s, c);
  }

  lemma WindowLedger(evs: seq<Event>)
    requires BelowMax(evs)
    ensures var tr := Run(evs); |tr.sends| <= 10 * (tr.state.minuteStart / 60) + tr.state.minuteCount
    ensures Run(evs).state.minuteCount <= MAX_ALERTS_PER_MINUTE
  {
  }

  /** However the times jump about, ten sends at most for every minute the window has moved, and it never moves back. */
  lemma {:induction false} SendBudget(evs: seq<Event>, n: nat)
    requires BelowMax(evs) && n <= |evs|
    ensures |Run(evs).sends| <= 10 * (1 + Run(evs).state.minuteStart / 60)
    ensures Run(evs[..n]).state.minuteStart <= Run(evs).state.minuteStart
  {
    WindowLedger(evs);
    if n < |evs| {
      var before := evs[..|evs| - 1];
      SendBudget(before, n);
      assert before[..n] == evs[..n];
    } else {
      assert evs[..n] == evs;
    }
  }

  /** Two buffered entries of one key are always a full cooldown apart, whatever was cleared and whenever. */
  lemma {:induction false} BufferStaysSpaced(evs: seq<Event>)
    requires BelowMax(evs)
    ensures Spaced(Run(evs).state.recent) && |Run(evs).state.recent| <= 64
  {
    if evs != [] {
      var before, e := evs[..|evs| - 1], evs[|evs| - 1];
      BufferStaysSpaced(before);
      var s := Run(before).state;
      match e
      case Alert(zoneId, alertType, t) =>
        assert forall i | 0 <= i < |s.recent| :: s.recent[i] in s.recent;
      case Clear(c) => LiveOnlyStaysSpaced(s.recent, c);
      case Subscriptions(_) =>
    }
  }

  // ---------- what holds when time does not go back ----------

  function CountIn(sends: seq<AlertEntry>, lo: int, hi: int): (n: nat)
    ensures n <= |sends|
  {
    if sends == [] then 0
    else CountIn(sends[..|sends| - 1], lo, hi) + if lo <= sends[|sends| - 1].time <= hi then 1 else 0
  }

  predicate Sorted(sends: seq<AlertEntry>) {
    forall i, j | 0 <= i < j < |sends| :: sends[i].time <= sends[j].time
  }

  /** In a sorted list the entries of a span stand next to each other. */
  lemma {:induction false} SpanIsContiguous(sends: seq<AlertEntry>, lo: int, hi: int) returns (i: nat)
    requires Sorted(sends)
    ensures var n := CountIn(sends, lo, hi);
            n > 0 ==> i + n <= |sends| && lo <= sends[i].time && sends[i + n - 1].time <= hi
  {
    i := 0;
    if sends != [] {
      var last := |sends| - 1;
      i := SpanIsContiguous(sends[..last], lo, hi);
      if CountIn(sends[..last], lo, hi) == 0 {
        i := last;
      }
    }
  }

  /** `w[i]` is the start of the minute window in which send `i` was granted. */
  ghost predicate Windows(sends: seq<AlertEntry>, w: seq<int>) {
    && |w| == |sends|
    && (forall i | 0 <= i < |w| :: w[i] <= sends[i].time < w[i] + 60)
    && (forall i, j | 0 <= i && j == i + 10 < |w| :: w[j] >= w[i] + 60)
  }

  /** The current window holds the last `minuteCount` sends, and every other send is in a window already over. */
  ghost predicate CurrentWindow(state: State, w: seq<int>) {
    && state.minuteCount <= |w|
    && state.minuteCount <= MAX_ALERTS_PER_MINUTE
    && (forall i | 0 <= i < |w| - state.minuteCount :: w[i] + MINUTE_SEC <= state.minuteStart)
    && (forall i | |w| - state.minuteCount <= i < |w| :: w[i] == state.minuteStart)
  }

  ghost predicate Windowed(tr: Trace, w: seq<int>, clock: uint64) {
    Windows(tr.sends, w) && CurrentWindow(tr.state, w) && tr.state.minuteStart <= clock
  }

  lemma {:induction false} SendsAreSorted(evs: seq<Event>)
    requires Ordered(evs)
    ensures var sends := Run(evs).sends;
            Sorted(sends) && forall i | 0 <= i < |sends| :: sends[i].time <= Clock(evs)
  {
    if evs != [] {
      SendsAreSorted(evs[..|evs| - 1]);
    }
  }

  lemma ResetStaysCurrent(s: State, w: seq<int>, t: uint64)
    requires CurrentWindow(s, w) && s.minuteStart <= t < U64_MAX
    ensures var s' := AfterReset(s, t); CurrentWindow(s', w) && s'.minuteStart <= t < s'.minuteStart + MINUTE_SEC
  {
  }

  /** A send granted in the current window, below its limit, keeps the account of windows. */
  lemma SendStaysWindowed(sends: seq<AlertEntry>, w: seq<int>, s: State, e: AlertEntry)
    requires Windows(sends, w) && CurrentWindow(s, w) && s.minuteCount < MAX_ALERTS_PER_MINUTE
    requires s.minuteStart <= e.time < s.minuteStart + MINUTE_SEC
    ensures Windows(sends + [e], w + [s.minuteStart])
    ensures CurrentWindow(s.(minuteCount := s.minuteCount + 1), w + [s.minuteStart])
  {
  }

  lemma AlertStaysWindowed(tr: Trace, w: seq<int>, clock: uint64, e: Event)
    requires Windowed(tr, w, clock) && e.Alert? && clock <= e.time < U64_MAX
    ensures var tr' := Step(tr, e);
            Windowed(tr', if tr'.actions[|tr.actions|] == Send then w + [tr'.state.minuteStart] else w, e.time)
  {
    var s := AfterReset(tr.state, e.time);
    ResetStaysCurrent(tr.state, w, e.time);
    if Step(tr, e).actions[|tr.actions|] == Send {
      SendStaysWindowed(tr.sends, w, s, AlertEntry(e.zoneId, e.alertType, e.time));
    }
  }

  lemma {:induction false} RunWindows(evs: seq<Event>) returns (w: seq<int>)
    requires Ordered(evs) && BelowMax(evs)
    ensures Windowed(Run(evs), w, Clock(evs))
  {
    w := [];
    if evs != [] {
      var before, e := evs[..|evs| - 1], evs[|evs| - 1];
      w := RunWindows(before);
      if e.Alert? {
        AlertStaysWindowed(Run(before), w, Clock(before), e);
        w := if Run(evs).actions[|Run(before).actions|] == Send then w + [Run(evs).state.minuteStart] else w;
      }
    }
  }

  lemma {:induction false} WindowsClimb(sends: seq<AlertEntry>, w: seq<int>, i: nat, k: nat)
    requires Windows(sends, w) && i + MAX_ALERTS_PER_MINUTE * k < |w|
    ensures w[i + MAX_ALERTS_PER_MINUTE * k] >= w[i] + MINUTE_SEC * k
  {
    if k > 0 {
      WindowsClimb(sends, w, i, k - 1);
    }
  }

  /** The pigeonhole: what any closed span of `len` seconds can see sent, in any run with clears anywhere. */
  lemma {:induction false} SpanBound(evs: seq<Event>, a: int, len: nat)
    requires Ordered(evs) && BelowMax(evs)
    ensures CountIn(Run(evs).sends, a, a + len) <= 10 * ((len + 59) / 60 + 1)
  {
    var sends, m := Run(evs).sends, (len + 59) / 60 + 1;
    var w := RunWindows(evs);
    SendsAreSorted(evs);
    if CountIn(sends, a, a + len) > MAX_ALERTS_PER_MINUTE * m {
      var i := SpanIsContiguous(sends, a, a + len);
      WindowsClimb(sends, w, i, m);
    }
  }

  // ---------- clearing cannot be observed ----------

  /** No prefix of the run past the first `k` events fills the buffer. */
  predicate NeverFull(evs: seq<Event>, k: nat) {
    forall n | k <= n <= |evs| :: |Run(evs[..n]).state.recent| < 64
  }

  predicate NotBefore(evs: seq<Event>, c: uint64) {
    forall i | 0 <= i < |evs| && evs[i].Alert? :: c <= evs[i].time
  }

  function Cleared(tr: Trace, c: uint64): Trace {
    tr.(state := tr.state.(recent := LiveOnly(tr.state.recent, c)))
  }

  lemma ClearStaysHidden(tr: Trace, c: uint64, e: Event)
    requires |tr.state.recent| < MAX_RECENT_ALERTS && (e.Alert? ==> c <= e.time)
    ensures Step(Cleared(tr, c), e) == Cleared(Step(tr, e), c)
  {
    match e
    case Alert(zoneId, alertType, t) =>
      ClearedEntriesShadowNothing(tr.state.recent, c, zoneId, alertType, t);
      LiveOnlySnoc(tr.state.recent, AlertEntry(zoneId, alertType, t), c);
    case Clear(d) => LiveOnlyCommutes(tr.state.recent, c, d);
    case Subscriptions(_) =>
  }

  /**
   A `clear_expired(c)` put anywhere into a run leaves every action and every send as it was, as long as the alerts
   after it are not earlier than `c` and the run without it does not fill its buffer from there on.
   */
  lemma {:induction false} ClearIsUnobservable(evs: seq<Event>, c: uint64, rest: seq<Event>)
    requires NotBefore(rest, c) && NeverFull(evs + rest, |evs|)
    ensures Run(evs + [Clear(c)] + rest) == Cleared(Run(evs + rest), c)
  {
    if rest == [] {
      RunSnoc(evs, Clear(c));
      assert evs + [] == evs && evs + [Clear(c)] + [] == evs + [Clear(c)];
    } else {
      var before, e := rest[..|rest| - 1], rest[|rest| - 1];
      assert evs + rest == evs + before + [e];
      assert evs + [Clear(c)] + rest == evs + [Clear(c)] + before + [e];
      assert forall n | |evs| <= n <= |evs + before| :: (evs + before)[..n] == (evs + rest)[..n];
      assert (evs + before)[..|evs + before|] == evs + before;
      ClearIsUnobservable(evs, c, before);
      ClearStaysHidden(Run(evs + before), c, e);
      RunSnoc(evs + before, e);
      RunSnoc(evs + [Clear(c)] + before, e);
    }
  }
}
