/** The limit checker on values: one reading against a list of watchpoints, with persistence and a bounded report. */
module WatchpointModel {
  import opened MachineInts

  const MAX_WATCHPOINTS: nat := 128
  const MAX_VIOLATIONS_PER_CYCLE: nat := 32

  datatype ComparisonOp = LessThan | GreaterThan | LessOrEqual | GreaterOrEqual | Equal | NotEqual

  datatype Watchpoint = Watchpoint(
    sensorId: uint32, op: ComparisonOp, threshold: int64, enabled: bool, persistence: uint32, currentCount: uint32)

  datatype Violation = Violation(watchpointId: nat, measured: int64, threshold: int64, op: ComparisonOp)

  datatype Reading = Reading(sensorId: uint32, value: int64)

  predicate Compare(value: int64, op: ComparisonOp, threshold: int64) {
    match op
    case LessThan => value < threshold
    case GreaterThan => value > threshold
    case LessOrEqual => value <= threshold
    case GreaterOrEqual => value >= threshold
    case Equal => value == threshold
    case NotEqual => value != threshold
  }

  predicate Hit(w: Watchpoint, r: Reading) {
    w.enabled && w.sensorId == r.sensorId
  }

  /** The entry after a reading it gets to see. */
  function Bump(w: Watchpoint, r: Reading): Watchpoint {
    if !Hit(w, r) then w
    else w.(currentCount := if Compare(r.value, w.op, w.threshold) then SatAdd32(w.currentCount, 1) else 0)
  }

  predicate Reports(w: Watchpoint, r: Reading) {
    Hit(w, r) && Compare(r.value, w.op, w.threshold) && Bump(w, r).currentCount >= w.persistence
  }

  function Bumped(s: seq<Watchpoint>, r: Reading): seq<Watchpoint> {
    seq(|s|, i requires 0 <= i < |s| => Bump(s[i], r))
  }

  /** All reports of `s`, in table order. */
  function Reported(s: seq<Watchpoint>, r: Reading): seq<Violation> {
    if s == [] then []
    else
      var n := |s| - 1;
      var before := Reported(s[..n], r);
      if Reports(s[n], r) then before + [Violation(n, r.value, s[n].threshold, s[n].op)] else before
  }

  /** Where the scan from `i` stops: at the end, or once the report is full. */
  function Cut(s: seq<Watchpoint>, r: Reading, i: nat): (k: nat)
    requires i <= |s|
    ensures i <= k <= |s|
    decreases |s| - i
  {
    if i == |s| || |Reported(s[..i], r)| >= MAX_VIOLATIONS_PER_CYCLE then i else Cut(s, r, i + 1)
  }

  function Evaluate(s: seq<Watchpoint>, r: Reading): (seq<Watchpoint>, seq<Violation>) {
    var k := Cut(s, r, 0);
    (Bumped(s[..k], r) + s[k..], Reported(s[..k], r))
  }

  function Added(s: seq<Watchpoint>, w: Watchpoint): seq<Watchpoint> {
    if |s| < MAX_WATCHPOINTS then s + [w] else s
  }

  /** One turn of the scan: the prefix grows by an entry, its count and its report with it. */
  lemma ScanStep(was: seq<Watchpoint>, r: Reading, i: nat)
    requires i < |was| && |Reported(was[..i], r)| < MAX_VIOLATIONS_PER_CYCLE
    ensures Cut(was, r, i) == Cut(was, r, i + 1)
    ensures Reported(was[..i + 1], r) ==
            if Reports(was[i], r) then Reported(was[..i], r) + [Violation(i, r.value, was[i].threshold, was[i].op)]
            else Reported(was[..i], r)
  {
    ReportedSnoc(was, r, i);
  }

  lemma ReportedSnoc(s: seq<Watchpoint>, r: Reading, i: nat)
    requires i < |s|
    ensures Reported(s[..i + 1], r) ==
            if Reports(s[i], r) then Reported(s[..i], r) + [Violation(i, r.value, s[i].threshold, s[i].op)]
            else Reported(s[..i], r)
  {
    assert s[..i + 1][..i] == s[..i];
  }

  /** Entry `i` is in the report exactly when it reports, with the reading and its own limit. */
  lemma {:induction false} ReportedMembers(s: seq<Watchpoint>, r: Reading, v: Violation)
    ensures v in Reported(s, r) <==>
            v.watchpointId < |s| && Reports(s[v.watchpointId], r) &&
            v == Violation(v.watchpointId, r.value, s[v.watchpointId].threshold, s[v.watchpointId].op)
  {
    if s != [] {
      ReportedMembers(s[..|s| - 1], r, v);
    }
  }

  // ---------- the break at 32 violations ----------

  /** How many enabled watchpoints sit on a sensor. */
  function Matching(s: seq<Watchpoint>, sensorId: uint32): nat {
    if s == [] then 0
    else
      var w := s[|s| - 1];
      Matching(s[..|s| - 1], sensorId) + if w.enabled && w.sensorId == sensorId then 1 else 0
  }

  lemma {:induction false} ReportsAreMatches(s: seq<Watchpoint>, r: Reading)
    ensures |Reported(s, r)| <= Matching(s, r.sensorId)
  {
    if s != [] {
      ReportsAreMatches(s[..|s| - 1], r);
    }
  }

  lemma {:induction false} NothingAfterAFullReport(s: seq<Watchpoint>, r: Reading, k: nat)
    requires k <= |s| && |Reported(s[..k], r)| >= MAX_VIOLATIONS_PER_CYCLE
    requires Matching(s, r.sensorId) <= MAX_VIOLATIONS_PER_CYCLE
    ensures Reported(s, r) == Reported(s[..k], r)
    ensures forall j | k <= j < |s| :: !Hit(s[j], r)
  {
    var n := |s| - 1;
    if k == |s| {
      assert s[..k] == s;
    } else {
      assert s[..n][..k] == s[..k];
      NothingAfterAFullReport(s[..n], r, k);
      ReportsAreMatches(s[..n], r);
      assert !Hit(s[n], r);
    }
  }

  lemma CutIsFullOrEnd(s: seq<Watchpoint>, r: Reading, i: nat)
    requires i <= |s|
    ensures Cut(s, r, i) == |s| || |Reported(s[..Cut(s, r, i)], r)| >= MAX_VIOLATIONS_PER_CYCLE
    decreases |s| - i
  {
  }

  /** With at most 32 enabled watchpoints on a sensor the break skips no entry that the reading concerns. */
  lemma FullScan(s: seq<Watchpoint>, r: Reading)
    requires Matching(s, r.sensorId) <= MAX_VIOLATIONS_PER_CYCLE
    ensures Evaluate(s, r) == (Bumped(s, r), Reported(s, r))
  {
    var k := Cut(s, r, 0);
    CutIsFullOrEnd(s, r, 0);
    if k < |s| {
      NothingAfterAFullReport(s, r, k);
    } else {
      assert s[..k] == s;
    }
    assert Bumped(s[..k], r) + s[k..] == Bumped(s, r);
  }

  lemma {:induction false} LaterReportsAppend(s: seq<Watchpoint>, r: Reading, k: nat)
    requires k <= |s|
    ensures |Reported(s, r)| >= |Reported(s[..k], r)|
    ensures Reported(s, r) == Reported(s[..k], r) <==> forall j | k <= j < |s| :: !Reports(s[j], r)
  {
    if k == |s| {
      assert s[..k] == s;
    } else {
      assert s[..|s| - 1][..k] == s[..k];
      LaterReportsAppend(s[..|s| - 1], r, k);
    }
  }

  /** An entry the scan never reaches: nothing is lost when the reading would neither count nor report it. */
  predicate Untouched(w: Watchpoint, r: Reading) {
    Hit(w, r) ==> !Compare(r.value, w.op, w.threshold) && w.currentCount == 0
  }

  lemma UntouchedIff(w: Watchpoint, r: Reading)
    ensures Untouched(w, r) <==> Bump(w, r) == w && !Reports(w, r)
  {
  }

  lemma CountsKeptIff(s: seq<Watchpoint>, r: Reading, k: nat)
    requires k <= |s|
    ensures Bumped(s[..k], r) + s[k..] == Bumped(s, r) <==> forall j | k <= j < |s| :: Bump(s[j], r) == s[j]
  {
    var scanned, all := Bumped(s[..k], r) + s[k..], Bumped(s, r);
    assert |scanned| == |all|;
    assert forall j | 0 <= j < |s| :: scanned[j] == (if j < k then Bump(s[j], r) else s[j]) && all[j] == Bump(s[j], r);
    if scanned == all {
      forall j | k <= j < |s| ensures Bump(s[j], r) == s[j] {
        assert scanned[j] == all[j];
      }
    }
  }

  /** The break is harmless exactly when no entry past it had anything to count, reset or report. */
  lemma FullScanIff(s: seq<Watchpoint>, r: Reading)
    ensures Evaluate(s, r) == (Bumped(s, r), Reported(s, r))
       <==> forall j | Cut(s, r, 0) <= j < |s| :: Untouched(s[j], r)
  {
    var k := Cut(s, r, 0);
    LaterReportsAppend(s, r, k);
    CountsKeptIff(s, r, k);
    forall j | k <= j < |s| ensures Untouched(s[j], r) <==> Bump(s[j], r) == s[j] && !Reports(s[j], r) {
      UntouchedIff(s[j], r);
    }
  }

  lemma {:induction false} AllReport(s: seq<Watchpoint>, w: Watchpoint, r: Reading)
    requires Reports(w, r) && forall i | 0 <= i < |s| :: s[i] == w
    ensures |Reported(s, r)| == |s|
  {
    if s != [] {
      AllReport(s[..|s| - 1], w, r);
    }
  }

  lemma {:induction false} CutOfAllReporting(s: seq<Watchpoint>, w: Watchpoint, r: Reading, i: nat)
    requires Reports(w, r) && forall j | 0 <= j < |s| :: s[j] == w
    requires i <= MAX_VIOLATIONS_PER_CYCLE <= |s|
    ensures Cut(s, r, i) == MAX_VIOLATIONS_PER_CYCLE
    decreases MAX_VIOLATIONS_PER_CYCLE - i
  {
    AllReport(s[..i], w, r);
    if i < MAX_VIOLATIONS_PER_CYCLE {
      CutOfAllReporting(s, w, r, i + 1);
    }
  }

  /** One more on the sensor and the break shows: the 33rd is violated, yet neither counted nor reported. */
  lemma ThirtyThirdIsSkipped(s: seq<Watchpoint>, w: Watchpoint, r: Reading)
    requires Reports(w, r) && |s| == 33 && forall i | 0 <= i < |s| :: s[i] == w
    ensures var (t, viols) := Evaluate(s, r);
            && t[32] == w && |viols| == 32 && Violation(32, r.value, w.threshold, w.op) !in viols
            && Evaluate(s, r) != (Bumped(s, r), Reported(s, r))
  {
    CutOfAllReporting(s, w, r, 0);
    AllReport(s[..32], w, r);
    AllReport(s, w, r);
    ReportedMembers(s[..32], r, Violation(32, r.value, w.threshold, w.op));
  }

  // ---------- a sensor with one enabled watchpoint ----------

  lemma {:induction false} SoleHitReports(s: seq<Watchpoint>, r: Reading, i: nat)
    requires forall j | 0 <= j < |s| && j != i :: !Hit(s[j], r)
    ensures Matching(s, r.sensorId) <= if i < |s| then 1 else 0
    ensures Reported(s, r) ==
            if i < |s| && Reports(s[i], r) then [Violation(i, r.value, s[i].threshold, s[i].op)] else []
  {
    if s != [] {
      SoleHitReports(s[..|s| - 1], r, i);
      assert |s| - 1 != i ==> !Hit(s[|s| - 1], r);
    }
  }
}
