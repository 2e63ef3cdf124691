/** Persistence over whole streams of readings. */
module WatchpointRuns {
  import opened MachineInts
  import opened WatchpointModel

  /** The table after these calls of `add_watchpoint`. */
  function Filled(ws: seq<Watchpoint>): seq<Watchpoint> {
    if ws == [] then [] else Added(Filled(ws[..|ws| - 1]), ws[|ws| - 1])
  }

  /** The table is the first 128 watchpoints added, in order. */
  lemma {:induction false} TableIsFirstAdded(ws: seq<Watchpoint>)
    ensures Filled(ws) == if |ws| <= 128 then ws else ws[..128]
  {
    if ws != [] {
      TableIsFirstAdded(ws[..|ws| - 1]);
    }
  }

  /** The table after a stream of readings. */
  function After(s: seq<Watchpoint>, rs: seq<Reading>): seq<Watchpoint> {
    if rs == [] then s else Evaluate(After(s, rs[..|rs| - 1]), rs[|rs| - 1]).0
  }

  /** The values the stream holds for a sensor. */
  function Values(rs: seq<Reading>, sensorId: uint32): seq<int64> {
    if rs == [] then []
    else
      var r, before := rs[|rs| - 1], Values(rs[..|rs| - 1], sensorId);
      if r.sensorId == sensorId then before + [r.value] else before
  }

  /** The value violates the limit, by the meaning of the six operators. */
  predicate Beyond(value: int, op: ComparisonOp, threshold: int) {
    && (op.LessThan? ==> value - threshold < 0)
    && (op.GreaterThan? ==> value - threshold > 0)
    && (op.LessOrEqual? ==> value - threshold <= 0)
    && (op.GreaterOrEqual? ==> value - threshold >= 0)
    && (op.Equal? ==> value - threshold == 0)
    && (op.NotEqual? ==> value - threshold != 0)
  }

  /** The last `n` readings of the watchpoint's sensor exist and all violate its limit. */
  predicate LastViolate(w: Watchpoint, rs: seq<Reading>, n: nat) {
    var vs := Values(rs, w.sensorId);
    n <= |vs| && forall k | |vs| - n <= k < |vs| :: Beyond(vs[k], w.op, w.threshold)
  }

  /** How many of the latest readings of the watchpoint's sensor violate its limit in a row. */
  function Trailing(w: Watchpoint, rs: seq<Reading>): nat {
    if rs == [] then 0
    else
      var r, before := rs[|rs| - 1], Trailing(w, rs[..|rs| - 1]);
      if r.sensorId != w.sensorId then before
      else if Beyond(r.value, w.op, w.threshold) then before + 1
      else 0
  }

  lemma {:induction false} TrailingIsLastViolate(w: Watchpoint, rs: seq<Reading>, n: nat)
    ensures Trailing(w, rs) >= n <==> LastViolate(w, rs, n)
  {
    if rs != [] {
      var before, r := rs[..|rs| - 1], rs[|rs| - 1];
      var vs := Values(rs, w.sensorId);
      if r.sensorId != w.sensorId {
        TrailingIsLastViolate(w, before, n);
      } else if n > 0 {
        TrailingIsLastViolate(w, before, n - 1);
        assert vs == Values(before, w.sensorId) + [r.value];
        if LastViolate(w, rs, n) {
          assert Beyond(vs[|vs| - 1], w.op, w.threshold);
          assert forall k | 0 <= k < |vs| - 1 :: Values(before, w.sensorId)[k] == vs[k];
        }
      }
    }
  }

  predicate FewPerSensor(s: seq<Watchpoint>) {
    forall id: uint32 :: Matching(s, id) <= 32
  }

  predicate SameLimits(s: seq<Watchpoint>, t: seq<Watchpoint>) {
    |s| == |t| && forall i | 0 <= i < |s| :: s[i] == t[i].(currentCount := s[i].currentCount)
  }

  lemma {:induction false} MatchingIgnoresCounts(s: seq<Watchpoint>, t: seq<Watchpoint>, id: uint32)
    requires SameLimits(s, t)
    ensures Matching(s, id) == Matching(t, id)
  {
    if s != [] {
      MatchingIgnoresCounts(s[..|s| - 1], t[..|t| - 1], id);
    }
  }

  /** Every enabled entry counts its trailing violations, capped at `u32::MAX`; a disabled one never moves. */
  lemma {:induction false} CountsAreTrailing(s: seq<Watchpoint>, rs: seq<Reading>)
    requires FewPerSensor(s) && forall i | 0 <= i < |s| :: s[i].currentCount == 0
    ensures var t := After(s, rs);
            && SameLimits(t, s) && FewPerSensor(t)
            && forall i | 0 <= i < |s| :: t[i].currentCount ==
                 if !s[i].enabled then 0 else if Trailing(s[i], rs) <= U32_MAX then Trailing(s[i], rs) else U32_MAX
  {
    if rs != [] {
      var before, r := rs[..|rs| - 1], rs[|rs| - 1];
      CountsAreTrailing(s, before);
      FullScan(After(s, before), r);
      forall id: uint32 ensures Matching(After(s, rs), id) <= MAX_VIOLATIONS_PER_CYCLE {
        MatchingIgnoresCounts(After(s, rs), s, id);
      }
    }
  }

  /**
   A watchpoint is reported on a reading if and only if it is enabled, the reading is its sensor's, and the last
   `max(1, persistence)` readings of that sensor, this one included, all violate its limit.
   */
  lemma ReportedIffPersistent(s: seq<Watchpoint>, rs: seq<Reading>, r: Reading, i: nat)
    requires FewPerSensor(s) && (forall j | 0 <= j < |s| :: s[j].currentCount == 0) && i < |s|
    ensures var w, viols := s[i], Evaluate(After(s, rs), r).1;
            Violation(i, r.value, w.threshold, w.op) in viols <==>
            && w.enabled && w.sensorId == r.sensorId
            && LastViolate(w, rs + [r], if w.persistence == 0 then 1 else w.persistence)
  {
    var w, t := s[i], After(s, rs);
    CountsAreTrailing(s, rs);
    FullScan(t, r);
    ReportedMembers(t, r, Violation(i, r.value, w.threshold, w.op));
    assert (rs + [r])[..|rs|] == rs;
    TrailingIsLastViolate(w, rs + [r], if w.persistence == 0 then 1 else w.persistence);
  }

  // ---------- runs in which the break may bite ----------

  /** The table after the same stream if the scan never stopped early. */
  function Ideal(s: seq<Watchpoint>, rs: seq<Reading>): seq<Watchpoint> {
    if rs == [] then s else Bumped(Ideal(s, rs[..|rs| - 1]), rs[|rs| - 1])
  }

  /** Every evaluation of the stream counts and reports what the unbroken scan would. */
  predicate BreakNeverShows(s: seq<Watchpoint>, rs: seq<Reading>) {
    rs != [] ==>
      var before, r := rs[..|rs| - 1], rs[|rs| - 1];
      && BreakNeverShows(s, before)
      && Evaluate(After(s, before), r) == (Bumped(Ideal(s, before), r), Reported(Ideal(s, before), r))
  }

  /** No evaluation of the stream stops before an entry that its reading would count, reset or report. */
  predicate ScansLoseNothing(s: seq<Watchpoint>, rs: seq<Reading>) {
    rs != [] ==>
      var before, r := rs[..|rs| - 1], rs[|rs| - 1];
      var t := After(s, before);
      ScansLoseNothing(s, before) && forall j | Cut(t, r, 0) <= j < |t| :: Untouched(t[j], r)
  }

  lemma {:induction false} BreakNeverShowsIff(s: seq<Watchpoint>, rs: seq<Reading>)
    ensures BreakNeverShows(s, rs) <==> ScansLoseNothing(s, rs)
    ensures BreakNeverShows(s, rs) ==> After(s, rs) == Ideal(s, rs)
  {
    if rs != [] {
      BreakNeverShowsIff(s, rs[..|rs| - 1]);
      FullScanIff(After(s, rs[..|rs| - 1]), rs[|rs| - 1]);
    }
  }
}
