/** What the update core answers, and which bank is active, told from the earlier calls and their answers alone. */
module OtaHistory {
  import opened MachineInts
  import opened Options
  import opened OtaModel
  import opened OtaRuns

  datatype Call = Call(op: Op, answer: Outcome) {
    predicate Done() {
      answer.Ok?
    }
    /** The update in flight, if any, is over: swapped in, abandoned, or rejected by `verify`. */
    predicate Ends() {
      (Done() && (op.Swap? || op.Abort?)) || (op.Verify? && answer in {Err(BadSignature), Err(BadImageDigest)})
    }
    /** The call decides whether a rollback is open. */
    predicate Settles() {
      Done() && (op.Swap? || op.ConfirmSwap? || op.Rollback?)
    }
  }

  /** A run, with the answers the core gave. */
  function Log(init: Slot, ops: seq<Op>): (log: seq<Call>)
    ensures |log| == |ops|
  {
    if ops == [] then []
    else
      var before, op := ops[..|ops| - 1], ops[|ops| - 1];
      Log(init, before) + [Call(op, Apply(Exec(init, before), op).1)]
  }

  // ---------- what a log says, read backwards ----------

  /** The manifest of the latest `start_download` done, unless a later call ended that update. */
  function InFlight(log: seq<Call>): Option<Manifest> {
    if log == [] then None
    else
      var x := log[|log| - 1];
      if x.op.StartDownload? && x.Done() then Some(x.op.manifest)
      else if x.Ends() then None
      else InFlight(log[..|log| - 1])
  }

  /** The bytes accepted since the latest `start_download` done. */
  function Received(log: seq<Call>): nat {
    if log == [] then 0
    else
      var x := log[|log| - 1];
      if x.op.StartDownload? && x.Done() then 0
      else Received(log[..|log| - 1]) + if x.op.WriteChunk? && x.Done() then x.op.chunkLen else 0
  }

  /** Since the latest `start_download` done, `finish_download` was done. */
  predicate Finished(log: seq<Call>) {
    log != [] &&
      var x := log[|log| - 1];
      !(x.op.StartDownload? && x.Done()) && ((x.op.FinishDownload? && x.Done()) || Finished(log[..|log| - 1]))
  }

  /** Since the latest `start_download` done, `verify` was done. */
  predicate Accepted(log: seq<Call>) {
    log != [] &&
      var x := log[|log| - 1];
      !(x.op.StartDownload? && x.Done()) && ((x.op.Verify? && x.Done()) || Accepted(log[..|log| - 1]))
  }

  /** The latest call that settles the matter is a swap. */
  predicate RollbackOpen(log: seq<Call>) {
    log != [] &&
      var x := log[|log| - 1];
      if x.Settles() then x.op.Swap? else RollbackOpen(log[..|log| - 1])
  }

  function Active(init: Slot, log: seq<Call>): Slot {
    if log == [] then init
    else
      var before, x := log[..|log| - 1], log[|log| - 1];
      if x.op.Swap? && x.Done() then Active(init, before).Other()
      else if x.op.Rollback? && x.Done() then LeftBySwap(init, before)
      else Active(init, before)
  }

  /** The bank that was active before the latest swap done. */
  function LeftBySwap(init: Slot, log: seq<Call>): Slot {
    if log == [] then init
    else
      var before, x := log[..|log| - 1], log[|log| - 1];
      if x.op.Swap? && x.Done() then Active(init, before) else LeftBySwap(init, before)
  }

  /** The answer to the next call: every error, in its order of precedence, and every success. */
  function Answer(log: seq<Call>, op: Op): Outcome {
    var flight := InFlight(log);
    var loading := flight.Some? && !Finished(log);
    match op
    case StartDownload(m) =>
      if flight.Some? then Err(WrongState)
      else if m.sizeBytes == 0 || m.sizeBytes > 1_048_576 then Err(BadManifest)
      else Ok
    case WriteChunk(len) =>
      if len > 1024 then Err(ChunkTooLarge)
      else if !loading then Err(WrongState)
      else if Received(log) + len > flight.value.sizeBytes then Err(ChunkOverflow)
      else Ok
    case FinishDownload =>
      if !loading then Err(WrongState) else if Received(log) != flight.value.sizeBytes then Err(Incomplete) else Ok
    case Verify(verifier, digest) =>
      if flight.None? || !Finished(log) || Accepted(log) then Err(WrongState)
      else if !verifier(flight.value, flight.value.signature) then Err(BadSignature)
      else if digest != flight.value.sha256 then Err(BadImageDigest)
      else Ok
    case Swap => if flight.Some? && Accepted(log) then Ok else Err(WrongState)
    case ConfirmSwap => if flight.Some? then Err(WrongState) else Ok
    case Rollback =>
      if flight.Some? then Err(WrongState) else if !RollbackOpen(log) then Err(NothingToRollback) else Ok
    case Abort => Ok
  }

  // ---------- the core is its log ----------

  ghost predicate Consistent(log: seq<Call>) {
    (Accepted(log) ==> Finished(log)) &&
    (InFlight(log).Some? ==> InFlight(log).value.WellFormed() && Received(log) <= InFlight(log).value.sizeBytes)
  }

  /** The whole core, as the log has it. */
  ghost function Pictured(init: Slot, log: seq<Call>): Core
    requires Consistent(log)
  {
    var active, flight := Active(init, log), InFlight(log);
    var state :=
      if flight.None? then Idle
      else if Accepted(log) then Ready(active.Other())
      else if Finished(log) then Verifying(active.Other())
      else Downloading(active.Other(), Received(log), flight.value.sizeBytes);
    Core(active, state, flight, if RollbackOpen(log) then Some(LeftBySwap(init, log)) else None)
  }

  lemma CallIsPictured(init: Slot, log: seq<Call>, op: Op)
    requires Consistent(log)
    ensures var (c, r) := Apply(Pictured(init, log), op);
            var next := log + [Call(op, r)];
            r == Answer(log, op) && Consistent(next) && c == Pictured(init, next)
  {
    var next := log + [Call(op, Apply(Pictured(init, log), op).1)];
    assert next[..|log|] == log;
  }

  lemma {:induction false} CoreIsPictured(init: Slot, ops: seq<Op>)
    ensures Consistent(Log(init, ops)) && Exec(init, ops) == Pictured(init, Log(init, ops))
  {
    if ops != [] {
      CoreIsPictured(init, ops[..|ops| - 1]);
      CallIsPictured(init, Log(init, ops[..|ops| - 1]), ops[|ops| - 1]);
    }
  }

  /** After any calls, the next one is answered as the log demands, and the active bank is the one the log names. */
  lemma AnswersFollowHistory(init: Slot, ops: seq<Op>, op: Op)
    ensures var log := Log(init, ops);
            Apply(Exec(init, ops), op).1 == Answer(log, op) && Exec(init, ops).active == Active(init, log)
  {
    CoreIsPictured(init, ops);
    CallIsPictured(init, Log(init, ops), op);
  }

  // ---------- three promises, call by call ----------

  /** A failed call changes nothing; only a rejection by `verify` ends the update, leaving banks and rollback alone. */
  lemma FailuresAreContained(init: Slot, ops: seq<Op>, op: Op)
    requires Apply(Exec(init, ops), op).1.Err?
    ensures var c, (next, r) := Exec(init, ops), Apply(Exec(init, ops), op);
            next == if op.Verify? && c.state.Verifying? then Core(c.active, Idle, None, c.lastSwap) else c
  {
    AlwaysConsistent(init, ops);
  }

  /** A `verify` in its state is answered by the signature first, then by the digest. */
  lemma VerifyDecides(init: Slot, ops: seq<Op>, v: Verifier, digest: seq<uint8>)
    requires Exec(init, ops).state.Verifying?
    ensures Exec(init, ops).pending.Some?
    ensures var m, (next, r) := Exec(init, ops).pending.value, Apply(Exec(init, ops), Verify(v, digest));
            && (r == Err(BadSignature) <==> !v(m, m.signature))
            && (r == Err(BadImageDigest) <==> v(m, m.signature) && digest != m.sha256)
            && (r == Ok <==> v(m, m.signature) && digest == m.sha256)
            && next == Exec(init, ops).(state := if r == Ok then Ready(next.active.Other()) else Idle,
                                        pending := if r == Ok then Some(m) else None)
  {
    AlwaysConsistent(init, ops);
  }

  /** Call `k` is a swap done, and no later call confirms it, rolls it back or swaps again. */
  predicate IsOpenSwap(log: seq<Call>, k: nat) {
    && k < |log| && log[k].op.Swap? && log[k].Done()
    && forall j | k < j < |log| :: !log[j].Settles()
  }

  lemma OpenSwapSnoc(log: seq<Call>, x: Call, k: nat)
    ensures IsOpenSwap(log + [x], k) <==>
            if k == |log| then x.op.Swap? && x.Done() else IsOpenSwap(log, k) && !x.Settles()
  {
    var next := log + [x];
    assert next[|log|] == x && forall j | 0 <= j < |log| :: next[j] == log[j];
    if k < |log| && IsOpenSwap(next, k) {
      assert !next[|log|].Settles();
    }
  }

  lemma {:induction false} RollbackOpenIff(log: seq<Call>)
    ensures RollbackOpen(log) <==> exists k: nat :: IsOpenSwap(log, k)
  {
    if log != [] {
      var before, x := log[..|log| - 1], log[|log| - 1];
      RollbackOpenIff(before);
      assert before + [x] == log;
      forall k: nat ensures IsOpenSwap(log, k) <==>
                            if k == |before| then x.op.Swap? && x.Done() else IsOpenSwap(before, k) && !x.Settles() {
        OpenSwapSnoc(before, x, k);
      }
      if x.op.Swap? && x.Done() {
        assert IsOpenSwap(log, |before|);
      } else if RollbackOpen(log) {
        var k: nat :| IsOpenSwap(before, k);
        assert IsOpenSwap(log, k);
      }
    }
  }

  lemma {:induction false} OpenSwapIsLeft(init: Slot, ops: seq<Op>, k: nat)
    requires IsOpenSwap(Log(init, ops), k)
    ensures LeftBySwap(init, Log(init, ops)) == Exec(init, ops[..k]).active
  {
    var n := |ops| - 1;
    var before, x := Log(init, ops[..n]), Log(init, ops)[n];
    assert before + [x] == Log(init, ops) && Log(init, ops)[..n] == before;
    OpenSwapSnoc(before, x, k);
    CoreIsPictured(init, ops[..n]);
    if k < n {
      OpenSwapIsLeft(init, ops[..n], k);
      assert ops[..n][..k] == ops[..k];
    }
  }

  /**
   A rollback succeeds if and only if the core is idle and the latest swap, confirmation or rollback done is a swap;
   and it makes active the bank that was so before that swap.
   */
  lemma RollbackSucceedsIff(init: Slot, ops: seq<Op>)
    ensures Apply(Exec(init, ops), Rollback).1 == Ok
       <==> Exec(init, ops).state.Idle? && exists k: nat :: IsOpenSwap(Log(init, ops), k)
    ensures Apply(Exec(init, ops), Rollback).1 == Ok ==>
              forall k: nat | IsOpenSwap(Log(init, ops), k) ::
                Apply(Exec(init, ops), Rollback).0.active == Exec(init, ops[..k]).active
  {
    CoreIsPictured(init, ops);
    RollbackOpenIff(Log(init, ops));
    forall k: nat | IsOpenSwap(Log(init, ops), k)
      ensures LeftBySwap(init, Log(init, ops)) == Exec(init, ops[..k]).active
    {
      OpenSwapIsLeft(init, ops, k);
    }
  }
}
