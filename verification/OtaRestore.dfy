/** When a rollback restores what its swap left. */
module OtaRestore {
  import opened Options
  import opened OtaModel
  import opened OtaRuns

  /** How often each bank has been written to. */
  datatype Writes = Writes(a: nat, b: nat) {
    function Get(s: Slot): nat {
      if s == A then a else b
    }
    function Bump(s: Slot): Writes {
      if s == A then this.(a := a + 1) else this.(b := b + 1)
    }
  }

  /** The call is a chunk of at least one byte, and is accepted. */
  predicate IsWrite(c: Core, op: Op) {
    op.WriteChunk? && op.chunkLen > 0 && Apply(c, op).1.Ok?
  }

  /** The accepted non-empty chunks of the run, counted by the bank they went to. */
  function Written(init: Slot, ops: seq<Op>): Writes {
    if ops == [] then Writes(0, 0)
    else
      var before, op := ops[..|ops| - 1], ops[|ops| - 1];
      var c := Exec(init, before);
      if IsWrite(c, op) then Written(init, before).Bump(c.state.slot) else Written(init, before)
  }

  /** The number of writes to the bank that the latest successful swap left, at that swap. */
  function Left(init: Slot, ops: seq<Op>): nat {
    if ops == [] then 0
    else
      var before, op := ops[..|ops| - 1], ops[|ops| - 1];
      if op.Swap? && LastSucceeds(init, ops) then Written(init, before).Get(Exec(init, before).active)
      else Left(init, before)
  }

  /** The accepted non-empty chunks since the latest successful swap, whatever bank they went to. */
  function WritesSinceSwap(init: Slot, ops: seq<Op>): nat {
    if ops == [] then 0
    else
      var before, op := ops[..|ops| - 1], ops[|ops| - 1];
      if op.Swap? && LastSucceeds(init, ops) then 0
      else WritesSinceSwap(init, before) + if IsWrite(Exec(init, before), op) then 1 else 0
  }

  /** What the bank held that the latest successful swap left, at that swap. */
  function LeftBank(init: Slot, ops: seq<Op>): Bank {
    if ops == [] then Dirty
    else
      var before, op := ops[..|ops| - 1], ops[|ops| - 1];
      if op.Swap? && LastSucceeds(init, ops) then Flash(init, before).Get(Exec(init, before).active)
      else LeftBank(init, before)
  }

  /** While a rollback is open, writes go to the bank it would restore, and only a write gets past an empty download. */
  lemma OpenWindowStep(c: Core, op: Op)
    requires Inv(c)
    ensures var (c', r) := Apply(c, op);
            && (c'.lastSwap.Some? ==> if op.Swap? && r.Ok? then c'.lastSwap.value == c.active else c'.lastSwap == c.lastSwap)
            && (IsWrite(c, op) ==> c.state.slot == c.active.Other() && (c.lastSwap.Some? ==> c.state.slot == c.lastSwap.value))
            && (op.Swap? && r.Ok? ==> AtStart(c'))
            && (AtStart(c) && !IsWrite(c, op) ==> AtStart(c') && !(op.Verify? && r.Ok?))
  {
  }

  /** Nothing of a next update is in flight but an empty download. */
  predicate AtStart(c: Core) {
    c.state.Idle? || (c.state.Downloading? && c.state.bytesReceived == 0 && c.state.totalBytes > 0)
  }

  ghost predicate WindowKept(init: Slot, ops: seq<Op>) {
    var c := Exec(init, ops);
    c.lastSwap.Some? ==>
      && Written(init, ops).Get(c.lastSwap.value) == Left(init, ops) + WritesSinceSwap(init, ops)
      && (WritesSinceSwap(init, ops) == 0 ==> AtStart(c) && Flash(init, ops).Get(c.lastSwap.value) == LeftBank(init, ops))
  }

  lemma {:induction false} WindowsAreKept(init: Slot, ops: seq<Op>)
    ensures WindowKept(init, ops)
  {
    if ops != [] {
      var before, op := ops[..|ops| - 1], ops[|ops| - 1];
      AlwaysConsistent(init, before);
      WindowsAreKept(init, before);
      OpenWindowStep(Exec(init, before), op);
      var c := Exec(init, before);
      if Exec(init, ops).lastSwap.Some? && !(op.Swap? && LastSucceeds(init, ops)) {
        assert c.lastSwap == Exec(init, ops).lastSwap;
      }
    }
  }

  /**
   A rollback restores what its swap left if and only if no non-empty chunk was accepted since that swap: then the bank
   has seen no write and holds what it held. Bootable or not, verified or not, is another matter.
   */
  lemma RollbackRestoresIff(init: Slot, ops: seq<Op>)
    requires ops != [] && ops[|ops| - 1].Rollback? && LastSucceeds(init, ops)
    ensures Written(init, ops).Get(Exec(init, ops).active) == Left(init, ops) <==> WritesSinceSwap(init, ops) == 0
    ensures WritesSinceSwap(init, ops) == 0 ==> Flash(init, ops).Get(Exec(init, ops).active) == LeftBank(init, ops)
  {
    WindowsAreKept(init, ops[..|ops| - 1]);
  }

  lemma ThenCounts(init: Slot, ops: seq<Op>, op: Op) returns (next: seq<Op>)
    ensures next == ops + [op]
    ensures WritesSinceSwap(init, next) ==
            if op.Swap? && LastSucceeds(init, next) then 0
            else WritesSinceSwap(init, ops) + if IsWrite(Exec(init, ops), op) then 1 else 0
  {
    next := ops + [op];
    assert next[..|ops|] == ops;
  }

  /** A full update, then a second one taken up to `Ready` and aborted: safe to boot at every step, nothing tainted. */
  lemma VerifiedThenAborted(init: Slot, m1: Manifest, m2: Manifest, v: Verifier) returns (ops: seq<Op>)
    requires 0 < m1.sizeBytes <= MAX_CHUNK_BYTES && v(m1, m1.signature)
    requires 0 < m2.sizeBytes <= MAX_CHUNK_BYTES && v(m2, m2.signature)
    ensures ops == [StartDownload(m1), WriteChunk(m1.sizeBytes), FinishDownload, Verify(v, m1.sha256), Swap,
                    StartDownload(m2), WriteChunk(m2.sizeBytes), FinishDownload, Verify(v, m2.sha256), Abort]
    ensures Exec(init, ops) == Core(init.Other(), Idle, None, Some(init)) && WritesSinceSwap(init, ops) > 0
    ensures CleanRollbacks(init, ops) && !Tainted(init, ops) && Flash(init, ops).Get(init) == Image(m2)
  {
    var first := FullUpdate(init, m1, v);
    ops := Then(init, first, StartDownload(m2));
    var before := ops;
    ops := Then(init, before, WriteChunk(m2.sizeBytes));
    var _ := ThenCounts(init, before, WriteChunk(m2.sizeBytes));
    assert Exec(init, ops) == Core(init.Other(), Downloading(init, m2.sizeBytes, m2.sizeBytes), Some(m2), Some(init));
    before := ops;
    ops := Then(init, before, FinishDownload);
    var _ := ThenCounts(init, before, FinishDownload);
    before := ops;
    ops := Then(init, before, Verify(v, m2.sha256));
    var _ := ThenCounts(init, before, Verify(v, m2.sha256));
    assert Exec(init, ops).state == Ready(init) && Flash(init, ops).Get(init) == Image(m2) && !Tainted(init, ops);
    before := ops;
    ops := Then(init, before, Abort);
    var _ := ThenCounts(init, before, Abort);
  }

  /** A rollback onto an image that no swap ever activated, in a run that is bootable throughout. */
  lemma RollbackCanBootForeignImage(init: Slot, m1: Manifest, m2: Manifest, v: Verifier) returns (ops: seq<Op>)
    requires 0 < m1.sizeBytes <= MAX_CHUNK_BYTES && v(m1, m1.signature)
    requires 0 < m2.sizeBytes <= MAX_CHUNK_BYTES && v(m2, m2.signature)
    ensures ops == [StartDownload(m1), WriteChunk(m1.sizeBytes), FinishDownload, Verify(v, m1.sha256), Swap,
                    StartDownload(m2), WriteChunk(m2.sizeBytes), FinishDownload, Verify(v, m2.sha256), Abort, Rollback]
    ensures LastSucceeds(init, ops) && AlwaysBootable(init, ops)
    ensures Flash(init, ops).Get(Exec(init, ops).active) == Image(m2)
    ensures Written(init, ops).Get(Exec(init, ops).active) != Left(init, ops)
  {
    var before := VerifiedThenAborted(init, m1, m2, v);
    ops := Then(init, before, Rollback);
    var _ := ThenCounts(init, before, Rollback);
    RollbackRestoresIff(init, ops);
    BootSafetyIff(init, ops);
  }
}
