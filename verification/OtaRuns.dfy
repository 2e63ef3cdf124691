/** Whole call sequences of the update core: what every state keeps, where a swap comes from, what can be booted. */
module OtaRuns {
  import opened MachineInts
  import opened Options
  import opened OtaModel

  function Exec(init: Slot, ops: seq<Op>): Core {
    if ops == [] then Fresh(init) else Apply(Exec(init, ops[..|ops| - 1]), ops[|ops| - 1]).0
  }

  lemma ExecSnoc(init: Slot, ops: seq<Op>, op: Op)
    ensures Exec(init, ops + [op]) == Apply(Exec(init, ops), op).0
  {
    assert (ops + [op])[..|ops|] == ops;
  }

  /** The last call of the sequence succeeds. */
  predicate LastSucceeds(init: Slot, ops: seq<Op>)
    requires ops != []
  {
    Apply(Exec(init, ops[..|ops| - 1]), ops[|ops| - 1]).1.Ok?
  }

  /** No call sequence leaves the invariant, and none reaches the branch of `verify` that finds no manifest. */
  lemma {:induction false} AlwaysConsistent(init: Slot, ops: seq<Op>)
    ensures Inv(Exec(init, ops))
    ensures Exec(init, ops).state.Verifying? ==> forall v, d :: Apply(Exec(init, ops), Verify(v, d)).1 != Err(WrongState)
  {
    if ops != [] {
      AlwaysConsistent(init, ops[..|ops| - 1]);
    }
  }

  // ---------- swaps and rollbacks ----------

  function Swaps(init: Slot, ops: seq<Op>): nat {
    if ops == [] then 0
    else Swaps(init, ops[..|ops| - 1]) + if ops[|ops| - 1].Swap? && LastSucceeds(init, ops) then 1 else 0
  }

  function Rollbacks(init: Slot, ops: seq<Op>): nat {
    if ops == [] then 0
    else Rollbacks(init, ops[..|ops| - 1]) + if ops[|ops| - 1].Rollback? && LastSucceeds(init, ops) then 1 else 0
  }

  function Flipped(s: Slot, times: nat): Slot {
    if times == 0 then s else Flipped(s, times - 1).Other()
  }

  lemma StepFlips(c: Core, op: Op)
    requires Inv(c)
    ensures var (c', r) := Apply(c, op);
            && Inv(c')
            && c'.active == (if r.Ok? && (op.Swap? || op.Rollback?) then c.active.Other() else c.active)
            && (r.Ok? && op.Rollback? ==> c.lastSwap.Some? && c'.lastSwap.None?)
            && (c'.lastSwap.Some? ==> c.lastSwap.Some? || (r.Ok? && op.Swap?))
  {
  }

  ghost predicate FlipsCounted(init: Slot, c: Core, swaps: nat, rollbacks: nat) {
    && Inv(c) && c.active == Flipped(init, swaps + rollbacks)
    && rollbacks + (if c.lastSwap.Some? then 1 else 0) <= swaps
  }

  lemma CallIsCounted(init: Slot, c: Core, swaps: nat, rollbacks: nat, op: Op)
    requires FlipsCounted(init, c, swaps, rollbacks)
    ensures var (c', r) := Apply(c, op);
            FlipsCounted(init, c', if op.Swap? && r.Ok? then swaps + 1 else swaps,
                         if op.Rollback? && r.Ok? then rollbacks + 1 else rollbacks)
  {
    StepFlips(c, op);
    FlippedOnce(init, swaps + rollbacks, swaps + rollbacks + 1);
  }

  /** The active bank is the first one flipped once per swap and rollback, and a rollback always undoes its own swap. */
  lemma {:induction false} ActiveCountsFlips(init: Slot, ops: seq<Op>)
    ensures Exec(init, ops).active == Flipped(init, Swaps(init, ops) + Rollbacks(init, ops))
    ensures Rollbacks(init, ops) + (if Exec(init, ops).lastSwap.Some? then 1 else 0) <= Swaps(init, ops)
    ensures FlipsCounted(init, Exec(init, ops), Swaps(init, ops), Rollbacks(init, ops))
  {
    if ops != [] {
      var before := ops[..|ops| - 1];
      ActiveCountsFlips(init, before);
      CallIsCounted(init, Exec(init, before), Swaps(init, before), Rollbacks(init, before), ops[|ops| - 1]);
    }
  }

  lemma FlippedOnce(s: Slot, before: nat, after: nat)
    ensures after == before + 1 ==> Flipped(s, after) == Flipped(s, before).Other()
  {
  }

  // ---------- what can be booted ----------

  /** What a bank holds: the image it shipped with, a partly written one, or one that `verify` accepted. */
  datatype Bank = Factory | Dirty | Image(manifest: Manifest)

  datatype Banks = Banks(a: Bank, b: Bank) {
    function Get(s: Slot): Bank {
      if s == A then a else b
    }
    function Set(s: Slot, x: Bank): Banks {
      if s == A then this.(a := x) else this.(b := x)
    }
    predicate Bootable(s: Slot) {
      !Get(s).Dirty?
    }
  }

  /** The flash beside the core: an accepted non-empty chunk dirties the target bank, an accepted verify validates it. */
  function FlashStep(flash: Banks, c: Core, op: Op): Banks
    requires Inv(c)
  {
    if Apply(c, op).1.Err? then flash
    else if op.WriteChunk? && op.chunkLen > 0 then flash.Set(c.state.slot, Dirty)
    else if op.Verify? then flash.Set(c.state.slot, Image(c.pending.value))
    else flash
  }

  /** From the calls alone: a non-empty chunk was accepted while a rollback was open, and not verified since. */
  predicate TaintStep(tainted: bool, c: Core, op: Op) {
    if Apply(c, op).1.Err? then tainted
    else if op.WriteChunk? && op.chunkLen > 0 then tainted || c.lastSwap.Some?
    else tainted && !op.Verify? && !op.Swap?
  }

  function Flash(init: Slot, ops: seq<Op>): Banks {
    if ops == [] then Banks(Dirty, Dirty).Set(init, Factory)
    else
      var n := |ops| - 1;
      AlwaysConsistent(init, ops[..n]);
      FlashStep(Flash(init, ops[..n]), Exec(init, ops[..n]), ops[n])
  }

  predicate Tainted(init: Slot, ops: seq<Op>) {
    ops != [] && TaintStep(Tainted(init, ops[..|ops| - 1]), Exec(init, ops[..|ops| - 1]), ops[|ops| - 1])
  }

  /** No rollback succeeds while the run is tainted. */
  predicate CleanRollbacks(init: Slot, ops: seq<Op>) {
    ops != [] ==>
      var n := |ops| - 1;
      && CleanRollbacks(init, ops[..n])
      && (ops[n].Rollback? && LastSucceeds(init, ops) ==> !Tainted(init, ops[..n]))
  }

  /** At every call boundary the active bank can be booted. */
  predicate AlwaysBootable(init: Slot, ops: seq<Op>) {
    && Flash(init, ops).Bootable(Exec(init, ops).active)
    && (ops != [] ==> AlwaysBootable(init, ops[..|ops| - 1]))
  }

  ghost predicate BootInv(c: Core, flash: Banks, tainted: bool)
    requires Inv(c)
  {
    && flash.Bootable(c.active)
    && (c.state.Ready? ==> flash.Get(c.state.slot) == Image(c.pending.value))
    && (c.lastSwap.Some? ==> (flash.Bootable(c.lastSwap.value) <==> !tainted))
  }

  lemma BootInvStep(c: Core, flash: Banks, tainted: bool, op: Op)
    requires Inv(c) && BootInv(c, flash, tainted)
    ensures Inv(Apply(c, op).0)
    ensures !(op.Rollback? && Apply(c, op).1.Ok? && tainted) ==>
              BootInv(Apply(c, op).0, FlashStep(flash, c, op), TaintStep(tainted, c, op))
  {
  }

  lemma {:induction false} CleanRunsBoot(init: Slot, ops: seq<Op>)
    requires CleanRollbacks(init, ops)
    ensures AlwaysBootable(init, ops)
    ensures Inv(Exec(init, ops)) && BootInv(Exec(init, ops), Flash(init, ops), Tainted(init, ops))
  {
    if ops != [] {
      var n := |ops| - 1;
      CleanRunsBoot(init, ops[..n]);
      BootInvStep(Exec(init, ops[..n]), Flash(init, ops[..n]), Tainted(init, ops[..n]), ops[n]);
    }
  }

  /** Boot safety, exactly: every state has a bootable active bank if and only if no tainted rollback succeeds. */
  lemma {:induction false} BootSafetyIff(init: Slot, ops: seq<Op>)
    ensures AlwaysBootable(init, ops) <==> CleanRollbacks(init, ops)
  {
    if CleanRollbacks(init, ops) {
      CleanRunsBoot(init, ops);
    } else {
      var before := ops[..|ops| - 1];
      BootSafetyIff(init, before);
      if CleanRollbacks(init, before) {
        CleanRunsBoot(init, before);
        AlwaysConsistent(init, before);
      }
    }
  }

  /** The discipline the documentation of `confirm_swap` suggests: no download starts while a rollback is open. */
  predicate ConfirmsFirst(init: Slot, ops: seq<Op>) {
    ops != [] ==>
      var n := |ops| - 1;
      && ConfirmsFirst(init, ops[..n])
      && (ops[n].StartDownload? && LastSucceeds(init, ops) ==> Exec(init, ops[..n]).lastSwap.None?)
  }

  lemma ConfirmFirstStep(c: Core, op: Op)
    requires c.lastSwap.Some? ==> c.state.Idle?
    requires op.StartDownload? && Apply(c, op).1.Ok? ==> c.lastSwap.None?
    ensures var c' := Apply(c, op).0; c'.lastSwap.Some? ==> c'.state.Idle?
    ensures !TaintStep(false, c, op)
  {
  }

  lemma {:induction false} ConfirmFirstNeverTaints(init: Slot, ops: seq<Op>)
    requires ConfirmsFirst(init, ops)
    ensures CleanRollbacks(init, ops) && !Tainted(init, ops)
    ensures Exec(init, ops).lastSwap.Some? ==> Exec(init, ops).state.Idle?
  {
    if ops != [] {
      var n := |ops| - 1;
      ConfirmFirstNeverTaints(init, ops[..n]);
      ConfirmFirstStep(Exec(init, ops[..n]), ops[n]);
    }
  }

  lemma ConfirmFirstIsBootSafe(init: Slot, ops: seq<Op>)
    requires ConfirmsFirst(init, ops)
    ensures AlwaysBootable(init, ops)
  {
    ConfirmFirstNeverTaints(init, ops);
    BootSafetyIff(init, ops);
  }

  lemma Then(init: Slot, ops: seq<Op>, op: Op) returns (next: seq<Op>)
    ensures next == ops + [op] && Inv(Exec(init, ops))
    ensures Exec(init, next) == Apply(Exec(init, ops), op).0
    ensures LastSucceeds(init, next) <==> Apply(Exec(init, ops), op).1.Ok?
    ensures Tainted(init, next) == TaintStep(Tainted(init, ops), Exec(init, ops), op)
    ensures CleanRollbacks(init, next) <==>
            CleanRollbacks(init, ops) && (op.Rollback? && LastSucceeds(init, next) ==> !Tainted(init, ops))
    ensures Flash(init, next) == FlashStep(Flash(init, ops), Exec(init, ops), op)
  {
    next := ops + [op];
    assert next[..|ops|] == ops;
    AlwaysConsistent(init, ops);
  }

  /** One whole update: the calls, and the state and flash they leave. */
  lemma FullUpdate(init: Slot, m: Manifest, v: Verifier) returns (ops: seq<Op>)
    requires 0 < m.sizeBytes <= MAX_CHUNK_BYTES && v(m, m.signature)
    ensures ops == [StartDownload(m), WriteChunk(m.sizeBytes), FinishDownload, Verify(v, m.sha256), Swap]
    ensures Exec(init, ops) == Core(init.Other(), Idle, None, Some(init)) && !Tainted(init, ops)
    ensures CleanRollbacks(init, ops) && Flash(init, ops).Get(init) == Factory
    ensures Flash(init, ops).Get(init.Other()) == Image(m)
  {
    ops := Then(init, [], StartDownload(m));
    ops := Then(init, ops, WriteChunk(m.sizeBytes));
    assert Exec(init, ops) == Core(init, Downloading(init.Other(), m.sizeBytes, m.sizeBytes), Some(m), None);
    ops := Then(init, ops, FinishDownload);
    ops := Then(init, ops, Verify(v, m.sha256));
    assert Exec(init, ops).state == Ready(init.Other()) && Flash(init, ops).Get(init) == Factory;
    ops := Then(init, ops, Swap);
  }

  /** Without it: a full update, then one chunk of the next, an abort and a rollback boot into a half-written bank. */
  lemma RollbackCanBootDirtyBank(init: Slot, m: Manifest, v: Verifier) returns (ops: seq<Op>)
    requires 1 < m.sizeBytes <= MAX_CHUNK_BYTES && v(m, m.signature)
    ensures ops == [StartDownload(m), WriteChunk(m.sizeBytes), FinishDownload, Verify(v, m.sha256), Swap,
                    StartDownload(m), WriteChunk(1), Abort, Rollback]
    ensures LastSucceeds(init, ops) && !Flash(init, ops).Bootable(Exec(init, ops).active)
  {
    var first := FullUpdate(init, m, v);
    ops := Then(init, first, StartDownload(m));
    ops := Then(init, ops, WriteChunk(1));
    assert Flash(init, ops).Get(init) == Dirty;
    var before := Then(init, ops, Abort);
    ops := Then(init, before, Rollback);
    assert ops[..|ops| - 1] == before;
  }
}
