/** Where a successful swap comes from. */
module OtaProvenance {
  import opened Options
  import opened OtaModel
  import OtaRuns

  /** `cores` are the states of a run: before the first call, and after each call. */
  ghost predicate IsRun(init: Slot, ops: seq<Op>, cores: seq<Core>) {
    && |cores| == |ops| + 1 && cores[0] == Fresh(init)
    && forall k | 0 <= k < |ops| :: cores[k + 1] == Apply(cores[k], ops[k]).0
  }

  /** Call `k` succeeds. */
  predicate Succeeds(ops: seq<Op>, cores: seq<Core>, k: nat)
    requires k < |ops| < |cores|
  {
    Apply(cores[k], ops[k]).1.Ok?
  }

  /** Call `k` is a `verify` of a finished download, so it is decided. */
  predicate Judged(ops: seq<Op>, cores: seq<Core>, k: nat)
    requires k < |ops| < |cores|
  {
    ops[k].Verify? && cores[k].state.Verifying?
  }

  /** Call `k` leaves the core as it was, and is no `verify` that is decided. */
  predicate Inert(ops: seq<Op>, cores: seq<Core>, k: nat)
    requires k < |ops| < |cores|
  {
    Apply(cores[k], ops[k]).0 == cores[k] && !Judged(ops, cores, k)
  }

  predicate Accepts(ops: seq<Op>, cores: seq<Core>, k: nat)
    requires k < |ops| < |cores|
  {
    ops[k].WriteChunk? && Succeeds(ops, cores, k)
  }

  /** The bytes accepted by calls `i .. j`. */
  function Written(ops: seq<Op>, cores: seq<Core>, i: nat, j: nat): nat
    requires i <= j <= |ops| < |cores|
  {
    if i == j then 0
    else Written(ops, cores, i, j - 1) + if Accepts(ops, cores, j - 1) then ops[j - 1].chunkLen else 0
  }

  /** Call `i` starts a download of `m`; from there to `j` chunks are accepted and nothing else has an effect. */
  ghost predicate Streams(ops: seq<Op>, cores: seq<Core>, m: Manifest, i: nat, j: nat)
    requires |ops| < |cores|
  {
    && i < j <= |ops| && ops[i] == StartDownload(m) && Succeeds(ops, cores, i)
    && forall k: nat | i < k < j :: Inert(ops, cores, k) || Accepts(ops, cores, k)
  }

  /** Call `f` finishes the download, every byte of it written; from there to `j` nothing has an effect. */
  ghost predicate Finishes(ops: seq<Op>, cores: seq<Core>, m: Manifest, i: nat, f: nat, j: nat)
    requires |ops| < |cores|
  {
    && f < j <= |ops| && Streams(ops, cores, m, i, f) && Written(ops, cores, i, f) == m.sizeBytes
    && ops[f] == FinishDownload && Succeeds(ops, cores, f)
    && forall k: nat | f < k < j :: Inert(ops, cores, k)
  }

  /** Call `v` accepts the signature and the digest; from there to `j` nothing has an effect. */
  ghost predicate Verified(ops: seq<Op>, cores: seq<Core>, m: Manifest, i: nat, f: nat, v: nat, j: nat)
    requires |ops| < |cores|
  {
    && v < j <= |ops| && Finishes(ops, cores, m, i, f, v)
    && ops[v].Verify? && ops[v].verifier(m, m.signature) && ops[v].imageDigest == m.sha256
    && forall k: nat | v < k < j :: Inert(ops, cores, k)
  }

  /** What the state after `j` calls says of the calls before it. */
  ghost predicate Story(ops: seq<Op>, cores: seq<Core>, j: nat, i: nat, f: nat, v: nat)
    requires j <= |ops| < |cores| && Inv(cores[j])
  {
    match cores[j].state
    case Downloading(_, received, _) =>
      Streams(ops, cores, cores[j].pending.value, i, j) && Written(ops, cores, i, j) == received
    case Verifying(_) => Finishes(ops, cores, cores[j].pending.value, i, f, j)
    case Ready(_) => Verified(ops, cores, cores[j].pending.value, i, f, v, j)
    case _ => true
  }

  lemma {:induction false} EveryStateIsExec(init: Slot, ops: seq<Op>, cores: seq<Core>, j: nat)
    requires IsRun(init, ops, cores) && j <= |ops|
    ensures cores[j] == OtaRuns.Exec(init, ops[..j]) && Inv(cores[j])
  {
    if j > 0 {
      EveryStateIsExec(init, ops, cores, j - 1);
      assert ops[..j] == ops[..j - 1] + [ops[j - 1]];
      OtaRuns.ExecSnoc(init, ops[..j - 1], ops[j - 1]);
    }
    OtaRuns.AlwaysConsistent(init, ops[..j]);
  }

  lemma StreamsGoesOn(ops: seq<Op>, cores: seq<Core>, m: Manifest, i: nat, j: nat)
    requires j < |ops| < |cores| && Streams(ops, cores, m, i, j)
    requires Inert(ops, cores, j) || Accepts(ops, cores, j)
    ensures Streams(ops, cores, m, i, j + 1)
  {
  }

  lemma VerifiedGoesOn(ops: seq<Op>, cores: seq<Core>, m: Manifest, i: nat, f: nat, v: nat, j: nat)
    requires j < |ops| < |cores| && Inert(ops, cores, j)
    ensures Finishes(ops, cores, m, i, f, j) ==> Finishes(ops, cores, m, i, f, j + 1)
    ensures Verified(ops, cores, m, i, f, v, j) ==> Verified(ops, cores, m, i, f, v, j + 1)
  {
  }

  lemma StoryGoesOn(ops: seq<Op>, cores: seq<Core>, j: nat, i: nat, f: nat, v: nat)
    returns (i': nat, f': nat, v': nat)
    requires j < |ops| < |cores| && Inv(cores[j]) && Story(ops, cores, j, i, f, v)
    requires cores[j + 1] == Apply(cores[j], ops[j]).0 && Inv(cores[j + 1])
    ensures Story(ops, cores, j + 1, i', f', v')
  {
    i', f', v' := i, f, v;
    if Inert(ops, cores, j) || Accepts(ops, cores, j) {
      match cores[j].state
      case Downloading(_, _, _) => StreamsGoesOn(ops, cores, cores[j].pending.value, i, j);
      case Verifying(_) => VerifiedGoesOn(ops, cores, cores[j].pending.value, i, f, v, j);
      case Ready(_) => VerifiedGoesOn(ops, cores, cores[j].pending.value, i, f, v, j);
      case _ =>
    } else {
      match ops[j]
      case StartDownload(_) => i' := j;
      case FinishDownload => f' := j;
      case Verify(_, _) => v' := j;
      case _ =>
    }
  }

  /** Every state in flight has its story: the calls that led to it since its own `start_download`. */
  lemma {:induction false} EveryStateHasItsStory(init: Slot, ops: seq<Op>, cores: seq<Core>, j: nat)
    returns (i: nat, f: nat, v: nat)
    requires IsRun(init, ops, cores) && j <= |ops|
    ensures Inv(cores[j]) && Story(ops, cores, j, i, f, v)
  {
    i, f, v := 0, 0, 0;
    EveryStateIsExec(init, ops, cores, j);
    if j > 0 {
      i, f, v := EveryStateHasItsStory(init, ops, cores, j - 1);
      i, f, v := StoryGoesOn(ops, cores, j - 1, i, f, v);
    }
  }

  /**
   Every successful swap promotes a bank into which, since its own `start_download` and with nothing else having an
   effect in between, chunks of exactly `size_bytes` were accepted, then finished once, then verified once: the `verify`
   that accepted it is the only one decided since that start, so nothing was ever rejected.
   */
  lemma SwapProvenance(init: Slot, ops: seq<Op>, cores: seq<Core>, j: nat)
    returns (m: Manifest, i: nat, f: nat, v: nat)
    requires IsRun(init, ops, cores) && j < |ops| && ops[j] == Swap && Succeeds(ops, cores, j)
    ensures Verified(ops, cores, m, i, f, v, j) && m.WellFormed()
    ensures forall k: nat | i < k < j && Judged(ops, cores, k) :: k == v
    ensures cores[j + 1].active == cores[i].active.Other() && cores[j + 1].lastSwap == Some(cores[i].active)
  {
    i, f, v := EveryStateHasItsStory(init, ops, cores, j);
    m := cores[j].pending.value;
    ActiveIsStable(init, ops, cores, i, j);
    forall k: nat | i < k < j && Judged(ops, cores, k) ensures k == v {
      assert k != f && !Inert(ops, cores, k) && !Accepts(ops, cores, k);
    }
  }

  lemma {:induction false} ActiveIsStable(init: Slot, ops: seq<Op>, cores: seq<Core>, i: nat, j: nat)
    requires IsRun(init, ops, cores) && i <= j <= |ops|
    requires forall k: nat | i <= k < j :: Inert(ops, cores, k) || !(ops[k].Swap? || ops[k].Rollback?)
    ensures cores[i].active == cores[j].active
  {
    if i < j {
      ActiveIsStable(init, ops, cores, i, j - 1);
      assert cores[j] == Apply(cores[j - 1], ops[j - 1]).0;
    }
  }
}
