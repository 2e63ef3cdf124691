/** The edge debouncer, and what it means for a whole stream of samples. */
module Debounce {
  import opened MachineInts
  import opened Options

  datatype DoorLevel = Closed | Open {
    /** `1` for open, `0` for closed: the value on the wire. */
    function AsValue(): int32 {
      if this == Open then 1 else 0
    }
  }

  datatype Edge = DoorOpened | DoorClosed {
    function Opposite(): Edge {
      if this == DoorOpened then DoorClosed else DoorOpened
    }
  }

  /** `streak` counts the latest consecutive samples that disagree with `committed`. */
  datatype State = State(committed: DoorLevel, streak: uint16)

  function Debounced(n: uint16, d: State, sample: DoorLevel): (State, Option<Edge>) {
    if sample == d.committed then (d.(streak := 0), None)
    else
      var streak: uint16 := if d.streak == 0xFFFF then 0xFFFF else d.streak + 1;
      if streak >= n then (State(sample, 0), Some(if sample == Open then DoorOpened else DoorClosed))
      else (d.(streak := streak), None)
  }

  class Debouncer {
    const stableTicks: uint16
    var committed: DoorLevel
    var streak: uint16

    function Abs(): State
      reads this
    {
      State(committed, streak)
    }

    constructor (stableTicks: uint16, initial: DoorLevel)
      ensures this.stableTicks == stableTicks && Abs() == State(initial, 0)
    {
      this.stableTicks := stableTicks;
      committed, streak := initial, 0;
    }

    method Update(sample: DoorLevel) returns (edge: Option<Edge>)
      modifies this
      ensures (Abs(), edge) == Debounced(stableTicks, old(Abs()), sample)
    {
      if sample == committed {
        streak := 0;
        return None;
      }
      streak := if streak == 0xFFFF then 0xFFFF else streak + 1;
      if streak >= stableTicks {
        edge := match (committed, sample)
          case (Closed, _) => Some(DoorOpened)
          case (Open, _) => Some(DoorClosed);
        committed := sample;
        streak := 0;
      } else {
        edge := None;
      }
    }
  }

  datatype Trace = Trace(state: State, edges: seq<Edge>)

  function Feed(n: uint16, initial: DoorLevel, samples: seq<DoorLevel>): Trace {
    if samples == [] then Trace(State(initial, 0), [])
    else
      var before := Feed(n, initial, samples[..|samples| - 1]);
      var (state, edge) := Debounced(n, before.state, samples[|samples| - 1]);
      Trace(state, if edge.Some? then before.edges + [edge.value] else before.edges)
  }

  /** A window of zero ticks commits like a window of one. */
  function Window(n: uint16): nat {
    if n == 0 then 1 else n
  }

  /** The `w` samples that end at position `k` are all alike. */
  ghost predicate Block(samples: seq<DoorLevel>, w: nat, k: int) {
    w <= k <= |samples| && forall j | k - w <= j < k :: samples[j] == samples[k - 1]
  }

  /** The streak is exactly the run of samples since the last one that agreed, and never fills the window. */
  lemma {:induction false} StreakIsTheDisagreement(n: uint16, initial: DoorLevel, samples: seq<DoorLevel>)
    ensures var d := Feed(n, initial, samples).state;
            && d.streak < Window(n) && d.streak <= |samples|
            && (forall j | |samples| - d.streak <= j < |samples| :: samples[j] != d.committed)
            && (d.streak < |samples| ==> samples[|samples| - d.streak - 1] == d.committed)
  {
    if samples != [] {
      StreakIsTheDisagreement(n, initial, samples[..|samples| - 1]);
    }
  }

  /** One more sample changes the committed level exactly when it completes a block, and then to that block's level. */
  lemma CommitsOnBlocks(n: uint16, initial: DoorLevel, samples: seq<DoorLevel>)
    requires samples != []
    ensures var k := |samples|;
            Feed(n, initial, samples).state.committed ==
            if Block(samples, Window(n), k) then samples[k - 1] else Feed(n, initial, samples[..k - 1]).state.committed
  {
    var k := |samples|;
    var d := Feed(n, initial, samples[..k - 1]).state;
    StreakIsTheDisagreement(n, initial, samples[..k - 1]);
    if samples[k - 1] != d.committed {
      if d.streak + 1 >= Window(n) {
        assert forall j | k - 1 - d.streak <= j < k - 1 :: samples[..k - 1][j] == samples[j];
        assert Block(samples, Window(n), k);
      } else if d.streak < k - 1 {
        assert samples[..k - 1][k - 2 - d.streak] == samples[k - 2 - d.streak];
        assert !Block(samples, Window(n), k);
      }
    }
  }

  /**
   The debouncer against the whole history: the committed level is the value of the most recent block of `n` alike
   consecutive samples, wherever it lies, and the initial level if there is none.
   */
  lemma {:induction false} CommittedIsMostRecentBlock(n: uint16, initial: DoorLevel, samples: seq<DoorLevel>)
    ensures var committed := Feed(n, initial, samples).state.committed;
            && (forall k | Block(samples, Window(n), k) && (forall m | k < m <= |samples| :: !Block(samples, Window(n), m)) ::
                  committed == samples[k - 1])
            && ((forall k | 0 <= k <= |samples| :: !Block(samples, Window(n), k)) ==> committed == initial)
  {
    if samples != [] {
      var last, w := |samples| - 1, Window(n);
      var before := samples[..last];
      CommittedIsMostRecentBlock(n, initial, before);
      CommitsOnBlocks(n, initial, samples);
      forall k | k <= last ensures Block(before, w, k) <==> Block(samples, w, k) {
        assert w <= k ==> forall j | k - w <= j < k :: before[j] == samples[j];
      }
    }
  }

  /** Edge `i` of a debouncer that started at `initial`: the first leaves that level, and each undoes the one before. */
  function EdgeAt(initial: DoorLevel, i: nat): Edge {
    if i > 0 then EdgeAt(initial, i - 1).Opposite() else if initial == Closed then DoorOpened else DoorClosed
  }

  /** Edges strictly alternate, and the committed level is the one the next edge would leave. */
  lemma {:induction false} EdgesAlternate(n: uint16, initial: DoorLevel, samples: seq<DoorLevel>)
    ensures var tr := Feed(n, initial, samples);
            && (forall i | 0 <= i < |tr.edges| :: tr.edges[i] == EdgeAt(initial, i))
            && (tr.state.committed == Closed <==> EdgeAt(initial, |tr.edges|) == DoorOpened)
  {
    if samples != [] {
      EdgesAlternate(n, initial, samples[..|samples| - 1]);
    }
  }

  lemma OneMoreWindow(w: nat, k: nat)
    ensures w * (k + 1) == w * k + w
  {
  }

  /** Each edge costs a full window of samples. */
  lemma {:induction false} EdgesCostSamples(n: uint16, initial: DoorLevel, samples: seq<DoorLevel>)
    ensures var tr := Feed(n, initial, samples); Window(n) * |tr.edges| + tr.state.streak <= |samples|
  {
    if samples != [] {
      var before, w := samples[..|samples| - 1], Window(n);
      EdgesCostSamples(n, initial, before);
      StreakIsTheDisagreement(n, initial, before);
      var b, tr := Feed(n, initial, before), Feed(n, initial, samples);
      OneMoreWindow(w, |b.edges|);
      if |tr.edges| == |b.edges| + 1 {
        assert tr.state.streak == 0 && b.state.streak + 1 >= w;
      } else {
        assert tr.edges == b.edges && tr.state.streak <= b.state.streak + 1;
      }
    }
  }
}
