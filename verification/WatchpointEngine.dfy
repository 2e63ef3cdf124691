/** The fixed-size watchpoint table. */
module WatchpointEngine {
  import opened MachineInts
  import opened WatchpointModel

  class WatchpointTable {
    const entries: array<Watchpoint>
    var entryCount: uint32

    ghost predicate Valid()
      reads this
    {
      entries.Length == MAX_WATCHPOINTS && entryCount <= MAX_WATCHPOINTS
    }

    ghost function Abs(): seq<Watchpoint>
      requires Valid()
      reads this, entries
    {
      entries[..entryCount]
    }

    constructor ()
      ensures Valid() && Abs() == [] && fresh(entries)
    {
      entries := new Watchpoint[MAX_WATCHPOINTS](_ => Watchpoint(0, LessThan, 0, false, 1, 0));
      entryCount := 0;
    }

    method AddWatchpoint(wp: Watchpoint) returns (ok: bool)
      requires Valid()
      modifies this, entries
      ensures Valid() && Abs() == Added(old(Abs()), wp) && ok == (|old(Abs())| < 128)
    {
      if entryCount >= MAX_WATCHPOINTS {
        return false;
      }
      entries[entryCount] := wp;
      entryCount := entryCount + 1;
      return true;
    }

    /** One turn of the loop: entry `i` is counted, and reported if its violation has persisted. */
    method Visit(i: uint32, reading: Reading, before: seq<Violation>) returns (violations: seq<Violation>)
      requires Valid() && i < entryCount
      modifies entries
      ensures forall k | 0 <= k < entries.Length :: entries[k] == if k == i then Bump(old(entries[i]), reading) else old(entries[k])
      ensures var wp := old(entries[i]);
              violations == if Reports(wp, reading) then before + [Violation(i, reading.value, wp.threshold, wp.op)] else before
    {
      violations := before;
      var wp := entries[i];
      if wp.enabled && wp.sensorId == reading.sensorId {
        if Compare(reading.value, wp.op, wp.threshold) {
          entries[i] := wp.(currentCount := if wp.currentCount < U32_MAX then wp.currentCount + 1 else U32_MAX);
          if entries[i].currentCount >= wp.persistence {
            violations := violations + [Violation(i, reading.value, wp.threshold, wp.op)];
          }
        } else {
          entries[i] := wp.(currentCount := 0);
        }
      }
    }

    method Evaluate(reading: Reading) returns (violations: seq<Violation>)
      requires Valid()
      modifies entries
      ensures Valid() && (Abs(), violations) == WatchpointModel.Evaluate(old(Abs()), reading)
      ensures |violations| <= MAX_VIOLATIONS_PER_CYCLE
    {
      ghost var was := Abs();
      violations := [];
      var i: uint32 := 0;
      while i < entryCount
        invariant i <= entryCount && |violations| <= MAX_VIOLATIONS_PER_CYCLE
        invariant violations == Reported(was[..i], reading)
        invariant Cut(was, reading, 0) == Cut(was, reading, i)
        invariant forall k | 0 <= k < entryCount :: entries[k] == if k < i then Bump(was[k], reading) else was[k]
      {
        if |violations| >= MAX_VIOLATIONS_PER_CYCLE {
          break;
        }
        violations := Visit(i, reading, violations);
        ScanStep(was, reading, i);
        i := i + 1;
      }
      assert Cut(was, reading, 0) == i;
      assert Abs() == Bumped(was[..i], reading) + was[i..];
    }
  }
}
