/** The alert dispatcher: a fixed 64-slot buffer, a fixed-window counter and an in-place compaction. */
module AlertDispatcher {
  import opened MachineInts
  import opened AlertModel

  datatype DispatchResult = DispatchResult(action: Action, queueDepth: uint32)

  class Dispatcher {
    const recent: array<AlertEntry>
    var recentCount: uint32
    var minuteCount: uint32
    var minuteStart: uint64
    var subscriptions: set<uint32>

    ghost predicate Valid()
      reads this
    {
      recent.Length == MAX_RECENT_ALERTS && recentCount <= MAX_RECENT_ALERTS && minuteCount <= MAX_ALERTS_PER_MINUTE
    }

    ghost function Abs(): State
      requires Valid()
      reads this, recent
    {
      State(recent[..recentCount], minuteCount, minuteStart)
    }

    constructor ()
      ensures Valid() && fresh(recent)
      ensures Abs() == INITIAL && subscriptions == {}
    {
      recent := new AlertEntry[MAX_RECENT_ALERTS](_ => AlertEntry(0, 0, 0));
      recentCount, minuteCount, minuteStart := 0, 0, 0;
      subscriptions := {};
    }

    method Subscribe(zoneId: uint32, alertType: uint8)
      modifies this`subscriptions
      ensures subscriptions == old(subscriptions) + {SubscriptionMsgId(zoneId, alertType)}
    {
      subscriptions := subscriptions + {SubscriptionMsgId(zoneId, alertType)};
    }

    method Unsubscribe(zoneId: uint32, alertType: uint8)
      modifies this`subscriptions
      ensures subscriptions == old(subscriptions) - {SubscriptionMsgId(zoneId, alertType)}
    {
      subscriptions := subscriptions - {SubscriptionMsgId(zoneId, alertType)};
    }

    method ProcessAlert(zoneId: uint32, alertType: uint8, time: uint64) returns (r: DispatchResult)
      requires Valid()
      modifies this`recentCount, this`minuteCount, this`minuteStart, recent
      ensures Valid()
      ensures (Abs(), r.action) == Process(old(Abs()), subscriptions, zoneId, alertType, time)
      ensures r.queueDepth == recentCount
    {
      if SubscriptionMsgId(zoneId, alertType) !in subscriptions {
        return DispatchResult(NotSubscribed, recentCount);
      }
      if time >= SatAdd64(minuteStart, MINUTE_SEC) {
        minuteCount := 0;
        minuteStart := time;
      }
      var i: uint32 := 0;
      while i < recentCount
        invariant i <= recentCount
        invariant forall k | 0 <= k < i :: !Shadows(recent[k], zoneId, alertType, time)
      {
        if Shadows(recent[i], zoneId, alertType, time) {
          assert recent[i] in recent[..recentCount];
          return DispatchResult(Deduplicated, recentCount);
        }
        i := i + 1;
      }
      assert !WouldDedup(recent[..recentCount], zoneId, alertType, time);
      if minuteCount >= MAX_ALERTS_PER_MINUTE {
        return DispatchResult(RateLimited, recentCount);
      }
      if recentCount < MAX_RECENT_ALERTS {
        recent[recentCount] := AlertEntry(zoneId, alertType, time);
        recentCount := recentCount + 1;
        assert recent[..recentCount] == old(recent[..recentCount]) + [AlertEntry(zoneId, alertType, time)];
      }
      minuteCount := minuteCount + 1;
      return DispatchResult(Send, recentCount);
    }

    method ClearExpired(currentTime: uint64)
      requires Valid()
      modifies this`recentCount, recent
      ensures Valid()
      ensures Abs() == old(Abs()).(recent := LiveOnly(old(Abs()).recent, currentTime))
    {
      ghost var was := recent[..recentCount];
      var write: uint32, read: uint32 := 0, 0;
      while read < recentCount
        invariant write <= read <= recentCount == |was|
        invariant recent[..write] == LiveOnly(was[..read], currentTime)
        invariant forall k | read <= k < recentCount :: recent[k] == was[k]
      {
        assert was[..read + 1] == was[..read] + [was[read]];
        LiveOnlySnoc(was[..read], was[read], currentTime);
        if Live(recent[read], currentTime) {
          if write != read {
            recent[write] := recent[read];
          }
          assert recent[..write + 1] == recent[..write] + [was[read]];
          write := write + 1;
        }
        read := read + 1;
      }
      assert was[..read] == was;
      recentCount := write;
    }
  }
}
