/** A timer: a callback due at an expiration, repeating every `interval`
    microseconds when the interval is positive. */
module Timers {
  import opened CInt
  import opened Timestamps

  /** The process-wide count of timers created so far; each new timer takes
      its sequence number from it. */
  class SequenceCounter {
    var numCreated: nat

    constructor()
      ensures numCreated == 0
    {
      numCreated := 0;
    }

    /** `fetch_add(1)`: hands out the current count and increments it. */
    method FetchAdd() returns (r: nat)
      modifies this
      ensures r == old(numCreated)
      ensures numCreated == old(numCreated) + 1
    {
      r := numCreated;
      numCreated := numCreated + 1;
    }
  }

  /** The expiration `restart(now)` gives a timer with this interval: `now`
      plus the interval when the timer repeats, the invalid timestamp when
      it does not. */
  function RestartedExpiration(interval: int, now: Timestamp): (r: Timestamp)
    requires interval > 0 ==> now.microSecondsSinceEpoch + interval <= Int64Max
    ensures interval > 0 ==> r.microSecondsSinceEpoch - now.microSecondsSinceEpoch == interval
    ensures interval > 0 ==> Less(now, r)
    ensures interval <= 0 ==> r == Invalid
    ensures now.Valid() ==> (r.Valid() <==> interval > 0)
  {
    if interval > 0 then AddMicroseconds(now, interval) else Invalid
  }

  class Timer {
    const interval: int
    const repeat: bool := interval > 0
    const sequence: nat
    var expiration: Timestamp

    /** A new timer draws its sequence number from the counter, so timers
        created one after another have increasing, distinct numbers. */
    constructor(when: Timestamp, interval: int, counter: SequenceCounter)
      modifies counter
      ensures this.interval == interval && expiration == when
      ensures sequence == old(counter.numCreated)
      ensures counter.numCreated == old(counter.numCreated) + 1
    {
      var s := counter.FetchAdd();
      this.interval := interval;
      sequence := s;
      expiration := when;
    }

    /** The restart anchors the next expiration at `now`, not at the old
        expiration. */
    method Restart(now: Timestamp)
      requires repeat ==> now.microSecondsSinceEpoch + interval <= Int64Max
      modifies this
      ensures expiration == RestartedExpiration(interval, now)
    {
      if repeat {
        expiration := AddMicroseconds(now, interval);
      } else {
        expiration := Invalid;
      }
    }
  }
}
