/** The timer queue kept as a multimap from expiration to timer
    (gg_lib/net/TImerQueue.cc): equal expirations stay in insertion order,
    and an entry's timer is alive exactly while its id is in the table. */
module TimerQueueMultimap {
  import opened Timestamps
  import opened Wrappers
  import opened Timers
  import opened TimerSchedule

  class TimerQueue {
    /** `timers_`: the ordering index. */
    var timers: seq<Entry>
    /** `activeTimers_`: the live timers by sequence number. */
    var activeTimers: map<nat, Timer>
    /** The relative time last given to the timer fd, if any. */
    var timerfd: Option<TimeSpec>
    /** The counter new timers take their sequence numbers from. */
    const counter: SequenceCounter

    function State(): Schedule
      reads this
    {
      Schedule(timers, activeTimers)
    }

    ghost predicate Valid()
      reads this, counter
    {
      Inv(State(), InsertionOrder, counter.numCreated)
    }

    constructor(counter: SequenceCounter)
      ensures timers == [] && activeTimers == map[] && timerfd == None
      ensures this.counter == counter
      ensures Valid()
    {
      timers := [];
      activeTimers := map[];
      timerfd := None;
      this.counter := counter;
    }

    /** Files the timer under its expiration after any equal ones, adds it to
        the table unless it is there already, and says whether the earliest
        expiration changed. */
    method Insert(timer: Timer) returns (earliestChanged: bool)
      modifies this
      ensures earliestChanged == EarliestChanged(old(timers), timer.expiration)
      ensures timers == InsertEntry(old(timers), Entry(timer.expiration, timer.sequence), InsertionOrder)
      ensures activeTimers == if timer.sequence in old(activeTimers) then old(activeTimers)
                              else old(activeTimers)[timer.sequence := timer]
      ensures timerfd == old(timerfd)
    {
      var when := timer.expiration;
      earliestChanged := timers == [] || Less(when, timers[0].when);
      timers := InsertEntry(timers, Entry(when, timer.sequence), InsertionOrder);
      if timer.sequence !in activeTimers {
        activeTimers := activeTimers[timer.sequence := timer];
      }
    }

    /** Schedules a newly created timer and re-arms the fd when it is now the
        earliest. The invariant is kept when it held; the timer may also be
        added while `handleRead` is between taking out the due timers and
        reset. */
    method AddTimerInLoop(timer: Timer, clock: Timestamp)
      requires timer.sequence !in IdSet(timers) && timer.sequence !in activeTimers
      requires timer.sequence < counter.numCreated
      modifies this
      ensures old(Valid()) ==> Valid()
      ensures timers == InsertEntry(old(timers), Entry(timer.expiration, timer.sequence), InsertionOrder)
      ensures activeTimers == old(activeTimers)[timer.sequence := timer]
      ensures timerfd == if EarliestChanged(old(timers), timer.expiration)
                         then Some(HowMuchTimeFromNow(timer.expiration, clock)) else old(timerfd)
    {
      var expiration := timer.expiration;
      if Valid() {
        InsertFreshKeepsInv(State(), timer, expiration, InsertionOrder, counter.numCreated);
      }
      var earliestChanged := Insert(timer);
      if earliestChanged {
        ResetTimerfd(expiration, clock);
      }
    }

    /** Creates a timer due at `when` and schedules it; the returned id is its
        sequence number. */
    method AddTimer(when: Timestamp, interval: int, clock: Timestamp) returns (id: nat)
      requires IdsBelow(State(), counter.numCreated)
      modifies this, counter
      ensures old(Valid()) ==> Valid()
      ensures IdsBelow(State(), counter.numCreated)
      ensures id == old(counter.numCreated) && counter.numCreated == id + 1
      ensures id !in old(activeTimers) && id in activeTimers && fresh(activeTimers[id])
      ensures activeTimers == old(activeTimers)[id := activeTimers[id]] && activeTimers[id].sequence == id
      ensures activeTimers[id].interval == interval && activeTimers[id].expiration == when
      ensures timers == InsertEntry(old(timers), Entry(when, id), InsertionOrder)
      ensures timerfd == if EarliestChanged(old(timers), when)
                         then Some(HowMuchTimeFromNow(when, clock)) else old(timerfd)
    {
      ghost var valid := Valid();
      var timer := new Timer(when, interval, counter);
      id := timer.sequence;
      assert valid ==> Valid();
      AddTimerInLoop(timer, clock);
      InsertEntryMembers(old(timers), Entry(when, id), InsertionOrder);
    }

    /** Removes the timer from the table only; its entry is left behind. */
    method CancelInLoop(id: nat)
      requires Valid()
      modifies this
      ensures Valid()
      ensures activeTimers == old(activeTimers) - {id}
      ensures timers == old(timers) && timerfd == old(timerfd)
    {
      activeTimers := activeTimers - {id};
    }

    /** Arms the timer fd to fire at `expiration`, measured from `clock`. */
    method ResetTimerfd(expiration: Timestamp, clock: Timestamp)
      modifies this
      ensures timerfd == Some(HowMuchTimeFromNow(expiration, clock))
      ensures timers == old(timers) && activeTimers == old(activeTimers)
    {
      timerfd := Some(HowMuchTimeFromNow(expiration, clock));
    }

    /** Erases every entry due at `now` and returns, in index order, the
        timers among them that are still alive. */
    method GetExpired(now: Timestamp) returns (expired: seq<Timer>)
      modifies this
      ensures expired == LiveTimers(old(timers)[..UpperBound(old(timers), now)], old(activeTimers))
      ensures timers == old(timers)[UpperBound(old(timers), now)..]
      ensures activeTimers == old(activeTimers) && timerfd == old(timerfd)
    {
      expired := [];
      var end := UpperBound(timers, now);
      assert end == |timers| || Less(now, timers[end].when);
      var i := 0;
      while i < end
        invariant 0 <= i <= end
        invariant expired == LiveTimers(timers[..i], activeTimers)
      {
        var entry := timers[i];
        assert timers[..i + 1][..i] == timers[..i];
        if entry.id in activeTimers {
          expired := expired + [activeTimers[entry.id]];
        }
        i := i + 1;
      }
      timers := timers[end..];
    }

    /** reset's first loop: restarts and files again each expired repeating
        timer still in the table, and drops every other one from it. */
    method RestartExpired(expired: seq<Timer>, now: Timestamp)
      requires forall t :: t in expired ==> Restartable(t, now)
      requires DistinctTimers(expired)
      modifies this, expired
      ensures State() == ResetLoop(expired, old(State()), now, InsertionOrder)
      ensures timerfd == old(timerfd)
      ensures forall k :: 0 <= k < |expired| && expired[k].sequence in activeTimers ==> RestartedAt(expired[k], now)
    {
      assert forall k :: 0 <= k < |expired| ==> Restartable(expired[k], now) by {
        forall k | 0 <= k < |expired| ensures Restartable(expired[k], now) {
          assert expired[k] in expired;
        }
      }
      var i := 0;
      while i < |expired|
        invariant 0 <= i <= |expired|
        invariant ResetLoop(expired[i..], State(), now, InsertionOrder) == ResetLoop(expired, old(State()), now, InsertionOrder)
        invariant timerfd == old(timerfd)
        invariant forall k :: 0 <= k < i && expired[k].sequence in activeTimers ==> RestartedAt(expired[k], now)
      {
        var timer := expired[i];
        assert expired[i..][1..] == expired[i + 1..];
        if timer.repeat && timer.sequence in activeTimers {
          assert forall k :: 0 <= k < i ==> expired[k] != timer;
          timer.Restart(now);
          var _ := Insert(timer);
        } else {
          activeTimers := activeTimers - {timer.sequence};
        }
        i := i + 1;
      }
    }

    /** reset's second loop: erases front entries whose timer is gone and
        returns the first remaining expiration, or the invalid timestamp. */
    method PruneFront() returns (nextExpire: Timestamp)
      modifies this
      ensures timers == Prune(old(timers), activeTimers.Keys)
      ensures activeTimers == old(activeTimers) && timerfd == old(timerfd)
      ensures nextExpire == NextExpire(timers)
    {
      nextExpire := Invalid;
      ghost var popped := 0;
      while timers != []
        invariant popped <= StaleCount(old(timers), activeTimers.Keys) && timers == old(timers)[popped..]
        invariant activeTimers == old(activeTimers) && timerfd == old(timerfd)
        invariant nextExpire == Invalid
      {
        if timers[0].id !in activeTimers {
          timers := timers[1..];
          popped := popped + 1;
        } else {
          nextExpire := timers[0].when;
          break;
        }
      }
    }

    /** Handles the expired timers, then re-arms the fd for the first
        remaining expiration if it is valid. */
    method Reset(expired: seq<Timer>, now: Timestamp, clock: Timestamp)
      requires forall t :: t in expired ==> Restartable(t, now)
      requires DistinctTimers(expired)
      modifies this, expired
      ensures var s := ResetLoop(expired, old(State()), now, InsertionOrder);
              timers == Prune(s.entries, s.active.Keys) && activeTimers == s.active
      ensures timerfd == if NextExpire(timers).Valid() then Some(HowMuchTimeFromNow(NextExpire(timers), clock))
                         else old(timerfd)
      ensures forall k :: 0 <= k < |expired| && expired[k].sequence in activeTimers ==> RestartedAt(expired[k], now)
    {
      ghost var s := ResetLoop(expired, State(), now, InsertionOrder);
      RestartExpired(expired, now);
      assert State() == s;
      var nextExpire := PruneFront();
      assert timers == Prune(s.entries, s.active.Keys) && activeTimers == s.active;
      assert nextExpire == NextExpire(timers) && timerfd == old(timerfd);
      if nextExpire.Valid() {
        ResetTimerfd(nextExpire, clock);
      }
    }

    /** One call a timer's callback makes while `handleRead` runs: `addTimer`
        files a new timer, `cancel` takes the id out of the table. */
    method RunCallbackCall(call: CallbackCall, clock: Timestamp) returns (ghost step: CallbackStep)
      requires IdsBelow(State(), counter.numCreated)
      modifies this, counter
      ensures IdsBelow(State(), counter.numCreated)
      ensures Enacts(step, call)
      ensures step.Added? ==> step.timer.sequence == old(counter.numCreated) && fresh(step.timer)
      ensures counter.numCreated == old(counter.numCreated) + (if step.Added? then 1 else 0)
      ensures State() == ApplyStep(old(State()), step, InsertionOrder)
      ensures timerfd == if step.Added? && EarliestChanged(old(timers), step.when)
                         then Some(HowMuchTimeFromNow(step.when, clock)) else old(timerfd)
    {
      match call {
        case CallsAddTimer(when, interval) =>
          var id := AddTimer(when, interval, clock);
          step := Added(activeTimers[id], when);
        case CallsCancel(id) =>
          activeTimers := activeTimers - {id};
          step := Cancelled(id);
      }
    }

    /** The calls the callbacks make while the due timers run, one after
        another; `steps` says what each did. */
    method RunCallbacks(calls: seq<CallbackCall>, clock: Timestamp) returns (ghost steps: seq<CallbackStep>)
      requires IdsBelow(State(), counter.numCreated)
      modifies this, counter
      ensures Performs(steps, calls, old(counter.numCreated))
      ensures forall i :: 0 <= i < |steps| && steps[i].Added? ==> fresh(steps[i].timer)
      ensures counter.numCreated == old(counter.numCreated) + AddedCount(steps)
      ensures State() == ApplyCallbacks(old(State()), steps, InsertionOrder)
      ensures timerfd == ArmedAfter(old(timerfd), old(State()), steps, InsertionOrder, clock)
    {
      ghost var bound := counter.numCreated;
      steps := [];
      var i := 0;
      while i < |calls|
        invariant 0 <= i <= |calls| && |steps| == i
        invariant Performs(steps, calls[..i], bound)
        invariant forall k :: 0 <= k < i && steps[k].Added? ==> fresh(steps[k].timer)
        invariant counter.numCreated == bound + AddedCount(steps)
        invariant State() == ApplyCallbacks(old(State()), steps, InsertionOrder)
        invariant IdsBelow(State(), counter.numCreated)
        invariant timerfd == ArmedAfter(old(timerfd), old(State()), steps, InsertionOrder, clock)
      {
        ghost var before := steps;
        ghost var step := RunCallbackCall(calls[i], clock);
        steps := steps + [step];
        assert steps[..i] == before;
        NumberedAppend(before, step, bound);
        assert calls[..i + 1] == calls[..i] + [calls[i]];
        i := i + 1;
      }
      assert calls[..i] == calls;
    }

    /** The timer fd fired at `now`: takes out the due timers, runs each live
        one once, then resets. While they run, the callbacks make `calls` on
        the queue in order, each adding a timer or cancelling one; `steps`
        says what each call did. */
    method HandleRead(now: Timestamp, clock: Timestamp, calls: seq<CallbackCall>)
      returns (ran: seq<Timer>, ghost steps: seq<CallbackStep>)
      requires Valid()
      requires forall id :: id in activeTimers ==> Restartable(activeTimers[id], now)
      modifies this, activeTimers.Values, counter
      ensures Valid()
      ensures ran == LiveTimers(old(timers)[..UpperBound(old(timers), now)], old(activeTimers))
      ensures Performs(steps, calls, old(counter.numCreated))
      ensures forall i :: 0 <= i < |steps| && steps[i].Added? ==> fresh(steps[i].timer)
      ensures counter.numCreated == old(counter.numCreated) + AddedCount(steps)
      ensures State() == AfterExpiry(old(State()), now, steps, InsertionOrder)
      ensures timerfd == if NextExpire(timers).Valid() then Some(HowMuchTimeFromNow(NextExpire(timers), clock))
                         else ArmedAfter(old(timerfd), Schedule(old(timers)[UpperBound(old(timers), now)..], old(activeTimers)),
                                         steps, InsertionOrder, clock)
    {
      ghost var s := State();
      ghost var bound := counter.numCreated;
      ghost var due := UpperBound(timers, now);
      ghost var live := LiveTimers(timers[..due], activeTimers);
      assert DistinctTimers(live) && (forall t :: t in live ==> t in activeTimers.Values && Restartable(t, now))
             && IdsBelow(Schedule(timers[due..], activeTimers), bound) by {
        LiveTimersExactly(timers[..due], activeTimers);
        SplitDue(s, now, InsertionOrder, bound);
        MidwayIdsBelow(Schedule(timers[due..], activeTimers), live, InsertionOrder, bound);
      }
      var expired := GetExpired(now);
      ran := expired;
      steps := RunCallbacks(calls, clock);
      ghost var s1 := State();
      Reset(expired, now, clock);
      assert State() == AfterExpiry(s, now, steps, InsertionOrder) by {
        var r := ResetLoop(expired, s1, now, InsertionOrder);
        assert State() == Schedule(Prune(r.entries, r.active.Keys), r.active);
      }
      assert Valid() by {
        AfterExpiryKeepsInv(s, now, steps, InsertionOrder, bound);
      }
    }
  }
}
