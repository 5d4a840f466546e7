/** The schedule both timer queues keep, as values: an ordering index of
    (expiration, timer id) entries sorted by expiration, and the table of
    live timers by id. Cancelling a timer only removes it from the table;
    its entry stays behind, is skipped when it comes due, and is pruned
    once it reaches the front. */
module TimerSchedule {
  import opened CInt
  import opened Timestamps
  import opened Timers
  import opened Wrappers

  datatype Entry = Entry(when: Timestamp, id: nat)

  function Key(e: Entry): int
  {
    e.when.microSecondsSinceEpoch
  }

  /** How entries with equal expirations stand: the multimap keeps them in
      insertion order; the heap, smallest first, compares (expiration, id)
      pairs. */
  datatype Order = InsertionOrder | IdOrder

  /** `a` may stand before `b` in the index. */
  predicate Precedes(a: Entry, b: Entry, order: Order)
  {
    Key(a) < Key(b) || (Key(a) == Key(b) && (order == InsertionOrder || a.id <= b.id))
  }

  ghost predicate SortedBy(es: seq<Entry>, order: Order)
  {
    forall i, j :: 0 <= i < j < |es| ==> Precedes(es[i], es[j], order)
  }

  predicate DistinctIds(es: seq<Entry>)
  {
    forall i, j :: 0 <= i < j < |es| ==> es[i].id != es[j].id
  }

  function IdSet(es: seq<Entry>): set<nat>
  {
    set e | e in es :: e.id
  }

  /** Every timer in the table is filed under its own sequence number. */
  predicate Keyed(active: map<nat, Timer>)
  {
    forall id :: id in active ==> active[id].sequence == id
  }

  predicate DistinctTimers(ts: seq<Timer>)
  {
    forall i, j :: 0 <= i < j < |ts| ==> ts[i].sequence != ts[j].sequence
  }

  function SequenceSet(ts: seq<Timer>): set<nat>
  {
    set t | t in ts :: t.sequence
  }

  datatype Schedule = Schedule(entries: seq<Entry>, active: map<nat, Timer>)

  /** What the queue keeps true between its operations: the index is sorted
      and holds one entry per timer, every live timer has its entry, and
      every id was handed out before `bound`. */
  ghost predicate Inv(s: Schedule, order: Order, bound: nat)
  {
    && SortedBy(s.entries, order)
    && DistinctIds(s.entries)
    && Keyed(s.active)
    && s.active.Keys <= IdSet(s.entries)
    && (forall e :: e in s.entries ==> e.id < bound)
  }

  /** What holds while `handleRead` runs between taking out the due
      timers and reset: the index is sorted with one entry per id, every
      timer in the table has an entry or is one of the `expired` timers,
      which have none, and every id was handed out before `bound`. */
  ghost predicate Midway(s: Schedule, expired: seq<Timer>, order: Order, bound: nat)
  {
    && SortedBy(s.entries, order)
    && DistinctIds(s.entries)
    && Keyed(s.active)
    && (forall e :: e in s.entries ==> e.id < bound)
    && DistinctTimers(expired)
    && (forall t :: t in expired ==> t.sequence < bound && t.sequence !in IdSet(s.entries))
    && s.active.Keys <= IdSet(s.entries) + SequenceSet(expired)
  }

  /** Every id in the index or the table was handed out before `bound`. */
  predicate IdsBelow(s: Schedule, bound: nat)
  {
    && (forall e :: e in s.entries ==> e.id < bound)
    && (forall id :: id in s.active ==> id < bound)
  }

  /** `upper_bound(when)`: the number of leading entries due at `when`. */
  function UpperBound(es: seq<Entry>, when: Timestamp): (n: nat)
    ensures n <= |es|
    ensures forall i :: 0 <= i < n ==> Key(es[i]) <= when.microSecondsSinceEpoch
    ensures n < |es| ==> when.microSecondsSinceEpoch < Key(es[n])
  {
    if es == [] || Key(es[0]) > when.microSecondsSinceEpoch then 0
    else 1 + UpperBound(es[1..], when)
  }

  /** In a sorted index everything from the upper bound on lies after `when`. */
  lemma UpperBoundSplits(es: seq<Entry>, when: Timestamp, order: Order)
    requires SortedBy(es, order)
    ensures forall i :: UpperBound(es, when) <= i < |es| ==> when.microSecondsSinceEpoch < Key(es[i])
  {
    var n := UpperBound(es, when);
    forall i | n <= i < |es|
      ensures when.microSecondsSinceEpoch < Key(es[i])
    {
      if i > n {
        assert Precedes(es[n], es[i], order);
      }
    }
  }

  /** The number of leading entries that may stand before `e`: where the
      multimap's emplace (after the equal range) and the heap's push put it. */
  function InsertPosition(es: seq<Entry>, e: Entry, order: Order): (p: nat)
    ensures p <= |es|
    ensures forall i :: 0 <= i < p ==> Precedes(es[i], e, order)
    ensures p < |es| ==> !Precedes(es[p], e, order)
  {
    if es == [] || !Precedes(es[0], e, order) then 0
    else 1 + InsertPosition(es[1..], e, order)
  }

  /** Under insertion order the position is the upper bound of the expiration. */
  lemma InsertPositionIsUpperBound(es: seq<Entry>, e: Entry)
    ensures InsertPosition(es, e, InsertionOrder) == UpperBound(es, e.when)
  {
  }

  function InsertEntry(es: seq<Entry>, e: Entry, order: Order): (r: seq<Entry>)
    ensures |r| == |es| + 1
  {
    var p := InsertPosition(es, e, order);
    es[..p] + [e] + es[p..]
  }

  /** Inserting adds exactly one copy of `e` and loses nothing. */
  lemma InsertEntryAddsOne(es: seq<Entry>, e: Entry, order: Order)
    ensures multiset(InsertEntry(es, e, order)) == multiset(es) + multiset{e}
  {
    var p := InsertPosition(es, e, order);
    assert es == es[..p] + es[p..];
  }

  /** Inserting keeps the index sorted and puts `e` after every entry that
      may stand before it. */
  lemma {:induction false} InsertEntrySorted(es: seq<Entry>, e: Entry, order: Order)
    requires SortedBy(es, order)
    ensures SortedBy(InsertEntry(es, e, order), order)
  {
    var p := InsertPosition(es, e, order);
    var r := InsertEntry(es, e, order);
    assert r == es[..p] + [e] + es[p..];
    forall i, j | 0 <= i < j < |r|
      ensures Precedes(r[i], r[j], order)
    {
      if j < p {
        assert r[i] == es[i] && r[j] == es[j];
      } else if j == p {
        assert r[i] == es[i];
      } else if i == p {
        assert r[j] == es[j - 1] && Precedes(e, es[p], order);
        if j - 1 > p {
          assert Precedes(es[p], es[j - 1], order);
        }
      } else if i < p {
        assert r[i] == es[i] && r[j] == es[j - 1];
        assert Precedes(es[i], es[j - 1], order);
      } else {
        assert r[i] == es[i - 1] && r[j] == es[j - 1];
      }
    }
  }

  /** Inserting adds `e` and keeps every entry already there. */
  lemma InsertEntryMembers(es: seq<Entry>, e: Entry, order: Order)
    ensures forall x :: x in InsertEntry(es, e, order) <==> x in es || x == e
    ensures IdSet(InsertEntry(es, e, order)) == IdSet(es) + {e.id}
  {
    var p := InsertPosition(es, e, order);
    var r := InsertEntry(es, e, order);
    assert r == es[..p] + [e] + es[p..];
    assert es == es[..p] + es[p..];
    assert forall x :: x in r <==> x in es[..p] || x == e || x in es[p..];
  }

  /** Inserting an entry whose id is new keeps ids distinct. */
  lemma {:induction false} InsertEntryDistinct(es: seq<Entry>, e: Entry, order: Order)
    requires DistinctIds(es) && e.id !in IdSet(es)
    ensures DistinctIds(InsertEntry(es, e, order))
  {
    var p := InsertPosition(es, e, order);
    var r := InsertEntry(es, e, order);
    assert r == es[..p] + [e] + es[p..];
    assert forall k :: 0 <= k < |es| ==> es[k].id != e.id by {
      forall k | 0 <= k < |es| ensures es[k].id != e.id {
        assert es[k].id in IdSet(es);
      }
    }
    forall i, j | 0 <= i < j < |r|
      ensures r[i].id != r[j].id
    {
      if i == p {
        assert r[j] == es[j - 1];
      } else if j == p {
        assert r[i] == es[i];
      } else {
        var i' := if i < p then i else i - 1;
        var j' := if j < p then j else j - 1;
        assert r[i] == es[i'] && r[j] == es[j'] && i' < j';
      }
    }
  }

  /** Filing a timer with a new id keeps the invariant. */
  lemma InsertFreshKeepsInv(s: Schedule, timer: Timer, when: Timestamp, order: Order, bound: nat)
    requires Inv(s, order, bound)
    requires timer.sequence !in IdSet(s.entries) && timer.sequence < bound
    ensures Inv(Schedule(InsertEntry(s.entries, Entry(when, timer.sequence), order), s.active[timer.sequence := timer]), order, bound)
  {
    var e := Entry(when, timer.sequence);
    InsertEntrySorted(s.entries, e, order);
    InsertEntryDistinct(s.entries, e, order);
    InsertEntryMembers(s.entries, e, order);
  }

  /** Whether inserting at `when` moves the earliest expiration. */
  predicate EarliestChanged(es: seq<Entry>, when: Timestamp)
  {
    es == [] || when.microSecondsSinceEpoch < Key(es[0])
  }

  /** The earliest expiration changes exactly when the new one lies strictly
      before every scheduled one, and then the new entry is at the front;
      otherwise the earliest expiration stays where it was. */
  lemma {:induction false} EarliestChangedMeansNewMinimum(es: seq<Entry>, e: Entry, order: Order)
    requires SortedBy(es, order)
    ensures EarliestChanged(es, e.when) <==> forall x :: x in es ==> Key(e) < Key(x)
    ensures EarliestChanged(es, e.when) ==> InsertEntry(es, e, order)[0] == e
    ensures !EarliestChanged(es, e.when) ==> Key(InsertEntry(es, e, order)[0]) == Key(es[0])
  {
    if EarliestChanged(es, e.when) && es != [] {
      forall x | x in es
        ensures Key(e) < Key(x)
      {
        var i :| 0 <= i < |es| && es[i] == x;
        if i > 0 {
          assert Precedes(es[0], es[i], order);
        }
      }
    }
    if !EarliestChanged(es, e.when) {
      assert Precedes(es[0], e, order) || Key(es[0]) == Key(e);
      var p := InsertPosition(es, e, order);
      if p == 0 {
        assert Key(es[0]) == Key(e);
        assert InsertEntry(es, e, order)[0] == e;
      } else {
        assert InsertEntry(es, e, order)[0] == es[0];
      }
    }
  }

  /** The timers of `es` that are still in the table, in the order of `es`. */
  function LiveTimers(es: seq<Entry>, active: map<nat, Timer>): (r: seq<Timer>)
    ensures |r| <= |es|
  {
    if es == [] then []
    else
      var last := es[|es| - 1];
      LiveTimers(es[..|es| - 1], active) + (if last.id in active then [active[last.id]] else [])
  }

  /** The live timers are exactly the table's timers that have an entry in
      `es`, each once when the ids of `es` are distinct. */
  lemma {:induction false} LiveTimersExactly(es: seq<Entry>, active: map<nat, Timer>)
    requires Keyed(active)
    ensures forall t :: t in LiveTimers(es, active) ==> t.sequence in active && active[t.sequence] == t
    ensures SequenceSet(LiveTimers(es, active)) == IdSet(es) * active.Keys
    ensures DistinctIds(es) ==> DistinctTimers(LiveTimers(es, active))
    decreases |es|
  {
    if es != [] {
      var init := es[..|es| - 1];
      var last := es[|es| - 1];
      LiveTimersExactly(init, active);
      assert es == init + [last];
      assert IdSet(es) == IdSet(init) + {last.id};
      var r := LiveTimers(es, active);
      var r0 := LiveTimers(init, active);
      if last.id in active {
        assert r == r0 + [active[last.id]];
        assert SequenceSet(r) == SequenceSet(r0) + {last.id};
        if DistinctIds(es) {
          assert DistinctIds(init) by {
            forall i, j | 0 <= i < j < |init| ensures init[i].id != init[j].id {
              assert init[i] == es[i] && init[j] == es[j];
            }
          }
          assert last.id !in IdSet(init) by {
            forall x | x in init ensures x.id != last.id {
              var i :| 0 <= i < |init| && init[i] == x;
              assert es[i] == x;
            }
          }
          forall i, j | 0 <= i < j < |r| ensures r[i].sequence != r[j].sequence {
            if j == |r| - 1 {
              assert r[i] in r0;
            } else {
              assert r[i] == r0[i] && r[j] == r0[j];
            }
          }
        }
      } else {
        assert r == r0;
        if DistinctIds(es) {
          assert DistinctIds(init) by {
            forall i, j | 0 <= i < j < |init| ensures init[i].id != init[j].id {
              assert init[i] == es[i] && init[j] == es[j];
            }
          }
        }
      }
    }
  }

  /** Whether a timer can be restarted at `now` without leaving the 64-bit
      range of a timestamp. */
  predicate Restartable(t: Timer, now: Timestamp)
  {
    t.repeat ==> now.microSecondsSinceEpoch + t.interval <= Int64Max
  }

  /** One turn of reset's loop: a repeating timer still in the table is
      restarted at `now` and filed again; any other timer leaves the table. */
  function ResetStep(t: Timer, s: Schedule, now: Timestamp, order: Order): Schedule
    requires Restartable(t, now)
  {
    if t.repeat && t.sequence in s.active then
      Schedule(InsertEntry(s.entries, Entry(RestartedExpiration(t.interval, now), t.sequence), order), s.active)
    else
      Schedule(s.entries, s.active - {t.sequence})
  }

  /** `t` was restarted at `now`. */
  predicate RestartedAt(t: Timer, now: Timestamp)
    reads t
  {
    Restartable(t, now) && t.expiration == RestartedExpiration(t.interval, now)
  }

  function ResetLoop(expired: seq<Timer>, s: Schedule, now: Timestamp, order: Order): Schedule
    requires forall t :: t in expired ==> Restartable(t, now)
  {
    if expired == [] then s
    else ResetLoop(expired[1..], ResetStep(expired[0], s, now, order), now, order)
  }

  /** reset's loop never brings a timer back into the table, and keeps a
      timer only when it repeats. */
  lemma {:induction false} ResetLoopShrinks(expired: seq<Timer>, s: Schedule, now: Timestamp, order: Order)
    requires forall t :: t in expired ==> Restartable(t, now)
    ensures ResetLoop(expired, s, now, order).active.Keys <= s.active.Keys
    ensures forall id :: id in ResetLoop(expired, s, now, order).active ==> ResetLoop(expired, s, now, order).active[id] == s.active[id]
    ensures forall t :: t in expired && !t.repeat ==> t.sequence !in ResetLoop(expired, s, now, order).active
    ensures forall id :: id in s.active && id !in SequenceSet(expired) ==> id in ResetLoop(expired, s, now, order).active
    decreases |expired|
  {
    if expired != [] {
      var s' := ResetStep(expired[0], s, now, order);
      ResetLoopShrinks(expired[1..], s', now, order);
      assert SequenceSet(expired) == {expired[0].sequence} + SequenceSet(expired[1..]) by {
        assert expired == [expired[0]] + expired[1..];
      }
      forall t | t in expired && !t.repeat
        ensures t.sequence !in ResetLoop(expired, s, now, order).active
      {
        if t != expired[0] {
          assert t in expired[1..];
        }
      }
    }
  }

  /** The loop's invariant: the index stays sorted with one entry per id,
      and every timer in the table has an entry or is still waiting in
      `expired` for its turn. */
  lemma {:induction false} ResetLoopKeepsInv(expired: seq<Timer>, s: Schedule, now: Timestamp, order: Order, bound: nat)
    requires forall t :: t in expired ==> Restartable(t, now)
    requires Midway(s, expired, order, bound)
    ensures Inv(ResetLoop(expired, s, now, order), order, bound)
    decreases |expired|
  {
    if expired == [] {
      return;
    }
    var t := expired[0];
    var rest := expired[1..];
    var s' := ResetStep(t, s, now, order);
    assert SequenceSet(expired) == SequenceSet(rest) + {t.sequence} by {
      assert expired == [t] + rest;
    }
    assert DistinctTimers(rest) by {
      forall i, j | 0 <= i < j < |rest| ensures rest[i].sequence != rest[j].sequence {
        assert rest[i] == expired[i + 1] && rest[j] == expired[j + 1];
      }
    }
    assert forall u :: u in rest ==> u.sequence != t.sequence by {
      forall u | u in rest ensures u.sequence != t.sequence {
        var j :| 0 <= j < |rest| && rest[j] == u;
        assert expired[j + 1] == u;
      }
    }
    if t.repeat && t.sequence in s.active {
      var e := Entry(RestartedExpiration(t.interval, now), t.sequence);
      InsertEntrySorted(s.entries, e, order);
      InsertEntryDistinct(s.entries, e, order);
      InsertEntryMembers(s.entries, e, order);
    } else {
      assert s'.active.Keys == s.active.Keys - {t.sequence};
    }
    ResetLoopKeepsInv(rest, s', now, order, bound);
  }

  /** The number of leading entries whose timer is no longer in the table. */
  function StaleCount(es: seq<Entry>, live: set<nat>): (n: nat)
    ensures n <= |es|
    ensures forall i :: 0 <= i < n ==> es[i].id !in live
    ensures n < |es| ==> es[n].id in live
  {
    if es == [] || es[0].id in live then 0
    else 1 + StaleCount(es[1..], live)
  }

  /** The index once stale entries have been popped from the front. */
  function Prune(es: seq<Entry>, live: set<nat>): seq<Entry>
  {
    es[StaleCount(es, live)..]
  }

  /** The expiration to re-arm for: the front's, or the invalid timestamp. */
  function NextExpire(es: seq<Entry>): Timestamp
  {
    if es == [] then Invalid else es[0].when
  }

  /** A suffix of a sorted index with distinct ids is one too. */
  lemma SuffixSorted(es: seq<Entry>, k: nat, order: Order)
    requires k <= |es| && SortedBy(es, order) && DistinctIds(es)
    ensures SortedBy(es[k..], order) && DistinctIds(es[k..])
  {
    var r := es[k..];
    forall i, j | 0 <= i < j < |r|
      ensures Precedes(r[i], r[j], order) && r[i].id != r[j].id
    {
      assert r[i] == es[k + i] && r[j] == es[k + j];
    }
  }

  /** Splitting the index at `now`: what is not yet due, with the whole
      table, is midway with the due timers still live. */
  lemma {:induction false} SplitDue(s: Schedule, now: Timestamp, order: Order, bound: nat)
    requires Inv(s, order, bound)
    ensures var due := UpperBound(s.entries, now);
            var s0 := Schedule(s.entries[due..], s.active);
            Midway(s0, LiveTimers(s.entries[..due], s.active), order, bound)
  {
    var due := UpperBound(s.entries, now);
    var done := s.entries[..due];
    var rest := s.entries[due..];
    var expired := LiveTimers(done, s.active);
    SplitDistinct(s.entries, due);
    SuffixSorted(s.entries, due, order);
    LiveTimersExactly(done, s.active);
    assert forall t :: t in expired ==> t.sequence in IdSet(done) by {
      forall t | t in expired ensures t.sequence in IdSet(done) {
        assert t.sequence in SequenceSet(expired);
      }
    }
  }

  /** Midway, every id in the index or the table is below the bound. */
  lemma MidwayIdsBelow(s: Schedule, expired: seq<Timer>, order: Order, bound: nat)
    requires Midway(s, expired, order, bound)
    ensures IdsBelow(s, bound)
  {
    forall id | id in s.active
      ensures id < bound
    {
      if id in IdSet(s.entries) {
        var e :| e in s.entries && e.id == id;
      } else {
        var t :| t in expired && t.sequence == id;
      }
    }
  }

  /** Cutting an index with distinct ids splits its ids into two disjoint
      sets. */
  lemma SplitDistinct(es: seq<Entry>, k: nat)
    requires k <= |es| && DistinctIds(es)
    ensures DistinctIds(es[..k])
    ensures IdSet(es[..k]) !! IdSet(es[k..])
    ensures IdSet(es) == IdSet(es[..k]) + IdSet(es[k..])
  {
    var done := es[..k];
    var rest := es[k..];
    assert DistinctIds(done) by {
      forall i, j | 0 <= i < j < |done| ensures done[i].id != done[j].id {
        assert done[i] == es[i] && done[j] == es[j];
      }
    }
    forall x, y | x in done && y in rest
      ensures x.id != y.id
    {
      var i :| 0 <= i < |done| && done[i] == x;
      var j :| 0 <= j < |rest| && rest[j] == y;
      assert es[i] == x && es[k + j] == y;
    }
    assert es == done + rest;
  }

  /** Pruning stale entries from the front keeps the invariant. */
  lemma {:induction false} PruneKeepsInv(s: Schedule, order: Order, bound: nat)
    requires Inv(s, order, bound)
    ensures Inv(Schedule(Prune(s.entries, s.active.Keys), s.active), order, bound)
  {
    var k := StaleCount(s.entries, s.active.Keys);
    SuffixSorted(s.entries, k, order);
    SuffixKeepsLive(s.entries, k, s.active.Keys);
  }

  /** Dropping leading entries none of which is live keeps an entry for
      every live id. */
  lemma SuffixKeepsLive(es: seq<Entry>, k: nat, live: set<nat>)
    requires k <= |es| && live <= IdSet(es)
    requires forall i :: 0 <= i < k ==> es[i].id !in live
    ensures live <= IdSet(es[k..])
  {
    forall id | id in live
      ensures id in IdSet(es[k..])
    {
      var i :| 0 <= i < |es| && es[i].id == id;
      assert es[k..][i - k] == es[i];
    }
  }

  // ----- What the callbacks run by handleRead do to the queue -----

  /** A call a timer's callback makes on the loop thread while `handleRead`
      runs the due timers: `addTimer` (through `runAt`, `runAfter` or
      `runEvery`) or `cancel`. Both take effect at once. */
  datatype CallbackCall = CallsAddTimer(when: Timestamp, interval: int) | CallsCancel(id: nat)

  /** What such a call did: filed a new timer due at `when`, or took an id
      out of the table. */
  datatype CallbackStep = Added(timer: Timer, when: Timestamp) | Cancelled(id: nat)

  function ApplyStep(s: Schedule, step: CallbackStep, order: Order): Schedule
  {
    match step
    case Added(t, when) => Schedule(InsertEntry(s.entries, Entry(when, t.sequence), order), s.active[t.sequence := t])
    case Cancelled(id) => Schedule(s.entries, s.active - {id})
  }

  /** The schedule after the steps, in the order they happened. */
  function ApplyCallbacks(s: Schedule, steps: seq<CallbackStep>, order: Order): Schedule
  {
    if steps == [] then s
    else ApplyStep(ApplyCallbacks(s, steps[..|steps| - 1], order), steps[|steps| - 1], order)
  }

  function AddedCount(steps: seq<CallbackStep>): nat
  {
    if steps == [] then 0
    else AddedCount(steps[..|steps| - 1]) + (if steps[|steps| - 1].Added? then 1 else 0)
  }

  function AddedIds(steps: seq<CallbackStep>): set<nat>
  {
    set step | step in steps && step.Added? :: step.timer.sequence
  }

  function CancelledIds(steps: seq<CallbackStep>): set<nat>
  {
    set step | step in steps && step.Cancelled? :: step.id
  }

  /** Each new timer took the next sequence number, counting from `bound`. */
  ghost predicate NumberedFrom(steps: seq<CallbackStep>, bound: nat)
  {
    forall i :: 0 <= i < |steps| && steps[i].Added? ==> steps[i].timer.sequence == bound + AddedCount(steps[..i])
  }

  /** `step` is what `call` did. */
  predicate Enacts(step: CallbackStep, call: CallbackCall)
  {
    match call
    case CallsAddTimer(when, interval) => step.Added? && step.when == when && step.timer.interval == interval
    case CallsCancel(id) => step == Cancelled(id)
  }

  /** The steps are what the calls did, one each, with new sequence numbers
      handed out from `bound` on. */
  ghost predicate Performs(steps: seq<CallbackStep>, calls: seq<CallbackCall>, bound: nat)
  {
    && |steps| == |calls|
    && NumberedFrom(steps, bound)
    && (forall i :: 0 <= i < |steps| ==> Enacts(steps[i], calls[i]))
  }

  /** The timer fd after the calls: each new timer that became the earliest
      re-armed it. */
  function ArmedAfter(fd: Option<TimeSpec>, s: Schedule, steps: seq<CallbackStep>, order: Order, clock: Timestamp)
    : Option<TimeSpec>
  {
    if steps == [] then fd
    else
      var init := steps[..|steps| - 1];
      match steps[|steps| - 1]
      case Added(_, when) =>
        if EarliestChanged(ApplyCallbacks(s, init, order).entries, when) then Some(HowMuchTimeFromNow(when, clock))
        else ArmedAfter(fd, s, init, order, clock)
      case Cancelled(_) => ArmedAfter(fd, s, init, order, clock)
  }

  /** A prefix of numbered steps is numbered the same way. */
  lemma NumberedPrefix(steps: seq<CallbackStep>, bound: nat, n: nat)
    requires NumberedFrom(steps, bound) && n <= |steps|
    ensures NumberedFrom(steps[..n], bound)
  {
    var p := steps[..n];
    forall i | 0 <= i < |p| && p[i].Added?
      ensures p[i].timer.sequence == bound + AddedCount(p[..i])
    {
      assert p[..i] == steps[..i];
    }
  }

  /** Appending a step that, when it adds, takes the next number. */
  lemma NumberedAppend(steps: seq<CallbackStep>, step: CallbackStep, bound: nat)
    requires NumberedFrom(steps, bound)
    requires step.Added? ==> step.timer.sequence == bound + AddedCount(steps)
    ensures NumberedFrom(steps + [step], bound)
    ensures AddedCount(steps + [step]) == AddedCount(steps) + (if step.Added? then 1 else 0)
  {
    var r := steps + [step];
    assert r[..|r| - 1] == steps;
    forall i | 0 <= i < |r| && r[i].Added?
      ensures r[i].timer.sequence == bound + AddedCount(r[..i])
    {
      if i < |steps| {
        assert r[..i] == steps[..i];
      }
    }
  }

  /** The numbers handed out to new timers are distinct and lie in
      [bound, bound + AddedCount(steps)). */
  lemma {:induction false} NumberedRange(steps: seq<CallbackStep>, bound: nat)
    requires NumberedFrom(steps, bound)
    ensures forall i :: 0 <= i < |steps| && steps[i].Added? ==>
              bound <= steps[i].timer.sequence < bound + AddedCount(steps)
    decreases |steps|
  {
    if steps != [] {
      var n := |steps| - 1;
      NumberedPrefix(steps, bound, n);
      NumberedRange(steps[..n], bound);
      assert steps == steps[..n] + [steps[n]];
      forall i | 0 <= i < n && steps[i].Added?
        ensures bound <= steps[i].timer.sequence < bound + AddedCount(steps)
      {
        assert steps[..n][i] == steps[i];
      }
    }
  }

  /** One step keeps the schedule midway; a new timer raises the bound. */
  lemma ApplyStepKeepsMidway(s: Schedule, expired: seq<Timer>, step: CallbackStep, order: Order, bound: nat)
    requires Midway(s, expired, order, bound)
    requires step.Added? ==> step.timer.sequence == bound
    ensures Midway(ApplyStep(s, step, order), expired, order, if step.Added? then bound + 1 else bound)
  {
    if step.Added? {
      var e := Entry(step.when, step.timer.sequence);
      assert e.id !in IdSet(s.entries);
      InsertEntrySorted(s.entries, e, order);
      InsertEntryDistinct(s.entries, e, order);
      InsertEntryMembers(s.entries, e, order);
    }
  }

  /** The calls made by callbacks keep the schedule midway, with the bound
      raised by the number of timers they added. */
  lemma {:induction false} ApplyCallbacksKeepsMidway(s: Schedule, expired: seq<Timer>, steps: seq<CallbackStep>,
                                                     order: Order, bound: nat)
    requires Midway(s, expired, order, bound) && NumberedFrom(steps, bound)
    ensures Midway(ApplyCallbacks(s, steps, order), expired, order, bound + AddedCount(steps))
    decreases |steps|
  {
    if steps != [] {
      var n := |steps| - 1;
      NumberedPrefix(steps, bound, n);
      ApplyCallbacksKeepsMidway(s, expired, steps[..n], order, bound);
      ApplyStepKeepsMidway(ApplyCallbacks(s, steps[..n], order), expired, steps[n], order, bound + AddedCount(steps[..n]));
    }
  }

  /** Only new timers come into the table, and a timer that was not
      added and is cancelled is gone. */
  lemma {:induction false} ApplyCallbacksAdmits(s: Schedule, steps: seq<CallbackStep>, order: Order)
    ensures var r := ApplyCallbacks(s, steps, order).active;
            && r.Keys <= s.active.Keys + AddedIds(steps)
            && (forall id :: id in CancelledIds(steps) && id !in AddedIds(steps) ==> id !in r)
    decreases |steps|
  {
    if steps != [] {
      var n := |steps| - 1;
      var init := steps[..n];
      ApplyCallbacksAdmits(s, init, order);
      assert steps == init + [steps[n]];
      assert AddedIds(steps) == AddedIds(init) + (if steps[n].Added? then {steps[n].timer.sequence} else {});
      assert CancelledIds(steps) == CancelledIds(init) + (if steps[n].Cancelled? then {steps[n].id} else {});
    }
  }

  /** A timer already in the table that nobody cancels stays, unchanged. */
  lemma {:induction false} ApplyCallbacksKeepsOld(s: Schedule, steps: seq<CallbackStep>, order: Order, bound: nat)
    requires NumberedFrom(steps, bound) && IdsBelow(s, bound)
    ensures var r := ApplyCallbacks(s, steps, order).active;
            forall id :: id in s.active && id !in CancelledIds(steps) ==> id in r && r[id] == s.active[id]
    decreases |steps|
  {
    if steps != [] {
      var n := |steps| - 1;
      var init := steps[..n];
      NumberedPrefix(steps, bound, n);
      ApplyCallbacksKeepsOld(s, init, order, bound);
      assert steps == init + [steps[n]];
      assert CancelledIds(init) <= CancelledIds(steps);
      assert steps[n].Added? ==> steps[n].timer.sequence >= bound;
    }
  }

  /** A timer a callback added and nobody cancels is in the table. */
  lemma {:induction false} ApplyCallbacksKeepsNew(s: Schedule, steps: seq<CallbackStep>, order: Order, bound: nat)
    requires NumberedFrom(steps, bound)
    ensures var r := ApplyCallbacks(s, steps, order).active;
            forall i :: 0 <= i < |steps| && steps[i].Added? && steps[i].timer.sequence !in CancelledIds(steps)
              ==> steps[i].timer.sequence in r && r[steps[i].timer.sequence] == steps[i].timer
    decreases |steps|
  {
    if steps != [] {
      var n := |steps| - 1;
      var init := steps[..n];
      var last := steps[n];
      NumberedPrefix(steps, bound, n);
      ApplyCallbacksKeepsNew(s, init, order, bound);
      assert steps == init + [last];
      assert CancelledIds(init) <= CancelledIds(steps);
      var r := ApplyCallbacks(s, steps, order).active;
      forall i | 0 <= i < n && steps[i].Added? && steps[i].timer.sequence !in CancelledIds(steps)
        ensures steps[i].timer.sequence in r && r[steps[i].timer.sequence] == steps[i].timer
      {
        assert init[i] == steps[i];
        if last.Added? {
          NumberedRange(init, bound);
          assert last.timer.sequence == bound + AddedCount(init);
        }
      }
    }
  }

  /** The schedule once the timers due at `now` have been taken out, their
      callbacks have made the calls `steps` records, and reset has run. */
  function AfterExpiry(s: Schedule, now: Timestamp, steps: seq<CallbackStep>, order: Order): Schedule
    requires forall id :: id in s.active ==> Restartable(s.active[id], now)
    requires Keyed(s.active)
  {
    var due := UpperBound(s.entries, now);
    var expired := LiveTimers(s.entries[..due], s.active);
    LiveTimersExactly(s.entries[..due], s.active);
    var s1 := ResetLoop(expired, ApplyCallbacks(Schedule(s.entries[due..], s.active), steps, order), now, order);
    Schedule(Prune(s1.entries, s1.active.Keys), s1.active)
  }

  /** A whole `handleRead` keeps the invariant, with the bound raised by
      the timers the callbacks added. Only those timers enter the table, a
      cancelled timer that was not added there is gone, a timer the
      callbacks added and did not cancel stays, and a live timer (or
      nothing) heads the index. */
  lemma {:induction false} AfterExpiryKeepsInv(s: Schedule, now: Timestamp, steps: seq<CallbackStep>, order: Order,
                                               bound: nat)
    requires Inv(s, order, bound)
    requires forall id :: id in s.active ==> Restartable(s.active[id], now)
    requires NumberedFrom(steps, bound)
    ensures Inv(AfterExpiry(s, now, steps, order), order, bound + AddedCount(steps))
    ensures AfterExpiry(s, now, steps, order).active.Keys <= s.active.Keys + AddedIds(steps)
    ensures forall id :: id in CancelledIds(steps) && id !in AddedIds(steps) ==> id !in AfterExpiry(s, now, steps, order).active
    ensures forall i :: 0 <= i < |steps| && steps[i].Added? && steps[i].timer.sequence !in CancelledIds(steps)
              ==> steps[i].timer.sequence in AfterExpiry(s, now, steps, order).active
                  && AfterExpiry(s, now, steps, order).active[steps[i].timer.sequence] == steps[i].timer
    ensures var es := AfterExpiry(s, now, steps, order).entries;
            es == [] || es[0].id in AfterExpiry(s, now, steps, order).active
  {
    var due := UpperBound(s.entries, now);
    var expired := LiveTimers(s.entries[..due], s.active);
    var s0 := Schedule(s.entries[due..], s.active);
    LiveTimersExactly(s.entries[..due], s.active);
    SplitDue(s, now, order, bound);
    ApplyCallbacksKeepsMidway(s0, expired, steps, order, bound);
    ApplyCallbacksAdmits(s0, steps, order);
    ApplyCallbacksKeepsOld(s0, steps, order, bound);
    ApplyCallbacksKeepsNew(s0, steps, order, bound);
    NumberedRange(steps, bound);
    var s1 := ApplyCallbacks(s0, steps, order);
    ResetLoopKeepsInv(expired, s1, now, order, bound + AddedCount(steps));
    ResetLoopShrinks(expired, s1, now, order);
    PruneKeepsInv(ResetLoop(expired, s1, now, order), order, bound + AddedCount(steps));
    forall i | 0 <= i < |steps| && steps[i].Added?
      ensures steps[i].timer.sequence !in SequenceSet(expired)
    {
      assert steps[i].timer.sequence >= bound;
    }
  }

  /** A timer out of the table that the callbacks do not add never comes
      due again: it is not among the timers taken out, and it stays out. */
  lemma CancelledStaysCancelled(s: Schedule, now: Timestamp, steps: seq<CallbackStep>, order: Order, id: nat,
                                bound: nat)
    requires Inv(s, order, bound) && id !in s.active
    requires forall i :: i in s.active ==> Restartable(s.active[i], now)
    requires NumberedFrom(steps, bound) && id !in AddedIds(steps)
    ensures forall t :: t in LiveTimers(s.entries[..UpperBound(s.entries, now)], s.active) ==> t.sequence != id
    ensures id !in AfterExpiry(s, now, steps, order).active
  {
    AfterExpiryKeepsInv(s, now, steps, order, bound);
    LiveTimersExactly(s.entries[..UpperBound(s.entries, now)], s.active);
  }

  /** `timerfd_settime`'s relative time value. */
  datatype TimeSpec = TimeSpec(tvSec: int, tvNsec: int)

  const MinArmDelay: int := 100

  /** howMuchTimeFromNow: the delay from `clock` to `when` in microseconds,
      raised to at least 100, as seconds and nanoseconds. */
  function HowMuchTimeFromNow(when: Timestamp, clock: Timestamp): TimeSpec
  {
    var delta := when.microSecondsSinceEpoch - clock.microSecondsSinceEpoch;
    var microseconds := if delta < MinArmDelay then MinArmDelay else delta;
    TimeSpec(CDiv(microseconds, MicroSecondsPerSecond), CMod(microseconds, MicroSecondsPerSecond) * 1000)
  }

  /** The fd is never armed for less than 100 microseconds; otherwise the
      delay is exactly the distance to `when`, and the nanoseconds stay
      below one second. */
  lemma HowMuchTimeFromNowBounds(when: Timestamp, clock: Timestamp)
    ensures var ts := HowMuchTimeFromNow(when, clock);
            && 0 <= ts.tvSec && 0 <= ts.tvNsec < 1000 * MicroSecondsPerSecond && ts.tvNsec % 1000 == 0
            && ts.tvSec * MicroSecondsPerSecond + ts.tvNsec / 1000
               == (if when.microSecondsSinceEpoch - clock.microSecondsSinceEpoch < MinArmDelay then MinArmDelay
                   else when.microSecondsSinceEpoch - clock.microSecondsSinceEpoch)
            && ts.tvSec * 1000 * MicroSecondsPerSecond + ts.tvNsec >= 1000 * MinArmDelay
  {
    var delta := when.microSecondsSinceEpoch - clock.microSecondsSinceEpoch;
    var microseconds := if delta < MinArmDelay then MinArmDelay else delta;
    CDivNonNegative(microseconds, MicroSecondsPerSecond);
  }
}
