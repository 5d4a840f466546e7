/** The `poll(2)` poller's registration table as values: the vector of
    `pollfd` slots, the slot index each registered fd holds, and the interest
    mask each registered channel has. `PollPoller` keeps exactly these three
    and changes them only by the three edits defined here: appending a slot,
    rewriting a slot in place, and swap-and-pop removal. */
module PollTable {
  import opened PollEvents

  /** A `struct pollfd`: the descriptor (negative while the slot is masked),
      the requested events and the events the kernel returned. */
  datatype PollFd = PollFd(fd: int, events: Mask, revents: Mask)

  /** The descriptor a slot belongs to, undoing the `-fd - 1` mask. */
  function SlotOwner(p: PollFd): int
  {
    if p.fd < 0 then -p.fd - 1 else p.fd
  }

  /** The slot `updateChannel` appends for a new channel: never masked, even
      when the channel has no interest yet. */
  function NewSlot(fd: int, events: Mask): (p: PollFd)
    requires fd >= 0
    ensures SlotOwner(p) == fd && p.fd >= 0
    ensures p.events == events && p.revents == {}
  {
    PollFd(fd, events, {})
  }

  /** The slot `updateChannel` writes over a known channel's slot: masked
      exactly when the channel has no interest, with the returned events
      cleared. */
  function RewrittenSlot(fd: int, events: Mask): (p: PollFd)
    requires fd >= 0
    ensures SlotOwner(p) == fd
    ensures p.fd < 0 <==> IsNoneEvent(events)
    ensures p.events == events && p.revents == {}
  {
    PollFd(if IsNoneEvent(events) then -fd - 1 else fd, events, {})
  }

  /** `removeChannel`'s slot edit: the last slot moves into position i and
      the vector shrinks by one. */
  function SwapPop(slots: seq<PollFd>, i: nat): (r: seq<PollFd>)
    requires i < |slots|
    ensures |r| == |slots| - 1
    ensures forall k :: 0 <= k < |r| && k != i ==> r[k] == slots[k]
    ensures i < |r| ==> r[i] == slots[|slots| - 1]
  {
    slots[i := slots[|slots| - 1]][..|slots| - 1]
  }

  /** The swap-and-pop removes the freed slot and nothing else. */
  lemma SwapPopPermutes(slots: seq<PollFd>, i: nat)
    requires i < |slots|
    ensures multiset(SwapPop(slots, i)) == multiset(slots) - multiset{slots[i]}
  {
    var last := |slots| - 1;
    var r := SwapPop(slots, i);
    if i == last {
      assert slots == r + [slots[i]];
    } else {
      assert slots == r[..i] + [slots[i]] + r[i + 1..] + [slots[last]];
      assert r == r[..i] + [slots[last]] + r[i + 1..];
    }
  }

  /** A slot agrees with its channel's interest: the same events, and masked
      only when there are none. */
  predicate SlotMatches(p: PollFd, events: Mask)
  {
    p.events == events && (p.fd < 0 ==> IsNoneEvent(events))
  }

  /** The index map and the slots name each other: every registered fd is a
      valid descriptor whose index names a slot that belongs to it, and every
      slot belongs to a registered fd whose index names it. */
  predicate Indexed(slots: seq<PollFd>, index: map<int, int>)
  {
    && (forall fd | fd in index :: fd >= 0 && 0 <= index[fd] < |slots|)
    && (forall fd | fd in index :: 0 <= index[fd] < |slots| ==> SlotOwner(slots[index[fd]]) == fd)
    && (forall i | 0 <= i < |slots| :: SlotOwner(slots[i]) in index && index[SlotOwner(slots[i])] == i)
  }

  /** The slots of the fds in `interest` hold that interest. */
  predicate Matches(slots: seq<PollFd>, index: map<int, int>, interest: map<int, Mask>)
  {
    forall fd | fd in interest :: fd in index && 0 <= index[fd] < |slots| && SlotMatches(slots[index[fd]], interest[fd])
  }

  /** The kernel reports nothing for a masked slot. */
  predicate QuietMasked(slots: seq<PollFd>)
  {
    forall i | 0 <= i < |slots| :: slots[i].fd < 0 ==> slots[i].revents == {}
  }

  /** The whole table invariant. */
  predicate TableOk(slots: seq<PollFd>, index: map<int, int>, interest: map<int, Mask>)
  {
    Indexed(slots, index) && index.Keys == interest.Keys && Matches(slots, index, interest) && QuietMasked(slots)
  }

  /** Every slot has a distinct owner, so there is one slot per registered fd. */
  lemma IndexedCounts(slots: seq<PollFd>, index: map<int, int>)
    requires Indexed(slots, index)
    ensures forall i, j | 0 <= i < j < |slots| :: SlotOwner(slots[i]) != SlotOwner(slots[j])
  {
  }

  // ---------------------------------------------------------------------
  // The three edits

  /** Registering a new fd appends a slot at the end and keeps the table. */
  lemma {:induction false} AppendKeepsTable(slots: seq<PollFd>, index: map<int, int>, interest: map<int, Mask>,
                                            fd: int, events: Mask)
    requires TableOk(slots, index, interest)
    requires fd >= 0 && fd !in index
    ensures TableOk(slots + [NewSlot(fd, events)], index[fd := |slots|], interest[fd := events])
  {
    var s := slots + [NewSlot(fd, events)];
    var ix := index[fd := |slots|];
    assert forall i | 0 <= i < |slots| :: s[i] == slots[i];
    assert forall g | g in index :: ix[g] == index[g] && SlotOwner(s[ix[g]]) == g;
    forall i | 0 <= i < |s|
      ensures SlotOwner(s[i]) in ix && ix[SlotOwner(s[i])] == i
    {
      if i < |slots| {
        assert SlotOwner(s[i]) == SlotOwner(slots[i]) != fd;
      }
    }
  }

  /** Rewriting a registered fd's slot with its new interest keeps the table,
      whatever that slot held before. */
  lemma {:induction false} RewriteKeepsTable(slots: seq<PollFd>, index: map<int, int>, interest: map<int, Mask>,
                                             fd: int, events: Mask)
    requires Indexed(slots, index) && index.Keys == interest.Keys && QuietMasked(slots)
    requires fd in index && Matches(slots, index, interest - {fd})
    ensures 0 <= index[fd] < |slots|
    ensures TableOk(slots[index[fd] := RewrittenSlot(fd, events)], index, interest[fd := events])
  {
    var i := index[fd];
    var s := slots[i := RewrittenSlot(fd, events)];
    assert SlotOwner(s[i]) == fd == SlotOwner(slots[i]);
    assert forall k | 0 <= k < |s| :: SlotOwner(s[k]) == SlotOwner(slots[k]);
    forall g | g in interest[fd := events]
      ensures g in index && 0 <= index[g] < |s| && SlotMatches(s[index[g]], interest[fd := events][g])
    {
      if g != fd {
        assert g in interest - {fd};
        assert index[g] != i;
      }
    }
  }

  /** The index map after `removeChannel`: fd is gone and the fd whose slot
      moved into position i is re-indexed to i. */
  function RemovedIndex(slots: seq<PollFd>, index: map<int, int>, fd: int): (r: map<int, int>)
    requires Indexed(slots, index) && fd in index
    ensures r.Keys == index.Keys - {fd}
  {
    var i := index[fd];
    var moved := SlotOwner(slots[|slots| - 1]);
    if i == |slots| - 1 then index - {fd}
    else (index - {fd})[moved := i]
  }

  /** Removing a registered fd whose slot is masked keeps the table. */
  lemma {:induction false} RemoveKeepsTable(slots: seq<PollFd>, index: map<int, int>, interest: map<int, Mask>, fd: int)
    requires TableOk(slots, index, interest) && fd in index
    ensures TableOk(SwapPop(slots, index[fd]), RemovedIndex(slots, index, fd), interest - {fd})
  {
    var i := index[fd];
    var last := |slots| - 1;
    var s := SwapPop(slots, i);
    var ix := RemovedIndex(slots, index, fd);
    var moved := SlotOwner(slots[last]);
    assert index[moved] == last;
    forall g | g in ix
      ensures g >= 0 && 0 <= ix[g] < |s| && SlotOwner(s[ix[g]]) == g
    {
      if g == moved {
        assert i != last;
      } else {
        assert index[g] != last && index[g] != i;
      }
    }
    forall k | 0 <= k < |s|
      ensures SlotOwner(s[k]) in ix && ix[SlotOwner(s[k])] == k
    {
      if k == i {
        assert s[k] == slots[last];
      } else {
        assert s[k] == slots[k];
        assert SlotOwner(slots[k]) != fd && SlotOwner(slots[k]) != moved;
      }
    }
    forall g | g in interest - {fd}
      ensures g in ix && 0 <= ix[g] < |s| && SlotMatches(s[ix[g]], (interest - {fd})[g])
    {
      if g == moved {
        assert s[ix[g]] == slots[last];
      } else {
        assert s[ix[g]] == slots[index[g]];
      }
    }
  }

  // ---------------------------------------------------------------------
  // Reporting ready slots

  /** The slots with returned events, in slot order, starting at slot i and
      taking at most n of them: the slots `fillActiveChannels` reports. */
  function ReadyFrom(slots: seq<PollFd>, i: nat, n: int): (r: seq<nat>)
    requires i <= |slots|
    ensures n >= 0 ==> |r| <= n
    ensures forall k :: 0 <= k < |r| ==> i <= r[k] < |slots| && slots[r[k]].revents != {}
    ensures forall j, k :: 0 <= j < k < |r| ==> r[j] < r[k]
    decreases |slots| - i
  {
    if i == |slots| || n <= 0 then []
    else if slots[i].revents != {} then [i] + ReadyFrom(slots, i + 1, n - 1)
    else ReadyFrom(slots, i + 1, n)
  }

  /** The number of slots with returned events: what `poll` returns when it
      succeeds. */
  function CountReady(slots: seq<PollFd>): (n: nat)
    ensures n <= |slots|
  {
    if slots == [] then 0 else (if slots[0].revents != {} then 1 else 0) + CountReady(slots[1..])
  }

  /** With n the number of ready slots, every ready slot is reported. */
  lemma {:induction false} ReadyFromComplete(slots: seq<PollFd>, i: nat, n: int)
    requires i <= |slots| && n == CountReady(slots[i..])
    ensures forall k :: i <= k < |slots| && slots[k].revents != {} ==> k in ReadyFrom(slots, i, n)
    decreases |slots| - i
  {
    if i < |slots| {
      assert slots[i..][1..] == slots[i + 1..];
      if slots[i].revents != {} {
        ReadyFromComplete(slots, i + 1, n - 1);
      } else {
        ReadyFromComplete(slots, i + 1, n);
      }
    }
  }

  /** A ready slot of a valid table is unmasked, so its fd names a registered
      channel directly. */
  lemma ReadySlotRegistered(slots: seq<PollFd>, index: map<int, int>, interest: map<int, Mask>, k: nat)
    requires TableOk(slots, index, interest) && k < |slots| && slots[k].revents != {}
    ensures slots[k].fd >= 0 && slots[k].fd in index && index[slots[k].fd] == k
  {
  }
}
