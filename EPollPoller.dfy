/** The `epoll(7)` poller. Each channel's `index` holds its registration
    state (new, added or deleted); the kernel's interest list is modelled as a
    map from fd to what the last successful `epoll_ctl` registered. Whether
    an `epoll_ctl` call fails for reasons outside the model (a closed fd,
    memory) is an input. */
module EPoll {
  import opened Timestamps
  import opened PollEvents
  import opened Reactor

  /** Registration states kept in a channel's index. */
  const kNew := -1
  const kAdded := 1
  const kDeleted := 2

  /** The initial capacity of the event list handed to `epoll_wait`. */
  const InitEventListSize := 64

  /** The `epoll_ctl` operations, with their Linux values. */
  const EPOLL_CTL_ADD := 1
  const EPOLL_CTL_DEL := 2
  const EPOLL_CTL_MOD := 3

  /** What the kernel holds for a registered fd: the pointer it hands back
      with each event and the events it watches. */
  datatype Registration = Registration(ptr: Channel, events: Mask)

  /** What became of one `epoll_ctl` call: it took effect, it failed and was
      only logged (a failed DEL), or it failed fatally (ADD or MOD). */
  datatype CtlResult = NotIssued | Applied | Logged | Fatal

  /** The name `operationToString` gives an operation. */
  function OperationToString(op: int): string
  {
    if op == EPOLL_CTL_ADD then "ADD"
    else if op == EPOLL_CTL_DEL then "DEL"
    else if op == EPOLL_CTL_MOD then "MOD"
    else "Unknown Operation"
  }

  /** The three operations have three different names, none of them the
      fallback. */
  lemma OperationNamesDistinct(a: int, b: int)
    requires a in {EPOLL_CTL_ADD, EPOLL_CTL_DEL, EPOLL_CTL_MOD}
    requires b in {EPOLL_CTL_ADD, EPOLL_CTL_DEL, EPOLL_CTL_MOD}
    ensures OperationToString(a) != "Unknown Operation"
    ensures OperationToString(a) == OperationToString(b) <==> a == b
  {
  }

  /** The kernel's own check of an `epoll_ctl` call: ADD of a watched fd
      fails with EEXIST, MOD or DEL of an unwatched one with ENOENT. */
  predicate Accepts(kernel: map<int, Registration>, op: int, fd: int)
  {
    if op == EPOLL_CTL_ADD then fd !in kernel else fd in kernel
  }

  /** The interest list after an accepted `epoll_ctl` call. */
  function Ctl(kernel: map<int, Registration>, op: int, fd: int, reg: Registration): (r: map<int, Registration>)
    ensures op == EPOLL_CTL_DEL ==> r.Keys == kernel.Keys - {fd}
    ensures op != EPOLL_CTL_DEL ==> fd in r && r[fd] == reg && r.Keys == kernel.Keys + {fd}
    ensures forall g | g in kernel && g != fd :: g in r && r[g] == kernel[g]
  {
    if op == EPOLL_CTL_DEL then kernel - {fd} else kernel[fd := reg]
  }

  /** `update`'s error policy: only a failed DEL is survivable. */
  function Outcome(op: int, ok: bool): (r: CtlResult)
    ensures r == Applied <==> ok
    ensures r == Logged <==> !ok && op == EPOLL_CTL_DEL
    ensures r == Fatal <==> !ok && op != EPOLL_CTL_DEL
  {
    if ok then Applied else if op == EPOLL_CTL_DEL then Logged else Fatal
  }

  // ---------------------------------------------------------------------
  // The registration state machine

  /** The step `updateChannel` takes from registration state `index`: the
      next state and the operation it issues. */
  function UpdateStep(index: int, noInterest: bool): (int, int)
  {
    if index == kNew || index == kDeleted then (kAdded, EPOLL_CTL_ADD)
    else if noInterest then (kDeleted, EPOLL_CTL_DEL)
    else (kAdded, EPOLL_CTL_MOD)
  }

  /** A channel leaves the kernel's list exactly when it loses all interest,
      and an update always ends added or deleted, never new. */
  lemma UpdateStepStates(index: int, noInterest: bool)
    requires index in {kNew, kAdded, kDeleted}
    ensures UpdateStep(index, noInterest).0 in {kAdded, kDeleted}
    ensures UpdateStep(index, noInterest).0 == kDeleted <==> index == kAdded && noInterest
    ensures UpdateStep(index, noInterest).1 == EPOLL_CTL_ADD <==> index != kAdded
    ensures UpdateStep(index, noInterest).1 == EPOLL_CTL_DEL <==> UpdateStep(index, noInterest).0 == kDeleted
  {
  }

  /** The fds whose channels are in the given state. */
  function InState(states: map<int, int>, state: int): (r: set<int>)
    ensures forall fd :: fd in r <==> fd in states && states[fd] == state
  {
    set fd | fd in states && states[fd] == state
  }

  /** The registration table invariant, apart from the fds in `except`
      whose interest may have moved since their last update: every mapped
      channel is added or deleted; the kernel watches exactly the added
      ones, with the pointer of the mapped channel and its interest; and a
      deleted channel has no interest. */
  predicate Registered(states: map<int, int>, interest: map<int, Mask>, kernel: map<int, Registration>,
                       channels: map<int, Channel>, except: set<int>)
  {
    && states.Keys == channels.Keys && interest.Keys == channels.Keys
    && (forall fd | fd in states :: states[fd] == kAdded || states[fd] == kDeleted)
    && kernel.Keys == InState(states, kAdded)
    && PointsInto(kernel, channels)
    && (forall fd | fd in kernel && fd !in except :: fd in interest && kernel[fd].events == interest[fd])
    && (forall fd | fd in states && fd !in except && states[fd] == kDeleted :: fd in interest && IsNoneEvent(interest[fd]))
  }

  /** Every registration carries the pointer of the channel mapped at its fd. */
  predicate PointsInto(kernel: map<int, Registration>, channels: map<int, Channel>)
  {
    forall fd | fd in kernel :: fd in channels && kernel[fd].ptr == channels[fd]
  }

  /** With the table in order, the operation `updateChannel` picks is one the
      kernel accepts: the state machine never issues an ADD for a watched
      fd nor a MOD or DEL for an unwatched one. */
  lemma UpdateAccepted(states: map<int, int>, interest: map<int, Mask>, kernel: map<int, Registration>,
                       channels: map<int, Channel>, fd: int, index: int, noInterest: bool)
    requires Registered(states, interest, kernel, channels, {fd})
    requires index == kNew ==> fd !in channels
    requires index != kNew ==> fd in states && states[fd] == index
    ensures Accepts(kernel, UpdateStep(index, noInterest).1, fd)
  {
  }

  /** An input of one `epoll_wait` call: its result, the errno it left, the
      events it wrote (fd and returned mask) and the time it returned. */
  datatype Ready = Ready(fd: int, events: Mask)
  datatype EPollInput = EPollInput(numEvents: int, errno: int, ready: seq<Ready>, now: Timestamp)

  /** What the kernel can return: no more events than the list holds, one
      entry per reported event, only watched fds, each at most once. */
  predicate Reportable(input: EPollInput, kernel: map<int, Registration>, capacity: nat)
  {
    && input.numEvents <= capacity
    && (input.numEvents > 0 ==> |input.ready| == input.numEvents)
    && (forall i | 0 <= i < |input.ready| :: input.ready[i].fd in kernel)
    && (forall i, j | 0 <= i < j < |input.ready| :: input.ready[i].fd != input.ready[j].fd)
  }

  /** The event list's capacity after a poll that reported n events: it
      doubles when the poll filled it. */
  function GrownCapacity(capacity: nat, n: int): (r: nat)
    ensures r >= capacity
    ensures r > capacity <==> capacity > 0 && n == capacity
  {
    if n > 0 && n == capacity then capacity * 2 else capacity
  }

  /** The capacity is always the initial size times a power of two. */
  ghost predicate PowerOfTwoMultiple(capacity: nat)
    decreases capacity
  {
    capacity == InitEventListSize || (capacity > InitEventListSize && capacity % 2 == 0 && PowerOfTwoMultiple(capacity / 2))
  }

  lemma GrowthKeepsPowerOfTwo(capacity: nat, n: int)
    requires PowerOfTwoMultiple(capacity)
    ensures PowerOfTwoMultiple(GrownCapacity(capacity, n))
  {
    if n > 0 && n == capacity {
      assert (capacity * 2) / 2 == capacity;
    }
  }

  // ---------------------------------------------------------------------
  // EPollPoller

  class EPollPoller {
    var channels: map<int, Channel>
    var kernel: map<int, Registration>
    /** The size of the event list `epoll_wait` fills. */
    var capacity: nat

    /** Failing to create the epoll instance is fatal, so the descriptor
        must be valid. */
    constructor(epollfd: int)
      requires epollfd >= 0
      ensures channels == map[] && kernel == map[] && capacity == InitEventListSize
      ensures Valid() && PowerOfTwoMultiple(capacity)
    {
      channels := map[];
      kernel := map[];
      capacity := InitEventListSize;
    }

    ghost predicate Valid()
      reads this`channels, this`kernel, channels.Values
    {
      Keyed(channels) && Registered(IndexOf(channels), InterestOf(channels), kernel, channels, {})
    }

    /** Valid, except that the channel on fd may have a new interest. */
    ghost predicate ValidBut(fd: int)
      reads this`channels, this`kernel, channels.Values
    {
      Keyed(channels) && Registered(IndexOf(channels), InterestOf(channels), kernel, channels, {fd})
    }

    /** `update`: one `epoll_ctl` call registering the channel's current
        interest; `failed` says whether it fails for a reason the kernel
        model does not see. */
    method Update(op: int, ch: Channel, failed: bool) returns (result: CtlResult)
      modifies this
      ensures var ok := !failed && Accepts(old(kernel), op, ch.fd);
              && result == Outcome(op, ok)
              && kernel == (if ok then Ctl(old(kernel), op, ch.fd, Registration(ch, ch.events)) else old(kernel))
      ensures channels == old(channels) && capacity == old(capacity)
    {
      if !failed && Accepts(kernel, op, ch.fd) {
        kernel := Ctl(kernel, op, ch.fd, Registration(ch, ch.events));
        result := Applied;
      } else if op == EPOLL_CTL_DEL {
        result := Logged;
      } else {
        result := Fatal;
      }
    }

    /** `updateChannel`: a new or deleted channel is added to the kernel's
        list (a new one also to the map); an added one is modified, or
        deleted when it has no interest left. */
    method UpdateChannel(ch: Channel, failed: bool) returns (result: CtlResult)
      requires ValidBut(ch.fd)
      requires ch.index == kNew || ch.index == kAdded || ch.index == kDeleted
      requires ch.index == kNew ==> ch.fd !in channels
      requires ch.index != kNew ==> HasChannel(channels, ch)
      modifies this, ch
      ensures var (next, op) := UpdateStep(old(ch.index), IsNoneEvent(ch.events));
              && ch.index == next
              && result == Outcome(op, !failed)
              && (!failed ==> kernel == Ctl(old(kernel), op, ch.fd, Registration(ch, ch.events)))
              && (failed ==> kernel == old(kernel))
      ensures channels == old(channels)[ch.fd := ch]
      ensures old(ch.index) != kNew ==> channels == old(channels)
      ensures ch.events == old(ch.events) && ch.Flags() == old(ch.Flags()) && capacity == old(capacity)
      ensures result == Applied ==> Valid()
    {
      ghost var states := IndexOf(channels);
      UpdateAccepted(states, InterestOf(channels), kernel, channels, ch.fd, ch.index, IsNoneEvent(ch.events));
      var index := ch.index;
      if index == kNew || index == kDeleted {
        if index == kNew {
          channels := channels[ch.fd := ch];
        }
        ch.SetIndex(kAdded);
        result := Update(EPOLL_CTL_ADD, ch, failed);
      } else if IsNoneEvent(ch.events) {
        result := Update(EPOLL_CTL_DEL, ch, failed);
        ch.SetIndex(kDeleted);
      } else {
        result := Update(EPOLL_CTL_MOD, ch, failed);
      }
      if result == Applied {
        UpdateKeepsRegistered(states, old(InterestOf(channels)), old(kernel), old(channels), ch, index, failed);
        Reindexed(ch);
      }
    }

    /** `removeChannel`: requires no interest and a mapped, added or deleted
        channel; erases the map entry, deletes it from the kernel's list only
        when it was added, and leaves it new. */
    method RemoveChannel(ch: Channel, failed: bool) returns (result: CtlResult)
      requires Valid() && HasChannel(channels, ch) && IsNoneEvent(ch.events)
      requires ch.index == kAdded || ch.index == kDeleted
      modifies this, ch
      ensures channels == old(channels) - {ch.fd} && !HasChannel(channels, ch)
      ensures ch.index == kNew && ch.events == old(ch.events) && ch.Flags() == old(ch.Flags())
      ensures old(ch.index) == kDeleted ==> result == NotIssued && kernel == old(kernel)
      ensures old(ch.index) == kAdded ==> result == Outcome(EPOLL_CTL_DEL, !failed)
                                          && kernel == (if failed then old(kernel) else old(kernel) - {ch.fd})
      ensures capacity == old(capacity)
      ensures result != Logged ==> Valid()
    {
      var index := ch.index;
      channels := channels - {ch.fd};
      result := NotIssued;
      if index == kAdded {
        result := Update(EPOLL_CTL_DEL, ch, failed);
      }
      ch.SetIndex(kNew);
      if result != Logged {
        RemoveKeepsRegistered(old(IndexOf(channels)), old(InterestOf(channels)), old(kernel), old(channels), ch.fd, failed);
        Unindexed(ch);
      }
    }

    /** `fillActiveChannels`: the channel behind each of the first
        numEvents events, in event-list order, with its returned events. */
    method FillActiveChannels(input: EPollInput) returns (active: seq<Channel>)
      requires Keyed(channels) && PointsInto(kernel, channels)
      requires Reportable(input, kernel, capacity) && input.numEvents > 0
      modifies channels.Values
      ensures |active| == input.numEvents
      ensures forall k | 0 <= k < |active| :: active[k] == channels[input.ready[k].fd]
                                             && active[k].revents == input.ready[k].events
      ensures forall c | c in channels.Values :: c.index == old(c.index) && c.events == old(c.events)
    {
      active := [];
      var i := 0;
      while i < input.numEvents
        invariant 0 <= i <= input.numEvents && |active| == i
        invariant forall k | 0 <= k < i :: active[k] == kernel[input.ready[k].fd].ptr
                                          && active[k] == channels[input.ready[k].fd]
                                          && active[k].revents == input.ready[k].events
        invariant forall c | c in channels.Values :: c.index == old(c.index) && c.events == old(c.events)
      {
        var e := input.ready[i];
        var channel := kernel[e.fd].ptr;
        channel.SetRevents(e.events);
        active := active + [channel];
        i := i + 1;
      }
    }

    /** `poll`: fill the active channels when events arrived, growing the
        event list when it was filled; log an error other than EINTR. */
    method Poll(input: EPollInput) returns (active: seq<Channel>, now: Timestamp, logged: bool)
      requires Valid() && Reportable(input, kernel, capacity)
      modifies this, channels.Values
      ensures Valid() && channels == old(channels) && kernel == old(kernel)
      ensures capacity == GrownCapacity(old(capacity), input.numEvents)
      ensures now == input.now
      ensures logged <==> input.numEvents < 0 && input.errno != EINTR
      ensures input.numEvents <= 0 ==> active == []
      ensures input.numEvents > 0 ==>
                |active| == input.numEvents
                && forall k | 0 <= k < |active| :: active[k] == channels[input.ready[k].fd]
                                                 && active[k].revents == input.ready[k].events
    {
      now := input.now;
      logged := false;
      active := [];
      if input.numEvents > 0 {
        active := FillActiveChannels(input);
        if input.numEvents == capacity {
          capacity := capacity * 2;
        }
        StillRegistered(this);
      } else if input.numEvents < 0 {
        logged := input.errno != EINTR;
      }
    }

    /** Setting one channel's state and interest, and mapping it, changes
        exactly its entries in the derived maps. */
    twostate lemma Reindexed(ch: Channel)
      requires old(Keyed(channels)) && (ch.fd in old(channels) ==> old(channels)[ch.fd] == ch)
      requires channels == old(channels)[ch.fd := ch]
      requires forall c | c in old(channels).Values && c != ch :: c.index == old(c.index) && c.events == old(c.events)
      ensures Keyed(channels)
      ensures IndexOf(channels) == old(IndexOf(channels))[ch.fd := ch.index]
      ensures InterestOf(channels) == old(InterestOf(channels))[ch.fd := ch.events]
    {
      assert forall g | g in old(channels) && g != ch.fd :: old(channels)[g] != ch;
    }

    /** Unmapping a channel drops exactly its entries, whatever then happens
        to the channel itself. */
    twostate lemma Unindexed(ch: Channel)
      requires old(Keyed(channels)) && HasChannel(old(channels), ch)
      requires channels == old(channels) - {ch.fd}
      requires forall c | c in old(channels).Values && c != ch :: c.index == old(c.index) && c.events == old(c.events)
      ensures Keyed(channels)
      ensures IndexOf(channels) == old(IndexOf(channels)) - {ch.fd}
      ensures InterestOf(channels) == old(InterestOf(channels)) - {ch.fd}
    {
      assert forall g | g in channels :: old(channels)[g] != ch;
    }
  }

  /** An applied update leaves the table in order, the updated channel's
      new state and interest included. */
  lemma UpdateKeepsRegistered(states: map<int, int>, interest: map<int, Mask>, kernel: map<int, Registration>,
                              channels: map<int, Channel>, ch: Channel, index: int, failed: bool)
    requires Registered(states, interest, kernel, channels, {ch.fd})
    requires index == kNew || index == kAdded || index == kDeleted
    requires index == kNew ==> ch.fd !in channels
    requires index != kNew ==> ch.fd in channels && channels[ch.fd] == ch && states[ch.fd] == index
    requires !failed
    ensures var (next, op) := UpdateStep(index, IsNoneEvent(ch.events));
            Registered(states[ch.fd := next], interest[ch.fd := ch.events],
                       Ctl(kernel, op, ch.fd, Registration(ch, ch.events)), channels[ch.fd := ch], {})
  {
    var (next, op) := UpdateStep(index, IsNoneEvent(ch.events));
    var s := states[ch.fd := next];
    var k := Ctl(kernel, op, ch.fd, Registration(ch, ch.events));
    forall fd ensures fd in k <==> fd in InState(s, kAdded)
    {
      if fd != ch.fd {
        assert fd in k <==> fd in kernel;
      }
    }
  }

  /** Removing a channel with no interest leaves the table in order, unless
      the DEL for an added channel failed. */
  lemma RemoveKeepsRegistered(states: map<int, int>, interest: map<int, Mask>, kernel: map<int, Registration>,
                              channels: map<int, Channel>, fd: int, failed: bool)
    requires Registered(states, interest, kernel, channels, {}) && fd in states
    requires states[fd] == kAdded ==> !failed
    ensures Registered(states - {fd}, interest - {fd},
                       if states[fd] == kAdded then kernel - {fd} else kernel, channels - {fd}, {})
  {
  }

  /** Handing back returned events changes no registration, so the table
      stays in order. */
  twostate lemma StillRegistered(p: EPollPoller)
    requires old(p.Valid()) && p.channels == old(p.channels) && p.kernel == old(p.kernel)
    requires forall c | c in p.channels.Values :: c.index == old(c.index) && c.events == old(c.events)
    ensures p.Valid()
  {
    assert IndexOf(p.channels) == old(IndexOf(p.channels));
    assert InterestOf(p.channels) == old(InterestOf(p.channels));
  }
}
