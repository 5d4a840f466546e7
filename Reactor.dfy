/** The reactor: a `Channel` per file descriptor with its interest mask and
    callbacks, the `poll(2)` poller that keeps one slot per channel, and the
    `EventLoop` that owns the poller, dispatches ready channels and runs the
    tasks queued to it. The three refer to each other, so they share one
    module. System calls are inputs: what `poll` returned, the errno, the
    time, and whether the caller runs on the loop's own thread. */
module Reactor {
  import opened Timestamps
  import opened PollEvents
  import opened PollTable

  /** `errno` of an interrupted call. */
  const EINTR: int := 4

  // ---------------------------------------------------------------------
  // Tasks

  /** A functor handed to the loop. Running it may queue further tasks from
      the loop thread and may ask the loop to quit; its other effects are
      not part of this model. */
  datatype Task = Task(name: string, queues: seq<Task>, quits: bool)

  /** Everything the given tasks queue while they run, in order. */
  function Spawned(tasks: seq<Task>): seq<Task>
  {
    if tasks == [] then [] else Spawned(tasks[..|tasks| - 1]) + tasks[|tasks| - 1].queues
  }

  /** The pending tasks the loop runs in round r when `first` was queued
      before its first round: each round runs what the previous one queued. */
  function Batch(first: seq<Task>, r: nat): seq<Task>
  {
    if r == 0 then first else Spawned(Batch(first, r - 1))
  }

  /** Every task the first n rounds run, in order. */
  function RanBy(first: seq<Task>, n: nat): seq<Task>
  {
    if n == 0 then [] else RanBy(first, n - 1) + Batch(first, n - 1)
  }

  /** Whether one of the tasks asks the loop to quit. */
  function AnyQuits(tasks: seq<Task>): bool
  {
    tasks != [] && (AnyQuits(tasks[..|tasks| - 1]) || tasks[|tasks| - 1].quits)
  }

  lemma {:induction false} AnyQuitsIff(tasks: seq<Task>)
    ensures AnyQuits(tasks) <==> exists k :: 0 <= k < |tasks| && tasks[k].quits
  {
    if tasks != [] {
      var init := tasks[..|tasks| - 1];
      AnyQuitsIff(init);
      if AnyQuits(init) {
        var k :| 0 <= k < |init| && init[k].quits;
        assert tasks[k] == init[k];
      }
      if exists k :: 0 <= k < |tasks| && tasks[k].quits {
        var k :| 0 <= k < |tasks| && tasks[k].quits;
        if k < |init| {
          assert init[k] == tasks[k];
        }
      }
    }
  }

  // ---------------------------------------------------------------------
  // Channel

  /** A channel's fields other than its interest mask and poller index. */
  datatype ChannelFlags = ChannelFlags(revents: Mask, logHup: bool, tied: bool, tieAlive: bool,
                                       eventHandling: bool, addedToLoop: bool, handlers: Handlers)

  /** What handling the channel's returned events calls: nothing when it is
      tied to an object that is gone, its dispatch otherwise. */
  function Fired(f: ChannelFlags): (r: seq<Callback>)
    ensures f.tied && !f.tieAlive ==> r == []
    ensures !f.tied || f.tieAlive ==> r == Dispatch(f.revents, f.handlers)
  {
    if f.tied && !f.tieAlive then [] else Dispatch(f.revents, f.handlers)
  }

  /** One file descriptor's interest and its four callbacks. */
  class Channel {
    const loop: EventLoop
    const fd: int
    var events: Mask
    var revents: Mask
    /** The poller's slot index; -1 before the first update. */
    var index: int
    var logHup: bool
    var tied: bool
    /** Whether the tied object is still owned. */
    var tieAlive: bool
    var eventHandling: bool
    var addedToLoop: bool
    /** Which callbacks are set. */
    var handlers: Handlers

    constructor(loop: EventLoop, fd: int)
      ensures this.loop == loop && this.fd == fd
      ensures IsNoneEvent(events) && revents == NoneEvent && index == -1
      ensures logHup && !tied && !eventHandling && !addedToLoop
      ensures handlers == Handlers(false, false, false, false)
    {
      this.loop := loop;
      this.fd := fd;
      events := NoneEvent;
      revents := NoneEvent;
      index := -1;
      logHup := true;
      tied := false;
      tieAlive := false;
      eventHandling := false;
      addedToLoop := false;
      handlers := Handlers(false, false, false, false);
    }

    function Flags(): ChannelFlags
      reads this
    {
      ChannelFlags(revents, logHup, tied, tieAlive, eventHandling, addedToLoop, handlers)
    }

    /** The poller accepts an update of this channel: a channel it has not
        seen (index < 0) has a valid fd that is not yet mapped, and a known
        one is mapped to itself. */
    ghost predicate Registrable()
      reads this, loop, loop.poller
    {
      && (index < 0 ==> fd >= 0 && fd !in loop.poller.channels)
      && (index >= 0 ==> HasChannel(loop.poller.channels, this))
    }

    /** The destructor's checks: not dispatching, not added to the loop and,
        when destroyed on the loop thread, unknown to the poller. */
    ghost predicate Destructible(inLoopThread: bool)
      reads this, loop, loop.poller
    {
      !eventHandling && !addedToLoop && (inLoopThread ==> !HasChannel(loop.poller.channels, this))
    }

    method SetReadCallback(isSet: bool)
      modifies this
      ensures handlers == old(handlers).(read := isSet)
      ensures events == old(events) && index == old(index) && Flags() == old(Flags()).(handlers := handlers)
    {
      handlers := handlers.(read := isSet);
    }

    method SetWriteCallback(isSet: bool)
      modifies this
      ensures handlers == old(handlers).(write := isSet)
      ensures events == old(events) && index == old(index) && Flags() == old(Flags()).(handlers := handlers)
    {
      handlers := handlers.(write := isSet);
    }

    method SetCloseCallback(isSet: bool)
      modifies this
      ensures handlers == old(handlers).(close := isSet)
      ensures events == old(events) && index == old(index) && Flags() == old(Flags()).(handlers := handlers)
    {
      handlers := handlers.(close := isSet);
    }

    method SetErrorCallback(isSet: bool)
      modifies this
      ensures handlers == old(handlers).(error := isSet)
      ensures events == old(events) && index == old(index) && Flags() == old(Flags()).(handlers := handlers)
    {
      handlers := handlers.(error := isSet);
    }

    method SetLogHup(logHup: bool)
      modifies this
      ensures this.logHup == logHup
      ensures events == old(events) && index == old(index) && Flags() == old(Flags()).(logHup := logHup)
    {
      this.logHup := logHup;
    }

    /** From now on events are dispatched only while the tied object lives. */
    method Tie()
      modifies this
      ensures tied && tieAlive
      ensures events == old(events) && index == old(index) && Flags() == old(Flags()).(tied := true, tieAlive := true)
    {
      tied := true;
      tieAlive := true;
    }

    /** The tied object's last owner let it go. */
    method ReleaseTied()
      modifies this
      ensures !tieAlive
      ensures events == old(events) && index == old(index) && Flags() == old(Flags()).(tieAlive := false)
    {
      tieAlive := false;
    }

    method SetRevents(revt: Mask)
      modifies this
      ensures revents == revt
      ensures events == old(events) && index == old(index) && Flags() == old(Flags()).(revents := revt)
    {
      revents := revt;
    }

    method SetIndex(idx: int)
      modifies this
      ensures index == idx
      ensures events == old(events) && Flags() == old(Flags())
    {
      index := idx;
    }

    /** Marks the channel added and hands it to the loop's poller. */
    method Update()
      requires loop.poller.ValidBut(fd) && Registrable()
      modifies this, loop.poller
      ensures addedToLoop && events == old(events) && Flags() == old(Flags()).(addedToLoop := true)
      ensures loop.poller.Valid() && HasChannel(loop.poller.channels, this)
      ensures loop.poller.channels == old(loop.poller.channels)[fd := this]
      ensures old(index) < 0 ==> index == |old(loop.poller.pollfds)|
                                 && loop.poller.pollfds == old(loop.poller.pollfds) + [NewSlot(fd, events)]
      ensures old(index) >= 0 ==> index == old(index) && fd >= 0 && index < |old(loop.poller.pollfds)|
                                  && loop.poller.pollfds == old(loop.poller.pollfds)[index := RewrittenSlot(fd, events)]
    {
      addedToLoop := true;
      assert IndexOf(loop.poller.channels) == old(IndexOf(loop.poller.channels));
      assert InterestOf(loop.poller.channels) == old(InterestOf(loop.poller.channels));
      loop.UpdateChannel(this);
    }

    method EnableReading()
      requires loop.poller.Valid() && Registrable()
      modifies this, loop.poller
      ensures events == EnableRead(old(events))
      ensures addedToLoop && Flags() == old(Flags()).(addedToLoop := true)
      ensures loop.poller.Valid() && HasChannel(loop.poller.channels, this)
      ensures loop.poller.channels == old(loop.poller.channels)[fd := this]
      ensures old(index) < 0 ==> index == |old(loop.poller.pollfds)|
                                 && loop.poller.pollfds == old(loop.poller.pollfds) + [NewSlot(fd, events)]
      ensures old(index) >= 0 ==> index == old(index) && fd >= 0 && index < |old(loop.poller.pollfds)|
                                  && loop.poller.pollfds == old(loop.poller.pollfds)[index := RewrittenSlot(fd, events)]
    {
      events := EnableRead(events);
      Update();
    }

    method DisableReading()
      requires loop.poller.Valid() && Registrable()
      modifies this, loop.poller
      ensures events == DisableRead(old(events))
      ensures addedToLoop && Flags() == old(Flags()).(addedToLoop := true)
      ensures loop.poller.Valid() && HasChannel(loop.poller.channels, this)
      ensures loop.poller.channels == old(loop.poller.channels)[fd := this]
      ensures old(index) < 0 ==> index == |old(loop.poller.pollfds)|
                                 && loop.poller.pollfds == old(loop.poller.pollfds) + [NewSlot(fd, events)]
      ensures old(index) >= 0 ==> index == old(index) && fd >= 0 && index < |old(loop.poller.pollfds)|
                                  && loop.poller.pollfds == old(loop.poller.pollfds)[index := RewrittenSlot(fd, events)]
    {
      events := DisableRead(events);
      Update();
    }

    method EnableWriting()
      requires loop.poller.Valid() && Registrable()
      modifies this, loop.poller
      ensures events == EnableWrite(old(events))
      ensures addedToLoop && Flags() == old(Flags()).(addedToLoop := true)
      ensures loop.poller.Valid() && HasChannel(loop.poller.channels, this)
      ensures loop.poller.channels == old(loop.poller.channels)[fd := this]
      ensures old(index) < 0 ==> index == |old(loop.poller.pollfds)|
                                 && loop.poller.pollfds == old(loop.poller.pollfds) + [NewSlot(fd, events)]
      ensures old(index) >= 0 ==> index == old(index) && fd >= 0 && index < |old(loop.poller.pollfds)|
                                  && loop.poller.pollfds == old(loop.poller.pollfds)[index := RewrittenSlot(fd, events)]
    {
      events := EnableWrite(events);
      Update();
    }

    method DisableWriting()
      requires loop.poller.Valid() && Registrable()
      modifies this, loop.poller
      ensures events == DisableWrite(old(events))
      ensures addedToLoop && Flags() == old(Flags()).(addedToLoop := true)
      ensures loop.poller.Valid() && HasChannel(loop.poller.channels, this)
      ensures loop.poller.channels == old(loop.poller.channels)[fd := this]
      ensures old(index) < 0 ==> index == |old(loop.poller.pollfds)|
                                 && loop.poller.pollfds == old(loop.poller.pollfds) + [NewSlot(fd, events)]
      ensures old(index) >= 0 ==> index == old(index) && fd >= 0 && index < |old(loop.poller.pollfds)|
                                  && loop.poller.pollfds == old(loop.poller.pollfds)[index := RewrittenSlot(fd, events)]
    {
      events := DisableWrite(events);
      Update();
    }

    /** No interest at all; a known channel's slot becomes masked. */
    method DisableAll()
      requires loop.poller.Valid() && Registrable()
      modifies this, loop.poller
      ensures IsNoneEvent(events)
      ensures addedToLoop && Flags() == old(Flags()).(addedToLoop := true)
      ensures loop.poller.Valid() && HasChannel(loop.poller.channels, this)
      ensures loop.poller.channels == old(loop.poller.channels)[fd := this]
      ensures old(index) < 0 ==> index == |old(loop.poller.pollfds)|
                                 && loop.poller.pollfds == old(loop.poller.pollfds) + [NewSlot(fd, events)]
      ensures old(index) >= 0 ==> index == old(index) && fd >= 0 && index < |old(loop.poller.pollfds)|
                                  && loop.poller.pollfds == old(loop.poller.pollfds)[index := RewrittenSlot(fd, events)]
    {
      events := NoneEvent;
      Update();
    }

    /** Leaves the loop: requires no interest and a masked slot; afterwards
        the poller no longer knows the channel. */
    method Remove()
      requires loop.poller.Valid() && HasChannel(loop.poller.channels, this) && IsNoneEvent(events)
      requires 0 <= index < |loop.poller.pollfds| && loop.poller.pollfds[index].fd == -fd - 1
      requires loop.eventHandling ==> loop.currentActiveChannel == this || this !in loop.activeChannels
      modifies this, loop.poller, loop.poller.channels.Values
      ensures !addedToLoop && events == old(events) && Flags() == old(Flags()).(addedToLoop := false)
      ensures loop.poller.Valid() && !HasChannel(loop.poller.channels, this)
      ensures loop.poller.channels == old(loop.poller.channels) - {fd}
      ensures loop.poller.pollfds == SwapPop(old(loop.poller.pollfds), old(index))
      ensures !eventHandling ==> Destructible(true) && Destructible(false)
    {
      addedToLoop := false;
      StillValid(loop.poller);
      loop.RemoveChannel(this);
    }

    /** The teardown every owner of a registered channel performs: drop all
        interest, then leave the loop. */
    method Detach()
      requires loop.poller.Valid() && HasChannel(loop.poller.channels, this)
      requires loop.eventHandling ==> loop.currentActiveChannel == this || this !in loop.activeChannels
      modifies this, loop.poller, loop.poller.channels.Values
      ensures !addedToLoop && IsNoneEvent(events)
      ensures loop.poller.Valid() && !HasChannel(loop.poller.channels, this)
      ensures loop.poller.channels == old(loop.poller.channels) - {fd}
      ensures !eventHandling ==> Destructible(true) && Destructible(false)
    {
      assert IndexOf(loop.poller.channels)[fd] == index;
      DisableAll();
      assert loop.poller.channels == old(loop.poller.channels);
      assert loop.poller.pollfds[index] == RewrittenSlot(fd, events);
      Remove();
    }

    /** Calls the set callbacks the returned events select, close first, then
        error, read and write; `eventHandling` is raised only meanwhile. */
    method HandleEventWithGuard(receiveTime: Timestamp) returns (fired: seq<Callback>)
      modifies this
      ensures fired == Dispatch(revents, handlers)
      ensures !eventHandling
      ensures events == old(events) && index == old(index) && Flags() == old(Flags()).(eventHandling := false)
    {
      eventHandling := true;
      var closing: seq<Callback> := [];
      if POLLHUP in revents && POLLIN !in revents {
        if handlers.close {
          closing := [CloseCallback];
        }
      }
      var erring: seq<Callback> := [];
      if POLLERR in revents || POLLNVAL in revents {
        if handlers.error {
          erring := [ErrorCallback];
        }
      }
      var reading: seq<Callback> := [];
      if POLLIN in revents || POLLPRI in revents || POLLRDHUP in revents {
        if handlers.read {
          reading := [ReadCallback];
        }
      }
      var writing: seq<Callback> := [];
      if POLLOUT in revents {
        if handlers.write {
          writing := [WriteCallback];
        }
      }
      fired := closing + erring + reading + writing;
      eventHandling := false;
    }

    /** A tied channel whose object is gone handles nothing. */
    method HandleEvent(receiveTime: Timestamp) returns (fired: seq<Callback>)
      modifies this
      ensures fired == Fired(old(Flags())) == Fired(Flags())
      ensures events == old(events) && index == old(index)
      ensures Flags() == old(Flags()).(eventHandling := if tied && !tieAlive then old(eventHandling) else false)
    {
      if tied {
        if tieAlive {
          fired := HandleEventWithGuard(receiveTime);
        } else {
          fired := [];
        }
      } else {
        fired := HandleEventWithGuard(receiveTime);
      }
    }
  }

  /** `Poller::hasChannel`: the fd is mapped, and to this very channel. */
  predicate HasChannel(channels: map<int, Channel>, ch: Channel)
  {
    ch.fd in channels && channels[ch.fd] == ch
  }

  /** Each channel is mapped under its own fd. */
  ghost predicate Keyed(channels: map<int, Channel>)
    reads channels.Values
  {
    forall fd | fd in channels :: channels[fd].fd == fd
  }

  /** The slot index of each mapped fd, as its channel holds it. */
  ghost function IndexOf(channels: map<int, Channel>): map<int, int>
    reads channels.Values
  {
    map fd | fd in channels :: channels[fd].index
  }

  /** The interest of each mapped fd, as its channel holds it. */
  ghost function InterestOf(channels: map<int, Channel>): map<int, Mask>
    reads channels.Values
  {
    map fd | fd in channels :: channels[fd].events
  }

  // ---------------------------------------------------------------------
  // PollPoller

  /** One return of `poll(2)`: its result, the errno it left, the events it
      wrote into each slot, and the time it returned. */
  datatype PollInput = PollInput(numEvents: int, errno: int, returned: seq<Mask>, now: Timestamp)

  /** The kernel can return these events for these slots: one mask per slot,
      and nothing for a masked slot. */
  predicate Fits(input: PollInput, slots: seq<PollFd>)
  {
    |input.returned| == |slots| && forall i | 0 <= i < |slots| :: slots[i].fd < 0 ==> input.returned[i] == {}
  }

  /** The slots after the kernel wrote the returned events into them. */
  function WithRevents(slots: seq<PollFd>, returned: seq<Mask>): (r: seq<PollFd>)
    requires |returned| == |slots|
    ensures |r| == |slots|
    ensures forall i | 0 <= i < |r| :: r[i] == slots[i].(revents := returned[i])
  {
    seq(|slots|, i requires 0 <= i < |slots| => slots[i].(revents := returned[i]))
  }

  lemma ReturnKeepsTable(slots: seq<PollFd>, index: map<int, int>, interest: map<int, Mask>, input: PollInput)
    requires TableOk(slots, index, interest) && Fits(input, slots)
    ensures TableOk(WithRevents(slots, input.returned), index, interest)
  {
    var s := WithRevents(slots, input.returned);
    assert forall i | 0 <= i < |s| :: SlotOwner(s[i]) == SlotOwner(slots[i]);
  }

  /** A poll masks and unmasks nothing, so whatever the kernel could return
      before it, it can return after it. */
  lemma ReturnKeepsFits(slots: seq<PollFd>, input: PollInput, other: PollInput)
    requires Fits(input, slots) && Fits(other, slots)
    ensures Fits(other, WithRevents(slots, input.returned))
  {
  }

  class PollPoller {
    var pollfds: seq<PollFd>
    var channels: map<int, Channel>

    constructor()
      ensures pollfds == [] && channels == map[]
      ensures Valid()
    {
      pollfds := [];
      channels := map[];
    }

    ghost predicate Valid()
      reads this, channels.Values
    {
      Keyed(channels) && TableOk(pollfds, IndexOf(channels), InterestOf(channels))
    }

    /** Valid, except that ch's interest may differ from its slot. */
    ghost predicate ValidBut(fd: int)
      reads this, channels.Values
    {
      && Keyed(channels) && Indexed(pollfds, IndexOf(channels)) && IndexOf(channels).Keys == InterestOf(channels).Keys && QuietMasked(pollfds)
      && Matches(pollfds, IndexOf(channels), InterestOf(channels) - {fd})
    }

    /** A new channel gets a slot appended at the end; a known one has its
        slot rewritten in place. */
    method UpdateChannel(ch: Channel)
      requires ValidBut(ch.fd)
      requires ch.index < 0 ==> ch.fd >= 0 && ch.fd !in channels
      requires ch.index >= 0 ==> HasChannel(channels, ch)
      modifies this, ch
      ensures Valid() && HasChannel(channels, ch)
      ensures channels == old(channels)[ch.fd := ch]
      ensures old(ch.index) < 0 ==> ch.index == |old(pollfds)| && pollfds == old(pollfds) + [NewSlot(ch.fd, ch.events)]
      ensures old(ch.index) >= 0 ==> ch.index == old(ch.index) && ch.fd >= 0 && ch.index < |old(pollfds)|
                                     && pollfds == old(pollfds)[ch.index := RewrittenSlot(ch.fd, ch.events)]
      ensures ch.events == old(ch.events) && ch.Flags() == old(ch.Flags())
    {
      if ch.index < 0 {
        AppendSlot(ch);
      } else {
        RewriteSlot(ch);
      }
    }

    /** updateChannel's branch for a channel the poller has not seen. */
    method AppendSlot(ch: Channel)
      requires ValidBut(ch.fd) && ch.index < 0 && ch.fd >= 0 && ch.fd !in channels
      modifies this, ch
      ensures Valid() && HasChannel(channels, ch)
      ensures channels == old(channels)[ch.fd := ch]
      ensures ch.index == |old(pollfds)| && pollfds == old(pollfds) + [NewSlot(ch.fd, ch.events)]
      ensures ch.events == old(ch.events) && ch.Flags() == old(ch.Flags())
    {
      assert InterestOf(channels) - {ch.fd} == InterestOf(channels);
      AppendKeepsTable(pollfds, IndexOf(channels), InterestOf(channels), ch.fd, ch.events);
      var pfd := PollFd(ch.fd, ch.events, {});
      pollfds := pollfds + [pfd];
      var idx := |pollfds| - 1;
      ch.SetIndex(idx);
      channels := channels[pfd.fd := ch];
      forall g | g in channels
        ensures channels[g].index == old(IndexOf(channels))[ch.fd := idx][g]
        ensures channels[g].events == old(InterestOf(channels))[ch.fd := ch.events][g]
      {
        if g != ch.fd {
          assert channels[g] == old(channels)[g] && channels[g].fd == g;
        }
      }
      assert IndexOf(channels) == old(IndexOf(channels))[ch.fd := idx];
      assert InterestOf(channels) == old(InterestOf(channels))[ch.fd := ch.events];
      assert pollfds == old(pollfds) + [NewSlot(ch.fd, ch.events)];
      assert TableOk(pollfds, IndexOf(channels), InterestOf(channels));
      assert Keyed(channels);
    }

    /** updateChannel's branch for a known channel. */
    method RewriteSlot(ch: Channel)
      requires ValidBut(ch.fd) && ch.index >= 0 && HasChannel(channels, ch)
      modifies this
      ensures Valid() && channels == old(channels)
      ensures ch.fd >= 0 && ch.index < |old(pollfds)| && pollfds == old(pollfds)[ch.index := RewrittenSlot(ch.fd, ch.events)]
    {
      var idx := ch.index;
      assert IndexOf(channels)[ch.fd] == idx;
      RewriteKeepsTable(pollfds, IndexOf(channels), InterestOf(channels), ch.fd, ch.events);
      var pfd := PollFd(ch.fd, ch.events, {});
      if IsNoneEvent(ch.events) {
        pfd := pfd.(fd := -ch.fd - 1);
      }
      pollfds := pollfds[idx := pfd];
      assert pfd == RewrittenSlot(ch.fd, ch.events);
      assert InterestOf(channels) == old(InterestOf(channels))[ch.fd := ch.events] && IndexOf(channels) == old(IndexOf(channels));
      assert TableOk(pollfds, IndexOf(channels), InterestOf(channels));
    }

    /** Erases the channel and fills its slot with the last one, re-indexing
        the channel that slot belongs to. The removed channel keeps its old,
        now stale, index. */
    method RemoveChannel(ch: Channel)
      requires Valid() && HasChannel(channels, ch) && IsNoneEvent(ch.events)
      requires 0 <= ch.index < |pollfds| && pollfds[ch.index].fd == -ch.fd - 1
      modifies this, channels.Values
      ensures Valid() && !HasChannel(channels, ch)
      ensures channels == old(channels) - {ch.fd}
      ensures pollfds == SwapPop(old(pollfds), old(ch.index))
      ensures IndexOf(channels) == RemovedIndex(old(pollfds), old(IndexOf(channels)), ch.fd)
      ensures ch.index == old(ch.index) && ch.events == old(ch.events) && ch.Flags() == old(ch.Flags())
    {
      var idx := ch.index;
      var last := |pollfds| - 1;
      assert IndexOf(channels)[ch.fd] == idx;
      RemoveKeepsTable(pollfds, IndexOf(channels), InterestOf(channels), ch.fd);
      ghost var slots, index := pollfds, IndexOf(channels);
      channels := channels - {ch.fd};
      if idx != last {
        var channelAtEnd := pollfds[last].fd;
        pollfds := pollfds[idx := pollfds[last]][last := pollfds[idx]];
        if channelAtEnd < 0 {
          channelAtEnd := -channelAtEnd - 1;
        }
        assert channelAtEnd == SlotOwner(slots[last]) && index[channelAtEnd] == last;
        channels[channelAtEnd].SetIndex(idx);
      }
      pollfds := pollfds[..last];
      assert pollfds == SwapPop(slots, idx);
      ghost var moved := SlotOwner(slots[last]);
      forall g | g in channels
        ensures channels[g].index == RemovedIndex(slots, index, ch.fd)[g]
        ensures channels[g].events == (old(InterestOf(channels)) - {ch.fd})[g]
      {
        assert channels[g] == old(channels)[g] && channels[g].fd == g;
        if g != moved || idx == last {
          assert channels[g].index == index[g];
        }
      }
      assert IndexOf(channels) == RemovedIndex(slots, index, ch.fd);
      assert InterestOf(channels) == old(InterestOf(channels)) - {ch.fd};
    }

    /** Reports the first numEvents slots with returned events, in slot
        order, copying each slot's events into its channel. */
    method FillActiveChannels(numEvents: int) returns (active: seq<Channel>)
      requires Valid()
      modifies channels.Values
      ensures Valid() && IndexOf(channels) == old(IndexOf(channels)) && InterestOf(channels) == old(InterestOf(channels))
      ensures var ready := ReadyFrom(pollfds, 0, numEvents);
              |active| == |ready|
              && forall k | 0 <= k < |active| :: && pollfds[ready[k]].fd in channels
                                                 && active[k] == channels[pollfds[ready[k]].fd]
                                                 && active[k].revents == pollfds[ready[k]].revents
    {
      active := [];
      ghost var taken: seq<nat> := [];
      ghost var fds, chans := pollfds, channels;
      var n := numEvents;
      var i := 0;
      while i < |pollfds| && n > 0
        invariant pollfds == fds && channels == chans && 0 <= i <= |fds|
        decreases |fds| - i
        invariant ReadyFrom(fds, 0, numEvents) == taken + ReadyFrom(fds, i, n)
        invariant |active| == |taken|
        invariant forall k | 0 <= k < |taken| :: taken[k] < i && fds[taken[k]].fd in chans
                                                 && active[k] == chans[fds[taken[k]].fd]
                                                 && active[k].revents == fds[taken[k]].revents
                                                 && IndexOf(chans)[fds[taken[k]].fd] == taken[k]
        invariant Valid() && IndexOf(chans) == old(IndexOf(channels)) && InterestOf(chans) == old(InterestOf(channels))
      {
        ghost var rest := ReadyFrom(fds, i, n);
        if pollfds[i].revents != {} {
          assert rest == [i] + ReadyFrom(fds, i + 1, n - 1);
          assert taken + rest == (taken + [i]) + ReadyFrom(fds, i + 1, n - 1);
          n := n - 1;
          active := TakeReady(i, taken, active);
          taken := taken + [i as nat];
        } else {
          assert rest == ReadyFrom(fds, i + 1, n);
        }
        i := i + 1;
      }
    }

    /** Slot i has returned events: its channel is stamped with them and
        joins the active ones taken from the slots before it. */
    method TakeReady(i: nat, ghost taken: seq<nat>, active: seq<Channel>) returns (active': seq<Channel>)
      requires Valid() && i < |pollfds| && pollfds[i].revents != {} && |active| == |taken|
      requires forall k | 0 <= k < |taken| :: taken[k] < i && pollfds[taken[k]].fd in channels
                                             && active[k] == channels[pollfds[taken[k]].fd]
                                             && active[k].revents == pollfds[taken[k]].revents
                                             && IndexOf(channels)[pollfds[taken[k]].fd] == taken[k]
      modifies channels.Values
      ensures Valid() && IndexOf(channels) == old(IndexOf(channels)) && InterestOf(channels) == old(InterestOf(channels))
      ensures var taken' := taken + [i];
              |active'| == |taken'|
              && forall k | 0 <= k < |taken'| :: taken'[k] < i + 1 && pollfds[taken'[k]].fd in channels
                                                && active'[k] == channels[pollfds[taken'[k]].fd]
                                                && active'[k].revents == pollfds[taken'[k]].revents
                                                && IndexOf(channels)[pollfds[taken'[k]].fd] == taken'[k]
    {
      ReadySlotRegistered(pollfds, IndexOf(channels), InterestOf(channels), i);
      var channel := channels[pollfds[i].fd];
      assert forall k | 0 <= k < |taken| :: pollfds[taken[k]].fd != pollfds[i].fd;
      MarkReady(channel, pollfds[i].revents);
      active' := active + [channel];
    }

    /** `set_revents` on one mapped channel, which leaves the table alone. */
    method MarkReady(channel: Channel, revt: Mask)
      requires Valid() && channel in channels.Values
      modifies channel
      ensures channel.revents == revt
      ensures Valid() && IndexOf(channels) == old(IndexOf(channels)) && InterestOf(channels) == old(InterestOf(channels))
    {
      channel.SetRevents(revt);
      forall g | g in channels
        ensures channels[g].index == old(IndexOf(channels))[g] && channels[g].events == old(InterestOf(channels))[g]
      {
      }
      assert IndexOf(channels) == old(IndexOf(channels)) && InterestOf(channels) == old(InterestOf(channels));
    }

    /** One `poll` call: the kernel's events land in the slots; a positive
        result is handed to fillActiveChannels, zero reports nothing, and a
        failure reports nothing and is logged unless it was EINTR. */
    method Poll(input: PollInput) returns (active: seq<Channel>, now: Timestamp, logged: bool)
      requires Valid() && Fits(input, pollfds)
      modifies this, channels.Values
      ensures Valid() && channels == old(channels)
      ensures pollfds == WithRevents(old(pollfds), input.returned)
      ensures now == input.now
      ensures logged <==> input.numEvents < 0 && input.errno != EINTR
      ensures input.numEvents <= 0 ==> active == []
      ensures forall c | c in active :: c in channels.Values
      ensures input.numEvents > 0 ==>
                var ready := ReadyFrom(pollfds, 0, input.numEvents);
                |active| == |ready|
                && forall k | 0 <= k < |active| :: && pollfds[ready[k]].fd in channels
                                                   && active[k] == channels[pollfds[ready[k]].fd]
                                                   && active[k].revents == pollfds[ready[k]].revents
    {
      ReturnKeepsTable(pollfds, IndexOf(channels), InterestOf(channels), input);
      pollfds := WithRevents(pollfds, input.returned);
      now := input.now;
      logged := false;
      active := [];
      if input.numEvents > 0 {
        active := FillActiveChannels(input.numEvents);
      } else if input.numEvents == 0 {
      } else {
        if input.errno != EINTR {
          logged := true;
        }
      }
    }
  }

  /** A change that leaves the poller's own fields and every mapped channel's
      index and interest alone leaves it valid. */
  twostate lemma StillValid(p: PollPoller)
    requires old(p.Valid()) && p.pollfds == old(p.pollfds) && p.channels == old(p.channels)
    requires forall c | c in p.channels.Values :: c.index == old(c.index) && c.events == old(c.events)
    ensures p.Valid() && IndexOf(p.channels) == old(IndexOf(p.channels)) && InterestOf(p.channels) == old(InterestOf(p.channels))
  {
    assert IndexOf(p.channels) == old(IndexOf(p.channels));
    assert InterestOf(p.channels) == old(InterestOf(p.channels));
  }

  // ---------------------------------------------------------------------
  // EventLoop

  /** The per-thread slot holding the thread's loop, if it has one. */
  class ThreadSlot {
    var loop: EventLoop?

    constructor()
      ensures loop == null
    {
      loop := null;
    }
  }

  class EventLoop {
    var looping: bool
    var quit: bool
    var eventHandling: bool
    var callingPendingFunctors: bool
    var iteration: nat
    var pollReturnTime: Timestamp
    const poller: PollPoller
    /** The timer queue's timerfd and the channel that reads it. */
    const timerFd: int
    var timerChannel: Channel?
    const wakeupFd: int
    var wakeupChannel: Channel?
    /** The wakeup eventfd's counter: writes not yet read back. */
    var wakeupCounter: nat
    var pendingFunctors: seq<Task>
    var activeChannels: seq<Channel>
    var currentActiveChannel: Channel?
    /** Every task run so far, in the order it ran. */
    var ran: seq<Task>

    /** Not looping, not dispatching, not running tasks, and nothing queued. */
    ghost predicate Idle()
      reads this
    {
      && !looping && !quit && !eventHandling && !callingPendingFunctors
      && pendingFunctors == [] && activeChannels == [] && currentActiveChannel == null
    }

    /** The loop's bookkeeping that dispatching a channel leaves alone. */
    ghost function Progress(): (bool, bool, nat, Timestamp, seq<Task>, seq<Task>)
      reads this
    {
      (looping, quit, iteration, pollReturnTime, pendingFunctors, ran)
    }

    /** Creating a loop on a thread that already has one is fatal, so the
        thread's slot must be empty. The timer queue, built first, registers
        its timerfd channel for reading; then the wakeup channel is
        registered for reading. */
    constructor(slot: ThreadSlot, timerFd: int, wakeupFd: int)
      requires slot.loop == null && timerFd >= 0 && wakeupFd >= 0 && timerFd != wakeupFd
      modifies slot
      ensures slot.loop == this && this.timerFd == timerFd && this.wakeupFd == wakeupFd
      ensures Idle() && iteration == 0 && ran == [] && wakeupCounter == 0 && fresh(poller)
      ensures timerChannel != null && fresh(timerChannel) && timerChannel.loop == this && timerChannel.fd == timerFd
      ensures timerChannel.events == ReadEvent && timerChannel.handlers.read
      ensures wakeupChannel != null && fresh(wakeupChannel) && wakeupChannel.loop == this && wakeupChannel.fd == wakeupFd
      ensures wakeupChannel.events == ReadEvent && wakeupChannel.handlers.read
      ensures poller.Valid() && poller.channels == map[timerFd := timerChannel, wakeupFd := wakeupChannel]
      ensures poller.pollfds == [NewSlot(timerFd, ReadEvent), NewSlot(wakeupFd, ReadEvent)]
    {
      looping := false;
      quit := false;
      eventHandling := false;
      callingPendingFunctors := false;
      iteration := 0;
      pollReturnTime := Timestamp(0);
      poller := new PollPoller();
      this.timerFd := timerFd;
      this.wakeupFd := wakeupFd;
      wakeupCounter := 0;
      pendingFunctors := [];
      activeChannels := [];
      currentActiveChannel := null;
      ran := [];
      new;
      StartChannels();
      slot.loop := this;
    }

    /** The two registrations the constructor makes on an empty poller: the
        timer queue's channel first, then the wakeup channel. */
    method StartChannels()
      requires timerFd >= 0 && wakeupFd >= 0 && timerFd != wakeupFd
      requires poller.Valid() && poller.channels == map[] && poller.pollfds == []
      modifies this`timerChannel, this`wakeupChannel, poller
      ensures timerChannel != null && fresh(timerChannel) && timerChannel.loop == this && timerChannel.fd == timerFd
      ensures timerChannel.events == ReadEvent && timerChannel.handlers.read
      ensures wakeupChannel != null && fresh(wakeupChannel) && wakeupChannel.loop == this && wakeupChannel.fd == wakeupFd
      ensures wakeupChannel.events == ReadEvent && wakeupChannel.handlers.read
      ensures poller.Valid() && poller.channels == map[timerFd := timerChannel, wakeupFd := wakeupChannel]
      ensures poller.pollfds == [NewSlot(timerFd, ReadEvent), NewSlot(wakeupFd, ReadEvent)]
      ensures Idle() == old(Idle()) && Progress() == old(Progress()) && wakeupCounter == old(wakeupCounter)
    {
      StartTimerQueue();
      assert poller.pollfds == [NewSlot(timerFd, ReadEvent)];
      StartWakeup();
      assert poller.pollfds == [NewSlot(timerFd, ReadEvent)] + [NewSlot(wakeupFd, ReadEvent)];
    }

    /** The timer queue's constructor: its channel reads the timerfd and
        takes the next slot of the poller. */
    method StartTimerQueue()
      requires timerFd >= 0 && poller.Valid() && timerFd !in poller.channels
      modifies this`timerChannel, poller
      ensures timerChannel != null && fresh(timerChannel) && timerChannel.loop == this && timerChannel.fd == timerFd
      ensures timerChannel.events == ReadEvent && timerChannel.handlers.read
      ensures poller.Valid() && poller.channels == old(poller.channels)[timerFd := timerChannel]
      ensures poller.pollfds == old(poller.pollfds) + [NewSlot(timerFd, ReadEvent)]
      ensures Idle() == old(Idle()) && Progress() == old(Progress()) && wakeupCounter == old(wakeupCounter)
      ensures wakeupChannel == old(wakeupChannel)
    {
      timerChannel := NewReadingChannel(timerFd);
    }

    /** The wakeup channel reads the eventfd and takes the next slot of the
        poller. */
    method StartWakeup()
      requires wakeupFd >= 0 && poller.Valid() && wakeupFd !in poller.channels
      modifies this`wakeupChannel, poller
      ensures wakeupChannel != null && fresh(wakeupChannel) && wakeupChannel.loop == this && wakeupChannel.fd == wakeupFd
      ensures wakeupChannel.events == ReadEvent && wakeupChannel.handlers.read
      ensures poller.Valid() && poller.channels == old(poller.channels)[wakeupFd := wakeupChannel]
      ensures poller.pollfds == old(poller.pollfds) + [NewSlot(wakeupFd, ReadEvent)]
      ensures Idle() == old(Idle()) && Progress() == old(Progress()) && wakeupCounter == old(wakeupCounter)
      ensures timerChannel == old(timerChannel)
    {
      wakeupChannel := NewReadingChannel(wakeupFd);
    }

    /** A fresh channel on fd with a read callback, registered for reading
        with the poller: the poller's channels gain it and its slot is
        appended. */
    method NewReadingChannel(fd: int) returns (ch: Channel)
      requires fd >= 0 && poller.Valid() && fd !in poller.channels
      modifies poller
      ensures fresh(ch) && ch.loop == this && ch.fd == fd
      ensures ch.events == ReadEvent && ch.handlers.read
      ensures poller.Valid() && poller.channels == old(poller.channels)[fd := ch]
      ensures poller.pollfds == old(poller.pollfds) + [NewSlot(fd, ReadEvent)]
    {
      ch := new Channel(this, fd);
      ch.SetReadCallback(true);
      ch.EnableReading();
      assert ch.events == ReadEvent;
    }

    /** The destructor: the wakeup channel loses all interest and leaves the
        poller, and the thread's slot is cleared; then the timer queue's
        destructor does the same with the timerfd channel. */
    method Destroy(slot: ThreadSlot)
      requires slot.loop == this && timerFd != wakeupFd
      requires wakeupChannel != null && wakeupChannel.loop == this && wakeupChannel.fd == wakeupFd
      requires timerChannel != null && timerChannel.loop == this && timerChannel.fd == timerFd
      requires poller.Valid() && HasChannel(poller.channels, wakeupChannel) && HasChannel(poller.channels, timerChannel)
      requires eventHandling ==> currentActiveChannel == wakeupChannel || wakeupChannel !in activeChannels
      requires eventHandling ==> currentActiveChannel == timerChannel || timerChannel !in activeChannels
      modifies slot, poller, poller.channels.Values
      ensures slot.loop == null
      ensures poller.Valid() && !HasChannel(poller.channels, wakeupChannel) && !HasChannel(poller.channels, timerChannel)
      ensures poller.channels == old(poller.channels) - {wakeupFd, timerFd}
      ensures !wakeupChannel.addedToLoop && IsNoneEvent(wakeupChannel.events)
      ensures !timerChannel.addedToLoop && IsNoneEvent(timerChannel.events)
    {
      slot.loop := null;
      var wakeup, timer := wakeupChannel, timerChannel;
      wakeup.Detach();
      assert wakeup !in poller.channels.Values by {
        forall k | k in poller.channels
          ensures poller.channels[k] != wakeup
        {
          assert poller.channels[k].fd == k;
        }
      }
      timer.Detach();
    }

    /** Writes one to the wakeup eventfd. */
    method Wakeup()
      modifies this
      ensures wakeupCounter == old(wakeupCounter) + 1
      ensures quit == old(quit) && pendingFunctors == old(pendingFunctors) && ran == old(ran)
      ensures callingPendingFunctors == old(callingPendingFunctors) && eventHandling == old(eventHandling)
      ensures activeChannels == old(activeChannels) && currentActiveChannel == old(currentActiveChannel)
      ensures looping == old(looping) && iteration == old(iteration) && wakeupChannel == old(wakeupChannel)
      ensures pollReturnTime == old(pollReturnTime)
    {
      wakeupCounter := wakeupCounter + 1;
    }

    /** The wakeup channel's read callback: reading the eventfd resets it. */
    method HandleRead()
      modifies this
      ensures wakeupCounter == 0
      ensures quit == old(quit) && pendingFunctors == old(pendingFunctors) && ran == old(ran)
      ensures callingPendingFunctors == old(callingPendingFunctors) && eventHandling == old(eventHandling)
      ensures activeChannels == old(activeChannels) && currentActiveChannel == old(currentActiveChannel)
      ensures looping == old(looping) && iteration == old(iteration) && wakeupChannel == old(wakeupChannel)
      ensures pollReturnTime == old(pollReturnTime)
    {
      wakeupCounter := 0;
    }

    /** Sets quit; the loop is woken only when the caller is another thread. */
    method Quit(inLoopThread: bool)
      modifies this
      ensures quit
      ensures wakeupCounter == old(wakeupCounter) + (if inLoopThread then 0 else 1)
      ensures pendingFunctors == old(pendingFunctors) && ran == old(ran)
      ensures callingPendingFunctors == old(callingPendingFunctors) && eventHandling == old(eventHandling)
      ensures activeChannels == old(activeChannels) && currentActiveChannel == old(currentActiveChannel)
      ensures looping == old(looping) && iteration == old(iteration) && wakeupChannel == old(wakeupChannel)
      ensures pollReturnTime == old(pollReturnTime)
    {
      quit := true;
      if !inLoopThread {
        Wakeup();
      }
    }

    /** Appends the task to the pending list, waking the loop when the caller
        is another thread or the pending tasks are being run right now. */
    method QueueInLoop(task: Task, inLoopThread: bool)
      modifies this
      ensures pendingFunctors == old(pendingFunctors) + [task]
      ensures wakeupCounter == old(wakeupCounter) + (if !inLoopThread || callingPendingFunctors then 1 else 0)
      ensures quit == old(quit) && ran == old(ran)
      ensures callingPendingFunctors == old(callingPendingFunctors) && eventHandling == old(eventHandling)
      ensures activeChannels == old(activeChannels) && currentActiveChannel == old(currentActiveChannel)
      ensures looping == old(looping) && iteration == old(iteration) && wakeupChannel == old(wakeupChannel)
      ensures pollReturnTime == old(pollReturnTime)
    {
      pendingFunctors := pendingFunctors + [task];
      if !inLoopThread || callingPendingFunctors {
        Wakeup();
      }
    }

    /** Runs a task on the loop thread: what it queues goes to the pending
        list, and it may quit the loop. */
    method Run(task: Task)
      modifies this
      ensures ran == old(ran) + [task]
      ensures pendingFunctors == old(pendingFunctors) + task.queues
      ensures wakeupCounter == old(wakeupCounter) + (if callingPendingFunctors then |task.queues| else 0)
      ensures quit == (old(quit) || task.quits)
      ensures callingPendingFunctors == old(callingPendingFunctors) && eventHandling == old(eventHandling)
      ensures activeChannels == old(activeChannels) && currentActiveChannel == old(currentActiveChannel)
      ensures looping == old(looping) && iteration == old(iteration) && wakeupChannel == old(wakeupChannel)
      ensures pollReturnTime == old(pollReturnTime)
    {
      ran := ran + [task];
      var i := 0;
      while i < |task.queues|
        invariant 0 <= i <= |task.queues|
        invariant ran == old(ran) + [task] && quit == old(quit)
        invariant pendingFunctors == old(pendingFunctors) + task.queues[..i]
        invariant wakeupCounter == old(wakeupCounter) + (if callingPendingFunctors then i else 0)
        invariant callingPendingFunctors == old(callingPendingFunctors) && eventHandling == old(eventHandling)
        invariant activeChannels == old(activeChannels) && currentActiveChannel == old(currentActiveChannel)
        invariant looping == old(looping) && iteration == old(iteration) && wakeupChannel == old(wakeupChannel)
        invariant pollReturnTime == old(pollReturnTime)
      {
        QueueInLoop(task.queues[i], true);
        assert task.queues[..i + 1] == task.queues[..i] + [task.queues[i]];
        i := i + 1;
      }
      assert task.queues[..i] == task.queues;
      if task.quits {
        Quit(true);
      }
    }

    /** On the loop thread the task runs at once; elsewhere it is queued. */
    method RunInLoop(task: Task, inLoopThread: bool)
      modifies this
      ensures inLoopThread ==> ran == old(ran) + [task] && pendingFunctors == old(pendingFunctors) + task.queues
                               && quit == (old(quit) || task.quits)
      ensures !inLoopThread ==> ran == old(ran) && pendingFunctors == old(pendingFunctors) + [task]
                                && quit == old(quit) && wakeupCounter == old(wakeupCounter) + 1
      ensures callingPendingFunctors == old(callingPendingFunctors) && eventHandling == old(eventHandling)
      ensures activeChannels == old(activeChannels) && currentActiveChannel == old(currentActiveChannel)
      ensures looping == old(looping) && iteration == old(iteration) && wakeupChannel == old(wakeupChannel)
      ensures pollReturnTime == old(pollReturnTime)
    {
      if inLoopThread {
        Run(task);
      } else {
        QueueInLoop(task, inLoopThread);
      }
    }

    /** Takes the whole pending list in one swap and runs exactly those
        tasks, in order; what they queue waits for the next round and, being
        queued while the pending tasks run, wakes the loop. */
    method DoPendingFunctors()
      modifies this
      ensures ran == old(ran) + old(pendingFunctors)
      ensures pendingFunctors == Spawned(old(pendingFunctors))
      ensures wakeupCounter == old(wakeupCounter) + |Spawned(old(pendingFunctors))|
      ensures quit == (old(quit) || AnyQuits(old(pendingFunctors)))
      ensures !callingPendingFunctors && eventHandling == old(eventHandling)
      ensures activeChannels == old(activeChannels) && currentActiveChannel == old(currentActiveChannel)
      ensures looping == old(looping) && iteration == old(iteration) && wakeupChannel == old(wakeupChannel)
      ensures pollReturnTime == old(pollReturnTime)
    {
      callingPendingFunctors := true;
      var functors := pendingFunctors;
      pendingFunctors := [];
      var i := 0;
      while i < |functors|
        invariant 0 <= i <= |functors| && callingPendingFunctors
        invariant ran == old(ran) + functors[..i]
        invariant pendingFunctors == Spawned(functors[..i])
        invariant wakeupCounter == old(wakeupCounter) + |Spawned(functors[..i])|
        invariant quit == (old(quit) || AnyQuits(functors[..i]))
        invariant eventHandling == old(eventHandling)
        invariant activeChannels == old(activeChannels) && currentActiveChannel == old(currentActiveChannel)
        invariant looping == old(looping) && iteration == old(iteration) && wakeupChannel == old(wakeupChannel)
        invariant pollReturnTime == old(pollReturnTime)
      {
        Run(functors[i]);
        assert functors[..i + 1][..i] == functors[..i];
        i := i + 1;
      }
      assert functors[..i] == functors;
      callingPendingFunctors := false;
    }

    /** `updateChannel`: forwards to the poller. */
    method UpdateChannel(ch: Channel)
      requires ch.loop == this
      requires poller.ValidBut(ch.fd)
      requires ch.index < 0 ==> ch.fd >= 0 && ch.fd !in poller.channels
      requires ch.index >= 0 ==> HasChannel(poller.channels, ch)
      modifies poller, ch
      ensures poller.Valid() && HasChannel(poller.channels, ch)
      ensures poller.channels == old(poller.channels)[ch.fd := ch]
      ensures old(ch.index) < 0 ==> ch.index == |old(poller.pollfds)|
                                    && poller.pollfds == old(poller.pollfds) + [NewSlot(ch.fd, ch.events)]
      ensures old(ch.index) >= 0 ==> ch.index == old(ch.index) && ch.fd >= 0 && ch.index < |old(poller.pollfds)|
                                     && poller.pollfds == old(poller.pollfds)[ch.index := RewrittenSlot(ch.fd, ch.events)]
      ensures ch.events == old(ch.events) && ch.Flags() == old(ch.Flags())
    {
      poller.UpdateChannel(ch);
    }

    /** `removeChannel`: while events are being handled, only the channel
        being handled or one that is not about to be handled may go. */
    method RemoveChannel(ch: Channel)
      requires ch.loop == this
      requires eventHandling ==> currentActiveChannel == ch || ch !in activeChannels
      requires poller.Valid() && HasChannel(poller.channels, ch) && IsNoneEvent(ch.events)
      requires 0 <= ch.index < |poller.pollfds| && poller.pollfds[ch.index].fd == -ch.fd - 1
      modifies poller, poller.channels.Values
      ensures poller.Valid() && !HasChannel(poller.channels, ch)
      ensures poller.channels == old(poller.channels) - {ch.fd}
      ensures poller.pollfds == SwapPop(old(poller.pollfds), old(ch.index))
      ensures ch.index == old(ch.index) && ch.events == old(ch.events) && ch.Flags() == old(ch.Flags())
    {
      poller.RemoveChannel(ch);
    }

    /** `hasChannel`: asks the poller. */
    method HasChannelIn(ch: Channel) returns (r: bool)
      requires ch.loop == this
      ensures r <==> HasChannel(poller.channels, ch)
    {
      r := ch.fd in poller.channels && poller.channels[ch.fd] == ch;
    }

    /** One round of `loop()`: poll, dispatch every active channel with the
        poll's return time, then run the pending tasks. */
    method LoopIteration(input: PollInput) returns (fired: seq<seq<Callback>>)
      requires poller.Valid() && Fits(input, poller.pollfds)
      modifies this, poller, poller.channels.Values
      ensures poller.Valid() && poller.channels == old(poller.channels)
      ensures poller.pollfds == WithRevents(old(poller.pollfds), input.returned)
      ensures iteration == old(iteration) + 1 && pollReturnTime == input.now
      ensures |fired| == |activeChannels|
      ensures forall k | 0 <= k < |activeChannels| :: fired[k] == Fired(activeChannels[k].Flags())
      ensures !eventHandling && currentActiveChannel == null
      ensures ran == old(ran) + old(pendingFunctors)
      ensures pendingFunctors == Spawned(old(pendingFunctors))
      ensures quit == (old(quit) || AnyQuits(old(pendingFunctors)))
      ensures looping == old(looping)
    {
      PollRound(input);
      label Polled:
      fired := DispatchActive();
      StillValid@Polled(poller);
      DoPendingFunctors();
    }

    /** The polling half of a round: the returned channels become the active
        ones, stamped with the poll's return time. */
    method PollRound(input: PollInput)
      requires poller.Valid() && Fits(input, poller.pollfds)
      modifies this, poller, poller.channels.Values
      ensures iteration == old(iteration) + 1 && pollReturnTime == input.now
      ensures eventHandling == old(eventHandling) && looping == old(looping)
      ensures pendingFunctors == old(pendingFunctors) && ran == old(ran) && quit == old(quit)
      ensures poller.Valid() && poller.channels == old(poller.channels)
      ensures poller.pollfds == WithRevents(old(poller.pollfds), input.returned)
      ensures input.numEvents <= 0 ==> activeChannels == []
      ensures forall c | c in activeChannels :: c in poller.channels.Values
    {
      var active, now, logged := poller.Poll(input);
      iteration := iteration + 1;
      activeChannels, pollReturnTime := active, now;
    }

    /** The dispatch half of a round: each active channel in turn becomes the
        current one and handles its returned events; the wakeup channel's read
        callback drains the eventfd. */
    method DispatchActive() returns (fired: seq<seq<Callback>>)
      requires forall c | c in activeChannels :: c in poller.channels.Values
      modifies this, poller.channels.Values
      ensures |fired| == |activeChannels|
      ensures forall k | 0 <= k < |activeChannels| :: fired[k] == Fired(activeChannels[k].Flags())
      ensures !eventHandling && currentActiveChannel == null
      ensures activeChannels == old(activeChannels) && Progress() == old(Progress())
      ensures forall c | c in poller.channels.Values :: c.index == old(c.index) && c.events == old(c.events)
    {
      eventHandling := true;
      fired := [];
      var k := 0;
      while k < |activeChannels|
        invariant 0 <= k <= |activeChannels| && |fired| == k
        invariant eventHandling && activeChannels == old(activeChannels) && Progress() == old(Progress())
        invariant forall c | c in poller.channels.Values :: c.index == old(c.index) && c.events == old(c.events)
        invariant forall j | 0 <= j < k :: fired[j] == Fired(activeChannels[j].Flags())
      {
        fired := TakeTurn(k, fired);
        k := k + 1;
      }
      currentActiveChannel := null;
      eventHandling := false;
    }

    /** The turn of active channel k, the callbacks of the earlier ones
        having fired. */
    method TakeTurn(k: nat, fired: seq<seq<Callback>>) returns (fired': seq<seq<Callback>>)
      requires k < |activeChannels| && |fired| == k
      requires forall j | 0 <= j < k :: fired[j] == Fired(activeChannels[j].Flags())
      modifies this, activeChannels[k]
      ensures eventHandling == old(eventHandling) && activeChannels == old(activeChannels)
      ensures |fired'| == k + 1 && forall j | 0 <= j <= k :: fired'[j] == Fired(activeChannels[j].Flags())
      ensures Progress() == old(Progress())
      ensures activeChannels[k].index == old(activeChannels[k].index)
      ensures activeChannels[k].events == old(activeChannels[k].events)
    {
      var f := HandleActive(activeChannels[k]);
      forall j | 0 <= j <= k
        ensures (fired + [f])[j] == Fired(activeChannels[j].Flags())
      {
        if j < k {
          assert Fired(activeChannels[j].Flags()) == Fired(old(activeChannels[j].Flags()));
        }
      }
      fired' := fired + [f];
    }

    /** One active channel's turn: it becomes the current channel and handles
        its returned events; when it is the wakeup channel and its read
        callback fires, the eventfd is drained. */
    method HandleActive(channel: Channel) returns (f: seq<Callback>)
      modifies this, channel
      ensures channel.index == old(channel.index) && channel.events == old(channel.events)
      ensures f == Fired(old(channel.Flags())) == Fired(channel.Flags())
      ensures currentActiveChannel == channel
      ensures wakeupCounter == if channel == wakeupChannel && ReadCallback in f then 0 else old(wakeupCounter)
      ensures eventHandling == old(eventHandling) && activeChannels == old(activeChannels)
      ensures Progress() == old(Progress())
    {
      currentActiveChannel := channel;
      f := channel.HandleEvent(pollReturnTime);
      if channel == wakeupChannel && ReadCallback in f {
        HandleRead();
      }
    }

    /** The poll results of the rounds from `from` on fit the poller's slots. */
    ghost predicate FitsFrom(script: seq<PollInput>, from: nat)
      reads this, poller
    {
      forall k | from <= k < |script| :: Fits(script[k], poller.pollfds)
    }

    /** After n rounds of `loop()` that started with `ran0` run and `first`
        queued: the rounds ran their batches in order, the next batch is
        queued, no round but the last asked to quit, and quit is set exactly
        when the last round's batch asked to. */
    ghost predicate RanRounds(ran0: seq<Task>, first: seq<Task>, n: nat)
      reads this
    {
      && ran == ran0 + RanBy(first, n) && pendingFunctors == Batch(first, n)
      && (forall r: nat | r + 1 < n :: !AnyQuits(Batch(first, r)))
      && (quit <==> n > 0 && AnyQuits(Batch(first, n - 1)))
    }

    /** `loop()`: must not already be looping; clears quit, then runs rounds
        until a round leaves quit set. The rounds' poll results are given in
        order; the model stops when they run out. Round r runs
        Batch(first, r), where first is what was queued before the loop
        started: no round but the last runs a task that asks to quit, and
        quit is set at the end exactly when the last round's batch did. */
    method Loop(script: seq<PollInput>) returns (rounds: nat)
      requires !looping && poller.Valid()
      requires forall k | 0 <= k < |script| :: Fits(script[k], poller.pollfds)
      modifies this, poller, poller.channels.Values
      ensures !looping && poller.Valid() && poller.channels == old(poller.channels)
      ensures rounds <= |script| && iteration == old(iteration) + rounds
      ensures rounds < |script| ==> quit
      ensures ran == old(ran) + RanBy(old(pendingFunctors), rounds)
      ensures pendingFunctors == Batch(old(pendingFunctors), rounds)
      ensures forall r: nat | r + 1 < rounds :: !AnyQuits(Batch(old(pendingFunctors), r))
      ensures quit <==> rounds > 0 && AnyQuits(Batch(old(pendingFunctors), rounds - 1))
    {
      looping := true;
      quit := false;
      rounds := Rounds(script);
      looping := false;
    }

    /** The rounds of `loop()`, from a cleared quit flag until a round sets it
        or the poll results run out. */
    method Rounds(script: seq<PollInput>) returns (rounds: nat)
      requires looping && !quit && poller.Valid() && FitsFrom(script, 0)
      modifies this, poller, poller.channels.Values
      ensures looping && poller.Valid() && poller.channels == old(poller.channels)
      ensures rounds <= |script| && iteration == old(iteration) + rounds
      ensures rounds < |script| ==> quit
      ensures RanRounds(old(ran), old(pendingFunctors), rounds)
    {
      ghost var first := pendingFunctors;
      rounds := 0;
      while rounds < |script| && !quit
        invariant rounds <= |script| && iteration == old(iteration) + rounds
        invariant looping && poller.Valid() && poller.channels == old(poller.channels)
        invariant FitsFrom(script, rounds) && RanRounds(old(ran), first, rounds)
      {
        Round(script, rounds, old(ran), first);
        rounds := rounds + 1;
      }
    }

    /** Round `round` of `loop()`, seen from the loop: it runs the batch
        Batch(first, round) and sets quit exactly when that batch asks to;
        the poll results still to come keep fitting the poller's slots. */
    method Round(script: seq<PollInput>, round: nat, ghost ran0: seq<Task>, ghost first: seq<Task>)
      requires round < |script| && poller.Valid()
      requires FitsFrom(script, round) && RanRounds(ran0, first, round) && !quit
      modifies this, poller, poller.channels.Values
      ensures poller.Valid() && poller.channels == old(poller.channels)
      ensures FitsFrom(script, round + 1) && RanRounds(ran0, first, round + 1)
      ensures iteration == old(iteration) + 1 && looping == old(looping)
    {
      label Start:
      var _ := LoopIteration(script[round]);
      forall k | round < k < |script|
        ensures Fits(script[k], poller.pollfds)
      {
        ReturnKeepsFits(old@Start(poller.pollfds), script[round], script[k]);
      }
    }
  }
}
