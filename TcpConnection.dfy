/** One TCP connection: its four-state life cycle, the channel interest it
    keeps, and the output buffer that takes what the socket does not accept
    at once.

    What the socket calls return (bytes written, bytes read, errno) is an
    input. The callbacks the user installs and the tasks handed to the loop
    are not run here: each call is recorded, in order, in `effects`. The
    channel's interest mask is kept in `interest`; registering it with the
    poller is the channel's business (module Reactor). */
module Tcp {
  import opened ByteOrder
  import opened Wrappers
  import opened PollEvents
  import opened Timestamps
  import opened NetBuffer
  import Reactor

  /** Linux errno values the send path tests for. */
  const EWOULDBLOCK := 11
  const EPIPE := 32
  const ECONNRESET := 104

  /** The default high-water mark, 8 MiB. */
  const DefaultHighWaterMark: nat := 8 * 1024 * 1024

  datatype StateE = Disconnected | Connecting | Connected | Disconnecting

  function StateToString(s: StateE): string
  {
    match s
    case Disconnected => "kDisconnected"
    case Connecting => "kConnecting"
    case Connected => "kConnected"
    case Disconnecting => "kDisconnecting"
  }

  lemma StateNamesDistinct(a: StateE, b: StateE)
    ensures StateToString(a) == StateToString(b) <==> a == b
  {
  }

  // ---------------------------------------------------------------------
  // The life cycle

  /** The operations that move the state. */
  datatype StateOp = Establish | Shutdown | ForceClose | Close | Destroy

  /** The state after an operation, or None where the source asserts the
      operation cannot happen (establishing twice, closing a connection that
      is not up). */
  function Step(s: StateE, op: StateOp): Option<StateE>
  {
    match op
    case Establish => if s == Connecting then Some(Connected) else None
    case Shutdown => Some(if s == Connected then Disconnecting else s)
    case ForceClose => Some(if s == Connected || s == Disconnecting then Disconnecting else s)
    case Close => if s == Connected || s == Disconnecting then Some(Disconnected) else None
    case Destroy => Some(if s == Connected then Disconnected else s)
  }

  /** Once disconnected a connection stays so, and only establishing
      reaches the connected state. */
  lemma StepProperties(s: StateE, op: StateOp)
    ensures s == Disconnected && Step(s, op).Some? ==> Step(s, op) == Some(Disconnected)
    ensures Step(s, op) == Some(Connected) ==> s == Connected || (s == Connecting && op == Establish)
    ensures Step(s, op) == Some(Connecting) ==> s == Connecting
  {
  }

  /** Force-closing twice is force-closing once, and so is shutting down. */
  lemma StepIdempotent(s: StateE)
    ensures Step(s, ForceClose).Some? && Step(Step(s, ForceClose).value, ForceClose) == Step(s, ForceClose)
    ensures Step(s, Shutdown).Some? && Step(Step(s, Shutdown).value, Shutdown) == Step(s, Shutdown)
  {
  }

  // ---------------------------------------------------------------------
  // Effects

  /** The member functions handed to the loop or to a timer. */
  datatype ConnTask =
    | SendInLoopTask(data: seq<Byte>)
    | ShutdownInLoopTask
    | ShutdownAndForceCloseInLoopTask(delayUs: int)
    | ForceCloseTask
    | ForceCloseInLoopTask
    | StartReadInLoopTask
    | StopReadInLoopTask
    | WriteCompleteTask
    | HighWaterMarkTask(size: nat)

  /** One observable step: a task queued on the loop, a task set to run
      after a delay, a callback call, or a socket call with no result. */
  datatype Effect =
    | Queued(task: ConnTask)
    | RunAfter(delayUs: int, task: ConnTask)
    | ConnectionCallback(connected: bool)
    | MessageCallback(receiveTime: Timestamp)
    | CloseCallback
    | ShutdownWrite
    | ErrorReported(soError: int)

  /** What one `write` call on the socket returned. */
  datatype WriteResult = WriteResult(n: int, errno: int)

  /** Appending `remaining` bytes to `oldLen` buffered ones crosses the
      high-water mark from below. */
  predicate CrossesHighWater(oldLen: nat, remaining: nat, mark: nat)
  {
    oldLen + remaining >= mark && oldLen < mark
  }

  /** The callback fires once per upward crossing: after a crossing, further
      appends cannot cross again until the buffer drains below the mark. */
  lemma CrossesOnce(oldLen: nat, a: nat, b: nat, mark: nat)
    requires CrossesHighWater(oldLen, a, mark)
    ensures !CrossesHighWater(oldLen + a, b, mark)
    ensures CrossesHighWater(oldLen, a, mark) <==> oldLen < mark <= oldLen + a
  {
  }

  /** `sendInLoop` tries the socket first only when the connection is up,
      nothing is pending and the channel is not writing. */
  predicate DirectWrite(state: StateE, pending: seq<Byte>, interest: Mask)
  {
    state != StateE.Disconnected && pending == [] && !IsWriting(interest)
  }

  /** The bytes the socket took: none unless a direct write succeeded. */
  function Written(direct: bool, w: WriteResult): (n: nat)
    ensures n > 0 ==> direct && w.n == n
  {
    if direct && w.n >= 0 then w.n else 0
  }

  /** A direct write that failed with EPIPE or ECONNRESET drops the data;
      EWOULDBLOCK and other errors leave it to be buffered. */
  predicate Faulted(direct: bool, w: WriteResult)
  {
    direct && w.n < 0 && w.errno != EWOULDBLOCK && (w.errno == EPIPE || w.errno == ECONNRESET)
  }

  /** The callbacks an in-loop `send` queues, given the connection state,
      the pending bytes and the interest mask before it and the callbacks
      that are set: the write-complete callback after a complete direct
      write, then the high-water-mark callback when the buffered rest
      crosses the mark. */
  function SendEffects(state: StateE, data: seq<Byte>, w: WriteResult, pending: seq<Byte>, mask: Mask,
                       writeComplete: bool, highWater: bool, mark: nat): seq<Effect>
  {
    var direct := DirectWrite(state, pending, mask);
    var n := Written(direct, w);
    var kept := state != StateE.Disconnected && !Faulted(direct, w);
    (if direct && w.n == |data| && writeComplete then [Queued(WriteCompleteTask)] else [])
    + (if kept && n < |data| && highWater && CrossesHighWater(|pending|, |data| - n, mark)
       then [Queued(HighWaterMarkTask(|pending| + |data| - n))] else [])
  }

  class TcpConnection<Context> {
    /** The loop the connection lives on. */
    const loop: Reactor.EventLoop
    const name: string
    const fd: int
    var state: StateE
    var reading: bool
    /** The channel's interest mask. */
    var interest: Mask
    /** The channel is tied to this connection. */
    var tied: bool
    /** The channel has been removed from its loop. */
    var channelRemoved: bool
    var highWaterMark: nat
    var hasWriteCompleteCallback: bool
    var hasHighWaterMarkCallback: bool
    var context: Option<Context>
    const inputBuffer: Buffer
    const outputBuffer: Buffer
    var effects: seq<Effect>
    /** Every byte the connection has taken on to send, in order, and the
        part of it the socket has accepted. */
    ghost var accepted: seq<Byte>
    ghost var flushed: seq<Byte>

    /** The bytes still waiting in the output buffer. */
    function Pending(): seq<Byte>
      reads outputBuffer
      requires outputBuffer.Valid()
    {
      outputBuffer.State().Readable()
    }

    /** The buffers are distinct and well formed; write interest is on exactly while output is pending on a
        live connection; and the socket has been given a prefix of what was
        taken on, the rest being pending, in order. */
    ghost predicate Valid()
      reads this`state, this`interest, this`accepted, this`flushed, outputBuffer, inputBuffer
    {
      && inputBuffer != outputBuffer && inputBuffer.Valid() && outputBuffer.Valid()
      && (IsWriting(interest) <==> Pending() != [] && state != StateE.Disconnected)
      && flushed + Pending() == accepted
    }

    function IsConnected(): bool
      reads this
    {
      state == StateE.Connected
    }

    function IsDisconnected(): bool
      reads this
    {
      state == StateE.Disconnected
    }

    function ReadingEnabled(): bool
      reads this
    {
      reading
    }

    function GetContext(): Option<Context>
      reads this
    {
      context
    }

    /** A new connection is connecting, reading, with an 8 MiB high-water
        mark, no interest and empty buffers. */
    constructor(loop: Reactor.EventLoop, name: string, sockfd: int)
      ensures this.loop == loop && this.name == name && fd == sockfd
      ensures state == Connecting && reading && IsNoneEvent(interest) && !tied && !channelRemoved
      ensures highWaterMark == DefaultHighWaterMark && !hasWriteCompleteCallback && !hasHighWaterMarkCallback
      ensures context == None && effects == [] && accepted == []
      ensures Valid() && Pending() == [] && inputBuffer.State().Readable() == []
      ensures fresh(inputBuffer) && fresh(outputBuffer)
    {
      this.loop := loop;
      this.name := name;
      fd := sockfd;
      state := Connecting;
      reading := true;
      interest := NoneEvent;
      tied := false;
      channelRemoved := false;
      highWaterMark := DefaultHighWaterMark;
      hasWriteCompleteCallback := false;
      hasHighWaterMarkCallback := false;
      context := None;
      inputBuffer := new Buffer(InitialSize);
      outputBuffer := new Buffer(InitialSize);
      effects := [];
      accepted := [];
      flushed := [];
    }

    method SetContext(ctx: Context)
      modifies this`context
      ensures GetContext() == Some(ctx)
    {
      context := Some(ctx);
    }

    method SetWriteCompleteCallback(isSet: bool)
      modifies this`hasWriteCompleteCallback
      ensures hasWriteCompleteCallback == isSet
    {
      hasWriteCompleteCallback := isSet;
    }

    /** Replaces the callback and the threshold together. */
    method SetHighWaterMarkCallback(isSet: bool, mark: nat)
      modifies this`hasHighWaterMarkCallback, this`highWaterMark
      ensures hasHighWaterMarkCallback == isSet && highWaterMark == mark
    {
      hasHighWaterMarkCallback := isSet;
      highWaterMark := mark;
    }

    /** `sendInLoop`: gives up on a closed connection. Writes straight to
        the socket only when nothing is pending and writing is off; what the
        socket does not take is buffered, with write interest on, unless the
        write failed with EPIPE or ECONNRESET. `wrote` is what the socket
        took. */
    method SendInLoop(data: seq<Byte>, w: WriteResult) returns (wrote: seq<Byte>)
      requires Valid() && w.n <= |data|
      modifies this`interest, this`effects, this`accepted, this`flushed, outputBuffer
      ensures Valid()
      ensures PollEvents.IsReading(interest) == PollEvents.IsReading(old(interest))
      ensures state == StateE.Disconnected ==> wrote == [] && Pending() == old(Pending()) && effects == old(effects)
      ensures wrote != [] ==> old(Pending()) == [] && !IsWriting(old(interest))
      ensures var direct := DirectWrite(state, old(Pending()), old(interest));
              var n := Written(direct, w);
              var kept := state != StateE.Disconnected && !Faulted(direct, w);
              && wrote == data[..n]
              && Pending() == (if kept then old(Pending()) + data[n..] else old(Pending()))
              && accepted == (if kept then old(accepted) + data else old(accepted))
              && (kept ==> wrote + Pending() == old(Pending()) + data)
              && effects == old(effects) + SendEffects(state, data, w, old(Pending()), old(interest),
                                                       hasWriteCompleteCallback, hasHighWaterMarkCallback, highWaterMark)
    {
      wrote := [];
      if state == StateE.Disconnected {
        return;
      }
      var nwrote := 0;
      var faultError := false;
      if !IsWriting(interest) && outputBuffer.State().ReadableBytes() == 0 {
        nwrote, faultError := TryWrite(data, w);
      }
      wrote := data[..nwrote];
      if !faultError {
        TakeOn(data, nwrote);
      }
    }

    /** The direct write of `sendInLoop`: the bytes the socket took, and
        whether the failure was a fault that drops the data; a complete
        write queues the write-complete callback. */
    method TryWrite(data: seq<Byte>, w: WriteResult) returns (nwrote: nat, faultError: bool)
      requires w.n <= |data|
      modifies this`effects
      ensures nwrote == Written(true, w) && faultError == Faulted(true, w) && nwrote <= |data|
      ensures effects == old(effects) + (if w.n == |data| && hasWriteCompleteCallback then [Queued(WriteCompleteTask)] else [])
    {
      faultError := false;
      if w.n >= 0 {
        nwrote := w.n;
        var remaining := |data| - w.n;
        if remaining == 0 && hasWriteCompleteCallback {
          effects := effects + [Queued(WriteCompleteTask)];
        }
      } else {
        nwrote := 0;
        if w.errno != EWOULDBLOCK {
          if w.errno == EPIPE || w.errno == ECONNRESET {
            faultError := true;
          }
        }
      }
    }

    /** The tail of `sendInLoop` once no fault occurred: the bytes after
        the first `nwrote` are appended to the output buffer, queueing the
        high-water-mark callback on an upward crossing, and writing is
        turned on. */
    method TakeOn(data: seq<Byte>, nwrote: nat)
      requires Valid() && nwrote <= |data| && state != StateE.Disconnected
      requires nwrote > 0 ==> Pending() == [] && !IsWriting(interest)
      modifies this`interest, this`effects, this`accepted, this`flushed, outputBuffer
      ensures Valid()
      ensures PollEvents.IsReading(interest) == PollEvents.IsReading(old(interest))
      ensures Pending() == old(Pending()) + data[nwrote..] && accepted == old(accepted) + data
      ensures effects == old(effects)
                 + (if nwrote < |data| && hasHighWaterMarkCallback
                       && CrossesHighWater(|old(Pending())|, |data| - nwrote, highWaterMark)
                    then [Queued(HighWaterMarkTask(|old(Pending())| + |data| - nwrote))] else [])
    {
      ghost var pending := Pending();
      assert flushed + data[..nwrote] + (pending + data[nwrote..]) == accepted + data by {
        assert data == data[..nwrote] + data[nwrote..];
        if nwrote > 0 {
          assert flushed == accepted;
        }
      }
      flushed := flushed + data[..nwrote];
      accepted := accepted + data;
      var remaining := |data| - nwrote;
      if remaining > 0 {
        var oldLen := outputBuffer.State().ReadableBytes();
        if oldLen + remaining >= highWaterMark && oldLen < highWaterMark && hasHighWaterMarkCallback {
          effects := effects + [Queued(HighWaterMarkTask(oldLen + remaining))];
        }
        AppendPending(data[nwrote..]);
        if !IsWriting(interest) {
          interest := EnableWrite(interest);
        }
      } else {
        assert data[nwrote..] == [];
      }
    }

    /** Drops the first n pending bytes. */
    method RetrievePending(n: nat)
      requires outputBuffer.Valid() && n <= |Pending()|
      modifies outputBuffer
      ensures outputBuffer.Valid() && Pending() == old(Pending())[n..]
      ensures old(Pending())[..n] + Pending() == old(Pending())
    {
      outputBuffer.Retrieve(n);
    }

    /** Appends to the output buffer. */
    method AppendPending(tail: seq<Byte>)
      requires outputBuffer.Valid()
      modifies outputBuffer
      ensures outputBuffer.Valid() && Pending() == old(Pending()) + tail
    {
      outputBuffer.Append(tail);
    }

    /** `send`: acts only on a connected connection; off the loop thread the
        bytes are copied into a queued `sendInLoop`. */
    method Send(data: seq<Byte>, inLoopThread: bool, w: WriteResult) returns (wrote: seq<Byte>)
      requires Valid() && w.n <= |data|
      modifies this`interest, this`effects, this`accepted, this`flushed, outputBuffer
      ensures Valid() && state == old(state)
      ensures old(state) != StateE.Connected ==>
                wrote == [] && Pending() == old(Pending()) && effects == old(effects) && accepted == old(accepted)
      ensures old(state) == StateE.Connected && !inLoopThread ==>
                wrote == [] && Pending() == old(Pending()) && effects == old(effects) + [Queued(SendInLoopTask(data))]
      ensures old(state) == StateE.Connected && inLoopThread ==>
                var direct := DirectWrite(state, old(Pending()), old(interest));
                var n := Written(direct, w);
                var kept := state != StateE.Disconnected && !Faulted(direct, w);
                && wrote == data[..n]
                && Pending() == (if kept then old(Pending()) + data[n..] else old(Pending()))
                && accepted == (if kept then old(accepted) + data else old(accepted))
                && (kept ==> wrote + Pending() == old(Pending()) + data)
                && effects == old(effects) + SendEffects(StateE.Connected, data, w, old(Pending()), old(interest),
                                                         hasWriteCompleteCallback, hasHighWaterMarkCallback, highWaterMark)
    {
      wrote := [];
      if state == StateE.Connected {
        if inLoopThread {
          wrote := SendInLoop(data, w);
        } else {
          effects := effects + [Queued(SendInLoopTask(data))];
        }
      }
    }

    /** `send(Buffer*)`: as `send`, and the message buffer is drained in
        both branches. */
    method SendBuffer(message: Buffer, inLoopThread: bool, w: WriteResult) returns (wrote: seq<Byte>)
      requires Valid() && message.Valid() && message != outputBuffer && message != inputBuffer
      requires w.n <= message.State().ReadableBytes()
      modifies this`interest, this`effects, this`accepted, this`flushed, outputBuffer, message
      ensures Valid() && state == old(state)
      ensures old(state) != StateE.Connected ==>
                message.State() == old(message.State()) && effects == old(effects) && Pending() == old(Pending())
      ensures message.Valid() && (old(state) == StateE.Connected ==> message.State().Readable() == [])
      ensures old(state) == StateE.Connected && !inLoopThread ==>
                wrote == [] && Pending() == old(Pending())
                && effects == old(effects) + [Queued(SendInLoopTask(old(message.State().Readable())))]
      ensures old(state) == StateE.Connected && inLoopThread ==>
                var data := old(message.State().Readable());
                var direct := DirectWrite(StateE.Connected, old(Pending()), old(interest));
                var n := Written(direct, w);
                var kept := !Faulted(direct, w);
                && wrote == data[..n]
                && Pending() == (if kept then old(Pending()) + data[n..] else old(Pending()))
                && accepted == (if kept then old(accepted) + data else old(accepted))
                && (kept ==> wrote + Pending() == old(Pending()) + data)
                && effects == old(effects) + SendEffects(StateE.Connected, data, w, old(Pending()), old(interest),
                                                         hasWriteCompleteCallback, hasHighWaterMarkCallback, highWaterMark)
    {
      wrote := [];
      if state == StateE.Connected {
        if inLoopThread {
          wrote := SendReadableInLoop(message, w);
        } else {
          var data := message.RetrieveAllAsString();
          effects := effects + [Queued(SendInLoopTask(data))];
        }
      }
    }

    /** The loop-thread branch of `send(Buffer*)`: `sendInLoop` on the
        message's readable bytes, then the message is drained. */
    method SendReadableInLoop(message: Buffer, w: WriteResult) returns (wrote: seq<Byte>)
      requires Valid() && message.Valid() && message != outputBuffer && message != inputBuffer
      requires state == StateE.Connected && w.n <= message.State().ReadableBytes()
      modifies this`interest, this`effects, this`accepted, this`flushed, outputBuffer, message
      ensures Valid() && message.Valid() && message.State().Readable() == []
      ensures var data := old(message.State().Readable());
              var direct := DirectWrite(StateE.Connected, old(Pending()), old(interest));
              var n := Written(direct, w);
              var kept := !Faulted(direct, w);
              && wrote == data[..n]
              && Pending() == (if kept then old(Pending()) + data[n..] else old(Pending()))
              && accepted == (if kept then old(accepted) + data else old(accepted))
              && (kept ==> wrote + Pending() == old(Pending()) + data)
              && effects == old(effects) + SendEffects(StateE.Connected, data, w, old(Pending()), old(interest),
                                                       hasWriteCompleteCallback, hasHighWaterMarkCallback, highWaterMark)
    {
      var data := message.State().Readable();
      wrote := SendInLoop(data, w);
      ghost var pending, sentEffects, taken := Pending(), effects, accepted;
      message.RetrieveAll();
      assert Pending() == pending && effects == sentEffects && accepted == taken;
    }

    /** `handleWrite`: while writing, retrieves the n bytes the socket took;
        an emptied buffer turns writing off, queues the write-complete
        callback and finishes a pending shutdown. */
    method HandleWrite(n: int) returns (wrote: seq<Byte>)
      requires Valid() && n <= |Pending()|
      modifies this`interest, this`effects, this`flushed, outputBuffer
      ensures Valid()
      ensures PollEvents.IsReading(interest) == PollEvents.IsReading(old(interest))
      ensures wrote + Pending() == old(Pending())
      ensures !IsWriting(old(interest)) || n <= 0 ==> wrote == [] && interest == old(interest) && effects == old(effects)
      ensures IsWriting(old(interest)) && n > 0 ==>
                && wrote == old(Pending())[..n]
                && (Pending() != [] ==> interest == old(interest) && effects == old(effects))
                && (Pending() == [] ==>
                      && interest == DisableWrite(old(interest))
                      && effects == old(effects)
                         + (if hasWriteCompleteCallback then [Queued(WriteCompleteTask)] else [])
                         + (if state == Disconnecting then [ShutdownWrite] else []))
    {
      wrote := [];
      if IsWriting(interest) {
        if n > 0 {
          wrote := WriteOut(n);
        }
      }
    }

    /** The part of `handleWrite` after a write of n > 0 bytes. */
    method WriteOut(n: nat) returns (wrote: seq<Byte>)
      requires Valid() && IsWriting(interest) && 0 < n <= |Pending()|
      modifies this`interest, this`effects, this`flushed, outputBuffer
      ensures Valid()
      ensures PollEvents.IsReading(interest) == PollEvents.IsReading(old(interest))
      ensures wrote == old(Pending())[..n] && wrote + Pending() == old(Pending())
      ensures Pending() != [] ==> interest == old(interest) && effects == old(effects)
      ensures Pending() == [] ==>
                && interest == DisableWrite(old(interest))
                && effects == old(effects)
                   + (if hasWriteCompleteCallback then [Queued(WriteCompleteTask)] else [])
                   + (if state == Disconnecting then [ShutdownWrite] else [])
    {
      wrote := Pending()[..n];
      flushed := flushed + wrote;
      RetrievePending(n);
      if outputBuffer.State().ReadableBytes() == 0 {
        WriteComplete();
      }
    }

    /** The output buffer has drained: stop watching for writability, queue
        the write-complete callback and finish a pending shutdown. */
    method WriteComplete()
      requires inputBuffer != outputBuffer && inputBuffer.Valid() && outputBuffer.Valid()
      requires Pending() == [] && flushed == accepted
      modifies this`interest, this`effects
      ensures Valid()
      ensures PollEvents.IsReading(interest) == PollEvents.IsReading(old(interest))
      ensures interest == DisableWrite(old(interest))
      ensures effects == old(effects)
                + (if hasWriteCompleteCallback then [Queued(WriteCompleteTask)] else [])
                + (if state == Disconnecting then [ShutdownWrite] else [])
    {
      interest := DisableWrite(interest);
      if hasWriteCompleteCallback {
        effects := effects + [Queued(WriteCompleteTask)];
      }
      if state == Disconnecting {
        ShutdownInLoop();
      }
    }

    /** `shutdownInLoop`: closes the write half unless output is pending. */
    method ShutdownInLoop()
      modifies this`effects
      ensures effects == old(effects) + (if IsWriting(interest) then [] else [ShutdownWrite])
    {
      if !IsWriting(interest) {
        effects := effects + [ShutdownWrite];
      }
    }

    /** `shutdown`: only a connected connection starts disconnecting. */
    method Shutdown(inLoopThread: bool)
      requires Valid()
      modifies this`state, this`effects
      ensures Valid() && Some(state) == Step(old(state), StateOp.Shutdown)
      ensures old(state) != StateE.Connected ==> effects == old(effects)
      ensures old(state) == StateE.Connected ==>
                effects == old(effects) + (if !inLoopThread then [Queued(ShutdownInLoopTask)]
                                           else if IsWriting(interest) then [] else [ShutdownWrite])
    {
      if state == StateE.Connected {
        state := Disconnecting;
        if inLoopThread {
          ShutdownInLoop();
        } else {
          effects := effects + [Queued(ShutdownInLoopTask)];
        }
      }
    }

    method ShutdownAndForceCloseInLoop(delayUs: int)
      modifies this`effects
      ensures effects == old(effects) + (if IsWriting(interest) then [] else [ShutdownWrite])
                         + [RunAfter(delayUs, ForceCloseInLoopTask)]
    {
      ShutdownInLoop();
      effects := effects + [RunAfter(delayUs, ForceCloseInLoopTask)];
    }

    /** `shutdownAndForceCloseAfter`: as `shutdown`, and force-closes after
        the delay. */
    method ShutdownAndForceCloseAfter(delayUs: int, inLoopThread: bool)
      requires Valid()
      modifies this`state, this`effects
      ensures Valid() && Some(state) == Step(old(state), StateOp.Shutdown)
      ensures old(state) != StateE.Connected ==> effects == old(effects)
      ensures old(state) == StateE.Connected && !inLoopThread ==>
                effects == old(effects) + [Queued(ShutdownAndForceCloseInLoopTask(delayUs))]
      ensures old(state) == StateE.Connected && inLoopThread ==>
                effects == old(effects) + (if IsWriting(interest) then [] else [ShutdownWrite])
                           + [RunAfter(delayUs, ForceCloseInLoopTask)]
    {
      if state == StateE.Connected {
        state := Disconnecting;
        if inLoopThread {
          ShutdownAndForceCloseInLoop(delayUs);
        } else {
          effects := effects + [Queued(ShutdownAndForceCloseInLoopTask(delayUs))];
        }
      }
    }

    /** `forceClose`: acts on a connected or disconnecting connection, always
        through the loop's queue. */
    method ForceClose()
      requires Valid()
      modifies this`state, this`effects
      ensures Valid() && Some(state) == Step(old(state), StateOp.ForceClose)
      ensures effects == old(effects) + (if old(state) == StateE.Connected || old(state) == Disconnecting
                                         then [Queued(ForceCloseInLoopTask)] else [])
    {
      if state == StateE.Connected || state == Disconnecting {
        state := Disconnecting;
        effects := effects + [Queued(ForceCloseInLoopTask)];
      }
    }

    method ForceCloseWithDelay(delayUs: int)
      requires Valid()
      modifies this`state, this`effects
      ensures Valid() && Some(state) == Step(old(state), StateOp.ForceClose)
      ensures effects == old(effects) + (if old(state) == StateE.Connected || old(state) == Disconnecting
                                         then [RunAfter(delayUs, ForceCloseTask)] else [])
    {
      if state == StateE.Connected || state == Disconnecting {
        state := Disconnecting;
        effects := effects + [RunAfter(delayUs, ForceCloseTask)];
      }
    }

    /** `forceCloseInLoop`: closes only a connected or disconnecting
        connection, so a second force-close does nothing. */
    method ForceCloseInLoop()
      requires Valid()
      modifies this`state, this`interest, this`effects
      ensures Valid()
      ensures old(state) == StateE.Connected || old(state) == Disconnecting ==>
                state == StateE.Disconnected && IsNoneEvent(interest)
                && effects == old(effects) + [ConnectionCallback(false), Effect.CloseCallback]
      ensures old(state) != StateE.Connected && old(state) != Disconnecting ==>
                state == old(state) && interest == old(interest) && effects == old(effects)
    {
      if state == StateE.Connected || state == Disconnecting {
        HandleClose();
      }
    }

    /** `handleClose`: requires a live connection; disconnects, drops all
        interest, then calls the connection callback before the close
        callback. */
    method HandleClose()
      requires Valid() && (state == StateE.Connected || state == Disconnecting)
      modifies this`state, this`interest, this`effects
      ensures Valid() && Some(state) == Step(old(state), Close) && state == StateE.Disconnected
      ensures IsNoneEvent(interest)
      ensures effects == old(effects) + [ConnectionCallback(false), Effect.CloseCallback]
    {
      state := StateE.Disconnected;
      interest := NoneEvent;
      effects := effects + [ConnectionCallback(IsConnected())];
      effects := effects + [Effect.CloseCallback];
    }

    /** `handleError`: reports the socket's pending error. */
    method HandleError(soError: int)
      modifies this`effects
      ensures effects == old(effects) + [ErrorReported(soError)]
    {
      effects := effects + [ErrorReported(soError)];
    }

    /** `handleRead`: reads into the input buffer; data calls the message
        callback, end of stream closes, an error is reported. */
    method HandleRead(receiveTime: Timestamp, res: ReadvResult, soError: int)
      requires Valid() && ReadvFits(inputBuffer.State(), res)
      requires res == ReadvData([]) ==> state == StateE.Connected || state == Disconnecting
      modifies this`state, this`interest, this`effects, inputBuffer
      ensures Valid()
      ensures inputBuffer.State() == AfterReadFd(old(inputBuffer.State()), res)
      ensures res.ReadvData? && res.data != [] ==>
                state == old(state) && effects == old(effects) + [MessageCallback(receiveTime)]
      ensures res == ReadvData([]) ==>
                state == StateE.Disconnected && effects == old(effects) + [ConnectionCallback(false), Effect.CloseCallback]
      ensures res.ReadvError? ==> state == old(state) && effects == old(effects) + [ErrorReported(soError)]
    {
      var n, savedErrno := inputBuffer.ReadFd(res);
      if n > 0 {
        effects := effects + [MessageCallback(receiveTime)];
      } else if n == 0 {
        HandleClose();
      } else {
        HandleError(soError);
      }
    }

    /** `startReadInLoop`: turns reading on unless it already is. */
    method StartReadInLoop()
      requires Valid()
      modifies this`reading, this`interest
      ensures Valid() && reading && PollEvents.IsReading(interest)
      ensures IsWriting(interest) == IsWriting(old(interest))
      ensures old(reading) && PollEvents.IsReading(old(interest)) ==> interest == old(interest)
    {
      if !reading || !PollEvents.IsReading(interest) {
        interest := EnableRead(interest);
        reading := true;
      }
    }

    /** `stopReadInLoop`: turns reading off unless it already is. */
    method StopReadInLoop()
      requires Valid()
      modifies this`reading, this`interest
      ensures Valid() && !reading && !PollEvents.IsReading(interest)
      ensures IsWriting(interest) == IsWriting(old(interest))
      ensures !old(reading) && !PollEvents.IsReading(old(interest)) ==> interest == old(interest)
    {
      if reading || PollEvents.IsReading(interest) {
        interest := DisableRead(interest);
        reading := false;
      }
    }

    method StartRead(inLoopThread: bool)
      requires Valid()
      modifies this`reading, this`interest, this`effects
      ensures Valid()
      ensures inLoopThread ==> reading && PollEvents.IsReading(interest) && effects == old(effects)
      ensures !inLoopThread ==> interest == old(interest) && effects == old(effects) + [Queued(StartReadInLoopTask)]
    {
      if inLoopThread {
        StartReadInLoop();
      } else {
        effects := effects + [Queued(StartReadInLoopTask)];
      }
    }

    method StopRead(inLoopThread: bool)
      requires Valid()
      modifies this`reading, this`interest, this`effects
      ensures Valid()
      ensures inLoopThread ==> !reading && !PollEvents.IsReading(interest) && effects == old(effects)
      ensures !inLoopThread ==> interest == old(interest) && effects == old(effects) + [Queued(StopReadInLoopTask)]
    {
      if inLoopThread {
        StopReadInLoop();
      } else {
        effects := effects + [Queued(StopReadInLoopTask)];
      }
    }

    /** `connectEstablished`: requires a connecting connection; connects,
        ties the channel, turns reading on and calls the connection
        callback. */
    method ConnectEstablished()
      requires Valid() && state == Connecting
      modifies this`state, this`tied, this`interest, this`effects
      ensures Valid() && Some(state) == Step(old(state), Establish) && IsConnected()
      ensures tied && interest == EnableRead(old(interest))
      ensures effects == old(effects) + [ConnectionCallback(true)]
    {
      state := StateE.Connected;
      tied := true;
      interest := EnableRead(interest);
      effects := effects + [ConnectionCallback(IsConnected())];
    }

    /** `connectDestroyed`: a still connected connection is disconnected
        with its interest dropped and the connection callback called; the
        channel then leaves the loop, which requires it to have no
        interest. */
    method ConnectDestroyed()
      requires Valid() && (state == StateE.Connected || IsNoneEvent(interest))
      modifies this`state, this`interest, this`effects, this`channelRemoved
      ensures Valid() && Some(state) == Step(old(state), Destroy)
      ensures channelRemoved && IsNoneEvent(interest)
      ensures old(state) == StateE.Connected ==> effects == old(effects) + [ConnectionCallback(false)]
      ensures old(state) != StateE.Connected ==> effects == old(effects)
    {
      if state == StateE.Connected {
        state := StateE.Disconnected;
        interest := NoneEvent;
        effects := effects + [ConnectionCallback(IsConnected())];
      }
      channelRemoved := true;
    }
  }
}
