/** The HTTP server: a TCP server whose connections each carry a request
    parser, a table of GET handlers by path, and the message callback that
    answers every complete request in the input, in order, with one send.
    The clock's Date line, the order in which a header map is visited and
    what the socket accepts of a write are inputs. */
module HttpServers {
  import opened ByteOrder
  import opened Wrappers
  import opened Timestamps
  import opened NetBuffer
  import opened HttpRequests
  import opened HttpContexts
  import opened HttpResponses
  import opened LogStreams
  import Tcp
  import Server
  import Reactor
  import PollEvents

  /** A GET handler: given the request and the response as the server
      prepared it, the response to send. */
  type Handler = (Request, Response) -> Response

  /** The high-water mark every connection gets: 256 KiB. */
  const HighWaterMark: nat := 256 * 1024

  /** The answer to a request that fails to parse. */
  const BadRequest: Bytes := "HTTP/1.1 400 Bad Request\r\n\r\n"

  /** The header check every connection's parser applies to a request
      line: only a GET on a path with a handler is taken. Paths reach the
      table as C strings, so a path is looked up by its text before its
      first NUL. */
  function Accepts(routes: map<Bytes, Handler>): Request -> bool
  {
    (req: Request) => req.httpMethod == Get && CStringPrefix(req.path) in routes
  }

  /** `getHeader`'s answer: the field's value, or empty. */
  function HeaderValue(req: Request, key: Bytes): Bytes
  {
    if key in req.headers then req.headers[key] else []
  }

  /** `onRequest`'s decision to close the connection after the response:
      an HTTP/1.1 request keeps it unless it asks for "close"; an HTTP/1.0
      request closes it unless it asks for "Keep-Alive". */
  function WantsClose(req: Request): (close: bool)
    ensures ConnectionField !in req.headers ==> (close <==> req.version == Http10)
    ensures HeaderValue(req, ConnectionField) == Close ==> close
    ensures HeaderValue(req, ConnectionField) == KeepAlive ==> !close
    ensures req.version != Http10 ==> (close <==> HeaderValue(req, ConnectionField) == Close)
  {
    var connection := HeaderValue(req, ConnectionField);
    connection == Close || (req.version == Http10 && connection != KeepAlive)
  }

  /** `onRequest` on the response `resp`: it records whether to close, then
      a GET whose path has a handler is handed to that handler; any other
      request leaves the response as it is. */
  function Respond(routes: map<Bytes, Handler>, req: Request, resp: Response): Response
  {
    var prepared := resp.(closeConnection := WantsClose(req));
    var key := CStringPrefix(req.path);
    if req.httpMethod == Get && key in routes then routes[key](req, prepared) else prepared
  }

  /** A request's path is matched only up to its first NUL: a path that
      carries a NUL and more text is routed exactly as the text before it. */
  lemma PathMatchedBeforeNul(routes: map<Bytes, Handler>, req: Request, rest: Bytes)
    requires forall i | 0 <= i < |req.path| :: req.path[i] != '\0'
    ensures Accepts(routes)(req.(path := req.path + ['\0'] + rest)) == Accepts(routes)(req)
  {
    CStringPrefixStopsAtNul(req.path, rest);
    CStringPrefixOfNulFree(req.path);
  }

  /** What one `onMessage` call does with the input: the bytes it adds to
      the output, whether it force-closes, whether the parser threw (and
      then nothing is sent), how much input it consumed, and the state and
      request the context is left with. */
  datatype Served = Served(out: Bytes, needClose: bool, thrown: bool, consumed: nat,
                           state: ParseState, request: Request)

  /** `s` after `out` was written and `consumed` bytes were read. */
  function After(out: Bytes, consumed: nat, s: Served): (r: Served)
    ensures r.out == out + s.out && r.consumed == consumed + s.consumed
    ensures r.needClose == s.needClose && r.thrown == s.thrown && r.state == s.state && r.request == s.request
  {
    s.(out := out + s.out, consumed := consumed + s.consumed)
  }

  /** `onMessage` on `input` with the context in (state, req), `order`
      giving the order in which a header map is visited and `date` the
      Date line: the parser is run and its outcome answered. */
  function Serve(routes: map<Bytes, Handler>, order: map<Bytes, Bytes> -> seq<Bytes>, date: Bytes,
                 state: ParseState, req: Request, input: Bytes, t: Timestamp): (r: Served)
    requires state == ExpectRequestLine || state == ExpectHeaders
    ensures r.consumed <= |input|
    ensures r.state == ExpectRequestLine || r.state == ExpectHeaders
    ensures r.needClose ==> !r.thrown && r.state == ExpectRequestLine && r.request == FreshRequest
    decreases |input|, 2
  {
    Dispatch(routes, order, date, state, req, input, t)
  }

  /** The parser's outcome on `input`, answered. (A step of its own, so
      that `Serve` unfolds one level at a time.) */
  function Dispatch(routes: map<Bytes, Handler>, order: map<Bytes, Bytes> -> seq<Bytes>, date: Bytes,
                    state: ParseState, req: Request, input: Bytes, t: Timestamp): (r: Served)
    requires state == ExpectRequestLine || state == ExpectHeaders
    ensures r.consumed <= |input|
    ensures r.state == ExpectRequestLine || r.state == ExpectHeaders
    ensures r.needClose ==> !r.thrown && r.state == ExpectRequestLine && r.request == FreshRequest
    decreases |input|, 1
  {
    Answer(routes, order, date, ParseFrom(state, req, input, Accepts(routes), t), input, t)
  }

  /** The answer to the parser's outcome p on `input`: a failure is
      answered with 400 and closes; a complete request is answered, and the
      loop goes on with the rest of the input unless the response closes
      the connection; an incomplete request waits for more input; a value
      of spaces only throws. */
  function Answer(routes: map<Bytes, Handler>, order: map<Bytes, Bytes> -> seq<Bytes>, date: Bytes,
                  p: ParseOutcome, input: Bytes, t: Timestamp): (r: Served)
    requires p.consumed <= |input| && p.state != ExpectBody
    requires p.state == GotAll ==> p.status == Ok && p.consumed >= 2
    requires p.status == OutOfRange ==> p.state == ExpectHeaders
    ensures r.consumed <= |input|
    ensures r.state == ExpectRequestLine || r.state == ExpectHeaders
    ensures r.needClose ==> !r.thrown && r.state == ExpectRequestLine && r.request == FreshRequest
    decreases |input|, 0
  {
    if p.status == OutOfRange then Served([], false, true, p.consumed, p.state, p.request)
    else if p.status == Failed then Served(BadRequest, true, false, p.consumed, ExpectRequestLine, FreshRequest)
    else if p.state == GotAll then
      var resp := Respond(routes, p.request, FreshResponse(false));
      var text := Serialized(resp, order(resp.headers), date);
      if resp.closeConnection then Served(text, true, false, p.consumed, ExpectRequestLine, FreshRequest)
      else After(text, p.consumed, Serve(routes, order, date, ExpectRequestLine, FreshRequest, input[p.consumed..], t))
    else Served([], false, false, p.consumed, p.state, p.request)
  }

  /** `Serve` is the parser's outcome, answered. */
  lemma ServeAnswers(routes: map<Bytes, Handler>, order: map<Bytes, Bytes> -> seq<Bytes>, date: Bytes,
                     state: ParseState, req: Request, input: Bytes, t: Timestamp)
    requires state == ExpectRequestLine || state == ExpectHeaders
    ensures Serve(routes, order, date, state, req, input, t)
            == Answer(routes, order, date, ParseFrom(state, req, input, Accepts(routes), t), input, t)
  {
  }

  /** Appending twice is appending the two pieces at once. */
  lemma AfterAfter(a: Bytes, c: nat, b: Bytes, d: nat, s: Served)
    ensures After(a, c, After(b, d, s)) == After(a + b, c + d, s)
  {
  }

  /** Dropping i bytes and then j is dropping i + j. */
  lemma DropDrop(a: Bytes, i: nat, j: nat)
    requires i + j <= |a|
    ensures a[i..][j..] == a[i + j..]
  {
  }

  /** Appending nothing changes nothing. */
  lemma AfterNothing(s: Served)
    ensures After([], 0, s) == s
  {
    assert [] + s.out == s.out;
  }

  /** Where `onMessage`'s loop stands against the whole answer `s`: `cur`
      is what it has written, read and left in the context so far, and
      `rest` the input still unread. While the loop goes on, `s` is `cur`
      followed by the answer to `rest`; once it stops, `s` is `cur`. */
  ghost predicate Progress(routes: map<Bytes, Handler>, order: map<Bytes, Bytes> -> seq<Bytes>, date: Bytes,
                           t: Timestamp, s: Served, cur: Served, more: bool, rest: Bytes)
  {
    if more then
      && (cur.state == ExpectRequestLine || cur.state == ExpectHeaders) && !cur.needClose && !cur.thrown
      && s == After(cur.out, cur.consumed, Serve(routes, order, date, cur.state, cur.request, rest, t))
    else s == cur
  }

  /** One pass of the loop, whose outcome on `rest` is `next` (followed,
      when it goes on, by the answer to `rest'`), keeps `Progress`. */
  lemma {:induction false} ProgressStep(routes: map<Bytes, Handler>, order: map<Bytes, Bytes> -> seq<Bytes>,
                                        date: Bytes, t: Timestamp, s: Served, cur: Served, rest: Bytes,
                                        next: Served, more: bool, rest': Bytes)
    requires Progress(routes, order, date, t, s, cur, true, rest)
    requires more ==> (next.state == ExpectRequestLine || next.state == ExpectHeaders)
                      && !next.needClose && !next.thrown
    requires var r := Serve(routes, order, date, cur.state, cur.request, rest, t);
             if more then r == After(next.out, next.consumed, Serve(routes, order, date, next.state, next.request, rest', t))
             else r == next
    ensures Progress(routes, order, date, t, s, After(cur.out, cur.consumed, next), more, rest')
  {
    if more {
      AfterAfter(cur.out, cur.consumed, next.out, next.consumed,
                 Serve(routes, order, date, next.state, next.request, rest', t));
    }
  }

  /** A request the parser completes from its request line is a GET on a
      path with a handler, so that handler always answers it. */
  lemma CompletedRequestIsRouted(routes: map<Bytes, Handler>, req: Request, input: Bytes, t: Timestamp,
                                 resp: Response)
    requires ParseFrom(ExpectRequestLine, req, input, Accepts(routes), t).state == GotAll
    ensures var r := ParseFrom(ExpectRequestLine, req, input, Accepts(routes), t).request;
            && r.httpMethod == Get && CStringPrefix(r.path) in routes
            && Respond(routes, r, resp) == routes[CStringPrefix(r.path)](r, resp.(closeConnection := WantsClose(r)))
  {
    CompletedWasAccepted(req, input, Accepts(routes), t);
  }

  /** Pipelining: when a complete request is followed by more bytes, its
      response comes first and is exactly the one it gets alone; a response
      that closes the connection leaves everything after the request
      unread, and otherwise the rest is served as if it had come alone. */
  lemma ServePipelined(routes: map<Bytes, Handler>, order: map<Bytes, Bytes> -> seq<Bytes>, date: Bytes,
                       state: ParseState, req: Request, a: Bytes, b: Bytes, t: Timestamp)
    requires state == ExpectRequestLine || state == ExpectHeaders
    requires var p := ParseFrom(state, req, a, Accepts(routes), t);
             p.state == GotAll && p.consumed == |a|
    ensures var p := ParseFrom(state, req, a, Accepts(routes), t);
            var resp := Respond(routes, p.request, FreshResponse(false));
            var text := Serialized(resp, order(resp.headers), date);
            var s := Serve(routes, order, date, state, req, a + b, t);
            && (resp.closeConnection ==> s == Served(text, true, false, |a|, ExpectRequestLine, FreshRequest))
            && (!resp.closeConnection ==>
                  s == After(text, |a|, Serve(routes, order, date, ExpectRequestLine, FreshRequest, b, t)))
  {
    RequestCompleteExtends(state, req, a, b, Accepts(routes), t);
    ServeAnswers(routes, order, date, state, req, a + b, t);
    assert (a + b)[|a|..] == b;
  }

  /** With no bytes to read, nothing is written and nothing changes. */
  lemma ServeNothing(routes: map<Bytes, Handler>, order: map<Bytes, Bytes> -> seq<Bytes>, date: Bytes,
                     t: Timestamp)
    ensures Serve(routes, order, date, ExpectRequestLine, FreshRequest, [], t)
            == Served([], false, false, 0, ExpectRequestLine, FreshRequest)
  {
    assert FirstCRLF([]) == None;
  }

  /** A request refused at its request line is answered with 400 alone,
      even after earlier responses of the same call, and the connection is
      closed. */
  lemma RefusedIsBadRequest(routes: map<Bytes, Handler>, order: map<Bytes, Bytes> -> seq<Bytes>, date: Bytes,
                            state: ParseState, req: Request, input: Bytes, t: Timestamp)
    requires state == ExpectRequestLine || state == ExpectHeaders
    requires ParseFrom(state, req, input, Accepts(routes), t).status == Failed
    ensures Serve(routes, order, date, state, req, input, t)
            == Served(BadRequest, true, false, 0, ExpectRequestLine, FreshRequest)
    ensures state == ExpectRequestLine
  {
    ServeAnswers(routes, order, date, state, req, input, t);
  }

  /** The connection after the reply of `onMessage`, given its state,
      pending bytes, interest, effects and accepted bytes before it: the
      output went through one loop-thread `send`, which on a connected
      connection writes, buffers or drops it as `sendInLoop` decides and
      queues its callbacks; a requested close then force-closes a connected
      or disconnecting connection through the loop's queue. */
  ghost predicate Replied(conn: Tcp.TcpConnection<HttpContext>, out: Bytes, needClose: bool, w: Tcp.WriteResult,
                          state0: Tcp.StateE, pending0: Bytes, mask0: PollEvents.Mask, effects0: seq<Tcp.Effect>,
                          accepted0: Bytes)
    reads conn
  {
    && Some(conn.state) == (if needClose then Tcp.Step(state0, Tcp.ForceClose) else Some(state0))
    && (state0 == Tcp.Connected ==>
          var direct := Tcp.DirectWrite(Tcp.Connected, pending0, mask0);
          && conn.accepted == (if Tcp.Faulted(direct, w) then accepted0 else accepted0 + out)
          && conn.effects == effects0
             + Tcp.SendEffects(Tcp.Connected, out, w, pending0, mask0,
                               conn.hasWriteCompleteCallback, conn.hasHighWaterMarkCallback, conn.highWaterMark)
             + (if needClose then [Tcp.Queued(Tcp.ForceCloseInLoopTask)] else []))
    && (state0 != Tcp.Connected ==>
          && conn.accepted == accepted0
          && conn.effects == effects0
             + (if needClose && state0 == Tcp.Disconnecting then [Tcp.Queued(Tcp.ForceCloseInLoopTask)] else []))
  }

  class HttpServer {
    const server: Server.TcpServer<HttpContext>
    /** The GET handlers by path. */
    var getCallback: map<Bytes, Handler>

    /** A new server on `loop`, with no handlers; its connection and
        message callbacks are `OnConnection` and `OnMessage`. */
    constructor(loop: Reactor.EventLoop, ipPort: string, name: string)
      ensures fresh(server) && fresh(server.threadPool) && server.Valid()
      ensures server.loop == loop && server.ipPort == ipPort && server.name == name && !server.started
      ensures getCallback == map[]
    {
      server := new Server.TcpServer(loop, ipPort, name);
      getCallback := map[];
    }

    /** `setGetCallback`: registers the handler for the path's C string
        (its text before the first NUL), replacing any earlier one; every
        path with the same C string now finds it, and every other path
        keeps its handler. */
    method SetGetCallback(path: Bytes, cb: Handler)
      modifies this`getCallback
      ensures CheckGetCallback(path) && GetGetCallback(path) == Some(cb)
      ensures forall p | CStringPrefix(p) == CStringPrefix(path) :: GetGetCallback(p) == Some(cb)
      ensures forall p | CStringPrefix(p) != CStringPrefix(path) :: GetGetCallback(p) == old(GetGetCallback(p))
    {
      getCallback := getCallback[CStringPrefix(path) := cb];
    }

    /** `checkGetCallback`: whether the path's C string has a handler. */
    function CheckGetCallback(path: Bytes): (r: bool)
      reads this
      ensures r <==> Accepts(getCallback)(FreshRequest.(httpMethod := Get, path := path))
    {
      CStringPrefix(path) in getCallback
    }

    /** `getGetCallback`: the handler of the path's C string, or the empty
        callback. */
    function GetGetCallback(path: Bytes): (r: Option<Handler>)
      reads this
      ensures r.Some? <==> CheckGetCallback(path)
      ensures r.Some? ==> r.value == getCallback[CStringPrefix(path)]
    {
      var key := CStringPrefix(path);
      if key in getCallback then Some(getCallback[key]) else None
    }

    /** `setThreadNum`: forwards to the TCP server. */
    method SetThreadNum(numThreads: int)
      requires server.Valid() && numThreads >= 0
      modifies server.threadPool`numThreads
      ensures server.Valid() && server.threadPool.numThreads == numThreads
    {
      server.SetThreadNum(numThreads);
    }

    /** `start`: starts the TCP server, with the loops its pool's workers
        report back. */
    method Start(spawned: seq<Reactor.EventLoop>, hasInitCallback: bool)
      requires server.Valid()
      requires !server.started ==> |spawned| == server.threadPool.numThreads && server.loop !in spawned
      requires !server.started ==> forall i, j | 0 <= i < j < |spawned| :: spawned[i] != spawned[j]
      modifies server`started, server`effects, server.threadPool`started, server.threadPool`threads,
               server.threadPool`loops
      ensures server.Valid() && server.started
      ensures !old(server.started) ==>
                && server.threadPool.loops == spawned
                && server.effects == old(server.effects) + [Server.RunInLoop(server.loop, Server.ListenTask)]
      ensures old(server.started) ==> server.effects == old(server.effects)
    {
      server.Start(spawned, hasInitCallback);
    }

    /** `onConnection`: a connection that is up gets a new context, whose
        header check is `Accepts(getCallback)`; every connection gets the
        256 KiB high-water mark. */
    method OnConnection(conn: Tcp.TcpConnection<HttpContext>)
      modifies conn`context, conn`hasHighWaterMarkCallback, conn`highWaterMark
      ensures old(conn.IsConnected()) ==>
                && conn.context.Some? && fresh(conn.context.value) && fresh(conn.context.value.request)
                && conn.context.value.state == ExpectRequestLine && conn.context.value.request.Value() == FreshRequest
      ensures !old(conn.IsConnected()) ==> conn.context == old(conn.context)
      ensures conn.hasHighWaterMarkCallback && conn.highWaterMark == HighWaterMark
    {
      if conn.IsConnected() {
        var context := new HttpContext();
        conn.SetContext(context);
      }
      conn.SetHighWaterMarkCallback(true, HighWaterMark);
    }

    /** `onRequest`: the response becomes `Respond` of the request. */
    method OnRequest(req: HttpRequest, resp: HttpResponse)
      modifies resp
      ensures resp.Value() == Respond(getCallback, req.Value(), old(resp.Value()))
    {
      var connection := req.GetHeader(ConnectionField);
      var close := connection == Close || (req.version == Http10 && connection != KeepAlive);
      resp.SetCloseConnection(close);
      if req.httpMethod == Get {
        var cb := GetGetCallback(req.path);
        if cb.Some? {
          resp.Assign(cb.value(req.Value(), resp.Value()));
        }
      }
    }

    /** One pass of `onMessage`'s loop: parse, then answer a failure with
        400 and a complete request with its response. The loop goes on
        (`more`) only after a response that keeps the connection; `written`
        is what the pass appended and `used` what it consumed. */
    method HandleOnce(context: HttpContext, input: Buffer, outBuf: Buffer, response: HttpResponse,
                      receiveTime: Timestamp, order: map<Bytes, Bytes> -> seq<Bytes>, date: Bytes)
      returns (status: ParseStatus, needClose: bool, more: bool, ghost written: Bytes, ghost used: nat)
      requires input.Valid() && outBuf.Valid() && input != outBuf
      requires context.state == ExpectRequestLine || context.state == ExpectHeaders
      requires response.Value() == FreshResponse(false)
      requires forall m :: IsKeyOrder(order(m), m)
      modifies context`state, context.request, input, outBuf, response
      ensures input.Valid() && outBuf.Valid() && response.Value() == FreshResponse(false)
      ensures context.state == ExpectRequestLine || context.state == ExpectHeaders
      ensures outBuf.State().Readable() == old(outBuf.State().Readable()) + written
      ensures used <= |old(input.State().Readable())|
      ensures input.State().Readable() == old(input.State().Readable())[used..]
      ensures more ==> used >= 2 && !needClose && status == Ok
      ensures getCallback == old(getCallback)
      ensures var s := Serve(getCallback, order, date, old(context.state), old(context.request.Value()),
                             old(input.State().Readable()), receiveTime);
              if more then
                s == After(written, used, Serve(getCallback, order, date, context.state, context.request.Value(),
                                                input.State().Readable(), receiveTime))
              else s == Served(written, needClose, status == OutOfRange, used, context.state, context.request.Value())
    {
      ghost var before := outBuf.State().Readable();
      ghost var rd := input.State().Readable();
      ghost var p := ParseFrom(context.state, context.request.Value(), rd, Accepts(getCallback), receiveTime);
      ServeAnswers(getCallback, order, date, context.state, context.request.Value(), rd, receiveTime);
      status := context.ParseRequest(input, receiveTime, Accepts(getCallback));
      needClose, more, written, used := false, false, [], p.consumed;
      if status == Failed {
        outBuf.Append(BadRequest);
        written := BadRequest;
        context.Reset();
        needClose := true;
      } else if status == OutOfRange {
        assert outBuf.State().Readable() == before + [];
      } else if context.GotAll() {
        var close;
        close, written := AnswerRequest(context, outBuf, response, order, date);
        needClose, more := close, !close;
      } else {
        assert outBuf.State().Readable() == before + [];
      }
    }

    /** A complete request is handed to `onRequest`, its response appended
        to the output and the context and the response reset; `close` says
        whether the response closes the connection. */
    method AnswerRequest(context: HttpContext, outBuf: Buffer, response: HttpResponse,
                         order: map<Bytes, Bytes> -> seq<Bytes>, date: Bytes)
      returns (close: bool, ghost written: Bytes)
      requires outBuf.Valid() && response.Value() == FreshResponse(false)
      requires forall m :: IsKeyOrder(order(m), m)
      modifies context`state, context.request, outBuf, response
      ensures outBuf.Valid() && response.Value() == FreshResponse(false)
      ensures context.state == ExpectRequestLine && context.request.Value() == FreshRequest
      ensures var resp := Respond(getCallback, old(context.request.Value()), FreshResponse(false));
              && written == Serialized(resp, order(resp.headers), date)
              && close == resp.closeConnection
      ensures outBuf.State().Readable() == old(outBuf.State().Readable()) + written
      ensures getCallback == old(getCallback)
    {
      OnRequest(context.request, response);
      ghost var v := response.Value();
      written := Serialized(v, order(v.headers), date);
      response.AppendToBuffer(outBuf, order(response.headers), date);
      context.Reset();
      close := response.GetCloseConnection();
      response.Reset();
    }

    /** `HandleOnce` as a step of `onMessage`'s loop: `cur` and `rest`
        describe the loop so far and the unread input before the pass,
        `cur'` and `rest'` after it, and `Progress` towards the whole answer
        `s` is kept. */
    method Pass(context: HttpContext, input: Buffer, outBuf: Buffer, response: HttpResponse,
                receiveTime: Timestamp, order: map<Bytes, Bytes> -> seq<Bytes>, date: Bytes,
                ghost s: Served, ghost input0: Bytes, ghost cur: Served, ghost rest: Bytes)
      returns (needClose: bool, thrown: bool, more: bool, ghost cur': Served, ghost rest': Bytes)
      requires input.Valid() && outBuf.Valid() && input != outBuf && response.Value() == FreshResponse(false)
      requires forall m :: IsKeyOrder(order(m), m)
      requires outBuf.State().Readable() == cur.out && input.State().Readable() == rest
      requires context.state == cur.state && context.request.Value() == cur.request
      requires cur.consumed <= |input0| && rest == input0[cur.consumed..]
      requires Progress(getCallback, order, date, receiveTime, s, cur, true, rest)
      modifies context`state, context.request, input, outBuf, response
      ensures input.Valid() && outBuf.Valid() && response.Value() == FreshResponse(false)
      ensures outBuf.State().Readable() == cur'.out && input.State().Readable() == rest'
      ensures context.state == cur'.state && context.request.Value() == cur'.request
      ensures needClose == cur'.needClose && thrown == cur'.thrown
      ensures cur'.consumed <= |input0| && rest' == input0[cur'.consumed..]
      ensures more ==> cur'.consumed >= cur.consumed + 2
      ensures getCallback == old(getCallback)
      ensures Progress(getCallback, order, date, receiveTime, s, cur', more, rest')
    {
      var status;
      ghost var written, used;
      status, needClose, more, written, used := HandleOnce(context, input, outBuf, response, receiveTime, order, date);
      thrown := status == OutOfRange;
      rest' := input.State().Readable();
      ghost var next := Served(written, needClose, thrown, used, context.state, context.request.Value());
      ProgressStep(getCallback, order, date, receiveTime, s, cur, rest, next, more, rest');
      cur' := After(cur.out, cur.consumed, next);
      DropDrop(input0, cur.consumed, used);
    }

    /** `onMessage`'s loop on the connection's input buffer: what it
        appends to a new output buffer, whether it stops to close, whether
        the parser threw, and how it leaves the context and the input, all
        as the ghost `s` that `Serve` computes from the state on entry. */
    method ServeInput(conn: Tcp.TcpConnection<HttpContext>, context: HttpContext, receiveTime: Timestamp,
                      order: map<Bytes, Bytes> -> seq<Bytes>, date: Bytes)
      returns (out: Bytes, needClose: bool, thrown: bool, ghost s: Served)
      requires conn.Valid()
      requires context.state == ExpectRequestLine || context.state == ExpectHeaders
      requires forall m :: IsKeyOrder(order(m), m)
      modifies conn.inputBuffer, context`state, context.request
      ensures conn.Valid() && unchanged(conn) && conn.Pending() == old(conn.Pending())
      ensures s == Serve(getCallback, order, date, old(context.state), old(context.request.Value()),
                         old(conn.inputBuffer.State().Readable()), receiveTime)
      ensures out == s.out && needClose == s.needClose && thrown == s.thrown
      ensures context.state == s.state && context.request.Value() == s.request
      ensures conn.inputBuffer.State().Readable() == old(conn.inputBuffer.State().Readable())[s.consumed..]
    {
      var input := conn.inputBuffer;
      var outBuf := new Buffer(InitialSize);
      var response := new HttpResponse(false);
      ghost var rest := input.State().Readable();
      ghost var input0 := rest;
      s := Serve(getCallback, order, date, context.state, context.request.Value(), input0, receiveTime);
      ghost var cur := Served([], false, false, 0, context.state, context.request.Value());
      AfterNothing(s);
      needClose, thrown := false, false;
      var more := true;
      while more
        invariant input.Valid() && outBuf.Valid() && response.Value() == FreshResponse(false)
        invariant outBuf.State().Readable() == cur.out && input.State().Readable() == rest
        invariant context.state == cur.state && context.request.Value() == cur.request
        invariant needClose == cur.needClose && thrown == cur.thrown
        invariant cur.consumed <= |input0| && rest == input0[cur.consumed..]
        invariant Progress(getCallback, order, date, receiveTime, s, cur, more, rest)
        decreases |input0| - cur.consumed, if more then 1 else 0
      {
        needClose, thrown, more, cur, rest := Pass(context, input, outBuf, response, receiveTime, order, date,
                                                   s, input0, cur, rest);
      }
      out := outBuf.State().Readable();
      assert unchanged(conn.outputBuffer);
    }

    /** The end of `onMessage`: one send of the whole output, then a
        forced close if the loop asked for one; the context, the input and
        the routes stay as they are. */
    method Reply(conn: Tcp.TcpConnection<HttpContext>, context: HttpContext, out: Bytes, needClose: bool,
                 w: Tcp.WriteResult)
      requires conn.Valid() && w.n <= |out|
      modifies conn, conn.outputBuffer
      ensures conn.Valid()
      ensures Replied(conn, out, needClose, w, old(conn.state), old(conn.Pending()), old(conn.interest),
                      old(conn.effects), old(conn.accepted))
      ensures getCallback == old(getCallback)
      ensures context.state == old(context.state) && context.request.Value() == old(context.request.Value())
      ensures conn.inputBuffer.State() == old(conn.inputBuffer.State())
    {
      ghost var state0, pending0, mask0, effects0 := conn.state, conn.Pending(), conn.interest, conn.effects;
      var _ := conn.Send(out, true, w);
      ghost var sent := conn.effects;
      if needClose {
        conn.ForceClose();
      }
      assert conn.effects == sent + (if needClose && (state0 == Tcp.Connected || state0 == Tcp.Disconnecting)
                                     then [Tcp.Queued(Tcp.ForceCloseInLoopTask)] else []);
    }

    /** `onMessage`: every complete request in the input is answered in
        order, the whole output goes out in one send, and a failure or a
        response that closes the connection ends the loop and force-closes
        after the send; when the parser throws, nothing is sent. `socket`
        says how much of a write the socket takes; the ghost `s` is what
        `Serve` computes from the state on entry. */
    method OnMessage(conn: Tcp.TcpConnection<HttpContext>, receiveTime: Timestamp,
                     order: map<Bytes, Bytes> -> seq<Bytes>, date: Bytes, socket: Bytes -> Tcp.WriteResult)
      returns (thrown: bool, ghost s: Served)
      requires conn.Valid() && conn.context.Some?
      requires conn.context.value.state == ExpectRequestLine || conn.context.value.state == ExpectHeaders
      requires forall m :: IsKeyOrder(order(m), m)
      requires forall d :: socket(d).n <= |d|
      modifies conn, conn.inputBuffer, conn.outputBuffer, conn.context.value, conn.context.value.request
      ensures conn.Valid()
      ensures s == Serve(getCallback, order, date, old(conn.context.value.state),
                         old(conn.context.value.request.Value()), old(conn.inputBuffer.State().Readable()), receiveTime)
      ensures thrown == s.thrown
      ensures old(conn.context.value).state == s.state && old(conn.context.value).request.Value() == s.request
      ensures conn.inputBuffer.State().Readable() == old(conn.inputBuffer.State().Readable())[s.consumed..]
      ensures thrown ==> conn.state == old(conn.state) && conn.accepted == old(conn.accepted)
                         && conn.effects == old(conn.effects)
      ensures !thrown ==> Replied(conn, s.out, s.needClose, socket(s.out), old(conn.state), old(conn.Pending()),
                                  old(conn.interest), old(conn.effects), old(conn.accepted))
    {
      var context: HttpContext := conn.context.value;
      var out, needClose;
      out, needClose, thrown, s := ServeInput(conn, context, receiveTime, order, date);
      if !thrown {
        Reply(conn, context, out, needClose, socket(out));
      }
    }
  }
}
