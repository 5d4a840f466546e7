/** The server side of the library: it names each accepted socket, hands the
    connection to a loop of its pool and keeps the name-to-connection map.
    Accepting sockets is outside the model; `NewConnection` is given the
    socket an accept returned. Tasks handed to a loop are recorded in
    `effects` rather than run. */
module Server {
  import opened Reactor
  import opened Decimal
  import opened LoopPool
  import Tcp

  /** The name of the connection with the given id, `"{name}-{ipPort}#{id}"`. */
  function ConnName(name: string, ipPort: string, id: nat): (r: string)
    ensures r == name + "-" + ipPort + "#" + Digits(id)
  {
    name + "-" + ipPort + "#" + IntToString(id)
  }

  /** Different ids give different names, so no two connections of one
      server ever share a name. */
  lemma ConnNamesDistinct(name: string, ipPort: string, i: nat, j: nat)
    requires i != j
    ensures ConnName(name, ipPort, i) != ConnName(name, ipPort, j)
  {
    var prefix := name + "-" + ipPort + "#";
    if ConnName(name, ipPort, i) == ConnName(name, ipPort, j) {
      assert Digits(i) == ConnName(name, ipPort, i)[|prefix|..];
      assert Digits(j) == ConnName(name, ipPort, j)[|prefix|..];
      DigitsInjective(i, j);
    }
  }

  /** The member functions the server hands to a loop. */
  datatype ServerTask<Context> =
    | ConnectEstablishedTask(conn: Tcp.TcpConnection<Context>)
    | ConnectDestroyedTask(conn: Tcp.TcpConnection<Context>)
    | RemoveConnectionInLoopTask(conn: Tcp.TcpConnection<Context>)
    | ListenTask

  /** A task handed to a loop through `runInLoop` or `queueInLoop`. */
  datatype ServerEffect<Context> =
    | RunInLoop(loop: EventLoop, task: ServerTask<Context>)
    | QueueInLoop(loop: EventLoop, task: ServerTask<Context>)

  /** What the destructor hands over: for each name in `order`, its
      connection's `connectDestroyed` on the connection's own loop. */
  function DestroyTasks<Context>(conns: map<string, Tcp.TcpConnection<Context>>, order: seq<string>)
    : (r: seq<ServerEffect<Context>>)
    requires forall k | k in order :: k in conns
    ensures |r| == |order|
    ensures forall i | 0 <= i < |order| ::
              r[i] == RunInLoop(conns[order[i]].loop, ConnectDestroyedTask(conns[order[i]]))
  {
    if order == [] then []
    else
      var last := order[|order| - 1];
      DestroyTasks(conns, order[..|order| - 1]) + [RunInLoop(conns[last].loop, ConnectDestroyedTask(conns[last]))]
  }

  /** Every mapped connection is stored under its own name, made from an
      id below `nextId`. */
  ghost predicate NamedByIds<Context>(conns: map<string, Tcp.TcpConnection<Context>>, idOf: map<string, nat>,
                                      nextId: nat, name: string, ipPort: string)
  {
    forall k | k in conns ::
      && k in idOf && idOf[k] < nextId
      && k == ConnName(name, ipPort, idOf[k])
      && conns[k].name == k
  }

  /** The name made from the next id is not yet mapped, and storing a
      connection under it keeps the map well named. */
  lemma InsertNamed<Context>(conns: map<string, Tcp.TcpConnection<Context>>, idOf: map<string, nat>,
                             nextId: nat, name: string, ipPort: string, conn: Tcp.TcpConnection<Context>)
    requires NamedByIds(conns, idOf, nextId, name, ipPort)
    requires conn.name == ConnName(name, ipPort, nextId)
    ensures conn.name !in conns
    ensures NamedByIds(conns[conn.name := conn], idOf[conn.name := nextId], nextId + 1, name, ipPort)
  {
    forall k | k in conns
      ensures k != conn.name
    {
      ConnNamesDistinct(name, ipPort, idOf[k], nextId);
    }
  }

  /** A new connection with the server's write-complete callback. */
  method MakeConnection<Context>(ioLoop: EventLoop, connName: string, sockfd: int, hasWriteCompleteCallback: bool)
    returns (conn: Tcp.TcpConnection<Context>)
    ensures fresh(conn) && conn.loop == ioLoop && conn.name == connName && conn.fd == sockfd
    ensures conn.state == Tcp.Connecting && conn.hasWriteCompleteCallback == hasWriteCompleteCallback
  {
    conn := new Tcp.TcpConnection(ioLoop, connName, sockfd);
    conn.SetWriteCompleteCallback(hasWriteCompleteCallback);
  }

  class TcpServer<Context> {
    const loop: EventLoop
    const ipPort: string
    const name: string
    const threadPool: EventLoopThreadPool
    var started: bool
    var nextConnId: nat
    var connections: map<string, Tcp.TcpConnection<Context>>
    var hasWriteCompleteCallback: bool
    var effects: seq<ServerEffect<Context>>
    /** The id each connection name was made from. */
    ghost var idOf: map<string, nat>

    /** Ids start at 1; every mapped connection is stored under its own
        name, which was made from an id already issued; the pool belongs to
        the server's loop and is started with the server. */
    ghost predicate Valid()
      reads this, threadPool
    {
      && nextConnId >= 1
      && NamedByIds(connections, idOf, nextConnId, name, ipPort)
      && threadPool.baseLoop == loop && threadPool.name == name
      && threadPool.Valid() && threadPool.numThreads >= 0
      && started == threadPool.started
      && (!started ==> threadPool.loops == [] && threadPool.threads == [])
    }

    /** A new server: not started, no connections, the next id 1, and a
        pool on the server's own loop named after the server. */
    constructor(loop: EventLoop, ipPort: string, name: string)
      ensures Valid() && fresh(threadPool)
      ensures this.loop == loop && this.ipPort == ipPort && this.name == name
      ensures !started && nextConnId == 1 && connections == map[] && effects == []
      ensures threadPool.numThreads == 0
    {
      this.loop := loop;
      this.ipPort := ipPort;
      this.name := name;
      threadPool := new EventLoopThreadPool(loop, name);
      started := false;
      nextConnId := 1;
      connections := map[];
      hasWriteCompleteCallback := false;
      effects := [];
      idOf := map[];
    }

    method SetWriteCompleteCallback(isSet: bool)
      modifies this`hasWriteCompleteCallback
      ensures hasWriteCompleteCallback == isSet
    {
      hasWriteCompleteCallback := isSet;
    }

    /** `setThreadNum`: requires a non-negative count and forwards it to
        the pool. */
    method SetThreadNum(numThreads: int)
      requires Valid() && numThreads >= 0
      modifies threadPool`numThreads
      ensures Valid() && threadPool.numThreads == numThreads
    {
      threadPool.SetThreadNum(numThreads);
    }

    /** `start`: only the first call starts the pool, with the loops its
        workers report back, and asks the server's loop to listen; later
        calls do nothing. */
    method Start(spawned: seq<EventLoop>, hasInitCallback: bool)
      requires Valid()
      requires !started ==> |spawned| == threadPool.numThreads && loop !in spawned
      requires !started ==> forall i, j | 0 <= i < j < |spawned| :: spawned[i] != spawned[j]
      modifies this`started, this`effects, threadPool`started, threadPool`threads, threadPool`loops
      ensures Valid() && started
      ensures old(started) ==> effects == old(effects) && threadPool.loops == old(threadPool.loops)
      ensures !old(started) ==> threadPool.loops == spawned && effects == old(effects) + [RunInLoop(loop, ListenTask)]
    {
      if !started {
        started := true;
        var _ := threadPool.Start(spawned, hasInitCallback);
        effects := effects + [RunInLoop(loop, ListenTask)];
      }
    }

    /** `newConnection`: takes the next loop of the pool and the next id,
        stores a new connection under its name, which no mapped connection
        has, and asks that loop to establish it. */
    method NewConnection(sockfd: int) returns (conn: Tcp.TcpConnection<Context>)
      requires Valid() && started
      modifies this`connections, this`nextConnId, this`effects, this`idOf, threadPool`next
      ensures Valid() && fresh(conn)
      ensures conn.name == ConnName(name, ipPort, old(nextConnId)) && conn.fd == sockfd
      ensures conn.name !in old(connections) && connections == old(connections)[conn.name := conn]
      ensures |connections| == |old(connections)| + 1
      ensures nextConnId == old(nextConnId) + 1
      ensures conn.loop in threadPool.GetAllLoops()
      ensures threadPool.loops != [] ==> conn.loop == threadPool.loops[old(threadPool.next)]
      ensures conn.state == Tcp.Connecting && conn.hasWriteCompleteCallback == hasWriteCompleteCallback
      ensures effects == old(effects) + [RunInLoop(conn.loop, ConnectEstablishedTask(conn))]
    {
      var ioLoop := threadPool.GetNextLoop();
      var id := nextConnId;
      var connName := ConnName(name, ipPort, id);
      conn := MakeConnection(ioLoop, connName, sockfd, hasWriteCompleteCallback);
      InsertNamed(connections, idOf, id, name, ipPort, conn);
      nextConnId := nextConnId + 1;
      connections := connections[connName := conn];
      idOf := idOf[connName := id];
      effects := effects + [RunInLoop(ioLoop, ConnectEstablishedTask(conn))];
    }

    /** `removeConnection`: the close callback of every connection; it
        hands the removal to the server's loop. */
    method RemoveConnection(conn: Tcp.TcpConnection<Context>)
      modifies this`effects
      ensures effects == old(effects) + [RunInLoop(loop, RemoveConnectionInLoopTask(conn))]
    {
      effects := effects + [RunInLoop(loop, RemoveConnectionInLoopTask(conn))];
    }

    /** `removeConnectionInLoop`: requires the name to be mapped, erases
        exactly that entry and queues `connectDestroyed` on the
        connection's own loop. */
    method RemoveConnectionInLoop(conn: Tcp.TcpConnection<Context>)
      requires Valid() && conn.name in connections
      modifies this`connections, this`effects
      ensures Valid()
      ensures connections == old(connections) - {conn.name} && |connections| == |old(connections)| - 1
      ensures effects == old(effects) + [QueueInLoop(conn.loop, ConnectDestroyedTask(conn))]
    {
      connections := connections - {conn.name};
      effects := effects + [QueueInLoop(conn.loop, ConnectDestroyedTask(conn))];
    }

    /** The destructor: every mapped connection, in the map's iteration
        order `order`, is handed to `connectDestroyed` on its own loop, and
        the map lets go of it. */
    method Destroy(order: seq<string>)
      requires forall k :: k in connections <==> k in order
      requires forall i, j | 0 <= i < j < |order| :: order[i] != order[j]
      modifies this`connections, this`effects
      ensures connections == map[]
      ensures effects == old(effects) + DestroyTasks(old(connections), order)
    {
      var i := 0;
      while i < |order|
        invariant 0 <= i <= |order| && connections == old(connections)
        invariant effects == old(effects) + DestroyTasks(connections, order[..i])
      {
        var conn := connections[order[i]];
        effects := effects + [RunInLoop(conn.loop, ConnectDestroyedTask(conn))];
        assert order[..i + 1][..i] == order[..i];
        i := i + 1;
      }
      assert order[..i] == order;
      connections := map[];
    }
  }
}
