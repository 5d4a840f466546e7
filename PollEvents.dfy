/** The `poll.h` event bits a Channel works with: its interest-mask
    operations, the callback order of `handleEventWithGuard`, and the
    debug text of `eventsToString`. */
module PollEvents {
  import opened Decimal

  /** The `poll.h` events this library names; values a kernel reports
      beyond these are not part of this model. */
  datatype Event = POLLIN | POLLPRI | POLLOUT | POLLERR | POLLHUP | POLLNVAL | POLLRDHUP

  /** An event mask (`events_`, `revents_`): the set of its bits. */
  type Mask = set<Event>

  const NoneEvent: Mask := {}
  const ReadEvent: Mask := {POLLIN, POLLPRI}
  const WriteEvent: Mask := {POLLOUT}

  predicate IsNoneEvent(ev: Mask)
  {
    ev == NoneEvent
  }

  /** `events_ & kReadEvent` is non-zero. */
  predicate IsReading(ev: Mask)
  {
    POLLIN in ev || POLLPRI in ev
  }

  /** `events_ & kWriteEvent` is non-zero. */
  predicate IsWriting(ev: Mask)
  {
    POLLOUT in ev
  }

  /** `events_ |= kReadEvent`: both read bits set, every other bit kept. */
  function EnableRead(ev: Mask): (r: Mask)
    ensures ReadEvent <= r && IsReading(r)
    ensures r - ReadEvent == ev - ReadEvent
    ensures IsWriting(r) == IsWriting(ev)
  {
    ev + ReadEvent
  }

  /** `events_ &= ~kReadEvent`: both read bits cleared, every other bit kept. */
  function DisableRead(ev: Mask): (r: Mask)
    ensures r * ReadEvent == {} && !IsReading(r)
    ensures r - ReadEvent == ev - ReadEvent
    ensures IsWriting(r) == IsWriting(ev)
  {
    ev - ReadEvent
  }

  /** `events_ |= kWriteEvent`. */
  function EnableWrite(ev: Mask): (r: Mask)
    ensures POLLOUT in r && IsWriting(r)
    ensures r - WriteEvent == ev - WriteEvent
    ensures IsReading(r) == IsReading(ev)
  {
    ev + WriteEvent
  }

  /** `events_ &= ~kWriteEvent`. */
  function DisableWrite(ev: Mask): (r: Mask)
    ensures POLLOUT !in r && !IsWriting(r)
    ensures r - WriteEvent == ev - WriteEvent
    ensures IsReading(r) == IsReading(ev)
  {
    ev - WriteEvent
  }

  /** Turning reading (or writing) on and then off again leaves a mask that
      had none of those bits exactly as it was; clearing both leaves no
      interest exactly when nothing else was set. */
  lemma EnableThenDisable(ev: Mask)
    ensures ev * ReadEvent == {} ==> DisableRead(EnableRead(ev)) == ev
    ensures ev * WriteEvent == {} ==> DisableWrite(EnableWrite(ev)) == ev
    ensures IsNoneEvent(DisableWrite(DisableRead(ev))) <==> ev <= ReadEvent + WriteEvent
  {
    if ev * ReadEvent == {} {
      forall e ensures e in DisableRead(EnableRead(ev)) <==> e in ev {
        assert e in ev && e in ReadEvent ==> e in ev * ReadEvent;
      }
      assert DisableRead(EnableRead(ev)) == ev;
    }
    if ev * WriteEvent == {} {
      forall e ensures e in DisableWrite(EnableWrite(ev)) <==> e in ev {
        assert e in ev && e in WriteEvent ==> e in ev * WriteEvent;
      }
      assert DisableWrite(EnableWrite(ev)) == ev;
    }
  }

  // Callback dispatch

  datatype Callback = CloseCallback | ErrorCallback | ReadCallback | WriteCallback
  {
    /** The position of the callback in the dispatch sequence. */
    function Rank(): nat
    {
      match this
      case CloseCallback => 0
      case ErrorCallback => 1
      case ReadCallback => 2
      case WriteCallback => 3
    }
  }

  /** Which of the four callbacks are set (a `std::function` that is not empty). */
  datatype Handlers = Handlers(close: bool, error: bool, read: bool, write: bool)

  /** `handleEventWithGuard`: the callbacks the returned events trigger, in
      the order they are called. */
  function Dispatch(revents: Mask, h: Handlers): (r: seq<Callback>)
    ensures CloseCallback in r <==> h.close && POLLHUP in revents && POLLIN !in revents
    ensures ErrorCallback in r <==> h.error && (POLLERR in revents || POLLNVAL in revents)
    ensures ReadCallback in r <==> h.read && (POLLIN in revents || POLLPRI in revents || POLLRDHUP in revents)
    ensures WriteCallback in r <==> h.write && POLLOUT in revents
  {
    (if POLLHUP in revents && POLLIN !in revents && h.close then [CloseCallback] else [])
    + (if (POLLERR in revents || POLLNVAL in revents) && h.error then [ErrorCallback] else [])
    + (if (POLLIN in revents || POLLPRI in revents || POLLRDHUP in revents) && h.read then [ReadCallback] else [])
    + (if POLLOUT in revents && h.write then [WriteCallback] else [])
  }

  /** The callbacks run close, error, read, write, each at most once. */
  lemma DispatchInOrder(revents: Mask, h: Handlers)
    ensures var r := Dispatch(revents, h);
            forall i, j :: 0 <= i < j < |r| ==> r[i].Rank() < r[j].Rank()
  {
  }

  /** A hang-up that arrives together with readable data is delivered as a
      read, never as a close; a peer that half-closes (RDHUP) is a read too. */
  lemma HangupWithDataIsRead(revents: Mask, h: Handlers)
    requires POLLHUP in revents && POLLIN in revents && h.read
    ensures Dispatch(revents, h) == (if (POLLERR in revents || POLLNVAL in revents) && h.error then [ErrorCallback] else [])
                                    + [ReadCallback]
                                    + (if POLLOUT in revents && h.write then [WriteCallback] else [])
  {
  }

  // Debug text

  /** The named bits of `eventsToString`, in the order they are printed. */
  const TokenNames: seq<(Event, string)> :=
    [(POLLIN, "IN"), (POLLPRI, "PRI"), (POLLOUT, "OUT"), (POLLHUP, "HUP"),
     (POLLRDHUP, "RDHUP"), (POLLERR, "ERR"), (POLLNVAL, "NVAL")]

  /** The events a token table names. */
  function Bits(table: seq<(Event, string)>): Mask
  {
    set k | 0 <= k < |table| :: table[k].0
  }

  /** One "NAME " token for each event of the table that ev has, in table order. */
  function Tokens(ev: Mask, table: seq<(Event, string)>): (s: string)
  {
    if table == [] then ""
    else (if table[0].0 in ev then table[0].1 + " " else "") + Tokens(ev, table[1..])
  }

  /** `eventsToString(fd, ev)`: the fd, a colon and a space, then the tokens. */
  function EventsToString(fd: int, ev: Mask): (s: string)
  {
    IntToString(fd) + ": " + Tokens(ev, TokenNames)
  }

  /** Reads back a token string printed with the given table. */
  function ParseTokens(s: string, table: seq<(Event, string)>): Mask
  {
    if table == [] then {}
    else
      var token := table[0].1 + " ";
      if |token| <= |s| && s[..|token|] == token then {table[0].0} + ParseTokens(s[|token|..], table[1..])
      else ParseTokens(s, table[1..])
  }

  /** A table whose names are non-empty and start with distinct letters. */
  ghost predicate WellFormedTable(table: seq<(Event, string)>)
  {
    && (forall k :: 0 <= k < |table| ==> table[k].1 != [])
    && (forall j, k :: 0 <= j < k < |table| ==> table[j].1[0] != table[k].1[0])
  }

  lemma WellFormedTail(table: seq<(Event, string)>)
    requires WellFormedTable(table) && table != []
    ensures WellFormedTable(table[1..])
    ensures Bits(table) == {table[0].0} + Bits(table[1..])
  {
    var rest := table[1..];
    forall j, k | 0 <= j < k < |rest| ensures rest[j].1[0] != rest[k].1[0] {
      assert rest[j] == table[j + 1] && rest[k] == table[k + 1];
    }
    forall e | e in Bits(table) ensures e in {table[0].0} + Bits(rest) {
      var k :| 0 <= k < |table| && table[k].0 == e;
      if k > 0 {
        assert rest[k - 1] == table[k];
      }
    }
    forall e | e in Bits(rest) ensures e in Bits(table) {
      var k :| 0 <= k < |rest| && rest[k].0 == e;
      assert table[k + 1] == rest[k];
    }
  }

  /** A token string is empty or starts with the first letter of a name. */
  lemma {:induction false} TokensStart(ev: Mask, table: seq<(Event, string)>)
    requires WellFormedTable(table)
    ensures var s := Tokens(ev, table);
            s == [] || exists k :: 0 <= k < |table| && s[0] == table[k].1[0]
    decreases |table|
  {
    if table != [] && table[0].0 !in ev {
      WellFormedTail(table);
      TokensStart(ev, table[1..]);
      var s := Tokens(ev, table[1..]);
      if s != [] {
        var k :| 0 <= k < |table[1..]| && s[0] == table[1..][k].1[0];
        assert s[0] == table[k + 1].1[0];
      }
    }
  }

  /** The tokens after an absent event never start with that event's token. */
  lemma NoTokenOfAbsentEvent(ev: Mask, table: seq<(Event, string)>)
    requires WellFormedTable(table) && table != [] && table[0].0 !in ev
    ensures var token := table[0].1 + " ";
            var tail := Tokens(ev, table[1..]);
            !(|token| <= |tail| && tail[..|token|] == token)
  {
    WellFormedTail(table);
    TokensStart(ev, table[1..]);
    var tail := Tokens(ev, table[1..]);
    if tail != [] {
      var k :| 0 <= k < |table[1..]| && tail[0] == table[1..][k].1[0];
      assert tail[0] == table[k + 1].1[0];
    }
  }

  /** Parsing the printed tokens recovers exactly the named events of ev. */
  lemma {:induction false} ParseTokensOfTokens(ev: Mask, table: seq<(Event, string)>)
    requires WellFormedTable(table)
    ensures ParseTokens(Tokens(ev, table), table) == ev * Bits(table)
    decreases |table|
  {
    if table != [] {
      var rest := table[1..];
      WellFormedTail(table);
      ParseTokensOfTokens(ev, rest);
      var token := table[0].1 + " ";
      var tail := Tokens(ev, rest);
      if table[0].0 in ev {
        assert Tokens(ev, table) == token + tail;
        assert (token + tail)[..|token|] == token;
        assert (token + tail)[|token|..] == tail;
      } else {
        assert Tokens(ev, table) == tail;
        NoTokenOfAbsentEvent(ev, table);
      }
    }
  }

  lemma TokenNamesNameEverything()
    ensures WellFormedTable(TokenNames)
    ensures forall e: Event :: e in Bits(TokenNames)
  {
    forall e: Event ensures e in Bits(TokenNames) {
      match e
      case POLLIN => assert TokenNames[0].0 == e;
      case POLLPRI => assert TokenNames[1].0 == e;
      case POLLOUT => assert TokenNames[2].0 == e;
      case POLLHUP => assert TokenNames[3].0 == e;
      case POLLRDHUP => assert TokenNames[4].0 == e;
      case POLLERR => assert TokenNames[5].0 == e;
      case POLLNVAL => assert TokenNames[6].0 == e;
    }
  }

  /** Two masks print the same text exactly when they are equal: the debug
      text names every event, each once. */
  lemma EventsToStringExact(fd: int, a: Mask, b: Mask)
    ensures EventsToString(fd, a) == EventsToString(fd, b) <==> a == b
  {
    TokenNamesNameEverything();
    if EventsToString(fd, a) == EventsToString(fd, b) {
      var p := IntToString(fd) + ": ";
      assert EventsToString(fd, a)[|p|..] == Tokens(a, TokenNames);
      assert EventsToString(fd, b)[|p|..] == Tokens(b, TokenNames);
      ParseTokensOfTokens(a, TokenNames);
      ParseTokensOfTokens(b, TokenNames);
      assert a == a * Bits(TokenNames) && b == b * Bits(TokenNames);
    }
  }

  /** The text for a read-and-write interest set with fd 5. */
  lemma EventsToStringExample()
    ensures EventsToString(5, ReadEvent + WriteEvent) == "5: IN PRI OUT "
  {
    var ev := ReadEvent + WriteEvent;
    assert Tokens(ev, TokenNames[3..]) == "" by {
      assert Tokens(ev, TokenNames[6..]) == "" by {
        assert Tokens(ev, TokenNames[7..]) == "";
      }
      assert Tokens(ev, TokenNames[5..]) == "";
      assert Tokens(ev, TokenNames[4..]) == "";
    }
    assert Tokens(ev, TokenNames[1..]) == "PRI OUT " by {
      assert Tokens(ev, TokenNames[2..]) == "OUT ";
    }
    assert Digits(5) == "5";
  }
}
