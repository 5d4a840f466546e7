/** The response a handler fills in, and the bytes `appendToBuffer` writes
    for it: a status line, the connection fields, the handler's fields, the
    Date field, an empty line and the body (sections 3.1.2 and 3.3.2 of
    RFC 7230, in the form the library writes them).

    `Serialized` is the value-level account of `appendToBuffer`; the class
    method is proved against it, and `ResponseReadsBack` shows that the
    header section it writes is read back field for field by the library's
    own header parser, `ParseHeaders`. */
module HttpResponses {
  import opened ByteOrder
  import opened Decimal
  import opened Wrappers
  import opened NetBuffer
  import opened HttpRequests
  import opened HttpContexts
  import opened LogStreams

  /** The status codes the enumeration declares. */
  datatype StatusCode = StatusUnknown | Status200Ok | Status301MovedPermanently | Status400BadRequest | Status404NotFound

  /** The enumerator's value, which the status line prints; `kUnknown`
      is 0. */
  function Code(s: StatusCode): (n: nat)
    ensures n == 0 <==> s == StatusUnknown
  {
    match s
    case StatusUnknown => 0
    case Status200Ok => 200
    case Status301MovedPermanently => 301
    case Status400BadRequest => 400
    case Status404NotFound => 404
  }

  /** The status a printed code stands for, if any. */
  function StatusOfCode(n: nat): Option<StatusCode>
  {
    if n == 0 then Some(StatusUnknown)
    else if n == 200 then Some(Status200Ok)
    else if n == 301 then Some(Status301MovedPermanently)
    else if n == 400 then Some(Status400BadRequest)
    else if n == 404 then Some(Status404NotFound)
    else None
  }

  /** The field names and values the library writes itself. */
  const ConnectionField: Bytes := "Connection"
  const ContentLengthField: Bytes := "Content-Length"
  const DateField: Bytes := "Date"
  const Close: Bytes := "close"
  const KeepAlive: Bytes := "Keep-Alive"
  /** The line ending. */
  const CRLF: Bytes := "\r\n"
  const VersionPrefix: Bytes := "HTTP/1.1 "
  const ContentTypeField: Bytes := "Content-Type"

  /** "Content-Type" has no NUL, so it reaches the header map whole. */
  lemma ContentTypeFieldIsCString()
    ensures CStringPrefix(ContentTypeField) == ContentTypeField
  {
    CStringPrefixOfNulFree(ContentTypeField);
  }

  /** The value of an `HttpResponse` object. */
  datatype Response = Response(headers: map<Bytes, Bytes>, statusCode: StatusCode, statusMessage: Bytes,
                               body: Bytes, closeConnection: bool)

  /** A response as constructed with `close`, and as `reset` leaves it
      (with `close` false): no fields, unknown status, empty message and
      body. */
  function FreshResponse(close: bool): (r: Response)
    ensures r.headers == map[] && r.statusCode == StatusUnknown && r.statusMessage == [] && r.body == []
    ensures r.closeConnection == close
  {
    Response(map[], StatusUnknown, [], [], close)
  }

  /** A number in decimal, as bytes. */
  function DecimalBytes(n: nat): (r: Bytes)
    ensures r == Digits(n)
  {
    Digits(n)
  }

  /** "HTTP/1.1 {code} {message}\r\n". */
  function StatusLine(r: Response): Bytes
  {
    StatusText(r) + CRLF
  }

  /** The status line without its CRLF. */
  function StatusText(r: Response): Bytes
  {
    VersionPrefix + DecimalBytes(Code(r.statusCode)) + " " + r.statusMessage
  }

  /** "{name}: {value}\r\n". */
  function FieldText(name: Bytes, value: Bytes): (r: Bytes)
    ensures |r| == |name| + |value| + 4
  {
    name + ": " + value + CRLF
  }

  /** "Connection: close\r\n" for a response that closes the connection;
      otherwise "Content-Length: {body size}\r\nConnection: Keep-Alive\r\n". */
  function ConnectionLines(r: Response): Bytes
  {
    if r.closeConnection then FieldText(ConnectionField, Close)
    else FieldText(ContentLengthField, DecimalBytes(|r.body|)) + FieldText(ConnectionField, KeepAlive)
  }

  /** One line per key of `keys`, in that order, for the keys the map
      holds: the map's iteration order is not specified, so it is given. */
  function HeaderLines(headers: map<Bytes, Bytes>, keys: seq<Bytes>): Bytes
  {
    if keys == [] then []
    else
      var k := keys[|keys| - 1];
      HeaderLines(headers, keys[..|keys| - 1]) + (if k in headers then FieldText(k, headers[k]) else [])
  }

  /** `keys` lists every key of the map exactly once. */
  predicate IsKeyOrder(keys: seq<Bytes>, headers: map<Bytes, Bytes>)
  {
    && (forall k | k in headers :: k in keys)
    && (forall i | 0 <= i < |keys| :: keys[i] in headers)
    && (forall i, j | 0 <= i < j < |keys| :: keys[i] != keys[j])
  }

  /** Everything between the status line and the body: the connection
      lines, the header lines, the Date line and the empty line. */
  function HeaderSection(r: Response, keys: seq<Bytes>, date: Bytes): Bytes
  {
    ConnectionLines(r) + HeaderLines(r.headers, keys) + date + CRLF
  }

  /** `appendToBuffer`'s output, with `keys` the order in which the header
      map is visited and `date` the Date line (with its CRLF) the clock
      gives. */
  function Serialized(r: Response, keys: seq<Bytes>, date: Bytes): Bytes
  {
    StatusLine(r) + HeaderSection(r, keys, date) + r.body
  }

  /** A line the header parser reads as the field (name, value): a name
      without ':' and a value that is not empty, neither starts nor ends
      with a space, and neither has a CR. */
  predicate WellFormedField(name: Bytes, value: Bytes)
  {
    && NoByte(name, ':') && NoByte(name, '\r') && NoByte(value, '\r')
    && value != [] && value[0] != ' ' && value[|value| - 1] != ' '
  }

  /** The Date line as the clock formats it: 37 bytes, "Date: ", a stamp
      such as "Thu, 01 Jan 1970 00:00:00 GMT", and CRLF. */
  predicate IsDateLine(date: Bytes)
  {
    |date| == 37 && date[..6] == "Date: " && date[35..] == CRLF && WellFormedField(DateField, date[6..35])
  }

  /** The fields a reader of the header section ends up with, starting from
      the fields m it held: the connection fields, then the handler's
      fields, then the Date. */
  function SentHeaders(m: map<Bytes, Bytes>, r: Response, date: Bytes): map<Bytes, Bytes>
    requires |date| >= 35
  {
    var withConnection :=
      if r.closeConnection then m[ConnectionField := Close]
      else m[ContentLengthField := DecimalBytes(|r.body|)][ConnectionField := KeepAlive];
    (withConnection + r.headers)[DateField := date[6..35]]
  }

  /** The fields m holds once the lines for `keys` are read, in order. */
  function FieldsAdded(m: map<Bytes, Bytes>, headers: map<Bytes, Bytes>, keys: seq<Bytes>): map<Bytes, Bytes>
  {
    if keys == [] then m
    else
      var k := keys[|keys| - 1];
      var before := FieldsAdded(m, headers, keys[..|keys| - 1]);
      if k in headers then before[k := headers[k]] else before
  }

  // Layout of the serialised response

  /** One more key of `keys` appends its line. */
  lemma HeaderLinesPrefix(headers: map<Bytes, Bytes>, keys: seq<Bytes>, i: nat)
    requires i < |keys|
    ensures HeaderLines(headers, keys[..i + 1]) ==
            HeaderLines(headers, keys[..i]) + (if keys[i] in headers then FieldText(keys[i], headers[keys[i]]) else [])
  {
    assert keys[..i + 1][..i] == keys[..i];
  }

  /** The pieces `appendToBuffer` appends one after the other make up the
      serialised response. */
  lemma SerializedInPieces(before: Bytes, r: Response, keys: seq<Bytes>, date: Bytes)
    ensures before + StatusLine(r) + ConnectionLines(r) + HeaderLines(r.headers, keys) + (date + CRLF + r.body)
            == before + Serialized(r, keys, date)
  {
    Regroup(before, StatusLine(r), ConnectionLines(r), HeaderLines(r.headers, keys), date + CRLF, r.body);
  }

  lemma Regroup3(a: Bytes, b: Bytes, c: Bytes)
    ensures a + b + c == a + (b + c)
  {
  }

  lemma Regroup(a: Bytes, s: Bytes, c: Bytes, h: Bytes, t: Bytes, b: Bytes)
    ensures a + s + c + h + (t + b) == a + (s + (c + h + t) + b)
  {
  }

  /** The status line prints the status so that it reads back: the code's
      digits parse to the code, which names the status. */
  lemma StatusLineReadsBack(r: Response)
    ensures var line := StatusLine(r);
            var d := Digits(Code(r.statusCode));
            && line[..9] == VersionPrefix && 9 + |d| < |line|
            && line[9..9 + |d|] == d && line[9 + |d|] == ' '
            && StatusOfCode(ParseDigits(d)) == Some(r.statusCode)
  {
    var d := Digits(Code(r.statusCode));
    ParseDigitsOfDigits(Code(r.statusCode));
    var line, tail := StatusLine(r), " " + r.statusMessage + CRLF;
    assert line == VersionPrefix + (d + tail) by {
      Regroup3(VersionPrefix, d, tail);
    }
  }

  /** A line without CR followed by CRLF: its CRLF is the first one. */
  lemma CRLFAfter(a: Bytes, rest: Bytes)
    requires NoByte(a, '\r')
    ensures FirstCRLF(a + CRLF + rest) == Some(|a|)
  {
    var s := a + CRLF + rest;
    CRLFFromFirst(s, 0);
    assert IsCRLFAt(s, |a|);
    assert forall q | 0 <= q < |a| :: s[q] == a[q];
  }

  /** A field's text is the line a sender writes with one space before the
      value, then CRLF. */
  lemma FieldTextIsFieldLine(name: Bytes, value: Bytes)
    ensures FieldText(name, value) == FieldLine(name, value, 1, 0) + CRLF
  {
    assert Spaces(1) == [' '];
    assert Spaces(0) == [];
  }

  /** A well-formed field's line, first in the input, is read as that field
      and the parser goes on after it. */
  lemma FieldTextRead(req: Request, name: Bytes, value: Bytes, rest: Bytes)
    requires WellFormedField(name, value)
    ensures var p := ParseHeaders(req.(headers := req.headers[name := value]), rest);
            ParseHeaders(req, FieldText(name, value) + rest) == p.(consumed := |FieldText(name, value)| + p.consumed)
  {
    var line := FieldLine(name, value, 1, 0);
    var s := FieldText(name, value) + rest;
    FieldTextIsFieldLine(name, value);
    assert s == line + CRLF + rest;
    assert NoByte(line, '\r') by {
      assert line == name + ": " + value;
      forall q | 0 <= q < |line|
        ensures line[q] != '\r'
      {
        if q >= |name| + 2 {
          assert line[q] == value[q - |name| - 2];
        } else if q < |name| {
          assert line[q] == name[q];
        }
      }
    }
    CRLFAfter(line, rest);
    HeaderLineRoundTrip(name, value, 1, 0);
    assert s[..|line|] == line && s[|line| + 2..] == rest;
    HeadersFieldStep(req, s, |line|, name, value);
  }

  /** The lines for `keys`, first in the input, are read as their fields,
      in order, and the parser goes on after them. */
  lemma {:induction false} HeaderLinesRead(req: Request, headers: map<Bytes, Bytes>, keys: seq<Bytes>, rest: Bytes)
    requires forall k | k in keys && k in headers :: WellFormedField(k, headers[k])
    ensures var p := ParseHeaders(req.(headers := FieldsAdded(req.headers, headers, keys)), rest);
            ParseHeaders(req, HeaderLines(headers, keys) + rest) == p.(consumed := |HeaderLines(headers, keys)| + p.consumed)
    decreases |keys|
  {
    if keys != [] {
      var init, k := keys[..|keys| - 1], keys[|keys| - 1];
      assert forall x | x in init :: x in keys;
      var line := if k in headers then FieldText(k, headers[k]) else [];
      assert HeaderLines(headers, keys) + rest == HeaderLines(headers, init) + (line + rest);
      HeaderLinesRead(req, headers, init, line + rest);
      var req1 := req.(headers := FieldsAdded(req.headers, headers, init));
      if k in headers {
        FieldTextRead(req1, k, headers[k], rest);
      } else {
        assert line + rest == rest;
      }
    } else {
      assert HeaderLines(headers, keys) + rest == rest;
      assert req.(headers := FieldsAdded(req.headers, headers, keys)) == req;
    }
  }

  /** Reading the lines of every key adds the whole map. */
  lemma {:induction false} FieldsAddedAll(m: map<Bytes, Bytes>, headers: map<Bytes, Bytes>, keys: seq<Bytes>)
    ensures var a := FieldsAdded(m, headers, keys);
            && (forall x :: x in a <==> x in m || (x in headers && x in keys))
            && (forall x | x in a :: a[x] == if x in headers && x in keys then headers[x] else m[x])
    decreases |keys|
  {
    if keys != [] {
      var init := keys[..|keys| - 1];
      FieldsAddedAll(m, headers, init);
      assert forall x :: x in keys <==> x in init || x == keys[|keys| - 1];
    }
  }

  /** Reading the lines of a key order of the map adds the whole map. */
  lemma FieldsAddedIsUnion(m: map<Bytes, Bytes>, headers: map<Bytes, Bytes>, keys: seq<Bytes>)
    requires IsKeyOrder(keys, headers)
    ensures FieldsAdded(m, headers, keys) == m + headers
  {
    FieldsAddedAll(m, headers, keys);
  }

  /** A Date line is the Date field's line. */
  lemma DateLineIsField(date: Bytes)
    requires IsDateLine(date)
    ensures date == FieldText(DateField, date[6..35])
  {
    assert date == date[..6] + date[6..35] + date[35..];
  }

  /** The fields of the connection lines are well formed. */
  lemma ConnectionFieldsWellFormed(n: nat)
    ensures WellFormedField(ConnectionField, Close) && WellFormedField(ConnectionField, KeepAlive)
    ensures WellFormedField(ContentLengthField, DecimalBytes(n))
  {
    var d := DecimalBytes(n);
    assert d[0] != ' ' && d[|d| - 1] != ' ';
  }

  /** Two well-formed field lines are read one after the other. */
  lemma TwoFieldsRead(req: Request, n1: Bytes, v1: Bytes, n2: Bytes, v2: Bytes, rest: Bytes)
    requires WellFormedField(n1, v1) && WellFormedField(n2, v2)
    ensures var p := ParseHeaders(req.(headers := req.headers[n1 := v1][n2 := v2]), rest);
            ParseHeaders(req, FieldText(n1, v1) + FieldText(n2, v2) + rest)
            == p.(consumed := |FieldText(n1, v1)| + |FieldText(n2, v2)| + p.consumed)
  {
    var f1, f2 := FieldText(n1, v1), FieldText(n2, v2);
    assert f1 + f2 + rest == f1 + (f2 + rest);
    FieldTextRead(req, n1, v1, f2 + rest);
    FieldTextRead(req.(headers := req.headers[n1 := v1]), n2, v2, rest);
  }

  /** After the connection lines, the fields they name are added. */
  lemma ConnectionLinesRead(req: Request, r: Response, rest: Bytes)
    ensures var m := if r.closeConnection then req.headers[ConnectionField := Close]
                     else req.headers[ContentLengthField := DecimalBytes(|r.body|)][ConnectionField := KeepAlive];
            var p := ParseHeaders(req.(headers := m), rest);
            ParseHeaders(req, ConnectionLines(r) + rest) == p.(consumed := |ConnectionLines(r)| + p.consumed)
  {
    ConnectionFieldsWellFormed(|r.body|);
    if r.closeConnection {
      FieldTextRead(req, ConnectionField, Close, rest);
    } else {
      TwoFieldsRead(req, ContentLengthField, DecimalBytes(|r.body|), ConnectionField, KeepAlive, rest);
    }
  }

  /** An empty line ends the headers, whatever follows. */
  lemma EmptyLineEnds(req: Request, body: Bytes)
    ensures ParseHeaders(req, CRLF + body) == ParseOutcome(Ok, GotAll, req, 2)
  {
    var s: Bytes := CRLF + body;
    CRLFAfter([], body);
    assert [] + CRLF + body == s;
    ParseHeadersStep(req, s);
    assert s[..0] == [];
  }

  /** The Date line and the empty line end the headers with the Date
      field added. */
  lemma DateAndEndRead(req: Request, date: Bytes, body: Bytes)
    requires IsDateLine(date)
    ensures ParseHeaders(req, date + (CRLF + body)) ==
            ParseOutcome(Ok, GotAll, req.(headers := req.headers[DateField := date[6..35]]), |date| + 2)
  {
    var tail: Bytes := CRLF + body;
    var req1 := req.(headers := req.headers[DateField := date[6..35]]);
    DateLineIsField(date);
    FieldTextRead(req, DateField, date[6..35], tail);
    EmptyLineEnds(req1, body);
  }

  /** The connection lines and the header lines are read as their fields. */
  lemma FieldLinesRead(req: Request, r: Response, keys: seq<Bytes>, rest: Bytes)
    requires IsKeyOrder(keys, r.headers)
    requires forall k | k in r.headers :: WellFormedField(k, r.headers[k])
    ensures var m := if r.closeConnection then req.headers[ConnectionField := Close]
                     else req.headers[ContentLengthField := DecimalBytes(|r.body|)][ConnectionField := KeepAlive];
            var p := ParseHeaders(req.(headers := m + r.headers), rest);
            var n := |ConnectionLines(r)| + |HeaderLines(r.headers, keys)|;
            ParseHeaders(req, ConnectionLines(r) + (HeaderLines(r.headers, keys) + rest)) == p.(consumed := n + p.consumed)
  {
    var m := if r.closeConnection then req.headers[ConnectionField := Close]
             else req.headers[ContentLengthField := DecimalBytes(|r.body|)][ConnectionField := KeepAlive];
    ConnectionLinesRead(req, r, HeaderLines(r.headers, keys) + rest);
    HeaderLinesRead(req.(headers := m), r.headers, keys, rest);
    FieldsAddedIsUnion(m, r.headers, keys);
  }

  /** The header section, first in the input, is read whole: the request
      ends there with every field the response sent, and the body is left. */
  lemma HeaderSectionRead(req: Request, r: Response, keys: seq<Bytes>, date: Bytes)
    requires IsKeyOrder(keys, r.headers)
    requires forall k | k in r.headers :: WellFormedField(k, r.headers[k])
    requires IsDateLine(date)
    ensures ParseHeaders(req, HeaderSection(r, keys, date) + r.body) ==
            ParseOutcome(Ok, GotAll, req.(headers := SentHeaders(req.headers, r, date)), |HeaderSection(r, keys, date)|)
  {
    var c, h := ConnectionLines(r), HeaderLines(r.headers, keys);
    var rest: Bytes := date + (CRLF + r.body);
    assert HeaderSection(r, keys, date) + r.body == c + (h + rest);
    FieldLinesRead(req, r, keys, rest);
    var m := if r.closeConnection then req.headers[ConnectionField := Close]
             else req.headers[ContentLengthField := DecimalBytes(|r.body|)][ConnectionField := KeepAlive];
    DateAndEndRead(req.(headers := m + r.headers), date, r.body);
  }

  /** The status text has no CR when the message has none. */
  lemma StatusTextNoCR(r: Response)
    requires NoByte(r.statusMessage, '\r')
    ensures NoByte(StatusText(r), '\r')
  {
    var first, d := StatusText(r), DecimalBytes(Code(r.statusCode));
    forall q | 0 <= q < |first|
      ensures first[q] != '\r'
    {
      if q >= 10 + |d| {
        assert first[q] == r.statusMessage[q - 10 - |d|];
      } else if 9 <= q < 9 + |d| {
        assert first[q] == d[q - 9];
      }
    }
  }

  lemma SerializedSplit(r: Response, keys: seq<Bytes>, date: Bytes)
    ensures Serialized(r, keys, date) == StatusText(r) + CRLF + (HeaderSection(r, keys, date) + r.body)
  {
  }

  /** What `appendToBuffer` writes reads back: its first line is the
      status line; the parser, given what follows, finds the end of the
      headers with every field the response sent (a handler's field of the
      same name replacing a connection field); and the body is what is
      left, verbatim. */
  lemma ResponseReadsBack(req: Request, r: Response, keys: seq<Bytes>, date: Bytes)
    requires IsKeyOrder(keys, r.headers)
    requires forall k | k in r.headers :: WellFormedField(k, r.headers[k])
    requires NoByte(r.statusMessage, '\r') && IsDateLine(date)
    ensures var s := Serialized(r, keys, date);
            var n := |StatusLine(r)|;
            var p := ParseHeaders(req, s[n..]);
            && FirstCRLF(s) == Some(n - 2)
            && p.status == Ok && p.state == GotAll && p.request == req.(headers := SentHeaders(req.headers, r, date))
            && n + p.consumed + |r.body| == |s| && s[n + p.consumed..] == r.body
  {
    var s := Serialized(r, keys, date);
    var first, tail := StatusText(r), HeaderSection(r, keys, date) + r.body;
    StatusTextNoCR(r);
    SerializedSplit(r, keys, date);
    CRLFAfter(first, tail);
    assert s[|StatusLine(r)|..] == tail;
    HeaderSectionRead(req, r, keys, date);
  }

  /** A reader that trusts Content-Length takes exactly the body, when the
      handler did not set that field itself. */
  lemma ContentLengthReadsBack(m: map<Bytes, Bytes>, r: Response, date: Bytes)
    requires !r.closeConnection && ContentLengthField !in r.headers && |date| >= 35
    ensures var sent := SentHeaders(m, r, date);
            ContentLengthField in sent && sent[ContentLengthField] == Digits(|r.body|)
            && ParseDigits(sent[ContentLengthField]) == |r.body|
  {
    ParseDigitsOfDigits(|r.body|);
  }

  /** A response that closes the connection says so and sends no
      Content-Length; one that keeps it alive says that too. */
  lemma ConnectionAnnounced(m: map<Bytes, Bytes>, r: Response, date: Bytes)
    requires ConnectionField !in r.headers && |date| >= 35
    ensures var sent := SentHeaders(m, r, date);
            ConnectionField in sent && (sent[ConnectionField] == Close <==> r.closeConnection)
    ensures r.closeConnection && ContentLengthField !in m && ContentLengthField !in r.headers ==>
              ContentLengthField !in SentHeaders(m, r, date)
  {
  }

  class HttpResponse {
    var headers: map<Bytes, Bytes>
    var statusCode: StatusCode
    var statusMessage: Bytes
    var body: Bytes
    var closeConnection: bool

    function Value(): Response
      reads this
    {
      Response(headers, statusCode, statusMessage, body, closeConnection)
    }

    /** A new response: unknown status, no fields, and the given choice
        of closing the connection. */
    constructor(close: bool)
      ensures Value() == FreshResponse(close)
    {
      headers := map[];
      statusCode := StatusUnknown;
      statusMessage := [];
      body := [];
      closeConnection := close;
    }

    method SetStatusCode(code: StatusCode)
      modifies this`statusCode
      ensures Value() == old(Value()).(statusCode := code)
    {
      statusCode := code;
    }

    method SetStatusMessage(message: Bytes)
      modifies this`statusMessage
      ensures Value() == old(Value()).(statusMessage := message)
    {
      statusMessage := message;
    }

    method SetCloseConnection(on: bool)
      modifies this`closeConnection
      ensures Value() == old(Value()).(closeConnection := on)
    {
      closeConnection := on;
    }

    function GetCloseConnection(): (r: bool)
      reads this
      ensures r == Value().closeConnection
    {
      closeConnection
    }

    /** `addHeader`: name and value arrive as C strings, so each is cut at
        its first NUL; the value replaces any earlier value of the field. */
    method AddHeader(key: Bytes, value: Bytes)
      modifies this`headers
      ensures Value() == old(Value()).(headers := old(headers)[CStringPrefix(key) := CStringPrefix(value)])
      ensures CStringPrefix(key) in headers && headers[CStringPrefix(key)] == CStringPrefix(value)
      ensures forall k | k != CStringPrefix(key) ::
                (k in headers <==> k in old(headers)) && (k in headers ==> headers[k] == old(headers)[k])
      ensures (forall i | 0 <= i < |key| :: key[i] != '\0') && (forall i | 0 <= i < |value| :: value[i] != '\0')
              ==> key in headers && headers[key] == value
    {
      headers := headers[CStringPrefix(key) := CStringPrefix(value)];
      if (forall i | 0 <= i < |key| :: key[i] != '\0') && (forall i | 0 <= i < |value| :: value[i] != '\0') {
        CStringPrefixOfNulFree(key);
        CStringPrefixOfNulFree(value);
      }
    }

    /** `setContentType`: the Content-Type field, holding the type up to
        its first NUL. */
    method SetContentType(contentType: Bytes)
      modifies this`headers
      ensures Value() == old(Value()).(headers := old(headers)[ContentTypeField := CStringPrefix(contentType)])
    {
      ContentTypeFieldIsCString();
      AddHeader(ContentTypeField, contentType);
    }

    method SetBody(b: Bytes)
      modifies this`body
      ensures Value() == old(Value()).(body := b)
    {
      body := b;
    }

    /** `appendToBuffer`: appends the serialised response to what output
        already holds, visiting the fields in the order `keys`, which lists
        each of them once; `date` is the Date line. */
    method AppendToBuffer(output: Buffer, keys: seq<Bytes>, date: Bytes)
      requires output.Valid() && IsKeyOrder(keys, headers)
      modifies output
      ensures output.Valid()
      ensures output.State().Readable() == old(output.State().Readable()) + Serialized(Value(), keys, date)
    {
      ghost var before := output.State().Readable();
      var v := Value();
      output.Append(StatusLine(v));
      output.Append(ConnectionLines(v));
      AppendHeaderLines(output, keys);
      output.Append(date + CRLF + body);
      SerializedInPieces(before, v, keys, date);
    }

    /** The loop over the header map: one line per key of `keys`. */
    method AppendHeaderLines(output: Buffer, keys: seq<Bytes>)
      requires output.Valid() && forall i | 0 <= i < |keys| :: keys[i] in headers
      modifies output
      ensures output.Valid()
      ensures output.State().Readable() == old(output.State().Readable()) + HeaderLines(headers, keys)
    {
      ghost var before := output.State().Readable();
      ghost var lines: Bytes := [];
      for i := 0 to |keys|
        invariant output.Valid() && output.State().Readable() == before + lines
        invariant lines == HeaderLines(headers, keys[..i])
      {
        var field := FieldText(keys[i], headers[keys[i]]);
        HeaderLinesPrefix(headers, keys, i);
        output.Append(field);
        lines := lines + field;
        assert output.State().Readable() == before + lines by {
          Regroup3(before, lines[..|lines| - |field|], field);
        }
      }
      assert keys[..|keys|] == keys;
    }

    /** `reset`: back to a fresh response that keeps the connection. */
    method Reset()
      modifies this
      ensures Value() == FreshResponse(false)
    {
      headers := map[];
      statusMessage := [];
      body := [];
      statusCode := StatusUnknown;
      closeConnection := false;
    }

    /** Takes the value a handler made of this response. */
    method Assign(v: Response)
      modifies this
      ensures Value() == v
    {
      headers := v.headers;
      statusCode := v.statusCode;
      statusMessage := v.statusMessage;
      body := v.body;
      closeConnection := v.closeConnection;
    }
  }
}
