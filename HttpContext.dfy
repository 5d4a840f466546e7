/** The incremental request parser: it reads the request line and the
    header lines of a request (sections 3.1.1 and 3.2 of RFC 7230, in the
    subset the library accepts) from the front of a buffer, as far as the
    buffer's complete lines go, and resumes where it stopped on the next
    call.

    `ParseFrom` is the value-level account of one `parseRequest` call;
    `HttpContext.ParseRequest` consumes the buffer line by line and is
    proved to agree with it. */
module HttpContexts {
  import opened ByteOrder
  import opened Wrappers
  import opened Timestamps
  import opened NetBuffer
  import opened HttpRequests

  datatype ParseState = ExpectRequestLine | ExpectHeaders | ExpectBody | GotAll

  /** How a call ended: normally (`Ok`), with the request line refused
      (`Failed`), or with the `std::out_of_range` a header whose value is
      empty or all spaces makes `substr` throw (`OutOfRange`). */
  datatype ParseStatus = Ok | Failed | OutOfRange

  /** The result of one call: how it ended, the parser's state and request
      afterwards, and how many bytes of the input it consumed. */
  datatype ParseOutcome = ParseOutcome(status: ParseStatus, state: ParseState, request: Request, consumed: nat)

  /** What one header line holds. */
  datatype HeaderLineKind = Field(name: Bytes, value: Bytes) | EndOfHeaders | ValueOutOfRange

  /** The first "\r\n" of s at or after i. */
  function CRLFFrom(s: Bytes, i: nat): (r: Option<nat>)
    requires i <= |s|
    ensures r.Some? ==> i <= r.value && r.value + 2 <= |s| && IsCRLFAt(s, r.value)
    decreases |s| - i
  {
    if i + 2 > |s| then None
    else if s[i] == '\r' && s[i + 1] == '\n' then Some(i)
    else CRLFFrom(s, i + 1)
  }

  /** `findCRLF()` on the readable bytes s. */
  function FirstCRLF(s: Bytes): (r: Option<nat>)
    ensures r.Some? ==> r.value + 2 <= |s| && IsCRLFAt(s, r.value)
  {
    CRLFFrom(s, 0)
  }

  /** `CRLFFrom` finds the first "\r\n" at or after i, and None means there
      is none. */
  lemma {:induction false} CRLFFromFirst(s: Bytes, i: nat)
    requires i <= |s|
    ensures var r := CRLFFrom(s, i);
            && (r.Some? ==> forall q: nat | i <= q < r.value :: !IsCRLFAt(s, q))
            && (r.None? ==> forall q: nat | i <= q :: !IsCRLFAt(s, q))
    decreases |s| - i
  {
    if i + 2 <= |s| && !(s[i] == '\r' && s[i + 1] == '\n') {
      CRLFFromFirst(s, i + 1);
    }
  }

  /** The parser's search is the buffer's: the first "\r\n" of the bytes. */
  lemma FirstCRLFIsFindCRLF(s: Bytes)
    ensures FirstCRLF(s) == FindCRLFFrom(s, 0, |s|)
  {
    CRLFFromFirst(s, 0);
    var r := FindCRLFFrom(s, 0, |s|);
    if r.Some? {
      assert !IsCRLFAt(s, r.value) ==> false;
    }
  }

  /** The first c of s at or after i (`find(c, i)`). */
  function FindFrom(s: Bytes, c: Byte, i: nat): (r: Option<nat>)
    requires i <= |s|
    ensures r.Some? ==> i <= r.value < |s| && s[r.value] == c
    decreases |s| - i
  {
    if i == |s| then None
    else if s[i] == c then Some(i)
    else FindFrom(s, c, i + 1)
  }

  lemma {:induction false} FindFromFirst(s: Bytes, c: Byte, i: nat)
    requires i <= |s|
    ensures var r := FindFrom(s, c, i);
            && (r.Some? ==> forall q | i <= q < r.value :: s[q] != c)
            && (r.None? ==> forall q | i <= q < |s| :: s[q] != c)
    decreases |s| - i
  {
    if i < |s| && s[i] != c {
      FindFromFirst(s, c, i + 1);
    }
  }

  predicate NoByte(s: Bytes, c: Byte)
  {
    forall q | 0 <= q < |s| :: s[q] != c
  }

  /** `find_first_not_of(' ', i)`. */
  function FirstNotSpace(s: Bytes, i: nat): (r: Option<nat>)
    requires i <= |s|
    ensures r.Some? ==> i <= r.value < |s| && s[r.value] != ' '
    decreases |s| - i
  {
    if i == |s| then None
    else if s[i] != ' ' then Some(i)
    else FirstNotSpace(s, i + 1)
  }

  lemma {:induction false} FirstNotSpaceFirst(s: Bytes, i: nat)
    requires i <= |s|
    ensures var r := FirstNotSpace(s, i);
            && (r.Some? ==> forall q | i <= q < r.value :: s[q] == ' ')
            && (r.None? ==> forall q | i <= q < |s| :: s[q] == ' ')
    decreases |s| - i
  {
    if i < |s| && s[i] == ' ' {
      FirstNotSpaceFirst(s, i + 1);
    }
  }

  /** `find_last_not_of(' ')`. */
  function LastNotSpace(s: Bytes): (r: Option<nat>)
    ensures r.Some? ==> r.value < |s| && s[r.value] != ' '
  {
    if s == [] then None
    else if s[|s| - 1] != ' ' then Some(|s| - 1)
    else LastNotSpace(s[..|s| - 1])
  }

  lemma {:induction false} LastNotSpaceLast(s: Bytes)
    ensures var r := LastNotSpace(s);
            && (r.Some? ==> forall q | r.value < q < |s| :: s[q] == ' ')
            && (r.None? ==> forall q | 0 <= q < |s| :: s[q] == ' ')
  {
    if s != [] && s[|s| - 1] == ' ' {
      var t := s[..|s| - 1];
      LastNotSpaceLast(t);
      assert forall q | 0 <= q < |t| :: t[q] == s[q];
    }
  }

  /** One past the last non-space of s, which has a non-space at b. */
  function ValueEnd(s: Bytes, b: nat): (e: nat)
    requires b < |s| && s[b] != ' '
    ensures b < e <= |s| && s[e - 1] != ' '
    decreases |s|
  {
    if s[|s| - 1] != ' ' then |s| else ValueEnd(s[..|s| - 1], b)
  }

  /** With a non-space at b, `find_last_not_of(' ')` finds the byte
      before `ValueEnd`. */
  lemma {:induction false} ValueEndIsLastNotSpace(s: Bytes, b: nat)
    requires b < |s| && s[b] != ' '
    ensures LastNotSpace(s) == Some(ValueEnd(s, b) - 1)
    decreases |s|
  {
    if s[|s| - 1] == ' ' {
      ValueEndIsLastNotSpace(s[..|s| - 1], b);
    }
  }

  /** A header line splits at its first ':'; the value runs from the
      first non-space after the colon to the last non-space of the line.
      A line without ':' ends the headers; a colon followed by spaces only
      leaves no value, and the source's `substr` throws. */
  function HeaderLine(line: Bytes): HeaderLineKind
  {
    match FindFrom(line, ':', 0)
    case None => EndOfHeaders
    case Some(c) =>
      match FirstNotSpace(line, c + 1)
      case None => ValueOutOfRange
      case Some(b) =>
        Field(line[..c], line[b..ValueEnd(line, b)])
  }

  /** The headers end exactly at a line without ':'; a field's name is
      the line up to its first ':', and its value is not empty and neither
      starts nor ends with a space. */
  lemma HeaderLineShape(line: Bytes)
    ensures HeaderLine(line).EndOfHeaders? <==> NoByte(line, ':')
    ensures var r := HeaderLine(line);
            r.Field? ==> && NoByte(r.name, ':') && |r.name| < |line|
                         && line[..|r.name|] == r.name && line[|r.name|] == ':'
    ensures var r := HeaderLine(line);
            r.Field? ==> r.value != [] && r.value[0] != ' ' && r.value[|r.value| - 1] != ' '
  {
    FindFromFirst(line, ':', 0);
    var c := FindFrom(line, ':', 0);
    if c.Some? {
      var name := line[..c.value];
      assert forall q | 0 <= q < |name| :: name[q] == line[q];
    }
  }

  function Spaces(n: nat): (r: Bytes)
    ensures |r| == n && forall q | 0 <= q < n :: r[q] == ' '
  {
    if n == 0 then [] else [' '] + Spaces(n - 1)
  }

  /** The first c of s is at j when s[j] is c and none comes before. */
  lemma FindFromAt(s: Bytes, c: Byte, j: nat)
    requires j < |s| && s[j] == c && forall q | 0 <= q < j :: s[q] != c
    ensures FindFrom(s, c, 0) == Some(j)
  {
    FindFromFirst(s, c, 0);
  }

  lemma FirstNotSpaceAt(s: Bytes, i: nat, j: nat)
    requires i <= j < |s| && s[j] != ' ' && forall q | i <= q < j :: s[q] == ' '
    ensures FirstNotSpace(s, i) == Some(j)
  {
    FirstNotSpaceFirst(s, i);
  }

  lemma LastNotSpaceAt(s: Bytes, j: nat)
    requires j < |s| && s[j] != ' ' && forall q | j < q < |s| :: s[q] == ' '
    ensures LastNotSpace(s) == Some(j)
  {
    LastNotSpaceLast(s);
  }

  /** A line whose first ':' is at c, whose value starts at b after
      spaces only and ends at e before spaces only, holds the field
      line[..c] with value line[b..e+1]. */
  lemma HeaderLineAt(line: Bytes, c: nat, b: nat, e: nat)
    requires c < b <= e < |line| && line[c] == ':' && line[b] != ' ' && line[e] != ' '
    requires forall q | 0 <= q < c :: line[q] != ':'
    requires forall q | c < q < b :: line[q] == ' '
    requires forall q | e < q < |line| :: line[q] == ' '
    ensures HeaderLine(line) == Field(line[..c], line[b..e + 1])
  {
    FindFromAt(line, ':', c);
    FirstNotSpaceAt(line, c + 1, b);
    LastNotSpaceAt(line, e);
    ValueEndIsLastNotSpace(line, b);
  }

  /** A header line as a sender writes it: the name, ':', `before`
      spaces, the value and `after` spaces. */
  function FieldLine(name: Bytes, value: Bytes, before: nat, after: nat): (r: Bytes)
    ensures |r| == |name| + 1 + before + |value| + after
  {
    name + [':'] + Spaces(before) + value + Spaces(after)
  }

  lemma FieldLineName(name: Bytes, value: Bytes, before: nat, after: nat)
    ensures var line := FieldLine(name, value, before, after);
            line[..|name|] == name && line[|name|] == ':'
            && forall q | 0 <= q < |name| :: line[q] == name[q]
  {
    var withColon: Bytes := name + [':'];
    var spaced: Bytes := withColon + Spaces(before);
    var valued: Bytes := spaced + value;
    var line := valued + Spaces(after);
    assert line[..|withColon|] == withColon by {
      assert line[..|withColon|] == valued[..|withColon|] == spaced[..|withColon|];
    }
    assert withColon[..|name|] == name;
  }

  lemma FieldLineSpaces(name: Bytes, value: Bytes, before: nat, after: nat)
    ensures var line := FieldLine(name, value, before, after);
            && (forall q | |name| < q <= |name| + before :: line[q] == ' ')
            && (forall q | |name| + before + |value| < q < |line| :: line[q] == ' ')
  {
    var spaced: Bytes := name + [':'] + Spaces(before);
    var valued: Bytes := spaced + value;
    var line := valued + Spaces(after);
    forall q | |name| < q <= |name| + before
      ensures line[q] == ' '
    {
      assert line[q] == valued[q] == spaced[q] == Spaces(before)[q - |name| - 1];
    }
    forall q | |name| + before + |value| < q < |line|
      ensures line[q] == ' '
    {
      assert line[q] == Spaces(after)[q - |valued|];
    }
  }

  lemma FieldLineValue(name: Bytes, value: Bytes, before: nat, after: nat)
    ensures var line := FieldLine(name, value, before, after);
            var b := |name| + 1 + before;
            line[b..b + |value|] == value
  {
    var spaced: Bytes := name + [':'] + Spaces(before);
    var valued: Bytes := spaced + value;
    var line := valued + Spaces(after);
    assert line[..|valued|] == valued;
  }

  /** A field written as name, ':', any spaces, a trimmed value and any
      spaces reads back as that name and value. */
  lemma HeaderLineRoundTrip(name: Bytes, value: Bytes, before: nat, after: nat)
    requires NoByte(name, ':') && value != [] && value[0] != ' ' && value[|value| - 1] != ' '
    ensures HeaderLine(FieldLine(name, value, before, after)) == Field(name, value)
  {
    var line := FieldLine(name, value, before, after);
    var c := |name|;
    var b := c + 1 + before;
    var e := b + |value| - 1;
    FieldLineName(name, value, before, after);
    FieldLineSpaces(name, value, before, after);
    FieldLineValue(name, value, before, after);
    assert line[b..e + 1] == value;
    assert line[b] == value[0] && line[e] == value[|value| - 1];
    HeaderLineAt(line, c, b, e);
  }

  /** The target splits at its first '?' into the path and the query,
      which keeps the '?'; without a '?' only the path is set. */
  function SplitTarget(req: Request, target: Bytes): (r: Request)
    ensures r.httpMethod == req.httpMethod && r.version == req.version && r.headers == req.headers
  {
    match FindFrom(target, '?', 0)
    case Some(q) => req.(path := target[..q], query := target[q..])
    case None => req.(path := target)
  }

  /** Without a '?' the target is the path and the query is kept;
      otherwise the path, which holds no '?', and the query, which starts
      with one, make up the target. */
  lemma SplitTargetShape(req: Request, target: Bytes)
    ensures var r := SplitTarget(req, target);
            && (NoByte(target, '?') ==> r.path == target && r.query == req.query)
            && (!NoByte(target, '?') ==> r.path + r.query == target && r.query != [] && r.query[0] == '?')
            && NoByte(r.path, '?')
  {
    FindFromFirst(target, '?', 0);
    var r := FindFrom(target, '?', 0);
    if r.Some? {
      assert target[..r.value] + target[r.value..] == target;
    }
  }

  /** The versions the request line may name. */
  const VersionNames: seq<(Bytes, Version)> := [("HTTP/1.1", Http11), ("HTTP/1.0", Http10)]

  /** The version must be exactly "HTTP/1.1" or "HTTP/1.0". */
  function VersionOf(version: Bytes): Option<Version>
  {
    Recognise(VersionNames, version)
  }

  /** The table spelt out. */
  lemma VersionOfChain(version: Bytes)
    ensures VersionOf(version) ==
            if version == "HTTP/1.1" then Some(Http11)
            else if version == "HTTP/1.0" then Some(Http10)
            else None
  {
    if version == "HTTP/1.1" { RecogniseAt(VersionNames, version, 0); }
    else if version == "HTTP/1.0" { RecogniseAt(VersionNames, version, 1); }
    else { RecogniseNone(VersionNames, version); }
  }

  /** That is the test as the source writes it: eight bytes, the first
      seven "HTTP/1.", and the last '1' or '0'. */
  lemma VersionOfIsPrefixTest(version: Bytes)
    ensures VersionOf(version) ==
            if |version| == 8 && version[..7] == "HTTP/1." then
              if version[7] == '1' then Some(Http11)
              else if version[7] == '0' then Some(Http10)
              else None
            else None
  {
    VersionOfChain(version);
    if |version| == 8 && version[..7] == "HTTP/1." {
      assert version == version[..7] + [version[7]];
    }
  }

  /** The name of a version; an unknown one has none the parser accepts. */
  function VersionName(v: Version): (r: Bytes)
    ensures v != Unknown ==> VersionOf(r) == Some(v)
    ensures v == Unknown ==> VersionOf(r) == None
  {
    match v
    case Http10 => VersionOfChain("HTTP/1.0"); "HTTP/1.0"
    case Http11 => VersionOfChain("HTTP/1.1"); "HTTP/1.1"
    case Unknown => VersionOfChain("Unknown"); "Unknown"
  }

  /** Every version accepted is one `VersionName` writes. */
  lemma VersionOfName(version: Bytes)
    requires VersionOf(version).Some?
    ensures VersionName(VersionOf(version).value) == version
  {
    VersionOfChain(version);
    assert version == version[..7] + [version[7]];
  }

  /** What follows the method: the target up to the next space, then the
      version. */
  function RequestTarget(req: Request, rest: Bytes): (Request, bool)
  {
    match FindFrom(rest, ' ', 0)
    case None => (req, false)
    case Some(sp) =>
      var req1 := SplitTarget(req, rest[..sp]);
      match VersionOf(rest[sp + 1..])
      case None => (req1, false)
      case Some(v) => (req1.(version := v), true)
  }

  /** `processRequestLine`: METHOD SP target SP version. The method is set
      first (an unknown name keeps the one the request held and fails only
      when that is invalid), then the target and the version. The request
      keeps every field set before a step fails. */
  function RequestLine(req: Request, line: Bytes): (Request, bool)
  {
    match FindFrom(line, ' ', 0)
    case None => (req, false)
    case Some(sp) =>
      var req1 := req.(httpMethod := MethodOf(line[..sp], req.httpMethod));
      if req1.httpMethod == Invalid then (req1, false)
      else RequestTarget(req1, line[sp + 1..])
  }

  /** A request line as a client writes it. */
  function RequestLineText(m: Method, target: Bytes, v: Version): Bytes
    requires v != Unknown
  {
    MethodName(m) + [' '] + (target + [' '] + VersionName(v))
  }

  /** Splitting a + [c] + rest at its first c, when a holds none. */
  lemma SplitAtFirst(a: Bytes, c: Byte, rest: Bytes)
    requires NoByte(a, c)
    ensures var s := a + [c] + rest;
            FindFrom(s, c, 0) == Some(|a|) && s[..|a|] == a && s[|a| + 1..] == rest
  {
    var s := a + [c] + rest;
    forall q | 0 <= q < |a|
      ensures s[q] != c
    {
      assert s[q] == a[q];
    }
    FindFromAt(s, c, |a|);
    assert s[..|a|] == a;
    assert s[|a| + 1..] == rest;
  }

  lemma NoByteConcat(a: Bytes, b: Bytes, c: Byte)
    requires NoByte(a, c) && NoByte(b, c)
    ensures NoByte(a + b, c)
  {
    forall q | 0 <= q < |a + b|
      ensures (a + b)[q] != c
    {
      if q >= |a| {
        assert (a + b)[q] == b[q - |a|];
      }
    }
  }

  lemma MethodNameHasNoSpace(m: Method)
    ensures NoByte(MethodName(m), ' ')
  {
  }

  /** A target written as a path without '?' and a query that is empty or
      starts with '?' splits back into them. */
  lemma SplitTargetRoundTrip(req: Request, path: Bytes, query: Bytes)
    requires NoByte(path, '?') && (query == [] || query[0] == '?')
    ensures SplitTarget(req, path + query)
            == req.(path := path, query := if query == [] then req.query else query)
  {
    var target := path + query;
    if query == [] {
      assert target == path;
    } else {
      assert query == ['?'] + query[1..];
      assert target == path + ['?'] + query[1..];
      SplitAtFirst(path, '?', query[1..]);
      assert target[|path|..] == query;
    }
  }

  lemma RequestTargetRoundTrip(req: Request, path: Bytes, query: Bytes, v: Version)
    requires v != Unknown
    requires NoByte(path, ' ') && NoByte(path, '?') && NoByte(query, ' ')
    requires query == [] || query[0] == '?'
    ensures RequestTarget(req, path + query + [' '] + VersionName(v))
            == (req.(path := path, query := if query == [] then req.query else query, version := v), true)
  {
    NoByteConcat(path, query, ' ');
    SplitAtFirst(path + query, ' ', VersionName(v));
    SplitTargetRoundTrip(req, path, query);
  }

  /** A request line written from a method, a path, a query and a version
      reads back as exactly those; with no query the request keeps its
      old one. */
  lemma RequestLineRoundTrip(req: Request, m: Method, path: Bytes, query: Bytes, v: Version)
    requires m != Invalid && v != Unknown
    requires NoByte(path, ' ') && NoByte(path, '?') && NoByte(query, ' ')
    requires query == [] || query[0] == '?'
    ensures RequestLine(req, RequestLineText(m, path + query, v))
            == (req.(httpMethod := m, path := path, query := if query == [] then req.query else query,
                     version := v), true)
  {
    MethodNameHasNoSpace(m);
    SplitAtFirst(MethodName(m), ' ', path + query + [' '] + VersionName(v));
    MethodNameRoundTrip(m, req.httpMethod);
    RequestTargetRoundTrip(req.(httpMethod := m), path, query, v);
  }

  /** The method a valid name sets is the one the name spells. */
  lemma MethodOfName(name: Bytes, current: Method)
    requires MethodOf(name, current) != current
    ensures MethodName(MethodOf(name, current)) == name
  {
    MethodOfChain(name, current);
  }

  /** `processRequestLine` over `setMethod` as written. `RequestLine` uses
      the intended method table instead. */
  function RequestLineAsWritten(req: Request, line: Bytes): (Request, bool)
  {
    match FindFrom(line, ' ', 0)
    case None => (req, false)
    case Some(sp) =>
      var req1 := req.(httpMethod := MethodOfAsWritten(line[..sp], req.httpMethod));
      if req1.httpMethod == Invalid then (req1, false)
      else RequestTarget(req1, line[sp + 1..])
  }

  /** The two request-line parsers differ only on lines that start with
      "DELETE ". Such a line is refused as written on a fresh request, and
      the intended parser sets `Delete`. */
  lemma RequestLineAsWrittenDiffersOnDelete(req: Request, line: Bytes, rest: Bytes)
    ensures RequestLineAsWritten(req, line) != RequestLine(req, line) ==>
              |line| > 6 && line[..7] == MethodName(Delete) + [' ']
    ensures req.httpMethod == Invalid ==>
              RequestLineAsWritten(req, MethodName(Delete) + [' '] + rest) == (req, false)
    ensures RequestLine(req, MethodName(Delete) + [' '] + rest).0.httpMethod == Delete
  {
    match FindFrom(line, ' ', 0) {
      case None =>
      case Some(sp) =>
        if line[..sp] != "DELETE" {
          AsWrittenAgreesElsewhere(line[..sp], req.httpMethod);
        } else {
          assert line[..7] == line[..sp] + [' '];
        }
    }
    MethodNameHasNoSpace(Delete);
    SplitAtFirst(MethodName(Delete), ' ', rest);
    DeleteNotRecognisedAsWritten();
    MethodOfChain(MethodName(Delete), req.httpMethod);
  }

  lemma AcceptedTargetShape(req: Request, rest: Bytes)
    requires RequestTarget(req, rest).1
    ensures var r := RequestTarget(req, rest).0;
            r.version != Unknown && rest == rest[..FindFrom(rest, ' ', 0).value] + [' '] + VersionName(r.version)
  {
    var sp := FindFrom(rest, ' ', 0).value;
    VersionOfName(rest[sp + 1..]);
    assert rest == rest[..sp] + [' '] + rest[sp + 1..];
  }

  /** A fresh request accepts only the lines `RequestLineText` writes, for
      the method and version it ends with. */
  lemma AcceptedRequestLineShape(req: Request, line: Bytes)
    requires req.httpMethod == Invalid && RequestLine(req, line).1
    ensures var r := RequestLine(req, line).0;
            r.httpMethod != Invalid && r.version != Unknown
            && exists target :: line == RequestLineText(r.httpMethod, target, r.version)
  {
    var sp := FindFrom(line, ' ', 0).value;
    var name, rest := line[..sp], line[sp + 1..];
    var req1 := req.(httpMethod := MethodOf(name, Invalid));
    assert RequestLine(req, line) == RequestTarget(req1, rest);
    var r := RequestTarget(req1, rest).0;
    var target := rest[..FindFrom(rest, ' ', 0).value];
    assert r.version != Unknown && rest == target + [' '] + VersionName(r.version) by {
      AcceptedTargetShape(req1, rest);
    }
    assert r.httpMethod != Invalid && name == MethodName(r.httpMethod) by {
      MethodOfName(name, Invalid);
    }
    assert line == name + [' '] + rest;
    assert line == RequestLineText(r.httpMethod, target, r.version);
  }

  /** The header lines of one `parseRequest` call: each field line is
      added to the request and consumed, the line without ':' that ends the
      headers is consumed too, and the call stops at the first incomplete
      line or at a field whose value is all spaces (the `substr` throw). */
  function ParseHeaders(req: Request, input: Bytes): (r: ParseOutcome)
    ensures r.consumed <= |input|
    ensures r.state == GotAll || r.state == ExpectHeaders
    ensures r.state == GotAll ==> r.status == Ok && r.consumed >= 2
    ensures r.status == OutOfRange ==> r.consumed < |input|
    ensures r.status != Failed
    decreases |input|, 1
  {
    match FirstCRLF(input)
    case None => ParseOutcome(Ok, ExpectHeaders, req, 0)
    case Some(i) => HeaderStep(req, input, i)
  }

  /** The header line ending at i, the first "\r\n" of the input: a
      field is added and the headers go on after the line; the line that
      ends the headers completes the request; a value of spaces only
      throws before anything is consumed. */
  function HeaderStep(req: Request, input: Bytes, i: nat): (r: ParseOutcome)
    requires FirstCRLF(input) == Some(i)
    ensures r.consumed <= |input|
    ensures r.state == GotAll || r.state == ExpectHeaders
    ensures r.state == GotAll ==> r.status == Ok && r.consumed >= 2
    ensures r.status == OutOfRange ==> r.consumed < |input|
    ensures r.status != Failed
    decreases |input|, 0
  {
    match HeaderLine(input[..i])
    case EndOfHeaders => ParseOutcome(Ok, GotAll, req, i + 2)
    case ValueOutOfRange => ParseOutcome(OutOfRange, ExpectHeaders, req, 0)
    case Field(k, v) =>
      var r := ParseHeaders(req.(headers := req.headers[k := v]), input[i + 2..]);
      r.(consumed := i + 2 + r.consumed)
  }

  /** One header line's step of `ParseHeaders`. */
  lemma ParseHeadersStep(req: Request, input: Bytes)
    requires FirstCRLF(input).Some?
    ensures var i := FirstCRLF(input).value;
            ParseHeaders(req, input) ==
              match HeaderLine(input[..i])
              case EndOfHeaders => ParseOutcome(Ok, GotAll, req, i + 2)
              case ValueOutOfRange => ParseOutcome(OutOfRange, ExpectHeaders, req, 0)
              case Field(k, v) =>
                var r := ParseHeaders(req.(headers := req.headers[k := v]), input[i + 2..]);
                r.(consumed := i + 2 + r.consumed)
  {
  }

  /** One `parseRequest` call from `state`, with `check` the answer of the
      context's header-check callback and `receiveTime` the time it is
      given. A request line is taken only when it parses and passes the
      check, and then the request gets the time and the headers follow; a
      refused line is left in the input. */
  function ParseFrom(state: ParseState, req: Request, input: Bytes, check: Request -> bool,
                     receiveTime: Timestamp): (r: ParseOutcome)
    requires state == ExpectRequestLine || state == ExpectHeaders
    ensures r.consumed <= |input|
    ensures r.state == GotAll ==> r.status == Ok && r.consumed >= 2
    ensures r.state != ExpectBody
    ensures r.status == Failed ==> r.state == ExpectRequestLine && r.consumed == 0
    ensures r.status == OutOfRange ==> r.state == ExpectHeaders
    decreases |input|, 1
  {
    if state == ExpectHeaders then ParseHeaders(req, input)
    else
      match FirstCRLF(input)
      case None => ParseOutcome(Ok, ExpectRequestLine, req, 0)
      case Some(i) => RequestLineStep(req, input, i, check, receiveTime)
  }

  /** The request line ending at i, the first "\r\n" of the input: when
      it is accepted the call goes on expecting headers after it; when it
      is refused nothing is consumed and the request keeps what the line
      set before it failed. */
  function RequestLineStep(req: Request, input: Bytes, i: nat, check: Request -> bool,
                           receiveTime: Timestamp): (r: ParseOutcome)
    requires FirstCRLF(input) == Some(i)
    ensures r.consumed <= |input|
    ensures r.state == GotAll ==> r.status == Ok && r.consumed >= 2
    ensures r.state != ExpectBody
    ensures r.status == Failed ==> r.state == ExpectRequestLine && r.consumed == 0
    ensures r.status == OutOfRange ==> r.state == ExpectHeaders
    decreases |input|, 0
  {
    match Accepted(req, input[..i], check, receiveTime)
    case Some(req2) =>
      var r := ParseFrom(ExpectHeaders, req2, input[i + 2..], check, receiveTime);
      r.(consumed := i + 2 + r.consumed)
    case None => ParseOutcome(Failed, ExpectRequestLine, RequestLine(req, input[..i]).0, 0)
  }

  /** A CRLF found in a stays the first one when more bytes follow. */
  lemma FirstCRLFExtends(a: Bytes, b: Bytes)
    requires FirstCRLF(a).Some?
    ensures FirstCRLF(a + b) == FirstCRLF(a)
  {
    var i := FirstCRLF(a).value;
    CRLFFromFirst(a, 0);
    CRLFFromFirst(a + b, 0);
    assert IsCRLFAt(a + b, i);
    var j := FirstCRLF(a + b);
    if j.Some? && j.value < i {
      assert IsCRLFAt(a, j.value);
    }
  }

  /** Slicing facts the split lemmas use. */
  lemma Slices(a: Bytes, b: Bytes, k: nat, c: nat)
    requires k + c <= |a|
    ensures a[k + c..] == a[k..][c..]
    ensures (a + b)[k..] == a[k..] + b
    ensures (a + b)[..k] == a[..k]
  {
  }

  /** A field line first in the input adds its field and the headers
      go on after it. */
  lemma HeadersFieldStep(req: Request, input: Bytes, i: nat, k: Bytes, v: Bytes)
    requires FirstCRLF(input) == Some(i) && HeaderLine(input[..i]) == Field(k, v)
    ensures var p := ParseHeaders(req.(headers := req.headers[k := v]), input[i + 2..]);
            ParseHeaders(req, input) == p.(consumed := i + 2 + p.consumed)
  {
  }

  /** A field line complete in a is read the same way when b follows. */
  lemma FieldLineExtends(req: Request, a: Bytes, b: Bytes, i: nat, k: Bytes, v: Bytes)
    requires FirstCRLF(a) == Some(i) && HeaderLine(a[..i]) == Field(k, v)
    ensures var req1 := req.(headers := req.headers[k := v]);
            var p := ParseHeaders(req1, a[i + 2..]);
            var w := ParseHeaders(req1, a[i + 2..] + b);
            && ParseHeaders(req, a) == p.(consumed := i + 2 + p.consumed)
            && ParseHeaders(req, a + b) == w.(consumed := i + 2 + w.consumed)
  {
    HeadersFieldStep(req, a, i, k, v);
    FirstCRLFExtends(a, b);
    assert (a + b)[..i] == a[..i] && (a + b)[i + 2..] == a[i + 2..] + b by {
      Slices(a, b, i, 0);
      Slices(a, b, i + 2, 0);
    }
    HeadersFieldStep(req, a + b, i, k, v);
  }

  /** Header lines fed in two pieces are read as if fed whole. */
  lemma {:induction false} HeadersSplit(req: Request, a: Bytes, b: Bytes)
    requires ParseHeaders(req, a).status == Ok && ParseHeaders(req, a).state != GotAll
    ensures var p := ParseHeaders(req, a);
            var q := ParseHeaders(p.request, a[p.consumed..] + b);
            q.(consumed := p.consumed + q.consumed) == ParseHeaders(req, a + b)
    decreases |a|
  {
    var crlf := FirstCRLF(a);
    if crlf.None? {
      assert a[0..] == a;
    } else {
      var i := crlf.value;
      ParseHeadersStep(req, a);
      var line := HeaderLine(a[..i]);
      assert line.Field?;
      FieldLineExtends(req, a, b, i, line.name, line.value);
      var req1 := req.(headers := req.headers[line.name := line.value]);
      var tail := a[i + 2..];
      var p1 := ParseHeaders(req1, tail);
      HeadersSplit(req1, tail, b);
      var p := ParseHeaders(req, a);
      assert p.request == p1.request && p.consumed == i + 2 + p1.consumed;
      assert a[p.consumed..] == tail[p1.consumed..] by {
        Slices(a, b, i + 2, p1.consumed);
      }
      var q := ParseHeaders(p.request, a[p.consumed..] + b);
      assert q == ParseHeaders(p1.request, tail[p1.consumed..] + b);
    }
  }

  /** The request a call accepts from the request line `line`. */
  function Accepted(req: Request, line: Bytes, check: Request -> bool, t: Timestamp): Option<Request>
  {
    var (req1, good) := RequestLine(req, line);
    if good && check(req1) then Some(req1.(receiveTime := t)) else None
  }

  /** A call from a request line that takes the line goes on with the
      headers after it. */
  lemma RequestLineTaken(req: Request, input: Bytes, check: Request -> bool, t: Timestamp)
    requires FirstCRLF(input).Some?
    requires Accepted(req, input[..FirstCRLF(input).value], check, t).Some?
    ensures var i := FirstCRLF(input).value;
            var p := ParseHeaders(Accepted(req, input[..i], check, t).value, input[i + 2..]);
            ParseFrom(ExpectRequestLine, req, input, check, t) == p.(consumed := i + 2 + p.consumed)
  {
    var i := FirstCRLF(input).value;
    var req2 := Accepted(req, input[..i], check, t).value;
    assert ParseFrom(ExpectRequestLine, req, input, check, t) == RequestLineStep(req, input, i, check, t);
    assert ParseFrom(ExpectHeaders, req2, input[i + 2..], check, t) == ParseHeaders(req2, input[i + 2..]);
  }

  /** A call from a request line that ends well without reaching the end
      of the headers took the line, if it found one. */
  lemma RequestLineTakenIfOk(req: Request, input: Bytes, check: Request -> bool, t: Timestamp)
    requires FirstCRLF(input).Some?
    requires ParseFrom(ExpectRequestLine, req, input, check, t).status == Ok
    ensures Accepted(req, input[..FirstCRLF(input).value], check, t).Some?
  {
  }

  /** Feeding the input in two pieces gives what feeding it whole gives,
      from a request line: when a call on `a` takes the request line and
      then stops for want of a complete header line, a second call on its
      leftover followed by `b` ends exactly as one call on `a + b`. */
  lemma RequestLineSplit(req: Request, a: Bytes, b: Bytes, check: Request -> bool, t: Timestamp)
    requires FirstCRLF(a).Some?
    requires ParseFrom(ExpectRequestLine, req, a, check, t).status == Ok
    requires ParseFrom(ExpectRequestLine, req, a, check, t).state != GotAll
    ensures var p := ParseFrom(ExpectRequestLine, req, a, check, t);
            && p.state == ExpectHeaders
            && var q := ParseHeaders(p.request, a[p.consumed..] + b);
               q.(consumed := p.consumed + q.consumed) == ParseFrom(ExpectRequestLine, req, a + b, check, t)
  {
    var i := FirstCRLF(a).value;
    var tail := a[i + 2..];
    FirstCRLFExtends(a, b);
    Slices(a, b, i, 0);
    RequestLineTakenIfOk(req, a, check, t);
    var req2 := Accepted(req, a[..i], check, t).value;
    RequestLineTaken(req, a, check, t);
    var p1 := ParseHeaders(req2, tail);
    var p := p1.(consumed := i + 2 + p1.consumed);
    assert ParseFrom(ExpectRequestLine, req, a, check, t) == p;
    RequestLineTaken(req, a + b, check, t);
    Slices(a, b, i + 2, p1.consumed);
    var w := ParseHeaders(req2, tail + b);
    assert ParseFrom(ExpectRequestLine, req, a + b, check, t) == w.(consumed := i + 2 + w.consumed);
    HeadersSplit(req2, tail, b);
    assert a[p.consumed..] == tail[p1.consumed..];
  }

  /** The header lines change nothing in the request but its fields. */
  lemma {:induction false} ParseHeadersKeeps(req: Request, input: Bytes)
    ensures var r := ParseHeaders(req, input).request;
            r == req.(headers := r.headers)
    decreases |input|
  {
    if FirstCRLF(input).Some? {
      var i := FirstCRLF(input).value;
      ParseHeadersStep(req, input);
      match HeaderLine(input[..i])
      case Field(k, v) =>
        ParseHeadersKeeps(req.(headers := req.headers[k := v]), input[i + 2..]);
      case EndOfHeaders =>
      case ValueOutOfRange =>
    }
  }

  /** Headers that end in a are read the same way whatever follows. */
  lemma {:induction false} HeadersCompleteExtends(req: Request, a: Bytes, b: Bytes)
    requires ParseHeaders(req, a).state == GotAll
    ensures ParseHeaders(req, a + b) == ParseHeaders(req, a)
    decreases |a|
  {
    var i := FirstCRLF(a).value;
    ParseHeadersStep(req, a);
    var line := HeaderLine(a[..i]);
    if line.Field? {
      FieldLineExtends(req, a, b, i, line.name, line.value);
      HeadersCompleteExtends(req.(headers := req.headers[line.name := line.value]), a[i + 2..], b);
    } else {
      FirstCRLFExtends(a, b);
      Slices(a, b, i, 0);
      ParseHeadersStep(req, a + b);
    }
  }

  /** A call that completes a request in a ends the same way whatever
      follows: the bytes after the request are left for the next one. */
  lemma RequestCompleteExtends(state: ParseState, req: Request, a: Bytes, b: Bytes, check: Request -> bool, t: Timestamp)
    requires state == ExpectRequestLine || state == ExpectHeaders
    requires ParseFrom(state, req, a, check, t).state == GotAll
    ensures ParseFrom(state, req, a + b, check, t) == ParseFrom(state, req, a, check, t)
  {
    if state == ExpectHeaders {
      HeadersCompleteExtends(req, a, b);
    } else {
      var i := FirstCRLF(a).value;
      FirstCRLFExtends(a, b);
      Slices(a, b, i, 0);
      Slices(a, b, i + 2, 0);
      var req2 := Accepted(req, a[..i], check, t).value;
      RequestLineTaken(req, a, check, t);
      RequestLineTaken(req, a + b, check, t);
      HeadersCompleteExtends(req2, a[i + 2..], b);
    }
  }

  /** A request completed from its request line has the method, target and
      version of an accepted line: the header lines only add fields. */
  lemma CompletedWasAccepted(req: Request, input: Bytes, check: Request -> bool, t: Timestamp)
    requires ParseFrom(ExpectRequestLine, req, input, check, t).state == GotAll
    ensures FirstCRLF(input).Some?
    ensures var i := FirstCRLF(input).value;
            var r := ParseFrom(ExpectRequestLine, req, input, check, t).request;
            && Accepted(req, input[..i], check, t).Some?
            && Accepted(req, input[..i], check, t).value == r.(headers := Accepted(req, input[..i], check, t).value.headers)
  {
    var i := FirstCRLF(input).value;
    var req2 := Accepted(req, input[..i], check, t).value;
    RequestLineTaken(req, input, check, t);
    ParseHeadersKeeps(req2, input[i + 2..]);
  }

  /** Drops the first n readable bytes of buf. */
  method Consume(buf: Buffer, n: nat)
    requires buf.Valid() && n <= |buf.State().Readable()|
    modifies buf
    ensures buf.Valid() && buf.State().Readable() == old(buf.State().Readable())[n..]
  {
    buf.Retrieve(n);
  }

  class HttpContext {
    var state: ParseState
    const request: HttpRequest

    /** A new context expects a request line and holds a fresh request. */
    constructor()
      ensures state == ExpectRequestLine && request.Value() == FreshRequest && fresh(request)
    {
      state := ExpectRequestLine;
      request := new HttpRequest();
    }

    function GotAll(): (r: bool)
      reads this
      ensures r <==> state == ParseState.GotAll
    {
      state == ParseState.GotAll
    }

    /** `reset`: back to expecting a request line, with a fresh request. */
    method Reset()
      modifies this`state, request
      ensures state == ExpectRequestLine && request.Value() == FreshRequest
    {
      state := ExpectRequestLine;
      var dummy := new HttpRequest();
      request.Swap(dummy);
    }

    /** `processRequestLine`, setting the request's fields as it goes. */
    method ProcessRequestLine(sv: Bytes) returns (succeed: bool)
      modifies request
      ensures (request.Value(), succeed) == RequestLine(old(request.Value()), sv)
    {
      succeed := false;
      var space := FindFrom(sv, ' ', 0);
      if space.None? {
        return;
      }
      var known := request.SetMethod(sv[..space.value]);
      if known {
        succeed := ProcessTarget(sv[space.value + 1..]);
      }
    }

    /** The rest of `processRequestLine`, after the method: the target up
        to the next space, then the version. */
    method ProcessTarget(rest: Bytes) returns (succeed: bool)
      modifies request
      ensures (request.Value(), succeed) == RequestTarget(old(request.Value()), rest)
    {
      succeed := false;
      var space := FindFrom(rest, ' ', 0);
      if space.Some? {
        var pathQuery := rest[..space.value];
        var questionMark := FindFrom(pathQuery, '?', 0);
        if questionMark.Some? {
          request.SetPath(pathQuery[..questionMark.value]);
          request.SetQuery(pathQuery[questionMark.value..]);
        } else {
          request.SetPath(pathQuery);
        }
        var version := rest[space.value + 1..];
        VersionOfIsPrefixTest(version);
        if |version| == 8 && version[..7] == "HTTP/1." {
          succeed := true;
          if version[7] == '1' {
            request.SetVersion(Http11);
          } else if version[7] == '0' {
            request.SetVersion(Http10);
          } else {
            succeed := false;
          }
        }
      }
    }

    /** One header line of `parseRequest`, the line ending at the first
        "\r\n" of the buffer, at i: a field is added and consumed; the line
        that ends the headers is consumed and the request is complete; a
        value of spaces only throws, leaving the line in the buffer. */
    method TakeHeaderLine(buf: Buffer, i: nat) returns (status: ParseStatus, more: bool)
      requires buf.Valid() && FirstCRLF(buf.State().Readable()) == Some(i)
      modifies this`state, request, buf
      ensures buf.Valid()
      ensures var input := old(buf.State().Readable());
              var req := old(request.Value());
              match HeaderLine(input[..i])
              case Field(k, v) =>
                && status == Ok && more && state == old(state)
                && request.Value() == req.(headers := req.headers[k := v])
                && buf.State().Readable() == input[i + 2..]
              case EndOfHeaders =>
                && status == Ok && !more && state == ParseState.GotAll
                && request.Value() == req && buf.State().Readable() == input[i + 2..]
              case ValueOutOfRange =>
                && status == OutOfRange && !more && state == old(state)
                && request.Value() == req && buf.State().Readable() == input
    {
      var sv := buf.State().Readable()[..i];
      ghost var kind := HeaderLine(sv);
      status := Ok;
      more := true;
      var colon := FindFrom(sv, ':', 0);
      if colon.Some? {
        var valueBegin := FirstNotSpace(sv, colon.value + 1);
        if valueBegin.None? {
          assert kind == ValueOutOfRange;
          status := OutOfRange;
          more := false;
          return;
        }
        var valueEnd := LastNotSpace(sv);
        ValueEndIsLastNotSpace(sv, valueBegin.value);
        var name, value := sv[..colon.value], sv[valueBegin.value..valueEnd.value + 1];
        assert kind == Field(name, value);
        request.AddHeader(name, value);
      } else {
        assert kind == EndOfHeaders;
        state := ParseState.GotAll;
        more := false;
      }
      Consume(buf, i + 2);
    }

    /** The request line of `parseRequest`, ending at the first "\r\n" of
        the buffer, at i: it is consumed, the request gets the time and
        the headers come next only when it parses and passes the check. */
    method TakeRequestLine(buf: Buffer, i: nat, receiveTime: Timestamp, check: Request -> bool) returns (taken: bool)
      requires buf.Valid() && FirstCRLF(buf.State().Readable()) == Some(i)
      modifies this`state, request, buf
      ensures buf.Valid()
      ensures var input := old(buf.State().Readable());
              var accepted := Accepted(old(request.Value()), input[..i], check, receiveTime);
              && (taken <==> accepted.Some?)
              && (accepted.Some? ==> && request.Value() == accepted.value && state == ExpectHeaders
                                     && buf.State().Readable() == input[i + 2..])
              && (accepted.None? ==> && request.Value() == RequestLine(old(request.Value()), input[..i]).0
                                     && state == old(state) && buf.State().Readable() == input)
    {
      var sv := buf.State().Readable()[..i];
      var good := ProcessRequestLine(sv);
      taken := good && check(request.Value());
      if taken {
        request.SetReceiveTime(receiveTime);
        Consume(buf, i + 2);
        state := ExpectHeaders;
      }
    }

    /** One round of the header loop of `parseRequest`: with no complete
        line in buf nothing happens and the loop ends; otherwise the line is
        taken as `TakeHeaderLine` says. Whatever `ParseHeaders` makes of the
        buffer is what it makes of the `used` bytes taken here followed by
        the rest, when the loop goes on, or exactly this round's outcome,
        when it stops. */
    method NextHeaderLine(buf: Buffer) returns (status: ParseStatus, more: bool, ghost used: nat)
      requires buf.Valid() && state == ExpectHeaders
      modifies this`state, request, buf
      ensures buf.Valid()
      ensures var input := old(buf.State().Readable());
              && used <= |input| && buf.State().Readable() == input[used..]
              && var p := ParseHeaders(old(request.Value()), input);
                 && (more ==> && status == Ok && state == ExpectHeaders && used > 0
                              && var q := ParseHeaders(request.Value(), buf.State().Readable());
                                 p == q.(consumed := used + q.consumed))
                 && (!more ==> p == ParseOutcome(status, state, request.Value(), used))
    {
      ghost var input := buf.State().Readable();
      ghost var req := request.Value();
      var crlf := FirstCRLF(buf.State().Readable());
      if crlf.None? {
        status, more, used := Ok, false, 0;
        assert input[0..] == input;
        return;
      }
      ParseHeadersStep(req, input);
      status, more := TakeHeaderLine(buf, crlf.value);
      used := if status == Ok then crlf.value + 2 else 0;
      assert input[0..] == input;
    }

    /** The header lines of `parseRequest`: consumes complete header lines
        from buf until the one that ends the headers, an incomplete line or
        a value that throws, and ends as `ParseHeaders` says. */
    method ParseHeaderLines(buf: Buffer) returns (status: ParseStatus)
      requires buf.Valid() && state == ExpectHeaders
      modifies this`state, request, buf
      ensures buf.Valid()
      ensures var r := ParseHeaders(old(request.Value()), old(buf.State().Readable()));
              status == r.status && state == r.state && request.Value() == r.request
              && buf.State().Readable() == old(buf.State().Readable())[r.consumed..]
    {
      ghost var input0 := buf.State().Readable();
      ghost var goal := ParseHeaders(request.Value(), input0);
      ghost var done: nat := 0;
      status := Ok;
      var hasMore := true;
      while hasMore
        invariant buf.Valid() && done <= |input0| && buf.State().Readable() == input0[done..]
        invariant hasMore ==> state == ExpectHeaders
        invariant hasMore ==> var q := ParseHeaders(request.Value(), buf.State().Readable());
                              q.(consumed := done + q.consumed) == goal
        invariant !hasMore ==> goal == ParseOutcome(status, state, request.Value(), done)
        decreases |input0| - done, hasMore
      {
        ghost var used;
        status, hasMore, used := NextHeaderLine(buf);
        Slices(input0, [], done, used);
        done := done + used;
      }
    }

    /** `parseRequest` from a context expecting a request line, whose end
        is the first "\r\n" of the buffer, at i: the line is taken as
        `TakeRequestLine` says, and when it is the header lines after it
        are read as `ParseHeaderLines` says. */
    method ParseFromRequestLine(buf: Buffer, i: nat, receiveTime: Timestamp, check: Request -> bool)
      returns (status: ParseStatus)
      requires buf.Valid() && state == ExpectRequestLine && FirstCRLF(buf.State().Readable()) == Some(i)
      modifies this`state, request, buf
      ensures buf.Valid()
      ensures var r := RequestLineStep(old(request.Value()), old(buf.State().Readable()), i, check, receiveTime);
              status == r.status && state == r.state && request.Value() == r.request
              && buf.State().Readable() == old(buf.State().Readable())[r.consumed..]
    {
      ghost var input0 := buf.State().Readable();
      ghost var req0 := request.Value();
      var taken := TakeRequestLine(buf, i, receiveTime, check);
      if !taken {
        status := Failed;
        assert input0[0..] == input0;
        return;
      }
      ghost var req2 := request.Value();
      ghost var h := ParseHeaders(req2, input0[i + 2..]);
      assert ParseFrom(ExpectHeaders, req2, input0[i + 2..], check, receiveTime) == h;
      status := ParseHeaderLines(buf);
      Slices(input0, [], i + 2, h.consumed);
    }

    /** `parseRequest`: requires a context expecting a request line or
        headers, since from any other state the source loops for ever.
        The source's loop meets the request line at most once, first;
        here that case is taken before the loop over the header lines.
        Consumes complete lines from buf and ends as `ParseFrom` says. */
    method ParseRequest(buf: Buffer, receiveTime: Timestamp, check: Request -> bool) returns (status: ParseStatus)
      requires buf.Valid() && (state == ExpectRequestLine || state == ExpectHeaders)
      modifies this`state, request, buf
      ensures buf.Valid()
      ensures var r := ParseFrom(old(state), old(request.Value()), old(buf.State().Readable()), check, receiveTime);
              status == r.status && state == r.state && request.Value() == r.request
              && buf.State().Readable() == old(buf.State().Readable())[r.consumed..]
    {
      if state == ExpectHeaders {
        status := ParseHeaderLines(buf);
        return;
      }
      var crlf := FirstCRLF(buf.State().Readable());
      if crlf.None? {
        status := Ok;
        assert buf.State().Readable()[0..] == buf.State().Readable();
      } else {
        status := ParseFromRequestLine(buf, crlf.value, receiveTime, check);
      }
    }
  }
}
