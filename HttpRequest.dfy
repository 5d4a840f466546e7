/** An HTTP request as the parser fills it in: method, version, the target
    split into path and query, the time the request line arrived, and the
    header fields. */
module HttpRequests {
  import opened ByteOrder
  import opened Timestamps
  import opened Wrappers

  /** A C++ `std::string`: bytes. */
  type Bytes = seq<Byte>

  datatype Method = Invalid | Get | Post | Head | Put | Delete
  datatype Version = Unknown | Http10 | Http11

  /** The value of an `HttpRequest` object. */
  datatype Request = Request(httpMethod: Method, version: Version, path: Bytes, query: Bytes,
                             receiveTime: Timestamp, headers: map<Bytes, Bytes>)

  /** A default-constructed request. */
  const FreshRequest: Request := Request(Invalid, Unknown, [], [], Timestamps.Invalid, map[])

  /** The value a chain of name tests picks: the first entry of `table`
      whose name is `name`, if any. */
  function Recognise<T>(table: seq<(Bytes, T)>, name: Bytes): Option<T>
  {
    if table == [] then None
    else if table[0].0 == name then Some(table[0].1)
    else Recognise(table[1..], name)
  }

  /** The entry at k is picked when no earlier entry has its name. */
  lemma {:induction false} RecogniseAt<T>(table: seq<(Bytes, T)>, name: Bytes, k: nat)
    requires k < |table| && table[k].0 == name
    requires forall j | 0 <= j < k :: table[j].0 != name
    ensures Recognise(table, name) == Some(table[k].1)
  {
    if k > 0 {
      RecogniseAt(table[1..], name, k - 1);
    }
  }

  /** No entry has the name, so nothing is picked. */
  lemma {:induction false} RecogniseNone<T>(table: seq<(Bytes, T)>, name: Bytes)
    requires forall j | 0 <= j < |table| :: table[j].0 != name
    ensures Recognise(table, name) == None
  {
    if table != [] {
      RecogniseNone(table[1..], name);
    }
  }

  /** The names `setMethod` tests, in its order, as written: the fifth test
      repeats "HEAD" where "DELETE" belongs. */
  const MethodNamesAsWritten: seq<(Bytes, Method)> :=
    [("GET", Get), ("POST", Post), ("HEAD", Head), ("PUT", Put), ("HEAD", Head)]

  /** The names as intended: one per method the enumeration declares. */
  const MethodNames: seq<(Bytes, Method)> :=
    [("GET", Get), ("POST", Post), ("HEAD", Head), ("PUT", Put), ("DELETE", Delete)]

  /** `setMethod` as written: the method is replaced only by a name the
      chain of tests recognises, so "DELETE" leaves it as it was. */
  function MethodOfAsWritten(name: Bytes, current: Method): Method
  {
    match Recognise(MethodNamesAsWritten, name)
    case Some(m) => m
    case None => current
  }

  /** `setMethod` as intended: every method the enumeration declares is
      recognised by its name; other names leave the httpMethod as it was. */
  function MethodOf(name: Bytes, current: Method): Method
  {
    match Recognise(MethodNames, name)
    case Some(m) => m
    case None => current
  }

  /** The intended table spelt out as the chain of tests it stands for. */
  lemma MethodOfChain(name: Bytes, current: Method)
    ensures MethodOf(name, current) ==
            if name == "GET" then Get
            else if name == "POST" then Post
            else if name == "HEAD" then Head
            else if name == "PUT" then Put
            else if name == "DELETE" then Delete
            else current
  {
    var t := MethodNames;
    if name == "GET" { RecogniseAt(t, name, 0); }
    else if name == "POST" { RecogniseAt(t, name, 1); }
    else if name == "HEAD" { RecogniseAt(t, name, 2); }
    else if name == "PUT" { RecogniseAt(t, name, 3); }
    else if name == "DELETE" { RecogniseAt(t, name, 4); }
    else { RecogniseNone(t, name); }
  }

  /** `methodString`. */
  function MethodName(m: Method): (r: Bytes)
    ensures m == Invalid <==> r == "UNKNOWN"
  {
    match m
    case Get => "GET"
    case Post => "POST"
    case Head => "HEAD"
    case Put => "PUT"
    case Delete => "DELETE"
    case Invalid => "UNKNOWN"
  }

  /** Naming a method and reading the name back gives the method, for
      every method and whatever the request held before; an unknown name
      keeps what it held. */
  lemma MethodNameRoundTrip(m: Method, current: Method)
    ensures m != Invalid ==> MethodOf(MethodName(m), current) == m
    ensures MethodOf(MethodName(Invalid), current) == current
    ensures forall n: Method :: MethodName(n) == MethodName(m) ==> n == m
  {
    MethodOfChain(MethodName(m), current);
    MethodOfChain(MethodName(Invalid), current);
  }

  /** As written, "DELETE" is never recognised: the round trip above fails
      for `Delete`, and a fresh request stays invalid. */
  lemma DeleteNotRecognisedAsWritten()
    ensures MethodName(Delete) == "DELETE"
    ensures MethodOfAsWritten(MethodName(Delete), Invalid) == Invalid
    ensures MethodOf(MethodName(Delete), Invalid) == Delete
  {
    RecogniseNone(MethodNamesAsWritten, "DELETE");
    MethodOfChain("DELETE", Invalid);
  }

  /** The two agree on every other name. */
  lemma AsWrittenAgreesElsewhere(name: Bytes, current: Method)
    requires name != "DELETE"
    ensures MethodOfAsWritten(name, current) == MethodOf(name, current)
  {
    var w, t := MethodNamesAsWritten, MethodNames;
    if name == "GET" { RecogniseAt(w, name, 0); RecogniseAt(t, name, 0); }
    else if name == "POST" { RecogniseAt(w, name, 1); RecogniseAt(t, name, 1); }
    else if name == "HEAD" { RecogniseAt(w, name, 2); RecogniseAt(t, name, 2); }
    else if name == "PUT" { RecogniseAt(w, name, 3); RecogniseAt(t, name, 3); }
    else { RecogniseNone(w, name); RecogniseNone(t, name); }
  }

  class HttpRequest {
    var httpMethod: Method
    var version: Version
    var path: Bytes
    var query: Bytes
    var receiveTime: Timestamp
    var headers: map<Bytes, Bytes>

    function Value(): Request
      reads this
    {
      Request(httpMethod, version, path, query, receiveTime, headers)
    }

    /** A new request has an invalid method and an unknown version. */
    constructor()
      ensures Value() == FreshRequest
      ensures httpMethod == Invalid && version == Unknown
    {
      httpMethod := Invalid;
      version := Unknown;
      path := [];
      query := [];
      receiveTime := Timestamps.Invalid;
      headers := map[];
    }

    method SetVersion(v: Version)
      modifies this`version
      ensures Value() == old(Value()).(version := v)
    {
      version := v;
    }

    /** `setMethod`, recognising "DELETE" as the enumeration intends: the
        method becomes the one named, or stays as it was for an unknown
        name; the answer is whether the request now has a valid method. */
    method SetMethod(name: Bytes) returns (ok: bool)
      modifies this`httpMethod
      ensures Value() == old(Value()).(httpMethod := MethodOf(name, old(httpMethod)))
      ensures ok <==> httpMethod != Invalid
      ensures ok && old(httpMethod) == Invalid ==> MethodName(httpMethod) == name
    {
      MethodOfChain(name, httpMethod);
      if name == "GET" {
        httpMethod := Get;
      } else if name == "POST" {
        httpMethod := Post;
      } else if name == "HEAD" {
        httpMethod := Head;
      } else if name == "PUT" {
        httpMethod := Put;
      } else if name == "DELETE" {
        httpMethod := Delete;
      }
      ok := httpMethod != Invalid;
    }

    function MethodString(): (r: Bytes)
      reads this
      ensures httpMethod != Invalid ==> MethodOf(r, Invalid) == httpMethod
      ensures httpMethod == Invalid ==> r == "UNKNOWN"
    {
      MethodNameRoundTrip(httpMethod, Invalid);
      MethodName(httpMethod)
    }

    method SetPath(p: Bytes)
      modifies this`path
      ensures Value() == old(Value()).(path := p)
    {
      path := p;
    }

    method SetQuery(q: Bytes)
      modifies this`query
      ensures Value() == old(Value()).(query := q)
    {
      query := q;
    }

    method SetReceiveTime(t: Timestamp)
      modifies this`receiveTime
      ensures Value() == old(Value()).(receiveTime := t)
    {
      receiveTime := t;
    }

    /** `addHeader`: the value replaces any earlier value of the field. */
    method AddHeader(key: Bytes, value: Bytes)
      modifies this`headers
      ensures Value() == old(Value()).(headers := old(headers)[key := value])
      ensures GetHeader(key) == value
      ensures forall k | k != key :: GetHeader(k) == old(GetHeader(k))
    {
      headers := headers[key := value];
    }

    /** `getHeader`: the field's value, or the empty string when the
        request has no such field. */
    function GetHeader(key: Bytes): (r: Bytes)
      reads this
      ensures key in headers ==> r == headers[key]
      ensures key !in headers ==> r == []
    {
      if key in headers then headers[key] else []
    }

    /** `swap`: the two requests exchange every field. */
    method Swap(rhs: HttpRequest)
      modifies this, rhs
      ensures Value() == old(rhs.Value()) && rhs.Value() == old(Value())
    {
      httpMethod, rhs.httpMethod := rhs.httpMethod, httpMethod;
      version, rhs.version := rhs.version, version;
      path, rhs.path := rhs.path, path;
      query, rhs.query := rhs.query, query;
      receiveTime, rhs.receiveTime := rhs.receiveTime, receiveTime;
      headers, rhs.headers := rhs.headers, headers;
    }
  }
}
