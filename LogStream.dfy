/** The stream log records are written into: `operator<<` overloads that
    append text to a 4000-byte `FixedBuffer`, truncating what does not fit.
    Integer, pointer and floating-point formatting are not part of this
    model. */
module LogStreams {
  import opened ByteOrder
  import opened Wrappers
  import opened FixedBuffers

  /** The text `strlen` sees: the bytes before the first NUL. */
  function CStringPrefix(s: seq<Byte>): (r: seq<Byte>)
    ensures |r| <= |s| && r == s[..|r|]
    ensures forall i :: 0 <= i < |r| ==> r[i] != '\0'
    ensures |r| < |s| ==> s[|r|] == '\0'
  {
    if |s| == 0 || s[0] == '\0' then [] else [s[0]] + CStringPrefix(s[1..])
  }

  /** A string without NUL is its own C string. */
  lemma CStringPrefixOfNulFree(s: seq<Byte>)
    requires forall i | 0 <= i < |s| :: s[i] != '\0'
    ensures CStringPrefix(s) == s
  {
  }

  /** Reading a C string twice reads the same text. */
  lemma CStringPrefixIdempotent(s: seq<Byte>)
    ensures CStringPrefix(CStringPrefix(s)) == CStringPrefix(s)
  {
    CStringPrefixOfNulFree(CStringPrefix(s));
  }

  /** A NUL-free text followed by NUL and anything reads as that text. */
  lemma {:induction false} CStringPrefixStopsAtNul(t: seq<Byte>, rest: seq<Byte>)
    requires forall i | 0 <= i < |t| :: t[i] != '\0'
    ensures CStringPrefix(t + ['\0'] + rest) == t
  {
    if t != [] {
      assert (t + ['\0'] + rest)[1..] == t[1..] + ['\0'] + rest;
      CStringPrefixStopsAtNul(t[1..], rest);
    }
  }

  /** What `<< bool` writes. */
  function BoolText(v: bool): (t: seq<Byte>)
    ensures |t| == if v then 4 else 5
  {
    if v then "true" else "false"
  }

  /** What `<< const char*` writes: the string, or "(NULL)" for a null
      pointer (None). */
  function CStringText(str: Option<seq<Byte>>): (t: seq<Byte>)
    ensures str.None? ==> t == "(NULL)"
    ensures str.Some? ==> t == CStringPrefix(str.value)
  {
    match str
    case None => "(NULL)"
    case Some(s) => CStringPrefix(s)
  }

  class LogStream {
    const buffer: FixedBuffer

    ghost predicate Valid()
      reads this, buffer
    {
      buffer.Valid() && buffer.capacity == SmallBuffer
    }

    function Contents(): seq<Byte>
      reads this, buffer, buffer.data
      requires Valid()
    {
      buffer.Contents()
    }

    constructor()
      ensures Valid() && fresh(buffer) && fresh(buffer.data) && Contents() == []
    {
      buffer := new FixedBuffer(SmallBuffer);
    }

    method AppendBool(v: bool)
      requires Valid()
      modifies buffer, buffer.data
      ensures Valid() && Contents() == AppendTruncated(old(Contents()), BoolText(v), SmallBuffer)
    {
      if v {
        buffer.Append("true");
      } else {
        buffer.Append("false");
      }
    }

    method AppendChar(c: Byte)
      requires Valid()
      modifies buffer, buffer.data
      ensures Valid() && Contents() == AppendTruncated(old(Contents()), [c], SmallBuffer)
    {
      buffer.Append([c]);
    }

    /** `<< const char*` (and `<< const unsigned char*`). */
    method AppendCString(str: Option<seq<Byte>>)
      requires Valid()
      modifies buffer, buffer.data
      ensures Valid() && Contents() == AppendTruncated(old(Contents()), CStringText(str), SmallBuffer)
    {
      match str
      case Some(s) =>
        buffer.Append(CStringPrefix(s));
      case None =>
        buffer.Append("(NULL)");
    }

    /** `<< std::string`, `<< string_view` and `append(data, len)`: the bytes
        verbatim, embedded NULs included. */
    method AppendString(s: seq<Byte>)
      requires Valid()
      modifies buffer, buffer.data
      ensures Valid() && Contents() == AppendTruncated(old(Contents()), s, SmallBuffer)
    {
      buffer.Append(s);
    }

    /** `<< Buffer`: the other buffer's contents. */
    method AppendBuffer(other: FixedBuffer)
      requires Valid() && other.Valid()
      modifies buffer, buffer.data
      ensures Valid() && Contents() == AppendTruncated(old(Contents()), old(other.Contents()), SmallBuffer)
    {
      var text := other.Contents();
      buffer.Append(text);
    }

    method ResetBuffer()
      requires Valid()
      modifies buffer
      ensures Valid() && Contents() == []
    {
      buffer.Reset();
    }
  }

  /** `os << true; os << '\n' << false;` gives "true\nfalse". */
  lemma BooleansScenario()
    ensures AppendTruncated(AppendTruncated(AppendTruncated([], BoolText(true), SmallBuffer),
                                            ['\n'], SmallBuffer),
                            BoolText(false), SmallBuffer) == "true\nfalse"
  {
    AppendTruncatedFits([], "true", SmallBuffer);
    AppendTruncatedFits("true", "\n", SmallBuffer);
    AppendTruncatedFits("true\n", "false", SmallBuffer);
  }

  /** A stream never holds more than 4000 bytes, and pieces that fit are
      kept whole and in order. */
  lemma StreamBounded(contents: seq<Byte>, pieces: seq<seq<Byte>>)
    requires |contents| <= SmallBuffer
    ensures |AppendAll(contents, pieces)| <= SmallBuffer
    ensures |contents| + |Flatten(pieces)| <= SmallBuffer ==> AppendAll(contents, pieces) == contents + Flatten(pieces)
  {
    AppendAllIsTruncatedConcat(contents, pieces);
  }

  function Flatten(pieces: seq<seq<Byte>>): seq<Byte>
  {
    if |pieces| == 0 then [] else pieces[0] + Flatten(pieces[1..])
  }

  /** The stream contents after appending each piece in turn. */
  function AppendAll(contents: seq<Byte>, pieces: seq<seq<Byte>>): (r: seq<Byte>)
    requires |contents| <= SmallBuffer
    ensures |r| <= SmallBuffer
    decreases |pieces|
  {
    if |pieces| == 0 then contents
    else AppendAll(AppendTruncated(contents, pieces[0], SmallBuffer), pieces[1..])
  }

  lemma {:induction false} AppendAllIsTruncatedConcat(contents: seq<Byte>, pieces: seq<seq<Byte>>)
    requires |contents| <= SmallBuffer
    ensures AppendAll(contents, pieces) == AppendTruncated(contents, Flatten(pieces), SmallBuffer)
    decreases |pieces|
  {
    if |pieces| > 0 {
      var next := AppendTruncated(contents, pieces[0], SmallBuffer);
      AppendAllIsTruncatedConcat(next, pieces[1..]);
      AppendTruncatedConcat(contents, pieces[0], Flatten(pieces[1..]), SmallBuffer);
    } else {
      assert AppendTruncated(contents, [], SmallBuffer) == contents;
    }
  }
}
