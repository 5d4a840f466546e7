/** The network I/O buffer: a growable byte vector with a read cursor, a
    write cursor and a cheap prepend area in front of the readable bytes.

      | prependable | readable | writable |
      0          reader     writer      size

    `BufferState` is the value of a buffer and the functions over it are the
    specification of each operation; class `Buffer` updates the vector and
    the two cursors in place and is proved against those functions. */
module NetBuffer {
  import opened ByteOrder
  import opened Wrappers

  const CheapPrepend: nat := 8
  const InitialSize: nat := 1024
  /** Size of the stack buffer `readFd` reads the overflow into. */
  const ExtraBufSize: nat := 65536
  /** 2^64: `size_t` arithmetic wraps modulo this. */
  const SizeTModulus: nat := 0x1_0000_0000_0000_0000

  function Zeros(n: nat): (s: seq<Byte>)
    ensures |s| == n
    ensures forall i :: 0 <= i < n ==> s[i] == '\0'
  {
    if n == 0 then [] else Zeros(n - 1) + ['\0']
  }

  /** `std::vector<char>::resize`: truncates, or extends with zero bytes. */
  function Resize(s: seq<Byte>, n: nat): (r: seq<Byte>)
    ensures |r| == n
    ensures forall i :: 0 <= i < n && i < |s| ==> r[i] == s[i]
  {
    if n <= |s| then s[..n] else s + Zeros(n - |s|)
  }

  /** The integer widths the buffer reads and writes: int8/16/32/64_t. */
  predicate IsIntWidth(n: nat)
  {
    n == 1 || n == 2 || n == 4 || n == 8
  }

  /** What `readv` returned: an error, or the bytes it scattered. */
  datatype ReadvResult = ReadvError(errno: int) | ReadvData(data: seq<Byte>)

  datatype BufferState = BufferState(bytes: seq<Byte>, reader: nat, writer: nat)
  {
    /** The cursors stay inside the vector, which always keeps room for
        the cheap prepend area. */
    predicate Valid()
    {
      reader <= writer <= |bytes| && CheapPrepend <= |bytes|
    }

    function Readable(): seq<Byte>
      requires Valid()
    {
      bytes[reader..writer]
    }

    function ReadableBytes(): nat
      requires Valid()
    {
      writer - reader
    }

    function WritableBytes(): nat
      requires Valid()
    {
      |bytes| - writer
    }

    function PrependableBytes(): nat
    {
      reader
    }
  }

  /** `Buffer(initialSize)`. */
  function NewBuffer(initialSize: nat): (b: BufferState)
    ensures b.Valid() && b.Readable() == []
    ensures b.ReadableBytes() == 0
    ensures b.WritableBytes() == initialSize
    ensures b.PrependableBytes() == CheapPrepend
  {
    BufferState(Zeros(CheapPrepend + initialSize), CheapPrepend, CheapPrepend)
  }

  function AllRetrieved(b: BufferState): (r: BufferState)
    requires b.Valid()
    ensures r.Valid() && r.Readable() == []
    ensures r.bytes == b.bytes && r.PrependableBytes() == CheapPrepend
    ensures r.WritableBytes() == |b.bytes| - CheapPrepend
  {
    b.(reader := CheapPrepend, writer := CheapPrepend)
  }

  /** Drops the first len readable bytes; consuming everything rewinds
      both cursors to the end of the prepend area. */
  function Retrieved(b: BufferState, len: nat): (r: BufferState)
    requires b.Valid() && len <= b.ReadableBytes()
    ensures r.Valid() && r.Readable() == b.Readable()[len..]
    ensures r.bytes == b.bytes
    ensures len < b.ReadableBytes() ==> r.writer == b.writer && r.reader == b.reader + len
    ensures len == b.ReadableBytes() ==> r.reader == CheapPrepend && r.writer == CheapPrepend
  {
    if len < b.ReadableBytes() then b.(reader := b.reader + len) else AllRetrieved(b)
  }

  /** `makeSpace`: grows the vector when the free space on both sides is too
      small, then slides the readable bytes back to the prepend boundary. */
  function WithSpace(b: BufferState, len: nat): (r: BufferState)
    requires b.Valid() && b.WritableBytes() < len
    ensures r.Valid() && r.Readable() == b.Readable()
    ensures r.WritableBytes() >= len
    ensures r.PrependableBytes() == if b.reader > CheapPrepend then CheapPrepend else b.reader
    ensures |r.bytes| == if b.WritableBytes() + b.PrependableBytes() < len + CheapPrepend
                         then b.writer + len else |b.bytes|
  {
    var grown :=
      if b.WritableBytes() + b.PrependableBytes() < len + CheapPrepend
      then b.(bytes := Resize(b.bytes, b.writer + len))
      else b;
    if CheapPrepend < grown.reader then
      var readable := grown.Readable();
      BufferState(grown.bytes[..CheapPrepend] + readable + grown.bytes[CheapPrepend + |readable|..],
                  CheapPrepend, CheapPrepend + |readable|)
    else
      grown
  }

  function WithWritable(b: BufferState, len: nat): (r: BufferState)
    requires b.Valid()
    ensures r.Valid() && r.Readable() == b.Readable()
    ensures r.WritableBytes() >= len
    ensures b.WritableBytes() >= len ==> r == b
  {
    if b.WritableBytes() < len then WithSpace(b, len) else b
  }

  /** Copies data behind the readable bytes, making room first. */
  function Appended(b: BufferState, data: seq<Byte>): (r: BufferState)
    requires b.Valid()
    ensures r.Valid() && r.Readable() == b.Readable() + data
    ensures b.WritableBytes() >= |data| ==> r.reader == b.reader
    ensures |r.bytes| == if b.WritableBytes() < |data| && b.WritableBytes() + b.PrependableBytes() < |data| + CheapPrepend
                         then b.writer + |data| else |b.bytes|
  {
    var e := WithWritable(b, |data|);
    var w := e.writer;
    var r := BufferState(e.bytes[..w] + data + e.bytes[w + |data|..], e.reader, w + |data|);
    assert r.Readable() == e.Readable() + data;
    r
  }

  /** Puts data in front of the readable bytes, inside the prepend area. */
  function Prepended(b: BufferState, data: seq<Byte>): (r: BufferState)
    requires b.Valid() && |data| <= b.PrependableBytes()
    ensures r.Valid() && r.Readable() == data + b.Readable()
    ensures r.WritableBytes() == b.WritableBytes()
    ensures r.PrependableBytes() == b.PrependableBytes() - |data|
  {
    var p := b.reader - |data|;
    var r := BufferState(b.bytes[..p] + data + b.bytes[b.reader..], p, b.writer);
    assert r.Readable() == data + b.Readable();
    r
  }

  /** `unWrite`: takes back the last len readable bytes. */
  function UnWritten(b: BufferState, len: nat): (r: BufferState)
    requires b.Valid() && len <= b.ReadableBytes()
    ensures r.Valid() && r.Readable() == b.Readable()[..b.ReadableBytes() - len]
    ensures r.WritableBytes() == b.WritableBytes() + len
  {
    b.(writer := b.writer - len)
  }

  /** `shrink(reserve)`: a fresh default buffer with room for the readable
      bytes plus reserve, holding a copy of the readable bytes. */
  function Shrunk(b: BufferState, reserve: nat): (r: BufferState)
    requires b.Valid()
    ensures r.Valid() && r.Readable() == b.Readable()
    ensures r.PrependableBytes() == CheapPrepend
    ensures r.WritableBytes() >= reserve
  {
    var other := WithWritable(NewBuffer(InitialSize), b.ReadableBytes() + reserve);
    Appended(other, b.Readable())
  }

  /** `readFd`: readv fills the writable tail first and spills the rest into
      a 64 KiB stack buffer, which is then appended. The stack buffer is
      offered only while the tail is smaller than it. */
  predicate ReadvFits(b: BufferState, res: ReadvResult)
    requires b.Valid()
  {
    res.ReadvData? ==>
      |res.data| <= b.WritableBytes() + (if b.WritableBytes() < ExtraBufSize then ExtraBufSize else 0)
  }

  function AfterReadFd(b: BufferState, res: ReadvResult): (r: BufferState)
    requires b.Valid() && ReadvFits(b, res)
    ensures r.Valid()
    ensures res.ReadvError? ==> r == b
    ensures res.ReadvData? ==> r.Readable() == b.Readable() + res.data
  {
    match res
    case ReadvError(_) => b
    case ReadvData(data) =>
      var writable := b.WritableBytes();
      if |data| <= writable then
        var r := BufferState(b.bytes[..b.writer] + data + b.bytes[b.writer + |data|..], b.reader, b.writer + |data|);
        assert r.Readable() == b.Readable() + data;
        r
      else
        var filled := BufferState(b.bytes[..b.writer] + data[..writable], b.reader, |b.bytes|);
        assert filled.Readable() == b.Readable() + data[..writable];
        assert data == data[..writable] + data[writable..];
        Appended(filled, data[writable..])
  }

  /** The `ssize_t` readFd returns. */
  function ReadFdCount(res: ReadvResult): (n: int)
    ensures res.ReadvError? <==> n < 0
    ensures res.ReadvData? ==> n == |res.data|
  {
    match res
    case ReadvError(_) => -1
    case ReadvData(data) => |data|
  }

  /** "\r\n" starts at index i of s. */
  predicate IsCRLFAt(s: seq<Byte>, i: nat)
  {
    i + 1 < |s| && s[i] == '\r' && s[i + 1] == '\n'
  }

  function FindCRLFFrom(s: seq<Byte>, i: nat, end: nat): (r: Option<nat>)
    requires i <= end <= |s|
    ensures r.Some? ==> i <= r.value && r.value + 2 <= end && IsCRLFAt(s, r.value)
    ensures r.Some? ==> forall q :: i <= q < r.value ==> !IsCRLFAt(s, q)
    ensures r.None? ==> forall q :: i <= q && q + 2 <= end ==> !IsCRLFAt(s, q)
    decreases end - i
  {
    if i + 2 > end then None
    else if s[i] == '\r' && s[i + 1] == '\n' then Some(i)
    else FindCRLFFrom(s, i + 1, end)
  }

  /** `findCRLF(start)`: the first "\r\n" lying wholly in [start, writer),
      as an index into the vector. start must lie in the readable region. */
  function FindCRLF(b: BufferState, start: nat): (r: Option<nat>)
    requires b.Valid() && b.reader <= start <= b.writer
    ensures r.Some? ==> start <= r.value && r.value + 2 <= b.writer && IsCRLFAt(b.bytes, r.value)
    ensures r.Some? ==> forall q :: start <= q < r.value ==> !IsCRLFAt(b.bytes, q)
    ensures r.None? ==> forall q :: start <= q && q + 2 <= b.writer ==> !IsCRLFAt(b.bytes, q)
  {
    FindCRLFFrom(b.bytes, start, b.writer)
  }

  function FindByteFrom(s: seq<Byte>, c: Byte, i: nat, end: nat): (r: Option<nat>)
    requires i <= end <= |s|
    ensures r.Some? ==> i <= r.value < end && s[r.value] == c
    ensures r.Some? ==> forall q :: i <= q < r.value ==> s[q] != c
    ensures r.None? ==> forall q :: i <= q < end ==> s[q] != c
    decreases end - i
  {
    if i == end then None
    else if s[i] == c then Some(i)
    else FindByteFrom(s, c, i + 1, end)
  }

  /** `findEOL(start)`: the first '\n' in [start, writer). */
  function FindEOL(b: BufferState, start: nat): (r: Option<nat>)
    requires b.Valid() && b.reader <= start <= b.writer
    ensures r.Some? ==> start <= r.value < b.writer && b.bytes[r.value] == '\n'
    ensures r.Some? ==> forall q :: start <= q < r.value ==> b.bytes[q] != '\n'
    ensures r.None? ==> forall q :: start <= q < b.writer ==> b.bytes[q] != '\n'
  {
    FindByteFrom(b.bytes, '\n', start, b.writer)
  }

  /** `peekIntN`: the first N readable bytes are the memory image of a
      network-order integer; it is converted to host order and then to the
      signed type. An int8 is taken as is. */
  function PeekInt(b: BufferState, n: nat): (x: int)
    requires b.Valid() && IsIntWidth(n) && n <= b.ReadableBytes()
    ensures InSignedRange(x, n)
    ensures x == ToSigned(FromBigEndian(b.Readable()[..n]), n)
  {
    var image := b.Readable()[..n];
    var be := FromLittleEndian(image);
    HostToNetworkOfNetworkToHost(be, n);
    LittleEndianOfDecoded(image);
    var host := if n == 1 then be else NetworkToHost(be, n);
    assert n == 1 ==> FromBigEndian(image) == image[0] as int;
    ToSigned(host, n)
  }

  /** The memory image `appendIntN`/`prependIntN` copy: the value converted
      to network order, stored least significant byte first. */
  function NetworkImage(x: int, n: nat): (image: seq<Byte>)
    requires IsIntWidth(n) && InSignedRange(x, n)
    ensures image == BigEndian(ToUnsigned(x, n), n)
  {
    var u := ToUnsigned(x, n);
    HostToNetworkImage(u, n);
    var be := if n == 1 then u else HostToNetwork(u, n);
    assert n == 1 ==> BigEndian(u, 1) == LittleEndian(u, 1);
    LittleEndian(be, n)
  }

  function IntAppended(b: BufferState, x: int, n: nat): (r: BufferState)
    requires b.Valid() && IsIntWidth(n) && InSignedRange(x, n)
    ensures r.Valid() && r.Readable() == b.Readable() + BigEndian(ToUnsigned(x, n), n)
  {
    Appended(b, NetworkImage(x, n))
  }

  function IntPrepended(b: BufferState, x: int, n: nat): (r: BufferState)
    requires b.Valid() && IsIntWidth(n) && InSignedRange(x, n) && n <= b.PrependableBytes()
    ensures r.Valid() && r.Readable() == BigEndian(ToUnsigned(x, n), n) + b.Readable()
    ensures r.WritableBytes() == b.WritableBytes()
  {
    Prepended(b, NetworkImage(x, n))
  }

  function Fill(c: Byte, n: nat): (s: seq<Byte>)
    ensures |s| == n && forall i :: 0 <= i < n ==> s[i] == c
  {
    if n == 0 then [] else Fill(c, n - 1) + [c]
  }

  /** Appending 800 bytes, retrieving 500 and appending 300 more reuses the
      space in front instead of growing: the readable bytes slide back to
      the prepend boundary and the vector keeps its 1032 bytes. */
  lemma InsideGrowScenario()
    ensures var b1 := Appended(NewBuffer(InitialSize), Fill('y', 800));
            var b2 := Retrieved(b1, 500);
            var b3 := Appended(b2, Fill('z', 300));
            b1.ReadableBytes() == 800 && b1.WritableBytes() == InitialSize - 800
            && b2.ReadableBytes() == 300 && b2.PrependableBytes() == CheapPrepend + 500
            && b3.ReadableBytes() == 600 && b3.WritableBytes() == InitialSize - 600
            && b3.PrependableBytes() == CheapPrepend
  {
  }

  /** A 2000-byte append grows the vector to exactly fit; after retrieving
      1500 bytes, shrink(0) leaves the 500 remaining bytes in a default-size
      buffer. */
  lemma ShrinkScenario()
    ensures var b1 := Appended(NewBuffer(InitialSize), Fill('y', 2000));
            var b2 := Retrieved(b1, 1500);
            var b3 := Shrunk(b2, 0);
            b1.ReadableBytes() == 2000 && b1.WritableBytes() == 0
            && b2.ReadableBytes() == 500 && b2.PrependableBytes() == CheapPrepend + 1500
            && b3.ReadableBytes() == 500 && b3.WritableBytes() == InitialSize - 500
            && b3.Readable() == Fill('y', 500) && b3.PrependableBytes() == CheapPrepend
  {
  }

  /** A buffer whose readable bytes start with the big-endian encoding of u
      peeks as the signed value of u. */
  lemma PeekIntOfEncoding(a: BufferState, u: nat, n: nat)
    requires a.Valid() && IsIntWidth(n) && n <= a.ReadableBytes() && u < Pow256(n)
    requires a.Readable()[..n] == BigEndian(u, n)
    ensures PeekInt(a, n) == ToSigned(u, n)
  {
    BigEndianRoundTrip(u, n);
  }

  /** Reading back an integer written by appendIntN gives the same value and
      consumes exactly its N bytes. */
  lemma AppendIntThenReadInt(b: BufferState, x: int, n: nat)
    requires b.Valid() && IsIntWidth(n) && InSignedRange(x, n)
    ensures var a := Retrieved(IntAppended(b, x, n), b.ReadableBytes());
            n <= a.ReadableBytes() && PeekInt(a, n) == x && Retrieved(a, n).Readable() == []
  {
    var u := ToUnsigned(x, n);
    var a0 := IntAppended(b, x, n);
    var a := Retrieved(a0, b.ReadableBytes());
    assert a.Readable() == BigEndian(u, n) by {
      assert a0.Readable() == b.Readable() + BigEndian(u, n);
    }
    PeekIntOfEncoding(a, u, n);
    SignedRoundTrip(x, n);
  }

  /** The same for an integer put in front with prependIntN. */
  lemma PrependIntThenPeekInt(b: BufferState, x: int, n: nat)
    requires b.Valid() && IsIntWidth(n) && InSignedRange(x, n) && n <= b.PrependableBytes()
    ensures var p := IntPrepended(b, x, n);
            n <= p.ReadableBytes() && PeekInt(p, n) == x && Retrieved(p, n).Readable() == b.Readable()
  {
    var u := ToUnsigned(x, n);
    var p := IntPrepended(b, x, n);
    assert p.Readable()[..n] == BigEndian(u, n);
    PeekIntOfEncoding(p, u, n);
    SignedRoundTrip(x, n);
  }

  /** The network form puts the most significant byte first: "HTTP" peeks as
      'H' (int8), 'H'*256+'T' (int16) and 'H'*2^24+'T'*2^16+'T'*256+'P'. */
  lemma PeekHttp()
    ensures var b := Appended(NewBuffer(InitialSize), "HTTP");
            4 <= b.ReadableBytes()
            && PeekInt(b, 1) == 'H' as int
            && PeekInt(b, 2) == 'H' as int * 256 + 'T' as int
            && PeekInt(b, 4) == ('H' as int * 256 + 'T' as int) * 65536 + 'T' as int * 256 + 'P' as int
  {
    var b := Appended(NewBuffer(InitialSize), "HTTP");
    assert b.Readable() == "HTTP";
    assert b.Readable()[..1] == "H";
    assert b.Readable()[..2] == "HT";
    assert b.Readable()[..4] == "HTTP";
    assert "HT"[..1] == "H";
    assert "HTTP"[..3] == "HTT";
    assert "HTT"[..2] == "HT";
  }

  /** `reset` as written clears the vector but parks both cursors at 8, so
      the writer index lies beyond the end of the vector and the `size_t`
      subtraction in writableBytes wraps round. */
  function ClearedAsWritten(b: BufferState): (r: BufferState)
    ensures r.bytes == [] && r.reader == CheapPrepend && r.writer == CheapPrepend
  {
    BufferState([], CheapPrepend, CheapPrepend)
  }

  /** writableBytes computed in `size_t`. */
  function WritableBytesSizeT(b: BufferState): (w: nat)
    ensures w < SizeTModulus
  {
    (|b.bytes| - b.writer) % SizeTModulus
  }

  lemma ClearedAsWrittenBreaksInvariant(b: BufferState)
    ensures !ClearedAsWritten(b).Valid()
    ensures WritableBytesSizeT(ClearedAsWritten(b)) == SizeTModulus - CheapPrepend
  {
  }

  /** The intended `reset`: an empty buffer whose vector still holds the
      prepend area, with both cursors at its end. */
  function Cleared(b: BufferState): (r: BufferState)
    ensures r.Valid() && r.Readable() == []
    ensures r.PrependableBytes() == CheapPrepend && r.WritableBytes() == 0
    ensures WritableBytesSizeT(r) == 0
  {
    BufferState(Zeros(CheapPrepend), CheapPrepend, CheapPrepend)
  }

  /** The buffer object; each method is proved against the function of the
      same name above. */
  class Buffer {
    var bytes: seq<Byte>
    var readerIndex: nat
    var writerIndex: nat

    function State(): BufferState
      reads this
    {
      BufferState(bytes, readerIndex, writerIndex)
    }

    ghost predicate Valid()
      reads this
    {
      State().Valid()
    }

    constructor(initialSize: nat)
      ensures State() == NewBuffer(initialSize)
    {
      bytes := Zeros(CheapPrepend + initialSize);
      readerIndex := CheapPrepend;
      writerIndex := CheapPrepend;
    }

    method Swap(rhs: Buffer)
      modifies this, rhs
      ensures State() == old(rhs.State()) && rhs.State() == old(State())
    {
      var b, r, w := bytes, readerIndex, writerIndex;
      bytes, readerIndex, writerIndex := rhs.bytes, rhs.readerIndex, rhs.writerIndex;
      rhs.bytes, rhs.readerIndex, rhs.writerIndex := b, r, w;
    }

    method RetrieveAll()
      requires Valid()
      modifies this
      ensures State() == AllRetrieved(old(State()))
    {
      readerIndex := CheapPrepend;
      writerIndex := CheapPrepend;
    }

    /** `retrieve`, and `retrieveInt8/16/32/64` with len = N. */
    method Retrieve(len: nat)
      requires Valid() && len <= writerIndex - readerIndex
      modifies this
      ensures State() == Retrieved(old(State()), len)
    {
      if len < writerIndex - readerIndex {
        readerIndex := readerIndex + len;
      } else {
        RetrieveAll();
      }
    }

    /** `retrieveUntil(end)` for a position end inside the readable bytes. */
    method RetrieveUntil(end: nat)
      requires Valid() && readerIndex <= end <= writerIndex
      modifies this
      ensures State() == Retrieved(old(State()), end - old(readerIndex))
    {
      Retrieve(end - readerIndex);
    }

    method RetrieveAsString(len: nat) returns (s: seq<Byte>)
      requires Valid() && len <= writerIndex - readerIndex
      modifies this
      ensures s == old(State().Readable())[..len]
      ensures State() == Retrieved(old(State()), len)
    {
      s := bytes[readerIndex..readerIndex + len];
      Retrieve(len);
    }

    method RetrieveAllAsString() returns (s: seq<Byte>)
      requires Valid()
      modifies this
      ensures s == old(State().Readable())
      ensures State() == AllRetrieved(old(State()))
    {
      s := RetrieveAsString(writerIndex - readerIndex);
    }

    method MakeSpace(len: nat)
      requires Valid() && |bytes| - writerIndex < len
      modifies this
      ensures State() == WithSpace(old(State()), len)
    {
      if |bytes| - writerIndex + readerIndex < len + CheapPrepend {
        bytes := Resize(bytes, writerIndex + len);
      }
      if CheapPrepend < readerIndex {
        var readable := writerIndex - readerIndex;
        bytes := bytes[..CheapPrepend] + bytes[readerIndex..writerIndex] + bytes[CheapPrepend + readable..];
        readerIndex := CheapPrepend;
        writerIndex := readerIndex + readable;
      }
    }

    method EnsureWritableBytes(len: nat)
      requires Valid()
      modifies this
      ensures State() == WithWritable(old(State()), len)
    {
      if |bytes| - writerIndex < len {
        MakeSpace(len);
      }
    }

    method HasWritten(len: nat)
      requires Valid() && len <= |bytes| - writerIndex
      modifies this
      ensures Valid() && bytes == old(bytes) && readerIndex == old(readerIndex)
      ensures writerIndex == old(writerIndex) + len
    {
      writerIndex := writerIndex + len;
    }

    method Append(data: seq<Byte>)
      requires Valid()
      modifies this
      ensures State() == Appended(old(State()), data)
    {
      EnsureWritableBytes(|data|);
      bytes := bytes[..writerIndex] + data + bytes[writerIndex + |data|..];
      HasWritten(|data|);
    }

    method UnWrite(len: nat)
      requires Valid() && len <= writerIndex - readerIndex
      modifies this
      ensures State() == UnWritten(old(State()), len)
    {
      writerIndex := writerIndex - len;
    }

    method Prepend(data: seq<Byte>)
      requires Valid() && |data| <= readerIndex
      modifies this
      ensures State() == Prepended(old(State()), data)
    {
      readerIndex := readerIndex - |data|;
      bytes := bytes[..readerIndex] + data + bytes[readerIndex + |data|..];
    }

    method AppendInt(x: int, n: nat)
      requires Valid() && IsIntWidth(n) && InSignedRange(x, n)
      modifies this
      ensures State() == IntAppended(old(State()), x, n)
    {
      Append(NetworkImage(x, n));
    }

    method PrependInt(x: int, n: nat)
      requires Valid() && IsIntWidth(n) && InSignedRange(x, n) && n <= readerIndex
      modifies this
      ensures State() == IntPrepended(old(State()), x, n)
    {
      Prepend(NetworkImage(x, n));
    }

    /** `readIntN`: peek, then consume N bytes. */
    method ReadInt(n: nat) returns (x: int)
      requires Valid() && IsIntWidth(n) && n <= writerIndex - readerIndex
      modifies this
      ensures x == PeekInt(old(State()), n)
      ensures State() == Retrieved(old(State()), n)
    {
      x := PeekInt(State(), n);
      Retrieve(n);
    }

    method Shrink(reserve: nat)
      requires Valid()
      modifies this
      ensures State() == Shrunk(old(State()), reserve)
    {
      var other := new Buffer(InitialSize);
      other.EnsureWritableBytes(writerIndex - readerIndex + reserve);
      other.Append(bytes[readerIndex..writerIndex]);
      Swap(other);
    }

    /** `readFd`, with the readv call replaced by its result. */
    method ReadFd(res: ReadvResult) returns (n: int, savedErrno: int)
      requires Valid() && ReadvFits(State(), res)
      modifies this
      ensures n == ReadFdCount(res)
      ensures res.ReadvError? ==> savedErrno == res.errno
      ensures State() == AfterReadFd(old(State()), res)
    {
      savedErrno := 0;
      var writable := |bytes| - writerIndex;
      match res
      case ReadvError(e) =>
        savedErrno := e;
        n := -1;
      case ReadvData(data) =>
        n := |data|;
        if n <= writable {
          bytes := bytes[..writerIndex] + data + bytes[writerIndex + n..];
          writerIndex := writerIndex + n;
        } else {
          bytes := bytes[..writerIndex] + data[..writable];
          writerIndex := |bytes|;
          Append(data[writable..]);
        }
    }

    /** The intended `reset` (see `ClearedAsWritten` for the code as written). */
    method Reset()
      modifies this
      ensures State() == Cleared(old(State()))
    {
      readerIndex := CheapPrepend;
      writerIndex := CheapPrepend;
      bytes := Zeros(CheapPrepend);
    }
  }
}
