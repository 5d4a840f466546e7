/** The reader of a zone file, `readTimeZoneFile`, over the file's bytes.
    It takes the version-1 data block of the TZif format (section 3 of
    RFC 8536): the magic "TZif", a version byte, 15 reserved bytes, six
    signed big-endian 32-bit counts (isutcnt, isstdcnt, leapcnt, timecnt,
    typecnt, charcnt), then timecnt transition times, timecnt type
    indices, typecnt six-byte ttinfo records and charcnt abbreviation
    bytes. The leap-second records and the standard/UT indicators that
    follow are not read. */
module TimeZoneFile {
  import opened ByteOrder
  import opened Wrappers
  import opened TimeZones

  /** Magic, version, reserved bytes and the six counts. */
  const HeaderSize: nat := 44
  const TimeCountAt: nat := 32
  const TypeCountAt: nat := 36
  const CharCountAt: nat := 40
  /** A ttinfo record: a 32-bit UT offset, the isdst byte, the abbreviation index. */
  const TtInfoSize: nat := 6

  // ----- The file: `ReadFile` -----

  /** The host-order `int32_t` whose memory image is the four bytes at p. */
  function HostInt32At(f: seq<Byte>, p: nat): (r: Option<int>)
    ensures r.Some? <==> p + 4 <= |f|
    ensures r.Some? ==> InSignedRange(r.value, 4)
  {
    if p + 4 <= |f| then Some(ToSigned(FromLittleEndian(f[p..p + 4]), 4)) else None
  }

  /** `readBytes(n)`: a negative n makes `string(n, '\0')` throw, a short
      read throws too; both are None. */
  function BytesAt(f: seq<Byte>, p: nat, n: int): (r: Option<seq<Byte>>)
    ensures r.Some? <==> 0 <= n && p + n <= |f|
    ensures r.Some? ==> |r.value| == n
  {
    if 0 <= n && p + n <= |f| then Some(f[p..p + n]) else None
  }

  /** An open file: its bytes and the stream position, which `fseek` may
      move past the end. */
  class ReadFile {
    const contents: seq<Byte>
    var offset: nat

    constructor (contents: seq<Byte>)
      ensures this.contents == contents && offset == 0
    {
      this.contents := contents;
      offset := 0;
    }

    /** `passBytes`: skip n bytes. */
    method PassBytes(n: nat)
      modifies this
      ensures offset == old(offset) + n
    {
      offset := offset + n;
    }

    /** `readBytes`. */
    method ReadBytes(n: int) returns (r: Option<seq<Byte>>)
      modifies this
      ensures r == BytesAt(contents, old(offset), n)
      ensures r.Some? ==> offset == old(offset) + n
    {
      if n < 0 {
        return None;
      }
      if offset + n <= |contents| {
        r := Some(contents[offset..offset + n]);
        offset := offset + n;
      } else {
        r := None;
        offset := |contents|;
      }
    }

    /** `readInt32`: four bytes in host order. */
    method ReadInt32() returns (r: Option<int>)
      modifies this
      ensures r == HostInt32At(contents, old(offset))
      ensures r.Some? ==> offset == old(offset) + 4
    {
      if offset + 4 <= |contents| {
        r := Some(ToSigned(FromLittleEndian(contents[offset..offset + 4]), 4));
        offset := offset + 4;
      } else {
        r := None;
        offset := |contents|;
      }
    }

    /** `readUInt8`. */
    method ReadUInt8() returns (r: Option<int>)
      modifies this
      ensures r == (if old(offset) < |contents| then Some(contents[old(offset)] as int) else None)
      ensures r.Some? ==> offset == old(offset) + 1
    {
      if offset < |contents| {
        r := Some(contents[offset] as int);
        offset := offset + 1;
      } else {
        r := None;
      }
    }
  }

  /** `be32toh` applied to an `int32_t`: through `uint32_t` and back. */
  function Be32ToH(x: int): (r: int)
    requires InSignedRange(x, 4)
    ensures InSignedRange(r, 4)
  {
    Pow256Values();
    ToSigned(NetworkToHost32(ToUnsigned(x, 4)), 4)
  }

  // ----- The data the reader takes from the bytes -----

  /** The signed big-endian 32-bit value at p, as section 3 of RFC 8536
      stores every count, time and offset. */
  function Int32At(f: seq<Byte>, p: nat): (x: int)
    requires p + 4 <= |f|
    ensures InSignedRange(x, 4)
  {
    ToSigned(FromBigEndian(f[p..p + 4]), 4)
  }

  /** Reading the host image of four bytes and converting it with
      `be32toh` gives the big-endian value of those bytes. */
  lemma {:induction false} Be32ToHOfHostInt32(f: seq<Byte>, p: nat)
    requires p + 4 <= |f|
    ensures Be32ToH(HostInt32At(f, p).value) == Int32At(f, p)
  {
    var s := f[p..p + 4];
    var u := FromLittleEndian(s);
    Pow256Values();
    UnsignedRoundTrip(u, 4);
    var r := NetworkToHost32(u);
    assert BigEndian(r, 4) == LittleEndian(u, 4);
    LittleEndianOfDecoded(s);
    BigEndianRoundTrip(r, 4);
    assert r == FromBigEndian(s);
  }

  /** A ttinfo record: any non-zero isdst byte is true. */
  function TtInfoAt(f: seq<Byte>, p: nat): (l: Localtime)
    requires p + TtInfoSize <= |f|
    ensures InSignedRange(l.gmtOffset, 4) && 0 <= l.arrbIdx < 256
  {
    Localtime(Int32At(f, p), f[p + 4] != '\0', f[p + 5] as int)
  }

  /** n consecutive big-endian 32-bit values from p. */
  function Int32sAt(f: seq<Byte>, p: nat, n: nat): (r: seq<int>)
    requires p + 4 * n <= |f|
    ensures |r| == n
    ensures forall k :: 0 <= k < n ==> InSignedRange(r[k], 4)
  {
    if n == 0 then [] else Int32sAt(f, p, n - 1) + [Int32At(f, p + 4 * (n - 1))]
  }

  /** n consecutive unsigned bytes from p. */
  function Uint8sAt(f: seq<Byte>, p: nat, n: nat): (r: seq<int>)
    requires p + n <= |f|
    ensures |r| == n
    ensures forall k :: 0 <= k < n ==> 0 <= r[k] < 256
  {
    if n == 0 then [] else Uint8sAt(f, p, n - 1) + [f[p + n - 1] as int]
  }

  /** n consecutive ttinfo records from p. */
  function TtInfosAt(f: seq<Byte>, p: nat, n: nat): (r: seq<Localtime>)
    requires p + TtInfoSize * n <= |f|
    ensures |r| == n
    ensures forall k :: 0 <= k < n ==> LocaltimeFits(r[k])
  {
    if n == 0 then [] else TtInfosAt(f, p, n - 1) + [TtInfoAt(f, p + TtInfoSize * (n - 1))]
  }

  /** Every type index names one of the `types` ttinfo records. */
  predicate IndicesInRange(indices: seq<int>, types: nat)
  {
    forall k :: 0 <= k < |indices| ==> 0 <= indices[k] < types
  }

  /** The transitions: each time with its type index, and the local time
      the offset of that type gives. */
  function Pair(times: seq<int>, indices: seq<int>, localtimes: seq<Localtime>): (r: seq<Transition>)
    requires |times| == |indices| && IndicesInRange(indices, |localtimes|)
    ensures |r| == |times|
    ensures forall k :: 0 <= k < |r| ==>
              r[k].gmttime == times[k] && r[k].localtimeIdx == indices[k]
              && r[k].localtime == times[k] + localtimes[indices[k]].gmtOffset
  {
    var n := |times|;
    if n == 0 then []
    else
      Pair(times[..n - 1], indices[..n - 1], localtimes)
      + [Transition(times[n - 1], times[n - 1] + localtimes[indices[n - 1]].gmtOffset, indices[n - 1])]
  }

  /** The counts and offsets of the blocks, as the header gives them; a
      negative typecnt reads no ttinfo records. */
  function TimeCount(f: seq<Byte>): int
    requires |f| >= HeaderSize
  {
    Int32At(f, TimeCountAt)
  }

  function TypeCount(f: seq<Byte>): nat
    requires |f| >= HeaderSize
  {
    var typecnt := Int32At(f, TypeCountAt);
    if typecnt < 0 then 0 else typecnt
  }

  function CharCount(f: seq<Byte>): int
    requires |f| >= HeaderSize
  {
    Int32At(f, CharCountAt)
  }

  function IndexStart(f: seq<Byte>): nat
    requires |f| >= HeaderSize && TimeCount(f) >= 0
  {
    HeaderSize + 4 * TimeCount(f)
  }

  function TypeStart(f: seq<Byte>): nat
    requires |f| >= HeaderSize && TimeCount(f) >= 0
  {
    IndexStart(f) + TimeCount(f)
  }

  function CharStart(f: seq<Byte>): nat
    requires |f| >= HeaderSize && TimeCount(f) >= 0
  {
    TypeStart(f) + TtInfoSize * TypeCount(f)
  }

  /** The zone the reader builds from a file's bytes, or None where it
      returns false: a missing magic, a short read, or a negative timecnt
      or charcnt (`reserve` and `string(n)` throw `length_error` on them).
      A type index past the type table is undefined behaviour in the
      source and None here. */
  function ParseZone(f: seq<Byte>): Option<ZoneData>
  {
    if |f| < HeaderSize || f[..4] != "TZif" then None
    else if TimeCount(f) < 0 then None
    else ParseBlocks(f, TimeCount(f), TypeCount(f), CharCount(f))
  }

  /** The blocks after the header, for the counts it gives. */
  function ParseBlocks(f: seq<Byte>, timecnt: nat, types: nat, charcnt: int): Option<ZoneData>
  {
    var c := HeaderSize + 4 * timecnt + timecnt + TtInfoSize * types;
    if charcnt < 0 || c + charcnt > |f| then None
    else
      Assemble(Int32sAt(f, HeaderSize, timecnt), Uint8sAt(f, HeaderSize + 4 * timecnt, timecnt),
               TtInfosAt(f, HeaderSize + 4 * timecnt + timecnt, types), f[c..c + charcnt])
  }

  /** Once the blocks fit in the file, they are the tables at their
      offsets p1, p2 and c. */
  lemma BlocksPresent(f: seq<Byte>, timecnt: nat, types: nat, charcnt: nat, p1: nat, p2: nat, c: nat)
    requires p1 == HeaderSize + 4 * timecnt && p2 == p1 + timecnt
    requires c == p2 + TtInfoSize * types && c + charcnt <= |f|
    ensures ParseBlocks(f, timecnt, types, charcnt)
            == Assemble(Int32sAt(f, HeaderSize, timecnt), Uint8sAt(f, p1, timecnt),
                        TtInfosAt(f, p2, types), f[c..c + charcnt])
  {
  }

  /** The zone made of the tables read, once every type index is in range. */
  function Assemble(times: seq<int>, indices: seq<int>, localtimes: seq<Localtime>,
                    abbreviation: seq<Byte>): Option<ZoneData>
    requires |times| == |indices|
  {
    if !IndicesInRange(indices, |localtimes|) then None
    else Some(ZoneData(Pair(times, indices, localtimes), localtimes, abbreviation))
  }

  /** A file that ends before the blocks its header announces is refused. */
  lemma ShortFileRefused(f: seq<Byte>, end: nat)
    requires |f| >= HeaderSize && TimeCount(f) >= 0
    requires |f| < end <= CharStart(f) + (if CharCount(f) < 0 then 0 else CharCount(f))
    ensures ParseZone(f) == None
  {
  }

  /** `be32toh(f.readInt32())`: the next signed big-endian 32-bit value. */
  method ReadBe32(f: ReadFile) returns (r: Option<int>)
    modifies f
    ensures r.Some? <==> old(f.offset) + 4 <= |f.contents|
    ensures r.Some? ==> r.value == Int32At(f.contents, old(f.offset)) && f.offset == old(f.offset) + 4
  {
    var at := f.offset;
    var x := f.ReadInt32();
    if x.None? {
      return None;
    }
    Be32ToHOfHostInt32(f.contents, at);
    return Some(Be32ToH(x.value));
  }

  /** The loop reading n transition times (or gmtoff values). */
  method ReadInt32s(f: ReadFile, n: nat) returns (r: Option<seq<int>>)
    requires f.offset <= |f.contents|
    modifies f
    ensures r.Some? <==> old(f.offset) + 4 * n <= |f.contents|
    ensures r.Some? ==> r.value == Int32sAt(f.contents, old(f.offset), n)
                        && f.offset == old(f.offset) + 4 * n
  {
    var start := f.offset;
    var values: seq<int> := [];
    var i := 0;
    while i < n
      invariant 0 <= i <= n
      invariant f.offset == start + 4 * i <= |f.contents|
      invariant values == Int32sAt(f.contents, start, i)
    {
      var x := ReadBe32(f);
      if x.None? {
        return None;
      }
      values := values + [x.value];
      i := i + 1;
    }
    return Some(values);
  }

  /** The loop reading the n type indices. */
  method ReadUint8s(f: ReadFile, n: nat) returns (r: Option<seq<int>>)
    requires f.offset <= |f.contents|
    modifies f
    ensures r.Some? <==> old(f.offset) + n <= |f.contents|
    ensures r.Some? ==> r.value == Uint8sAt(f.contents, old(f.offset), n)
                        && f.offset == old(f.offset) + n
  {
    var start := f.offset;
    var values: seq<int> := [];
    var i := 0;
    while i < n
      invariant 0 <= i <= n
      invariant f.offset == start + i <= |f.contents|
      invariant values == Uint8sAt(f.contents, start, i)
    {
      var x := f.ReadUInt8();
      if x.None? {
        return None;
      }
      values := values + [x.value];
      i := i + 1;
    }
    return Some(values);
  }

  /** The loop reading n ttinfo records into the type table. */
  method ReadTtInfos(f: ReadFile, n: nat) returns (r: Option<seq<Localtime>>)
    requires f.offset <= |f.contents|
    modifies f
    ensures r.Some? <==> old(f.offset) + TtInfoSize * n <= |f.contents|
    ensures r.Some? ==> r.value == TtInfosAt(f.contents, old(f.offset), n)
                        && f.offset == old(f.offset) + TtInfoSize * n
  {
    var start := f.offset;
    var localtimes: seq<Localtime> := [];
    var i := 0;
    while i < n
      invariant 0 <= i <= n
      invariant f.offset == start + TtInfoSize * i <= |f.contents|
      invariant localtimes == TtInfosAt(f.contents, start, i)
    {
      var gmtoff := ReadBe32(f);
      if gmtoff.None? {
        return None;
      }
      var isdst := f.ReadUInt8();
      if isdst.None? {
        return None;
      }
      var abbrind := f.ReadUInt8();
      if abbrind.None? {
        return None;
      }
      localtimes := localtimes + [Localtime(gmtoff.value, isdst.value != 0, abbrind.value)];
      i := i + 1;
    }
    return Some(localtimes);
  }

  /** The loop building the transitions; an index past the type table is
      where the source reads out of bounds. */
  method PairTransitions(trans: seq<int>, indices: seq<int>, localtimes: seq<Localtime>)
    returns (r: Option<seq<Transition>>)
    requires |trans| == |indices|
    ensures r.Some? <==> IndicesInRange(indices, |localtimes|)
    ensures r.Some? ==> r.value == Pair(trans, indices, localtimes)
  {
    var transitions: seq<Transition> := [];
    var i := 0;
    while i < |trans|
      invariant 0 <= i <= |trans|
      invariant IndicesInRange(indices[..i], |localtimes|)
      invariant transitions == Pair(trans[..i], indices[..i], localtimes)
    {
      var localIdx := indices[i];
      if localIdx < 0 || localIdx >= |localtimes| {
        return None;
      }
      assert indices[..i + 1][..i] == indices[..i] && trans[..i + 1][..i] == trans[..i];
      transitions := transitions + [Transition(trans[i], trans[i] + localtimes[localIdx].gmtOffset, localIdx)];
      i := i + 1;
    }
    assert indices[..|trans|] == indices && trans[..|trans|] == trans;
    return Some(transitions);
  }

  /** The six counts of the header, converted with `be32toh`; the file
      must be at its start. */
  method ReadHeader(f: ReadFile) returns (r: Option<(int, int, int)>)
    requires f.offset == 0
    modifies f
    ensures r.Some? <==> |f.contents| >= HeaderSize && f.contents[..4] == "TZif"
    ensures r.Some? ==> r.value == (TimeCount(f.contents), Int32At(f.contents, TypeCountAt), CharCount(f.contents))
                        && f.offset == HeaderSize
  {
    var head := f.ReadBytes(4);
    if head.None? || head.value != "TZif" {
      return None;
    }
    var version := f.ReadBytes(1);
    if version.None? {
      return None;
    }
    f.PassBytes(15);
    var isgmtcnt := ReadBe32(f);
    if isgmtcnt.None? {
      return None;
    }
    var isstdcnt := ReadBe32(f);
    if isstdcnt.None? {
      return None;
    }
    var leapcnt := ReadBe32(f);
    if leapcnt.None? {
      return None;
    }
    var timecnt := ReadBe32(f);
    if timecnt.None? {
      return None;
    }
    var typecnt := ReadBe32(f);
    if typecnt.None? {
      return None;
    }
    var charcnt := ReadBe32(f);
    if charcnt.None? {
      return None;
    }
    return Some((timecnt.value, typecnt.value, charcnt.value));
  }

  /** The three loops of `readTimeZoneFile` after the header: the times,
      the type indices and the ttinfo records. */
  method ReadTables(f: ReadFile, timecnt: nat, typecnt: nat)
    returns (r: Option<(seq<int>, seq<int>, seq<Localtime>)>)
    requires f.offset == HeaderSize <= |f.contents|
    modifies f
    ensures r.Some? <==> HeaderSize + 4 * timecnt + timecnt + TtInfoSize * typecnt <= |f.contents|
    ensures r.Some? ==>
              r.value == (Int32sAt(f.contents, HeaderSize, timecnt),
                          Uint8sAt(f.contents, HeaderSize + 4 * timecnt, timecnt),
                          TtInfosAt(f.contents, HeaderSize + 4 * timecnt + timecnt, typecnt))
              && f.offset == HeaderSize + 4 * timecnt + timecnt + TtInfoSize * typecnt
  {
    var trans := ReadInt32s(f, timecnt);
    if trans.None? {
      return None;
    }
    var indices := ReadUint8s(f, timecnt);
    if indices.None? {
      return None;
    }
    var localtimes := ReadTtInfos(f, typecnt);
    if localtimes.None? {
      return None;
    }
    return Some((trans.value, indices.value, localtimes.value));
  }

  /** The blocks after the header, read with the header's counts. */
  method ReadBlocks(f: ReadFile, timecnt: nat, types: nat, charcnt: int) returns (r: Option<ZoneData>)
    requires f.offset == HeaderSize <= |f.contents|
    modifies f
    ensures r == ParseBlocks(f.contents, timecnt, types, charcnt)
  {
    var tables := ReadTables(f, timecnt, types);
    if tables.None? {
      return None;
    }
    var (trans, indices, localtimes) := tables.value;
    ghost var c := HeaderSize + 4 * timecnt + timecnt + TtInfoSize * types;
    assert f.offset == c;
    r := BuildZone(f, charcnt, trans, indices, localtimes);
    if 0 <= charcnt && c + charcnt <= |f.contents| {
      assert r == Assemble(trans, indices, localtimes, f.contents[c..c + charcnt]);
    } else {
      assert r == None;
    }
  }

  /** The transitions paired from the tables read, and the abbreviation
      characters after them. */
  method BuildZone(f: ReadFile, charcnt: int, trans: seq<int>, indices: seq<int>,
                   localtimes: seq<Localtime>)
    returns (r: Option<ZoneData>)
    requires |trans| == |indices|
    modifies f
    ensures r == match BytesAt(f.contents, old(f.offset), charcnt)
                 case None => None
                 case Some(abbreviation) => Assemble(trans, indices, localtimes, abbreviation)
  {
    var transitions := PairTransitions(trans, indices, localtimes);
    if transitions.None? {
      return None;
    }
    var abbreviation := f.ReadBytes(charcnt);
    if abbreviation.None? {
      return None;
    }
    return Some(ZoneData(transitions.value, localtimes, abbreviation.value));
  }

  /** `readTimeZoneFile`: the header, then one loop per block, pushing
      what it reads; the transitions pair each time with its type. */
  method ReadTimeZoneFile(contents: seq<Byte>) returns (r: Option<ZoneData>)
    ensures r == ParseZone(contents)
  {
    var f := new ReadFile(contents);
    var header := ReadHeader(f);
    if header.None? {
      return None;
    }
    var (timecnt, typecnt, charcnt) := header.value;
    if timecnt < 0 {
      return None;
    }
    r := ReadBlocks(f, timecnt, if typecnt < 0 then 0 else typecnt, charcnt);
  }

  // ----- Writing a zone: the inverse of the reader -----

  /** The transitions and types the version-1 data block can hold: counts,
      times and offsets that fit in 32 bits, type indices and abbreviation
      indices that fit in a byte, and local times that are the UTC time
      plus the offset of the type. */
  predicate WellFormed(d: ZoneData)
  {
    InSignedRange(|d.transitions|, 4) && InSignedRange(|d.localtimes|, 4)
    && InSignedRange(|d.abbreviation|, 4)
    && (forall k :: 0 <= k < |d.transitions| ==> TransitionFits(d.transitions[k], d.localtimes))
    && (forall k :: 0 <= k < |d.localtimes| ==> LocaltimeFits(d.localtimes[k]))
  }

  predicate TransitionFits(t: Transition, localtimes: seq<Localtime>)
  {
    InSignedRange(t.gmttime, 4) && 0 <= t.localtimeIdx < |localtimes| && t.localtimeIdx < 256
    && t.localtime == t.gmttime + localtimes[t.localtimeIdx].gmtOffset
  }

  predicate LocaltimeFits(l: Localtime)
  {
    InSignedRange(l.gmtOffset, 4) && 0 <= l.arrbIdx < 256
  }

  /** The four big-endian bytes of a signed 32-bit value. */
  function Be32(x: int): (r: seq<Byte>)
    requires InSignedRange(x, 4)
    ensures |r| == 4
  {
    BigEndian(ToUnsigned(x, 4), 4)
  }

  lemma Int32AtBe32(f: seq<Byte>, p: nat, x: int)
    requires InSignedRange(x, 4) && p + 4 <= |f| && f[p..p + 4] == Be32(x)
    ensures Int32At(f, p) == x
  {
    BigEndianRoundTrip(ToUnsigned(x, 4), 4);
    SignedRoundTrip(x, 4);
  }

  function EncodeTimes(ts: seq<Transition>): (r: seq<Byte>)
    requires forall k :: 0 <= k < |ts| ==> InSignedRange(ts[k].gmttime, 4)
    ensures |r| == 4 * |ts|
  {
    if |ts| == 0 then [] else EncodeTimes(ts[..|ts| - 1]) + Be32(ts[|ts| - 1].gmttime)
  }

  function EncodeIndices(ts: seq<Transition>): (r: seq<Byte>)
    requires forall k :: 0 <= k < |ts| ==> 0 <= ts[k].localtimeIdx < 256
    ensures |r| == |ts|
  {
    if |ts| == 0 then [] else EncodeIndices(ts[..|ts| - 1]) + [ByteOf(ts[|ts| - 1].localtimeIdx)]
  }

  function EncodeTtInfo(l: Localtime): (r: seq<Byte>)
    requires LocaltimeFits(l)
    ensures |r| == TtInfoSize
  {
    Be32(l.gmtOffset) + [ByteOf(if l.isDst then 1 else 0), ByteOf(l.arrbIdx)]
  }

  function EncodeTtInfos(ls: seq<Localtime>): (r: seq<Byte>)
    requires forall k :: 0 <= k < |ls| ==> LocaltimeFits(ls[k])
    ensures |r| == TtInfoSize * |ls|
  {
    if |ls| == 0 then [] else EncodeTtInfos(ls[..|ls| - 1]) + EncodeTtInfo(ls[|ls| - 1])
  }

  /** The magic, a version byte, 15 zero bytes and the six counts; no
      UT/standard indicators and no leap seconds. */
  function EncodeHeader(d: ZoneData, version: Byte): (r: seq<Byte>)
    requires WellFormed(d)
    ensures |r| == HeaderSize
  {
    var reserved: seq<Byte> := seq(15, _ => '\0');
    ['T', 'Z', 'i', 'f', version] + reserved + Be32(0) + Be32(0) + Be32(0)
    + Be32(|d.transitions|) + Be32(|d.localtimes|) + Be32(|d.abbreviation|)
  }

  /** The version-1 data block of a zone. */
  function EncodeZone(d: ZoneData, version: Byte): (r: seq<Byte>)
    requires WellFormed(d)
  {
    EncodeHeader(d, version) + EncodeTimes(d.transitions) + EncodeIndices(d.transitions)
    + EncodeTtInfos(d.localtimes) + d.abbreviation
  }

  /** Where each of five concatenated blocks lies. */
  lemma Layout(f: seq<Byte>, head: seq<Byte>, times: seq<Byte>, indices: seq<Byte>,
               infos: seq<Byte>, abbr: seq<Byte>)
    requires f == head + times + indices + infos + abbr
    ensures var n1 := |head| + |times|;
            var n2 := n1 + |indices|;
            var n3 := n2 + |infos|;
            |f| == n3 + |abbr| && f[..|head|] == head && f[|head|..n1] == times
            && f[n1..n2] == indices && f[n2..n3] == infos && f[n3..] == abbr
  {
  }

  function GmtTimes(ts: seq<Transition>): (r: seq<int>)
    ensures |r| == |ts| && forall k :: 0 <= k < |ts| ==> r[k] == ts[k].gmttime
  {
    seq(|ts|, k requires 0 <= k < |ts| => ts[k].gmttime)
  }

  function TypeIndices(ts: seq<Transition>): (r: seq<int>)
    ensures |r| == |ts| && forall k :: 0 <= k < |ts| ==> r[k] == ts[k].localtimeIdx
  {
    seq(|ts|, k requires 0 <= k < |ts| => ts[k].localtimeIdx)
  }

  /** The times block reads back as the transition times. */
  lemma {:induction false} TimesOfEncoding(f: seq<Byte>, p: nat, ts: seq<Transition>)
    requires forall k :: 0 <= k < |ts| ==> InSignedRange(ts[k].gmttime, 4)
    requires p + 4 * |ts| <= |f| && f[p..p + 4 * |ts|] == EncodeTimes(ts)
    ensures Int32sAt(f, p, |ts|) == GmtTimes(ts)
    decreases |ts|
  {
    var n := |ts|;
    if n > 0 {
      var prefix := ts[..n - 1];
      var q := p + 4 * (n - 1);
      BlockSplit(f, p, q, p + 4 * n, EncodeTimes(prefix), Be32(ts[n - 1].gmttime));
      TimesOfEncoding(f, p, prefix);
      Int32AtBe32(f, q, ts[n - 1].gmttime);
      Int32sAtLast(f, p, n, q);
      SnocTimes(ts);
    }
  }

  /** The last of n 32-bit values lies at q. */
  lemma Int32sAtLast(f: seq<Byte>, p: nat, n: nat, q: nat)
    requires 0 < n && q == p + 4 * (n - 1) && p + 4 * n <= |f|
    ensures Int32sAt(f, p, n) == Int32sAt(f, p, n - 1) + [Int32At(f, q)]
  {
  }

  /** The times of transitions end with the time of the last one. */
  lemma SnocTimes(ts: seq<Transition>)
    requires 0 < |ts|
    ensures GmtTimes(ts) == GmtTimes(ts[..|ts| - 1]) + [ts[|ts| - 1].gmttime]
  {
  }

  /** The index block reads back as the type indices. */
  lemma {:induction false} IndicesOfEncoding(f: seq<Byte>, p: nat, ts: seq<Transition>)
    requires forall k :: 0 <= k < |ts| ==> 0 <= ts[k].localtimeIdx < 256
    requires p + |ts| <= |f| && f[p..p + |ts|] == EncodeIndices(ts)
    ensures Uint8sAt(f, p, |ts|) == TypeIndices(ts)
    decreases |ts|
  {
    var n := |ts|;
    if n > 0 {
      var prefix := ts[..n - 1];
      var q := p + n - 1;
      BlockSplit(f, p, q, p + n, EncodeIndices(prefix), [ByteOf(ts[n - 1].localtimeIdx)]);
      IndicesOfEncoding(f, p, prefix);
      assert f[q] == f[q..p + n][0];
      SnocIndices(ts);
    }
  }

  /** The type indices of transitions end with that of the last one. */
  lemma SnocIndices(ts: seq<Transition>)
    requires 0 < |ts|
    ensures TypeIndices(ts) == TypeIndices(ts[..|ts| - 1]) + [ts[|ts| - 1].localtimeIdx]
  {
  }

  /** The ttinfo block reads back as the types. */
  lemma {:induction false} TtInfosOfEncoding(f: seq<Byte>, p: nat, ls: seq<Localtime>)
    requires forall k :: 0 <= k < |ls| ==> LocaltimeFits(ls[k])
    requires p + TtInfoSize * |ls| <= |f| && f[p..p + TtInfoSize * |ls|] == EncodeTtInfos(ls)
    ensures TtInfosAt(f, p, |ls|) == ls
    decreases |ls|
  {
    var n := |ls|;
    if n > 0 {
      var prefix, l := ls[..n - 1], ls[n - 1];
      var q := p + TtInfoSize * (n - 1);
      assert ls == prefix + [l];
      BlockSplit(f, p, q, p + TtInfoSize * n, EncodeTtInfos(prefix), EncodeTtInfo(l));
      TtInfosOfEncoding(f, p, prefix);
      TtInfoOfEncoding(f, q, l);
      TtInfosAtLast(f, p, n, q);
    }
  }

  /** Bytes holding two blocks hold each at its offset. */
  lemma BlockSplit(f: seq<Byte>, p: nat, q: nat, e: nat, first: seq<Byte>, second: seq<Byte>)
    requires p <= q <= e <= |f| && q - p == |first| && f[p..e] == first + second
    ensures f[p..q] == first && f[q..e] == second
  {
    assert f[p..q] == f[p..e][..q - p];
    assert f[q..e] == f[p..e][q - p..];
  }

  /** The last of n ttinfo records lies at q. */
  lemma TtInfosAtLast(f: seq<Byte>, p: nat, n: nat, q: nat)
    requires 0 < n && q == p + TtInfoSize * (n - 1) && p + TtInfoSize * n <= |f|
    ensures TtInfosAt(f, p, n) == TtInfosAt(f, p, n - 1) + [TtInfoAt(f, q)]
  {
  }

  /** One ttinfo record reads back as its type. */
  lemma TtInfoOfEncoding(f: seq<Byte>, q: nat, l: Localtime)
    requires LocaltimeFits(l) && q + TtInfoSize <= |f| && f[q..q + TtInfoSize] == EncodeTtInfo(l)
    ensures TtInfoAt(f, q) == l
  {
    assert f[q..q + 4] == Be32(l.gmtOffset) by {
      assert f[q..q + 4] == f[q..q + TtInfoSize][..4];
    }
    Int32AtBe32(f, q, l.gmtOffset);
    assert f[q + 4] == EncodeTtInfo(l)[4] && f[q + 5] == EncodeTtInfo(l)[5] by {
      assert f[q + 4] == f[q..q + TtInfoSize][4] && f[q + 5] == f[q..q + TtInfoSize][5];
    }
  }

  /** The header of a written zone reads back as its magic and counts. */
  lemma HeaderOfEncoding(f: seq<Byte>, d: ZoneData, version: Byte)
    requires WellFormed(d) && |f| >= HeaderSize && f[..HeaderSize] == EncodeHeader(d, version)
    ensures f[..4] == "TZif"
    ensures TimeCount(f) == |d.transitions| && TypeCount(f) == |d.localtimes|
    ensures CharCount(f) == |d.abbreviation|
  {
    var head := EncodeHeader(d, version);
    assert f[..4] == head[..4];
    assert f[TimeCountAt..TimeCountAt + 4] == head[TimeCountAt..TimeCountAt + 4] == Be32(|d.transitions|);
    Int32AtBe32(f, TimeCountAt, |d.transitions|);
    assert f[TypeCountAt..TypeCountAt + 4] == head[TypeCountAt..TypeCountAt + 4] == Be32(|d.localtimes|);
    Int32AtBe32(f, TypeCountAt, |d.localtimes|);
    assert f[CharCountAt..CharCountAt + 4] == head[CharCountAt..CharCountAt + 4] == Be32(|d.abbreviation|);
    Int32AtBe32(f, CharCountAt, |d.abbreviation|);
  }

  /** Where the blocks of a written zone f lie: its tables at p1, p2 and c. */
  lemma EncodedBlocks(d: ZoneData, version: Byte, f: seq<Byte>, p1: nat, p2: nat, c: nat)
    requires WellFormed(d) && f == EncodeZone(d, version)
    requires p1 == HeaderSize + 4 * |d.transitions| && p2 == p1 + |d.transitions|
    requires c == p2 + TtInfoSize * |d.localtimes|
    ensures c + |d.abbreviation| == |f|
    ensures f[..4] == "TZif" && TimeCount(f) == |d.transitions|
    ensures TypeCount(f) == |d.localtimes| && CharCount(f) == |d.abbreviation|
    ensures f[HeaderSize..p1] == EncodeTimes(d.transitions)
    ensures f[p1..p2] == EncodeIndices(d.transitions)
    ensures f[p2..c] == EncodeTtInfos(d.localtimes)
    ensures f[c..c + |d.abbreviation|] == d.abbreviation
  {
    var head := EncodeHeader(d, version);
    Layout(f, head, EncodeTimes(d.transitions), EncodeIndices(d.transitions),
           EncodeTtInfos(d.localtimes), d.abbreviation);
    HeaderOfEncoding(f, d, version);
  }

  /** Bytes laid out as a written zone, with its tables at p1, p2 and c,
      read back as that zone. */
  lemma ParseOfBlocks(f: seq<Byte>, d: ZoneData, p1: nat, p2: nat, c: nat)
    requires WellFormed(d)
    requires p1 == HeaderSize + 4 * |d.transitions| && p2 == p1 + |d.transitions|
    requires c == p2 + TtInfoSize * |d.localtimes| && c + |d.abbreviation| == |f|
    requires f[..4] == "TZif" && TimeCount(f) == |d.transitions|
    requires TypeCount(f) == |d.localtimes| && CharCount(f) == |d.abbreviation|
    requires f[HeaderSize..p1] == EncodeTimes(d.transitions)
    requires f[p1..p2] == EncodeIndices(d.transitions)
    requires f[p2..c] == EncodeTtInfos(d.localtimes)
    requires f[c..c + |d.abbreviation|] == d.abbreviation
    ensures ParseZone(f) == Some(d)
  {
    TablesOfEncoding(f, d, p1, p2, c);
    BlocksOfZone(f, d, p1, p2, c);
  }

  /** The three tables of a written zone read back as its transition
      times, type indices and types. */
  lemma TablesOfEncoding(f: seq<Byte>, d: ZoneData, p1: nat, p2: nat, c: nat)
    requires WellFormed(d)
    requires p1 == HeaderSize + 4 * |d.transitions| && p2 == p1 + |d.transitions|
    requires c == p2 + TtInfoSize * |d.localtimes| && c <= |f|
    requires f[HeaderSize..p1] == EncodeTimes(d.transitions)
    requires f[p1..p2] == EncodeIndices(d.transitions)
    requires f[p2..c] == EncodeTtInfos(d.localtimes)
    ensures Int32sAt(f, HeaderSize, |d.transitions|) == GmtTimes(d.transitions)
    ensures Uint8sAt(f, p1, |d.transitions|) == TypeIndices(d.transitions)
    ensures TtInfosAt(f, p2, |d.localtimes|) == d.localtimes
  {
    WellFormedParts(d);
    IndicesOfEncoding(f, p1, d.transitions);
    TtInfosOfEncoding(f, p2, d.localtimes);
    TimesOfEncoding(f, HeaderSize, d.transitions);
  }

  /** What each block encoder and decoder needs of a well-formed zone. */
  lemma WellFormedParts(d: ZoneData)
    requires WellFormed(d)
    ensures forall j :: 0 <= j < |d.transitions| ==> InSignedRange(d.transitions[j].gmttime, 4)
    ensures forall j :: 0 <= j < |d.transitions| ==> 0 <= d.transitions[j].localtimeIdx < 256
    ensures forall j :: 0 <= j < |d.transitions| ==> TransitionFits(d.transitions[j], d.localtimes)
    ensures forall j :: 0 <= j < |d.localtimes| ==> LocaltimeFits(d.localtimes[j])
  {
  }

  /** The tables of a zone, laid out after the header, assemble into it. */
  lemma BlocksOfZone(f: seq<Byte>, d: ZoneData, p1: nat, p2: nat, c: nat)
    requires forall j :: 0 <= j < |d.transitions| ==> TransitionFits(d.transitions[j], d.localtimes)
    requires p1 == HeaderSize + 4 * |d.transitions| && p2 == p1 + |d.transitions|
    requires c == p2 + TtInfoSize * |d.localtimes| && c + |d.abbreviation| <= |f|
    requires f[c..c + |d.abbreviation|] == d.abbreviation
    requires Int32sAt(f, HeaderSize, |d.transitions|) == GmtTimes(d.transitions)
    requires Uint8sAt(f, p1, |d.transitions|) == TypeIndices(d.transitions)
    requires TtInfosAt(f, p2, |d.localtimes|) == d.localtimes
    ensures ParseBlocks(f, |d.transitions|, |d.localtimes|, |d.abbreviation|) == Some(d)
  {
    var ts, ls, abbr := d.transitions, d.localtimes, d.abbreviation;
    BlocksRead(f, |ts|, |ls|, |abbr|, p1, p2, c, GmtTimes(ts), TypeIndices(ts), ls, abbr);
    AssembleOfParts(ts, ls, abbr);
  }

  /** The blocks parse as the tables they hold. */
  lemma BlocksRead(f: seq<Byte>, n: nat, k: nat, a: nat, p1: nat, p2: nat, c: nat,
                   times: seq<int>, indices: seq<int>, ls: seq<Localtime>, abbr: seq<Byte>)
    requires p1 == HeaderSize + 4 * n && p2 == p1 + n
    requires c == p2 + TtInfoSize * k && c + a <= |f|
    requires Int32sAt(f, HeaderSize, n) == times && Uint8sAt(f, p1, n) == indices
    requires TtInfosAt(f, p2, k) == ls && f[c..c + a] == abbr
    ensures |times| == |indices| && ParseBlocks(f, n, k, a) == Assemble(times, indices, ls, abbr)
  {
    BlocksPresent(f, n, k, a, p1, p2, c);
  }

  /** The times and type indices of transitions assemble back into them. */
  lemma AssembleOfParts(ts: seq<Transition>, ls: seq<Localtime>, abbr: seq<Byte>)
    requires forall j :: 0 <= j < |ts| ==> TransitionFits(ts[j], ls)
    ensures Assemble(GmtTimes(ts), TypeIndices(ts), ls, abbr) == Some(ZoneData(ts, ls, abbr))
  {
    PairOfParts(GmtTimes(ts), TypeIndices(ts), ls, ts);
  }

  /** Reading a written zone gives the zone back. */
  lemma {:induction false} ParseOfEncode(d: ZoneData, version: Byte)
    requires WellFormed(d)
    ensures ParseZone(EncodeZone(d, version)) == Some(d)
  {
    var f := EncodeZone(d, version);
    var n := |d.transitions|;
    var p1, p2, c := HeaderSize + 4 * n, HeaderSize + 4 * n + n, HeaderSize + 4 * n + n + TtInfoSize * |d.localtimes|;
    EncodedBlocks(d, version, f, p1, p2, c);
    ParseOfBlocks(f, d, p1, p2, c);
  }

  /** Whatever the reader accepts starts with the magic and is a zone
      the data block can hold; with ParseOfEncode, writing a read zone and
      reading it again gives the same zone. */
  lemma ParsedWellFormed(f: seq<Byte>)
    requires ParseZone(f).Some?
    ensures f[..4] == "TZif" && WellFormed(ParseZone(f).value)
    ensures ParseZone(EncodeZone(ParseZone(f).value, f[4])) == ParseZone(f)
  {
    var d := ParseZone(f).value;
    var times := Int32sAt(f, HeaderSize, TimeCount(f));
    var indices := Uint8sAt(f, IndexStart(f), TimeCount(f));
    assert forall k :: 0 <= k < |d.transitions| ==> TransitionFits(d.transitions[k], d.localtimes) by {
      forall k | 0 <= k < |d.transitions|
        ensures TransitionFits(d.transitions[k], d.localtimes)
      {
        assert d.transitions[k].gmttime == times[k] && d.transitions[k].localtimeIdx == indices[k];
      }
    }
    ParseOfEncode(d, f[4]);
  }

  /** Times and indices taken from transitions pair back into them. */
  lemma PairOfParts(times: seq<int>, indices: seq<int>, ls: seq<Localtime>, ts: seq<Transition>)
    requires |times| == |indices| == |ts|
    requires forall k :: 0 <= k < |ts| ==> TransitionFits(ts[k], ls)
    requires times == GmtTimes(ts) && indices == TypeIndices(ts)
    ensures IndicesInRange(indices, |ls|) && Pair(times, indices, ls) == ts
  {
    assert IndicesInRange(indices, |ls|);
    var r := Pair(times, indices, ls);
    assert forall k :: 0 <= k < |ts| ==> r[k] == ts[k];
  }
}
