/** Bytes, fixed-width integers and the host/network byte-order helpers.

    The library runs on little-endian Linux hosts, so `htobe16/32/64`
    reverse the byte order of a value and `be16/32/64toh` reverse it back.
    A value's "memory image" is the sequence of bytes it occupies in host
    memory, least significant byte first. */
module ByteOrder {

  /** A C `char`: one octet, seen as a character so that text and bytes mix. */
  type Byte = c: char | c as int < 256 witness '\0'

  type Uint16 = x: int | 0 <= x < 0x1_0000
  type Uint32 = x: int | 0 <= x < 0x1_0000_0000
  type Uint64 = x: int | 0 <= x < 0x1_0000_0000_0000_0000

  function Pow256(n: nat): (r: nat)
    ensures r >= 1
  {
    if n == 0 then 1 else 256 * Pow256(n - 1)
  }

  lemma Pow256Values()
    ensures Pow256(1) == 0x100 && Pow256(2) == 0x1_0000
    ensures Pow256(4) == 0x1_0000_0000
    ensures Pow256(8) == 0x1_0000_0000_0000_0000
  {
    assert Pow256(2) == 0x1_0000;
    assert Pow256(4) == 256 * 256 * Pow256(2);
    assert Pow256(8) == 256 * 256 * 256 * 256 * Pow256(4);
  }

  function ByteOf(v: nat): Byte
    requires v < 256
  {
    v as char
  }

  /** The n-byte big-endian (network order) encoding of x: most significant byte first. */
  function BigEndian(x: nat, n: nat): (r: seq<Byte>)
    ensures |r| == n
  {
    if n == 0 then [] else BigEndian(x / 256, n - 1) + [ByteOf(x % 256)]
  }

  /** The n-byte little-endian encoding of x: the memory image on the host. */
  function LittleEndian(x: nat, n: nat): (r: seq<Byte>)
    ensures |r| == n
  {
    if n == 0 then [] else [ByteOf(x % 256)] + LittleEndian(x / 256, n - 1)
  }

  function FromBigEndian(s: seq<Byte>): (x: nat)
    ensures x < Pow256(|s|)
  {
    if |s| == 0 then 0 else FromBigEndian(s[..|s| - 1]) * 256 + s[|s| - 1] as int
  }

  function FromLittleEndian(s: seq<Byte>): (x: nat)
    ensures x < Pow256(|s|)
  {
    if |s| == 0 then 0 else s[0] as int + 256 * FromLittleEndian(s[1..])
  }

  lemma DivBound(x: nat, n: nat)
    requires n > 0 && x < Pow256(n)
    ensures x / 256 < Pow256(n - 1)
  {
  }

  /** Decoding a big-endian encoding gives back the encoded value. */
  lemma {:induction false} BigEndianRoundTrip(x: nat, n: nat)
    requires x < Pow256(n)
    ensures FromBigEndian(BigEndian(x, n)) == x
  {
    if n > 0 {
      DivBound(x, n);
      BigEndianRoundTrip(x / 256, n - 1);
      var s := BigEndian(x, n);
      assert s[..n - 1] == BigEndian(x / 256, n - 1);
    }
  }

  lemma {:induction false} LittleEndianRoundTrip(x: nat, n: nat)
    requires x < Pow256(n)
    ensures FromLittleEndian(LittleEndian(x, n)) == x
  {
    if n > 0 {
      DivBound(x, n);
      LittleEndianRoundTrip(x / 256, n - 1);
      var s := LittleEndian(x, n);
      assert s[1..] == LittleEndian(x / 256, n - 1);
    }
  }

  /** Every byte string is the little-endian image of the value it decodes to. */
  lemma {:induction false} LittleEndianOfDecoded(s: seq<Byte>)
    ensures LittleEndian(FromLittleEndian(s), |s|) == s
  {
    if |s| > 0 {
      LittleEndianOfDecoded(s[1..]);
      var x := FromLittleEndian(s);
      assert x % 256 == s[0] as int;
      assert x / 256 == FromLittleEndian(s[1..]);
    }
  }

  /** Every byte string is the big-endian encoding of the value it decodes to. */
  lemma {:induction false} BigEndianOfDecoded(s: seq<Byte>)
    ensures BigEndian(FromBigEndian(s), |s|) == s
  {
    if |s| > 0 {
      var init := s[..|s| - 1];
      BigEndianOfDecoded(init);
      var x := FromBigEndian(s);
      assert x % 256 == s[|s| - 1] as int;
      assert x / 256 == FromBigEndian(init);
      assert init + [s[|s| - 1]] == s;
    }
  }

  /** Byte-swapping an n-byte value: the integer whose host memory image is
      the big-endian encoding of x. This is `htobeN` on a little-endian host. */
  function HostToNetwork(x: nat, n: nat): nat
  {
    FromLittleEndian(BigEndian(x, n))
  }

  /** `beNtoh` on a little-endian host: reads the memory image of x as big-endian. */
  function NetworkToHost(x: nat, n: nat): nat
  {
    FromBigEndian(LittleEndian(x, n))
  }

  lemma {:induction false} NetworkToHostOfHostToNetwork(x: nat, n: nat)
    requires x < Pow256(n)
    ensures HostToNetwork(x, n) < Pow256(n)
    ensures NetworkToHost(HostToNetwork(x, n), n) == x
  {
    var be := BigEndian(x, n);
    LittleEndianOfDecoded(be);
    BigEndianRoundTrip(x, n);
  }

  lemma {:induction false} HostToNetworkOfNetworkToHost(y: nat, n: nat)
    requires y < Pow256(n)
    ensures NetworkToHost(y, n) < Pow256(n)
    ensures HostToNetwork(NetworkToHost(y, n), n) == y
  {
    var le := LittleEndian(y, n);
    BigEndianOfDecoded(le);
    LittleEndianRoundTrip(y, n);
  }

  /** The value hostToNetworkN(x) is stored in memory most significant byte first. */
  lemma {:induction false} HostToNetworkImage(x: nat, n: nat)
    ensures LittleEndian(HostToNetwork(x, n), n) == BigEndian(x, n)
  {
    LittleEndianOfDecoded(BigEndian(x, n));
  }

  function HostToNetwork16(x: Uint16): (r: Uint16)
    ensures LittleEndian(r, 2) == BigEndian(x, 2)
  {
    Pow256Values();
    NetworkToHostOfHostToNetwork(x, 2);
    HostToNetworkImage(x, 2);
    HostToNetwork(x, 2)
  }

  function HostToNetwork32(x: Uint32): (r: Uint32)
    ensures LittleEndian(r, 4) == BigEndian(x, 4)
  {
    Pow256Values();
    NetworkToHostOfHostToNetwork(x, 4);
    HostToNetworkImage(x, 4);
    HostToNetwork(x, 4)
  }

  function HostToNetwork64(x: Uint64): (r: Uint64)
    ensures LittleEndian(r, 8) == BigEndian(x, 8)
  {
    Pow256Values();
    NetworkToHostOfHostToNetwork(x, 8);
    HostToNetworkImage(x, 8);
    HostToNetwork(x, 8)
  }

  function NetworkToHost16(x: Uint16): (r: Uint16)
    ensures BigEndian(r, 2) == LittleEndian(x, 2)
  {
    Pow256Values();
    HostToNetworkOfNetworkToHost(x, 2);
    BigEndianOfDecoded(LittleEndian(x, 2));
    NetworkToHost(x, 2)
  }

  function NetworkToHost32(x: Uint32): (r: Uint32)
    ensures BigEndian(r, 4) == LittleEndian(x, 4)
  {
    Pow256Values();
    HostToNetworkOfNetworkToHost(x, 4);
    BigEndianOfDecoded(LittleEndian(x, 4));
    NetworkToHost(x, 4)
  }

  function NetworkToHost64(x: Uint64): (r: Uint64)
    ensures BigEndian(r, 8) == LittleEndian(x, 8)
  {
    Pow256Values();
    HostToNetworkOfNetworkToHost(x, 8);
    BigEndianOfDecoded(LittleEndian(x, 8));
    NetworkToHost(x, 8)
  }

  lemma RoundTrip16(x: Uint16)
    ensures NetworkToHost16(HostToNetwork16(x)) == x
  {
    Pow256Values();
    NetworkToHostOfHostToNetwork(x, 2);
  }

  lemma RoundTrip32(x: Uint32)
    ensures NetworkToHost32(HostToNetwork32(x)) == x
  {
    Pow256Values();
    NetworkToHostOfHostToNetwork(x, 4);
  }

  lemma RoundTrip64(x: Uint64)
    ensures NetworkToHost64(HostToNetwork64(x)) == x
  {
    Pow256Values();
    NetworkToHostOfHostToNetwork(x, 8);
  }

  /** Two's complement: the unsigned n-byte pattern of a signed value, and back. */
  predicate InSignedRange(x: int, n: nat)
  {
    0 <= 2 * x + Pow256(n) && 2 * x < Pow256(n)
  }

  function ToUnsigned(x: int, n: nat): (u: nat)
    requires InSignedRange(x, n)
    ensures u < Pow256(n)
    ensures x >= 0 ==> u == x
    ensures x < 0 ==> u == x + Pow256(n)
  {
    if x < 0 then x + Pow256(n) else x
  }

  function ToSigned(u: nat, n: nat): (x: int)
    requires u < Pow256(n)
    ensures InSignedRange(x, n)
    ensures x == u || x == u - Pow256(n)
  {
    if 2 * u >= Pow256(n) then u - Pow256(n) else u
  }

  lemma SignedRoundTrip(x: int, n: nat)
    requires InSignedRange(x, n)
    ensures ToSigned(ToUnsigned(x, n), n) == x
  {
  }

  lemma UnsignedRoundTrip(u: nat, n: nat)
    requires u < Pow256(n)
    ensures ToUnsigned(ToSigned(u, n), n) == u
  {
  }
}
