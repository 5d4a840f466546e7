/** The fixed-capacity byte buffer log lines are formatted into: a `char`
    array and a cursor. An append that does not fit is cut short silently. */
module FixedBuffers {
  import opened ByteOrder

  const SmallBuffer: nat := 4000
  const MiddleBuffer: nat := 8000
  const LargeBuffer: nat := 4000 * 1000

  function Min(a: nat, b: nat): nat
  {
    if a < b then a else b
  }

  /** The contents after appending piece to contents in a buffer of the
      given capacity: as much of piece as fits, and nothing else. */
  function AppendTruncated(contents: seq<Byte>, piece: seq<Byte>, capacity: nat): (r: seq<Byte>)
    requires |contents| <= capacity
    ensures |r| == Min(capacity, |contents| + |piece|)
    ensures r == (contents + piece)[..|r|]
  {
    var len := Min(capacity - |contents|, |piece|);
    contents + piece[..len]
  }

  /** Appending pieces one at a time keeps exactly the first `capacity`
      bytes of their concatenation. */
  lemma AppendTruncatedConcat(contents: seq<Byte>, p1: seq<Byte>, p2: seq<Byte>, capacity: nat)
    requires |contents| <= capacity
    ensures AppendTruncated(AppendTruncated(contents, p1, capacity), p2, capacity)
            == AppendTruncated(contents, p1 + p2, capacity)
  {
    var a := AppendTruncated(contents, p1, capacity);
    var r1 := AppendTruncated(a, p2, capacity);
    var r2 := AppendTruncated(contents, p1 + p2, capacity);
    assert |r1| == |r2|;
    assert contents + (p1 + p2) == (contents + p1) + p2;
    if |contents| + |p1| <= capacity {
      assert a == contents + p1;
    } else {
      assert |a| == capacity && |r1| == capacity;
      assert r1 == a;
      assert a == (contents + p1)[..capacity];
      assert (contents + p1)[..capacity] == ((contents + p1) + p2)[..capacity];
    }
  }

  /** Everything appended is kept while the total fits. */
  lemma AppendTruncatedFits(contents: seq<Byte>, piece: seq<Byte>, capacity: nat)
    requires |contents| + |piece| <= capacity
    ensures AppendTruncated(contents, piece, capacity) == contents + piece
  {
  }

  class FixedBuffer {
    const capacity: nat
    const data: array<Byte>
    var cur: nat

    ghost predicate Valid()
      reads this
    {
      data.Length == capacity && cur <= capacity
    }

    /** The bytes written so far: `toString`/`toStringView`. */
    function Contents(): seq<Byte>
      reads this, data
      requires Valid()
    {
      data[..cur]
    }

    function Length(): nat
      reads this
    {
      cur
    }

    function Avail(): nat
      reads this
      requires Valid()
    {
      capacity - cur
    }

    constructor(size: nat)
      ensures Valid() && fresh(data) && capacity == size
      ensures Contents() == [] && Avail() == size
    {
      capacity := size;
      data := new Byte[size];
      cur := 0;
    }

    /** `append(buf, len)` with len = |buf|: copies min(len, avail) bytes. */
    method Append(buf: seq<Byte>)
      requires Valid()
      modifies this, data
      ensures Valid() && Contents() == AppendTruncated(old(Contents()), buf, capacity)
      ensures Length() + Avail() == capacity
    {
      var len := |buf|;
      if capacity - cur < len {
        len := capacity - cur;
      }
      var i := 0;
      while i < len
        invariant 0 <= i <= len <= capacity - cur && len <= |buf|
        invariant Valid() && cur == old(cur)
        invariant forall k :: 0 <= k < cur ==> data[k] == old(data[k])
        invariant forall k :: 0 <= k < i ==> data[cur + k] == buf[k]
      {
        data[cur + i] := buf[i];
        i := i + 1;
      }
      assert data[..cur + len] == old(data[..cur]) + buf[..len];
      cur := cur + len;
    }

    /** `add(len)`: moves the cursor over len bytes written in place. */
    method Add(len: nat)
      requires Valid() && len <= Avail()
      modifies this
      ensures Valid() && Contents() == old(Contents()) + data[old(cur)..old(cur) + len]
      ensures Length() == old(Length()) + len
    {
      cur := cur + len;
    }

    method Reset()
      requires Valid()
      modifies this
      ensures Valid() && Contents() == [] && Length() == 0 && Avail() == capacity
    {
      cur := 0;
    }
  }
}
