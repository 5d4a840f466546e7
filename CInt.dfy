/** C++ integer types and the `/` and `%` of C++, which truncate toward zero
    (Dafny's own operators on `int` are Euclidean). */
module CInt {

  const Int32Min: int := -0x8000_0000
  const Int32Max: int := 0x7FFF_FFFF
  const Int64Min: int := -0x8000_0000_0000_0000
  const Int64Max: int := 0x7FFF_FFFF_FFFF_FFFF

  type Int32 = x: int | Int32Min <= x <= Int32Max
  type Int64 = x: int | Int64Min <= x <= Int64Max

  function Abs(x: int): nat
  {
    if x < 0 then -x else x
  }

  /** A conversion to a 32-bit `int` (`static_cast<int>`), which keeps the
      value modulo 2^32 as two's complement. */
  function WrapInt32(x: int): (r: Int32)
    ensures (r - x) % 0x1_0000_0000 == 0
    ensures Int32Min <= x <= Int32Max ==> r == x
  {
    (x - Int32Min) % 0x1_0000_0000 + Int32Min
  }

  /** C++ `a / b`: the quotient rounded toward zero. */
  function CDiv(a: int, b: int): (q: int)
    requires b != 0
    ensures (a < 0) == (b < 0) ==> q >= 0
    ensures (a < 0) != (b < 0) ==> q <= 0
  {
    if a >= 0 && b > 0 then a / b
    else if a < 0 && b < 0 then (-a) / (-b)
    else if a < 0 then -((-a) / b)
    else -(a / (-b))
  }

  /** C++ `a % b`: the remainder takes the sign of the dividend. */
  function CMod(a: int, b: int): (r: int)
    requires b != 0
    ensures a == CDiv(a, b) * b + r
  {
    a - CDiv(a, b) * b
  }

  /** On non-negative operands C++ and Dafny agree. */
  lemma CDivNonNegative(a: int, b: int)
    requires a >= 0 && b > 0
    ensures CDiv(a, b) == a / b && CMod(a, b) == a % b
  {
  }

  /** The quotient alone, for callers that need no remainder. */
  lemma CDivNatural(a: int, b: int)
    requires a >= 0 && b > 0
    ensures CDiv(a, b) == a / b
  {
  }

  /** A negative dividend gives a remainder in (-b, 0]. */
  lemma CModRange(a: int, b: int)
    requires b > 0
    ensures a >= 0 ==> 0 <= CMod(a, b) < b
    ensures a < 0 ==> -b < CMod(a, b) <= 0
  {
    var q := Abs(a) / b;
    if a < 0 {
      assert CDiv(a, b) == -q;
      assert Abs(a) == -a;
      assert q * b <= -a < q * b + b;
    } else {
      assert CDiv(a, b) == q;
      assert q * b <= a < q * b + b;
    }
  }
}
