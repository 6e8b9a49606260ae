/** The JavaScript number conversions and bit operators the source relies
  * on, written out on unbounded integers (section 7.1 of ECMA-262 for
  * ToUint32/ToInt32, section 13.9 for the shift operators), and the
  * big-endian byte access of a DataView. */
module Bits {
  const TWO_8: int := 0x100
  const TWO_16: int := 0x1_0000
  const TWO_31: int := 0x8000_0000
  const TWO_32: int := 0x1_0000_0000

  /** A value a Uint8Array can hold. */
  type byte = b: int | 0 <= b < TWO_8

  function Pow2(n: nat): (r: nat)
    ensures r >= 1
  {
    if n == 0 then 1 else 2 * Pow2(n - 1)
  }

  /** ToUint32 of an integral number: reduction modulo 2^32. */
  function ToUint32(x: int): (r: nat)
    ensures r < TWO_32
    ensures 0 <= x < TWO_32 ==> r == x
  {
    x % TWO_32
  }

  /** ToInt32 of an integral number: the two's complement reading of ToUint32. */
  function ToInt32(x: int): (r: int)
    ensures -TWO_31 <= r < TWO_31
    ensures (r - x) % TWO_32 == 0
  {
    var u := ToUint32(x);
    if u >= TWO_31 then u - TWO_32 else u
  }

  // JavaScript takes a shift count modulo 32; the operators below take the
  // count already reduced, and a caller whose count is not a constant below
  // 32 reduces it with `% 32` where it calls them.

  /** `x >>> s`. */
  function UnsignedShiftRight(x: int, s: nat): (r: nat)
    requires s < 32
    ensures r < TWO_32
    ensures r <= ToUint32(x)
  {
    var u, p := ToUint32(x), Pow2(s);
    DivAtMost(u, p);
    u / p
  }

  /** `x << s`: the result is read back as a signed 32-bit integer. */
  function ShiftLeft(x: int, s: nat): (r: int)
    requires s < 32
    ensures -TWO_31 <= r < TWO_31
  {
    ToInt32(ToUint32(x) * Pow2(s))
  }

  /** `x >> s`: the sign-propagating shift of the signed 32-bit value. */
  function ShiftRight(x: int, s: nat): (r: int)
    requires s < 32
    ensures 0 <= x < TWO_31 ==> 0 <= r <= x
  {
    var v, p := ToInt32(x), Pow2(s);
    assert 0 <= x < TWO_31 ==> 0 <= v / p <= x by {
      if 0 <= x < TWO_31 {
        DivAtMost(x, p);
      }
    }
    v / p
  }

  /** On a non-negative 32-bit value `>>` is a division by a power of two. */
  lemma ShiftRightNonNegative(x: int, s: nat)
    requires 0 <= x < TWO_31 && s < 32
    ensures ShiftRight(x, s) == x / Pow2(s)
  {
  }

  /** `x & 0x1F` (the low five bits), as `lastStepBits & index` computes it. */
  function Low5(x: int): (r: nat)
    ensures r < 32
    ensures 0 <= x ==> r == x % 32
  {
    ToUint32(x) % 32
  }

  /** The value a Uint8Array or `DataView.setUint8` stores for `x`. */
  function ToUint8(x: int): (r: byte)
    ensures 0 <= x < TWO_8 ==> r == x
  {
    x % TWO_8
  }

  /** `getUint16` in big-endian order. */
  function BigEndian16(hi: byte, lo: byte): (r: nat)
    ensures r < TWO_16
    ensures r / TWO_8 == hi && r % TWO_8 == lo
  {
    hi * TWO_8 + lo
  }

  /** `getUint32` in big-endian order. */
  function BigEndian32(b0: byte, b1: byte, b2: byte, b3: byte): (r: nat)
    ensures r < TWO_32
  {
    ((b0 * TWO_8 + b1) * TWO_8 + b2) * TWO_8 + b3
  }

  /** The two bytes `setUint16(v)` writes, most significant first. */
  function Uint16Bytes(v: int): (r: seq<byte>)
    ensures |r| == 2
    ensures BigEndian16(r[0], r[1]) == v % TWO_16
  {
    var u := v % TWO_16;
    [u / TWO_8, u % TWO_8]
  }

  /** The four bytes `setUint32(v)` writes, most significant first. */
  function Uint32Bytes(v: int): (r: seq<byte>)
    ensures |r| == 4
    ensures BigEndian32(r[0], r[1], r[2], r[3]) == ToUint32(v)
  {
    var u := ToUint32(v);
    var q1 := u / TWO_8;
    var q2 := q1 / TWO_8;
    assert u == q1 * TWO_8 + u % TWO_8;
    assert q1 == q2 * TWO_8 + q1 % TWO_8;
    assert q2 == (q2 / TWO_8) * TWO_8 + q2 % TWO_8;
    [q2 / TWO_8, q2 % TWO_8, q1 % TWO_8, u % TWO_8]
  }

  lemma {:induction false} Pow2Add(a: nat, b: nat)
    ensures Pow2(a + b) == Pow2(a) * Pow2(b)
    decreases a
  {
    if a > 0 {
      Pow2Add(a - 1, b);
    }
  }

  /** The powers of two the shifts of the model use. */
  lemma Pow2Table()
    ensures Pow2(5) == 32 && Pow2(7) == 0x80 && Pow2(8) == TWO_8
    ensures Pow2(10) == 0x400 && Pow2(14) == 0x4000 && Pow2(15) == 0x8000 && Pow2(16) == TWO_16
    ensures Pow2(20) == 0x10_0000 && Pow2(21) == 0x20_0000 && Pow2(25) == 0x200_0000
    ensures Pow2(28) == 0x1000_0000 && Pow2(30) == 0x4000_0000 && Pow2(31) == TWO_31
  {
    Pow2Add(10, 4);
    Pow2Add(10, 5);
    Pow2Add(10, 6);
    Pow2Add(10, 10);
    Pow2Add(20, 1);
    Pow2Add(20, 5);
    Pow2Add(20, 8);
    Pow2Add(20, 10);
    Pow2Add(30, 1);
  }

  /** Bitwise AND of two non-negative integers, one bit at a time. */
  function BitAnd(a: nat, b: nat): (r: nat)
    ensures r <= b
  {
    if a == 0 || b == 0 then 0
    else 2 * BitAnd(a / 2, b / 2) + (if a % 2 == 1 && b % 2 == 1 then 1 else 0)
  }

  /** `x & y`: both operands go through ToUint32, the result through ToInt32. */
  function JsAnd(x: int, y: int): (r: int)
    ensures 0 <= y < TWO_31 ==> 0 <= r <= y
  {
    ToInt32(BitAnd(ToUint32(x), ToUint32(y)))
  }

  /** `x % y` on integral numbers: the remainder takes the sign of the
    * dividend (truncating division), unlike Dafny's `%`. */
  function JsRemainder(x: int, y: int): (r: int)
    requires y != 0
    ensures 0 <= x ==> 0 <= r < (if y < 0 then -y else y)
    ensures x < 0 ==> -(if y < 0 then -y else y) < r <= 0
  {
    var m := if y < 0 then -y else y;
    if x >= 0 then x % m else -((-x) % m)
  }

  predicate IsPowerOfTwo(x: nat)
    decreases x
  {
    x == 1 || (x >= 2 && x % 2 == 0 && IsPowerOfTwo(x / 2))
  }

  lemma ModUnique(a: int, m: int, q: int, r: int)
    requires 0 <= r < m && a == q * m + r
    ensures a % m == r && a / m == q
  {
    var q', r' := a / m, a % m;
    assert a == q' * m + r';
    assert (q - q') * m == r' - r;
    if q > q' {
      MulAtLeast(q - q', m);
    } else if q < q' {
      MulAtLeast(q' - q, m);
    }
  }

  lemma DivAtMost(a: nat, d: nat)
    requires d >= 1
    ensures 0 <= a / d <= a
  {
    var q := a / d;
    assert a == q * d + a % d;
    if q > 0 {
      MulAtLeast(d, q);
    }
  }

  lemma MulAtLeast(k: int, m: int)
    requires k >= 1 && m > 0
    ensures k * m >= m
  {
  }

  lemma {:induction false} BitAndSelf(a: nat)
    ensures BitAnd(a, a) == a
  {
    if a > 0 {
      BitAndSelf(a / 2);
    }
  }

  /** AND with `m - 1`, for a power of two `m`, keeps the remainder modulo `m`. */
  lemma {:induction false} BitAndLowMask(a: nat, m: nat)
    requires IsPowerOfTwo(m)
    ensures BitAnd(a, m - 1) == a % m
    decreases m
  {
    if m == 1 {
      assert a % m == 0;
    } else if a == 0 {
      assert a % m == 0;
    } else {
      BitAndOdd(a, m);
      BitAndLowMask(a / 2, m / 2);
      ModDouble(a, m);
    }
  }

  /** AND with the odd mask `m - 1`, for an even `m`, keeps bit 0 and
    * shifts the rest down. */
  lemma BitAndOdd(a: nat, m: nat)
    requires m >= 2 && m % 2 == 0 && a > 0
    ensures BitAnd(a, m - 1) == 2 * BitAnd(a / 2, m / 2 - 1) + a % 2
  {
    assert (m - 1) / 2 == m / 2 - 1 && (m - 1) % 2 == 1;
  }

  /** The remainder modulo an even `m` from the remainder of the halved
    * value modulo `m / 2`. */
  lemma ModDouble(a: nat, m: nat)
    requires m >= 2 && m % 2 == 0
    ensures a % m == 2 * ((a / 2) % (m / 2)) + a % 2
  {
    var k := m / 2;
    var q, r := (a / 2) / k, (a / 2) % k;
    assert a / 2 == q * k + r;
    assert a == q * (2 * k) + (2 * r + a % 2);
    ModUnique(a, m, q, 2 * r + a % 2);
  }

  /** `((x - 1) & x) == 0` holds exactly for the powers of two. */
  lemma {:induction false} PowerOfTwoTest(x: nat)
    requires x >= 1
    ensures BitAnd(x - 1, x) == 0 <==> IsPowerOfTwo(x)
    decreases x
  {
    if x >= 2 {
      if x % 2 == 0 {
        assert (x - 1) / 2 == x / 2 - 1;
        PowerOfTwoTest(x / 2);
      } else {
        assert (x - 1) / 2 == x / 2;
        BitAndSelf(x / 2);
      }
    }
  }
  lemma DivDiv(a: nat, m: nat)
    requires m > 0
    ensures (a / 2) / m == a / (2 * m)
  {
    var q, r := (a / 2) / m, (a / 2) % m;
    assert a / 2 == q * m + r;
    assert a == q * (2 * m) + (2 * r + a % 2);
    ModUnique(a, 2 * m, q, 2 * r + a % 2);
  }

  /** AND with `2^k` isolates bit `k`. */
  lemma {:induction false} BitAndPow2(a: nat, k: nat)
    ensures BitAnd(a, Pow2(k)) == if (a / Pow2(k)) % 2 == 1 then Pow2(k) else 0
    decreases k
  {
    if k == 0 {
      BitAndOne(a);
    } else if a > 0 {
      var q := Pow2(k - 1);
      BitAndEven(a, q);
      BitAndPow2(a / 2, k - 1);
      DivDiv(a, q);
    }
  }

  lemma {:induction false} BitAndAtMostLeft(a: nat, b: nat)
    ensures BitAnd(a, b) <= a
    decreases a
  {
    if a > 0 && b > 0 {
      BitAndAtMostLeft(a / 2, b / 2);
    }
  }

  lemma BitAndOne(a: nat)
    ensures BitAnd(a, 1) == a % 2
  {
  }

  /** AND with an even mask shifts the work one bit down. */
  lemma BitAndEven(a: nat, m: nat)
    requires m >= 1
    ensures BitAnd(a, 2 * m) == 2 * BitAnd(a / 2, m)
  {
  }

  /** `b & 0x80` tests bit 7 of a byte. */
  lemma HighBit(b: byte)
    ensures BitAnd(b, 0x80) == (if b >= 0x80 then 0x80 else 0)
  {
    Pow2Table();
    BitAndPow2(b, 7);
  }

  /** `b & 0x7F` and `b & 0x0F` keep the low bits of a byte. */
  lemma LowBits(b: byte)
    ensures BitAnd(b, 0x7F) == b % 0x80
    ensures BitAnd(b, 0x0F) == b % 0x10
  {
    assert IsPowerOfTwo(0x80) && IsPowerOfTwo(0x10);
    BitAndLowMask(b, 0x80);
    BitAndLowMask(b, 0x10);
  }

  /** AND with a mask shifted left by `k` is the AND of the value shifted
    * down by `k`, shifted back. */
  lemma {:induction false} BitAndShifted(a: nat, m: nat, k: nat, q: nat)
    requires m >= 1 && q == a / Pow2(k)
    ensures BitAnd(a, Pow2(k) * m) == Pow2(k) * BitAnd(q, m)
    decreases k
  {
    if k > 0 {
      var p := Pow2(k - 1);
      assert Pow2(k) == 2 * p;
      MulAtLeast(p, m);
      DoubleMul(p, m);
      BitAndEven(a, p * m);
      DivDiv(a, p);
      BitAndShifted(a / 2, m, k - 1, q);
      DoubleMul(p, BitAnd(q, m));
    }
  }

  lemma DoubleMul(p: int, r: int)
    ensures (2 * p) * r == 2 * (p * r)
  {
  }

  /** AND with a run of ones from bit `k` up to below bit `k + log2 m`
    * keeps those bits of `a` in place. */
  lemma HighMask(a: nat, m: nat, k: nat)
    requires m >= 2 && IsPowerOfTwo(m)
    ensures BitAnd(a, Pow2(k) * (m - 1)) == Pow2(k) * ((a / Pow2(k)) % m)
  {
    DivAtMost(a, Pow2(k));
    var q: nat := a / Pow2(k);
    BitAndShifted(a, m - 1, k, q);
    BitAndLowMask(q, m);
  }

  /** `b & 0xF0` keeps the high nibble of a byte. */
  lemma HighNibbleMask(b: byte)
    ensures BitAnd(b, 0xF0) == (b / 0x10) * 0x10
  {
    assert Pow2(4) == 0x10;
    assert IsPowerOfTwo(0x10);
    HighMask(b, 0x10, 4);
    assert (b / 0x10) % 0x10 == b / 0x10;
  }

  /** `b >> 4` extracts the high nibble of a byte. */
  lemma HighNibbleShift(b: byte)
    ensures ShiftRight(b, 4) == b / 0x10
  {
    assert Pow2(4) == 0x10;
  }
}
