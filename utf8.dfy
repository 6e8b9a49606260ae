/** The UTF-8 decoder used for lyrics: the length of a character from its
  * first byte, the code point of one character, and a whole byte run
  * decoded character by character. Strings are sequences of code points.
  *
  * Two variants share the code: `AsWritten` follows the source, and
  * `Rfc3629` makes the two corrections section 3 of RFC 3629 calls for,
  * one byte for every value below 0x80 and a first-byte mask of
  * `0x7F >> length` instead of `0x3F >> length`. */
module Utf8 {
  import opened Wrappers
  import opened Errors
  import opened Bits

  datatype Variant = AsWritten | Rfc3629

  /** The largest code point `String.fromCodePoint` accepts. */
  const MAX_CODE_POINT: int := 0x10_FFFF

  /** `getCharLength`: 4, 3 and 2 for the lead bytes 1111xxxx, 1110xxxx and
    * 110xxxxx; 1 when bit 6 is set (as written) or bit 7 is clear
    * (corrected); 0 otherwise. */
  function CharLengthOf(v: Variant, b: byte): (n: nat)
    ensures n <= 4
  {
    if BitAnd(b, 0xF0) == 0xF0 then 4
    else if BitAnd(b, 0xE0) == 0xE0 then 3
    else if BitAnd(b, 0xC0) == 0xC0 then 2
    else if (if v.AsWritten? then BitAnd(b, 0x40) == 0x40 else BitAnd(b, 0x80) == 0) then 1
    else 0
  }

  /** The mask for the payload bits of a first byte. */
  function FirstByteMask(v: Variant, charLength: nat): (m: nat) {
    ShiftRight(if v.AsWritten? then 0x3F else 0x7F, charLength % 32)
  }

  /** The `while (charLength)` loop of `getCharCode`: `k` continuation
    * bytes after `byteOffset`, each `10xxxxxx`, add six bits each. */
  function ContinuationFrom(bytes: seq<byte>, byteOffset: nat, k: nat, charCode: int): Result<int>
    requires byteOffset + k < |bytes|
    decreases k
  {
    if k == 0 then Success(charCode)
    else
      var b := bytes[byteOffset + 1];
      if BitAnd(b, 0x80) != 0x80 || BitAnd(b, 0x40) == 0x40 then
        Failure(ContinuationExpected)
      else
        ContinuationFrom(bytes, byteOffset + 1, k - 1, charCode + ShiftLeft(BitAnd(b, 0x3F), ((k - 1) * 6) % 32))
  }

  /** `getCharCode(bytes, byteOffset, maybeCharLength)`; a missing length
    * is taken from the first byte. */
  function CharCodeAt(v: Variant, bytes: seq<byte>, byteOffset: nat, maybeCharLength: Option<nat>): (r: Result<int>)
    ensures r.Success? && maybeCharLength.Some? ==> maybeCharLength.value != 0
  {
    if |bytes| - byteOffset <= 0 then Failure(NoMoreCharacters)
    else
      var charLength: nat := if maybeCharLength.Some? then maybeCharLength.value else CharLengthOf(v, bytes[byteOffset]);
      if charLength == 0 then Failure(NotSignificativeByte)
      else if charLength == 1 then Success(bytes[byteOffset])
      else if |bytes| - byteOffset < charLength then Failure(MoreBytesExpected)
      else MultiByteCode(v, bytes, byteOffset, charLength)
  }

  /** The part of `getCharCode` for a character of two bytes or more that
    * are all in the array: the first byte's length bits, its payload, and
    * the continuation bytes. */
  function MultiByteCode(v: Variant, bytes: seq<byte>, byteOffset: nat, charLength: nat): Result<int>
    requires 2 <= charLength && byteOffset + charLength <= |bytes|
  {
    if BitAnd(bytes[byteOffset], ShiftRight(0x80, charLength % 32)) != 0 then
      Failure(BitAfterLength)
    else
      var first := ShiftLeft(BitAnd(bytes[byteOffset], FirstByteMask(v, charLength)), ((charLength - 1) * 6) % 32);
      ContinuationFrom(bytes, byteOffset, charLength - 1, first)
  }

  /** A result with `chars` put in front of its value. */
  function Prefixed(chars: seq<int>, r: Result<seq<int>>): Result<seq<int>> {
    if r.Success? then Success(chars + r.value) else r
  }

  /** `getStringFromBytes` from `currentOffset` on: one character per
    * step; a character running past `byteLength` fails in strict mode and
    * is skipped otherwise; `String.fromCodePoint` refuses code points
    * above 0x10FFFF. A position past the array reads `undefined`, whose
    * length is 0. */
  function DecodeFrom(v: Variant, bytes: seq<byte>, currentOffset: nat, byteLength: int, strict: bool): Result<seq<int>>
    decreases byteLength - currentOffset, 1
  {
    if currentOffset >= byteLength then Success([])
    else DecodeCharAt(v, bytes, currentOffset, byteLength, strict)
  }

  /** One turn of the loop, at an offset below `byteLength`. */
  function DecodeCharAt(v: Variant, bytes: seq<byte>, currentOffset: nat, byteLength: int, strict: bool): Result<seq<int>>
    requires currentOffset < byteLength
    decreases byteLength - currentOffset, 0
  {
    var charLength: nat := if currentOffset < |bytes| then CharLengthOf(v, bytes[currentOffset]) else 0;
    if currentOffset + charLength > byteLength then
      if strict then Failure(MultiByteTruncated)
      else DecodeFrom(v, bytes, currentOffset + charLength, byteLength, strict)
    else
      var c :- CharCodeAt(v, bytes, currentOffset, Some(charLength));
      if c < 0 || MAX_CODE_POINT < c then Failure(InvalidCodePoint)
      else Prefixed([c], DecodeFrom(v, bytes, currentOffset + charLength, byteLength, strict))
  }

  lemma PrefixedTwice(a: seq<int>, b: seq<int>, r: Result<seq<int>>)
    ensures Prefixed(a, Prefixed(b, r)) == Prefixed(a + b, r)
    ensures Prefixed([], r) == r
  {
    if r.Success? {
      assert a + (b + r.value) == (a + b) + r.value;
      assert [] + r.value == r.value;
    }
  }

  // ---------------------------------------------------------------
  // The methods, as the source runs them

  method GetCharCode(v: Variant, bytes: seq<byte>, byteOffset: nat, maybeCharLength: Option<nat>) returns (r: Result<int>)
    ensures r == CharCodeAt(v, bytes, byteOffset, maybeCharLength)
  {
    if |bytes| - byteOffset <= 0 {
      return Failure(NoMoreCharacters);
    }
    var charLength: nat := if maybeCharLength.Some? then maybeCharLength.value else CharLengthOf(v, bytes[byteOffset]);
    if charLength == 0 {
      return Failure(NotSignificativeByte);
    }
    if charLength == 1 {
      return Success(bytes[byteOffset]);
    }
    if |bytes| - byteOffset < charLength {
      return Failure(MoreBytesExpected);
    }
    r := ReadMultiByte(v, bytes, byteOffset, charLength);
  }

  /** The rest of `getCharCode`, once the length is known to be two or more
    * and the bytes are there. */
  method ReadMultiByte(v: Variant, bytes: seq<byte>, byteOffset: nat, charLength: nat) returns (r: Result<int>)
    requires 2 <= charLength && byteOffset + charLength <= |bytes|
    ensures r == MultiByteCode(v, bytes, byteOffset, charLength)
  {
    var utf8IntegrityMask := ShiftRight(0x80, charLength % 32);
    if BitAnd(bytes[byteOffset], utf8IntegrityMask) != 0 {
      return Failure(BitAfterLength);
    }
    var firstByteMask := FirstByteMask(v, charLength);
    var remaining: nat := charLength - 1;
    var charCode := ShiftLeft(BitAnd(bytes[byteOffset], firstByteMask), (remaining * 6) % 32);
    MultiBytePasses(v, bytes, byteOffset, charLength, charCode);
    r := ReadContinuation(bytes, byteOffset, remaining, charCode);
  }

  /** A first byte that passes the integrity test leaves the rest to the
    * continuation bytes. */
  lemma MultiBytePasses(v: Variant, bytes: seq<byte>, byteOffset: nat, charLength: nat, first: int)
    requires 2 <= charLength && byteOffset + charLength <= |bytes|
    requires BitAnd(bytes[byteOffset], ShiftRight(0x80, charLength % 32)) == 0
    requires first == ShiftLeft(BitAnd(bytes[byteOffset], FirstByteMask(v, charLength)), ((charLength - 1) * 6) % 32)
    ensures MultiByteCode(v, bytes, byteOffset, charLength) == ContinuationFrom(bytes, byteOffset, charLength - 1, first)
  {
  }

  /** The `while (charLength)` loop of `getCharCode`. */
  method ReadContinuation(bytes: seq<byte>, byteOffset: nat, charLength: nat, charCode: int) returns (r: Result<int>)
    requires byteOffset + charLength < |bytes|
    ensures r == ContinuationFrom(bytes, byteOffset, charLength, charCode)
  {
    var offset: nat, remaining: nat, code: int := byteOffset, charLength, charCode;
    while remaining != 0
      invariant offset + remaining < |bytes|
      invariant ContinuationFrom(bytes, offset, remaining, code) == ContinuationFrom(bytes, byteOffset, charLength, charCode)
      decreases remaining
    {
      var next := bytes[offset + 1];
      if BitAnd(next, 0x80) != 0x80 || BitAnd(next, 0x40) == 0x40 {
        return Failure(ContinuationExpected);
      }
      offset := offset + 1;
      remaining := remaining - 1;
      code := code + ShiftLeft(BitAnd(bytes[offset], 0x3F), (remaining * 6) % 32);
    }
    return Success(code);
  }

  /** What one turn of the loop of `getStringFromBytes` does: stop with
    * an error, or go on at `next` with `chars` read. */
  datatype Turn = Stop(error: Error) | Advance(chars: seq<int>, next: nat)

  method GetStringFromBytes(v: Variant, bytes: seq<byte>, byteOffset: nat, byteLength: int, strict: bool) returns (r: Result<seq<int>>)
    ensures r == DecodeFrom(v, bytes, byteOffset, byteLength, strict)
  {
    var chars: seq<int> := [];
    var currentOffset: nat := byteOffset;
    PrefixedTwice([], [], DecodeFrom(v, bytes, byteOffset, byteLength, strict));
    assert [] + [] == chars;
    while currentOffset < byteLength
      invariant DecodeFrom(v, bytes, byteOffset, byteLength, strict) == Prefixed(chars, DecodeFrom(v, bytes, currentOffset, byteLength, strict))
      decreases byteLength - currentOffset
    {
      var turn := LoopTurn(v, bytes, currentOffset, byteLength, strict);
      if turn.Stop? {
        return Failure(turn.error);
      }
      PrefixedTwice(chars, turn.chars, DecodeFrom(v, bytes, turn.next, byteLength, strict));
      chars := chars + turn.chars;
      currentOffset := turn.next;
    }
    assert chars + [] == chars;
    return Success(chars);
  }

  /** The body of the loop of `getStringFromBytes`, at `currentOffset`. */
  method LoopTurn(v: Variant, bytes: seq<byte>, currentOffset: nat, byteLength: int, strict: bool) returns (turn: Turn)
    requires currentOffset < byteLength
    ensures turn.Stop? ==> DecodeFrom(v, bytes, currentOffset, byteLength, strict) == Failure(turn.error)
    ensures turn.Advance? ==> currentOffset < turn.next
    ensures turn.Advance? ==>
      DecodeFrom(v, bytes, currentOffset, byteLength, strict) == Prefixed(turn.chars, DecodeFrom(v, bytes, turn.next, byteLength, strict))
  {
    var charLength: nat := if currentOffset < |bytes| then CharLengthOf(v, bytes[currentOffset]) else 0;
    if currentOffset + charLength > byteLength {
      if strict {
        return Stop(MultiByteTruncated);
      }
      PrefixedTwice([], [], DecodeFrom(v, bytes, currentOffset + charLength, byteLength, strict));
      return Advance([], currentOffset + charLength);
    }
    var c := GetCharCode(v, bytes, currentOffset, Some(charLength));
    if c.Failure? {
      return Stop(c.error);
    }
    if c.value < 0 || MAX_CODE_POINT < c.value {
      return Stop(InvalidCodePoint);
    }
    return Advance([c.value], currentOffset + charLength);
  }

  // ---------------------------------------------------------------
  // Masks on a byte

  lemma TopThreeMask(b: byte)
    ensures BitAnd(b, 0xE0) == (b / 0x20) * 0x20
  {
    assert Pow2(5) == 0x20;
    assert IsPowerOfTwo(8);
    HighMask(b, 8, 5);
    assert (b / 0x20) % 8 == b / 0x20;
  }

  lemma TopTwoMask(b: byte)
    ensures BitAnd(b, 0xC0) == (b / 0x40) * 0x40
  {
    assert Pow2(6) == 0x40;
    assert IsPowerOfTwo(4);
    HighMask(b, 4, 6);
    assert (b / 0x40) % 4 == b / 0x40;
  }

  /** Bit `k` of a byte, for the single-bit masks of the decoder. */
  lemma SingleBit(b: byte, k: nat)
    requires 3 <= k <= 7
    ensures BitAnd(b, Pow2(k)) == if (b / Pow2(k)) % 2 == 1 then Pow2(k) else 0
  {
    BitAndPow2(b, k);
  }

  lemma Pow2Small()
    ensures Pow2(2) == 4 && Pow2(3) == 8 && Pow2(4) == 0x10 && Pow2(5) == 0x20
    ensures Pow2(6) == 0x40 && Pow2(7) == 0x80 && Pow2(12) == 0x1000 && Pow2(18) == 0x4_0000
  {
    Pow2Add(6, 6);
    Pow2Add(12, 6);
  }

  // ---------------------------------------------------------------
  // Properties

  /** The character length by the value of the first byte. As written: 4
    * from 0xF0, 3 from 0xE0, 2 from 0xC0, 1 for 0x40..0x7F and 0 for
    * 0x00..0x3F and 0x80..0xBF. Corrected: 1 for all of 0x00..0x7F. */
  lemma CharLengthRanges(b: byte)
    ensures CharLengthOf(AsWritten, b) ==
      if b >= 0xF0 then 4 else if b >= 0xE0 then 3 else if b >= 0xC0 then 2 else if 0x40 <= b < 0x80 then 1 else 0
    ensures CharLengthOf(Rfc3629, b) ==
      if b >= 0xF0 then 4 else if b >= 0xE0 then 3 else if b >= 0xC0 then 2 else if b < 0x80 then 1 else 0
  {
    LeadMasks(b);
  }

  /** Each mask test of `getCharLength` as a range of byte values. */
  lemma LeadMasks(b: byte)
    ensures BitAnd(b, 0xF0) == 0xF0 <==> b >= 0xF0
    ensures BitAnd(b, 0xE0) == 0xE0 <==> b >= 0xE0
    ensures BitAnd(b, 0xC0) == 0xC0 <==> b >= 0xC0
    ensures b < 0xC0 ==> (BitAnd(b, 0x40) == 0x40 <==> 0x40 <= b < 0x80)
    ensures BitAnd(b, 0x80) == 0 <==> b < 0x80
  {
    TopFourTest(b);
    TopThreeTest(b);
    TwoTopMasks(b);
    HighBit(b);
  }

  lemma TopFourTest(b: byte)
    ensures BitAnd(b, 0xF0) == 0xF0 <==> b >= 0xF0
  {
    var q4 := b / 0x10;
    assert b == q4 * 0x10 + b % 0x10;
    HighNibbleMask(b);
    if b >= 0xF0 { assert q4 == 0x0F; } else { assert q4 < 0x0F; }
  }

  lemma TopThreeTest(b: byte)
    ensures BitAnd(b, 0xE0) == 0xE0 <==> b >= 0xE0
  {
    var q5 := b / 0x20;
    assert b == q5 * 0x20 + b % 0x20;
    TopThreeMask(b);
    if b >= 0xE0 { assert q5 == 7; } else { assert q5 < 7; }
  }

  lemma TwoTopMasks(b: byte)
    ensures BitAnd(b, 0xC0) == 0xC0 <==> b >= 0xC0
    ensures b < 0xC0 ==> (BitAnd(b, 0x40) == 0x40 <==> 0x40 <= b < 0x80)
  {
    var q6 := b / 0x40;
    assert b == q6 * 0x40 + b % 0x40;
    TopTwoMask(b);
    if b >= 0xC0 { assert q6 == 3; } else if b >= 0x80 { assert q6 == 2; } else if b >= 0x40 { assert q6 == 1; } else { assert q6 == 0; }
    Bit6(b, q6);
  }

  lemma Bit6(b: byte, q6: int)
    requires q6 == b / 0x40
    ensures BitAnd(b, 0x40) == if q6 % 2 == 1 then 0x40 else 0
  {
    Pow2Small();
    SingleBit(b, 6);
  }

  /** Each step of `getStringFromBytes`: a byte of length 0 fails in both
    * modes; a character running past the end fails in strict mode and
    * ends the string otherwise; a character that fits is decoded and
    * decoding goes on after it. */
  lemma DecodeStep(v: Variant, bytes: seq<byte>, currentOffset: nat, byteLength: int, strict: bool)
    requires currentOffset < byteLength && currentOffset < |bytes|
    ensures var n := CharLengthOf(v, bytes[currentOffset]);
      var r := DecodeFrom(v, bytes, currentOffset, byteLength, strict);
      (n == 0 ==> r.Failure?) &&
      (currentOffset + n > byteLength ==> r == if strict then r else Success([])) &&
      (currentOffset + n > byteLength && strict ==> r.Failure?) &&
      (0 < n && currentOffset + n <= byteLength ==>
        var c := CharCodeAt(v, bytes, currentOffset, Some(n));
        r == if c.Failure? then Failure(c.error)
             else if c.value < 0 || MAX_CODE_POINT < c.value then Failure(InvalidCodePoint)
             else Prefixed([c.value], DecodeFrom(v, bytes, currentOffset + n, byteLength, strict)))
  {
    var n := CharLengthOf(v, bytes[currentOffset]);
    if currentOffset + n > byteLength && !strict {
      assert DecodeFrom(v, bytes, currentOffset + n, byteLength, strict) == Success([]);
    }
  }

  /** One character that fits: it is decoded and decoding goes on after
    * it. */
  lemma DecodeOne(v: Variant, bytes: seq<byte>, currentOffset: nat, byteLength: int, strict: bool, n: nat, c: int)
    requires currentOffset < |bytes| && CharLengthOf(v, bytes[currentOffset]) == n
    requires 0 < n && currentOffset + n <= byteLength
    requires CharCodeAt(v, bytes, currentOffset, Some(n)) == Success(c) && 0 <= c <= MAX_CODE_POINT
    ensures DecodeFrom(v, bytes, currentOffset, byteLength, strict)
         == Prefixed([c], DecodeFrom(v, bytes, currentOffset + n, byteLength, strict))
  {
  }

  /** A single-byte character is its own code. */
  lemma SingleByteChar(v: Variant, bytes: seq<byte>, off: nat)
    requires off < |bytes|
    ensures CharCodeAt(v, bytes, off, Some(1)) == Success(bytes[off] as int)
  {
  }

  /** The weight of the `k`-th sextet from the right, 64^k. */
  function Weight(k: nat): nat
    requires k <= 3
  {
    if k == 0 then 1 else if k == 1 then 0x40 else if k == 2 then 0x1000 else 0x4_0000
  }

  /** A shift by 6, 12 or 18 of a payload below 64 is a multiplication. */
  lemma ShiftSixes(x: int, k: nat)
    requires 0 <= x < 0x40 && k <= 3
    ensures ShiftLeft(x, (k * 6) % 32) == x * Weight(k)
  {
    Pow2Small();
  }

  /** A continuation byte `0x80 + x` passes the `10xxxxxx` test and
    * carries `x`. */
  lemma ContinuationByte(x: int)
    requires 0 <= x < 0x40
    ensures BitAnd(0x80 + x, 0x80) == 0x80 && BitAnd(0x80 + x, 0x40) != 0x40 && BitAnd(0x80 + x, 0x3F) == x
  {
    HighBit(0x80 + x);
    Bit6(0x80 + x, 2);
    assert IsPowerOfTwo(0x40);
    BitAndLowMask(0x80 + x, 0x40);
  }

  /** One turn of the continuation loop over the byte `0x80 + d`. */
  lemma ContinuationStep(bytes: seq<byte>, off: nat, k: nat, code: int, d: int, code': int)
    requires 1 <= k <= 4 && off + k < |bytes| && 0 <= d < 0x40 && bytes[off + 1] == 0x80 + d
    requires code' == code + d * Weight(k - 1)
    ensures ContinuationFrom(bytes, off, k, code) == ContinuationFrom(bytes, off + 1, k - 1, code')
  {
    ContinuationByte(d);
    ShiftSixes(d, k - 1);
    ContinuationUnfold(bytes, off, k, code, d * Weight(k - 1));
  }

  lemma ContinuationUnfold(bytes: seq<byte>, off: nat, k: nat, code: int, inc: int)
    requires 1 <= k && off + k < |bytes|
    requires BitAnd(bytes[off + 1], 0x80) == 0x80 && BitAnd(bytes[off + 1], 0x40) != 0x40
    requires ShiftLeft(BitAnd(bytes[off + 1], 0x3F), ((k - 1) * 6) % 32) == inc
    ensures ContinuationFrom(bytes, off, k, code) == ContinuationFrom(bytes, off + 1, k - 1, code + inc)
  {
  }

  /** The first byte of a character of `n` bytes, 110xxxxx, 1110xxxx or
    * 11110xxx. */
  function LeadBase(n: nat): nat {
    if n == 2 then 0xC0 else if n == 3 then 0xE0 else 0xF0
  }

  /** The room for the payload of a first byte, 2^(7-n). */
  function LeadRoom(n: nat): nat {
    if n == 2 then 0x20 else if n == 3 then 0x10 else 0x08
  }

  /** One more than the first-byte mask: 2^(6-n) as written, 2^(7-n)
    * corrected. */
  function PayloadModulus(v: Variant, n: nat): nat {
    if v.AsWritten? then LeadRoom(n) / 2 else LeadRoom(n)
  }

  /** The three tests `getCharCode` makes on a first byte. */
  lemma LeadFacts(v: Variant, n: nat, x: int)
    requires 2 <= n <= 4 && 0 <= x < LeadRoom(n)
    ensures 0 <= LeadBase(n) + x < 0x100
    ensures CharLengthOf(v, LeadBase(n) + x) == n
    ensures BitAnd(LeadBase(n) + x, ShiftRight(0x80, n % 32)) == 0
    ensures BitAnd(LeadBase(n) + x, FirstByteMask(v, n)) == x % PayloadModulus(v, n)
  {
    LeadShifts(v, n);
    LeadLength(v, n, x);
    LeadBits(v, n, x);
  }

  /** The two masks of a first byte, by length. */
  lemma LeadShifts(v: Variant, n: nat)
    requires 2 <= n <= 4
    ensures ShiftRight(0x80, n % 32) == LeadRoom(n)
    ensures FirstByteMask(v, n) == PayloadModulus(v, n) - 1
  {
    var mask := if v.AsWritten? then 0x3F else 0x7F;
    ShiftRightNonNegative(0x80, n);
    ShiftRightNonNegative(mask, n);
    Pow2Small();
  }

  /** A first byte in its range has its length. */
  lemma LeadLength(v: Variant, n: nat, x: int)
    requires 2 <= n <= 4 && 0 <= x < LeadRoom(n)
    ensures 0 <= LeadBase(n) + x < 0x100
    ensures CharLengthOf(v, LeadBase(n) + x) == n
  {
    CharLengthRanges(LeadBase(n) + x);
  }

  /** A first byte in its range passes the integrity test and keeps the
    * payload its variant's mask allows. */
  lemma LeadBits(v: Variant, n: nat, x: int)
    requires 2 <= n <= 4 && 0 <= x < LeadRoom(n)
    ensures BitAnd(LeadBase(n) + x, LeadRoom(n)) == 0
    ensures BitAnd(LeadBase(n) + x, PayloadModulus(v, n) - 1) == x % PayloadModulus(v, n)
  {
    Pow2Small();
    var w := v.AsWritten?;
    var b := LeadBase(n) + x;
    if n == 2 {
      LeadIntegrity(b, 0xC0, x, 5, 6);
      LeadPayload(b, 0xC0, x, PayloadModulus(v, n), if w then 12 else 6);
    } else if n == 3 {
      LeadIntegrity(b, 0xE0, x, 4, 14);
      LeadPayload(b, 0xE0, x, PayloadModulus(v, n), if w then 28 else 14);
    } else {
      LeadIntegrity(b, 0xF0, x, 3, 30);
      LeadPayload(b, 0xF0, x, PayloadModulus(v, n), if w then 60 else 30);
    }
  }

  /** A first byte `base + x` with `base` an even multiple of `2^bit` and
    * `x` below it has bit `bit` clear. */
  lemma LeadIntegrity(b: byte, base: int, x: int, bit: nat, k: int)
    requires 3 <= bit <= 7 && 0 <= x < Pow2(bit)
    requires base == k * Pow2(bit) && k % 2 == 0 && b == base + x
    ensures BitAnd(b, Pow2(bit)) == 0
  {
    var p := Pow2(bit);
    SingleBit(b, bit);
    LowPart(base, x, p, k);
    ModUnique(x, p, 0, x);
    assert b / p == k;
  }

  /** The mask `m - 1` keeps the part `x` of a first byte `base + x` below
    * `m`, for `base` a multiple of `m`. */
  lemma LeadPayload(b: byte, base: int, x: int, m: nat, k: int)
    requires 0 <= x && IsPowerOfTwo(m) && base == k * m && b == base + x
    ensures BitAnd(b, m - 1) == x % m
  {
    BitAndLowMask(b, m);
    LowPart(base, x, m, k);
  }

  /** `base + x` splits at a multiple `base = k * m`. */
  lemma LowPart(base: int, x: int, m: int, k: int)
    requires 0 <= x && 0 < m && base == k * m
    ensures (base + x) % m == x % m && (base + x) / m == k + x / m
  {
    var q := x / m;
    assert x == q * m + x % m;
    assert base + x == (k + q) * m + x % m by {
      assert (k + q) * m == k * m + q * m;
    }
    ModUnique(base + x, m, k + q, x % m);
  }

  /** A first byte `base + x` starts the continuation loop with the payload
    * bits the variant's mask keeps, in place. */
  lemma LeadStep(v: Variant, bytes: seq<byte>, off: nat, n: nat, x: int)
    requires 2 <= n <= 4 && off + n <= |bytes|
    requires 0 <= x < LeadRoom(n) && bytes[off] == LeadBase(n) + x
    ensures CharLengthOf(v, bytes[off]) == n
    ensures CharCodeAt(v, bytes, off, Some(n))
         == ContinuationFrom(bytes, off, n - 1, (x % PayloadModulus(v, n)) * Weight(n - 1))
  {
    LeadFacts(v, n, x);
    var payload := x % PayloadModulus(v, n);
    ShiftSixes(payload, n - 1);
    MultiByteEntry(v, bytes, off, n, payload * Weight(n - 1));
  }

  /** With its length given, a character of two bytes or more that are
    * all in the array and whose first byte passes the integrity test goes
    * on to its continuation bytes with the masked, shifted payload. */
  lemma MultiByteEntry(v: Variant, bytes: seq<byte>, off: nat, n: nat, first: int)
    requires 2 <= n && off + n <= |bytes|
    requires BitAnd(bytes[off], ShiftRight(0x80, n % 32)) == 0
    requires ShiftLeft(BitAnd(bytes[off], FirstByteMask(v, n)), ((n - 1) * 6) % 32) == first
    ensures CharCodeAt(v, bytes, off, Some(n)) == ContinuationFrom(bytes, off, n - 1, first)
  {
  }

  /** With the corrected mask the whole payload of the first byte is kept. */
  lemma LeadStepCorrected(bytes: seq<byte>, off: nat, n: nat, x: int, first: int)
    requires 2 <= n <= 4 && off + n <= |bytes|
    requires 0 <= x < LeadRoom(n) && bytes[off] == LeadBase(n) + x && first == x * Weight(n - 1)
    ensures CharLengthOf(Rfc3629, bytes[off]) == n
    ensures CharCodeAt(Rfc3629, bytes, off, Some(n)) == ContinuationFrom(bytes, off, n - 1, first)
  {
    LeadStep(Rfc3629, bytes, off, n, x);
    ModUnique(x, LeadRoom(n), 0, x);
  }

  /** As written, "a b" cannot be decoded: the space 0x20 has length 0,
    * so strict decoding fails and so does the lenient one. */
  lemma SpaceNotDecoded(bytes: seq<byte>, strict: bool)
    requires bytes == [0x61, 0x20, 0x62]
    ensures CharLengthOf(AsWritten, 0x20) == 0
    ensures DecodeFrom(AsWritten, bytes, 0, 3, strict).Failure?
  {
    CharLengthRanges(0x61);
    CharLengthRanges(0x20);
    SingleByteChar(AsWritten, bytes, 0);
    DecodeOne(AsWritten, bytes, 0, 3, strict, 1, 0x61);
    DecodeStep(AsWritten, bytes, 1, 3, strict);
  }

  /** Corrected, "a b" decodes to its three characters. */
  lemma SpaceDecoded(bytes: seq<byte>, strict: bool)
    requires bytes == [0x61, 0x20, 0x62]
    ensures DecodeFrom(Rfc3629, bytes, 0, 3, strict) == Success([0x61, 0x20, 0x62])
  {
    assert IsAscii(bytes);
    AsciiDecodes(bytes, 0, strict);
    assert bytes[0..] == bytes;
  }

  /** Every byte is below 0x80. */
  predicate IsAscii(bytes: seq<byte>) {
    forall i :: 0 <= i < |bytes| ==> bytes[i] < 0x80
  }

  /** Corrected, ASCII text decodes to itself, byte for byte. */
  lemma {:induction false} AsciiDecodes(bytes: seq<byte>, off: nat, strict: bool)
    requires IsAscii(bytes) && off <= |bytes|
    ensures DecodeFrom(Rfc3629, bytes, off, |bytes|, strict) == Success(bytes[off..])
    decreases |bytes| - off
  {
    if off < |bytes| {
      AsciiStep(bytes, off, strict);
      AsciiDecodes(bytes, off + 1, strict);
      var rest := DecodeFrom(Rfc3629, bytes, off + 1, |bytes|, strict);
      assert rest == Success(bytes[off + 1..]);
      assert Prefixed([bytes[off] as int], rest) == Success([bytes[off] as int] + bytes[off + 1..]);
      assert [bytes[off] as int] + bytes[off + 1..] == bytes[off..];
    }
  }

  /** One ASCII byte is one character. */
  lemma AsciiStep(bytes: seq<byte>, off: nat, strict: bool)
    requires off < |bytes| && bytes[off] < 0x80
    ensures DecodeFrom(Rfc3629, bytes, off, |bytes|, strict)
         == Prefixed([bytes[off] as int], DecodeFrom(Rfc3629, bytes, off + 1, |bytes|, strict))
  {
    CharLengthRanges(bytes[off]);
    SingleByteChar(Rfc3629, bytes, off);
    DecodeOne(Rfc3629, bytes, off, |bytes|, strict, 1, bytes[off]);
  }

  /** As written, D0 90 (U+0410, CYRILLIC CAPITAL LETTER A) decodes to
    * 0x10: the first-byte mask 0x0F drops bit 4 of the payload. */
  lemma TwoByteMisread(bytes: seq<byte>, strict: bool)
    requires |bytes| == 2 && bytes[0] == 0xD0 && bytes[1] == 0x90
    ensures DecodeFrom(AsWritten, bytes, 0, 2, strict) == Success([0x10])
  {
    TwoByteChar(AsWritten, bytes, 0, 0x10, 0x10, 0x10);
    DecodeOne(AsWritten, bytes, 0, 2, strict, 2, 0x10);
    assert DecodeFrom(AsWritten, bytes, 2, 2, strict) == Success([]);
    assert [0x10] + [] == [0x10];
  }

  /** Corrected, with the mask 0x1F, D0 90 decodes to U+0410. */
  lemma TwoByteCorrected(bytes: seq<byte>, strict: bool)
    requires |bytes| == 2 && bytes[0] == 0xD0 && bytes[1] == 0x90
    ensures DecodeFrom(Rfc3629, bytes, 0, 2, strict) == Success([0x410])
  {
    TwoByteChar(Rfc3629, bytes, 0, 0x10, 0x10, 0x410);
    DecodeOne(Rfc3629, bytes, 0, 2, strict, 2, 0x410);
    assert DecodeFrom(Rfc3629, bytes, 2, 2, strict) == Success([]);
    assert [0x410] + [] == [0x410];
  }

  /** A two-byte character 110xxxxx 10dddddd: as written only the low four
    * bits of x reach the code, corrected all five do. */
  lemma TwoByteChar(v: Variant, bytes: seq<byte>, off: nat, x: int, d: int, c: int)
    requires off + 2 <= |bytes| && 0 <= x < 0x20 && 0 <= d < 0x40
    requires bytes[off] == 0xC0 + x && bytes[off + 1] == 0x80 + d
    requires c == (x % PayloadModulus(v, 2)) * 0x40 + d
    ensures CharLengthOf(v, bytes[off]) == 2
    ensures CharCodeAt(v, bytes, off, Some(2)) == Success(c)
  {
    var first := (x % PayloadModulus(v, 2)) * 0x40;
    LeadStep(v, bytes, off, 2, x);
    ContinuationStep(bytes, off, 1, first, d, c);
    assert ContinuationFrom(bytes, off + 1, 0, c) == Success(c);
  }

  // ---------------------------------------------------------------
  // The corrected decoder inverts the UTF-8 encoding

  /** The UTF-8 encoding of one code point (RFC 3629, section 3). */
  function EncodeChar(c: int): (r: seq<byte>)
    requires 0 <= c <= MAX_CODE_POINT
    ensures 1 <= |r| <= 4
  {
    if c < 0x80 then [c]
    else if c < 0x800 then [0xC0 + c / 0x40, 0x80 + c % 0x40]
    else if c < 0x1_0000 then [0xE0 + c / 0x1000, 0x80 + (c / 0x40) % 0x40, 0x80 + c % 0x40]
    else [0xF0 + c / 0x4_0000, 0x80 + (c / 0x1000) % 0x40, 0x80 + (c / 0x40) % 0x40, 0x80 + c % 0x40]
  }

  predicate AreCodePoints(s: seq<int>) {
    forall i :: 0 <= i < |s| ==> 0 <= s[i] <= MAX_CODE_POINT
  }

  function Encode(s: seq<int>): seq<byte>
    requires AreCodePoints(s)
  {
    if |s| == 0 then [] else EncodeChar(s[0]) + Encode(s[1..])
  }

  lemma TwoByteDecodes(bytes: seq<byte>, off: nat, c: int)
    requires 0x80 <= c < 0x800 && off + 2 <= |bytes|
    requires bytes[off] == 0xC0 + c / 0x40 && bytes[off + 1] == 0x80 + c % 0x40
    ensures CharLengthOf(Rfc3629, bytes[off]) == 2
    ensures CharCodeAt(Rfc3629, bytes, off, Some(2)) == Success(c)
  {
    var x, d := c / 0x40, c % 0x40;
    ModUnique(x, 0x20, 0, x);
    TwoByteChar(Rfc3629, bytes, off, x, d, c);
  }

  lemma ThreeByteDecodes(bytes: seq<byte>, off: nat, c: int)
    requires 0x800 <= c < 0x1_0000 && off + 3 <= |bytes|
    requires bytes[off] == 0xE0 + c / 0x1000
    requires bytes[off + 1] == 0x80 + (c / 0x40) % 0x40 && bytes[off + 2] == 0x80 + c % 0x40
    ensures CharLengthOf(Rfc3629, bytes[off]) == 3
    ensures CharCodeAt(Rfc3629, bytes, off, Some(3)) == Success(c)
  {
    var x, d1, d2 := c / 0x1000, (c / 0x40) % 0x40, c % 0x40;
    var c0 := x * 0x1000;
    var c1 := c0 + d1 * 0x40;
    assert c == c1 + d2 by {
      SextetDigits(c, 0, x, d1, d2);
    }
    LeadStepCorrected(bytes, off, 3, x, c0);
    ContinuationStep(bytes, off, 2, c0, d1, c1);
    ContinuationStep(bytes, off + 1, 1, c1, d2, c);
    assert ContinuationFrom(bytes, off + 2, 0, c) == Success(c);
  }

  lemma FourByteDecodes(bytes: seq<byte>, off: nat, c: int)
    requires 0x1_0000 <= c <= MAX_CODE_POINT && off + 4 <= |bytes|
    requires bytes[off] == 0xF0 + c / 0x4_0000 && bytes[off + 1] == 0x80 + (c / 0x1000) % 0x40
    requires bytes[off + 2] == 0x80 + (c / 0x40) % 0x40 && bytes[off + 3] == 0x80 + c % 0x40
    ensures CharLengthOf(Rfc3629, bytes[off]) == 4
    ensures CharCodeAt(Rfc3629, bytes, off, Some(4)) == Success(c)
  {
    var x, d1, d2, d3 := c / 0x4_0000, (c / 0x1000) % 0x40, (c / 0x40) % 0x40, c % 0x40;
    var c0 := x * 0x4_0000;
    var c1 := c0 + d1 * 0x1000;
    var c2 := c1 + d2 * 0x40;
    assert c == c2 + d3 by {
      SextetDigits(c, x, d1, d2, d3);
    }
    assert x < 0x08;
    LeadStepCorrected(bytes, off, 4, x, c0);
    ContinuationStep(bytes, off, 3, c0, d1, c1);
    ContinuationStep(bytes, off + 1, 2, c1, d2, c2);
    ContinuationStep(bytes, off + 2, 1, c2, d3, c);
    assert ContinuationFrom(bytes, off + 3, 0, c) == Success(c);
  }

  /** `c` written in base 64, four digits from the top one `x` down. */
  lemma SextetDigits(c: int, x: int, d1: int, d2: int, d3: int)
    requires 0 <= c && x == c / 0x4_0000 && d1 == (c / 0x1000) % 0x40 && d2 == (c / 0x40) % 0x40 && d3 == c % 0x40
    ensures c == x * 0x4_0000 + d1 * 0x1000 + d2 * 0x40 + d3
  {
    var q1 := c / 0x40;
    var q2 := q1 / 0x40;
    assert c == q1 * 0x40 + d3;
    assert q1 == q2 * 0x40 + d2;
    SextetShifts(c);
    assert q2 == c / 0x1000;
    assert q2 == (q2 / 0x40) * 0x40 + d1;
    assert q2 / 0x40 == x;
  }

  /** Dropping six bits twice, or twelve and then six. */
  lemma SextetShifts(a: int)
    requires 0 <= a
    ensures (a / 0x40) / 0x40 == a / 0x1000
    ensures (a / 0x1000) / 0x40 == a / 0x4_0000
  {
    var q1 := a / 0x40;
    var q2 := q1 / 0x40;
    ModUnique(a, 0x1000, q2, (q1 % 0x40) * 0x40 + a % 0x40);
    var q3 := q2 / 0x40;
    ModUnique(a, 0x4_0000, q3, (q2 % 0x40) * 0x1000 + a % 0x1000);
  }

  /** The corrected decoder reads each encoded character back, and with
    * it the length of its first byte. */
  lemma EncodedCharDecodes(bytes: seq<byte>, off: nat, c: int)
    requires 0 <= c <= MAX_CODE_POINT
    requires BytesAt(bytes, off, EncodeChar(c))
    ensures CharLengthOf(Rfc3629, bytes[off]) == |EncodeChar(c)|
    ensures CharCodeAt(Rfc3629, bytes, off, Some(|EncodeChar(c)|)) == Success(c)
  {
    var e := EncodeChar(c);
    assert bytes[off + 0] == e[0];
    if c < 0x80 {
      CharLengthRanges(c);
      SingleByteChar(Rfc3629, bytes, off);
    } else if c < 0x800 {
      assert bytes[off + 1] == e[1];
      TwoByteDecodes(bytes, off, c);
    } else if c < 0x1_0000 {
      assert bytes[off + 1] == e[1] && bytes[off + 2] == e[2];
      ThreeByteDecodes(bytes, off, c);
    } else {
      assert bytes[off + 1] == e[1] && bytes[off + 2] == e[2] && bytes[off + 3] == e[3];
      FourByteDecodes(bytes, off, c);
    }
  }

  /** Corrected: decoding the UTF-8 encoding of any code points, in either
    * mode, gives them back. */
  lemma DecodeEncoded(s: seq<int>, strict: bool)
    requires AreCodePoints(s)
    ensures DecodeFrom(Rfc3629, Encode(s), 0, |Encode(s)|, strict) == Success(s)
  {
    EncodesAtEncode([], s);
    assert [] + Encode(s) == Encode(s);
    DecodeEncodedAt(Encode(s), 0, s, strict);
  }

  /** `bytes` holds `e` from `off` on. */
  predicate BytesAt(bytes: seq<byte>, off: nat, e: seq<byte>) {
    off + |e| <= |bytes| && forall i :: 0 <= i < |e| ==> bytes[off + i] == e[i]
  }

  /** `bytes` holds, from `off` to its end, the encodings of `s` one after
    * the other. */
  predicate EncodesAt(bytes: seq<byte>, off: nat, s: seq<int>)
    requires AreCodePoints(s)
    decreases |s|, 1
  {
    if |s| == 0 then off == |bytes| else FirstEncodedAt(bytes, off, s)
  }

  /** The first character of `s` is encoded at `off`, the rest after it. */
  predicate FirstEncodedAt(bytes: seq<byte>, off: nat, s: seq<int>)
    requires AreCodePoints(s) && |s| > 0
    decreases |s|, 0
  {
    BytesAt(bytes, off, EncodeChar(s[0])) && EncodesAt(bytes, off + |EncodeChar(s[0])|, s[1..])
  }

  lemma {:induction false} EncodesAtEncode(prefix: seq<byte>, s: seq<int>)
    requires AreCodePoints(s)
    ensures EncodesAt(prefix + Encode(s), |prefix|, s)
    decreases |s|
  {
    if |s| == 0 {
      assert prefix + Encode(s) == prefix;
    } else {
      var e := EncodeChar(s[0]);
      var bytes := prefix + Encode(s);
      assert AreCodePoints(s[1..]);
      assert bytes == (prefix + e) + Encode(s[1..]);
      assert BytesAt(bytes, |prefix|, e);
      EncodesAtEncode(prefix + e, s[1..]);
    }
  }

  lemma {:induction false} DecodeEncodedAt(bytes: seq<byte>, off: nat, s: seq<int>, strict: bool)
    requires AreCodePoints(s) && EncodesAt(bytes, off, s)
    ensures DecodeFrom(Rfc3629, bytes, off, |bytes|, strict) == Success(s)
    decreases |s|
  {
    if |s| > 0 {
      var n := DecodeEncodedHead(bytes, off, s, strict);
      DecodeEncodedAt(bytes, off + n, s[1..], strict);
      PrefixedFirst(s);
    }
  }

  /** Decoding an encoding reads its first character and goes on after it. */
  lemma DecodeEncodedHead(bytes: seq<byte>, off: nat, s: seq<int>, strict: bool) returns (n: nat)
    requires AreCodePoints(s) && |s| > 0 && EncodesAt(bytes, off, s)
    ensures AreCodePoints(s[1..]) && EncodesAt(bytes, off + n, s[1..])
    ensures DecodeFrom(Rfc3629, bytes, off, |bytes|, strict)
         == Prefixed([s[0]], DecodeFrom(Rfc3629, bytes, off + n, |bytes|, strict))
  {
    n := EncodesAtHead(bytes, off, s);
    DecodeOne(Rfc3629, bytes, off, |bytes|, strict, n, s[0]);
  }

  lemma PrefixedFirst(s: seq<int>)
    requires |s| > 0
    ensures Prefixed([s[0]], Success(s[1..])) == Success(s)
  {
    assert [s[0]] + s[1..] == s;
  }

  /** The first character of an encoding is read back whole. */
  lemma EncodesAtHead(bytes: seq<byte>, off: nat, s: seq<int>) returns (n: nat)
    requires AreCodePoints(s) && |s| > 0 && EncodesAt(bytes, off, s)
    ensures 0 < n && off + n <= |bytes| && 0 <= s[0] <= MAX_CODE_POINT
    ensures CharLengthOf(Rfc3629, bytes[off]) == n && CharCodeAt(Rfc3629, bytes, off, Some(n)) == Success(s[0])
    ensures AreCodePoints(s[1..]) && EncodesAt(bytes, off + n, s[1..])
  {
    n := |EncodeChar(s[0])|;
    assert AreCodePoints(s[1..]);
    EncodedCharDecodes(bytes, off, s[0]);
  }
}
