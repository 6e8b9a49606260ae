/** A read cursor over a DataView: single bytes, variable-length quantities
  * (Standard MIDI Files 1.0, "Conventions": seven bits per byte, most
  * significant group first, bit 7 set on every byte but the last) and byte
  * runs. The view is its visible bytes plus the offset of the view inside
  * its ArrayBuffer. */
module ByteStream {
  import opened Wrappers
  import opened Errors
  import opened Bits

  /** A value read from a buffer and the position just after it. */
  datatype Read<T> = Read(value: T, next: int)

  /** A method result agrees with a specification result: the same value and
    * the cursor where the specification leaves it, or both fail. */
  predicate Agrees<T(==)>(r: Result<T>, s: Result<Read<T>>, position: int) {
    if s.Success? then r == Success(s.value.value) && position == s.value.next else r.Failure?
  }

  /** `DataView.getUint8`: the byte at `position`; a read outside the view
    * raises a RangeError. */
  function ByteAt(buffer: seq<byte>, position: int): Result<Read<byte>> {
    if 0 <= position < |buffer| then Success(Read(buffer[position], position + 1))
    else Failure(OffsetOutOfView)
  }

  /** The loop of `readVarInt` from iteration `i` on, with `varInt` the value
    * accumulated so far. `b & 0x80` is `b >= 0x80` and `b & 0x7F` is
    * `b % 0x80` on a byte (Bits.HighBit, Bits.LowBits). */
  function VarIntFrom(buffer: seq<byte>, position: int, i: nat, varInt: int): Result<Read<int>>
    requires i <= 4
    decreases 4 - i
  {
    if i == 4 then Failure(VarIntTooManyBytes)
    else
      var b :- ByteAt(buffer, position);
      if b.value >= 0x80 then
        VarIntFrom(buffer, position + 1, i + 1, ShiftLeft(varInt + b.value % 0x80, 7))
      else
        Success(Read(varInt + b.value, position + 1))
  }

  /** A byte with bit 7 set adds its group and moves the loop on. */
  lemma VarIntFromContinues(buffer: seq<byte>, position: int, i: nat, varInt: int, b: byte, sum: int, next: int, varInt': int)
    requires i < 4 && 0 <= position < |buffer| && buffer[position] == b && b >= 0x80
    requires sum == varInt + b % 0x80 && next == position + 1 && varInt' == ShiftLeft(sum, 7)
    ensures VarIntFrom(buffer, position, i, varInt) == VarIntFrom(buffer, next, i + 1, varInt')
  {
  }

  /** A byte with bit 7 clear ends the quantity. */
  lemma VarIntFromStops(buffer: seq<byte>, position: int, i: nat, varInt: int, b: byte)
    requires i < 4 && 0 <= position < |buffer| && buffer[position] == b && b < 0x80
    ensures VarIntFrom(buffer, position, i, varInt) == Success(Read(varInt + b, position + 1))
  {
  }

  /** `readVarInt` started at `position`. */
  function VarInt(buffer: seq<byte>, position: int): Result<Read<int>> {
    VarIntFrom(buffer, position, 0, 0)
  }

  /** `readBytes(length)` started at `position`. */
  function BytesFrom(buffer: seq<byte>, position: int, length: int): (r: Result<Read<seq<byte>>>)
    ensures r.Success? <==> length <= 0 || (0 <= position && position + length <= |buffer|)
    ensures r.Success? && length <= 0 ==> r.value == Read([], position)
    ensures r.Success? && length > 0 ==> r.value == Read(buffer[position..position + length], position + length)
    decreases length
  {
    if length <= 0 then Success(Read([], position))
    else
      var b :- ByteAt(buffer, position);
      var rest :- BytesFrom(buffer, position + 1, length - 1);
      assert buffer[position..position + length] == [b.value] + buffer[position + 1..position + length];
      Success(Read([b.value] + rest.value, rest.next))
  }

  /** 128 to the power `n`. */
  function Pow128(n: nat): (r: nat)
    ensures r >= 1
  {
    if n == 0 then 1 else 0x80 * Pow128(n - 1)
  }

  /** The big-endian concatenation of the 7-bit groups of `s`, after the
    * groups already gathered in `g`. */
  function Groups(g: int, s: seq<byte>): int
    decreases |s|
  {
    if |s| == 0 then g else Groups(g * 0x80 + s[0] % 0x80, s[1..])
  }

  /** A well-formed variable-length quantity: one to four bytes, bit 7 set
    * on all but the last. */
  predicate IsVarIntEncoding(s: seq<byte>) {
    1 <= |s| <= 4 && s[|s| - 1] < 0x80 && forall j :: 0 <= j < |s| - 1 ==> s[j] >= 0x80
  }

  /** `n` groups of seven bits hold less than 128^n. */
  lemma {:induction false} GroupsBound(g: nat, s: seq<byte>)
    ensures 0 <= Groups(g, s) < (g + 1) * Pow128(|s|)
    decreases |s|
  {
    if |s| > 0 {
      var g', p := g * 0x80 + s[0] % 0x80, Pow128(|s| - 1);
      assert Groups(g, s) == Groups(g', s[1..]) && Pow128(|s|) == 0x80 * p;
      GroupsBound(g', s[1..]);
      MulMonotone(g' + 1, (g + 1) * 0x80, p);
      MulAssociates(g + 1, 0x80, p);
    }
  }

  lemma MulAssociates(a: int, b: int, c: int)
    ensures (a * b) * c == a * (b * c)
  {
  }

  lemma MulMonotone(a: int, b: int, c: nat)
    requires a <= b
    ensures a * c <= b * c
  {
  }

  /** `x << 7` does not wrap below 2^24. */
  lemma ShiftLeft7(x: int)
    requires 0 <= x < 0x100_0000
    ensures ShiftLeft(x, 7) == x * 0x80
  {
    Pow2Table();
  }

  /** A byte with bit 7 set in front of a quantity of at most three bytes
    * is a quantity, whose first group comes first. */
  lemma ContinuationByte(buffer: seq<byte>, position: int, next: int, g: int)
    requires 0 <= position && position + 1 < next <= |buffer| && next - position <= 4
    requires buffer[position] >= 0x80 && IsVarIntEncoding(buffer[position + 1..next])
    ensures IsVarIntEncoding(buffer[position..next])
    ensures Groups(g, buffer[position..next]) == Groups(g * 0x80 + buffer[position] % 0x80, buffer[position + 1..next])
  {
    assert buffer[position..next][1..] == buffer[position + 1..next];
  }

  /** A continuation byte moves `readVarInt` on by one byte with one more
    * group gathered. */
  lemma ContinuationStep(buffer: seq<byte>, position: int, i: nat, g: nat, b: byte, g': nat)
    requires i < 4 && g < Pow128(i) && 0 <= position < |buffer| && buffer[position] == b && b >= 0x80
    requires g' == g * 0x80 + b % 0x80
    ensures g' < Pow128(i + 1)
    ensures VarIntFrom(buffer, position, i, g * 0x80) == VarIntFrom(buffer, position + 1, i + 1, g' * 0x80)
  {
    MulMonotone(g + 1, Pow128(i), 0x80);
    if i < 3 {
      assert Pow128(i) <= 0x4000 by { assert Pow128(1) == 0x80 && Pow128(2) == 0x4000; }
      assert g' < 0x20_0000;
      ShiftLeft7(g');
    }
  }

  /** Everything `readVarInt` accepts is a well-formed quantity lying
    * entirely inside the view, and the value is its groups. */
  lemma {:induction false} VarIntFromSound(buffer: seq<byte>, position: int, i: nat, g: nat)
    requires i <= 4 && g < Pow128(i)
    ensures var r := VarIntFrom(buffer, position, i, g * 0x80);
      r.Success? ==>
        0 <= position < r.value.next <= |buffer| && r.value.next - position <= 4 - i &&
        IsVarIntEncoding(buffer[position..r.value.next]) &&
        r.value.value == Groups(g, buffer[position..r.value.next])
    decreases 4 - i
  {
    var r := VarIntFrom(buffer, position, i, g * 0x80);
    if r.Success? {
      var b := buffer[position];
      if b >= 0x80 {
        var g' := g * 0x80 + b % 0x80;
        ContinuationStep(buffer, position, i, g, b, g');
        VarIntFromSound(buffer, position + 1, i + 1, g');
        ContinuationByte(buffer, position, r.value.next, g);
      } else {
        assert buffer[position..position + 1] == [b];
      }
    }
  }

  /** `readVarInt` decodes every well-formed quantity lying inside the view. */
  lemma {:induction false} VarIntFromComplete(buffer: seq<byte>, position: int, i: nat, g: nat, s: seq<byte>)
    requires IsVarIntEncoding(s) && i + |s| <= 4 && g < Pow128(i)
    requires 0 <= position && position + |s| <= |buffer| && buffer[position..position + |s|] == s
    ensures var r := VarIntFrom(buffer, position, i, g * 0x80);
      r.Success? && r.value.value == Groups(g, s) && r.value.next == position + |s|
    decreases |s|
  {
    if |s| > 1 {
      var b, g', tail := s[0], g * 0x80 + s[0] % 0x80, s[1..];
      EncodingTail(buffer, position, s);
      assert Groups(g, s) == Groups(g', tail);
      ContinuationStep(buffer, position, i, g, b, g');
      VarIntFromComplete(buffer, position + 1, i + 1, g', tail);
    } else {
      LastByte(buffer, position, i, g, s);
    }
  }

  /** A quantity of several bytes held in the buffer is a continuation
    * byte followed by a shorter quantity. */
  lemma EncodingTail(buffer: seq<byte>, position: int, s: seq<byte>)
    requires IsVarIntEncoding(s) && |s| > 1
    requires 0 <= position && position + |s| <= |buffer| && buffer[position..position + |s|] == s
    ensures buffer[position] == s[0] && s[0] >= 0x80
    ensures IsVarIntEncoding(s[1..]) && buffer[position + 1..position + 1 + |s[1..]|] == s[1..]
  {
    assert buffer[position] == buffer[position..position + |s|][0];
    assert buffer[position + 1..position + 1 + |s[1..]|] == buffer[position..position + |s|][1..];
  }

  /** A one-byte quantity is its group after the groups gathered. */
  lemma LastByte(buffer: seq<byte>, position: int, i: nat, g: nat, s: seq<byte>)
    requires IsVarIntEncoding(s) && |s| == 1 && i < 4
    requires 0 <= position < |buffer| && buffer[position] == s[0]
    ensures var r := VarIntFrom(buffer, position, i, g * 0x80);
      r.Success? && r.value.value == Groups(g, s) && r.value.next == position + 1
  {
    var b := s[0];
    VarIntFromStops(buffer, position, i, g * 0x80, b);
    assert Groups(g, s) == Groups(g * 0x80 + b % 0x80, []);
  }

  /** The value `readVarInt` returns, and the bytes it consumes: a quantity
    * read is well formed and inside the view, its value is its groups, and
    * that value is below 2^28. */
  lemma VarIntSound(buffer: seq<byte>, position: int)
    ensures var r := VarInt(buffer, position);
      r.Success? ==>
        0 <= position < r.value.next <= |buffer| && r.value.next - position <= 4 &&
        IsVarIntEncoding(buffer[position..r.value.next]) &&
        r.value.value == Groups(0, buffer[position..r.value.next]) &&
        0 <= r.value.value < 0x1000_0000
  {
    VarIntFromSound(buffer, position, 0, 0);
    var r := VarInt(buffer, position);
    if r.Success? {
      var s := buffer[position..r.value.next];
      GroupsBound(0, s);
      Pow128AtMost4(|s|);
    }
  }

  lemma Pow128AtMost4(n: nat)
    requires n <= 4
    ensures Pow128(n) <= 0x1000_0000
  {
    if n == 4 {
      assert Pow128(4) == 0x1000_0000;
    } else if n == 3 {
      assert Pow128(3) == 0x20_0000;
    } else if n == 2 {
      assert Pow128(2) == 0x4000;
    } else if n == 1 {
      assert Pow128(1) == 0x80;
    }
  }

  /** `readVarInt` decodes every well-formed quantity lying inside the
    * view, to its groups, consuming exactly its bytes. */
  lemma VarIntComplete(buffer: seq<byte>, position: int, s: seq<byte>)
    requires IsVarIntEncoding(s) && 0 <= position && position + |s| <= |buffer|
    requires buffer[position..position + |s|] == s
    ensures VarInt(buffer, position) == Success(Read(Groups(0, s), position + |s|))
  {
    VarIntFromComplete(buffer, position, 0, 0, s);
    ReadIs(VarInt(buffer, position), Groups(0, s), position + |s|);
  }

  lemma ReadIs<T>(r: Result<Read<T>>, value: T, next: int)
    requires r.Success? && r.value.value == value && r.value.next == next
    ensures r == Success(Read(value, next))
  {
  }

  /** A quantity read consumes one to four bytes inside the buffer and is
    * below 2^28. */
  lemma VarIntBounds(buffer: seq<byte>, position: int)
    ensures var r := VarInt(buffer, position);
      r.Success? ==> 0 <= position < r.value.next <= |buffer| && 0 <= r.value.value < 0x1000_0000
  {
    VarIntSound(buffer, position);
  }

  /** Four bytes in a row with bit 7 set make `readVarInt` fail. */
  lemma VarIntTooLong(buffer: seq<byte>, position: int)
    requires 0 <= position && position + 4 <= |buffer|
    requires forall j :: position <= j < position + 4 ==> buffer[j] >= 0x80
    ensures VarInt(buffer, position).Failure?
  {
    var v1 := ShiftLeft(buffer[position] % 0x80, 7);
    var v2 := ShiftLeft(v1 + buffer[position + 1] % 0x80, 7);
    var v3 := ShiftLeft(v2 + buffer[position + 2] % 0x80, 7);
    var v4 := ShiftLeft(v3 + buffer[position + 3] % 0x80, 7);
    assert VarIntFrom(buffer, position + 4, 4, v4).Failure?;
    assert VarIntFrom(buffer, position + 3, 3, v3).Failure?;
    assert VarIntFrom(buffer, position + 2, 2, v2).Failure?;
    assert VarIntFrom(buffer, position + 1, 1, v1).Failure?;
  }

  /** The read cursor. `buffer` is the DataView's visible bytes and
    * `byteOffset` the view's offset inside its ArrayBuffer. */
  class Stream {
    var position: int
    const buffer: seq<byte>
    const byteOffset: nat

    constructor(startAt: int, buffer: seq<byte>, byteOffset: nat)
      ensures position == startAt && this.buffer == buffer && this.byteOffset == byteOffset
    {
      position := startAt;
      this.buffer := buffer;
      this.byteOffset := byteOffset;
    }

    method GetPosition() returns (p: int)
      ensures p == position
    {
      p := position;
    }

    /** Reads one byte and advances by exactly one; fails, without moving,
      * outside the view. */
    method ReadUint8() returns (r: Result<byte>)
      modifies this
      ensures Agrees(r, ByteAt(buffer, old(position)), position)
      ensures r.Success? <==> 0 <= old(position) < |buffer|
      ensures r.Failure? ==> position == old(position)
    {
      if 0 <= position < |buffer| {
        r := Success(buffer[position]);
        position := position + 1;
      } else {
        r := Failure(OffsetOutOfView);
      }
    }

    method ReadVarInt() returns (r: Result<int>)
      modifies this
      ensures Agrees(r, VarInt(buffer, old(position)), position)
    {
      var varInt := 0;
      for i := 0 to 4
        invariant VarIntFrom(buffer, position, i, varInt) == VarInt(buffer, old(position))
      {
        ghost var p := position;
        var uint8 := ReadUint8();
        if uint8.Failure? {
          return Failure(uint8.error);
        }
        assert uint8.value == buffer[p] && position == p + 1;
        if uint8.value >= 0x80 {
          ghost var v := varInt;
          varInt := varInt + uint8.value % 0x80;
          ghost var sum := varInt;
          varInt := ShiftLeft(varInt, 7);
          VarIntFromContinues(buffer, p, i, v, uint8.value, sum, position, varInt);
        } else {
          VarIntFromStops(buffer, p, i, varInt, uint8.value);
          return Success(varInt + uint8.value);
        }
      }
      return Failure(VarIntTooManyBytes);
    }

    method ReadBytes(length: int) returns (r: Result<seq<byte>>)
      modifies this
      ensures Agrees(r, BytesFrom(buffer, old(position), length), position)
    {
      ghost var start := position;
      var bytes: seq<byte> := [];
      var i := length;
      while i > 0
        invariant length <= 0 ==> i == length && position == start && bytes == []
        invariant length > 0 ==> 0 <= i <= length && position == start + (length - i)
        invariant i < length ==> 0 <= start && position <= |buffer| && bytes == buffer[start..position]
        invariant i == length ==> bytes == []
      {
        ghost var p := position;
        var b := ReadUint8();
        if b.Failure? {
          return Failure(b.error);
        }
        assert b.value == buffer[p] && position == p + 1;
        assert buffer[start..position] == buffer[start..p] + [buffer[p]];
        bytes := bytes + [b.value];
        i := i - 1;
      }
      return Success(bytes);
    }

    /** The absolute offset of the cursor inside the ArrayBuffer; the
      * source renders it in hexadecimal for messages and event indices. */
    method Pos() returns (p: int)
      ensures p == byteOffset + position
    {
      p := byteOffset + position;
    }

    method End() returns (atEnd: bool)
      ensures atEnd <==> position == |buffer|
    {
      atEnd := position == |buffer|;
    }
  }
}
