/** The header chunk of a Standard MIDI File ("MThd", Standard MIDI Files
  * 1.0, "Header Chunks"), read and edited in place through a DataView over
  * the first 14 bytes of an ArrayBuffer: the chunk type, the chunk length
  * 6, the format word, the track count and the division word. The division
  * word holds ticks per beat when bit 15 is clear, and SMPTE frames per
  * second (bits 8-14) and ticks per frame (bits 0-7) when it is set. */
module FileHeader {
  import opened Wrappers
  import opened Errors
  import opened Bits

  const HEADER_LENGTH: int := 14
  const FRAMES_PER_SECONDS: int := 1
  const TICKS_PER_BEAT: int := 2

  /** "MThd" followed by the chunk length 6 as a big-endian uint32. */
  const HEADER_PREFIX: seq<byte> := [0x4D, 0x54, 0x68, 0x64, 0x00, 0x00, 0x00, 0x06]

  /** The bytes `withoutBuffer` writes: the prefix, format 1, one track and
    * a division of 192 ticks per beat. */
  const NEW_HEADER: seq<byte> := [0x4D, 0x54, 0x68, 0x64, 0x00, 0x00, 0x00, 0x06, 0x00, 0x01, 0x00, 0x01, 0x00, 0xC0]

  /** The SMPTE frame rates a division may name; 29 stands for 29.97. */
  predicate IsSmpteFrames(frames: int) {
    frames == 24 || frames == 25 || frames == 29 || frames == 30
  }

  // ---------------------------------------------------------------
  // The header as bytes

  /** `getUint16(k)`. */
  function Uint16At(b: seq<byte>, k: nat): (r: nat)
    requires k + 1 < |b|
    ensures r < TWO_16
  {
    BigEndian16(b[k], b[k + 1])
  }

  /** `setUint16(k, v)`: `v` modulo 2^16, most significant byte first at
    * `k`; no other byte changes. */
  function WithUint16(b: seq<byte>, k: nat, v: int): (r: seq<byte>)
    requires k + 1 < |b|
    ensures |r| == |b| && Uint16At(r, k) == v % TWO_16
    ensures forall i :: 0 <= i < |b| && i != k && i != k + 1 ==> r[i] == b[i]
  {
    var w := Uint16Bytes(v);
    b[k := w[0]][k + 1 := w[1]]
  }

  /** The checks of `fromBuffer`. A buffer shorter than 14 bytes makes the
    * DataView constructor throw a RangeError. */
  function HeaderCheck(b: seq<byte>): Outcome {
    if |b| < HEADER_LENGTH then Fail(OffsetOutOfView)
    else if !(b[0] == 0x4D && b[1] == 0x54 && b[2] == 0x68 && b[3] == 0x64) then
      Fail(HeaderPrefixMissing)
    else if BigEndian32(b[4], b[5], b[6], b[7]) != 6 then Fail(HeaderLengthNotSix)
    else Pass
  }

  /** `getFormat`. */
  function FormatOf(b: seq<byte>): Result<int>
    requires |b| >= HEADER_LENGTH
  {
    var format := Uint16At(b, 8);
    if format != 0 && format != 1 && format != 2 then Failure(InvalidFormat)
    else Success(format)
  }

  /** `getTracksCount`. */
  function TracksCountOf(b: seq<byte>): nat
    requires |b| >= HEADER_LENGTH
  {
    Uint16At(b, 10)
  }

  function DivisionWord(b: seq<byte>): nat
    requires |b| >= HEADER_LENGTH
  {
    Uint16At(b, 12)
  }

  /** `divisionWord & 0x8000`, the test every division getter starts with. */
  predicate IsFramesPerSecond(b: seq<byte>)
    requires |b| >= HEADER_LENGTH
  {
    JsAnd(DivisionWord(b), 0x8000) != 0
  }

  /** `getTimeDivision`. */
  function TimeDivisionOf(b: seq<byte>): int
    requires |b| >= HEADER_LENGTH
  {
    if IsFramesPerSecond(b) then FRAMES_PER_SECONDS else TICKS_PER_BEAT
  }

  /** `getTicksPerBeat`. */
  function TicksPerBeatOf(b: seq<byte>): Result<int>
    requires |b| >= HEADER_LENGTH
  {
    if IsFramesPerSecond(b) then Failure(NotTicksPerBeat)
    else Success(DivisionWord(b))
  }

  /** `getSMPTEFrames` as written: the frames are taken as
    * `divisionWord & 0x7F00`, without shifting them down by 8. */
  function SmpteFramesOf(b: seq<byte>): Result<int>
    requires |b| >= HEADER_LENGTH
  {
    if !IsFramesPerSecond(b) then Failure(NotFramesPerSecond)
    else
      var frames := JsAnd(DivisionWord(b), 0x7F00);
      if !IsSmpteFrames(frames) then Failure(InvalidSmpteFrames)
      else Success(frames)
  }

  /** `getSMPTEFrames` with the frames shifted down into the low byte,
    * `(divisionWord & 0x7F00) >> 8`. The 29.97 reading of 29 is left to
    * the caller. */
  function SmpteFramesFixed(b: seq<byte>): Result<int>
    requires |b| >= HEADER_LENGTH
  {
    if !IsFramesPerSecond(b) then Failure(NotFramesPerSecond)
    else
      var frames := ShiftRight(JsAnd(DivisionWord(b), 0x7F00), 8);
      if !IsSmpteFrames(frames) then Failure(InvalidSmpteFrames)
      else Success(frames)
  }

  /** `getTicksPerFrame`. */
  function TicksPerFrameOf(b: seq<byte>): Result<int>
    requires |b| >= HEADER_LENGTH
  {
    if !IsFramesPerSecond(b) then Failure(NotFramesPerSecond)
    else Success(JsAnd(DivisionWord(b), 0x00FF))
  }

  /** `setSMTPEDivision` on integral arguments: the frame rate must be one
    * of 24, 25, 29, 30 and the ticks must fit a byte; `0x80 | frames` sets
    * bit 7 above a rate that is below 0x80. */
  function WithSmpteDivision(b: seq<byte>, frames: int, ticks: int): Result<seq<byte>>
    requires |b| >= HEADER_LENGTH
  {
    if !IsSmpteFrames(frames) then Failure(InvalidSmpteFramesGiven)
    else if ticks < 0 || 0xFF < ticks then Failure(InvalidTicksPerFrame)
    else Success(b[12 := 0x80 + frames][13 := ticks])
  }

  /** `getTickResolution` as far as it can fail. The resolution itself is
    * a floating-point quotient and is not modelled: a frames-per-second
    * division multiplies `getSMPTEFrames()` by the ticks per frame, and a
    * ticks-per-beat division divides the tempo by the ticks per beat,
    * which cannot throw. */
  function TickResolutionCheck(b: seq<byte>): Outcome
    requires |b| >= HEADER_LENGTH
  {
    if IsFramesPerSecond(b) then
      match SmpteFramesOf(b)
      case Failure(e) => Fail(e)
      case Success(_) => Pass
    else Pass
  }

  // ---------------------------------------------------------------
  // Properties

  /** The masks of the division word act on its two bytes: bit 15 is bit 7
    * of the high byte, `& 0x00FF` is the low byte and `& 0x7F00` keeps the
    * low seven bits of the high byte in place. */
  lemma DivisionMasks(hi: byte, lo: byte)
    ensures JsAnd(BigEndian16(hi, lo), 0x8000) == (if hi >= 0x80 then 0x8000 else 0)
    ensures JsAnd(BigEndian16(hi, lo), 0x00FF) == lo
    ensures JsAnd(BigEndian16(hi, lo), 0x7F00) == (hi % 0x80) * 0x100
  {
    var w := BigEndian16(hi, lo);
    DivisionBit15(w, hi, lo);
    DivisionLowByte(w, lo);
    DivisionHighMask(w, hi);
  }

  lemma DivisionBit15(w: nat, hi: byte, lo: byte)
    requires w == BigEndian16(hi, lo)
    ensures BitAnd(w, 0x8000) == (if hi >= 0x80 then 0x8000 else 0)
  {
    Pow2Table();
    BitAndPow2(w, 15);
    var q, rest := hi / 0x80, (hi % 0x80) * 0x100 + lo;
    assert hi == q * 0x80 + hi % 0x80;
    assert w == q * 0x8000 + rest;
    ModUnique(w, 0x8000, q, rest);
    assert q == (if hi >= 0x80 then 1 else 0);
  }

  lemma DivisionLowByte(w: nat, lo: byte)
    requires w % 0x100 == lo
    ensures BitAnd(w, 0xFF) == lo
  {
    assert IsPowerOfTwo(0x100);
    BitAndLowMask(w, 0x100);
  }

  lemma DivisionHighMask(w: nat, hi: byte)
    requires w / 0x100 == hi
    ensures BitAnd(w, 0x7F00) == (hi % 0x80) * 0x100
  {
    var w1 := w / 2;
    var w2 := w1 / 2;
    var w3 := w2 / 2;
    var w4 := w3 / 2;
    var w5 := w4 / 2;
    var w6 := w5 / 2;
    var w7 := w6 / 2;
    BitAndEven(w, 0x3F80);
    BitAndEven(w1, 0x1FC0);
    BitAndEven(w2, 0xFE0);
    BitAndEven(w3, 0x7F0);
    BitAndEven(w4, 0x3F8);
    BitAndEven(w5, 0x1FC);
    BitAndEven(w6, 0xFE);
    BitAndEven(w7, 0x7F);
    assert BitAnd(w, 0x7F00) == 0x100 * BitAnd(w7 / 2, 0x7F);
    assert w7 / 2 == hi;
    LowBits(hi);
  }

  /** The checks of `fromBuffer` pass exactly for a buffer of at least 14
    * bytes that starts with "MThd" and the chunk length 6. */
  lemma HeaderCheckPrefix(b: seq<byte>)
    ensures HeaderCheck(b) == Pass <==> |b| >= HEADER_LENGTH && b[..8] == HEADER_PREFIX
  {
    if |b| >= HEADER_LENGTH {
      var v := BigEndian32(b[4], b[5], b[6], b[7]);
      if v == 6 {
        assert v == ((b[4] * TWO_8 + b[5]) * TWO_8 + b[6]) * TWO_8 + b[7];
        assert b[4] == 0 && b[5] == 0 && b[6] == 0 && b[7] == 6;
      }
      if b[..8] == HEADER_PREFIX {
        assert b[4] == 0 && b[5] == 0 && b[6] == 0 && b[7] == 6;
      }
    }
  }

  /** The header `withoutBuffer` writes passes the checks of `fromBuffer`
    * and reads as format 1, one track, 192 ticks per beat. */
  lemma NewHeaderReads()
    ensures HeaderCheck(NEW_HEADER) == Pass
    ensures FormatOf(NEW_HEADER) == Success(1) && TracksCountOf(NEW_HEADER) == 1
    ensures TimeDivisionOf(NEW_HEADER) == TICKS_PER_BEAT && TicksPerBeatOf(NEW_HEADER) == Success(192)
  {
    HeaderCheckPrefix(NEW_HEADER);
    assert NEW_HEADER[..8] == HEADER_PREFIX;
    assert Uint16At(NEW_HEADER, 8) == 1 && Uint16At(NEW_HEADER, 10) == 1;
    DivisionMasks(0x00, 0xC0);
  }

  /** The division getters by the bytes of the division word: bit 7 of byte
    * 12 chooses between ticks per beat (the whole word) and frames per
    * second (the ticks per frame in byte 13). */
  lemma DivisionGetters(b: seq<byte>)
    requires |b| >= HEADER_LENGTH
    ensures IsFramesPerSecond(b) <==> b[12] >= 0x80
    ensures TimeDivisionOf(b) == if b[12] >= 0x80 then FRAMES_PER_SECONDS else TICKS_PER_BEAT
    ensures b[12] < 0x80 ==> TicksPerBeatOf(b) == Success(BigEndian16(b[12], b[13]))
    ensures TicksPerBeatOf(b).Success? <==> b[12] < 0x80
    ensures b[12] >= 0x80 ==> TicksPerFrameOf(b) == Success(b[13] as int)
    ensures TicksPerFrameOf(b).Success? <==> b[12] >= 0x80
  {
    DivisionMasks(b[12], b[13]);
  }

  /** As written, `getSMPTEFrames` never succeeds: `divisionWord & 0x7F00`
    * is a multiple of 256, never one of 24, 25, 29 or 30. */
  lemma SmpteFramesNeverRead(b: seq<byte>)
    requires |b| >= HEADER_LENGTH
    ensures SmpteFramesOf(b).Failure?
  {
    DivisionMasks(b[12], b[13]);
  }

  /** Since `getSMPTEFrames` never succeeds, the tick resolution can be
    * computed exactly when the division is in ticks per beat. */
  lemma TickResolutionFails(b: seq<byte>)
    requires |b| >= HEADER_LENGTH
    ensures TickResolutionCheck(b).Fail? <==> IsFramesPerSecond(b)
  {
    SmpteFramesNeverRead(b);
  }

  /** Corrected: after `setSMTPEDivision(frames, ticks)` the shifted getter
    * reads the frame rate back, the ticks per frame read back, the division
    * is frames per second, and the header's other bytes are unchanged;
    * the getter as written still fails on the same bytes. */
  lemma SmpteDivisionRoundTrip(b: seq<byte>, frames: int, ticks: int)
    requires |b| >= HEADER_LENGTH
    ensures WithSmpteDivision(b, frames, ticks).Success? <==> IsSmpteFrames(frames) && 0 <= ticks <= 0xFF
    ensures WithSmpteDivision(b, frames, ticks).Success? ==>
      var b' := WithSmpteDivision(b, frames, ticks).value;
      |b'| == |b| && b'[..12] == b[..12] && b'[14..] == b[14..] &&
      SmpteFramesFixed(b') == Success(frames) && TicksPerFrameOf(b') == Success(ticks) &&
      TimeDivisionOf(b') == FRAMES_PER_SECONDS && SmpteFramesOf(b').Failure?
  {
    if IsSmpteFrames(frames) && 0 <= ticks <= 0xFF {
      var b' := b[12 := 0x80 + frames][13 := ticks];
      DivisionMasks(b'[12], b'[13]);
      Pow2Table();
      assert JsAnd(DivisionWord(b'), 0x7F00) == frames * 0x100;
      assert ShiftRight(frames * 0x100, 8) == frames;
    }
  }

  /** `setFormat(f)` for an accepted `f` reads back through `getFormat`. */
  lemma FormatRoundTrip(b: seq<byte>, f: int)
    requires |b| >= HEADER_LENGTH && (f == 0 || f == 1 || f == 2)
    ensures FormatOf(WithUint16(b, 8, f)) == Success(f)
  {
    var bf := WithUint16(b, 8, f);
    assert f % TWO_16 == f;
    assert Uint16At(bf, 8) == f;
  }

  /** `setTracksCount(n)` reads back as `n` modulo 2^16. */
  lemma TracksCountRoundTrip(b: seq<byte>, n: int)
    requires |b| >= HEADER_LENGTH
    ensures TracksCountOf(WithUint16(b, 10, n)) == n % TWO_16
  {
  }

  /** `setTicksPerBeat(t)` reads back as ticks per beat, `t` modulo 2^15. */
  lemma TicksPerBeatRoundTrip(b: seq<byte>, t: int)
    requires |b| >= HEADER_LENGTH
    ensures TicksPerBeatOf(WithUint16(b, 12, JsAnd(t, 0x7FFF))) == Success(t % 0x8000)
  {
    TicksMask(t);
    var b' := WithUint16(b, 12, t % 0x8000);
    DivisionGetters(b');
  }

  /** `t & 0x7FFF` is `t` modulo 2^15, for every integer `t`. */
  lemma TicksMask(t: int)
    ensures JsAnd(t, 0x7FFF) == t % 0x8000
  {
    var u := ToUint32(t);
    assert IsPowerOfTwo(0x8000);
    BitAndLowMask(u, 0x8000);
    var q1, q2 := t / TWO_32, u / 0x8000;
    assert t == q1 * TWO_32 + u;
    assert u == q2 * 0x8000 + u % 0x8000;
    assert q1 * TWO_32 == (q1 * 0x2_0000) * 0x8000;
    assert t == (q1 * 0x2_0000 + q2) * 0x8000 + u % 0x8000;
    ModUnique(t, 0x8000, q1 * 0x2_0000 + q2, u % 0x8000);
  }

  // ---------------------------------------------------------------
  // The header object

  /** A header over the DataView `datas[0..14]`; the setters write through
    * to the buffer, which the caller shares. */
  class MidiFileHeader {
    const datas: array<byte>

    ghost predicate Valid()
      reads this
    {
      datas.Length >= HEADER_LENGTH
    }

    constructor (datas: array<byte>)
      requires datas.Length >= HEADER_LENGTH
      ensures this.datas == datas && Valid()
    {
      this.datas := datas;
    }

    /** `withoutBuffer`: a fresh 14-byte header. */
    static method WithoutBuffer() returns (h: MidiFileHeader)
      ensures fresh(h) && fresh(h.datas) && h.Valid() && h.datas[..] == NEW_HEADER
    {
      var a := new byte[HEADER_LENGTH];
      a[0], a[1], a[2], a[3] := 0x4D, 0x54, 0x68, 0x64;
      a[4], a[5], a[6], a[7] := 0x00, 0x00, 0x00, 0x06;
      a[8], a[9] := 0x00, 0x01;
      a[10], a[11] := 0x00, 0x01;
      a[12], a[13] := 0x00, 0xC0;
      assert a[..] == NEW_HEADER;
      h := new MidiFileHeader(a);
    }

    /** `fromBuffer`: a header over the given buffer when its checks pass. */
    static method FromBuffer(buffer: array<byte>) returns (r: Result<MidiFileHeader>)
      ensures HeaderCheck(buffer[..]).Pass? ==> r.Success? && r.value.datas == buffer && r.value.Valid()
      ensures HeaderCheck(buffer[..]).Fail? ==> r == Failure(HeaderCheck(buffer[..]).error)
    {
      if buffer.Length < HEADER_LENGTH {
        return Failure(OffsetOutOfView);
      }
      if !(buffer[0] == 0x4D && buffer[1] == 0x54 && buffer[2] == 0x68 && buffer[3] == 0x64) {
        return Failure(HeaderPrefixMissing);
      }
      if BigEndian32(buffer[4], buffer[5], buffer[6], buffer[7]) != 6 {
        return Failure(HeaderLengthNotSix);
      }
      var h := new MidiFileHeader(buffer);
      return Success(h);
    }

    method GetFormat() returns (r: Result<int>)
      requires Valid()
      ensures r == FormatOf(datas[..])
    {
      var format := BigEndian16(datas[8], datas[9]);
      if format != 0 && format != 1 && format != 2 {
        return Failure(InvalidFormat);
      }
      return Success(format);
    }

    method SetFormat(format: int) returns (r: Outcome)
      requires Valid()
      modifies datas
      ensures r.Pass? <==> format == 0 || format == 1 || format == 2
      ensures datas[..] == if r.Pass? then WithUint16(old(datas[..]), 8, format) else old(datas[..])
    {
      if format != 0 && format != 1 && format != 2 {
        return Fail(InvalidFormatGiven);
      }
      SetUint16(8, format);
      return Pass;
    }

    method GetTracksCount() returns (count: nat)
      requires Valid()
      ensures count == TracksCountOf(datas[..])
    {
      count := BigEndian16(datas[10], datas[11]);
    }

    method SetTracksCount(count: int)
      requires Valid()
      modifies datas
      ensures datas[..] == WithUint16(old(datas[..]), 10, count)
    {
      SetUint16(10, count);
    }

    method GetTimeDivision() returns (division: int)
      requires Valid()
      ensures division == TimeDivisionOf(datas[..])
    {
      var word := BigEndian16(datas[12], datas[13]);
      if JsAnd(word, 0x8000) != 0 {
        return FRAMES_PER_SECONDS;
      }
      return TICKS_PER_BEAT;
    }

    method GetTicksPerBeat() returns (r: Result<int>)
      requires Valid()
      ensures r == TicksPerBeatOf(datas[..])
    {
      var divisionWord := BigEndian16(datas[12], datas[13]);
      if JsAnd(divisionWord, 0x8000) != 0 {
        return Failure(NotTicksPerBeat);
      }
      return Success(divisionWord);
    }

    method SetTicksPerBeat(ticksPerBeat: int)
      requires Valid()
      modifies datas
      ensures datas[..] == WithUint16(old(datas[..]), 12, JsAnd(ticksPerBeat, 0x7FFF))
    {
      SetUint16(12, JsAnd(ticksPerBeat, 0x7FFF));
    }

    method GetSmpteFrames() returns (r: Result<int>)
      requires Valid()
      ensures r == SmpteFramesOf(datas[..])
    {
      var divisionWord := BigEndian16(datas[12], datas[13]);
      if JsAnd(divisionWord, 0x8000) == 0 {
        return Failure(NotFramesPerSecond);
      }
      var smpteFrames := JsAnd(divisionWord, 0x7F00);
      if !IsSmpteFrames(smpteFrames) {
        return Failure(InvalidSmpteFrames);
      }
      return Success(smpteFrames);
    }

    method GetTicksPerFrame() returns (r: Result<int>)
      requires Valid()
      ensures r == TicksPerFrameOf(datas[..])
    {
      var divisionWord := BigEndian16(datas[12], datas[13]);
      if JsAnd(divisionWord, 0x8000) == 0 {
        return Failure(NotFramesPerSecond);
      }
      return Success(JsAnd(divisionWord, 0x00FF));
    }

    method SetSmpteDivision(smpteFrames: int, ticksPerFrame: int) returns (r: Outcome)
      requires Valid()
      modifies datas
      ensures var s := WithSmpteDivision(old(datas[..]), smpteFrames, ticksPerFrame);
        (r.Pass? <==> s.Success?) && datas[..] == if s.Success? then s.value else old(datas[..])
    {
      if !IsSmpteFrames(smpteFrames) {
        return Fail(InvalidSmpteFramesGiven);
      }
      if ticksPerFrame < 0 || 0xFF < ticksPerFrame {
        return Fail(InvalidTicksPerFrame);
      }
      datas[12] := 0x80 + smpteFrames;
      datas[13] := ticksPerFrame;
      return Pass;
    }

    /** `getTickResolution`, for whether it throws. */
    method GetTickResolution() returns (o: Outcome)
      requires Valid()
      ensures o == TickResolutionCheck(datas[..])
    {
      var divisionWord := BigEndian16(datas[12], datas[13]);
      if JsAnd(divisionWord, 0x8000) != 0 {
        var frames := GetSmpteFrames();
        if frames.Failure? {
          return Fail(frames.error);
        }
        var _ := GetTicksPerFrame();
      }
      return Pass;
    }

    /** `DataView.setUint16`. */
    method SetUint16(k: nat, v: int)
      requires Valid() && k + 1 < HEADER_LENGTH
      modifies datas
      ensures datas[..] == WithUint16(old(datas[..]), k, v)
    {
      var w := Uint16Bytes(v);
      datas[k] := w[0];
      datas[k + 1] := w[1];
    }
  }
}
