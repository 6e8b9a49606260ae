/** How the event writer, the size calculator and the decoder fit
  * together: variable-length quantities and channel, tempo, text and
  * end-of-track events read back as written, and the calculator predicts
  * the writer's output for channel and meta events. Two places where they
  * do not fit (the byte order of sequence numbers, the missing header of
  * system exclusive events) are exhibited, each beside a corrected encoding
  * proved to fit. */
module CodecLaws {
  import opened Wrappers
  import opened Errors
  import opened Bits
  import opened MidiEvents
  import opened ByteStream
  import opened MidiParser
  import opened TrackWriter
  import opened RequiredLength

  /** The buffer holds, from `position` on, what a Uint8Array stores for
    * the values `w` (each modulo 256). */
  predicate Holds(buffer: seq<byte>, position: int, w: seq<int>) {
    0 <= position && position + |w| <= |buffer| &&
    forall k :: 0 <= k < |w| ==> buffer[position + k] == ToUint8(w[k])
  }

  /** Every value is a byte, so a Uint8Array stores it unchanged. */
  predicate IsBytes(w: seq<int>) {
    forall k :: 0 <= k < |w| ==> 0 <= w[k] < 0x100
  }

  lemma HoldsSplit(buffer: seq<byte>, position: int, a: seq<int>, b: seq<int>)
    requires Holds(buffer, position, a + b)
    ensures Holds(buffer, position, a) && Holds(buffer, position + |a|, b)
  {
    forall k | 0 <= k < |b|
      ensures buffer[position + |a| + k] == ToUint8(b[k])
    {
      assert (a + b)[|a| + k] == b[k];
    }
    forall k | 0 <= k < |a|
      ensures buffer[position + k] == ToUint8(a[k])
    {
      assert (a + b)[k] == a[k];
    }
  }

  /** Bytes held in the buffer are the slice of the buffer there. */
  lemma HoldsSlice(buffer: seq<byte>, position: int, w: seq<int>)
    requires Holds(buffer, position, w) && IsBytes(w)
    ensures buffer[position..position + |w|] == w
  {
    assert forall k :: 0 <= k < |w| ==> buffer[position..position + |w|][k] == w[k];
  }

  // ---------------------------------------------------------------
  // Variable-length quantities

  /** Below 2^28 the writer's shifts are plain divisions. */
  lemma QuantityShifts(v: int)
    requires 0 <= v < 0x1000_0000
    ensures ToUint32(v) == v
    ensures UnsignedShiftRight(v, 21) == v / 0x20_0000
    ensures UnsignedShiftRight(v, 14) == v / 0x4000
    ensures UnsignedShiftRight(v, 7) == v / 0x80
  {
    WriterShifts(v);
  }

  /** The writer's shifts `>>> 21`, `>>> 14` and `>>> 7` divide the
    * number taken modulo 2^32. */
  lemma WriterShifts(v: int)
    ensures UnsignedShiftRight(v, 21) == ToUint32(v) / 0x20_0000
    ensures UnsignedShiftRight(v, 14) == ToUint32(v) / 0x4000
    ensures UnsignedShiftRight(v, 7) == ToUint32(v) / 0x80
  {
    Pow2Table();
  }

  /** The quantity bytes of `v` below 2^28 by magnitude, in terms of its
    * base-128 digits `a b c d`. */
  lemma VarLengthBytesForm(v: int, a: int, b: int, c: int, d: int)
    requires 0 <= a < 0x80 && 0 <= b < 0x80 && 0 <= c < 0x80 && 0 <= d < 0x80
    requires v == ((a * 0x80 + b) * 0x80 + c) * 0x80 + d
    ensures VarLengthBytes(v) ==
        if a != 0 then [a + 0x80, b + 0x80, c + 0x80, d]
        else if b != 0 then [b + 0x80, c + 0x80, d]
        else if c != 0 then [c + 0x80, d]
        else [d]
  {
    var x7, x14 := (a * 0x80 + b) * 0x80 + c, a * 0x80 + b;
    QuantityDigits(v, a, b, c, d, x7, x14);
    var low := Continuation(x7) + [d];
    if a != 0 || b != 0 || c != 0 {
      assert low == [c + 0x80, d];
    } else {
      assert low == [d];
    }
    var mid := Continuation(x14) + low;
    if a == 0 && b == 0 {
      assert mid == low;
    } else {
      assert mid == [b + 0x80] + low;
    }
    if a == 0 {
      assert Continuation(a) == [];
    } else {
      assert Continuation(a) == [a + 0x80];
    }
    assert VarLengthBytes(v) == Continuation(a) + mid;
  }

  /** The writer's shifts of `v` below 2^28 pick its base-128 digits. */
  lemma QuantityDigits(v: int, a: int, b: int, c: int, d: int, x7: int, x14: int)
    requires 0 <= a < 0x80 && 0 <= b < 0x80 && 0 <= c < 0x80 && 0 <= d < 0x80
    requires x14 == a * 0x80 + b && x7 == x14 * 0x80 + c && v == x7 * 0x80 + d
    ensures ToUint32(v) % 0x80 == d
    ensures UnsignedShiftRight(v, 7) == x7 && x7 % 0x80 == c
    ensures UnsignedShiftRight(v, 14) == x14 && x14 % 0x80 == b
    ensures UnsignedShiftRight(v, 21) == a
  {
    QuantityShifts(v);
    ModUnique(v, 0x80, x7, d);
    ModUnique(v, 0x4000, x14, c * 0x80 + d);
    ModUnique(v, 0x20_0000, a, (b * 0x80 + c) * 0x80 + d);
    ModUnique(x7, 0x80, x14, c);
    ModUnique(x14, 0x80, a, b);
  }

  /** Round trip: a buffer holding the bytes the writer pushes for a
    * quantity below 2^28 reads back that quantity, and the read ends just
    * after them. */
  lemma VarLengthRoundTrip(v: int, buffer: seq<byte>, position: int, next: int)
    requires 0 <= v < 0x1000_0000 && Holds(buffer, position, VarLengthBytes(v))
    requires next == position + |VarLengthBytes(v)|
    ensures WriteVarLength(v) == Pushes(VarLengthBytes(v))
    ensures VarInt(buffer, position) == Success(Read(v, next))
  {
    WriteVarLengthThrows(v);
    var w := VarLengthBytes(v);
    var s := buffer[position..position + |w|];
    QuantityBytes(v);
    HoldsSlice(buffer, position, w);
    QuantityGroups(v, s);
    VarIntComplete(buffer, position, s);
    ReadIs(VarInt(buffer, position), v, next);
  }

  /** The quantity bytes are bytes. */
  lemma QuantityBytes(v: int)
    ensures IsBytes(VarLengthBytes(v))
  {
    var w := VarLengthBytes(v);
    assert forall k :: 0 <= k < |w| ==> 0 <= w[k] < 0x100;
  }

  /** The quantity bytes of `v` form an encoding whose groups are `v`. */
  lemma QuantityGroups(v: int, s: seq<byte>)
    requires 0 <= v < 0x1000_0000 && s == VarLengthBytes(v)
    ensures IsVarIntEncoding(s) && Groups(0, s) == v
  {
    var q1 := v / 0x80;
    var q2 := q1 / 0x80;
    var a := q2 / 0x80;
    var b, c, d := q2 % 0x80, q1 % 0x80, v % 0x80;
    assert v == q1 * 0x80 + d && q1 == q2 * 0x80 + c && q2 == a * 0x80 + b;
    VarLengthBytesForm(v, a, b, c, d);
    GroupsOfQuantity(s, a, b, c, d, v);
  }

  /** The four shapes of a quantity and the value of their groups. */
  lemma GroupsOfQuantity(s: seq<byte>, a: int, b: int, c: int, d: int, v: int)
    requires 0 <= a < 0x80 && 0 <= b < 0x80 && 0 <= c < 0x80 && 0 <= d < 0x80
    requires v == ((a * 0x80 + b) * 0x80 + c) * 0x80 + d
    requires s == [a + 0x80, b + 0x80, c + 0x80, d] ||
             (a == 0 && s == [b + 0x80, c + 0x80, d]) ||
             (a == 0 && b == 0 && s == [c + 0x80, d]) ||
             (a == 0 && b == 0 && c == 0 && s == [d])
    ensures IsVarIntEncoding(s) && Groups(0, s) == v
  {
    var tail1: seq<byte> := [d];
    var g1 := (a * 0x80 + b) * 0x80 + c;
    assert Groups(g1, tail1) == v by { assert tail1[1..] == []; }
    var tail2: seq<byte> := [c + 0x80, d];
    assert Groups(a * 0x80 + b, tail2) == v by { assert tail2[1..] == tail1; }
    var tail3: seq<byte> := [b + 0x80, c + 0x80, d];
    assert Groups(a, tail3) == v by { assert tail3[1..] == tail2; }
    if |s| == 4 {
      assert s[1..] == tail3;
    } else if |s| == 3 {
      assert s[1..] == tail2;
    } else if |s| == 2 {
      assert s[1..] == tail1;
    } else {
      assert s[1..] == [];
    }
  }

  /** The writer's quantity has the length the calculator predicts, for
    * every number. */
  lemma QuantityLengthMatches(v: int)
    ensures |VarLengthBytes(v)| == QuantityLength(v)
  {
    QuantityLengthThresholds(v);
    WriterShifts(v);
    var u := ToUint32(v);
    assert UnsignedShiftRight(v, 21) != 0 <==> u >= 0x20_0000;
    assert UnsignedShiftRight(v, 14) != 0 <==> u >= 0x4000;
    assert UnsignedShiftRight(v, 7) != 0 <==> u >= 0x80;
  }

  // ---------------------------------------------------------------
  // Channel events

  /** Channel events the writer and the decoder agree on: a channel below
    * 16, a known message type, byte parameters, and no Note On with
    * velocity 0 (which the decoder turns into a Note Off). */
  predicate ChannelEncodable(channel: int, s: ChannelSubevent) {
    0 <= channel < 0x10 && !s.ChannelUnknown? && IsBytes(ChannelParams(s)) &&
    !(s.NoteOn? && s.velocity == 0)
  }

  /** The status byte `(type << 4) + channel` of a known message type. */
  lemma ChannelStatus(channel: int, s: ChannelSubevent)
    requires ChannelEncodable(channel, s)
    ensures ChannelWrite(channel, s)[0] == ChannelType(s) * 0x10 + channel
    ensures 0x80 <= ChannelWrite(channel, s)[0] < 0xF0
  {
    var t := ChannelType(s);
    assert Pow2(4) == 0x10;
    assert ShiftLeft(t, 4) == t * 0x10;
  }

  /** The decoder's result `r` for event details is a success holding `d`,
    * ending at `next`, with running status `last`. */
  predicate DetailsDecoded(r: Result<Parsed>, d: EventDetails, next: int, last: Option<byte>) {
    r.Success? && r.value.details == d && r.value.next == next && r.value.last == last
  }

  /** The running status after decoding the written `d`: the status byte
    * of a channel message, else unchanged. */
  function StatusAfter(d: EventDetails, last: Option<byte>): Option<byte> {
    if d.ChannelDetails? then Some(ToUint8(ChannelWrite(d.channel, d.channelSubevent)[0])) else last
  }

  /** Round trip: a written channel event reads back as the same event,
    * the decoder stops just after it, and its status byte becomes the
    * running status. */
  lemma ChannelRoundTrip(buffer: seq<byte>, position: int, strict: bool, last: Option<byte>, channel: int, s: ChannelSubevent)
    requires ChannelEncodable(channel, s) && Holds(buffer, position, ChannelWrite(channel, s))
    ensures DetailsDecoded(EventDetailsAt(buffer, position, strict, last), ChannelDetails(channel, s),
                           position + |ChannelWrite(channel, s)|, StatusAfter(ChannelDetails(channel, s), last))
  {
    ChannelStatus(channel, s);
    var w := ChannelWrite(channel, s);
    var status := ChannelType(s) * 0x10 + channel;
    assert buffer[position] == status && buffer[position + 1] == w[1];
    ModUnique(status, 0x10, ChannelType(s), channel);
    RunningStatus(buffer, position, strict, last);
    if HasTwoParams(s) {
      assert buffer[position + 2] == w[2];
    }
  }

  /** A channel event takes the bytes the calculator predicts. */
  lemma ChannelWriteSize(channel: int, s: ChannelSubevent)
    ensures |ChannelWrite(channel, s)| == ChannelLength(s)
    ensures |ChannelWrite(channel, s)| == 2 <==> s.ProgramChange? || s.ChannelAftertouch? || s.ChannelUnknown?
  {
  }

  // ---------------------------------------------------------------
  // Meta events

  /** The meta types the decoder knows. */
  predicate KnownMetaType(t: int) {
    t == EVENT_META_SEQUENCE_NUMBER || IsTextType(t) || t == EVENT_META_MIDI_CHANNEL_PREFIX ||
    t == EVENT_META_END_OF_TRACK || t == EVENT_META_SET_TEMPO || t == EVENT_META_SMTPE_OFFSET ||
    t == EVENT_META_KEY_SIGNATURE || t == EVENT_META_TIME_SIGNATURE || t == EVENT_META_SEQUENCER_SPECIFIC
  }

  /** Meta events the writer and the decoder agree on: the declared length
    * is the size of the payload the writer pushes, every value is a byte,
    * and strict mode's ranges hold. Sequence numbers are not among them
    * (their bytes are written in the wrong order), nor are key signatures
    * with flats (negative keys, which the decoder reads as bytes). */
  predicate MetaEncodable(strict: bool, length: int, m: MetaSubevent) {
    match m
    case EndOfTrack => length == 0
    case SequenceNumber(_, _) => false
    case Text(t, data) => IsTextType(t) && length == |data| < 0x1000_0000 && IsBytes(data)
    case ChannelPrefix(p) => length == 1 && 0 <= p < 0x100
    case SetTempo(tempo) => length == 3 && 0 <= tempo < 0x100_0000
    case SmtpeOffset(h, mi, se, f, sf) =>
      length == 5 && IsBytes([h, mi, se, f, sf]) &&
      (strict ==> h <= 23 && mi <= 59 && se <= 59 && f <= 30 && sf <= 99)
    case KeySignature(key, scale) => length == 2 && 0 <= key <= 7 && 0 <= scale <= 1
    case TimeSignature(data, p1, p2, p3, p4) =>
      length == |data| < 0x1000_0000 && IsBytes(data) && (strict ==> |data| == 4) &&
      p1 == ParamAt(data, 0) && p2 == ParamAt(data, 1) && p3 == ParamAt(data, 2) && p4 == ParamAt(data, 3)
    case SequencerSpecific(data) => length == |data| < 0x1000_0000 && IsBytes(data)
    case MetaUnknown(t, data) =>
      !strict && 0 <= t < 0x100 && !KnownMetaType(t) && length == |data| < 0x1000_0000 && IsBytes(data)
  }

  /** `writeData` with the length of the data pushes the data. */
  lemma DataWriteExact(data: seq<int>)
    ensures DataWrite(data, |data|) == data
  {
  }

  lemma HeldAt(buffer: seq<byte>, position: int, w: seq<int>, k: int)
    requires Holds(buffer, position, w) && 0 <= k < |w|
    ensures buffer[position + k] == ToUint8(w[k])
  {
  }

  /** Bytes held in the buffer read back with `readBytes`. */
  lemma BytesHeld(buffer: seq<byte>, position: int, data: seq<int>)
    requires IsBytes(data) && Holds(buffer, position, data)
    ensures BytesFrom(buffer, position, |data|) == Success(Read(data, position + |data|))
  {
    HoldsSlice(buffer, position, data);
  }

  /** The three tempo bytes of a tempo below 2^24, most significant first. */
  lemma TempoBytesForm(tempo: int)
    requires 0 <= tempo < 0x100_0000
    ensures TempoBytes(tempo) == [tempo / 0x1_0000, (tempo / 0x100) % 0x100, tempo % 0x100]
  {
    Pow2Table();
    assert ShiftRight(tempo, 16) == tempo / 0x1_0000;
    assert ShiftRight(tempo, 8) == tempo / 0x100;
    BitAndLowMask(tempo / 0x100, 0x100);
    BitAndLowMask(tempo, 0x100);
    assert IsPowerOfTwo(0x100);
  }

  lemma TempoRoundTrip(buffer: seq<byte>, q: int, strict: bool, tempo: int)
    requires 0 <= tempo < 0x100_0000 && Holds(buffer, q, TempoBytes(tempo))
    ensures SetTempoAt(buffer, q, strict, 3) == Success(Read(SetTempo(tempo), q + 3))
  {
    TempoBytesForm(tempo);
    var w := TempoBytes(tempo);
    HeldAt(buffer, q, w, 0);
    HeldAt(buffer, q, w, 1);
    HeldAt(buffer, q, w, 2);
    TempoDigits(tempo);
    SetTempoValue(buffer, q, strict, 3);
  }

  /** The tempo payload, reached through the meta type dispatch. */
  lemma TempoSubevent(buffer: seq<byte>, q: int, strict: bool, tempo: int)
    requires 0 <= tempo < 0x100_0000 && Holds(buffer, q, TempoBytes(tempo))
    ensures MetaSubeventAt(buffer, q, strict, EVENT_META_SET_TEMPO, 3) == Success(Read(SetTempo(tempo), q + 3))
  {
    TempoRoundTrip(buffer, q, strict, tempo);
  }

  lemma TempoDigits(tempo: int)
    requires 0 <= tempo < 0x100_0000
    ensures tempo == (tempo / 0x1_0000) * 0x1_0000 + ((tempo / 0x100) % 0x100) * 0x100 + tempo % 0x100
  {
    var q1 := tempo / 0x100;
    assert tempo == q1 * 0x100 + tempo % 0x100;
    ModUnique(tempo, 0x1_0000, q1 / 0x100, (q1 % 0x100) * 0x100 + tempo % 0x100);
  }

  lemma DataRoundTrip(buffer: seq<byte>, q: int, strict: bool, m: MetaSubevent, length: int)
    requires (m.Text? && IsTextType(m.textType)) || m.SequencerSpecific? || (m.TimeSignature? && (strict ==> |m.data| == 4))
    requires IsBytes(m.data) && Holds(buffer, q, m.data) && length == |m.data|
    requires m.TimeSignature? ==>
      m.param1 == ParamAt(m.data, 0) && m.param2 == ParamAt(m.data, 1) && m.param3 == ParamAt(m.data, 2) && m.param4 == ParamAt(m.data, 3)
    ensures MetaSubeventAt(buffer, q, strict, MetaType(m), length) == Success(Read(m, q + length))
  {
    BytesHeld(buffer, q, m.data);
  }

  lemma UnknownRoundTrip(buffer: seq<byte>, q: int, t: byte, data: seq<int>, length: int)
    requires !KnownMetaType(t) && IsBytes(data) && Holds(buffer, q, data) && length == |data|
    ensures MetaSubeventAt(buffer, q, false, t, length) == Success(Read(MetaUnknown(t, data), q + length))
  {
    BytesHeld(buffer, q, data);
  }

  lemma SmtpeRoundTrip(buffer: seq<byte>, q: int, strict: bool, m: MetaSubevent)
    requires m.SmtpeOffset? && IsBytes([m.hour, m.minutes, m.seconds, m.frames, m.subframes])
    requires strict ==> m.hour <= 23 && m.minutes <= 59 && m.seconds <= 59 && m.frames <= 30 && m.subframes <= 99
    requires Holds(buffer, q, [m.hour, m.minutes, m.seconds, m.frames, m.subframes])
    ensures MetaSubeventAt(buffer, q, strict, EVENT_META_SMTPE_OFFSET, 5) == Success(Read(m, q + 5))
  {
    var w := [m.hour, m.minutes, m.seconds, m.frames, m.subframes];
    HeldAt(buffer, q, w, 0);
    HeldAt(buffer, q, w, 1);
    HeldAt(buffer, q, w, 2);
    HeldAt(buffer, q, w, 3);
    HeldAt(buffer, q, w, 4);
  }

  lemma KeySignatureRoundTrip(buffer: seq<byte>, q: int, strict: bool, key: int, scale: int)
    requires 0 <= key <= 7 && 0 <= scale <= 1 && Holds(buffer, q, [key, scale])
    ensures MetaSubeventAt(buffer, q, strict, EVENT_META_KEY_SIGNATURE, 2) == Success(Read(KeySignature(key, scale), q + 2))
  {
    HeldAt(buffer, q, [key, scale], 0);
    HeldAt(buffer, q, [key, scale], 1);
  }

  lemma ChannelPrefixRoundTrip(buffer: seq<byte>, q: int, strict: bool, p: int)
    requires 0 <= p < 0x100 && Holds(buffer, q, [p])
    ensures MetaSubeventAt(buffer, q, strict, EVENT_META_MIDI_CHANNEL_PREFIX, 1) == Success(Read(ChannelPrefix(p), q + 1))
  {
    HeldAt(buffer, q, [p], 0);
  }

  /** Round trip of a meta payload: the writer pushes as many values as the
    * declared length, and the decoder reads back the same subevent and
    * stops just after them. */
  lemma MetaPayloadRoundTrip(buffer: seq<byte>, q: int, strict: bool, length: int, m: MetaSubevent)
    requires MetaEncodable(strict, length, m)
    ensures MetaPayload(strict, length, m).ok && |MetaPayload(strict, length, m).pushed| == length
    ensures 0 <= length < 0x1000_0000 && 0 <= MetaType(m) < 0x100
    ensures Holds(buffer, q, MetaPayload(strict, length, m).pushed) ==>
      MetaSubeventAt(buffer, q, strict, MetaType(m), length) == Success(Read(m, q + length))
  {
    if Holds(buffer, q, MetaPayload(strict, length, m).pushed) {
      MetaPayloadDecodes(buffer, q, strict, length, m);
    }
  }

  lemma MetaPayloadDecodes(buffer: seq<byte>, q: int, strict: bool, length: int, m: MetaSubevent)
    requires MetaEncodable(strict, length, m) && Holds(buffer, q, MetaPayload(strict, length, m).pushed)
    ensures MetaPayload(strict, length, m).ok && |MetaPayload(strict, length, m).pushed| == length
    ensures 0 <= MetaType(m) < 0x100
    ensures MetaSubeventAt(buffer, q, strict, MetaType(m), length) == Success(Read(m, q + length))
  {
    match m
    case EndOfTrack =>
    case SequenceNumber(_, _) =>
    case Text(_, data) =>
      DataWriteExact(data);
      DataRoundTrip(buffer, q, strict, m, length);
    case ChannelPrefix(p) =>
      ChannelPrefixRoundTrip(buffer, q, strict, p);
    case SetTempo(tempo) =>
      TempoSubevent(buffer, q, strict, tempo);
    case SmtpeOffset(_, _, _, _, _) =>
      SmtpeRoundTrip(buffer, q, strict, m);
    case KeySignature(key, scale) =>
      KeySignatureRoundTrip(buffer, q, strict, key, scale);
    case TimeSignature(data, _, _, _, _) =>
      DataWriteExact(data);
      DataRoundTrip(buffer, q, strict, m, length);
    case SequencerSpecific(data) =>
      DataWriteExact(data);
      DataRoundTrip(buffer, q, strict, m, length);
    case MetaUnknown(t, data) =>
      DataWriteExact(data);
      UnknownRoundTrip(buffer, q, t, data, length);
  }

  /** Round trip of a meta event: 0xFF, the type, the length quantity and
    * the payload read back as the same event, the decoder stops just after
    * them, and the running status is left alone. */
  lemma MetaRoundTrip(buffer: seq<byte>, position: int, strict: bool, last: Option<byte>, length: int, m: MetaSubevent)
    requires MetaEncodable(strict, length, m) && Holds(buffer, position, MetaWrite(strict, length, m).pushed)
    ensures MetaWrite(strict, length, m).ok
    ensures DetailsDecoded(EventDetailsAt(buffer, position, strict, last), MetaDetails(length, m),
                           position + |MetaWrite(strict, length, m).pushed|, last)
  {
    var quantity := VarLengthBytes(length);
    var q := position + 2 + |quantity|;
    MetaWriteForm(strict, length, m);
    MetaHeaderRoundTrip(buffer, position, length, MetaType(m), quantity, MetaPayload(strict, length, m).pushed, q);
    MetaPayloadDecodes(buffer, q, strict, length, m);
    MetaEventAt(buffer, position, strict, last, MetaType(m), length, q, m);
  }

  /** A meta event whose declared length the quantity writer accepts is
    * written as its header, its length quantity and its payload. */
  lemma MetaWriteForm(strict: bool, length: int, m: MetaSubevent)
    requires 0 <= length < 0x1000_0000
    ensures MetaWrite(strict, length, m).ok == MetaPayload(strict, length, m).ok
    ensures MetaWrite(strict, length, m).pushed == [EVENT_META, MetaType(m)] + VarLengthBytes(length) + MetaPayload(strict, length, m).pushed
  {
    WriteVarLengthThrows(length);
    assert WriteVarLength(length) == Pushes(VarLengthBytes(length));
    MetaWriteParts(strict, length, m, MetaType(m), WriteVarLength(length), MetaPayload(strict, length, m));
  }

  /** 0xFF, the type and the length quantity read back from a written meta
    * event, leaving the payload after them. */
  lemma MetaHeaderRoundTrip(buffer: seq<byte>, position: int, length: int, t: int, quantity: seq<int>, payload: seq<int>, q: int)
    requires 0 <= length < 0x1000_0000 && 0 <= t < 0x100 && quantity == VarLengthBytes(length)
    requires q == position + 2 + |quantity|
    requires Holds(buffer, position, [EVENT_META, t] + quantity + payload)
    ensures position + 1 < |buffer| && buffer[position] == EVENT_META && buffer[position + 1] == t
    ensures VarInt(buffer, position + 2) == Success(Read(length, q))
    ensures Holds(buffer, q, payload)
  {
    var header: seq<int> := [EVENT_META, t];
    AppendAssociates(header, quantity, payload);
    HoldsSplit(buffer, position, header, quantity + payload);
    HoldsSplit(buffer, position + 2, quantity, payload);
    HeldAt(buffer, position, header, 0);
    HeldAt(buffer, position, header, 1);
    VarLengthRoundTrip(length, buffer, position + 2, q);
  }

  /** The decoder on a meta event of type `subtype` whose length quantity
    * reads as `length` up to `q` and whose body reads as `m` in `length`
    * bytes. */
  lemma MetaEventAt(buffer: seq<byte>, position: int, strict: bool, last: Option<byte>,
                    subtype: byte, length: int, q: int, m: MetaSubevent)
    requires 0 <= position && position + 1 < |buffer| && buffer[position] == EVENT_META && buffer[position + 1] == subtype
    requires VarInt(buffer, position + 2) == Success(Read(length, q))
    requires MetaSubeventAt(buffer, q, strict, subtype, length) == Success(Read(m, q + length))
    ensures DetailsDecoded(EventDetailsAt(buffer, position, strict, last), MetaDetails(length, m), q + length, last)
  {
  }

  /** The decoder's `next()` on an event whose delta reads as `delta` up
    * to `q`, and whose details decode there. */
  lemma NextEventOf(buffer: seq<byte>, byteOffset: nat, position: int, strict: bool, last: Option<byte>, delta: int, q: int)
    requires 0 <= position < |buffer|
    requires VarInt(buffer, position) == Success(Read(delta, q))
    requires EventDetailsAt(buffer, q, strict, last).Success?
    ensures var p := EventDetailsAt(buffer, q, strict, last).value;
      NextEventAt(buffer, byteOffset, position, strict, last) ==
        Success(Some(ParsedEvent(NewMidiEvent(byteOffset + position, delta, p.details), p.next, p.last)))
  {
  }

  // ---------------------------------------------------------------
  // Events and tracks

  /** Event details the writer and the decoder agree on. System exclusive
    * and unknown events are not among them: their status byte and length
    * are not written. */
  predicate DetailsEncodable(strict: bool, d: EventDetails) {
    match d
    case ChannelDetails(channel, s) => ChannelEncodable(channel, s)
    case MetaDetails(length, m) => MetaEncodable(strict, length, m)
    case SystemDetails(_, _) => false
    case UnknownDetails(_, _, _, _) => false
  }

  /** An event the writer and the decoder agree on: a delta below 2^28
    * and details they agree on. */
  predicate EventEncodable(strict: bool, e: MidiEvent) {
    0 <= e.delta < 0x1000_0000 && DetailsEncodable(strict, e.details)
  }

  /** Round trip of the details of an event. */
  lemma DetailsRoundTrip(buffer: seq<byte>, position: int, strict: bool, last: Option<byte>, d: EventDetails)
    requires DetailsEncodable(strict, d) && Holds(buffer, position, DetailsWrite(strict, d).pushed)
    ensures DetailsWrite(strict, d).ok
    ensures DetailsDecoded(EventDetailsAt(buffer, position, strict, last), d,
                           position + |DetailsWrite(strict, d).pushed|, StatusAfter(d, last))
  {
    match d
    case ChannelDetails(channel, s) =>
      ChannelRoundTrip(buffer, position, strict, last, channel, s);
    case MetaDetails(length, m) =>
      MetaRoundTrip(buffer, position, strict, last, length, m);
  }

  /** The decoder's `next()` result `r` is an event at `index` with the
    * given delta and details, ending at `next`, with running status `last`. */
  predicate EventDecoded(r: Result<Option<ParsedEvent>>, index: int, delta: int, d: EventDetails, next: int, last: Option<byte>) {
    r.Success? && r.value.Some? && r.value.value.event == NewMidiEvent(index, delta, d) &&
    r.value.value.next == next && r.value.value.last == last
  }

  /** Round trip of one event: the decoder's `next()` at the start of a
    * written event yields the same delta and details, indexed by the
    * absolute offset of the delta, and stops just after the event. */
  lemma EventRoundTrip(buffer: seq<byte>, byteOffset: nat, position: int, strict: bool, last: Option<byte>, e: MidiEvent)
    requires EventEncodable(strict, e) && Holds(buffer, position, EventWrite(strict, e).pushed)
    ensures EventWrite(strict, e).ok
    ensures EventDecoded(NextEventAt(buffer, byteOffset, position, strict, last), byteOffset + position, e.delta, e.details,
                         position + |EventWrite(strict, e).pushed|, StatusAfter(e.details, last))
  {
    var q := position + |VarLengthBytes(e.delta)|;
    EventWriteForm(strict, e);
    DeltaRoundTrip(buffer, position, e.delta, DetailsWrite(strict, e.details).pushed, q);
    DetailsRoundTrip(buffer, q, strict, last, e.details);
    NextEventOf(buffer, byteOffset, position, strict, last, e.delta, q);
  }

  /** A delta quantity followed by `rest` reads back as the delta, leaving
    * `rest` after it. */
  lemma DeltaRoundTrip(buffer: seq<byte>, position: int, delta: int, rest: seq<int>, q: int)
    requires 0 <= delta < 0x1000_0000 && Holds(buffer, position, VarLengthBytes(delta) + rest)
    requires q == position + |VarLengthBytes(delta)|
    ensures 0 <= position < |buffer|
    ensures VarInt(buffer, position) == Success(Read(delta, q))
    ensures Holds(buffer, q, rest)
  {
    HoldsSplit(buffer, position, VarLengthBytes(delta), rest);
    VarLengthRoundTrip(delta, buffer, position, q);
  }

  /** An event whose delta the quantity writer accepts is written as the
    * delta quantity, then its details. */
  lemma EventWriteForm(strict: bool, e: MidiEvent)
    requires 0 <= e.delta < 0x1000_0000
    ensures EventWrite(strict, e).ok == DetailsWrite(strict, e.details).ok
    ensures EventWrite(strict, e).pushed == VarLengthBytes(e.delta) + DetailsWrite(strict, e.details).pushed
  {
    WriteVarLengthThrows(e.delta);
    assert WriteVarLength(e.delta) == Pushes(VarLengthBytes(e.delta));
  }

  // ---------------------------------------------------------------
  // Sizes

  /** A meta event the writer and the decoder agree on takes the bytes the
    * calculator predicts. */
  lemma MetaWriteSize(strict: bool, length: int, m: MetaSubevent)
    requires MetaEncodable(strict, length, m)
    ensures MetaWrite(strict, length, m).ok && |MetaWrite(strict, length, m).pushed| == MetaLength(length)
  {
    MetaPayloadRoundTrip([], 0, strict, length, m);
    MetaWriteForm(strict, length, m);
    QuantityLengthMatches(length);
  }

  /** Details the writer and the decoder agree on take the bytes the
    * calculator predicts. */
  lemma DetailsWriteSize(strict: bool, d: EventDetails)
    requires DetailsEncodable(strict, d)
    ensures DetailsWrite(strict, d).ok && |DetailsWrite(strict, d).pushed| == DetailsLength(d)
  {
    match d
    case ChannelDetails(channel, s) =>
      ChannelWriteSize(channel, s);
    case MetaDetails(length, m) =>
      MetaWriteSize(strict, length, m);
  }

  /** One event the writer and the decoder agree on is written in full and
    * takes the bytes the calculator predicts. */
  lemma EventWriteSize(strict: bool, e: MidiEvent)
    requires EventEncodable(strict, e)
    ensures EventWrite(strict, e).ok && |EventWrite(strict, e).pushed| == EventLength(e)
  {
    EventWriteForm(strict, e);
    DetailsWriteSize(strict, e.details);
    QuantityLengthMatches(e.delta);
  }

  /** Size agreement: for events the writer and the decoder agree on, the
    * writer finishes and pushes exactly the number of bytes the calculator
    * predicts. */
  lemma {:induction false} RunWriteSize(strict: bool, events: seq<MidiEvent>)
    requires forall i :: 0 <= i < |events| ==> EventEncodable(strict, events[i])
    ensures RunWrite(strict, events).ok
    ensures |RunWrite(strict, events).pushed| == RequiredLength.RequiredLength(events)
    decreases |events|
  {
    if |events| > 0 {
      RunWriteSize(strict, events[..|events| - 1]);
      EventWriteSize(strict, events[|events| - 1]);
    }
  }

  // ---------------------------------------------------------------
  // Whole tracks

  /** Writing is associative: what `a` then `b` then `c` pushes does not
    * depend on grouping. */
  lemma ThenAssociates(a: Written, b: Written, c: Written)
    ensures Then(Then(a, b), c) == Then(a, Then(b, c))
  {
    if a.ok && b.ok {
      AppendAssociates(a.pushed, b.pushed, c.pushed);
    }
  }

  /** Nothing pushed before or after a write leaves it as it is. */
  lemma ThenNothing(w: Written)
    ensures Then(Pushes([]), w) == w && Then(w, Pushes([])) == w
  {
    assert [] + w.pushed == w.pushed;
    assert w.pushed + [] == w.pushed;
  }

  /** `run` seen from the front: the first event, then the others. */
  lemma {:induction false} RunWriteFirst(strict: bool, events: seq<MidiEvent>)
    requires |events| > 0
    ensures RunWrite(strict, events) == Then(EventWrite(strict, events[0]), RunWrite(strict, events[1..]))
    decreases |events|
  {
    var n := |events|;
    if n == 1 {
      assert events[..0] == [] && events[1..] == [];
      ThenNothing(EventWrite(strict, events[0]));
    } else {
      var front := events[..n - 1];
      RunWriteFirst(strict, front);
      assert front[1..] == events[1..][..n - 2];
      assert events[1..][n - 2] == events[n - 1];
      ThenAssociates(EventWrite(strict, events[0]), RunWrite(strict, front[1..]), EventWrite(strict, events[n - 1]));
    }
  }

  /** The decoder, called again and again from `position` with the running
    * status it returns, yields `events` in order (their deltas and details,
    * indexed by their absolute offsets) and stops at `end`. */
  predicate ReadsEvents(buffer: seq<byte>, byteOffset: nat, position: int, strict: bool, last: Option<byte>,
                        events: seq<MidiEvent>, end: int)
    decreases |events|
  {
    if |events| == 0 then position == end
    else
      var r := NextEventAt(buffer, byteOffset, position, strict, last);
      r.Success? && r.value.Some? &&
      r.value.value.event == NewMidiEvent(byteOffset + position, events[0].delta, events[0].details) &&
      ReadsEvents(buffer, byteOffset, r.value.value.next, strict, r.value.value.last, events[1..], end)
  }

  /** `Holds` depends on the position only through its value. */
  lemma HoldsMoved(buffer: seq<byte>, position: int, position': int, w: seq<int>)
    requires position == position' && Holds(buffer, position, w)
    ensures Holds(buffer, position', w)
  {
  }

  /** One step of the decoder over the bytes `run` writes: the first event
    * reads back, and the bytes of the others follow it. */
  lemma TrackStep(buffer: seq<byte>, byteOffset: nat, position: int, strict: bool, last: Option<byte>, events: seq<MidiEvent>, end: int)
    requires |events| > 0 && forall i :: 0 <= i < |events| ==> EventEncodable(strict, events[i])
    requires Holds(buffer, position, RunWrite(strict, events).pushed)
    requires end == position + |RunWrite(strict, events).pushed|
    ensures var r := NextEventAt(buffer, byteOffset, position, strict, last);
      r.Success? && r.value.Some? &&
      r.value.value.event == NewMidiEvent(byteOffset + position, events[0].delta, events[0].details) &&
      Holds(buffer, r.value.value.next, RunWrite(strict, events[1..]).pushed) &&
      end == r.value.value.next + |RunWrite(strict, events[1..]).pushed|
    ensures forall i :: 0 <= i < |events[1..]| ==> EventEncodable(strict, events[1..][i])
  {
    var w := EventWrite(strict, events[0]).pushed;
    var rest := RunWrite(strict, events[1..]).pushed;
    RunWriteFirst(strict, events);
    EventWriteSize(strict, events[0]);
    HoldsSplit(buffer, position, w, rest);
    EventRoundTrip(buffer, byteOffset, position, strict, last, events[0]);
    var r := NextEventAt(buffer, byteOffset, position, strict, last).value.value;
    HoldsMoved(buffer, position + |w|, r.next, rest);
  }

  /** Round trip of a whole track: the bytes `run` writes for events the
    * writer and the decoder agree on are decoded, event after event, as
    * the same deltas and details, and decoding stops exactly at the end
    * `end` of what was written. */
  lemma {:induction false} TrackRoundTrip(buffer: seq<byte>, byteOffset: nat, position: int, strict: bool, last: Option<byte>,
                                         events: seq<MidiEvent>, end: int)
    requires forall i :: 0 <= i < |events| ==> EventEncodable(strict, events[i])
    requires Holds(buffer, position, RunWrite(strict, events).pushed)
    requires end == position + |RunWrite(strict, events).pushed|
    ensures ReadsEvents(buffer, byteOffset, position, strict, last, events, end)
    decreases |events|
  {
    if |events| > 0 {
      TrackStep(buffer, byteOffset, position, strict, last, events, end);
      var r := NextEventAt(buffer, byteOffset, position, strict, last).value.value;
      TrackRoundTrip(buffer, byteOffset, r.next, strict, r.last, events[1..], end);
    }
  }

  /** A buffer holding exactly the bytes `run` writes, read from its start
    * with no running status: the decoder yields the events in order and
    * then reports the end of the track. */
  lemma TrackBufferRoundTrip(buffer: seq<byte>, strict: bool, events: seq<MidiEvent>)
    requires forall i :: 0 <= i < |events| ==> EventEncodable(strict, events[i])
    requires Holds(buffer, 0, RunWrite(strict, events).pushed) && |buffer| == |RunWrite(strict, events).pushed|
    ensures ReadsEvents(buffer, 0, 0, strict, None, events, |buffer|)
    ensures forall last :: NextEventAt(buffer, 0, |buffer|, strict, last) == Success(None)
  {
    TrackRoundTrip(buffer, 0, 0, strict, None, events, |buffer|);
  }
}
