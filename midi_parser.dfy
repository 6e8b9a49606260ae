/** Decoding of one track event (Standard MIDI Files 1.0, "Track Chunks"):
  * a delta-time quantity, then a meta event (0xFF), a system exclusive
  * event (0xF0/0xF7), another 0xFx event, or a channel message with running
  * status (MIDI 1.0 Detailed Specification, "Running Status").
  *
  * Each read of the parser is specified by a function over the buffer and
  * the cursor position; the `MidiParser` class performs the same reads on a
  * `Stream` and is proved to agree with those functions. Where the
  * source masks a byte (`& 0x80`, `& 0xF0`, `& 0x0F`, `>> 4`) the functions
  * use the arithmetic the masks amount to on a byte (Bits.HighBit,
  * Bits.LowBits, Bits.HighNibbleMask, Bits.HighNibbleShift). */
module MidiParser {
  import opened Wrappers
  import opened Errors
  import opened Bits
  import opened ByteStream
  import opened MidiEvents

  /** Decoded event details, the cursor after them and the running status. */
  datatype Parsed = Parsed(details: EventDetails, next: int, last: Option<byte>)

  /** A decoded event, the cursor after it and the running status. */
  datatype ParsedEvent = ParsedEvent(event: MidiEvent, next: int, last: Option<byte>)

  // ---------------------------------------------------------------
  // Meta subevents

  function SequenceNumberAt(buffer: seq<byte>, position: int, strict: bool, length: int): (r: Result<Read<MetaSubevent>>)
    ensures r.Success? ==> r.value.value.SequenceNumber?
  {
    if strict && length != 2 then Failure(BadMetaLength)
    else
      var msb :- ByteAt(buffer, position);
      var lsb :- ByteAt(buffer, msb.next);
      Success(Read(SequenceNumber(msb.value, lsb.value), lsb.next))
  }

  function ChannelPrefixAt(buffer: seq<byte>, position: int, strict: bool, length: int): (r: Result<Read<MetaSubevent>>)
    ensures r.Success? ==> r.value.value.ChannelPrefix?
  {
    if strict && length != 1 then Failure(BadMetaLength)
    else
      var prefix :- ByteAt(buffer, position);
      Success(Read(ChannelPrefix(prefix.value), prefix.next))
  }

  function EndOfTrackAt(position: int, strict: bool, length: int): Result<Read<MetaSubevent>> {
    if strict && length != 0 then Failure(BadMetaLength)
    else Success(Read(EndOfTrack, position))
  }

  function SmtpeOffsetAt(buffer: seq<byte>, position: int, strict: bool, length: int): (r: Result<Read<MetaSubevent>>)
    ensures r.Success? ==> r.value.value.SmtpeOffset?
  {
    if strict && length != 5 then Failure(BadMetaLength)
    else
      var hour :- ByteAt(buffer, position);
      if strict && hour.value > 23 then Failure(SmpteHourRange)
      else
        var minutes :- ByteAt(buffer, hour.next);
        if strict && minutes.value > 59 then Failure(SmpteMinutesRange)
        else
          var seconds :- ByteAt(buffer, minutes.next);
          if strict && seconds.value > 59 then Failure(SmpteSecondsRange)
          else
            var frames :- ByteAt(buffer, seconds.next);
            if strict && frames.value > 30 then Failure(SmpteFramesRange)
            else
              var subframes :- ByteAt(buffer, frames.next);
              if strict && subframes.value > 99 then Failure(SmpteSubframesRange)
              else
                Success(Read(SmtpeOffset(hour.value, minutes.value, seconds.value, frames.value, subframes.value), subframes.next))
  }

  /** The tempo: `(b0 << 16) + (b1 << 8) + b2`. */
  function SetTempoAt(buffer: seq<byte>, position: int, strict: bool, length: int): (r: Result<Read<MetaSubevent>>)
    ensures r.Success? ==> r.value.value.SetTempo?
  {
    if strict && length != 3 then Failure(TempoLength)
    else
      var b0 :- ByteAt(buffer, position);
      var b1 :- ByteAt(buffer, b0.next);
      var b2 :- ByteAt(buffer, b1.next);
      Success(Read(SetTempo(ShiftLeft(b0.value, 16) + ShiftLeft(b1.value, 8) + b2.value), b2.next))
  }

  function KeySignatureAt(buffer: seq<byte>, position: int, strict: bool, length: int): (r: Result<Read<MetaSubevent>>)
    ensures r.Success? ==> r.value.value.KeySignature?
  {
    if strict && length != 2 then Failure(BadMetaLength)
    else
      var key :- ByteAt(buffer, position);
      if strict && (key.value < -7 || key.value > 7) then Failure(BadMetaLength)
      else
        var scale :- ByteAt(buffer, key.next);
        if strict && scale.value != 0 && scale.value != 1 then Failure(KeyScaleRange)
        else Success(Read(KeySignature(key.value, scale.value), scale.next))
  }

  /** `data[k]`, which is `undefined` past the end of the bytes read. */
  function ParamAt(data: seq<int>, k: nat): Option<int> {
    if k < |data| then Some(data[k]) else None
  }

  function TimeSignatureAt(buffer: seq<byte>, position: int, strict: bool, length: int): (r: Result<Read<MetaSubevent>>)
    ensures r.Success? ==> r.value.value.TimeSignature?
  {
    if strict && length != 4 then Failure(BadMetaLength)
    else
      var data :- BytesFrom(buffer, position, length);
      var d := data.value;
      Success(Read(TimeSignature(d, ParamAt(d, 0), ParamAt(d, 1), ParamAt(d, 2), ParamAt(d, 3)), data.next))
  }

  function MetaUnknownAt(buffer: seq<byte>, position: int, strict: bool, subtype: byte, length: int): Result<Read<MetaSubevent>> {
    if strict then Failure(UnknownMetaType)
    else
      var data :- BytesFrom(buffer, position, length);
      Success(Read(MetaUnknown(subtype, data.value), data.next))
  }

  predicate IsTextType(subtype: int) {
    EVENT_META_TEXT <= subtype <= EVENT_META_CUE_POINT
  }

  /** `readMetaSubevent`: the body of a meta event of type `subtype` whose
    * declared length is `length`. */
  function MetaSubeventAt(buffer: seq<byte>, position: int, strict: bool, subtype: byte, length: int): Result<Read<MetaSubevent>> {
    if subtype == EVENT_META_SEQUENCE_NUMBER then SequenceNumberAt(buffer, position, strict, length)
    else if IsTextType(subtype) then
      var data :- BytesFrom(buffer, position, length);
      Success(Read(Text(subtype, data.value), data.next))
    else if subtype == EVENT_META_MIDI_CHANNEL_PREFIX then ChannelPrefixAt(buffer, position, strict, length)
    else if subtype == EVENT_META_END_OF_TRACK then EndOfTrackAt(position, strict, length)
    else if subtype == EVENT_META_SET_TEMPO then SetTempoAt(buffer, position, strict, length)
    else if subtype == EVENT_META_SMTPE_OFFSET then SmtpeOffsetAt(buffer, position, strict, length)
    else if subtype == EVENT_META_KEY_SIGNATURE then KeySignatureAt(buffer, position, strict, length)
    else if subtype == EVENT_META_TIME_SIGNATURE then TimeSignatureAt(buffer, position, strict, length)
    else if subtype == EVENT_META_SEQUENCER_SPECIFIC then
      var data :- BytesFrom(buffer, position, length);
      Success(Read(SequencerSpecific(data.value), data.next))
    else MetaUnknownAt(buffer, position, strict, subtype, length)
  }

  // ---------------------------------------------------------------
  // Channel subevents

  /** A Note On with velocity 0 is a Note Off with velocity 127. */
  function NoteOnAt(buffer: seq<byte>, position: int, noteNumber: byte): Result<Read<ChannelSubevent>> {
    var velocity :- ByteAt(buffer, position);
    if velocity.value == 0 then Success(Read(NoteOff(noteNumber, 127), velocity.next))
    else Success(Read(NoteOn(noteNumber, velocity.value), velocity.next))
  }

  function ChannelUnknownAt(position: int, strict: bool, eventType: int, param1: byte): Result<Read<ChannelSubevent>> {
    if strict then Failure(UnknownMidiType)
    else Success(Read(ChannelUnknown(eventType, param1), position))
  }

  /** `readChannelSubevent`: the rest of a channel message of type
    * `eventType` whose first parameter was `param1`. */
  function ChannelSubeventAt(buffer: seq<byte>, position: int, strict: bool, eventType: int, param1: byte): Result<Read<ChannelSubevent>> {
    if eventType == EVENT_MIDI_NOTE_OFF then
      var b :- ByteAt(buffer, position);
      Success(Read(NoteOff(param1, b.value), b.next))
    else if eventType == EVENT_MIDI_NOTE_ON then NoteOnAt(buffer, position, param1)
    else if eventType == EVENT_MIDI_NOTE_AFTERTOUCH then
      var b :- ByteAt(buffer, position);
      Success(Read(NoteAftertouch(param1, b.value), b.next))
    else if eventType == EVENT_MIDI_CONTROLLER then
      var b :- ByteAt(buffer, position);
      Success(Read(Controller(param1, b.value), b.next))
    else if eventType == EVENT_MIDI_PROGRAM_CHANGE then Success(Read(ProgramChange(param1), position))
    else if eventType == EVENT_MIDI_CHANNEL_AFTERTOUCH then Success(Read(ChannelAftertouch(param1), position))
    else if eventType == EVENT_MIDI_PITCH_BEND then
      var b :- ByteAt(buffer, position);
      Success(Read(PitchBend(param1, b.value), b.next))
    else ChannelUnknownAt(position, strict, eventType, param1)
  }

  // ---------------------------------------------------------------
  // Events

  /** A channel message whose status is `status`: type `status >> 4`,
    * channel `status & 0x0F`; the status becomes the running status. */
  function ChannelDetailsAt(buffer: seq<byte>, position: int, strict: bool, status: byte, param1: byte): Result<Parsed> {
    var subevent :- ChannelSubeventAt(buffer, position, strict, status / 0x10, param1);
    Success(Parsed(ChannelDetails(status % 0x10, subevent.value), subevent.next, Some(status)))
  }

  /** `readEventDetails` at `position` with running status `last`. */
  function EventDetailsAt(buffer: seq<byte>, position: int, strict: bool, last: Option<byte>): Result<Parsed> {
    var code :- ByteAt(buffer, position);
    var c := code.value;
    if c == EVENT_META then
      var subtype :- ByteAt(buffer, code.next);
      var length :- VarInt(buffer, subtype.next);
      var subevent :- MetaSubeventAt(buffer, length.next, strict, subtype.value, length.value);
      Success(Parsed(MetaDetails(length.value, subevent.value), subevent.next, last))
    else if c == EVENT_SYSEX || c == EVENT_DIVSYSEX then
      var length :- VarInt(buffer, code.next);
      var data :- BytesFrom(buffer, length.next, length.value);
      Success(Parsed(SystemDetails(length.value, data.value), data.next, last))
    else if c >= 0xF0 then
      if strict then Failure(UnknownEventType)
      else
        var badsubtype :- VarInt(buffer, code.next);
        var length :- ByteAt(buffer, badsubtype.next);
        var data :- BytesFrom(buffer, length.next, length.value);
        Success(Parsed(UnknownDetails(c, badsubtype.value, length.value, data.value), data.next, last))
    else if c >= 0x80 then
      var param1 :- ByteAt(buffer, code.next);
      ChannelDetailsAt(buffer, param1.next, strict, c, param1.value)
    else if last.None? then Failure(NoRunningStatus)
    else ChannelDetailsAt(buffer, code.next, strict, last.value, c)
  }

  /** `next()`: nothing at the end of the view, otherwise the delta and the
    * details of one event; the index is the absolute offset of the delta. */
  function NextEventAt(buffer: seq<byte>, byteOffset: nat, position: int, strict: bool, last: Option<byte>): Result<Option<ParsedEvent>> {
    if position == |buffer| then Success(None)
    else
      var delta :- VarInt(buffer, position);
      var details :- EventDetailsAt(buffer, delta.next, strict, last);
      Success(Some(ParsedEvent(NewMidiEvent(byteOffset + position, delta.value, details.details), details.next, details.last)))
  }

  /** `next()` assembled from its parts: the delta read at `position` up
    * to `q` and the details decoded from `q`. */
  lemma NextEventParts(buffer: seq<byte>, byteOffset: nat, position: int, strict: bool, last: Option<byte>,
                       index: int, delta: int, q: int, details: EventDetails, next: int, last': Option<byte>)
    requires position != |buffer| && index == byteOffset + position
    requires VarInt(buffer, position) == Success(Read(delta, q))
    requires var p := EventDetailsAt(buffer, q, strict, last);
      p.Success? && p.value.details == details && p.value.next == next && p.value.last == last'
    ensures var s := NextEventAt(buffer, byteOffset, position, strict, last);
      s.Success? && s.value.Some? && s.value.value.event == NewMidiEvent(index, delta, details) &&
      s.value.value.next == next && s.value.value.last == last'
  {
  }

  // ---------------------------------------------------------------
  // Properties of the decoder

  /** `next()` yields nothing exactly at the end of the view; otherwise the
    * event's index is the absolute offset of its delta, and the delta is
    * the quantity read there. */
  lemma NextEventShape(buffer: seq<byte>, byteOffset: nat, position: int, strict: bool, last: Option<byte>)
    ensures var r := NextEventAt(buffer, byteOffset, position, strict, last);
      (r == Success(None) <==> position == |buffer|) &&
      (r.Success? && r.value.Some? ==>
        var d := VarInt(buffer, position);
        d.Success? && r.value.value.event.index == byteOffset + position &&
        r.value.value.event.delta == d.value.value && 0 <= d.value.value < 0x1000_0000)
  {
    VarIntBounds(buffer, position);
  }

  /** A status byte 0x80..0xEF is remembered and followed by the first
    * parameter; a data byte reuses the remembered status as running status
    * and is itself the first parameter; a data byte with nothing remembered
    * fails. */
  lemma RunningStatus(buffer: seq<byte>, position: int, strict: bool, last: Option<byte>)
    requires 0 <= position < |buffer| && buffer[position] < 0xF0
    ensures var c := buffer[position];
      0x80 <= c ==>
        EventDetailsAt(buffer, position, strict, last) ==
          (if position + 1 < |buffer| then ChannelDetailsAt(buffer, position + 2, strict, c, buffer[position + 1])
           else Failure(OffsetOutOfView))
    ensures var c := buffer[position];
      c < 0x80 && last.None? ==> EventDetailsAt(buffer, position, strict, last).Failure?
    ensures var c := buffer[position];
      c < 0x80 && last.Some? ==> EventDetailsAt(buffer, position, strict, last) == ChannelDetailsAt(buffer, position + 1, strict, last.value, c)
  {
  }

  /** A channel message has type `status >> 4` and channel `status & 0x0F`,
    * keeps `status` as running status, reads no further byte for program
    * change and channel aftertouch (and, outside strict mode, an unknown
    * type) and exactly one for the other types; strict mode refuses an
    * unknown type. */
  lemma ChannelDetailsShape(buffer: seq<byte>, position: int, strict: bool, status: byte, param1: byte)
    ensures var r := ChannelDetailsAt(buffer, position, strict, status, param1);
      var t := status / 0x10;
      r.Success? ==>
        r.value.details.ChannelDetails? && r.value.details.channel == status % 0x10 &&
        r.value.last == Some(status) &&
        r.value.next == position + (if t in {EVENT_MIDI_PROGRAM_CHANGE, EVENT_MIDI_CHANNEL_AFTERTOUCH} || !(EVENT_MIDI_NOTE_OFF <= t <= EVENT_MIDI_PITCH_BEND) then 0 else 1)
    ensures var t := status / 0x10;
      t in {EVENT_MIDI_PROGRAM_CHANGE, EVENT_MIDI_CHANNEL_AFTERTOUCH} ==> ChannelDetailsAt(buffer, position, strict, status, param1).Success?
    ensures var t := status / 0x10;
      !(EVENT_MIDI_NOTE_OFF <= t <= EVENT_MIDI_PITCH_BEND) ==>
        (ChannelDetailsAt(buffer, position, strict, status, param1).Success? <==> !strict)
    ensures var t := status / 0x10;
      EVENT_MIDI_NOTE_OFF <= t <= EVENT_MIDI_PITCH_BEND && t !in {EVENT_MIDI_PROGRAM_CHANGE, EVENT_MIDI_CHANNEL_AFTERTOUCH} ==>
        (ChannelDetailsAt(buffer, position, strict, status, param1).Success? <==> 0 <= position < |buffer|)
  {
  }

  /** A Note On with velocity 0 decodes as a Note Off with velocity 127. */
  lemma NoteOnVelocityZero(buffer: seq<byte>, position: int, noteNumber: byte)
    requires 0 <= position < |buffer|
    ensures NoteOnAt(buffer, position, noteNumber).Success?
    ensures NoteOnAt(buffer, position, noteNumber).value.value ==
      if buffer[position] == 0 then NoteOff(noteNumber, 127) else NoteOn(noteNumber, buffer[position])
  {
  }

  /** A meta event reads a type byte and a length quantity; text events
    * and sequencer-specific events then read exactly that many bytes. */
  lemma MetaEventShape(buffer: seq<byte>, position: int, strict: bool, last: Option<byte>)
    requires 0 <= position < |buffer| && buffer[position] == EVENT_META
    ensures var r := EventDetailsAt(buffer, position, strict, last);
      r.Success? ==>
        position + 1 < |buffer| &&
        var length := VarInt(buffer, position + 2);
        length.Success? && r.value.last == last &&
        r.value.details == MetaDetails(length.value.value, r.value.details.subevent) &&
        MetaType(r.value.details.subevent) == buffer[position + 1] &&
        ((IsTextType(buffer[position + 1]) || buffer[position + 1] == EVENT_META_SEQUENCER_SPECIFIC) ==>
          var n := length.value.value;
          r.value.next == length.value.next + n &&
          r.value.details.subevent.data == buffer[length.value.next..length.value.next + n])
  {
    if position + 1 < |buffer| {
      var length := VarInt(buffer, position + 2);
      VarIntBounds(buffer, position + 2);
      if length.Success? {
        var subtype := buffer[position + 1];
        var sub := MetaSubeventAt(buffer, length.value.next, strict, subtype, length.value.value);
        if sub.Success? {
          MetaTypeOfRead(buffer, length.value.next, strict, subtype, length.value.value);
          DataPayloadShape(buffer, length.value.next, strict, subtype, length.value.value);
        }
      }
    }
  }

  /** Text and sequencer-specific payloads are the next `length` bytes. */
  lemma DataPayloadShape(buffer: seq<byte>, position: int, strict: bool, subtype: byte, length: int)
    requires 0 <= position <= |buffer| && length >= 0
    ensures var r := MetaSubeventAt(buffer, position, strict, subtype, length);
      r.Success? && (IsTextType(subtype) || subtype == EVENT_META_SEQUENCER_SPECIFIC) ==>
        r.value.next == position + length && r.value.value.data == buffer[position..position + length]
  {
    if length == 0 && BytesFrom(buffer, position, length).Success? {
      assert buffer[position..position] == [];
    }
  }

  lemma MetaTypeOfRead(buffer: seq<byte>, position: int, strict: bool, subtype: byte, length: int)
    ensures var r := MetaSubeventAt(buffer, position, strict, subtype, length);
      r.Success? ==> MetaType(r.value.value) == subtype
  {
  }

  /** 0xF0 and 0xF7 read a length quantity and that many bytes. */
  lemma SysexEventShape(buffer: seq<byte>, position: int, strict: bool, last: Option<byte>)
    requires 0 <= position < |buffer| && buffer[position] in {EVENT_SYSEX, EVENT_DIVSYSEX}
    ensures var r := EventDetailsAt(buffer, position, strict, last);
      r.Success? ==>
        var length := VarInt(buffer, position + 1);
        length.Success? && length.value.value >= 0 &&
        r.value.details == SystemDetails(length.value.value, buffer[length.value.next..length.value.next + length.value.value]) &&
        r.value.next == length.value.next + length.value.value && r.value.last == last
  {
    VarIntBounds(buffer, position + 1);
    var length := VarInt(buffer, position + 1);
    if length.Success? {
      var data := BytesFrom(buffer, length.value.next, length.value.value);
      if data.Success? && length.value.value == 0 {
        assert data.value.value == buffer[length.value.next..length.value.next];
      }
    }
  }

  /** Any other 0xFx status fails in strict mode; otherwise it reads a
    * quantity, a one-byte length and that many bytes. */
  lemma UnknownEventShape(buffer: seq<byte>, position: int, strict: bool, last: Option<byte>)
    requires 0 <= position < |buffer| && 0xF0 <= buffer[position] < 0xFF
    requires buffer[position] != EVENT_SYSEX && buffer[position] != EVENT_DIVSYSEX
    ensures strict ==> EventDetailsAt(buffer, position, strict, last).Failure?
    ensures var r := EventDetailsAt(buffer, position, strict, last);
      r.Success? ==>
        var sub := VarInt(buffer, position + 1);
        sub.Success? && 0 <= sub.value.next < |buffer| &&
        var n := buffer[sub.value.next];
        r.value.details == UnknownDetails(buffer[position], sub.value.value, n, buffer[sub.value.next + 1..sub.value.next + 1 + n]) &&
        r.value.next == sub.value.next + 1 + n && r.value.last == last
  {
    var r := EventDetailsAt(buffer, position, strict, last);
    var next := position + 1;
    assert ByteAt(buffer, position) == Success(Read(buffer[position], next));
    var sub := VarInt(buffer, next);
    if r.Success? {
      assert !strict && sub.Success?;
      var p := sub.value.next;
      assert ByteAt(buffer, p).Success?;
      var n := buffer[p];
      assert ByteAt(buffer, p) == Success(Read(n, p + 1));
      var data := BytesFrom(buffer, p + 1, n);
      assert data.Success? && data.value.value == buffer[p + 1..p + 1 + n] && data.value.next == p + 1 + n;
      assert r == Success(Parsed(UnknownDetails(buffer[position], sub.value.value, n, data.value.value), data.value.next, last));
    }
  }

  /** Set Tempo is a three-byte big-endian number, and strict mode wants a
    * declared length of 3. */
  lemma SetTempoValue(buffer: seq<byte>, position: int, strict: bool, length: int)
    ensures strict && length != 3 ==> SetTempoAt(buffer, position, strict, length).Failure?
    ensures (!strict || length == 3) && 0 <= position && position + 3 <= |buffer| ==>
      SetTempoAt(buffer, position, strict, length) ==
        Success(Read(SetTempo((buffer[position] as int) * 0x1_0000 + (buffer[position + 1] as int) * 0x100 + buffer[position + 2]), position + 3))
  {
    Pow2Table();
    assert Pow2(8) == 0x100;
  }

  /** The declared lengths strict mode accepts for the fixed-size meta
    * events, and the unknown meta types it refuses. */
  lemma StrictMetaLengths(buffer: seq<byte>, position: int, subtype: byte, length: int)
    ensures subtype == EVENT_META_SEQUENCE_NUMBER && length != 2 ==> MetaSubeventAt(buffer, position, true, subtype, length).Failure?
    ensures subtype == EVENT_META_MIDI_CHANNEL_PREFIX && length != 1 ==> MetaSubeventAt(buffer, position, true, subtype, length).Failure?
    ensures subtype == EVENT_META_END_OF_TRACK ==> (MetaSubeventAt(buffer, position, true, subtype, length).Success? <==> length == 0)
    ensures subtype == EVENT_META_SMTPE_OFFSET && length != 5 ==> MetaSubeventAt(buffer, position, true, subtype, length).Failure?
    ensures subtype == EVENT_META_KEY_SIGNATURE && length != 2 ==> MetaSubeventAt(buffer, position, true, subtype, length).Failure?
    ensures subtype == EVENT_META_TIME_SIGNATURE && length != 4 ==> MetaSubeventAt(buffer, position, true, subtype, length).Failure?
    ensures !(subtype == EVENT_META_SEQUENCE_NUMBER || IsTextType(subtype) ||
              subtype in {EVENT_META_MIDI_CHANNEL_PREFIX, EVENT_META_END_OF_TRACK, EVENT_META_SET_TEMPO,
                          EVENT_META_SMTPE_OFFSET, EVENT_META_KEY_SIGNATURE, EVENT_META_TIME_SIGNATURE,
                          EVENT_META_SEQUENCER_SPECIFIC}) ==>
      MetaSubeventAt(buffer, position, true, subtype, length).Failure?
  {
  }

  /** Strict mode refuses SMPTE offsets with hour > 23, minutes > 59,
    * seconds > 59, frames > 30 or subframes > 99, and accepts every other
    * five bytes inside the view. */
  lemma StrictSmtpeRanges(buffer: seq<byte>, position: int)
    requires 0 <= position && position + 5 <= |buffer|
    ensures SmtpeOffsetAt(buffer, position, true, 5).Success? <==>
      buffer[position] <= 23 && buffer[position + 1] <= 59 && buffer[position + 2] <= 59 &&
      buffer[position + 3] <= 30 && buffer[position + 4] <= 99
  {
  }

  /** Strict mode refuses a key byte above 7 (the key is read unsigned, so
    * no byte is below -7) and a scale other than 0 or 1. */
  lemma StrictKeySignatureRanges(buffer: seq<byte>, position: int)
    requires 0 <= position && position + 2 <= |buffer|
    ensures KeySignatureAt(buffer, position, true, 2).Success? <==>
      buffer[position] <= 7 && buffer[position + 1] in {0, 1}
  {
  }

  /** A meta body stays inside the view and never moves back. */
  lemma MetaSubeventProgress(buffer: seq<byte>, position: int, strict: bool, subtype: byte, length: int)
    requires 0 <= position <= |buffer|
    ensures var r := MetaSubeventAt(buffer, position, strict, subtype, length);
      r.Success? ==> position <= r.value.next <= |buffer|
  {
    if IsTextType(subtype) || subtype == EVENT_META_SEQUENCER_SPECIFIC {
      if length >= 0 {
        DataPayloadShape(buffer, position, strict, subtype, length);
      }
    } else {
      FixedMetaProgress(buffer, position, strict, subtype, length);
    }
  }

  /** The fixed-size meta bodies read at most five bytes, each inside the
    * view. */
  lemma FixedMetaProgress(buffer: seq<byte>, position: int, strict: bool, subtype: byte, length: int)
    requires 0 <= position <= |buffer|
    requires !IsTextType(subtype) && subtype != EVENT_META_SEQUENCER_SPECIFIC
    ensures var r := MetaSubeventAt(buffer, position, strict, subtype, length);
      r.Success? ==> position <= r.value.next <= |buffer|
  {
    var r := MetaSubeventAt(buffer, position, strict, subtype, length);
    if subtype == EVENT_META_SEQUENCE_NUMBER {
      assert r == SequenceNumberAt(buffer, position, strict, length);
    } else if subtype == EVENT_META_MIDI_CHANNEL_PREFIX {
      assert r == ChannelPrefixAt(buffer, position, strict, length);
    } else if subtype == EVENT_META_END_OF_TRACK {
      assert r == EndOfTrackAt(position, strict, length);
    } else if subtype == EVENT_META_SET_TEMPO {
      assert r == SetTempoAt(buffer, position, strict, length);
    } else if subtype == EVENT_META_SMTPE_OFFSET {
      assert r == SmtpeOffsetAt(buffer, position, strict, length);
      SmtpeOffsetProgress(buffer, position, strict, length);
    } else if subtype == EVENT_META_KEY_SIGNATURE {
      assert r == KeySignatureAt(buffer, position, strict, length);
    } else if subtype == EVENT_META_TIME_SIGNATURE {
      assert r == TimeSignatureAt(buffer, position, strict, length);
    } else {
      assert r == MetaUnknownAt(buffer, position, strict, subtype, length);
    }
  }

  /** An SMPTE offset is five bytes. */
  lemma SmtpeOffsetProgress(buffer: seq<byte>, position: int, strict: bool, length: int)
    requires 0 <= position <= |buffer|
    ensures var r := SmtpeOffsetAt(buffer, position, strict, length);
      r.Success? ==> r.value.next == position + 5 <= |buffer|
  {
  }

  /** The rest of a channel message stays inside the view and never moves
    * back. */
  lemma ChannelSubeventProgress(buffer: seq<byte>, position: int, strict: bool, eventType: int, param1: byte)
    requires 0 <= position <= |buffer|
    ensures var r := ChannelSubeventAt(buffer, position, strict, eventType, param1);
      r.Success? ==> position <= r.value.next <= |buffer|
  {
  }

  /** Event details take at least their status byte and stay inside the
    * view. */
  lemma EventDetailsProgress(buffer: seq<byte>, position: int, strict: bool, last: Option<byte>)
    requires 0 <= position <= |buffer|
    ensures var r := EventDetailsAt(buffer, position, strict, last);
      r.Success? ==> position < r.value.next <= |buffer|
  {
    var code := ByteAt(buffer, position);
    if code.Success? {
      var p := code.value.next;
      var c := code.value.value;
      if c == EVENT_META {
        var subtype := ByteAt(buffer, p);
        if subtype.Success? {
          VarIntBounds(buffer, subtype.value.next);
          var length := VarInt(buffer, subtype.value.next);
          if length.Success? {
            MetaSubeventProgress(buffer, length.value.next, strict, subtype.value.value, length.value.value);
          }
        }
      } else if c == EVENT_SYSEX || c == EVENT_DIVSYSEX {
        VarIntBounds(buffer, p);
      } else if c >= 0xF0 {
        VarIntBounds(buffer, p);
      } else if c >= 0x80 {
        var param1 := ByteAt(buffer, p);
        if param1.Success? {
          ChannelSubeventProgress(buffer, param1.value.next, strict, c / 0x10, param1.value.value);
        }
      } else if last.Some? {
        ChannelSubeventProgress(buffer, p, strict, last.value / 0x10, c);
      }
    }
  }

  /** `next()` moves the cursor forward by at least one byte whenever it
    * yields an event, and never past the end of the view. */
  lemma NextEventProgress(buffer: seq<byte>, byteOffset: nat, position: int, strict: bool, last: Option<byte>)
    requires 0 <= position <= |buffer|
    ensures var r := NextEventAt(buffer, byteOffset, position, strict, last);
      r.Success? && r.value.Some? ==> position < r.value.value.next <= |buffer|
  {
    if position != |buffer| {
      VarIntBounds(buffer, position);
      var delta := VarInt(buffer, position);
      if delta.Success? {
        EventDetailsProgress(buffer, delta.value.next, strict, last);
      }
    }
  }

  // ---------------------------------------------------------------
  // The parser

  class MidiParser {
    const stream: Stream
    var lastEventCode: Option<byte>
    const strictMode: bool

    constructor(buffer: seq<byte>, byteOffset: nat, startAt: int, strictMode: bool)
      ensures fresh(stream) && stream.position == startAt && stream.buffer == buffer && stream.byteOffset == byteOffset
      ensures lastEventCode == None && this.strictMode == strictMode
    {
      stream := new Stream(startAt, buffer, byteOffset);
      lastEventCode := None;
      this.strictMode := strictMode;
    }

    method ReadMetaSequenceNumber(midiEventLength: int) returns (r: Result<MetaSubevent>)
      modifies stream
      ensures Agrees(r, SequenceNumberAt(stream.buffer, old(stream.position), strictMode, midiEventLength), stream.position)
    {
      if strictMode && midiEventLength != 2 {
        return Failure(BadMetaLength);
      }
      var msb :- stream.ReadUint8();
      var lsb :- stream.ReadUint8();
      return Success(SequenceNumber(msb, lsb));
    }

    method ReadMetaChannelPrefix(midiEventLength: int) returns (r: Result<MetaSubevent>)
      modifies stream
      ensures Agrees(r, ChannelPrefixAt(stream.buffer, old(stream.position), strictMode, midiEventLength), stream.position)
    {
      if strictMode && midiEventLength != 1 {
        return Failure(BadMetaLength);
      }
      var prefix :- stream.ReadUint8();
      return Success(ChannelPrefix(prefix));
    }

    method ReadMetaEndOfTrack(midiEventLength: int) returns (r: Result<MetaSubevent>)
      ensures Agrees(r, EndOfTrackAt(stream.position, strictMode, midiEventLength), stream.position)
    {
      if strictMode && midiEventLength != 0 {
        return Failure(BadMetaLength);
      }
      return Success(EndOfTrack);
    }

    method ReadMetaSmtpeOffset(midiEventLength: int) returns (r: Result<MetaSubevent>)
      modifies stream
      ensures Agrees(r, SmtpeOffsetAt(stream.buffer, old(stream.position), strictMode, midiEventLength), stream.position)
    {
      if strictMode && midiEventLength != 5 {
        return Failure(BadMetaLength);
      }
      var hour :- stream.ReadUint8();
      if strictMode && hour > 23 {
        return Failure(SmpteHourRange);
      }
      var minutes :- stream.ReadUint8();
      if strictMode && minutes > 59 {
        return Failure(SmpteMinutesRange);
      }
      var seconds :- stream.ReadUint8();
      if strictMode && seconds > 59 {
        return Failure(SmpteSecondsRange);
      }
      var frames :- stream.ReadUint8();
      if strictMode && frames > 30 {
        return Failure(SmpteFramesRange);
      }
      var subframes :- stream.ReadUint8();
      if strictMode && subframes > 99 {
        return Failure(SmpteSubframesRange);
      }
      return Success(SmtpeOffset(hour, minutes, seconds, frames, subframes));
    }

    method ReadMetaSetTempo(midiEventLength: int) returns (r: Result<MetaSubevent>)
      modifies stream
      ensures Agrees(r, SetTempoAt(stream.buffer, old(stream.position), strictMode, midiEventLength), stream.position)
    {
      if strictMode && midiEventLength != 3 {
        return Failure(TempoLength);
      }
      var b0 :- stream.ReadUint8();
      var b1 :- stream.ReadUint8();
      var b2 :- stream.ReadUint8();
      return Success(SetTempo(ShiftLeft(b0, 16) + ShiftLeft(b1, 8) + b2));
    }

    method ReadMetaKeySignature(midiEventLength: int) returns (r: Result<MetaSubevent>)
      modifies stream
      ensures Agrees(r, KeySignatureAt(stream.buffer, old(stream.position), strictMode, midiEventLength), stream.position)
    {
      if strictMode && midiEventLength != 2 {
        return Failure(BadMetaLength);
      }
      var key :- stream.ReadUint8();
      if strictMode && (key < -7 || key > 7) {
        return Failure(BadMetaLength);
      }
      var scale :- stream.ReadUint8();
      if strictMode && scale != 0 && scale != 1 {
        return Failure(KeyScaleRange);
      }
      return Success(KeySignature(key, scale));
    }

    method ReadMetaTimeSignature(midiEventLength: int) returns (r: Result<MetaSubevent>)
      modifies stream
      ensures Agrees(r, TimeSignatureAt(stream.buffer, old(stream.position), strictMode, midiEventLength), stream.position)
    {
      if strictMode && midiEventLength != 4 {
        return Failure(BadMetaLength);
      }
      var data :- stream.ReadBytes(midiEventLength);
      return Success(TimeSignature(data, ParamAt(data, 0), ParamAt(data, 1), ParamAt(data, 2), ParamAt(data, 3)));
    }

    method ReadMetaUnknown(subtype: byte, midiEventLength: int) returns (r: Result<MetaSubevent>)
      modifies stream
      ensures Agrees(r, MetaUnknownAt(stream.buffer, old(stream.position), strictMode, subtype, midiEventLength), stream.position)
    {
      if strictMode {
        return Failure(UnknownMetaType);
      }
      var data :- stream.ReadBytes(midiEventLength);
      return Success(MetaUnknown(subtype, data));
    }

    method ReadChannelNoteOn(noteNumber: byte) returns (r: Result<ChannelSubevent>)
      modifies stream
      ensures Agrees(r, NoteOnAt(stream.buffer, old(stream.position), noteNumber), stream.position)
    {
      var velocity :- stream.ReadUint8();
      if velocity == 0 {
        return Success(NoteOff(noteNumber, 127));
      }
      return Success(NoteOn(noteNumber, velocity));
    }

    method ReadChannelUnknown(eventType: int, eventParam1: byte) returns (r: Result<ChannelSubevent>)
      ensures Agrees(r, ChannelUnknownAt(stream.position, strictMode, eventType, eventParam1), stream.position)
    {
      if strictMode {
        return Failure(UnknownMidiType);
      }
      return Success(ChannelUnknown(eventType, eventParam1));
    }

    method ReadMetaSubevent(subtype: byte, midiEventLength: int) returns (r: Result<MetaSubevent>)
      modifies stream
      ensures Agrees(r, MetaSubeventAt(stream.buffer, old(stream.position), strictMode, subtype, midiEventLength), stream.position)
    {
      if subtype == EVENT_META_SEQUENCE_NUMBER {
        r := ReadMetaSequenceNumber(midiEventLength);
      } else if IsTextType(subtype) {
        var data :- stream.ReadBytes(midiEventLength);
        r := Success(Text(subtype, data));
      } else if subtype == EVENT_META_MIDI_CHANNEL_PREFIX {
        r := ReadMetaChannelPrefix(midiEventLength);
      } else if subtype == EVENT_META_END_OF_TRACK {
        r := ReadMetaEndOfTrack(midiEventLength);
      } else if subtype == EVENT_META_SET_TEMPO {
        r := ReadMetaSetTempo(midiEventLength);
      } else if subtype == EVENT_META_SMTPE_OFFSET {
        r := ReadMetaSmtpeOffset(midiEventLength);
      } else if subtype == EVENT_META_KEY_SIGNATURE {
        r := ReadMetaKeySignature(midiEventLength);
      } else if subtype == EVENT_META_TIME_SIGNATURE {
        r := ReadMetaTimeSignature(midiEventLength);
      } else if subtype == EVENT_META_SEQUENCER_SPECIFIC {
        var data :- stream.ReadBytes(midiEventLength);
        r := Success(SequencerSpecific(data));
      } else {
        r := ReadMetaUnknown(subtype, midiEventLength);
      }
    }

    method ReadChannelSubevent(eventType: int, eventParam1: byte) returns (r: Result<ChannelSubevent>)
      modifies stream
      ensures Agrees(r, ChannelSubeventAt(stream.buffer, old(stream.position), strictMode, eventType, eventParam1), stream.position)
    {
      if eventType == EVENT_MIDI_NOTE_OFF {
        var b :- stream.ReadUint8();
        r := Success(NoteOff(eventParam1, b));
      } else if eventType == EVENT_MIDI_NOTE_ON {
        r := ReadChannelNoteOn(eventParam1);
      } else if eventType == EVENT_MIDI_NOTE_AFTERTOUCH {
        var b :- stream.ReadUint8();
        r := Success(NoteAftertouch(eventParam1, b));
      } else if eventType == EVENT_MIDI_CONTROLLER {
        var b :- stream.ReadUint8();
        r := Success(Controller(eventParam1, b));
      } else if eventType == EVENT_MIDI_PROGRAM_CHANGE {
        r := Success(ProgramChange(eventParam1));
      } else if eventType == EVENT_MIDI_CHANNEL_AFTERTOUCH {
        r := Success(ChannelAftertouch(eventParam1));
      } else if eventType == EVENT_MIDI_PITCH_BEND {
        var b :- stream.ReadUint8();
        r := Success(PitchBend(eventParam1, b));
      } else {
        r := ReadChannelUnknown(eventType, eventParam1);
      }
    }

    /** Reads the details of one event; on success the cursor and the
      * running status are where `EventDetailsAt` leaves them. */
    method ReadEventDetails(delta: int) returns (r: Result<EventDetails>)
      modifies this, stream
      ensures var s := EventDetailsAt(stream.buffer, old(stream.position), strictMode, old(lastEventCode));
        if s.Success? then r == Success(s.value.details) && stream.position == s.value.next && lastEventCode == s.value.last
        else r.Failure?
    {
      var eventCode :- stream.ReadUint8();
      if eventCode == EVENT_META {
        var subtype :- stream.ReadUint8();
        var length :- stream.ReadVarInt();
        var subevent :- ReadMetaSubevent(subtype, length);
        return Success(MetaDetails(length, subevent));
      } else if eventCode == EVENT_SYSEX || eventCode == EVENT_DIVSYSEX {
        var length :- stream.ReadVarInt();
        var data :- stream.ReadBytes(length);
        return Success(SystemDetails(length, data));
      } else if eventCode >= 0xF0 {
        if strictMode {
          return Failure(UnknownEventType);
        }
        var badsubtype :- stream.ReadVarInt();
        var length :- stream.ReadUint8();
        var data :- stream.ReadBytes(length);
        return Success(UnknownDetails(eventCode, badsubtype, length, data));
      } else {
        var eventParam1: byte;
        var status: byte;
        if eventCode >= 0x80 {
          lastEventCode := Some(eventCode);
          status := eventCode;
          eventParam1 :- stream.ReadUint8();
        } else {
          if lastEventCode.None? {
            return Failure(NoRunningStatus);
          }
          status := lastEventCode.value;
          eventParam1 := eventCode;
        }
        var subevent :- ReadChannelSubevent(status / 0x10, eventParam1);
        return Success(ChannelDetails(status % 0x10, subevent));
      }
    }

    /** Reads the next event, or nothing at the end of the view. */
    method Next() returns (r: Result<Option<MidiEvent>>)
      modifies this, stream
      ensures var s := NextEventAt(stream.buffer, stream.byteOffset, old(stream.position), strictMode, old(lastEventCode));
        if s.Success? then
          r == Success(if s.value.Some? then Some(s.value.value.event) else None) &&
          (s.value.Some? ==> stream.position == s.value.value.next && lastEventCode == s.value.value.last) &&
          (s.value.None? ==> stream.position == old(stream.position) && lastEventCode == old(lastEventCode))
        else r.Failure?
    {
      ghost var start, last := stream.position, lastEventCode;
      var atEnd := stream.End();
      if atEnd {
        return Success(None);
      }
      var index := stream.Pos();
      var delta :- stream.ReadVarInt();
      ghost var q := stream.position;
      var details :- ReadEventDetails(delta);
      NextEventParts(stream.buffer, stream.byteOffset, start, strictMode, last, index, delta, q, details, stream.position, lastEventCode);
      return Success(Some(NewMidiEvent(index, delta, details)));
    }
  }
}
