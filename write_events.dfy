/** Encoding of track events into a fixed-size byte buffer: the event
  * writer (`WriteEventsToTrack`) and the meta event writer it hands meta
  * subevents to (`WriteMetaEventsToTrack`).
  *
  * What a write does is specified by a function returning the values it
  * pushes, in order, and whether it finishes or throws. The writer classes
  * push the same values into a `Uint8Array`, which stores each value modulo
  * 256 and silently drops writes past its end, and are proved to agree.
  * Masks on unsigned values (`& 0x7F`, `& 0xFF`) are written as remainders
  * (Bits.BitAndLowMask), and `| 0x80` on a value below 0x80 as `+ 0x80`. */
module TrackWriter {
  import opened Wrappers
  import opened Errors
  import opened Bits
  import opened MidiEvents

  /** The values a write pushes, and whether it finished without throwing. */
  datatype Written = Written(pushed: seq<int>, ok: bool)

  /** `a` followed by `b`; nothing after a throw. */
  function Then(a: Written, b: Written): Written {
    if a.ok then Written(a.pushed + b.pushed, b.ok) else a
  }

  function Pushes(s: seq<int>): Written {
    Written(s, true)
  }

  const Throws: Written := Written([], false)

  // ---------------------------------------------------------------
  // Specification of the writes

  /** A continuation group: `g & 0x7F | 0x80`, pushed only when `g` is not
    * zero. */
  function Continuation(g: int): seq<int> {
    if g != 0 then [g % 0x80 + 0x80] else []
  }

  /** The values `writeDeltaValue` and `writeEventLength` push for `v`: the
    * groups selected by `v >>> 21`, `v >>> 14` and `v >>> 7`, then
    * `v & 0x7F`. */
  function VarLengthBytes(v: int): seq<int> {
    Continuation(UnsignedShiftRight(v, 21)) + Continuation(UnsignedShiftRight(v, 14)) +
    Continuation(UnsignedShiftRight(v, 7)) + [ToUint32(v) % 0x80]
  }

  /** `writeDeltaValue` / `writeEventLength`: throws when `v >>> 28` is not
    * zero. */
  function WriteVarLength(v: int): Written {
    if UnsignedShiftRight(v, 28) != 0 then Throws else Pushes(VarLengthBytes(v))
  }

  /** The parameters the channel visitor pushes for each subevent. */
  function ChannelParams(s: ChannelSubevent): seq<int> {
    match s
    case NoteOff(n, v) => [n, v]
    case NoteOn(n, v) => [n, v]
    case NoteAftertouch(n, a) => [n, a]
    case Controller(c, v) => [c, v]
    case ProgramChange(p) => [p]
    case ChannelAftertouch(a) => [a]
    case PitchBend(lsb, msb) => [lsb, msb]
    case ChannelUnknown(_, badparam) => [badparam]
  }

  /** `onMidiChannelEvent`: `(type << 4) + channel`, then the parameters. */
  function ChannelWrite(channel: int, s: ChannelSubevent): seq<int> {
    [ShiftLeft(ChannelType(s), 4) + channel] + ChannelParams(s)
  }

  /** `writeData`: `length` values of `data` in order; past the end of
    * `data` the source pushes `undefined`, which a Uint8Array stores as 0. */
  function DataWrite(data: seq<int>, length: int): seq<int> {
    seq(if length > 0 then length else 0, i requires 0 <= i => if i < |data| then data[i] else 0)
  }

  /** `onMetaSmtpeOffset`: each field is checked in strict mode just before
    * it is pushed, so a throw leaves the earlier fields pushed. */
  function SmtpeWrite(strict: bool, hour: int, minutes: int, seconds: int, frames: int, subframes: int): Written {
    if strict && hour > 23 then Written([], false)
    else if strict && minutes > 59 then Written([hour], false)
    else if strict && seconds > 59 then Written([hour, minutes], false)
    else if strict && frames > 30 then Written([hour, minutes, seconds], false)
    else if strict && subframes > 99 then Written([hour, minutes, seconds, frames], false)
    else Pushes([hour, minutes, seconds, frames, subframes])
  }

  /** `onMetaSetTempo`: `tempo >> 16`, `(tempo >> 8) & 0xFF`, `tempo & 0xFF`. */
  function TempoBytes(tempo: int): seq<int> {
    [ShiftRight(tempo, 16), JsAnd(ShiftRight(tempo, 8), 0xFF), JsAnd(tempo, 0xFF)]
  }

  /** What `WriteMetaEventsToTrack` pushes for a meta subevent of a meta
    * event whose declared length is `length`. */
  function MetaPayload(strict: bool, length: int, m: MetaSubevent): Written {
    match m
    case SequenceNumber(msb, lsb) => Pushes([lsb, msb])
    case Text(_, data) => Pushes(DataWrite(data, length))
    case TimeSignature(data, _, _, _, _) => Pushes(DataWrite(data, length))
    case SequencerSpecific(data) => Pushes(DataWrite(data, length))
    case MetaUnknown(_, data) => Pushes(DataWrite(data, length))
    case ChannelPrefix(prefix) => Pushes([prefix])
    case EndOfTrack => Pushes([])
    case SetTempo(tempo) => Pushes(TempoBytes(tempo))
    case SmtpeOffset(h, m', s, f, sf) => SmtpeWrite(strict, h, m', s, f, sf)
    case KeySignature(key, scale) =>
      if key < -7 || key > 7 then Throws
      else if scale < 0 || scale > 1 then Throws
      else Pushes([key, scale])
  }

  /** `onMidiMetaEvent`: 0xFF, the type, the length quantity, the payload. */
  function MetaWrite(strict: bool, length: int, m: MetaSubevent): Written {
    Then(Pushes([EVENT_META, MetaType(m)]), Then(WriteVarLength(length), MetaPayload(strict, length, m)))
  }

  /** What the event visitor writes for the details of one event. System
    * and unknown events write their data bytes only. */
  function DetailsWrite(strict: bool, d: EventDetails): Written {
    match d
    case ChannelDetails(channel, s) => Pushes(ChannelWrite(channel, s))
    case MetaDetails(length, m) => MetaWrite(strict, length, m)
    case SystemDetails(length, data) => Pushes(DataWrite(data, length))
    case UnknownDetails(_, _, length, data) => Pushes(DataWrite(data, length))
  }

  /** One iteration of `run`: the delta, then the details. */
  function EventWrite(strict: bool, e: MidiEvent): Written {
    Then(WriteVarLength(e.delta), DetailsWrite(strict, e.details))
  }

  /** `run`: the events in order, stopping at the first throw. */
  function RunWrite(strict: bool, events: seq<MidiEvent>): Written
    decreases |events|
  {
    if |events| == 0 then Pushes([])
    else Then(RunWrite(strict, events[..|events| - 1]), EventWrite(strict, events[|events| - 1]))
  }

  // ---------------------------------------------------------------
  // Properties of the writes

  /** A meta event write is the header, then the length, then the payload. */
  lemma MetaWriteParts(strict: bool, length: int, m: MetaSubevent, t: int, lw: Written, pw: Written)
    requires t == MetaType(m) && lw == WriteVarLength(length) && pw == MetaPayload(strict, length, m)
    ensures MetaWrite(strict, length, m).ok == (lw.ok && pw.ok)
    ensures MetaWrite(strict, length, m).pushed == [EVENT_META, t] + lw.pushed + (if lw.ok then pw.pushed else [])
  {
  }

  lemma AppendAssociates(s: seq<int>, a: seq<int>, b: seq<int>)
    ensures s + a + b == s + (a + b)
  {
  }

  lemma AppendAssociates4(s: seq<int>, a: seq<int>, b: seq<int>, c: seq<int>, d: seq<int>)
    ensures s + a + b + c + d == s + (a + b + c + d)
  {
  }

  lemma Associate(s: seq<int>, a: int, b: int, c: seq<int>, d: seq<int>)
    ensures s + [a] + [b] + c + d == s + ([a, b] + c + d)
  {
  }

  /** The quantity writer throws exactly when `v`, taken modulo 2^32, is
    * 2^28 or more. */
  lemma WriteVarLengthThrows(v: int)
    ensures !WriteVarLength(v).ok <==> ToUint32(v) >= 0x1000_0000
  {
    Pow2Table();
    assert UnsignedShiftRight(v, 28) == ToUint32(v) / 0x1000_0000;
  }

  /** Once a run throws, later events add nothing. */
  lemma {:induction false} RunWriteStops(strict: bool, events: seq<MidiEvent>, i: nat)
    requires i <= |events| && !RunWrite(strict, events[..i]).ok
    ensures RunWrite(strict, events) == RunWrite(strict, events[..i])
    decreases |events| - i
  {
    if i < |events| {
      assert events[..i + 1][..i] == events[..i];
      RunWriteStops(strict, events, i + 1);
    } else {
      assert events[..i] == events;
    }
  }

  /** One more event after a run that has not thrown: its pushes follow
    * the run's, and the longer run finishes exactly when the event does. */
  lemma RunWriteStep(strict: bool, events: seq<MidiEvent>, i: nat)
    requires i < |events| && RunWrite(strict, events[..i]).ok
    ensures RunWrite(strict, events[..i + 1]).pushed == RunWrite(strict, events[..i]).pushed + EventWrite(strict, events[i]).pushed
    ensures RunWrite(strict, events[..i + 1]).ok == EventWrite(strict, events[i]).ok
  {
    assert events[..i + 1][..i] == events[..i];
  }

  /** Key signatures outside key -7..7 or scale 0..1 throw whatever the
    * mode; valid ones push the key and the scale. */
  lemma KeySignatureChecks(strict: bool, length: int, key: int, scale: int)
    ensures MetaPayload(strict, length, KeySignature(key, scale)).ok <==> -7 <= key <= 7 && 0 <= scale <= 1
    ensures MetaPayload(strict, length, KeySignature(key, scale)).pushed ==
      if -7 <= key <= 7 && 0 <= scale <= 1 then [key, scale] else []
  {
  }

  /** In strict mode the SMPTE writer throws at the first field out of
    * range, after pushing the fields before it; it pushes all five fields
    * exactly when it finishes. */
  lemma SmtpeChecks(strict: bool, h: int, m: int, s: int, f: int, sf: int)
    ensures var w := SmtpeWrite(strict, h, m, s, f, sf);
      (w.ok <==> !strict || (h <= 23 && m <= 59 && s <= 59 && f <= 30 && sf <= 99)) &&
      w.pushed <= [h, m, s, f, sf] &&
      (w.ok <==> |w.pushed| == 5) &&
      (strict && h <= 23 && m <= 59 && s > 59 ==> w == Written([h, m], false))
  {
  }

  // ---------------------------------------------------------------
  // The writers

  /** The event writer and its destination buffer. `pushed` records every
    * value pushed so far; the buffer holds each of them modulo 256 as far
    * as it reaches, and zeros after them. */
  class WriteEventsToTrack {
    var destination: array<byte>
    var lastDestinationIndex: int
    var currentEventIndex: int
    const strictMode: bool
    ghost var pushed: seq<int>

    ghost predicate Valid()
      reads this, destination
    {
      lastDestinationIndex == |pushed| &&
      forall i :: 0 <= i < destination.Length ==> destination[i] == if i < |pushed| then ToUint8(pushed[i]) else 0
    }

    /** The buffer is the same, the writer is still valid, and exactly
      * `w` was pushed. */
    twostate predicate Appended(w: seq<int>)
      reads this, destination
    {
      Valid() && destination == old(destination) && currentEventIndex == old(currentEventIndex) &&
      pushed == old(pushed) + w
    }

    constructor(bufferLength: nat, strictMode: bool)
      ensures Valid() && fresh(destination) && destination.Length == bufferLength
      ensures pushed == [] && this.strictMode == strictMode && currentEventIndex == 0
    {
      destination := new byte[bufferLength](_ => 0);
      lastDestinationIndex := 0;
      currentEventIndex := 0;
      this.strictMode := strictMode;
      pushed := [];
    }

    /** Stores `b` at `lastDestinationIndex` (dropped past the end of the
      * buffer) and moves on by one. */
    method Push(b: int)
      requires Valid()
      modifies this, destination
      ensures Appended([b])
      ensures lastDestinationIndex == old(lastDestinationIndex) + 1
      ensures old(lastDestinationIndex) < destination.Length ==> destination[old(lastDestinationIndex)] == ToUint8(b)
    {
      if lastDestinationIndex < destination.Length {
        destination[lastDestinationIndex] := ToUint8(b);
      }
      lastDestinationIndex := lastDestinationIndex + 1;
      pushed := pushed + [b];
    }

    /** `if (g) push((g & 0x7F) | 0x80)` for one group `g` of a variable
      * length quantity. */
    method PushContinuation(g: int)
      requires Valid()
      modifies this, destination
      ensures Appended(Continuation(g))
    {
      if g != 0 {
        Push(g % 0x80 + 0x80);
      }
    }

    method WriteDeltaValue(midiEvent: MidiEvent) returns (r: Outcome)
      requires Valid()
      modifies this, destination
      ensures Appended(WriteVarLength(midiEvent.delta).pushed)
      ensures r.Pass? <==> WriteVarLength(midiEvent.delta).ok
    {
      var delta := midiEvent.delta;
      if UnsignedShiftRight(delta, 28) != 0 {
        return Fail(MaxDeltaReached);
      }
      ghost var before := pushed;
      PushContinuation(UnsignedShiftRight(delta, 21));
      PushContinuation(UnsignedShiftRight(delta, 14));
      PushContinuation(UnsignedShiftRight(delta, 7));
      Push(ToUint32(delta) % 0x80);
      AppendAssociates4(before, Continuation(UnsignedShiftRight(delta, 21)), Continuation(UnsignedShiftRight(delta, 14)),
        Continuation(UnsignedShiftRight(delta, 7)), [ToUint32(delta) % 0x80]);
      return Pass;
    }

    method WriteEventLength(length: int) returns (r: Outcome)
      requires Valid()
      modifies this, destination
      ensures Appended(WriteVarLength(length).pushed)
      ensures r.Pass? <==> WriteVarLength(length).ok
    {
      if UnsignedShiftRight(length, 28) != 0 {
        return Fail(MaxLengthReached);
      }
      ghost var before := pushed;
      PushContinuation(UnsignedShiftRight(length, 21));
      PushContinuation(UnsignedShiftRight(length, 14));
      PushContinuation(UnsignedShiftRight(length, 7));
      Push(ToUint32(length) % 0x80);
      AppendAssociates4(before, Continuation(UnsignedShiftRight(length, 21)), Continuation(UnsignedShiftRight(length, 14)),
        Continuation(UnsignedShiftRight(length, 7)), [ToUint32(length) % 0x80]);
      return Pass;
    }

    /** The channel subevent visitor (`onChannel*`). */
    method WriteChannelParams(s: ChannelSubevent)
      requires Valid()
      modifies this, destination
      ensures Appended(ChannelParams(s))
    {
      match s
      case NoteOff(n, v) =>
        Push(n);
        Push(v);
      case NoteOn(n, v) =>
        Push(n);
        Push(v);
      case NoteAftertouch(n, a) =>
        Push(n);
        Push(a);
      case Controller(c, v) =>
        Push(c);
        Push(v);
      case ProgramChange(p) =>
        Push(p);
      case ChannelAftertouch(a) =>
        Push(a);
      case PitchBend(lsb, msb) =>
        Push(lsb);
        Push(msb);
      case ChannelUnknown(_, badparam) =>
        Push(badparam);
    }

    method OnMidiChannelEvent(channel: int, s: ChannelSubevent)
      requires Valid()
      modifies this, destination
      ensures Appended(ChannelWrite(channel, s))
    {
      Push(ShiftLeft(ChannelType(s), 4) + channel);
      WriteChannelParams(s);
    }

    method OnMidiMetaEvent(length: int, m: MetaSubevent) returns (r: Outcome)
      requires Valid()
      modifies this, destination
      ensures Appended(MetaWrite(strictMode, length, m).pushed)
      ensures r.Pass? <==> MetaWrite(strictMode, length, m).ok
    {
      ghost var before := pushed;
      ghost var lengthWrite := WriteVarLength(length);
      ghost var payload := MetaPayload(strictMode, length, m);
      var metaType := MetaType(m);
      MetaWriteParts(strictMode, length, m, metaType, lengthWrite, payload);
      Push(EVENT_META);
      Push(metaType);
      r := WriteEventLength(length);
      if r.Fail? {
        Associate(before, EVENT_META, metaType, lengthWrite.pushed, []);
        return;
      }
      r := WriteMetaPayload(length, m);
      Associate(before, EVENT_META, metaType, lengthWrite.pushed, payload.pushed);
    }

    /** Hands the subevent to a fresh meta event writer pushing into this
      * writer. */
    method WriteMetaPayload(length: int, m: MetaSubevent) returns (r: Outcome)
      requires Valid()
      modifies this, destination
      ensures Appended(MetaPayload(strictMode, length, m).pushed)
      ensures r.Pass? <==> MetaPayload(strictMode, length, m).ok
    {
      var metaWriter := new WriteMetaEventsToTrack(currentEventIndex, length, this, strictMode);
      r := metaWriter.Accept(m);
    }

    /** `writeData`, used for system and unknown events. */
    method WriteData(length: int, data: seq<int>)
      requires Valid()
      modifies this, destination
      ensures Appended(DataWrite(data, length))
    {
      var dataIndex := 0;
      while dataIndex < length
        invariant 0 <= dataIndex && (length > 0 ==> dataIndex <= length) && (length <= 0 ==> dataIndex == 0)
        invariant Appended(DataWrite(data, dataIndex))
      {
        Push(if dataIndex < |data| then data[dataIndex] else 0);
        assert DataWrite(data, dataIndex + 1) == DataWrite(data, dataIndex) + [if dataIndex < |data| then data[dataIndex] else 0];
        dataIndex := dataIndex + 1;
      }
      assert DataWrite(data, dataIndex) == DataWrite(data, length);
    }

    /** The event details visitor (`accept`). */
    method WriteDetails(d: EventDetails) returns (r: Outcome)
      requires Valid()
      modifies this, destination
      ensures Appended(DetailsWrite(strictMode, d).pushed)
      ensures r.Pass? <==> DetailsWrite(strictMode, d).ok
    {
      match d
      case ChannelDetails(channel, s) =>
        OnMidiChannelEvent(channel, s);
        r := Pass;
      case MetaDetails(length, m) =>
        r := OnMidiMetaEvent(length, m);
      case SystemDetails(length, data) =>
        WriteData(length, data);
        r := Pass;
      case UnknownDetails(_, _, length, data) =>
        WriteData(length, data);
        r := Pass;
    }

    /** Writes the events in order, each delta before its details; the
      * first throw ends the run. */
    method Run(midiEvents: seq<MidiEvent>) returns (r: Outcome)
      requires Valid()
      modifies this, destination
      ensures Valid() && destination == old(destination)
      ensures pushed == old(pushed) + RunWrite(strictMode, midiEvents).pushed
      ensures r.Pass? <==> RunWrite(strictMode, midiEvents).ok
    {
      currentEventIndex := 0;
      while currentEventIndex < |midiEvents|
        invariant 0 <= currentEventIndex <= |midiEvents|
        invariant Valid() && destination == old(destination)
        invariant RunWrite(strictMode, midiEvents[..currentEventIndex]).ok
        invariant pushed == old(pushed) + RunWrite(strictMode, midiEvents[..currentEventIndex]).pushed
      {
        var i := currentEventIndex;
        ghost var sofar := RunWrite(strictMode, midiEvents[..i]).pushed;
        ghost var event := EventWrite(strictMode, midiEvents[i]);
        RunWriteStep(strictMode, midiEvents, i);
        var written := WriteEvent(midiEvents[i]);
        AppendAssociates(old(pushed), sofar, event.pushed);
        if written.Fail? {
          RunWriteStops(strictMode, midiEvents, i + 1);
          return written;
        }
        currentEventIndex := i + 1;
      }
      assert midiEvents[..currentEventIndex] == midiEvents;
      return Pass;
    }

    /** One iteration of `run`: the delta, then the details. */
    method WriteEvent(midiEvent: MidiEvent) returns (r: Outcome)
      requires Valid()
      modifies this, destination
      ensures Appended(EventWrite(strictMode, midiEvent).pushed)
      ensures r.Pass? <==> EventWrite(strictMode, midiEvent).ok
    {
      ghost var before := pushed;
      ghost var deltaWrite := WriteVarLength(midiEvent.delta);
      ghost var detailsWrite := DetailsWrite(strictMode, midiEvent.details);
      r := WriteDeltaValue(midiEvent);
      if r.Fail? {
        return;
      }
      r := WriteDetails(midiEvent.details);
      AppendAssociates(before, deltaWrite.pushed, detailsWrite.pushed);
    }
  }

  /** The meta subevent visitor: it pushes into the event writer it was
    * given. */
  class WriteMetaEventsToTrack {
    const metaEventIndex: int
    const metaEventLength: int
    const byteMedium: WriteEventsToTrack
    const strictMode: bool

    constructor(metaEventIndex: int, metaEventLength: int, byteMedium: WriteEventsToTrack, strictMode: bool)
      ensures this.metaEventIndex == metaEventIndex && this.metaEventLength == metaEventLength
      ensures this.byteMedium == byteMedium && this.strictMode == strictMode
    {
      this.metaEventIndex := metaEventIndex;
      this.metaEventLength := metaEventLength;
      this.byteMedium := byteMedium;
      this.strictMode := strictMode;
    }

    /** Pushes `metaEventLength` values of `data`. */
    method WriteData(data: seq<int>)
      requires byteMedium.Valid()
      modifies byteMedium, byteMedium.destination
      ensures byteMedium.Appended(DataWrite(data, metaEventLength))
    {
      byteMedium.WriteData(metaEventLength, data);
    }

    /** The least significant byte first. */
    method OnMetaSequenceNumber(msb: int, lsb: int)
      requires byteMedium.Valid()
      modifies byteMedium, byteMedium.destination
      ensures byteMedium.Appended([lsb, msb])
    {
      byteMedium.Push(lsb);
      byteMedium.Push(msb);
    }

    method OnMetaSetTempo(tempo: int)
      requires byteMedium.Valid()
      modifies byteMedium, byteMedium.destination
      ensures byteMedium.Appended(TempoBytes(tempo))
    {
      byteMedium.Push(ShiftRight(tempo, 16));
      byteMedium.Push(JsAnd(ShiftRight(tempo, 8), 0xFF));
      byteMedium.Push(JsAnd(tempo, 0xFF));
    }

    method OnMetaSmtpeOffset(hour: int, minutes: int, seconds: int, frames: int, subframes: int) returns (r: Outcome)
      requires byteMedium.Valid()
      modifies byteMedium, byteMedium.destination
      ensures byteMedium.Appended(SmtpeWrite(strictMode, hour, minutes, seconds, frames, subframes).pushed)
      ensures r.Pass? <==> SmtpeWrite(strictMode, hour, minutes, seconds, frames, subframes).ok
    {
      if strictMode && hour > 23 {
        return Fail(SmpteHourRange);
      }
      byteMedium.Push(hour);
      assert byteMedium.pushed == old(byteMedium.pushed) + [hour];
      if strictMode && minutes > 59 {
        return Fail(SmpteMinutesRange);
      }
      byteMedium.Push(minutes);
      assert byteMedium.pushed == old(byteMedium.pushed) + [hour, minutes];
      if strictMode && seconds > 59 {
        return Fail(SmpteSecondsRange);
      }
      byteMedium.Push(seconds);
      assert byteMedium.pushed == old(byteMedium.pushed) + [hour, minutes, seconds];
      if strictMode && frames > 30 {
        return Fail(SmpteFramesGiven);
      }
      byteMedium.Push(frames);
      assert byteMedium.pushed == old(byteMedium.pushed) + [hour, minutes, seconds, frames];
      if strictMode && subframes > 99 {
        return Fail(SmpteSubframesGiven);
      }
      byteMedium.Push(subframes);
      return Pass;
    }

    method OnMetaKeySignature(key: int, scale: int) returns (r: Outcome)
      requires byteMedium.Valid()
      modifies byteMedium, byteMedium.destination
      ensures byteMedium.Appended(MetaPayload(strictMode, metaEventLength, KeySignature(key, scale)).pushed)
      ensures r.Pass? <==> MetaPayload(strictMode, metaEventLength, KeySignature(key, scale)).ok
    {
      if key < -7 || key > 7 {
        return Fail(KeyGiven);
      }
      if scale < 0 || scale > 1 {
        return Fail(KeyScaleGiven);
      }
      byteMedium.Push(key);
      byteMedium.Push(scale);
      return Pass;
    }

    /** The visitor dispatch (`accept`). */
    method Accept(m: MetaSubevent) returns (r: Outcome)
      requires byteMedium.Valid()
      modifies byteMedium, byteMedium.destination
      ensures byteMedium.Appended(MetaPayload(strictMode, metaEventLength, m).pushed)
      ensures r.Pass? <==> MetaPayload(strictMode, metaEventLength, m).ok
    {
      r := Pass;
      match m
      case SequenceNumber(msb, lsb) =>
        OnMetaSequenceNumber(msb, lsb);
      case Text(_, data) =>
        WriteData(data);
      case TimeSignature(data, _, _, _, _) =>
        WriteData(data);
      case SequencerSpecific(data) =>
        WriteData(data);
      case MetaUnknown(_, data) =>
        WriteData(data);
      case ChannelPrefix(prefix) =>
        byteMedium.Push(prefix);
      case EndOfTrack =>
      case SetTempo(tempo) =>
        OnMetaSetTempo(tempo);
      case SmtpeOffset(h, m', s, f, sf) =>
        r := OnMetaSmtpeOffset(h, m', s, f, sf);
      case KeySignature(key, scale) =>
        r := OnMetaKeySignature(key, scale);
    }
  }
}
