/** The size calculator that predicts how many bytes a list of events takes
  * once encoded: the quantity lengths of deltas and lengths, the fixed
  * sizes of the event kinds, and their sum over a track. */
module RequiredLength {
  import opened Bits
  import opened MidiEvents

  /** Bytes of the variable-length quantity for `v`, chosen by the same
    * shifts as the writer: 4 when `v >>> 21` is not zero, 3 when `v >>> 14`
    * is not zero, 2 when `v >>> 7` is not zero, else 1. */
  function QuantityLength(v: int): (n: int)
    ensures 1 <= n <= 4
  {
    if UnsignedShiftRight(v, 21) > 0 then 4
    else if UnsignedShiftRight(v, 14) > 0 then 3
    else if UnsignedShiftRight(v, 7) > 0 then 2
    else 1
  }

  /** `getEncodedDeltaLength`. */
  function EncodedDeltaLength(e: MidiEvent): (n: int)
    ensures 1 <= n <= 4
  {
    QuantityLength(e.delta)
  }

  /** `getEncodedLengthLength`. */
  function EncodedLengthLength(length: int): (n: int)
    ensures 1 <= n <= 4
  {
    QuantityLength(length)
  }

  /** A status byte, a first parameter and, for two-parameter messages, a
    * second one. */
  function ChannelLength(s: ChannelSubevent): int {
    if HasTwoParams(s) then 3 else 2
  }

  /** `onMidiSystemEvent` (also used for unknown events): a status byte,
    * the length quantity and the data. */
  function SystemLength(length: int): int {
    1 + EncodedLengthLength(length) + length
  }

  /** `onMidiMetaEvent`: 0xFF, the type, the length quantity and the data. */
  function MetaLength(length: int): int {
    2 + EncodedLengthLength(length) + length
  }

  /** The details visitor. */
  function DetailsLength(d: EventDetails): int {
    match d
    case ChannelDetails(_, s) => ChannelLength(s)
    case SystemDetails(length, _) => SystemLength(length)
    case MetaDetails(length, _) => MetaLength(length)
    case UnknownDetails(_, _, length, _) => SystemLength(length)
  }

  function EventLength(e: MidiEvent): int {
    EncodedDeltaLength(e) + DetailsLength(e.details)
  }

  /** The sum of the event lengths. */
  function RequiredLength(events: seq<MidiEvent>): int
    decreases |events|
  {
    if |events| == 0 then 0
    else RequiredLength(events[..|events| - 1]) + EventLength(events[|events| - 1])
  }

  // ---------------------------------------------------------------
  // Properties

  /** The quantity length by magnitude: for `v` taken modulo 2^32, 4 from
    * 2^21 on, 3 from 2^14, 2 from 2^7 and 1 below. */
  lemma QuantityLengthThresholds(v: int)
    ensures var u := ToUint32(v);
      QuantityLength(v) == if u >= 0x20_0000 then 4 else if u >= 0x4000 then 3 else if u >= 0x80 then 2 else 1
  {
    Pow2Table();
  }

  /** Two-parameter messages count 3 bytes, the others 2; the one-parameter
    * messages are exactly program change, channel aftertouch and unknown
    * messages. */
  lemma ChannelLengthCases(s: ChannelSubevent)
    ensures ChannelLength(s) == 2 <==> s.ProgramChange? || s.ChannelAftertouch? || s.ChannelUnknown?
    ensures ChannelLength(s) == 2 || ChannelLength(s) == 3
  {
  }

  /** A meta event counts one byte more than a system event of the same
    * declared length. */
  lemma MetaLengthIsSystemLengthPlusOne(length: int)
    ensures MetaLength(length) == SystemLength(length) + 1
    ensures length >= 0 ==> SystemLength(length) >= length + 2
  {
  }

  /** The required length of two event lists one after the other is the
    * sum of their required lengths. */
  lemma {:induction false} RequiredLengthAppend(a: seq<MidiEvent>, b: seq<MidiEvent>)
    ensures RequiredLength(a + b) == RequiredLength(a) + RequiredLength(b)
    decreases |b|
  {
    if |b| == 0 {
      assert a + b == a;
    } else {
      var b' := b[..|b| - 1];
      assert (a + b)[..|a + b| - 1] == a + b';
      RequiredLengthAppend(a, b');
    }
  }

  // ---------------------------------------------------------------
  // The calculator

  /** `run`: adds up, event by event, the delta length and the details
    * length. */
  method Run(events: seq<MidiEvent>) returns (bufferLength: int)
    ensures bufferLength == RequiredLength(events)
  {
    bufferLength := 0;
    for i := 0 to |events|
      invariant bufferLength == RequiredLength(events[..i])
    {
      assert events[..i + 1][..i] == events[..i];
      bufferLength := bufferLength + EncodedDeltaLength(events[i]);
      bufferLength := bufferLength + DetailsLength(events[i].details);
    }
    assert events[..|events|] == events;
  }
}
