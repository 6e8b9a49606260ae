/** Three places where the event writer and the event decoder disagree,
  * each shown as written and next to a corrected definition that does
  * round-trip:
  *   - the two bytes of a sequence number are pushed least significant
  *     first and read most significant first;
  *   - system exclusive (and unknown) events are written without their
  *     status byte and length, although the size calculator counts them;
  *   - a key signature with flats (a negative key) is pushed as
  *     `256 + key` by the Uint8Array, and the decoder reads the key back
  *     unsigned. */
module CodecFindings {
  import opened Wrappers
  import opened Errors
  import opened Bits
  import opened MidiEvents
  import opened ByteStream
  import opened MidiParser
  import opened TrackWriter
  import opened RequiredLength
  import opened CodecLaws

  // ---------------------------------------------------------------
  // Sequence numbers

  /** As written: the writer pushes `lsb, msb`, the decoder reads `msb`
    * first, so the two bytes come back exchanged, and the event differs
    * from the one written whenever they differ. */
  lemma SequenceNumberSwapped(buffer: seq<byte>, q: int, strict: bool, msb: int, lsb: int)
    requires 0 <= msb < 0x100 && 0 <= lsb < 0x100
    requires Holds(buffer, q, MetaPayload(strict, 2, SequenceNumber(msb, lsb)).pushed)
    ensures MetaSubeventAt(buffer, q, strict, EVENT_META_SEQUENCE_NUMBER, 2) == Success(Read(SequenceNumber(lsb, msb), q + 2))
    ensures msb != lsb ==> MetaSubeventAt(buffer, q, strict, EVENT_META_SEQUENCE_NUMBER, 2) != Success(Read(SequenceNumber(msb, lsb), q + 2))
  {
    HeldAt(buffer, q, [lsb, msb], 0);
    HeldAt(buffer, q, [lsb, msb], 1);
  }

  /** Corrected: the bytes of a sequence number, most significant first,
    * the order the decoder reads them in. */
  function SequenceNumberBytes(msb: int, lsb: int): (w: seq<int>)
    ensures |w| == 2 && w[0] == msb && w[1] == lsb
  {
    [msb, lsb]
  }

  /** Corrected: a sequence number written most significant byte first
    * reads back unchanged, in strict mode too. */
  lemma SequenceNumberRoundTrip(buffer: seq<byte>, q: int, strict: bool, msb: int, lsb: int)
    requires 0 <= msb < 0x100 && 0 <= lsb < 0x100
    requires Holds(buffer, q, SequenceNumberBytes(msb, lsb))
    ensures MetaSubeventAt(buffer, q, strict, EVENT_META_SEQUENCE_NUMBER, 2) == Success(Read(SequenceNumber(msb, lsb), q + 2))
  {
    HeldAt(buffer, q, [msb, lsb], 0);
    HeldAt(buffer, q, [msb, lsb], 1);
  }

  // ---------------------------------------------------------------
  // System exclusive events

  /** As written: a system exclusive event is written as its data alone,
    * `length` bytes without the 0xF0 status and the length quantity the
    * size calculator counts. */
  lemma SysexWrittenWithoutHeader(strict: bool, length: int, data: seq<int>)
    requires 0 <= length
    ensures DetailsWrite(strict, SystemDetails(length, data)).ok
    ensures |DetailsWrite(strict, SystemDetails(length, data)).pushed| == length
    ensures DetailsLength(SystemDetails(length, data)) == length + 1 + QuantityLength(length) > length
  {
  }

  /** As written: the event with one data byte 0 is written as the single
    * byte 0, which the decoder, with no running status yet, refuses. */
  lemma SysexCounterexample(strict: bool)
    ensures DetailsWrite(strict, SystemDetails(1, [0])).pushed == [0]
    ensures EventDetailsAt([0], 0, strict, None).Failure?
  {
    RunningStatus([0], 0, strict, None);
  }

  /** Corrected: what the size calculator counts and the decoder reads, the
    * 0xF0 status, the length quantity, then the data. */
  function SystemWrite(length: int, data: seq<int>): seq<int> {
    [EVENT_SYSEX] + VarLengthBytes(length) + DataWrite(data, length)
  }

  /** Corrected: a system exclusive event takes the bytes the calculator
    * predicts. */
  lemma SystemWriteSize(length: int, data: seq<int>)
    requires 0 <= length < 0x1000_0000
    ensures |SystemWrite(length, data)| == SystemLength(length)
  {
    QuantityLengthMatches(length);
  }

  /** The status byte and length quantity of a written system exclusive
    * event read back, leaving the data after them. */
  lemma SystemHeaderRoundTrip(buffer: seq<byte>, position: int, length: int, quantity: seq<int>, data: seq<int>, q: int)
    requires 0 <= length < 0x1000_0000 && quantity == VarLengthBytes(length)
    requires q == position + 1 + |quantity|
    requires Holds(buffer, position, [EVENT_SYSEX] + quantity + data)
    ensures 0 <= position < |buffer| && buffer[position] == EVENT_SYSEX
    ensures VarInt(buffer, position + 1) == Success(Read(length, q))
    ensures Holds(buffer, q, data)
  {
    var header: seq<int> := [EVENT_SYSEX];
    AppendAssociates(header, quantity, data);
    HoldsSplit(buffer, position, header, quantity + data);
    var p := position + 1;
    assert Holds(buffer, p, quantity + data);
    HoldsSplit(buffer, p, quantity, data);
    HeldAt(buffer, position, header, 0);
    VarLengthRoundTrip(length, buffer, p, q);
  }

  /** The decoder on a system exclusive event whose length quantity reads
    * as `length` up to `q`, followed by the data. */
  lemma SysexEventAt(buffer: seq<byte>, position: int, strict: bool, last: Option<byte>, length: int, q: int, data: seq<int>)
    requires 0 <= position < |buffer| && buffer[position] == EVENT_SYSEX
    requires VarInt(buffer, position + 1) == Success(Read(length, q))
    requires |data| == length && BytesFrom(buffer, q, length) == Success(Read(data, q + length))
    ensures DetailsDecoded(EventDetailsAt(buffer, position, strict, last), SystemDetails(length, data), q + length, last)
  {
  }

  /** Corrected: a system exclusive event written with its status and
    * length reads back as the same event, and the decoder stops just after
    * it. */
  lemma SystemRoundTrip(buffer: seq<byte>, position: int, strict: bool, last: Option<byte>, length: int, data: seq<int>)
    requires 0 <= length < 0x1000_0000 && |data| == length && IsBytes(data)
    requires Holds(buffer, position, SystemWrite(length, data))
    ensures DetailsDecoded(EventDetailsAt(buffer, position, strict, last), SystemDetails(length, data),
                           position + |SystemWrite(length, data)|, last)
  {
    var q := position + 1 + |VarLengthBytes(length)|;
    DataWriteExact(data);
    SystemHeaderRoundTrip(buffer, position, length, VarLengthBytes(length), data, q);
    BytesHeld(buffer, q, data);
    SysexEventAt(buffer, position, strict, last, length, q, data);
  }

  // ---------------------------------------------------------------
  // Key signatures with flats

  /** As written: the writer accepts a key of -7..-1 (flats), the buffer
    * stores it as `256 + key`, and the decoder reads that back unsigned:
    * strict mode refuses it, and otherwise the key comes back as
    * `256 + key`. */
  lemma NegativeKeyRejected(buffer: seq<byte>, q: int, key: int, scale: int)
    requires -7 <= key < 0 && 0 <= scale <= 1
    requires Holds(buffer, q, MetaPayload(true, 2, KeySignature(key, scale)).pushed)
    ensures MetaPayload(true, 2, KeySignature(key, scale)).ok
    ensures MetaSubeventAt(buffer, q, true, EVENT_META_KEY_SIGNATURE, 2).Failure?
    ensures MetaSubeventAt(buffer, q, false, EVENT_META_KEY_SIGNATURE, 2) == Success(Read(KeySignature(256 + key, scale), q + 2))
  {
    HeldAt(buffer, q, [key, scale], 0);
    HeldAt(buffer, q, [key, scale], 1);
  }

  /** Corrected: the key byte read as a signed 8-bit number, the way a
    * key signature stores flats (Standard MIDI Files 1.0, "Key
    * Signature"). */
  function SignedKey(b: byte): (k: int)
    ensures -128 <= k < 128 && ToUint8(k) == b
  {
    if b > 127 then b - 256 else b
  }

  /** Corrected: `readMetaKeySignature` with the key read signed. */
  function KeySignatureSignedAt(buffer: seq<byte>, position: int, strict: bool, length: int): (r: Result<Read<MetaSubevent>>)
    ensures r.Success? ==> r.value.value.KeySignature?
  {
    if strict && length != 2 then Failure(BadMetaLength)
    else
      var key :- ByteAt(buffer, position);
      var k := SignedKey(key.value);
      if strict && (k < -7 || k > 7) then Failure(BadMetaLength)
      else
        var scale :- ByteAt(buffer, key.next);
        if strict && scale.value != 0 && scale.value != 1 then Failure(KeyScaleRange)
        else Success(Read(KeySignature(k, scale.value), scale.next))
  }

  /** Corrected: every key signature the writer accepts, sharps and flats,
    * reads back unchanged with the key read signed. */
  lemma KeySignatureSignedRoundTrip(buffer: seq<byte>, q: int, strict: bool, key: int, scale: int)
    requires MetaPayload(strict, 2, KeySignature(key, scale)).ok
    requires Holds(buffer, q, MetaPayload(strict, 2, KeySignature(key, scale)).pushed)
    ensures KeySignatureSignedAt(buffer, q, strict, 2) == Success(Read(KeySignature(key, scale), q + 2))
  {
    KeySignatureChecks(strict, 2, key, scale);
    HeldAt(buffer, q, [key, scale], 0);
    HeldAt(buffer, q, [key, scale], 1);
  }
}
