/** A track chunk of a Standard MIDI File ("MTrk", Standard MIDI Files 1.0,
  * "Track Chunks"), read and edited through a DataView: the chunk type, the
  * content length as a big-endian uint32, and the content, which a valid
  * track ends with the End of Track meta event FF 2F 00. */
module FileTrack {
  import opened Wrappers
  import opened Errors
  import opened Bits

  const HDR_LENGTH: int := 8

  /** "MTrk". */
  const TRACK_TYPE: seq<byte> := [0x4D, 0x54, 0x72, 0x6B]

  /** The End of Track meta event without its delta. */
  const END_OF_TRACK: seq<byte> := [0xFF, 0x2F, 0x00]

  /** The bytes `withoutBuffer` writes: "MTrk", length 4, then a zero delta
    * and End of Track. */
  const NEW_TRACK: seq<byte> := [0x4D, 0x54, 0x72, 0x6B, 0x00, 0x00, 0x00, 0x04, 0x00, 0xFF, 0x2F, 0x00]

  /** A DataView: a window of `byteLength` bytes at `byteOffset` in a buffer. */
  datatype View = View(buffer: array<byte>, byteOffset: nat, byteLength: nat)

  ghost predicate ViewValid(v: View) {
    v.byteOffset + v.byteLength <= v.buffer.Length
  }

  /** The bytes a view shows. */
  function ViewBytes(v: View): (r: seq<byte>)
    reads v.buffer
    requires ViewValid(v)
    ensures |r| == v.byteLength
  {
    v.buffer[v.byteOffset..v.byteOffset + v.byteLength]
  }

  /** `getUint32(k)`. */
  function Uint32At(b: seq<byte>, k: nat): (r: nat)
    requires k + 3 < |b|
    ensures r < TWO_32
  {
    BigEndian32(b[k], b[k + 1], b[k + 2], b[k + 3])
  }

  /** `setUint32(k, v)`: the four bytes of `v` modulo 2^32, most
    * significant first, at `k`; no other byte changes. */
  function WithUint32(b: seq<byte>, k: nat, v: int): (r: seq<byte>)
    requires k + 3 < |b|
    ensures |r| == |b| && Uint32At(r, k) == ToUint32(v)
    ensures forall i :: 0 <= i < |b| && (i < k || k + 3 < i) ==> r[i] == b[i]
  {
    var w := Uint32Bytes(v);
    b[k := w[0]][k + 1 := w[1]][k + 2 := w[2]][k + 3 := w[3]]
  }

  /** The checks of `fromBuffer(buffer, start)` on the buffer's bytes; on
    * success, the declared content length. A negative `start`, or a
    * declared length that passes the size check but leaves no room for the
    * 8 header bytes, makes the DataView constructor throw a RangeError. */
  function TrackChunkAt(b: seq<byte>, start: int): Result<nat> {
    if 12 > |b| - start then Failure(TrackTooShort)
    else if start < 0 then Failure(StartOutOfBuffer)
    else if !(b[start] == 0x4D && b[start + 1] == 0x54 && b[start + 2] == 0x72 && b[start + 3] == 0x6B) then
      Failure(TrackPrefixMissing)
    else
      var trackLength := Uint32At(b, start + 4);
      if |b| - start < trackLength then Failure(TrackExceedsBuffer)
      else if start + HDR_LENGTH + trackLength > |b| then Failure(InvalidViewLength)
      else
        var last := start + HDR_LENGTH + trackLength;
        if !(b[last - 3] == 0xFF && b[last - 2] == 0x2F && b[last - 1] == 0x00) then
          Failure(TrackEndMissing)
        else Success(trackLength)
  }

  /** The track chunk `setTrackContent` builds from content bytes `src`
    * and the length it computes. */
  function ChunkWith(trackLength: nat, src: seq<byte>): (r: seq<byte>)
    requires trackLength <= |src|
    ensures |r| == HDR_LENGTH + trackLength
  {
    TRACK_TYPE + Uint32Bytes(trackLength) + src[..trackLength]
  }

  /** `setTrackContent` as written: the length is taken as
    * `byteLength - byteOffset` of the given view, and the copy into the
    * shorter destination drops what does not fit. */
  function SetContentAsWritten(v: View): Result<seq<byte>>
    reads v.buffer
    requires ViewValid(v)
  {
    var trackLength := v.byteLength - v.byteOffset;
    if 4 > trackLength then Failure(TrackLengthTooSmall)
    else Success(ChunkWith(trackLength, ViewBytes(v)))
  }

  /** `setTrackContent` with the length taken as the view's `byteLength`. */
  function SetContentFixed(content: seq<byte>): Result<seq<byte>> {
    if 4 > |content| then Failure(TrackLengthTooSmall)
    else Success(ChunkWith(|content|, content))
  }

  // ---------------------------------------------------------------
  // Properties

  /** `fromBuffer` succeeds exactly when at least 12 bytes remain at a
    * non-negative `start`, the chunk type is "MTrk", the declared content
    * fits the buffer after the 8 header bytes, and the content ends with
    * FF 2F 00; a content shorter than 3 bytes never passes, since the last
    * three positions then fall on the length field. */
  lemma TrackChunkShape(b: seq<byte>, start: int)
    ensures TrackChunkAt(b, start).Success? <==>
      0 <= start && start + 12 <= |b| && b[start..start + 4] == TRACK_TYPE &&
      start + HDR_LENGTH + Uint32At(b, start + 4) <= |b| &&
      b[start + HDR_LENGTH + Uint32At(b, start + 4) - 3..start + HDR_LENGTH + Uint32At(b, start + 4)] == END_OF_TRACK
    ensures TrackChunkAt(b, start).Success? ==>
      var len := TrackChunkAt(b, start).value;
      len == Uint32At(b, start + 4) && len >= 3
  {
    if 0 <= start && start + 12 <= |b| {
      assert b[start..start + 4] == TRACK_TYPE <==>
        b[start] == 0x4D && b[start + 1] == 0x54 && b[start + 2] == 0x72 && b[start + 3] == 0x6B;
    }
    if 0 <= start && start + 12 <= |b| && b[start..start + 4] == TRACK_TYPE {
      var len := Uint32At(b, start + 4);
      if start + HDR_LENGTH + len <= |b| {
        var last := start + HDR_LENGTH + len;
        if len < 3 {
          assert len == ((b[start + 4] * TWO_8 + b[start + 5]) * TWO_8 + b[start + 6]) * TWO_8 + b[start + 7];
          assert b[start + 4] == 0 && b[start + 5] == 0 && b[start + 6] == 0;
          assert b[last - 3] != 0xFF;
          assert b[last - 3..last][0] == b[last - 3];
        }
        assert b[last - 3..last] == [b[last - 3], b[last - 2], b[last - 1]];
      }
    }
  }

  /** The track `withoutBuffer` writes passes the checks of `fromBuffer`
    * with content length 4. */
  lemma NewTrackReads()
    ensures TrackChunkAt(NEW_TRACK, 0) == Success(4)
  {
    assert NEW_TRACK[0..4] == TRACK_TYPE;
    assert Uint32At(NEW_TRACK, 4) == 4;
  }

  /** As written, `setTrackContent` loses the last `byteOffset` bytes of
    * a view that does not start at offset 0: a 5-byte content 00 00 FF 2F
    * 00 seen at offset 1 becomes a 4-byte track without its End of Track
    * event, which `fromBuffer` refuses. */
  lemma SetContentTruncates(a: array<byte>)
    requires a[..] == [0x00, 0x00, 0x00, 0xFF, 0x2F, 0x00]
    ensures ViewValid(View(a, 1, 5)) && ViewBytes(View(a, 1, 5)) == [0x00, 0x00, 0xFF, 0x2F, 0x00]
    ensures SetContentAsWritten(View(a, 1, 5)) == Success(NEW_TRACK[..8] + [0x00, 0x00, 0xFF, 0x2F])
    ensures TrackChunkAt(SetContentAsWritten(View(a, 1, 5)).value, 0).Failure?
  {
    var v := View(a, 1, 5);
    var content := ViewBytes(v);
    assert content == a[1..6] == [0x00, 0x00, 0xFF, 0x2F, 0x00];
    assert content[..4] == [0x00, 0x00, 0xFF, 0x2F];
    assert Uint32Bytes(4) == [0, 0, 0, 4];
    assert NEW_TRACK[..8] == TRACK_TYPE + [0, 0, 0, 4];
    var chunk := ChunkWith(4, content);
    assert chunk == NEW_TRACK[..8] + [0x00, 0x00, 0xFF, 0x2F];
    assert SetContentAsWritten(v) == Success(chunk);
    assert chunk[9] == 0x00;
    TrackChunkShape(chunk, 0);
  }

  /** Corrected: content of at least 4 bytes ending with End of Track
    * becomes a chunk that passes `fromBuffer`, declares the content's
    * length and shows exactly that content after its header. */
  lemma SetContentRoundTrip(content: seq<byte>)
    requires |content| >= 4 && |content| < TWO_32 && content[|content| - 3..] == END_OF_TRACK
    ensures SetContentFixed(content).Success?
    ensures var chunk := SetContentFixed(content).value;
      TrackChunkAt(chunk, 0) == Success(|content|) && chunk[HDR_LENGTH..] == content
  {
    var chunk := ChunkWith(|content|, content);
    assert chunk[..4] == TRACK_TYPE;
    assert chunk[4..8] == Uint32Bytes(|content|);
    assert chunk[HDR_LENGTH..] == content;
    assert Uint32At(chunk, 4) == |content|;
    var last := HDR_LENGTH + |content|;
    assert chunk[last - 3..last] == content[|content| - 3..];
    TrackChunkShape(chunk, 0);
  }

  // ---------------------------------------------------------------
  // The track object

  /** A track over the DataView `buffer[byteOffset..byteOffset +
    * byteLength]`, header included. */
  class MidiFileTrack {
    var buffer: array<byte>
    var byteOffset: nat
    var byteLength: nat

    ghost predicate Valid()
      reads this
    {
      HDR_LENGTH <= byteLength && byteOffset + byteLength <= buffer.Length
    }

    /** The bytes of the chunk. */
    function Bytes(): (r: seq<byte>)
      reads this, buffer
      requires Valid()
      ensures |r| == byteLength
    {
      buffer[byteOffset..byteOffset + byteLength]
    }

    constructor (buffer: array<byte>, byteOffset: nat, byteLength: nat)
      requires HDR_LENGTH <= byteLength && byteOffset + byteLength <= buffer.Length
      ensures this.buffer == buffer && this.byteOffset == byteOffset && this.byteLength == byteLength && Valid()
    {
      this.buffer := buffer;
      this.byteOffset := byteOffset;
      this.byteLength := byteLength;
    }

    /** `withoutBuffer`: a fresh empty track. */
    static method WithoutBuffer() returns (t: MidiFileTrack)
      ensures fresh(t) && fresh(t.buffer) && t.Valid() && t.byteOffset == 0 && t.Bytes() == NEW_TRACK
    {
      var a := new byte[12];
      a[0], a[1], a[2], a[3] := 0x4D, 0x54, 0x72, 0x6B;
      a[4], a[5], a[6], a[7] := 0x00, 0x00, 0x00, 0x04;
      a[8], a[9], a[10], a[11] := 0x00, 0xFF, 0x2F, 0x00;
      assert a[..] == NEW_TRACK;
      t := new MidiFileTrack(a, 0, 12);
    }

    /** `fromBuffer`: a track over the chunk at `start` when its checks
      * pass. */
    static method FromBuffer(buffer: array<byte>, start: int) returns (r: Result<MidiFileTrack>)
      ensures var c := TrackChunkAt(old(buffer[..]), start);
        if c.Success? then
          r.Success? && r.value.buffer == buffer && r.value.byteOffset == start &&
          r.value.byteLength == HDR_LENGTH + c.value && r.value.Valid()
        else r == Failure(c.error)
    {
      ghost var b := buffer[..];
      if 12 > buffer.Length - start {
        return Failure(TrackTooShort);
      }
      if start < 0 {
        return Failure(StartOutOfBuffer);
      }
      assert b[start] == buffer[start] && b[start + 1] == buffer[start + 1];
      assert b[start + 2] == buffer[start + 2] && b[start + 3] == buffer[start + 3];
      if !(buffer[start] == 0x4D && buffer[start + 1] == 0x54 && buffer[start + 2] == 0x72 && buffer[start + 3] == 0x6B) {
        return Failure(TrackPrefixMissing);
      }
      var trackLength := BigEndian32(buffer[start + 4], buffer[start + 5], buffer[start + 6], buffer[start + 7]);
      assert trackLength == Uint32At(b, start + 4);
      if buffer.Length - start < trackLength {
        return Failure(TrackExceedsBuffer);
      }
      if start + HDR_LENGTH + trackLength > buffer.Length {
        return Failure(InvalidViewLength);
      }
      var last := start + HDR_LENGTH + trackLength;
      assert b[last - 3] == buffer[last - 3] && b[last - 2] == buffer[last - 2] && b[last - 1] == buffer[last - 1];
      if !(buffer[last - 3] == 0xFF && buffer[last - 2] == 0x2F && buffer[last - 1] == 0x00) {
        return Failure(TrackEndMissing);
      }
      assert TrackChunkAt(b, start) == Success(trackLength);
      var t := new MidiFileTrack(buffer, start, HDR_LENGTH + trackLength);
      return Success(t);
    }

    method GetTrackLength() returns (trackLength: nat)
      requires Valid()
      ensures trackLength == Uint32At(Bytes(), 4)
    {
      trackLength := BigEndian32(buffer[byteOffset + 4], buffer[byteOffset + 5], buffer[byteOffset + 6], buffer[byteOffset + 7]);
    }

    method SetTrackLength(trackLength: int)
      requires Valid()
      modifies buffer
      ensures buffer[..] == WithUint32(old(buffer[..]), byteOffset + 4, trackLength)
    {
      var w := Uint32Bytes(trackLength);
      buffer[byteOffset + 4] := w[0];
      buffer[byteOffset + 5] := w[1];
      buffer[byteOffset + 6] := w[2];
      buffer[byteOffset + 7] := w[3];
    }

    /** `getTrackContent`: a view of the bytes after the 8-byte header, in
      * the same buffer. */
    method GetTrackContent() returns (v: View)
      requires Valid()
      ensures ViewValid(v) && v.buffer == buffer && v.byteOffset == byteOffset + HDR_LENGTH && ViewBytes(v) == Bytes()[HDR_LENGTH..]
    {
      v := View(buffer, byteOffset + HDR_LENGTH, byteLength - HDR_LENGTH);
    }

    /** `setTrackContent` as written: a fresh chunk of `8 + byteLength -
      * byteOffset` bytes, the header written, then the view's bytes copied
      * while they fit. */
    method SetTrackContent(v: View) returns (r: Outcome)
      requires Valid() && ViewValid(v)
      modifies this
      ensures var s := SetContentAsWritten(v);
        if s.Success? then r.Pass? && Valid() && fresh(buffer) && byteOffset == 0 && Bytes() == s.value
        else r.Fail? && buffer == old(buffer) && byteOffset == old(byteOffset) && byteLength == old(byteLength)
    {
      var trackLength := v.byteLength - v.byteOffset;
      if 4 > trackLength {
        return Fail(TrackLengthTooSmall);
      }
      var a := NewChunk(v, trackLength);
      buffer, byteOffset, byteLength := a, 0, a.Length;
      assert Bytes() == a[..];
      return Pass;
    }

    /** The chunk `setTrackContent` allocates: the `MTrk` tag, the length
      * and then as many bytes of the view as fit. */
    static method NewChunk(v: View, trackLength: nat) returns (a: array<byte>)
      requires ViewValid(v) && trackLength <= v.byteLength
      ensures fresh(a) && a[..] == ChunkWith(trackLength, ViewBytes(v))
    {
      ghost var src := ViewBytes(v);
      a := new byte[HDR_LENGTH + trackLength];
      a[0], a[1], a[2], a[3] := 0x4D, 0x54, 0x72, 0x6B;
      var w := Uint32Bytes(trackLength);
      a[4], a[5], a[6], a[7] := w[0], w[1], w[2], w[3];
      assert a[..HDR_LENGTH] == a[..4] + a[4..HDR_LENGTH];
      assert a[..4] == TRACK_TYPE && a[4..HDR_LENGTH] == w;
      for i := 0 to v.byteLength
        invariant a[..HDR_LENGTH] == TRACK_TYPE + Uint32Bytes(trackLength)
        invariant forall k :: 0 <= k < i && k < trackLength ==> a[HDR_LENGTH + k] == src[k]
      {
        if i < trackLength {
          a[HDR_LENGTH + i] := v.buffer[v.byteOffset + i];
        }
      }
      assert a[HDR_LENGTH..] == src[..trackLength];
      assert a[..] == a[..HDR_LENGTH] + a[HDR_LENGTH..];
    }
  }
}
