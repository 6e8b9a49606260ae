/** A Standard MIDI File (Standard MIDI Files 1.0, "Chunks"): a header
  * chunk followed by `tracksCount` track chunks laid end to end. Reading a
  * file walks the chunks, then reads the events of every track, either
  * track after track or, for a format 1 file with several tracks, merged
  * by always taking the pending event with the smallest delta. */
module MidiFile {
  import opened Wrappers
  import opened Errors
  import opened Bits
  import opened ByteStream
  import opened MidiEvents
  import opened MidiParser
  import opened FileHeader
  import opened FileTrack
  import Lyrics
  import Utf8

  /** A header chunk and an empty track chunk. */
  const MIN_FILE_LENGTH: int := 25

  /** `xs` followed by the items of `r`, or the failure of `r`: what a
    * loop has gathered so far, put before what its rest yields. */
  function Prepend<T>(xs: seq<T>, r: Result<seq<T>>): Result<seq<T>> {
    if r.Success? then Success(xs + r.value) else r
  }

  lemma PrependNothing<T>(r: Result<seq<T>>)
    ensures Prepend([], r) == r
  {
    if r.Success? {
      assert [] + r.value == r.value;
    }
  }

  // ---------------------------------------------------------------
  // The chunk walk of `fromBuffer`

  /** The checks of `MidiFileTrack.fromBuffer(buffer, start)` and, when
    * they pass, the content length `getTrackLength()` then reads. */
  function ChunkReader(b: seq<byte>): int -> Result<nat> {
    start => TrackChunkAt(b, start)
  }

  /** The loop of `fromBuffer` from the chunk at `index` in a buffer of
    * `size` bytes, with `remaining` tracks still to read and `chunkAt`
    * reading the chunk at a given start: the content length of every track
    * read, or the first failure. Each track must start before the last
    * byte, and after the last track the walk must stand exactly at the end
    * of the buffer. */
  function Walk(chunkAt: int -> Result<nat>, size: int, index: int, remaining: nat): (r: Result<seq<nat>>)
    ensures r.Success? ==> |r.value| == remaining
    decreases remaining
  {
    if remaining == 0 then
      if index != size then Failure(TooMuchData)
      else Success([])
    else if index >= size - 1 then Failure(TrackDataMissing)
    else
      var trackLength :- chunkAt(index);
      var rest :- Walk(chunkAt, size, index + trackLength + HDR_LENGTH, remaining - 1);
      Success([trackLength] + rest)
  }

  /** The checks of `fromBuffer` before the tracks are read, then the walk
    * over the number of tracks the header declares. */
  function FileChunks(b: seq<byte>): Result<seq<nat>> {
    if MIN_FILE_LENGTH > |b| then Failure(FileTooShort)
    else
      match HeaderCheck(b)
      case Fail(e) => Failure(e)
      case Pass => Walk(ChunkReader(b), |b|, HEADER_LENGTH, TracksCountOf(b))
  }

  /** Where the `k`-th chunk starts when the walk begins at `index` and the
    * chunks before it have content lengths `lens`: `index` plus, for each
    * earlier chunk, its content and its 8 header bytes. */
  function StartOf(index: int, lens: seq<nat>, k: nat): int
    requires k <= |lens|
  {
    if k == 0 then index else StartOf(index, lens, k - 1) + lens[k - 1] + HDR_LENGTH
  }

  /** Moving the start of the walk past its first chunk. */
  lemma {:induction false} StartOfTail(index: int, len: nat, rest: seq<nat>, k: nat)
    requires k <= |rest|
    ensures StartOf(index, [len] + rest, k + 1) == StartOf(index + len + HDR_LENGTH, rest, k)
    decreases k
  {
    if k > 0 {
      StartOfTail(index, len, rest, k - 1);
      assert ([len] + rest)[k] == rest[k - 1];
    }
  }

  /** A successful walk reads exactly `remaining` chunks and ends at the
    * end of the buffer; its `k`-th chunk starts at `StartOf(index, lens,
    * k)`, before the last byte, and `chunkAt` accepts it there with the
    * length the walk recorded. */
  lemma {:induction false} WalkStarts(chunkAt: int -> Result<nat>, size: int, index: int, remaining: nat, k: nat)
    ensures var r := Walk(chunkAt, size, index, remaining);
      r.Success? ==> |r.value| == remaining && StartOf(index, r.value, |r.value|) == size
    ensures var r := Walk(chunkAt, size, index, remaining);
      r.Success? && k < |r.value| ==>
        StartOf(index, r.value, k) < size - 1 && chunkAt(StartOf(index, r.value, k)) == Success(r.value[k])
    decreases remaining
  {
    var r := Walk(chunkAt, size, index, remaining);
    if remaining > 0 && r.Success? {
      var len := chunkAt(index).value;
      var next := index + len + HDR_LENGTH;
      var rest := Walk(chunkAt, size, next, remaining - 1).value;
      assert r.value == [len] + rest;
      WalkStarts(chunkAt, size, next, remaining - 1, if k > 0 then k - 1 else 0);
      StartOfTail(index, len, rest, |rest|);
      if 0 < k < |r.value| {
        StartOfTail(index, len, rest, k - 1);
        assert r.value[k] == rest[k - 1];
      }
    }
  }

  /** `fromBuffer` refuses a buffer under 25 bytes or a bad header;
    * otherwise it reads exactly `getTracksCount()` chunks, the `k`-th at
    * `14 + Σ_{j<k} (len_j + 8)`, starting before the last byte and passing
    * the track checks there, and the last one ends at the end of the
    * buffer. */
  lemma FileChunksLayout(b: seq<byte>, k: nat)
    ensures |b| < MIN_FILE_LENGTH ==> FileChunks(b).Failure?
    ensures |b| >= MIN_FILE_LENGTH && HeaderCheck(b).Fail? ==> FileChunks(b) == Failure(HeaderCheck(b).error)
    ensures var r := FileChunks(b);
      r.Success? ==> HeaderCheck(b).Pass? && |r.value| == TracksCountOf(b) && StartOf(HEADER_LENGTH, r.value, |r.value|) == |b|
    ensures var r := FileChunks(b);
      r.Success? && k < |r.value| ==>
        var start := StartOf(HEADER_LENGTH, r.value, k);
        start < |b| - 1 && TrackChunkAt(b, start) == Success(r.value[k])
  {
    if |b| >= MIN_FILE_LENGTH && HeaderCheck(b).Pass? {
      WalkStarts(ChunkReader(b), |b|, HEADER_LENGTH, TracksCountOf(b), k);
    }
  }

  /** The whole walk, resumed at `index` with `remaining` tracks to read
    * after the lengths `lens` already read. */
  function Resumed(chunkAt: int -> Result<nat>, size: int, lens: seq<nat>, index: int, remaining: nat): Result<seq<nat>> {
    Prepend(lens, Walk(chunkAt, size, index, remaining))
  }

  /** Resumed before any chunk is read, the walk is the whole walk. */
  lemma ResumedStart(chunkAt: int -> Result<nat>, size: int, remaining: nat)
    ensures Resumed(chunkAt, size, [], HEADER_LENGTH, remaining) == Walk(chunkAt, size, HEADER_LENGTH, remaining)
  {
    PrependNothing(Walk(chunkAt, size, HEADER_LENGTH, remaining));
  }

  /** One round of the walk after the lengths `lens`: the chunk at
    * `index` is read and the walk goes on after it. */
  lemma WalkStep(chunkAt: int -> Result<nat>, size: int, index: int, remaining: nat, lens: seq<nat>)
    requires remaining > 0 && index < size - 1 && chunkAt(index).Success?
    ensures var len := chunkAt(index).value;
      Resumed(chunkAt, size, lens + [len], index + len + HDR_LENGTH, remaining - 1) ==
        Resumed(chunkAt, size, lens, index, remaining)
  {
    var len := chunkAt(index).value;
    var rest := Walk(chunkAt, size, index + len + HDR_LENGTH, remaining - 1);
    if rest.Success? {
      assert lens + [len] + rest.value == lens + ([len] + rest.value);
    }
  }

  /** Appending a length leaves the starts of the earlier chunks alone. */
  lemma {:induction false} StartOfAppend(index: int, lens: seq<nat>, len: nat, k: nat)
    requires k <= |lens|
    ensures StartOf(index, lens + [len], k) == StartOf(index, lens, k)
    decreases k
  {
    if k > 0 {
      StartOfAppend(index, lens, len, k - 1);
      assert (lens + [len])[k - 1] == lens[k - 1];
    }
  }

  /** A successful walk reads its first chunk at `index` and the rest of
    * its chunks after it. */
  lemma WalkTail(chunkAt: int -> Result<nat>, size: int, index: int, lens: seq<nat>)
    requires lens != [] && Walk(chunkAt, size, index, |lens|) == Success(lens)
    ensures index < size - 1 && chunkAt(index) == Success(lens[0])
    ensures Walk(chunkAt, size, index + lens[0] + HDR_LENGTH, |lens| - 1) == Success(lens[1..])
  {
    var rest := Walk(chunkAt, size, index + chunkAt(index).value + HDR_LENGTH, |lens| - 1).value;
    assert lens == [chunkAt(index).value] + rest;
    assert lens[1..] == rest;
  }

  /** Every chunk `chunkAt` accepts lies inside a buffer of `size` bytes. */
  ghost predicate ChunksInside(chunkAt: int -> Result<nat>, size: int) {
    forall start :: chunkAt(start).Success? ==> 0 <= start && start + HDR_LENGTH + chunkAt(start).value <= size
  }

  /** `chunkAt` reads the track chunks of `b`. */
  ghost predicate ReadsChunks(chunkAt: int -> Result<nat>, b: seq<byte>) {
    forall start {:trigger TrackChunkAt(b, start)} :: chunkAt(start) == TrackChunkAt(b, start)
  }

  lemma ReaderChunks(b: seq<byte>)
    ensures ReadsChunks(ChunkReader(b), b)
  {
  }

  /** A chunk the track checks accept lies inside the buffer. */
  lemma ReaderInside(b: seq<byte>)
    ensures ChunksInside(ChunkReader(b), |b|)
  {
    forall start | ChunkReader(b)(start).Success?
      ensures 0 <= start && start + HDR_LENGTH + ChunkReader(b)(start).value <= |b|
    {
      TrackChunkShape(b, start);
    }
  }

  /** The content of the chunk at `start` with content length `len`: its
    * bytes after the 8-byte header, and where they sit in the buffer. */
  function ChunkContent(b: seq<byte>, start: int, len: nat): TrackContent
    requires 0 <= start && start + HDR_LENGTH + len <= |b|
  {
    TrackContent(b[start + HDR_LENGTH..start + HDR_LENGTH + len], start + HDR_LENGTH)
  }

  /** The contents of the chunks of `b` a successful walk from `index`
    * reads. */
  function WalkContents(b: seq<byte>, chunkAt: int -> Result<nat>, index: int, lens: seq<nat>): (r: seq<TrackContent>)
    requires ChunksInside(chunkAt, |b|) && Walk(chunkAt, |b|, index, |lens|) == Success(lens)
    ensures |r| == |lens|
    decreases |lens|
  {
    if lens == [] then []
    else
      WalkTail(chunkAt, |b|, index, lens);
      [ChunkContent(b, index, lens[0])] + WalkContents(b, chunkAt, index + lens[0] + HDR_LENGTH, lens[1..])
  }

  /** The `k`-th content of the walk is that of the chunk at the `k`-th
    * start. */
  lemma {:induction false} WalkContentsAt(b: seq<byte>, chunkAt: int -> Result<nat>, index: int, lens: seq<nat>, k: nat)
    requires ChunksInside(chunkAt, |b|) && Walk(chunkAt, |b|, index, |lens|) == Success(lens) && k < |lens|
    ensures var start := StartOf(index, lens, k);
      0 <= start && start + HDR_LENGTH + lens[k] <= |b| &&
      WalkContents(b, chunkAt, index, lens)[k] == ChunkContent(b, start, lens[k])
    decreases k
  {
    WalkTail(chunkAt, |b|, index, lens);
    var next, rest := index + lens[0] + HDR_LENGTH, lens[1..];
    assert |rest| == |lens| - 1;
    var all, tail := WalkContents(b, chunkAt, index, lens), WalkContents(b, chunkAt, next, rest);
    assert all == [ChunkContent(b, index, lens[0])] + tail;
    if k == 0 {
      assert StartOf(index, lens, 0) == index;
      assert chunkAt(index).Success?;
      assert all[0] == ChunkContent(b, index, lens[0]);
    } else {
      WalkContentsAt(b, chunkAt, next, rest, k - 1);
      var start := StartOf(next, rest, k - 1);
      assert 0 <= start && start + HDR_LENGTH + rest[k - 1] <= |b|;
      assert tail[k - 1] == ChunkContent(b, start, rest[k - 1]);
      assert [lens[0]] + rest == lens;
      assert k - 1 + 1 == k;
      StartOfTail(index, lens[0], rest, k - 1);
      assert StartOf(index, [lens[0]] + rest, k) == start;
      assert StartOf(index, lens, k) == start;
      assert lens[k] == rest[k - 1];
      assert all[k] == tail[k - 1];
    }
  }

  /** The contents of the tracks `fromBuffer` finds, or its failure. */
  function FileContents(b: seq<byte>): (r: Result<seq<TrackContent>>)
    ensures r.Success? ==> |b| >= MIN_FILE_LENGTH && |r.value| == TracksCountOf(b)
    ensures r.Failure? ==> FileChunks(b).Failure? && r.error == FileChunks(b).error
  {
    var lens :- FileChunks(b);
    FileChunksLayout(b, 0);
    ReaderInside(b);
    Success(WalkContents(b, ChunkReader(b), HEADER_LENGTH, lens))
  }

  /** Past the length and header checks, the contents of the file are
    * those of the walk over the declared number of tracks. */
  lemma FileContentsAfter(b: seq<byte>)
    requires |b| >= MIN_FILE_LENGTH && HeaderCheck(b).Pass?
    ensures var w := Walk(ChunkReader(b), |b|, HEADER_LENGTH, TracksCountOf(b));
      ChunksInside(ChunkReader(b), |b|) &&
      FileChunks(b) == w &&
      if w.Success? then FileContents(b) == Success(WalkContents(b, ChunkReader(b), HEADER_LENGTH, w.value))
      else FileContents(b) == Failure(w.error)
  {
    ReaderInside(b);
  }

  // ---------------------------------------------------------------
  // Reading the events of one track

  /** The content of a track as its parser sees it: the bytes after the
    * chunk header and their offset in the file's buffer. */
  datatype TrackContent = TrackContent(bytes: seq<byte>, byteOffset: nat)

  /** The events a non-strict parser yields from `position` until `next()`
    * yields nothing, or the first failure. */
  function TrackEvents(buffer: seq<byte>, byteOffset: nat, position: int, last: Option<byte>): Result<seq<MidiEvent>>
    requires 0 <= position <= |buffer|
    decreases |buffer| - position
  {
    var e :- NextEventAt(buffer, byteOffset, position, false, last);
    if e.None? then Success([])
    else
      NextEventProgress(buffer, byteOffset, position, false, last);
      var rest :- TrackEvents(buffer, byteOffset, e.value.next, e.value.last);
      Success([e.value.event] + rest)
  }

  /** One step of `TrackEvents` after the events `events`: a failing
    * `next()` fails the track, an empty one ends it, and an event is
    * followed by the events after it. */
  lemma TrackEventsStep(buffer: seq<byte>, byteOffset: nat, position: int, last: Option<byte>, events: seq<MidiEvent>)
    requires 0 <= position <= |buffer|
    ensures var e := NextEventAt(buffer, byteOffset, position, false, last);
      var r := TrackEvents(buffer, byteOffset, position, last);
      (e.Failure? ==> r.Failure?) &&
      (e.Success? && e.value.None? ==> r == Success([])) &&
      (e.Success? && e.value.Some? ==>
        position < e.value.value.next <= |buffer| &&
        Prepend(events + [e.value.value.event], TrackEvents(buffer, byteOffset, e.value.value.next, e.value.value.last)) ==
          Prepend(events, r))
  {
    NextEventProgress(buffer, byteOffset, position, false, last);
    var e := NextEventAt(buffer, byteOffset, position, false, last);
    if e.Success? && e.value.Some? {
      var rest := TrackEvents(buffer, byteOffset, e.value.value.next, e.value.value.last);
      if rest.Success? {
        assert events + [e.value.value.event] + rest.value == events + ([e.value.value.event] + rest.value);
      }
    }
  }

  /** The events of a whole track content. */
  function ContentEvents(c: TrackContent): Result<seq<MidiEvent>> {
    TrackEvents(c.bytes, c.byteOffset, 0, None)
  }

  /** The tracks read one after another, each track's events in order. */
  function SequentialFrom(contents: seq<TrackContent>): Result<seq<MidiEvent>>
    decreases |contents|
  {
    if contents == [] then Success([])
    else
      var first :- ContentEvents(contents[0]);
      var rest :- SequentialFrom(contents[1..]);
      Success(first + rest)
  }

  /** One track of `SequentialFrom` after the events `events`: a track
    * that fails to read fails the rest, and the events of one that reads
    * are followed by those of the tracks after it. */
  lemma SequentialStep(contents: seq<TrackContent>, i: nat, events: seq<MidiEvent>, trackEvents: Result<seq<MidiEvent>>)
    requires i < |contents| && SameEvents(trackEvents, ContentEvents(contents[i]))
    ensures trackEvents.Failure? ==> SequentialFrom(contents[i..]).Failure?
    ensures trackEvents.Success? ==>
      Prepend(events + trackEvents.value, SequentialFrom(contents[i + 1..])) == Prepend(events, SequentialFrom(contents[i..]))
  {
    assert contents[i..][1..] == contents[i + 1..];
    var rest := SequentialFrom(contents[i + 1..]);
    if trackEvents.Success? && rest.Success? {
      assert events + trackEvents.value + rest.value == events + (trackEvents.value + rest.value);
    }
  }

  /** `readSequentially`: the format and the tick resolution are read
    * first and may throw; playing times are not modelled. */
  function SequentialEvents(h: seq<byte>, contents: seq<TrackContent>): Result<seq<MidiEvent>>
    requires |h| >= HEADER_LENGTH
  {
    var _ :- FormatOf(h);
    match TickResolutionCheck(h)
    case Fail(e) => Failure(e)
    case Pass => SequentialFrom(contents)
  }

  // ---------------------------------------------------------------
  // Merging the tracks

  /** The state of a track's parser: its view, its cursor and its running
    * status. */
  datatype Cursor = Cursor(buffer: seq<byte>, byteOffset: nat, position: int, last: Option<byte>)

  predicate CursorValid(c: Cursor) {
    0 <= c.position <= |c.buffer|
  }

  /** What `parser.next()` returns and the parser's state after it. */
  datatype Step = Step(event: Option<MidiEvent>, cursor: Cursor)

  /** `parser.next()` on a non-strict parser. */
  function ParserNext(c: Cursor): (r: Result<Step>)
    requires CursorValid(c)
    ensures r.Success? ==> CursorValid(r.value.cursor) && r.value.cursor.buffer == c.buffer
    ensures r.Success? && r.value.event.Some? ==> c.position < r.value.cursor.position
    ensures r.Success? && r.value.event.None? ==> r.value.cursor == c && c.position == |c.buffer|
  {
    var e :- NextEventAt(c.buffer, c.byteOffset, c.position, false, c.last);
    NextEventProgress(c.buffer, c.byteOffset, c.position, false, c.last);
    if e.None? then Success(Step(None, c))
    else Success(Step(Some(e.value.event), c.(position := e.value.next, last := e.value.last)))
  }

  /** A `TrackParser`: the number of its track, its pending event (`None`
    * once the parser is exhausted) and its parser. */
  datatype TrackParser = TrackParser(trackIndex: int, midiEvent: Option<MidiEvent>, parser: Cursor)

  /** A `SmallestDeltaTrackMidiEvent`. */
  datatype SmallestDelta = SmallestDelta(trackIndex: int, midiEvent: MidiEvent)

  predicate ParsersValid(ps: seq<TrackParser>) {
    forall i :: 0 <= i < |ps| ==> CursorValid(ps[i].parser)
  }

  /** The track parser of track `k`: a parser over its content, and the
    * first event it yields. */
  function NewTrackParser(k: int, c: TrackContent): (r: Result<TrackParser>)
    ensures r.Success? ==> r.value.trackIndex == k && CursorValid(r.value.parser)
  {
    var s :- ParserNext(Cursor(c.bytes, c.byteOffset, 0, None));
    Success(TrackParser(k, s.event, s.cursor))
  }

  /** The map that builds the track parsers of tracks `k..`, each numbered
    * by its position. */
  function StartAll(start: (int, TrackContent) -> Result<TrackParser>, contents: seq<TrackContent>, k: nat): (r: Result<seq<TrackParser>>)
    requires k <= |contents|
    ensures r.Success? <==> forall i :: k <= i < |contents| ==> start(i, contents[i]).Success?
    ensures r.Success? ==> |r.value| == |contents| - k
    ensures r.Success? ==> forall i :: 0 <= i < |r.value| ==> r.value[i] == start(k + i, contents[k + i]).value
    decreases |contents| - k
  {
    if k == |contents| then Success([])
    else
      var first :- start(k, contents[k]);
      var rest :- StartAll(start, contents, k + 1);
      Success([first] + rest)
  }

  /** The parsers `readConcurrently` starts, one per track in order, each
    * holding the first event of its track. */
  function TrackParsers(contents: seq<TrackContent>): (r: Result<seq<TrackParser>>)
    ensures r.Success? <==> forall i :: 0 <= i < |contents| ==> NewTrackParser(i, contents[i]).Success?
    ensures r.Success? ==> |r.value| == |contents| && ParsersValid(r.value)
    ensures r.Success? ==> forall i :: 0 <= i < |r.value| ==> r.value[i] == NewTrackParser(i, contents[i]).value
    ensures r.Success? ==> forall i :: 0 <= i < |r.value| ==> r.value[i].trackIndex == i
  {
    StartAll(NewTrackParser, contents, 0)
  }

  /** The loop of `findSmallestDeltaEvent` over the first `n` parsers: the
    * position of the event it keeps. */
  function SmallestUpTo(ps: seq<TrackParser>, n: nat): (r: Option<nat>)
    requires n <= |ps|
    ensures r.Some? ==> r.value < n && ps[r.value].midiEvent.Some?
  {
    if n == 0 then None
    else
      var s := SmallestUpTo(ps, n - 1);
      if ps[n - 1].midiEvent.None? then s
      else if s.None? || ps[n - 1].midiEvent.value.delta < ps[s.value].midiEvent.value.delta then Some(n - 1)
      else s
  }

  /** The result of `findSmallestDeltaEvent`. */
  function SmallestOf(ps: seq<TrackParser>): Option<SmallestDelta> {
    match SmallestUpTo(ps, |ps|)
    case None => None
    case Some(i) => Some(SmallestDelta(ps[i].trackIndex, ps[i].midiEvent.value))
  }

  /** Among the first `n` parsers, the one at `i` has a pending event with
    * the least delta, and every earlier one has a larger delta or none. */
  predicate IsSmallestBelow(ps: seq<TrackParser>, n: nat, i: nat)
    requires n <= |ps|
  {
    i < n && ps[i].midiEvent.Some? &&
    (forall j :: 0 <= j < n && ps[j].midiEvent.Some? ==> ps[i].midiEvent.value.delta <= ps[j].midiEvent.value.delta) &&
    (forall j :: 0 <= j < i && ps[j].midiEvent.Some? ==> ps[i].midiEvent.value.delta < ps[j].midiEvent.value.delta)
  }

  /** The loop keeps nothing exactly when every parser is exhausted, and
    * otherwise keeps the earliest parser with the least delta: ties go to
    * the earlier track since the comparison is strict. */
  lemma {:induction false} SmallestMeaning(ps: seq<TrackParser>, n: nat)
    requires n <= |ps|
    ensures SmallestUpTo(ps, n).None? <==> forall j :: 0 <= j < n ==> ps[j].midiEvent.None?
    ensures forall i: nat :: IsSmallestBelow(ps, n, i) <==> SmallestUpTo(ps, n) == Some(i)
    decreases n
  {
    if n > 0 {
      SmallestMeaning(ps, n - 1);
      var s := SmallestUpTo(ps, n);
      if s.Some? {
        assert IsSmallestBelow(ps, n, s.value) by {
          if s.value < n - 1 {
            assert IsSmallestBelow(ps, n - 1, s.value);
          }
        }
      }
      forall i: nat | IsSmallestBelow(ps, n, i)
        ensures s == Some(i)
      {
        if i < n - 1 {
          assert IsSmallestBelow(ps, n - 1, i);
        } else if SmallestUpTo(ps, n - 1).Some? {
          var k := SmallestUpTo(ps, n - 1).value;
          assert IsSmallestBelow(ps, n - 1, k);
        }
      }
    }
  }

  /** One parser after the event of `smallest` was taken: the chosen track
    * reads its next event, an exhausted track stays as it is, and any
    * other track's pending event gets nearer by the chosen delta. */
  function NextTrackParser(smallest: SmallestDelta, p: TrackParser): Result<TrackParser>
    requires CursorValid(p.parser)
  {
    if smallest.trackIndex == p.trackIndex then
      var s :- ParserNext(p.parser);
      Success(TrackParser(p.trackIndex, s.event, s.cursor))
    else if p.midiEvent.None? then Success(p)
    else
      var e := p.midiEvent.value;
      Success(p.(midiEvent := Some(e.(delta := e.delta - smallest.midiEvent.delta))))
  }

  /** `getNextTrackParsers`: `NextTrackParser` on every parser in order;
    * the first parser whose `next()` throws ends the map. */
  function NextTrackParsers(smallest: SmallestDelta, ps: seq<TrackParser>): Result<seq<TrackParser>>
    requires ParsersValid(ps)
    decreases |ps|
  {
    if ps == [] then Success([])
    else
      var first :- NextTrackParser(smallest, ps[0]);
      var rest :- NextTrackParsers(smallest, ps[1..]);
      Success([first] + rest)
  }

  /** What `getNextTrackParsers` makes of the parser at `i`: the same
    * track; the chosen track's next event and parser state; an exhausted
    * track unchanged; any other track with the chosen delta taken off its
    * pending event. */
  predicate NextParserAt(smallest: SmallestDelta, ps: seq<TrackParser>, r: seq<TrackParser>, i: int)
    requires 0 <= i < |ps| && |r| == |ps| && ParsersValid(ps)
  {
    r[i].trackIndex == ps[i].trackIndex &&
    (ps[i].trackIndex == smallest.trackIndex ==>
      var s := ParserNext(ps[i].parser);
      s.Success? && r[i].midiEvent == s.value.event && r[i].parser == s.value.cursor) &&
    (ps[i].trackIndex != smallest.trackIndex && ps[i].midiEvent.None? ==> r[i] == ps[i]) &&
    (ps[i].trackIndex != smallest.trackIndex && ps[i].midiEvent.Some? ==>
      var e := ps[i].midiEvent.value;
      r[i].parser == ps[i].parser && r[i].midiEvent == Some(e.(delta := e.delta - smallest.midiEvent.delta)))
  }

  /** `getNextTrackParsers` fails exactly when the chosen track's `next()`
    * fails. */
  lemma {:induction false} NextTrackParsersFail(smallest: SmallestDelta, ps: seq<TrackParser>)
    requires ParsersValid(ps)
    ensures NextTrackParsers(smallest, ps).Success? <==>
      forall i :: 0 <= i < |ps| && ps[i].trackIndex == smallest.trackIndex ==> ParserNext(ps[i].parser).Success?
    decreases |ps|
  {
    if ps != [] {
      NextTrackParsersFail(smallest, ps[1..]);
      if NextTrackParsers(smallest, ps).Success? {
        forall i | 0 <= i < |ps| && ps[i].trackIndex == smallest.trackIndex
          ensures ParserNext(ps[i].parser).Success?
        {
          if i > 0 {
            assert ps[i] == ps[1..][i - 1];
          }
        }
      } else if NextTrackParser(smallest, ps[0]).Success? {
        var i :| 0 <= i < |ps[1..]| && ps[1..][i].trackIndex == smallest.trackIndex && ParserNext(ps[1..][i].parser).Failure?;
        assert ps[i + 1] == ps[1..][i];
      }
    }
  }

  /** `getNextTrackParsers` keeps the number and the order of the
    * parsers, advances exactly the chosen track, leaves exhausted tracks
    * untouched and takes the chosen delta off every other pending event. */
  lemma {:induction false} NextTrackParsersSpec(smallest: SmallestDelta, ps: seq<TrackParser>)
    requires ParsersValid(ps)
    ensures var r := NextTrackParsers(smallest, ps);
      r.Success? ==> |r.value| == |ps| && ParsersValid(r.value) && forall i :: 0 <= i < |ps| ==> NextParserAt(smallest, ps, r.value, i)
    decreases |ps|
  {
    var r := NextTrackParsers(smallest, ps);
    if ps != [] && r.Success? {
      NextTrackParsersSpec(smallest, ps[1..]);
      var first := NextTrackParser(smallest, ps[0]).value;
      var rest := NextTrackParsers(smallest, ps[1..]).value;
      assert r.value == [first] + rest;
      forall i | 0 <= i < |ps|
        ensures NextParserAt(smallest, ps, r.value, i)
      {
        if i > 0 {
          assert NextParserAt(smallest, ps[1..], rest, i - 1);
          assert r.value[i] == rest[i - 1] && ps[i] == ps[1..][i - 1];
        }
      }
    }
  }

  /** Pending deltas never go negative: every parser starts with a delta
    * read as a variable-length quantity, and the chosen delta is the least
    * pending one. */
  predicate DeltasNonNegative(ps: seq<TrackParser>) {
    forall i :: 0 <= i < |ps| && ps[i].midiEvent.Some? ==> ps[i].midiEvent.value.delta >= 0
  }

  /** A delta `next()` reads is never negative. */
  lemma ParserNextDelta(c: Cursor)
    requires CursorValid(c)
    ensures var r := ParserNext(c);
      r.Success? && r.value.event.Some? ==> r.value.event.value.delta >= 0
  {
    NextEventShape(c.buffer, c.byteOffset, c.position, false, c.last);
  }

  lemma DeltasStayNonNegative(ps: seq<TrackParser>)
    requires ParsersValid(ps) && DeltasNonNegative(ps) && SmallestOf(ps).Some?
    ensures var r := NextTrackParsers(SmallestOf(ps).value, ps);
      r.Success? ==> DeltasNonNegative(r.value)
  {
    var smallest := SmallestOf(ps).value;
    var k := SmallestUpTo(ps, |ps|).value;
    SmallestMeaning(ps, |ps|);
    assert IsSmallestBelow(ps, |ps|, k);
    NextTrackParsersSpec(smallest, ps);
    var r := NextTrackParsers(smallest, ps);
    if r.Success? {
      forall i | 0 <= i < |r.value| && r.value[i].midiEvent.Some?
        ensures r.value[i].midiEvent.value.delta >= 0
      {
        assert NextParserAt(smallest, ps, r.value, i);
        if ps[i].trackIndex == smallest.trackIndex {
          ParserNextDelta(ps[i].parser);
        } else if ps[i].midiEvent.Some? {
          assert ps[k].midiEvent.value.delta <= ps[i].midiEvent.value.delta;
        }
      }
    }
  }

  /** What is left to read: the unread bytes of every parser and one for
    * every pending event. */
  function Weight(p: TrackParser): nat
    requires CursorValid(p.parser)
  {
    |p.parser.buffer| - p.parser.position + (if p.midiEvent.Some? then 1 else 0)
  }

  function Pending(ps: seq<TrackParser>): nat
    requires ParsersValid(ps)
    decreases |ps|
  {
    if ps == [] then 0 else Weight(ps[0]) + Pending(ps[1..])
  }

  /** Taking the smallest event leaves less to read: no parser's weight
    * grows and the chosen parser's weight shrinks. */
  lemma {:induction false} PendingDecreases(smallest: SmallestDelta, ps: seq<TrackParser>, k: nat)
    requires ParsersValid(ps) && NextTrackParsers(smallest, ps).Success?
    ensures ParsersValid(NextTrackParsers(smallest, ps).value)
    ensures Pending(NextTrackParsers(smallest, ps).value) <= Pending(ps)
    ensures k < |ps| && ps[k].trackIndex == smallest.trackIndex && ps[k].midiEvent.Some? ==>
      Pending(NextTrackParsers(smallest, ps).value) < Pending(ps)
    decreases |ps|
  {
    if ps != [] {
      var r := NextTrackParsers(smallest, ps).value;
      var first := NextTrackParser(smallest, ps[0]).value;
      var rest := NextTrackParsers(smallest, ps[1..]).value;
      assert r == [first] + rest && r[1..] == rest;
      PendingDecreases(smallest, ps[1..], if k > 0 then k - 1 else 0);
      if k > 0 && k < |ps| {
        assert ps[1..][k - 1] == ps[k];
      }
      assert Weight(first) <= Weight(ps[0]);
    }
  }

  /** The loop of `readConcurrently` from the parsers `ps`: while some
    * event is pending, emit the smallest one, numbered with its track, and
    * move the parsers on. */
  function ConcurrentFrom(ps: seq<TrackParser>): Result<seq<MidiEvent>>
    requires ParsersValid(ps)
    decreases Pending(ps)
  {
    match SmallestOf(ps)
    case None => Success([])
    case Some(smallest) =>
      var next :- NextTrackParsers(smallest, ps);
      SmallestMeaning(ps, |ps|);
      PendingDecreases(smallest, ps, SmallestUpTo(ps, |ps|).value);
      var rest :- ConcurrentFrom(next);
      Success([smallest.midiEvent.(trackIndex := smallest.trackIndex)] + rest)
  }

  /** `readConcurrently`: the tick resolution is read first and may
    * throw; playing times are not modelled. */
  function ConcurrentEvents(h: seq<byte>, contents: seq<TrackContent>): Result<seq<MidiEvent>>
    requires |h| >= HEADER_LENGTH
  {
    match TickResolutionCheck(h)
    case Fail(e) => Failure(e)
    case Pass => ConcurrentTracks(contents)
  }

  /** What `readConcurrently` does after the tick resolution: one parser
    * per track, then the merge. */
  function ConcurrentTracks(contents: seq<TrackContent>): Result<seq<MidiEvent>>
  {
    var ps :- TrackParsers(contents);
    ConcurrentFrom(ps)
  }

  /** `readEvents`: tracks are read one after another unless the file is
    * of format 1 with more than one track. */
  function EventsOf(h: seq<byte>, contents: seq<TrackContent>): Result<seq<MidiEvent>>
    requires |h| >= HEADER_LENGTH
  {
    var format :- FormatOf(h);
    if format != 1 || |contents| == 1 then SequentialEvents(h, contents)
    else ConcurrentEvents(h, contents)
  }

  // ---------------------------------------------------------------
  // Filtering events

  predicate IsChannelEvent(e: MidiEvent) {
    e.details.ChannelDetails?
  }

  predicate IsMetaEvent(e: MidiEvent) {
    e.details.MetaDetails?
  }

  /** The events of `es` that `keep` accepts, in their order. */
  function Kept(keep: MidiEvent -> bool, es: seq<MidiEvent>): seq<MidiEvent>
    decreases |es|
  {
    if es == [] then []
    else Kept(keep, es[..|es| - 1]) + (if keep(es[|es| - 1]) then [es[|es| - 1]] else [])
  }

  /** An event is kept exactly when it occurs and is accepted. */
  lemma {:induction false} KeptMembers(keep: MidiEvent -> bool, es: seq<MidiEvent>)
    ensures forall e :: e in Kept(keep, es) <==> e in es && keep(e)
    decreases |es|
  {
    if es != [] {
      var init := es[..|es| - 1];
      KeptMembers(keep, init);
      assert es == init + [es[|es| - 1]];
    }
  }

  /** Filtering commutes with concatenation, so the kept events keep their
    * relative order. */
  lemma {:induction false} KeptConcat(keep: MidiEvent -> bool, a: seq<MidiEvent>, b: seq<MidiEvent>)
    ensures Kept(keep, a + b) == Kept(keep, a) + Kept(keep, b)
    decreases |b|
  {
    if b == [] {
      assert a + b == a;
    } else {
      var init := b[..|b| - 1];
      KeptConcat(keep, a, init);
      assert (a + b)[..|a + b| - 1] == a + init;
    }
  }

  /** Everything kept is accepted, and filtering twice filters once. */
  lemma {:induction false} KeptAccepted(keep: MidiEvent -> bool, es: seq<MidiEvent>)
    ensures forall i :: 0 <= i < |Kept(keep, es)| ==> keep(Kept(keep, es)[i])
    ensures Kept(keep, Kept(keep, es)) == Kept(keep, es)
    ensures |Kept(keep, es)| <= |es|
    decreases |es|
  {
    if es != [] {
      var init := es[..|es| - 1];
      var e := es[|es| - 1];
      KeptAccepted(keep, init);
      if keep(e) {
        assert Kept(keep, es) == Kept(keep, init) + [e];
        KeptConcat(keep, Kept(keep, init), [e]);
        assert Kept(keep, [e]) == [e] by {
          assert [e][..0] == [];
        }
      } else {
        assert Kept(keep, es) == Kept(keep, init);
      }
    }
  }

  /** Filtering keeps the byte-valued texts of the events it keeps. */
  lemma KeptTexts(keep: MidiEvent -> bool, es: seq<MidiEvent>)
    requires Lyrics.TextsAreBytes(es)
    ensures Lyrics.TextsAreBytes(Kept(keep, es))
  {
    KeptMembers(keep, es);
    var r := Kept(keep, es);
    forall i | 0 <= i < |r| && Lyrics.IsText(r[i])
      ensures Lyrics.AreBytes(r[i].details.subevent.data)
    {
      assert r[i] in es;
      var j :| 0 <= j < |es| && es[j] == r[i];
    }
  }

  // ---------------------------------------------------------------
  // The events read are those of the bytes

  /** The texts of two runs of events are bytes when those of each run
    * are. */
  lemma TextsConcat(a: seq<MidiEvent>, b: seq<MidiEvent>)
    requires Lyrics.TextsAreBytes(a) && Lyrics.TextsAreBytes(b)
    ensures Lyrics.TextsAreBytes(a + b)
  {
    forall i | 0 <= i < |a + b| && Lyrics.IsText((a + b)[i])
      ensures Lyrics.AreBytes((a + b)[i].details.subevent.data)
    {
      if i >= |a| {
        assert (a + b)[i] == b[i - |a|];
      }
    }
  }

  /** A text meta body is bytes of the track. */
  lemma MetaTextBytes(buffer: seq<byte>, position: int, subtype: byte, length: int)
    ensures var r := MetaSubeventAt(buffer, position, false, subtype, length);
      r.Success? && r.value.value.Text? ==> Lyrics.AreBytes(r.value.value.data)
  {
  }

  /** Only meta events hold texts, and their texts are bytes of the
    * track. */
  lemma DetailsTextBytes(buffer: seq<byte>, position: int, last: Option<byte>)
    ensures var r := EventDetailsAt(buffer, position, false, last);
      r.Success? && r.value.details.MetaDetails? && r.value.details.subevent.Text? ==>
        Lyrics.AreBytes(r.value.details.subevent.data)
  {
    var code := ByteAt(buffer, position);
    if code.Success? && code.value.value == EVENT_META {
      var subtype := ByteAt(buffer, code.value.next);
      if subtype.Success? {
        var length := VarInt(buffer, subtype.value.next);
        if length.Success? {
          MetaTextBytes(buffer, length.value.next, subtype.value.value, length.value.value);
        }
      }
    }
  }

  /** The text of an event `next()` yields is bytes of the track. */
  lemma ParsedTextBytes(buffer: seq<byte>, byteOffset: nat, position: int, last: Option<byte>)
    ensures var r := NextEventAt(buffer, byteOffset, position, false, last);
      r.Success? && r.value.Some? ==> Lyrics.TextsAreBytes([r.value.value.event])
  {
    var delta := VarInt(buffer, position);
    if position != |buffer| && delta.Success? {
      DetailsTextBytes(buffer, delta.value.next, last);
    }
  }

  lemma {:induction false} TrackTextsAreBytes(buffer: seq<byte>, byteOffset: nat, position: int, last: Option<byte>)
    requires 0 <= position <= |buffer|
    ensures var r := TrackEvents(buffer, byteOffset, position, last);
      r.Success? ==> Lyrics.TextsAreBytes(r.value)
    decreases |buffer| - position
  {
    var r := TrackEvents(buffer, byteOffset, position, last);
    var e := NextEventAt(buffer, byteOffset, position, false, last);
    if r.Success? && e.value.Some? {
      NextEventProgress(buffer, byteOffset, position, false, last);
      ParsedTextBytes(buffer, byteOffset, position, last);
      var p := e.value.value;
      TrackTextsAreBytes(buffer, byteOffset, p.next, p.last);
      var rest := TrackEvents(buffer, byteOffset, p.next, p.last).value;
      assert r.value == [p.event] + rest;
      TextsConcat([p.event], rest);
    }
  }

  lemma {:induction false} SequentialTextsAreBytes(contents: seq<TrackContent>)
    ensures var r := SequentialFrom(contents);
      r.Success? ==> Lyrics.TextsAreBytes(r.value)
    decreases |contents|
  {
    var r := SequentialFrom(contents);
    if contents != [] && r.Success? {
      TrackTextsAreBytes(contents[0].bytes, contents[0].byteOffset, 0, None);
      SequentialTextsAreBytes(contents[1..]);
      var first := ContentEvents(contents[0]).value;
      var rest := SequentialFrom(contents[1..]).value;
      assert r.value == first + rest;
      TextsConcat(first, rest);
    }
  }

  /** The pending events of the parsers hold byte texts. */
  predicate PendingTextsAreBytes(ps: seq<TrackParser>) {
    forall i :: 0 <= i < |ps| && ps[i].midiEvent.Some? && Lyrics.IsText(ps[i].midiEvent.value) ==>
      Lyrics.AreBytes(ps[i].midiEvent.value.details.subevent.data)
  }

  lemma ParserNextTexts(c: Cursor)
    requires CursorValid(c)
    ensures var r := ParserNext(c);
      r.Success? && r.value.event.Some? && Lyrics.IsText(r.value.event.value) ==>
        Lyrics.AreBytes(r.value.event.value.details.subevent.data)
  {
    ParsedTextBytes(c.buffer, c.byteOffset, c.position, c.last);
  }

  lemma StartTextsAreBytes(contents: seq<TrackContent>)
    ensures var r := TrackParsers(contents);
      r.Success? ==> PendingTextsAreBytes(r.value)
  {
    var r := TrackParsers(contents);
    if r.Success? {
      forall i | 0 <= i < |r.value|
        ensures r.value[i].midiEvent.Some? && Lyrics.IsText(r.value[i].midiEvent.value) ==>
          Lyrics.AreBytes(r.value[i].midiEvent.value.details.subevent.data)
      {
        ParserNextTexts(Cursor(contents[i].bytes, contents[i].byteOffset, 0, None));
      }
    }
  }

  lemma NextTextsAreBytes(smallest: SmallestDelta, ps: seq<TrackParser>)
    requires ParsersValid(ps) && PendingTextsAreBytes(ps)
    ensures var r := NextTrackParsers(smallest, ps);
      r.Success? ==> PendingTextsAreBytes(r.value)
  {
    NextTrackParsersSpec(smallest, ps);
    var r := NextTrackParsers(smallest, ps);
    if r.Success? {
      forall i | 0 <= i < |ps|
        ensures r.value[i].midiEvent.Some? && Lyrics.IsText(r.value[i].midiEvent.value) ==>
          Lyrics.AreBytes(r.value[i].midiEvent.value.details.subevent.data)
      {
        ParserNextTexts(ps[i].parser);
      }
    }
  }

  lemma {:induction false} ConcurrentTextsAreBytes(ps: seq<TrackParser>)
    requires ParsersValid(ps) && PendingTextsAreBytes(ps)
    ensures var r := ConcurrentFrom(ps);
      r.Success? ==> Lyrics.TextsAreBytes(r.value)
    decreases Pending(ps)
  {
    var r := ConcurrentFrom(ps);
    if r.Success? && SmallestOf(ps).Some? {
      var smallest := SmallestOf(ps).value;
      var k := SmallestUpTo(ps, |ps|).value;
      SmallestMeaning(ps, |ps|);
      PendingDecreases(smallest, ps, k);
      NextTextsAreBytes(smallest, ps);
      var next := NextTrackParsers(smallest, ps).value;
      ConcurrentTextsAreBytes(next);
      var rest := ConcurrentFrom(next).value;
      var e := smallest.midiEvent.(trackIndex := smallest.trackIndex);
      assert r.value == [e] + rest;
      assert ps[k].midiEvent == Some(smallest.midiEvent);
      assert Lyrics.TextsAreBytes([e]);
      TextsConcat([e], rest);
    }
  }

  /** Every text the file's events hold is a sequence of bytes, whichever
    * way the tracks are read. */
  lemma EventTextsAreBytes(h: seq<byte>, contents: seq<TrackContent>)
    requires |h| >= HEADER_LENGTH
    ensures var r := EventsOf(h, contents);
      r.Success? ==> Lyrics.TextsAreBytes(r.value)
  {
    SequentialTextsAreBytes(contents);
    StartTextsAreBytes(contents);
    var ps := TrackParsers(contents);
    if ps.Success? {
      ConcurrentTextsAreBytes(ps.value);
    }
  }

  // ---------------------------------------------------------------
  // The file object

  /** The content of a track chunk, as `getTrackContent` shows it. */
  function ContentOf(t: MidiFileTrack): TrackContent
    reads t, t.buffer
    requires t.Valid()
  {
    TrackContent(t.Bytes()[HDR_LENGTH..], t.byteOffset + HDR_LENGTH)
  }

  /** The contents of the tracks, in order. */
  function ContentsOf(tracks: seq<MidiFileTrack>): (r: seq<TrackContent>)
    reads tracks, set t | t in tracks :: t.buffer
    requires forall i :: 0 <= i < |tracks| ==> tracks[i].Valid()
    ensures |r| == |tracks|
    ensures forall i :: 0 <= i < |tracks| ==> r[i] == ContentOf(tracks[i])
    decreases |tracks|
  {
    if tracks == [] then [] else [ContentOf(tracks[0])] + ContentsOf(tracks[1..])
  }

  ghost predicate TracksValid(tracks: seq<MidiFileTrack>)
    reads tracks
  {
    forall i :: 0 <= i < |tracks| ==> tracks[i].Valid()
  }

  /** A run of events a method reads agrees with its specification: the
    * same events, or a failure where the specification fails. */
  predicate SameEvents(r: Result<seq<MidiEvent>>, s: Result<seq<MidiEvent>>) {
    if s.Success? then r == s else r.Failure?
  }

  /** The tracks read so far are views of `buffer` at the starts of the
    * walk with lengths `lens`. */
  ghost predicate TracksAt(buffer: array<byte>, tracks: seq<MidiFileTrack>, lens: seq<nat>)
    reads tracks
  {
    |tracks| == |lens| &&
    forall j {:trigger tracks[j]} :: 0 <= j < |tracks| ==>
      tracks[j].Valid() && tracks[j].buffer == buffer &&
      tracks[j].byteOffset == StartOf(HEADER_LENGTH, lens, j) && tracks[j].byteLength == HDR_LENGTH + lens[j]
  }

  /** A track at the next start extends the tracks read so far. */
  lemma TracksAtStep(buffer: array<byte>, tracks: seq<MidiFileTrack>, lens: seq<nat>, track: MidiFileTrack, len: nat)
    requires TracksAt(buffer, tracks, lens)
    requires track.Valid() && track.buffer == buffer && track.byteLength == HDR_LENGTH + len
    requires track.byteOffset == StartOf(HEADER_LENGTH, lens, |lens|)
    ensures TracksAt(buffer, tracks + [track], lens + [len])
  {
    var ts, ls := tracks + [track], lens + [len];
    forall j | 0 <= j < |ts|
      ensures ts[j].Valid() && ts[j].buffer == buffer &&
        ts[j].byteOffset == StartOf(HEADER_LENGTH, ls, j) && ts[j].byteLength == HDR_LENGTH + ls[j]
    {
      StartOfAppend(HEADER_LENGTH, lens, len, j);
      if j < |tracks| {
        assert ts[j] == tracks[j] && ls[j] == lens[j];
      }
    }
  }

  /** The tracks of a successful walk show the contents of that walk. */
  lemma TracksMatchWalk(buffer: array<byte>, chunkAt: int -> Result<nat>, tracks: seq<MidiFileTrack>, lens: seq<nat>)
    requires TracksAt(buffer, tracks, lens)
    requires ChunksInside(chunkAt, buffer.Length) && Walk(chunkAt, buffer.Length, HEADER_LENGTH, |lens|) == Success(lens)
    ensures TracksValid(tracks)
    ensures ContentsOf(tracks) == WalkContents(buffer[..], chunkAt, HEADER_LENGTH, lens)
  {
    var b := buffer[..];
    forall j | 0 <= j < |tracks|
      ensures ContentsOf(tracks)[j] == WalkContents(b, chunkAt, HEADER_LENGTH, lens)[j]
    {
      WalkContentsAt(b, chunkAt, HEADER_LENGTH, lens, j);
      var t := tracks[j];
      assert t.Bytes()[HDR_LENGTH..] == b[t.byteOffset + HDR_LENGTH..t.byteOffset + HDR_LENGTH + lens[j]];
    }
  }

  /** One round of the loop of `fromBuffer` on the walk: the lengths
    * `lens` read so far and the walk still to do from `index`. */
  lemma ChunkStep(chunkAt: int -> Result<nat>, size: int, lens: seq<nat>, index: int, remaining: nat, len: nat)
    requires index == StartOf(HEADER_LENGTH, lens, |lens|)
    requires remaining > 0 && index < size - 1 && chunkAt(index) == Success(len)
    ensures index + len + HDR_LENGTH == StartOf(HEADER_LENGTH, lens + [len], |lens| + 1)
    ensures Resumed(chunkAt, size, lens + [len], index + len + HDR_LENGTH, remaining - 1) ==
      Resumed(chunkAt, size, lens, index, remaining)
  {
    StartOfAppend(HEADER_LENGTH, lens, len, |lens|);
    assert (lens + [len])[|lens|] == len;
    WalkStep(chunkAt, size, index, remaining, lens);
  }

  /** Where the next round of the walk fails, the whole walk fails with
    * the same error. */
  lemma WalkHere(chunkAt: int -> Result<nat>, size: int, lens: seq<nat>, index: int, remaining: nat)
    requires remaining > 0
    ensures index >= size - 1 ==>
      Resumed(chunkAt, size, lens, index, remaining) == Failure(TrackDataMissing)
    ensures index < size - 1 && chunkAt(index).Failure? ==>
      Resumed(chunkAt, size, lens, index, remaining) == Failure(chunkAt(index).error)
  {
  }

  /** The length a track read at `start` holds in its header is the
    * length the track checks read. */
  lemma NewTrackLength(b: seq<byte>, track: MidiFileTrack, start: int, len: nat)
    requires TrackChunkAt(b, start) == Success(len)
    requires track.Valid() && track.buffer[..] == b && track.byteOffset == start && track.byteLength == HDR_LENGTH + len
    ensures Uint32At(track.Bytes(), 4) == len
  {
    TrackChunkShape(b, start);
    assert track.Bytes() == b[start..start + HDR_LENGTH + len];
  }

  /** The file `withoutBuffer` builds reads as one event: the end of its
    * only track, at offset 8 of the track chunk. */
  lemma NewFileEvents()
    ensures EventsOf(NEW_HEADER, [TrackContent(NEW_TRACK[HDR_LENGTH..], HDR_LENGTH)]) ==
      Success([NewMidiEvent(HDR_LENGTH, 0, MetaDetails(0, EndOfTrack))])
  {
    NewHeaderReads();
    DivisionGetters(NEW_HEADER);
    var bytes := NEW_TRACK[HDR_LENGTH..];
    assert bytes == [0x00, 0xFF, 0x2F, 0x00];
    assert VarInt(bytes, 0) == Success(Read(0, 1));
    assert VarInt(bytes, 3) == Success(Read(0, 4));
    assert MetaSubeventAt(bytes, 4, false, EVENT_META_END_OF_TRACK, 0) == Success(Read(EndOfTrack, 4));
    var e := NextEventAt(bytes, HDR_LENGTH, 0, false, None);
    assert e.Success? && e.value.Some? && e.value.value.event == NewMidiEvent(HDR_LENGTH, 0, MetaDetails(0, EndOfTrack));
    assert e.value.value.next == 4;
    assert TrackEvents(bytes, HDR_LENGTH, 4, e.value.value.last) == Success([]);
    var events := [NewMidiEvent(HDR_LENGTH, 0, MetaDetails(0, EndOfTrack))];
    TrackEventsStep(bytes, HDR_LENGTH, 0, None, []);
    var r := TrackEvents(bytes, HDR_LENGTH, 0, None);
    assert Prepend([] + [e.value.value.event], Success([])) == Prepend([], r);
    assert [] + [e.value.value.event] + [] == events;
    assert Prepend([], r) == Success(events);
    PrependNothing(r);
    assert TrackEvents(bytes, HDR_LENGTH, 0, None) == Success(events);
    var contents := [TrackContent(bytes, HDR_LENGTH)];
    assert contents[1..] == [];
    assert SequentialFrom(contents) == Success(events + []);
    assert TickResolutionCheck(NEW_HEADER) == Pass;
  }

  /** The content of the track `withoutBuffer` builds. */
  lemma NewContents(track: MidiFileTrack) returns (contents: seq<TrackContent>)
    requires track.Valid() && track.byteOffset == 0 && track.Bytes() == NEW_TRACK
    ensures contents == ContentsOf([track]) == [TrackContent(NEW_TRACK[HDR_LENGTH..], HDR_LENGTH)]
  {
    var content := ContentOf(track);
    contents := ContentsOf([track]);
    assert |contents| == 1 && contents[0] == content;
    assert contents == [content];
  }

  class MidiFile {
    const header: MidiFileHeader
    const tracks: seq<MidiFileTrack>
    var readMidiEvents: seq<MidiEvent>

    ghost predicate Valid()
      reads this, header, tracks
    {
      header.Valid() && TracksValid(tracks) && Lyrics.TextsAreBytes(readMidiEvents)
    }

    constructor (header: MidiFileHeader, tracks: seq<MidiFileTrack>)
      ensures this.header == header && this.tracks == tracks && readMidiEvents == []
    {
      this.header := header;
      this.tracks := tracks;
      readMidiEvents := [];
    }

    /** `fromBuffer`: the header, then the track chunks laid end to end
      * after it, then the events of the tracks. */
    static method FromBuffer(buffer: array<byte>) returns (r: Result<MidiFile>)
      ensures var c := FileContents(buffer[..]);
        if c.Success? then
          (r.Success? <==> EventsOf(buffer[..], c.value).Success?) &&
          (r.Success? ==>
            r.value.header.datas == buffer && r.value.Valid() && ContentsOf(r.value.tracks) == c.value &&
            r.value.readMidiEvents == EventsOf(buffer[..], c.value).value)
        else r == Failure(c.error)
    {
      ghost var b := buffer[..];
      if MIN_FILE_LENGTH > buffer.Length {
        return Failure(FileTooShort);
      }
      var h := MidiFileHeader.FromBuffer(buffer);
      assert buffer[..] == b;
      if h.Failure? {
        return Failure(h.error);
      }
      var header := h.value;
      var tracksCount := header.GetTracksCount();
      assert buffer[..] == b;
      ReaderChunks(b);
      var t := ReadChunks(buffer, b, ChunkReader(b), tracksCount);
      assert buffer[..] == b;
      FileContentsAfter(b);
      if t.Failure? {
        return Failure(t.error);
      }
      var tracks := t.value;
      TracksMatchWalk(buffer, ChunkReader(b), tracks, FileChunks(b).value);
      r := Create(header, tracks);
      assert buffer[..] == b;
    }

    /** The loop of `fromBuffer` over the track chunks, with `chunkAt`
      * reading the chunk at a start of `b`. */
    static method ReadChunks(buffer: array<byte>, ghost b: seq<byte>, ghost chunkAt: int -> Result<nat>, tracksCount: nat)
      returns (r: Result<seq<MidiFileTrack>>)
      requires b == buffer[..] && ReadsChunks(chunkAt, b)
      ensures var w := Walk(chunkAt, |b|, HEADER_LENGTH, tracksCount);
        if w.Success? then r.Success? && TracksAt(buffer, r.value, w.value)
        else r == Failure(w.error)
    {
      ghost var w := Walk(chunkAt, |b|, HEADER_LENGTH, tracksCount);
      var tracks: seq<MidiFileTrack> := [];
      ghost var lens: seq<nat> := [];
      var currentBufferIndex: int := HEADER_LENGTH;
      ResumedStart(chunkAt, |b|, tracksCount);
      for currentTrack := 0 to tracksCount
        invariant |lens| == currentTrack && TracksAt(buffer, tracks, lens)
        invariant currentBufferIndex == StartOf(HEADER_LENGTH, lens, currentTrack)
        invariant Resumed(chunkAt, |b|, lens, currentBufferIndex, tracksCount - currentTrack) == w
      {
        var next, trackLength := NextChunk(buffer, b, chunkAt, currentBufferIndex, lens, tracksCount - currentTrack);
        if next.Failure? {
          return Failure(next.error);
        }
        var track := next.value;
        assert tracksCount - currentTrack - 1 == tracksCount - (currentTrack + 1);
        TracksAtStep(buffer, tracks, lens, track, trackLength);
        tracks := tracks + [track];
        lens := lens + [trackLength];
        currentBufferIndex := currentBufferIndex + trackLength + HDR_LENGTH;
      }
      if currentBufferIndex != buffer.Length {
        return Failure(TooMuchData);
      }
      assert lens + [] == lens;
      return Success(tracks);
    }

    /** One round of the loop of `fromBuffer`: the track at `index` and
      * the length its header holds, with `remaining` tracks still to read
      * after the lengths `lens`. */
    static method NextChunk(buffer: array<byte>, ghost b: seq<byte>, ghost chunkAt: int -> Result<nat>, index: int,
                            ghost lens: seq<nat>, ghost remaining: nat)
      returns (r: Result<MidiFileTrack>, trackLength: nat)
      requires b == buffer[..] && ReadsChunks(chunkAt, b)
      requires remaining > 0 && index == StartOf(HEADER_LENGTH, lens, |lens|)
      ensures r.Failure? ==>
        Resumed(chunkAt, |b|, lens, index, remaining) == Failure(r.error)
      ensures r.Success? ==>
        r.value.Valid() && r.value.buffer == buffer && r.value.byteOffset == index &&
        r.value.byteLength == HDR_LENGTH + trackLength &&
        index + trackLength + HDR_LENGTH == StartOf(HEADER_LENGTH, lens + [trackLength], |lens| + 1) &&
        Resumed(chunkAt, |b|, lens + [trackLength], index + trackLength + HDR_LENGTH, remaining - 1) ==
          Resumed(chunkAt, |b|, lens, index, remaining)
    {
      WalkHere(chunkAt, |b|, lens, index, remaining);
      if index >= buffer.Length - 1 {
        return Failure(TrackDataMissing), 0;
      }
      r := MidiFileTrack.FromBuffer(buffer, index);
      assert buffer[..] == b;
      if r.Failure? {
        return r, 0;
      }
      trackLength := r.value.GetTrackLength();
      NewTrackLength(b, r.value, index, TrackChunkAt(b, index).value);
      ChunkStep(chunkAt, |b|, lens, index, remaining, trackLength);
    }

    /** `withoutBuffer`: the new header, one empty track, and their events. */
    static method WithoutBuffer() returns (r: Result<MidiFile>)
      ensures r.Success? && r.value.Valid()
      ensures r.Success? ==> r.value.header.datas[..] == NEW_HEADER
      ensures r.Success? ==> |r.value.tracks| == 1 && r.value.tracks[0].Bytes() == NEW_TRACK
      ensures r.Success? ==> r.value.readMidiEvents == [NewMidiEvent(HDR_LENGTH, 0, MetaDetails(0, EndOfTrack))]
    {
      var header := MidiFileHeader.WithoutBuffer();
      var track := MidiFileTrack.WithoutBuffer();
      ghost var contents := NewContents(track);
      NewFileEvents();
      r := Create(header, [track]);
    }

    /** `new MidiFile(header, tracks)`: the events are read at once, and a
      * file whose events cannot be read is never built. */
    static method Create(header: MidiFileHeader, tracks: seq<MidiFileTrack>) returns (r: Result<MidiFile>)
      requires header.Valid() && TracksValid(tracks)
      ensures var e := EventsOf(header.datas[..], ContentsOf(tracks));
        if e.Success? then
          r.Success? && r.value.header == header && r.value.tracks == tracks &&
          r.value.readMidiEvents == e.value && r.value.Valid()
        else r.Failure?
    {
      var f := new MidiFile(header, tracks);
      var events :- f.ReadEvents();
      EventTextsAreBytes(header.datas[..], ContentsOf(tracks));
      f.readMidiEvents := events;
      return Success(f);
    }

    /** `readEvents`. */
    method ReadEvents() returns (r: Result<seq<MidiEvent>>)
      requires header.Valid() && TracksValid(tracks)
      ensures SameEvents(r, EventsOf(header.datas[..], ContentsOf(tracks)))
    {
      var format :- header.GetFormat();
      if format != 1 || |tracks| == 1 {
        r := ReadSequentially();
      } else {
        r := ReadConcurrently();
      }
    }

    /** The loop of `readSequentially` over one track: a non-strict parser
      * over the track's content. */
    static method ReadTrack(t: MidiFileTrack) returns (r: Result<seq<MidiEvent>>)
      requires t.Valid()
      ensures SameEvents(r, ContentEvents(ContentOf(t)))
    {
      var v := t.GetTrackContent();
      r := ReadContent(ViewBytes(v), v.byteOffset);
    }

    /** Reads events from a fresh parser until `next()` yields nothing. */
    static method ReadContent(bytes: seq<byte>, byteOffset: nat) returns (r: Result<seq<MidiEvent>>)
      ensures SameEvents(r, TrackEvents(bytes, byteOffset, 0, None))
    {
      var parser := new MidiParser(bytes, byteOffset, 0, false);
      var events: seq<MidiEvent> := [];
      PrependNothing(TrackEvents(bytes, byteOffset, 0, None));
      while true
        invariant parser.stream.buffer == bytes && parser.stream.byteOffset == byteOffset && !parser.strictMode
        invariant 0 <= parser.stream.position <= |bytes|
        invariant Prepend(events, TrackEvents(bytes, byteOffset, parser.stream.position, parser.lastEventCode)) ==
          TrackEvents(bytes, byteOffset, 0, None)
        decreases |bytes| - parser.stream.position
      {
        var e := NextOfTrack(parser, events);
        if e.Failure? {
          return Failure(e.error);
        }
        if e.value.None? {
          assert events + [] == events;
          return Success(events);
        }
        events := events + [e.value.value];
      }
    }

    /** One `next()` of a non-strict parser after the events `events`,
      * seen as a step of `TrackEvents`. */
    static method NextOfTrack(parser: MidiParser, ghost events: seq<MidiEvent>) returns (e: Result<Option<MidiEvent>>)
      requires !parser.strictMode && 0 <= parser.stream.position <= |parser.stream.buffer|
      modifies parser, parser.stream
      ensures var bytes, byteOffset := parser.stream.buffer, parser.stream.byteOffset;
        var before := TrackEvents(bytes, byteOffset, old(parser.stream.position), old(parser.lastEventCode));
        (e.Failure? ==> before.Failure?) &&
        (e.Success? && e.value.None? ==> before == Success([])) &&
        (e.Success? && e.value.Some? ==>
          old(parser.stream.position) < parser.stream.position <= |bytes| &&
          Prepend(events + [e.value.value], TrackEvents(bytes, byteOffset, parser.stream.position, parser.lastEventCode)) ==
            Prepend(events, before))
    {
      TrackEventsStep(parser.stream.buffer, parser.stream.byteOffset, parser.stream.position, parser.lastEventCode, events);
      e := parser.Next();
    }

    /** `readSequentially`: the format and the tick resolution first, then
      * every track in order. */
    method ReadSequentially() returns (r: Result<seq<MidiEvent>>)
      requires header.Valid() && TracksValid(tracks)
      ensures SameEvents(r, SequentialEvents(header.datas[..], ContentsOf(tracks)))
    {
      var format :- header.GetFormat();
      var resolution := header.GetTickResolution();
      if resolution.Fail? {
        return Failure(resolution.error);
      }
      r := ReadTracks(tracks);
    }

    /** The loop of `readSequentially` over the tracks, in order. */
    static method ReadTracks(tracks: seq<MidiFileTrack>) returns (r: Result<seq<MidiEvent>>)
      requires TracksValid(tracks)
      ensures SameEvents(r, SequentialFrom(ContentsOf(tracks)))
    {
      ghost var contents := ContentsOf(tracks);
      var events: seq<MidiEvent> := [];
      assert contents[0..] == contents;
      PrependNothing(SequentialFrom(contents));
      for i := 0 to |tracks|
        invariant Prepend(events, SequentialFrom(contents[i..])) == SequentialFrom(contents)
      {
        var trackEvents := ReadTrack(tracks[i]);
        SequentialStep(contents, i, events, trackEvents);
        if trackEvents.Failure? {
          return Failure(trackEvents.error);
        }
        events := events + trackEvents.value;
      }
      assert contents[|tracks|..] == [];
      assert events + [] == events;
      return Success(events);
    }

    /** `findSmallestDeltaEvent`: the first pending event with the least
      * delta, with its track, or nothing once every track is exhausted. */
    static method FindSmallestDeltaEvent(ps: seq<TrackParser>) returns (smallest: Option<SmallestDelta>)
      ensures smallest == SmallestOf(ps)
      ensures smallest.None? <==> forall j :: 0 <= j < |ps| ==> ps[j].midiEvent.None?
      ensures smallest.Some? ==> exists i: nat :: (IsSmallestBelow(ps, |ps|, i) &&
        smallest.value == SmallestDelta(ps[i].trackIndex, ps[i].midiEvent.value))
    {
      smallest := None;
      ghost var at: Option<nat> := None;
      for n := 0 to |ps|
        invariant at == SmallestUpTo(ps, n)
        invariant smallest == if at.None? then None else Some(SmallestDelta(ps[at.value].trackIndex, ps[at.value].midiEvent.value))
      {
        var p := ps[n];
        if p.midiEvent.Some? && (smallest.None? || p.midiEvent.value.delta < smallest.value.midiEvent.delta) {
          smallest := Some(SmallestDelta(p.trackIndex, p.midiEvent.value));
          at := Some(n);
        }
      }
      SmallestMeaning(ps, |ps|);
      if at.Some? {
        assert IsSmallestBelow(ps, |ps|, at.value);
      }
    }

    /** `readConcurrently`: the tick resolution first, then one parser per
      * track, merged by always emitting the smallest pending delta. */
    method ReadConcurrently() returns (r: Result<seq<MidiEvent>>)
      requires header.Valid() && TracksValid(tracks)
      ensures SameEvents(r, ConcurrentEvents(header.datas[..], ContentsOf(tracks)))
    {
      var resolution := header.GetTickResolution();
      if resolution.Fail? {
        return Failure(resolution.error);
      }
      r := ReadConcurrentTracks(tracks);
    }

    /** The parsers of `readConcurrently`, one per track, and their merge. */
    static method ReadConcurrentTracks(tracks: seq<MidiFileTrack>) returns (r: Result<seq<MidiEvent>>)
      requires TracksValid(tracks)
      ensures SameEvents(r, ConcurrentTracks(ContentsOf(tracks)))
    {
      var trackParsers := TrackParsers(ContentsOf(tracks));
      if trackParsers.Failure? {
        return Failure(trackParsers.error);
      }
      r := Merge(trackParsers.value);
    }

    /** The loop of `readConcurrently` from the parsers `ps`. */
    static method Merge(ps: seq<TrackParser>) returns (r: Result<seq<MidiEvent>>)
      requires ParsersValid(ps)
      ensures SameEvents(r, ConcurrentFrom(ps))
    {
      var trackParsers := ps;
      var smallest := FindSmallestDeltaEvent(trackParsers);
      var events: seq<MidiEvent> := [];
      PrependNothing(ConcurrentFrom(ps));
      while smallest.Some?
        invariant ParsersValid(trackParsers) && smallest == SmallestOf(trackParsers)
        invariant Prepend(events, ConcurrentFrom(trackParsers)) == ConcurrentFrom(ps)
        decreases Pending(trackParsers)
      {
        var s := smallest.value;
        var next := NextTrackParsers(s, trackParsers);
        if next.Failure? {
          return Failure(next.error);
        }
        SmallestMeaning(trackParsers, |trackParsers|);
        PendingDecreases(s, trackParsers, SmallestUpTo(trackParsers, |trackParsers|).value);
        var e := s.midiEvent.(trackIndex := s.trackIndex);
        ghost var rest := ConcurrentFrom(next.value);
        assert rest.Success? ==> events + [e] + rest.value == events + ([e] + rest.value);
        events := events + [e];
        trackParsers := next.value;
        smallest := FindSmallestDeltaEvent(trackParsers);
      }
      assert ConcurrentFrom(trackParsers) == Success([]);
      assert events + [] == events;
      return Success(events);
    }

    /** `getMidiEvents`: the channel events, in order. */
    method GetMidiEvents() returns (r: seq<MidiEvent>)
      ensures r == Kept(IsChannelEvent, readMidiEvents)
    {
      r := [];
      for i := 0 to |readMidiEvents|
        invariant r == Kept(IsChannelEvent, readMidiEvents[..i])
      {
        assert readMidiEvents[..i + 1][..i] == readMidiEvents[..i];
        if IsChannelEvent(readMidiEvents[i]) {
          r := r + [readMidiEvents[i]];
        }
      }
      assert readMidiEvents[..|readMidiEvents|] == readMidiEvents;
    }

    /** `getMetaEvents`: the meta events, in order. */
    method GetMetaEvents() returns (r: seq<MidiEvent>)
      ensures r == Kept(IsMetaEvent, readMidiEvents)
    {
      r := [];
      for i := 0 to |readMidiEvents|
        invariant r == Kept(IsMetaEvent, readMidiEvents[..i])
      {
        assert readMidiEvents[..i + 1][..i] == readMidiEvents[..i];
        if IsMetaEvent(readMidiEvents[i]) {
          r := r + [readMidiEvents[i]];
        }
      }
      assert readMidiEvents[..|readMidiEvents|] == readMidiEvents;
    }

    /** `getLyrics`: the lyrics, or the karaoke texts, of the meta events,
      * decoded. */
    method GetLyrics() returns (r: seq<Lyrics.TextEvent>)
      requires Valid()
      ensures var sel := Lyrics.SelectAll(Lyrics.NOTHING_SELECTED, Kept(IsMetaEvent, readMidiEvents));
        Lyrics.SelectionBytes(sel) && r == Lyrics.DecodeTexts(Utf8.AsWritten, Lyrics.Chosen(sel))
    {
      var meta := GetMetaEvents();
      KeptTexts(IsMetaEvent, readMidiEvents);
      var getLyrics := new Lyrics.GetLyrics(meta);
      r := getLyrics.Run();
    }
  }
}
