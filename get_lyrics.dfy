/** The lyrics of a song from the meta events of a file: lyric events
  * (type 0x05) are collected; plain text events (type 0x01) are kept as
  * karaoke text when they are played after the start, except special
  * texts starting with '@', and a text starting with "words" throws away
  * the texts kept so far. More than two lyric events win over the texts.
  * The chosen events then get their text: all decoded as strict UTF-8 by
  * the decoder as written, or, when any of them fails to decode, each
  * byte read as one character.
  * Texts are sequences of code points. */
module Lyrics {
  import opened Wrappers
  import opened Errors
  import opened Bits
  import opened MidiEvents
  import Utf8

  /** `MetaTextDetails`: the meta event's length, its bytes and the text
    * decoded from them ("" until `run` sets it). */
  datatype TextDetails = TextDetails(length: int, data: seq<int>, text: seq<int>)

  /** `MidiMetaTextEvent`. */
  datatype TextEvent = TextEvent(index: int, delta: int, details: TextDetails, playTime: real, trackIndex: int)

  /** `setText`: the same event with its text set. */
  function SetText(e: TextEvent, text: seq<int>): TextEvent {
    e.(details := e.details.(text := text))
  }

  // ---------------------------------------------------------------
  // The selection of `onMetaText`

  /** The texts and lyrics collected so far. */
  datatype Selection = Selection(texts: seq<TextEvent>, lyrics: seq<TextEvent>)

  const NOTHING_SELECTED: Selection := Selection([], [])

  /** A meta event whose subevent is a text of type 0x01 to 0x07, the
    * events that reach `onMetaText`. */
  predicate IsText(e: MidiEvent) {
    e.details.MetaDetails? && e.details.subevent.Text?
  }

  /** The text event `onMetaText` builds from a meta event and its data. */
  function TextEventOf(e: MidiEvent, data: seq<int>): (t: TextEvent)
    requires e.details.MetaDetails?
    ensures t.details == TextDetails(e.details.length, data, [])
    ensures t.index == e.index && t.delta == e.delta && t.playTime == e.playTime && t.trackIndex == e.trackIndex
  {
    TextEvent(e.index, e.delta, TextDetails(e.details.length, data, []), e.playTime, e.trackIndex)
  }

  /** '@' as the first character: a special text (title, information,
    * language). An empty text reads `undefined`, which is no '@'. */
  predicate IsSpecialText(data: seq<int>) {
    |data| > 0 && data[0] == 0x40
  }

  /** The text starts with "words". */
  predicate StartsWithWords(data: seq<int>) {
    |data| >= 5 && data[0] == 0x77 && data[1] == 0x6F && data[2] == 0x72 && data[3] == 0x64 && data[4] == 0x73
  }

  /** `onMetaText` for the text of type `textType` with bytes `data`, in
    * the event `e`. */
  function SelectText(sel: Selection, e: MidiEvent, textType: int, data: seq<int>): Selection
    requires e.details.MetaDetails?
  {
    var t := TextEventOf(e, data);
    if textType == EVENT_META_LYRICS then sel.(lyrics := sel.lyrics + [t])
    else if textType != EVENT_META_TEXT || IsSpecialText(data) then sel
    else if StartsWithWords(data) then sel.(texts := [])
    else if e.playTime > 0.0 then sel.(texts := sel.texts + [t])
    else sel
  }

  /** One turn of `getEvents`: only text subevents reach `onMetaText`. */
  function Select(sel: Selection, e: MidiEvent): Selection {
    if IsText(e) then SelectText(sel, e, e.details.subevent.textType, e.details.subevent.data) else sel
  }

  /** The loop of `getEvents`, from the first event to the last. */
  function SelectAll(sel: Selection, events: seq<MidiEvent>): Selection
    decreases |events|
  {
    if |events| == 0 then sel else SelectAll(Select(sel, events[0]), events[1..])
  }

  /** "Choosing the right lyrics": the lyrics when there are more than
    * two, the texts otherwise. */
  function Chosen(sel: Selection): seq<TextEvent> {
    if |sel.lyrics| > 2 then sel.lyrics else sel.texts
  }

  // ---------------------------------------------------------------
  // What the selection keeps, defined on its own

  predicate IsLyric(e: MidiEvent) {
    IsText(e) && e.details.subevent.textType == EVENT_META_LYRICS
  }

  /** A plain text that starts with "words". */
  predicate IsWordsMarker(e: MidiEvent) {
    IsText(e) && e.details.subevent.textType == EVENT_META_TEXT
    && !IsSpecialText(e.details.subevent.data) && StartsWithWords(e.details.subevent.data)
  }

  /** A plain text kept as karaoke text. */
  predicate IsKaraokeText(e: MidiEvent) {
    IsText(e) && e.details.subevent.textType == EVENT_META_TEXT
    && !IsSpecialText(e.details.subevent.data) && !StartsWithWords(e.details.subevent.data)
    && e.playTime > 0.0
  }

  /** The lyric events, in order. */
  function LyricsOf(events: seq<MidiEvent>): (r: seq<TextEvent>)
    ensures |r| <= |events|
  {
    if |events| == 0 then []
    else
      var e := events[0];
      (if IsLyric(e) then [TextEventOf(e, e.details.subevent.data)] else []) + LyricsOf(events[1..])
  }

  predicate HasWordsMarker(events: seq<MidiEvent>) {
    exists i :: 0 <= i < |events| && IsWordsMarker(events[i])
  }

  /** The karaoke texts after the last "words" marker, read from the end. */
  function KaraokeTexts(events: seq<MidiEvent>): (r: seq<TextEvent>)
    ensures |r| <= |events|
  {
    if |events| == 0 then []
    else
      var e := events[|events| - 1];
      if IsWordsMarker(e) then []
      else KaraokeTexts(events[..|events| - 1]) + (if IsKaraokeText(e) then [TextEventOf(e, e.details.subevent.data)] else [])
  }

  lemma {:induction false} SelectAllSnoc(sel: Selection, events: seq<MidiEvent>, e: MidiEvent)
    ensures SelectAll(sel, events + [e]) == Select(SelectAll(sel, events), e)
    decreases |events|
  {
    if |events| == 0 {
      assert [] + [e] == [e];
      assert [e][1..] == [];
    } else {
      assert (events + [e])[1..] == events[1..] + [e];
      SelectAllSnoc(Select(sel, events[0]), events[1..], e);
    }
  }

  /** The lyric events are collected in order, after those already there. */
  lemma {:induction false} LyricsCollected(sel: Selection, events: seq<MidiEvent>)
    ensures SelectAll(sel, events).lyrics == sel.lyrics + LyricsOf(events)
    decreases |events|
  {
    if |events| == 0 {
      assert sel.lyrics + [] == sel.lyrics;
    } else {
      var e := events[0];
      var head: seq<TextEvent> := if IsLyric(e) then [TextEventOf(e, e.details.subevent.data)] else [];
      LyricsCollected(Select(sel, e), events[1..]);
      assert Select(sel, e).lyrics == sel.lyrics + head;
      assert LyricsOf(events) == head + LyricsOf(events[1..]);
      assert (sel.lyrics + head) + LyricsOf(events[1..]) == sel.lyrics + (head + LyricsOf(events[1..]));
    }
  }

  /** The texts are the karaoke texts after the last "words" marker, after
    * those already there when there is no marker. */
  lemma {:induction false} TextsKept(sel: Selection, events: seq<MidiEvent>)
    ensures SelectAll(sel, events).texts == (if HasWordsMarker(events) then [] else sel.texts) + KaraokeTexts(events)
    decreases |events|
  {
    if |events| == 0 {
      assert sel.texts + [] == sel.texts;
    } else {
      var init, e := events[..|events| - 1], events[|events| - 1];
      assert events == init + [e];
      SelectAllSnoc(sel, init, e);
      TextsKept(sel, init);
      var before := SelectAll(sel, init);
      assert HasWordsMarker(events) <==> HasWordsMarker(init) || IsWordsMarker(e) by {
        if HasWordsMarker(events) {
          var i :| 0 <= i < |events| && IsWordsMarker(events[i]);
          if i < |init| {
            assert init[i] == events[i];
          }
        }
        if HasWordsMarker(init) {
          var i :| 0 <= i < |init| && IsWordsMarker(init[i]);
          assert events[i] == init[i];
        }
      }
      if !IsWordsMarker(e) && IsKaraokeText(e) {
        assert Select(before, e).texts == before.texts + [TextEventOf(e, e.details.subevent.data)];
      } else if !IsWordsMarker(e) {
        assert Select(before, e).texts == before.texts;
      }
    }
  }

  /** The whole of `getEvents` from a fresh instance. */
  lemma SelectedEvents(events: seq<MidiEvent>)
    ensures SelectAll(NOTHING_SELECTED, events).lyrics == LyricsOf(events)
    ensures SelectAll(NOTHING_SELECTED, events).texts == KaraokeTexts(events)
  {
    LyricsCollected(NOTHING_SELECTED, events);
    TextsKept(NOTHING_SELECTED, events);
    assert [] + LyricsOf(events) == LyricsOf(events);
    assert [] + KaraokeTexts(events) == KaraokeTexts(events);
  }

  // ---------------------------------------------------------------
  // Decoding, the pure map of `run`

  /** Every datum is a byte, as the parser produces them. */
  predicate AreBytes(data: seq<int>) {
    forall i :: 0 <= i < |data| ==> 0 <= data[i] < TWO_8
  }

  predicate AllBytes(events: seq<TextEvent>) {
    forall i :: 0 <= i < |events| ==> AreBytes(events[i].details.data)
  }

  function AsBytes(data: seq<int>): (r: seq<byte>)
    requires AreBytes(data)
    ensures |r| == |data| && forall i :: 0 <= i < |data| ==> r[i] == data[i]
  {
    seq(|data|, i requires 0 <= i < |data| => data[i] as byte)
  }

  /** The texts of the meta events are bytes. */
  predicate TextsAreBytes(events: seq<MidiEvent>) {
    forall i :: 0 <= i < |events| && IsText(events[i]) ==> AreBytes(events[i].details.subevent.data)
  }

  predicate SelectionBytes(sel: Selection) {
    AllBytes(sel.texts) && AllBytes(sel.lyrics)
  }

  /** The selection only takes events from its input. */
  lemma {:induction false} SelectAllBytes(sel: Selection, events: seq<MidiEvent>)
    requires SelectionBytes(sel) && TextsAreBytes(events)
    ensures SelectionBytes(SelectAll(sel, events))
    decreases |events|
  {
    if |events| > 0 {
      var e := events[0];
      assert TextsAreBytes(events[1..]) by {
        forall i | 0 <= i < |events| - 1 && IsText(events[1..][i])
          ensures AreBytes(events[1..][i].details.subevent.data)
        {
          assert events[1..][i] == events[i + 1];
        }
      }
      SelectAllBytes(Select(sel, e), events[1..]);
    }
  }

  /** `Utf8.getStringFromBytes(data, 0, length, true)`, with the decoder
    * `v`: `run` calls the decoder as written. */
  function StrictText(v: Utf8.Variant, e: TextEvent): Result<seq<int>>
    requires AreBytes(e.details.data)
  {
    Utf8.DecodeFrom(v, AsBytes(e.details.data), 0, e.details.length, true)
  }

  /** The strict texts of all events, or `None` as soon as one throws. */
  function StrictTexts(v: Utf8.Variant, events: seq<TextEvent>): (r: Option<seq<seq<int>>>)
    requires AllBytes(events)
    ensures r.Some? <==> forall i :: 0 <= i < |events| ==> StrictText(v, events[i]).Success?
    ensures r.Some? ==> |r.value| == |events|
    ensures r.Some? ==> forall i :: 0 <= i < |events| ==> r.value[i] == StrictText(v, events[i]).value
  {
    if |events| == 0 then Some([])
    else
      var t := StrictText(v, events[0]);
      var rest := StrictTexts(v, events[1..]);
      if t.Failure? || rest.None? then
        assert !(t.Success? && forall i :: 1 <= i < |events| ==> StrictText(v, events[i]).Success?) by {
          if t.Success? {
            var j :| 0 <= j < |events| - 1 && !StrictText(v, events[1..][j]).Success?;
            assert events[1..][j] == events[j + 1];
          }
        }
        None
      else
        Some([t.value] + rest.value)
  }

  /** `String.fromCharCode` of each byte: one character per byte. */
  function ByteText(e: TextEvent): seq<int> {
    e.details.data
  }

  /** `run` after `getEvents`: every event with its strict UTF-8 text, or,
    * if any decoding throws, every event with its bytes as characters. */
  function DecodeTexts(v: Utf8.Variant, events: seq<TextEvent>): (r: seq<TextEvent>)
    requires AllBytes(events)
    ensures |r| == |events|
    ensures forall i :: 0 <= i < |events| ==> r[i].details.data == events[i].details.data
    ensures forall i :: 0 <= i < |events| ==> r[i].(details := events[i].details) == events[i]
    ensures (forall i :: 0 <= i < |events| ==> StrictText(v, events[i]).Success?) ==>
      forall i :: 0 <= i < |events| ==> r[i].details.text == StrictText(v, events[i]).value
    ensures (exists i :: 0 <= i < |events| && StrictText(v, events[i]).Failure?) ==>
      forall i :: 0 <= i < |events| ==> r[i].details.text == ByteText(events[i])
  {
    var strict := StrictTexts(v, events);
    if strict.Some? then seq(|events|, i requires 0 <= i < |events| => SetText(events[i], strict.value[i]))
    else seq(|events|, i requires 0 <= i < |events| => SetText(events[i], ByteText(events[i])))
  }

  /** With the corrected decoder, ASCII texts come out as their bytes,
    * since it reads each ASCII byte as itself. */
  lemma AsciiTextsKept(events: seq<TextEvent>, i: nat)
    requires AllBytes(events) && i < |events|
    requires forall j :: 0 <= j < |events| ==> Utf8.IsAscii(AsBytes(events[j].details.data))
    requires forall j :: 0 <= j < |events| ==> events[j].details.length == |events[j].details.data|
    ensures DecodeTexts(Utf8.Rfc3629, events)[i].details.text == events[i].details.data
  {
    forall j | 0 <= j < |events|
      ensures StrictText(Utf8.Rfc3629, events[j]) == Success(events[j].details.data)
    {
      var bytes := AsBytes(events[j].details.data);
      Utf8.AsciiDecodes(bytes, 0, true);
      assert bytes[0..] == bytes;
      assert bytes == events[j].details.data;
    }
  }

  /** A text whose bytes are D0 90 (U+0410): as written it decodes to
    * U+0010. */
  lemma CyrillicText(e: TextEvent)
    requires e.details.data == [0xD0, 0x90] && e.details.length == 2
    ensures AreBytes(e.details.data)
    ensures StrictText(Utf8.AsWritten, e) == Success([0x10])
    ensures StrictText(Utf8.Rfc3629, e) == Success([0x410])
  {
    var bytes := AsBytes(e.details.data);
    assert |bytes| == 2 && bytes[0] == 0xD0 && bytes[1] == 0x90;
    Utf8.TwoByteMisread(bytes, true);
    Utf8.TwoByteCorrected(bytes, true);
  }

  /** The text "a b": as written its strict decoding throws. */
  lemma SpacedText(e: TextEvent)
    requires e.details.data == [0x61, 0x20, 0x62] && e.details.length == 3
    ensures AreBytes(e.details.data) && StrictText(Utf8.AsWritten, e).Failure?
  {
    var bytes := AsBytes(e.details.data);
    assert bytes == [0x61, 0x20, 0x62];
    Utf8.SpaceNotDecoded(bytes, true);
  }

  /** The text "a b": corrected, it decodes. */
  lemma SpacedTextDecoded(e: TextEvent)
    requires e.details.data == [0x61, 0x20, 0x62] && e.details.length == 3
    ensures AreBytes(e.details.data) && StrictText(Utf8.Rfc3629, e).Success?
  {
    var bytes := AsBytes(e.details.data);
    assert bytes == [0x61, 0x20, 0x62];
    Utf8.SpaceDecoded(bytes, true);
  }

  /** Events that all decode to `t` all get the text `t`. */
  lemma AllDecoded(v: Utf8.Variant, events: seq<TextEvent>, t: seq<int>)
    requires AllBytes(events)
    requires forall i :: 0 <= i < |events| ==> StrictText(v, events[i]) == Success(t)
    ensures forall i :: 0 <= i < |events| ==> DecodeTexts(v, events)[i].details.text == t
  {
  }

  /** As written, lyrics whose bytes are D0 90 (U+0410) come out as
    * U+0010; the corrected decoder gives U+0410. */
  lemma LyricMisread(events: seq<TextEvent>)
    requires forall i :: 0 <= i < |events| ==> events[i].details.data == [0xD0, 0x90] && events[i].details.length == 2
    ensures AllBytes(events)
    ensures forall i :: 0 <= i < |events| ==> DecodeTexts(Utf8.AsWritten, events)[i].details.text == [0x10]
    ensures forall i :: 0 <= i < |events| ==> DecodeTexts(Utf8.Rfc3629, events)[i].details.text == [0x410]
  {
    forall i | 0 <= i < |events|
      ensures AreBytes(events[i].details.data)
      ensures StrictText(Utf8.AsWritten, events[i]) == Success([0x10])
      ensures StrictText(Utf8.Rfc3629, events[i]) == Success([0x410])
    {
      CyrillicText(events[i]);
    }
    AllDecoded(Utf8.AsWritten, events, [0x10]);
    AllDecoded(Utf8.Rfc3629, events, [0x410]);
  }

  /** As written, a space in one text makes its strict decoding throw, so
    * every text falls back to one character per byte: D0 90 beside "a b"
    * comes out as two characters. */
  lemma SpaceSpoilsAll(a: TextEvent, c: TextEvent, events: seq<TextEvent>)
    requires a.details.data == [0x61, 0x20, 0x62] && a.details.length == 3
    requires c.details.data == [0xD0, 0x90] && c.details.length == 2
    requires events == [a, c]
    ensures AllBytes(events) && DecodeTexts(Utf8.AsWritten, events)[1].details.text == [0xD0, 0x90]
  {
    SpacedText(a);
    CyrillicText(c);
    PairFallsBack(Utf8.AsWritten, a, c);
  }

  /** Corrected, the same two texts decode, and D0 90 is U+0410. */
  lemma SpaceSpoilsNothing(a: TextEvent, c: TextEvent, events: seq<TextEvent>)
    requires a.details.data == [0x61, 0x20, 0x62] && a.details.length == 3
    requires c.details.data == [0xD0, 0x90] && c.details.length == 2
    requires events == [a, c]
    ensures AllBytes(events) && DecodeTexts(Utf8.Rfc3629, events)[1].details.text == [0x410]
  {
    SpacedTextDecoded(a);
    CyrillicText(c);
    PairDecoded(Utf8.Rfc3629, a, c);
  }

  /** A first text that throws sends the second to the byte fallback. */
  lemma PairFallsBack(v: Utf8.Variant, a: TextEvent, c: TextEvent)
    requires AreBytes(a.details.data) && AreBytes(c.details.data) && StrictText(v, a).Failure?
    ensures AllBytes([a, c]) && DecodeTexts(v, [a, c])[1].details.text == c.details.data
  {
    assert StrictText(v, [a, c][0]).Failure?;
  }

  /** When both texts decode, the second gets its own decoding. */
  lemma PairDecoded(v: Utf8.Variant, a: TextEvent, c: TextEvent)
    requires AreBytes(a.details.data) && AreBytes(c.details.data)
    requires StrictText(v, a).Success? && StrictText(v, c).Success?
    ensures AllBytes([a, c]) && DecodeTexts(v, [a, c])[1].details.text == StrictText(v, c).value
  {
    assert forall i :: 0 <= i < 2 ==> StrictText(v, [a, c][i]).Success?;
  }

  // ---------------------------------------------------------------
  // The visitor, as the source runs it

  class GetLyrics {
    const metaEvents: seq<MidiEvent>
    var texts: seq<TextEvent>
    var lyrics: seq<TextEvent>
    var currentVisitee: Option<MidiEvent>

    constructor (metaEvents: seq<MidiEvent>)
      ensures this.metaEvents == metaEvents && texts == [] && lyrics == [] && currentVisitee == None
    {
      this.metaEvents := metaEvents;
      texts, lyrics, currentVisitee := [], [], None;
    }

    function Selected(): Selection
      reads this
    {
      Selection(texts, lyrics)
    }

    /** `getCurrentVisitee`: throws outside `getEvents`. */
    method GetCurrentVisitee() returns (r: Result<MidiEvent>)
      ensures currentVisitee.None? ==> r == Failure(NullVisitee)
      ensures currentVisitee.Some? ==> r == Success(currentVisitee.value)
    {
      if currentVisitee.None? {
        return Failure(NullVisitee);
      }
      return Success(currentVisitee.value);
    }

    /** `onMetaText`, for the text of the event being visited. */
    method OnMetaText(textType: int, data: seq<int>) returns (o: Outcome)
      requires currentVisitee.Some? ==> currentVisitee.value.details.MetaDetails?
      modifies this
      ensures currentVisitee == old(currentVisitee)
      ensures old(currentVisitee).None? ==> o.Fail? && Selected() == old(Selected())
      ensures old(currentVisitee).Some? ==>
        o.Pass? && Selected() == SelectText(old(Selected()), old(currentVisitee).value, textType, data)
    {
      var visitee := GetCurrentVisitee();
      if visitee.Failure? {
        return Fail(visitee.error);
      }
      var midiEvent := visitee.value;
      var midiMetaTextEvent := TextEventOf(midiEvent, data);
      if textType == EVENT_META_LYRICS {
        lyrics := lyrics + [midiMetaTextEvent];
      } else if textType == EVENT_META_TEXT {
        if IsSpecialText(data) {
        } else if StartsWithWords(data) {
          texts := [];
        } else if midiEvent.playTime > 0.0 {
          texts := texts + [midiMetaTextEvent];
        }
      }
      return Pass;
    }

    /** `getEvents`: visit every meta event, then choose. */
    method GetEvents() returns (r: seq<TextEvent>)
      modifies this
      ensures Selected() == SelectAll(old(Selected()), metaEvents)
      ensures currentVisitee == None
      ensures r == Chosen(Selected())
    {
      ghost var start := Selected();
      for k := 0 to |metaEvents|
        invariant Selected() == SelectAll(start, metaEvents[..k])
      {
        var metaEvent := metaEvents[k];
        currentVisitee := Some(metaEvent);
        if IsText(metaEvent) {
          var _ := OnMetaText(metaEvent.details.subevent.textType, metaEvent.details.subevent.data);
        }
        assert metaEvents[..k + 1] == metaEvents[..k] + [metaEvent];
        SelectAllSnoc(start, metaEvents[..k], metaEvent);
      }
      assert metaEvents[..|metaEvents|] == metaEvents;
      currentVisitee := None;
      r := Chosen(Selected());
    }

    /** `run`: the chosen events with their texts. */
    method Run() returns (r: seq<TextEvent>)
      requires TextsAreBytes(metaEvents) && SelectionBytes(Selected())
      modifies this
      ensures Selected() == SelectAll(old(Selected()), metaEvents)
      ensures SelectionBytes(Selected()) && r == DecodeTexts(Utf8.AsWritten, Chosen(Selected()))
    {
      SelectAllBytes(Selected(), metaEvents);
      var textEvents := GetEvents();
      r := DecodeTexts(Utf8.AsWritten, textEvents);
    }
  }
}
