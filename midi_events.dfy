/** The decoded events of a Standard MIDI File track (Standard MIDI Files
  * 1.0, "Track Chunks" and "Meta-Events"), and the status and meta type
  * codes they carry. */
module MidiEvents {
  import opened Wrappers

  // Event status codes
  const EVENT_META: int := 0xFF
  const EVENT_SYSEX: int := 0xF0
  const EVENT_DIVSYSEX: int := 0xF7
  const EVENT_MIDI: int := 0x8

  // Meta event types
  const EVENT_META_SEQUENCE_NUMBER: int := 0x00
  const EVENT_META_TEXT: int := 0x01
  const EVENT_META_COPYRIGHT_NOTICE: int := 0x02
  const EVENT_META_TRACK_NAME: int := 0x03
  const EVENT_META_INSTRUMENT_NAME: int := 0x04
  const EVENT_META_LYRICS: int := 0x05
  const EVENT_META_MARKER: int := 0x06
  const EVENT_META_CUE_POINT: int := 0x07
  const EVENT_META_MIDI_CHANNEL_PREFIX: int := 0x20
  const EVENT_META_END_OF_TRACK: int := 0x2F
  const EVENT_META_SET_TEMPO: int := 0x51
  const EVENT_META_SMTPE_OFFSET: int := 0x54
  const EVENT_META_TIME_SIGNATURE: int := 0x58
  const EVENT_META_KEY_SIGNATURE: int := 0x59
  const EVENT_META_SEQUENCER_SPECIFIC: int := 0x7F

  // Channel (MIDI) event types: the high nibble of the status byte
  const EVENT_MIDI_NOTE_OFF: int := 0x8
  const EVENT_MIDI_NOTE_ON: int := 0x9
  const EVENT_MIDI_NOTE_AFTERTOUCH: int := 0xA
  const EVENT_MIDI_CONTROLLER: int := 0xB
  const EVENT_MIDI_PROGRAM_CHANGE: int := 0xC
  const EVENT_MIDI_CHANNEL_AFTERTOUCH: int := 0xD
  const EVENT_MIDI_PITCH_BEND: int := 0xE

  /** The body of a channel event. Fields are JavaScript numbers: the parser
    * fills them with bytes, a caller of the writer may pass anything. */
  datatype ChannelSubevent =
    | NoteOff(noteNumber: int, velocity: int)
    | NoteOn(noteNumber: int, velocity: int)
    | NoteAftertouch(noteNumber: int, amount: int)
    | Controller(controllerNumber: int, value: int)
    | ProgramChange(programNumber: int)
    | ChannelAftertouch(amount: int)
    | PitchBend(lsb: int, msb: int)
    | ChannelUnknown(unknownType: int, badparam: int)

  /** The `type` of a channel subevent. */
  function ChannelType(s: ChannelSubevent): int {
    match s
    case NoteOff(_, _) => EVENT_MIDI_NOTE_OFF
    case NoteOn(_, _) => EVENT_MIDI_NOTE_ON
    case NoteAftertouch(_, _) => EVENT_MIDI_NOTE_AFTERTOUCH
    case Controller(_, _) => EVENT_MIDI_CONTROLLER
    case ProgramChange(_) => EVENT_MIDI_PROGRAM_CHANGE
    case ChannelAftertouch(_) => EVENT_MIDI_CHANNEL_AFTERTOUCH
    case PitchBend(_, _) => EVENT_MIDI_PITCH_BEND
    case ChannelUnknown(t, _) => t
  }

  /** The `hasTwoParams` flag of a channel subevent. */
  predicate HasTwoParams(s: ChannelSubevent) {
    match s
    case ProgramChange(_) => false
    case ChannelAftertouch(_) => false
    case ChannelUnknown(_, _) => false
    case _ => true
  }

  /** The body of a meta event. */
  datatype MetaSubevent =
    | EndOfTrack
    | SequenceNumber(msb: int, lsb: int)
    | Text(textType: int, data: seq<int>)
    | ChannelPrefix(prefix: int)
    | SetTempo(tempo: int)
    | SmtpeOffset(hour: int, minutes: int, seconds: int, frames: int, subframes: int)
    | KeySignature(key: int, scale: int)
    | TimeSignature(data: seq<int>, param1: Option<int>, param2: Option<int>, param3: Option<int>, param4: Option<int>)
    | SequencerSpecific(data: seq<int>)
    | MetaUnknown(unknownType: int, data: seq<int>)

  /** The `type` of a meta subevent: the byte written after 0xFF. */
  function MetaType(m: MetaSubevent): int {
    match m
    case EndOfTrack => EVENT_META_END_OF_TRACK
    case SequenceNumber(_, _) => EVENT_META_SEQUENCE_NUMBER
    case Text(t, _) => t
    case ChannelPrefix(_) => EVENT_META_MIDI_CHANNEL_PREFIX
    case SetTempo(_) => EVENT_META_SET_TEMPO
    case SmtpeOffset(_, _, _, _, _) => EVENT_META_SMTPE_OFFSET
    case KeySignature(_, _) => EVENT_META_KEY_SIGNATURE
    case TimeSignature(_, _, _, _, _) => EVENT_META_TIME_SIGNATURE
    case SequencerSpecific(_) => EVENT_META_SEQUENCER_SPECIFIC
    case MetaUnknown(t, _) => t
  }

  /** The four kinds of event details. */
  datatype EventDetails =
    | MetaDetails(length: int, subevent: MetaSubevent)
    | SystemDetails(length: int, data: seq<int>)
    | UnknownDetails(eventCode: int, badsubtype: int, length: int, data: seq<int>)
    | ChannelDetails(channel: int, channelSubevent: ChannelSubevent)

  /** One event of a track. `index` is the absolute byte offset at which
    * the event's delta begins; `playTime` is the event's time in
    * milliseconds (0 until a file computes it) and `trackIndex` is -1
    * until a file assigns the event to a track. */
  datatype MidiEvent = MidiEvent(index: int, delta: int, details: EventDetails, playTime: real, trackIndex: int)

  function NewMidiEvent(index: int, delta: int, details: EventDetails): MidiEvent {
    MidiEvent(index, delta, details, 0.0, -1)
  }
}
