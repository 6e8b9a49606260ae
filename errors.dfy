/** The exceptions the library throws, one constructor per message.
  * Messages that the library builds with a stream position, an offset
  * or the offending value in front or behind keep only their fixed text;
  * `Message` gives that text. */
module Errors {
  datatype Error =
      // Byte streams and typed views of an ArrayBuffer; the first three are
      // the JavaScript runtime's RangeError messages
      OffsetOutOfView
    | StartOutOfBuffer
    | InvalidViewLength
    | VarIntTooManyBytes
      // The persistent collections and the tree walk of the lyrics
    | IndexOutOfBounds
    | LengthNotDefined
    | NullVisitee
    | NotAFunction
    | TailTooLong
    | CallStackExceeded
      // Random integers
    | EmptyRange
      // UTF-8
    | NoMoreCharacters
    | MoreBytesExpected
    | ContinuationExpected
    | BitAfterLength
    | MultiByteTruncated
    | NotSignificativeByte
    | InvalidCodePoint
      // The header chunk
    | FileTooShort
    | HeaderPrefixMissing
    | HeaderLengthNotSix
    | InvalidFormat
    | InvalidFormatGiven
    | NotTicksPerBeat
    | NotFramesPerSecond
    | InvalidSmpteFrames
    | InvalidSmpteFramesGiven
    | InvalidTicksPerFrame
      // Track chunks and the chunk walk of a whole file
    | TrackTooShort
    | TrackPrefixMissing
    | TrackExceedsBuffer
    | TrackEndMissing
    | TrackLengthTooSmall
    | TrackDataMissing
    | TooMuchData
      // Reading events
    | BadMetaLength
    | SmpteHourRange
    | SmpteMinutesRange
    | SmpteSecondsRange
    | SmpteFramesRange
    | SmpteSubframesRange
    | KeyScaleRange
    | TempoLength
    | UnknownMetaType
    | UnknownEventType
    | UnknownMidiType
    | NoRunningStatus
      // Writing events
    | MaxDeltaReached
    | MaxLengthReached
    | SmpteFramesGiven
    | SmpteSubframesGiven
    | KeyGiven
    | KeyScaleGiven

  /** The text of the exception a given error stands for. */
  function Message(e: Error): string {
    match e
    case OffsetOutOfView => "Offset is outside the bounds of the DataView"
    case StartOutOfBuffer => "Start offset is outside the bounds of the buffer"
    case InvalidViewLength => "Invalid DataView length"
    case VarIntTooManyBytes => "Variable integer length cannot exceed 4 bytes"
    case IndexOutOfBounds => "index out of bounds"
    case LengthNotDefined => "length is not defined"
    case NullVisitee => "currentVisitee is null"
    case NotAFunction => "leftNode.balanceLeftWhenRightIsRed is not a function"
    case TailTooLong => "new tail length is greater than branching factor, cannot replace tail"
    case CallStackExceeded => "Maximum call stack size exceeded"
    case EmptyRange => "rangeStart must be less than rangeEnd"
    case NoMoreCharacters => "No more characters remaining in array."
    case MoreBytesExpected => "Expected more bytes remaining in array."
    case ContinuationExpected => "Next bytes of encoded char must begin with a \"10\" bit sequence."
    case BitAfterLength => "A multi-byte char cannot set the bit after its length."
    case MultiByteTruncated => "Found a multi-byte char declaration but not enough bytes are available."
    case NotSignificativeByte => "Not a significative byte."
    case InvalidCodePoint => "Invalid code point"
    case FileTooShort => "A buffer of a valid MIDI file must have, at least, a size of 25bytes."
    case HeaderPrefixMissing => "Invalid MIDIFileHeader : MThd prefix not found"
    case HeaderLengthNotSix => "Invalid MIDIFileHeader : Chunk length must be 6"
    case InvalidFormat => "Invalid MIDI file : format can be 0, 1 or 2 only."
    case InvalidFormatGiven => "Invalid MIDI format given, format can be 0, 1 or 2 only."
    case NotTicksPerBeat => "Time division is not expressed as ticks per beat."
    case NotFramesPerSecond => "Time division is not expressed as frames per seconds."
    case InvalidSmpteFrames => "Invalid SMPTE frames value."
    case InvalidSmpteFramesGiven => "Invalid SMPTE frames value given."
    case InvalidTicksPerFrame => "Invalid ticks per frame value given."
    case TrackTooShort => "Invalid MIDIFileTrack : Buffer length must size at least 12bytes"
    case TrackPrefixMissing => "Invalid MIDIFileTrack : MTrk prefix not found"
    case TrackExceedsBuffer => "Invalid MIDIFileTrack : The track size exceed the buffer length."
    case TrackEndMissing => "Invalid MIDIFileTrack : No track end event found at the expected index"
    case TrackLengthTooSmall => "Invalid track length, must size at least 4bytes"
    case TrackDataMissing => "Couldn't find datas corresponding to the track."
    case TooMuchData => "It seems that the buffer contains too much datas."
    case BadMetaLength => "Bad metaevent length."
    case SmpteHourRange => "SMTPE offset hour value must be part of 0-23."
    case SmpteMinutesRange => "SMTPE offset minutes value must be part of 0-59."
    case SmpteSecondsRange => "SMTPE offset seconds value must be part of 0-59."
    case SmpteFramesRange => "SMTPE offset frames value must be part of 0-30."
    case SmpteSubframesRange => "SMTPE offset subframes value must be part of 0-99."
    case KeyScaleRange => "Key signature scale value must be 0 or 1."
    case TempoLength => "Tempo meta event length must be 3."
    case UnknownMetaType => "Unknown meta event type."
    case UnknownEventType => "Unknown event type."
    case UnknownMidiType => "Unknown MIDI event type."
    case NoRunningStatus => "Running status without previous event"
    case MaxDeltaReached => "Maximum delta time value reached"
    case MaxLengthReached => "Maximum length reached"
    case SmpteFramesGiven => "SMTPE offset frames amount must be part of 0-30."
    case SmpteSubframesGiven => "SMTPE offset subframes amount must be part of 0-99."
    case KeyGiven => "The key signature key must be between -7 and 7"
    case KeyScaleGiven => "The key signature scale must be 0 or 1"
  }
}
