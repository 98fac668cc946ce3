/** What ffprobe reports about an archived file, and how `getVideoMetadata`
    classifies a failed run. The ffprobe process itself is not modelled:
    its parsed output, or the error it raised, is an input. */
module Probe {
  import opened Wrappers
  import opened Text

  /** One entry of ffprobe's `streams` array; an absent JSON field is `None`.
      Numbers ffprobe prints as strings (`r_frame_rate`, `sample_rate`,
      `bit_rate`) stay strings. */
  datatype Stream = Stream(
    codecType: Option<string>,
    codecName: Option<string>,
    codecLongName: Option<string>,
    width: Option<int>,
    height: Option<int>,
    rFrameRate: Option<string>,
    sampleRate: Option<string>,
    channels: Option<int>,
    bitRate: Option<string>)

  /** The stream the receipt uses when none of the wanted type exists (`{}`). */
  const NoStream: Stream := Stream(None, None, None, None, None, None, None, None, None)

  datatype Format = Format(size: Option<string>)

  /** The parsed JSON object; `streams` and `format` are the only keys
      `-show_format -show_streams` produces. */
  datatype Metadata = Metadata(streams: Option<seq<Stream>>, format: Option<Format>)

  /** The empty object `{}`. */
  const EmptyMetadata: Metadata := Metadata(None, None)

  /** `Object.keys(metadata).length > 0`. */
  predicate HasMetadata(m: Metadata) {
    m.streams.Some? || m.format.Some?
  }

  /** A JavaScript string is truthy when it is present and not empty. */
  predicate Truthy(s: Option<string>) {
    s.Some? && s.value != ""
  }

  /** The index of the first stream whose `codec_type` is `kind`
      (`streams.find(s => s.codec_type === kind)`). */
  function FirstOfType(streams: seq<Stream>, kind: string): (k: Option<nat>)
    ensures k.Some? ==> k.value < |streams| && streams[k.value].codecType == Some(kind)
    ensures k.Some? ==> forall i :: 0 <= i < k.value ==> streams[i].codecType != Some(kind)
    ensures k.None? <==> forall i :: 0 <= i < |streams| ==> streams[i].codecType != Some(kind)
    decreases |streams|
  {
    if |streams| == 0 then None
    else if streams[0].codecType == Some(kind) then Some(0)
    else
      match FirstOfType(streams[1..], kind)
      case None => None
      case Some(k) => Some(k + 1)
  }

  /** The first stream of type `kind`, if any. */
  function FindByType(streams: seq<Stream>, kind: string): (s: Option<Stream>)
    ensures s.Some? <==> exists i :: 0 <= i < |streams| && streams[i].codecType == Some(kind)
    // `Array.find`: the stream at the first index of that type
    ensures s.Some? ==> exists i :: && 0 <= i < |streams| && s.value == streams[i]
                                    && streams[i].codecType == Some(kind)
                                    && forall j :: 0 <= j < i ==> streams[j].codecType != Some(kind)
  {
    match FirstOfType(streams, kind)
    case None => None
    case Some(k) => Some(streams[k])
  }

  /** Whether any stream has type `kind` (`streams.some(...)`). */
  predicate HasType(streams: seq<Stream>, kind: string) {
    exists i :: 0 <= i < |streams| && streams[i].codecType == Some(kind)
  }

  /** What the ffprobe call raised: the error's `message`, and the `cmd` and
      `signal` that a child-process error carries. A `JSON.parse` failure
      is an error without `cmd`. */
  datatype ProbeError = ProbeError(message: string, cmd: Option<string>, signal: Option<string>)

  /** One run of ffprobe: its parsed stdout, or the error it raised. */
  datatype ProbeRun = Parsed(metadata: Metadata) | Raised(error: ProbeError)

  datatype FailureReason = FfprobeNotFound | UnsupportedFormat

  datatype MetadataResult = MetadataResult(metadata: Metadata, reason: Option<FailureReason>)

  /** The classification of a failed run: the tool is missing when the
      message mentions `not found` or `ENOENT`, or when a command was run
      and killed by `SIGTERM`. */
  predicate IsCommandNotFound(e: ProbeError) {
    || Contains(e.message, "not found")
    || Contains(e.message, "ENOENT")
    || (Truthy(e.cmd) && e.signal == Some("SIGTERM"))
  }

  /** `getVideoMetadata`: the parsed output with no reason, or `{}` with the
      reason for the failure. */
  function GetVideoMetadata(run: ProbeRun): (r: MetadataResult)
    ensures r.reason.None? <==> run.Parsed?
    ensures run.Parsed? ==> r.metadata == run.metadata
    ensures run.Raised? ==> r.metadata == EmptyMetadata && !HasMetadata(r.metadata)
    ensures run.Raised? ==> (r.reason == Some(FfprobeNotFound) <==> IsCommandNotFound(run.error))
    ensures run.Raised? ==> (r.reason == Some(UnsupportedFormat) <==> !IsCommandNotFound(run.error))
  {
    match run
    case Parsed(m) => MetadataResult(m, None)
    case Raised(e) => MetadataResult(EmptyMetadata, Some(if IsCommandNotFound(e) then FfprobeNotFound else UnsupportedFormat))
  }

  /** A shell's "command not found" report, wherever `ENOENT` or `not found`
      sits in the message, classifies the tool as missing. */
  lemma MissingToolMentioned(before: string, word: string, after: string, cmd: Option<string>, signal: Option<string>)
    requires word == "ENOENT" || word == "not found"
    ensures GetVideoMetadata(Raised(ProbeError(before + word + after, cmd, signal))).reason == Some(FfprobeNotFound)
  {
    ContainsMiddle(before, word, after);
  }

  /** A command killed by `SIGTERM` counts as a missing tool whatever it printed. */
  lemma KilledCommandIsMissingTool(message: string, cmd: string)
    requires cmd != ""
    ensures GetVideoMetadata(Raised(ProbeError(message, Some(cmd), Some("SIGTERM")))).reason == Some(FfprobeNotFound)
  {
  }

  /** A message with neither phrase, from an error without a command (a JSON
      parse error, say), is an unsupported format. */
  lemma UnreadableOutputIsUnsupported(message: string)
    requires !Contains(message, "not found") && !Contains(message, "ENOENT")
    ensures GetVideoMetadata(Raised(ProbeError(message, None, None))).reason == Some(UnsupportedFormat)
  {
  }
}
