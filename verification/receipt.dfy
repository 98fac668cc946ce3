/** The decisions inside `generateReceiptHtml`: which advisory block heads
    the receipt, whether the error and warning lists appear, and what each
    cell of the video and audio tables shows when ffprobe left a field
    out. Markup, styling and number formatting are not modelled. */
module Receipt {
  import opened Wrappers
  import opened Text
  import opened Probe
  import opened FormatCheck

  /** The advisory block above the receipt's tables. */
  datatype Advisory =
    | NoAdvisory          // metadata was read, or no reason was given
    | ToolMissing         // warning: ffprobe is not installed
    | NotVideoInfo        // information: a non-video file, which the settings allow
    | UnsupportedWarning  // warning: the file is not a video format

  /** The block for a receipt, from whether metadata was read, the reason it
      was not, and whether non-video files are allowed. */
  function SelectAdvisory(hasMetadata: bool, reason: Option<FailureReason>, allowNonVideoFiles: bool): (a: Advisory)
    ensures hasMetadata ==> a == NoAdvisory
    ensures a == ToolMissing <==> !hasMetadata && reason == Some(FfprobeNotFound)
    ensures a == NotVideoInfo <==> !hasMetadata && reason == Some(UnsupportedFormat) && allowNonVideoFiles
    ensures a == UnsupportedWarning <==> !hasMetadata && reason == Some(UnsupportedFormat) && !allowNonVideoFiles
    ensures a == NoAdvisory <==> hasMetadata || reason.None?
  {
    if hasMetadata then NoAdvisory
    else match reason
      case Some(FfprobeNotFound) => ToolMissing
      case Some(UnsupportedFormat) => if allowNonVideoFiles then NotVideoInfo else UnsupportedWarning
      case None => NoAdvisory
  }

  /** Through `getVideoMetadata`, a receipt carries an advisory exactly when
      ffprobe failed, and the tool-missing one exactly when the failure
      looks like a missing command. */
  lemma AdvisoryFollowsProbe(run: ProbeRun, allowNonVideoFiles: bool)
    ensures var r := GetVideoMetadata(run);
            var a := SelectAdvisory(HasMetadata(r.metadata), r.reason, allowNonVideoFiles);
            && (a == NoAdvisory <==> run.Parsed?)
            && (a == ToolMissing <==> run.Raised? && IsCommandNotFound(run.error))
            && (a == NotVideoInfo <==> run.Raised? && !IsCommandNotFound(run.error) && allowNonVideoFiles)
  {
  }

  // ---------------------------------------------------------------------
  // Table cells

  const NA: string := "N/A"

  /** `a || b || 'N/A'` on two optional strings. */
  function FirstTruthy(a: Option<string>, b: Option<string>): (cell: string)
    ensures Truthy(a) ==> cell == a.value
    ensures !Truthy(a) && Truthy(b) ==> cell == b.value
    ensures !Truthy(a) && !Truthy(b) ==> cell == NA
  {
    if Truthy(a) then a.value else if Truthy(b) then b.value else NA
  }

  /** A numeric field rendered by a template literal, `N/A` when absent or zero. */
  function NumberOrNA(n: Option<int>): (cell: string)
    ensures n.None? || n.value == 0 ==> cell == NA
    ensures n.Some? && n.value > 0 ==> AllDigits(cell) && cell == NatToString(n.value)
  {
    if n.Some? && n.value != 0 then IntToString(n.value) else NA
  }

  datatype VideoCells = VideoCells(codec: string, resolution: string, frameRate: string, bitRate: string)

  datatype AudioCells = AudioCells(codec: string, sampleRate: string, channels: string, bitRate: string)

  /** The stream the tables describe: the first of the type, or `{}`. */
  function ShownStream(m: Metadata, kind: string): (s: Stream)
    ensures m.streams.None? ==> s == NoStream
    ensures m.streams.Some? ==> (s == NoStream || s in m.streams.value)
    ensures m.streams.Some? && FirstOfType(m.streams.value, kind).Some?
            ==> s == m.streams.value[FirstOfType(m.streams.value, kind).value]
  {
    if m.streams.None? then NoStream
    else FindByType(m.streams.value, kind).GetOr(NoStream)
  }

  /** The video table; `formatBitrate` renders a truthy `bit_rate`. */
  function VideoTable(v: Stream, formatBitrate: string -> string): (t: VideoCells)
    // the codec: the long name, else the short name, else `N/A`
    ensures Truthy(v.codecLongName) ==> t.codec == v.codecLongName.value
    ensures !Truthy(v.codecLongName) && Truthy(v.codecName) ==> t.codec == v.codecName.value
    ensures !Truthy(v.codecLongName) && !Truthy(v.codecName) ==> t.codec == NA
    // `W x H`, each side `N/A` when absent or zero
    ensures v.width.Some? && v.width.value > 0 && v.height.Some? && v.height.value > 0
            ==> t.resolution == NatToString(v.width.value) + " x " + NatToString(v.height.value)
    ensures v.width.None? || v.width.value == 0 ==> StartsWith(t.resolution, NA + " x ")
    ensures Truthy(v.rFrameRate) ==> t.frameRate == v.rFrameRate.value
    ensures !Truthy(v.rFrameRate) ==> t.frameRate == NA
    ensures Truthy(v.bitRate) ==> t.bitRate == formatBitrate(v.bitRate.value)
    ensures !Truthy(v.bitRate) ==> t.bitRate == NA
  {
    VideoCells(
      FirstTruthy(v.codecLongName, v.codecName),
      NumberOrNA(v.width) + " x " + NumberOrNA(v.height),
      FirstTruthy(v.rFrameRate, None),
      if Truthy(v.bitRate) then formatBitrate(v.bitRate.value) else NA)
  }

  /** The audio table; the sample rate is followed by ` Hz` even when `N/A`. */
  function AudioTable(a: Stream, formatBitrate: string -> string): (t: AudioCells)
    ensures Truthy(a.codecLongName) ==> t.codec == a.codecLongName.value
    ensures !Truthy(a.codecLongName) && Truthy(a.codecName) ==> t.codec == a.codecName.value
    ensures !Truthy(a.codecLongName) && !Truthy(a.codecName) ==> t.codec == NA
    // the sample rate always ends in ` Hz`, even after `N/A`
    ensures Truthy(a.sampleRate) ==> t.sampleRate == a.sampleRate.value + " Hz"
    ensures !Truthy(a.sampleRate) ==> t.sampleRate == NA + " Hz"
    ensures a.channels.Some? && a.channels.value > 0 ==> t.channels == NatToString(a.channels.value)
    ensures a.channels.None? || a.channels.value == 0 ==> t.channels == NA
    ensures Truthy(a.bitRate) ==> t.bitRate == formatBitrate(a.bitRate.value)
    ensures !Truthy(a.bitRate) ==> t.bitRate == NA
  {
    AudioCells(
      FirstTruthy(a.codecLongName, a.codecName),
      FirstTruthy(a.sampleRate, None) + " Hz",
      NumberOrNA(a.channels),
      if Truthy(a.bitRate) then formatBitrate(a.bitRate.value) else NA)
  }

  // ---------------------------------------------------------------------
  // The receipt

  /** What `generateReceiptHtml` is given. `size` is the text the receipt
      prints for the file size. */
  datatype ReceiptData = ReceiptData(
    receiptId: string,
    filename: string,
    displayname: string,
    size: string,
    hash: string,
    metadata: Metadata,
    formatCheck: FormatResult,
    timestamp: string,
    hasMetadata: bool,
    reason: Option<FailureReason>,
    allowNonVideoFiles: bool)

  /** The receipt's content: a list block is `None` when it is not shown. */
  datatype Receipt = Receipt(
    receiptId: string,
    filename: string,
    size: string,
    hash: string,
    advisory: Advisory,
    errorBlock: Option<seq<string>>,
    warningBlock: Option<seq<Warning>>,
    video: VideoCells,
    audio: AudioCells)

  /** `generateReceiptHtml(data)`, up to markup. */
  function GenerateReceipt(data: ReceiptData, formatBitrate: string -> string): (r: Receipt)
    ensures r.advisory == SelectAdvisory(data.hasMetadata, data.reason, data.allowNonVideoFiles)
    ensures r.errorBlock.Some? <==> data.formatCheck.errors != []
    ensures r.errorBlock.Some? ==> r.errorBlock.value == data.formatCheck.errors
    ensures r.warningBlock.Some? <==> data.formatCheck.warnings != []
    ensures r.warningBlock.Some? ==> r.warningBlock.value == data.formatCheck.warnings
    ensures (r.receiptId, r.filename, r.size, r.hash) == (data.receiptId, data.filename, data.size, data.hash)
  {
    Receipt(
      data.receiptId, data.filename, data.size, data.hash,
      SelectAdvisory(data.hasMetadata, data.reason, data.allowNonVideoFiles),
      if |data.formatCheck.errors| > 0 then Some(data.formatCheck.errors) else None,
      if |data.formatCheck.warnings| > 0 then Some(data.formatCheck.warnings) else None,
      VideoTable(ShownStream(data.metadata, "video"), formatBitrate),
      AudioTable(ShownStream(data.metadata, "audio"), formatBitrate))
  }

  const AllNAVideo: VideoCells := VideoCells(NA, NA + " x " + NA, NA, NA)
  const AllNAAudio: AudioCells := AudioCells(NA, NA + " Hz", NA, NA)

  /** Without metadata every cell of both tables reads `N/A`, as the
      tool-missing advisory tells the reader. */
  lemma NoMetadataAllNA(data: ReceiptData, formatBitrate: string -> string)
    requires !HasMetadata(data.metadata)
    ensures GenerateReceipt(data, formatBitrate).video == AllNAVideo
    ensures GenerateReceipt(data, formatBitrate).audio == AllNAAudio
  {
  }

  /** The tables describe the first video stream and the first audio stream. */
  lemma TablesShowFirstStreams(data: ReceiptData, formatBitrate: string -> string, kv: nat, ka: nat)
    requires data.metadata.streams.Some?
    requires FirstOfType(data.metadata.streams.value, "video") == Some(kv)
    requires FirstOfType(data.metadata.streams.value, "audio") == Some(ka)
    ensures GenerateReceipt(data, formatBitrate).video == VideoTable(data.metadata.streams.value[kv], formatBitrate)
    ensures GenerateReceipt(data, formatBitrate).audio == AudioTable(data.metadata.streams.value[ka], formatBitrate)
  {
  }

  /** A frame-rate cell reads `N/A` for a stream that reports no rate. */
  lemma MissingRateShowsNA(v: Stream, formatBitrate: string -> string)
    requires !Truthy(v.rFrameRate)
    ensures VideoTable(v, formatBitrate).frameRate == NA
  {
  }

  /** A file without an audio stream has an all-`N/A` audio table. */
  lemma SilentFileAudioNA(data: ReceiptData, formatBitrate: string -> string)
    requires data.metadata.streams.Some? && !HasType(data.metadata.streams.value, "audio")
    ensures GenerateReceipt(data, formatBitrate).audio == AllNAAudio
  {
  }

  /** The codec cell prefers the long name and falls back to the short one. */
  lemma CodecCellFallback(v: Stream, formatBitrate: string -> string)
    ensures var cell := VideoTable(v, formatBitrate).codec;
            && (Truthy(v.codecLongName) ==> cell == v.codecLongName.value)
            && (!Truthy(v.codecLongName) && Truthy(v.codecName) ==> cell == v.codecName.value)
            && (!Truthy(v.codecLongName) && !Truthy(v.codecName) ==> cell == NA)
  {
  }

  /** A check that found nothing shows neither list. */
  lemma CleanCheckShowsNoLists(data: ReceiptData, formatBitrate: string -> string)
    requires data.formatCheck == Unchecked
    ensures GenerateReceipt(data, formatBitrate).errorBlock.None?
    ensures GenerateReceipt(data, formatBitrate).warningBlock.None?
  {
  }
}
