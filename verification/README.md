# Upload reception core, modelled in Dafny

The desktop application receives video submissions over tus, a resumable
upload protocol. Once an upload's last byte arrives, `executePostFinish`
runs the following steps in order:

- checks that the archive disk has room (with a 2 GiB margin);
- names the file in DCP style, `title_studentId_name` plus the original
  extension, with `_1`, `_2`, … appended on a clash;
- moves it out of `incoming/`, falling back to copy-and-unlink across
  volumes;
- deletes tus's two sidecar files, ignoring errors;
- probes it with ffprobe;
- stores its metadata and SHA-256 digest;
- checks its format against the configured deliverable requirements;
- writes an HTML receipt;
- appends one line to the `uploads.tsv` ledger.

Every step is reported in a progress file, and a failure is recorded as an
`error` step and rethrown.

Around this pipeline the model also covers:

- the HTTP server:
  - local-host gates for the admin screen and the ledger;
  - the download listing and the traversal guard;
  - tus's admission check (a 507 reply when space is short);
  - the finish hook, which swallows pipeline errors;
- the main process:
  - the `PATH` extension done at start-up;
  - the `uploadsDir` derived when the settings are saved;
  - the advertised LAN address;
  - the server's running and stopped states;
- the ffmpeg/ffprobe availability check.

Modules, one per component:

| module | file | covers |
|---|---|---|
| `Wrappers` | `wrappers.dfy` | `Option` and `Result` |
| `Text` | `text.dfy` | JavaScript string operations the code relies on: `split`, `join`, `trim`, `\s+` runs, `includes`, `parseInt` and `Number` on decimal text |
| `Paths` | `paths.dfy` | `path.join`, `path.extname` and `path.basename` as used |
| `Files` | `files.dfy` | a filesystem as a finite map, with `rename`, `copyFile`, `unlink` and `moveUploadedFile` |
| `Naming` | `naming.dfy` | `buildDcpFilename` and `getUniqueFilename` |
| `Probe` | `probe.dfy` | ffprobe's report and `getVideoMetadata` |
| `FormatCheck` | `format_check.dfy` | `checkFormatBasic` and `checkFormat` |
| `Receipt` | `receipt.dfy` | the decisions inside `generateReceiptHtml` |
| `DiskCheck` | `disk_check.dfy` | `disk-check.js` |
| `PostFinish` | `post_finish.dfy` | `executePostFinish` and `appendToUploadsTsv` |
| `Server` | `server.dfy` | `server.js` |
| `MainProcess` | `main_process.dfy` | `index.js` and `config.js`'s `saveConfig` |
| `FfmpegCheck` | `ffmpeg_check.dfy` | `checkFfmpeg` |

Everything outside the program becomes an input:

- **Filesystem:** the filesystem is a map from paths to bytes. Every I/O
  call that can fail takes its error from `Env.faults`.
- **External tools:** the output of `df`, ffprobe and `-version` runs is an
  input.
- **SHA-256:** the digest is a function parameter.
- **Clock:** the clock is a sequence of readings, taken in program order.

## Model

| member | source | states |
|---|---|---|
| `Naming.RemoveIllegal` | src/main/post-finish.js:237 | the result has none of `/ \ : * ? " < > \|` and is never longer than the input. Every character it keeps occurs in the input, and it is empty exactly when every input character was illegal |
| `Naming.RemoveIllegalConcat` | src/main/post-finish.js:237 | deleting the illegal characters of a concatenation deletes them from each part, keeping the parts in order |
| `Naming.RemoveIllegalChar` | src/main/post-finish.js:237 | a single character is kept exactly when it is legal, so with `RemoveIllegalConcat` the deletion is fixed character by character |
| `Naming.Sanitize` | src/main/post-finish.js:235-241 | a sanitised field is clean: no illegal character, no whitespace and no `_`. It is never longer than the input |
| `Naming.SanitizeIsScan` | src/main/post-finish.js:235-241 | the chain of three replacements and `trim` equals an independent left-to-right scan. The scan drops illegal characters, writes one `-` per whitespace run (a run continues across dropped characters), writes `-` for `_` and keeps every other character. So the final `trim` never removes anything, and a leading or trailing run stays as `-` |
| `Naming.SanitizeFixedPoint` | src/main/post-finish.js:235-241 | the sanitiser leaves a field unchanged exactly when the field is already clean |
| `Naming.SanitizeIdempotent` | src/main/post-finish.js:235-241 | sanitising twice gives the same field as sanitising once |
| `Naming.SanitizeEmptyIff` | src/main/post-finish.js:235-241 | a field sanitises to the empty string exactly when all of its characters are illegal |
| `Naming.Truncate` | src/main/post-finish.js:250 | `substring(0, n)` counts UTF-16 code units. The result is the longest prefix whose UTF-16 length is at most `n`: the next character would pass the limit. A text that fits is kept whole |
| `Naming.TruncateBmp` | src/main/post-finish.js:250 | on text of the Basic Multilingual Plane the cut falls at `n` characters |
| `Naming.TruncateAstral` | src/main/post-finish.js:250 | on text made only of characters outside the Basic Multilingual Plane (two code units each), `n / 2` characters are kept, or all of them when they fit |
| `Naming.BuildDcpFilename` | src/main/post-finish.js:233-251 | the DCP name is at most 200 UTF-16 code units long (so at most 200 characters) and has no illegal character or whitespace. It is the three sanitised fields joined with `_` when those fit in 200 units. Otherwise it is their longest prefix that fits |
| `Naming.DcpFilenameFields` | src/main/post-finish.js:243-250 | the name holds at most two `_`. When the joined fields fit in 200 UTF-16 code units, splitting the name at `_` gives back the three sanitised fields |
| `Naming.DcpFilenameOfShortFields` | src/main/post-finish.js:243-250 | nothing is cut when the joined fields fit in 200 UTF-16 code units |
| `Naming.DcpFilenameOfCleanFields` | src/main/post-finish.js:233-251 | fields that are clean, non-empty and together within 200 UTF-16 code units pass through unchanged, as `title_studentId_name` |
| `Naming.DcpFieldsPlaceholders` | src/main/post-finish.js:243-247 | an empty title becomes `untitled`, and an empty student id or name becomes `unknown` |
| `Naming.MissingField` | src/main/post-finish.js:244-246 | a placeholder survives sanitising unchanged |
| `Naming.DcpFieldsIllegalTitle` | src/main/post-finish.js:244 | a title made only of illegal characters is not replaced by `untitled`: it becomes an empty field |
| `Naming.DcpFieldsTwoWordTitle` | src/main/post-finish.js:238-239 | a title of two clean words separated by a space becomes the words joined by `-` |
| `Naming.CandidateInjective` | src/main/post-finish.js:277 | different counters give different alternative names |
| `Naming.CandidateHasNoSlash` | src/main/post-finish.js:267-277 | an alternative name is a single path component |
| `Naming.CandidateIsNotFilename` | src/main/post-finish.js:277 | no alternative equals the original name, so the first probe is never repeated |
| `Naming.UniqueFilename` | src/main/post-finish.js:266-290 | returns the requested name when it is free. Otherwise it returns `base_k+ext` for the least `k` whose path is free, and every earlier candidate is taken |
| `Naming.ProbesResolve` | src/main/post-finish.js:273-283 | when the first `n` probes are taken and probe `n` is free, probe `n` is the answer. `n` is bounded by the number of existing paths, so the loop ends |
| `Naming.ResolvesToUnique` | src/main/post-finish.js:266-290 | the characterisation of the answer admits exactly one name |
| `Naming.CandidateOfPlainName` | src/main/post-finish.js:267-277 | for `stem.tail`, the k-th alternative is `stem_k.tail` |
| `Paths.ExtName` | src/main/post-finish.js:74 | a non-empty extension runs from the last component's last `.` to its end: it starts with `.`, holds no other dot and is shorter than the component. It is empty exactly when the component is empty, has no dot after its first character, or is `..` |
| `Paths.Stem` | src/main/post-finish.js:268 | `path.basename(f, ext)` followed by the extension is the last component |
| `Paths.ExtNameOfPlainName` | src/main/post-finish.js:74 | `stem.tail` has extension `.tail` |
| `Paths.StemOfPlainName` | src/main/post-finish.js:268 | `stem.tail` has base `stem` |
| `Paths.ExtNameOfDotFile` | src/main/post-finish.js:74 | a leading dot does not start an extension |
| `Paths.PathJoin` | src/main/post-finish.js:81 | `path.join(dir, name)` for an entry name is the directory with its trailing separators dropped (a root of separators kept as `/`), one separator, and the name. Both `.` and `""` denote the directory itself, `""` keeping one trailing separator. An empty directory gives the bare name, or `.` |
| `Paths.PathJoinInjective` | src/main/post-finish.js:81 | two names joined onto one directory give one path only if the names are equal, as long as one of them is an entry name (`""` and `.` both give the directory) |
| `Paths.PathJoinNotDir` | src/main/post-finish.js:81 | an entry of a directory never joins to the path of the directory itself |
| `Paths.PathJoinNested` | src/main/post-finish.js:20-22 | joining onto a joined directory is joining the two-part name: `join(join(d, x), y) == join(d, x + "/" + y)` |
| `Files.Rename` | src/main/post-finish.js:299 | a rename succeeds exactly when no fault is injected and the source exists. Success leaves the source's bytes at the target (replacing it), and failure changes nothing |
| `Files.CopyFile` | src/main/post-finish.js:303 | a successful copy puts the source's bytes at the target, adds only the target and touches no other file. A failed copy changes nothing |
| `Files.Unlink` | src/main/post-finish.js:304 | a successful unlink removes exactly that path. Without an injected fault, the only failure is `ENOENT` |
| `Files.MoveUploadedFile` | src/main/post-finish.js:297-310 | a move succeeds by a rename, or after `EXDEV` by a copy and an unlink. Either way the bytes end up at the target only. A non-`EXDEV` error is rethrown with nothing changed, and a failed unlink after a good copy leaves both files |
| `Files.FallbackAgreesWithRename` | src/main/post-finish.js:297-310 | the cross-volume route and the rename produce the same filesystem |
| `Files.MovedFacts` | src/main/post-finish.js:297-310 | after a move the target holds the source's bytes, the source is gone, and every other path is unchanged |
| `Probe.FirstOfType` | src/main/post-finish.js:525 | the index of the first stream of the given type, and `None` exactly when there is no such stream |
| `Probe.FindByType` | src/main/post-finish.js:412-413 | `streams.find` returns the FIRST stream of the given type: no earlier stream has that type. It finds one exactly when one exists |
| `Probe.GetVideoMetadata` | src/main/post-finish.js:317-338 | parsed output comes with no reason. A raised error gives `{}` with reason `ffprobe-not-found` exactly when the error looks like a missing command, and `unsupported-format` otherwise |
| `Probe.MissingToolMentioned` | src/main/post-finish.js:330-332 | a message mentioning `ENOENT` or `not found` anywhere is classified as a missing tool |
| `Probe.KilledCommandIsMissingTool` | src/main/post-finish.js:333 | a command killed by `SIGTERM` is classified as a missing tool, whatever it printed |
| `Probe.UnreadableOutputIsUnsupported` | src/main/post-finish.js:325-335 | an error without a command and without either phrase (such as a JSON parse error) means `unsupported-format` |
| `FormatCheck.CheckFormatBasic` | src/main/post-finish.js:361-391 | no streams gives invalid with the missing-streams error. Otherwise the type is video, audio or image, tried in that order, and a file with none of them is invalid with the unsupported-format error. There are never warnings |
| `FormatCheck.RequiredDimensions` | src/main/post-finish.js:423 | a requirement `AxB` is compared as `Number(A)` and `Number(B)` |
| `FormatCheck.ResolutionOfExactSize` | src/main/post-finish.js:422-429 | a stream of exactly `WxH` satisfies the requirement rendered as `WxH` |
| `FormatCheck.ResolutionWithoutSeparator` | src/main/post-finish.js:423-424 | a requirement without `x` leaves the height `undefined`, so every stream that reports a height gets a warning |
| `FormatCheck.EvalRate` | src/main/post-finish.js:445 | `eval` of a decimal literal is its value. `num/den` is the exact quotient, which is not finite when the denominator is zero. Every other text raises |
| `FormatCheck.EvalRateOfFraction` | src/main/post-finish.js:445 | `num/den` with a non-zero denominator evaluates to the exact quotient |
| `FormatCheck.ResolutionRule` | src/main/post-finish.js:422-429 | a resolution warning is given exactly when a requirement is set and the stream's width or height differs from it |
| `FormatCheck.VideoCodecRule` | src/main/post-finish.js:432-441 | a codec warning is given exactly when ProRes is required and the codec is not one of `prores`, `prores_ks`, `prores_aw` |
| `FormatCheck.FrameRateRule` | src/main/post-finish.js:444-454 | the rule is skipped without required rates or without a reported rate. Otherwise it warns exactly when no required rate is within 0.1 of the measured one |
| `FormatCheck.AudioCodecRule` | src/main/post-finish.js:457-466 | with an audio stream and a PCM requirement, a codec not starting with `pcm_` warns. A missing codec name raises a TypeError |
| `FormatCheck.SampleRateRule` | src/main/post-finish.js:469-476 | with an audio stream and a truthy required rate, it warns exactly when `parseInt` of the stream's rate differs |
| `FormatCheck.StrictWarnings` | src/main/post-finish.js:421-476 | the checks raise exactly when the frame-rate or audio-codec rule does. Otherwise the warnings appear in rule order, at most one per rule |
| `FormatCheck.CheckFormat` | src/main/post-finish.js:399-479 | a file with no video stream is invalid with the missing-video error and no warnings. A file with one is valid with the rules' warnings |
| `FormatCheck.WarningsNeverInvalidate` | src/main/post-finish.js:399-479 | a file with a video stream is never invalid and gets at most five warnings |
| `FormatCheck.WarningKinds` | src/main/post-finish.js:421-476 | each kind of warning appears exactly when its rule finds a mismatch |
| `FormatCheck.RuleOrder` | src/main/post-finish.js:421-476 | five rule outputs of at most one warning each, concatenated, are in strict rule order |
| `FormatCheck.RuleOrderBound` | src/main/post-finish.js:421-476 | warnings in strict rule order number at most five |
| `FormatCheck.BlockWarns` | src/main/post-finish.js:421-476 | in the concatenation, a rule is represented exactly when its own output is non-empty |
| `FormatCheck.NoRequirementsNoWarnings` | src/main/post-finish.js:145 | with `config.formatCheck \|\| {}` empty, a video file is valid with no warnings |
| `FormatCheck.DefaultsAcceptDeliverable` | src/main/config.js:17-24 | under the shipped defaults, a 1920x1080 ProRes picture at a rate within 0.1 of 24 with 48 kHz PCM sound gets no warnings |
| `FormatCheck.NoRuleWarns` | src/main/post-finish.js:421-476 | when no rule objects, the list of warnings is empty |
| `FormatCheck.DefaultPictureAccepted` | src/main/config.js:19-20 | a 1920x1080 ProRes stream meets the default resolution and codec |
| `FormatCheck.DefaultRateAccepted` | src/main/config.js:21 | a `num/den` rate within 0.1 of 24 meets the default rates |
| `FormatCheck.DefaultSoundAccepted` | src/main/config.js:22-23 | `pcm_*` at 48000 Hz meets the default audio codec and sample rate |
| `FormatCheck.StrictValidIsBasicVideo` | src/main/post-finish.js:361-479 | a file the full check accepts is a valid video file for the basic check |
| `FormatCheck.BasicInvalidIsStrictInvalid` | src/main/post-finish.js:361-479 | a file the basic check rejects is rejected by the full check too, with the missing-video error |
| `Receipt.SelectAdvisory` | src/main/post-finish.js:487-509 | there is no advisory when metadata was read. Otherwise the block is: tool-missing for `ffprobe-not-found`, information for `unsupported-format` with non-video files allowed, and a warning for it otherwise |
| `Receipt.AdvisoryFollowsProbe` | src/main/post-finish.js:317-338 | through `getVideoMetadata`, a receipt has no advisory exactly when ffprobe's output parsed. It has the tool-missing block exactly when the error looks like a missing command |
| `Receipt.FirstTruthy` | src/main/post-finish.js:637 | `a \|\| b \|\| 'N/A'` picks the first non-empty string, else `N/A` |
| `Receipt.NumberOrNA` | src/main/post-finish.js:641 | an absent or zero number shows `N/A`. A positive one shows its decimal digits |
| `Receipt.ShownStream` | src/main/post-finish.js:525-526 | the tables describe the first stream of each type, or `{}` |
| `Receipt.GenerateReceipt` | src/main/post-finish.js:486-703 | the receipt carries the advisory selected by the probe result. The error list is shown exactly when there are errors, and the warning list exactly when there are warnings, each listing exactly those items |
| `Receipt.NoMetadataAllNA` | src/main/post-finish.js:636-670 | without metadata every cell of both tables reads `N/A` |
| `Receipt.TablesShowFirstStreams` | src/main/post-finish.js:525-526 | the video and audio tables describe the first video and the first audio stream |
| `Receipt.MissingRateShowsNA` | src/main/post-finish.js:645 | a stream without a frame rate shows `N/A` |
| `Receipt.SilentFileAudioNA` | src/main/post-finish.js:526 | a file with no audio stream has an all-`N/A` audio table |
| `Receipt.CodecCellFallback` | src/main/post-finish.js:637 | the codec cell prefers the long name, then the short name, then `N/A` |
| `Receipt.VideoTable` | src/main/post-finish.js:636-651 | the codec cell is the long name, else the short name, else `N/A`. The resolution is `W x H` when both sides are positive, and starts with `N/A x` without a width. The rate and bitrate cells show the value (the bitrate formatted) or `N/A` |
| `Receipt.AudioTable` | src/main/post-finish.js:653-670 | the codec cell falls back as in the video table. The sample rate always ends in ` Hz`, after the value or after `N/A`. The channel count shows its digits when positive and `N/A` otherwise, and the bitrate is formatted or `N/A` |
| `Receipt.CleanCheckShowsNoLists` | src/main/post-finish.js:511-523 | an unchecked verdict shows neither list |
| `DiskCheck.Kilobytes` | src/main/disk-check.js:32-34 | a count of 1K blocks is a number of bytes 1024 times larger, and `NaN` stays `NaN` |
| `DiskCheck.CheckDiskSpace` | src/main/disk-check.js:12-50 | the result carries an error exactly when `df` failed or printed fewer than two lines. That fallback reports no usage and `MAX_SAFE_INTEGER` free |
| `DiskCheck.DfReportLines` | src/main/disk-check.js:15-23 | for a report of a header line and one data line, splitting that data line gives back its fields |
| `DiskCheck.ParseRenderedReport` | src/main/disk-check.js:12-37 | parsing a `df -k` report recovers the total, used and available sizes in bytes, and the capacity |
| `DiskCheck.DiskInfoOfFields` | src/main/disk-check.js:23-37 | a readable report's numbers come from fields 1 to 4 of its second line |
| `DiskCheck.RenderedField` | src/main/disk-check.js:26-29 | `parseInt` reads back a rendered count |
| `DiskCheck.Field` | src/main/disk-check.js:26-29 | a field past the end of the line is `NaN`. A field of digits is its decimal value, and an empty field or one starting with a character that is not whitespace, a digit or a sign is `NaN` |
| `Text.SplitOnSpaceRuns` | src/main/disk-check.js:23 | `split(/\s+/)` gives at least one token and no token holds whitespace. Text without whitespace is one token |
| `Text.JsParseInt` | src/main/disk-check.js:26-29 | `parseInt` is `NaN` exactly when no digit follows the leading whitespace and one optional sign |
| `Text.JsParseIntOfDigits` | src/main/disk-check.js:26-29 | `parseInt` of a digit string is its decimal value |
| `Text.JsParseIntNaN` | src/main/post-finish.js:470 | `parseInt` of an empty text, or of one starting with a character that is not whitespace, a digit or a sign, is `NaN` |
| `Text.JsParseIntOfNegative` | src/main/disk-check.js:26-29 | `parseInt` of `-` and a digit string is the negated value |
| `Text.Trim` | src/main/post-finish.js:240 | `trim` is never longer than its input, and a non-empty result neither starts nor ends with whitespace |
| `Text.TrimIsCut` | src/main/post-finish.js:240 | the trimmed text is a slice of the input with only whitespace before and after it |
| `Text.JsNumber` | src/main/post-finish.js:423 | `Number` of a digit string is its decimal value, and of blank text `0` |
| `DiskCheck.CheckSufficientSpace` | src/main/disk-check.js:59-78 | the space is sufficient exactly when the available figure is a number at least the request plus the margin in GiB |
| `DiskCheck.MarginMonotone` | src/main/disk-check.js:61-65 | a smaller margin never turns sufficient space into insufficient |
| `DiskCheck.RequestMonotone` | src/main/disk-check.js:62-65 | a smaller request never turns sufficient space into insufficient |
| `DiskCheck.FailOpen` | src/main/disk-check.js:38-65 | when `df` cannot be read, every request that fits under `MAX_SAFE_INTEGER` with its margin passes |
| `DiskCheck.UnreadableAvailableFailsClosed` | src/main/disk-check.js:28-65 | a readable report whose available field does not parse (`NaN`) is never sufficient |
| `DiskCheck.CheckDiskUsageWarning` | src/main/disk-check.js:98-113 | a warning is given exactly when the capacity is a number at or above the threshold |
| `DiskCheck.FailOpenNoWarning` | src/main/disk-check.js:41-106 | the fallback (capacity 0) never warns for a positive threshold |
| `DiskCheck.WarningOfRenderedReport` | src/main/disk-check.js:98-106 | on a rendered report, the warning is the comparison of its capacity with the threshold |
| `PostFinish.ArchiveDir` | src/main/post-finish.js:19 | a configured archive directory is used as given |
| `PostFinish.ArchivedOutsideIncoming` | src/main/post-finish.js:20-22 | an archived name (one component) never lands on a path inside `incoming/`, so a move never replaces the upload or its sidecars |
| `PostFinish.ReadFields` | src/main/post-finish.js:63-69 | an absent metadata object gives four empty fields. Present fields are read as given, with no decoding |
| `PostFinish.RequestedName` | src/main/post-finish.js:74-75 | the requested name starts with the DCP name, ends with the original extension and has no `/` |
| `PostFinish.RemoveSidecars` | src/main/post-finish.js:86-100 | the sidecar deletions only ever remove the two sidecars. Each is gone unless its unlink faulted, and no error escapes |
| `PostFinish.RelocatedHoldsUpload` | src/main/post-finish.js:81-100 | after the move and the sidecar deletions, the archived file holds the uploaded bytes and the upload's path is empty |
| `PostFinish.Admit` | src/main/post-finish.js:40-52 | the run passes admission exactly when the stat succeeds and the space check with a 2 GiB margin is sufficient. A shortfall raises the space check's result |
| `PostFinish.UpdateProgress` | src/main/post-finish.js:27-36 | a progress write records the step, its time and the completion time. It fails exactly when the directory or file write faults, and then records nothing |
| `PostFinish.FollowsStep` | src/main/post-finish.js:102-180 | the next scheduled write extends a run that follows the schedule |
| `PostFinish.Advance` | src/main/post-finish.js:102-180 | a scheduled progress write keeps the run on the schedule and touches no file, record or ledger line |
| `PostFinish.RecordFailure` | src/main/post-finish.js:195-201 | the catch block adds an `error` write when it can, swallows its failure, and leaves files, records and ledger alone |
| `PostFinish.FormatVerdict` | src/main/post-finish.js:137-154 | without metadata the verdict is the unchecked `{valid: true}`. With metadata it is the basic check when non-video files are allowed, and the full check against the configured requirements otherwise |
| `PostFinish.FailedProbeIsUnchecked` | src/main/post-finish.js:106-154 | a failed probe never reaches a format check |
| `PostFinish.VerdictFailsOnlyInFullCheck` | src/main/post-finish.js:137-154 | only the full check can raise, and only on a file with a video stream |
| `PostFinish.ActualSize` | src/main/post-finish.js:157 | ffprobe's size text when present and non-empty. Otherwise the stat size in decimal |
| `PostFinish.LedgerLineRoundTrip` | src/main/post-finish.js:719-721 | a ledger line ends in one newline, and splitting it at tabs gives back the seven fields, when no field holds a tab or newline |
| `PostFinish.LedgerLine` | src/main/post-finish.js:719-721 | a ledger line starts with the upload id and a tab, and ends with a tab, the finishing time and a newline |
| `PostFinish.LedgerTabInName` | src/main/post-finish.js:721 | a name containing a tab is written unescaped, so the line splits into eight fields |
| `PostFinish.ProbeStep` | src/main/post-finish.js:102-124 | the probe result is `getVideoMetadata`'s. The `move` and `ffprobe` writes follow the schedule, and the metadata record is stored only when every write succeeded |
| `PostFinish.HashStep` | src/main/post-finish.js:120-134 | on success the digest is that of the archived file's bytes and is stored as `hash/<id>.sha256`. A failure stores nothing |
| `PostFinish.CompleteStep` | src/main/post-finish.js:175-191 | on success the receipt is stored, the `receipt` and `completed` writes follow, and exactly one ledger line about the archived file is appended. A failure appends nothing |
| `PostFinish.Rethrow` | src/main/post-finish.js:195-203 | a caught error is rethrown unchanged, after the best-effort `error` write, with nothing else changed |
| `PostFinish.RecordArchived` | src/main/post-finish.js:102-191 | after the move the file stays where it is, and a computed verdict is the one the settings call for. With no injected fault and the archived file present, only a refused verdict stops the run, and a refusal raises the verdict's own error. A run without error stores the metadata, the SHA-256 of the archived bytes and the receipt (`Records`). It appends one ledger line (`Entry`): the id, the archived name and path, the student id and name, ffprobe's size or the stat size, and the local time read after the receipt |
| `PostFinish.Gather` | src/main/post-finish.js:102-134 | without faults the probe and the digest both succeed. On success the six scheduled writes are done, the digest is that of the archived bytes, and exactly the metadata and digest records are stored |
| `PostFinish.Judge` | src/main/post-finish.js:137-191 | a refused verdict is raised as the error. An accepted one, without faults, ends the run with the three records and the ledger line |
| `PostFinish.Approve` | src/main/post-finish.js:156-191 | after an accepted verdict: without faults no error. A failure is an I/O error, and success adds the receipt to the two stored records and appends exactly the `Entry` line |
| `PostFinish.Conclude` | src/main/post-finish.js:161-191 | once the verdict is known, success stores the receipt and appends exactly one ledger line |
| `PostFinish.MoveStep` | src/main/post-finish.js:74-82 | the name chosen is the unique resolution of the requested name, with no `/`. A successful move relocates the upload there, and a failure is the move's own error |
| `PostFinish.MoveAndRecord` | src/main/post-finish.js:74-191 | a failed move records nothing. Otherwise the upload is relocated under its resolved name. With no injected fault, only a refused verdict stops the run, and a refusal raises the verdict's own error. A clean run stores the metadata, the SHA-256 of the uploaded bytes and the receipt, and appends the `Entry` line whose size falls back to the uploaded file's length |
| `PostFinish.ExecutePostFinish` | src/main/post-finish.js:17-204 | the progress file follows the schedule, and a failure ends with `error` when that write can succeed. Too little space refuses the upload before anything moves, and nothing is recorded for an unmoved upload. A completed move is kept whatever fails later. The verdict is the one the settings call for. With no fault, the upload on disk and room for it, only a refused verdict can stop the run, and then it raises that verdict's error. A clean run stores the metadata, the digest of the uploaded bytes and the receipt, and appends one `Entry` line about the archived file |
| `Server.HostOf` | src/main/server.js:36 | `req.hostname` when it is non-empty. Otherwise the part of the `Host` header before the first `:`, and nothing without a header |
| `Server.HeaderHostBeforePort` | src/main/server.js:36 | `name:port` is judged by `name` |
| `Server.HeaderNeverGivesIpv6Loopback` | src/main/server.js:36-39 | the header fallback can never yield `::1`, so that entry of the local-host list is reachable only through `req.hostname` |
| `Server.AdminGate` | src/main/server.js:35-44 | the admin screen is passed on exactly for `localhost`, `127.0.0.1` and `::1`. Others get 403 with the admin message |
| `Server.DataGate` | src/main/server.js:58-71 | the archive data passes unless the raw path mentions `uploads.tsv` and the host is not local. A refusal is 403 with the data message |
| `Server.AdminHostsReadData` | src/main/server.js:35-71 | whoever may open the admin screen may read the archive data |
| `Server.LedgerRequestGated` | src/main/server.js:58-71 | a plain request for `/uploads.tsv` passes exactly for a local host |
| `Server.PercentDecode` | src/main/server.js:72 | decoding leaves a path without `%` unchanged |
| `Server.EncodedDotDecodes` | src/main/server.js:72 | `%2E` decodes to `.` |
| `Server.EncodedLedgerPassesGate` | src/main/server.js:58-72 | the as-written gate passes `/uploads%2Etsv` from any host, and that path decodes to `/uploads.tsv` |
| `Server.NoDotNoLedger` | src/main/server.js:62 | a path without a dot never mentions the ledger |
| `Server.DecodedDataGate` | src/main/server.js:58-72 | the corrected gate passes unless the DECODED path mentions the ledger and the host is not local. It is the as-written gate applied to the decoded path |
| `Server.DecodedGateProtectsLedger` | src/main/server.js:58-72 | through the corrected gate, any path that decodes to the ledger passes exactly for a local host |
| `Server.DecodedGateAgreesOnPlainPaths` | src/main/server.js:58-72 | on paths without escapes the corrected gate and the as-written gate agree |
| `Server.DownloadFile` | src/main/server.js:112-138 | a name containing `..`, `/` or `\` gets 400. A safe name whose joined path is absent gets 404. Only a safe name whose path is present is sent, from `path.join(downloadDir, name)`, which for `.` is the download directory itself |
| `Server.SentFileIsChild` | src/main/server.js:116-120 | the name of a sent entry has no `/`, no `\` and is not `..`. Its path is the download directory's part, one separator and the name, so it is a direct child of the download directory |
| `Server.DotSendsDirectory` | src/main/server.js:116-120 | the name `.` passes the guard and joins to the download directory itself, which is sent when it exists |
| `Server.SafeName` | src/main/server.js:116 | a name passes the guard exactly when it has no `/`, no `\` and no two consecutive dots |
| `Server.TraversalRefused` | src/main/server.js:116-117 | any name containing `..` is refused with 400 before the filesystem is consulted |
| `Server.Visible` | src/main/server.js:90 | the listing keeps exactly the regular files whose names do not start with `.` |
| `Server.Infos` | src/main/server.js:91-99 | one `{name, size, mtime}` object per shown entry, in order, with the entry's name and the size and modification time of its own `stat` |
| `Server.Insert` | src/main/server.js:103 | insertion keeps the list sorted by collation key and adds exactly the one element |
| `Server.SortByName` | src/main/server.js:103 | the result is sorted by collation key and is a permutation of the input |
| `Server.ListDownloads` | src/main/server.js:85-110 | the listing fails with 500 exactly when `readdir` fails or a shown entry's `stat` fails. Otherwise it is the shown entries' objects, sorted, as a permutation |
| `Server.ListingNamesShownEntries` | src/main/server.js:85-103 | a name appears in the listing exactly when the directory has a regular, non-hidden file by that name |
| `Server.OnUploadCreate` | src/main/server.js:149-173 | an absent or zero length, or a failing check, is admitted. Otherwise it is refused exactly when the space check with a 5 GiB margin is insufficient, carrying that check |
| `Server.AdmissionStatus` | src/main/server.js:155-165 | a refusal answers 507, and admission answers nothing of its own |
| `Server.AdmissionMonotone` | src/main/server.js:152-155 | a smaller declared upload is admitted whenever a larger one is |
| `Server.AdmissionFailsOpen` | src/main/server.js:152-155 | when `df` cannot be read, every upload within the safe-integer range is admitted |
| `Server.OnUploadFinish` | src/main/server.js:174-186 | the response always goes on. The pipeline's error is only logged. A clean run has appended one ledger line for the upload's id, and an unmoved upload none. With no fault, the upload on disk, room for it and an accepted verdict, nothing is logged |
| `Server.StagingDir` | src/main/server.js:49 | a configured `uploadsDir` is where tus stores uploads |
| `Server.StoreUpload` | src/main/server.js:141-143 | the tus file store keeps an upload's bytes at `<dir>/<id>` |
| `Server.StagedUploadIsFound` | src/main/server.js:141-143 | when the staging directory is the archive's `incoming/`, the pipeline finds the stored upload with its bytes |
| `Server.FallbacksDisagree` | src/main/server.js:48-49 | with neither directory configured, tus stores under `uploads` while the pipeline looks in `archive/incoming`, so the two disagree |
| `MainProcess.NonEmpty` | src/main/index.js:15 | `.filter(Boolean)` keeps exactly the non-empty segments |
| `MainProcess.FirstOccurrences` | src/main/index.js:15-19 | a `Set`'s iteration order holds each element once and no others |
| `MainProcess.Missing` | src/main/index.js:16-18 | the common directories not already present, in order |
| `MainProcess.AddMissing` | src/main/index.js:14-18 | inserting items one at a time into an insertion-ordered set leaves the first occurrences of everything inserted so far, in order |
| `MainProcess.MergePath` | src/main/index.js:12-20 | the new `PATH` is the existing non-empty segments without repeats, followed by the common directories not yet present, joined by `:` |
| `MainProcess.FirstOccurrencesAppend` | src/main/index.js:15-19 | adding a list without repeats after the existing segments appends exactly its new elements |
| `MainProcess.MergedPathSegments` | src/main/index.js:12-20 | splitting the new `PATH` at `:` gives the existing distinct segments followed by the missing common directories |
| `MainProcess.MergedPathWellFormed` | src/main/index.js:12-20 | afterwards no segment is empty or repeated, and every common directory is present |
| `MainProcess.MergeKeepsCompletePath` | src/main/index.js:12-20 | a `PATH` that already holds each common directory, with no empty or repeated segment, is left unchanged |
| `MainProcess.SaveConfig` | src/main/index.js:131-141 | a failed write replies with the error and stores nothing. A save that names an archive directory also stores `uploadsDir` as its `incoming/`. Every other key takes the new value or keeps the old one |
| `MainProcess.SavedArchiveStagesIncoming` | src/main/index.js:131-141 | after such a save, tus stages uploads exactly where the pipeline looks for them |
| `MainProcess.FirstAdvertisable` | src/main/index.js:192-199 | the reference: no address exactly when no interface has a non-internal IPv4 entry |
| `MainProcess.GetLocalIpAddress` | src/main/index.js:188-202 | returns the first non-internal IPv4 address in interface order, or `localhost` when there is none |
| `MainProcess.AdvertisedIsFirst` | src/main/index.js:192-199 | the first advertisable entry, with none before it, is the address advertised |
| `MainProcess.Running` | src/main/index.js:119-123 | the status reports running exactly when a server instance is held |
| `MainProcess.StartServers` | src/main/index.js:83-102 | a successful start holds the new server and replies with port and address. A failed one changes nothing and replies with the error |
| `MainProcess.StopAllServers` | src/main/index.js:179-185 | stopping with no server is a no-op. A clean close forgets the server, and a failing close keeps it and replies with the error. The reply is success exactly when nothing is running afterwards |
| `MainProcess.StopIdempotent` | src/main/index.js:179-185 | a second stop after a successful one changes nothing |
| `MainProcess.StartThenStop` | src/main/index.js:83-116 | a successful start followed by a clean stop returns to the stopped state |
| `FfmpegCheck.CommandFor` | src/main/ffmpeg-check.js:13-14 | a non-empty configured path is used, else the bare tool name |
| `FfmpegCheck.FirstMatchFrom` | src/main/ffmpeg-check.js:28 | the leftmost position where the marker is followed by a non-space character |
| `FfmpegCheck.VersionAfter` | src/main/ffmpeg-check.js:28-31 | there is no version exactly when the regular expression cannot match. A found version is a non-empty, whitespace-free token that directly follows the marker |
| `FfmpegCheck.VersionOfBanner` | src/main/ffmpeg-check.js:28-31 | a banner `ffmpeg version X …` yields `X` |
| `FfmpegCheck.NoMarkerNoVersion` | src/main/ffmpeg-check.js:28-31 | text that never mentions the marker yields no version |
| `FfmpegCheck.CheckTool` | src/main/ffmpeg-check.js:23-35 | a tool is available exactly when its command printed something. An unavailable tool has no version, and an available one has the version its banner names |
| `FfmpegCheck.AvailableWithoutVersion` | src/main/ffmpeg-check.js:26-31 | output without the banner text means available with no version |
| `FfmpegCheck.CheckFfmpeg` | src/main/ffmpeg-check.js:11-63 | each status comes from its own command's run. Each missing-tool message appears exactly in its case, and the message is always one of the four |
| `FfmpegCheck.MessagesDistinct` | src/main/ffmpeg-check.js:52-60 | the four messages are pairwise different |
| `FfmpegCheck.MessageFor` | src/main/ffmpeg-check.js:52-60 | both tools answering gives the message naming both versions. Each of the three missing-tool messages is chosen exactly in its own case |
| `FfmpegCheck.VersionCommand` | src/main/ffmpeg-check.js:25 | the command line starts with the command and ends with ` -version` |
| `FfmpegCheck.VersionCommandInjective` | src/main/ffmpeg-check.js:25 | different commands give different command lines |
| `FfmpegCheck.BothMessageEmbedsVersions` | src/main/ffmpeg-check.js:52-53 | when both tools answer, the message names both versions (`null` when unknown) |
| `FfmpegCheck.FfprobeIndependentOfFfmpeg` | src/main/ffmpeg-check.js:23-49 | ffprobe's status does not depend on what happened to ffmpeg |
| `FfmpegCheck.DefaultCommands` | src/main/ffmpeg-check.js:13-25 | without settings the commands run are `ffmpeg -version` and `ffprobe -version` |

## Left out

- Electron windows, IPC plumbing and concurrency are not modelled. Every handler is a function of its inputs, and two uploads finishing at once are not modelled.
- The `reset-config`, `get-config`, `get-disk-space`, `open-external` and `select-directory` IPC handlers are left out: they only forward to the store, the shell or a dialog.
- `checkHomebrew` (ffmpeg-check.js:69-76) is left out: it only reports whether a shell command succeeded.
- `sanitizeFilename` (post-finish.js:253-258) is left out because nothing calls it.
- `decodeBase64` (post-finish.js:211-217) returns its input unchanged, or `''` for a falsy one. `PostFinish.ReadFields` therefore reads the fields as given.
- `calculateSha256` streams the file. The digest is the parameter `Env.sha256` applied to the file's bytes, and a read error is an injected fault.
- `formatBytes`, `formatBitrate`, `toLocaleString`, the receipt's markup and styling, the console logs and the 507 reply's text are left out. These are presentation, and `formatBitrate` is a parameter of `Receipt.GenerateReceipt`.
- The JSON layout of the progress, metadata and hash files is left out. The model records which record was written, and with what content, rather than the serialised bytes.
- `fs.mkdir`, `ensureDirectoryExists` and the receipt/meta/hash directories are not modelled. Each write can fail through an injected fault instead.
- The disk usage warning in `executePostFinish` (post-finish.js:55-60) is only logged, so it has no observable effect. It is modelled on its own as `DiskCheck.CheckDiskUsageWarning`.
- FormatCheck.EvalRate: `eval` is modelled only for decimal `num` and `num/den`. Other text is a raised error, not JavaScript evaluation.
- FormatCheck.FrameRateRule: rates are exact rationals, not IEEE doubles, so the rounding of `Math.abs(fps - reqFps) < 0.1` at the boundary is not modelled.
- Text.JsParseInt: `parseInt` skips leading whitespace and reads one optional sign and a run of decimal digits. Its radix detection (a `0x` prefix read as hexadecimal) is left out, because ffprobe and `df` print decimal.
- Text.JsNumber: `Number` trims whitespace and reads blank text as `0` and a digit string as its value. Signs, hexadecimal, exponents, decimal fractions such as `1920.0` and `Infinity` are read as `NaN`, which differs from JavaScript. The resolution setting is written as digits, so this does not matter for the shipped settings.
- Paths.PathJoin: only trailing separators of the directory and the names `""` and `.` are normalised. Inner `.` or `..` segments and doubled separators are not, because the program only joins single component names onto configured directories.
- Naming.Truncate: the model counts code units per character, so it never cuts a character in two. JavaScript's `substring` can split a surrogate pair at position 200 and leave a lone high surrogate; the model keeps the shorter prefix instead.
- Server.SentFileIsChild: it is stated for entry names. The name `.` also passes the guard and denotes the download directory itself, as `Server.DotSendsDirectory` states.
- PostFinish.UploadId: tus ids are assumed never to be `""` or `.`, which would make the upload path the `incoming` directory itself. tus generates hexadecimal ids.
- Server.ListDownloads: `localeCompare` is abstracted as a caller-supplied collation key, so ties are not broken as ICU would.
- Server.ListDownloads: the parallel `stat` calls are folded into one outcome: the listing fails if any of them fails.
- Server.PercentDecode: only ASCII `%XX` escapes are decoded. Multi-byte UTF-8 sequences and malformed escapes are kept as they are.
- Case-insensitive filesystems (macOS's default) are not modelled. There `/Uploads.tsv` also names the ledger.
- Server.DownloadFile: `decodeURIComponent` of the route parameter is assumed done. The name is the decoded text, so a malformed escape, which throws in Express, is not modelled.
- Server.DownloadFile: `sendFile`'s late failure (the 500 'ダウンロードに失敗しました') is not modelled. The model ends at the decision to send.
- Server.OnUploadCreate: the catch at server.js:167-169 is reached only when `checkSufficientSpace` throws, which the modelled `df` parsing never does. The `checkError` input stands for it.
- Server.HostOf: how Express derives `req.hostname` (trust proxy, `X-Forwarded-Host`) is an input, not modelled.
- Server.StagedUploadIsFound: it needs the staging directory to be the archive's `incoming/`. The shipped defaults (config.js:11-12) and `save-config` (`MainProcess.SavedArchiveStagesIncoming`) keep it so.
- The two server fallbacks, `archives` and `uploads` (server.js:48-49), differ from the pipeline's `archive` and `archive/incoming` (post-finish.js:19-20). This matters only when the store has no defaults, and `Server.FallbacksDisagree` states the disagreement.
- MainProcess.StartServers: the start reply's address is an input. It is `getLocalIpAddress`'s value, modelled separately by `MainProcess.GetLocalIpAddress`.
- Probe.GetVideoMetadata: ffprobe's JSON is given already parsed, and only the stream and format fields the code reads are kept.
- `checkDiskSpace` fields past the fourth, such as the mount point, are not read.

## Findings

| source | as written | input that shows it | evidently intended | confidence | as-written member | corrected member |
|---|---|---|---|---|---|---|
| src/main/server.js:58-72 | the ledger guard tests the raw request path for `uploads.tsv`, but the static server opens the percent-decoded path | `GET /uploader/data/uploads%2Etsv` from a non-local host passes the guard and is served `uploads.tsv` | the ledger (student ids and names) is served to local hosts only | medium, not executed | `Server.EncodedLedgerPassesGate` (with `Server.DataGate`) | `Server.DecodedDataGate`, with `Server.DecodedGateProtectsLedger` |
