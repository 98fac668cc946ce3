/** `executePostFinish`: what happens to an upload once its last byte has
    arrived. The file is admitted against the archive's free space, named
    by the DCP convention, moved out of the incoming directory, probed,
    hashed and given a receipt, and the run is appended to the ledger
    `uploads.tsv`; the progress file records each step as it ends. */
module PostFinish {
  import opened Wrappers
  import opened Text
  import opened Paths
  import opened Files
  import Naming
  import opened Probe
  import opened FormatCheck
  import Receipt
  import opened DiskCheck

  // ---------------------------------------------------------------------
  // Inputs

  /** The four keys of the tus `Upload-Metadata` the pipeline reads; an
      absent key is `None`. Values arrive as sent (`decodeBase64` returns
      its argument). */
  datatype UploadMetadata = UploadMetadata(
    filename: Option<string>,
    displayname: Option<string>,
    studentId: Option<string>,
    name: Option<string>)

  /** tus names an upload by random hexadecimal digits, so an id is never
      empty and never `.`: it always denotes an entry of the incoming
      directory, which is all the model relies on. */
  type UploadId = id: string | !NamesDir(id) witness "0"

  datatype Upload = Upload(id: UploadId, metadata: Option<UploadMetadata>)

  /** The settings the pipeline reads; `archiveDir` is `""` when unset and
      `formatCheck` is `None` when the settings hold no requirements. */
  datatype Config = Config(archiveDir: string, allowNonVideoFiles: bool, formatCheck: Option<Requirements>)

  /** The `currentStep` values of the progress file: `move`, `ffprobe`,
      `hash`, `receipt`, `completed` and `error`. */
  datatype Step = Move | Ffprobe | Hashing | Receipting | Completed | Failed

  /** Every I/O call of the pipeline that can fail, as the key of an
      injected error. A progress update is two calls: the `mkdir` of the
      progress directory and the write of the file. */
  datatype IoStep =
    | StatUpload
    | UnlinkTusJson
    | UnlinkTusInfo
    | ProgressDir(step: Step, done: bool)
    | ProgressFile(step: Step, done: bool)
    | WriteMeta
    | ReadArchived
    | WriteHash
    | WriteReceipt
    | AppendLedger

  /** The world outside the pipeline: the `df` report, ffprobe's run, the
      errors the filesystem raises, the digest function, and the clock,
      read in program order (`isoClock(k)` and `localClock(k)` are the k-th
      reading as ISO 8601 and as Japanese local time). */
  datatype Env = Env(
    homeDir: string,
    df: DfRun,
    probe: ProbeRun,
    move: MoveFaults,
    faults: map<IoStep, IoError>,
    sha256: Bytes -> string,
    isoClock: nat -> string,
    localClock: nat -> string,
    formatBitrate: string -> string)

  function Fault(env: Env, s: IoStep): Option<IoError> {
    if s in env.faults then Some(env.faults[s]) else None
  }

  // ---------------------------------------------------------------------
  // Locations

  /** `config.archiveDir || ~/TOD-M-Files/archive`. */
  function ArchiveDir(config: Config, homeDir: string): (d: string)
    ensures config.archiveDir != "" ==> d == config.archiveDir
  {
    if config.archiveDir != "" then config.archiveDir else PathJoin(PathJoin(homeDir, "TOD-M-Files"), "archive")
  }

  function UploadsDir(archiveDir: string): Path {
    PathJoin(archiveDir, "incoming")
  }

  /** Where tus left the upload's bytes. */
  function UploadedFile(archiveDir: string, id: string): Path {
    PathJoin(UploadsDir(archiveDir), id)
  }

  function MetaPath(archiveDir: string, id: string): Path {
    PathJoin(PathJoin(archiveDir, "meta"), id + ".json")
  }

  function HashPath(archiveDir: string, id: string): Path {
    PathJoin(PathJoin(archiveDir, "hash"), id + ".sha256")
  }

  function ReceiptPath(archiveDir: string, id: string): Path {
    PathJoin(PathJoin(archiveDir, "receipt"), id + ".html")
  }

  /** Every file the incoming directory holds for an upload is `incoming/<x>`
      below the archive, so a name without `/` never denotes one of them. */
  lemma ArchivedOutsideIncoming(archiveDir: string, name: string, x: string)
    requires '/' !in name && !NamesDir(x)
    ensures PathJoin(archiveDir, name) != PathJoin(UploadsDir(archiveDir), x)
  {
    var sub := "incoming";
    assert sub[|sub| - 1] != '/' && !NamesDir(sub);
    NotInSubdirectory(archiveDir, sub, name, x);
  }

  // ---------------------------------------------------------------------
  // Naming

  /** The metadata fields after `upload.metadata || {}` and `field || ''`. */
  datatype Fields = Fields(filename: string, displayname: string, studentId: string, name: string)

  function ReadFields(m: Option<UploadMetadata>): (f: Fields)
    ensures m.None? ==> f == Fields("", "", "", "")
    ensures m.Some? && m.value.name.Some? ==> f.name == m.value.name.value
    ensures m.Some? && m.value.studentId.Some? ==> f.studentId == m.value.studentId.value
  {
    var md := m.GetOr(UploadMetadata(None, None, None, None));
    Fields(md.filename.GetOr(""), md.displayname.GetOr(""), md.studentId.GetOr(""), md.name.GetOr(""))
  }

  /** The name asked for: the DCP name of title, student id and name, then
      the original file's extension. It never holds a path separator. */
  function RequestedName(f: Fields): (safe: string)
    ensures '/' !in safe
    ensures StartsWith(safe, Naming.BuildDcpFilename(f.studentId, f.name, f.displayname))
    ensures EndsWith(safe, ExtName(f.filename))
  {
    var dcp := Naming.BuildDcpFilename(f.studentId, f.name, f.displayname);
    var ext := ExtName(f.filename);
    assert '/' !in dcp by {
      forall i | 0 <= i < |dcp|
        ensures dcp[i] != '/'
      {
        assert !Naming.IsIllegal(dcp[i]);
      }
    }
    assert (dcp + ext)[..|dcp|] == dcp;
    assert (dcp + ext)[|dcp + ext| - |ext|..] == ext;
    dcp + ext
  }

  /** The two sidecar files tus keeps next to an upload. */
  function SidecarJson(archiveDir: string, id: string): Path {
    PathJoin(UploadsDir(archiveDir), id + ".json")
  }

  function SidecarInfo(archiveDir: string, id: string): Path {
    PathJoin(UploadsDir(archiveDir), id + ".info")
  }

  /** The best-effort deletion of both sidecars: every error, a missing
      file included, is swallowed, so only the map comes back. */
  function RemoveSidecars(fs: Fs, archiveDir: string, id: string, env: Env): (r: Fs)
    ensures r.Keys <= fs.Keys
    ensures forall p :: p in fs && p != SidecarJson(archiveDir, id) && p != SidecarInfo(archiveDir, id)
                        ==> p in r && r[p] == fs[p]
    ensures Fault(env, UnlinkTusJson).None? ==> SidecarJson(archiveDir, id) !in r
    ensures Fault(env, UnlinkTusInfo).None? ==> SidecarInfo(archiveDir, id) !in r
  {
    var json, info := SidecarJson(archiveDir, id), SidecarInfo(archiveDir, id);
    var afterJson := Unlink(fs, json, Fault(env, UnlinkTusJson)).fs;
    assert afterJson == fs || afterJson == fs - {json};
    var afterInfo := Unlink(afterJson, info, Fault(env, UnlinkTusInfo)).fs;
    assert afterInfo == afterJson || afterInfo == afterJson - {info};
    afterInfo
  }

  /** The filesystem once the upload has been moved to `archivedFile` and
      its sidecars removed. */
  function Relocated(fs: Fs, archiveDir: string, id: string, archivedFile: Path, env: Env): Fs
    requires UploadedFile(archiveDir, id) in fs
  {
    RemoveSidecars(Moved(fs, UploadedFile(archiveDir, id), archivedFile), archiveDir, id, env)
  }

  /** After relocation the archived file holds the uploaded bytes and the
      incoming copy is gone, whatever became of the sidecars. */
  lemma RelocatedHoldsUpload(fs: Fs, archiveDir: string, id: UploadId, name: string, env: Env)
    requires UploadedFile(archiveDir, id) in fs && '/' !in name
    ensures var r := Relocated(fs, archiveDir, id, PathJoin(archiveDir, name), env);
            && PathJoin(archiveDir, name) in r
            && r[PathJoin(archiveDir, name)] == fs[UploadedFile(archiveDir, id)]
            && UploadedFile(archiveDir, id) !in r
  {
    var dst := PathJoin(archiveDir, name);
    ArchivedOutsideIncoming(archiveDir, name, id);
    ArchivedOutsideIncoming(archiveDir, name, id + ".json");
    ArchivedOutsideIncoming(archiveDir, name, id + ".info");
    MovedFacts(fs, UploadedFile(archiveDir, id), dst);
  }

  // ---------------------------------------------------------------------
  // Admission

  /** Why a run stopped: a filesystem error, too little free space, or an
      error `checkFormat` raised (its message). */
  datatype Thrown = Io(error: IoError) | InsufficientSpace(check: SpaceCheck) | CheckFailed(message: string)

  /** `fs.stat` of the upload, then `checkSufficientSpace(archiveDir, size, 2)`:
      the upload's size when the archive has room for it plus 2 GiB. */
  function Admit(fs: Fs, archiveDir: string, id: string, env: Env): (r: Result<nat, Thrown>)
    ensures r.Success? <==> Fault(env, StatUpload).None? && UploadedFile(archiveDir, id) in fs
                            && CheckSufficientSpace(env.df, archiveDir, |fs[UploadedFile(archiveDir, id)]|, 2).sufficient
    ensures r.Success? ==> r.value == |fs[UploadedFile(archiveDir, id)]|
    ensures Fault(env, StatUpload).None? && UploadedFile(archiveDir, id) in fs
            && !CheckSufficientSpace(env.df, archiveDir, |fs[UploadedFile(archiveDir, id)]|, 2).sufficient
            ==> r == Failure(InsufficientSpace(CheckSufficientSpace(env.df, archiveDir, |fs[UploadedFile(archiveDir, id)]|, 2)))
  {
    var uploaded := UploadedFile(archiveDir, id);
    if Fault(env, StatUpload).Some? then Failure(Io(Fault(env, StatUpload).value))
    else if uploaded !in fs then Failure(Io(NoSuchFile(uploaded)))
    else
      var check := CheckSufficientSpace(env.df, archiveDir, |fs[uploaded]|, 2);
      if !check.sufficient then Failure(InsufficientSpace(check)) else Success(|fs[uploaded]|)
  }

  // ---------------------------------------------------------------------
  // Progress

  /** One write of the progress file. `startedAt` is the time of the write;
      `completedAt` is the time the caller passed, or `null`. */
  datatype ProgressRecord = ProgressRecord(uploadId: string, currentStep: Step, startedAt: string, completedAt: Option<string>)

  /** What the pipeline stores besides the archived file. */
  datatype Content = MetaJson(metadata: Metadata) | Sha256Text(digest: string) | ReceiptHtml(receipt: Receipt.Receipt)

  datatype Stored = Stored(path: Path, content: Content)

  /** A line of `uploads.tsv`, field by field. */
  datatype LedgerEntry = LedgerEntry(
    id: string,
    safeFilename: string,
    studentId: string,
    name: string,
    size: string,
    path: string,
    finishedAt: string)

  /** The state a run threads through its steps: the filesystem, every
      progress write in order, the clock readings made so far, the files
      stored and the ledger lines appended. */
  datatype Run = Run(fs: Fs, progress: seq<ProgressRecord>, clock: nat, stored: seq<Stored>, ledger: seq<LedgerEntry>)

  datatype Attempt = Attempt(run: Run, error: Option<IoError>)

  /** `updateProgress(step, completedAt)`, where `done` says whether the
      caller passed a time. The caller's time is read before the write's own. */
  function UpdateProgress(run: Run, env: Env, id: string, step: Step, done: bool): (a: Attempt)
    ensures a.run.fs == run.fs && a.run.stored == run.stored && a.run.ledger == run.ledger
    ensures a.run.clock >= run.clock
    ensures a.error.None? <==> Fault(env, ProgressDir(step, done)).None? && Fault(env, ProgressFile(step, done)).None?
    ensures a.error.Some? ==> a.run.progress == run.progress
    ensures a.error.None? ==>
              && |a.run.progress| == |run.progress| + 1
              && a.run.progress[..|run.progress|] == run.progress
              && var p := a.run.progress[|run.progress|];
              && p.uploadId == id && p.currentStep == step
              && (p.completedAt.Some? <==> done)
              && a.run.clock >= 1 && p.startedAt == env.isoClock(a.run.clock - 1)
              && (done ==> p.completedAt == Some(env.isoClock(run.clock)) && run.clock < a.run.clock - 1)
              && a.run.clock == run.clock + (if done then 2 else 1)
  {
    var completedAt := if done then Some(env.isoClock(run.clock)) else None;
    var clock := if done then run.clock + 1 else run.clock;
    if Fault(env, ProgressDir(step, done)).Some? then
      Attempt(run.(clock := clock), Fault(env, ProgressDir(step, done)))
    else if Fault(env, ProgressFile(step, done)).Some? then
      Attempt(run.(clock := clock + 1), Fault(env, ProgressFile(step, done)))
    else
      var p := ProgressRecord(id, step, env.isoClock(clock), completedAt);
      Attempt(run.(progress := run.progress + [p], clock := clock + 1), None)
  }

  /** The progress writes of a run that fails nowhere, as (step, time given). */
  const Schedule: seq<(Step, bool)> := [
    (Move, true),
    (Ffprobe, false), (Ffprobe, true),
    (Hashing, false), (Hashing, true),
    (Receipting, false), (Receipting, true),
    (Completed, true)]

  /** The clock readings made by the first k writes of the schedule: two
      for a write given a completion time, one for any other. */
  const Ticks: seq<nat> := [0, 2, 3, 5, 6, 8, 9, 11, 13]

  lemma TicksStep(k: nat)
    requires k < |Schedule|
    ensures k + 1 < |Ticks| && Ticks[k + 1] == Ticks[k] + (if Schedule[k].1 then 2 else 1)
  {
    assert |Ticks| == 9;
    if k < 4 {
      assert k == 0 || k == 1 || k == 2 || k == 3;
    } else {
      assert k == 4 || k == 5 || k == 6 || k == 7;
    }
  }

  /** Whether no I/O call of the pipeline and no step of the move fails. */
  predicate FaultFree(env: Env) {
    env.faults == map[] && env.move.rename.None?
  }

  predicate Matches(p: ProgressRecord, s: (Step, bool)) {
    p.currentStep == s.0 && p.completedAt.Some? == s.1
  }

  /** The writes follow the schedule, one for one. */
  predicate Follows(ps: seq<ProgressRecord>, sched: seq<(Step, bool)>) {
    |ps| == |sched| && forall i :: 0 <= i < |ps| ==> Matches(ps[i], sched[i])
  }

  /** The scheduled write after a prefix of the schedule extends it. */
  lemma FollowsStep(ps: seq<ProgressRecord>, p: ProgressRecord, k: nat)
    requires k < |Schedule| && Follows(ps, Schedule[..k]) && Matches(p, Schedule[k])
    ensures Follows(ps + [p], Schedule[..k + 1])
  {
    assert Schedule[..k + 1] == Schedule[..k] + [Schedule[k]];
  }

  /** A scheduled progress write, checked against the schedule. */
  function Advance(run: Run, env: Env, id: string): (a: Attempt)
    requires |run.progress| < |Schedule| && Follows(run.progress, Schedule[..|run.progress|])
    ensures a.run.fs == run.fs && a.run.stored == run.stored && a.run.ledger == run.ledger
    ensures a.error.Some? ==> a.run.progress == run.progress
    ensures a.error.None? ==> |a.run.progress| == |run.progress| + 1
    ensures a.error.None? ==> a.run.clock == run.clock + Ticks[|run.progress| + 1] - Ticks[|run.progress|]
    ensures FaultFree(env) ==> a.error.None?
    ensures |a.run.progress| <= |Schedule| && Follows(a.run.progress, Schedule[..|a.run.progress|])
  {
    var s := Schedule[|run.progress|];
    TicksStep(|run.progress|);
    var a := UpdateProgress(run, env, id, s.0, s.1);
    if a.error.None? then
      assert a.run.progress == run.progress + [a.run.progress[|run.progress|]];
      FollowsStep(run.progress, a.run.progress[|run.progress|], |run.progress|);
      a
    else a
  }

  /** Whether the catch block's `error` write can succeed. */
  predicate FailureRecordable(env: Env) {
    Fault(env, ProgressDir(Failed, true)).None? && Fault(env, ProgressFile(Failed, true)).None?
  }

  /** The progress writes of a whole run: the full schedule when it
      succeeded; otherwise a prefix of the schedule (all of it when only the
      ledger append failed), then the `error` record when that write
      succeeds. */
  predicate Traced(ps: seq<ProgressRecord>, failed: bool, recordable: bool) {
    if !failed then Follows(ps, Schedule)
    else if recordable then
      && 0 < |ps| <= |Schedule| + 1
      && ps[|ps| - 1].currentStep == Failed && ps[|ps| - 1].completedAt.Some?
      && Follows(ps[..|ps| - 1], Schedule[..|ps| - 1])
    else |ps| <= |Schedule| && Follows(ps, Schedule[..|ps|])
  }

  /** The catch block: a best-effort `error` write whose own failure is
      swallowed, so the error the run raised is the one rethrown. */
  function RecordFailure(run: Run, env: Env, id: string): (r: Run)
    requires |run.progress| <= |Schedule| && Follows(run.progress, Schedule[..|run.progress|])
    ensures r.fs == run.fs && r.stored == run.stored && r.ledger == run.ledger
    ensures Traced(r.progress, true, FailureRecordable(env))
  {
    var a := UpdateProgress(run, env, id, Failed, true);
    if a.error.None? then
      assert a.run.progress[..|run.progress|] == run.progress;
      a.run
    else a.run
  }

  // ---------------------------------------------------------------------
  // The format verdict, the size, the ledger line

  /** The verdict the receipt shows: none is computed without metadata;
      with metadata, the basic check when non-video files are allowed and
      the full check (against `config.formatCheck || {}`) otherwise. */
  function FormatVerdict(probed: MetadataResult, config: Config): (r: Result<FormatResult, string>)
    ensures !HasMetadata(probed.metadata) ==> r == Success(Unchecked)
    ensures HasMetadata(probed.metadata) && config.allowNonVideoFiles ==> r == Success(CheckFormatBasic(probed.metadata))
    ensures HasMetadata(probed.metadata) && !config.allowNonVideoFiles ==>
              r == CheckFormat(probed.metadata, config.formatCheck.GetOr(NoRequirements))
  {
    if !HasMetadata(probed.metadata) then Success(Unchecked)
    else if config.allowNonVideoFiles then Success(CheckFormatBasic(probed.metadata))
    else CheckFormat(probed.metadata, config.formatCheck.GetOr(NoRequirements))
  }

  /** A failed probe never reaches a format check: the receipt records the
      unchecked verdict. */
  lemma FailedProbeIsUnchecked(e: ProbeError, config: Config)
    ensures FormatVerdict(GetVideoMetadata(Raised(e)), config) == Success(Unchecked)
  {
  }

  /** Only the full check can fail, and only on a file with a video stream. */
  lemma VerdictFailsOnlyInFullCheck(probed: MetadataResult, config: Config)
    requires FormatVerdict(probed, config).Failure?
    ensures HasMetadata(probed.metadata) && !config.allowNonVideoFiles
    ensures probed.metadata.streams.Some? && HasType(probed.metadata.streams.value, "video")
  {
  }

  /** `videoMetadata.format?.size || fileSize`: ffprobe's size text when it
      gave a non-empty one, otherwise the size from `stat`. */
  function ActualSize(m: Metadata, fileSize: nat): (s: string)
    ensures m.format.Some? && Truthy(m.format.value.size) ==> s == m.format.value.size.value
    ensures !(m.format.Some? && Truthy(m.format.value.size)) ==> AllDigits(s) && ParseDigits(s) == fileSize
  {
    if m.format.Some? && Truthy(m.format.value.size) then m.format.value.size.value
    else
      ParseNatToString(fileSize);
      NatToString(fileSize)
  }

  function LedgerFields(e: LedgerEntry): seq<string> {
    [e.id, e.safeFilename, e.studentId, e.name, e.size, e.path, e.finishedAt]
  }

  /** `appendToUploadsTsv`'s line: the seven fields, tab-separated, then a newline. */
  function LedgerLine(e: LedgerEntry): (line: string)
    // one line, starting with the upload id and ending with the finishing time
    ensures StartsWith(line, e.id + "\t")
    ensures EndsWith(line, "\t" + e.finishedAt + "\n")
  {
    var fields := LedgerFields(e);
    JoinUnfold(fields, '\t', 6);
    assert fields[6..] == [e.finishedAt];
    assert fields[1..][0] == e.safeFilename;
    Join(fields, '\t') + "\n"
  }

  /** A line whose fields hold no tab and no newline is one line of the TSV
      file and splits back into exactly its seven fields. */
  lemma LedgerLineRoundTrip(e: LedgerEntry)
    requires forall i :: 0 <= i < 7 ==> '\t' !in LedgerFields(e)[i] && '\n' !in LedgerFields(e)[i]
    ensures var line := LedgerLine(e);
            && Split(line, '\n') == [line[..|line| - 1], ""]
            && Split(line[..|line| - 1], '\t') == LedgerFields(e)
  {
    var body := Join(LedgerFields(e), '\t');
    SplitJoin(LedgerFields(e), '\t');
    JoinAvoids(LedgerFields(e), '\t', '\n');
    SplitOfPair(body, "", '\n');
    assert LedgerLine(e)[..|LedgerLine(e)| - 1] == body;
    assert body + ['\n'] + "" == LedgerLine(e);
  }

  /** Student id and name are written unsanitised: a tab inside the name
      shifts every later column, and the line splits into eight fields. */
  lemma LedgerTabInName(e: LedgerEntry, first: string, last: string)
    requires e.name == first + "\t" + last
    requires '\t' !in first && '\t' !in last
    requires forall i :: 0 <= i < 7 && i != 3 ==> '\t' !in LedgerFields(e)[i]
    ensures |Split(Join(LedgerFields(e), '\t'), '\t')| == 8
  {
    var pre, post := [e.id, e.safeFilename, e.studentId], [e.size, e.path, e.finishedAt];
    assert LedgerFields(e) == pre + [first + ['\t'] + last] + post;
    JoinSplitsPart(pre, first, last, post, '\t');
    var g := pre + [first, last] + post;
    assert LedgerFields(e)[0] == e.id && LedgerFields(e)[1] == e.safeFilename && LedgerFields(e)[2] == e.studentId;
    assert LedgerFields(e)[4] == e.size && LedgerFields(e)[5] == e.path && LedgerFields(e)[6] == e.finishedAt;
    assert g == [e.id, e.safeFilename, e.studentId, first, last, e.size, e.path, e.finishedAt];
    SplitJoin(g, '\t');
  }

  // ---------------------------------------------------------------------
  // The steps after the move

  /** What the steps after the move know about the run. */
  datatype Ctx = Ctx(
    id: string,
    archiveDir: string,
    archivedName: string,
    archivedFile: Path,
    fileSize: nat,
    fields: Fields)

  /** The context of a run whose upload `upload`, of `fileSize` bytes, was
      archived under `name` in `dir`. */
  function CtxFor(dir: string, upload: Upload, name: string, fileSize: nat): (c: Ctx)
    ensures c.archivedFile == PathJoin(dir, name) && c.fields == ReadFields(upload.metadata)
  {
    Ctx(upload.id, dir, name, PathJoin(dir, name), fileSize, ReadFields(upload.metadata))
  }

  /** `move` and `ffprobe` progress, ffprobe's run, `hash` begun, and the
      metadata stored as `meta/<id>.json`. */
  method ProbeStep(run: Run, env: Env, ctx: Ctx) returns (r: Run, probed: MetadataResult, thrown: Option<Thrown>)
    requires run.progress == []
    ensures r.fs == run.fs && r.ledger == run.ledger
    ensures probed == GetVideoMetadata(env.probe)
    ensures |r.progress| <= 4 && Follows(r.progress, Schedule[..|r.progress|])
    ensures thrown.None? ==> |r.progress| == 4 && r.stored == run.stored + [Stored(MetaPath(ctx.archiveDir, ctx.id), MetaJson(probed.metadata))]
    ensures thrown.Some? ==> r.stored == run.stored
    ensures thrown.None? ==> r.clock == run.clock + Ticks[4]
    ensures FaultFree(env) ==> thrown.None?
    ensures thrown.Some? ==> thrown.value.Io?
  {
    probed := GetVideoMetadata(env.probe);
    r := run;
    var a: Attempt;
    for k := 0 to 4
      invariant r.fs == run.fs && r.ledger == run.ledger && r.stored == run.stored
      invariant |r.progress| == k && Follows(r.progress, Schedule[..k])
      invariant r.clock == run.clock + Ticks[k]
    {
      a := Advance(r, env, ctx.id);
      if a.error.Some? {
        return a.run, probed, Some(Io(a.error.value));
      }
      r := a.run;
    }
    if Fault(env, WriteMeta).Some? {
      return r, probed, Some(Io(Fault(env, WriteMeta).value));
    }
    r := r.(stored := r.stored + [Stored(MetaPath(ctx.archiveDir, ctx.id), MetaJson(probed.metadata))]);
    thrown := None;
  }

  /** The digest of the archived file, `hash` progress done, `receipt`
      begun, and the digest stored as `hash/<id>.sha256`. */
  method HashStep(run: Run, env: Env, ctx: Ctx) returns (r: Run, digest: string, thrown: Option<Thrown>)
    requires Follows(run.progress, Schedule[..4])
    ensures r.fs == run.fs && r.ledger == run.ledger
    ensures 4 <= |r.progress| <= 6 && Follows(r.progress, Schedule[..|r.progress|])
    ensures thrown.None? ==> |r.progress| == 6
    ensures thrown.None? ==> ctx.archivedFile in run.fs && digest == env.sha256(run.fs[ctx.archivedFile])
    ensures thrown.None? ==> r.stored == run.stored + [Stored(HashPath(ctx.archiveDir, ctx.id), Sha256Text(digest))]
    ensures thrown.Some? ==> r.stored == run.stored
    ensures thrown.None? ==> r.clock == run.clock + Ticks[6] - Ticks[4]
    ensures FaultFree(env) && ctx.archivedFile in run.fs ==> thrown.None?
    ensures thrown.Some? ==> thrown.value.Io?
  {
    r, digest := run, "";
    if Fault(env, ReadArchived).Some? {
      return r, digest, Some(Io(Fault(env, ReadArchived).value));
    }
    if ctx.archivedFile !in run.fs {
      return r, digest, Some(Io(NoSuchFile(ctx.archivedFile)));
    }
    digest := env.sha256(run.fs[ctx.archivedFile]);
    for k := 4 to 6
      invariant r.fs == run.fs && r.ledger == run.ledger && r.stored == run.stored
      invariant |r.progress| == k && Follows(r.progress, Schedule[..k])
      invariant r.clock == run.clock + Ticks[k] - Ticks[4]
    {
      var a := Advance(r, env, ctx.id);
      if a.error.Some? {
        return a.run, digest, Some(Io(a.error.value));
      }
      r := a.run;
    }
    if Fault(env, WriteHash).Some? {
      return r, digest, Some(Io(Fault(env, WriteHash).value));
    }
    r := r.(stored := r.stored + [Stored(HashPath(ctx.archiveDir, ctx.id), Sha256Text(digest))]);
    thrown := None;
  }

  /** What `generateReceiptHtml` is given. */
  function ReceiptFor(ctx: Ctx, config: Config, probed: MetadataResult, digest: string, verdict: FormatResult, timestamp: string): Receipt.ReceiptData {
    Receipt.ReceiptData(
      ctx.id, ctx.archivedName, ctx.fields.displayname, ActualSize(probed.metadata, ctx.fileSize), digest,
      probed.metadata, verdict, timestamp, HasMetadata(probed.metadata), probed.reason, config.allowNonVideoFiles)
  }

  /** The three records a run that fails nowhere stores: ffprobe's metadata,
      the SHA-256 digest of the archived bytes, and the receipt, whose time
      is the clock reading after the first six progress writes. */
  function Records(ctx: Ctx, config: Config, env: Env, archived: Bytes, verdict: FormatResult): seq<Stored> {
    var probed := GetVideoMetadata(env.probe);
    var digest := env.sha256(archived);
    var receipt := Receipt.GenerateReceipt(ReceiptFor(ctx, config, probed, digest, verdict, env.isoClock(Ticks[6])), env.formatBitrate);
    [Stored(MetaPath(ctx.archiveDir, ctx.id), MetaJson(probed.metadata)),
     Stored(HashPath(ctx.archiveDir, ctx.id), Sha256Text(digest)),
     Stored(ReceiptPath(ctx.archiveDir, ctx.id), ReceiptHtml(receipt))]
  }

  /** The ledger line of a run that fails nowhere: the archived file, its
      size as the receipt shows it, and the local time read after the whole
      schedule (and the receipt's own reading). */
  function Entry(ctx: Ctx, env: Env): LedgerEntry {
    LedgerEntry(ctx.id, ctx.archivedName, ctx.fields.studentId, ctx.fields.name,
                ActualSize(GetVideoMetadata(env.probe).metadata, ctx.fileSize), ctx.archivedFile, env.localClock(Ticks[8] + 1))
  }

  /** The receipt stored as `receipt/<id>.html`, the `receipt` and
      `completed` progress, and the ledger line for the archived file. */
  method CompleteStep(run: Run, env: Env, ctx: Ctx, receipt: Receipt.Receipt, size: string) returns (r: Run, thrown: Option<Thrown>)
    requires Follows(run.progress, Schedule[..6])
    ensures r.fs == run.fs
    ensures 6 <= |r.progress| <= 8 && Follows(r.progress, Schedule[..|r.progress|])
    ensures thrown.None? ==> |r.progress| == 8
    ensures thrown.None? ==> r.stored == run.stored + [Stored(ReceiptPath(ctx.archiveDir, ctx.id), ReceiptHtml(receipt))]
    ensures thrown.None? ==>
              r.clock >= 1 &&
              r.ledger == run.ledger + [LedgerEntry(ctx.id, ctx.archivedName, ctx.fields.studentId, ctx.fields.name,
                                                   size, ctx.archivedFile, env.localClock(r.clock - 1))]
    ensures thrown.Some? ==> r.ledger == run.ledger
    ensures thrown.None? ==> r.clock - 1 == run.clock + Ticks[8] - Ticks[6]
    ensures FaultFree(env) ==> thrown.None?
    ensures thrown.Some? ==> thrown.value.Io?
  {
    r := run;
    if Fault(env, WriteReceipt).Some? {
      return r, Some(Io(Fault(env, WriteReceipt).value));
    }
    r := r.(stored := r.stored + [Stored(ReceiptPath(ctx.archiveDir, ctx.id), ReceiptHtml(receipt))]);
    var stored := r.stored;
    for k := 6 to 8
      invariant r.fs == run.fs && r.ledger == run.ledger && r.stored == stored
      invariant |r.progress| == k && Follows(r.progress, Schedule[..k])
      invariant r.clock == run.clock + Ticks[k] - Ticks[6]
    {
      var a := Advance(r, env, ctx.id);
      if a.error.Some? {
        return a.run, Some(Io(a.error.value));
      }
      r := a.run;
    }
    var entry := LedgerEntry(ctx.id, ctx.archivedName, ctx.fields.studentId, ctx.fields.name, size, ctx.archivedFile, env.localClock(r.clock));
    r := r.(clock := r.clock + 1);
    if Fault(env, AppendLedger).Some? {
      return r, Some(Io(Fault(env, AppendLedger).value));
    }
    r := r.(ledger := r.ledger + [entry]);
    thrown := None;
  }

  // ---------------------------------------------------------------------
  // The whole run

  /** The observable effects of a run: the filesystem, the progress writes,
      the stored records, the ledger lines, the archived name (once the
      move succeeded), the format verdict (once computed) and the error
      rethrown, if any. */
  datatype PostFinishResult = PostFinishResult(
    fs: Fs,
    progress: seq<ProgressRecord>,
    stored: seq<Stored>,
    ledger: seq<LedgerEntry>,
    archivedName: Option<string>,
    formatCheck: Option<FormatResult>,
    error: Option<Thrown>)

  /** The catch block after a step of the main sequence raised `thrown`. */
  function Rethrow(run: Run, env: Env, id: string, name: Option<string>, verdict: Option<FormatResult>, thrown: Thrown): (r: PostFinishResult)
    requires |run.progress| <= |Schedule| && Follows(run.progress, Schedule[..|run.progress|])
    ensures r.error == Some(thrown)
    ensures r.fs == run.fs && r.stored == run.stored && r.ledger == run.ledger
    ensures r.archivedName == name && r.formatCheck == verdict
    ensures Traced(r.progress, true, FailureRecordable(env))
    ensures |r.progress| <= |run.progress| + 1
  {
    var failed := RecordFailure(run, env, id);
    PostFinishResult(failed.fs, failed.progress, failed.stored, failed.ledger, name, verdict, Some(thrown))
  }

  /** Everything after the move: probe, digest, verdict, receipt, ledger;
      the catch block on any failure. The archived file stays put. */
  method RecordArchived(run: Run, env: Env, ctx: Ctx, config: Config) returns (r: PostFinishResult)
    requires run.progress == [] && run.stored == [] && run.ledger == [] && run.clock == 0
    ensures Traced(r.progress, r.error.Some?, FailureRecordable(env))
    ensures r.fs == run.fs && r.archivedName == Some(ctx.archivedName)
    ensures r.formatCheck.Some? ==> FormatVerdict(GetVideoMetadata(env.probe), config) == Success(r.formatCheck.value)
    // with no injected fault and an archived file to hash, only the verdict can stop the run
    ensures FaultFree(env) && ctx.archivedFile in run.fs && FormatVerdict(GetVideoMetadata(env.probe), config).Success?
            ==> r.error.None?
    ensures r.error.Some? && r.error.value.CheckFailed? ==>
              FormatVerdict(GetVideoMetadata(env.probe), config) == Failure(r.error.value.message)
    ensures r.error.None? ==>
              && r.formatCheck.Some? && ctx.archivedFile in run.fs
              && r.stored == Records(ctx, config, env, run.fs[ctx.archivedFile], r.formatCheck.value)
              && r.ledger == [Entry(ctx, env)]
  {
    var rn, probed, digest, thrown := Gather(run, env, ctx);
    if thrown.Some? {
      return Rethrow(rn, env, ctx.id, Some(ctx.archivedName), None, thrown.value);
    }
    r := Judge(rn, env, ctx, config, run.fs[ctx.archivedFile], FormatVerdict(probed, config));
  }

  /** After the verdict `check`, the receipt and the ledger, once metadata
      and digest are stored; a failed verdict is rethrown. */
  method Judge(rn: Run, env: Env, ctx: Ctx, config: Config, archived: Bytes, check: Result<FormatResult, string>)
      returns (r: PostFinishResult)
    requires Follows(rn.progress, Schedule[..6]) && rn.ledger == [] && rn.clock == Ticks[6]
    requires rn.stored == [Stored(MetaPath(ctx.archiveDir, ctx.id), MetaJson(GetVideoMetadata(env.probe).metadata)),
                           Stored(HashPath(ctx.archiveDir, ctx.id), Sha256Text(env.sha256(archived)))]
    ensures Traced(r.progress, r.error.Some?, FailureRecordable(env))
    ensures r.fs == rn.fs && r.archivedName == Some(ctx.archivedName)
    ensures r.formatCheck.Some? ==> check == Success(r.formatCheck.value)
    ensures FaultFree(env) && check.Success? ==> r.error.None?
    ensures r.error.Some? && r.error.value.CheckFailed? ==> check == Failure(r.error.value.message)
    ensures r.error.None? ==>
              && r.formatCheck.Some?
              && r.stored == Records(ctx, config, env, archived, r.formatCheck.value)
              && r.ledger == [Entry(ctx, env)]
  {
    if check.Failure? {
      return Rethrow(rn, env, ctx.id, Some(ctx.archivedName), None, CheckFailed(check.error));
    }
    r := Approve(rn, env, ctx, config, archived, check.value);
  }

  /** The receipt for an accepted `verdict`, then the ledger line. */
  method Approve(rn: Run, env: Env, ctx: Ctx, config: Config, archived: Bytes, verdict: FormatResult)
      returns (r: PostFinishResult)
    requires Follows(rn.progress, Schedule[..6]) && rn.ledger == [] && rn.clock == Ticks[6]
    requires rn.stored == [Stored(MetaPath(ctx.archiveDir, ctx.id), MetaJson(GetVideoMetadata(env.probe).metadata)),
                           Stored(HashPath(ctx.archiveDir, ctx.id), Sha256Text(env.sha256(archived)))]
    ensures Traced(r.progress, r.error.Some?, FailureRecordable(env))
    ensures r.fs == rn.fs && r.archivedName == Some(ctx.archivedName) && r.formatCheck == Some(verdict)
    ensures FaultFree(env) ==> r.error.None?
    ensures r.error.Some? ==> r.error.value.Io?
    ensures r.error.None? ==>
              && r.stored == Records(ctx, config, env, archived, verdict)
              && r.ledger == [Entry(ctx, env)]
  {
    var probed := GetVideoMetadata(env.probe);
    var digest := env.sha256(archived);
    var receipt := Receipt.GenerateReceipt(ReceiptFor(ctx, config, probed, digest, verdict, env.isoClock(rn.clock)), env.formatBitrate);
    r := Conclude(rn.(clock := rn.clock + 1), env, ctx, verdict, receipt, ActualSize(probed.metadata, ctx.fileSize));
    if r.error.None? {
      ApprovedRecords(rn.stored, r.stored, ctx, config, env, archived, verdict, receipt);
      ApprovedEntry(r.ledger, ctx, env, rn.clock + 1);
    }
  }

  /** The ledger line written one tick after the receipt's clock reading is `Entry`. */
  lemma ApprovedEntry(ledger: seq<LedgerEntry>, ctx: Ctx, env: Env, clock: nat)
    requires clock == Ticks[6] + 1
    requires ledger == [LedgerEntry(ctx.id, ctx.archivedName, ctx.fields.studentId, ctx.fields.name,
                                    ActualSize(GetVideoMetadata(env.probe).metadata, ctx.fileSize), ctx.archivedFile,
                                    env.localClock(clock + Ticks[8] - Ticks[6]))]
    ensures ledger == [Entry(ctx, env)]
  {
    assert clock + Ticks[8] - Ticks[6] == Ticks[8] + 1;
  }

  /** The records before the receipt plus the receipt make up `Records`. */
  lemma ApprovedRecords(before: seq<Stored>, after: seq<Stored>, ctx: Ctx, config: Config, env: Env, archived: Bytes,
                        verdict: FormatResult, receipt: Receipt.Receipt)
    requires before == [Stored(MetaPath(ctx.archiveDir, ctx.id), MetaJson(GetVideoMetadata(env.probe).metadata)),
                        Stored(HashPath(ctx.archiveDir, ctx.id), Sha256Text(env.sha256(archived)))]
    requires receipt == Receipt.GenerateReceipt(ReceiptFor(ctx, config, GetVideoMetadata(env.probe), env.sha256(archived), verdict, env.isoClock(Ticks[6])), env.formatBitrate)
    requires after == before + [Stored(ReceiptPath(ctx.archiveDir, ctx.id), ReceiptHtml(receipt))]
    ensures after == Records(ctx, config, env, archived, verdict)
  {
  }

  /** The probe and the digest, each stored, with their progress writes. */
  method Gather(run: Run, env: Env, ctx: Ctx) returns (rn: Run, probed: MetadataResult, digest: string, thrown: Option<Thrown>)
    requires run.progress == [] && run.stored == [] && run.ledger == [] && run.clock == 0
    ensures rn.fs == run.fs && rn.ledger == [] && probed == GetVideoMetadata(env.probe)
    ensures |rn.progress| <= 6 && Follows(rn.progress, Schedule[..|rn.progress|])
    ensures FaultFree(env) && ctx.archivedFile in run.fs ==> thrown.None?
    ensures thrown.Some? ==> thrown.value.Io?
    ensures thrown.None? ==>
              && |rn.progress| == 6 && rn.clock == Ticks[6]
              && ctx.archivedFile in run.fs && digest == env.sha256(run.fs[ctx.archivedFile])
              && rn.stored == [Stored(MetaPath(ctx.archiveDir, ctx.id), MetaJson(probed.metadata)),
                               Stored(HashPath(ctx.archiveDir, ctx.id), Sha256Text(digest))]
  {
    rn, probed, thrown := ProbeStep(run, env, ctx);
    digest := "";
    if thrown.Some? {
      return;
    }
    var meta := Stored(MetaPath(ctx.archiveDir, ctx.id), MetaJson(probed.metadata));
    assert rn.stored == [meta];
    rn, digest, thrown := HashStep(rn, env, ctx);
    if thrown.None? {
      assert rn.stored == [meta, Stored(HashPath(ctx.archiveDir, ctx.id), Sha256Text(digest))];
      assert rn.clock == Ticks[6];
    }
  }

  /** The receipt and the ledger, once metadata and digest are stored and
      the verdict is known. */
  method Conclude(run: Run, env: Env, ctx: Ctx, verdict: FormatResult, receipt: Receipt.Receipt, size: string)
      returns (r: PostFinishResult)
    requires Follows(run.progress, Schedule[..6]) && |run.stored| == 2 && run.ledger == []
    ensures Traced(r.progress, r.error.Some?, FailureRecordable(env))
    ensures r.fs == run.fs && r.archivedName == Some(ctx.archivedName) && r.formatCheck == Some(verdict)
    ensures FaultFree(env) ==> r.error.None?
    ensures r.error.Some? ==> r.error.value.Io?
    ensures r.error.None? ==>
              && r.stored == run.stored + [Stored(ReceiptPath(ctx.archiveDir, ctx.id), ReceiptHtml(receipt))]
              && r.ledger == [LedgerEntry(ctx.id, ctx.archivedName, ctx.fields.studentId, ctx.fields.name,
                                          size, ctx.archivedFile, env.localClock(run.clock + Ticks[8] - Ticks[6]))]
  {
    var rn, thrown := CompleteStep(run, env, ctx, receipt, size);
    if thrown.Some? {
      return Rethrow(rn, env, ctx.id, Some(ctx.archivedName), Some(verdict), thrown.value);
    }
    assert Schedule[..8] == Schedule;
    r := PostFinishResult(rn.fs, rn.progress, rn.stored, rn.ledger, Some(ctx.archivedName), Some(verdict), None);
  }

  /** `getUniqueFilename` on the requested name, then `moveUploadedFile`. */
  method MoveStep(fs: Fs, dir: string, id: UploadId, fields: Fields, env: Env) returns (name: string, moved: Outcome)
    requires UploadedFile(dir, id) in fs
    ensures Naming.ResolvesTo(dir, fs.Keys, RequestedName(fields), name) && '/' !in name
    ensures moved.Ok() ==> moved.fs == Moved(fs, UploadedFile(dir, id), PathJoin(dir, name))
    ensures !moved.Ok() ==> moved == MoveUploadedFile(fs, UploadedFile(dir, id), PathJoin(dir, name), env.move)
  {
    name := Naming.UniqueFilename(dir, fs.Keys, RequestedName(fields));
    ArchivedOutsideIncoming(dir, name, id);
    moved := MoveUploadedFile(fs, UploadedFile(dir, id), PathJoin(dir, name), env.move);
  }

  /** The name is resolved, the upload moved and its sidecars removed; a
      failed move is rethrown, otherwise the rest of the run follows. */
  method MoveAndRecord(fs: Fs, dir: string, upload: Upload, config: Config, env: Env) returns (r: PostFinishResult)
    requires UploadedFile(dir, upload.id) in fs
    ensures Traced(r.progress, r.error.Some?, FailureRecordable(env))
    ensures r.archivedName.None? ==> r.error.Some? && r.stored == [] && r.ledger == [] && |r.progress| <= 1
    ensures r.archivedName.Some? ==>
              && Naming.ResolvesTo(dir, fs.Keys, RequestedName(ReadFields(upload.metadata)), r.archivedName.value)
              && '/' !in r.archivedName.value
              && r.fs == Relocated(fs, dir, upload.id, PathJoin(dir, r.archivedName.value), env)
    ensures r.formatCheck.Some? ==> FormatVerdict(GetVideoMetadata(env.probe), config) == Success(r.formatCheck.value)
    ensures FaultFree(env) && FormatVerdict(GetVideoMetadata(env.probe), config).Success? ==> r.error.None?
    ensures r.error.Some? && r.error.value.CheckFailed? ==>
              FormatVerdict(GetVideoMetadata(env.probe), config) == Failure(r.error.value.message)
    // the records hold the uploaded bytes' digest, and the ledger line the archived file
    ensures r.error.None? ==>
              && r.archivedName.Some? && r.formatCheck.Some?
              && r.stored == Records(CtxFor(dir, upload, r.archivedName.value, |fs[UploadedFile(dir, upload.id)]|), config, env,
                                     fs[UploadedFile(dir, upload.id)], r.formatCheck.value)
              && r.ledger == [Entry(CtxFor(dir, upload, r.archivedName.value, |fs[UploadedFile(dir, upload.id)]|), env)]
  {
    var fields := ReadFields(upload.metadata);
    var name, moved := MoveStep(fs, dir, upload.id, fields, env);
    if !moved.Ok() {
      return Rethrow(Run(moved.fs, [], 0, [], []), env, upload.id, None, None, Io(moved.error.value));
    }
    var ctx := CtxFor(dir, upload, name, |fs[UploadedFile(dir, upload.id)]|);
    RelocatedHoldsUpload(fs, dir, upload.id, name, env);
    r := RecordArchived(Run(RemoveSidecars(moved.fs, dir, upload.id, env), [], 0, [], []), env, ctx, config);
  }

  /** `executePostFinish(upload, config)`. */
  method ExecutePostFinish(fs: Fs, upload: Upload, config: Config, env: Env) returns (r: PostFinishResult)
    // the progress file follows the schedule, and a failure ends with `error` when it can be written
    ensures Traced(r.progress, r.error.Some?, FailureRecordable(env))
    // too little space: refused before anything moves
    ensures var dir := ArchiveDir(config, env.homeDir);
            var uploaded := UploadedFile(dir, upload.id);
            Fault(env, StatUpload).None? && uploaded in fs && !CheckSufficientSpace(env.df, dir, |fs[uploaded]|, 2).sufficient
            ==> r.error == Some(InsufficientSpace(CheckSufficientSpace(env.df, dir, |fs[uploaded]|, 2)))
                && r.fs == fs && r.archivedName.None?
    // nothing is recorded for an upload that was not moved
    ensures r.archivedName.None? ==> r.error.Some? && r.stored == [] && r.ledger == [] && |r.progress| <= 1
    // a completed move is kept, whatever fails later
    ensures r.archivedName.Some? ==>
              var dir := ArchiveDir(config, env.homeDir);
              && UploadedFile(dir, upload.id) in fs
              && Naming.ResolvesTo(dir, fs.Keys, RequestedName(ReadFields(upload.metadata)), r.archivedName.value)
              && '/' !in r.archivedName.value
              && r.fs == Relocated(fs, dir, upload.id, PathJoin(dir, r.archivedName.value), env)
    // the verdict is the one the settings call for
    ensures r.formatCheck.Some? ==> FormatVerdict(GetVideoMetadata(env.probe), config) == Success(r.formatCheck.value)
    // with no injected fault, an upload on disk and room for it, only the verdict can stop the run
    ensures var dir := ArchiveDir(config, env.homeDir);
            var uploaded := UploadedFile(dir, upload.id);
            FaultFree(env) && uploaded in fs && CheckSufficientSpace(env.df, dir, |fs[uploaded]|, 2).sufficient
            && FormatVerdict(GetVideoMetadata(env.probe), config).Success?
            ==> r.error.None?
    // a refused verdict is the error raised
    ensures r.error.Some? && r.error.value.CheckFailed? ==>
              FormatVerdict(GetVideoMetadata(env.probe), config) == Failure(r.error.value.message)
    // a run that fails nowhere stores the metadata, the digest of the uploaded bytes and the receipt,
    // and appends one ledger line about the archived file
    ensures r.error.None? ==>
              var dir := ArchiveDir(config, env.homeDir);
              var uploaded := UploadedFile(dir, upload.id);
              && r.archivedName.Some? && r.formatCheck.Some? && uploaded in fs
              && r.stored == Records(CtxFor(dir, upload, r.archivedName.value, |fs[uploaded]|), config, env,
                                     fs[uploaded], r.formatCheck.value)
              && r.ledger == [Entry(CtxFor(dir, upload, r.archivedName.value, |fs[uploaded]|), env)]
  {
    var dir := ArchiveDir(config, env.homeDir);
    var admitted := Admit(fs, dir, upload.id, env);
    if admitted.Failure? {
      r := Rethrow(Run(fs, [], 0, [], []), env, upload.id, None, None, admitted.error);
      assert r.error == Some(admitted.error) && !admitted.error.CheckFailed?;
      assert r.archivedName.None? && r.formatCheck.None? && r.fs == fs;
      return;
    }
    assert UploadedFile(dir, upload.id) in fs;
    r := MoveAndRecord(fs, dir, upload, config, env);
  }
}
