/** The space guard: `df -k` parsing with its fail-open fallback, the
    free-space test against a safety margin, and the usage warning. The
    `df` process is not modelled: its output, or the error it raised, is
    an input. */
module DiskCheck {
  import opened Wrappers
  import opened Text

  /** `Number.MAX_SAFE_INTEGER`, 2^53 - 1. */
  const MaxSafeInteger: int := 9007199254740991

  const GiB: nat := 1024 * 1024 * 1024

  const FormatErrorMessage: string := "df command output format error"

  /** One run of `df -k "<dir>"`: what it printed, or the message of the error it raised. */
  datatype DfRun = DfOutput(stdout: string) | DfFailed(message: string)

  /** `checkDiskSpace`'s result. A number field is `None` when it is `NaN`;
      `error` is present only on the fallback path. */
  datatype DiskInfo = DiskInfo(
    total: Option<int>,
    used: Option<int>,
    available: Option<int>,
    capacityPercent: Option<int>,
    path: string,
    error: Option<string>)

  /** The fallback reported when `df` cannot be read: nothing used, the
      largest safe integer available, as if space were unlimited. */
  function Sentinel(dirPath: string, message: string): DiskInfo {
    DiskInfo(Some(0), Some(0), Some(MaxSafeInteger), Some(0), dirPath, Some(message))
  }

  /** `parseInt(info[i])`; a missing field is `undefined`, which parses as `NaN`. */
  function Field(info: seq<string>, i: nat): (n: Option<int>)
    // a missing field is `NaN`; a field of digits is its value
    ensures i >= |info| ==> n.None?
    ensures i < |info| && |info[i]| > 0 && AllDigits(info[i]) ==> n == Some(ParseDigits(info[i]))
    ensures i < |info| && (|info[i]| == 0 || (!IsDigit(info[i][0]) && !IsSpace(info[i][0]) && info[i][0] != '-' && info[i][0] != '+'))
            ==> n.None?
  {
    if i < |info| then
      if |info[i]| > 0 && AllDigits(info[i]) then
        JsParseIntOfDigits(info[i]);
        JsParseInt(info[i])
      else if |info[i]| == 0 || (!IsDigit(info[i][0]) && !IsSpace(info[i][0]) && info[i][0] != '-' && info[i][0] != '+') then
        JsParseIntNaN(info[i]);
        JsParseInt(info[i])
      else JsParseInt(info[i])
    else None
  }

  /** A count of 1K blocks in bytes; `NaN` stays `NaN`. */
  function Kilobytes(n: Option<int>): (b: Option<int>)
    ensures b.Some? <==> n.Some?
    ensures b.Some? ==> b.value == n.value * 1024
  {
    if n.Some? then Some(n.value * 1024) else None
  }

  /** The lines of the trimmed output. */
  function DfLines(stdout: string): seq<string> {
    Split(Trim(stdout), '\n')
  }

  /** `checkDiskSpace(dirPath)`: the second line's fields 1-3 (1K blocks,
      in bytes) and the integer prefix of field 4 (the capacity percent).
      A failed run, or output with fewer than two lines, yields the sentinel. */
  function CheckDiskSpace(run: DfRun, dirPath: string): (d: DiskInfo)
    ensures d.path == dirPath
    ensures d.error.Some? <==> run.DfFailed? || |DfLines(run.stdout)| < 2
    ensures run.DfFailed? ==> d == Sentinel(dirPath, run.message)
    ensures run.DfOutput? && |DfLines(run.stdout)| < 2 ==> d == Sentinel(dirPath, FormatErrorMessage)
  {
    match run
    case DfFailed(message) => Sentinel(dirPath, message)
    case DfOutput(stdout) =>
      var lines := DfLines(stdout);
      if |lines| < 2 then Sentinel(dirPath, FormatErrorMessage)
      else
        var info := SplitOnSpaceRuns(lines[1]);
        DiskInfo(Kilobytes(Field(info, 1)), Kilobytes(Field(info, 2)), Kilobytes(Field(info, 3)),
                 Field(info, 4), dirPath, None)
  }

  /** A `df -k` report: a header line, then one line of whitespace-separated
      fields ending in a newline. */
  function DfReport(header: string, fields: seq<string>): string {
    header + "\n" + Join(fields, ' ') + "\n"
  }

  /** The second line of a report is split back into its fields. */
  lemma DfReportLines(header: string, fields: seq<string>)
    requires |header| > 0 && !IsSpace(header[0]) && '\n' !in header
    requires |fields| >= 2 && forall i :: 0 <= i < |fields| ==> |fields[i]| > 0 && NoSpace(fields[i])
    ensures |DfLines(DfReport(header, fields))| >= 2
    ensures SplitOnSpaceRuns(DfLines(DfReport(header, fields))[1]) == fields
  {
    var line := Join(fields, ' ');
    JoinKeepsNoSpaceTail(fields);
    assert '\n' !in line;
    var body := header + "\n" + line;
    assert body[0] == header[0];
    assert body[|body| - 1] == line[|line| - 1];
    TrimFinalNewline(body);
    assert DfReport(header, fields) == body + "\n";
    SplitOfPair(header, line, '\n');
    TokensOfSpacedWords(fields);
  }

  /** A join of non-empty whitespace-free parts has none either, and its
      last character is the last part's. */
  lemma {:induction false} JoinKeepsNoSpaceTail(parts: seq<string>)
    requires |parts| >= 1 && forall i :: 0 <= i < |parts| ==> |parts[i]| > 0 && NoSpace(parts[i])
    ensures |Join(parts, ' ')| > 0
    ensures !IsSpace(Join(parts, ' ')[|Join(parts, ' ')| - 1])
    ensures forall i :: 0 <= i < |Join(parts, ' ')| ==> Join(parts, ' ')[i] != '\n'
    decreases |parts|
  {
    if |parts| > 1 {
      JoinKeepsNoSpaceTail(parts[1..]);
      var j := Join(parts, ' ');
      var rest := Join(parts[1..], ' ');
      assert j == parts[0] + [' '] + rest;
      forall i | 0 <= i < |j|
        ensures j[i] != '\n'
      {
        if i < |parts[0]| {
          assert j[i] == parts[0][i];
        } else if i > |parts[0]| {
          assert j[i] == rest[i - |parts[0]| - 1];
        }
      }
    } else {
      assert Join(parts, ' ') == parts[0];
    }
  }

  /** Parsing a rendered report recovers its numbers: sizes in bytes and the
      capacity from its `N%` field. */
  lemma ParseRenderedReport(header: string, fs: string, mount: string, total: nat, used: nat, avail: nat,
                            capacity: nat, dirPath: string)
    requires |header| > 0 && !IsSpace(header[0]) && '\n' !in header
    requires |fs| > 0 && NoSpace(fs) && |mount| > 0 && NoSpace(mount)
    ensures CheckDiskSpace(DfOutput(DfReport(header, [fs, NatToString(total), NatToString(used),
                                                        NatToString(avail), NatToString(capacity) + "%", mount])), dirPath)
         == DiskInfo(Some(total * 1024), Some(used * 1024), Some(avail * 1024), Some(capacity), dirPath, None)
  {
    var fields := [fs, NatToString(total), NatToString(used), NatToString(avail), NatToString(capacity) + "%", mount];
    RenderedFields(fields, total, used, avail, capacity);
    RenderedWords(fields, total, used, avail, capacity);
    DfReportLines(header, fields);
    DiskInfoOfFields(DfOutput(DfReport(header, fields)), dirPath, fields);
  }

  /** The fields of a rendered line are non-empty words. */
  lemma RenderedWords(fields: seq<string>, total: nat, used: nat, avail: nat, capacity: nat)
    requires |fields| == 6 && |fields[0]| > 0 && NoSpace(fields[0]) && |fields[5]| > 0 && NoSpace(fields[5])
    requires fields[1] == NatToString(total) && fields[2] == NatToString(used)
    requires fields[3] == NatToString(avail) && fields[4] == NatToString(capacity) + "%"
    ensures forall i :: 0 <= i < |fields| ==> |fields[i]| > 0 && NoSpace(fields[i])
  {
    DigitsHaveNoSpace(fields[1]);
    DigitsHaveNoSpace(fields[2]);
    DigitsHaveNoSpace(fields[3]);
    DigitsHaveNoSpace(NatToString(capacity));
    NoSpaceConcat(NatToString(capacity), "%");
    assert NoSpace(fields[4]);
  }

  /** The numeric fields of a rendered line parse back to their numbers. */
  lemma RenderedFields(fields: seq<string>, total: nat, used: nat, avail: nat, capacity: nat)
    requires |fields| == 6
    requires fields[1] == NatToString(total) && fields[2] == NatToString(used)
    requires fields[3] == NatToString(avail) && fields[4] == NatToString(capacity) + "%"
    ensures Field(fields, 1) == Some(total) && Field(fields, 2) == Some(used)
    ensures Field(fields, 3) == Some(avail) && Field(fields, 4) == Some(capacity)
  {
    RenderedField(fields, 1, total, "");
    RenderedField(fields, 2, used, "");
    RenderedField(fields, 3, avail, "");
    RenderedField(fields, 4, capacity, "%");
  }

  /** A readable report's numbers come from the fields of its second line. */
  lemma DiskInfoOfFields(run: DfRun, dirPath: string, fields: seq<string>)
    requires run.DfOutput? && |DfLines(run.stdout)| >= 2
    requires SplitOnSpaceRuns(DfLines(run.stdout)[1]) == fields
    ensures CheckDiskSpace(run, dirPath)
         == DiskInfo(Kilobytes(Field(fields, 1)), Kilobytes(Field(fields, 2)), Kilobytes(Field(fields, 3)),
                     Field(fields, 4), dirPath, None)
  {
  }

  lemma RenderedField(fields: seq<string>, i: nat, n: nat, rest: string)
    requires |rest| == 0 || !IsDigit(rest[0])
    requires i < |fields| && fields[i] == NatToString(n) + rest
    ensures Field(fields, i) == Some(n)
  {
    JsParseIntOfRendered(n, rest);
  }

  // ---------------------------------------------------------------------
  // Free space

  /** `checkSufficientSpace`'s result. */
  datatype SpaceCheck = SpaceCheck(
    sufficient: bool,
    available: Option<int>,
    required: int,
    safetyMargin: int,
    requiredWithMargin: int,
    diskInfo: DiskInfo)

  /** `checkSufficientSpace(dirPath, requiredBytes, safetyMarginGB)`: enough
      space means at least the required bytes plus the margin are free;
      a `NaN` free-space figure is never enough. */
  function CheckSufficientSpace(run: DfRun, dirPath: string, requiredBytes: int, safetyMarginGB: int): (r: SpaceCheck)
    ensures r.diskInfo == CheckDiskSpace(run, dirPath) && r.available == r.diskInfo.available
    ensures r.required == requiredBytes
    ensures r.safetyMargin == safetyMarginGB * GiB
    ensures r.requiredWithMargin == requiredBytes + safetyMarginGB * GiB
    ensures r.sufficient <==> r.available.Some? && r.available.value >= requiredBytes + safetyMarginGB * GiB
  {
    var info := CheckDiskSpace(run, dirPath);
    var margin := safetyMarginGB * GiB;
    var needed := requiredBytes + margin;
    SpaceCheck(info.available.Some? && info.available.value >= needed, info.available, requiredBytes, margin, needed, info)
  }

  /** A smaller margin never turns enough space into too little. */
  lemma MarginMonotone(run: DfRun, dirPath: string, requiredBytes: int, m: int, m': int)
    requires m' <= m
    requires CheckSufficientSpace(run, dirPath, requiredBytes, m).sufficient
    ensures CheckSufficientSpace(run, dirPath, requiredBytes, m').sufficient
  {
    ScaleMonotone(m', m, GiB);
  }

  lemma ScaleMonotone(a: int, b: int, k: nat)
    requires a <= b
    ensures a * k <= b * k
  {
    assert b * k - a * k == (b - a) * k;
  }

  /** ... nor does a smaller request. */
  lemma RequestMonotone(run: DfRun, dirPath: string, r: int, r': int, m: int)
    requires r' <= r
    requires CheckSufficientSpace(run, dirPath, r, m).sufficient
    ensures CheckSufficientSpace(run, dirPath, r', m).sufficient
  {
  }

  /** When `df` cannot be read the check passes for every request that,
      with its margin, stays within the largest safe integer. */
  lemma FailOpen(run: DfRun, dirPath: string, requiredBytes: int, safetyMarginGB: int)
    requires run.DfFailed? || |DfLines(run.stdout)| < 2
    ensures CheckSufficientSpace(run, dirPath, requiredBytes, safetyMarginGB).sufficient
            <==> requiredBytes + safetyMarginGB * GiB <= MaxSafeInteger
  {
  }

  /** A readable report with an unparsable free-space field fails closed. */
  lemma UnreadableAvailableFailsClosed(run: DfRun, dirPath: string, requiredBytes: int, safetyMarginGB: int)
    requires run.DfOutput? && |DfLines(run.stdout)| >= 2
    requires Field(SplitOnSpaceRuns(DfLines(run.stdout)[1]), 3).None?
    ensures !CheckSufficientSpace(run, dirPath, requiredBytes, safetyMarginGB).sufficient
  {
  }

  // ---------------------------------------------------------------------
  // Usage warning

  /** `checkDiskUsageWarning`'s result. */
  datatype UsageCheck = UsageCheck(warning: bool, capacityPercent: Option<int>, threshold: int, diskInfo: DiskInfo)

  /** `checkDiskUsageWarning(dirPath, warningThreshold)`: a warning when the
      capacity percentage reaches the threshold; `NaN` never warns. */
  function CheckDiskUsageWarning(run: DfRun, dirPath: string, warningThreshold: int): (r: UsageCheck)
    ensures r.diskInfo == CheckDiskSpace(run, dirPath) && r.capacityPercent == r.diskInfo.capacityPercent
    ensures r.threshold == warningThreshold
    ensures r.warning <==> r.capacityPercent.Some? && r.capacityPercent.value >= warningThreshold
  {
    var info := CheckDiskSpace(run, dirPath);
    UsageCheck(info.capacityPercent.Some? && info.capacityPercent.value >= warningThreshold,
               info.capacityPercent, warningThreshold, info)
  }

  /** The fallback never warns for a positive threshold. */
  lemma FailOpenNoWarning(run: DfRun, dirPath: string, warningThreshold: int)
    requires run.DfFailed? || |DfLines(run.stdout)| < 2
    requires warningThreshold > 0
    ensures !CheckDiskUsageWarning(run, dirPath, warningThreshold).warning
  {
  }

  /** On a rendered report, the warning is the comparison of its capacity. */
  lemma WarningOfRenderedReport(header: string, fs: string, mount: string, total: nat, used: nat, avail: nat,
                                capacity: nat, dirPath: string, warningThreshold: int)
    requires |header| > 0 && !IsSpace(header[0]) && '\n' !in header
    requires |fs| > 0 && NoSpace(fs) && |mount| > 0 && NoSpace(mount)
    ensures CheckDiskUsageWarning(DfOutput(DfReport(header, [fs, NatToString(total), NatToString(used),
                                                             NatToString(avail), NatToString(capacity) + "%", mount])),
                                  dirPath, warningThreshold).warning
            <==> capacity >= warningThreshold
  {
    ParseRenderedReport(header, fs, mount, total, used, avail, capacity, dirPath);
  }
}
