/** `checkFfmpeg`: whether `ffmpeg` and `ffprobe` answer `-version`, the
    version each banner names, and the one message the settings screen
    shows for the pair. The shell is not modelled: `exec` maps a command
    line to what running it produced. */
module FfmpegCheck {
  import opened Wrappers
  import opened Text

  /** What `execAsync(command)` settled with: the captured stdout, or a
      rejection (the command is missing, or it exited with an error). */
  datatype ExecRun = Stdout(text: string) | Rejected(message: string)

  /** The configured tool paths; an absent or empty setting means the bare name. */
  datatype ToolPaths = ToolPaths(ffmpegPath: Option<string>, ffprobePath: Option<string>)

  /** `configured || fallback`. */
  function CommandFor(configured: Option<string>, fallback: string): (cmd: string)
    ensures configured.Some? && configured.value != "" ==> cmd == configured.value
    ensures configured.None? || configured.value == "" ==> cmd == fallback
  {
    if configured.Some? && configured.value != "" then configured.value else fallback
  }

  /** The command line run for a tool. */
  function VersionCommand(cmd: string): (line: string)
    // the command can be read back from the line
    ensures |line| > |cmd| && line[..|cmd|] == cmd
    ensures EndsWith(line, " -version")
  {
    cmd + " -version"
  }

  /** Different commands give different command lines. */
  lemma VersionCommandInjective(a: string, b: string)
    requires VersionCommand(a) == VersionCommand(b)
    ensures a == b
  {
    assert |a| == |b|;
  }

  // ---------------------------------------------------------------------
  // The version token

  /** `marker` followed by at least one non-whitespace character starts at
      `i`: where `/marker([^\s]+)/` can match. */
  predicate MatchAt(s: string, marker: string, i: int) {
    OccursAt(s, marker, i) && i + |marker| < |s| && !IsSpace(s[i + |marker|])
  }

  /** The leftmost match at or after `i`. */
  function FirstMatchFrom(s: string, marker: string, i: nat): (k: Option<nat>)
    ensures k.Some? ==> i <= k.value && MatchAt(s, marker, k.value)
    ensures k.Some? ==> forall j :: i <= j < k.value ==> !MatchAt(s, marker, j)
    ensures k.None? <==> forall j :: i <= j ==> !MatchAt(s, marker, j)
    decreases |s| - i
  {
    if i >= |s| then None
    else if MatchAt(s, marker, i) then Some(i)
    else FirstMatchFrom(s, marker, i + 1)
  }

  /** The longest whitespace-free prefix of `t`: what greedy `[^\s]+` takes. */
  function NonSpacePrefix(t: string): (w: string)
    ensures StartsWith(t, w) && NoSpace(w)
    ensures |w| == |t| || IsSpace(t[|w|])
    decreases |t|
  {
    if |t| == 0 || IsSpace(t[0]) then ""
    else [t[0]] + NonSpacePrefix(t[1..])
  }

  /** `stdout.match(/marker([^\s]+)/)?.[1]`: the whitespace-free token after
      the leftmost occurrence of `marker` that is followed by one. */
  function VersionAfter(s: string, marker: string): (v: Option<string>)
    ensures v.None? <==> forall j :: 0 <= j ==> !MatchAt(s, marker, j)
    ensures v.Some? ==> v.value != "" && NoSpace(v.value)
    ensures v.Some? ==> exists i :: MatchAt(s, marker, i) && OccursAt(s, marker + v.value, i)
  {
    match FirstMatchFrom(s, marker, 0)
    case None => None
    case Some(k) =>
      var w := NonSpacePrefix(s[k + |marker|..]);
      assert w[0] == s[k + |marker|];
      assert s[k..k + |marker| + |w|] == marker + w;
      Some(w)
  }

  /** A banner that opens with the marker yields the token that follows it. */
  lemma VersionOfBanner(marker: string, version: string, tail: string)
    requires version != "" && NoSpace(version)
    requires tail == "" || IsSpace(tail[0])
    ensures VersionAfter(marker + version + tail, marker) == Some(version)
  {
    var s := marker + version + tail;
    assert FirstMatchFrom(s, marker, 0) == Some(0) by {
      assert s[..|marker|] == marker;
      assert s[|marker|] == version[0];
      assert MatchAt(s, marker, 0);
    }
    assert s[|marker|..] == version + tail;
    NonSpaceOfWord(version, tail);
  }

  lemma {:induction false} NonSpaceOfWord(w: string, tail: string)
    requires NoSpace(w)
    requires tail == "" || IsSpace(tail[0])
    ensures NonSpacePrefix(w + tail) == w
    decreases |w|
  {
    if |w| == 0 {
      assert w + tail == tail;
    } else {
      assert (w + tail)[1..] == w[1..] + tail;
      NonSpaceOfWord(w[1..], tail);
      assert [w[0]] + w[1..] == w;
    }
  }

  /** Text that never mentions the marker has no version. */
  lemma NoMarkerNoVersion(s: string, marker: string)
    requires !Contains(s, marker)
    ensures VersionAfter(s, marker).None?
  {
    ContainsIff(s, marker);
    assert forall j :: !OccursAt(s, marker, j);
  }

  // ---------------------------------------------------------------------
  // One tool

  const FfmpegMarker: string := "ffmpeg version "
  const FfprobeMarker: string := "ffprobe version "

  datatype ToolStatus = ToolStatus(available: bool, version: Option<string>)

  /** One `try` block: a rejected command leaves the defaults in place. */
  function CheckTool(run: ExecRun, marker: string): (t: ToolStatus)
    ensures t.available <==> run.Stdout? && run.text != ""
    ensures !t.available ==> t.version.None?
    ensures t.available ==> t.version == VersionAfter(run.text, marker)
  {
    if run.Stdout? && run.text != "" then ToolStatus(true, VersionAfter(run.text, marker))
    else ToolStatus(false, None)
  }

  /** A tool that prints a banner without the expected text is available
      with no version. */
  lemma AvailableWithoutVersion(text: string, marker: string)
    requires text != "" && !Contains(text, marker)
    ensures CheckTool(Stdout(text), marker) == ToolStatus(true, None)
  {
    NoMarkerNoVersion(text, marker);
  }

  // ---------------------------------------------------------------------
  // The pair and its message

  const BothMissingMessage: string :=
    "ffmpegとffprobeがインストールされていません。Homebrewを使用してインストールしてください: brew install ffmpeg"
  const FfmpegMissingMessage: string :=
    "ffmpegがインストールされていません。Homebrewを使用してインストールしてください: brew install ffmpeg"
  const FfprobeMissingMessage: string :=
    "ffprobeがインストールされていません。Homebrewを使用してインストールしてください: brew install ffmpeg"

  /** A missing version prints as `null` in the template. */
  function Shown(v: Option<string>): string {
    v.GetOr("null")
  }

  function BothAvailableMessage(ffmpegVersion: Option<string>, ffprobeVersion: Option<string>): string {
    "ffmpeg " + Shown(ffmpegVersion) + " と ffprobe " + Shown(ffprobeVersion) + " が利用可能です。"
  }

  datatype CheckResult = CheckResult(ffmpeg: ToolStatus, ffprobe: ToolStatus, message: string)

  /** The message for a pair of statuses. */
  function MessageFor(ffmpeg: ToolStatus, ffprobe: ToolStatus): (m: string)
    ensures ffmpeg.available && ffprobe.available ==> m == BothAvailableMessage(ffmpeg.version, ffprobe.version)
    ensures m == BothMissingMessage <==> !ffmpeg.available && !ffprobe.available
    ensures m == FfmpegMissingMessage <==> !ffmpeg.available && ffprobe.available
    ensures m == FfprobeMissingMessage <==> ffmpeg.available && !ffprobe.available
  {
    MessagesDistinct(ffmpeg.version, ffprobe.version);
    if ffmpeg.available && ffprobe.available then BothAvailableMessage(ffmpeg.version, ffprobe.version)
    else if !ffmpeg.available && !ffprobe.available then BothMissingMessage
    else if !ffmpeg.available then FfmpegMissingMessage
    else FfprobeMissingMessage
  }

  /** `checkFfmpeg()`: both tools are run, each through its own `try`, and
      the message is chosen by the two flags. */
  function CheckFfmpeg(paths: ToolPaths, exec: string -> ExecRun): (r: CheckResult)
    ensures r.ffmpeg.available <==> (exec(VersionCommand(CommandFor(paths.ffmpegPath, "ffmpeg"))).Stdout?
                                     && exec(VersionCommand(CommandFor(paths.ffmpegPath, "ffmpeg"))).text != "")
    ensures r.ffprobe == CheckTool(exec(VersionCommand(CommandFor(paths.ffprobePath, "ffprobe"))), FfprobeMarker)
    ensures r.ffmpeg == CheckTool(exec(VersionCommand(CommandFor(paths.ffmpegPath, "ffmpeg"))), FfmpegMarker)
    ensures r.message in {BothAvailableMessage(r.ffmpeg.version, r.ffprobe.version),
                          BothMissingMessage, FfmpegMissingMessage, FfprobeMissingMessage}
    ensures r.message == BothMissingMessage <==> !r.ffmpeg.available && !r.ffprobe.available
    ensures r.message == FfmpegMissingMessage <==> !r.ffmpeg.available && r.ffprobe.available
    ensures r.message == FfprobeMissingMessage <==> r.ffmpeg.available && !r.ffprobe.available
  {
    var ffmpeg := CheckTool(exec(VersionCommand(CommandFor(paths.ffmpegPath, "ffmpeg"))), FfmpegMarker);
    var ffprobe := CheckTool(exec(VersionCommand(CommandFor(paths.ffprobePath, "ffprobe"))), FfprobeMarker);
    MessagesDistinct(ffmpeg.version, ffprobe.version);
    CheckResult(ffmpeg, ffprobe, MessageFor(ffmpeg, ffprobe))
  }

  /** The four messages are pairwise different, so the message tells which
      of the four cases holds. */
  lemma MessagesDistinct(v1: Option<string>, v2: Option<string>)
    ensures BothAvailableMessage(v1, v2) != BothMissingMessage
    ensures BothAvailableMessage(v1, v2) != FfmpegMissingMessage
    ensures BothAvailableMessage(v1, v2) != FfprobeMissingMessage
    ensures BothMissingMessage != FfmpegMissingMessage
    ensures BothMissingMessage != FfprobeMissingMessage
    ensures FfmpegMissingMessage != FfprobeMissingMessage
  {
    var m := BothAvailableMessage(v1, v2);
    assert m[|m| - 1] == '。';
    assert BothMissingMessage[|BothMissingMessage| - 1] == 'g';
    assert FfmpegMissingMessage[|FfmpegMissingMessage| - 1] == 'g';
    assert FfprobeMissingMessage[|FfprobeMissingMessage| - 1] == 'g';
    assert |FfmpegMissingMessage| < |FfprobeMissingMessage| < |BothMissingMessage|;
  }

  /** When both tools answer, the message names both versions. */
  lemma BothMessageEmbedsVersions(paths: ToolPaths, exec: string -> ExecRun)
    requires CheckFfmpeg(paths, exec).ffmpeg.available && CheckFfmpeg(paths, exec).ffprobe.available
    ensures var r := CheckFfmpeg(paths, exec);
            && Contains(r.message, Shown(r.ffmpeg.version))
            && Contains(r.message, Shown(r.ffprobe.version))
  {
    var r := CheckFfmpeg(paths, exec);
    EmbedsBoth("ffmpeg ", Shown(r.ffmpeg.version), " と ffprobe ", Shown(r.ffprobe.version), " が利用可能です。");
  }

  /** Both filled-in parts of a three-part template occur in the result. */
  lemma EmbedsBoth(p: string, a: string, q: string, b: string, s: string)
    ensures Contains(p + a + q + b + s, a) && Contains(p + a + q + b + s, b)
  {
    assert p + a + q + b + s == p + a + (q + b + s);
    ContainsMiddle(p, a, q + b + s);
    ContainsMiddle(p + a + q, b, s);
  }

  /** ffprobe is checked whatever happened to ffmpeg: changing only what the
      ffmpeg command produced leaves the ffprobe status unchanged. */
  lemma FfprobeIndependentOfFfmpeg(paths: ToolPaths, exec: string -> ExecRun, exec': string -> ExecRun)
    requires exec(VersionCommand(CommandFor(paths.ffprobePath, "ffprobe")))
          == exec'(VersionCommand(CommandFor(paths.ffprobePath, "ffprobe")))
    ensures CheckFfmpeg(paths, exec).ffprobe == CheckFfmpeg(paths, exec').ffprobe
  {
  }

  /** Without settings the bare tool names are run. */
  lemma DefaultCommands(exec: string -> ExecRun)
    ensures CheckFfmpeg(ToolPaths(None, None), exec).ffmpeg == CheckTool(exec("ffmpeg -version"), FfmpegMarker)
    ensures CheckFfmpeg(ToolPaths(None, None), exec).ffprobe == CheckTool(exec("ffprobe -version"), FfprobeMarker)
  {
    assert VersionCommand("ffmpeg") == "ffmpeg -version";
    assert VersionCommand("ffprobe") == "ffprobe -version";
  }
}
