/** `checkFormatBasic` and `checkFormat`: what the archive records about
    whether a file meets the delivery requirements. Only a missing stream
    makes a file invalid; every other mismatch is a warning. */
module FormatCheck {
  import opened Wrappers
  import opened Text
  import opened Probe

  // ---------------------------------------------------------------------
  // Results

  const NoStreamsError: string := "ストリーム情報が見つかりません"
  const UnsupportedTypeError: string := "サポートされていないファイル形式です"
  const NoVideoStreamError: string := "動画ストリームが見つかりません"

  /** What the basic check decides the file is. */
  datatype FileKind = Unknown | Video | Audio | Image

  /** A mismatch against one requirement, with the values its message quotes. */
  datatype Warning =
    | ResolutionMismatch(requiredResolution: string, width: Option<int>, height: Option<int>)
    | VideoCodecMismatch(videoCodec: Option<string>)
    | FrameRateMismatch(measuredRate: Rate)
    | AudioCodecMismatch(audioCodec: string)
    | SampleRateMismatch(requiredSampleRate: int, measuredSampleRate: Option<int>)

  /** The order in which `checkFormat` tests the requirements. */
  function Rank(w: Warning): (k: nat)
    ensures k < 5
  {
    match w
    case ResolutionMismatch(_, _, _) => 0
    case VideoCodecMismatch(_) => 1
    case FrameRateMismatch(_) => 2
    case AudioCodecMismatch(_) => 3
    case SampleRateMismatch(_, _) => 4
  }

  /** A check's verdict; `kind` is the `type` field only the basic check sets. */
  datatype FormatResult = FormatResult(valid: bool, errors: seq<string>, warnings: seq<Warning>, kind: Option<FileKind>)

  /** `{ valid: true, errors: [], warnings: [] }`, the verdict recorded when no check runs. */
  const Unchecked: FormatResult := FormatResult(true, [], [], None)

  // ---------------------------------------------------------------------
  // Basic check

  /** `checkFormatBasic`: the kind of file, by the first of video, audio and
      image that some stream has. */
  function CheckFormatBasic(m: Metadata): (r: FormatResult)
    ensures r.warnings == [] && r.kind.Some?
    ensures |r.errors| <= 1 && (r.valid <==> r.errors == [])
    ensures m.streams.None? || m.streams.value == [] ==> r.errors == [NoStreamsError] && r.kind == Some(Unknown)
    ensures m.streams.Some? && m.streams.value != [] ==>
              && (r.kind == Some(Video) <==> HasType(m.streams.value, "video"))
              && (r.kind == Some(Audio) <==> !HasType(m.streams.value, "video") && HasType(m.streams.value, "audio"))
              && (r.kind == Some(Image) <==> (!HasType(m.streams.value, "video") && !HasType(m.streams.value, "audio")
                                             && HasType(m.streams.value, "image")))
              && (!r.valid <==> r.kind == Some(Unknown))
    ensures !r.valid ==> r.errors == [NoStreamsError] || r.errors == [UnsupportedTypeError]
  {
    if m.streams.None? || |m.streams.value| == 0 then FormatResult(false, [NoStreamsError], [], Some(Unknown))
    else
      var s := m.streams.value;
      if HasType(s, "video") then FormatResult(true, [], [], Some(Video))
      else if HasType(s, "audio") then FormatResult(true, [], [], Some(Audio))
      else if HasType(s, "image") then FormatResult(true, [], [], Some(Image))
      else FormatResult(false, [UnsupportedTypeError], [], Some(Unknown))
  }

  // ---------------------------------------------------------------------
  // Requirements

  /** `config.formatCheck`; an absent key is `None`. `container` is kept
      because the settings carry it, but no check reads it. */
  datatype Requirements = Requirements(
    container: Option<string>,
    videoCodec: Option<string>,
    resolution: Option<string>,
    frameRates: Option<seq<real>>,
    audioCodec: Option<string>,
    sampleRate: Option<int>)

  /** `config.formatCheck || {}` when the settings have no requirements. */
  const NoRequirements: Requirements := Requirements(None, None, None, None, None, None)

  /** The shipped defaults (QuickTime/MOV, ProRes, 1920x1080, four frame rates, PCM, 48 kHz). */
  const DefaultRequirements: Requirements :=
    Requirements(Some("QuickTime/MOV"), Some("ProRes"), Some("1920x1080"),
                 Some([23.98, 24.0, 29.97, 30.0]), Some("PCM"), Some(48000))

  const ProResCodecs: seq<string> := ["prores", "prores_ks", "prores_aw"]

  // ---------------------------------------------------------------------
  // Resolution

  /** A JavaScript value on either side of the resolution comparison. */
  datatype JsValue = Undefined | NaN | Num(n: int)

  /** `===` on those values: `NaN` equals nothing, `undefined` equals itself. */
  predicate StrictEquals(a: JsValue, b: JsValue) {
    match (a, b)
    case (Num(x), Num(y)) => x == y
    case (Undefined, Undefined) => true
    case _ => false
  }

  function OfField(v: Option<int>): JsValue {
    if v.Some? then Num(v.value) else Undefined
  }

  function OfNumber(v: Option<int>): JsValue {
    if v.Some? then Num(v.value) else NaN
  }

  /** Element `i` of `resolution.split('x').map(Number)`, `undefined` past its end. */
  function RequiredDimension(resolution: string, i: nat): JsValue {
    var parts := Split(resolution, 'x');
    if i < |parts| then OfNumber(JsNumber(parts[i])) else Undefined
  }

  /** The resolution rule: width and height must equal the two numbers of
      the `WxH` requirement. */
  predicate ResolutionDiffers(v: Stream, resolution: string) {
    || !StrictEquals(OfField(v.width), RequiredDimension(resolution, 0))
    || !StrictEquals(OfField(v.height), RequiredDimension(resolution, 1))
  }

  /** A stream of exactly the required size matches a requirement `WxH`. */
  lemma ResolutionOfExactSize(w: nat, h: nat)
    ensures !ResolutionDiffers(Stream(None, None, None, Some(w), Some(h), None, None, None, None),
                               NatToString(w) + "x" + NatToString(h))
  {
    var res := NatToString(w) + "x" + NatToString(h);
    assert RequiredDimension(res, 0) == Num(w) && RequiredDimension(res, 1) == Num(h) by {
      SplitOfPair(NatToString(w), NatToString(h), 'x');
      RequiredDimensions(res, NatToString(w), NatToString(h));
      JsNumberOfRendered(w);
      JsNumberOfRendered(h);
    }
    MatchingDimensions(Stream(None, None, None, Some(w), Some(h), None, None, None, None), res, w, h);
  }

  lemma MatchingDimensions(v: Stream, resolution: string, w: int, h: int)
    requires v.width == Some(w) && v.height == Some(h)
    requires RequiredDimension(resolution, 0) == Num(w) && RequiredDimension(resolution, 1) == Num(h)
    ensures !ResolutionDiffers(v, resolution)
  {
  }

  lemma RequiredDimensions(resolution: string, a: string, b: string)
    requires Split(resolution, 'x') == [a, b]
    ensures RequiredDimension(resolution, 0) == OfNumber(JsNumber(a))
    ensures RequiredDimension(resolution, 1) == OfNumber(JsNumber(b))
  {
  }

  /** `Number` reads back a rendered natural number. */
  lemma JsNumberOfRendered(n: nat)
    ensures JsNumber(NatToString(n)) == Some(n)
  {
    ParseNatToString(n);
  }

  /** A requirement without an `x` leaves the height `undefined`, so a stream
      that reports a height can never match it. */
  lemma ResolutionWithoutSeparator(v: Stream, resolution: string)
    requires 'x' !in resolution && v.height.Some?
    ensures ResolutionDiffers(v, resolution)
  {
    SplitWithoutSeparator(resolution, 'x');
  }

  // ---------------------------------------------------------------------
  // Frame rate

  /** The value of `eval(r_frame_rate)`: a finite number, or `Infinity`/`NaN`
      from a zero denominator. */
  datatype Rate = Finite(fps: real) | NonFinite

  /** A decimal integer literal as `eval` reads it (no leading zero, which
      would make it a legacy octal literal). */
  predicate IsDecimalLiteral(s: string) {
    |s| > 0 && AllDigits(s) && (s[0] != '0' || |s| == 1)
  }

  /** `s` reads as `num/den`, the `/` at index `k`, both sides decimal literals. */
  predicate FractionAt(s: string, k: int) {
    0 <= k < |s| && s[k] == '/' && IsDecimalLiteral(s[..k]) && IsDecimalLiteral(s[k + 1..])
  }

  /** JavaScript's `num / den` on integers: `Infinity` or `NaN` when `den` is zero. */
  function Quotient(num: nat, den: nat): Rate {
    if den == 0 then NonFinite else Finite(num as real / den as real)
  }

  /** `eval(r_frame_rate)` for the forms ffprobe prints, `num/den` and `num`;
      any other text is treated as a syntax error. */
  function EvalRate(s: string): (r: Result<Rate, string>)
    // a plain decimal literal evaluates to its value
    ensures IsDecimalLiteral(s) ==> r == Success(Finite(ParseDigits(s) as real))
    // `num/den` evaluates to the quotient, not finite for a zero denominator
    ensures forall k :: FractionAt(s, k) ==> r == Success(Quotient(ParseDigits(s[..k]), ParseDigits(s[k + 1..])))
    // every other text raises
    ensures r.Failure? <==> !IsDecimalLiteral(s) && forall k :: !FractionAt(s, k)
  {
    var parts := Split(s, '/');
    RateForms(s);
    if |parts| == 1 && IsDecimalLiteral(parts[0]) then
      Success(Finite(ParseDigits(parts[0]) as real))
    else if |parts| == 2 && IsDecimalLiteral(parts[0]) && IsDecimalLiteral(parts[1]) then
      Success(Quotient(ParseDigits(parts[0]), ParseDigits(parts[1])))
    else Failure("SyntaxError")
  }

  /** How the split at `/` sees the two accepted forms, and how the forms
      are read back from a split of one or two fields. */
  lemma RateForms(s: string)
    ensures IsDecimalLiteral(s) ==> Split(s, '/') == [s]
    ensures forall k :: FractionAt(s, k) ==> Split(s, '/') == [s[..k], s[k + 1..]]
    ensures |Split(s, '/')| == 1 ==> Split(s, '/')[0] == s
    ensures var parts := Split(s, '/');
            |parts| == 2 && IsDecimalLiteral(parts[0]) && IsDecimalLiteral(parts[1]) ==> FractionAt(s, |parts[0]|)
  {
    var parts := Split(s, '/');
    JoinSplit(s, '/');
    if IsDecimalLiteral(s) {
      assert '/' !in s by { DigitsAvoid(s, '/'); }
      SplitWithoutSeparator(s, '/');
    }
    forall k | FractionAt(s, k)
      ensures Split(s, '/') == [s[..k], s[k + 1..]]
    {
      DigitsAvoid(s[..k], '/');
      DigitsAvoid(s[k + 1..], '/');
      assert s == s[..k] + ['/'] + s[k + 1..];
      SplitOfPair(s[..k], s[k + 1..], '/');
    }
    if |parts| == 2 {
      assert Join(parts, '/') == parts[0] + ['/'] + parts[1] by {
        assert parts[1..] == [parts[1]];
      }
      var k := |parts[0]|;
      assert s[..k] == parts[0] && s[k] == '/' && s[k + 1..] == parts[1];
    }
  }

  /** A string of digits holds no character that is not a digit. */
  lemma DigitsAvoid(s: string, c: char)
    requires AllDigits(s) && !IsDigit(c)
    ensures c !in s
  {
  }

  lemma SplitWithoutSeparatorCount(s: string, sep: char)
    requires |Split(s, sep)| != 1
    ensures sep in s
  {
    if sep !in s {
      SplitWithoutSeparator(s, sep);
    }
  }

  /** `eval` of a rendered `num/den` with a nonzero denominator is their quotient. */
  lemma EvalRateOfFraction(num: nat, den: nat)
    requires den > 0
    ensures EvalRate(NatToString(num) + "/" + NatToString(den)) == Success(Finite(num as real / den as real))
  {
    var a, b := NatToString(num), NatToString(den);
    var s := a + "/" + b;
    assert s[..|a|] == a && s[|a| + 1..] == b;
    assert FractionAt(s, |a|);
    ParseNatToString(num);
    ParseNatToString(den);
  }

  function Abs(x: real): real {
    if x < 0.0 then -x else x
  }

  /** Some required rate lies within 0.1 of the measured one. */
  predicate RateAccepted(fps: Rate, required: seq<real>) {
    fps.Finite? && exists i :: 0 <= i < |required| && Abs(fps.fps - required[i]) < 0.1
  }

  // ---------------------------------------------------------------------
  // Strict check

  /** The individual rules, each returning the warnings it adds (zero or one). */

  function ResolutionRule(v: Stream, req: Requirements): (w: seq<Warning>)
    ensures |w| <= 1 && forall i :: 0 <= i < |w| ==> w[i].ResolutionMismatch?
    ensures w != [] <==> Truthy(req.resolution) && ResolutionDiffers(v, req.resolution.value)
  {
    if Truthy(req.resolution) && ResolutionDiffers(v, req.resolution.value)
    then [ResolutionMismatch(req.resolution.value, v.width, v.height)]
    else []
  }

  function VideoCodecRule(v: Stream, req: Requirements): (w: seq<Warning>)
    ensures |w| <= 1 && forall i :: 0 <= i < |w| ==> w[i].VideoCodecMismatch?
    ensures w != [] <==> req.videoCodec == Some("ProRes") && !(v.codecName.Some? && v.codecName.value in ProResCodecs)
  {
    if req.videoCodec == Some("ProRes") && !(v.codecName.Some? && v.codecName.value in ProResCodecs)
    then [VideoCodecMismatch(v.codecName)]
    else []
  }

  function FrameRateRule(v: Stream, req: Requirements): (w: Result<seq<Warning>, string>)
    ensures w.Failure? <==> req.frameRates.Some? && Truthy(v.rFrameRate) && EvalRate(v.rFrameRate.value).Failure?
    ensures w.Success? ==> |w.value| <= 1 && forall i :: 0 <= i < |w.value| ==> w.value[i].FrameRateMismatch?
    ensures w.Success? ==> (w.value != [] <==> (req.frameRates.Some? && Truthy(v.rFrameRate)
                                               && !RateAccepted(EvalRate(v.rFrameRate.value).value, req.frameRates.value)))
  {
    if req.frameRates.Some? && Truthy(v.rFrameRate) then
      var fps :- EvalRate(v.rFrameRate.value);
      if RateAccepted(fps, req.frameRates.value) then Success([]) else Success([FrameRateMismatch(fps)])
    else Success([])
  }

  const TypeErrorMessage: string := "TypeError: Cannot read properties of undefined (reading 'startsWith')"

  function AudioCodecRule(a: Option<Stream>, req: Requirements): (w: Result<seq<Warning>, string>)
    ensures w.Failure? <==> a.Some? && req.audioCodec == Some("PCM") && a.value.codecName.None?
    ensures w.Success? ==> |w.value| <= 1 && forall i :: 0 <= i < |w.value| ==> w.value[i].AudioCodecMismatch?
    ensures w.Success? ==> (w.value != [] <==> (a.Some? && req.audioCodec == Some("PCM")
                                               && !StartsWith(a.value.codecName.value, "pcm_")))
  {
    if a.Some? && req.audioCodec == Some("PCM") then
      match a.value.codecName
      case None => Failure(TypeErrorMessage)
      case Some(c) => if StartsWith(c, "pcm_") then Success([]) else Success([AudioCodecMismatch(c)])
    else Success([])
  }

  function SampleRateRule(a: Option<Stream>, req: Requirements): (w: seq<Warning>)
    ensures |w| <= 1 && forall i :: 0 <= i < |w| ==> w[i].SampleRateMismatch?
    ensures w != [] <==> a.Some? && req.sampleRate.Some? && req.sampleRate.value != 0
                         && ParsedSampleRate(a.value) != Some(req.sampleRate.value)
  {
    if a.Some? && req.sampleRate.Some? && req.sampleRate.value != 0 && ParsedSampleRate(a.value) != Some(req.sampleRate.value)
    then [SampleRateMismatch(req.sampleRate.value, ParsedSampleRate(a.value))]
    else []
  }

  /** `parseInt(sample_rate)`; `parseInt(undefined)` is `NaN`. */
  function ParsedSampleRate(a: Stream): Option<int> {
    if a.sampleRate.Some? then JsParseInt(a.sampleRate.value) else None
  }

  /** Warnings listed strictly in rule order. */
  predicate InRuleOrder(ws: seq<Warning>) {
    forall i, j :: 0 <= i < j < |ws| ==> Rank(ws[i]) < Rank(ws[j])
  }

  /** The warnings of a file whose video stream is `v` and whose first
      audio stream is `a`: the five rules' outputs in rule order, or the
      error one of them raised. */
  function StrictWarnings(v: Stream, a: Option<Stream>, req: Requirements): (w: Result<seq<Warning>, string>)
    ensures w.Failure? <==> FrameRateRule(v, req).Failure? || AudioCodecRule(a, req).Failure?
    ensures w.Success? ==> InRuleOrder(w.value)
  {
    var fr :- FrameRateRule(v, req);
    var ac :- AudioCodecRule(a, req);
    RuleOrder(ResolutionRule(v, req), VideoCodecRule(v, req), fr, ac, SampleRateRule(a, req));
    Success(ResolutionRule(v, req) + VideoCodecRule(v, req) + fr + ac + SampleRateRule(a, req))
  }

  /** `checkFormat(metadata, requirements)`. A file is invalid only when it
      has no streams or no video stream; a mismatch adds a warning. The
      call raises (a `TypeError`, or `eval`'s `SyntaxError`) as modelled by
      `Failure`. */
  function CheckFormat(m: Metadata, req: Requirements): (r: Result<FormatResult, string>)
    ensures r.Success? ==> r.value.kind.None?
    ensures m.streams.None? || !HasType(m.streams.value, "video")
            ==> r == Success(FormatResult(false, [NoVideoStreamError], [], None))
    ensures m.streams.Some? && HasType(m.streams.value, "video")
            ==> var w := StrictWarnings(FindByType(m.streams.value, "video").value, FindByType(m.streams.value, "audio"), req);
                && (r.Success? <==> w.Success?)
                && (r.Success? ==> r.value.valid && r.value.errors == [] && r.value.warnings == w.value)
  {
    if m.streams.None? || |m.streams.value| == 0 then Success(FormatResult(false, [NoVideoStreamError], [], None))
    else
      var s := m.streams.value;
      match FindByType(s, "video")
      case None => Success(FormatResult(false, [NoVideoStreamError], [], None))
      case Some(v) =>
        var ws :- StrictWarnings(v, FindByType(s, "audio"), req);
        Success(FormatResult(true, [], ws, None))
  }

  /** Five rules of at most one warning each, concatenated in rank order. */
  lemma RuleOrder(w0: seq<Warning>, w1: seq<Warning>, w2: seq<Warning>, w3: seq<Warning>, w4: seq<Warning>)
    requires |w0| <= 1 && forall i :: 0 <= i < |w0| ==> Rank(w0[i]) == 0
    requires |w1| <= 1 && forall i :: 0 <= i < |w1| ==> Rank(w1[i]) == 1
    requires |w2| <= 1 && forall i :: 0 <= i < |w2| ==> Rank(w2[i]) == 2
    requires |w3| <= 1 && forall i :: 0 <= i < |w3| ==> Rank(w3[i]) == 3
    requires |w4| <= 1 && forall i :: 0 <= i < |w4| ==> Rank(w4[i]) == 4
    ensures InRuleOrder(w0 + w1 + w2 + w3 + w4)
  {
    var ws := w0 + w1 + w2 + w3 + w4;
    forall i, j | 0 <= i < j < |ws|
      ensures Rank(ws[i]) < Rank(ws[j])
    {
      RankAt(w0, w1, w2, w3, w4, i);
      RankAt(w0, w1, w2, w3, w4, j);
    }
  }

  /** The rank of an element of the concatenation is the number of its block. */
  lemma RankAt(w0: seq<Warning>, w1: seq<Warning>, w2: seq<Warning>, w3: seq<Warning>, w4: seq<Warning>, i: nat)
    requires forall k :: 0 <= k < |w0| ==> Rank(w0[k]) == 0
    requires forall k :: 0 <= k < |w1| ==> Rank(w1[k]) == 1
    requires forall k :: 0 <= k < |w2| ==> Rank(w2[k]) == 2
    requires forall k :: 0 <= k < |w3| ==> Rank(w3[k]) == 3
    requires forall k :: 0 <= k < |w4| ==> Rank(w4[k]) == 4
    requires i < |w0 + w1 + w2 + w3 + w4|
    ensures Rank((w0 + w1 + w2 + w3 + w4)[i]) == (if i < |w0| then 0
                                                  else if i < |w0| + |w1| then 1
                                                  else if i < |w0| + |w1| + |w2| then 2
                                                  else if i < |w0| + |w1| + |w2| + |w3| then 3
                                                  else 4)
  {
  }

  /** In rule order, the warning at index `i` comes from rule `i` or a later one. */
  lemma {:induction false} RankAtLeastIndex(ws: seq<Warning>, i: nat)
    requires InRuleOrder(ws) && i < |ws|
    ensures Rank(ws[i]) >= i
  {
    if i > 0 {
      RankAtLeastIndex(ws, i - 1);
    }
  }

  /** Warnings in strict rule order are at most one per rule. */
  lemma RuleOrderBound(ws: seq<Warning>)
    requires InRuleOrder(ws)
    ensures |ws| <= 5
  {
    if |ws| > 0 {
      RankAtLeastIndex(ws, |ws| - 1);
    }
  }

  /** A file with a video stream is valid with at most five warnings, one per
      rule, whatever the requirements. */
  lemma WarningsNeverInvalidate(m: Metadata, req: Requirements)
    requires m.streams.Some? && HasType(m.streams.value, "video")
    requires CheckFormat(m, req).Success?
    ensures CheckFormat(m, req).value.valid && CheckFormat(m, req).value.errors == []
    ensures |CheckFormat(m, req).value.warnings| <= 5
  {
    RuleOrderBound(CheckFormat(m, req).value.warnings);
  }

  /** Some warning comes from the rule of rank `k` (0 resolution, 1 video
      codec, 2 frame rate, 3 audio codec, 4 sample rate). */
  predicate Warns(ws: seq<Warning>, k: nat) {
    exists i :: 0 <= i < |ws| && Rank(ws[i]) == k
  }

  /** In the concatenation of the five rule outputs, rule `k` is represented
      exactly when its own output is non-empty. */
  lemma BlockWarns(w0: seq<Warning>, w1: seq<Warning>, w2: seq<Warning>, w3: seq<Warning>, w4: seq<Warning>)
    requires forall k :: 0 <= k < |w0| ==> Rank(w0[k]) == 0
    requires forall k :: 0 <= k < |w1| ==> Rank(w1[k]) == 1
    requires forall k :: 0 <= k < |w2| ==> Rank(w2[k]) == 2
    requires forall k :: 0 <= k < |w3| ==> Rank(w3[k]) == 3
    requires forall k :: 0 <= k < |w4| ==> Rank(w4[k]) == 4
    ensures Warns(w0 + w1 + w2 + w3 + w4, 0) <==> w0 != []
    ensures Warns(w0 + w1 + w2 + w3 + w4, 1) <==> w1 != []
    ensures Warns(w0 + w1 + w2 + w3 + w4, 2) <==> w2 != []
    ensures Warns(w0 + w1 + w2 + w3 + w4, 3) <==> w3 != []
    ensures Warns(w0 + w1 + w2 + w3 + w4, 4) <==> w4 != []
  {
    var ws := w0 + w1 + w2 + w3 + w4;
    forall i | 0 <= i < |ws| {
      RankAt(w0, w1, w2, w3, w4, i);
    }
    if w0 != [] { assert ws[0] == w0[0]; }
    if w1 != [] { assert ws[|w0|] == w1[0]; }
    if w2 != [] { assert ws[|w0| + |w1|] == w2[0]; }
    if w3 != [] { assert ws[|w0| + |w1| + |w2|] == w3[0]; }
    if w4 != [] { assert ws[|w0| + |w1| + |w2| + |w3|] == w4[0]; }
  }

  /** Each warning appears exactly when its rule finds a mismatch. */
  lemma WarningKinds(v: Stream, a: Option<Stream>, req: Requirements)
    requires StrictWarnings(v, a, req).Success?
    ensures var ws := StrictWarnings(v, a, req).value;
            && (Warns(ws, 0) <==> Truthy(req.resolution) && ResolutionDiffers(v, req.resolution.value))
            && (Warns(ws, 1) <==> req.videoCodec == Some("ProRes") && !(v.codecName.Some? && v.codecName.value in ProResCodecs))
            && (Warns(ws, 2) <==> (req.frameRates.Some? && Truthy(v.rFrameRate)
                                   && !RateAccepted(EvalRate(v.rFrameRate.value).value, req.frameRates.value)))
            && (Warns(ws, 3) <==> a.Some? && req.audioCodec == Some("PCM") && !StartsWith(a.value.codecName.value, "pcm_"))
            && (Warns(ws, 4) <==> (a.Some? && req.sampleRate.Some? && req.sampleRate.value != 0
                                   && ParsedSampleRate(a.value) != Some(req.sampleRate.value)))
  {
    BlockWarns(ResolutionRule(v, req), VideoCodecRule(v, req), FrameRateRule(v, req).value,
               AudioCodecRule(a, req).value, SampleRateRule(a, req));
  }

  /** With no requirements (`config.formatCheck || {}`), a file with a video
      stream passes with no warnings. */
  lemma NoRequirementsNoWarnings(m: Metadata)
    requires m.streams.Some? && HasType(m.streams.value, "video")
    ensures CheckFormat(m, NoRequirements) == Success(FormatResult(true, [], [], None))
  {
  }

  /** Under the shipped defaults, a ProRes 1920x1080 picture at a `num/den`
      rate near 24 fps with PCM sound at 48 kHz draws no warning. */
  lemma DefaultsAcceptDeliverable(v: Stream, a: Stream, num: nat, den: nat)
    requires v.codecName.Some? && v.codecName.value in ProResCodecs
    requires v.width == Some(1920) && v.height == Some(1080)
    requires den > 0 && v.rFrameRate == Some(NatToString(num) + "/" + NatToString(den))
    requires Abs(num as real / den as real - 24.0) < 0.1
    requires a.codecName.Some? && StartsWith(a.codecName.value, "pcm_")
    requires a.sampleRate == Some(NatToString(48000))
    ensures StrictWarnings(v, Some(a), DefaultRequirements) == Success([])
  {
    DefaultPictureAccepted(v);
    DefaultRateAccepted(v, num, den);
    DefaultSoundAccepted(a);
    NoRuleWarns(v, Some(a), DefaultRequirements);
  }

  /** A file no rule objects to gets no warnings. */
  lemma NoRuleWarns(v: Stream, a: Option<Stream>, req: Requirements)
    requires ResolutionRule(v, req) == [] && VideoCodecRule(v, req) == []
    requires FrameRateRule(v, req) == Success([]) && AudioCodecRule(a, req) == Success([])
    requires SampleRateRule(a, req) == []
    ensures StrictWarnings(v, a, req) == Success([])
  {
    var none: seq<Warning> := [];
    assert none + none + none + none + none == none;
  }

  lemma DefaultPictureAccepted(v: Stream)
    requires v.codecName.Some? && v.codecName.value in ProResCodecs
    requires v.width == Some(1920) && v.height == Some(1080)
    ensures ResolutionRule(v, DefaultRequirements) == []
    ensures VideoCodecRule(v, DefaultRequirements) == []
  {
    assert NatToString(1920) + "x" + NatToString(1080) == "1920x1080";
    ResolutionOfExactSize(1920, 1080);
    assert RequiredDimension("1920x1080", 0) == Num(1920);
    assert RequiredDimension("1920x1080", 1) == Num(1080);
  }

  lemma DefaultRateAccepted(v: Stream, num: nat, den: nat)
    requires den > 0 && v.rFrameRate == Some(NatToString(num) + "/" + NatToString(den))
    requires Abs(num as real / den as real - 24.0) < 0.1
    ensures FrameRateRule(v, DefaultRequirements) == Success([])
  {
    EvalRateOfFraction(num, den);
    var rates := DefaultRequirements.frameRates.value;
    assert Abs(num as real / den as real - rates[1]) < 0.1;
    assert RateAccepted(Finite(num as real / den as real), rates);
  }

  lemma DefaultSoundAccepted(a: Stream)
    requires a.codecName.Some? && StartsWith(a.codecName.value, "pcm_")
    requires a.sampleRate == Some(NatToString(48000))
    ensures AudioCodecRule(Some(a), DefaultRequirements) == Success([])
    ensures SampleRateRule(Some(a), DefaultRequirements) == []
  {
    JsParseIntOfRendered(48000, "");
    assert NatToString(48000) + "" == NatToString(48000);
  }

  /** A file the strict check accepts is a video file for the basic check. */
  lemma StrictValidIsBasicVideo(m: Metadata, req: Requirements)
    requires CheckFormat(m, req).Success? && CheckFormat(m, req).value.valid
    ensures CheckFormatBasic(m) == FormatResult(true, [], [], Some(Video))
  {
  }

  /** The basic check rejects a file exactly when it has no video, audio or
      image stream, and then the strict check rejects it too. */
  lemma BasicInvalidIsStrictInvalid(m: Metadata, req: Requirements)
    requires !CheckFormatBasic(m).valid
    ensures CheckFormat(m, req) == Success(FormatResult(false, [NoVideoStreamError], [], None))
  {
  }
}
