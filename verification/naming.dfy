/** Archival naming: the DCP-style file name `title_studentId_name` built
    from the submitted fields, and collision resolution against the files
    already present in the archive directory. */
module Naming {
  import opened Wrappers
  import opened Text
  import opened Paths

  // ---------------------------------------------------------------------
  // Field sanitiser

  /** The characters the sanitiser deletes: `/ \ : * ? " < > |`. */
  predicate IsIllegal(c: char) {
    c == '/' || c == '\\' || c == ':' || c == '*' || c == '?' || c == '"' || c == '<' || c == '>' || c == '|'
  }

  predicate NoIllegal(s: string) {
    forall i :: 0 <= i < |s| ==> !IsIllegal(s[i])
  }

  /** What the sanitiser guarantees of a field: no illegal character, no
      whitespace, and no `_` (the separator of the joined name). */
  predicate Clean(s: string) {
    NoIllegal(s) && NoSpace(s) && '_' !in s
  }

  /** `s.replace(/[\/\\:*?"<>|]/g, '')`. */
  function RemoveIllegal(s: string): (r: string)
    ensures NoIllegal(r)
    ensures |r| <= |s|
    ensures forall i :: 0 <= i < |r| ==> r[i] in s
    ensures r == "" <==> forall i :: 0 <= i < |s| ==> IsIllegal(s[i])
    decreases |s|
  {
    if |s| == 0 then ""
    else
      var tail := RemoveIllegal(s[1..]);
      assert forall i :: 0 <= i < |tail| ==> tail[i] in s by {
        forall i | 0 <= i < |tail|
          ensures tail[i] in s
        {
          var j :| 0 <= j < |s[1..]| && s[1..][j] == tail[i];
          assert s[j + 1] == tail[i];
        }
      }
      if IsIllegal(s[0]) then tail else [s[0]] + tail
  }

  /** Deleting illegal characters works piece by piece: what is kept of a
      concatenation is what is kept of each part, in order. */
  lemma {:induction false} RemoveIllegalConcat(a: string, b: string)
    ensures RemoveIllegal(a + b) == RemoveIllegal(a) + RemoveIllegal(b)
    decreases |a|
  {
    if |a| == 0 {
      assert a + b == b;
    } else {
      assert (a + b)[0] == a[0] && (a + b)[1..] == a[1..] + b;
      RemoveIllegalConcat(a[1..], b);
    }
  }

  /** One character is kept exactly when it is legal. */
  lemma RemoveIllegalChar(c: char)
    ensures RemoveIllegal([c]) == if IsIllegal(c) then "" else [c]
  {
    assert [c][1..] == "";
  }

  /** `s.replace(/_/g, '-')`. */
  function DashUnderscores(s: string): string {
    seq(|s|, i requires 0 <= i < |s| => if s[i] == '_' then '-' else s[i])
  }

  /** The sanitiser applied to each field of the archival name: delete the
      illegal characters, turn each whitespace run into `-`, turn `_` into
      `-`, then `trim`. */
  function Sanitize(s: string): (r: string)
    ensures Clean(r)
    ensures |r| <= |s|
  {
    var a := RemoveIllegal(s);
    var b := ReplaceSpaceRuns(a, '-');
    ReplacedStaysLegal(a);
    var c := DashUnderscores(b);
    DashedClean(b);
    TrimWithoutSpace(c);
    Trim(c)
  }

  /** The sanitiser as one left-to-right pass, independent of the regular
      expressions: an illegal character is dropped; whitespace writes one
      `-` for its whole run, a run continuing across dropped characters;
      `_` writes `-`; any other character is kept. `inRun` says that the
      last character not dropped was whitespace. */
  function SanitizeScan(s: string, inRun: bool): string
    decreases |s|
  {
    if |s| == 0 then ""
    else if IsIllegal(s[0]) then SanitizeScan(s[1..], inRun)
    else if IsSpace(s[0]) then (if inRun then "" else "-") + SanitizeScan(s[1..], true)
    else [if s[0] == '_' then '-' else s[0]] + SanitizeScan(s[1..], false)
  }

  /** The sanitiser is the one-pass scan. Its final `trim` finds no
      whitespace left, so a leading or trailing run stays as `-`. */
  lemma SanitizeIsScan(s: string)
    ensures Sanitize(s) == SanitizeScan(s, false)
  {
    var a := RemoveIllegal(s);
    ScanSkipsIllegal(s, false);
    ScanOfLegal(a);
    var c := DashUnderscores(ReplaceSpaceRuns(a, '-'));
    ReplacedStaysLegal(a);
    DashedClean(ReplaceSpaceRuns(a, '-'));
    TrimWithoutSpace(c);
  }

  /** The scan passes over illegal characters as if they were deleted first. */
  lemma {:induction false} ScanSkipsIllegal(s: string, inRun: bool)
    ensures SanitizeScan(s, inRun) == SanitizeScan(RemoveIllegal(s), inRun)
    decreases |s|
  {
    if |s| > 0 {
      ScanSkipsIllegal(s[1..], false);
      ScanSkipsIllegal(s[1..], true);
      if !IsIllegal(s[0]) {
        var r := RemoveIllegal(s);
        assert r == [s[0]] + RemoveIllegal(s[1..]);
        assert r[0] == s[0] && r[1..] == RemoveIllegal(s[1..]);
      }
    }
  }

  /** On legal text the scan is the whitespace replacement followed by the
      underscore replacement; inside a run, the run's rest is skipped. */
  lemma {:induction false} ScanOfLegal(a: string)
    requires NoIllegal(a)
    ensures SanitizeScan(a, false) == DashUnderscores(ReplaceSpaceRuns(a, '-'))
    ensures SanitizeScan(a, true) == DashUnderscores(ReplaceSpaceRuns(DropLeadingSpaces(a), '-'))
    decreases |a|
  {
    if |a| > 0 {
      var t := a[1..];
      assert NoIllegal(t);
      ScanOfLegal(t);
      if IsSpace(a[0]) {
        ScanSpaceHead(a);
      } else {
        ScanWordHead(a);
      }
    }
  }

  /** A whitespace head: the scan writes `-` and enters the run, which the
      replacement also folds into one `-`. */
  lemma ScanSpaceHead(a: string)
    requires |a| > 0 && IsSpace(a[0]) && !IsIllegal(a[0])
    requires SanitizeScan(a[1..], true) == DashUnderscores(ReplaceSpaceRuns(DropLeadingSpaces(a[1..]), '-'))
    ensures SanitizeScan(a, false) == DashUnderscores(ReplaceSpaceRuns(a, '-'))
    ensures SanitizeScan(a, true) == DashUnderscores(ReplaceSpaceRuns(DropLeadingSpaces(a), '-'))
  {
    var rest := DropLeadingSpaces(a[1..]);
    var tail := ReplaceSpaceRuns(rest, '-');
    assert DropLeadingSpaces(a) == rest;
    assert ReplaceSpaceRuns(a, '-') == "-" + tail;
    assert SanitizeScan(a, false) == "-" + SanitizeScan(a[1..], true);
    DashUnderscoresConcat("-", tail);
    assert DashUnderscores("-") == "-";
  }

  /** Any other legal head is written as itself, `_` as `-`, on both sides. */
  lemma ScanWordHead(a: string)
    requires |a| > 0 && !IsSpace(a[0]) && !IsIllegal(a[0])
    requires SanitizeScan(a[1..], false) == DashUnderscores(ReplaceSpaceRuns(a[1..], '-'))
    ensures SanitizeScan(a, false) == DashUnderscores(ReplaceSpaceRuns(a, '-'))
    ensures SanitizeScan(a, true) == DashUnderscores(ReplaceSpaceRuns(DropLeadingSpaces(a), '-'))
  {
    assert DropLeadingSpaces(a) == a;
    assert ReplaceSpaceRuns(a, '-') == [a[0]] + ReplaceSpaceRuns(a[1..], '-');
    DashUnderscoresConcat([a[0]], ReplaceSpaceRuns(a[1..], '-'));
  }

  /** The underscore replacement works character by character. */
  lemma DashUnderscoresConcat(a: string, b: string)
    ensures DashUnderscores(a + b) == DashUnderscores(a) + DashUnderscores(b)
  {
  }

  /** Replacing whitespace runs by `-` brings in no illegal character. */
  lemma ReplacedStaysLegal(a: string)
    requires NoIllegal(a)
    ensures NoIllegal(ReplaceSpaceRuns(a, '-'))
  {
    var b := ReplaceSpaceRuns(a, '-');
    forall i | 0 <= i < |b|
      ensures !IsIllegal(b[i])
    {
      if b[i] != '-' {
        var j :| 0 <= j < |a| && a[j] == b[i];
      }
    }
  }

  /** Turning `_` into `-` in a legal, whitespace-free text makes it clean. */
  lemma DashedClean(b: string)
    requires NoIllegal(b) && NoSpace(b)
    ensures Clean(DashUnderscores(b)) && |DashUnderscores(b)| == |b|
  {
    var c := DashUnderscores(b);
    assert forall i :: 0 <= i < |c| ==> c[i] == '-' || c[i] == b[i];
  }

  lemma {:induction false} RemoveIllegalOfLegal(s: string)
    requires NoIllegal(s)
    ensures RemoveIllegal(s) == s
    decreases |s|
  {
    if |s| > 0 {
      RemoveIllegalOfLegal(s[1..]);
      assert s == [s[0]] + s[1..];
    }
  }

  /** A field is left unchanged by the sanitiser exactly when it is already clean. */
  lemma SanitizeFixedPoint(s: string)
    ensures Sanitize(s) == s <==> Clean(s)
  {
    if Clean(s) {
      RemoveIllegalOfLegal(s);
      ReplaceSpaceRunsWithoutSpace(s, '-');
      assert DashUnderscores(s) == s;
      TrimWithoutSpace(s);
    }
  }

  /** Sanitising twice is sanitising once. */
  lemma SanitizeIdempotent(s: string)
    ensures Sanitize(Sanitize(s)) == Sanitize(s)
  {
    SanitizeFixedPoint(Sanitize(s));
  }

  /** A field becomes empty exactly when every one of its characters is illegal. */
  lemma SanitizeEmptyIff(s: string)
    ensures Sanitize(s) == "" <==> forall i :: 0 <= i < |s| ==> IsIllegal(s[i])
  {
    var a := RemoveIllegal(s);
    var b := ReplaceSpaceRuns(a, '-');
    var c := DashUnderscores(b);
    TrimWithoutSpace(c);
    if |a| > 0 {
      assert |b| > 0;
      assert |c| == |b|;
    }
  }

  // ---------------------------------------------------------------------
  // The archival name

  const MaxNameLength: nat := 200

  /** JavaScript's `s || fallback` on a string: the empty string is falsy. */
  function OrElse(s: string, fallback: string): string {
    if s == "" then fallback else s
  }

  /** The three fields of the name, in order title, student id, name; the
      placeholder replaces a missing field BEFORE sanitising. */
  function DcpFields(studentId: string, name: string, title: string): seq<string> {
    [Sanitize(OrElse(title, "untitled")), Sanitize(OrElse(studentId, "unknown")), Sanitize(OrElse(name, "unknown"))]
  }

  /** `s.substring(0, n)`, which counts UTF-16 code units: the longest
      prefix of at most `n` units. */
  function Truncate(s: string, n: nat): (r: string)
    ensures |r| <= |s| && r == s[..|r|] && Utf16Length(r) <= n
    // nothing more fits: the next character would pass the limit
    ensures |r| < |s| ==> Utf16Length(r) + Units(s[|r|]) > n
    ensures Utf16Length(s) <= n ==> r == s
    decreases |s|
  {
    if |s| == 0 || Units(s[0]) > n then ""
    else
      var t := Truncate(s[1..], n - Units(s[0]));
      var r := [s[0]] + t;
      assert r[1..] == t;
      assert r == s[..|r|];
      r
  }

  /** On text of the Basic Multilingual Plane the cut is at `n` characters. */
  lemma TruncateBmp(s: string, n: nat)
    requires forall i :: 0 <= i < |s| ==> Units(s[i]) == 1
    ensures Truncate(s, n) == if |s| <= n then s else s[..n]
  {
    var r := Truncate(s, n);
    assert forall i :: 0 <= i < |r| ==> Units(r[i]) == 1 by {
      forall i | 0 <= i < |r| ensures Units(r[i]) == 1 { assert r[i] == s[i]; }
    }
    Utf16LengthBounds(r);
    Utf16LengthBounds(s);
    if |s| > n {
      assert |r| == n by {
        if |r| < n { assert Utf16Length(r) + Units(s[|r|]) <= n; }
      }
    }
  }

  /** Beyond the Basic Multilingual Plane each character takes two of the
      `n` units, so half as many characters are kept. */
  lemma TruncateAstral(s: string, n: nat)
    requires forall i :: 0 <= i < |s| ==> Units(s[i]) == 2
    ensures |Truncate(s, n)| == if 2 * |s| <= n then |s| else n / 2
  {
    var r := Truncate(s, n);
    assert forall i :: 0 <= i < |r| ==> r[i] == s[i];
    AllAstral(r);
    AllAstral(s);
  }

  lemma {:induction false} AllAstral(s: string)
    requires forall i :: 0 <= i < |s| ==> Units(s[i]) == 2
    ensures Utf16Length(s) == 2 * |s|
    decreases |s|
  {
    if |s| > 0 {
      assert forall i :: 0 <= i < |s[1..]| ==> s[1..][i] == s[i + 1];
      AllAstral(s[1..]);
    }
  }

  /** Joining fields with `_` adds no illegal character and no whitespace. */
  lemma {:induction false} JoinKeepsLegal(parts: seq<string>)
    requires forall i :: 0 <= i < |parts| ==> NoIllegal(parts[i]) && NoSpace(parts[i])
    ensures NoIllegal(Join(parts, '_')) && NoSpace(Join(parts, '_'))
    decreases |parts|
  {
    if |parts| > 1 {
      JoinKeepsLegal(parts[1..]);
      JoinStepLegal(parts[0], Join(parts[1..], '_'));
    }
  }

  /** Two legal texts joined by `_` are legal. */
  lemma JoinStepLegal(a: string, b: string)
    requires NoIllegal(a) && NoSpace(a) && NoIllegal(b) && NoSpace(b)
    ensures NoIllegal(a + "_" + b) && NoSpace(a + "_" + b)
  {
    forall i | 0 <= i < |a + "_" + b|
      ensures !IsIllegal((a + "_" + b)[i]) && !IsSpace((a + "_" + b)[i])
    {
      if i < |a| {
        assert (a + "_" + b)[i] == a[i];
      } else if i > |a| {
        assert (a + "_" + b)[i] == b[i - |a| - 1];
      }
    }
  }

  /** The joined name of three clean fields has no illegal character and no
      whitespace, exactly two `_`, and splits back into its fields. */
  lemma JoinedCleanFields(parts: seq<string>)
    requires |parts| == 3
    requires forall i :: 0 <= i < 3 ==> Clean(parts[i])
    ensures NoIllegal(Join(parts, '_')) && NoSpace(Join(parts, '_'))
    ensures CountChar(Join(parts, '_'), '_') == 2
    ensures Split(Join(parts, '_'), '_') == parts
  {
    JoinKeepsLegal(parts);
    CountCharJoin(parts, '_');
    SplitJoin(parts, '_');
  }

  lemma TruncatedFacts(s: string, n: nat)
    requires NoIllegal(s) && NoSpace(s)
    ensures NoIllegal(Truncate(s, n)) && NoSpace(Truncate(s, n))
    ensures CountChar(Truncate(s, n), '_') <= CountChar(s, '_')
  {
    CountCharPrefix(s, |Truncate(s, n)|, '_');
  }

  /** `buildDcpFilename`: the sanitised fields joined with `_`, cut to 200
      UTF-16 code units (the extension is appended later, by the caller). */
  function BuildDcpFilename(studentId: string, name: string, title: string): (r: string)
    ensures |r| <= Utf16Length(r) <= MaxNameLength
    ensures NoIllegal(r) && NoSpace(r)
    // a prefix of the joined fields: all of them when they fit, otherwise as
    // much as fits, the next character passing the limit
    ensures var joined := Join(DcpFields(studentId, name, title), '_');
            && StartsWith(joined, r)
            && (Utf16Length(joined) <= MaxNameLength ==> r == joined)
            && (Utf16Length(joined) > MaxNameLength ==>
                  |r| < |joined| && Utf16Length(r) + Units(joined[|r|]) > MaxNameLength)
  {
    var parts := DcpFields(studentId, name, title);
    DcpFieldsLegal(studentId, name, title);
    var joined := Join(parts, '_');
    TruncatedFacts(joined, MaxNameLength);
    TruncatedPrefix(joined, MaxNameLength);
    Truncate(joined, MaxNameLength)
  }

  /** The cut text is a prefix, no longer in characters than in code units;
      a text over the limit loses at least one character. */
  lemma TruncatedPrefix(s: string, n: nat)
    ensures var r := Truncate(s, n);
            && |r| <= Utf16Length(r) <= n && StartsWith(s, r)
            && (Utf16Length(s) > n ==> |r| < |s| && Utf16Length(r) + Units(s[|r|]) > n)
  {
    Utf16LengthBounds(Truncate(s, n));
  }

  /** The joined fields contain no illegal character and no whitespace. */
  lemma DcpFieldsLegal(studentId: string, name: string, title: string)
    ensures NoIllegal(Join(DcpFields(studentId, name, title), '_'))
    ensures NoSpace(Join(DcpFields(studentId, name, title), '_'))
  {
    var t, i, n := Sanitize(OrElse(title, "untitled")), Sanitize(OrElse(studentId, "unknown")), Sanitize(OrElse(name, "unknown"));
    assert DcpFields(studentId, name, title) == [t, i, n];
    JoinThree(t, i, n);
    JoinStepLegal(i, n);
    JoinStepLegal(t, i + "_" + n);
  }

  lemma JoinThree(a: string, b: string, c: string)
    ensures Join([a, b, c], '_') == a + "_" + (b + "_" + c)
  {
    assert [b, c][1..] == [c];
    assert Join([b, c], '_') == b + "_" + c;
    assert [a, b, c][1..] == [b, c];
  }

  /** The name holds at most two `_`, and when the joined fields fit in 200
      code units it splits on `_` back into exactly the sanitised fields. */
  lemma DcpFilenameFields(studentId: string, name: string, title: string)
    ensures CountChar(BuildDcpFilename(studentId, name, title), '_') <= 2
    ensures Utf16Length(Join(DcpFields(studentId, name, title), '_')) <= MaxNameLength ==>
              Split(BuildDcpFilename(studentId, name, title), '_') == DcpFields(studentId, name, title)
  {
    var parts := DcpFields(studentId, name, title);
    JoinedCleanFields(parts);
    TruncatedFacts(Join(parts, '_'), MaxNameLength);
  }

  lemma NoIllegalConcat(x: string, y: string)
    ensures NoIllegal(x + y) <==> NoIllegal(x) && NoIllegal(y)
  {
    if NoIllegal(x) && NoIllegal(y) {
      forall i | 0 <= i < |x + y|
        ensures !IsIllegal((x + y)[i])
      {
        if i >= |x| {
          assert (x + y)[i] == y[i - |x|];
        }
      }
    }
    if NoIllegal(x + y) {
      forall i | 0 <= i < |x|
        ensures !IsIllegal(x[i])
      {
        assert (x + y)[i] == x[i];
      }
      forall i | 0 <= i < |y|
        ensures !IsIllegal(y[i])
      {
        assert (x + y)[|x| + i] == y[i];
      }
    }
  }

  /** A string without `_` is left alone by the underscore replacement. */
  lemma DashUnderscoresWithoutUnderscore(s: string)
    requires '_' !in s
    ensures DashUnderscores(s) == s
  {
  }

  /** Two clean words separated by one space sanitise to the words joined by `-`. */
  lemma SanitizeTwoWords(a: string, b: string)
    requires Clean(a) && Clean(b) && |b| > 0
    ensures Sanitize(a + (" " + b)) == a + ("-" + b)
  {
    var s := a + (" " + b);
    NoIllegalConcat(" ", b);
    NoIllegalConcat(a, " " + b);
    RemoveIllegalOfLegal(s);
    ReplaceSpaceRunsOfTwoWords(a, b, '-');
    var d := a + ("-" + b);
    NoIllegalConcat("-", b);
    NoIllegalConcat(a, "-" + b);
    NoSpaceConcat("-", b);
    NoSpaceConcat(a, "-" + b);
    DashUnderscoresWithoutUnderscore(d);
    TrimWithoutSpace(d);
  }

  /** When the joined fields fit in 200 code units nothing is cut: the name
      is the sanitised title, student id and name joined with `_`. */
  lemma DcpFilenameOfShortFields(studentId: string, name: string, title: string)
    requires Utf16Length(Join(DcpFields(studentId, name, title), '_')) <= MaxNameLength
    ensures BuildDcpFilename(studentId, name, title) ==
              Sanitize(OrElse(title, "untitled")) + "_" + Sanitize(OrElse(studentId, "unknown")) + "_" +
              Sanitize(OrElse(name, "unknown"))
  {
    var fields := DcpFields(studentId, name, title);
    JoinOfThree(fields, fields[0], fields[1], fields[2]);
  }

  lemma JoinOfThree(fields: seq<string>, a: string, b: string, c: string)
    requires fields == [a, b, c]
    ensures Join(fields, '_') == a + "_" + b + "_" + c
  {
    assert [a, b, c][1..] == [b, c];
    assert [b, c][1..] == [c];
    assert Join([b, c], '_') == b + ['_'] + c;
  }

  /** Fields that are already clean and not empty pass through unchanged. */
  lemma DcpFilenameOfCleanFields(studentId: string, name: string, title: string)
    requires Clean(studentId) && Clean(name) && Clean(title)
    requires studentId != "" && name != "" && title != ""
    requires Utf16Length(title + "_" + studentId + "_" + name) <= MaxNameLength
    ensures BuildDcpFilename(studentId, name, title) == title + "_" + studentId + "_" + name
  {
    SanitizeFixedPoint(studentId);
    SanitizeFixedPoint(name);
    SanitizeFixedPoint(title);
    JoinOfThree(DcpFields(studentId, name, title), title, studentId, name);
    DcpFilenameOfShortFields(studentId, name, title);
  }

  /** A missing field is replaced by its placeholder before sanitising. */
  lemma DcpFieldsPlaceholders(studentId: string, name: string, title: string)
    ensures title == "" ==> DcpFields(studentId, name, title)[0] == "untitled"
    ensures studentId == "" ==> DcpFields(studentId, name, title)[1] == "unknown"
    ensures name == "" ==> DcpFields(studentId, name, title)[2] == "unknown"
  {
    MissingField(title);
    MissingField(studentId);
    MissingField(name);
  }

  /** A missing field sanitises to its placeholder, which is already clean. */
  lemma MissingField(s: string)
    ensures s == "" ==> Sanitize(OrElse(s, "untitled")) == "untitled"
    ensures s == "" ==> Sanitize(OrElse(s, "unknown")) == "unknown"
  {
    if s == "" {
      assert OrElse(s, "untitled") == "untitled";
      assert OrElse(s, "unknown") == "unknown";
      assert Clean("untitled") && Clean("unknown");
      SanitizeFixedPoint("untitled");
      SanitizeFixedPoint("unknown");
    }
  }

  /** A title made only of illegal characters is not missing, so it becomes
      the empty field rather than the placeholder. */
  lemma DcpFieldsIllegalTitle(studentId: string, name: string, title: string)
    requires title != "" && forall i :: 0 <= i < |title| ==> IsIllegal(title[i])
    ensures DcpFields(studentId, name, title)[0] == ""
  {
    SanitizeEmptyIff(title);
  }

  /** A title of two clean words separated by one space, such as `Final Cut`,
      becomes the words joined by `-` (`Final-Cut`). */
  lemma DcpFieldsTwoWordTitle(studentId: string, name: string, a: string, b: string)
    requires Clean(a) && Clean(b) && |b| > 0
    ensures DcpFields(studentId, name, a + (" " + b))[0] == a + ("-" + b)
  {
    SanitizeTwoWords(a, b);
  }

  // ---------------------------------------------------------------------
  // Collision resolution

  /** The k-th alternative to `filename`: `base_k` followed by the extension. */
  function Candidate(filename: string, k: nat): string {
    Stem(filename) + "_" + NatToString(k) + ExtName(filename)
  }

  /** `fs.access(path.join(dir, name))` succeeds. */
  predicate Present(dir: string, existing: set<Path>, name: string) {
    PathJoin(dir, name) in existing
  }

  /** What `getUniqueFilename` returns: the name itself when it is free,
      otherwise `base_k+ext` for the least k >= 1 whose path is free. */
  ghost predicate ResolvesTo(dir: string, existing: set<Path>, filename: string, r: string) {
    && !Present(dir, existing, r)
    && (!Present(dir, existing, filename) ==> r == filename)
    && (Present(dir, existing, filename) ==>
          exists k: nat :: 1 <= k && r == Candidate(filename, k) &&
            forall j: nat :: 1 <= j < k ==> Present(dir, existing, Candidate(filename, j)))
  }

  lemma CandidateInjective(filename: string, i: nat, j: nat)
    requires Candidate(filename, i) == Candidate(filename, j)
    ensures i == j
  {
    var b, e := Stem(filename), ExtName(filename);
    var di, dj := NatToString(i), NatToString(j);
    assert |di| == |dj|;
    var ci, cj := Candidate(filename, i), Candidate(filename, j);
    assert ci[|b| + 1..|b| + 1 + |di|] == di;
    assert cj[|b| + 1..|b| + 1 + |dj|] == dj;
    NatToStringInjective(i, j);
  }

  lemma CandidateHasNoSlash(filename: string, k: nat)
    ensures '/' !in Candidate(filename, k)
  {
    var d := NatToString(k);
    assert '/' !in d by {
      forall i | 0 <= i < |d|
        ensures d[i] != '/'
      {
        assert IsDigit(d[i]);
      }
    }
  }

  lemma CandidateIsNotFilename(filename: string, k: nat)
    ensures Candidate(filename, k) != filename
  {
    CandidateHasNoSlash(filename, k);
    if '/' !in filename {
      assert LastComponent(filename) == filename;
      assert |Candidate(filename, k)| > |filename|;
    }
  }

  lemma {:induction false} SubsetCardinality<T>(a: set<T>, b: set<T>)
    requires a <= b
    ensures |a| <= |b|
    decreases |a|
  {
    if a != {} {
      var x :| x in a;
      SubsetCardinality(a - {x}, b - {x});
    }
  }

  /** The k-th name probed: the name itself first, then its candidates. */
  function Probe(filename: string, k: nat): string {
    if k == 0 then filename else Candidate(filename, k)
  }

  /** Distinct probes are distinct names. */
  lemma ProbesDistinct(filename: string, i: nat, j: nat)
    requires Probe(filename, i) == Probe(filename, j)
    ensures i == j
  {
    if i == 0 && j > 0 {
      CandidateIsNotFilename(filename, j);
    } else if i > 0 && j == 0 {
      CandidateIsNotFilename(filename, i);
    } else if i > 0 && j > 0 {
      CandidateInjective(filename, i, j);
    }
  }

  /** The paths of the first n probes. */
  ghost function Probed(probe: nat -> Path, n: nat): set<Path>
    decreases n
  {
    if n == 0 then {} else Probed(probe, n - 1) + {probe(n - 1)}
  }

  lemma {:induction false} ProbedMembers(probe: nat -> Path, n: nat, k: nat)
    requires forall i: nat, j: nat :: probe(i) == probe(j) ==> i == j
    requires probe(k) in Probed(probe, n)
    ensures k < n
    decreases n
  {
    if n > 0 && probe(k) != probe(n - 1) {
      ProbedMembers(probe, n - 1, k);
    }
  }

  lemma {:induction false} ProbedContains(probe: nat -> Path, n: nat, k: nat)
    requires k < n
    ensures probe(k) in Probed(probe, n)
    decreases n
  {
    if k < n - 1 {
      ProbedContains(probe, n - 1, k);
    }
  }

  /** n distinct probes hit n distinct paths. */
  lemma {:induction false} ProbedSize(probe: nat -> Path, n: nat)
    requires forall i: nat, j: nat :: probe(i) == probe(j) ==> i == j
    ensures |Probed(probe, n)| == n
    decreases n
  {
    if n > 0 {
      ProbedSize(probe, n - 1);
      var earlier := Probed(probe, n - 1);
      assert probe(n - 1) !in earlier by {
        if probe(n - 1) in earlier {
          ProbedMembers(probe, n - 1, n - 1);
        }
      }
    }
  }

  /** The path of the k-th probe. */
  function ProbePaths(dir: string, filename: string): nat -> Path {
    (k: nat) => PathJoin(dir, Probe(filename, k))
  }

  lemma ProbePathsInjective(dir: string, filename: string)
    ensures forall i: nat, j: nat :: ProbePaths(dir, filename)(i) == ProbePaths(dir, filename)(j) ==> i == j
  {
    forall i: nat, j: nat | ProbePaths(dir, filename)(i) == ProbePaths(dir, filename)(j)
      ensures i == j
    {
      if j != 0 {
        ProbeEntry(dir, filename, i, j);
      } else if i != 0 {
        ProbeEntry(dir, filename, j, i);
      }
    }
  }

  /** A probe that joins to the same path as a candidate is that candidate. */
  lemma ProbeEntry(dir: string, filename: string, i: nat, j: nat)
    requires j != 0 && PathJoin(dir, Probe(filename, i)) == PathJoin(dir, Probe(filename, j))
    ensures i == j
  {
    CandidateNamesEntry(filename, j);
    PathJoinInjective(dir, Probe(filename, i), Probe(filename, j));
    ProbesDistinct(filename, i, j);
  }

  /** A candidate has at least two characters (`_` and a digit), so it never
      denotes the directory itself. */
  lemma CandidateNamesEntry(filename: string, k: nat)
    ensures !NamesDir(Candidate(filename, k))
  {
    var n := NatToString(k);
    assert |n| >= 1;
    assert |Candidate(filename, k)| >= 2;
  }

  /** `getUniqueFilename`: probes `filename`, then `base_1+ext`, `base_2+ext`,
      ... until a free name is found; probe k is `base_k+ext`, k being the
      value of its `counter`. Distinct probes are distinct paths, so at most
      |existing| + 1 probes are made. */
  method UniqueFilename(dir: string, existing: set<Path>, filename: string) returns (r: string)
    ensures ResolvesTo(dir, existing, filename, r)
    ensures Present(dir, existing, filename) ==>
              exists k: nat :: 1 <= k <= |existing| && r == Candidate(filename, k)
    ensures '/' in r ==> r == filename
  {
    var k: nat := 0;
    while Present(dir, existing, Probe(filename, k))
      invariant Probed(ProbePaths(dir, filename), k) <= existing
      decreases |existing| - k
    {
      ProbeTaken(dir, existing, filename, k);
      k := k + 1;
    }
    r := Probe(filename, k);
    ProbesResolve(dir, existing, filename, k);
  }

  /** When the first n probes are taken and so is probe n, the first n + 1
      are taken, and n + 1 is at most the number of existing paths. */
  lemma ProbeTaken(dir: string, existing: set<Path>, filename: string, n: nat)
    requires Probed(ProbePaths(dir, filename), n) <= existing
    requires Present(dir, existing, Probe(filename, n))
    ensures Probed(ProbePaths(dir, filename), n + 1) <= existing
    ensures n + 1 <= |existing|
  {
    var probe := ProbePaths(dir, filename);
    assert probe(n) in existing;
    ProbePathsInjective(dir, filename);
    ProbedGrows(probe, n, existing);
  }

  /** Taken probes of an injective probe sequence fit in the taken set. */
  lemma ProbedGrows(probe: nat -> Path, n: nat, existing: set<Path>)
    requires forall i: nat, j: nat :: probe(i) == probe(j) ==> i == j
    requires Probed(probe, n) <= existing && probe(n) in existing
    ensures Probed(probe, n + 1) <= existing
    ensures n + 1 <= |existing|
  {
    ProbedSize(probe, n + 1);
    SubsetCardinality(Probed(probe, n + 1), existing);
  }

  /** When the first n probes are taken and probe n is free, probe n is the
      answer, and n is at most the number of existing paths. */
  lemma ProbesResolve(dir: string, existing: set<Path>, filename: string, n: nat)
    requires Probed(ProbePaths(dir, filename), n) <= existing
    requires !Present(dir, existing, Probe(filename, n))
    ensures ResolvesTo(dir, existing, filename, Probe(filename, n))
    ensures n <= |existing|
    ensures n > 0 ==> '/' !in Probe(filename, n)
    ensures Present(dir, existing, filename) ==>
              exists k: nat :: 1 <= k <= |existing| && Probe(filename, n) == Candidate(filename, k)
  {
    ProbePathsInjective(dir, filename);
    ProbedSize(ProbePaths(dir, filename), n);
    SubsetCardinality(Probed(ProbePaths(dir, filename), n), existing);
    if n > 0 {
      ProbedContains(ProbePaths(dir, filename), n, 0);
      CandidateHasNoSlash(filename, n);
      assert forall j: nat :: 1 <= j < n ==> Present(dir, existing, Candidate(filename, j)) by {
        forall j: nat | 1 <= j < n
          ensures Present(dir, existing, Candidate(filename, j))
        {
          ProbedContains(ProbePaths(dir, filename), n, j);
        }
      }
    }
  }

  /** The characterisation admits exactly one answer. */
  lemma ResolvesToUnique(dir: string, existing: set<Path>, filename: string, r1: string, r2: string)
    requires ResolvesTo(dir, existing, filename, r1)
    requires ResolvesTo(dir, existing, filename, r2)
    ensures r1 == r2
  {
    if Present(dir, existing, filename) {
      var k1: nat :| 1 <= k1 && r1 == Candidate(filename, k1) &&
        forall j: nat :: 1 <= j < k1 ==> Present(dir, existing, Candidate(filename, j));
      var k2: nat :| 1 <= k2 && r2 == Candidate(filename, k2) &&
        forall j: nat :: 1 <= j < k2 ==> Present(dir, existing, Candidate(filename, j));
      LeastFreeCandidate(dir, existing, filename, k1, k2);
    }
  }

  /** Two least free candidates are one. */
  lemma LeastFreeCandidate(dir: string, existing: set<Path>, filename: string, k1: nat, k2: nat)
    requires 1 <= k1 && !Present(dir, existing, Candidate(filename, k1))
    requires 1 <= k2 && !Present(dir, existing, Candidate(filename, k2))
    requires forall j: nat :: 1 <= j < k1 ==> Present(dir, existing, Candidate(filename, j))
    requires forall j: nat :: 1 <= j < k2 ==> Present(dir, existing, Candidate(filename, j))
    ensures k1 == k2
  {
    if k1 < k2 {
      assert false;
    } else if k2 < k1 {
      assert false;
    }
  }

  /** For a plain name `stem.tail` the k-th candidate is `stem_k.tail`; so
      `title_sid_name.mov` is followed by `title_sid_name_1.mov`. */
  lemma CandidateOfPlainName(stem: string, tail: string, k: nat)
    requires stem != "" && '.' !in stem && '/' !in stem
    requires '.' !in tail && '/' !in tail
    ensures Candidate(stem + "." + tail, k) == stem + "_" + NatToString(k) + "." + tail
  {
    ExtNameOfPlainName(stem, tail);
    StemOfPlainName(stem, tail);
  }
}
