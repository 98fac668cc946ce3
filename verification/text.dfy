/** JavaScript string semantics the program relies on: the `\s` class and
    `trim`, `includes`, `split` on one character or on whitespace runs,
    `join`, decimal rendering of numbers, `parseInt` and `Number` on
    decimal text. A Dafny `char` is one Unicode scalar value; where
    JavaScript counts UTF-16 code units instead, `Units` and `Utf16Length`
    say how many. */
module Text {
  import opened Wrappers

  // ---------------------------------------------------------------------
  // UTF-16 length

  /** The UTF-16 code units JavaScript stores for a character: two (a
      surrogate pair) beyond the Basic Multilingual Plane, one otherwise. */
  function Units(c: char): (n: nat)
    ensures n == 1 || n == 2
    ensures n == 2 <==> c as int > 0xFFFF
  {
    if c as int > 0xFFFF then 2 else 1
  }

  /** `s.length` in JavaScript. */
  function Utf16Length(s: string): nat
    decreases |s|
  {
    if |s| == 0 then 0 else Units(s[0]) + Utf16Length(s[1..])
  }

  /** A text is at least as long in code units as in characters, and no
      longer than twice that; exactly as long when it stays in the Basic
      Multilingual Plane. */
  lemma {:induction false} Utf16LengthBounds(s: string)
    ensures |s| <= Utf16Length(s) <= 2 * |s|
    ensures (forall i :: 0 <= i < |s| ==> Units(s[i]) == 1) ==> Utf16Length(s) == |s|
    decreases |s|
  {
    if |s| > 0 {
      Utf16LengthBounds(s[1..]);
      assert forall i :: 0 <= i < |s[1..]| ==> s[1..][i] == s[i + 1];
    }
  }

  /** Code units add up over a concatenation. */
  lemma {:induction false} Utf16LengthConcat(a: string, b: string)
    ensures Utf16Length(a + b) == Utf16Length(a) + Utf16Length(b)
    decreases |a|
  {
    if |a| > 0 {
      assert (a + b)[1..] == a[1..] + b;
      Utf16LengthConcat(a[1..], b);
    } else {
      assert a + b == b;
    }
  }

  // ---------------------------------------------------------------------
  // Whitespace

  /** The characters of the JavaScript `\s` class; `String.prototype.trim`
      strips exactly the same set. */
  predicate IsSpace(c: char) {
    || c == ' ' || c == '\t' || c == '\n' || c == '\U{000B}' || c == '\U{000C}' || c == '\r'
    || c == '\U{00A0}' || c == '\U{1680}' || ('\U{2000}' <= c <= '\U{200A}')
    || c == '\U{2028}' || c == '\U{2029}' || c == '\U{202F}' || c == '\U{205F}'
    || c == '\U{3000}' || c == '\U{FEFF}'
  }

  predicate NoSpace(s: string) {
    forall i :: 0 <= i < |s| ==> !IsSpace(s[i])
  }

  /** `s` without its leading whitespace. */
  function DropLeadingSpaces(s: string): (r: string)
    ensures |r| <= |s| && r == s[|s| - |r|..]
    ensures |r| > 0 ==> !IsSpace(r[0])
    ensures |s| > 0 && IsSpace(s[0]) ==> |r| < |s|
    ensures forall i :: 0 <= i < |s| - |r| ==> IsSpace(s[i])
    decreases |s|
  {
    if |s| > 0 && IsSpace(s[0]) then
      var r := DropLeadingSpaces(s[1..]);
      DroppedSpacePrefix(s, r);
      r
    else s
  }

  /** Dropping one more leading space keeps the dropped part all whitespace. */
  lemma DroppedSpacePrefix(s: string, r: string)
    requires |s| > 0 && IsSpace(s[0])
    requires |r| <= |s| - 1 && r == s[1..][|s| - 1 - |r|..]
    requires forall i :: 0 <= i < |s| - 1 - |r| ==> IsSpace(s[1..][i])
    ensures r == s[|s| - |r|..]
    ensures forall i :: 0 <= i < |s| - |r| ==> IsSpace(s[i])
  {
    forall i | 0 <= i < |s| - |r|
      ensures IsSpace(s[i])
    {
      if i > 0 {
        assert s[i] == s[1..][i - 1];
      }
    }
  }

  /** `s` without its trailing whitespace. */
  function DropTrailingSpaces(s: string): (r: string)
    ensures |r| <= |s| && r == s[..|r|]
    ensures |r| > 0 ==> !IsSpace(r[|r| - 1])
    ensures forall i :: |r| <= i < |s| ==> IsSpace(s[i])
    decreases |s|
  {
    if |s| > 0 && IsSpace(s[|s| - 1]) then DropTrailingSpaces(s[..|s| - 1]) else s
  }

  lemma NoSpaceConcat(x: string, y: string)
    ensures NoSpace(x + y) <==> NoSpace(x) && NoSpace(y)
  {
    if NoSpace(x) && NoSpace(y) {
      forall i | 0 <= i < |x + y|
        ensures !IsSpace((x + y)[i])
      {
        if i >= |x| {
          assert (x + y)[i] == y[i - |x|];
        }
      }
    }
    if NoSpace(x + y) {
      forall i | 0 <= i < |x|
        ensures !IsSpace(x[i])
      {
        assert (x + y)[i] == x[i];
      }
      forall i | 0 <= i < |y|
        ensures !IsSpace(y[i])
      {
        assert (x + y)[|x| + i] == y[i];
      }
    }
  }

  /** `t` is the part of `s` from `i` on, with only whitespace cut before
      and after it. */
  predicate CutFrom(s: string, t: string, i: int) {
    && 0 <= i <= |s| - |t| && t == s[i..i + |t|]
    && (forall k :: 0 <= k < i ==> IsSpace(s[k]))
    && (forall k :: i + |t| <= k < |s| ==> IsSpace(s[k]))
  }

  /** `String.prototype.trim`: neither end of the result is whitespace
      (and `TrimIsCut`: it is what remains of `s` once the whitespace at
      either end is cut away). */
  function Trim(s: string): (t: string)
    ensures |t| <= |s|
    ensures |t| > 0 ==> !IsSpace(t[0]) && !IsSpace(t[|t| - 1])
  {
    DropTrailingSpaces(DropLeadingSpaces(s))
  }

  /** `trim` keeps a middle part of `s` and cuts only whitespace. */
  lemma TrimIsCut(s: string)
    ensures exists i :: CutFrom(s, Trim(s), i)
  {
    var a := DropLeadingSpaces(s);
    TrimCut(s, a, DropTrailingSpaces(a));
    assert CutFrom(s, Trim(s), |s| - |a|);
  }

  /** Cutting the leading, then the trailing whitespace leaves a middle part. */
  lemma TrimCut(s: string, a: string, t: string)
    requires |a| <= |s| && a == s[|s| - |a|..] && forall k :: 0 <= k < |s| - |a| ==> IsSpace(s[k])
    requires |t| <= |a| && t == a[..|t|] && forall j :: |t| <= j < |a| ==> IsSpace(a[j])
    ensures CutFrom(s, t, |s| - |a|)
  {
    var i := |s| - |a|;
    assert s[i..][..|t|] == s[i..i + |t|];
    forall k | i + |t| <= k < |s|
      ensures IsSpace(s[k])
    {
      assert s[k] == a[k - i];
    }
  }

  /** `s.replace(/\s+/g, c)`: every maximal run of whitespace becomes one `c`. */
  function ReplaceSpaceRuns(s: string, c: char): (r: string)
    requires !IsSpace(c)
    ensures NoSpace(r)
    ensures |r| <= |s|
    ensures forall i :: 0 <= i < |r| ==> r[i] == c || r[i] in s
    decreases |s|
  {
    if |s| == 0 then ""
    else if IsSpace(s[0]) then
      var rest := DropLeadingSpaces(s);
      var tail := ReplaceSpaceRuns(rest, c);
      assert forall i :: 0 <= i < |tail| ==> tail[i] == c || tail[i] in s by {
        forall i | 0 <= i < |tail| && tail[i] != c
          ensures tail[i] in s
        {
          var j :| 0 <= j < |rest| && rest[j] == tail[i];
          assert s[|s| - |rest| + j] == rest[j];
        }
      }
      [c] + tail
    else
      var tail := ReplaceSpaceRuns(s[1..], c);
      assert forall i :: 0 <= i < |tail| ==> tail[i] == c || tail[i] in s by {
        forall i | 0 <= i < |tail| && tail[i] != c
          ensures tail[i] in s
        {
          var j :| 0 <= j < |s[1..]| && s[1..][j] == tail[i];
          assert s[j + 1] == tail[i];
        }
      }
      [s[0]] + tail
  }

  /** A string without whitespace is left alone by `trim`. */
  lemma TrimWithoutSpace(s: string)
    requires NoSpace(s)
    ensures Trim(s) == s
  {
  }

  /** A string without whitespace is left alone by the run replacement. */
  lemma {:induction false} ReplaceSpaceRunsWithoutSpace(s: string, c: char)
    requires !IsSpace(c)
    requires NoSpace(s)
    ensures ReplaceSpaceRuns(s, c) == s
    decreases |s|
  {
    if |s| > 0 {
      assert !IsSpace(s[0]);
      ReplaceSpaceRunsWithoutSpace(s[1..], c);
      assert s == [s[0]] + s[1..];
    }
  }

  /** A whitespace-free prefix passes through the run replacement unchanged. */
  lemma {:induction false} ReplaceSpaceRunsAfterWord(a: string, t: string, c: char)
    requires !IsSpace(c)
    requires NoSpace(a)
    ensures ReplaceSpaceRuns(a + t, c) == a + ReplaceSpaceRuns(t, c)
    decreases |a|
  {
    if |a| > 0 {
      var s := a + t;
      assert ReplaceSpaceRuns(s, c) == [a[0]] + ReplaceSpaceRuns(a[1..] + t, c) by {
        assert s[0] == a[0] && !IsSpace(s[0]);
        assert s[1..] == a[1..] + t;
      }
      ReplaceSpaceRunsAfterWord(a[1..], t, c);
      assert [a[0]] + (a[1..] + ReplaceSpaceRuns(t, c)) == a + ReplaceSpaceRuns(t, c) by {
        assert a == [a[0]] + a[1..];
      }
    } else {
      assert a + t == t;
    }
  }

  /** A single leading space before a word becomes one `c`. */
  lemma ReplaceSpaceBeforeWord(b: string, c: char)
    requires !IsSpace(c)
    requires NoSpace(b) && |b| > 0
    ensures ReplaceSpaceRuns(" " + b, c) == [c] + b
  {
    var t := " " + b;
    assert t[1..] == b;
    assert DropLeadingSpaces(b) == b;
    assert DropLeadingSpaces(t) == b;
    ReplaceSpaceRunsWithoutSpace(b, c);
  }

  /** One space between two words becomes one `c`. */
  lemma ReplaceSpaceRunsOfTwoWords(a: string, b: string, c: char)
    requires !IsSpace(c)
    requires NoSpace(a) && NoSpace(b) && |b| > 0
    ensures ReplaceSpaceRuns(a + (" " + b), c) == a + ([c] + b)
  {
    ReplaceSpaceBeforeWord(b, c);
    ReplaceSpaceRunsAfterWord(a, " " + b, c);
  }

  /** `s.split(/\s+/)`: the tokens between maximal whitespace runs; a leading
      (trailing) run yields an empty first (last) token. */
  function SplitOnSpaceRuns(s: string): (tokens: seq<string>)
    ensures |tokens| >= 1
    ensures forall i :: 0 <= i < |tokens| ==> NoSpace(tokens[i])
    // text without whitespace is one token
    ensures NoSpace(s) ==> tokens == [s]
  {
    assert NoSpace(s) ==> TokensFrom(s, "") == [s] by {
      if NoSpace(s) {
        TokensAfterWord(s, "", "");
        assert s + "" == s && "" + s == s;
      }
    }
    TokensFrom(s, "")
  }

  function TokensFrom(s: string, current: string): (tokens: seq<string>)
    requires NoSpace(current)
    ensures |tokens| >= 1
    ensures forall i :: 0 <= i < |tokens| ==> NoSpace(tokens[i])
    decreases |s|
  {
    if |s| == 0 then [current]
    else if IsSpace(s[0]) then [current] + TokensFrom(DropLeadingSpaces(s), "")
    else TokensFrom(s[1..], current + [s[0]])
  }

  /** Text that neither starts nor ends with whitespace is its own `trim`. */
  lemma TrimOfUnpadded(s: string)
    requires |s| > 0 && !IsSpace(s[0]) && !IsSpace(s[|s| - 1])
    ensures Trim(s) == s
  {
    assert DropLeadingSpaces(s) == s;
  }

  /** `trim` removes one final newline from otherwise unpadded text. */
  lemma TrimFinalNewline(s: string)
    requires |s| > 0 && !IsSpace(s[0]) && !IsSpace(s[|s| - 1])
    ensures Trim(s + "\n") == s
  {
    var t := s + "\n";
    assert DropLeadingSpaces(t) == t;
    assert t[..|t| - 1] == s;
    assert DropTrailingSpaces(t) == DropTrailingSpaces(s);
    assert DropTrailingSpaces(s) == s;
  }

  /** A word without whitespace extends the token being read. */
  lemma {:induction false} TokensAfterWord(w: string, t: string, current: string)
    requires NoSpace(w) && NoSpace(current)
    ensures NoSpace(current + w)
    ensures TokensFrom(w + t, current) == TokensFrom(t, current + w)
    decreases |w|
  {
    NoSpaceConcat(current, w);
    if |w| > 0 {
      assert (w + t)[1..] == w[1..] + t;
      assert NoSpace(current + [w[0]]) by { NoSpaceConcat(current, [w[0]]); }
      TokensAfterWord(w[1..], t, current + [w[0]]);
      assert current + [w[0]] + w[1..] == current + w;
    } else {
      assert w + t == t;
      assert current + w == current;
    }
  }

  /** A single space ends the token being read. */
  lemma TokensAfterSpace(rest: string, current: string)
    requires |rest| > 0 && !IsSpace(rest[0]) && NoSpace(current)
    ensures TokensFrom(" " + rest, current) == [current] + TokensFrom(rest, "")
  {
    assert (" " + rest)[1..] == rest;
    assert DropLeadingSpaces(" " + rest) == rest;
  }

  /** `s.split(/\s+/)` of words joined by single spaces gives the words back. */
  lemma {:induction false} TokensOfSpacedWords(words: seq<string>)
    requires |words| >= 1
    requires forall i :: 0 <= i < |words| ==> |words[i]| > 0 && NoSpace(words[i])
    ensures SplitOnSpaceRuns(Join(words, ' ')) == words
    decreases |words|
  {
    if |words| == 1 {
      TokensAfterWord(words[0], "", "");
      assert words[0] + "" == words[0];
      assert "" + words[0] == words[0];
    } else {
      var rest := Join(words[1..], ' ');
      TokensOfSpacedWords(words[1..]);
      JoinStartsWithFirst(words[1..], ' ');
      TokensAfterWord(words[0], " " + rest, "");
      assert words[0] + [' '] + rest == words[0] + (" " + rest);
      assert "" + words[0] == words[0];
      TokensAfterSpace(rest, words[0]);
      assert [words[0]] + words[1..] == words;
    }
  }

  /** A join starts with the first part. */
  lemma JoinStartsWithFirst(parts: seq<string>, sep: char)
    requires |parts| >= 1 && |parts[0]| > 0
    ensures |Join(parts, sep)| > 0 && Join(parts, sep)[0] == parts[0][0]
  {
  }

  // ---------------------------------------------------------------------
  // Substrings

  predicate StartsWith(s: string, prefix: string) {
    |prefix| <= |s| && s[..|prefix|] == prefix
  }

  predicate EndsWith(s: string, suffix: string) {
    |suffix| <= |s| && s[|s| - |suffix|..] == suffix
  }

  /** `t` occurs in `s` starting at index `i`. */
  predicate OccursAt(s: string, t: string, i: int) {
    0 <= i && i + |t| <= |s| && s[i..i + |t|] == t
  }

  /** `s.includes(t)`. */
  predicate Contains(s: string, t: string)
    decreases |s|
  {
    StartsWith(s, t) || (|s| > 0 && Contains(s[1..], t))
  }

  /** `Contains` holds exactly when some index is an occurrence. */
  lemma {:induction false} ContainsIff(s: string, t: string)
    ensures Contains(s, t) <==> exists i :: OccursAt(s, t, i)
    decreases |s|
  {
    if StartsWith(s, t) {
      assert OccursAt(s, t, 0);
    } else if |s| > 0 && Contains(s[1..], t) {
      ContainsIff(s[1..], t);
      var i :| OccursAt(s[1..], t, i);
      assert s[i + 1..i + 1 + |t|] == s[1..][i..i + |t|];
      assert OccursAt(s, t, i + 1);
    }
    if exists i :: OccursAt(s, t, i) {
      var i :| OccursAt(s, t, i);
      if i == 0 {
        assert StartsWith(s, t);
      } else {
        assert s[1..][i - 1..i - 1 + |t|] == s[i..i + |t|];
        assert OccursAt(s[1..], t, i - 1);
        ContainsIff(s[1..], t);
      }
    }
  }

  /** A concatenation contains its middle part. */
  lemma ContainsMiddle(a: string, b: string, c: string)
    ensures Contains(a + b + c, b)
  {
    var s := a + b + c;
    assert s[|a|..|a| + |b|] == b;
    assert OccursAt(s, b, |a|);
    ContainsIff(s, b);
  }

  /** Searching for a one-character string is membership. */
  lemma ContainsChar(s: string, c: char)
    ensures Contains(s, [c]) <==> c in s
  {
    ContainsIff(s, [c]);
    if c in s {
      var i :| 0 <= i < |s| && s[i] == c;
      assert s[i..i + 1] == [c];
      assert OccursAt(s, [c], i);
    }
    if exists i :: OccursAt(s, [c], i) {
      var i :| OccursAt(s, [c], i);
      assert s[i] == s[i..i + 1][0];
    }
  }

  // ---------------------------------------------------------------------
  // Splitting and joining on one character

  /** `s.split(sep)` for a one-character separator: empty fields are kept. */
  function Split(s: string, sep: char): (parts: seq<string>)
    ensures |parts| >= 1
    ensures forall i :: 0 <= i < |parts| ==> sep !in parts[i]
    decreases |s|
  {
    if |s| == 0 then [""]
    else
      var rest := Split(s[1..], sep);
      if s[0] == sep then [""] + rest
      else [[s[0]] + rest[0]] + rest[1..]
  }

  /** `parts.join(sep)`. */
  function Join(parts: seq<string>, sep: char): string
    decreases |parts|
  {
    if |parts| == 0 then ""
    else if |parts| == 1 then parts[0]
    else parts[0] + [sep] + Join(parts[1..], sep)
  }

  lemma {:induction false} SplitWithoutSeparator(s: string, sep: char)
    requires sep !in s
    ensures Split(s, sep) == [s]
    decreases |s|
  {
    if |s| > 0 {
      SplitWithoutSeparator(s[1..], sep);
      assert s == [s[0]] + s[1..];
    }
  }

  lemma {:induction false} SplitAfterField(a: string, rest: string, sep: char)
    requires sep !in a
    ensures Split(a + [sep] + rest, sep) == [a] + Split(rest, sep)
    decreases |a|
  {
    var s := a + [sep] + rest;
    if |a| == 0 {
      assert s[1..] == rest;
    } else {
      assert s[1..] == a[1..] + [sep] + rest;
      SplitAfterField(a[1..], rest, sep);
      assert [a[0]] + a[1..] == a;
    }
  }

  /** Splitting `a` + separator + `b` gives the two fields back. */
  lemma SplitOfPair(a: string, b: string, sep: char)
    requires sep !in a && sep !in b
    ensures Split(a + [sep] + b, sep) == [a, b]
  {
    SplitAfterField(a, b, sep);
    SplitWithoutSeparator(b, sep);
  }

  /** Splitting a join recovers the fields when no field holds the separator. */
  lemma {:induction false} SplitJoin(parts: seq<string>, sep: char)
    requires |parts| >= 1
    requires forall i :: 0 <= i < |parts| ==> sep !in parts[i]
    ensures Split(Join(parts, sep), sep) == parts
    decreases |parts|
  {
    if |parts| == 1 {
      SplitWithoutSeparator(parts[0], sep);
    } else {
      SplitJoin(parts[1..], sep);
      SplitAfterField(parts[0], Join(parts[1..], sep), sep);
      assert [parts[0]] + parts[1..] == parts;
    }
  }

  /** Joining a split gives back the string. */
  lemma {:induction false} JoinSplit(s: string, sep: char)
    ensures Join(Split(s, sep), sep) == s
    decreases |s|
  {
    if |s| > 0 {
      JoinSplit(s[1..], sep);
      var rest := Split(s[1..], sep);
      if s[0] == sep {
        assert ([""] + rest)[1..] == rest;
      } else {
        var parts := [[s[0]] + rest[0]] + rest[1..];
        assert parts[1..] == rest[1..];
        if |rest| > 1 {
          assert Join(rest, sep) == rest[0] + [sep] + Join(rest[1..], sep);
        }
      }
    }
  }

  /** Number of occurrences of `c` in `s`. */
  function CountChar(s: string, c: char): nat
    decreases |s|
  {
    if |s| == 0 then 0 else (if s[0] == c then 1 else 0) + CountChar(s[1..], c)
  }

  lemma {:induction false} CountCharAppend(a: string, b: string, c: char)
    ensures CountChar(a + b, c) == CountChar(a, c) + CountChar(b, c)
    decreases |a|
  {
    if |a| > 0 {
      assert (a + b)[0] == a[0];
      assert (a + b)[1..] == a[1..] + b;
      CountCharAppend(a[1..], b, c);
      assert CountChar(a + b, c) == (if a[0] == c then 1 else 0) + CountChar(a[1..] + b, c);
    } else {
      assert a + b == b;
    }
  }

  lemma {:induction false} CountCharAbsent(s: string, c: char)
    requires c !in s
    ensures CountChar(s, c) == 0
    decreases |s|
  {
    if |s| > 0 {
      CountCharAbsent(s[1..], c);
    }
  }

  lemma {:induction false} CountCharPrefix(s: string, n: nat, c: char)
    requires n <= |s|
    ensures CountChar(s[..n], c) <= CountChar(s, c)
  {
    assert s == s[..n] + s[n..];
    CountCharAppend(s[..n], s[n..], c);
  }

  /** A join splits at any inner separator into the joins of both sides. */
  lemma {:induction false} JoinUnfold(parts: seq<string>, sep: char, k: nat)
    requires 1 <= k < |parts|
    ensures Join(parts, sep) == Join(parts[..k], sep) + [sep] + Join(parts[k..], sep)
    decreases k
  {
    if k > 1 {
      JoinUnfold(parts[1..], sep, k - 1);
      assert parts[..k][1..] == parts[1..][..k - 1];
      assert parts[1..][k - 1..] == parts[k..];
    }
  }

  /** A part that holds a separator joins like the two parts either side of it. */
  lemma {:induction false} JoinSplitsPart(pre: seq<string>, x: string, y: string, post: seq<string>, sep: char)
    requires |post| >= 1
    ensures Join(pre + [x + [sep] + y] + post, sep) == Join(pre + [x, y] + post, sep)
    decreases |pre|
  {
    var a, b := pre + [x + [sep] + y] + post, pre + [x, y] + post;
    if |pre| == 0 {
      assert a == [x + [sep] + y] + post && a[1..] == post;
      assert b == [x, y] + post && b[1..] == [y] + post && b[1..][1..] == post;
      assert Join(b, sep) == x + [sep] + (y + [sep] + Join(post, sep));
    } else {
      JoinSplitsPart(pre[1..], x, y, post, sep);
      assert a[1..] == pre[1..] + [x + [sep] + y] + post;
      assert b[1..] == pre[1..] + [x, y] + post;
    }
  }

  /** A character in no part, other than the separator, is not in the join. */
  lemma {:induction false} JoinAvoids(parts: seq<string>, sep: char, c: char)
    requires c != sep
    requires forall i :: 0 <= i < |parts| ==> c !in parts[i]
    ensures c !in Join(parts, sep)
    decreases |parts|
  {
    if |parts| > 1 {
      JoinAvoids(parts[1..], sep, c);
      assert parts[0] + [sep] + Join(parts[1..], sep) == Join(parts, sep);
    }
  }

  lemma {:induction false} CountCharJoin(parts: seq<string>, sep: char)
    requires |parts| >= 1
    requires forall i :: 0 <= i < |parts| ==> sep !in parts[i]
    ensures CountChar(Join(parts, sep), sep) == |parts| - 1
    decreases |parts|
  {
    if |parts| == 1 {
      CountCharAbsent(parts[0], sep);
    } else {
      CountCharJoin(parts[1..], sep);
      CountCharAbsent(parts[0], sep);
      CountCharAppend(parts[0], [sep], sep);
      CountCharAppend(parts[0] + [sep], Join(parts[1..], sep), sep);
    }
  }

  // ---------------------------------------------------------------------
  // Decimal numbers

  predicate IsDigit(c: char) {
    '0' <= c <= '9'
  }

  predicate AllDigits(s: string) {
    forall i :: 0 <= i < |s| ==> IsDigit(s[i])
  }

  lemma DigitsHaveNoSpace(s: string)
    requires AllDigits(s)
    ensures NoSpace(s)
  {
    forall i | 0 <= i < |s|
      ensures !IsSpace(s[i])
    {
      assert IsDigit(s[i]);
    }
  }

  function DigitValue(c: char): nat
    requires IsDigit(c)
  {
    (c as int) - ('0' as int)
  }

  function DigitChar(d: nat): (c: char)
    requires d < 10
    ensures IsDigit(c) && DigitValue(c) == d
  {
    (('0' as int) + d) as char
  }

  /** The decimal rendering of a natural number (template-literal `${n}`). */
  function NatToString(n: nat): (s: string)
    ensures |s| >= 1 && AllDigits(s)
    ensures |s| > 1 ==> s[0] != '0'
    decreases n
  {
    if n < 10 then [DigitChar(n)] else NatToString(n / 10) + [DigitChar(n % 10)]
  }

  /** The decimal rendering of an integer, with a leading `-` when negative. */
  function IntToString(n: int): string {
    if n < 0 then "-" + NatToString(-n) else NatToString(n)
  }

  /** The value of a string of decimal digits. */
  function ParseDigits(s: string): nat
    requires AllDigits(s)
    decreases |s|
  {
    if |s| == 0 then 0 else ParseDigits(s[..|s| - 1]) * 10 + DigitValue(s[|s| - 1])
  }

  /** Reading back a rendered number gives the number. */
  lemma {:induction false} ParseNatToString(n: nat)
    ensures ParseDigits(NatToString(n)) == n
    decreases n
  {
    if n >= 10 {
      ParseNatToString(n / 10);
      var s := NatToString(n);
      assert s[..|s| - 1] == NatToString(n / 10);
    }
  }

  /** Distinct numbers render as distinct strings. */
  lemma NatToStringInjective(m: nat, n: nat)
    requires NatToString(m) == NatToString(n)
    ensures m == n
  {
    ParseNatToString(m);
    ParseNatToString(n);
  }

  /** The longest prefix of `s` made of decimal digits. */
  function LeadingDigits(s: string): (d: string)
    ensures |d| <= |s| && d == s[..|d|] && AllDigits(d)
    ensures |d| < |s| ==> !IsDigit(s[|d|])
    decreases |s|
  {
    if |s| > 0 && IsDigit(s[0]) then [s[0]] + LeadingDigits(s[1..]) else ""
  }

  /** `parseInt(s)` in base ten: leading whitespace and one sign are skipped,
      then the longest digit prefix is read; `None` is `NaN`. */
  function JsParseInt(s: string): (r: Option<int>)
    ensures r.None? <==> |LeadingDigits(Unsigned(DropLeadingSpaces(s)))| == 0
  {
    var t := DropLeadingSpaces(s);
    var d := LeadingDigits(Unsigned(t));
    var magnitude: int := if |d| == 0 then 0 else ParseDigits(d);
    if |d| == 0 then None
    else if |t| > 0 && t[0] == '-' then Some(-magnitude)
    else Some(magnitude)
  }

  /** A plain digit string is read as its decimal value. */
  lemma JsParseIntOfDigits(d: string)
    requires |d| > 0 && AllDigits(d)
    ensures JsParseInt(d) == Some(ParseDigits(d))
  {
    assert IsDigit(d[0]) && !IsSpace(d[0]);
    assert DropLeadingSpaces(d) == d;
    assert Unsigned(d) == d;
    LeadingDigitsOfDigits(d, "");
    assert d + "" == d;
  }

  /** Text that starts with anything but whitespace, a sign or a digit is
      `NaN`, and so is the empty text. */
  lemma JsParseIntNaN(s: string)
    requires |s| == 0 || (!IsSpace(s[0]) && !IsDigit(s[0]) && s[0] != '-' && s[0] != '+')
    ensures JsParseInt(s).None?
  {
    if |s| > 0 {
      assert DropLeadingSpaces(s) == s;
      assert Unsigned(s) == s;
      assert LeadingDigits(s) == "";
    } else {
      assert LeadingDigits(Unsigned(DropLeadingSpaces(s))) == "";
    }
  }

  /** A leading `-` negates the digits that follow. */
  lemma JsParseIntOfNegative(d: string)
    requires |d| > 0 && AllDigits(d)
    ensures JsParseInt("-" + d).Some? && JsParseInt("-" + d).value == -(ParseDigits(d) as int)
  {
    var s := "-" + d;
    assert !IsSpace(s[0]);
    assert DropLeadingSpaces(s) == s;
    assert Unsigned(s) == d;
    LeadingDigitsOfDigits(d, "");
    assert d + "" == d;
    assert LeadingDigits(Unsigned(DropLeadingSpaces(s))) == d;
    var m: int := ParseDigits(d);
    var r := JsParseInt(s);
    assert r.Some?;
    assert r.value == -m;
  }

  function Unsigned(t: string): string {
    if |t| > 0 && (t[0] == '-' || t[0] == '+') then t[1..] else t
  }

  lemma {:induction false} LeadingDigitsOfDigits(d: string, rest: string)
    requires AllDigits(d)
    requires |rest| == 0 || !IsDigit(rest[0])
    ensures LeadingDigits(d + rest) == d
    decreases |d|
  {
    if |d| > 0 {
      assert (d + rest)[1..] == d[1..] + rest;
      LeadingDigitsOfDigits(d[1..], rest);
      assert [d[0]] + d[1..] == d;
    } else {
      assert d + rest == rest;
    }
  }

  /** `parseInt` reads back a rendered number that is followed by a non-digit. */
  lemma JsParseIntOfRendered(n: nat, rest: string)
    requires |rest| == 0 || !IsDigit(rest[0])
    ensures JsParseInt(NatToString(n) + rest) == Some(n)
  {
    var d := NatToString(n);
    var s := d + rest;
    assert s[0] == d[0];
    assert IsDigit(s[0]);
    assert !IsSpace(s[0]);
    assert DropLeadingSpaces(s) == s;
    assert Unsigned(s) == s;
    LeadingDigitsOfDigits(d, rest);
    ParseNatToString(n);
  }

  /** `Number(s)` for the decimal forms the model covers: surrounding
      whitespace is ignored, blank text is 0, a digit string is its value;
      every other text is `None` (NaN). */
  function JsNumber(s: string): (r: Option<int>)
    ensures AllDigits(s) && |s| > 0 ==> r == Some(ParseDigits(s))
    ensures |Trim(s)| == 0 ==> r == Some(0)
  {
    var t := Trim(s);
    assert AllDigits(s) ==> t == s by {
      if AllDigits(s) {
        DigitsHaveNoSpace(s);
        TrimWithoutSpace(s);
      }
    }
    if |t| == 0 then Some(0)
    else if AllDigits(t) then Some(ParseDigits(t))
    else None
  }
}
