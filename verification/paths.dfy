/** The parts of Node's `path` module the pipeline uses: `join` (its
    treatment of trailing separators, `""` and `"."`), `extname`, and
    `basename(p, extname(p))`. */
module Paths {
  import opened Wrappers
  import opened Text

  type Path = string

  /** The directory as `path.join` keeps it in front of a name: trailing
      separators dropped, except that a root made only of separators stays `/`. */
  function DirPart(dir: string): (d: string)
    ensures d == "" <==> dir == ""
    ensures d == "/" || d == "" || d[|d| - 1] != '/'
    ensures |d| <= |dir| && (d != "/" ==> d == dir[..|d|])
  {
    var s := StripTrailingSlashes(dir);
    if s == "" && dir != "" then "/" else s
  }

  /** A name that denotes the directory itself rather than an entry of it. */
  predicate NamesDir(name: string) {
    name == "" || name == "."
  }

  /** `name` placed below the directory part `d`, one separator between. */
  function Below(d: string, name: string): (p: Path)
    ensures EndsWith(p, name)
    ensures d == "" ==> p == name
    ensures d != "" ==> |d| + |name| <= |p| <= |d| + |name| + 1 && |p| > |name| && p[..|d|] == d && p[|p| - |name| - 1] == '/'
  {
    if d == "" then name
    else
      var p := if d == "/" then d + name else d + "/" + name;
      assert p[|p| - |name|..] == name;
      p
  }

  /** `path.join(dir, name)` for the names the program joins: an entry name
      goes below the directory with exactly one separator, whatever
      separators `dir` ends with; `"."` denotes the directory itself, and so
      does `""`, which keeps one trailing separator of `dir`; joining onto
      an empty directory gives the name, or `.` when that too is empty. */
  function PathJoin(dir: string, name: string): (p: Path)
    ensures !NamesDir(name) ==> p == Below(DirPart(dir), name)
    ensures name == "." ==> p == (if dir == "" then "." else DirPart(dir))
    ensures name == "" && dir == "" ==> p == "."
    ensures name == "" && dir != "" ==> p == DirPart(dir) || p == DirPart(dir) + "/"
  {
    var d := DirPart(dir);
    if name == "" then
      if dir == "" then "."
      else if d != "/" && dir[|dir| - 1] == '/' then d + "/"
      else d
    else if name == "." then (if d == "" then "." else d)
    else Below(d, name)
  }

  /** The path of an entry: the directory part, one separator, the name. */
  lemma EntryPath(dir: string, name: string)
    requires !NamesDir(name)
    ensures var p, d := PathJoin(dir, name), DirPart(dir);
            && p[|p| - |name|..] == name
            && (d != "" ==> p[..|d|] == d && p[|p| - |name| - 1] == '/' && |p| <= |d| + |name| + 1)
            && (d == "" ==> p == name)
  {
  }

  /** An entry of a directory is never the directory itself. */
  lemma PathJoinNotDir(dir: string, a: string, b: string)
    requires !NamesDir(a) && NamesDir(b)
    ensures PathJoin(dir, a) != PathJoin(dir, b)
  {
    var d := DirPart(dir);
    if d == "" {
      assert PathJoin(dir, b) == ".";
    }
  }

  /** Joining onto one directory never maps an entry name and another name
      to one path. */
  lemma PathJoinInjective(dir: string, a: string, b: string)
    requires PathJoin(dir, a) == PathJoin(dir, b) && !NamesDir(b)
    ensures a == b
  {
    if NamesDir(a) {
      PathJoinNotDir(dir, b, a);
    } else {
      var d, p := DirPart(dir), PathJoin(dir, a);
      var n := if d == "" then 0 else if d == "/" then 1 else |d| + 1;
      assert a == p[n..];
      assert b == PathJoin(dir, b)[n..];
    }
  }

  /** A name without a separator and a name with one join to different paths. */
  lemma PathJoinDistinct(dir: string, a: string, b: string)
    requires '/' !in a && '/' in b
    ensures PathJoin(dir, a) != PathJoin(dir, b)
  {
    assert !NamesDir(b);
    if PathJoin(dir, a) == PathJoin(dir, b) {
      PathJoinInjective(dir, a, b);
    }
  }

  /** Joining an entry name onto a joined directory is joining the two-part
      name onto the outer directory: `join(join(d, x), y) == join(d, x/y)`. */
  lemma PathJoinNested(dir: string, x: string, y: string)
    requires !NamesDir(x) && !NamesDir(y) && x[|x| - 1] != '/'
    ensures PathJoin(PathJoin(dir, x), y) == PathJoin(dir, x + "/" + y)
  {
    var d := DirPart(dir);
    var inner := Below(d, x);
    EntryIsDirPart(d, x);
    assert PathJoin(PathJoin(dir, x), y) == inner + "/" + y;
    assert !NamesDir(x + "/" + y) by {
      assert (x + "/" + y)[|x|] == '/';
    }
    if d == "" {
    } else if d == "/" {
      assert inner + "/" + y == d + (x + "/" + y);
    } else {
      assert inner + "/" + y == d + "/" + (x + "/" + y);
    }
  }

  /** A name without a separator never joins to the path of an entry of a
      subdirectory. */
  lemma NotInSubdirectory(dir: string, sub: string, name: string, x: string)
    requires '/' !in name && !NamesDir(sub) && sub[|sub| - 1] != '/' && !NamesDir(x)
    ensures PathJoin(dir, name) != PathJoin(PathJoin(dir, sub), x)
  {
    PathJoinNested(dir, sub, x);
    assert (sub + "/" + x)[|sub|] == '/';
    PathJoinDistinct(dir, name, sub + "/" + x);
  }

  /** An entry path that does not end in a separator is its own directory part. */
  lemma EntryIsDirPart(d: string, x: string)
    requires x != "" && x[|x| - 1] != '/'
    ensures var p := Below(d, x); p != "" && p != "/" && DirPart(p) == p
  {
    var p := Below(d, x);
    assert p[|p| - 1] == x[|x| - 1];
    assert StripTrailingSlashes(p) == p;
  }

  function StripTrailingSlashes(p: string): (r: string)
    ensures |r| <= |p| && r == p[..|r|]
    ensures |r| == 0 || r[|r| - 1] != '/'
    ensures '/' !in p ==> r == p
    decreases |p|
  {
    if |p| > 0 && p[|p| - 1] == '/' then StripTrailingSlashes(p[..|p| - 1]) else p
  }

  /** The text after the last `/`. */
  function AfterLastSlash(p: string): (r: string)
    ensures |r| <= |p| && r == p[|p| - |r|..]
    ensures '/' !in r
    ensures '/' !in p ==> r == p
    decreases |p|
  {
    if |p| == 0 then p
    else if p[|p| - 1] == '/' then ""
    else
      var r := AfterLastSlash(p[..|p| - 1]);
      SuffixExtends(p, r);
      r + [p[|p| - 1]]
  }

  /** A suffix of all but the last character, followed by that character, is a suffix. */
  lemma SuffixExtends(p: string, r: string)
    requires |p| > 0 && |r| <= |p| - 1 && r == p[..|p| - 1][|p| - 1 - |r|..]
    ensures r + [p[|p| - 1]] == p[|p| - |r| - 1..]
  {
  }

  /** The last path component, ignoring trailing separators. */
  function LastComponent(p: string): (c: string)
    ensures '/' !in c
    ensures '/' !in p ==> c == p
  {
    AfterLastSlash(StripTrailingSlashes(p))
  }

  /** The index of the last occurrence of `ch` in `s`. */
  function LastIndexOf(s: string, ch: char): (k: Option<nat>)
    ensures k.None? ==> ch !in s
    ensures k.Some? ==> k.value < |s| && s[k.value] == ch && ch !in s[k.value + 1..]
    decreases |s|
  {
    if |s| == 0 then None
    else if s[|s| - 1] == ch then Some(|s| - 1)
    else
      var k := LastIndexOf(s[..|s| - 1], ch);
      assert k.Some? ==> s[k.value + 1..] == s[..|s| - 1][k.value + 1..] + [s[|s| - 1]];
      k
  }

  /** `path.extname(p)`: from the last `.` of the last component to its end;
      empty when that component has no `.`, when its last `.` is its first
      character (a dot file such as `.bashrc`), or when it is `..`. */
  function ExtName(p: string): (ext: string)
    // a non-empty extension is the proper suffix from the component's last dot
    ensures ext != "" ==> && ext[0] == '.' && '.' !in ext[1..]
                          && |ext| < |LastComponent(p)| && EndsWith(LastComponent(p), ext)
    // it is empty exactly when no dot follows the first character, or for `..`
    ensures var c := LastComponent(p);
            ext == "" <==> (|c| == 0 || '.' !in c[1..] || c == "..")
    ensures '/' !in ext
  {
    ComponentExt(LastComponent(p))
  }

  /** The extension of one path component. */
  function ComponentExt(c: string): (ext: string)
    requires '/' !in c
    ensures ext != "" ==> && ext[0] == '.' && '.' !in ext[1..] && |ext| < |c| && EndsWith(c, ext)
    ensures ext == "" <==> (|c| == 0 || '.' !in c[1..] || c == "..")
    ensures '/' !in ext
  {
    match LastIndexOf(c, '.')
    case None =>
      assert |c| > 0 ==> forall x :: x in c[1..] ==> x in c;
      ""
    case Some(k) =>
      if k == 0 then
        ""
      else if |c| == 2 && c[0] == '.' && c[1] == '.' then
        assert c == "..";
        ""
      else
        DottedSuffix(c, k);
        assert c[k] == c[1..][k - 1];
        assert c != "..";
        c[k..]
  }

  /** The text from an inner `.` onwards is a proper, separator-free suffix. */
  lemma DottedSuffix(c: string, k: nat)
    requires 0 < k < |c| && c[k] == '.' && '/' !in c
    ensures c[k..][0] == '.' && |c[k..]| < |c| && EndsWith(c, c[k..])
    ensures '/' !in c[k..]
  {
    assert forall x :: x in c[k..] ==> x in c;
  }

  /** `path.basename(p, path.extname(p))`: the last component without its
      extension. (Node's two-argument `basename` reduces to this whenever
      the suffix passed is the path's own `extname`.) */
  function Stem(p: string): (base: string)
    ensures base + ExtName(p) == LastComponent(p)
    ensures '/' !in base
  {
    var c, e := LastComponent(p), ExtName(p);
    BeforeSuffix(c, e);
    c[..|c| - |e|]
  }

  /** Cutting a suffix off a separator-free text leaves a separator-free
      prefix that the suffix completes. */
  lemma BeforeSuffix(c: string, e: string)
    requires EndsWith(c, e) && '/' !in c
    ensures c[..|c| - |e|] + e == c
    ensures '/' !in c[..|c| - |e|]
  {
    assert c == c[..|c| - |e|] + c[|c| - |e|..];
  }

  /** The last occurrence is the one with no further occurrence after it. */
  lemma LastIndexOfAt(s: string, ch: char, k: nat)
    requires k < |s| && s[k] == ch && ch !in s[k + 1..]
    ensures LastIndexOf(s, ch) == Some(k)
  {
  }

  /** A plain file name `stem.tail` (one dot, not leading) has extension `.tail`. */
  lemma ExtNameOfPlainName(stem: string, tail: string)
    requires stem != "" && '.' !in stem && '/' !in stem
    requires '.' !in tail && '/' !in tail
    ensures ExtName(stem + "." + tail) == "." + tail
  {
    var c := stem + "." + tail;
    assert '/' !in c;
    assert c[|stem| + 1..] == tail;
    LastIndexOfAt(c, '.', |stem|);
    assert c[0] == stem[0];
    assert c[|stem|..] == "." + tail;
  }

  /** ... and stem `stem`. */
  lemma StemOfPlainName(stem: string, tail: string)
    requires stem != "" && '.' !in stem && '/' !in stem
    requires '.' !in tail && '/' !in tail
    ensures Stem(stem + "." + tail) == stem
  {
    var c := stem + "." + tail;
    ExtNameOfPlainName(stem, tail);
    assert '/' !in c;
    assert c[..|stem|] == stem;
  }

  lemma ExtNameOfDotFile()
    ensures ExtName(".bashrc") == ""
  {
    var c := ".bashrc";
    assert '/' !in c;
    assert LastIndexOf(c, '.') == Some(0);
  }
}
