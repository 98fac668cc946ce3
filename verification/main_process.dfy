/** The main process's own logic: the `PATH` extension it performs at
    start-up, the settings save that ties the staging directory to the
    archive, the address it advertises, and whether it holds a running
    server. Electron's windows and IPC plumbing are not modelled. */
module MainProcess {
  import opened Wrappers
  import opened Text
  import opened Paths
  import PostFinish
  import FormatCheck
  import Server

  // ---------------------------------------------------------------------
  // The PATH extension

  /** Where Homebrew and the system keep `ffmpeg` and `ffprobe`. */
  const CommonPaths: seq<string> := ["/opt/homebrew/bin", "/usr/local/bin", "/usr/bin"]

  predicate NoDuplicates(s: seq<string>) {
    forall i, j :: 0 <= i < j < |s| ==> s[i] != s[j]
  }

  /** `.filter(Boolean)`: the non-empty segments, in order. */
  function NonEmpty(segments: seq<string>): (r: seq<string>)
    ensures forall x :: x in r <==> x in segments && x != ""
    ensures forall i :: 0 <= i < |r| ==> r[i] != ""
  {
    if |segments| == 0 then []
    else if segments[0] == "" then NonEmpty(segments[1..])
    else [segments[0]] + NonEmpty(segments[1..])
  }

  /** The elements of `s` at their first occurrence, in order: the iteration
      order of a JavaScript `Set` built by inserting `s` element by element. */
  function FirstOccurrences(s: seq<string>): (r: seq<string>)
    ensures forall x :: x in r <==> x in s
    ensures NoDuplicates(r)
  {
    if |s| == 0 then []
    else
      var init := FirstOccurrences(s[..|s| - 1]);
      if s[|s| - 1] in s[..|s| - 1] then init else init + [s[|s| - 1]]
  }

  /** The elements of `b` that are not in `a`, in `b`'s order. */
  function Missing(a: seq<string>, b: seq<string>): (r: seq<string>)
    ensures forall x :: x in r <==> x in b && x !in a
  {
    if |b| == 0 then []
    else Missing(a, b[..|b| - 1]) + (if b[|b| - 1] in a then [] else [b[|b| - 1]])
  }

  /** The segments `PATH` ends up with. */
  function MergedSegments(path: string): seq<string> {
    FirstOccurrences(NonEmpty(Split(path, ':')) + CommonPaths)
  }

  /** The start-up extension of `PATH` (`process.env.PATH || ''` is `path`):
      a `Set` of the non-empty segments, then each common directory added if
      missing, joined with `:`. */
  method MergePath(path: string) returns (merged: string)
    ensures merged == Join(MergedSegments(path), ':')
  {
    var segments := NonEmpty(Split(path, ':'));
    var order := AddMissing([], [], segments);
    assert [] + segments == segments;
    order := AddMissing(order, segments, CommonPaths);
    merged := Join(order, ':');
  }

  /** Inserts `items` one by one into the insertion-ordered set `order`
      (which holds the first occurrences of `prefix`); `new Set(items)` and
      each `if (!set.has(p)) set.add(p)` are this. */
  method AddMissing(order: seq<string>, prefix: seq<string>, items: seq<string>) returns (r: seq<string>)
    requires order == FirstOccurrences(prefix)
    ensures r == FirstOccurrences(prefix + items)
  {
    var all := prefix + items;
    r := order;
    var i := 0;
    while i < |items|
      invariant 0 <= i <= |items|
      invariant r == FirstOccurrences(all[..|prefix| + i])
    {
      assert all[|prefix| + i] == items[i];
      FirstOccurrencesStep(all, |prefix| + i);
      if items[i] !in r {
        r := r + [items[i]];
      }
      i := i + 1;
    }
    assert all[..|all|] == all;
  }

  /** One more element is kept exactly when it has not occurred before. */
  lemma FirstOccurrencesStep(s: seq<string>, i: nat)
    requires i < |s|
    ensures FirstOccurrences(s[..i + 1]) ==
              if s[i] in FirstOccurrences(s[..i]) then FirstOccurrences(s[..i])
              else FirstOccurrences(s[..i]) + [s[i]]
  {
    assert s[..i + 1][..i] == s[..i];
  }

  /** Adding a list without repetitions after `a` keeps `a`'s first
      occurrences and appends the new elements in their order. */
  lemma {:induction false} FirstOccurrencesAppend(a: seq<string>, b: seq<string>)
    requires NoDuplicates(b)
    ensures FirstOccurrences(a + b) == FirstOccurrences(a) + Missing(a, b)
    decreases |b|
  {
    if |b| == 0 {
      assert a + b == a;
    } else {
      var b' := b[..|b| - 1];
      var x := b[|b| - 1];
      assert (a + b)[..|a + b| - 1] == a + b';
      assert (a + b)[|a + b| - 1] == x;
      assert x !in b' by {
        forall k | 0 <= k < |b'| ensures b'[k] != x {
          assert b[k] != b[|b| - 1];
        }
      }
      assert NoDuplicates(b') by {
        forall i, j | 0 <= i < j < |b'| ensures b'[i] != b'[j] {
          assert b[i] != b[j];
        }
      }
      FirstOccurrencesAppend(a, b');
    }
  }

  lemma CommonPathsDistinct()
    ensures NoDuplicates(CommonPaths)
    ensures forall i :: 0 <= i < |CommonPaths| ==> CommonPaths[i] != "" && ':' !in CommonPaths[i]
  {
  }

  /** The merged `PATH`, segment by segment: the existing non-empty segments
      without repetitions in first-occurrence order, then the common
      directories that were missing, in their listed order. */
  lemma MergedPathSegments(path: string)
    ensures Split(Join(MergedSegments(path), ':'), ':')
         == FirstOccurrences(NonEmpty(Split(path, ':'))) + Missing(NonEmpty(Split(path, ':')), CommonPaths)
  {
    var existing := NonEmpty(Split(path, ':'));
    CommonPathsDistinct();
    FirstOccurrencesAppend(existing, CommonPaths);
    var segs := MergedSegments(path);
    assert CommonPaths[0] in segs;
    forall i | 0 <= i < |segs|
      ensures ':' !in segs[i]
    {
      assert segs[i] in existing + CommonPaths;
      if segs[i] in existing {
        var k :| 0 <= k < |Split(path, ':')| && Split(path, ':')[k] == segs[i];
      }
    }
    SplitJoin(segs, ':');
  }

  /** Afterwards no segment is empty or repeated, and each common directory
      appears exactly once. */
  lemma MergedPathWellFormed(path: string)
    ensures var segs := MergedSegments(path);
            && NoDuplicates(segs)
            && (forall i :: 0 <= i < |segs| ==> segs[i] != "")
            && (forall p :: p in CommonPaths ==> p in segs)
            && (forall p, i, j :: (p in CommonPaths && 0 <= i < |segs| && 0 <= j < |segs|
                                   && segs[i] == p && segs[j] == p) ==> i == j)
  {
    var segs := MergedSegments(path);
    CommonPathsDistinct();
    forall i | 0 <= i < |segs|
      ensures segs[i] != ""
    {
      assert segs[i] in NonEmpty(Split(path, ':')) + CommonPaths;
    }
  }

  /** A `PATH` that already holds the common directories, once each and
      without empty segments, is left as it was. */
  lemma MergeKeepsCompletePath(path: string)
    requires forall p :: p in CommonPaths ==> p in Split(path, ':')
    requires forall i :: 0 <= i < |Split(path, ':')| ==> Split(path, ':')[i] != ""
    requires NoDuplicates(Split(path, ':'))
    ensures Join(MergedSegments(path), ':') == path
  {
    var parts := Split(path, ':');
    NonEmptyOfFull(parts);
    FirstOccurrencesOfDistinct(parts);
    CommonPathsDistinct();
    FirstOccurrencesAppend(parts, CommonPaths);
    MissingNone(parts, CommonPaths);
    assert FirstOccurrences(parts) + [] == parts;
    JoinSplit(path, ':');
  }

  lemma {:induction false} NonEmptyOfFull(s: seq<string>)
    requires forall i :: 0 <= i < |s| ==> s[i] != ""
    ensures NonEmpty(s) == s
    decreases |s|
  {
    if |s| > 0 {
      NonEmptyOfFull(s[1..]);
      assert s == [s[0]] + s[1..];
    }
  }

  lemma {:induction false} FirstOccurrencesOfDistinct(s: seq<string>)
    requires NoDuplicates(s)
    ensures FirstOccurrences(s) == s
    decreases |s|
  {
    if |s| > 0 {
      var init := s[..|s| - 1];
      assert NoDuplicates(init) by {
        forall i, j | 0 <= i < j < |init| ensures init[i] != init[j] {
          assert s[i] != s[j];
        }
      }
      FirstOccurrencesOfDistinct(init);
      assert s[|s| - 1] !in init by {
        forall k | 0 <= k < |init| ensures init[k] != s[|s| - 1] {
          assert s[k] != s[|s| - 1];
        }
      }
      assert init + [s[|s| - 1]] == s;
    }
  }

  lemma {:induction false} MissingNone(a: seq<string>, b: seq<string>)
    requires forall x :: x in b ==> x in a
    ensures Missing(a, b) == []
    decreases |b|
  {
    if |b| > 0 {
      assert forall x :: x in b[..|b| - 1] ==> x in b;
      MissingNone(a, b[..|b| - 1]);
      assert b[|b| - 1] in b;
    }
  }

  // ---------------------------------------------------------------------
  // Saving the settings

  /** The persisted settings, as string-valued keys (`electron-store`). */
  type Store = map<string, string>

  /** A key's value, or `""` when it is not stored. */
  function Get(store: Store, key: string): string {
    if key in store then store[key] else ""
  }

  datatype Reply = Ok | Err(message: string)

  /** `save-config`: when the new settings name an archive directory, the
      staging directory becomes its `incoming` subdirectory; then the keys
      are written over the stored ones. A failed write leaves the store as
      it was. */
  function SaveConfig(store: Store, newConfig: Store, writeError: Option<string>): (r: (Store, Reply))
    ensures writeError.Some? ==> r == (store, Err(writeError.value))
    ensures writeError.None? ==> r.1 == Ok
    ensures writeError.None? && Get(newConfig, "archiveDir") != ""
            ==> Get(r.0, "uploadsDir") == PathJoin(newConfig["archiveDir"], "incoming")
                && Get(r.0, "archiveDir") == newConfig["archiveDir"]
    ensures writeError.None? && Get(newConfig, "archiveDir") == "" ==> r.0 == store + newConfig
    ensures writeError.None? ==> forall k :: k in r.0 && k != "uploadsDir" ==>
              if k in newConfig then r.0[k] == newConfig[k] else k in store && r.0[k] == store[k]
  {
    var written := if Get(newConfig, "archiveDir") != ""
                   then newConfig["uploadsDir" := PathJoin(newConfig["archiveDir"], "incoming")]
                   else newConfig;
    if writeError.Some? then (store, Err(writeError.value))
    else (store + written, Ok)
  }

  /** The server's view of the stored settings. */
  function ServerView(store: Store, allowNonVideoFiles: bool, formatCheck: Option<FormatCheck.Requirements>): Server.ServerConfig {
    Server.ServerConfig(PostFinish.Config(Get(store, "archiveDir"), allowNonVideoFiles, formatCheck), Get(store, "uploadsDir"))
  }

  /** After a successful save that names an archive directory, tus stages
      uploads exactly where the pipeline looks for them. */
  lemma SavedArchiveStagesIncoming(store: Store, newConfig: Store, homeDir: string,
                                   allowNonVideoFiles: bool, formatCheck: Option<FormatCheck.Requirements>)
    requires Get(newConfig, "archiveDir") != ""
    ensures var saved := SaveConfig(store, newConfig, None).0;
            var view := ServerView(saved, allowNonVideoFiles, formatCheck);
            Server.StagingDir(view, homeDir) == PostFinish.UploadsDir(PostFinish.ArchiveDir(view.pipeline, homeDir))
  {
  }

  // ---------------------------------------------------------------------
  // The advertised address

  /** One entry of `os.networkInterfaces()[name]`. */
  datatype NetInterface = NetInterface(family: string, address: string, internal: bool)

  predicate Advertisable(n: NetInterface) {
    n.family == "IPv4" && !n.internal
  }

  /** The reference: the first advertisable entry, interfaces taken in
      key order and each interface's entries in order. */
  function FirstAdvertisable(nets: seq<seq<NetInterface>>): (a: Option<string>)
    ensures a.None? <==> forall i, j :: 0 <= i < |nets| && 0 <= j < |nets[i]| ==> !Advertisable(nets[i][j])
  {
    if |nets| == 0 then None
    else match FirstIn(nets[0])
      case Some(a) => Some(a)
      case None => FirstAdvertisable(nets[1..])
  }

  function FirstIn(entries: seq<NetInterface>): (a: Option<string>)
    ensures a.None? <==> forall j :: 0 <= j < |entries| ==> !Advertisable(entries[j])
  {
    if |entries| == 0 then None
    else if Advertisable(entries[0]) then Some(entries[0].address)
    else FirstIn(entries[1..])
  }

  /** `getLocalIpAddress()`: the first non-internal IPv4 address, or
      `localhost` when there is none. */
  method GetLocalIpAddress(nets: seq<seq<NetInterface>>) returns (address: string)
    ensures FirstAdvertisable(nets).Some? ==> address == FirstAdvertisable(nets).value
    ensures FirstAdvertisable(nets).None? ==> address == "localhost"
  {
    var i := 0;
    while i < |nets|
      invariant 0 <= i <= |nets|
      invariant FirstAdvertisable(nets) == FirstAdvertisable(nets[i..])
    {
      var j := 0;
      while j < |nets[i]|
        invariant 0 <= j <= |nets[i]|
        invariant FirstIn(nets[i]) == FirstIn(nets[i][j..])
      {
        var net := nets[i][j];
        if net.family == "IPv4" && !net.internal {
          return net.address;
        }
        assert nets[i][j..][1..] == nets[i][j + 1..];
        j := j + 1;
      }
      assert nets[i][j..] == [];
      assert nets[i..][1..] == nets[i + 1..];
      i := i + 1;
    }
    assert nets[i..] == [];
    return "localhost";
  }

  /** The advertised address is an advertisable entry's address, and no
      entry before it in iteration order is advertisable. */
  lemma AdvertisedIsFirst(nets: seq<seq<NetInterface>>, i: nat, j: nat)
    requires i < |nets| && j < |nets[i]| && Advertisable(nets[i][j])
    requires forall i', j' :: 0 <= i' < i && 0 <= j' < |nets[i']| ==> !Advertisable(nets[i'][j'])
    requires forall j' :: 0 <= j' < j ==> !Advertisable(nets[i][j'])
    ensures FirstAdvertisable(nets) == Some(nets[i][j].address)
  {
    if i == 0 {
      FirstInAt(nets[0], j);
    } else {
      assert FirstIn(nets[0]).None?;
      AdvertisedIsFirst(nets[1..], i - 1, j);
    }
  }

  lemma {:induction false} FirstInAt(entries: seq<NetInterface>, j: nat)
    requires j < |entries| && Advertisable(entries[j])
    requires forall k :: 0 <= k < j ==> !Advertisable(entries[k])
    ensures FirstIn(entries) == Some(entries[j].address)
    decreases j
  {
    if j > 0 {
      FirstInAt(entries[1..], j - 1);
    }
  }

  // ---------------------------------------------------------------------
  // The running server

  /** A started HTTP server; only its identity matters here. */
  datatype Handle = Handle(id: nat)

  /** `httpServerInstance`. */
  datatype Lifecycle = Lifecycle(instance: Option<Handle>)

  /** `get-server-status`. */
  function Running(s: Lifecycle): (running: bool)
    ensures running <==> s.instance.Some?
  {
    s.instance.Some?
  }

  datatype StartReply = Started(httpPort: int, ipAddress: string) | StartFailed(message: string)

  /** `start-servers`: `started` is what `startHttpServer` settled with.
      Only a server that came up is held; a failure leaves the state as it was. */
  function StartServers(s: Lifecycle, started: Result<Handle, string>, httpPort: int, ipAddress: string): (r: (Lifecycle, StartReply))
    ensures started.Success? ==> r.0.instance == Some(started.value) && r.1 == Started(httpPort, ipAddress)
    ensures started.Failure? ==> r.0 == s && r.1 == StartFailed(started.error)
  {
    if started.Success? then (Lifecycle(Some(started.value)), Started(httpPort, ipAddress))
    else (s, StartFailed(started.error))
  }

  /** `stopAllServers`, used by `stop-servers` and before quitting:
      `closeError` is what closing the held server reported. The instance is
      cleared only after a clean close; with none held nothing happens. */
  function StopAllServers(s: Lifecycle, closeError: Option<string>): (r: (Lifecycle, Reply))
    ensures s.instance.None? ==> r == (s, Ok)
    ensures s.instance.Some? && closeError.None? ==> r == (Lifecycle(None), Ok)
    ensures s.instance.Some? && closeError.Some? ==> r == (s, Err(closeError.value))
    ensures r.1 == Ok <==> !Running(r.0)
  {
    if s.instance.None? then (s, Ok)
    else if closeError.Some? then (s, Err(closeError.value))
    else (Lifecycle(None), Ok)
  }

  /** A second stop after a successful one changes nothing, whatever the close would report. */
  lemma StopIdempotent(s: Lifecycle, e: Option<string>, e': Option<string>)
    requires StopAllServers(s, e).1 == Ok
    ensures StopAllServers(StopAllServers(s, e).0, e') == StopAllServers(s, e)
  {
  }

  /** A start that succeeds and a clean stop return to the stopped state. */
  lemma StartThenStop(h: Handle, httpPort: int, ipAddress: string)
    ensures var started := StartServers(Lifecycle(None), Success(h), httpPort, ipAddress).0;
            Running(started) && StopAllServers(started, None) == (Lifecycle(None), Ok)
  {
  }
}
