/** The decisions the HTTP server makes: which hosts may see the admin
    screen and the upload ledger, which download names are served, what the
    download listing shows, whether tus admits an upload, and what the
    finish hook does with a failed pipeline run. Express, tus and the
    static file server are not modelled; only these predicates are. */
module Server {
  import opened Wrappers
  import opened Text
  import opened Paths
  import opened Files
  import opened DiskCheck
  import PostFinish
  import Probe

  /** A response the server sends instead of passing the request on. */
  datatype Response = Response(status: int, body: string)

  // ---------------------------------------------------------------------
  // Host gates

  /** What a gate reads of a request: Express's `req.hostname` (absent or
      empty when it could not be derived), the raw `Host` header, and the
      path below the gate's mount point. */
  datatype Request = Request(hostname: Option<string>, hostHeader: Option<string>, path: string)

  /** `req.hostname || req.headers.host?.split(':')[0]`. */
  function HostOf(req: Request): (h: Option<string>)
    ensures req.hostname.Some? && req.hostname.value != "" ==> h == req.hostname
    ensures (req.hostname.None? || req.hostname.value == "") && req.hostHeader.None? ==> h.None?
    ensures (req.hostname.None? || req.hostname.value == "") && req.hostHeader.Some?
            ==> h.Some? && ':' !in h.value && StartsWith(req.hostHeader.value, h.value)
  {
    if req.hostname.Some? && req.hostname.value != "" then req.hostname
    else if req.hostHeader.None? then None
    else
      var first := Split(req.hostHeader.value, ':')[0];
      SplitFirstIsPrefix(req.hostHeader.value, ':');
      Some(first)
  }

  /** The first field of a split is a prefix of the string. */
  lemma {:induction false} SplitFirstIsPrefix(s: string, sep: char)
    ensures StartsWith(s, Split(s, sep)[0])
    decreases |s|
  {
    if |s| > 0 && s[0] != sep {
      SplitFirstIsPrefix(s[1..], sep);
    }
  }

  const LocalHosts: set<string> := {"localhost", "127.0.0.1", "::1"}

  predicate IsLocalHost(h: Option<string>) {
    h.Some? && h.value in LocalHosts
  }

  const AdminDenied: Response := Response(403, "管理画面へのアクセスは許可されていません。")
  const DataDenied: Response := Response(403, "このリソースへのアクセスは許可されていません。")

  /** The name of the ledger in the archive directory. */
  const LedgerName: string := "uploads.tsv"

  datatype Gate = Next | Deny(response: Response)

  /** The middleware in front of `/admin`. */
  function AdminGate(req: Request): (g: Gate)
    ensures g.Next? <==> IsLocalHost(HostOf(req))
    ensures g.Deny? ==> g.response == AdminDenied
  {
    if IsLocalHost(HostOf(req)) then Next else Deny(AdminDenied)
  }

  /** The middleware in front of `/uploader/data`, which serves the archive
      directory: only a path that mentions the ledger is restricted. */
  function DataGate(req: Request): (g: Gate)
    ensures g.Next? <==> !Contains(req.path, LedgerName) || IsLocalHost(HostOf(req))
    ensures g.Deny? ==> g.response == DataDenied
  {
    if Contains(req.path, LedgerName) then
      if IsLocalHost(HostOf(req)) then Next else Deny(DataDenied)
    else Next
  }

  /** Whoever may open the admin screen may read the archive data too. */
  lemma AdminHostsReadData(req: Request)
    requires AdminGate(req).Next?
    ensures DataGate(req).Next?
  {
  }

  /** A plain request for the ledger is answered only for a local host. */
  lemma LedgerRequestGated(req: Request)
    requires req.path == "/" + LedgerName
    ensures DataGate(req).Next? <==> IsLocalHost(HostOf(req))
  {
    ContainsMiddle("/", LedgerName, "");
    assert "/" + LedgerName + "" == req.path;
  }

  /** Without `req.hostname`, a `Host` header with a port is judged by the
      name before the colon. */
  lemma HeaderHostBeforePort(name: string, port: string, path: string)
    requires ':' !in name
    ensures HostOf(Request(None, Some(name + ":" + port), path)) == Some(name)
  {
    SplitAfterField(name, port, ':');
    assert name + ":" + port == name + [':'] + port;
  }

  /** The `Host` header fallback can never produce `::1`: the split removes
      every colon, so that entry of the list is reached only through
      `req.hostname`. */
  lemma HeaderNeverGivesIpv6Loopback(header: string, path: string)
    ensures HostOf(Request(None, Some(header), path)) != Some("::1")
  {
    assert ':' in "::1";
  }

  // ---------------------------------------------------------------------
  // The static server's view of a path

  /** The value of an ASCII hexadecimal digit. */
  function HexValue(c: char): (v: Option<nat>)
    ensures v.Some? ==> v.value < 16
  {
    if '0' <= c <= '9' then Some(c as nat - '0' as nat)
    else if 'a' <= c <= 'f' then Some(c as nat - 'a' as nat + 10)
    else if 'A' <= c <= 'F' then Some(c as nat - 'A' as nat + 10)
    else None
  }

  /** The static file server decodes the request path before it opens a
      file. Only escapes of ASCII characters are decoded here; every other
      `%` is kept as it is. */
  function PercentDecode(s: string): (r: string)
    ensures '%' !in s ==> r == s
    decreases |s|
  {
    if |s| == 0 then ""
    else if |s| >= 3 && s[0] == '%' && HexValue(s[1]).Some? && HexValue(s[2]).Some?
            && HexValue(s[1]).value * 16 + HexValue(s[2]).value < 128 then
      [(HexValue(s[1]).value * 16 + HexValue(s[2]).value) as char] + PercentDecode(s[3..])
    else [s[0]] + PercentDecode(s[1..])
  }

  /** A text without `%` decodes to itself, and decoding distributes over it. */
  lemma {:induction false} DecodeAfterPlain(a: string, rest: string)
    requires '%' !in a
    ensures PercentDecode(a + rest) == a + PercentDecode(rest)
    decreases |a|
  {
    if |a| > 0 {
      var s := a + rest;
      assert s[0] == a[0] && s[1..] == a[1..] + rest;
      DecodePlainHead(s);
      DecodeAfterPlain(a[1..], rest);
      assert [a[0]] + (a[1..] + PercentDecode(rest)) == a + PercentDecode(rest) by {
        assert [a[0]] + a[1..] == a;
      }
    } else {
      assert a + rest == rest;
    }
  }

  /** A text that does not start with `%` keeps its first character. */
  lemma DecodePlainHead(s: string)
    requires |s| > 0 && s[0] != '%'
    ensures PercentDecode(s) == [s[0]] + PercentDecode(s[1..])
  {
  }

  /** A substring's characters all occur in the text that contains it. */
  lemma ContainsKeepsChar(s: string, t: string, c: char)
    requires Contains(s, t) && c in t
    ensures c in s
  {
    ContainsIff(s, t);
    var i :| OccursAt(s, t, i);
    var k :| 0 <= k < |t| && t[k] == c;
    assert s[i + k] == s[i..i + |t|][k];
  }

  /** The gate matches the path as sent, while the file served is chosen by
      the decoded path: a remote client that spells the ledger's dot as
      `%2E` (`/uploads%2Etsv`) passes the gate and is served the ledger. */
  lemma EncodedLedgerPassesGate(req: Request, stem: string, ext: string)
    requires stem + "." + ext == LedgerName
    requires '.' !in stem && '.' !in ext && '%' !in stem && '%' !in ext
    requires req.path == "/" + stem + "%2E" + ext
    ensures DataGate(req).Next?
    ensures PercentDecode(req.path) == "/" + LedgerName
  {
    EscapedName(req.path, stem, ext, LedgerName);
    NoDotNoLedger(req.path);
  }

  /** A name `stem.ext` requested as `/stem%2Eext` has no dot in the path as
      sent and decodes to `/stem.ext`. */
  lemma EscapedName(path: string, stem: string, ext: string, name: string)
    requires stem + "." + ext == name
    requires '.' !in stem && '.' !in ext && '%' !in stem && '%' !in ext
    requires path == "/" + stem + "%2E" + ext
    ensures '.' !in path
    ensures PercentDecode(path) == "/" + name
  {
    EscapedDotHidesDot("/" + stem, ext);
    EncodedDotDecodes("/" + stem, ext);
    assert "/" + stem + "." + ext == "/" + (stem + "." + ext);
  }

  /** Spelling a dot as `%2E` between two dot-free texts leaves no dot. */
  lemma EscapedDotHidesDot(a: string, b: string)
    requires '.' !in a && '.' !in b
    ensures '.' !in a + "%2E" + b
  {
    assert '.' !in "%2E";
  }

  /** A path without a dot never mentions the ledger. */
  lemma NoDotNoLedger(path: string)
    requires '.' !in path
    ensures !Contains(path, LedgerName)
  {
    if Contains(path, LedgerName) {
      assert LedgerName[7] == '.';
      ContainsKeepsChar(path, LedgerName, '.');
    }
  }

  /** `%2E` decodes to a dot. */
  lemma EncodedDotDecodes(a: string, b: string)
    requires '%' !in a && '%' !in b
    ensures PercentDecode(a + "%2E" + b) == a + "." + b
  {
    assert a + "%2E" + b == a + ("%2E" + b);
    DecodeAfterPlain(a, "%2E" + b);
    DotEscapeDecodes(b);
    assert a + ("." + b) == a + "." + b;
  }

  /** A leading `%2E` becomes a dot and the plain rest stays as it is. */
  lemma DotEscapeDecodes(b: string)
    requires '%' !in b
    ensures PercentDecode("%2E" + b) == "." + b
  {
    var t := "%2E" + b;
    assert t[0] == '%' && t[1] == '2' && t[2] == 'E' && t[3..] == b;
    assert HexValue('2') == Some(2) && HexValue('E') == Some(14);
    assert (2 * 16 + 14) as char == '.';
  }

  /** The gate as intended: it judges the path the static server will open. */
  function DecodedDataGate(req: Request): (g: Gate)
    ensures g.Next? <==> !Contains(PercentDecode(req.path), LedgerName) || IsLocalHost(HostOf(req))
    ensures g.Deny? ==> g.response == DataDenied
    ensures DataGate(Request(req.hostname, req.hostHeader, PercentDecode(req.path))) == g
  {
    DataGate(Request(req.hostname, req.hostHeader, PercentDecode(req.path)))
  }

  /** Through the corrected gate the ledger reaches local hosts only, however
      its name is spelled. */
  lemma DecodedGateProtectsLedger(req: Request)
    requires PercentDecode(req.path) == "/" + LedgerName
    ensures DecodedDataGate(req).Next? <==> IsLocalHost(HostOf(req))
  {
    LedgerRequestGated(Request(req.hostname, req.hostHeader, PercentDecode(req.path)));
  }

  /** On a path without escapes the corrected gate agrees with the one written. */
  lemma DecodedGateAgreesOnPlainPaths(req: Request)
    requires '%' !in req.path
    ensures DecodedDataGate(req) == DataGate(req)
  {
  }

  // ---------------------------------------------------------------------
  // Downloads

  const BadName: Response := Response(400, "不正なファイル名です")
  const NoSuchDownload: Response := Response(404, "ファイルが見つかりません")

  /** The traversal guard on `/download/files/:filename` (after URL decoding). */
  function SafeName(name: string): (ok: bool)
    // no separator anywhere and no two dots in a row
    ensures ok <==> forall i :: 0 <= i < |name| ==>
                      && name[i] != '/' && name[i] != '\\'
                      && !(i + 1 < |name| && name[i] == '.' && name[i + 1] == '.')
  {
    DotPairs(name);
    !Contains(name, "..") && '/' !in name && '\\' !in name
  }

  /** `includes('..')` finds exactly a dot followed by a dot. */
  lemma DotPairs(name: string)
    ensures Contains(name, "..") <==> exists i :: 0 <= i < |name| - 1 && name[i] == '.' && name[i + 1] == '.'
  {
    ContainsIff(name, "..");
    if Contains(name, "..") {
      var i :| OccursAt(name, "..", i);
      assert name[i..i + 2][0] == name[i] && name[i..i + 2][1] == name[i + 1];
      assert 0 <= i < |name| - 1 && name[i] == '.' && name[i + 1] == '.';
    }
    if exists i :: 0 <= i < |name| - 1 && name[i] == '.' && name[i + 1] == '.' {
      var i :| 0 <= i < |name| - 1 && name[i] == '.' && name[i + 1] == '.';
      assert name[i..i + 2] == [name[i], name[i + 1]];
      assert OccursAt(name, "..", i);
    }
  }

  datatype Download = Send(path: Path) | Refuse(response: Response)

  /** `GET /download/files/:filename`, where `present` is every path
      `fs.existsSync` finds, directories included. */
  function DownloadFile(downloadDir: string, name: string, present: set<Path>): (d: Download)
    ensures d == Refuse(BadName) <==> !SafeName(name)
    ensures d == Refuse(NoSuchDownload) <==> SafeName(name) && PathJoin(downloadDir, name) !in present
    ensures d.Send? <==> SafeName(name) && PathJoin(downloadDir, name) in present
    ensures d.Send? ==> d.path == PathJoin(downloadDir, name)
  {
    if !SafeName(name) then Refuse(BadName)
    else if PathJoin(downloadDir, name) !in present then Refuse(NoSuchDownload)
    else Send(PathJoin(downloadDir, name))
  }

  /** A path that is sent for an entry name is a direct child of the
      download directory: the directory, one separator, then the name, which
      is one path component and never the parent directory. */
  lemma SentFileIsChild(downloadDir: string, name: string, present: set<Path>)
    requires DownloadFile(downloadDir, name, present).Send? && !NamesDir(name)
    ensures '/' !in name && '\\' !in name && name != ".."
    ensures var p, d := DownloadFile(downloadDir, name, present).path, DirPart(downloadDir);
            && p[|p| - |name|..] == name
            && (d != "" ==> p[..|d|] == d && p[|p| - |name| - 1] == '/' && |p| <= |d| + |name| + 1)
            && (d == "" ==> p == name)
  {
    SafeNameIsComponent(name);
    EntryPath(downloadDir, name);
  }

  /** A safe name is one path component other than the parent directory. */
  lemma SafeNameIsComponent(name: string)
    requires SafeName(name)
    ensures '/' !in name && '\\' !in name && name != ".."
  {
    assert StartsWith("..", "..");
  }

  /** The name `.` (sent as `%2E`) passes the guard and `path.join` folds it
      away: the download directory itself is what is sent, when it exists. */
  lemma DotSendsDirectory(downloadDir: string, present: set<Path>)
    requires downloadDir != "" && DirPart(downloadDir) in present
    ensures DownloadFile(downloadDir, ".", present) == Send(DirPart(downloadDir))
  {
    assert !Contains(".", "..");
  }

  /** Any name with `..` in it is refused before the filesystem is consulted. */
  lemma TraversalRefused(downloadDir: string, before: string, after: string, present: set<Path>)
    ensures DownloadFile(downloadDir, before + ".." + after, present) == Refuse(BadName)
  {
    ContainsMiddle(before, "..", after);
  }

  // ---------------------------------------------------------------------
  // The download listing

  datatype FileStat = FileStat(size: nat, mtime: string)

  /** A directory entry; `stat` is `None` when `fs.promises.stat` rejects. */
  datatype DirEntry = DirEntry(name: string, isFile: bool, stat: Option<FileStat>)

  datatype FileInfo = FileInfo(name: string, size: nat, mtime: string)

  const ListingFailed: Response := Response(500, "ファイル一覧の取得に失敗しました")

  datatype Listing = Files(files: seq<FileInfo>) | ListError(response: Response)

  /** Entries the listing shows: regular files whose name does not start with a dot. */
  predicate Listed(e: DirEntry) {
    e.isFile && !StartsWith(e.name, ".")
  }

  function Visible(entries: seq<DirEntry>): (v: seq<DirEntry>)
    ensures forall e :: e in v <==> e in entries && Listed(e)
    ensures |v| <= |entries|
  {
    if |entries| == 0 then []
    else if Listed(entries[0]) then [entries[0]] + Visible(entries[1..])
    else Visible(entries[1..])
  }

  predicate AllStated(entries: seq<DirEntry>) {
    forall i :: 0 <= i < |entries| ==> entries[i].stat.Some?
  }

  /** The `{name, size, mtime}` object of each entry. */
  function Infos(entries: seq<DirEntry>): (r: seq<FileInfo>)
    requires AllStated(entries)
    ensures |r| == |entries|
    ensures forall i :: 0 <= i < |r| ==> r[i].name == entries[i].name
    // size and time come from the entry's own `stat`
    ensures forall i :: 0 <= i < |r| ==> r[i].size == entries[i].stat.value.size && r[i].mtime == entries[i].stat.value.mtime
  {
    if |entries| == 0 then []
    else [FileInfo(entries[0].name, entries[0].stat.value.size, entries[0].stat.value.mtime)] + Infos(entries[1..])
  }

  /** `a.name.localeCompare(b.name)` is abstracted as a collation key: the
      listing is ordered by some total order on names. */
  predicate SortedBy(files: seq<FileInfo>, collate: string -> int) {
    forall i, j :: 0 <= i < j < |files| ==> collate(files[i].name) <= collate(files[j].name)
  }

  function Insert(f: FileInfo, sorted: seq<FileInfo>, collate: string -> int): (r: seq<FileInfo>)
    requires SortedBy(sorted, collate)
    ensures SortedBy(r, collate)
    ensures multiset(r) == multiset(sorted) + multiset{f}
    decreases |sorted|
  {
    if |sorted| == 0 then [f]
    else if collate(f.name) <= collate(sorted[0].name) then [f] + sorted
    else
      var rest := Insert(f, sorted[1..], collate);
      assert sorted == [sorted[0]] + sorted[1..];
      InsertAboveHead(f, sorted, rest, collate);
      [sorted[0]] + rest
  }

  /** Every element of a permutation of `f` and the tail of `sorted` sorts
      after `sorted`'s head when `f` does. */
  lemma InsertAboveHead(f: FileInfo, sorted: seq<FileInfo>, rest: seq<FileInfo>, collate: string -> int)
    requires SortedBy(sorted, collate) && |sorted| > 0
    requires collate(sorted[0].name) < collate(f.name)
    requires multiset(rest) == multiset(sorted[1..]) + multiset{f}
    ensures forall k :: 0 <= k < |rest| ==> collate(sorted[0].name) <= collate(rest[k].name)
  {
    forall k | 0 <= k < |rest|
      ensures collate(sorted[0].name) <= collate(rest[k].name)
    {
      assert rest[k] in multiset(rest);
      if rest[k] != f {
        assert rest[k] in multiset(sorted[1..]);
        var j :| 0 <= j < |sorted[1..]| && sorted[1..][j] == rest[k];
        assert sorted[j + 1] == rest[k];
      }
    }
  }

  function SortByName(files: seq<FileInfo>, collate: string -> int): (r: seq<FileInfo>)
    ensures SortedBy(r, collate)
    ensures multiset(r) == multiset(files)
  {
    if |files| == 0 then []
    else
      assert files == [files[0]] + files[1..];
      Insert(files[0], SortByName(files[1..], collate), collate)
  }

  /** `GET /download/api/files`: `readdir` then a `stat` of every shown
      entry; any rejection makes the whole listing a 500. */
  function ListDownloads(readdir: Result<seq<DirEntry>, IoError>, collate: string -> int): (l: Listing)
    ensures l.ListError? <==> readdir.Failure? || !AllStated(Visible(readdir.value))
    ensures l.ListError? ==> l.response == ListingFailed
    ensures l.Files? ==> SortedBy(l.files, collate)
    ensures l.Files? ==> multiset(l.files) == multiset(Infos(Visible(readdir.value)))
  {
    if readdir.Failure? then ListError(ListingFailed)
    else
      var shown := Visible(readdir.value);
      if !AllStated(shown) then ListError(ListingFailed)
      else Files(SortByName(Infos(shown), collate))
  }

  /** The listing names exactly the regular, non-hidden files of the directory. */
  lemma ListingNamesShownEntries(entries: seq<DirEntry>, collate: string -> int, name: string)
    requires ListDownloads(Success(entries), collate).Files?
    ensures (exists f :: f in ListDownloads(Success(entries), collate).files && f.name == name)
        <==> (exists e :: e in entries && Listed(e) && e.name == name)
  {
    var shown := Visible(entries);
    var files := ListDownloads(Success(entries), collate).files;
    SameNames(files, Infos(shown), name);
    InfosKeepNames(shown, name);
  }

  /** Two orderings of the same files name the same files. */
  lemma SameNames(a: seq<FileInfo>, b: seq<FileInfo>, name: string)
    requires multiset(a) == multiset(b)
    ensures (exists f :: f in a && f.name == name) <==> (exists f :: f in b && f.name == name)
  {
    if exists f :: f in a && f.name == name {
      var f :| f in a && f.name == name;
      assert f in multiset(b);
    }
    if exists f :: f in b && f.name == name {
      var f :| f in b && f.name == name;
      assert f in multiset(a);
    }
  }

  /** The information objects carry exactly the entries' names. */
  lemma InfosKeepNames(entries: seq<DirEntry>, name: string)
    requires AllStated(entries)
    ensures (exists f :: f in Infos(entries) && f.name == name) <==> (exists e :: e in entries && e.name == name)
  {
    var infos := Infos(entries);
    if exists f :: f in infos && f.name == name {
      var f :| f in infos && f.name == name;
      var i :| 0 <= i < |infos| && infos[i] == f;
      assert entries[i] in entries;
    }
    if exists e :: e in entries && e.name == name {
      var e :| e in entries && e.name == name;
      var i :| 0 <= i < |entries| && entries[i] == e;
      assert infos[i] in infos;
    }
  }

  // ---------------------------------------------------------------------
  // tus hooks

  /** The margin the admission check keeps free, in GiB. */
  const AdmissionMarginGB: int := 5

  datatype Admission = Accepted | InsufficientStorage(check: SpaceCheck)

  /** `onUploadCreate`: a truthy declared length is checked against the
      free space of the staging directory; an error raised by the check is
      logged and the upload accepted. `checkError` is that error; the
      modelled check itself never raises. */
  function OnUploadCreate(size: Option<int>, run: DfRun, uploadsDir: string, checkError: Option<string>): (a: Admission)
    ensures size.None? || size.value == 0 ==> a == Accepted
    ensures checkError.Some? ==> a == Accepted
    ensures a.InsufficientStorage? <==>
              size.Some? && size.value != 0 && checkError.None?
              && !CheckSufficientSpace(run, uploadsDir, size.value, AdmissionMarginGB).sufficient
    ensures a.InsufficientStorage? ==> a.check == CheckSufficientSpace(run, uploadsDir, size.value, AdmissionMarginGB)
  {
    if size.None? || size.value == 0 then Accepted
    else if checkError.Some? then Accepted
    else
      var check := CheckSufficientSpace(run, uploadsDir, size.value, AdmissionMarginGB);
      if check.sufficient then Accepted else InsufficientStorage(check)
  }

  /** The HTTP status of an admission: the request goes on, or 507. */
  function AdmissionStatus(a: Admission): (status: Option<int>)
    ensures status.Some? <==> a.InsufficientStorage?
    ensures status.Some? ==> status.value == 507
  {
    if a.InsufficientStorage? then Some(507) else None
  }

  /** A smaller declared upload is admitted whenever a larger one is. */
  lemma AdmissionMonotone(size: int, smaller: int, run: DfRun, uploadsDir: string)
    requires 0 < smaller <= size
    requires OnUploadCreate(Some(size), run, uploadsDir, None) == Accepted
    ensures OnUploadCreate(Some(smaller), run, uploadsDir, None) == Accepted
  {
    RequestMonotone(run, uploadsDir, size, smaller, AdmissionMarginGB);
  }

  /** When `df` cannot be read every upload within the safe-integer range is admitted. */
  lemma AdmissionFailsOpen(size: int, run: DfRun, uploadsDir: string)
    requires run.DfFailed?
    requires size + AdmissionMarginGB * GiB <= MaxSafeInteger
    ensures OnUploadCreate(Some(size), run, uploadsDir, None) == Accepted
  {
    FailOpen(run, uploadsDir, size, AdmissionMarginGB);
  }

  /** The answer of `onUploadFinish`: the response always goes on; the
      pipeline's error, if any, is only logged. */
  datatype FinishReply = FinishReply(passesOn: bool, logged: Option<PostFinish.Thrown>)

  /** `onUploadFinish`: runs the pipeline and swallows whatever it raised. */
  method OnUploadFinish(fs: Fs, upload: PostFinish.Upload, config: PostFinish.Config, env: PostFinish.Env)
    returns (reply: FinishReply, outcome: PostFinish.PostFinishResult)
    ensures reply.passesOn
    ensures reply.logged == outcome.error
    ensures outcome.error.None? ==> |outcome.ledger| == 1 && outcome.ledger[0].id == upload.id
    ensures outcome.archivedName.None? ==> outcome.ledger == [] && outcome.error.Some?
    // nothing is logged for an upload on disk, with room, no fault and an accepted verdict
    ensures var dir := PostFinish.ArchiveDir(config, env.homeDir);
            var uploaded := PostFinish.UploadedFile(dir, upload.id);
            PostFinish.FaultFree(env) && uploaded in fs && CheckSufficientSpace(env.df, dir, |fs[uploaded]|, 2).sufficient
            && PostFinish.FormatVerdict(Probe.GetVideoMetadata(env.probe), config).Success?
            ==> reply.logged.None?
  {
    outcome := PostFinish.ExecutePostFinish(fs, upload, config, env);
    reply := FinishReply(true, outcome.error);
  }

  // ---------------------------------------------------------------------
  // Where tus stages an upload

  /** The settings the server reads: the pipeline's, plus the staging
      directory given to tus (`""` when unset). */
  datatype ServerConfig = ServerConfig(pipeline: PostFinish.Config, uploadsDir: string)

  /** `config.uploadsDir || ~/TOD-M-Files/uploads`. */
  function StagingDir(config: ServerConfig, homeDir: string): (d: string)
    ensures config.uploadsDir != "" ==> d == config.uploadsDir
  {
    if config.uploadsDir != "" then config.uploadsDir else PathJoin(PathJoin(homeDir, "TOD-M-Files"), "uploads")
  }

  /** The tus file store writes an upload's bytes under its id. */
  function StoreUpload(fs: Fs, stagingDir: string, id: string, bytes: Bytes): (r: Fs)
    ensures PathJoin(stagingDir, id) in r && r[PathJoin(stagingDir, id)] == bytes
  {
    fs[PathJoin(stagingDir, id) := bytes]
  }

  /** The pipeline finds the stored upload where it looks for it, provided
      the staging directory is the archive's `incoming` directory, which the
      settings screen guarantees whenever an archive directory is saved. */
  lemma StagedUploadIsFound(config: ServerConfig, homeDir: string, fs: Fs, id: string, bytes: Bytes)
    requires StagingDir(config, homeDir) == PostFinish.UploadsDir(PostFinish.ArchiveDir(config.pipeline, homeDir))
    ensures var stored := StoreUpload(fs, StagingDir(config, homeDir), id, bytes);
            var staged := PostFinish.UploadedFile(PostFinish.ArchiveDir(config.pipeline, homeDir), id);
            staged in stored && stored[staged] == bytes
  {
  }

  /** With neither directory set, tus stores under `uploads` while the
      pipeline looks under `archive/incoming`: the two fallbacks disagree. */
  lemma FallbacksDisagree(pipeline: PostFinish.Config, homeDir: string)
    requires pipeline.archiveDir == ""
    ensures StagingDir(ServerConfig(pipeline, ""), homeDir)
         != PostFinish.UploadsDir(PostFinish.ArchiveDir(pipeline, homeDir))
  {
    var base := PathJoin(homeDir, "TOD-M-Files");
    var staging, incoming := "uploads", "archive";
    assert !NamesDir(incoming) && incoming[|incoming| - 1] != '/';
    PathJoinNested(base, incoming, "incoming");
    if PathJoin(base, staging) == PathJoin(base, incoming + "/" + "incoming") {
      PathJoinInjective(base, staging, incoming + "/" + "incoming");
    }
  }
}
