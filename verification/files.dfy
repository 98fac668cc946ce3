/** The filesystem as the pipeline sees it: a finite map from paths to file
    contents, with the three primitives `moveUploadedFile` is built from.
    A failure the operating system would report (a missing file, a
    cross-device rename, a full disk) is an input: each primitive takes an
    optional injected error and fails with it, leaving the map unchanged. */
module Files {
  import opened Wrappers
  import opened Paths

  newtype byte = x: int | 0 <= x < 256
  type Bytes = seq<byte>
  type Fs = map<Path, Bytes>

  /** A Node.js system error: its `code` (`ENOENT`, `EXDEV`, ...) and message. */
  datatype IoError = IoError(code: string, message: string)

  const Enoent: string := "ENOENT"
  const Exdev: string := "EXDEV"

  function NoSuchFile(p: Path): IoError {
    IoError(Enoent, "ENOENT: no such file or directory, " + p)
  }

  /** The filesystem after an operation, and the error it raised, if any. */
  datatype Outcome = Outcome(fs: Fs, error: Option<IoError>) {
    predicate Ok() {
      error.None?
    }
  }

  /** The map in which the contents of `src` have moved to `dst`. */
  function Moved(fs: Fs, src: Path, dst: Path): Fs
    requires src in fs
  {
    (fs - {src})[dst := fs[src]]
  }

  /** What a completed move means: the target holds exactly the source's
      bytes, the source is gone, and no other path changes. */
  lemma MovedFacts(fs: Fs, src: Path, dst: Path)
    requires src in fs && src != dst
    ensures dst in Moved(fs, src, dst) && Moved(fs, src, dst)[dst] == fs[src]
    ensures src !in Moved(fs, src, dst)
    ensures forall p :: p != src && p != dst ==> (p in Moved(fs, src, dst) <==> p in fs)
    ensures forall p :: p != src && p != dst && p in fs ==> Moved(fs, src, dst)[p] == fs[p]
  {
  }

  /** `fs.rename(src, dst)`: replaces `dst` if it exists. */
  function Rename(fs: Fs, src: Path, dst: Path, fault: Option<IoError>): (r: Outcome)
    ensures r.Ok() <==> fault.None? && src in fs
    ensures r.Ok() ==> r.fs == Moved(fs, src, dst)
    ensures !r.Ok() ==> r.fs == fs
  {
    if fault.Some? then Outcome(fs, fault)
    else if src !in fs then Outcome(fs, Some(NoSuchFile(src)))
    else Outcome(Moved(fs, src, dst), None)
  }

  /** `fs.copyFile(src, dst)`: replaces `dst` if it exists. */
  function CopyFile(fs: Fs, src: Path, dst: Path, fault: Option<IoError>): (r: Outcome)
    ensures r.Ok() <==> fault.None? && src in fs
    ensures r.Ok() ==> dst in r.fs && r.fs[dst] == fs[src] && r.fs.Keys == fs.Keys + {dst}
    ensures r.Ok() ==> forall p :: p in fs && p != dst ==> r.fs[p] == fs[p]
    ensures !r.Ok() ==> r.fs == fs
  {
    if fault.Some? then Outcome(fs, fault)
    else if src !in fs then Outcome(fs, Some(NoSuchFile(src)))
    else Outcome(fs[dst := fs[src]], None)
  }

  /** `fs.unlink(p)`. */
  function Unlink(fs: Fs, p: Path, fault: Option<IoError>): (r: Outcome)
    ensures r.Ok() <==> fault.None? && p in fs
    ensures r.Ok() ==> r.fs == fs - {p}
    ensures !r.Ok() ==> r.fs == fs
    ensures r.error.Some? && fault.None? ==> r.error.value.code == Enoent
  {
    if fault.Some? then Outcome(fs, fault)
    else if p !in fs then Outcome(fs, Some(NoSuchFile(p)))
    else Outcome(fs - {p}, None)
  }

  /** The injected errors of the three primitives a move may call. */
  datatype MoveFaults = MoveFaults(rename: Option<IoError>, copy: Option<IoError>, unlink: Option<IoError>)

  /** `moveUploadedFile(source, target)`: a rename; when the rename reports
      `EXDEV` (source and target on different volumes) a copy followed by
      an unlink of the source; every other error propagates. */
  function MoveUploadedFile(fs: Fs, src: Path, dst: Path, faults: MoveFaults): (r: Outcome)
    // success: by rename, or by EXDEV fallback with copy and unlink both succeeding
    ensures r.Ok() <==> src in fs && (faults.rename.None?
                                     || (faults.rename.value.code == Exdev && faults.copy.None? && faults.unlink.None?))
    // a successful move leaves exactly the relocated file
    ensures r.Ok() && src != dst ==> r.fs == Moved(fs, src, dst)
    // a rename error other than EXDEV is the error raised, and nothing changed
    ensures faults.rename.Some? && faults.rename.value.code != Exdev ==> r == Outcome(fs, faults.rename)
    // a failed fallback copy changes nothing
    ensures faults.rename.Some? && faults.rename.value.code == Exdev && !CopyFile(fs, src, dst, faults.copy).Ok()
            ==> r.fs == fs && r.error == CopyFile(fs, src, dst, faults.copy).error
    // a failed unlink after a good copy leaves both files, with the same contents
    ensures faults.rename.Some? && faults.rename.value.code == Exdev && src in fs && faults.copy.None? && faults.unlink.Some?
            ==> r.fs == fs[dst := fs[src]] && r.error == faults.unlink
  {
    var renamed := Rename(fs, src, dst, faults.rename);
    if renamed.Ok() then renamed
    else if renamed.error.value.code != Exdev then renamed
    else
      var copied := CopyFile(fs, src, dst, faults.copy);
      if !copied.Ok() then copied
      else
        assert src in copied.fs;
        var unlinked := Unlink(copied.fs, src, faults.unlink);
        if unlinked.Ok() && src != dst then
          assert unlinked.fs == Moved(fs, src, dst);
          unlinked
        else unlinked
  }

  /** Both routes of a successful move produce the same filesystem: the
      copy-and-unlink fallback is indistinguishable from a rename. */
  lemma FallbackAgreesWithRename(fs: Fs, src: Path, dst: Path, e: IoError)
    requires src in fs && src != dst && e.code == Exdev
    ensures MoveUploadedFile(fs, src, dst, MoveFaults(Some(e), None, None))
         == Rename(fs, src, dst, None)
  {
  }
}
