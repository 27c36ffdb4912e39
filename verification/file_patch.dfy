/** Patching one candidate file, and the first-match search over the fixed
    candidate list, against an abstract file system. */
module FilePatch {
  import opened Wrappers
  import opened Injection

  type Path = string

  /** Known install locations of the web client's `index.html`, in the order
      they are tried: two Docker images, the official Docker image, a native
      Linux install and two Windows installs. */
  const IndexPaths: seq<Path> := [
    "/usr/share/jellyfin/web/index.html",
    "/usr/lib/jellyfin/bin/jellyfin-web/index.html",
    "/usr/share/webapps/jellyfin/web/index.html",
    "/usr/share/jellyfin-web/index.html",
    "C:\\Program Files\\Jellyfin\\Server\\jellyfin-web\\index.html",
    "C:\\ProgramData\\Jellyfin\\Server\\jellyfin-web\\index.html"
  ]

  /** Which I/O call on a file throws, if any. Both an access violation and
      any other exception are caught the same way, so one fault kind per call
      is enough. */
  datatype Fault = NoFault | ReadFault | WriteFault

  /** What the file system holds at a path: whether it is a regular file,
      whether the read-write open probe succeeds, the text it holds, and
      which call on it fails. */
  datatype FileEntry = FileEntry(isFile: bool, writable: bool, content: string, fault: Fault)

  /** A path absent from the map does not exist. */
  type FileSystem = map<Path, FileEntry>

  /** How a single candidate ended; the caller only asks whether it succeeded. */
  datatype FileOutcome = Missing | NotWritable | Failed | AlreadyPatched | Written
  {
    predicate Succeeded()
    {
      AlreadyPatched? || Written?
    }
  }

  datatype FileStep = FileStep(outcome: FileOutcome, fs: FileSystem)

  /** A candidate the patcher can use: an existing, writable file that can be
      read and that is either patched already or can be written. */
  predicate Usable(fs: FileSystem, path: Path)
  {
    && path in fs
    && fs[path].isFile
    && fs[path].writable
    && fs[path].fault != ReadFault
    && (fs[path].fault == WriteFault ==> IsPatched(fs[path].content))
  }

  /** One candidate: skip it when missing, not writable or failing, report
      success without writing when it already carries the patch, else write
      the patched content. */
  function TryPatchFile(fs: FileSystem, path: Path): (r: FileStep)
    ensures r.outcome.Succeeded() <==> Usable(fs, path)
    ensures !r.outcome.Written? ==> r.fs == fs
    ensures r.fs.Keys == fs.Keys
    ensures forall q :: q in fs && q != path ==> r.fs[q] == fs[q]
    ensures r.outcome.Succeeded() ==> IsPatched(r.fs[path].content)
    ensures r.outcome.Written? ==>
      && !IsPatched(fs[path].content)
      && r.fs[path] == fs[path].(content := Patch(fs[path].content))
  {
    if path !in fs || !fs[path].isFile then FileStep(Missing, fs)
    else if !fs[path].writable then FileStep(NotWritable, fs)
    else if fs[path].fault == ReadFault then FileStep(Failed, fs)
    else if IsPatched(fs[path].content) then FileStep(AlreadyPatched, fs)
    else if fs[path].fault == WriteFault then FileStep(Failed, fs)
    else FileStep(Written, fs[path := fs[path].(content := Patch(fs[path].content))])
  }

  /** Once a candidate has been used, trying it again finds the patch and
      writes nothing, and no other candidate's usability has changed. */
  lemma SecondVisitIsNoOp(fs: FileSystem, path: Path)
    requires Usable(fs, path)
    ensures var fs1 := TryPatchFile(fs, path).fs;
      && TryPatchFile(fs1, path) == FileStep(AlreadyPatched, fs1)
      && forall q :: q != path ==> (Usable(fs1, q) <==> Usable(fs, q))
  {
  }

  /** One pass over `candidates`: the first usable one, in list order, is
      patched (or found patched) and returned; `examined` lists the
      candidates visited, so nothing after the match is touched. */
  method SearchCandidates(fs: FileSystem, candidates: seq<Path>)
    returns (found: Option<Path>, fs': FileSystem, examined: seq<Path>)
    ensures |examined| <= |candidates| && examined == candidates[..|examined|]
    ensures found.None? ==>
      && examined == candidates
      && fs' == fs
      && forall j :: 0 <= j < |candidates| ==> !Usable(fs, candidates[j])
    ensures found.Some? ==>
      && |examined| > 0
      && found.value == examined[|examined| - 1]
      && Usable(fs, found.value)
      && (forall j :: 0 <= j < |examined| - 1 ==> !Usable(fs, examined[j]))
      && fs' == TryPatchFile(fs, found.value).fs
  {
    found, fs', examined := None, fs, [];
    var i := 0;
    while i < |candidates|
      invariant 0 <= i <= |candidates|
      invariant examined == candidates[..i]
      invariant fs' == fs
      invariant forall j :: 0 <= j < i ==> !Usable(fs, candidates[j])
    {
      var step := TryPatchFile(fs', candidates[i]);
      examined := examined + [candidates[i]];
      assert examined == candidates[..i + 1];
      if step.outcome.Succeeded() {
        found, fs' := Some(candidates[i]), step.fs;
        return;
      }
      i := i + 1;
    }
    assert candidates[..i] == candidates;
  }

  /** The search the patcher runs on every attempt, over the fixed list. */
  method TryPatchOnce(fs: FileSystem) returns (found: Option<Path>, fs': FileSystem, examined: seq<Path>)
    ensures |examined| <= |IndexPaths| && examined == IndexPaths[..|examined|]
    ensures found.None? ==>
      && examined == IndexPaths
      && fs' == fs
      && forall j :: 0 <= j < |IndexPaths| ==> !Usable(fs, IndexPaths[j])
    ensures found.Some? ==>
      && |examined| > 0
      && found.value == examined[|examined| - 1]
      && Usable(fs, found.value)
      && (forall j :: 0 <= j < |examined| - 1 ==> !Usable(fs, examined[j]))
      && fs' == TryPatchFile(fs, found.value).fs
  {
    found, fs', examined := SearchCandidates(fs, IndexPaths);
  }
}
