/**
 * pkg/installer/installer.go: installing the chosen binaries of an archive
 * is extracting them, after refusing an empty choice; a failed extraction
 * keeps the paths it did write and wraps its error.
 */
module Installer {
  import opened Types
  import opened Os
  import opened Archive
  import opened ExtractionLaws

  /** What Install does to the files and returns: the installed paths and the error, if any. */
  function InstallResult(files: Files, access: Access, archivePath: string, destDir: string,
                         binaries: seq<string>, view: ArchiveView): (Files, seq<string>, Option<Error>)
  {
    if binaries == [] then (files, [], Some(NoBinaries))
    else
      var (f, x) := ExtractResult(files, access, archivePath, destDir, binaries, view);
      (f, x.paths, if x.err.Some? then Some(ExtractionFailed(x.err.value)) else None)
  }

  /** Install: the empty-list guard, then one extraction whose partial result is passed on. */
  method Install(fs: FileSystem, archivePath: string, destDir: string, binaries: seq<string>, view: ArchiveView)
    returns (installed: seq<string>, err: Option<Error>)
    modifies fs
    ensures (fs.files, installed, err) == InstallResult(old(fs.files), fs.access, archivePath, destDir, binaries, view)
    ensures binaries == [] ==> installed == [] && err == Some(NoBinaries) && fs.files == old(fs.files)
  {
    if |binaries| == 0 {
      return [], Some(NoBinaries);
    }
    var o := Extract(fs, archivePath, destDir, binaries, view);
    installed := o.paths;
    if o.err.Some? {
      return installed, Some(ExtractionFailed(o.err.value));
    }
    err := None;
  }

  /**
   * Once the archive opens, the installed paths are the destinations of the
   * leading run of requested entries that copied, in archive order. When
   * that run stops short, the install fails with the next entry's copy
   * error, wrapped; otherwise it fails exactly when the stream breaks, with
   * that error wrapped. So it fails exactly when some requested entry fails
   * to copy or the stream breaks.
   */
  lemma InstallOutcome(files: Files, access: Access, archivePath: string, destDir: string,
                       binaries: seq<string>, view: ArchiveView, s: Stream)
    requires binaries != [] && Open(archivePath, view) == Ok(s)
    ensures var (_, installed, err) := InstallResult(files, access, archivePath, destDir, binaries, view);
            var job := JobFor(destDir, binaries);
            var R := Requested(s.entries, job.wanted);
            && |installed| <= |R|
            && installed == Dests(job.dest, R[..|installed|])
            && AllCopied(files, access, job.dest, R[..|installed|])
            && (|installed| < |R| ==>
                  var n := |installed|;
                  var copyErr := CopyError(CopyAll(files, access, job.dest, R[..n]), access, R[n], job.dest(R[n].name));
                  copyErr.Some? && err == Some(ExtractionFailed(copyErr.value)))
            && (|installed| == |R| ==> err == if s.end.Broken? then Some(ExtractionFailed(s.end.err)) else None)
            && (err.None? <==> AllCopied(files, access, job.dest, R) && s.end == Eof)
  {
    var job := JobFor(destDir, binaries);
    ExtractReport(files, access, job, s.entries, s.end);
    ExtractSucceedsIff(files, access, job, s.entries, s.end);
  }

  /**
   * A non-empty list that names no entry of an archive that opens and reads
   * cleanly succeeds with nothing installed and the files untouched: the
   * result length is not checked again.
   */
  lemma InstallNothingMatched(files: Files, access: Access, archivePath: string, destDir: string,
                              binaries: seq<string>, view: ArchiveView, s: Stream)
    requires binaries != [] && Open(archivePath, view) == Ok(s) && s.end == Eof
    requires forall i :: 0 <= i < |s.entries| ==> s.entries[i].name !in binaries
    ensures InstallResult(files, access, archivePath, destDir, binaries, view) == (files, [], None)
  {
    var job := JobFor(destDir, binaries);
    forall i | 0 <= i < |s.entries| ensures s.entries[i].name !in job.wanted {
    }
    assert ExtractResult(files, access, archivePath, destDir, binaries, view) == (files, Extraction([], None)) by {
      ExtractNothingRequested(files, access, job, s.entries, s.end);
      ExtractResultOfStream(files, access, archivePath, destDir, binaries, view, s);
    }
  }

  /** An archive that cannot be opened, or has an unsupported extension, installs nothing and changes nothing. */
  lemma InstallUnopenable(files: Files, access: Access, archivePath: string, destDir: string,
                          binaries: seq<string>, view: ArchiveView)
    requires binaries != [] && Open(archivePath, view).Err?
    ensures InstallResult(files, access, archivePath, destDir, binaries, view) ==
            (files, [], Some(ExtractionFailed(Open(archivePath, view).error)))
  {
  }
}
