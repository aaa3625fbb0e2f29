/**
 * The archive engine of pkg/archive/archive.go: the executable classifier,
 * the extension-based format dispatch, detection of candidate binaries and
 * selective extraction into a destination directory.
 *
 * Byte-level ZIP, TAR and gzip decoding is not modelled. An archive is seen
 * through its container readers: an `ArchiveView` says what the ZIP reader,
 * the gzip+TAR reader and the plain TAR reader yield when opened on the
 * archive's path, namely an open error or a decoded sequence of entries.
 */
module Archive {
  import opened Types
  import opened GoStrings
  import opened GoPaths
  import opened Os

  // ---------------------------------------------------------------------------
  // Decoded archives
  // ---------------------------------------------------------------------------

  /** What reading an entry's contents yields. */
  datatype Payload =
    | Intact(bytes: seq<byte>)                      // every byte is read
    | Unopenable(openErr: Error)                    // zip.File.Open fails before any byte is read
    | Truncated(prefix: seq<byte>, readErr: Error)  // reading fails after `prefix`

  /** One archive entry: its slash-separated name, mode bits, directory flag and contents. */
  datatype Entry = Entry(name: string, mode: FileMode, isDir: bool, payload: Payload)

  /** A TAR entry's contents are read from the stream itself; there is no separate open step to fail. */
  type TarEntry = e: Entry | !e.payload.Unopenable? witness Entry("", 0, false, Intact([]))

  /** How a forward-only reader ends: at end of input, or with an error from tar.Reader.Next. */
  datatype End = Eof | Broken(err: Error)

  /** The error a stream's end reports. */
  function EndError(end: End): Option<Error> {
    if end.Broken? then Some(end.err) else None
  }

  /** What tar.Reader yields: headers in stream order, then the way the stream ends. */
  datatype TarStream = TarStream(headers: seq<TarEntry>, end: End)

  /**
   * The archive file as each container reader sees it. A ZIP's central
   * directory is read when it is opened, so a ZIP that opens lists all its
   * entries; a TAR stream can break after any header.
   */
  datatype ArchiveView = ArchiveView(
    asZip: Result<seq<Entry>>,
    asTarGz: Result<TarStream>,
    asTar: Result<TarStream>)

  /** The entries of an opened archive, whatever its container, and how reading ends. */
  datatype Stream = Stream(entries: seq<Entry>, end: End)

  // ---------------------------------------------------------------------------
  // The executable classifier (isExecutable)
  // ---------------------------------------------------------------------------

  /** The entry sits in a `bin` directory: "/bin/" anywhere in its name, or "bin/" at the start. */
  predicate InBinDir(name: string) {
    Contains(name, "/bin/") || HasPrefix(name, "bin/")
  }

  /** The lower-cased extensions of interpreted scripts, which are never treated as binaries. */
  predicate IsScriptExt(ext: string) {
    ext == ".sh" || ext == ".py" || ext == ".rb" || ext == ".pl"
  }

  predicate IsExecutable(name: string, mode: FileMode) {
    if InBinDir(name) then true
    else if mode & ExecBits != 0 then !IsScriptExt(ToLower(Ext(name)))
    else false
  }

  /** A bin directory decides on its own: the mode is not consulted. */
  lemma BinDirWins(name: string, mode: FileMode)
    requires InBinDir(name)
    ensures IsExecutable(name, mode)
  {
  }

  /** Outside a bin directory an entry is executable iff an execute bit is set and it is not a script. */
  lemma ExecutableOutsideBinDir(name: string, mode: FileMode)
    requires !InBinDir(name)
    ensures IsExecutable(name, mode) <==> mode & ExecBits != 0 && !IsScriptExt(ToLower(Ext(name)))
  {
  }

  /** Any name containing "/bin/", a bin directory under some parent, is executable, with any mode. */
  lemma BinSegmentAnywhere(parent: string, rest: string, mode: FileMode)
    ensures IsExecutable(parent + "/bin/" + rest, mode)
  {
    ContainsInfix(parent, "/bin/", rest);
  }

  /**
   * A script extension in any letter case excludes an entry outside a bin
   * directory, whatever its mode bits and whatever precedes the extension.
   */
  lemma ScriptsExcluded(stem: string, ext: string, mode: FileMode)
    requires |ext| >= 1 && ext[0] == '.' && '.' !in ext[1..] && '/' !in ext
    requires IsScriptExt(ToLower(ext))
    requires !InBinDir(stem + ext)
    ensures !IsExecutable(stem + ext, mode)
  {
    ExtOfSuffix(stem, ext);
  }

  /** A name without a '/' is not in a bin directory. */
  lemma NoSlashNoBinSegment(name: string)
    requires '/' !in name
    ensures !InBinDir(name)
  {
    if |name| >= 4 {
      assert name[3] in name;
    }
    ContainsIffOccurs(name, "/bin/");
    forall i | 0 <= i && i + 5 <= |name| ensures !OccursAt(name, "/bin/", i) {
      assert name[i..i + 5][0] == name[i];
    }
  }

  /** A name with a single '/' is in a bin directory only when it is "bin/<file>". */
  lemma OneSlashNoBinSegment(dir: string, file: string)
    requires '/' !in dir && '/' !in file && dir != "bin"
    ensures !InBinDir(dir + "/" + file)
  {
    var name := dir + "/" + file;
    assert forall k :: 0 <= k < |name| && name[k] == '/' ==> k == |dir|;
    ContainsIffOccurs(name, "/bin/");
    forall i | 0 <= i && i + 5 <= |name| ensures !OccursAt(name, "/bin/", i) {
      assert name[i] != '/' || name[i + 4] != '/';
      assert name[i..i + 5][0] == name[i] && name[i..i + 5][4] == name[i + 4];
    }
    if |name| >= 4 && name[3] == '/' {
      assert name[..3] == dir;
    }
  }

  /** The classifier's unit-test cases for bin directories: the mode does not matter. */
  lemma BinDirExamples()
    ensures IsExecutable("app/bin/tool", 0x1A4)      // 0644
    ensures IsExecutable("bin/mytool", 0x1ED)        // 0755
  {
    BinSegmentAnywhere("app", "tool", 0x1A4);
    assert "app" + "/bin/" + "tool" == "app/bin/tool";
  }

  /** "/bin" at the very end is not a bin directory: "x/bin" with 0644 is not executable. */
  lemma BinAtEndNotBinDir()
    ensures !IsExecutable("x/bin", 0x1A4)
  {
    OneSlashNoBinSegment("x", "bin");
    assert "x" + "/" + "bin" == "x/bin";
  }

  /** The bin rule is consulted before the extension: a script in a bin directory counts. */
  lemma BinDirScriptExample()
    ensures IsExecutable("app/bin/run.sh", 0x1A4)    // 0644
  {
    BinSegmentAnywhere("app", "run.sh", 0x1A4);
    assert "app" + "/bin/" + "run.sh" == "app/bin/run.sh";
  }

  /** The classifier's unit-test case of a plain file with execute bits. */
  lemma ExecBitExample()
    ensures IsExecutable("tool", 0x1ED)              // 0755
  {
    NoSlashNoBinSegment("tool");
  }

  /** The classifier's unit-test case of a plain file without execute bits. */
  lemma NoExecBitExample()
    ensures !IsExecutable("readme.txt", 0x1A4)       // 0644
  {
    NoSlashNoBinSegment("readme.txt");
    assert (0x1A4 as FileMode) & ExecBits == 0;
  }

  /** The classifier's unit-test cases for scripts marked executable. */
  lemma ScriptExamples()
    ensures !IsExecutable("script.sh", 0x1ED)        // 0755
    ensures !IsExecutable("script.py", 0x1ED)        // 0755
  {
    ScriptNameFacts("script", ".sh");
    assert "script" + ".sh" == "script.sh";
    ScriptNameFacts("script", ".py");
    assert "script" + ".py" == "script.py";
  }

  /** The facts the classifier consults for a slash-free name with a lower-case extension. */
  lemma ScriptNameFacts(stem: string, ext: string)
    requires '/' !in stem && |ext| >= 1 && ext[0] == '.' && '.' !in ext[1..] && '/' !in ext
    requires forall i :: 0 <= i < |ext| ==> !('A' <= ext[i] <= 'Z')
    ensures !InBinDir(stem + ext) && ToLower(Ext(stem + ext)) == ext
  {
    NoSlashNoBinSegment(stem + ext);
    LowerCaseExtension(stem, ext);
  }

  // ---------------------------------------------------------------------------
  // Format dispatch (the switch in DetectBinaries and Extract)
  // ---------------------------------------------------------------------------

  datatype Kind = Zip | TarGz | Tar

  /** The container kind a lower-cased extension selects. */
  function KindOf(ext: string): Result<Kind> {
    if ext == ".zip" then Ok(Zip)
    else if ext == ".gz" || ext == ".tgz" then Ok(TarGz)
    else if ext == ".tar" then Ok(Tar)
    else Err(UnsupportedFormat(ext))
  }

  /** The container kind of an archive, from the lower-cased extension of its path. */
  function FormatOf(archivePath: string): Result<Kind> {
    KindOf(ToLower(Ext(archivePath)))
  }

  /** Only the last extension counts, in any letter case; the rest of the path is irrelevant. */
  lemma DispatchOnLastExtension(stem: string, ext: string)
    requires |ext| >= 1 && ext[0] == '.' && '.' !in ext[1..] && '/' !in ext
    ensures FormatOf(stem + ext) == KindOf(ToLower(ext))
  {
    ExtOfSuffix(stem, ext);
  }

  /** An extension without capitals is what the lower-cased Ext of the path gives. */
  lemma LowerCaseExtension(stem: string, ext: string)
    requires |ext| >= 1 && ext[0] == '.' && '.' !in ext[1..] && '/' !in ext
    requires forall i :: 0 <= i < |ext| ==> !('A' <= ext[i] <= 'Z')
    ensures ToLower(Ext(stem + ext)) == ext
  {
    ExtOfSuffix(stem, ext);
    ToLowerOfLower(ext);
  }

  /** Typical archive names, including "x.tar.gz", which dispatches on ".gz". */
  lemma SupportedNameExamples(stem: string)
    ensures FormatOf(stem + ".zip") == Ok(Zip)
    ensures FormatOf(stem + ".tar.gz") == Ok(TarGz)
    ensures FormatOf(stem + ".tar") == Ok(Tar)
  {
    LowerCaseExtension(stem, ".zip");
    LowerCaseExtension(stem + ".tar", ".gz");
    assert stem + ".tar" + ".gz" == stem + ".tar.gz";
    LowerCaseExtension(stem, ".tar");
  }

  /** Extensions are matched case-insensitively: ".TGZ" selects gzip+TAR. */
  lemma UpperCaseExample(stem: string)
    ensures FormatOf(stem + ".TGZ") == Ok(TarGz)
  {
    DispatchOnLastExtension(stem, ".TGZ");
    assert ToLower(".TGZ") == [LowerChar('.'), LowerChar('T'), LowerChar('G'), LowerChar('Z')];
  }

  /** Any other extension is refused, naming the lower-cased extension. */
  lemma UnsupportedExample(stem: string)
    ensures FormatOf(stem + ".rar") == Err(UnsupportedFormat(".rar"))
  {
    LowerCaseExtension(stem, ".rar");
  }

  /**
   * Opens the archive with the reader its extension selects. An unsupported
   * extension fails before any reader is consulted.
   */
  function Open(archivePath: string, view: ArchiveView): Result<Stream> {
    match FormatOf(archivePath)
    case Err(e) => Err(e)
    case Ok(Zip) =>
      (match view.asZip
       case Err(e) => Err(e)
       case Ok(es) => Ok(Stream(es, Eof)))
    case Ok(TarGz) =>
      (match view.asTarGz
       case Err(e) => Err(e)
       case Ok(ts) => Ok(Stream(ts.headers, ts.end)))
    case Ok(Tar) =>
      (match view.asTar
       case Err(e) => Err(e)
       case Ok(ts) => Ok(Stream(ts.headers, ts.end)))
  }

  // ---------------------------------------------------------------------------
  // Detection (DetectBinaries, detectBinariesZip, detectBinariesFromTar)
  // ---------------------------------------------------------------------------

  /** An entry detection reports: not a directory, and accepted by the classifier. */
  predicate IsBinaryEntry(e: Entry) {
    IsExecutable(e.name, e.mode) && !e.isDir
  }

  /** The names of the binary entries, in archive order, repeats kept. */
  function Binaries(entries: seq<Entry>): (names: seq<string>)
    ensures |names| <= |entries|
    decreases |entries|
  {
    if entries == [] then []
    else (if IsBinaryEntry(entries[0]) then [entries[0].name] else []) + Binaries(entries[1..])
  }

  /** Detection distributes over concatenation: order is kept and nothing is merged. */
  lemma {:induction false} BinariesAppend(a: seq<Entry>, b: seq<Entry>)
    ensures Binaries(a + b) == Binaries(a) + Binaries(b)
    decreases |a|
  {
    if a == [] {
      assert a + b == b;
    } else {
      var h := if IsBinaryEntry(a[0]) then [a[0].name] else [];
      assert (a + b)[0] == a[0];
      assert (a + b)[1..] == a[1..] + b;
      assert Binaries(a + b) == h + Binaries(a[1..] + b);
      BinariesAppend(a[1..], b);
      assert h + (Binaries(a[1..]) + Binaries(b)) == (h + Binaries(a[1..])) + Binaries(b);
    }
  }

  /** A name is reported iff some binary entry carries it. */
  lemma {:induction false} BinariesMembership(entries: seq<Entry>, n: string)
    ensures n in Binaries(entries) <==>
            exists i :: 0 <= i < |entries| && entries[i].name == n && IsBinaryEntry(entries[i])
    decreases |entries|
  {
    if entries != [] {
      BinariesMembership(entries[1..], n);
      if n in Binaries(entries[1..]) {
        var i :| 0 <= i < |entries[1..]| && entries[1..][i].name == n && IsBinaryEntry(entries[1..][i]);
        assert entries[i + 1] == entries[1..][i];
      }
      forall i | 0 <= i < |entries| && entries[i].name == n && IsBinaryEntry(entries[i]) && i > 0
        ensures n in Binaries(entries[1..])
      {
        assert entries[1..][i - 1] == entries[i];
      }
    }
  }

  /** What DetectBinaries returns: all the binaries, or the error, never a partial list. */
  function Detection(archivePath: string, view: ArchiveView): Result<seq<string>> {
    match Open(archivePath, view)
    case Err(e) => Err(e)
    case Ok(s) => if s.end.Broken? then Err(s.end.err) else Ok(Binaries(s.entries))
  }

  /** detectBinariesZip, once the reader has opened: one pass over the central directory. */
  method DetectZip(files: seq<Entry>) returns (binaries: seq<string>)
    ensures binaries == Binaries(files)
  {
    binaries := [];
    var i := 0;
    while i < |files|
      invariant 0 <= i <= |files|
      invariant binaries + Binaries(files[i..]) == Binaries(files)
    {
      var f := files[i];
      assert files[i..][1..] == files[i + 1..];
      if IsExecutable(f.name, f.mode) && !f.isDir {
        binaries := binaries + [f.name];
      }
      i := i + 1;
    }
  }

  /** detectBinariesFromTar: a broken stream discards everything collected so far. */
  method DetectFromTar(tr: TarStream) returns (r: Result<seq<string>>)
    ensures tr.end.Broken? ==> r == Err(tr.end.err)
    ensures tr.end.Eof? ==> r == Ok(Binaries(tr.headers))
  {
    var binaries: seq<string> := [];
    var i := 0;
    while i < |tr.headers|
      invariant 0 <= i <= |tr.headers|
      invariant binaries + Binaries(tr.headers[i..]) == Binaries(tr.headers)
    {
      var header := tr.headers[i];
      assert tr.headers[i..][1..] == tr.headers[i + 1..];
      if IsExecutable(header.name, header.mode) && !header.isDir {
        binaries := binaries + [header.name];
      }
      i := i + 1;
    }
    assert tr.headers[i..] == [];
    assert binaries + [] == binaries;
    if tr.end.Broken? {
      return Err(tr.end.err);
    }
    return Ok(binaries);
  }

  /** DetectBinaries: dispatch on the extension, then one detection pass. */
  method DetectBinaries(archivePath: string, view: ArchiveView) returns (r: Result<seq<string>>)
    ensures r == Detection(archivePath, view)
    ensures FormatOf(archivePath).Err? ==> r == Err(UnsupportedFormat(ToLower(Ext(archivePath))))
    ensures r.Ok? ==> exists s :: Open(archivePath, view) == Ok(s) && s.end == Eof && r.value == Binaries(s.entries)
  {
    var kind := FormatOf(archivePath);
    if kind.Err? {
      return Err(kind.error);
    }
    match kind.value
    case Zip =>
      if view.asZip.Err? {
        return Err(view.asZip.error);
      }
      var binaries := DetectZip(view.asZip.value);
      r := Ok(binaries);
    case TarGz =>
      if view.asTarGz.Err? {
        return Err(view.asTarGz.error);
      }
      r := DetectFromTar(view.asTarGz.value);
    case Tar =>
      if view.asTar.Err? {
        return Err(view.asTar.error);
      }
      r := DetectFromTar(view.asTar.value);
  }

  /** A README beside the bin directory, with no execute bit, is neither in a bin directory nor executable. */
  lemma ReadmeNotBinary(mode: FileMode, readme: Payload)
    requires mode & ExecBits == 0
    ensures !IsBinaryEntry(Entry("myapp/README.md", mode, false, readme))
  {
    OneSlashNoBinSegment("myapp", "README.md");
    assert "myapp" + "/" + "README.md" == "myapp/README.md";
  }

  /**
   * The detection test archive: a binary under myapp/bin and a README. The
   * tool's mode does not matter; the README's has no execute bit (0666 for
   * an entry made by zip.Writer.Create, 0644 in the TAR test).
   */
  lemma DetectionScenario(toolMode: FileMode, readmeMode: FileMode, tool: Payload, readme: Payload)
    requires readmeMode & ExecBits == 0
    ensures Binaries([Entry("myapp/bin/tool", toolMode, false, tool),
                      Entry("myapp/README.md", readmeMode, false, readme)]) == ["myapp/bin/tool"]
  {
    ToolIsBinary(toolMode, tool);
    ReadmeNotBinary(readmeMode, readme);
    BinariesOfPair(Entry("myapp/bin/tool", toolMode, false, tool), Entry("myapp/README.md", readmeMode, false, readme));
  }

  /** An archive whose one entry is the file "bin/tool" detects exactly that name, whatever its mode. */
  lemma DetectsTopLevelBinTool(archivePath: string, view: ArchiveView, e: Entry)
    requires e.name == "bin/tool" && !e.isDir
    requires Open(archivePath, view) == Ok(Stream([e], Eof))
    ensures Detection(archivePath, view) == Ok(["bin/tool"])
  {
    assert InBinDir("bin/tool") by {
      assert "bin/tool"[..4] == "bin/";
    }
    assert IsBinaryEntry(e);
    assert [e][1..] == [];
    assert Binaries([e]) == [e.name] + Binaries([]);
    assert Binaries([e]) == ["bin/tool"];
    var st := Stream([e], Eof);
    assert Detection(archivePath, view) == Ok(Binaries(st.entries));
  }

  /** The binary of the detection test archive, found by its bin directory. */
  lemma ToolIsBinary(mode: FileMode, tool: Payload)
    ensures IsBinaryEntry(Entry("myapp/bin/tool", mode, false, tool))
  {
    BinSegmentAnywhere("myapp", "tool", mode);
    assert "myapp" + "/bin/" + "tool" == "myapp/bin/tool";
  }

  /** A binary followed by a non-binary: only the first name is reported. */
  lemma BinariesOfPair(t: Entry, r: Entry)
    requires IsBinaryEntry(t) && !IsBinaryEntry(r)
    ensures Binaries([t, r]) == [t.name]
  {
    assert [r][1..] == [];
    assert Binaries([r]) == [];
    assert [t, r][1..] == [r];
  }

  // ---------------------------------------------------------------------------
  // Selective extraction (Extract, extractZip, extractZipFile, extractFromTar)
  // ---------------------------------------------------------------------------

  /** Where extraction puts the entry `name`: the destination joined with the entry's base name. */
  function Dest(destDir: string, name: string): string {
    Join(destDir, Base(name))
  }

  /** Every destination lies in the destination directory and keeps the entry's base name. */
  lemma DestShape(destDir: string, name: string)
    requires Base(name) != "/"
    ensures HasPrefix(Dest(destDir, name), destDir)
    ensures Base(Dest(destDir, name)) == Base(name)
  {
    JoinExtends(destDir, Base(name));
    BaseOfJoin(destDir, Base(name));
  }

  /** The permission bits os.OpenFile gives a file it creates from an entry's mode. */
  function Perm(mode: FileMode): FileMode {
    mode & PermBits
  }

  /** The bytes that reach the destination file. */
  function Written(p: Payload): seq<byte> {
    match p
    case Intact(bytes) => bytes
    case Unopenable(_) => []
    case Truncated(prefix, _) => prefix
  }

  /**
   * The error copying entry `e` to `dest` reports, if any: opening the entry
   * fails first, then opening the destination, then reading the entry.
   */
  function CopyError(files: Files, access: Access, e: Entry, dest: string): Option<Error> {
    match e.payload
    case Unopenable(err) => Some(err)
    case _ =>
      if Blocked(files, access, dest) then Some(CreateFailed(dest))
      else if e.payload.Truncated? then Some(e.payload.readErr)
      else None
  }

  /**
   * The files after copying `e` to `dest`: the destination is emptied (its
   * mode kept) or created with the entry's permissions, then receives the
   * bytes read, unless opening the entry or the destination failed.
   */
  function CopyFiles(files: Files, access: Access, e: Entry, dest: string): Files {
    if e.payload.Unopenable? || Blocked(files, access, dest) then files
    else files[dest := File(if dest in files then files[dest].mode else Perm(e.mode), Written(e.payload))]
  }

  /** Where an extraction puts each entry it copies, and the entry names it copies. */
  datatype Job = Job(dest: string -> string, wanted: set<string>)

  /** What an extraction returns: destination paths written, in order, and the error that stopped it. */
  datatype Extraction = Extraction(paths: seq<string>, err: Option<Error>)

  function SetOf(names: seq<string>): set<string> {
    set n | n in names
  }

  /** The job of extracting `names` into `destDir`. */
  function JobFor(destDir: string, names: seq<string>): Job {
    Job(name => Dest(destDir, name), SetOf(names))
  }

  /** Puts `paths` in front of the paths of an extraction result. */
  function Prepend(paths: seq<string>, r: (Files, Extraction)): (Files, Extraction) {
    (r.0, Extraction(paths + r.1.paths, r.1.err))
  }

  /**
   * The extraction loop as a function: each requested entry is copied in
   * archive order until one fails; the stream's own error ends it otherwise.
   */
  function RunExtract(files: Files, access: Access, job: Job, entries: seq<Entry>, end: End)
    : (Files, Extraction)
    decreases |entries|
  {
    if entries == [] then (files, Extraction([], EndError(end)))
    else
      var e := entries[0];
      if e.name !in job.wanted then RunExtract(files, access, job, entries[1..], end)
      else
        var dest := job.dest(e.name);
        var err := CopyError(files, access, e, dest);
        if err.Some? then (CopyFiles(files, access, e, dest), Extraction([], err))
        else Prepend([dest], RunExtract(CopyFiles(files, access, e, dest), access, job, entries[1..], end))
  }

  /** What Extract does to the file system and returns. */
  function ExtractResult(files: Files, access: Access, archivePath: string, destDir: string,
                         names: seq<string>, view: ArchiveView): (Files, Extraction)
  {
    match Open(archivePath, view)
    case Err(e) => (files, Extraction([], Some(e)))
    case Ok(s) => RunExtract(files, access, JobFor(destDir, names), s.entries, s.end)
  }

  /** Once the archive opens, Extract is the extraction loop over its stream. */
  lemma ExtractResultOfStream(files: Files, access: Access, archivePath: string, destDir: string,
                              names: seq<string>, view: ArchiveView, s: Stream)
    requires Open(archivePath, view) == Ok(s)
    ensures ExtractResult(files, access, archivePath, destDir, names, view) ==
            RunExtract(files, access, JobFor(destDir, names), s.entries, s.end)
  {
  }

  /** One step of the extraction loop at position `i`, and the identities the loop needs. */
  lemma ExtractStep(files: Files, access: Access, job: Job, entries: seq<Entry>, i: nat, end: End)
    requires i < |entries|
    ensures var e := entries[i];
            var dest := job.dest(e.name);
            RunExtract(files, access, job, entries[i..], end) ==
              if e.name !in job.wanted then RunExtract(files, access, job, entries[i + 1..], end)
              else if CopyError(files, access, e, dest).Some? then
                (CopyFiles(files, access, e, dest), Extraction([], CopyError(files, access, e, dest)))
              else Prepend([dest], RunExtract(CopyFiles(files, access, e, dest), access, job, entries[i + 1..], end))
  {
    assert entries[i..][1..] == entries[i + 1..];
  }

  /** Prepending is a monoid action on extraction results. */
  lemma PrependLaws()
    ensures forall ps, qs, r :: Prepend(ps, Prepend(qs, r)) == Prepend(ps + qs, r)
    ensures forall r :: Prepend([], r) == r
    ensures forall ps, f, err :: Prepend(ps, (f, Extraction([], err))) == (f, Extraction(ps, err))
  {
    forall ps: seq<string>, qs: seq<string>, r: (Files, Extraction) ensures Prepend(ps, Prepend(qs, r)) == Prepend(ps + qs, r) {
      assert ps + (qs + r.1.paths) == (ps + qs) + r.1.paths;
    }
    forall r: (Files, Extraction) ensures Prepend([], r) == r {
      assert [] + r.1.paths == r.1.paths;
    }
    forall ps: seq<string>, f: Files, err: Option<Error> ensures Prepend(ps, (f, Extraction([], err))) == (f, Extraction(ps, err)) {
      assert ps + [] == ps;
    }
  }

  /** membership set of extractZip / extractFromTar */
  method MembershipSet(files: seq<string>) returns (fileSet: set<string>)
    ensures forall n :: n in fileSet <==> n in files
  {
    fileSet := {};
    var i := 0;
    while i < |files|
      invariant 0 <= i <= |files|
      invariant fileSet == SetOf(files[..i])
    {
      assert files[..i + 1] == files[..i] + [files[i]];
      fileSet := fileSet + {files[i]};
      i := i + 1;
    }
    assert files[..i] == files;
  }

  /** extractZipFile: open the entry, create or truncate the destination, copy. */
  method ExtractEntry(fs: FileSystem, e: Entry, destPath: string) returns (err: Option<Error>)
    modifies fs
    ensures fs.files == CopyFiles(old(fs.files), fs.access, e, destPath)
    ensures err == CopyError(old(fs.files), fs.access, e, destPath)
  {
    if e.payload.Unopenable? {
      return Some(e.payload.openErr);
    }
    err := fs.OpenTruncate(destPath, Perm(e.mode));
    if err.Some? {
      return;
    }
    fs.Write(destPath, Written(e.payload));
    assert [] + Written(e.payload) == Written(e.payload);
    if e.payload.Truncated? {
      err := Some(e.payload.readErr);
    }
  }

  /** extractZip, once the reader has opened. */
  method ExtractZip(fs: FileSystem, entries: seq<Entry>, destDir: string, files: seq<string>)
    returns (o: Extraction)
    modifies fs
    ensures (fs.files, o) == RunExtract(old(fs.files), fs.access, JobFor(destDir, files), entries, Eof)
  {
    var fileSet := MembershipSet(files);
    assert fileSet == SetOf(files);
    ghost var job := JobFor(destDir, files);
    var extracted: seq<string> := [];
    var i := 0;
    assert entries[i..] == entries;
    PrependLaws();
    while i < |entries|
      invariant 0 <= i <= |entries|
      invariant Prepend(extracted, RunExtract(fs.files, fs.access, job, entries[i..], Eof))
                == RunExtract(old(fs.files), fs.access, job, entries, Eof)
    {
      var f := entries[i];
      ExtractStep(fs.files, fs.access, job, entries, i, Eof);
      if f.name in fileSet {
        var destPath := Join(destDir, Base(f.name));
        var err := ExtractEntry(fs, f, destPath);
        if err.Some? {
          return Extraction(extracted, err);
        }
        extracted := extracted + [destPath];
      }
      i := i + 1;
    }
    assert entries[i..] == [];
    o := Extraction(extracted, None);
  }

  /**
   * extractFromTar: as extractZip, but there is no per-entry open, and a
   * broken stream returns the paths written so far with the stream's error.
   */
  method ExtractFromTar(fs: FileSystem, tr: TarStream, destDir: string, files: seq<string>)
    returns (o: Extraction)
    modifies fs
    ensures (fs.files, o) == RunExtract(old(fs.files), fs.access, JobFor(destDir, files), tr.headers, tr.end)
  {
    var fileSet := MembershipSet(files);
    assert fileSet == SetOf(files);
    ghost var job := JobFor(destDir, files);
    var extracted: seq<string> := [];
    var i := 0;
    assert tr.headers[i..] == tr.headers;
    PrependLaws();
    while i < |tr.headers|
      invariant 0 <= i <= |tr.headers|
      invariant Prepend(extracted, RunExtract(fs.files, fs.access, job, tr.headers[i..], tr.end))
                == RunExtract(old(fs.files), fs.access, job, tr.headers, tr.end)
    {
      var header := tr.headers[i];
      ExtractStep(fs.files, fs.access, job, tr.headers, i, tr.end);
      if header.name in fileSet {
        var destPath := Join(destDir, Base(header.name));
        var err := ExtractEntry(fs, header, destPath);
        if err.Some? {
          return Extraction(extracted, err);
        }
        extracted := extracted + [destPath];
      }
      i := i + 1;
    }
    assert tr.headers[i..] == [];
    if tr.end.Broken? {
      return Extraction(extracted, Some(tr.end.err));
    }
    o := Extraction(extracted, None);
  }

  /** Extract: dispatch on the extension, open, then one extraction pass. */
  method Extract(fs: FileSystem, archivePath: string, destDir: string, files: seq<string>, view: ArchiveView)
    returns (o: Extraction)
    modifies fs
    ensures (fs.files, o) == ExtractResult(old(fs.files), fs.access, archivePath, destDir, files, view)
  {
    var kind := FormatOf(archivePath);
    if kind.Err? {
      return Extraction([], Some(kind.error));
    }
    match kind.value
    case Zip =>
      if view.asZip.Err? {
        return Extraction([], Some(view.asZip.error));
      }
      o := ExtractZip(fs, view.asZip.value, destDir, files);
    case TarGz =>
      if view.asTarGz.Err? {
        return Extraction([], Some(view.asTarGz.error));
      }
      o := ExtractFromTar(fs, view.asTarGz.value, destDir, files);
    case Tar =>
      if view.asTar.Err? {
        return Extraction([], Some(view.asTar.error));
      }
      o := ExtractFromTar(fs, view.asTar.value, destDir, files);
  }
}
