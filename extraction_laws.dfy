/**
 * What selective extraction does, stated independently of the loop that
 * does it: which destinations it writes and reports, where it stops, which
 * files it leaves alone, what the destination files hold afterwards, and
 * when a second identical extraction gives the same files and the same
 * report: exactly when the process runs as root or every file the first
 * one created is writable by its owner.
 */
module ExtractionLaws {
  import opened Types
  import opened GoPaths
  import opened Os
  import opened Archive

  /** The entries whose names were requested, in archive order. */
  function Requested(entries: seq<Entry>, wanted: set<string>): (r: seq<Entry>)
    ensures |r| <= |entries|
    decreases |entries|
  {
    if entries == [] then []
    else (if entries[0].name in wanted then [entries[0]] else []) + Requested(entries[1..], wanted)
  }

  /** The destinations of a sequence of entries. */
  function Dests(dest: string -> string, es: seq<Entry>): (ds: seq<string>)
    ensures |ds| == |es|
    decreases |es|
  {
    if es == [] then [] else [dest(es[0].name)] + Dests(dest, es[1..])
  }

  /** The i-th destination is that of the i-th entry. */
  lemma {:induction false} DestsAt(dest: string -> string, es: seq<Entry>, i: nat)
    requires i < |es|
    ensures Dests(dest, es)[i] == dest(es[i].name)
    decreases i
  {
    if i > 0 {
      DestsAt(dest, es[1..], i - 1);
      assert es[1..][i - 1] == es[i];
    }
  }

  /** The mode the first write to `p` gives a file it creates there. */
  function FirstMode(dest: string -> string, es: seq<Entry>, p: string): FileMode
    requires p in Dests(dest, es)
    decreases |es|
  {
    if dest(es[0].name) == p then Perm(es[0].mode) else FirstMode(dest, es[1..], p)
  }

  /** The bytes of the last write to `p`. */
  function LastBytes(dest: string -> string, es: seq<Entry>, p: string): seq<byte>
    requires p in Dests(dest, es)
    decreases |es|
  {
    if p in Dests(dest, es[1..]) then LastBytes(dest, es[1..], p) else Written(es[0].payload)
  }

  /** The files after copying every entry of `es`, in order, to its destination. */
  function CopyAll(files: Files, access: Access, dest: string -> string, es: seq<Entry>): Files
    decreases |es|
  {
    if es == [] then files
    else CopyAll(CopyFiles(files, access, es[0], dest(es[0].name)), access, dest, es[1..])
  }

  /** Every copy of `es`, made in order starting from `files`, succeeds. */
  predicate AllCopied(files: Files, access: Access, dest: string -> string, es: seq<Entry>)
    decreases |es|
  {
    es == [] ||
    (CopyError(files, access, es[0], dest(es[0].name)).None? &&
     AllCopied(CopyFiles(files, access, es[0], dest(es[0].name)), access, dest, es[1..]))
  }

  /** Skipping an entry that was not requested. */
  lemma RequestedSkip(entries: seq<Entry>, wanted: set<string>)
    requires entries != [] && entries[0].name !in wanted
    ensures Requested(entries, wanted) == Requested(entries[1..], wanted)
  {
    assert [] + Requested(entries[1..], wanted) == Requested(entries[1..], wanted);
  }

  /** Taking an entry that was requested. */
  lemma RequestedTake(entries: seq<Entry>, wanted: set<string>)
    requires entries != [] && entries[0].name in wanted
    ensures Requested(entries, wanted) == [entries[0]] + Requested(entries[1..], wanted)
  {
  }

  /** A successful copy in front of a run of successful copies. */
  lemma AllCopiedCons(files: Files, access: Access, dest: string -> string, e: Entry, es: seq<Entry>)
    requires CopyError(files, access, e, dest(e.name)).None?
    requires AllCopied(CopyFiles(files, access, e, dest(e.name)), access, dest, es)
    ensures AllCopied(files, access, dest, [e] + es)
  {
    assert ([e] + es)[1..] == es;
  }

  /** A run of copies succeeds iff its first `k` copies do and the rest do from where those left off. */
  lemma {:induction false} AllCopiedSplit(files: Files, access: Access, dest: string -> string, es: seq<Entry>, k: nat)
    requires k <= |es|
    ensures AllCopied(files, access, dest, es) <==>
            AllCopied(files, access, dest, es[..k]) && AllCopied(CopyAll(files, access, dest, es[..k]), access, dest, es[k..])
    decreases k
  {
    if k == 0 {
      assert es[..0] == [] && es[0..] == es;
    } else {
      var f1 := CopyFiles(files, access, es[0], dest(es[0].name));
      AllCopiedSplit(f1, access, dest, es[1..], k - 1);
      assert es[..k][1..] == es[1..][..k - 1];
      assert es[1..][k - 1..] == es[k..];
    }
  }

  /**
   * `x` is what extracting the requested entries `R`, in order, reports:
   * the destinations of the leading run of `R` that copied without error;
   * if that run stops short, the error of the first entry that failed,
   * otherwise the error the stream ended with, if any.
   */
  predicate Reports(x: Extraction, files: Files, access: Access, dest: string -> string, R: seq<Entry>, end: End) {
    var n := |x.paths|;
    && n <= |R|
    && x.paths == Dests(dest, R[..n])
    && AllCopied(files, access, dest, R[..n])
    && (n < |R| ==> x.err == CopyError(CopyAll(files, access, dest, R[..n]), access, R[n], dest(R[n].name)) && x.err.Some?)
    && (n == |R| ==> x.err == EndError(end))
  }

  /** A successful copy extends the report by its destination. */
  lemma ReportsCons(x: Extraction, files: Files, access: Access, dest: string -> string, e: Entry, R: seq<Entry>, end: End)
    requires CopyError(files, access, e, dest(e.name)).None?
    requires Reports(x, CopyFiles(files, access, e, dest(e.name)), access, dest, R, end)
    ensures Reports(Extraction([dest(e.name)] + x.paths, x.err), files, access, dest, [e] + R, end)
  {
    var n := |x.paths|;
    assert ([e] + R)[..n + 1] == [e] + R[..n];
    assert ([e] + R[..n])[1..] == R[..n];
    AllCopiedCons(files, access, dest, e, R[..n]);
    if n < |R| {
      assert ([e] + R)[n + 1] == R[n];
      CopyAllCons(files, access, dest, e, R, n);
    }
  }

  /** A failed copy ends the report at once with its error. */
  lemma ReportsFailure(files: Files, access: Access, dest: string -> string, e: Entry, R: seq<Entry>, end: End)
    requires CopyError(files, access, e, dest(e.name)).Some?
    ensures Reports(Extraction([], CopyError(files, access, e, dest(e.name))), files, access, dest, [e] + R, end)
  {
    assert ([e] + R)[..0] == [];
  }

  /**
   * The paths and the error of an extraction are those the requested
   * entries, in archive order, report.
   */
  lemma {:induction false} ExtractReport(files: Files, access: Access, job: Job,
                                         entries: seq<Entry>, end: End)
    ensures Reports(RunExtract(files, access, job, entries, end).1, files, access, job.dest,
                    Requested(entries, job.wanted), end)
    decreases |entries|
  {
    if entries == [] {
      assert Requested(entries, job.wanted)[..0] == [];
    } else {
      var e := entries[0];
      if e.name !in job.wanted {
        RequestedSkip(entries, job.wanted);
        ExtractReport(files, access, job, entries[1..], end);
      } else {
        RequestedTake(entries, job.wanted);
        var d := job.dest(e.name);
        if CopyError(files, access, e, d).None? {
          var f1 := CopyFiles(files, access, e, d);
          ExtractReport(f1, access, job, entries[1..], end);
          ReportsCons(RunExtract(f1, access, job, entries[1..], end).1, files, access, job.dest,
                      e, Requested(entries[1..], job.wanted), end);
        } else {
          ReportsFailure(files, access, job.dest, e, Requested(entries[1..], job.wanted), end);
        }
      }
    }
  }

  /** How many of the requested entries `R` an extraction that reports `n` paths has copied or tried to copy. */
  function Attempted(n: nat, R: seq<Entry>): nat {
    if n < |R| then n + 1 else |R|
  }

  /** Copying `e` first and then a prefix of `R` is copying a prefix of `[e] + R`. */
  lemma CopyAllCons(files: Files, access: Access, dest: string -> string, e: Entry, R: seq<Entry>, k: nat)
    requires k <= |R|
    ensures CopyAll(CopyFiles(files, access, e, dest(e.name)), access, dest, R[..k]) ==
            CopyAll(files, access, dest, ([e] + R)[..k + 1])
  {
    assert ([e] + R)[..k + 1][1..] == R[..k];
  }

  /**
   * The files after an extraction: those after copying the leading run of
   * requested entries that succeeded and, if the run stopped short, the
   * entry that failed (a read error leaves what was written so far).
   */
  lemma {:induction false} ExtractFiles(files: Files, access: Access, job: Job,
                                        entries: seq<Entry>, end: End)
    ensures var (f, x) := RunExtract(files, access, job, entries, end);
            var R := Requested(entries, job.wanted);
            f == CopyAll(files, access, job.dest, R[..Attempted(|x.paths|, R)])
    decreases |entries|
  {
    if entries != [] {
      var e := entries[0];
      if e.name !in job.wanted {
        RequestedSkip(entries, job.wanted);
        ExtractFiles(files, access, job, entries[1..], end);
      } else {
        RequestedTake(entries, job.wanted);
        var d := job.dest(e.name);
        var R' := Requested(entries[1..], job.wanted);
        if CopyError(files, access, e, d).None? {
          var f1 := CopyFiles(files, access, e, d);
          ExtractFiles(f1, access, job, entries[1..], end);
          var n := |RunExtract(f1, access, job, entries[1..], end).1.paths|;
          CopyAllCons(files, access, job.dest, e, R', Attempted(n, R'));
        } else {
          CopyAllCons(files, access, job.dest, e, R', 0);
        }
      }
    }
  }

  /** The destinations of a prefix are a prefix of the destinations. */
  lemma {:induction false} DestsPrefix(dest: string -> string, es: seq<Entry>, k: nat)
    requires k <= |es|
    ensures Dests(dest, es[..k]) == Dests(dest, es)[..k]
    decreases k
  {
    if k > 0 {
      assert es[..k][1..] == es[1..][..k - 1];
      DestsPrefix(dest, es[1..], k - 1);
    }
  }

  /** Copying never touches a path that is not one of the destinations. */
  lemma {:induction false} CopyAllFrame(files: Files, access: Access, dest: string -> string, es: seq<Entry>, p: string)
    requires p !in Dests(dest, es)
    ensures p in CopyAll(files, access, dest, es) <==> p in files
    ensures p in files ==> CopyAll(files, access, dest, es)[p] == files[p]
    decreases |es|
  {
    if es != [] {
      assert Dests(dest, es)[0] == dest(es[0].name);
      assert Dests(dest, es)[1..] == Dests(dest, es[1..]);
      CopyAllFrame(CopyFiles(files, access, es[0], dest(es[0].name)), access, dest, es[1..], p);
    }
  }

  /**
   * When every copy succeeds, each destination exists and holds the bytes
   * of the last entry written there, with the mode of the file that was
   * already there or, for a new file, the permissions of the first entry
   * written there.
   */
  lemma {:induction false} CopyAllSuccess(files: Files, access: Access, dest: string -> string, es: seq<Entry>)
    requires AllCopied(files, access, dest, es)
    ensures CopyAll(files, access, dest, es).Keys == files.Keys + SetOf(Dests(dest, es))
    ensures forall p :: p in Dests(dest, es) ==>
              CopyAll(files, access, dest, es)[p] ==
                File(if p in files then files[p].mode else FirstMode(dest, es, p), LastBytes(dest, es, p))
    decreases |es|
  {
    if es != [] {
      var e := es[0];
      var d := dest(e.name);
      var f1 := CopyFiles(files, access, e, d);
      var ds := Dests(dest, es);
      var ds' := Dests(dest, es[1..]);
      assert ds == [d] + ds';
      assert CopyError(files, access, es[0], d).None?;
      assert f1 == files[d := File(if d in files then files[d].mode else Perm(e.mode), Written(e.payload))];
      CopyAllSuccess(f1, access, dest, es[1..]);
      var r := CopyAll(files, access, dest, es);
      forall p | p in ds
        ensures r[p] == File(if p in files then files[p].mode else FirstMode(dest, es, p), LastBytes(dest, es, p))
      {
        if p !in ds' {
          CopyAllFrame(f1, access, dest, es[1..], p);
        }
      }
    }
  }

  /** An entry's destination is among the destinations. */
  lemma DestsIndex(dest: string -> string, es: seq<Entry>, p: string, i: nat)
    requires i < |es| && dest(es[i].name) == p
    ensures p in Dests(dest, es)
  {
    DestsAt(dest, es, i);
  }

  /** The first entry decides FirstMode when it is written to `p`... */
  lemma FirstModeHere(dest: string -> string, es: seq<Entry>, p: string)
    requires 0 < |es| && dest(es[0].name) == p
    ensures p in Dests(dest, es) && FirstMode(dest, es, p) == Perm(es[0].mode)
  {
    assert Dests(dest, es)[0] == p;
  }

  /** ...and is passed over when it is written elsewhere. */
  lemma FirstModeSkip(dest: string -> string, es: seq<Entry>, p: string)
    requires 0 < |es| && dest(es[0].name) != p && p in Dests(dest, es[1..])
    ensures p in Dests(dest, es) && FirstMode(dest, es, p) == FirstMode(dest, es[1..], p)
  {
    assert Dests(dest, es)[1..] == Dests(dest, es[1..]);
  }

  /** FirstMode is the permissions of the first entry whose destination is `p`. */
  lemma {:induction false} FirstModeIsFirst(dest: string -> string, es: seq<Entry>, p: string, i: nat)
    requires i < |es| && dest(es[i].name) == p
    requires p !in Dests(dest, es[..i])
    ensures p in Dests(dest, es) && FirstMode(dest, es, p) == Perm(es[i].mode)
    decreases i
  {
    DestsIndex(dest, es, p, i);
    if i == 0 {
      FirstModeHere(dest, es, p);
    } else {
      var rest := es[1..];
      assert es[..i][1..] == rest[..i - 1];
      assert Dests(dest, es[..i])[0] == dest(es[0].name);
      assert rest[i - 1] == es[i];
      FirstModeIsFirst(dest, rest, p, i - 1);
      FirstModeSkip(dest, es, p);
    }
  }

  /** LastBytes is what the last entry whose destination is `p` writes: later entries overwrite earlier ones. */
  lemma {:induction false} LastBytesIsLast(dest: string -> string, es: seq<Entry>, p: string, i: nat)
    requires i < |es| && dest(es[i].name) == p
    requires p !in Dests(dest, es[i + 1..])
    ensures p in Dests(dest, es) && LastBytes(dest, es, p) == Written(es[i].payload)
    decreases i
  {
    DestsIndex(dest, es, p, i);
    var rest := es[1..];
    if i > 0 {
      assert rest[i - 1] == es[i];
      assert rest[i..] == es[i + 1..];
      LastBytesIsLast(dest, rest, p, i - 1);
    } else {
      assert rest == es[i + 1..];
    }
  }

  /**
   * A successful extraction reports every requested destination, in archive
   * order, touches nothing else, and leaves each destination holding the
   * last requested entry written there.
   */
  lemma ExtractSuccess(files: Files, access: Access, job: Job, entries: seq<Entry>, end: End)
    requires RunExtract(files, access, job, entries, end).1.err.None?
    ensures var (f, x) := RunExtract(files, access, job, entries, end);
            var R := Requested(entries, job.wanted);
            var D := Dests(job.dest, R);
            && end == Eof
            && AllCopied(files, access, job.dest, R)
            && x.paths == D
            && f.Keys == files.Keys + SetOf(D)
            && (forall p :: p in D ==> f[p] == File(if p in files then files[p].mode else FirstMode(job.dest, R, p),
                                                   LastBytes(job.dest, R, p)))
            && (forall p :: p in files && p !in D ==> f[p] == files[p])
  {
    ExtractReport(files, access, job, entries, end);
    ExtractFiles(files, access, job, entries, end);
    var (f, x) := RunExtract(files, access, job, entries, end);
    var R := Requested(entries, job.wanted);
    var D := Dests(job.dest, R);
    assert R[..|R|] == R;
    CopyAllSuccess(files, access, job.dest, R);
    forall p | p in files && p !in D ensures f[p] == files[p] {
      CopyAllFrame(files, access, job.dest, R, p);
    }
  }

  /** The extraction succeeds exactly when every requested entry copies and the stream ends cleanly. */
  lemma ExtractSucceedsIff(files: Files, access: Access, job: Job, entries: seq<Entry>, end: End)
    ensures RunExtract(files, access, job, entries, end).1.err.None? <==>
            AllCopied(files, access, job.dest, Requested(entries, job.wanted)) && end == Eof
  {
    ExtractReport(files, access, job, entries, end);
    var x := RunExtract(files, access, job, entries, end).1;
    var R := Requested(entries, job.wanted);
    var n := |x.paths|;
    if n < |R| {
      AllCopiedSplit(files, access, job.dest, R, n);
      assert R[n..][0] == R[n];
    } else {
      assert R[..n] == R;
    }
  }

  /** Whatever happens, extraction changes no file outside the requested destinations and deletes nothing. */
  lemma ExtractFrame(files: Files, access: Access, job: Job, entries: seq<Entry>, end: End, p: string)
    requires p !in Dests(job.dest, Requested(entries, job.wanted))
    ensures var f := RunExtract(files, access, job, entries, end).0;
            (p in f <==> p in files) && (p in files ==> f[p] == files[p])
  {
    ExtractFiles(files, access, job, entries, end);
    var (f, x) := RunExtract(files, access, job, entries, end);
    var R := Requested(entries, job.wanted);
    var m := Attempted(|x.paths|, R);
    DestsPrefix(job.dest, R, m);
    CopyAllFrame(files, access, job.dest, R[..m], p);
  }

  /** Copying the same entries a second time, when every copy of both rounds succeeds, changes nothing. */
  lemma CopyAllTwice(files: Files, access: Access, dest: string -> string, es: seq<Entry>)
    requires AllCopied(files, access, dest, es)
    requires AllCopied(CopyAll(files, access, dest, es), access, dest, es)
    ensures var f := CopyAll(files, access, dest, es);
            CopyAll(f, access, dest, es) == f
  {
    var f := CopyAll(files, access, dest, es);
    var g := CopyAll(f, access, dest, es);
    CopyAllSuccess(files, access, dest, es);
    CopyAllSuccess(f, access, dest, es);
    forall p | p in g ensures g[p] == f[p] {
      if p !in Dests(dest, es) {
        CopyAllFrame(f, access, dest, es, p);
      }
    }
  }

  /** A run of successful copies never met a blocked destination: each one could be opened for writing. */
  lemma {:induction false} AllCopiedWritable(files: Files, access: Access, dest: string -> string, es: seq<Entry>, p: string)
    requires p in Dests(dest, es)
    ensures AllCopied(files, access, dest, es) ==> !Blocked(files, access, p)
    decreases |es|
  {
    var d := dest(es[0].name);
    assert Dests(dest, es) == [d] + Dests(dest, es[1..]);
    if d != p {
      AllCopiedWritable(CopyFiles(files, access, es[0], d), access, dest, es[1..], p);
    }
  }

  /** A run of successful copies read every entry in full. */
  lemma {:induction false} AllCopiedIntact(files: Files, access: Access, dest: string -> string, es: seq<Entry>)
    requires AllCopied(files, access, dest, es)
    ensures forall i :: 0 <= i < |es| ==> es[i].payload.Intact?
    decreases |es|
  {
    if es != [] {
      AllCopiedIntact(CopyFiles(files, access, es[0], dest(es[0].name)), access, dest, es[1..]);
      forall i | 0 < i < |es| ensures es[i].payload.Intact? {
        assert es[i] == es[1..][i - 1];
      }
    }
  }

  /** Entries read in full copy without error onto destinations that all exist and are open for writing. */
  lemma {:induction false} CopiesSucceed(files: Files, access: Access, dest: string -> string, es: seq<Entry>)
    requires forall i :: 0 <= i < |es| ==> es[i].payload.Intact?
    requires forall p :: p in Dests(dest, es) ==> p in files && !Blocked(files, access, p)
    ensures AllCopied(files, access, dest, es)
    decreases |es|
  {
    if es != [] {
      var d := dest(es[0].name);
      var f1 := CopyFiles(files, access, es[0], d);
      assert Dests(dest, es) == [d] + Dests(dest, es[1..]);
      assert es[0].payload.Intact?;
      forall i | 0 <= i < |es[1..]| ensures es[1..][i].payload.Intact? {
        assert es[1..][i] == es[i + 1];
      }
      CopiesSucceed(f1, access, dest, es[1..]);
    }
  }

  /**
   * Extracting again onto the result of a successful extraction reproduces
   * it, files and report, exactly when the process runs as root or every
   * destination the first extraction created got the owner-write bit:
   * otherwise reopening a read-only file it created fails.
   */
  lemma ExtractTwice(files: Files, access: Access, job: Job, entries: seq<Entry>, end: End)
    requires RunExtract(files, access, job, entries, end).1.err.None?
    ensures var r := RunExtract(files, access, job, entries, end);
            var R := Requested(entries, job.wanted);
            RunExtract(r.0, access, job, entries, end) == r <==>
              access.root || forall p :: p in Dests(job.dest, R) && p !in files ==> FirstMode(job.dest, R, p) & OwnerWrite != 0
  {
    var (f, x) := RunExtract(files, access, job, entries, end);
    var R := Requested(entries, job.wanted);
    var D := Dests(job.dest, R);
    ExtractSuccess(files, access, job, entries, end);
    ExtractSucceedsIff(f, access, job, entries, end);
    if access.root || forall p :: p in D && p !in files ==> FirstMode(job.dest, R, p) & OwnerWrite != 0 {
      AllCopiedIntact(files, access, job.dest, R);
      forall p | p in D ensures p in f && !Blocked(f, access, p) {
        AllCopiedWritable(files, access, job.dest, R, p);
      }
      CopiesSucceed(f, access, job.dest, R);
      ExtractSuccess(f, access, job, entries, end);
      ExtractFiles(files, access, job, entries, end);
      ExtractFiles(f, access, job, entries, end);
      assert R[..|R|] == R;
      CopyAllTwice(files, access, job.dest, R);
    } else {
      var p :| p in D && p !in files && FirstMode(job.dest, R, p) & OwnerWrite == 0;
      AllCopiedWritable(f, access, job.dest, R, p);
    }
  }

  /**
   * Two requested entries share a base name and the first is read-only:
   * unless the process runs as root, the second cannot reopen the file the
   * first created, and the extraction stops there, reporting the first.
   */
  lemma ReadOnlyFirstWriter(files: Files, access: Access, job: Job, e1: Entry, e2: Entry, end: End)
    requires e1.name in job.wanted && e2.name in job.wanted && job.dest(e1.name) == job.dest(e2.name)
    requires !access.root && job.dest(e1.name) !in files && job.dest(e1.name) !in access.unwritable
    requires e1.payload.Intact? && !e2.payload.Unopenable? && Perm(e1.mode) & OwnerWrite == 0
    ensures var p := job.dest(e1.name);
            RunExtract(files, access, job, [e1, e2], end) ==
              (files[p := File(Perm(e1.mode), e1.payload.bytes)], Extraction([p], Some(CreateFailed(p))))
  {
    var p := job.dest(e1.name);
    var f1 := files[p := File(Perm(e1.mode), e1.payload.bytes)];
    assert CopyError(files, access, e1, p) == None;
    assert CopyFiles(files, access, e1, p) == f1;
    assert Blocked(f1, access, p);
    assert CopyError(f1, access, e2, p) == Some(CreateFailed(p));
    assert [e1, e2][1..] == [e2];
    assert RunExtract(f1, access, job, [e2], end) == (f1, Extraction([], Some(CreateFailed(p))));
    assert RunExtract(files, access, job, [e1, e2], end) == Prepend([p], RunExtract(f1, access, job, [e2], end));
    assert [p] + [] == [p];
  }

  /** When no entry of the archive is requested, nothing is written and only the stream's error is reported. */
  lemma ExtractNothingRequested(files: Files, access: Access, job: Job, entries: seq<Entry>, end: End)
    requires forall i :: 0 <= i < |entries| ==> entries[i].name !in job.wanted
    ensures RunExtract(files, access, job, entries, end) ==
            (files, Extraction([], EndError(end)))
  {
    NothingRequested(entries, job.wanted);
    ExtractReport(files, access, job, entries, end);
    ExtractFiles(files, access, job, entries, end);
  }

  /** No entry is requested when none of the names matches. */
  lemma {:induction false} NothingRequested(entries: seq<Entry>, wanted: set<string>)
    requires forall i :: 0 <= i < |entries| ==> entries[i].name !in wanted
    ensures Requested(entries, wanted) == []
    decreases |entries|
  {
    if entries != [] {
      NothingRequested(entries[1..], wanted);
    }
  }

  /**
   * The extraction test case: "myapp/bin/tool", requested by name, lands at
   * "<destDir>/tool" with its contents (and, when new, the permission bits
   * of its mode: 0666 for the test's header, which sets no creator system)
   * and is the one path reported.
   */
  lemma ExtractionScenario(files: Files, access: Access, destDir: string, mode: FileMode, content: seq<byte>)
    requires destDir != [] && !Blocked(files, access, Join(destDir, "tool"))
    ensures var target := Join(destDir, "tool");
            var (f, x) := RunExtract(files, access, JobFor(destDir, ["myapp/bin/tool"]),
                                     [Entry("myapp/bin/tool", mode, false, Intact(content))], Eof);
            x == Extraction([target], None) && target in f &&
            f[target] == File(if target in files then files[target].mode else Perm(mode), content)
  {
    var target := Join(destDir, "tool");
    var e := Entry("myapp/bin/tool", mode, false, Intact(content));
    BaseOfJoin("myapp/bin", "tool");
    assert Join("myapp/bin", "tool") == "myapp/bin/tool";
    assert "myapp/bin/tool" in SetOf(["myapp/bin/tool"]);
    ExtractSingle(files, access, JobFor(destDir, ["myapp/bin/tool"]), e);
  }

  /** A lone requested entry, read in full, onto a destination open for writing: that one file is written and reported. */
  lemma ExtractSingle(files: Files, access: Access, job: Job, e: Entry)
    requires e.name in job.wanted && e.payload.Intact? && !Blocked(files, access, job.dest(e.name))
    ensures var d := job.dest(e.name);
            RunExtract(files, access, job, [e], Eof) ==
              (files[d := File(if d in files then files[d].mode else Perm(e.mode), e.payload.bytes)], Extraction([d], None))
  {
    var d := job.dest(e.name);
    var f := CopyFiles(files, access, e, d);
    assert [e][1..] == [];
    assert RunExtract(files, access, job, [e], Eof) == Prepend([d], RunExtract(f, access, job, [], Eof));
    assert [d] + [] == [d];
  }

  /**
   * Detection then extraction, end to end: an archive holding one entry
   * "bin/tool" detects exactly that name, and extracting the detected names
   * writes one file, "<destDir>/tool", holding the entry's bytes, reports
   * that path alone, and changes nothing else.
   */
  lemma DetectThenExtract(files: Files, access: Access, archivePath: string, destDir: string,
                          view: ArchiveView, mode: FileMode, content: seq<byte>)
    requires Open(archivePath, view) == Ok(Stream([Entry("bin/tool", mode, false, Intact(content))], Eof))
    requires destDir != [] && !Blocked(files, access, Join(destDir, "tool"))
    ensures Detection(archivePath, view) == Ok(["bin/tool"])
    ensures var target := Join(destDir, "tool");
            var (f, x) := ExtractResult(files, access, archivePath, destDir, Detection(archivePath, view).value, view);
            x == Extraction([target], None) &&
            f == files[target := File(if target in files then files[target].mode else Perm(mode), content)]
  {
    var e := Entry("bin/tool", mode, false, Intact(content));
    var target := Join(destDir, "tool");
    assert Detection(archivePath, view) == Ok(["bin/tool"]) by {
      DetectsTopLevelBinTool(archivePath, view, e);
    }
    assert ExtractResult(files, access, archivePath, destDir, ["bin/tool"], view) ==
           (files[target := File(if target in files then files[target].mode else Perm(mode), content)], Extraction([target], None)) by {
      var job := JobFor(destDir, ["bin/tool"]);
      assert job.dest(e.name) == target && e.name in job.wanted by {
        BaseOfJoin("bin", "tool");
        assert Join("bin", "tool") == "bin/tool";
        assert "bin/tool" in SetOf(["bin/tool"]);
      }
      ExtractSingle(files, access, job, e);
      ExtractResultOfStream(files, access, archivePath, destDir, ["bin/tool"], view, Stream([e], Eof));
    }
  }
}
