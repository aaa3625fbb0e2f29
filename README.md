# bii: a verified model of the archive, installer and shell core

bii is a command-line tool that installs binaries out of downloaded archives.
Given an archive (`.zip`, `.tar.gz`/`.tgz` or `.tar`), it first lists the
entries that look like executables. It then copies the chosen entries into a
destination directory. Finally it can put that directory on the user's PATH
by appending an export line to the profile of their shell (bash, zsh or fish).

This project models those three packages in Dafny:

- `types.dfy` (`Types`): file modes as 32-bit words, the octal constants the
  code uses, Go's `(value, error)` results, and the error kinds.
- `strings.dfy` (`GoStrings`) and `paths.dfy` (`GoPaths`): the parts of Go's
  `strings` and `path/filepath` the core calls.
  - `strings`: HasPrefix, Contains, ASCII ToLower, Split and Join with a
    one-character separator.
  - `path/filepath`: Ext, Base and two-element Join.
- `os.dfy` (`Os`): a `FileSystem` object whose map of files is updated in
  place. It has `os.OpenFile` with truncation and writing.
- `archive.dfy` (`Archive`): pkg/archive/archive.go, covering:
  - the `isExecutable` classifier;
  - the extension dispatch of `DetectBinaries` and `Extract`;
  - detection over ZIP and TAR readers (loops proved against the `Binaries` function);
  - the extraction loops `extractZip`, `extractZipFile` and `extractFromTar`.
    These are methods that modify a `FileSystem`, proved against the `RunExtract` function.
- `extraction_laws.dfy` (`ExtractionLaws`): what an extraction reports and
  what it leaves on disk:
  - the reported paths and the error;
  - the final file contents and modes;
  - the frame (nothing else changes);
  - re-running a successful extraction gives the same files and the same
    report exactly when the process is root or every file it created is
    writable by its owner;
  - unless the process is root, a read-only entry followed by another with the
    same base name stops the run at the second.
- `installer.dfy` (`Installer`): pkg/installer/installer.go, the `Install`
  method and its laws.
- `shell.dfy` (`Shell`): pkg/shell/shell.go. It covers:
  - `DetectShell` and `GetShellConfigPath`;
  - `IsInPath`, a loop over the PATH entries;
  - `AddToPath`, a method of a `HomeFiles` object holding the profiles.
    It is proved against the `AddToPathResult` function, and it is idempotent.

Archives are not decoded byte by byte. An `ArchiveView` says what each
container reader yields when opened on the archive's path:
- either an open error;
- or the decoded entries in order: name, mode, directory flag and contents.
  TAR streams additionally say whether they end cleanly or break after some
  header.

An entry's contents may be intact. They may also fail to open (ZIP only), or
fail partway through the read. In the last case the destination keeps the
bytes read so far.

The environment is passed in as parameters:
- `$SHELL` and `$PATH` as strings;
- `os.UserHomeDir` as a `Result`;
- `filepath.Abs` as a function.

Whether the extraction may open a destination for writing is decided by an
`Access` value and the files themselves (`Os.Blocked`):
- `unwritable`: paths where nothing can be created or opened for writing,
  such as a missing or read-only directory;
- `root`: whether the process runs as root. Unless it does, an existing file
  whose owner-write bit (0200) is clear cannot be opened for writing. This
  includes a file the same extraction created from a read-only entry.

The shell profiles use two fixed sets of paths:
- `unwritable`: paths where a profile or its directory cannot be created or
  opened for writing;
- `unreadable`: paths where `os.ReadFile` fails for a reason other than absence.

Extraction does not skip directory entries: a requested directory entry is
copied like a file, through `os.OpenFile` on its base name. Only detection
filters out directories (pkg/archive/archive.go lines 55 and 101, against
lines 142 and 218).

## Model

| member | source | states |
|---|---|---|
| Archive.BinDirWins | pkg/archive/archive.go:109-113 | a name containing "/bin/" or starting with "bin/" is executable whatever its mode |
| Archive.ExecutableOutsideBinDir | pkg/archive/archive.go:109-126 | outside a bin directory, a name is executable iff some execute bit (0111) is set and its lower-cased extension is not .sh, .py, .rb or .pl |
| Archive.BinSegmentAnywhere | pkg/archive/archive.go:111 | any name containing "/bin/", a bin directory under some parent, is executable, with any mode |
| Archive.BinAtEndNotBinDir | pkg/archive/archive.go:111 | a trailing "/bin" is not a bin directory: "x/bin" with 0644 is not executable |
| Archive.ScriptsExcluded | pkg/archive/archive.go:116-121 | a script extension, in any letter case, excludes an entry outside a bin directory even with execute bits |
| Archive.NoSlashNoBinSegment | pkg/archive/archive.go:111 | a name without '/' is never in a bin directory |
| Archive.OneSlashNoBinSegment | pkg/archive/archive.go:111 | "dir/file" is in a bin directory only when dir is "bin" |
| Archive.BinDirExamples | pkg/archive/archive_test.go:19-24 | "app/bin/tool" with 0644 and "bin/mytool" with 0755 are executable |
| Archive.BinDirScriptExample | pkg/archive/archive.go:111-113 | the bin rule is checked first, so "app/bin/run.sh" with 0644 is executable |
| Archive.ExecBitExample | pkg/archive/archive_test.go:20 | "tool" with 0755 is executable |
| Archive.NoExecBitExample | pkg/archive/archive_test.go:23 | "readme.txt" with 0644 is not executable |
| Archive.ScriptExamples | pkg/archive/archive_test.go:21-22 | "script.sh" and "script.py" with 0755 are not executable |
| Archive.ScriptNameFacts | pkg/archive/archive.go:111-118 | a slash-free name with a lower-case extension is outside bin directories, and that extension is what the classifier compares |
| Archive.InBinDir | pkg/archive/archive.go:111 | a name is in a bin directory when it contains "/bin/" or starts with "bin/" |
| Archive.IsScriptExt | pkg/archive/archive.go:119 | the script extensions that exclude an entry are exactly ".sh", ".py", ".rb" and ".pl", compared after lower-casing |
| Archive.IsExecutable | pkg/archive/archive.go:109-126 | the classifier: a name in a bin directory is executable; otherwise one with an execute bit is, unless its lower-cased extension is .sh, .py, .rb or .pl |
| Archive.KindOf | pkg/archive/archive.go:18-26 | ".zip" selects ZIP, ".gz" and ".tgz" gzip+TAR, ".tar" TAR; anything else is an unsupported-format error naming the extension |
| Archive.FormatOf | pkg/archive/archive.go:16 | the format is chosen by the lower-cased extension of the archive path |
| Archive.DispatchOnLastExtension | pkg/archive/archive.go:16-27 | the format depends only on the lower-cased last extension of the path |
| Archive.LowerCaseExtension | pkg/archive/archive.go:16 | the lower-cased Ext of a path ending in a lower-case extension is that extension |
| Archive.SupportedNameExamples | pkg/archive/archive.go:18-24 | ".zip" selects ZIP, ".tar.gz" selects gzip+TAR (it dispatches on ".gz"), ".tar" selects TAR |
| Archive.UpperCaseExample | pkg/archive/archive.go:16-22 | ".TGZ" selects gzip+TAR: the extension is lower-cased first |
| Archive.UnsupportedExample | pkg/archive/archive.go:25-26 | ".rar" is refused with the lower-cased extension in the error |
| Archive.Open | pkg/archive/archive.go:46-86 | an unsupported extension fails before any reader; otherwise the selected reader's open error, or its stream (a ZIP always ends cleanly) |
| Archive.Detection | pkg/archive/archive.go:54-58 | the reference detection: the open error, the stream's error when it breaks, or the names of the binary entries in archive order |
| Archive.Binaries | pkg/archive/archive.go:53-58 | detection reports at most one name per entry |
| Archive.IsBinaryEntry | pkg/archive/archive.go:55 | detection keeps an entry when it is not a directory and the classifier accepts its name and mode (the same filter as line 101) |
| Archive.BinariesAppend | pkg/archive/archive.go:54-58 | detection distributes over concatenation: archive order kept, nothing merged or dropped |
| Archive.BinariesMembership | pkg/archive/archive.go:55-56 | a name is reported iff some non-directory entry with that name is classified executable |
| Archive.DetectZip | pkg/archive/archive.go:46-61 | the ZIP loop returns exactly the binary entries' names in archive order |
| Archive.DetectFromTar | pkg/archive/archive.go:89-107 | the TAR loop returns the binary names on a clean end, and only the error (nothing collected) on a broken stream |
| Archive.DetectBinaries | pkg/archive/archive.go:15-28 | detection equals the reference `Detection`; an unsupported extension is refused with the lower-cased extension; success means the archive opened and was read to a clean end |
| Archive.DetectionScenario | pkg/archive/archive_test.go:38-149 | an archive of "myapp/bin/tool" with any mode and "myapp/README.md" with no execute bit yields exactly ["myapp/bin/tool"]; this covers the ZIP test, whose README made by `Create` reads as 0666, and the TAR test's 0755 and 0644 |
| Archive.ToolIsBinary | pkg/archive/archive_test.go:52-58 | "myapp/bin/tool" is a binary entry whatever its mode |
| Archive.DetectsTopLevelBinTool | pkg/archive/archive.go:15-107 | an archive whose one entry is the file "bin/tool" detects exactly that name, whatever its mode |
| Archive.ReadmeNotBinary | pkg/archive/archive_test.go:66-70 | "myapp/README.md" with any mode lacking execute bits (0666 in the ZIP test, 0644 in the TAR test) is not a binary entry |
| Archive.BinariesOfPair | pkg/archive/archive.go:54-58 | a binary followed by a non-binary reports only the first name |
| Archive.DestShape | pkg/archive/archive.go:146 | each destination has the destination directory as a string prefix and has the entry's base name |
| Archive.Dest | pkg/archive/archive.go:146 | an entry's destination is the destination directory joined with the entry's base name (the same rule as line 222) |
| Archive.Perm | pkg/archive/archive.go:165 | a created file gets the permission bits of the entry's mode (as also at line 224) |
| Archive.Written | pkg/archive/archive.go:171 | the bytes left in the destination: all of an intact entry, the prefix read before a read error, nothing for an entry that did not open (the same copy as line 229) |
| Archive.JobFor | pkg/archive/archive.go:135-146 | the extraction job: the set of requested names, and each entry's destination, the destination directory joined with its base name |
| Archive.CopyError | pkg/archive/archive.go:158-173 | a copy fails when the ZIP entry does not open, then when the destination is blocked, then when reading the entry fails; otherwise it succeeds |
| Archive.CopyFiles | pkg/archive/archive.go:165-171 | a copy that opened both ends empties or creates the destination and leaves the bytes read there; one that did not changes nothing |
| Archive.RunExtract | pkg/archive/archive.go:141-155 | the extraction loop as a function: unrequested entries are skipped, requested ones copied in order until one fails, and the stream's own error ends it otherwise |
| Archive.ExtractResult | pkg/archive/archive.go:31-44 | an archive that does not open changes nothing and reports the open error; otherwise the extraction loop runs on its entries |
| Archive.ExtractResultOfStream | pkg/archive/archive.go:31-44 | once the archive opens, Extract is the extraction loop over its stream |
| Archive.ExtractStep | pkg/archive/archive.go:141-153 | one loop step: an unrequested entry is skipped; a requested one is copied, and either stops the run with its error or adds its destination |
| Archive.PrependLaws | pkg/archive/archive.go:152 | appending destination paths composes associatively, which the loop invariants rely on |
| Archive.MembershipSet | pkg/archive/archive.go:135-138 | the set built from the requested names holds exactly those names |
| Archive.ExtractEntry | pkg/archive/archive.go:158-173 | one entry's copy: a ZIP entry that fails to open changes nothing; a blocked destination (unwritable, or an existing file without owner-write when not root) changes nothing and reports the open error; otherwise the destination is truncated, or created with the entry's permissions, and receives the bytes read; the error is reported |
| Archive.ExtractZip | pkg/archive/archive.go:128-156 | the ZIP extraction loop leaves the files and returns the paths and error that `RunExtract` specifies |
| Archive.ExtractFromTar | pkg/archive/archive.go:201-239 | the TAR extraction loop leaves the files and returns the paths and error that `RunExtract` specifies, with the stream's own error when it breaks |
| Archive.Extract | pkg/archive/archive.go:31-44 | dispatch, opening and extraction together equal `ExtractResult`; an archive that fails to open or has an unsupported extension writes nothing |
| ExtractionLaws.Requested | pkg/archive/archive.go:142-144 | the requested entries are a subsequence of the archive no longer than it |
| ExtractionLaws.Dests | pkg/archive/archive.go:146 | there is one destination per copied entry |
| ExtractionLaws.DestsAt | pkg/archive/archive.go:146 | the i-th destination is the i-th entry's destination |
| ExtractionLaws.ReportsCons | pkg/archive/archive.go:148-152 | a successful copy extends the report by its destination |
| ExtractionLaws.ReportsFailure | pkg/archive/archive.go:148-150 | a failed copy ends the report with no further paths and its own error |
| ExtractionLaws.AllCopiedCons | pkg/archive/archive.go:148-152 | a successful copy followed by a run of successful copies is a run of successful copies |
| ExtractionLaws.AllCopiedSplit | pkg/archive/archive.go:141-153 | a run of copies succeeds iff its first k copies do and the rest do on the files those left |
| ExtractionLaws.ExtractReport | pkg/archive/archive.go:140-155 | the returned paths are the destinations of the leading run of requested entries that copied. The error is the first failing copy's; failing that, the stream's end error |
| Archive.EndError | pkg/archive/archive.go:209-216 | a stream that ends cleanly reports no error; a broken one reports the error `Next` returned |
| ExtractionLaws.ExtractFiles | pkg/archive/archive.go:141-153 | the files afterwards are those left by copying the requested entries in order, up to and including the one that failed |
| ExtractionLaws.CopyAllFrame | pkg/archive/archive.go:165 | copying touches no path other than the destinations |
| ExtractionLaws.CopyAllSuccess | pkg/archive/archive.go:165-171 | after successful copies, the files are the old ones plus the destinations. Each destination keeps its old mode, or gets the first writer's permissions, and holds the last writer's bytes |
| ExtractionLaws.DestsPrefix | pkg/archive/archive.go:152 | the destinations of a prefix are a prefix of the destinations |
| ExtractionLaws.FirstModeIsFirst | pkg/archive/archive.go:165 | a created file's mode comes from the first entry written to that path, since O_TRUNC keeps an existing mode |
| ExtractionLaws.LastBytesIsLast | pkg/archive/archive.go:165-171 | a file's contents come from the last entry written to it, since O_TRUNC discards earlier bytes |
| ExtractionLaws.ExtractSuccess | pkg/archive/archive.go:140-155 | a successful extraction was read to a clean end with every requested entry copied. Its paths are their destinations, it writes exactly those paths, and every other file is unchanged |
| ExtractionLaws.ExtractSucceedsIff | pkg/archive/archive.go:148-150 | extraction succeeds iff every requested entry copies and the stream ends cleanly |
| ExtractionLaws.ExtractFrame | pkg/archive/archive.go:201-239 | whatever happens, no file outside the requested destinations changes and none is deleted |
| ExtractionLaws.CopyAllTwice | pkg/archive/archive.go:165-171 | repeating a run of successful copies changes nothing |
| ExtractionLaws.AllCopiedWritable | pkg/archive/archive.go:165-168 | every destination of a run of successful copies was open for writing on the files the run started from |
| ExtractionLaws.AllCopiedIntact | pkg/archive/archive.go:159-172 | every entry of a run of successful copies opened and was read in full |
| ExtractionLaws.CopiesSucceed | pkg/archive/archive.go:158-173 | entries read in full copy without error onto destinations that all exist and are open for writing |
| ExtractionLaws.ExtractTwice | pkg/archive/archive.go:128-173 | a second extraction onto the result of a successful one gives the same files and the same report if and only if the process is root or every file the first run created got the owner-write bit; otherwise reopening a read-only file it created fails |
| ExtractionLaws.ReadOnlyFirstWriter | pkg/archive/archive.go:146-152 | two requested entries with one base name, the first read-only: unless root, the first creates a read-only file, the second cannot reopen it, and extraction stops reporting only the first path |
| ExtractionLaws.ExtractNothingRequested | pkg/archive/archive.go:142-144 | when nothing is requested, no file changes and only the stream's error is reported |
| ExtractionLaws.NothingRequested | pkg/archive/archive.go:135-144 | no entry is requested when no entry name is in the list |
| ExtractionLaws.ExtractionScenario | pkg/archive/archive_test.go:200-253 | extracting "myapp/bin/tool" ("test content", any mode; the test's header reads as 0666) into a directory whose "tool" is not blocked yields exactly [destDir/tool]. That file holds the content with the entry's permission bits, unless a file already existed there, whose mode is kept |
| ExtractionLaws.ExtractSingle | pkg/archive/archive.go:141-155 | a lone requested entry read in full onto a destination open for writing: that one file is written, with the entry's bytes, and reported, with no error |
| ExtractionLaws.DetectThenExtract | pkg/archive/archive.go:15-44 | detection then extraction end to end: an archive holding "bin/tool" detects exactly that name, and extracting the detected names writes "<destDir>/tool" with the entry's bytes, reports that path alone with no error, and changes no other file |
| Installer.Install | pkg/installer/installer.go:9-20 | Install equals `InstallResult`; an empty list fails with nothing installed and nothing written |
| Installer.InstallResult | pkg/installer/installer.go:9-20 | an empty list fails with no paths; otherwise the extraction's paths, with its error wrapped as an extraction failure |
| Installer.InstallOutcome | pkg/installer/installer.go:14-19 | once the archive opens, the installed paths are the destinations of the leading requested entries, and every one of them copied. When that run stops short, the install fails with the next entry's copy error wrapped as an extraction failure; otherwise it reports the stream's error, wrapped, or succeeds. So it fails iff some requested entry fails to copy or the stream breaks |
| Installer.InstallNothingMatched | pkg/installer/installer.go:14-19 | a list naming no entry of a cleanly read archive succeeds with nothing installed and nothing written |
| Installer.InstallUnopenable | pkg/installer/installer.go:14-16 | an archive that does not open installs nothing, and the extraction error is wrapped |
| Os.FileSystem.OpenTruncate | pkg/archive/archive.go:165-168 | opening fails without change at a blocked path: one in the unwritable set, or, unless the process is root, an existing file without owner-write. Otherwise the file is emptied, keeping an existing mode, or created with the given permissions |
| Os.FileSystem.Write | pkg/archive/archive.go:171 | the bytes are added at the end of the open file; nothing else changes |
| Os.Blocked | pkg/archive/archive.go:165 | a path cannot be opened for writing when it is in the unwritable set or, unless the process is root, is an existing file whose owner-write bit is clear |
| GoStrings.ContainsIffOccurs | pkg/shell/shell.go:78 | Contains holds iff the substring occurs at some index |
| GoStrings.Contains | pkg/shell/shell.go:78 | the scan tries every starting position of the text for the substring |
| GoStrings.HasPrefix | pkg/archive/archive.go:111 | the text starts with the prefix |
| GoStrings.ContainsInfix | pkg/shell/shell.go:78 | a string contains whatever was placed inside it |
| GoStrings.ContainsPrepend | pkg/shell/shell.go:78 | prepending text keeps every occurrence |
| GoStrings.ToLower | pkg/archive/archive.go:16 | the result has the input's length and no ASCII capital, and every character that is not an ASCII capital is kept |
| GoStrings.Split | pkg/shell/shell.go:24 | splitting gives at least one piece, and no piece contains the separator |
| GoStrings.JoinWith | pkg/shell/shell.go:24 | the pieces in order with one separator between neighbours |
| GoStrings.SplitThenJoin | pkg/shell/shell.go:24 | joining the pieces of a split with the separator restores the input |
| GoStrings.JoinThenSplit | pkg/shell/shell.go:24 | splitting a join of separator-free pieces restores the pieces |
| GoPaths.Ext | pkg/archive/archive.go:16 | the extension is empty or starts with '.', is a suffix of the path, and its remainder has neither '.' nor '/' |
| GoPaths.Base | pkg/archive/archive.go:146 | the base of "" is ".", of a path of slashes only "/"; otherwise it is the non-empty, slash-free last element of the path once trailing slashes are removed: a suffix of the trimmed path, preceded by '/' or the whole of it |
| GoPaths.BaseIgnoresTrailingSlash | pkg/archive/archive.go:146 | a trailing slash does not change the base name, so a directory entry "myapp/bin/" has base "bin" |
| GoPaths.Join | pkg/archive/archive.go:146 | an empty side is dropped; otherwise the two are joined by one '/' |
| GoPaths.BaseOfJoin | pkg/archive/archive.go:146 | the base of a directory joined with a slash-free element is that element |
| GoPaths.JoinInjective | pkg/archive/archive.go:146 | joining distinct non-empty slash-free names onto one directory gives distinct paths |
| GoPaths.JoinExtends | pkg/archive/archive.go:146 | the directory is a prefix of every path joined onto it |
| Shell.ShellOf | pkg/shell/shell.go:54-70 | a recognised shell's name is the name switched on; any other name fails with an unsupported-shell error |
| Shell.ShellOfName | pkg/shell/shell.go:54-63 | each of bash, zsh and fish is recognised by its own name |
| Shell.ConfigPathShape | pkg/shell/shell.go:97-113 | every profile lies under the home directory and is named .bashrc, .zshrc or config.fish |
| Shell.ConfigPathsDistinct | pkg/shell/shell.go:103-109 | different shells never share a profile |
| Shell.ConfigPath | pkg/shell/shell.go:103-109 | bash uses ~/.bashrc, zsh ~/.zshrc and fish ~/.config/fish/config.fish (the same paths as lines 56-62) |
| Shell.FishConfigDir | pkg/shell/shell.go:65 | the directory created for fish's profile is ~/.config/fish, the parent of its config.fish |
| Shell.ExportLine | pkg/shell/shell.go:57-63 | bash and zsh append an `export PATH="<dir>:$PATH"` line, fish a `set -gx PATH <dir> $PATH` line, each after a "# Added by bii" comment |
| Shell.ExportLineMentionsDir | pkg/shell/shell.go:57-63 | every export line contains the directory it adds |
| Shell.DetectShell | pkg/shell/shell.go:12-19 | an empty $SHELL fails with "not set"; otherwise the result is a non-empty last element without '/' (or "/") |
| Shell.DetectShellLastElement | pkg/shell/shell.go:18 | for $SHELL = dir/name, the detected shell is name |
| Shell.DetectShellExample | pkg/shell/shell_test.go:22 | "/usr/local/bin/fish" is detected as "fish" |
| Shell.GetShellConfigPath | pkg/shell/shell.go:97-113 | a home-directory error comes first; then an unsupported shell is refused |
| Shell.ConfigPathExamples | pkg/shell/shell_test.go:67-99 | bash, zsh and fish map to ~/.bashrc, ~/.zshrc and ~/.config/fish/config.fish; "unsupported" is refused |
| Shell.IsInPath | pkg/shell/shell.go:22-42 | an error from Abs(dir) is returned; otherwise the result is true iff some ':'-separated PATH entry has the same absolute form, and entries whose Abs fails are skipped |
| Shell.InPath | pkg/shell/shell.go:24-39 | some PATH entry's absolute form is the directory's |
| Shell.InPathOfEntries | pkg/shell/shell.go:24-39 | for a PATH joined from colon-free entries, membership is membership among those entries |
| Shell.InPathListed | pkg/shell/shell_test.go:39-54 | a directory listed anywhere in PATH is found |
| Shell.HomeFiles.AddToPath | pkg/shell/shell.go:45-94 | the profiles afterwards and the error equal `AddToPathResult` |
| Shell.AddToPathResult | pkg/shell/shell.go:45-94 | the profile update as a function: home and shell errors first; fish's directory must be creatable; an unreadable profile fails; one that mentions the directory is kept; otherwise the export line is appended, creating the profile with 0644 |
| Shell.AddToPathTargetsConfigPath | pkg/shell/shell.go:45-70 | only the profile GetShellConfigPath names can change. When that lookup fails, AddToPath fails the same way and changes nothing |
| Shell.AddToPathAlreadyPresent | pkg/shell/shell.go:72-80 | a readable profile that already mentions the directory is left as is, and the call succeeds |
| Shell.AddToPathAppends | pkg/shell/shell.go:82-93 | otherwise success leaves the old text followed by the export line, which mentions the directory. A new profile gets mode 0644 and an existing one keeps its mode |
| Shell.AddToPathMentions | pkg/shell/shell.go:45-94 | after success, the shell's profile mentions the directory |
| Shell.AddToPathIdempotent | pkg/shell/shell.go:78-80 | after one success, a second call succeeds and changes nothing |
| Shell.AddToPathTwiceFromMissing | pkg/shell/shell_test.go:101-161 | from a missing profile, two successful calls leave a 0644 profile holding exactly one export line |

## Left out

- Byte-level ZIP, gzip and TAR decoding. An archive is the sequence of entries its readers yield, plus the way the stream ends.
- A TAR view may place a truncated entry before further headers, or end it with a clean end of stream. `tar.Reader` cannot produce either, because its read error is sticky: the next `Next` returns it. Every law is stated over all views, which include these.
- `zip.OpenReader`, `os.Open` and `gzip.NewReader` failures are not distinguished. Each container's view is either an open error or a stream.
- Write-side failures of `io.Copy` after the destination has opened (a full disk) are not modelled. Only opening the destination and reading the entry can fail.
- Directories are not represented. `os.MkdirAll` for fish's profile directory either fails, at an unwritable path, or has no visible effect. Extraction into a missing destination directory appears as unwritable destinations.
- GoPaths.Join: joins two elements and does not apply `filepath.Clean`. Paths with "." or ".." elements, or repeated slashes, are not normalised. `filepath.Join(home, ".config", "fish", "config.fish")` is modelled as nested two-element joins, and `filepath.Dir` of the fish profile as the join of its first three elements.
- GoStrings.ToLower: folds ASCII letters only. Go's `strings.ToLower` also folds non-ASCII letters.
- Archive.Perm: `os.OpenFile` uses the entry mode's permission bits. The process umask and the setuid, setgid and sticky bits are not modelled.
- `defer ... Close()` calls and their ignored errors are not modelled.
- Os.Blocked: every existing file is taken to belong to the process, so only its owner-write bit is consulted. Group and other bits, ownership and access-control lists are not modelled; a directory that refuses new files is expressed through the unwritable set.
- Shell.HomeFiles.AddToPath: a failure of `WriteString` after the profile has opened (pkg/shell/shell.go lines 89-91) is not modelled; opening succeeds means the line is appended. A new profile gets mode 0644 without the process umask, and a read-only existing profile is expressed through the unwritable set rather than its mode.
- `os.Getenv`, `os.UserHomeDir` and `filepath.Abs` are parameters, not calls.
- Shell.IsInPath: takes `filepath.Abs` as an arbitrary function, and the PATH entries are compared by its results.
- `TestCommand` (pkg/shell/shell.go:116-119) is not modelled. It only forwards to `exec.LookPath`, which searches the real file system.
- The command-line layer that chooses binaries and calls these packages is not part of this model.
- Shell.AddToPathTwiceFromMissing: the unit test counts the occurrences of the directory in the profile. The lemma instead states that the profile is exactly one export line.
