/**
 * pkg/shell/shell.go: which shell the user runs, where its profile lives,
 * whether a directory is already on PATH, and adding a directory to PATH by
 * appending an export line to the profile unless the profile mentions it.
 *
 * The environment ($SHELL, $PATH), the home directory and filepath.Abs are
 * inputs; the profiles are text files in a `HomeFiles` object.
 */
module Shell {
  import opened Types
  import opened GoStrings
  import opened GoPaths

  // ---------------------------------------------------------------------------
  // The shell table
  // ---------------------------------------------------------------------------

  /** The shells whose profiles can be edited. */
  datatype ShellKind = Bash | Zsh | Fish

  /** The name $SHELL ends with for each supported shell. */
  function Name(k: ShellKind): string {
    match k
    case Bash => "bash"
    case Zsh => "zsh"
    case Fish => "fish"
  }

  /** The switch on the shell name: the three supported names, and an error for any other. */
  function ShellOf(shell: string): (r: Result<ShellKind>)
    ensures r.Ok? ==> Name(r.value) == shell
    ensures r.Err? ==> r.error == UnsupportedShell(shell)
  {
    if shell == "bash" then Ok(Bash)
    else if shell == "zsh" then Ok(Zsh)
    else if shell == "fish" then Ok(Fish)
    else Err(UnsupportedShell(shell))
  }

  /** Every supported shell is recognised by its name. */
  lemma ShellOfName(k: ShellKind)
    ensures ShellOf(Name(k)) == Ok(k)
  {
  }

  /** The file name of each shell's profile. */
  function ConfigName(k: ShellKind): string {
    match k
    case Bash => ".bashrc"
    case Zsh => ".zshrc"
    case Fish => "config.fish"
  }

  /** The directory fish keeps its profile in. */
  function FishConfigDir(home: string): string {
    Join(Join(home, ".config"), "fish")
  }

  /** The profile of each shell under the home directory. */
  function ConfigPath(k: ShellKind, home: string): string {
    match k
    case Bash => Join(home, ".bashrc")
    case Zsh => Join(home, ".zshrc")
    case Fish => Join(FishConfigDir(home), "config.fish")
  }

  /** Each profile lies under the home directory and is named after its shell. */
  lemma ConfigPathShape(k: ShellKind, home: string)
    ensures HasPrefix(ConfigPath(k, home), home)
    ensures Base(ConfigPath(k, home)) == ConfigName(k)
  {
    match k
    case Bash =>
      JoinExtends(home, ".bashrc");
      BaseOfJoin(home, ".bashrc");
    case Zsh =>
      JoinExtends(home, ".zshrc");
      BaseOfJoin(home, ".zshrc");
    case Fish =>
      var c := Join(home, ".config");
      JoinExtends(home, ".config");
      JoinExtends(c, "fish");
      JoinExtends(FishConfigDir(home), "config.fish");
      PrefixTransitive(FishConfigDir(home), c, home);
      PrefixTransitive(ConfigPath(k, home), FishConfigDir(home), home);
      BaseOfJoin(FishConfigDir(home), "config.fish");
  }

  /** Different shells never share a profile. */
  lemma ConfigPathsDistinct(k1: ShellKind, k2: ShellKind, home: string)
    requires k1 != k2
    ensures ConfigPath(k1, home) != ConfigPath(k2, home)
  {
    ConfigPathShape(k1, home);
    ConfigPathShape(k2, home);
    assert ConfigName(k1) != ConfigName(k2) by {
      assert ConfigName(k1)[1] != ConfigName(k2)[1] || |ConfigName(k1)| != |ConfigName(k2)|;
    }
  }

  /** The lines appended to a profile to put `dir` on PATH. */
  function ExportLine(k: ShellKind, dir: string): string {
    match k
    case Bash => "\n# Added by bii\nexport PATH=\"" + dir + ":$PATH\"\n"
    case Zsh => "\n# Added by bii\nexport PATH=\"" + dir + ":$PATH\"\n"
    case Fish => "\n# Added by bii\nset -gx PATH " + dir + " $PATH\n"
  }

  /** The export line names the directory it adds. */
  lemma ExportLineMentionsDir(k: ShellKind, dir: string)
    ensures Contains(ExportLine(k, dir), dir)
  {
    match k
    case Bash => ContainsInfix("\n# Added by bii\nexport PATH=\"", dir, ":$PATH\"\n");
    case Zsh => ContainsInfix("\n# Added by bii\nexport PATH=\"", dir, ":$PATH\"\n");
    case Fish => ContainsInfix("\n# Added by bii\nset -gx PATH ", dir, " $PATH\n");
  }

  // ---------------------------------------------------------------------------
  // DetectShell and GetShellConfigPath
  // ---------------------------------------------------------------------------

  /** DetectShell, given the value of $SHELL: its last path element, or an error when it is empty. */
  function DetectShell(shellEnv: string): (r: Result<string>)
    ensures r.Err? <==> shellEnv == []
    ensures r.Err? ==> r.error == ShellNotSet
    ensures r.Ok? ==> r.value != [] && ('/' in r.value ==> r.value == "/")
  {
    if shellEnv == [] then Err(ShellNotSet) else Ok(Base(shellEnv))
  }

  /** The shell's name is whatever follows the last slash of $SHELL. */
  lemma DetectShellLastElement(dir: string, name: string)
    requires name != [] && '/' !in name
    ensures DetectShell(Join(dir, name)) == Ok(name)
  {
    BaseOfJoin(dir, name);
  }

  /** The unit-test case "/usr/local/bin/fish". */
  lemma DetectShellExample()
    ensures DetectShell("/usr/local/bin/fish") == Ok("fish")
  {
    DetectShellLastElement("/usr/local/bin", "fish");
    assert Join("/usr/local/bin", "fish") == "/usr/local/bin/fish";
  }

  /** GetShellConfigPath, given the result of os.UserHomeDir: a home error comes first. */
  function GetShellConfigPath(shell: string, home: Result<string>): (r: Result<string>)
    ensures home.Err? ==> r == Err(home.error)
    ensures home.Ok? && ShellOf(shell).Err? ==> r == Err(UnsupportedShell(shell))
  {
    match home
    case Err(e) => Err(e)
    case Ok(h) =>
      match ShellOf(shell)
      case Err(e) => Err(e)
      case Ok(k) => Ok(ConfigPath(k, h))
  }

  /**
   * The unit-test table: bash, zsh and fish map to their profiles under the
   * home directory, and any other name is refused.
   */
  lemma ConfigPathExamples(home: string)
    ensures GetShellConfigPath("bash", Ok(home)) == Ok(Join(home, ".bashrc"))
    ensures GetShellConfigPath("zsh", Ok(home)) == Ok(Join(home, ".zshrc"))
    ensures GetShellConfigPath("fish", Ok(home)) == Ok(Join(Join(Join(home, ".config"), "fish"), "config.fish"))
    ensures GetShellConfigPath("unsupported", Ok(home)) == Err(UnsupportedShell("unsupported"))
  {
  }

  // ---------------------------------------------------------------------------
  // IsInPath
  // ---------------------------------------------------------------------------

  /** Some entry of `dirs` has the absolute form `absDir`; entries whose absolute form fails do not count. */
  predicate InPath(dirs: seq<string>, absDir: string, abs: string -> Result<string>) {
    exists i :: 0 <= i < |dirs| && abs(dirs[i]) == Ok(absDir)
  }

  /**
   * IsInPath, given the value of $PATH and filepath.Abs: whether some
   * ':'-separated entry of PATH has the same absolute form as `dir`.
   */
  method IsInPath(pathEnv: string, dir: string, abs: string -> Result<string>) returns (r: Result<bool>)
    ensures abs(dir).Err? ==> r == Err(abs(dir).error)
    ensures abs(dir).Ok? ==> r == Ok(InPath(Split(pathEnv, ':'), abs(dir).value, abs))
  {
    var dirs := Split(pathEnv, ':');
    var absDir := abs(dir);
    if absDir.Err? {
      return Err(absDir.error);
    }
    var i := 0;
    while i < |dirs|
      invariant 0 <= i <= |dirs|
      invariant forall j :: 0 <= j < i ==> abs(dirs[j]) != Ok(absDir.value)
    {
      var absPath := abs(dirs[i]);
      if absPath.Ok? && absPath.value == absDir.value {
        return Ok(true);
      }
      i := i + 1;
    }
    return Ok(false);
  }

  /** For a PATH built from colon-free entries, membership is membership among those entries. */
  lemma InPathOfEntries(entries: seq<string>, absDir: string, abs: string -> Result<string>)
    requires |entries| >= 1 && forall i :: 0 <= i < |entries| ==> ':' !in entries[i]
    ensures InPath(Split(JoinWith(entries, ':'), ':'), absDir, abs) <==>
            exists e :: e in entries && abs(e) == Ok(absDir)
  {
    JoinThenSplit(entries, ':');
  }

  /**
   * A directory listed in PATH is found wherever it sits, as in the unit
   * test that finds "/test/bin" between "/usr/bin:/bin" and "/usr/local/bin".
   */
  lemma InPathListed(before: seq<string>, dir: string, after: seq<string>, abs: string -> Result<string>)
    requires abs(dir).Ok? && ':' !in dir
    requires forall i :: 0 <= i < |before| ==> ':' !in before[i]
    requires forall i :: 0 <= i < |after| ==> ':' !in after[i]
    ensures InPath(Split(JoinWith(before + [dir] + after, ':'), ':'), abs(dir).value, abs)
  {
    var entries := before + [dir] + after;
    forall i | 0 <= i < |entries| ensures ':' !in entries[i] {
      if i < |before| {
        assert entries[i] == before[i];
      } else if i > |before| {
        assert entries[i] == after[i - |before| - 1];
      }
    }
    InPathOfEntries(entries, abs(dir).value, abs);
    assert entries[|before|] == dir;
  }

  // ---------------------------------------------------------------------------
  // AddToPath
  // ---------------------------------------------------------------------------

  /** A profile: its permission bits and its text. */
  datatype TextFile = TextFile(mode: FileMode, text: string)

  type Profiles = map<string, TextFile>

  /**
   * What AddToPath does to the profiles and returns, given the home
   * directory (or the error os.UserHomeDir gave), the paths os.ReadFile
   * cannot read and the paths at which a directory or file cannot be
   * created or opened for writing.
   */
  function AddToPathResult(files: Profiles, unreadable: set<string>, unwritable: set<string>,
                           shell: string, dir: string, home: Result<string>): (Profiles, Option<Error>)
  {
    if home.Err? then (files, Some(home.error))
    else if ShellOf(shell).Err? then (files, Some(UnsupportedShell(shell)))
    else
      var k := ShellOf(shell).value;
      var configFile := ConfigPath(k, home.value);
      if k == Fish && FishConfigDir(home.value) in unwritable then (files, Some(MkdirFailed(FishConfigDir(home.value))))
      else if configFile in unreadable then (files, Some(ReadFailed(configFile)))
      else
        var content := if configFile in files then files[configFile].text else "";
        if Contains(content, dir) then (files, None)
        else if configFile in unwritable then (files, Some(CreateFailed(configFile)))
        else
          var mode := if configFile in files then files[configFile].mode else ProfileMode;
          (files[configFile := TextFile(mode, content + ExportLine(k, dir))], None)
  }

  /** The user's home directory as AddToPath sees it: profiles that can be read, written or created. */
  class HomeFiles {
    var files: Profiles
    const unreadable: set<string>
    const unwritable: set<string>

    constructor (files: Profiles, unreadable: set<string>, unwritable: set<string>)
      ensures this.files == files && this.unreadable == unreadable && this.unwritable == unwritable
    {
      this.files := files;
      this.unreadable := unreadable;
      this.unwritable := unwritable;
    }

    /**
     * AddToPath: pick the profile and export line for the shell, make sure
     * fish's profile directory exists, read the profile, and append the
     * export line unless the profile already mentions `dir`.
     */
    method AddToPath(shell: string, dir: string, home: Result<string>) returns (err: Option<Error>)
      modifies this
      ensures (files, err) == AddToPathResult(old(files), unreadable, unwritable, shell, dir, home)
    {
      if home.Err? {
        return Some(home.error);
      }
      var configFile: string;
      var exportLine: string;
      var kind := ShellOf(shell);
      match kind {
        case Err(e) =>
          return Some(e);
        case Ok(Bash) =>
          configFile := Join(home.value, ".bashrc");
          exportLine := ExportLine(Bash, dir);
        case Ok(Zsh) =>
          configFile := Join(home.value, ".zshrc");
          exportLine := ExportLine(Zsh, dir);
        case Ok(Fish) =>
          configFile := Join(Join(Join(home.value, ".config"), "fish"), "config.fish");
          exportLine := ExportLine(Fish, dir);
          var configDir := Join(Join(home.value, ".config"), "fish");
          if configDir in unwritable {
            return Some(MkdirFailed(configDir));
          }
      }
      if configFile in unreadable {
        return Some(ReadFailed(configFile));
      }
      var content := if configFile in files then files[configFile].text else "";
      if Contains(content, dir) {
        return None;
      }
      if configFile in unwritable {
        return Some(CreateFailed(configFile));
      }
      var mode := if configFile in files then files[configFile].mode else ProfileMode;
      files := files[configFile := TextFile(mode, content + exportLine)];
      err := None;
    }
  }

  /**
   * AddToPath touches only the profile GetShellConfigPath names; when that
   * lookup fails (no home directory, unsupported shell) it fails the same
   * way before any file is read or written.
   */
  lemma AddToPathTargetsConfigPath(files: Profiles, unreadable: set<string>, unwritable: set<string>,
                                   shell: string, dir: string, home: Result<string>)
    ensures var (f, err) := AddToPathResult(files, unreadable, unwritable, shell, dir, home);
            var cp := GetShellConfigPath(shell, home);
            && (cp.Err? ==> f == files && err == Some(cp.error))
            && (cp.Ok? ==> forall p :: p != cp.value ==> (p in f <==> p in files) && (p in files ==> f[p] == files[p]))
  {
  }

  /** A profile that already mentions the directory is left as it is. */
  lemma AddToPathAlreadyPresent(files: Profiles, unreadable: set<string>, unwritable: set<string>,
                                shell: string, dir: string, home: string)
    requires ShellOf(shell).Ok?
    requires var k := ShellOf(shell).value;
             var cp := ConfigPath(k, home);
             && !(k == Fish && FishConfigDir(home) in unwritable)
             && cp !in unreadable && cp in files && Contains(files[cp].text, dir)
    ensures AddToPathResult(files, unreadable, unwritable, shell, dir, Ok(home)) == (files, None)
  {
  }

  /**
   * Otherwise a successful AddToPath leaves the profile holding its old text
   * (none, for a missing profile) followed by the shell's export line, which
   * mentions the directory; a new profile gets mode 0644.
   */
  lemma AddToPathAppends(files: Profiles, unreadable: set<string>, unwritable: set<string>,
                         shell: string, dir: string, home: string)
    requires ShellOf(shell).Ok?
    requires var cp := ConfigPath(ShellOf(shell).value, home);
             AddToPathResult(files, unreadable, unwritable, shell, dir, Ok(home)).1.None? &&
             !Contains(if cp in files then files[cp].text else "", dir)
    ensures var k := ShellOf(shell).value;
            var cp := ConfigPath(k, home);
            var f := AddToPathResult(files, unreadable, unwritable, shell, dir, Ok(home)).0;
            var old_text := if cp in files then files[cp].text else "";
            && cp in f
            && f[cp] == TextFile(if cp in files then files[cp].mode else ProfileMode, old_text + ExportLine(k, dir))
            && Contains(f[cp].text, dir)
  {
    var k := ShellOf(shell).value;
    var cp := ConfigPath(k, home);
    ExportLineMentionsDir(k, dir);
    ContainsPrepend(if cp in files then files[cp].text else "", ExportLine(k, dir), dir);
  }

  /** After a successful AddToPath the profile mentions the directory. */
  lemma AddToPathMentions(files: Profiles, unreadable: set<string>, unwritable: set<string>,
                          shell: string, dir: string, home: string)
    requires AddToPathResult(files, unreadable, unwritable, shell, dir, Ok(home)).1.None?
    ensures var cp := GetShellConfigPath(shell, Ok(home));
            var f := AddToPathResult(files, unreadable, unwritable, shell, dir, Ok(home)).0;
            cp.Ok? && (dir != [] ==> cp.value in f) && (cp.value in f ==> Contains(f[cp.value].text, dir))
  {
    var k := ShellOf(shell).value;
    var cp := ConfigPath(k, home);
    if !Contains(if cp in files then files[cp].text else "", dir) {
      AddToPathAppends(files, unreadable, unwritable, shell, dir, home);
    }
  }

  /** AddToPath is idempotent: once it has succeeded, a second call changes nothing and succeeds. */
  lemma AddToPathIdempotent(files: Profiles, unreadable: set<string>, unwritable: set<string>,
                            shell: string, dir: string, home: Result<string>)
    requires AddToPathResult(files, unreadable, unwritable, shell, dir, home).1.None?
    ensures var f := AddToPathResult(files, unreadable, unwritable, shell, dir, home).0;
            AddToPathResult(f, unreadable, unwritable, shell, dir, home) == (f, None)
  {
    var f := AddToPathResult(files, unreadable, unwritable, shell, dir, home).0;
    AddToPathMentions(files, unreadable, unwritable, shell, dir, home.value);
    var cp := ConfigPath(ShellOf(shell).value, home.value);
    if cp !in f {
      assert dir == [];
      assert HasPrefix("", dir);
    }
  }

  /**
   * The unit-test scenario: starting without a profile, two successful
   * calls leave a new profile holding exactly one export line.
   */
  lemma AddToPathTwiceFromMissing(files: Profiles, unreadable: set<string>, unwritable: set<string>,
                                  shell: string, dir: string, home: string)
    requires dir != []
    requires ShellOf(shell).Ok? && ConfigPath(ShellOf(shell).value, home) !in files
    requires AddToPathResult(files, unreadable, unwritable, shell, dir, Ok(home)).1.None?
    ensures var k := ShellOf(shell).value;
            var f1 := AddToPathResult(files, unreadable, unwritable, shell, dir, Ok(home)).0;
            var r2 := AddToPathResult(f1, unreadable, unwritable, shell, dir, Ok(home));
            r2.1.None? && r2.0[ConfigPath(k, home)] == TextFile(ProfileMode, ExportLine(k, dir))
  {
    var k := ShellOf(shell).value;
    assert !Contains("", dir);
    AddToPathAppends(files, unreadable, unwritable, shell, dir, home);
    AddToPathIdempotent(files, unreadable, unwritable, shell, dir, Ok(home));
    assert "" + ExportLine(k, dir) == ExportLine(k, dir);
  }
}
