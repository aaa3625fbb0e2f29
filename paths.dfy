/**
 * The parts of Go's `path/filepath` package the core relies on, for the
 * slash-separated paths of a Unix system: Ext, Base and a simplified Join.
 */
module GoPaths {
  import opened GoStrings

  /** `suffix` ends `s`. */
  predicate IsSuffix(suffix: string, s: string) {
    |suffix| <= |s| && s[|s| - |suffix|..] == suffix
  }

  /** Every '.' of `path` lies before some '/', i.e. the last path element has no dot. */
  predicate NoDotInLastElement(path: string) {
    forall i :: 0 <= i < |path| && path[i] == '.' ==> '/' in path[i + 1..]
  }

  /**
   * filepath.Ext: the suffix of `path` from the last '.' of its last element
   * on, or "" when that element has no dot.
   */
  function Ext(path: string): (r: string)
    ensures IsSuffix(r, path)
    ensures r == [] || (r[0] == '.' && '.' !in r[1..] && '/' !in r)
    ensures r == [] ==> NoDotInLastElement(path)
    decreases |path|
  {
    if path == [] then []
    else
      var c := path[|path| - 1];
      if c == '/' then []
      else if c == '.' then ['.']
      else
        var e := Ext(path[..|path| - 1]);
        if e == [] then [] else e + [c]
  }

  /** A final "." followed by dot- and slash-free text is the extension, whatever precedes it. */
  lemma {:induction false} ExtOfSuffix(stem: string, x: string)
    requires |x| >= 1 && x[0] == '.' && '.' !in x[1..] && '/' !in x
    ensures Ext(stem + x) == x
    decreases |x|
  {
    var p := stem + x;
    if |x| > 1 {
      var x' := x[..|x| - 1];
      assert p[..|p| - 1] == stem + x';
      assert x'[1..] == x[1..|x| - 1];
      ExtOfSuffix(stem, x');
      assert x' + [x[|x| - 1]] == x;
    }
  }

  /** The last element of `s`: everything after its last '/'. */
  function LastElement(s: string): (r: string)
    ensures IsSuffix(r, s) && '/' !in r
    ensures |r| < |s| ==> s[|s| - |r| - 1] == '/'
    decreases |s|
  {
    if s == [] || s[|s| - 1] == '/' then []
    else LastElement(s[..|s| - 1]) + [s[|s| - 1]]
  }

  /** `s` without its trailing slashes. */
  function TrimTrailingSlashes(s: string): (r: string)
    ensures |r| <= |s| && r == s[..|r|]
    ensures r == [] || r[|r| - 1] != '/'
    ensures forall i :: |r| <= i < |s| ==> s[i] == '/'
    decreases |s|
  {
    if s != [] && s[|s| - 1] == '/' then TrimTrailingSlashes(s[..|s| - 1]) else s
  }

  /**
   * filepath.Base: the last element of `path` once trailing slashes are
   * dropped; "." for the empty path and "/" for a path of slashes only.
   */
  function Base(path: string): (r: string)
    ensures r != []
    ensures '/' in r ==> r == "/"
    ensures path == [] ==> r == "."
    ensures path != [] && (forall i :: 0 <= i < |path| ==> path[i] == '/') ==> r == "/"
    ensures (exists i :: 0 <= i < |path| && path[i] != '/') ==>
              var t := TrimTrailingSlashes(path);
              '/' !in r && IsSuffix(r, t) && (|r| == |t| || t[|t| - |r| - 1] == '/')
  {
    if path == [] then "."
    else
      var t := TrimTrailingSlashes(path);
      if t == [] then "/" else LastElement(t)
  }

  /** A trailing slash does not change the base name: "myapp/bin/" has base "bin". */
  lemma BaseIgnoresTrailingSlash(path: string)
    requires path != []
    ensures Base(path + "/") == Base(path)
  {
    var q := path + "/";
    assert q[..|q| - 1] == path;
  }

  /** When nothing but `elem` follows the last slash, `elem` is the last element. */
  lemma {:induction false} LastElementAfterSlash(dir: string, elem: string)
    requires '/' !in elem
    ensures LastElement(dir + "/" + elem) == elem
    decreases |elem|
  {
    var s := dir + "/" + elem;
    if elem != [] {
      var e' := elem[..|elem| - 1];
      assert s[..|s| - 1] == dir + "/" + e';
      LastElementAfterSlash(dir, e');
      assert e' + [elem[|elem| - 1]] == elem;
    }
  }

  /** A slash-free string is its own last element. */
  lemma {:induction false} LastElementOfElement(elem: string)
    requires '/' !in elem
    ensures LastElement(elem) == elem
    decreases |elem|
  {
    if elem != [] {
      LastElementOfElement(elem[..|elem| - 1]);
      assert elem[..|elem| - 1] + [elem[|elem| - 1]] == elem;
    }
  }

  /**
   * filepath.Join of two elements, without Go's final filepath.Clean: an
   * empty side is dropped, otherwise the two are joined by one '/'.
   */
  function Join(dir: string, elem: string): string {
    if dir == [] then elem
    else if elem == [] then dir
    else dir + "/" + elem
  }

  /** Base undoes Join: the element joined to a directory is the base name of the result. */
  lemma BaseOfJoin(dir: string, elem: string)
    requires elem != [] && '/' !in elem
    ensures Base(Join(dir, elem)) == elem
  {
    var p := Join(dir, elem);
    assert p[|p| - 1] == elem[|elem| - 1];
    assert TrimTrailingSlashes(p) == p;
    if dir == [] {
      LastElementOfElement(elem);
    } else {
      LastElementAfterSlash(dir, elem);
    }
  }

  /** Joining onto one directory keeps distinct names distinct. */
  lemma JoinInjective(dir: string, a: string, b: string)
    requires a != [] && b != [] && '/' !in a && '/' !in b
    requires Join(dir, a) == Join(dir, b)
    ensures a == b
  {
    BaseOfJoin(dir, a);
    BaseOfJoin(dir, b);
  }

  /** A directory is a prefix of every path joined onto it. */
  lemma JoinExtends(dir: string, elem: string)
    ensures HasPrefix(Join(dir, elem), dir)
  {
    var p := Join(dir, elem);
    if dir != [] && elem != [] {
      assert p[..|dir|] == dir;
    }
  }
}
