/**
 * The parts of Node's `path` module the extension uses, over POSIX paths
 * written as strings: `join` of a directory and one entry name, `resolve`
 * against a folder, `dirname`, `basename`, `extname` and `relative` for a
 * path inside its folder. `resolve` drops trailing separators, as Node's
 * does; normalisation of `.`, `..` and repeated separators is not modelled.
 */
module Paths {
  import opened Text

  /** The index of the last `c` in `s`, or -1 when there is none. */
  function LastIndexOf(s: string, c: char): (k: int)
    ensures -1 <= k < |s|
    ensures k >= 0 ==> s[k] == c
    ensures forall i :: k < i < |s| ==> s[i] != c
  {
    if s == [] then -1
    else if s[|s| - 1] == c then |s| - 1
    else LastIndexOf(s[..|s| - 1], c)
  }

  lemma AfterLast(s: string, c: char, k: int)
    requires -1 <= k < |s|
    requires forall i :: k < i < |s| ==> s[i] != c
    ensures c !in s[k + 1..]
  {
  }

  /** `path.join(dir, name)` for one entry name. */
  function Join(dir: string, name: string): string {
    dir + "/" + name
  }

  /** `p` without its trailing separators; a path made only of separators keeps one. */
  function DropTrailingSlashes(p: string): (r: string)
    ensures |r| <= |p| && r == p[..|r|]
    ensures forall i :: |r| <= i < |p| ==> p[i] == '/'
    ensures |r| <= 1 || r[|r| - 1] != '/'
    ensures p != [] ==> r != []
  {
    if |p| > 1 && p[|p| - 1] == '/' then DropTrailingSlashes(p[..|p| - 1]) else p
  }

  /**
   * `path.resolve(folder, p)`: an absolute `p` stands alone, an empty one
   * names the folder, a relative one is joined to it; the result has no
   * trailing separator unless it is the root.
   */
  function Resolve(folder: string, p: string): (r: string)
    ensures |r| <= 1 || r[|r| - 1] != '/'
    ensures p == [] && (|folder| <= 1 || folder[|folder| - 1] != '/') ==> r == folder
    ensures p != [] && p[0] == '/' && (|p| == 1 || p[|p| - 1] != '/') ==> r == p
    ensures p != [] && p[0] != '/' && p[|p| - 1] != '/' ==> r == folder + "/" + p
    ensures p != [] && p[0] != '/' ==> r == folder + "/" + DropTrailingSlashes(p)
  {
    if p != [] && p[0] != '/' then DropUnderFolder(folder, p); DropTrailingSlashes(Join(folder, p))
    else DropTrailingSlashes(if p == [] then folder else p)
  }

  /** Trailing separators of a relative path are dropped without reaching the folder. */
  lemma {:induction false} DropUnderFolder(folder: string, p: string)
    requires p != [] && p[0] != '/'
    ensures DropTrailingSlashes(Join(folder, p)) == folder + "/" + DropTrailingSlashes(p)
    decreases |p|
  {
    var q := Join(folder, p);
    if p[|p| - 1] == '/' {
      assert |p| > 1;
      assert q[..|q| - 1] == Join(folder, p[..|p| - 1]);
      DropUnderFolder(folder, p[..|p| - 1]);
    } else {
      assert q[|q| - 1] == p[|p| - 1];
    }
  }

  /** `path.dirname(p)`: everything before the last separator; `/` at the root, `.` without one. */
  function Dirname(p: string): string {
    var k := LastIndexOf(p, '/');
    if k < 0 then "." else if k == 0 then "/" else p[..k]
  }

  /** `path.basename(p)`: everything after the last separator. */
  function Basename(p: string): (b: string)
    ensures |b| <= |p| && b == p[|p| - |b|..]
    ensures '/' !in b
    ensures |b| < |p| ==> p[|p| - |b| - 1] == '/'
  {
    var k := LastIndexOf(p, '/');
    AfterLast(p, '/', k);
    p[k + 1..]
  }

  /** The shape of an extension: empty, or a dot followed by neither a dot nor a separator. */
  predicate IsExtension(e: string) {
    e == [] || (e[0] == '.' && '.' !in e[1..] && '/' !in e)
  }

  /** No dot after the first character: a base name without an extension, unless it is `..`. */
  predicate NoInnerDot(b: string) {
    forall i :: 0 < i < |b| ==> b[i] != '.'
  }

  /**
   * `path.extname(p)`: the base name from its last dot on, except when
   * that dot is the base name's first character or the base name is `..`.
   */
  function Extname(p: string): (e: string)
    ensures EndsWith(Basename(p), e)
    ensures IsExtension(e)
    ensures var b := Basename(p); e == [] <==> b == ".." || NoInnerDot(b)
  {
    var b := Basename(p);
    var k := LastIndexOf(b, '.');
    ExtensionAt(b, k);
    if k <= 0 || b == ".." then
      SuffixAt(b, |b|);
      b[|b|..]
    else
      SuffixAt(b, k);
      b[k..]
  }

  /** Every tail of a string is one of its suffixes. */
  lemma SuffixAt(b: string, k: int)
    requires 0 <= k <= |b|
    ensures EndsWith(b, b[k..])
  {
  }

  /** What `extname` cuts from a base name `b` whose last dot is at `k`. */
  lemma ExtensionAt(b: string, k: int)
    requires -1 <= k < |b| && (k >= 0 ==> b[k] == '.')
    requires forall i :: k < i < |b| ==> b[i] != '.'
    requires '/' !in b
    ensures k <= 0 || b == ".." ==> NoInnerDot(b) || b == ".."
    ensures !(k <= 0 || b == "..") ==> IsExtension(b[k..]) && !NoInnerDot(b) && b != ".."
  {
    if !(k <= 0 || b == "..") {
      AfterLast(b, '.', k);
      assert b[k..][1..] == b[k + 1..];
      assert b[k] == '.';
    }
  }

  lemma DirnameOfJoin(dir: string, name: string)
    requires dir != [] && '/' !in name
    ensures Dirname(Join(dir, name)) == dir
    ensures Basename(Join(dir, name)) == name
  {
    var p := Join(dir, name);
    assert p[|dir|] == '/';
    assert forall i :: |dir| < i < |p| ==> p[i] == name[i - |dir| - 1];
    assert LastIndexOf(p, '/') == |dir|;
    assert p[..|dir|] == dir;
  }

  /**
   * An entry name resolved against a folder, with or without the trailing
   * separator `git status` prints after an untracked directory, is the
   * entry's path: its `dirname` is the folder and its `basename` the name.
   */
  lemma ResolveEntry(folder: string, name: string)
    requires folder != [] && folder[|folder| - 1] != '/'
    requires name != [] && '/' !in name
    ensures Resolve(folder, name) == Join(folder, name)
    ensures Resolve(folder, name + "/") == Join(folder, name)
    ensures Dirname(Resolve(folder, name + "/")) == folder
    ensures Basename(Resolve(folder, name + "/")) == name
  {
    var j := Join(folder, name);
    assert j[|j| - 1] == name[|name| - 1];
    assert (name + "/")[0] == name[0];
    assert Join(folder, name + "/") == j + "/";
    assert (j + "/")[..|j|] == j;
    DirnameOfJoin(folder, name);
  }

  /** `p` is `root` itself or lies below it. */
  predicate Within(root: string, p: string) {
    p == root || StartsWith(p, root + "/")
  }

  /** `path.relative(root, p)` for a `p` inside `root`: what is left after `root` and its separator. */
  function Relative(root: string, p: string): (r: string)
    requires Within(root, p)
    ensures p == root || p == root + "/" + r
    ensures r == [] <==> p == root || p == root + "/"
  {
    if p == root then "" else p[|root| + 1..]
  }
}
