/**
 * The three functions of Python's `posixpath` that the downloaders use:
 * `dirname`, `basename` and two-argument `join`, written as the standard
 * library writes them.
 */
module PosixPath {
  import opened Common

  predicate NoSlash(s: string) { forall k :: 0 <= k < |s| ==> s[k] != '/' }

  predicate AllSlashes(s: string) { forall k :: 0 <= k < |s| ==> s[k] == '/' }

  /** `p.rfind('/') + 1`: where the last component starts. */
  function SplitIndex(p: string): (i: nat)
    ensures i <= |p| && NoSlash(p[i..])
    ensures i > 0 ==> p[i - 1] == '/'
  {
    if |p| == 0 then 0
    else if p[|p| - 1] == '/' then |p|
    else
      var i := SplitIndex(p[..|p| - 1]);
      assert p[i..] == p[..|p| - 1][i..] + [p[|p| - 1]];
      i
  }

  /** `s.rstrip('/')`. */
  function RStripSlash(s: string): (r: string)
    ensures |r| <= |s| && r == s[..|r|]
    ensures r == [] || r[|r| - 1] != '/'
    ensures AllSlashes(s[|r|..])
  {
    if s == [] || s[|s| - 1] != '/' then s
    else
      var r := RStripSlash(s[..|s| - 1]);
      assert s[..|r|] == s[..|s| - 1][..|r|];
      assert s[|r|..] == s[..|s| - 1][|r|..] + [s[|s| - 1]];
      r
  }

  /** `posixpath.dirname(p)`. */
  function Dirname(p: string): string
  {
    var head := p[..SplitIndex(p)];
    if head != [] && !AllSlashes(head) then RStripSlash(head) else head
  }

  /** `posixpath.basename(p)`. */
  function Basename(p: string): (b: string)
    ensures NoSlash(b)
  {
    p[SplitIndex(p)..]
  }

  /** `posixpath.join(a, b)`. */
  function Join(a: string, b: string): string
  {
    if StartsWith(b, "/") then b
    else if a == [] || a[|a| - 1] == '/' then a + b
    else a + "/" + b
  }

  /** What `dirname` can return: nothing, only slashes, or a path not ending in a slash. */
  predicate DirShaped(d: string)
  {
    d == [] || AllSlashes(d) || d[|d| - 1] != '/'
  }

  lemma DirnameShaped(p: string)
    ensures DirShaped(Dirname(p))
  {
  }

  /** Joining a directory with a plain name is undone by `dirname` and `basename`. */
  lemma JoinSplits(dir: string, name: string)
    requires DirShaped(dir) && name != [] && NoSlash(name)
    ensures Dirname(Join(dir, name)) == dir
    ensures Basename(Join(dir, name)) == name
  {
    var j := Join(dir, name);
    assert !StartsWith(name, "/") by { assert name[0] != '/'; }
    if dir == [] {
      assert j == name;
      assert SplitIndex(j) == 0;
      assert j[..0] == [];
    } else if dir[|dir| - 1] == '/' {
      assert AllSlashes(dir);
      assert j == dir + name;
      SplitAfter(dir, name);
      assert j[..|dir|] == dir;
    } else {
      assert j == (dir + "/") + name;
      SplitAfter(dir + "/", name);
      var head := j[..|dir| + 1];
      assert head == dir + "/";
      assert !AllSlashes(head) by { assert head[|dir| - 1] == dir[|dir| - 1]; }
      var r := RStripSlash(head);
      assert r == RStripSlash(dir);
      assert RStripSlash(dir) == dir;
    }
  }

  lemma SplitAfter(dir: string, name: string)
    requires dir != [] && dir[|dir| - 1] == '/' && NoSlash(name)
    ensures SplitIndex(dir + name) == |dir|
  {
    var p := dir + name;
    assert p[|dir| - 1] == '/';
  }
}
