/**
 * The two path operations the loader uses, as Python's `posixpath` defines
 * them on strings: `join(a, b)` and the head of `split(p)`.  Nothing here
 * touches a file system.
 */
module PosixPath {

  predicate IsAbsolute(p: string) {
    |p| > 0 && p[0] == '/'
  }

  predicate HasNoSlash(p: string) {
    forall i :: 0 <= i < |p| ==> p[i] != '/'
  }

  predicate AllSlashes(p: string) {
    forall i :: 0 <= i < |p| ==> p[i] == '/'
  }

  /**
   * `os.path.join(a, b)`: an absolute `b` replaces `a`; otherwise `b` is
   * appended to `a`, with a `/` between them unless `a` is empty or already
   * ends with one.
   */
  function Join(a: string, b: string): (r: string)
    ensures IsAbsolute(b) ==> r == b
    ensures !IsAbsolute(b) ==> |r| >= |a| + |b| && r[..|a|] == a
    ensures |r| >= |b| && r[|r| - |b|..] == b
    ensures |r| <= |a| + 1 + |b|
    ensures !IsAbsolute(b) ==> (|r| == |a| + 1 + |b| <==> a != [] && a[|a| - 1] != '/')
    ensures |r| == |a| + 1 + |b| ==> r[|a|] == '/'
  {
    if IsAbsolute(b) then b
    else if a == [] || a[|a| - 1] == '/' then a + b
    else a + "/" + b
  }

  /** `p.rfind('/') + 1`: the length of `p` up to and including its last `/`. */
  function AfterLastSlash(p: string): (n: nat)
    ensures n <= |p|
    ensures n > 0 ==> p[n - 1] == '/'
    ensures HasNoSlash(p[n..])
  {
    if p == [] then 0
    else if p[|p| - 1] == '/' then |p|
    else
      var n := AfterLastSlash(p[..|p| - 1]);
      assert p[n..] == p[..|p| - 1][n..] + [p[|p| - 1]];
      n
  }

  /** `h.rstrip('/')`. */
  function TrimSlashes(h: string): (r: string)
    ensures |r| <= |h| && r == h[..|r|]
    ensures r == [] || r[|r| - 1] != '/'
    ensures AllSlashes(h[|r|..])
  {
    if h != [] && h[|h| - 1] == '/' then
      var r := TrimSlashes(h[..|h| - 1]);
      assert h[|r|..] == h[..|h| - 1][|r|..] + ['/'];
      r
    else h
  }

  /**
   * `os.path.split(p)[0]`: everything up to the last `/`, with trailing
   * slashes removed unless it consists of slashes only.
   */
  function DirName(p: string): string {
    var head := p[..AfterLastSlash(p)];
    if head != [] && !AllSlashes(head) then TrimSlashes(head) else head
  }

  // ---------------------------------------------------------------------
  // Properties

  /**
   * The directory of a file name without slashes, joined to a directory that
   * does not end in `/`, is that directory: a loader built on the joined
   * path gets the directory back as its root.
   */
  lemma DirNameOfJoin(dir: string, name: string)
    requires dir == [] || dir[|dir| - 1] != '/'
    requires HasNoSlash(name)
    ensures DirName(Join(dir, name)) == dir
  {
    var p := Join(dir, name);
    if dir == [] {
      assert p == name;
      assert AfterLastSlash(p) == 0;
    } else {
      assert p == dir + "/" + name;
      var n := AfterLastSlash(p);
      assert n == |dir| + 1 by {
        assert p[|dir|] == '/';
      }
      var head := p[..n];
      assert head == dir + "/";
      assert !AllSlashes(head) by { assert head[|dir| - 1] != '/'; }
      assert TrimSlashes(head) == TrimSlashes(dir) by { assert head[..|head| - 1] == dir; }
      assert TrimSlashes(dir) == dir;
    }
  }

  /** The directory of a path is a prefix of the path. */
  lemma DirNamePrefix(p: string)
    ensures |DirName(p)| <= |p| && DirName(p) == p[..|DirName(p)|]
  {
  }

}
