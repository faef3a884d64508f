/**
 * The parts of POSIX `path.basename`, `path.dirname`, `path.join` and
 * `path.relative` that the rename uses, on `/`-separated strings without
 * trailing separators (the form in which the directory walk reports entries).
 */
module Paths {
  import opened Text

  /** Index of the last `/` in `p`, or -1 when there is none. */
  function LastSlash(p: string): (k: int)
    ensures -1 <= k < |p|
    ensures k >= 0 ==> p[k] == '/'
    ensures forall j :: k < j < |p| ==> p[j] != '/'
    decreases |p|
  {
    if |p| == 0 then -1
    else if p[|p| - 1] == '/' then |p| - 1
    else LastSlash(p[..|p| - 1])
  }

  /** A `/` with none after it is the last one. */
  lemma LastSlashAt(p: string, k: int)
    requires 0 <= k < |p| && p[k] == '/'
    requires '/' !in p[k + 1..]
    ensures LastSlash(p) == k
  {
    forall j | k < j < |p| ensures p[j] != '/' {
      assert p[j] == p[k + 1..][j - k - 1];
    }
  }

  /** The last component of `p`. */
  function Basename(p: string): (b: string)
    ensures '/' !in b
    ensures EndsWith(p, b)
  {
    p[LastSlash(p) + 1..]
  }

  /** Everything before the last component: `.` when there is no `/`, `/` for a top-level entry. */
  function Dirname(p: string): (d: string)
    ensures d != []
    ensures d == "." || (StartsWith(p, d) && |d| <= |p|)
  {
    var k := LastSlash(p);
    if k < 0 then "."
    else if k == 0 then "/"
    else p[..k]
  }

  /**
   * `dir` and `base` put together with one separator; an empty `base` adds
   * nothing, so the result is `dir` itself.
   */
  function JoinPath(dir: string, base: string): (q: string)
    ensures EndsWith(q, base)
    ensures dir != "." ==> StartsWith(q, dir)
    ensures base == [] ==> q == dir
  {
    if base == [] then dir
    else if dir == "." then base
    else if dir == "/" then "/" + base
    else dir + "/" + base
  }

  /**
   * An absolute directory path other than `/`, without a trailing `/`: the
   * form of root for which the path below it is what follows `root + "/"`.
   */
  predicate AbsoluteRoot(root: string) {
    |root| >= 2 && root[0] == '/' && root[|root| - 1] != '/'
  }

  /** `p` lies below `root`. */
  predicate Below(root: string, p: string) {
    StartsWith(p, root + "/")
  }

  /** The path of `p` below `root`, for an entry that lies under `root`. */
  function Relative(root: string, p: string): (rel: string)
    ensures StartsWith(p, root + "/") ==> p == root + "/" + rel
  {
    if StartsWith(p, root + "/") then p[|root| + 1..] else p
  }

  lemma LastSlashOfJoin(dir: string, base: string)
    requires '/' !in base
    ensures LastSlash(dir + "/" + base) == |dir|
  {
    var q := dir + "/" + base;
    var k := LastSlash(q);
    assert q[|dir|] == '/';
  }

  /**
   * Putting a new last component (one without `/`) under the directory of
   * `p` keeps that directory and makes the new component the last one.
   */
  lemma ReplaceLastComponent(p: string, base: string)
    requires base != [] && '/' !in base
    ensures Dirname(JoinPath(Dirname(p), base)) == Dirname(p)
    ensures Basename(JoinPath(Dirname(p), base)) == base
  {
    var dir := Dirname(p);
    var q := JoinPath(dir, base);
    if dir == "." {
      assert LastSlash(base) == -1 by {
        forall j | 0 <= j < |base| ensures base[j] != '/' { }
      }
    } else if dir == "/" {
      LastSlashOfJoin("", base);
      assert q == "" + "/" + base;
    } else {
      LastSlashOfJoin(dir, base);
      assert q[|dir| + 1..] == base;
    }
  }

  /**
   * An absolute path that does not begin with `//` and has a non-empty last
   * component is its parent directory joined with that component.
   */
  lemma ParentAndNameRebuildPath(p: string)
    requires |p| >= 2 && p[0] == '/' && p[1] != '/'
    requires Basename(p) != []
    ensures JoinPath(Dirname(p), Basename(p)) == p
  {
    var k := LastSlash(p);
    if k > 0 {
      assert p == p[..k] + "/" + p[k + 1..];
    } else {
      assert p == "/" + p[1..];
    }
  }

  /** A suffix without `/` that ends a path is no longer than the last component. */
  lemma SlashFreeSuffixFits(p: string, suffix: string)
    requires '/' !in suffix
    requires EndsWith(p, suffix)
    ensures |suffix| <= |Basename(p)|
  {
    var n := |p| - |suffix|;
    forall j | n <= j < |p| ensures p[j] != '/' {
      assert p[j] == suffix[j - n];
    }
  }

  /**
   * A suffix without `/` ends a path exactly when it ends the path's last
   * component.
   */
  lemma SuffixOfBasename(p: string, suffix: string)
    requires '/' !in suffix
    ensures EndsWith(p, suffix) <==> EndsWith(Basename(p), suffix)
  {
    var b := Basename(p);
    var n := |p| - |suffix|;
    if EndsWith(p, suffix) {
      SlashFreeSuffixFits(p, suffix);
      assert p[n..] == b[|b| - |suffix|..];
    }
    if EndsWith(b, suffix) {
      assert p[n..] == b[|b| - |suffix|..];
    }
  }
}
