/** POSIX paths in the shapes that `path.resolve` leaves untouched: absolute
    directories and relative paths made only of plain segments (non-empty, no
    `/`, neither `.` nor `..`). On such arguments `path.resolve` is a join with
    `/`; its normalisation of other shapes is not part of this model. */
module Paths {

  /** One plain path segment. */
  predicate IsSegment(s: string) {
    |s| > 0 && '/' !in s && s != "." && s != ".."
  }

  /** The position of the last `/` in `p`, or -1 when there is none. */
  function LastSlash(p: string): (k: int)
    ensures -1 <= k < |p|
    ensures 0 <= k ==> p[k] == '/'
    ensures forall i :: k < i < |p| ==> p[i] != '/'
  {
    if |p| == 0 then -1
    else if p[|p| - 1] == '/' then |p| - 1
    else LastSlash(p[..|p| - 1])
  }

  /** A relative path: plain segments separated by single slashes. */
  predicate IsRelPath(p: string)
    decreases |p|
  {
    var k := LastSlash(p);
    IsSegment(p[k + 1..]) && (k == -1 || IsRelPath(p[..k]))
  }

  /** An absolute directory path with no trailing slash (or the root, `/`). */
  predicate IsAbsDir(p: string) {
    p == "/" || (|p| >= 2 && p[0] == '/' && IsRelPath(p[1..]))
  }

  /** An argument `path.resolve` joins without normalising: empty, absolute or relative. */
  predicate IsPathArg(p: string) {
    p == "" || IsAbsDir(p) || IsRelPath(p)
  }

  /** What every path strictly under directory `d` starts with. */
  function DirPrefix(d: string): (r: string)
    ensures |r| > 0 && r[|r| - 1] == '/'
  {
    if d == "/" then "/" else d + "/"
  }

  /** `p` lies strictly below directory `d`, at a relative path. */
  predicate IsUnder(d: string, p: string) {
    var n := |DirPrefix(d)|;
    n < |p| && p[..n] == DirPrefix(d) && IsRelPath(p[n..])
  }

  /** `dir` is the directory `root` itself or one of its subdirectories. */
  predicate Within(root: string, dir: string) {
    IsAbsDir(dir) && (dir == root || IsUnder(root, dir))
  }

  /** A file extension that, appended to any slash-free name, gives a plain segment. */
  predicate SafeExtension(ext: string) {
    |ext| > 0 && '/' !in ext && exists i :: 0 <= i < |ext| && ext[i] != '.'
  }

  /** `path.resolve(base, p)` for an absolute `base` and a clean `p`: the empty
      path resolves to `base`, an absolute path to itself, and a relative one
      to `base` joined with it. */
  function Resolve(base: string, p: string): (r: string)
    requires IsAbsDir(base) && IsPathArg(p)
    ensures IsAbsDir(r)
    ensures p == "" ==> r == base
    ensures IsAbsDir(p) ==> r == p
    ensures IsRelPath(p) ==> IsUnder(base, r) && r[|DirPrefix(base)|..] == p
  {
    if p == "" then base
    else if IsRelPath(p) then
      JoinIsAbsDir(base, p);
      RelPathShape(p);
      DirPrefix(base) + p
    else p
  }

  /** `LastSlash` is pinned down by its contract: any position that behaves like
      the last slash is the one it returns. */
  lemma {:induction false} LastSlashUnique(p: string, k: int)
    requires -1 <= k < |p|
    requires 0 <= k ==> p[k] == '/'
    requires forall i :: k < i < |p| ==> p[i] != '/'
    ensures LastSlash(p) == k
  {
    var m := LastSlash(p);
    assert 0 <= k ==> p[k] == '/';
    assert 0 <= m ==> p[m] == '/';
  }

  /** A relative path neither starts nor ends with a slash. */
  lemma {:induction false} RelPathShape(p: string)
    requires IsRelPath(p)
    ensures |p| > 0 && p[0] != '/' && p[|p| - 1] != '/'
    decreases |p|
  {
    var k := LastSlash(p);
    if k != -1 {
      RelPathShape(p[..k]);
      assert p[0] == p[..k][0];
    } else {
      assert p[0] == p[k + 1..][0];
    }
    assert p[|p| - 1] == p[k + 1..][|p| - k - 2];
  }

  /** A single segment is a relative path. */
  lemma {:induction false} SegmentIsRelPath(s: string)
    requires IsSegment(s)
    ensures IsRelPath(s)
  {
    LastSlashUnique(s, -1);
    assert s[0..] == s;
  }

  /** Appending one segment to a relative path gives a relative path. */
  lemma {:induction false} RelPathJoin(a: string, s: string)
    requires IsRelPath(a) && IsSegment(s)
    ensures IsRelPath(a + "/" + s)
  {
    var p := a + "/" + s;
    LastSlashUnique(p, |a|);
    assert p[|a| + 1..] == s;
    assert p[..|a|] == a;
  }

  /** Joining two relative paths with a slash gives a relative path. */
  lemma {:induction false} RelPathConcat(a: string, b: string)
    requires IsRelPath(a) && IsRelPath(b)
    ensures IsRelPath(a + "/" + b)
    decreases |b|
  {
    var k := LastSlash(b);
    if k == -1 {
      assert b[k + 1..] == b;
      RelPathJoin(a, b);
    } else {
      var head, last := b[..k], b[k + 1..];
      RelPathConcat(a, head);
      RelPathJoin(a + "/" + head, last);
      SplitAtSlash(a, b, k);
    }
  }

  /** Re-associating a path joined at one of its slashes. */
  lemma SplitAtSlash(a: string, b: string, k: int)
    requires 0 <= k < |b| && b[k] == '/'
    ensures a + "/" + b[..k] + "/" + b[k + 1..] == a + "/" + b
  {
    assert b == b[..k] + "/" + b[k + 1..];
  }

  /** The root joined with a relative path is an absolute directory under it. */
  lemma {:induction false} JoinIsAbsDir(base: string, p: string)
    requires IsAbsDir(base) && IsRelPath(p)
    ensures IsAbsDir(DirPrefix(base) + p)
    ensures IsUnder(base, DirPrefix(base) + p)
  {
    var r := DirPrefix(base) + p;
    var n := |DirPrefix(base)|;
    assert r[..n] == DirPrefix(base) && r[n..] == p;
    RelPathShape(p);
    if base == "/" {
      assert r[1..] == p;
    } else {
      RelPathConcat(base[1..], p);
      DropLeadingSlash(base, p);
    }
  }

  /** Below a directory other than the root, the part after the leading slash
      is the directory's own relative part joined with `p`. */
  lemma DropLeadingSlash(base: string, p: string)
    requires |base| >= 1 && base[0] == '/'
    ensures (base + "/" + p)[1..] == base[1..] + "/" + p
  {
  }

  /** Appending a safe extension to a slash-free name gives a plain segment. */
  lemma {:induction false} SafeExtensionSegment(x: string, ext: string)
    requires '/' !in x && SafeExtension(ext)
    ensures IsSegment(x + ext)
  {
    var i :| 0 <= i < |ext| && ext[i] != '.';
    var s := x + ext;
    assert s[|x| + i] == ext[i];
    assert '/' !in s by {
      forall j | 0 <= j < |s| ensures s[j] != '/' {
        if j < |x| { assert s[j] == x[j]; } else { assert s[j] == ext[j - |x|]; }
      }
    }
    assert s[|x| + i] != '.';
  }

  /** Appending slash-free text does not move the last slash. */
  lemma {:induction false} LastSlashAppend(x: string, y: string)
    requires '/' !in y
    ensures LastSlash(x + y) == LastSlash(x)
  {
    var k := LastSlash(x);
    var p := x + y;
    assert 0 <= k ==> p[k] == x[k];
    forall i | k < i < |p| ensures p[i] != '/' {
      if i < |x| { assert p[i] == x[i]; } else { assert p[i] == y[i - |x|]; }
    }
    LastSlashUnique(p, k);
  }

  /** The pieces of `x + y` around a position inside `x`. */
  lemma AppendPieces(x: string, y: string, k: int)
    requires -1 <= k < |x|
    ensures (x + y)[k + 1..] == x[k + 1..] + y
    ensures 0 <= k ==> (x + y)[..k] == x[..k]
  {
  }

  /** Replacing the last `n` slash-free characters of a relative path by a safe
      extension keeps it a relative path, with the same directory part. */
  lemma {:induction false} RelPathReplaceSuffix(r: string, n: nat, ext: string)
    requires IsRelPath(r) && n <= |r| && '/' !in r[|r| - n..]
    requires SafeExtension(ext)
    ensures IsRelPath(r[..|r| - n] + ext)
  {
    var pre, tail := r[..|r| - n], r[|r| - n..];
    assert r == pre + tail;
    LastSlashAppend(pre, tail);
    var k := LastSlash(pre);
    AppendPieces(pre, tail, k);
    var last := pre[k + 1..];
    assert '/' !in last by {
      forall j | 0 <= j < |last| ensures last[j] != '/' {
        assert last[j] == r[k + 1..][j];
      }
    }
    SafeExtensionSegment(last, ext);
    LastSlashAppend(pre, ext);
    AppendPieces(pre, ext, k);
  }

  /** An absolute directory is recovered from its prefix: distinct directories
      have distinct prefixes. */
  lemma {:induction false} DirPrefixInjective(d1: string, d2: string)
    requires IsAbsDir(d1) && IsAbsDir(d2) && DirPrefix(d1) == DirPrefix(d2)
    ensures d1 == d2
  {
    assert d1 != "/" ==> |DirPrefix(d1)| >= 3 && d1 == DirPrefix(d1)[..|d1|];
    assert d2 != "/" ==> |DirPrefix(d2)| >= 3 && d2 == DirPrefix(d2)[..|d2|];
  }

  /** A relative path resolves to the directory's prefix followed by it. */
  lemma {:induction false} ResolveRelative(base: string, p: string)
    requires IsAbsDir(base) && IsRelPath(p)
    ensures Resolve(base, p) == DirPrefix(base) + p
  {
    RelPathShape(p);
  }

  /** A name resolved in a directory: the directory's prefix followed by the
      name, whose last slash is the one ending that prefix. */
  lemma {:induction false} ResolveSegment(d: string, n: string)
    requires IsAbsDir(d) && IsSegment(n)
    ensures Resolve(d, n) == DirPrefix(d) + n
    ensures LastSlash(Resolve(d, n)) == |DirPrefix(d)| - 1
  {
    SegmentIsRelPath(n);
    var a := DirPrefix(d);
    var p := a + n;
    assert p[|a| - 1] == '/';
    forall i | |a| - 1 < i < |p| ensures p[i] != '/' { assert p[i] == n[i - |a|]; }
    LastSlashUnique(p, |a| - 1);
  }

  /** Resolving a file name in a directory is injective: two walker events for
      different (directory, name) pairs never yield the same path. */
  lemma {:induction false} ResolveInjective(d1: string, n1: string, d2: string, n2: string)
    requires IsAbsDir(d1) && IsSegment(n1) && IsAbsDir(d2) && IsSegment(n2)
    requires Resolve(d1, n1) == Resolve(d2, n2)
    ensures d1 == d2 && n1 == n2
  {
    ResolveSegment(d1, n1);
    ResolveSegment(d2, n2);
    SplitEqualLengths(DirPrefix(d1), n1, DirPrefix(d2), n2);
    DirPrefixInjective(d1, d2);
  }

  /** Two equal concatenations whose first parts have the same length agree part by part. */
  lemma SplitEqualLengths(a1: string, n1: string, a2: string, n2: string)
    requires a1 + n1 == a2 + n2 && |a1| == |a2|
    ensures a1 == a2 && n1 == n2
  {
    assert a1 == (a1 + n1)[..|a1|] && a2 == (a2 + n2)[..|a2|];
    assert n1 == (a1 + n1)[|a1|..] && n2 == (a2 + n2)[|a2|..];
  }

  /** A file named in a directory within `root` lies strictly under `root`. */
  lemma {:induction false} ResolveWithin(root: string, dir: string, name: string)
    requires IsAbsDir(root) && Within(root, dir) && IsSegment(name)
    ensures IsUnder(root, Resolve(dir, name))
  {
    SegmentIsRelPath(name);
    ResolveSegment(dir, name);
    if dir == root {
      JoinIsAbsDir(root, name);
    } else {
      ResolveBelow(root, dir, name);
    }
  }

  /** A file named in a subdirectory of `root` is at the subdirectory's relative
      path joined with its name. */
  lemma {:induction false} ResolveBelow(root: string, dir: string, name: string)
    requires IsAbsDir(root) && IsUnder(root, dir) && IsSegment(name)
    ensures DirPrefix(dir) + name == DirPrefix(root) + (dir[|DirPrefix(root)|..] + "/" + name)
    ensures IsUnder(root, DirPrefix(dir) + name)
  {
    var a := DirPrefix(root);
    var rel := dir[|a|..];
    UnderSplit(root, dir);
    RelPathJoin(rel, name);
    JoinIsAbsDir(root, rel + "/" + name);
    assert dir != "/";
    Reassociate(a, rel, name);
  }

  /** A path strictly under `root` is the root's prefix followed by its relative part. */
  lemma UnderSplit(root: string, d: string)
    requires IsUnder(root, d)
    ensures d == DirPrefix(root) + d[|DirPrefix(root)|..]
  {
  }

  /** A path strictly under a directory other than `/` starts with that
      directory followed by `/`. */
  lemma {:induction false} UnderStartsWith(d: string, p: string)
    requires d != "/" && IsUnder(d, p)
    ensures |d| + 1 < |p| && p[..|d| + 1] == d + "/"
  {
  }

  /** Joining is associative. */
  lemma Reassociate(a: string, b: string, c: string)
    ensures a + b + "/" + c == a + (b + "/" + c)
  {
  }
}
