/** POSIX path strings as `os.path` handles them: suffix and prefix tests,
    `basename` (the tail of `os.path.split`) and two-component `join`. */
module Paths {

  type Path = string

  predicate EndsWith(s: string, suffix: string) {
    |suffix| <= |s| && s[|s| - |suffix|..] == suffix
  }

  predicate StartsWith(s: string, prefix: string) {
    |prefix| <= |s| && s[..|prefix|] == prefix
  }

  /** The tail of `os.path.split(p)`: everything after the last '/'. */
  function Basename(p: Path): Path {
    if p == [] || p[|p| - 1] == '/' then []
    else Basename(p[..|p| - 1]) + [p[|p| - 1]]
  }

  /** The basename is the longest suffix of `p` free of '/': it ends `p`,
      holds no separator, and is preceded by one unless it is all of `p`. */
  lemma {:induction false} BasenameIsLastComponent(p: Path)
    ensures EndsWith(p, Basename(p))
    ensures '/' !in Basename(p)
    ensures |Basename(p)| < |p| ==> p[|p| - |Basename(p)| - 1] == '/'
  {
    if p != [] && p[|p| - 1] != '/' {
      var q, c := p[..|p| - 1], p[|p| - 1];
      BasenameIsLastComponent(q);
      var bq := Basename(q);
      var b := bq + [c];
      assert Basename(p) == b;
      assert p == q + [c];
      assert p[|p| - |b|..] == q[|q| - |bq|..] + [c];
      assert '/' !in b;
      if |b| < |p| {
        assert p[|p| - |b| - 1] == q[|q| - |bq| - 1];
      }
    }
  }

  /** `os.path.join(a, b)` on POSIX: an absolute `b` replaces `a`, otherwise a
      separator is inserted unless `a` is empty or already ends in one. */
  function Join(a: Path, b: Path): Path {
    if |b| > 0 && b[0] == '/' then b
    else if a == [] || a[|a| - 1] == '/' then a + b
    else a + "/" + b
  }

  /** The joined path ends with the second component and, unless that
      component is absolute, starts with the first. */
  lemma JoinKeepsParts(a: Path, b: Path)
    ensures EndsWith(Join(a, b), b)
    ensures (|b| == 0 || b[0] != '/') ==> StartsWith(Join(a, b), a)
  {
    var r := Join(a, b);
    if !(|b| > 0 && b[0] == '/') {
      var sep := if a == [] || a[|a| - 1] == '/' then "" else "/";
      assert r == a + sep + b;
      assert r[|r| - |b|..] == b;
      assert r[..|a|] == a;
    }
  }

  /** Any '/'-free suffix of `p` preceded by a separator (or filling `p`) is
      the basename: the characterisation in Basename's contract is exact. */
  lemma BasenameUnique(p: Path, b: Path)
    requires EndsWith(p, b) && '/' !in b
    requires |b| < |p| ==> p[|p| - |b| - 1] == '/'
    ensures Basename(p) == b
  {
    BasenameIsLastComponent(p);
    var c := Basename(p);
    assert |c| == |b|;
  }

  /** Appending a '/'-free tail extends the basename by that tail. */
  lemma BasenameAppend(p: Path, tail: Path)
    requires '/' !in tail
    ensures Basename(p + tail) == Basename(p) + tail
  {
    BasenameIsLastComponent(p);
    var q, b := p + tail, Basename(p) + tail;
    assert q[|q| - |b|..] == p[|p| - |Basename(p)|..] + tail;
    if |b| < |q| {
      assert q[|q| - |b| - 1] == p[|p| - |Basename(p)| - 1];
    }
    BasenameUnique(q, b);
  }

  /** Joining a directory with a plain file name yields a path whose basename
      is that file name. */
  lemma BasenameOfJoin(dir: Path, name: Path)
    requires '/' !in name
    ensures Basename(Join(dir, name)) == name
  {
    if |name| > 0 {
      assert name[0] in name;
    }
    var d := if dir == [] || dir[|dir| - 1] == '/' then dir else dir + "/";
    assert Join(dir, name) == d + name;
    BasenameAppend(d, name);
    assert Basename(d) == [];
  }

  /** A '/'-free suffix of a path is also a suffix of its basename. */
  lemma BasenameKeepsSuffix(p: Path, suffix: string)
    requires EndsWith(p, suffix) && '/' !in suffix
    ensures EndsWith(Basename(p), suffix)
  {
    BasenameIsLastComponent(p);
    var b := Basename(p);
    if |b| < |suffix| {
      assert false;
    }
    assert p[|p| - |suffix|..] == suffix;
    assert b == p[|p| - |b|..];
    assert b[|b| - |suffix|..] == p[|p| - |suffix|..];
  }

  lemma EndsWithTrans(s: string, t: string, u: string)
    requires EndsWith(s, t) && EndsWith(t, u)
    ensures EndsWith(s, u)
  {
    assert s[|s| - |u|..] == t[|t| - |u|..];
  }

  /** A name ending in `.gz` is never one ending in `.yamloo`. */
  lemma SuffixesDiffer(x: string, y: string)
    requires EndsWith(x, ".gz") && EndsWith(y, ".yamloo")
    ensures x != y
  {
    assert x[|x| - 1] == 'z';
    assert y[|y| - 1] == 'o';
  }

}
