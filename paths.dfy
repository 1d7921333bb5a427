/** The two POSIX path operations the pipeline uses: two-argument
    `os.path.join` and `os.path.basename`, over plain strings. */
module Paths {

  predicate StartsWith(s: string, prefix: string) {
    |prefix| <= |s| && s[..|prefix|] == prefix
  }

  predicate EndsWith(s: string, suffix: string) {
    |suffix| <= |s| && s[|s| - |suffix|..] == suffix
  }

  /** A suffix of a suffix is a suffix. */
  lemma EndsWithTransitive(s: string, mid: string, suffix: string)
    requires EndsWith(s, mid) && EndsWith(mid, suffix)
    ensures EndsWith(s, suffix)
  {
    assert s[|s| - |suffix|..] == s[|s| - |mid|..][|mid| - |suffix|..];
  }

  /** `os.path.join(a, b)`: an absolute `b` replaces `a`; otherwise `b` is
      appended, with a `/` in between unless `a` is empty or already ends
      in one. */
  function Join(a: string, b: string): string {
    if StartsWith(b, "/") then b
    else if a == [] || EndsWith(a, "/") then a + b
    else a + "/" + b
  }

  /** A joined path ends with the name joined on. */
  lemma JoinEndsWithName(a: string, b: string)
    ensures EndsWith(Join(a, b), b)
  {
  }

  /** `os.path.basename(p)`: everything after the last `/` (all of `p` when
      it has none). */
  function Basename(p: string): (r: string)
    ensures '/' !in r && EndsWith(p, r)
    ensures r == p || p[|p| - |r| - 1] == '/'
  {
    if p == [] || p[|p| - 1] == '/' then []
    else Basename(p[..|p| - 1]) + [p[|p| - 1]]
  }

  /** What follows a separator, when it holds no separator itself, is the
      basename. */
  lemma {:induction false} BasenameAfterSeparator(x: string, b: string)
    requires x == [] || x[|x| - 1] == '/'
    requires '/' !in b
    ensures Basename(x + b) == b
  {
    if b == [] {
      assert x + b == x;
    } else {
      var n := |b| - 1;
      BasenameAfterSeparator(x, b[..n]);
      assert (x + b)[|x + b| - 1] == b[n];
      assert (x + b)[..|x + b| - 1] == x + b[..n];
      assert b == b[..n] + [b[n]];
    }
  }

  /** Joining a slash-free name onto any directory gives back that name as
      the basename: the file keeps its name when it is moved. */
  lemma BasenameOfJoin(a: string, b: string)
    requires '/' !in b
    ensures Basename(Join(a, b)) == b
  {
    if b != [] {
      assert b[0] != '/';
    }
    assert !StartsWith(b, "/");
    if a == [] {
      assert Join(a, b) == b == [] + b;
      BasenameAfterSeparator([], b);
    } else if EndsWith(a, "/") {
      assert Join(a, b) == a + b;
      assert a[|a| - 1] == a[|a| - 1..][0];
      BasenameAfterSeparator(a, b);
    } else {
      assert Join(a, b) == (a + "/") + b;
      BasenameAfterSeparator(a + "/", b);
    }
  }

  /** A path ending in `/name` with a slash-free `name` splits uniquely
      into its directory and that name. */
  lemma SplitAtLastSeparator(x: string, a: string, y: string, b: string)
    requires '/' !in a && '/' !in b
    requires x + "/" + a == y + "/" + b
    ensures x == y && a == b
  {
    BasenameAfterSeparator(x + "/", a);
    BasenameAfterSeparator(y + "/", b);
    assert x + "/" + a == (x + "/") + a;
    assert y + "/" + b == (y + "/") + b;
    assert a == b;
    assert |x| == |y|;
    assert x == (x + "/" + a)[..|x|];
    assert y == (y + "/" + b)[..|y|];
  }
}
