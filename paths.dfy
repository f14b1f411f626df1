/** The two `os.path` (posixpath) operations the pipeline uses on file names. */
module Paths {

  predicate NoSlash(s: string)
  {
    forall i :: 0 <= i < |s| ==> s[i] != '/'
  }

  /** `os.path.basename(p)`: everything after the last '/' of `p` (all of
      `p` when it has none, nothing when it ends in '/'); never contains a
      separator. `BasenameSuffix` pins down where it starts. */
  function Basename(p: string): (b: string)
    ensures NoSlash(b)
  {
    if p == [] then []
    else if p[|p| - 1] == '/' then []
    else Basename(p[..|p| - 1]) + [p[|p| - 1]]
  }

  /** The base name is a slash-free suffix of `p` that starts at the
      beginning of `p` or right after a '/': everything after the last
      separator. */
  lemma {:induction false} BasenameSuffix(p: string)
    ensures |Basename(p)| <= |p| && p[|p| - |Basename(p)|..] == Basename(p)
    ensures |Basename(p)| == |p| || p[|p| - |Basename(p)| - 1] == '/'
  {
    if p != [] && p[|p| - 1] != '/' {
      var q := p[..|p| - 1];
      BasenameSuffix(q);
      var b' := Basename(q);
      assert q[|q| - |b'|..] + [p[|p| - 1]] == p[|p| - 1 - |b'|..];
    }
  }

  /** `os.path.join(a, b)` for two parts: an absolute `b` replaces `a`; a
      separator is inserted only when `a` is non-empty and does not already
      end in '/'. */
  function Join(a: string, b: string): string
  {
    if b != [] && b[0] == '/' then b
    else if a == [] || a[|a| - 1] == '/' then a + b
    else a + "/" + b
  }

  /** Joining a relative path onto a directory without a trailing '/'
      inserts exactly one separator. */
  lemma JoinRelative(a: string, b: string)
    requires a != [] && a[|a| - 1] != '/'
    requires b == [] || b[0] != '/'
    ensures Join(a, b) == a + ("/" + b)
  {
    assert a + "/" + b == a + ("/" + b);
  }

  /** Whatever precedes a directory separator does not affect the base name. */
  lemma {:induction false} BasenameAfterSeparator(x: string, b: string)
    requires x == [] || x[|x| - 1] == '/'
    ensures Basename(x + b) == Basename(b)
  {
    if b != [] {
      assert (x + b)[..|x + b| - 1] == x + b[..|b| - 1];
      BasenameAfterSeparator(x, b[..|b| - 1]);
    }
  }

  /** The base name is decided by what follows the last separator. */
  lemma BasenameLastComponent(x: string, b: string)
    ensures Basename(x + ("/" + b)) == Basename(b)
  {
    assert x + ("/" + b) == (x + "/") + b;
    BasenameAfterSeparator(x + "/", b);
  }

  /** Joining a file name onto any directory keeps its base name: the moved
      file's name is decided by the template's last component. */
  lemma BasenameJoin(a: string, b: string)
    ensures Basename(Join(a, b)) == Basename(b)
  {
    if b != [] && b[0] == '/' {
    } else if a == [] || a[|a| - 1] == '/' {
      BasenameAfterSeparator(a, b);
    } else {
      assert a + "/" + b == (a + "/") + b;
      BasenameAfterSeparator(a + "/", b);
    }
  }

  /** A slash-free name is its own base name. */
  lemma {:induction false} BasenameOfName(b: string)
    requires NoSlash(b)
    ensures Basename(b) == b
  {
    if b != [] {
      BasenameOfName(b[..|b| - 1]);
    }
  }
}
