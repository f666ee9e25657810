/**
  Deriving a package name from the path of its definition file:
  `os.path.basename(filename[:-4])` on a POSIX system.
 */
module Paths {

  /** POSIX `os.path.basename`: the part of `p` after its last `/` (all of `p` if it has none). */
  function Basename(p: string): string {
    if p == [] || p[|p| - 1] == '/' then []
    else Basename(p[..|p| - 1]) + [p[|p| - 1]]
  }

  /** The basename ends the path. */
  lemma {:induction false} BasenameIsSuffix(p: string)
    ensures |Basename(p)| <= |p| && p[|p| - |Basename(p)|..] == Basename(p)
    decreases |p|
  {
    if p != [] && p[|p| - 1] != '/' {
      var q := p[..|p| - 1];
      BasenameIsSuffix(q);
      var b := Basename(q);
      assert p[|p| - |b| - 1..] == q[|q| - |b|..] + [p[|p| - 1]];
    }
  }

  /** The basename holds no `/`. */
  lemma {:induction false} BasenameHasNoSlash(p: string)
    ensures '/' !in Basename(p)
    decreases |p|
  {
    if p != [] && p[|p| - 1] != '/' {
      BasenameHasNoSlash(p[..|p| - 1]);
    }
  }

  /** The basename is all of the path or follows a `/`. */
  lemma {:induction false} BasenameFollowsSlash(p: string)
    ensures |Basename(p)| < |p| ==> p[|p| - |Basename(p)| - 1] == '/'
    decreases |p|
  {
    if p != [] && p[|p| - 1] != '/' {
      var q := p[..|p| - 1];
      BasenameFollowsSlash(q);
      assert |Basename(p)| == |Basename(q)| + 1;
    }
  }

  /**
    What makes a string the basename of `p`: it ends `p`, holds no `/`, and is
    either all of `p` or preceded in `p` by a `/`.
   */
  lemma BasenameIsLastComponent(p: string)
    ensures |Basename(p)| <= |p| && p[|p| - |Basename(p)|..] == Basename(p)
    ensures '/' !in Basename(p)
    ensures |Basename(p)| < |p| ==> p[|p| - |Basename(p)| - 1] == '/'
  {
    BasenameIsSuffix(p);
    BasenameHasNoSlash(p);
    BasenameFollowsSlash(p);
  }

  /** Python's `filename[:-4]`: the last four characters dropped, or the empty string if there are fewer. */
  function DropLast4(f: string): (r: string)
    ensures |f| >= 4 ==> f == r + f[|f| - 4..]
    ensures |f| < 4 ==> r == []
  {
    if |f| >= 4 then f[..|f| - 4] else []
  }

  /** The package name the reconciler registers for a definition file. */
  function PackageName(filename: string): string {
    Basename(DropLast4(filename))
  }

  /** The name is the file's stem: `dir/stem.rql` gives `stem` when `stem` has no `/`. */
  lemma PackageNameOfPath(dir: string, stem: string)
    requires '/' !in stem
    ensures PackageName(dir + "/" + stem + ".rql") == stem
  {
    var f := dir + "/" + stem + ".rql";
    var p := dir + "/" + stem;
    assert DropLast4(f) == p by {
      assert f == p + ".rql";
      assert f[..|f| - 4] == p;
    }
    BasenameIsLastComponent(p);
    var b := Basename(p);
    assert p[|dir|] == '/';
    assert b == stem by {
      assert p[|p| - |b|..] == stem;
    }
  }
}
