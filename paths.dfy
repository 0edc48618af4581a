/** The POSIX `os.path` functions the file transfer relies on: `join`,
    `basename` and `splitext`, written out as Python's posixpath defines them. */
module Paths {

  type Path = string

  /** Index of the last occurrence of `c` in `s`, or -1. */
  function LastIndexOf(s: string, c: char): (i: int)
    ensures -1 <= i < |s|
    ensures i >= 0 ==> s[i] == c
    ensures forall k :: i < k < |s| ==> s[k] != c
  {
    if s == [] then -1
    else if s[|s| - 1] == c then |s| - 1
    else LastIndexOf(s[..|s| - 1], c)
  }

  /** `os.path.join(dir, name)`: an absolute `name` replaces `dir` altogether.
      The name is always the tail of the joined path; a relative name stays
      under the directory, with one '/' put between them exactly when the
      directory is not empty and does not already end in '/'. */
  function Join(dir: Path, name: Path): (j: Path)
    ensures |name| <= |j| && j[|j| - |name|..] == name
    ensures !(name != [] && name[0] == '/') ==>
      && dir <= j
      && |j| == |dir| + |name| + (if dir != [] && dir[|dir| - 1] != '/' then 1 else 0)
    ensures |j| > |dir| + |name| ==> j[|dir|] == '/'
  {
    if name != [] && name[0] == '/' then name
    else if dir == [] || dir[|dir| - 1] == '/' then dir + name
    else dir + "/" + name
  }

  /** `os.path.basename(p)`: what follows the last '/'. */
  function Basename(p: Path): (b: Path)
    ensures '/' !in b
    ensures |b| <= |p| && b == p[|p| - |b|..]
    ensures |b| == |p| || p[|p| - |b| - 1] == '/'
  {
    p[LastIndexOf(p, '/') + 1..]
  }

  predicate AllDots(s: string) { forall k :: 0 <= k < |s| ==> s[k] == '.' }

  /** Where the extension of `p` starts, or |p| when it has none:
      `os.path.splitext` takes the last '.' of the last path component,
      unless only dots precede that '.' in the component. */
  function ExtensionStart(p: Path): (i: nat)
    ensures i <= |p|
    ensures i < |p| ==> p[i] == '.'
    ensures forall k :: i <= k < |p| ==> p[k] != '/'
    ensures var c := ComponentStart(p);
      i < |p| ==> c <= i && (forall k :: i < k < |p| ==> p[k] != '.') && !AllDots(p[c..i])
    ensures var c := ComponentStart(p);
      i == |p| ==> forall d :: c <= d < |p| && p[d] == '.' && (forall k :: d < k < |p| ==> p[k] != '.')
                              ==> AllDots(p[c..d])
  {
    var c := ComponentStart(p);
    var dot := LastIndexOf(p, '.');
    if dot >= c && !AllDots(p[c..dot]) then dot else |p|
  }

  /** Where the last path component starts: just after the last '/'. */
  function ComponentStart(p: Path): (c: nat)
    ensures c <= |p| && (c == 0 || p[c - 1] == '/')
    ensures forall k :: c <= k < |p| ==> p[k] != '/'
  {
    LastIndexOf(p, '/') + 1
  }

  /** `os.path.splitext(p)`: the root and the extension.  The extension runs
      from the last '.' of the last component, unless only dots precede that
      '.' in the component (then, as when the component has no '.', it is
      empty). */
  function SplitExt(p: Path): (parts: (Path, Path))
    ensures parts.0 + parts.1 == p
    ensures parts.1 == [] || (parts.1[0] == '.' && '/' !in parts.1 && '.' !in parts.1[1..])
    ensures var c, i := ComponentStart(p), |parts.0|;
      parts.1 != [] ==> c <= i && !AllDots(p[c..i])
    ensures var c := ComponentStart(p);
      parts.1 == [] ==> forall d :: c <= d < |p| && p[d] == '.' && (forall k :: d < k < |p| ==> p[k] != '.')
                                   ==> AllDots(p[c..d])
  {
    var i := ExtensionStart(p);
    assert p[..i] + p[i..] == p;
    (p[..i], p[i..])
  }

  /** Splitting undoes appending an extension: `splitext(root + ext)` gives
      `(root, ext)` when `ext` is a '.' followed by neither '.' nor '/', and the
      last component of `root` is not only dots. */
  lemma SplitExtOfExtension(root: Path, ext: Path)
    requires |ext| >= 1 && ext[0] == '.' && '/' !in ext && '.' !in ext[1..]
    requires !AllDots(root[ComponentStart(root)..])
    ensures SplitExt(root + ext) == (root, ext)
  {
    var p := root + ext;
    var c := ComponentStart(root);
    assert forall k :: |root| <= k < |p| ==> p[k] == ext[k - |root|];
    forall k | c <= k < |p|
      ensures p[k] != '/'
    {
      if k >= |root| {
        assert p[k] == ext[k - |root|];
      }
    }
    var cp := ComponentStart(p);
    assert c == 0 || p[c - 1] == '/';
    assert cp == c;
    assert p[c..|root|] == root[c..];
    assert forall k :: |root| < k < |p| ==> p[k] != '.' by {
      forall k | |root| < k < |p|
        ensures p[k] != '.'
      {
        assert p[k] == ext[1..][k - |root| - 1];
      }
    }
    var parts := SplitExt(p);
    assert parts.1 != [];
    assert |parts.0| == |root|;
    assert parts.0 == p[..|root|] == root;
  }

  /** An absolute name escapes the directory it is joined to. */
  lemma JoinAbsolute(dir: Path, name: Path)
    requires name != [] && name[0] == '/'
    ensures Join(dir, name) == name
  {
  }

  /** A plain file name joined under any directory is the base name of the
      result: the directory part is all that `join` adds. */
  lemma BasenameOfJoin(dir: Path, name: Path)
    requires name != [] && '/' !in name
    ensures Basename(Join(dir, name)) == name
  {
    var j := Join(dir, name);
    var start := |j| - |name|;
    assert j[start..] == name;
    forall k | start <= k < |j|
      ensures j[k] != '/'
    {
      assert j[k] == name[k - start];
    }
    if start > 0 {
      assert j[start - 1] == '/';
    }
    var i := LastIndexOf(j, '/');
    assert i == start - 1;
    assert Basename(j) == j[start..];
  }

  /** The base name of a path that has no '/' is the path itself. */
  lemma BasenameOfPlainName(p: Path)
    requires '/' !in p
    ensures Basename(p) == p
  {
  }
}
