/** The two `os.path` operations the file server applies to a request,
    with POSIX separators: `basename` and two-argument `join`. */
module PosixPath {
  import opened Strings

  /** No character of `s` is a '/': `s` is a single path component. */
  predicate IsComponent(s: string) {
    forall i :: 0 <= i < |s| ==> s[i] != '/'
  }

  /** `os.path.basename(p)`: the text after the last '/', all of `p` when it
      has none, and empty when `p` ends with '/'. */
  function Basename(p: string): (r: string)
    ensures IsComponent(r)
    ensures |r| <= |p| && r == p[|p| - |r|..]
    ensures |r| < |p| ==> p[|p| - |r| - 1] == '/'
  {
    match LastIndexOf(p, '/')
    case None => p
    case Some(k) => p[k + 1..]
  }

  /** A name without '/' is its own basename. */
  lemma BasenameOfPlainName(name: string)
    requires IsComponent(name)
    ensures Basename(name) == name
  {
  }

  /** After a prefix ending with '/', the last separator of `d + name` is
      the last one of `name` if it has one, and the end of `d` otherwise. */
  lemma LastSeparatorAfterPrefix(d: string, name: string)
    requires |d| > 0 && d[|d| - 1] == '/'
    ensures LastIndexOf(name, '/').None? ==> LastIndexOf(d + name, '/') == Some(|d| - 1)
    ensures LastIndexOf(name, '/').Some? ==>
      LastIndexOf(d + name, '/') == Some(|d| + LastIndexOf(name, '/').value)
  {
    var p, n := d + name, |d|;
    var k := match LastIndexOf(name, '/') case None => -1 case Some(j) => j;
    forall i | n + k < i < |p| ensures p[i] != '/' {
      assert p[i] == name[i - n];
    }
    LastIndexOfIsLast(p, '/', n + k);
  }

  /** Whatever ends with a separator does not change the basename of the
      name that follows it. */
  lemma BasenameAfterSeparator(d: string, name: string)
    requires |d| > 0 && d[|d| - 1] == '/'
    ensures Basename(d + name) == Basename(name)
  {
    LastSeparatorAfterPrefix(d, name);
    var k := match LastIndexOf(name, '/') case None => -1 case Some(j) => j;
    assert (d + name)[|d| + k + 1..] == name[k + 1..];
  }

  /** Directory components in front of a name never change its basename. */
  lemma BasenameIgnoresDirectories(dir: string, name: string)
    ensures Basename(dir + "/" + name) == Basename(name)
  {
    BasenameAfterSeparator(dir + "/", name);
  }

  /** `dir` followed by the separator `join` would put after it. */
  function DirPrefix(dir: string): string {
    if dir == [] || dir[|dir| - 1] == '/' then dir else dir + "/"
  }

  /** `os.path.join(a, b)`: an absolute `b` replaces `a`; otherwise `b` is
      appended, with a '/' in between unless `a` is empty or ends with one. */
  function Join(a: string, b: string): (r: string)
    ensures |b| > 0 && b[0] == '/' ==> r == b
    ensures (|b| == 0 || b[0] != '/') ==> IsSuffix(b, r) && a <= r
    ensures (|b| == 0 || b[0] != '/') ==> r == DirPrefix(a) + b
  {
    if |b| > 0 && b[0] == '/' then b
    else if a == [] || a[|a| - 1] == '/' then
      assert (a + b)[|a|..] == b;
      a + b
    else
      assert (a + "/" + b)[|a| + 1..] == b;
      a + "/" + b
  }

  /** Joining a directory with the basename of any request yields the
      directory, a separator, and one path component without '/': the
      absolute-path case of `join` can never be reached. */
  lemma JoinBasenameStaysInDirectory(dir: string, request: string)
    ensures var name := Basename(request);
      IsComponent(name) && Join(dir, name) == DirPrefix(dir) + name
  {
  }

  /** The component a directory is joined with is the basename of the
      result. */
  lemma JoinKeepsBasename(dir: string, name: string)
    requires IsComponent(name)
    ensures Basename(Join(dir, name)) == name
  {
    BasenameOfPlainName(name);
    var d := DirPrefix(dir);
    assert Join(dir, name) == d + name;
    if d != [] {
      BasenameAfterSeparator(d, name);
    } else {
      assert d + name == name;
    }
  }
}
