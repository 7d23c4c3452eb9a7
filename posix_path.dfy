/**
 * The three `os.path` functions the backup client calls, with their POSIX
 * behaviour (separator `/`, extension separator `.`): `basename`, `splitext`
 * and `join` of two components.
 */
module PosixPath {
  import opened Text

  /** `os.path.basename(p)`: everything after the last `/` (all of `p` when it has none). */
  function BaseName(p: string): (r: string)
    ensures '/' !in r
    ensures |r| <= |p| && r == p[|p| - |r|..]
    ensures |r| < |p| ==> p[|p| - |r| - 1] == '/'
  {
    p[LastIndexOf(p, '/') + 1..]
  }

  /**
   * `os.path.splitext(p)`: `(root, ext)` where `ext` runs from the last `.` of the
   * last path component, provided that component has a character other than `.`
   * before it (so `.bashrc` and `..` have no extension); otherwise `ext` is empty.
   */
  function SplitExt(p: string): (r: (string, string))
    ensures r.0 + r.1 == p
    ensures r.1 == [] || (r.1[0] == '.' && '.' !in r.1[1..] && '/' !in r.1)
  {
    var sep := LastIndexOf(p, '/');
    var dot := LastIndexOf(p, '.');
    if dot > sep && exists i :: sep < i < dot && p[i] != '.' then
      AbsentAfterLast(p, '.', dot + 1);
      AbsentAfterLast(p, '/', dot);
      assert p[dot..][1..] == p[dot + 1..];
      (p[..dot], p[dot..])
    else
      (p, [])
  }

  /**
   * For a single file name, splitext finds an extension exactly when some `.`
   * follows a character other than `.`.
   */
  lemma SplitExtOfName(b: string)
    requires '/' !in b
    ensures SplitExt(b).1 != [] <==> exists i, j :: 0 <= i < j < |b| && b[i] != '.' && b[j] == '.'
  {
    var dot := LastIndexOf(b, '.');
    assert LastIndexOf(b, '/') == -1;
    if SplitExt(b).1 != [] {
      var i :| -1 < i < dot && b[i] != '.';
      assert b[i] != '.' && b[dot] == '.';
    }
    if exists i, j :: 0 <= i < j < |b| && b[i] != '.' && b[j] == '.' {
      var i, j :| 0 <= i < j < |b| && b[i] != '.' && b[j] == '.';
      assert j <= dot;
    }
  }

  /** When the last three characters of `p` are not `/`, its basename keeps them. */
  lemma BaseNameKeepsTail(p: string)
    requires |p| >= 3 && p[|p| - 3] != '/' && p[|p| - 2] != '/' && p[|p| - 1] != '/'
    ensures var r := BaseName(p); |r| >= 3 && r[|r| - 3..] == p[|p| - 3..]
  {
    var n := |p|;
    var i := LastIndexOf(p, '/');
    assert i != n - 1 && i != n - 2 && i != n - 3;
    assert i < n - 3;
    var r := BaseName(p);
    assert r == p[i + 1..];
    assert r[|r| - 3..] == p[i + 1..][n - i - 4..];
    assert r[|r| - 3..] == p[n - 3..];
  }

  /** A name without `/` after a prefix that is empty or ends with `/` is its own basename. */
  lemma BaseNameAfterSlash(prefix: string, name: string)
    requires prefix == [] || prefix[|prefix| - 1] == '/'
    requires '/' !in name
    ensures BaseName(prefix + name) == name
  {
    var p := prefix + name;
    assert forall k :: |prefix| <= k < |p| ==> p[k] == name[k - |prefix|];
    if prefix != [] {
      assert p[|prefix| - 1] == '/';
    }
    assert LastIndexOf(p, '/') == |prefix| - 1;
    assert p[|prefix|..] == name;
  }

  /**
   * `os.path.join(a, b)`: `b` itself when it is absolute, otherwise `b` appended
   * to `a` with one `/` in between unless `a` is empty or already ends with `/`.
   */
  function Join(a: string, b: string): (r: string)
    ensures EndsWith(r, b)
    ensures b != [] && b[0] == '/' ==> r == b
    ensures a != [] && a[|a| - 1] != '/' && (b == [] || b[0] != '/') ==> r == a + "/" + b
    ensures (a == [] || a[|a| - 1] == '/') && (b == [] || b[0] != '/') ==> r == a + b
  {
    if b != [] && b[0] == '/' then b
    else if a == [] || a[|a| - 1] == '/' then a + b
    else a + "/" + b
  }
}
