/** The few POSIX path operations the application relies on (`str.rfind`,
    `os.path.join` with two components, `os.path.basename`,
    `os.path.splitext`), on paths written as strings. */
module Paths {
  import opened Wrappers

  /** A path that `os.path.join` treats as absolute: it starts with '/'. */
  predicate IsAbsolute(p: string) {
    |p| > 0 && p[0] == '/'
  }

  /** Position of the last `c` in `s` (`str.rfind`), or None when `c` does not occur. */
  function LastIndexOf(s: string, c: char): (r: Option<nat>)
    ensures r.None? ==> c !in s
    ensures r.Some? ==> r.value < |s| && s[r.value] == c && c !in s[r.value + 1..]
  {
    if s == [] then None
    else if s[|s| - 1] == c then Some(|s| - 1)
    else
      var init := s[..|s| - 1];
      assert s == init + [s[|s| - 1]];
      var r := LastIndexOf(init, c);
      assert r.Some? ==> s[r.value + 1..] == init[r.value + 1..] + [s[|s| - 1]];
      r
  }

  /** `c` is absent from the tail `s[i..]` exactly when no position from `i` on holds it. */
  lemma NotInTail(s: string, c: char, i: nat)
    requires i <= |s|
    ensures c !in s[i..] <==> forall k :: i <= k < |s| ==> s[k] != c
  {
  }

  /** Two positions both holding the last `c` of `s` are the same position. */
  lemma LastOccurrenceUnique(s: string, c: char, i: nat, j: nat)
    requires i < |s| && s[i] == c && c !in s[i + 1..]
    requires j < |s| && s[j] == c && c !in s[j + 1..]
    ensures i == j
  {
    // each would otherwise be a `c` after the other
    NotInTail(s, c, i + 1);
    NotInTail(s, c, j + 1);
  }

  /** `os.path.join(a, b)`: `b` itself when it is absolute, otherwise `b` appended
      to `a` with one '/' between them unless `a` is empty or already ends in '/'. */
  function Join(a: string, b: string): (r: string)
    ensures |r| >= |b| && r[|r| - |b|..] == b
    ensures IsAbsolute(b) ==> r == b
    ensures !IsAbsolute(b) ==> |a| <= |r| <= |a| + 1 + |b| && r[..|a|] == a
    ensures !IsAbsolute(b) && a != [] ==> |r| >= |b| + 1 && r[|r| - |b| - 1] == '/'
    ensures !IsAbsolute(b) && a == [] ==> r == b
  {
    if IsAbsolute(b) then b
    else if a == [] || a[|a| - 1] == '/' then a + b
    else a + "/" + b
  }

  /** The exact result of `Join` for a relative second component: the
      components side by side when the first is empty or ends in '/', and
      with one '/' inserted otherwise. */
  lemma JoinCases(a: string, b: string)
    ensures !IsAbsolute(b) && (a == [] || a[|a| - 1] == '/') ==> Join(a, b) == a + b
    ensures !IsAbsolute(b) && a != [] && a[|a| - 1] != '/' ==> Join(a, b) == a + "/" + b
  {
  }

  /** `r` is the last component of `p`: a '/'-free suffix that is all of `p`
      or preceded by a '/'. */
  predicate IsLastComponent(p: string, r: string) {
    '/' !in r && |r| <= |p| && r == p[|p| - |r|..] && (|r| < |p| ==> p[|p| - |r| - 1] == '/')
  }

  /** `os.path.basename(p)`: what follows the last '/' of `p`. */
  function Basename(p: string): (r: string)
    ensures IsLastComponent(p, r)
  {
    match LastIndexOf(p, '/')
    case None => p
    case Some(i) => p[i + 1..]
  }

  /** A path has only one last component, and it is the basename. */
  lemma BasenameUnique(p: string, r: string)
    requires IsLastComponent(p, r)
    ensures Basename(p) == r
  {
  }

  /** The last component of a '/'-delimited suffix of `j` is the last
      component of `j`. */
  lemma LastComponentOfSuffix(j: string, b: string, r: string)
    requires |b| <= |j| && j[|j| - |b|..] == b
    requires |b| < |j| ==> j[|j| - |b| - 1] == '/'
    requires IsLastComponent(b, r)
    ensures IsLastComponent(j, r)
  {
    var n := |j| - |b|;
    assert j[|j| - |r|..] == j[n..][|b| - |r|..];
    if |r| < |b| {
      assert j[|j| - |r| - 1] == j[n..][|b| - |r| - 1];
    }
  }

  /** A suffix of `j` that is all of `j` or preceded by a '/' has the same
      basename as `j`. */
  lemma BasenameOfSuffix(j: string, b: string)
    requires |b| <= |j| && j[|j| - |b|..] == b
    requires |b| < |j| ==> j[|j| - |b| - 1] == '/'
    ensures Basename(j) == Basename(b)
  {
    LastComponentOfSuffix(j, b, Basename(b));
    BasenameUnique(j, Basename(b));
  }

  /** Joining never changes the basename of the component joined on. */
  lemma BasenameOfJoin(a: string, b: string)
    ensures Basename(Join(a, b)) == Basename(b)
  {
    if !IsAbsolute(b) {
      BasenameOfSuffix(Join(a, b), b);
    }
  }

  /** A '/'-free name placed after a directory ending in '/' is the basename
      of the result. */
  lemma BasenameAfterSlash(dir: string, name: string)
    requires dir != [] && dir[|dir| - 1] == '/' && '/' !in name
    ensures Basename(dir + name) == name
  {
    var p := dir + name;
    assert p[|p| - |name|..] == name;
    assert p[|p| - |name| - 1] == '/';
    BasenameUnique(p, name);
  }

  /** Two '/'-free strings side by side hold no '/'. */
  lemma NoSlashInConcat(a: string, b: string)
    requires '/' !in a && '/' !in b
    ensures '/' !in a + b
  {
    assert forall k :: 0 <= k < |a + b| ==> (a + b)[k] == if k < |a| then a[k] else b[k - |a|];
  }

  /** A single leading '/' does not change the basename. */
  lemma BasenameWithoutLeadingSlash(p: string)
    requires IsAbsolute(p)
    ensures Basename(p[1..]) == Basename(p)
  {
  }

  /** True when some character of `s[lo..hi]` is not a '.'. */
  predicate HasNonDot(s: string, lo: nat, hi: nat)
    requires lo <= hi <= |s|
  {
    exists k :: lo <= k < hi && s[k] != '.'
  }

  /** The extension part of `os.path.splitext(p)`: from the last '.' of the
      last path component to the end, unless every character of that
      component before the '.' is itself a '.' (a leading-dot name such as
      ".png" has no extension); empty otherwise. */
  function Extension(p: string): (r: string)
    ensures |r| <= |p| && r == p[|p| - |r|..]
    ensures r != [] ==> r[0] == '.' && '.' !in r[1..] && '/' !in r
  {
    var start := match LastIndexOf(p, '/') case None => 0 case Some(s) => s + 1;
    match LastIndexOf(p, '.')
    case None => []
    case Some(d) =>
      if start <= d && HasNonDot(p, start, d) then
        assert p[d..][1..] == p[d + 1..];
        assert '/' !in p[d..] by {
          if LastIndexOf(p, '/').Some? {
            var s := LastIndexOf(p, '/').value;
            forall k | d <= k < |p| ensures p[k] != '/' {
              assert p[k] == p[s + 1..][k - s - 1];
            }
          }
        }
        p[d..]
      else []
  }

  /** When the last '.' of `p` lies in the last path component and some
      character of that component before it is not a '.', the extension is
      that '.' and everything after it. */
  lemma ExtensionOfLastComponent(p: string, d: nat, k: nat)
    requires k < d < |p| && p[d] == '.' && '.' !in p[d + 1..]
    requires p[k] != '.' && '/' !in p[k..]
    ensures Extension(p) == p[d..]
  {
    assert p[d] in p;
    LastOccurrenceUnique(p, '.', d, LastIndexOf(p, '.').value);
    NotInTail(p, '/', k);
    assert HasNonDot(p, match LastIndexOf(p, '/') case None => 0 case Some(s) => s + 1, d);
  }

  /** Conversely, a non-empty extension is preceded, within the last path
      component, by some character that is not a '.'. */
  lemma ExtensionHasStem(p: string)
    ensures Extension(p) != [] ==>
              exists k :: 0 <= k < |p| - |Extension(p)| && p[k] != '.' && '/' !in p[k..]
  {
    var start := match LastIndexOf(p, '/') case None => 0 case Some(s) => s + 1;
    if Extension(p) != [] {
      var d := LastIndexOf(p, '.').value;
      var k :| start <= k < d && p[k] != '.';
      NotInTail(p, '/', start);
      NotInTail(p, '/', k);
      assert |p| - |Extension(p)| == d;
    }
  }
}
