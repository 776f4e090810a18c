/** The parts of Python's `posixpath` that the script relies on:
    `splitext`, `basename`, `dirname` and `join`, with `/` as the only
    separator and `.` as the extension separator. Paths are strings. */
module PosixPath {

  /** Python's `str.rfind` for one character: the last index of `c`, or -1. */
  function LastIndexOf(s: string, c: char): (r: int)
    ensures -1 <= r < |s|
    ensures r >= 0 ==> s[r] == c
    ensures forall j :: r < j < |s| ==> s[j] != c
  {
    LastIndexBelow(s, c, |s|)
  }

  /** The last index of `c` among the first `n` characters, or -1. */
  function LastIndexBelow(s: string, c: char, n: nat): (r: int)
    requires n <= |s|
    ensures -1 <= r < n
    ensures r >= 0 ==> s[r] == c
    ensures forall j :: r < j < n ==> s[j] != c
  {
    if n == 0 then -1
    else if s[n - 1] == c then n - 1
    else LastIndexBelow(s, c, n - 1)
  }

  /** The postcondition of LastIndexOf determines its value. */
  lemma LastIndexOfIs(s: string, c: char, r: int)
    requires -1 <= r < |s|
    requires r >= 0 ==> s[r] == c
    requires forall j :: r < j < |s| ==> s[j] != c
    ensures LastIndexOf(s, c) == r
  {
  }

  /** `c not in s` */
  predicate NoChar(s: string, c: char) {
    forall i :: 0 <= i < |s| ==> s[i] != c
  }

  /** `s[lo..hi]` is made of dots only. */
  predicate OnlyDots(s: string, lo: int, hi: int)
    requires 0 <= lo <= hi <= |s|
  {
    forall i :: lo <= i < hi ==> s[i] == '.'
  }

  /** `s` is made of dots only. */
  predicate AllDots(s: string) {
    OnlyDots(s, 0, |s|)
  }

  lemma OnlyDotsSlice(s: string, lo: int, hi: int)
    requires 0 <= lo <= hi <= |s|
    ensures AllDots(s[lo..hi]) <==> OnlyDots(s, lo, hi)
  {
    if AllDots(s[lo..hi]) {
      forall i | lo <= i < hi ensures s[i] == '.' {
        assert s[i] == s[lo..hi][i - lo];
      }
    }
  }

  predicate AllSlashes(s: string) {
    forall i :: 0 <= i < |s| ==> s[i] == '/'
  }

  /** `s.rstrip('/')` */
  function StripTrailingSlashes(s: string): (r: string)
    ensures |r| <= |s| && r == s[..|r|]
    ensures AllSlashes(s[|r|..])
    ensures r == [] || r[|r| - 1] != '/'
  {
    if |s| > 0 && s[|s| - 1] == '/' then
      var r := StripTrailingSlashes(s[..|s| - 1]);
      assert s[|r|..] == s[..|s| - 1][|r|..] + ['/'];
      r
    else s
  }

  /** `os.path.basename(p)`: everything after the last separator. */
  function BaseName(p: string): (b: string)
    ensures |b| <= |p| && p[|p| - |b|..] == b
    ensures NoChar(b, '/')
    ensures |b| == |p| || p[|p| - |b| - 1] == '/'
  {
    p[LastIndexOf(p, '/') + 1..]
  }

  /** `os.path.dirname(p)`: everything up to the last separator, with the
      trailing separators removed unless the head is made of separators only. */
  function DirName(p: string): (d: string)
    ensures |d| <= |p| && p[..|d|] == d
    ensures NoChar(p, '/') ==> d == []
    ensures d == [] || d[|d| - 1] != '/' || AllSlashes(d)
    ensures |d| + |BaseName(p)| <= |p| && AllSlashes(p[|d|..|p| - |BaseName(p)|])
  {
    var head := p[..LastIndexOf(p, '/') + 1];
    assert |head| == |p| - |BaseName(p)|;
    if head != [] && !AllSlashes(head) then
      var d := StripTrailingSlashes(head);
      assert head[0..] == head;
      assert p[|d|..|head|] == head[|d|..];
      d
    else
      assert p[|head|..|head|] == [];
      head
  }

  /** `dirname` is empty exactly when the path holds no separator. */
  lemma DirNameEmpty(p: string)
    ensures DirName(p) == [] <==> NoChar(p, '/')
  {
    var i := LastIndexOf(p, '/');
    if i >= 0 {
      var head := p[..i + 1];
      assert head[i] == '/';
      if !AllSlashes(head) {
        assert head[0..] == head;
        assert DirName(p) == StripTrailingSlashes(head);
      }
    }
  }

  /** `os.path.join(a, b)` for two components. */
  function Join(a: string, b: string): (r: string)
    ensures |b| > 0 && b[0] == '/' ==> r == b
    ensures !(|b| > 0 && b[0] == '/') ==> |r| >= |a| + |b|
    ensures !(|b| > 0 && b[0] == '/') ==> r[|r| - |b|..] == b && r[..|a|] == a
  {
    if |b| > 0 && b[0] == '/' then b
    else if a == [] || a[|a| - 1] == '/' then a + b
    else a + "/" + b
  }

  /** The result of `os.path.splitext`: `root + ext` is the path. */
  datatype Split = Split(root: string, ext: string)

  /** Dropping the first `i` characters shifts the last `c` left by `i`,
      or loses it. */
  lemma LastIndexOfSuffix(s: string, c: char, i: int)
    requires 0 <= i <= |s|
    ensures LastIndexOf(s[i..], c) == if LastIndexOf(s, c) >= i then LastIndexOf(s, c) - i else -1
  {
    var r := if LastIndexOf(s, c) >= i then LastIndexOf(s, c) - i else -1;
    forall j | r < j < |s[i..]| ensures s[i..][j] != c {
      assert s[i..][j] == s[i + j];
    }
    LastIndexOfIs(s[i..], c, r);
  }

  /** Cutting a string after its last `c` does not move the last `c`. */
  lemma LastIndexOfPrefix(s: string, c: char, i: int)
    requires LastIndexOf(s, c) < i <= |s|
    ensures LastIndexOf(s[..i], c) == LastIndexOf(s, c)
  {
    LastIndexOfIs(s[..i], c, LastIndexOf(s, c));
  }

  lemma BaseNameOfRoot(p: string, sep: int, dot: int)
    requires sep == LastIndexOf(p, '/') && sep < dot <= |p|
    ensures BaseName(p[..dot]) == p[sep + 1..dot]
  {
    LastIndexOfPrefix(p, '/', dot);
  }

  /** What follows the last `c` of a string holds no `c`. */
  lemma NoneAfterLast(p: string, c: char, k: int)
    requires LastIndexOf(p, c) < k <= |p|
    ensures NoChar(p[k..], c)
  {
    forall i | 0 <= i < |p[k..]| ensures p[k..][i] != c {
      assert p[k..][i] == p[k + i];
    }
  }

  /** `s` divides `p` into a root and an extension: either no extension, or a
      dot followed by neither dots nor separators, after a final component of
      the root that is not made of dots only. */
  predicate SplitOf(p: string, s: Split) {
    && s.root + s.ext == p
    && (s.ext != [] ==> s.ext[0] == '.' && NoChar(s.ext[1..], '.') && NoChar(s.ext, '/'))
    && (s.ext != [] ==> !AllDots(BaseName(s.root)))
  }

  /** Splitting at the last dot when it lies in the final component and is
      not one of its leading dots. */
  lemma SplitAtDot(p: string, sep: int, dot: int)
    requires sep == LastIndexOf(p, '/') && dot == LastIndexOf(p, '.')
    requires sep < dot && !OnlyDots(p, sep + 1, dot)
    ensures SplitOf(p, Split(p[..dot], p[dot..]))
  {
    assert p[..dot] + p[dot..] == p;
    ExtensionAfterLastDot(p, sep, dot);
    RootNotOnlyDots(p, sep, dot);
  }

  lemma ExtensionAfterLastDot(p: string, sep: int, dot: int)
    requires sep == LastIndexOf(p, '/') && dot == LastIndexOf(p, '.') && sep < dot
    ensures var e := p[dot..]; e[0] == '.' && NoChar(e[1..], '.') && NoChar(e, '/')
  {
    NoneAfterLast(p, '.', dot + 1);
    NoneAfterLast(p, '/', dot);
    assert p[dot..][1..] == p[dot + 1..];
  }

  lemma RootNotOnlyDots(p: string, sep: int, dot: int)
    requires sep == LastIndexOf(p, '/') && sep < dot <= |p|
    requires !OnlyDots(p, sep + 1, dot)
    ensures !AllDots(BaseName(p[..dot]))
  {
    BaseNameOfRoot(p, sep, dot);
    OnlyDotsSlice(p, sep + 1, dot);
  }

  /** `os.path.splitext(p)`: the extension starts at the last dot of the final
      component, provided something other than a dot precedes that dot within
      the component (leading dots do not start an extension). */
  function SplitExt(p: string): (s: Split)
    ensures SplitOf(p, s)
  {
    var sep := LastIndexOf(p, '/');
    var dot := LastIndexOf(p, '.');
    if dot > sep && !OnlyDots(p, sep + 1, dot) then
      SplitAtDot(p, sep, dot);
      Split(p[..dot], p[dot..])
    else
      assert p + [] == p;
      Split(p, [])
  }

  function Extension(p: string): string {
    SplitExt(p).ext
  }

  /** The file name without its extension, as in
      `os.path.splitext(os.path.basename(p))[0]`. */
  function Stem(p: string): (r: string)
    ensures r + Extension(BaseName(p)) == BaseName(p)
    ensures NoChar(r, '/')
  {
    var b := BaseName(p);
    assert SplitExt(b).root == b[..|SplitExt(b).root|];
    SplitExt(b).root
  }
}
