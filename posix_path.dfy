/**
 * The parts of Python's `posixpath` module that the converter uses to name
 * its inputs and outputs: `join`, `dirname`, `basename` and `splitext`,
 * written after their definitions for the separator `/` and extension dot `.`.
 */
module PosixPath {
  import opened PyStrings

  /** `s.rfind(c)`: the highest index holding `c`, or -1 when `c` does not occur. */
  function RFind(s: string, c: char): (r: int)
    ensures -1 <= r < |s|
    ensures r >= 0 ==> s[r] == c
    ensures forall k :: r < k < |s| ==> s[k] != c
  {
    LastBefore(s, c, |s|)
  }

  /** The highest index below `n` holding `c`, or -1. */
  function LastBefore(s: string, c: char, n: nat): (r: int)
    requires n <= |s|
    ensures -1 <= r < n
    ensures r >= 0 ==> s[r] == c
    ensures forall k :: r < k < n ==> s[k] != c
  {
    if n == 0 then -1
    else if s[n - 1] == c then n - 1
    else LastBefore(s, c, n - 1)
  }

  /** An index holding `c` with no `c` after it, or -1 when there is none, is where `rfind` finds it. */
  lemma RFindIs(s: string, c: char, i: int)
    requires -1 <= i < |s| && (i >= 0 ==> s[i] == c) && forall k :: i < k < |s| ==> s[k] != c
    ensures RFind(s, c) == i
  {
  }

  /** `os.path.join(a, b)` for two components. */
  function Join(a: string, b: string): string {
    if StartsWith(b, "/") then b
    else if a == [] || EndsWith(a, "/") then a + b
    else a + "/" + b
  }

  predicate IsSlash(c: char) {
    c == '/'
  }

  predicate AllSlashes(s: string) {
    forall k :: 0 <= k < |s| ==> s[k] == '/'
  }

  /**
   * `os.path.dirname(p)`: everything up to the last `/`, with the trailing slashes
   * removed unless that part consists of slashes only.
   */
  function DirName(p: string): (r: string)
    ensures StartsWith(p, r)
    ensures r != [] && r[|r| - 1] == '/' ==> AllSlashes(r)
  {
    DirOfHead(p[..RFind(p, '/') + 1])
  }

  /** `dirname` once the path is cut after its last `/`. */
  function DirOfHead(head: string): (r: string)
    ensures StartsWith(head, r)
    ensures r != [] && r[|r| - 1] == '/' ==> AllSlashes(r)
  {
    if head != [] && !AllSlashes(head) then StripRight(head, IsSlash) else head
  }

  /** `os.path.basename(p)`: everything after the last `/`. */
  function BaseName(p: string): (r: string)
    ensures EndsWith(p, r)
    ensures '/' !in r
    ensures r == p || (|r| < |p| && p[|p| - |r| - 1] == '/')
  {
    p[RFind(p, '/') + 1..]
  }

  /**
   * `dirname` and `basename` split `p` around the slashes before its last component:
   * `p` is the directory, a run of slashes and the file name, and that run is empty
   * exactly when the directory consists of slashes only (as for `/a` or `a`). With
   * the contract of `DirName` this fixes the directory.
   */
  lemma DirNameThenBaseName(p: string)
    ensures var d, b := DirName(p), BaseName(p);
      |d| + |b| <= |p| &&
      var w := p[|d|..|p| - |b|];
      p == d + w + b && AllSlashes(w) && (w == [] <==> AllSlashes(d))
  {
    var sep := RFind(p, '/');
    var head := p[..sep + 1];
    var b := BaseName(p);
    assert b == p[sep + 1..];
    assert head + b == p;
    HeadThenSlashes(head);
    var d := DirOfHead(head);
    assert p[|d|..|p| - |b|] == head[|d|..];
  }

  /** A head ending in `/` is its directory followed by slashes, none exactly when the directory is all slashes. */
  lemma HeadThenSlashes(head: string)
    requires head == [] || head[|head| - 1] == '/'
    ensures var d := DirOfHead(head);
      head == d + head[|d|..] && AllSlashes(head[|d|..]) && (head[|d|..] == [] <==> AllSlashes(d))
  {
    var d := DirOfHead(head);
    if head != [] && !AllSlashes(head) {
      var k :| 0 <= k < |head| && head[k] != '/';
      assert d[k] == head[k];
    }
  }

  /** After a string ending in `/`, a part without `/` is everything `basename` keeps. */
  lemma BaseNameAfterSlash(a: string, b: string)
    requires a != [] && a[|a| - 1] == '/' && '/' !in b
    ensures BaseName(a + b) == b
  {
    var s := a + b;
    assert s[|a| - 1] == '/';
    assert forall k :: |a| <= k < |s| ==> s[k] == b[k - |a|];
    assert RFind(s, '/') == |a| - 1;
  }

  /** Some character of `p[lo..hi]` is not a dot. */
  predicate HasNonDot(p: string, lo: int, hi: int)
    requires 0 <= lo && hi <= |p|
  {
    exists k | lo <= k < hi :: p[k] != '.'
  }

  /**
   * `os.path.splitext(p)`: the extension runs from the last dot of the last path
   * component to the end, provided the component has something other than
   * dots before that dot (so `.bashrc` and `..` have no extension).
   */
  function SplitExt(p: string): (string, string) {
    var sepIndex, dotIndex := RFind(p, '/'), RFind(p, '.');
    if dotIndex > sepIndex && HasNonDot(p, sepIndex + 1, dotIndex)
    then (p[..dotIndex], p[dotIndex..])
    else (p, "")
  }

  /**
   * `splitext` splits `p` into a root and an extension that is either empty or a dot
   * followed by neither dot nor slash, and the root's last component keeps at least
   * one character that is not a dot. Conversely, the extension is empty only when
   * no dot of the file name follows a character that is not a dot.
   */
  lemma SplitExtParts(p: string)
    ensures SplitExt(p).0 + SplitExt(p).1 == p
    ensures var (root, ext) := SplitExt(p);
      ext == [] ||
      (ext[0] == '.' && (forall k :: 1 <= k < |ext| ==> ext[k] != '.' && ext[k] != '/') &&
       exists k :: 0 <= k < |BaseName(root)| && BaseName(root)[k] != '.')
    ensures var b := BaseName(p);
      SplitExt(p).1 == [] ==> forall i, j :: 0 <= i < j < |b| && b[j] == '.' ==> b[i] == '.'
  {
    SplitExtShape(p);
    NoExtensionWithoutProperDot(p);
  }

  lemma SplitExtShape(p: string)
    ensures SplitExt(p).0 + SplitExt(p).1 == p
    ensures var (root, ext) := SplitExt(p);
      ext == [] ||
      (ext[0] == '.' && (forall k :: 1 <= k < |ext| ==> ext[k] != '.' && ext[k] != '/') &&
       exists k :: 0 <= k < |BaseName(root)| && BaseName(root)[k] != '.')
  {
    var sepIndex, dotIndex := RFind(p, '/'), RFind(p, '.');
    if dotIndex > sepIndex && HasNonDot(p, sepIndex + 1, dotIndex) {
      assert SplitExt(p) == (p[..dotIndex], p[dotIndex..]);
      assert p[..dotIndex] + p[dotIndex..] == p;
      ProperExtension(p, sepIndex, dotIndex);
    } else {
      assert SplitExt(p) == (p, []);
    }
  }

  /** The extension from the last dot holds no dot or slash, and the root's file name has a non-dot. */
  lemma ProperExtension(p: string, sepIndex: int, dotIndex: int)
    requires sepIndex == RFind(p, '/') && dotIndex == RFind(p, '.')
    requires dotIndex > sepIndex && HasNonDot(p, sepIndex + 1, dotIndex)
    ensures var root, ext := p[..dotIndex], p[dotIndex..];
      ext[0] == '.' && (forall k :: 1 <= k < |ext| ==> ext[k] != '.' && ext[k] != '/') &&
      exists k :: 0 <= k < |BaseName(root)| && BaseName(root)[k] != '.'
  {
    ExtensionChars(p, sepIndex, dotIndex);
    RootKeepsNonDot(p, sepIndex, dotIndex);
  }

  lemma ExtensionChars(p: string, sepIndex: int, dotIndex: int)
    requires sepIndex == RFind(p, '/') && dotIndex == RFind(p, '.') && dotIndex > sepIndex
    ensures var ext := p[dotIndex..];
      ext[0] == '.' && forall k :: 1 <= k < |ext| ==> ext[k] != '.' && ext[k] != '/'
  {
    assert forall k :: 1 <= k < |p| - dotIndex ==> p[dotIndex..][k] == p[dotIndex + k];
  }

  lemma RootKeepsNonDot(p: string, sepIndex: int, dotIndex: int)
    requires sepIndex == RFind(p, '/') && sepIndex < dotIndex <= |p| && HasNonDot(p, sepIndex + 1, dotIndex)
    ensures exists k :: 0 <= k < |BaseName(p[..dotIndex])| && BaseName(p[..dotIndex])[k] != '.'
  {
    var root := p[..dotIndex];
    RootBaseName(p, sepIndex, dotIndex);
    var k :| sepIndex + 1 <= k < dotIndex && p[k] != '.';
    assert BaseName(root)[k - (sepIndex + 1)] == p[k];
  }

  /** `splitext` finds no extension only when no dot of the file name follows a non-dot (`a`, `.bashrc`, `..`). */
  lemma NoExtensionWithoutProperDot(p: string)
    ensures var b := BaseName(p);
      SplitExt(p).1 == [] ==> forall i, j :: 0 <= i < j < |b| && b[j] == '.' ==> b[i] == '.'
  {
    var sepIndex, dotIndex := RFind(p, '/'), RFind(p, '.');
    if !(dotIndex > sepIndex && HasNonDot(p, sepIndex + 1, dotIndex)) {
      NoProperDot(p, sepIndex, dotIndex);
    }
  }

  /** Without a non-dot before the last dot after the last `/`, no dot of the file name follows a non-dot. */
  lemma NoProperDot(p: string, sepIndex: int, dotIndex: int)
    requires sepIndex == RFind(p, '/') && dotIndex == RFind(p, '.')
    requires !(dotIndex > sepIndex && HasNonDot(p, sepIndex + 1, dotIndex))
    ensures var b := BaseName(p);
      forall i, j :: 0 <= i < j < |b| && b[j] == '.' ==> b[i] == '.'
  {
  }

  /** Cutting `p` at a dot after its last `/` leaves the file name up to that dot. */
  lemma RootBaseName(p: string, sepIndex: int, dotIndex: int)
    requires sepIndex == RFind(p, '/') && sepIndex < dotIndex <= |p|
    ensures RFind(p[..dotIndex], '/') == sepIndex
    ensures BaseName(p[..dotIndex]) == p[sepIndex + 1..dotIndex]
  {
    RFindIs(p[..dotIndex], '/', sepIndex);
  }

  /** The root `splitext` returns lies in the same directory as the path itself. */
  lemma DirNameOfRoot(p: string)
    ensures DirName(SplitExt(p).0) == DirName(p)
  {
    var sepIndex, dotIndex := RFind(p, '/'), RFind(p, '.');
    if dotIndex > sepIndex && HasNonDot(p, sepIndex + 1, dotIndex) {
      assert SplitExt(p).0 == p[..dotIndex];
      SameHead(p, sepIndex, dotIndex);
    } else {
      assert SplitExt(p).0 == p;
    }
  }

  lemma SameHead(p: string, sepIndex: int, dotIndex: int)
    requires sepIndex == RFind(p, '/') && sepIndex < dotIndex <= |p|
    ensures DirName(p[..dotIndex]) == DirName(p)
  {
    var root, head := p[..dotIndex], p[..sepIndex + 1];
    RFindIs(root, '/', sepIndex);
    assert root[..sepIndex + 1] == head;
    DirNameOfHead(root, head);
    DirNameOfHead(p, head);
  }

  lemma DirNameOfHead(p: string, head: string)
    requires head == p[..RFind(p, '/') + 1]
    ensures DirName(p) == DirOfHead(head)
  {
  }

  /** The file name of the root, followed by the extension, is the file name of the path. */
  lemma BaseNameOfRoot(p: string)
    ensures BaseName(SplitExt(p).0) + SplitExt(p).1 == BaseName(p)
  {
    var sepIndex, dotIndex := RFind(p, '/'), RFind(p, '.');
    if dotIndex > sepIndex && HasNonDot(p, sepIndex + 1, dotIndex) {
      assert SplitExt(p) == (p[..dotIndex], p[dotIndex..]);
      RootThenExtension(p, sepIndex, dotIndex);
    } else {
      assert SplitExt(p) == (p, []);
      assert BaseName(p) + [] == BaseName(p);
    }
  }

  lemma RootThenExtension(p: string, sepIndex: int, dotIndex: int)
    requires sepIndex == RFind(p, '/') && sepIndex < dotIndex <= |p|
    ensures BaseName(p[..dotIndex]) + p[dotIndex..] == BaseName(p)
  {
    RootBaseName(p, sepIndex, dotIndex);
    assert p[sepIndex + 1..dotIndex] + p[dotIndex..] == p[sepIndex + 1..];
  }
}
