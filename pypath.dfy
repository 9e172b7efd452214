/**
  The parts of Python's `os.path` (POSIX flavour, `posixpath`) that the converter
  uses to name its output files: `basename`, `splitext` and `join`. `basename`
  and `splitext` are built on `str.rfind`; `join` looks at the first character
  of the name and the last character of the directory.
 */
module PyPath {
  const SEP: char := '/'
  const EXT_SEP: char := '.'

  /** `s.rfind(c)`: the index of the last `c` in `s`, or -1 when there is none. */
  function RFind(s: string, c: char): (r: int)
    ensures -1 <= r < |s|
    ensures r >= 0 ==> s[r] == c
    ensures forall k :: r < k < |s| ==> s[k] != c
  {
    LastBefore(s, c, |s|)
  }

  /** The index of the last `c` among the first `n` characters of `s`, or -1. */
  function LastBefore(s: string, c: char, n: nat): (r: int)
    requires n <= |s|
    ensures -1 <= r < n
    ensures r >= 0 ==> s[r] == c
    ensures forall k :: r < k < n ==> s[k] != c
  {
    if n == 0 then -1
    else if s[n - 1] == c then n - 1
    else LastBefore(s, c, n - 1)
  }

  /** The three facts RFind promises determine its result. */
  lemma RFindIs(s: string, c: char, r: int)
    requires -1 <= r < |s|
    requires r >= 0 ==> s[r] == c
    requires forall k :: r < k < |s| ==> s[k] != c
    ensures RFind(s, c) == r
  {
  }

  /** Everything up to and including the last separator ("" when there is none). */
  function DirPrefix(p: string): string {
    p[..RFind(p, SEP) + 1]
  }

  /** `os.path.basename(p)`: what follows the last separator. */
  function Basename(p: string): string {
    p[RFind(p, SEP) + 1..]
  }

  /** A path is its directory prefix followed by its base name, which holds no separator. */
  lemma BasenameSplits(p: string)
    ensures DirPrefix(p) + Basename(p) == p
    ensures SEP !in Basename(p)
    ensures DirPrefix(p) == [] || DirPrefix(p)[|DirPrefix(p)| - 1] == SEP
  {
    var i := RFind(p, SEP) + 1;
    assert p[..i] + p[i..] == p;
  }

  /** Some character of `p` at an index in `lo..hi` is not a '.'. */
  predicate NonDotBetween(p: string, lo: int, hi: int)
    requires 0 <= lo && hi <= |p|
  {
    exists i :: lo <= i < hi && p[i] != EXT_SEP
  }

  /**
    `os.path.splitext(p)`: split at the last '.' that comes after the last
    separator, unless only dots precede it in the base name (so `.bashrc` has
    no extension).
   */
  function SplitExt(p: string): (string, string) {
    var sep := RFind(p, SEP);
    var dot := RFind(p, EXT_SEP);
    if dot > sep && NonDotBetween(p, sep + 1, dot) then (p[..dot], p[dot..]) else (p, [])
  }

  /** Root and extension put back together give the path; an extension is one '.' and no separator. */
  lemma SplitExtJoinsBack(p: string)
    ensures SplitExt(p).0 + SplitExt(p).1 == p
    ensures SplitExt(p).1 == [] || (SplitExt(p).1[0] == EXT_SEP && SEP !in SplitExt(p).1 && EXT_SEP !in SplitExt(p).1[1..])
  {
    var dot := RFind(p, EXT_SEP);
    if SplitExt(p).1 != [] {
      assert p[..dot] + p[dot..] == p;
    }
  }

  /** `os.path.splitext(p)[0]`. */
  function Stem(p: string): string {
    SplitExt(p).0
  }

  /** A base name has an extension when some '.' follows some character other than '.'. */
  predicate HasExtension(b: string) {
    exists i, j :: 0 <= i < j < |b| && b[i] != EXT_SEP && b[j] == EXT_SEP
  }

  /** splitext finds an extension exactly when the base name has one. */
  lemma SplitExtFindsExtensionIff(p: string)
    ensures SplitExt(p).1 != [] <==> HasExtension(Basename(p))
  {
    var sep := RFind(p, SEP);
    var dot := RFind(p, EXT_SEP);
    if SplitExt(p).1 != [] {
      assert dot > sep && NonDotBetween(p, sep + 1, dot);
      var i :| sep + 1 <= i < dot && p[i] != EXT_SEP;
      ExtensionFromIndices(p, i - sep - 1, dot - sep - 1);
    } else if HasExtension(Basename(p)) {
      var b := Basename(p);
      var i, j :| 0 <= i < j < |b| && b[i] != EXT_SEP && b[j] == EXT_SEP;
      SplitFromIndices(p, i, j);
    }
  }

  /** Base-name positions `i < j` with a non-dot at `i` and the last dot at `j` make an extension. */
  lemma ExtensionFromIndices(p: string, i: int, j: int)
    requires 0 <= i < j && RFind(p, SEP) + 1 + j == RFind(p, EXT_SEP)
    requires p[RFind(p, SEP) + 1 + i] != EXT_SEP
    ensures HasExtension(Basename(p))
  {
    BasenameAt(p, i);
    BasenameAt(p, j);
  }

  /** A non-dot before a dot in the base name makes splitext split. */
  lemma SplitFromIndices(p: string, i: int, j: int)
    requires 0 <= i < j < |Basename(p)| && Basename(p)[i] != EXT_SEP && Basename(p)[j] == EXT_SEP
    ensures SplitExt(p).1 != []
  {
    BasenameAt(p, i);
    BasenameAt(p, j);
    var sep := RFind(p, SEP);
    var dot := RFind(p, EXT_SEP);
    assert sep + 1 <= sep + 1 + i < dot && p[sep + 1 + i] != EXT_SEP;
    assert NonDotBetween(p, sep + 1, dot);
  }

  /** Position `k` of the base name is position `sep + 1 + k` of the path. */
  lemma BasenameAt(p: string, k: int)
    requires 0 <= k < |p| - RFind(p, SEP) - 1
    ensures |Basename(p)| == |p| - RFind(p, SEP) - 1
    ensures Basename(p)[k] == p[RFind(p, SEP) + 1 + k]
  {
  }

  /** The stem keeps the directory part and splits only the base name. */
  lemma StemKeepsDir(p: string)
    ensures Stem(p) == DirPrefix(p) + Stem(Basename(p))
    ensures DirPrefix(Stem(p)) == DirPrefix(p)
    ensures Basename(Stem(p)) == Stem(Basename(p))
  {
    StemSplitsAtDir(p);
    BasenameSplits(p);
    StemOfName(Basename(p));
    DirThenName(DirPrefix(p), Stem(Basename(p)));
  }

  /** The stem of a name without separators has none either. */
  lemma StemOfName(b: string)
    requires SEP !in b
    ensures SEP !in Stem(b)
  {
    SplitExtJoinsBack(b);
    var e := SplitExt(b).1;
    assert b == Stem(b) + e;
    forall k | 0 <= k < |Stem(b)| ensures Stem(b)[k] != SEP {
      assert Stem(b)[k] == b[k];
    }
  }

  /** A directory part followed by a plain name splits back into exactly those two. */
  lemma DirThenName(d: string, n: string)
    requires d == [] || d[|d| - 1] == SEP
    requires SEP !in n
    ensures DirPrefix(d + n) == d
    ensures Basename(d + n) == n
  {
    var j := d + n;
    forall k | |d| <= k < |j| ensures j[k] != SEP {
      assert j[k] == n[k - |d|];
    }
    RFindIs(j, SEP, |d| - 1);
  }

  /** The stem of a path is its directory part followed by the stem of its base name. */
  lemma StemSplitsAtDir(p: string)
    ensures Stem(p) == DirPrefix(p) + Stem(Basename(p))
  {
    BasenameSplits(p);
    StemAfterDir(DirPrefix(p), Basename(p));
  }

  /** Behind a directory part, splitext splits only the name. */
  lemma StemAfterDir(d: string, b: string)
    requires d == [] || d[|d| - 1] == SEP
    requires SEP !in b
    ensures Stem(d + b) == d + Stem(b)
  {
    var p := d + b;
    RFindIs(d, SEP, |d| - 1);
    RFindAfterPrefix(d, b, SEP);
    RFindAfterPrefix(d, b, EXT_SEP);
    var db := RFind(b, EXT_SEP);
    if db >= 0 {
      NonDotAfterPrefix(d, b, db);
      assert p[..|d| + db] == d + b[..db];
    }
  }

  /** The last `c` in `d + b` is the last one in `b`, shifted, or else the last one in `d`. */
  lemma RFindAfterPrefix(d: string, b: string, c: char)
    ensures RFind(d + b, c) == if RFind(b, c) >= 0 then |d| + RFind(b, c) else RFind(d, c)
  {
    var p := d + b;
    var rb := RFind(b, c);
    if rb >= 0 {
      forall k | |d| + rb < k < |p| ensures p[k] != c {
        assert p[k] == b[k - |d|];
      }
      RFindIs(p, c, |d| + rb);
    } else {
      var rd := RFind(d, c);
      forall k | rd < k < |p| ensures p[k] != c {
        if k >= |d| {
          assert p[k] == b[k - |d|];
        }
      }
      RFindIs(p, c, rd);
    }
  }

  /** Looking for a non-dot in `d + b` past `d` is looking for one in `b`. */
  lemma NonDotAfterPrefix(d: string, b: string, hi: int)
    requires 0 <= hi <= |b|
    ensures NonDotBetween(d + b, |d|, |d| + hi) <==> NonDotBetween(b, 0, hi)
  {
    var p := d + b;
    if NonDotBetween(b, 0, hi) {
      var i :| 0 <= i < hi && b[i] != EXT_SEP;
      assert p[|d| + i] == b[i];
    }
    if NonDotBetween(p, |d|, |d| + hi) {
      var i :| |d| <= i < |d| + hi && p[i] != EXT_SEP;
      assert b[i - |d|] == p[i];
    }
  }

  /** `os.path.join(a, b)` for two components. */
  function Join(a: string, b: string): string {
    if |b| > 0 && b[0] == SEP then b
    else if a == [] || a[|a| - 1] == SEP then a + b
    else a + [SEP] + b
  }

  /** The directory part `join(d, n)` gives a name `n`: `d` itself when it is empty or ends with '/', else `d + "/"`. */
  function AsDir(d: string): string {
    if d == [] || d[|d| - 1] == SEP then d else d + [SEP]
  }

  /** Joining a directory with a plain name puts the name last and the directory before it. */
  lemma JoinSplitsBack(d: string, n: string)
    requires SEP !in n
    ensures Join(d, n) == AsDir(d) + n
    ensures Basename(Join(d, n)) == n
    ensures DirPrefix(Join(d, n)) == AsDir(d)
  {
    DirThenName(AsDir(d), n);
  }
}
