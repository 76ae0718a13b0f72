/**
 * The POSIX flavour of Python's `os.path` functions the downloader uses:
 * `join` of two components, `basename`, `dirname` and `splitext`. The
 * separator is `/` and the extension separator is `.`.
 */
module PosixPath {
  import opened PyStr

  /**
   * `posixpath.join(a, b)`: an absolute `b` replaces `a`; otherwise `a` and
   * `b` are kept whole, with one `/` between them only when `a` is non-empty
   * and does not already end in `/`.
   */
  function Join(a: string, b: string): (r: string)
    ensures EndsWith(r, b)
    ensures StartsWith(b, "/") || StartsWith(r, a)
    ensures !StartsWith(b, "/") ==> |r| == |a| + |b| + (if a == "" || EndsWith(a, "/") then 0 else 1)
  {
    if StartsWith(b, "/") then b
    else if a == "" || EndsWith(a, "/") then a + b
    else a + "/" + b
  }

  /** `posixpath.basename(p)`: the longest suffix of `p` without a `/`. */
  function Basename(p: string): (r: string)
    ensures '/' !in r
    ensures EndsWith(p, r)
    ensures |r| < |p| ==> p[|p| - |r| - 1] == '/'
  {
    var i := RFind(p, '/');
    RFindAbsent(p[i + 1..], '/');
    p[i + 1..]
  }

  /** The base name is empty exactly when the path is empty or ends in `/`. */
  lemma BasenameEmpty(p: string)
    ensures Basename(p) == "" <==> p == "" || p[|p| - 1] == '/'
  {
    var r := Basename(p);
    if r != "" {
      assert r[|r| - 1] == p[|p| - 1];
    }
  }

  predicate AllSlashes(s: string) {
    forall k :: 0 <= k < |s| ==> s[k] == '/'
  }

  predicate AllDots(s: string) {
    forall k :: 0 <= k < |s| ==> s[k] == '.'
  }

  /** `head.rstrip("/")`. */
  function RStripSlashes(s: string): (r: string)
    ensures |r| <= |s| && r == s[..|r|]
    ensures r == "" || r[|r| - 1] != '/'
    ensures AllSlashes(s[|r|..])
  {
    if |s| > 0 && s[|s| - 1] == '/' then
      var r := RStripSlashes(s[..|s| - 1]);
      assert s[..|s| - 1][|r|..] + ['/'] == s[|r|..];
      r
    else s
  }

  /**
   * How `dirname` reports a directory prefix: trailing slashes are dropped
   * unless the prefix is made of slashes only (the root `/`, or `//`).
   */
  function TrimDir(head: string): string {
    if head != "" && !AllSlashes(head) then RStripSlashes(head) else head
  }

  /**
   * `posixpath.dirname(p)`: everything up to the last `/`, trimmed. It is a
   * prefix of `p`, and empty when `p` has no `/`.
   */
  function Dirname(p: string): (r: string)
    ensures StartsWith(p, r)
    ensures '/' !in p ==> r == ""
  {
    var head := p[..RFind(p, '/') + 1];
    RFindAbsent(p, '/');
    var r := TrimDir(head);
    assert r == head[..|r|];
    r
  }

  /** `rfind` is determined by its contract. */
  lemma RFindUnique(s: string, c: char, i: int)
    requires -1 <= i < |s|
    requires 0 <= i ==> s[i] == c
    requires forall j :: i < j < |s| ==> s[j] != c
    ensures RFind(s, c) == i
  {
  }

  /**
   * Joining a directory and a file name (non-empty, no `/`) can be taken
   * apart again: `basename` gives the file name back and `dirname` gives the
   * directory as `dirname` would report it.
   */
  lemma JoinFile(d: string, b: string)
    requires b != "" && '/' !in b
    ensures Basename(Join(d, b)) == b
    ensures Dirname(Join(d, b)) == TrimDir(d)
  {
    JoinBasename(d, b);
    assert b[0] != '/';
    var p := Join(d, b);
    if d == "" {
      assert p[..0] == "";
    } else if EndsWith(d, "/") {
      assert p == d + b;
      assert p[..|d|] == d;
    } else {
      var head := d + "/";
      assert p == d + "/" + b;
      assert p[..|d| + 1] == head;
      assert head[|d| - 1] != '/';
      assert RStripSlashes(head) == RStripSlashes(d);
    }
  }

  /** The `/` that `Join` puts before a file name is the last one of the joined path. */
  lemma JoinBasename(d: string, b: string)
    requires b != "" && '/' !in b
    ensures Basename(Join(d, b)) == b
    ensures RFind(Join(d, b), '/') == |Join(d, b)| - |b| - 1
  {
    var p := Join(d, b);
    var i := |p| - |b| - 1;
    JoinShape(d, b);
    forall j | i < j < |p|
      ensures p[j] != '/'
    {
      assert p[j] == p[i + 1..][j - i - 1];
    }
    RFindUnique(p, '/', i);
  }

  /** `Join` ends with the file name, after a `/` unless the directory is empty. */
  lemma JoinShape(d: string, b: string)
    requires b != "" && '/' !in b
    ensures var p := Join(d, b);
      |p| > |b| <==> d != ""
    ensures var p := Join(d, b);
      |p| >= |b| && p[|p| - |b|..] == b && (|p| > |b| ==> p[|p| - |b| - 1] == '/')
  {
    assert !StartsWith(b, "/") by {
      assert b[0] != '/';
    }
    var p := Join(d, b);
    if d == "" || EndsWith(d, "/") {
      assert p == d + b;
      if d != "" {
        assert p[|d| - 1] == d[|d| - 1..][0];
      }
    } else {
      assert p == d + "/" + b;
    }
  }

  /**
   * `posixpath.splitext(p)`: `root + ext == p`; `ext` is empty or runs from
   * the last `.` of the last component to the end. Dots that begin the last
   * component do not start an extension, so `.wav` has none.
   */
  function SplitExt(p: string): (parts: (string, string))
    ensures parts.0 + parts.1 == p
  {
    var i := ExtensionStart(p);
    assert p[..i] + p[i..] == p;
    (p[..i], p[i..])
  }

  /**
   * What `splitext` cuts off: nothing, when every dot of the last component
   * is one of its leading dots; otherwise a `.` followed by neither `.` nor
   * `/`, after a root whose last component is not made of dots only.
   */
  lemma SplitExtShape(p: string)
    ensures var (root, ext) := SplitExt(p);
      && (ext == "" || (ext[0] == '.' && '/' !in ext && '.' !in ext[1..]))
      && (ext != "" ==> !AllDots(Basename(root)))
      && (ext == "" ==> LeadingDotsOnly(Basename(p)))
  {
    var i := ExtensionStart(p);
    assert p[i..] == "" <==> i == |p|;
  }

  /** Where `splitext` cuts `p`: at the extension's `.`, or at the end when there is none. */
  function ExtensionStart(p: string): (i: nat)
    ensures i <= |p|
    ensures i < |p| ==> p[i] == '.' && '/' !in p[i..] && '.' !in p[i + 1..] && !AllDots(Basename(p[..i]))
    ensures i == |p| ==> LeadingDotsOnly(Basename(p))
  {
    var sepIndex := RFind(p, '/');
    var dotIndex := RFind(p, '.');
    if dotIndex > sepIndex && !AllDots(p[sepIndex + 1..dotIndex]) then
      ExtensionAt(p, sepIndex, dotIndex);
      BasenameBeforeDot(p, sepIndex, dotIndex);
      dotIndex
    else
      SplitExtNone(p, sepIndex, dotIndex);
      |p|
  }

  /** The number of dots `name` starts with. */
  function LeadingDots(name: string): (n: nat)
    ensures n <= |name| && AllDots(name[..n])
    ensures n < |name| ==> name[n] != '.'
  {
    if |name| > 0 && name[0] == '.' then
      var n := 1 + LeadingDots(name[1..]);
      assert name[..n] == [name[0]] + name[1..][..n - 1];
      n
    else 0
  }

  /** Every `.` of `name` belongs to its leading run of dots. */
  predicate LeadingDotsOnly(name: string) {
    '.' !in name[LeadingDots(name)..]
  }

  /** When `splitext` finds no extension, every dot of the last component is a leading one. */
  lemma SplitExtNone(p: string, sepIndex: int, dotIndex: int)
    requires sepIndex == RFind(p, '/') && dotIndex == RFind(p, '.')
    requires dotIndex > sepIndex ==> AllDots(p[sepIndex + 1..dotIndex])
    ensures LeadingDotsOnly(p[sepIndex + 1..])
  {
    var name := p[sepIndex + 1..];
    if dotIndex > sepIndex {
      DotRunReachesLastDot(p, sepIndex, dotIndex);
    }
    NoDotAfter(p, sepIndex + 1, dotIndex, LeadingDots(name));
  }

  /** A last dot preceded only by dots in its component lies inside the leading run. */
  lemma DotRunReachesLastDot(p: string, sepIndex: int, dotIndex: int)
    requires -1 <= sepIndex < dotIndex < |p| && p[dotIndex] == '.'
    requires AllDots(p[sepIndex + 1..dotIndex])
    ensures LeadingDots(p[sepIndex + 1..]) > dotIndex - sepIndex - 1
  {
    var name := p[sepIndex + 1..];
    var d := dotIndex - sepIndex - 1;
    assert name[..d + 1] == p[sepIndex + 1..dotIndex] + ['.'];
    LeadingDotsAtLeast(name, d + 1);
  }

  /** Past the last dot there is no dot. */
  lemma NoDotAfter(p: string, lo: int, dotIndex: int, n: nat)
    requires 0 <= lo <= |p| && dotIndex == RFind(p, '.')
    requires lo + n <= |p| && dotIndex < lo + n
    ensures '.' !in p[lo..][n..]
  {
    var rest := p[lo..][n..];
    assert rest == p[lo + n..];
    RFindAbsent(rest, '.');
  }

  /** A run of `m` leading dots is part of the leading run. */
  lemma {:induction false} LeadingDotsAtLeast(name: string, m: nat)
    requires m <= |name| && AllDots(name[..m])
    ensures LeadingDots(name) >= m
  {
    if m > 0 {
      assert name[1..][..m - 1] == name[1..m];
      LeadingDotsAtLeast(name[1..], m - 1);
    }
  }

  /** A prefix of a run of dots is a run of dots. */
  lemma AllDotsPrefix(p: string, lo: int, k: int, hi: int)
    requires 0 <= lo <= k <= hi <= |p|
    requires AllDots(p[lo..hi])
    ensures AllDots(p[lo..k])
  {
    assert p[lo..hi][..k - lo] == p[lo..k];
  }

  /** What follows the last `.` when it lies after the last `/`. */
  lemma ExtensionAt(p: string, sepIndex: int, dotIndex: int)
    requires sepIndex == RFind(p, '/') && dotIndex == RFind(p, '.')
    requires dotIndex > sepIndex
    ensures var ext := p[dotIndex..];
      p[..dotIndex] + ext == p && ext[0] == '.' && '/' !in ext && '.' !in ext[1..]
  {
    assert p[..dotIndex] + p[dotIndex..] == p;
    ExtensionFree(p, sepIndex, dotIndex);
  }

  /** The last component of the root is what lies between the last `/` and the last `.`. */
  lemma BasenameBeforeDot(p: string, sepIndex: int, dotIndex: int)
    requires sepIndex == RFind(p, '/') && dotIndex == RFind(p, '.')
    requires dotIndex > sepIndex
    ensures Basename(p[..dotIndex]) == p[sepIndex + 1..dotIndex]
  {
    var q := p[..dotIndex];
    forall j | sepIndex < j < |q|
      ensures q[j] != '/'
    {
      assert q[j] == p[j];
    }
    RFindUnique(q, '/', sepIndex);
    assert q[sepIndex + 1..] == p[sepIndex + 1..dotIndex];
  }

  /** The text from the last dot on has no `/` and no further dot. */
  lemma ExtensionFree(p: string, sepIndex: int, dotIndex: int)
    requires sepIndex == RFind(p, '/') && dotIndex == RFind(p, '.')
    requires dotIndex > sepIndex
    ensures '/' !in p[dotIndex..] && '.' !in p[dotIndex..][1..]
  {
    RFindAbsent(p[dotIndex..], '/');
    assert p[dotIndex..][1..] == p[dotIndex + 1..];
    RFindAbsent(p[dotIndex + 1..], '.');
  }

  /** A last component `stem + ext` with a real extension splits into exactly those two. */
  lemma SplitExtOfName(stem: string, ext: string)
    requires '/' !in stem && '/' !in ext
    requires ext != "" && ext[0] == '.' && '.' !in ext[1..]
    requires !AllDots(stem)
    ensures SplitExt(stem + ext) == (stem, ext)
  {
    var p := stem + ext;
    RFindAbsent(p, '/');
    RFindUnique(p, '.', |stem|);
    assert p[0..|stem|] == stem;
  }

  /** A last component with no dot except leading ones has no extension. */
  lemma SplitExtOfPlainName(name: string)
    requires '/' !in name
    requires LeadingDotsOnly(name)
    ensures SplitExt(name) == (name, "")
  {
    RFindAbsent(name, '/');
    var dotIndex := RFind(name, '.');
    if dotIndex >= 0 {
      var n := LeadingDots(name);
      assert dotIndex < n;
      AllDotsPrefix(name, 0, dotIndex, n);
    }
    assert ExtensionStart(name) == |name|;
    assert name[..|name|] == name;
  }
}
