/**
 * The few Python `str` operations the downloader script relies on, with the
 * semantics CPython gives them: `split` with an explicit separator, `rfind` of
 * one character, `strip()` with no argument and `endswith`; `lower()` is
 * modelled on ASCII letters only.
 */
module PyStr {

  /** `s.endswith(suffix)`: the last `|suffix|` characters of `s` are those of `suffix`, in order. */
  predicate EndsWith(s: string, suffix: string) {
    |suffix| <= |s| && s[|s| - |suffix|..] == suffix
  }

  /** `s` ends with `suffix` exactly when `s` is some string followed by `suffix`. */
  lemma EndsWithConcat(s: string, suffix: string)
    ensures EndsWith(s, suffix) <==> exists pre :: s == pre + suffix
  {
    if EndsWith(s, suffix) {
      assert s == s[..|s| - |suffix|] + suffix;
    } else {
      forall pre | s == pre + suffix
        ensures false
      {
        assert s[|pre|..] == suffix;
      }
    }
  }

  lemma EndsWithTrans(s: string, t: string, suffix: string)
    requires EndsWith(s, t) && EndsWith(t, suffix)
    ensures EndsWith(s, suffix)
  {
    assert s[|s| - |suffix|..] == s[|s| - |t|..][|t| - |suffix|..];
  }

  /** `s.startswith(prefix)`. */
  predicate StartsWith(s: string, prefix: string) {
    |prefix| <= |s| && s[..|prefix|] == prefix
  }

  // ---------------------------------------------------------------------------
  // rfind
  // ---------------------------------------------------------------------------

  /** `s.rfind(c)`: the index of the last occurrence of `c`, or -1. */
  function RFind(s: string, c: char): (i: int)
    ensures -1 <= i < |s|
    ensures 0 <= i ==> s[i] == c
    ensures forall j :: i < j < |s| ==> s[j] != c
  {
    if |s| == 0 then -1
    else if s[|s| - 1] == c then |s| - 1
    else RFind(s[..|s| - 1], c)
  }

  /** `rfind` finds nothing exactly when the character does not occur. */
  lemma RFindAbsent(s: string, c: char)
    ensures RFind(s, c) == -1 <==> c !in s
  {
    if RFind(s, c) != -1 {
      assert s[RFind(s, c)] == c;
    } else {
      assert forall j :: 0 <= j < |s| ==> s[j] != c;
    }
  }

  // ---------------------------------------------------------------------------
  // split and join
  // ---------------------------------------------------------------------------

  /**
   * `s.split(sep)` for a one-character separator: the pieces between
   * occurrences of `sep`, always at least one (`"".split("/") == [""]`).
   * Peeled off from the right end, at the last separator.
   */
  function Split(s: string, sep: char): (parts: seq<string>)
    ensures |parts| >= 1
  {
    var i := RFind(s, sep);
    if i < 0 then [s] else Split(s[..i], sep) + [s[i + 1..]]
  }

  /** `sep.join(parts)`. */
  function JoinWith(parts: seq<string>, sep: char): string {
    if |parts| == 0 then ""
    else if |parts| == 1 then parts[0]
    else JoinWith(parts[..|parts| - 1], sep) + [sep] + parts[|parts| - 1]
  }

  /**
   * Joining the pieces of a split with the same separator gives the string
   * back, and no piece contains the separator: together these pin `Split`
   * down to Python's `str.split`.
   */
  lemma {:induction false} SplitJoin(s: string, sep: char)
    ensures JoinWith(Split(s, sep), sep) == s
    ensures forall k :: 0 <= k < |Split(s, sep)| ==> sep !in Split(s, sep)[k]
  {
    var i := RFind(s, sep);
    if i < 0 {
      RFindAbsent(s, sep);
    } else {
      var init := Split(s[..i], sep);
      SplitJoin(s[..i], sep);
      var parts := init + [s[i + 1..]];
      assert parts[..|parts| - 1] == init;
      assert s == s[..i] + [sep] + s[i + 1..];
      RFindAbsent(s[i + 1..], sep);
    }
  }

  /** The last piece of `s.split(sep)` is the text after the last `sep`. */
  lemma SplitLast(s: string, sep: char)
    ensures var parts := Split(s, sep);
      parts[|parts| - 1] == s[RFind(s, sep) + 1..]
  {
  }

  // ---------------------------------------------------------------------------
  // strip
  // ---------------------------------------------------------------------------

  /**
   * `c.isspace()`: the characters `str.strip()` removes — ASCII tab to
   * carriage return, the file/group/record/unit separators, space, NEL,
   * no-break space and the Unicode space separators.
   */
  predicate IsSpace(c: char) {
    var n := c as int;
    (9 <= n <= 13) || (28 <= n <= 32) || n == 0x85 || n == 0xA0 || n == 0x1680
    || (0x2000 <= n <= 0x200A) || n == 0x2028 || n == 0x2029 || n == 0x202F
    || n == 0x205F || n == 0x3000
  }

  predicate AllSpace(s: string) {
    forall k :: 0 <= k < |s| ==> IsSpace(s[k])
  }

  /** `s.lstrip()`: drops the leading whitespace and nothing else. */
  function LStrip(s: string): (r: string)
    ensures |r| <= |s| && r == s[|s| - |r|..]
    ensures r == "" || !IsSpace(r[0])
    ensures AllSpace(s[..|s| - |r|])
  {
    if |s| > 0 && IsSpace(s[0]) then
      var r := LStrip(s[1..]);
      LStripStep(s, r);
      r
    else s
  }

  /** One step of `LStrip`: dropping a leading space keeps the contract. */
  lemma LStripStep(s: string, r: string)
    requires |s| > 0 && IsSpace(s[0])
    requires |r| <= |s| - 1 && r == s[1..][|s| - 1 - |r|..]
    requires AllSpace(s[1..][..|s| - 1 - |r|])
    ensures r == s[|s| - |r|..]
    ensures AllSpace(s[..|s| - |r|])
  {
    assert s[1..][|s| - 1 - |r|..] == s[|s| - |r|..];
    var pre := s[..|s| - |r|];
    forall k | 0 <= k < |pre|
      ensures IsSpace(pre[k])
    {
      if k > 0 {
        assert pre[k] == s[1..][..|s| - 1 - |r|][k - 1];
      }
    }
  }

  /** `s.rstrip()`: drops the trailing whitespace and nothing else. */
  function RStrip(s: string): (r: string)
    ensures |r| <= |s| && r == s[..|r|]
    ensures r == "" || !IsSpace(r[|r| - 1])
    ensures AllSpace(s[|r|..])
  {
    if |s| > 0 && IsSpace(s[|s| - 1]) then
      var r := RStrip(s[..|s| - 1]);
      assert s[..|s| - 1][|r|..] + [s[|s| - 1]] == s[|r|..];
      r
    else s
  }

  /**
   * `s.strip()`: the part of `s` between its leading and trailing whitespace.
   * It is blank exactly when `s` is all whitespace.
   */
  function Strip(s: string): (r: string)
    ensures r == "" || (!IsSpace(r[0]) && !IsSpace(r[|r| - 1]))
    ensures r == "" <==> AllSpace(s)
  {
    StripBlank(s);
    RStrip(LStrip(s))
  }

  /** `strip()` is blank exactly on all-whitespace input, and otherwise starts with a non-space. */
  lemma StripBlank(s: string)
    ensures var r := RStrip(LStrip(s));
      (r == "" <==> AllSpace(s)) && (r == "" || !IsSpace(r[0]))
  {
    var l := LStrip(s);
    LStripBlank(s);
    RStripBlank(l);
    if RStrip(l) != "" {
      assert RStrip(l)[0] == l[0];
    }
  }

  lemma LStripBlank(s: string)
    ensures LStrip(s) == "" <==> AllSpace(s)
  {
    var l := LStrip(s);
    assert s == s[..|s| - |l|] + l;
  }

  lemma RStripBlank(s: string)
    ensures RStrip(s) == "" <==> AllSpace(s)
  {
    var r := RStrip(s);
    assert s == r + s[|r|..];
  }

  lemma AllSpaceAppend(a: string, b: string)
    requires AllSpace(a) && AllSpace(b)
    ensures AllSpace(a + b)
  {
  }

  /** Stripping removes exactly the whitespace padding around a trimmed text. */
  lemma {:induction false} StripPadded(pre: string, t: string, post: string)
    requires AllSpace(pre) && AllSpace(post)
    requires t == "" || (!IsSpace(t[0]) && !IsSpace(t[|t| - 1]))
    ensures Strip(pre + t + post) == t
  {
    if t == "" {
      AllSpaceAppend(pre, post);
      assert pre + t + post == pre + post;
    } else {
      assert pre + t + post == pre + (t + post);
      assert (t + post)[0] == t[0];
      LStripPadded(pre, t + post);
      RStripPadded(t, post);
    }
  }

  lemma {:induction false} LStripPadded(pre: string, rest: string)
    requires AllSpace(pre)
    requires rest == "" || !IsSpace(rest[0])
    ensures LStrip(pre + rest) == rest
  {
    var s := pre + rest;
    if |pre| > 0 {
      assert s[1..] == pre[1..] + rest;
      LStripPadded(pre[1..], rest);
    } else {
      assert s == rest;
    }
  }

  lemma {:induction false} RStripPadded(rest: string, post: string)
    requires AllSpace(post)
    requires rest == "" || !IsSpace(rest[|rest| - 1])
    ensures RStrip(rest + post) == rest
  {
    var s := rest + post;
    if |post| > 0 {
      assert s[..|s| - 1] == rest + post[..|post| - 1];
      RStripPadded(rest, post[..|post| - 1]);
    } else {
      assert s == rest;
    }
  }

  /** Stripping twice is stripping once. */
  lemma StripIdempotent(s: string)
    ensures Strip(Strip(s)) == Strip(s)
  {
    StripPadded("", Strip(s), "");
    assert "" + Strip(s) + "" == Strip(s);
  }

  // ---------------------------------------------------------------------------
  // lower
  // ---------------------------------------------------------------------------

  /** `c.lower()` on ASCII letters; every other character is left as it is. */
  function LowerChar(c: char): char {
    if 'A' <= c <= 'Z' then (c as int + 32) as char else c
  }

  /** `s.lower()` for ASCII, one character at a time: the length is kept. */
  function Lower(s: string): (r: string)
    ensures |r| == |s|
  {
    seq(|s|, i requires 0 <= i < |s| => LowerChar(s[i]))
  }

  /**
   * What `Lower` changes: every upper-case ASCII letter becomes its lower-case
   * partner, so none is left, and every other character is kept as it is.
   */
  lemma LowerChars(s: string)
    ensures forall i :: 0 <= i < |s| ==> !('A' <= Lower(s)[i] <= 'Z')
    ensures forall i :: 0 <= i < |s| && !('A' <= s[i] <= 'Z') ==> Lower(s)[i] == s[i]
    ensures forall i :: 0 <= i < |s| && 'A' <= s[i] <= 'Z' ==> Lower(s)[i] == (s[i] as int + 32) as char
  {
  }
}
