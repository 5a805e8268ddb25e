/**
 * The small string operations the two scripts rely on: `str.strip`,
 * `os.path.basename`, and the character classes their regular expressions use.
 */
module Text {

  /** The characters Python's `str.isspace` (and so `str.strip` and the regex
      class `\s`) treats as whitespace. */
  predicate IsWs(c: char)
  {
    || c == ' ' || ('\t' <= c <= '\r')
    || ('\U{1C}' <= c <= '\U{1F}')
    || c == '\U{85}' || c == '\U{A0}' || c == '\U{1680}'
    || ('\U{2000}' <= c <= '\U{200A}')
    || c == '\U{2028}' || c == '\U{2029}' || c == '\U{202F}' || c == '\U{205F}' || c == '\U{3000}'
  }

  /** `str.strip()`: drops whitespace at both ends. Its properties are
      stated by `StripTrims`, so that every use of it stays cheap. */
  function Strip(s: string): string
    decreases |s|
  {
    if s != [] && IsWs(s[0]) then Strip(s[1..])
    else if s != [] && IsWs(s[|s| - 1]) then Strip(s[..|s| - 1])
    else s
  }

  /** `r` is the slice of `s` starting at `i`, with only whitespace around it. */
  ghost predicate StrippedAt(s: string, r: string, i: int)
  {
    && 0 <= i <= |s| - |r| && r == s[i..i + |r|]
    && (forall k :: 0 <= k < i ==> IsWs(s[k]))
    && (forall k :: i + |r| <= k < |s| ==> IsWs(s[k]))
  }

  /** The stripped line is a slice of the line with no whitespace at either
      end, and only whitespace was cut away. */
  lemma {:induction false} StripTrims(s: string)
    ensures var r := Strip(s);
      && (r == [] || (!IsWs(r[0]) && !IsWs(r[|r| - 1])))
      && exists i :: StrippedAt(s, r, i)
    decreases |s|
  {
    var r := Strip(s);
    if s != [] && IsWs(s[0]) {
      StripTrims(s[1..]);
      var i :| StrippedAt(s[1..], r, i);
      StrippedAtFirst(s, r, i);
    } else if s != [] && IsWs(s[|s| - 1]) {
      StripTrims(s[..|s| - 1]);
      var i :| StrippedAt(s[..|s| - 1], r, i);
      StrippedAtLast(s, r, i);
    } else {
      assert StrippedAt(s, s, 0);
    }
  }

  /** Cutting a leading whitespace character keeps the slice, one place on. */
  lemma StrippedAtFirst(s: string, r: string, i: int)
    requires s != [] && IsWs(s[0]) && StrippedAt(s[1..], r, i)
    ensures StrippedAt(s, r, i + 1)
  {
    assert s[1..][i..i + |r|] == s[i + 1..i + 1 + |r|];
  }

  /** Cutting a trailing whitespace character keeps the slice in place. */
  lemma StrippedAtLast(s: string, r: string, i: int)
    requires s != [] && IsWs(s[|s| - 1]) && StrippedAt(s[..|s| - 1], r, i)
    ensures StrippedAt(s, r, i)
  {
    assert s[..|s| - 1][i..i + |r|] == s[i..i + |r|];
  }

  /** Stripping twice is stripping once. */
  lemma StripIdempotent(s: string)
    ensures Strip(Strip(s)) == Strip(s)
  {
    StripTrims(s);
  }

  /** `os.path.basename` with `/` as the separator: what follows the last `/`. */
  function Basename(path: string): (r: string)
    ensures '/' !in r
    ensures |r| <= |path| && r == path[|path| - |r|..]
    ensures |r| < |path| ==> path[|path| - |r| - 1] == '/'
  {
    if path == [] then []
    else if path[|path| - 1] == '/' then []
    else Basename(path[..|path| - 1]) + [path[|path| - 1]]
  }

  /** What the regex `\S+` matches: a non-empty run of non-whitespace. */
  predicate IsToken(s: string)
  {
    |s| > 0 && forall k :: 0 <= k < |s| ==> !IsWs(s[k])
  }

  /** What the regex `\d+` matches, restricted to ASCII digits. */
  predicate IsDigits(s: string)
  {
    |s| > 0 && forall k :: 0 <= k < |s| ==> '0' <= s[k] <= '9'
  }

  /** ASCII lower-casing, the folding `re.IGNORECASE` applies to the literal `DIA107`. */
  function Lower(c: char): char
  {
    if 'A' <= c <= 'Z' then (c as int + 32) as char else c
  }

  predicate EqualsIgnoreCase(a: string, b: string)
  {
    |a| == |b| && forall k :: 0 <= k < |a| ==> Lower(a[k]) == Lower(b[k])
  }

  /** `t` occurs in `s` as a contiguous slice. */
  ghost predicate IsInfix(t: string, s: string)
  {
    exists i :: OccursAt(t, s, i)
  }

  ghost predicate OccursAt(t: string, s: string, i: int)
  {
    0 <= i <= |s| - |t| && s[i..i + |t|] == t
  }

  /** Python's `<=` on strings: lexicographic by code point. */
  predicate LexLessEq(a: string, b: string)
  {
    a == [] || (b != [] && (a[0] < b[0] || (a[0] == b[0] && LexLessEq(a[1..], b[1..]))))
  }
}
