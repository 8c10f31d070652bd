/**
 * Character-level helpers shared by the URL scanner and the Markdown cleanup:
 * Unicode white space (what Rust's `char::is_whitespace`, `str::trim` and the
 * regex class `\s` use), ASCII lower-casing and UTF-8 byte length.
 */
module Text {

  /** The Unicode White_Space property. */
  predicate IsWhitespace(c: char) {
    ('\U{0009}' <= c <= '\U{000D}') || c == ' ' || c == '\U{0085}' || c == '\U{00A0}' ||
    c == '\U{1680}' || ('\U{2000}' <= c <= '\U{200A}') || c == '\U{2028}' || c == '\U{2029}' ||
    c == '\U{202F}' || c == '\U{205F}' || c == '\U{3000}'
  }

  /** Number of bytes the UTF-8 encoding of `c` takes. */
  function Utf8Len(c: char): (n: nat)
    ensures 1 <= n <= 4
    ensures n == 1 <==> c as int < 0x80
  {
    if c as int < 0x80 then 1
    else if c as int < 0x800 then 2
    else if c as int < 0x1_0000 then 3
    else 4
  }

  /** Rust's `str::len`: the length of `s` in UTF-8 bytes. */
  function ByteLen(s: string): (n: nat)
    ensures |s| <= n <= 4 * |s|
  {
    if s == [] then 0 else Utf8Len(s[0]) + ByteLen(s[1..])
  }

  /** Lower-cases ASCII letters and leaves every other character alone. */
  function LowerChar(c: char): (d: char)
    ensures 'A' <= c <= 'Z' ==> d as int == c as int + 32
    ensures !('A' <= c <= 'Z') ==> d == c
  {
    if 'A' <= c <= 'Z' then (c as int + 32) as char else c
  }

  /** `str::to_lowercase`, restricted to ASCII letters. */
  function Lower(s: string): (r: string)
    ensures |r| == |s|
    ensures forall i :: 0 <= i < |s| ==> r[i] == LowerChar(s[i])
  {
    seq(|s|, i requires 0 <= i < |s| => LowerChar(s[i]))
  }

  predicate IsAscii(s: string) {
    forall i :: 0 <= i < |s| ==> s[i] as int < 0x80
  }

  /** On ASCII text the byte length is the character count. */
  lemma {:induction false} ByteLenAscii(s: string)
    requires IsAscii(s)
    ensures ByteLen(s) == |s|
    decreases |s|
  {
    if s != [] {
      ByteLenAscii(s[1..]);
    }
  }

  /** Lower-casing maps only ASCII letters, so an ASCII result had an ASCII source. */
  lemma LowerOfAscii(s: string)
    requires IsAscii(Lower(s))
    ensures IsAscii(s)
  {
    forall i | 0 <= i < |s| ensures s[i] as int < 0x80 {
      assert Lower(s)[i] == LowerChar(s[i]);
    }
  }

  predicate AllWhitespace(s: string) {
    forall i :: 0 <= i < |s| ==> IsWhitespace(s[i])
  }

  /** `str::trim_start`: drops the leading white space. */
  function TrimStart(s: string): (r: string)
    ensures |r| <= |s| && r == s[|s| - |r|..]
    ensures AllWhitespace(s[..|s| - |r|])
    ensures r == [] || !IsWhitespace(r[0])
  {
    if s != [] && IsWhitespace(s[0]) then TrimStart(s[1..]) else s
  }

  /** `str::trim_end`: drops the trailing white space. */
  function TrimEnd(s: string): (r: string)
    ensures |r| <= |s| && r == s[..|r|]
    ensures AllWhitespace(s[|r|..])
    ensures r == [] || !IsWhitespace(r[|r| - 1])
  {
    if s != [] && IsWhitespace(s[|s| - 1]) then TrimEnd(s[..|s| - 1]) else s
  }

  /** `str::trim`: drops leading and trailing white space. */
  function Trim(s: string): (r: string)
    ensures r == [] || (!IsWhitespace(r[0]) && !IsWhitespace(r[|r| - 1]))
    ensures r == [] <==> AllWhitespace(s)
    ensures |r| <= |TrimEnd(s)| && r == s[|TrimEnd(s)| - |r|..|TrimEnd(s)|]
  {
    var e := TrimEnd(s);
    var r := TrimStart(e);
    TrimPieces(s, e, r);
    r
  }

  /** The pieces a trim cuts off, stated without unfolding TrimStart and TrimEnd. */
  lemma TrimPieces(s: string, e: string, r: string)
    requires |e| <= |s| && e == s[..|e|] && AllWhitespace(s[|e|..])
    requires |r| <= |e| && r == e[|e| - |r|..] && AllWhitespace(e[..|e| - |r|])
    requires r == [] || !IsWhitespace(r[0])
    ensures r == s[|e| - |r|..|e|]
    ensures r == [] <==> AllWhitespace(s)
  {
    if r == [] {
      AllWhitespaceConcat(s[..|e|], s[|e|..]);
      assert s == s[..|e|] + s[|e|..];
    } else {
      assert s[|e| - |r|] == r[0];
    }
  }

  lemma AllWhitespaceConcat(a: string, b: string)
    requires AllWhitespace(a) && AllWhitespace(b)
    ensures AllWhitespace(a + b)
  {
    forall i | 0 <= i < |a + b| ensures IsWhitespace((a + b)[i]) {
      if i < |a| { assert (a + b)[i] == a[i]; } else { assert (a + b)[i] == b[i - |a|]; }
    }
  }

  /** Every character of `s` is in the class `cls`. */
  predicate AllIn(s: string, cls: char -> bool) {
    forall i :: 0 <= i < |s| ==> cls(s[i])
  }

  /** The end of the maximal run of `cls` characters in `t` that starts at `j`. */
  function RunEnd(t: string, j: nat, cls: char -> bool): (k: nat)
    requires j <= |t|
    ensures j <= k <= |t|
    ensures forall x :: j <= x < k ==> cls(t[x])
    ensures k == |t| || !cls(t[k])
    decreases |t| - j
  {
    if j < |t| && cls(t[j]) then RunEnd(t, j + 1, cls) else j
  }

  /** The run end is determined by the run's characters and the one that stops it. */
  lemma {:induction false} RunEndIs(t: string, j: nat, k: nat, cls: char -> bool)
    requires j <= k <= |t|
    requires forall x :: j <= x < k ==> cls(t[x])
    requires k == |t| || !cls(t[k])
    ensures RunEnd(t, j, cls) == k
    decreases k - j
  {
    if j < k {
      RunEndIs(t, j + 1, k, cls);
    }
  }

  lemma AllInConcat(a: string, b: string, cls: char -> bool)
    requires AllIn(a, cls) && AllIn(b, cls)
    ensures AllIn(a + b, cls)
  {
    forall i | 0 <= i < |a + b| ensures cls((a + b)[i]) {
      if i < |a| { assert (a + b)[i] == a[i]; } else { assert (a + b)[i] == b[i - |a|]; }
    }
  }

  /** The first index at or after `j` holding `c`, or `|t|` when there is none. */
  function FirstIndexOf(t: string, c: char, j: nat): (k: nat)
    requires j <= |t|
    ensures j <= k <= |t|
    ensures forall x :: j <= x < k ==> t[x] != c
    ensures k == |t| || t[k] == c
    decreases |t| - j
  {
    if j < |t| && t[j] != c then FirstIndexOf(t, c, j + 1) else j
  }

  predicate StartsWith(s: string, p: string) {
    |p| <= |s| && s[..|p|] == p
  }

  predicate Contains(s: string, c: char) {
    c in s
  }
}
