/**
 * `Regex::replace_all` for the patterns of the Markdown cleanup. None of those
 * patterns matches the empty string, so a pattern is described by what it
 * does at the start of a string: the length of the leftmost-first match there
 * (0 when there is none) and the text that replaces it. The search resumes
 * after a match and one character on otherwise.
 */
module Rewrites {
  import opened Text

  type Matcher = string -> (nat, string)

  /** Replaces every non-overlapping match, scanning from the left. */
  function ReplaceAll(s: string, m: Matcher): (r: string)
    decreases |s|
  {
    if s == [] then []
    else if 0 < m(s).0 <= |s| then m(s).1 + ReplaceAll(s[m(s).0..], m)
    else [s[0]] + ReplaceAll(s[1..], m)
  }

  /** No match starts at any of the first `k` positions of `s`. */
  predicate NoMatchBefore(s: string, k: nat, m: Matcher)
    requires k <= |s|
  {
    forall i :: 0 <= i < k ==> m(s[i..]).0 == 0
  }

  /** Text in which the pattern matches nowhere is returned unchanged. */
  lemma {:induction false} NoMatchUnchanged(s: string, m: Matcher)
    requires NoMatchBefore(s, |s|, m)
    ensures ReplaceAll(s, m) == s
    decreases |s|
  {
    if s != [] {
      assert m(s[0..]).0 == 0 by { assert s[0..] == s; }
      assert NoMatchBefore(s[1..], |s| - 1, m) by {
        forall i | 0 <= i < |s| - 1 ensures m(s[1..][i..]).0 == 0 {
          assert s[1..][i..] == s[i + 1..];
        }
      }
      NoMatchUnchanged(s[1..], m);
    }
  }

  /** A prefix in which no match starts is copied through as it is. */
  lemma {:induction false} CopiesUnmatchedPrefix(pre: string, s: string, m: Matcher)
    requires NoMatchBefore(pre + s, |pre|, m)
    ensures ReplaceAll(pre + s, m) == pre + ReplaceAll(s, m)
    decreases |pre|
  {
    if pre != [] {
      var t := pre + s;
      assert m(t[0..]).0 == 0 by { assert t[0..] == t; }
      assert t[1..] == pre[1..] + s;
      assert NoMatchBefore(pre[1..] + s, |pre| - 1, m) by {
        forall i | 0 <= i < |pre| - 1 ensures m((pre[1..] + s)[i..]).0 == 0 {
          assert (pre[1..] + s)[i..] == t[i + 1..];
        }
      }
      CopiesUnmatchedPrefix(pre[1..], s, m);
      calc {
        ReplaceAll(t, m);
        [t[0]] + ReplaceAll(t[1..], m);
        [pre[0]] + (pre[1..] + ReplaceAll(s, m));
        { assert [pre[0]] + pre[1..] == pre; }
        pre + ReplaceAll(s, m);
      }
    } else {
      assert pre + s == s;
    }
  }

  /** Every match and every replacement consists of characters of `cls` only. */
  ghost predicate OnlyTouches(m: Matcher, cls: char -> bool) {
    forall x :: 0 < m(x).0 <= |x| ==> AllIn(x[..m(x).0], cls) && AllIn(m(x).1, cls)
  }

  /** The characters of `s` outside the class `cls`, in order. */
  function Outside(s: string, cls: char -> bool): (r: string)
    ensures |r| <= |s|
  {
    if s == [] then [] else (if cls(s[0]) then [] else [s[0]]) + Outside(s[1..], cls)
  }

  lemma {:induction false} OutsideConcat(a: string, b: string, cls: char -> bool)
    ensures Outside(a + b, cls) == Outside(a, cls) + Outside(b, cls)
    decreases |a|
  {
    if a == [] {
      assert a + b == b;
    } else {
      assert (a + b)[0] == a[0];
      assert (a + b)[1..] == a[1..] + b;
      OutsideConcat(a[1..], b, cls);
    }
  }

  lemma {:induction false} OutsideOfClass(s: string, cls: char -> bool)
    requires AllIn(s, cls)
    ensures Outside(s, cls) == []
    decreases |s|
  {
    if s != [] {
      OutsideOfClass(s[1..], cls);
    }
  }

  /**
   * A pattern that matches and inserts only characters of `cls` leaves every
   * other character where it was: the text outside `cls` is unchanged.
   */
  lemma {:induction false} ReplaceAllKeepsOutside(s: string, m: Matcher, cls: char -> bool)
    requires OnlyTouches(m, cls)
    ensures Outside(ReplaceAll(s, m), cls) == Outside(s, cls)
    decreases |s|
  {
    if s != [] {
      var n := m(s).0;
      if 0 < n <= |s| {
        ReplaceAllKeepsOutside(s[n..], m, cls);
        MatchedStepKeepsOutside(s, m, cls);
      } else {
        ReplaceAllKeepsOutside(s[1..], m, cls);
        CopiedStepKeepsOutside(s, m, cls);
      }
    }
  }

  /** One replaced match: what lies outside `cls` is what lies outside it in the rest. */
  lemma MatchedStepKeepsOutside(s: string, m: Matcher, cls: char -> bool)
    requires OnlyTouches(m, cls) && 0 < m(s).0 <= |s|
    requires Outside(ReplaceAll(s[m(s).0..], m), cls) == Outside(s[m(s).0..], cls)
    ensures Outside(ReplaceAll(s, m), cls) == Outside(s, cls)
  {
    var n := m(s).0;
    assert s == s[..n] + s[n..];
    OutsideConcat(s[..n], s[n..], cls);
    OutsideOfClass(s[..n], cls);
    OutsideConcat(m(s).1, ReplaceAll(s[n..], m), cls);
    OutsideOfClass(m(s).1, cls);
  }

  /** One copied character: it is kept or dropped alike on both sides. */
  lemma CopiedStepKeepsOutside(s: string, m: Matcher, cls: char -> bool)
    requires s != [] && !(0 < m(s).0 <= |s|)
    requires Outside(ReplaceAll(s[1..], m), cls) == Outside(s[1..], cls)
    ensures Outside(ReplaceAll(s, m), cls) == Outside(s, cls)
  {
    OutsideConcat([s[0]], ReplaceAll(s[1..], m), cls);
    assert s == [s[0]] + s[1..];
    OutsideConcat([s[0]], s[1..], cls);
  }

  /** A list of rewrites applied one after the other, first to last, as a `for` loop over patterns does. */
  function ApplyAll(s: string, rewrites: seq<string -> string>): string
    decreases |rewrites|
  {
    if rewrites == [] then s
    else rewrites[|rewrites| - 1](ApplyAll(s, rewrites[..|rewrites| - 1]))
  }
}
