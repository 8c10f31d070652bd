/**
 * The regular-expression rewrites of `final_clean_from_markdown`
 * (src/content_processor.rs), each written as the matcher that
 * `Rewrites.ReplaceAll` applies from left to right.
 */
module MarkdownCleanup {
  import opened Text
  import opened Rewrites
  import HttpRegex

  // ---------------------------------------------------------------- tags

  /** `<[^>]+>`: a `<`, one or more characters other than `>`, then `>`. */
  function TagAt(s: string): (nat, string) {
    if s != [] && s[0] == '<' then
      var k := FirstIndexOf(s, '>', 1);
      if 1 < k < |s| then (k + 1, "") else (0, "")
    else (0, "")
  }

  /** Step 1: every HTML tag is deleted. */
  function RemoveTags(s: string): string {
    ReplaceAll(s, TagAt)
  }

  /** No `<`, one or more characters other than `>`, `>` occurs in `r`. */
  predicate TagFree(r: string) {
    forall i, j :: 0 <= i && i + 1 < j < |r| && r[i] == '<' && r[j] == '>' ==> r[i + 1] == '>'
  }

  /** The pattern replaces what it matches with nothing. */
  ghost predicate OnlyDeletes(m: Matcher) {
    forall x :: m(x).1 == []
  }

  /** A deleting rewrite never introduces a character. */
  lemma {:induction false} DeletingKeepsChars(s: string, m: Matcher)
    requires OnlyDeletes(m)
    ensures forall c :: c in ReplaceAll(s, m) ==> c in s
    decreases |s|
  {
    if s != [] {
      var n := m(s).0;
      if 0 < n <= |s| {
        DeletingKeepsChars(s[n..], m);
        assert ReplaceAll(s, m) == ReplaceAll(s[n..], m) by { assert m(s).1 == []; }
        forall c | c in ReplaceAll(s[n..], m) ensures c in s {
          var i :| 0 <= i < |s[n..]| && s[n..][i] == c;
          assert s[n + i] == c;
        }
      } else {
        DeletingKeepsChars(s[1..], m);
        forall c | c in ReplaceAll(s[1..], m) ensures c in s {
          var i :| 0 <= i < |s[1..]| && s[1..][i] == c;
          assert s[1 + i] == c;
        }
      }
    }
  }

  /** After the tag step no tag is left, whatever the input. */
  lemma {:induction false} RemoveTagsLeavesNoTag(s: string)
    ensures TagFree(RemoveTags(s))
    decreases |s|
  {
    if s != [] {
      var n := TagAt(s).0;
      if 0 < n <= |s| {
        RemoveTagsLeavesNoTag(s[n..]);
      } else {
        var rest := RemoveTags(s[1..]);
        var r := RemoveTags(s);
        RemoveTagsLeavesNoTag(s[1..]);
        assert r == [s[0]] + rest;
        if s[0] == '<' && |r| > 2 {
          var k := FirstIndexOf(s, '>', 1);
          if k == 1 {
            assert TagAt(s[1..]).0 == 0;
            assert rest[0] == '>';
          } else {
            assert k == |s|;
            assert '>' !in s[1..];
            assert OnlyDeletes(TagAt);
            DeletingKeepsChars(s[1..], TagAt);
          }
        }
        forall i, j | 0 <= i && i + 1 < j < |r| && r[i] == '<' && r[j] == '>'
          ensures r[i + 1] == '>'
        {
          if i > 0 {
            assert rest[i - 1] == '<' && rest[j - 1] == '>';
          } else {
            assert rest[j - 1] == '>';
          }
        }
      }
    }
  }

  /** Text without `<` passes the tag step unchanged. */
  lemma RemoveTagsKeepsPlainText(s: string)
    requires '<' !in s
    ensures RemoveTags(s) == s
  {
    forall i | 0 <= i < |s| ensures TagAt(s[i..]).0 == 0 {
      assert s[i..][0] == s[i];
    }
    NoMatchUnchanged(s, TagAt);
  }

  // --------------------------------------------------------------- links

  /**
   * `\[([^\]]+)\]\([^)]+\)`: `[`, a caption of one or more characters other
   * than `]`, `](`, a target of one or more characters other than `)`, then
   * `)`. The replacement `$1` is the caption.
   */
  function LinkAt(s: string): (nat, string) {
    if s != [] && s[0] == '[' then
      var j := FirstIndexOf(s, ']', 1);
      if 1 < j && j + 2 < |s| && s[j + 1] == '(' then
        var k := FirstIndexOf(s, ')', j + 2);
        if j + 2 < k < |s| then (k + 1, s[1..j]) else (0, "")
      else (0, "")
    else (0, "")
  }

  /** Step 2: every Markdown link is replaced by its caption. */
  function InlineLinks(s: string): string {
    ReplaceAll(s, LinkAt)
  }

  /** The matcher sees a link at the start of `[caption](target)`. */
  lemma LinkAtLink(caption: string, target: string, post: string)
    requires caption != [] && ']' !in caption
    requires target != [] && ')' !in target
    ensures LinkAt(['['] + caption + [']', '('] + target + [')'] + post)
         == (|caption| + |target| + 4, caption)
  {
    var t := ['['] + caption + [']', '('] + target + [')'] + post;
    var j := FirstIndexOf(t, ']', 1);
    forall x | 1 <= x < |caption| + 1 ensures t[x] != ']' {
      assert t[x] == caption[x - 1];
    }
    assert t[|caption| + 1] == ']';
    assert j == |caption| + 1;
    assert t[j + 1] == '(';
    var k := FirstIndexOf(t, ')', j + 2);
    forall x | j + 2 <= x < j + 2 + |target| ensures t[x] != ')' {
      assert t[x] == target[x - j - 2];
    }
    assert t[j + 2 + |target|] == ')';
    assert k == j + 2 + |target|;
    assert t[1..j] == caption;
  }

  /** No match starts inside a prefix that has no `[`. */
  lemma NoLinkInPrefix(pre: string, rest: string)
    requires '[' !in pre
    ensures NoMatchBefore(pre + rest, |pre|, LinkAt)
  {
    forall i | 0 <= i < |pre| ensures LinkAt((pre + rest)[i..]).0 == 0 {
      assert (pre + rest)[i..][0] == pre[i];
    }
  }

  /** A well-formed link is replaced by its caption; text before it is kept. */
  lemma LinkBecomesLabel(pre: string, caption: string, target: string, post: string)
    requires '[' !in pre
    requires caption != [] && ']' !in caption
    requires target != [] && ')' !in target
    ensures InlineLinks(pre + (['['] + caption + [']', '('] + target + [')'] + post))
         == pre + (caption + InlineLinks(post))
  {
    var link := ['['] + caption + [']', '('] + target + [')'] + post;
    NoLinkInPrefix(pre, link);
    CopiesUnmatchedPrefix(pre, link, LinkAt);
    LinkAtLink(caption, target, post);
    assert link[|caption| + |target| + 4..] == post;
  }

  /** Text without `[` passes the link step unchanged. */
  lemma InlineLinksKeepsPlainText(s: string)
    requires '[' !in s
    ensures InlineLinks(s) == s
  {
    NoLinkInPrefix(s, []);
    assert s + [] == s;
    NoMatchUnchanged(s, LinkAt);
  }

  // ---------------------------------------------------------------- URLs

  predicate NotWhitespace(c: char) {
    !IsWhitespace(c)
  }

  /** `https?://[^\s]+`: a scheme and the run of non-white-space after it. */
  function BareUrlAt(s: string): (nat, string) {
    var n := HttpRegex.SchemeLen(s);
    if 0 < n < |s| && !IsWhitespace(s[n]) then (RunEnd(s, n, NotWhitespace), "") else (0, "")
  }

  /** Step 3: every bare URL is deleted. */
  function RemoveBareUrls(s: string): string {
    ReplaceAll(s, BareUrlAt)
  }

  /** Every `http://` or `https://` in `r` is followed by white space or ends `r`. */
  predicate NoBareUrl(r: string) {
    forall i :: 0 <= i < |r| ==> BareUrlAt(r[i..]).0 == 0
  }

  /**
   * The URL matcher reads the scheme and one character after it; a string
   * that agrees on those characters matches too.
   */
  lemma BareUrlNeedsPrefix(a: string, b: string)
    requires BareUrlAt(a).0 > 0
    requires HttpRegex.SchemeLen(a) < |b| && a[..HttpRegex.SchemeLen(a) + 1] == b[..HttpRegex.SchemeLen(a) + 1]
    ensures BareUrlAt(b).0 > 0
  {
    var n := HttpRegex.SchemeLen(a);
    assert forall x :: 0 <= x <= n ==> a[x] == b[x] by {
      forall x | 0 <= x <= n ensures a[x] == b[x] {
        assert a[..n + 1][x] == b[..n + 1][x];
      }
    }
  }

  /** A scheme consists of non-white-space characters. */
  lemma SchemeIsSolid(s: string)
    requires HttpRegex.SchemeLen(s) > 0
    ensures forall x :: 0 <= x < HttpRegex.SchemeLen(s) ==> !IsWhitespace(s[x])
  {
  }

  /** A deleted URL is followed by white space, which the output then begins with. */
  lemma DeletionStopsAtWhitespace(s: string)
    requires s != [] && BareUrlAt(s).0 > 0
    ensures var r := RemoveBareUrls(s); r == [] || IsWhitespace(r[0])
  {
    var n := BareUrlAt(s).0;
    var t := s[n..];
    assert RemoveBareUrls(s) == RemoveBareUrls(t);
    if t != [] {
      assert IsWhitespace(t[0]);
      assert HttpRegex.SchemeLen(t) == 0;
      assert RemoveBareUrls(t)[0] == t[0];
    }
  }

  /**
   * The output of the URL step agrees with its input up to its first white
   * space: a deletion always stops at white space or at the end.
   */
  lemma {:induction false} SolidPrefixKept(s: string, k: nat)
    requires k <= |RemoveBareUrls(s)|
    requires forall x :: 0 <= x < k ==> !IsWhitespace(RemoveBareUrls(s)[x])
    ensures k <= |s| && RemoveBareUrls(s)[..k] == s[..k]
    decreases |s|
  {
    var r := RemoveBareUrls(s);
    if s != [] && k > 0 {
      var n := BareUrlAt(s).0;
      if 0 < n <= |s| {
        DeletionStopsAtWhitespace(s);
        assert false;
      } else {
        var rest := RemoveBareUrls(s[1..]);
        assert r == [s[0]] + rest;
        forall x | 0 <= x < k - 1 ensures !IsWhitespace(rest[x]) {
          assert rest[x] == r[x + 1];
        }
        SolidPrefixKept(s[1..], k - 1);
        assert r[..k] == [s[0]] + rest[..k - 1];
        assert s[..k] == [s[0]] + s[1..][..k - 1];
      }
    }
  }

  /** After the URL step no scheme is followed by a non-white-space character. */
  lemma {:induction false} RemoveBareUrlsLeavesNone(s: string)
    ensures NoBareUrl(RemoveBareUrls(s))
    decreases |s|
  {
    var r := RemoveBareUrls(s);
    if s != [] {
      var n := BareUrlAt(s).0;
      if 0 < n <= |s| {
        assert r == RemoveBareUrls(s[n..]);
        RemoveBareUrlsLeavesNone(s[n..]);
      } else {
        var rest := RemoveBareUrls(s[1..]);
        assert r == [s[0]] + rest;
        RemoveBareUrlsLeavesNone(s[1..]);
        forall i | 0 <= i < |r| ensures BareUrlAt(r[i..]).0 == 0 {
          if i > 0 {
            assert r[i..] == rest[i - 1..];
          } else if BareUrlAt(r).0 > 0 {
            var m := HttpRegex.SchemeLen(r);
            SchemeIsSolid(r);
            SolidPrefixKept(s, m + 1);
            BareUrlNeedsPrefix(r, s);
            assert false;
          }
        }
      }
    }
  }

  // --------------------------------------------------------- code blocks

  /** Three backticks start at index `k` of `s`. */
  predicate FenceStart(s: string, k: nat) {
    k + 3 <= |s| && s[k] == '`' && s[k + 1] == '`' && s[k + 2] == '`'
  }

  /** The first fence at or after index `j`, or `|s|` when there is none. */
  function NextFence(s: string, j: nat): (k: nat)
    requires j <= |s|
    ensures j <= k <= |s|
    ensures k < |s| ==> FenceStart(s, k)
    ensures forall x :: j <= x < k ==> !FenceStart(s, x)
    decreases |s| - j
  {
    if j + 3 > |s| then |s| else if FenceStart(s, j) then j else NextFence(s, j + 1)
  }

  /**
   * "```[\s\S]*?```": a fence, then the shortest stretch of any characters
   * that reaches another fence, and that fence.
   */
  function CodeBlockAt(s: string): (nat, string) {
    if FenceStart(s, 0) then
      var k := NextFence(s, 3);
      if k < |s| then (k + 3, "") else (0, "")
    else (0, "")
  }

  /** Step 4: every fenced code block is deleted. */
  function RemoveCodeBlocks(s: string): string {
    ReplaceAll(s, CodeBlockAt)
  }

  const Fence: string := ['`', '`', '`']

  /** No match starts inside a prefix that has no backtick. */
  lemma NoCodeBlockInPrefix(pre: string, rest: string)
    requires '`' !in pre
    ensures NoMatchBefore(pre + rest, |pre|, CodeBlockAt)
  {
    forall i | 0 <= i < |pre| ensures CodeBlockAt((pre + rest)[i..]).0 == 0 {
      assert (pre + rest)[i..][0] == pre[i];
    }
  }

  /** The matcher closes a block at the first fence after the opening one. */
  lemma CodeBlockAtBlock(body: string, post: string)
    requires '`' !in body
    ensures CodeBlockAt(Fence + body + Fence + post) == (|body| + 6, "")
  {
    var t := Fence + body + Fence + post;
    assert FenceStart(t, 0);
    forall x | 3 <= x < |body| + 3 ensures !FenceStart(t, x) {
      assert t[x] == body[x - 3];
    }
    assert FenceStart(t, |body| + 3);
    assert NextFence(t, 3) == |body| + 3;
  }

  /** A fenced block whose body has no backtick is deleted with its fences. */
  lemma CodeBlockRemoved(pre: string, body: string, post: string)
    requires '`' !in pre && '`' !in body
    ensures RemoveCodeBlocks(pre + (Fence + body + Fence + post)) == pre + RemoveCodeBlocks(post)
  {
    var block := Fence + body + Fence + post;
    NoCodeBlockInPrefix(pre, block);
    CopiesUnmatchedPrefix(pre, block, CodeBlockAt);
    CodeBlockAtBlock(body, post);
    assert block[|body| + 6..] == post;
  }

  /** Text without a backtick passes the code-block step unchanged. */
  lemma RemoveCodeBlocksKeepsPlainText(s: string)
    requires '`' !in s
    ensures RemoveCodeBlocks(s) == s
  {
    NoCodeBlockInPrefix(s, []);
    assert s + [] == s;
    NoMatchUnchanged(s, CodeBlockAt);
  }

  // ---------------------------------------------------------------- runs

  /** A run of at least `min` characters of `cls`, replaced by `rep`. */
  function RunAt(s: string, cls: char -> bool, min: nat, rep: string): (nat, string) {
    if s != [] && cls(s[0]) && RunEnd(s, 0, cls) >= min then (RunEnd(s, 0, cls), rep) else (0, "")
  }

  /** No run of characters of `cls` in `r` is longer than `m`. */
  predicate RunsAtMost(r: string, cls: char -> bool, m: nat) {
    forall i :: 0 <= i <= |r| ==> RunEnd(r, i, cls) <= i + m
  }

  /** Runs in the second half of a concatenation are the runs of that half. */
  lemma RunsShift(a: string, b: string, cls: char -> bool)
    ensures forall i :: 0 <= i <= |b| ==> RunEnd(a + b, |a| + i, cls) == |a| + RunEnd(b, i, cls)
  {
    forall i | 0 <= i <= |b| ensures RunEnd(a + b, |a| + i, cls) == |a| + RunEnd(b, i, cls) {
      var k := RunEnd(b, i, cls);
      forall x | |a| + i <= x < |a| + k ensures cls((a + b)[x]) {
        assert (a + b)[x] == b[x - |a|];
      }
      RunEndIs(a + b, |a| + i, |a| + k, cls);
    }
  }

  /** A short run of `cls` in front of text that does not continue it. */
  lemma JoinRuns(a: string, b: string, cls: char -> bool, m: nat)
    requires AllIn(a, cls) && |a| <= m
    requires b == [] || !cls(b[0])
    requires RunsAtMost(b, cls, m)
    ensures RunsAtMost(a + b, cls, m)
  {
    RunsShift(a, b, cls);
    forall i | 0 <= i <= |a + b| ensures RunEnd(a + b, i, cls) <= i + m {
      if i < |a| {
        RunEndIs(a + b, i, |a|, cls);
      } else {
        assert RunEnd(a + b, |a| + (i - |a|), cls) == |a| + RunEnd(b, i - |a|, cls);
      }
    }
  }

  /** Text that starts outside `cls` does not extend a run. */
  lemma ConsOutside(c: char, b: string, cls: char -> bool, m: nat)
    requires !cls(c)
    requires RunsAtMost(b, cls, m)
    ensures RunsAtMost([c] + b, cls, m)
  {
    RunsShift([c], b, cls);
    forall i | 0 <= i <= |[c] + b| ensures RunEnd([c] + b, i, cls) <= i + m {
      if i == 0 {
        RunEndIs([c] + b, 0, 0, cls);
      } else {
        assert RunEnd([c] + b, 1 + (i - 1), cls) == 1 + RunEnd(b, i - 1, cls);
      }
    }
  }

  /** Inside a run shorter than `min` no match starts. */
  lemma ShortRunUnmatched(s: string, mt: Matcher, cls: char -> bool, min: nat, rep: string)
    requires forall x :: mt(x) == RunAt(x, cls, min, rep)
    requires RunEnd(s, 0, cls) < min
    ensures NoMatchBefore(s, RunEnd(s, 0, cls), mt)
  {
    var e := RunEnd(s, 0, cls);
    forall i | 0 <= i < e ensures mt(s[i..]).0 == 0 {
      forall x | 0 <= x < e - i ensures cls(s[i..][x]) {
        assert s[i..][x] == s[i + x];
      }
      RunEndIs(s[i..], 0, e - i, cls);
    }
  }

  /**
   * Replacing every run of at least `min` characters of `cls` by `rep` leaves
   * no run longer than the longer of `min - 1` and `|rep|`.
   */
  lemma {:induction false} CollapsedRunsBounded(s: string, mt: Matcher, cls: char -> bool,
                                                 min: nat, rep: string, bound: nat)
    requires forall x :: mt(x) == RunAt(x, cls, min, rep)
    requires 1 <= min <= bound + 1 && |rep| <= bound && AllIn(rep, cls)
    ensures RunsAtMost(ReplaceAll(s, mt), cls, bound)
    decreases |s|
  {
    var r := ReplaceAll(s, mt);
    if s == [] {
      assert RunEnd(r, 0, cls) == 0;
    } else if !cls(s[0]) {
      assert mt(s).0 == 0;
      assert r == [s[0]] + ReplaceAll(s[1..], mt);
      CollapsedRunsBounded(s[1..], mt, cls, min, rep, bound);
      ConsOutside(s[0], ReplaceAll(s[1..], mt), cls, bound);
    } else {
      var e := RunEnd(s, 0, cls);
      var b := ReplaceAll(s[e..], mt);
      CollapsedRunsBounded(s[e..], mt, cls, min, rep, bound);
      if e < |s| {
        assert mt(s[e..]).0 == 0;
        assert b[0] == s[e];
      }
      if e >= min {
        assert r == rep + b;
        JoinRuns(rep, b, cls, bound);
      } else {
        ShortRunUnmatched(s, mt, cls, min, rep);
        assert s == s[..e] + s[e..];
        CopiesUnmatchedPrefix(s[..e], s[e..], mt);
        JoinRuns(s[..e], b, cls, bound);
      }
    }
  }

  /** Runs of the suffix are runs of the whole. */
  lemma RunsOfSuffix(s: string, k: nat, cls: char -> bool, m: nat)
    requires k <= |s| && RunsAtMost(s, cls, m)
    ensures RunsAtMost(s[k..], cls, m)
  {
    assert s == s[..k] + s[k..];
    RunsShift(s[..k], s[k..], cls);
    forall i | 0 <= i <= |s[k..]| ensures RunEnd(s[k..], i, cls) <= i + m {
      assert RunEnd(s, k + i, cls) == k + RunEnd(s[k..], i, cls);
    }
  }

  /** Characters outside `other` in front of text keep its runs of `other`. */
  lemma PrefixOutside(a: string, b: string, other: char -> bool, m: nat)
    requires forall x :: 0 <= x < |a| ==> !other(a[x])
    requires RunsAtMost(b, other, m)
    ensures RunsAtMost(a + b, other, m)
  {
    RunsShift(a, b, other);
    forall i | 0 <= i <= |a + b| ensures RunEnd(a + b, i, other) <= i + m {
      if i < |a| {
        RunEndIs(a + b, i, i, other);
      } else {
        assert RunEnd(a + b, |a| + (i - |a|), other) == |a| + RunEnd(b, i - |a|, other);
      }
    }
  }

  /**
   * Collapsing runs of `cls` into a non-empty run of `cls` never lengthens the
   * run of a disjoint class `other` at the start of the text.
   */
  lemma {:induction false} LeadingRunNoLonger(t: string, mt: Matcher, cls: char -> bool, min: nat,
                                              rep: string, other: char -> bool)
    requires forall x :: mt(x) == RunAt(x, cls, min, rep)
    requires forall c :: cls(c) ==> !other(c)
    requires rep != [] && AllIn(rep, cls)
    ensures RunEnd(ReplaceAll(t, mt), 0, other) <= RunEnd(t, 0, other)
    decreases |t|
  {
    var r := ReplaceAll(t, mt);
    if t != [] {
      if 0 < mt(t).0 <= |t| {
        assert r[0] == rep[0];
        RunEndIs(r, 0, 0, other);
      } else if other(t[0]) {
        assert r == [t[0]] + ReplaceAll(t[1..], mt);
        LeadingRunNoLonger(t[1..], mt, cls, min, rep, other);
        RunsShift([t[0]], ReplaceAll(t[1..], mt), other);
        RunsShift([t[0]], t[1..], other);
        assert t == [t[0]] + t[1..];
        RunEndIs(r, 0, 1 + RunEnd(ReplaceAll(t[1..], mt), 0, other), other);
        RunEndIs(t, 0, 1 + RunEnd(t[1..], 0, other), other);
      } else {
        assert r[0] == t[0];
        RunEndIs(r, 0, 0, other);
      }
    }
  }

  /** A run of `other` at the front adds at most its own length to the first run. */
  lemma ConsOther(c: char, b: string, t: string, other: char -> bool, m: nat)
    requires other(c)
    requires RunsAtMost(b, other, m)
    requires RunEnd(b, 0, other) <= RunEnd(t, 0, other)
    requires RunEnd([c] + t, 0, other) <= m
    ensures RunsAtMost([c] + b, other, m)
  {
    RunsShift([c], b, other);
    RunsShift([c], t, other);
    RunEndIs([c] + b, 0, 1 + RunEnd(b, 0, other), other);
    RunEndIs([c] + t, 0, 1 + RunEnd(t, 0, other), other);
    forall i | 0 <= i <= |[c] + b| ensures RunEnd([c] + b, i, other) <= i + m {
      if i > 0 {
        assert RunEnd([c] + b, 1 + (i - 1), other) == 1 + RunEnd(b, i - 1, other);
      }
    }
  }

  /**
   * A leading run of `cls` becomes `rep` when it is long enough and is copied
   * otherwise; either way what follows is rewritten on its own.
   */
  lemma RunReplacedOrCopied(s: string, mt: Matcher, cls: char -> bool, min: nat, rep: string)
    requires forall x :: mt(x) == RunAt(x, cls, min, rep)
    requires s != [] && cls(s[0])
    ensures var e := RunEnd(s, 0, cls);
            ReplaceAll(s, mt) == (if e >= min then rep else s[..e]) + ReplaceAll(s[e..], mt)
  {
    var e := RunEnd(s, 0, cls);
    if e < min {
      ShortRunUnmatched(s, mt, cls, min, rep);
      assert s == s[..e] + s[e..];
      CopiesUnmatchedPrefix(s[..e], s[e..], mt);
    }
  }

  /**
   * Collapsing runs of `cls` into a non-empty run of `cls` keeps the bound on
   * the runs of a disjoint class `other`.
   */
  lemma {:induction false} CollapseKeepsOtherRuns(s: string, mt: Matcher, cls: char -> bool, min: nat,
                                                  rep: string, other: char -> bool, m: nat)
    requires forall x :: mt(x) == RunAt(x, cls, min, rep)
    requires forall c :: cls(c) ==> !other(c)
    requires rep != [] && AllIn(rep, cls) && 1 <= min
    requires RunsAtMost(s, other, m)
    ensures RunsAtMost(ReplaceAll(s, mt), other, m)
    decreases |s|
  {
    var r := ReplaceAll(s, mt);
    if s == [] {
      assert RunEnd(r, 0, other) == 0;
    } else if cls(s[0]) {
      var e := RunEnd(s, 0, cls);
      RunsOfSuffix(s, e, other, m);
      CollapseKeepsOtherRuns(s[e..], mt, cls, min, rep, other, m);
      RunReplacedOrCopied(s, mt, cls, min, rep);
      PrefixOutside(r[..|r| - |ReplaceAll(s[e..], mt)|], ReplaceAll(s[e..], mt), other, m);
    } else {
      var b := ReplaceAll(s[1..], mt);
      assert mt(s).0 == 0;
      assert r == [s[0]] + b;
      RunsOfSuffix(s, 1, other, m);
      CollapseKeepsOtherRuns(s[1..], mt, cls, min, rep, other, m);
      if other(s[0]) {
        LeadingRunNoLonger(s[1..], mt, cls, min, rep, other);
        assert s == [s[0]] + s[1..];
        ConsOther(s[0], b, s[1..], other, m);
      } else {
        PrefixOutside([s[0]], b, other, m);
      }
    }
  }

  // ------------------------------------------------- the three collapses

  predicate IsBlank(c: char) {
    c == ' ' || c == '\t'
  }

  predicate IsNewline(c: char) {
    c == '\n'
  }

  /** `[ \t]+`, replaced by one space. */
  function BlanksAt(s: string): (nat, string) {
    RunAt(s, IsBlank, 1, " ")
  }

  /** `\n{3,}`, replaced by two newlines. */
  function BlankLineRunAt(s: string): (nat, string) {
    RunAt(s, IsNewline, 3, "\n\n")
  }

  /** `\n{4,}`, replaced by three newlines. */
  function ExcessNewlinesAt(s: string): (nat, string) {
    RunAt(s, IsNewline, 4, "\n\n\n")
  }

  /** Step 5: every run of spaces and tabs becomes one space. */
  function CollapseBlanks(s: string): string {
    ReplaceAll(s, BlanksAt)
  }

  /** Step 6: every run of three or more newlines becomes two. */
  function CollapseNewlines(s: string): string {
    ReplaceAll(s, BlankLineRunAt)
  }

  /** Step 10: every run of four or more newlines becomes three. */
  function CapNewlines(s: string): string {
    ReplaceAll(s, ExcessNewlinesAt)
  }

  /** After step 5 no two neighbouring characters are both spaces or tabs. */
  lemma CollapseBlanksSingleBlanks(s: string)
    ensures RunsAtMost(CollapseBlanks(s), IsBlank, 1)
  {
    assert AllIn(" ", IsBlank);
    CollapsedRunsBounded(s, BlanksAt, IsBlank, 1, " ", 1);
  }

  /** After step 6 no three newlines follow each other. */
  lemma CollapseNewlinesAtMostTwo(s: string)
    ensures RunsAtMost(CollapseNewlines(s), IsNewline, 2)
  {
    assert AllIn("\n\n", IsNewline);
    CollapsedRunsBounded(s, BlankLineRunAt, IsNewline, 3, "\n\n", 2);
  }

  /** After step 10 no four newlines follow each other. */
  lemma CapNewlinesAtMostThree(s: string)
    ensures RunsAtMost(CapNewlines(s), IsNewline, 3)
  {
    assert AllIn("\n\n\n", IsNewline);
    CollapsedRunsBounded(s, ExcessNewlinesAt, IsNewline, 4, "\n\n\n", 3);
  }

  /** Step 6 keeps what step 5 established: still no two neighbouring blanks. */
  lemma CollapseNewlinesKeepsSingleBlanks(s: string)
    requires RunsAtMost(s, IsBlank, 1)
    ensures RunsAtMost(CollapseNewlines(s), IsBlank, 1)
  {
    assert AllIn("\n\n", IsNewline);
    CollapseKeepsOtherRuns(s, BlankLineRunAt, IsNewline, 3, "\n\n", IsBlank, 1);
  }

  /** A run collapse inside a class of white space matches and inserts white space only. */
  lemma RunAtTouchesWhitespace(mt: Matcher, cls: char -> bool, min: nat, rep: string)
    requires forall x :: mt(x) == RunAt(x, cls, min, rep)
    requires forall c :: cls(c) ==> IsWhitespace(c)
    requires AllIn(rep, cls)
    ensures OnlyTouches(mt, IsWhitespace)
  {
  }

  /** Step 5 changes white space only: the other characters stay as they were. */
  lemma CollapseBlanksKeepsText(s: string)
    ensures Outside(CollapseBlanks(s), IsWhitespace) == Outside(s, IsWhitespace)
  {
    assert AllIn(" ", IsBlank);
    RunAtTouchesWhitespace(BlanksAt, IsBlank, 1, " ");
    ReplaceAllKeepsOutside(s, BlanksAt, IsWhitespace);
  }

  /** Step 6 changes white space only. */
  lemma CollapseNewlinesKeepsText(s: string)
    ensures Outside(CollapseNewlines(s), IsWhitespace) == Outside(s, IsWhitespace)
  {
    assert AllIn("\n\n", IsNewline);
    RunAtTouchesWhitespace(BlankLineRunAt, IsNewline, 3, "\n\n");
    ReplaceAllKeepsOutside(s, BlankLineRunAt, IsWhitespace);
  }

  /** Step 10 changes white space only. */
  lemma CapNewlinesKeepsText(s: string)
    ensures Outside(CapNewlines(s), IsWhitespace) == Outside(s, IsWhitespace)
  {
    assert AllIn("\n\n\n", IsNewline);
    RunAtTouchesWhitespace(ExcessNewlinesAt, IsNewline, 4, "\n\n\n");
    ReplaceAllKeepsOutside(s, ExcessNewlinesAt, IsWhitespace);
  }

  // --------------------------------------------------------- blank lines

  /** The last index below `hi` at which `c` occurs in `s`, or -1. */
  function LastIndexBefore(s: string, c: char, hi: nat): (k: int)
    requires hi <= |s|
    ensures -1 <= k < hi
    ensures k >= 0 ==> s[k] == c
    ensures forall x :: k < x < hi ==> s[x] != c
    decreases hi
  {
    if hi == 0 then -1 else if s[hi - 1] == c then hi - 1 else LastIndexBefore(s, c, hi - 1)
  }

  /**
   * `\n\s*\n\s*\n`, replaced by two newlines. From a newline the greedy
   * `\s*` runs to the end of the white space and gives back characters
   * until two more newlines fit, so the match ends at the last newline of
   * the run and needs two newlines after the first.
   */
  function BlankLinesAt(s: string): (nat, string) {
    if s != [] && s[0] == '\n' then
      var w := RunEnd(s, 1, IsWhitespace);
      var last := LastIndexBefore(s, '\n', w);
      if last >= 1 && LastIndexBefore(s, '\n', last) >= 1 then (last + 1, "\n\n") else (0, "")
    else (0, "")
  }

  /** Step 8: every stretch of white space holding three or more newlines shrinks to two newlines. */
  function CollapseBlankLines(s: string): string {
    ReplaceAll(s, BlankLinesAt)
  }

  /** The match is three newlines apart from white space and ends at a newline. */
  lemma BlankLinesAtShape(s: string)
    requires BlankLinesAt(s).0 > 0
    ensures var n := BlankLinesAt(s).0;
            3 <= n <= |s| && AllIn(s[..n], IsWhitespace) && s[0] == '\n' && s[n - 1] == '\n'
            && exists j :: 0 < j < n - 1 && s[j] == '\n'
  {
    var w := RunEnd(s, 1, IsWhitespace);
    var last := LastIndexBefore(s, '\n', w);
    var mid := LastIndexBefore(s, '\n', last);
    assert 0 < mid < last;
  }

  /** Step 8 changes white space only: the other characters stay as they were. */
  lemma CollapseBlankLinesKeepsText(s: string)
    ensures Outside(CollapseBlankLines(s), IsWhitespace) == Outside(s, IsWhitespace)
  {
    forall x | 0 < BlankLinesAt(x).0 <= |x|
      ensures AllIn(x[..BlankLinesAt(x).0], IsWhitespace) && AllIn(BlankLinesAt(x).1, IsWhitespace)
    {
      BlankLinesAtShape(x);
    }
    ReplaceAllKeepsOutside(s, BlankLinesAt, IsWhitespace);
  }

  /**
   * Three line breaks with only spaces or tabs between them, before the next
   * visible character, become two line breaks.
   */
  lemma BlankLineGapCollapses(a: string, b: string, post: string)
    requires AllIn(a, IsBlank) && AllIn(b, IsBlank)
    requires post == [] || !IsWhitespace(post[0])
    ensures CollapseBlankLines(['\n'] + a + ['\n'] + b + ['\n'] + post) == "\n\n" + CollapseBlankLines(post)
  {
    var gap := ['\n'] + a + ['\n'] + b + ['\n'];
    var s := gap + post;
    assert s == ['\n'] + a + ['\n'] + b + ['\n'] + post;
    forall x | 1 <= x < |gap| ensures IsWhitespace(s[x]) {
      if x <= |a| { assert s[x] == a[x - 1]; }
      else if |a| + 1 < x < |a| + 2 + |b| { assert s[x] == b[x - |a| - 2]; }
    }
    RunEndIs(s, 1, |gap|, IsWhitespace);
    forall x | |a| + 1 < x < |gap| - 1 ensures s[x] != '\n' {
      assert s[x] == b[x - |a| - 2];
    }
    assert LastIndexBefore(s, '\n', |gap|) == |gap| - 1;
    assert s[|a| + 1] == '\n';
    assert LastIndexBefore(s, '\n', |gap| - 1) >= 1;
    assert s[|gap|..] == post;
  }

  // ------------------------------------------------------------ together

  /** Runs of a prefix are no longer than runs of the whole. */
  lemma RunsOfPrefix(s: string, n: nat, cls: char -> bool, m: nat)
    requires n <= |s| && RunsAtMost(s, cls, m)
    ensures RunsAtMost(s[..n], cls, m)
  {
    forall i | 0 <= i <= n ensures RunEnd(s[..n], i, cls) <= i + m {
      var k := RunEnd(s, i, cls);
      var k' := if k < n then k else n;
      forall x | i <= x < k' ensures cls(s[..n][x]) {
        assert s[..n][x] == s[x];
      }
      RunEndIs(s[..n], i, k', cls);
    }
  }

  /** Trimming cannot lengthen a run. */
  lemma RunsOfTrim(s: string, cls: char -> bool, m: nat)
    requires RunsAtMost(s, cls, m)
    ensures RunsAtMost(Trim(s), cls, m)
  {
    var e := |TrimEnd(s)|;
    var r := Trim(s);
    RunsOfPrefix(s, e, cls, m);
    RunsOfSuffix(s[..e], e - |r|, cls, m);
    assert s[..e][e - |r|..] == r;
  }

  /** Steps 5 and 6 together: single blanks and at most two newlines in a row. */
  lemma CollapseStepsTidy(s: string)
    ensures var x := CollapseNewlines(CollapseBlanks(s));
            RunsAtMost(x, IsBlank, 1) && RunsAtMost(x, IsNewline, 2)
  {
    CollapseBlanksSingleBlanks(s);
    CollapseNewlinesKeepsSingleBlanks(CollapseBlanks(s));
    CollapseNewlinesAtMostTwo(CollapseBlanks(s));
  }
}
