/**
 * The URL pattern of src/http_regex.rs,
 *   https?://[a-zA-Z0-9._/%+()-]+(?:/[a-zA-Z0-9._/%+()-]*)*(?:\?[a-zA-Z0-9._/%+()=&-]*)?
 * re-expressed as a deterministic scanner, together with an independent
 * description of the language the pattern denotes.
 *
 * The group `(?:/...)*` adds nothing to the language, because `/` is already a
 * path character. Under the regex crate's leftmost-first semantics the greedy
 * path run and the greedy optional query make the match at a position the
 * LONGEST prefix in the language (MatchLenIsLongest), and `find_iter` reports
 * the leftmost such matches without overlap (FindIter).
 */
module HttpRegex {
  import opened Wrappers
  import opened Text

  /** `[a-zA-Z0-9._/%+()-]`: the characters of a URL path. */
  predicate IsPathChar(c: char) {
    ('a' <= c <= 'z') || ('A' <= c <= 'Z') || ('0' <= c <= '9') ||
    c == '.' || c == '_' || c == '/' || c == '%' || c == '+' || c == '(' || c == ')' || c == '-'
  }

  /** `[a-zA-Z0-9._/%+()=&-]`: the characters of a query string. */
  predicate IsQueryChar(c: char) {
    IsPathChar(c) || c == '=' || c == '&'
  }

  predicate IsScheme(s: string) {
    s == "http://" || s == "https://"
  }

  /**
   * The language of the pattern: a scheme, a non-empty path run and an optional
   * `?` with a (possibly empty) query run. `i` ends the scheme, `j` ends the path.
   */
  ghost predicate InLanguage(m: string) {
    exists i, j :: 0 <= i < j <= |m| && IsScheme(m[..i]) && AllIn(m[i..j], IsPathChar) &&
      (j == |m| || (m[j] == '?' && AllIn(m[j + 1..], IsQueryChar)))
  }

  /** No prefix of `t` is in the language: no match can start here. */
  ghost predicate NoMatch(t: string) {
    forall n :: 0 <= n <= |t| ==> !InLanguage(t[..n])
  }

  /** `t[..n]` is the longest prefix of `t` in the language. */
  ghost predicate LongestMatch(t: string, n: nat) {
    n <= |t| && InLanguage(t[..n]) && forall n' :: n < n' <= |t| ==> !InLanguage(t[..n'])
  }

  /** `t` begins with `http` followed by `://`, or by `s://` when `secure` holds. */
  predicate SchemeAt(t: string, secure: bool) {
    var n := if secure then 8 else 7;
    n <= |t| && t[0] == 'h' && t[1] == 't' && t[2] == 't' && t[3] == 'p' &&
    (secure ==> t[4] == 's') && t[n - 3] == ':' && t[n - 2] == '/' && t[n - 1] == '/'
  }

  /** Length of the scheme `https?://` at the start of `t`, or 0 when there is none. */
  function SchemeLen(t: string): (n: nat)
    ensures n == 0 || n == 7 || n == 8
    ensures n != 0 ==> n <= |t| && IsScheme(t[..n])
  {
    if SchemeAt(t, true) then
      assert t[..8] == "https://";
      8
    else if SchemeAt(t, false) then
      assert t[..7] == "http://";
      7
    else 0
  }

  /**
   * The length of the match that starts at the beginning of `t`, if any: the
   * scheme, the greedy path run (at least one character) and, when a `?`
   * follows, the `?` and the greedy query run.
   */
  function MatchLen(t: string): (r: Option<nat>)
    ensures r.Some? ==> SchemeLen(t) < r.value <= |t|
  {
    var s := SchemeLen(t);
    if s == 0 then None
    else
      var p := RunEnd(t, s, IsPathChar);
      if p == s then None
      else if p < |t| && t[p] == '?' then Some(RunEnd(t, p + 1, IsQueryChar))
      else Some(p)
  }

  /** Only one scheme can start a string: `http://` and `https://` differ at index 4. */
  lemma SchemeUnique(t: string, i: nat)
    requires i <= |t| && IsScheme(t[..i])
    ensures i == SchemeLen(t)
  {
    assert t[..i][4] == t[4];
    if i == 7 { assert t[..7] == "http://"; } else { assert t[..8] == "https://"; }
  }

  /**
   * The scanner agrees with the language: it finds the longest prefix of `t`
   * in the language, and it finds nothing exactly when no prefix is in it.
   */
  lemma MatchLenIsLongest(t: string)
    ensures MatchLen(t).Some? ==> LongestMatch(t, MatchLen(t).value)
    ensures MatchLen(t).None? <==> NoMatch(t)
  {
    forall n | 0 <= n <= |t| && InLanguage(t[..n])
      ensures MatchLen(t).Some? && n <= MatchLen(t).value
    {
      PrefixWithinMatch(t, n);
    }
    if MatchLen(t).Some? {
      MatchInLanguage(t);
    }
  }

  /** The scheme end and path end of a string in the language. */
  lemma LanguageSplit(m: string) returns (i: nat, j: nat)
    requires InLanguage(m)
    ensures 0 <= i < j <= |m| && IsScheme(m[..i]) && AllIn(m[i..j], IsPathChar)
    ensures j == |m| || (m[j] == '?' && AllIn(m[j + 1..], IsQueryChar))
  {
    i, j :| 0 <= i < j <= |m| && IsScheme(m[..i]) && AllIn(m[i..j], IsPathChar) &&
      (j == |m| || (m[j] == '?' && AllIn(m[j + 1..], IsQueryChar)));
  }

  /** The match the scanner returns is in the language. */
  lemma MatchInLanguage(t: string)
    requires MatchLen(t).Some?
    ensures InLanguage(t[..MatchLen(t).value])
  {
    var s := SchemeLen(t);
    var p := RunEnd(t, s, IsPathChar);
    var e := MatchLen(t).value;
    var m := t[..e];
    assert m[..s] == t[..s];
    forall k | 0 <= k < p - s ensures IsPathChar(m[s..p][k]) {
      assert m[s..p][k] == t[s + k];
    }
    if e != p {
      var query := m[p + 1..];
      forall k | 0 <= k < |query| ensures IsQueryChar(query[k]) {
        assert query[k] == t[p + 1 + k];
      }
    }
  }

  /** Every prefix of `t` in the language ends within the match the scanner returns. */
  lemma PrefixWithinMatch(t: string, n: nat)
    requires n <= |t| && InLanguage(t[..n])
    ensures MatchLen(t).Some? && n <= MatchLen(t).value
  {
    var m := t[..n];
    var i, j := LanguageSplit(m);
    assert m[..i] == t[..i];
    SchemeUnique(t, i);
    var p := RunEnd(t, i, IsPathChar);
    PathWithinRun(t, m, i, j, p);
    if j < n {
      assert t[j] == '?';
      var q := RunEnd(t, p + 1, IsQueryChar);
      QueryWithinRun(t, m, p + 1, q);
    }
  }

  /** A path that follows the scheme cannot run past the maximal path run. */
  lemma PathWithinRun(t: string, m: string, s: nat, j: nat, p: nat)
    requires s < j <= |m| <= |t| && m == t[..|m|] && s <= p <= |t|
    requires AllIn(m[s..j], IsPathChar)
    requires forall x :: s <= x < p ==> IsPathChar(t[x])
    requires p == |t| || !IsPathChar(t[p])
    ensures j <= p && s < p
    ensures j < |m| && !IsPathChar(m[j]) ==> j == p
  {
    forall k | s <= k < j ensures IsPathChar(t[k]) {
      assert t[k] == m[s..j][k - s];
    }
  }

  /** A query that follows the `?` cannot run past the maximal query run. */
  lemma QueryWithinRun(t: string, m: string, a: nat, q: nat)
    requires a <= |m| <= |t| && m == t[..|m|] && a <= q <= |t|
    requires AllIn(m[a..], IsQueryChar)
    requires q == |t| || !IsQueryChar(t[q])
    ensures |m| <= q
  {
    forall k | a <= k < |m| ensures IsQueryChar(t[k]) {
      assert t[k] == m[a..][k - a];
    }
  }

  /**
   * The match ends where neither class can continue it: without a query the
   * next character is neither a path character nor `?`; with a query it is
   * not a query character.
   */
  lemma MatchIsMaximal(t: string)
    requires MatchLen(t).Some? && MatchLen(t).value < |t|
    ensures var n := MatchLen(t).value;
      if '?' in t[..n] then !IsQueryChar(t[n]) else !IsPathChar(t[n]) && t[n] != '?'
  {
    var s := SchemeLen(t);
    var p := RunEnd(t, s, IsPathChar);
    var n := MatchLen(t).value;
    if n == p {
      assert t[..s] == "http://" || t[..s] == "https://";
      forall x | 0 <= x < n ensures t[..n][x] != '?' {
        if x < s { assert t[..n][x] == t[..s][x]; } else { assert IsPathChar(t[x]); }
      }
    } else {
      assert t[..n][p] == '?';
    }
  }

  /** A match starts with its scheme and has at least one character after it. */
  lemma MatchHasScheme(t: string)
    requires MatchLen(t).Some?
    ensures var m := t[..MatchLen(t).value]; SchemeLen(m) != 0 && SchemeLen(m) < |m|
  {
    var s := SchemeLen(t);
    var m := t[..MatchLen(t).value];
    assert m[..s] == t[..s];
    SchemeUnique(m, s);
  }

  /** A run made of exactly `piece`, stopped by the next character or the end. */
  lemma RunOver(t: string, j: nat, piece: string, cls: char -> bool)
    requires j + |piece| <= |t| && t[j..j + |piece|] == piece && AllIn(piece, cls)
    requires j + |piece| == |t| || !cls(t[j + |piece|])
    ensures RunEnd(t, j, cls) == j + |piece|
  {
    forall x | j <= x < j + |piece| ensures cls(t[x]) { assert t[x] == piece[x - j]; }
    RunEndIs(t, j, j + |piece|, cls);
  }

  /**
   * A scheme and a path run followed by a character that can continue neither
   * the path nor start a query: the match is exactly scheme and path.
   */
  lemma UrlBeforeStop(scheme: string, path: string, rest: string)
    requires IsScheme(scheme) && path != [] && AllIn(path, IsPathChar)
    requires rest == [] || (!IsPathChar(rest[0]) && rest[0] != '?')
    ensures MatchLen(scheme + path + rest) == Some(|scheme| + |path|)
  {
    var t := scheme + path + rest;
    var s := |scheme|;
    assert t[..s] == scheme;
    SchemeUnique(t, s);
    assert t[s..s + |path|] == path;
    if rest != [] { assert t[s + |path|] == rest[0]; }
    RunOver(t, s, path, IsPathChar);
  }

  /** The same with a `?` and a query run: the match ends where the query run does. */
  lemma UrlWithQueryBeforeStop(scheme: string, path: string, query: string, rest: string)
    requires IsScheme(scheme) && path != [] && AllIn(path, IsPathChar) && AllIn(query, IsQueryChar)
    requires rest == [] || !IsQueryChar(rest[0])
    ensures MatchLen(scheme + path + "?" + query + rest) == Some(|scheme| + |path| + 1 + |query|)
  {
    var s := |scheme|;
    var p := s + |path|;
    QueryUrlParts(scheme, path, query, rest);
    MatchWithQuery(scheme + path + "?" + query + rest, s, p, p + 1 + |query|);
  }

  lemma QueryUrlParts(scheme: string, path: string, query: string, rest: string)
    requires IsScheme(scheme) && path != [] && AllIn(path, IsPathChar) && AllIn(query, IsQueryChar)
    requires rest == [] || !IsQueryChar(rest[0])
    ensures var t := scheme + path + "?" + query + rest;
      var p := |scheme| + |path|;
      && SchemeLen(t) == |scheme| && RunEnd(t, |scheme|, IsPathChar) == p
      && p < |t| && t[p] == '?' && RunEnd(t, p + 1, IsQueryChar) == p + 1 + |query|
  {
    var t := scheme + path + "?" + query + rest;
    var p := |scheme| + |path|;
    assert t == scheme + path + ("?" + query + rest);
    SchemeAndPath(scheme, path, "?" + query + rest);
    assert t[p..] == "?" + query + rest;
    QueryAfterMark(t, p, query, rest);
  }

  lemma MatchWithQuery(t: string, s: nat, p: nat, q: nat)
    requires SchemeLen(t) == s && 0 < s < p < |t| && RunEnd(t, s, IsPathChar) == p
    requires t[p] == '?' && RunEnd(t, p + 1, IsQueryChar) == q
    ensures MatchLen(t) == Some(q)
  {
  }

  /** The scheme and path parts of a string that starts with them. */
  lemma SchemeAndPath(scheme: string, path: string, u: string)
    requires IsScheme(scheme) && path != [] && AllIn(path, IsPathChar)
    requires u == [] || !IsPathChar(u[0])
    ensures var t := scheme + path + u;
      SchemeLen(t) == |scheme| && RunEnd(t, |scheme|, IsPathChar) == |scheme| + |path|
  {
    var t := scheme + path + u;
    var s := |scheme|;
    assert t[..s] == scheme;
    SchemeUnique(t, s);
    assert t[s..s + |path|] == path;
    if u != [] { assert t[s + |path|] == u[0]; }
    RunOver(t, s, path, IsPathChar);
  }

  /** The query run after the `?` at index `p`. */
  lemma QueryAfterMark(t: string, p: nat, query: string, rest: string)
    requires p < |t| && t[p..] == "?" + query + rest && AllIn(query, IsQueryChar)
    requires rest == [] || !IsQueryChar(rest[0])
    ensures t[p] == '?' && RunEnd(t, p + 1, IsQueryChar) == p + 1 + |query|
  {
    assert t[p] == t[p..][0];
    assert t[p + 1..p + 1 + |query|] == t[p..][1..1 + |query|] == query;
    if rest != [] { assert t[p + 1 + |query|] == t[p..][1 + |query|] == rest[0]; }
    RunOver(t, p + 1, query, IsQueryChar);
  }

  /** No match contains a comma, so a comma after a URL is never part of it. */
  lemma NoCommaInMatch(t: string)
    requires MatchLen(t).Some?
    ensures ',' !in t[..MatchLen(t).value]
  {
    var s := SchemeLen(t);
    var p := RunEnd(t, s, IsPathChar);
    var n := MatchLen(t).value;
    assert t[..s] == "http://" || t[..s] == "https://";
    forall x | 0 <= x < n ensures t[..n][x] != ',' {
      if x < s { assert t[..n][x] == t[..s][x]; }
      else if x < p { assert IsPathChar(t[x]); }
      else if x > p { assert IsQueryChar(t[x]); }
    }
  }

  /** A match reported by `find_iter`: the half-open range `[start, end)` of the text. */
  datatype Span = Span(start: nat, end: nat)

  /** The span lies in `[from, |text|]` and is the scanner's match at its start. */
  predicate SpanIsMatch(text: string, from: nat, sp: Span) {
    from <= sp.start < sp.end <= |text| && MatchLen(text[sp.start..]) == Some(sp.end - sp.start)
  }

  predicate SpansAreMatches(text: string, from: nat, spans: seq<Span>) {
    forall k :: 0 <= k < |spans| ==> SpanIsMatch(text, from, spans[k])
  }

  /** Spans are in increasing order and do not overlap. */
  predicate Ordered(spans: seq<Span>) {
    forall i, j :: 0 <= i < j < |spans| ==> spans[i].end <= spans[j].start
  }

  /** Position `p` lies inside one of the spans. */
  ghost predicate Covered(spans: seq<Span>, p: nat) {
    exists k :: 0 <= k < |spans| && spans[k].start <= p < spans[k].end
  }

  /** A match starts at position `p` of `text`. */
  predicate MatchStartsAt(text: string, p: nat)
    requires p <= |text|
  {
    MatchLen(text[p..]).Some?
  }

  /** Every position from `from` on at which a match could start lies inside a span. */
  ghost predicate MatchStartsCovered(text: string, from: nat, spans: seq<Span>) {
    forall p :: from <= p < |text| && MatchStartsAt(text, p) ==> Covered(spans, p)
  }

  /**
   * `URL_REGEX.find_iter(text)` searching from `from`: at each position the
   * scanner is tried; a match is reported and the search resumes at its end,
   * otherwise the search moves one character on. The result lists matches in
   * increasing, non-overlapping order, each the scanner's match at its start,
   * and every position where a match could start lies inside a reported one.
   */
  function FindIter(text: string, from: nat): (spans: seq<Span>)
    requires from <= |text|
    ensures SpansAreMatches(text, from, spans)
    ensures Ordered(spans)
    ensures MatchStartsCovered(text, from, spans)
    decreases |text| - from
  {
    if from == |text| then []
    else match MatchLen(text[from..])
      case Some(n) =>
        var rest := FindIter(text, from + n);
        MatchThenRest(text, from, n, rest);
        [Span(from, from + n)] + rest
      case None =>
        var rest := FindIter(text, from + 1);
        assert MatchStartsCovered(text, from, rest) by {
          forall p | from <= p < |text| && MatchStartsAt(text, p) ensures Covered(rest, p) {
            assert p != from;
          }
        }
        rest
  }

  /** A match at `from` followed by the spans found after it. */
  lemma MatchThenRest(text: string, from: nat, n: nat, rest: seq<Span>)
    requires from < from + n <= |text| && MatchLen(text[from..]) == Some(n)
    requires SpansAreMatches(text, from + n, rest) && Ordered(rest)
    requires MatchStartsCovered(text, from + n, rest)
    ensures var spans := [Span(from, from + n)] + rest;
      SpansAreMatches(text, from, spans) && Ordered(spans) && MatchStartsCovered(text, from, spans)
  {
    var spans := [Span(from, from + n)] + rest;
    ConsMatches(text, from, n, rest);
    ConsOrdered(from + n, spans[0], rest);
    ConsCovered(text, from, n, rest);
  }

  lemma ConsMatches(text: string, from: nat, n: nat, rest: seq<Span>)
    requires from < from + n <= |text| && MatchLen(text[from..]) == Some(n)
    requires SpansAreMatches(text, from + n, rest)
    ensures SpansAreMatches(text, from, [Span(from, from + n)] + rest)
  {
    var spans := [Span(from, from + n)] + rest;
    forall k | 0 <= k < |spans| ensures SpanIsMatch(text, from, spans[k]) {
      if k > 0 {
        assert spans[k] == rest[k - 1];
        assert SpanIsMatch(text, from + n, rest[k - 1]);
      }
    }
  }

  lemma ConsOrdered(after: nat, first: Span, rest: seq<Span>)
    requires first.end <= after && Ordered(rest)
    requires forall k :: 0 <= k < |rest| ==> after <= rest[k].start
    ensures Ordered([first] + rest)
  {
    var spans := [first] + rest;
    forall i, j | 0 <= i < j < |spans| ensures spans[i].end <= spans[j].start {
      assert spans[j] == rest[j - 1];
      if i > 0 { assert spans[i] == rest[i - 1]; }
    }
  }

  lemma ConsCovered(text: string, from: nat, n: nat, rest: seq<Span>)
    requires from < from + n <= |text|
    requires MatchStartsCovered(text, from + n, rest)
    ensures MatchStartsCovered(text, from, [Span(from, from + n)] + rest)
  {
    var spans := [Span(from, from + n)] + rest;
    forall p | from <= p < |text| && MatchStartsAt(text, p) ensures Covered(spans, p) {
      if p < from + n {
        assert spans[0].start <= p < spans[0].end;
      } else {
        var k :| 0 <= k < |rest| && rest[k].start <= p < rest[k].end;
        assert spans[k + 1] == rest[k];
      }
    }
  }

  /** The strings `find_iter` yields, `m.as_str()` for each match `m`, in order. */
  function Matches(text: string): (ms: seq<string>)
    ensures |ms| == |FindIter(text, 0)|
    ensures forall k :: 0 <= k < |ms| ==>
      var sp := FindIter(text, 0)[k]; ms[k] == text[sp.start..sp.end]
  {
    var spans := FindIter(text, 0);
    seq(|spans|, k requires 0 <= k < |spans| => text[spans[k].start..spans[k].end])
  }

  /**
   * `find_iter` against the language, first half: every span with the
   * properties FindIter guarantees is the longest prefix in the language at
   * its start.
   */
  lemma SpansAreLongest(text: string, spans: seq<Span>)
    requires SpansAreMatches(text, 0, spans)
    ensures forall k :: 0 <= k < |spans| ==>
      LongestMatch(text[spans[k].start..], spans[k].end - spans[k].start)
  {
    forall k | 0 <= k < |spans|
      ensures LongestMatch(text[spans[k].start..], spans[k].end - spans[k].start)
    {
      assert SpanIsMatch(text, 0, spans[k]);
      MatchLenIsLongest(text[spans[k].start..]);
    }
  }

  /**
   * Second half: when the spans cover every position where the scanner
   * matches, they cover every position where a string of the language starts.
   */
  lemma MatchablesAreCovered(text: string, spans: seq<Span>)
    requires MatchStartsCovered(text, 0, spans)
    ensures forall p :: 0 <= p < |text| && !NoMatch(text[p..]) ==> Covered(spans, p)
  {
    forall p | 0 <= p < |text| && !NoMatch(text[p..]) ensures Covered(spans, p) {
      MatchLenIsLongest(text[p..]);
      assert MatchStartsAt(text, p);
    }
  }

  /** The `k`-th string `find_iter` yields is the scanner's match at some suffix `t` of the text. */
  lemma MatchAt(text: string, k: nat) returns (t: string, n: nat)
    requires k < |Matches(text)|
    ensures MatchLen(t) == Some(n) && n <= |t| && Matches(text)[k] == t[..n]
  {
    var sp := FindIter(text, 0)[k];
    assert SpanIsMatch(text, 0, sp);
    t, n := text[sp.start..], sp.end - sp.start;
    assert text[sp.start..sp.end] == t[..n];
  }

  lemma SpanIsLongest(text: string, sp: Span)
    requires SpanIsMatch(text, 0, sp)
    ensures LongestMatch(text[sp.start..], sp.end - sp.start)
  {
    MatchLenIsLongest(text[sp.start..]);
  }

  /** Text in which no string of the language starts anywhere yields no match. */
  lemma NoMatchesWhenNothingMatches(text: string)
    requires forall p :: 0 <= p < |text| ==> NoMatch(text[p..])
    ensures Matches(text) == []
  {
    var spans := FindIter(text, 0);
    if spans != [] {
      MatchLenIsLongest(text[spans[0].start..]);
      assert false;
    }
  }
}
