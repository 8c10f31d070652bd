/**
 * src/content_processor.rs: from a fetched HTML page to cleaned Markdown.
 * HTML parsing (`scraper`) and the HTML-to-Markdown conversion (`html2md`)
 * are foreign libraries and enter as the oracles of `HtmlTools`; the regular
 * expressions of src/patterns.rs other than the script and style blocks enter
 * as the rewrites of `PatternTables`.
 */
module ContentProcessor {
  import opened Wrappers
  import opened Text
  import opened Rewrites
  import opened MarkdownCleanup
  import opened LineFilter

  // ------------------------------------------------- script and style blocks

  /** `s` holds `w` at index `k`, ignoring ASCII case (`w` is in lower case). */
  predicate HasAtIgnoringCase(s: string, k: nat, w: string) {
    k + |w| <= |s| && forall x :: 0 <= x < |w| ==> LowerChar(s[k + x]) == w[x]
  }

  /** The first index at or after `j` holding `w` (ignoring case), or `|s|`. */
  function NextIgnoringCase(s: string, j: nat, w: string): (k: nat)
    requires j <= |s| && w != []
    ensures j <= k <= |s|
    ensures k < |s| ==> HasAtIgnoringCase(s, k, w)
    ensures forall x :: j <= x < k ==> !HasAtIgnoringCase(s, x, w)
    decreases |s| - j
  {
    if j + |w| > |s| then |s|
    else if HasAtIgnoringCase(s, j, w) then j
    else NextIgnoringCase(s, j + 1, w)
  }

  /**
   * `(?i)<name[^>]*>[\s\S]*?</name>`: the opening tag with whatever attributes
   * up to its `>`, then the shortest stretch up to the closing tag.
   */
  function ElementAt(s: string, name: string): (m: (nat, string))
    ensures m.1 == []
  {
    var open := ['<'] + name;
    var close := ['<', '/'] + name + ['>'];
    if HasAtIgnoringCase(s, 0, open) then
      var j := FirstIndexOf(s, '>', |open|);
      if j < |s| then
        var k := NextIgnoringCase(s, j + 1, close);
        if k < |s| then (k + |close|, "") else (0, "")
      else (0, "")
    else (0, "")
  }

  function ScriptAt(s: string): (nat, string) {
    ElementAt(s, "script")
  }

  function StyleAt(s: string): (nat, string) {
    ElementAt(s, "style")
  }

  /** The first two rewrites of `clear_body`: script blocks, then style blocks, are deleted. */
  function RemoveScriptsAndStyles(html: string): string {
    ReplaceAll(ReplaceAll(html, ScriptAt), StyleAt)
  }

  /** No element starts inside a prefix that has no `<`. */
  lemma NoElementInPrefix(pre: string, rest: string, mt: Matcher, name: string)
    requires forall x :: mt(x) == ElementAt(x, name)
    requires '<' !in pre
    ensures NoMatchBefore(pre + rest, |pre|, mt)
  {
    forall i | 0 <= i < |pre| ensures mt((pre + rest)[i..]).0 == 0 {
      var t := (pre + rest)[i..];
      assert t[0] == pre[i];
      assert (['<'] + name)[0] == '<';
      assert LowerChar(t[0]) != '<';
    }
  }

  /**
   * The matcher's view of an element: the opening tag name at 0, the first
   * `>` at `j`, and the first closing tag after it at `k`.
   */
  lemma ElementAtEnds(s: string, name: string, j: nat, k: nat)
    requires HasAtIgnoringCase(s, 0, ['<'] + name)
    requires |name| + 1 <= j < |s| && s[j] == '>'
    requires forall x :: |name| + 1 <= x < j ==> s[x] != '>'
    requires j < k && HasAtIgnoringCase(s, k, ['<', '/'] + name + ['>'])
    requires forall x :: j + 1 <= x < k ==> !HasAtIgnoringCase(s, x, ['<', '/'] + name + ['>'])
    ensures ElementAt(s, name) == (k + |name| + 3, "")
  {
    assert FirstIndexOf(s, '>', |name| + 1) == j;
    assert NextIgnoringCase(s, j + 1, ['<', '/'] + name + ['>']) == k;
  }

  /** An opening tag name never holds `>`, whatever its capitalisation. */
  lemma OpenTagHasNoClose(open: string, name: string)
    requires '>' !in name
    requires |open| == |name| + 1 && HasAtIgnoringCase(open, 0, ['<'] + name)
    ensures '>' !in open
  {
    forall x | 0 <= x < |open| ensures open[x] != '>' {
      assert LowerChar(open[x]) == (['<'] + name)[x];
      if x > 0 {
        assert (['<'] + name)[x] == name[x - 1];
      }
    }
  }

  /**
   * The matcher sees a whole element, however its tag names are capitalised:
   * the body may hold anything, `<` included, except its own closing tag.
   */
  lemma ElementAtElement(name: string, open: string, attrs: string, body: string, close: string, post: string)
    requires '>' !in name && '<' !in name
    requires |open| == |name| + 1 && HasAtIgnoringCase(open, 0, ['<'] + name)
    requires '>' !in attrs
    requires forall x :: 0 <= x < |body| ==> !HasAtIgnoringCase(body, x, ['<', '/'] + name + ['>'])
    requires |close| == |name| + 3 && HasAtIgnoringCase(close, 0, ['<', '/'] + name + ['>'])
    ensures ElementAt(open + attrs + ['>'] + body + close + post, name).0
         == |open| + |attrs| + 1 + |body| + |close|
  {
    var head := open + attrs;
    var s := head + (['>'] + (body + (close + post)));
    assert s == open + attrs + ['>'] + body + close + post;
    var o := ['<'] + name;
    var c := ['<', '/'] + name + ['>'];
    assert HasAtIgnoringCase(s, 0, o) by {
      forall x | 0 <= x < |o| ensures LowerChar(s[x]) == o[x] {
        assert s[x] == open[x];
      }
    }
    OpenTagHasNoClose(open, name);
    var j := |head|;
    forall x | |o| <= x < j ensures s[x] != '>' {
      assert s[x] == head[x];
      if x >= |open| {
        assert head[x] == attrs[x - |open|];
      }
    }
    var k := j + 1 + |body|;
    assert HasAtIgnoringCase(s, k, c) by {
      forall x | 0 <= x < |c| ensures LowerChar(s[k + x]) == c[x] {
        assert s[k + x] == close[x];
      }
    }
    forall x | j + 1 <= x < k ensures !HasAtIgnoringCase(s, x, c) {
      ClosingTagNotInBody(s, name, body, j + 1, x);
    }
    ElementAtEnds(s, name, j, k);
  }

  /**
   * No closing tag starts inside a body that holds none: one lying wholly
   * inside would be in the body, and one reaching past it would need a `<`
   * inside the closing tag's name, where there is none.
   */
  lemma ClosingTagNotInBody(s: string, name: string, body: string, b: nat, x: nat)
    requires '<' !in name
    requires b + |body| <= |s| && s[b..b + |body|] == body
    requires HasAtIgnoringCase(s, b + |body|, ['<', '/'] + name + ['>'])
    requires forall y :: 0 <= y < |body| ==> !HasAtIgnoringCase(body, y, ['<', '/'] + name + ['>'])
    requires b <= x < b + |body|
    ensures !HasAtIgnoringCase(s, x, ['<', '/'] + name + ['>'])
  {
    var c := ['<', '/'] + name + ['>'];
    var k := b + |body|;
    var y := x - b;
    if x + |c| <= k {
      assert !HasAtIgnoringCase(body, y, c);
      var z :| 0 <= z < |c| && LowerChar(body[y + z]) != c[z];
      assert s[x + z] == body[y + z];
    } else if x + |c| <= |s| {
      var d := k - x;
      assert LowerChar(s[k]) == c[0] == '<';
      assert c[d] != '<' by {
        if 2 <= d < |c| - 1 {
          assert c[d] == name[d - 2];
        }
      }
      assert LowerChar(s[x + d]) != c[d];
    }
  }

  /**
   * An element whose body holds no closing tag of its own is deleted with its
   * tags, whether they are written `<script>` or `<SCRIPT type="…">`; text
   * before it is kept.
   */
  lemma ElementRemoved(mt: Matcher, name: string, pre: string, open: string, attrs: string,
                       body: string, close: string, post: string)
    requires forall x :: mt(x) == ElementAt(x, name)
    requires '>' !in name && '<' !in name && '<' !in pre
    requires |open| == |name| + 1 && HasAtIgnoringCase(open, 0, ['<'] + name)
    requires '>' !in attrs
    requires forall x :: 0 <= x < |body| ==> !HasAtIgnoringCase(body, x, ['<', '/'] + name + ['>'])
    requires |close| == |name| + 3 && HasAtIgnoringCase(close, 0, ['<', '/'] + name + ['>'])
    ensures ReplaceAll(pre + (open + attrs + ['>'] + body + close + post), mt)
         == pre + ReplaceAll(post, mt)
  {
    var element := open + attrs + ['>'] + body + close + post;
    var n := |open| + |attrs| + 1 + |body| + |close|;
    NoElementInPrefix(pre, element, mt, name);
    CopiesUnmatchedPrefix(pre, element, mt);
    ElementAtElement(name, open, attrs, body, close, post);
    ReplacesElement(mt, name, element, n);
    assert element[n..] == post;
  }

  /** A script whose code compares with `<`, `<script>if(a<b)f()</script>`, is still removed whole. */
  lemma ScriptWithComparisonRemoved()
    ensures RemoveScriptsAndStyles("<script" + ">" + "if(a<b)f()" + "</script>") == ""
  {
    var body := "if(a<b)f()";
    var element := "<script" + ">" + body + "</script>";
    ScriptTagsMatch();
    ComparisonBodyHasNoClose(body);
    ElementRemoved(ScriptAt, "script", "", "<script", "", body, "</script>", "");
    assert "<script" + "" == "<script";
    assert element + "" == element;
    assert "" + element == element;
    assert ReplaceAll("", ScriptAt) == "";
    assert ReplaceAll("", StyleAt) == "";
  }

  lemma ScriptTagsMatch()
    ensures HasAtIgnoringCase("<script", 0, ['<'] + "script")
    ensures HasAtIgnoringCase("</script>", 0, ['<', '/'] + "script" + ['>'])
    ensures '>' !in "script" && '<' !in "script"
  {
    assert ['<'] + "script" == "<script";
    assert ['<', '/'] + "script" + ['>'] == "</script>";
  }

  lemma ComparisonBodyHasNoClose(body: string)
    requires body == "if(a<b)f()"
    ensures forall x :: 0 <= x < |body| ==> !HasAtIgnoringCase(body, x, ['<', '/'] + "script" + ['>'])
  {
    var c := ['<', '/'] + "script" + ['>'];
    assert |c| == 9 && c[0] == '<';
    forall x | 0 <= x < |body| ensures !HasAtIgnoringCase(body, x, c) {
      if x + 9 <= |body| {
        assert x == 0 || x == 1;
        assert LowerChar(body[x]) != '<';
      }
    }
  }

  /** A matched element is dropped and the scan resumes after it. */
  lemma ReplacesElement(mt: Matcher, name: string, element: string, n: nat)
    requires forall x :: mt(x) == ElementAt(x, name)
    requires ElementAt(element, name).0 == n && 0 < n <= |element|
    ensures ReplaceAll(element, mt) == ReplaceAll(element[n..], mt)
  {
    assert mt(element).0 == n && mt(element).1 == [];
  }

  /** HTML without `<` passes both block rewrites unchanged. */
  lemma RemoveScriptsAndStylesKeepsPlainText(html: string)
    requires '<' !in html
    ensures RemoveScriptsAndStyles(html) == html
  {
    NoElementInPrefix(html, [], ScriptAt, "script");
    assert html + [] == html;
    NoMatchUnchanged(html, ScriptAt);
    NoElementInPrefix(html, [], StyleAt, "style");
    NoMatchUnchanged(html, StyleAt);
  }

  // ------------------------------------------------------------ selection

  /** The main-content containers, tried first. */
  const ContentSelectors: seq<string> := [
    "article", "main", "[role='main']", ".content", ".article", ".post", ".entry"]

  /** The text elements, tried when no container matched. */
  const TextSelectors: seq<string> := [
    "h1, h2, h3, h4, h5, h6", "p", "ul, ol", "blockquote", "pre", "table"]

  /**
   * The foreign HTML libraries:
   * `bodyOf(html)` is the outer HTML of the document's first `body` element;
   * `select(doc, selector)` is the outer HTML of every element of `doc` that
   * `selector` selects, in document order (none when it does not parse);
   * `toMarkdown(html)` is `html2md::parse_html`.
   */
  datatype HtmlTools = HtmlTools(
    bodyOf: string -> Option<string>,
    select: (string, string) -> seq<string>,
    toMarkdown: string -> string)

  /**
   * The regular expressions of src/patterns.rs as rewrites: `media` and
   * `unwanted` before selection, `cleanup` after it, `phrases` in the
   * Markdown cleanup.
   */
  datatype PatternTables = PatternTables(
    media: seq<string -> string>,
    unwanted: seq<string -> string>,
    cleanup: seq<string -> string>,
    phrases: seq<string -> string>)

  /** The elements' HTML, each followed by a newline. */
  function Terminated(elements: seq<string>): string
    decreases |elements|
  {
    if elements == [] then []
    else Terminated(elements[..|elements| - 1]) + elements[|elements| - 1] + ['\n']
  }

  /** What the selectors collect from `doc`, selector by selector. */
  function Gathered(doc: string, selectors: seq<string>, select: (string, string) -> seq<string>): string
    decreases |selectors|
  {
    if selectors == [] then []
    else Gathered(doc, selectors[..|selectors| - 1], select) + Terminated(select(doc, selectors[|selectors| - 1]))
  }

  /** Some selector selects at least one element of `doc`. */
  predicate AnyMatch(doc: string, selectors: seq<string>, select: (string, string) -> seq<string>) {
    exists k :: 0 <= k < |selectors| && select(doc, selectors[k]) != []
  }

  /** The document `clear_body` re-parses. */
  function Wrapped(cleaned: string): string {
    "<html><body>" + cleaned + "</body></html>"
  }

  /**
   * The selection cascade: the content containers if any matched, otherwise
   * the text elements, and the whole cleaned body when that is only white space.
   */
  function Selected(cleaned: string, select: (string, string) -> seq<string>): string {
    var doc := Wrapped(cleaned);
    var relevant := if AnyMatch(doc, ContentSelectors, select) then Gathered(doc, ContentSelectors, select)
                    else Gathered(doc, TextSelectors, select);
    if Trim(relevant) == [] then cleaned else relevant
  }

  /** The whole of `clear_body`. */
  function ClearedBody(body: string, select: (string, string) -> seq<string>, tables: PatternTables): string {
    var cleaned := ApplyAll(ApplyAll(RemoveScriptsAndStyles(body), tables.media), tables.unwanted);
    ApplyAll(Selected(cleaned, select), tables.cleanup)
  }

  lemma {:induction false} TerminatedConcat(a: seq<string>, b: seq<string>)
    ensures Terminated(a + b) == Terminated(a) + Terminated(b)
    decreases |b|
  {
    if b == [] {
      assert a + b == a;
    } else {
      var b' := b[..|b| - 1];
      assert (a + b)[..|a + b| - 1] == a + b';
      assert (a + b)[|a + b| - 1] == b[|b| - 1];
      TerminatedConcat(a, b');
    }
  }

  /** Every element is appended in order, each followed by a newline. */
  lemma TerminatedElements(a: seq<string>, e: string, b: seq<string>)
    ensures Terminated(a + [e] + b) == Terminated(a) + e + ['\n'] + Terminated(b)
  {
    TerminatedConcat(a + [e], b);
    assert (a + [e])[..|a|] == a;
  }

  /** Each element adds at least its newline, so something is collected exactly when something matched. */
  lemma {:induction false} GatheredIffAnyMatch(doc: string, selectors: seq<string>, select: (string, string) -> seq<string>)
    ensures Gathered(doc, selectors, select) != [] <==> AnyMatch(doc, selectors, select)
    decreases |selectors|
  {
    if selectors != [] {
      var init := selectors[..|selectors| - 1];
      var last := selectors[|selectors| - 1];
      GatheredIffAnyMatch(doc, init, select);
      assert Terminated(select(doc, last)) != [] <==> select(doc, last) != [];
      if AnyMatch(doc, init, select) {
        var k :| 0 <= k < |init| && select(doc, init[k]) != [];
        assert selectors[k] == init[k];
      }
      if AnyMatch(doc, selectors, select) && !AnyMatch(doc, init, select) {
        var k :| 0 <= k < |selectors| && select(doc, selectors[k]) != [];
      }
    }
  }

  /** When a content container matches, the text selectors are never consulted. */
  lemma ContainersWin(cleaned: string, select1: (string, string) -> seq<string>,
                      select2: (string, string) -> seq<string>)
    requires forall sel :: sel in ContentSelectors ==> select1(Wrapped(cleaned), sel) == select2(Wrapped(cleaned), sel)
    requires AnyMatch(Wrapped(cleaned), ContentSelectors, select1)
    ensures Selected(cleaned, select1) == Selected(cleaned, select2)
  {
    var doc := Wrapped(cleaned);
    var k :| 0 <= k < |ContentSelectors| && select1(doc, ContentSelectors[k]) != [];
    assert select2(doc, ContentSelectors[k]) != [];
    GatheredAgrees(doc, ContentSelectors, select1, select2);
  }

  lemma {:induction false} GatheredAgrees(doc: string, selectors: seq<string>, select1: (string, string) -> seq<string>,
                                          select2: (string, string) -> seq<string>)
    requires forall sel :: sel in selectors ==> select1(doc, sel) == select2(doc, sel)
    ensures Gathered(doc, selectors, select1) == Gathered(doc, selectors, select2)
    decreases |selectors|
  {
    if selectors != [] {
      GatheredAgrees(doc, selectors[..|selectors| - 1], select1, select2);
    }
  }

  /** When nothing at all matches, the whole cleaned body is kept. */
  lemma NothingSelectedKeepsBody(cleaned: string, select: (string, string) -> seq<string>)
    requires !AnyMatch(Wrapped(cleaned), ContentSelectors, select)
    requires !AnyMatch(Wrapped(cleaned), TextSelectors, select)
    ensures Selected(cleaned, select) == cleaned
  {
    GatheredIffAnyMatch(Wrapped(cleaned), TextSelectors, select);
  }

  // ------------------------------------------------------------ clear_body

  /** Applies `rewrites` to `s` in order. */
  method ApplyRewrites(s: string, rewrites: seq<string -> string>) returns (r: string)
    ensures r == ApplyAll(s, rewrites)
  {
    r := s;
    for k := 0 to |rewrites|
      invariant r == ApplyAll(s, rewrites[..k])
    {
      assert rewrites[..k + 1][..k] == rewrites[..k];
      r := rewrites[k](r);
    }
    assert rewrites[..|rewrites|] == rewrites;
  }

  /** Terminating one more element appends it and its newline. */
  lemma TerminatedStep(elements: seq<string>, j: nat)
    requires j < |elements|
    ensures Terminated(elements[..j + 1]) == Terminated(elements[..j]) + elements[j] + ['\n']
  {
    assert elements[..j + 1][..j] == elements[..j];
  }

  /** Gathering one more selector appends that selector's elements. */
  lemma GatheredStep(doc: string, selectors: seq<string>, i: nat, select: (string, string) -> seq<string>)
    requires i < |selectors|
    ensures Gathered(doc, selectors[..i + 1], select)
            == Gathered(doc, selectors[..i], select) + Terminated(select(doc, selectors[i]))
  {
    assert selectors[..i + 1][..i] == selectors[..i];
  }

  /** One more selector matches something exactly when it or an earlier one does. */
  lemma AnyMatchStep(doc: string, selectors: seq<string>, i: nat, select: (string, string) -> seq<string>)
    requires i < |selectors|
    ensures AnyMatch(doc, selectors[..i + 1], select)
            <==> AnyMatch(doc, selectors[..i], select) || select(doc, selectors[i]) != []
  {
    if AnyMatch(doc, selectors[..i], select) {
      var k :| 0 <= k < i && select(doc, selectors[..i][k]) != [];
      assert selectors[..i + 1][k] == selectors[..i][k];
    }
    if AnyMatch(doc, selectors[..i + 1], select) {
      var k :| 0 <= k < i + 1 && select(doc, selectors[..i + 1][k]) != [];
      if k < i {
        assert selectors[..i][k] == selectors[..i + 1][k];
      }
    }
    if select(doc, selectors[i]) != [] {
      assert selectors[..i + 1][i] == selectors[i];
    }
  }

  /**
   * The selector loop of `clear_body`: for every selector, every selected
   * element is appended to `relevant` with a newline, and `found` is set.
   */
  method AppendSelected(relevant: string, doc: string, selectors: seq<string>,
                        select: (string, string) -> seq<string>)
    returns (r: string, found: bool)
    ensures r == relevant + Gathered(doc, selectors, select)
    ensures found <==> AnyMatch(doc, selectors, select)
  {
    r := relevant;
    found := false;
    for i := 0 to |selectors|
      invariant r == relevant + Gathered(doc, selectors[..i], select)
      invariant found <==> AnyMatch(doc, selectors[..i], select)
    {
      var elements := select(doc, selectors[i]);
      var before := r;
      ghost var foundBefore := found;
      for j := 0 to |elements|
        invariant r == before + Terminated(elements[..j])
        invariant found <==> foundBefore || j > 0
      {
        TerminatedStep(elements, j);
        r := r + elements[j] + ['\n'];
        found := true;
      }
      assert elements[..|elements|] == elements;
      GatheredStep(doc, selectors, i, select);
      AnyMatchStep(doc, selectors, i, select);
    }
    assert selectors[..|selectors|] == selectors;
  }

  /**
   * `clear_body`: script and style blocks go, then the media and unwanted
   * element patterns; the re-parsed body is searched with the container
   * selectors, then, only if none matched, with the text selectors; a blank
   * selection falls back to the cleaned body; the cleanup patterns come last.
   */
  method ClearBody(body: string, select: (string, string) -> seq<string>, tables: PatternTables)
    returns (relevant: string)
    ensures relevant == ClearedBody(body, select, tables)
  {
    var cleaned := ReplaceAll(body, ScriptAt);
    cleaned := ReplaceAll(cleaned, StyleAt);
    cleaned := ApplyRewrites(cleaned, tables.media);
    cleaned := ApplyRewrites(cleaned, tables.unwanted);
    relevant := SelectRelevant(cleaned, select);
    relevant := ApplyRewrites(relevant, tables.cleanup);
  }

  /** The selection cascade of `clear_body` over the re-parsed cleaned body. */
  method SelectRelevant(cleaned: string, select: (string, string) -> seq<string>) returns (relevant: string)
    ensures relevant == Selected(cleaned, select)
  {
    var doc := Wrapped(cleaned);
    var found;
    relevant, found := AppendSelected([], doc, ContentSelectors, select);
    if !found {
      GatheredIffAnyMatch(doc, ContentSelectors, select);
      relevant, found := AppendSelected(relevant, doc, TextSelectors, select);
    }
    if Trim(relevant) == [] {
      relevant := cleaned;
    }
  }

  // ------------------------------------------------ final_clean_from_markdown

  /** The Markdown cleanup, steps 1 to 11. */
  function FinalClean(markdown: string, phrases: seq<string -> string>): string {
    var tidied := CollapseNewlines(CollapseBlanks(RemoveCodeBlocks(RemoveBareUrls(InlineLinks(RemoveTags(markdown))))));
    Trim(CapNewlines(FilterText(CollapseBlankLines(ApplyAll(tidied, phrases)))))
  }

  /** No white space at either end and no four newlines in a row. */
  predicate Tidy(s: string) {
    (s == [] || (!IsWhitespace(s[0]) && !IsWhitespace(s[|s| - 1])))
    && RunsAtMost(s, IsNewline, 3)
  }

  /** The cleaned Markdown is tidy. */
  lemma FinalCleanIsTidy(markdown: string, phrases: seq<string -> string>)
    ensures Tidy(FinalClean(markdown, phrases))
  {
    var tidied := CollapseNewlines(CollapseBlanks(RemoveCodeBlocks(RemoveBareUrls(InlineLinks(RemoveTags(markdown))))));
    var filtered := FilterText(CollapseBlankLines(ApplyAll(tidied, phrases)));
    var capped := CapNewlines(filtered);
    assert FinalClean(markdown, phrases) == Trim(capped);
    CapNewlinesAtMostThree(filtered);
    RunsOfTrim(capped, IsNewline, 3);
  }

  /**
   * `final_clean_from_markdown`: the rewrites of `MarkdownCleanup` in the
   * source's order, the phrase patterns in their table order, the line
   * filter, and a final trim.
   */
  method FinalCleanFromMarkdown(markdown: string, phrases: seq<string -> string>) returns (result: string)
    ensures result == FinalClean(markdown, phrases)
    ensures Tidy(result)
  {
    result := RemoveTags(markdown);
    result := InlineLinks(result);
    result := RemoveBareUrls(result);
    result := RemoveCodeBlocks(result);
    result := CollapseBlanks(result);
    result := CollapseNewlines(result);
    result := ApplyRewrites(result, phrases);
    result := CollapseBlankLines(result);
    result := FilterText(result);
    result := CapNewlines(result);
    result := Trim(result);
    FinalCleanIsTidy(markdown, phrases);
  }

  // ------------------------------------------------------- html_to_markdown

  /** `extract_and_clean_body` as a function of the page. */
  function CleanedMarkdown(html: string, tools: HtmlTools, tables: PatternTables): string {
    match tools.bodyOf(html)
    case None => []
    case Some(body) => FinalClean(tools.toMarkdown(ClearedBody(body, tools.select, tables)), tables.phrases)
  }

  /** Whatever the page, the Markdown has no white space at either end and no four newlines in a row. */
  lemma CleanedMarkdownIsTidy(html: string, tools: HtmlTools, tables: PatternTables)
    ensures Tidy(CleanedMarkdown(html, tools, tables))
  {
    if tools.bodyOf(html).Some? {
      var md := tools.toMarkdown(ClearedBody(tools.bodyOf(html).value, tools.select, tables));
      assert CleanedMarkdown(html, tools, tables) == FinalClean(md, tables.phrases);
      FinalCleanIsTidy(md, tables.phrases);
    } else {
      assert CleanedMarkdown(html, tools, tables) == [];
      assert RunEnd([], 0, IsNewline) == 0;
    }
  }

  /**
   * `ContentProcessor::html_to_markdown` / `extract_and_clean_body`: a page
   * without a body gives the empty string; otherwise the body is cleared,
   * converted to Markdown and cleaned.
   */
  method HtmlToMarkdown(html: string, tools: HtmlTools, tables: PatternTables) returns (markdown: string)
    ensures markdown == CleanedMarkdown(html, tools, tables)
    ensures tools.bodyOf(html) == None ==> markdown == []
  {
    match tools.bodyOf(html) {
      case None =>
        return [];
      case Some(body) =>
        var relevant := ClearBody(body, tools.select, tables);
        var converted := tools.toMarkdown(relevant);
        markdown := FinalCleanFromMarkdown(converted, tables.phrases);
    }
  }
}
