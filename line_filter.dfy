/**
 * Step 9 of `final_clean_from_markdown` (src/content_processor.rs): the text
 * is split with `str::lines`, `remove_lines_metadata_or_navigation` keeps the
 * lines worth keeping and the survivors are joined with `\n`.
 */
module LineFilter {
  import opened Text
  import opened Sequences

  // -------------------------------------------------------- lines / join

  /** A line without the `\r` of a `\r\n` ending. */
  function DropCr(l: string): (r: string)
    ensures r == l || (l == r + ['\r'])
  {
    if l != [] && l[|l| - 1] == '\r' then l[..|l| - 1] else l
  }

  /**
   * `str::lines`: the text is split after each `\n`, the `\n` and a `\r`
   * just before it are dropped, and a final line ending yields no extra line.
   */
  function Lines(s: string): (ls: seq<string>)
    ensures s != [] <==> ls != []
    ensures forall k :: 0 <= k < |ls| ==> '\n' !in ls[k]
    decreases |s|
  {
    if s == [] then []
    else
      var i := FirstIndexOf(s, '\n', 0);
      if i == |s| then [s]
      else [DropCr(s[..i])] + Lines(s[i + 1..])
  }

  /** `join("\n")`. */
  function Join(ls: seq<string>): string {
    if ls == [] then []
    else if |ls| == 1 then ls[0]
    else ls[0] + ['\n'] + Join(ls[1..])
  }

  /**
   * Splitting into lines and joining them again gives the text back when it
   * has no carriage return and does not end with a line ending.
   */
  lemma {:induction false} JoinLines(s: string)
    requires '\r' !in s
    requires s == [] || s[|s| - 1] != '\n'
    ensures Join(Lines(s)) == s
    decreases |s|
  {
    if s != [] {
      var i := FirstIndexOf(s, '\n', 0);
      if i < |s| {
        var rest := s[i + 1..];
        assert rest != [];
        assert s[..i] == DropCr(s[..i]) by {
          if s[..i] != [] {
            assert s[..i][i - 1] == s[i - 1];
          }
        }
        JoinLines(rest);
        assert Lines(s) == [s[..i]] + Lines(rest);
        assert s == s[..i] + ['\n'] + rest;
      }
    }
  }

  // -------------------------------------------------------------- filter

  /** Single words that mark a navigation line. */
  const NavigationTerms: seq<string> := [
    "home", "about", "contact", "menu", "search", "login", "register", "subscribe",
    "share", "follow", "back", "next", "prev", "more", "advertisement", "ads",
    "sponsored", "cookie", "privacy", "terms"]

  /** Whole lines that name a page region. */
  const RegionNames: seq<string> := ["menu", "navigation", "nav", "footer", "header", "sidebar"]

  /** Whether `remove_lines_metadata_or_navigation` keeps `line`. */
  predicate Keep(line: string) {
    KeepTrimmed(Trim(line))
  }

  /** The filter's decision, given the trimmed line `t`. */
  predicate KeepTrimmed(t: string) {
    if StartsWith(t, "#") || StartsWith(t, "##") then true
    else if t == [] || ByteLen(t) < 5 then t == []
    else
      var lower := Lower(t);
      if ' ' !in t && lower in NavigationTerms then false
      else if StartsWith(lower, "http") || '@' in lower || lower in RegionNames then false
      else if ByteLen(t) < 2 then false
      else true
  }

  /** The lines that pass `Keep`, in their original order and unchanged. */
  function RemoveMetadataLines(lines: seq<string>): (kept: seq<string>)
    ensures |kept| <= |lines|
    decreases |lines|
  {
    if lines == [] then []
    else
      var last := lines[|lines| - 1];
      var earlier := RemoveMetadataLines(lines[..|lines| - 1]);
      earlier + (if Keep(last) then [last] else [])
  }

  /** A line survives exactly when it is in the input and passes `Keep`. */
  lemma {:induction false} KeptLines(lines: seq<string>)
    ensures forall l :: l in RemoveMetadataLines(lines) <==> l in lines && Keep(l)
    decreases |lines|
  {
    if lines != [] {
      var last := lines[|lines| - 1];
      var init := lines[..|lines| - 1];
      KeptLines(init);
      assert lines == init + [last];
      var keep := Keep(last);
      forall l ensures l in RemoveMetadataLines(lines) <==> l in lines && Keep(l) {
        assert l in lines <==> l in init || l == last;
      }
    }
  }

  /**
   * Every occurrence of a kept line survives: a line that passes `Keep`
   * appears as often in the output as in the input, any other line not at all.
   */
  lemma {:induction false} KeptLineCounts(lines: seq<string>)
    ensures forall l :: multiset(RemoveMetadataLines(lines))[l] == if Keep(l) then multiset(lines)[l] else 0
    decreases |lines|
  {
    if lines != [] {
      var init := lines[..|lines| - 1];
      KeptLineCounts(init);
      assert lines == init + [lines[|lines| - 1]];
    }
  }

  /** Step 9 as a whole. */
  function FilterText(s: string): string {
    Join(RemoveMetadataLines(Lines(s)))
  }

  /** The kept lines are a subsequence of the input: nothing is reordered or rewritten. */
  lemma {:induction false} KeptLinesAreSubsequence(lines: seq<string>)
    ensures IsSubsequence(RemoveMetadataLines(lines), lines)
    decreases |lines|
  {
    if lines != [] {
      var last := lines[|lines| - 1];
      var earlier := RemoveMetadataLines(lines[..|lines| - 1]);
      var init := lines[..|lines| - 1];
      KeptLinesAreSubsequence(init);
      SubsequenceExtend(earlier, lines);
      if Keep(last) {
        assert (earlier + [last])[..|earlier|] == earlier;
      } else {
        assert earlier + [] == earlier;
      }
    }
  }

  /** Filtering filtered lines changes nothing. */
  lemma {:induction false} RemoveMetadataLinesIdempotent(lines: seq<string>)
    ensures RemoveMetadataLines(RemoveMetadataLines(lines)) == RemoveMetadataLines(lines)
    decreases |lines|
  {
    if lines != [] {
      var last := lines[|lines| - 1];
      var earlier := RemoveMetadataLines(lines[..|lines| - 1]);
      RemoveMetadataLinesIdempotent(lines[..|lines| - 1]);
      if Keep(last) {
        assert (earlier + [last])[..|earlier|] == earlier;
      } else {
        assert earlier + [] == earlier;
      }
    }
  }

  // ------------------------------------------------- what the filter does

  /** A line whose trimmed form starts with `#` is kept, whatever else it holds. */
  lemma HeaderKept(line: string)
    requires StartsWith(Trim(line), "#")
    ensures Keep(line)
  {
  }

  /** A line of white space only is kept, to preserve paragraph spacing. */
  lemma BlankLineKept(line: string)
    requires AllWhitespace(line)
    ensures Keep(line)
  {
  }

  /** Any other line shorter than 5 bytes once trimmed is dropped. */
  lemma ShortLineDropped(line: string)
    requires !StartsWith(Trim(line), "#") && !AllWhitespace(line)
    requires ByteLen(Trim(line)) < 5
    ensures !Keep(line)
  {
  }

  /** The navigation terms of at least 5 bytes: the shorter ones can never match. */
  const LongNavigationTerms: seq<string> := [
    "about", "contact", "search", "login", "register", "subscribe", "share",
    "follow", "advertisement", "sponsored", "cookie", "privacy", "terms"]

  /** The region names of at least 5 bytes. */
  const LongRegionNames: seq<string> := ["navigation", "footer", "header", "sidebar"]

  /**
   * The filter without its unreachable checks: headers and blank lines are
   * kept, and any other line is kept when it has at least 5 bytes, is not a
   * space-free navigation term, does not start with `http`, holds no `@` and
   * is no region name (all compared in lower case).
   */
  predicate EffectiveKeep(line: string) {
    EffectiveKeepTrimmed(Trim(line))
  }

  predicate EffectiveKeepTrimmed(t: string) {
    var lower := Lower(t);
    StartsWith(t, "#") || t == [] ||
    (ByteLen(t) >= 5
     && !(' ' !in t && lower in LongNavigationTerms)
     && !StartsWith(lower, "http") && '@' !in lower && lower !in LongRegionNames)
  }

  /** A line that lower-cases to an ASCII word has as many bytes as the word has letters. */
  lemma LowerWordLength(t: string, w: string)
    requires Lower(t) == w && IsAscii(w)
    ensures ByteLen(t) == |w|
  {
    LowerOfAscii(t);
    ByteLenAscii(t);
  }

  lemma NavigationTermsAscii()
    ensures forall k :: 0 <= k < |NavigationTerms| ==> IsAscii(NavigationTerms[k])
  {
  }

  lemma RegionNamesAscii()
    ensures forall k :: 0 <= k < |RegionNames| ==> IsAscii(RegionNames[k])
  {
  }

  /** A line of at least 5 bytes can only equal a navigation term of at least 5 letters. */
  lemma LongLineNavigationTerm(t: string)
    requires ByteLen(t) >= 5
    ensures Lower(t) in NavigationTerms <==> Lower(t) in LongNavigationTerms
  {
    if Lower(t) in NavigationTerms {
      var k :| 0 <= k < |NavigationTerms| && NavigationTerms[k] == Lower(t);
      NavigationTermsAscii();
      LowerWordLength(t, NavigationTerms[k]);
    }
  }

  /** A line of at least 5 bytes can only equal a region name of at least 5 letters. */
  lemma LongLineRegionName(t: string)
    requires ByteLen(t) >= 5
    ensures Lower(t) in RegionNames <==> Lower(t) in LongRegionNames
  {
    if Lower(t) in RegionNames {
      var k :| 0 <= k < |RegionNames| && RegionNames[k] == Lower(t);
      RegionNamesAscii();
      LowerWordLength(t, RegionNames[k]);
    }
  }

  /**
   * The filter keeps exactly the lines `EffectiveKeep` keeps: the `< 2` check,
   * the `menu` and `nav` comparisons and the navigation terms under 5 letters
   * never decide anything.
   */
  lemma KeepIsEffectiveKeep(line: string)
    ensures Keep(line) <==> EffectiveKeep(line)
  {
    KeepTrimmedIsEffective(Trim(line));
  }

  lemma KeepTrimmedIsEffective(t: string)
    ensures KeepTrimmed(t) <==> EffectiveKeepTrimmed(t)
  {
    if !StartsWith(t, "#") && t != [] && ByteLen(t) >= 5 {
      LongLineNavigationTerm(t);
      LongLineRegionName(t);
    }
  }
}
