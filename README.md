# markdown-harvest: string-processing core in Dafny

This project models the string-processing core of the `markdown-harvest` Rust library. The library finds `http(s)` URLs in free text, fetches each page, cuts the page's HTML down to its content, converts it to Markdown and cleans that Markdown for retrieval-augmented generation. The model covers these parts:

- **URL discovery** (`HttpRegex`, `HttpClient`):
  - `URL_REGEX` becomes a deterministic left-to-right scanner (`MatchLen`, `FindIter`). It is proved equal to an independent description of the pattern's language: at every position it takes the longest prefix in the language, as greedy leftmost-first matching does.
  - `clean_url` and `extract_urls` are modelled on top of the scanner, together with the source's own test cases.
- **HTTP configuration** (`HttpConfigs`, `HttpClient.BuildClient`): the by-value builder, the default configuration, and how `build_client` turns a configuration into client settings.
- **Fetching** (`HttpClient`):
  - The sequential loop of `handles_http_requests_results` is a method over an oracle `fetch(settings, agent, url)`.
  - The asynchronous entry point is reduced to the callbacks it makes.
- **HTML to Markdown** (`Rewrites`, `MarkdownCleanup`, `LineFilter`, `ContentProcessor`):
  - Every fixed regex `replace_all` of `final_clean_from_markdown` is an explicit scanner, composed in the source's order. The `unwanted_text_patterns` loop (src/content_processor.rs:147-151) is an abstract list of rewrites.
  - The line filter is modelled branch by branch, including its byte-length cutoff. It differs from the source only where `to_lowercase` maps a non-ASCII character to an ASCII letter (see `Text.Lower` under "## Left out").
  - The selection cascade of `clear_body` runs over an oracle for the HTML parser's selector matches.
- **Harvesting** (`MarkdownHarvester`): `get_hyperlinks_content` maps the page-to-Markdown conversion over the fetched pairs.

Strings are `seq<char>`. Rust's `len()` is the UTF-8 byte length (`Text.ByteLen`). `trim` and the regex class `\s` use the Unicode White_Space property (`Text.IsWhitespace`). `u64` and `usize` are subset types of `int`.

Points where the code behaves differently from what a reader might expect. The model follows the code in each case:

- Non-header lines whose trimmed form is shorter than 5 bytes are dropped (src/content_processor.rs:181). The code's own comment at src/content_processor.rs:230 speaks of lines "less than 2 characters". The `< 2` check that follows it (src/content_processor.rs:231) can never fire, and neither can the `menu` and `nav` comparisons.
- On ASCII input the navigation terms shorter than 5 letters never match either (`LineFilter.KeepIsEffectiveKeep`). The one exception in Rust is `back` spelled with the Kelvin sign, which `to_lowercase` turns into `k`. The model does not capture it (`Text.Lower` under "## Left out").
- Both the blocking and the asynchronous path pick one user agent for the whole batch (src/http_client.rs:102 and :150). In the model both paths take a single `agent` parameter.
- `\n\s*\n\s*\n` (src/content_processor.rs:154) shrinks any stretch of white space that holds three newlines, not only runs of blank lines. That stretch can include spaces and tabs on the lines in between.

## Model

| member | source | states |
|---|---|---|
| HttpRegex.SchemeLen | src/http_regex.rs:6 | the scheme `https?://` at the start is 8, 7 or 0 characters long, and a non-zero length covers exactly `http://` or `https://` |
| HttpRegex.MatchLen | src/http_regex.rs:6 | a match runs past the scheme by at least one character and stays inside the text |
| HttpRegex.SchemeUnique | src/http_regex.rs:6 | at most one scheme can start a string, so the scheme is determined by the text |
| HttpRegex.MatchLenIsLongest | src/http_regex.rs:6 | the scanner returns the longest prefix of the text in the pattern's language, and returns nothing exactly when no prefix is in the language |
| HttpRegex.MatchInLanguage | src/http_regex.rs:6 | what the scanner returns is in the language: scheme, non-empty path run, optional `?` and query run |
| HttpRegex.PrefixWithinMatch | src/http_regex.rs:6 | every prefix in the language ends within the scanner's match, because the greedy runs cannot be outrun |
| HttpRegex.LanguageSplit | src/http_regex.rs:6 | a string in the language splits at the end of the scheme and at the end of the path |
| HttpRegex.PathWithinRun | src/http_regex.rs:6 | a path that follows the scheme ends no later than the maximal path run |
| HttpRegex.QueryWithinRun | src/http_regex.rs:6 | a query after the `?` ends no later than the maximal query run |
| HttpRegex.MatchIsMaximal | src/http_regex.rs:6 | without a query the next character is neither a path character nor `?`; with a query it is not a query character |
| HttpRegex.MatchHasScheme | src/http_regex.rs:6 | every match starts with `http://` or `https://` followed by at least one character |
| HttpRegex.UrlBeforeStop | src/http_regex.rs:6 | scheme plus path followed by a character that can continue neither the path nor a query: the match is exactly scheme plus path |
| HttpRegex.UrlWithQueryBeforeStop | src/http_regex.rs:6 | with `?` and a query run, the match ends where the query run ends |
| HttpRegex.QueryUrlParts | src/http_regex.rs:6 | in scheme, path, `?`, query: the scheme, path run and query run end where those parts end |
| HttpRegex.MatchWithQuery | src/http_regex.rs:6 | when a `?` follows the path run, the match ends at the end of the query run |
| HttpRegex.SchemeAndPath | src/http_regex.rs:6 | the scheme and the path run of a string that starts with a scheme and a path |
| HttpRegex.QueryAfterMark | src/http_regex.rs:6 | the query run after a `?` ends at the first non-query character |
| HttpRegex.RunOver | src/http_regex.rs:6 | a run of exactly the given characters, stopped by the next character, ends after them |
| HttpRegex.NoCommaInMatch | src/http_regex.rs:6 | no match contains a comma, so a comma after a URL is never part of it |
| HttpRegex.FindIter | src/http_client.rs:66-67 | `find_iter`: every reported span is the scanner's match at its start; spans come in increasing order without overlap; every position where a match could start lies inside a reported span |
| HttpRegex.MatchThenRest | src/http_client.rs:66-67 | a match followed by the spans found after it keeps all three `find_iter` properties |
| HttpRegex.ConsMatches | src/http_client.rs:66-67 | prepending the match at the search position keeps every span a match |
| HttpRegex.ConsOrdered | src/http_client.rs:66-67 | prepending a span that ends before the rest start keeps the spans ordered |
| HttpRegex.ConsCovered | src/http_client.rs:66-67 | prepending the match keeps every possible match start covered |
| HttpRegex.Matches | src/http_client.rs:66-68 | the matched strings, one per span in order, each the text between the span's ends |
| HttpRegex.SpansAreLongest | src/http_client.rs:66-67 | every reported span is the longest prefix in the language at its start |
| HttpRegex.SpanIsLongest | src/http_client.rs:66-67 | a single span is the longest prefix in the language at its start |
| HttpRegex.MatchablesAreCovered | src/http_client.rs:66-67 | every position where a string of the language starts lies inside a reported span |
| HttpRegex.MatchAt | src/http_client.rs:66-68 | the k-th matched string is the scanner's match on some suffix of the text |
| HttpRegex.NoMatchesWhenNothingMatches | src/http_client.rs:264-266 | text where no string of the language starts yields no match |
| HttpConfigs.HttpConfigBuilder.Timeout | src/http_config.rs:24-27 | sets the timeout to `Some(ms)` and leaves the other two fields unchanged |
| HttpConfigs.HttpConfigBuilder.MaxRedirect | src/http_config.rs:29-32 | sets the redirect cap to `Some(n)` and leaves the other two fields unchanged |
| HttpConfigs.HttpConfigBuilder.CookieStore | src/http_config.rs:34-37 | sets the cookie flag and leaves the other two fields unchanged |
| HttpConfigs.HttpConfigBuilder.Build | src/http_config.rs:39-45 | copies all three fields verbatim into the configuration |
| HttpConfigs.NewBuilder | src/http_config.rs:16-22 | a new builder has no timeout, no redirect cap and cookies off |
| HttpConfigs.DefaultConfig | src/http_config.rs:1-6 | the derived default configuration has no timeout, no redirect cap and cookies off |
| HttpConfigs.Builder | src/http_config.rs:57-59 | `HttpConfig::builder()` is `HttpConfigBuilder::new()` |
| HttpConfigs.DefaultIsEmptyBuild | src/http_config.rs:144-159 | `HttpConfig::default()` equals `HttpConfig::builder().build()` |
| HttpConfigs.LaterSetterWins | src/http_config.rs:237-252 | calling the same setter twice keeps only the later value |
| HttpConfigs.SettersCommute | src/http_config.rs:217-235 | setters for different fields commute, so the chaining order does not change the result |
| HttpConfigs.BuildCopiesSetValues | src/http_config.rs:161-172 | after all three setters `build` gives exactly the values set, in either order |
| HttpConfigs.EdgeValuesSurvive | src/http_config.rs:254-276 | 0 and `u64::MAX` / `usize::MAX` pass through the builder unchanged |
| Wrappers.Option.UnwrapOr | src/http_client.rs:196 | `unwrap_or`: the held value when there is one, otherwise the default |
| HttpClient.TrimEndMatches | src/http_client.rs:229 | `trim_end_matches` with a character set: the result is a prefix of the input, everything cut off is in the set, and the result does not end in the set |
| HttpClient.TrimSet | src/http_client.rs:223-235 | the trimmed set is the sentence punctuation, plus `)` exactly when the `(` and `)` counts of the URL differ |
| HttpClient.CleanUrl | src/http_client.rs:219-238 | the result is a prefix of the URL; the removed suffix consists only of trim-set characters; the result does not end in a trim-set character |
| HttpClient.TrimEndMatchesKeeps | src/http_client.rs:229 | a string whose last character is outside the set is returned unchanged |
| HttpClient.CleanUrlBalancedKeepsParens | src/http_client.rs:226-230 | with balanced counts no parenthesis is removed |
| HttpClient.CleanUrlKeepsBalancedCloseParen | src/http_client.rs:226-230 | with balanced counts a trailing `)` is never removed |
| HttpClient.CleanUrlDropsUnbalancedCloseParen | src/http_client.rs:231-235 | with unbalanced counts a trailing `)` is always removed |
| HttpClient.CleanUrlIdempotent | src/http_client.rs:219-238 | cleaning a cleaned URL changes nothing |
| HttpClient.CleanUrlKeepsScheme | src/http_client.rs:219-238 | cleaning a URL that starts with a scheme keeps that scheme |
| HttpClient.CleanUrlDropsStrayParen | src/http_client.rs:231-235 | a `)` that nothing opened is trimmed, together with the sentence punctuation around it |
| HttpClient.TrimTail | src/http_client.rs:229 | trimming a tail made only of set characters gives back the part before it |
| HttpClient.CleanUrlStripsPunctuation | src/http_client.rs:227-230 | with balanced counts exactly the trailing sentence punctuation goes |
| HttpClient.CleanUrlStripsPunctuationParenFree | src/http_client.rs:227-230 | the same for a URL without parentheses |
| HttpClient.CleanUrlPeriodExample | src/http_client.rs:310 | `https://example.com.` is cleaned to `https://example.com` |
| HttpClient.CleanUrlStrayParenExample | src/http_client.rs:322 | `https://example.com)` is cleaned to `https://example.com` |
| HttpClient.CleanUrlKeepsParenthesisedSuffix | src/http_client.rs:316-319 | a URL ending in a balanced `(...)` is left whole |
| HttpClient.CleanUrlWikipediaExample | src/http_client.rs:316-319 | the `Concurrency_(computer_science)` URL is left whole |
| HttpClient.ExtractUrls | src/http_client.rs:65-70 | exactly one cleaned string per regex match, in the matches' left-to-right order, duplicates kept |
| HttpClient.CleanedMatchIsUrl | src/http_client.rs:65-70 | a cleaned match still starts with its scheme, holds no comma and is already clean |
| HttpClient.ExtractedUrlsAreClean | src/http_client.rs:65-70 | every extracted URL starts with a scheme, holds no comma and is a fixed point of cleaning |
| HttpClient.UrlBeforeSentenceEnd | src/http_client.rs:285-299 | a URL ending a sentence: the regex takes the final `.`, and cleaning drops it while keeping a balanced `)` |
| HttpClient.CleanBalancedBeforePeriod | src/http_client.rs:227-230 | cleaning scheme, balanced path and `.` drops only the `.` |
| HttpClient.QueryUrlBeforeSentenceEnd | src/http_client.rs:274-282 | `...poet.html?id=7425.`: the match includes the `.` and cleaning drops it, keeping the query |
| HttpClient.QueryMatchTakesPeriod | src/http_client.rs:274-282 | a `.` after a query is a query character, so the match runs over it |
| HttpClient.SchemeThenBalanced | src/http_client.rs:223-227 | a scheme holds no parenthesis, so it does not change the balance |
| HttpClient.ExtractUrlsEmpty | src/http_client.rs:264-266 | text in which no URL starts anywhere yields no URL |
| HttpClient.BuildClient | src/http_client.rs:191-217 | the default client exactly when no timeout is set; otherwise the timeout, `max_redirect` or 2, and the cookie flag |
| HttpClient.NoTimeoutIgnoresOtherSettings | src/http_client.rs:191-202 | without a timeout, `max_redirect` and `cookie_store` make no difference |
| HttpClient.Fetched | src/http_client.rs:104-137 | the pairs of the URLs whose GET produced a body are never more than the URLs |
| HttpClient.FirstOfEach | src/http_client.rs:126 | the URL of every pair, in order |
| HttpClient.FetchedIsSuccessfulSubsequence | src/http_client.rs:104-137 | the result URLs are an order-preserving subsequence of the input; each body is what that URL's GET returned; every URL whose GET produced a body has its pair; there are exactly as many pairs as successful GETs, so a URL extracted twice gives a pair per success |
| HttpClient.FetchedAllFailed | src/http_client.rs:124-134 | when every GET fails, nothing is returned |
| HttpClient.HandlesHttpRequestsResults | src/http_client.rs:96-138 | one GET per URL in order with one client and agent; the result is the successful pairs (`Fetched`) |
| HttpClient.FetchContentFromText | src/http_client.rs:31-41 | text without URLs returns empty without sending anything; otherwise the extracted URLs are fetched in order |
| HttpClient.CallbackFor | src/http_client.rs:152-186 | per URL: `Some(url)` with the body, an empty body on a read failure, or `Error: ` and the error text on a send failure |
| HttpClient.FetchContentFromTextAsync | src/http_client.rs:43-63 | no URLs: exactly one `(None, None)` callback; otherwise one callback per URL |
| HttpClient.CallbacksFor | src/http_client.rs:140-189 | one callback per URL, whatever the outcome, never `(None, None)` |
| HttpClient.AsyncCoversSync | src/http_client.rs:31-63 | every pair the sequential path returns arrives as a callback of the asynchronous path, assuming one deterministic fetch answers both runs |
| Sequences.SubsequenceIndex | src/http_client.rs:104-137 | each element of a subsequence occurs somewhere in the sequence it came from |
| Sequences.SubsequenceExtend | src/content_processor.rs:169-239 | a subsequence of a prefix is a subsequence of the whole |
| Sequences.SubsequenceDropLast | src/content_processor.rs:169-239 | dropping the last element of a subsequence leaves a subsequence |
| Text.Utf8Len | src/content_processor.rs:181 | a character takes 1 to 4 UTF-8 bytes, and exactly 1 when it is ASCII |
| Text.ByteLen | src/content_processor.rs:181 | `str::len`: between the character count and four times it |
| Text.ByteLenAscii | src/content_processor.rs:181 | on ASCII text the byte length is the character count |
| Text.LowerChar | src/content_processor.rs:186 | ASCII capitals move to lower case; every other character is unchanged |
| Text.Lower | src/content_processor.rs:186 | same length, with each character lower-cased |
| Text.LowerOfAscii | src/content_processor.rs:186 | an ASCII lower-cased result came from ASCII text |
| Text.TrimStart | src/content_processor.rs:173 | drops exactly the leading white space |
| Text.TrimEnd | src/content_processor.rs:173 | drops exactly the trailing white space |
| Text.Trim | src/content_processor.rs:166 | no white space at either end; empty exactly when the input is all white space; a slice of the input |
| Text.TrimPieces | src/content_processor.rs:173 | the trimmed text is the input between the cut-off white space |
| Text.AllWhitespaceConcat | src/content_processor.rs:173 | joining two all-white-space strings gives an all-white-space string |
| Text.RunEnd | src/http_regex.rs:6 | the end of the maximal run of class characters from a position |
| Text.RunEndIs | src/http_regex.rs:6 | the run end is fixed by the run's characters and the one that stops it |
| Text.AllInConcat | src/http_regex.rs:6 | joining two strings of one class stays in that class |
| Text.FirstIndexOf | src/content_processor.rs:124 | the first index of a character from a position, or the length when there is none |
| Rewrites.NoMatchUnchanged | src/content_processor.rs:124-164 | `replace_all` returns text in which the pattern matches nowhere unchanged |
| Rewrites.CopiesUnmatchedPrefix | src/content_processor.rs:124-164 | a prefix in which no match starts is copied through as it is |
| Rewrites.Outside | src/content_processor.rs:141-164 | the characters outside a class, in order, are never more than the input |
| Rewrites.OutsideConcat | src/content_processor.rs:141-164 | taking the characters outside a class distributes over concatenation |
| Rewrites.OutsideOfClass | src/content_processor.rs:141-164 | a string wholly in the class has nothing outside it |
| Rewrites.ReplaceAllKeepsOutside | src/content_processor.rs:141-164 | a rewrite that matches and inserts only class characters leaves the text outside the class unchanged |
| Rewrites.MatchedStepKeepsOutside | src/content_processor.rs:141-164 | one replaced match keeps the text outside the class |
| Rewrites.CopiedStepKeepsOutside | src/content_processor.rs:141-164 | one copied character keeps the text outside the class |
| MarkdownCleanup.DeletingKeepsChars | src/content_processor.rs:124-138 | a deleting rewrite never introduces a character |
| MarkdownCleanup.RemoveTagsLeavesNoTag | src/content_processor.rs:124-125 | after tag removal no `<`, one or more non-`>` characters, `>` sequence remains |
| MarkdownCleanup.RemoveTagsKeepsPlainText | src/content_processor.rs:124-125 | text without `<` is unchanged by tag removal |
| MarkdownCleanup.LinkAtLink | src/content_processor.rs:128 | the link pattern matches a whole `[caption](target)` and yields the caption |
| MarkdownCleanup.NoLinkInPrefix | src/content_processor.rs:128 | no link starts inside text without `[` |
| MarkdownCleanup.LinkBecomesLabel | src/content_processor.rs:128-129 | a well-formed `[caption](target)` is replaced by its caption and the rest is processed on |
| MarkdownCleanup.InlineLinksKeepsPlainText | src/content_processor.rs:128-129 | text without `[` is unchanged by the link step |
| MarkdownCleanup.BareUrlNeedsPrefix | src/content_processor.rs:132 | whether a bare URL starts depends only on the scheme and the character after it |
| MarkdownCleanup.SchemeIsSolid | src/content_processor.rs:132 | a scheme holds no white space |
| MarkdownCleanup.DeletionStopsAtWhitespace | src/content_processor.rs:132-133 | after a bare URL is deleted, what follows is empty or starts with white space |
| MarkdownCleanup.SolidPrefixKept | src/content_processor.rs:132-133 | a white-space-free start of the output was already the start of the input |
| MarkdownCleanup.RemoveBareUrlsLeavesNone | src/content_processor.rs:132-133 | after the URL step no `http://` or `https://` is followed by a non-white-space character |
| MarkdownCleanup.NextFence | src/content_processor.rs:137 | the first ```` ``` ```` at or after a position, or the length when there is none |
| MarkdownCleanup.NoCodeBlockInPrefix | src/content_processor.rs:137 | no code block starts inside text without a backtick |
| MarkdownCleanup.CodeBlockAtBlock | src/content_processor.rs:137 | the lazy pattern matches a fenced block up to its first closing fence |
| MarkdownCleanup.CodeBlockRemoved | src/content_processor.rs:137-138 | a fenced block is deleted and the text before it is kept |
| MarkdownCleanup.RemoveCodeBlocksKeepsPlainText | src/content_processor.rs:137-138 | text without a backtick is unchanged by the code step |
| MarkdownCleanup.RunsShift | src/content_processor.rs:141-164 | runs in the second half of a concatenation are that half's runs |
| MarkdownCleanup.JoinRuns | src/content_processor.rs:141-164 | a short run before a string whose runs are bounded keeps the bound |
| MarkdownCleanup.ConsOutside | src/content_processor.rs:141-164 | a character outside the class in front keeps the bound |
| MarkdownCleanup.ShortRunUnmatched | src/content_processor.rs:141-164 | a run shorter than the pattern's minimum is not matched anywhere inside it |
| MarkdownCleanup.CollapsedRunsBounded | src/content_processor.rs:141-164 | collapsing runs of at least `min` into a replacement of length at most `bound` leaves no run longer than `bound` |
| MarkdownCleanup.RunsOfSuffix | src/content_processor.rs:141-164 | a suffix keeps the run bound |
| MarkdownCleanup.PrefixOutside | src/content_processor.rs:141-164 | a prefix free of the class keeps the run bound |
| MarkdownCleanup.LeadingRunNoLonger | src/content_processor.rs:141-145 | collapsing one class never lengthens the leading run of a disjoint class |
| MarkdownCleanup.ConsOther | src/content_processor.rs:141-145 | a class character in front keeps the bound when the leading run does |
| MarkdownCleanup.RunReplacedOrCopied | src/content_processor.rs:141-164 | a leading run is replaced when long enough and copied otherwise |
| MarkdownCleanup.CollapseKeepsOtherRuns | src/content_processor.rs:141-145 | collapsing one class keeps a bound on the runs of a disjoint class |
| MarkdownCleanup.CollapseBlanksSingleBlanks | src/content_processor.rs:141-142 | after step 5 no two neighbouring characters are both space or tab |
| MarkdownCleanup.CollapseNewlinesAtMostTwo | src/content_processor.rs:144-145 | after step 6 no three consecutive newlines occur |
| MarkdownCleanup.CapNewlinesAtMostThree | src/content_processor.rs:161-164 | after step 10 no four consecutive newlines occur |
| MarkdownCleanup.CollapseNewlinesKeepsSingleBlanks | src/content_processor.rs:141-145 | step 6 keeps the single-blank property of step 5 |
| MarkdownCleanup.RunAtTouchesWhitespace | src/content_processor.rs:141-164 | a white-space run pattern only matches and inserts white space |
| MarkdownCleanup.CollapseBlanksKeepsText | src/content_processor.rs:141-142 | step 5 changes only white space: the other characters are unchanged and in order |
| MarkdownCleanup.CollapseNewlinesKeepsText | src/content_processor.rs:144-145 | step 6 changes only white space |
| MarkdownCleanup.CapNewlinesKeepsText | src/content_processor.rs:161-164 | step 10 changes only white space |
| MarkdownCleanup.LastIndexBefore | src/content_processor.rs:154 | the last index of a character before a bound, or -1 |
| MarkdownCleanup.BlankLinesAtShape | src/content_processor.rs:154 | a match of `\n\s*\n\s*\n` is white space from a newline to a newline, with a third newline in between |
| MarkdownCleanup.CollapseBlankLinesKeepsText | src/content_processor.rs:154-155 | step 8 changes only white space |
| MarkdownCleanup.BlankLineGapCollapses | src/content_processor.rs:154-155 | three newlines separated by blanks collapse to two newlines |
| MarkdownCleanup.RunsOfPrefix | src/content_processor.rs:161-166 | a prefix keeps the run bound |
| MarkdownCleanup.RunsOfTrim | src/content_processor.rs:166 | trimming keeps the run bound |
| MarkdownCleanup.CollapseStepsTidy | src/content_processor.rs:141-145 | after steps 5 and 6 blanks come singly and newlines at most in pairs |
| LineFilter.DropCr | src/content_processor.rs:158 | a line loses at most one trailing carriage return |
| LineFilter.Lines | src/content_processor.rs:158 | `str::lines`: no lines exactly for empty text, and no line holds a newline |
| LineFilter.JoinLines | src/content_processor.rs:158 | splitting into lines and joining with `\n` gives back text that has no carriage return and no final line ending |
| LineFilter.RemoveMetadataLines | src/content_processor.rs:169-239 | the filter never returns more lines than it gets |
| LineFilter.KeptLines | src/content_processor.rs:169-239 | a line is in the output exactly when it is in the input and passes the predicate |
| LineFilter.KeptLineCounts | src/content_processor.rs:169-239 | every occurrence of a kept line survives: a line that passes the predicate occurs as often in the output as in the input, any other line not at all |
| LineFilter.KeptLinesAreSubsequence | src/content_processor.rs:169-239 | the output is an order-preserving subsequence of the input, with kept lines unchanged and not trimmed |
| LineFilter.RemoveMetadataLinesIdempotent | src/content_processor.rs:169-239 | filtering twice equals filtering once |
| LineFilter.HeaderKept | src/content_processor.rs:175-178 | a line whose trimmed form starts with `#` is kept, whatever its length or content |
| LineFilter.BlankLineKept | src/content_processor.rs:180-183 | a white-space-only line is kept |
| LineFilter.ShortLineDropped | src/content_processor.rs:180-183 | any other non-header line under 5 bytes once trimmed is dropped |
| LineFilter.LowerWordLength | src/content_processor.rs:186 | a line that lower-cases to an ASCII word has as many bytes as the word has letters |
| LineFilter.LongLineNavigationTerm | src/content_processor.rs:189-215 | a line of 5 or more bytes equals a navigation term exactly when it equals one of the terms of 5 or more letters |
| LineFilter.LongLineRegionName | src/content_processor.rs:218-228 | a line of 5 or more bytes equals a region name exactly when it is `navigation`, `footer`, `header` or `sidebar` |
| LineFilter.KeepIsEffectiveKeep | src/content_processor.rs:172-236 | the filter keeps a line exactly when it is a header, blank, or at least 5 bytes and neither a long navigation term, nor starting with `http`, nor holding `@`, nor a long region name; the `< 2` test never decides |
| LineFilter.KeepTrimmedIsEffective | src/content_processor.rs:172-236 | the same statement for an already trimmed line |
| ContentProcessor.NextIgnoringCase | src/content_processor.rs:55-60 | the first case-insensitive occurrence of a word from a position, or the length when there is none |
| ContentProcessor.ElementAt | src/content_processor.rs:55-60 | an element match is always replaced by nothing |
| ContentProcessor.NoElementInPrefix | src/content_processor.rs:55-60 | no element starts inside text without `<` |
| ContentProcessor.ElementAtEnds | src/content_processor.rs:55-60 | the match runs from the opening tag to the first case-insensitive closing tag after its `>`, whatever else lies between |
| ContentProcessor.OpenTagHasNoClose | src/content_processor.rs:55 | an opening `<name` holds no `>` |
| ContentProcessor.ElementAtElement | src/content_processor.rs:55-60 | `<name attrs>body</name>` matches in full, in any letter case, for any body that holds no closing tag of its own (`<` included) |
| ContentProcessor.ClosingTagNotInBody | src/content_processor.rs:55-60 | the lazy `[\s\S]*?` cannot stop inside a body that holds no closing tag, nor at one that straddles the body's end |
| ContentProcessor.ElementRemoved | src/content_processor.rs:55-60 | such an element is deleted and the text before it kept |
| ContentProcessor.ScriptWithComparisonRemoved | src/content_processor.rs:55-56 | `<script>if(a<b)f()</script>` is removed whole, although its code holds `<` |
| ContentProcessor.ReplacesElement | src/content_processor.rs:55-60 | a matched element contributes nothing to the output |
| ContentProcessor.RemoveScriptsAndStylesKeepsPlainText | src/content_processor.rs:54-60 | text without `<` passes both element steps unchanged |
| ContentProcessor.TerminatedConcat | src/content_processor.rs:86-89 | appending each element with its `\n` distributes over concatenation |
| ContentProcessor.TerminatedElements | src/content_processor.rs:86-89 | each selected element appears in full, followed by `\n` |
| ContentProcessor.GatheredIffAnyMatch | src/content_processor.rs:84-92 | something is gathered exactly when some selector matched an element |
| ContentProcessor.ContainersWin | src/content_processor.rs:94-104 | once a content container matched, the text selectors make no difference |
| ContentProcessor.GatheredAgrees | src/content_processor.rs:84-104 | the gathered text depends only on the selectors' matches |
| ContentProcessor.NothingSelectedKeepsBody | src/content_processor.rs:106-109 | with no selector matching, the whole cleaned body is kept |
| ContentProcessor.TerminatedStep | src/content_processor.rs:86-89 | one more element appends that element and its `\n` |
| ContentProcessor.GatheredStep | src/content_processor.rs:84-92 | one more selector appends exactly its elements, each followed by `\n` |
| ContentProcessor.AnyMatchStep | src/content_processor.rs:84-92 | after one more selector the flag is set exactly when it was set before or this selector matched |
| ContentProcessor.ApplyRewrites | src/content_processor.rs:63-72 | the loop over a pattern table applies each rewrite in table order |
| ContentProcessor.AppendSelected | src/content_processor.rs:84-104 | appends every element of every selector, each followed by `\n`; the flag is set exactly when some selector matched |
| ContentProcessor.ClearBody | src/content_processor.rs:51-118 | `clear_body` computes the script, style, media and unwanted rewrites, the selection cascade and the final cleanup |
| ContentProcessor.SelectRelevant | src/content_processor.rs:74-109 | containers if any matched, otherwise text elements, otherwise the cleaned body when the result is blank |
| ContentProcessor.FinalCleanIsTidy | src/content_processor.rs:161-166 | the final output has no white space at either end and no run of four or more newlines |
| ContentProcessor.FinalCleanFromMarkdown | src/content_processor.rs:120-167 | the eleven steps in the source's order; the result is trimmed and has no run of four newlines |
| ContentProcessor.CleanedMarkdownIsTidy | src/content_processor.rs:30-49 | the Markdown of any page is trimmed and has no run of four newlines |
| ContentProcessor.HtmlToMarkdown | src/content_processor.rs:25-49 | a page without a body gives the empty string; otherwise the cleared body is converted and cleaned |
| MarkdownHarvester.Converted | src/markdown_harvester.rs:76-83 | one output pair per fetched pair |
| MarkdownHarvester.ConvertedPointwise | src/markdown_harvester.rs:76-80 | each output pair keeps its page's URL unchanged and converts that page alone |
| MarkdownHarvester.ConvertPages | src/markdown_harvester.rs:74-83 | the loop pushes (URL, Markdown) for every fetched page, in order |
| MarkdownHarvester.ConvertedPagesCoverFetched | src/markdown_harvester.rs:67-83 | output URLs are an order-preserving subsequence of the extracted URLs; each pair holds the conversion of its own URL's page; every successfully fetched URL has its pair; one pair per successful GET, repeats included |
| MarkdownHarvester.GetHyperlinksContent | src/markdown_harvester.rs:62-84 | one (URL, Markdown) pair per successful GET of an extracted URL, in order, repeats included; unreachable URLs give none and stop nothing; nothing fetched gives an empty result |

## Left out

- Network I/O is left out: reqwest `send` and `text`, TLS, redirects and cookie jars. A GET is an oracle `fetch(settings, agent, url)` that yields a body, a send failure or a read failure.
- A client build failure falls back to the default client (src/http_client.rs:200, 214). This is not modelled, because the failure comes from the library.
- Concurrency is left out: `join_all`, futures, and the order in which callbacks complete. `HttpClient.FetchContentFromTextAsync` lists the callbacks in URL order.
- `build_client_async` follows the same decision as `build_client`, so both are modelled by `HttpClient.BuildClient`.
- The random user agent (src/user_agent.rs) is a parameter `agent`. The fixed request headers are not modelled.
- HTML parsing and conversion are left out: `Html::parse_document`, the body selector, `Selector::parse`, `select` and `html2md::parse_html` are the oracles of `ContentProcessor.HtmlTools`. A selector that fails to parse is folded into `select` returning no elements. The empty-page tests (src/content_processor.rs:252-263) depend on the parser and are stated only as "no body gives the empty string".
- The pattern tables `media_elements`, `unwanted_elements`, `additional_cleanup` and `unwanted_text_patterns` (src/patterns.rs) are left out. They are abstract rewrite lists in `ContentProcessor.PatternTables`, applied in table order. Their regexes use Unicode word boundaries, case folding of accented words and lazy HTML matches.
- ContentProcessor.ElementAt: `(?i)` is matched with ASCII case only. Rust's regex also folds `ſ` (U+017F) to `s` and the Kelvin sign (U+212A) to `k`, so `<ſcript>` is not treated as a script tag here.
- Text.LowerChar: lower-cases the ASCII capitals only; it is the per-character part of the Text.Lower gap on the next line.
- Text.Lower: `to_lowercase` is modelled on ASCII letters only. The Kelvin sign lower-cases to `k`, so in Rust the 6-byte line `bacK` with a Kelvin sign equals the navigation term `back` and is dropped. The model keeps it.
- `println!` and `eprintln!` output is left out (src/markdown_harvester.rs:78-79, src/http_client.rs:129, 133).
- Chunking, src/main.rs, the examples and src/lib.rs are not part of this model.
- `usize` is taken to be 64 bits wide.
