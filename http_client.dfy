/**
 * src/http_client.rs: URL extraction and cleaning, the client settings chosen
 * from an `HttpConfig`, the sequential fetch loop and the callback rule of the
 * asynchronous variant. The network is an oracle: `fetch(settings, agent, url)`
 * says what a GET of `url` with that client and `User-Agent` header yields.
 */
module HttpClient {
  import opened Wrappers
  import opened Text
  import opened HttpRegex
  import opened HttpConfigs
  import opened Sequences

  /** The characters `clean_url` always trims from the end of a URL. */
  const SentencePunctuation: set<char> := {'.', ',', ';', '!', '?', ']', '}'}

  /** Number of occurrences of `c` in `s`. */
  function Count(s: string, c: char): nat {
    multiset(s)[c]
  }

  /**
   * `str::trim_end_matches` with a character set: the longest prefix of `s`
   * after which only characters of `cs` follow.
   */
  function TrimEndMatches(s: string, cs: set<char>): (r: string)
    ensures |r| <= |s| && r == s[..|r|]
    ensures forall i :: |r| <= i < |s| ==> s[i] in cs
    ensures r == [] || r[|r| - 1] !in cs
  {
    if s != [] && s[|s| - 1] in cs then TrimEndMatches(s[..|s| - 1], cs) else s
  }

  /** The set `clean_url` trims: `)` joins it only when the parentheses are unbalanced. */
  function TrimSet(url: string): (cs: set<char>)
    ensures cs == SentencePunctuation || cs == SentencePunctuation + {')'}
    ensures ')' in cs <==> Count(url, '(') != Count(url, ')')
  {
    if Count(url, '(') == Count(url, ')') then SentencePunctuation else SentencePunctuation + {')'}
  }

  /**
   * `clean_url`: strips trailing sentence punctuation, and a trailing `)` only
   * when the URL's own `(` and `)` counts differ. The counts are taken on the
   * URL as matched, before anything is stripped.
   */
  function CleanUrl(url: string): (r: string)
    ensures |r| <= |url| && r == url[..|r|]
    ensures forall i :: |r| <= i < |url| ==> url[i] in TrimSet(url)
    ensures r == [] || r[|r| - 1] !in TrimSet(url)
  {
    TrimEndMatches(url, TrimSet(url))
  }

  /** A string whose last character is not trimmed is left as it is. */
  lemma TrimEndMatchesKeeps(s: string, cs: set<char>)
    requires s == [] || s[|s| - 1] !in cs
    ensures TrimEndMatches(s, cs) == s
  {
  }

  /** Cleaning removes no parenthesis when the URL's parentheses are balanced. */
  lemma CleanUrlBalancedKeepsParens(url: string)
    requires Count(url, '(') == Count(url, ')')
    ensures Count(CleanUrl(url), '(') == Count(url, '(')
    ensures Count(CleanUrl(url), ')') == Count(url, ')')
  {
    var r := CleanUrl(url);
    var tail := url[|r|..];
    assert url == r + tail;
    assert '(' !in tail && ')' !in tail by {
      forall k | 0 <= k < |tail| ensures tail[k] != '(' && tail[k] != ')' {
        assert tail[k] == url[|r| + k];
      }
    }
    assert multiset(url) == multiset(r) + multiset(tail);
  }

  /** With balanced parentheses a URL ending in `)` is left whole. */
  lemma CleanUrlKeepsBalancedCloseParen(url: string)
    requires Count(url, '(') == Count(url, ')')
    requires url != [] && url[|url| - 1] == ')'
    ensures CleanUrl(url) == url
  {
    TrimEndMatchesKeeps(url, TrimSet(url));
  }

  /** With unbalanced parentheses a trailing `)` is always removed. */
  lemma CleanUrlDropsUnbalancedCloseParen(url: string)
    requires Count(url, '(') != Count(url, ')')
    requires url != [] && url[|url| - 1] == ')'
    ensures |CleanUrl(url)| < |url|
    ensures CleanUrl(url) == [] || CleanUrl(url)[|CleanUrl(url)| - 1] != ')'
  {
  }

  /** Cleaning an already cleaned URL changes nothing. */
  lemma CleanUrlIdempotent(url: string)
    ensures CleanUrl(CleanUrl(url)) == CleanUrl(url)
  {
    var r := CleanUrl(url);
    if Count(url, '(') == Count(url, ')') {
      CleanUrlBalancedKeepsParens(url);
      assert TrimSet(r) == TrimSet(url);
    }
    TrimEndMatchesKeeps(r, TrimSet(r));
  }

  /** A URL keeps its scheme: `/` ends every scheme and is never trimmed. */
  lemma CleanUrlKeepsScheme(url: string)
    requires SchemeLen(url) != 0
    ensures SchemeLen(CleanUrl(url)) == SchemeLen(url)
  {
    var n := SchemeLen(url);
    var r := CleanUrl(url);
    assert url[n - 1] == url[..n][n - 1] == '/';
    assert r[..n] == url[..n];
    if n == 7 && |r| >= 8 {
      assert r[..8] == url[..8];
    }
  }

  /**
   * A stray `)` after a URL without parentheses is trimmed, together with any
   * sentence punctuation around it.
   */
  lemma {:induction false} CleanUrlDropsStrayParen(base: string, tail: string)
    requires '(' !in base && ')' !in base
    requires base != [] && base[|base| - 1] !in SentencePunctuation
    requires ')' in tail && forall i :: 0 <= i < |tail| ==> tail[i] in SentencePunctuation + {')'}
    ensures CleanUrl(base + tail) == base
  {
    var url := base + tail;
    assert multiset(url) == multiset(base) + multiset(tail);
    assert Count(url, '(') == multiset(tail)['('] == 0;
    assert Count(url, ')') == multiset(tail)[')'] > 0;
    TrimTail(base, tail, TrimSet(url));
  }

  /** Trimming a tail made only of trimmed characters gives back the part before it. */
  lemma {:induction false} TrimTail(base: string, tail: string, cs: set<char>)
    requires base == [] || base[|base| - 1] !in cs
    requires forall i :: 0 <= i < |tail| ==> tail[i] in cs
    ensures TrimEndMatches(base + tail, cs) == base
    decreases |tail|
  {
    if tail == [] {
      assert base + tail == base;
      TrimEndMatchesKeeps(base, cs);
    } else {
      var shorter := tail[..|tail| - 1];
      assert (base + tail)[..|base + tail| - 1] == base + shorter;
      TrimTail(base, shorter, cs);
    }
  }

  /**
   * With balanced parentheses only the trailing sentence punctuation goes; a
   * closing parenthesis before it stays.
   */
  lemma CleanUrlStripsPunctuation(base: string, tail: string)
    requires Count(base, '(') == Count(base, ')')
    requires base == [] || base[|base| - 1] !in SentencePunctuation
    requires forall i :: 0 <= i < |tail| ==> tail[i] in SentencePunctuation
    ensures CleanUrl(base + tail) == base
  {
    var url := base + tail;
    assert multiset(url) == multiset(base) + multiset(tail);
    assert '(' !in tail && ')' !in tail;
    assert TrimSet(url) == SentencePunctuation;
    TrimTail(base, tail, TrimSet(url));
  }

  /** Cases of the source's `clean_url` test: a trailing `.` goes ... */
  lemma CleanUrlPeriodExample()
    ensures CleanUrl("https://example.com" + ".") == "https://example.com"
  {
    var base := "https://example.com";
    assert '(' !in base && ')' !in base;
    CleanUrlStripsPunctuationParenFree(base, ".");
  }

  /** ... and so does a `)` that nothing opened. */
  lemma CleanUrlStrayParenExample()
    ensures CleanUrl("https://example.com" + ")") == "https://example.com"
  {
    var base := "https://example.com";
    assert '(' !in base && ')' !in base;
    CleanUrlDropsStrayParen(base, ")");
  }

  /** CleanUrlStripsPunctuation for a URL without any parenthesis. */
  lemma CleanUrlStripsPunctuationParenFree(base: string, tail: string)
    requires '(' !in base && ')' !in base
    requires base == [] || base[|base| - 1] !in SentencePunctuation
    requires forall i :: 0 <= i < |tail| ==> tail[i] in SentencePunctuation
    ensures CleanUrl(base + tail) == base
  {
    ParenFreeIsBalanced(base);
    CleanUrlStripsPunctuation(base, tail);
  }

  lemma ParenFreeIsBalanced(s: string)
    requires '(' !in s && ')' !in s
    ensures Count(s, '(') == Count(s, ')')
  {
  }

  /** A URL that ends in a balanced parenthesised part is left whole. */
  lemma CleanUrlKeepsParenthesisedSuffix(base: string, inner: string)
    requires '(' !in base && ')' !in base && '(' !in inner && ')' !in inner
    ensures CleanUrl(base + "(" + inner + ")") == base + "(" + inner + ")"
  {
    var url := base + "(" + inner + ")";
    assert multiset(url) == multiset(base) + multiset{'('} + multiset(inner) + multiset{')'};
    CleanUrlKeepsBalancedCloseParen(url);
  }

  /** The Wikipedia case of the source's `clean_url` test. */
  lemma CleanUrlWikipediaExample()
    ensures var url := "https://en.wikipedia.org/wiki/Concurrency_" + "(" + "computer_science" + ")";
      CleanUrl(url) == url
  {
    NoParensInWikipediaPrefix();
    CleanUrlKeepsParenthesisedSuffix("https://en.wikipedia.org/wiki/Concurrency_", "computer_science");
  }

  lemma NoParensInWikipediaPrefix()
    ensures '(' !in "https://en.wikipedia.org/wiki/Concurrency_"
    ensures ')' !in "https://en.wikipedia.org/wiki/Concurrency_"
  {
    NoOpenParenInWikipediaPrefix();
  }

  lemma NoOpenParenInWikipediaPrefix()
    ensures '(' !in "https://en.wikipedia.org/wiki/Concurrency_"
  {
  }

  /**
   * `extract_urls`: one cleaned string per `URL_REGEX` match, in the order the
   * matches occur in the text, duplicates kept.
   */
  function ExtractUrls(text: string): (urls: seq<string>)
    ensures |urls| == |Matches(text)|
    ensures forall k :: 0 <= k < |urls| ==> urls[k] == CleanUrl(Matches(text)[k])
  {
    var ms := Matches(text);
    seq(|ms|, k requires 0 <= k < |ms| => CleanUrl(ms[k]))
  }

  /**
   * A cleaned match still begins with `http://` or `https://`, contains no
   * comma, and does not end in a character its cleaning would trim.
   */
  lemma CleanedMatchIsUrl(t: string)
    requires MatchLen(t).Some?
    ensures var u := CleanUrl(t[..MatchLen(t).value]);
      SchemeLen(u) != 0 && ',' !in u && CleanUrl(u) == u
  {
    var m := t[..MatchLen(t).value];
    var u := CleanUrl(m);
    MatchHasScheme(t);
    NoCommaInMatch(t);
    CleanUrlKeepsScheme(m);
    CleanUrlIdempotent(m);
    assert ',' !in u by {
      forall x | 0 <= x < |u| ensures u[x] != ',' { assert u[x] == m[x]; }
    }
  }

  /** Every URL `extract_urls` yields has the properties of CleanedMatchIsUrl. */
  lemma ExtractedUrlsAreClean(text: string)
    ensures forall k :: 0 <= k < |ExtractUrls(text)| ==>
      var u := ExtractUrls(text)[k];
      SchemeLen(u) != 0 && ',' !in u && CleanUrl(u) == u
  {
    var urls := ExtractUrls(text);
    forall k | 0 <= k < |urls|
      ensures SchemeLen(urls[k]) != 0 && ',' !in urls[k] && CleanUrl(urls[k]) == urls[k]
    {
      var t, n := MatchAt(text, k);
      CleanedMatchIsUrl(t);
    }
  }

  /**
   * A URL at the end of a sentence, as in the source's Wikipedia test: the
   * regex takes the final `.` into the match (it is a path character) and
   * cleaning removes it again, keeping a balanced `)` before it.
   */
  lemma UrlBeforeSentenceEnd(scheme: string, body: string, rest: string)
    requires IsScheme(scheme) && body != [] && AllIn(body, IsPathChar) && body[|body| - 1] != '.'
    requires Count(body, '(') == Count(body, ')')
    requires rest == [] || (!IsPathChar(rest[0]) && rest[0] != '?')
    ensures MatchLen(scheme + body + "." + rest) == Some(|scheme| + |body| + 1)
    ensures CleanUrl(scheme + body + ".") == scheme + body
  {
    assert MatchLen(scheme + body + "." + rest) == Some(|scheme| + |body| + 1) by {
      AllInConcat(body, ".", IsPathChar);
      assert scheme + body + "." + rest == scheme + (body + ".") + rest;
      UrlBeforeStop(scheme, body + ".", rest);
    }
    CleanBalancedBeforePeriod(scheme, body);
  }

  /** Cleaning a scheme, a balanced path and a final `.` drops only the `.`. */
  lemma CleanBalancedBeforePeriod(scheme: string, body: string)
    requires IsScheme(scheme) && body != [] && IsQueryChar(body[|body| - 1]) && body[|body| - 1] != '.'
    requires Count(body, '(') == Count(body, ')')
    ensures CleanUrl(scheme + body + ".") == scheme + body
  {
    SchemeThenBalanced(scheme, body);
    var base := scheme + body;
    assert base[|base| - 1] == body[|body| - 1];
    QueryCharNotTrimmed(body[|body| - 1]);
    CleanUrlStripsPunctuation(base, ".");
  }

  /** Of the URL characters only `.` is sentence punctuation. */
  lemma QueryCharNotTrimmed(c: char)
    requires IsQueryChar(c) && c != '.'
    ensures c !in SentencePunctuation
  {
  }

  /**
   * The same after a query string, as in the source's poetry test: the final
   * `.` belongs to the match and cleaning removes it, keeping the query.
   */
  lemma QueryUrlBeforeSentenceEnd(scheme: string, path: string, query: string, rest: string)
    requires IsScheme(scheme) && path != [] && AllIn(path, IsPathChar)
    requires query != [] && AllIn(query, IsQueryChar) && query[|query| - 1] != '.'
    requires Count(path + "?" + query, '(') == Count(path + "?" + query, ')')
    requires rest == [] || !IsQueryChar(rest[0])
    ensures MatchLen(scheme + path + "?" + query + "." + rest) == Some(|scheme| + |path| + 1 + |query| + 1)
    ensures CleanUrl(scheme + path + "?" + query + ".") == scheme + path + "?" + query
  {
    QueryMatchTakesPeriod(scheme, path, query, rest);
    var body := path + "?" + query;
    assert body[|body| - 1] == query[|query| - 1];
    CleanBalancedBeforePeriod(scheme, body);
    Associative(scheme, path + "?", query);
    Associative(scheme, path, "?");
  }

  /** A `.` is a query character, so the match runs over it. */
  lemma QueryMatchTakesPeriod(scheme: string, path: string, query: string, rest: string)
    requires IsScheme(scheme) && path != [] && AllIn(path, IsPathChar) && AllIn(query, IsQueryChar)
    requires rest == [] || !IsQueryChar(rest[0])
    ensures MatchLen(scheme + path + "?" + query + "." + rest) == Some(|scheme| + |path| + 1 + |query| + 1)
  {
    AllInConcat(query, ".", IsQueryChar);
    assert scheme + path + "?" + query + "." + rest == scheme + path + "?" + (query + ".") + rest;
    UrlWithQueryBeforeStop(scheme, path, query + ".", rest);
  }

  lemma Associative(a: string, b: string, c: string)
    ensures a + (b + c) == a + b + c
  {
  }

  /** A scheme holds no parenthesis, so it does not change the balance of what follows. */
  lemma SchemeThenBalanced(scheme: string, s: string)
    requires IsScheme(scheme) && Count(s, '(') == Count(s, ')')
    ensures Count(scheme + s, '(') == Count(scheme + s, ')')
  {
    assert multiset(scheme + s) == multiset(scheme) + multiset(s);
    SchemeHasNoParens(scheme);
  }

  /** Neither scheme holds a parenthesis. */
  lemma SchemeHasNoParens(scheme: string)
    requires IsScheme(scheme)
    ensures multiset(scheme)['('] == 0 && multiset(scheme)[')'] == 0
  {
    if scheme == "http://" {
      assert '(' !in scheme && ')' !in scheme;
    } else {
      assert '(' !in scheme && ')' !in scheme;
    }
  }

  /** Text without any URL yields no URL. */
  lemma ExtractUrlsEmpty(text: string)
    requires forall p :: 0 <= p < |text| ==> NoMatch(text[p..])
    ensures ExtractUrls(text) == []
  {
    NoMatchesWhenNothingMatches(text);
  }

  /** The client `build_client` / `build_client_async` construct. */
  datatype ClientSettings =
    | DefaultClient
    | Limited(timeoutMs: U64, redirectLimit: Usize, cookieStore: bool)

  /**
   * Without a timeout the library's default client is used and the redirect
   * cap and cookie flag are ignored; with one, the redirect cap defaults to 2.
   */
  function BuildClient(config: HttpConfig): (s: ClientSettings)
    ensures s.DefaultClient? <==> config.timeout.None?
    ensures s.Limited? ==> s.timeoutMs == config.timeout.value && s.cookieStore == config.cookieStore
    ensures s.Limited? ==> s.redirectLimit == config.maxRedirect.UnwrapOr(2)
  {
    match config.timeout
    case None => DefaultClient
    case Some(t) => Limited(t, config.maxRedirect.UnwrapOr(2), config.cookieStore)
  }

  /** Without a timeout the other two settings make no difference to the client. */
  lemma NoTimeoutIgnoresOtherSettings(a: HttpConfig, b: HttpConfig)
    requires a.timeout.None? && b.timeout.None?
    ensures BuildClient(a) == BuildClient(b)
  {
  }

  /** What one GET yields: a body, a failure to send, or a failure to read the body. */
  datatype FetchOutcome = Page(body: string) | SendFailed(error: string) | ReadFailed(error: string)

  /** The (URL, HTML) pairs of the URLs whose GET produced a body, in URL order. */
  function Fetched(urls: seq<string>, client: ClientSettings, agent: string,
                   fetch: (ClientSettings, string, string) -> FetchOutcome): (pages: seq<(string, string)>)
    ensures |pages| <= |urls|
  {
    if urls == [] then []
    else
      var last := urls[|urls| - 1];
      var earlier := Fetched(urls[..|urls| - 1], client, agent, fetch);
      match fetch(client, agent, last)
      case Page(body) => earlier + [(last, body)]
      case _ => earlier
  }

  function FirstOfEach(pairs: seq<(string, string)>): (firsts: seq<string>)
    ensures |firsts| == |pairs|
    ensures forall k :: 0 <= k < |pairs| ==> firsts[k] == pairs[k].0
  {
    seq(|pairs|, k requires 0 <= k < |pairs| => pairs[k].0)
  }

  /**
   * The fetched pairs are exactly the successful URLs: their URLs are a
   * subsequence of the input, each body is what that URL's GET returned, every
   * URL whose GET returned a body has its pair, and there are as many pairs as
   * successful GETs, so a URL extracted twice and fetched twice gives two.
   */
  lemma {:induction false} FetchedIsSuccessfulSubsequence(urls: seq<string>, client: ClientSettings, agent: string,
                                      fetch: (ClientSettings, string, string) -> FetchOutcome)
    ensures var pages := Fetched(urls, client, agent, fetch);
      && IsSubsequence(FirstOfEach(pages), urls)
      && (forall k :: 0 <= k < |pages| ==> fetch(client, agent, pages[k].0) == Page(pages[k].1))
      && (forall j :: 0 <= j < |urls| && fetch(client, agent, urls[j]).Page? ==>
            (urls[j], fetch(client, agent, urls[j]).body) in pages)
      && |pages| == |set j | 0 <= j < |urls| && fetch(client, agent, urls[j]).Page?|
    decreases |urls|
  {
    if urls != [] {
      var init := urls[..|urls| - 1];
      var last := urls[|urls| - 1];
      FetchedIsSuccessfulSubsequence(init, client, agent, fetch);
      SuccessfulIndicesStep(urls, client, agent, fetch);
      var earlier := Fetched(init, client, agent, fetch);
      var pages := Fetched(urls, client, agent, fetch);
      forall j | 0 <= j < |urls| && fetch(client, agent, urls[j]).Page?
        ensures (urls[j], fetch(client, agent, urls[j]).body) in pages
      {
        if j < |urls| - 1 {
          assert urls[j] == init[j];
          assert (urls[j], fetch(client, agent, urls[j]).body) in earlier;
        }
      }
      if fetch(client, agent, last).Page? {
        assert FirstOfEach(pages)[..|pages| - 1] == FirstOfEach(earlier);
      } else {
        assert pages == earlier;
      }
    }
  }

  /**
   * The indices of successful GETs grow by the last index exactly when the
   * last URL's GET returned a page.
   */
  lemma SuccessfulIndicesStep(urls: seq<string>, client: ClientSettings, agent: string,
                              fetch: (ClientSettings, string, string) -> FetchOutcome)
    requires urls != []
    ensures var n := |urls| - 1;
            var before := |set j | 0 <= j < n && fetch(client, agent, urls[..n][j]).Page?|;
            |set j | 0 <= j < |urls| && fetch(client, agent, urls[j]).Page?|
              == if fetch(client, agent, urls[n]).Page? then before + 1 else before
  {
    var n := |urls| - 1;
    var all := set j | 0 <= j < |urls| && fetch(client, agent, urls[j]).Page?;
    var earlier := set j | 0 <= j < n && fetch(client, agent, urls[..n][j]).Page?;
    assert forall j :: 0 <= j < n ==> urls[..n][j] == urls[j];
    if fetch(client, agent, urls[n]).Page? {
      assert all == earlier + {n};
      assert n !in earlier;
    } else {
      assert all == earlier;
    }
  }

  /** When every GET fails, nothing is returned. */
  lemma {:induction false} FetchedAllFailed(urls: seq<string>, client: ClientSettings, agent: string,
                                            fetch: (ClientSettings, string, string) -> FetchOutcome)
    requires forall j :: 0 <= j < |urls| ==> !fetch(client, agent, urls[j]).Page?
    ensures Fetched(urls, client, agent, fetch) == []
    decreases |urls|
  {
    if urls != [] {
      FetchedAllFailed(urls[..|urls| - 1], client, agent, fetch);
    }
  }

  /**
   * `handles_http_requests_results`: one client and one user agent for the
   * whole batch, one GET per URL in order, and a pair pushed only when the body
   * could be read; failures are reported on standard error and skipped.
   * `requested` lists the URLs a GET was sent for.
   */
  method HandlesHttpRequestsResults(urls: seq<string>, config: HttpConfig, agent: string,
                                    fetch: (ClientSettings, string, string) -> FetchOutcome)
    returns (results: seq<(string, string)>, ghost requested: seq<string>)
    ensures requested == urls
    ensures results == Fetched(urls, BuildClient(config), agent, fetch)
  {
    var client := BuildClient(config);
    results := [];
    requested := [];
    for i := 0 to |urls|
      invariant requested == urls[..i]
      invariant results == Fetched(urls[..i], client, agent, fetch)
    {
      var url := urls[i];
      requested := requested + [url];
      assert urls[..i + 1][..i] == urls[..i];
      match fetch(client, agent, url) {
        case Page(html) =>
          results := results + [(url, html)];
        case SendFailed(_) =>
        case ReadFailed(_) =>
      }
    }
    assert urls[..|urls|] == urls;
  }

  /**
   * `fetch_content_from_text`: text without URLs returns an empty list without
   * sending anything; otherwise the extracted URLs are fetched in order.
   */
  method FetchContentFromText(text: string, config: HttpConfig, agent: string,
                              fetch: (ClientSettings, string, string) -> FetchOutcome)
    returns (results: seq<(string, string)>, ghost requested: seq<string>)
    ensures requested == ExtractUrls(text)
    ensures results == Fetched(ExtractUrls(text), BuildClient(config), agent, fetch)
    ensures ExtractUrls(text) == [] ==> results == [] && requested == []
  {
    var urls := ExtractUrls(text);
    if urls == [] {
      return [], [];
    }
    results, requested := HandlesHttpRequestsResults(urls, config, agent, fetch);
  }

  /** The two arguments one invocation of the asynchronous callback receives. */
  datatype Callback = Callback(url: Option<string>, content: Option<string>)

  /**
   * The callback for one URL: the body when the GET succeeded, an empty body
   * when it was sent but could not be read, and `Error: ` and the error text
   * when it could not be sent.
   */
  function CallbackFor(url: string, outcome: FetchOutcome): (cb: Callback)
    ensures cb.url == Some(url) && cb.content.Some?
    ensures outcome.Page? ==> cb.content.value == outcome.body
    ensures outcome.ReadFailed? ==> cb.content.value == ""
    ensures outcome.SendFailed? ==> cb.content.value == "Error: " + outcome.error
  {
    match outcome
    case Page(body) => Callback(Some(url), Some(body))
    case ReadFailed(_) => Callback(Some(url), Some(""))
    case SendFailed(e) => Callback(Some(url), Some("Error: " + e))
  }

  /**
   * `fetch_content_from_text_async`: the callbacks it makes. Text without URLs
   * gets exactly one call with no URL and no content; otherwise every URL gets
   * exactly one call, whatever its outcome. All requests share one client and
   * one user agent. The calls are listed in URL order; the order in which the
   * concurrent requests actually complete is not modelled.
   */
  function FetchContentFromTextAsync(text: string, config: HttpConfig, agent: string,
                                     fetch: (ClientSettings, string, string) -> FetchOutcome): (calls: seq<Callback>)
    ensures var urls := ExtractUrls(text);
      && (urls == [] <==> calls == [Callback(None, None)])
      && (urls != [] ==> calls == CallbacksFor(urls, BuildClient(config), agent, fetch))
  {
    var urls := ExtractUrls(text);
    if urls == [] then [Callback(None, None)]
    else CallbacksFor(urls, BuildClient(config), agent, fetch)
  }

  /** One callback per URL, whatever the outcome of its request. */
  function CallbacksFor(urls: seq<string>, client: ClientSettings, agent: string,
                        fetch: (ClientSettings, string, string) -> FetchOutcome): (calls: seq<Callback>)
    ensures |calls| == |urls|
    ensures forall k :: 0 <= k < |urls| ==> calls[k] == CallbackFor(urls[k], fetch(client, agent, urls[k]))
    ensures urls != [] ==> calls != [Callback(None, None)]
  {
    var calls := seq(|urls|, k requires 0 <= k < |urls| => CallbackFor(urls[k], fetch(client, agent, urls[k])));
    assert urls != [] ==> calls[0] == CallbackFor(urls[0], fetch(client, agent, urls[0]));
    calls
  }

  /**
   * The asynchronous variant reports at least what the sequential one returns:
   * every (URL, HTML) pair of `fetch_content_from_text` arrives as a callback.
   * This rests on one deterministic `fetch` answering both runs with the same
   * user agent. In the program the two paths build separate clients and send
   * separate requests, so a server that answers differently the second time
   * is outside this statement.
   */
  lemma AsyncCoversSync(text: string, config: HttpConfig, agent: string,
                        fetch: (ClientSettings, string, string) -> FetchOutcome)
    ensures var pages := Fetched(ExtractUrls(text), BuildClient(config), agent, fetch);
      forall k :: 0 <= k < |pages| ==>
        Callback(Some(pages[k].0), Some(pages[k].1)) in FetchContentFromTextAsync(text, config, agent, fetch)
  {
    var urls := ExtractUrls(text);
    var client := BuildClient(config);
    var pages := Fetched(urls, client, agent, fetch);
    var calls := FetchContentFromTextAsync(text, config, agent, fetch);
    FetchedIsSuccessfulSubsequence(urls, client, agent, fetch);
    forall k | 0 <= k < |pages| ensures Callback(Some(pages[k].0), Some(pages[k].1)) in calls {
      var j := SubsequenceIndex(FirstOfEach(pages), urls, k);
      assert calls == CallbacksFor(urls, client, agent, fetch);
      assert calls[j] == CallbackFor(urls[j], fetch(client, agent, urls[j]));
    }
  }
}
