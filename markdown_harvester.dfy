/**
 * src/markdown_harvester.rs: `get_hyperlinks_content` fetches the URLs found
 * in a text and turns each fetched page into cleaned Markdown.
 */
module MarkdownHarvester {
  import opened HttpConfigs
  import opened HttpClient
  import opened ContentProcessor
  import opened Sequences

  /** Each fetched (URL, HTML) pair with its HTML replaced by `convert` of it, in order. */
  function Converted(pages: seq<(string, string)>, convert: string -> string): (pairs: seq<(string, string)>)
    ensures |pairs| == |pages|
  {
    if pages == [] then []
    else
      var last := pages[|pages| - 1];
      Converted(pages[..|pages| - 1], convert) + [(last.0, convert(last.1))]
  }

  /** Each pair keeps its page's URL unchanged and converts that page alone. */
  lemma {:induction false} ConvertedPointwise(pages: seq<(string, string)>, convert: string -> string)
    ensures forall k :: 0 <= k < |pages| ==> Converted(pages, convert)[k] == (pages[k].0, convert(pages[k].1))
  {
    if pages != [] {
      ConvertedPointwise(pages[..|pages| - 1], convert);
    }
  }

  /** The loop of `get_hyperlinks_content`: each fetched page becomes (its URL, its Markdown). */
  method ConvertPages(pages: seq<(string, string)>, tools: HtmlTools, tables: PatternTables)
    returns (results: seq<(string, string)>)
    ensures results == Converted(pages, html => CleanedMarkdown(html, tools, tables))
  {
    results := [];
    for k := 0 to |pages|
      invariant results == Converted(pages[..k], html => CleanedMarkdown(html, tools, tables))
    {
      var markdown := HtmlToMarkdown(pages[k].1, tools, tables);
      assert pages[..k + 1][..k] == pages[..k];
      results := results + [(pages[k].0, markdown)];
    }
    assert pages[..|pages|] == pages;
  }

  /**
   * Converting the fetched pages one by one keeps what the fetch loop
   * promises: the URLs are an order-preserving subsequence of the extracted
   * ones, each pair holds the conversion of its own URL's page, every URL
   * that was fetched successfully has its pair, and there is one pair per
   * successful GET, so a repeated URL gives as many pairs as it succeeded.
   */
  lemma ConvertedPagesCoverFetched(urls: seq<string>, client: ClientSettings, agent: string,
                                    fetch: (ClientSettings, string, string) -> FetchOutcome,
                                    convert: string -> string)
    ensures var results := Converted(Fetched(urls, client, agent, fetch), convert);
            && IsSubsequence(FirstOfEach(results), urls)
            && (forall k :: 0 <= k < |results| ==>
                  && fetch(client, agent, results[k].0).Page?
                  && results[k].1 == convert(fetch(client, agent, results[k].0).body))
            && (forall url :: url in urls && fetch(client, agent, url).Page? ==>
                  exists k :: 0 <= k < |results| && results[k].0 == url)
            && |results| == |set j | 0 <= j < |urls| && fetch(client, agent, urls[j]).Page?|
  {
    var pages := Fetched(urls, client, agent, fetch);
    var results := Converted(pages, convert);
    ConvertedPointwise(pages, convert);
    FetchedIsSuccessfulSubsequence(urls, client, agent, fetch);
    assert FirstOfEach(results) == FirstOfEach(pages);
    forall url | url in urls && fetch(client, agent, url).Page?
      ensures exists k :: 0 <= k < |results| && results[k].0 == url
    {
      var k :| 0 <= k < |pages| && pages[k] == (url, fetch(client, agent, url).body);
      assert results[k].0 == url;
    }
  }

  /**
   * `MarkdownHarvester::get_hyperlinks_content`: one (URL, Markdown) pair per
   * fetched page, in fetch order, with the URL unchanged and the Markdown
   * computed from that page alone. URLs whose request failed give no pair and
   * do not stop the others; when nothing was fetched the result is empty.
   */
  method GetHyperlinksContent(text: string, config: HttpConfig, agent: string,
                              fetch: (ClientSettings, string, string) -> FetchOutcome,
                              tools: HtmlTools, tables: PatternTables)
    returns (results: seq<(string, string)>)
    ensures results == Converted(Fetched(ExtractUrls(text), BuildClient(config), agent, fetch),
                                 html => CleanedMarkdown(html, tools, tables))
    ensures IsSubsequence(FirstOfEach(results), ExtractUrls(text))
    ensures forall k :: 0 <= k < |results| ==> fetch(BuildClient(config), agent, results[k].0).Page?
    ensures forall url :: url in ExtractUrls(text) && fetch(BuildClient(config), agent, url).Page? ==>
              exists k :: 0 <= k < |results| && results[k].0 == url
    ensures |results| == |set j | 0 <= j < |ExtractUrls(text)|
                                  && fetch(BuildClient(config), agent, ExtractUrls(text)[j]).Page?|
  {
    ghost var requested;
    var pages;
    pages, requested := FetchContentFromText(text, config, agent, fetch);
    ConvertedPagesCoverFetched(ExtractUrls(text), BuildClient(config), agent, fetch,
                               html => CleanedMarkdown(html, tools, tables));
    if pages == [] {
      return [];
    }
    results := ConvertPages(pages, tools, tables);
  }
}
