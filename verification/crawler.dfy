/**
 The crawler helpers: path normalisation, single-page result assembly and
 batched crawling. Fetching, sitemap parsing and HTML extraction are
 foreign and enter as oracles.
 */
module Crawler {
  import opened Wrappers
  import opened Cache

  /** `SitemapEntry`. */
  datatype SitemapEntry = SitemapEntry(loc: string, lastmod: Option<string>)

  /** `CrawlResult`: a crawled page plus the sitemap's `lastmod` for it. */
  datatype CrawlResult = CrawlResult(page: Page, lastmod: Option<string>)

  /** What `extractContent` pulls out of a fetched document. */
  datatype Extracted = Extracted(title: string, content: string, snippet: string)

  /** The fetch-and-extract oracle: `None` when the fetch fails or the
      response is not OK. */
  type Fetcher = string -> Option<Extracted>

  /** The pathname component of a URL (`new URL(url).pathname`). */
  type PathnameOf = string -> string

  /** The sitemap oracle: `fetchSitemap(baseUrl)`, `None` when it throws. */
  type SitemapFetcher = string -> Option<seq<SitemapEntry>>

  /** The per-page crawl oracle `crawlAll` uses: `None` when it throws. */
  type PageCrawler = string -> Option<Page>

  /** Batch size when none is given. */
  const DEFAULT_CONCURRENCY: int := 5

  /** `urlToPath`, given the URL's pathname: drops one trailing '/' unless
      the pathname is the root "/". */
  function UrlToPath(pathname: string): (r: string)
    ensures pathname == "/" ==> r == "/"
    ensures r <= pathname && |pathname| <= |r| + 1
    ensures |r| < |pathname| <==>
      (pathname != "/" && |pathname| > 0 && pathname[|pathname| - 1] == '/')
  {
    if pathname != "/" && |pathname| > 0 && pathname[|pathname| - 1] == '/' then
      pathname[..|pathname| - 1]
    else
      pathname
  }

  lemma UrlToPathExamples()
    ensures UrlToPath("/getting-started/") == "/getting-started"
    ensures UrlToPath("/ci-cd/github-actions/") == "/ci-cd/github-actions"
    ensures UrlToPath("/") == "/"
  {
  }

  /** `crawlPage(url)`: the page carries the url as requested and the path
      derived from it. */
  function CrawlPage(url: string, fetch: Fetcher, pathnameOf: PathnameOf): (r: Option<Page>)
    ensures r.Some? <==> fetch(url).Some?
    ensures r.Some? ==> r.value.url == url && r.value.path == UrlToPath(pathnameOf(url))
    ensures r.Some? ==> var e := fetch(url).value;
      r.value.title == e.title && r.value.content == e.content && r.value.snippet == e.snippet
  {
    match fetch(url)
    case None => None
    case Some(e) => Some(Page(UrlToPath(pathnameOf(url)), url, e.title, e.content, e.snippet))
  }

  /** One entry's attempt inside `crawlAll`: `null` when `crawlPage` throws,
      otherwise its result tagged with the entry's `lastmod`. */
  function Attempt(e: SitemapEntry, crawl: PageCrawler): Option<CrawlResult>
  {
    match crawl(e.loc)
    case None => None
    case Some(p) => Some(CrawlResult(p, e.lastmod))
  }

  /** Reference definition: crawl every entry in order, dropping failures. */
  function CrawlEach(entries: seq<SitemapEntry>, crawl: PageCrawler): (r: seq<CrawlResult>)
    ensures |r| <= |entries|
    ensures |entries| == 0 ==> r == []
    decreases |entries|
  {
    if |entries| == 0 then []
    else (match Attempt(entries[0], crawl) case Some(c) => [c] case None => [])
         + CrawlEach(entries[1..], crawl)
  }

  /** A result is kept exactly when its entry's crawl succeeded, and it
      carries that entry's `lastmod`. */
  lemma {:induction false} CrawlEachMembers(entries: seq<SitemapEntry>, crawl: PageCrawler)
    ensures forall c :: c in CrawlEach(entries, crawl) ==>
      exists e :: e in entries && crawl(e.loc) == Some(c.page) && c.lastmod == e.lastmod
    ensures forall e :: e in entries && crawl(e.loc).Some? ==>
      CrawlResult(crawl(e.loc).value, e.lastmod) in CrawlEach(entries, crawl)
    decreases |entries|
  {
    if |entries| > 0 {
      CrawlEachMembers(entries[1..], crawl);
      assert forall e :: e in entries[1..] ==> e in entries;
      assert forall e :: e in entries ==> e == entries[0] || e in entries[1..];
    }
  }

  /** Nothing is kept exactly when every entry's crawl fails, which
      includes an empty sitemap. */
  lemma {:induction false} CrawlEachEmptyIff(entries: seq<SitemapEntry>, crawl: PageCrawler)
    ensures CrawlEach(entries, crawl) == [] <==> forall e :: e in entries ==> crawl(e.loc).None?
    decreases |entries|
  {
    if |entries| > 0 {
      CrawlEachEmptyIff(entries[1..], crawl);
      assert forall e :: e in entries <==> e == entries[0] || e in entries[1..];
    }
  }

  lemma {:induction false} CrawlEachAppend(a: seq<SitemapEntry>, b: seq<SitemapEntry>, crawl: PageCrawler)
    ensures CrawlEach(a + b, crawl) == CrawlEach(a, crawl) + CrawlEach(b, crawl)
    decreases |a|
  {
    if |a| == 0 {
      assert a + b == b;
    } else {
      assert (a + b)[0] == a[0];
      assert (a + b)[1..] == a[1..] + b;
      CrawlEachAppend(a[1..], b, crawl);
    }
  }

  /** The nulls filtered out of one batch's results. */
  function Successes(xs: seq<Option<CrawlResult>>): (r: seq<CrawlResult>)
    ensures |r| <= |xs|
    decreases |xs|
  {
    if |xs| == 0 then []
    else (match xs[0] case Some(c) => [c] case None => []) + Successes(xs[1..])
  }

  /** One batch, attempted entry by entry. */
  function Attempts(batch: seq<SitemapEntry>, crawl: PageCrawler): (r: seq<Option<CrawlResult>>)
    ensures |r| == |batch|
    ensures forall j :: 0 <= j < |batch| ==> r[j] == Attempt(batch[j], crawl)
  {
    seq(|batch|, j requires 0 <= j < |batch| => Attempt(batch[j], crawl))
  }

  lemma {:induction false} SuccessesOfAttempts(batch: seq<SitemapEntry>, crawl: PageCrawler)
    ensures Successes(Attempts(batch, crawl)) == CrawlEach(batch, crawl)
    decreases |batch|
  {
    if |batch| > 0 {
      assert Attempts(batch, crawl)[1..] == Attempts(batch[1..], crawl);
      SuccessesOfAttempts(batch[1..], crawl);
    }
  }

  /** Crawling one more batch extends the crawled prefix. */
  lemma CrawlBatchStep(entries: seq<SitemapEntry>, i: nat, end: nat, crawl: PageCrawler)
    requires i <= end <= |entries|
    ensures CrawlEach(entries[..end], crawl)
         == CrawlEach(entries[..i], crawl) + Successes(Attempts(entries[i..end], crawl))
  {
    SuccessesOfAttempts(entries[i..end], crawl);
    CrawlEachAppend(entries[..i], entries[i..end], crawl);
    assert entries[..i] + entries[i..end] == entries[..end];
  }

  /** `crawlAll(entries, {concurrency})`: batches of `concurrency` entries,
      each batch's successes appended in entry order. The loop steps by
      `concurrency`, so it terminates only when that is at least 1. */
  method CrawlAll(entries: seq<SitemapEntry>, concurrency: int, crawl: PageCrawler)
    returns (results: seq<CrawlResult>)
    requires concurrency >= 1
    ensures results == CrawlEach(entries, crawl)
  {
    results := [];
    var i := 0;
    while i < |entries|
      invariant 0 <= i
      invariant results == CrawlEach(entries[..if i < |entries| then i else |entries|], crawl)
      decreases |entries| - i
    {
      var end := if i + concurrency < |entries| then i + concurrency else |entries|;
      var batch := entries[i..end];
      var batchResults := Attempts(batch, crawl);
      CrawlBatchStep(entries, i, end, crawl);
      results := results + Successes(batchResults);
      i := i + concurrency;
    }
    assert entries[..|entries|] == entries;
  }

  /** The per-page crawl `crawlAll` performs: `crawlPage(entry.loc)`. */
  function PageCrawlerOf(fetch: Fetcher, pathnameOf: PathnameOf): PageCrawler {
    u => CrawlPage(u, fetch, pathnameOf)
  }

  /** `crawlAll(entries)` with its default options, each entry crawled by
      `crawlPage`: one result per entry whose fetch succeeds, in entry
      order, carrying the entry's url, the path derived from it and the
      entry's `lastmod`. */
  method CrawlAllPages(entries: seq<SitemapEntry>, fetch: Fetcher, pathnameOf: PathnameOf)
    returns (results: seq<CrawlResult>)
    ensures results == CrawlEach(entries, PageCrawlerOf(fetch, pathnameOf))
    ensures forall c :: c in results ==>
      c.page.path == UrlToPath(pathnameOf(c.page.url)) &&
      exists e :: e in entries && e.loc == c.page.url && e.lastmod == c.lastmod && fetch(e.loc).Some?
    ensures forall e :: e in entries && fetch(e.loc).Some? ==>
      CrawlResult(CrawlPage(e.loc, fetch, pathnameOf).value, e.lastmod) in results
  {
    results := CrawlAll(entries, DEFAULT_CONCURRENCY, PageCrawlerOf(fetch, pathnameOf));
    CrawlEachMembers(entries, PageCrawlerOf(fetch, pathnameOf));
  }
}
