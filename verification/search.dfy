/**
 The search index (`SearchIndex`): a full-text engine over the pages plus
 a path-keyed copy of the pages for full-content lookup. The engine's
 ranking is a foreign library and enters the model as an oracle.
 */
module Search {
  import opened Wrappers
  import OrderedMap
  import opened Cache

  /** One document handed to the engine: the page with its numeric id. */
  datatype Doc = Doc(id: nat, page: Page)

  /** The engine's state: the documents it was given. */
  datatype Engine = Engine(docs: seq<Doc>)

  /** One ranked hit as the engine reports it: document id, score and the
      stored fields `title`, `path`, `url`, `snippet`. */
  datatype Hit = Hit(id: nat, score: real, path: string, url: string, title: string, snippet: string)

  /** The ranking oracle: the engine's hits for a query, best first. */
  type Ranker = (Engine, string) -> seq<Hit>

  /** The loader oracle for a serialized engine; `None` when it throws. */
  type Loader = string -> Option<Engine>

  /** `SearchResult`. */
  datatype SearchResult = SearchResult(path: string, url: string, title: string, snippet: string, score: real)

  /** The index: the engine, and the pages keyed by path in insertion order. */
  datatype Index = Index(engine: Engine, pages: OrderedMap.OMap<Page>)

  function PathOf(p: Page): string {
    p.path
  }

  /** A freshly constructed index. */
  function NewIndex(): (r: Index)
    ensures r.engine.docs == [] && r.pages.keys == []
  {
    Index(Engine([]), OrderedMap.Empty())
  }

  /** The page map holds every page under its own path. */
  ghost predicate Keyed(idx: Index) {
    forall k :: k in idx.pages.vals ==> idx.pages.vals[k].path == k
  }

  /** Reference definition: the last page of `pages` whose path is `x`. */
  function LastWithPath(pages: seq<Page>, x: string): (r: Option<Page>)
    ensures r.Some? ==> r.value in pages && r.value.path == x
    ensures r.None? <==> forall i :: 0 <= i < |pages| ==> pages[i].path != x
  {
    OrderedMap.LastWith(pages, PathOf, x)
  }

  /** The documents `buildIndex` hands to the engine: page `i` gets id `i`. */
  function Documents(pages: seq<Page>): (r: seq<Doc>)
    ensures |r| == |pages|
    ensures forall i :: 0 <= i < |r| ==> r[i] == Doc(i, pages[i])
  {
    seq(|pages|, i requires 0 <= i < |pages| => Doc(i, pages[i]))
  }

  /** The path-keyed page copy rebuilt by both `buildIndex` and `restore`. */
  function PageMap(pages: seq<Page>): (r: OrderedMap.OMap<Page>)
    ensures forall x :: OrderedMap.Get(r, x) == LastWithPath(pages, x)
    ensures |r.keys| <= |pages|
    ensures forall k :: k in r.vals ==> r.vals[k].path == k
  {
    var r := OrderedMap.PutEach(OrderedMap.Empty(), pages, PathOf);
    assert forall x :: OrderedMap.Get(r, x) == LastWithPath(pages, x) by {
      forall x ensures OrderedMap.Get(r, x) == LastWithPath(pages, x) {
        OrderedMap.PutEachLastWins(OrderedMap.Empty(), pages, PathOf, x);
      }
    }
    OrderedMap.PutEachSize(OrderedMap.Empty(), pages, PathOf);
    assert forall k :: k in r.vals ==> r.vals[k].path == k by {
      forall k | k in r.vals ensures r.vals[k].path == k {
        assert OrderedMap.Get(r, k) == Some(r.vals[k]);
      }
    }
    r
  }

  /** `buildIndex(pages)`: discards everything from `idx` and indexes `pages`. */
  function BuildIndex(idx: Index, pages: seq<Page>): (r: Index)
    ensures Keyed(r)
    ensures forall x :: GetPage(r, x) == LastWithPath(pages, x)
    ensures |GetAllPages(r)| <= |pages|
    ensures |r.engine.docs| == |pages|
    ensures forall i :: 0 <= i < |pages| ==> r.engine.docs[i].id == i && r.engine.docs[i].page == pages[i]
  {
    Index(Engine(Documents(pages)), PageMap(pages))
  }

  /** Whatever was indexed before, `buildIndex` yields the same index. */
  lemma BuildForgetsPrevious(a: Index, b: Index, pages: seq<Page>)
    ensures BuildIndex(a, pages) == BuildIndex(b, pages)
  {
  }

  /** Document ids are unique even when paths repeat. */
  lemma DocumentIdsUnique(pages: seq<Page>)
    ensures forall i, j :: 0 <= i < j < |pages| ==>
      BuildIndex(NewIndex(), pages).engine.docs[i].id != BuildIndex(NewIndex(), pages).engine.docs[j].id
  {
  }

  /** With distinct paths, `getAllPages` after a build returns exactly the
      pages given, in the order given. */
  lemma AllPagesAfterBuild(idx: Index, pages: seq<Page>)
    requires forall i, j :: 0 <= i < j < |pages| ==> pages[i].path != pages[j].path
    ensures GetAllPages(BuildIndex(idx, pages)) == pages
  {
    OrderedMap.PutEachFreshKeys(pages, PathOf);
  }

  /** The `limit` that `search` and `searchDocs` use when none is passed. */
  const DEFAULT_LIMIT: int := 5

  /** A possibly omitted `limit` argument, with the default filled in. */
  function LimitOrDefault(limit: Option<int>): int {
    match limit
    case Some(n) => n
    case None => DEFAULT_LIMIT
  }

  /** The number of results `results.slice(0, limit)` keeps out of `n`;
      a negative `limit` counts back from the end, as in JavaScript. */
  function SliceEnd(n: nat, limit: int): nat
  {
    if limit >= 0 then (if limit < n then limit else n)
    else if n + limit > 0 then n + limit else 0
  }

  /** The fields of a hit that a search result carries. */
  function Project(h: Hit): SearchResult
  {
    SearchResult(h.path, h.url, h.title, h.snippet, h.score)
  }

  /** `search(query, limit)`: the engine's ranked hits, truncated to `limit`
      and projected to their stored fields. */
  function SearchIn(idx: Index, query: string, limit: int, rank: Ranker): (r: seq<SearchResult>)
    ensures var hits := rank(idx.engine, query);
      && |r| <= |hits|
      && (limit >= 0 ==> |r| <= limit && (|r| == limit || |r| == |hits|))
      && (limit < 0 ==> |r| == if |hits| + limit > 0 then |hits| + limit else 0)
      && forall i :: 0 <= i < |r| ==> r[i] == Project(hits[i])
  {
    var hits := rank(idx.engine, query);
    var n := SliceEnd(|hits|, limit);
    seq(n, i requires 0 <= i < n => Project(hits[i]))
  }

  /** `restore(blob, pages)`: the engine comes from the loader; on success the
      page map is rebuilt from `pages` alone. A rejected blob throws before
      anything changes. */
  function Restore(idx: Index, blob: string, pages: seq<Page>, load: Loader): (r: Result<Index, Error>)
    ensures load(blob).None? <==> r.Err?
    ensures r.Err? ==> r.error == CorruptIndex
    ensures r.Ok? ==> r.value.engine == load(blob).value && Keyed(r.value)
    ensures r.Ok? ==> forall x :: GetPage(r.value, x) == LastWithPath(pages, x)
  {
    match load(blob)
    case None => Err(CorruptIndex)
    case Some(e) => Ok(Index(e, PageMap(pages)))
  }

  /** The page map after a restore depends on `pages` only, never on the blob
      or on what was there before. */
  lemma RestorePagesIgnoreBlob(a: Index, b: Index, blob1: string, blob2: string, pages: seq<Page>, load: Loader)
    requires load(blob1).Some? && load(blob2).Some?
    ensures Restore(a, blob1, pages, load).value.pages == Restore(b, blob2, pages, load).value.pages
    ensures Restore(a, blob1, pages, load).value.pages == BuildIndex(a, pages).pages
  {
  }

  /** `getPage(path)`. */
  function GetPage(idx: Index, path: string): (r: Option<Page>)
    ensures r.Some? <==> path in idx.pages.keys
    ensures Keyed(idx) && r.Some? ==> r.value.path == path
  {
    OrderedMap.Get(idx.pages, path)
  }

  /** `getAllPages()`: one page per path, in first-insertion order. */
  function GetAllPages(idx: Index): (r: seq<Page>)
    ensures |r| == |idx.pages.keys|
    ensures forall i :: 0 <= i < |r| ==> GetPage(idx, idx.pages.keys[i]) == Some(r[i])
    ensures Keyed(idx) ==> forall i, j :: 0 <= i < j < |r| ==> r[i].path != r[j].path
  {
    OrderedMap.Values(idx.pages)
  }

  /** The `{ path, title, url }` view of a page that listings use. */
  datatype PageSummary = PageSummary(path: string, title: string, url: string)

  function Summarize(p: Page): PageSummary {
    PageSummary(p.path, p.title, p.url)
  }
}
