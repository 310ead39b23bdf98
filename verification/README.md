# recce-docs-mcp cache and index lifecycle, in Dafny

This project models the core of the `recce-docs-mcp` package: it keeps a
locally cached, searchable snapshot of the Recce documentation site.
The model covers:

- the page store (`Cache`): one metadata record plus one file per page,
  named by a path-to-filename transform, with a TTL staleness test;
- the search index (`SearchIndex`): a path-keyed page map and the documents
  handed to the full-text engine, with the engine's ranking as an oracle;
- the crawler helpers: `urlToPath`, `crawlPage` result assembly and the
  batched `crawlAll`;
- the `DocsService` state machine: readiness gating, status reporting,
  single-flight `sync`, and the instance registry keyed by cache directory;
- the older `RecceDocsServer`: its `syncDocs` report, its `ensureReady`, and
  the section tree that `listSections` builds.

Everything is a pure function over immutable values. The filesystem is a
`Store` value, the clock is a `now` parameter in integer milliseconds, and
the network, the HTML/XML parsers and the search library are function-typed
oracles:

- `Fetcher`, `PathnameOf` and `PageCrawler` stand for the page fetch,
  `new URL(..).pathname` and `crawlPage`;
- `SitemapFetcher` stands for `fetchSitemap`;
- `Ranker` and `Loader` stand for MiniSearch's `search` and `loadJSON`.

Each `await` in the service is split into a begin and a finish transition.
The in-flight `syncPromise` is the `syncing` flag.

Files, one module each:

- `wrappers.dfy`: `Option`, `Result` and the error kinds.
- `ordered_map.dfy`: a string-keyed map that remembers first-insertion
  order. It serves as the JavaScript `Map` and as a directory listing.
- `cache.dfy`, `search.dfy`, `crawler.dfy`: the three library files.
- `generation.dfy`: the commit-and-reindex steps after a successful crawl.
  `performSync` and `syncDocs` share them.
- `service.dfy`: `DocsService`.
- `server.dfy`: `RecceDocsServer`.

Behaviour worth knowing, proved below:

- `pathToFilename` is not injective: "/a/b", "/a-b" and "a/b" share one file.
  After a crawl that yields both "/a/b" and "/a-b", the metadata lists two
  pages, but only the later one is stored and indexed.
- `search` uses `slice(0, limit)`, so a negative `limit` drops results from
  the end instead of returning none.
- `syncDocs` in the server reports `results.length` as both `pagesUpdated`
  and `totalPages`, even when several results share a path.
- The service never reports the `synced` status.

The model also keeps these behaviours of the code, which a reader of its
names and comments might not expect:

- A failed sync throws to its caller rather than returning an `error` status.
- `exists()` is false again after `clear()`.
- Pages are keyed by file name, not by path.
- `ensureReady` also waits for a sync that is already in flight.
- `syncDocs` in the server has no in-flight guard.
- A sitemap that loads but lists no pages, or whose every page fails to
  crawl, still counts as a successful sync. The previous pages are
  cleared, the service reports ready with 0 pages, and a plain sync does
  not crawl again until the TTL runs out. The server's `syncDocs` behaves
  the same way.

## Model

| member | source | states |
|---|---|---|
| OrderedMap.PutEachLastWins | packages/recce-docs-mcp/src/search/index.ts:40-42 | after `map.set(key(x), x)` for each x in turn, every key holds the last element filed under it; keys no element maps to keep their old value |
| OrderedMap.PutEachSize | packages/recce-docs-mcp/src/search/index.ts:40-42 | setting n elements adds at most n keys, so a map built from n pages has at most n entries |
| OrderedMap.PutEachFreshKeys | packages/recce-docs-mcp/src/search/index.ts:82-84 | when no two elements share a key, the map's values come back as exactly the elements given, in insertion order |
| Cache.PathToFilename | packages/recce-docs-mcp/src/cache/index.ts:77-79 | one leading '/' is dropped, every other '/' becomes '-', every other character is kept in place, and ".json" is appended; the name contains no '/' |
| Cache.FilenameRoundTrip | packages/recce-docs-mcp/src/cache/index.ts:77-79 | for paths that start with '/' and contain no '-', the path can be recovered from its file name |
| Cache.FilenameCollisions | packages/recce-docs-mcp/src/cache/index.ts:77-79 | "/a/b", "/a-b" and "a/b" all map to "a-b.json", so the transform is not injective |
| Cache.IsExpired | packages/recce-docs-mcp/src/cache/index.ts:23-32 | expired when there is no metadata; otherwise exactly when the age in fractional days (ms / 86 400 000) strictly exceeds `ttlDays` |
| Cache.ExpiryBoundary | packages/recce-docs-mcp/src/cache/__tests__/cache.test.ts:49-60 | an age of exactly `ttlDays` is not expired, one millisecond more is, and 10 days old with a TTL of 7 is expired |
| Cache.LoadMetadata | packages/recce-docs-mcp/src/cache/index.ts:34-37 | succeeds exactly when the metadata exists, and fails with NotFound otherwise |
| Cache.SaveMetadata | packages/recce-docs-mcp/src/cache/index.ts:39-42 | a following `loadMetadata` returns the record just saved; the pages are untouched |
| Cache.LoadPage | packages/recce-docs-mcp/src/cache/index.ts:44-52 | finds a page exactly when a file with the path's file name is stored |
| Cache.SavePage | packages/recce-docs-mcp/src/cache/index.ts:54-59 | `loadPage(p.path)` then returns p; paths with another file name read as before; the metadata, and so `exists()`, is unchanged; pages stay in their own files |
| Cache.LoadAllPages | packages/recce-docs-mcp/src/cache/index.ts:61-71 | one page per stored file, every stored page included; each returned page is what `loadPage` gives for its path, and no two share a path |
| Cache.Clear | packages/recce-docs-mcp/src/cache/index.ts:73-75 | afterwards `exists()` is false, `loadAllPages` is empty and every `loadPage` is null, from any store, including an empty one |
| Cache.ExistsAfterHistory | packages/recce-docs-mcp/src/cache/index.ts:19-21 | `exists()` (Cache.Exists, the metadata file is present): after any sequence of store calls it holds exactly when metadata was saved and not cleared since, or existed before and nothing cleared it; page saves never make it true |
| Search.PageMap | packages/recce-docs-mcp/src/search/index.ts:40-42 | the rebuilt path map gives each path the last page with that path, has at most as many entries as pages, and keys every page by its own path |
| Search.BuildIndex | packages/recce-docs-mcp/src/search/index.ts:29-43 | `getPage(x)` is the last input page with path x (none if absent); `getAllPages` has at most as many entries as pages; the i-th page is document i |
| Search.BuildForgetsPrevious | packages/recce-docs-mcp/src/search/index.ts:29-31 | the result of `buildIndex` does not depend on the index it replaces |
| Search.DocumentIdsUnique | packages/recce-docs-mcp/src/search/index.ts:33-38 | document ids are pairwise distinct even when page paths repeat |
| Search.AllPagesAfterBuild | packages/recce-docs-mcp/src/search/index.ts:82-84 | after building from pages with distinct paths, `getAllPages` returns exactly those pages in input order |
| Search.SearchIn | packages/recce-docs-mcp/src/search/index.ts:45-55 | results are the engine's ranked hits, in order, from the first: `slice(0, limit)` keeps at most `limit` of them (all when fewer) for limit ≥ 0 and all but the last -limit for a negative limit; each result carries its hit's stored path, url, title, snippet and score |
| Search.Restore | packages/recce-docs-mcp/src/search/index.ts:61-76 | a blob the loader rejects fails with CorruptIndex; otherwise the engine is the loaded one and `getPage(x)` is the last given page with path x |
| Search.RestorePagesIgnoreBlob | packages/recce-docs-mcp/src/search/index.ts:72-75 | the page map after `restore` is the same for any accepted blob and equals the one `buildIndex` makes from the same pages |
| Search.GetPage | packages/recce-docs-mcp/src/search/index.ts:78-80 | returns a page exactly when the path is a key of the latest build or restore, and that page has the requested path |
| Search.GetAllPages | packages/recce-docs-mcp/src/search/index.ts:82-84 | one page per key in key order, each what `getPage` returns for that key, no two sharing a path |
| Crawler.UrlToPath | packages/recce-docs-mcp/src/crawler/index.ts:49-57 | "/" stays "/"; the result is a prefix of the pathname at most one character shorter, and is shorter exactly when the pathname is not "/" and ends in '/' |
| Crawler.UrlToPathExamples | packages/recce-docs-mcp/src/crawler/__tests__/crawler.test.ts:52-56 | the three documented conversions hold |
| Crawler.CrawlPage | packages/recce-docs-mcp/src/crawler/index.ts:69-79 | succeeds exactly when the fetch does; the page has the requested url unchanged, path `urlToPath` of its pathname, and the extracted title, content and snippet |
| Crawler.CrawlEach | packages/recce-docs-mcp/src/crawler/index.ts:81-106 | the unbatched filter-map: never longer than the entry list, empty for no entries |
| Crawler.CrawlEachEmptyIff | packages/recce-docs-mcp/src/crawler/index.ts:92-102 | `crawlAll` returns no results exactly when every entry's crawl throws, an empty entry list included |
| Crawler.CrawlEachMembers | packages/recce-docs-mcp/src/crawler/index.ts:92-102 | every result comes from an entry whose crawl produced its page and whose `lastmod` it carries (a failed crawl yields no result); every successful entry's result is present |
| Crawler.CrawlEachAppend | packages/recce-docs-mcp/src/crawler/index.ts:89-102 | crawling two lists back to back gives the concatenation of their results |
| Crawler.CrawlAll | packages/recce-docs-mcp/src/crawler/index.ts:81-106 | with `concurrency` ≥ 1 the batched loop terminates and returns exactly the unbatched filter-map: successes in entry order, failures dropped |
| Crawler.CrawlAllPages | packages/recce-docs-mcp/src/crawler/index.ts:81-106 | `crawlAll(entries)` with default concurrency 5 over `crawlPage`: one result per entry whose fetch succeeds, in entry order, each with the entry's url, the path `urlToPath` derives from it and the entry's `lastmod` |
| Generation.PagesMetadata | packages/recce-docs-mcp/src/service.ts:228-239 | a path is a key exactly when some result has it, and its `lastmod` is that of the last such result |
| Generation.PagesMetadataKeys | packages/recce-docs-mcp/src/service.ts:228-239 | the metadata's page keys are exactly the set of result paths |
| Generation.SaveAllLastWins | packages/recce-docs-mcp/src/service.ts:230-237 | after the `savePage` loop (Generation.SaveAll), a path reads back the last page saved under its file name, or the earlier content if none was |
| Generation.SaveAll | packages/recce-docs-mcp/src/service.ts:230-237 | the `savePage` loop leaves the metadata alone and keeps every page in the file its own path names |
| Generation.Commit | packages/recce-docs-mcp/src/service.ts:227-246 | the new store's metadata is (now, ttl, per-path metadata); each path reads the last result saved under its file name and nothing of the old generation; for ttlDays ≥ 0 the cache is not expired at `now` |
| Generation.Rebuild | packages/recce-docs-mcp/src/service.ts:248-250 | the index rebuilt from `loadAllPages` finds, for each path, the page stored in its file when that page has this path, and nothing else |
| Generation.IndexAfterCommit | packages/recce-docs-mcp/src/service.ts:227-250 | after commit and rebuild, a path finds the last result saved under its file name if that result has this path, and nothing otherwise |
| Generation.IndexMatchesMetadata | packages/recce-docs-mcp/src/service.ts:227-250 | when no two result paths share a file name, the index returns the last result per path and holds exactly the paths the metadata lists |
| Generation.CollisionLosesPage | packages/recce-docs-mcp/src/service.ts:230-250 | for results "/a/b" then "/a-b", the metadata lists 2 pages but "/a/b" reads back the "/a-b" page and the index cannot find "/a/b" |
| Service.Resolve | packages/recce-docs-mcp/src/service.ts:62-67 | a given TTL and base URL are kept, a missing TTL becomes 7 days and a missing base URL the documentation site; the cache directory is kept |
| Service.ResolveExplicit | packages/recce-docs-mcp/src/service.ts:62-67 | options that spell out a resolved configuration resolve to it again, and omitting TTL and base URL equals passing 7 and the documentation site |
| Service.Create | packages/recce-docs-mcp/src/service.ts:62-70 | a new instance is neither ready nor syncing, has an empty index, sees the directory's existing store, and satisfies the service invariant when that store's pages sit in their own files |
| Service.GetStatus | packages/recce-docs-mcp/src/service.ts:168-189 | never `synced`; without metadata: 'syncing' iff in flight, else 'error' with a message, 0 pages; with metadata: 'syncing' or 'up_to_date', page count = number of metadata keys, last sync = last crawl, next check = last crawl plus ttlDays days, no error |
| Service.BeginSync | packages/recce-docs-mcp/src/service.ts:195-208 | the crawl test `force || !exists() || isExpired()` (Generation.ShouldCrawl) failing: answers `getStatus()` and changes nothing; in flight: joins and changes nothing; otherwise sets the in-flight flag; store, index and readiness are never touched |
| Service.FinishSync | packages/recce-docs-mcp/src/service.ts:208-258 | clears the in-flight flag either way; a sitemap failure propagates as UpstreamUnavailable with the previous generation intact; success commits the crawl with the configured TTL, rebuilds the index, sets ready and reports the new `getStatus()`: 'up_to_date' with one page per distinct path, last sync = now, next check = now plus the configured TTL, no error |
| Service.SyncCrawl | packages/recce-docs-mcp/src/service.ts:224 | `crawlAll(entries, {concurrency: 5})` returns exactly the results `FinishSync` commits |
| Service.NoSecondCrawl | packages/recce-docs-mcp/src/service.ts:202-206 | while a sync is in flight, no `sync` call starts a crawl or changes the state |
| Service.OverlappingSyncsCrawlOnce | packages/recce-docs-mcp/src/service.ts:202-214 | for a stale cache, a first sync begins, a second joins without change, and the one finish leaves nothing in flight |
| Service.FreshCacheNotRecrawled | packages/recce-docs-mcp/src/service.ts:196-200 | an existing unexpired cache answers a plain sync with its status and no change, while a forced sync does not stop there |
| Service.LoadFromCache | packages/recce-docs-mcp/src/service.ts:266-269 | indexes the stored pages so each path finds the page stored in its file, leaving store and flags alone |
| Service.EnsureReady | packages/recce-docs-mcp/src/service.ts:97-119 | no-op when ready; waits when a sync is in flight; with no cache begins a sync and is not yet ready; with a cache indexes it, becomes ready, and begins a background sync exactly when expired |
| Service.FirstReadinessNeedsSync | packages/recce-docs-mcp/src/service.ts:106-108 | from an empty cache, the service is ready after the sync `ensureReady` began exactly when the sitemap fetch succeeds |
| Service.AllPagesFailedWipesCache | packages/recce-docs-mcp/src/service.ts:219-251 | when the sitemap loads but every entry's crawl fails (or there are none), the sync still succeeds: the cache is emptied, the status is `up_to_date` with 0 pages and the next check a TTL away, the service is ready, every page lookup finds nothing, the listing is empty, and a plain sync before the TTL runs out answers without crawling |
| Service.BackgroundFailureKeepsServing | packages/recce-docs-mcp/src/service.ts:114-117 | a failed background sync of an expired cache leaves the service ready, idle, and serving the generation it loaded |
| Service.SearchDocs | packages/recce-docs-mcp/src/service.ts:125-130 | fails with NotReady exactly when not ready; otherwise the index's search with the given limit, or with limit 5 (so at most 5 results) when none is given |
| Service.GetPageContent | packages/recce-docs-mcp/src/service.ts:136-149 | fails with NotReady exactly when not ready; otherwise exactly the indexed page for the path (url, title, content and snippet included), null for paths the index lacks |
| Service.ListPages | packages/recce-docs-mcp/src/service.ts:154-163 | fails with NotReady exactly when not ready; otherwise one {path, title, url} per indexed page in index order |
| Service.EmptyRegistry | packages/recce-docs-mcp/src/service.ts:54 | the registry starts empty and consistent |
| Service.GetInstance | packages/recce-docs-mcp/src/service.ts:76-84 | a registered directory returns its instance and changes nothing (later options are ignored); a new directory gets a fresh instance built from these options |
| Service.ResetInstances | packages/recce-docs-mcp/src/service.ts:89-91 | empties the registry but keeps allocating fresh identities |
| Service.SameDirSameInstance | packages/recce-docs-mcp/tests/service.test.ts:53-57 | two requests for the same cache directory return the same instance |
| Service.DistinctDirsDistinctInstances | packages/recce-docs-mcp/tests/service.test.ts:59-68 | requests for different cache directories return different instances |
| Service.ResetGivesFreshInstance | packages/recce-docs-mcp/src/service.ts:89-91 | after a reset, a request builds an instance that is none of the earlier ones |
| Server.Segments | packages/recce-docs-mcp/src/server.ts:192 | `split('/').filter(Boolean)`: every segment is non-empty and '/'-free; "" has no segments and a non-empty '/'-free string is its own single segment |
| Server.SegmentsSplit | packages/recce-docs-mcp/src/server.ts:192 | the segments of x + "/" + y are those of x followed by those of y |
| Server.EmptySegmentsIgnored | packages/recce-docs-mcp/src/server.ts:192 | a doubled '/' splits like a single one, so "/a//b" and "/a/b" land in the same node, and "/" has no segments |
| Server.Insert | packages/recce-docs-mcp/src/server.ts:195-205 | filing a page adds its first segment to the top-level sections; a page with no segments changes nothing |
| Server.SectionTreePages | packages/recce-docs-mcp/src/server.ts:188-209 | in the tree `buildSectionTree` makes (Server.BuildSectionTree), the `_pages` of the node at segments t are exactly the input pages whose path has segments t, in input order, so each page with k ≥ 1 segments appears once and "/" appears nowhere |
| Server.SectionTreeNodes | packages/recce-docs-mcp/src/server.ts:195-205 | a node exists at t exactly when t is a prefix of some page's segments, so pages sharing a prefix share intermediate nodes |
| Server.SyncDocs | packages/recce-docs-mcp/src/server.ts:125-180 | no crawl needed: 'up_to_date', 0 updated, total = metadata keys, state unchanged; sitemap failure throws with state unchanged; after a crawl: 'updated' if forced else 'created', updated = total = number of results, last sync = now, next check = now plus 7 days, TTL 7, ready |
| Server.ReportCountsDuplicates | packages/recce-docs-mcp/src/server.ts:173-179 | two results with one path report 2 pages while the metadata holds 1 |
| Server.EnsureReady | packages/recce-docs-mcp/src/server.ts:105-118 | no-op when ready; with no cache it runs `syncDocs(false)` and ends in exactly that sync's state, marked ready, failing (and staying unready) exactly when the sitemap fetch fails; with a cache it indexes it and becomes ready at once, launching a background sync exactly when expired |

## Left out

- Filesystem and JSON: `fs.*` calls, directory creation, JSON encoding and its failures are not modelled. The store is an in-memory value. Corrupt files and I/O errors are outside the model.
- Cache.LoadAllPages: the `.json` name filter is not modelled. Every file in the pages directory is written by `savePage`, and all those names end in ".json", so the filter keeps everything.
- Directory enumeration order: the model lists stored files in first-creation order. On POSIX systems Node's `readdirSync` returns names sorted byte-wise (libuv sorts the scan), so there the order of `getAllPages`, `listPages` and the document ids follows the file names instead. The set of pages and the index's path map do not depend on the order, because stored pages have distinct paths.
- Cache.SavePage: file names are compared exactly. On a case-insensitive volume (the default on macOS and Windows), "/A" and "/a" also share one file. There, the frame "paths with another file name read as before" and Generation.IndexMatchesMetadata do not hold for paths that differ only in letter case.
- Search internals are foreign to the package: tokenising, fuzzy and prefix matching, the title boost and scoring. `Ranker` stands for them.
- `SearchIndex.serialize`: left out. It is one call into the library's `toJSON`. The `restore` round trip is the library's promise, not this package's, so `restore` takes its engine from the `Loader` oracle.
- Network and parsing: `fetch`, `fetchSitemap`, `parseSitemap`, `extractContent` (cheerio, turndown) and `new URL` are not modelled. The oracles `SitemapFetcher`, `Fetcher` and `PathnameOf` stand for them.
- Dates: instants are integer milliseconds. ISO-string parsing, and invalid dates that compare as NaN, are not modelled.
- Generation.NextCheck: approximates `getNextCheckDate` as `lastCrawl + ttlDays · 86 400 000` ms. The source adds calendar days in local time, which is an hour off across a daylight-saving change.
- Numbers: `ttlDays` and `limit` are integers. Fractional values are not modelled. The default `limit` of 5 is modelled for `searchDocs` (`Search.DEFAULT_LIMIT`); the server's search tool gets the same default from its argument schema, which is not modelled.
- Service.FinishSync: `performSync` calls `crawlAll` with concurrency 5. The model uses `CrawlEach` there, which `Service.SyncCrawl` shows is what `crawlAll` with concurrency 5 returns (a function cannot call the method).
- Concurrency: each `await` is a begin/finish pair of transitions. Waiters on one sync promise all receive the one outcome `FinishSync` returns. The server's `syncDocs` is modelled as one atomic step: it has no in-flight guard, so overlapping server syncs are not represented.
- `syncInBackground`: modelled as the `BeginSync` inside `EnsureReady`. Its eventual `FinishSync` outcome is not delivered to anyone, which stands for the swallowed error.
- Logging, the MCP server, tool registration, zod schemas, `run()`, the CLI entry point and the response text formatting (`textResult`) are not modelled. The server's `searchDocs`, `getPage` and `listSections` tool handlers only call `ensureReady` followed by `SearchIn`, `GetPage` or `BuildSectionTree`.
- Object-key quirks in `buildSectionTree` are not modelled: a segment named `_pages`, or one inherited from the object prototype. Nodes are a page list plus a map of children.
- The compiled `dist/` copies are not modelled. Their one behavioural difference is the cache directory read from an environment variable.
- `etag` in page metadata is never written by the code. It is always `None` in the model.
