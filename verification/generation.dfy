/**
 Writing one crawl generation to the store and re-indexing it. The
 service's `performSync` and the server's `syncDocs` both run these steps
 after a successful crawl: clear the cache, save every crawled page,
 record per-page metadata, save the metadata, then rebuild the index from
 the pages read back from disk.
 */
module Generation {
  import opened Wrappers
  import OrderedMap
  import opened Cache
  import opened Search
  import opened Crawler

  function ResultPath(c: CrawlResult): string {
    c.page.path
  }

  /** The pages handed to `savePage`, one per result, `lastmod` dropped. */
  function PagesOf(results: seq<CrawlResult>): (r: seq<Page>)
    ensures |r| == |results|
    ensures forall i :: 0 <= i < |r| ==> r[i] == results[i].page
  {
    seq(|results|, i requires 0 <= i < |results| => results[i].page)
  }

  /** `pagesMetadata[result.path] = { lastmod: result.lastmod }` for each
      result in turn: one key per distinct path, the last result winning. */
  function PagesMetadata(results: seq<CrawlResult>): (r: map<string, PageMeta>)
    ensures forall x :: x in r <==> OrderedMap.LastWith(results, ResultPath, x).Some?
    ensures forall x :: x in r ==>
      r[x] == PageMeta(OrderedMap.LastWith(results, ResultPath, x).value.lastmod, None)
    decreases |results|
  {
    if |results| == 0 then map[]
    else
      var last := results[|results| - 1];
      PagesMetadata(results[..|results| - 1])[last.page.path := PageMeta(last.lastmod, None)]
  }

  /** The metadata's page keys are exactly the paths of the results. */
  lemma PagesMetadataKeys(results: seq<CrawlResult>)
    ensures PagesMetadata(results).Keys == set i | 0 <= i < |results| :: results[i].page.path
  {
    var r := PagesMetadata(results);
    forall x ensures x in r <==> exists i :: 0 <= i < |results| && results[i].page.path == x {
      if x in r {
        var c := OrderedMap.LastWith(results, ResultPath, x).value;
        var i :| 0 <= i < |results| && results[i] == c;
      }
    }
  }

  /** The results loop: `savePage` for each result, in order. */
  function SaveAll(s: Store, pages: seq<Page>): (r: Store)
    ensures r.metadata == s.metadata
    ensures WellNamed(s) ==> WellNamed(r)
    decreases |pages|
  {
    if |pages| == 0 then s
    else SavePage(SaveAll(s, pages[..|pages| - 1]), pages[|pages| - 1])
  }

  lemma {:induction false} SaveAllFiles(s: Store, pages: seq<Page>)
    ensures SaveAll(s, pages).files == OrderedMap.PutEach(s.files, pages, FilenameOf)
    decreases |pages|
  {
    if |pages| > 0 {
      SaveAllFiles(s, pages[..|pages| - 1]);
    }
  }

  /** After saving `pages`, a path reads back the last page saved under its
      file name, or what was there before if none was. */
  lemma SaveAllLastWins(s: Store, pages: seq<Page>, x: string)
    ensures LoadPage(SaveAll(s, pages), x)
         == (match OrderedMap.LastWith(pages, FilenameOf, PathToFilename(x))
             case Some(p) => Some(p)
             case None => LoadPage(s, x))
  {
    SaveAllFiles(s, pages);
    OrderedMap.PutEachLastWins(s.files, pages, FilenameOf, PathToFilename(x));
  }

  /** The crawl decision: `force || !cache.exists() || cache.isExpired()`. */
  predicate ShouldCrawl(s: Store, force: bool, now: int) {
    force || !Exists(s) || IsExpired(s, now)
  }

  /** `getNextCheckDate`, as an instant `ttlDays` whole days later. */
  function NextCheck(lastCrawl: int, ttlDays: int): (r: int)
    ensures ttlDays >= 0 ==> r >= lastCrawl
  {
    lastCrawl + ttlDays * MS_PER_DAY
  }

  /** Clear, save every result's page, then save the metadata at `now`. */
  function Commit(s: Store, results: seq<CrawlResult>, now: int, ttlDays: int): (r: Store)
    ensures LoadMetadata(r) == Ok(Metadata(now, ttlDays, PagesMetadata(results)))
    ensures WellNamed(r)
    ensures forall x :: LoadPage(r, x) == OrderedMap.LastWith(PagesOf(results), FilenameOf, PathToFilename(x))
    ensures ttlDays >= 0 ==> !IsExpired(r, now)
  {
    var saved := SaveAll(Clear(s), PagesOf(results));
    forall x ensures LoadPage(saved, x) == OrderedMap.LastWith(PagesOf(results), FilenameOf, PathToFilename(x)) {
      SaveAllLastWins(Clear(s), PagesOf(results), x);
    }
    SaveMetadata(saved, Metadata(now, ttlDays, PagesMetadata(results)))
  }

  /** Re-indexing the store at one path: the index finds the page stored in
      that path's file, provided that page really has this path. */
  lemma RebuildAt(s: Store, idx: Index, x: string)
    requires WellNamed(s)
    ensures GetPage(BuildIndex(idx, LoadAllPages(s)), x)
         == (var q := LoadPage(s, x); if q.Some? && q.value.path == x then q else None)
  {
    var pages := LoadAllPages(s);
    var L := LastWithPath(pages, x);
    assert GetPage(BuildIndex(idx, pages), x) == L;
    var q := LoadPage(s, x);
    if q.Some? && q.value.path == x {
      var f := PathToFilename(x);
      assert q.value == s.files.vals[f];
      assert q.value in pages;
      var i :| 0 <= i < |pages| && pages[i] == q.value;
      assert pages[i].path == x;
      assert L.Some?;
      var j :| 0 <= j < |pages| && pages[j] == L.value;
      assert LoadPage(s, pages[j].path) == Some(pages[j]);
    } else {
      assert L.None?;
    }
  }

  /** `buildIndex(cache.loadAllPages())`. */
  function Rebuild(s: Store, idx: Index): (r: Index)
    requires WellNamed(s)
    ensures Keyed(r)
    ensures forall x ::
      GetPage(r, x) == (var q := LoadPage(s, x); if q.Some? && q.value.path == x then q else None)
  {
    forall x ensures GetPage(BuildIndex(idx, LoadAllPages(s)), x)
      == (var q := LoadPage(s, x); if q.Some? && q.value.path == x then q else None)
    {
      RebuildAt(s, idx, x);
    }
    BuildIndex(idx, LoadAllPages(s))
  }

  /** No two results with different paths share a file name. */
  ghost predicate FilenamesDistinct(results: seq<CrawlResult>) {
    forall i, j ::
      0 <= i < |results| && 0 <= j < |results| &&
      FilenameOf(results[i].page) == FilenameOf(results[j].page)
      ==> results[i].page.path == results[j].page.path
  }

  /** After a committed generation is re-indexed, a path finds the last
      result saved under its file name when that result has this path. */
  lemma IndexAfterCommit(s: Store, results: seq<CrawlResult>, now: int, ttlDays: int, idx: Index, x: string)
    ensures var L := OrderedMap.LastWith(PagesOf(results), FilenameOf, PathToFilename(x));
      GetPage(Rebuild(Commit(s, results, now, ttlDays), idx), x)
        == if L.Some? && L.value.path == x then L else None
  {
  }

  /** A path is a metadata key exactly when some result has that path. */
  lemma MetadataKeyIff(results: seq<CrawlResult>, x: string)
    ensures x in PagesMetadata(results) <==> LastWithPath(PagesOf(results), x).Some?
  {
    var ps := PagesOf(results);
    if x in PagesMetadata(results) {
      var c := OrderedMap.LastWith(results, ResultPath, x).value;
      var i :| 0 <= i < |results| && results[i] == c;
      assert ps[i].path == x;
    }
    if LastWithPath(ps, x).Some? {
      var p := LastWithPath(ps, x).value;
      var i :| 0 <= i < |ps| && ps[i] == p;
      assert ResultPath(results[i]) == x;
    }
  }

  /** Without collisions, the last result under a path's file name is the
      last result with that path. */
  lemma LastByFilename(results: seq<CrawlResult>, x: string)
    requires FilenamesDistinct(results)
    ensures var L := OrderedMap.LastWith(PagesOf(results), FilenameOf, PathToFilename(x));
      (if L.Some? && L.value.path == x then L else None) == LastWithPath(PagesOf(results), x)
  {
    var ps := PagesOf(results);
    var L := OrderedMap.LastWith(ps, FilenameOf, PathToFilename(x));
    if i :| 0 <= i < |ps| && ps[i].path == x {
      forall j | 0 <= j < |ps| ensures FilenameOf(ps[j]) == PathToFilename(x) <==> PathOf(ps[j]) == x {
        assert FilenameOf(ps[i]) == PathToFilename(x);
      }
      OrderedMap.LastWithSameSelection(ps, FilenameOf, PathToFilename(x), PathOf, x);
    } else {
      assert LastWithPath(ps, x).None?;
    }
  }

  /** Without file-name collisions the re-indexed generation is exactly the
      crawl, last result winning per path, and the index holds precisely the
      paths the metadata lists. */
  lemma IndexMatchesMetadata(s: Store, results: seq<CrawlResult>, now: int, ttlDays: int, idx: Index, x: string)
    requires FilenamesDistinct(results)
    ensures GetPage(Rebuild(Commit(s, results, now, ttlDays), idx), x) == LastWithPath(PagesOf(results), x)
    ensures GetPage(Rebuild(Commit(s, results, now, ttlDays), idx), x).Some? <==> x in PagesMetadata(results)
  {
    IndexAfterCommit(s, results, now, ttlDays, idx, x);
    LastByFilename(results, x);
    MetadataKeyIff(results, x);
  }

  /** With colliding file names the metadata lists more pages than the store
      keeps: "/a/b" and "/a-b" are both recorded, but only the later page
      survives, in the one shared file, and the index cannot find "/a/b". */
  lemma CollisionLosesPage(s: Store, now: int, ttlDays: int, idx: Index, p1: Page, p2: Page)
    requires p1.path == "/a/b" && p2.path == "/a-b"
    ensures var results := [CrawlResult(p1, None), CrawlResult(p2, None)];
      var r := Commit(s, results, now, ttlDays);
      && |PagesMetadata(results)| == 2
      && LoadPage(r, "/a/b") == Some(p2)
      && GetPage(Rebuild(r, idx), "/a/b") == None
  {
    var results := [CrawlResult(p1, None), CrawlResult(p2, None)];
    CollisionMetadata(p1, p2);
    CollisionLastSaved(p1, p2);
    IndexAfterCommit(s, results, now, ttlDays, idx, "/a/b");
  }

  lemma CollisionMetadata(p1: Page, p2: Page)
    requires p1.path == "/a/b" && p2.path == "/a-b"
    ensures |PagesMetadata([CrawlResult(p1, None), CrawlResult(p2, None)])| == 2
  {
    var results := [CrawlResult(p1, None), CrawlResult(p2, None)];
    PagesMetadataKeys(results);
    assert "/a/b" != "/a-b" by { assert "/a/b"[2] != "/a-b"[2]; }
    assert PagesMetadata(results).Keys == {"/a/b", "/a-b"};
  }

  lemma CollisionLastSaved(p1: Page, p2: Page)
    requires p1.path == "/a/b" && p2.path == "/a-b"
    ensures OrderedMap.LastWith(PagesOf([CrawlResult(p1, None), CrawlResult(p2, None)]), FilenameOf, PathToFilename("/a/b"))
         == Some(p2)
  {
    FilenameCollisions();
    assert PagesOf([CrawlResult(p1, None), CrawlResult(p2, None)]) == [p1, p2];
    assert OrderedMap.LastWith([p1, p2], FilenameOf, "a-b.json") == Some(p2);
  }
}
