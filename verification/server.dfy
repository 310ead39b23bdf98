/**
 `RecceDocsServer`, the older tool server: its own sync (no in-flight
 guard), its own readiness step, and the navigation tree `listSections`
 builds from the indexed pages.
 */
module Server {
  import opened Wrappers
  import OrderedMap
  import opened Cache
  import opened Search
  import opened Crawler
  import opened Generation

  const DOCS_BASE_URL: string := "https://docs.reccehq.com"

  /** The fixed TTL the server writes into its metadata. */
  const TTL_DAYS: int := 7

  // ---------------------------------------------------------------------
  // Path segments: `path.split('/').filter(Boolean)`
  // ---------------------------------------------------------------------

  /** The longest prefix of `s` without a '/'. */
  function Word(s: string): (r: string)
    ensures r <= s
    ensures forall i :: 0 <= i < |r| ==> r[i] != '/'
    ensures |r| < |s| ==> s[|r|] == '/'
    decreases |s|
  {
    if |s| == 0 || s[0] == '/' then [] else [s[0]] + Word(s[1..])
  }

  /** `s` contains no '/'. */
  predicate SlashFree(s: string) {
    forall i :: 0 <= i < |s| ==> s[i] != '/'
  }

  /** The non-empty '/'-separated pieces of `s`, in order. */
  function Segments(s: string): (r: seq<string>)
    ensures forall i :: 0 <= i < |r| ==> |r[i]| > 0 && forall j :: 0 <= j < |r[i]| ==> r[i][j] != '/'
    ensures s == "" ==> r == []
    ensures |s| > 0 && SlashFree(s) ==> r == [s]
    decreases |s|
  {
    if |s| == 0 then []
    else if s[0] == '/' then Segments(s[1..])
    else
      var w := Word(s);
      assert SlashFree(s) ==> w == s;
      [w] + Segments(s[|w|..])
  }

  lemma {:induction false} WordAppend(x: string, z: string)
    ensures Word(x + z) == if |Word(x)| < |x| then Word(x) else x + Word(z)
    decreases |x|
  {
    if |x| == 0 {
      assert x + z == z;
    } else {
      assert (x + z)[0] == x[0];
      if x[0] != '/' {
        assert (x + z)[1..] == x[1..] + z;
        WordAppend(x[1..], z);
      }
    }
  }

  /** A '/' splits the segments: those of the left part, then the right. */
  lemma {:induction false} SegmentsSplit(x: string, y: string)
    ensures Segments(x + "/" + y) == Segments(x) + Segments(y)
    decreases |x|, 1
  {
    var s := x + "/" + y;
    if |x| == 0 {
      assert s == "/" + y;
      assert s[1..] == y;
    } else if x[0] == '/' {
      assert s[0] == '/';
      assert s[1..] == x[1..] + "/" + y;
      SegmentsSplit(x[1..], y);
    } else {
      SegmentsSplitWord(x, y);
    }
  }

  /** `SegmentsSplit` when `x` starts with a segment. */
  lemma {:induction false} SegmentsSplitWord(x: string, y: string)
    requires |x| > 0 && x[0] != '/'
    ensures Segments(x + "/" + y) == Segments(x) + Segments(y)
    decreases |x|, 0
  {
    var s := x + "/" + y;
    var w := Word(x);
    assert s[0] == x[0];
    WordAppend(x, "/" + y);
    assert s == x + ("/" + y);
    if |w| < |x| {
      assert Word(s) == w;
      assert s[|w|..] == x[|w|..] + "/" + y;
      SegmentsSplit(x[|w|..], y);
    } else {
      SegmentsSplitWhole(x, y);
    }
  }

  /** `SegmentsSplit` when all of `x` is one segment. */
  lemma SegmentsSplitWhole(x: string, y: string)
    requires |x| > 0 && Word(x) == x
    ensures Segments(x + "/" + y) == Segments(x) + Segments(y)
  {
    var s := x + "/" + y;
    assert s[0] == x[0];
    WordAppend(x, "/" + y);
    assert s == x + ("/" + y);
    assert Word("/" + y) == [];
    assert Word(s) == x;
    assert s[|x|..] == "/" + y;
    assert ("/" + y)[1..] == y;
    assert x[|x|..] == [];
  }

  /** Empty segments are ignored: a doubled '/' splits like a single one,
      and the root path "/" has no segments at all. */
  lemma EmptySegmentsIgnored(x: string, y: string)
    ensures Segments(x + "//" + y) == Segments(x + "/" + y)
    ensures Segments("/") == []
  {
    assert x + "//" + y == x + "/" + ("/" + y);
    SegmentsSplit(x, "/" + y);
    SegmentsSplit(x, y);
    assert "/" + y == [] + "/" + y;
    SegmentsSplit([], y);
    assert Segments([]) == [];
  }

  // ---------------------------------------------------------------------
  // The section tree
  // ---------------------------------------------------------------------

  /** One tree node: the pages that end here (`_pages`) and the sub-sections. */
  datatype Node = Node(pages: seq<PageSummary>, children: map<string, Node>)

  /** The top of the tree holds sections only. */
  type Forest = map<string, Node>

  /** Files `p` under the node reached by `segs`, creating missing nodes
      with no pages on the way; with no segments nothing changes. */
  function Insert(f: Forest, segs: seq<string>, p: PageSummary): (r: Forest)
    ensures |segs| > 0 ==> r.Keys == f.Keys + {segs[0]}
    ensures |segs| == 0 ==> r == f
    decreases |segs|
  {
    if |segs| == 0 then f
    else
      var child := if segs[0] in f then f[segs[0]] else Node([], map[]);
      if |segs| == 1 then f[segs[0] := child.(pages := child.pages + [p])]
      else f[segs[0] := child.(children := Insert(child.children, segs[1..], p))]
  }

  /** `buildSectionTree(pages)`: every page filed in input order. */
  function BuildSectionTree(pages: seq<PageSummary>): (r: Forest)
    decreases |pages|
  {
    if |pages| == 0 then map[]
    else
      var last := pages[|pages| - 1];
      Insert(BuildSectionTree(pages[..|pages| - 1]), Segments(last.path), last)
  }

  /** The node reached by following `segs` from the top, if any. */
  function NodeAt(f: Forest, segs: seq<string>): Option<Node>
    decreases |segs|
  {
    if |segs| == 0 || segs[0] !in f then None
    else if |segs| == 1 then Some(f[segs[0]])
    else NodeAt(f[segs[0]].children, segs[1..])
  }

  /** The `_pages` of the node at `segs`, empty when there is none. */
  function PagesAt(f: Forest, segs: seq<string>): seq<PageSummary> {
    match NodeAt(f, segs)
    case Some(n) => n.pages
    case None => []
  }

  /** Reference definition: the pages whose path has exactly these segments. */
  function PagesWithSegments(pages: seq<PageSummary>, segs: seq<string>): (r: seq<PageSummary>)
    ensures |r| <= |pages|
    decreases |pages|
  {
    if |pages| == 0 then []
    else
      var last := pages[|pages| - 1];
      PagesWithSegments(pages[..|pages| - 1], segs) + (if Segments(last.path) == segs then [last] else [])
  }

  lemma {:induction false} InsertPagesAt(f: Forest, s: seq<string>, p: PageSummary, t: seq<string>)
    requires |t| > 0
    ensures PagesAt(Insert(f, s, p), t) == PagesAt(f, t) + (if s == t then [p] else [])
    decreases |t|
  {
    if |s| == 0 || s[0] != t[0] {
      if |s| > 0 {
        assert s != t;
        if |t| > 1 && t[0] in f {
          assert Insert(f, s, p)[t[0]] == f[t[0]];
        }
      }
    } else {
      var child := if s[0] in f then f[s[0]] else Node([], map[]);
      var r := Insert(f, s, p);
      if |t| == 1 {
        if |s| > 1 { assert s != t; }
        else { assert s == t; }
      } else if |s| == 1 {
        assert s != t;
        assert r[t[0]].children == child.children;
        assert NodeAt(r, t) == NodeAt(child.children, t[1..]);
        if s[0] !in f {
          assert NodeAt(map[], t[1..]) == None;
        }
      } else {
        assert r[t[0]].children == Insert(child.children, s[1..], p);
        InsertPagesAt(child.children, s[1..], p, t[1..]);
        assert s == t <==> s[1..] == t[1..];
        if s[0] !in f {
          assert NodeAt(map[], t[1..]) == None;
        }
      }
    }
  }

  /** The tree files each page exactly once, in the `_pages` of the node its
      segments lead to, in input order; a page with no segments (the root
      "/") appears nowhere. */
  lemma {:induction false} SectionTreePages(pages: seq<PageSummary>, t: seq<string>)
    requires |t| > 0
    ensures PagesAt(BuildSectionTree(pages), t) == PagesWithSegments(pages, t)
    decreases |pages|
  {
    if |pages| > 0 {
      var last := pages[|pages| - 1];
      SectionTreePages(pages[..|pages| - 1], t);
      InsertPagesAt(BuildSectionTree(pages[..|pages| - 1]), Segments(last.path), last, t);
    }
  }

  lemma {:induction false} InsertNodeAt(f: Forest, s: seq<string>, p: PageSummary, t: seq<string>)
    requires |t| > 0
    ensures NodeAt(Insert(f, s, p), t).Some? <==> NodeAt(f, t).Some? || t <= s
    decreases |t|
  {
    if |s| == 0 || s[0] != t[0] {
      if |s| > 0 && |t| > 1 && t[0] in f {
        assert Insert(f, s, p)[t[0]] == f[t[0]];
      }
    } else {
      var child := if s[0] in f then f[s[0]] else Node([], map[]);
      var r := Insert(f, s, p);
      if |t| == 1 {
        assert t <= s;
      } else if |s| == 1 {
        assert !(t <= s);
        assert r[t[0]].children == child.children;
        if s[0] !in f {
          assert NodeAt(map[], t[1..]) == None;
        }
      } else {
        assert r[t[0]].children == Insert(child.children, s[1..], p);
        InsertNodeAt(child.children, s[1..], p, t[1..]);
        assert t <= s <==> t[1..] <= s[1..];
        if s[0] !in f {
          assert NodeAt(map[], t[1..]) == None;
        }
      }
    }
  }

  /** Some page's segments start with `t`. */
  ghost predicate Covered(pages: seq<PageSummary>, t: seq<string>) {
    exists i :: 0 <= i < |pages| && t <= Segments(pages[i].path)
  }

  /** How `Covered` extends by one page. */
  lemma CoveredSnoc(pages: seq<PageSummary>, t: seq<string>)
    requires |pages| > 0
    ensures Covered(pages, t) <==>
      Covered(pages[..|pages| - 1], t) || t <= Segments(pages[|pages| - 1].path)
  {
    var init := pages[..|pages| - 1];
    if Covered(pages, t) {
      var i :| 0 <= i < |pages| && t <= Segments(pages[i].path);
      if i < |init| {
        assert init[i] == pages[i];
      }
    }
    if Covered(init, t) {
      var i :| 0 <= i < |init| && t <= Segments(init[i].path);
      assert pages[i] == init[i];
    }
  }

  /** A node exists exactly where some page's segments pass through it, so
      pages sharing a prefix share the intermediate nodes. */
  lemma {:induction false} SectionTreeNodes(pages: seq<PageSummary>, t: seq<string>)
    requires |t| > 0
    ensures NodeAt(BuildSectionTree(pages), t).Some? <==>
      exists i :: 0 <= i < |pages| && t <= Segments(pages[i].path)
    decreases |pages|
  {
    if |pages| > 0 {
      var init := pages[..|pages| - 1];
      var last := pages[|pages| - 1];
      SectionTreeNodes(init, t);
      InsertNodeAt(BuildSectionTree(init), Segments(last.path), last, t);
      CoveredSnoc(pages, t);
      assert Covered(init, t) <==> exists i :: 0 <= i < |init| && t <= Segments(init[i].path);
    }
  }

  // ---------------------------------------------------------------------
  // Sync and readiness
  // ---------------------------------------------------------------------

  /** The server's state; its cache directory is fixed. */
  datatype ServerState = ServerState(ready: bool, store: Store, index: Index)

  /** The `status` values `syncDocs` reports. */
  datatype ReportStatus = UpToDate | Created | Updated

  /** The record `syncDocs` returns, instants in milliseconds. */
  datatype Report = Report(status: ReportStatus, pagesUpdated: nat, totalPages: nat, lastSync: int, nextCheck: int)

  /** `syncDocs(force)`, run to completion. Without a crawl it reports the
      metadata as it stands; after a crawl it reports the number of crawl
      results. A sitemap failure throws before anything is touched. */
  function SyncDocs(s: ServerState, force: bool, now: int, sitemap: SitemapFetcher, crawl: PageCrawler)
    : (r: (ServerState, Result<Report, Error>))
    requires WellNamed(s.store)
    ensures WellNamed(r.0.store)
    ensures !ShouldCrawl(s.store, force, now) ==>
      var m := s.store.metadata.value;
      r == (s, Ok(Report(UpToDate, 0, |m.pages|, m.lastCrawl, NextCheck(m.lastCrawl, m.ttlDays))))
    ensures ShouldCrawl(s.store, force, now) && sitemap(DOCS_BASE_URL).None? ==>
      r == (s, Err(UpstreamUnavailable))
    ensures ShouldCrawl(s.store, force, now) && sitemap(DOCS_BASE_URL).Some? ==>
      var results := CrawlEach(sitemap(DOCS_BASE_URL).value, crawl);
      && r.1.Ok?
      && r.1.value.status == (if force then Updated else Created)
      && r.1.value.pagesUpdated == |results| && r.1.value.totalPages == |results|
      && r.1.value.lastSync == now
      && r.1.value.nextCheck == NextCheck(now, TTL_DAYS)
      && r.0.ready
      && LoadMetadata(r.0.store) == Ok(Metadata(now, TTL_DAYS, PagesMetadata(results)))
      && r.0.store == Commit(s.store, results, now, TTL_DAYS)
      && r.0.index == Rebuild(r.0.store, s.index)
  {
    if !ShouldCrawl(s.store, force, now) then
      var m := s.store.metadata.value;
      (s, Ok(Report(UpToDate, 0, |m.pages|, m.lastCrawl, NextCheck(m.lastCrawl, m.ttlDays))))
    else match sitemap(DOCS_BASE_URL)
      case None => (s, Err(UpstreamUnavailable))
      case Some(entries) =>
        var results := CrawlEach(entries, crawl);
        var store := Commit(s.store, results, now, TTL_DAYS);
        var t := ServerState(true, store, Rebuild(store, s.index));
        (t, Ok(Report(if force then Updated else Created, |results|, |results|, now, NextCheck(now, TTL_DAYS))))
  }

  /** A sitemap of two entries, "a" then "b". */
  function TwoEntries(lastmod: Option<string>): seq<SitemapEntry> {
    [SitemapEntry("a", lastmod), SitemapEntry("b", lastmod)]
  }

  /** A crawl that yields `p` for "a" and `q` for anything else. */
  function TwoPages(p: Page, q: Page): PageCrawler {
    u => if u == "a" then Some(p) else Some(q)
  }

  lemma CrawlTwo(p: Page, q: Page, lastmod: Option<string>)
    ensures CrawlEach(TwoEntries(lastmod), TwoPages(p, q)) == [CrawlResult(p, lastmod), CrawlResult(q, lastmod)]
  {
    var entries := TwoEntries(lastmod);
    assert "a" != "b";
    assert entries[1..] == [SitemapEntry("b", lastmod)];
    assert entries[1..][1..] == [];
  }

  /** The crawl report counts results, not distinct pages: two results with
      one path report two pages while the metadata and index hold one. */
  lemma ReportCountsDuplicates(s: ServerState, now: int, p: Page, q: Page, lastmod: Option<string>)
    requires WellNamed(s.store) && p.path == q.path
    ensures var r := SyncDocs(s, true, now, _ => Some(TwoEntries(lastmod)), TwoPages(p, q));
      && r.1.Ok? && r.1.value.totalPages == 2
      && |r.0.store.metadata.value.pages| == 1
  {
    var results := [CrawlResult(p, lastmod), CrawlResult(q, lastmod)];
    CrawlTwo(p, q, lastmod);
    PagesMetadataKeys(results);
    assert PagesMetadata(results).Keys == {p.path};
  }

  /** `ensureReady()`. Once ready it does nothing. With no cache it syncs
      and becomes ready only if that sync succeeds. With a cache it indexes
      it and becomes ready at once, and when the cache has expired it
      launches an unawaited `syncDocs(false)` (`out` is true), which the
      environment may later run as a separate `SyncDocs` step. */
  function EnsureReady(s: ServerState, now: int, sitemap: SitemapFetcher, crawl: PageCrawler)
    : (r: (ServerState, Result<bool, Error>))
    requires WellNamed(s.store)
    ensures WellNamed(r.0.store)
    ensures s.ready ==> r == (s, Ok(false))
    ensures r.1.Ok? ==> r.0.ready
    ensures r.1.Err? ==> r.0 == s && !s.ready
    ensures r.1.Err? <==> !s.ready && !Exists(s.store) && sitemap(DOCS_BASE_URL).None?
    ensures !s.ready && !Exists(s.store) && r.1.Ok? ==>
      r.0 == SyncDocs(s, false, now, sitemap, crawl).0.(ready := true)
    ensures !s.ready && Exists(s.store) ==>
      r == (s.(ready := true, index := Rebuild(s.store, s.index)), Ok(IsExpired(s.store, now)))
  {
    if s.ready then (s, Ok(false))
    else if !Exists(s.store) then
      var (t, out) := SyncDocs(s, false, now, sitemap, crawl);
      match out
      case Err(e) => (t, Err(e))
      case Ok(_) => (t.(ready := true), Ok(false))
    else
      (s.(ready := true, index := Rebuild(s.store, s.index)), Ok(IsExpired(s.store, now)))
  }
}
