/**
 `DocsService`: readiness gating, status reporting and single-flight sync
 over one cache directory, plus the registry of instances keyed by that
 directory. Each `await` in the source splits an operation into a begin
 transition and a finish transition; the in-flight promise is the
 `syncing` flag.
 */
module Service {
  import opened Wrappers
  import OrderedMap
  import opened Cache
  import opened Search
  import opened Crawler
  import opened Generation

  const DOCS_BASE_URL: string := "https://docs.reccehq.com"
  const DEFAULT_TTL_DAYS: int := 7
  /** The batch size `performSync` passes to `crawlAll`. */
  const SYNC_CONCURRENCY: int := 5
  const NOT_INITIALIZED: string := "Cache not initialized"

  /** `DocsServiceOptions`: only the cache directory is required. */
  datatype Options = Options(cacheDir: string, ttlDays: Option<int>, docsBaseUrl: Option<string>)

  /** The options with their defaults filled in. */
  datatype Config = Config(cacheDir: string, ttlDays: int, docsBaseUrl: string)

  function Resolve(o: Options): (c: Config)
    ensures c.cacheDir == o.cacheDir
    ensures o.ttlDays.None? ==> c.ttlDays == DEFAULT_TTL_DAYS
    ensures o.ttlDays.Some? ==> c.ttlDays == o.ttlDays.value
    ensures o.docsBaseUrl.None? ==> c.docsBaseUrl == DOCS_BASE_URL
    ensures o.docsBaseUrl.Some? ==> c.docsBaseUrl == o.docsBaseUrl.value
  {
    Config(o.cacheDir,
           match o.ttlDays case Some(t) => t case None => DEFAULT_TTL_DAYS,
           match o.docsBaseUrl case Some(u) => u case None => DOCS_BASE_URL)
  }

  /** Options that spell out every field resolve to exactly those values,
      and spelling out a default changes nothing. */
  lemma ResolveExplicit(o: Options)
    ensures var c := Resolve(o);
      Resolve(Options(c.cacheDir, Some(c.ttlDays), Some(c.docsBaseUrl))) == c
    ensures Resolve(Options(o.cacheDir, None, None))
         == Resolve(Options(o.cacheDir, Some(DEFAULT_TTL_DAYS), Some(DOCS_BASE_URL)))
  {
  }

  /** One service instance. */
  datatype Service = Service(config: Config, ready: bool, syncing: bool, store: Store, index: Index)

  /** The private constructor, over whatever the cache directory already holds. */
  function Create(o: Options, disk: Store): (s: Service)
    ensures !s.ready && !s.syncing && s.store == disk && s.config == Resolve(o)
    ensures GetAllPages(s.index) == []
    ensures WellNamed(disk) ==> Inv(s)
  {
    Service(Resolve(o), false, false, disk, NewIndex())
  }

  /** Every stored page sits in its own file and the index keys pages by path. */
  ghost predicate Inv(s: Service) {
    WellNamed(s.store) && Keyed(s.index)
  }

  /** The `status` values of `SyncStatus`. */
  datatype Phase = UpToDate | Syncing | Synced | Failed

  /** `SyncStatus`, instants in milliseconds. */
  datatype SyncStatus = SyncStatus(
    status: Phase, totalPages: nat, lastSync: Option<int>, nextCheck: Option<int>, error: Option<string>)

  /** `getStatus()`. */
  function GetStatus(s: Service): (r: SyncStatus)
    ensures r.status != Synced
    ensures !Exists(s.store) ==>
      && r.totalPages == 0 && r.lastSync.None? && r.nextCheck.None?
      && (r.status == Syncing <==> s.syncing)
      && (r.status == Failed <==> !s.syncing)
      && (r.error.Some? <==> !s.syncing)
    ensures Exists(s.store) ==>
      && r.status == (if s.syncing then Syncing else UpToDate)
      && r.totalPages == |s.store.metadata.value.pages|
      && r.lastSync == Some(s.store.metadata.value.lastCrawl)
      && r.nextCheck == Some(NextCheck(s.store.metadata.value.lastCrawl, s.store.metadata.value.ttlDays))
      && r.error.None?
  {
    match s.store.metadata
    case None =>
      SyncStatus(if s.syncing then Syncing else Failed, 0, None, None,
                 if s.syncing then None else Some(NOT_INITIALIZED))
    case Some(m) =>
      SyncStatus(if s.syncing then Syncing else UpToDate, |m.pages|,
                 Some(m.lastCrawl), Some(NextCheck(m.lastCrawl, m.ttlDays)), None)
  }

  /** A state together with what the caller sees. */
  datatype Step<T> = Step(state: Service, out: T)

  /** How a `sync` call proceeds past its first decision. */
  datatype SyncStart =
    | Answered(status: SyncStatus)  // no crawl needed: returns `getStatus()` at once
    | Joined                        // a sync is in flight: waits for it
    | Began                         // starts `performSync`

  /** `sync(force)` up to its first `await`. Only the in-flight flag can
      change; store, index and readiness are left as they are. */
  function BeginSync(s: Service, force: bool, now: int): (r: Step<SyncStart>)
    ensures r.state.store == s.store && r.state.index == s.index && r.state.ready == s.ready
    ensures r.state.config == s.config
    ensures !ShouldCrawl(s.store, force, now) ==> r.state == s && r.out == Answered(GetStatus(s))
    ensures ShouldCrawl(s.store, force, now) && s.syncing ==> r.state == s && r.out == Joined
    ensures ShouldCrawl(s.store, force, now) && !s.syncing ==> r.state.syncing && r.out == Began
  {
    if !ShouldCrawl(s.store, force, now) then Step(s, Answered(GetStatus(s)))
    else if s.syncing then Step(s, Joined)
    else Step(s.(syncing := true), Began)
  }

  /** The in-flight `performSync` settles and its `finally` clears the flag.
      Every caller waiting on it (the one that began it and any that joined)
      receives `out`: the status afterwards, or the error. The store is
      cleared only once the sitemap is in hand, so a failed sitemap fetch
      leaves the previous generation in place. */
  function FinishSync(s: Service, sitemap: SitemapFetcher, crawl: PageCrawler, now: int)
    : (r: Step<Result<SyncStatus, Error>>)
    requires s.syncing
    ensures !r.state.syncing && r.state.config == s.config
    ensures r.out.Err? <==> sitemap(s.config.docsBaseUrl).None?
    ensures r.out.Err? ==>
      && r.out.error == UpstreamUnavailable
      && r.state == s.(syncing := false)
    ensures r.out.Ok? ==>
      var results := CrawlEach(sitemap(s.config.docsBaseUrl).value, crawl);
      && r.state.ready
      && LoadMetadata(r.state.store) == Ok(Metadata(now, s.config.ttlDays, PagesMetadata(results)))
      && r.state.store == Commit(s.store, results, now, s.config.ttlDays)
      && r.state.index == Rebuild(r.state.store, s.index)
      && r.out.value.status == UpToDate
      && r.out.value.totalPages == |PagesMetadata(results)|
      && r.out.value.lastSync == Some(now)
      && r.out.value.nextCheck == Some(NextCheck(now, s.config.ttlDays))
      && r.out.value.error.None?
    ensures r.out.Ok? ==> r.out.value == GetStatus(r.state)
    ensures Inv(s) ==> Inv(r.state)
  {
    match sitemap(s.config.docsBaseUrl)
    case None => Step(s.(syncing := false), Err(UpstreamUnavailable))
    case Some(entries) =>
      var results := CrawlEach(entries, crawl);
      var store := Commit(s.store, results, now, s.config.ttlDays);
      var t := s.(store := store, index := Rebuild(store, s.index), ready := true, syncing := false);
      Step(t, Ok(GetStatus(t)))
  }

  /** The crawl inside `performSync`: `crawlAll(entries, {concurrency: 5})`.
      Its results are the ones `FinishSync` commits. */
  method SyncCrawl(entries: seq<SitemapEntry>, crawl: PageCrawler) returns (results: seq<CrawlResult>)
    ensures results == CrawlEach(entries, crawl)
    ensures |results| <= |entries|
  {
    results := CrawlAll(entries, SYNC_CONCURRENCY, crawl);
  }

  /** Single flight: once a sync is in flight, no `sync` call starts
      another crawl or changes anything. */
  lemma NoSecondCrawl(s: Service, force: bool, now: int)
    requires s.syncing
    ensures BeginSync(s, force, now).state == s
    ensures BeginSync(s, force, now).out != Began
  {
  }

  /** Two overlapping stale-cache syncs crawl once: the first begins, the
      second joins, and after the single finish both observe the same
      outcome and nothing is left in flight. */
  lemma OverlappingSyncsCrawlOnce(s: Service, f1: bool, f2: bool, now: int,
                                  sitemap: SitemapFetcher, crawl: PageCrawler)
    requires !s.syncing && IsExpired(s.store, now)
    ensures var a := BeginSync(s, f1, now);
      && a.out == Began
      && BeginSync(a.state, f2, now) == Step(a.state, Joined)
      && !FinishSync(a.state, sitemap, crawl, now).state.syncing
  {
  }

  /** A cache that is present and fresh is never re-crawled by a plain sync. */
  lemma FreshCacheNotRecrawled(s: Service, now: int)
    requires Exists(s.store) && !IsExpired(s.store, now)
    ensures BeginSync(s, false, now) == Step(s, Answered(GetStatus(s)))
    ensures BeginSync(s, true, now).out != Answered(GetStatus(s))
  {
  }

  /** What `ensureReady()` does before its caller may proceed. */
  datatype Readiness =
    | AlreadyReady               // returned at once
    | AwaitInFlight              // waits on the sync already running
    | AwaitFirstSync             // no cache: began a sync and waits for it
    | Loaded(background: bool)   // served from cache; maybe began a background sync

  /** `loadFromCache()`: index the pages on disk. */
  function LoadFromCache(s: Service): (r: Service)
    requires WellNamed(s.store)
    ensures r.store == s.store && r.ready == s.ready && r.syncing == s.syncing && Keyed(r.index)
    ensures forall x ::
      GetPage(r.index, x) == (var q := LoadPage(s.store, x); if q.Some? && q.value.path == x then q else None)
  {
    s.(index := Rebuild(s.store, s.index))
  }

  /** `ensureReady()` up to its first `await`. With no cache it begins a
      sync; readiness then comes only from that sync's success. With a
      cache it indexes it, becomes ready at once and begins a background
      sync exactly when the cache has expired. */
  function EnsureReady(s: Service, now: int): (r: Step<Readiness>)
    requires Inv(s)
    ensures Inv(r.state) && r.state.store == s.store && r.state.config == s.config
    ensures s.ready ==> r == Step(s, AlreadyReady)
    ensures !s.ready && s.syncing ==> r == Step(s, AwaitInFlight)
    ensures !s.ready && !s.syncing && !Exists(s.store) ==>
      r.out == AwaitFirstSync && !r.state.ready && r.state.syncing
    ensures !s.ready && !s.syncing && Exists(s.store) ==>
      && r.out == Loaded(IsExpired(s.store, now))
      && r.state.ready
      && r.state.syncing == IsExpired(s.store, now)
      && r.state.index == Rebuild(s.store, s.index)
  {
    if s.ready then Step(s, AlreadyReady)
    else if s.syncing then Step(s, AwaitInFlight)
    else if !Exists(s.store) then
      Step(BeginSync(s, false, now).state, AwaitFirstSync)
    else
      var loaded := LoadFromCache(s).(ready := true);
      if IsExpired(s.store, now) then Step(BeginSync(loaded, false, now).state, Loaded(true))
      else Step(loaded, Loaded(false))
  }

  /** From an empty cache, the service becomes ready exactly when the sync
      that `ensureReady` began succeeds. */
  lemma FirstReadinessNeedsSync(s: Service, now: int, later: int, sitemap: SitemapFetcher, crawl: PageCrawler)
    requires Inv(s) && !s.ready && !s.syncing && !Exists(s.store)
    ensures var t := EnsureReady(s, now).state;
      FinishSync(t, sitemap, crawl, later).state.ready <==> sitemap(s.config.docsBaseUrl).Some?
  {
  }

  /** A failed background sync leaves the service ready and serving the
      generation it loaded. */
  lemma BackgroundFailureKeepsServing(s: Service, now: int, later: int, sitemap: SitemapFetcher, crawl: PageCrawler)
    requires Inv(s) && !s.ready && !s.syncing && Exists(s.store) && IsExpired(s.store, now)
    requires sitemap(s.config.docsBaseUrl).None?
    ensures var t := EnsureReady(s, now).state;
      var u := FinishSync(t, sitemap, crawl, later).state;
      u.ready && !u.syncing && u.store == s.store && u.index == Rebuild(s.store, s.index)
  {
  }

  /** A sitemap that loads but whose every page fails to crawl (or that
      lists no pages) still counts as a successful sync: the previous
      generation is wiped, the service is ready with nothing to serve, and
      the empty cache is not crawled again by a plain sync until its TTL
      runs out. */
  lemma AllPagesFailedWipesCache(s: Service, sitemap: SitemapFetcher, crawl: PageCrawler, now: int, later: int)
    requires s.syncing && Inv(s) && s.config.ttlDays >= 0
    requires sitemap(s.config.docsBaseUrl).Some?
    requires forall e :: e in sitemap(s.config.docsBaseUrl).value ==> crawl(e.loc).None?
    requires now <= later <= NextCheck(now, s.config.ttlDays)
    ensures var r := FinishSync(s, sitemap, crawl, now);
      && r.out == Ok(SyncStatus(UpToDate, 0, Some(now), Some(NextCheck(now, s.config.ttlDays)), None))
      && r.state.ready && !r.state.syncing
      && LoadAllPages(r.state.store) == []
      && (forall x :: GetPageContent(r.state, x) == Ok(None))
      && ListPages(r.state) == Ok([])
      && BeginSync(r.state, false, later) == Step(r.state, Answered(GetStatus(r.state)))
  {
    var entries := sitemap(s.config.docsBaseUrl).value;
    CrawlEachEmptyIff(entries, crawl);
    assert CrawlEach(entries, crawl) == [];
    var r := FinishSync(s, sitemap, crawl, now);
    assert r.state.store.files.keys == [];
    assert !IsExpired(r.state.store, later);
  }

  /** `searchDocs(query, limit)`; `None` is an omitted `limit`. */
  function SearchDocs(s: Service, query: string, limit: Option<int>, rank: Ranker): (r: Result<seq<SearchResult>, Error>)
    ensures r.Err? <==> !s.ready
    ensures r.Err? ==> r.error == NotReady
    ensures r.Ok? && limit.Some? ==> r.value == SearchIn(s.index, query, limit.value, rank)
    ensures r.Ok? && limit.None? ==> r.value == SearchIn(s.index, query, DEFAULT_LIMIT, rank)
    ensures r.Ok? && limit.None? ==> |r.value| <= DEFAULT_LIMIT
  {
    if !s.ready then Err(NotReady) else Ok(SearchIn(s.index, query, LimitOrDefault(limit), rank))
  }

  /** `getPage(path)`: `null` for a path the index does not hold. */
  function GetPageContent(s: Service, path: string): (r: Result<Option<Page>, Error>)
    ensures r.Err? <==> !s.ready
    ensures r.Err? ==> r.error == NotReady
    ensures r.Ok? ==> (r.value.Some? <==> path in s.index.pages.keys)
    ensures r.Ok? && r.value.Some? && Keyed(s.index) ==> r.value.value.path == path
    ensures r.Ok? ==> r.value == GetPage(s.index, path)
  {
    if !s.ready then Err(NotReady)
    else match GetPage(s.index, path)
      case None => Ok(None)
      case Some(p) => Ok(Some(Page(p.path, p.url, p.title, p.content, p.snippet)))
  }

  /** `listPages()`: one summary per indexed page, in index order. */
  function ListPages(s: Service): (r: Result<seq<PageSummary>, Error>)
    ensures r.Err? <==> !s.ready
    ensures r.Err? ==> r.error == NotReady
    ensures r.Ok? ==> |r.value| == |s.index.pages.keys|
    ensures r.Ok? ==> forall i :: 0 <= i < |r.value| ==>
      GetPage(s.index, s.index.pages.keys[i]).Some? &&
      r.value[i] == Summarize(GetPage(s.index, s.index.pages.keys[i]).value)
  {
    if !s.ready then Err(NotReady)
    else
      var pages := GetAllPages(s.index);
      Ok(seq(|pages|, i requires 0 <= i < |pages| => Summarize(pages[i])))
  }

  /** An instance's identity. */
  type Handle = nat

  /** `DocsService.instances`: handles by cache directory, each handle's
      configuration, and the next identity to allocate. */
  datatype Registry = Registry(instances: map<string, Handle>, configs: map<Handle, Config>, next: Handle)

  /** Handles in the registry are allocated, configured and distinct. */
  ghost predicate RegistryInv(reg: Registry) {
    && (forall d :: d in reg.instances ==> reg.instances[d] < reg.next && reg.instances[d] in reg.configs)
    && (forall d1, d2 :: d1 in reg.instances && d2 in reg.instances && d1 != d2 ==>
          reg.instances[d1] != reg.instances[d2])
    && (forall h :: h in reg.configs ==> h < reg.next)
  }

  function EmptyRegistry(): (r: Registry)
    ensures RegistryInv(r) && r.instances == map[]
  {
    Registry(map[], map[], 0)
  }

  /** `getInstance(options)`: the instance registered for the cache
      directory, or a new one built from `options`. An existing instance
      keeps the options it was created with. */
  function GetInstance(reg: Registry, o: Options): (r: (Registry, Handle))
    ensures o.cacheDir in reg.instances ==> r == (reg, reg.instances[o.cacheDir])
    ensures o.cacheDir !in reg.instances ==>
      && (RegistryInv(reg) ==> r.1 !in reg.configs && r.1 !in reg.instances.Values)
      && r.0.configs == reg.configs[r.1 := Resolve(o)]
      && r.0.instances == reg.instances[o.cacheDir := r.1]
    ensures RegistryInv(reg) ==> RegistryInv(r.0)
  {
    if o.cacheDir in reg.instances then (reg, reg.instances[o.cacheDir])
    else
      var h := reg.next;
      (Registry(reg.instances[o.cacheDir := h], reg.configs[h := Resolve(o)], h + 1), h)
  }

  /** `resetInstances()`: forgets every instance; later instances are new. */
  function ResetInstances(reg: Registry): (r: Registry)
    ensures r.instances == map[]
    ensures RegistryInv(reg) ==> RegistryInv(r)
    ensures r.next == reg.next
  {
    reg.(instances := map[])
  }

  /** The same cache directory yields the same instance. */
  lemma SameDirSameInstance(reg: Registry, o1: Options, o2: Options)
    requires o1.cacheDir == o2.cacheDir
    ensures var (reg1, h1) := GetInstance(reg, o1);
      GetInstance(reg1, o2) == (reg1, h1)
  {
  }

  /** Different cache directories yield different instances. */
  lemma DistinctDirsDistinctInstances(reg: Registry, o1: Options, o2: Options)
    requires RegistryInv(reg) && o1.cacheDir != o2.cacheDir
    ensures var (reg1, h1) := GetInstance(reg, o1);
      GetInstance(reg1, o2).1 != h1
  {
    var (reg1, h1) := GetInstance(reg, o1);
    assert o1.cacheDir in reg1.instances && reg1.instances[o1.cacheDir] == h1;
    if o2.cacheDir in reg1.instances {
      assert reg1.instances[o2.cacheDir] != reg1.instances[o1.cacheDir];
    } else {
      assert h1 in reg1.instances.Values;
    }
  }

  /** After a reset, asking again for a directory builds a fresh instance
      that is none of the ones handed out before. */
  lemma ResetGivesFreshInstance(reg: Registry, o: Options)
    requires RegistryInv(reg)
    ensures var h := GetInstance(ResetInstances(reg), o).1;
      h !in reg.instances.Values && h !in reg.configs
  {
  }
}
