/**
 The on-disk page store (`Cache`): one metadata record plus one file per
 page, named by a filesystem-safe transform of the page's path. The
 filesystem is an immutable `Store` value; every operation returns the
 new store.
 */
module Cache {
  import opened Wrappers
  import OrderedMap

  /** Milliseconds in a day, `1000 * 60 * 60 * 24`. */
  const MS_PER_DAY: int := 86_400_000

  /** `CachedPage`. */
  datatype Page = Page(path: string, url: string, title: string, content: string, snippet: string)

  /** `PageMetadata`: what the sitemap said about one page. */
  datatype PageMeta = PageMeta(lastmod: Option<string>, etag: Option<string>)

  /** `CacheMetadata`, with the crawl instant as integer milliseconds. */
  datatype Metadata = Metadata(lastCrawl: int, ttlDays: int, pages: map<string, PageMeta>)

  /** The cache directory: `metadata.json` if present, and the `pages/` files by name. */
  datatype Store = Store(metadata: Option<Metadata>, files: OrderedMap.OMap<Page>)

  /** A cache directory that does not exist yet. */
  function EmptyStore(): (r: Store)
    ensures r.metadata.None? && r.files.keys == []
  {
    Store(None, OrderedMap.Empty())
  }

  function StripLeadingSlash(p: string): (r: string)
    ensures |p| > 0 && p[0] == '/' ==> r == p[1..]
    ensures !(|p| > 0 && p[0] == '/') ==> r == p
  {
    if |p| > 0 && p[0] == '/' then p[1..] else p
  }

  /** Replaces every `from` character by `to`. */
  function Swap(s: string, from: char, to: char): (r: string)
    ensures |r| == |s|
    ensures forall i :: 0 <= i < |s| ==> r[i] == (if s[i] == from then to else s[i])
  {
    seq(|s|, i requires 0 <= i < |s| => if s[i] == from then to else s[i])
  }

  const JSON_SUFFIX: string := ".json"

  /** The name of the file a page with path `p` is stored in: one leading
      '/' dropped, every other '/' turned into '-', ".json" appended. */
  function PathToFilename(p: string): (r: string)
    ensures |r| == |StripLeadingSlash(p)| + |JSON_SUFFIX|
    ensures r[|r| - |JSON_SUFFIX|..] == JSON_SUFFIX
    ensures forall i :: 0 <= i < |r| ==> r[i] != '/'
    ensures var q := StripLeadingSlash(p);
      forall i :: 0 <= i < |q| ==> r[i] == (if q[i] == '/' then '-' else q[i])
  {
    var w := Swap(StripLeadingSlash(p), '/', '-');
    var r := w + JSON_SUFFIX;
    assert forall i :: 0 <= i < |w| ==> r[i] == w[i];
    assert r[|w|..] == JSON_SUFFIX;
    assert forall i :: |w| <= i < |r| ==> r[i] == JSON_SUFFIX[i - |w|];
    r
  }

  function FilenameOf(p: Page): string {
    PathToFilename(p.path)
  }

  /** Recovers a path from a file name; an inverse of `PathToFilename` only
      on paths that start with '/' and contain no '-'. */
  function FilenameToPath(f: string): (r: string)
    requires |f| >= |JSON_SUFFIX|
    ensures |r| == |f| - |JSON_SUFFIX| + 1 && r[0] == '/'
  {
    "/" + Swap(f[..|f| - |JSON_SUFFIX|], '-', '/')
  }

  lemma FilenameRoundTrip(p: string)
    requires |p| > 0 && p[0] == '/'
    requires forall i :: 0 <= i < |p| ==> p[i] != '-'
    ensures FilenameToPath(PathToFilename(p)) == p
  {
    var f := PathToFilename(p);
    var r := FilenameToPath(f);
    assert f[..|f| - |JSON_SUFFIX|] == Swap(p[1..], '/', '-');
    forall i | 0 <= i < |p| ensures r[i] == p[i] {
      if i > 0 {
        assert r[i] == f[i - 1] || r[i] == '/';
      }
    }
  }

  /** The transform is not injective: these three paths share one file. */
  lemma FilenameCollisions()
    ensures PathToFilename("/a/b") == PathToFilename("/a-b") == PathToFilename("a/b") == "a-b.json"
  {
    assert Swap("a/b", '/', '-') == "a-b";
    assert Swap("a-b", '/', '-') == "a-b";
  }

  /** `exists()`: the metadata file is present. */
  predicate Exists(s: Store) {
    s.metadata.Some?
  }

  /** `isExpired()` at instant `now`: fails open when there is no metadata;
      otherwise the age in days must STRICTLY exceed the TTL. */
  function IsExpired(s: Store, now: int): (r: bool)
    ensures !Exists(s) ==> r
    ensures Exists(s) ==>
      (r <==> (now - s.metadata.value.lastCrawl) as real / MS_PER_DAY as real
                > s.metadata.value.ttlDays as real)
  {
    match s.metadata
    case None => true
    case Some(m) =>
      var age := now - m.lastCrawl;
      assert age as real / MS_PER_DAY as real > m.ttlDays as real
         <==> age as real > m.ttlDays as real * MS_PER_DAY as real;
      age > m.ttlDays * MS_PER_DAY
  }

  /** `loadMetadata()`: reading a missing file throws. */
  function LoadMetadata(s: Store): (r: Result<Metadata, Error>)
    ensures r.Ok? <==> Exists(s)
    ensures r.Err? ==> r.error == NotFound
  {
    match s.metadata
    case Some(m) => Ok(m)
    case None => Err(NotFound)
  }

  /** `saveMetadata(m)`: overwrites the metadata, leaves the pages alone. */
  function SaveMetadata(s: Store, m: Metadata): (r: Store)
    ensures LoadMetadata(r) == Ok(m)
    ensures r.files == s.files
  {
    s.(metadata := Some(m))
  }

  /** `loadPage(path)`: the page in the file `path` maps to, if any. */
  function LoadPage(s: Store, path: string): (r: Option<Page>)
    ensures r.Some? <==> PathToFilename(path) in s.files.keys
  {
    OrderedMap.Get(s.files, PathToFilename(path))
  }

  /** Every stored page sits in the file its own path maps to. */
  ghost predicate WellNamed(s: Store) {
    forall f :: f in s.files.vals ==> FilenameOf(s.files.vals[f]) == f
  }

  /** `savePage(p)`: writes `p`, overwriting whatever shared its file name. */
  function SavePage(s: Store, p: Page): (r: Store)
    ensures LoadPage(r, p.path) == Some(p)
    ensures forall x :: PathToFilename(x) != FilenameOf(p) ==> LoadPage(r, x) == LoadPage(s, x)
    ensures r.metadata == s.metadata
    ensures WellNamed(s) ==> WellNamed(r)
  {
    s.(files := OrderedMap.Put(s.files, FilenameOf(p), p))
  }

  /** `loadAllPages()`: every stored file's page, once each. */
  function LoadAllPages(s: Store): (r: seq<Page>)
    ensures |r| == |s.files.keys|
    ensures forall f :: f in s.files.vals ==> s.files.vals[f] in r
    ensures WellNamed(s) ==> forall i :: 0 <= i < |r| ==> LoadPage(s, r[i].path) == Some(r[i])
    ensures WellNamed(s) ==> forall i, j :: 0 <= i < j < |r| ==> r[i].path != r[j].path
  {
    var r := OrderedMap.Values(s.files);
    assert forall f :: f in s.files.vals ==> s.files.vals[f] in r by {
      forall f | f in s.files.vals ensures s.files.vals[f] in r {
        var i :| 0 <= i < |s.files.keys| && s.files.keys[i] == f;
        assert OrderedMap.Get(s.files, s.files.keys[i]) == Some(r[i]);
      }
    }
    r
  }

  /** `clear()`: removes the whole cache directory; harmless when absent. */
  function Clear(s: Store): (r: Store)
    ensures !Exists(r)
    ensures LoadAllPages(r) == []
    ensures forall x :: LoadPage(r, x) == None
    ensures WellNamed(r)
  {
    EmptyStore()
  }

  /** The store's mutating calls, for reasoning about histories. */
  datatype Op = SaveMetadataOp(m: Metadata) | SavePageOp(p: Page) | ClearOp

  function Step(s: Store, op: Op): Store {
    match op
    case SaveMetadataOp(m) => SaveMetadata(s, m)
    case SavePageOp(p) => SavePage(s, p)
    case ClearOp => Clear(s)
  }

  function Apply(s: Store, ops: seq<Op>): Store
    decreases |ops|
  {
    if |ops| == 0 then s else Step(Apply(s, ops[..|ops| - 1]), ops[|ops| - 1])
  }

  /** Some metadata write in `ops` is not followed by a clear. */
  ghost predicate MetadataSavedSinceClear(ops: seq<Op>) {
    exists i :: 0 <= i < |ops| && ops[i].SaveMetadataOp? &&
      forall j :: i < j < |ops| ==> !ops[j].ClearOp?
  }

  lemma StepExists(s: Store, op: Op)
    ensures Exists(Step(s, op)) <==> op.SaveMetadataOp? || (op.SavePageOp? && Exists(s))
  {
  }

  /** How `MetadataSavedSinceClear` extends by one operation. */
  lemma SavedSinceClearSnoc(init: seq<Op>, last: Op)
    ensures MetadataSavedSinceClear(init + [last]) <==>
      (last.SaveMetadataOp? || (last.SavePageOp? && MetadataSavedSinceClear(init)))
  {
    var ops := init + [last];
    if MetadataSavedSinceClear(ops) && !last.SaveMetadataOp? {
      var i :| 0 <= i < |ops| && ops[i].SaveMetadataOp? &&
        forall j :: i < j < |ops| ==> !ops[j].ClearOp?;
      assert i < |init|;
      assert ops[|init|] == last && !ops[|init|].ClearOp?;
      assert init[i].SaveMetadataOp? && forall j :: i < j < |init| ==> ops[j] == init[j];
    }
    if last.SaveMetadataOp? {
      assert ops[|init|].SaveMetadataOp?;
    }
    if last.SavePageOp? && MetadataSavedSinceClear(init) {
      var i :| 0 <= i < |init| && init[i].SaveMetadataOp? &&
        forall j :: i < j < |init| ==> !init[j].ClearOp?;
      assert ops[i].SaveMetadataOp? && forall j :: i < j < |ops| ==> !ops[j].ClearOp?;
    }
  }

  /** `exists()` holds after a history exactly when metadata was written
      and not cleared since (or was there before and never cleared);
      saving pages never makes it true. */
  lemma {:induction false} ExistsAfterHistory(s: Store, ops: seq<Op>)
    ensures Exists(Apply(s, ops)) <==>
      (MetadataSavedSinceClear(ops) ||
       (Exists(s) && forall j :: 0 <= j < |ops| ==> !ops[j].ClearOp?))
    decreases |ops|
  {
    if |ops| > 0 {
      var init := ops[..|ops| - 1];
      var last := ops[|ops| - 1];
      assert ops == init + [last];
      ExistsAfterHistory(s, init);
      StepExists(Apply(s, init), last);
      SavedSinceClearSnoc(init, last);
      assert (forall j :: 0 <= j < |ops| ==> !ops[j].ClearOp?) <==>
        (!last.ClearOp? && forall j :: 0 <= j < |init| ==> !init[j].ClearOp?);
    }
  }

  /** The TTL boundary: exactly `ttlDays` old is fresh, a millisecond more is
      stale, and ten days with a seven-day TTL is stale. */
  lemma ExpiryBoundary(s: Store, ttl: int, t: int)
    requires s.metadata == Some(Metadata(t, ttl, map[]))
    ensures !IsExpired(s, t + ttl * MS_PER_DAY)
    ensures IsExpired(s, t + ttl * MS_PER_DAY + 1)
    ensures ttl == 7 ==> IsExpired(s, t + 10 * MS_PER_DAY)
  {
  }
}
