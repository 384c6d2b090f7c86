/** The service worker of the site: what it does at install time, at
    activation, on every intercepted request, and how it bounds its cache. */
module ServiceWorker {
  import opened Http
  import opened Cache
  import opened Generations

  /** The current cache generation; bumped on every deploy. */
  const CACHE_NAME: string := "artbooms-cache-v2"
  /** The most entries the request handler leaves in the current cache. */
  const MAX_ITEMS: nat := 50
  /** The home page, the web-app manifest and the two icons. */
  const PRECACHE_URLS: seq<string> := ["/", "/manifest.json", "/icons/icon-192.png", "/icons/icon-512.png"]

  /** The Content-Type of the offline page. */
  const HTML_UTF8: string := "text/html; charset=utf-8"
  /** The offline page (its inline style sheet is not reproduced). */
  const OFFLINE_PAGE: string :=
    "<html lang=\"it\"><head><meta charset=\"UTF-8\">"
    + "<meta name=\"viewport\" content=\"width=device-width,initial-scale=1.0\">"
    + "<title>Offline</title></head><body>"
    + "<h1>Oppss al momento sei offline!</h1><p>Ci vediamo tra pochissimo!</p>"
    + "</body></html>"

  // ---------------------------------------------------------------------
  // The cache-fill rule

  /** `s.startsWith(t)`. */
  predicate StartsWith(s: string, t: string)
  {
    |t| <= |s| && s[..|t|] == t
  }

  /** `s.includes(t)`: `t` occurs in `s` at some position. */
  predicate Includes(s: string, t: string)
  {
    StartsWith(s, t) || (|s| > 0 && Includes(s[1..], t))
  }

  /** `s.endsWith(t)`. */
  predicate EndsWith(s: string, t: string)
  {
    |t| <= |s| && s[|s| - |t|..] == t
  }

  /** `endsWith` holds iff the string is something followed by `t`. */
  lemma EndsWithSplit(s: string, t: string)
    ensures EndsWith(s, t) <==> exists p :: s == p + t
  {
    if EndsWith(s, t) {
      assert s == s[..|s| - |t|] + t;
    }
    if p :| s == p + t {
      assert s[|s| - |t|..] == t;
    }
  }

  /** Whether a network response is copied into the cache: it must be OK,
      and the request must be for a blog path, a WebP image, or a page. */
  predicate ShouldCache(req: Request, resp: Response)
  {
    Ok(resp) && (Includes(req.url, "/blog/") || EndsWith(req.url, ".webp") || req.destination == "document")
  }

  /** The page served when a request misses the cache and the network fails. */
  function OfflineResponse(): (r: Response)
    ensures Ok(r) && r.contentType == "text/html; charset=utf-8"
  {
    Response(200, HTML_UTF8, OFFLINE_PAGE)
  }

  // ---------------------------------------------------------------------
  // The trimmer

  /** `limitCacheSize` on the entries: while more than `max` remain, drop
      the oldest. What remains is the newest `max` entries, in order. */
  function LimitSize(es: seq<Entry>, max: nat): (r: seq<Entry>)
    ensures |r| == if |es| > max then max else |es|
    ensures r == es[|es| - |r|..]
    decreases |es|
  {
    if |es| > max then
      var r := LimitSize(es[1..], max);
      TailSuffix(es, r);
      r
    else es
  }

  /** A suffix of the tail is the same suffix of the whole. */
  lemma TailSuffix<T>(s: seq<T>, r: seq<T>)
    requires |r| < |s| && r == s[1..][|s| - 1 - |r|..]
    ensures r == s[|s| - |r|..]
  {
  }

  /** `limitCacheSize(cache)`: list the keys; while there are more than
      `MAX_ITEMS`, delete the first key and list them again. */
  method LimitCacheSize(cache: Store)
    requires cache.Valid()
    modifies cache
    ensures cache.Valid()
    ensures cache.entries == LimitSize(old(cache.entries), MAX_ITEMS)
  {
    var keys := KeysOf(cache.entries);
    while |keys| > MAX_ITEMS
      invariant cache.Valid()
      invariant keys == KeysOf(cache.entries)
      invariant LimitSize(cache.entries, MAX_ITEMS) == LimitSize(old(cache.entries), MAX_ITEMS)
      decreases |keys|
    {
      RemovedOldest(cache.entries);
      var _ := cache.Delete(keys[0]);
      keys := KeysOf(cache.entries);
    }
  }

  /** Trimming keeps one entry per key, and the keys left are the newest
      ones of the old key list. */
  lemma LimitSizeKeys(es: seq<Entry>, max: nat)
    requires DistinctKeys(es)
    ensures DistinctKeys(LimitSize(es, max))
    ensures KeysOf(LimitSize(es, max)) == KeysOf(es)[|es| - |LimitSize(es, max)|..]
  {
    var r := LimitSize(es, max);
    var d := |es| - |r|;
    KeysOfSuffix(es, d);
    forall i, j | 0 <= i < j < |r| ensures r[i].0 != r[j].0 {
      assert r[i] == es[d + i] && r[j] == es[d + j];
    }
  }

  /** The entry just put is never the one trimmed: it is the newest. */
  lemma NewestSurvivesTrim(es: seq<Entry>, url: string, resp: Response, max: nat)
    requires max > 0
    ensures Lookup(LimitSize(Inserted(es, url, resp), max), url) == Some(resp)
  {
    var rem := Removed(es, url);
    var ins := Inserted(es, url, resp);
    var r := LimitSize(ins, max);
    var d := |ins| - |r|;
    assert ins[d..] == rem[d..] + [(url, resp)];
    KeysOfSuffix(rem, d);
    assert url !in KeysOf(rem[d..]) by {
      forall j | 0 <= j < |rem| - d ensures KeysOf(rem[d..])[j] != url {
        assert KeysOf(rem[d..])[j] == KeysOf(rem)[d + j];
      }
    }
    LookupAppend(rem[d..], [(url, resp)], url);
  }

  // ---------------------------------------------------------------------
  // The fetch handler

  /** What the handler answers: nothing (the browser handles the request
      itself), the cached response, the network response, or the offline
      page. */
  datatype Reply = PassThrough | Cached(response: Response) | Network(response: Response) | Offline(response: Response)

  /** The reply, whether the network was asked, and the caches afterwards. */
  datatype Outcome = Outcome(reply: Reply, fetched: bool, caches: seq<Generation>)

  /** One fill of the current cache: put the response, then trim. `put`
      rejects a partial response, which stores nothing and skips the trim. */
  function FillStep(es: seq<Entry>, url: string, resp: Response): seq<Entry>
  {
    if Storable(resp) then LimitSize(Inserted(es, url, resp), MAX_ITEMS) else es
  }

  /** The caches after a fill: `caches.open(CACHE_NAME)`, then put and trim. */
  function CacheFill(gs: seq<Generation>, url: string, resp: Response): seq<Generation>
  {
    var withCurrent := Opened(gs, CACHE_NAME);
    Replaced(withCurrent, CACHE_NAME, FillStep(EntriesOf(withCurrent, CACHE_NAME), url, resp))
  }

  /** The fetch handler as a function of the caches, the request and the
      network. The fill and trim, detached in the handler, are taken to run
      to completion. */
  function FetchOutcome(gs: seq<Generation>, req: Request, network: Network): (o: Outcome)
    ensures o.reply.PassThrough? <==> req.verb != "GET"
    ensures o.fetched <==> req.verb == "GET" && MatchAll(gs, req.url).None?
    ensures o.caches != gs ==> o.fetched && network(req).Success? && ShouldCache(req, network(req).response)
  {
    if req.verb != "GET" then Outcome(PassThrough, false, gs)
    else match MatchAll(gs, req.url)
      case Some(resp) => Outcome(Cached(resp), false, gs)
      case None =>
        match network(req)
        case Failure => Outcome(Offline(OfflineResponse()), true, gs)
        case Success(resp) =>
          Outcome(Network(resp), true, if ShouldCache(req, resp) then CacheFill(gs, req.url, resp) else gs)
  }

  /** The `fetch` event handler. */
  method HandleFetch(storage: CacheStorage, req: Request, network: Network) returns (reply: Reply, fetched: bool)
    requires storage.Valid()
    modifies storage.Repr
    ensures storage.Valid() && fresh(storage.Repr - old(storage.Repr))
    ensures Outcome(reply, fetched, storage.View()) == FetchOutcome(old(storage.View()), req, network)
  {
    if req.verb != "GET" {
      return PassThrough, false;
    }
    var cached := MatchAll(storage.View(), req.url);
    if cached.Some? {
      return Cached(cached.value), false;
    }
    fetched := true;
    match network(req)
    case Failure =>
      reply := Offline(OfflineResponse());
    case Success(resp) =>
      if ShouldCache(req, resp) {
        FillCache(storage, req.url, resp);
      }
      reply := Network(resp);
  }

  /** The detached continuation of a fill: open the current cache, put the
      response, then trim the cache. */
  method FillCache(storage: CacheStorage, url: string, resp: Response)
    requires storage.Valid()
    modifies storage.Repr
    ensures storage.Valid() && fresh(storage.Repr - old(storage.Repr))
    ensures storage.View() == CacheFill(old(storage.View()), url, resp)
  {
    ghost var gs := storage.View();
    var cache, k := storage.Open(CACHE_NAME);
    ghost var repr := storage.Repr;
    ghost var v, es := storage.View(), cache.entries;
    assert v == Opened(gs, CACHE_NAME);
    IndexOfDistinct(v, k);
    assert EntriesOf(v, CACHE_NAME) == es;
    assert storage as object != cache as object;
    PutAndTrim(storage, cache, k, url, resp);
    assert storage.Repr == repr && storage.Valid();
    assert fresh(storage.Repr - old(storage.Repr));
    assert storage.View() == Replaced(v, CACHE_NAME, FillStep(es, url, resp)) == CacheFill(gs, url, resp);
  }

  /** `await cache.put` then `limitCacheSize` on `cache`, the cache at
      position `k`; a rejected `put` ends the continuation before the trim. */
  method PutAndTrim(storage: CacheStorage, cache: Store, ghost k: nat, url: string, resp: Response)
    requires storage.Valid() && k < |storage.stores| && storage.stores[k] == cache
    modifies cache
    ensures storage.Valid()
    ensures storage.View() == Replaced(old(storage.View()), storage.names[k], FillStep(old(cache.entries), url, resp))
  {
    ghost var before, e0 := storage.View(), cache.entries;
    assert storage as object != cache as object;
    var stored := cache.Put(url, resp);
    if stored {
      ghost var e1 := cache.entries;
      LimitCacheSize(cache);
      assert cache.entries == LimitSize(e1, MAX_ITEMS);
    }
    assert cache.entries == FillStep(e0, url, resp);
    assert storage.names == old(storage.names) && storage.stores == old(storage.stores);
    forall i | 0 <= i < |storage.stores| && i != k
      ensures storage.stores[i].Valid() && before[i] == Generation(storage.names[i], storage.stores[i].entries)
    {
      assert storage.stores[i] != cache;
      assert old(storage.stores[i].Valid());
      assert before[i] == Generation(storage.names[i], old(storage.stores[i].entries));
    }
    assert StoresValid(storage.stores);
    assert storage.Valid();
    ViewOfReplaced(storage.names, storage.stores, k, before);
    assert storage.View() == Replaced(before, storage.names[k], FillStep(e0, url, resp));
  }

  // ---------------------------------------------------------------------
  // Install and activate

  /** The caches after the install handler: `caches.open(CACHE_NAME)`, then
      `addAll(PRECACHE_URLS)`. */
  function Installed(gs: seq<Generation>, network: Network): seq<Generation>
  {
    var withCurrent := Opened(gs, CACHE_NAME);
    Replaced(withCurrent, CACHE_NAME, AddedAll(EntriesOf(withCurrent, CACHE_NAME), PRECACHE_URLS, network))
  }

  /** The `install` event handler; `ok` is whether the install step succeeds. */
  method Install(storage: CacheStorage, network: Network) returns (ok: bool)
    requires storage.Valid()
    modifies storage.Repr
    ensures storage.Valid() && fresh(storage.Repr - old(storage.Repr))
    ensures ok == FetchAll(PRECACHE_URLS, network).Some?
    ensures storage.View() == Installed(old(storage.View()), network)
  {
    ghost var gs := storage.View();
    var cache, k := storage.Open(CACHE_NAME);
    ghost var v, es := storage.View(), cache.entries;
    assert v == Opened(gs, CACHE_NAME);
    IndexOfDistinct(v, k);
    assert EntriesOf(v, CACHE_NAME) == es;
    assert storage as object != cache as object;
    ok := Precache(storage, cache, k, network);
  }

  /** `cache.addAll(PRECACHE_URLS)` on `cache`, the cache at position `k`. */
  method Precache(storage: CacheStorage, cache: Store, ghost k: nat, network: Network) returns (ok: bool)
    requires storage.Valid() && k < |storage.stores| && storage.stores[k] == cache
    modifies cache
    ensures storage.Valid()
    ensures ok == FetchAll(PRECACHE_URLS, network).Some?
    ensures storage.View() == Replaced(old(storage.View()), storage.names[k], AddedAll(old(cache.entries), PRECACHE_URLS, network))
  {
    ghost var before := storage.View();
    ok := cache.AddAll(PRECACHE_URLS, network);
    forall i | 0 <= i < |storage.stores| && i != k
      ensures storage.stores[i].Valid() && before[i] == Generation(storage.names[i], storage.stores[i].entries)
    {
      assert storage.stores[i] != cache;
      assert old(storage.stores[i].Valid());
      assert before[i] == Generation(storage.names[i], old(storage.stores[i].entries));
    }
    assert StoresValid(storage.stores);
    assert storage.Valid();
    ViewOfReplaced(storage.names, storage.stores, k, before);
  }

  /** The names among `names` that the activate handler deletes. */
  function Stale(names: seq<string>): set<string>
  {
    set n | n in names && n != CACHE_NAME
  }

  /** One step of the activate loop: delete the `i`-th listed name unless
      it is `CACHE_NAME`. */
  method ReapStep(storage: CacheStorage, ghost gs: seq<Generation>, keys: seq<string>, i: nat)
    requires i < |keys| && storage.Valid() && storage.View() == Retained(gs, Stale(keys[..i]))
    modifies storage
    ensures storage.Valid() && storage.Repr == old(storage.Repr)
    ensures storage.View() == Retained(gs, Stale(keys[..i + 1]))
  {
    ghost var done := Stale(keys[..i]);
    StaleNext(keys, i);
    if keys[i] != CACHE_NAME {
      RetainedTwice(gs, done, {keys[i]});
      var _ := storage.Delete(keys[i]);
      assert Stale(keys[..i + 1]) == done + {keys[i]};
    } else {
      assert Stale(keys[..i + 1]) == done;
    }
  }

  lemma StaleNext(names: seq<string>, i: nat)
    requires i < |names|
    ensures Stale(names[..i + 1]) == Stale(names[..i]) + (if names[i] != CACHE_NAME then {names[i]} else {})
  {
    assert names[..i + 1] == names[..i] + [names[i]];
  }

  /** The caches after the activate handler: every cache but the current
      generation deleted. */
  function Reaped(gs: seq<Generation>): seq<Generation>
  {
    Retained(gs, Stale(Names(gs)))
  }

  /** The `activate` event handler: list the cache names and delete each
      one that is not `CACHE_NAME`. */
  method Activate(storage: CacheStorage)
    requires storage.Valid()
    modifies storage
    ensures storage.Valid() && storage.Repr == old(storage.Repr)
    ensures storage.View() == Reaped(old(storage.View()))
  {
    ghost var gs := storage.View();
    var keys := storage.names;
    assert keys == Names(gs);
    RetainedNone(gs, {});
    assert Stale(keys[..0]) == {};
    var i := 0;
    while i < |keys|
      invariant 0 <= i <= |keys|
      invariant storage.Valid() && storage.Repr == old(storage.Repr)
      invariant storage.View() == Retained(gs, Stale(keys[..i]))
    {
      ReapStep(storage, gs, keys, i);
      i := i + 1;
    }
    assert keys[..i] == keys;
    assert storage.View() == Retained(gs, Stale(Names(gs))) == Reaped(gs);
  }
}
