/** What the worker guarantees, stated over the value semantics of its
    handlers: the fetch handler's four outcomes, the bounded FIFO cache,
    the all-or-nothing install and the activate reaper. */
module Properties {
  import opened Http
  import opened Cache
  import opened Generations
  import opened ServiceWorker

  // ---------------------------------------------------------------------
  // The fetch handler

  /** A request that is not a GET is left to the browser: no cache is read,
      the network is not asked and nothing is stored. */
  lemma NonGetPassesThrough(gs: seq<Generation>, req: Request, network: Network)
    requires req.verb != "GET"
    ensures FetchOutcome(gs, req, network) == Outcome(PassThrough, false, gs)
  {
  }

  /** A GET that some cache holds is answered with the stored response
      (that of the oldest cache holding it, by `MatchAllFirst`), whatever
      the network would do; no cache changes. */
  lemma HitServedFromCache(gs: seq<Generation>, req: Request, network: Network)
    requires req.verb == "GET" && MatchAll(gs, req.url).Some?
    ensures FetchOutcome(gs, req, network) == Outcome(Cached(MatchAll(gs, req.url).value), false, gs)
  {
  }

  /** On a miss, a failed network answers with the offline page: an OK HTML
      response, and no cache changes. */
  lemma OfflineFallback(gs: seq<Generation>, req: Request, network: Network)
    requires req.verb == "GET" && MatchAll(gs, req.url).None? && network(req).Failure?
    ensures FetchOutcome(gs, req, network) == Outcome(Offline(OfflineResponse()), true, gs)
    ensures OfflineResponse().contentType == "text/html; charset=utf-8" && Ok(OfflineResponse())
  {
  }

  /** On a miss, whatever the network answers is passed on unchanged; a
      response that does not qualify for the cache leaves every cache as it
      was. */
  lemma NetworkPassedOn(gs: seq<Generation>, req: Request, network: Network, resp: Response)
    requires req.verb == "GET" && MatchAll(gs, req.url).None? && network(req) == Success(resp)
    ensures FetchOutcome(gs, req, network).reply == Network(resp)
    ensures FetchOutcome(gs, req, network).fetched
    ensures !ShouldCache(req, resp) ==> FetchOutcome(gs, req, network).caches == gs
  {
  }

  /** A fill of a storable response stores it under its URL in the current
      cache and trims that cache to `MAX_ITEMS` entries; a partial response
      is rejected by `put`, so the fill only opens the current cache. Every
      other cache is left as it was. */
  lemma CacheFillEntries(gs: seq<Generation>, url: string, resp: Response)
    requires DistinctNames(gs)
    ensures DistinctNames(CacheFill(gs, url, resp)) && CACHE_NAME in Names(CacheFill(gs, url, resp))
    ensures EntriesOf(CacheFill(gs, url, resp), CACHE_NAME) == FillStep(EntriesOf(gs, CACHE_NAME), url, resp)
    ensures Storable(resp) ==> Lookup(EntriesOf(CacheFill(gs, url, resp), CACHE_NAME), url) == Some(resp)
    ensures Storable(resp) ==> |EntriesOf(CacheFill(gs, url, resp), CACHE_NAME)| <= MAX_ITEMS
    ensures !Storable(resp) ==> CacheFill(gs, url, resp) == Opened(gs, CACHE_NAME)
    ensures forall n :: n != CACHE_NAME ==> EntriesOf(CacheFill(gs, url, resp), n) == EntriesOf(gs, n)
  {
    var w := Opened(gs, CACHE_NAME);
    ReplacedEntries(w, CACHE_NAME, FillStep(EntriesOf(w, CACHE_NAME), url, resp));
    assert Names(CacheFill(gs, url, resp)) == Names(w);
    if Storable(resp) {
      NewestSurvivesTrim(EntriesOf(gs, CACHE_NAME), url, resp, MAX_ITEMS);
    } else {
      ReplacedUnchanged(w, CACHE_NAME);
    }
  }

  /** After a GET that missed and got an OK response, the current cache maps
      the URL to that response exactly when the URL contains `/blog/`, ends
      in `.webp`, or the request is for a page, and the response is not
      partial. */
  lemma StoredIffQualifies(gs: seq<Generation>, req: Request, network: Network, resp: Response)
    requires DistinctNames(gs)
    requires req.verb == "GET" && MatchAll(gs, req.url).None? && network(req) == Success(resp) && Ok(resp)
    ensures Lookup(EntriesOf(FetchOutcome(gs, req, network).caches, CACHE_NAME), req.url) == Some(resp)
      <==> (Includes(req.url, "/blog/") || EndsWith(req.url, ".webp") || req.destination == "document") && Storable(resp)
  {
    if ShouldCache(req, resp) {
      CacheFillEntries(gs, req.url, resp);
      if !Storable(resp) {
        MissInEveryCache(gs, CACHE_NAME, req.url);
      }
    } else {
      MissInEveryCache(gs, CACHE_NAME, req.url);
    }
  }

  /** After a fill that `put` accepts, the same GET is a hit: it is answered
      from the cache with the stored response, whatever the network then
      does. */
  lemma FillThenHit(gs: seq<Generation>, req: Request, network: Network, resp: Response, later: Network)
    requires DistinctNames(gs)
    requires req.verb == "GET" && MatchAll(gs, req.url).None? && network(req) == Success(resp)
    requires ShouldCache(req, resp) && Storable(resp)
    ensures var after := FetchOutcome(gs, req, network).caches;
      FetchOutcome(after, req, later) == Outcome(Cached(resp), false, after)
  {
    var after := CacheFill(gs, req.url, resp);
    var url := req.url;
    CacheFillEntries(gs, url, resp);
    var k := IndexOf(after, CACHE_NAME).value;
    assert Lookup(after[k].entries, url) == Some(resp);
    MatchAllFirst(after, url);
    var i :| 0 <= i < |after| && Lookup(after[i].entries, url) == MatchAll(after, url) &&
             (forall j :: 0 <= j < i ==> Lookup(after[j].entries, url).None?);
    IndexOfDistinct(after, i);
    if after[i].name != CACHE_NAME {
      assert EntriesOf(after, after[i].name) == EntriesOf(gs, after[i].name);
      MissInEveryCache(gs, after[i].name, url);
      assert false;
    }
  }

  /** A partial response is never stored: `put` rejects it, the current
      cache is at most opened, and the next GET for the URL misses again. */
  lemma PartialNotStored(gs: seq<Generation>, req: Request, network: Network, resp: Response)
    requires DistinctNames(gs)
    requires req.verb == "GET" && MatchAll(gs, req.url).None? && network(req) == Success(resp)
    requires !Storable(resp)
    ensures FetchOutcome(gs, req, network).caches == if ShouldCache(req, resp) then Opened(gs, CACHE_NAME) else gs
    ensures MatchAll(FetchOutcome(gs, req, network).caches, req.url).None?
  {
    CacheFillEntries(gs, req.url, resp);
    var w := Opened(gs, CACHE_NAME);
    forall i | 0 <= i < |w| ensures Lookup(w[i].entries, req.url).None? {
      if i < |gs| {
        assert w[i] == gs[i];
      }
    }
  }

  // ---------------------------------------------------------------------
  // The trimmer

  /** Trimming never leaves more than `max` entries, leaves exactly `max`
      when there were more, keeps the newest entries in order, and changes
      nothing when the cache is within bound. */
  lemma TrimBounds(es: seq<Entry>, max: nat)
    ensures |LimitSize(es, max)| <= max
    ensures |es| > max ==> |LimitSize(es, max)| == max
    ensures |es| <= max ==> LimitSize(es, max) == es
    ensures exists d :: 0 <= d <= |es| && LimitSize(es, max) == es[d..]
  {
    var r := LimitSize(es, max);
    assert r == es[|es| - |r|..];
  }

  /** The current cache after filling it with `urls[i]` -> `rs[i]`, one
      fill after another. */
  function Filled(es: seq<Entry>, urls: seq<string>, rs: seq<Response>): seq<Entry>
    requires |urls| == |rs|
  {
    if urls == [] then es
    else
      var n := |urls| - 1;
      FillStep(Filled(es, urls[..n], rs[..n]), urls[n], rs[n])
  }

  function Min(a: nat, b: nat): nat
  {
    if a < b then a else b
  }

  /** Filling an empty cache with distinct URLs and storable responses keeps
      the newest `MAX_ITEMS` of them, oldest first: the cache is a FIFO of
      bounded size. */
  lemma {:induction false} FilledKeys(urls: seq<string>, rs: seq<Response>)
    requires |urls| == |rs| && Distinct(urls)
    requires forall i :: 0 <= i < |rs| ==> Storable(rs[i])
    ensures DistinctKeys(Filled([], urls, rs))
    ensures KeysOf(Filled([], urls, rs)) == urls[|urls| - Min(|urls|, MAX_ITEMS)..]
  {
    if urls != [] {
      var n := |urls| - 1;
      var prev := Filled([], urls[..n], rs[..n]);
      LastNotInPrefix(urls);
      FilledKeys(urls[..n], rs[..n]);
      var m := Min(n, MAX_ITEMS);
      SliceOfPrefix(urls, n - m, n);
      assert KeysOf(prev) == urls[n - m..n] && |prev| == m;
      var f := Filled([], urls, rs);
      assert f == FillStep(prev, urls[n], rs[n]);
      FreshFillKeys(prev, urls[n], rs[n]);
      assert KeysOf(f) == (urls[n - m..n] + [urls[n]])[m + 1 - Min(m + 1, MAX_ITEMS)..];
      WindowAtEnd(urls);
      assert KeysOf(f) == urls[|urls| - Min(|urls|, MAX_ITEMS)..];
      assert DistinctKeys(f);
    }
  }

  /** The window of the newest `MAX_ITEMS` elements of `s[..n]`, extended by
      `s[n]` and cut back to `MAX_ITEMS`, is the window of `s[..n + 1]`. */
  lemma WindowStep<T>(s: seq<T>, n: nat)
    requires n < |s|
    ensures var m := Min(n, MAX_ITEMS);
      (s[n - m..n] + [s[n]])[m + 1 - Min(m + 1, MAX_ITEMS)..] == s[n + 1 - Min(n + 1, MAX_ITEMS)..n + 1]
  {
    var m := Min(n, MAX_ITEMS);
    var d := m + 1 - Min(m + 1, MAX_ITEMS);
    SliceExtend(s, n - m, n);
    SliceSuffix(s, n - m, n + 1, d);
  }

  /** `WindowStep` at the last position: the window reaches the end. */
  lemma WindowAtEnd<T>(s: seq<T>)
    requires |s| > 0
    ensures var n := |s| - 1; var m := Min(n, MAX_ITEMS);
      (s[n - m..n] + [s[n]])[m + 1 - Min(m + 1, MAX_ITEMS)..] == s[|s| - Min(|s|, MAX_ITEMS)..]
  {
    WindowStep(s, |s| - 1);
    SliceToEnd(s, |s| - Min(|s|, MAX_ITEMS));
  }

  /** Filling a cache with a storable response for a URL it does not hold
      appends the URL to its keys and evicts the oldest when the cache
      overflows. */
  lemma FreshFillKeys(es: seq<Entry>, url: string, resp: Response)
    requires DistinctKeys(es) && url !in KeysOf(es) && Storable(resp)
    ensures DistinctKeys(FillStep(es, url, resp))
    ensures |FillStep(es, url, resp)| == Min(|es| + 1, MAX_ITEMS)
    ensures KeysOf(FillStep(es, url, resp)) == (KeysOf(es) + [url])[|es| + 1 - Min(|es| + 1, MAX_ITEMS)..]
  {
    InsertedKeys(es, url, resp);
    var ins := es + [(url, resp)];
    KeysOfAppend(es, [(url, resp)]);
    assert KeysOf([(url, resp)]) == [url];
    InsertedDistinct(es, url, resp);
    LimitSizeKeys(ins, MAX_ITEMS);
  }

  /** A slice running to the end is a suffix. */
  lemma SliceToEnd<T>(s: seq<T>, a: nat)
    requires a <= |s|
    ensures s[a..|s|] == s[a..]
  {
  }

  /** A suffix of a slice is a slice. */
  lemma SliceSuffix<T>(s: seq<T>, a: nat, b: nat, d: nat)
    requires a + d <= b <= |s|
    ensures s[a..b][d..] == s[a + d..b]
  {
  }

  /** A slice of a prefix is a slice of the whole. */
  lemma SliceOfPrefix<T>(s: seq<T>, a: nat, n: nat)
    requires a <= n <= |s|
    ensures s[..n][a..] == s[a..n]
  {
  }

  /** Extending a slice by the next element. */
  lemma SliceExtend<T>(s: seq<T>, a: nat, n: nat)
    requires a <= n < |s|
    ensures s[a..n] + [s[n]] == s[a..n + 1]
  {
  }

  /** Fifty-one fills with distinct URLs and storable responses into an
      empty cache leave the last fifty: the first URL is the one evicted. */
  lemma FiftyOneFills(urls: seq<string>, rs: seq<Response>)
    requires |urls| == |rs| == 51 && Distinct(urls)
    requires forall i :: 0 <= i < |rs| ==> Storable(rs[i])
    ensures KeysOf(Filled([], urls, rs)) == urls[1..]
  {
    FilledKeys(urls, rs);
  }

  // ---------------------------------------------------------------------
  // Install

  /** The precached URLs are four different URLs. */
  lemma PrecacheUrlsDistinct()
    ensures Distinct(PRECACHE_URLS)
  {
    assert PRECACHE_URLS[2][12] != PRECACHE_URLS[3][12];
  }

  /** Install is all or nothing: when every precached URL fetches OK, each is
      stored in the current cache with its response; when any fails, the
      current cache is only opened (created empty if it was missing). Either
      way the current cache's other URLs keep their responses, and no other
      cache changes. */
  lemma InstallAllOrNothing(gs: seq<Generation>, network: Network)
    requires DistinctNames(gs)
    ensures FetchAll(PRECACHE_URLS, network).None? ==> Installed(gs, network) == Opened(gs, CACHE_NAME)
    ensures FetchAll(PRECACHE_URLS, network).Some? ==>
      forall i :: 0 <= i < |PRECACHE_URLS| ==>
        Lookup(EntriesOf(Installed(gs, network), CACHE_NAME), PRECACHE_URLS[i]) == Some(FetchAll(PRECACHE_URLS, network).value[i])
    ensures forall k :: k !in PRECACHE_URLS ==>
      Lookup(EntriesOf(Installed(gs, network), CACHE_NAME), k) == Lookup(EntriesOf(gs, CACHE_NAME), k)
    ensures forall n :: n != CACHE_NAME ==> EntriesOf(Installed(gs, network), n) == EntriesOf(gs, n)
  {
    var w := Opened(gs, CACHE_NAME);
    var es := EntriesOf(w, CACHE_NAME);
    ReplacedEntries(w, CACHE_NAME, AddedAll(es, PRECACHE_URLS, network));
    PrecacheUrlsDistinct();
    AddedAllSemantics(es, PRECACHE_URLS, network);
    if FetchAll(PRECACHE_URLS, network).None? {
      ReplacedUnchanged(w, CACHE_NAME);
    }
  }

  /** Giving a cache the entries it already has changes nothing. */
  lemma ReplacedUnchanged(gs: seq<Generation>, name: string)
    requires DistinctNames(gs) && name in Names(gs)
    ensures Replaced(gs, name, EntriesOf(gs, name)) == gs
  {
    var r := Replaced(gs, name, EntriesOf(gs, name));
    forall i | 0 <= i < |gs| ensures r[i] == gs[i] {
      if gs[i].name == name {
        IndexOfDistinct(gs, i);
      }
    }
  }

  /** A first install that succeeds leaves the current cache holding exactly
      the precached URLs, in order. */
  lemma FirstInstallKeys(gs: seq<Generation>, network: Network)
    requires DistinctNames(gs) && CACHE_NAME !in Names(gs)
    requires FetchAll(PRECACHE_URLS, network).Some?
    ensures KeysOf(EntriesOf(Installed(gs, network), CACHE_NAME)) == PRECACHE_URLS
  {
    var w := Opened(gs, CACHE_NAME);
    assert EntriesOf(w, CACHE_NAME) == [];
    PrecacheUrlsDistinct();
    AddedAllKeys([], PRECACHE_URLS, network);
    ReplacedEntries(w, CACHE_NAME, AddedAll([], PRECACHE_URLS, network));
  }

  // ---------------------------------------------------------------------
  // Activate

  /** Deleting every name but `CACHE_NAME` leaves the current cache alone, if
      there is one, with its entries untouched. */
  lemma {:induction false} RetainedOnlyCurrent(gs: seq<Generation>, dropped: set<string>)
    requires DistinctNames(gs) && CACHE_NAME !in dropped
    requires forall i :: 0 <= i < |gs| && gs[i].name != CACHE_NAME ==> gs[i].name in dropped
    ensures Retained(gs, dropped) == match IndexOf(gs, CACHE_NAME) case None => [] case Some(k) => [gs[k]]
  {
    if gs != [] {
      var t := gs[1..];
      assert DistinctNames(t) by {
        forall i, j | 0 <= i < j < |t| ensures t[i].name != t[j].name {
          assert t[i] == gs[i + 1] && t[j] == gs[j + 1];
        }
      }
      RetainedOnlyCurrent(t, dropped);
      if gs[0].name == CACHE_NAME {
        forall k | 0 <= k < |t| ensures Names(t)[k] != CACHE_NAME {
          assert t[k] == gs[k + 1];
        }
        assert IndexOf(t, CACHE_NAME).None?;
      }
    }
  }

  /** After activation at most one cache remains: the current one, kept
      exactly when it existed, with the entries it had before. */
  lemma ReapedKeepsCurrent(gs: seq<Generation>)
    requires DistinctNames(gs)
    ensures |Reaped(gs)| <= 1
    ensures |Reaped(gs)| == 1 <==> CACHE_NAME in Names(gs)
    ensures forall i :: 0 <= i < |Reaped(gs)| ==> Reaped(gs)[i].name == CACHE_NAME
    ensures EntriesOf(Reaped(gs), CACHE_NAME) == EntriesOf(gs, CACHE_NAME)
  {
    var dropped := Stale(Names(gs));
    forall i | 0 <= i < |gs| && gs[i].name != CACHE_NAME ensures gs[i].name in dropped {
      assert Names(gs)[i] == gs[i].name;
    }
    RetainedOnlyCurrent(gs, dropped);
  }

  // ---------------------------------------------------------------------
  // The fill rule on example URLs

  /** `t` occurs in `s` starting at position `i`. */
  predicate OccursAt(s: string, t: string, i: nat)
  {
    i + |t| <= |s| && s[i..i + |t|] == t
  }

  /** `includes` as JavaScript defines it: `t` occurs at some position. */
  lemma {:induction false} IncludesAt(s: string, t: string)
    ensures Includes(s, t) <==> exists i: nat :: OccursAt(s, t, i)
  {
    if Includes(s, t) {
      if StartsWith(s, t) {
        assert OccursAt(s, t, 0);
      } else {
        IncludesAt(s[1..], t);
        var i: nat :| OccursAt(s[1..], t, i);
        assert s[1..][i..i + |t|] == s[i + 1..i + 1 + |t|];
        assert OccursAt(s, t, i + 1);
      }
    } else {
      forall i: nat | OccursAt(s, t, i) ensures false {
        NotIncludedAt(s, t, i);
      }
    }
  }

  lemma {:induction false} NotIncludedAt(s: string, t: string, i: nat)
    requires !Includes(s, t)
    ensures !OccursAt(s, t, i)
  {
    if i > 0 && |s| > 0 {
      NotIncludedAt(s[1..], t, i - 1);
      if i + |t| <= |s| {
        assert s[1..][i - 1..i - 1 + |t|] == s[i..i + |t|];
      }
    }
  }

  /** A JSON data request that is not for a page is not cached, whatever
      its destination and response. */
  lemma ApiDataNotCached(verb: string, dest: string, resp: Response)
    requires dest != "document"
    ensures !ShouldCache(Request(verb, "/api/data.json", dest), resp)
  {
    assert "/blog/"[1] == 'b';
    LackingCharNotIncluded("/api/data.json", "/blog/", 1);
  }

  /** A string lacking one of the characters of `t` does not include `t`. */
  lemma LackingCharNotIncluded(s: string, t: string, j: nat)
    requires j < |t| && t[j] !in s
    ensures !Includes(s, t)
  {
    IncludesAt(s, t);
    forall i: nat | i + |t| <= |s| ensures !OccursAt(s, t, i) {
      assert s[i..i + |t|][j] == s[i + j];
    }
  }

  /** An OK response to a blog post request is cached, whatever its
      destination. */
  lemma BlogPostCached(verb: string, dest: string, resp: Response)
    requires Ok(resp)
    ensures ShouldCache(Request(verb, "/blog/post-1", dest), resp)
  {
    assert "/blog/post-1"[..6] == "/blog/";
  }

  /** An OK response to a WebP image request is cached, whatever its
      destination. */
  lemma WebpCached(verb: string, dest: string, resp: Response)
    requires Ok(resp)
    ensures ShouldCache(Request(verb, "/img/photo.webp", dest), resp)
  {
  }
}
