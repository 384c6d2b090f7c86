# ARTBOOMS service worker, modelled in Dafny

The site's service worker (`sw.js`) sits between the pages and the network.
It does four things:

- **Install** opens the cache generation `artbooms-cache-v2` and precaches
  the home page, the manifest and the two icons, all or nothing.
- **Activate** deletes every cache whose name is not the current generation.
- **Fetch**:
  - lets non-GET requests through;
  - answers a GET from any cache that holds it;
  - otherwise fetches it from the network;
  - copies an OK response into the current cache when the URL contains
    `/blog/`, ends in `.webp`, or the request is for a page;
  - then trims that cache to its 50 newest entries (`put` rejects a 206
    partial response, and then nothing is stored or trimmed);
  - answers a failed fetch with a built-in offline page.
- **limitCacheSize** deletes the first listed key while there are more than
  50.

The model has five modules:

- `Http` (`http.dfy`): requests, responses, and the network as a function
  from request to outcome.
- `Cache` (`cache.dfy`): one Cache API cache. It has value functions over the
  ordered list of entries, and `class Store`, the mutable cache object with
  `Put`, `Delete` and `AddAll`.
- `Generations` (`generations.dfy`): the `caches` object. It has value
  functions over the list of named caches, and `class CacheStorage` with
  `Open`, `Delete` and `View`.
- `ServiceWorker` (`service_worker.dfy`): the constants and the fill rule. It
  also has the trimmer as a `while` loop, `LimitCacheSize`, proved against
  `LimitSize`, and the three event handlers as methods on a `CacheStorage`.
  Each handler method is proved equal to a function on values:
  `FetchOutcome`, `Installed` or `Reaped`.
- `Properties` (`properties.dfy`): what the handlers guarantee, stated over
  those functions.

The network is a parameter: `network(req)` is what `fetch(req)` settles to.
The fetch handler returns `fetched`, which says whether the network was
asked, so that "a hit asks no network" can be stated.

In four places the Cache API decides a detail that the handlers leave
open. The model follows the code and the API:

- `caches.match(request)` searches every cache in creation order, not only
  the current generation.
- Install opens the current generation with `caches.open`. That reuses the
  cache if it already exists and creates it even when `addAll` then fails, so
  a failed install can leave an empty current cache.
- `cache.put` on a URL that is already stored removes the old entry and
  appends the new one, so the URL becomes the newest key. This is the Cache
  API's batch-operation order.
- `cache.put` and `cache.addAll` reject a partial response (status 206),
  although `Response.ok` counts it as OK. A fill of a 206 therefore stores
  nothing, and the trim after the rejected `await` does not run. An install
  whose fetch answers 206 fails like one whose fetch is not OK.

## Model

| member | source | states |
|---|---|---|
| Cache.KeysOf | sw.js:63 | `cache.keys()` lists one key per entry, in entry order |
| Cache.Lookup | sw.js:35 | a lookup finds a response iff the URL is a key, and the response found is stored under it |
| Cache.Removed | sw.js:65 | after `cache.delete(url)` the URL is no key, nothing is added, and deleting an absent URL changes nothing |
| Cache.FetchAll | sw.js:14 | `addAll`'s fetch phase succeeds iff every URL fetches to an OK response that is not partial (206), and then yields exactly those responses in URL order |
| Cache.Inserted | sw.js:50 | `cache.put` as a value; its contract is in `InsertedLookup`, `InsertedKeys` and `InsertedDistinct` below: the URL maps to the new response and is the newest key, other URLs keep theirs, one entry per URL |
| Cache.InsertedLookup | sw.js:50 | after `put`, the URL maps to the new response and every other URL maps to what it did before |
| Cache.InsertedKeys | sw.js:50 | after `put` the URL is the newest key (an overwritten key moves to the end); a new URL is simply appended |
| Cache.InsertedDistinct | sw.js:50 | `put` keeps one entry per URL |
| Cache.RemovedLookup | sw.js:65 | `delete` leaves every other URL's lookup unchanged |
| Cache.RemovedKeys | sw.js:65 | a key is still listed after `delete` iff it was listed before and is not the deleted URL |
| Cache.RemovedAppend | sw.js:65 | deleting from two lists put together deletes from each, so the order of what remains is kept |
| Cache.RemovedSplit | sw.js:65 | deleting a key held only by one middle entry drops exactly that entry |
| Cache.RemovedAtPos | sw.js:65 | with one entry per key, deleting the key at position `i` drops exactly that entry and keeps the others in their order, which is the eviction order of `put` and the trim |
| Cache.RemovedDistinct | sw.js:65 | `delete` keeps one entry per URL |
| Cache.RemovedOldest | sw.js:65 | with one entry per key, deleting the first listed key drops exactly the oldest entry |
| Cache.InsertedAllKeys | sw.js:14 | storing distinct new URLs appends them, in order, after the old keys |
| Cache.InsertedAllLookup | sw.js:14 | after storing distinct URLs, each maps to its own response |
| Cache.InsertedAllOther | sw.js:14 | storing a list of URLs leaves every URL outside the list mapped as before |
| Cache.AddedAllSemantics | sw.js:14 | `addAll` is all or nothing: on success every URL is stored with its fetched response, also when it was stored before; on any failure the cache is as before; URLs outside the list keep their responses either way |
| Cache.AddedAllKeys | sw.js:14 | a successful `addAll` of URLs not yet stored appends them, in order, after the old keys |
| Cache.FetchAllPrefixFails | sw.js:14 | if some prefix of the URLs fails to fetch, the whole `addAll` fails |
| Cache.InsertedAll | sw.js:14 | the store phase of `addAll`; `InsertedAllKeys`, `InsertedAllLookup` and `InsertedAllOther` prove that fresh distinct URLs are appended in order, each maps to its own response, and every other URL keeps its response |
| Cache.AddedAll | sw.js:14 | the entries after `cache.addAll`; `AddedAllSemantics` and `AddedAllKeys` prove it all or nothing, with each URL mapped to its fetched response, a frame on every other URL, and fresh URLs appended in order |
| Cache.Store.Put | sw.js:50 | `cache.put` resolves iff the response is not partial; then the entries become the inserted list, otherwise they are unchanged; one entry per URL is kept |
| Cache.Store.Delete | sw.js:65 | `cache.delete` reports whether the URL was stored and leaves the entries without it |
| Cache.Store.AddAll | sw.js:14 | `cache.addAll` succeeds iff every fetch is OK and not partial, and the entries become the all-or-nothing result |
| Cache.FetchEach | sw.js:14 | the fetch loop of `addAll`, stopping at the first failure, non-OK or partial response, yields exactly `FetchAll` |
| Generations.Names | sw.js:22 | `caches.keys()` lists one name per cache, in creation order |
| Generations.IndexOf | sw.js:49 | a cache is found iff its name is listed, and the one found carries that name |
| Generations.Opened | sw.js:14 | `caches.open(name)` makes the name present, changes no cache's entries, and keeps names distinct |
| Generations.MatchAll | sw.js:35-36 | `caches.match` misses iff no cache holds the URL |
| Generations.MatchAllFirst | sw.js:35-36 | a hit is the response of the oldest cache holding the URL |
| Generations.MissInEveryCache | sw.js:35-36 | after a miss, the current cache in particular holds no entry for the URL |
| Generations.ReplacedEntries | sw.js:49-51 | changing one cache's entries changes what that name reads and nothing else |
| Generations.Retained | sw.js:23 | the caches left after deleting a set of names; its contract is in the four `Retained…` lemmas below: exactly the named caches go, the rest keep their order, deleting absent names changes nothing, two rounds delete the union |
| Generations.RetainedNone | sw.js:23 | deleting names no cache carries changes nothing |
| Generations.RetainedAbsent | sw.js:23 | `caches.delete` of an absent name changes nothing |
| Generations.RetainedAt | sw.js:23 | with one cache per name, deleting a name removes exactly its cache and keeps the order of the rest |
| Generations.RetainedTwice | sw.js:22-24 | deleting one set of names and then another deletes their union |
| Generations.ViewOfReplaced | sw.js:49-51 | when only one cache object changed, the caches read as before with that cache's entries replaced |
| Generations.CacheStorage.View | sw.js:22 | the caches as values: one per name, distinct names, each with its object's entries |
| Generations.CacheStorage.Open | sw.js:14 | `caches.open` resolves to the cache under that name, creating it empty after the others when absent; the caches become `Opened` |
| Generations.CacheStorage.Create | sw.js:14 | creating a cache appends an empty cache under a fresh name |
| Generations.CacheStorage.Delete | sw.js:23 | `caches.delete` reports whether the name existed and drops exactly that cache |
| Generations.CacheStorage.RemoveAt | sw.js:23 | removing the cache at one position keeps the others in order |
| ServiceWorker.Includes | sw.js:43 | `String.prototype.includes`; `Properties.IncludesAt` proves it holds iff the substring occurs at some position |
| ServiceWorker.EndsWith | sw.js:44 | `String.prototype.endsWith`; `EndsWithSplit` proves it holds iff the string is some prefix followed by the suffix |
| ServiceWorker.EndsWithSplit | sw.js:44 | `endsWith(t)` holds iff the string is something followed by `t` |
| ServiceWorker.ShouldCache | sw.js:40-46 | the fill rule; `Properties.StoredIffQualifies` proves an OK response to a missed GET ends up in the current cache iff the URL includes `/blog/`, ends with `.webp`, or the destination is `document`, and the response is not partial |
| ServiceWorker.OfflineResponse | sw.js:71-111 | the offline page is an OK response with content type `text/html; charset=utf-8` |
| ServiceWorker.LimitSize | sw.js:62-68 | the trim leaves `min(n, max)` entries, and they are the newest ones, in order |
| ServiceWorker.LimitCacheSize | sw.js:62-68 | the delete-the-first-key loop leaves the cache equal to `LimitSize` of its old entries |
| ServiceWorker.LimitSizeKeys | sw.js:62-68 | after the trim, keys are still distinct and are the newest of the old keys |
| ServiceWorker.NewestSurvivesTrim | sw.js:50-51 | the entry just put is never the one trimmed |
| ServiceWorker.FillStep | sw.js:50-51 | `put` then trim on one cache's entries; `NewestSurvivesTrim`, `Properties.CacheFillEntries` and `Properties.FreshFillKeys` prove that for a storable response the URL then maps to it, at most `MAX_ITEMS` entries remain and overflow evicts from the front, and that a partial response changes nothing |
| ServiceWorker.CacheFill | sw.js:48-52 | the caches after a fill; `Properties.CacheFillEntries` proves the current cache exists, maps the URL to a storable response and then holds at most `MAX_ITEMS` entries, is only opened for a partial one, and no other cache changes |
| ServiceWorker.FetchOutcome | sw.js:30-59 | the fetch handler as a value: it passes through iff the verb is not GET, asks the network iff a GET misses every cache, and changes the caches only after an OK network response that qualifies for caching |
| ServiceWorker.StaleNext | sw.js:23 | one more listed name adds it to the deleted set unless it is `CACHE_NAME` |
| ServiceWorker.HandleFetch | sw.js:30-59 | the fetch handler's reply, whether it asked the network, and the caches afterwards are those of `FetchOutcome` |
| ServiceWorker.FillCache | sw.js:48-52 | the detached fill leaves the caches as `CacheFill`: the current cache opened, the response put, the cache trimmed |
| ServiceWorker.PutAndTrim | sw.js:50-51 | `put` then `limitCacheSize`, the trim skipped when `put` rejects, replaces the one cache's entries by the fill step and leaves every other cache alone |
| ServiceWorker.Installed | sw.js:12-15 | the caches after install; `Properties.InstallAllOrNothing` proves that on success every precached URL maps to its fetched response, on failure the caches are only opened, and nothing else changes |
| ServiceWorker.Install | sw.js:12-17 | install succeeds iff every precached URL fetches OK, and the caches become `Installed` |
| ServiceWorker.Precache | sw.js:14 | `addAll(PRECACHE_URLS)` on the current cache changes only that cache, all or nothing |
| ServiceWorker.ReapStep | sw.js:23 | one step of the activate loop deletes the listed name unless it is `CACHE_NAME` |
| ServiceWorker.Reaped | sw.js:20-24 | the caches after activation; `Properties.ReapedKeepsCurrent` proves at most the current cache remains, kept iff it existed, with its entries untouched |
| ServiceWorker.Activate | sw.js:20-27 | activation leaves the caches as `Reaped`: every cache not named `CACHE_NAME` deleted |
| Properties.NonGetPassesThrough | sw.js:32 | a non-GET is left to the browser: no cache lookup, no network, no store change |
| Properties.HitServedFromCache | sw.js:35-36 | a GET that some cache holds is answered with the stored response, no network call, caches unchanged |
| Properties.OfflineFallback | sw.js:56 | a miss with a failed fetch is answered with the offline page, an OK `text/html; charset=utf-8` response, caches unchanged |
| Properties.NetworkPassedOn | sw.js:38-54 | a miss with a network response returns that response unchanged; a non-qualifying one leaves the caches unchanged |
| Properties.CacheFillEntries | sw.js:48-52 | a fill of a storable response stores it under its URL in the current cache and leaves at most `MAX_ITEMS` entries there; a partial response leaves the caches only opened; no other cache changes |
| Properties.StoredIffQualifies | sw.js:40-53 | after an OK response to a missed GET, the current cache maps the URL to it iff the URL includes `/blog/`, ends with `.webp`, or the destination is `document`, and the response is not partial |
| Properties.FillThenHit | sw.js:35-52 | after a fill that `put` accepts, the same GET is served from the cache, whatever the network then does |
| Properties.PartialNotStored | sw.js:48-52 | a partial response to a missed GET is never stored: the caches are at most opened, and the next GET for the URL misses again |
| Properties.TrimBounds | sw.js:62-68 | the trim leaves at most `max` entries, exactly `max` when there were more, a suffix of the old ones, and nothing changed when within bound |
| Properties.Filled | sw.js:48-52 | successive fills of the current cache; `FilledKeys` and `FiftyOneFills` prove it a FIFO of at most `MAX_ITEMS` keys, the oldest evicted first |
| Properties.FilledKeys | sw.js:50-51 | filling an empty cache with distinct URLs and storable responses keeps the newest `MAX_ITEMS` of them, oldest first, one entry each |
| Properties.FreshFillKeys | sw.js:50-51 | filling with a storable response for a new URL appends the URL and evicts from the front on overflow |
| Properties.FiftyOneFills | sw.js:62-68 | fifty-one fills with distinct URLs and storable responses leave the 2nd to the 51st, in order |
| Properties.PrecacheUrlsDistinct | sw.js:4-9 | the four precached URLs are different |
| Properties.InstallAllOrNothing | sw.js:12-17 | on success every precached URL maps to its fetched response in the current cache, also on a reinstall; on failure the caches are only opened; every other URL of the current cache keeps its response, and no other cache changes |
| Properties.ReplacedUnchanged | sw.js:14 | giving a cache the entries it already has changes nothing |
| Properties.FirstInstallKeys | sw.js:12-17 | a first successful install leaves the current cache holding exactly the four precached URLs, in order |
| Properties.RetainedOnlyCurrent | sw.js:22-24 | deleting every name but `CACHE_NAME` leaves just the current cache, if there is one |
| Properties.ReapedKeepsCurrent | sw.js:20-27 | after activation at most one cache remains; it is the current one, kept iff it existed, with its entries untouched |
| Properties.IncludesAt | sw.js:43 | `includes` holds iff the substring occurs at some position |
| Properties.NotIncludedAt | sw.js:43 | when `includes` fails, the substring occurs at no position |
| Properties.LackingCharNotIncluded | sw.js:43 | a string lacking one of the substring's characters does not include it |
| Properties.ApiDataNotCached | sw.js:40-47 | a response for `/api/data.json` is never cached, whatever the verb, unless the destination is `document` |
| Properties.BlogPostCached | sw.js:40-47 | an OK response for `/blog/post-1` is cached, whatever the verb and destination |
| Properties.WebpCached | sw.js:40-47 | an OK response for `/img/photo.webp` is cached, whatever the verb and destination |

## Left out

- Promises and scheduling: every `await` and `.then` step is taken to run to
  completion in order. The fill and the trim, detached in the handler, are
  taken to finish before the next request. Interleaving of concurrent
  requests is not modelled.
- `self.skipWaiting()` and `self.clients.claim()` are not modelled. They only
  change which pages the worker controls.
- `event.waitUntil` and `event.respondWith`: the handlers' results stand for
  what these receive.
- `Response.clone()` and body streams: a response is a value, so the clone
  and the original are the same value.
- Requests are matched by URL alone. The Cache API's `Vary` handling and
  query options are not modelled, nor is the rejection by `put` of a
  response carrying `Vary: *`, since headers other than Content-Type are
  not modelled.
- Failures of the storage backend (quota, I/O) are not modelled.
  `caches.open`, `delete` and `keys` always succeed, and `put` fails only
  on a partial response.
- `addAll`'s rejection of duplicate requests in one call is not modelled. The
  precache list has no duplicates (`Properties.PrecacheUrlsDistinct`).
- The `addAll` fetches run one after another here; the Cache API starts them
  together. Only the all-or-nothing result is modelled.
- `limitCacheSize` re-invokes itself without awaiting. It is modelled as the
  loop it amounts to once each step completes.
- Properties.FilledKeys: the key order is stated for runs of fills whose
  responses are all storable. A partial response in such a run is a fill
  that stores nothing (`FillStep`), but no lemma states the window for
  mixed runs.
- Properties.FiftyOneFills: stated for storable responses only, for the
  same reason.
- ServiceWorker.OfflineResponse: the page body is a constant without its
  inline style sheet and markup. Only its status and content type are
  stated.
- URLs are strings that stand for resolved absolute URLs. `request.url` is
  always absolute, and `addAll` resolves the precached paths against the
  worker's location. The constants are written as the paths in the code,
  `/` and `/manifest.json` for example, so the origin is left out. Matching
  a precached path therefore stands for matching its absolute URL.
