# Maestro Riopaila service workers: cache policy in Dafny

Maestro Riopaila is a web application. It gets offline support from a service worker
that sits between the page and the network. Two versions of that worker exist:

- `service-worker.js` is the current one. It has a versioned store named
  `riopaila-maestro-v1.6.2`. Install fills that store from a five-entry manifest and then
  asks to skip waiting. Activate deletes every other store and claims the open pages.
  The fetch handler treats CSV data (pathname ending in `.csv`) network-first and never
  stores it. On a network failure it falls back to the first match in any store.
  Every other request is served cache-first. On a miss the network response is written
  back into the current store. A `SKIP_WAITING` message also triggers skip-waiting.
- `sw.js` is the older one. Install fills the fixed store `riopaila-maestro-v1` with four
  resources. Its fetch handler is cache-first and never writes anything.

The model treats the browser's Cache Storage as plain data. A `Snapshot` holds the store
names in creation order and, for each store, a map from request URL to response. The
global `caches` object is the class `CacheStorage.Caches`, with those two parts as fields.
`Open`, `Delete`, `Put` and `AddAll` change the fields in place. Each is proved against a
function on `Snapshot`: `Opened`, `Deleted`, `Stored` or `Added`. `Keys` and `Match` only
read. `Keys` returns the names as they are, and `Match` is proved against `Lookup`.

The network is an input to each handler. A fetch outcome is `Ok(response)` or `Fail`.
For install it is a function from URL to outcome, since `addAll` fetches each manifest URL.

Each handler of `service-worker.js` is a method of the class `MaestroWorker.ServiceWorker`.
`Install`, `Activate` and `Fetch` are proved against `Installed`, `Activated` and
`HandleFetch` of the old state. `Message` is proved against `RequestsSkipWaiting`. The
class records `self.skipWaiting()` and `self.clients.claim()` as two boolean flags. The
lemmas beside those functions state what the code promises.

`sw.js` is modelled by the module `LegacyWorker`. Its install is a method that modifies
`caches`. Its fetch is a method with no `modifies` clause, so it is proved to write nothing.

Modules:

- `Web` (web.dfy): responses, requests, fetch outcomes, replies.
- `Strings` (strings.dfy): `EndsWith`.
- `CacheStorage` (cache_storage.dfy): Cache Storage.
- `MaestroWorker` (maestro_worker.dfy): `service-worker.js`.
- `LegacyWorker` (legacy_worker.dfy): `sw.js`.

The fetch handler has only the two policies above. It calls `cache.put` on every network
response, whatever its status (`put` itself rejects a 206; see "Left out"), and it
intercepts cross-origin requests too.

Install is all-or-nothing. This follows `cache.addAll` as defined in section 5.4 of the
W3C Service Workers specification:

- it rejects when any fetch fails;
- it rejects when any response status is outside 200-299, or is 206;
- it rejects when a URL occurs twice in the batch;
- when it rejects, nothing is written.

After a rejected install the current store still exists, because `caches.open` created
it. In that case skip-waiting is not requested.

A fetch reply is one of three values:

- `Served(response)`;
- `Empty`, when a `caches.match` miss resolves to `undefined`;
- `Rejected`, when the fetch rejection is passed on.

The browser turns the last two into a network error for the page.

The version comment at the top of `service-worker.js` says v1.6.1. The constant says
v1.6.2, and the model uses the constant.

## Model

| member | source | states |
|---|---|---|
| `MaestroWorker.StoreName` | service-worker.js:7 | the store name is the prefix `riopaila-maestro-` followed by the version token, and splits back into those two parts |
| `MaestroWorker.StoreNamesSeparateVersions` | service-worker.js:6-7 | two different versions never get the same store name |
| `MaestroWorker.CurrentStoreName` | service-worker.js:6-7 | the current store is `riopaila-maestro-v1.6.2`: the fixed prefix followed by `v1.6.2` |
| `MaestroWorker.ManifestHasNoCsv` | service-worker.js:9-16 | the five manifest URLs are distinct and none ends in `.csv` |
| `MaestroWorker.IsCsvRequest` | service-worker.js:56 | a request is CSV data exactly when its pathname is some string followed by `.csv` |
| `Strings.EndsWith` | service-worker.js:56 | `endsWith(suffix)` holds exactly when the string is something followed by the suffix |
| `MaestroWorker.Installed` | service-worker.js:23-26 | install leaves a valid Cache Storage in which the current store exists; every other store keeps its contents, none is created or deleted, and the creation order only grows |
| `MaestroWorker.InstallSucceedsIff` | service-worker.js:10-16 | install succeeds exactly when every manifest fetch gives a usable response (an ok status other than 206) |
| `MaestroWorker.InstallStoresManifest` | service-worker.js:23-26 | after a successful install the current store maps every manifest URL to its fetched response, keeps its other entries, and no other store changes |
| `MaestroWorker.InstallFailureAddsNothing` | service-worker.js:24-25 | after a failed install the current store exists, with exactly what it held before (or empty), and no other store changes |
| `MaestroWorker.InstallIdempotent` | service-worker.js:24-25 | installing a second time with the same responses leaves Cache Storage as the first install left it |
| `MaestroWorker.ServiceWorker.Install` | service-worker.js:21-28 | the store becomes `Installed(old state)`; skip-waiting is requested exactly when `addAll` succeeded; the claim flag is untouched |
| `MaestroWorker.Activated` | service-worker.js:36-44 | activation leaves a valid Cache Storage with no store but `CACHE_NAME`, which keeps its contents if it existed |
| `MaestroWorker.StaleStep` | service-worker.js:38-43 | each name visited by the activation loop is deleted, unless it is `CACHE_NAME`, in which case nothing changes |
| `MaestroWorker.ActivateKeepsOnlyCurrent` | service-worker.js:36-44 | after activation the only name left is `CACHE_NAME` (if it existed before), with its contents unchanged |
| `MaestroWorker.ActivateIdempotent` | service-worker.js:36-44 | activating a second time changes nothing |
| `MaestroWorker.ActivateRetiresLegacyStore` | service-worker.js:39-41 | the store of `sw.js` is the `v1` generation's store, and activation deletes it |
| `MaestroWorker.ServiceWorker.Activate` | service-worker.js:33-47 | the store names are read with `caches.keys()` and every other store is deleted, so the result is `Activated(old state)`; clients are then claimed |
| `MaestroWorker.ServiceWorker.DeleteStale` | service-worker.js:38-43 | the loop over a snapshot of names deletes, one at a time, each that is not `CACHE_NAME`; the result is the old state with exactly those stores deleted |
| `MaestroWorker.HandleFetch` | service-worker.js:52-82 | the result is a valid state; a CSV request or a request the network was not asked for leaves every store unchanged; a served response is either the network's or one some store held under the URL |
| `MaestroWorker.CsvFromNetwork` | service-worker.js:57-62 | a CSV request with the network up returns exactly the network response and changes no store |
| `MaestroWorker.CsvOffline` | service-worker.js:63-66 | a CSV request with the network down returns the first match across all stores, or nothing when no store holds the URL; no store changes |
| `MaestroWorker.CacheFirstHit` | service-worker.js:73-74 | a non-CSV request that hits returns the cached response, whatever the network outcome, without a network call and without changing any store |
| `MaestroWorker.CacheMissWritesBack` | service-worker.js:74-79 | a non-CSV miss with the network up returns the network response, and the current store (opened if needed) now maps the URL to it; all other entries and stores are unchanged, and the creation order only grows |
| `MaestroWorker.CacheMissOffline` | service-worker.js:74 | a non-CSV miss with the network down passes the failure on and changes nothing |
| `MaestroWorker.WriteBackServesRepeat` | service-worker.js:72-81 | after a write-back, the same request is answered from the cache with that response, without a network call |
| `MaestroWorker.ServiceWorker.Fetch` | service-worker.js:52-82 | the reply, the network use and the new state are those of `HandleFetch` on the old state |
| `MaestroWorker.RequestsSkipWaiting` | service-worker.js:88 | the guard, built from the helpers `Truthy` and `Property`, holds exactly for an object whose `type` property is the string `SKIP_WAITING` |
| `MaestroWorker.Truthy` | service-worker.js:88 | a value is truthy exactly when it is not `undefined`, `null`, `false`, `0` or the empty string |
| `MaestroWorker.ServiceWorker.Message` | service-worker.js:87-92 | skip-waiting is requested after the message exactly when it was before or the message is `{type: 'SKIP_WAITING'}`; nothing else changes |
| `CacheStorage.FirstHit` | service-worker.js:73 | a lookup misses exactly when no store holds the URL; a hit comes from the first store, in creation order, that holds it |
| `CacheStorage.FirstHitSoleHolder` | service-worker.js:73 | when only one store holds the URL, every lookup is answered from that store |
| `CacheStorage.Snapshot.Lookup` | service-worker.js:73 | a hit is a response some store holds under the URL; a miss means no store holds it |
| `CacheStorage.Snapshot.Opened` | service-worker.js:24 | an existing store is kept as it is; a missing one is created empty and placed last in creation order; no other store changes |
| `CacheStorage.Snapshot.Deleted` | service-worker.js:41 | exactly the given stores are gone, and every remaining store keeps its contents |
| `CacheStorage.Snapshot.Stored` | service-worker.js:76 | the named store maps the URL to the response and keeps its other entries; the names and every other store are unchanged |
| `CacheStorage.Snapshot.Added` | service-worker.js:25 | the names and every other store are unchanged, and a rejected batch changes nothing at all |
| `CacheStorage.Caches.Match` | service-worker.js:73 | the loop over the stores in creation order returns the `FirstHit` answer |
| `CacheStorage.Batch` | service-worker.js:25 | `addAll` accepts a batch exactly when its URLs are distinct and every fetch is usable (per the helper `Usable`: a response with an ok status other than 206); when it accepts, the entries are the batch's URLs mapped to their responses |
| `CacheStorage.BatchAcceptsIff` | service-worker.js:25 | for a batch without repeats, `addAll` accepts exactly when every fetch is usable |
| `CacheStorage.AddedEntries` | service-worker.js:25 | an accepted `addAll` adds one entry per URL on top of the store's other entries; a rejected one changes nothing |
| `CacheStorage.AddedTwice` | service-worker.js:25 | adding the same batch to a store a second time changes nothing more |
| `CacheStorage.OpenedAddedIdempotent` | service-worker.js:24-25 | opening a store and adding the same batch again changes nothing |
| `CacheStorage.Caches.AddAll` | service-worker.js:25 | the loop fetches URL by URL and writes all entries only if no fetch fails and no URL repeats; the result is `Added(old state)`, and `ok` says whether it was accepted |
| `CacheStorage.Caches.Open` | service-worker.js:24 | an existing store is kept as it is; a missing one is created empty and placed last in creation order |
| `CacheStorage.Caches.Keys` | service-worker.js:36 | returns every store name, without repeats, in creation order |
| `CacheStorage.Caches.Delete` | service-worker.js:41 | removes the store and its name; the result says whether it existed |
| `CacheStorage.Caches.Put` | service-worker.js:76 | the named store maps the URL to the response; nothing else changes |
| `CacheStorage.FilterOut` | service-worker.js:38-43 | keeps exactly the names not deleted, without repeats if there were none |
| `CacheStorage.FilterOutKeepsOrder` | service-worker.js:38-43 | of two names that are not deleted, one comes before the other afterwards exactly when it did before, so deletion keeps the order that first-hit lookups use |
| `CacheStorage.FilterOutTwice` | service-worker.js:38-43 | deleting two sets of names one after the other is the same as deleting their union |
| `CacheStorage.FilterOutAllBut` | service-worker.js:38-43 | deleting every name but one leaves that name alone, if it was there |
| `CacheStorage.DeletedTwice` | service-worker.js:38-43 | deleting stores in two rounds gives the same Cache Storage as one round |
| `CacheStorage.DeletedNothing` | service-worker.js:38-43 | deleting no store changes nothing |
| `LegacyWorker.Installed` | sw.js:10 | install leaves a valid Cache Storage in which `riopaila-maestro-v1` exists and still holds at least the URLs it held before |
| `LegacyWorker.InstallSucceedsIff` | sw.js:3-10 | the four resources are distinct; install succeeds exactly when all four fetches are usable |
| `LegacyWorker.InstallAddsExactlyFour` | sw.js:9-11 | a successful install leaves `riopaila-maestro-v1` with exactly the four resources added to what it held; a failed one adds nothing |
| `LegacyWorker.InstallTouchesOnlyItsStore` | sw.js:9-11 | install changes no other store and deletes none; the creation order only grows |
| `LegacyWorker.Install` | sw.js:9-11 | Cache Storage becomes `Installed(old state)`: open `riopaila-maestro-v1`, then `addAll` the four resources |
| `LegacyWorker.Fetch` | sw.js:12-14 | a hit returns the first cached match and does not ask the network; a miss returns the network response, or passes its failure on; it has no `modifies` clause, so it writes and deletes nothing |

## Left out

- URL parsing and resolution. A request carries its URL, which is the cache key, and its
  pathname as two given strings. The pathname is not derived from the URL here. Manifest entries are keys exactly as written. So
  `./index.html` (service-worker.js) and `index.html` (sw.js) are different keys here,
  although a browser would resolve both to the same URL.
- Promise chaining, `event.waitUntil` and `event.respondWith`. Each handler is one
  sequential step.
- The un-awaited `cache.put` at service-worker.js:76. It completes within the fetch step.
  Its race with other fetch events is concurrency, which is not modelled.
- `Response.clone()` and body streams. A clone is the same response value.
- The rejections of `cache.put` itself (status 206, a non-GET request, `Vary: *`). The
  write-back stores every network response. The request method is not modelled.
- The rejections of `addAll` for a non-GET request or a non-HTTP(S) URL.
- The request method in `caches.match` (service-worker.js:65, 73; sw.js:13). A browser
  never matches a non-GET request, so a POST to a cached URL goes to the network. Here a
  request has no method, and such a request is served from the cache.
- The `Vary` header. `caches.match` (service-worker.js:65, 73; sw.js:13) also compares the
  request headers that a stored response's `Vary` header names. Here a lookup matches on
  the URL alone.
- `addAll` rejecting a response whose `Vary` header is `*` (service-worker.js:25; sw.js:10).
  Responses carry no headers here.
- Failures of Cache Storage itself: `open`, `delete` or `put` rejecting, and quota
  errors. If a delete fails during activation, `Promise.all` rejects and clients are
  not claimed. The model has no such failure.
- The browser lifecycle effects of `self.skipWaiting()` and `self.clients.claim()`. They
  are recorded as two flags on `ServiceWorker`.
- `console.log` and `console.warn` logging.
- Message data is a small JavaScript value: undefined, null, boolean, integer, string or
  object. Non-integer numbers (`NaN` included) are not modelled. They matter only for
  truthiness, and any such value fails the `type` test anyway.
