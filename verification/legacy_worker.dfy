/**
 * The older service worker of Maestro Riopaila (sw.js): a fixed store filled at install,
 * and a read-only cache-first fetch handler. It requests no activation and deletes nothing.
 */
module LegacyWorker {
  import opened Web
  import opened CacheStorage

  const CACHE_NAME: Name := "riopaila-maestro-v1"

  const TO_CACHE: seq<Url> := ["index.html", "manifest.json", "icon-192.png", "icon-512.png"]

  /** Cache Storage after install: the store is opened, then the four resources added. */
  function Installed(c: Snapshot, net: Url -> NetOutcome): (r: Snapshot)
    requires c.Valid()
    ensures r.Valid()
    ensures CACHE_NAME in r.stores
    ensures Before(c).Keys <= r.stores[CACHE_NAME].Keys
  {
    c.Opened(CACHE_NAME).Added(CACHE_NAME, TO_CACHE, net)
  }

  /** What the store held before install (nothing, if it did not exist). */
  function Before(c: Snapshot): Store {
    if CACHE_NAME in c.stores then c.stores[CACHE_NAME] else map[]
  }

  /** The four resources are distinct, so install succeeds exactly when all four fetches
      give a usable response. */
  lemma InstallSucceedsIff(net: Url -> NetOutcome)
    ensures |TO_CACHE| == 4 && Distinct(TO_CACHE)
    ensures Batch(TO_CACHE, net).Some? <==> forall u :: u in TO_CACHE ==> Usable(net(u))
  {
    BatchAcceptsIff(TO_CACHE, net);
  }

  /** A successful install leaves the store holding exactly the four resources on top of
      whatever it held; a failed one adds nothing. */
  lemma InstallAddsExactlyFour(c: Snapshot, net: Url -> NetOutcome)
    requires c.Valid()
    ensures var r := Installed(c, net);
      && CACHE_NAME in r.stores
      && (Batch(TO_CACHE, net).Some? ==>
            && r.stores[CACHE_NAME].Keys == Before(c).Keys + set u | u in TO_CACHE
            && (forall u :: u in TO_CACHE ==> r.stores[CACHE_NAME][u] == net(u).response)
            && (forall u :: u in Before(c) && u !in TO_CACHE ==> r.stores[CACHE_NAME][u] == Before(c)[u]))
      && (Batch(TO_CACHE, net).None? ==> r.stores[CACHE_NAME] == Before(c))
  {
    var o := c.Opened(CACHE_NAME);
    assert o.stores[CACHE_NAME] == Before(c);
    AddedEntries(o, CACHE_NAME, TO_CACHE, net);
  }

  /** Install touches no store but its own and deletes none: every other store keeps its
      contents, and the creation order only grows. */
  lemma InstallTouchesOnlyItsStore(c: Snapshot, net: Url -> NetOutcome)
    requires c.Valid()
    ensures var r := Installed(c, net);
      && (forall n :: n in c.stores ==> n in r.stores)
      && (forall n :: n != CACHE_NAME ==> (n in r.stores <==> n in c.stores))
      && (forall n :: n != CACHE_NAME && n in c.stores ==> r.stores[n] == c.stores[n])
      && |c.names| <= |r.names| && r.names[..|c.names|] == c.names
  {
  }

  /** The install handler. */
  method Install(caches: Caches, net: Url -> NetOutcome)
    requires caches.Valid()
    modifies caches
    ensures caches.Valid()
    ensures caches.State() == Installed(old(caches.State()), net)
  {
    caches.Open(CACHE_NAME);
    var _ := caches.AddAll(CACHE_NAME, TO_CACHE, net);
  }

  /**
   * The fetch handler: the first match in any store, otherwise whatever the network gives,
   * a failure included. It writes nothing (it may not modify `caches`).
   */
  method Fetch(caches: Caches, req: Request, net: NetOutcome) returns (reply: Reply, networkUsed: bool)
    requires caches.Valid()
    ensures networkUsed <==> forall n :: n in caches.stores ==> req.url !in caches.stores[n]
    ensures !networkUsed ==> reply.Served? && reply == Served(caches.State().Lookup(req.url).value)
    ensures networkUsed ==> reply == (if net.Ok? then Served(net.response) else Rejected)
  {
    var hit := caches.Match(req.url);
    if hit.Some? {
      return Served(hit.value), false;
    }
    networkUsed := true;
    reply := if net.Ok? then Served(net.response) else Rejected;
  }
}
