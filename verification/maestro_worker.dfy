/**
 * The current service worker of Maestro Riopaila (service-worker.js): a versioned store
 * filled at install, older stores deleted at activation, CSV data fetched network-first and
 * never cached, everything else served cache-first with the network response written back.
 */
module MaestroWorker {
  import opened Web
  import opened CacheStorage
  import Strings
  import LegacyWorker

  const CACHE_PREFIX: string := "riopaila-maestro-"
  const CACHE_VERSION: string := "v1.6.2"

  /** The name of the store of the generation tagged `version`. */
  function StoreName(version: string): (r: Name)
    ensures |r| == |CACHE_PREFIX| + |version|
    ensures r[..|CACHE_PREFIX|] == CACHE_PREFIX && r[|CACHE_PREFIX|..] == version
  {
    CACHE_PREFIX + version
  }

  /** Different versions never share a store. */
  lemma StoreNamesSeparateVersions(v: string, w: string)
    requires v != w
    ensures StoreName(v) != StoreName(w)
  {
    assert StoreName(v)[|CACHE_PREFIX|..] == v;
    assert StoreName(w)[|CACHE_PREFIX|..] == w;
  }

  const CACHE_NAME: Name := StoreName(CACHE_VERSION)

  /** The current store is "riopaila-maestro-v1.6.2". */
  lemma CurrentStoreName()
    ensures CACHE_NAME == "riopaila-maestro-v1.6.2"
    ensures CACHE_NAME[..|CACHE_PREFIX|] == CACHE_PREFIX && CACHE_NAME[|CACHE_PREFIX|..] == CACHE_VERSION
  {
  }

  /** The resources stored at install; the CSV data is deliberately not among them. */
  const URLS_TO_CACHE: seq<Url> := ["./", "./index.html", "./manifest.json", "./icon-192.png", "./icon-512.png"]

  /** The fetch classifier: a request is CSV data exactly when its pathname is something
      followed by ".csv". */
  predicate IsCsvRequest(req: Request)
    ensures IsCsvRequest(req) <==> exists p :: req.path == p + ".csv"
  {
    Strings.EndsWith(req.path, ".csv")
  }

  lemma ManifestHasNoCsv()
    ensures Distinct(URLS_TO_CACHE)
    ensures forall i :: 0 <= i < |URLS_TO_CACHE| ==> !Strings.EndsWith(URLS_TO_CACHE[i], ".csv")
  {
  }

  // ---------------------------------------------------------------------------
  // install

  /** Install completes (and then asks to skip waiting) exactly when `addAll` accepts the
      whole manifest. */
  predicate InstallSucceeds(net: Url -> NetOutcome) {
    Batch(URLS_TO_CACHE, net).Some?
  }

  /** Cache Storage after install: the current store is opened, then the manifest added. */
  function Installed(c: Snapshot, net: Url -> NetOutcome): (r: Snapshot)
    requires c.Valid()
    ensures r.Valid()
    ensures CACHE_NAME in r.stores
    ensures forall n :: n != CACHE_NAME ==> (n in r.stores <==> n in c.stores)
    ensures forall n :: n != CACHE_NAME && n in c.stores ==> r.stores[n] == c.stores[n]
    ensures |c.names| <= |r.names| && r.names[..|c.names|] == c.names
  {
    c.Opened(CACHE_NAME).Added(CACHE_NAME, URLS_TO_CACHE, net)
  }

  /** Install succeeds exactly when every manifest fetch gives a usable response. */
  lemma InstallSucceedsIff(net: Url -> NetOutcome)
    ensures InstallSucceeds(net) <==> forall u :: u in URLS_TO_CACHE ==> Usable(net(u))
  {
    ManifestHasNoCsv();
    BatchAcceptsIff(URLS_TO_CACHE, net);
  }

  /** A successful install leaves the current store holding every manifest URL with its
      fetched response, keeps its other entries, and touches no other store. */
  lemma InstallStoresManifest(c: Snapshot, net: Url -> NetOutcome)
    requires c.Valid() && InstallSucceeds(net)
    ensures var r := Installed(c, net);
      && CACHE_NAME in r.stores
      && (forall u :: u in URLS_TO_CACHE ==> u in r.stores[CACHE_NAME] && r.stores[CACHE_NAME][u] == net(u).response)
      && (forall u :: u in r.stores[CACHE_NAME] && u !in URLS_TO_CACHE ==>
            CACHE_NAME in c.stores && u in c.stores[CACHE_NAME] && r.stores[CACHE_NAME][u] == c.stores[CACHE_NAME][u])
      && (CACHE_NAME in c.stores ==> forall u :: u in c.stores[CACHE_NAME] ==> u in r.stores[CACHE_NAME])
      && (forall n :: n != CACHE_NAME ==> (n in r.stores <==> n in c.stores))
      && (forall n :: n != CACHE_NAME && n in c.stores ==> r.stores[n] == c.stores[n])
  {
    AddedEntries(c.Opened(CACHE_NAME), CACHE_NAME, URLS_TO_CACHE, net);
  }

  /** A failed install only opens the current store: nothing is added to any store. */
  lemma InstallFailureAddsNothing(c: Snapshot, net: Url -> NetOutcome)
    requires c.Valid() && !InstallSucceeds(net)
    ensures var r := Installed(c, net);
      && CACHE_NAME in r.stores
      && r.stores[CACHE_NAME] == (if CACHE_NAME in c.stores then c.stores[CACHE_NAME] else map[])
      && (forall n :: n != CACHE_NAME ==> (n in r.stores <==> n in c.stores))
      && (forall n :: n != CACHE_NAME && n in c.stores ==> r.stores[n] == c.stores[n])
  {
    AddedEntries(c.Opened(CACHE_NAME), CACHE_NAME, URLS_TO_CACHE, net);
  }

  /** Installing again with the same responses changes nothing more. */
  lemma InstallIdempotent(c: Snapshot, net: Url -> NetOutcome)
    requires c.Valid()
    ensures Installed(Installed(c, net), net) == Installed(c, net)
  {
    OpenedAddedIdempotent(c, CACHE_NAME, URLS_TO_CACHE, net);
  }

  // ---------------------------------------------------------------------------
  // activate

  /** The names among `ns` that activation deletes: every one but `CACHE_NAME`. */
  function Stale(ns: seq<Name>): set<Name> {
    set n | n in ns && n != CACHE_NAME
  }

  /** One more name handled by the activation loop: deleted unless it is `CACHE_NAME`. */
  lemma StaleStep(c: Snapshot, ns: seq<Name>, i: nat)
    requires c.Valid() && i < |ns|
    ensures ns[i] == CACHE_NAME ==> c.Deleted(Stale(ns[..i + 1])) == c.Deleted(Stale(ns[..i]))
    ensures ns[i] != CACHE_NAME ==> c.Deleted(Stale(ns[..i + 1])) == c.Deleted(Stale(ns[..i])).Deleted({ns[i]})
  {
    assert ns[..i + 1] == ns[..i] + [ns[i]];
    var before := Stale(ns[..i]);
    if ns[i] == CACHE_NAME {
      assert Stale(ns[..i + 1]) == before;
    } else {
      assert Stale(ns[..i + 1]) == before + {ns[i]};
      DeletedTwice(c, before, {ns[i]});
    }
  }

  /** Cache Storage after activation. */
  function Activated(c: Snapshot): (r: Snapshot)
    requires c.Valid()
    ensures r.Valid()
    ensures r.stores.Keys <= {CACHE_NAME}
    ensures CACHE_NAME in c.stores ==> CACHE_NAME in r.stores && r.stores[CACHE_NAME] == c.stores[CACHE_NAME]
  {
    c.Deleted(Stale(c.names))
  }

  /** After activation the current store is the only one that can remain, with its
      contents unchanged. */
  lemma ActivateKeepsOnlyCurrent(c: Snapshot)
    requires c.Valid()
    ensures var r := Activated(c);
      && r.names == (if CACHE_NAME in c.stores then [CACHE_NAME] else [])
      && r.stores.Keys <= {CACHE_NAME}
      && (CACHE_NAME in c.stores ==> CACHE_NAME in r.stores && r.stores[CACHE_NAME] == c.stores[CACHE_NAME])
  {
    FilterOutAllBut(c.names, Stale(c.names), CACHE_NAME);
  }

  /** A second activation changes nothing. */
  lemma ActivateIdempotent(c: Snapshot)
    requires c.Valid()
    ensures Activated(Activated(c)) == Activated(c)
  {
    var r := Activated(c);
    ActivateKeepsOnlyCurrent(c);
    assert Stale(r.names) == {};
    DeletedNothing(r);
  }

  /** The older worker's store is the "v1" generation, so activation deletes it. */
  lemma ActivateRetiresLegacyStore(c: Snapshot)
    requires c.Valid()
    ensures LegacyWorker.CACHE_NAME == StoreName("v1")
    ensures LegacyWorker.CACHE_NAME !in Activated(c).stores
  {
    StoreNamesSeparateVersions("v1", CACHE_VERSION);
  }

  // ---------------------------------------------------------------------------
  // fetch

  /** What one fetch event produces: the reply, Cache Storage afterwards, and whether the
      network was asked. */
  datatype Step = Step(reply: Reply, after: Snapshot, networkUsed: bool)

  /** The reply when a `caches.match` promise is handed straight to the page. */
  function MatchReply(hit: Option<Response>): Reply {
    match hit
    case Some(resp) => Served(resp)
    case None => Empty
  }

  /**
   * The fetch handler. CSV data: network first, nothing written, on failure the first
   * match in any store. Everything else: the first match in any store; on a miss the
   * network, whose response is written into the current store.
   */
  function HandleFetch(c: Snapshot, req: Request, net: NetOutcome): (s: Step)
    requires c.Valid()
    ensures s.after.Valid()
    ensures IsCsvRequest(req) || !s.networkUsed ==> s.after == c
    ensures s.reply.Served? ==> (s.networkUsed && net.Ok? && s.reply.response == net.response)
                                || c.Holds(req.url, s.reply.response)
  {
    if IsCsvRequest(req) then
      match net
      case Ok(resp) => Step(Served(resp), c, true)
      case Fail => Step(MatchReply(c.Lookup(req.url)), c, true)
    else
      match c.Lookup(req.url)
      case Some(cached) => Step(Served(cached), c, false)
      case None =>
        match net
        case Fail => Step(Rejected, c, true)
        case Ok(resp) => Step(Served(resp), c.Opened(CACHE_NAME).Stored(CACHE_NAME, req.url, resp), true)
  }

  /** CSV data with the network up: exactly the network response, and no store changes. */
  lemma CsvFromNetwork(c: Snapshot, req: Request, resp: Response)
    requires c.Valid() && IsCsvRequest(req)
    ensures HandleFetch(c, req, Ok(resp)) == Step(Served(resp), c, true)
  {
  }

  /** CSV data with the network down: the first match in any store, or no response at all;
      no store changes. */
  lemma CsvOffline(c: Snapshot, req: Request)
    requires c.Valid() && IsCsvRequest(req)
    ensures var s := HandleFetch(c, req, Fail);
      && s.after == c
      && (s.reply == Empty <==> forall n :: n in c.stores ==> req.url !in c.stores[n])
      && (s.reply != Empty ==> s.reply.Served? && s.reply.response == c.Lookup(req.url).value)
  {
  }

  /** Any other request that hits a store: the cached response, whatever the network would
      have said, with no network call and no store change. */
  lemma CacheFirstHit(c: Snapshot, req: Request, net: NetOutcome)
    requires c.Valid() && !IsCsvRequest(req) && c.Lookup(req.url).Some?
    ensures HandleFetch(c, req, net) == Step(Served(c.Lookup(req.url).value), c, false)
    ensures c.Holds(req.url, c.Lookup(req.url).value)
  {
  }

  /** A miss with the network up: the network response, now stored under the request URL in
      the current store; every other entry and store is unchanged. */
  lemma CacheMissWritesBack(c: Snapshot, req: Request, resp: Response)
    requires c.Valid() && !IsCsvRequest(req) && c.Lookup(req.url).None?
    ensures var s := HandleFetch(c, req, Ok(resp));
      && s.reply == Served(resp) && s.networkUsed
      && CACHE_NAME in s.after.stores
      && s.after.stores[CACHE_NAME] == (if CACHE_NAME in c.stores then c.stores[CACHE_NAME] else map[])[req.url := resp]
      && (forall n :: n != CACHE_NAME ==> (n in s.after.stores <==> n in c.stores))
      && (forall n :: n != CACHE_NAME && n in c.stores ==> s.after.stores[n] == c.stores[n])
      && |c.names| <= |s.after.names| && s.after.names[..|c.names|] == c.names
  {
  }

  /** A miss with the network down: the failure is passed on and nothing changes. */
  lemma CacheMissOffline(c: Snapshot, req: Request)
    requires c.Valid() && !IsCsvRequest(req) && c.Lookup(req.url).None?
    ensures HandleFetch(c, req, Fail) == Step(Rejected, c, true)
  {
  }

  /** After a write-back, the same request is served from the cache: the response the
      network gave the first time, without a network call. */
  lemma WriteBackServesRepeat(c: Snapshot, req: Request, resp: Response, later: NetOutcome)
    requires c.Valid() && !IsCsvRequest(req) && c.Lookup(req.url).None?
    ensures var after := HandleFetch(c, req, Ok(resp)).after;
      HandleFetch(after, req, later) == Step(Served(resp), after, false)
  {
    var after := HandleFetch(c, req, Ok(resp)).after;
    CacheMissWritesBack(c, req, resp);
    FirstHitSoleHolder(after.names, after.stores, req.url, CACHE_NAME);
  }

  // ---------------------------------------------------------------------------
  // message

  /** The value posted with a message, as far as the handler can tell values apart. */
  datatype JsValue =
    | Undefined
    | Null
    | Bool(b: bool)
    | Num(n: int)
    | Str(s: string)
    | Obj(props: map<string, JsValue>)

  /** JavaScript truthiness: every value is truthy except `undefined`, `null`, `false`,
      `0` and the empty string. */
  predicate Truthy(v: JsValue)
    ensures Truthy(v) <==> v !in {Undefined, Null, Bool(false), Num(0), Str("")}
  {
    match v
    case Undefined => false
    case Null => false
    case Bool(b) => b
    case Num(n) => n != 0
    case Str(s) => s != ""
    case Obj(_) => true
  }

  /** `v[key]` for a value that is not `undefined` or `null`: a missing property, or any
      property of a primitive, reads as `undefined`. */
  function Property(v: JsValue, key: string): JsValue {
    if v.Obj? && key in v.props then v.props[key] else Undefined
  }

  /** `event.data && event.data.type === 'SKIP_WAITING'`: it holds only for an object whose
      `type` is the string "SKIP_WAITING". */
  predicate RequestsSkipWaiting(data: JsValue)
    ensures RequestsSkipWaiting(data) <==>
      data.Obj? && "type" in data.props && data.props["type"] == Str("SKIP_WAITING")
  {
    Truthy(data) && Property(data, "type") == Str("SKIP_WAITING")
  }

  // ---------------------------------------------------------------------------
  // the worker

  class ServiceWorker {
    /** The origin's Cache Storage, shared with every other worker of the origin. */
    const caches: Caches
    /** Whether `self.skipWaiting()` has been called. */
    var skipWaitingRequested: bool
    /** Whether `self.clients.claim()` has been called. */
    var clientsClaimed: bool

    predicate Valid()
      reads this, caches
    {
      caches.Valid()
    }

    constructor (caches: Caches)
      requires caches.Valid()
      ensures Valid() && this.caches == caches
      ensures !skipWaitingRequested && !clientsClaimed
    {
      this.caches := caches;
      skipWaitingRequested := false;
      clientsClaimed := false;
    }

    /** The install handler: open the current store, add the manifest, and only if that
        succeeded ask to skip waiting. */
    method Install(net: Url -> NetOutcome)
      requires Valid()
      modifies this, caches
      ensures Valid()
      ensures caches.State() == Installed(old(caches.State()), net)
      ensures skipWaitingRequested == (old(skipWaitingRequested) || InstallSucceeds(net))
      ensures clientsClaimed == old(clientsClaimed)
    {
      caches.Open(CACHE_NAME);
      var ok := caches.AddAll(CACHE_NAME, URLS_TO_CACHE, net);
      if ok {
        skipWaitingRequested := true;
      }
    }

    /** The activate handler: delete every store not named `CACHE_NAME`, then claim the
        clients. */
    method Activate()
      requires Valid()
      modifies this, caches
      ensures Valid()
      ensures caches.State() == Activated(old(caches.State()))
      ensures clientsClaimed
      ensures skipWaitingRequested == old(skipWaitingRequested)
    {
      var cacheNames := caches.Keys();
      DeleteStale(cacheNames);
      clientsClaimed := true;
    }

    /** The loop of the activate handler over the `caches.keys()` snapshot: each name that
        is not `CACHE_NAME` is deleted, one at a time. */
    method DeleteStale(cacheNames: seq<Name>)
      requires Valid()
      modifies caches
      ensures Valid()
      ensures caches.State() == old(caches.State()).Deleted(Stale(cacheNames))
    {
      ghost var c0 := caches.State();
      DeletedNothing(c0);
      assert Stale(cacheNames[..0]) == {};
      var i := 0;
      while i < |cacheNames|
        invariant 0 <= i <= |cacheNames|
        invariant caches.Valid()
        invariant caches.State() == c0.Deleted(Stale(cacheNames[..i]))
      {
        var name := cacheNames[i];
        StaleStep(c0, cacheNames, i);
        if name != CACHE_NAME {
          var _ := caches.Delete(name);
        }
        i := i + 1;
      }
      assert cacheNames[..i] == cacheNames;
    }

    /** The fetch handler. */
    method Fetch(req: Request, net: NetOutcome) returns (reply: Reply, networkUsed: bool)
      requires Valid()
      modifies caches
      ensures Valid()
      ensures HandleFetch(old(caches.State()), req, net) == Step(reply, caches.State(), networkUsed)
    {
      if IsCsvRequest(req) {
        networkUsed := true;
        match net {
          case Ok(resp) =>
            reply := Served(resp);
          case Fail =>
            var hit := caches.Match(req.url);
            reply := MatchReply(hit);
        }
        return;
      }
      var hit := caches.Match(req.url);
      if hit.Some? {
        reply, networkUsed := Served(hit.value), false;
        return;
      }
      networkUsed := true;
      match net
      case Fail =>
        reply := Rejected;
      case Ok(resp) =>
        caches.Open(CACHE_NAME);
        caches.Put(CACHE_NAME, req.url, resp);
        reply := Served(resp);
    }

    /** The message handler: skip waiting on a SKIP_WAITING message, ignore anything else. */
    method Message(data: JsValue)
      requires Valid()
      modifies this
      ensures Valid()
      ensures skipWaitingRequested == (old(skipWaitingRequested) || RequestsSkipWaiting(data))
      ensures clientsClaimed == old(clientsClaimed)
    {
      if Truthy(data) && Property(data, "type") == Str("SKIP_WAITING") {
        skipWaitingRequested := true;
      }
    }
  }
}
