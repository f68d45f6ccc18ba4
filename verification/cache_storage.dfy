/**
 * The browser's Cache Storage as plain data: named stores, each a map from request URL
 * to response. `Snapshot` is the value the operations are specified on; `Caches` is the
 * global `caches` object the workers update in place.
 */
module CacheStorage {
  import opened Web

  type Name = string
  type Store = map<Url, Response>

  predicate Distinct<T(==)>(s: seq<T>) {
    forall i, j :: 0 <= i < j < |s| ==> s[i] != s[j]
  }

  /** The names of `s` that are not in `gone`. */
  function FilterOut(s: seq<Name>, gone: set<Name>): (r: seq<Name>)
    ensures forall x :: x in r <==> x in s && x !in gone
    ensures Distinct(s) ==> Distinct(r)
    ensures |r| <= |s|
  {
    if s == [] then []
    else if s[0] in gone then FilterOut(s[1..], gone)
    else
      var rest := FilterOut(s[1..], gone);
      assert Distinct(s) ==> s[0] !in s[1..];
      [s[0]] + rest
  }

  /** `x` occurs in `s` at some position before an occurrence of `y`. */
  predicate Precedes(s: seq<Name>, x: Name, y: Name) {
    exists i, j :: 0 <= i < j < |s| && s[i] == x && s[j] == y
  }

  /** `x` precedes `y` in `[h] + t` when `h` is `x` and `y` follows in `t`, or when `x`
      precedes `y` within `t`. */
  lemma PrecedesCons(h: Name, t: seq<Name>, x: Name, y: Name)
    ensures Precedes([h] + t, x, y) <==> (h == x && y in t) || Precedes(t, x, y)
  {
    var s := [h] + t;
    if Precedes(s, x, y) {
      var i, j :| 0 <= i < j < |s| && s[i] == x && s[j] == y;
      if i == 0 {
        assert t[j - 1] == y;
      } else {
        assert t[i - 1] == x && t[j - 1] == y;
      }
    }
    if h == x && y in t {
      var j :| 0 <= j < |t| && t[j] == y;
      assert s[0] == x && s[j + 1] == y;
    }
    if Precedes(t, x, y) {
      var i, j :| 0 <= i < j < |t| && t[i] == x && t[j] == y;
      assert s[i + 1] == x && s[j + 1] == y;
    }
  }

  /** Deleting names keeps the survivors in their relative order: of two names that are
      not deleted, one comes before the other afterwards exactly when it did before. */
  lemma {:induction false} FilterOutKeepsOrder(s: seq<Name>, gone: set<Name>, x: Name, y: Name)
    requires x !in gone && y !in gone
    ensures Precedes(FilterOut(s, gone), x, y) <==> Precedes(s, x, y)
  {
    if s != [] {
      var t := s[1..];
      assert s == [s[0]] + t;
      PrecedesCons(s[0], t, x, y);
      FilterOutKeepsOrder(t, gone, x, y);
      if s[0] !in gone {
        PrecedesCons(s[0], FilterOut(t, gone), x, y);
      }
    }
  }

  lemma {:induction false} FilterOutNothing(s: seq<Name>)
    ensures FilterOut(s, {}) == s
  {
    if s != [] {
      FilterOutNothing(s[1..]);
    }
  }

  /** Filtering twice is filtering once by both sets. */
  lemma {:induction false} FilterOutTwice(s: seq<Name>, g: set<Name>, h: set<Name>)
    ensures FilterOut(FilterOut(s, g), h) == FilterOut(s, g + h)
  {
    if s != [] {
      FilterOutTwice(s[1..], g, h);
      if s[0] !in g {
        var t := [s[0]] + FilterOut(s[1..], g);
        assert t[0] == s[0] && t[1..] == FilterOut(s[1..], g);
      }
    }
  }

  /** Filtering out every name but `k` from a duplicate-free sequence leaves `k` alone,
      if it was there. */
  lemma {:induction false} FilterOutAllBut(s: seq<Name>, gone: set<Name>, k: Name)
    requires Distinct(s) && k !in gone
    requires forall x :: x in s && x != k ==> x in gone
    ensures FilterOut(s, gone) == if k in s then [k] else []
  {
    if s != [] {
      assert Distinct(s[1..]);
      FilterOutAllBut(s[1..], gone, k);
      if s[0] == k {
        assert k !in s[1..];
      }
    }
  }

  /**
   * `caches.match(url)`: the response stored under `url` in the first store, in creation
   * order, that has one.
   */
  function FirstHit(names: seq<Name>, stores: map<Name, Store>, url: Url): (r: Option<Response>)
    requires forall n :: n in names ==> n in stores
    ensures r.None? <==> forall n :: n in names ==> url !in stores[n]
    ensures r.Some? ==> exists i :: 0 <= i < |names| && url in stores[names[i]]
                                    && r.value == stores[names[i]][url]
                                    && forall j :: 0 <= j < i ==> url !in stores[names[j]]
  {
    if names == [] then None
    else if url in stores[names[0]] then
      Some(stores[names[0]][url])
    else
      var r := FirstHit(names[1..], stores, url);
      assert r.Some? ==> exists i :: 0 <= i < |names| && url in stores[names[i]]
                                      && r.value == stores[names[i]][url]
                                      && forall j :: 0 <= j < i ==> url !in stores[names[j]] by {
        if r.Some? {
          var k :| 0 <= k < |names| - 1 && url in stores[names[1..][k]]
                   && r.value == stores[names[1..][k]][url]
                   && forall j :: 0 <= j < k ==> url !in stores[names[1..][j]];
          assert names[k + 1] == names[1..][k];
          assert forall j :: 0 <= j < k + 1 ==> url !in stores[names[j]] by {
            forall j | 0 <= j < k + 1 ensures url !in stores[names[j]] {
              if j > 0 { assert names[j] == names[1..][j - 1]; }
            }
          }
        }
      }
      r
  }

  /** A store that alone holds `url` is where every lookup of `url` is answered from. */
  lemma {:induction false} FirstHitSoleHolder(names: seq<Name>, stores: map<Name, Store>, url: Url, n: Name)
    requires forall m :: m in names ==> m in stores
    requires n in names && url in stores[n]
    requires forall m :: m in names && m != n ==> url !in stores[m]
    ensures FirstHit(names, stores, url) == Some(stores[n][url])
  {
    var r := FirstHit(names, stores, url);
    var i :| 0 <= i < |names| && url in stores[names[i]] && r.value == stores[names[i]][url];
    assert names[i] == n;
  }

  /** The statuses `addAll` accepts: the ok statuses 200 to 299, except 206 (a partial
      response). */
  const ACCEPTED_STATUSES: set<int> := (set s: int | 200 <= s < 300) - {206}

  /** An outcome `addAll` accepts: a response with an ok status other than 206. */
  predicate Usable(o: NetOutcome)
    ensures Usable(o) <==> o.Ok? && IsOkStatus(o.response.status) && o.response.status != 206
  {
    o.Ok? && o.response.status in ACCEPTED_STATUSES
  }

  /**
   * The entries `cache.addAll(urls)` writes, or None when it rejects: it rejects when a
   * fetch fails or gives an unusable response, or when a URL occurs twice in the batch.
   */
  function Batch(urls: seq<Url>, net: Url -> NetOutcome): (r: Option<Store>)
    ensures r.Some? <==> Distinct(urls) && forall i :: 0 <= i < |urls| ==> Usable(net(urls[i]))
    ensures r.Some? ==> r.value.Keys == set u | u in urls
    ensures r.Some? ==> forall u :: u in urls ==> r.value[u] == net(u).response
  {
    if urls == [] then Some(map[])
    else
      var init, u := urls[..|urls| - 1], urls[|urls| - 1];
      assert urls == init + [u];
      match Batch(init, net)
      case None =>
        assert !Distinct(init) || exists i :: 0 <= i < |init| && !Usable(net(init[i]));
        None
      case Some(b) =>
        if u in b || !Usable(net(u)) then
          assert u in b ==> exists i :: 0 <= i < |init| && init[i] == u;
          None
        else
          assert Distinct(urls) by {
            forall i, j | 0 <= i < j < |urls| ensures urls[i] != urls[j] {
              if j < |init| { assert urls[i] == init[i] && urls[j] == init[j]; }
              else { assert urls[i] in init; }
            }
          }
          Some(b[u := net(u).response])
  }

  /** For a batch without repeats, `addAll` succeeds exactly when every fetch is usable. */
  lemma BatchAcceptsIff(urls: seq<Url>, net: Url -> NetOutcome)
    requires Distinct(urls)
    ensures Batch(urls, net).Some? <==> forall u :: u in urls ==> Usable(net(u))
  {
    if forall u :: u in urls ==> Usable(net(u)) {
      forall i | 0 <= i < |urls| ensures Usable(net(urls[i])) {
        assert urls[i] in urls;
      }
    }
  }

  /** The state of Cache Storage: store names in creation order, and each store's entries. */
  datatype Snapshot = Snapshot(names: seq<Name>, stores: map<Name, Store>) {

    predicate Valid() {
      && Distinct(names)
      && (forall n :: n in names ==> n in stores)
      && (forall n :: n in stores ==> n in names)
    }

    /** `caches.open(name)`: an existing store is left as it is; a missing one is created
        empty and comes last in creation order. */
    function Opened(name: Name): (r: Snapshot)
      requires Valid()
      ensures r.Valid()
      ensures name in r.stores && r.stores[name] == (if name in stores then stores[name] else map[])
      ensures forall n :: n != name ==> (n in r.stores <==> n in stores)
      ensures forall n :: n != name && n in stores ==> r.stores[n] == stores[n]
      ensures |names| <= |r.names| && names == r.names[..|names|]
    {
      if name in stores then this
      else
        assert Distinct(names + [name]);
        Snapshot(names + [name], stores[name := map[]])
    }

    /** `caches.delete(n)` for every `n` in `gone`. */
    function Deleted(gone: set<Name>): (r: Snapshot)
      requires Valid()
      ensures r.Valid()
      ensures r.stores.Keys == stores.Keys - gone
      ensures forall n :: n in r.stores ==> r.stores[n] == stores[n]
    {
      Snapshot(FilterOut(names, gone), stores - gone)
    }

    /** `cache.put(url, resp)` on the store `name`. */
    function Stored(name: Name, url: Url, resp: Response): (r: Snapshot)
      requires Valid() && name in stores
      ensures r.Valid() && r.names == names
      ensures r.stores[name] == stores[name][url := resp]
      ensures forall n :: n != name && n in stores ==> r.stores[n] == stores[n]
    {
      Snapshot(names, stores[name := stores[name][url := resp]])
    }

    /** `cache.addAll(urls)` on the store `name`: all of the batch, or nothing. */
    function Added(name: Name, urls: seq<Url>, net: Url -> NetOutcome): (r: Snapshot)
      requires Valid() && name in stores
      ensures r.Valid() && r.names == names
      ensures forall n :: n != name && n in stores ==> r.stores[n] == stores[n]
      ensures Batch(urls, net).None? ==> r == this
    {
      match Batch(urls, net)
      case None => this
      case Some(b) => Snapshot(names, stores[name := stores[name] + b])
    }

    /** `caches.match(url)`, searching every store: a hit is a response some store holds
        under `url`, and a miss means no store holds `url`. */
    function Lookup(url: Url): (r: Option<Response>)
      requires Valid()
      ensures r.Some? ==> Holds(url, r.value)
      ensures r.None? <==> forall n :: n in stores ==> url !in stores[n]
    {
      var r := FirstHit(names, stores, url);
      assert r.Some? ==> Holds(url, r.value) by {
        if r.Some? {
          var i :| 0 <= i < |names| && url in stores[names[i]] && r.value == stores[names[i]][url];
          assert names[i] in stores;
        }
      }
      r
    }

    /** Some store holds `resp` under `url`. */
    predicate Holds(url: Url, resp: Response) {
      exists n :: n in stores && url in stores[n] && stores[n][url] == resp
    }
  }

  /** Deleting in two rounds is deleting once. */
  lemma DeletedTwice(c: Snapshot, g: set<Name>, h: set<Name>)
    requires c.Valid()
    ensures c.Deleted(g).Deleted(h) == c.Deleted(g + h)
  {
    FilterOutTwice(c.names, g, h);
    assert c.stores - g - h == c.stores - (g + h);
  }

  /** Deleting nothing changes nothing. */
  lemma DeletedNothing(c: Snapshot)
    requires c.Valid()
    ensures c.Deleted({}) == c
  {
    FilterOutNothing(c.names);
    assert c.stores - {} == c.stores;
  }

  /** A successful `addAll` leaves the store holding its earlier entries overridden by one
      entry per URL of the batch; a rejected one changes nothing. */
  lemma AddedEntries(c: Snapshot, name: Name, urls: seq<Url>, net: Url -> NetOutcome)
    requires c.Valid() && name in c.stores
    ensures var r := c.Added(name, urls, net);
      && (Batch(urls, net).None? ==> r == c)
      && (Batch(urls, net).Some? ==>
            && r.stores[name].Keys == c.stores[name].Keys + set u | u in urls
            && (forall u :: u in urls ==> r.stores[name][u] == net(u).response)
            && (forall u :: u in c.stores[name] && u !in urls ==> r.stores[name][u] == c.stores[name][u]))
  {
  }

  /** Merging the same entries twice is merging them once. */
  lemma MergedTwice(x: Store, b: Store)
    ensures (x + b) + b == x + b
  {
  }

  /** Adding the same batch a second time changes nothing more. */
  lemma AddedTwice(c: Snapshot, name: Name, urls: seq<Url>, net: Url -> NetOutcome)
    requires c.Valid() && name in c.stores
    ensures c.Added(name, urls, net).Added(name, urls, net) == c.Added(name, urls, net)
  {
    var r := c.Added(name, urls, net);
    match Batch(urls, net) {
      case None =>
      case Some(b) =>
        MergedTwice(c.stores[name], b);
        assert r.stores[name] + b == r.stores[name];
        assert r.stores[name := r.stores[name] + b] == r.stores;
    }
  }

  /** Opening a store and adding a batch to it a second time changes nothing more. */
  lemma OpenedAddedIdempotent(c: Snapshot, name: Name, urls: seq<Url>, net: Url -> NetOutcome)
    requires c.Valid()
    ensures var r := c.Opened(name).Added(name, urls, net);
      r.Opened(name).Added(name, urls, net) == r
  {
    var o := c.Opened(name);
    var r := o.Added(name, urls, net);
    assert r.Opened(name) == r;
    AddedTwice(o, name, urls, net);
  }

  /** The global `caches` object. */
  class Caches {
    var names: seq<Name>
    var stores: map<Name, Store>

    function State(): Snapshot
      reads this
    {
      Snapshot(names, stores)
    }

    predicate Valid()
      reads this
    {
      State().Valid()
    }

    /** An origin with no stores yet. */
    constructor ()
      ensures Valid() && State() == Snapshot([], map[])
    {
      names := [];
      stores := map[];
    }

    /** `caches.keys()`: every store name, in creation order. */
    method Keys() returns (ns: seq<Name>)
      requires Valid()
      ensures Distinct(ns) && forall n :: n in ns <==> n in stores
      ensures ns == names
    {
      ns := names;
    }

    /** `caches.open(name)`. */
    method Open(name: Name)
      requires Valid()
      modifies this
      ensures Valid() && State() == old(State()).Opened(name)
    {
      if name !in stores {
        assert Distinct(names + [name]);
        names := names + [name];
        stores := stores[name := map[]];
      }
    }

    /** `caches.delete(name)`: resolves to whether there was such a store. */
    method Delete(name: Name) returns (existed: bool)
      requires Valid()
      modifies this
      ensures Valid() && State() == old(State()).Deleted({name})
      ensures existed <==> name in old(stores)
    {
      existed := name in stores;
      names := FilterOut(names, {name});
      stores := stores - {name};
    }

    /** `caches.match(url)`: walks the stores in creation order and stops at the first hit. */
    method Match(url: Url) returns (hit: Option<Response>)
      requires Valid()
      ensures hit == State().Lookup(url)
      ensures hit.Some? ==> State().Holds(url, hit.value)
      ensures hit.None? <==> forall n :: n in stores ==> url !in stores[n]
    {
      var i := 0;
      while i < |names|
        invariant 0 <= i <= |names|
        invariant FirstHit(names[i..], stores, url) == FirstHit(names, stores, url)
      {
        var store := stores[names[i]];
        if url in store {
          return Some(store[url]);
        }
        assert names[i..][1..] == names[i + 1..];
        i := i + 1;
      }
      return None;
    }

    /** `cache.put(url, resp)` on the store `name`. */
    method Put(name: Name, url: Url, resp: Response)
      requires Valid() && name in stores
      modifies this
      ensures Valid() && State() == old(State()).Stored(name, url, resp)
    {
      stores := stores[name := stores[name][url := resp]];
    }

    /**
     * `cache.addAll(urls)` on the store `name`: fetches every URL, and writes all the
     * responses only when every fetch gave a usable response and no URL repeats.
     */
    method AddAll(name: Name, urls: seq<Url>, net: Url -> NetOutcome) returns (ok: bool)
      requires Valid() && name in stores
      modifies this
      ensures Valid() && State() == old(State()).Added(name, urls, net)
      ensures ok <==> Batch(urls, net).Some?
    {
      var added: Store := map[];
      var i := 0;
      while i < |urls|
        invariant 0 <= i <= |urls|
        invariant Batch(urls[..i], net) == Some(added)
      {
        var u := urls[i];
        var outcome := net(u);
        assert urls[..i + 1][..i] == urls[..i] && urls[..i + 1][i] == u;
        if u in added || !Usable(outcome) {
          assert Batch(urls[..i + 1], net) == None;
          BatchPrefixRejects(urls, net, i + 1);
          return false;
        }
        added := added[u := outcome.response];
        i := i + 1;
      }
      assert urls[..i] == urls;
      stores := stores[name := stores[name] + added];
      ok := true;
    }
  }

  /** Once a prefix of the batch is rejected, so is the whole batch. */
  lemma BatchPrefixRejects(urls: seq<Url>, net: Url -> NetOutcome, k: nat)
    requires k <= |urls| && Batch(urls[..k], net).None?
    ensures Batch(urls, net).None?
  {
    var p := urls[..k];
    if Distinct(p) {
      var i :| 0 <= i < |p| && !Usable(net(p[i]));
      assert urls[i] == p[i];
    } else {
      var i, j :| 0 <= i < j < |p| && p[i] == p[j];
      assert urls[i] == urls[j];
    }
  }
}
