/**
 * The service worker: on activation it drops every cache but its own two; on a fetch it
 * leaves non-GET requests, the API and the sign-in pages to the browser, serves
 * the framework's static assets cache-first, and everything else network-first with
 * the cache as the offline fallback.
 *
 * A URL is its origin, path and query string: the caches key responses by the whole
 * URL, while the listener's tests read only the path. The network is a parameter:
 * `Some(response)`, or `None` when `fetch` rejects.
 */
module ServiceWorker {
  import opened Wrappers
  import Sorting
  import Text

  const StaticCache: string := "ralph-static-v1"
  const PagesCache: string := "ralph-pages-v1"

  datatype Url = Url(origin: string, pathname: string, search: string)
  datatype Request = Request(httpMethod: string, url: Url)
  datatype Response = Response(status: int, body: string)

  /** `response.ok`: a status from 200 to 299. */
  predicate Ok(r: Response) {
    200 <= r.status <= 299
  }

  /** How a request is handled. */
  datatype Strategy = PassThrough | CacheFirst | NetworkFirst

  predicate Bypassed(path: string) {
    Text.StartsWith(path, "/api/") || Text.StartsWith(path, "/sign-in") || Text.StartsWith(path, "/sign-up")
  }

  predicate IsStaticAsset(path: string) {
    Text.StartsWith(path, "/_next/static/")
  }

  /** The fetch listener's tests, in their order. */
  function Classify(req: Request): (s: Strategy)
    ensures s.PassThrough? <==> req.httpMethod != "GET" || Bypassed(req.url.pathname)
    ensures s.CacheFirst? <==> req.httpMethod == "GET" && IsStaticAsset(req.url.pathname)
    ensures s.NetworkFirst? <==> req.httpMethod == "GET" && !Bypassed(req.url.pathname) && !IsStaticAsset(req.url.pathname)
  {
    StaticNotBypassed(req.url.pathname);
    if req.httpMethod != "GET" then PassThrough
    else if Bypassed(req.url.pathname) then PassThrough
    else if IsStaticAsset(req.url.pathname) then CacheFirst
    else NetworkFirst
  }

  /** No static asset path is also an API or sign-in path, so the order of the tests does not hide one. */
  lemma StaticNotBypassed(path: string)
    ensures IsStaticAsset(path) ==> !Bypassed(path)
  {
    if IsStaticAsset(path) {
      assert path[1] == '_';
    }
  }

  /** The first cache, in creation order, holding a response for `u` (`caches.match`). */
  function MatchIn(names: seq<string>, store: map<string, map<Url, Response>>, u: Url): (r: Option<Response>)
    ensures r.None? <==> forall i :: 0 <= i < |names| ==> names[i] !in store || u !in store[names[i]]
    ensures r.Some? ==> exists i :: 0 <= i < |names| && names[i] in store && u in store[names[i]]
                                    && r.value == store[names[i]][u]
                                    && forall j :: 0 <= j < i ==> names[j] !in store || u !in store[names[j]]
  {
    if names == [] then None
    else if names[0] in store && u in store[names[0]] then Some(store[names[0]][u])
    else
      var r := MatchIn(names[1..], store, u);
      assert forall i :: 1 <= i < |names| ==> names[i] == names[1..][i - 1];
      if r.Some? then
        var i :| 0 <= i < |names| - 1 && names[1..][i] in store && u in store[names[1..][i]]
                 && r.value == store[names[1..][i]][u]
                 && forall j :: 0 <= j < i ==> names[1..][j] !in store || u !in store[names[1..][j]];
        assert names[i + 1] == names[1..][i];
        r
      else
        r
  }

  /** The origin's `CacheStorage`: cache names in creation order, and each cache's responses by URL. */
  class Caches {
    var names: seq<string>
    var store: map<string, map<Url, Response>>

    ghost predicate Valid()
      reads this
    {
      && Sorting.Distinct(names)
      && (forall n :: n in store <==> n in names)
    }

    constructor ()
      ensures Valid() && names == [] && store == map[]
      ensures OnlyCurrent(names) && StaticHoldsAssets(store)
    {
      names, store := [], map[];
    }

    function Match(u: Url): Option<Response>
      reads this
    {
      MatchIn(names, store, u)
    }

    /** `caches.open(name)`: creates the cache, empty and last in order, unless it exists. */
    method Open(name: string)
      requires Valid()
      modifies this
      ensures Valid()
      ensures name in old(store) ==> names == old(names) && store == old(store)
      ensures name !in old(store) ==> names == old(names) + [name] && store == old(store)[name := map[]]
    {
      if name !in store {
        names := names + [name];
        store := store[name := map[]];
      }
    }

    /** `cache.put(request, response)` on an open cache: the response replaces any earlier one for that URL. */
    method Put(name: string, u: Url, r: Response)
      requires Valid() && name in store
      modifies this
      ensures Valid()
      ensures names == old(names) && store == old(store)[name := old(store)[name][u := r]]
    {
      store := store[name := store[name][u := r]];
    }

    /** `caches.delete(name)`: the cache and its name go away; the others keep their order. */
    method Delete(name: string)
      requires Valid()
      modifies this
      ensures Valid()
      ensures names == Without(old(names), name)
      ensures store == old(store) - {name}
    {
      Sorting.FilterDistinct(names, n => n != name);
      names := Without(names, name);
      store := store - {name};
    }

    /**
     * The activate listener: every cache whose name is not one of the two current ones is
     * deleted, one after the other.
     */
    method Activate()
      requires Valid()
      modifies this
      ensures Valid()
      ensures forall n :: n in store <==> n in old(store) && (n == StaticCache || n == PagesCache)
      ensures forall n :: n in store ==> store[n] == old(store)[n]
      ensures OnlyCurrent(names)
      ensures StaticHoldsAssets(old(store)) ==> StaticHoldsAssets(store)
    {
      var stale := Stale(names);
      ghost var gone: set<string> := {};
      var k := 0;
      while k < |stale|
        invariant Valid()
        invariant 0 <= k <= |stale|
        invariant store == old(store) - gone
        invariant forall n :: n in gone ==> n in stale
        invariant forall i :: 0 <= i < k ==> stale[i] in gone
      {
        Delete(stale[k]);
        gone := gone + {stale[k]};
        k := k + 1;
      }
      forall i | 0 <= i < |names| ensures names[i] == StaticCache || names[i] == PagesCache {
        assert names[i] in store;
      }
    }
  }

  /** The names the activate listener deletes: `keys.filter(key => key !== STATIC && key !== PAGES)`. */
  function Stale(names: seq<string>): (s: seq<string>)
    ensures forall n :: n in s <==> n in names && n != StaticCache && n != PagesCache
  {
    Sorting.Filter(names, n => n != StaticCache && n != PagesCache)
  }

  function Without(names: seq<string>, name: string): (s: seq<string>)
    ensures forall n :: n in s <==> n in names && n != name
  {
    Sorting.Filter(names, n => n != name)
  }

  /** Only the worker's own two caches exist, as after activation. */
  predicate OnlyCurrent(names: seq<string>) {
    forall i :: 0 <= i < |names| ==> names[i] == StaticCache || names[i] == PagesCache
  }

  /** The static cache holds nothing but framework assets. */
  predicate StaticHoldsAssets(store: map<string, map<Url, Response>>) {
    StaticCache in store ==> forall v :: v in store[StaticCache] ==> IsStaticAsset(v.pathname)
  }

  /** What the page gets: the browser's own handling, a response, or a network error. */
  datatype Outcome = Unhandled | Respond(response: Response) | NetworkError

  /**
   * The fetch listener. Cache-first: a cached response is returned without going to the
   * network; on a miss the network's response is stored whatever its status and returned.
   * Network-first: the network's response is returned, and stored when it is ok; if the
   * network fails, the first cached response for the URL in any cache, if there is one.
   */
  method HandleFetch(caches: Caches, req: Request, network: Option<Response>) returns (out: Outcome)
    requires caches.Valid()
    modifies caches
    ensures caches.Valid()
    ensures Classify(req).PassThrough? ==> out.Unhandled? && caches.names == old(caches.names) && caches.store == old(caches.store)
    ensures Classify(req).CacheFirst? ==>
              var cached := if StaticCache in old(caches.store) && req.url in old(caches.store)[StaticCache]
                            then Some(old(caches.store)[StaticCache][req.url]) else None;
              var current := if StaticCache in old(caches.store) then old(caches.store)[StaticCache] else map[];
              && caches.names == old(caches.names) + (if StaticCache in old(caches.store) then [] else [StaticCache])
              && caches.store.Keys == old(caches.store).Keys + {StaticCache}
              && (forall n :: n in old(caches.store) && n != StaticCache ==> caches.store[n] == old(caches.store)[n])
              && (cached.Some? ==> out == Respond(cached.value) && caches.store[StaticCache] == current)
              && (cached.None? && network.Some? ==> out == Respond(network.value)
                                                    && caches.store[StaticCache] == current[req.url := network.value])
              && (cached.None? && network.None? ==> out.NetworkError? && caches.store[StaticCache] == current)
    ensures Classify(req).NetworkFirst? && network.Some? ==>
              && out == Respond(network.value)
              && (Ok(network.value) ==>
                    && caches.names == old(caches.names) + (if PagesCache in old(caches.store) then [] else [PagesCache])
                    && caches.store.Keys == old(caches.store).Keys + {PagesCache}
                    && caches.store[PagesCache]
                       == (if PagesCache in old(caches.store) then old(caches.store)[PagesCache] else map[])[req.url := network.value]
                    && forall n :: n in old(caches.store) && n != PagesCache ==> caches.store[n] == old(caches.store)[n])
              && (!Ok(network.value) ==> caches.names == old(caches.names) && caches.store == old(caches.store))
    ensures Classify(req).NetworkFirst? && network.None? ==>
              && caches.names == old(caches.names) && caches.store == old(caches.store)
              && out == (match old(caches.Match(req.url)) case Some(r) => Respond(r) case None => NetworkError)
    ensures Classify(req).NetworkFirst? && network.None?
            && OnlyCurrent(old(caches.names)) && StaticHoldsAssets(old(caches.store))
            && PagesCache in old(caches.store) && req.url in old(caches.store)[PagesCache]
            ==> out == Respond(old(caches.store)[PagesCache][req.url])
    ensures OnlyCurrent(old(caches.names)) ==> OnlyCurrent(caches.names)
    ensures StaticHoldsAssets(old(caches.store)) ==> StaticHoldsAssets(caches.store)
  {
    var strategy := Classify(req);
    if strategy.PassThrough? {
      return Unhandled;
    }
    if strategy.CacheFirst? {
      caches.Open(StaticCache);
      if req.url in caches.store[StaticCache] {
        return Respond(caches.store[StaticCache][req.url]);
      }
      if network.None? {
        return NetworkError;
      }
      caches.Put(StaticCache, req.url, network.value);
      return Respond(network.value);
    }
    if network.None? {
      if OnlyCurrent(caches.names) && StaticHoldsAssets(caches.store) && PagesCache in caches.store && req.url in caches.store[PagesCache] {
        OfflinePageComesFromPagesCache(caches.names, caches.store, req.url);
      }
      var m := caches.Match(req.url);
      return if m.Some? then Respond(m.value) else NetworkError;
    }
    if Ok(network.value) {
      caches.Open(PagesCache);
      caches.Put(PagesCache, req.url, network.value);
    }
    out := Respond(network.value);
  }

  /**
   * While only the two caches exist and the static cache holds only static assets (as
   * `Activate` and `HandleFetch` keep it), an offline page request is answered with the
   * copy the pages cache keeps of it.
   */
  lemma OfflinePageComesFromPagesCache(names: seq<string>, store: map<string, map<Url, Response>>, u: Url)
    requires OnlyCurrent(names) && StaticHoldsAssets(store)
    requires !IsStaticAsset(u.pathname)
    requires PagesCache in names && PagesCache in store && u in store[PagesCache]
    ensures MatchIn(names, store, u) == Some(store[PagesCache][u])
  {
    var r := MatchIn(names, store, u);
    var p :| 0 <= p < |names| && names[p] == PagesCache;
    assert r.Some?;
    var i :| 0 <= i < |names| && names[i] in store && u in store[names[i]] && r.value == store[names[i]][u];
    assert names[i] != StaticCache;
  }
}
