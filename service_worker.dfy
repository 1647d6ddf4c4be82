/**
 * The service worker (public/sw.js): API requests always go to the network,
 * everything else is answered from the caches first, and activation deletes
 * every cache of an older version. The caches are a sequence in creation
 * order, as `caches.match` searches them; the network's answer is an input.
 */
module ServiceWorker {
  import opened JsBuiltins

  const CacheName: string := "merlin-gallery-v2"
  const StaticCache: string := "merlin-static-v2"
  const ApiPrefix: string := "/api/"

  /** `Response.type` */
  datatype ResponseType = Basic | Cors | Default | Error | Opaque | OpaqueRedirect

  /** A body: bytes from the network, or one of the two bodies the worker makes itself. */
  datatype Body = Bytes(data: seq<bv8>) | Json(text: string) | OfflinePage

  datatype Response = Response(status: int, rtype: ResponseType, contentType: string, body: Body)

  /** A request: its URL, the pathname of that URL, and its `destination`. */
  datatype Request = Request(url: string, pathname: string, destination: string)

  /** The answer when the API cannot be reached: an empty gallery. */
  const ApiFallback: Response := Response(200, Default, "application/json", Json("{\"finished\":[],\"wip\":[]}"))

  /** The page served when a document cannot be fetched; it reloads itself. */
  const OfflineFallback: Response := Response(200, Default, "text/html", OfflinePage)

  predicate IsApiRequest(req: Request) {
    StartsWith(req.pathname, ApiPrefix)
  }

  /** Only a complete same-origin response is stored. */
  predicate Cacheable(resp: Response) {
    resp.status == 200 && resp.rtype == Basic
  }

  datatype NamedCache = NamedCache(name: string, entries: map<string, Response>)

  function Names(caches: seq<NamedCache>): seq<string> {
    seq(|caches|, i requires 0 <= i < |caches| => caches[i].name)
  }

  predicate DistinctNames(caches: seq<NamedCache>) {
    forall i, j :: 0 <= i < j < |caches| ==> caches[i].name != caches[j].name
  }

  predicate HasCache(caches: seq<NamedCache>, name: string) {
    exists i :: 0 <= i < |caches| && caches[i].name == name
  }

  /** `caches.match(url)`: the entry of the first cache that holds the URL. */
  function Match(caches: seq<NamedCache>, url: string): (r: Option<Response>)
    ensures r.None? <==> forall i :: 0 <= i < |caches| ==> url !in caches[i].entries
    ensures r.Some? ==> exists i :: 0 <= i < |caches| && url in caches[i].entries && caches[i].entries[url] == r.value
  {
    if caches == [] then None
    else if url in caches[0].entries then Some(caches[0].entries[url])
    else
      var r := Match(caches[1..], url);
      assert forall i :: 1 <= i < |caches| ==> caches[1..][i - 1] == caches[i];
      r
  }

  /** `caches.open(name)` followed by `cache.put(url, resp)`: the cache is created when missing. */
  function PutInto(caches: seq<NamedCache>, name: string, url: string, resp: Response): (r: seq<NamedCache>)
    ensures |r| >= |caches|
    ensures forall c :: c in r ==> c.name == name || c in caches
  {
    if caches == [] then [NamedCache(name, map[url := resp])]
    else if caches[0].name == name then [caches[0].(entries := caches[0].entries[url := resp])] + caches[1..]
    else
      [caches[0]] + PutInto(caches[1..], name, url, resp)
  }

  /** After a miss, a stored response is what the next lookup of that URL finds. */
  lemma {:induction false} PutAfterMissHits(caches: seq<NamedCache>, name: string, url: string, resp: Response)
    requires Match(caches, url).None?
    ensures Match(PutInto(caches, name, url, resp), url) == Some(resp)
  {
    if caches != [] && caches[0].name != name {
      assert Match(caches[1..], url).None?;
      PutAfterMissHits(caches[1..], name, url, resp);
    }
  }

  /** Storing a response does not change what is found for any other URL. */
  lemma {:induction false} PutKeepsOtherUrls(caches: seq<NamedCache>, name: string, url: string, resp: Response, other: string)
    requires other != url
    ensures Match(PutInto(caches, name, url, resp), other) == Match(caches, other)
  {
    if caches != [] && caches[0].name != name {
      PutKeepsOtherUrls(caches[1..], name, url, resp, other);
    }
  }

  /** The caches activation keeps. */
  predicate IsKept(c: NamedCache) {
    c.name == CacheName || c.name == StaticCache
  }

  /** The test `cacheName !== name`. */
  function NameIsNot(name: string): NamedCache -> bool {
    (c: NamedCache) => c.name != name
  }

  /** `caches.delete(name)` */
  function Delete(caches: seq<NamedCache>, name: string): seq<NamedCache> {
    Filter(caches, NameIsNot(name))
  }

  /** Deleting the one cache with a name leaves the others in order. */
  lemma DeleteOnly(before: seq<NamedCache>, c: NamedCache, after: seq<NamedCache>)
    requires forall i :: 0 <= i < |before| ==> before[i].name != c.name
    requires forall i :: 0 <= i < |after| ==> after[i].name != c.name
    ensures Delete(before + [c] + after, c.name) == before + after
  {
    var p := NameIsNot(c.name);
    var whole := before + [c] + after;
    FilterConcat(before + [c], after, p);
    FilterConcat(before, [c], p);
    FilterAll(before, p);
    FilterAll(after, p);
    assert Filter([c], p) == [] by {
      assert !p(c);
      assert [c][1..] == [];
    }
    calc {
      Delete(whole, c.name);
      Filter(whole, p);
      Filter(before + [c], p) + Filter(after, p);
      Filter(before, p) + Filter([c], p) + Filter(after, p);
      { assert before + [] == before; }
      before + after;
    }
  }

  class CacheStorage {
    var caches: seq<NamedCache>

    ghost predicate Valid()
      reads this
    {
      DistinctNames(caches)
    }

    constructor (caches: seq<NamedCache>)
      requires DistinctNames(caches)
      ensures Valid() && this.caches == caches
    {
      this.caches := caches;
    }

    /**
     * The fetch handler. `network` is what `fetch(request)` gives, None when it
     * rejects. Returns the response handed to the page (None: the page sees a
     * network error) and whether the network was used.
     */
    method HandleFetch(req: Request, network: Option<Response>) returns (resp: Option<Response>, fetched: bool)
      requires Valid()
      modifies this
      ensures Valid()
      ensures IsApiRequest(req) ==>
        && fetched && caches == old(caches)
        && resp == Some(if network.Some? then network.value else ApiFallback)
      ensures !IsApiRequest(req) && Match(old(caches), req.url).Some? ==>
        !fetched && resp == Match(old(caches), req.url) && caches == old(caches)
      ensures !IsApiRequest(req) && Match(old(caches), req.url).None? && network.Some? ==>
        && fetched && resp == network
        && caches == if Cacheable(network.value) then PutInto(old(caches), StaticCache, req.url, network.value)
                     else old(caches)
      ensures !IsApiRequest(req) && Match(old(caches), req.url).None? && network.None? ==>
        && fetched && caches == old(caches)
        && resp == if req.destination == "document" then Some(OfflineFallback) else None
    {
      if IsApiRequest(req) {
        fetched := true;
        resp := Some(if network.Some? then network.value else ApiFallback);
        return;
      }
      var hit := Match(caches, req.url);
      if hit.Some? {
        return hit, false;
      }
      fetched := true;
      match network {
        case Some(r) =>
          if Cacheable(r) {
            PutIntoKeepsDistinct(caches, StaticCache, req.url, r);
            caches := PutInto(caches, StaticCache, req.url, r);
          }
          resp := Some(r);
        case None =>
          resp := if req.destination == "document" then Some(OfflineFallback) else None;
      }
    }

    /** The activate handler: delete, one by one, every cache whose name is not kept. */
    method Activate()
      requires Valid()
      modifies this
      ensures Valid()
      ensures caches == Filter(old(caches), IsKept)
    {
      var names := Names(caches);
      ghost var initial := caches;
      var i := 0;
      assert initial[..0] == [] && initial[0..] == initial;
      while i < |names|
        invariant 0 <= i <= |names| == |initial|
        invariant forall k :: 0 <= k < |initial| ==> names[k] == initial[k].name
        invariant caches == Filter(initial[..i], IsKept) + initial[i..]
      {
        ActivateStep(initial, i);
        assert names[i] == initial[i].name;
        if names[i] != CacheName && names[i] != StaticCache {
          caches := Delete(caches, names[i]);
        }
        assert caches == Filter(initial[..i + 1], IsKept) + initial[i + 1..];
        i := i + 1;
      }
      assert initial[..i] == initial;
      FilterKeepsDistinct(initial);
    }
  }

  /** One turn of the activation loop: the cache at position `i` is deleted unless kept. */
  lemma ActivateStep(initial: seq<NamedCache>, i: int)
    requires DistinctNames(initial) && 0 <= i < |initial|
    ensures var now := Filter(initial[..i], IsKept) + initial[i..];
      Filter(initial[..i + 1], IsKept) + initial[i + 1..] ==
        if IsKept(initial[i]) then now else Delete(now, initial[i].name)
  {
    var c := initial[i];
    assert initial[..i + 1] == initial[..i] + [c];
    assert initial[i..] == [c] + initial[i + 1..];
    FilterConcat(initial[..i], [c], IsKept);
    assert [c][1..] == [];
    if IsKept(c) {
      assert Filter([c], IsKept) == [c];
    } else {
      assert Filter([c], IsKept) == [];
      DeleteStep(initial, i);
    }
  }

  /** The turn that deletes: the cache at `i` is the only one with its name. */
  lemma DeleteStep(initial: seq<NamedCache>, i: int)
    requires DistinctNames(initial) && 0 <= i < |initial|
    ensures var kept := Filter(initial[..i], IsKept);
      Delete(kept + initial[i..], initial[i].name) == kept + initial[i + 1..]
  {
    var kept := Filter(initial[..i], IsKept);
    var c := initial[i];
    var after := initial[i + 1..];
    forall k | 0 <= k < |kept| ensures kept[k].name != c.name {
      FilterHas(initial[..i], IsKept, kept[k]);
      var m :| 0 <= m < i && initial[..i][m] == kept[k];
      assert initial[m] == kept[k];
    }
    forall k | 0 <= k < |after| ensures after[k].name != c.name {
      assert after[k] == initial[i + 1 + k];
    }
    DeleteOnly(kept, c, after);
    assert initial[i..] == [c] + after;
    assert kept + [c] + after == kept + initial[i..];
  }

  lemma {:induction false} PutIntoKeepsDistinct(caches: seq<NamedCache>, name: string, url: string, resp: Response)
    requires DistinctNames(caches)
    ensures DistinctNames(PutInto(caches, name, url, resp))
  {
    if caches != [] && caches[0].name != name {
      var tail := caches[1..];
      assert DistinctNames(tail) by {
        forall i, j | 0 <= i < j < |tail| ensures tail[i].name != tail[j].name {
          assert tail[i] == caches[i + 1] && tail[j] == caches[j + 1];
        }
      }
      PutIntoKeepsDistinct(tail, name, url, resp);
      var rest := PutInto(tail, name, url, resp);
      forall k | 0 <= k < |rest| ensures rest[k].name != caches[0].name {
        if rest[k].name != name {
          assert rest[k] in tail;
          var m :| 0 <= m < |tail| && tail[m] == rest[k];
          assert caches[m + 1] == rest[k];
        }
      }
      var r := [caches[0]] + rest;
      forall i, j | 0 <= i < j < |r| ensures r[i].name != r[j].name {
        if i > 0 {
          assert r[i] == rest[i - 1] && r[j] == rest[j - 1];
        } else {
          assert r[j] == rest[j - 1];
        }
      }
    }
  }

  lemma {:induction false} FilterKeepsDistinct(caches: seq<NamedCache>)
    requires DistinctNames(caches)
    ensures DistinctNames(Filter(caches, IsKept))
  {
    if caches != [] {
      FilterKeepsDistinct(caches[1..]);
      var rest := Filter(caches[1..], IsKept);
      forall k | 0 <= k < |rest| ensures rest[k].name != caches[0].name {
        FilterHas(caches[1..], IsKept, rest[k]);
      }
    }
  }

  /** After activation only the current caches are left, each one kept if it was there. */
  lemma ActivationKeepsCurrent(caches: seq<NamedCache>, c: NamedCache)
    ensures c in Filter(caches, IsKept) <==> c in caches && (c.name == CacheName || c.name == StaticCache)
  {
    FilterHas(caches, IsKept, c);
  }
}
