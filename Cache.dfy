// The offline cache of the Clarity service worker: the origin's CacheStorage
// (named caches in creation order, each mapping a request URL to a stored
// response), the three lifecycle steps the worker performs on it (install,
// activate, fetch) as pure functions, and what they guarantee.

module Cache {
  import opened Wrappers

  /** The `type` of a fetched response; `Error` is a network-error response. */
  datatype ResponseType = Basic | Cors | Default | Error | Opaque | OpaqueRedirect

  /** A response; its body is carried as text and never inspected. */
  datatype Response = Response(status: int, rtype: ResponseType, body: string)

  datatype Request = Request(verb: string, url: string)

  /** What the network gives for one `fetch`: a response, or a rejected
      promise (offline, DNS failure, ...). */
  datatype NetOutcome = Fetched(response: Response) | NetworkFailure

  /** One named cache: request URL to stored response. */
  datatype Bucket = Bucket(name: string, entries: map<string, Response>)

  /** CacheStorage: the named caches in the order they were created, which is
      the order `caches.match` searches them in. */
  type Store = seq<Bucket>

  /** What the fetch handler does with a request: leave it to the browser, or
      answer it with a response (None: the promise resolves to `undefined`,
      which the page sees as a failed fetch). */
  datatype FetchResult = NotHandled | Respond(response: Option<Response>)

  datatype FetchStep = FetchStep(result: FetchResult, store: Store)

  const CacheName: string := "clarity-v1"
  const ShellUrls: seq<string> := ["/", "/index.html", "/manifest.json"]
  const OfflinePage: string := "/index.html"

  // ---------------------------------------------------------------------------
  // CacheStorage operations

  predicate HasCache(store: Store, name: string) {
    exists i :: 0 <= i < |store| && store[i].name == name
  }

  predicate DistinctNames(store: Store) {
    forall i, j :: 0 <= i < j < |store| ==> store[i].name != store[j].name
  }

  /** `caches.match(key)`: the entry of the first cache, in creation order,
      that holds the key. */
  function Match(store: Store, key: string): (r: Option<Response>)
    ensures r.None? <==> forall i :: 0 <= i < |store| ==> key !in store[i].entries
    ensures r.Some? ==> exists i :: 0 <= i < |store| && key in store[i].entries && r.value == store[i].entries[key] &&
                                    forall k :: 0 <= k < i ==> key !in store[k].entries
  {
    if store == [] then None
    else if key in store[0].entries then Some(store[0].entries[key])
    else
      var r := Match(store[1..], key);
      assert forall i :: 1 <= i < |store| ==> store[i] == store[1..][i - 1];
      r
  }

  /** `caches.open(name)`: creates an empty cache of that name at the end
      when there is none; the store is otherwise unchanged. */
  function Open(store: Store, name: string): (r: Store)
    ensures HasCache(r, name)
    ensures |store| <= |r| <= |store| + 1 && r[..|store|] == store
    ensures HasCache(store, name) ==> r == store
    ensures !HasCache(store, name) ==> r[|store|] == Bucket(name, map[])
    ensures DistinctNames(store) ==> DistinctNames(r)
  {
    if HasCache(store, name) then store
    else
      var r := store + [Bucket(name, map[])];
      assert r[|store|].name == name;
      r
  }

  /** The two stores hold caches of the same names in the same order. */
  predicate SameNames(a: Store, b: Store) {
    |a| == |b| && forall i :: 0 <= i < |a| ==> a[i].name == b[i].name
  }

  lemma SameNamesAgree(a: Store, b: Store, name: string)
    requires SameNames(a, b)
    ensures HasCache(a, name) <==> HasCache(b, name)
    ensures DistinctNames(a) <==> DistinctNames(b)
  {
    if HasCache(a, name) {
      var i :| 0 <= i < |a| && a[i].name == name;
      assert b[i].name == name;
    }
    if HasCache(b, name) {
      var i :| 0 <= i < |b| && b[i].name == name;
      assert a[i].name == name;
    }
  }

  /** Stores `resp` under `key` in every cache called `name`. */
  function SetEntry(store: Store, name: string, key: string, resp: Response): (r: Store)
    ensures |r| == |store|
    ensures SameNames(store, r)
    ensures forall i :: 0 <= i < |store| ==>
              r[i] == if store[i].name == name then store[i].(entries := store[i].entries[key := resp]) else store[i]
  {
    if store == [] then []
    else
      [if store[0].name == name then store[0].(entries := store[0].entries[key := resp]) else store[0]] +
      SetEntry(store[1..], name, key, resp)
  }

  /** `caches.open(name).then(cache => cache.put(key, resp))`. */
  function Put(store: Store, name: string, key: string, resp: Response): Store {
    SetEntry(Open(store, name), name, key, resp)
  }

  /** The caches for which `keep` holds, in their original order. */
  function Filter(store: Store, keep: Bucket -> bool): (r: Store)
    ensures |r| <= |store|
    ensures forall b :: b in r <==> b in store && keep(b)
  {
    if store == [] then []
    else (if keep(store[0]) then [store[0]] else []) + Filter(store[1..], keep)
  }

  lemma {:induction false} FilterPreservesDistinct(store: Store, keep: Bucket -> bool)
    ensures DistinctNames(store) ==> DistinctNames(Filter(store, keep))
  {
    if store != [] && DistinctNames(store) {
      FilterPreservesDistinct(store[1..], keep);
      var tail := Filter(store[1..], keep);
      forall j | 0 <= j < |tail| ensures tail[j].name != store[0].name {
        assert tail[j] in store[1..];
      }
    }
  }

  /** Filtering keeps the caches in their order: it distributes over concatenation. */
  lemma {:induction false} FilterAppend(a: Store, b: Store, keep: Bucket -> bool)
    ensures Filter(a + b, keep) == Filter(a, keep) + Filter(b, keep)
  {
    if a == [] {
      assert a + b == b;
    } else {
      var head := if keep(a[0]) then [a[0]] else [];
      assert (a + b)[0] == a[0] && (a + b)[1..] == a[1..] + b;
      assert Filter(a + b, keep) == head + Filter(a[1..] + b, keep);
      FilterAppend(a[1..], b, keep);
      assert Filter(a, keep) == head + Filter(a[1..], keep);
    }
  }

  /** Two tests that agree on every cache select the same caches. */
  lemma {:induction false} FilterAgree(store: Store, p: Bucket -> bool, q: Bucket -> bool)
    requires forall i :: 0 <= i < |store| ==> p(store[i]) == q(store[i])
    ensures Filter(store, p) == Filter(store, q)
  {
    if store != [] {
      FilterAgree(store[1..], p, q);
    }
  }

  /** A test every cache passes selects them all. */
  lemma {:induction false} FilterAll(store: Store, keep: Bucket -> bool)
    requires forall i :: 0 <= i < |store| ==> keep(store[i])
    ensures Filter(store, keep) == store
  {
    if store != [] {
      FilterAll(store[1..], keep);
    }
  }

  /** Filtering by `p` and then by `q` is filtering by their conjunction `pq`. */
  lemma {:induction false} FilterFilter(store: Store, p: Bucket -> bool, q: Bucket -> bool, pq: Bucket -> bool)
    requires forall i :: 0 <= i < |store| ==> pq(store[i]) == (p(store[i]) && q(store[i]))
    ensures Filter(Filter(store, p), q) == Filter(store, pq)
  {
    if store != [] {
      FilterFilter(store[1..], p, q, pq);
      var rest := Filter(store[1..], p);
      if p(store[0]) {
        assert Filter(store, p) == [store[0]] + rest;
        assert ([store[0]] + rest)[1..] == rest;
      } else {
        assert Filter(store, p) == rest;
      }
    }
  }

  function Except(name: string): Bucket -> bool {
    (b: Bucket) => b.name != name
  }

  /** `caches.delete(name)`: the cache of that name disappears. */
  function Delete(store: Store, name: string): Store {
    Filter(store, Except(name))
  }

  // ---------------------------------------------------------------------------
  // install

  /** `cache.addAll` succeeds only when every fetch gives a response whose
      status is ok (200-299), is not a partial response (206) and is not a
      network error; otherwise it rejects and stores nothing. */
  predicate Storable(o: NetOutcome) {
    o.Fetched? && 200 <= o.response.status <= 299 && o.response.status != 206 && o.response.rtype != Error
  }

  predicate AddAllSucceeds(network: string -> NetOutcome, urls: seq<string>) {
    forall i :: 0 <= i < |urls| ==> Storable(network(urls[i]))
  }

  /** The entries `addAll(urls)` stores. */
  function Added(network: string -> NetOutcome, urls: seq<string>): map<string, Response>
    requires AddAllSucceeds(network, urls)
  {
    map u | u in urls :: network(u).response
  }

  /** Each listed URL is stored with the response fetched for it. */
  lemma AddedHas(network: string -> NetOutcome, urls: seq<string>, u: string)
    requires AddAllSucceeds(network, urls) && u in urls
    ensures u in Added(network, urls) && Added(network, urls)[u] == network(u).response
  {
  }

  /** Storing the first URL and then the rest is storing them all. */
  lemma AddedFirst(m: map<string, Response>, network: string -> NetOutcome, urls: seq<string>)
    requires AddAllSucceeds(network, urls) && urls != []
    ensures AddAllSucceeds(network, urls[1..])
    ensures m[urls[0] := network(urls[0]).response] + Added(network, urls[1..]) == m + Added(network, urls)
  {
    assert forall i :: 0 <= i < |urls| - 1 ==> urls[1..][i] == urls[i + 1];
    var lhs := m[urls[0] := network(urls[0]).response] + Added(network, urls[1..]);
    var rhs := m + Added(network, urls);
    assert forall k :: k in urls <==> k == urls[0] || k in urls[1..];
    assert lhs.Keys == rhs.Keys;
    forall k | k in lhs ensures lhs[k] == rhs[k] {
      if k in urls {
        assert k in Added(network, urls);
      }
    }
  }

  /** The batch `cache.addAll(urls)` on every cache called `name`: each of them
      gains exactly the fetched entries, other caches are unchanged. */
  function PutAll(store: Store, name: string, urls: seq<string>, network: string -> NetOutcome): (r: Store)
    requires AddAllSucceeds(network, urls)
    ensures |r| == |store|
    ensures SameNames(store, r)
    ensures forall i :: 0 <= i < |store| ==>
              r[i] == if store[i].name == name then store[i].(entries := store[i].entries + Added(network, urls)) else store[i]
    decreases |urls|
  {
    if urls == [] then
      assert forall i :: 0 <= i < |store| ==> store[i].entries + Added(network, urls) == store[i].entries;
      store
    else
      var u := urls[0];
      assert forall i :: 0 <= i < |urls| - 1 ==> urls[1..][i] == urls[i + 1];
      var rest := PutAll(SetEntry(store, name, u, network(u).response), name, urls[1..], network);
      forall i | 0 <= i < |store|
        ensures store[i].entries[u := network(u).response] + Added(network, urls[1..]) == store[i].entries + Added(network, urls)
      {
        AddedFirst(store[i].entries, network, urls);
      }
      rest
  }

  /** The install step: open the versioned cache, then try to add the app
      shell. A rejected `addAll` is caught and logged, so install always
      completes; the cache then keeps what it held. */
  function Install(store: Store, network: string -> NetOutcome): (r: Store)
    ensures HasCache(r, CacheName)
    ensures DistinctNames(store) ==> DistinctNames(r)
    ensures |r| == if HasCache(store, CacheName) then |store| else |store| + 1
    ensures forall i :: 0 <= i < |store| ==>
              r[i].name == store[i].name &&
              r[i].entries == if store[i].name == CacheName && AddAllSucceeds(network, ShellUrls)
                              then store[i].entries + Added(network, ShellUrls)
                              else store[i].entries
    ensures !HasCache(store, CacheName) ==>
              r[|store|] == Bucket(CacheName, if AddAllSucceeds(network, ShellUrls) then Added(network, ShellUrls) else map[])
  {
    var withCache := Open(store, CacheName);
    OpenKeepsPrefix(store, withCache, CacheName);
    if AddAllSucceeds(network, ShellUrls) then
      var r := PutAll(withCache, CacheName, ShellUrls, network);
      SameNamesAgree(withCache, r, CacheName);
      InstallAccepted(store, withCache, r, network);
      r
    else withCache
  }

  /** Opening a cache keeps every existing cache at its position. */
  lemma OpenKeepsPrefix(store: Store, result: Store, name: string)
    requires result == Open(store, name)
    ensures forall i :: 0 <= i < |store| ==> result[i] == store[i]
  {
    assert forall i :: 0 <= i < |store| ==> result[i] == result[..|store|][i];
  }

  /** The store after an accepted `addAll`, cache by cache. */
  lemma InstallAccepted(store: Store, withCache: Store, r: Store, network: string -> NetOutcome)
    requires AddAllSucceeds(network, ShellUrls)
    requires withCache == Open(store, CacheName)
    requires r == PutAll(withCache, CacheName, ShellUrls, network)
    ensures |r| == |withCache|
    ensures forall i :: 0 <= i < |store| ==>
              r[i].name == store[i].name &&
              r[i].entries == if store[i].name == CacheName then store[i].entries + Added(network, ShellUrls) else store[i].entries
    ensures !HasCache(store, CacheName) ==> r[|store|] == Bucket(CacheName, Added(network, ShellUrls))
  {
    OpenKeepsPrefix(store, withCache, CacheName);
    if !HasCache(store, CacheName) {
      NewCacheGainsAdded(withCache[|store|], r[|store|], Added(network, ShellUrls));
    }
  }

  /** An empty cache named `clarity-v1` that gains `added` holds exactly `added`. */
  lemma NewCacheGainsAdded(b: Bucket, after: Bucket, added: map<string, Response>)
    requires b == Bucket(CacheName, map[])
    requires after == b.(entries := b.entries + added)
    ensures after == Bucket(CacheName, added)
  {
    assert b.entries + added == added;
  }

  /** Install touches no cache but the versioned one, and removes none. */
  lemma InstallKeepsOtherCaches(store: Store, network: string -> NetOutcome)
    ensures var r := Install(store, network);
            |r| >= |store| && forall i :: 0 <= i < |store| && store[i].name != CacheName ==> r[i] == store[i]
  {
    var withCache := Open(store, CacheName);
    assert forall i :: 0 <= i < |store| ==> withCache[i] == withCache[..|store|][i] == store[i];
  }

  /** When `addAll` rejects, install stores nothing: every cache keeps its
      entries and a newly opened one stays empty. */
  lemma InstallRejectedStoresNothing(store: Store, network: string -> NetOutcome)
    requires !AddAllSucceeds(network, ShellUrls)
    ensures var r := Install(store, network);
            forall i :: 0 <= i < |r| ==> r[i].entries == if i < |store| then store[i].entries else map[]
  {
    var withCache := Open(store, CacheName);
    assert forall i :: 0 <= i < |store| ==> withCache[i] == withCache[..|store|][i] == store[i];
  }

  // ---------------------------------------------------------------------------
  // activate

  predicate IsCurrent(b: Bucket) {
    b.name == CacheName
  }

  /** The activate step's outcome: only the caches named `clarity-v1` remain. */
  function Activate(store: Store): (r: Store)
    ensures forall b :: b in r <==> b in store && b.name == CacheName
    ensures DistinctNames(store) ==> DistinctNames(r)
  {
    FilterPreservesDistinct(store, IsCurrent);
    Filter(store, IsCurrent)
  }

  /** Activating twice is activating once. */
  lemma ActivateIdempotent(store: Store)
    ensures Activate(Activate(store)) == Activate(store)
  {
    FilterFilter(store, IsCurrent, IsCurrent, IsCurrent);
  }

  /** The caches left after deleting, one by one, every stale name among
      `deleted` (a prefix of the names `caches.keys()` listed). */
  function SurvivesDeletion(deleted: seq<string>): Bucket -> bool {
    (b: Bucket) => b.name == CacheName || b.name !in deleted
  }

  function Names(store: Store): (r: seq<string>)
    ensures |r| == |store| && forall i :: 0 <= i < |store| ==> r[i] == store[i].name
  {
    seq(|store|, i requires 0 <= i < |store| => store[i].name)
  }

  /** Before the loop nothing has been deleted. */
  lemma NoneDeletedYet(store: Store, names: seq<string>)
    ensures Filter(store, SurvivesDeletion(names[..0])) == store
  {
    FilterAll(store, SurvivesDeletion(names[..0]));
  }

  /** One more iteration of activate's loop over the listed names: the next
      name is deleted unless it is the versioned cache's. */
  lemma DeleteNextName(store: Store, names: seq<string>, i: nat)
    requires i < |names|
    ensures names[i] != CacheName ==>
              Delete(Filter(store, SurvivesDeletion(names[..i])), names[i]) == Filter(store, SurvivesDeletion(names[..i + 1]))
    ensures names[i] == CacheName ==>
              Filter(store, SurvivesDeletion(names[..i])) == Filter(store, SurvivesDeletion(names[..i + 1]))
  {
    var p := SurvivesDeletion(names[..i]);
    var q := SurvivesDeletion(names[..i + 1]);
    assert names[..i + 1] == names[..i] + [names[i]];
    if names[i] != CacheName {
      FilterFilter(store, p, Except(names[i]), q);
    } else {
      FilterAgree(store, p, q);
    }
  }

  /** Once every listed name has been visited, what survives is exactly the
      versioned cache: the loop computes the activate step. */
  lemma DeletedAllNames(store: Store)
    ensures var names := Names(store);
            Filter(store, SurvivesDeletion(names[..|names|])) == Activate(store)
  {
    var names := Names(store);
    assert names[..|names|] == names;
    forall i | 0 <= i < |store|
      ensures SurvivesDeletion(names)(store[i]) == (store[i].name == CacheName)
    {
      assert store[i].name == names[i];
    }
    FilterAgree(store, SurvivesDeletion(names), IsCurrent);
  }

  // ---------------------------------------------------------------------------
  // fetch

  /** Only a 200 response that is not a network error is written back. */
  predicate Cacheable(resp: Response) {
    resp.status == 200 && resp.rtype != Error
  }

  /** The fetch handler, with the network's answer for this request as input.
      A non-GET request is left alone; a cached request is answered from the
      cache; otherwise the network answer is returned and, when cacheable,
      stored; when the network fails the request's cached entry is tried again,
      then the cached offline page. */
  function HandleFetch(store: Store, req: Request, net: NetOutcome): (r: FetchStep)
    ensures req.verb != "GET" ==> r == FetchStep(NotHandled, store)
    ensures req.verb == "GET" && Match(store, req.url).Some? ==>
              r == FetchStep(Respond(Match(store, req.url)), store)
    ensures req.verb == "GET" && Match(store, req.url).None? && net.Fetched? ==>
              && r.result == Respond(Some(net.response))
              && r.store == if Cacheable(net.response) then Put(store, CacheName, req.url, net.response) else store
    ensures req.verb == "GET" && Match(store, req.url).None? && net.NetworkFailure? ==>
              r == FetchStep(Respond(Match(store, OfflinePage)), store)
  {
    if req.verb != "GET" then FetchStep(NotHandled, store)
    else
      var cached := Match(store, req.url);
      if cached.Some? then FetchStep(Respond(cached), store)
      else
        match net
        case Fetched(resp) =>
          if !Cacheable(resp) then FetchStep(Respond(Some(resp)), store)
          else FetchStep(Respond(Some(resp)), Put(store, CacheName, req.url, resp))
        case NetworkFailure =>
          var again := Match(store, req.url);
          if again.Some? then FetchStep(Respond(again), store)
          else FetchStep(Respond(Match(store, OfflinePage)), store)
  }

  /** Every entry of `before` is still in `after`, in the cache of the same
      name and position, with the same response. */
  ghost predicate Extends(before: Store, after: Store) {
    && |before| <= |after|
    && forall i :: 0 <= i < |before| ==>
         after[i].name == before[i].name &&
         forall k :: k in before[i].entries ==> k in after[i].entries && after[i].entries[k] == before[i].entries[k]
  }

  /** The fetch path only ever adds entries (and perhaps the versioned cache
      itself); it never removes or replaces one. */
  lemma FetchNeverRemoves(store: Store, req: Request, net: NetOutcome)
    ensures Extends(store, HandleFetch(store, req, net).store)
    ensures DistinctNames(store) ==> DistinctNames(HandleFetch(store, req, net).store)
  {
    var r := HandleFetch(store, req, net);
    if req.verb == "GET" && Match(store, req.url).None? && net.Fetched? && Cacheable(net.response) {
      var withCache := Open(store, CacheName);
      var stored := SetEntry(withCache, CacheName, req.url, net.response);
      assert r.store == stored;
      OpenExtends(store, CacheName, req.url);
      SetEntryExtends(withCache, CacheName, req.url, net.response);
      ExtendsTransitive(store, withCache, stored);
      SameNamesAgree(withCache, stored, CacheName);
    } else {
      assert r.store == store;
      ExtendsReflexive(store);
    }
  }

  /** Opening a cache keeps every entry, and a key no cache held is still
      held by none. */
  lemma OpenExtends(store: Store, name: string, key: string)
    ensures Extends(store, Open(store, name))
    ensures (forall i :: 0 <= i < |store| ==> key !in store[i].entries) ==>
              forall i :: 0 <= i < |Open(store, name)| ==> key !in Open(store, name)[i].entries
  {
    var r := Open(store, name);
    assert forall i :: 0 <= i < |store| ==> r[i] == r[..|store|][i] == store[i];
  }

  lemma ExtendsReflexive(store: Store)
    ensures Extends(store, store)
  {
  }

  lemma ExtendsTransitive(a: Store, b: Store, c: Store)
    requires Extends(a, b) && Extends(b, c)
    ensures Extends(a, c)
  {
  }

  /** Storing a key leaves every other entry alone; a key already held keeps
      its response only if no cache of that name held it. */
  lemma SetEntryExtends(store: Store, name: string, key: string, resp: Response)
    requires forall i :: 0 <= i < |store| ==> key !in store[i].entries
    ensures Extends(store, SetEntry(store, name, key, resp))
  {
  }

  /** Opening a cache adds no entry, so no lookup changes. */
  lemma {:induction false} MatchAfterOpen(store: Store, name: string, k: string)
    ensures Match(Open(store, name), k) == Match(store, k)
  {
    if !HasCache(store, name) {
      MatchSnocEmpty(store, Bucket(name, map[]), k);
    }
  }

  lemma {:induction false} MatchSnocEmpty(store: Store, b: Bucket, k: string)
    requires k !in b.entries
    ensures Match(store + [b], k) == Match(store, k)
  {
    if store != [] {
      assert (store + [b])[1..] == store[1..] + [b];
      MatchSnocEmpty(store[1..], b, k);
    }
  }

  /** Storing under `key` leaves the lookup of every other key alone. */
  lemma {:induction false} MatchOtherKey(store: Store, name: string, key: string, resp: Response, k: string)
    requires k != key
    ensures Match(SetEntry(store, name, key, resp), k) == Match(store, k)
  {
    if store != [] {
      var after := SetEntry(store, name, key, resp);
      assert after[1..] == SetEntry(store[1..], name, key, resp);
      MatchOtherKey(store[1..], name, key, resp, k);
    }
  }

  /** A key no cache held resolves to the stored response once a cache of
      that name exists. */
  lemma {:induction false} MatchNewKey(store: Store, name: string, key: string, resp: Response)
    requires Match(store, key).None? && HasCache(store, name)
    ensures Match(SetEntry(store, name, key, resp), key) == Some(resp)
  {
    var after := SetEntry(store, name, key, resp);
    if store[0].name != name {
      var i :| 0 <= i < |store| && store[i].name == name;
      assert store[1..][i - 1].name == name;
      assert after[1..] == SetEntry(store[1..], name, key, resp);
      MatchNewKey(store[1..], name, key, resp);
    }
  }

  /** On a miss answered by the network, the request is afterwards found in
      the cache exactly when the response was cacheable, and then it is that
      response; lookups of every other URL are unaffected. */
  lemma MissStoresOnlyCacheable(store: Store, req: Request, resp: Response)
    requires req.verb == "GET" && Match(store, req.url).None?
    ensures var r := HandleFetch(store, req, Fetched(resp));
            && Match(r.store, req.url) == (if Cacheable(resp) then Some(resp) else None)
            && forall k :: k != req.url ==> Match(r.store, k) == Match(store, k)
  {
    if Cacheable(resp) {
      var withCache := Open(store, CacheName);
      MatchAfterOpen(store, CacheName, req.url);
      MatchNewKey(withCache, CacheName, req.url, resp);
      forall k | k != req.url
        ensures Match(SetEntry(withCache, CacheName, req.url, resp), k) == Match(store, k)
      {
        MatchAfterOpen(store, CacheName, k);
        MatchOtherKey(withCache, CacheName, req.url, resp, k);
      }
    }
  }

  /** A stored response is served from then on, whatever the network does. */
  lemma StoredResponseIsServed(store: Store, req: Request, resp: Response, later: NetOutcome)
    requires req.verb == "GET" && Match(store, req.url).None? && Cacheable(resp)
    ensures var r := HandleFetch(store, req, Fetched(resp));
            HandleFetch(r.store, req, later) == FetchStep(Respond(Some(resp)), r.store)
  {
    MissStoresOnlyCacheable(store, req, resp);
  }

  /** In this sequential model the handler's second lookup after a network
      failure cannot succeed, so a failed fetch is answered with the cached
      offline page or with nothing. */
  lemma OfflineFallback(store: Store, req: Request)
    requires req.verb == "GET"
    ensures var r := HandleFetch(store, req, NetworkFailure);
            && r.store == store
            && r.result == Respond(if Match(store, req.url).Some? then Match(store, req.url) else Match(store, OfflinePage))
            && (Match(store, req.url).None? && Match(store, OfflinePage).None? ==> r.result == Respond(None))
  {
  }

  predicate Serves(b: Bucket, k: string, v: Response) {
    k in b.entries && b.entries[k] == v
  }

  lemma {:induction false} FilterServes(store: Store, keep: Bucket -> bool, k: string, v: Response)
    requires forall i :: 0 <= i < |store| && keep(store[i]) ==> Serves(store[i], k, v)
    ensures forall i :: 0 <= i < |Filter(store, keep)| ==> Serves(Filter(store, keep)[i], k, v)
  {
    if store != [] {
      FilterServes(store[1..], keep, k, v);
    }
  }

  /** A key every cache maps to the same response resolves to it. */
  lemma MatchUniform(store: Store, k: string, v: Response)
    requires store != []
    requires forall i :: 0 <= i < |store| ==> Serves(store[i], k, v)
    ensures Match(store, k) == Some(v)
  {
  }

  /** After a successful install every cache named `clarity-v1` maps each
      shell URL to the response fetched for it. */
  lemma InstallStoresShell(store: Store, network: string -> NetOutcome, u: string)
    requires AddAllSucceeds(network, ShellUrls) && u in ShellUrls
    ensures var installed := Install(store, network);
            forall i :: 0 <= i < |installed| && IsCurrent(installed[i]) ==> Serves(installed[i], u, network(u).response)
  {
    var withCache := Open(store, CacheName);
    assert Install(store, network) == PutAll(withCache, CacheName, ShellUrls, network);
    PutAllServes(withCache, CacheName, ShellUrls, network, u);
  }

  /** After a successful `addAll`, every cache of that name serves each URL
      with its fetched response. */
  lemma PutAllServes(store: Store, name: string, urls: seq<string>, network: string -> NetOutcome, u: string)
    requires AddAllSucceeds(network, urls) && u in urls
    ensures var r := PutAll(store, name, urls, network);
            forall i :: 0 <= i < |r| && r[i].name == name ==> Serves(r[i], u, network(u).response)
  {
    var r := PutAll(store, name, urls, network);
    AddedHas(network, urls, u);
    forall i | 0 <= i < |r| && r[i].name == name
      ensures Serves(r[i], u, network(u).response)
    {
      assert r[i].entries == store[i].entries + Added(network, urls);
    }
  }

  /** Activating a store that holds the versioned cache leaves a cache. */
  lemma ActivateKeepsCurrent(store: Store)
    requires HasCache(store, CacheName)
    ensures Activate(store) != []
  {
    var i :| 0 <= i < |store| && store[i].name == CacheName;
    assert store[i] in store;
  }

  /** After a successful install and an activate, every cache left maps the
      shell URL to its installed response, and at least one cache is left. */
  lemma ActivatedServesShell(store: Store, network: string -> NetOutcome, u: string)
    requires AddAllSucceeds(network, ShellUrls) && u in ShellUrls
    ensures Match(Activate(Install(store, network)), u) == Some(network(u).response)
  {
    var installed := Install(store, network);
    var ready := Activate(installed);
    var v := network(u).response;
    InstallStoresShell(store, network, u);
    FilterServes(installed, IsCurrent, u, v);
    ActivateKeepsCurrent(installed);
    MatchUniform(ready, u, v);
  }

  /** Once installed with the whole shell and activated, every shell URL is
      answered from the cache with the response fetched at install time, even
      offline. */
  lemma ShellServedOfflineAfterInstall(store: Store, network: string -> NetOutcome, u: string, later: NetOutcome)
    requires AddAllSucceeds(network, ShellUrls)
    requires u in ShellUrls
    ensures var ready := Activate(Install(store, network));
            HandleFetch(ready, Request("GET", u), later) == FetchStep(Respond(Some(network(u).response)), ready)
  {
    ActivatedServesShell(store, network, u);
  }
}
