// The Clarity service worker as an object over the origin's CacheStorage:
// its three lifecycle handlers change the stored caches in place.

module Worker {
  import opened Wrappers
  import opened Cache

  class ClarityWorker {
    /** The origin's CacheStorage, shared by every version of the worker. */
    var caches: Store

    /** A worker starts on whatever caches the origin already holds. */
    constructor (existing: Store)
      ensures caches == existing
    {
      caches := existing;
    }

    /** install: open `clarity-v1` and add the shell; an `addAll` rejection is
        swallowed, so the handler always completes. */
    method Install(network: string -> NetOutcome)
      modifies this
      ensures caches == Cache.Install(old(caches), network)
      ensures HasCache(caches, CacheName)
    {
      caches := Open(caches, CacheName);
      if AddAllSucceeds(network, ShellUrls) {
        caches := PutAll(caches, CacheName, ShellUrls, network);
      }
    }

    /** activate: list the cache names, then delete each one that is not
        `clarity-v1`. */
    method Activate()
      modifies this
      ensures caches == Cache.Activate(old(caches))
    {
      var names := Names(caches);
      ghost var start := caches;
      NoneDeletedYet(start, names);
      var i := 0;
      while i < |names|
        invariant 0 <= i <= |names|
        invariant caches == Filter(start, SurvivesDeletion(names[..i]))
      {
        DeleteNextName(start, names, i);
        if names[i] != CacheName {
          caches := Delete(caches, names[i]);
        }
        i := i + 1;
      }
      DeletedAllNames(start);
    }

    /** fetch: the handler's decision for one request, given what the network
        answers for it; on a cacheable miss the response is put into
        `clarity-v1`. */
    method Fetch(req: Request, net: NetOutcome) returns (result: FetchResult)
      modifies this
      ensures FetchStep(result, caches) == Cache.HandleFetch(old(caches), req, net)
    {
      if req.verb != "GET" {
        return NotHandled;
      }
      var cached := Match(caches, req.url);
      if cached.Some? {
        return Respond(cached);
      }
      match net {
        case Fetched(resp) =>
          if Cacheable(resp) {
            caches := Put(caches, CacheName, req.url, resp);
          }
          result := Respond(Some(resp));
        case NetworkFailure =>
          var again := Match(caches, req.url);
          if again.Some? {
            result := Respond(again);
          } else {
            result := Respond(Match(caches, OfflinePage));
          }
      }
    }
  }
}
