/** The module variables of frontend/src/lib/thumbnails.ts and the code that updates
    them: the two exported functions, and the two callbacks of a request. Each is proved
    to be the step of Thumbnails it stands for. */
module ThumbnailCache {
  import opened Options
  import opened Thumbnails

  /** What loadPageThumbnail hands back: a URL, or a request to wait for. */
  datatype Loaded = Ready(url: Url) | Waiting(request: RequestId)

  class ThumbnailCache {
    var objectUrls: map<Key, Url>
    var pending: map<Key, RequestId>
    var generation: nat
    var requests: seq<Request>
    var makers: seq<RequestId>
    var revoked: multiset<Url>

    ghost function View(): State
      reads this
    {
      State(objectUrls, pending, generation, requests, makers, revoked)
    }

    constructor ()
      ensures View() == EMPTY && Inv(View())
    {
      objectUrls, pending, generation := map[], map[], 0;
      requests, makers, revoked := [], [], multiset{};
    }

    /** loadPageThumbnail: a cached URL is one in use, and what is waited for is the one
        request in flight for this key. */
    method LoadPageThumbnail(documentId: string, page: string) returns (r: Loaded)
      requires Inv(View())
      modifies this
      ensures View() == Next(old(View()), Load(CacheKey(documentId, page))) && Inv(View())
      ensures r.Ready? ==>
                && r.url < |makers| && revoked[r.url] == 0
                && requests[makers[r.url]].key == CacheKey(documentId, page)
      ensures r.Waiting? ==> InFlight(View(), r.request) && requests[r.request].key == CacheKey(documentId, page)
    {
      LoadKeepsInv(View(), CacheKey(documentId, page));
      var key := CacheKey(documentId, page);
      if key in objectUrls {
        assert Cached(View(), objectUrls[key]);
        return Ready(objectUrls[key]);
      }
      if key in pending {
        return Waiting(pending[key]);
      }
      var request := |requests|;
      requests := requests + [Request(key, generation, Fetching)];
      pending := pending[key := request];
      return Waiting(request);
    }

    /** What a request does with its reply; it fails if the cache was cleared since it
        started. */
    method HandleReply(r: RequestId) returns (result: Option<Url>)
      requires Inv(View()) && r < |requests| && requests[r].phase == Fetching
      modifies this
      ensures View() == Next(old(View()), Reply(r)) && Inv(View())
      ensures result.Some? <==> old(requests)[r].started == generation
      ensures result.Some? ==> objectUrls == old(objectUrls)[old(requests)[r].key := result.value]
    {
      ReplyKeepsInv(View(), r);
      hide Requests, Urls;
      var request := requests[r];
      var url := |makers|;
      requests := requests[r := request.(phase := CleaningUp)];
      makers := makers + [r];
      if request.started != generation {
        revoked := revoked + multiset{url};
        return None;
      }
      objectUrls := objectUrls[request.key := url];
      return Some(url);
    }

    /** What a request does at its end, however it went. */
    method HandleEnd(r: RequestId)
      requires Inv(View()) && r < |requests| && requests[r].phase == CleaningUp
      modifies this
      ensures View() == Next(old(View()), CleanUp(r)) && Inv(View())
    {
      CleanUpKeepsInv(View(), r);
      hide Requests, Urls;
      var request := requests[r];
      requests := requests[r := request.(phase := Done)];
      if request.key in pending && pending[request.key] == r {
        pending := pending - {request.key};
      }
    }

    /** revokePageThumbnails. */
    method RevokePageThumbnails()
      requires Inv(View())
      modifies this
      ensures View() == Next(old(View()), Revoke) && Inv(View())
      ensures objectUrls == map[] && pending == map[] && forall u: nat :: u < |makers| ==> revoked[u] == 1
    {
      RevokeKeepsInv(View());
      AllRevoked(View());
      hide Requests, Urls;
      generation := generation + 1;
      RevokeEach(objectUrls.Values);
      objectUrls := map[];
      pending := map[];
    }

    method RevokeEach(urls: set<Url>)
      modifies `revoked
      ensures revoked == old(revoked) + multiset(urls)
    {
      var rest := urls;
      while rest != {}
        invariant rest <= urls && revoked == old(revoked) + multiset(urls - rest)
      {
        var url :| url in rest;
        assert urls - (rest - {url}) == urls - rest + {url};
        revoked := revoked + multiset{url};
        rest := rest - {url};
      }
      assert urls - rest == urls;
    }
  }

  lemma AllRevoked(s: State)
    requires Inv(s)
    ensures forall u: nat :: u < |s.makers| ==> RevokeAll(s).revoked[u] == 1
  {
    RevokeKeepsInv(s);
    var t := RevokeAll(s);
    assert forall u: nat :: u < |t.makers| ==> !Cached(t, u);
  }
}
