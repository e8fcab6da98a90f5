/** The cache of page thumbnails: frontend/src/lib/thumbnails.ts. A request's reply, and
    then its clean-up, run later and in any order with other calls, so each of them is
    a step of its own. */
module Thumbnails {

  type Key = string
  type Url = nat
  type RequestId = nat

  /** What a request still has to do: wait for the server, clean up, nothing. */
  datatype Phase = Fetching | CleaningUp | Done

  datatype Request = Request(key: Key, started: nat, phase: Phase)

  /** The module's two maps and counter; every request made; for every object URL ever
      created the request that made it; and how often each URL was revoked. */
  datatype State = State(
    objectUrls: map<Key, Url>, pending: map<Key, RequestId>, generation: nat,
    requests: seq<Request>, makers: seq<RequestId>, revoked: multiset<Url>)

  const EMPTY := State(map[], map[], 0, [], [], multiset{})

  datatype Step =
    | Load(key: Key)
    | Reply(request: RequestId)
    | Reject(request: RequestId)
    | CleanUp(request: RequestId)
    | Revoke

  /** `cacheKey`, with the page number written out. */
  function CacheKey(documentId: string, page: string): Key {
    documentId + ":" + page
  }

  /** loadPageThumbnail, up to its return. */
  function LoadOne(s: State, key: Key): State {
    if key in s.objectUrls || key in s.pending then s
    else s.(requests := s.requests + [Request(key, s.generation, Fetching)],
            pending := s.pending[key := |s.requests|])
  }

  function WithPhase(s: State, r: RequestId, phase: Phase): State
    requires r < |s.requests|
  {
    s.(requests := s.requests[r := s.requests[r].(phase := phase)])
  }

  /** The reply makes an object URL: cached, or revoked if the cache was cleared since
      the request started. */
  function ReplyOne(s: State, r: RequestId): State {
    if r >= |s.requests| || s.requests[r].phase != Fetching then s
    else
      var url, t := |s.makers|, WithPhase(s, r, CleaningUp).(makers := s.makers + [r]);
      if s.requests[r].started != s.generation then t.(revoked := s.revoked + multiset{url})
      else t.(objectUrls := s.objectUrls[s.requests[r].key := url])
  }

  function RejectOne(s: State, r: RequestId): State {
    if r >= |s.requests| || s.requests[r].phase != Fetching then s else WithPhase(s, r, CleaningUp)
  }

  /** The request forgets itself, unless another took its place. */
  function CleanUpOne(s: State, r: RequestId): State {
    if r >= |s.requests| || s.requests[r].phase != CleaningUp then s
    else
      var key, t := s.requests[r].key, WithPhase(s, r, Done);
      if key in s.pending && s.pending[key] == r then t.(pending := s.pending - {key}) else t
  }

  /** revokePageThumbnails. */
  function RevokeAll(s: State): State {
    s.(generation := s.generation + 1, objectUrls := map[], pending := map[],
       revoked := s.revoked + multiset(s.objectUrls.Values))
  }

  function Next(s: State, step: Step): State {
    match step
    case Load(key) => LoadOne(s, key)
    case Reply(r) => ReplyOne(s, r)
    case Reject(r) => RejectOne(s, r)
    case CleanUp(r) => CleanUpOne(s, r)
    case Revoke => RevokeAll(s)
  }

  function Run(s: State, steps: seq<Step>): State {
    if steps == [] then s else Next(Run(s, steps[..|steps| - 1]), steps[|steps| - 1])
  }

  // ----- what every step keeps

  /** The URL is in the cache, under the key of the request that made it, and that
      request started since the cache was last cleared. */
  ghost predicate Cached(s: State, u: Url)
    requires u < |s.makers| && s.makers[u] < |s.requests|
  {
    var maker := s.requests[s.makers[u]];
    maker.key in s.objectUrls && s.objectUrls[maker.key] == u && maker.started == s.generation
  }

  /** A request of the current generation that is not over yet. */
  predicate InFlight(s: State, r: RequestId) {
    r < |s.requests| && s.requests[r].phase != Done && s.requests[r].started == s.generation
  }

  ghost predicate Requests(s: State) {
    && (forall r: nat :: r < |s.requests| ==> s.requests[r].started <= s.generation)
    && (forall key <- s.pending :: InFlight(s, s.pending[key]) && s.requests[s.pending[key]].key == key)
    && (forall r: RequestId :: InFlight(s, r) ==> s.requests[r].key in s.pending && s.pending[s.requests[r].key] == r)
    && (forall r: RequestId :: InFlight(s, r) && s.requests[r].phase == Fetching ==> s.requests[r].key !in s.objectUrls)
  }

  ghost predicate Urls(s: State) {
    && (forall u: nat :: u < |s.makers| ==> s.makers[u] < |s.requests|)
    && (forall key <- s.objectUrls :: s.objectUrls[key] < |s.makers|)
    && (forall key <- s.objectUrls ::
          Cached(s, s.objectUrls[key]) && s.requests[s.makers[s.objectUrls[key]]].key == key)
    && (forall u <- s.revoked :: u < |s.makers|)
    && (forall u: nat :: u < |s.makers| ==> s.revoked[u] == if Cached(s, u) then 0 else 1)
  }

  ghost predicate Inv(s: State) {
    Requests(s) && Urls(s)
  }

  lemma LoadKeepsInv(s: State, key: Key)
    requires Inv(s)
    ensures Inv(LoadOne(s, key))
  {
    var t := LoadOne(s, key);
    if t != s {
      assert forall u: nat :: u < |s.makers| ==> (Cached(t, u) <==> Cached(s, u));
      assert forall r: RequestId :: InFlight(t, r) ==> r == |s.requests| || InFlight(s, r);
    }
  }

  lemma PhaseKeepsUrls(s: State, r: RequestId, phase: Phase)
    requires Urls(s) && r < |s.requests|
    ensures Urls(WithPhase(s, r, phase))
  {
    var t := WithPhase(s, r, phase);
    assert forall u: nat :: u < |s.makers| ==> (Cached(t, u) <==> Cached(s, u));
  }

  lemma StaleReplyKeepsUrls(s: State, r: RequestId)
    requires Urls(s) && r < |s.requests| && s.requests[r].phase == Fetching && s.requests[r].started != s.generation
    ensures Urls(ReplyOne(s, r))
  {
    var t, n := ReplyOne(s, r), |s.makers|;
    assert forall u: nat :: u < n ==> (Cached(t, u) <==> Cached(s, u));
    assert !Cached(t, n);
  }

  lemma CurrentReplyKeepsUrls(s: State, r: RequestId)
    requires Urls(s) && r < |s.requests| && s.requests[r].phase == Fetching && s.requests[r].started == s.generation
    requires s.requests[r].key !in s.objectUrls
    ensures Urls(ReplyOne(s, r))
  {
    var t, n := ReplyOne(s, r), |s.makers|;
    assert forall u: nat :: u < n ==> (Cached(t, u) <==> Cached(s, u));
    assert Cached(t, n);
    assert s.revoked[n] == 0;
  }

  lemma NotCachedYet(s: State, r: RequestId)
    requires Requests(s) && InFlight(s, r) && s.requests[r].phase == Fetching
    ensures s.requests[r].key !in s.objectUrls
  {
  }

  lemma ReplyKeepsRequests(s: State, r: RequestId)
    requires Requests(s) && r < |s.requests| && s.requests[r].phase == Fetching
    ensures Requests(ReplyOne(s, r))
  {
    var t := ReplyOne(s, r);
    assert forall q: RequestId :: InFlight(t, q) <==> InFlight(s, q);
  }

  lemma ReplyKeepsInv(s: State, r: RequestId)
    requires Inv(s)
    ensures Inv(ReplyOne(s, r))
  {
    hide Requests, Urls;
    if ReplyOne(s, r) != s {
      ReplyKeepsRequests(s, r);
      if s.requests[r].started == s.generation {
        NotCachedYet(s, r);
        CurrentReplyKeepsUrls(s, r);
      } else {
        StaleReplyKeepsUrls(s, r);
      }
    }
  }

  lemma RejectKeepsInv(s: State, r: RequestId)
    requires Inv(s)
    ensures Inv(RejectOne(s, r))
  {
    var t := RejectOne(s, r);
    if t != s {
      PhaseKeepsUrls(s, r, CleaningUp);
      assert forall q: RequestId :: InFlight(t, q) <==> InFlight(s, q);
    }
  }

  lemma CleanUpKeepsRequests(s: State, r: RequestId)
    requires Requests(s) && r < |s.requests| && s.requests[r].phase == CleaningUp
    ensures Requests(CleanUpOne(s, r))
  {
    var t := CleanUpOne(s, r);
    assert forall q: RequestId :: InFlight(t, q) <==> InFlight(s, q) && q != r;
  }

  lemma PendingNotInUrls(s: State, pending: map<Key, RequestId>)
    requires Urls(s)
    ensures Urls(s.(pending := pending))
  {
    var t := s.(pending := pending);
    assert forall u: nat :: u < |s.makers| ==> (Cached(t, u) <==> Cached(s, u));
  }

  lemma CleanUpKeepsInv(s: State, r: RequestId)
    requires Inv(s)
    ensures Inv(CleanUpOne(s, r))
  {
    hide Requests, Urls;
    if CleanUpOne(s, r) != s {
      CleanUpKeepsRequests(s, r);
      PhaseKeepsUrls(s, r, Done);
      PendingNotInUrls(WithPhase(s, r, Done), CleanUpOne(s, r).pending);
    }
  }

  lemma RevokeKeepsInv(s: State)
    requires Inv(s)
    ensures Inv(RevokeAll(s))
  {
    var t := RevokeAll(s);
    forall u: nat | u < |s.makers|
      ensures t.revoked[u] == 1 && !Cached(t, u)
    {
      assert Cached(s, u) <==> u in s.objectUrls.Values;
    }
    assert forall r: RequestId :: !InFlight(t, r);
  }

  lemma {:induction false} NextKeepsInv(s: State, step: Step)
    requires Inv(s)
    ensures Inv(Next(s, step))
  {
    hide Inv;
    match step
    case Load(key) => LoadKeepsInv(s, key);
    case Reply(r) => ReplyKeepsInv(s, r);
    case Reject(r) => RejectKeepsInv(s, r);
    case CleanUp(r) => CleanUpKeepsInv(s, r);
    case Revoke => RevokeKeepsInv(s);
  }

  lemma {:induction false} ReachableInv(steps: seq<Step>)
    ensures Inv(Run(EMPTY, steps))
  {
    if steps != [] {
      ReachableInv(steps[..|steps| - 1]);
      NextKeepsInv(Run(EMPTY, steps[..|steps| - 1]), steps[|steps| - 1]);
    }
  }

  // ----- the properties

  /** No object URL is lost, and none is revoked while it is in use or twice: at any
      time each is either in the cache, under one key, or was revoked exactly once. */
  lemma {:induction false} CachedOrRevoked(steps: seq<Step>, u: Url)
    ensures var s := Run(EMPTY, steps);
            u < |s.makers| ==>
              && s.revoked[u] <= 1
              && (s.revoked[u] == 0 <==> exists key :: key in s.objectUrls && s.objectUrls[key] == u)
              && (forall a, b ::
                    a in s.objectUrls && b in s.objectUrls && s.objectUrls[a] == s.objectUrls[b] ==> a == b)
  {
    ReachableInv(steps);
    var s := Run(EMPTY, steps);
    if u < |s.makers| && Cached(s, u) {
      var key := s.requests[s.makers[u]].key;
      assert key in s.objectUrls && s.objectUrls[key] == u;
    }
  }

  /** What the cache holds was asked for under its key since the last clear. */
  lemma {:induction false} CacheIsCurrent(steps: seq<Step>, key: Key)
    ensures var s := Run(EMPTY, steps);
            key in s.objectUrls ==>
              && s.objectUrls[key] < |s.makers|
              && s.makers[s.objectUrls[key]] < |s.requests|
              && s.requests[s.makers[s.objectUrls[key]]].key == key
              && s.requests[s.makers[s.objectUrls[key]]].started == s.generation
  {
    ReachableInv(steps);
    var s := Run(EMPTY, steps);
    assert key in s.objectUrls ==> Cached(s, s.objectUrls[key]);
  }

  /** Each key has at most one request in flight since the last clear, and none that
      waits for the server once its thumbnail is cached. */
  lemma {:induction false} OneInFlight(steps: seq<Step>, q: RequestId, r: RequestId)
    ensures var s := Run(EMPTY, steps);
            && (InFlight(s, q) && InFlight(s, r) && s.requests[q].key == s.requests[r].key ==> q == r)
            && (InFlight(s, q) && s.requests[q].phase == Fetching ==> s.requests[q].key !in s.objectUrls)
  {
    ReachableInv(steps);
  }

  /** A page number has no colon, so a key's last colon is the one between. */
  lemma LastColon(d: string, p: string)
    requires ':' !in p
    ensures var key := CacheKey(d, p);
            key[|d|] == ':' && forall i :: |d| < i < |key| ==> key[i] != ':'
  {
    var key := CacheKey(d, p);
    assert forall i :: |d| < i < |key| ==> key[i] == p[i - |d| - 1];
  }

  /** Documents and pages are told apart by their keys. */
  lemma {:induction false} CacheKeyInjective(d1: string, p1: string, d2: string, p2: string)
    requires ':' !in p1 && ':' !in p2 && CacheKey(d1, p1) == CacheKey(d2, p2)
    ensures d1 == d2 && p1 == p2
  {
    var key := CacheKey(d1, p1);
    LastColon(d1, p1);
    LastColon(d2, p2);
    assert |d1| == |d2|;
    assert d1 == key[..|d1|] && d2 == key[..|d2|];
    assert p1 == key[|d1| + 1..] && p2 == key[|d2| + 1..];
  }
}
