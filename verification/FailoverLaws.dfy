/**
 What the proxy's retry loop does with each kind of attempt, stated over whole requests: whether the attempt
 ends the request and with what response, or the balancer is asked for another target.
 */
module FailoverLaws {
  import opened Wrappers
  import opened Failover

  /** A request as its explanation gives it. */
  datatype Request = Request(p: Policy, choose: Chooser, world: nat -> Attempt, urls: seq<string>,
                             attempted: seq<nat>, r: Response)

  /** Attempt `k` was made in an explained request. */
  ghost predicate Attempted(q: Request, k: nat)
  {
    Explains(q.p, q.choose, q.world, q.urls, q.attempted, q.r) && k < |q.attempted|
  }

  /** The URL of attempt `k`. */
  function UrlOf(q: Request, k: nat): string
  {
    if k < |q.attempted| && q.attempted[k] < |q.urls| then q.urls[q.attempted[k]] else ""
  }

  /** Attempt `k` was the last one, and this is the response. */
  predicate EndsWith(q: Request, k: nat, r: Response)
  {
    |q.attempted| == k + 1 && q.r == r
  }

  /** After attempt `k` another one is made, unless the tries are used up or the balancer has no further target. */
  predicate GoesOn(q: Request, k: nat)
    requires k < |q.attempted|
  {
    |q.attempted| > k + 1 || k + 1 >= q.p.tries || q.choose(k + 1, q.attempted[..k+1]).None?
  }

  lemma VerdictDecides(q: Request, k: nat)
    requires Attempted(q, k)
    ensures q.attempted[k] < |q.urls|
    ensures var v := VerdictOf(q.p, q.world, q.urls, q.attempted, k);
      && (v.Retry? ==> GoesOn(q, k))
      && (v.Finish? ==> EndsWith(q, k, Delivered(Latest(q.p, q.world, q.urls, q.attempted[..k]), v.response)))
  {
    assert Chosen(q.choose, q.urls, q.attempted, k);
    assert q.attempted[..|q.attempted|] == q.attempted;
  }

  /** The proxy's cache had no answer for attempt `k`: it is looked at before the first attempt only. */
  predicate NoCachedAnswer(k: nat, probe: CacheProbe)
  {
    k > 0 || probe.NotConsulted? || probe.GoAhead? || probe == Waited(None)
  }

  /** A response that asks for no internal redirect ends the request with that response, unless its status is
      one to retry on and this was not the last try: then another target is asked for. */
  lemma ResponseLaw(q: Request, k: nat, probe: CacheProbe, status: int)
    requires Attempted(q, k) && q.world(k) == Proxied(probe, Responded(status, false)) && NoCachedAnswer(k, probe)
    ensures status in q.p.codes && k + 1 < q.p.tries ==>
      |q.attempted| > k + 1 || q.choose(k + 1, q.attempted[..k+1]).None?
    ensures status !in q.p.codes || k + 1 >= q.p.tries ==> EndsWith(q, k, Response(Upstream, UrlOf(q, k), status))
  {
    VerdictDecides(q, k);
  }

  /** A transport error is answered from a usable stale entry, or another target is asked for. */
  lemma ErrorLaw(q: Request, k: nat, probe: CacheProbe, error: UpstreamError, staleEntry: Option<int>)
    requires Attempted(q, k) && q.world(k) == Proxied(probe, Failed(error, staleEntry)) && NoCachedAnswer(k, probe)
    ensures staleEntry.None? ==> GoesOn(q, k)
    ensures staleEntry.Some? ==> EndsWith(q, k, Response(StaleCache, "cache", staleEntry.value))
  {
    VerdictDecides(q, k);
  }

  /** A cached answer before the first attempt, found at once or after waiting, ends the request. */
  lemma CacheLaw(q: Request, outcome: Outcome, status: int)
    requires Attempted(q, 0)
    requires q.world(0) == Proxied(Hit(status), outcome) || q.world(0) == Proxied(Waited(Some(status)), outcome)
    ensures EndsWith(q, 0, Response(Cache, "cache", status))
  {
    VerdictDecides(q, 0);
  }

  /** A WebSocket and a rejected path end the request at the first target that has a client; a target without
      one is passed over. */
  lemma EarlyExits(q: Request, k: nat)
    requires Attempted(q, k)
    ensures q.world(k) == WebSocket(true) ==> EndsWith(q, k, Response(Tunnel, UrlOf(q, k), 101))
    ensures q.world(k) == WebSocket(false) ==> EndsWith(q, k, Response(Tunnel, UrlOf(q, k), 502))
    ensures q.world(k) == BadPath ==> EndsWith(q, k, Response(InvalidPath, UrlOf(q, k), 502))
    ensures q.world(k) == NoClient ==> GoesOn(q, k)
  {
    VerdictDecides(q, k);
  }

  // ---------------------------------------------------------------- what earlier attempts leave

  /** The status an attempt leaves: that of its response, or 504 for a timeout and 502 for another error. */
  function StatusLeft(outcome: Outcome): int
  {
    match outcome
    case Failed(Timeout, _) => 504
    case Failed(_, _) => 502
    case Responded(status, _) => status
  }

  /** Attempt `j` is the last of the first `n` that had a client. */
  predicate LastReached(q: Request, n: nat, j: nat)
  {
    j < n && q.world(j).Proxied? && forall i :: j < i < n ==> q.world(i).NoClient?
  }

  lemma {:induction false} LatestReached(q: Request, n: nat, j: nat)
    requires n <= |q.attempted| && AllRetried(q.p, q.choose, q.world, q.urls, q.attempted, n)
    requires LastReached(q, n, j)
    ensures var rec := Latest(q.p, q.world, q.urls, q.attempted[..n]);
      rec.addr == UrlOf(q, j) && rec.status == StatusLeft(q.world(j).outcome)
  {
    assert q.attempted[..n][..n-1] == q.attempted[..n-1];
    assert Chosen(q.choose, q.urls, q.attempted, n - 1);
    if j < n - 1 {
      LatestReached(q, n - 1, j);
    }
  }

  lemma {:induction false} NothingReached(q: Request, n: nat)
    requires n <= |q.attempted| && AllRetried(q.p, q.choose, q.world, q.urls, q.attempted, n)
    requires forall i :: 0 <= i < n ==> q.world(i).NoClient?
    ensures Latest(q.p, q.world, q.urls, q.attempted[..n]) == Record(None, "", 0)
  {
    if n > 0 {
      assert q.attempted[..n][..n-1] == q.attempted[..n-1];
      assert Chosen(q.choose, q.urls, q.attempted, n - 1);
      NothingReached(q, n - 1);
    }
  }

  /** Attempt `j` is the last of the first `n` that failed in transport. */
  predicate LastFailed(q: Request, n: nat, j: nat)
  {
    && j < n && q.world(j).Proxied? && q.world(j).outcome.Failed?
    && forall i :: j < i < n ==> !(q.world(i).Proxied? && q.world(i).outcome.Failed?)
  }

  lemma {:induction false} LatestError(q: Request, n: nat, j: nat)
    requires n <= |q.attempted| && AllRetried(q.p, q.choose, q.world, q.urls, q.attempted, n)
    requires LastFailed(q, n, j)
    ensures Latest(q.p, q.world, q.urls, q.attempted[..n]).error == Some(q.world(j).outcome.error)
  {
    assert q.attempted[..n][..n-1] == q.attempted[..n-1];
    assert Chosen(q.choose, q.urls, q.attempted, n - 1);
    if j < n - 1 {
      LatestError(q, n - 1, j);
    }
  }

  lemma {:induction false} NoError(q: Request, n: nat)
    requires n <= |q.attempted| && AllRetried(q.p, q.choose, q.world, q.urls, q.attempted, n)
    requires forall i :: 0 <= i < n ==> !(q.world(i).Proxied? && q.world(i).outcome.Failed?)
    ensures Latest(q.p, q.world, q.urls, q.attempted[..n]).error == None
  {
    if n > 0 {
      assert q.attempted[..n][..n-1] == q.attempted[..n-1];
      assert Chosen(q.choose, q.urls, q.attempted, n - 1);
      NoError(q, n - 1);
    }
  }

  /** A response that asks for an internal redirect ends the request; the status on record stays that of the
      latest earlier attempt that had a client, or 0. */
  lemma RedirectLaw(q: Request, k: nat, probe: CacheProbe, status: int)
    requires Attempted(q, k) && q.world(k) == Proxied(probe, Responded(status, true)) && NoCachedAnswer(k, probe)
    ensures |q.attempted| == k + 1 && q.r.source == Redirect && q.r.addr == UrlOf(q, k)
    ensures forall j {:trigger LastReached(q, k, j)} :: LastReached(q, k, j) ==>
      q.r.status == StatusLeft(q.world(j).outcome)
    ensures (forall i :: 0 <= i < k ==> q.world(i).NoClient?) ==> q.r.status == 0
  {
    VerdictDecides(q, k);
    forall j {:trigger LastReached(q, k, j)} | LastReached(q, k, j)
      ensures q.r.status == StatusLeft(q.world(j).outcome) {
      LatestReached(q, k, j);
    }
    if forall i :: 0 <= i < k ==> q.world(i).NoClient? {
      NothingReached(q, k);
    }
  }

  /** The request is given up: every attempt was retried. */
  ghost predicate Abandoned(q: Request)
  {
    GaveUp(q.p, q.choose, q.world, q.urls, q.attempted, q.r)
  }

  /** A request without any target is refused; one that is given up after some attempts answers for the latest
      transport error, 504 for a timeout and 502 otherwise, naming the target reached last; without a transport
      error it answers 502. */
  lemma GiveUpLaw(q: Request)
    requires Abandoned(q)
    ensures q.attempted == [] ==> q.r == Response(NoUpstream, "FAILED", 502)
    ensures var n := |q.attempted|;
      n > 0 ==>
        && (forall j {:trigger LastFailed(q, n, j)} :: LastFailed(q, n, j) ==>
              q.r.source == Exhausted && q.r.status == if q.world(j).outcome.error.Timeout? then 504 else 502)
        && (forall i, j {:trigger LastFailed(q, n, i), LastReached(q, n, j)} ::
              LastFailed(q, n, i) && LastReached(q, n, j) ==> q.r.addr == UrlOf(q, j))
        && ((forall i :: 0 <= i < n ==> !(q.world(i).Proxied? && q.world(i).outcome.Failed?)) ==>
              q.r == Response(Exhausted, "FAILED", 502))
  {
    var n := |q.attempted|;
    assert q.attempted[..n] == q.attempted;
    if n > 0 {
      forall j {:trigger LastFailed(q, n, j)} | LastFailed(q, n, j)
        ensures q.r.source == Exhausted
        ensures q.r.status == if q.world(j).outcome.error.Timeout? then 504 else 502
      {
        LatestError(q, n, j);
      }
      forall i, j {:trigger LastFailed(q, n, i), LastReached(q, n, j)} | LastFailed(q, n, i) && LastReached(q, n, j)
        ensures q.r.addr == UrlOf(q, j)
      {
        LatestError(q, n, i);
        LatestReached(q, n, j);
      }
      if forall i :: 0 <= i < n ==> !(q.world(i).Proxied? && q.world(i).outcome.Failed?) {
        NoError(q, n);
      }
    }
  }
}
