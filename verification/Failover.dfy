/**
 The proxy's retry loop. What happens outside the loop's control - the balancer's choices, the client
 pool, the cache, the upstreams - is given by functions of the attempt number.
 */
module Failover {
  import opened Wrappers
  import opened Targets
  import Balancers
  import Ring
  import ConsistentHashing

  datatype UpstreamError = Timeout | ConnectionClosed | OtherError

  /** What consulting the response cache on the first attempt leads to. */
  datatype CacheProbe =
    | NotConsulted                     // no cache, or no rule for the request
    | Hit(status: int)                 // fresh, or stale but usable
    | GoAhead                          // lock granted or bypassed, or a timed wait ended, by wake or by timer
    | Waited(found: Option<int>)       // was handed the channel and waited; the entry found then, if any

  datatype Outcome =
    | Failed(error: UpstreamError, staleEntry: Option<int>)
    | Responded(status: int, accelRedirect: bool)

  datatype Attempt =
    | NoClient
    | WebSocket(ok: bool)
    | BadPath
    | Proxied(probe: CacheProbe, outcome: Outcome)

  datatype Source = NoUpstream | Tunnel | InvalidPath | Cache | StaleCache | Redirect | Upstream | Exhausted

  datatype Response = Response(source: Source, addr: string, status: int)

  /** A retried attempt leaves its transport error, if that is what failed it, and the status recorded for it,
      if it got as far as having a client. */
  datatype Verdict = Retry(error: Option<UpstreamError>, status: Option<int>) | Finish(response: Response)

  /** Tries and retryable status codes after the defaults are filled in. */
  datatype Policy = Policy(tries: nat, codes: seq<int>)

  function PolicyOf(tries: int, codes: seq<int>): (p: Policy)
    ensures if tries >= 1 then p.tries == tries else p.tries == 1
    ensures codes != [] ==> p.codes == codes
    ensures codes == [] ==> forall c :: c in p.codes <==> 502 <= c <= 504
  {
    Policy(if tries <= 0 then 1 else tries, if codes == [] then [502, 503, 504] else codes)
  }

  /** What one attempt decides. */
  function Judge(p: Policy, i: nat, url: string, a: Attempt): Verdict
  {
    match a
    case NoClient => Retry(None, None)
    case WebSocket(ok) => Finish(Response(Tunnel, url, if ok then 101 else 502))
    case BadPath => Finish(Response(InvalidPath, url, 502))
    case Proxied(probe, outcome) =>
      if i == 0 && probe.Hit? then Finish(Response(Cache, "cache", probe.status))
      else if i == 0 && probe.Waited? && probe.found.Some? then
        Finish(Response(Cache, "cache", probe.found.value))
      else JudgeOutcome(p, i, url, outcome)
  }

  function JudgeOutcome(p: Policy, i: nat, url: string, outcome: Outcome): Verdict
  {
    match outcome
    case Failed(error, staleEntry) =>
      if staleEntry.Some? then Finish(Response(StaleCache, "cache", staleEntry.value))
      else Retry(Some(error), Some(ErrorStatus(error)))
    case Responded(status, accelRedirect) =>
      if accelRedirect then Finish(Response(Redirect, url, 0))
      else if status in p.codes && i + 1 < p.tries then Retry(None, Some(status))
      else Finish(Response(Upstream, url, status))
  }

  function ErrorStatus(error: UpstreamError): int
  {
    if error.Timeout? then 504 else 502
  }

  /** What the loop carries from attempt to attempt: the latest transport error, and the address and status
      recorded last. */
  datatype Record = Record(error: Option<UpstreamError>, addr: string, status: int)

  function Noted(rec: Record, v: Verdict, url: string): Record
    requires v.Retry?
  {
    Record(if v.error.Some? then v.error else rec.error,
           if v.status.Some? then url else rec.addr,
           v.status.GetOr(rec.status))
  }

  /** The answer when no attempt finished the request: that of the last transport error, if any. */
  function GiveUp(rec: Record): Response
  {
    if rec.error.None? then Response(Exhausted, "FAILED", 502)
    else Response(Exhausted, rec.addr, ErrorStatus(rec.error.value))
  }

  /** An internal redirect leaves the status recorded for the request as it was before. */
  function Delivered(rec: Record, r: Response): Response
  {
    if r.source.Redirect? then r.(status := rec.status) else r
  }

  // ---------------------------------------------------------------- a whole request

  /** The balancer: given the attempt number and the targets already attempted (as positions in the target
      list), the position chosen, if any. */
  type Chooser = (nat, seq<nat>) -> Option<nat>

  function UrlsAt(urls: seq<string>, positions: seq<nat>): set<string>
  {
    set i | 0 <= i < |positions| && positions[i] < |urls| :: urls[positions[i]]
  }

  /** The balancer contract the loop rests on: a choice is one of the targets, and from the second attempt
      on none whose URL was already attempted. */
  ghost predicate Honest(choose: Chooser, urls: seq<string>)
  {
    forall i, ex :: choose(i, ex).Some? ==>
      choose(i, ex).value < |urls| && (i > 0 ==> urls[choose(i, ex).value] !in UrlsAt(urls, ex))
  }

  /** All that the loop itself needs of a balancer: a choice is one of the targets. */
  ghost predicate ChoosesTargets(choose: Chooser, n: nat)
  {
    forall i, ex :: choose(i, ex).Some? ==> choose(i, ex).value < n
  }

  /** A balancer that, from the second attempt on, picks among the candidates left by excluding what was
      attempted; `usable` are the targets it found available. */
  ghost predicate PicksCandidates(choose: Chooser, targets: seq<Target>, urls: seq<string>,
                                  usable: (nat, seq<nat>) -> set<Target>)
  {
    forall i, ex :: choose(i, ex).Some? ==>
      && choose(i, ex).value < |targets|
      && (i > 0 ==> targets[choose(i, ex).value]
                      in Balancers.Candidates(targets, usable(i, ex), UrlsAt(urls, ex)))
  }

  /** The balancers that filter their candidates keep that contract, whatever they find available. */
  lemma CandidatesAreHonest(choose: Chooser, targets: seq<Target>, urls: seq<string>,
                            usable: (nat, seq<nat>) -> set<Target>)
    requires |urls| == |targets| && forall i :: 0 <= i < |urls| ==> urls[i] == targets[i].url
    requires PicksCandidates(choose, targets, urls, usable)
    ensures Honest(choose, urls)
  {
    forall i, ex | choose(i, ex).Some? && i > 0
      ensures urls[choose(i, ex).value] !in UrlsAt(urls, ex) {
      Balancers.CandidateMembers(targets, usable(i, ex), UrlsAt(urls, ex));
      var cs := Balancers.Candidates(targets, usable(i, ex), UrlsAt(urls, ex));
      var k :| 0 <= k < |cs| && cs[k] == targets[choose(i, ex).value];
      assert Balancers.Qualifies(targets, usable(i, ex), UrlsAt(urls, ex), cs[k]);
    }
  }

  /** A balancer that, from the second attempt on, takes the walk over some ring, stopping at URLs that are
      healthy then and not yet attempted. */
  ghost predicate PicksOnRing(choose: Chooser, urls: seq<string>,
                              ring: (nat, seq<nat>) -> seq<Ring.Entry<Target>>,
                              healthy: (nat, seq<nat>) -> set<string>, h: Ring.Hash)
  {
    forall i, ex :: choose(i, ex).Some? ==>
      && choose(i, ex).value < |urls|
      && (i > 0 ==>
            var r := Ring.Walk(ring(i, ex), ConsistentHashing.Acceptable(healthy(i, ex) - UrlsAt(urls, ex)), h);
            r.Some? && r.value.url == urls[choose(i, ex).value])
  }

  /** The hash ring keeps the contract too, whatever ring it holds. */
  lemma RingIsHonest(choose: Chooser, urls: seq<string>, ring: (nat, seq<nat>) -> seq<Ring.Entry<Target>>,
                     healthy: (nat, seq<nat>) -> set<string>, h: Ring.Hash)
    requires PicksOnRing(choose, urls, ring, healthy, h)
    ensures Honest(choose, urls)
  {
    forall i, ex | choose(i, ex).Some? && i > 0
      ensures urls[choose(i, ex).value] !in UrlsAt(urls, ex) {
      Ring.WalkKept(ring(i, ex), ConsistentHashing.Acceptable(healthy(i, ex) - UrlsAt(urls, ex)), h);
    }
  }

  ghost predicate DistinctUrls(urls: seq<string>, positions: seq<nat>)
  {
    && (forall i :: 0 <= i < |positions| ==> positions[i] < |urls|)
    && (forall i, j :: 0 <= i < j < |positions| ==> urls[positions[i]] != urls[positions[j]])
  }

  /** The `i`-th attempt was made on the balancer's choice. */
  ghost predicate Chosen(choose: Chooser, urls: seq<string>, attempted: seq<nat>, i: nat)
    requires i < |attempted|
  {
    choose(i, attempted[..i]) == Some(attempted[i]) && attempted[i] < |urls|
  }

  function VerdictOf(p: Policy, world: nat -> Attempt, urls: seq<string>, attempted: seq<nat>, i: nat): Verdict
    requires i < |attempted| && attempted[i] < |urls|
  {
    Judge(p, i, urls[attempted[i]], world(i))
  }

  /** The targets attempted, one per attempt and each the balancer's choice, were all retried so far. */
  ghost predicate AllRetried(p: Policy, choose: Chooser, world: nat -> Attempt, urls: seq<string>,
                             attempted: seq<nat>, n: nat)
    requires n <= |attempted|
  {
    forall i :: 0 <= i < n ==>
      Chosen(choose, urls, attempted, i) && VerdictOf(p, world, urls, attempted, i).Retry?
  }

  /** The last attempt finished the request, all before it having been retried. */
  ghost predicate Finished(p: Policy, choose: Chooser, world: nat -> Attempt, urls: seq<string>,
                           attempted: seq<nat>, r: Response)
  {
    var n := |attempted|;
    && 0 < n <= p.tries
    && AllRetried(p, choose, world, urls, attempted, n - 1)
    && Chosen(choose, urls, attempted, n - 1)
    && VerdictOf(p, world, urls, attempted, n - 1).Finish?
    && r == Delivered(Latest(p, world, urls, attempted[..n-1]), VerdictOf(p, world, urls, attempted, n - 1).response)
  }

  /** Every attempt was retried, and then the tries were used up or the balancer had no further choice. */
  ghost predicate GaveUp(p: Policy, choose: Chooser, world: nat -> Attempt, urls: seq<string>,
                         attempted: seq<nat>, r: Response)
  {
    var n := |attempted|;
    && n <= p.tries
    && AllRetried(p, choose, world, urls, attempted, n)
    && (n == p.tries || choose(n, attempted).None?)
    && r == if n == 0 then Response(NoUpstream, "FAILED", 502)
            else GiveUp(Latest(p, world, urls, attempted))
  }

  ghost predicate Explains(p: Policy, choose: Chooser, world: nat -> Attempt, urls: seq<string>,
                           attempted: seq<nat>, r: Response)
  {
    || Finished(p, choose, world, urls, attempted, r)
    || GaveUp(p, choose, world, urls, attempted, r)
  }

  /** What is recorded after some retried attempts. */
  function Latest(p: Policy, world: nat -> Attempt, urls: seq<string>, attempted: seq<nat>): Record
  {
    if attempted == [] then Record(None, "", 0)
    else
      var n := |attempted| - 1;
      var before := Latest(p, world, urls, attempted[..n]);
      if attempted[n] >= |urls| then before
      else
        var v := VerdictOf(p, world, urls, attempted, n);
        if v.Retry? then Noted(before, v, urls[attempted[n]]) else before
  }

  /** The explanation is unique: choices and outcomes determine the attempts and the response. */
  lemma ExplanationUnique(p: Policy, choose: Chooser, world: nat -> Attempt, urls: seq<string>,
                          a: seq<nat>, r: Response, b: seq<nat>, s: Response)
    requires Explains(p, choose, world, urls, a, r) && Explains(p, choose, world, urls, b, s)
    ensures a == b && r == s
  {
    if |a| <= |b| {
      SameAttempts(p, choose, world, urls, a, r, b, s);
    } else {
      SameAttempts(p, choose, world, urls, b, s, a, r);
    }
  }

  lemma {:induction false} SamePrefix(choose: Chooser, urls: seq<string>, a: seq<nat>, b: seq<nat>, n: nat)
    requires n <= |a| && n <= |b|
    requires forall i :: 0 <= i < n ==> Chosen(choose, urls, a, i) && Chosen(choose, urls, b, i)
    ensures a[..n] == b[..n]
  {
    if n > 0 {
      SamePrefix(choose, urls, a, b, n - 1);
      assert Chosen(choose, urls, a, n - 1) && Chosen(choose, urls, b, n - 1);
      assert a[n-1] == b[n-1];
    }
  }

  lemma NotLast(p: Policy, choose: Chooser, world: nat -> Attempt, urls: seq<string>,
                b: seq<nat>, s: Response, n: nat)
    requires Explains(p, choose, world, urls, b, s) && n < |b|
    ensures choose(n, b[..n]) == Some(b[n]) && n < p.tries
    ensures n > 0 ==> b[n-1] < |urls| && VerdictOf(p, world, urls, b, n - 1).Retry?
  {
    assert Chosen(choose, urls, b, n);
    if n > 0 {
      assert Chosen(choose, urls, b, n - 1);
    }
  }

  lemma SameAttempts(p: Policy, choose: Chooser, world: nat -> Attempt, urls: seq<string>,
                     a: seq<nat>, r: Response, b: seq<nat>, s: Response)
    requires Explains(p, choose, world, urls, a, r) && Explains(p, choose, world, urls, b, s)
    requires |a| <= |b|
    ensures a == b && r == s
  {
    var n := |a|;
    SamePrefix(choose, urls, a, b, n);
    assert a[..n] == a && b[..|b|] == b;
    assert n > 0 ==> a[n-1] == b[n-1];
    if n < |b| {
      NotLast(p, choose, world, urls, b, s, n);
    }
  }

  /** No upstream is attempted twice, and the attempts are bounded by the tries and by the number of
      distinct upstream URLs. */
  lemma AttemptsBounded(p: Policy, choose: Chooser, world: nat -> Attempt, urls: seq<string>,
                        attempted: seq<nat>, r: Response)
    requires Honest(choose, urls) && Explains(p, choose, world, urls, attempted, r)
    ensures DistinctUrls(urls, attempted)
    ensures |attempted| <= p.tries && |attempted| <= |set u | u in urls|
  {
    forall i | 0 <= i < |attempted| ensures Chosen(choose, urls, attempted, i) {
    }
    ChosenDistinct(choose, urls, attempted);
    Pigeonhole(urls, attempted, set u | u in urls);
  }

  lemma ChosenDistinct(choose: Chooser, urls: seq<string>, attempted: seq<nat>)
    requires Honest(choose, urls)
    requires forall i :: 0 <= i < |attempted| ==> Chosen(choose, urls, attempted, i)
    ensures DistinctUrls(urls, attempted)
  {
    assert forall i :: 0 <= i < |attempted| && Chosen(choose, urls, attempted, i) ==> attempted[i] < |urls|;
    forall i, j | 0 <= i < j < |attempted| ensures urls[attempted[i]] != urls[attempted[j]] {
      assert Chosen(choose, urls, attempted, i) && Chosen(choose, urls, attempted, j);
      assert attempted[..j][i] == attempted[i];
      assert urls[attempted[i]] in UrlsAt(urls, attempted[..j]);
    }
  }

  lemma {:induction false} Pigeonhole(urls: seq<string>, ps: seq<nat>, room: set<string>)
    requires DistinctUrls(urls, ps) && forall i :: 0 <= i < |ps| ==> urls[ps[i]] in room
    ensures |ps| <= |room|
  {
    if ps != [] {
      Pigeonhole(urls, ps[..|ps|-1], room - {urls[ps[|ps|-1]]});
    }
  }

  // ---------------------------------------------------------------- the loop

  datatype Event = Opened(target: Target) | Closed(target: Target)

  /** Every opening is followed at once by the closing of the same target: never is more than one
      connection of the request counted. */
  ghost predicate Paired(log: seq<Event>)
  {
    && |log| % 2 == 0
    && forall k {:trigger log[2*k]} :: 0 <= 2 * k < |log| ==>
         log[2*k].Opened? && log[2*k+1] == Closed(log[2*k].target)
  }

  class Proxy {
    const targets: seq<Target>
    const tries: int
    const httpCodes: seq<int>
    /** The connection counts this proxy has changed, in order. */
    ghost var log: seq<Event>

    constructor (targets: seq<Target>, tries: int, httpCodes: seq<int>)
      ensures this.targets == targets && this.tries == tries && this.httpCodes == httpCodes && log == []
    {
      this.targets, this.tries, this.httpCodes, log := targets, tries, httpCodes, [];
    }

    method Increment(t: Target)
      modifies t`connections, this`log
      ensures t.connections == old(t.connections) + 1 && log == old(log) + [Opened(t)]
    {
      t.connections := t.connections + 1;
      log := log + [Opened(t)];
    }

    method Decrement(t: Target)
      modifies t`connections, this`log
      ensures t.connections == old(t.connections) - 1 && log == old(log) + [Closed(t)]
    {
      t.connections := t.connections - 1;
      log := log + [Closed(t)];
    }

    /** One attempt, from the chosen target to the verdict. */
    method TryTarget(target: Target, attempt: nat, maxTries: nat, codes: seq<int>, world: nat -> Attempt)
      returns (v: Verdict)
      requires Paired(log)
      modifies target`connections, this`log
      ensures v == Judge(Policy(maxTries, codes), attempt, target.url, world(attempt))
      ensures target.connections == old(target.connections)
      ensures Paired(log) && old(log) <= log
    {
      var a := world(attempt);
      if a.NoClient? {
        return Retry(None, None);
      }
      Increment(target);
      if a.WebSocket? {
        Decrement(target);  // deferred to the return
        return Finish(Response(Tunnel, target.url, if a.ok then 101 else 502));
      }
      if a.BadPath? {
        Decrement(target);
        return Finish(Response(InvalidPath, target.url, 502));
      }
      if attempt == 0 {
        match a.probe {
          case Hit(status) =>
            Decrement(target);
            return Finish(Response(Cache, "cache", status));
          case Waited(found) =>
            Decrement(target);
            if found.Some? {
              return Finish(Response(Cache, "cache", found.value));
            }
            Increment(target);
          case _ =>
        }
      }
      match a.outcome {
        case Failed(error, staleEntry) =>
          Decrement(target);
          if staleEntry.Some? {
            return Finish(Response(StaleCache, "cache", staleEntry.value));
          }
          return Retry(Some(error), Some(if error.Timeout? then 504 else 502));
        case Responded(status, accelRedirect) =>
          Decrement(target);
          if accelRedirect {
            return Finish(Response(Redirect, target.url, 0));
          }
          if status in codes {
            if attempt + 1 < maxTries {
              return Retry(None, Some(status));
            }
          }
          return Finish(Response(Upstream, target.url, status));
      }
    }

    /** An attempt on one of the proxy's targets leaves all their counts as they were. */
    method TryAt(i: nat, attempt: nat, maxTries: nat, codes: seq<int>, world: nat -> Attempt)
      returns (v: Verdict)
      requires i < |targets| && Paired(log)
      modifies targets`connections, this`log
      ensures v == Judge(Policy(maxTries, codes), attempt, targets[i].url, world(attempt))
      ensures forall t :: t in targets ==> t.connections == old(t.connections)
      ensures Paired(log) && old(log) <= log
    {
      v := TryTarget(targets[i], attempt, maxTries, codes, world);
    }

    function TargetUrls(): (urls: seq<string>)
      ensures |urls| == |targets| && forall i :: 0 <= i < |urls| ==> urls[i] == targets[i].url
    {
      seq(|targets|, i requires 0 <= i < |targets| => targets[i].url)
    }

    /** Serve a request. Whatever the choices - repeated ones included - and outcomes, the loop ends with the
        explained response and every connection count back at its entry value. */
    method ServeHTTP(choose: Chooser, world: nat -> Attempt) returns (r: Response, attempted: seq<nat>)
      requires ChoosesTargets(choose, |targets|) && Paired(log)
      modifies targets`connections, this`log
      ensures Explains(PolicyOf(tries, httpCodes), choose, world, TargetUrls(), attempted, r)
      ensures forall t :: t in targets ==> t.connections == old(t.connections)
      ensures Paired(log) && old(log) <= log
    {
      var maxTries := if tries <= 0 then 1 else tries;
      var codes := if |httpCodes| == 0 then [502, 503, 504] else httpCodes;
      ghost var p, urls := PolicyOf(tries, httpCodes), TargetUrls();
      attempted := [];
      var lastErr: Option<UpstreamError> := None;
      var upstreamAddr, upstreamStatus := "", 0;
      for attempt := 0 to maxTries
        invariant |attempted| == attempt && AllRetried(p, choose, world, urls, attempted, attempt)
        invariant Record(lastErr, upstreamAddr, upstreamStatus) == Latest(p, world, urls, attempted)
        invariant forall t :: t in targets ==> t.connections == old(t.connections)
        invariant Paired(log) && old(log) <= log
      {
        var choice := choose(attempt, attempted);
        if choice.None? {
          r := if attempt == 0 then Response(NoUpstream, "FAILED", 502)
               else GiveUp(Record(lastErr, upstreamAddr, upstreamStatus));
          return;
        }
        var v := TryAt(choice.value, attempt, maxTries, codes, world);
        if v.Finish? {
          r := if v.response.source.Redirect? then v.response.(status := upstreamStatus) else v.response;
          EndsRequest(p, choose, world, urls, attempted, choice.value, r);
          attempted := attempted + [choice.value];
          return;
        }
        ExtendAttempts(p, choose, world, urls, attempted, choice.value);
        attempted := attempted + [choice.value];
        if v.error.Some? {
          lastErr := v.error;
        }
        if v.status.Some? {
          upstreamAddr, upstreamStatus := targets[choice.value].url, v.status.value;
        }
      }
      r := GiveUp(Record(lastErr, upstreamAddr, upstreamStatus));
    }
  }

  lemma NextChosen(p: Policy, choose: Chooser, world: nat -> Attempt, urls: seq<string>,
                   attempted: seq<nat>, next: nat)
    requires AllRetried(p, choose, world, urls, attempted, |attempted|)
    requires next < |urls| && choose(|attempted|, attempted) == Some(next)
    ensures var more := attempted + [next];
      && AllRetried(p, choose, world, urls, more, |attempted|)
      && Chosen(choose, urls, more, |attempted|)
      && more[..|attempted|] == attempted
  {
    var more := attempted + [next];
    forall i | 0 <= i < |attempted|
      ensures Chosen(choose, urls, more, i) && VerdictOf(p, world, urls, more, i).Retry? {
      assert Chosen(choose, urls, attempted, i);
      assert more[..i] == attempted[..i];
    }
  }

  /** One more attempt that is retried extends the run and is noted. */
  lemma ExtendAttempts(p: Policy, choose: Chooser, world: nat -> Attempt, urls: seq<string>,
                       attempted: seq<nat>, next: nat)
    requires AllRetried(p, choose, world, urls, attempted, |attempted|)
    requires next < |urls| && choose(|attempted|, attempted) == Some(next)
    requires Judge(p, |attempted|, urls[next], world(|attempted|)).Retry?
    ensures var more := attempted + [next];
      && AllRetried(p, choose, world, urls, more, |more|)
      && Latest(p, world, urls, more)
         == Noted(Latest(p, world, urls, attempted), Judge(p, |attempted|, urls[next], world(|attempted|)), urls[next])
  {
    NextChosen(p, choose, world, urls, attempted, next);
  }

  /** One more attempt that finishes the request explains the whole of it. */
  lemma EndsRequest(p: Policy, choose: Chooser, world: nat -> Attempt, urls: seq<string>,
                    attempted: seq<nat>, next: nat, r: Response)
    requires AllRetried(p, choose, world, urls, attempted, |attempted|) && |attempted| < p.tries
    requires next < |urls| && choose(|attempted|, attempted) == Some(next)
    requires var v := Judge(p, |attempted|, urls[next], world(|attempted|));
      v.Finish? && r == Delivered(Latest(p, world, urls, attempted), v.response)
    ensures Explains(p, choose, world, urls, attempted + [next], r)
  {
    NextChosen(p, choose, world, urls, attempted, next);
  }
}
