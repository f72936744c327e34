/** An upstream server as the HTTP load balancers see it. */
module Targets {
  class Target {
    const url: string
    const weight: int
    const maxConns: int
    const maxFails: int
    const failTimeout: int
    const backup: bool
    const down: bool
    var healthy: bool
    var connections: int
    var failCount: int
    var failedUntil: int
    var virtualHashes: seq<nat>

    constructor (url: string, weight: int, maxConns: int, maxFails: int, failTimeout: int, backup: bool,
                 down: bool)
      ensures this.url == url && this.weight == weight && this.maxConns == maxConns
      ensures this.maxFails == maxFails && this.failTimeout == failTimeout
      ensures this.backup == backup && this.down == down
      ensures healthy == !down && connections == 0 && failCount == 0 && failedUntil == 0
      ensures virtualHashes == []
    {
      this.url, this.weight, this.maxConns, this.maxFails := url, weight, maxConns, maxFails;
      this.failTimeout, this.backup, this.down := failTimeout, backup, down;
      healthy, connections, failCount, failedUntil := !down, 0, 0, 0;
      virtualHashes := [];
    }

    /** May the target be selected at instant `now`? */
    predicate Available(now: int)
      reads this
    {
      && healthy && !down
      && !(maxConns > 0 && connections >= maxConns)
      && !(maxFails > 0 && failCount >= maxFails && now < failedUntil)
    }

    /** The check as made by the balancers; it ends an expired failure period, which changes the answer
        for no instant from then on. */
    method IsAvailable(now: int) returns (r: bool)
      modifies this`failCount, this`failedUntil
      ensures r == old(Available(now))
      ensures r <==>
        && old(healthy) && !down
        && (maxConns <= 0 || old(connections) < maxConns)
        && (maxFails <= 0 || old(failCount) < maxFails || now >= old(failedUntil))
      ensures forall later :: now <= later ==> Available(later) == old(Available(later))
    {
      if !healthy || down {
        return false;
      }
      if maxConns > 0 && connections >= maxConns {
        return false;
      }
      if maxFails > 0 {
        if failCount >= maxFails {
          if now < failedUntil {
            return false;
          }
          if failedUntil > 0 {
            failCount, failedUntil := 0, 0;
          }
        }
      }
      return true;
    }

    /** Enough failures in a row put the target out of use for the failure timeout (ten seconds, in
        nanoseconds, when not configured). */
    method RecordFailure(now: int) returns (count: int)
      modifies this`failCount, this`failedUntil
      ensures maxFails <= 0 ==> count == 0 && failCount == old(failCount) && failedUntil == old(failedUntil)
      ensures maxFails > 0 ==> count == failCount == old(failCount) + 1
      ensures maxFails > 0 && count < maxFails ==> failedUntil == old(failedUntil)
      ensures maxFails > 0 && count >= maxFails ==>
        failedUntil == now + if failTimeout <= 0 then 10_000_000_000 else failTimeout
      ensures maxFails > 0 && count >= maxFails ==>
        forall t :: now <= t < now + (if failTimeout <= 0 then 10_000_000_000 else failTimeout) ==> !Available(t)
    {
      if maxFails <= 0 {
        return 0;
      }
      failCount := failCount + 1;
      if failCount >= maxFails {
        failedUntil := now + if failTimeout <= 0 then 10_000_000_000 else failTimeout;
      }
      return failCount;
    }

    method RecordSuccess()
      modifies this`failCount, this`failedUntil
      ensures maxFails > 0 ==> failCount == 0 && failedUntil == 0
      ensures maxFails <= 0 ==> failCount == old(failCount) && failedUntil == old(failedUntil)
    {
      if maxFails <= 0 {
        return;
      }
      failCount, failedUntil := 0, 0;
    }
  }

  /** The URLs of a list that may contain nil. */
  function Urls(ts: seq<Target?>): set<string>
  {
    set i | 0 <= i < |ts| && ts[i] != null :: (ts[i] as Target).url
  }
}
