/** The interpreter-state pool and the engine that lends its states, updated in place. */
module LuaEngines {
  import opened Wrappers
  import opened EngineModel

  /** The pool proper; `made` counts the states the factory has made. */
  class LStatePool {
    const maxSize: int
    var pool: seq<nat>
    var current: int
    var made: nat
    var closed: set<nat>

    constructor (initialSize: nat, maxSize: int)
      ensures this.maxSize == maxSize && pool == seq(initialSize, i => i)
      ensures current == made == initialSize && closed == {}
    {
      this.maxSize := maxSize;
      pool, current, made, closed := [], 0, 0, {};
      new;
      for n := 0 to initialSize
        invariant pool == seq(n, i => i) && current == made == n && closed == {}
      {
        pool := pool + [made];
        current, made := current + 1, made + 1;
      }
    }

    /** The last pooled state, or a new one while fewer than the maximum exist; None when exhausted. */
    method Get() returns (L: Option<nat>)
      modifies this
      ensures closed == old(closed)
      ensures old(pool) != [] ==>
        L == Some(old(pool)[|old(pool)|-1]) && pool == old(pool)[..|old(pool)|-1]
        && current == old(current) && made == old(made)
      ensures old(pool) == [] && old(current) >= maxSize ==>
        L == None && pool == [] && current == old(current) && made == old(made)
      ensures old(pool) == [] && old(current) < maxSize ==>
        L == Some(old(made)) && pool == [] && current == old(current) + 1 && made == old(made) + 1
    {
      if |pool| > 0 {
        var n := |pool| - 1;
        L := Some(pool[n]);
        pool := pool[..n];
        return;
      }
      if current >= maxSize {
        return None;
      }
      L := Some(made);
      current, made := current + 1, made + 1;
    }

    method Put(L: nat)
      modifies this
      ensures made == old(made)
      ensures if |old(pool)| >= maxSize
              then pool == old(pool) && current == old(current) - 1 && closed == old(closed) + {L}
              else pool == old(pool) + [L] && current == old(current) && closed == old(closed)
    {
      if |pool| >= maxSize {
        closed := closed + {L};
        current := current - 1;
        return;
      }
      pool := pool + [L];
    }
  }

  class LuaEngine {
    const limits: Limits
    const states: LStatePool
    ghost const initialSize: nat
    var active: int
    ghost var coros: seq<Phase>

    ghost function View(): State
      reads this, states
    {
      State(states.pool, states.made, states.current, states.closed, active, coros)
    }

    ghost predicate Valid()
      reads this, states
    {
      states.maxSize == limits.maxSize && Inv(limits, View(), initialSize)
    }

    /** Sizes that are not positive are replaced by the defaults 10 and 100. */
    constructor (maxCoroutines: int, initialSize: int, maxSize: int)
      ensures Valid() && fresh(states) && View() == Initial(this.initialSize)
      ensures this.initialSize == if initialSize <= 0 then 10 else initialSize
      ensures limits == Limits(maxCoroutines, if maxSize <= 0 then 100 else maxSize)
    {
      var size := if initialSize <= 0 then 10 else initialSize;
      this.initialSize := size;
      limits := Limits(maxCoroutines, if maxSize <= 0 then 100 else maxSize);
      states := new LStatePool(size, if maxSize <= 0 then 100 else maxSize);
      active, coros := 0, [];
      new;
      RunKeepsInv(limits, size, []);
    }

    /** Create a coroutine with nobody in between: count it, then take a state for it, backing out when over
        the limit or out of states. */
    method NewCoroutine() returns (L: Option<nat>)
      requires Valid()
      modifies this, states
      ensures Valid()
      ensures View() == Creation(limits, old(View()))
      ensures |coros| == |old(coros)| + 1
      ensures L == if coros[|old(coros)|].Live? then Some(coros[|old(coros)|].state) else None
    {
      ghost var before := View();
      CreationKeeps(limits, before, initialSize);
      L := Create();
      if Refused(limits, before) {
        CreationRefused(limits, before);
      } else {
        CreationGranted(limits, before);
      }
      assert View() == Creation(limits, before);
    }

    /** The calls of one creation, state by state. */
    method Create() returns (L: Option<nat>)
      requires states.maxSize == limits.maxSize
      modifies this, states
      ensures states.closed == old(states.closed)
      ensures Refused(limits, old(View())) ==>
        L == None && View() == old(View()).(coros := old(coros) + [Gone])
      ensures !Refused(limits, old(View())) ==>
        L == Some(if old(states.pool) != [] then old(states.pool)[|old(states.pool)|-1] else old(states.made))
        && active == old(active) + 1 && coros == old(coros) + [Live(L.value)]
        && if old(states.pool) != []
           then states.pool == old(states.pool)[..|old(states.pool)|-1] && states.made == old(states.made)
                && states.current == old(states.current)
           else states.pool == [] && states.made == old(states.made) + 1
                && states.current == old(states.current) + 1
    {
      active := active + 1;
      if active > limits.maxCoroutines {
        active := active - 1;
        coros := coros + [Gone];
        return None;
      }
      L := states.Get();
      if L.None? {
        active := active - 1;
        coros := coros + [Gone];
        return None;
      }
      coros := coros + [Live(L.value)];
    }

    /** Release a live coroutine: its state goes back to the pool, then it is no longer counted. */
    method ReleaseCoroutine(L: nat, ghost id: nat)
      requires Valid() && id < |coros| && coros[id] == Live(L)
      modifies this, states
      ensures Valid() && View() == Release(limits, old(View()), id)
      ensures active == old(active) - 1
    {
      ghost var before := View();
      ReleaseKeeps(limits, before, id, initialSize);
      ReleaseEffect(limits, before, id);
      states.Put(L);
      active := active - 1;
      coros := coros[id := Gone];
      assert View() == Release(limits, before, id);
    }
  }
}
