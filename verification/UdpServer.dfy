/** The UDP server object: its session map, the sessions it ever made, its targets' counters. */
module UdpServers {
  import opened Wrappers
  import opened UdpModel

  class UdpServer {
    const timeout: int
    var sessions: map<Key, nat>
    var table: seq<Session>
    var conns: map<Target, int>

    ghost function View(): State
      reads this
    {
      State(sessions, table, conns)
    }

    ghost predicate Valid()
      reads this
    {
      Inv(View())
    }

    /** A non-positive timeout means sixty seconds (in nanoseconds). */
    constructor (targets: set<Target>, timeout: int)
      ensures Valid() && View() == Initial(targets)
      ensures this.timeout == if timeout <= 0 then 60_000_000_000 else timeout
    {
      this.timeout := if timeout <= 0 then 60_000_000_000 else timeout;
      sessions, table := map[], [];
      conns := map t | t in targets :: 0;
    }

    method TouchSession(id: nat, now: int)
      requires id < |table|
      modifies this`table
      ensures View() == Touch(old(View()), id, now)
    {
      table := table[id := table[id].(lastActive := now)];
    }

    /** The once-only close of a session. */
    method CloseSession(id: nat)
      requires id < |table| && table[id].target in conns
      modifies this`table, this`conns
      ensures View() == Close(old(View()), id)
    {
      if table[id].open {
        var t := table[id].target;
        table := table[id := table[id].(open := false)];
        conns := conns[t := conns[t] - 1];
      }
    }

    /** Under the read lock; the result is the session found. */
    method GetSession(key: Key, now: int) returns (id: Option<nat>)
      requires Valid()
      modifies this
      ensures Valid() && View() == Step(old(View()), timeout, Lookup(key, now))
      ensures id == if key in sessions then Some(sessions[key]) else None
    {
      StepKeepsInv(View(), timeout, Lookup(key, now));
      if key !in sessions {
        return None;
      }
      TouchSession(sessions[key], now);
      return Some(sessions[key]);
    }

    /** Under the write lock, looking the client up again first. `chosen` is None when no target is healthy
        or connecting to the selected one failed. */
    method CreateSession(key: Key, chosen: Option<Target>, now: int) returns (id: Option<nat>)
      requires Valid() && (chosen.Some? ==> chosen.value in conns)
      modifies this
      ensures Valid() && View() == Step(old(View()), timeout, Create(key, chosen, now))
      ensures id == if key in sessions then Some(sessions[key]) else None
      ensures id.Some? ==> table[id.value].open && table[id.value].lastActive == now
    {
      StepKeepsInv(View(), timeout, Create(key, chosen, now));
      if key in sessions {
        TouchSession(sessions[key], now);
        return Some(sessions[key]);
      }
      if chosen.None? {
        return None;
      }
      conns := conns[chosen.value := conns[chosen.value] + 1];
      sessions := sessions[key := |table|];
      table := table + [Session(key, chosen.value, now, true)];
      return Some(sessions[key]);
    }

    /** Lookup, then creation if nothing was found; with nobody in between, one session per client. */
    method GetOrCreateSession(key: Key, chosen: Option<Target>, now: int, later: int)
      returns (id: Option<nat>)
      requires Valid() && (chosen.Some? ==> chosen.value in conns)
      modifies this
      ensures Valid()
      ensures id == if key in sessions then Some(sessions[key]) else None
      ensures key in old(sessions) ==> id == Some(old(sessions)[key]) && sessions == old(sessions)
      ensures key !in old(sessions) ==>
        View() == Step(old(View()), timeout, Create(key, chosen, later)) && (id.None? <==> chosen.None?)
    {
      id := GetSession(key, now);
      if id.Some? {
        return;
      }
      id := CreateSession(key, chosen, later);
    }

    method RemoveSession(key: Key)
      requires Valid()
      modifies this
      ensures Valid() && View() == Step(old(View()), timeout, Remove(key))
    {
      StepKeepsInv(View(), timeout, Remove(key));
      if key in sessions {
        CloseAndDelete(key);
      }
    }

    method CloseAndDelete(key: Key)
      requires Valid() && key in sessions
      modifies this
      ensures View() == Step(old(View()), 0, Remove(key))
    {
      CloseSession(sessions[key]);
      sessions := sessions - {key};
    }

    /** Close the sessions of some clients, in any order. */
    method RetireSessions(keys: set<Key>)
      requires Valid() && keys <= sessions.Keys
      modifies this
      ensures Valid() && View() == Retire(old(View()), keys)
    {
      ghost var before := View();
      var left := keys;
      while left != {}
        invariant left <= keys && Retired(before, keys - left, View())
        decreases left
      {
        var key :| key in left;
        RetireOne(before, keys - left, View(), key);
        MoveOver(keys, left, key);
        CloseAndDelete(key);
        left := left - {key};
      }
      assert keys - {} == keys;
      AllRetired(before, keys, View());
    }

    method CloseSessions()
      requires Valid()
      modifies this
      ensures Valid() && View() == Step(old(View()), timeout, CloseAll)
    {
      RetireSessions(sessions.Keys);
    }

    method CleanupExpiredSessions(now: int)
      requires Valid()
      modifies this
      ensures Valid() && View() == Step(old(View()), timeout, Cleanup(now))
    {
      var idle := set k | k in sessions && now - table[sessions[k]].lastActive >= timeout;
      assert idle == set k | k in sessions && Idle(View(), timeout, k, now);
      RetireSessions(idle);
    }
  }

  lemma MoveOver(keys: set<Key>, left: set<Key>, key: Key)
    requires key in left && left <= keys
    ensures keys - left + {key} == keys - (left - {key})
  {
  }

  /** The clients in `done` have been retired and nothing else has changed. */
  ghost predicate Retired(before: State, done: set<Key>, now: State)
  {
    && Inv(now) && now.conns.Keys == before.conns.Keys
    && now.sessions == before.sessions - done
    && |now.table| == |before.table|
    && forall i :: 0 <= i < |now.table| ==>
         now.table[i] == before.table[i].(open := before.table[i].open && before.table[i].key !in done)
  }

  lemma RetireOne(before: State, done: set<Key>, now: State, key: Key)
    requires Inv(before) && Retired(before, done, now) && key in before.sessions && key !in done
    ensures Retired(before, done + {key}, Step(now, 0, Remove(key)))
  {
    RemoveKeeps(now, key);
    assert before.sessions - (done + {key}) == before.sessions - done - {key};
    assert forall i :: 0 <= i < |before.table| && before.table[i].open && before.table[i].key == key ==>
      i == before.sessions[key];
  }

  lemma AllRetired(before: State, keys: set<Key>, now: State)
    requires Inv(before) && keys <= before.sessions.Keys && Retired(before, keys, now)
    ensures now == Retire(before, keys)
  {
    RetireKeeps(before, keys);
    assert now.table == Retire(before, keys).table;
    SameCounters(now, Retire(before, keys));
  }

  /** The sessions determine the counters. */
  lemma SameCounters(a: State, b: State)
    requires Balanced(a) && Balanced(b) && a.table == b.table && a.sessions == b.sessions
    requires a.conns.Keys == b.conns.Keys
    ensures a == b
  {
    assert forall t :: t in a.conns ==> a.conns[t] == b.conns[t];
  }
}
