/**
 The UDP session table as a step machine. The steps are the critical sections of the server; sessions
 are named by the order in which they were created.
 */
module UdpModel {
  import opened Wrappers

  type Key = string
  type Target = string

  datatype Session = Session(key: Key, target: Target, lastActive: int, open: bool)

  datatype State = State(sessions: map<Key, nat>, table: seq<Session>, conns: map<Target, int>)

  datatype Op =
    | Lookup(key: Key, now: int)                         // getSession
    | Create(key: Key, chosen: Option<Target>, now: int) // the locked part of getOrCreateSession
    | Respond(id: nat, now: int)                         // a response goroutine saw traffic
    | Remove(key: Key)                                   // removeSession, by whoever
    | CloseAll
    | Cleanup(now: int)

  // ---------------------------------------------------------------- the steps

  function Touch(s: State, id: nat, now: int): State
  {
    if id < |s.table| then s.(table := s.table[id := s.table[id].(lastActive := now)]) else s
  }

  /** Closing happens once: only an open session gives its connection back. */
  function Close(s: State, id: nat): State
    requires id < |s.table| ==> s.table[id].target in s.conns
  {
    if id < |s.table| && s.table[id].open then
      var t := s.table[id].target;
      s.(table := s.table[id := s.table[id].(open := false)], conns := s.conns[t := s.conns[t] - 1])
    else s
  }

  ghost predicate KnownTargets(s: State)
  {
    forall i :: 0 <= i < |s.table| ==> s.table[i].target in s.conns
  }

  /** Close those of the first `n` sessions whose id is in `ids`. */
  function CloseThese(s: State, ids: set<nat>, n: nat): (r: State)
    requires KnownTargets(s)
    ensures KnownTargets(r) && r.sessions == s.sessions && r.conns.Keys == s.conns.Keys
    ensures |r.table| == |s.table|
    ensures forall i :: 0 <= i < |s.table| ==>
      r.table[i] == s.table[i].(open := s.table[i].open && !(i < n && i in ids))
  {
    if n == 0 then s
    else
      var t := CloseThese(s, ids, n - 1);
      if n - 1 in ids then Close(t, n - 1) else t
  }

  predicate Idle(s: State, timeout: int, key: Key, now: int)
  {
    key in s.sessions && s.sessions[key] < |s.table| && now - s.table[s.sessions[key]].lastActive >= timeout
  }

  function Retire(s: State, keys: set<Key>): State
    requires KnownTargets(s) && keys <= s.sessions.Keys
  {
    var ids := set k | k in keys :: s.sessions[k];
    CloseThese(s, ids, |s.table|).(sessions := s.sessions - keys)
  }

  function Step(s: State, timeout: int, op: Op): State
    requires KnownTargets(s)
  {
    match op
    case Lookup(key, now) => if key in s.sessions then Touch(s, s.sessions[key], now) else s
    case Create(key, chosen, now) =>
      if key in s.sessions then Touch(s, s.sessions[key], now)
      else if chosen.None? || chosen.value !in s.conns then s
      else s.(sessions := s.sessions[key := |s.table|],
              table := s.table + [Session(key, chosen.value, now, true)],
              conns := s.conns[chosen.value := s.conns[chosen.value] + 1])
    case Respond(id, now) => Touch(s, id, now)
    case Remove(key) =>
      if key in s.sessions then Close(s, s.sessions[key]).(sessions := s.sessions - {key}) else s
    case CloseAll => Retire(s, s.sessions.Keys)
    case Cleanup(now) => Retire(s, set k | k in s.sessions && Idle(s, timeout, k, now))
  }

  // ---------------------------------------------------------------- the invariant

  /** How many open sessions are bound to a target. */
  function OpenAt(table: seq<Session>, t: Target): nat
  {
    if table == [] then 0
    else OpenAt(table[..|table|-1], t)
         + if table[|table|-1].open && table[|table|-1].target == t then 1 else 0
  }

  /** The open sessions are exactly the values of the map, each under its own client's key. */
  ghost predicate MapIsOpen(s: State)
  {
    && (forall k :: k in s.sessions ==>
          s.sessions[k] < |s.table| && s.table[s.sessions[k]].open && s.table[s.sessions[k]].key == k)
    && (forall i :: 0 <= i < |s.table| && s.table[i].open ==>
          s.table[i].key in s.sessions && s.sessions[s.table[i].key] == i)
  }

  /** Each target's counter is the number of open sessions bound to it. */
  ghost predicate Balanced(s: State)
  {
    KnownTargets(s) && forall t :: t in s.conns ==> s.conns[t] == OpenAt(s.table, t)
  }

  ghost predicate Inv(s: State)
  {
    MapIsOpen(s) && Balanced(s)
  }

  lemma {:induction false} OpenAtUpdate(table: seq<Session>, i: nat, v: Session, t: Target)
    requires i < |table| && v.target == table[i].target
    ensures OpenAt(table[i := v], t)
            == OpenAt(table, t)
               + (if v.open && v.target == t then 1 else 0)
               - (if table[i].open && table[i].target == t then 1 else 0)
  {
    var front := table[..|table|-1];
    if i == |table| - 1 {
      assert table[i := v][..|table|-1] == front;
    } else {
      assert table[i := v][..|table|-1] == front[i := v];
      OpenAtUpdate(front, i, v, t);
    }
  }

  lemma TouchKeeps(s: State, id: nat, now: int)
    requires Inv(s)
    ensures Inv(Touch(s, id, now))
  {
    if id < |s.table| {
      forall t | t in s.conns ensures OpenAt(Touch(s, id, now).table, t) == OpenAt(s.table, t) {
        OpenAtUpdate(s.table, id, s.table[id].(lastActive := now), t);
      }
    }
  }

  lemma CloseBalanced(s: State, id: nat)
    requires Balanced(s)
    ensures Balanced(Close(s, id))
  {
    if id < |s.table| && s.table[id].open {
      forall t | t in s.conns ensures Close(s, id).conns[t] == OpenAt(Close(s, id).table, t) {
        OpenAtUpdate(s.table, id, s.table[id].(open := false), t);
      }
    }
  }

  lemma {:induction false} CloseTheseBalanced(s: State, ids: set<nat>, n: nat)
    requires Balanced(s)
    ensures Balanced(CloseThese(s, ids, n))
  {
    if n > 0 {
      CloseTheseBalanced(s, ids, n - 1);
      CloseBalanced(CloseThese(s, ids, n - 1), n - 1);
    }
  }

  lemma RetireKeeps(s: State, keys: set<Key>)
    requires Inv(s) && keys <= s.sessions.Keys
    ensures Inv(Retire(s, keys))
    ensures forall i :: 0 <= i < |s.table| ==>
      Retire(s, keys).table[i] == s.table[i].(open := s.table[i].open && s.table[i].key !in keys)
  {
    var ids := set k | k in keys :: s.sessions[k];
    CloseTheseBalanced(s, ids, |s.table|);
    forall i | 0 <= i < |s.table| && s.table[i].open ensures i in ids <==> s.table[i].key in keys {
      if i in ids {
        var k :| k in keys && s.sessions[k] == i;
      }
    }
  }

  lemma CreateKeeps(s: State, key: Key, t: Target, now: int)
    requires Inv(s) && key !in s.sessions && t in s.conns
    ensures Inv(s.(sessions := s.sessions[key := |s.table|],
                   table := s.table + [Session(key, t, now, true)],
                   conns := s.conns[t := s.conns[t] + 1]))
  {
    var table' := s.table + [Session(key, t, now, true)];
    assert table'[..|table'|-1] == s.table;
  }

  lemma RemoveKeeps(s: State, key: Key)
    requires Inv(s) && key in s.sessions
    ensures Inv(Close(s, s.sessions[key]).(sessions := s.sessions - {key}))
  {
    CloseBalanced(s, s.sessions[key]);
  }

  lemma CreateStepKeeps(s: State, timeout: int, op: Op)
    requires Inv(s) && op.Create?
    ensures Inv(Step(s, timeout, op))
  {
    if op.key in s.sessions {
      TouchKeeps(s, s.sessions[op.key], op.now);
    } else if op.chosen.Some? && op.chosen.value in s.conns {
      CreateKeeps(s, op.key, op.chosen.value, op.now);
    }
  }

  lemma RemoveStepKeeps(s: State, timeout: int, op: Op)
    requires Inv(s) && op.Remove?
    ensures Inv(Step(s, timeout, op))
  {
    if op.key in s.sessions {
      RemoveKeeps(s, op.key);
    }
  }

  lemma RetireStepKeeps(s: State, timeout: int, op: Op)
    requires Inv(s) && (op.CloseAll? || op.Cleanup?)
    ensures Inv(Step(s, timeout, op))
  {
    var keys := if op.CloseAll? then s.sessions.Keys else set k | k in s.sessions && Idle(s, timeout, k, op.now);
    RetireKeeps(s, keys);
    assert Step(s, timeout, op) == Retire(s, keys);
  }

  lemma {:induction false} StepKeepsInv(s: State, timeout: int, op: Op)
    requires Inv(s)
    ensures Inv(Step(s, timeout, op))
  {
    if op.Create? {
      CreateStepKeeps(s, timeout, op);
    } else if op.Lookup? {
      if op.key in s.sessions { TouchKeeps(s, s.sessions[op.key], op.now); }
    } else if op.Respond? {
      TouchKeeps(s, op.id, op.now);
    } else if op.Remove? {
      RemoveStepKeeps(s, timeout, op);
    } else {
      RetireStepKeeps(s, timeout, op);
    }
  }

  // ---------------------------------------------------------------- whole runs

  function Initial(targets: set<Target>): State
  {
    State(map[], [], map t | t in targets :: 0)
  }

  ghost predicate IsRun(states: seq<State>, timeout: int, ops: seq<Op>)
  {
    && |states| == |ops| + 1
    && forall i :: 0 <= i < |ops| ==> KnownTargets(states[i]) && states[i+1] == Step(states[i], timeout, ops[i])
  }

  /** In every run, whichever goroutines take which steps: the open sessions are exactly the map's values,
      each under its own client's key, and every counter is the number of open sessions of its target. */
  lemma {:induction false} RunKeepsInv(states: seq<State>, timeout: int, ops: seq<Op>, targets: set<Target>, n: nat)
    requires IsRun(states, timeout, ops) && states[0] == Initial(targets) && n <= |ops|
    ensures Inv(states[n])
  {
    if n > 0 {
      RunKeepsInv(states, timeout, ops, targets, n - 1);
      StepKeepsInv(states[n-1], timeout, ops[n-1]);
    }
  }

  /** A session's activity time after a step is the instant of the step exactly if the step is a lookup or a
      creation for the client whose session it is, or traffic on the session itself; otherwise it stays. Key
      and target never change. */
  lemma ActivityLaw(s: State, timeout: int, op: Op, i: nat)
    requires Inv(s) && i < |s.table|
    ensures var t := Step(s, timeout, op);
      && i < |t.table| && t.table[i].key == s.table[i].key && t.table[i].target == s.table[i].target
      && (op.Respond? && op.id == i ==> t.table[i].lastActive == op.now)
      && ((op.Lookup? || op.Create?) && op.key in s.sessions && s.sessions[op.key] == i ==>
            t.table[i].lastActive == op.now)
      && (!(op.Respond? && op.id == i)
          && !((op.Lookup? || op.Create?) && op.key in s.sessions && s.sessions[op.key] == i) ==>
            t.table[i].lastActive == s.table[i].lastActive)
  {
  }

  /** A creation makes a session exactly for a client that has none and a target that was found; it is the
      client's, open, on that target, and active now. */
  lemma CreationLaw(s: State, timeout: int, key: Key, chosen: Option<Target>, now: int)
    requires Inv(s) && (chosen.Some? ==> chosen.value in s.conns)
    ensures var t := Step(s, timeout, Create(key, chosen, now));
      && (|t.table| == |s.table| + 1 <==> key !in s.sessions && chosen.Some?)
      && (key !in s.sessions && chosen.Some? ==>
            && t.table == s.table + [Session(key, chosen.value, now, true)]
            && t.sessions == s.sessions[key := |s.table|])
      && (key !in s.sessions && chosen.None? ==> t == s)
  {
  }

  /** Hence at most one open session per client. */
  lemma OneOpenPerClient(s: State, i: nat, j: nat)
    requires Inv(s) && i < |s.table| && j < |s.table|
    requires s.table[i].open && s.table[j].open && s.table[i].key == s.table[j].key
    ensures i == j
  {
  }

  /** Cleanup closes exactly the open sessions idle for the timeout or longer, whatever their number. */
  lemma {:induction false} CleanupExact(s: State, timeout: int, now: int, i: nat)
    requires Inv(s) && i < |s.table|
    ensures var r := Step(s, timeout, Cleanup(now));
      && r.table[i] == s.table[i].(open := s.table[i].open && now - s.table[i].lastActive < timeout)
      && (r.table[i].open <==> s.table[i].key in r.sessions && r.sessions[s.table[i].key] == i)
  {
    StepKeepsInv(s, timeout, Cleanup(now));
    var keys := set k | k in s.sessions && Idle(s, timeout, k, now);
    RetireKeeps(s, keys);
    if s.table[i].open {
      assert s.table[i].key in keys <==> now - s.table[i].lastActive >= timeout;
    }
  }

  /** Stopping the server returns every counter to zero. */
  lemma CloseAllClears(s: State, timeout: int)
    requires Inv(s)
    ensures var r := Step(s, timeout, CloseAll);
      r.sessions == map[] && forall t :: t in r.conns ==> r.conns[t] == 0
  {
    StepKeepsInv(s, timeout, CloseAll);
    RetireKeeps(s, s.sessions.Keys);
    var r := Step(s, timeout, CloseAll);
    forall t | t in r.conns ensures r.conns[t] == 0 {
      NoneOpen(r.table, t);
    }
  }

  lemma {:induction false} NoneOpen(table: seq<Session>, t: Target)
    requires forall i :: 0 <= i < |table| ==> !table[i].open
    ensures OpenAt(table, t) == 0
  {
    if table != [] {
      NoneOpen(table[..|table|-1], t);
    }
  }

  /** A session's own removal goes by its client's address. It closes another open session exactly when the
      session itself is closed already and the client has a session again. */
  lemma RemovalHitsOtherIff(s: State, timeout: int, i: nat)
    requires Inv(s) && i < |s.table|
    ensures (exists j :: 0 <= j < |s.table| && j != i && s.table[j].open
               && !Step(s, timeout, Remove(s.table[i].key)).table[j].open)
            <==> !s.table[i].open && s.table[i].key in s.sessions
  {
    var key := s.table[i].key;
    var r := Step(s, timeout, Remove(key));
    if !s.table[i].open && key in s.sessions {
      var j := s.sessions[key];
      assert j != i && s.table[j].open && !r.table[j].open;
    }
  }

  /** The states of such a run: the client's session is cleaned up for idleness, the client comes back, and
      only then does the first session's response goroutine remove "its" session. */
  function StaleStates(key: Key, target: Target, timeout: int): seq<State>
  {
    var first, second := Session(key, target, 0, false), Session(key, target, timeout, true);
    [ Initial({target}),
      State(map[key := 0], [first.(open := true)], map[target := 1]),
      State(map[], [first], map[target := 0]),
      State(map[key := 1], [first, second], map[target := 1]),
      State(map[], [first, second.(open := false)], map[target := 0]) ]
  }

  lemma StaleRemovalReachable(key: Key, target: Target, timeout: int)
    requires timeout > 0
    ensures IsRun(StaleStates(key, target, timeout), timeout,
                  [Create(key, Some(target), 0), Cleanup(timeout), Create(key, Some(target), timeout), Remove(key)])
  {
    var states := StaleStates(key, target, timeout);
    assert states[1] == Step(states[0], timeout, Create(key, Some(target), 0));
    StaleCleanup(key, target, timeout);
    assert states[3] == Step(states[2], timeout, Create(key, Some(target), timeout));
    StaleRemoval(key, target, timeout);
  }

  lemma StaleCleanup(key: Key, target: Target, timeout: int)
    requires timeout > 0
    ensures var states := StaleStates(key, target, timeout);
      KnownTargets(states[1]) && states[2] == Step(states[1], timeout, Cleanup(timeout))
  {
    var s := StaleStates(key, target, timeout)[1];
    var keys := set k | k in s.sessions && Idle(s, timeout, k, timeout);
    assert keys == {key};
    var ids := set k | k in keys :: s.sessions[k];
    assert s.sessions[key] in ids;
    var closed := Close(s, 0);
    assert CloseThese(s, ids, |s.table|) == closed by {
      assert CloseThese(s, ids, 0) == s;
    }
    assert closed == State(s.sessions, [Session(key, target, 0, false)], map[target := 0]);
    assert s.sessions - keys == map[];
    assert Step(s, timeout, Cleanup(timeout)) == closed.(sessions := s.sessions - keys);
  }

  lemma StaleRemoval(key: Key, target: Target, timeout: int)
    ensures var states := StaleStates(key, target, timeout);
      KnownTargets(states[3]) && states[4] == Step(states[3], timeout, Remove(key))
  {
    var states := StaleStates(key, target, timeout);
    var s := states[3];
    assert Close(s, 1).table == states[4].table && Close(s, 1).conns == map[target := 0];
    assert s.sessions - {key} == map[];
  }

  /** Removal goes by client address, so a response goroutine whose session `stale` was already replaced
      closes the successor; each of the two sessions still gives its connection back exactly once. */
  lemma StaleRemovalClosesSuccessor(s: State, timeout: int, stale: nat)
    requires Inv(s) && stale < |s.table| && !s.table[stale].open && s.table[stale].key in s.sessions
    ensures var key := s.table[stale].key;
      var next := s.sessions[key];
      var r := Step(s, timeout, Remove(key));
      && next != stale && s.table[next].open && !r.table[next].open && r.table[stale] == s.table[stale]
      && r.conns == s.conns[s.table[next].target := s.conns[s.table[next].target] - 1]
      && key !in r.sessions && Inv(r)
  {
    StepKeepsInv(s, timeout, Remove(s.table[stale].key));
  }
}
