/**
 The proxy cache's generation lock. The steps are the critical sections and the ends of the waits between
 them; a channel is named by the order in which it was made, and closing a closed channel is a panic.
 */
module CacheLock {
  import opened Wrappers

  type Key = nat
  type Channel = nat

  datatype Entry = Entry(origKey: string, data: string, status: int, created: int, maxAge: int)

  /** How far a call for the lock has come, and what it was answered. */
  datatype Phase =
    | Granted(channel: Channel)   // answered "go ahead", having made the channel
    | Bypassed                    // answered "go ahead": an entry exists, or the lock is switched off
    | Waiting(channel: Channel)   // in the wait with a timer
    | Woken(channel: Channel)     // the wait ended with the channel closed: answered "go ahead"
    | TimedOut(channel: Channel)  // the wait ended with the timer: answered "timed out"
    | Handed(channel: Channel)    // without a timer: answered with the channel, on which the caller waits
    | Served(channel: Channel)    // that caller then found the entry
    | Resumed(channel: Channel)   // that caller found none and goes ahead

  datatype Call = Call(key: Key, phase: Phase)

  /** `owner[c]` is the key channel `c` was made for; `calls` are all calls so far, in order of arrival. */
  datatype State = State(entries: map<Key, Entry>, pending: map<Key, Channel>, owner: seq<Key>,
                         closed: set<Channel>, calls: seq<Call>, panicked: bool)

  const Initial := State(map[], map[], [], {}, [], false)

  datatype Op =
    | Acquire(key: Key, timeout: int)  // the locked part of a call
    | WakeUp(id: nat)                  // its timed wait ends with the channel
    | TimeOut(id: nat)                 // its timed wait ends with the timer, whatever the channel
    | Resume(id: nat, usable: bool)    // the holder of a channel, woken, looks at the cache again
    | Store(key: Key, entry: Entry)
    | Release(key: Key)
    | Delete(key: Key)
    | DeleteMatching(keys: set<Key>)

  function AcquirePhase(enabled: bool, s: State, key: Key, timeout: int): Phase
  {
    if !enabled || key in s.entries then Bypassed
    else if key in s.pending then (if timeout > 0 then Waiting(s.pending[key]) else Handed(s.pending[key]))
    else Granted(|s.owner|)
  }

  function AcquireStep(enabled: bool, s: State, key: Key, timeout: int): State
  {
    var phase := AcquirePhase(enabled, s, key, timeout);
    var t := s.(calls := s.calls + [Call(key, phase)]);
    if phase.Granted? then t.(pending := s.pending[key := |s.owner|], owner := s.owner + [key]) else t
  }

  function SetPhase(s: State, id: nat, phase: Phase): State
    requires id < |s.calls|
  {
    s.(calls := s.calls[id := s.calls[id].(phase := phase)])
  }

  /** The end of a wait; a wait that has not begun, or cannot end yet, leaves the state alone. */
  function WakeUpStep(s: State, id: nat): State
  {
    if id < |s.calls| && s.calls[id].phase.Waiting? && s.calls[id].phase.channel in s.closed then
      SetPhase(s, id, Woken(s.calls[id].phase.channel))
    else s
  }

  function TimeOutStep(s: State, id: nat): State
  {
    if id < |s.calls| && s.calls[id].phase.Waiting? then SetPhase(s, id, TimedOut(s.calls[id].phase.channel))
    else s
  }

  function ResumeStep(s: State, id: nat, usable: bool): State
  {
    if id < |s.calls| && s.calls[id].phase.Handed? && s.calls[id].phase.channel in s.closed then
      var c := s.calls[id].phase.channel;
      SetPhase(s, id, if s.calls[id].key in s.entries && usable then Served(c) else Resumed(c))
    else s
  }

  function Wake(s: State, key: Key): State
  {
    if key !in s.pending then s
    else
      var c := s.pending[key];
      s.(pending := s.pending - {key}, closed := s.closed + {c}, panicked := s.panicked || c in s.closed)
  }

  function Step(enabled: bool, s: State, op: Op): State
  {
    match op
    case Acquire(key, timeout) => AcquireStep(enabled, s, key, timeout)
    case WakeUp(id) => WakeUpStep(s, id)
    case TimeOut(id) => TimeOutStep(s, id)
    case Resume(id, usable) => ResumeStep(s, id, usable)
    case Store(key, entry) => Wake(s.(entries := s.entries[key := entry]), key)
    case Release(key) => if enabled then Wake(s, key) else s
    case Delete(key) => s.(entries := s.entries - {key})
    case DeleteMatching(keys) => s.(entries := s.entries - keys)
  }

  // ---------------------------------------------------------------- channels

  /** Has the caller been told, or decided, to generate the response itself? */
  predicate GoesAhead(p: Phase)
  {
    p.Granted? || p.Bypassed? || p.Woken? || p.TimedOut? || p.Resumed?
  }

  /** Does the caller wait, inside the call or with the channel it was handed? */
  predicate Parked(p: Phase)
  {
    p.Waiting? || p.Handed?
  }

  ghost predicate CallOk(s: State, i: nat)
    requires i < |s.calls|
  {
    !s.calls[i].phase.Bypassed? ==>
      s.calls[i].phase.channel < |s.owner| && s.owner[s.calls[i].phase.channel] == s.calls[i].key
  }

  /** A channel is open exactly while it is the pending channel of its key; no key has both an entry and a
      pending channel; nothing panicked. */
  ghost predicate ChannelsOk(s: State)
  {
    && !s.panicked
    && (forall k :: k in s.pending ==> s.pending[k] < |s.owner| && s.owner[s.pending[k]] == k)
    && (forall c :: 0 <= c < |s.owner| ==>
          (c !in s.closed <==> s.owner[c] in s.pending && s.pending[s.owner[c]] == c))
    && (forall c :: c in s.closed ==> c < |s.owner|)
    && s.entries.Keys !! s.pending.Keys
  }

  /** Besides, every call's channel was made for its key, and by one call only. */
  ghost predicate Inv(s: State)
  {
    && ChannelsOk(s)
    && (forall i :: 0 <= i < |s.calls| ==> CallOk(s, i))
    && (forall i, j :: 0 <= i < j < |s.calls| && s.calls[i].phase.Granted? && s.calls[j].phase.Granted? ==>
          s.calls[i].phase.channel != s.calls[j].phase.channel)
  }

  lemma WakeKeeps(s: State, key: Key, before: State)
    requires ChannelsOk(before) && s == before.(entries := s.entries)
    requires s.entries.Keys <= before.entries.Keys + {key}
    ensures ChannelsOk(Wake(s, key))
  {
    if key in s.pending {
      assert s.owner[s.pending[key]] == key;
    }
  }

  lemma ChannelsKept(enabled: bool, s: State, op: Op)
    requires ChannelsOk(s)
    ensures ChannelsOk(Step(enabled, s, op))
  {
    if op.Store? {
      WakeKeeps(s.(entries := s.entries[op.key := op.entry]), op.key, s);
    } else if op.Release? {
      WakeKeeps(s, op.key, s);
    }
  }

  /** A step leaves what is known of a call - its key, and its channel if it has one. */
  lemma CallStays(enabled: bool, s: State, op: Op, i: nat)
    requires i < |s.calls|
    ensures var t := Step(enabled, s, op);
      && |s.calls| <= |t.calls| && |s.owner| <= |t.owner| && s.owner == t.owner[..|s.owner|]
      && t.calls[i].key == s.calls[i].key
      && (Parked(s.calls[i].phase) ==>
            !t.calls[i].phase.Bypassed? && !t.calls[i].phase.Granted?
            && t.calls[i].phase.channel == s.calls[i].phase.channel)
      && (!Parked(s.calls[i].phase) ==> t.calls[i] == s.calls[i])
  {
  }

  lemma StepKeepsInv(enabled: bool, s: State, op: Op)
    requires Inv(s)
    ensures Inv(Step(enabled, s, op))
  {
    ChannelsKept(enabled, s, op);
    var t := Step(enabled, s, op);
    forall i | 0 <= i < |s.calls|
      ensures CallOk(t, i) && (t.calls[i].phase.Granted? ==> t.calls[i] == s.calls[i])
    {
      assert CallOk(s, i);
      CallStays(enabled, s, op, i);
    }
    if op.Acquire? {
      AcquireKeepsCalls(enabled, s, op.key, op.timeout);
    }
  }

  lemma AcquireKeepsCalls(enabled: bool, s: State, key: Key, timeout: int)
    requires Inv(s)
    ensures CallOk(AcquireStep(enabled, s, key, timeout), |s.calls|)
    ensures AcquirePhase(enabled, s, key, timeout).Granted? ==>
      forall i :: 0 <= i < |s.calls| && s.calls[i].phase.Granted? ==> s.calls[i].phase.channel < |s.owner|
  {
    forall i | 0 <= i < |s.calls| && s.calls[i].phase.Granted?
      ensures s.calls[i].phase.channel < |s.owner| {
      assert CallOk(s, i);
    }
  }

  function Run(enabled: bool, s: State, ops: seq<Op>): State
  {
    if ops == [] then s else Step(enabled, Run(enabled, s, ops[..|ops|-1]), ops[|ops|-1])
  }

  lemma {:induction false} RunKeepsInv(enabled: bool, s: State, ops: seq<Op>)
    requires Inv(s)
    ensures Inv(Run(enabled, s, ops))
  {
    if ops != [] {
      RunKeepsInv(enabled, s, ops[..|ops|-1]);
      StepKeepsInv(enabled, Run(enabled, s, ops[..|ops|-1]), ops[|ops|-1]);
    }
  }

  lemma RunSnoc(enabled: bool, s: State, ops: seq<Op>, op: Op)
    ensures Run(enabled, s, ops + [op]) == Step(enabled, Run(enabled, s, ops), op)
  {
    assert (ops + [op])[..|ops|] == ops;
  }

  /** Over every interleaving: no channel is closed twice; at most one channel per key is open, and each was
      made for one call; and every parked call's channel is closed or still its key's pending channel. */
  lemma {:induction false} LockSafety(enabled: bool, ops: seq<Op>)
    ensures var s := Run(enabled, Initial, ops);
      && !s.panicked
      && (forall c, d | 0 <= c < |s.owner| && 0 <= d < |s.owner| && c !in s.closed && d !in s.closed ::
            s.owner[c] == s.owner[d] ==> c == d)
      && (forall i, j :: 0 <= i < j < |s.calls| && s.calls[i].phase.Granted? && s.calls[j].phase.Granted? ==>
            s.calls[i].phase.channel != s.calls[j].phase.channel)
      && (forall i :: 0 <= i < |s.calls| && Parked(s.calls[i].phase) ==>
            s.calls[i].phase.channel in s.closed
            || (s.calls[i].key in s.pending && s.pending[s.calls[i].key] == s.calls[i].phase.channel))
  {
    RunKeepsInv(enabled, Initial, ops);
    var s := Run(enabled, Initial, ops);
    forall i | 0 <= i < |s.calls| && Parked(s.calls[i].phase)
      ensures s.calls[i].phase.channel in s.closed
        || (s.calls[i].key in s.pending && s.pending[s.calls[i].key] == s.calls[i].phase.channel) {
      assert CallOk(s, i);
    }
  }

  /** Storing an entry, or releasing the lock, closes the channel of everybody parked for that key. */
  lemma {:induction false} WakesAllWaiters(enabled: bool, ops: seq<Op>, key: Key, entry: Entry, i: nat)
    requires var s := Run(enabled, Initial, ops);
      i < |s.calls| && s.calls[i].key == key && Parked(s.calls[i].phase)
    ensures var s := Run(enabled, Initial, ops);
      && s.calls[i].phase.channel in Step(enabled, s, Store(key, entry)).closed
      && (enabled ==> s.calls[i].phase.channel in Step(enabled, s, Release(key)).closed)
  {
    RunKeepsInv(enabled, Initial, ops);
    assert CallOk(Run(enabled, Initial, ops), i);
  }

  /** The entries after a step: a store puts the entry under its key, a deletion removes just its keys, and
      nothing else changes any; deletions leave the channels alone. */
  lemma EntriesLaw(enabled: bool, s: State, op: Op, key: Key)
    ensures var t := Step(enabled, s, op);
      && (key in t.entries <==>
            (op.Store? && op.key == key)
            || (key in s.entries && !(op.Delete? && op.key == key) && !(op.DeleteMatching? && key in op.keys)))
      && (key in t.entries ==>
            t.entries[key] == if op.Store? && op.key == key then op.entry else s.entries[key])
      && (op.Delete? || op.DeleteMatching? ==>
            t.pending == s.pending && t.closed == s.closed && t.owner == s.owner && t.calls == s.calls)
  {
  }

  /** Switched off, the lock answers every call at once, and neither calls nor releases do anything else. */
  lemma DisabledLaw(s: State, key: Key, timeout: int)
    ensures Step(false, s, Acquire(key, timeout)) == s.(calls := s.calls + [Call(key, Bypassed)])
    ensures Step(false, s, Release(key)) == s
  {
  }

  // ---------------------------------------------------------------- who goes ahead while a channel is pending

  /** Does a run store or release this key? */
  predicate Finishes(ops: seq<Op>, key: Key)
  {
    exists i :: 0 <= i < |ops| && (ops[i].Store? || ops[i].Release?) && ops[i].key == key
  }

  lemma FinishesFront(ops: seq<Op>, key: Key)
    requires ops != [] && !Finishes(ops, key)
    ensures !Finishes(ops[..|ops|-1], key)
    ensures !((ops[|ops|-1].Store? || ops[|ops|-1].Release?) && ops[|ops|-1].key == key)
  {
    var front := ops[..|ops|-1];
    forall i | 0 <= i < |front| ensures !((front[i].Store? || front[i].Release?) && front[i].key == key) {
      assert front[i] == ops[i];
    }
  }

  /** What a call for a key may have become since `s`, the key's channel `c` being pending all along: a call
      that had been answered stays; one parked with a timer on `c` waits or timed out; one handed `c` still
      holds it; one parked on an older channel is free. */
  ghost predicate Overtaking(s: State, t: State, c: Channel, i: nat)
    requires i < |t.calls|
  {
    if i < |s.calls| && !Parked(s.calls[i].phase) then t.calls[i] == s.calls[i]
    else if i < |s.calls| && s.calls[i].phase.channel != c then
      !t.calls[i].phase.Granted? && !t.calls[i].phase.Bypassed? && t.calls[i].phase.channel != c
    else
      && (t.calls[i].phase == Waiting(c) || t.calls[i].phase == TimedOut(c) || t.calls[i].phase == Handed(c))
      && (i < |s.calls| ==> (t.calls[i].phase.Handed? <==> s.calls[i].phase.Handed?))
  }

  /** The key is still pending on the same channel, and all its calls are as above. */
  ghost predicate StillFlying(s: State, t: State, key: Key)
    requires key in s.pending
  {
    && Inv(t) && key in t.pending && t.pending[key] == s.pending[key] && |s.calls| <= |t.calls|
    && (forall i :: 0 <= i < |s.calls| ==> t.calls[i].key == s.calls[i].key)
    && (forall i :: 0 <= i < |t.calls| && t.calls[i].key == key ==> Overtaking(s, t, s.pending[key], i))
  }

  lemma OvertakingStep(s: State, t: State, key: Key, op: Op, i: nat)
    requires key in s.pending && StillFlying(s, t, key)
    requires !((op.Store? || op.Release?) && op.key == key)
    requires i < |t.calls| && t.calls[i].key == key
    ensures i < |Step(true, t, op).calls| && Overtaking(s, Step(true, t, op), s.pending[key], i)
  {
    assert s.pending[key] !in t.closed;
    assert Overtaking(s, t, s.pending[key], i);
    CallStays(true, t, op, i);
  }

  /** A call that arrives is parked on the pending channel. */
  lemma ArrivalParks(s: State, t: State, key: Key, op: Op)
    requires key in s.pending && StillFlying(s, t, key)
    ensures var u := Step(true, t, op);
      |u.calls| > |t.calls| && u.calls[|t.calls|].key == key ==> Overtaking(s, u, s.pending[key], |t.calls|)
  {
  }

  lemma PendingStays(t: State, key: Key, op: Op)
    requires Inv(t) && key in t.pending && !((op.Store? || op.Release?) && op.key == key)
    ensures var u := Step(true, t, op);
      && key in u.pending && u.pending[key] == t.pending[key]
      && |t.calls| <= |u.calls| <= |t.calls| + 1
      && forall i :: 0 <= i < |t.calls| ==> u.calls[i].key == t.calls[i].key
  {
  }

  lemma FlyingStep(s: State, t: State, key: Key, op: Op)
    requires key in s.pending && StillFlying(s, t, key)
    requires !((op.Store? || op.Release?) && op.key == key)
    ensures StillFlying(s, Step(true, t, op), key)
  {
    StepKeepsInv(true, t, op);
    PendingStays(t, key, op);
    ArrivalParks(s, t, key, op);
    var u := Step(true, t, op);
    forall i | 0 <= i < |u.calls| && u.calls[i].key == key ensures Overtaking(s, u, s.pending[key], i) {
      if i < |t.calls| {
        OvertakingStep(s, t, key, op, i);
      }
    }
  }

  /** Single flight, with what it leaves open: once a key's channel is pending, and until the key is stored or
      released - deletions included - the channel stays, nobody is granted the lock or bypasses it, and
      whoever else is told to go ahead had its wait time out, or was parked on an older channel of the key. */
  lemma {:induction false} SingleFlight(s: State, key: Key, ops: seq<Op>)
    requires Inv(s) && key in s.pending && !Finishes(ops, key)
    ensures StillFlying(s, Run(true, s, ops), key)
  {
    if ops == [] {
      forall i | 0 <= i < |s.calls| && s.calls[i].key == key ensures Overtaking(s, s, s.pending[key], i) {
        assert CallOk(s, i);
      }
    } else {
      FinishesFront(ops, key);
      SingleFlight(s, key, ops[..|ops|-1]);
      FlyingStep(s, Run(true, s, ops[..|ops|-1]), key, ops[|ops|-1]);
    }
  }

  /** May call `id` be told to go ahead before the key is stored or released? */
  ghost predicate MayOvertake(s: State, key: Key, id: nat)
  {
    exists ops :: !Finishes(ops, key) && Ahead(Run(true, s, ops), id)
  }

  predicate Ahead(s: State, id: nat)
  {
    id < |s.calls| && GoesAhead(s.calls[id].phase)
  }

  lemma OneStep(s: State, key: Key, id: nat, op: Op)
    requires !((op.Store? || op.Release?) && op.key == key) && Ahead(Step(true, s, op), id)
    ensures MayOvertake(s, key, id)
  {
    assert [op][..0] == [];
    assert Run(true, s, [op]) == Step(true, s, op);
    assert !Finishes([op], key);
  }

  /** A parked caller may overtake the one that was granted the lock exactly when it waits with a timer, or
      was parked on an older channel of the key. */
  lemma {:induction false} OvertakesIff(s: State, id: nat)
    requires Inv(s) && id < |s.calls| && Parked(s.calls[id].phase) && s.calls[id].key in s.pending
    ensures MayOvertake(s, s.calls[id].key, id)
      <==> s.calls[id].phase.Waiting? || s.calls[id].phase.channel != s.pending[s.calls[id].key]
  {
    var key, phase := s.calls[id].key, s.calls[id].phase;
    assert CallOk(s, id);
    if phase.Waiting? {
      OneStep(s, key, id, TimeOut(id));
    } else if phase.channel != s.pending[key] {
      OneStep(s, key, id, Resume(id, true));
    } else {
      forall ops | !Finishes(ops, key) ensures !Ahead(Run(true, s, ops), id) {
        SingleFlight(s, key, ops);
        assert Overtaking(s, Run(true, s, ops), s.pending[key], id);
      }
    }
  }

  /** A caller that arrives may go ahead before the key is next stored or released exactly when the key is not
      pending - it is then granted the lock, or bypasses it because there is an entry, expired or not - or it
      came with a timeout. So the promise that only the granted caller generates the response holds for calls
      without a timeout, and for no others. */
  lemma {:induction false} ArrivalGoesAheadIff(s: State, key: Key, timeout: int)
    requires Inv(s)
    ensures MayOvertake(Step(true, s, Acquire(key, timeout)), key, |s.calls|)
      <==> key !in s.pending || timeout > 0
  {
    var t := Step(true, s, Acquire(key, timeout));
    StepKeepsInv(true, s, Acquire(key, timeout));
    if key in s.pending {
      OvertakesIff(t, |s.calls|);
    } else {
      assert Run(true, t, []) == t && Ahead(Run(true, t, []), |s.calls|) && !Finishes([], key);
    }
  }

  // ---------------------------------------------------------------- who goes ahead after a wake

  /** The steps that end the wait of a parked call. */
  predicate EndsWait(op: Op, id: nat)
  {
    (op.WakeUp? || op.TimeOut? || op.Resume?) && op.id == id
  }

  /** The step that ends the wait of a call whose channel is closed. */
  lemma {:induction false} EndOfWait(s: State, id: nat, op: Op)
    requires Inv(s) && id < |s.calls| && Parked(s.calls[id].phase) && s.calls[id].phase.channel in s.closed
    requires EndsWait(op, id) && (op.Resume? <==> s.calls[id].phase.Handed?)
    ensures var t := Step(true, s, op);
      && (Ahead(t, id) <==> s.calls[id].phase.Waiting? || !(s.calls[id].key in s.entries && op.usable))
      && !Parked(t.calls[id].phase)
      && t.pending == s.pending && t.owner == s.owner && t.entries == s.entries
  {
    if op.Resume? {
      assert s.calls[id].phase.Handed?;
    }
  }

  /** A call that waits with a timer on channel `c`, or did. */
  predicate WaitedOn(s: State, id: nat, c: Channel)
  {
    && id < |s.calls|
    && (s.calls[id].phase == Waiting(c) || s.calls[id].phase == Woken(c) || s.calls[id].phase == TimedOut(c))
  }

  lemma WaitingStep(s: State, id: nat, c: Channel, op: Op)
    requires WaitedOn(s, id, c)
    ensures WaitedOn(Step(true, s, op), id, c)
  {
  }

  /** However long it takes and whatever is stored meanwhile, a caller that waits with a timer either still
      waits or goes ahead: it is never served what it waited for. */
  lemma {:induction false} WaitingGoesAhead(s: State, id: nat, ops: seq<Op>)
    requires id < |s.calls| && s.calls[id].phase.Waiting?
    ensures var t := Run(true, s, ops);
      WaitedOn(t, id, s.calls[id].phase.channel) && (Ahead(t, id) <==> !t.calls[id].phase.Waiting?)
  {
    if ops != [] {
      WaitingGoesAhead(s, id, ops[..|ops|-1]);
      WaitingStep(Run(true, s, ops[..|ops|-1]), id, s.calls[id].phase.channel, ops[|ops|-1]);
    }
  }

  /** The `k`-th step of a run ends the wait of a caller that was handed its channel, without a usable entry. */
  predicate ResumesEmpty(s: State, id: nat, ops: seq<Op>, k: nat)
    requires k < |ops|
  {
    var t := Run(true, s, ops[..k]);
    && ops[k].Resume? && ops[k].id == id
    && id < |t.calls| && t.calls[id].phase.Handed? && t.calls[id].phase.channel in t.closed
    && !(t.calls[id].key in t.entries && ops[k].usable)
  }

  ghost predicate ResumedEmpty(s: State, id: nat, ops: seq<Op>)
  {
    exists k :: 0 <= k < |ops| && ResumesEmpty(s, id, ops, k)
  }

  lemma ResumedEmptyFront(s: State, id: nat, ops: seq<Op>)
    requires ops != []
    ensures ResumedEmpty(s, id, ops)
      <==> ResumedEmpty(s, id, ops[..|ops|-1]) || ResumesEmpty(s, id, ops, |ops| - 1)
  {
    var front := ops[..|ops|-1];
    forall k | 0 <= k < |front| ensures ResumesEmpty(s, id, front, k) <==> ResumesEmpty(s, id, ops, k) {
      assert front[..k] == ops[..k];
    }
  }

  /** A call that was handed channel `c` and still waits for it, or whose wait ended after the close. */
  predicate WasHanded(s: State, id: nat, key: Key, c: Channel)
  {
    && id < |s.calls| && s.calls[id].key == key
    && (s.calls[id].phase == Handed(c)
        || (c in s.closed && (s.calls[id].phase == Served(c) || s.calls[id].phase == Resumed(c))))
  }

  /** The step ends the wait. */
  predicate EndsHanded(s: State, id: nat, c: Channel, op: Op)
  {
    id < |s.calls| && s.calls[id].phase == Handed(c) && op.Resume? && op.id == id && c in s.closed
  }

  lemma HandedStep(s: State, id: nat, key: Key, c: Channel, op: Op)
    requires WasHanded(s, id, key, c)
    ensures WasHanded(Step(true, s, op), id, key, c)
    ensures Step(true, s, op).calls[id].phase ==
      if !EndsHanded(s, id, c, op) then s.calls[id].phase
      else if key in s.entries && op.usable then Served(c) else Resumed(c)
  {
  }

  lemma {:induction false} HandedRun(s: State, id: nat, key: Key, c: Channel, ops: seq<Op>)
    requires WasHanded(s, id, key, c)
    ensures WasHanded(Run(true, s, ops), id, key, c)
  {
    if ops != [] {
      HandedRun(s, id, key, c, ops[..|ops|-1]);
      HandedStep(Run(true, s, ops[..|ops|-1]), id, key, c, ops[|ops|-1]);
    }
  }

  /** One that was handed its channel has, after any run, gone ahead if and only if some step of the run ended
      its wait without a usable entry. */
  lemma {:induction false} HandedGoesAheadIff(s: State, id: nat, ops: seq<Op>)
    requires id < |s.calls| && s.calls[id].phase.Handed?
    ensures Ahead(Run(true, s, ops), id) <==> ResumedEmpty(s, id, ops)
  {
    if ops != [] {
      var key, c := s.calls[id].key, s.calls[id].phase.channel;
      var front, last := ops[..|ops|-1], ops[|ops|-1];
      HandedGoesAheadIff(s, id, front);
      ResumedEmptyFront(s, id, ops);
      HandedRun(s, id, key, c, front);
      HandedStep(Run(true, s, front), id, key, c, last);
    }
  }

  /** And while that channel is pending it only waits. */
  lemma {:induction false} HandedWaits(s: State, id: nat, ops: seq<Op>)
    requires Inv(s) && id < |s.calls| && s.calls[id].phase.Handed?
    requires var t, key := Run(true, s, ops), s.calls[id].key;
      key in t.pending && t.pending[key] == s.calls[id].phase.channel
    ensures id < |Run(true, s, ops).calls| && Run(true, s, ops).calls[id] == s.calls[id]
  {
    var key, c := s.calls[id].key, s.calls[id].phase.channel;
    RunKeepsInv(true, s, ops);
    HandedRun(s, id, key, c, ops);
    assert Run(true, s, ops).owner[c] == key;
  }

  function Times(op: Op, n: nat): seq<Op>
  {
    if n == 0 then [] else Times(op, n - 1) + [op]
  }

  function WakeAll(n: nat): seq<Op>
  {
    if n == 0 then [] else WakeAll(n - 1) + [WakeUp(n)]
  }

  /** One caller granted the lock, `n` more with a timeout, then the entry is stored and they wake up. */
  function Herd(key: Key, timeout: int, entry: Entry, n: nat): seq<Op>
  {
    Times(Acquire(key, timeout), n + 1) + [Store(key, entry)] + WakeAll(n)
  }

  function Crowd(key: Key, n: nat): seq<Call>
  {
    if n == 0 then [Call(key, Granted(0))] else Crowd(key, n - 1) + [Call(key, Waiting(0))]
  }

  lemma {:induction false} CrowdMembers(key: Key, n: nat)
    ensures |Crowd(key, n)| == n + 1 && Crowd(key, n)[0] == Call(key, Granted(0))
    ensures forall i :: 1 <= i <= n ==> Crowd(key, n)[i] == Call(key, Waiting(0))
  {
    if n > 0 {
      CrowdMembers(key, n - 1);
    }
  }

  lemma {:induction false} CrowdGathers(key: Key, timeout: int, n: nat)
    requires timeout > 0
    ensures Run(true, Initial, Times(Acquire(key, timeout), n + 1))
            == State(map[], map[key := 0], [key], {}, Crowd(key, n), false)
  {
    var op := Acquire(key, timeout);
    RunSnoc(true, Initial, Times(op, n), op);
    if n == 0 {
      assert Times(op, 0) == [];
      assert Initial.owner + [key] == [key] && Initial.calls + [Call(key, Granted(0))] == Crowd(key, 0);
    } else {
      CrowdGathers(key, timeout, n - 1);
    }
  }

  lemma {:induction false} CrowdStored(key: Key, timeout: int, entry: Entry, n: nat)
    requires timeout > 0
    ensures Run(true, Initial, Times(Acquire(key, timeout), n + 1) + [Store(key, entry)])
            == State(map[key := entry], map[], [key], {0}, Crowd(key, n), false)
  {
    CrowdGathers(key, timeout, n);
    RunSnoc(true, Initial, Times(Acquire(key, timeout), n + 1), Store(key, entry));
    var gathered := State(map[], map[key := 0], [key], {}, Crowd(key, n), false);
    assert gathered.pending - {key} == map[] && {} + {0} == {0};
    assert Wake(gathered.(entries := map[key := entry]), key)
        == State(map[key := entry], map[], [key], {0}, Crowd(key, n), false);
  }

  lemma {:induction false} CrowdWakes(s: State, key: Key, m: nat, n: nat)
    requires m <= n && s.calls == Crowd(key, n) && 0 in s.closed
    ensures var t := Run(true, s, WakeAll(m));
      && t == s.(calls := t.calls) && |t.calls| == n + 1 && t.calls[0] == Call(key, Granted(0))
      && (forall i :: 1 <= i <= n ==> t.calls[i] == Call(key, if i <= m then Woken(0) else Waiting(0)))
  {
    CrowdMembers(key, n);
    if m > 0 {
      CrowdWakes(s, key, m - 1, n);
      RunSnoc(true, s, WakeAll(m - 1), WakeUp(m));
      var t := Run(true, s, WakeAll(m - 1));
      assert t.calls[m].phase == Waiting(0);
      assert WakeUpStep(t, m) == t.(calls := t.calls[m := Call(key, Woken(0))]);
    }
  }

  lemma {:induction false} RunConcat(s: State, a: seq<Op>, b: seq<Op>)
    ensures Run(true, s, a + b) == Run(true, Run(true, s, a), b)
  {
    if b == [] {
      assert a + b == a;
    } else {
      assert (a + b)[..|a + b|-1] == a + b[..|b|-1];
      RunConcat(s, a, b[..|b|-1]);
    }
  }

  /** So waiting with a timeout saves nothing: with `n` callers waiting, all of them go ahead although the
      entry they waited for is stored, and only the first ever had a channel. */
  lemma {:induction false} HerdAfterStore(key: Key, timeout: int, entry: Entry, n: nat)
    requires timeout > 0
    ensures var t := Run(true, Initial, Herd(key, timeout, entry, n));
      && key in t.entries && |t.calls| == n + 1 && |t.owner| == 1
      && (forall i :: 0 <= i <= n ==> GoesAhead(t.calls[i].phase))
      && (forall i :: 1 <= i <= n ==> t.calls[i].phase.Woken?)
  {
    var stored := Times(Acquire(key, timeout), n + 1) + [Store(key, entry)];
    CrowdStored(key, timeout, entry, n);
    RunConcat(Initial, stored, WakeAll(n));
    CrowdWakes(Run(true, Initial, stored), key, n, n);
  }

  /** And a wait can time out while the key is still pending: the second caller then goes ahead beside the
      first. */
  lemma {:induction false} TimeoutOvertakes(key: Key, timeout: int)
    requires timeout > 0
    ensures var t := Run(true, Initial, Times(Acquire(key, timeout), 2) + [TimeOut(1)]);
      && key in t.pending && t.calls == [Call(key, Granted(0)), Call(key, TimedOut(0))]
  {
    CrowdGathers(key, timeout, 1);
    CrowdMembers(key, 1);
    RunSnoc(true, Initial, Times(Acquire(key, timeout), 2), TimeOut(1));
  }

  /** An expired entry admits any number of callers at once, and no channel is made. */
  lemma {:induction false} Stampede(s: State, key: Key, timeout: int, n: nat)
    requires key in s.entries
    ensures var t := Run(true, s, Times(Acquire(key, timeout), n));
      && t == s.(calls := t.calls) && |t.calls| == |s.calls| + n
      && forall i :: |s.calls| <= i < |t.calls| ==> t.calls[i] == Call(key, Bypassed)
  {
    if n > 0 {
      Stampede(s, key, timeout, n - 1);
      RunSnoc(true, s, Times(Acquire(key, timeout), n - 1), Acquire(key, timeout));
    }
  }

  /** The cache object: its maps, and the channels made so far. */
  class ProxyCache {
    const cacheLock: bool
    var entries: map<Key, Entry>
    var pending: map<Key, Channel>
    var made: nat
    var closed: set<Channel>
    var panicked: bool
    ghost var owner: seq<Key>
    ghost var calls: seq<Call>

    ghost function View(): State
      reads this
    {
      State(entries, pending, owner, closed, calls, panicked)
    }

    ghost predicate Valid()
      reads this
    {
      Inv(View()) && made == |owner|
    }

    constructor (cacheLock: bool)
      ensures Valid() && View() == Initial && this.cacheLock == cacheLock
    {
      this.cacheLock := cacheLock;
      entries, pending, made, closed, panicked := map[], map[], 0, {}, false;
      owner, calls := [], [];
    }

    method Close(c: Channel)
      modifies this`closed, this`panicked
      ensures closed == old(closed) + {c} && panicked == (old(panicked) || c in old(closed))
    {
      if c in closed {
        panicked := true;
      }
      closed := closed + {c};
    }

    /** The locked part of a call; `Waiting` means that the call goes on to wait, every other phase is its
        answer. */
    method AcquireLock(key: Key, timeout: int) returns (phase: Phase)
      requires Valid()
      modifies this
      ensures Valid() && View() == Step(cacheLock, old(View()), Acquire(key, timeout))
      ensures phase == AcquirePhase(cacheLock, old(View()), key, timeout)
    {
      StepKeepsInv(cacheLock, View(), Acquire(key, timeout));
      phase := Bypassed;
      if cacheLock && key !in entries {
        if key in pending {
          var c := pending[key];
          phase := if timeout > 0 then Waiting(c) else Handed(c);
        } else {
          phase := Granted(made);
          pending := pending[key := made];
          owner, made := owner + [key], made + 1;
        }
      }
      calls := calls + [Call(key, phase)];
    }

    /** The rest of a call that waits, `timer` telling what ended the wait; the call answers "timed out" or
        "go ahead", never looking at the entries again. */
    method EndWait(c: Channel, timer: bool, ghost id: nat) returns (timedOut: bool)
      requires Valid() && id < |calls| && calls[id].phase == Waiting(c) && (!timer ==> c in closed)
      modifies this`calls
      ensures Valid()
      ensures View() == Step(cacheLock, old(View()), if timer then TimeOut(id) else WakeUp(id))
      ensures timedOut == timer && Ahead(View(), id)
    {
      StepKeepsInv(cacheLock, View(), if timer then TimeOut(id) else WakeUp(id));
      calls := calls[id := calls[id].(phase := if timer then TimedOut(c) else Woken(c))];
      return timer;
    }

    method Set(key: Key, entry: Entry)
      requires Valid()
      modifies this
      ensures Valid() && View() == Step(cacheLock, old(View()), Store(key, entry))
    {
      StepKeepsInv(cacheLock, View(), Store(key, entry));
      entries := entries[key := entry];
      if key in pending {
        Close(pending[key]);
        pending := pending - {key};
      }
    }

    method ReleaseLock(key: Key)
      requires Valid()
      modifies this
      ensures Valid() && View() == Step(cacheLock, old(View()), Release(key))
    {
      StepKeepsInv(cacheLock, View(), Release(key));
      if !cacheLock {
        return;
      }
      if key in pending {
        Close(pending[key]);
        pending := pending - {key};
      }
    }

    method Delete(key: Key)
      requires Valid()
      modifies this
      ensures Valid() && View() == Step(cacheLock, old(View()), Op.Delete(key))
    {
      StepKeepsInv(cacheLock, View(), Op.Delete(key));
      entries := entries - {key};
    }

    /** Deletion by pattern; `matching` are the keys whose entry the pattern selects. */
    method DeleteByPattern(matching: Entry -> bool) returns (deleted: nat)
      requires Valid()
      modifies this
      ensures Valid()
      ensures var keys := set k | k in old(entries) && matching(old(entries)[k]);
        View() == Step(cacheLock, old(View()), DeleteMatching(keys)) && deleted == |keys|
    {
      var keys := set k | k in entries && matching(entries[k]);
      StepKeepsInv(cacheLock, View(), DeleteMatching(keys));
      deleted := |keys|;
      entries := entries - keys;
    }
  }
}
