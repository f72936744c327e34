/**
 Lua coroutine creation and release as a step machine: the optimistic coroutine counter and the pool of
 interpreter states. States and coroutines are named by the order in which they were made.
 */
module EngineModel {
  import opened Wrappers

  /** How far a coroutine has come. */
  datatype Phase =
    | Rejected            // over the limit, still counted
    | Admitted            // within the limit, without an interpreter state
    | Starved             // found the pool exhausted, still counted
    | Live(state: nat)
    | Returned            // has given its state back, still counted
    | Gone

  datatype Limits = Limits(maxCoroutines: int, maxSize: int)

  datatype State = State(pool: seq<nat>, made: nat, current: int, closed: set<nat>, active: int,
                         coros: seq<Phase>)

  datatype Op =
    | Admit             // NewCoroutine: the atomic increment and its test
    | Take(id: nat)     // NewCoroutine: the pool's Get
    | BackOut(id: nat)  // NewCoroutine: the decrement on failure
    | Give(id: nat)     // releaseCoroutine: the pool's Put
    | Uncount(id: nat)  // releaseCoroutine: the decrement

  function Initial(initialSize: nat): State
  {
    State(seq(initialSize, i => i), initialSize, initialSize, {}, 0, [])
  }

  function SetPhase(s: State, id: nat, p: Phase): State
    requires id < |s.coros|
  {
    s.(coros := s.coros[id := p])
  }

  /** The last pooled state, or a new one while fewer than the maximum exist. */
  function TakeStep(l: Limits, s: State, id: nat): State
  {
    if id >= |s.coros| || !s.coros[id].Admitted? then s
    else if |s.pool| > 0 then
      SetPhase(s, id, Live(s.pool[|s.pool|-1])).(pool := s.pool[..|s.pool|-1])
    else if s.current >= l.maxSize then SetPhase(s, id, Starved)
    else SetPhase(s, id, Live(s.made)).(made := s.made + 1, current := s.current + 1)
  }

  /** Back to the pool, or closed when the pool is full. */
  function GiveStep(l: Limits, s: State, id: nat): State
  {
    if id >= |s.coros| || !s.coros[id].Live? then s
    else
      var t := SetPhase(s, id, Returned);
      if |s.pool| >= l.maxSize then t.(closed := s.closed + {s.coros[id].state}, current := s.current - 1)
      else t.(pool := s.pool + [s.coros[id].state])
  }

  function Step(l: Limits, s: State, op: Op): State
  {
    match op
    case Admit =>
      s.(active := s.active + 1, coros := s.coros + [if s.active + 1 > l.maxCoroutines then Rejected else Admitted])
    case Take(id) => TakeStep(l, s, id)
    case BackOut(id) =>
      if id < |s.coros| && (s.coros[id].Rejected? || s.coros[id].Starved?) then
        SetPhase(s, id, Gone).(active := s.active - 1)
      else s
    case Give(id) => GiveStep(l, s, id)
    case Uncount(id) =>
      if id < |s.coros| && s.coros[id].Returned? then SetPhase(s, id, Gone).(active := s.active - 1) else s
  }

  // ---------------------------------------------------------------- counting

  function Count(coros: seq<Phase>, p: Phase -> bool): nat
  {
    if coros == [] then 0 else Count(coros[..|coros|-1], p) + if p(coros[|coros|-1]) then 1 else 0
  }

  const Counted: Phase -> bool := (p: Phase) => !p.Gone?
  const Passed: Phase -> bool := (p: Phase) => !p.Gone? && !p.Rejected?
  const IsLive: Phase -> bool := (p: Phase) => p.Live?

  lemma {:induction false} CountUpdate(coros: seq<Phase>, i: nat, v: Phase, p: Phase -> bool)
    requires i < |coros|
    ensures Count(coros[i := v], p)
            == Count(coros, p) + (if p(v) then 1 else 0) - (if p(coros[i]) then 1 else 0)
  {
    var front := coros[..|coros|-1];
    if i == |coros| - 1 {
      assert coros[i := v][..|coros|-1] == front;
    } else {
      assert coros[i := v][..|coros|-1] == front[i := v];
      CountUpdate(front, i, v, p);
    }
  }

  lemma {:induction false} CountLess(coros: seq<Phase>, p: Phase -> bool, q: Phase -> bool)
    requires forall x :: p(x) ==> q(x)
    ensures Count(coros, p) <= Count(coros, q)
  {
    if coros != [] {
      CountLess(coros[..|coros|-1], p, q);
    }
  }

  lemma {:induction false} CountSame(coros: seq<Phase>)
    requires forall i :: 0 <= i < |coros| ==> coros[i].Live? || coros[i].Gone?
    ensures Count(coros, IsLive) == Count(coros, Counted)
  {
    if coros != [] {
      CountSame(coros[..|coros|-1]);
    }
  }

  lemma {:induction false} CountOne(coros: seq<Phase>, p: Phase -> bool, i: nat)
    requires i < |coros| && p(coros[i])
    ensures Count(coros, p) >= 1
  {
    if i < |coros| - 1 {
      CountOne(coros[..|coros|-1], p, i);
    }
  }

  // ---------------------------------------------------------------- the invariant

  /** No interpreter state belongs to two live coroutines, or to one and to the pool; none in use or pooled
      is closed. */
  ghost predicate Exclusive(s: State)
  {
    && (forall i :: 0 <= i < |s.pool| ==> s.pool[i] < s.made && s.pool[i] !in s.closed)
    && (forall i, j :: 0 <= i < j < |s.pool| ==> s.pool[i] != s.pool[j])
    && (forall i :: 0 <= i < |s.coros| && s.coros[i].Live? ==>
          s.coros[i].state < s.made && s.coros[i].state !in s.pool && s.coros[i].state !in s.closed)
    && (forall i, j :: 0 <= i < j < |s.coros| && s.coros[i].Live? && s.coros[j].Live? ==>
          s.coros[i].state != s.coros[j].state)
    && (forall x :: x in s.closed ==> x < s.made)
  }

  /** The pool's size is what is pooled plus what is lent; the active count is what is counted; those
      within the limit are no more than it. */
  ghost predicate Balanced(l: Limits, s: State, initialSize: nat)
  {
    && s.current == |s.pool| + Count(s.coros, IsLive)
    && s.current <= (if initialSize > l.maxSize then initialSize else l.maxSize)
    && s.active == Count(s.coros, Counted)
    && Count(s.coros, Passed) <= (if l.maxCoroutines > 0 then l.maxCoroutines else 0)
  }

  ghost predicate Inv(l: Limits, s: State, initialSize: nat)
  {
    Exclusive(s) && Balanced(l, s, initialSize)
  }

  lemma AdmitKeeps(l: Limits, s: State, initialSize: nat)
    requires Inv(l, s, initialSize)
    ensures Inv(l, Step(l, s, Admit), initialSize)
  {
    var t := Step(l, s, Admit);
    assert t.coros[..|t.coros|-1] == s.coros;
    CountLess(s.coros, Passed, Counted);
  }

  lemma TakeKeepsExclusive(l: Limits, s: State, id: nat)
    requires Exclusive(s)
    ensures Exclusive(TakeStep(l, s, id))
  {
    if id < |s.coros| && s.coros[id].Admitted? && |s.pool| > 0 {
      assert s.pool[|s.pool|-1] in s.pool;
      assert forall x :: x in s.pool[..|s.pool|-1] ==> x in s.pool && x != s.pool[|s.pool|-1];
    }
  }

  lemma GiveKeepsExclusive(l: Limits, s: State, id: nat)
    requires Exclusive(s)
    ensures Exclusive(GiveStep(l, s, id))
  {
  }

  lemma CountsAfter(s: State, id: nat, p: Phase)
    requires id < |s.coros|
    ensures Count(s.coros[id := p], IsLive) == Count(s.coros, IsLive)
            + (if p.Live? then 1 else 0) - (if s.coros[id].Live? then 1 else 0)
    ensures Count(s.coros[id := p], Counted) == Count(s.coros, Counted)
            + (if Counted(p) then 1 else 0) - (if Counted(s.coros[id]) then 1 else 0)
    ensures Count(s.coros[id := p], Passed) == Count(s.coros, Passed)
            + (if Passed(p) then 1 else 0) - (if Passed(s.coros[id]) then 1 else 0)
    ensures s.coros[id := s.coros[id]] == s.coros
  {
    CountUpdate(s.coros, id, p, IsLive);
    CountUpdate(s.coros, id, p, Counted);
    CountUpdate(s.coros, id, p, Passed);
  }

  lemma TakeKeeps(l: Limits, s: State, id: nat, initialSize: nat)
    requires Inv(l, s, initialSize)
    ensures Inv(l, TakeStep(l, s, id), initialSize)
  {
    TakeKeepsExclusive(l, s, id);
    if id < |s.coros| {
      CountsAfter(s, id, TakeStep(l, s, id).coros[id]);
    }
  }

  lemma GiveKeeps(l: Limits, s: State, id: nat, initialSize: nat)
    requires Inv(l, s, initialSize)
    ensures Inv(l, GiveStep(l, s, id), initialSize)
  {
    GiveKeepsExclusive(l, s, id);
    if id < |s.coros| {
      CountsAfter(s, id, GiveStep(l, s, id).coros[id]);
    }
  }

  lemma LeaveKeeps(l: Limits, s: State, id: nat, initialSize: nat)
    requires Inv(l, s, initialSize) && id < |s.coros|
    requires s.coros[id].Rejected? || s.coros[id].Starved? || s.coros[id].Returned?
    ensures Inv(l, SetPhase(s, id, Gone).(active := s.active - 1), initialSize)
  {
    CountsAfter(s, id, Gone);
  }

  lemma StepKeepsInv(l: Limits, s: State, op: Op, initialSize: nat)
    requires Inv(l, s, initialSize)
    ensures Inv(l, Step(l, s, op), initialSize)
  {
    match op
    case Admit => AdmitKeeps(l, s, initialSize);
    case Take(id) => TakeKeeps(l, s, id, initialSize);
    case Give(id) => GiveKeeps(l, s, id, initialSize);
    case BackOut(id) =>
      if Step(l, s, op) != s { LeaveKeeps(l, s, id, initialSize); }
    case Uncount(id) =>
      if Step(l, s, op) != s { LeaveKeeps(l, s, id, initialSize); }
  }

  // ---------------------------------------------------------------- whole runs

  function Run(l: Limits, s: State, ops: seq<Op>): State
  {
    if ops == [] then s else Step(l, Run(l, s, ops[..|ops|-1]), ops[|ops|-1])
  }

  lemma {:induction false} RunKeepsInv(l: Limits, initialSize: nat, ops: seq<Op>)
    requires l.maxSize > 0
    ensures Inv(l, Run(l, Initial(initialSize), ops), initialSize)
  {
    if ops != [] {
      RunKeepsInv(l, initialSize, ops[..|ops|-1]);
      StepKeepsInv(l, Run(l, Initial(initialSize), ops[..|ops|-1]), ops[|ops|-1], initialSize);
    }
  }

  /** Over every interleaving, with an initial size within the maximum: live coroutines own different
      states, their number exceeds neither limit, the pool's size stays within its maximum, and the active
      count is at least their number, and exactly that when no call is under way. */
  lemma {:induction false} EngineSafe(l: Limits, initialSize: nat, ops: seq<Op>)
    requires l.maxSize > 0 && initialSize <= l.maxSize
    ensures var s := Run(l, Initial(initialSize), ops);
      && Exclusive(s)
      && s.current == |s.pool| + Count(s.coros, IsLive) <= l.maxSize
      && Count(s.coros, IsLive) <= l.maxSize
      && Count(s.coros, IsLive) <= (if l.maxCoroutines > 0 then l.maxCoroutines else 0)
      && Count(s.coros, IsLive) <= s.active
      && ((forall i :: 0 <= i < |s.coros| ==> s.coros[i].Live? || s.coros[i].Gone?) ==>
            s.active == Count(s.coros, IsLive))
      && s.closed == {}
  {
    RunKeepsInv(l, initialSize, ops);
    var s := Run(l, Initial(initialSize), ops);
    CountLess(s.coros, IsLive, Passed);
    CountLess(s.coros, IsLive, Counted);
    if forall i :: 0 <= i < |s.coros| ==> s.coros[i].Live? || s.coros[i].Gone? {
      CountSame(s.coros);
    }
    NeverCloses(l, initialSize, ops);
  }

  /** The close branch of Put never runs. */
  lemma {:induction false} NeverCloses(l: Limits, initialSize: nat, ops: seq<Op>)
    requires l.maxSize > 0 && initialSize <= l.maxSize
    ensures Run(l, Initial(initialSize), ops).closed == {}
  {
    if ops != [] {
      var s, op := Run(l, Initial(initialSize), ops[..|ops|-1]), ops[|ops|-1];
      NeverCloses(l, initialSize, ops[..|ops|-1]);
      RunKeepsInv(l, initialSize, ops[..|ops|-1]);
      if op.Give? && op.id < |s.coros| && s.coros[op.id].Live? {
        CountOne(s.coros, IsLive, op.id);
      }
    }
  }

  lemma RunSnoc(l: Limits, s: State, ops: seq<Op>, op: Op)
    ensures Run(l, s, ops + [op]) == Step(l, Run(l, s, ops), op)
  {
    assert (ops + [op])[..|ops|] == ops;
  }

  /** With a limit that admits nobody no state is ever lent, so none comes back to be closed. */
  lemma {:induction false} NobodyAdmitted(l: Limits, initialSize: nat, ops: seq<Op>)
    requires l.maxSize > 0 && l.maxCoroutines <= 0
    ensures Run(l, Initial(initialSize), ops).closed == {}
  {
    if ops != [] {
      var s, op := Run(l, Initial(initialSize), ops[..|ops|-1]), ops[|ops|-1];
      NobodyAdmitted(l, initialSize, ops[..|ops|-1]);
      RunKeepsInv(l, initialSize, ops[..|ops|-1]);
      if op.Give? && op.id < |s.coros| && s.coros[op.id].Live? {
        CountOne(s.coros, Passed, op.id);
      }
    }
  }

  /** Whether a returned state is ever closed is settled by the configuration: exactly a pool created larger
      than its maximum, with a coroutine limit that admits anyone, can do that. */
  lemma {:induction false} ClosesIff(l: Limits, initialSize: nat)
    requires l.maxSize > 0
    ensures (exists ops :: Run(l, Initial(initialSize), ops).closed != {})
            <==> initialSize > l.maxSize && l.maxCoroutines > 0
  {
    if initialSize <= l.maxSize {
      forall ops ensures Run(l, Initial(initialSize), ops).closed == {} {
        NeverCloses(l, initialSize, ops);
      }
    } else if l.maxCoroutines <= 0 {
      forall ops ensures Run(l, Initial(initialSize), ops).closed == {} {
        NobodyAdmitted(l, initialSize, ops);
      }
    } else {
      var s := Initial(initialSize);
      RunSnoc(l, s, [], Admit);
      RunSnoc(l, s, [] + [Admit], Take(0));
      RunSnoc(l, s, [] + [Admit] + [Take(0)], Give(0));
      var t := Run(l, s, [] + [Admit] + [Take(0)]);
      assert t.coros[0].Live? && |t.pool| == initialSize - 1;
      assert t.coros[0].state in Run(l, s, [] + [Admit] + [Take(0)] + [Give(0)]).closed;
    }
  }

  // ---------------------------------------------------------------- whole calls, uninterrupted

  /** The steps of one creation in a row. */
  function Creation(l: Limits, s: State): State
  {
    var id := |s.coros|;
    Step(l, Step(l, Step(l, s, Admit), Take(id)), BackOut(id))
  }

  /** The steps of one release in a row. */
  function Release(l: Limits, s: State, id: nat): State
  {
    Step(l, Step(l, s, Give(id)), Uncount(id))
  }

  predicate Refused(l: Limits, s: State)
  {
    s.active >= l.maxCoroutines || (s.pool == [] && s.current >= l.maxSize)
  }

  /** Uninterrupted, a creation fails exactly when the limit is reached or no state is pooled and no more
      may be made, and then leaves nothing behind but the finished attempt. */
  lemma {:induction false} CreationRefused(l: Limits, s: State)
    requires s.active >= l.maxCoroutines || (s.pool == [] && s.current >= l.maxSize)
    ensures Creation(l, s) == s.(coros := s.coros + [Gone])
  {
    var id := |s.coros|;
    var a := Step(l, s, Admit);
    var b := Step(l, a, Take(id));
    assert forall p :: a.coros[id := p] == s.coros + [p];
    assert b.coros[id := Gone] == s.coros + [Gone];
  }

  /** Otherwise it ends with a live coroutine owning the last pooled state, or the next one made. */
  lemma {:induction false} CreationGranted(l: Limits, s: State)
    requires s.active < l.maxCoroutines && (s.pool != [] || s.current < l.maxSize)
    ensures Creation(l, s) ==
      if s.pool != [] then
        s.(active := s.active + 1, coros := s.coros + [Live(s.pool[|s.pool|-1])], pool := s.pool[..|s.pool|-1])
      else
        s.(active := s.active + 1, coros := s.coros + [Live(s.made)], made := s.made + 1, current := s.current + 1)
  {
    var id := |s.coros|;
    var a := Step(l, s, Admit);
    assert a.coros == s.coros + [Admitted];
    var b := Step(l, a, Take(id));
    assert b.coros == s.coros + [b.coros[id]];
    assert Step(l, b, BackOut(id)) == b;
  }

  lemma {:induction false} CreationKeeps(l: Limits, s: State, initialSize: nat)
    requires Inv(l, s, initialSize)
    ensures Inv(l, Creation(l, s), initialSize)
  {
    var id := |s.coros|;
    var a := Step(l, s, Admit);
    var b := Step(l, a, Take(id));
    StepKeepsInv(l, s, Admit, initialSize);
    StepKeepsInv(l, a, Take(id), initialSize);
    StepKeepsInv(l, b, BackOut(id), initialSize);
  }

  /** Uninterrupted, a release pools or closes the coroutine's state and uncounts the coroutine. */
  lemma {:induction false} ReleaseEffect(l: Limits, s: State, id: nat)
    requires id < |s.coros| && s.coros[id].Live?
    ensures Release(l, s, id) ==
      if |s.pool| >= l.maxSize
      then s.(closed := s.closed + {s.coros[id].state}, current := s.current - 1, active := s.active - 1,
              coros := s.coros[id := Gone])
      else s.(pool := s.pool + [s.coros[id].state], active := s.active - 1, coros := s.coros[id := Gone])
  {
    assert s.coros[id := Returned][id := Gone] == s.coros[id := Gone];
  }

  lemma ReleaseKeeps(l: Limits, s: State, id: nat, initialSize: nat)
    requires Inv(l, s, initialSize)
    ensures Inv(l, Release(l, s, id), initialSize)
  {
    StepKeepsInv(l, s, Give(id), initialSize);
    StepKeepsInv(l, Step(l, s, Give(id)), Uncount(id), initialSize);
  }
}
