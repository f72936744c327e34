/**
 The Lua timer manager as a step machine. A step is a critical section or an atomic operation; a timer
 callback goes through several of them, so cancelling can fall anywhere in between. Timers are named by
 the order in which they were scheduled.
 */
module TimerModel {
  import opened Wrappers

  /** The capacity of the callback queue. */
  const QUEUE_CAPACITY := 1024

  /** How far the firing of a timer has come. */
  datatype Phase =
    | Scheduled   // not fired yet
    | Skipped     // fired, found the cancel channel closed
    | Passed      // fired, found it open
    | Cleaned     // has taken itself off the timer map
    | Queued      // is done with the callback queue
    | Left        // has given its active count back
    | Finished    // has closed its done channel

  datatype Timer = Timer(phase: Phase, hasProto: bool, cancelClosed: bool, doneClosed: bool, enqueued: bool)

  /** `creating` is the timer whose creation holds the map lock; `checked` are the Close calls that found
      the stop flag down and have not raised it yet, `closing` those that have raised it and not shut the
      queue down yet; `shutdowns` counts closings of the queue. */
  datatype State = State(table: seq<Timer>, timers: set<nat>, active: int, creating: Option<nat>,
                         admitted: nat, stopping: bool, checked: nat, closing: nat, queueClosed: bool,
                         queueLength: nat, shutdowns: nat, panicked: bool)

  const Initial := State([], {}, 0, None, 0, false, 0, 0, false, 0, 0, false)

  datatype Op =
    | AtCheck                                    // At: look at the stop flag
    | AtSchedule(hasProto: bool, upvalues: bool) // At: under the lock, up to arming the timer
    | AtRegister                                 // At: the rest of its locked part
    | Fire(id: nat)                              // executeTimer: look at the cancel channel
    | CleanUp(id: nat)                           // executeTimer: under the map lock
    | Enqueue(id: nat)                           // executeTimer: under the queue lock
    | Leave(id: nat)                             // executeTimer, deferred: give the active count back
    | Finish(id: nat)                            // executeTimer, deferred: close the done channel
    | Cancel(id: nat)
    | StopAdmitting                              // WaitAll: set the stop flag
    | CancelAll                                  // WaitAll: the locked part after its timeout
    | Consume                                    // the scheduler takes a callback
    | CloseCheck                                 // Close: look at the stop flag
    | CloseStop                                  // Close: set the stop flag
    | Shutdown                                   // Close: close the queue under its lock

  predicate At(s: State, id: nat, phase: Phase)
  {
    id < |s.table| && s.table[id].phase == phase
  }

  function Put(s: State, id: nat, t: Timer): State
    requires id < |s.table|
  {
    s.(table := s.table[id := t])
  }

  function CancelTable(s: State): seq<Timer>
  {
    seq(|s.table|, i requires 0 <= i < |s.table| =>
      if i in s.timers then s.table[i].(cancelClosed := true) else s.table[i])
  }

  // A step that is not enabled - a lock is held, a phase not reached - leaves the state alone.

  function ScheduleStep(s: State, hasProto: bool, upvalues: bool): State
  {
    if s.admitted == 0 || s.creating.Some? then s
    else if hasProto && upvalues then s.(admitted := s.admitted - 1)
    else s.(admitted := s.admitted - 1, creating := Some(|s.table|),
            table := s.table + [Timer(Scheduled, hasProto, false, false, false)])
  }

  function RegisterStep(s: State): State
  {
    if s.creating.None? then s
    else s.(timers := s.timers + {s.creating.value}, active := s.active + 1, creating := None)
  }

  function FireStep(s: State, id: nat): State
  {
    if !At(s, id, Scheduled) then s
    else Put(s, id, s.table[id].(phase := if s.table[id].cancelClosed then Skipped else Passed))
  }

  function CleanUpStep(s: State, id: nat): State
  {
    if !At(s, id, Passed) || s.creating.Some? then s
    else Put(s, id, s.table[id].(phase := Cleaned)).(timers := s.timers - {id})
  }

  /** Sending on the queue, dropping the callback when it is full. */
  function EnqueueStep(s: State, id: nat): State
  {
    if !At(s, id, Cleaned) then s
    else
      var t := s.table[id].(phase := Queued);
      if !t.hasProto || s.queueClosed then Put(s, id, t)
      else if s.queueLength < QUEUE_CAPACITY then
        Put(s, id, t.(enqueued := true))
          .(queueLength := s.queueLength + 1, panicked := s.panicked || s.shutdowns > 0)
      else Put(s, id, t).(panicked := s.panicked || s.shutdowns > 0)
  }

  function LeaveStep(s: State, id: nat): State
  {
    if At(s, id, Skipped) || At(s, id, Queued) then
      Put(s, id, s.table[id].(phase := Left)).(active := s.active - 1)
    else s
  }

  function FinishStep(s: State, id: nat): State
  {
    if !At(s, id, Left) then s
    else Put(s, id, s.table[id].(phase := Finished, doneClosed := true))
           .(panicked := s.panicked || s.table[id].doneClosed)
  }

  function CancelStep(s: State, id: nat): State
  {
    if id !in s.timers || id >= |s.table| || s.creating.Some? then s
    else Put(s, id, s.table[id].(cancelClosed := true))
           .(timers := s.timers - {id}, panicked := s.panicked || s.table[id].cancelClosed)
  }

  function ShutdownStep(s: State): State
  {
    if s.closing == 0 then s
    else s.(closing := s.closing - 1, queueClosed := true, shutdowns := s.shutdowns + 1,
            panicked := s.panicked || s.shutdowns > 0)
  }

  function Step(s: State, op: Op): State
  {
    match op
    case AtCheck => if s.stopping then s else s.(admitted := s.admitted + 1)
    case AtSchedule(hasProto, upvalues) => ScheduleStep(s, hasProto, upvalues)
    case AtRegister => RegisterStep(s)
    case Fire(id) => FireStep(s, id)
    case CleanUp(id) => CleanUpStep(s, id)
    case Enqueue(id) => EnqueueStep(s, id)
    case Leave(id) => LeaveStep(s, id)
    case Finish(id) => FinishStep(s, id)
    case Cancel(id) => CancelStep(s, id)
    case StopAdmitting => s.(stopping := true)
    case CancelAll => if s.creating.Some? then s else s.(table := CancelTable(s), timers := {})
    case Consume => if s.queueLength == 0 then s else s.(queueLength := s.queueLength - 1)
    case CloseCheck => if s.stopping then s else s.(checked := s.checked + 1)
    case CloseStop =>
      if s.checked == 0 then s
      else s.(checked := s.checked - 1, closing := s.closing + 1, stopping := true)
    case Shutdown => ShutdownStep(s)
  }

  // ---------------------------------------------------------------- the invariant

  predicate Unfinished(t: Timer)
  {
    !(t.phase.Left? || t.phase.Finished?)
  }

  /** How many timers have not given their active count back. */
  function Running(table: seq<Timer>): nat
  {
    if table == [] then 0
    else Running(table[..|table|-1]) + if Unfinished(table[|table|-1]) then 1 else 0
  }

  /** May the timer still be found in the map? */
  predicate Findable(t: Timer)
  {
    (t.phase.Scheduled? || t.phase.Passed?) && !t.cancelClosed
  }

  ghost predicate TimerOk(t: Timer)
  {
    && (t.phase.Skipped? ==> t.cancelClosed)
    && (t.doneClosed <==> t.phase.Finished?)
    && (t.enqueued ==> t.phase.Queued? || t.phase.Left? || t.phase.Finished?)
  }

  ghost predicate Inv(s: State)
  {
    && (forall i :: 0 <= i < |s.table| ==> TimerOk(s.table[i]))
    && (forall i :: i in s.timers <==> 0 <= i < |s.table| && Findable(s.table[i]) && s.creating != Some(i))
    && (s.creating.Some? ==> s.creating.value < |s.table| && Findable(s.table[s.creating.value]))
    && s.active == Running(s.table) - (if s.creating.Some? then 1 else 0)
    && (s.panicked <==> s.shutdowns >= 2)
    && (s.queueClosed <==> s.shutdowns >= 1)
    && s.queueLength <= QUEUE_CAPACITY
  }

  lemma {:induction false} RunningPut(table: seq<Timer>, i: nat, t: Timer)
    requires i < |table|
    ensures Running(table[i := t]) == Running(table)
            + (if Unfinished(t) then 1 else 0) - (if Unfinished(table[i]) then 1 else 0)
  {
    var front := table[..|table|-1];
    if i == |table| - 1 {
      assert table[i := t][..|table|-1] == front;
    } else {
      assert table[i := t][..|table|-1] == front[i := t];
      RunningPut(front, i, t);
    }
  }

  lemma {:induction false} RunningSame(a: seq<Timer>, b: seq<Timer>)
    requires |a| == |b| && forall i :: 0 <= i < |a| ==> a[i].phase == b[i].phase
    ensures Running(a) == Running(b)
  {
    if a != [] {
      RunningSame(a[..|a|-1], b[..|b|-1]);
    }
  }

  /** One timer changes, the rest of the state fitting: the invariant's parts that speak of timers. */
  lemma PutKeeps(s: State, id: nat, t: Timer)
    requires Inv(s) && id < |s.table| && TimerOk(t)
    ensures forall i :: 0 <= i < |s.table| ==> TimerOk(Put(s, id, t).table[i])
    ensures Running(Put(s, id, t).table) == Running(s.table)
            + (if Unfinished(t) then 1 else 0) - (if Unfinished(s.table[id]) then 1 else 0)
  {
    RunningPut(s.table, id, t);
  }

  lemma FireKeeps(s: State, id: nat)
    requires Inv(s)
    ensures Inv(FireStep(s, id))
  {
    if id < |s.table| {
      PutKeeps(s, id, FireStep(s, id).table[id]);
    }
  }

  lemma CleanUpKeeps(s: State, id: nat)
    requires Inv(s)
    ensures Inv(CleanUpStep(s, id))
  {
    if id < |s.table| {
      PutKeeps(s, id, CleanUpStep(s, id).table[id]);
    }
  }

  lemma EnqueueKeeps(s: State, id: nat)
    requires Inv(s)
    ensures Inv(EnqueueStep(s, id))
  {
    if At(s, id, Cleaned) {
      PutKeeps(s, id, s.table[id].(phase := Queued));
      PutKeeps(s, id, s.table[id].(phase := Queued, enqueued := true));
      var t := EnqueueStep(s, id);
      assert forall i :: 0 <= i < |s.table| ==> (Findable(t.table[i]) <==> Findable(s.table[i]));
    }
  }

  lemma LeaveKeeps(s: State, id: nat)
    requires Inv(s)
    ensures Inv(LeaveStep(s, id))
  {
    if id < |s.table| {
      PutKeeps(s, id, LeaveStep(s, id).table[id]);
    }
  }

  lemma FinishKeeps(s: State, id: nat)
    requires Inv(s)
    ensures Inv(FinishStep(s, id))
  {
    if id < |s.table| {
      PutKeeps(s, id, FinishStep(s, id).table[id]);
    }
  }

  lemma CancelKeeps(s: State, id: nat)
    requires Inv(s)
    ensures Inv(CancelStep(s, id))
  {
    if id < |s.table| {
      PutKeeps(s, id, CancelStep(s, id).table[id]);
    }
  }

  lemma RunningSnoc(table: seq<Timer>, t: Timer)
    ensures Running(table + [t]) == Running(table) + if Unfinished(t) then 1 else 0
  {
    assert (table + [t])[..|table|] == table;
  }

  lemma ScheduleKeeps(s: State, hasProto: bool, upvalues: bool)
    requires Inv(s)
    ensures Inv(ScheduleStep(s, hasProto, upvalues))
  {
    var u := ScheduleStep(s, hasProto, upvalues);
    if u.table != s.table {
      RunningSnoc(s.table, Timer(Scheduled, hasProto, false, false, false));
      assert forall i :: 0 <= i < |s.table| ==> u.table[i] == s.table[i];
    }
  }

  lemma RegisterKeeps(s: State)
    requires Inv(s)
    ensures Inv(RegisterStep(s))
  {
  }

  lemma CancelAllKeeps(s: State)
    requires Inv(s)
    ensures Inv(Step(s, CancelAll))
  {
    RunningSame(s.table, CancelTable(s));
  }

  lemma StepKeepsInv(s: State, op: Op)
    requires Inv(s)
    ensures Inv(Step(s, op))
  {
    match op
    case AtSchedule(hasProto, upvalues) => ScheduleKeeps(s, hasProto, upvalues);
    case AtRegister => RegisterKeeps(s);
    case CancelAll => CancelAllKeeps(s);
    case Fire(id) => FireKeeps(s, id);
    case CleanUp(id) => CleanUpKeeps(s, id);
    case Enqueue(id) => EnqueueKeeps(s, id);
    case Leave(id) => LeaveKeeps(s, id);
    case Finish(id) => FinishKeeps(s, id);
    case Cancel(id) => CancelKeeps(s, id);
    case _ =>
  }

  // ---------------------------------------------------------------- whole runs

  function Run(s: State, ops: seq<Op>): State
  {
    if ops == [] then s else Step(Run(s, ops[..|ops|-1]), ops[|ops|-1])
  }

  lemma {:induction false} RunKeepsInv(s: State, ops: seq<Op>)
    requires Inv(s)
    ensures Inv(Run(s, ops))
  {
    if ops != [] {
      RunKeepsInv(s, ops[..|ops|-1]);
      StepKeepsInv(Run(s, ops[..|ops|-1]), ops[|ops|-1]);
    }
  }

  /** In every run: the active count is never negative and, while the map lock is free, is the number of
      timers whose firing has not finished with it; and the only way to a panic - closing a closed channel,
      sending on a closed queue - is to shut the queue down twice. */
  lemma TimersSafe(ops: seq<Op>)
    ensures var s := Run(Initial, ops);
      && s.active >= 0
      && (s.creating.None? ==> s.active == Running(s.table))
      && (s.panicked <==> s.shutdowns >= 2)
  {
    RunKeepsInv(Initial, ops);
    var s := Run(Initial, ops);
    if s.creating.Some? {
      RunningPositive(s.table, s.creating.value);
    }
  }

  lemma {:induction false} RunningPositive(table: seq<Timer>, i: nat)
    requires i < |table| && Unfinished(table[i])
    ensures Running(table) >= 1
  {
    if i < |table| - 1 {
      RunningPositive(table[..|table|-1], i);
    }
  }

  /** How many Close calls have got past the check so far. */
  function Closers(s: State): nat
  {
    s.checked + s.closing + s.shutdowns
  }

  /** No Close call gets past the check while another is between looking at the stop flag and raising it. */
  predicate ClosesApart(s: State, ops: seq<Op>)
  {
    if ops == [] then true
    else
      var before := Run(s, ops[..|ops|-1]);
      && ClosesApart(s, ops[..|ops|-1])
      && (ops[|ops|-1].CloseCheck? && !before.stopping ==> before.checked == 0)
  }

  /** Whoever has raised the stop flag counts among the closers, so that while the flag is down they are all
      still between looking and raising. */
  predicate RaisersCounted(s: State)
  {
    s.closing + s.shutdowns > 0 ==> s.stopping
  }

  lemma CloserStep(s: State, op: Op)
    ensures Closers(Step(s, op)) == Closers(s) + (if op.CloseCheck? && !s.stopping then 1 else 0)
  {
  }

  lemma RaisersStep(s: State, op: Op)
    requires RaisersCounted(s)
    ensures RaisersCounted(Step(s, op))
  {
  }

  /** A run keeps its Close calls apart exactly when at most one of them got past the check. */
  lemma {:induction false} ClosesApartIff(ops: seq<Op>)
    ensures var s := Run(Initial, ops);
      RaisersCounted(s) && (ClosesApart(Initial, ops) <==> Closers(s) <= 1)
  {
    if ops != [] {
      ClosesApartIff(ops[..|ops|-1]);
      CloserStep(Run(Initial, ops[..|ops|-1]), ops[|ops|-1]);
      RaisersStep(Run(Initial, ops[..|ops|-1]), ops[|ops|-1]);
    }
  }

  /** Once the stop flag is up nobody gets past the check any more. */
  lemma {:induction false} ClosersStay(s: State, ops: seq<Op>)
    requires s.stopping
    ensures Run(s, ops).stopping && Closers(Run(s, ops)) == Closers(s)
  {
    if ops != [] {
      ClosersStay(s, ops[..|ops|-1]);
      CloserStepStopped(Run(s, ops[..|ops|-1]), ops[|ops|-1]);
    }
  }

  lemma CloserStepStopped(s: State, op: Op)
    requires s.stopping
    ensures Step(s, op).stopping && Closers(Step(s, op)) == Closers(s)
  {
  }

  /** The closers can all go through with closing the queue. */
  lemma {:induction false} CloseOut(s: State) returns (ops: seq<Op>)
    ensures Run(s, ops).shutdowns == Closers(s)
    decreases 2 * s.checked + s.closing
  {
    if s.checked == 0 && s.closing == 0 {
      ops := [];
    } else {
      var op := if s.checked > 0 then CloseStop else Shutdown;
      var rest := CloseOut(Step(s, op));
      ops := [op] + rest;
      RunFirst(s, op, rest);
    }
  }

  lemma RunOne(s: State, op: Op)
    ensures Run(s, [op]) == Step(s, op)
  {
    assert [] + [op] == [op];
    RunSnoc(s, [], op);
  }

  lemma {:induction false} RunFirst(s: State, op: Op, ops: seq<Op>)
    ensures Run(s, [op] + ops) == Run(Step(s, op), ops)
  {
    if ops == [] {
      assert [op] + ops == [op];
      RunOne(s, op);
    } else {
      var front, last := ops[..|ops|-1], ops[|ops|-1];
      RunFirst(s, op, front);
      RunSnoc(s, [op] + front, last);
      RunSnoc(Step(s, op), front, last);
      assert [op] + ops == [op] + front + [last] && ops == front + [last];
    }
  }

  /** Can a run from here end in a panic? */
  ghost predicate MayPanic(s: State)
  {
    exists ops :: Run(s, ops).panicked
  }

  /** It can exactly while the stop flag is down, or when two Close calls have got past the check. */
  lemma {:induction false} MayPanicIff(s: State)
    requires Inv(s)
    ensures MayPanic(s) <==> !s.stopping || Closers(s) >= 2
  {
    if !s.stopping {
      var one := Step(s, CloseCheck);
      var rest := CloseOut(Step(one, CloseCheck));
      RunFirst(one, CloseCheck, rest);
      RunFirst(s, CloseCheck, [CloseCheck] + rest);
      RunKeepsInv(s, [CloseCheck] + ([CloseCheck] + rest));
      assert Run(s, [CloseCheck] + ([CloseCheck] + rest)).panicked;
    } else if Closers(s) >= 2 {
      var ops := CloseOut(s);
      RunKeepsInv(s, ops);
      assert Run(s, ops).panicked;
    } else {
      forall ops ensures !Run(s, ops).panicked {
        RunKeepsInv(s, ops);
        ClosersStay(s, ops);
      }
    }
  }

  /** For a whole run: nothing has panicked while its Close calls were apart; and once it has raised the stop
      flag, a panic is still to come, or has come, exactly when they were not. */
  lemma {:induction false} CloseIsSafeIff(ops: seq<Op>)
    ensures ClosesApart(Initial, ops) ==> !Run(Initial, ops).panicked
    ensures Run(Initial, ops).stopping ==> (MayPanic(Run(Initial, ops)) <==> !ClosesApart(Initial, ops))
  {
    RunKeepsInv(Initial, ops);
    ClosesApartIff(ops);
    MayPanicIff(Run(Initial, ops));
  }

  /** Two Close calls that both look at the flag before either raises it close the queue twice. */
  lemma OverlappingClosesPanic(s: State)
    requires !s.stopping
    ensures var both := Step(Step(s, CloseCheck), CloseCheck);
      Step(Step(Step(Step(both, CloseStop), Shutdown), CloseStop), Shutdown).panicked
  {
    var one := Step(Step(s, CloseCheck), CloseCheck);
    var two := Step(Step(one, CloseStop), Shutdown);
    assert two.checked >= 1 && two.shutdowns > 0;
  }

  /** Once the stop flag is up with no Close call under way - as WaitAll leaves it - the queue is never
      closed: a later Close returns at once. */
  lemma {:induction false} CloseAfterWaitAll(s: State, ops: seq<Op>)
    requires s.stopping && s.checked == 0 && s.closing == 0
    ensures Run(s, ops).stopping && Run(s, ops).checked == 0 && Run(s, ops).closing == 0
    ensures Run(s, ops).queueClosed == s.queueClosed && Run(s, ops).shutdowns == s.shutdowns
  {
    if ops != [] {
      CloseAfterWaitAll(s, ops[..|ops|-1]);
      NoCloseStep(Run(s, ops[..|ops|-1]), ops[|ops|-1]);
    }
  }

  lemma NoCloseStep(s: State, op: Op)
    requires s.stopping && s.checked == 0 && s.closing == 0
    ensures var t := Step(s, op);
      && t.stopping && t.checked == 0 && t.closing == 0
      && t.queueClosed == s.queueClosed && t.shutdowns == s.shutdowns
  {
  }

  lemma RunSnoc(s: State, ops: seq<Op>, op: Op)
    ensures Run(s, ops + [op]) == Step(Run(s, ops), op)
  {
    assert (ops + [op])[..|ops|] == ops;
  }

  // ---------------------------------------------------------------- waiting for all timers

  predicate AllDone(table: seq<Timer>)
  {
    forall i :: 0 <= i < |table| ==> !Unfinished(table[i])
  }

  lemma {:induction false} DoneIff(table: seq<Timer>)
    ensures Running(table) == 0 <==> AllDone(table)
  {
    if table != [] {
      DoneIff(table[..|table|-1]);
    }
  }

  /** Stopped, every timer finished with its active count, and no At call past its look at the stop flag. */
  predicate Quiet(s: State)
  {
    s.stopping && s.admitted == 0 && s.creating.None? && AllDone(s.table)
  }

  lemma QuietStep(s: State, op: Op)
    requires Quiet(s)
    ensures Quiet(Step(s, op))
  {
  }

  lemma {:induction false} QuietRun(s: State, ops: seq<Op>)
    requires Quiet(s)
    ensures Quiet(Run(s, ops))
  {
    if ops != [] {
      QuietRun(s, ops[..|ops|-1]);
      QuietStep(Run(s, ops[..|ops|-1]), ops[|ops|-1]);
    }
  }

  /** WaitAll answers that all timers have finished once it has raised the stop flag and seen an active count
      of zero. A timer can nevertheless be running, then or later, exactly when an At call had already got past
      its look at the stop flag. */
  lemma {:induction false} WaitAllMissesIff(s: State)
    requires Inv(s) && s.stopping && s.active <= 0
    ensures (exists ops :: !AllDone(Run(s, ops).table)) <==> s.admitted > 0 || s.creating.Some?
  {
    DoneIff(s.table);
    if s.creating.Some? {
      assert Unfinished(s.table[s.creating.value]);
      assert !AllDone(Run(s, []).table);
    } else if s.admitted > 0 {
      RunOne(s, AtSchedule(false, false));
      var t := Run(s, [AtSchedule(false, false)]);
      assert Unfinished(t.table[|s.table|]);
      assert !AllDone(Run(s, [AtSchedule(false, false)]).table);
    } else {
      forall ops ensures AllDone(Run(s, ops).table) {
        QuietRun(s, ops);
      }
    }
  }

  /** Which does happen: an At call looks, WaitAll raises the flag and sees no timer, the call goes on. */
  lemma {:induction false} WaitAllMissesReachable()
    ensures var s := Run(Initial, [AtCheck, StopAdmitting]);
      && s.stopping && s.active == 0 && s.table == []
      && !AllDone(Run(s, [AtSchedule(false, false)]).table)
  {
    RunOne(Initial, AtCheck);
    RunSnoc(Initial, [AtCheck], StopAdmitting);
    assert [AtCheck] + [StopAdmitting] == [AtCheck, StopAdmitting];
    var s := Run(Initial, [AtCheck, StopAdmitting]);
    RunOne(s, AtSchedule(false, false));
    assert Unfinished(Run(s, [AtSchedule(false, false)]).table[0]);
  }

  // ---------------------------------------------------------------- cancelling

  /** The timer was cancelled before it fired and has not enqueued. */
  ghost predicate CancelledInTime(s: State, id: nat)
  {
    && id < |s.table| && s.table[id].cancelClosed && !s.table[id].enqueued
    && !(s.table[id].phase.Passed? || s.table[id].phase.Cleaned?)
  }

  /** A timer whose cancellation completed before it fired never enqueues its callback. */
  lemma {:induction false} CancelledNeverEnqueues(s: State, id: nat, ops: seq<Op>)
    requires CancelledInTime(s, id)
    ensures CancelledInTime(Run(s, ops), id)
  {
    if ops != [] {
      CancelledNeverEnqueues(s, id, ops[..|ops|-1]);
      CancelledStep(Run(s, ops[..|ops|-1]), id, ops[|ops|-1]);
    }
  }

  lemma CancelledStep(s: State, id: nat, op: Op)
    requires CancelledInTime(s, id)
    ensures CancelledInTime(Step(s, op), id)
  {
  }

  /** Without a callback, or with the queue closed, nothing new is enqueued for the timer. */
  ghost predicate NothingToSend(s: State, id: nat)
  {
    id < |s.table| && !s.table[id].enqueued && (!s.table[id].hasProto || s.queueClosed)
  }

  lemma {:induction false} NothingSent(s: State, id: nat, ops: seq<Op>)
    requires NothingToSend(s, id)
    ensures NothingToSend(Run(s, ops), id)
  {
    if ops != [] {
      NothingSent(s, id, ops[..|ops|-1]);
      NothingSentStep(Run(s, ops[..|ops|-1]), id, ops[|ops|-1]);
    }
  }

  lemma NothingSentStep(s: State, id: nat, op: Op)
    requires NothingToSend(s, id)
    ensures NothingToSend(Step(s, op), id)
  {
  }

  /** A timer past its look at the cancel channel can always send. */
  lemma {:induction false} PassedStillEnqueues(s: State, id: nat)
    requires At(s, id, Passed) && s.table[id].hasProto && s.creating.None?
    requires !s.queueClosed && s.queueLength <= QUEUE_CAPACITY
    ensures exists ops :: Enqueued(Run(s, ops), id)
  {
    RunOne(s, Consume);
    RunSnoc(s, [Consume], CleanUp(id));
    RunSnoc(s, [Consume] + [CleanUp(id)], Enqueue(id));
    assert Enqueued(Run(s, [Consume] + [CleanUp(id)] + [Enqueue(id)]), id);
  }

  /** For a timer just cancelled - the call having returned true - the callback can still be enqueued exactly
      when the timer had already looked at its cancel channel, has a callback, and the queue is open; a full
      queue does not prevent it, since the scheduler goes on consuming. */
  lemma {:induction false} CancelTooLateIff(s: State, id: nat)
    requires Inv(s) && id in s.timers && s.creating.None?
    ensures (exists ops :: Enqueued(Run(Step(s, Cancel(id)), ops), id))
            <==> s.table[id].phase.Passed? && s.table[id].hasProto && !s.queueClosed
  {
    var t := Step(s, Cancel(id));
    if !s.table[id].hasProto || s.queueClosed {
      forall ops ensures !Enqueued(Run(t, ops), id) {
        NothingSent(t, id, ops);
      }
    } else if s.table[id].phase.Passed? {
      PassedStillEnqueues(t, id);
    } else {
      forall ops ensures !Enqueued(Run(t, ops), id) {
        CancelledNeverEnqueues(t, id, ops);
      }
    }
  }

  /** Initially an At call alone ends with its timer armed and counted. */
  lemma {:induction false} ArmedRun()
    ensures Run(Initial, [AtCheck, AtSchedule(true, false), AtRegister])
            == Initial.(table := [Timer(Scheduled, true, false, false, false)], timers := {0}, active := 1)
  {
    RunOne(Initial, AtCheck);
    RunSnoc(Initial, [AtCheck], AtSchedule(true, false));
    RunSnoc(Initial, [AtCheck] + [AtSchedule(true, false)], AtRegister);
    assert [AtCheck] + [AtSchedule(true, false)] + [AtRegister] == [AtCheck, AtSchedule(true, false), AtRegister];
  }

  /** Such a run: the timer looks at its cancel channel, only then is it cancelled - successfully - and its
      callback is enqueued all the same. */
  lemma {:induction false} CancelTooLateReachable()
    ensures var s := Run(Initial, [AtCheck, AtSchedule(true, false), AtRegister] + [Fire(0)]);
      && 0 in s.timers && s.creating.None?
      && Enqueued(Run(Step(s, Cancel(0)), [CleanUp(0)] + [Enqueue(0)]), 0)
  {
    ArmedRun();
    RunSnoc(Initial, [AtCheck, AtSchedule(true, false), AtRegister], Fire(0));
    CancelledAfterLooking(Initial.(table := [Timer(Scheduled, true, false, false, false)], timers := {0}, active := 1));
  }

  lemma {:induction false} CancelledAfterLooking(armed: State)
    requires armed == Initial.(table := [Timer(Scheduled, true, false, false, false)], timers := {0}, active := 1)
    ensures var s := FireStep(armed, 0);
      && 0 in s.timers && s.creating.None?
      && Enqueued(Run(CancelStep(s, 0), [CleanUp(0)] + [Enqueue(0)]), 0)
  {
    var fired := FireStep(armed, 0);
    assert fired == armed.(table := [Timer(Passed, true, false, false, false)]);
    var cancelled := CancelStep(fired, 0);
    assert cancelled == fired.(table := [Timer(Passed, true, true, false, false)], timers := {});
    RunOne(cancelled, CleanUp(0));
    RunSnoc(cancelled, [CleanUp(0)], Enqueue(0));
  }

  predicate Enqueued(s: State, id: nat)
  {
    id < |s.table| && s.table[id].enqueued
  }
}
