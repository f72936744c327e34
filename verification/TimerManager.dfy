/** The timer manager object; its methods are the steps of TimerModel and their uninterrupted runs. */
module TimerManagers {
  import opened Wrappers
  import TM = TimerModel
  import opened TimerModel

  class TimerManager {
    var table: seq<Timer>
    var timers: set<nat>
    var active: int
    var stopping: bool
    var queueClosed: bool
    var queueLength: nat
    var panicked: bool
    /** Where the calls under way are. */
    ghost var creating: Option<nat>
    ghost var admitted: nat
    ghost var checked: nat
    ghost var closing: nat
    ghost var shutdowns: nat

    ghost function View(): State
      reads this
    {
      State(table, timers, active, creating, admitted, stopping, checked, closing, queueClosed, queueLength,
            shutdowns, panicked)
    }

    ghost predicate Valid()
      reads this
    {
      Inv(View())
    }

    constructor ()
      ensures Valid() && View() == Initial
    {
      table, timers, active, stopping, queueClosed, queueLength, panicked := [], {}, 0, false, false, 0, false;
      creating, admitted, checked, closing, shutdowns := None, 0, 0, 0, 0;
    }

    /** The first half of creating a timer, up to arming it. */
    method ScheduleTimer(hasProto: bool, upvalues: bool) returns (ok: bool)
      requires Valid() && creating.None? && admitted > 0
      modifies this
      ensures Valid() && View() == ScheduleStep(old(View()), hasProto, upvalues)
      ensures ok <==> !(hasProto && upvalues)
    {
      ScheduleKeeps(View(), hasProto, upvalues);
      admitted := admitted - 1;
      if hasProto && upvalues {
        return false;
      }
      creating := Some(|table|);
      table := table + [Timer(Scheduled, hasProto, false, false, false)];
      return true;
    }

    /** The second half: the timer enters the map and the active count. */
    method RegisterTimer(id: nat)
      requires Valid() && creating == Some(id)
      modifies this
      ensures Valid() && View() == RegisterStep(old(View()))
    {
      RegisterKeeps(View());
      timers := timers + {id};
      active := active + 1;
      creating := None;
    }

    /** Create a timer; the result is None while stopping or for a callback that captures variables. */
    method At(hasProto: bool, upvalues: bool) returns (id: Option<nat>)
      requires Valid() && creating.None?
      modifies this
      ensures Valid() && creating.None?
      ensures id == if old(stopping) || (hasProto && upvalues) then None else Some(|old(table)|)
      ensures id.None? ==> View() == old(View())
      ensures id.Some? ==>
        View() == RegisterStep(ScheduleStep(old(View()).(admitted := old(admitted) + 1), hasProto, upvalues))
    {
      if stopping {
        return None;
      }
      admitted := admitted + 1;
      var next := |table|;
      var ok := ScheduleTimer(hasProto, upvalues);
      if !ok {
        return None;
      }
      RegisterTimer(next);
      return Some(next);
    }

    method FireTimer(id: nat) returns (skipped: bool)
      requires Valid() && id < |table| && table[id].phase.Scheduled?
      modifies this
      ensures Valid() && View() == FireStep(old(View()), id) && skipped == old(table[id].cancelClosed)
    {
      FireKeeps(View(), id);
      skipped := table[id].cancelClosed;
      table := table[id := table[id].(phase := if skipped then Skipped else Passed)];
    }

    method CleanUpTimer(id: nat)
      requires Valid() && creating.None? && id < |table| && table[id].phase.Passed?
      modifies this
      ensures Valid() && View() == CleanUpStep(old(View()), id)
    {
      CleanUpKeeps(View(), id);
      table, timers := table[id := table[id].(phase := Cleaned)], timers - {id};
    }

    method EnqueueTimer(id: nat)
      requires Valid() && id < |table| && table[id].phase.Cleaned?
      modifies this
      ensures Valid() && View() == EnqueueStep(old(View()), id)
    {
      EnqueueKeeps(View(), id);
      var t := table[id].(phase := Queued);
      if t.hasProto && !queueClosed && queueLength < QUEUE_CAPACITY {
        t := t.(enqueued := true);
        queueLength := queueLength + 1;
      }
      table := table[id := t];
    }

    method GiveCountBack(id: nat)
      requires Valid() && id < |table| && (table[id].phase.Skipped? || table[id].phase.Queued?)
      modifies this
      ensures Valid() && View() == LeaveStep(old(View()), id)
    {
      LeaveKeeps(View(), id);
      active := active - 1;
      table := table[id := table[id].(phase := Left)];
    }

    method CloseDone(id: nat)
      requires Valid() && id < |table| && table[id].phase.Left?
      modifies this
      ensures Valid() && View() == FinishStep(old(View()), id)
    {
      FinishKeeps(View(), id);
      panicked := panicked || table[id].doneClosed;
      table := table[id := table[id].(phase := Finished, doneClosed := true)];
    }

    method Proceed(id: nat)
      requires Valid() && creating.None? && id < |table| && table[id].phase.Passed?
      modifies this
      ensures Valid() && View() == EnqueueStep(CleanUpStep(old(View()), id), id)
    {
      CleanUpTimer(id);
      EnqueueTimer(id);
    }

    /** The deferred part of a firing. */
    method Depart(id: nat)
      requires Valid() && id < |table| && (table[id].phase.Skipped? || table[id].phase.Queued?)
      modifies this
      ensures Valid() && View() == FinishStep(LeaveStep(old(View()), id), id)
    {
      GiveCountBack(id);
      CloseDone(id);
    }

    /** A firing that nothing interrupts; see FiringEffect for what it comes to. */
    method ExecuteTimer(id: nat)
      requires Valid() && creating.None? && id < |table| && table[id].phase.Scheduled?
      modifies this
      ensures Valid() && View() == Firing(old(View()), id)
    {
      var skipped := FireTimer(id);
      if !skipped {
        Proceed(id);
      }
      Depart(id);
    }

    /** True exactly when the timer was still in the map. */
    method Cancel(id: nat) returns (r: bool)
      requires Valid() && creating.None?
      modifies this
      ensures Valid() && View() == CancelStep(old(View()), id)
      ensures r <==> id in old(timers)
    {
      CancelKeeps(View(), id);
      if id !in timers {
        return false;
      }
      panicked := panicked || table[id].cancelClosed;
      table := table[id := table[id].(cancelClosed := true)];
      timers := timers - {id};
      return true;
    }

    /** The locked part of WaitAll after its timeout. */
    method CancelAll()
      requires Valid() && creating.None?
      modifies this
      ensures Valid() && View() == Step(old(View()), TM.CancelAll)
    {
      ghost var before := View();
      CancelAllKeeps(before);
      var updated := CloseCancels(table, timers);
      assert updated == CancelTable(before);
      assert Step(before, TM.CancelAll) == before.(table := updated, timers := {});
      table, timers := updated, {};
    }

    /** Stop admitting timers and wait; `timedOut` tells how the waiting ended. */
    method WaitAll(timedOut: bool) returns (ok: bool)
      requires Valid() && creating.None?
      modifies this
      ensures Valid() && stopping && ok == !timedOut
      ensures var stopped := Step(old(View()), StopAdmitting);
        View() == if timedOut then Step(stopped, TM.CancelAll) else stopped
      ensures timedOut ==> timers == {}
    {
      StepKeepsInv(View(), StopAdmitting);
      stopping := true;
      if timedOut {
        CancelAll();
      }
      ok := !timedOut;
    }

    /** Closing with nobody in between: nothing at all once the stop flag is up, otherwise the queue is closed,
        without a panic when it was open. */
    method Close()
      requires Valid()
      modifies this
      ensures Valid()
      ensures old(stopping) ==> View() == old(View())
      ensures !old(stopping) ==> View() == Closing(old(View()))
    {
      if stopping {
        return;
      }
      ghost var before := View();
      ClosingEffect(before);
      stopping := true;
      closing := closing + 1;
      GracefulShutdown();
      assert View() == Closing(before);
    }

    /** Close the queue under its lock. */
    method GracefulShutdown()
      requires Valid() && closing > 0
      modifies this
      ensures Valid() && View() == ShutdownStep(old(View()))
    {
      StepKeepsInv(View(), Shutdown);
      panicked := panicked || queueClosed;
      queueClosed := true;
      closing, shutdowns := closing - 1, shutdowns + 1;
    }
  }

  /** Creating a timer: it is scheduled, not cancelled, in the map, and counted. */
  lemma CreationEffect(s: State, hasProto: bool)
    requires Inv(s) && s.creating.None?
    ensures var n, r := |s.table|, RegisterStep(ScheduleStep(s.(admitted := s.admitted + 1), hasProto, false));
      && r == s.(table := s.table + [Timer(Scheduled, hasProto, false, false, false)],
                 timers := s.timers + {n}, active := s.active + 1)
      && n !in s.timers
  {
  }

  /** Cancelling a timer of the map closes its channel and takes it off the map, its count being given back
      only when it fires; cancelling all does the same for every timer of the map. */
  lemma CancelEffect(s: State, id: nat)
    requires Inv(s) && s.creating.None?
    ensures CancelStep(s, id) ==
      if id in s.timers
      then s.(table := s.table[id := s.table[id].(cancelClosed := true)], timers := s.timers - {id})
      else s
    ensures var r := Step(s, TM.CancelAll);
      && r.timers == {} && r.active == s.active && r.panicked == s.panicked && |r.table| == |s.table|
      && forall i :: 0 <= i < |s.table| ==>
           r.table[i] == if i in s.timers then s.table[i].(cancelClosed := true) else s.table[i]
  {
  }

  /** The steps of one Close call in a row. */
  function Closing(s: State): State
  {
    Step(Step(Step(s, CloseCheck), CloseStop), Shutdown)
  }

  /** Uninterrupted and before the stop flag is up, a Close raises it and closes the queue; it panics only if
      the queue was closed before. */
  lemma ClosingEffect(s: State)
    requires Inv(s) && !s.stopping
    ensures Inv(s.(stopping := true, closing := s.closing + 1))
    ensures Closing(s) == ShutdownStep(s.(stopping := true, closing := s.closing + 1))
    ensures Closing(s) == s.(stopping := true, queueClosed := true, shutdowns := s.shutdowns + 1,
                             panicked := s.panicked || s.queueClosed)
  {
  }

  /** The steps of one firing in a row. */
  function Firing(s: State, id: nat): State
    requires id < |s.table|
  {
    var fired := FireStep(s, id);
    var done := if s.table[id].cancelClosed then fired else EnqueueStep(CleanUpStep(fired, id), id);
    FinishStep(LeaveStep(done, id), id)
  }

  /** An uninterrupted firing finishes the timer, gives exactly one active count back, takes the timer off
      the map, and enqueues its callback if it has one, was not cancelled, and the queue is open and has
      room. */
  lemma {:induction false} FiringEffect(s: State, id: nat)
    requires Inv(s) && s.creating.None? && id < |s.table| && s.table[id].phase.Scheduled?
    ensures var r, t := Firing(s, id), s.table[id];
      && r.active == s.active - 1 && r.timers == s.timers - {id} && r.panicked == s.panicked
      && r.table == s.table[id := t.(phase := Finished, doneClosed := true, enqueued :=
           !t.cancelClosed && t.hasProto && !s.queueClosed && s.queueLength < 1024)]
  {
    var fired := FireStep(s, id);
    if s.table[id].cancelClosed {
      FiringTail(fired, id);
      assert s.timers - {id} == s.timers;
    } else {
      FiringMiddle(s, id);
      FiringTail(EnqueueStep(CleanUpStep(fired, id), id), id);
    }
  }

  /** The middle of a firing that was not cancelled. */
  lemma FiringMiddle(s: State, id: nat)
    requires Inv(s) && s.creating.None? && At(s, id, Scheduled) && !s.table[id].cancelClosed
    ensures var sends := s.table[id].hasProto && !s.queueClosed && s.queueLength < QUEUE_CAPACITY;
      EnqueueStep(CleanUpStep(FireStep(s, id), id), id)
      == s.(table := s.table[id := s.table[id].(phase := Queued, enqueued := sends)], timers := s.timers - {id},
            queueLength := if sends then s.queueLength + 1 else s.queueLength)
  {
    var cleaned := CleanUpStep(FireStep(s, id), id);
    assert cleaned == s.(table := s.table[id := s.table[id].(phase := Cleaned)], timers := s.timers - {id});
  }

  lemma FiringTail(s: State, id: nat)
    requires id < |s.table| && (s.table[id].phase.Skipped? || s.table[id].phase.Queued?) && !s.table[id].doneClosed
    ensures FinishStep(LeaveStep(s, id), id)
            == s.(active := s.active - 1,
                  table := s.table[id := s.table[id].(phase := Finished, doneClosed := true)])
  {
  }

  /** Close the cancel channels of some timers that are still open, in any order. */
  method CloseCancels(table: seq<Timer>, ids: set<nat>) returns (updated: seq<Timer>)
    requires forall i :: i in ids ==> i < |table|
    ensures |updated| == |table|
    ensures forall i :: 0 <= i < |table| ==>
      updated[i] == if i in ids then table[i].(cancelClosed := true) else table[i]
  {
    updated := table;
    var left := ids;
    while left != {}
      invariant left <= ids && |updated| == |table|
      invariant forall i :: 0 <= i < |table| ==>
        updated[i] == if i in ids && i !in left then table[i].(cancelClosed := true) else table[i]
      decreases left
    {
      var id :| id in left;
      if !updated[id].cancelClosed {
        updated := updated[id := updated[id].(cancelClosed := true)];
      }
      left := left - {id};
    }
  }
}
