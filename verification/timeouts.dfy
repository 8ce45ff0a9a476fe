/** Timeout calls: the handler thread and the callers of timer_timeout_cancel and
    timer_timeout_cancel_sync, as interleaved atomic steps (timer.c). */
module Timeouts {

  type Id = nat

  /** In the timer's queue, in the ready queue, taken by the handler, or freed. */
  datatype Place = Pending | Ready | Held | Freed

  /** run_lock, and who took it. */
  datatype Lock = Open | ByHandler | ByCanceller

  datatype Evt = Evt(place: Place, run: Lock, canceled: bool, inTree: bool)

  /** Where the handler thread is with the event it holds. */
  datatype Handler =
    | Waiting
    | Took(id: Id)
    | Locked(id: Id)
    | Calling(id: Id)
    | Called(id: Id)
    | Unlocked(id: Id)
    | Removed(id: Id)

  /** cancelled is a ghost: identifiers for which timer_timeout_cancel_sync has returned. */
  datatype Sys = Sys(evts: map<Id, Evt>, handler: Handler, cancelled: set<Id>)

  datatype Act =
    | Schedule(id: Id)
    | Expire(id: Id)
    | Take(id: Id)
    | LockRun
    | Decide
    | Return
    | UnlockRun
    | Remove
    | Free
    | Cancel(id: Id)
    | CancelSync(id: Id)

  ghost predicate Enabled(s: Sys, a: Act)
  {
    match a
    case Schedule(id) => id !in s.evts
    case Expire(id) => id in s.evts && s.evts[id].place == Pending
    case Take(id) => s.handler.Waiting? && id in s.evts && s.evts[id].place == Ready
    case LockRun => s.handler.Took? && s.handler.id in s.evts && s.evts[s.handler.id].run == Open
    case Decide => s.handler.Locked? && s.handler.id in s.evts
    case Return => s.handler.Calling?
    case UnlockRun => s.handler.Called? && s.handler.id in s.evts
    case Remove => s.handler.Unlocked? && s.handler.id in s.evts
    case Free => s.handler.Removed? && s.handler.id in s.evts
    case Cancel(id) => id in s.evts
    case CancelSync(id) => id in s.evts
  }

  ghost function With(s: Sys, id: Id, e: Evt, h: Handler): Sys
  {
    Sys(s.evts[id := e], h, s.cancelled)
  }

  ghost function Next(s: Sys, a: Act): Sys
    requires Enabled(s, a)
  {
    match a
    case Schedule(id) => With(s, id, Evt(Pending, Open, false, true), s.handler)
    case Expire(id) => With(s, id, s.evts[id].(place := Ready), s.handler)
    case Take(id) => With(s, id, s.evts[id].(place := Held), Took(id))
    case LockRun => With(s, s.handler.id, s.evts[s.handler.id].(run := ByHandler), Locked(s.handler.id))
    case Decide => s.(handler := if s.evts[s.handler.id].canceled then Called(s.handler.id) else Calling(s.handler.id))
    case Return => s.(handler := Called(s.handler.id))
    case UnlockRun => With(s, s.handler.id, s.evts[s.handler.id].(run := Open), Unlocked(s.handler.id))
    case Remove => With(s, s.handler.id, s.evts[s.handler.id].(inTree := false), Removed(s.handler.id))
    case Free => With(s, s.handler.id, s.evts[s.handler.id].(place := Freed), Waiting)
    case Cancel(id) => if s.evts[id].inTree then With(s, id, s.evts[id].(canceled := true), s.handler) else s
    case CancelSync(id) =>
      // one pass of the retry loop; it returns unless the lock was taken
      if !s.evts[id].inTree then s.(cancelled := s.cancelled + {id})
      else if s.evts[id].run == Open then
        Sys(s.evts[id := s.evts[id].(run := ByCanceller, canceled := true)], s.handler, s.cancelled + {id})
      else s
  }

  /** The handler's events match their records. */
  ghost predicate EvtOk(s: Sys, id: Id)
    requires id in s.evts
  {
    var e, h := s.evts[id], s.handler;
    && (e.place == Held <==> !h.Waiting? && h.id == id)
    && (e.inTree <==> e.place == Pending || e.place == Ready || (e.place == Held && !h.Removed?))
    && (e.run == ByHandler <==> (h.Locked? || h.Calling? || h.Called?) && h.id == id)
    && (id in s.cancelled ==> e.run == ByCanceller || !e.inTree)
  }

  ghost predicate Inv(s: Sys)
  {
    && (!s.handler.Waiting? ==> s.handler.id in s.evts)
    && (forall id :: id in s.evts ==> EvtOk(s, id)) && s.cancelled <= s.evts.Keys
  }

  lemma StepKeeps(s: Sys, a: Act)
    requires Inv(s) && Enabled(s, a)
    ensures Inv(Next(s, a))
  {
    if !s.handler.Waiting? {
      assert EvtOk(s, s.handler.id);
    }
    var s' := Next(s, a);
    forall id | id in s'.evts ensures EvtOk(s', id) {
      assert id in s.evts ==> EvtOk(s, id);
    }
  }

  /** The event record that a step reads or writes. */
  ghost function Touched(s: Sys, a: Act): set<Id>
    requires Enabled(s, a)
  {
    match a
    case Schedule(_) => {}
    case Expire(id) => {id}
    case Take(id) => {id}
    case Cancel(id) => if s.evts[id].inTree then {id} else {}
    case CancelSync(id) => if s.evts[id].inTree then {id} else {}
    case _ => {s.handler.id}
  }

  /** No step touches a freed event. */
  lemma NeverTouchesFreed(s: Sys, a: Act)
    requires Inv(s) && Enabled(s, a)
    ensures forall id :: id in Touched(s, a) ==> id in s.evts && s.evts[id].place != Freed
  {
    forall id | id in Touched(s, a) ensures id in s.evts && s.evts[id].place != Freed {
      assert id in s.evts && EvtOk(s, id);
    }
  }

  ghost predicate Run(s: Sys, acts: seq<Act>, s': Sys)
    decreases |acts|
  {
    if acts == [] then s' == s else Enabled(s, acts[0]) && Run(Next(s, acts[0]), acts[1..], s')
  }

  /** Once timer_timeout_cancel_sync has returned, the routine is not running and never runs
      again, whatever happens afterwards. */
  lemma {:induction false} CancelledNeverRuns(s: Sys, acts: seq<Act>, s': Sys, id: Id)
    requires Inv(s) && id in s.cancelled && Run(s, acts, s')
    ensures Inv(s') && id in s'.cancelled && s'.handler != Calling(id)
    decreases |acts|
  {
    assert EvtOk(s, id);
    if acts != [] {
      StepKeeps(s, acts[0]);
      CancelledNeverRuns(Next(s, acts[0]), acts[1..], s', id);
    }
  }

  /** Nothing scheduled yet. */
  const START: Sys := Sys(map[], Waiting, {})

  lemma Initially()
    ensures Inv(START)
  {
  }

  /** The lock that a canceller took is never released: a handler that meets it waits for
      good, and no later timeout is served. */
  lemma {:induction false} HandlerStuck(s: Sys, acts: seq<Act>, s': Sys, id: Id)
    requires Inv(s) && s.handler == Took(id) && id in s.evts && s.evts[id].run == ByCanceller && Run(s, acts, s')
    ensures s'.handler == Took(id)
    decreases |acts|
  {
    if acts != [] {
      StepKeeps(s, acts[0]);
      HandlerStuck(Next(s, acts[0]), acts[1..], s', id);
    }
  }

  /** The run takes the handler past the event. */
  ghost predicate MovesOn(s: Sys, acts: seq<Act>, s': Sys, id: Id)
  {
    Run(s, acts, s') && s'.handler != Took(id)
  }

  /** A handler that has taken an event can move on if and only if no canceller holds the
      event's lock. */
  lemma MovesOnIff(s: Sys, id: Id)
    requires Inv(s) && s.handler == Took(id)
    ensures id in s.evts
    ensures (exists acts, s' :: MovesOn(s, acts, s', id)) <==> s.evts[id].run != ByCanceller
  {
    assert EvtOk(s, id);
    if s.evts[id].run == ByCanceller {
      forall acts, s' ensures !MovesOn(s, acts, s', id) {
        if Run(s, acts, s') {
          HandlerStuck(s, acts, s', id);
        }
      }
    } else {
      var acts, s' := [LockRun], Next(s, LockRun);
      assert acts[1..] == [] && Run(s', acts[1..], s');
      assert MovesOn(s, acts, s', id);
    }
  }

  // ---- whole runs

  /** In the run some synchronised cancel of the event takes its lock. */
  ghost predicate TakesLock(s: Sys, acts: seq<Act>, id: Id)
    decreases |acts|
  {
    acts != [] && Enabled(s, acts[0]) &&
    ((acts[0] == CancelSync(id) && s.evts[id].inTree && s.evts[id].run == Open)
        || TakesLock(Next(s, acts[0]), acts[1..], id))
  }

  lemma {:induction false} LockStays(s: Sys, acts: seq<Act>, s': Sys, id: Id)
    requires Inv(s) && id in s.evts && s.evts[id].run == ByCanceller && Run(s, acts, s')
    ensures id in s'.evts && s'.evts[id].run == ByCanceller
    decreases |acts|
  {
    if acts != [] {
      assert EvtOk(s, id);
      StepKeeps(s, acts[0]);
      LockStays(Next(s, acts[0]), acts[1..], s', id);
    }
  }

  /** A canceller holds the lock exactly if one took it on the way. */
  lemma {:induction false} LockedIff(s: Sys, acts: seq<Act>, s': Sys, id: Id)
    requires Inv(s) && Run(s, acts, s') && (id in s.evts ==> s.evts[id].run != ByCanceller)
    ensures (id in s'.evts && s'.evts[id].run == ByCanceller) <==> TakesLock(s, acts, id)
    decreases |acts|
  {
    if acts != [] {
      var next := Next(s, acts[0]);
      StepKeeps(s, acts[0]);
      if acts[0] == CancelSync(id) && s.evts[id].inTree && s.evts[id].run == Open {
        LockStays(next, acts[1..], s', id);
      } else {
        LockedIff(next, acts[1..], s', id);
      }
    }
  }

  /** The handler is done with locking the event. */
  ghost predicate Past(s: Sys, id: Id)
  {
    id in s.evts && (s.evts[id].place == Freed || (s.evts[id].place == Held && s.handler != Took(id)))
  }

  lemma {:induction false} PastStays(s: Sys, acts: seq<Act>, s': Sys, id: Id)
    requires Inv(s) && Past(s, id) && Run(s, acts, s')
    ensures s'.handler != Took(id)
    decreases |acts|
  {
    assert EvtOk(s, id);
    if acts != [] {
      StepKeeps(s, acts[0]);
      PastStays(Next(s, acts[0]), acts[1..], s', id);
    }
  }

  /** Before the handler's lock step every synchronised cancel takes the lock, unless one has
      it already. */
  lemma {:induction false} CancelTakesLock(s: Sys, acts: seq<Act>, s': Sys, id: Id)
    requires Inv(s) && Run(s, acts, s') && s'.handler == Took(id) && (id in s.evts ==> s.evts[id].run != ByCanceller)
    ensures CancelSync(id) in acts <==> TakesLock(s, acts, id)
    decreases |acts|
  {
    if acts != [] {
      StepKeeps(s, acts[0]);
      assert acts == [acts[0]] + acts[1..];
      if acts[0] == CancelSync(id) {
        assert EvtOk(s, id);
        if Past(s, id) {
          PastStays(s, acts, s', id);
        }
      } else {
        CancelTakesLock(Next(s, acts[0]), acts[1..], s', id);
      }
    }
  }

  /** In every run from the start: the handler that has just taken an event can move on if and
      only if timer_timeout_cancel_sync was not called for it before. */
  lemma StuckIff(acts: seq<Act>, s: Sys, id: Id)
    requires Run(START, acts, s) && s.handler == Took(id)
    ensures (exists more, s' :: MovesOn(s, more, s', id)) <==> CancelSync(id) !in acts
  {
    Initially();
    Reachable(START, acts, s);
    MovesOnIff(s, id);
    LockedIff(START, acts, s, id);
    CancelTakesLock(START, acts, s, id);
  }

  lemma {:induction false} Reachable(s: Sys, acts: seq<Act>, s': Sys)
    requires Inv(s) && Run(s, acts, s')
    ensures Inv(s')
    decreases |acts|
  {
    if acts != [] {
      StepKeeps(s, acts[0]);
      Reachable(Next(s, acts[0]), acts[1..], s');
    }
  }

  /** A run that ends with the handler stuck for good: the timeout is cancelled while it waits
      in the ready queue. */
  lemma StuckRun() returns (acts: seq<Act>, s: Sys)
    ensures Run(START, acts, s) && s.handler == Took(0) && 1 in s.evts && s.evts[1].place == Ready
    ensures forall more, s' :: Run(s, more, s') ==> s'.handler == Took(0)
  {
    acts := [Schedule(0), Expire(0), Schedule(1), Expire(1), CancelSync(0), Take(0)];
    var s1 := Next(START, acts[0]);
    var s2 := Next(s1, acts[1]);
    var s3 := Next(s2, acts[2]);
    var s4 := Next(s3, acts[3]);
    var s5 := Next(s4, acts[4]);
    s := Next(s5, acts[5]);
    assert Run(s, acts[6..], s);
    assert Run(s5, acts[5..], s) by { assert acts[5..][1..] == acts[6..]; }
    assert Run(s4, acts[4..], s) by { assert acts[4..][1..] == acts[5..]; }
    assert Run(s3, acts[3..], s) by { assert acts[3..][1..] == acts[4..]; }
    assert Run(s2, acts[2..], s) by { assert acts[2..][1..] == acts[3..]; }
    assert Run(s1, acts[1..], s) by { assert acts[1..][1..] == acts[2..]; }
    forall more, s' | Run(s, more, s') ensures s'.handler == Took(0) {
      Initially();
      Reachable(START, acts, s);
      HandlerStuck(s, more, s', 0);
    }
  }

  // ---- the routine

  /** How often the handler goes off to call the routine of the event. */
  ghost function Calls(s: Sys, acts: seq<Act>, id: Id): nat
    decreases |acts|
  {
    if acts == [] || !Enabled(s, acts[0]) then 0
    else
      var next := Next(s, acts[0]);
      Calls(next, acts[1..], id) + if next.handler == Calling(id) && s.handler != Calling(id) then 1 else 0
  }

  /** A cancel of the event takes effect: any one that finds it in the tree, a synchronised one
      only with the lock open. */
  ghost predicate Cancels(s: Sys, a: Act, id: Id)
  {
    && id in s.evts && s.evts[id].inTree
    && (a == Cancel(id) || (a == CancelSync(id) && s.evts[id].run == Open))
  }

  /** One does before the handler decides about the event. */
  ghost predicate CancelledInTime(s: Sys, acts: seq<Act>, id: Id)
    decreases |acts|
  {
    && acts != [] && Enabled(s, acts[0]) && !(acts[0] == Decide && s.handler == Locked(id))
    && (Cancels(s, acts[0], id) || CancelledInTime(Next(s, acts[0]), acts[1..], id))
  }

  /** The handler has not decided about the event yet. */
  ghost predicate Undecided(s: Sys, id: Id)
  {
    id !in s.evts || s.evts[id].place == Pending || s.evts[id].place == Ready || s.handler == Took(id)
        || s.handler == Locked(id)
  }

  /** After the decision the routine is not called any more. */
  lemma {:induction false} NoMoreCalls(s: Sys, acts: seq<Act>, s': Sys, id: Id)
    requires Inv(s) && !Undecided(s, id) && Run(s, acts, s')
    ensures Calls(s, acts, id) == 0
    decreases |acts|
  {
    if acts != [] {
      assert EvtOk(s, id);
      StepKeeps(s, acts[0]);
      NoMoreCalls(Next(s, acts[0]), acts[1..], s', id);
    }
  }

  /** What a step before the decision does to the event. */
  lemma UndecidedStep(s: Sys, a: Act, id: Id)
    requires Inv(s) && Enabled(s, a) && Undecided(s, id) && !(a == Decide && s.handler == Locked(id))
    ensures var next := Next(s, a);
      && Inv(next) && Undecided(next, id) && next.handler != Calling(id)
      && ((id in next.evts && next.evts[id].canceled) <==> (id in s.evts && s.evts[id].canceled) || Cancels(s, a, id))
  {
    assert id in s.evts ==> EvtOk(s, id);
    StepKeeps(s, a);
  }

  lemma DecideStep(s: Sys, id: Id)
    requires Inv(s) && Enabled(s, Decide) && s.handler == Locked(id)
    ensures var next := Next(s, Decide);
      id in s.evts && Inv(next) && !Undecided(next, id) && (next.handler == Calling(id) <==> !s.evts[id].canceled)
  {
    assert EvtOk(s, id);
    StepKeeps(s, Decide);
  }

  lemma {:induction false} CallsOnce(s: Sys, acts: seq<Act>, s': Sys, id: Id)
    requires Inv(s) && Undecided(s, id) && Run(s, acts, s') && id in s'.evts && s'.evts[id].place == Freed
    ensures Calls(s, acts, id)
         == if (id in s.evts && s.evts[id].canceled) || CancelledInTime(s, acts, id) then 0 else 1
    decreases |acts|
  {
    assert id in s.evts ==> EvtOk(s, id);
    if acts != [] {
      hide Next, Enabled, Inv, Undecided, Cancels;
      if acts[0] == Decide && s.handler == Locked(id) {
        DecideStep(s, id);
        NoMoreCalls(Next(s, acts[0]), acts[1..], s', id);
      } else {
        UndecidedStep(s, acts[0], id);
        CallsOnce(Next(s, acts[0]), acts[1..], s', id);
      }
    }
  }

  /** In every run from the start, an event that the handler is done with had its routine called
      exactly once, or not at all if a cancel of it took effect before the decision. */
  lemma RoutineRunsOnce(acts: seq<Act>, s: Sys, id: Id)
    requires Run(START, acts, s) && id in s.evts && s.evts[id].place == Freed
    ensures Calls(START, acts, id) == if CancelledInTime(START, acts, id) then 0 else 1
  {
    Initially();
    CallsOnce(START, acts, s, id);
  }

  /** Until the decision timer_timeout_cancel always takes effect, and the synchronised cancel
      does unless the handler or a canceller has the lock. Afterwards neither stops the call. */
  lemma CancelTakesEffect(s: Sys, id: Id)
    requires Inv(s) && id in s.evts && Undecided(s, id)
    ensures Cancels(s, Cancel(id), id) && (Cancels(s, CancelSync(id), id) <==> s.evts[id].run == Open)
    ensures Next(s, Cancel(id)).evts[id].canceled
    ensures s.evts[id].run == Open ==> Next(s, CancelSync(id)).evts[id].canceled
  {
    assert EvtOk(s, id);
  }

  /** The steps of the handler that has taken an event. */
  function Handling(canceled: bool): seq<Act>
  {
    [LockRun] + ([Decide] + ((if canceled then [] else [Return]) + ([UnlockRun] + ([Remove] + ([Free] + [])))))
  }

  lemma {:induction false} OneStep(s: Sys, a: Act, acts: seq<Act>, s': Sys)
    requires Enabled(s, a) && Run(Next(s, a), acts, s')
    ensures Run(s, [a] + acts, s')
  {
    assert ([a] + acts)[1..] == acts;
  }

  /** Left alone, a handler that took an event whose lock is open calls its routine unless it was
      cancelled, frees the event and is ready for the next. */
  lemma HandlerFinishes(s: Sys, id: Id) returns (s': Sys)
    requires Inv(s) && s.handler == Took(id) && id in s.evts && s.evts[id].run == Open
    ensures Run(s, Handling(s.evts[id].canceled), s') && s'.handler == Waiting
    ensures s' == s.(handler := Waiting, evts := s'.evts)
    ensures s'.evts == s.evts[id := s.evts[id].(place := Freed, inTree := false)]
  {
    var s1 := Next(s, LockRun);
    var s2 := Next(s1, Decide);
    var s3 := if s.evts[id].canceled then s2 else Next(s2, Return);
    var s4 := Next(s3, UnlockRun);
    var s5 := Next(s4, Remove);
    s' := Next(s5, Free);
    OneStep(s5, Free, [], s');
    OneStep(s4, Remove, [Free] + [], s');
    OneStep(s3, UnlockRun, [Remove] + ([Free] + []), s');
    var last := [UnlockRun] + ([Remove] + ([Free] + []));
    if s.evts[id].canceled {
      assert [] + last == last;
    } else {
      OneStep(s2, Return, last, s');
    }
    OneStep(s1, Decide, (if s.evts[id].canceled then [] else [Return]) + last, s');
    OneStep(s, LockRun, [Decide] + ((if s.evts[id].canceled then [] else [Return]) + last), s');
  }

  /** So a timeout that nobody cancels is served: scheduled, expired and taken by a handler that
      waits, it has its routine called once. */
  lemma TimeoutServed(s: Sys, id: Id) returns (acts: seq<Act>, s': Sys)
    requires Inv(s) && s.handler == Waiting && id !in s.evts
    ensures Run(s, acts, s') && id in s'.evts && s'.evts[id].place == Freed && Calls(s, acts, id) == 1
    ensures acts == [Schedule(id)] + ([Expire(id)] + ([Take(id)] + Handling(false)))
  {
    var s1 := Next(s, Schedule(id));
    var s2 := Next(s1, Expire(id));
    var s3 := Next(s2, Take(id));
    StepKeeps(s, Schedule(id));
    StepKeeps(s1, Expire(id));
    StepKeeps(s2, Take(id));
    s' := HandlerFinishes(s3, id);
    hide Handling;
    OneStep(s2, Take(id), Handling(false), s');
    OneStep(s1, Expire(id), [Take(id)] + Handling(false), s');
    OneStep(s, Schedule(id), [Expire(id)] + ([Take(id)] + Handling(false)), s');
    acts := [Schedule(id)] + ([Expire(id)] + ([Take(id)] + Handling(false)));
    CallsOnce(s, acts, s', id);
    NoCancels(s, acts, id) by {
      HandlingNoCancels(id);
    }
  }

  /** Without a cancel of it in the run none takes effect. */
  lemma {:induction false} NoCancels(s: Sys, acts: seq<Act>, id: Id)
    requires Cancel(id) !in acts && CancelSync(id) !in acts
    ensures !CancelledInTime(s, acts, id)
    decreases |acts|
  {
    hide Next, Enabled;
    if acts != [] && Enabled(s, acts[0]) {
      NoCancels(Next(s, acts[0]), acts[1..], id);
    }
  }

  lemma HandlingNoCancels(id: Id)
    ensures forall c :: Cancel(id) !in Handling(c) && CancelSync(id) !in Handling(c)
  {
  }
}
