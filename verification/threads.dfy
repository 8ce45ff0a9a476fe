/** Thread states and the alive, death and dead lists (thread.c), driving the scheduler.
    Each method runs with interrupts disabled, so it is one step. */
module ThreadOps {
  import opened RunQueues
  import opened Scheduling

  datatype Status = NoError | InvalidHandle | InvalidState

  /** Every thread is on exactly one list, the one its state says, and once. */
  ghost predicate Listed(th: Threads, alive: seq<Tid>, death: seq<Tid>, dead: seq<Tid>)
  {
    && NoDup(alive) && NoDup(death) && NoDup(dead)
    && (forall t :: t in dead <==> t in th && th[t].state == Dead)
    && (forall t :: t in death <==> t in th && th[t].state == Death)
    && (forall t :: t in alive <==> t in th && th[t].state != Dead && th[t].state != Death)
  }

  /** The first dead thread comes to life. */
  lemma {:induction false} Reborn(th: Threads, alive: seq<Tid>, death: seq<Tid>, dead: seq<Tid>, r: Thread)
    requires Listed(th, alive, death, dead) && dead != [] && r.state != Dead && r.state != Death
    ensures Listed(th[dead[0] := r], alive + [dead[0]], death, dead[1..])
  {
    var t := dead[0];
    assert t in dead && t !in alive;
    assert NoDup(dead[1..]) && forall x :: x in dead[1..] <==> x in dead && x != t by {
      Removed(dead, 0);
      assert Without(dead, 0) == dead[1..];
    }
    assert NoDup(alive + [t]) && forall x :: x in alive + [t] <==> x in alive || x == t by { Added(alive, t); }
    hide NoDup;
  }

  lemma {:induction false} BuriedListed(th: Threads, alive: seq<Tid>, death: seq<Tid>, dead: seq<Tid>, r: Thread)
    requires Listed(th, alive, death, dead) && death != [] && r.state == Dead
    ensures Listed(th[death[0] := r], alive, death[1..], dead + [death[0]])
  {
    assert death[0] in death;
    Removed(death, 0);
    assert Without(death, 0) == death[1..];
    Added(dead, death[0]);
  }

  lemma ListedKept(th: Threads, th': Threads, alive: seq<Tid>, death: seq<Tid>, dead: seq<Tid>)
    requires Listed(th, alive, death, dead) && th'.Keys == th.Keys
    requires forall t :: t in th ==>
             (th'[t].state == Dead <==> th[t].state == Dead) && (th'[t].state == Death <==> th[t].state == Death)
    ensures Listed(th', alive, death, dead)
  {
  }

  /** Taking a thread out of a list it is on. */
  lemma Removed(s: seq<Tid>, k: nat)
    requires NoDup(s) && k < |s|
    ensures NoDup(Without(s, k)) && forall t :: t in Without(s, k) <==> t in s && t != s[k]
  {
    var r := Without(s, k);
    forall i, j | 0 <= i < j < |r| ensures r[i] != r[j] {
      assert r[i] == s[if i < k then i else i + 1] && r[j] == s[if j < k then j else j + 1];
    }
    forall t | t in s && t != s[k] ensures t in r {
      var i :| 0 <= i < |s| && s[i] == t;
      assert r[if i < k then i else i - 1] == t;
    }
    forall t | t in r ensures t in s && t != s[k] {
      var i :| 0 <= i < |r| && r[i] == t;
      assert r[i] == s[if i < k then i else i + 1];
    }
  }

  lemma Added(s: seq<Tid>, x: Tid)
    requires NoDup(s) && x !in s
    ensures NoDup(s + [x]) && forall t :: t in s + [x] <==> t in s || t == x
  {
  }

  method RemoveFrom(s: seq<Tid>, x: Tid) returns (r: seq<Tid>)
    requires NoDup(s) && x in s
    ensures NoDup(r) && forall t :: t in r <==> t in s && t != x
  {
    var k := 0;
    while s[k] != x
      invariant k < |s| && x !in s[..k]
      decreases |s| - k
    {
      k := k + 1;
    }
    Removed(s, k);
    r := Without(s, k);
  }

  class ThreadTable {
    const sched: Scheduler
    var alive: seq<Tid>
    var death: seq<Tid>
    var dead: seq<Tid>

    ghost predicate Valid()
      reads this, sched, sched.rq
    {
      sched.Valid() && Listed(sched.threads, alive, death, dead) && sched.threads[sched.current].next != Death
    }

    constructor (idle: Tid, policy: Policy)
      ensures Valid() && fresh(sched) && fresh(sched.rq) && sched.idle == idle
    {
      sched := new Scheduler(idle, policy);
      alive, death, dead := [idle], [], [];
    }

    // ---- creation

    /** move_thread_to_list_nolock to the dead list, for the first thread of the death list. */
    method Bury()
      requires Valid() && death != []
      modifies this`death, this`dead, sched`threads
      ensures Valid() && death == old(death)[1..] && dead == old(dead) + [old(death)[0]]
              && old(death)[0] in old(sched.threads)
      ensures sched.threads == old(sched.threads)[old(death)[0] := old(sched.threads)[old(death)[0]].(state := Dead)]
    {
      hide QueuesOk, ThreadsOk, Total, Listed;
      ghost var th := sched.threads;
      var t := death[0];
      DeathKnown(t);
      BuriedListed(th, alive, death, dead, th[t].(state := Dead));
      ghost var r := th[t].(state := Dead);
      Unmoved(sched.rq[..], th, sched.idle, t, r);
      OtherChanged(th, sched.current, sched.idle, t, r);
      death := death[1..];
      sched.threads := sched.threads[t := sched.threads[t].(state := Dead)];
      dead := dead + [t];
    }

    /** Threads of the death list, all of which are in the death state, become dead. */
    ghost function Buried(th: Threads, ts: seq<Tid>): Threads
    {
      map t | t in th :: if t in ts then th[t].(state := Dead) else th[t]
    }

    /** purge_death_threads_list_nolock. */
    method PurgeDeath()
      requires Valid()
      modifies this`death, this`dead, sched`threads
      ensures Valid() && death == [] && dead == old(dead) + old(death)
      ensures sched.threads == Buried(old(sched.threads), old(death))
    {
      hide Listed, Scheduler.Valid;
      ghost var th, all, n := sched.threads, death, 0;
      assert Buried(th, all[..0]) == th;
      while death != []
        invariant Valid() && n <= |all| && death == all[n..] && dead == old(dead) + all[..n]
        invariant sched.threads == Buried(th, all[..n])
        decreases |death|
      {
        assert all[..n + 1] == all[..n] + [all[n]];
        Bury();
        assert sched.threads == Buried(th, all[..n + 1]);
        n := n + 1;
      }
      assert all[..n] == all;
    }

    lemma DeathKnown(t: Tid)
      requires Valid() && t in death
      ensures t in sched.threads && sched.threads[t].state == Death && t != sched.idle && t != sched.current
              && t !in dead && t !in alive
      ensures SaneThread(sched.threads[t]) && sched.threads[t].sPrio >= 0
    {
    }

    /** move_thread_to_list_nolock to the alive list, for the first dead thread. */
    method Revive() returns (t: Tid)
      requires Valid() && dead != []
      modifies this`dead, this`alive, sched`threads
      ensures Valid() && t == old(dead)[0] && t in old(sched.threads) && t != sched.idle && t != sched.current
              && t !in old(alive)
      ensures alive == old(alive) + [t]
              && sched.threads == old(sched.threads)[t := old(sched.threads)[t].(state := Birth)]
    {
      hide QueuesOk, ThreadsOk, Total, Listed, NoDup;
      t := dead[0];
      ghost var th := sched.threads;
      DeadKnown(t);
      ghost var r := th[t].(state := Birth);
      Unmoved(sched.rq[..], th, sched.idle, t, r);
      OtherChanged(th, sched.current, sched.idle, t, r);
      Reborn(th, alive, death, dead, r);
      dead := dead[1..];
      sched.threads := sched.threads[t := sched.threads[t].(state := Birth)];
      alive := alive + [t];
    }

    /** create_thread_struct: a new thread with all its fields zero. */
    method MakeNew(t: Tid)
      requires Valid() && t !in sched.threads
      modifies this`alive, sched`threads
      ensures Valid() && t != sched.idle && t != sched.current && t !in old(alive) && alive == old(alive) + [t]
      ensures sched.threads ==
              old(sched.threads)[t := Thread(Birth, Ready, false, 0, 0, 0, Ordinary, false, 0, 0, 0, 0)]
    {
      hide QueuesOk, ThreadsOk, Total;
      ghost var th := sched.threads;
      NotIdle(t);
      var r := Thread(Birth, Ready, false, 0, 0, 0, Ordinary, false, 0, 0, 0, 0);
      Unmoved(sched.rq[..], th, sched.idle, t, r);
      OtherChanged(th, sched.current, sched.idle, t, r);
      Added(alive, t);
      sched.threads := sched.threads[t := r];
      alive := alive + [t];
    }

    /** get_thread_struct: reuse a dead thread or make a new one. */
    method GetStruct(newId: Tid) returns (t: Tid)
      requires Valid() && newId !in sched.threads
      modifies this, sched`threads
      ensures Valid() && t in sched.threads && sched.threads[t].state == Birth && t != sched.idle && t != sched.current
      ensures t !in old(alive) && alive == old(alive) + [t] && (t == newId || t in old(dead) + old(death))
      ensures sched.threads == Buried(old(sched.threads), old(death))[t := sched.threads[t]]
    {
      hide Listed, Scheduler.Valid;
      PurgeDeath();
      if dead != [] {
        t := Revive();
      } else {
        t := newId;
        MakeNew(t);
      }
    }

    lemma DeadKnown(t: Tid)
      requires Valid() && t in dead
      ensures t in sched.threads && sched.threads[t].state == Dead && t != sched.idle && t != sched.current
              && t !in alive && t !in death
      ensures SaneThread(sched.threads[t]) && sched.threads[t].sPrio >= 0
    {
    }

    lemma NotIdle(t: Tid)
      requires Valid() && t !in sched.threads
      ensures t != sched.idle && t != sched.current && t !in alive
    {
    }

    /** Give a thread in the birth state its parameters and start or suspend it. */
    method Launch(t: Tid, sPrio: int, policy: Policy, interactive: bool, suspended: bool)
      requires Valid() && t in sched.threads && sched.threads[t].state == Birth && t != sched.idle
               && t != sched.current && sPrio >= 0
      modifies sched`threads, sched`total, sched.rq
      ensures Valid() && t in sched.threads && sched.threads == old(sched.threads)[t := sched.threads[t]]
      ensures sched.threads[t].state == (if suspended then Suspended else Ready)
              && sched.threads[t].next == (if suspended then Ready else Running)
      ensures sched.threads[t].policy == policy && sched.threads[t].interactive == interactive
      ensures !suspended ==>
              sched.threads[t].dPrio == (if sPrio > 127 then 127 else sPrio)
              && sched.rq[..] == Appended(old(sched.rq[..]), sched.threads[t].dPrio, t)
      ensures suspended ==> sched.rq[..] == old(sched.rq[..])
    {
      hide QueuesOk, ThreadsOk, Total, Listed, NoDup;
      ghost var th := sched.threads;
      sched.StoppedSane(t);
      var r := sched.threads[t].(policy := policy, interactive := interactive, sPrio := sPrio);
      if suspended {
        r := r.(state := Suspended, next := Ready);
      }
      Unmoved(sched.rq[..], th, sched.idle, t, r);
      OtherChanged(th, sched.current, sched.idle, t, r);
      sched.threads := sched.threads[t := r];
      if !suspended {
        sched.AddThread(t);
      }
      ListedKept(th, sched.threads, alive, death, dead);
    }

    /** The scheduling part of thread creation. */
    method Create(newId: Tid, sPrio: int, policy: Policy, interactive: bool, suspended: bool) returns (t: Tid)
      requires Valid() && newId !in sched.threads && sPrio >= 0
      modifies this, sched`threads, sched`total, sched.rq
      ensures Valid() && t !in old(alive) && alive == old(alive) + [t]
      ensures t in sched.threads && t != sched.idle
              && sched.threads[t].state == (if suspended then Suspended else Ready)
      ensures sched.threads[t].next == (if suspended then Ready else Running)
      ensures sched.threads[t].policy == policy && sched.threads[t].interactive == interactive
      ensures !suspended ==>
              sched.threads[t].dPrio == (if sPrio > 127 then 127 else sPrio)
              && sched.rq[..] == Appended(old(sched.rq[..]), sched.threads[t].dPrio, t)
      ensures suspended ==> sched.rq[..] == old(sched.rq[..])
      ensures sched.threads == Buried(old(sched.threads), old(death))[t := sched.threads[t]]
    {
      hide Listed, Scheduler.Valid;
      t := GetStruct(newId);
      Launch(t, sPrio, policy, interactive, suspended);
    }

    lemma AliveKnown()
      requires Valid()
      ensures forall x :: x in alive ==> x in sched.threads && x !in dead && x !in death
    {
    }

    // ---- suspend, resume, sleep, wait, exit

    /** May t be stopped? It is ready or running and means to go on. */
    predicate Stoppable(t: Tid)
      requires t in sched.threads
      reads this, sched
    {
      var x := sched.threads[t];
      (x.state == Ready || x.state == Running) && (x.next == Ready || x.next == Running)
    }

    method SetNext(t: Tid, next: State)
      requires Valid() && t in sched.threads && t != sched.idle && SaneThread(sched.threads[t].(next := next))
               && next != Death
      modifies sched`threads
      ensures Valid() && sched.threads == old(sched.threads)[t := old(sched.threads)[t].(next := next)]
    {
      hide QueuesOk, Total, ThreadsOk;
      ghost var r := sched.threads[t].(next := next);
      Unmoved(sched.rq[..], sched.threads, sched.idle, t, r);
      NextChanged(sched.threads, sched.current, sched.idle, t, r);
      sched.threads := sched.threads[t := sched.threads[t].(next := next)];
    }

    /** sched_reschedule; the lists are kept unless the thread is dying. */
    method Switch() returns (ghost q: Queues, ghost th: Threads)
      requires Valid()
      modifies sched`threads, sched`total, sched`current, sched.rq
      ensures Valid() && Switched(old(sched.current), old(sched.threads))
      ensures sched.Rescheduled(old(sched.current), old(sched.threads), old(sched.rq[..]), q, th)
    {
      hide QueuesOk, Total, ThreadsOk, Listed;
      ghost var c, th0, q0 := sched.current, sched.threads, sched.rq[..];
      NotDying();
      sched.CurrentKnown();
      q, th := sched.Reschedule();
      if c == sched.idle || th0[c].next != Running {
        sched.States(c, th0[c], th0, q0, q, th);
      }
      ListedKept(th0, sched.threads, alive, death, dead);
    }

    /** The effect of rescheduling on states. */
    ghost predicate Switched(c: Tid, th0: Threads)
      reads sched
    {
      && c in th0 && sched.threads.Keys == th0.Keys
      && (forall t :: t in sched.threads && t != c && t != sched.current ==> sched.threads[t] == th0[t])
      && (sched.current != c ==> sched.threads[c].state == th0[c].next)
      && (c != sched.idle && th0[c].next != Ready && th0[c].next != Running ==> sched.current != c)
    }

    /** thread_suspend and thread_suspend_current. */
    method Suspend(t: Tid) returns (status: Status, ghost q: Queues, ghost th: Threads)
      requires Valid() && t != sched.idle
      modifies sched`threads, sched`total, sched`current, sched.rq
      ensures Valid() && sched.threads.Keys == old(sched.threads).Keys
      ensures status == InvalidHandle <==> t !in alive
      ensures t in alive ==> t in old(sched.threads) && var x := old(sched.threads)[t];
              status == InvalidState <==> x.state !in {Ready, Running} || x.next !in {Ready, Running}
      ensures status == NoError && t == old(sched.current) ==>
              sched.current != t && sched.threads[t].state == Suspended
              && sched.Rescheduled(t, old(sched.threads)[t := old(sched.threads)[t].(next := Suspended)],
                                   old(sched.rq[..]), q, th)
      ensures status == NoError && t != old(sched.current) ==>
              sched.threads == old(sched.threads)[t := old(sched.threads)[t].(next := Suspended)]
              && sched.current == old(sched.current) && sched.rq[..] == old(sched.rq[..])
      ensures status != NoError ==>
              sched.threads == old(sched.threads) && sched.current == old(sched.current)
              && sched.rq[..] == old(sched.rq[..])
    {
      hide QueuesOk, Total, ThreadsOk;
      q, th := sched.rq[..], sched.threads;
      if t !in alive {
        return InvalidHandle, q, th;
      }
      AliveKnown();
      Sane(t);
      if !Stoppable(t) {
        return InvalidState, q, th;
      }
      SetNext(t, Suspended);
      if t == sched.current {
        q, th := Switch();
      }
      status := NoError;
    }

    lemma Sane(t: Tid)
      requires Valid() && t in sched.threads
      ensures SaneThread(sched.threads[t]) && (t != sched.current ==> sched.threads[t].state != Running)
      ensures sched.current in sched.threads && sched.threads[sched.current].state == Running
    {
    }

    /** thread_resume. */
    method Resume(t: Tid) returns (status: Status)
      requires Valid() && t != sched.idle
      modifies sched, sched.rq
      ensures Valid() && sched.threads.Keys == old(sched.threads).Keys && sched.current == old(sched.current)
      ensures status == if t in alive then NoError else InvalidHandle
      ensures t in alive && old(sched.threads)[t].state == Suspended ==>
              sched.Joins(t, old(sched.threads), old(sched.rq[..]))
      ensures t in alive ==> t in old(sched.threads)
      ensures t !in alive || old(sched.threads)[t].state != Suspended ==>
              sched.threads == old(sched.threads) && sched.rq[..] == old(sched.rq[..])
    {
      hide QueuesOk, Total, ThreadsOk;
      if t !in alive {
        return InvalidHandle;
      }
      AliveKnown();
      if sched.threads[t].state == Suspended {
        sched.AddThread(t);
      }
      status := NoError;
    }

    /** thread_sleep with a nonzero time (a zero time just yields). */
    method Sleep() returns (ghost q: Queues, ghost th: Threads)
      requires Valid() && sched.current != sched.idle
      modifies sched`threads, sched`total, sched`current, sched.rq
      ensures Valid() && sched.threads.Keys == old(sched.threads).Keys
      ensures var c, r := old(sched.current), old(sched.threads[sched.current]);
              sched.Rescheduled(c,
                  old(sched.threads)[c := if r.next in {Ready, Running} then r.(next := Sleeping) else r],
                                old(sched.rq[..]), q, th)
      ensures old(sched.threads[sched.current]).next in {Ready, Running} ==>
              sched.current != old(sched.current) && sched.threads[old(sched.current)].state == Sleeping
    {
      hide QueuesOk, Total, ThreadsOk;
      NotDying();
      Sane(sched.current);
      if Stoppable(sched.current) {
        SetNext(sched.current, Sleeping);
      }
      q, th := Switch();
    }

    lemma NotDying()
      requires Valid()
      ensures sched.current in sched.threads && sched.threads[sched.current].next != Death
    {
    }

    /** thread_sleep_id for a thread other than the current one. */
    method SleepOther(t: Tid) returns (status: Status)
      requires Valid() && t != sched.idle && t != sched.current
      modifies sched`threads, sched`total, sched.rq
      ensures Valid() && sched.current == old(sched.current)
      ensures status == InvalidHandle <==> t !in alive
      ensures t in alive ==> t in old(sched.threads) && var x := old(sched.threads)[t];
              status == InvalidState <==> x.state !in {Ready, Running} || x.next !in {Ready, Running}
      ensures status == NoError ==>
              sched.threads == old(sched.threads)[t := old(sched.threads)[t].(state := Sleeping, next := Sleeping)]
      ensures status != NoError ==> sched.threads == old(sched.threads) && sched.rq[..] == old(sched.rq[..])
    {
      hide QueuesOk, Total, ThreadsOk;
      if t !in alive {
        return InvalidHandle;
      }
      AliveKnown();
      Sane(t);
      if !Stoppable(t) {
        return InvalidState;
      }
      ghost var q, th := sched.rq[..], sched.threads;
      ReadyKnown(q, th, sched.idle, t);
      var p := sched.threads[t].dPrio;
      var k := 0;
      while sched.rq[p][k] != t
        invariant k < |sched.rq[p]| && t !in sched.rq[p][..k]
        decreases |sched.rq[p]| - k
      {
        k := k + 1;
      }
      sched.rq[p] := Without(sched.rq[p], k);
      sched.total := sched.total - 1;
      assert sched.rq[..] == q[p := Without(q[p], k)];
      sched.threads := sched.threads[t := sched.threads[t].(next := Sleeping, state := Sleeping)];
      Left(q, th, sched.idle, p, k, sched.threads[t]);
      sched.StoppedSaneIn(th, t);
      OtherChanged(th, sched.current, sched.idle, t, sched.threads[t]);
      status := NoError;
    }

    /** A thread about to wait for an event: it stops at the next rescheduling. */
    method MarkWaiting() returns (marked: bool)
      requires Valid() && sched.current != sched.idle
      modifies sched`threads
      ensures Valid() && (marked <==> old(sched.threads[sched.current]).next in {Ready, Running})
      ensures marked ==>
              sched.threads == old(sched.threads)[sched.current := old(sched.threads[sched.current]).(next := Waiting)]
      ensures !marked ==> sched.threads == old(sched.threads)
    {
      hide QueuesOk, Total, ThreadsOk;
      NotDying();
      Sane(sched.current);
      marked := Stoppable(sched.current);
      if marked {
        SetNext(sched.current, Waiting);
      }
    }

    /** The event has come for a waiting or sleeping thread. */
    method Wake(t: Tid)
      requires Valid() && t in sched.threads && t != sched.idle && sched.threads[t].state in {Waiting, Sleeping}
      modifies sched`threads, sched`total, sched.rq
      ensures Valid() && t in sched.threads && sched.threads[t].state == Ready && sched.threads[t].next == Running
      ensures sched.Joins(t, old(sched.threads), old(sched.rq[..]))
    {
      hide QueuesOk, Total, ThreadsOk;
      sched.AddThread(t);
    }

    /** The wake-up of the timeout handler thread, whose suspension may still be pending. */
    method CancelSuspend(t: Tid)
      requires Valid() && t in sched.threads && t != sched.idle
      modifies sched`threads, sched`total, sched.rq
      ensures Valid() && t in sched.threads && sched.threads[t].state != Suspended && sched.threads[t].next != Suspended
      ensures sched.threads == old(sched.threads)[t := sched.threads[t]]
      ensures old(sched.threads)[t].state == Suspended ==> sched.Joins(t, old(sched.threads), old(sched.rq[..]))
      ensures old(sched.threads)[t].state != Suspended ==>
              sched.rq[..] == old(sched.rq[..])
              && var was := old(sched.threads)[t];
                 sched.threads[t] == was.(next := if was.next == Suspended then Ready else was.next)
    {
      hide QueuesOk, Total, ThreadsOk;
      if sched.threads[t].state == Suspended {
        sched.AddThread(t);
      }
      Sane(t);
      if sched.threads[t].next == Suspended {
        SetNext(t, Ready);
      }
    }

    /** thread_exit: the thread goes to the death list and stops for good. */
    method Exit() returns (ghost q: Queues, ghost th: Threads)
      requires Valid() && sched.current != sched.idle
      modifies this, sched`threads, sched`total, sched`current, sched.rq
      ensures Valid() && sched.current != old(sched.current) && sched.threads.Keys == old(sched.threads).Keys
      ensures death == old(death) + [old(sched.current)] && sched.threads[old(sched.current)].state == Death
              && dead == old(dead)
      ensures forall x :: x in alive <==> x in old(alive) && x != old(sched.current)
      ensures var c, r := old(sched.current), old(sched.threads[sched.current]);
              sched.Rescheduled(c, old(sched.threads)[c := r.(next := Death)], old(sched.rq[..]), q, th)
    {
      hide QueuesOk, Total, ThreadsOk, Listed;
      NotDying();
      sched.CurrentKnown();
      ghost var c, was, alive0, death0 := sched.current, sched.threads, alive, death;
      var t := sched.current;
      AliveNoDup(t);
      alive := RemoveFrom(alive, t);
      ghost var r := was[t].(next := Death);
      Unmoved(sched.rq[..], was, sched.idle, t, r);
      sched.StoppedSane(t);
      NextChanged(was, sched.current, sched.idle, t, r);
      sched.threads := sched.threads[t := sched.threads[t].(next := Death)];
      death := death + [t];
      ghost var th0, q0 := sched.threads, sched.rq[..];
      q, th := sched.Reschedule();
      sched.States(c, th0[c], th0, q0, q, th);
      Died(was, sched.threads, alive0, alive, death0, dead, c);
    }

    lemma AliveNoDup(t: Tid)
      requires Valid() && t in sched.threads && sched.threads[t].state == Running
      ensures NoDup(alive) && t in alive
    {
    }

    /** A timer interrupt: count the tick and switch if the scheduler asks for it. aged is what
        the shuffle leaves of the threads; th and q are threads and queues when it decides, last
        those from which the next thread is chosen. */
    method Tick(free: bool)
      returns (ghost resched: bool, ghost aged: Threads, ghost ms: seq<Moment>, ghost th: Threads, ghost q: Queues,
               ghost last: Moment)
      requires Valid()
      modifies sched, sched.rq
      ensures Valid() && sched.threads.Keys == old(sched.threads).Keys
      ensures var c, r, out := old(sched.current), old(sched.threads[sched.current]), old(sched.lostTicks) + 1;
              var higher, left := sched.HigherIn(q, r.dPrio),
                  old(sched.Charged(sched.threads[sched.current], sched.lostTicks + 1));
              && (resched <==> free && old(sched.GivesWay(r, out, higher)))
              && c in th && th.Keys == old(sched.threads).Keys
              && (free ==> th[c] == r.(jiffies := left, resched := r.resched || resched))
              && (!free ==> th == old(sched.threads))
              && forall t :: t in th && t != c ==> th[t] == old(sched.threads)[t].(dPrio := th[t].dPrio)
      ensures free ==>
                && aged.Keys == th.Keys && (forall t :: t in th && t != old(sched.current) ==> th[t] == aged[t])
                && Shuffled(Moment(old(sched.rq[..]), old(sched.threads)), Moment(q, aged), ms,
                   (old(sched.tickType) + 1) % 8,
                            4 * (old(sched.ticks) + old(sched.lostTicks) + 1), old(sched.shuffle), sched.idle)
      ensures resched ==> Switched(old(sched.current), th)
                          && sched.Rescheduled(old(sched.current), th, q, last.q, last.th)
      ensures !resched ==> sched.current == old(sched.current) && sched.threads == th && sched.rq[..] == q
    {
      hide QueuesOk, Total, ThreadsOk, Listed, Scheduler.HigherIn, Shuffled;
      NotDying();
      ghost var th0 := sched.threads;
      var asked;
      asked, aged, ms := sched.Timer(free);
      TickStates(th0, sched.threads, sched.current);
      ListedKept(th0, sched.threads, alive, death, dead);
      resched, th, q := asked, sched.threads, sched.rq[..];
      last := Moment(q, th);
      if asked {
        ghost var q', th' := Switch();
        last := Moment(q', th');
      }
    }
  }

  lemma Died(th: Threads, th': Threads, alive: seq<Tid>, alive': seq<Tid>, death: seq<Tid>, dead: seq<Tid>, c: Tid)
    requires Listed(th, alive, death, dead) && th'.Keys == th.Keys && c in th && th[c].state == Running
             && th'[c].state == Death
    requires forall t :: t in th && t != c ==>
               (th'[t].state == Dead <==> th[t].state == Dead) && (th'[t].state == Death <==> th[t].state == Death)
    requires NoDup(alive') && forall t :: t in alive' <==> t in alive && t != c
    ensures Listed(th', alive', death + [c], dead)
  {
    Added(death, c);
  }

  lemma TickStates(th: Threads, th': Threads, current: Tid)
    requires th'.Keys == th.Keys && current in th
    requires forall t :: t in th && t != current ==> th'[t] == th[t].(dPrio := th'[t].dPrio)
    requires th'[current] == th[current].(jiffies := th'[current].jiffies, resched := th'[current].resched) || th' == th
    ensures forall t :: t in th ==> th'[t].state == th[t].state && th'[t].next == th[t].next
  {
  }

  lemma ReadyKnown(q: Queues, th: Threads, idle: Tid, t: Tid)
    requires QueuesOk(q, th, idle) && t in th && t != idle && th[t].state == Ready
    ensures 0 <= th[t].dPrio < LEVELS && t in q[th[t].dPrio] && Total(q) > 0
  {
    assert Enqueued(q, th, t);
    TotalUpdate(q, th[t].dPrio, []);
  }
}
