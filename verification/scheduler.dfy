/** The scheduler of one processor and the thread operations that drive it (scheduler.c,
    thread.c). Times are in ticks of 4 ms (HZ is 250); priorities run from 0 to 127. */
module Scheduling {
  import opened RunQueues

  const DEFAULT_QUANTA := 60
  const MINIMUM_QUANTA := 20
  const GRANULARITY := 10
  const TICK_TYPES := 8
  const ESTIMATION_TICK := 7

  function TicksToMsec(t: int): int
  {
    t * 4
  }

  function MsecToTicks(ms: int): int
  {
    ms / 4
  }

  /** Conversion of a 64-bit value to a 32-bit int. */
  function Int32(x: int): (r: int)
    ensures -0x8000_0000 <= r < 0x8000_0000
  {
    (x + 0x8000_0000) % 0x1_0000_0000 - 0x8000_0000
  }

  /** C division of a possibly negative number by a positive one. */
  function TruncDiv(a: int, b: int): int
    requires b > 0
  {
    if a >= 0 then a / b else -((-a) / b)
  }

  ghost predicate SaneThread(t: Thread)
  {
    && -MAX_BONUS <= t.carrots <= MAX_BONUS
    && (t.state == Running ==> t.next in {Ready, Running, Waiting, Sleeping, Suspended, Death})
    && (t.state == Ready ==> t.next in {Ready, Running, Suspended})
  }

  /** The threads, apart from the queues. */
  ghost predicate ThreadsOk(th: Threads, current: Tid, idle: Tid)
  {
    && idle in th && th[idle].next == Ready && (idle != current ==> th[idle].state == Ready)
    && current in th && th[current].state == Running && (forall t :: t in th && th[t].state == Running ==> t == current)
    && th[current].dPrio >= -1 && th[idle].dPrio == -1
    && (current != idle ==> th[current].ijiffies >= 1 && 0 <= th[current].jiffies <= th[current].ijiffies)
    && forall t :: t in th ==> SaneThread(th[t]) && (t != idle ==> th[t].sPrio >= 0)
  }

  /** What holds between any two steps. */
  ghost predicate Consistent(q: Queues, total: nat, th: Threads, current: Tid, idle: Tid, quanta: int, shuffle: int)
  {
    && QueuesOk(q, th, idle) && total == Total(q) && ThreadsOk(th, current, idle)
    && MINIMUM_QUANTA <= quanta <= DEFAULT_QUANTA && shuffle >= 1
  }

  /** A change to a thread that is not running. */
  lemma OtherChanged(th: Threads, current: Tid, idle: Tid, t: Tid, r: Thread)
    requires ThreadsOk(th, current, idle) && t != current && t != idle && r.state != Running && SaneThread(r)
             && r.sPrio >= 0
    ensures ThreadsOk(th[t := r], current, idle)
  {
  }

  /** A change to the running thread that keeps it running. */
  lemma CurrentChanged(th: Threads, current: Tid, idle: Tid, r: Thread)
    requires ThreadsOk(th, current, idle) && r.state == Running && r.next == th[current].next
             && r.sPrio == th[current].sPrio
    requires r.carrots == th[current].carrots && r.ijiffies == th[current].ijiffies && r.dPrio == th[current].dPrio
    requires current != idle ==> 0 <= r.jiffies <= r.ijiffies
    ensures ThreadsOk(th[current := r], current, idle)
  {
  }

  lemma FactorPositive(a: int, b: int)
    requires a >= 1 && 1 <= b <= 8
    ensures a * 60 / b >= 1
  {
    QuotientMonotone(b, a * 60, b);
  }

  /** In the middle of rescheduling nothing runs. */
  ghost predicate NoneRunning(th: Threads, idle: Tid)
  {
    && idle in th && th[idle].next == Ready && th[idle].state == Ready && th[idle].dPrio == -1
    && forall t :: t in th ==> th[t].state != Running && SaneThread(th[t]) && (t != idle ==> th[t].sPrio >= 0)
  }

  /** The record of a thread that stops running at time now. */
  function Stopped(r: Thread, idle: bool, now: int): Thread
    requires !idle ==> r.ijiffies >= 1
  {
    var x := r.(stamp := now, resched := false, state := r.next, next := Ready);
    if !idle && r.next == Ready then x.(carrots := Carrots(r), dPrio := BackPrio(r)) else x
  }

  /** The record of a thread that starts to run; the idle thread gets no quantum. */
  function Started(r: Thread, idle: bool, now: int, quanta: int): Thread
  {
    var x := if idle then r else r.(jiffies := quanta / 4, ijiffies := quanta / 4);
    x.(state := Running, stamp := now)
  }

  lemma StopKeeps(th: Threads, current: Tid, idle: Tid, now: int)
    requires ThreadsOk(th, current, idle) && (current != idle ==> th[current].next != Running)
    ensures NoneRunning(th[current := Stopped(th[current], current == idle, now)], idle)
  {
  }

  lemma StartKeeps(th: Threads, next: Tid, idle: Tid, now: int, quanta: int)
    requires NoneRunning(th, idle) && next in th && (next != idle ==> th[next].state == Ready && th[next].dPrio >= -1)
    requires quanta >= 4
    ensures ThreadsOk(th[next := Started(th[next], next == idle, now, quanta)], next, idle)
  {
  }

  /** The queue that a thread goes back to after its turn. */
  function BackPrio(t: Thread): (p: int)
    requires t.ijiffies >= 1
    ensures 0 <= p < LEVELS
  {
    var p := t.sPrio + Carrots(t);
    if p < 0 then 0 else if p > 127 then 127 else p
  }

  /** The priority that a waiting thread has earned at the head of a queue of n threads. */
  function WaitPrio(t: Thread, now: int, shuffle: int, n: nat): (p: int)
    requires shuffle > 0
    ensures p < LEVELS
  {
    var p := Int32(t.sPrio + TruncDiv(now - t.stamp, shuffle) + n / 16 + t.carrots);
    if p > LEVELS - 1 then LEVELS - 1 else p
  }

  /** What one step of the shuffle does to queue prio. */
  ghost predicate Raised(q: Queues, th: Threads, q': Queues, th': Threads, prio: nat, now: int, shuffle: int)
  {
    && prio < |q| && q[prio] != [] && q[prio][0] in th && shuffle > 0
    && var t := q[prio][0];
       var p := WaitPrio(th[t], now, shuffle, |q[prio]|);
       if p > prio then p < |q| && q' == q[prio := q[prio][1..]][p := q[p] + [t]] && th' == th[t := th[t].(dPrio := p)]
       else q' == q && th' == th
  }

  /** The queues and threads between two turns of a shuffle. */
  datatype Moment = Moment(q: Queues, th: Threads)

  /** The turn of queue p. */
  ghost predicate Turn(a: Moment, b: Moment, p: nat, now: int, shuffle: int)
  {
    p < |a.q| && if a.q[p] == [] then b == a else Raised(a.q, a.th, b.q, b.th, p, now, shuffle)
  }

  /** The turns of queues k, k + 8, k + 16 and so on, below the highest queue. */
  ghost predicate Turns(ms: seq<Moment>, k: nat, now: int, shuffle: int, idle: Tid)
  {
    && |ms| > 0 && (forall i :: 0 <= i < |ms| ==> QueuesOk(ms[i].q, ms[i].th, idle))
    && forall i :: 0 <= i < |ms| - 1 ==> k + 8 * i < 127 && Turn(ms[i], ms[i + 1], k + 8 * i, now, shuffle)
  }

  /** A whole shuffle of type k. */
  ghost predicate Shuffled(a: Moment, b: Moment, ms: seq<Moment>, k: nat, now: int, shuffle: int, idle: Tid)
  {
    Turns(ms, k, now, shuffle, idle) && k + 8 * (|ms| - 1) >= 127 && ms[0] == a && ms[|ms| - 1] == b
  }

  /** What a tick works from and leaves behind. */
  datatype Snap = Snap(m: Moment, ticks: nat, tickType: nat, shuffle: int, current: Tid)

  /** A tick with the scheduling lock free: a shuffle of the next type; the running thread alone
      is charged after it. */
  ghost predicate FreeTick(s: Snap, s': Snap, idle: Tid)
  {
    && s'.tickType == (s.tickType + 1) % 8 && s'.ticks > s.ticks && s'.current == s.current
    && exists th, ms ::
         && Shuffled(s.m, Moment(s'.m.q, th), ms, s'.tickType, 4 * s'.ticks, s.shuffle, idle)
         && th.Keys == s'.m.th.Keys && forall t :: t in th && t != s.current ==> s'.m.th[t] == th[t]
  }

  /** The quantum falls with the load; the shuffle factor rises with it, so that crowds age more
      slowly. */
  ghost predicate Estimated(total: nat, quanta: int, shuffle: int)
  {
    && quanta == (if total <= 80 then 60 - total / 2 else 20)
    && shuffle == (if total <= 6 then 7 else if total == 7 then 8 else if total == 8 then 10 else if total <= 10 then 12
                   else if total <= 12 then 15 else if total <= 16 then 20 else if total <= 25 then 30
                   else if total < 400 then 60 else 60 * (total / 200))
  }

  lemma UnderTwice(t: nat)
    requires t > 0
    ensures (2 * t - 1) / t == 1
  {
  }

  /** Fifty in parts. */
  lemma Fifty(t: nat)
    requires 0 < t
    ensures var q := 50 / t;
            && (t <= 6 ==> q >= 8) && (t == 7 ==> q == 7) && (t == 8 ==> q == 6) && (9 <= t <= 10 ==> q == 5)
            && (11 <= t <= 12 ==> q == 4) && (13 <= t <= 16 ==> q == 3) && (17 <= t <= 25 ==> q == 2)
            && (t > 25 ==> 0 <= q <= 1)
  {
    var q := 50 / t;
    assert 50 == q * t + 50 % t;
    if t > 25 {
      QuotientMonotone(50, 2 * t - 1, t);
      UnderTwice(t);
    }
  }

  lemma TickIs(s: Snap, s': Snap, idle: Tid, th: Threads, ms: seq<Moment>)
    requires s'.tickType == (s.tickType + 1) % 8 && s'.ticks > s.ticks && s'.current == s.current
    requires Shuffled(s.m, Moment(s'.m.q, th), ms, s'.tickType, 4 * s'.ticks, s.shuffle, idle)
    requires th.Keys == s'.m.th.Keys && forall t :: t in th && t != s.current ==> s'.m.th[t] == th[t]
    ensures FreeTick(s, s', idle)
  {
  }

  lemma TurnsMore(ms: seq<Moment>, k: nat, now: int, shuffle: int, idle: Tid, b: Moment)
    requires Turns(ms, k, now, shuffle, idle) && QueuesOk(b.q, b.th, idle)
    requires k + 8 * (|ms| - 1) < 127 && Turn(ms[|ms| - 1], b, k + 8 * (|ms| - 1), now, shuffle)
    ensures Turns(ms + [b], k, now, shuffle, idle)
  {
    hide Turn, QueuesOk;
    var more := ms + [b];
    forall i | 0 <= i < |more| - 1 ensures k + 8 * i < 127 && Turn(more[i], more[i + 1], k + 8 * i, now, shuffle) {
      assert more[i] == ms[i] && (i + 1 < |ms| ==> more[i + 1] == ms[i + 1]);
    }
  }

  lemma NoTurns(a: Moment, k: nat, now: int, shuffle: int, idle: Tid)
    requires QueuesOk(a.q, a.th, idle)
    ensures Turns([a], k, now, shuffle, idle)
  {
  }

  lemma TurnIs(a: Moment, b: Moment, p: nat, now: int, shuffle: int)
    requires p < |a.q| && if a.q[p] == [] then b == a else Raised(a.q, a.th, b.q, b.th, p, now, shuffle)
    ensures Turn(a, b, p, now, shuffle)
  {
  }

  function Significant(th: Threads, a: Tid, b: Tid): Tid
    requires a in th && b in th
  {
    if Effective(th[a]) >= Effective(th[b]) then a else b
  }

  class Scheduler {
    const rq: array<seq<Tid>>
    var total: nat
    var threads: Threads
    var current: Tid
    const idle: Tid
    var ticks: nat
    var lostTicks: nat
    var tickType: nat
    var quanta: int
    var shuffle: int

    ghost predicate Valid()
      reads this, rq
    {
      rq.Length == LEVELS && tickType < TICK_TYPES && Consistent(rq[..], total, threads, current, idle, quanta, shuffle)
    }

    /** sched_init_runqueue, and the boot flow of control as the idle thread. */
    constructor (idle: Tid, policy: Policy)
      ensures Valid() && threads.Keys == {idle} && current == this.idle == idle && fresh(rq)
    {
      rq := new seq<Tid>[LEVELS](_ => []);
      total, lostTicks, ticks, tickType := 0, 0, 0, 0;
      quanta, shuffle := DEFAULT_QUANTA, DEFAULT_QUANTA / MAX_BONUS;
      this.idle, current := idle, idle;
      threads := map[idle := Thread(Running, Ready, false, 0, 0, 0, policy, false, -1, -1, 0, 0)];
      new;
      TotalZero(rq[..]);
    }

    lemma StoppedSaneIn(th: Threads, t: Tid)
      requires ThreadsOk(th, current, idle) && t in th && t != idle
      ensures SaneThread(th[t]) && th[t].sPrio >= 0 && (th[t].state != Running ==> t != current)
    {
    }

    lemma StoppedSane(t: Tid)
      requires Valid() && t in threads && t != idle
      ensures SaneThread(threads[t]) && threads[t].sPrio >= 0 && (threads[t].state != Running ==> t != current)
    {
    }

    /** t became ready at the tail of the queue of its static priority, which is cut to 127. */
    ghost predicate Joins(t: Tid, th: Threads, q: Queues)
      reads this, rq
    {
      && t in th && 0 <= th[t].sPrio && |q| == 128
      && var s := if th[t].sPrio > 127 then 127 else th[t].sPrio;
         && threads == th[t := th[t].(state := Ready, next := Running, sPrio := s, dPrio := s, stamp := 4 * ticks)]
         && rq[..] == q[s := q[s] + [t]]
    }

    /** sched_add_thread. */
    method AddThread(t: Tid)
      requires Valid() && t in threads && t != idle && threads[t].state in {Birth, Waiting, Sleeping, Suspended}
      modifies this`threads, this`total, rq
      ensures Valid() && Joins(t, old(threads), old(rq[..]))
    {
      hide QueuesOk, Total, ThreadsOk;
      ghost var q, th := rq[..], threads;
      StoppedSane(t);
      var x := threads[t];
      if x.sPrio > LEVELS - 1 {
        x := x.(sPrio := LEVELS - 1);
      }
      x := x.(state := Ready, next := Running, dPrio := x.sPrio, stamp := TicksToMsec(ticks));
      threads := threads[t := x];
      Joined(q, th, idle, t, x, x.dPrio);
      OtherChanged(th, current, idle, t, x);
      rq[x.dPrio] := rq[x.dPrio] + [t];
      total := total + 1;
      assert rq[..] == q[x.dPrio := q[x.dPrio] + [t]];
    }

    /** Threads have changed at most in their dynamic priority, which has grown. */
    ghost predicate OnlyRaised(th: Threads)
      reads this
    {
      && threads.Keys == th.Keys
      && (forall t :: t in threads ==> threads[t] == th[t].(dPrio := threads[t].dPrio))
      && forall t :: t in threads ==>
         threads[t].dPrio == th[t].dPrio || (th[t].state == Ready && th[t].dPrio < threads[t].dPrio < LEVELS)
    }

    /** Move the head of queue prio to a higher queue if it has waited long enough. */
    method RaiseHead(prio: nat, now: int)
      requires Valid() && prio < LEVELS && rq[prio] != []
      modifies this`threads, rq
      ensures Valid() && OnlyRaised(old(threads))
      ensures Raised(old(rq[..]), old(threads), rq[..], threads, prio, now, shuffle)
    {
      hide QueuesOk, Total, ThreadsOk;
      ghost var q, th := rq[..], threads;
      var t := rq[prio][0];
      HeadQueued(q, th, idle, prio);
      StoppedSane(t);
      var bonus := |rq[prio]| / 16;
      var p: int := Int32(threads[t].sPrio + TruncDiv(now - threads[t].stamp, shuffle) + bonus + threads[t].carrots);
      if p > LEVELS - 1 {
        p := LEVELS - 1;
      }
      if p > threads[t].dPrio {
        ghost var r := th[t].(dPrio := p);
        Promoted(q, th, idle, prio, p, r);
        OtherChanged(th, current, idle, t, r);
        rq[prio] := rq[prio][1..];
        threads := threads[t := threads[t].(dPrio := p)];
        rq[p] := rq[p] + [t];
        assert rq[..] == q[prio := q[prio][1..]][p := q[p] + [t]];
      }
    }

    /** sched_shuffle_runqueue_head. */
    method ShuffleHeads(tickType: nat) returns (ghost ms: seq<Moment>)
      requires Valid() && tickType < TICK_TYPES
      modifies this`threads, rq
      ensures Valid() && OnlyRaised(old(threads))
      ensures Shuffled(Moment(old(rq[..]), old(threads)), Moment(rq[..], threads), ms, tickType, 4 * ticks, shuffle,
              idle)
    {
      hide QueuesOk, Total, ThreadsOk, Consistent, Raised, Turns, Turn;
      var now := TicksToMsec(ticks);
      var prio := tickType;
      QueuesKnown();
      ms := [Moment(rq[..], threads)];
      NoTurns(ms[0], tickType, now, shuffle, idle);
      while prio < LEVELS - 1
        invariant Valid() && OnlyRaised(old(threads)) && |ms| > 0 && prio == tickType + 8 * (|ms| - 1)
        invariant Turns(ms, tickType, now, shuffle, idle)
        invariant ms[0] == Moment(old(rq[..]), old(threads)) && ms[|ms| - 1] == Moment(rq[..], threads)
      {
        ghost var a := Moment(rq[..], threads);
        if |rq[prio]| != 0 {
          RaiseHead(prio, now);
        }
        QueuesKnown();
        assert Turn(a, Moment(rq[..], threads), prio, now, shuffle) by {
          TurnIs(a, Moment(rq[..], threads), prio, now, shuffle);
        }
        TurnsMore(ms, tickType, now, shuffle, idle, Moment(rq[..], threads));
        ms := ms + [Moment(rq[..], threads)];
        prio := prio + TICK_TYPES;
      }
    }

    lemma QueuesKnown()
      requires Valid()
      ensures QueuesOk(rq[..], threads, idle) && |rq[..]| == LEVELS
    {
    }

    /** Re-estimate the quantum and the shuffle factor from the load. */
    method Estimate()
      modifies this`quanta, this`shuffle
      ensures MINIMUM_QUANTA <= quanta <= DEFAULT_QUANTA && shuffle >= 1
      ensures Estimated(total, quanta, shuffle)
    {
      quanta := DEFAULT_QUANTA - total / 2;
      if quanta < MINIMUM_QUANTA {
        quanta := MINIMUM_QUANTA;
      }
      var a := total / 200;
      if a == 0 {
        a := 1;
      }
      var b := if total == 0 then 8 else 50 / total;
      if total > 0 {
        Fifty(total);
      }
      if b > 8 {
        b := 8;
      }
      if b == 0 {
        b := 1;
      }
      FactorPositive(a, b);
      shuffle := a * 60 / b;
    }

    /** Some queue above prio holds a thread. */
    ghost predicate HigherIn(q: Queues, prio: int)
    {
      exists p :: prio < p < |q| && 0 <= p && q[p] != []
    }

    /** May the running thread be taken off the processor? */
    predicate Preemptible(r: Thread)
    {
      r.preempt == 0 && !r.resched
    }

    /** Its jiffies after out more ticks. */
    function Charged(r: Thread, out: nat): int
      reads this
    {
      if Preemptible(r) && current != idle then (if r.jiffies <= out then 0 else r.jiffies - out) else r.jiffies
    }

    /** It has used up its quantum, or a full granule of it while a better thread is ready;
        the idle thread gives way to anyone. */
    ghost predicate GivesWay(r: Thread, out: nat, higher: bool)
      reads this
    {
      Preemptible(r) && if current == idle then higher
                        else r.jiffies <= out || (4 * (r.ijiffies - (r.jiffies - out)) >= 10 && higher)
    }

    ghost function Snapshot(): Snap
      reads this, rq
    {
      Snap(Moment(rq[..], threads), ticks, tickType, shuffle, current)
    }

    /** scheduler_timer; `free` tells whether the scheduling lock was free. */
    method Timer(free: bool) returns (resched: bool, ghost th: Threads, ghost ms: seq<Moment>)
      requires Valid()
      modifies this, rq
      ensures Valid() && current == old(current) && threads.Keys == old(threads).Keys
      ensures !free ==> !resched && lostTicks == old(lostTicks) + 1 && ticks == old(ticks) && threads == old(threads)
                        && rq[..] == old(rq[..]) && total == old(total)
      ensures free ==>
              lostTicks == 0 && ticks == old(ticks + lostTicks) + 1 && tickType == (old(tickType) + 1) % TICK_TYPES
      ensures free ==> forall t :: t in threads && t != current ==>
              threads[t] == old(threads)[t].(dPrio := threads[t].dPrio)
      ensures free ==>
                && th.Keys == threads.Keys && (forall t :: t in threads && t != current ==> threads[t] == th[t])
                && Shuffled(Moment(old(rq[..]), old(threads)), Moment(rq[..], th), ms, tickType, 4 * ticks,
                   old(shuffle), idle)
      ensures free ==> FreeTick(old(Snapshot()), Snapshot(), idle)
      ensures free ==>
              if tickType == 7 then Estimated(total, quanta, shuffle)
              else quanta == old(quanta) && shuffle == old(shuffle)
      ensures var r, out := old(threads[current]), old(lostTicks) + 1;
              && (resched <==> free && GivesWay(r, out, HigherIn(rq[..], r.dPrio)))
              && (free ==> threads[current] == r.(jiffies := Charged(r, out), resched := r.resched || resched))
    {
      hide QueuesOk, Total, HigherIn, ThreadsOk, Shuffled, Consistent, FreeTick, Estimated;
      resched, th, ms := false, threads, [];
      if !free {
        lostTicks := lostTicks + 1;
        return;
      }
      var out := lostTicks + 1;
      ghost var s := Snapshot();
      ms := Advance(out);
      th := threads;
      resched := Charge(out);
      assert FreeTick(s, Snapshot(), idle) by { TickIs(s, Snapshot(), idle, th, ms); }
    }

    /** The part of scheduler_timer before the running thread: count the ticks, shuffle, and
        estimate the load now and then. */
    method Advance(out: nat) returns (ghost ms: seq<Moment>)
      requires Valid() && out == lostTicks + 1
      modifies this, rq
      ensures Valid() && OnlyRaised(old(threads)) && current == old(current)
      ensures lostTicks == 0 && ticks == old(ticks) + out && tickType == (old(tickType) + 1) % TICK_TYPES
      ensures threads[current] == old(threads[current])
      ensures Shuffled(Moment(old(rq[..]), old(threads)), Moment(rq[..], threads), ms, tickType, 4 * ticks,
              old(shuffle), idle)
      ensures if tickType == 7 then Estimated(total, quanta, shuffle)
              else quanta == old(quanta) && shuffle == old(shuffle)
    {
      hide QueuesOk, Total, Shuffled, Estimated;
      RunningNotQueued();
      ticks := ticks + out;
      lostTicks := 0;
      tickType := (tickType + 1) % TICK_TYPES;
      ms := ShuffleHeads(tickType);
      if tickType == ESTIMATION_TICK {
        Estimate();
      }
    }

    /** Charge the running thread for the ticks and decide whether it must give way. */
    method Charge(out: nat) returns (resched: bool)
      requires Valid() && out > 0
      modifies this`threads
      ensures Valid() && threads.Keys == old(threads).Keys
      ensures forall t :: t in threads && t != current ==> threads[t] == old(threads)[t]
      ensures var r := old(threads[current]);
              && (resched <==> GivesWay(r, out, HigherIn(rq[..], r.dPrio)))
              && threads[current] == r.(jiffies := Charged(r, out), resched := r.resched || resched)
    {
      hide QueuesOk, Total;
      resched := false;
      RunningNotQueued();
      ghost var th := threads;
      var x := threads[current];
      if x.preempt == 0 && !x.resched {
        if current != idle {
          x := x.(jiffies := x.jiffies - out);
          if x.jiffies <= 0 {
            x := x.(jiffies := 0);
            resched := true;
          }
        }
        if !resched && (current == idle || TicksToMsec(x.ijiffies - x.jiffies) >= GRANULARITY) {
          resched := HigherReady(x.dPrio);
        }
        if resched {
          x := x.(resched := true);
        }
        Unmoved(rq[..], th, idle, current, x);
        CurrentChanged(th, current, idle, x);
        threads := threads[current := x];
      }
    }

    /** Is some thread of higher priority ready? */
    method HigherReady(dPrio: int) returns (found: bool)
      requires rq.Length == LEVELS && dPrio >= -1
      ensures found <==> HigherIn(rq[..], dPrio)
    {
      found := false;
      var prio := LEVELS - 1;
      while prio > dPrio
        invariant dPrio <= prio < LEVELS || prio == LEVELS - 1
        invariant forall p :: prio < p < LEVELS && 0 <= p ==> rq[p] == []
      {
        if |rq[prio]| != 0 {
          return true;
        }
        prio := prio - 1;
      }
    }

    lemma RunningNotQueued()
      requires Valid()
      ensures current in threads && threads[current].dPrio >= -1 && threads[current].state == Running
    {
    }

    /** Take the running thread off the processor, or let it go on if it asked to. */
    method StopCurrent() returns (goesOn: bool)
      requires Valid()
      modifies this`threads, this`total, rq
      ensures goesOn <==> current != idle && old(threads[current]).next == Running
      ensures goesOn ==> Valid() && rq[..] == old(rq[..]) && total == old(total)
      ensures goesOn ==> var r := old(threads[current]); var n := quanta / 4;
                threads == old(threads)[current := r.(stamp := 4 * ticks, resched := false, state := Running,
                                                      next := Ready, jiffies := n, ijiffies := n)]
      ensures !goesOn ==> QueuesOk(rq[..], threads, idle) && total == Total(rq[..]) && NoneRunning(threads, idle)
      ensures !goesOn ==> (current != idle ==> old(threads[current]).ijiffies >= 1)
                          && threads ==
                             old(threads)[current := Stopped(old(threads[current]), current == idle,
                                 4 * ticks)]
      ensures !goesOn ==> rq[..] == if current != idle && old(threads[current]).next == Ready
                                    then Appended(old(rq[..]), BackPrio(old(threads[current])),
                                        current) else old(rq[..])
    {
      hide QueuesOk, Total, ThreadsOk, NoneRunning;
      CurrentKnown();
      goesOn := false;
      ghost var q, th := rq[..], threads;
      var x := threads[current].(stamp := TicksToMsec(ticks), resched := false, state := threads[current].next,
          next := Ready);
      if current != idle && x.state == Running {
        goesOn := true;
        x := x.(jiffies := MsecToTicks(quanta), ijiffies := MsecToTicks(quanta));
        threads := threads[current := x];
        Unmoved(q, th, idle, current, x);
        GoesOn(th, current, idle, x);
        return;
      }
      StopKeeps(th, current, idle, TicksToMsec(ticks));
      if current != idle && x.state == Ready {
        x := x.(carrots := Carrots(x));
        x := x.(dPrio := x.sPrio + x.carrots);
        x := x.(dPrio := Clamp(x.dPrio, 0, LEVELS - 1));
        Joined(q, th, idle, current, x, x.dPrio);
        rq[x.dPrio] := rq[x.dPrio] + [current];
        total := total + 1;
        assert rq[..] == Appended(q, x.dPrio, current);
      } else {
        Unmoved(q, th, idle, current, x);
      }
      threads := threads[current := x];
    }

    lemma CurrentKnown()
      requires Valid()
      ensures current in threads && idle in threads && threads[current].state == Running && threads[idle].next == Ready
      ensures current != idle ==> threads[current].ijiffies >= 1
      ensures threads[current].next in {Ready, Running, Waiting, Sleeping, Suspended, Death}
    {
    }

    /** Extract the best thread of the highest queue; none if every queue is empty. */
    method ExtractBest() returns (found: bool, next: Tid)
      requires rq.Length == LEVELS && QueuesOk(rq[..], threads, idle) && total == Total(rq[..])
      modifies this`total, rq
      ensures !found ==>
              next == idle && rq[..] == old(rq[..]) && total == old(total) && forall p :: 0 <= p < LEVELS ==>
                  rq[p] == []
      ensures found ==> exists p, k :: PickedAt(old(rq[..]), threads, p, k, next, rq[..])
      ensures found ==> total == old(total) - 1
    {
      hide QueuesOk, Total;
      found, next := false, idle;
      var prio := LEVELS - 1;
      while prio >= 0
        invariant -1 <= prio < LEVELS
        invariant forall p :: prio < p < LEVELS ==> rq[p] == []
      {
        if |rq[prio]| != 0 {
          ghost var q := rq[..];
          QueueKnown(q, threads, idle, prio);
          var k := 0;
          if |rq[prio]| > 1 {
            k := BestOf(rq[prio]);
          } else {
            assert Choice(q[prio], threads, 0);
          }
          found, next := true, rq[prio][k];
          TotalUpdate(q, prio, Without(q[prio], k));
          rq[prio] := Without(rq[prio], k);
          total := total - 1;
          assert rq[..] == q[prio := Without(q[prio], k)];
          assert PickedAt(q, threads, prio, k, next, rq[..]);
          return;
        }
        prio := prio - 1;
      }
    }

    /** The earliest thread of maximal policy among the first ten of s. */
    method BestOf(s: seq<Tid>) returns (best: nat)
      requires s != [] && forall i :: 0 <= i < |s| ==> s[i] in threads
      ensures Choice(s, threads, best)
    {
      best := 0;
      var tmp, n := 0, LOOKAHEAD;
      while true
        invariant 0 <= best <= tmp < |s| && tmp + n == LOOKAHEAD && n >= 1
        invariant forall i :: 0 <= i <= tmp ==> Effective(threads[s[i]]) <= Effective(threads[s[best]])
        invariant forall i :: 0 <= i < best ==> Effective(threads[s[i]]) < Effective(threads[s[best]])
        decreases n
      {
        tmp := tmp + 1;
        if tmp == |s| {
          break;
        }
        n := n - 1;
        if n == 0 {
          break;
        }
        if Effective(threads[s[best]]) < Effective(threads[s[tmp]]) {
          best := tmp;
        }
      }
    }

    /** sched_reschedule. q and th are the queues and threads when the choice is made. */
    method Reschedule() returns (ghost q: Queues, ghost th: Threads)
      requires Valid()
      modifies this`threads, this`total, this`current, rq
      ensures Valid() && Rescheduled(old(current), old(threads), old(rq[..]), q, th)
    {
      hide QueuesOk, Total, ThreadsOk, NoneRunning, Picked, PickedAt;
      CurrentKnown();
      ghost var c, th0, q0 := current, threads, rq[..];
      var goesOn := StopCurrent();
      q, th := rq[..], threads;
      if goesOn {
        return;
      }
      var found, next := ExtractBest();
      NextKnown(q, th, idle, found, next, rq[..]);
      var x := threads[next];
      if found {
        x := x.(jiffies := MsecToTicks(quanta), ijiffies := MsecToTicks(quanta));
      }
      x := x.(state := Running, stamp := TicksToMsec(ticks));
      StartKeeps(th, next, idle, TicksToMsec(ticks), quanta);
      if found {
        PickedLeft(q, th, idle, next, rq[..], x);
      } else {
        Unmoved(q, th, idle, next, x);
      }
      threads := threads[next := x];
      current := next;
      assert Chosen(c, th0[c], th0, q0, q, th);
    }

    /** Who is in which state after rescheduling. */
    lemma States(c: Tid, r: Thread, th0: Threads, q0: Queues, q: Queues, th: Threads)
      requires Valid() && Chosen(c, r, th0, q0, q, th) && c in th0 && th0[c] == r && r.state == Running
               && r.next != Running
      requires QueuesOk(q0, th0, idle) && ThreadsOk(th0, c, idle)
      ensures current in th0 && threads.Keys == th0.Keys
      ensures forall t :: t in threads && t != c && t != current ==> threads[t] == th0[t]
      ensures current != c ==> threads[c].state == r.next && th0[current].state == Ready
      ensures c != idle && r.next != Ready ==> current != c
      ensures threads[current].next in {Ready, Running, Suspended}
    {
      hide QueuesOk, Total;
      if exists p, k :: PickedAt(q, th, p, k, current, rq[..]) {
        var p, k :| PickedAt(q, th, p, k, current, rq[..]);
        if c != idle && r.next == Ready {
          assert q[p] == if p == BackPrio(r) then q0[p] + [c] else q0[p];
          QueueKnown(q0, th0, idle, p);
        } else {
          QueueKnown(q0, th0, idle, p);
        }
      }
    }

    /** The thread c asked to continue and does, or the choice among the ready threads was made. */
    ghost predicate Rescheduled(c: Tid, th0: Threads, q0: Queues, q: Queues, th: Threads)
      reads this, rq
    {
      && c in th0 && threads.Keys == th0.Keys
      && if c != idle && th0[c].next == Running
         then current == c && rq[..] == q0 && GoneOn(th0[c], threads[c]) && threads == th0[c := threads[c]]
         else Chosen(c, th0[c], th0, q0, q, th)
    }

    /** A thread that asked to continue got a fresh quantum and nothing else changed for it. */
    ghost predicate GoneOn(r: Thread, r': Thread)
      reads this
    {
      r' == r.(stamp := 4 * ticks, resched := false, state := Running, next := Ready,
               jiffies := quanta / 4, ijiffies := quanta / 4)
    }

    /** c stopped and went back to its queue if it is ready; the thread chosen from the
        queues then runs with a fresh quantum. */
    ghost predicate Chosen(c: Tid, r: Thread, th0: Threads, q0: Queues, q: Queues, th: Threads)
      reads this, rq
    {
      && (c != idle ==> r.ijiffies >= 1) && |q0| == LEVELS
      && th == th0[c := Stopped(r, c == idle, 4 * ticks)]
      && q == (if c != idle && r.next == Ready then Appended(q0, BackPrio(r), c) else q0)
      && Picked(q, th, idle, current, rq[..]) && current in th
      && threads == th[current := Started(th[current], current == idle, 4 * ticks, quanta)]
    }
  }

  function Appended(q: Queues, p: nat, t: Tid): Queues
    requires p < |q|
  {
    q[p := q[p] + [t]]
  }

  lemma GoesOn(th: Threads, current: Tid, idle: Tid, r: Thread)
    requires ThreadsOk(th, current, idle) && current != idle && r.state == Running && r.next == Ready
             && r.sPrio == th[current].sPrio
    requires r.carrots == th[current].carrots && r.ijiffies >= 1 && 0 <= r.jiffies <= r.ijiffies
             && r.dPrio == th[current].dPrio
    ensures ThreadsOk(th[current := r], current, idle)
  {
  }

  /** A new next state, where the state allows it. */
  lemma NextChanged(th: Threads, current: Tid, idle: Tid, t: Tid, r: Thread)
    requires ThreadsOk(th, current, idle) && t in th && t != idle && r == th[t].(next := r.next) && SaneThread(r)
    ensures ThreadsOk(th[t := r], current, idle)
  {
  }

  lemma QueueKnown(q: Queues, th: Threads, idle: Tid, p: int)
    requires QueuesOk(q, th, idle) && 0 <= p < LEVELS
    ensures forall i :: 0 <= i < |q[p]| ==> QueuedAt(q[p][i], th, idle, p)
  {
    assert QueueOk(q[p], th, idle, p);
  }

  /** The thread picked leaves its queue. */
  lemma PickedLeft(q: Queues, th: Threads, idle: Tid, next: Tid, q': Queues, r: Thread)
    requires QueuesOk(q, th, idle) && r.state != Ready && exists p, k :: PickedAt(q, th, p, k, next, q')
    ensures QueuesOk(q', th[next := r], idle) && Total(q') == Total(q) - 1
  {
    hide Total;
    var p, k :| PickedAt(q, th, p, k, next, q');
    Left(q, th, idle, p, k, r);
  }

  lemma NextKnown(q: Queues, th: Threads, idle: Tid, found: bool, next: Tid, q': Queues)
    requires QueuesOk(q, th, idle) && NoneRunning(th, idle) && (!found ==> next == idle && q' == q)
    requires !found ==> forall p :: 0 <= p < LEVELS ==> q[p] == []
    requires found ==> exists p, k :: PickedAt(q, th, p, k, next, q')
    ensures next in th && (found <==> next != idle) && Picked(q, th, idle, next, q')
    ensures found ==> th[next].state == Ready && th[next].dPrio >= 0
  {
    if found {
      var p, k :| PickedAt(q, th, p, k, next, q');
      QueueKnown(q, th, idle, p);
    }
  }
}
