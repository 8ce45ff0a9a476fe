/** The timer's event queue, which stores each event's delay after the one before it
    (timer.c). */
module TimerQueue {

  datatype Event = Event(id: nat, delta: int, timeout: bool)

  /** An event with its deadline on the queue's own clock. */
  datatype Timed = Timed(id: nat, timeout: bool, at: int)

  /** The deadlines that the deltas stand for, from base on. */
  function Abs(es: seq<Event>, base: int): (r: seq<Timed>)
    ensures |r| == |es|
  {
    if es == [] then [] else [Timed(es[0].id, es[0].timeout, base + es[0].delta)] + Abs(es[1..], base + es[0].delta)
  }

  function Last(es: seq<Event>, base: int): int
  {
    if es == [] then base else Last(es[1..], base + es[0].delta)
  }

  lemma {:induction false} AbsSplit(es: seq<Event>, fs: seq<Event>, base: int)
    ensures Abs(es + fs, base) == Abs(es, base) + Abs(fs, Last(es, base))
    ensures Last(es + fs, base) == Last(fs, Last(es, base))
  {
    if es == [] {
      assert es + fs == fs;
    } else {
      assert (es + fs)[1..] == es[1..] + fs;
      AbsSplit(es[1..], fs, base + es[0].delta);
    }
  }

  ghost predicate NonNegative(es: seq<Event>)
  {
    forall i :: 0 <= i < |es| ==> es[i].delta >= 0
  }

  /** Deadlines are in ascending order. */
  lemma {:induction false} AbsSorted(es: seq<Event>, base: int)
    requires NonNegative(es)
    ensures forall i :: 0 <= i < |es| ==> Abs(es, base)[i].at >= base
    ensures forall i, j :: 0 <= i < j < |es| ==> Abs(es, base)[i].at <= Abs(es, base)[j].at
  {
    if es != [] {
      AbsSorted(es[1..], base + es[0].delta);
    }
  }

  /** The deadlines k ticks closer. */
  function Closer(ts: seq<Timed>, k: int): (r: seq<Timed>)
    ensures |r| == |ts| && forall i :: 0 <= i < |ts| ==> r[i] == ts[i].(at := ts[i].at - k)
  {
    if ts == [] then [] else [ts[0].(at := ts[0].at - k)] + Closer(ts[1..], k)
  }

  lemma {:induction false} AbsCloser(es: seq<Event>, base: int, k: int)
    ensures Abs(es, base - k) == Closer(Abs(es, base), k)
  {
    if es != [] {
      AbsCloser(es[1..], base + es[0].delta, k);
    }
  }

  /** One queue step later: the head's delta has the leftover ticks taken off. */
  lemma {:induction false} HeadCharged(es: seq<Event>, k: int)
    requires es != []
    ensures Abs([es[0].(delta := es[0].delta - k)] + es[1..], 0) == Closer(Abs(es, 0), k)
  {
    var fs := [es[0].(delta := es[0].delta - k)] + es[1..];
    assert fs[1..] == es[1..];
    AbsCloser(es[1..], es[0].delta, k);
    assert Closer(Abs(es, 0), k) == [Abs(es, 0)[0].(at := Abs(es, 0)[0].at - k)] + Closer(Abs(es[1..], es[0].delta), k);
  }

  /** Exactly the events due within k ticks come first in ts. */
  ghost predicate AllDue(ts: seq<Timed>, n: nat, k: int)
  {
    n <= |ts| && forall i :: 0 <= i < n ==> ts[i].at <= k
  }

  ghost predicate DueUpTo(ts: seq<Timed>, n: nat, k: int)
  {
    AllDue(ts, n, k) && forall i :: n <= i < |ts| ==> ts[i].at > k
  }

  class Timer {
    var events: seq<Event>
    var ready: seq<nat>
    var lost: nat

    ghost predicate Valid()
      reads this
    {
      NonNegative(events)
    }

    /** What the queue stands for. */
    ghost function Deadlines(): seq<Timed>
      reads this
    {
      Abs(events, 0)
    }

    constructor ()
      ensures Valid() && Deadlines() == [] && ready == [] && lost == 0
    {
      events, ready, lost := [], [], 0;
    }

    /** add_new_event_nolock: the new event gets its deadline, and no other deadline moves. */
    method Add(id: nat, timeout: bool, ticks: nat) returns (ghost k: nat)
      requires Valid()
      modifies this`events
      ensures Valid() && k <= |old(Deadlines())|
      ensures Deadlines() == old(Deadlines())[..k] + [Timed(id, timeout, ticks)] + old(Deadlines())[k..]
    {
      hide Abs;
      var tick, i := ticks, 0;
      ghost var base := 0;
      ghost var es := events;
      assert es[..0] == [] && es[0..] == es;
      while i < |events|
        invariant 0 <= i <= |events| && events == es && tick >= 0
        invariant base == Last(es[..i], 0) && base + tick == ticks
      {
        assert es[..i + 1] == es[..i] + [es[i]];
        AbsSplit(es[..i], [es[i]], 0);
        if tick < events[i].delta {
          events := events[i := events[i].(delta := events[i].delta - tick)];
          break;
        } else if tick == events[i].delta {
          tick := 0;
          base := base + es[i].delta;
          i := i + 1;
          break;
        }
        tick := tick - events[i].delta;
        base := base + es[i].delta;
        i := i + 1;
      }
      k := i;
      Inserted(es, events, i, Event(id, tick, timeout), base);
      InsertedNonNegative(es, events, i, Event(id, tick, timeout));
      events := events[..i] + [Event(id, tick, timeout)] + events[i..];
    }

    /** timer_schedule_event; free tells whether the events lock was free. Threads in woken
        are to be added to the scheduler. */
    method Pass(free: bool) returns (resched: bool, woken: seq<nat>, ghost n: nat)
      requires Valid()
      modifies this
      ensures Valid() && n <= |old(Deadlines())|
      ensures !free ==> !resched && lost == old(lost) + 1 && events == old(events) && ready == old(ready)
      ensures free ==> lost == 0 && DueUpTo(old(Deadlines()), n, old(lost) + 1)
      ensures free ==> Deadlines() == Closer(old(Deadlines())[n..], old(lost) + 1)
      ensures free ==>
              ready == old(ready) + Ids(old(Deadlines())[..n], true) && woken == Ids(old(Deadlines())[..n], false)
      ensures resched <==> free && n > 0
    {
      hide Abs, Closer, Ids, Last, NonNegative, AllDue, DueUpTo;
      resched, woken, n := false, [], 0;
      if !free {
        lost := lost + 1;
        return;
      }
      var ticks: int := lost + 1;
      ghost var ts, k: int := Deadlines(), ticks;
      lost := 0;
      ghost var elapsed := 0;
      Closer0(ts);
      NoneDue(ts, k);
      NoIds();
      assert ts[0..] == ts && ts[..0] == [];
      while events != []
        invariant Valid() && 0 <= n <= |ts| && ticks >= 0 && elapsed + ticks == k && elapsed >= 0
        invariant Deadlines() == Closer(ts[n..], elapsed)
        invariant AllDue(ts, n, k) && lost == 0
        invariant ready == old(ready) + Ids(ts[..n], true) && woken == Ids(ts[..n], false)
        invariant resched <==> n > 0
        decreases |events|
      {
        ghost var es := events;
        HeadCharged(es, ticks);
        CloserTwice(ts[n..], elapsed, ticks);
        ticks := events[0].delta - ticks;
        events := [events[0].(delta := ticks)] + events[1..];
        ChargedHead(es, ticks);
        var evt := events[0];
        assert Deadlines() == Closer(ts[n..], k);
        if ticks > 0 {
          Rest(events, ts, n, k);
          return;
        }
        IdsMore(ts, n);
        TailCharged(events, ts, n, k);
        assert ts[..n + 1] == ts[..n] + [ts[n]];
        if !evt.timeout {
          woken := woken + [evt.id];
        } else {
          ready := ready + [evt.id];
        }
        events := events[1..];
        ticks := -ticks;
        elapsed := k - ticks;
        n := n + 1;
        resched := true;
      }
      assert |Deadlines()| == 0 && n == |ts|;
      assert Closer(ts[n..], k) == [];
      NoneLeft(ts, k);
    }
  }

  /** The identifiers of the timeouts, or of the sleeping threads, in ts. */
  function Ids(ts: seq<Timed>, timeout: bool): seq<nat>
  {
    if ts == [] then [] else Ids(ts[..|ts| - 1], timeout) + if ts[|ts| - 1].timeout ==
        timeout then [ts[|ts| - 1].id] else []
  }

  lemma NoIds()
    ensures Ids([], true) == [] && Ids([], false) == []
  {
  }

  lemma IdsMore(ts: seq<Timed>, n: nat)
    requires n < |ts|
    ensures Ids(ts[..n + 1], true) == Ids(ts[..n], true) + (if ts[n].timeout then [ts[n].id] else [])
    ensures Ids(ts[..n + 1], false) == Ids(ts[..n], false) + (if ts[n].timeout then [] else [ts[n].id])
  {
    assert ts[..n + 1][..n] == ts[..n];
  }

  /** e at the front; the next event's delta now counts from e. */
  lemma {:induction false} TailInserted(es: seq<Event>, fs: seq<Event>, e: Event, base: int)
    requires if es != [] then fs == [es[0].(delta := es[0].delta - e.delta)] + es[1..] else fs == es
    ensures Abs([e] + fs, base) == [Timed(e.id, e.timeout, base + e.delta)] + Abs(es, base)
  {
    assert ([e] + fs)[1..] == fs;
    if es != [] {
      assert fs[1..] == es[1..];
    }
  }

  /** e goes before es[k]. */
  lemma {:induction false} Inserted(es: seq<Event>, fs: seq<Event>, k: nat, e: Event, base: int)
    requires k <= |es| && base == Last(es[..k], 0)
    requires if k < |es| then fs == es[k := es[k].(delta := es[k].delta - e.delta)] else fs == es
    ensures Abs(fs[..k] + [e] + fs[k..], 0) ==
            Abs(es, 0)[..k] + [Timed(e.id, e.timeout, base + e.delta)] + Abs(es, 0)[k..]
  {
    hide Last, Abs;
    assert es == es[..k] + es[k..] && fs[..k] == es[..k];
    AbsSplit(es[..k], es[k..], 0);
    var tail := [e] + fs[k..];
    assert fs[..k] + [e] + fs[k..] == es[..k] + tail;
    AbsSplit(es[..k], tail, 0);
    TailInserted(es[k..], fs[k..], e, base);
  }

  lemma InsertedNonNegative(es: seq<Event>, fs: seq<Event>, k: nat, e: Event)
    requires k <= |es| && e.delta >= 0 && NonNegative(es)
    requires if k < |es| then e.delta <= es[k].delta
             && fs == es[k := es[k].(delta := es[k].delta - e.delta)] else fs == es
    ensures NonNegative(fs[..k] + [e] + fs[k..])
  {
  }

  lemma {:induction false} Closer0(ts: seq<Timed>)
    ensures Closer(ts, 0) == ts
  {
    if ts != [] {
      Closer0(ts[1..]);
    }
  }

  lemma {:induction false} CloserTwice(ts: seq<Timed>, a: int, b: int)
    ensures Closer(Closer(ts, a), b) == Closer(ts, a + b)
  {
    if ts != [] {
      CloserTwice(ts[1..], a, b);
    }
  }

  /** The head is due: without it the others count from where it leaves off. */
  lemma {:induction false} TailCharged(es: seq<Event>, ts: seq<Timed>, n: nat, k: int)
    requires es != [] && n < |ts| && Abs(es, 0) == Closer(ts[n..], k) && NonNegative(es[1..])
    ensures es[0].delta <= 0 && AllDue(ts, n, k) ==> AllDue(ts, n + 1, k)
    ensures ts[n].at == k + es[0].delta && ts[n].id == es[0].id && ts[n].timeout == es[0].timeout
    ensures Abs(es[1..], 0) == Closer(ts[n + 1..], k + es[0].delta)
  {
    assert Abs(es, 0)[0] == Closer(ts[n..], k)[0];
    assert ts[n..][1..] == ts[n + 1..];
    assert Abs(es, 0)[1..] == Abs(es[1..], es[0].delta) && Closer(ts[n..], k)[1..] == Closer(ts[n + 1..], k);
    AbsCloser(es[1..], es[0].delta, es[0].delta);
    CloserTwice(ts[n + 1..], k, es[0].delta);
  }

  lemma ChargedHead(es: seq<Event>, d: int)
    requires es != [] && NonNegative(es)
    ensures var fs := [es[0].(delta := d)] + es[1..];
            NonNegative(es[1..]) && fs[1..] == es[1..] && (d >= 0 ==> NonNegative(fs)) && es[0].delta >= 0
  {
  }

  lemma NoneDue(ts: seq<Timed>, k: int)
    ensures AllDue(ts, 0, k)
  {
  }

  lemma NoneLeft(ts: seq<Timed>, k: int)
    ensures AllDue(ts, |ts|, k) ==> DueUpTo(ts, |ts|, k)
  {
  }

  /** The head is not due: nor is any other. */
  lemma Rest(es: seq<Event>, ts: seq<Timed>, n: nat, k: int)
    requires es != [] && n < |ts| && Abs(es, 0) == Closer(ts[n..], k) && es[0].delta > 0 && NonNegative(es)
             && AllDue(ts, n, k)
    ensures DueUpTo(ts, n, k)
  {
    AbsSorted(es, 0);
    forall i | n <= i < |ts| ensures ts[i].at > k {
      assert Closer(ts[n..], k)[i - n] == ts[n..][i - n].(at := ts[n..][i - n].at - k);
      assert Abs(es, 0)[0].at <= Abs(es, 0)[i - n].at;
    }
  }
}
