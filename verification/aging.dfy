/** Waiting threads grow in priority: what a shuffle does to the heads of the queues, and how far
    eight ticks bring the head of any queue (scheduler.c). */
module Aging {
  import opened RunQueues
  import opened Scheduling

  /** A thread's earned priority is its static one, its waiting time in parts of the shuffle
      factor, a bonus for a crowded queue and its accumulated bonus, up to 127: exactly if the
      sum fits a signed 32-bit number, or what is left of it in 32 bits is such a number from
      127 on. Just beyond, it is negative and the thread is passed over. */
  lemma EarnedPlain(t: Thread, now: int, shuffle: int, n: nat)
    requires shuffle > 0 && now >= t.stamp
    ensures var sum := t.sPrio + (now - t.stamp) / shuffle + n / 16 + t.carrots;
      && (sum >= -0x8000_0000 ==>
        (WaitPrio(t, now, shuffle, n) == (if sum > 127 then 127 else sum) <==>
         sum < 0x8000_0000 || 127 <= sum % 0x1_0000_0000 < 0x8000_0000))
      && (0x8000_0000 <= sum < 0x1_0000_0000 ==> WaitPrio(t, now, shuffle, n) < 0)
  {
  }

  // ---- one shuffle

  /** What the turn of queue x does. */
  lemma TurnEffect(a: Moment, b: Moment, x: nat, now: int, shuffle: int, idle: Tid)
    requires Turn(a, b, x, now, shuffle) && x < LEVELS && QueuesOk(a.q, a.th, idle)
    ensures |a.q| == |b.q| == LEVELS && b.th.Keys == a.th.Keys
    ensures forall t :: t in a.th ==> b.th[t] == a.th[t].(dPrio := b.th[t].dPrio) && b.th[t].dPrio >= a.th[t].dPrio
    ensures forall t :: t in a.th && (a.q[x] == [] || t != a.q[x][0]) ==> b.th[t] == a.th[t]
    ensures forall p :: 0 <= p < LEVELS && p != x ==> a.q[p] <= b.q[p]
    ensures a.q[x] <= b.q[x] || (a.q[x] != [] && a.q[x][1..] <= b.q[x])
  {
    hide QueuesOk, WaitPrio;
    assert |a.q| == LEVELS by { QueuesSize(a.q, a.th, idle); }
    if a.q[x] != [] {
      HeadQueued(a.q, a.th, idle, x);
      var h := a.q[x][0];
      var e := WaitPrio(a.th[h], now, shuffle, |a.q[x]|);
      if e > x {
        assert b.q == a.q[x := a.q[x][1..]][e := a.q[e] + [h]];
        assert b.q[x] == a.q[x][1..];
        assert forall p :: 0 <= p < LEVELS && p != x ==> b.q[p] == if p == e then a.q[p] + [h] else a.q[p];
      }
    }
  }

  lemma QueuesSize(q: Queues, th: Threads, idle: Tid)
    requires QueuesOk(q, th, idle)
    ensures |q| == LEVELS
  {
  }

  /** Threads change at most in their dynamic priority, which only grows. */
  lemma {:induction false} Rises(ms: seq<Moment>, k: nat, now: int, shuffle: int, idle: Tid, i: nat, j: nat)
    requires Turns(ms, k, now, shuffle, idle) && i <= j < |ms|
    ensures ms[j].th.Keys == ms[i].th.Keys
    ensures forall t :: t in ms[i].th ==>
              ms[j].th[t] == ms[i].th[t].(dPrio := ms[j].th[t].dPrio) && ms[j].th[t].dPrio >= ms[i].th[t].dPrio
    decreases j
  {
    hide Turn, QueuesOk;
    if i < j {
      Rises(ms, k, now, shuffle, idle, i, j - 1);
      assert Turn(ms[j - 1], ms[j - 1 + 1], k + 8 * (j - 1), now, shuffle);
      TurnEffect(ms[j - 1], ms[j], k + 8 * (j - 1), now, shuffle, idle);
    }
  }

  /** Until its turn, and for good if it has none, a queue only grows at its tail, and its head
      stays as it is. */
  lemma {:induction false} HeadWaits(ms: seq<Moment>, k: nat, now: int, shuffle: int, idle: Tid, p: nat, i: nat)
    requires Turns(ms, k, now, shuffle, idle) && i < |ms| && p < LEVELS
    requires forall j :: 0 <= j < i ==> k + 8 * j != p
    ensures |ms[0].q| == |ms[i].q| == LEVELS && ms[0].q[p] <= ms[i].q[p]
    ensures ms[0].q[p] != [] ==>
              var h := ms[0].q[p][0]; h in ms[0].th && h in ms[i].th && ms[i].th[h] == ms[0].th[h]
    decreases i
  {
    hide Turn, QueuesOk;
    assert QueuesOk(ms[0].q, ms[0].th, idle);
    QueuesSize(ms[0].q, ms[0].th, idle);
    if ms[0].q[p] != [] {
      HeadQueued(ms[0].q, ms[0].th, idle, p);
    }
    if i > 0 {
      HeadWaits(ms, k, now, shuffle, idle, p, i - 1);
      var a, x := ms[i - 1], k + 8 * (i - 1);
      assert Turn(a, ms[i - 1 + 1], x, now, shuffle) && QueuesOk(a.q, a.th, idle);
      TurnEffect(a, ms[i], x, now, shuffle, idle);
      if ms[0].q[p] != [] {
        HeadQueued(a.q, a.th, idle, p);
        if a.q[x] != [] {
          HeadQueued(a.q, a.th, idle, x);
        }
      }
    }
  }

  /** From a shuffle of type k the head of every queue p below the highest with p % 8 == k gets
      what it has earned: it goes to the tail of that queue if it is a higher one, and else
      nothing changes at its turn. It never falls. */
  lemma HeadEarns(a: Moment, b: Moment, ms: seq<Moment>, k: nat, now: int, shuffle: int, idle: Tid,
                  p: nat) returns (i: nat)
    requires Shuffled(a, b, ms, k, now, shuffle, idle) && shuffle > 0 && k < 8 && p < 127 && p % 8 == k
    requires |a.q| == LEVELS && a.q[p] != []
    ensures i + 1 < |ms| && p == k + 8 * i && |ms[i].q| == |ms[i + 1].q| == LEVELS && a.q[p] <= ms[i].q[p]
    ensures var h := a.q[p][0];
      && h in a.th && h in ms[i + 1].th && h in b.th
      && var e := WaitPrio(a.th[h], now, shuffle, |ms[i].q[p]|);
         && (e > p ==>
            ms[i + 1].q[e] == ms[i].q[e] + [h] && ms[i + 1].q[p] == ms[i].q[p][1..] && ms[i + 1].th[h].dPrio == e)
         && (e <= p ==> ms[i + 1] == ms[i])
         && b.th[h] == a.th[h].(dPrio := b.th[h].dPrio) && b.th[h].dPrio >= p && b.th[h].dPrio >= e
  {
    hide QueuesOk, WaitPrio;
    i := (p - k) / 8;
    assert i + 1 < |ms|;
    HeadWaits(ms, k, now, shuffle, idle, p, i);
    assert QueuesOk(a.q, a.th, idle);
    HeadQueued(a.q, a.th, idle, p);
    assert Turn(ms[i], ms[i + 1], k + 8 * i, now, shuffle) && QueuesOk(ms[i].q, ms[i].th, idle);
    TurnEffect(ms[i], ms[i + 1], p, now, shuffle, idle);
    Rises(ms, k, now, shuffle, idle, i + 1, |ms| - 1);
  }

  /** Nobody else moves: a queue loses its head at most, and gains at its tail. */
  lemma {:induction false} OthersKeepTheirPlace(ms: seq<Moment>, k: nat, now: int, shuffle: int, idle: Tid, p: nat,
                                                i: nat)
    requires Turns(ms, k, now, shuffle, idle) && i < |ms| && p < LEVELS
    ensures |ms[0].q| == |ms[i].q| == LEVELS
    ensures ms[0].q[p] <= ms[i].q[p] || (p % 8 == k % 8 && ms[0].q[p] != [] && ms[0].q[p][1..] <= ms[i].q[p])
    decreases i
  {
    hide Turn, QueuesOk;
    if forall j :: 0 <= j < i ==> k + 8 * j != p {
      HeadWaits(ms, k, now, shuffle, idle, p, i);
    } else {
      OthersKeepTheirPlace(ms, k, now, shuffle, idle, p, i - 1);
      var a, x := ms[i - 1], k + 8 * (i - 1);
      assert Turn(a, ms[i - 1 + 1], x, now, shuffle) && QueuesOk(a.q, a.th, idle);
      TurnEffect(a, ms[i], x, now, shuffle, idle);
      if p == x {
        HeadWaits(ms, k, now, shuffle, idle, p, i - 1);
      }
    }
  }

  // ---- eight ticks

  /** n ticks in a row, each with the scheduling lock free. */
  ghost predicate Ticks(ss: seq<Snap>, idle: Tid)
  {
    |ss| > 0 && forall j :: 0 <= j < |ss| - 1 ==> ss[j].shuffle > 0 && FreeTick(ss[j], ss[j + 1], idle)
  }

  /** A tick of another type leaves the head of a queue where and as it is. */
  lemma OtherTick(s: Snap, s': Snap, idle: Tid, p: nat)
    requires FreeTick(s, s', idle) && s'.tickType != p % 8 && p < LEVELS
    requires |s.m.q| == LEVELS && s.m.q[p] != [] && s.m.q[p][0] != s.current
    ensures |s'.m.q| == LEVELS && s.m.q[p] <= s'.m.q[p]
    ensures var h := s.m.q[p][0]; h in s.m.th && h in s'.m.th && s'.m.th[h] == s.m.th[h]
  {
    var th: Threads, ms: seq<Moment> :|
      && Shuffled(s.m, Moment(s'.m.q, th), ms, s'.tickType, 4 * s'.ticks, s.shuffle, idle)
      && th.Keys == s'.m.th.Keys && forall t :: t in th && t != s.current ==> s'.m.th[t] == th[t];
    HeadWaits(ms, s'.tickType, 4 * s'.ticks, s.shuffle, idle, p, |ms| - 1);
  }

  /** No tick lowers a thread that is not running. */
  lemma TickRises(s: Snap, s': Snap, idle: Tid)
    requires FreeTick(s, s', idle)
    ensures s'.m.th.Keys == s.m.th.Keys
    ensures forall t :: t in s.m.th && t != s.current ==>
              s'.m.th[t] == s.m.th[t].(dPrio := s'.m.th[t].dPrio) && s'.m.th[t].dPrio >= s.m.th[t].dPrio
  {
    var th: Threads, ms: seq<Moment> :|
      && Shuffled(s.m, Moment(s'.m.q, th), ms, s'.tickType, 4 * s'.ticks, s.shuffle, idle)
      && th.Keys == s'.m.th.Keys && forall t :: t in th && t != s.current ==> s'.m.th[t] == th[t];
    Rises(ms, s'.tickType, 4 * s'.ticks, s.shuffle, idle, 0, |ms| - 1);
  }

  /** The tick of a queue's own type. */
  lemma OwnTick(s: Snap, s': Snap, idle: Tid, p: nat) returns (n: nat)
    requires FreeTick(s, s', idle) && s.shuffle > 0 && s'.tickType == p % 8 && p < 127
    requires |s.m.q| == LEVELS && s.m.q[p] != [] && s.m.q[p][0] != s.current
    ensures |s.m.q[p]| <= n <= |s.m.th|
    ensures var h := s.m.q[p][0];
      && h in s.m.th && h in s'.m.th && s'.m.th[h].dPrio >= p
      && s'.m.th[h].dPrio >= WaitPrio(s.m.th[h], 4 * s'.ticks, s.shuffle, n)
  {
    var th: Threads, ms: seq<Moment> :|
      && Shuffled(s.m, Moment(s'.m.q, th), ms, s'.tickType, 4 * s'.ticks, s.shuffle, idle)
      && th.Keys == s'.m.th.Keys && forall t :: t in th && t != s.current ==> s'.m.th[t] == th[t];
    hide WaitPrio, Turn;
    var i := HeadEarns(s.m, Moment(s'.m.q, th), ms, s'.tickType, 4 * s'.ticks, s.shuffle, idle, p);
    n := |ms[i].q[p]|;
    assert QueuesOk(ms[i].q, ms[i].th, idle);
    QueueFits(ms[i].q, ms[i].th, idle, p);
    Rises(ms, s'.tickType, 4 * s'.ticks, s.shuffle, idle, 0, i);
  }

  lemma QueueFits(q: Queues, th: Threads, idle: Tid, p: nat)
    requires QueuesOk(q, th, idle) && p < LEVELS
    ensures |q| == LEVELS && |q[p]| <= |th|
  {
    assert QueueOk(q[p], th, idle, p);
    Distinct(q[p]);
    forall i | 0 <= i < |q[p]| ensures q[p][i] in th {
      assert QueuedAt(q[p][i], th, idle, p);
    }
    Fewer(Members(q[p]), th.Keys);
  }

  ghost function Members(s: seq<Tid>): set<Tid>
  {
    set t | t in s
  }

  lemma {:induction false} Distinct(s: seq<Tid>)
    requires NoDup(s)
    ensures |Members(s)| == |s|
  {
    if s != [] {
      var n := |s| - 1;
      Distinct(s[..n]);
      assert s == s[..n] + [s[n]];
      assert Members(s) == Members(s[..n]) + {s[n]};
      assert s[n] !in s[..n];
    }
  }

  lemma {:induction false} Fewer(a: set<Tid>, b: set<Tid>)
    requires a <= b
    ensures |a| <= |b|
  {
    if a != {} {
      var x :| x in a;
      Fewer(a - {x}, b - {x});
    }
  }

  /** The head of a queue keeps its place until the tick of its type. */
  lemma {:induction false} StillHead(ss: seq<Snap>, idle: Tid, p: nat, j: nat)
    requires Ticks(ss, idle) && j < |ss| && p < LEVELS && forall i :: 0 < i <= j ==> ss[i].tickType != p % 8
    requires |ss[0].m.q| == LEVELS && ss[0].m.q[p] != [] && ss[0].m.q[p][0] in ss[0].m.th
             && ss[0].m.q[p][0] != ss[0].current
    ensures |ss[j].m.q| == LEVELS && ss[0].m.q[p] <= ss[j].m.q[p] && ss[j].current == ss[0].current
            && ss[j].ticks >= ss[0].ticks
    ensures var h := ss[0].m.q[p][0]; h in ss[j].m.th && ss[j].m.th[h] == ss[0].m.th[h]
    decreases j
  {
    hide FreeTick;
    if j > 0 {
      StillHead(ss, idle, p, j - 1);
      assert FreeTick(ss[j - 1], ss[j - 1 + 1], idle);
      OtherTick(ss[j - 1], ss[j], idle, p);
      TickOrder(ss[j - 1], ss[j], idle);
    }
  }

  lemma TickOrder(s: Snap, s': Snap, idle: Tid)
    requires FreeTick(s, s', idle)
    ensures s'.tickType == (s.tickType + 1) % 8 && s'.ticks > s.ticks && s'.current == s.current
  {
  }

  lemma {:induction false} LaterTicks(ss: seq<Snap>, idle: Tid, i: nat, j: nat, t: Tid)
    requires Ticks(ss, idle) && i <= j < |ss| && t in ss[i].m.th && t != ss[i].current
    ensures ss[j].current == ss[i].current && ss[j].ticks >= ss[i].ticks && ss[j].m.th.Keys == ss[i].m.th.Keys
    ensures ss[j].m.th[t].dPrio >= ss[i].m.th[t].dPrio
    decreases j
  {
    hide FreeTick;
    if i < j {
      LaterTicks(ss, idle, i, j - 1, t);
      assert FreeTick(ss[j - 1], ss[j - 1 + 1], idle);
      TickRises(ss[j - 1], ss[j], idle);
      TickOrder(ss[j - 1], ss[j], idle);
    }
  }

  lemma {:induction false} TypeAfter(ss: seq<Snap>, idle: Tid, j: nat)
    requires Ticks(ss, idle) && j < |ss| && ss[0].tickType < 8
    ensures ss[j].tickType == (ss[0].tickType + j) % 8
    decreases j
  {
    hide FreeTick;
    if j > 0 {
      TypeAfter(ss, idle, j - 1);
      assert FreeTick(ss[j - 1], ss[j - 1 + 1], idle);
      TickOrder(ss[j - 1], ss[j], idle);
    }
  }

  /** No starvation: over any eight ticks in a row the head of every queue but the highest rises
      to at least what its waiting has earned at the slowest shuffle factor, unless the wait is
      so long that its sum needs more than 32 bits. */
  lemma NoStarvation(ss: seq<Snap>, idle: Tid, p: nat, slow: int)
    requires Ticks(ss, idle) && |ss| == 9 && ss[0].tickType < 8 && forall j :: 0 <= j < 8 ==> ss[j].shuffle <= slow
    requires p < 127 && |ss[0].m.q| == LEVELS && ss[0].m.q[p] != [] && ss[0].m.q[p][0] in ss[0].m.th
    requires var h := ss[0].m.q[p][0]; var t := ss[0].m.th[h];
      && h != ss[0].current && t.stamp <= 4 * ss[0].ticks && t.sPrio >= 0 && -8 <= t.carrots <= 8
      && t.sPrio + (4 * ss[8].ticks - t.stamp) + |ss[0].m.th| + 8 < 0x8000_0000
    ensures slow > 0 && ss[0].m.q[p][0] in ss[8].m.th
    ensures var h := ss[0].m.q[p][0]; var t := ss[0].m.th[h];
      var earned := t.sPrio + (4 * ss[0].ticks - t.stamp) / slow + |ss[0].m.q[p]| / 16 + t.carrots;
      ss[8].m.th[h].dPrio >= p && ss[8].m.th[h].dPrio >= if earned > 127 then 127 else earned
  {
    hide FreeTick, WaitPrio;
    var h := ss[0].m.q[p][0];
    var t := ss[0].m.th[h];
    var j := (p + 7 - ss[0].tickType) % 8;
    forall i | 0 < i <= j ensures ss[i].tickType != p % 8 {
      TypeAfter(ss, idle, i);
      OtherType(p, ss[0].tickType, i, j);
    }
    TypeAfter(ss, idle, j + 1);
    OwnType(p, ss[0].tickType, j);
    StillHead(ss, idle, p, j);
    assert FreeTick(ss[j], ss[j + 1], idle);
    var n := OwnTick(ss[j], ss[j + 1], idle, p);
    TickOrder(ss[j], ss[j + 1], idle);
    TickRises(ss[j], ss[j + 1], idle);
    LaterTicks(ss, idle, 0, j, h);
    LaterTicks(ss, idle, j + 1, 8, h);
    EarnedAtLeast(t, 4 * ss[0].ticks, 4 * ss[j + 1].ticks, ss[j].shuffle, slow, |ss[0].m.q[p]|, n);
  }

  lemma OtherType(p: nat, k: nat, i: nat, j: nat)
    requires k < 8 && 0 < i <= j && j == (p + 7 - k) % 8
    ensures (k + i) % 8 != p % 8
  {
  }

  lemma OwnType(p: nat, k: nat, j: nat)
    requires k < 8 && j == (p + 7 - k) % 8
    ensures (k + (j + 1)) % 8 == p % 8
  {
  }

  /** A longer wait, a faster factor and a longer queue earn no less. */
  lemma EarnedAtLeast(t: Thread, now: int, later: int, shuffle: int, slow: int, m: nat, n: nat)
    requires t.stamp <= now <= later && 0 < shuffle <= slow && m <= n && t.sPrio >= 0 && -8 <= t.carrots <= 8
    requires t.sPrio + (later - t.stamp) + n + 8 < 0x8000_0000
    ensures var earned := t.sPrio + (now - t.stamp) / slow + m / 16 + t.carrots;
      WaitPrio(t, later, shuffle, n) >= if earned > 127 then 127 else earned
  {
    hide WaitPrio;
    EarnedPlain(t, later, shuffle, n);
    WaitMono(now - t.stamp, later - t.stamp, shuffle, slow);
  }

  lemma WaitMono(a: nat, b: nat, d: nat, e: nat)
    requires a <= b && 0 < d <= e
    ensures 0 <= a / e <= b / d <= b
  {
    QuotientMonotone(a, b, e);
    SmallerDivisor(b, d, e);
    SmallerDivisor(b, 1, d);
  }

  lemma SmallerDivisor(b: nat, d: nat, e: nat)
    requires 0 < d <= e
    ensures 0 <= b / e <= b / d
  {
    var x, y := b / e, b / d;
    assert b == x * e + b % e && b == y * d + b % d;
    if x > y {
      MoreTimes(x, y, d, e);
    }
  }

  lemma MoreTimes(x: nat, y: nat, d: nat, e: nat)
    requires x > y && 0 < d <= e
    ensures x * e >= y * d + d
  {
    assert x * e >= x * d;
    assert x * d >= (y + 1) * d;
  }
}
