/** Run queues as values: which threads are queued where, and what the queue operations keep
    (scheduler.c, thread_types.h). */
module RunQueues {

  type Tid = nat

  const LEVELS := 128
  const LOOKAHEAD := 10
  const MAX_BONUS := 8

  datatype State = Ready | Birth | Death | Running | Waiting | Sleeping | Suspended | Dead

  datatype Policy = Ordinary | Interactive | Service | RealTime | Kernel | HwHandler | Interrupt

  /** The scheduling fields of thread_t; `interactive` is the flag of its process. */
  datatype Thread = Thread(
    state: State, next: State, resched: bool, preempt: nat, jiffies: int, ijiffies: int,
    policy: Policy, interactive: bool, sPrio: int, dPrio: int, stamp: int, carrots: int)

  function Rank(p: Policy): nat
  {
    match p
    case Ordinary => 0
    case Interactive => 1
    case Service => 2
    case RealTime => 3
    case Kernel => 4
    case HwHandler => 5
    case Interrupt => 6
  }

  /** The policy a thread is compared by: interactive counts only in an interactive process. */
  function Effective(t: Thread): nat
  {
    if t.policy == Interactive && !t.interactive then Rank(Ordinary) else Rank(t.policy)
  }

  type Queues = seq<seq<Tid>>
  type Threads = map<Tid, Thread>

  ghost predicate NoDup(s: seq<Tid>)
  {
    forall i, j :: 0 <= i < j < |s| ==> s[i] != s[j]
  }

  ghost predicate QueuedAt(t: Tid, th: Threads, idle: Tid, p: int)
  {
    t in th && t != idle && th[t].state == Ready && th[t].dPrio == p
  }

  ghost predicate QueueOk(s: seq<Tid>, th: Threads, idle: Tid, p: int)
  {
    NoDup(s) && forall i :: 0 <= i < |s| ==> QueuedAt(s[i], th, idle, p)
  }

  /** A non-idle thread is queued iff it is ready, once, at its dynamic priority. */
  ghost predicate QueuesOk(q: Queues, th: Threads, idle: Tid)
  {
    && |q| == LEVELS
    && (forall p :: 0 <= p < LEVELS ==> QueueOk(q[p], th, idle, p))
    && forall t :: t in th && t != idle && th[t].state == Ready ==> Enqueued(q, th, t)
  }

  ghost predicate Enqueued(q: Queues, th: Threads, t: Tid)
    requires |q| == LEVELS && t in th
  {
    0 <= th[t].dPrio < LEVELS && t in q[th[t].dPrio]
  }

  /** The number of queued threads. */
  ghost function Total(q: Queues): nat
  {
    if q == [] then 0 else |q[0]| + Total(q[1..])
  }

  lemma {:induction false} TotalUpdate(q: Queues, p: nat, s: seq<Tid>)
    requires p < |q|
    ensures Total(q[p := s]) == Total(q) - |q[p]| + |s|
  {
    if p == 0 {
      assert q[p := s][1..] == q[1..];
    } else {
      assert q[p := s][1..] == q[1..][p - 1 := s];
      TotalUpdate(q[1..], p - 1, s);
    }
  }

  lemma {:induction false} TotalZero(q: Queues)
    requires forall p :: 0 <= p < |q| ==> q[p] == []
    ensures Total(q) == 0
  {
    if q != [] {
      TotalZero(q[1..]);
    }
  }

  function Without(s: seq<Tid>, k: nat): (r: seq<Tid>)
    requires k < |s|
  {
    s[..k] + s[k + 1..]
  }

  /** t, not ready before, joins the tail of queue p. */
  lemma Joined(q: Queues, th: Threads, idle: Tid, t: Tid, r: Thread, p: nat)
    requires QueuesOk(q, th, idle) && t != idle && (t in th ==> th[t].state != Ready)
    requires p < LEVELS && r.state == Ready && r.dPrio == p
    ensures QueuesOk(q[p := q[p] + [t]], th[t := r], idle)
    ensures Total(q[p := q[p] + [t]]) == Total(q) + 1
  {
    TotalUpdate(q, p, q[p] + [t]);
    var q', th' := q[p := q[p] + [t]], th[t := r];
    forall l | 0 <= l < LEVELS ensures QueueOk(q'[l], th', idle, l) {
      assert QueueOk(q[l], th, idle, l);
      forall i | 0 <= i < |q[l]| ensures QueuedAt(q[l][i], th', idle, l) && q[l][i] != t {
        assert QueuedAt(q[l][i], th, idle, l);
      }
    }
    forall x | x in th' && x != idle && th'[x].state == Ready ensures Enqueued(q', th', x) {
      if x == t {
        assert q'[p][|q[p]|] == t;
      } else {
        assert Enqueued(q, th, x);
        var l := th[x].dPrio;
        var i :| 0 <= i < |q[l]| && q[l][i] == x;
        assert q'[l][i] == x;
      }
    }
  }

  /** The k-th thread of queue p leaves the ready state. */
  lemma Left(q: Queues, th: Threads, idle: Tid, p: nat, k: nat, r: Thread)
    requires QueuesOk(q, th, idle) && p < LEVELS && k < |q[p]| && r.state != Ready
    ensures QueuesOk(q[p := Without(q[p], k)], th[q[p][k] := r], idle)
    ensures Total(q[p := Without(q[p], k)]) == Total(q) - 1
  {
    TotalUpdate(q, p, Without(q[p], k));
    var t := q[p][k];
    var q', th' := q[p := Without(q[p], k)], th[t := r];
    assert QueueOk(q[p], th, idle, p) && QueuedAt(t, th, idle, p);
    forall l | 0 <= l < LEVELS ensures QueueOk(q'[l], th', idle, l) {
      assert QueueOk(q[l], th, idle, l);
      forall i | 0 <= i < |q'[l]| ensures QueuedAt(q'[l][i], th', idle, l) {
        var o := if l == p && i >= k then i + 1 else i;
        assert q'[l][i] == q[l][o];
        assert QueuedAt(q[l][o], th, idle, l);
      }
      forall i, j | 0 <= i < j < |q'[l]| ensures q'[l][i] != q'[l][j] {
        assert q'[l][i] == q[l][if l == p && i >= k then i + 1 else i];
        assert q'[l][j] == q[l][if l == p && j >= k then j + 1 else j];
      }
    }
    forall x | x in th' && x != idle && th'[x].state == Ready ensures Enqueued(q', th', x) {
      assert Enqueued(q, th, x);
      var l := th[x].dPrio;
      var i :| 0 <= i < |q[l]| && q[l][i] == x;
      assert q'[l][if l == p && i > k then i - 1 else i] == x;
    }
  }

  /** A change that touches neither readiness nor a ready thread's priority. */
  lemma Unmoved(q: Queues, th: Threads, idle: Tid, t: Tid, r: Thread)
    requires QueuesOk(q, th, idle)
    requires t == idle || (t in th && th[t].state == Ready && r.state == Ready && r.dPrio == th[t].dPrio)
             || ((t in th ==> th[t].state != Ready) && r.state != Ready)
    ensures QueuesOk(q, th[t := r], idle)
  {
    var th' := th[t := r];
    forall l | 0 <= l < LEVELS ensures QueueOk(q[l], th', idle, l) {
      assert QueueOk(q[l], th, idle, l);
      forall i | 0 <= i < |q[l]| ensures QueuedAt(q[l][i], th', idle, l) {
        assert QueuedAt(q[l][i], th, idle, l);
      }
    }
    forall x | x in th' && x != idle && th'[x].state == Ready ensures Enqueued(q, th', x) {
      assert Enqueued(q, th, x);
    }
  }

  /** A ready thread moves to the tail of another queue. */
  lemma Promoted(q: Queues, th: Threads, idle: Tid, p: nat, p': nat, r: Thread)
    requires QueuesOk(q, th, idle) && p < p' < LEVELS && q[p] != [] && r.state == Ready && r.dPrio == p'
    ensures var t := q[p][0]; var q' := q[p := q[p][1..]];
            QueuesOk(q'[p' := q'[p'] + [t]], th[t := r], idle) && Total(q'[p' := q'[p'] + [t]]) == Total(q)
  {
    var t, q' := q[p][0], q[p := q[p][1..]];
    assert QueueOk(q[p], th, idle, p) && QueuedAt(t, th, idle, p);
    var out := th[t].(state := Suspended);
    assert Without(q[p], 0) == q[p][1..];
    Left(q, th, idle, p, 0, out);
    Joined(q', th[t := out], idle, t, r, p');
    assert th[t := out][t := r] == th[t := r];
  }

  lemma HeadQueued(q: Queues, th: Threads, idle: Tid, p: nat)
    requires QueuesOk(q, th, idle) && p < LEVELS && q[p] != []
    ensures QueuedAt(q[p][0], th, idle, p)
  {
    assert QueueOk(q[p], th, idle, p);
  }

  ghost predicate Occurs(q: Queues, p: int, i: int, t: Tid)
  {
    0 <= p < |q| && 0 <= i < |q[p]| && q[p][i] == t
  }

  /** A non-idle thread is in some queue iff it is ready, and then in one place only. */
  lemma QueuedOnce(q: Queues, th: Threads, idle: Tid, t: Tid)
    requires QueuesOk(q, th, idle) && t in th && t != idle
    ensures th[t].state == Ready <==> exists p, i :: Occurs(q, p, i, t)
    ensures forall p, i, p', i' :: Occurs(q, p, i, t) && Occurs(q, p', i', t) ==> p == p' && i == i'
  {
    if th[t].state == Ready {
      assert Enqueued(q, th, t);
      var i :| 0 <= i < |q[th[t].dPrio]| && q[th[t].dPrio][i] == t;
      assert Occurs(q, th[t].dPrio, i, t);
    }
    forall p, i | Occurs(q, p, i, t) ensures p == th[t].dPrio && th[t].state == Ready {
      assert QueueOk(q[p], th, idle, p);
      assert QueuedAt(q[p][i], th, idle, p);
    }
    forall p, i, i' | Occurs(q, p, i, t) && Occurs(q, p, i', t) ensures i == i' {
      assert QueueOk(q[p], th, idle, p);
    }
  }

  // ---- which thread runs next

  /** Thread k of queue s is the earliest of maximal policy among the first ten. */
  ghost predicate Choice(s: seq<Tid>, th: Threads, k: int)
  {
    && 0 <= k < |s| && k < LOOKAHEAD && (forall i :: 0 <= i < |s| ==> s[i] in th)
    && (forall i :: 0 <= i < |s| && i < LOOKAHEAD ==> Effective(th[s[i]]) <= Effective(th[s[k]]))
    && forall i :: 0 <= i < k ==> Effective(th[s[i]]) < Effective(th[s[k]])
  }

  /** So there is only one. */
  lemma ChoiceUnique(s: seq<Tid>, th: Threads, k: int, k': int)
    requires Choice(s, th, k) && Choice(s, th, k')
    ensures k == k'
  {
    assert Effective(th[s[k]]) <= Effective(th[s[k']]) && Effective(th[s[k']]) <= Effective(th[s[k]]);
  }

  /** p is the highest queue with a thread in it. */
  ghost predicate Highest(q: Queues, p: int)
  {
    0 <= p < |q| && q[p] != [] && forall l :: p < l < |q| ==> q[l] == []
  }

  /** From queues q, next was picked and q' is left. */
  ghost predicate Picked(q: Queues, th: Threads, idle: Tid, next: Tid, q': Queues)
  {
    || ((forall p :: 0 <= p < |q| ==> q[p] == []) && next == idle && q' == q)
    || exists p, k :: PickedAt(q, th, p, k, next, q')
  }

  ghost predicate PickedAt(q: Queues, th: Threads, p: int, k: int, next: Tid, q': Queues)
  {
    Highest(q, p) && Choice(q[p], th, k) && next == q[p][k] && q' == q[p := Without(q[p], k)]
  }

  // ---- bonuses

  const SYS_BONUS := [0, 0, 0, 0, 0, 0, 0, 0, -1, -1]
  const ORD_BONUS := [3, 2, 2, 1, 0, 0, -1, -2, -3, -3]

  /** Tenths of the time quantum used, as an index into the tables. */
  function Usage(t: Thread): (i: int)
    requires t.ijiffies >= 1
    ensures 0 <= i < 10
  {
    var i := 100 * (t.ijiffies - t.jiffies) / t.ijiffies / 10;
    if i < 0 then 0 else if i >= 10 then 9 else i
  }

  predicate System(t: Thread)
  {
    t.policy == Interrupt || t.policy == HwHandler
  }

  function Clamp(x: int, lo: int, hi: int): int
  {
    if x > hi then hi else if x < lo then lo else x
  }

  /** Accumulated bonus after one more turn; no change of sign by decay. */
  function Accrued(carrots: int, bonus: int): int
  {
    var c := carrots + bonus;
    if bonus == 0 then (if c > 0 then c - 1 else if c < 0 then c + 1 else c) else c
  }

  /** Without a bonus for the last turn what was accumulated falls by one towards zero; else the
      bonus is added. */
  lemma AccruedPlain(c: int, bonus: int)
    ensures bonus != 0 ==> Accrued(c, bonus) == c + bonus
    ensures bonus == 0 && c > 0 ==> 0 <= Accrued(c, bonus) == c - 1
    ensures bonus == 0 && c < 0 ==> 0 >= Accrued(c, bonus) == c + 1
    ensures bonus == 0 && c == 0 ==> Accrued(c, bonus) == 0
  {
  }

  /** So a bonus or a penalty of at most 8 is gone after eight turns that earn none. */
  lemma {:induction false} DecaysToZero(c: int, n: nat)
    requires -8 <= c <= 8
    ensures var d := Decayed(c, n); (n >= 8 ==> d == 0) && (c >= 0 ==> 0 <= d <= c) && (c <= 0 ==> c <= d <= 0)
    ensures c > n ==> Decayed(c, n) == c - n
    ensures -c > n ==> Decayed(c, n) == c + n
    ensures c <= n && -c <= n ==> Decayed(c, n) == 0
  {
    if n > 0 {
      DecaysToZero(c, n - 1);
    }
  }

  /** n turns in a row without a bonus. */
  function Decayed(c: int, n: nat): int
  {
    if n == 0 then c else Accrued(Decayed(c, n - 1), 0)
  }

  /** carrots_and_sticks. */
  function Carrots(t: Thread): (c: int)
    requires t.ijiffies >= 1
    ensures -MAX_BONUS <= c <= MAX_BONUS
  {
    if System(t) then SYS_BONUS[Usage(t)]
    else Clamp(Accrued(t.carrots, ORD_BONUS[Usage(t)]), -MAX_BONUS, MAX_BONUS)
  }

  /** Using less of the quantum never earns less. */
  lemma CarrotsMonotone(t: Thread, j: int)
    requires t.ijiffies >= 1 && t.jiffies <= j <= t.ijiffies && 0 <= t.jiffies
    ensures Carrots(t) <= Carrots(t.(jiffies := j))
  {
    UsageMonotone(t, j);
    BonusFalls(Usage(t.(jiffies := j)), Usage(t));
  }

  lemma UsageMonotone(t: Thread, j: int)
    requires t.ijiffies >= 1 && t.jiffies <= j <= t.ijiffies && 0 <= t.jiffies
    ensures Usage(t.(jiffies := j)) <= Usage(t)
  {
    QuotientMonotone(100 * (t.ijiffies - j), 100 * (t.ijiffies - t.jiffies), t.ijiffies);
  }

  lemma QuotientMonotone(a: int, b: int, d: int)
    requires a <= b && d >= 1
    ensures a / d <= b / d
  {
    var qa, qb := a / d, b / d;
    assert a == qa * d + a % d && b == qb * d + b % d;
    Scaled(qa - qb, d);
    assert (qa - qb) * d == qa * d - qb * d;
  }

  lemma Scaled(x: int, d: int)
    requires d >= 1
    ensures x >= 1 ==> x * d >= d
  {
  }

  lemma BonusFalls(i: int, j: int)
    requires 0 <= i <= j < 10
    ensures ORD_BONUS[j] <= ORD_BONUS[i] && SYS_BONUS[j] <= SYS_BONUS[i]
  {
    if i < j {
      BonusFalls(i, j - 1);
    }
  }

  // ---- in plain numbers

  /** Each policy is preferred to those before it; interactive threads of other processes rank
      with the ordinary ones. */
  lemma PolicyOrder(a: Thread, b: Thread)
    ensures a.policy == Ordinary || (a.policy == Interactive && !a.interactive) ==> Effective(a) <= Effective(b)
    ensures a.policy == b.policy && a.interactive == b.interactive ==> Effective(a) == Effective(b)
    ensures a.policy == Ordinary && ((b.policy == Interactive && b.interactive) || b.policy == Service) ==>
            Effective(a) < Effective(b)
    ensures a.policy == Interactive && b.policy == Service ==> Effective(a) < Effective(b)
    ensures a.policy == Service && b.policy == RealTime ==> Effective(a) < Effective(b)
    ensures a.policy == RealTime && b.policy == Kernel ==> Effective(a) < Effective(b)
    ensures a.policy == Kernel && b.policy == HwHandler ==> Effective(a) < Effective(b)
    ensures a.policy == HwHandler && b.policy == Interrupt ==> Effective(a) < Effective(b)
  {
  }

  /** The bonus or penalty of a turn by the part of the quantum it used, in percent, on top of what
      was accumulated. Handlers get a penalty for using most of it and accumulate nothing. */
  lemma {:induction false} BonusPlain(t: Thread)
    requires t.ijiffies >= 1 && 0 <= t.jiffies <= t.ijiffies
    ensures var used := 100 * (t.ijiffies - t.jiffies) / t.ijiffies;
      && (t.policy == Interrupt || t.policy == HwHandler ==> Carrots(t) == if used >= 80 then -1 else 0)
      && (t.policy != Interrupt && t.policy != HwHandler ==>
           var bonus := if used < 10 then 3 else if used < 30 then 2 else if used < 40 then 1 else if used < 60 then 0
                        else if used < 70 then -1 else if used < 80 then -2 else -3;
           var sum := if bonus != 0 then t.carrots + bonus
                      else if t.carrots > 0 then t.carrots - 1 else if t.carrots < 0 then t.carrots + 1 else 0;
           Carrots(t) == if sum > 8 then 8 else if sum < -8 then -8 else sum)
  {
    PartUsed(t.ijiffies - t.jiffies, t.ijiffies);
  }

  lemma PartUsed(a: nat, b: nat)
    requires a <= b && b >= 1
    ensures 0 <= 100 * a / b <= 100
  {
    QuotientMonotone(100 * a, 100 * b, b);
    QuotientMonotone(0, 100 * a, b);
    HundredTimes(b);
  }

  lemma HundredTimes(b: nat)
    requires b >= 1
    ensures 100 * b / b == 100
  {
  }
}
