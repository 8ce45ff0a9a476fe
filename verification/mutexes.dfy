/** Mutexes and recursive mutexes over a semaphore, as interleaved steps (mutex.c). Every
    field access of mutex_t is a step of its own; the semaphore calls are the steps of
    SemProtocol. */
module Mutexes {
  import opened Semaphores
  import opened SemProtocol

  const NOBODY: Tid := 0

  /** Where a thread is: outside; inside sem_down; past it but with the holder field still to
      be set; past the owner test of unlock; past clearing the holder field. */
  datatype Pc = Idle | Locking | Got | Checked | Cleared

  /** The machine. owns is a ghost: the threads that took the count and have not yet given it
      back. */
  datatype Mutex = Mutex(sys: Sys, holder: Tid, pc: map<Tid, Pc>, owns: set<Tid>)

  datatype Act =
    | CallLock(t: Tid)
    | Pass(t: Tid, mayWait: bool)
    | TryLock(t: Tid)
    | SetHolder(t: Tid)
    | CallUnlock(t: Tid)
    | ClearHolder(t: Tid)
    | GiveBack(t: Tid)

  ghost predicate CanDo(m: Mutex, a: Act)
  {
    && a.t != NOBODY && a.t in m.pc && a.t in m.sys.phase
    && match a
       case CallLock(t) => m.pc[t] == Idle
       case Pass(t, mayWait) => m.pc[t] == Locking && Enabled(m.sys, Down(t, 1, false, mayWait))
       case TryLock(t) => m.pc[t] == Idle
       case SetHolder(t) => m.pc[t] == Got
       case CallUnlock(t) => m.pc[t] == Idle
       case ClearHolder(t) => m.pc[t] == Checked
       case GiveBack(t) => m.pc[t] == Cleared
  }

  /** One pass of sem_down; pc says where to go on success and otherwise. */
  ghost function Took(m: Mutex, t: Tid, try: bool, mayWait: bool, failed: Pc): Mutex
    requires Enabled(m.sys, Down(t, 1, try, mayWait))
  {
    var sys := Next(m.sys, Down(t, 1, try, mayWait));
    if m.sys.sem.count >= 1 then Mutex(sys, m.holder, m.pc[t := Got], m.owns + {t})
    else Mutex(sys, m.holder, m.pc[t := failed], m.owns)
  }

  ghost function Do(m: Mutex, a: Act): Mutex
    requires CanDo(m, a)
    requires a.GiveBack? ==> m.sys.sem.count < m.sys.sem.max
    requires a.TryLock? ==> Enabled(m.sys, Down(a.t, 1, true, false))
  {
    match a
    case CallLock(t) => m.(pc := m.pc[t := Locking])
    case Pass(t, mayWait) => Took(m, t, false, mayWait, Locking)
    case TryLock(t) => Took(m, t, true, false, Idle)
    case SetHolder(t) => m.(holder := t, pc := m.pc[t := Idle])
    case CallUnlock(t) => if m.holder != t then m else m.(pc := m.pc[t := Checked])
    case ClearHolder(t) => m.(holder := NOBODY, pc := m.pc[t := Cleared])
    case GiveBack(t) => Mutex(Next(m.sys, Up(1)), m.holder, m.pc[t := Idle], m.owns - {t})
  }

  /** Count and owners add up to one; the holder field is invalid or names the owner; the
      owner finds its own id there except while it is being set or has been cleared. */
  ghost predicate MutexInv(m: Mutex)
  {
    && Inv(m.sys, 1) && m.sys.sem.max == 1 && m.sys.sem.count + |m.owns| == 1
    && m.sys.phase.Keys == m.pc.Keys && m.owns <= m.pc.Keys
    && (m.holder == NOBODY || m.holder in m.owns)
    && (forall t :: t in m.pc ==> PcOk(m, t))
  }

  ghost predicate PcOk(m: Mutex, t: Tid)
    requires t in m.pc && m.sys.phase.Keys == m.pc.Keys
  {
    && (m.pc[t] in {Got, Checked, Cleared} ==> t in m.owns)
    && (t in m.owns ==> (m.holder == t <==> m.pc[t] in {Idle, Locking, Checked}) && t != NOBODY)
    && (m.sys.phase[t] != Out ==> m.pc[t] == Locking)
  }

  lemma OneOwner(m: Mutex, t: Tid)
    requires MutexInv(m) && t in m.owns
    ensures m.owns == {t} && m.sys.sem.count == 0
  {
    assert m.owns == {t} + (m.owns - {t});
  }

  /** The semaphore calls behave: giving back never exceeds the maximum. */
  lemma CanGiveBack(m: Mutex, a: Act)
    requires MutexInv(m) && CanDo(m, a)
    ensures a.GiveBack? ==> m.sys.sem.count < m.sys.sem.max
    ensures a.TryLock? ==> Enabled(m.sys, Down(a.t, 1, true, false))
  {
    if a.GiveBack? {
      OneOwner(m, a.t);
    }
  }

  lemma LocalStep(m: Mutex, a: Act)
    requires MutexInv(m) && CanDo(m, a) && (a.CallLock? || a.SetHolder? || a.CallUnlock? || a.ClearHolder?)
    ensures MutexInv(Do(m, a))
  {
    hide Inv;
    if a.t in m.owns {
      OneOwner(m, a.t);
    }
  }

  lemma TookStep(m: Mutex, t: Tid, try: bool, mayWait: bool)
    requires MutexInv(m) && t != NOBODY && t in m.pc && Enabled(m.sys, Down(t, 1, try, mayWait))
    requires m.pc[t] == (if try then Idle else Locking)
    ensures MutexInv(Took(m, t, try, mayWait, if try then Idle else Locking))
  {
    hide Inv, Next;
    StepKeeps(m.sys, Down(t, 1, try, mayWait), 1);
    DownEffect(m.sys, t, 1, try, mayWait);
    if m.sys.sem.count >= 1 {
      assert m.owns == {};
    }
  }

  lemma GiveBackStep(m: Mutex, t: Tid)
    requires MutexInv(m) && CanDo(m, GiveBack(t)) && m.sys.sem.count < m.sys.sem.max
    ensures MutexInv(Do(m, GiveBack(t)))
  {
    hide Inv;
    OneOwner(m, t);
    StepKeeps(m.sys, Up(1), 1);
    UpPhases(m.sys, 1);
    assert m.owns - {t} == {};
  }

  lemma PassStep(m: Mutex, t: Tid, mayWait: bool)
    requires MutexInv(m) && CanDo(m, Pass(t, mayWait))
    ensures MutexInv(Do(m, Pass(t, mayWait)))
  {
    hide Inv, Next;
    TookStep(m, t, false, mayWait);
  }

  lemma TryStep(m: Mutex, t: Tid)
    requires MutexInv(m) && CanDo(m, TryLock(t)) && Enabled(m.sys, Down(t, 1, true, false))
    ensures MutexInv(Do(m, TryLock(t)))
  {
    hide Inv, Next;
    TookStep(m, t, true, false);
  }

  lemma MutexStep(m: Mutex, a: Act)
    requires MutexInv(m) && CanDo(m, a)
    requires a.GiveBack? ==> m.sys.sem.count < m.sys.sem.max
    requires a.TryLock? ==> Enabled(m.sys, Down(a.t, 1, true, false))
    ensures MutexInv(Do(m, a))
  {
    hide MutexInv;
    match a
    case Pass(t, mayWait) => PassStep(m, t, mayWait);
    case TryLock(t) => TryStep(m, t);
    case GiveBack(t) => GiveBackStep(m, t);
    case _ => LocalStep(m, a);
  }

  /** What unlock and the owner test can see: a thread finds its id in the holder field iff
      it owns the mutex. */
  lemma OnlyOwnerSeesItself(m: Mutex, t: Tid)
    requires MutexInv(m) && t in m.pc && t != NOBODY && m.pc[t] == Idle
    ensures m.holder == t <==> t in m.owns
  {
  }

  ghost predicate MutexRun(m: Mutex, acts: seq<Act>, m': Mutex)
    decreases |acts|
  {
    if acts == [] then m' == m
    else CanDo(m, acts[0]) && (acts[0].GiveBack? ==> m.sys.sem.count < m.sys.sem.max)
         && (acts[0].TryLock? ==> Enabled(m.sys, Down(acts[0].t, 1, true, false)))
         && MutexRun(Do(m, acts[0]), acts[1..], m')
  }

  /** In every run at most one thread is past lock and not yet out of unlock. */
  lemma {:induction false} MutualExclusion(m: Mutex, acts: seq<Act>, m': Mutex)
    requires MutexInv(m) && MutexRun(m, acts, m')
    ensures MutexInv(m') && forall t, u :: t in m'.owns && u in m'.owns ==> t == u
    decreases |acts|
  {
    if acts == [] {
      forall t, u | t in m.owns && u in m.owns ensures t == u {
        OneOwner(m, t);
      }
    } else {
      MutexStep(m, acts[0]);
      MutualExclusion(Do(m, acts[0]), acts[1..], m');
    }
  }

  /** mutex_create. */
  lemma MutexCreated(ts: set<Tid>)
    ensures MutexInv(Mutex(Sys(Sem(1, 1, []), map t | t in ts :: Out), NOBODY, map t | t in ts :: Idle, {}))
  {
  }

  // ---- locking and unlocking lead out

  /** Only this can thread t do next. */
  ghost predicate OnlyStep(m: Mutex, t: Tid, next: Act)
  {
    forall a: Act :: a.t == t ==> (CanDo(m, a) <==> a == next)
  }

  /** An owner that unlocks clears the holder field and gives the count back, with no other choice
      and without being held up; then the mutex is free. */
  lemma UnlockFrees(m: Mutex, t: Tid) returns (m1: Mutex, m2: Mutex, m3: Mutex)
    requires MutexInv(m) && t != NOBODY && t in m.owns && t in m.pc && m.pc[t] == Idle
    ensures CanDo(m, CallUnlock(t)) && m1 == Do(m, CallUnlock(t)) && OnlyStep(m1, t, ClearHolder(t))
    ensures CanDo(m1, ClearHolder(t)) && m2 == Do(m1, ClearHolder(t)) && OnlyStep(m2, t, GiveBack(t))
    ensures CanDo(m2, GiveBack(t)) && m2.sys.sem.count < m2.sys.sem.max && m3 == Do(m2, GiveBack(t))
    ensures MutexInv(m3) && m3.owns == {} && m3.sys.sem.count == 1 && m3.holder == NOBODY
    ensures t in m3.pc && m3.pc[t] == Idle
  {
    hide Inv;
    OneOwner(m, t);
    m1 := Do(m, CallUnlock(t));
    LocalStep(m, CallUnlock(t));
    m2 := Do(m1, ClearHolder(t));
    LocalStep(m1, ClearHolder(t));
    m3 := Do(m2, GiveBack(t));
    GiveBackStep(m2, t);
  }

  /** If threads wait, giving back wakes the first of them, which can then pass. */
  lemma UnlockWakes(m: Mutex, t: Tid)
    requires MutexInv(m) && CanDo(m, GiveBack(t)) && m.sys.sem.waiters != [] && m.sys.sem.waiters[0].thread != NOBODY
    ensures m.sys.sem.count < m.sys.sem.max
    ensures var w, m' := m.sys.sem.waiters[0].thread, Do(m, GiveBack(t));
      w in m'.sys.phase && m'.sys.phase[w].Awake? && CanDo(m', Pass(w, true)) && m'.owns == {}
  {
    OneOwner(m, t);
    var ws := m.sys.sem.waiters;
    var w := ws[0].thread;
    WaitersUniform(m.sys, 1);
    assert Listed(m.sys, ws[0]) && ws[0].count == 1;
    UniformWoken(ws, 1, 1);
    FittingMost(1, 1, |ws|);
    FirstThread(ws[..1]);
    GiveBackStep(m, t);
    assert PcOk(m, w);
  }

  /** Steps of other threads do not get in between: t stays where it is, an owner or not, and of
      what an owner has nothing changes. */
  lemma OthersKeepOff(m: Mutex, a: Act, t: Tid)
    requires MutexInv(m) && CanDo(m, a) && a.t != t && t in m.pc
    requires a.GiveBack? ==> m.sys.sem.count < m.sys.sem.max
    requires a.TryLock? ==> Enabled(m.sys, Down(a.t, 1, true, false))
    ensures var m' := Do(m, a);
      && MutexInv(m') && t in m'.pc && m'.pc[t] == m.pc[t] && (t in m'.owns <==> t in m.owns)
      && (t in m.owns ==> m'.holder == m.holder && m'.sys.sem.count == m.sys.sem.count)
  {
    MutexStep(m, a);
    hide Inv;
    var m' := Do(m, a);
    if t in m.owns {
      OneOwner(m, t);
      OneOwner(m', t);
    }
  }

  /** A free mutex goes to the next thread that tries or passes. */
  lemma FreeIsTaken(m: Mutex, t: Tid, a: Act)
    requires MutexInv(m) && m.owns == {} && CanDo(m, a)
             && (a == TryLock(t) || a == Pass(t, true) || a == Pass(t, false))
    requires a.TryLock? ==> Enabled(m.sys, Down(t, 1, true, false))
    ensures var m1 := Do(m, a);
      && MutexInv(m1) && m1.owns == {t} && OnlyStep(m1, t, SetHolder(t)) && CanDo(m1, SetHolder(t))
      && var m2 := Do(m1, SetHolder(t));
         MutexInv(m2) && m2.holder == t && m2.owns == {t} && m2.pc[t] == Idle && m2.sys.sem.count == 0
  {
    MutexStep(m, a);
    hide Inv;
    LocalStep(Do(m, a), SetHolder(t));
  }

  /** An outside thread may always try, and takes a mutex that is free. */
  lemma MayTry(m: Mutex, t: Tid)
    requires MutexInv(m) && t != NOBODY && t in m.pc && m.pc[t] == Idle
    ensures CanDo(m, TryLock(t)) && Enabled(m.sys, Down(t, 1, true, false))
    ensures m.owns != {} ==> Do(m, TryLock(t)).owns == m.owns && Do(m, TryLock(t)).pc == m.pc
  {
    hide Inv;
    assert m.pc[t := Idle] == m.pc;
  }

  /** Unlocking what one does not own changes nothing. */
  lemma OthersCannotUnlock(m: Mutex, t: Tid)
    requires MutexInv(m) && t != NOBODY && t in m.pc && m.pc[t] == Idle && t !in m.owns
    ensures CanDo(m, CallUnlock(t)) && Do(m, CallUnlock(t)) == m
  {
  }

  /** How often thread t finished locking, and unlocking. */
  function Locks(acts: seq<Act>, t: Tid): nat
  {
    if acts == [] then 0 else Locks(acts[1..], t) + if acts[0] == SetHolder(t) then 1 else 0
  }

  function Unlocks(acts: seq<Act>, t: Tid): nat
  {
    if acts == [] then 0 else Unlocks(acts[1..], t) + if acts[0] == GiveBack(t) then 1 else 0
  }

  ghost function Has(m: Mutex, t: Tid): int
    requires t in m.pc
  {
    if t in m.owns && m.pc[t] != Got then 1 else 0
  }

  lemma HasStep(m: Mutex, a: Act, t: Tid)
    requires MutexInv(m) && CanDo(m, a) && t in m.pc
    requires a.GiveBack? ==> m.sys.sem.count < m.sys.sem.max
    requires a.TryLock? ==> Enabled(m.sys, Down(a.t, 1, true, false))
    ensures t in Do(m, a).pc
    ensures Has(Do(m, a), t) == Has(m, t) + (if a == SetHolder(t) then 1 else 0) - (if a == GiveBack(t) then 1 else 0)
  {
    hide Inv;
    if t in m.owns {
      OneOwner(m, t);
    }
  }

  /** In every run a thread has the mutex once for each lock it finished, less its unlocks. */
  lemma {:induction false} LocksLessUnlocks(m: Mutex, acts: seq<Act>, m': Mutex, t: Tid)
    requires MutexInv(m) && MutexRun(m, acts, m') && t in m.pc
    ensures t in m'.pc && Has(m', t) == Has(m, t) + Locks(acts, t) - Unlocks(acts, t)
    decreases |acts|
  {
    if acts != [] {
      HasStep(m, acts[0], t);
      MutexStep(m, acts[0]);
      hide MutexInv, CanDo, Do, Has;
      LocksLessUnlocks(Do(m, acts[0]), acts[1..], m', t);
    }
  }

  // ---- recursive mutexes

  /** RTest: the try failed and the holder field is to be compared. RWait: in sem_down. RSet,
      RZero, RInc: the holder field, then the depth, are to be set; then the depth counted
      up. RDec, RClear, RUp: the same on the way out. */
  datatype RPc = RIdle | RTest(try: bool) | RWait | RSet | RZero | RInc | RDec | RClear | RUp

  /** depth is a ghost: for each thread, completed locks less completed unlocks. */
  datatype RMutex = RMutex(sys: Sys, holder: Tid, recurs: int, pc: map<Tid, RPc>, owns: set<Tid>, depth: map<Tid, nat>)

  datatype RAct =
    | RTry(t: Tid, only: bool)
    | RCompare(t: Tid)
    | RPass(t: Tid, mayWait: bool)
    | RSetHolder(t: Tid)
    | RSetZero(t: Tid)
    | RCount(t: Tid)
    | RCallUnlock(t: Tid)
    | RCountDown(t: Tid)
    | RClearHolder(t: Tid)
    | RGiveBack(t: Tid)

  ghost predicate RCanDo(m: RMutex, a: RAct)
  {
    && a.t != NOBODY && a.t in m.pc && a.t in m.sys.phase && a.t in m.depth
    && match a
       case RTry(t, _) => m.pc[t] == RIdle && Enabled(m.sys, Down(t, 1, true, false))
       case RCompare(t) => m.pc[t].RTest?
       case RPass(t, mayWait) => m.pc[t] == RWait && Enabled(m.sys, Down(t, 1, false, mayWait))
       case RSetHolder(t) => m.pc[t] == RSet
       case RSetZero(t) => m.pc[t] == RZero
       case RCount(t) => m.pc[t] == RInc
       case RCallUnlock(t) => m.pc[t] == RIdle
       case RCountDown(t) => m.pc[t] == RDec && m.depth[t] > 0
       case RClearHolder(t) => m.pc[t] == RClear
       case RGiveBack(t) => m.pc[t] == RUp && m.sys.sem.count < m.sys.sem.max
  }

  ghost function RTook(m: RMutex, t: Tid, try: bool, mayWait: bool, failed: RPc): RMutex
    requires Enabled(m.sys, Down(t, 1, try, mayWait))
  {
    var sys := Next(m.sys, Down(t, 1, try, mayWait));
    if m.sys.sem.count >= 1 then m.(sys := sys, pc := m.pc[t := RSet], owns := m.owns + {t})
    else m.(sys := sys, pc := m.pc[t := failed])
  }

  ghost function RDo(m: RMutex, a: RAct): RMutex
    requires RCanDo(m, a)
  {
    match a
    case RTry(t, only) => RTook(m, t, true, false, RTest(only))
    case RCompare(t) => m.(pc := m.pc[t := if m.holder == t then RInc else if m.pc[t].try then RIdle else RWait])
    case RPass(t, mayWait) => RTook(m, t, false, mayWait, RWait)
    case RSetHolder(t) => m.(holder := t, pc := m.pc[t := RZero])
    case RSetZero(t) => m.(recurs := 0, pc := m.pc[t := RInc])
    case RCount(t) => m.(recurs := m.recurs + 1, pc := m.pc[t := RIdle], depth := m.depth[t := m.depth[t] + 1])
    case RCallUnlock(t) => if m.holder != t then m else m.(pc := m.pc[t := RDec])
    case RCountDown(t) =>
      m.(recurs := m.recurs - 1, pc := m.pc[t := if m.recurs - 1 == 0 then RClear else RIdle],
          depth := m.depth[t := m.depth[t] - 1])
    case RClearHolder(t) => m.(holder := NOBODY, pc := m.pc[t := RUp])
    case RGiveBack(t) => m.(sys := Next(m.sys, Up(1)), pc := m.pc[t := RIdle], owns := m.owns - {t})
  }

  ghost predicate RInv(m: RMutex)
  {
    && Inv(m.sys, 1) && m.sys.sem.max == 1 && m.sys.sem.count + |m.owns| == 1
    && m.sys.phase.Keys == m.pc.Keys && m.depth.Keys == m.pc.Keys && m.owns <= m.pc.Keys
    && (m.holder == NOBODY || m.holder in m.owns)
    && (forall t :: t in m.pc ==> if t in m.owns then OwnerOk(m, t) else OtherOk(m, t))
  }

  /** The owner: holder names it but while being set or cleared, and recurs is its depth but
      while being zeroed. */
  ghost predicate OwnerOk(m: RMutex, t: Tid)
    requires t in m.pc && m.sys.phase.Keys == m.pc.Keys && m.depth.Keys == m.pc.Keys
  {
    && t != NOBODY && m.sys.phase[t] == Out && m.pc[t] != RWait
    && (m.holder == t <==> m.pc[t] !in {RSet, RUp})
    && (m.pc[t] in {RSet, RZero} ==> m.depth[t] == 0)
    && (m.pc[t] !in {RSet, RZero} ==> m.recurs == m.depth[t])
    && (m.pc[t] == RIdle || m.pc[t].RTest? || m.pc[t] == RDec ==> m.depth[t] > 0)
    && (m.pc[t] in {RClear, RUp} ==> m.depth[t] == 0)
  }

  /** Another thread: outside, or on its way in. */
  ghost predicate OtherOk(m: RMutex, t: Tid)
    requires t in m.pc && m.sys.phase.Keys == m.pc.Keys && m.depth.Keys == m.pc.Keys
  {
    (m.pc[t] == RIdle || m.pc[t] == RWait || m.pc[t].RTest?) && m.depth[t] == 0
        && (m.sys.phase[t] != Out ==> m.pc[t] == RWait)
  }

  lemma ROneOwner(m: RMutex, t: Tid)
    requires RInv(m) && t in m.owns
    ensures m.owns == {t} && m.sys.sem.count == 0
  {
    assert m.owns == {t} + (m.owns - {t});
  }

  /** The enabling conditions on the semaphore and the ghost depth never hold a thread up. */
  lemma RNeverStuck(m: RMutex, t: Tid)
    requires RInv(m) && t in m.pc && t != NOBODY
    ensures m.pc[t] == RIdle ==> RCanDo(m, RTry(t, false))
    ensures m.pc[t] == RDec ==> RCanDo(m, RCountDown(t))
    ensures m.pc[t] == RUp ==> RCanDo(m, RGiveBack(t))
  {
    if t in m.owns {
      ROneOwner(m, t);
    }
  }

  lemma RLocalStep(m: RMutex, a: RAct)
    requires RInv(m) && RCanDo(m, a) && !a.RTry? && !a.RPass? && !a.RGiveBack?
    ensures RInv(RDo(m, a))
  {
    hide Inv;
    if a.t in m.owns {
      ROneOwner(m, a.t);
    }
  }

  /** The count was there: nobody owned the mutex, and now t does. */
  lemma RTaken(m: RMutex, t: Tid, sys: Sys)
    requires RInv(m) && t != NOBODY && t in m.pc && m.sys.sem.count == 1
    requires Inv(sys, 1) && sys.sem.max == 1 && sys.sem.count == 0 && sys.phase == m.sys.phase[t := Out]
    ensures RInv(m.(sys := sys, pc := m.pc[t := RSet], owns := m.owns + {t}))
  {
    hide Inv;
    assert m.owns == {};
  }

  /** It was not. */
  lemma RMissed(m: RMutex, t: Tid, sys: Sys, failed: RPc)
    requires RInv(m) && t in m.pc && Inv(sys, 1) && sys.sem.max == 1 && sys.sem.count == m.sys.sem.count
    requires t in sys.phase && sys.phase == m.sys.phase[t := sys.phase[t]]
    requires (m.pc[t] == RIdle && failed.RTest? && sys.phase[t] == Out) || (m.pc[t] == RWait && failed == RWait)
    ensures RInv(m.(sys := sys, pc := m.pc[t := failed]))
  {
    hide Inv;
    if t in m.owns {
      ROneOwner(m, t);
    }
  }

  lemma RTookStep(m: RMutex, t: Tid, try: bool, mayWait: bool, failed: RPc)
    requires RInv(m) && t != NOBODY && t in m.pc && Enabled(m.sys, Down(t, 1, try, mayWait))
    requires (try && m.pc[t] == RIdle && failed.RTest?) || (!try && m.pc[t] == RWait && failed == RWait)
    ensures RInv(RTook(m, t, try, mayWait, failed))
  {
    hide Inv, Next, OwnerOk, OtherOk;
    StepKeeps(m.sys, Down(t, 1, try, mayWait), 1);
    DownEffect(m.sys, t, 1, try, mayWait);
    var sys := Next(m.sys, Down(t, 1, try, mayWait));
    if m.sys.sem.count >= 1 {
      RTaken(m, t, sys);
    } else {
      RMissed(m, t, sys, failed);
    }
  }

  lemma RGiveBackStep(m: RMutex, t: Tid)
    requires RInv(m) && RCanDo(m, RGiveBack(t))
    ensures RInv(RDo(m, RGiveBack(t)))
  {
    hide Inv;
    ROneOwner(m, t);
    StepKeeps(m.sys, Up(1), 1);
    UpPhases(m.sys, 1);
    assert m.owns - {t} == {};
  }

  lemma RTryStep(m: RMutex, t: Tid, only: bool)
    requires RInv(m) && RCanDo(m, RTry(t, only))
    ensures RInv(RDo(m, RTry(t, only)))
  {
    hide Inv, Next;
    RTookStep(m, t, true, false, RTest(only));
  }

  lemma RPassStep(m: RMutex, t: Tid, mayWait: bool)
    requires RInv(m) && RCanDo(m, RPass(t, mayWait))
    ensures RInv(RDo(m, RPass(t, mayWait)))
  {
    hide Inv, Next;
    RTookStep(m, t, false, mayWait, RWait);
  }

  lemma RStep(m: RMutex, a: RAct)
    requires RInv(m) && RCanDo(m, a)
    ensures RInv(RDo(m, a))
  {
    hide RInv;
    match a
    case RTry(t, only) => RTryStep(m, t, only);
    case RPass(t, mayWait) => RPassStep(m, t, mayWait);
    case RGiveBack(t) => RGiveBackStep(m, t);
    case _ => RLocalStep(m, a);
  }

  ghost predicate RRun(m: RMutex, acts: seq<RAct>, m': RMutex)
    decreases |acts|
  {
    if acts == [] then m' == m else RCanDo(m, acts[0]) && RRun(RDo(m, acts[0]), acts[1..], m')
  }

  /** In every run: at most one owner; a thread whose calls have all returned holds the mutex
      iff its depth is positive, and then recurs is that depth and the holder field its id;
      no one else sees its own id there. */
  lemma {:induction false} RecursiveExclusion(m: RMutex, acts: seq<RAct>, m': RMutex)
    requires RInv(m) && RRun(m, acts, m')
    ensures RInv(m') && forall t, u :: t in m'.owns && u in m'.owns ==> t == u
    ensures forall t :: t in m'.pc && t != NOBODY && m'.pc[t] == RIdle ==>
              (t in m'.owns <==> m'.depth[t] > 0) && (m'.holder == t <==> m'.depth[t] > 0)
                  && (m'.depth[t] > 0 ==> m'.recurs == m'.depth[t])
    decreases |acts|
  {
    if acts == [] {
      forall t, u | t in m.owns && u in m.owns ensures t == u {
        ROneOwner(m, t);
      }
    } else {
      RStep(m, acts[0]);
      RecursiveExclusion(RDo(m, acts[0]), acts[1..], m');
    }
  }

  /** An owner that locks again never waits. */
  lemma OwnerNeverWaits(m: RMutex, t: Tid)
    requires RInv(m) && t in m.pc && t in m.owns
    ensures m.pc[t] != RWait && m.sys.phase[t] == Out
    ensures m.pc[t].RTest? && RCanDo(m, RCompare(t)) ==> RDo(m, RCompare(t)).pc[t] == RInc
  {
  }

  /** rmutex_create. */
  lemma RMutexCreated(ts: set<Tid>)
    ensures RInv(RMutex(Sys(Sem(1, 1, []), map t | t in ts :: Out), NOBODY, 0, map t | t in ts :: RIdle, {},
            map t | t in ts :: 0))
  {
  }

  /** Thread t has no choice but this step, which leads to m'. */
  ghost predicate RForced(m: RMutex, t: Tid, next: RAct, m': RMutex)
  {
    RCanDo(m, next) && (forall a: RAct :: a.t == t ==> (RCanDo(m, a) <==> a == next)) && m' == RDo(m, next)
  }

  /** Between the first step of a call and its end, but for the wait, there is one step to take. */
  lemma RForcedStep(m: RMutex, a: RAct) returns (m': RMutex)
    requires RInv(m) && RCanDo(m, a) && m.pc[a.t] != RIdle && m.pc[a.t] != RWait
    ensures RForced(m, a.t, a, m') && RInv(m')
  {
    hide RInv, Inv;
    m' := RDo(m, a);
    RStep(m, a);
  }

  /** An owner that unlocks gives up one level, with no other choice on the way. */
  lemma RUnlockLevel(m: RMutex, t: Tid) returns (m1: RMutex, m2: RMutex)
    requires RInv(m) && t in m.owns && t in m.pc && m.pc[t] == RIdle && t in m.depth
    ensures RCanDo(m, RCallUnlock(t)) && m1 == RDo(m, RCallUnlock(t)) && RForced(m1, t, RCountDown(t), m2) && RInv(m2)
    ensures m.depth[t] > 0 && m2 == m.(recurs := m.recurs - 1, depth := m.depth[t := m.depth[t] - 1],
                                       pc := m.pc[t := if m.depth[t] == 1 then RClear else RIdle])
  {
    hide Inv, RForced;
    m1 := RDo(m, RCallUnlock(t));
    RLocalStep(m, RCallUnlock(t));
    m2 := RForcedStep(m1, RCountDown(t));
    ForcedIs(m1, t, RCountDown(t), m2);
    assert m1.pc[t := RIdle] == m.pc[t := RIdle] && m1.pc[t := RClear] == m.pc[t := RClear];
  }

  lemma ForcedIs(m: RMutex, t: Tid, a: RAct, m': RMutex)
    requires RForced(m, t, a, m')
    ensures RCanDo(m, a) && m' == RDo(m, a)
  {
  }

  /** After the last level it clears the holder field and gives the count back, and the mutex is
      free. */
  lemma RUnlockFrees(m: RMutex, t: Tid) returns (m1: RMutex, m2: RMutex)
    requires RInv(m) && t in m.owns && t in m.pc && m.pc[t] == RClear && t in m.depth
    ensures RForced(m, t, RClearHolder(t), m1) && RForced(m1, t, RGiveBack(t), m2)
    ensures RInv(m2) && m2.owns == {} && m2.holder == NOBODY && m2.sys.sem.count == 1
    ensures t in m2.pc && m2.pc[t] == RIdle && t in m2.depth && m2.depth[t] == 0
  {
    hide Inv, RForced;
    ROneOwner(m, t);
    m1 := RForcedStep(m, RClearHolder(t));
    ForcedIs(m, t, RClearHolder(t), m1);
    m2 := RForcedStep(m1, RGiveBack(t));
    ForcedIs(m1, t, RGiveBack(t), m2);
  }

  /** Unlocking what one does not own changes nothing. */
  lemma ROthersCannotUnlock(m: RMutex, t: Tid)
    requires RInv(m) && t != NOBODY && t in m.pc && t in m.depth && m.pc[t] == RIdle && t !in m.owns
    ensures RCanDo(m, RCallUnlock(t)) && RDo(m, RCallUnlock(t)) == m
  {
  }

  /** An owner that locks again is one level deeper. */
  lemma RLockAgain(m: RMutex, t: Tid, only: bool) returns (m1: RMutex, m2: RMutex, m3: RMutex)
    requires RInv(m) && t in m.owns && t in m.pc && m.pc[t] == RIdle && t in m.depth
    ensures RCanDo(m, RTry(t, only)) && m1 == RDo(m, RTry(t, only))
    ensures RForced(m1, t, RCompare(t), m2) && RForced(m2, t, RCount(t), m3)
    ensures RInv(m3) && m3.owns == m.owns && m3.holder == m.holder && m3.recurs == m.recurs + 1
    ensures t in m3.pc && m3.pc[t] == RIdle && m3.depth == m.depth[t := m.depth[t] + 1]
  {
    hide Inv, RForced;
    ROneOwner(m, t);
    RNeverStuck(m, t);
    DownEffect(m.sys, t, 1, true, false);
    m1 := RDo(m, RTry(t, only));
    RTryStep(m, t, only);
    hide RInv;
    m2 := RForcedStep(m1, RCompare(t));
    ForcedIs(m1, t, RCompare(t), m2);
    assert m2.pc[t] == RInc by { HolderKnown(m, t); }
    m3 := RForcedStep(m2, RCount(t));
    ForcedIs(m2, t, RCount(t), m3);
  }

  lemma HolderKnown(m: RMutex, t: Tid)
    requires RInv(m) && t in m.owns && t in m.pc && m.pc[t] == RIdle
    ensures m.holder == t
  {
  }

  /** A free recursive mutex goes to the next thread that tries, one level deep. */
  lemma RFreeIsTaken(m: RMutex, t: Tid, only: bool) returns (m1: RMutex, m2: RMutex, m3: RMutex, m4: RMutex)
    requires RInv(m) && m.owns == {} && t != NOBODY && t in m.pc && m.pc[t] == RIdle && t in m.depth
    ensures RCanDo(m, RTry(t, only)) && m1 == RDo(m, RTry(t, only))
    ensures RForced(m1, t, RSetHolder(t), m2) && RForced(m2, t, RSetZero(t), m3) && RForced(m3, t, RCount(t), m4)
    ensures RInv(m4) && m4.owns == {t} && m4.holder == t && m4.recurs == 1 && m4.sys.sem.count == 0
    ensures t in m4.pc && m4.pc[t] == RIdle && t in m4.depth && m4.depth[t] == 1
  {
    hide Inv, RForced;
    RNeverStuck(m, t);
    DownEffect(m.sys, t, 1, true, false);
    assert m.sys.sem.count == 1 && m.depth[t] == 0;
    m1 := RDo(m, RTry(t, only));
    RTryStep(m, t, only);
    hide RInv;
    m2 := RForcedStep(m1, RSetHolder(t));
    ForcedIs(m1, t, RSetHolder(t), m2);
    m3 := RForcedStep(m2, RSetZero(t));
    ForcedIs(m2, t, RSetZero(t), m3);
    m4 := RForcedStep(m3, RCount(t));
    ForcedIs(m3, t, RCount(t), m4);
  }
}
