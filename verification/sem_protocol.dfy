/** Threads using one semaphore, as interleaved atomic steps (sem.c). A step is one lock-held
    region: a pass of the acquire loop, or an increase. */
module SemProtocol {
  import opened Semaphores

  /** Where a thread is in sem_down with a request of n: not in it; in the waiters list; taken
      off the list and about to try again; or about to try again without having been listed. */
  datatype Phase = Out | Queued(n: nat) | Awake(n: nat) | Passing(n: nat)

  datatype Sys = Sys(sem: Sem, phase: map<Tid, Phase>)

  datatype Action = Down(t: Tid, n: nat, try: bool, mayWait: bool) | Up(n: nat)

  /** A thread in the waiters list does not run, and one on its way tries for the same count
      again. Requests for nothing or for more than the maximum are answered at once. */
  ghost predicate Enabled(s: Sys, a: Action)
  {
    match a
    case Down(t, n, try, _) =>
      && t in s.phase && 1 <= n <= s.sem.max && !s.phase[t].Queued?
      && (s.phase[t] != Out ==> s.phase[t].n == n && !try)
    case Up(n) => n > 0 && s.sem.count + n <= s.sem.max
  }

  function PhaseAfter(a: Attempt, n: nat): Phase
  {
    match a
    case Acquired => Out
    case TryFailed => Out
    case Enqueued => Queued(n)
    case Deferred => Passing(n)
  }

  function Threads(ws: seq<Waiter>): set<Tid>
  {
    set i | 0 <= i < |ws| :: ws[i].thread
  }

  ghost function Next(s: Sys, a: Action): Sys
    requires Enabled(s, a)
  {
    match a
    case Down(t, n, try, mayWait) =>
      var (sem, r) := Attempted(s.sem, t, n, try, mayWait);
      Sys(sem, s.phase[t := PhaseAfter(r, n)])
    case Up(n) =>
      var c := s.sem.count + n;
      Sys(Sem(s.sem.max, c, Kept(s.sem.waiters, c)), Roused(s.phase, Threads(Woken(s.sem.waiters, c))))
  }

  ghost function Roused(phase: map<Tid, Phase>, ts: set<Tid>): map<Tid, Phase>
  {
    map t | t in phase :: if t in ts && phase[t] != Out then Awake(phase[t].n) else phase[t]
  }

  ghost function AwakeSet(s: Sys): set<Tid>
  {
    set t | t in s.phase && s.phase[t].Awake?
  }

  ghost predicate Distinct(ws: seq<Waiter>)
  {
    forall i, j :: 0 <= i < j < |ws| ==> ws[i].thread != ws[j].thread
  }

  /** The waiters list holds exactly the queued threads, once each, with their requests. */
  ghost predicate WellFormed(s: Sys)
  {
    && s.sem.count <= s.sem.max && Distinct(s.sem.waiters)
    && (forall t :: t in s.phase && s.phase[t].Queued? <==> t in Threads(s.sem.waiters))
    && forall i :: 0 <= i < |s.sem.waiters| ==> Listed(s, s.sem.waiters[i])
  }

  ghost predicate Listed(s: Sys, w: Waiter)
  {
    w.thread in s.phase && s.phase[w.thread] == Queued(w.count)
  }

  /** All requests under way are of the given sizes. */
  ghost predicate Sized(s: Sys, sizes: set<nat>)
  {
    forall t :: t in s.phase && s.phase[t] != Out ==> s.phase[t].n in sizes
  }

  /** The action asks for one of the sizes, if for anything. */
  predicate Asks(a: Action, sizes: set<nat>)
  {
    a.Down? ==> a.n in sizes
  }

  // ---- the list and the threads

  lemma OneMore(ws: seq<Waiter>, t: Tid, n: nat)
    requires Distinct(ws) && t !in Threads(ws)
    ensures Threads(ws + [Waiter(t, n)]) == Threads(ws) + {t} && Distinct(ws + [Waiter(t, n)])
  {
    var ws' := ws + [Waiter(t, n)];
    assert ws'[|ws|].thread == t;
    forall x | x in Threads(ws) ensures x in Threads(ws') {
      var i :| 0 <= i < |ws| && ws[i].thread == x;
      assert ws'[i].thread == x;
    }
    assert forall i :: 0 <= i < |ws| ==> ws[i].thread in Threads(ws);
  }

  lemma DownForm(s: Sys, t: Tid, n: nat, try: bool, mayWait: bool, sizes: set<nat>)
    requires WellFormed(s) && Sized(s, sizes) && Enabled(s, Down(t, n, try, mayWait)) && n in sizes
    ensures WellFormed(Next(s, Down(t, n, try, mayWait))) && Sized(Next(s, Down(t, n, try, mayWait)), sizes)
  {
    hide Distinct, Threads;
    OneMore(s.sem.waiters, t, n);
    var s' := Next(s, Down(t, n, try, mayWait));
    forall i | 0 <= i < |s'.sem.waiters| ensures Listed(s', s'.sem.waiters[i]) {
      if i < |s.sem.waiters| {
        assert Listed(s, s.sem.waiters[i]);
      }
    }
  }

  /** An increase parts the waiters: each is woken or kept, with its request. */
  lemma {:induction false} Parted(ws: seq<Waiter>, c: nat)
    requires Distinct(ws)
    ensures Threads(Woken(ws, c)) + Threads(Kept(ws, c)) == Threads(ws)
    ensures Threads(Woken(ws, c)) !! Threads(Kept(ws, c)) && Distinct(Kept(ws, c)) && Distinct(Woken(ws, c))
    ensures forall w :: w in Woken(ws, c) || w in Kept(ws, c) ==> w in ws
  {
    if ws != [] {
      var left := if ws[0].count <= c then c - ws[0].count else c;
      var rest := ws[1..];
      assert Distinct(rest);
      Parted(rest, left);
      FirstThread(ws);
      var a, b := Woken(rest, left), Kept(rest, left);
      assert ws[0].thread !in Threads(rest) by {
        assert forall i :: 0 <= i < |rest| ==> rest[i] == ws[i + 1];
      }
      hide Threads, Distinct, Woken, Kept;
      if ws[0].count <= c {
        PutFirst(ws[0], a);
      } else {
        PutFirst(ws[0], b);
      }
      WokenUnfold(ws, c);
    }
  }

  lemma WokenUnfold(ws: seq<Waiter>, c: nat)
    requires ws != []
    ensures if ws[0].count <= c then
              Woken(ws, c) == [ws[0]] + Woken(ws[1..], c - ws[0].count) && Kept(ws, c) == Kept(ws[1..], c - ws[0].count)
            else Woken(ws, c) == Woken(ws[1..], c) && Kept(ws, c) == [ws[0]] + Kept(ws[1..], c)
  {
  }

  lemma FirstThread(ws: seq<Waiter>)
    requires ws != []
    ensures Threads(ws) == {ws[0].thread} + Threads(ws[1..])
  {
    forall x | x in Threads(ws) ensures x in {ws[0].thread} + Threads(ws[1..]) {
      var i :| 0 <= i < |ws| && ws[i].thread == x;
      if i > 0 {
        assert ws[1..][i - 1].thread == x;
      }
    }
    forall x | x in Threads(ws[1..]) ensures x in Threads(ws) {
      var i :| 0 <= i < |ws[1..]| && ws[1..][i].thread == x;
      assert ws[i + 1].thread == x;
    }
  }

  lemma PutFirst(w: Waiter, ws: seq<Waiter>)
    requires Distinct(ws) && w.thread !in Threads(ws)
    ensures Distinct([w] + ws) && Threads([w] + ws) == {w.thread} + Threads(ws)
  {
    FirstThread([w] + ws);
    assert ([w] + ws)[1..] == ws;
    assert forall i :: 0 <= i < |ws| ==> ws[i].thread in Threads(ws);
  }

  lemma UpForm(s: Sys, n: nat, sizes: set<nat>)
    requires WellFormed(s) && Sized(s, sizes) && Enabled(s, Up(n))
    ensures WellFormed(Next(s, Up(n))) && Sized(Next(s, Up(n)), sizes)
    ensures Threads(Woken(s.sem.waiters, s.sem.count + n)) <= AwakeSet(Next(s, Up(n)))
  {
    hide Woken, Kept, Threads, Distinct;
    var s', ws, c := Next(s, Up(n)), s.sem.waiters, s.sem.count + n;
    Parted(ws, c);
    forall i | 0 <= i < |s'.sem.waiters| ensures Listed(s', s'.sem.waiters[i]) {
      var w := s'.sem.waiters[i];
      assert w in Kept(ws, c) && w in ws;
      var j :| 0 <= j < |ws| && ws[j] == w;
      assert Listed(s, ws[j]);
      ThreadIn(s'.sem.waiters, i);
    }
    forall t | t in Threads(Woken(ws, c)) ensures t in AwakeSet(s') {
      assert t in Threads(ws);
    }
  }

  lemma ThreadIn(ws: seq<Waiter>, i: nat)
    requires i < |ws|
    ensures ws[i].thread in Threads(ws)
  {
  }

  // ---- requests of one size

  /** Whenever the list holds any waiters, the count is less than one request more than the
      woken threads yet to try again will ask for: nobody waits for a count that no one is
      coming for. */
  ghost predicate Inv(s: Sys, k: nat)
  {
    && k >= 1 && WellFormed(s) && Sized(s, {k})
    && (s.sem.waiters != [] ==> s.sem.count < Times(k, |AwakeSet(s)| + 1))
  }

  lemma {:induction false} TimesMono(k: nat, a: nat, b: nat)
    requires a <= b
    ensures Times(k, a) <= Times(k, b)
    decreases b
  {
    if a < b {
      TimesMono(k, a, b - 1);
    }
  }

  /** A request is at most that of one thread more, and one thread less asks for one less. */
  lemma OneRequest(k: nat, a: nat, b: nat)
    requires a <= b <= a + 1
    ensures k <= Times(k, a + 1)
    ensures Times(k, b + 1) <= Times(k, a + 1) + k && (a == b ==> Times(k, b + 1) == Times(k, a + 1))
  {
    TimesMono(k, 1, a + 1);
  }

  lemma DownKeeps(s: Sys, t: Tid, k: nat, try: bool, mayWait: bool)
    requires Inv(s, k) && Enabled(s, Down(t, k, try, mayWait))
    ensures Inv(Next(s, Down(t, k, try, mayWait)), k)
  {
    hide WellFormed, Sized, Times;
    var s' := Next(s, Down(t, k, try, mayWait));
    DownForm(s, t, k, try, mayWait, {k});
    assert AwakeSet(s') == AwakeSet(s) - {t};
    OneRequest(k, |AwakeSet(s')|, |AwakeSet(s)|);
  }

  /** Uniform requests: the waiters ask for what their threads asked for. */
  lemma WaitersUniform(s: Sys, k: nat)
    requires WellFormed(s) && Sized(s, {k})
    ensures Uniform(s.sem.waiters, k)
  {
    forall i | 0 <= i < |s.sem.waiters| ensures s.sem.waiters[i].count == k {
      assert Listed(s, s.sem.waiters[i]);
    }
  }

  lemma UpKeeps(s: Sys, n: nat, k: nat)
    requires Inv(s, k) && Enabled(s, Up(n))
    ensures Inv(Next(s, Up(n)), k)
  {
    hide Woken, Kept, WellFormed, Sized, Threads, Times, Fitting;
    var s', ws, c := Next(s, Up(n)), s.sem.waiters, s.sem.count + n;
    var j := Fitting(c, k, |ws|);
    UpForm(s, n, {k});
    WaitersUniform(s, k);
    UniformWoken(ws, c, k);
    FittingMost(c, k, |ws|);
    WaitersApart(s);
    CountThreads(ws, j);
    SubsetCount(Threads(ws[..j]), AwakeSet(s'));
    TimesMono(k, j + 1, |AwakeSet(s')| + 1);
  }

  lemma WaitersApart(s: Sys)
    requires WellFormed(s)
    ensures Distinct(s.sem.waiters)
  {
  }

  lemma {:induction false} CountThreads(ws: seq<Waiter>, k: nat)
    requires k <= |ws| && Distinct(ws)
    ensures |Threads(ws[..k])| == k
  {
    if k > 0 {
      CountThreads(ws, k - 1);
      var x := ws[k - 1].thread;
      assert Threads(ws[..k]) == Threads(ws[..k - 1]) + {x} by {
        assert ws[..k][k - 1].thread == x;
        forall y | y in Threads(ws[..k - 1]) ensures y in Threads(ws[..k]) {
          var i :| 0 <= i < k - 1 && ws[i].thread == y;
          assert ws[..k][i].thread == y;
        }
      }
      assert x !in Threads(ws[..k - 1]);
    }
  }

  lemma {:induction false} SubsetCount(a: set<Tid>, b: set<Tid>)
    requires a <= b
    ensures |a| <= |b|
  {
    if a != {} {
      var x :| x in a;
      SubsetCount(a - {x}, b - {x});
    }
  }

  /** What one pass of the acquire loop does to the count and to the thread. */
  lemma DownEffect(s: Sys, t: Tid, n: nat, try: bool, mayWait: bool)
    requires Enabled(s, Down(t, n, try, mayWait))
    ensures var s' := Next(s, Down(t, n, try, mayWait));
            && s'.sem.max == s.sem.max && s'.phase == s.phase[t := s'.phase[t]]
            && s'.sem.count == (if s.sem.count >= n then s.sem.count - n else s.sem.count)
            && (s.sem.count >= n || try ==> s'.phase[t] == Out)
  {
  }

  /** An increase disturbs no thread that is outside. */
  lemma UpPhases(s: Sys, n: nat)
    requires Enabled(s, Up(n))
    ensures var s' := Next(s, Up(n));
            s'.phase.Keys == s.phase.Keys && forall t :: t in s.phase && s'.phase[t] != Out ==> s.phase[t] != Out
  {
  }

  lemma StepKeeps(s: Sys, a: Action, k: nat)
    requires Inv(s, k) && Enabled(s, a) && Asks(a, {k})
    ensures Inv(Next(s, a), k)
  {
    match a
    case Down(t, n, try, mayWait) => DownKeeps(s, t, n, try, mayWait);
    case Up(n) => UpKeeps(s, n, k);
  }

  // ---- runs

  /** A run: each action is enabled where it happens. */
  ghost predicate Run(s: Sys, acts: seq<Action>, s': Sys)
    decreases |acts|
  {
    if acts == [] then s' == s else Enabled(s, acts[0]) && Run(Next(s, acts[0]), acts[1..], s')
  }

  /** The run asks only for the given sizes. */
  ghost predicate AsksFor(acts: seq<Action>, sizes: set<nat>)
  {
    forall i :: 0 <= i < |acts| ==> Asks(acts[i], sizes)
  }

  /** A waiter's request fits the count, and no thread is on its way to take it. */
  ghost predicate Stranded(s: Sys)
  {
    AwakeSet(s) == {} && SomeFits(s)
  }

  ghost predicate SomeFits(s: Sys)
  {
    exists i :: 0 <= i < |s.sem.waiters| && s.sem.waiters[i].count <= s.sem.count
  }

  /** No waiter is stranded, in any run with requests of one size from a new semaphore. */
  lemma {:induction false} NeverStranded(s: Sys, acts: seq<Action>, s': Sys, k: nat)
    requires Inv(s, k) && Run(s, acts, s') && AsksFor(acts, {k})
    ensures Inv(s', k) && (s'.sem.waiters != [] ==> s'.sem.count < k * (|AwakeSet(s')| + 1)) && !Stranded(s')
    decreases |acts|
  {
    TimesIs(k, |AwakeSet(s')| + 1);
    if acts != [] {
      StepKeeps(s, acts[0], k);
      NeverStranded(Next(s, acts[0]), acts[1..], s', k);
    } else {
      QuietMeansShort(s, k);
    }
  }

  lemma Initially(max: nat, init: nat, ts: set<Tid>, k: nat)
    requires init <= max && k >= 1
    ensures Inv(Sys(Sem(max, init, []), map t | t in ts :: Out), k)
  {
  }

  /** With nobody on the way, a nonempty list means a count too small for any waiter. */
  lemma QuietMeansShort(s: Sys, k: nat)
    requires Inv(s, k)
    ensures AwakeSet(s) == {} && s.sem.waiters != [] ==> s.sem.count < k
    ensures !Stranded(s)
  {
    hide WellFormed, Sized;
    WaitersUniform(s, k);
    if AwakeSet(s) == {} {
      assert Times(k, |AwakeSet(s)| + 1) == k + Times(k, 0);
    }
  }

  // ---- requests so large that no two of them fit

  /** Whenever a waiter's request fits the count, so does that of a woken thread. */
  ghost predicate LargeInv(s: Sys, sizes: set<nat>)
  {
    && WellFormed(s) && Sized(s, sizes) && (forall k :: k in sizes ==> 2 * k > s.sem.max)
    && (SomeFits(s) ==> exists t :: Coming(s, t))
  }

  ghost predicate Coming(s: Sys, t: Tid)
  {
    t in s.phase && s.phase[t].Awake? && s.phase[t].n <= s.sem.count
  }

  lemma LargeDown(s: Sys, t: Tid, n: nat, try: bool, mayWait: bool, sizes: set<nat>)
    requires LargeInv(s, sizes) && Enabled(s, Down(t, n, try, mayWait)) && n in sizes
    ensures LargeInv(Next(s, Down(t, n, try, mayWait)), sizes)
  {
    var s' := Next(s, Down(t, n, try, mayWait));
    DownForm(s, t, n, try, mayWait, sizes);
    if s.sem.count >= n {
      forall i | 0 <= i < |s'.sem.waiters| ensures s'.sem.waiters[i].count > s'.sem.count {
        assert Listed(s', s'.sem.waiters[i]);
      }
    } else if SomeFits(s') {
      var i :| 0 <= i < |s'.sem.waiters| && s'.sem.waiters[i].count <= s'.sem.count;
      assert i < |s.sem.waiters| && s.sem.waiters[i].count <= s.sem.count;
      var x :| Coming(s, x);
      assert Coming(s', x);
    }
  }

  lemma LargeUp(s: Sys, n: nat, sizes: set<nat>)
    requires LargeInv(s, sizes) && Enabled(s, Up(n))
    ensures LargeInv(Next(s, Up(n)), sizes)
  {
    hide Threads, Woken, Kept, Distinct;
    var s', ws, c := Next(s, Up(n)), s.sem.waiters, s.sem.count + n;
    UpForm(s, n, sizes);
    Parted(ws, c);
    if SomeFits(s') {
      var i :| 0 <= i < |s'.sem.waiters| && s'.sem.waiters[i].count <= s'.sem.count;
      var w := SomeWoken(ws, c, Kept(ws, c)[i]);
      var j :| 0 <= j < |ws| && ws[j] == w;
      assert Listed(s, ws[j]);
      assert Coming(s', w.thread);
    }
  }

  /** When a kept request would have fitted the whole count, some other has been woken. */
  lemma SomeWoken(ws: seq<Waiter>, c: nat, kept: Waiter) returns (w: Waiter)
    requires kept in Kept(ws, c) && kept.count <= c
    ensures w in Woken(ws, c) && w in ws && w.count <= c && w.thread in Threads(Woken(ws, c))
  {
    KeptDoNotFit(ws, c);
    var a := Woken(ws, c);
    assert a != [];
    w := a[0];
    FirstWoken(ws, c);
  }

  lemma {:induction false} FirstWoken(ws: seq<Waiter>, c: nat)
    requires Woken(ws, c) != []
    ensures Woken(ws, c)[0] in ws && Woken(ws, c)[0].count <= c
  {
    if ws[0].count > c {
      FirstWoken(ws[1..], c);
    }
  }

  /** Nor does any waiter strand when no two requests fit the semaphore together. */
  lemma {:induction false} LargeNeverStranded(s: Sys, acts: seq<Action>, s': Sys, sizes: set<nat>)
    requires LargeInv(s, sizes) && Run(s, acts, s') && AsksFor(acts, sizes)
    ensures LargeInv(s', sizes) && !Stranded(s')
    decreases |acts|
  {
    if acts != [] {
      var a := acts[0];
      assert Asks(a, sizes);
      match a {
        case Down(t, n, try, mayWait) => LargeDown(s, t, n, try, mayWait, sizes);
        case Up(n) => LargeUp(s, n, sizes);
      }
      LargeNeverStranded(Next(s, a), acts[1..], s', sizes);
    } else if SomeFits(s) {
      var x :| Coming(s, x);
      assert x in AwakeSet(s);
    }
  }

  // ---- what comes in and goes out

  /** The count that the run's acquires took, and that its increases brought. */
  ghost function Taken(s: Sys, acts: seq<Action>): nat
    decreases |acts|
  {
    if acts == [] || !Enabled(s, acts[0]) then 0
    else Taken(Next(s, acts[0]), acts[1..]) + if acts[0].Down? && s.sem.count >= acts[0].n then acts[0].n else 0
  }

  function Given(acts: seq<Action>): nat
  {
    if acts == [] then 0 else Given(acts[1..]) + if acts[0].Up? then acts[0].n else 0
  }

  /** Nothing of the count is lost or made up, over any run. */
  lemma {:induction false} CountConserved(s: Sys, acts: seq<Action>, s': Sys)
    requires Run(s, acts, s')
    ensures s'.sem.max == s.sem.max && s'.sem.count + Taken(s, acts) == s.sem.count + Given(acts)
    decreases |acts|
  {
    if acts != [] {
      hide Woken, Kept;
      CountConserved(Next(s, acts[0]), acts[1..], s');
    }
  }

  /** A thread that asks for no more than the count gets it, and one that asks for more does not:
      it gives up if it only tries, and else waits. */
  lemma DownGets(s: Sys, t: Tid, n: nat, try: bool, mayWait: bool)
    requires Enabled(s, Down(t, n, try, mayWait))
    ensures var s' := Next(s, Down(t, n, try, mayWait));
      && t in s'.phase
      && (n <= s.sem.count ==> s'.phase[t] == Out && s'.sem.count + n == s.sem.count && s'.sem.waiters == s.sem.waiters)
      && (n > s.sem.count ==> s'.sem.count == s.sem.count)
      && (n > s.sem.count && try ==> s'.phase[t] == Out && s'.sem.waiters == s.sem.waiters)
      && (n > s.sem.count && !try && mayWait ==>
         s'.phase[t] == Queued(n) && s'.sem.waiters == s.sem.waiters + [Waiter(t, n)])
  {
  }
}
