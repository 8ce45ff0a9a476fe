/** When threads that ask one semaphore for different counts can be left waiting for what is
    there (sem.c). */
module SemStranding {
  import opened Semaphores
  import opened SemProtocol

  /** A new semaphore, and the threads ts. */
  function Created(max: nat, init: nat, ts: set<Tid>): Sys
  {
    Sys(Sem(max, init, []), map t | t in ts :: Out)
  }

  // ---- two threads

  /** A waiter's request does not fit the count, or will not once a woken thread has taken its
      own. */
  ghost predicate Covered(s: Sys, w: Waiter)
  {
    w.count > s.sem.count || exists t :: Coming(s, t) && w.count > s.sem.count - s.phase[t].n
  }

  ghost predicate PairInv(s: Sys)
  {
    WellFormed(s) && |s.phase| <= 2 && forall i :: 0 <= i < |s.sem.waiters| ==> Covered(s, s.sem.waiters[i])
  }

  lemma OneOfTwo(s: Sys, x: Tid, y: Tid, z: Tid)
    requires |s.phase| <= 2 && x in s.phase && y in s.phase && z in s.phase && x != y
    ensures z == x || z == y
  {
    if z != x && z != y {
      SubsetCount({x, y, z}, s.phase.Keys);
      assert false;
    }
  }

  /** The requests under way and one more. */
  lemma SizesOf(s: Sys, n: nat) returns (sizes: set<nat>)
    ensures Sized(s, sizes) && n in sizes
  {
    sizes := (set t | t in s.phase && s.phase[t] != Out :: s.phase[t].n) + {n};
  }

  lemma {:induction false} PairDown(s: Sys, t: Tid, n: nat, try: bool, mayWait: bool)
    requires PairInv(s) && Enabled(s, Down(t, n, try, mayWait))
    ensures PairInv(Next(s, Down(t, n, try, mayWait)))
  {
    hide Threads, Distinct;
    var s' := Next(s, Down(t, n, try, mayWait));
    var sizes := SizesOf(s, n);
    DownForm(s, t, n, try, mayWait, sizes);
    assert s'.phase.Keys == s.phase.Keys;
    forall i | 0 <= i < |s'.sem.waiters| ensures Covered(s', s'.sem.waiters[i]) {
      if i < |s.sem.waiters| {
        var w := s.sem.waiters[i];
        assert Listed(s, w) && Covered(s, w);
        if w.count <= s.sem.count {
          var x :| Coming(s, x) && w.count > s.sem.count - s.phase[x].n;
          OneOfTwo(s, w.thread, x, t);
          assert s.sem.count < n ==> Coming(s', x);
        }
      }
    }
  }

  lemma {:induction false} PairUp(s: Sys, n: nat)
    requires PairInv(s) && Enabled(s, Up(n))
    ensures PairInv(Next(s, Up(n)))
  {
    hide Threads, Distinct, Woken, Kept;
    var s', ws, c := Next(s, Up(n)), s.sem.waiters, s.sem.count + n;
    var sizes := SizesOf(s, n);
    UpForm(s, n, sizes);
    Parted(ws, c);
    assert s'.phase.Keys == s.phase.Keys;
    KeptDoNotFit(ws, c);
    forall i | 0 <= i < |s'.sem.waiters| ensures Covered(s', s'.sem.waiters[i]) {
      var w := s'.sem.waiters[i];
      assert Listed(s', w) && w in Kept(ws, c);
      OnlyOneWoken(s, n, w);
      if Woken(ws, c) != [] {
        FirstWoken(ws, c);
        var x := Woken(ws, c)[0];
        var j :| 0 <= j < |ws| && ws[j] == x;
        assert Listed(s, ws[j]) && x.thread in Threads(Woken(ws, c)) by { ThreadIn(Woken(ws, c), 0); }
        assert Coming(s', x.thread);
      }
    }
  }

  /** Beside a kept waiter there is at most one thread to wake. */
  lemma {:induction false} OnlyOneWoken(s: Sys, n: nat, w: Waiter)
    requires WellFormed(s) && |s.phase| <= 2 && w in Kept(s.sem.waiters, s.sem.count + n)
    ensures var a := Woken(s.sem.waiters, s.sem.count + n);
            Sum(a) == if a == [] then 0 else a[0].count
  {
    hide Woken, Kept;
    var ws, c := s.sem.waiters, s.sem.count + n;
    var a := Woken(ws, c);
    Parted(ws, c);
    if |a| > 1 {
      forall u | u in a || u == w ensures u.thread in s.phase {
        var j :| 0 <= j < |ws| && ws[j] == u;
        assert Listed(s, ws[j]);
      }
      ThreadIn(a, 0);
      ThreadIn(a, 1);
      var k :| 0 <= k < |Kept(ws, c)| && Kept(ws, c)[k] == w;
      ThreadIn(Kept(ws, c), k);
      OneOfTwo(s, a[0].thread, a[1].thread, w.thread);
      assert false;
    } else if |a| == 1 {
      assert a[1..] == [];
    }
  }

  /** With two threads nobody is stranded, whatever they ask for. */
  lemma {:induction false} PairNeverStranded(s: Sys, acts: seq<Action>, s': Sys)
    requires PairInv(s) && Run(s, acts, s')
    ensures !Stranded(s')
    decreases |acts|
  {
    if acts != [] {
      match acts[0] {
        case Down(t, n, try, mayWait) => PairDown(s, t, n, try, mayWait);
        case Up(n) => PairUp(s, n);
      }
      PairNeverStranded(Next(s, acts[0]), acts[1..], s');
    } else if SomeFits(s) {
      var i :| 0 <= i < |s.sem.waiters| && s.sem.waiters[i].count <= s.sem.count;
      assert Covered(s, s.sem.waiters[i]);
      var x :| Coming(s, x);
      assert x in AwakeSet(s);
    }
  }

  // ---- three threads and two sizes

  lemma {:induction false} RunOn(s: Sys, a: seq<Action>, s1: Sys, b: seq<Action>, s2: Sys)
    requires Run(s, a, s1) && Run(s1, b, s2)
    ensures Run(s, a + b, s2)
    decreases |a|
  {
    if a == [] {
      assert a + b == b;
    } else {
      assert (a + b)[1..] == a[1..] + b;
      RunOn(Next(s, a[0]), a[1..], s1, b, s2);
    }
  }

  /** Thread z takes what it can in portions of a. */
  lemma {:induction false} Drained(max: nat, c: nat, ts: set<Tid>, z: Tid, a: nat) returns (acts: seq<Action>, r: nat)
    requires c <= max && z in ts && 1 <= a <= max
    ensures r < a && Run(Created(max, c, ts), acts, Created(max, r, ts)) && AsksFor(acts, {a})
    decreases c
  {
    if c < a {
      acts, r := [], c;
    } else {
      var s := Created(max, c, ts);
      var down := Down(z, a, false, true);
      assert Next(s, down) == Created(max, c - a, ts) by { assert s.phase[z := Out] == s.phase; }
      var rest;
      rest, r := Drained(max, c - a, ts, z, a);
      acts := [down] + rest;
      assert acts[1..] == rest;
      assert forall i :: 0 < i < |acts| ==> acts[i] == rest[i - 1];
    }
  }

  function Increase(a: nat, b: nat): nat
  {
    if 2 * a > b then 2 * a else b
  }

  /** Thread x waits for b and thread y for a. An increase wakes thread x alone; thread z takes
      a before it; thread x waits again, and what is left would do for thread y. */
  function Stranding(x: Tid, y: Tid, z: Tid, a: nat, b: nat, r: nat): seq<Action>
    requires r < a
  {
    [Down(x, b, false, true), Down(y, a, false, true), Up(Increase(a, b) - r), Down(z, a, false, true),
        Down(x, b, false, true)]
  }

  /** The state after i of these actions. */
  function StrandingAt(max: nat, ts: set<Tid>, x: Tid, y: Tid, a: nat, b: nat, r: nat, i: nat): Sys
    requires r < a && i <= 5
  {
    var n, out: map<Tid, Phase> := Increase(a, b), map t | t in ts :: Out;
    if i == 0 then Created(max, r, ts)
    else if i == 1 then Sys(Sem(max, r, [Waiter(x, b)]), out[x := Queued(b)])
    else if i == 2 then Sys(Sem(max, r, [Waiter(x, b), Waiter(y, a)]), out[x := Queued(b)][y := Queued(a)])
    else if i == 3 then Sys(Sem(max, n, [Waiter(y, a)]), out[x := Awake(b)][y := Queued(a)])
    else if i == 4 then Sys(Sem(max, n - a, [Waiter(y, a)]), out[x := Awake(b)][y := Queued(a)])
    else Sys(Sem(max, n - a, [Waiter(y, a), Waiter(x, b)]), out[x := Queued(b)][y := Queued(a)])
  }

  ghost predicate ThreeOf(ts: set<Tid>, x: Tid, y: Tid, z: Tid)
  {
    x in ts && y in ts && z in ts && x != y && x != z && y != z
  }

  lemma {:induction false} StrandingStep(max: nat, ts: set<Tid>, x: Tid, y: Tid, z: Tid, a: nat, b: nat, r: nat, i: nat)
    requires 1 <= a < b <= max && 2 * a <= max && r < a && i < 5 && ThreeOf(ts, x, y, z)
    ensures Enabled(StrandingAt(max, ts, x, y, a, b, r, i), Stranding(x, y, z, a, b, r)[i])
    ensures Next(StrandingAt(max, ts, x, y, a, b, r, i), Stranding(x, y, z, a, b, r)[i]) ==
            StrandingAt(max, ts, x, y, a, b, r, i + 1)
  {
    hide Woken, Kept, Threads;
    if i == 2 {
      FirstOnly(x, y, a, b, Increase(a, b));
      assert Threads([Waiter(x, b)]) == {x} by { JustOne(x, b); }
    }
  }

  lemma JustOne(x: Tid, b: nat)
    ensures Threads([Waiter(x, b)]) == {x}
  {
    assert [Waiter(x, b)][0].thread == x;
  }

  lemma {:induction false} StrandingFrom(max: nat, ts: set<Tid>, x: Tid, y: Tid, z: Tid, a: nat, b: nat, r: nat, i: nat)
    requires 1 <= a < b <= max && 2 * a <= max && r < a && i <= 5 && ThreeOf(ts, x, y, z)
    ensures Run(StrandingAt(max, ts, x, y, a, b, r, i), Stranding(x, y, z, a, b, r)[i..],
            StrandingAt(max, ts, x, y, a, b, r, 5))
    decreases 5 - i
  {
    hide StrandingAt, Stranding, Enabled, Next;
    StrandingLength(x, y, z, a, b, r);
    if i < 5 {
      StrandingStep(max, ts, x, y, z, a, b, r, i);
      StrandingFrom(max, ts, x, y, z, a, b, r, i + 1);
      assert Stranding(x, y, z, a, b, r)[i..][1..] == Stranding(x, y, z, a, b, r)[i + 1..];
    }
  }

  lemma StrandingLength(x: Tid, y: Tid, z: Tid, a: nat, b: nat, r: nat)
    requires r < a
    ensures |Stranding(x, y, z, a, b, r)| == 5 && AsksFor(Stranding(x, y, z, a, b, r), {a, b})
  {
  }

  /** The increase reaches thread x's request, but not both. */
  lemma FirstOnly(x: Tid, y: Tid, a: nat, b: nat, n: nat)
    requires 1 <= a <= b <= n < a + b
    ensures Woken([Waiter(x, b), Waiter(y, a)], n) == [Waiter(x, b)]
    ensures Kept([Waiter(x, b), Waiter(y, a)], n) == [Waiter(y, a)]
  {
    var ws := [Waiter(x, b), Waiter(y, a)];
    assert ws[1..] == [Waiter(y, a)] && ws[1..][1..] == [];
    NobodyLeft(n - b);
    assert Woken(ws[1..], n - b) == [] && Kept(ws[1..], n - b) == [Waiter(y, a)];
  }

  lemma Three(ts: set<Tid>) returns (x: Tid, y: Tid, z: Tid)
    requires |ts| >= 3
    ensures ThreeOf(ts, x, y, z)
  {
    x :| x in ts;
    assert |ts - {x}| >= 2;
    y :| y in ts - {x};
    assert |ts - {x} - {y}| >= 1;
    z :| z in ts - {x} - {y};
  }

  /** From every new semaphore with three threads or more, two such sizes lead to a stranded
      waiter. */
  lemma TwoSizesStrand(a: nat, b: nat, max: nat, init: nat, ts: set<Tid>) returns (acts: seq<Action>, s: Sys)
    requires 1 <= a < b <= max && 2 * a <= max && init <= max && |ts| >= 3
    ensures Run(Created(max, init, ts), acts, s) && AsksFor(acts, {a, b}) && Stranded(s)
  {
    var x, y, z := Three(ts);
    var first, r := Drained(max, init, ts, z, a);
    var last := Stranding(x, y, z, a, b, r);
    s := StrandingAt(max, ts, x, y, a, b, r, 5);
    StrandingFrom(max, ts, x, y, z, a, b, r, 0);
    assert last[0..] == last;
    RunOn(Created(max, init, ts), first, Created(max, r, ts), last, s);
    acts := first + last;
    StrandingLength(x, y, z, a, b, r);
    assert s.sem.waiters[0].count <= s.sem.count;
  }

  /** Two different sizes that the semaphore can grant, and of which it can grant the smaller
      one twice. */
  ghost predicate Mixed(sizes: set<nat>, max: nat)
  {
    exists a, b :: a in sizes && b in sizes && 1 <= a < b <= max && 2 * a <= max
  }

  /** For every new semaphore, every set of threads and every set of sizes: no run that asks for
      these sizes leaves a waiter stranded, if and only if the sizes are not mixed or there are
      fewer than three threads. */
  lemma NobodyStrandedIff(sizes: set<nat>, max: nat, init: nat, ts: set<Tid>)
    requires init <= max
    ensures (forall acts, s :: Run(Created(max, init, ts), acts, s) && AsksFor(acts, sizes) ==> !Stranded(s))
      <==> !Mixed(sizes, max) || |ts| < 3
  {
    hide Stranded, Run, AsksFor;
    if |ts| < 3 {
      PairStart(max, init, ts);
      forall acts, s | Run(Created(max, init, ts), acts, s) ensures !Stranded(s) {
        PairNeverStranded(Created(max, init, ts), acts, s);
      }
    } else if Mixed(sizes, max) {
      var a, b :| a in sizes && b in sizes && 1 <= a < b <= max && 2 * a <= max;
      var acts, s := TwoSizesStrand(a, b, max, init, ts);
      FewerSizes(acts, {a, b}, sizes);
    } else {
      var start := Created(max, init, ts);
      var ks := set k | k in sizes && 1 <= k <= max;
      forall acts, s | Run(start, acts, s) && AsksFor(acts, sizes) ensures !Stranded(s) {
        UsefulSizes(start, acts, s, sizes, ks);
        if k :| k in ks && 2 * k <= max {
          assert ks == {k};
          Initially(max, init, ts, k);
          NeverStranded(start, acts, s, k);
        } else {
          LargeStart(max, init, ts, ks);
          LargeNeverStranded(start, acts, s, ks);
        }
      }
    }
  }

  lemma FewerSizes(acts: seq<Action>, few: set<nat>, sizes: set<nat>)
    requires AsksFor(acts, few) && few <= sizes
    ensures AsksFor(acts, sizes)
  {
  }

  lemma PairStart(max: nat, init: nat, ts: set<Tid>)
    requires init <= max && |ts| < 3
    ensures PairInv(Created(max, init, ts))
  {
    assert Created(max, init, ts).phase.Keys == ts;
  }

  lemma LargeStart(max: nat, init: nat, ts: set<Tid>, ks: set<nat>)
    requires init <= max && forall x :: x in ks ==> 2 * x > max
    ensures LargeInv(Created(max, init, ts), ks)
  {
  }

  /** A run asks for no size that is refused outright. */
  lemma {:induction false} UsefulSizes(s: Sys, acts: seq<Action>, s': Sys, sizes: set<nat>, ks: set<nat>)
    requires Run(s, acts, s') && AsksFor(acts, sizes) && forall k :: k in sizes && 1 <= k <= s.sem.max ==> k in ks
    ensures AsksFor(acts, ks)
    decreases |acts|
  {
    if acts != [] {
      assert Asks(acts[0], sizes) && Asks(acts[0], ks);
      UsefulSizes(Next(s, acts[0]), acts[1..], s', sizes, ks);
      forall i | 0 <= i < |acts| ensures Asks(acts[i], ks) {
        if i > 0 {
          assert acts[i] == acts[1..][i - 1];
        }
      }
    }
  }
}
