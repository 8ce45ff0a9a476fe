/** Counting semaphores (sem.c). The build is uniprocessor and the lock-held regions run with
    interrupts disabled, so each region is one atomic step. Waiting for a time limit,
    deletion and thread death are not modelled. */
module Semaphores {

  type Tid = nat

  /** A waiting thread and the count it asked for. */
  datatype Waiter = Waiter(thread: Tid, count: nat)

  /** max_count, count and the waiters list. */
  datatype Sem = Sem(max: nat, count: nat, waiters: seq<Waiter>)

  datatype Status = NoError | InvalidValue

  /** How one pass of the acquire loop ends: the count taken, a failed try, in the waiters
      list, or not even there because the thread is about to stop for another reason. */
  datatype Attempt = Acquired | TryFailed | Enqueued | Deferred

  /** One pass of the acquire loop of sem_down_ex. */
  function Attempted(s: Sem, t: Tid, n: nat, try: bool, mayWait: bool): (Sem, Attempt)
  {
    if s.count >= n then (s.(count := s.count - n), Acquired)
    else if try then (s, TryFailed)
    else if mayWait then (s.(waiters := s.waiters + [Waiter(t, n)]), Enqueued)
    else (s, Deferred)
  }

  /** The sum of two uint values; the true sum unless it needs more than 32 bits. */
  function Sum32(a: nat, b: nat): (r: nat)
    ensures a + b < 0x1_0000_0000 ==> r == a + b
  {
    (a + b) % 0x1_0000_0000
  }

  /** An increase that is refused is not always too large, and one that is not refused can
      lower the count: exactly when the sum needs more than 32 bits. */
  lemma SumWraps(a: nat, b: nat)
    requires a < 0x1_0000_0000 && b < 0x1_0000_0000
    ensures Sum32(a, b) == a + b <==> a + b < 0x1_0000_0000
    ensures Sum32(a, b) < a <==> a + b >= 0x1_0000_0000
  {
  }

  // ---- which waiters an increase wakes

  /** Those whose request fits what is left, first come first served. */
  function Woken(ws: seq<Waiter>, c: nat): (r: seq<Waiter>)
    ensures Sum(r) <= c
  {
    if ws == [] then []
    else if ws[0].count <= c then [ws[0]] + Woken(ws[1..], c - ws[0].count)
    else Woken(ws[1..], c)
  }

  /** The others, in their order. */
  function Kept(ws: seq<Waiter>, c: nat): seq<Waiter>
  {
    if ws == [] then []
    else if ws[0].count <= c then Kept(ws[1..], c - ws[0].count)
    else [ws[0]] + Kept(ws[1..], c)
  }

  function Sum(ws: seq<Waiter>): nat
  {
    if ws == [] then 0 else ws[0].count + Sum(ws[1..])
  }

  /** A waiter is woken or kept, never both or neither. */
  lemma {:induction false} WokenOrKept(ws: seq<Waiter>, c: nat)
    ensures multiset(Woken(ws, c)) + multiset(Kept(ws, c)) == multiset(ws)
    ensures |Woken(ws, c)| + |Kept(ws, c)| == |ws|
  {
    if ws != [] {
      assert ws == [ws[0]] + ws[1..];
      WokenOrKept(ws[1..], if ws[0].count <= c then c - ws[0].count else c);
    }
  }

  /** No kept request fits what the woken ones leave. */
  lemma {:induction false} KeptDoNotFit(ws: seq<Waiter>, c: nat)
    ensures forall w :: w in Kept(ws, c) ==> w.count > c - Sum(Woken(ws, c))
  {
    if ws != [] {
      KeptDoNotFit(ws[1..], if ws[0].count <= c then c - ws[0].count else c);
      if ws[0].count <= c {
        assert Woken(ws, c)[1..] == Woken(ws[1..], c - ws[0].count);
      }
    }
  }

  /** Every waiter asks for k. */
  ghost predicate Uniform(ws: seq<Waiter>, k: nat)
  {
    forall i :: 0 <= i < |ws| ==> ws[i].count == k
  }

  /** How many requests of k fit into c, up to m. */
  function Fitting(c: nat, k: nat, m: nat): (j: nat)
    ensures j <= m
  {
    if m == 0 || c < k then 0 else 1 + Fitting(c - k, k, m - 1)
  }

  lemma {:induction false} FittingMost(c: nat, k: nat, m: nat)
    ensures Times(k, Fitting(c, k, m)) <= c
    ensures Fitting(c, k, m) < m ==> c < Times(k, Fitting(c, k, m) + 1)
    decreases m
  {
    if m > 0 && c >= k {
      FittingMost(c - k, k, m - 1);
    }
  }

  lemma {:induction false} TimesIs(k: nat, n: nat)
    ensures Times(k, n) == k * n
  {
    if n > 0 {
      TimesIs(k, n - 1);
    }
  }

  function Times(k: nat, n: nat): nat
  {
    if n == 0 then 0 else k + Times(k, n - 1)
  }

  /** For uniform requests the first ones are woken, as many as fit. */
  lemma {:induction false} UniformWoken(ws: seq<Waiter>, c: nat, k: nat)
    requires Uniform(ws, k)
    ensures var j := Fitting(c, k, |ws|); Woken(ws, c) == ws[..j] && Kept(ws, c) == ws[j..]
  {
    if ws != [] {
      assert Uniform(ws[1..], k);
      if c >= k {
        UniformWoken(ws[1..], c - k, k);
        var j := Fitting(c - k, k, |ws| - 1);
        assert ws[..j + 1] == [ws[0]] + ws[1..][..j];
      } else {
        UniformWoken(ws[1..], c, k);
        assert Fitting(c, k, |ws| - 1) == 0;
      }
    }
  }

  /** The first waiter goes to one of the two lists. */
  lemma FirstWaiter(ws: seq<Waiter>, left: nat, woken: seq<Waiter>, kept: seq<Waiter>)
    requires ws != []
    ensures if ws[0].count <= left then
              && woken + Woken(ws, left) == woken + [ws[0]] + Woken(ws[1..], left - ws[0].count)
              && Kept(ws, left) == Kept(ws[1..], left - ws[0].count)
            else
              && Woken(ws, left) == Woken(ws[1..], left)
              && kept + Kept(ws, left) == kept + [ws[0]] + Kept(ws[1..], left)
  {
    var a, b := Woken(ws, left), Kept(ws, left);
    if ws[0].count <= left {
      assert a == [ws[0]] + Woken(ws[1..], left - ws[0].count);
      assert woken + ([ws[0]] + a[1..]) == woken + [ws[0]] + a[1..];
    } else {
      assert b == [ws[0]] + Kept(ws[1..], left);
      assert kept + ([ws[0]] + b[1..]) == kept + [ws[0]] + b[1..];
    }
  }

  lemma NobodyLeft(left: nat)
    ensures Woken([], left) == [] && Kept([], left) == []
  {
  }

  class Semaphore {
    var max: nat
    var count: nat
    var waiters: seq<Waiter>

    function Value(): Sem
      reads this
    {
      Sem(max, count, waiters)
    }

    /** sem_create_ex accepts only an initial count within the maximum. */
    constructor (max: nat, init: nat)
      requires init <= max
      ensures Value() == Sem(max, init, [])
    {
      this.max, count, waiters := max, init, [];
    }

    /** The region of sem_down_ex between two yields. mayWait: the thread's next state is
        ready or running. */
    method Attempt(t: Tid, n: nat, try: bool, mayWait: bool) returns (a: Attempt)
      modifies this
      ensures (Value(), a) == Attempted(old(Value()), t, n, try, mayWait)
    {
      if count >= n {
        count := count - n;
        return Acquired;
      } else if try {
        return TryFailed;
      }
      a := Deferred;
      if mayWait {
        waiters := waiters + [Waiter(t, n)];
        a := Enqueued;
      }
    }

    /** sem_up. The list is rotated once: blocks that fit are taken out, the others go to
        the tail. The sum is compared, and stored, as 32-bit arithmetic leaves it. */
    method Up(n: nat) returns (status: Status, woken: seq<Waiter>)
      modifies this
      ensures status == InvalidValue <==> Sum32(old(count), n) > max
      ensures status == InvalidValue || n == 0 ==> Value() == old(Value()) && woken == []
      ensures status == NoError && n > 0 ==>
                var c := Sum32(old(count), n);
                woken == Woken(old(waiters), c) && Value() == Sem(old(max), c, Kept(old(waiters), c))
    {
      hide Woken, Kept, Sum32;
      woken := [];
      if Sum32(count, n) > max {
        return InvalidValue, woken;
      }
      status := NoError;
      if n == 0 {
        return;
      }
      count := Sum32(count, n);
      var left: nat := count;
      ghost var ws, kept := waiters, [];
      assert ws[0..] == ws;
      var k := |waiters|;
      while k > 0
        invariant 0 <= k <= |ws| && max == old(max) && count == Sum32(old(count), n)
        invariant waiters == ws[|ws| - k..] + kept
        invariant woken + Woken(ws[|ws| - k..], left) == Woken(ws, count)
        invariant kept + Kept(ws[|ws| - k..], left) == Kept(ws, count)
      {
        ghost var rest := ws[|ws| - k..];
        var w := waiters[0];
        waiters := waiters[1..];
        assert rest[0] == w && rest[1..] == ws[|ws| - (k - 1)..];
        assert waiters == rest[1..] + kept;
        FirstWaiter(rest, left, woken, kept);
        if w.count <= left {
          woken := woken + [w];
          left := left - w.count;
        } else {
          waiters := waiters + [w];
          assert rest[1..] + kept + [w] == rest[1..] + (kept + [w]);
          kept := kept + [w];
        }
        k := k - 1;
      }
      assert ws[|ws| - k..] == [];
      NobodyLeft(left);
    }
  }

  // ---- identifiers

  const IDX_BITS := 13
  const MAX_SEMS := 8192
  const MAX_GID := 0x7ffff

  /** SEM_ID_BUILD, SEM_IDX and SEM_GID on 32-bit identifiers. */
  function Build(slot: nat, gid: nat): nat
  {
    (gid % 0x8_0000) * MAX_SEMS + slot
  }

  function Index(id: nat): nat
  {
    id % MAX_SEMS
  }

  function Gid(id: nat): nat
  {
    id / MAX_SEMS
  }

  /** Slot and generation can be read back, and no semaphore has the invalid identifier 0. */
  lemma IdParts(slot: nat, gid: nat)
    requires slot < MAX_SEMS && gid <= MAX_GID
    ensures Index(Build(slot, gid)) == slot && Gid(Build(slot, gid)) == gid && Build(slot, gid) < 0x1_0000_0000
    ensures (slot == 0 ==> gid != 0) ==> Build(slot, gid) != 0
  {
  }

  /** The generation that a call of get_next_gid gives, and the counter after it. The counter is
      read before it counts on, and the wrap sets it to zero. */
  function GidAfter(next: nat, noZero: bool): (nat, nat)
  {
    if 0 < next <= MAX_GID then (next, next + 1)
    else if noZero then (1, 2)
    else if next == 0 then (0, 1) else (0, 0)
  }

  function Gids(next: nat, noZeros: seq<bool>): (gids: seq<nat>)
    ensures |gids| == |noZeros|
    decreases |noZeros|
  {
    if noZeros == [] then []
    else [GidAfter(next, noZeros[0]).0] + Gids(GidAfter(next, noZeros[0]).1, noZeros[1..])
  }

  /** Until the counter wraps generations count up, so no slot gets an identifier twice. */
  lemma {:induction false} GidsCountUp(next: nat, noZeros: seq<bool>)
    requires next > 0 && next + |noZeros| <= 0x7ffff + 1
    ensures forall i :: 0 <= i < |noZeros| ==> Gids(next, noZeros)[i] == next + i
    decreases |noZeros|
  {
    if noZeros != [] {
      GidsCountUp(next + 1, noZeros[1..]);
    }
  }

  /** Two calls in a row give different generations, except that the wrap gives zero twice where
      zero is allowed. */
  lemma GidsDiffer(next: nat, a: bool, b: bool)
    requires next <= 0x7ffff + 1
    ensures Gids(next, [a, b])[0] != Gids(next, [a, b])[1] <==> a || b || next <= 0x7ffff
  {
    assert [a, b][1..] == [b];
    assert [b][1..] == [];
  }

  /** So a slot other than the first that is freed and taken again at the wrap gets the same
      identifier: an old identifier then names the new semaphore. */
  lemma SameIdTwice(slot: nat)
    requires 0 < slot < 8192
    ensures var gids := Gids(0x7ffff + 1, [false, false]);
            Build(slot, gids[0]) == Build(slot, gids[1]) != 0
  {
    GidsDiffer(0x7ffff + 1, false, false);
    assert [false, false][1..] == [false];
  }

  class SemTable {
    /** The identifier of the semaphore in each slot, if there is one. */
    const ids: array<nat>
    var nextGid: nat

    ghost predicate Valid()
      reads this, ids
    {
      && ids.Length == MAX_SEMS && nextGid <= MAX_GID + 1
      && forall i :: 0 <= i < MAX_SEMS && ids[i] != 0 ==> Index(ids[i]) == i
    }

    constructor ()
      ensures Valid() && fresh(ids) && forall i :: 0 <= i < MAX_SEMS ==> ids[i] == 0
    {
      ids := new nat[MAX_SEMS](_ => 0);
      nextGid := 1;
    }

    /** get_next_gid: generations count up and wrap; zero is skipped on request. */
    method GetNextGid(noZero: bool) returns (gid: nat)
      requires Valid()
      modifies this`nextGid
      ensures Valid() && gid <= MAX_GID && (noZero ==> gid != 0)
      ensures (gid, nextGid) == GidAfter(old(nextGid), noZero)
    {
      var again := true;
      gid := 0;
      while again
        invariant Valid() && gid <= MAX_GID
        invariant again ==> nextGid == old(nextGid)
                            || (noZero && nextGid <= 1 && (old(nextGid) == 0 || old(nextGid) == MAX_GID + 1))
        invariant !again ==> (gid, nextGid) == GidAfter(old(nextGid), noZero)
        decreases again, if nextGid > MAX_GID then 2 else if nextGid == 0 then 1 else 0
      {
        gid := nextGid;
        nextGid := nextGid + 1;
        if gid > MAX_GID {
          gid := 0;
          nextGid := 0;
        }
        again := noZero && gid == 0;
      }
    }

    /** alloc_sem_slot and the identifier part of sem_create_ex: the lowest free slot. */
    method Create() returns (id: nat)
      requires Valid()
      modifies this`nextGid, ids
      ensures Valid()
      ensures id == 0 <==> forall i :: 0 <= i < MAX_SEMS ==> old(ids[i]) != 0
      ensures id == 0 ==> ids[..] == old(ids[..])
      ensures id != 0 ==> old(ids[Index(id)]) == 0 && (forall i :: 0 <= i < Index(id) ==> old(ids[i]) != 0)
                          && ids[..] == old(ids[..])[Index(id) := id]
                          && (Gid(id), nextGid) == GidAfter(old(nextGid), Index(id) == 0)
    {
      var i := 0;
      while i < MAX_SEMS
        invariant i <= MAX_SEMS && forall j :: 0 <= j < i ==> ids[j] != 0
      {
        if ids[i] == 0 {
          var gid := GetNextGid(i == 0);
          IdParts(i, gid);
          id := Build(i, gid);
          ids[i] := id;
          return;
        }
        i := i + 1;
      }
      id := 0;
    }

    /** get_sem_by_id: the slot holds a semaphore with exactly this identifier. */
    method Lookup(id: nat) returns (found: bool, idx: nat)
      requires Valid() && id != 0
      ensures found <==> exists i :: 0 <= i < MAX_SEMS && ids[i] == id
      ensures found ==> idx < MAX_SEMS && ids[idx] == id && forall i :: 0 <= i < MAX_SEMS && ids[i] == id ==> i == idx
    {
      idx := Index(id);
      found := ids[idx] == id;
    }
  }
}
