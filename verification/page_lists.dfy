/** States of physical pages, the list each state keeps its pages on, and the statistics
    (vm_page.c, vm_types.h). Pages are named by their index in the pages array. */
module PageLists {

  datatype State = Active | Inactive | Free | Clear | Wired | Busy | Unused

  datatype Kind = FreeList | ClearList | ActiveList

  function ListOf(s: State): Kind
  {
    match s
    case Free => FreeList
    case Clear => ClearList
    case _ => ActiveList
  }

  /** The page counters of VM_State. */
  datatype Stats = Stats(active: int, inactive: int, free: int, clear: int, wired: int, busy: int, unused: int)

  function Get(t: Stats, s: State): int
  {
    match s
    case Active => t.active
    case Inactive => t.inactive
    case Free => t.free
    case Clear => t.clear
    case Wired => t.wired
    case Busy => t.busy
    case Unused => t.unused
  }

  function Bump(t: Stats, s: State, d: int): (r: Stats)
    ensures forall u :: Get(r, u) == Get(t, u) + if u == s then d else 0
  {
    match s
    case Active => t.(active := t.active + d)
    case Inactive => t.(inactive := t.inactive + d)
    case Free => t.(free := t.free + d)
    case Clear => t.(clear := t.clear + d)
    case Wired => t.(wired := t.wired + d)
    case Busy => t.(busy := t.busy + d)
    case Unused => t.(unused := t.unused + d)
  }

  ghost function Count(states: seq<State>, s: State): nat
  {
    if states == [] then 0 else (if states[0] == s then 1 else 0) + Count(states[1..], s)
  }

  lemma {:induction false} CountUpdate(states: seq<State>, p: nat, x: State, s: State)
    requires p < |states|
    ensures Count(states[p := x], s) == Count(states, s) - (if states[p] == s then 1 else 0) + (if x == s then 1 else 0)
  {
    if p == 0 {
      assert states[p := x][1..] == states[1..];
    } else {
      assert states[p := x][1..] == states[1..][p - 1 := x];
      CountUpdate(states[1..], p - 1, x, s);
    }
  }

  ghost predicate Counted(states: seq<State>, t: Stats)
  {
    forall s :: Get(t, s) == Count(states, s)
  }

  /** The counters together total all pages. */
  lemma {:induction false} CountsTotal(states: seq<State>, t: Stats)
    requires Counted(states, t)
    ensures t.active + t.inactive + t.free + t.clear + t.wired + t.busy + t.unused == |states|
  {
    Partition(states);
    assert Get(t, Active) == Count(states, Active) && Get(t, Inactive) == Count(states, Inactive)
      && Get(t, Free) == Count(states, Free);
    assert Get(t, Clear) == Count(states, Clear) && Get(t, Wired) == Count(states, Wired);
    assert Get(t, Busy) == Count(states, Busy) && Get(t, Unused) == Count(states, Unused);
  }

  lemma {:induction false} Partition(states: seq<State>)
    ensures Count(states, Active) + Count(states, Inactive) + Count(states, Free) + Count(states, Clear)
            + Count(states, Wired) + Count(states, Busy) + Count(states, Unused) == |states|
  {
    if states != [] {
      Partition(states[1..]);
    }
  }

  lemma CountedUpdate(states: seq<State>, t: Stats, p: nat, x: State)
    requires Counted(states, t) && p < |states|
    ensures Counted(states[p := x], Bump(Bump(t, states[p], -1), x, 1))
  {
    forall s ensures Get(Bump(Bump(t, states[p], -1), x, 1), s) == Count(states[p := x], s) {
      CountUpdate(states, p, x, s);
    }
  }

  // ---- lists

  ghost predicate NoDup(l: seq<nat>)
  {
    forall i, j :: 0 <= i < j < |l| ==> l[i] != l[j]
  }

  /** l holds exactly the pages whose state belongs on it, once each. */
  ghost predicate Listed(states: seq<State>, l: seq<nat>, k: Kind)
  {
    NoDup(l) && forall p: nat :: p in l <==> p < |states| && ListOf(states[p]) == k
  }

  /** The list without p, if it was there. */
  function Removed(l: seq<nat>, p: nat): seq<nat>
  {
    if l == [] then [] else if l[0] == p then l[1..] else [l[0]] + Removed(l[1..], p)
  }

  lemma {:induction false} RemovedHas(l: seq<nat>, p: nat)
    requires NoDup(l)
    ensures NoDup(Removed(l, p)) && forall x :: x in Removed(l, p) <==> x in l && x != p
  {
    if l != [] {
      assert forall i :: 0 <= i < |l[1..]| ==> l[1..][i] == l[i + 1];
      assert forall x :: x in l <==> x == l[0] || x in l[1..];
      RemovedHas(l[1..], p);
      if l[0] != p {
        assert l[0] !in l[1..];
      }
    }
  }

  /** Taking p out closes the gap and keeps the order of the others. */
  lemma {:induction false} RemovedCloses(l: seq<nat>, p: nat, i: nat)
    requires NoDup(l) && i < |l| && l[i] == p
    ensures Removed(l, p) == l[..i] + l[i + 1..]
  {
    if i > 0 {
      assert l[1..][i - 1] == p && l[1..][..i - 1] == l[1..i] && l[1..][i..] == l[i + 1..];
      RemovedCloses(l[1..], p, i - 1);
      assert [l[0]] + l[1..i] == l[..i];
    }
  }

  /** What the lists and counters say of the pages. */
  lemma ListsTell(states: seq<State>, f: seq<nat>, c: seq<nat>, a: seq<nat>, t: Stats, p: nat)
    requires Listed(states, f, FreeList) && Listed(states, c, ClearList) && Listed(states, a, ActiveList)
    requires Counted(states, t)
    ensures p in f <==> p < |states| && states[p] == Free
    ensures p in c <==> p < |states| && states[p] == Clear
    ensures p in a <==> p < |states| && states[p] in {Active, Inactive, Wired, Busy, Unused}
    ensures t == Stats(Count(states, Active), Count(states, Inactive), Count(states, Free), Count(states, Clear),
                       Count(states, Wired), Count(states, Busy), Count(states, Unused))
  {
    assert Get(t, Active) == Count(states, Active) && Get(t, Inactive) == Count(states, Inactive);
    assert Get(t, Free) == Count(states, Free) && Get(t, Clear) == Count(states, Clear);
    assert Get(t, Wired) == Count(states, Wired) && Get(t, Busy) == Count(states, Busy);
    assert Get(t, Unused) == Count(states, Unused);
  }

  lemma AddedHas(l: seq<nat>, p: nat)
    requires NoDup(l) && p !in l
    ensures NoDup(l + [p]) && forall x :: x in l + [p] <==> x in l || x == p
  {
  }

  /** What becomes of the list of kind k when page p changes to state x. */
  function Moved(l: seq<nat>, k: Kind, p: nat, from: State, x: State): seq<nat>
  {
    if ListOf(from) == ListOf(x) then l
    else if ListOf(from) == k then Removed(l, p)
    else if ListOf(x) == k then l + [p]
    else l
  }

  lemma ListedMoved(states: seq<State>, l: seq<nat>, k: Kind, p: nat, x: State)
    requires Listed(states, l, k) && p < |states|
    ensures Listed(states[p := x], Moved(l, k, p, states[p], x), k)
  {
    var states' := states[p := x];
    RemovedHas(l, p);
    if ListOf(states[p]) != k {
      assert p !in l;
      AddedHas(l, p);
    }
    var l' := Moved(l, k, p, states[p], x);
    forall q: nat ensures q in l' <==> q < |states'| && ListOf(states'[q]) == k {
      if q < |states| && q != p {
        assert states'[q] == states[q];
      }
    }
  }

  // ---- runs

  predicate Usable(s: State)
  {
    s == Free || s == Clear
  }

  /** n usable pages from a on, not reaching the last page. */
  ghost predicate Fits(states: seq<State>, a: nat, n: nat)
  {
    a + n < |states| && forall i :: a <= i < a + n ==> states[i] in {Free, Clear}
  }

  /** No run that fits begins at or before a page that is not usable and within reach. */
  lemma SkipSound(states: seq<State>, start: nat, n: nat, i: nat)
    requires 0 < i <= n && start + n < |states| && !Usable(states[start + i - 1])
    ensures forall a :: start <= a < start + i ==> !Fits(states, a, n)
  {
    forall a | start <= a < start + i ensures !Fits(states, a, n) {
      assert a <= start + i - 1 < a + n;
    }
  }
}
