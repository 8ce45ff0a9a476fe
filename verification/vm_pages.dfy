/** Allocation of physical pages (vm_page.c). Each method is one region under the page lock.
    The contents of pages, and so clearing them, are not modelled. */
module VmPages {
  import opened PageLists

  datatype Option<T> = None | Some(value: T)

  predicate Allocatable(s: State)
  {
    s == Free || s == Clear || s == Unused
  }

  /** The page with physical number ppn exists and is not in use. */
  ghost predicate CanTake(states: seq<State>, offset: nat, ppn: int)
  {
    offset <= ppn < offset + |states| && states[ppn - offset] in {Free, Clear, Unused}
  }

  const W := 0x1_0000_0000

  /** The physical pages that a 32-bit address space has at most. */
  const MAX_PAGES := 0x10_0000

  /** The value that 32-bit arithmetic leaves of x. */
  function Wrap(x: int): (r: nat)
    ensures r < W && (0 <= x < W ==> r == x) && (W <= x < 2 * W ==> r == x - W) && (-W <= x < 0 ==> r == x + W)
  {
    x % W
  }

  /** How the allocation of a range ends: refused; all its pages taken; handed out without a
      look at any page; or running into a page that is not available, or none at all, which it
      had not looked for. */
  datatype Range = Refused | Taken(first: nat) | Unchecked(first: nat) | Runaway

  /** How vm_page_alloc ends: with a page; for want of a valid state; or in a panic. */
  datatype Single = Page(page: nat) | BadState | OutOfPages

  datatype Marking = Rejected | Marked | Astray

  class PageTable {
    /** The state of every page; page i has the physical number offset + i. */
    const pages: array<State>
    const offset: nat
    var freeList: seq<nat>
    var clearList: seq<nat>
    var activeList: seq<nat>
    var stats: Stats

    function List(k: Kind): seq<nat>
      reads this
    {
      match k
      case FreeList => freeList
      case ClearList => clearList
      case ActiveList => activeList
    }

    /** Every page is on the list its state says and no other; the counters are right. */
    ghost predicate Valid()
      reads this, pages
    {
      && offset + pages.Length <= MAX_PAGES && (forall k :: Listed(pages[..], List(k), k))
      && Counted(pages[..], stats)
    }

    /** vm_page_init: all pages are free. */
    constructor (total: nat, offset: nat)
      requires offset + total <= MAX_PAGES
      ensures Valid() && pages.Length == total && this.offset == offset && forall i :: 0 <= i < total ==>
              pages[i] == Free
      ensures fresh(pages)
    {
      pages := new State[total](_ => Free);
      this.offset := offset;
      freeList, clearList, activeList := [], [], [];
      stats := Stats(0, 0, 0, 0, 0, 0, 0);
      new;
      var i := 0;
      while i < total
        invariant i <= total && pages.Length == total && (forall j :: 0 <= j < total ==> pages[j] == Free)
        invariant freeList == Upto(i) && clearList == [] && activeList == [] && this.offset == offset
        invariant stats == Stats(0, 0, i, 0, 0, 0, 0) && fresh(pages)
      {
        stats := stats.(free := stats.free + 1);
        freeList := freeList + [i];
        i := i + 1;
      }
      UptoHas(total);
      AllFree(pages[..]);
      forall k ensures Listed(pages[..], List(k), k) {
      }
    }

    /** set_page_state. */
    method SetState(p: nat, x: State)
      requires Valid() && p < pages.Length
      modifies this, pages
      ensures Valid() && pages[..] == old(pages[..])[p := x]
      ensures forall k :: List(k) == Moved(old(List(k)), k, p, old(pages[p]), x)
      ensures var was := old(pages[p]); var other := x !in {Free, Clear};
              && freeList == (if was == x || Free !in {was, x} then old(freeList)
                              else if was == Free then Removed(old(freeList), p) else old(freeList) + [p])
              && clearList == (if was == x || Clear !in {was, x} then old(clearList)
                               else if was == Clear then Removed(old(clearList), p) else old(clearList) + [p])
              && activeList ==
                 (if was !in {Free, Clear} then (if other then old(activeList) else Removed(old(activeList), p))
                                else if other then old(activeList) + [p] else old(activeList))
    {
      if pages[p] == x {
        assert pages[..] == pages[..][p := x];
        return;
      }
      ghost var s := pages[..];
      ghost var from := pages[p];
      hide Listed, Counted;
      CountedUpdate(s, stats, p, x);
      forall k ensures Listed(s[p := x], Moved(List(k), k, p, s[p], x), k) {
        ListedMoved(s, List(k), k, p, x);
      }
      stats := Bump(Bump(stats, pages[p], -1), x, 1);
      MoveTo(p, ListOf(pages[p]), ListOf(x));
      pages[p] := x;
      assert pages[..] == s[p := x];
      forall k ensures List(k) == Moved(old(List(k)), k, p, from, x) {
        match k {
          case FreeList =>
          case ClearList =>
          case ActiveList =>
        }
      }
      assert List(FreeList) == Moved(old(freeList), FreeList, p, from, x);
      assert List(ClearList) == Moved(old(clearList), ClearList, p, from, x);
      assert List(ActiveList) == Moved(old(activeList), ActiveList, p, from, x);
    }

    /** move_page_to_list. */
    method MoveTo(p: nat, from: Kind, to: Kind)
      modifies this`freeList, this`clearList, this`activeList
      ensures forall k :: List(k) == if from == to then old(List(k)) else if from == k then Removed(old(List(k)), p)
                                     else if to == k then old(List(k)) + [p] else old(List(k))
    {
      if from != to {
        match from {
          case FreeList => freeList := Removed(freeList, p);
          case ClearList => clearList := Removed(clearList, p);
          case ActiveList => activeList := Removed(activeList, p);
        }
        match to {
          case FreeList => freeList := freeList + [p];
          case ClearList => clearList := clearList + [p];
          case ActiveList => activeList := activeList + [p];
        }
      }
    }

    /** vm_page_lookup, from a physical page number. */
    function Lookup(ppn: nat): (r: Option<nat>)
      ensures r.Some? <==> offset <= ppn < offset + pages.Length
      ensures r.Some? ==> r.value < pages.Length && offset + r.value == ppn
    {
      if ppn < offset then None else if ppn - offset >= pages.Length then None else Some(ppn - offset)
    }

    /** The removal of an allocatable page from its list and its arrival on the active list,
        as the specific allocations do it. */
    method Grab(p: nat)
      requires Valid() && p < pages.Length && Allocatable(pages[p])
      modifies this, pages
      ensures Valid() && pages[..] == old(pages[..])[p := Busy]
    {
      ghost var s := pages[..];
      CountedUpdate(s, stats, p, Busy);
      assert Listed(s, List(FreeList), FreeList) && Listed(s, List(ClearList), ClearList)
        && Listed(s, List(ActiveList), ActiveList);
      ghost var f, c, a := freeList, clearList, activeList;
      var was := pages[p];
      match was {
        case Free => freeList := Removed(freeList, p);
        case Clear => clearList := Removed(clearList, p);
        case _ =>
      }
      stats := Bump(stats, was, -1);
      pages[p] := Busy;
      stats := Bump(stats, Busy, 1);
      if was != Unused {
        activeList := activeList + [p];
      }
      assert pages[..] == s[p := Busy];
      assert freeList == Moved(f, FreeList, p, was, Busy) && clearList == Moved(c, ClearList, p, was, Busy);
      assert activeList == Moved(a, ActiveList, p, was, Busy);
      forall k ensures Listed(pages[..], List(k), k) {
        match k
        case FreeList => ListedMoved(s, f, k, p, Busy);
        case ClearList => ListedMoved(s, c, k, p, Busy);
        case ActiveList => ListedMoved(s, a, k, p, Busy);
      }
    }

    /** vm_page_alloc_specific. */
    method AllocSpecific(ppn: nat) returns (r: Option<nat>)
      requires Valid()
      modifies this, pages
      ensures Valid()
      ensures r.Some? <==> CanTake(old(pages[..]), offset, ppn)
      ensures r.Some? ==>
              r.value == ppn - offset && r.value < pages.Length && pages[..] == old(pages[..])[r.value := Busy]
      ensures r.None? ==> pages[..] == old(pages[..])
    {
      r := Lookup(ppn);
      if r.Some? {
        if Allocatable(pages[r.value]) {
          Grab(r.value);
        } else {
          r := None;
        }
      }
    }

    /** vm_page_alloc_specific_range. Where the range ends within the 32 bits of a page number,
        all its pages are taken or none; where it does not, none is looked at. */
    method AllocSpecificRange(ppn: nat, n: nat) returns (r: Range)
      requires Valid() && ppn < W && n < W
      modifies this, pages
      ensures Valid()
      ensures r == Refused <==>
              n == 0 || (ppn + n < W && !forall j :: ppn <= j < ppn + n ==> CanTake(old(pages[..]), offset, j))
      ensures r.Taken? <==> n > 0 && ppn + n < W && forall j :: ppn <= j < ppn + n ==>
              CanTake(old(pages[..]), offset, j)
      ensures r.Unchecked? <==> ppn + n >= W && (ppn < offset || ppn - offset + n >= W)
      ensures r == Runaway <==> ppn + n >= W && ppn >= offset && ppn - offset + n < W
      ensures r.Taken? ==> r.first == ppn - offset && r.first + n <= pages.Length
                           && pages[..] == old(pages[..])[..r.first] + Same(n, Busy) + old(pages[..])[r.first + n..]
      ensures r == Refused || r.Unchecked? ==> pages[..] == old(pages[..])
      ensures r.Unchecked? ==> r.first == Wrap(ppn - offset)
    {
      if n == 0 {
        return Refused;
      }
      ghost var s := pages[..];
      var i := ppn;
      var end := Wrap(ppn + n);
      while i < end
        invariant ppn <= i && (ppn + n < W ==> i <= end)
        invariant ppn + n >= W ==> i == ppn
        invariant forall j :: ppn <= j < i ==> CanTake(s, offset, j)
      {
        var p := Lookup(i);
        if p.None? {
          assert !CanTake(s, offset, i);
          return Refused;
        }
        if !Allocatable(pages[p.value]) {
          assert !CanTake(s, offset, i);
          return Refused;
        }
        i := i + 1;
      }
      if ppn + n < W {
        Reaches(s, ppn, n);
      }
      var first := Wrap(ppn - offset);
      var last := Wrap(first + n);
      i := first;
      while i < last
        invariant Valid() && first <= i && (i == first || i <= last) && (i == first || i <= pages.Length)
        invariant forall j :: 0 <= j < pages.Length ==> pages[j] == if first <= j < i then Busy else s[j]
      {
        if i >= pages.Length || !Allocatable(pages[i]) {
          return Runaway;
        }
        Grab(i);
        i := i + 1;
      }
      if ppn + n < W {
        assert pages[..] == s[..first] + Same(n, Busy) + s[first + n..];
        return Taken(first);
      }
      assert pages[..] == s;
      r := Unchecked(first);
    }

    /** A range whose pages can all be taken lies in the table. */
    lemma Reaches(s: seq<State>, ppn: nat, n: nat)
      requires |s| == pages.Length && n > 0 && forall j :: ppn <= j < ppn + n ==> CanTake(s, offset, j)
      ensures offset <= ppn && ppn - offset + n <= |s| && forall j :: ppn - offset <= j < ppn - offset + n ==>
              Allocatable(s[j])
    {
      assert CanTake(s, offset, ppn) && CanTake(s, offset, ppn + n - 1);
      forall j | ppn - offset <= j < ppn - offset + n ensures Allocatable(s[j]) {
        assert CanTake(s, offset, j + offset);
      }
    }

    /** vm_page_alloc: the first page of the wanted list, or of the spare list; with both
        empty it panics. */
    method Alloc(want: State) returns (r: Single)
      requires Valid()
      modifies this, pages
      ensures Valid()
      ensures r == BadState <==> !Usable(want)
      ensures r == OutOfPages <==> Usable(want) && old(freeList) == [] && old(clearList) == []
      ensures r.Page? ==>
              r.page < pages.Length && Usable(old(pages[..])[r.page]) && pages[..] == old(pages[..])[r.page := Busy]
      ensures r.Page? ==> var first := if want == Free then old(freeList) else old(clearList);
                          var spare := if want == Free then old(clearList) else old(freeList);
                          r.page == if first != [] then first[0] else spare[0]
      ensures !r.Page? ==> pages[..] == old(pages[..])
    {
      if want != Free && want != Clear {
        return BadState;
      }
      if freeList == [] && clearList == [] {
        return OutOfPages;
      }
      var fromFree := if want == Free then freeList != [] else clearList == [];
      ghost var s := pages[..];
      var p := if fromFree then freeList[0] else clearList[0];
      assert Listed(s, List(FreeList), FreeList) && Listed(s, List(ClearList), ClearList)
        && Listed(s, List(ActiveList), ActiveList);
      assert p in (if fromFree then freeList else clearList);
      CountedUpdate(s, stats, p, Busy);
      assert Listed(s, List(FreeList), FreeList) && Listed(s, List(ClearList), ClearList)
        && Listed(s, List(ActiveList), ActiveList);
      ghost var f, c, a, was := freeList, clearList, activeList, pages[p];
      if fromFree {
        freeList := freeList[1..];
        stats := stats.(free := stats.free - 1);
      } else {
        clearList := clearList[1..];
        stats := stats.(clear := stats.clear - 1);
      }
      pages[p] := Busy;
      stats := stats.(busy := stats.busy + 1);
      activeList := activeList + [p];
      assert pages[..] == s[p := Busy];
      assert freeList == Moved(f, FreeList, p, was, Busy) && clearList == Moved(c, ClearList, p, was, Busy);
      assert activeList == Moved(a, ActiveList, p, was, Busy);
      forall k ensures Listed(pages[..], List(k), k) {
        match k
        case FreeList => ListedMoved(s, f, k, p, Busy);
        case ClearList => ListedMoved(s, c, k, p, Busy);
        case ActiveList => ListedMoved(s, a, k, p, Busy);
      }
      r := Page(p);
    }

    /** vm_page_alloc_range: the lowest run that ends before the last page. */
    method AllocRange(n: nat) returns (r: Option<nat>)
      requires Valid() && n < W
      modifies this, pages
      ensures Valid()
      ensures r.Some? <==> exists a :: old(Fits(pages[..], a, n))
      ensures r.Some? ==> old(Fits(pages[..], r.value, n)) && (forall a :: old(Fits(pages[..], a, n)) ==> r.value <= a)
      ensures r.Some? ==> pages[..] == old(pages[..])[..r.value] + Same(n, Busy) + old(pages[..])[r.value + n..]
      ensures r.None? ==> pages[..] == old(pages[..])
    {
      r := None;
      ghost var s := pages[..];
      var start: nat := 0;
      while Wrap(start + n) < pages.Length
        invariant Valid() && pages[..] == s && start <= pages.Length && (start > 0 ==> n < pages.Length)
        invariant forall a: nat :: a < start ==> !Fits(s, a, n)
        decreases pages.Length - start
      {
        var i, found := 0, true;
        while i < n
          invariant i <= n && found && (forall j :: start <= j < start + i ==> Usable(s[j]))
        {
          if !Usable(pages[start + i]) {
            found := false;
            i := i + 1;
            break;
          }
          i := i + 1;
        }
        if found {
          assert Fits(s, start, n);
          Occupy(start, n);
          return Some(start);
        }
        SkipSound(s, start, n, i);
        start := start + i;
      }
    }

    /** set_page_state to busy over a run. */
    method Occupy(a: nat, n: nat)
      requires Valid() && a + n <= pages.Length
      modifies this, pages
      ensures Valid() && pages[..] == old(pages[..])[..a] + Same(n, Busy) + old(pages[..])[a + n..]
    {
      ghost var s := pages[..];
      var i := 0;
      while i < n
        invariant i <= n && Valid()
        invariant forall j :: 0 <= j < pages.Length ==> pages[j] == if a <= j < a + i then Busy else s[j]
      {
        SetState(a + i, Busy);
        i := i + 1;
      }
      assert pages[..] == s[..a] + Same(n, Busy) + s[a + n..];
    }

    /** vm_page_mark_range_inuse: free pages of the range become unused, others are kept. A
        range so long that its end wraps into the table is marked to the end of the table and
        beyond. */
    method MarkInUse(ppn: nat, n: nat) returns (r: Marking)
      requires Valid() && ppn < W && n < W
      modifies this, pages
      ensures Valid()
      ensures r == Marked <==> offset <= ppn && ppn - offset + n < pages.Length
      ensures r == Astray <==> offset <= ppn && W <= ppn - offset + n < W + pages.Length
      ensures r == Rejected ==> pages[..] == old(pages[..])
      ensures r != Rejected ==> forall j :: 0 <= j < pages.Length ==>
                pages[j] == if ppn - offset <= j < ppn - offset + n
                    && old(Usable(pages[j])) then Unused else old(pages[j])
    {
      if offset > ppn {
        return Rejected;
      }
      var a := ppn - offset;
      if Wrap(a + n) >= pages.Length {
        return Rejected;
      }
      ghost var s := pages[..];
      var i := 0;
      while i < n
        invariant i <= n && Valid() && (i == 0 || a + i <= pages.Length)
        invariant forall j :: 0 <= j < pages.Length ==>
          pages[j] == if a <= j < a + i && Usable(s[j]) then Unused else s[j]
      {
        if a + i >= pages.Length {
          return Astray;
        }
        if Usable(pages[a + i]) {
          SetState(a + i, Unused);
        }
        i := i + 1;
      }
      r := Marked;
    }
  }

  function Same(n: nat, s: State): (r: seq<State>)
    ensures |r| == n && forall i :: 0 <= i < n ==> r[i] == s
  {
    if n == 0 then [] else [s] + Same(n - 1, s)
  }

  /** 0, 1, .. n - 1. */
  function Upto(n: nat): (r: seq<nat>)
    ensures |r| == n && forall i :: 0 <= i < n ==> r[i] == i
  {
    if n == 0 then [] else Upto(n - 1) + [n - 1]
  }

  lemma UptoHas(n: nat)
    ensures NoDup(Upto(n)) && forall p: nat :: p in Upto(n) <==> p < n
  {
    forall p: nat | p < n ensures p in Upto(n) {
      assert Upto(n)[p] == p;
    }
  }

  lemma {:induction false} AllFree(states: seq<State>)
    requires forall i :: 0 <= i < |states| ==> states[i] == Free
    ensures Counted(states, Stats(0, 0, |states|, 0, 0, 0, 0))
  {
    if states != [] {
      AllFree(states[1..]);
      forall s ensures Get(Stats(0, 0, |states|, 0, 0, 0, 0), s) == Count(states, s) {
        assert Get(Stats(0, 0, |states[1..]|, 0, 0, 0, 0), s) == Count(states[1..], s);
      }
    }
  }
}
