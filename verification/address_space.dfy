/** The mappings of an address space: a sorted list kept in step with an AVL tree
    (vm_address_space.c). */
module AddressSpaces {
  import opened AvlShape
  import opened AvlTrees
  import opened AspaceMap

  datatype Status = NoError | InvalidArgs | NoMemory | BadAddress | NoMappingGap | NoMapping

  /** The comparison of the range start..end with each mapping. */
  function Comparison(maps: map<Ref, Mapping>, start: nat, end: nat): (d: Ref -> int)
    ensures forall n :: n in maps ==> d(n) == Compare(start, end, maps[n])
  {
    n => if n in maps then Compare(start, end, maps[n]) else 0
  }

  /** Disjoint sorted mappings make the overlap-as-equal comparison a usable search. */
  lemma ComparisonDirected(maps: map<Ref, Mapping>, s: seq<Ref>, start: nat, end: nat)
    requires Ordered(maps, s)
    ensures Directed(Comparison(maps, start, end), s)
  {
    var d := Comparison(maps, start, end);
    forall a, b | 0 <= a < b < |s| ensures Sign(d(s[a])) >= Sign(d(s[b])) {
      assert maps[s[a]].end < maps[s[b]].start;
      assert maps[s[a]].start <= maps[s[a]].end && maps[s[b]].start <= maps[s[b]].end;
    }
  }

  /** A new mapping put between those below it and those above it. */
  lemma OrderedInsert(maps: map<Ref, Mapping>, s: seq<Ref>, k: nat, x: Ref, m: Mapping)
    requires Ordered(maps, s) && k <= |s| && x !in s && m.start <= m.end
    requires forall j :: 0 <= j < k ==> maps[s[j]].end < m.start
    requires forall j :: k <= j < |s| ==> m.end < maps[s[j]].start
    ensures Ordered(maps[x := m], s[..k] + [x] + s[k..])
  {
    var s', maps' := s[..k] + [x] + s[k..], maps[x := m];
    forall j | 0 <= j < |s'| ensures s'[j] in maps' && maps'[s'[j]].start <= maps'[s'[j]].end {
      assert s'[j] == if j < k then s[j] else if j == k then x else s[j - 1];
    }
    forall i, j | 0 <= i < j < |s'| ensures maps'[s'[i]].end < maps'[s'[j]].start {
      assert s'[i] == if i < k then s[i] else if i == k then x else s[i - 1];
      assert s'[j] == if j < k then s[j] else if j == k then x else s[j - 1];
    }
  }

  lemma OrderedRemove(maps: map<Ref, Mapping>, s: seq<Ref>, k: nat)
    requires Ordered(maps, s) && k < |s|
    ensures Ordered(maps - {s[k]}, s[..k] + s[k + 1..])
  {
    var s' := s[..k] + s[k + 1..];
    forall i | 0 <= i < |s| && i != k ensures s[i] != s[k] {
      if i < k {
        assert maps[s[i]].end < maps[s[k]].start;
      } else {
        assert maps[s[k]].end < maps[s[i]].start;
      }
    }
    forall j | 0 <= j < |s'| ensures s'[j] in maps - {s[k]} && maps[s'[j]].start <= maps[s'[j]].end {
      assert s'[j] == if j < k then s[j] else s[j + 1];
    }
    forall i, j | 0 <= i < j < |s'| ensures maps[s'[i]].end < maps[s'[j]].start {
      assert s'[i] == if i < k then s[i] else s[i + 1];
      assert s'[j] == if j < k then s[j] else s[j + 1];
    }
  }

  lemma InsideInsert(maps: map<Ref, Mapping>, s: seq<Ref>, base: nat, size: nat, k: nat, x: Ref, m: Mapping)
    requires Inside(maps, s, base, size) && k <= |s| && x !in s && base <= m.start && m.end < base + size
    ensures Inside(maps[x := m], s[..k] + [x] + s[k..], base, size)
  {
    var s' := s[..k] + [x] + s[k..];
    forall j | 0 <= j < |s'| ensures s'[j] == x || s'[j] in s {
    }
  }

  /** A range that is not inside the map, or runs around, spoils it. */
  lemma OutsideInsert(maps: map<Ref, Mapping>, s: seq<Ref>, base: nat, size: nat, k: nat, x: Ref, m: Mapping)
    requires k <= |s| && !(base <= m.start <= m.end < base + size)
    ensures !(Ordered(maps[x := m], s[..k] + [x] + s[k..]) && Inside(maps[x := m], s[..k] + [x] + s[k..], base, size))
  {
    assert (s[..k] + [x] + s[k..])[k] == x;
  }

  /** Where the last address of a range lies, as 32-bit arithmetic computes it. */
  lemma WrappedEnd(base: nat, size: nat, b: nat, n: nat)
    requires base + size <= W && base <= b < W && 0 < n < W
    ensures b + n <= base + size ==> Wrap(b + n - 1) == b + n - 1
    ensures b <= Wrap(b + n - 1) < base + size <==> b + n <= base + size
  {
    if b + n - 1 < W {
      assert Wrap(b + n - 1) == b + n - 1;
    } else {
      assert Wrap(b + n - 1) == b + n - 1 - W;
    }
  }

  lemma WrapRange(x: int)
    ensures Wrap(x) < W
  {
  }

  lemma Rounded(lo: nat, align: nat)
    ensures RoundedUp(lo, align) == if align == 0 then lo else Times(Wrap(lo + align - 1) / align, align)
    ensures lo < W ==> RoundedUp(lo, align) < W
  {
    if align > 0 {
      var x := Wrap(lo + align - 1);
      assert x == x / align * align + x % align;
    }
  }

  lemma AlignedInsert(maps: map<Ref, Mapping>, s: seq<Ref>, k: nat, x: Ref, m: Mapping)
    requires PageAligned(maps, s) && k <= |s| && x !in s && m.start % PAGE_SIZE == 0 && (m.end + 1) % PAGE_SIZE == 0
    ensures PageAligned(maps[x := m], s[..k] + [x] + s[k..])
  {
    var s' := s[..k] + [x] + s[k..];
    forall j | 0 <= j < |s'| ensures s'[j] == x || s'[j] in s {
    }
  }

  lemma InsideRemove(maps: map<Ref, Mapping>, s: seq<Ref>, base: nat, size: nat, k: nat)
    requires Ordered(maps, s) && Inside(maps, s, base, size) && k < |s|
    ensures Inside(maps - {s[k]}, s[..k] + s[k + 1..], base, size)
  {
    OrderedNoRepeat(maps, s);
    var s' := s[..k] + s[k + 1..];
    forall j | 0 <= j < |s'| ensures s'[j] in maps - {s[k]} && base <= maps[s'[j]].start
        && maps[s'[j]].end < base + size {
      assert s'[j] == if j < k then s[j] else s[j + 1];
    }
  }

  /** xlist_insert_before and xlist_insert_after, where p occurs in s. */
  method InsertBeside(s: seq<Ref>, p: Ref, x: Ref, after: bool, ghost k: nat) returns (s': seq<Ref>)
    requires if after then 0 < k <= |s| && s[k - 1] == p else k < |s| && s[k] == p
    requires forall i, j :: 0 <= i < j < |s| ==> s[i] != s[j]
    ensures s' == s[..k] + [x] + s[k..]
  {
    var j := 0;
    while s[j] != p
      invariant j < |s| && forall i :: 0 <= i < j ==> s[i] != p
      invariant j <= if after then k - 1 else k
      decreases |s| - j
    {
      j := j + 1;
    }
    if after {
      j := j + 1;
    }
    s' := s[..j] + [x] + s[j..];
  }

  lemma OrderedNoRepeat(maps: map<Ref, Mapping>, s: seq<Ref>)
    requires Ordered(maps, s)
    ensures forall i, j :: 0 <= i < j < |s| ==> s[i] != s[j]
  {
    forall i, j | 0 <= i < j < |s| ensures s[i] != s[j] {
      assert maps[s[i]].end < maps[s[j]].start;
      assert maps[s[i]].start <= maps[s[i]].end;
    }
  }

  lemma OrderedPair(maps: map<Ref, Mapping>, s: seq<Ref>, i: int, j: int)
    requires Ordered(maps, s) && 0 <= i < |s| && 0 <= j < |s| && i != j
    ensures maps[s[i]].start <= maps[s[i]].end && maps[s[j]].start <= maps[s[j]].end
    ensures maps[s[i]].end < maps[s[j]].start || maps[s[j]].end < maps[s[i]].start
  {
  }

  lemma EndIsAligned(b: nat, n: nat)
    requires n > 0 && b % PAGE_SIZE == 0
    ensures n % PAGE_SIZE == 0 ==> (b + n - 1 + 1) % PAGE_SIZE == 0
  {
  }

  class AddressSpace {
    const base: nat
    const size: nat
    var list: seq<Ref>
    const tree: AvlTree
    var maps: map<Ref, Mapping>

    /** The list is the in-order traversal of the tree; its mappings are sorted, pairwise
        disjoint and inside the map. */
    ghost predicate Valid()
      reads this, tree
    {
      && 0 < size < W && base + size <= W
      && tree.Valid() && tree.Order() == list
      && Ordered(maps, list) && Inside(maps, list, base, size)
    }

    /** Some n bytes of the map are free. */
    ghost predicate Room(n: nat)
      reads this
    {
      exists a :: Free(maps, list, base, size, a, n)
    }

    /** a is the lowest address with n free bytes. */
    ghost predicate LowestRoom(a: nat, n: nat)
      reads this
    {
      LowestFree(maps, list, base, size, a, n)
    }

    constructor (base: nat, size: nat)
      requires 0 < size < W && base + size <= W
      ensures Valid() && list == [] && this.base == base && this.size == size && fresh(tree)
    {
      this.base, this.size := base, size;
      list, maps := [], map[];
      tree := new AvlTree();
    }

    /** Find the lowest gap of n bytes, in 32-bit arithmetic. */
    method LocateGap(n: nat) returns (found: bool, a: nat)
      requires Valid() && n < W
      ensures found <==> Room(n)
      ensures found ==> LowestRoom(a, n)
      ensures found ==> a == base || exists j :: 0 <= j < |list| && a == maps[list[j]].end + 1
    {
      hide Ordered, Inside, Free, Wrap;
      a := 0;
      if list == [] {
        found := n <= size;
        a := base;
        EmptyMap(n);
        return;
      }
      Known();
      var start: int, k := base, 0;
      WrapSmall(base);
      while k < |list|
        invariant k <= |list| && start == Wrap(GapStart(maps, list, base, k))
        invariant k > 0 ==> n > 0
        invariant forall j :: 0 <= j < k ==> GapEnd(maps, list, base, size, j) - GapStart(maps, list, base, j) < n
      {
        GapLength(maps, list, base, size, k);
        var end: int := Wrap(maps[list[k]].start - 1);
        if n <= Wrap(end - start + 1) {
          a := start;
          found := true;
          Lowest(k, n);
          return;
        }
        start := Wrap(maps[list[k]].end + 1);
        k := k + 1;
      }
      GapLength(maps, list, base, size, k);
      var end: int := Wrap(base + size - 1);
      found := n <= Wrap(end - start + 1);
      a := start;
      if found {
        Lowest(k, n);
      } else {
        forall b: nat ensures !Free(maps, list, base, size, b, n) {
          if Free(maps, list, base, size, b, n) {
            var j := FreeInGap(maps, list, base, size, b, n);
            assert false;
          }
        }
      }
    }

    lemma EmptyMap(n: nat)
      requires Valid() && list == []
      ensures n <= size ==> Free(maps, list, base, size, base, n)
      ensures forall b :: Free(maps, list, base, size, b, n) ==> base <= b && n <= size
    {
    }

    lemma Known()
      requires Valid()
      ensures forall i :: 0 <= i < |list| ==> list[i] in maps
    {
    }

    /** The first gap long enough holds the lowest free range. */
    lemma Lowest(k: nat, n: nat)
      requires Valid() && list != [] && k <= |list| && (k > 0 ==> n > 0)
      requires GapEnd(maps, list, base, size, k) - GapStart(maps, list, base, k) >= n
      requires forall j :: 0 <= j < k ==> GapEnd(maps, list, base, size, j) - GapStart(maps, list, base, j) < n
      ensures var a := GapStart(maps, list, base, k);
              && Free(maps, list, base, size, a, n) && Wrap(a) == a
              && (forall b :: Free(maps, list, base, size, b, n) ==> a <= b)
              && (a == base || exists j :: 0 <= j < |list| && a == maps[list[j]].end + 1)
    {
      var a := GapStart(maps, list, base, k);
      GapIsFree(maps, list, base, size, k, a, n);
      forall b | Free(maps, list, base, size, b, n) ensures a <= b {
        if n > 0 {
          var j := FreeInGap(maps, list, base, size, b, n);
          if j > k {
            assert maps[list[k]].start <= maps[list[k]].end;
            if j > k + 1 {
              assert maps[list[k]].end < maps[list[j - 1]].start;
            }
          }
        }
      }
    }

    /** Put x, which stands for m, into the tree and at its place in the list, unless some
        mapping compares equal. The map stays well formed exactly if m lies inside it. */
    method PutMapping(x: Ref, m: Mapping) returns (ok: bool, ghost k: nat)
      requires Valid() && x != NULL && x !in list
      modifies this`list, this`maps, tree
      ensures tree.Valid() && tree.Order() == list
      ensures ok <==> old(Unmet(maps, list, m.start, m.end))
      ensures ok ==> k <= |old(list)| && list == old(list)[..k] + [x] + old(list)[k..] && maps == old(maps)[x := m]
      ensures !ok ==> list == old(list) && maps == old(maps)
      ensures Valid() <==> (ok ==> base <= m.start <= m.end < base + size)
    {
      hide Ordered, Inside, Free, AvlMemory.Wired, AvlShape.Distinct, AvlShape.Balanced, AvlShape.InOrder, Directed,
        Unmet;
      var d := Comparison(maps, m.start, m.end);
      ComparisonDirected(maps, list, m.start, m.end);
      var found, p, i;
      found, p, i, k := tree.Find(d);
      if found != NULL {
        Overlapping(m, d, found);
        return false, k;
      }
      Apart(m, d, k);
      tree.HoleNeighbour(p, i, k);
      OrderedNoRepeat(maps, list);
      if base <= m.start <= m.end < base + size {
        OrderedInsert(maps, list, k, x, m);
        InsideInsert(maps, list, base, size, k, x, m);
      } else {
        OutsideInsert(maps, list, base, size, k, x, m);
      }
      tree.Insert(x, p, i, k);
      if p == NULL {
        assert k == 0 && list == [];
        list := [x];
      } else {
        list := InsertBeside(list, p, x, i != 0, k);
      }
      maps := maps[x := m];
      ok := true;
    }

    lemma Overlapping(m: Mapping, d: Ref -> int, n: Ref)
      requires Valid() && d == Comparison(maps, m.start, m.end) && n in list && d(n) == 0
      ensures !Unmet(maps, list, m.start, m.end)
    {
      var j :| 0 <= j < |list| && list[j] == n;
    }

    lemma Apart(m: Mapping, d: Ref -> int, k: nat)
      requires Valid() && d == Comparison(maps, m.start, m.end) && Splits(d, list, k)
      ensures Unmet(maps, list, m.start, m.end)
      ensures k <= |list| && (forall j :: 0 <= j < k ==> list[j] in maps && maps[list[j]].end < m.start)
      ensures forall j :: k <= j < |list| ==> list[j] in maps && m.end < maps[list[j]].start
    {
      assert forall j :: 0 <= j < |list| ==> d(list[j]) == Compare(m.start, m.end, maps[list[j]]);
    }

    /** vm_aspace_create_mapping_exactly. x is the address of the new structure, or NULL when
        there is no memory for it. The top end of the range is not compared with the map's:
        an accepted range beyond it leaves the map malformed. */
    method CreateExactly(b: nat, n: nat, x: Ref) returns (status: Status, ghost k: nat)
      requires Valid() && b < W && n < W && x !in list
      modifies this`list, this`maps, tree
      ensures tree.Valid() && tree.Order() == list
      ensures status == if b < base || n > size || n == 0 then InvalidArgs
                        else if x == NULL then NoMemory
                        else if old(Accepted(maps, list, base, size, b, n)) then NoError else BadAddress
      ensures base <= b && 0 < n <= size && x != NULL && b + n <= base + size ==>
                (status == NoError <==> old(Free(maps, list, base, size, b, n)))
      ensures status == NoError ==>
                && k <= |old(list)| && list == old(list)[..k] + [x] + old(list)[k..]
                && maps == old(maps)[x := Mapping(b, Wrap(b + n - 1), Hole, NULL)]
      ensures status != NoError ==> list == old(list) && maps == old(maps)
      ensures Valid() <==> (status == NoError ==> b + n <= base + size)
    {
      hide Ordered, Inside, AvlMemory.Wired, AvlShape.Distinct, AvlShape.Balanced, AvlShape.InOrder, Free, Unmet;
      k := 0;
      if b < base || n > size || n == 0 {
        return InvalidArgs, k;
      }
      if x == NULL {
        return NoMemory, k;
      }
      AcceptedIsFree(maps, list, base, size, b, n);
      WrappedEnd(base, size, b, n);
      var m := Mapping(b, Wrap(b + n - 1), Hole, NULL);
      var ok;
      ok, k := PutMapping(x, m);
      status := if ok then NoError else BadAddress;
    }

    /** vm_aspace_create_mapping: the mapping goes to the start, rounded up, of the lowest gap
        that has room for the size and padding as 32-bit arithmetic computes them. */
    method CreateMapping(n: nat, npgAlign: nat, x: Ref) returns (status: Status, ghost lo: nat, ghost k: nat)
      requires Valid() && n < W && npgAlign < W && x !in list
      modifies this`list, this`maps, tree
      ensures tree.Valid() && tree.Order() == list
      ensures n == 0 ==> status == InvalidArgs
      ensures n > 0 && !old(Room(Needed(n, npgAlign))) ==> status == NoMappingGap
      ensures n > 0 && old(Room(Needed(n, npgAlign))) ==>
                var b := RoundedUp(lo, AlignBytes(npgAlign));
                && old(LowestRoom(lo, Needed(n, npgAlign)))
                && status == (if b < base || n > size then InvalidArgs
                              else if x == NULL then NoMemory
                              else if old(Accepted(maps, list, base, size, b, n)) then NoError else BadAddress)
      ensures status == NoError ==>
                var b := RoundedUp(lo, AlignBytes(npgAlign));
                && k <= |old(list)| && list == old(list)[..k] + [x] + old(list)[k..]
                && maps == old(maps)[x := Mapping(b, Wrap(b + n - 1), Hole, NULL)]
                && (old(Free(maps, list, base, size, b, n)) <==> b + n <= base + size)
                && (Valid() <==> b + n <= base + size)
      ensures status != NoError ==> Valid() && list == old(list) && maps == old(maps)
      // a request that does not wrap, on a page-aligned map
      ensures 0 < n && NoOverflow(n, npgAlign) && old(base % PAGE_SIZE == 0 && PageAligned(maps, list)) ==>
                && (status == NoMappingGap || (if x == NULL then status == NoMemory else status == NoError))
                && (status == NoError ==>
                  var b := RoundedUp(lo, AlignBytes(npgAlign));
                  && Valid() && (n % PAGE_SIZE == 0 ==> PageAligned(maps, list))
                     && old(Free(maps, list, base, size, b, n))
                  && lo <= b && b + n <= lo + Needed(n, npgAlign)
                  && (AlignBytes(npgAlign) > 0 ==> Multiple(b, AlignBytes(npgAlign))))
      // the same in plain numbers: no alignment for fewer than two pages, else to that many
      ensures 0 < n && npgAlign < 2 && status == NoError ==>
                old(LowestRoom(lo, n)) && maps == old(maps)[x := Mapping(lo, Wrap(lo + n - 1), Hole, NULL)]
      ensures 0 < n && npgAlign >= 2 && npgAlign * 4096 < 0x1_0000_0000 && n + (npgAlign - 1) * 4096 < 0x1_0000_0000
              && old(base % 4096 == 0 && PageAligned(maps, list)) ==>
                && (status == NoMappingGap <==> !old(Room(n + (npgAlign - 1) * 4096)))
                && (status != NoMappingGap ==> status == if x == NULL then NoMemory else NoError)
                && (status == NoError ==>
                  && old(LowestRoom(lo, n + (npgAlign - 1) * 4096)) && x in maps
                  && LeastMultiple(maps[x].start, npgAlign * 4096, lo)
                  && maps == old(maps)[x := Mapping(maps[x].start, maps[x].start + n - 1, Hole, NULL)])
    {
      hide Ordered, Inside, Free, PageAligned, LowestFree, NoOverflow, Wrap, Pages, Multiple, Accepted, RoundedUp,
        Unmet, AlignBytes, Needed, LeastMultiple;
      hide Valid;
      Computed(n, npgAlign);
      ghost var aligned := NoOverflow(n, npgAlign) && base % PAGE_SIZE == 0 && PageAligned(maps, list);
      ghost var list0, maps0 := list, maps;
      lo, k := 0, 0;
      TreeKnown();
      if n == 0 {
        return InvalidArgs, lo, k;
      }
      PlainRequest(n, npgAlign);
      ghost var plain := npgAlign >= 2 && npgAlign * 4096 < W && n + (npgAlign - 1) * 4096 < W;
      var align, pad := 0, 0;
      if npgAlign >= 2 {
        align := Wrap(Pages(npgAlign));
        pad := Wrap(align - PAGE_SIZE);
      }
      WrapRange(n + pad);
      var found, b := LocateGap(Wrap(n + pad));
      if !found {
        return NoMappingGap, lo, k;
      }
      lo := b;
      LowestIsFree(lo, Needed(n, npgAlign));
      Rounded(lo, align);
      if align != 0 {
        b := Times(Wrap(b + align - 1) / align, align);
      }
      Outcome(b, n);
      NoAlignment(lo, npgAlign);
      if aligned {
        PlacedFree(lo, n, npgAlign);
        if plain {
          PlainPlace(lo, n, npgAlign);
        }
      }
      status, k := CreateExactly(b, n, x);
      if aligned && n % PAGE_SIZE == 0 && status == NoError {
        AlignedInsert(maps0, list0, k, x, Mapping(b, Wrap(b + n - 1), Hole, NULL));
      }
    }

    lemma TreeKnown()
      requires Valid()
      ensures tree.Valid() && tree.Order() == list
    {
    }

    lemma Outcome(b: nat, n: nat)
      requires Valid() && n > 0
      ensures base <= b && n <= size && Accepted(maps, list, base, size, b, n) ==>
                (Free(maps, list, base, size, b, n) <==> b + n <= base + size)
    {
      hide Ordered, Inside, Free, Accepted;
      if base <= b && n <= size {
        AcceptedIsFree(maps, list, base, size, b, n);
      }
    }

    lemma LowestIsFree(a: nat, n: nat)
      requires Valid() && LowestRoom(a, n)
      ensures Room(n) && Free(maps, list, base, size, a, n) && a < W
    {
      if n == 0 {
        assert Free(maps, list, base, size, base, n);
      }
    }

    /** A request that does not wrap is accepted and free. */
    lemma PlacedFree(lo: nat, n: nat, npgAlign: nat)
      requires Valid() && 0 < n < W && npgAlign < W && NoOverflow(n, npgAlign)
      requires base % PAGE_SIZE == 0 && PageAligned(maps, list) && Free(maps, list, base, size, lo, Needed(n, npgAlign))
      requires lo == base || exists j :: 0 <= j < |list| && lo == maps[list[j]].end + 1
      ensures var b := RoundedUp(lo, AlignBytes(npgAlign));
        && lo % PAGE_SIZE == 0 && lo <= b && Free(maps, list, base, size, b, n)
           && Accepted(maps, list, base, size, b, n)
        && b + n <= lo + Needed(n, npgAlign) && base <= b && n <= size && b + n <= base + size
        && b % PAGE_SIZE == 0 && (n % PAGE_SIZE == 0 ==> (Wrap(b + n - 1) + 1) % PAGE_SIZE == 0)
        && (AlignBytes(npgAlign) > 0 ==> Multiple(b, AlignBytes(npgAlign)))
    {
      hide Ordered, Inside, NoOverflow, RoundedUp, AlignBytes, Needed, Multiple, Accepted, LeastMultiple, Free, Wrap;
      LowIsAligned(lo);
      StaysInGap(maps, list, base, size, lo, n, npgAlign);
      NoAlignment(lo, npgAlign);
      var b := RoundedUp(lo, AlignBytes(npgAlign));
      FreeBound(maps, list, base, size, b, n);
      AcceptedIsFree(maps, list, base, size, b, n);
      WrapSmall(b + n - 1);
      EndIsAligned(b, n);
    }

    lemma LowIsAligned(lo: nat)
      requires base % PAGE_SIZE == 0 && PageAligned(maps, list)
      requires lo == base || exists j :: 0 <= j < |list| && lo == maps[list[j]].end + 1
      ensures lo % PAGE_SIZE == 0
    {
    }

    lemma PlainPlace(lo: nat, n: nat, npgAlign: nat)
      requires Valid() && 0 < n < W && npgAlign >= 2 && npgAlign * 4096 < W && n + (npgAlign - 1) * 4096 < W
      requires lo % 4096 == 0 && Free(maps, list, base, size, lo, n + (npgAlign - 1) * 4096)
      requires var b := RoundedUp(lo, npgAlign * 4096); b + n <= lo + n + (npgAlign - 1) * 4096
      ensures var b := RoundedUp(lo, npgAlign * 4096);
        LeastMultiple(b, npgAlign * 4096, lo) && Wrap(b + n - 1) == b + n - 1
    {
      hide RoundedUp, LeastMultiple;
      FreeBound(maps, list, base, size, lo, n + (npgAlign - 1) * 4096);
      RoundsToLeast(lo, npgAlign * 4096);
      WrapSmall(RoundedUp(lo, npgAlign * 4096) + n - 1);
    }

    lemma NoAlignment(lo: nat, npgAlign: nat)
      ensures npgAlign < 2 ==> RoundedUp(lo, AlignBytes(npgAlign)) == lo
    {
    }

    /** vm_aspace_delete_mapping, which panics if either removal fails: neither does. */
    method DeleteMapping(x: Ref, tmp: Ref, ghost j: nat)
      requires Valid() && j < |list| && list[j] == x && tmp != NULL && tmp !in tree.mem
      modifies this`list, this`maps, tree
      ensures Valid() && list == old(list)[..j] + old(list)[j + 1..] && maps == old(maps) - {x}
    {
      hide Ordered, Inside, AvlMemory.Wired, AvlShape.Distinct, AvlShape.Balanced, AvlShape.InOrder, Directed;
      Known();
      OrderedNoRepeat(maps, list);
      OrderedRemove(maps, list, j);
      InsideRemove(maps, list, base, size, j);
      var d := Comparison(maps, maps[x].start, maps[x].end);
      OnlyItself(x, d, j);
      ghost var i;
      var r;
      r, i := tree.Remove(x, d, tmp);
      assert r == x && i == j;
      var k := 0;
      while list[k] != x
        invariant k <= j
        decreases j - k
      {
        k := k + 1;
      }
      list := list[..k] + list[k + 1..];
      maps := maps - {x};
    }

    /** No other mapping compares equal to one already in the map. */
    lemma OnlyItself(x: Ref, d: Ref -> int, j: nat)
      requires Valid() && j < |list| && list[j] == x && x in maps && d == Comparison(maps, maps[x].start, maps[x].end)
      ensures Directed(d, list) && d(x) == 0 && x != NULL && maps[x].start <= maps[x].end
      ensures forall n :: n in list && d(n) == 0 ==> n == x
    {
      ComparisonDirected(maps, list, maps[x].start, maps[x].end);
      NoNull(tree.t);
      forall n | n in list && d(n) == 0 ensures n == x {
        var i :| 0 <= i < |list| && list[i] == n;
        if i != j {
          OrderedPair(maps, list, i, j);
        }
      }
    }

    /** vm_aspace_get_mapping: finds the mapping that covers an address if there is one. */
    method GetMapping(vaddr: nat) returns (status: Status, x: Ref)
      requires Valid() && vaddr < W
      ensures status == BadAddress <==> vaddr < base || base + size <= vaddr
      ensures status == NoError <==> exists n :: n in list && n in maps && Covers(maps[n], vaddr)
      ensures status == NoMapping || status == BadAddress || status == NoError
      ensures status == NoError ==> x in list && x in maps && Covers(maps[x], vaddr)
      ensures status == NoError ==> forall n :: n in list && n in maps && Covers(maps[n], vaddr) ==> n == x
    {
      hide AvlMemory.Wired, AvlShape.Distinct, AvlShape.Balanced, AvlShape.InOrder, Directed;
      x := NULL;
      if vaddr < base || vaddr > Wrap(base + size - 1) {
        return BadAddress, x;
      }
      ComparisonDirected(maps, list, vaddr, vaddr);
      var p, i;
      ghost var k;
      x, p, i, k := tree.Find(Comparison(maps, vaddr, vaddr));
      status := if x == NULL then NoMapping else NoError;
      if x != NULL {
        ghost var j :| 0 <= j < |list| && list[j] == x;
        forall n | n in list && Covers(maps[n], vaddr) ensures n == x {
          ghost var i :| 0 <= i < |list| && list[i] == n;
          if i != j {
            OrderedPair(maps, list, i, j);
          }
        }
      }
    }
  }
}
