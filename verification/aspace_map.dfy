/** Memory maps as sorted sequences of mappings, and the arithmetic of their gaps
    (vm_address_space.c). Addresses and sizes are 32-bit. */
module AspaceMap {
  import opened AvlShape

  const W := 0x1_0000_0000
  const PAGE_SIZE := 4096

  /** The value that 32-bit arithmetic leaves of x. */
  function Wrap(x: int): nat
  {
    x % W
  }

  lemma WrapSmall(x: nat)
    requires x < W
    ensures Wrap(x) == x
  {
  }

  datatype Kind = Hole | Object

  datatype Mapping = Mapping(start: nat, end: nat, kind: Kind, object: Ref)

  /** compare_mapping: overlapping counts as equal. */
  function Compare(start: nat, end: nat, m: Mapping): int
  {
    if start > m.end then 1 else if end < m.start then -1 else 0
  }

  predicate Covers(m: Mapping, a: nat)
  {
    m.start <= a <= m.end
  }

  /** Mappings in ascending order, pairwise disjoint. */
  ghost predicate Ordered(maps: map<Ref, Mapping>, s: seq<Ref>)
  {
    && (forall j :: 0 <= j < |s| ==> s[j] in maps && maps[s[j]].start <= maps[s[j]].end)
    && forall i, j :: 0 <= i < j < |s| ==> maps[s[i]].end < maps[s[j]].start
  }

  ghost predicate Inside(maps: map<Ref, Mapping>, s: seq<Ref>, base: nat, size: nat)
  {
    forall j :: 0 <= j < |s| ==> s[j] in maps && base <= maps[s[j]].start && maps[s[j]].end < base + size
  }

  ghost predicate PageAligned(maps: map<Ref, Mapping>, s: seq<Ref>)
  {
    forall j :: 0 <= j < |s| ==>
        s[j] in maps && maps[s[j]].start % PAGE_SIZE == 0 && (maps[s[j]].end + 1) % PAGE_SIZE == 0
  }

  /** n bytes from a lie in the map and meet no mapping. */
  ghost predicate Free(maps: map<Ref, Mapping>, s: seq<Ref>, base: nat, size: nat, a: nat, n: nat)
  {
    && base <= a && a + n <= base + size
    && forall j :: 0 <= j < |s| ==> s[j] in maps && (maps[s[j]].end < a || a + n <= maps[s[j]].start)
  }

  /** Where the gap before the j-th mapping begins and ends. */
  ghost function GapStart(maps: map<Ref, Mapping>, s: seq<Ref>, base: nat, j: nat): nat
    requires j <= |s| && forall i :: 0 <= i < |s| ==> s[i] in maps
  {
    if j == 0 then base else maps[s[j - 1]].end + 1
  }

  ghost function GapEnd(maps: map<Ref, Mapping>, s: seq<Ref>, base: nat, size: nat, j: nat): nat
    requires j <= |s| && forall i :: 0 <= i < |s| ==> s[i] in maps
  {
    if j == |s| then base + size else maps[s[j]].start
  }

  /** Gap arithmetic modulo 2^32 gives the true length, even where an end wraps to 0. */
  lemma GapLength(maps: map<Ref, Mapping>, s: seq<Ref>, base: nat, size: nat, j: nat)
    requires Ordered(maps, s) && Inside(maps, s, base, size) && base + size <= W && s != [] && j <= |s|
    ensures var lo, hi := GapStart(maps, s, base, j), GapEnd(maps, s, base, size, j);
            lo <= hi && Wrap(Wrap(hi - 1) - Wrap(lo) + 1) == hi - lo
  {
    if j == 0 {
      assert base <= maps[s[0]].start;
    } else if j < |s| {
      assert maps[s[j - 1]].end < maps[s[j]].start;
    } else {
      assert maps[s[j - 1]].end < base + size;
    }
    var lo, hi := GapStart(maps, s, base, j), GapEnd(maps, s, base, size, j);
    assert hi - lo < W by {
      assert Covers(maps[s[0]], maps[s[0]].start);
    }
  }

  /** A free range lies within one gap. */
  lemma FreeInGap(maps: map<Ref, Mapping>, s: seq<Ref>, base: nat, size: nat, a: nat, n: nat) returns (j: nat)
    requires Ordered(maps, s) && Inside(maps, s, base, size) && Free(maps, s, base, size, a, n) && n > 0
    ensures j <= |s| && GapStart(maps, s, base, j) <= a && a + n <= GapEnd(maps, s, base, size, j)
  {
    j := 0;
    while j < |s| && maps[s[j]].end < a
      invariant j <= |s| && GapStart(maps, s, base, j) <= a
    {
      j := j + 1;
    }
  }

  /** And whatever lies within a gap is free. */
  lemma GapIsFree(maps: map<Ref, Mapping>, s: seq<Ref>, base: nat, size: nat, j: nat, a: nat, n: nat)
    requires Ordered(maps, s) && Inside(maps, s, base, size) && j <= |s|
    requires GapStart(maps, s, base, j) <= a && a + n <= GapEnd(maps, s, base, size, j)
    ensures Free(maps, s, base, size, a, n)
  {
    forall i | 0 <= i < |s| ensures maps[s[i]].end < a || a + n <= maps[s[i]].start {
      if i < j - 1 {
        assert maps[s[i]].end < maps[s[j - 1]].start;
      } else if i > j {
        assert maps[s[j]].end < maps[s[i]].start;
      }
    }
    if 0 < j {
      assert base <= maps[s[j - 1]].start;
    }
    if j < |s| {
      assert maps[s[j]].end < base + size;
    }
  }

  /** Rounding a page boundary up to a multiple of whole pages moves it by less than the
      multiple, and by whole pages: the padding align - PAGE_SIZE is always enough. */
  lemma AlignUp(a: nat, align: nat)
    requires a % PAGE_SIZE == 0 && align % PAGE_SIZE == 0 && align > 0
    ensures var r := (a + align - 1) / align * align;
            a <= r <= a + align - PAGE_SIZE && r % align == 0 && r % PAGE_SIZE == 0
  {
    var q := (a + align - 1) / align;
    var r := q * align;
    var k := align / PAGE_SIZE;
    assert align == k * PAGE_SIZE;
    MultipleOf(q, k);
    assert a <= r <= a + align - 1 by {
      assert a + align - 1 == q * align + (a + align - 1) % align;
    }
    MultipleMod(q, align);
  }

  lemma MultipleOf(q: nat, k: nat)
    ensures (q * (k * PAGE_SIZE)) % PAGE_SIZE == 0
  {
    assert q * (k * PAGE_SIZE) == (q * k) * PAGE_SIZE;
  }

  lemma Scale(d: int, align: nat)
    ensures d >= 1 ==> d * align >= align
    ensures d <= -1 ==> d * align + align <= 0
  {
  }

  lemma MultipleMod(q: nat, align: nat)
    requires align > 0
    ensures (q * align) % align == 0
  {
    var x := q * align;
    var d, rem := q - x / align, x % align;
    assert d * align == rem by {
      assert x == (x / align) * align + rem;
    }
    Scale(d, align);
  }

  predicate Multiple(x: nat, d: nat)
  {
    d > 0 && x % d == 0
  }

  /** n pages in bytes. */
  function Pages(n: nat): nat
  {
    n * PAGE_SIZE
  }

  // ---- requests, as 32-bit arithmetic computes them

  /** npg_align pages in bytes; no alignment for fewer than two pages, and none either when
      the product wraps to zero. */
  function AlignBytes(npgAlign: nat): nat
  {
    if npgAlign < 2 then 0 else Wrap(Pages(npgAlign))
  }

  /** The size that is searched for: the request and the padding of the alignment. */
  function Needed(n: nat, npgAlign: nat): nat
  {
    Wrap(n + if npgAlign < 2 then 0 else Wrap(AlignBytes(npgAlign) - PAGE_SIZE))
  }

  /** The base address rounded up to the alignment. */
  function RoundedUp(lo: nat, align: nat): nat
  {
    if align == 0 then lo else Times(Wrap(lo + align - 1) / align, align)
  }

  function Times(q: nat, d: nat): nat
  {
    q * d
  }

  /** The padded request does not wrap: this is all a caller has to check. */
  predicate NoOverflow(n: nat, npgAlign: nat)
  {
    npgAlign < 2 || (npgAlign * 4096 % 0x1_0000_0000 > 0 && n + npgAlign * 4096 % 0x1_0000_0000 - 4096 < 0x1_0000_0000)
  }

  /** No mapping compares equal to the range. */
  ghost predicate Unmet(maps: map<Ref, Mapping>, s: seq<Ref>, start: nat, end: nat)
  {
    forall j :: 0 <= j < |s| ==> s[j] in maps && Compare(start, end, maps[s[j]]) != 0
  }

  /** What vm_aspace_create_mapping_exactly lets through: it does not look at the top end. */
  ghost predicate Accepted(maps: map<Ref, Mapping>, s: seq<Ref>, base: nat, size: nat, b: nat, n: nat)
  {
    base <= b && 0 < n <= size && Unmet(maps, s, b, Wrap(b + n - 1))
  }

  /** a is the lowest address with n free bytes. */
  ghost predicate LowestFree(maps: map<Ref, Mapping>, s: seq<Ref>, base: nat, size: nat, a: nat, n: nat)
  {
    Free(maps, s, base, size, a, n) && forall b :: Free(maps, s, base, size, b, n) ==> a <= b
  }

  /** A well-formed memory map, page aligned throughout. */
  ghost predicate PageMap(maps: map<Ref, Mapping>, s: seq<Ref>, base: nat, size: nat)
  {
    && 0 < size < W && base + size <= W && base % PAGE_SIZE == 0
    && Ordered(maps, s) && Inside(maps, s, base, size) && PageAligned(maps, s)
  }

  /** An accepted range lies in a gap exactly when it ends within the map: the search of the
      tree sees every collision but none with the top end. */
  lemma AcceptedIsFree(maps: map<Ref, Mapping>, s: seq<Ref>, base: nat, size: nat, b: nat, n: nat)
    requires Ordered(maps, s) && Inside(maps, s, base, size) && base + size <= W && base <= b && 0 < n <= size
    ensures b + n <= base + size ==> (Accepted(maps, s, base, size, b, n) <==> Free(maps, s, base, size, b, n))
    ensures Accepted(maps, s, base, size, b, n) ==> (Free(maps, s, base, size, b, n) <==> b + n <= base + size)
  {
    if b + n <= base + size {
      assert Wrap(b + n - 1) == b + n - 1;
      forall j | 0 <= j < |s|
        ensures Compare(b, b + n - 1, maps[s[j]]) != 0 <==> maps[s[j]].end < b || b + n <= maps[s[j]].start
      {
        assert maps[s[j]].start <= maps[s[j]].end;
      }
    }
  }

  /** Part of a free range is free. */
  lemma PartFree(maps: map<Ref, Mapping>, s: seq<Ref>, base: nat, size: nat, a: nat, n: nat, a': nat, n': nat)
    requires Free(maps, s, base, size, a, n) && a <= a' && a' + n' <= a + n
    ensures Free(maps, s, base, size, a', n')
  {
  }

  lemma {:induction false} RoundsUp(lo: nat, align: nat)
    requires lo % PAGE_SIZE == 0 && align % PAGE_SIZE == 0 && align > 0 && lo + align - 1 < W
    ensures var b := RoundedUp(lo, align);
            lo <= b <= lo + align - PAGE_SIZE && b % PAGE_SIZE == 0 && Multiple(b, align)
  {
    hide Wrap;
    WrapSmall(lo + align - 1);
    AlignUp(lo, align);
  }

  lemma RoundsNot(lo: nat)
    ensures RoundedUp(lo, 0) == lo
  {
  }

  /** Without overflow the aligned range stays in the gap that was found. */
  lemma StaysInGap(maps: map<Ref, Mapping>, s: seq<Ref>, base: nat, size: nat, lo: nat, n: nat, npgAlign: nat)
    requires base + size <= W && 0 < n < W && npgAlign < W && NoOverflow(n, npgAlign)
    requires npgAlign >= 2 ==> lo % PAGE_SIZE == 0
    requires Free(maps, s, base, size, lo, Needed(n, npgAlign))
    ensures var b := RoundedUp(lo, AlignBytes(npgAlign));
      && lo <= b && Free(maps, s, base, size, b, n) && b + n <= lo + Needed(n, npgAlign)
      && (AlignBytes(npgAlign) > 0 ==> Multiple(b, AlignBytes(npgAlign))) && (npgAlign >= 2 ==> b % PAGE_SIZE == 0)
      && (if npgAlign < 2 then b == lo else LeastMultiple(b, npgAlign * 4096 % 0x1_0000_0000, lo))
  {
    var align := AlignBytes(npgAlign);
    Padded(n, npgAlign);
    FreeBound(maps, s, base, size, lo, Needed(n, npgAlign));
    assert npgAlign < 2 ==> align == 0;
    assert NoOverflow(n, npgAlign) && npgAlign >= 2 ==> align > 0;
    assert npgAlign >= 2 ==> align == npgAlign * 4096 % 0x1_0000_0000;
    hide Free, AlignBytes, Needed, RoundedUp, NoOverflow, Multiple, LeastMultiple;
    if align > 0 {
      RoundsUp(lo, align);
      RoundsToLeast(lo, align);
    } else {
      RoundsNot(lo);
    }
    PartFree(maps, s, base, size, lo, Needed(n, npgAlign), RoundedUp(lo, align), n);
  }

  lemma FreeBound(maps: map<Ref, Mapping>, s: seq<Ref>, base: nat, size: nat, a: nat, n: nat)
    requires Free(maps, s, base, size, a, n)
    ensures base <= a && a + n <= base + size
  {
  }

  lemma Padded(n: nat, npgAlign: nat)
    requires n < W && npgAlign < W
    ensures AlignBytes(npgAlign) % PAGE_SIZE == 0 && AlignBytes(npgAlign) < W
    ensures NoOverflow(n, npgAlign) ==>
      Needed(n, npgAlign) == n + if npgAlign < 2 then 0 else AlignBytes(npgAlign) - PAGE_SIZE
    ensures AlignBytes(npgAlign) == 0 && npgAlign >= 2 && n >= PAGE_SIZE ==> Needed(n, npgAlign) == n - PAGE_SIZE
    ensures AlignBytes(npgAlign) == 0 && npgAlign >= 2 && n < PAGE_SIZE ==> Needed(n, npgAlign) == W + n - PAGE_SIZE
    ensures AlignBytes(npgAlign) > 0 && !NoOverflow(n, npgAlign) ==>
      Needed(n, npgAlign) == n + AlignBytes(npgAlign) - PAGE_SIZE - W
  {
    if npgAlign >= 2 {
      var p := Pages(npgAlign);
      assert p % PAGE_SIZE == 0;
      WrapPage(p);
      var a := AlignBytes(npgAlign);
      if a == 0 {
        assert Wrap(a - PAGE_SIZE) == W - PAGE_SIZE;
      } else {
        assert Wrap(a - PAGE_SIZE) == a - PAGE_SIZE;
      }
    }
  }

  lemma WrapPage(p: nat)
    requires p % PAGE_SIZE == 0
    ensures Wrap(p) % PAGE_SIZE == 0 && Wrap(p) < W
  {
    var q := p / PAGE_SIZE;
    assert p == q * 4096;
    assert Wrap(p) == p - p / W * W;
    assert Wrap(p) == (q - p / W * 0x10_0000) * 4096;
  }

  /** The same, step by step. */
  lemma Computed(n: nat, npgAlign: nat)
    ensures npgAlign < 2 ==> AlignBytes(npgAlign) == 0 && Needed(n, npgAlign) == Wrap(n)
    ensures npgAlign >= 2 ==>
      var align := Wrap(Pages(npgAlign));
      AlignBytes(npgAlign) == align && Needed(n, npgAlign) == Wrap(n + Wrap(align - PAGE_SIZE))
  {
  }

  // ---- requests in plain numbers

  /** b is the least multiple of d from lo on. */
  ghost predicate LeastMultiple(b: nat, d: nat, lo: nat)
  {
    d > 0 && b % d == 0 && lo <= b && forall c :: lo <= c < b ==> c % d != 0
  }

  /** An alignment of two pages or more, where neither product nor sum needs more than 32 bits:
      that many pages, and all but one of them more to search for. Fewer pages are no alignment. */
  lemma PlainRequest(n: nat, npgAlign: nat)
    requires 0 < n < 0x1_0000_0000
    ensures npgAlign < 2 ==> AlignBytes(npgAlign) == 0 && Needed(n, npgAlign) == n && NoOverflow(n, npgAlign)
    ensures npgAlign >= 2 && npgAlign * 4096 < 0x1_0000_0000 && n + (npgAlign - 1) * 4096 < 0x1_0000_0000 ==>
              && AlignBytes(npgAlign) == npgAlign * 4096 && Needed(n, npgAlign) == n + (npgAlign - 1) * 4096
              && NoOverflow(n, npgAlign)
  {
  }

  /** Rounding up finds the least multiple. */
  lemma {:induction false} RoundsToLeast(lo: nat, align: nat)
    requires align > 0 && lo + align - 1 < 0x1_0000_0000
    ensures LeastMultiple(RoundedUp(lo, align), align, lo)
  {
    hide Wrap;
    WrapSmall(lo + align - 1);
    var x := lo + align - 1;
    var q := x / align;
    LeastFrom(x, q, align);
    MultipleMod(q, align);
    forall c | lo <= c < q * align ensures c % align != 0 {
      if c % align == 0 {
        MultiplesApart(c, q, align);
      }
    }
  }

  lemma {:induction false} MultiplesApart(c: nat, q: nat, align: nat)
    requires align > 0 && c % align == 0 && c < q * align
    ensures c + align <= q * align
  {
    var k := c / align;
    LeastFrom(c, k, align);
    Scale(q - k, align);
    assert (q - k) * align == q * align - k * align;
  }

  lemma LeastFrom(x: nat, q: nat, align: nat)
    requires align > 0 && q == x / align
    ensures q * align <= x < q * align + align && x == q * align + x % align
  {
  }

  /** A created mapping that lies in no gap. */
  ghost predicate Misplaced(maps: map<Ref, Mapping>, s: seq<Ref>, base: nat, size: nat, lo: nat, n: nat, npgAlign: nat)
  {
    var b := RoundedUp(lo, AlignBytes(npgAlign));
    && PageMap(maps, s, base, size) && LowestFree(maps, s, base, size, lo, Needed(n, npgAlign))
    && (lo == base || exists j :: 0 <= j < |s| && lo == maps[s[j]].end + 1)
    && Accepted(maps, s, base, size, b, n) && !Free(maps, s, base, size, b, n)
  }

  /** Requests that are never misplaced: those that do not wrap, and a page or less with an
      alignment that wraps to nothing, for which the search is for nothing or for all but a
      page of the address space. */
  predicate Safe(n: nat, npgAlign: nat)
  {
    NoOverflow(n, npgAlign) || (npgAlign * 4096 % 0x1_0000_0000 == 0 && n <= 4096)
  }

  /** For every request: no map exists in which its mapping is misplaced, if and only if the
      request is safe. */
  lemma PlacementIff(n: nat, npgAlign: nat)
    requires 0 < n < W && npgAlign < W
    ensures Safe(n, npgAlign) <==>
      forall maps: map<Ref, Mapping>, s: seq<Ref>, base: nat, size: nat,
          lo: nat :: !Misplaced(maps, s, base, size, lo, n, npgAlign)
  {
    if Safe(n, npgAlign) {
      forall maps: map<Ref, Mapping>, s: seq<Ref>, base: nat, size: nat, lo: nat
        ensures !Misplaced(maps, s, base, size, lo, n, npgAlign) {
        if LowestFree(maps, s, base, size, lo, Needed(n, npgAlign)) && PageMap(maps, s, base, size)
           && (lo == base || exists j :: 0 <= j < |s| && lo == maps[s[j]].end + 1) {
          SafePlaced(maps, s, base, size, lo, n, npgAlign);
        }
      }
    } else {
      var maps, s, base, lo := Witness(n, npgAlign);
      assert Misplaced(maps, s, base, n, lo, n, npgAlign);
    }
  }

  lemma SafePlaced(maps: map<Ref, Mapping>, s: seq<Ref>, base: nat, size: nat, lo: nat, n: nat, npgAlign: nat)
    requires 0 < n < W && npgAlign < W && Safe(n, npgAlign) && PageMap(maps, s, base, size)
    requires LowestFree(maps, s, base, size, lo, Needed(n, npgAlign))
    requires lo == base || exists j :: 0 <= j < |s| && lo == maps[s[j]].end + 1
    ensures var b := RoundedUp(lo, AlignBytes(npgAlign));
      Accepted(maps, s, base, size, b, n) ==> Free(maps, s, base, size, b, n)
  {
    if NoOverflow(n, npgAlign) {
      StaysInGap(maps, s, base, size, lo, n, npgAlign);
    } else {
      Padded(n, npgAlign);
      if n < PAGE_SIZE {
        PartFree(maps, s, base, size, lo, Needed(n, npgAlign), lo, n);
      } else {
        assert Free(maps, s, base, size, base, 0);
        if n <= size {
          AcceptedIsFree(maps, s, base, size, lo, n);
        }
      }
    }
  }

  /** A map in which an unsafe request is misplaced: where the padding wraps, the empty map of
      just the size asked for from the second page on; where that would not end within the
      address space or the alignment wraps to zero, a map of that size from address 0 whose
      first page is taken. */
  lemma Witness(n: nat, npgAlign: nat) returns (maps: map<Ref, Mapping>, s: seq<Ref>, base: nat, lo: nat)
    requires 0 < n < W && npgAlign < W && !Safe(n, npgAlign)
    ensures Misplaced(maps, s, base, n, lo, n, npgAlign)
  {
    hide Safe, Misplaced;
    lo := PAGE_SIZE;
    if AlignBytes(npgAlign) > 0 && PAGE_SIZE + n <= W {
      maps, s, base := map[], [], PAGE_SIZE;
      WitnessEmpty(n, npgAlign);
    } else {
      maps, s, base := map[1 := Mapping(0, PAGE_SIZE - 1, Hole, NULL)], [1], 0;
      WitnessTaken(n, npgAlign);
    }
  }

  lemma EmptyNumbers(n: nat, npgAlign: nat)
    requires 0 < n < W && npgAlign < W && !Safe(n, npgAlign) && AlignBytes(npgAlign) > 0 && PAGE_SIZE + n <= W
    ensures Needed(n, npgAlign) <= n && RoundedUp(PAGE_SIZE, AlignBytes(npgAlign)) > PAGE_SIZE
  {
    var align := AlignBytes(npgAlign);
    Padded(n, npgAlign);
    assert Wrap(PAGE_SIZE + align - 1) == PAGE_SIZE + align - 1;
    RoundPage(align);
  }

  lemma WitnessEmpty(n: nat, npgAlign: nat)
    requires 0 < n < W && npgAlign < W && !Safe(n, npgAlign) && AlignBytes(npgAlign) > 0 && PAGE_SIZE + n <= W
    ensures Misplaced(map[], [], PAGE_SIZE, n, PAGE_SIZE, n, npgAlign)
  {
    hide Safe, Needed, RoundedUp, AlignBytes;
    EmptyNumbers(n, npgAlign);
  }

  lemma TakenNumbers(n: nat, npgAlign: nat)
    requires 0 < n < W && npgAlign < W && !Safe(n, npgAlign)
    requires AlignBytes(npgAlign) == 0 || PAGE_SIZE + n > W
    ensures 0 < Needed(n, npgAlign) && PAGE_SIZE + Needed(n, npgAlign) <= n
    ensures RoundedUp(PAGE_SIZE, AlignBytes(npgAlign)) >= PAGE_SIZE
  {
    var align := AlignBytes(npgAlign);
    Padded(n, npgAlign);
    if align > 0 {
      assert Wrap(PAGE_SIZE + align - 1) == PAGE_SIZE + align - 1;
      RoundPage(align);
    }
  }

  lemma WitnessTaken(n: nat, npgAlign: nat)
    requires 0 < n < W && npgAlign < W && !Safe(n, npgAlign)
    requires AlignBytes(npgAlign) == 0 || PAGE_SIZE + n > W
    ensures Misplaced(map[1 := Mapping(0, PAGE_SIZE - 1, Hole, NULL)], [1], 0, n, PAGE_SIZE, n, npgAlign)
  {
    hide Safe, Needed, RoundedUp, AlignBytes;
    TakenNumbers(n, npgAlign);
    var maps: map<Ref, Mapping>, s: seq<Ref> := map[1 := Mapping(0, PAGE_SIZE - 1, Hole, NULL)], [1];
    assert PAGE_SIZE == maps[s[0]].end + 1;
    forall b: nat | Free(maps, s, 0, n, b, Needed(n, npgAlign)) ensures PAGE_SIZE <= b {
      AfterFirst(maps, s, 0, n, b, Needed(n, npgAlign));
    }
  }

  /** The second page rounded up to a multiple of two pages or more. */
  lemma RoundPage(align: nat)
    requires align > PAGE_SIZE
    ensures (PAGE_SIZE + align - 1) / align * align == align
  {
    var x := PAGE_SIZE + align - 1;
    assert x / align == 1;
  }

  lemma AfterFirst(maps: map<Ref, Mapping>, s: seq<Ref>, base: nat, size: nat, b: nat, n: nat)
    requires Free(maps, s, base, size, b, n) && n > 0 && s != [] && s[0] in maps && maps[s[0]].start == base
    ensures maps[s[0]].end < b
  {
  }

  /** At 2^32 less a page with an alignment of three pages the search is for one page only.
      With two pages mapped, the range returned runs around the end of the address space and
      over the second of them, and is accepted. */
  lemma OverflowExample()
    ensures var n, maps := 0xFFFF_F000,
            map[1 := Mapping(0, 0xFFF, Hole, NULL), 2 := Mapping(0x5000, 0x5FFF, Hole, NULL)];
      && AlignBytes(3) == 0x3000 && Needed(n, 3) == PAGE_SIZE
      && PageMap(maps, [1, 2], 0, n) && LowestFree(maps, [1, 2], 0, n, 0x1000, Needed(n, 3))
      && RoundedUp(0x1000, 0x3000) == 0x3000 && Wrap(0x3000 + n - 1) == 0x1FFF
      && Accepted(maps, [1, 2], 0, n, 0x3000, n)
      && 0x3000 <= maps[2].start && maps[2].end < 0x3000 + n
  {
    var n, maps := 0xFFFF_F000, map[1 := Mapping(0, 0xFFF, Hole, NULL), 2 := Mapping(0x5000, 0x5FFF, Hole, NULL)];
    forall b: nat | Free(maps, [1, 2], 0, n, b, PAGE_SIZE) ensures 0x1000 <= b {
      AfterFirst(maps, [1, 2], 0, n, b, PAGE_SIZE);
    }
  }
}
