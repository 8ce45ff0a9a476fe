/** The kernel heap (heap.c): bins of equal-sized blocks, grown a page or more at a time from
    the unused end of the heap area. The free counts kept per page are not modelled. */
module KernelHeap {
  import opened HeapBlocks

  /** Where the original panics, the call ends without a block. */
  datatype Outcome = Block(a: nat) | TooBig | Overgrown | Astray

  /** How a growth ends. Lost: the new heap pointer wraps past the end of the address space, so
      that the original goes on with a heap pointer below the heap area. */
  datatype Growth = Grown | NoRoom | Lost

  const W := 0x1_0000_0000

  ghost predicate TilesOk(tiles: seq<nat>, owner: Owner, base: nat, ptr: nat)
  {
    && Tiled(tiles, owner, base, ptr) && (forall a :: a in owner <==> a in tiles)
    && forall a :: a in owner ==> owner[a] < BINS && Aligned(owner[a], a)
  }

  /** The page table names the bin of every block on each of the block's pages. */
  ghost predicate TableOk(table: seq<nat>, owner: Owner, base: nat, ptr: nat)
  {
    forall a: nat, o: nat :: OnPage(owner, a, o) ==> base <= a && a + o < ptr && Marked(table, base, a + o, owner[a])
  }

  /** Address a + o belongs to block a. */
  ghost predicate OnPage(owner: Owner, a: nat, o: nat)
  {
    a in owner && owner[a] < BINS && o < Elem(owner[a])
  }

  /** The page of address x belongs to bin b. */
  ghost predicate Marked(table: seq<nat>, base: nat, x: nat, b: nat)
  {
    base <= x && (x - base) / PAGE_SIZE < |table| && table[(x - base) / PAGE_SIZE] == b
  }

  lemma PageBelow(base: nat, ptr: nat, x: nat)
    requires base % PAGE_SIZE == 0 && ptr % PAGE_SIZE == 0 && base <= x && base <= ptr
    ensures x < ptr <==> (x - base) / PAGE_SIZE < (ptr - base) / PAGE_SIZE
  {
  }

  ghost predicate BinsOk(bins: seq<Bin>, free: seq<seq<nat>>, live: seq<set<nat>>, owner: Owner, m: Memory)
  {
    && |bins| == BINS && |free| == BINS && |live| == BINS
    && forall b :: 0 <= b < BINS ==> BinOk(b, bins[b], free[b], live[b], owner, m)
  }

  /** A new run of blocks after the old ones. */
  lemma TilesGrow(tiles: seq<nat>, owner: Owner, base: nat, ptr: nat, b: nat, owner': Owner)
    requires TilesOk(tiles, owner, base, ptr) && b < BINS && ptr % PAGE_SIZE == 0
    requires forall a :: a in owner' <==> a in owner || a in Run(ptr, Elem(b), PerGrowth(b))
    requires forall a :: a in owner ==> owner'[a] == owner[a]
    requires forall a :: a in Run(ptr, Elem(b), PerGrowth(b)) ==> owner'[a] == b
    ensures TilesOk(tiles + Run(ptr, Elem(b), PerGrowth(b)), owner', base, ptr + Grow(b))
  {
    hide Aligned, Elem, Grow, PerGrowth;
    var run := Run(ptr, Elem(b), PerGrowth(b));
    PerGrowthIsQuotient(b);
    RunTiled(b, owner', ptr, PerGrowth(b));
    TiledFrame(tiles, owner, owner', base, ptr);
    TiledAppend(tiles, run, owner', base, ptr, ptr + Grow(b));
    AlignedStart(b, ptr);
    RunAligned(b, ptr, PerGrowth(b));
  }

  lemma NewBlocksAreNew(tiles: seq<nat>, owner: Owner, base: nat, ptr: nat, b: nat)
    requires TilesOk(tiles, owner, base, ptr) && b < BINS
    ensures forall a :: a in Run(ptr, Elem(b), PerGrowth(b)) ==> a !in owner
  {
    hide Aligned, Elem, Grow, PerGrowth;
    TiledBounds(tiles, owner, base, ptr);
    RunBounds(ptr, Elem(b), PerGrowth(b));
  }

  /** The pages from ptr to end now belong to bin b. */
  ghost predicate PagesSet(table: seq<nat>, table': seq<nat>, base: nat, ptr: nat, end: nat, b: nat)
    requires base <= ptr <= end
  {
    && |table'| == |table| && (end - base) / PAGE_SIZE <= |table|
    && forall p :: 0 <= p < |table| ==>
       table'[p] == if (ptr - base) / PAGE_SIZE <= p < (end - base) / PAGE_SIZE then b else table[p]
  }

  lemma MarkedAfter(table: seq<nat>, table': seq<nat>, base: nat, ptr: nat, end: nat, b: nat, x: nat, c: nat)
    requires base % PAGE_SIZE == 0 && ptr % PAGE_SIZE == 0 && end % PAGE_SIZE == 0 && base <= ptr <= end
    requires PagesSet(table, table', base, ptr, end, b)
    ensures ptr <= x < end ==> Marked(table', base, x, b)
    ensures x < ptr && Marked(table, base, x, c) ==> Marked(table', base, x, c)
  {
    if base <= x {
      PageBelow(base, ptr, x);
      PageBelow(base, end, x);
    }
  }

  lemma SumOfPages(x: nat, y: nat)
    requires x % PAGE_SIZE == 0 && y % PAGE_SIZE == 0
    ensures (x + y) % PAGE_SIZE == 0
  {
  }

  lemma TableGrows(table: seq<nat>, table': seq<nat>, tiles: seq<nat>, owner: Owner, base: nat, ptr: nat, b: nat,
                   owner': Owner)
    requires TilesOk(tiles, owner, base, ptr) && TableOk(table, owner, base, ptr) && b < BINS
    requires base <= ptr && base % PAGE_SIZE == 0 && ptr % PAGE_SIZE == 0
    requires forall a :: a in owner' <==> a in owner || a in Run(ptr, Elem(b), PerGrowth(b))
    requires forall a :: a in owner ==> owner'[a] == owner[a]
    requires forall a :: a in Run(ptr, Elem(b), PerGrowth(b)) ==> owner'[a] == b
    requires PagesSet(table, table', base, ptr, ptr + Grow(b), b)
    ensures TableOk(table', owner', base, ptr + Grow(b))
  {
    hide Aligned, Elem, Grow, PerGrowth, Tiled, Marked, PagesSet;
    PerGrowthIsQuotient(b);
    SumOfPages(ptr, Grow(b));
    RunBounds(ptr, Elem(b), PerGrowth(b));
    forall a: nat, o: nat | OnPage(owner', a, o)
      ensures base <= a && a + o < ptr + Grow(b) && Marked(table', base, a + o, owner'[a])
    {
      MarkedAfter(table, table', base, ptr, ptr + Grow(b), b, a + o, owner'[a]);
      if a in owner {
        assert OnPage(owner, a, o);
      } else {
        assert ptr <= a + o < ptr + Grow(b);
      }
    }
  }

  /** All blocks of a bin: allocated, free and not yet carved. */
  function Blocks(x: Bin): int
  {
    x.alloc + x.free + x.rawCount
  }

  class Heap {
    var base: nat
    var size: nat
    var ptr: nat
    const bins: array<Bin>
    const table: array<nat>
    var mem: Memory
    ghost var tiles: seq<nat>
    ghost var owner: Owner
    ghost var free: seq<seq<nat>>
    ghost var live: seq<set<nat>>

    ghost predicate Valid()
      reads this, bins, table
    {
      && 0 < base && base % PAGE_SIZE == 0 && size % PAGE_SIZE == 0 && ptr % PAGE_SIZE == 0
      && base <= ptr <= base + size && base + size < W && table.Length * PAGE_SIZE == size
      && TilesOk(tiles, owner, base, ptr) && TableOk(table[..], owner, base, ptr)
         && BinsOk(bins[..], free, live, owner, mem)
    }

    /** Blocks that callers hold. */
    ghost predicate Live(a: nat)
      reads this
    {
      exists b :: 0 <= b < |live| && a in live[b]
    }

    /** heap_init, for a region of n bytes at r, where what it lays out ends below the top of the
        address space. It stays in the region under RegionFits' condition, so
        always when n is a whole number of pages. */
    constructor (r: nat, n: nat)
      requires 0 < r && r % PAGE_SIZE == 0 && r + TableSpace(n) + HeapSize(n) < W
      ensures Valid() && size == HeapSize(n) && base == r + TableSpace(n)
      ensures base + size <= r + n <==> (n / PAGE_SIZE % 2049 == 0 || n % PAGE_SIZE < 2 * (n / PAGE_SIZE % 2049))
      ensures tiles == [] && forall a :: !Live(a)
      ensures fresh(bins) && fresh(table)
    {
      hide HeapSize, TableSpace;
      RegionFits(n);
      WholePages(n, r);
      base, size, ptr := r + TableSpace(n), HeapSize(n), r + TableSpace(n);
      bins := new Bin[BINS](_ => Bin(0, NULL, 0, 0, 0));
      table := new nat[HeapSize(n) / PAGE_SIZE](_ => 0);
      mem := map[];
      tiles, owner, free, live := [], map[], seq(BINS, _ => []), seq(BINS, _ => {});
    }

    /** The first bin whose blocks are large enough. */
    method FindBin(n: nat) returns (b: nat)
      ensures b <= BINS
      ensures b < BINS ==> n <= Elem(b) && forall c :: 0 <= c < b ==> Elem(c) < n
      ensures b == BINS ==> forall c :: 0 <= c < BINS ==> Elem(c) < n
    {
      b := 0;
      while b < BINS
        invariant b <= BINS && forall c :: 0 <= c < b ==> Elem(c) < n
      {
        if n <= Elem(b) {
          break;
        }
        b := b + 1;
      }
    }

    /** The loop of raw_alloc over the pages from the heap pointer to end. */
    method MarkPages(b: nat, end: nat)
      requires base % PAGE_SIZE == 0 && ptr % PAGE_SIZE == 0 && end % PAGE_SIZE == 0 && base <= ptr <= end
      requires (end - base) / PAGE_SIZE <= table.Length
      modifies table
      ensures PagesSet(old(table[..]), table[..], base, ptr, end, b)
    {
      var addr := ptr;
      while addr < end
        invariant ptr <= addr <= end && addr % PAGE_SIZE == 0
        invariant PagesSet(old(table[..]), table[..], base, ptr, addr, b)
      {
        PageBelow(base, end, addr);
        table[(addr - base) / PAGE_SIZE] := b;
        addr := addr + PAGE_SIZE;
      }
    }

    /** raw_alloc: extend the used part of the heap area by one growth of bin b. */
    method RawAlloc(b: nat) returns (g: Growth)
      requires Valid() && b < BINS && bins[b].rawCount == 0
      modifies this`ptr, this`tiles, this`owner, bins, table
      ensures Valid() && (g == Grown <==> old(ptr) + Grow(b) <= base + size) && (g == Lost <==> old(ptr) + Grow(b) >= W)
      ensures g != Grown ==> ptr == old(ptr) && owner == old(owner) && tiles == old(tiles) && bins[..] == old(bins[..])
      ensures g == Grown ==> ptr == old(ptr) + Grow(b) && tiles == old(tiles) + Run(old(ptr), Elem(b), PerGrowth(b))
      ensures g == Grown ==> bins[..] == old(bins[..])[b := old(bins[b]).(raw := old(ptr), rawCount := PerGrowth(b))]
    {
      hide BinsOk, Elem, Grow, PerGrowth, TilesOk, TableOk, PagesSet, Run, Claimed;
      assert bins.Length == BINS by { BinsAre(bins[..], free, live, owner, mem); }
      GrowBound(b);
      var end := (ptr + Grow(b)) % W;
      if end > base + size {
        return NoRoom;
      }
      if end < ptr {
        return Lost;
      }
      PerGrowthIsQuotient(b);
      SumOfPages(ptr, Grow(b));
      ghost var t0 := table[..];
      MarkPages(b, end);
      HeapGrows(t0, table[..], bins[..], tiles, owner, free, live, mem, base, ptr, b);
      bins[b] := bins[b].(raw := ptr, rawCount := Grow(b) / Elem(b));
      tiles, owner := tiles + Run(ptr, Elem(b), PerGrowth(b)), Claimed(owner, Run(ptr, Elem(b), PerGrowth(b)), b);
      ptr := end;
      g := Grown;
    }

    /** Take the first block of the free list. */
    method TakeFree(i: nat) returns (r: Outcome)
      requires Valid() && i < BINS && bins[i].head != NULL
      modifies this`free, this`live, bins
      ensures old(free[i]) != [] && r == Block(old(free[i])[0]) && free == old(free)[i := old(free[i])[1..]]
      ensures Valid() && r.Block? && r.a in owner && owner[r.a] == i && !old(Live(r.a))
              && live == old(live)[i := old(live)[i] + {r.a}]
      ensures bins[..] == old(bins[..])[i := bins[i]] && Blocks(bins[i]) == old(Blocks(bins[i]))
    {
      hide TilesOk, TableOk, BinOk, Elem;
      BinHead(i);
      BinTakesFree(i, bins[i], free[i], live[i], owner, mem);
      var a := bins[i].head;
      TakenFrom(i, a);
      BinsSet(bins[..], free, live, owner, mem, i,
          bins[i].(head := mem[a], free := bins[i].free - 1, alloc := bins[i].alloc + 1),
              free[i][1..], live[i] + {a});
      bins[i] := bins[i].(head := mem[a], free := bins[i].free - 1);
      bins[i] := bins[i].(alloc := bins[i].alloc + 1);
      free, live := free[i := free[i][1..]], live[i := live[i] + {a}];
      r := Block(a);
    }

    /** Carve the next raw block. */
    method TakeRaw(i: nat) returns (r: Outcome)
      requires Valid() && i < BINS && bins[i].rawCount > 0
      modifies this`live, bins
      ensures r == Block(old(bins[i].raw))
      ensures Valid() && r.Block? && r.a in owner && owner[r.a] == i && !old(Live(r.a))
              && live == old(live)[i := old(live)[i] + {r.a}]
      ensures bins[..] == old(bins[..])[i := bins[i]] && Blocks(bins[i]) == old(Blocks(bins[i]))
    {
      hide TilesOk, TableOk, BinOk, Elem;
      BinHead(i);
      BinTakesRaw(i, bins[i], free[i], live[i], owner, mem);
      var a := bins[i].raw;
      TakenFrom(i, a);
      BinsSet(bins[..], free, live, owner, mem, i,
              bins[i].(raw := a + Elem(i), rawCount := bins[i].rawCount - 1, alloc := bins[i].alloc + 1), free[i],
                  live[i] + {a});
      bins[i] := bins[i].(raw := a + Elem(i), rawCount := bins[i].rawCount - 1);
      bins[i] := bins[i].(alloc := bins[i].alloc + 1);
      live := live[i := live[i] + {a}];
      r := Block(a);
    }

    /** kmalloc. */
    method Kmalloc(n: nat) returns (r: Outcome, ghost b: nat)
      requires Valid()
      modifies this, bins, table
      ensures Valid() && base == old(base) && size == old(size)
      ensures r == TooBig <==> n > 24 * PAGE_SIZE
      ensures r != TooBig ==> b < BINS && n <= Elem(b) && forall c :: 0 <= c < b ==> Elem(c) < n
      ensures r.Block? ==>
              r.a in owner && owner[r.a] == b && !old(Live(r.a)) && live == old(live)[b := old(live)[b] + {r.a}]
      // the last block freed, or else the next one never used, or else the first of a growth
      ensures r.Block? ==>
                && r.a == (if old(free)[b] != [] then old(free)[b][0]
                           else if old(bins[..])[b].rawCount > 0 then old(bins[..])[b].raw else old(ptr))
                && free == if old(free)[b] != [] then old(free)[b := old(free)[b][1..]] else old(free)
      ensures !r.Block? ==> live == old(live) && owner == old(owner) && free == old(free)
      ensures r == Overgrown <==> n <= 24 * PAGE_SIZE && old(free)[b] == [] && old(bins[..])[b].rawCount == 0
                                  && base + size < old(ptr) + Grow(b) < W
      ensures r == Astray <==> n <= 24 * PAGE_SIZE && old(free)[b] == [] && old(bins[..])[b].rawCount == 0
                               && old(ptr) + Grow(b) >= W
      ensures r.Block? && (old(free)[b] != [] || old(bins[b]).rawCount > 0) ==> ptr == old(ptr) && tiles == old(tiles)
      ensures !r.Block? ==> bins[..] == old(bins[..]) && ptr == old(ptr)
      // the other bins stay as they are, and this one's blocks change in number only on growth
      ensures r.Block? ==>
        && bins[..] == old(bins[..])[b := bins[b]]
        && Blocks(bins[b]) == Blocks(old(bins[..])[b])
             + (if old(free)[b] == [] && old(bins[..])[b].rawCount == 0 then PerGrowth(b) else 0)
    {
      hide TilesOk, TableOk, BinOk, Elem;
      var i := FindBin(n);
      Largest(n, i);
      b := i;
      if i == BINS {
        return TooBig, b;
      }
      BinHead(i);
      if bins[i].head != NULL {
        r := TakeFree(i);
      } else {
        if bins[i].rawCount == 0 {
          var g := RawAlloc(i);
          if g != Grown {
            return if g == Lost then Astray else Overgrown, b;
          }
        }
        r := TakeRaw(i);
      }
    }

    lemma BinHead(i: nat)
      requires Valid() && i < BINS
      ensures BinOk(i, bins[i], free[i], live[i], owner, mem) && (bins[i].head != NULL <==> free[i] != [])
    {
    }

    /** A block that is free or raw is live for nobody. */
    lemma TakenFrom(i: nat, a: nat)
      requires Valid() && i < BINS && (a in free[i] || a in RawBlocks(i, bins[i]))
      ensures !Live(a) && a in owner && owner[a] == i
    {
      hide TilesOk, TableOk, Run;
      assert BinOk(i, bins[i], free[i], live[i], owner, mem);
      assert Owned(owner, a, i);
      forall c | 0 <= c < BINS ensures a !in live[c] {
        if c != i {
          assert BinOk(c, bins[c], free[c], live[c], owner, mem);
          assert a in live[c] ==> Owned(owner, a, c);
        }
      }
    }

    /** A live block belongs to just one bin and lies in the used part of the heap area. */
    lemma LiveKnown(a: nat) returns (b: nat)
      requires Valid() && Live(a)
      ensures b < BINS && a in live[b] && a in owner && owner[a] == b && Aligned(b, a)
      ensures base <= a && a + Elem(b) <= ptr && a !in free[b]
      ensures forall o: nat :: OnPage(owner, a, o) ==> Marked(table[..], base, a + o, b)
      ensures forall c :: 0 <= c < BINS && c != b ==> a !in free[c]
    {
      hide Elem, Aligned, Marked, Run, Chain;
      b :| 0 <= b < |live| && a in live[b];
      assert BinOk(b, bins[b], free[b], live[b], owner, mem);
      assert Owned(owner, a, b);
      TiledBounds(tiles, owner, base, ptr);
      forall c | 0 <= c < BINS && c != b ensures a !in free[c] {
        assert BinOk(c, bins[c], free[c], live[c], owner, mem);
        assert a in free[c] ==> Owned(owner, a, c);
      }
    }

    /** kfree; panics tells whether one of the original's checks would have failed. */
    method Kfree(a: nat) returns (panics: bool, ghost b: nat)
      requires Valid() && (a == NULL || Live(a))
      modifies this`mem, this`free, this`live, bins
      ensures Valid() && !panics
      ensures a == NULL ==> live == old(live) && free == old(free) && bins[..] == old(bins[..])
      ensures a != NULL ==> b < BINS && a in old(live)[b] && live == old(live)[b := old(live)[b] - {a}]
                            && free == old(free)[b := [a] + old(free)[b]]
      ensures a != NULL ==> bins[..] == old(bins[..])[b := bins[b]] && Blocks(bins[b]) == old(Blocks(bins[b]))
    {
      hide TilesOk, TableOk, BinOk, Elem;
      panics, b := false, 0;
      if a == NULL {
        return;
      }
      b := LiveKnown(a);
      if a < base || a >= base + size {
        return true, b;
      }
      assert OnPage(owner, a, 0) && Marked(table[..], base, a + 0, b);
      var i := table[(a - base) / PAGE_SIZE];
      if i >= BINS {
        return true, b;
      }
      SmallBins(i);
      if Elem(i) <= PAGE_SIZE && a % Elem(i) != 0 {
        return true, b;
      }
      panics := PagesDiffer(a, i);
      if panics {
        return;
      }
      panics := OnFreeList(i, a);
      if panics {
        return;
      }
      BinFrees(i, bins[i], free[i], live[i], owner, mem, a) by {
        BinHead(i);
      }
      BinsFreed(bins[..], free, live, owner, mem, i, a);
      mem := mem[a := bins[i].head];
      bins[i] := bins[i].(head := a, alloc := bins[i].alloc - 1, free := bins[i].free + 1);
      free, live := free[i := [a] + free[i]], live[i := live[i] - {a}];
    }

    /** The check that all pages of the block belong to its bin. */
    method PagesDiffer(a: nat, i: nat) returns (differ: bool)
      requires i < BINS && a in owner && owner[a] == i && base <= a
      requires forall o: nat :: OnPage(owner, a, o) ==> Marked(table[..], base, a + o, i)
      ensures !differ
    {
      differ := false;
      var p: nat := 0;
      while p < Elem(i) / PAGE_SIZE
      {
        PageStep(base, a, p, Elem(i));
        assert OnPage(owner, a, p * PAGE_SIZE) && Marked(table[..], base, a + p * PAGE_SIZE, i);
        if table[(a - base) / PAGE_SIZE + p] != i {
          return true;
        }
        p := p + 1;
      }
    }

    /** The walk of the free list that looks for the block being freed. */
    method OnFreeList(i: nat, a: nat) returns (found: bool)
      requires Valid() && i < BINS
      ensures found <==> a in free[i]
    {
      hide TilesOk, TableOk;
      BinHead(i);
      var temp := bins[i].head;
      ghost var rest := free[i];
      while temp != NULL
        invariant Chain(mem, temp, rest) && (a in free[i] <==> a in rest)
        decreases |rest|
      {
        if temp == a {
          return true;
        }
        temp := mem[temp];
        rest := rest[1..];
      }
      found := false;
    }

    /** The owner of a live block may write to it. */
    method UserWrite(a: nat, v: nat)
      requires Valid() && Live(a)
      modifies this`mem
      ensures Valid() && mem == old(mem)[a := v]
    {
      hide TilesOk, TableOk, BinOk;
      ghost var b := LiveKnown(a);
      forall c | 0 <= c < BINS ensures BinOk(c, bins[c], free[c], live[c], owner, mem[a := v]) {
        BinMemory(c, bins[c], free[c], live[c], owner, mem, a, v);
      }
      mem := mem[a := v];
    }

    /** Distinct live blocks never overlap. */
    lemma LiveBlocksApart(a: nat, a': nat)
      requires Valid() && Live(a) && Live(a') && a < a'
      ensures a in owner && owner[a] < BINS && a + Elem(owner[a]) <= a'
    {
      var b := LiveKnown(a);
      var b' := LiveKnown(a');
      TilesApart(tiles, owner, base, ptr, a, a');
    }
  }

  lemma GrowBound(b: nat)
    requires b < BINS
    ensures 0 < Grow(b) <= 24 * PAGE_SIZE
  {
  }

  lemma Largest(n: nat, b: nat)
    requires b <= BINS && (b < BINS ==> n <= Elem(b)) && forall c :: 0 <= c < b ==> Elem(c) < n
    ensures b == BINS <==> n > 24 * PAGE_SIZE
  {
    if b == BINS {
      assert Elem(31) < n;
    }
  }

  lemma SmallBins(i: nat)
    requires i < BINS
    ensures Elem(i) <= PAGE_SIZE ==> i <= 8
  {
  }

  lemma PageStep(base: nat, a: nat, p: nat, e: nat)
    requires base <= a && p < e / PAGE_SIZE
    ensures (a + p * PAGE_SIZE - base) / PAGE_SIZE == (a - base) / PAGE_SIZE + p && p * PAGE_SIZE < e
  {
  }

  lemma BinsSet(bins: seq<Bin>, free: seq<seq<nat>>, live: seq<set<nat>>, owner: Owner, m: Memory, i: nat, x: Bin,
                f: seq<nat>, l: set<nat>)
    requires BinsOk(bins, free, live, owner, m) && i < BINS && BinOk(i, x, f, l, owner, m)
    ensures BinsOk(bins[i := x], free[i := f], live[i := l], owner, m)
  {
  }

  lemma BinsGrow(bins: seq<Bin>, bins': seq<Bin>, free: seq<seq<nat>>, live: seq<set<nat>>, owner: Owner,
                 owner': Owner, m: Memory,
                 b: nat, start: nat)
    requires BinsOk(bins, free, live, owner, m) && b < BINS && bins[b].rawCount == 0
    requires bins' == bins[b := bins[b].(raw := start, rawCount := PerGrowth(b))]
    requires forall a :: a in Run(start, Elem(b), PerGrowth(b)) ==> a !in owner
    requires forall a :: a in owner' <==> a in owner || a in Run(start, Elem(b), PerGrowth(b))
    requires forall a :: a in owner ==> owner'[a] == owner[a]
    requires forall a :: a in Run(start, Elem(b), PerGrowth(b)) ==> owner'[a] == b
    ensures BinsOk(bins', free, live, owner', m)
  {
    hide BinOk, Run;
    forall c | 0 <= c < BINS ensures BinOk(c, bins'[c], free[c], live[c], owner', m) {
      if c == b {
        BinGrows(b, bins[b], free[b], live[b], owner, owner', m, start, PerGrowth(b));
      } else {
        BinOwner(c, bins[c], free[c], live[c], owner, owner', m);
      }
    }
  }

  lemma BinsAre(bins: seq<Bin>, free: seq<seq<nat>>, live: seq<set<nat>>, owner: Owner, m: Memory)
    requires BinsOk(bins, free, live, owner, m)
    ensures |bins| == BINS
  {
  }

  /** The blocks of the run belong to bin b as well. */
  ghost function Claimed(owner: Owner, run: seq<nat>, b: nat): Owner
  {
    map a | a in owner.Keys + (set x | x in run) :: if a in run then b else owner[a]
  }

  /** What one growth of bin b keeps. */
  lemma HeapGrows(table: seq<nat>, table': seq<nat>, bins: seq<Bin>, tiles: seq<nat>, owner: Owner, free: seq<seq<nat>>,
                  live: seq<set<nat>>, m: Memory, base: nat, ptr: nat, b: nat)
    requires TilesOk(tiles, owner, base, ptr) && TableOk(table, owner, base, ptr) && BinsOk(bins, free, live, owner, m)
    requires b < BINS && |bins| == BINS && bins[b].rawCount == 0
    requires base <= ptr && base % PAGE_SIZE == 0 && ptr % PAGE_SIZE == 0
    requires PagesSet(table, table', base, ptr, ptr + Grow(b), b)
    ensures var run := Run(ptr, Elem(b), PerGrowth(b));
      var owner' := Claimed(owner, run, b);
      && TilesOk(tiles + run, owner', base, ptr + Grow(b)) && TableOk(table', owner', base, ptr + Grow(b))
      && BinsOk(bins[b := bins[b].(raw := ptr, rawCount := PerGrowth(b))], free, live, owner', m)
  {
    hide BinsOk, Elem, Grow, PerGrowth, TilesOk, TableOk, PagesSet, Run;
    var owner' := Claimed(owner, Run(ptr, Elem(b), PerGrowth(b)), b);
    NewBlocksAreNew(tiles, owner, base, ptr, b);
    TableGrows(table, table', tiles, owner, base, ptr, b, owner');
    TilesGrow(tiles, owner, base, ptr, b, owner');
    BinsGrow(bins, bins[b := bins[b].(raw := ptr, rawCount := PerGrowth(b))], free, live, owner, owner', m, b, ptr);
  }

  lemma BinsFreed(bins: seq<Bin>, free: seq<seq<nat>>, live: seq<set<nat>>, owner: Owner, m: Memory, i: nat, a: nat)
    requires BinsOk(bins, free, live, owner, m) && i < BINS && a != NULL && a in live[i]
    requires forall c :: 0 <= c < BINS && c != i ==> a !in free[c]
    ensures BinsOk(bins[i := bins[i].(head := a, alloc := bins[i].alloc - 1, free := bins[i].free + 1)],
            free[i := [a] + free[i]],
                   live[i := live[i] - {a}], owner, m[a := bins[i].head])
  {
    hide BinOk;
    forall c | 0 <= c < BINS && c != i ensures BinOk(c, bins[c], free[c], live[c], owner, m[a := bins[i].head]) {
      BinMemory(c, bins[c], free[c], live[c], owner, m, a, bins[i].head);
    }
    BinFrees(i, bins[i], free[i], live[i], owner, m, a);
  }
}
