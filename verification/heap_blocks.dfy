/** Blocks of the kernel heap: sizes, how blocks tile the heap area, and free lists threaded
    through memory (heap.c). */
module HeapBlocks {

  const PAGE_SIZE := 4096
  const BINS := 32
  const NULL := 0

  /** element_size: powers of two from 16 to 2048, then 1 to 24 pages. */
  function Elem(b: nat): (e: nat)
    requires b < BINS
    ensures 16 <= e <= 24 * PAGE_SIZE && (b >= 8 ==> e == (b - 7) * PAGE_SIZE)
  {
    if b == 0 then 16 else if b == 1 then 32 else if b == 2 then 64 else if b == 3 then 128
    else if b == 4 then 256 else if b == 5 then 512 else if b == 6 then 1024 else if b == 7 then 2048
    else (b - 7) * PAGE_SIZE
  }

  /** grow_size. */
  function Grow(b: nat): nat
    requires b < BINS
  {
    if b < 8 then PAGE_SIZE else Elem(b)
  }

  /** Blocks in one growth. */
  function PerGrowth(b: nat): nat
    requires b < BINS
  {
    if b == 0 then 256 else if b == 1 then 128 else if b == 2 then 64 else if b == 3 then 32
    else if b == 4 then 16 else if b == 5 then 8 else if b == 6 then 4 else if b == 7 then 2 else 1
  }

  lemma PerGrowthIsQuotient(b: nat)
    requires b < BINS
    ensures PerGrowth(b) == Grow(b) / Elem(b) && PerGrowth(b) * Elem(b) == Grow(b) && Grow(b) % PAGE_SIZE == 0
  {
    if b >= 8 {
      Self(Elem(b));
    }
  }

  lemma Self(x: nat)
    requires x > 0
    ensures x / x == 1
  {
  }

  lemma ElemGrows(b: nat, c: nat)
    requires b < c < BINS
    ensures Elem(b) < Elem(c)
  {
  }

  /** n blocks of size e from start on. */
  function Run(start: nat, e: nat, n: nat): (r: seq<nat>)
    ensures |r| == n
    decreases n
  {
    if n == 0 then [] else [start] + Run(start + e, e, n - 1)
  }

  lemma {:induction false} RunBounds(start: nat, e: nat, n: nat)
    requires e > 0
    ensures forall a :: a in Run(start, e, n) ==> start <= a && a + e <= start + n * e
    ensures forall i, j :: 0 <= i < j < n ==> Run(start, e, n)[i] != Run(start, e, n)[j]
    decreases n
  {
    if n > 0 {
      RunBounds(start + e, e, n - 1);
      assert n * e == (n - 1) * e + e;
      forall i, j | 0 <= i < j < n ensures Run(start, e, n)[i] != Run(start, e, n)[j] {
        assert Run(start, e, n)[j] in Run(start + e, e, n - 1);
      }
    }
  }

  /** Small blocks stay multiples of their size, since those divide the page. */
  predicate Aligned(b: nat, a: nat)
    requires b < BINS
  {
    b <= 8 ==> a % Elem(b) == 0
  }

  lemma AlignedNext(b: nat, a: nat)
    requires b < BINS && Aligned(b, a)
    ensures Aligned(b, a + Elem(b))
  {
  }

  lemma AlignedStart(b: nat, a: nat)
    requires b < BINS && a % PAGE_SIZE == 0
    ensures Aligned(b, a)
  {
    if b < 8 {
      assert PAGE_SIZE == Elem(b) * (PAGE_SIZE / Elem(b)) by {
        ElemDivides(b);
      }
      DivisorDivides(Elem(b), PAGE_SIZE / Elem(b), a);
    }
  }

  lemma ElemDivides(b: nat)
    requires b < 8
    ensures Elem(b) * (PAGE_SIZE / Elem(b)) == PAGE_SIZE
  {
  }

  /** What is a multiple of e * m is a multiple of e. */
  lemma DivisorDivides(e: nat, m: nat, a: nat)
    requires e > 0 && m > 0 && e * m > 0 && a % (e * m) == 0
    ensures a % e == 0
  {
    var k := a / (e * m);
    assert a == (e * m) * k;
    assert (e * m) * k == e * (m * k);
    MultipleMod(m * k, e);
  }

  lemma MultipleMod(q: nat, e: nat)
    requires e > 0
    ensures (e * q) % e == 0
  {
    var d := (e * q) / e - q;
    var r := (e * q) % e;
    assert e * q == e * ((e * q) / e) + r;
    assert e * ((e * q) / e) == e * q + e * d;
    assert e * d == -r;
    if d >= 1 {
      AtLeast(e, d);
    } else if d <= -1 {
      AtLeast(e, -d);
    }
  }

  lemma AtLeast(e: nat, d: nat)
    requires d >= 1
    ensures e * d >= e
  {
    assert e * d == e * (d - 1) + e;
  }

  lemma {:induction false} RunAligned(b: nat, start: nat, n: nat)
    requires b < BINS && Aligned(b, start)
    ensures forall a :: a in Run(start, Elem(b), n) ==> Aligned(b, a)
    decreases n
  {
    if n > 0 {
      AlignedNext(b, start);
      RunAligned(b, start + Elem(b), n - 1);
    }
  }

  // ---- tiling

  type Owner = map<nat, nat>

  /** ts, in this order, fill the addresses from..to without gap or overlap. */
  ghost predicate Tiled(ts: seq<nat>, owner: Owner, from: nat, to: nat)
    decreases |ts|
  {
    if ts == [] then from == to
    else ts[0] == from && from in owner && owner[from] < BINS && Tiled(ts[1..], owner, from + Elem(owner[from]), to)
  }

  lemma {:induction false} TiledBounds(ts: seq<nat>, owner: Owner, from: nat, to: nat)
    requires Tiled(ts, owner, from, to)
    ensures from <= to && forall a :: a in ts ==> a in owner && owner[a] < BINS && from <= a && a + Elem(owner[a]) <= to
  {
    if ts != [] {
      TiledBounds(ts[1..], owner, from + Elem(owner[from]), to);
    }
  }

  /** Different blocks do not overlap. */
  lemma {:induction false} TilesApart(ts: seq<nat>, owner: Owner, from: nat, to: nat, a: nat, a': nat)
    requires Tiled(ts, owner, from, to) && a in ts && a' in ts && a < a'
    ensures a in owner && owner[a] < BINS && a + Elem(owner[a]) <= a'
  {
    TiledBounds(ts[1..], owner, from + Elem(owner[from]), to);
    assert a' == ts[0] || a' in ts[1..];
    assert a == ts[0] || a in ts[1..];
    if a != ts[0] {
      TilesApart(ts[1..], owner, from + Elem(owner[from]), to, a, a');
    }
  }

  /** Every address belongs to a block. */
  lemma {:induction false} TilesCover(ts: seq<nat>, owner: Owner, from: nat, to: nat, x: nat) returns (a: nat)
    requires Tiled(ts, owner, from, to) && from <= x < to
    ensures a in ts && a in owner && owner[a] < BINS && a <= x < a + Elem(owner[a])
  {
    if x < from + Elem(owner[from]) {
      a := from;
    } else {
      a := TilesCover(ts[1..], owner, from + Elem(owner[from]), to, x);
    }
  }

  lemma {:induction false} TiledAppend(ts: seq<nat>, us: seq<nat>, owner: Owner, from: nat, mid: nat, to: nat)
    requires Tiled(ts, owner, from, mid) && Tiled(us, owner, mid, to)
    ensures Tiled(ts + us, owner, from, to)
  {
    if ts == [] {
      assert ts + us == us;
    } else {
      assert (ts + us)[1..] == ts[1..] + us;
      TiledAppend(ts[1..], us, owner, from + Elem(owner[from]), mid, to);
    }
  }

  lemma {:induction false} TiledFrame(ts: seq<nat>, owner: Owner, owner': Owner, from: nat, to: nat)
    requires Tiled(ts, owner, from, to) && forall a :: a in ts && a in owner ==> a in owner' && owner'[a] == owner[a]
    ensures Tiled(ts, owner', from, to)
  {
    if ts != [] {
      TiledFrame(ts[1..], owner, owner', from + Elem(owner[from]), to);
    }
  }

  lemma {:induction false} RunTiled(b: nat, owner: Owner, start: nat, n: nat)
    requires b < BINS && forall a :: a in Run(start, Elem(b), n) ==> a in owner && owner[a] == b
    ensures Tiled(Run(start, Elem(b), n), owner, start, start + n * Elem(b))
    decreases n
  {
    if n > 0 {
      assert Run(start, Elem(b), n)[0] == start;
      RunTiled(b, owner, start + Elem(b), n - 1);
      assert n * Elem(b) == (n - 1) * Elem(b) + Elem(b);
    }
  }

  // ---- free lists in memory

  type Memory = map<nat, nat>

  /** From head on, the first words of the blocks of s link them in order. */
  ghost predicate Chain(m: Memory, head: nat, s: seq<nat>)
    decreases |s|
  {
    if s == [] then head == NULL else head == s[0] && head != NULL && head in m && Chain(m, m[head], s[1..])
  }

  lemma {:induction false} ChainFrame(m: Memory, head: nat, s: seq<nat>, a: nat, v: nat)
    requires Chain(m, head, s) && a !in s
    ensures Chain(m[a := v], head, s)
    decreases |s|
  {
    if s != [] {
      ChainFrame(m, m[head], s[1..], a, v);
    }
  }

  // ---- one bin

  datatype Bin = Bin(alloc: int, head: nat, free: int, raw: nat, rawCount: nat)

  ghost predicate NoDup(s: seq<nat>)
  {
    forall i, j :: 0 <= i < j < |s| ==> s[i] != s[j]
  }

  ghost function RawBlocks(b: nat, x: Bin): seq<nat>
    requires b < BINS
  {
    Run(x.raw, Elem(b), x.rawCount)
  }

  /** The blocks of bin b are exactly the live ones, those on its free list and its raw
      ones, each in one of the three; the counts say how many. */
  ghost predicate BinOk(b: nat, x: Bin, free: seq<nat>, live: set<nat>, owner: Owner, m: Memory)
    requires b < BINS
  {
    && Chain(m, x.head, free) && NoDup(free) && x.free == |free| && x.alloc == |live|
    && (forall a :: Owned(owner, a, b) <==> a in live || a in free || a in RawBlocks(b, x))
    && (forall a :: a in live ==> a !in free && a !in RawBlocks(b, x))
    && (forall a :: a in free ==> a !in RawBlocks(b, x))
  }

  ghost predicate Owned(owner: Owner, a: nat, b: nat)
  {
    a in owner && owner[a] == b
  }

  /** A change of memory at an address that is not on the bin's free list. */
  lemma BinMemory(b: nat, x: Bin, free: seq<nat>, live: set<nat>, owner: Owner, m: Memory, a: nat, v: nat)
    requires b < BINS && BinOk(b, x, free, live, owner, m) && a !in free
    ensures BinOk(b, x, free, live, owner, m[a := v])
  {
    ChainFrame(m, x.head, free, a, v);
  }

  /** Blocks of other bins come and go without effect. */
  lemma BinOwner(b: nat, x: Bin, free: seq<nat>, live: set<nat>, owner: Owner, owner': Owner, m: Memory)
    requires b < BINS && BinOk(b, x, free, live, owner, m) && forall a :: Owned(owner', a, b) <==> Owned(owner, a, b)
    ensures BinOk(b, x, free, live, owner', m)
  {
  }

  lemma BinTakesFree(b: nat, x: Bin, free: seq<nat>, live: set<nat>, owner: Owner, m: Memory)
    requires b < BINS && BinOk(b, x, free, live, owner, m) && x.head != NULL
    ensures free != [] && free[0] == x.head && x.head in m
    ensures BinOk(b, x.(head := m[x.head], free := x.free - 1, alloc := x.alloc + 1), free[1..], live + {x.head},
            owner, m)
  {
    assert forall a :: a in free <==> a == free[0] || a in free[1..];
    assert free[0] !in free[1..];
  }

  lemma BinTakesRaw(b: nat, x: Bin, free: seq<nat>, live: set<nat>, owner: Owner, m: Memory)
    requires b < BINS && BinOk(b, x, free, live, owner, m) && x.rawCount > 0
    ensures Owned(owner, x.raw, b)
    ensures BinOk(b, x.(raw := x.raw + Elem(b), rawCount := x.rawCount - 1, alloc := x.alloc + 1), free,
            live + {x.raw}, owner, m)
  {
    var rest := Run(x.raw + Elem(b), Elem(b), x.rawCount - 1);
    RunBounds(x.raw + Elem(b), Elem(b), x.rawCount - 1);
    assert RawBlocks(b, x) == [x.raw] + rest;
    assert forall a :: a in RawBlocks(b, x) <==> a == x.raw || a in rest;
  }

  lemma BinGrows(b: nat, x: Bin, free: seq<nat>, live: set<nat>, owner: Owner, owner': Owner, m: Memory, start: nat,
                 n: nat)
    requires b < BINS && BinOk(b, x, free, live, owner, m) && x.rawCount == 0
    requires forall a :: a in Run(start, Elem(b), n) ==> a !in owner
    requires forall a :: Owned(owner', a, b) <==> Owned(owner, a, b) || a in Run(start, Elem(b), n)
    ensures BinOk(b, x.(raw := start, rawCount := n), free, live, owner', m)
  {
    assert RawBlocks(b, x) == [];
    forall a | a in live || a in free ensures Owned(owner, a, b) {
    }
  }

  lemma BinFrees(b: nat, x: Bin, free: seq<nat>, live: set<nat>, owner: Owner, m: Memory, a: nat)
    requires b < BINS && BinOk(b, x, free, live, owner, m) && a in live && a != NULL
    ensures BinOk(b, x.(head := a, alloc := x.alloc - 1, free := x.free + 1), [a] + free, live - {a}, owner,
            m[a := x.head])
  {
    ChainFrame(m, x.head, free, a, x.head);
    assert ([a] + free)[1..] == free;
  }

  // ---- the layout of heap_init

  const ENTRIES := 2048

  function HeapSize(n: nat): nat
  {
    n * ENTRIES / (ENTRIES + 1) / PAGE_SIZE * PAGE_SIZE
  }

  function PageAlign(n: nat): nat
  {
    (n + PAGE_SIZE - 1) / PAGE_SIZE * PAGE_SIZE
  }

  /** Size of the space left for the allocation table before the heap area. */
  function TableSpace(n: nat): nat
  {
    PageAlign(HeapSize(n) / ENTRIES)
  }

  /** How many pages the heap area has, and how many the table before it. */
  lemma HeapPages(n: nat) returns (h: nat)
    ensures HeapSize(n) == h * PAGE_SIZE && 8392704 * h <= 2048 * n < 8392704 * (h + 1)
  {
    var x := n * ENTRIES / (ENTRIES + 1);
    assert 2049 * x <= 2048 * n < 2049 * (x + 1);
    h := x / PAGE_SIZE;
    assert PAGE_SIZE * h <= x < PAGE_SIZE * (h + 1);
  }

  lemma TablePages(n: nat, h: nat) returns (t: nat)
    requires HeapSize(n) == h * PAGE_SIZE
    ensures TableSpace(n) == t * PAGE_SIZE && 2048 * t < h + 2048 && h <= 2048 * t
  {
    hide HeapSize;
    assert HeapSize(n) / ENTRIES == 2 * h;
    t := (2 * h + PAGE_SIZE - 1) / PAGE_SIZE;
  }

  /** The table, two bytes a page, fits before the heap area. */
  lemma TableFits(n: nat)
    ensures HeapSize(n) / PAGE_SIZE * 2 <= TableSpace(n)
  {
    hide HeapSize, TableSpace;
    var h := HeapPages(n);
    var t := TablePages(n, h);
    assert HeapSize(n) / PAGE_SIZE == h;
  }

  /** Table and heap area fit the region, if and only if the bytes beyond its last page
      boundary are fewer than twice the pages beyond the last multiple of 2049, or there are
      no such pages: always for whole pages. */
  lemma RegionFits(n: nat)
    ensures TableSpace(n) + HeapSize(n) <= n <==>
      (n / PAGE_SIZE % 2049 == 0 || n % PAGE_SIZE < 2 * (n / PAGE_SIZE % 2049))
  {
    hide HeapSize, TableSpace;
    var q, r := n / PAGE_SIZE, n % PAGE_SIZE;
    var u, v := q / 2049, q % 2049;
    var h := HeapPages(n);
    var t := TablePages(n, h);
    assert n == PAGE_SIZE * q + r && q == 2049 * u + v;
    if v == 0 {
      assert h == 2048 * u;
    } else if r < 2 * v {
      assert h == 2048 * u + v - 1;
    } else {
      assert h == 2048 * u + v;
    }
    assert h + t <= q <==> v == 0 || r < 2 * v;
  }

  lemma WholePages(n: nat, r: nat)
    requires r % PAGE_SIZE == 0
    ensures HeapSize(n) % PAGE_SIZE == 0 && HeapSize(n) / PAGE_SIZE * PAGE_SIZE == HeapSize(n)
            && (r + TableSpace(n)) % PAGE_SIZE == 0
  {
    hide HeapSize, TableSpace;
    var h := HeapPages(n);
    var t := TablePages(n, h);
  }

  /** A region that is not a whole number of pages can be overrun. */
  lemma RegionOverrun()
    ensures TableSpace(6144) + HeapSize(6144) > 6144
  {
  }
}
