/** huft_build as its callers see it (inflate.c): what it returns, and what its tables
    decode every bit string to. */
module Huffman {
  import opened Bits
  import opened Canonical
  import opened HuftTables
  import opened HuftCodes
  import opened HuftState
  import opened HuftBuild

  const N_MAX := 288

  // ---- lengths

  ghost predicate IsMax(lens: seq<nat>, g: nat)
  {
    && 1 <= g <= BMAX && Count(lens, g) > 0
    && forall k :: g < k <= BMAX ==> Count(lens, k) == 0
  }

  ghost predicate IsMin(lens: seq<nat>, kmin: nat)
  {
    && 1 <= kmin <= BMAX && Count(lens, kmin) > 0
    && forall k :: 1 <= k < kmin ==> Count(lens, k) == 0
  }

  ghost predicate AllUnused(lens: seq<nat>)
  {
    forall s :: 0 <= s < |lens| ==> lens[s] == 0
  }

  lemma {:induction false} CountAtMost(lens: seq<nat>, k: nat)
    ensures Count(lens, k) <= |lens|
    ensures Count(lens, k) == |lens| <==> forall s :: 0 <= s < |lens| ==> lens[s] == k
  {
    if lens != [] {
      var n := |lens| - 1;
      CountAtMost(lens[..n], k);
      assert forall s :: 0 <= s < n ==> lens[..n][s] == lens[s];
    }
  }

  lemma CountPositive(lens: seq<nat>, s: nat)
    requires s < |lens|
    ensures Count(lens, lens[s]) > 0
  {
    RankBelowCount(lens, s);
  }

  /** The counts with the longest length padded so that the codes fill the code space. */
  ghost function Completed(lens: seq<nat>, g: nat): Counts
    requires 1 <= g <= BMAX && EndCode(CountsOf(lens), g) <= Pow2(g)
  {
    CountsOf(lens)[g := Count(lens, g) + (Pow2(g) - EndCode(CountsOf(lens), g))]
  }

  lemma {:induction false} SameBelow(c: Counts, c': Counts, g: nat, k: nat)
    requires k <= g <= BMAX && forall t :: 0 <= t < g ==> c[t] == c'[t]
    ensures FirstCode(c, k) == FirstCode(c', k) && Shorter(c, k) == Shorter(c', k)
  {
    if k > 0 {
      SameBelow(c, c', g, k - 1);
    }
  }

  lemma CompletedFills(lens: seq<nat>, g: nat)
    requires 1 <= g <= BMAX && EndCode(CountsOf(lens), g) <= Pow2(g)
    ensures Fills(Completed(lens, g), g)
    ensures forall k :: 0 <= k <= g ==> FirstCode(Completed(lens, g), k) == FirstCode(CountsOf(lens), k)
    ensures forall k :: 0 <= k <= g ==> Shorter(Completed(lens, g), k) == Shorter(CountsOf(lens), k)
  {
    forall k | 0 <= k <= g
      ensures FirstCode(Completed(lens, g), k) == FirstCode(CountsOf(lens), k)
      ensures Shorter(Completed(lens, g), k) == Shorter(CountsOf(lens), k)
    {
      SameBelow(Completed(lens, g), CountsOf(lens), g, k);
    }
  }

  // ---- the phases of huft_build

  /** Count the codes of each length. */
  method CountLengths(b: seq<nat>) returns (c: array<nat>)
    requires ValidLengths(b)
    ensures fresh(c) && c.Length == BMAX + 1 && c[..] == CountsOf(b)
  {
    c := new nat[BMAX + 1](_ => 0);
    var i := 0;
    while i < |b|
      invariant i <= |b|
      invariant forall k :: 0 <= k <= BMAX ==> c[k] == Count(b[..i], k)
    {
      c[b[i]] := c[b[i]] + 1;
      assert b[..i + 1][..i] == b[..i];
      i := i + 1;
    }
    assert b[..i] == b;
  }

  /** Shortest and longest length in use, and the requested table bits bounded by them. */
  method LengthBounds(c: Counts, m: nat) returns (kmin: nat, g: nat, l: nat)
    requires exists k :: 1 <= k <= BMAX && c[k] > 0
    ensures 1 <= kmin <= g <= BMAX && c[kmin] > 0 && c[g] > 0
    ensures (forall k :: 1 <= k < kmin ==> c[k] == 0) && (forall k :: g < k <= BMAX ==> c[k] == 0)
    ensures l == Clamp(m, kmin, g) && kmin <= l <= g
  {
    var j := 1;
    while j <= BMAX && c[j] == 0
      invariant 1 <= j <= BMAX + 1 && forall k :: 1 <= k < j ==> c[k] == 0
    {
      j := j + 1;
    }
    kmin := j;
    l := if m < j then j else m;
    var i := BMAX;
    while i > 0 && c[i] == 0
      invariant 0 <= i <= BMAX && forall k :: i < k <= BMAX ==> c[k] == 0
    {
      i := i - 1;
    }
    g := i;
    if l > i {
      l := i;
    }
  }

  function Clamp(m: nat, lo: nat, hi: nat): nat
  {
    if m > hi then hi else if m < lo then lo else m
  }

  /** How many codes of the longest length are missing; None when there are too many codes. */
  method Missing(c: Counts, kmin: nat, g: nat) returns (y: Option<nat>)
    requires 1 <= kmin <= g <= BMAX && forall k :: 1 <= k < kmin ==> c[k] == 0
    ensures y.None? <==> EndCode(c, g) > Pow2(g)
    ensures y.Some? ==> y.value == Pow2(g) - EndCode(c, g)
  {
    NoneShorter(c, kmin);
    var j := kmin;
    var z: int := Pow2(j);
    while j < g
      invariant kmin <= j <= g && z == Pow2(j) - FirstCode(c, j)
    {
      z := z - c[j];
      if z < 0 {
        CodeSpaceOverrun(c, j, g);
        return None;
      }
      j := j + 1;
      z := z * 2;
    }
    z := z - c[g];
    y := if z < 0 then None else Some(z);
  }

  lemma ShorterSteps(c: Counts)
    ensures Shorter(c, 1) == 0 && forall k :: 1 <= k <= BMAX ==> Shorter(c, k + 1) == Shorter(c, k) + c[k]
  {
  }

  /** Where the symbols of each length begin once all are sorted: after the shorter ones. */
  method Offsets(c: Counts, g: nat) returns (x: array<nat>)
    requires 1 <= g <= BMAX
    ensures fresh(x) && x.Length == BMAX + 1
    ensures forall k :: 1 <= k <= g ==> x[k] == Shorter(c, k)
  {
    x := new nat[BMAX + 1](_ => 0);
    hide Shorter;
    ShorterSteps(c);
    var k, j := 1, 0;
    while k < g
      invariant 1 <= k <= g && j == Shorter(c, k)
      invariant forall t :: 1 <= t <= k ==> x[t] == Shorter(c, t)
    {
      j := j + c[k];
      k := k + 1;
      x[k] := j;
    }
  }

  // ---- symbols sorted by code length

  /** Where symbol s goes when the symbols in use are sorted by length, then by value. */
  ghost function Pos(lens: seq<nat>, s: nat): nat
    requires ValidLengths(lens) && s < |lens|
  {
    Shorter(CountsOf(lens), lens[s]) + Rank(lens, s)
  }

  ghost function Used(lens: seq<nat>): nat
  {
    Shorter(CountsOf(lens), BMAX + 1)
  }

  lemma {:induction false} ShorterMono(c: Counts, k: nat, t: nat)
    requires 1 <= k < t <= BMAX + 1
    ensures Shorter(c, k) + c[k] <= Shorter(c, t)
    decreases t
  {
    if k + 1 < t {
      ShorterMono(c, k, t - 1);
    }
  }

  lemma {:induction false} ShorterOneMore(c: Counts, c': Counts, len: nat, k: nat)
    requires len <= BMAX && k <= BMAX + 1 && OneMore(c, c', len)
    ensures Shorter(c', k) == Shorter(c, k) + (if 1 <= len < k then 1 else 0)
  {
    if k > 1 {
      ShorterOneMore(c, c', len, k - 1);
    }
  }

  /** The symbols in use and the unused ones are all the symbols. */
  lemma {:induction false} UsedAndUnused(lens: seq<nat>)
    requires ValidLengths(lens)
    ensures Used(lens) + Count(lens, 0) == |lens|
  {
    if lens == [] {
      NoneUsed(CountsOf(lens), BMAX + 1);
    } else {
      var n := |lens| - 1;
      UsedAndUnused(lens[..n]);
      ShorterOneMore(CountsOf(lens[..n]), CountsOf(lens), lens[n], BMAX + 1);
    }
  }

  lemma {:induction false} NoneUsed(c: Counts, k: nat)
    requires k <= BMAX + 1 && forall t :: 1 <= t < k ==> c[t] == 0
    ensures Shorter(c, k) == 0
  {
    if k > 1 {
      NoneUsed(c, k - 1);
    }
  }

  lemma PosInRange(lens: seq<nat>, s: nat)
    requires ValidLengths(lens) && s < |lens| && lens[s] > 0
    ensures Pos(lens, s) < Used(lens) <= |lens|
  {
    RankBelowCount(lens, s);
    ShorterMono(CountsOf(lens), lens[s], BMAX + 1);
    UsedAndUnused(lens);
  }

  lemma PosInjective(lens: seq<nat>, s: nat, s': nat)
    requires ValidLengths(lens) && s < s' < |lens| && lens[s] > 0 && lens[s'] > 0
    ensures Pos(lens, s) != Pos(lens, s')
  {
    RankBelowCount(lens, s);
    RankBelowCount(lens, s');
    if lens[s] == lens[s'] {
      RankInjective(lens, s, s');
    } else if lens[s] < lens[s'] {
      ShorterMono(CountsOf(lens), lens[s], lens[s']);
    } else {
      ShorterMono(CountsOf(lens), lens[s'], lens[s]);
    }
  }

  /** The first n symbols are in their places and nothing else has been written. */
  ghost predicate Placed(lens: seq<nat>, n: nat, v: seq<Option<nat>>)
    requires ValidLengths(lens) && n <= |lens|
  {
    && (forall s: nat :: s < n && lens[s] > 0 ==> Pos(lens, s) < |v| && v[Pos(lens, s)] == Some(s))
    && (forall p :: 0 <= p < |v| && v[p].Some? ==> v[p].value < n && lens[v[p].value] > 0 && Pos(lens, v[p].value) == p)
  }

  lemma PlaceNext(lens: seq<nat>, n: nat, v: seq<Option<nat>>)
    requires ValidLengths(lens) && n < |lens| == |v| && lens[n] > 0 && Placed(lens, n, v)
    ensures Pos(lens, n) < |v| && Placed(lens, n + 1, v[Pos(lens, n) := Some(n)])
  {
    PosInRange(lens, n);
    forall s: nat | s < n && lens[s] > 0
      ensures Pos(lens, s) != Pos(lens, n)
    {
      PosInjective(lens, s, n);
    }
  }

  lemma PlacedNone(lens: seq<nat>, v: seq<Option<nat>>)
    requires ValidLengths(lens) && forall p :: 0 <= p < |v| ==> v[p].None?
    ensures Placed(lens, 0, v)
  {
  }

  lemma PlaceNone(lens: seq<nat>, n: nat, v: seq<Option<nat>>)
    requires ValidLengths(lens) && n < |lens| && lens[n] == 0 && Placed(lens, n, v)
    ensures Placed(lens, n + 1, v)
  {
  }

  lemma CountsStart(lens: seq<nat>)
    ensures forall k :: Count(lens[..0], k) == 0
  {
  }

  lemma CountsNext(lens: seq<nat>, i: nat)
    requires i < |lens|
    ensures forall k :: Count(lens[..i + 1], k) == Count(lens[..i], k) + (if lens[i] == k then 1 else 0)
  {
    assert lens[..i + 1][..i] == lens[..i];
  }

  /** Sort the symbols in use by length, equal lengths by value. */
  method SortValues(b: seq<nat>, x: array<nat>, ghost g: nat) returns (v: array<Option<nat>>)
    requires ValidLengths(b) && x.Length == BMAX + 1
    requires 1 <= g <= BMAX && forall s :: 0 <= s < |b| ==> b[s] <= g
    requires forall k :: 1 <= k <= g ==> x[k] == Shorter(CountsOf(b), k)
    modifies x
    ensures fresh(v) && v.Length == |b| && Placed(b, |b|, v[..])
  {
    hide Placed, Shorter, Count;
    v := new Option<nat>[|b|](_ => None);
    var i := 0;
    PlacedNone(b, v[..]);
    CountsStart(b);
    while i < |b|
      invariant i <= |b| == v.Length
      invariant forall k :: 1 <= k <= g ==> x[k] == Shorter(CountsOf(b), k) + Count(b[..i], k)
      invariant Placed(b, i, v[..])
    {
      var j := b[i];
      CountsNext(b, i);
      if j != 0 {
        PlaceNext(b, i, v[..]);
        ghost var w := v[..];
        v[x[j]] := Some(i);
        assert v[..] == w[Pos(b, i) := Some(i)];
        x[j] := x[j] + 1;
      } else {
        PlaceNone(b, i, v[..]);
      }
      i := i + 1;
    }
    assert b[..i] == b;
  }

  // ---- what the tables decode

  /** What a decoder finds for symbol sym. */
  ghost function SymbolHit(lens: seq<nat>, s: nat, d: seq<nat>, e: seq<nat>, sym: nat): Found
    requires sym < |lens| && |lens| <= s + |d| && |lens| <= s + |e|
  {
    if sym < s then Hit(if sym < 256 then 16 else 15, sym, lens[sym])
    else Hit(e[sym - s], d[sym - s], lens[sym])
  }

  /** The walk of bits gives the symbol whose canonical code bits starts with. A string
      that starts with no code is reported as invalid, or, when some symbol is unused,
      may run into an entry that was never given a value. */
  ghost predicate Decodes(lens: seq<nat>, s: nat, d: seq<nat>, e: seq<nat>, g: nat,
                          tabs: seq<seq<Huft>>, l: nat, bits: seq<bool>)
    requires ValidLengths(lens) && |lens| <= s + |d| && |lens| <= s + |e|
  {
    && (forall sym: nat :: Matches(lens, sym, bits) ==> Walk(tabs, 0, l, bits) == SymbolHit(lens, s, d, e, sym))
    && ((forall sym: nat :: !Matches(lens, sym, bits)) ==>
          Refused(lens, g, Walk(tabs, 0, l, bits)))
  }

  ghost predicate Prepared(lens: seq<nat>, g: nat, cx: Ctx)
  {
    && ValidLengths(lens) && IsMax(lens, g) && EndCode(CountsOf(lens), g) <= Pow2(g)
    && CtxOk(cx) && cx.c == Completed(lens, g) && cx.g == g
    && |cx.vs| == |lens| && Placed(lens, |lens|, cx.vs) && |lens| <= cx.s + |cx.d| && |lens| <= cx.s + |cx.e|
  }

  lemma CodeDecodes(cx: Ctx, tabs: seq<seq<Huft>>, k: nat, r: nat, bits: seq<bool>)
    requires CtxOk(cx) && Done(cx, tabs, cx.g, cx.c[cx.g]) && |bits| >= cx.g
    requires IsCode(cx.c, cx.g, k, r) && CodeWord(cx.c, k, r) <= bits
    ensures Walk(tabs, 0, cx.l, bits) == Want(cx, k, r)
  {
    hide Walk, Want, CodeWord;
    assert Earlier(cx, k, r, cx.g, cx.c[cx.g]);
  }

  lemma WantSymbol(lens: seq<nat>, g: nat, cx: Ctx, sym: nat)
    requires Prepared(lens, g, cx) && sym < |lens| && 1 <= lens[sym] <= g
    ensures Want(cx, lens[sym], Rank(lens, sym)) == SymbolHit(lens, cx.s, cx.d, cx.e, sym)
  {
    CompletedFills(lens, g);
    PosInRange(lens, sym);
    assert cx.vs[Pos(lens, sym)] == Some(sym);
  }

  lemma LengthAtMost(lens: seq<nat>, g: nat, sym: nat)
    requires ValidLengths(lens) && IsMax(lens, g) && sym < |lens|
    ensures lens[sym] <= g
  {
    CountPositive(lens, sym);
  }

  /** Symbols keep their code words when the set is completed. */
  lemma SameWord(lens: seq<nat>, g: nat, sym: nat)
    requires ValidLengths(lens) && IsMax(lens, g) && EndCode(CountsOf(lens), g) <= Pow2(g)
    requires sym < |lens| && lens[sym] > 0
    ensures lens[sym] <= g && IsCode(Completed(lens, g), g, lens[sym], Rank(lens, sym))
    ensures CodeWord(Completed(lens, g), lens[sym], Rank(lens, sym)) ==
            CodeWord(CountsOf(lens), lens[sym], Rank(lens, sym))
  {
    LengthAtMost(lens, g, sym);
    CompletedFills(lens, g);
    RankBelowCount(lens, sym);
  }

  lemma SymbolDecodes(lens: seq<nat>, g: nat, cx: Ctx, tabs: seq<seq<Huft>>, bits: seq<bool>, sym: nat)
    requires Prepared(lens, g, cx) && Done(cx, tabs, g, cx.c[g]) && |bits| >= g && Matches(lens, sym, bits)
    ensures Walk(tabs, 0, cx.l, bits) == SymbolHit(lens, cx.s, cx.d, cx.e, sym)
  {
    hide Done, Want, SymbolHit, Walk, CodeWord, Completed;
    SameWord(lens, g, sym);
    MatchesIsPrefix(lens, g, sym, bits);
    CodeDecodes(cx, tabs, lens[sym], Rank(lens, sym), bits);
    WantSymbol(lens, g, cx, sym);
  }

  ghost predicate Refused(lens: seq<nat>, g: nat, f: Found)
  {
    f == Hit(99, 0, g) || (0 in lens && f == Undefined)
  }

  /** A code word added to complete the set has no symbol. */
  lemma {:induction false} WantPadding(lens: seq<nat>, g: nat, cx: Ctx, k: nat, r: nat)
    requires Prepared(lens, g, cx) && IsCode(cx.c, g, k, r) && r >= Count(lens, k)
    ensures Refused(lens, g, Want(cx, k, r))
  {
    hide Completed, Fills, FirstCode, EndCode;
    PaddingSpot(lens, g, cx, k, r);
    var p := Shorter(cx.c, k) + r;
    if p < |lens| {
      UsedAndUnused(lens);
      UnusedExists(lens);
      if cx.vs[p].Some? {
        PosInRange(lens, cx.vs[p].value);
      }
    }
  }

  lemma {:induction false} PaddingSpot(lens: seq<nat>, g: nat, cx: Ctx, k: nat, r: nat)
    requires Prepared(lens, g, cx) && IsCode(cx.c, g, k, r) && r >= Count(lens, k)
    ensures k == g && Shorter(cx.c, k) + r >= Used(lens)
  {
    hide Placed;
    CompletedFills(lens, g);
    UnusedTail(CountsOf(lens), g, BMAX + 1);
  }

  lemma NoSymbolDecodes(lens: seq<nat>, g: nat, cx: Ctx, tabs: seq<seq<Huft>>, bits: seq<bool>)
    requires Prepared(lens, g, cx) && Done(cx, tabs, g, cx.c[g]) && |bits| >= g
    requires forall sym: nat :: !Matches(lens, sym, bits)
    ensures Refused(lens, g, Walk(tabs, 0, cx.l, bits))
  {
    hide Done, Want, Walk, CodeWord, Completed, Matches, Refused;
    var k, r := SomeCodeMatches(cx.c, g, bits);
    if r < Count(lens, k) {
      var sym := SymbolOfRank(lens, k, r);
      SameWord(lens, g, sym);
      MatchesIsPrefix(lens, g, sym, bits);
    } else {
      CodeDecodes(cx, tabs, k, r, bits);
      WantPadding(lens, g, cx, k, r);
    }
  }

  lemma {:induction false} UnusedExists(lens: seq<nat>)
    requires Count(lens, 0) > 0
    ensures 0 in lens
  {
    var s := SymbolOfRank(lens, 0, 0);
  }

  lemma {:induction false} UnusedTail(c: Counts, g: nat, t: nat)
    requires 1 <= g < t <= BMAX + 1 && forall k :: g < k <= BMAX ==> c[k] == 0
    ensures Shorter(c, t) == Shorter(c, g) + c[g]
    decreases t
  {
    if g + 1 < t {
      UnusedTail(c, g, t - 1);
    }
  }

  lemma AllDecode(lens: seq<nat>, g: nat, cx: Ctx, tabs: seq<seq<Huft>>)
    requires Prepared(lens, g, cx) && Done(cx, tabs, g, cx.c[g])
    ensures forall bits: seq<bool> :: |bits| >= g ==> Decodes(lens, cx.s, cx.d, cx.e, g, tabs, cx.l, bits)
  {
    hide Done, Walk, SymbolHit, Refused;
    forall bits: seq<bool> | |bits| >= g
      ensures Decodes(lens, cx.s, cx.d, cx.e, g, tabs, cx.l, bits)
    {
      forall sym: nat | Matches(lens, sym, bits)
        ensures Walk(tabs, 0, cx.l, bits) == SymbolHit(lens, cx.s, cx.d, cx.e, sym)
      {
        SymbolDecodes(lens, g, cx, tabs, bits, sym);
      }
      if forall sym: nat :: !Matches(lens, sym, bits) {
        NoSymbolDecodes(lens, g, cx, tabs, bits);
      }
    }
  }

  /** A complete set has no code words without a symbol, so what is found Undefined is
      not decoded. */
  lemma UndefinedIsWrong(lens: seq<nat>, g: nat, cx: Ctx, tabs: seq<seq<Huft>>, bits: seq<bool>)
    requires Prepared(lens, g, cx) && EndCode(CountsOf(lens), g) == Pow2(g) && |bits| >= g
    requires Walk(tabs, 0, cx.l, bits) == Undefined
    ensures !Decodes(lens, cx.s, cx.d, cx.e, g, tabs, cx.l, bits)
  {
    hide Walk, CodeWord, Matches, EndCode;
    CompletedFills(lens, g);
    var k, r := SomeCodeMatches(cx.c, g, bits);
    assert Completed(lens, g)[k] == Count(lens, k);
    var sym := SymbolOfRank(lens, k, r);
    SameWord(lens, g, sym);
    MatchesIsPrefix(lens, g, sym, bits);
  }

  lemma Exactly(lens: seq<nat>, g: nat, cx: Ctx, tabs: seq<seq<Huft>>)
    requires Prepared(lens, g, cx) && EndCode(CountsOf(lens), g) == Pow2(g)
    requires !Sound(cx.c, g, cx.l) ==> exists bits: seq<bool> :: |bits| >= g && Walk(tabs, 0, cx.l, bits) == Undefined
    ensures Completed(lens, g) == CountsOf(lens)
    ensures !Sound(cx.c, g, cx.l) ==>
      !(forall bits: seq<bool> :: |bits| >= g ==> Decodes(lens, cx.s, cx.d, cx.e, g, tabs, cx.l, bits))
  {
    hide Walk, Decodes, Sound, EndCode;
    assert Completed(lens, g) == CountsOf(lens);
    if !Sound(cx.c, g, cx.l) {
      var bits: seq<bool> :| |bits| >= g && Walk(tabs, 0, cx.l, bits) == Undefined;
      UndefinedIsWrong(lens, g, cx, tabs, bits);
    }
  }

  /** Build the tables for the code lengths b. Returns 0 on success, 1 for an incomplete
      set (the tables are still built) and 2 for an over-subscribed one; no tables at all
      when no length is in use. */
  method Build(b: seq<nat>, s: nat, d: seq<nat>, e: seq<nat>, m: nat)
    returns (ret: nat, tabs: seq<seq<Huft>>, l: nat, ghost g: nat)
    requires 1 <= |b| <= N_MAX && ValidLengths(b)
    requires |b| <= s + |d| && |b| <= s + |e| && forall i :: 0 <= i < |e| ==> e[i] <= 16 || e[i] == 99
    ensures AllUnused(b) ==> ret == 0 && tabs == [] && l == 0
    ensures !AllUnused(b) ==> IsMax(b, g) && exists kmin :: IsMin(b, kmin) && l == Clamp(m, kmin, g)
    ensures !AllUnused(b) ==> ret == if KraftSum(b) > Pow2(BMAX) then 2
                                     else if KraftSum(b) < Pow2(BMAX) && g != 1 then 1 else 0
    ensures !AllUnused(b) && ret != 2 ==> EndCode(CountsOf(b), g) <= Pow2(g)
    ensures !AllUnused(b) && ret != 2 && Sound(Completed(b, g), g, l)
            ==> forall bits: seq<bool> :: |bits| >= g ==> Decodes(b, s, d, e, g, tabs, l, bits)
    ensures KraftSum(b) == Pow2(BMAX) && !AllUnused(b) ==>
              EndCode(CountsOf(b), g) == Pow2(g) && (Sound(CountsOf(b), g, l) <==>
                forall bits: seq<bool> :: |bits| >= g ==> Decodes(b, s, d, e, g, tabs, l, bits))
    ensures l == g ==> NoLinks(tabs)
  {
    hide Done, Sound, Decodes, KraftSum, EndCode, IsMax, IsMin, Completed;
    var counts := CountLengths(b);
    var c: Counts := counts[..];
    CountAtMost(b, 0);
    g := 0;
    if counts[0] == |b| {
      return 0, [], 0, 0;
    }
    SomeUsed(b);
    var kmin, longest;
    kmin, longest, l := LengthBounds(c, m);
    g := longest;
    BoundsOf(b, kmin, g);
    KraftSumIsEndCode(b);
    JudgedAtLongest(c, g, BMAX);
    var y := Missing(c, kmin, longest);
    if y.None? {
      return 2, [], l, g;
    }
    var cx := Prepare(b, c, s, d, e, longest, l, y.value);
    tabs := BuildTables(cx, kmin);
    if Sound(Completed(b, g), g, l) {
      AllDecode(b, g, cx, tabs);
    }
    if KraftSum(b) == Pow2(BMAX) {
      Exactly(b, g, cx, tabs);
    }
    ret := if y.value != 0 && longest != 1 then 1 else 0;
  }

  /** Complete the counts and sort the values. */
  method Prepare(b: seq<nat>, c: Counts, s: nat, d: seq<nat>, e: seq<nat>, g: nat, l: nat, y: nat) returns (cx: Ctx)
    requires ValidLengths(b) && c == CountsOf(b) && IsMax(b, g) && 1 <= l <= g
    requires EndCode(c, g) <= Pow2(g) && y == Pow2(g) - EndCode(c, g)
    requires |b| <= s + |d| && |b| <= s + |e| && forall i :: 0 <= i < |e| ==> e[i] <= 16 || e[i] == 99
    ensures Prepared(b, g, cx) && cx.l == l && cx.s == s && cx.d == d && cx.e == e
    ensures forall t :: 0 <= t < g ==> cx.c[t] == c[t]
  {
    var c' := c[g := c[g] + y];
    assert c' == Completed(b, g);
    CompletedFills(b, g);
    var x := Offsets(c', g);
    forall i | 0 <= i < |b|
      ensures b[i] <= g
    {
      LengthAtMost(b, g, i);
    }
    var v := SortValues(b, x, g);
    cx := Ctx(c', g, l, v[..], s, d, e);
  }

  lemma BoundsOf(lens: seq<nat>, kmin: nat, g: nat)
    requires 1 <= kmin <= g <= BMAX && CountsOf(lens)[kmin] > 0 && CountsOf(lens)[g] > 0
    requires forall k :: 1 <= k < kmin ==> CountsOf(lens)[k] == 0
    requires forall k :: g < k <= BMAX ==> CountsOf(lens)[k] == 0
    ensures IsMin(lens, kmin) && IsMax(lens, g)
  {
    assert forall k :: 0 <= k <= BMAX ==> CountsOf(lens)[k] == Count(lens, k);
  }

  lemma SomeUsed(lens: seq<nat>)
    requires ValidLengths(lens) && !AllUnused(lens)
    ensures exists k :: 1 <= k <= BMAX && CountsOf(lens)[k] > 0
  {
    var s :| 0 <= s < |lens| && lens[s] != 0;
    CountPositive(lens, s);
    assert CountsOf(lens)[lens[s]] > 0;
  }

  // ---- when the tables are sound

  ghost function Scaled(x: nat, d: nat): nat
  {
    if d == 0 then x else 2 * Scaled(x, d - 1)
  }

  lemma {:induction false} ScaledMono(x: nat, y: nat, d: nat)
    ensures x < y ==> Scaled(x, d) < Scaled(y, d)
    ensures Scaled(x, d) + y <= Scaled(x + y, d)
  {
    if d > 0 {
      ScaledMono(x, y, d - 1);
    }
  }

  lemma {:induction false} ScaledPow2(k: nat, d: nat)
    ensures Scaled(Pow2(k), d) == Pow2(k + d)
  {
    if d > 0 {
      ScaledPow2(k, d - 1);
    }
  }

  /** The codes from the r-th of length k on, up to length t, take at most one part in 2^k
      of the code space each. */
  lemma {:induction false} SpaceOfRest(c: Counts, k: nat, r: nat, t: nat)
    requires 1 <= k <= t <= BMAX && r <= c[k]
    ensures var n := Shorter(c, t + 1) - Shorter(c, k) - r;
            n >= 0 && EndCode(c, t) <= Scaled(FirstCode(c, k) + r + n, t - k)
    decreases t
  {
    if k < t {
      SpaceOfRest(c, k, r, t - 1);
      var n := Shorter(c, t) - Shorter(c, k) - r;
      FirstIsTwiceEnd(c, t);
      assert EndCode(c, t) <= Scaled(FirstCode(c, k) + r + n, t - k) + c[t];
      ScaledMono(FirstCode(c, k) + r + n, c[t], t - k);
      assert Shorter(c, t + 1) == Shorter(c, t) + c[t];
    }
  }

  /** A region all of whose codes are at least l bits longer than its depth holds at least
      2^l codes. */
  lemma ManyCodes(c: Counts, g: nat, k: nat, r: nat, w: nat)
    requires Fills(c, g) && IsCode(c, g, k, r) && w <= k && AllZero(CodeWord(c, k, r), w)
    ensures Pow2(k - w) <= Shorter(c, g + 1)
  {
    var code := CodeWord(c, k, r);
    CodeWordValue(c, g, k, r);
    SubtreeStart(code[..w], code, k);
    SubtreeEndBound(code[..w], k);
    assert code[..k] == code;
    SpaceOfRest(c, k, r, g);
    var n := Shorter(c, g + 1) - Shorter(c, k) - r;
    ScaledPow2(k, g - k);
    ScaledMono(FirstCode(c, k) + r + n, Pow2(k), g - k);
  }

  /** Tables are sound when the longest code is under twice the table width, or when there
      are fewer codes than entries in a table: every call in inflate.c is of one of these
      kinds. */
  lemma SmallIsSound(c: Counts, g: nat, l: nat)
    requires Fills(c, g) && 1 <= l <= g && (g < 2 * l || Shorter(c, g + 1) < Pow2(l))
    ensures Sound(c, g, l)
  {
    forall k: nat, r: nat, h: nat |
      IsCode(c, g, k, r) && h >= 1 && Depth(l, h) < k && AllZero(CodeWord(c, k, r), Depth(l, h))
      ensures Roomy(c, l, k, r, Depth(l, h))
    {
      var w := Depth(l, h);
      DepthMono(l, 1, h);
      if k - w >= l && g >= 2 * l {
        ManyCodes(c, g, k, r, w);
        Pow2Mono(l, k - w);
      }
    }
  }

  lemma CountLast(lens: seq<nat>, x: nat, k: nat)
    ensures Count(lens + [x], k) == Count(lens, k) + (if x == k then 1 else 0)
  {
    assert (lens + [x])[..|lens|] == lens;
  }

  /** A complete set whose tables are not sound: one code of one bit and four of three,
      with one bit per table. No call in inflate.c asks for so narrow a table: the widths
      there are 9, 7, 6 and 5, each with so few or such short codes that SmallIsSound holds
      (InflateBlocks.SmallSound). */
  lemma UnsoundExample()
    ensures var lens: seq<nat> := [1, 3, 3, 3, 3];
      && ValidLengths(lens) && IsMin(lens, 1) && IsMax(lens, 3) && Clamp(1, 1, 3) == 1
      && EndCode(CountsOf(lens), 3) == Pow2(3) && !Sound(CountsOf(lens), 3, 1)
  {
    var lens: seq<nat> := [1, 3, 3, 3, 3];
    var c := CountsOf(lens);
    forall k: nat
      ensures Count(lens, k) == if k == 1 then 1 else if k == 3 then 4 else 0
    {
      CountLast([], 1, k);
      CountLast([1], 3, k);
      CountLast([1, 3], 3, k);
      CountLast([1, 3, 3], 3, k);
      CountLast([1, 3, 3, 3], 3, k);
      assert [] + [1] == [1] && [1] + [3] == [1, 3] && [1, 3] + [3] == [1, 3, 3]
        && [1, 3, 3] + [3] == [1, 3, 3, 3] && [1, 3, 3, 3] + [3] == lens;
    }
    assert FirstCode(c, 1) == 0 && FirstCode(c, 2) == 2 && FirstCode(c, 3) == 4;
    assert ToMsb(4, 3) == [true, false, false] by {
      assert ToMsb(1, 1) == [true] && ToMsb(2, 2) == [true, false];
    }
    assert Depth(1, 1) == 1 && IsCode(c, 3, 3, 0) && AllZero(CodeWord(c, 3, 0), Depth(1, 1));
    assert !Roomy(c, 1, 3, 0, Depth(1, 1));
  }
}
