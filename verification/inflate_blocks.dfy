/** Block types and the whole stream (inflate.c): tables for each kind of block, the three
    block decoders, and inflate itself. */
module InflateBlocks {
  import opened Bits
  import opened Canonical
  import opened HuftTables
  import opened HuftState
  import opened HuftBuild
  import opened Huffman
  import opened DeflateSpec
  import opened Inflaters
  import opened Inflate

  // ---- tables

  /** Every call of huft_build is of one of these kinds, which its tables can handle. */
  ghost predicate Small(lens: seq<nat>, m: nat)
  {
    |lens| < Pow2(m) || forall s :: 0 <= s < |lens| ==> lens[s] < 2 * m
  }

  lemma MaxIsLength(lens: seq<nat>, g: nat)
    requires IsMax(lens, g)
    ensures g in lens
  {
    var s := SymbolOfRank(lens, g, 0);
  }

  lemma SmallSound(lens: seq<nat>, m: nat, kmin: nat, g: nat)
    requires ValidLengths(lens) && IsMax(lens, g) && EndCode(CountsOf(lens), g) <= Pow2(g) && 1 <= kmin <= g
    requires (forall s :: 0 <= s < |lens| ==> lens[s] < 2 * m)
          || (|lens| < Pow2(m) && (EndCode(CountsOf(lens), g) == Pow2(g) || g == 1))
    ensures Sound(Completed(lens, g), g, Clamp(m, kmin, g))
  {
    var c, l := Completed(lens, g), Clamp(m, kmin, g);
    CompletedFills(lens, g);
    MaxIsLength(lens, g);
    hide Sound, Completed, EndCode, KraftSum;
    if !(g < 2 * l) {
      Pow2Mono(m, l);
      assert c == CountsOf(lens);
      UnusedTail(c, g, BMAX + 1);
      UsedAndUnused(lens);
      assert Shorter(c, g + 1) == Shorter(c, g) + c[g];
    }
    SmallIsSound(c, g, l);
  }

  /** Call huft_build for a set that may be kept if incomplete. */
  method MakeTables(lens: seq<nat>, s: nat, d: seq<nat>, e: seq<nat>, m: nat)
    returns (ret: nat, tabs: seq<seq<Huft>>, l: nat)
    requires 1 <= |lens| <= N_MAX && ValidLengths(lens) && Small(lens, m) && m <= 16
    requires |lens| <= s + |d| && |lens| <= s + |e| && forall i :: 0 <= i < |e| ==> e[i] <= 16 || e[i] == 99
    ensures ret == 0 <==> Acceptable(lens)
    ensures ret == 0 ==> TablesFor(lens, s, d, e, tabs, l)
    ensures KraftSum(lens) <= Pow2(BMAX) && (forall s :: 0 <= s < |lens| ==> 0 < lens[s] < 2 * m)
            ==> ret <= 1 && TablesFor(lens, s, d, e, tabs, l)
    ensures (forall s :: 0 <= s < |lens| ==> lens[s] <= m) ==> NoLinks(tabs)
  {
    hide Decodes, Sound, IsMin, EndCode, KraftSum;
    ghost var g;
    ret, tabs, l, g := Build(lens, s, d, e, m);
    if !AllUnused(lens) {
      ghost var kmin :| IsMin(lens, kmin) && l == Clamp(m, kmin, g);
      Judge(lens, kmin, g);
      MaxIsLength(lens, g);
      if ret == 0 || (KraftSum(lens) <= Pow2(BMAX) && forall s :: 0 <= s < |lens| ==> 0 < lens[s] < 2 * m) {
        SmallSound(lens, m, kmin, g);
        assert Ready(lens, s, d, e, g, tabs, l);
      }
    }
  }

  /** The Kraft sum can be judged at the longest length. */
  lemma Judge(lens: seq<nat>, kmin: nat, g: nat)
    requires ValidLengths(lens) && IsMax(lens, g) && IsMin(lens, kmin)
    ensures 1 <= kmin <= g
    ensures KraftSum(lens) <= Pow2(BMAX) <==> EndCode(CountsOf(lens), g) <= Pow2(g)
    ensures KraftSum(lens) == Pow2(BMAX) <==> EndCode(CountsOf(lens), g) == Pow2(g)
    ensures IsMax(lens, 1) <==> g == 1
  {
    KraftSumIsEndCode(lens);
    assert forall k :: 0 <= k <= BMAX ==> CountsOf(lens)[k] == Count(lens, k);
    JudgedAtLongest(CountsOf(lens), g, BMAX);
  }

  // ---- stored blocks

  /** Dropping the odd bits of the buffer moves to the next byte of the input. */
  lemma ToByteBoundary(inptr: nat, bk: nat)
    requires bk <= 8 * inptr
    ensures 8 * inptr - bk + bk % 8 == (8 * inptr - bk + 7) / 8 * 8
  {
  }

  /** Copy a stored block. */
  method InflateStored(z: Inflater) returns (st: Status)
    requires z.Valid()
    modifies z, z.window
    ensures z.Valid() && z.Pos() >= old(z.Pos())
    ensures Agrees(st, Stored(z.Stream(), old(z.Pos()), old(z.Hist())), z.Hist(), z.Pos(), |z.Stream()|)
  {
    hide Lsb, LastWindow, Bytes, Field;
    var n := z.bk % 8;
    ToByteBoundary(z.inptr, z.bk);
    z.DumpBits(n);
    var ok;
    ok, n := z.GetField(16);
    if !ok {
      return Overrun;
    }
    var c;
    ok, c := z.GetField(16);
    if !ok {
      return Overrun;
    }
    var complement := 0xffff - (c as int);
    if n != complement {
      return Failed(1);
    }
    st := StoredBytes(z, n);
  }

  method StoredBytes(z: Inflater, count: nat) returns (st: Status)
    requires z.Valid()
    modifies z, z.window
    ensures z.Valid() && z.Pos() >= old(z.Pos())
    ensures Agrees(st, Bytes(z.Stream(), old(z.Pos()), count, old(z.Hist())), z.Hist(), z.Pos(), |z.Stream()|)
  {
    hide Lsb, LastWindow;
    var n := count;
    ghost var bits := z.Stream();
    ghost var r := Bytes(bits, z.Pos(), n, z.Hist());
    while n > 0
      invariant 0 <= n && z.Valid() && z.Pos() >= old(z.Pos()) && r == Bytes(bits, z.Pos(), n, z.Hist())
    {
      ghost var p := z.Pos();
      var ok, b := z.GetField(8);
      if !ok {
        return Overrun;
      }
      ByteBound(bits[p..p + 8]);
      z.PutByte(b);
      n := n - 1;
    }
    st := Done;
  }

  // ---- fixed codes

  lemma {:induction false} KraftConcat(a: seq<nat>, b: seq<nat>)
    requires ValidLengths(a) && ValidLengths(b)
    ensures ValidLengths(a + b) && KraftSum(a + b) == KraftSum(a) + KraftSum(b)
  {
    if b == [] {
      assert a + b == a;
    } else {
      var n := |b| - 1;
      KraftConcat(a, b[..n]);
      assert (a + b)[..|a| + n] == a + b[..n];
    }
  }

  lemma {:induction false} KraftRun(n: nat, len: nat, run: seq<nat>)
    requires 1 <= len <= BMAX && |run| == n && forall i :: 0 <= i < n ==> run[i] == len
    ensures KraftSum(run) == n * Pow2(BMAX - len)
  {
    if n > 0 {
      KraftRun(n - 1, len, run[..n - 1]);
    }
  }

  /** The fixed literal code is complete, the fixed distance code is not. */
  lemma FixedKraft()
    ensures KraftSum(FixedLit()) == Pow2(BMAX) && KraftSum(FixedDist()) < Pow2(BMAX)
  {
    SmallPowers();
    var l := FixedLit();
    var a, b, c, d := l[..144], l[144..256], l[256..280], l[280..];
    KraftRun(144, 8, a);
    KraftRun(112, 9, b);
    KraftRun(24, 7, c);
    KraftRun(8, 8, d);
    KraftConcat(a, b);
    KraftConcat(a + b, c);
    KraftConcat(a + b + c, d);
    assert l == a + b + c + d;
    KraftRun(30, 5, FixedDist());
  }

  /** Inflate a block with fixed codes. */
  method InflateFixed(z: Inflater) returns (st: Status)
    requires z.Valid()
    modifies z, z.window
    ensures z.Valid() && z.Pos() >= old(z.Pos())
    ensures Agrees(st, Codes(FixedLit(), FixedDist(), z.Stream(), old(z.Pos()), old(z.Hist())),
                   z.Hist(), z.Pos(), |z.Stream()|)
  {
    hide KraftSum, TablesFor, Codes, LastWindow, Lsb;
    var l := new nat[288];
    FillLengths(l);
    FixedKraft();
    var ret, tl, bl := MakeTables(l[..], 257, CPLENS, CPLEXT, 7);
    if ret != 0 {
      return Failed(ret);
    }
    var td, bd;
    ret, td, bd := MakeTables(FixedDistances(), 0, CPDIST, CPDEXT, 5);
    if ret > 1 {
      return Failed(ret);
    }
    st := InflateCodes(z, tl, bl, td, bd, FixedLit(), FixedDist());
  }

  function FixedDistances(): (l: seq<nat>)
    ensures l == FixedDist()
  {
    seq(30, _ => 5)
  }

  method FillLengths(l: array<nat>)
    requires l.Length == 288
    modifies l
    ensures l[..] == FixedLit()
  {
    var i := 0;
    while i < 144
      invariant 0 <= i <= 144 && forall k :: 0 <= k < i ==> l[k] == FixedLength(k)
    {
      l[i] := 8;
      i := i + 1;
    }
    while i < 256
      invariant 144 <= i <= 256 && forall k :: 0 <= k < i ==> l[k] == FixedLength(k)
    {
      l[i] := 9;
      i := i + 1;
    }
    while i < 280
      invariant 256 <= i <= 280 && forall k :: 0 <= k < i ==> l[k] == FixedLength(k)
    {
      l[i] := 7;
      i := i + 1;
    }
    while i < 288
      invariant 280 <= i <= 288 && forall k :: 0 <= k < i ==> l[k] == FixedLength(k)
    {
      l[i] := 8;
      i := i + 1;
    }
  }

  // ---- dynamic codes

  /** Where each code length symbol comes in the order of transmission. */
  const ORDER: seq<nat> := [3, 17, 15, 13, 11, 9, 7, 5, 4, 6, 8, 10, 12, 14, 16, 18, 0, 1, 2]

  lemma BorderInverse(i: nat)
    requires i < 19
    ensures ORDER[i] < 19 && BORDER[ORDER[i]] == i
    ensures BORDER[i] < 19 && ORDER[BORDER[i]] == i
  {
  }

  /** The entries named by the first j places of the transmission order agree. */
  ghost predicate SentSame(ll: seq<nat>, v: seq<nat>, j: nat)
    requires j <= 19 <= |ll| && |v| == 19
  {
    forall i :: 0 <= i < 19 && ORDER[i] < j ==> ll[i] == v[i]
  }

  ghost predicate UnsentZero(v: seq<nat>, j: nat)
    requires |v| == 19
  {
    forall i :: 0 <= i < 19 && ORDER[i] >= j ==> v[i] == 0
  }

  lemma SendOne(ll: seq<nat>, v: seq<nat>, j: nat, x: nat)
    requires j < 19 <= |ll| && |v| == 19 && SentSame(ll, v, j) && UnsentZero(v, j)
    ensures BORDER[j] < 19
    ensures SentSame(ll[BORDER[j] := x], v[BORDER[j] := x], j + 1) && UnsentZero(v[BORDER[j] := x], j + 1)
    ensures SentSame(ll[BORDER[j] := 0], v, j + 1)
  {
    BorderInverse(j);
    forall i | 0 <= i < 19
      ensures ORDER[i] == j <==> i == BORDER[j]
    {
      BorderInverse(i);
    }
  }

  /** Read the lengths of the code length code into ll[..19]. */
  method ReadCodeLengths(z: Inflater, nb: nat, ll: array<nat>) returns (ok: bool)
    requires z.BitsOk() && 4 <= nb <= 19 && ll.Length >= 19 && z.Pos() <= |z.Stream()|
    modifies z`inptr, z`bb, z`bk, ll
    ensures z.BitsOk() && z.Pos() >= old(z.Pos())
    ensures ok <==> CodeLengths(z.Stream(), old(z.Pos()), nb).Ok?
    ensures ok ==> CodeLengths(z.Stream(), old(z.Pos()), nb) == Ok(ll[..19], z.Pos())
  {
    hide SentSame, UnsentZero, Lsb, Field, CodeLengths;
    ghost var bits, p := z.Stream(), z.Pos();
    var j := 0;
    ghost var v := Run(19, 0);
    NothingSent(ll[..], v);
    NoCodeLengths(bits, p);
    while j < nb
      invariant 0 <= j <= nb && z.BitsOk() && |v| == 19
      invariant CodeLengths(bits, p, j) == Ok(v, z.Pos())
      invariant SentSame(ll[..], v, j) && UnsentZero(v, j)
    {
      var okay, x := z.GetField(3);
      if !okay {
        CodeLengthsStop(bits, p, j, nb);
        return false;
      }
      SendOne(ll[..], v, j, x);
      OneMoreLength(bits, p, j);
      ghost var ls := ll[..];
      ll[BORDER[j]] := x;
      assert ll[..] == ls[BORDER[j] := x];
      v := v[BORDER[j] := x];
      j := j + 1;
    }
    while j < 19
      invariant nb <= j <= 19 && z.BitsOk() && |v| == 19
      invariant CodeLengths(bits, p, nb) == Ok(v, z.Pos())
      invariant SentSame(ll[..], v, j) && UnsentZero(v, j)
    {
      SendOne(ll[..], v, j, 0);
      ghost var ls := ll[..];
      ll[BORDER[j]] := 0;
      assert ll[..] == ls[BORDER[j] := 0];
      UnsentLater(v, j);
      j := j + 1;
    }
    AllSent(ll[..], v);
    ok := true;
  }

  lemma NoCodeLengths(bits: seq<bool>, pos: nat)
    requires pos <= |bits|
    ensures CodeLengths(bits, pos, 0) == Ok(Run(19, 0), pos)
  {
  }

  lemma OneMoreLength(bits: seq<bool>, pos: nat, j: nat)
    requires j < 19 && CodeLengths(bits, pos, j).Ok?
    ensures var r := CodeLengths(bits, pos, j); var x := Field(bits, r.pos, 3);
            CodeLengths(bits, pos, j + 1) == if x.Bad? then Bad else Ok(r.v[BORDER[j] := x.v], x.pos)
  {
    hide Field;
  }

  lemma NothingSent(ll: seq<nat>, v: seq<nat>)
    requires |ll| >= 19 && v == Run(19, 0)
    ensures SentSame(ll, v, 0) && UnsentZero(v, 0)
  {
  }

  lemma UnsentLater(v: seq<nat>, j: nat)
    requires |v| == 19 && UnsentZero(v, j)
    ensures UnsentZero(v, j + 1)
  {
  }

  lemma AllSent(ll: seq<nat>, v: seq<nat>)
    requires |ll| >= 19 && |v| == 19 && SentSame(ll, v, 19)
    ensures ll[..19] == v
  {
    forall i | 0 <= i < 19
      ensures ll[i] == v[i]
    {
      BorderInverse(i);
    }
  }

  lemma {:induction false} CodeLengthsStop(bits: seq<bool>, pos: nat, j: nat, nb: nat)
    requires j < nb <= 19 && CodeLengths(bits, pos, j).Ok? && Field(bits, CodeLengths(bits, pos, j).pos, 3).Bad?
    ensures CodeLengths(bits, pos, nb).Bad?
    decreases nb
  {
    if j < nb - 1 {
      CodeLengthsStop(bits, pos, j, nb - 1);
    }
  }

  /** One lookup in the single-level tables of the code length code. */
  method GetLengthCode(z: Inflater, tabs: seq<seq<Huft>>, bl: nat, ghost cl: seq<nat>) returns (f: Found)
    requires z.BitsOk() && |cl| == 19 && TablesFor(cl, 19, [], [], tabs, bl) && NoLinks(tabs)
    modifies z`inptr, z`bb, z`bk
    ensures z.BitsOk() && old(z.Pos()) <= z.Pos() <= |z.Stream()|
    ensures match f
            case Short => old(z.Pos()) + LOOKAHEAD > |z.Stream()|
            case Undefined => Symbol(cl, z.Stream(), old(z.Pos())).Bad?
            case Hit(_, v, _) => Symbol(cl, z.Stream(), old(z.Pos())) == Ok(v, z.Pos()) && v < 19
  {
    hide Lsb, Low, Symbol, TablesFor;
    ghost var rest := z.Stream()[z.Pos()..];
    WalkIsSymbol(cl, 19, [], [], tabs, bl, z.Stream(), z.Pos());
    TableWidth(cl, 19, [], [], tabs, bl);
    var ok := z.NeedBits(bl);
    if !ok {
      return Short;
    }
    z.Peek(bl);
    assert rest[..bl] == z.Next(bl);
    var i := Low(z.bb, bl);
    if |tabs| == 0 || i >= |tabs[0]| || tabs[0][i].Unset? || tabs[0][i].b > bl || tabs[0][i].e == 99 {
      if |tabs| > 0 && i < |tabs[0]| {
        assert !IsLink(tabs[0][i]);
      }
      RefusedIsBad(cl, tabs, bl, z.Stream(), z.Pos());
      return Undefined;
    }
    var h := tabs[0][i];
    assert !IsLink(h);
    z.DumpBits(h.b);
    f := Hit(h.e, h.v, h.b);
    LengthHit(cl, z.Stream(), old(z.Pos()), f);
  }

  lemma TableWidth(lens: seq<nat>, s: nat, d: seq<nat>, e: seq<nat>, tabs: seq<seq<Huft>>, l: nat)
    requires TablesFor(lens, s, d, e, tabs, l)
    ensures l <= 16 && ValidLengths(lens)
  {
  }

  /** Symbols of the code length code are all literal. */
  lemma LengthHit(cl: seq<nat>, bits: seq<bool>, pos: nat, f: Found)
    requires ValidLengths(cl) && |cl| == 19 && f.Hit? && f.e != 99
    requires FoundIs(cl, 19, [], [], f, Symbol(cl, bits, pos), pos, |bits|)
    ensures Symbol(cl, bits, pos) == Ok(f.v, pos + f.used) && f.v < 19
  {
  }

  lemma RefusedIsBad(cl: seq<nat>, tabs: seq<seq<Huft>>, bl: nat, bits: seq<bool>, pos: nat)
    requires ValidLengths(cl) && |cl| == 19 && pos <= |bits|
    requires FoundIs(cl, 19, [], [], Walk(tabs, 0, bl, bits[pos..]), Symbol(cl, bits, pos), pos, |bits|)
    requires Walk(tabs, 0, bl, bits[pos..]).Undefined?
             || (Walk(tabs, 0, bl, bits[pos..]).Hit? && Walk(tabs, 0, bl, bits[pos..]).e == 99)
    ensures Symbol(cl, bits, pos).Bad?
  {
  }

  /** Write n copies of v from place i on. */
  method FillRun(ll: array<nat>, i: nat, n: nat, v: nat)
    requires i + n <= ll.Length
    modifies ll
    ensures ll[..i + n] == old(ll[..i]) + Run(n, v)
  {
    var j := 0;
    while j < n
      invariant 0 <= j <= n && ll[..i] == old(ll[..i])
      invariant forall k :: i <= k < i + j ==> ll[k] == v
    {
      ll[i + j] := v;
      j := j + 1;
    }
  }

  /** A repeat code: write the run it stands for. */
  method ReadRun(z: Inflater, j: nat, i: nat, n: nat, v: nat, ll: array<nat>) returns (st: Status, m: nat)
    requires z.BitsOk() && i <= n <= ll.Length && 16 <= j <= 18
    modifies z`inptr, z`bb, z`bk, ll
    ensures z.BitsOk() && z.Pos() >= old(z.Pos())
    ensures match Field(z.Stream(), old(z.Pos()), if j == 16 then 2 else if j == 17 then 3 else 7)
            case Bad => st == Overrun
            case Ok(x, p) =>
              var times := if j == 18 then 11 + x else 3 + x;
              if i + times > n then st == Failed(1)
              else st == Done && m == times && z.Pos() == p && ll[..i + m] == old(ll[..i]) + Run(m, v)
  {
    m := 0;
    var ok, x;
    if j == 16 {
      ok, x := z.GetField(2);
      m := 3 + x;
    } else if j == 17 {
      ok, x := z.GetField(3);
      m := 3 + x;
    } else {
      ok, x := z.GetField(7);
      m := 11 + x;
    }
    if !ok {
      return Overrun, m;
    }
    if i + m > n {
      return Failed(1), m;
    }
    FillRun(ll, i, m, v);
    st := Done;
  }

  /** One step of the reference. */
  lemma LengthsUnfold(cl: seq<nat>, bits: seq<bool>, pos: nat, n: nat, acc: seq<nat>, last: nat)
    requires ValidLengths(cl) && ValidLengths(acc) && last <= BMAX && |acc| <= n
    ensures var r := Lengths(cl, bits, pos, n, acc, last);
            && (r.Ok? ==> pos <= r.pos)
            && (|acc| == n ==> r == Ok(acc, pos))
            && (|acc| < n ==>
                  match Symbol(cl, bits, pos)
                  case Bad => r.Bad?
                  case Ok(v, p) =>
                    if v < 16 then r == Lengths(cl, bits, p, n, acc + [v], v)
                    else match Field(bits, p, RepeatExtra(v))
                    case Bad => r.Bad?
                    case Ok(x, p') =>
                      var m := RepeatBase(v) + x;
                      var len := if v == 16 then last else 0;
                      if |acc| + m > n then r.Bad?
                      else r == Lengths(cl, bits, p', n, acc + Run(m, len), len))
  {
  }

  /** What the three repeat codes write: 3 to 6 copies of the last length, 3 to 10 zeros, or 11
      to 138 zeros. */
  lemma RunsWritten(cl: seq<nat>, bits: seq<bool>, pos: nat, n: nat, acc: seq<nat>, last: nat, p: nat, x: nat, p': nat)
    requires ValidLengths(cl) && ValidLengths(acc) && last <= BMAX && |acc| < n
    ensures Symbol(cl, bits, pos) == Ok(16, p) && Field(bits, p, 2) == Ok(x, p') ==>
              x < 4 && Lengths(cl, bits, pos, n, acc, last)
                       == if |acc| + 3 + x > n then Bad else Lengths(cl, bits, p', n, acc + Run(3 + x, last), last)
    ensures Symbol(cl, bits, pos) == Ok(17, p) && Field(bits, p, 3) == Ok(x, p') ==>
              x < 8 && Lengths(cl, bits, pos, n, acc, last)
                       == if |acc| + 3 + x > n then Bad else Lengths(cl, bits, p', n, acc + Run(3 + x, 0), 0)
    ensures Symbol(cl, bits, pos) == Ok(18, p) && Field(bits, p, 7) == Ok(x, p') ==>
              x < 128 && Lengths(cl, bits, pos, n, acc, last)
                         == if |acc| + 11 + x > n then Bad else Lengths(cl, bits, p', n, acc + Run(11 + x, 0), 0)
  {
    hide Symbol, Run, Lsb;
    FieldBelow(bits, p, 2);
    FieldBelow(bits, p, 3);
    FieldBelow(bits, p, 7);
  }

  lemma FieldBelow(bits: seq<bool>, p: nat, w: nat)
    requires w == 2 || w == 3 || w == 7
    ensures Field(bits, p, w).Ok? ==> Field(bits, p, w).v < if w == 2 then 4 else if w == 3 then 8 else 128
  {
    if p + w <= |bits| {
      LsbBound(bits[p..p + w]);
      assert Pow2(2) == 4 && Pow2(3) == 8 && Pow2(7) == 128;
    }
  }

  /** Symbol s with field x is a run of m zeros. */
  ghost predicate ZeroRun(s: nat, x: nat, m: nat)
  {
    (s == 17 || s == 18) && x < Pow2(RepeatExtra(s)) && m == RepeatBase(s) + x
  }

  /** Every run of 3 to 138 zeros is spelled by just one symbol and field, and no other run is. */
  lemma ZeroRunsSpelled(m: nat, s: nat, x: nat)
    ensures ZeroRun(s, x, m) <==> (3 <= m <= 10 && s == 17 && x == m - 3) || (11 <= m <= 138 && s == 18 && x == m - 11)
  {
    assert Pow2(3) == 8 && Pow2(7) == 128;
  }

  /** Read n literal/length and distance code lengths into ll. */
  method ReadLengths(z: Inflater, tabs: seq<seq<Huft>>, bl: nat, n: nat, ll: array<nat>, ghost cl: seq<nat>)
    returns (st: Status)
    requires z.BitsOk() && n <= ll.Length
    requires |cl| == 19 && ValidLengths(cl) && TablesFor(cl, 19, [], [], tabs, bl) && NoLinks(tabs)
    modifies z`inptr, z`bb, z`bk, ll
    ensures z.BitsOk() && z.Pos() >= old(z.Pos())
    ensures Agrees(st, Lengths(cl, z.Stream(), old(z.Pos()), n, [], 0), ll[..n], z.Pos(), |z.Stream()|)
  {
    hide TablesFor, Symbol, Lsb, NoLinks, Lengths, Field, Run;
    var i: nat, l: nat := 0, 0;
    ghost var bits := z.Stream();
    ghost var r := Lengths(cl, bits, z.Pos(), n, [], 0);
    assert ll[..0] == [];
    while i < n
      invariant 0 <= i <= n && l <= BMAX && z.BitsOk() && z.Pos() >= old(z.Pos()) && ValidLengths(ll[..i])
      invariant r == Lengths(cl, bits, z.Pos(), n, ll[..i], l)
    {
      ghost var acc := ll[..i];
      LengthsUnfold(cl, bits, z.Pos(), n, acc, l);
      var f := GetLengthCode(z, tabs, bl, cl);
      if f.Short? {
        return Overrun;
      }
      if f.Undefined? {
        return Undef;
      }
      var j := f.v;
      if j < 16 {
        ll[i] := j;
        l := j;
        i := i + 1;
        assert ll[..i] == acc + [j];
      } else {
        var m;
        l := if j == 16 then l else 0;
        st, m := ReadRun(z, j, i, n, l, ll);
        if st != Done {
          return;
        }
        i := i + m;
      }
    }
    LengthsUnfold(cl, bits, z.Pos(), n, ll[..i], l);
    st := Done;
  }

  lemma NbInRange(bits: seq<bool>, pos: nat, b: nat)
    requires Field(bits, pos, 4) == Ok(b, pos + 4)
    ensures b <= 15
  {
    FourBits(bits[pos..pos + 4]);
  }

  /** Read the counts at the head of a dynamic block. */
  method ReadCounts(z: Inflater) returns (st: Status, l: nat, d: nat, b: nat)
    requires z.BitsOk()
    modifies z`inptr, z`bb, z`bk
    ensures z.BitsOk() && z.Pos() >= old(z.Pos())
    ensures st == Done ==>
      && Field(z.Stream(), old(z.Pos()), 5) == Ok(l, old(z.Pos()) + 5) && l <= 29
      && Field(z.Stream(), old(z.Pos()) + 5, 5) == Ok(d, old(z.Pos()) + 10) && d <= 29
      && Field(z.Stream(), old(z.Pos()) + 10, 4) == Ok(b, old(z.Pos()) + 14) && b <= 15 && z.Pos() == old(z.Pos()) + 14
    ensures st != Done ==> (st == Overrun || st == Failed(1)) && Header(z.Stream(), old(z.Pos())).Bad?
  {
    hide Lsb, Lengths, CodeLengths, Acceptable, Field;
    l, d, b := 0, 0, 0;
    ghost var bits, p := z.Stream(), z.Pos();
    var ok;
    ok, l := z.GetField(5);
    if !ok {
      return Overrun, l, d, b;
    }
    ok, d := z.GetField(5);
    if !ok {
      return Overrun, l, d, b;
    }
    ok, b := z.GetField(4);
    if !ok {
      return Overrun, l, d, b;
    }
    NbInRange(bits, p + 10, b);
    st := if 257 + l > 286 || 1 + d > 30 then Failed(1) else Done;
  }

  /** The header once its counts are known. */
  lemma HeaderFrom(bits: seq<bool>, p: nat, l: nat, d: nat, b: nat)
    requires Field(bits, p, 5) == Ok(l, p + 5) && Field(bits, p + 5, 5) == Ok(d, p + 10)
             && Field(bits, p + 10, 4) == Ok(b, p + 14)
    requires l <= 29 && d <= 29 && b <= 15
    ensures var cl := CodeLengths(bits, p + 14, 4 + b);
      if cl.Bad? || !Acceptable(cl.v) then Header(bits, p).Bad?
      else
        var lens := Lengths(cl.v, bits, cl.pos, 258 + l + d, [], 0);
        if lens.Bad? then Header(bits, p).Bad?
        else
          && Header(bits, p).Ok? && Header(bits, p).v.0 == 257 + l && Header(bits, p).v.1 == lens.v
          && Header(bits, p).pos == lens.pos
  {
    hide Lengths, CodeLengths, Acceptable, Field;
  }

  /** Read the header of a dynamic block. */
  method ReadHeader(z: Inflater, ll: array<nat>) returns (st: Status, nl: nat, n: nat)
    requires z.BitsOk() && ll.Length == 286 + 30
    modifies z`inptr, z`bb, z`bk, ll
    ensures z.BitsOk() && z.Pos() >= old(z.Pos()) && n <= ll.Length
    ensures Agrees(st, Header(z.Stream(), old(z.Pos())), (nl, ll[..n]), z.Pos(), |z.Stream()|)
  {
    hide Lsb, Lengths, CodeLengths, TablesFor, Acceptable, Field, NoLinks, Header;
    nl, n := 0, 0;
    ghost var bits, p := z.Stream(), z.Pos();
    var l, d, b;
    st, l, d, b := ReadCounts(z);
    if st != Done {
      return;
    }
    HeaderFrom(bits, p, l, d, b);
    nl := 257 + l;
    var nd := 1 + d;
    var ok := ReadCodeLengths(z, 4 + b, ll);
    if !ok {
      return Overrun, nl, n;
    }
    var cl := ll[..19];
    assert forall i :: 0 <= i < 19 ==> cl[i] <= 7;
    var ret, tl, bl := MakeTables(cl, 19, [], [], 7);
    if ret != 0 {
      return Failed(ret), nl, n;
    }
    n := nl + nd;
    st := ReadLengths(z, tl, bl, n, ll, cl);
  }

  /** Inflate a block with dynamic codes. */
  method InflateDynamic(z: Inflater) returns (st: Status)
    requires z.Valid()
    modifies z, z.window
    ensures z.Valid() && z.Pos() >= old(z.Pos())
    ensures Agrees(st, Dynamic(z.Stream(), old(z.Pos()), old(z.Hist())), z.Hist(), z.Pos(), |z.Stream()|)
  {
    hide Header, Codes, TablesFor, Acceptable, Lsb, LastWindow;
    var ll := new nat[286 + 30];
    var nl, n;
    st, nl, n := ReadHeader(z, ll);
    if st != Done {
      return;
    }
    var lens := ll[..n];
    var ls, ds := lens[..nl], lens[nl..];
    SmallPowers();
    var ret, tl, bl := MakeTables(ls, 257, CPLENS, CPLEXT, 9);
    if ret != 0 {
      return Failed(ret);
    }
    var td, bd;
    ret, td, bd := MakeTables(ds, 0, CPDIST, CPDEXT, 6);
    if ret != 0 {
      return Failed(ret);
    }
    st := InflateCodes(z, tl, bl, td, bd, ls, ds);
  }

  // ---- the stream

  /** Inflate one block. */
  method InflateBlock(z: Inflater) returns (st: Status, last: bool)
    requires z.Valid()
    modifies z, z.window
    ensures z.Valid() && z.Pos() >= old(z.Pos())
    ensures Agrees(st, Block(z.Stream(), old(z.Pos()), old(z.Hist())), (last, z.Hist()), z.Pos(), |z.Stream()|)
  {
    hide Dynamic, Codes, Stored, LastWindow, Lsb, Field;
    last := false;
    var ok, e := z.GetField(1);
    if !ok {
      return Overrun, last;
    }
    last := e == 1;
    var t;
    ok, t := z.GetField(2);
    if !ok {
      return Overrun, last;
    }
    if t == 2 {
      st := InflateDynamic(z);
    } else if t == 0 {
      st := InflateStored(z);
    } else if t == 1 {
      st := InflateFixed(z);
    } else {
      st := Failed(2);
    }
  }

  /** Inflate a whole stream. The output is what the reference produces; on success the
      input pointer is left at the first byte after the stream. A stream followed by
      LOOKAHEAD more bits never overruns. */
  method InflateStream(z: Inflater) returns (st: Status)
    requires z.Valid() && z.Pos() == 0 && z.outbuf == [] && z.outcnt == 0
    modifies z, z.window
    ensures st == Done ==> Inflated(z.Stream(), 0, z.init).Ok?
    ensures st == Done ==> z.init + z.outbuf == Inflated(z.Stream(), 0, z.init).v
    ensures st == Done ==> z.inptr == (Inflated(z.Stream(), 0, z.init).pos + 7) / 8
    ensures st != Done && Inflated(z.Stream(), 0, z.init).Ok?
            ==> Inflated(z.Stream(), 0, z.init).pos + LOOKAHEAD > |z.Stream()|
  {
    hide Block, LastWindow;
    ghost var bits := z.Stream();
    assert z.Hist() == z.init;
    ghost var r := Inflated(bits, 0, z.init);
    while true
      invariant z.Valid() && r == Inflated(bits, z.Pos(), z.Hist())
      decreases |bits| - z.Pos()
    {
      var last;
      st, last := InflateBlock(z);
      if st != Done {
        return;
      }
      if last {
        break;
      }
    }
    Unread(z);
    z.outbuf := z.outbuf + z.window[..z.outcnt];
    z.outcnt := 0;
  }

  /** Give back the whole bytes left in the bit buffer. */
  method Unread(z: Inflater)
    requires z.BitsOk()
    modifies z`bk, z`inptr
    ensures z.Pos() == old(z.Pos()) && z.inptr == (z.Pos() + 7) / 8
  {
    while z.bk >= 8
      invariant z.Pos() == old(z.Pos()) && z.bk <= 8 * z.inptr
    {
      z.bk := z.bk - 8;
      z.inptr := z.inptr - 1;
    }
  }
}
