/** The deflate format as RFC 1951 describes it, decoded bit by bit with no tables and no
    window: the reference that the inflater is compared with.

    `hist` is everything a copy can reach back to. It starts as some 32768 bytes that stand
    for whatever the window held before, so that every distance has a meaning. */
module DeflateSpec {
  import opened Bits
  import opened Canonical
  import opened Huffman

  type byte = x: int | 0 <= x < 256

  const WSIZE := 0x8000

  datatype Res<T> = Ok(v: T, pos: nat) | Bad

  /** A data element of n bits. */
  ghost function Field(bits: seq<bool>, pos: nat, n: nat): (r: Res<nat>)
    ensures r.Ok? ==> r.pos == pos + n <= |bits|
  {
    if pos + n <= |bits| then Ok(Lsb(bits[pos..pos + n]), pos + n) else Bad
  }

  /** The symbol whose code is next. */
  ghost function Symbol(lens: seq<nat>, bits: seq<bool>, pos: nat): (r: Res<nat>)
    requires ValidLengths(lens)
    ensures r.Ok? ==> pos < r.pos <= |bits| && r.v < |lens|
  {
    if pos > |bits| then Bad
    else if s: nat :| Matches(lens, s, bits[pos..]) then Ok(s, pos + lens[s])
    else Bad
  }

  /** Repeat n times: append the byte dist positions back. */
  ghost function Copy(hist: seq<byte>, n: nat, dist: nat): (h: seq<byte>)
    requires 1 <= dist <= |hist|
    ensures |h| == |hist| + n
    decreases n
  {
    if n == 0 then hist else Copy(hist + [hist[|hist| - dist]], n - 1, dist)
  }

  // ---- length and distance codes (section 3.2.5)

  ghost function LenExtra(s: nat): nat
    requires 257 <= s <= 285
  {
    if s < 265 || s == 285 then 0 else (s - 261) / 4
  }

  ghost function LenBase(s: nat): nat
    requires 257 <= s <= 285
  {
    if s == 285 then 258 else if s == 257 then 3 else LenBase(s - 1) + Pow2(LenExtra(s - 1))
  }

  ghost function DistExtra(s: nat): nat
    requires s <= 29
  {
    if s < 4 then 0 else (s - 2) / 2
  }

  ghost function DistBase(s: nat): nat
    requires s <= 29
  {
    if s == 0 then 1 else DistBase(s - 1) + Pow2(DistExtra(s - 1))
  }

  // ---- blocks

  /** Compressed data up to the end-of-block code. */
  ghost function Codes(ll: seq<nat>, dl: seq<nat>, bits: seq<bool>, pos: nat, hist: seq<byte>): (r: Res<seq<byte>>)
    requires ValidLengths(ll) && ValidLengths(dl) && |hist| >= WSIZE
    ensures r.Ok? ==> pos < r.pos <= |bits| && |r.v| >= |hist|
    decreases |bits| - pos
  {
    var s := Symbol(ll, bits, pos);
    if s.Bad? then Bad
    else if s.v < 256 then Codes(ll, dl, bits, s.pos, hist + [s.v])
    else if s.v == 256 then Ok(hist, s.pos)
    else
      var m := Match(dl, s.v, bits, s.pos);
      if m.Bad? then Bad
      else Codes(ll, dl, bits, m.pos, Copy(hist, m.v.0, m.v.1))
  }

  /** The length and distance that follow length symbol s. */
  ghost function Match(dl: seq<nat>, s: nat, bits: seq<bool>, pos: nat): (r: Res<(nat, nat)>)
    requires ValidLengths(dl)
    ensures r.Ok? ==> pos < r.pos <= |bits| && 1 <= r.v.1 <= WSIZE && 1 <= r.v.0
  {
    if s < 257 || s > 285 then Bad
    else
      var n := Field(bits, pos, LenExtra(s));
      if n.Bad? then Bad
      else
        var d := Distance(dl, bits, n.pos);
        if d.Bad? then Bad
        else
          LenPositive(s);
          Ok((LenBase(s) + n.v, d.v), d.pos)
  }

  /** A distance: its symbol and its extra bits. */
  ghost function Distance(dl: seq<nat>, bits: seq<bool>, pos: nat): (r: Res<nat>)
    requires ValidLengths(dl)
    ensures r.Ok? ==> pos < r.pos <= |bits| && 1 <= r.v <= WSIZE
  {
    var d := Symbol(dl, bits, pos);
    if d.Bad? || d.v > 29 then Bad
    else
      var x := Field(bits, d.pos, DistExtra(d.v));
      if x.Bad? then Bad
      else
        DistInWindow(d.v, bits[d.pos..d.pos + DistExtra(d.v)]);
        Ok(DistBase(d.v) + x.v, x.pos)
  }

  /** A stored block, after its three header bits (section 3.2.4). */
  ghost function Stored(bits: seq<bool>, pos: nat, hist: seq<byte>): (r: Res<seq<byte>>)
    ensures r.Ok? ==> pos < r.pos <= |bits| && |r.v| >= |hist|
  {
    var p := (pos + 7) / 8 * 8;
    var n := Field(bits, p, 16);
    var c := Field(bits, p + 16, 16);
    if n.Bad? || c.Bad? || n.v + c.v != 0xffff then Bad else Bytes(bits, p + 32, n.v, hist)
  }

  ghost function Bytes(bits: seq<bool>, pos: nat, n: nat, hist: seq<byte>): (r: Res<seq<byte>>)
    ensures r.Ok? ==> pos <= r.pos <= |bits| && |r.v| >= |hist|
    decreases n
  {
    if pos > |bits| then Bad
    else if n == 0 then Ok(hist, pos)
    else
      var b := Field(bits, pos, 8);
      if b.Bad? then Bad
      else
        ByteBound(bits[pos..pos + 8]);
        Bytes(bits, pos + 8, n - 1, hist + [b.v])
  }

  lemma ByteBound(s: seq<bool>)
    requires |s| == 8
    ensures Lsb(s) < 256
  {
    LsbBound(s);
    SmallPowers();
  }

  /** Length sets a decoder accepts: no codes, a complete set, or a lone one-bit code. */
  ghost predicate Acceptable(lens: seq<nat>)
    requires ValidLengths(lens)
  {
    AllUnused(lens) || KraftSum(lens) == Pow2(BMAX) || (KraftSum(lens) < Pow2(BMAX) && IsMax(lens, 1))
  }

  /** Lengths of the literal symbols under fixed codes (section 3.2.6). */
  ghost function FixedLength(s: nat): nat
  {
    if s < 144 then 8 else if s < 256 then 9 else if s < 280 then 7 else 8
  }

  ghost function FixedLit(): (l: seq<nat>)
    ensures |l| == 288 && ValidLengths(l)
  {
    seq(288, s requires 0 <= s => FixedLength(s))
  }

  ghost function FixedDist(): (l: seq<nat>)
    ensures |l| == 30 && ValidLengths(l)
  {
    seq(30, _ => 5)
  }

  /** The order in which code length code lengths are sent (section 3.2.7). */
  const BORDER: seq<nat> := [16, 17, 18, 0, 8, 7, 9, 6, 10, 5, 11, 4, 12, 3, 13, 2, 14, 1, 15]

  /** The first nb code length code lengths, the rest being zero. */
  ghost function CodeLengths(bits: seq<bool>, pos: nat, nb: nat): (r: Res<seq<nat>>)
    requires nb <= 19
    ensures r.Ok? ==> r.pos == pos + 3 * nb <= |bits| && |r.v| == 19 && forall i :: 0 <= i < 19 ==> r.v[i] <= 7
  {
    if nb == 0 then (if pos <= |bits| then Ok(Run(19, 0), pos) else Bad)
    else
      var r := CodeLengths(bits, pos, nb - 1);
      if r.Bad? then Bad
      else
        var x := Field(bits, r.pos, 3);
        if x.Bad? then Bad
        else
          ThreeBits(bits[r.pos..r.pos + 3]);
          Ok(r.v[BORDER[nb - 1] := x.v], x.pos)
  }

  lemma ThreeBits(s: seq<bool>)
    requires |s| == 3
    ensures Lsb(s) <= 7
  {
    LsbBound(s);
    SmallPowers();
  }

  /** What a symbol of the code length code stands for: extra bits, fewest repetitions. */
  function RepeatExtra(s: nat): nat
  {
    if s == 16 then 2 else if s == 17 then 3 else 7
  }

  function RepeatBase(s: nat): nat
  {
    if s == 18 then 11 else 3
  }

  /** n copies of v. */
  ghost function Run(n: nat, v: nat): (s: seq<nat>)
    ensures |s| == n && forall i :: 0 <= i < n ==> s[i] == v
  {
    seq(n, _ => v)
  }

  /** Read lengths until there are n of them; `last` is the one that symbol 16 repeats. */
  ghost function Lengths(cl: seq<nat>, bits: seq<bool>, pos: nat, n: nat, acc: seq<nat>, last: nat): (r: Res<seq<nat>>)
    requires ValidLengths(cl) && ValidLengths(acc) && last <= BMAX && |acc| <= n
    ensures r.Ok? ==> pos <= r.pos && |r.v| == n && ValidLengths(r.v)
    decreases n - |acc|
  {
    if |acc| == n then Ok(acc, pos)
    else
      var s := Symbol(cl, bits, pos);
      if s.Bad? then Bad
      else if s.v < 16 then Lengths(cl, bits, s.pos, n, acc + [s.v], s.v)
      else
        var x := Field(bits, s.pos, RepeatExtra(s.v));
        if x.Bad? || |acc| + RepeatBase(s.v) + x.v > n then Bad
        else
          var len := if s.v == 16 then last else 0;
          Lengths(cl, bits, x.pos, n, acc + Run(RepeatBase(s.v) + x.v, len), len)
  }

  /** The header of a block with dynamic codes, after its three header bits (section 3.2.7):
      the number of literal/length codes, and all code lengths. */
  ghost function Header(bits: seq<bool>, pos: nat): (r: Res<(nat, seq<nat>)>)
    ensures r.Ok? ==> pos < r.pos && 257 <= r.v.0 <= 286 && r.v.0 < |r.v.1| <= r.v.0 + 30 && ValidLengths(r.v.1)
  {
    var l := Field(bits, pos, 5);
    var d := Field(bits, pos + 5, 5);
    var b := Field(bits, pos + 10, 4);
    if l.Bad? || d.Bad? || b.Bad? || l.v > 29 || d.v > 29 then Bad
    else
      FourBits(bits[pos + 10..pos + 14]);
      var cl := CodeLengths(bits, pos + 14, 4 + b.v);
      if cl.Bad? || !Acceptable(cl.v) then Bad
      else
        var lens := Lengths(cl.v, bits, cl.pos, 258 + l.v + d.v, [], 0);
        if lens.Bad? then Bad else Ok((257 + l.v, lens.v), lens.pos)
  }

  /** A block with dynamic codes. */
  ghost function Dynamic(bits: seq<bool>, pos: nat, hist: seq<byte>): (r: Res<seq<byte>>)
    requires |hist| >= WSIZE
    ensures r.Ok? ==> pos < r.pos <= |bits| && |r.v| >= |hist|
  {
    var h := Header(bits, pos);
    if h.Bad? then Bad
    else
      var ll, dl := h.v.1[..h.v.0], h.v.1[h.v.0..];
      assert ValidLengths(ll) && ValidLengths(dl);
      if !Acceptable(ll) || !Acceptable(dl) then Bad else Codes(ll, dl, bits, h.pos, hist)
  }

  lemma FourBits(s: seq<bool>)
    requires |s| == 4
    ensures Lsb(s) <= 15
  {
    LsbBound(s);
    SmallPowers();
  }

  /** One block: whether it is the last, and the history after it (section 3.2.3). */
  ghost function Block(bits: seq<bool>, pos: nat, hist: seq<byte>): (r: Res<(bool, seq<byte>)>)
    requires |hist| >= WSIZE
    ensures r.Ok? ==> pos < r.pos <= |bits| && |r.v.1| >= |hist|
  {
    var e := Field(bits, pos, 1);
    var t := Field(bits, pos + 1, 2);
    if e.Bad? || t.Bad? then Bad
    else
      var r := if t.v == 2 then Dynamic(bits, pos + 3, hist)
               else if t.v == 0 then Stored(bits, pos + 3, hist)
               else if t.v == 1 then Codes(FixedLit(), FixedDist(), bits, pos + 3, hist)
               else Bad;
      if r.Bad? then Bad else Ok((e.v == 1, r.v), r.pos)
  }

  /** A whole deflate stream. */
  ghost function Inflated(bits: seq<bool>, pos: nat, hist: seq<byte>): (r: Res<seq<byte>>)
    requires |hist| >= WSIZE
    ensures r.Ok? ==> pos < r.pos <= |bits| && |r.v| >= |hist|
    decreases |bits| - pos
  {
    var b := Block(bits, pos, hist);
    if b.Bad? then Bad
    else if b.v.0 then Ok(b.v.1, b.pos)
    else Inflated(bits, b.pos, b.v.1)
  }

  // ---- the tables of the inflater

  const CPLENS: seq<nat> := [3, 4, 5, 6, 7, 8, 9, 10, 11, 13, 15, 17, 19, 23, 27, 31, 35, 43, 51, 59, 67, 83, 99,
      115, 131, 163, 195, 227, 258, 0, 0]
  const CPLEXT: seq<nat> := [0, 0, 0, 0, 0, 0, 0, 0, 1, 1, 1, 1, 2, 2, 2, 2, 3, 3, 3, 3, 4, 4, 4, 4, 5, 5, 5, 5, 0,
      99, 99]
  const CPDIST: seq<nat> := [1, 2, 3, 4, 5, 7, 9, 13, 17, 25, 33, 49, 65, 97, 129, 193, 257, 385, 513, 769, 1025,
      1537, 2049, 3073, 4097, 6145, 8193, 12289, 16385, 24577]
  const CPDEXT: seq<nat> := [0, 0, 0, 0, 1, 1, 2, 2, 3, 3, 4, 4, 5, 5, 6, 6, 7, 7, 8, 8, 9, 9, 10, 10, 11, 11, 12,
      12, 13, 13]

  lemma SmallPowers()
    ensures Pow2(0) == 1 && Pow2(1) == 2 && Pow2(2) == 4 && Pow2(3) == 8 && Pow2(4) == 16 && Pow2(5) == 32
    ensures Pow2(6) == 64 && Pow2(7) == 128 && Pow2(8) == 256 && Pow2(9) == 512 && Pow2(10) == 1024
    ensures Pow2(11) == 2048 && Pow2(12) == 4096 && Pow2(13) == 8192 && Pow2(14) == 16384 && Pow2(15) == 32768
    ensures Pow2(16) == 65536
  {
    assert Pow2(8) == 256;
  }

  lemma LengthSteps(s: nat)
    requires 258 <= s <= 284
    ensures CPLENS[s - 257] == CPLENS[s - 258] + Pow2(CPLEXT[s - 258])
  {
  }

  lemma LengthExtras(s: nat)
    requires 257 <= s <= 285
    ensures LenExtra(s) == CPLEXT[s - 257]
  {
  }

  /** The copy lengths of the inflater are those of the RFC. */
  lemma {:induction false} LengthTable(s: nat)
    requires 257 <= s <= 285
    ensures LenBase(s) == CPLENS[s - 257] >= 3 && LenExtra(s) == CPLEXT[s - 257]
  {
    hide LenExtra;
    LengthExtras(s);
    if 257 < s < 285 {
      LengthTable(s - 1);
      LengthSteps(s);
    }
  }

  lemma DistanceSteps(s: nat)
    requires 1 <= s <= 29
    ensures CPDIST[s] == CPDIST[s - 1] + Pow2(CPDEXT[s - 1])
  {
    SmallPowers();
  }

  lemma DistanceExtras(s: nat)
    requires s <= 29
    ensures DistExtra(s) == CPDEXT[s]
  {
  }

  /** The copy distances of the inflater are those of the RFC. */
  lemma {:induction false} DistanceTable(s: nat)
    requires s <= 29
    ensures DistBase(s) == CPDIST[s] >= 1 && DistExtra(s) == CPDEXT[s]
  {
    hide DistExtra;
    DistanceExtras(s);
    if s > 0 {
      DistanceTable(s - 1);
      DistanceSteps(s);
    }
  }

  lemma LenPositive(s: nat)
    requires 257 <= s <= 285
    ensures LenBase(s) >= 3
  {
    LengthTable(s);
  }

  lemma {:induction false} DistanceLimit(s: nat)
    requires s <= 29
    ensures DistBase(s) + Pow2(DistExtra(s)) <= WSIZE + 1
    decreases 29 - s
  {
    if s < 29 {
      DistanceLimit(s + 1);
    } else {
      DistanceTable(29);
      SmallPowers();
    }
  }

  /** No distance exceeds the window. */
  lemma DistInWindow(s: nat, extra: seq<bool>)
    requires s <= 29 && |extra| == DistExtra(s)
    ensures 1 <= DistBase(s) + Lsb(extra) <= WSIZE
  {
    hide DistExtra, DistBase;
    LsbBound(extra);
    DistanceTable(s);
    DistanceLimit(s);
  }
}
