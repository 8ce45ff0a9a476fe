/** The block decoders of inflate.c, each compared with the reference decoder. */
module Inflate {
  import opened Bits
  import opened Canonical
  import opened HuftTables
  import opened HuftState
  import opened Huffman
  import opened DeflateSpec
  import opened Inflaters

  /** How a decoder ends: with the code the source returns, by running off the end of its
      input, or by using memory the source never set. */
  datatype Status = Done | Failed(code: nat) | Overrun | Undef

  /** Bits a lookup may need beyond the code it finds. */
  const LOOKAHEAD := 16

  /** What an ending says about the reference result, which starts from the same state. */
  ghost predicate Agrees<T>(st: Status, r: Res<T>, v: T, pos: int, n: nat)
  {
    match st
    case Done => r.Ok? && r.v == v && r.pos == pos
    case Overrun => r.Ok? ==> r.pos + LOOKAHEAD > n
    case _ => r.Bad?
  }

  // ---- one symbol

  /** Tables that huft_build made for lens (no tables when no length is in use). */
  ghost predicate TablesFor(lens: seq<nat>, s: nat, d: seq<nat>, e: seq<nat>, tabs: seq<seq<Huft>>, l: nat)
  {
    && ValidLengths(lens) && |lens| <= s + |d| && |lens| <= s + |e| && l <= 16
    && if AllUnused(lens) then tabs == [] && l == 0
       else exists g: nat :: Ready(lens, s, d, e, g, tabs, l)
  }

  ghost predicate Ready(lens: seq<nat>, s: nat, d: seq<nat>, e: seq<nat>, g: nat, tabs: seq<seq<Huft>>, l: nat)
    requires ValidLengths(lens) && |lens| <= s + |d| && |lens| <= s + |e|
  {
    && IsMax(lens, g) && EndCode(CountsOf(lens), g) <= Pow2(g)
    && forall bits: seq<bool> :: |bits| >= g ==> Decodes(lens, s, d, e, g, tabs, l, bits)
  }

  lemma UniqueMatch(lens: seq<nat>, g: nat, s: nat, s': nat, bits: seq<bool>)
    requires ValidLengths(lens) && IsMax(lens, g) && EndCode(CountsOf(lens), g) <= Pow2(g)
    requires Matches(lens, s, bits) && Matches(lens, s', bits)
    ensures s == s'
  {
    LengthAtMost(lens, g, s);
    LengthAtMost(lens, g, s');
    RankBelowCount(lens, s);
    RankBelowCount(lens, s');
    MatchesIsPrefix(lens, g, s, bits);
    MatchesIsPrefix(lens, g, s', bits);
    PrefixFree(CountsOf(lens), g, bits, lens[s], Rank(lens, s), lens[s'], Rank(lens, s'));
    if s < s' {
      RankInjective(lens, s, s');
    } else if s' < s {
      RankInjective(lens, s', s);
    }
  }

  lemma MatchExtends(lens: seq<nat>, s: nat, bits: seq<bool>, more: seq<bool>)
    requires ValidLengths(lens)
    ensures Matches(lens, s, bits) ==> Matches(lens, s, bits + more)
    ensures Matches(lens, s, bits + more) && lens[s] <= |bits| ==> Matches(lens, s, bits)
  {
    if s < |lens| && lens[s] <= |bits| {
      assert (bits + more)[..lens[s]] == bits[..lens[s]];
    }
  }

  /** What the walk finds, in terms of the next symbol of the stream. */
  ghost predicate FoundIs(lens: seq<nat>, s: nat, d: seq<nat>, e: seq<nat>, f: Found, sym: Res<nat>, pos: nat, n: nat)
    requires |lens| <= s + |d| && |lens| <= s + |e| && (sym.Ok? ==> sym.v < |lens|)
  {
    match f
    case Short => pos + LOOKAHEAD > n
    case Undefined => sym.Bad?
    case Hit(x, v, used) =>
      (sym.Ok? && SymbolHit(lens, s, d, e, sym.v) == f && sym.pos == pos + used) || (sym.Bad? && x == 99)
  }

  lemma NoSymbolWhenUnused(lens: seq<nat>, bits: seq<bool>, pos: nat)
    requires ValidLengths(lens) && AllUnused(lens)
    ensures Symbol(lens, bits, pos).Bad?
  {
  }

  lemma WalkIsSymbolLong(lens: seq<nat>, s: nat, d: seq<nat>, e: seq<nat>, g: nat, tabs: seq<seq<Huft>>, l: nat,
                         rest: seq<bool>, sym: nat)
    requires ValidLengths(lens) && |lens| <= s + |d| && |lens| <= s + |e|
    requires Ready(lens, s, d, e, g, tabs, l) && !Walk(tabs, 0, l, rest).Short?
    requires Matches(lens, sym, rest + Zeros(g))
    ensures Matches(lens, sym, rest) && Walk(tabs, 0, l, rest) == SymbolHit(lens, s, d, e, sym)
  {
    var z := rest + Zeros(g);
    WalkExtends(tabs, 0, l, rest, Zeros(g));
    assert Decodes(lens, s, d, e, g, tabs, l, z);
    WalkUsesInput(tabs, 0, l, rest);
    MatchExtends(lens, sym, rest, Zeros(g));
  }

  lemma WalkIsRefused(lens: seq<nat>, s: nat, d: seq<nat>, e: seq<nat>, g: nat, tabs: seq<seq<Huft>>, l: nat,
                      rest: seq<bool>)
    requires ValidLengths(lens) && |lens| <= s + |d| && |lens| <= s + |e|
    requires Ready(lens, s, d, e, g, tabs, l) && !Walk(tabs, 0, l, rest).Short?
    requires forall sym: nat :: !Matches(lens, sym, rest + Zeros(g))
    ensures forall sym: nat :: !Matches(lens, sym, rest)
    ensures Refused(lens, g, Walk(tabs, 0, l, rest))
  {
    WalkExtends(tabs, 0, l, rest, Zeros(g));
    assert Decodes(lens, s, d, e, g, tabs, l, rest + Zeros(g));
    forall sym: nat
      ensures !Matches(lens, sym, rest)
    {
      MatchExtends(lens, sym, rest, Zeros(g));
    }
  }

  /** Walking the tables finds the next symbol of the stream. */
  lemma WalkIsSymbol(lens: seq<nat>, s: nat, d: seq<nat>, e: seq<nat>, tabs: seq<seq<Huft>>, l: nat,
                     bits: seq<bool>, pos: nat)
    requires TablesFor(lens, s, d, e, tabs, l) && pos <= |bits|
    ensures FoundIs(lens, s, d, e, Walk(tabs, 0, l, bits[pos..]), Symbol(lens, bits, pos), pos, |bits|)
  {
    hide Decodes, Matches, SymbolHit, IsMax;
    var rest := bits[pos..];
    var f := Walk(tabs, 0, l, rest);
    if AllUnused(lens) {
      NoSymbolWhenUnused(lens, bits, pos);
    } else {
      var g :| Ready(lens, s, d, e, g, tabs, l);
      if f.Short? {
        ShortIsNearEnd(lens, s, d, e, g, tabs, l, rest);
      } else if sym: nat :| Matches(lens, sym, rest + Zeros(g)) {
        WalkIsSymbolLong(lens, s, d, e, g, tabs, l, rest, sym);
        UniqueMatch(lens, g, sym, Symbol(lens, bits, pos).v, rest);
        assert SymbolHit(lens, s, d, e, sym).used == lens[sym] by { SymbolHitUses(lens, s, d, e, sym); }
      } else {
        WalkIsRefused(lens, s, d, e, g, tabs, l, rest);
      }
    }
  }

  lemma SymbolHitUses(lens: seq<nat>, s: nat, d: seq<nat>, e: seq<nat>, sym: nat)
    requires sym < |lens| && |lens| <= s + |d| && |lens| <= s + |e|
    ensures SymbolHit(lens, s, d, e, sym).Hit? && SymbolHit(lens, s, d, e, sym).used == lens[sym]
  {
  }

  lemma ShortIsNearEnd(lens: seq<nat>, s: nat, d: seq<nat>, e: seq<nat>, g: nat, tabs: seq<seq<Huft>>, l: nat,
                       rest: seq<bool>)
    requires ValidLengths(lens) && |lens| <= s + |d| && |lens| <= s + |e|
    requires Ready(lens, s, d, e, g, tabs, l) && Walk(tabs, 0, l, rest).Short?
    ensures |rest| < g <= LOOKAHEAD
  {
    if |rest| >= g {
      assert Decodes(lens, s, d, e, g, tabs, l, rest);
      if sym: nat :| Matches(lens, sym, rest) {
        SymbolHitUses(lens, s, d, e, sym);
      }
    }
  }

  /** Decode the next code of a set of lengths. */
  method GetSymbol(z: Inflater, tabs: seq<seq<Huft>>, l: nat,
                   ghost lens: seq<nat>, ghost s: nat, ghost d: seq<nat>, ghost e: seq<nat>) returns (f: Found)
    requires z.BitsOk() && TablesFor(lens, s, d, e, tabs, l)
    modifies z`inptr, z`bb, z`bk
    ensures z.BitsOk() && old(z.Pos()) <= z.Pos() <= |z.Stream()|
    ensures FoundIs(lens, s, d, e, f, Symbol(lens, z.Stream(), old(z.Pos())), old(z.Pos()), |z.Stream()|)
    ensures f.Hit? && f.e != 99 ==> z.Pos() == old(z.Pos()) + f.used
  {
    WalkIsSymbol(lens, s, d, e, tabs, l, z.Stream(), z.Pos());
    f := z.Decode(tabs, l);
  }

  // ---- inflate_codes

  ghost predicate CodeTables(ll: seq<nat>, dl: seq<nat>, tl: seq<seq<Huft>>, bl: nat, td: seq<seq<Huft>>, bd: nat)
  {
    && ValidLengths(ll) && |ll| <= 288 && TablesFor(ll, 257, CPLENS, CPLEXT, tl, bl)
    && ValidLengths(dl) && |dl| <= 30 && TablesFor(dl, 0, CPDIST, CPDEXT, td, bd)
  }

  lemma LitHit(ll: seq<nat>, sym: nat)
    requires sym < |ll| <= 288
    ensures var h := SymbolHit(ll, 257, CPLENS, CPLEXT, sym);
            && h.Hit?
            && (sym < 256 ==> h.e == 16 && h.v == sym)
            && (sym == 256 ==> h.e == 15)
            && (257 <= sym <= 285 ==> h.e == LenExtra(sym) <= 5 && h.v == LenBase(sym) >= 3)
            && (sym > 285 ==> h.e == 99)
  {
    if 257 <= sym <= 285 {
      LengthTable(sym);
    }
  }

  lemma DistHit(dl: seq<nat>, sym: nat)
    requires sym < |dl| <= 30
    ensures var h := SymbolHit(dl, 0, CPDIST, CPDEXT, sym);
            h.Hit? && h.e == DistExtra(sym) <= 13 && h.v == DistBase(sym)
  {
    DistanceTable(sym);
  }

  lemma NoSuchLength(dl: seq<nat>, sym: nat, bits: seq<bool>, pos: nat)
    requires ValidLengths(dl) && sym > 285
    ensures Match(dl, sym, bits, pos).Bad?
  {
  }

  /** Decode a distance. */
  method GetDistance(z: Inflater, td: seq<seq<Huft>>, bd: nat, ghost dl: seq<nat>) returns (st: Status, dist: nat)
    requires z.BitsOk() && ValidLengths(dl) && |dl| <= 30 && TablesFor(dl, 0, CPDIST, CPDEXT, td, bd)
    modifies z`inptr, z`bb, z`bk
    ensures z.BitsOk() && z.Pos() >= old(z.Pos())
    ensures Agrees(st, Distance(dl, z.Stream(), old(z.Pos())), dist, z.Pos(), |z.Stream()|)
  {
    hide DistBase, DistExtra, SymbolHit, Symbol, TablesFor, Lsb;
    dist := 0;
    ghost var d := Symbol(dl, z.Stream(), z.Pos());
    var f := GetSymbol(z, td, bd, dl, 0, CPDIST, CPDEXT);
    if d.Ok? {
      DistHit(dl, d.v);
    }
    if f.Short? {
      return Overrun, dist;
    }
    if f.Undefined? {
      return Undef, dist;
    }
    if f.e == 99 {
      return Failed(1), dist;
    }
    var ok, x := z.GetField(f.e);
    if !ok {
      return Overrun, dist;
    }
    return Done, f.v + x;
  }

  /** Decode the length and the distance that follow a length symbol. */
  method GetMatch(z: Inflater, e: nat, v: nat, td: seq<seq<Huft>>, bd: nat, ghost dl: seq<nat>, ghost sym: nat)
    returns (st: Status, n: nat, dist: nat)
    requires z.BitsOk() && ValidLengths(dl) && |dl| <= 30 && TablesFor(dl, 0, CPDIST, CPDEXT, td, bd)
    requires 257 <= sym <= 285 && e == LenExtra(sym) <= 5 && v == LenBase(sym)
    modifies z`inptr, z`bb, z`bk
    ensures z.BitsOk() && z.Pos() >= old(z.Pos())
    ensures Agrees(st, Match(dl, sym, z.Stream(), old(z.Pos())), (n, dist), z.Pos(), |z.Stream()|)
  {
    hide LenBase, LenExtra, Distance, TablesFor, Lsb;
    n, dist := 0, 0;
    var ok, x := z.GetField(e);
    if !ok {
      return Overrun, n, dist;
    }
    n := v + x;
    st, dist := GetDistance(z, td, bd, dl);
  }

  /** Inflate the codes of a compressed block. */
  method InflateCodes(z: Inflater, tl: seq<seq<Huft>>, bl: nat, td: seq<seq<Huft>>, bd: nat,
                      ghost ll: seq<nat>, ghost dl: seq<nat>) returns (st: Status)
    requires z.Valid() && CodeTables(ll, dl, tl, bl, td, bd)
    modifies z, z.window
    ensures z.Valid() && z.Pos() >= old(z.Pos())
    ensures Agrees(st, Codes(ll, dl, z.Stream(), old(z.Pos()), old(z.Hist())), z.Hist(), z.Pos(), |z.Stream()|)
  {
    hide LenBase, LenExtra, SymbolHit, Copy, Symbol, TablesFor, Match, Lsb, LastWindow;
    ghost var bits := z.Stream();
    ghost var r := Codes(ll, dl, bits, z.Pos(), z.Hist());
    while true
      invariant z.Valid() && z.Pos() >= old(z.Pos()) && r == Codes(ll, dl, bits, z.Pos(), z.Hist())
      decreases |bits| - z.Pos()
    {
      ghost var p := z.Pos();
      var f := GetSymbol(z, tl, bl, ll, 257, CPLENS, CPLEXT);
      ghost var s := Symbol(ll, bits, p);
      if s.Ok? {
        LitHit(ll, s.v);
        if s.v > 285 {
          NoSuchLength(dl, s.v, bits, s.pos);
        }
      }
      if f.Short? {
        return Overrun;
      }
      if f.Undefined? {
        return Undef;
      }
      if f.e == 99 {
        return Failed(1);
      }
      if f.e == 16 {
        z.PutByte(f.v);
      } else if f.e == 15 {
        return Done;
      } else {
        var n, dist;
        st, n, dist := GetMatch(z, f.e, f.v, td, bd, dl, s.v);
        if st != Done {
          return;
        }
        z.CopyBack(n, dist);
      }
    }
  }
}
