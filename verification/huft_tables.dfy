/** The multi-level lookup tables of the inflater: their layout, the walk that
    inflate_codes makes through them, and when a change to one entry leaves the walk of
    a given bit string alone. */
module HuftTables {
  import opened Bits
  import opened Canonical

  /** A table entry. `Unset` stands for memory that was allocated and never written. */
  datatype Huft = Unset | Entry(e: nat, b: nat, v: nat)

  predicate IsLink(h: Huft)
  {
    h.Entry? && h.e > 16 && h.e != 99
  }

  datatype Found = Hit(e: nat, v: nat, used: nat) | Undefined | Short

  function Further(f: Found, b: nat): Found
  {
    if f.Hit? then f.(used := b + f.used) else f
  }

  /** Look up j bits in table t and follow links until an entry that is not a link. */
  function Walk(tabs: seq<seq<Huft>>, t: nat, j: nat, bits: seq<bool>): Found
    decreases |bits|
  {
    if |bits| < j then Short
    else if t >= |tabs| || Lsb(bits[..j]) >= |tabs[t]| then Undefined
    else
      var h := tabs[t][Lsb(bits[..j])];
      if h.Unset? then Undefined
      else if h.b > j then Undefined
      else if !IsLink(h) then Hit(h.e, h.v, h.b)
      else if h.b > 0 && h.e <= 32 then Further(Walk(tabs, h.v, h.e - 16, bits[h.b..]), h.b)
      else Undefined
  }

  /** What is known of a set of tables: pre[t] is the string of bits that leads to table
      t and jb[t] the number of bits that index it. */
  ghost predicate Layout(tabs: seq<seq<Huft>>, pre: seq<seq<bool>>, jb: seq<nat>, l: nat)
  {
    && |pre| == |jb| == |tabs| && l > 0
    && (|tabs| > 0 ==> pre[0] == [] && jb[0] >= l)
    && (forall t :: 0 <= t < |tabs| ==> |tabs[t]| == Pow2(jb[t]))
    && (forall t, i :: 0 <= t < |tabs| && 0 <= i < |tabs[t]| && IsLink(tabs[t][i])
          ==> GoodLink(pre, jb, l, t, i, tabs[t][i]))
  }

  ghost predicate GoodLink(pre: seq<seq<bool>>, jb: seq<nat>, l: nat, t: nat, i: nat, h: Huft)
    requires t < |pre| && h.Entry?
  {
    && 1 <= h.v < |pre| && h.v < |jb| && h.b == l && h.e == 16 + jb[h.v]
    && pre[t] <= pre[h.v] && |pre[h.v]| == |pre[t]| + l
    && i == Lsb(pre[h.v][|pre[t]|..])
  }

  ghost function Width(jb: seq<nat>, l: nat, t: nat): nat
    requires t < |jb|
  {
    if t == 0 then l else jb[t]
  }

  /** The walk of bits can reach table t with enough bits left to index it. */
  ghost predicate Visits(pre: seq<seq<bool>>, jb: seq<nat>, l: nat, t: nat, bits: seq<bool>)
  {
    t < |pre| && t < |jb| && pre[t] <= bits && |pre[t]| + Width(jb, l, t) <= |bits|
  }

  ghost function Slot(pre: seq<seq<bool>>, jb: seq<nat>, l: nat, t: nat, bits: seq<bool>): nat
    requires Visits(pre, jb, l, t, bits)
  {
    Lsb(bits[|pre[t]|..][..Width(jb, l, t)])
  }

  lemma SlotInTable(tabs: seq<seq<Huft>>, pre: seq<seq<bool>>, jb: seq<nat>, l: nat, t: nat, bits: seq<bool>)
    requires Layout(tabs, pre, jb, l) && Visits(pre, jb, l, t, bits)
    ensures Slot(pre, jb, l, t, bits) < |tabs[t]|
  {
    LsbBound(bits[|pre[t]|..][..Width(jb, l, t)]);
    Pow2Mono(Width(jb, l, t), jb[t]);
  }

  /** A longer string with the same number starts with the shorter one. */
  lemma SlotBelow(s: seq<bool>, p: seq<bool>)
    requires |p| <= |s| && Lsb(s) == Lsb(p)
    ensures p == s[..|p|]
  {
    LsbSplit(s, |p|);
    LsbBound(p);
    DivModUnique(Lsb(p), Pow2(|p|), 0, Lsb(p));
    LsbInjective(p, s[..|p|]);
  }

  /** A string that agrees with p on its first w bits, and whose next bits index the slot
      of the rest of p, starts with p. */
  lemma SlotExtends(p: seq<bool>, w: nat, bits: seq<bool>, width: nat)
    requires w <= |p| && p[..w] <= bits && |p| - w <= width && w + width <= |bits|
    requires Lsb(bits[w..][..width]) == Lsb(p[w..])
    ensures p <= bits
  {
    var slot := bits[w..][..width];
    SlotBelow(slot, p[w..]);
    assert bits[..|p|] == bits[..w] + slot[..|p| - w];
    assert p == p[..w] + p[w..];
  }

  /** bits goes through a link, so it starts with the bits that lead to the next table. */
  lemma LinkLeads(pre: seq<seq<bool>>, jb: seq<nat>, l: nat, t: nat, bits: seq<bool>, h: Huft)
    requires Visits(pre, jb, l, t, bits) && Width(jb, l, t) >= l
    requires h.Entry? && GoodLink(pre, jb, l, t, Slot(pre, jb, l, t, bits), h)
    ensures pre[h.v] <= bits
  {
    assert pre[h.v][..|pre[t]|] == pre[t];
    SlotExtends(pre[h.v], |pre[t]|, bits, Width(jb, l, t));
  }

  /** Links come from tables indexed by at least l bits. */
  ghost predicate WideLinks(tabs: seq<seq<Huft>>, jb: seq<nat>, l: nat)
  {
    |jb| == |tabs| &&
    forall t, i :: 0 <= t < |tabs| && 0 <= i < |tabs[t]| && IsLink(tabs[t][i]) ==> jb[t] >= l
  }

  /** The walk depends only on the entries that bits itself indexes. */
  lemma {:induction false} WalkFrame(tabs: seq<seq<Huft>>, tabs': seq<seq<Huft>>,
                                     pre: seq<seq<bool>>, jb: seq<nat>, l: nat, t: nat, bits: seq<bool>)
    requires Layout(tabs, pre, jb, l) && WideLinks(tabs, jb, l)
    requires |tabs| <= |tabs'| && forall u :: 0 <= u < |tabs| ==> |tabs'[u]| == |tabs[u]|
    requires forall u: nat :: Visits(pre, jb, l, u, bits) && Slot(pre, jb, l, u, bits) < |tabs[u]| ==>
                           tabs'[u][Slot(pre, jb, l, u, bits)] == tabs[u][Slot(pre, jb, l, u, bits)]
    requires t < |tabs| && pre[t] <= bits
    ensures var rest := bits[|pre[t]|..];
            Walk(tabs', t, Width(jb, l, t), rest) == Walk(tabs, t, Width(jb, l, t), rest)
    decreases |bits| - |pre[t]|
  {
    if Visits(pre, jb, l, t, bits) {
      SlotInTable(tabs, pre, jb, l, t, bits);
      var i := Slot(pre, jb, l, t, bits);
      var h := tabs[t][i];
      if IsLink(h) {
        assert GoodLink(pre, jb, l, t, i, h);
        LinkLeads(pre, jb, l, t, bits, h);
        WalkFrame(tabs, tabs', pre, jb, l, h.v, bits);
        assert bits[|pre[t]|..][l..] == bits[|pre[h.v]|..];
      }
    }
  }

  lemma WalkEnds(tabs: seq<seq<Huft>>, t: nat, j: nat, bits: seq<bool>, h: Huft)
    requires t < |tabs| && j <= |bits| && Lsb(bits[..j]) < |tabs[t]| && tabs[t][Lsb(bits[..j])] == h
    requires !IsLink(h) && (h.Entry? ==> h.b <= j)
    ensures Walk(tabs, t, j, bits) == if h.Unset? then Undefined else Hit(h.e, h.v, h.b)
  {
  }

  /** More input does not change what was found. */
  lemma {:induction false} WalkExtends(tabs: seq<seq<Huft>>, t: nat, j: nat, bits: seq<bool>, more: seq<bool>)
    requires !Walk(tabs, t, j, bits).Short?
    ensures Walk(tabs, t, j, bits + more) == Walk(tabs, t, j, bits)
    decreases |bits|
  {
    assert (bits + more)[..j] == bits[..j];
    if t < |tabs| && Lsb(bits[..j]) < |tabs[t]| {
      var h := tabs[t][Lsb(bits[..j])];
      if IsLink(h) && 0 < h.b <= j && h.e <= 32 {
        assert (bits + more)[h.b..] == bits[h.b..] + more;
        WalkExtends(tabs, h.v, h.e - 16, bits[h.b..], more);
      }
    }
  }

  lemma {:induction false} WalkUsesInput(tabs: seq<seq<Huft>>, t: nat, j: nat, bits: seq<bool>)
    requires Walk(tabs, t, j, bits).Hit?
    ensures Walk(tabs, t, j, bits).used <= |bits|
    decreases |bits|
  {
    var h := tabs[t][Lsb(bits[..j])];
    if IsLink(h) {
      WalkUsesInput(tabs, h.v, h.e - 16, bits[h.b..]);
    }
  }
}
