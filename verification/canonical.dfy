/** Canonical prefix codes as section 3.2.2 of RFC 1951 defines them from a list of code
    lengths, together with the facts every decoder relies on: the code words are prefix
    free, and a complete set of lengths leaves no bit string undecodable. */
module Canonical {
  import opened Bits

  const BMAX := 16

  /** bl_count: how many codes have each length 0..BMAX. */
  type Counts = c: seq<nat> | |c| == BMAX + 1 witness seq(BMAX + 1, _ => 0)

  ghost predicate ValidLengths(lens: seq<nat>)
  {
    forall s :: 0 <= s < |lens| ==> lens[s] <= BMAX
  }

  function Count(lens: seq<nat>, k: nat): nat
  {
    if lens == [] then 0
    else Count(lens[..|lens| - 1], k) + (if lens[|lens| - 1] == k then 1 else 0)
  }

  ghost function CountsOf(lens: seq<nat>): Counts
  {
    seq(BMAX + 1, k requires 0 <= k => Count(lens, k))
  }

  /** next_code[k]: the smallest code of length k (step 2 of the RFC algorithm). */
  ghost function FirstCode(c: Counts, k: nat): nat
    requires k <= BMAX
  {
    if k == 0 then 0 else 2 * (FirstCode(c, k - 1) + (if k == 1 then 0 else c[k - 1]))
  }

  /** One past the largest code of length k. */
  ghost function EndCode(c: Counts, k: nat): nat
    requires k <= BMAX
  {
    if k == 0 then 0 else FirstCode(c, k) + c[k]
  }

  /** How many earlier symbols have the same code length as s. */
  ghost function Rank(lens: seq<nat>, s: nat): nat
    requires s < |lens|
  {
    Count(lens[..s], lens[s])
  }

  /** The code the RFC assigns to symbol s (step 3). */
  ghost function Code(lens: seq<nat>, s: nat): nat
    requires ValidLengths(lens) && s < |lens|
  {
    FirstCode(CountsOf(lens), lens[s]) + Rank(lens, s)
  }

  /** The bit string starts with the code of symbol s. */
  ghost predicate Matches(lens: seq<nat>, s: nat, bits: seq<bool>)
    requires ValidLengths(lens)
  {
    s < |lens| && 0 < lens[s] <= |bits| && Msb(bits[..lens[s]]) == Code(lens, s)
  }

  /** The Kraft sum of the lengths, in units of 2^-BMAX. */
  ghost function KraftSum(lens: seq<nat>): nat
    requires ValidLengths(lens)
  {
    if lens == [] then 0
    else
      var len := lens[|lens| - 1];
      KraftSum(lens[..|lens| - 1]) + (if len == 0 then 0 else Pow2(BMAX - len))
  }

  /** No length above g, and the codes up to length g fill the code space exactly. */
  ghost predicate Fills(c: Counts, g: nat)
  {
    1 <= g <= BMAX && EndCode(c, g) == Pow2(g)
  }

  ghost predicate IsCode(c: Counts, g: nat, k: nat, r: nat)
  {
    1 <= k <= g <= BMAX && r < c[k]
  }

  /** The r-th code word of length k. */
  ghost function CodeWord(c: Counts, k: nat, r: nat): (w: seq<bool>)
    requires k <= BMAX
    ensures |w| == k
  {
    ToMsb(FirstCode(c, k) + r, k)
  }

  lemma FirstIsTwiceEnd(c: Counts, k: nat)
    requires 1 <= k <= BMAX
    ensures FirstCode(c, k) == 2 * EndCode(c, k - 1)
  {
  }

  lemma {:induction false} CodeSpaceBound(c: Counts, t: nat, g: nat)
    requires t <= g <= BMAX && EndCode(c, g) <= Pow2(g)
    ensures EndCode(c, t) <= Pow2(t)
    decreases g - t
  {
    if t < g {
      CodeSpaceBound(c, t + 1, g);
      FirstIsTwiceEnd(c, t + 1);
    }
  }

  lemma {:induction false} CodeSpaceOverrun(c: Counts, t: nat, g: nat)
    requires t <= g <= BMAX && EndCode(c, t) > Pow2(t)
    ensures EndCode(c, g) > Pow2(g)
    decreases g - t
  {
    if t < g {
      FirstIsTwiceEnd(c, t + 1);
      CodeSpaceOverrun(c, t + 1, g);
    }
  }

  lemma CodeWordValue(c: Counts, g: nat, k: nat, r: nat)
    requires IsCode(c, g, k, r) && EndCode(c, g) <= Pow2(g)
    ensures FirstCode(c, k) + r < Pow2(k)
    ensures Msb(CodeWord(c, k, r)) == FirstCode(c, k) + r
  {
    hide FirstCode;
    CodeSpaceBound(c, k, g);
    MsbOfToMsb(FirstCode(c, k) + r, k);
  }

  /** A string that starts with an earlier code word lies below every later one. */
  lemma {:induction false} EarlierIsBelow(c: Counts, g: nat, bits: seq<bool>, k': nat, r': nat, k: nat, r: nat)
    requires IsCode(c, g, k', r') && EndCode(c, g) <= Pow2(g) && CodeWord(c, k', r') <= bits
    requires k' <= k <= BMAX && k <= |bits| && (k' == k ==> r' < r)
    ensures Msb(bits[..k]) < FirstCode(c, k) + r
    decreases k
  {
    CodeWordValue(c, g, k', r');
    assert bits[..k'] == CodeWord(c, k', r');
    if k' < k {
      if k' < k - 1 {
        EarlierIsBelow(c, g, bits, k', r', k - 1, 0);
      }
      assert Msb(bits[..k - 1]) < EndCode(c, k - 1);
      MsbStep(bits, k - 1);
      FirstIsTwiceEnd(c, k);
    }
  }

  /** A string that starts with a code word longer than t lies above every code of length t. */
  lemma {:induction false} LongerIsAbove(c: Counts, g: nat, bits: seq<bool>, k: nat, r: nat, t: nat)
    requires IsCode(c, g, k, r) && EndCode(c, g) <= Pow2(g) && CodeWord(c, k, r) <= bits
    requires t < k
    ensures Msb(bits[..t]) >= EndCode(c, t)
    decreases k - t
  {
    CodeWordValue(c, g, k, r);
    assert bits[..k] == CodeWord(c, k, r);
    if t < k - 1 {
      LongerIsAbove(c, g, bits, k, r, t + 1);
    }
    assert Msb(bits[..t + 1]) >= FirstCode(c, t + 1);
    MsbStep(bits, t);
    FirstIsTwiceEnd(c, t + 1);
  }

  /** Prefix freedom: a string starts with at most one code word. */
  lemma PrefixFree(c: Counts, g: nat, bits: seq<bool>, k: nat, r: nat, k': nat, r': nat)
    requires IsCode(c, g, k, r) && CodeWord(c, k, r) <= bits
    requires EndCode(c, g) <= Pow2(g)
    requires IsCode(c, g, k', r') && CodeWord(c, k', r') <= bits
    ensures k == k' && r == r'
  {
    CodeWordValue(c, g, k, r);
    CodeWordValue(c, g, k', r');
    assert bits[..k] == CodeWord(c, k, r) && bits[..k'] == CodeWord(c, k', r');
    if k' < k {
      EarlierIsBelow(c, g, bits, k', r', k, r);
    } else if k < k' {
      EarlierIsBelow(c, g, bits, k, r, k', r');
    }
  }

  /** Completeness: when the codes fill the code space, every string starts with one. */
  lemma {:induction false} SomeCodeMatches(c: Counts, g: nat, bits: seq<bool>) returns (k: nat, r: nat)
    requires Fills(c, g) && |bits| >= g
    ensures IsCode(c, g, k, r) && CodeWord(c, k, r) <= bits
  {
    MsbBound(bits[..g]);
    k := g;
    while k > 0 && Msb(bits[..k - 1]) < EndCode(c, k - 1)
      invariant 1 <= k <= g
      invariant Msb(bits[..k]) < EndCode(c, k)
    {
      k := k - 1;
    }
    MsbStep(bits, k - 1);
    FirstIsTwiceEnd(c, k);
    r := Msb(bits[..k]) - FirstCode(c, k);
    CodeWordValue(c, g, k, r);
    MsbInjective(bits[..k], CodeWord(c, k, r));
  }

  // ---- lengths and counts

  lemma {:induction false} CountSplit(lens: seq<nat>, s: nat, k: nat)
    requires s <= |lens|
    ensures Count(lens, k) == Count(lens[..s], k) + Count(lens[s..], k)
    decreases |lens|
  {
    if s == |lens| {
      assert lens[..s] == lens;
    } else {
      var n := |lens| - 1;
      CountSplit(lens[..n], s, k);
      assert lens[..n][..s] == lens[..s];
      assert lens[..n][s..] == lens[s..][..n - s];
    }
  }

  lemma RankBelowCount(lens: seq<nat>, s: nat)
    requires s < |lens|
    ensures Rank(lens, s) < Count(lens, lens[s])
  {
    CountSplit(lens, s + 1, lens[s]);
    assert lens[..s + 1][..s] == lens[..s];
  }

  lemma RankInjective(lens: seq<nat>, s: nat, s': nat)
    requires s < s' < |lens| && lens[s] == lens[s']
    ensures Rank(lens, s) < Rank(lens, s')
  {
    RankBelowCount(lens[..s'], s);
    assert lens[..s'][..s] == lens[..s];
  }

  lemma {:induction false} SymbolOfRank(lens: seq<nat>, k: nat, r: nat) returns (s: nat)
    requires r < Count(lens, k)
    ensures s < |lens| && lens[s] == k && Rank(lens, s) == r
    decreases |lens|
  {
    var n := |lens| - 1;
    if r < Count(lens[..n], k) {
      s := SymbolOfRank(lens[..n], k, r);
      assert lens[..n][..s] == lens[..s];
    } else {
      s := n;
    }
  }

  /** Matching a symbol's code is starting with its code word. */
  lemma MatchesIsPrefix(lens: seq<nat>, g: nat, s: nat, bits: seq<bool>)
    requires ValidLengths(lens) && s < |lens| && 1 <= lens[s] <= g <= BMAX
    requires EndCode(CountsOf(lens), g) <= Pow2(g)
    ensures Matches(lens, s, bits) <==> CodeWord(CountsOf(lens), lens[s], Rank(lens, s)) <= bits
  {
    var c, k := CountsOf(lens), lens[s];
    RankBelowCount(lens, s);
    var w := CodeWord(c, k, Rank(lens, s));
    CodeWordValue(c, g, k, Rank(lens, s));
    if w <= bits {
      assert bits[..k] == w;
    } else if Matches(lens, s, bits) {
      MsbInjective(bits[..k], w);
    }
  }

  // ---- the Kraft sum

  ghost predicate OneMore(c: Counts, c': Counts, len: nat)
  {
    forall k :: 0 <= k <= BMAX ==> c'[k] == c[k] + (if k == len then 1 else 0)
  }

  lemma {:induction false} EndCodeOneMore(c: Counts, c': Counts, len: nat, k: nat)
    requires len <= BMAX && k <= BMAX && OneMore(c, c', len)
    ensures EndCode(c', k) == EndCode(c, k) + (if 1 <= len <= k then Pow2(k - len) else 0)
  {
    if k > 0 {
      EndCodeOneMore(c, c', len, k - 1);
      FirstIsTwiceEnd(c, k);
      FirstIsTwiceEnd(c', k);
    }
  }

  /** The Kraft sum is the end of the code space that next_code walks through. */
  lemma {:induction false} KraftSumIsEndCode(lens: seq<nat>)
    requires ValidLengths(lens)
    ensures KraftSum(lens) == EndCode(CountsOf(lens), BMAX)
  {
    if lens == [] {
      EndOfNothing(CountsOf(lens), BMAX);
    } else {
      var n := |lens| - 1;
      KraftSumIsEndCode(lens[..n]);
      EndCodeOneMore(CountsOf(lens[..n]), CountsOf(lens), lens[n], BMAX);
    }
  }

  lemma {:induction false} EndOfNothing(c: Counts, k: nat)
    requires k <= BMAX && forall t :: 1 <= t <= k ==> c[t] == 0
    ensures EndCode(c, k) == 0
  {
    if k > 0 {
      EndOfNothing(c, k - 1);
      FirstIsTwiceEnd(c, k);
    }
  }

  /** Above the longest length the code space only doubles, so over-subscription can be
      judged at the longest length. */
  lemma {:induction false} JudgedAtLongest(c: Counts, g: nat, t: nat)
    requires g <= t <= BMAX && forall k :: g < k <= BMAX ==> c[k] == 0
    ensures EndCode(c, t) > Pow2(t) <==> EndCode(c, g) > Pow2(g)
    ensures EndCode(c, t) == Pow2(t) <==> EndCode(c, g) == Pow2(g)
    decreases t
  {
    if g < t {
      JudgedAtLongest(c, g, t - 1);
      FirstIsTwiceEnd(c, t);
    }
  }
}
