/** The region of the code space below a string of leading bits, and how many bits a
    table for that region needs. */
module HuftCodes {
  import opened Bits
  import opened Canonical
  import opened HuftTables

  /** One past the last position, at depth t, of the strings that start with p. */
  ghost function SubtreeEnd(p: seq<bool>, t: nat): nat
    requires |p| <= t
    decreases t
  {
    if t == |p| then Msb(p) + 1 else 2 * SubtreeEnd(p, t - 1)
  }

  ghost predicate AllZero(s: seq<bool>, from: int)
  {
    forall t :: 0 <= t < |s| && t >= from ==> !s[t]
  }

  lemma {:induction false} InSubtree(p: seq<bool>, bits: seq<bool>, t: nat)
    requires p <= bits && |p| <= t <= |bits|
    ensures Msb(bits[..t]) < SubtreeEnd(p, t)
    decreases t
  {
    if t == |p| {
      assert bits[..t] == p;
    } else {
      InSubtree(p, bits, t - 1);
      MsbStep(bits, t - 1);
    }
  }

  /** p followed by zeros is the first position of its region. */
  lemma {:induction false} SubtreeStart(p: seq<bool>, code: seq<bool>, t: nat)
    requires p <= code && |p| <= t <= |code| && AllZero(code, |p|)
    ensures Msb(code[..t]) + Pow2(t - |p|) == SubtreeEnd(p, t)
    decreases t
  {
    if t == |p| {
      assert code[..t] == p;
    } else {
      SubtreeStart(p, code, t - 1);
      MsbStep(code, t - 1);
    }
  }

  lemma {:induction false} SubtreeEndBound(p: seq<bool>, t: nat)
    requires |p| <= t
    ensures SubtreeEnd(p, t) <= Pow2(t)
    decreases t
  {
    if t == |p| {
      MsbBound(p);
    } else {
      SubtreeEndBound(p, t - 1);
    }
  }

  /** A string in the region of code[..m] is not below code when the rest of code is zero. */
  lemma {:induction false} ZerosAreLeast(code: seq<bool>, bits: seq<bool>, m: nat, t: nat)
    requires m <= t <= |code| <= |bits| && code[..m] <= bits && AllZero(code, m)
    ensures Msb(code[..t]) <= Msb(bits[..t])
    decreases t
  {
    if t == m {
      assert bits[..m] == code[..m];
    } else {
      ZerosAreLeast(code, bits, m, t - 1);
      MsbStep(code, t - 1);
      MsbStep(bits, t - 1);
    }
  }

  /** A j-bit table for the region of p is either l bits wide, in which case longer codes
      go to further tables, or holds every code of the region completely. */
  ghost predicate Fits(c: Counts, g: nat, l: nat, p: seq<bool>, j: nat)
    requires g <= BMAX
  {
    j >= l || forall k: nat, r: nat :: IsCode(c, g, k, r) && p <= CodeWord(c, k, r) ==> k <= |p| + j
  }

  lemma NothingLonger(c: Counts, g: nat, l: nat, p: seq<bool>, t: nat)
    requires g <= BMAX && EndCode(c, g) <= Pow2(g)
    requires |p| <= t <= g && EndCode(c, t) >= SubtreeEnd(p, t)
    ensures Fits(c, g, l, p, t - |p|)
  {
    forall k: nat, r: nat | IsCode(c, g, k, r) && p <= CodeWord(c, k, r)
      ensures k <= t
    {
      if k > t {
        var code := CodeWord(c, k, r);
        LongerIsAbove(c, g, code, k, r, t);
        InSubtree(p, code, t);
      }
    }
  }

  /** The first code of a region at depth w >= l must be short enough to be found in a
      table of at most l bits. This is what makes a table set decodable. */
  ghost predicate Roomy(c: Counts, l: nat, k: nat, r: nat, w: nat)
    requires k <= BMAX && w <= k
  {
    k - w < l || (k - w == l && r + Pow2(l) <= c[k])
  }

  /** Choose the number of bits of a new table at depth w whose first code is the r-th of
      length k (a more of that length follow). */
  method TableBits(c: Counts, g: nat, l: nat, k: nat, ghost r: nat, w: nat, a: nat) returns (j: nat)
    requires Fills(c, g) && 1 <= l <= g
    requires IsCode(c, g, k, r) && a + 1 == c[k] - r && w < k
    requires AllZero(CodeWord(c, k, r), w)
    ensures k - w <= j && w + j <= g
    ensures Fits(c, g, l, CodeWord(c, k, r)[..w], j)
    ensures Roomy(c, l, k, r, w) ==> j <= l && w + j <= g
    ensures !Roomy(c, l, k, r, w) ==> j > l
    ensures l < k - w ==> j >= k - w
  {
    hide FirstCode, CodeWord;
    ghost var code := CodeWord(c, k, r);
    ghost var p := code[..w];
    CodeWordValue(c, g, k, r);
    SubtreeStart(p, code, k);
    SubtreeEndBound(p, k);
    assert code[..k] == code;
    var z := if g - w > l then l else g - w;
    j := k - w;
    var f := Pow2(j);
    if f > a + 1 {
      f := f - (a + 1);
      assert f == SubtreeEnd(p, k) - EndCode(c, k);
      assert k < g;
      var xp := k;
      j := j + 1;
      while j < z
        invariant k - w < j && (j <= z || j == k - w + 1)
        invariant xp == w + j - 1 < g
        invariant f == SubtreeEnd(p, xp) - EndCode(c, xp) && f > 0
      {
        f := f * 2;
        xp := xp + 1;
        FirstIsTwiceEnd(c, xp);
        if f <= c[xp] {
          NothingLonger(c, g, l, p, xp);
          break;
        }
        f := f - c[xp];
        j := j + 1;
      }
      if l < k - w {
      } else if k - w == l {
      } else {
        assert Fits(c, g, l, p, j);
      }
    } else {
      NothingLonger(c, g, l, p, k);
    }
  }

  /** The successor of a code word, carrying from its last bit towards the first. */
  ghost function Succ(s: seq<bool>): (s': seq<bool>)
    ensures |s'| == |s|
  {
    if s == [] then []
    else if s[|s| - 1] then Succ(s[..|s| - 1]) + [false]
    else s[..|s| - 1] + [true]
  }

  lemma {:induction false} SuccAdds(s: seq<bool>)
    requires Msb(s) + 1 < Pow2(|s|)
    ensures Msb(Succ(s)) == Msb(s) + 1
  {
    var n := |s| - 1;
    if s[n] {
      SuccAdds(s[..n]);
      assert Succ(s)[..n] == Succ(s[..n]);
    } else {
      assert Succ(s)[..n] == s[..n];
    }
  }

  /** Where Succ changes the first m bits, everything after them becomes zero. */
  lemma {:induction false} SuccClears(s: seq<bool>, m: nat)
    requires m <= |s|
    ensures Succ(s)[..m] == s[..m] || AllZero(Succ(s), m)
  {
    var n := |s| - 1;
    if m < |s| {
      assert s[..m] == s[..n][..m];
      if s[n] {
        assert Succ(s)[..m] == Succ(s[..n])[..m];
        SuccClears(s[..n], m);
      }
    }
  }

  /** i holds the code word of k bits in reverse; count it up by carrying downwards. */
  method BackIncrement(i: nat, k: nat, ghost s: seq<bool>) returns (i': nat)
    requires k >= 1 && |s| == k && i == Lsb(s)
    ensures i' == Lsb(Succ(s))
  {
    hide Lsb, Succ, Zeros;
    i' := i;
    var j := Pow2(k - 1);
    ghost var m: nat := k;
    ghost var head := s;
    assert head + Zeros(0) == s && Succ(s) + Zeros(0) == Succ(s);
    while j > 0 && (i' / j) % 2 == 1
      invariant m <= k && head == s[..m]
      invariant j == (if m == 0 then 0 else Pow2(m - 1))
      invariant i' == Lsb(head)
      invariant Succ(s) == Succ(head) + Zeros(k - m)
      decreases m
    {
      LastBit(head);
      i' := i' - j;
      j := j / 2;
      Carry(head, k - m);
      head := head[..m - 1];
      m := m - 1;
    }
    if j > 0 {
      LastBit(head);
      i' := i' + j;
      LastBitSet(head);
    }
    LsbConcat(Succ(head), Zeros(k - m));
    LsbZeros(k - m);
    assert Pow2(m) * 0 == 0;
  }

  lemma {:induction false} Carry(head: seq<bool>, n: nat)
    requires head != [] && head[|head| - 1]
    ensures Succ(head) + Zeros(n) == Succ(head[..|head| - 1]) + Zeros(n + 1)
  {
    var s := Succ(head[..|head| - 1]);
    assert Succ(head) == s + [false];
    hide Succ;
    assert (s + [false]) + Zeros(n) == s + ([false] + Zeros(n));
    assert [false] + Zeros(n) == Zeros(n + 1);
  }

  lemma LastBitSet(head: seq<bool>)
    requires head != [] && !head[|head| - 1]
    ensures Lsb(Succ(head)) == Lsb(head) + Pow2(|head| - 1)
  {
    LastBit(head);
    LastBit(Succ(head));
  }

  lemma LastBit(s: seq<bool>)
    requires |s| >= 1
    ensures (Lsb(s) / Pow2(|s| - 1)) % 2 == (if s[|s| - 1] then 1 else 0)
    ensures Lsb(s) == Lsb(s[..|s| - 1]) + (if s[|s| - 1] then Pow2(|s| - 1) else 0)
  {
    var n, last := |s| - 1, [s[|s| - 1]];
    assert s == s[..n] + last && last[1..] == [];
    LsbConcat(s[..n], last);
    LsbBound(s[..n]);
    DivModUnique(Lsb(s), Pow2(n), if s[n] then 1 else 0, Lsb(s[..n]));
  }
}
