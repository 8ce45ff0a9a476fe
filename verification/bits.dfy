/** Finite bit strings and the two ways RFC 1951 reads them as numbers: data elements
    are packed least significant bit first, Huffman codes most significant bit first
    (section 3.1.1). */
module Bits {

  function Pow2(n: nat): (p: nat)
    ensures p >= 1
  {
    if n == 0 then 1 else 2 * Pow2(n - 1)
  }

  /** The number whose least significant bit comes first. */
  function Lsb(s: seq<bool>): nat
  {
    if s == [] then 0 else (if s[0] then 1 else 0) + 2 * Lsb(s[1..])
  }

  /** The number whose most significant bit comes first. */
  function Msb(s: seq<bool>): nat
  {
    if s == [] then 0 else 2 * Msb(s[..|s| - 1]) + (if s[|s| - 1] then 1 else 0)
  }

  /** The k bits of v, most significant first; higher bits of v are lost. */
  function ToMsb(v: nat, k: nat): (s: seq<bool>)
    ensures |s| == k
  {
    if k == 0 then [] else ToMsb(v / 2, k - 1) + [v % 2 == 1]
  }

  /** v >> w */
  function Shr(v: nat, w: nat): nat
  {
    hide Pow2;
    v / Pow2(w)
  }

  /** v & mask_bits[w] */
  function Low(v: nat, w: nat): nat
  {
    v % Pow2(w)
  }

  function Zeros(k: nat): (s: seq<bool>)
    ensures |s| == k
  {
    seq(k, _ => false)
  }

  lemma {:induction false} Pow2Add(a: nat, b: nat)
    ensures Pow2(a + b) == Pow2(a) * Pow2(b)
  {
    if a > 0 {
      Pow2Add(a - 1, b);
      assert a + b - 1 == (a - 1) + b;
    }
  }

  lemma {:induction false} Pow2Mono(a: nat, b: nat)
    requires a <= b
    ensures Pow2(a) <= Pow2(b)
  {
    if a < b {
      Pow2Mono(a, b - 1);
    }
  }

  lemma {:induction false} LsbBound(s: seq<bool>)
    ensures Lsb(s) < Pow2(|s|)
  {
    if s != [] {
      LsbBound(s[1..]);
    }
  }

  lemma {:induction false} MsbBound(s: seq<bool>)
    ensures Msb(s) < Pow2(|s|)
  {
    if s != [] {
      MsbBound(s[..|s| - 1]);
    }
  }

  lemma {:induction false} LsbConcat(a: seq<bool>, b: seq<bool>)
    ensures Lsb(a + b) == Lsb(a) + Pow2(|a|) * Lsb(b)
  {
    if a == [] {
      assert a + b == b;
    } else {
      LsbConcat(a[1..], b);
      assert (a + b)[1..] == a[1..] + b;
      assert 2 * (Pow2(|a| - 1) * Lsb(b)) == Pow2(|a|) * Lsb(b);
    }
  }

  lemma {:induction false} LsbInjective(a: seq<bool>, b: seq<bool>)
    requires |a| == |b| && Lsb(a) == Lsb(b)
    ensures a == b
  {
    if a != [] {
      assert a[0] == b[0];
      LsbInjective(a[1..], b[1..]);
      assert a == [a[0]] + a[1..] && b == [b[0]] + b[1..];
    }
  }

  lemma {:induction false} MsbInjective(a: seq<bool>, b: seq<bool>)
    requires |a| == |b| && Msb(a) == Msb(b)
    ensures a == b
  {
    if a != [] {
      var n := |a| - 1;
      assert a[n] == b[n];
      MsbInjective(a[..n], b[..n]);
      assert a == a[..n] + [a[n]] && b == b[..n] + [b[n]];
    }
  }

  /** Reading k bits back from a k-bit code word gives the code. */
  lemma {:induction false} MsbOfToMsb(v: nat, k: nat)
    requires v < Pow2(k)
    ensures Msb(ToMsb(v, k)) == v
  {
    if k > 0 {
      MsbOfToMsb(v / 2, k - 1);
      assert ToMsb(v, k)[..k - 1] == ToMsb(v / 2, k - 1);
    }
  }

  lemma {:induction false} ToMsbOfMsb(s: seq<bool>)
    ensures ToMsb(Msb(s), |s|) == s
  {
    MsbBound(s);
    MsbOfToMsb(Msb(s), |s|);
    MsbInjective(ToMsb(Msb(s), |s|), s);
  }

  /** One more bit of a string refines its position by one bit. */
  lemma MsbStep(s: seq<bool>, k: nat)
    requires k < |s|
    ensures Msb(s[..k + 1]) == 2 * Msb(s[..k]) + (if s[k] then 1 else 0)
  {
    assert s[..k + 1][..k] == s[..k];
  }

  lemma {:induction false} LsbZeros(k: nat)
    ensures Lsb(Zeros(k)) == 0 && Msb(Zeros(k)) == 0
  {
    if k > 0 {
      LsbZeros(k - 1);
      assert Zeros(k)[1..] == Zeros(k - 1) && Zeros(k)[..k - 1] == Zeros(k - 1);
    }
  }

  /** Splitting a string splits its number into remainder and quotient: what the
      mask and the shift compute. */
  lemma LsbSplit(s: seq<bool>, w: nat)
    requires w <= |s|
    ensures Low(Lsb(s), w) == Lsb(s[..w])
    ensures Shr(Lsb(s), w) == Lsb(s[w..])
  {
    assert s == s[..w] + s[w..];
    LsbConcat(s[..w], s[w..]);
    LsbBound(s[..w]);
    DivModUnique(Lsb(s), Pow2(w), Lsb(s[w..]), Lsb(s[..w]));
  }

  lemma MulAtLeast(p: nat, d: nat)
    requires d >= 1
    ensures p * d >= p
  {
    assert p * d == p * (d - 1) + p;
  }

  lemma DivModUnique(a: nat, p: nat, q: nat, r: nat)
    requires p > 0 && r < p && a == p * q + r
    ensures a / p == q && a % p == r
  {
    var d := a / p - q;
    assert p * (a / p) == p * q + p * d;
    if d >= 1 {
      MulAtLeast(p, d);
    } else if d <= -1 {
      MulAtLeast(p, -d);
    }
  }
}
