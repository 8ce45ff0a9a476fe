/** The CRC of the inflater (inflate.c): table driven, compared with the remainder of a
    polynomial division as section 8 of RFC 1952 defines the check value.

    A 32-bit register is the sequence of its bits, least significant first, so that a shift
    to the right drops the first bit and brings in a zero at the end. */
module Crc {
  import opened Bits
  import opened DeflateSpec
  import opened Inflaters

  type Word = s: seq<bool> | |s| == 32 witness seq(32, _ => false)

  /** 0xedb88320 */
  const POLY: Word := [false, false, false, false, false, true, false, false, true, true, false, false, false, false,
      false, true, false, false, false, true, true, true, false, true, true, false, true, true, false, true, true, true]

  /** The generator of section 8 of RFC 1952: x^32 and these powers of x. Bit i of the register
      stands for x^(31 - i). */
  lemma Generator()
    ensures forall i :: 0 <= i < 32 ==> (POLY[i] <==> 31 - i in {0, 1, 2, 4, 5, 7, 8, 10, 11, 12, 16, 22, 23, 26})
  {
  }

  function Xor(a: seq<bool>, b: seq<bool>): (c: seq<bool>)
    requires |a| == |b|
    ensures |c| == |a| && forall i :: 0 <= i < |a| ==> c[i] == (a[i] != b[i])
  {
    seq(|a|, i requires 0 <= i < |a| => a[i] != b[i])
  }

  function ShiftRight(c: Word, n: nat): (r: Word)
    requires n <= 32
  {
    c[n..] + Zeros(n)
  }

  function Not(c: Word): (r: Word)
    ensures forall i :: 0 <= i < 32 ==> r[i] == !c[i]
  {
    Xor(c, seq(32, _ => true))
  }

  // ---- polynomial division

  /** The remainder of the polynomial d (highest power first) divided by the generator,
      whose coefficients below x^32 are POLY: cancel the leading term until 32 are left. */
  ghost function Remainder(d: seq<bool>): (r: Word)
    requires |d| >= 32
    decreases |d|
  {
    if |d| == 32 then d
    else Remainder(if d[0] then Xor(d[1..33], POLY) + d[33..] else d[1..])
  }

  /** The message followed by 32 zeros, its first 32 bits combined with init. */
  ghost function Dividend(init: Word, msg: seq<bool>): (d: seq<bool>)
    ensures |d| == |msg| + 32
  {
    var m := msg + Zeros(32);
    Xor(m[..32], init) + m[32..]
  }

  /** The check value of a sequence of bytes: complement the first 32 bits of the message,
      append 32 zeros, divide, complement the remainder. */
  ghost function CheckValue(buf: seq<byte>): Word
  {
    Not(Remainder(Dividend(seq(32, _ => true), StreamOf(buf))))
  }

  // ---- the register, one bit at a time

  function Step(c: Word): (r: Word)
  {
    if c[0] then Xor(ShiftRight(c, 1), POLY) else ShiftRight(c, 1)
  }

  function Steps(c: Word, n: nat): (r: Word)
    decreases n
  {
    if n == 0 then c else Steps(Step(c), n - 1)
  }

  /** The register after the message bits, each combined with its lowest bit in turn. */
  ghost function Feed(c: Word, msg: seq<bool>): (r: Word)
    decreases msg
  {
    if msg == [] then c else Feed(Step(c[0 := c[0] != msg[0]]), msg[1..])
  }

  /** Feeding the register bit by bit is long division. */
  lemma {:induction false} FeedIsRemainder(c: Word, msg: seq<bool>)
    ensures Feed(c, msg) == Remainder(Dividend(c, msg))
    decreases msg
  {
    var d := Dividend(c, msg);
    if msg == [] {
      assert d == c;
    } else {
      var c' := Step(c[0 := c[0] != msg[0]]);
      FeedIsRemainder(c', msg[1..]);
      DividendStep(c, msg);
    }
  }

  /** One step of the division takes in the next bit of the message. */
  lemma DividendStep(c: Word, msg: seq<bool>)
    requires msg != []
    ensures var d := Dividend(c, msg);
            (if d[0] then Xor(d[1..33], POLY) + d[33..] else d[1..]) == Dividend(Step(c[0 := c[0] != msg[0]]), msg[1..])
  {
    var d := Dividend(c, msg);
    var m, m' := msg + Zeros(32), msg[1..] + Zeros(32);
    assert m' == m[1..];
    assert d[33..] == m[33..] == m'[32..];
    assert d[0] == (c[0] != msg[0]);
  }

  lemma StepLinear(a: Word, b: Word)
    ensures Step(Xor(a, b)) == Xor(Step(a), Step(b))
  {
  }

  lemma {:induction false} StepsLinear(a: Word, b: Word, n: nat)
    ensures Steps(Xor(a, b), n) == Xor(Steps(a, n), Steps(b, n))
    decreases n
  {
    if n > 0 {
      StepLinear(a, b);
      StepsLinear(Step(a), Step(b), n - 1);
    }
  }

  /** Steps over zero bits only shift. */
  lemma {:induction false} StepsOfZeros(c: Word, n: nat)
    requires n <= 32 && c[..n] == Zeros(n)
    ensures Steps(c, n) == ShiftRight(c, n)
    decreases n
  {
    if n == 0 {
      assert ShiftRight(c, 0) == c;
    } else {
      assert c[0] == c[..n][0];
      var s := ShiftRight(c, 1);
      assert s[..n - 1] == Zeros(n - 1) by {
        assert forall i :: 0 <= i < n - 1 ==> s[i] == c[..n][i + 1];
      }
      StepsOfZeros(s, n - 1);
      assert ShiftRight(s, n - 1) == ShiftRight(c, n);
    }
  }

  /** The low n bits of a register. */
  function LowBits(c: Word, n: nat): (r: Word)
    requires n <= 32
  {
    c[..n] + Zeros(32 - n)
  }

  /** The identity behind the table: n steps are a shift and the n steps of the low bits. */
  lemma TableStep(x: Word, n: nat)
    requires n <= 32
    ensures Steps(x, n) == Xor(ShiftRight(x, n), Steps(LowBits(x, n), n))
  {
    var h: Word := Zeros(n) + x[n..];
    assert x == Xor(h, LowBits(x, n));
    StepsLinear(h, LowBits(x, n), n);
    StepsOfZeros(h, n);
    assert ShiftRight(h, n) == ShiftRight(x, n);
  }

  lemma StepShifts(c: Word, m: seq<bool>, z: nat)
    requires c == [false] + m + Zeros(z)
    ensures Step(c) == m + Zeros(z + 1)
  {
  }

  /** Combining the next n message bits at once and stepping n times is feeding them. */
  lemma {:induction false} FeedIsSteps(c: Word, msg: seq<bool>)
    requires |msg| <= 32
    ensures Feed(c, msg) == Steps(Xor(c, msg + Zeros(32 - |msg|)), |msg|)
    decreases msg
  {
    hide Step;
    var n := |msg|;
    if n == 0 {
      assert Xor(c, msg + Zeros(32)) == c;
    } else {
      var c' := c[0 := c[0] != msg[0]];
      FeedIsSteps(Step(c'), msg[1..]);
      var whole: Word := msg + Zeros(32 - n);
      var rest: Word := [false] + msg[1..] + Zeros(32 - n);
      assert Xor(c, whole) == Xor(c', rest);
      StepLinear(c', rest);
      StepShifts(rest, msg[1..], 32 - n);
    }
  }

  lemma {:induction false} FeedConcat(c: Word, a: seq<bool>, b: seq<bool>)
    ensures Feed(c, a + b) == Feed(Feed(c, a), b)
    decreases a
  {
    if a == [] {
      assert a + b == b;
    } else {
      FeedConcat(Step(c[0 := c[0] != a[0]]), a[1..], b);
      assert (a + b)[1..] == a[1..] + b;
    }
  }

  // ---- the source

  /** A byte as a register. */
  function ByteWord(b: nat): (r: Word)
  {
    ByteBits(b, 8) + Zeros(24)
  }

  /** inittab */
  method InitTab() returns (tab: array<Word>)
    ensures fresh(tab) && tab.Length == 0x100 && forall i :: 0 <= i < 0x100 ==> tab[i] == Steps(ByteWord(i), 8)
  {
    hide Xor, ShiftRight, ByteWord, POLY;
    tab := new Word[0x100];
    var i := 0;
    while i < 0x100
      invariant 0 <= i <= 0x100 && forall k :: 0 <= k < i ==> tab[k] == Steps(ByteWord(k), 8)
    {
      var c := ByteWord(i);
      var j := 0;
      while j < 8
        invariant 0 <= j <= 8 && Steps(c, 8 - j) == Steps(ByteWord(i), 8)
      {
        c := if c[0] then Xor(ShiftRight(c, 1), POLY) else ShiftRight(c, 1);
        j := j + 1;
      }
      tab[i] := c;
      i := i + 1;
    }
  }

  /** The entry for a register's low byte is the one of the register cut to that byte. */
  lemma Entry(x: Word)
    ensures Lsb(x[..8]) < 0x100 && ByteWord(Lsb(x[..8])) == LowBits(x, 8)
  {
    ByteBound(x[..8]);
    SmallPowers();
    ByteBitsValue(Lsb(x[..8]), 8);
    LsbInjective(ByteBits(Lsb(x[..8]), 8), x[..8]);
  }

  /** One byte: shift by eight and combine with the table entry of the low byte. */
  lemma ByteStep(c: Word, b: byte)
    ensures var x := Xor(c, ByteWord(b));
            Feed(c, ByteBits(b, 8)) == Xor(ShiftRight(c, 8), Steps(ByteWord(Lsb(x[..8])), 8))
  {
    hide Feed, Steps, ShiftRight, Lsb;
    var x := Xor(c, ByteWord(b));
    FeedIsSteps(c, ByteBits(b, 8));
    TableStep(x, 8);
    Entry(x);
    HighBits(c, b);
  }

  lemma HighBits(c: Word, b: byte)
    ensures ShiftRight(Xor(c, ByteWord(b)), 8) == ShiftRight(c, 8)
  {
  }

  /** crc32: the table-driven loop computes the check value. */
  method Crc32(buf: seq<byte>) returns (r: Word)
    ensures r == CheckValue(buf)
  {
    hide Steps, Feed, ByteWord, Lsb, Remainder, Dividend, ShiftRight;
    var tab := InitTab();
    var ones: Word := seq(32, _ => true);
    var c := ones;
    var i := 0;
    FeedNothing(ones);
    while i < |buf|
      invariant 0 <= i <= |buf| && c == Feed(ones, StreamOf(buf[..i]))
      invariant forall k :: 0 <= k < 0x100 ==> tab[k] == Steps(ByteWord(k), 8)
    {
      var x := Xor(c, ByteWord(buf[i]));
      ByteStep(c, buf[i]);
      Entry(x);
      FeedConcat(ones, StreamOf(buf[..i]), ByteBits(buf[i], 8));
      assert buf[..i + 1][..i] == buf[..i];
      assert StreamOf(buf[..i + 1]) == StreamOf(buf[..i]) + ByteBits(buf[i], 8);
      c := Xor(ShiftRight(c, 8), tab[Lsb(x[..8])]);
      i := i + 1;
    }
    assert buf[..i] == buf;
    FeedIsRemainder(ones, StreamOf(buf));
    r := Not(c);
  }

  lemma FeedNothing(c: Word)
    ensures Feed(c, StreamOf([])) == c
  {
  }
}
