/** The state of the inflater (inflate.c): the bit buffer over the input, and the 32K
    window that is flushed to the output when it is full. */
module Inflaters {
  import opened Bits
  import opened DeflateSpec
  import opened HuftTables

  // ---- bytes as bits, least significant bit first

  function ByteBits(b: nat, n: nat): (s: seq<bool>)
    ensures |s| == n
  {
    if n == 0 then [] else [b % 2 == 1] + ByteBits(b / 2, n - 1)
  }

  lemma {:induction false} ByteBitsValue(b: nat, n: nat)
    requires b < Pow2(n)
    ensures Lsb(ByteBits(b, n)) == b
  {
    if n > 0 {
      ByteBitsValue(b / 2, n - 1);
      assert ByteBits(b, n)[1..] == ByteBits(b / 2, n - 1);
    }
  }

  ghost function StreamOf(bytes: seq<byte>): (s: seq<bool>)
    ensures |s| == 8 * |bytes|
  {
    if bytes == [] then [] else StreamOf(bytes[..|bytes| - 1]) + ByteBits(bytes[|bytes| - 1], 8)
  }

  lemma {:induction false} StreamByte(bytes: seq<byte>, i: nat)
    requires i < |bytes|
    ensures StreamOf(bytes)[8 * i..8 * i + 8] == ByteBits(bytes[i], 8)
  {
    var n := |bytes| - 1;
    if i < n {
      StreamByte(bytes[..n], i);
      assert StreamOf(bytes)[8 * i..8 * i + 8] == StreamOf(bytes[..n])[8 * i..8 * i + 8];
    }
  }

  /** Appending one byte to the bit buffer. */
  lemma BufferByte(s: seq<bool>, pos: nat, end: nat, b: byte)
    requires pos <= end && end + 8 <= |s| && s[end..end + 8] == ByteBits(b, 8)
    ensures Lsb(s[pos..end + 8]) == Lsb(s[pos..end]) + Pow2(end - pos) * b
  {
    assert s[pos..end + 8] == s[pos..end] + s[end..end + 8];
    LsbConcat(s[pos..end], s[end..end + 8]);
    SmallPowers();
    ByteBitsValue(b, 8);
  }

  // ---- the window

  /** The last full window of a history. */
  ghost function LastWindow(hist: seq<byte>): (w: seq<byte>)
    requires |hist| >= WSIZE
    ensures |w| == WSIZE
  {
    hist[|hist| - WSIZE..]
  }

  /** Copying no further than the distance takes bytes that are already there. */
  lemma {:induction false} CopyShort(hist: seq<byte>, n: nat, dist: nat)
    requires 1 <= dist <= |hist| && n <= dist
    ensures Copy(hist, n, dist) == hist + hist[|hist| - dist..|hist| - dist + n]
    decreases n
  {
    if n > 0 {
      var h := hist + [hist[|hist| - dist]];
      CopyShort(h, n - 1, dist);
      assert h[|h| - dist..|h| - dist + (n - 1)] == hist[|hist| - dist + 1..|hist| - dist + n];
    }
  }

  lemma {:induction false} CopyCompose(hist: seq<byte>, n: nat, m: nat, dist: nat)
    requires 1 <= dist <= |hist|
    ensures Copy(Copy(hist, n, dist), m, dist) == Copy(hist, n + m, dist)
    decreases n
  {
    if n > 0 {
      CopyCompose(hist + [hist[|hist| - dist]], n - 1, m, dist);
    }
  }

  const WRAP := 0x1_0000_0000

  /** The place in the window dist positions back from place w. */
  function Back(w: nat, dist: nat): (d: nat)
    requires w <= WSIZE && 1 <= dist <= WSIZE
    ensures w < WSIZE ==> d < WSIZE
  {
    if dist <= w then w - dist else w + WSIZE - dist
  }

  /** Unsigned subtraction and the mask find that place. */
  lemma BackIsMasked(w: nat, dist: nat)
    requires w < WSIZE && 1 <= dist <= WSIZE
    ensures ((w - dist) % WRAP) % WSIZE == Back(w, dist)
  {
  }

  /** The place moves along with w; both wrap at the end of the window. */
  lemma BackMoves(w: nat, dist: nat, e: nat)
    requires 1 <= dist <= WSIZE && w + e <= WSIZE && w < WSIZE && Back(w, dist) + e <= WSIZE
    ensures w + e < WSIZE ==> (Back(w, dist) + e) % WSIZE == Back(w + e, dist)
    ensures w + e == WSIZE ==> (Back(w, dist) + e) % WSIZE == Back(0, dist)
  {
  }

  /** A window with n bytes moved from place d to place w. */
  ghost predicate Moved(win: seq<byte>, win': seq<byte>, w: nat, d: nat, n: nat)
    requires w + n <= |win| && d + n <= |win|
  {
    && |win'| == |win|
    && forall i {:trigger win'[i]} :: 0 <= i < |win| ==> win'[i] == if w <= i < w + n then win[d + i - w] else win[i]
  }

  lemma MovedParts(win: seq<byte>, win': seq<byte>, w: nat, d: nat, n: nat)
    requires w + n <= |win| && d + n <= |win| && Moved(win, win', w, d, n)
    ensures win'[..w + n] == win[..w] + win[d..d + n]
    ensures win'[w + n..] == win[w..][n..]
  {
    assert forall i :: w + n <= i < |win| ==> win'[i] == win[i];
  }

  /** The history and the kept window after the move. */
  lemma HistoryMoves(fl: seq<byte>, win: seq<byte>, win': seq<byte>, last: seq<byte>, w: nat, d: nat, n: nat)
    requires w + n <= |win| == |last| && d + n <= |win| && Moved(win, win', w, d, n) && win[w..] == last[w..]
    ensures |win'| == |win| && fl + win'[..w + n] == fl + win[..w] + win[d..d + n]
    ensures win'[w + n..] == last[w + n..]
  {
    MovedParts(win, win', w, d, n);
    assert fl + (win[..w] + win[d..d + n]) == fl + win[..w] + win[d..d + n];
    assert win[w..][n..] == last[w..][n..] == last[w + n..];
  }

  /** The n bytes from dist positions back of a history fl + win[..w], where win holds the
      last window of fl from place w on. */
  lemma SourceIn(fl: seq<byte>, win: seq<byte>, w: nat, dist: nat, n: nat)
    requires |fl| >= WSIZE == |win| && w < WSIZE && win[w..] == LastWindow(fl)[w..]
    requires 1 <= dist <= WSIZE && n <= dist && Back(w, dist) + n <= WSIZE
    ensures var h, d := fl + win[..w], Back(w, dist);
            win[d..d + n] == h[|h| - dist..|h| - dist + n]
  {
    var h, d := fl + win[..w], Back(w, dist);
    var a, b := win[d..d + n], h[|h| - dist..|h| - dist + n];
    forall i | 0 <= i < n
      ensures a[i] == b[i]
    {
      if dist > w {
        assert win[w..][d + i - w] == LastWindow(fl)[w..][d + i - w];
      }
    }
  }

  lemma CopyNone(hist: seq<byte>, dist: nat)
    requires 1 <= dist <= |hist|
    ensures Copy(hist, 0, dist) == hist
  {
  }

  /** When the unsigned test lets memcpy copy e bytes, none of them is produced by this copy. */
  lemma AtOnceIsShort(w: nat, dist: nat, e: nat)
    requires w < WSIZE && 1 <= dist <= WSIZE && 1 <= e && w + e <= WSIZE && Back(w, dist) + e <= WSIZE
    requires (w - Back(w, dist)) % WRAP >= e
    ensures e <= dist
  {
  }

  class Inflater {
    const inbuf: seq<byte>
    var inptr: nat
    var bb: nat
    var bk: nat
    const window: array<byte>
    var outcnt: nat
    var outbuf: seq<byte>
    ghost const init: seq<byte>

    /** The input as a string of bits. */
    ghost function Stream(): (s: seq<bool>)
      ensures |s| == 8 * |inbuf|
    {
      StreamOf(inbuf)
    }

    /** How many bits of the input have been consumed. */
    ghost function Pos(): int
      reads this
    {
      8 * inptr - bk
    }

    ghost predicate BitsOk()
      reads this
    {
      && inptr <= |inbuf| && bk <= 8 * inptr && bk <= 23
      && bb == Lsb(Stream()[8 * inptr - bk..8 * inptr])
    }

    /** The previous contents of the window followed by everything produced so far. */
    ghost function Flushed(): seq<byte>
      reads this
    {
      init + outbuf
    }

    ghost function Hist(): (h: seq<byte>)
      requires outcnt <= window.Length
      reads this, window
      ensures |h| == |init| + |outbuf| + outcnt
    {
      init + outbuf + window[..outcnt]
    }

    /** The window holds the newest outcnt bytes, and the last full window after them. */
    ghost predicate WindowOk()
      reads this, window
    {
      && window.Length == WSIZE && |init| >= WSIZE && outcnt < WSIZE
      && window[outcnt..] == LastWindow(Flushed())[outcnt..]
    }

    ghost predicate Valid()
      reads this, window
    {
      BitsOk() && WindowOk()
    }

    constructor (input: seq<byte>, buf: array<byte>)
      requires buf.Length == WSIZE
      ensures Valid() && inbuf == input && window == buf && Pos() == 0 && outbuf == [] && init == buf[..]
              && Hist() == buf[..]
    {
      inbuf, inptr, bb, bk := input, 0, 0, 0;
      window, outcnt, outbuf := buf, 0, [];
      init := buf[..];
      new;
      assert Stream()[0..0] == [];
    }

    // ---- NEEDBITS and DUMPBITS

    /** Have at least n bits in the buffer; false when the input ends before. */
    method NeedBits(n: nat) returns (ok: bool)
      requires BitsOk() && n <= 16
      modifies this`inptr, this`bb, this`bk
      ensures BitsOk() && Pos() == old(Pos())
      ensures ok <==> Pos() + n <= |Stream()|
      ensures ok ==> bk >= n
    {
      hide Lsb, StreamOf, ByteBits;
      while bk < n
        invariant BitsOk() && Pos() == old(Pos())
        decreases |inbuf| - inptr
      {
        if inptr == |inbuf| {
          return false;
        }
        StreamByte(inbuf, inptr);
        BufferByte(Stream(), 8 * inptr - bk, 8 * inptr, inbuf[inptr]);
        bb := bb + Pow2(bk) * inbuf[inptr];
        inptr := inptr + 1;
        bk := bk + 8;
      }
      ok := true;
    }

    /** The next n bits of the input. */
    ghost function Next(n: nat): (s: seq<bool>)
      requires BitsOk() && n <= bk
      reads this
      ensures |s| == n
    {
      Stream()[Pos()..Pos() + n]
    }

    lemma Peek(n: nat)
      requires BitsOk() && n <= bk
      ensures Low(bb, n) == Lsb(Next(n))
      ensures Shr(bb, n) == Lsb(Stream()[Pos() + n..8 * inptr])
    {
      var s := Stream()[Pos()..8 * inptr];
      LsbSplit(s, n);
      assert s[..n] == Next(n) && s[n..] == Stream()[Pos() + n..8 * inptr];
    }

    method DumpBits(n: nat)
      requires BitsOk() && n <= bk
      modifies this`bb, this`bk
      ensures BitsOk() && Pos() == old(Pos()) + n && bk == old(bk) - n
    {
      Peek(n);
      bb := Shr(bb, n);
      bk := bk - n;
    }

    /** The bit buffer fits its 32-bit register. */
    lemma BufferFits()
      requires BitsOk()
      ensures bb < WRAP
    {
      LsbBound(Stream()[8 * inptr - bk..8 * inptr]);
      Pow2Mono(bk, 32);
      Pow2Add(16, 16);
      SmallPowers();
    }

    /** Read a data element of n bits: NEEDBITS, mask, DUMPBITS. */
    method GetField(n: nat) returns (ok: bool, x: nat)
      requires BitsOk() && n <= 16
      modifies this`inptr, this`bb, this`bk
      ensures BitsOk()
      ensures ok <==> Field(Stream(), old(Pos()), n).Ok?
      ensures ok ==> Field(Stream(), old(Pos()), n) == Ok(x, Pos()) && Pos() == old(Pos()) + n
      ensures !ok ==> Pos() == old(Pos())
    {
      x := 0;
      ok := NeedBits(n);
      if ok {
        Peek(n);
        x := Low(bb, n);
        DumpBits(n);
      }
    }

    /** Look up the next code in the tables and follow the links (NEEDBITS, DUMPBITS at
        each level). An entry with the invalid mark is left in the buffer. */
    method Decode(tabs: seq<seq<Huft>>, width: nat) returns (f: Found)
      requires BitsOk() && width <= 16
      modifies this`inptr, this`bb, this`bk
      ensures BitsOk() && old(Pos()) <= Pos() <= |Stream()|
      ensures f == Walk(tabs, 0, width, Stream()[old(Pos())..])
      ensures f.Hit? && f.e != 99 ==> Pos() == old(Pos()) + f.used
    {
      hide Low, Shr, Lsb;
      var t: nat, j: nat, used: nat := 0, width, 0;
      ghost var start := Pos();
      while true
        invariant BitsOk() && Pos() == start + used && j <= 16
        invariant Walk(tabs, 0, width, Stream()[start..]) == Further(Walk(tabs, t, j, Stream()[Pos()..]), used)
        decreases |Stream()| - Pos()
      {
        var ok := NeedBits(j);
        if !ok {
          return Short;
        }
        Peek(j);
        ghost var rest := Stream()[Pos()..];
        assert rest[..j] == Next(j);
        var i := Low(bb, j);
        if t >= |tabs| || i >= |tabs[t]| || tabs[t][i].Unset? || tabs[t][i].b > j {
          return Undefined;
        }
        var h := tabs[t][i];
        if !IsLink(h) {
          if h.e != 99 {
            DumpBits(h.b);
          }
          return Hit(h.e, h.v, used + h.b);
        }
        if h.b == 0 || h.e > 32 {
          return Undefined;
        }
        DumpBits(h.b);
        assert rest[h.b..] == Stream()[Pos()..];
        t, j, used := h.v, h.e - 16, used + h.b;
      }
    }

    // ---- output

    /** Write out the full window. */
    method FlushFull()
      requires window.Length == WSIZE && |init| >= WSIZE && outcnt == WSIZE
      modifies this`outcnt, this`outbuf
      ensures WindowOk() && outcnt == 0 && Hist() == old(Hist())
    {
      outbuf := outbuf + window[..outcnt];
      outcnt := 0;
      assert Flushed() == old(Hist());
      assert LastWindow(Flushed()) == window[..];
    }

    method PutByte(b: byte)
      requires WindowOk()
      modifies this`outcnt, this`outbuf, window
      ensures WindowOk() && Hist() == old(Hist()) + [b]
      ensures outcnt == (if old(outcnt) + 1 == WSIZE then 0 else old(outcnt) + 1)
    {
      window[outcnt] := b;
      outcnt := outcnt + 1;
      assert window[..outcnt] == old(window[..outcnt]) + [b];
      assert Hist() == old(Hist()) + [b];
      if outcnt == WSIZE {
        FlushFull();
      }
    }

    /** As WindowOk, but the window may be full. */
    ghost predicate Filling()
      reads this, window
    {
      && window.Length == WSIZE && |init| >= WSIZE && outcnt <= WSIZE
      && window[outcnt..] == LastWindow(Flushed())[outcnt..]
    }

    /** Where the n bytes from dist positions back are kept. */
    lemma Source(dist: nat, d: nat, n: nat)
      requires Filling() && outcnt < WSIZE && 1 <= dist <= WSIZE && d == Back(outcnt, dist)
      requires d + n <= WSIZE && n <= dist
      ensures window[d..d + n] == Hist()[|Hist()| - dist..|Hist()| - dist + n]
    {
      assert Hist() == Flushed() + window[..][..outcnt];
      assert window[outcnt..] == window[..][outcnt..] && window[d..d + n] == window[..][d..d + n];
      SourceIn(Flushed(), window[..], outcnt, dist, n);
    }

    /** The memcpy branch: all n bytes at once. */
    method CopyAtOnce(d: nat, n: nat, ghost dist: nat)
      requires Filling() && outcnt + n <= WSIZE && d + n <= WSIZE && 1 <= dist <= WSIZE && 1 <= n <= dist
      requires d == Back(outcnt, dist)
      modifies this`outcnt, window
      ensures Filling() && outcnt == old(outcnt) + n && Hist() == Copy(old(Hist()), n, dist)
    {
      hide Copy, Back, LastWindow, Moved;
      Source(dist, d, n);
      CopyShort(Hist(), n, dist);
      ghost var win, w, fl := window[..], outcnt, Flushed();
      ghost var last := LastWindow(fl);
      assert Hist() == fl + win[..w] && win[w..] == last[w..] && win[d..d + n] == window[d..d + n];
      MoveBytes(d, n);
      outcnt := outcnt + n;
      ghost var win' := window[..];
      HistoryMoves(fl, win, win', last, w, d, n);
      assert window[..outcnt] == win'[..outcnt] && window[outcnt..] == win'[outcnt..];
    }

    /** The memcpy itself. */
    method MoveBytes(d: nat, n: nat)
      requires outcnt + n <= window.Length && d + n <= window.Length
      modifies window
      ensures Moved(old(window[..]), window[..], outcnt, d, n)
    {
      forall i | 0 <= i < n {
        window[outcnt + i] := window[d + i];
      }
    }

    /** The byte-by-byte branch. */
    method CopySlowly(d: nat, n: nat, ghost dist: nat)
      requires Filling() && outcnt + n <= WSIZE && d + n <= WSIZE && 1 <= dist <= WSIZE
      requires n >= 1 && d == Back(outcnt, dist)
      modifies this`outcnt, window
      ensures Filling() && outcnt == old(outcnt) + n && Hist() == Copy(old(Hist()), n, dist)
    {
      hide Copy, Back, LastWindow;
      var e, from := n, d;
      ghost var h := Hist();
      CopyNone(h, dist);
      while e > 0
        invariant Filling() && outcnt + e <= WSIZE && from + e <= WSIZE && e <= n
        invariant e > 0 ==> from == Back(outcnt, dist)
        invariant outcnt == old(outcnt) + (n - e) && Hist() == Copy(h, n - e, dist)
      {
        CopyCompose(h, n - e, 1, dist);
        BackMoves(outcnt, dist, 1);
        CopyOne(from, dist);
        from := from + 1;
        e := e - 1;
      }
    }

    method CopyOne(d: nat, ghost dist: nat)
      requires Filling() && outcnt < WSIZE && d < WSIZE && 1 <= dist <= WSIZE && d == Back(outcnt, dist)
      modifies this`outcnt, window
      ensures Filling() && outcnt == old(outcnt) + 1 && Hist() == Copy(old(Hist()), 1, dist)
    {
      Source(dist, d, 1);
      assert window[d] == window[d..d + 1][0];
      window[outcnt] := window[d];
      outcnt := outcnt + 1;
      assert window[..outcnt] == old(window[..outcnt]) + [old(window[d])];
      assert Copy(old(Hist()), 1, dist) == old(Hist()) + [old(window[d])];
      assert window[outcnt..] == old(window[outcnt..])[1..];
    }

    /** Copy n bytes from dist positions back, in batches that stay inside the window. */
    method CopyBack(count: nat, dist: nat)
      requires WindowOk() && count >= 1 && 1 <= dist <= WSIZE
      modifies this`outcnt, this`outbuf, window
      ensures WindowOk() && Hist() == Copy(old(Hist()), count, dist)
    {
      hide Copy, Back, LastWindow;
      var n := count;
      BackIsMasked(outcnt, dist);
      var d := (outcnt - dist) % WRAP;
      ghost var h := Hist();
      CopyNone(h, dist);
      while n > 0
        invariant WindowOk() && 0 <= n <= count && Hist() == Copy(h, count - n, dist)
        invariant n > 0 ==> d % WSIZE == Back(outcnt, dist)
      {
        d := d % WSIZE;
        var e := WSIZE - (if d > outcnt then d else outcnt);
        if e > n {
          e := n;
        }
        CopyCompose(h, count - n, e, dist);
        BackMoves(outcnt, dist, e);
        n := n - e;
        if (outcnt - d) % WRAP >= e {
          AtOnceIsShort(outcnt, dist, e);
          CopyAtOnce(d, e, dist);
        } else {
          CopySlowly(d, e, dist);
        }
        d := d + e;
        if outcnt == WSIZE {
          FlushFull();
        }
      }
    }
  }
}
