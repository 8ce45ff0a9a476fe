/** Where the tables of huft_build go wrong: a table wider than the bits per table leaves
    entries without a value, and the strings that run into them stay undecodable whatever
    is built afterwards. */
module HuftDefect {
  import opened Bits
  import opened Canonical
  import opened HuftTables
  import opened HuftCodes
  import opened HuftState

  /** A code longer than q starts with q. */
  ghost predicate HasLonger(c: Counts, g: nat, q: seq<bool>)
    requires g <= BMAX
  {
    exists k: nat, r: nat :: LongerThan(c, g, q, k, r)
  }

  ghost predicate LongerThan(c: Counts, g: nat, q: seq<bool>, k: nat, r: nat)
    requires g <= BMAX
  {
    IsCode(c, g, k, r) && k > |q| && q <= CodeWord(c, k, r)
  }

  /** A code that has been reached starts with p and is longer: an earlier code, or the
      current one where p is no longer than w. */
  ghost predicate StartedAt(cx: Ctx, p: seq<bool>, k: nat, r: nat, w: int)
    requires CtxOk(cx)
  {
    exists k': nat, r': nat :: LongerThan(cx.c, cx.g, p, k', r') &&
      (Earlier(cx, k', r', k, r) || (k' == k && r' == r && |p| <= w))
  }

  ghost predicate Started(cx: Ctx, pre: seq<seq<bool>>, k: nat, r: nat, w: int)
    requires CtxOk(cx)
  {
    forall u :: 0 <= u < |pre| ==> StartedAt(cx, pre[u], k, r, w)
  }

  /** No code before a code that is zero from bit m on starts with its first m bits. */
  lemma FirstInRegion(cx: Ctx, k: nat, r: nat, m: nat, k': nat, r': nat)
    requires CtxOk(cx) && IsCode(cx.c, cx.g, k, r) && m <= k && AllZero(CodeWord(cx.c, k, r), m)
    requires Earlier(cx, k', r', k, r)
    ensures !(CodeWord(cx.c, k, r)[..m] <= CodeWord(cx.c, k', r'))
  {
    hide FirstCode;
    var code := CodeWord(cx.c, k, r);
    var bits := CodeWord(cx.c, k', r') + Zeros(k);
    CodeWordValue(cx.c, cx.g, k, r);
    assert CodeWord(cx.c, k', r') <= bits;
    EarlierIsBelow(cx.c, cx.g, bits, k', r', k, r);
    assert code[..k] == code;
    if code[..m] <= bits {
      ZerosAreLeast(code, bits, m, k);
    }
  }

  // ---- a string that stays undecodable

  /** The tables on the way to one that is too wide, and a path out of its region that a
      longer code takes. */
  datatype Doom = Doom(us: seq<nat>, q: seq<bool>)

  ghost predicate Chained(tabs: seq<seq<Huft>>, pre: seq<seq<bool>>, jb: seq<nat>, l: nat, us: seq<nat>)
    requires |pre| == |jb| == |tabs|
  {
    && |us| > 1 && us[0] == 0 && |pre| > 0 && pre[0] == []
    && (forall a :: 0 <= a < |us| ==> us[a] < |tabs|)
    && (forall a :: 0 < a < |us| ==> us[a - 1] < us[a] && Linked(tabs, pre, jb, l, us[a - 1], us[a]))
    && (forall a :: 0 < a < |us| - 1 ==> jb[us[a]] == l)
  }

  /** The slot of q followed by a one. */
  ghost function DeadSlot(q: seq<bool>, w: nat, l: nat): nat
    requires w <= |q|
  {
    Lsb(q[w..]) + Pow2(l)
  }

  ghost predicate Dead(cx: Ctx, tabs: seq<seq<Huft>>, pre: seq<seq<bool>>, jb: seq<nat>, d: Doom)
    requires CtxOk(cx)
  {
    && |pre| == |jb| == |tabs| && Chained(tabs, pre, jb, cx.l, d.us)
    && var t := d.us[|d.us| - 1];
       && jb[t] > cx.l && |pre[t]| + jb[t] <= cx.g && pre[t] <= d.q && |d.q| == |pre[t]| + cx.l
       && HasLonger(cx.c, cx.g, d.q)
       && DeadSlot(d.q, |pre[t]|, cx.l) < |tabs[t]| && tabs[t][DeadSlot(d.q, |pre[t]|, cx.l)].Unset?
  }

  lemma {:induction false} ChainReaches(tabs: seq<seq<Huft>>, pre: seq<seq<bool>>, jb: seq<nat>, l: nat, us: seq<nat>,
                                        bits: seq<bool>, a: nat)
    requires 0 < l <= 16 && |pre| == |jb| == |tabs| && Chained(tabs, pre, jb, l, us)
    requires a < |us| && pre[us[a]] <= bits && jb[us[|us| - 1]] <= 16
    ensures var u := us[a]; var w := |pre[u]|;
            Walk(tabs, 0, l, bits) == Further(Walk(tabs, u, Width(jb, l, u), bits[w..]), w)
  {
    if a == 0 {
      assert bits[0..] == bits;
    } else {
      var t, u := us[a - 1], us[a];
      assert Linked(tabs, pre, jb, l, t, u);
      ChainReaches(tabs, pre, jb, l, us, bits, a - 1);
      LinkStep(tabs, pre, jb, l, t, u, bits);
    }
  }

  /** The string that shows it. */
  ghost function DeadBits(cx: Ctx, d: Doom): (bits: seq<bool>)
    ensures |bits| >= cx.g
  {
    d.q + [true] + Zeros(cx.g)
  }

  lemma DeadIndex(q: seq<bool>, w: nat, l: nat, j: nat, tail: nat)
    requires |q| == w + l && j > l && tail >= j
    ensures Lsb((q + [true] + Zeros(tail))[w..][..j]) == DeadSlot(q, w, l)
  {
    var z := Zeros(j - l - 1);
    assert (q + [true] + Zeros(tail))[w..][..j] == q[w..] + ([true] + z);
    LsbZeros(j - l - 1);
    assert ([true] + z)[1..] == z;
    LsbConcat(q[w..], [true] + z);
  }

  /** A string that runs into the entry finds nothing. */
  lemma DeadWalk(cx: Ctx, tabs: seq<seq<Huft>>, pre: seq<seq<bool>>, jb: seq<nat>, d: Doom)
    requires CtxOk(cx) && Dead(cx, tabs, pre, jb, d)
    ensures Walk(tabs, 0, cx.l, DeadBits(cx, d)) == Undefined
  {
    var bits := DeadBits(cx, d);
    var a := |d.us| - 1;
    var t := d.us[a];
    ChainReaches(tabs, pre, jb, cx.l, d.us, bits, a);
    ChainUp(tabs, pre, jb, cx.l, d.us, a);
    DeadIndex(d.q, |pre[t]|, cx.l, jb[t], cx.g);
    WalkEnds(tabs, t, jb[t], bits[|pre[t]|..], Unset);
  }

  lemma {:induction false} ChainUp(tabs: seq<seq<Huft>>, pre: seq<seq<bool>>, jb: seq<nat>, l: nat, us: seq<nat>,
                                   a: nat)
    requires |pre| == |jb| == |tabs| && Chained(tabs, pre, jb, l, us) && 0 < a < |us|
    ensures us[a] > 0
  {
    if a > 1 {
      ChainUp(tabs, pre, jb, l, us, a - 1);
    }
  }

  // ---- what is built afterwards leaves it undecodable

  lemma DeadAfterTable(cx: Ctx, st: St, pre: seq<seq<bool>>, jb: seq<nat>, k: nat, r: nat, code: seq<bool>,
                       slot: nat, j: nat, d: Doom)
    requires CtxOk(cx) && AtCode(cx, k, r, code) && k > st.w + cx.l && AllZero(code, st.w + cx.l)
    requires LinkHere(st, pre, jb, cx.l, code, slot) && Started(cx, pre, k, r, st.w)
    requires Dead(cx, st.tabs, pre, jb, d)
    ensures Dead(cx, AddTable(st.tabs, st.us, slot, j, cx.l), pre + [code[..st.w + cx.l]], jb + [j], d)
  {
    hide Lsb, CodeWord, HasLonger, AllZero;
    var l, top := cx.l, st.us[|st.us| - 1];
    var tabs', pre', jb' := AddTable(st.tabs, st.us, slot, j, l), pre + [code[..st.w + l]], jb + [j];
    LsbBound(code[st.w..st.w + l]);
    forall a | 0 < a < |d.us|
      ensures Linked(tabs', pre', jb', l, d.us[a - 1], d.us[a])
    {
      var t, u := d.us[a - 1], d.us[a];
      assert Linked(st.tabs, pre, jb, l, t, u);
      NotLinkedTwice(cx, st, pre, jb, k, r, code, slot, t, u);
    }
  }

  /** The slot for a new link holds no link yet. */
  lemma NotLinkedTwice(cx: Ctx, st: St, pre: seq<seq<bool>>, jb: seq<nat>, k: nat, r: nat, code: seq<bool>,
                       slot: nat, t: nat, u: nat)
    requires CtxOk(cx) && AtCode(cx, k, r, code) && k > st.w + cx.l && AllZero(code, st.w + cx.l)
    requires LinkHere(st, pre, jb, cx.l, code, slot) && Started(cx, pre, k, r, st.w)
    requires Linked(st.tabs, pre, jb, cx.l, t, u)
    ensures t == st.us[|st.us| - 1] ==> Lsb(pre[u][|pre[t]|..]) != slot
  {
    hide CodeWord, AllZero;
    var l := cx.l;
    if t == st.us[|st.us| - 1] && Lsb(pre[u][|pre[t]|..]) == slot {
      LsbInjective(pre[u][|pre[t]|..], code[st.w..st.w + l]);
      assert pre[u] == pre[t] + pre[u][|pre[t]|..];
      assert pre[u] == code[..st.w + l];
      assert StartedAt(cx, pre[u], k, r, st.w);
      var k': nat, r': nat :| LongerThan(cx.c, cx.g, pre[u], k', r') &&
        (Earlier(cx, k', r', k, r) || (k' == k && r' == r && |pre[u]| <= st.w));
      FirstInRegion(cx, k, r, st.w + l, k', r');
    }
  }

  /** A code does not fill a slot that belongs to strings leading to a longer code. */
  lemma NotFilled(c: Counts, g: nat, k: nat, r: nat, code: seq<bool>, q: seq<bool>, w: nat, more: seq<bool>)
    requires Fills(c, g) && IsCode(c, g, k, r) && code == CodeWord(c, k, r)
    requires w <= k <= |q| && code[..w] <= q && HasLonger(c, g, q)
    ensures Low(Lsb((q + more)[w..]), k - w) != Shr(Lsb(code), w)
  {
    hide CodeWord, Lsb, FirstCode;
    var k': nat, r': nat :| LongerThan(c, g, q, k', r');
    var bits := q + more;
    var width := |bits| - w;
    assert bits[w..][..width] == bits[w..];
    FilledSlot(code, bits, w, width);
    if code <= bits {
      assert code == bits[..k] == q[..k];
      assert code <= CodeWord(c, k', r');
      PrefixFree(c, g, CodeWord(c, k', r'), k, r, k', r');
    }
  }

  lemma DeadAfterPlace(cx: Ctx, tabs: seq<seq<Huft>>, pre: seq<seq<bool>>, jb: seq<nat>, top: nat, tab': seq<Huft>,
                       k: nat, r: nat, code: seq<bool>, h: Huft, d: Doom)
    requires CtxOk(cx) && AtCode(cx, k, r, code) && Dead(cx, tabs, pre, jb, d)
    requires top < |tabs| && pre[top] <= code && |code| <= |pre[top]| + cx.l
             && Filled(tabs[top], tab', code, |pre[top]|, h)
    requires forall u :: 0 <= u < |pre| ==> HasLonger(cx.c, cx.g, pre[u])
    ensures Dead(cx, tabs[top := tab'], pre, jb, d)
  {
    hide Lsb, CodeWord, HasLonger, Shr, Low;
    var l, tabs' := cx.l, tabs[top := tab'];
    var w := |pre[top]|;
    forall a | 0 < a < |d.us|
      ensures Linked(tabs', pre, jb, l, d.us[a - 1], d.us[a])
    {
      var t, u := d.us[a - 1], d.us[a];
      assert Linked(tabs, pre, jb, l, t, u);
      if t == top {
        assert code[..w] <= pre[u];
        NotFilled(cx.c, cx.g, k, r, code, pre[u], w, []);
        assert pre[u] + [] == pre[u];
      }
    }
    var t := d.us[|d.us| - 1];
    if t == top {
      assert code[..w] <= d.q;
      NotFilled(cx.c, cx.g, k, r, code, d.q, w, [true]);
      DeadIndex(d.q, w, l, l + 1, l + 1);
      assert (d.q + [true] + Zeros(l + 1))[w..][..l + 1] == (d.q + [true])[w..];
    }
  }

  // ---- how it comes about

  /** A string between the first code of a region and its end lies in the region. */
  lemma {:induction false} InRegion(p: seq<bool>, code: seq<bool>, q: seq<bool>, t: nat)
    requires p <= code && |p| <= t <= |code| && t <= |q| && AllZero(code, |p|)
    requires Msb(code[..t]) <= Msb(q[..t]) < SubtreeEnd(p, t)
    ensures p <= q
    decreases t
  {
    if t == |p| {
      assert code[..t] == p;
      MsbInjective(q[..t], p);
    } else {
      MsbStep(code, t - 1);
      MsbStep(q, t - 1);
      InRegion(p, code, q, t - 1);
    }
  }

  /** A region whose first code leaves no room has a longer code behind some of its
      l-bit paths. */
  lemma LongerInside(cx: Ctx, k: nat, r: nat, code: seq<bool>, w: nat) returns (q: seq<bool>)
    requires CtxOk(cx) && AtCode(cx, k, r, code) && AllZero(code, w) && w < k && !Roomy(cx.c, cx.l, k, r, w)
    ensures |q| == w + cx.l && code[..w] <= q && HasLonger(cx.c, cx.g, q)
  {
    hide FirstCode;
    var c, g, l := cx.c, cx.g, cx.l;
    if k > w + l {
      q := code[..w + l];
      assert LongerThan(c, g, q, k, r);
    } else {
      var p := code[..w];
      CodeWordValue(c, g, k, r);
      assert code[..k] == code;
      SubtreeStart(p, code, k);
      SubtreeEndBound(p, k);
      q := CodeWord(c, k, c[k]);
      MsbOfToMsb(FirstCode(c, k) + c[k], k);
      assert q[..k] == q;
      InRegion(p, code, q, k);
      LongerBehind(c, g, k, q);
    }
  }

  /** The string just past the codes of length k starts a longer code. */
  lemma LongerBehind(c: Counts, g: nat, k: nat, q: seq<bool>)
    requires Fills(c, g) && k <= g && |q| == k && Msb(q) == FirstCode(c, k) + c[k]
    ensures HasLonger(c, g, q)
  {
    hide FirstCode, CodeWord;
    var bits := q + Zeros(g);
    var k', r' := SomeCodeMatches(c, g, bits);
    assert bits[..k] == q;
    if k' <= k {
      EarlierIsBelow(c, g, bits, k', r', k, c[k]);
    }
    assert bits[..k'] == CodeWord(c, k', r');
    assert LongerThan(c, g, q, k', r');
  }

  /** A table made too wide is dead from the start. */
  lemma DeadFromTheStart(cx: Ctx, st: St, pre: seq<seq<bool>>, jb: seq<nat>, code: seq<bool>, j: nat, q: seq<bool>)
    requires CtxOk(cx) && Inv(cx, st, pre, jb, code) && |st.us| > 1
    requires var t := st.us[|st.us| - 1];
             && t == |st.tabs| - 1 && jb[t] == j > cx.l && |pre[t]| + j <= cx.g
             && st.tabs[t] == seq(Pow2(j), _ => Unset)
             && pre[t] <= q && |q| == |pre[t]| + cx.l && HasLonger(cx.c, cx.g, q)
             && forall u :: 0 < u < t ==> jb[u] <= cx.l
    ensures Dead(cx, st.tabs, pre, jb, Doom(st.us, q))
  {
    var t := st.us[|st.us| - 1];
    LsbBound(q[|pre[t]|..]);
    Pow2Mono(cx.l + 1, j);
    forall a | 0 < a < |st.us| - 1
      ensures jb[st.us[a]] == cx.l
    {
      assert Linked(st.tabs, pre, jb, cx.l, st.us[a], st.us[a + 1]);
      StackIncreases(st, pre, jb, cx.l, code, a);
      StackIncreasing(st, pre, jb, cx.l, code, a);
    }
    assert Level(pre[0], cx.l, code, st.xs[0], 0);
  }

  lemma {:induction false} StackIncreasing(st: St, pre: seq<seq<bool>>, jb: seq<nat>, l: nat, code: seq<bool>, a: nat)
    requires |pre| == |jb| == |st.tabs| && Stack(st, pre, jb, l, code) && 0 < a < |st.us|
    ensures 0 < st.us[a]
  {
    if a > 1 {
      StackIncreasing(st, pre, jb, l, code, a - 1);
    }
  }

  // ---- sound so far

  /** The regions the current code opens at depths up to w are roomy. */
  ghost predicate RoomyUpTo(cx: Ctx, k: nat, r: nat, w: int)
    requires CtxOk(cx) && IsCode(cx.c, cx.g, k, r)
  {
    forall h: nat :: h >= 1 && Depth(cx.l, h) < k && Depth(cx.l, h) <= w
        && AllZero(CodeWord(cx.c, k, r), Depth(cx.l, h))
      ==> Roomy(cx.c, cx.l, k, r, Depth(cx.l, h))
  }

  ghost predicate RoomyBefore(cx: Ctx, k: nat, r: nat)
    requires CtxOk(cx)
  {
    forall k': nat, r': nat :: Earlier(cx, k', r', k, r) ==> RoomyUpTo(cx, k', r', k')
  }

  lemma RoomyIsSound(cx: Ctx)
    requires CtxOk(cx)
    ensures RoomyBefore(cx, cx.g, cx.c[cx.g]) <==> Sound(cx.c, cx.g, cx.l)
  {
    hide CodeWord, Roomy;
    if RoomyBefore(cx, cx.g, cx.c[cx.g]) {
      forall k: nat, r: nat, h: nat |
        IsCode(cx.c, cx.g, k, r) && h >= 1 && Depth(cx.l, h) < k && AllZero(CodeWord(cx.c, k, r), Depth(cx.l, h))
        ensures Roomy(cx.c, cx.l, k, r, Depth(cx.l, h))
      {
        assert Earlier(cx, k, r, cx.g, cx.c[cx.g]);
        assert RoomyUpTo(cx, k, r, k);
      }
    }
  }

  lemma OpenedByAnother(cx: Ctx, k: nat, r: nat, code: seq<bool>, m: nat)
    requires CtxOk(cx) && AtCode(cx, k, r, code) && m <= k && StartedAt(cx, code[..m], k, r, -1)
    ensures !AllZero(code, m)
  {
    hide CodeWord, AllZero;
    var k': nat, r': nat :| LongerThan(cx.c, cx.g, code[..m], k', r') && Earlier(cx, k', r', k, r);
    if AllZero(code, m) {
      FirstInRegion(cx, k, r, m, k', r');
    }
  }

  /** The tables a code finds in place belong to regions that an earlier code opened. */
  lemma OpenedBefore(cx: Ctx, st: St, pre: seq<seq<bool>>, jb: seq<nat>, k: nat, r: nat, code: seq<bool>)
    requires CtxOk(cx) && Inv(cx, st, pre, jb, code) && AtCode(cx, k, r, code) && Started(cx, pre, k, r, -1)
    ensures RoomyUpTo(cx, k, r, st.w)
  {
    hide CodeWord, Roomy, AllZero, Layout, WideLinks, Fits, StartedAt;
    forall h: nat | h >= 1 && Depth(cx.l, h) < k && Depth(cx.l, h) <= st.w
      ensures !AllZero(code, Depth(cx.l, h))
    {
      StackDepth(cx.l, h, |st.us|);
      var p := pre[st.us[h]];
      assert Level(p, cx.l, code, st.xs[h], h);
      assert p == code[..Depth(cx.l, h)];
      assert StartedAt(cx, p, k, r, -1);
      OpenedByAnother(cx, k, r, code, Depth(cx.l, h));
    }
  }

  lemma StackDepth(l: nat, h: nat, n: nat)
    requires l > 0 && Depth(l, h) + l <= Depth(l, n)
    ensures h < n
  {
    if n <= h {
      DepthMono(l, n, h);
    }
  }

  /** One more level is roomy. */
  lemma RoomyNext(cx: Ctx, k: nat, r: nat, n: nat)
    requires CtxOk(cx) && IsCode(cx.c, cx.g, k, r) && n >= 1 && RoomyUpTo(cx, k, r, Depth(cx.l, n) - cx.l)
    requires Depth(cx.l, n) < k && Roomy(cx.c, cx.l, k, r, Depth(cx.l, n))
    ensures RoomyUpTo(cx, k, r, Depth(cx.l, n))
  {
    hide CodeWord, Roomy, AllZero;
    forall h: nat | h >= 1 && Depth(cx.l, h) <= Depth(cx.l, n) && h != n
      ensures Depth(cx.l, h) <= Depth(cx.l, n) - cx.l
    {
      if h > n {
        DepthMono(cx.l, n + 1, h);
      } else {
        DepthMono(cx.l, h, n - 1);
      }
    }
  }

  /** Below a table that holds the code there is no further region. */
  lemma RoomyAll(cx: Ctx, k: nat, r: nat, n: nat)
    requires CtxOk(cx) && IsCode(cx.c, cx.g, k, r) && RoomyUpTo(cx, k, r, Depth(cx.l, n) - cx.l) && k <= Depth(cx.l, n)
    ensures RoomyUpTo(cx, k, r, k)
  {
    hide CodeWord, Roomy, AllZero;
    forall h: nat | Depth(cx.l, h) < k
      ensures Depth(cx.l, h) <= Depth(cx.l, n) - cx.l
    {
      if h < n {
        DepthMono(cx.l, h, n - 1);
      } else {
        DepthMono(cx.l, n, h);
      }
    }
  }

  // ---- what the tables are worth between one step and the next

  /** Either every table is narrow and every code so far decodes, or some string never will. */
  ghost predicate Health(cx: Ctx, tabs: seq<seq<Huft>>, pre: seq<seq<bool>>, jb: seq<nat>, k: nat, r: nat,
                         doom: Option<Doom>)
    requires CtxOk(cx)
  {
    match doom
    case None => Narrow(pre, jb, cx.l, cx.g) && Done(cx, tabs, k, r) && RoomyBefore(cx, k, r)
    case Some(d) => Dead(cx, tabs, pre, jb, d) && !Sound(cx.c, cx.g, cx.l)
  }

  /** The same in the middle of a code, with the tables for it made down to depth w. */
  ghost predicate Midway(cx: Ctx, tabs: seq<seq<Huft>>, pre: seq<seq<bool>>, jb: seq<nat>, k: nat, r: nat, w: int,
                         doom: Option<Doom>)
    requires CtxOk(cx) && IsCode(cx.c, cx.g, k, r)
  {
    && Started(cx, pre, k, r, w) && Health(cx, tabs, pre, jb, k, r, doom)
    && (doom.None? ==> RoomyUpTo(cx, k, r, w))
  }

  lemma StartedMore(cx: Ctx, pre: seq<seq<bool>>, k: nat, r: nat, code: seq<bool>, w: int, w': nat)
    requires CtxOk(cx) && AtCode(cx, k, r, code) && Started(cx, pre, k, r, w) && w <= w' < k
    ensures Started(cx, pre + [code[..w']], k, r, w')
  {
    hide CodeWord;
    var pre' := pre + [code[..w']];
    assert LongerThan(cx.c, cx.g, code[..w'], k, r);
    forall u | 0 <= u < |pre'|
      ensures StartedAt(cx, pre'[u], k, r, w')
    {
      if u < |pre| {
        assert StartedAt(cx, pre[u], k, r, w);
      }
    }
  }

  /** What one more table for the code does: see NewTable. */
  lemma TableHealth(cx: Ctx, st: St, st': St, pre: seq<seq<bool>>, jb: seq<nat>, k: nat, r: nat, code: seq<bool>,
                    slot: nat, j: nat, doom: Option<Doom>) returns (doom': Option<Doom>)
    requires CtxOk(cx) && Inv(cx, st, pre, jb, code) && AtCode(cx, k, r, code) && k > st.w + cx.l
    requires |st.us| > 0 ==> LinkHere(st, pre, jb, cx.l, code, slot)
    requires Roomy(cx.c, cx.l, k, r, st.w + cx.l) ==> j <= cx.l
    requires !Roomy(cx.c, cx.l, k, r, st.w + cx.l) ==> j > cx.l
    requires st.w + cx.l + j <= cx.g
    requires st' ==
             St(AddTable(st.tabs, st.us, slot, j, cx.l), st.us + [|st.tabs|], st.xs + [Lsb(code[..st.w + cx.l])],
                 st.w + cx.l)
    requires Inv(cx, st', pre + [code[..st.w + cx.l]], jb + [j], code)
    requires Midway(cx, st.tabs, pre, jb, k, r, st.w, doom)
    ensures Midway(cx, st'.tabs, pre + [code[..st.w + cx.l]], jb + [j], k, r, st.w + cx.l, doom')
  {
    hide CodeWord, AddTable, Done, Dead, RoomyUpTo, RoomyBefore, Roomy, Sound, Layout, WideLinks, Fits, Stack,
      AllZero, Lsb, Started;
    LayoutSizes(st.tabs, pre, jb, cx.l);
    FirstOrNot(st, pre, jb, cx.l, code);
    var n, w := |st.us|, st.w + cx.l;
    StartedMore(cx, pre, k, r, code, st.w, w);
    doom' := doom;
    if n == 0 {
      FirstTable(cx, st, pre, jb, k, r, code, doom);
      DoneAtFirst(cx, st'.tabs, k, r);
    } else if doom.Some? {
      DeadAfterTable(cx, st, pre, jb, k, r, code, slot, j, doom.value);
    } else {
      if Roomy(cx.c, cx.l, k, r, w) {
        RoomyNext(cx, k, r, n);
        NewTableKeepsDone(cx, st, pre, jb, k, r, code, slot, j);
      } else {
        var q := LongerInside(cx, k, r, code, w);
        AddTableLast(st.tabs, st.us, slot, j, cx.l);
        DeadFromTheStart(cx, st', pre + [code[..w]], jb + [j], code, j, q);
        NotSound(cx, k, r, code, n);
        doom' := Some(Doom(st'.us, q));
      }
    }
  }

  lemma DoneAtFirst(cx: Ctx, tabs: seq<seq<Huft>>, k: nat, r: nat)
    requires CtxOk(cx) && IsCode(cx.c, cx.g, k, r) && AllZero(CodeWord(cx.c, k, r), 0)
    ensures Done(cx, tabs, k, r)
  {
    hide CodeWord, Walk, Want, AllZero;
    NothingEarlier(cx, k, r);
  }

  lemma NotSound(cx: Ctx, k: nat, r: nat, code: seq<bool>, n: nat)
    requires CtxOk(cx) && AtCode(cx, k, r, code) && n >= 1 && Depth(cx.l, n) < k && AllZero(code, Depth(cx.l, n))
    requires !Roomy(cx.c, cx.l, k, r, Depth(cx.l, n))
    ensures !Sound(cx.c, cx.g, cx.l)
  {
    hide CodeWord, Roomy, AllZero;
  }

  lemma FirstTable(cx: Ctx, st: St, pre: seq<seq<bool>>, jb: seq<nat>, k: nat, r: nat, code: seq<bool>,
                   doom: Option<Doom>)
    requires CtxOk(cx) && Inv(cx, st, pre, jb, code) && AtCode(cx, k, r, code) && |st.us| == 0
    requires Health(cx, st.tabs, pre, jb, k, r, doom)
    ensures doom.None? && |pre| == 0 && st.w + cx.l == 0 && AllZero(CodeWord(cx.c, k, r), 0) && RoomyUpTo(cx, k, r, 0)
  {
    hide CodeWord;
    forall h: nat | h >= 1
      ensures Depth(cx.l, h) > 0
    {
      DepthMono(cx.l, 1, h);
    }
  }

  lemma StartedLonger(cx: Ctx, pre: seq<seq<bool>>, k: nat, r: nat, w: int, u: nat)
    requires CtxOk(cx) && Started(cx, pre, k, r, w) && u < |pre|
    ensures HasLonger(cx.c, cx.g, pre[u])
  {
    assert StartedAt(cx, pre[u], k, r, w);
  }

  /** The next code: everything begun with this one or before it was begun earlier. */
  lemma StartedNext(cx: Ctx, pre: seq<seq<bool>>, k: nat, r: nat, w: int)
    requires CtxOk(cx) && IsCode(cx.c, cx.g, k, r) && Started(cx, pre, k, r, w)
    ensures Started(cx, pre, k, r + 1, -1)
  {
    forall u | 0 <= u < |pre|
      ensures StartedAt(cx, pre[u], k, r + 1, -1)
    {
      assert StartedAt(cx, pre[u], k, r, w);
      var k': nat, r': nat :| LongerThan(cx.c, cx.g, pre[u], k', r') &&
        (Earlier(cx, k', r', k, r) || (k' == k && r' == r && |pre[u]| <= w));
      assert Earlier(cx, k', r', k, r + 1);
    }
  }

  /** The next length: the same codes are earlier. */
  lemma SameBefore(cx: Ctx, tabs: seq<seq<Huft>>, pre: seq<seq<bool>>, jb: seq<nat>, k: nat, doom: Option<Doom>)
    requires CtxOk(cx) && 1 <= k < cx.g && Started(cx, pre, k, cx.c[k], -1)
    requires Health(cx, tabs, pre, jb, k, cx.c[k], doom)
    ensures Started(cx, pre, k + 1, 0, -1) && Health(cx, tabs, pre, jb, k + 1, 0, doom)
  {
    hide CodeWord, Walk, Want, Dead, Sound, RoomyUpTo;
    assert forall k': nat, r': nat :: Earlier(cx, k', r', k + 1, 0) <==> Earlier(cx, k', r', k, cx.c[k]);
    forall u | 0 <= u < |pre|
      ensures StartedAt(cx, pre[u], k + 1, 0, -1)
    {
      assert StartedAt(cx, pre[u], k, cx.c[k], -1);
    }
  }
}
