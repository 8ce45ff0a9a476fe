/** What huft_build (inflate.c) works on: its tables and table stack, and what they are
    worth between one code and the next.

    The tables live in a sequence indexed by table number, and a link entry holds the
    number of the next table where the source holds a pointer. */
module HuftState {
  import opened Bits
  import opened Canonical
  import opened HuftTables
  import opened HuftCodes

  datatype Option<T> = None | Some(value: T)

  /** What the table loop of huft_build works from: completed length counts, longest
      length, bits per table, the values in order of code length (None where the array
      was never written), the number of simple values and the lists for the others. */
  datatype Ctx = Ctx(c: Counts, g: nat, l: nat, vs: seq<Option<nat>>, s: nat, d: seq<nat>, e: seq<nat>)

  ghost predicate CtxOk(cx: Ctx)
  {
    && Fills(cx.c, cx.g) && cx.c[cx.g] > 0 && 1 <= cx.l <= cx.g
    && (forall p :: 0 <= p < |cx.vs| && cx.vs[p].Some? ==>
          cx.vs[p].value < cx.s || (cx.vs[p].value - cx.s < |cx.d| && cx.vs[p].value - cx.s < |cx.e|))
    && (forall i :: 0 <= i < |cx.e| ==> cx.e[i] <= 16 || cx.e[i] == 99)
  }

  /** Number of codes shorter than k. */
  ghost function Shorter(c: Counts, k: nat): nat
    requires k <= BMAX + 1
  {
    if k <= 1 then 0 else Shorter(c, k - 1) + c[k - 1]
  }

  /** The entry for the p-th value, found after b bits of its table. */
  function EntryFor(cx: Ctx, p: nat, b: nat): (h: Huft)
    requires CtxOk(cx)
    ensures !IsLink(h)
  {
    if p >= |cx.vs| then Entry(99, b, 0)
    else if cx.vs[p].None? then Unset
    else
      var v := cx.vs[p].value;
      if v < cx.s then Entry(if v < 256 then 16 else 15, b, v)
      else Entry(cx.e[v - cx.s], b, cx.d[v - cx.s])
  }

  /** What a decoder must find for a string that starts with the r-th code of length k. */
  ghost function Want(cx: Ctx, k: nat, r: nat): Found
    requires CtxOk(cx) && k <= BMAX
  {
    match EntryFor(cx, Shorter(cx.c, k) + r, k)
    case Unset => Undefined
    case Entry(e, b, v) => Hit(e, v, b)
  }

  /** The number of bits decoded before a table of level h. */
  ghost function Depth(l: nat, h: nat): nat
  {
    if h == 0 then 0 else Depth(l, h - 1) + l
  }

  lemma {:induction false} DepthMono(l: nat, a: nat, b: nat)
    requires a <= b
    ensures Depth(l, a) <= Depth(l, b)
  {
    if a < b {
      DepthMono(l, a, b - 1);
    }
  }

  /** Every region that needs a table of its own starts with a code short enough for a
      table of l bits. Exactly then are all tables at most l bits wide. */
  ghost predicate Sound(c: Counts, g: nat, l: nat)
  {
    forall k: nat, r: nat, h: nat ::
      IsCode(c, g, k, r) && h >= 1 && Depth(l, h) < k && AllZero(CodeWord(c, k, r), Depth(l, h))
      ==> Roomy(c, l, k, r, Depth(l, h))
  }

  /** The strings that start with a code before the r-th of length k decode as they should. */
  ghost predicate Done(cx: Ctx, tabs: seq<seq<Huft>>, k: nat, r: nat)
    requires CtxOk(cx)
  {
    forall bits: seq<bool>, k': nat, r': nat ::
      Earlier(cx, k', r', k, r) && |bits| >= cx.g && CodeWord(cx.c, k', r') <= bits
      ==> Walk(tabs, 0, cx.l, bits) == Want(cx, k', r')
  }

  ghost predicate Earlier(cx: Ctx, k': nat, r': nat, k: nat, r: nat)
  {
    IsCode(cx.c, cx.g, k', r') && (k' < k || (k' == k && r' < r))
  }

  /** Tables other than the first are at most l bits wide and within the longest length. */
  ghost predicate Narrow(pre: seq<seq<bool>>, jb: seq<nat>, l: nat, g: nat)
  {
    |pre| == |jb| && forall t :: 1 <= t < |jb| ==> jb[t] <= l && |pre[t]| + jb[t] <= g
  }

  /** The tables built so far, and the stack of tables the current code is in. */
  datatype St = St(tabs: seq<seq<Huft>>, us: seq<nat>, xs: seq<nat>, w: int)

  ghost predicate Stack(st: St, pre: seq<seq<bool>>, jb: seq<nat>, l: nat, code: seq<bool>)
    requires |pre| == |jb| == |st.tabs|
  {
    var us := st.us;
    && |us| == |st.xs| && st.w + l == Depth(l, |us|) && (st.w >= 0 ==> |us| > 0)
    && (|us| == 0 ==> |st.tabs| == 0)
    && (|us| > 0 ==> us[0] == 0 && |pre| > 0)
    && (forall a :: 0 <= a < |us| ==> us[a] < |pre| && Level(pre[us[a]], l, code, st.xs[a], a))
    && (forall a :: 0 < a < |us| ==> us[a - 1] < us[a] && Linked(st.tabs, pre, jb, l, us[a - 1], us[a]))
  }

  /** The bits p that lead to a level-a table are the leading bits of the code. */
  ghost predicate Level(p: seq<bool>, l: nat, code: seq<bool>, x: nat, a: nat)
  {
    p <= code && x == Lsb(p) && |p| == Depth(l, a)
  }

  /** Table t has the link to table u where the leading bits of u say it should be. */
  ghost predicate Linked(tabs: seq<seq<Huft>>, pre: seq<seq<bool>>, jb: seq<nat>, l: nat, t: nat, u: nat)
    requires |pre| == |jb| == |tabs|
  {
    && t < u < |tabs| && |pre[u]| == |pre[t]| + l && pre[t] <= pre[u] && jb[t] >= l && jb[u] >= 1
    && var i := Lsb(pre[u][|pre[t]|..]);
       i < |tabs[t]| && tabs[t][i] == Entry(16 + jb[u], l, u)
  }

  ghost predicate Inv(cx: Ctx, st: St, pre: seq<seq<bool>>, jb: seq<nat>, code: seq<bool>)
    requires CtxOk(cx)
  {
    && Layout(st.tabs, pre, jb, cx.l) && WideLinks(st.tabs, jb, cx.l)
    && (forall t :: 0 <= t < |pre| ==> Fits(cx.c, cx.g, cx.l, pre[t], jb[t]))
    && Stack(st, pre, jb, cx.l, code)
    && AllZero(code, st.w + cx.l)
  }

  // ---- a new table

  ghost predicate AtCode(cx: Ctx, k: nat, r: nat, code: seq<bool>)
    requires CtxOk(cx)
  {
    IsCode(cx.c, cx.g, k, r) && code == CodeWord(cx.c, k, r)
  }

  /** The table on top of the stack can take a link for the code, at the given slot. */
  ghost predicate LinkHere(st: St, pre: seq<seq<bool>>, jb: seq<nat>, l: nat, code: seq<bool>, slot: nat)
  {
    && |pre| == |jb| == |st.tabs| && |st.us| > 0 && 0 <= st.w && st.w + l <= |code|
    && var top := st.us[|st.us| - 1];
       && top < |st.tabs| && slot < |st.tabs[top]| && jb[top] >= l
       && pre[top] == code[..st.w] && slot == Lsb(code[st.w..st.w + l])
  }

  /** A code too long for the table on top of the stack finds that table l bits wide. */
  lemma TopIsFull(cx: Ctx, st: St, pre: seq<seq<bool>>, jb: seq<nat>, k: nat, r: nat, code: seq<bool>)
    requires CtxOk(cx) && Inv(cx, st, pre, jb, code) && AtCode(cx, k, r, code)
    requires |st.us| > 0 && k > st.w + cx.l
    ensures var top := st.us[|st.us| - 1];
            0 <= st.w && top < |st.tabs| && pre[top] == code[..st.w] && jb[top] >= cx.l
  {
    var a := |st.us| - 1;
    var top := st.us[a];
    assert Level(pre[top], cx.l, code, st.xs[a], a);
    assert Fits(cx.c, cx.g, cx.l, pre[top], jb[top]);
  }

  /** Where the link to a new table goes: its slot is the next l bits of the code. */
  lemma LinkSlot(cx: Ctx, st: St, pre: seq<seq<bool>>, jb: seq<nat>, k: nat, r: nat, code: seq<bool>)
    requires CtxOk(cx) && Inv(cx, st, pre, jb, code) && AtCode(cx, k, r, code)
    requires |st.us| > 0 && k > st.w + cx.l
    ensures st.w >= 0 && LinkHere(st, pre, jb, cx.l, code, Shr(Lsb(code), st.w))
  {
    hide Shr, Fits, Stack, CodeWord;
    TopIsFull(cx, st, pre, jb, k, r, code);
    SlotValue(code, st.w, cx.l);
    Pow2Mono(cx.l, jb[st.us[|st.us| - 1]]);
  }

  lemma SlotValue(code: seq<bool>, w: nat, l: nat)
    requires w + l <= |code| && AllZero(code, w + l)
    ensures Shr(Lsb(code), w) == Lsb(code[w..w + l]) < Pow2(l)
  {
    LsbSplit(code, w);
    ZeroTail(code[w..], l);
    assert code[w..][..l] == code[w..w + l];
    LsbBound(code[w..w + l]);
  }

  lemma ZeroTail(code: seq<bool>, w: nat)
    requires w <= |code| && AllZero(code, w)
    ensures Lsb(code) == Lsb(code[..w])
  {
    var z := Zeros(|code| - w);
    assert code == code[..w] + z;
    LsbZeros(|code| - w);
    LsbConcat(code[..w], z);
  }

  /** The tables after adding one of j bits, linked from table top unless it is the first. */
  function AddTable(tabs: seq<seq<Huft>>, us: seq<nat>, slot: nat, j: nat, l: nat): (tabs': seq<seq<Huft>>)
    requires |us| > 0 ==> us[|us| - 1] < |tabs| && slot < |tabs[us[|us| - 1]]|
    ensures |tabs'| == |tabs| + 1
  {
    (if |us| == 0 then tabs
     else var top := us[|us| - 1]; tabs[top := tabs[top][slot := Entry(16 + j, l, |tabs|)]])
    + [seq(Pow2(j), _ => Unset)]
  }

  lemma AddTableLast(tabs: seq<seq<Huft>>, us: seq<nat>, slot: nat, j: nat, l: nat)
    requires |us| > 0 ==> us[|us| - 1] < |tabs| && slot < |tabs[us[|us| - 1]]|
    ensures AddTable(tabs, us, slot, j, l)[|tabs|] == seq(Pow2(j), _ => Unset)
  {
  }

  lemma NewTableLayout(tabs: seq<seq<Huft>>, us: seq<nat>, pre: seq<seq<bool>>, jb: seq<nat>, l: nat,
                       slot: nat, j: nat, p: seq<bool>)
    requires Layout(tabs, pre, jb, l) && WideLinks(tabs, jb, l)
    requires |us| == 0 ==> |tabs| == 0 && p == [] && j >= l
    requires |us| > 0 ==> us[|us| - 1] < |tabs| && slot < |tabs[us[|us| - 1]]|
    requires |us| > 0 ==> var top := us[|us| - 1];
               jb[top] >= l && pre[top] <= p && |p| == |pre[top]| + l && slot == Lsb(p[|pre[top]|..])
    ensures Layout(AddTable(tabs, us, slot, j, l), pre + [p], jb + [j], l)
    ensures WideLinks(AddTable(tabs, us, slot, j, l), jb + [j], l)
  {
    var tabs', pre', jb' := AddTable(tabs, us, slot, j, l), pre + [p], jb + [j];
    forall t, i | 0 <= t < |tabs'| && 0 <= i < |tabs'[t]| && IsLink(tabs'[t][i])
      ensures GoodLink(pre', jb', l, t, i, tabs'[t][i]) && jb'[t] >= l
    {
      if |us| == 0 || t != us[|us| - 1] || i != slot {
        assert GoodLink(pre, jb, l, t, i, tabs[t][i]);
      }
    }
  }

  lemma NewTableLinked(st: St, pre: seq<seq<bool>>, jb: seq<nat>, l: nat, code: seq<bool>, slot: nat, j: nat)
    requires l > 0 && |pre| == |jb| == |st.tabs| && Stack(st, pre, jb, l, code) && st.w + l <= |code| && j >= 1
    requires LinkHere(st, pre, jb, l, code, slot)
    ensures st.us[|st.us| - 1] < |st.tabs|
    ensures Linked(AddTable(st.tabs, st.us, slot, j, l), pre + [code[..st.w + l]], jb + [j], l, st.us[|st.us| - 1],
            |st.tabs|)
  {
    hide Lsb;
    var p, a := code[..st.w + l], |st.us| - 1;
    assert Level(pre[st.us[a]], l, code, st.xs[a], a);
    assert p[st.w..] == code[st.w..st.w + l];
  }

  lemma NewTableStack(st: St, pre: seq<seq<bool>>, jb: seq<nat>, l: nat, code: seq<bool>, slot: nat, j: nat)
    requires l > 0 && |pre| == |jb| == |st.tabs| && Stack(st, pre, jb, l, code) && st.w + l <= |code|
    requires |st.us| > 0 ==> LinkHere(st, pre, jb, l, code, slot)
    requires j >= 1
    ensures var p := code[..st.w + l];
            Stack(St(AddTable(st.tabs, st.us, slot, j, l), st.us + [|st.tabs|], st.xs + [Lsb(p)], st.w + l),
                  pre + [p], jb + [j], l, code)
  {
    hide AllZero, Lsb, Linked;
    var h, p := |st.us|, code[..st.w + l];
    var tabs', us', pre', jb' := AddTable(st.tabs, st.us, slot, j, l), st.us + [|st.tabs|], pre + [p], jb + [j];
    forall a | 0 < a < |us'|
      ensures us'[a - 1] < us'[a] && Linked(tabs', pre', jb', l, us'[a - 1], us'[a])
    {
      if a < h {
        StackIncreases(st, pre, jb, l, code, a - 1);
        LinkedKept(st.tabs, tabs', pre, jb, l, st.us[a - 1], st.us[a], p, j);
      } else {
        NewTableLinked(st, pre, jb, l, code, slot, j);
      }
    }
  }

  lemma LinkedKept(tabs: seq<seq<Huft>>, tabs': seq<seq<Huft>>, pre: seq<seq<bool>>, jb: seq<nat>, l: nat,
                   t: nat, u: nat, p: seq<bool>, j: nat)
    requires |pre| == |jb| == |tabs| == |tabs'| - 1 && Linked(tabs, pre, jb, l, t, u) && tabs'[t] == tabs[t]
    ensures Linked(tabs', pre + [p], jb + [j], l, t, u)
  {
  }

  lemma {:induction false} StackIncreases(st: St, pre: seq<seq<bool>>, jb: seq<nat>, l: nat, code: seq<bool>, a: nat)
    requires |pre| == |jb| == |st.tabs| && Stack(st, pre, jb, l, code) && a < |st.us| - 1
    ensures st.us[a] < st.us[|st.us| - 1]
    decreases |st.us| - a
  {
    if a + 1 < |st.us| - 1 {
      StackIncreases(st, pre, jb, l, code, a + 1);
    }
  }

  /** A string below the code that shares its first w bits differs from it in the next l
      bits, when the code is zero after those. */
  lemma BelowMisses(code: seq<bool>, bits: seq<bool>, w: nat, l: nat, width: nat)
    requires w + l <= |code| <= |bits| && AllZero(code, w + l) && Msb(bits[..|code|]) < Msb(code)
    requires code[..w] <= bits && l <= width && w + width <= |bits|
    ensures Lsb(bits[w..][..width]) != Lsb(code[w..w + l])
  {
    hide Lsb, Msb, AllZero;
    var p := code[..w + l];
    assert p[..w] == code[..w] && p[w..] == code[w..w + l] && code[..|code|] == code;
    if Lsb(bits[w..][..width]) == Lsb(p[w..]) {
      SlotExtends(p, w, bits, width);
      ZerosAreLeast(code, bits, w + l, |code|);
    }
  }

  /** A new table disturbs no string below the current code. */
  lemma NewTableKeepsWalk(tabs: seq<seq<Huft>>, us: seq<nat>, pre: seq<seq<bool>>, jb: seq<nat>, l: nat,
                          code: seq<bool>, slot: nat, j: nat, bits: seq<bool>)
    requires Layout(tabs, pre, jb, l) && WideLinks(tabs, jb, l)
    requires |us| > 0 && us[|us| - 1] < |tabs| && slot < |tabs[us[|us| - 1]]| && jb[us[|us| - 1]] >= l
    requires var w := |pre[us[|us| - 1]]|; 
             w + l < |code| && pre[us[|us| - 1]] <= code && AllZero(code, w + l) && slot == Lsb(code[w..w + l])
    requires |bits| >= |code| && Msb(bits[..|code|]) < Msb(code)
    ensures Walk(AddTable(tabs, us, slot, j, l), 0, l, bits) == Walk(tabs, 0, l, bits)
  {
    var tabs' := AddTable(tabs, us, slot, j, l);
    var top := us[|us| - 1];
    if Visits(pre, jb, l, top, bits) {
      assert pre[top] == code[..|pre[top]|];
      BelowMisses(code, bits, |pre[top]|, l, Width(jb, l, top));
    }
    WalkFrame(tabs, tabs', pre, jb, l, 0, bits);
    assert bits[0..] == bits;
  }

  lemma LayoutSizes(tabs: seq<seq<Huft>>, pre: seq<seq<bool>>, jb: seq<nat>, l: nat)
    requires Layout(tabs, pre, jb, l)
    ensures |pre| == |jb| == |tabs|
  {
  }

  lemma FirstOrNot(st: St, pre: seq<seq<bool>>, jb: seq<nat>, l: nat, code: seq<bool>)
    requires |pre| == |jb| == |st.tabs| && Stack(st, pre, jb, l, code)
    ensures st.w + l == Depth(l, |st.us|) && (|st.us| == 0 ==> |st.tabs| == 0 && st.w + l == 0)
  {
  }

  lemma NewTableInv(cx: Ctx, st: St, pre: seq<seq<bool>>, jb: seq<nat>, k: nat, r: nat, code: seq<bool>,
                    slot: nat, j: nat)
    requires CtxOk(cx) && Inv(cx, st, pre, jb, code) && AtCode(cx, k, r, code) && k > st.w + cx.l
    requires |st.us| > 0 ==> LinkHere(st, pre, jb, cx.l, code, slot)
    requires j >= 1 && Fits(cx.c, cx.g, cx.l, code[..st.w + cx.l], j)
    ensures var w := st.w + cx.l;
            Inv(cx, St(AddTable(st.tabs, st.us, slot, j, cx.l), st.us + [|st.tabs|], st.xs + [Lsb(code[..w])], w),
                pre + [code[..w]], jb + [j], code)
  {
    hide Layout, WideLinks, Stack, AddTable, CodeWord, Lsb, Linked;
    LayoutSizes(st.tabs, pre, jb, cx.l);
    FirstOrNot(st, pre, jb, cx.l, code);
    var p := code[..st.w + cx.l];
    if |st.us| > 0 {
      assert p[st.w..] == code[st.w..st.w + cx.l];
    } else {
      assert IsCode(cx.c, cx.g, cx.g, 0) && p <= CodeWord(cx.c, cx.g, 0);
    }
    NewTableLayout(st.tabs, st.us, pre, jb, cx.l, slot, j, p);
    NewTableStack(st, pre, jb, cx.l, code, slot, j);
  }

  lemma NewTableKeepsDone(cx: Ctx, st: St, pre: seq<seq<bool>>, jb: seq<nat>, k: nat, r: nat, code: seq<bool>,
                          slot: nat, j: nat)
    requires CtxOk(cx) && AtCode(cx, k, r, code) && k > st.w + cx.l && AllZero(code, st.w + cx.l)
    requires Layout(st.tabs, pre, jb, cx.l) && WideLinks(st.tabs, jb, cx.l)
    requires LinkHere(st, pre, jb, cx.l, code, slot) && Done(cx, st.tabs, k, r)
    ensures Done(cx, AddTable(st.tabs, st.us, slot, j, cx.l), k, r)
  {
    hide Walk, Want, AddTable, FirstCode, EndCode, WideLinks, CodeWord;
    forall bits: seq<bool>, k': nat, r': nat |
      Earlier(cx, k', r', k, r) && |bits| >= cx.g && CodeWord(cx.c, k', r') <= bits
      ensures Walk(AddTable(st.tabs, st.us, slot, j, cx.l), 0, cx.l, bits) == Want(cx, k', r')
    {
      assert Walk(st.tabs, 0, cx.l, bits) == Want(cx, k', r');
      NewTableKeepsOne(cx, st, pre, jb, k, r, code, slot, j, bits, k', r');
    }
  }

  lemma NewTableKeepsOne(cx: Ctx, st: St, pre: seq<seq<bool>>, jb: seq<nat>, k: nat, r: nat, code: seq<bool>,
                         slot: nat, j: nat, bits: seq<bool>, k': nat, r': nat)
    requires CtxOk(cx) && AtCode(cx, k, r, code) && k > st.w + cx.l && AllZero(code, st.w + cx.l)
    requires Layout(st.tabs, pre, jb, cx.l) && WideLinks(st.tabs, jb, cx.l)
    requires LinkHere(st, pre, jb, cx.l, code, slot)
    requires Earlier(cx, k', r', k, r) && |bits| >= cx.g && CodeWord(cx.c, k', r') <= bits
    ensures Walk(AddTable(st.tabs, st.us, slot, j, cx.l), 0, cx.l, bits) == Walk(st.tabs, 0, cx.l, bits)
  {
    hide Walk, AddTable, FirstCode, EndCode, Layout, WideLinks;
    CodeWordValue(cx.c, cx.g, k, r);
    EarlierIsBelow(cx.c, cx.g, bits, k', r', k, r);
    NewTableKeepsWalk(st.tabs, st.us, pre, jb, cx.l, code, slot, j, bits);
  }

  /** The all-zero code word is the first of all. */
  lemma NothingEarlier(cx: Ctx, k: nat, r: nat)
    requires CtxOk(cx) && IsCode(cx.c, cx.g, k, r) && AllZero(CodeWord(cx.c, k, r), 0)
    ensures forall k': nat, r': nat :: !Earlier(cx, k', r', k, r)
  {
    var code := CodeWord(cx.c, k, r);
    CodeWordValue(cx.c, cx.g, k, r);
    assert code == Zeros(k);
    LsbZeros(k);
    forall k': nat, r': nat | Earlier(cx, k', r', k, r)
      ensures false
    {
      var bits := CodeWord(cx.c, k', r') + Zeros(k);
      EarlierIsBelow(cx.c, cx.g, bits, k', r', k, r);
    }
  }

  // ---- the slots of a code

  /** The slots a code fills in the table on top of the stack are those of the strings
      that start with the code. */
  lemma FilledSlot(code: seq<bool>, bits: seq<bool>, w: nat, width: nat)
    requires w <= |code| && code[..w] <= bits && |code| - w <= width && w + width <= |bits|
    ensures Shr(Lsb(code), w) < Pow2(|code| - w)
    ensures Low(Lsb(bits[w..][..width]), |code| - w) == Shr(Lsb(code), w) <==> code <= bits
  {
    hide Lsb, Shr, Low, Pow2;
    var m, slot := |code| - w, bits[w..][..width];
    LsbSplit(code, w);
    LsbBound(code[w..]);
    LsbSplit(slot, m);
    assert slot[..m] == bits[w..|code|];
    assert code == code[..w] + code[w..] && bits[..|code|] == bits[..w] + slot[..m];
    if code <= bits {
      assert slot[..m] == code[w..];
    } else if Lsb(slot[..m]) == Lsb(code[w..]) {
      LsbInjective(slot[..m], code[w..]);
    }
  }

  /** tab with r in the slots of the code below its first w bits. */
  ghost predicate Filled(tab: seq<Huft>, tab': seq<Huft>, code: seq<bool>, w: nat, r: Huft)
    requires w <= |code|
  {
    |tab'| == |tab| && forall j :: 0 <= j < |tab| ==>
      tab'[j] == if Low(j, |code| - w) == Shr(Lsb(code), w) then r else tab[j]
  }

  lemma FillKeepsWalk(tabs: seq<seq<Huft>>, top: nat, tab': seq<Huft>, pre: seq<seq<bool>>, jb: seq<nat>, l: nat,
                      code: seq<bool>, r: Huft, bits: seq<bool>)
    requires Layout(tabs, pre, jb, l) && WideLinks(tabs, jb, l)
    requires top < |tabs| && pre[top] <= code && |code| - |pre[top]| <= Width(jb, l, top)
    requires Filled(tabs[top], tab', code, |pre[top]|, r)
    requires !(code <= bits)
    ensures Walk(tabs[top := tab'], 0, l, bits) == Walk(tabs, 0, l, bits)
  {
    var tabs' := tabs[top := tab'];
    if Visits(pre, jb, l, top, bits) {
      assert pre[top] == code[..|pre[top]|];
      FilledSlot(code, bits, |pre[top]|, Width(jb, l, top));
    }
    WalkFrame(tabs, tabs', pre, jb, l, 0, bits);
    assert bits[0..] == bits;
  }

  /** With narrow tables, the walk of a string that starts with the bits leading to a table
      of the stack gets to that table. */
  lemma {:induction false} WalkReaches(st: St, pre: seq<seq<bool>>, jb: seq<nat>, l: nat, g: nat, code: seq<bool>,
                                       bits: seq<bool>, a: nat)
    requires l > 0 && |pre| == |jb| == |st.tabs| && Stack(st, pre, jb, l, code) && Narrow(pre, jb, l, g) && l <= 16
    requires forall t :: 0 <= t < |pre| ==> |st.tabs[t]| == Pow2(jb[t])
    requires a < |st.us| && pre[st.us[a]] <= bits
    ensures var u := st.us[a]; var w := |pre[u]|;
            Walk(st.tabs, 0, l, bits) == Further(Walk(st.tabs, u, Width(jb, l, u), bits[w..]), w)
  {
    if a == 0 {
      assert Level(pre[0], l, code, st.xs[0], 0);
      assert bits[0..] == bits;
    } else {
      var t, u := st.us[a - 1], st.us[a];
      assert Linked(st.tabs, pre, jb, l, t, u);
      WalkReaches(st, pre, jb, l, g, code, bits, a - 1);
      LinkStep(st.tabs, pre, jb, l, t, u, bits);
    }
  }

  lemma LinkStep(tabs: seq<seq<Huft>>, pre: seq<seq<bool>>, jb: seq<nat>, l: nat, t: nat, u: nat, bits: seq<bool>)
    requires |pre| == |jb| == |tabs| && l > 0 && Linked(tabs, pre, jb, l, t, u)
    requires Width(jb, l, t) == l && jb[u] <= 16 && pre[u] <= bits
    ensures var (w, w') := (|pre[t]|, |pre[u]|);
            Further(Walk(tabs, t, l, bits[w..]), w) == Further(Walk(tabs, u, Width(jb, l, u), bits[w'..]), w')
  {
    var w, w' := |pre[t]|, |pre[u]|;
    assert bits[w..][..l] == pre[u][w..];
    assert bits[w..][l..] == bits[w'..];
  }

  /** The table on top of the stack is indexed by enough bits for the code. */
  lemma TopIsWide(cx: Ctx, st: St, pre: seq<seq<bool>>, jb: seq<nat>, k: nat, r: nat, code: seq<bool>)
    requires CtxOk(cx) && Inv(cx, st, pre, jb, code) && AtCode(cx, k, r, code)
    requires |st.us| > 0 && k <= st.w + cx.l
    ensures var top := st.us[|st.us| - 1];
            top < |pre| && |pre[top]| == st.w && pre[top] <= code && k - st.w <= Width(jb, cx.l, top)
  {
    var a := |st.us| - 1;
    assert Level(pre[st.us[a]], cx.l, code, st.xs[a], a);
    if st.us[a] == 0 {
      assert pre[0] == [];
    }
  }
}
