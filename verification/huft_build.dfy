/** huft_build: lookup tables for a set of code lengths (inflate.c). */
module HuftBuild {
  import opened Bits
  import opened Canonical
  import opened HuftTables
  import opened HuftCodes
  import opened HuftState
  import opened HuftDefect

  /** Make one more table for the code and link it into the last one. */
  method NewTable(cx: Ctx, st: St, k: nat, a: nat, i: nat, ghost r: nat, ghost code: seq<bool>,
                  ghost pre: seq<seq<bool>>, ghost jb: seq<nat>, ghost doom: Option<Doom>)
    returns (st': St, ghost pre': seq<seq<bool>>, ghost jb': seq<nat>, ghost doom': Option<Doom>)
    requires CtxOk(cx) && Inv(cx, st, pre, jb, code) && AtCode(cx, k, r, code)
    requires i == Lsb(code) && a + 1 == cx.c[k] - r && k > st.w + cx.l
    requires Midway(cx, st.tabs, pre, jb, k, r, st.w, doom)
    ensures Inv(cx, st', pre', jb', code) && st'.w == st.w + cx.l && |st'.us| == |st.us| + 1
    ensures |st'.tabs| == |st.tabs| + 1
    ensures Midway(cx, st'.tabs, pre', jb', k, r, st'.w, doom')
  {
    hide Walk, Want, AddTable, Shr, Midway;
    var l := cx.l;
    var h, w := |st.us|, st.w + l;
    var j := TableBits(cx.c, cx.g, l, k, r, w, a);
    var slot := 0;
    if h > 0 {
      LinkSlot(cx, st, pre, jb, k, r, code);
      slot := Shr(i, w - l);
    }
    ZeroTail(code, w);
    NewTableInv(cx, st, pre, jb, k, r, code, slot, j);
    st' := St(AddTable(st.tabs, st.us, slot, j, l), st.us + [|st.tabs|], st.xs + [i], w);
    pre', jb' := pre + [code[..w]], jb + [j];
    doom' := TableHealth(cx, st, st', pre, jb, k, r, code, slot, j, doom);
  }

  // ---- the entries of a code

  /** Write r at every f-th position from lo on. */
  method FillEntries(tab: seq<Huft>, lo: nat, f: nat, r: Huft) returns (tab': seq<Huft>)
    requires lo < f
    ensures |tab'| == |tab|
    ensures forall j :: 0 <= j < |tab| ==> tab'[j] == if j % f == lo then r else tab[j]
  {
    tab' := tab;
    var j := lo;
    ghost var q := 0;
    while j < |tab|
      invariant |tab'| == |tab| && j == lo + q * f && q >= 0
      invariant forall t :: 0 <= t < |tab| ==> tab'[t] == if t < j && t % f == lo then r else tab[t]
      decreases |tab| + f - j
    {
      tab' := tab'[j := r];
      NextMultiple(lo, f, q, j);
      j := j + f;
      q := q + 1;
    }
  }

  /** Between one position of a stride and the next there is no other. */
  lemma NextMultiple(lo: nat, f: nat, q: nat, j: nat)
    requires lo < f && j == lo + q * f
    ensures j % f == lo && j + f == lo + (q + 1) * f
    ensures forall t :: j < t < j + f ==> t % f != lo
  {
    DivModUnique(j, f, q, lo);
    forall t | j < t < j + f
      ensures t % f != lo
    {
      if t - j + lo < f {
        DivModUnique(t, f, q, t - j + lo);
      } else {
        DivModUnique(t, f, q + 1, t - j + lo - f);
      }
    }
  }

  lemma PlaceInv(cx: Ctx, st: St, pre: seq<seq<bool>>, jb: seq<nat>, code: seq<bool>, tab': seq<Huft>, r: Huft)
    requires CtxOk(cx) && Inv(cx, st, pre, jb, code) && |st.us| > 0 && 0 <= st.w <= |code|
    requires Filled(st.tabs[st.us[|st.us| - 1]], tab', code, st.w, r) && !IsLink(r)
    ensures Inv(cx, st.(tabs := st.tabs[st.us[|st.us| - 1] := tab']), pre, jb, code)
  {
    var top := st.us[|st.us| - 1];
    var tabs' := st.tabs[top := tab'];
    forall t, i | 0 <= t < |tabs'| && 0 <= i < |tabs'[t]| && IsLink(tabs'[t][i])
      ensures tabs'[t][i] == st.tabs[t][i]
    {
    }
    forall a | 0 < a < |st.us|
      ensures Linked(tabs', pre, jb, cx.l, st.us[a - 1], st.us[a])
    {
      StackIncreases(st, pre, jb, cx.l, code, a - 1);
      assert Linked(st.tabs, pre, jb, cx.l, st.us[a - 1], st.us[a]);
    }
  }

  /** What is wanted of a code, in terms of its entry in a table at depth w. */
  lemma WantHere(cx: Ctx, k: nat, r: nat, w: nat)
    requires CtxOk(cx) && w <= k <= BMAX
    ensures var h := EntryFor(cx, Shorter(cx.c, k) + r, k - w);
            && (h.Entry? ==> h.b == k - w)
            && Want(cx, k, r) == if h.Unset? then Undefined else Hit(h.e, h.v, h.b + w)
  {
  }

  /** A string that starts with the code finds the entry in its own table. */
  lemma TopFound(tabs: seq<seq<Huft>>, top: nat, width: nat, tab: seq<Huft>, code: seq<bool>, w: nat, h: Huft,
                 bits: seq<bool>)
    requires top < |tabs| && w <= |code| && Filled(tab, tabs[top], code, w, h) && !IsLink(h)
    requires code <= bits && |code| - w <= width && w + width <= |bits| && Lsb(bits[w..][..width]) < |tabs[top]|
    requires h.Entry? ==> h.b <= width
    ensures Walk(tabs, top, width, bits[w..]) == if h.Unset? then Undefined else Hit(h.e, h.v, h.b)
  {
    hide Shr, Low, Walk, Lsb;
    FilledSlot(code, bits, w, width);
    WalkEnds(tabs, top, width, bits[w..], h);
  }

  /** And it finds it from the first table on. */
  lemma PlacedIsFound(cx: Ctx, st: St, pre: seq<seq<bool>>, jb: seq<nat>, k: nat, r: nat, code: seq<bool>,
                      tab: seq<Huft>, bits: seq<bool>)
    requires CtxOk(cx) && Inv(cx, st, pre, jb, code) && AtCode(cx, k, r, code) && Narrow(pre, jb, cx.l, cx.g)
    requires |st.us| > 0 && 0 <= st.w <= k <= st.w + cx.l
    requires Filled(tab, st.tabs[st.us[|st.us| - 1]], code, st.w, EntryFor(cx, Shorter(cx.c, k) + r, k - st.w))
    requires |bits| >= cx.g && code <= bits
    ensures Walk(st.tabs, 0, cx.l, bits) == Want(cx, k, r)
  {
    hide Walk, CodeWord, Lsb, AllZero, EndCode, FirstCode, Shorter, EntryFor, Want, Fits, GoodLink, Level, Linked,
      Filled;
    WantHere(cx, k, r, st.w);
    var l, top := cx.l, st.us[|st.us| - 1];
    TopIsWide(cx, st, pre, jb, k, r, code);
    WalkReaches(st, pre, jb, l, cx.g, code, bits, |st.us| - 1);
    assert Visits(pre, jb, l, top, bits);
    SlotInTable(st.tabs, pre, jb, l, top, bits);
    TopFound(st.tabs, top, Width(jb, l, top), tab, code, st.w, EntryFor(cx, Shorter(cx.c, k) + r, k - st.w), bits);
  }

  /** Place the entry of the code in the table on top of the stack. */
  method Place(cx: Ctx, st: St, k: nat, i: nat, p: nat, ghost r: nat, ghost code: seq<bool>,
               ghost pre: seq<seq<bool>>, ghost jb: seq<nat>, ghost doom: Option<Doom>)
    returns (st': St)
    requires CtxOk(cx) && Inv(cx, st, pre, jb, code) && AtCode(cx, k, r, code)
    requires i == Lsb(code) && |st.us| > 0 && 0 <= st.w < k <= st.w + cx.l
    requires p == (if Shorter(cx.c, k) + r < |cx.vs| then Shorter(cx.c, k) + r else |cx.vs|)
    requires Midway(cx, st.tabs, pre, jb, k, r, st.w, doom)
    ensures st'.us == st.us && st'.xs == st.xs && st'.w == st.w && Inv(cx, st', pre, jb, code)
    ensures |st'.tabs| == |st.tabs|
    ensures Started(cx, pre, k, r + 1, -1) && Health(cx, st'.tabs, pre, jb, k, r + 1, doom)
  {
    hide Walk, Want, Shr, Midway, Health, Started;
    TopIsWide(cx, st, pre, jb, k, r, code);
    var top, w := st.us[|st.us| - 1], st.w;
    assert pre[top] == code[..w];
    assert Shr(Lsb(code), w) < Pow2(k - w) by {
      FilledSlot(code, code + Zeros(Width(jb, cx.l, top)), w, Width(jb, cx.l, top));
    }
    var ent := EntryFor(cx, p, k - w);
    var tab' := FillEntries(st.tabs[top], Shr(i, w), Pow2(k - w), ent);
    PlaceInv(cx, st, pre, jb, code, tab', ent);
    st' := st.(tabs := st.tabs[top := tab']);
    PlaceHealth(cx, st, st', pre, jb, k, r, code, doom);
  }

  lemma PlaceHealth(cx: Ctx, st: St, st': St, pre: seq<seq<bool>>, jb: seq<nat>, k: nat, r: nat, code: seq<bool>,
                    doom: Option<Doom>)
    requires CtxOk(cx) && Inv(cx, st, pre, jb, code) && Inv(cx, st', pre, jb, code) && AtCode(cx, k, r, code)
    requires |st.us| > 0 && 0 <= st.w <= k <= st.w + cx.l
    requires var top := st.us[|st.us| - 1];
             && top < |st'.tabs| && st' == st.(tabs := st.tabs[top := st'.tabs[top]])
             && Filled(st.tabs[top], st'.tabs[top], code, st.w, EntryFor(cx, Shorter(cx.c, k) + r, k - st.w))
    requires Midway(cx, st.tabs, pre, jb, k, r, st.w, doom)
    ensures Started(cx, pre, k, r + 1, -1) && Health(cx, st'.tabs, pre, jb, k, r + 1, doom)
  {
    hide CodeWord, Filled, Done, Dead, RoomyUpTo, Sound, Started, EntryFor, Layout, WideLinks, Fits, AllZero, Narrow,
      Lsb;
    StartedNext(cx, pre, k, r, st.w);
    if doom.None? {
      PlaceDone(cx, st, st', pre, jb, k, r, code);
      RoomyAll(cx, k, r, |st.us|);
      assert forall k': nat, r': nat :: Earlier(cx, k', r', k, r + 1) ==>
        Earlier(cx, k', r', k, r) || (k' == k && r' == r);
    } else {
      TopIsWide(cx, st, pre, jb, k, r, code);
      forall u | 0 <= u < |pre|
        ensures HasLonger(cx.c, cx.g, pre[u])
      {
        StartedLonger(cx, pre, k, r, st.w, u);
      }
      var top := st.us[|st.us| - 1];
      LayoutSizes(st.tabs, pre, jb, cx.l);
      DeadAfterPlace(cx, st.tabs, pre, jb, top, st'.tabs[top], k, r, code,
                     EntryFor(cx, Shorter(cx.c, k) + r, k - st.w), doom.value);
    }
  }

  lemma PlaceDone(cx: Ctx, st: St, st': St, pre: seq<seq<bool>>, jb: seq<nat>, k: nat, r: nat, code: seq<bool>)
    requires CtxOk(cx) && Inv(cx, st, pre, jb, code) && Inv(cx, st', pre, jb, code) && AtCode(cx, k, r, code)
    requires |st.us| > 0 && 0 <= st.w <= k <= st.w + cx.l && Narrow(pre, jb, cx.l, cx.g)
    requires var top := st.us[|st.us| - 1];
             && st' == st.(tabs := st.tabs[top := st'.tabs[top]])
             && Filled(st.tabs[top], st'.tabs[top], code, st.w, EntryFor(cx, Shorter(cx.c, k) + r, k - st.w))
    requires Done(cx, st.tabs, k, r)
    ensures Done(cx, st'.tabs, k, r + 1)
  {
    hide Walk, Want, Filled, CodeWord, EntryFor, Fits, WideLinks, Stack, Lsb, AllZero;
    var top := st.us[|st.us| - 1];
    TopIsWide(cx, st, pre, jb, k, r, code);
    forall bits: seq<bool>, k': nat, r': nat |
      Earlier(cx, k', r', k, r + 1) && |bits| >= cx.g && CodeWord(cx.c, k', r') <= bits
      ensures Walk(st'.tabs, 0, cx.l, bits) == Want(cx, k', r')
    {
      if k' == k && r' == r {
        PlacedIsFound(cx, st', pre, jb, k, r, code, st.tabs[top], bits);
      } else {
        assert Walk(st.tabs, 0, cx.l, bits) == Want(cx, k', r');
        if code <= bits {
          PrefixFree(cx.c, cx.g, bits, k, r, k', r');
        }
        TopIsWide(cx, st, pre, jb, k, r, code);
        FillKeepsWalk(st.tabs, top, st'.tabs[top], pre, jb, cx.l, code,
                      EntryFor(cx, Shorter(cx.c, k) + r, k - st.w), bits);
      }
    }
  }

  // ---- from one code to the next

  /** The first m levels of a stack. */
  function Popped(st: St, m: nat, w: int): St
    requires m <= |st.us| && m <= |st.xs|
  {
    St(st.tabs, st.us[..m], st.xs[..m], w)
  }

  lemma PoppedInv(cx: Ctx, st: St, pre: seq<seq<bool>>, jb: seq<nat>, old_: seq<bool>, code: seq<bool>, m: nat, w: nat)
    requires CtxOk(cx) && Inv(cx, st, pre, jb, old_) && 1 <= m <= |st.us| && w + cx.l == Depth(cx.l, m)
    requires |code| == |old_| >= w && code[..w] == old_[..w] && AllZero(code, w + cx.l)
    ensures Inv(cx, Popped(st, m, w), pre, jb, code)
  {
    forall a | 0 <= a < m
      ensures Level(pre[st.us[a]], cx.l, code, st.xs[a], a)
    {
      assert Level(pre[st.us[a]], cx.l, old_, st.xs[a], a);
      DepthMono(cx.l, a, m - 1);
      var p := pre[st.us[a]];
      assert p == old_[..w][..|p|] && code[..w][..|p|] == code[..|p|];
    }
  }

  /** Back up over finished tables. */
  method Backup(cx: Ctx, st: St, i: nat, ghost old_: seq<bool>, ghost pre: seq<seq<bool>>, ghost jb: seq<nat>)
    returns (st': St)
    requires CtxOk(cx) && Inv(cx, st, pre, jb, old_)
    requires |st.us| > 0 && 0 <= st.w < |old_| <= st.w + cx.l && i == Lsb(Succ(old_))
    ensures Inv(cx, st', pre, jb, Succ(old_)) && st'.tabs == st.tabs && st'.w <= st.w
  {
    hide Low, Layout, WideLinks, Fits;
    ghost var code := Succ(old_);
    var m, w := |st.us|, st.w;
    while Low(i, w) != st.xs[m - 1]
      invariant 1 <= m <= |st.us| && 0 <= w <= st.w && w + cx.l == Depth(cx.l, m) && AllZero(code, w + cx.l)
      decreases m
    {
      assert Level(pre[st.us[m - 1]], cx.l, old_, st.xs[m - 1], m - 1);
      assert pre[st.us[m - 1]] == old_[..w];
      LsbSplit(code, w);
      SuccClears(old_, w);
      assert code[..0] == old_[..0];
      m := m - 1;
      w := w - cx.l;
    }
    assert Level(pre[st.us[m - 1]], cx.l, old_, st.xs[m - 1], m - 1);
    assert pre[st.us[m - 1]] == old_[..w];
    LsbSplit(code, w);
    LsbInjective(code[..w], old_[..w]);
    PoppedInv(cx, st, pre, jb, old_, code, m, w);
    st' := Popped(st, m, w);
  }

  /** Where the builder stands before the r-th code of length k. */
  ghost predicate At(cx: Ctx, st: St, pre: seq<seq<bool>>, jb: seq<nat>, k: nat, r: nat, i: nat, p: nat,
                     code: seq<bool>,
                     doom: Option<Doom>)
    requires CtxOk(cx)
  {
    && 1 <= k <= cx.g && r <= cx.c[k] && st.w < k
    && Inv(cx, st, pre, jb, code) && |code| == k && i == Lsb(code)
    && (FirstCode(cx.c, k) + r < Pow2(k) ==> code == CodeWord(cx.c, k, r))
    && p == (if Shorter(cx.c, k) + r < |cx.vs| then Shorter(cx.c, k) + r else |cx.vs|)
    && Started(cx, pre, k, r, -1) && Health(cx, st.tabs, pre, jb, k, r, doom)
    && (cx.l == cx.g ==> |st.tabs| <= 1)
  }

  lemma {:induction false} SuccIsNext(c: Counts, g: nat, k: nat, r: nat)
    requires IsCode(c, g, k, r) && EndCode(c, g) <= Pow2(g) && FirstCode(c, k) + r + 1 < Pow2(k)
    ensures Succ(CodeWord(c, k, r)) == CodeWord(c, k, r + 1)
  {
    hide FirstCode, EndCode, Succ, Msb;
    CodeWordValue(c, g, k, r);
    SuccAdds(CodeWord(c, k, r));
    ToMsbOfMsb(Succ(CodeWord(c, k, r)));
  }

  /** Make the tables and the entry for one code, and move on to the next. */
  method AddCode(cx: Ctx, st: St, k: nat, a: nat, i: nat, p: nat, ghost code: seq<bool>,
                 ghost pre: seq<seq<bool>>, ghost jb: seq<nat>, ghost doom: Option<Doom>)
    returns (st': St, i': nat, p': nat, ghost code': seq<bool>, ghost pre': seq<seq<bool>>, ghost jb': seq<nat>,
             ghost doom': Option<Doom>)
    requires CtxOk(cx) && 1 <= k <= cx.g && a < cx.c[k]
    requires At(cx, st, pre, jb, k, cx.c[k] - 1 - a, i, p, code, doom)
    ensures At(cx, st', pre', jb', k, cx.c[k] - a, i', p', code', doom')
  {
    hide Layout, WideLinks, Fits, CodeWord, Lsb, Health, Midway, Started;
    ghost var r := cx.c[k] - 1 - a;
    CodeWordValue(cx.c, cx.g, k, r);
    st', pre', jb', doom' := st, pre, jb, doom;
    MidwayAtFirst(cx, st, pre, jb, k, r, code, doom);
    while k > st'.w + cx.l
      invariant Inv(cx, st', pre', jb', code) && st'.w < k
      invariant cx.l == cx.g ==> |st'.tabs| <= 1
      invariant Midway(cx, st'.tabs, pre', jb', k, r, st'.w, doom')
      decreases k - st'.w
    {
      st', pre', jb', doom' := NewTable(cx, st', k, a, i, r, code, pre', jb', doom');
    }
    st' := Place(cx, st', k, i, p, r, code, pre', jb', doom');
    p' := if p < |cx.vs| then p + 1 else p;
    i' := BackIncrement(i, k, code);
    code' := Succ(code);
    st' := Backup(cx, st', i', code, pre', jb');
    if FirstCode(cx.c, k) + r + 1 < Pow2(k) {
      SuccIsNext(cx.c, cx.g, k, r);
    }
  }

  lemma MidwayAtFirst(cx: Ctx, st: St, pre: seq<seq<bool>>, jb: seq<nat>, k: nat, r: nat, code: seq<bool>,
                      doom: Option<Doom>)
    requires CtxOk(cx) && Inv(cx, st, pre, jb, code) && AtCode(cx, k, r, code)
    requires Started(cx, pre, k, r, -1) && Health(cx, st.tabs, pre, jb, k, r, doom)
    ensures Midway(cx, st.tabs, pre, jb, k, r, st.w, doom)
  {
    hide CodeWord, Health, RoomyUpTo, Inv;
    OpenedBefore(cx, st, pre, jb, k, r, code);
    forall u | 0 <= u < |pre|
      ensures StartedAt(cx, pre[u], k, r, st.w)
    {
      assert StartedAt(cx, pre[u], k, r, -1);
    }
  }

  lemma {:induction false} NoneShorter(c: Counts, k: nat)
    requires 1 <= k <= BMAX && forall t :: 1 <= t < k ==> c[t] == 0
    ensures FirstCode(c, k) == 0 && Shorter(c, k) == 0
  {
    if k > 1 {
      NoneShorter(c, k - 1);
    }
  }

  lemma {:induction false} ToMsbZero(k: nat)
    ensures ToMsb(0, k) == Zeros(k)
  {
    if k > 0 {
      ToMsbZero(k - 1);
    }
  }

  /** Before the longest length the code space is never used up. */
  lemma NotFullEarly(c: Counts, g: nat, k: nat)
    requires Fills(c, g) && c[g] > 0 && 1 <= k < g
    ensures EndCode(c, k) < Pow2(k)
  {
    FirstIsTwiceEnd(c, g);
    CodeSpaceBound(c, k, g);
    if EndCode(c, k) == Pow2(k) {
      StaysFull(c, k, g - 1);
    }
  }

  lemma {:induction false} StaysFull(c: Counts, k: nat, t: nat)
    requires k <= t <= BMAX && EndCode(c, k) >= Pow2(k)
    ensures EndCode(c, t) >= Pow2(t)
    decreases t
  {
    if k < t {
      StaysFull(c, k, t - 1);
      FirstIsTwiceEnd(c, t);
    }
  }

  /** The next length starts with the code word that ends the last one, made one bit longer. */
  lemma NextWord(cx: Ctx, k: nat)
    requires CtxOk(cx) && 1 <= k < cx.g
    ensures CodeWord(cx.c, k, cx.c[k]) + [false] == CodeWord(cx.c, k + 1, 0)
  {
    var word := CodeWord(cx.c, k, cx.c[k]);
    NotFullEarly(cx.c, cx.g, k);
    FirstIsTwiceEnd(cx.c, k + 1);
    MsbOfToMsb(FirstCode(cx.c, k) + cx.c[k], k);
    assert (word + [false])[..k] == word;
    ToMsbOfMsb(word + [false]);
  }

  lemma LongerInv(cx: Ctx, st: St, pre: seq<seq<bool>>, jb: seq<nat>, code: seq<bool>)
    requires CtxOk(cx) && Inv(cx, st, pre, jb, code)
    ensures Inv(cx, st, pre, jb, code + [false])
  {
    hide Layout, WideLinks, Fits, Linked;
    forall a | 0 <= a < |st.us|
      ensures Level(pre[st.us[a]], cx.l, code + [false], st.xs[a], a)
    {
      assert Level(pre[st.us[a]], cx.l, code, st.xs[a], a);
    }
  }

  lemma NextLength(cx: Ctx, st: St, pre: seq<seq<bool>>, jb: seq<nat>, k: nat, i: nat, p: nat, code: seq<bool>,
                   doom: Option<Doom>)
    requires CtxOk(cx) && k < cx.g && k >= 1 && At(cx, st, pre, jb, k, cx.c[k], i, p, code, doom)
    ensures At(cx, st, pre, jb, k + 1, 0, i, p, code + [false], doom)
  {
    hide Inv, Health, Started, CodeWord, Lsb;
    LsbConcat(code, [false]);
    assert Lsb([false]) == 0 by { LsbZeros(1); assert Zeros(1) == [false]; }
    NotFullEarly(cx.c, cx.g, k);
    NextWord(cx, k);
    LongerInv(cx, st, pre, jb, code);
    SameBefore(cx, st.tabs, pre, jb, k, doom);
  }

  ghost predicate NoLinks(tabs: seq<seq<Huft>>)
  {
    forall t, i :: 0 <= t < |tabs| && 0 <= i < |tabs[t]| ==> !IsLink(tabs[t][i])
  }

  lemma AtStart(cx: Ctx, k: nat, w: int)
    requires CtxOk(cx) && 1 <= k <= cx.g && w == -(cx.l as int) && forall t :: 1 <= t < k ==> cx.c[t] == 0
    ensures At(cx, St([], [], [], w), [], [], k, 0, 0, 0, Zeros(k), None)
  {
    NoneShorter(cx.c, k);
    ToMsbZero(k);
    LsbZeros(k);
  }

  /** The table loop: go through the codes in order of length and value. */
  method BuildTables(cx: Ctx, kmin: nat) returns (tabs: seq<seq<Huft>>)
    requires CtxOk(cx) && 1 <= kmin <= cx.g && forall t :: 1 <= t < kmin ==> cx.c[t] == 0
    ensures Sound(cx.c, cx.g, cx.l) ==> Done(cx, tabs, cx.g, cx.c[cx.g])
    ensures !Sound(cx.c, cx.g, cx.l) ==>
            exists bits: seq<bool> :: |bits| >= cx.g && Walk(tabs, 0, cx.l, bits) == Undefined
    ensures cx.l == cx.g ==> NoLinks(tabs)
  {
    hide CodeWord, Done, Sound, Stack, Fits, Narrow, Health, Started, Walk;
    var w: int := cx.l;
    var st, i, p, k := St([], [], [], -w), 0, 0, kmin;
    ghost var code, pre, jb, doom := Zeros(k), [], [], None;
    AtStart(cx, k, -w);
    while true
      invariant 1 <= k <= cx.g && At(cx, st, pre, jb, k, 0, i, p, code, doom)
      decreases cx.g - k
    {
      var a := cx.c[k];
      while a > 0
        invariant a <= cx.c[k] && At(cx, st, pre, jb, k, cx.c[k] - a, i, p, code, doom)
      {
        a := a - 1;
        st, i, p, code, pre, jb, doom := AddCode(cx, st, k, a, i, p, code, pre, jb, doom);
      }
      if k == cx.g {
        break;
      }
      NextLength(cx, st, pre, jb, k, i, p, code, doom);
      code := code + [false];
      k := k + 1;
    }
    tabs := st.tabs;
    Verdict(cx, tabs, pre, jb, doom);
  }

  /** At the end the tables decode everything, or there is a string they leave undefined. */
  lemma Verdict(cx: Ctx, tabs: seq<seq<Huft>>, pre: seq<seq<bool>>, jb: seq<nat>, doom: Option<Doom>)
    requires CtxOk(cx) && Health(cx, tabs, pre, jb, cx.g, cx.c[cx.g], doom)
    ensures Sound(cx.c, cx.g, cx.l) ==> Done(cx, tabs, cx.g, cx.c[cx.g])
    ensures !Sound(cx.c, cx.g, cx.l) ==>
            exists bits: seq<bool> :: |bits| >= cx.g && Walk(tabs, 0, cx.l, bits) == Undefined
  {
    hide CodeWord, Walk, Done, Sound, Dead, Narrow, RoomyBefore;
    RoomyIsSound(cx);
    if doom.Some? {
      DeadWalk(cx, tabs, pre, jb, doom.value);
    }
  }
}
