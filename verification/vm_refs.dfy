/** References between address spaces, mappings and memory objects (vm_types.h): what the
    counts must be at every step. Objects, address spaces and mappings are named by
    numbers. */
module VmRefs {

  type Oid = nat
  type Aid = nat
  type Mid = nat

  datatype Life = Normal | Deletion

  datatype Kind = Hole | Mapped(shown: Oid)

  /** A universal page, and the physical page it is resident in. */
  datatype Upage = Upage(upn: nat, resident: bool, ppn: nat)

  datatype Obj = Obj(life: Life, ref: int, mappings: seq<Mid>, upages: seq<Upage>, size: nat)

  datatype Space = Space(life: Life, ref: int, mappings: seq<Mid>)

  datatype Mapping = Mapping(space: Aid, kind: Kind)

  type Objs = map<Oid, Obj>
  type Spaces = map<Aid, Space>
  type Maps = map<Mid, Mapping>
  type Handles = map<nat, nat>

  ghost predicate NoDup(s: seq<nat>)
  {
    forall i, j :: 0 <= i < j < |s| ==> s[i] != s[j]
  }

  /** Mapping m shows object o, unless it is being torn down. */
  ghost predicate Shows(maps: Maps, dying: set<Mid>, m: Mid, o: Oid)
  {
    m in maps && m !in dying && maps[m].kind == Mapped(o)
  }

  /** The count is the handles out plus the live mappings, which are those listed; an
      object whose deletion was requested still has some user. */
  ghost predicate ObjOk(o: Oid, x: Obj, maps: Maps, dying: set<Mid>, handles: nat)
  {
    && x.ref == handles + |x.mappings| && NoDup(x.mappings)
    && (forall m :: m in x.mappings <==> Shows(maps, dying, m, o))
    && (x.life == Deletion ==> x.ref > 0)
  }

  ghost predicate SpaceOk(a: Aid, x: Space, maps: Maps, handles: nat)
  {
    && x.ref == handles && NoDup(x.mappings)
    && (forall m :: m in x.mappings <==> m in maps && maps[m].space == a)
    && (x.life == Deletion ==> x.ref > 0)
  }

  ghost predicate ObjsOk(objs: Objs, maps: Maps, dying: set<Mid>, handles: Handles)
  {
    && handles.Keys == objs.Keys
    && (forall o :: o in objs ==> ObjOk(o, objs[o], maps, dying, handles[o]))
    && forall m :: m in maps && m !in dying && maps[m].kind.Mapped? ==> maps[m].kind.shown in objs
  }

  ghost predicate SpacesOk(spaces: Spaces, maps: Maps, handles: Handles)
  {
    && handles.Keys == spaces.Keys
    && (forall a :: a in spaces ==> SpaceOk(a, spaces[a], maps, handles[a]))
    && forall m :: m in maps ==> maps[m].space in spaces
  }

  // ---- steps on objects

  /** One object changes in its own record only. */
  lemma ObjChanged(objs: Objs, maps: Maps, dying: set<Mid>, handles: Handles, o: Oid, x: Obj, h: nat)
    requires ObjsOk(objs, maps, dying, handles) && ObjOk(o, x, maps, dying, h)
    requires o in objs || forall m :: !Shows(maps, dying, m, o)
    ensures ObjsOk(objs[o := x], maps, dying, handles[o := h])
  {
  }

  /** An object without users goes. */
  lemma ObjGone(objs: Objs, maps: Maps, dying: set<Mid>, handles: Handles, o: Oid)
    requires ObjsOk(objs, maps, dying, handles) && o in objs && forall m :: !Shows(maps, dying, m, o)
    ensures ObjsOk(objs - {o}, maps, dying, handles - {o})
  {
    forall m | m in maps && m !in dying && maps[m].kind.Mapped? ensures maps[m].kind.shown in objs - {o} {
      assert Shows(maps, dying, m, maps[m].kind.shown);
    }
  }

  /** A handle turns into a mapping. */
  lemma Mounted(objs: Objs, maps: Maps, dying: set<Mid>, handles: Handles, m: Mid, o: Oid, r: Mapping)
    requires ObjsOk(objs, maps, dying, handles) && o in objs && handles[o] > 0 && m !in dying && r.kind == Mapped(o)
    requires forall p :: !Shows(maps, dying, m, p)
    ensures ObjsOk(objs[o := objs[o].(mappings := objs[o].mappings + [m])], maps[m := r], dying,
            handles[o := handles[o] - 1])
  {
    var x, maps' := objs[o], maps[m := r];
    assert m !in x.mappings;
    forall p | p in objs && p != o ensures ObjOk(p, objs[p], maps', dying, handles[p]) {
      assert forall n :: Shows(maps', dying, n, p) <==> Shows(maps, dying, n, p);
    }
    assert forall n :: Shows(maps', dying, n, o) <==> Shows(maps, dying, n, o) || n == m;
  }

  function Without(s: seq<nat>, x: nat): seq<nat>
  {
    if s == [] then [] else if s[0] == x then s[1..] else [s[0]] + Without(s[1..], x)
  }

  lemma {:induction false} WithoutHas(s: seq<nat>, x: nat)
    requires NoDup(s)
    ensures NoDup(Without(s, x)) && forall y :: y in Without(s, x) <==> y in s && y != x
    ensures x in s ==> |Without(s, x)| == |s| - 1
  {
    if s != [] {
      assert forall i :: 0 <= i < |s[1..]| ==> s[1..][i] == s[i + 1];
      assert forall y :: y in s <==> y == s[0] || y in s[1..];
      WithoutHas(s[1..], x);
      if s[0] != x {
        assert s[0] !in s[1..];
      }
    }
  }

  /** A mapping taken off its object's list leaves its reference as a handle. */
  lemma Unmounted(objs: Objs, maps: Maps, dying: set<Mid>, handles: Handles, m: Mid, o: Oid)
    requires ObjsOk(objs, maps, dying, handles) && Shows(maps, dying, m, o) && o in objs
    ensures m in objs[o].mappings
    ensures ObjsOk(objs[o := objs[o].(mappings := Without(objs[o].mappings, m))], maps, dying + {m},
            handles[o := handles[o] + 1])
  {
    var x, dying' := objs[o], dying + {m};
    WithoutHas(x.mappings, m);
    forall p | p in objs && p != o ensures ObjOk(p, objs[p], maps, dying', handles[p]) {
      assert forall n :: Shows(maps, dying', n, p) <==> Shows(maps, dying, n, p);
    }
    assert forall n :: Shows(maps, dying', n, o) <==> Shows(maps, dying, n, o) && n != m;
  }

  /** Mapping m of object o is gone with its reference, and with it o if its deletion was
      requested and this was the last reference. */
  ghost predicate OneLess(objs: Objs, objs': Objs, handles: Handles, handles': Handles, o: Oid, m: Mid)
  {
    && o in objs
    && if objs[o].life == Deletion && objs[o].ref == 1 then objs' == objs - {o} && handles' == handles - {o}
       else
         && objs' == objs[o := objs[o].(ref := objs[o].ref - 1, mappings := Without(objs[o].mappings, m))]
         && handles' == handles
  }

  // ---- many mappings gone

  /** Those of the mappings ms that show object o. */
  ghost function Showing(maps: Maps, ms: set<Mid>, o: Oid): set<Mid>
  {
    set m | m in ms && m in maps && maps[m].kind == Mapped(o)
  }

  function Outside(s: seq<Mid>, ms: set<Mid>): seq<Mid>
  {
    if s == [] then [] else if s[0] in ms then Outside(s[1..], ms) else [s[0]] + Outside(s[1..], ms)
  }

  lemma {:induction false} OutsideHas(s: seq<Mid>, ms: set<Mid>)
    requires NoDup(s)
    ensures NoDup(Outside(s, ms)) && forall m :: m in Outside(s, ms) <==> m in s && m !in ms
  {
    if s != [] {
      TailDistinct(s);
      OutsideHas(s[1..], ms);
    }
  }

  lemma TailDistinct(s: seq<nat>)
    requires NoDup(s) && s != []
    ensures NoDup(s[1..]) && s[0] !in s[1..] && forall x :: x in s <==> x == s[0] || x in s[1..]
  {
    assert forall i :: 0 <= i < |s[1..]| ==> s[1..][i] == s[i + 1];
  }

  lemma {:induction false} OutsideMore(s: seq<Mid>, ms: set<Mid>, m: Mid)
    requires NoDup(s) && m !in ms
    ensures Outside(s, ms + {m}) == if m in s then Without(Outside(s, ms), m) else Outside(s, ms)
  {
    if s != [] {
      TailDistinct(s);
      OutsideMore(s[1..], ms, m);
      if s[0] == m {
        assert Outside(s, ms) == [m] + Outside(s[1..], ms);
      }
    }
  }

  lemma {:induction false} OutsideNone(s: seq<Mid>)
    ensures Outside(s, {}) == s
  {
    if s != [] {
      OutsideNone(s[1..]);
    }
  }

  /** An object of which k mappings go. */
  function Detached(x: Obj, k: nat, ms: set<Mid>): Obj
  {
    x.(ref := x.ref - k, mappings := Outside(x.mappings, ms))
  }

  predicate Orphaned(x: Obj, k: nat)
  {
    x.life == Deletion && x.ref == k
  }

  /** The mappings ms are gone with their references. An object goes exactly if its deletion
      was requested and these were all its references; the others lose just these. */
  ghost predicate Released(objs: Objs, objs': Objs, handles: Handles, handles': Handles, maps: Maps, ms: set<Mid>)
  {
    && handles.Keys == objs.Keys && handles'.Keys == objs'.Keys
    && (forall o :: o in objs' <==> o in objs && !Orphaned(objs[o], |Showing(maps, ms, o)|))
    && forall o :: o in objs' ==> objs'[o] == Detached(objs[o], |Showing(maps, ms, o)|, ms) && handles'[o] == handles[o]
  }

  lemma ReleasedNone(objs: Objs, maps: Maps, handles: Handles)
    requires ObjsOk(objs, maps, {}, handles)
    ensures Released(objs, objs, handles, handles, maps, {})
  {
    forall o | o in objs ensures !Orphaned(objs[o], |Showing(maps, {}, o)|)
        && Detached(objs[o], |Showing(maps, {}, o)|, {}) == objs[o] {
      assert ObjOk(o, objs[o], maps, {}, handles[o]);
      OutsideNone(objs[o].mappings);
      assert Showing(maps, {}, o) == {};
    }
  }

  lemma ShowingMore(maps: Maps, ms: set<Mid>, m: Mid, o: Oid)
    requires m in maps && m !in ms
    ensures |Showing(maps, ms + {m}, o)| == |Showing(maps, ms, o)| + if maps[m].kind == Mapped(o) then 1 else 0
  {
    if maps[m].kind == Mapped(o) {
      assert Showing(maps, ms + {m}, o) == Showing(maps, ms, o) + {m};
    } else {
      assert Showing(maps, ms + {m}, o) == Showing(maps, ms, o);
    }
  }

  /** What one mapping more does to an object. */
  lemma DetachedMore(objs: Objs, maps: Maps, handles: Handles, ms: set<Mid>, m: Mid, o: Oid)
    requires ObjsOk(objs, maps, {}, handles) && o in objs && m in maps && m !in ms
    ensures var x := Detached(objs[o], |Showing(maps, ms, o)|, ms);
            var y := Detached(objs[o], |Showing(maps, ms + {m}, o)|, ms + {m});
            y == if maps[m].kind == Mapped(o) then x.(ref := x.ref - 1, mappings := Without(x.mappings, m)) else x
    ensures Orphaned(objs[o], |Showing(maps, ms + {m}, o)|)
      <==> Orphaned(Detached(objs[o], |Showing(maps, ms, o)|, ms), if maps[m].kind == Mapped(o) then 1 else 0)
  {
    hide Showing, Outside, Without;
    assert ObjOk(o, objs[o], maps, {}, handles[o]);
    assert m in objs[o].mappings <==> Shows(maps, {}, m, o);
    ShowingMore(maps, ms, m, o);
    OutsideMore(objs[o].mappings, ms, m);
  }

  lemma ReleasedHole(objs: Objs, objs': Objs, maps: Maps, handles: Handles, handles': Handles, ms: set<Mid>, m: Mid)
    requires ObjsOk(objs, maps, {}, handles) && Released(objs, objs', handles, handles', maps, ms)
    requires m in maps && m !in ms && maps[m].kind == Hole
    ensures Released(objs, objs', handles, handles', maps, ms + {m})
  {
    hide Showing, Outside;
    forall o | o in objs
      ensures |Showing(maps, ms + {m}, o)| == |Showing(maps, ms, o)|
      ensures o in objs' ==> objs'[o] == Detached(objs[o], |Showing(maps, ms + {m}, o)|, ms + {m})
    {
      ShowingMore(maps, ms, m, o);
      DetachedMore(objs, maps, handles, ms, m, o);
    }
  }

  lemma ReleasedMore(objs: Objs, objs1: Objs, objs2: Objs, maps: Maps, handles: Handles, handles1: Handles,
                     handles2: Handles,
                     ms: set<Mid>, m: Mid, p: Oid)
    requires ObjsOk(objs, maps, {}, handles) && Released(objs, objs1, handles, handles1, maps, ms)
    requires m in maps && m !in ms && maps[m].kind == Mapped(p) && OneLess(objs1, objs2, handles1, handles2, p, m)
    ensures Released(objs, objs2, handles, handles2, maps, ms + {m})
  {
    hide Showing, Outside, Without, Detached, Orphaned, ObjsOk;
    forall o | o in objs
      ensures o in objs2 <==> !Orphaned(objs[o], |Showing(maps, ms + {m}, o)|)
      ensures o in objs2 ==> objs2[o] == Detached(objs[o], |Showing(maps, ms + {m}, o)|, ms + {m})
    {
      DetachedMore(objs, maps, handles, ms, m, o);
      ShowingMore(maps, ms, m, o);
      OrphanedIs(objs[o], |Showing(maps, ms, o)|, ms);
    }
  }

  lemma OrphanedIs(x: Obj, k: nat, ms: set<Mid>)
    ensures var y := Detached(x, k, ms);
      && (Orphaned(x, k) <==> y.life == Deletion && y.ref == 0) && (Orphaned(y, 0) <==> Orphaned(x, k))
      && (Orphaned(y, 1) <==> y.life == Deletion && y.ref == 1)
  {
  }

  /** The record of a mapping that shows nothing may change or go. */
  lemma Settled(objs: Objs, maps: Maps, maps': Maps, dying: set<Mid>, dying': set<Mid>, handles: Handles)
    requires ObjsOk(objs, maps, dying, handles) && forall m, o :: Shows(maps', dying', m, o) <==>
             Shows(maps, dying, m, o)
    ensures ObjsOk(objs, maps', dying', handles)
  {
    forall m | m in maps' && m !in dying' && maps'[m].kind.Mapped? ensures maps'[m].kind.shown in objs {
      assert Shows(maps', dying', m, maps'[m].kind.shown);
    }
    forall o | o in objs ensures ObjOk(o, objs[o], maps', dying', handles[o]) {
      assert ObjOk(o, objs[o], maps, dying, handles[o]);
    }
  }

  // ---- steps on address spaces

  lemma SpaceChanged(spaces: Spaces, maps: Maps, handles: Handles, a: Aid, x: Space, h: nat)
    requires SpacesOk(spaces, maps, handles) && SpaceOk(a, x, maps, h)
    ensures SpacesOk(spaces[a := x], maps, handles[a := h])
  {
  }

  /** Kinds of mappings do not matter to the lists of the address spaces. */
  lemma KindChanged(spaces: Spaces, maps: Maps, handles: Handles, m: Mid, k: Kind)
    requires SpacesOk(spaces, maps, handles) && m in maps
    ensures SpacesOk(spaces, maps[m := maps[m].(kind := k)], handles)
  {
    var maps' := maps[m := maps[m].(kind := k)];
    forall a | a in spaces ensures SpaceOk(a, spaces[a], maps', handles[a]) {
      assert SpaceOk(a, spaces[a], maps, handles[a]);
    }
  }

  lemma MappingAdded(spaces: Spaces, maps: Maps, handles: Handles, a: Aid, m: Mid, r: Mapping)
    requires SpacesOk(spaces, maps, handles) && a in spaces && m !in maps && r.space == a
    ensures SpacesOk(spaces[a := spaces[a].(mappings := spaces[a].mappings + [m])], maps[m := r], handles)
  {
    hide SpaceOk;
    var maps' := maps[m := r];
    SpaceGains(a, spaces[a], maps, handles[a], m, r);
    forall b | b in spaces && b != a ensures SpaceOk(b, spaces[b], maps', handles[b]) {
      SpaceUnaffected(b, spaces[b], maps, maps', handles[b]);
    }
  }

  lemma SpaceGains(a: Aid, x: Space, maps: Maps, h: nat, m: Mid, r: Mapping)
    requires SpaceOk(a, x, maps, h) && m !in maps && r.space == a
    ensures SpaceOk(a, x.(mappings := x.mappings + [m]), maps[m := r], h)
  {
    assert m !in x.mappings;
  }

  lemma MappingRemoved(spaces: Spaces, maps: Maps, handles: Handles, m: Mid)
    requires SpacesOk(spaces, maps, handles) && m in maps
    ensures maps[m].space in spaces && m in spaces[maps[m].space].mappings
    ensures var a := maps[m].space;
            SpacesOk(spaces[a := spaces[a].(mappings := Without(spaces[a].mappings, m))], maps - {m}, handles)
  {
    hide Without, SpaceOk;
    var a, maps' := maps[m].space, maps - {m};
    SpaceLoses(a, spaces[a], maps, handles[a], m);
    forall b | b in spaces && b != a ensures SpaceOk(b, spaces[b], maps', handles[b]) {
      SpaceUnaffected(b, spaces[b], maps, maps', handles[b]);
    }
  }

  /** Mappings of other address spaces do not matter. */
  lemma SpaceUnaffected(b: Aid, x: Space, maps: Maps, maps': Maps, h: nat)
    requires SpaceOk(b, x, maps, h) && forall m :: (m in maps && maps[m].space == b) <==>
             (m in maps' && maps'[m].space == b)
    ensures SpaceOk(b, x, maps', h)
  {
  }

  lemma SpaceLoses(a: Aid, x: Space, maps: Maps, h: nat, m: Mid)
    requires SpaceOk(a, x, maps, h) && m in maps && maps[m].space == a
    ensures m in x.mappings && SpaceOk(a, x.(mappings := Without(x.mappings, m)), maps - {m}, h)
  {
    hide Without;
    WithoutHas(x.mappings, m);
  }

  lemma SpaceGone(spaces: Spaces, maps: Maps, handles: Handles, a: Aid)
    requires SpacesOk(spaces, maps, handles) && a in spaces && spaces[a].mappings == []
    ensures SpacesOk(spaces - {a}, maps, handles - {a})
  {
    assert SpaceOk(a, spaces[a], maps, handles[a]);
    forall b | b in spaces && b != a ensures SpaceOk(b, spaces[b], maps, handles[b]) {
    }
    forall m | m in maps ensures maps[m].space != a {
      assert m !in spaces[a].mappings;
    }
  }

  // ---- the two halves of a put

  /** vm_put_object counts down in one step and looks at the count in another. Puts on one
      object awaiting deletion: its count, how many puts are between their halves, and how
      often it was destroyed. */
  datatype Puts = Puts(ref: nat, between: nat, destroyed: nat)

  datatype Half = CountDown | Look

  predicate CanStep(p: Puts, h: Half)
  {
    if h == CountDown then p.ref > 0 else p.between > 0
  }

  function StepPut(p: Puts, h: Half): Puts
    requires CanStep(p, h)
  {
    if h == CountDown then Puts(p.ref - 1, p.between + 1, p.destroyed)
    else Puts(p.ref, p.between - 1, p.destroyed + if p.ref == 0 then 1 else 0)
  }

  ghost predicate PutRun(p: Puts, hs: seq<Half>, p': Puts)
    decreases |hs|
  {
    if hs == [] then p' == p else CanStep(p, hs[0]) && PutRun(StepPut(p, hs[0]), hs[1..], p')
  }

  /** How many looks come before the last count-down. */
  function EarlyLooks(hs: seq<Half>): nat
  {
    if hs == [] then 0
    else EarlyLooks(hs[1..]) + if hs[0] == Look && CountDown in hs[1..] then 1 else 0
  }

  /** The count reaches zero only by counting down. */
  lemma {:induction false} DownToZero(p: Puts, hs: seq<Half>, p': Puts)
    requires PutRun(p, hs, p') && p'.ref == 0
    ensures CountDown in hs <==> p.ref > 0
    decreases |hs|
  {
    if hs != [] {
      DownToZero(StepPut(p, hs[0]), hs[1..], p');
    }
  }

  lemma {:induction false} LooksCount(p: Puts, hs: seq<Half>, p': Puts)
    requires PutRun(p, hs, p') && p'.ref == 0 && p'.between == 0
    ensures p'.destroyed == p.destroyed + p.ref + p.between - EarlyLooks(hs) && p'.destroyed >= p.destroyed
    ensures p.ref + p.between > 0 ==> p'.destroyed > p.destroyed
    decreases |hs|
  {
    if hs != [] {
      DownToZero(StepPut(p, hs[0]), hs[1..], p');
      LooksCount(StepPut(p, hs[0]), hs[1..], p');
    }
  }

  /** n references to an object awaiting deletion are put back, in any order of the halves:
      it is destroyed by every put that looks only after the last count-down. That is at
      least once, and exactly once if and only if all but one have looked by then. */
  lemma {:induction false} DestroyedOnceIff(n: nat, hs: seq<Half>, p': Puts)
    requires n > 0 && PutRun(Puts(n, 0, 0), hs, p') && p'.ref == 0 && p'.between == 0
    ensures p'.destroyed == n - EarlyLooks(hs) && p'.destroyed >= 1
    ensures p'.destroyed == 1 <==> EarlyLooks(hs) == n - 1
  {
    LooksCount(Puts(n, 0, 0), hs, p');
  }

  /** Every put looks right after its count-down: nothing of another put comes between. */
  ghost predicate Whole(hs: seq<Half>)
  {
    forall i :: 0 <= i < |hs| && hs[i] == CountDown ==> i + 1 < |hs| && hs[i + 1] == Look
  }

  /** A condition that the callers can keep to: in every run of such puts the object is
      destroyed exactly once. */
  lemma {:induction false} WholePutsDestroyOnce(n: nat, hs: seq<Half>, p': Puts)
    requires n > 0 && Whole(hs) && PutRun(Puts(n, 0, 0), hs, p') && p'.ref == 0 && p'.between == 0
    ensures p'.destroyed == 1
  {
    WholeLooks(n, 0, hs, p');
    DestroyedOnceIff(n, hs, p');
  }

  lemma {:induction false} WholeLooks(n: nat, d: nat, hs: seq<Half>, p': Puts)
    requires n > 0 && Whole(hs) && PutRun(Puts(n, 0, d), hs, p') && p'.ref == 0 && p'.between == 0
    ensures EarlyLooks(hs) == n - 1
    decreases |hs|
  {
    DownToZero(Puts(n, 0, d), hs, p');
    assert hs[0] == CountDown && hs[1] == Look;
    var q := StepPut(Puts(n, 0, d), CountDown);
    var rest := hs[1..][1..];
    assert forall i :: 0 <= i < |rest| ==> rest[i] == hs[i + 2];
    assert PutRun(StepPut(q, Look), rest, p');
    DownToZero(StepPut(q, Look), rest, p');
    if n > 1 {
      WholeLooks(n - 1, d, rest, p');
    } else {
      NoLooks(rest);
    }
  }

  lemma {:induction false} NoLooks(hs: seq<Half>)
    requires CountDown !in hs
    ensures EarlyLooks(hs) == 0
  {
    if hs != [] {
      NoLooks(hs[1..]);
    }
  }

  lemma {:induction false} FirstStep(p: Puts, h: Half, hs: seq<Half>, p': Puts)
    requires CanStep(p, h) && PutRun(StepPut(p, h), hs, p')
    ensures PutRun(p, [h] + hs, p')
  {
    assert ([h] + hs)[1..] == hs;
  }

  function Serial(n: nat): seq<Half>
  {
    if n == 0 then [] else [CountDown] + ([Look] + Serial(n - 1))
  }

  /** Puts that do not interleave destroy it once, at the last of them. */
  lemma {:induction false} SerialPuts(n: nat)
    requires n > 0
    ensures PutRun(Puts(n, 0, 0), Serial(n), Puts(0, 0, 1))
  {
    if n > 1 {
      SerialPuts(n - 1);
    }
    FirstStep(Puts(n - 1, 1, 0), Look, Serial(n - 1), Puts(0, 0, 1));
    FirstStep(Puts(n, 0, 0), CountDown, [Look] + Serial(n - 1), Puts(0, 0, 1));
  }

  /** Two interleaved puts destroy it twice. */
  lemma InterleavedPuts()
    ensures PutRun(Puts(2, 0, 0), [CountDown] + ([CountDown] + ([Look] + ([Look] + []))), Puts(0, 0, 2))
  {
    FirstStep(Puts(0, 1, 1), Look, [], Puts(0, 0, 2));
    FirstStep(Puts(0, 2, 0), Look, [Look] + [], Puts(0, 0, 2));
    FirstStep(Puts(1, 1, 0), CountDown, [Look] + ([Look] + []), Puts(0, 0, 2));
    FirstStep(Puts(2, 0, 0), CountDown, [CountDown] + ([Look] + ([Look] + [])), Puts(0, 0, 2));
  }
}
