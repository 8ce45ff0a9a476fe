/** Memory objects, their mappings and their physical pages: what the operations on objects
    and address spaces do to reference counts (vm_object.c, vm.c, vm_address_space.c). Each
    call is one step. Where mappings are placed is the business of AddressSpaces; here their
    creation just succeeds with a new name or fails. */
module MemoryObjects {
  import opened VmRefs
  import Pages = PageLists
  import opened VmPages

  datatype Status = NoError | InvalidSpace | InvalidObject | NoPermission | NoMapping | BadAddress

  /** How a page fault ends: with a resident page, or in one of two panics. */
  datatype Fault = Backed(ppn: nat) | BeyondEnd | OutOfMemory

  const PAGE_SIZE := 4096

  /** PAGE_ALIGN, in 32-bit arithmetic. */
  function WholePages(size: nat): nat
  {
    (size + PAGE_SIZE - 1) % 0x1_0000_0000 / PAGE_SIZE * PAGE_SIZE
  }

  /** The size in whole pages is the least multiple of a page that is no smaller, exactly if the
      size is at most 2^32 less a page. Beyond that it is zero, and so no offset is inside. */
  lemma WholePagesLeast(size: nat)
    requires 0 < size < 0x1_0000_0000
    ensures WholePages(size) >= size <==> size <= 0xffff_f000
    ensures size <= 0xffff_f000 ==> WholePages(size) % 4096 == 0 && WholePages(size) - size < 4096
    ensures size > 0xffff_f000 ==> WholePages(size) == 0
  {
  }

  ghost predicate Resident(objs: Objs, o: Oid, i: int)
  {
    o in objs && 0 <= i < |objs[o].upages| && objs[o].upages[i].resident
  }

  ghost function PpnAt(objs: Objs, o: Oid, i: int): nat
    requires Resident(objs, o, i)
  {
    objs[o].upages[i].ppn
  }

  /** Resident pages are in use, and no physical page belongs to two universal pages. */
  ghost predicate PagesOwned(objs: Objs, states: seq<Pages.State>)
  {
    && (forall o, i :: Resident(objs, o, i) ==> PpnAt(objs, o, i) < |states| && states[PpnAt(objs, o, i)] == Pages.Busy)
    && forall o, i, p, j ::
         Resident(objs, o, i) && Resident(objs, p, j) && PpnAt(objs, o, i) == PpnAt(objs, p, j) ==> o == p && i == j
  }

  /** Page p is that of a resident one of the first k upages. */
  ghost predicate Held(us: seq<Upage>, k: nat, p: nat)
  {
    exists i :: 0 <= i < k && i < |us| && us[i].resident && us[i].ppn == p
  }

  ghost predicate HeldBy(objs: Objs, o: Oid, p: nat)
  {
    o in objs && Held(objs[o].upages, |objs[o].upages|, p)
  }

  /** Page p held part of an object that is there no more. */
  ghost predicate HeldByGone(objs: Objs, objs': Objs, p: nat)
  {
    exists o :: HeldBy(objs, o, p) && o !in objs'
  }

  /** The pages of the first k upages are free now, and all others are as before. */
  ghost predicate Freed(states: seq<Pages.State>, states': seq<Pages.State>, us: seq<Upage>, k: nat)
  {
    |states'| == |states| && forall p :: 0 <= p < |states| ==>
        states'[p] == if Held(us, k, p) then Pages.Free else states[p]
  }

  /** The pages of the objects that went are free now, and all others are as before. */
  ghost predicate PagesFollow(objs: Objs, objs': Objs, states: seq<Pages.State>, states': seq<Pages.State>)
  {
    |states'| == |states| && forall p :: 0 <= p < |states| ==>
        states'[p] == if HeldByGone(objs, objs', p) then Pages.Free else states[p]
  }

  lemma NoneGone(objs: Objs, objs': Objs, states: seq<Pages.State>)
    requires objs.Keys <= objs'.Keys
    ensures PagesFollow(objs, objs', states, states)
  {
  }

  lemma NobodyGone(objs: Objs, objs': Objs, states: seq<Pages.State>, states': seq<Pages.State>)
    requires PagesFollow(objs, objs', states, states') && objs.Keys <= objs'.Keys
    ensures states' == states
  {
  }

  lemma OneGone(objs: Objs, o: Oid, states: seq<Pages.State>, states': seq<Pages.State>)
    requires o in objs && Freed(states, states', objs[o].upages, |objs[o].upages|)
    ensures PagesFollow(objs, objs - {o}, states, states')
  {
    hide Held;
    forall p | 0 <= p < |states|
      ensures HeldByGone(objs, objs - {o}, p) <==> Held(objs[o].upages, |objs[o].upages|, p) {
      assert Held(objs[o].upages, |objs[o].upages|, p) ==> HeldBy(objs, o, p);
    }
  }

  /** Objects going one after the other; those that are left keep their upages. */
  lemma PagesFollowOn(objs: Objs, objs1: Objs, objs2: Objs, states: seq<Pages.State>, states1: seq<Pages.State>,
                      states2: seq<Pages.State>)
    requires PagesFollow(objs, objs1, states, states1) && PagesFollow(objs1, objs2, states1, states2)
    requires objs2.Keys <= objs1.Keys <= objs.Keys && forall o :: o in objs1 ==> objs1[o].upages == objs[o].upages
    ensures PagesFollow(objs, objs2, states, states2)
  {
    hide Held;
    forall p | 0 <= p < |states|
      ensures HeldByGone(objs, objs2, p) <==> HeldByGone(objs, objs1, p) || HeldByGone(objs1, objs2, p) {
      assert forall o :: HeldBy(objs1, o, p) ==> HeldBy(objs, o, p);
      assert forall o :: HeldBy(objs, o, p) && o in objs1 ==> HeldBy(objs1, o, p);
    }
  }

  /** Only the keys and the upages of the objects matter. */
  lemma PagesFollowSame(objs: Objs, objs': Objs, now: Objs, now': Objs, states: seq<Pages.State>,
                        states': seq<Pages.State>)
    requires PagesFollow(objs, objs', states, states') && now.Keys == objs.Keys && now'.Keys == objs'.Keys
    requires forall o :: o in objs ==> now[o].upages == objs[o].upages
    ensures PagesFollow(now, now', states, states')
  {
    hide Held;
    forall p | 0 <= p < |states| ensures HeldByGone(now, now', p) <==> HeldByGone(objs, objs', p) {
      assert forall o :: HeldBy(now, o, p) <==> HeldBy(objs, o, p);
    }
  }

  /** Upages after unwire_single_upage. */
  function Unwired(us: seq<Upage>, k: nat): (r: seq<Upage>)
    ensures |r| == |us|
  {
    seq(|us|, i requires 0 <= i < |us| =>
      if i < k && us[i].resident then us[i].(resident := false, ppn := 0) else us[i])
  }

  lemma UnwiredMore(us: seq<Upage>, k: nat)
    requires k < |us|
    ensures Unwired(us, k)[k] == us[k]
    ensures Unwired(us, k + 1) ==
            if us[k].resident then Unwired(us, k)[k := us[k].(resident := false, ppn := 0)] else Unwired(us, k)
  {
  }

  lemma UnwiredNone(us: seq<Upage>)
    ensures Unwired(us, 0) == us
  {
  }

  lemma FreedMore(states: seq<Pages.State>, states': seq<Pages.State>, us: seq<Upage>, k: nat)
    requires Freed(states, states', us, k) && k < |us| && (us[k].resident ==> us[k].ppn < |states|)
    ensures Freed(states, if us[k].resident then states'[us[k].ppn := Pages.Free] else states', us, k + 1)
  {
    forall p | 0 <= p < |states| ensures Held(us, k + 1, p) <==> Held(us, k, p) || (us[k].resident && us[k].ppn == p) {
    }
  }

  lemma FreedNone(states: seq<Pages.State>, us: seq<Upage>)
    ensures Freed(states, states, us, 0)
  {
  }

  /** The upages list is sorted and holds no number twice. */
  ghost predicate Sorted(us: seq<Upage>)
  {
    forall i, j :: 0 <= i < j < |us| ==> us[i].upn < us[j].upn
  }

  ghost predicate UpagesOk(objs: Objs)
  {
    forall o :: o in objs ==> Sorted(objs[o].upages)
  }

  /** Resident pages of an object that changed in one record only. */
  lemma PagesElsewhere(objs: Objs, states: seq<Pages.State>, o: Oid, x: Obj)
    requires PagesOwned(objs, states) && o in objs && x.upages == objs[o].upages
    ensures PagesOwned(objs[o := x], states)
  {
    var objs' := objs[o := x];
    assert forall p, i :: Resident(objs', p, i) <==> Resident(objs, p, i);
    assert forall p, i :: Resident(objs', p, i) ==> PpnAt(objs', p, i) == PpnAt(objs, p, i);
  }

  lemma PagesFewer(objs: Objs, states: seq<Pages.State>, o: Oid)
    requires PagesOwned(objs, states)
    ensures PagesOwned(objs - {o}, states)
  {
    var objs' := objs - {o};
    assert forall p, i :: Resident(objs', p, i) ==> Resident(objs, p, i) && PpnAt(objs', p, i) == PpnAt(objs, p, i);
  }

  lemma PagesNew(objs: Objs, states: seq<Pages.State>, o: Oid, x: Obj)
    requires PagesOwned(objs, states) && x.upages == [] && o !in objs
    ensures PagesOwned(objs[o := x], states)
  {
    var objs' := objs[o := x];
    assert forall p, i :: Resident(objs', p, i) ==> Resident(objs, p, i) && PpnAt(objs', p, i) == PpnAt(objs, p, i);
  }

  /** Upage k is unwired and its page freed. */
  lemma PageReleased(objs: Objs, states: seq<Pages.State>, o: Oid, k: nat)
    requires PagesOwned(objs, states) && Resident(objs, o, k)
    ensures var u := objs[o].upages[k].(resident := false, ppn := 0);
            PagesOwned(objs[o := objs[o].(upages := objs[o].upages[k := u])], states[PpnAt(objs, o, k) := Pages.Free])
  {
    var u := objs[o].upages[k].(resident := false, ppn := 0);
    var objs' := objs[o := objs[o].(upages := objs[o].upages[k := u])];
    forall p, i | Resident(objs', p, i)
      ensures Resident(objs, p, i) && PpnAt(objs', p, i) == PpnAt(objs, p, i) && (p != o || i != k) {
    }
  }

  /** Upage k, not resident, gets a page that was in use by no one. */
  lemma PageTaken(objs: Objs, states: seq<Pages.State>, o: Oid, k: nat, ppn: nat)
    requires PagesOwned(objs, states) && o in objs && k < |objs[o].upages| && !objs[o].upages[k].resident
    requires ppn < |states| && states[ppn] != Pages.Busy
    ensures var u := objs[o].upages[k].(resident := true, ppn := ppn);
            PagesOwned(objs[o := objs[o].(upages := objs[o].upages[k := u])], states[ppn := Pages.Busy])
  {
    var u := objs[o].upages[k].(resident := true, ppn := ppn);
    var objs' := objs[o := objs[o].(upages := objs[o].upages[k := u])];
    forall p, i | Resident(objs', p, i) && !(p == o && i == k)
      ensures Resident(objs, p, i) && PpnAt(objs', p, i) == PpnAt(objs, p, i) && PpnAt(objs, p, i) != ppn
    {
      assert Resident(objs, p, i);
    }
  }

  /** A new upage that is not resident. */
  lemma PagesInserted(objs: Objs, states: seq<Pages.State>, o: Oid, k: nat, u: Upage)
    requires PagesOwned(objs, states) && o in objs && k <= |objs[o].upages| && !u.resident
    ensures PagesOwned(objs[o := objs[o].(upages := objs[o].upages[..k] + [u] + objs[o].upages[k..])], states)
  {
    var us := objs[o].upages;
    var us' := us[..k] + [u] + us[k..];
    var objs' := objs[o := objs[o].(upages := us')];
    forall p, i | Resident(objs', p, i)
      ensures Resident(objs, p, if p == o && i > k then i - 1 else i)
      ensures PpnAt(objs', p, i) == PpnAt(objs, p, if p == o && i > k then i - 1 else i) && !(p == o && i == k)
    {
      if p == o {
        assert us'[i] == if i < k then us[i] else if i == k then u else us[i - 1];
      }
    }
    forall p, i, q, j | Resident(objs', p, i) && Resident(objs', q, j) && PpnAt(objs', p, i) == PpnAt(objs', q, j)
      ensures p == q && i == j
    {
      assert Resident(objs, p, if p == o && i > k then i - 1 else i)
        && Resident(objs, q, if q == o && j > k then j - 1 else j);
    }
  }

  class Vm {
    var objs: Objs
    var spaces: Spaces
    var maps: Maps
    const pt: PageTable
    ghost var handles: Handles
    ghost var spaceHandles: Handles

    /** Objects and pages, while the mappings in dying are being torn down. */
    ghost predicate Inv(dying: set<Mid>)
      reads this, pt, pt.pages
    {
      ObjsOk(objs, maps, dying, handles) && pt.Valid() && PagesOwned(objs, pt.pages[..]) && UpagesOk(objs)
    }

    ghost predicate Valid()
      reads this, pt, pt.pages
    {
      Inv({}) && SpacesOk(spaces, maps, spaceHandles)
    }

    constructor (total: nat, offset: nat)
      requires offset + total <= MAX_PAGES
      ensures Valid() && objs == map[] && spaces == map[] && fresh(pt) && fresh(pt.pages)
    {
      pt := new PageTable(total, offset);
      objs, spaces, maps, handles, spaceHandles := map[], map[], map[], map[], map[];
    }

    /** create_object_common and put_object_to_list. The size is rounded up to whole pages. */
    method CreateObject(o: Oid, size: nat) returns (ok: bool)
      requires Valid() && o !in objs
      modifies this`objs, this`handles
      ensures Valid() && (ok <==> size != 0)
      ensures ok ==> objs == old(objs)[o := Obj(Normal, 0, [], [], WholePages(size))] && handles == old(handles)[o := 0]
      ensures !ok ==> objs == old(objs) && handles == old(handles)
    {
      ok := size != 0;
      if !ok {
        return;
      }
      var x := Obj(Normal, 0, [], [], WholePages(size));
      PagesNew(objs, pt.pages[..], o, x);
      ObjChanged(objs, maps, {}, handles, o, x, 0);
      objs, handles := objs[o := x], handles[o := 0];
    }

    /** vm_get_object_by_id. */
    method GetObject(o: Oid) returns (ok: bool)
      requires Valid()
      modifies this`objs, this`handles
      ensures Valid() && (ok <==> o in old(objs) && old(objs)[o].life == Normal)
      ensures ok ==>
              && o in old(handles) && objs == old(objs)[o := old(objs)[o].(ref := old(objs)[o].ref + 1)]
              && handles == old(handles)[o := old(handles)[o] + 1]
      ensures !ok ==> objs == old(objs) && handles == old(handles)
    {
      hide PagesOwned, UpagesOk, ObjsOk, SpacesOk;
      HandlesKnown(0, o);
      ok := o in objs && objs[o].life == Normal;
      if ok {
        var x := objs[o].(ref := objs[o].ref + 1);
        PagesElsewhere(objs, pt.pages[..], o, x);
        SameUpages(objs, o, x);
        ObjKnown(o, {});
        ObjChanged(objs, maps, {}, handles, o, x, handles[o] + 1);
        objs, handles := objs[o := x], handles[o := handles[o] + 1];
      }
    }

    /** vm_put_object: the object goes exactly when its deletion was requested and this was
        the last reference. */
    method PutObject(o: Oid, ghost dying: set<Mid>)
      requires Inv(dying) && o in objs && handles[o] > 0
      modifies this`objs, this`handles, pt, pt.pages
      ensures Inv(dying)
      ensures o !in objs <==> old(objs)[o].life == Deletion && old(objs)[o].ref == 1
      ensures o in objs ==>
              && objs == old(objs)[o := old(objs)[o].(ref := old(objs)[o].ref - 1)]
              && handles == old(handles)[o := old(handles)[o] - 1]
      ensures o !in objs ==> objs == old(objs) - {o} && handles == old(handles) - {o}
      ensures PagesFollow(old(objs), objs, old(pt.pages[..]), pt.pages[..])
    {
      hide ObjsOk, PagesOwned, UpagesOk, PagesFollow, Freed, Unwired, ObjOk;
      var x := objs[o].(ref := objs[o].ref - 1);
      PutKnown(o, dying);
      PagesElsewhere(objs, pt.pages[..], o, x);
      SameUpages(objs, o, x);
      if x.life != Deletion || x.ref != 0 {
        ObjChanged(objs, maps, dying, handles, o, x, handles[o] - 1);
        objs, handles := objs[o := x], handles[o := handles[o] - 1];
        NoneGone(old(objs), objs, pt.pages[..]);
        return;
      }
      ghost var objs0 := objs;
      // out of the list and the tree, and away from the other objects
      objs := objs[o := x];
      UnwireAll(o);
      // what delete_object_common would panic about
      assert objs[o].mappings == [] && objs[o].ref == 0 && NoneResident(objs[o].upages);
      OneGone(objs0, o, old(pt.pages[..]), pt.pages[..]);
      ObjGone(objs0, maps, dying, handles, o);
      PagesFewer(objs, pt.pages[..], o);
      FewerUpages(objs, o);
      assert objs - {o} == objs0 - {o};
      objs, handles := objs - {o}, handles - {o};
    }

    lemma PutKnown(o: Oid, dying: set<Mid>)
      requires Inv(dying) && o in objs && handles[o] > 0
      ensures o in handles && objs[o].ref >= handles[o]
      ensures objs[o].life != Deletion || objs[o].ref != 1 ==>
              ObjOk(o, objs[o].(ref := objs[o].ref - 1), maps, dying, handles[o] - 1)
      ensures objs[o].ref == 1 ==> objs[o].mappings == [] && forall m :: !Shows(maps, dying, m, o)
    {
      hide PagesOwned, UpagesOk;
      ObjKnown(o, dying);
    }

    lemma ObjKnown(o: Oid, dying: set<Mid>)
      requires Inv(dying) && o in objs
      ensures o in handles && ObjOk(o, objs[o], maps, dying, handles[o])
      ensures handles[o] > 0 && objs[o].ref == 1 ==>
              objs[o].mappings == [] && handles[o] == 1 && forall m :: !Shows(maps, dying, m, o)
    {
    }

    /** unwire_upages_from_object: the page of each resident upage is freed. */
    method UnwireAll(o: Oid)
      requires o in objs && pt.Valid() && PagesOwned(objs, pt.pages[..]) && UpagesOk(objs)
      modifies this`objs, pt, pt.pages
      ensures pt.Valid() && PagesOwned(objs, pt.pages[..]) && UpagesOk(objs) && o in objs
              && NoneResident(objs[o].upages)
      ensures var us := old(objs)[o].upages;
              && objs == old(objs)[o := old(objs)[o].(upages := Unwired(us, |us|))]
              && Freed(old(pt.pages[..]), pt.pages[..], us, |us|)
    {
      hide PagesOwned, UpagesOk, Unwired, Freed;
      ghost var x, us := objs[o], objs[o].upages;
      UnwiredNone(us);
      FreedNone(pt.pages[..], us);
      assert objs == objs[o := x.(upages := us)];
      var k := 0;
      while k < |objs[o].upages|
        invariant pt.Valid() && PagesOwned(objs, pt.pages[..]) && UpagesOk(objs) && o in objs && k <= |us|
        invariant objs == old(objs)[o := x.(upages := Unwired(us, k))] && Freed(old(pt.pages[..]), pt.pages[..], us, k)
        decreases |us| - k
      {
        UnwiredMore(us, k);
        var u := objs[o].upages[k];
        if u.resident {
          PageReleased(objs, pt.pages[..], o, k);
          PageInRange(objs, pt.pages[..], o, k);
          SameNumbers(objs, o, k, u.(resident := false, ppn := 0));
          FreedMore(old(pt.pages[..]), pt.pages[..], us, k) by { FreedSize(old(pt.pages[..]), pt.pages[..], us, k); }
          pt.SetState(u.ppn, Pages.Free);
          objs := objs[o := objs[o].(upages := objs[o].upages[k := u.(resident := false, ppn := 0)])];
        } else {
          FreedMore(old(pt.pages[..]), pt.pages[..], us, k);
        }
        k := k + 1;
      }
      AllUnwired(us);
    }

    /** vm_delete_object. */
    method DeleteObject(o: Oid) returns (ok: bool)
      requires Valid()
      modifies this`objs, this`handles, pt, pt.pages
      ensures Valid() && (ok <==> o in old(objs) && old(objs)[o].life == Normal)
      ensures !ok ==> objs == old(objs) && handles == old(handles)
      ensures ok ==> (o in objs <==> old(objs)[o].ref > 0)
      ensures ok && o in objs ==> objs == old(objs)[o := old(objs)[o].(life := Deletion)] && handles == old(handles)
      ensures ok && o !in objs ==> objs == old(objs) - {o} && handles == old(handles) - {o}
      ensures PagesFollow(old(objs), objs, old(pt.pages[..]), pt.pages[..])
    {
      hide ObjsOk, SpacesOk, PagesOwned, UpagesOk, PagesFollow;
      HandlesKnown(0, o);
      NoneGone(objs, objs, pt.pages[..]);
      ok := GetObject(o);
      if ok {
        ObjMarked(o);
        var x := objs[o].(life := Deletion);
        PagesElsewhere(objs, pt.pages[..], o, x);
        SameUpages(objs, o, x);
        objs := objs[o := x];
        ghost var marked := objs;
        PutObject(o, {});
        PagesFollowSame(marked, objs, old(objs), objs, old(pt.pages[..]), pt.pages[..]);
        assert marked - {o} == old(objs) - {o};
      }
    }

    lemma ObjMarked(o: Oid)
      requires Inv({}) && o in objs && objs[o].ref > 0
      ensures ObjsOk(objs[o := objs[o].(life := Deletion)], maps, {}, handles)
    {
      hide PagesOwned, UpagesOk;
      ObjKnown(o, {});
      ObjChanged(objs, maps, {}, handles, o, objs[o].(life := Deletion), handles[o]);
      assert handles[o := handles[o]] == handles;
    }

    // ---- address spaces

    method CreateSpace(a: Aid)
      requires Valid() && a !in spaces
      modifies this`spaces, this`spaceHandles
      ensures Valid() && spaces == old(spaces)[a := Space(Normal, 0, [])] && spaceHandles == old(spaceHandles)[a := 0]
    {
      hide ObjsOk, PagesOwned, UpagesOk;
      SpaceChanged(spaces, maps, spaceHandles, a, Space(Normal, 0, []), 0);
      spaces, spaceHandles := spaces[a := Space(Normal, 0, [])], spaceHandles[a := 0];
    }

    /** vm_get_aspace_by_id. */
    method GetSpace(a: Aid) returns (ok: bool)
      requires Valid()
      modifies this`spaces, this`spaceHandles
      ensures Valid() && (ok <==> a in old(spaces) && old(spaces)[a].life == Normal)
      ensures ok ==>
              a in old(spaceHandles) && spaces == old(spaces)[a := old(spaces)[a].(ref := old(spaces)[a].ref + 1)]
                     && spaceHandles == old(spaceHandles)[a := old(spaceHandles)[a] + 1]
      ensures !ok ==> spaces == old(spaces) && spaceHandles == old(spaceHandles)
    {
      hide ObjsOk, PagesOwned, UpagesOk;
      ok := a in spaces && spaces[a].life == Normal;
      if ok {
        var x := spaces[a].(ref := spaces[a].ref + 1);
        SpaceChanged(spaces, maps, spaceHandles, a, x, spaceHandles[a] + 1);
        spaces, spaceHandles := spaces[a := x], spaceHandles[a := spaceHandles[a] + 1];
      }
    }

    /** vm_put_aspace: the address space goes, with all its mappings, exactly when its
        deletion was requested and this was the last reference. */
    method PutSpace(a: Aid)
      requires Valid() && a in spaces && spaceHandles[a] > 0
      modifies this, pt, pt.pages
      ensures Valid()
      ensures a !in spaces <==> old(spaces)[a].life == Deletion && old(spaces)[a].ref == 1
      ensures a in spaces ==> spaces == old(spaces)[a := old(spaces)[a].(ref := old(spaces)[a].ref - 1)]
                              && spaceHandles == old(spaceHandles)[a := old(spaceHandles)[a] - 1]
                              && maps == old(maps) && objs == old(objs) && handles == old(handles)
                              && pt.pages[..] == old(pt.pages[..])
      ensures a !in spaces ==> Gone(old(spaces), spaces, old(spaceHandles), spaceHandles, old(maps), maps, a)
                               && Released(old(objs), objs, old(handles), handles, old(maps), MappingsOf(old(maps), a))
                               && PagesFollow(old(objs), objs, old(pt.pages[..]), pt.pages[..])
    {
      hide ObjsOk, PagesOwned, UpagesOk, Released, PagesFollow;
      var x := spaces[a].(ref := spaces[a].ref - 1);
      SpaceKnown(a);
      if x.life != Deletion || x.ref != 0 {
        SpaceChanged(spaces, maps, spaceHandles, a, x, spaceHandles[a] - 1);
        spaces, spaceHandles := spaces[a := x], spaceHandles[a := spaceHandles[a] - 1];
        return;
      }
      ReleaseObjects(a);
      DropHoles(a);
      assert maps == old(maps) - MappingsOf(old(maps), a);
    }

    lemma SpaceKnown(a: Aid)
      requires Valid() && a in spaces
      ensures a in spaceHandles && SpaceOk(a, spaces[a], maps, spaceHandles[a])
    {
    }

    /** The teardown loop of vm_put_aspace: every mapped object is put, and its mapping
        becomes a hole. */
    method ReleaseObjects(a: Aid)
      requires Valid() && a in spaces
      modifies this`objs, this`handles, this`maps, pt, pt.pages
      ensures Valid() && maps.Keys == old(maps).Keys
      ensures forall m :: m in maps ==>
              maps[m] == if old(maps)[m].space == a then old(maps)[m].(kind := Hole) else old(maps)[m]
      ensures Released(old(objs), objs, old(handles), handles, old(maps), MappingsOf(old(maps), a))
      ensures PagesFollow(old(objs), objs, old(pt.pages[..]), pt.pages[..])
    {
      hide PagesOwned, UpagesOk, SpacesOk, ObjsOk, Released, PagesFollow, Inv;
      ObjsKnown({});
      SpaceKnownIn(a);
      ReleasedNone(objs, maps, handles);
      NoneGone(objs, objs, pt.pages[..]);
      ghost var ms: set<Mid> := {};
      var list := spaces[a].mappings;
      var k := 0;
      while k < |list|
        invariant Valid() && k <= |list| && maps.Keys == old(maps).Keys && ms == Elements(list[..k])
        invariant forall m :: m in maps ==> maps[m] == if m in ms then old(maps)[m].(kind := Hole) else old(maps)[m]
        invariant Released(old(objs), objs, old(handles), handles, old(maps), ms)
        invariant PagesFollow(old(objs), objs, old(pt.pages[..]), pt.pages[..])
      {
        var m := list[k];
        assert m in maps && m !in list[..k];
        assert list[..k + 1] == list[..k] + [m] && Elements(list[..k + 1]) == ms + {m};
        ghost var objs1, handles1, states1 := objs, handles, pt.pages[..];
        if maps[m].kind.Mapped? {
          TearDown(m);
          MakeHole(m);
          ReleasedMore(old(objs), objs1, objs, old(maps), old(handles), handles1, handles, ms, m,
              old(maps)[m].kind.shown);
          LessLeft(old(objs), objs1, objs, old(handles), handles1, handles, old(maps), ms, m, old(maps)[m].kind.shown);
          PagesFollowOn(old(objs), objs1, objs, old(pt.pages[..]), states1, pt.pages[..]);
        } else {
          ReleasedHole(old(objs), objs, old(maps), old(handles), handles, ms, m);
        }
        ms := ms + {m};
        k := k + 1;
      }
      assert list[..k] == list;
      assert ms == MappingsOf(old(maps), a);
    }

    lemma ObjsKnown(dying: set<Mid>)
      requires Inv(dying)
      ensures ObjsOk(objs, maps, dying, handles) && handles.Keys == objs.Keys
    {
    }

    lemma SpaceKnownIn(a: Aid)
      requires Valid() && a in spaces
      ensures NoDup(spaces[a].mappings) && forall m :: m in spaces[a].mappings <==> m in maps && maps[m].space == a
    {
      assert SpaceOk(a, spaces[a], maps, spaceHandles[a]);
    }

    /** Take mapping m off its object's list and put the object. */
    method TearDown(m: Mid)
      requires Valid() && m in maps && maps[m].kind.Mapped?
      modifies this`objs, this`handles, pt, pt.pages
      ensures Inv({m})
      ensures OneLess(old(objs), objs, old(handles), handles, maps[m].kind.shown, m)
      ensures PagesFollow(old(objs), objs, old(pt.pages[..]), pt.pages[..])
    {
      hide PagesOwned, UpagesOk, ObjsOk, SpacesOk, Without, PagesFollow;
      var o := maps[m].kind.shown;
      assert Shows(maps, {}, m, o);
      ShownExists(m);
      HandlesKnown(0, o);
      Unmounted(objs, maps, {}, handles, m, o);
      var x := objs[o].(mappings := Without(objs[o].mappings, m));
      PagesElsewhere(objs, pt.pages[..], o, x);
      SameUpages(objs, o, x);
      assert {} + {m} == {m};
      objs, handles := objs[o := x], handles[o := handles[o] + 1];
      ghost var off := objs;
      PutObject(o, {m});
      PagesFollowSame(off, objs, old(objs), objs, old(pt.pages[..]), pt.pages[..]);
      assert off - {o} == old(objs) - {o};
    }

    method MakeHole(m: Mid)
      requires Inv({m}) && SpacesOk(spaces, maps, spaceHandles) && m in maps
      modifies this`maps
      ensures Valid() && maps == old(maps)[m := old(maps)[m].(kind := Hole)]
    {
      hide PagesOwned, UpagesOk, SpacesOk;
      var maps' := maps[m := maps[m].(kind := Hole)];
      KindChanged(spaces, maps, spaceHandles, m, Hole);
      Settled(objs, maps, maps', {m}, {}, handles);
      maps := maps';
    }

    /** delete_aspace_common, which panics on a mapping that is not a hole: all mappings of
        the address space are deleted, and then it. */
    method DropHoles(a: Aid)
      requires Valid() && a in spaces && forall m :: m in maps && maps[m].space == a ==> maps[m].kind == Hole
      modifies this`maps, this`spaces, this`spaceHandles
      ensures Valid() && spaces == old(spaces) - {a} && spaceHandles == old(spaceHandles) - {a}
      ensures forall m :: m in maps <==> m in old(maps) && old(maps)[m].space != a
      ensures forall m :: m in maps ==> maps[m] == old(maps)[m]
    {
      hide PagesOwned, UpagesOk, SpacesOk, ObjsOk;
      while spaces[a].mappings != []
        invariant Valid() && a in spaces && spaceHandles == old(spaceHandles)
        invariant spaces == old(spaces)[a := old(spaces)[a].(mappings := spaces[a].mappings)]
        invariant forall m :: m in maps ==> m in old(maps) && maps[m] == old(maps)[m]
        invariant forall m :: m in old(maps) && old(maps)[m].space != a ==> m in maps
        decreases |spaces[a].mappings|
      {
        SpaceKnownIn(a);
        var m := spaces[a].mappings[0];
        assert m in maps && maps[m].space == a && maps[m].kind == Hole;
        DropMapping(m);
      }
      SpaceKnownIn(a);
      SpaceGone(spaces, maps, spaceHandles, a);
      assert spaces - {a} == old(spaces) - {a};
      spaces, spaceHandles := spaces - {a}, spaceHandles - {a};
    }

    /** vm_aspace_delete_mapping of a hole. */
    method DropMapping(m: Mid)
      requires Valid() && m in maps && maps[m].kind == Hole
      modifies this`maps, this`spaces
      ensures Valid() && maps == old(maps) - {m} && old(maps)[m].space in old(spaces)
      ensures var a := old(maps)[m].space;
              spaces == old(spaces)[a := old(spaces)[a].(mappings := Without(old(spaces)[a].mappings, m))]
              && m in old(spaces)[a].mappings && |spaces[a].mappings| < |old(spaces)[a].mappings|
    {
      hide PagesOwned, UpagesOk, SpacesOk, ObjsOk;
      MappingRemoved(spaces, maps, spaceHandles, m);
      var a := maps[m].space;
      SpaceKnownIn(a);
      WithoutHas(spaces[a].mappings, m);
      Settled(objs, maps, maps - {m}, {}, {}, handles);
      spaces := spaces[a := spaces[a].(mappings := Without(spaces[a].mappings, m))];
      maps := maps - {m};
    }

    /** vm_delete_aspace, for an address space other than the kernel's. */
    method DeleteSpace(a: Aid) returns (ok: bool)
      requires Valid()
      modifies this, pt, pt.pages
      ensures Valid() && (ok <==> a in old(spaces) && old(spaces)[a].life == Normal)
      ensures ok ==> (a in spaces <==> old(spaces)[a].ref > 0)
      ensures !ok ==> spaces == old(spaces) && spaceHandles == old(spaceHandles)
      ensures ok && a in spaces ==>
              spaces == old(spaces)[a := old(spaces)[a].(life := Deletion)] && spaceHandles == old(spaceHandles)
      ensures !ok || a in spaces ==>
              maps == old(maps) && objs == old(objs) && handles == old(handles) && pt.pages[..] == old(pt.pages[..])
      ensures ok && a !in spaces ==> Gone(old(spaces), spaces, old(spaceHandles), spaceHandles, old(maps), maps, a)
                                     && Released(old(objs), objs, old(handles), handles, old(maps),
                                        MappingsOf(old(maps), a))
                                     && PagesFollow(old(objs), objs, old(pt.pages[..]), pt.pages[..])
    {
      hide ObjsOk, SpacesOk, PagesOwned, UpagesOk, Released, PagesFollow, MappingsOf;
      HandlesKnown(a, 0);
      ok := GetSpace(a);
      if ok {
        SpaceMarked(a);
        spaces := spaces[a := spaces[a].(life := Deletion)];
        assert spaces - {a} == old(spaces) - {a};
        PutSpace(a);
      }
    }

    lemma SpaceMarked(a: Aid)
      requires Valid() && a in spaces && spaces[a].ref > 0
      ensures SpacesOk(spaces[a := spaces[a].(life := Deletion)], maps, spaceHandles)
      ensures a in spaceHandles && spaceHandles[a] == spaces[a].ref
    {
      hide ObjsOk, PagesOwned, UpagesOk;
      SpaceKnown(a);
      SpaceChanged(spaces, maps, spaceHandles, a, spaces[a].(life := Deletion), spaceHandles[a]);
      assert spaceHandles[a := spaceHandles[a]] == spaceHandles;
    }

    // ---- mapping objects

    /** vm_map_object_aligned and vm_map_object_exactly. permitted is the outcome of
        check_object_prot, slot the new mapping if one could be created. */
    method MapObject(a: Aid, o: Oid, permitted: bool, slot: Option<Mid>) returns (status: Status)
      requires Valid() && (slot.Some? ==> slot.value !in maps)
      modifies this, pt, pt.pages
      ensures Valid()
      ensures status == if !(a in old(spaces) && old(spaces)[a].life == Normal) then InvalidSpace
                        else if !(o in old(objs) && old(objs)[o].life == Normal) then InvalidObject
                        else if !permitted then NoPermission else if slot.None? then BadAddress else NoError
      ensures status != NoError ==>
              objs == old(objs) && spaces == old(spaces) && maps == old(maps) && handles == old(handles)
      ensures spaceHandles == old(spaceHandles) && pt.pages[..] == old(pt.pages[..])
      ensures status == NoError ==>
                && maps == old(maps)[slot.value := Mapping(a, Mapped(o))] && handles == old(handles)
                && objs == old(objs)[o := WithMapping(old(objs)[o], slot.value)]
                && spaces == old(spaces)[a := old(spaces)[a].(mappings := old(spaces)[a].mappings + [slot.value])]
    {
      hide ObjsOk, SpacesOk, PagesOwned, UpagesOk, PageTable.Valid, Vm.Inv, Released, Gone, MappingsOf, PagesFollow;
      HandlesKnown(a, o);
      var ok := GetSpace(a);
      if !ok {
        return InvalidSpace;
      }
      status := MapInto(a, o, permitted, slot);
      PutSpace(a);
    }

    /** What comes between taking the address space and putting it back. */
    method MapInto(a: Aid, o: Oid, permitted: bool, slot: Option<Mid>) returns (status: Status)
      requires Valid() && (slot.Some? ==> slot.value !in maps) && a in spaces
      modifies this`objs, this`handles, this`maps, this`spaces, pt, pt.pages
      ensures Valid() && pt.pages[..] == old(pt.pages[..]) && handles == old(handles)
      ensures status == if !(o in old(objs) && old(objs)[o].life == Normal) then InvalidObject
                        else if !permitted then NoPermission else if slot.None? then BadAddress else NoError
      ensures status != NoError ==> objs == old(objs) && maps == old(maps) && spaces == old(spaces)
      ensures status == NoError ==>
                && maps == old(maps)[slot.value := Mapping(a, Mapped(o))]
                && objs == old(objs)[o := WithMapping(old(objs)[o], slot.value)]
                && spaces == old(spaces)[a := old(spaces)[a].(mappings := old(spaces)[a].mappings + [slot.value])]
    {
      hide ObjsOk, SpacesOk, PagesOwned, UpagesOk, PagesFollow;
      HandlesKnown(a, o);
      var ok := GetObject(o);
      if !ok {
        return InvalidObject;
      }
      if !permitted || slot.None? {
        ghost var taken := objs;
        PutObject(o, {});
        NobodyGone(taken, objs, old(pt.pages[..]), pt.pages[..]);
        return if permitted then BadAddress else NoPermission;
      }
      AddMapping(a, o, slot.value);
      status := NoError;
    }

    lemma HandlesKnown(a: Aid, o: Oid)
      requires Valid()
      ensures handles.Keys == objs.Keys && spaceHandles.Keys == spaces.Keys
      ensures a in spaces ==> spaces[a].ref >= 0
      ensures o in objs ==> objs[o].ref >= 0
      ensures a in spaces && spaces[a].life == Deletion ==> spaces[a].ref > 0
    {
      if a in spaces {
        assert SpaceOk(a, spaces[a], maps, spaceHandles[a]);
      }
      if o in objs {
        assert ObjOk(o, objs[o], maps, {}, handles[o]);
      }
    }

    /** The new mapping takes over the handle on the object. */
    method AddMapping(a: Aid, o: Oid, m: Mid)
      requires Valid() && a in spaces && o in objs && handles[o] > 0 && m !in maps
      modifies this`objs, this`handles, this`maps, this`spaces
      ensures Valid() && maps == old(maps)[m := Mapping(a, Mapped(o))]
              && handles == old(handles)[o := old(handles)[o] - 1]
      ensures objs == old(objs)[o := old(objs)[o].(mappings := old(objs)[o].mappings + [m])]
      ensures spaces == old(spaces)[a := old(spaces)[a].(mappings := old(spaces)[a].mappings + [m])]
    {
      hide ObjsOk, SpacesOk, PagesOwned, UpagesOk;
      HandlesKnown(a, o);
      var r := Mapping(a, Mapped(o));
      Mounted(objs, maps, {}, handles, m, o, r);
      MappingAdded(spaces, maps, spaceHandles, a, m, r);
      var x := objs[o].(mappings := objs[o].mappings + [m]);
      PagesElsewhere(objs, pt.pages[..], o, x);
      SameUpages(objs, o, x);
      spaces := spaces[a := spaces[a].(mappings := spaces[a].mappings + [m])];
      maps := maps[m := r];
      objs, handles := objs[o := x], handles[o := handles[o] - 1];
    }

    /** vm_unmap_object and vm_delete_memory_hole; found is what vm_aspace_get_mapping finds
        at the address. */
    method Unmap(a: Aid, found: Option<Mid>, hole: bool) returns (status: Status)
      requires Valid() && (found.Some? ==> found.value in maps && maps[found.value].space == a)
      modifies this, pt, pt.pages
      ensures Valid()
      ensures status == InvalidSpace <==> !(a in old(spaces) && old(spaces)[a].life == Normal)
      ensures status == NoError <==> a in old(spaces) && old(spaces)[a].life == Normal && found.Some?
                                     && (old(maps)[found.value].kind == Hole <==> hole)
      ensures spaceHandles == old(spaceHandles)
      ensures status != NoError ==> maps == old(maps) && spaces == old(spaces)
      ensures status == NoError ==>
                && maps == old(maps) - {found.value}
                && spaces ==
                   old(spaces)[a := old(spaces)[a].(mappings := Without(old(spaces)[a].mappings, found.value))]
      ensures status != NoError || hole ==>
              objs == old(objs) && handles == old(handles) && pt.pages[..] == old(pt.pages[..])
      ensures status == NoError && !hole ==>
                && OneLess(old(objs), objs, old(handles), handles, old(maps)[found.value].kind.shown, found.value)
                && PagesFollow(old(objs), objs, old(pt.pages[..]), pt.pages[..])
    {
      hide ObjsOk, SpacesOk, PagesOwned, UpagesOk, OneLess, PagesFollow, Without;
      HandlesKnown(a, 0);
      var ok := GetSpace(a);
      if !ok {
        return InvalidSpace;
      }
      if found.None? {
        PutSpace(a);
        return NoMapping;
      }
      var m := found.value;
      if maps[m].kind.Hole? != hole {
        PutSpace(a);
        return BadAddress;
      }
      if !hole {
        TearDown(m);
        MakeHole(m);
      }
      ghost var gone := maps;
      DropMapping(m);
      assert gone - {m} == old(maps) - {m};
      PutSpace(a);
      status := NoError;
    }

    // ---- page faults

    /** vm_object_get_or_add_upage: the universal page at the offset, added where the list
        stays sorted if there is none; none at all beyond the end of the object. */
    method GetOrAddUpage(o: Oid, offset: nat) returns (r: Option<nat>)
      requires Inv({}) && o in objs
      modifies this`objs
      ensures Inv({}) && (r.Some? <==> offset < old(objs)[o].size)
      ensures r.None? ==> objs == old(objs)
      ensures r.Some? ==> UpageAt(old(objs)[o].upages, offset / PAGE_SIZE, r.value)
                          && var us := WithUpage(old(objs)[o].upages, offset / PAGE_SIZE, r.value);
                             objs == old(objs)[o := old(objs)[o].(upages := us)]
    {
      hide ObjsOk, PagesOwned, UpagesOk;
      if offset >= objs[o].size {
        return None;
      }
      var upn := offset / PAGE_SIZE;
      UpagesSorted(o);
      var us := objs[o].upages;
      var k := 0;
      while k < |us| && us[k].upn < upn
        invariant k <= |us| && forall i :: 0 <= i < k ==> us[i].upn < upn
      {
        k := k + 1;
      }
      r := Some(k);
      if k < |us| && us[k].upn == upn {
        assert objs == objs[o := objs[o].(upages := us)];
        return;
      }
      var us' := us[..k] + [Upage(upn, false, 0)] + us[k..];
      PagesInserted(objs, pt.pages[..], o, k, Upage(upn, false, 0));
      SortedInsert(objs, o, k, upn);
      ObjKnown(o, {});
      ObjChanged(objs, maps, {}, handles, o, objs[o].(upages := us'), handles[o]);
      assert handles[o := handles[o]] == handles;
      objs := objs[o := objs[o].(upages := us')];
    }

    lemma UpagesSorted(o: Oid)
      requires Inv({}) && o in objs
      ensures Sorted(objs[o].upages)
    {
    }

    /** vm_soft_page_fault on mapping m of an object, at an offset of it: the page is resident
        afterwards, in the physical page it had or in one that was free or clear. Beyond the
        end of the object, and with no page left, the original panics. */
    method PageFault(m: Mid, offset: nat) returns (r: Fault, ghost k: nat)
      requires Valid() && m in maps && maps[m].kind.Mapped?
      modifies this`objs, pt, pt.pages
      ensures Valid() && maps[m].kind.shown in old(objs)
      ensures var o := maps[m].kind.shown;
              r == BeyondEnd <==> offset >= old(objs)[o].size
      ensures r == BeyondEnd ==> objs == old(objs)
      ensures r != BeyondEnd ==> UpageAt(old(objs)[maps[m].kind.shown].upages, offset / PAGE_SIZE, k)
      ensures r != BeyondEnd ==>
                var o := maps[m].kind.shown;
                var us := WithUpage(old(objs)[o].upages, offset / PAGE_SIZE, k);
                var us' := if r.Backed? then us[k := Upage(offset / PAGE_SIZE, true, r.ppn)] else us;
                && objs == old(objs)[o := old(objs)[o].(upages := us')]
                && (r == OutOfMemory <==> !us[k].resident && old(pt.freeList) == [] && old(pt.clearList) == [])
                && (r.Backed? && us[k].resident ==> r.ppn == us[k].ppn)
                && (r.Backed? && !us[k].resident ==>
                    && r.ppn < |old(pt.pages[..])| && Pages.Usable(old(pt.pages[..])[r.ppn])
                    && pt.pages[..] == old(pt.pages[..])[r.ppn := Pages.Busy])
                && (us[k].resident || !r.Backed? ==> pt.pages[..] == old(pt.pages[..]))
      ensures r == BeyondEnd ==> pt.pages[..] == old(pt.pages[..])
    {
      hide ObjsOk, SpacesOk, PagesOwned, UpagesOk;
      var o := maps[m].kind.shown;
      ShownExists(m);
      r, k := BeyondEnd, 0;
      var i := GetOrAddUpage(o, offset);
      if i.None? {
        return;
      }
      k := i.value;
      var u := objs[o].upages[i.value];
      if u.resident {
        PageInUse(objs, pt.pages[..], o, i.value);
        r := Backed(u.ppn);
        assert objs[o].upages[k := u] == objs[o].upages;
      } else {
        ghost var states := pt.pages[..];
        var page := pt.Alloc(Pages.Clear);
        if !page.Page? {
          return OutOfMemory, k;
        }
        PageTaken(objs, states, o, i.value, page.page);
        var v := u.(resident := true, ppn := page.page);
        var x := objs[o].(upages := objs[o].upages[i.value := v]);
        SameNumbers(objs, o, i.value, v);
        ObjKnownAt(o);
        ObjChanged(objs, maps, {}, handles, o, x, handles[o]);
        assert handles[o := handles[o]] == handles;
        objs := objs[o := x];
        r := Backed(page.page);
      }
    }

    lemma ObjKnownAt(o: Oid)
      requires ObjsOk(objs, maps, {}, handles) && o in objs
      ensures o in handles && ObjOk(o, objs[o], maps, {}, handles[o])
    {
    }

    lemma ShownExists(m: Mid)
      requires Valid() && m in maps && maps[m].kind.Mapped?
      ensures maps[m].kind.shown in objs
    {
    }
  }

  /** Universal page upn is the k-th of the list, or belongs there. */
  ghost predicate UpageAt(us: seq<Upage>, upn: nat, k: nat)
  {
    && k <= |us| && (forall i :: 0 <= i < k ==> us[i].upn < upn)
    && forall i :: k <= i < |us| ==> upn <= us[i].upn
  }

  /** The list with universal page upn in it, at place k. */
  ghost function WithUpage(us: seq<Upage>, upn: nat, k: nat): (r: seq<Upage>)
    requires UpageAt(us, upn, k)
    ensures k < |r| && r[k].upn == upn
  {
    if k < |us| && us[k].upn == upn then us else us[..k] + [Upage(upn, false, 0)] + us[k..]
  }

  lemma SortedInsert(objs: Objs, o: Oid, k: nat, upn: nat)
    requires UpagesOk(objs) && o in objs && k <= |objs[o].upages|
    requires forall i :: 0 <= i < k ==> objs[o].upages[i].upn < upn
    requires k < |objs[o].upages| ==> upn < objs[o].upages[k].upn
    ensures UpagesOk(objs[o := objs[o].(upages := objs[o].upages[..k] + [Upage(upn, false, 0)] + objs[o].upages[k..])])
  {
    var us := objs[o].upages;
    var us' := us[..k] + [Upage(upn, false, 0)] + us[k..];
    assert Sorted(us);
    forall i, j | 0 <= i < j < |us'| ensures us'[i].upn < us'[j].upn {
      assert us'[i] == if i < k then us[i] else if i == k then Upage(upn, false, 0) else us[i - 1];
      assert us'[j] == if j < k then us[j] else if j == k then Upage(upn, false, 0) else us[j - 1];
    }
  }

  /** Address space a is gone with all its mappings, and nothing else is. */
  ghost predicate Gone(spaces: Spaces, spaces': Spaces, handles: Handles, handles': Handles, maps: Maps, maps': Maps,
                       a: Aid)
  {
    spaces' == spaces - {a} && handles' == handles - {a} && maps' == maps - MappingsOf(maps, a)
  }

  /** An object with one mapping more, and its reference. */
  function WithMapping(x: Obj, m: Mid): Obj
  {
    x.(ref := x.ref + 1, mappings := x.mappings + [m])
  }

  ghost function Elements(s: seq<Mid>): set<Mid>
  {
    set m | m in s
  }

  ghost function MappingsOf(maps: Maps, a: Aid): set<Mid>
  {
    set m | m in maps && maps[m].space == a
  }

  lemma LessLeft(objs: Objs, objs1: Objs, objs2: Objs, handles: Handles, handles1: Handles, handles2: Handles,
                 maps: Maps,
                 ms: set<Mid>, m: Mid, o: Oid)
    requires Released(objs, objs1, handles, handles1, maps, ms) && OneLess(objs1, objs2, handles1, handles2, o, m)
    ensures objs2.Keys <= objs1.Keys <= objs.Keys && forall p :: p in objs1 ==> objs1[p].upages == objs[p].upages
  {
    hide Outside, Showing, Without;
  }

  lemma PageInUse(objs: Objs, states: seq<Pages.State>, o: Oid, k: nat)
    requires PagesOwned(objs, states) && Resident(objs, o, k)
    ensures objs[o].upages[k].ppn < |states| && states[objs[o].upages[k].ppn] == Pages.Busy
  {
    assert PpnAt(objs, o, k) < |states|;
  }

  lemma FreedSize(states: seq<Pages.State>, states': seq<Pages.State>, us: seq<Upage>, k: nat)
    requires Freed(states, states', us, k)
    ensures |states'| == |states|
  {
  }

  lemma AllUnwired(us: seq<Upage>)
    ensures NoneResident(Unwired(us, |us|))
  {
  }

  ghost predicate NoneResident(us: seq<Upage>)
  {
    forall i :: 0 <= i < |us| ==> !us[i].resident
  }

  lemma SameUpages(objs: Objs, o: Oid, x: Obj)
    requires UpagesOk(objs) && o in objs && x.upages == objs[o].upages
    ensures UpagesOk(objs[o := x])
  {
  }

  lemma FewerUpages(objs: Objs, o: Oid)
    requires UpagesOk(objs)
    ensures UpagesOk(objs - {o})
  {
  }

  lemma SameNumbers(objs: Objs, o: Oid, k: nat, u: Upage)
    requires UpagesOk(objs) && o in objs && k < |objs[o].upages| && u.upn == objs[o].upages[k].upn
    ensures UpagesOk(objs[o := objs[o].(upages := objs[o].upages[k := u])])
  {
    var us := objs[o].upages;
    assert Sorted(us);
    assert Sorted(us[k := u]);
  }

  lemma PageInRange(objs: Objs, states: seq<Pages.State>, o: Oid, k: nat)
    requires PagesOwned(objs, states) && Resident(objs, o, k)
    ensures objs[o].upages[k].ppn < |states|
  {
    assert PpnAt(objs, o, k) < |states|;
  }
}
