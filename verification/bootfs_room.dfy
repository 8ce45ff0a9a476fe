/** How many names a directory has room for: what a page holds against what the sections'
    paths ask of it. */
module BootfsRoom {
  import opened BootfsPaths
  import opened BootfsLayout
  import opened BootfsTree
  import opened BootfsPages

  /** The root page loses a slot to the identification block, every other page one to the way
      up. */
  const ROOM: nat := 63

  predicate FullPage(es: seq<Entry>) {
    forall k :: 0 <= k < |es| ==> es[k].kind != NONE
  }

  // --- Names on a page ---

  ghost function Used(es: seq<Entry>): set<Name> {
    set e | e in es && e.name != [] :: e.name
  }

  lemma {:induction false} UsedCount(es: seq<Entry>)
    requires NoTwins(es)
    ensures |Used(es)| <= |es|
    ensures (forall k :: 0 <= k < |es| ==> es[k].name != []) ==> |Used(es)| == |es|
  {
    hide Used;
    if es == [] {
      UsedNone();
    } else {
      var n := |es| - 1;
      UsedCount(es[..n]);
      UsedMore(es[..n], es[n]);
      assert es == es[..n] + [es[n]];
    }
  }

  lemma UsedNone()
    ensures Used([]) == {}
  {
  }

  lemma UsedMore(es: seq<Entry>, e: Entry)
    requires NoTwins(es + [e])
    ensures Used(es + [e]) == Used(es) + (if e.name == [] then {} else {e.name})
    ensures e.name == [] || e.name !in Used(es)
  {
    var more := es + [e];
    assert more[|es|] == e && forall k :: 0 <= k < |es| ==> more[k] == es[k];
    assert forall x :: x in more <==> x in es || x == e;
  }

  lemma UsedNamed(es: seq<Entry>, m: Name)
    requires m != []
    ensures m in Used(es) <==> Named(es, m) < |es|
  {
    var s := Named(es, m);
    if s < |es| {
      assert es[s] in es && es[s].name == m;
    }
  }

  /** A page has room for ROOM names beside the way up, and takes no more when it is full. */
  lemma Capacity(t: Table, where: Labels, at: nat)
    requires Linked(t, where) && Tidy(t) && NoDots(t) && at in t
    ensures |Used(t[at]) - {DOTS}| <= ROOM
    ensures FullPage(t[at]) ==> |Used(t[at]) - {DOTS}| == ROOM
  {
    hide Linked, LeadsOn, GoodNames;
    var es := t[at];
    PageSize(t, where, at);
    UsedCount(es);
    if at == 0 {
      assert DOTS !in Used(es);
      assert Used(es) - {DOTS} == Used(es);
    } else {
      assert es[0] in es && DOTS in Used(es);
    }
    if FullPage(es) {
      forall k | 0 <= k < |es| ensures es[k].name != [] {
        assert FreeOk(t[at][k]);
      }
    }
  }

  lemma PageSize(t: Table, where: Labels, at: nat)
    requires Linked(t, where) && at in t
    ensures |t[at]| == if at == 0 then 63 else 64
  {
    assert PageSound(t, where, at);
  }

  // --- Names the paths ask for ---

  /** The names directly below q on the given paths. */
  ghost function Names(ps: seq<Path>, q: Path): set<Name> {
    set i | 0 <= i < |ps| && q < ps[i] :: ps[i][|q|]
  }

  /** No directory of the script has too many names. */
  ghost predicate Roomy(ps: seq<Path>) {
    forall q: Path :: |Names(ps, q)| <= ROOM
  }

  ghost function ItemsOf(files: seq<Placed>): (ps: seq<Path>)
    ensures |ps| == |files| && forall i :: 0 <= i < |files| ==> ps[i] == files[i].items
  {
    seq(|files|, i requires 0 <= i < |files| => files[i].items)
  }

  lemma NamesMore(ps: seq<Path>, more: seq<Path>, q: Path)
    requires ps <= more
    ensures Names(ps, q) <= Names(more, q) && |Names(ps, q)| <= |Names(more, q)|
  {
    forall m | m in Names(ps, q) ensures m in Names(more, q) {
      var i :| 0 <= i < |ps| && q < ps[i] && ps[i][|q|] == m;
      assert more[i] == ps[i];
    }
    SubsetSize(Names(ps, q), Names(more, q));
  }

  lemma {:induction false} SubsetSize(a: set<Name>, b: set<Name>)
    requires a <= b
    ensures |a| <= |b|
  {
    if a != {} {
      var x :| x in a;
      SubsetSize(a - {x}, b - {x});
    }
  }

  lemma RoomyPrefix(ps: seq<Path>, more: seq<Path>)
    requires ps <= more && Roomy(more)
    ensures Roomy(ps)
  {
    hide Names;
    forall q: Path ensures |Names(ps, q)| <= ROOM {
      NamesMore(ps, more, q);
    }
  }

  /** A directory is asked for at most one name a path. */
  lemma {:induction false} NamesAtMost(ps: seq<Path>, q: Path)
    ensures |Names(ps, q)| <= |ps|
  {
    if ps != [] {
      var k := |ps| - 1;
      NamesAtMost(ps[..k], q);
      assert ps == ps[..k] + [ps[k]];
      NamesAdd(ps[..k], ps[k], q);
    }
  }

  lemma NamesAdd(ps: seq<Path>, p: Path, q: Path)
    ensures |Names(ps + [p], q)| <= |Names(ps, q)| + 1
  {
    if q < p {
      var one := {p[|q|]};
      forall m | m in Names(ps + [p], q) ensures m in Names(ps, q) + one {
        var i :| 0 <= i < |ps + [p]| && q < (ps + [p])[i] && (ps + [p])[i][|q|] == m;
        assert i < |ps| ==> ps[i] == (ps + [p])[i];
      }
      SubsetSize(Names(ps + [p], q), Names(ps, q) + one);
    } else {
      NamesSame(ps, p, q);
    }
  }

  lemma FewAreRoomy(ps: seq<Path>)
    requires |ps| <= ROOM
    ensures Roomy(ps)
  {
    hide Names;
    forall q: Path ensures |Names(ps, q)| <= ROOM {
      NamesAtMost(ps, q);
    }
  }

  lemma NamesBelow(ps: seq<Path>, q: Path, m: Name, i: nat)
    requires i < |ps| && q + [m] <= ps[i]
    ensures m in Names(ps, q)
  {
    assert q < ps[i] && ps[i][|q|] == m;
  }

  // --- One against the other ---

  /** Only a path below p keeps p from being free. */
  lemma {:induction false} DecidedTaken(files: seq<Placed>, p: Path) returns (i: nat)
    requires Decided(files, p) != Free
    ensures i < |files| && p <= files[i].items
    decreases |files|
  {
    var k := |files| - 1;
    if p <= files[k].items {
      i := k;
    } else {
      i := DecidedTaken(files[..k], p);
    }
  }

  /** A path above a section's, below none of them, is not free. */
  lemma {:induction false} DecidedBelow(files: seq<Placed>, p: Path, i: nat)
    requires i < |files| && p <= files[i].items
    requires forall k :: 0 <= k < |files| ==> !(files[k].items < p)
    ensures Decided(files, p) != Free
    decreases |files|
  {
    var k := |files| - 1;
    if !(p <= files[k].items) {
      assert files[..k][i] == files[i];
      DecidedBelow(files[..k], p, i);
    }
  }

  lemma PlainMore(q: Path, m: Name)
    requires (q != [] ==> Plain(q)) && PlainName(m)
    ensures Plain(q + [m])
  {
  }

  /** Where a new name finds its directory full, the script asks for too much. */
  lemma FullCrowds(t: Table, where: Labels, files: seq<Placed>, q: Path, num: nat, p: Path)
    requires Linked(t, where) && Tidy(t) && NoDots(t)
    requires Plain(p) && q < p && Reach(t, 0, q) == Some(num) && num in t
    requires FullPage(t[num]) && Named(t[num], p[|q|]) == |t[num]|
    requires forall m :: PlainName(m) ==> Told(Seen(t, q + [m]), files, q + [m])
    ensures !Roomy(ItemsOf(files) + [p])
  {
    hide Linked, Tidy, NoDots, Named, Reach, Seen, Told, Names, FullPage, Used, Plain;
    var n := p[|q|];
    var ps := ItemsOf(files) + [p];
    var held := Used(t[num]) - {DOTS};
    Capacity(t, where, num);
    PlainAt(p, |q|);
    UsedNamed(t[num], n);
    forall m | m in held + {n} ensures m in Names(ps, q) {
      if m in held {
        var i := HeldAsked(t, files, q, num, m);
        assert ps[i] == files[i].items;
        NamesBelow(ps, q, m, i);
      } else {
        assert p[..|q|] == q && p[..|q| + 1] == q + [n];
        NamesBelow(ps, q, n, |files|);
      }
    }
    SubsetSize(held + {n}, Names(ps, q));
    assert |Names(ps, q)| > ROOM;
  }

  lemma PlainAt(p: Path, i: nat)
    requires Plain(p) && i < |p|
    ensures p[i] != [] && p[i] != DOTS && PlainName(p[i])
  {
  }

  /** What a page holds some section's path asked for. */
  lemma HeldAsked(t: Table, files: seq<Placed>, q: Path, num: nat, m: Name) returns (i: nat)
    requires Reach(t, 0, q) == Some(num) && num in t && m in Used(t[num]) && m != DOTS
    requires forall m :: PlainName(m) ==> Told(Seen(t, q + [m]), files, q + [m])
    ensures i < |files| && q + [m] <= files[i].items
  {
    hide Seen, Named, Reach, Decided;
    UsedNotEmpty(t[num], m);
    UsedNamed(t[num], m);
    SeenStep(t, q, num, m);
    assert PlainName(m) && Told(Seen(t, q + [m]), files, q + [m]);
    i := DecidedTaken(files, q + [m]);
  }

  lemma UsedNotEmpty(es: seq<Entry>, m: Name)
    requires m in Used(es)
    ensures m != []
  {
  }

  /** What a section's path asks for its page holds, unless some section lies above it. */
  lemma AskedHeld(t: Table, files: seq<Placed>, q: Path, num: nat, m: Name)
    requires Agrees(t, files) && AllPlain(files) && Reach(t, 0, q) == Some(num) && num in t
    requires m in Names(ItemsOf(files), q) && forall k :: 0 <= k < |files| ==> !(files[k].items <= q)
    ensures m in Used(t[num]) - {DOTS}
  {
    hide Seen, Named, Reach, Decided, Agrees, Used, Plain;
    var i :| 0 <= i < |files| && q < files[i].items && files[i].items[|q|] == m;
    var p := files[i].items;
    assert p[..|q| + 1] == q + [m];
    assert Plain(q + [m]) && PlainName(m) by { BeginsPlain(p, |q|); }
    forall k | 0 <= k < |files| ensures !(files[k].items < q + [m]) {
      NoneBetween(files[k].items, q, m);
    }
    DecidedBelow(files, q + [m], i);
    AgreesAt(t, files, q + [m]);
    SeenStep(t, q, num, m);
    UsedNamed(t[num], m);
  }

  lemma NoneBetween(a: Path, q: Path, m: Name)
    ensures a < q + [m] <==> a <= q
  {
    if a < q + [m] {
      assert q[..|a|] == (q + [m])[..|a|];
    }
  }

  lemma AboveMore(a: Path, q: Path, p: Path)
    requires q < p
    ensures a <= q ==> a < p
  {
  }

  lemma BeginsPlain(p: Path, i: nat)
    requires Plain(p) && i < |p|
    ensures Plain(p[..i + 1]) && PlainName(p[i]) && (i > 0 ==> Plain(p[..i]))
  {
  }

  lemma {:induction false} FolderReached(t: Table, at: nat, p: Path)
    requires |p| > 0 && Look(t, at, p).Some? && Look(t, at, p).value.kind == DIRECTORY
    ensures Reach(t, at, p).Some?
    decreases |p|
  {
    if |p| > 1 {
      FolderReached(t, t[at][Named(t[at], p[0])].offset, p[1..]);
    }
  }

  /** The directory of a section's path is reached. */
  lemma DirectoryThere(t: Table, where: Labels, files: seq<Placed>, f: Placed, q: Path) returns (num: nat)
    requires Linked(t, where) && AllPlain(files + [f]) && Agrees(t, files + [f]) && q < f.items
    ensures Reach(t, 0, q) == Some(num) && num in t
  {
    hide Linked, Look, Reach, Agrees, Plain;
    RootLinked(t, where);
    var more := files + [f];
    assert more[|files|] == f;
    if q == [] {
      num := 0;
      assert Reach(t, 0, q) == Some(0) by { RootReached(t); }
    } else {
      BeginsPlain(f.items, |q|);
      assert f.items[..|q|] == q;
      AgreesAt(t, more, q);
      FolderReached(t, 0, q);
      ReachLabels(t, where, 0, q);
      num := Reach(t, 0, q).value;
    }
  }

  lemma RootReached(t: Table)
    ensures Reach(t, 0, []) == Some(0)
  {
  }

  /** A section that found its slot asked for no more than there is. */
  lemma StaysRoomy(t: Table, where: Labels, files: seq<Placed>, f: Placed)
    requires Linked(t, where) && Tidy(t) && NoDots(t) && Roomy(ItemsOf(files))
    requires AllPlain(files + [f]) && Agrees(t, files + [f]) && NoneBelow(files + [f])
    ensures Roomy(ItemsOf(files + [f]))
  {
    hide Linked, Tidy, NoDots, Agrees, AllPlain, Names, Used, Reach;
    var more := files + [f];
    assert more[|files|] == f && ItemsOf(more) == ItemsOf(files) + [f.items];
    forall q: Path ensures |Names(ItemsOf(more), q)| <= ROOM {
      if q < f.items {
        var num := DirectoryThere(t, where, files, f, q);
        forall k | 0 <= k < |more| ensures !(more[k].items <= q) {
          AboveMore(more[k].items, q, f.items);
        }
        forall m | m in Names(ItemsOf(more), q) ensures m in Used(t[num]) - {DOTS} {
          AskedHeld(t, more, q, num, m);
        }
        Capacity(t, where, num);
        SubsetSize(Names(ItemsOf(more), q), Used(t[num]) - {DOTS});
      } else {
        NamesSame(ItemsOf(files), f.items, q);
      }
    }
  }

  lemma NamesSame(ps: seq<Path>, p: Path, q: Path)
    requires !(q < p)
    ensures Names(ps + [p], q) == Names(ps, q)
  {
    var more := ps + [p];
    forall m | m in Names(more, q) ensures m in Names(ps, q) {
      var i :| 0 <= i < |more| && q < more[i] && more[i][|q|] == m;
      assert i < |ps| && ps[i] == more[i];
    }
    NamesMore(ps, more, q);
  }
}
