/** Directory pages as a tree: looking a path up from the root, and what filling one slot of
    one page does to every lookup. */
module BootfsTree {
  import opened BootfsPaths
  import opened BootfsLayout

  datatype Option<T> = None | Some(value: T)

  /** Directory pages by page number. */
  type Table = map<nat, seq<Entry>>

  /** The first entry of that name, or the length when there is none. */
  function Named(es: seq<Entry>, name: Name): (s: nat)
    ensures s <= |es|
    ensures forall k :: 0 <= k < s ==> es[k].name != name
    ensures s < |es| ==> es[s].name == name
  {
    if es == [] || es[0].name == name then 0 else 1 + Named(es[1..], name)
  }

  function Look(t: Table, at: nat, p: Path): Option<Entry>
    requires |p| > 0
    decreases |p|
  {
    if at !in t then None else
      var s := Named(t[at], p[0]);
      if s == |t[at]| then None
      else if |p| == 1 then Some(t[at][s])
      else if t[at][s].kind != DIRECTORY then None
      else Look(t, t[at][s].offset, p[1..])
  }

  /** The directory page a path leads to when every item of it is a directory. */
  function Reach(t: Table, at: nat, p: Path): Option<nat>
    decreases |p|
  {
    if p == [] then Some(at)
    else if at !in t then None
    else
      var s := Named(t[at], p[0]);
      if s == |t[at]| || t[at][s].kind != DIRECTORY then None
      else Reach(t, t[at][s].offset, p[1..])
  }

  /** What a path stands for. */
  datatype View = Nothing | Folder | Stored(entry: Entry)

  function Seen(t: Table, p: Path): View
    requires |p| > 0
  {
    match Look(t, 0, p)
    case None => Nothing
    case Some(e) => if e.kind == DIRECTORY then Folder else Stored(e)
  }

  predicate PlainName(n: Name) {
    n != [] && n != DOTS
  }

  /** A path that names something and never climbs back up. */
  predicate Plain(p: Path) {
    |p| > 0 && forall k :: 0 <= k < |p| ==> PlainName(p[k])
  }

  // --- Pages hang together ---

  /** The path each directory page was made for. */
  type Labels = map<nat, Path>

  /** An entry of page `at` leads to a page, and unless it is the way up, to the page made
      for that name. */
  predicate LeadsOn(t: Table, where: Labels, at: nat, e: Entry) {
    e.kind == DIRECTORY ==>
      && e.offset in t && e.size == 1
      && (e.name != DOTS && at in where && e.offset in where ==> where[e.offset] == where[at] + [e.name])
  }

  predicate PageSound(t: Table, where: Labels, at: nat)
    requires at in t
  {
    && |t[at]| == (if at == 0 then 63 else 64)
    && GoodNames(t[at])
    && forall s :: 0 <= s < |t[at]| ==> LeadsOn(t, where, at, t[at][s])
  }

  predicate Linked(t: Table, where: Labels) {
    && 0 in t && where.Keys == t.Keys && where[0] == []
    && forall at :: at in t ==> PageSound(t, where, at)
  }

  lemma RootLinked(t: Table, where: Labels)
    requires Linked(t, where)
    ensures 0 in t && 0 in where && where[0] == [] && where.Keys == t.Keys
  {
  }

  lemma LeadsInside(t: Table, where: Labels, at: nat, s: nat)
    requires Linked(t, where) && at in t && s < |t[at]| && t[at][s].kind == DIRECTORY
    ensures t[at][s].offset in t && t[at][s].size == 1
  {
    assert PageSound(t, where, at);
    assert LeadsOn(t, where, at, t[at][s]);
  }

  lemma NamedHas(es: seq<Entry>, name: Name)
    ensures Named(es, name) <= |es|
    ensures Named(es, name) < |es| ==> es[Named(es, name)].name == name
  {
  }

  lemma LookStep(t: Table, at: nat, name: Name, rest: Path)
    requires at in t && rest != [] && Named(t[at], name) < |t[at]|
    ensures var e := t[at][Named(t[at], name)];
      Look(t, at, [name] + rest) == if e.kind != DIRECTORY then None else Look(t, e.offset, rest)
  {
    assert ([name] + rest)[1..] == rest;
  }

  lemma {:induction false} ReachLabels(t: Table, where: Labels, at: nat, p: Path)
    requires Linked(t, where) && at in t && (p != [] ==> Plain(p))
    ensures var r := Reach(t, at, p); r.Some? ==> r.value in t && where[r.value] == where[at] + p
    decreases |p|
  {
    if p != [] {
      var s := Named(t[at], p[0]);
      assert PageSound(t, where, at);
      if s < |t[at]| && t[at][s].kind == DIRECTORY {
        assert LeadsOn(t, where, at, t[at][s]) && PlainName(p[0]);
        PlainTail(p);
        ReachLabels(t, where, t[at][s].offset, p[1..]);
        assert where[at] + p == where[at] + [p[0]] + p[1..];
      } else {
        assert Reach(t, at, p) == None;
      }
    } else {
      assert where[at] + p == where[at];
    }
  }

  lemma PlainTail(p: Path)
    requires Plain(p)
    ensures p[1..] != [] ==> Plain(p[1..])
  {
    assert forall k :: 0 <= k < |p[1..]| ==> p[1..][k] == p[k + 1];
  }

  /** A lookup below a reached directory is a lookup in its page. */
  lemma {:induction false} LookThrough(t: Table, at: nat, q: Path, num: nat, rest: Path)
    requires Reach(t, at, q) == Some(num) && rest != []
    ensures Look(t, at, q + rest) == Look(t, num, rest)
    decreases |q|
  {
    if q == [] {
      assert q + rest == rest;
    } else {
      assert (q + rest)[1..] == q[1..] + rest;
      LookThrough(t, t[at][Named(t[at], q[0])].offset, q[1..], num, rest);
    }
  }

  lemma {:induction false} ReachThrough(t: Table, at: nat, q: Path, num: nat, rest: Path)
    requires Reach(t, at, q) == Some(num)
    ensures Reach(t, at, q + rest) == Reach(t, num, rest)
    decreases |q|
  {
    if q == [] {
      assert q + rest == rest;
    } else {
      assert (q + rest)[1..] == q[1..] + rest;
      ReachThrough(t, t[at][Named(t[at], q[0])].offset, q[1..], num, rest);
    }
  }

  // --- Filling one slot ---

  /** The slot dir_alloc_entry picks for a name: the entry of that name, or else one without
      a name. */
  predicate SlotFor(es: seq<Entry>, s: nat, name: Name) {
    s < |es| && (s == Named(es, name) || (Named(es, name) == |es| && es[s].name == []))
  }

  lemma {:induction false} NamedPut(es: seq<Entry>, s: nat, e: Entry, m: Name)
    requires SlotFor(es, s, e.name) && m != []
    ensures Named(es[s := e], m) == if m == e.name then s else Named(es, m)
  {
    NamedIs(es[s := e], m, if m == e.name then s else Named(es, m));
  }

  lemma {:induction false} NamedIs(es: seq<Entry>, m: Name, s: nat)
    requires s <= |es| && forall k :: 0 <= k < s ==> es[k].name != m
    requires s < |es| ==> es[s].name == m
    ensures Named(es, m) == s
  {
  }

  /** u is t with entry e in slot s of page num, and perhaps with new pages. */
  ghost predicate PutAt(t: Table, u: Table, num: nat, s: nat, e: Entry) {
    && num in t && SlotFor(t[num], s, e.name)
    && num in u && u[num] == t[num][s := e]
    && forall at :: at in t && at != num ==> at in u && u[at] == t[at]
  }

  lemma PutIn(t: Table, u: Table, num: nat, s: nat, e: Entry)
    requires PutAt(t, u, num, s, e)
    ensures num in t && num in u
  {
  }

  lemma PutSlot(t: Table, num: nat, s: nat, e: Entry)
    requires num in t && SlotFor(t[num], s, e.name)
    ensures PutAt(t, t[num := t[num][s := e]], num, s, e)
  {
  }

  lemma SlotIn(es: seq<Entry>, s: nat, name: Name)
    requires SlotFor(es, s, name)
    ensures s < |es|
  {
  }

  /** A lookup that does not pass the filled slot finds what it found before. */
  lemma {:induction false} Elsewhere(t: Table, where: Labels, u: Table, num: nat, s: nat, e: Entry, at: nat, p: Path)
    requires Linked(t, where) && PutAt(t, u, num, s, e) && at in t && Plain(p)
    requires !(where[num] + [e.name] <= where[at] + p)
    ensures Look(u, at, p) == Look(t, at, p)
    decreases |p|
  {
    hide Linked, PutAt, SlotFor, Named;
    var n := Named(t[at], p[0]);
    PlainHead(p);
    RootLinked(t, where);
    PutIn(t, u, num, s, e);
    assert Named(u[at], p[0]) == n && |u[at]| == |t[at]| && (n < |t[at]| ==> u[at][n] == t[at][n]) && at in u by {
      SamePlace(t, where, u, num, s, e, at, p);
    }
    if n < |t[at]| && |p| > 1 && t[at][n].kind == DIRECTORY {
      var c := t[at][n].offset;
      assert c in t && where[c] == where[at] + [p[0]] by { Onward(t, where, at, n, p[0]); }
      PlainTail(p);
      assert where[c] + p[1..] == where[at] + p;
      Elsewhere(t, where, u, num, s, e, c, p[1..]);
    }
  }

  lemma Onward(t: Table, where: Labels, at: nat, n: nat, name: Name)
    requires Linked(t, where) && at in t && n < |t[at]| && t[at][n].kind == DIRECTORY
    requires t[at][n].name == name && name != DOTS && at in where
    ensures t[at][n].offset in t && t[at][n].offset in where && where[t[at][n].offset] == where[at] + [name]
  {
    assert PageSound(t, where, at);
    assert LeadsOn(t, where, at, t[at][n]);
  }

  lemma SamePlace(t: Table, where: Labels, u: Table, num: nat, s: nat, e: Entry, at: nat, p: Path)
    requires PutAt(t, u, num, s, e) && at in t && Plain(p) && num in where && at in where
    requires !(where[num] + [e.name] <= where[at] + p)
    ensures at in u && Named(u[at], p[0]) == Named(t[at], p[0]) && |u[at]| == |t[at]|
    ensures Named(t[at], p[0]) < |t[at]| ==> u[at][Named(t[at], p[0])] == t[at][Named(t[at], p[0])]
  {
    assert PlainName(p[0]);
    if at == num {
      assert where[at] + [p[0]] <= where[at] + p;
      NamedPut(t[num], s, e, p[0]);
    }
  }

  /** The way to the page whose slot is filled is still there, and through the slot a lookup
      finds the new entry. */
  lemma {:induction false} StillReached(t: Table, where: Labels, u: Table, num: nat, s: nat, e: Entry, at: nat, q: Path)
    requires Linked(t, where) && PutAt(t, u, num, s, e) && at in t && (q != [] ==> Plain(q))
    requires Reach(t, at, q) == Some(num)
    ensures Reach(u, at, q) == Some(num)
    decreases |q|
  {
    if q != [] {
      hide Linked, PutAt, SlotFor, Named;
      ReachLabels(t, where, at, q);
      RootLinked(t, where);
      assert |where[num] + [e.name]| > |where[at] + [q[0]]|;
      PlainHead(q);
      assert !(where[num] + [e.name] <= where[at] + [q[0]]);
      SamePlace(t, where, u, num, s, e, at, [q[0]]);
      var n := Named(t[at], q[0]);
      NamedHas(t[at], q[0]);
      Onward(t, where, at, n, q[0]);
      PlainTail(q);
      StillReached(t, where, u, num, s, e, t[at][n].offset, q[1..]);
    }
  }

  lemma PlainHead(q: Path)
    requires Plain(q)
    ensures Plain([q[0]]) && q[0] != DOTS
  {
    assert PlainName(q[0]);
  }

  /** A page in which only the way up is named hides everything plain. */
  predicate Bare(es: seq<Entry>) {
    forall k :: 0 <= k < |es| ==> es[k].name == [] || es[k].name == DOTS
  }

  lemma BareHides(t: Table, at: nat, p: Path)
    requires at in t ==> Bare(t[at])
    requires Plain(p)
    ensures Look(t, at, p) == None
  {
    assert PlainName(p[0]);
  }

  // --- What a filled slot changes for every path ---

  ghost function ViewOf(e: Entry): View {
    if e.kind == DIRECTORY then Folder else Stored(e)
  }

  lemma SeenStep(t: Table, q: Path, num: nat, name: Name)
    requires Reach(t, 0, q) == Some(num) && num in t
    ensures var s := Named(t[num], name);
      && Seen(t, q + [name]) == (if s == |t[num]| then Nothing else ViewOf(t[num][s]))
      && Reach(t, 0, q + [name]) ==
         (if s < |t[num]| && t[num][s].kind == DIRECTORY then Some(t[num][s].offset) else None)
  {
    LookThrough(t, 0, q, num, [name]);
    ReachThrough(t, 0, q, num, [name]);
  }

  /** Nothing lies below a path that is not a directory. */
  lemma NothingBelow(t: Table, q: Path, num: nat, name: Name, p: Path)
    requires Reach(t, 0, q) == Some(num) && num in t
    requires Seen(t, q + [name]) != Folder && q + [name] < p
    ensures Seen(t, p) == Nothing
  {
    SeenStep(t, q, num, name);
    var rest := p[|q| + 1..];
    assert p == q + ([name] + rest);
    LookThrough(t, 0, q, num, [name] + rest);
  }

  /** The filled slot is found by its name. */
  lemma FoundAgain(t: Table, where: Labels, u: Table, num: nat, s: nat, e: Entry, q: Path)
    requires Linked(t, where) && PutAt(t, u, num, s, e) && e.name != []
    requires (q != [] ==> Plain(q)) && Reach(t, 0, q) == Some(num)
    ensures Reach(u, 0, q) == Some(num) && num in u && Named(u[num], e.name) == s && s < |u[num]| && u[num][s] == e
  {
    hide Linked, Named, Reach, SlotFor;
    RootLinked(t, where);
    StillReached(t, where, u, num, s, e, 0, q);
    NamedPut(t[num], s, e, e.name);
    SlotIn(t[num], s, e.name);
  }

  /** Below it there is nothing: a file, or a directory that is still bare. */
  lemma NothingInside(u: Table, num: nat, s: nat, e: Entry, q: Path, p: Path)
    requires Reach(u, 0, q) == Some(num) && num in u && Named(u[num], e.name) == s && s < |u[num]| && u[num][s] == e
    requires e.kind == DIRECTORY && e.offset in u ==> Bare(u[e.offset])
    requires Plain(p) && q + [e.name] < p
    ensures Seen(u, p) == Nothing
  {
    hide Named, Look, Reach;
    if e.kind == DIRECTORY {
      var rest := p[|q| + 1..];
      assert p == q + ([e.name] + rest);
      LookThrough(u, 0, q, num, [e.name] + rest);
      assert Plain(rest) by { assert forall k :: 0 <= k < |rest| ==> rest[k] == p[k + |q| + 1]; }
      BareHides(u, e.offset, rest);
      LookStep(u, num, e.name, rest);
    } else {
      SeenStep(u, q, num, e.name);
      NothingBelow(u, q, num, e.name, p);
    }
  }

  /** A slot filled under directory q changes what its own path stands for, empties
      everything below it, and changes no other plain path. */
  lemma {:induction false} SeenPut(t: Table, where: Labels, u: Table, num: nat, s: nat, e: Entry, q: Path, p: Path)
    requires Linked(t, where) && PutAt(t, u, num, s, e)
    requires (q != [] ==> Plain(q)) && Reach(t, 0, q) == Some(num) && Plain(p) && PlainName(e.name)
    requires e.kind == DIRECTORY && e.offset in u ==> Bare(u[e.offset])
    ensures Seen(u, p) ==
      if p == q + [e.name] then ViewOf(e) else if q + [e.name] < p then Nothing else Seen(t, p)
  {
    hide Linked, Named, Look, Reach, SlotFor, PutAt, Plain, Bare;
    FoundAgain(t, where, u, num, s, e, q);
    if p == q + [e.name] {
      SeenStep(u, q, num, e.name);
    } else if q + [e.name] < p {
      NothingInside(u, num, s, e, q, p);
    } else {
      RootLinked(t, where);
      ReachLabels(t, where, 0, q);
      assert [] + p == p && [] + q == q;
      Elsewhere(t, where, u, num, s, e, 0, p);
    }
  }

  // --- Pages stay together ---

  /** The page alloc_dir_page makes: zeroed, and except for the root with the way up in its
      first slot. */
  function NewPage(num: nat, parent: Word): (es: seq<Entry>)
    ensures |es| == if num == 0 then 63 else 64
    ensures GoodNames(es) && Bare(es)
  {
    if num == 0 then Blanks(63) else [Entry(DOTS, parent, DIRECTORY, 1, PAGE, 0, 0)] + Blanks(63)
  }

  function Blanks(n: nat): (es: seq<Entry>)
    ensures |es| == n
    ensures forall k :: 0 <= k < n ==> es[k] == BLANK
  {
    seq(n, _ => BLANK)
  }

  lemma LinkedRoot()
    ensures Linked(map[0 := NewPage(0, 0)], map[0 := []])
  {
  }

  lemma LinkedFile(t: Table, where: Labels, num: nat, s: nat, e: Entry)
    requires Linked(t, where) && num in t && s < |t[num]| && e.kind != DIRECTORY && GoodName(e.name)
    ensures Linked(t[num := t[num][s := e]], where)
  {
    var u := t[num := t[num][s := e]];
    forall at | at in u ensures PageSound(u, where, at) {
      assert PageSound(t, where, at);
      forall k | 0 <= k < |u[at]| ensures LeadsOn(u, where, at, u[at][k]) {
        assert at != num || k != s ==> LeadsOn(t, where, at, t[at][k]);
      }
    }
  }

  lemma LinkedFolder(t: Table, where: Labels, num: nat, s: nat, name: Name, c: Word)
    requires Linked(t, where) && num in t && s < |t[num]| && c !in t && GoodName(name) && num < 0x1_0000_0000
    ensures Linked(t[num := t[num][s := FolderEntry(name, c)]][c := NewPage(c, num)], where[c := where[num] + [name]])
  {
    var u := t[num := t[num][s := FolderEntry(name, c)]][c := NewPage(c, num)];
    var w := where[c := where[num] + [name]];
    forall at | at in u ensures PageSound(u, w, at) {
      if at != c {
        assert PageSound(t, where, at);
        forall k | 0 <= k < |u[at]| ensures LeadsOn(u, w, at, u[at][k]) {
          assert at != num || k != s ==> LeadsOn(t, where, at, t[at][k]);
        }
      }
    }
  }

  function FolderEntry(name: Name, c: Word): Entry {
    Entry(name, c, DIRECTORY, 1, PAGE, 0, 0)
  }
}
