/** The image builder: directory pages and file pages are handed out from one page counter,
    files are written as they come, directories at the end. */
module BootfsBuilder {
  import opened BootfsPaths
  import opened BootfsLayout
  import opened BootfsTree
  import opened BootfsPages
  import opened BootfsRoom
  import opened BootfsImage

  /** Where error() ends the program. */
  datatype Error = NotAFile | BadPath | Full | Fatal
  datatype Result<T> = Ok(value: T) | Err(error: Error)

  /** Page numbers below this keep every byte offset within 32 bits. */
  const LIMIT: nat := 0x10_0000

  // --- What one step does to every path ---

  ghost predicate MadeFolder(t: Table, u: Table, made: Path) {
    forall p :: Plain(p) ==> Seen(u, p) == if p == made then Folder else Seen(t, p)
  }

  /** Every path on the way down to q is a directory, the others are as before. */
  ghost predicate Opened(t: Table, u: Table, q: Path) {
    forall p :: Plain(p) ==> Seen(u, p) == if p <= q then Folder else Seen(t, p)
  }

  ghost predicate NoFileAbove(t: Table, q: Path) {
    forall p :: p != [] && p <= q ==> !Seen(t, p).Stored?
  }

  ghost predicate HasFullPage(t: Table) {
    exists at :: at in t && FullPage(t[at])
  }

  lemma OpenedMore(t: Table, u: Table, w: Table, q: Path, name: Name)
    requires Opened(t, u, q) && MadeFolder(u, w, q + [name])
    ensures Opened(t, w, q + [name])
  {
    forall p | Plain(p) ensures Seen(w, p) == if p <= q + [name] then Folder else Seen(t, p) {
      if p <= q + [name] && p != q + [name] {
        assert p <= q;
      }
    }
  }

  /** From t to u one more item of a path was walked, to a directory that was there or was
      made. */
  ghost predicate Led(t: Table, u: Table, q: Path, name: Name, num: nat) {
    && Reach(u, 0, q + [name]) == Some(num)
    && MadeFolder(t, u, q + [name]) && !Seen(t, q + [name]).Stored?
    && (Upward(t) ==> Upward(u))
  }

  ghost predicate Walked(t: Table, q: Path, name: Name, num: nat) {
    (q != [] ==> Plain(q)) && PlainName(name) && Reach(t, 0, q) == Some(num)
  }

  lemma FolderThere(t: Table, q: Path, num: nat, name: Name)
    requires Walked(t, q, name, num) && num in t && Named(t[num], name) < |t[num]|
    ensures var e := t[num][Named(t[num], name)];
      if e.kind == DIRECTORY then Led(t, t, q, name, e.offset) else Seen(t, q + [name]).Stored?
  {
    hide Named, Seen, Reach;
    SeenStep(t, q, num, name);
  }

  /** A new directory named in slot s of page num, with page c added for it. */
  function WithFolder(t: Table, num: nat, s: nat, name: Name, c: Word): Table
    requires num in t && s < |t[num]| && num < 0x1_0000_0000
  {
    t[num := t[num][s := FolderEntry(name, c)]][c := NewPage(c, num)]
  }

  lemma FolderMade(t: Table, where: Labels, u: Table, num: nat, s: nat, name: Name, c: Word, q: Path)
    requires Linked(t, where) && Tidy(t) && Walked(t, q, name, num) && GoodName(name)
    requires num in t && num < c && c !in t
    requires s < |t[num]| && t[num][s].name == [] && Named(t[num], name) == |t[num]|
    requires u == WithFolder(t, num, s, name, c)
    ensures Led(t, u, q, name, c)
  {
    hide Linked, Look, Reach, Seen, Tidy, Upward;
    var e := FolderEntry(name, c);
    RootLinked(t, where);
    if Upward(t) {
      UpwardFolder(t, num, s, name, c);
    }
    assert PutAt(t, u, num, s, e);
    forall p | Plain(p) ensures Seen(u, p) == if p == q + [name] then Folder else Seen(t, p) {
      SeenPut(t, where, u, num, s, e, q, p);
      SeenStep(t, q, num, name);
      if q + [name] < p {
        NothingBelow(t, q, num, name, p);
      }
    }
    SeenStep(t, q, num, name);
    RootLinked(t, where);
    StillReached(t, where, u, num, s, e, 0, q);
    NamedPut(t[num], s, e, name);
    SeenStep(u, q, num, name);
  }

  /** The pages in memory, the table of them, their paths and the page counter go together. */
  ghost predicate Kept(dirs: seq<DirPage>, t: Table, where: Labels, files: seq<Placed>, total: nat) {
    InStep(dirs, t) && Linked(t, where) && Strays(t, total) && Laid(t.Keys, files, total)
  }

  class Builder {
    var dirs: seq<DirPage>
    var counter: nat
    var out: seq<Byte>

    ghost var tab: Table
    ghost var where: Labels
    ghost var files: seq<Placed>

    constructor ()
      ensures Fresh()
    {
      dirs, counter, out, tab, where, files := [], 0, [], map[], map[], [];
    }

    // --- The directory pages in memory ---

    ghost predicate Tree()
      reads this
    {
      dirs != [] && dirs[0].num == 0 && Kept(dirs, tab, where, files, counter)
    }

    method AllocDirPage(num: nat, parent: Word)
      modifies `dirs
      ensures dirs == old(dirs) + [DirPage(num, NewPage(num, parent))]
    {
      dirs := dirs + [DirPage(num, NewPage(num, parent))];
    }

    /** The position of the page in the list, or the length of the list. */
    method DirPageByNum(num: nat) returns (d: nat)
      ensures d <= |dirs|
      ensures d < |dirs| ==> dirs[d].num == num
      ensures d == |dirs| ==> forall k :: 0 <= k < |dirs| ==> dirs[k].num != num
    {
      d := 0;
      while d < |dirs|
        invariant d <= |dirs|
        invariant forall k :: 0 <= k < d ==> dirs[k].num != num
      {
        if dirs[d].num == num { return; }
        d := d + 1;
      }
    }

    /** The entry of that name, or else the first free one with the name written into it. */
    method DirAllocEntry(name: Name, d: nat) returns (r: Result<nat>)
      requires d < |dirs|
      modifies `dirs
      ensures var es := old(dirs[d].entries); var s := Named(es, name);
        match r
        case Ok(k) =>
          if s < |es| then k == s && dirs == old(dirs)
          else
            && k < |es| && es[k].kind == NONE && (forall j :: 0 <= j < k ==> es[j].kind != NONE)
            && dirs == old(dirs)[d := old(dirs[d]).(entries := es[k := es[k].(name := name)])]
        case Err(e) => e == Full && s == |es| && FullPage(es) && dirs == old(dirs)
    {
      var es := dirs[d].entries;
      var i := 0;
      while i < |es|
        invariant 0 <= i <= |es|
        invariant forall k :: 0 <= k < i ==> es[k].name != name
      {
        if es[i].name == name {
          NamedIs(es, name, i);
          return Ok(i);
        }
        i := i + 1;
      }
      NamedIs(es, name, |es|);
      i := 0;
      while i < |es|
        invariant 0 <= i <= |es|
        invariant forall k :: 0 <= k < i ==> es[k].kind != NONE
      {
        if es[i].kind == NONE {
          dirs := dirs[d := dirs[d].(entries := es[i := es[i].(name := name)])];
          return Ok(i);
        }
        i := i + 1;
      }
      return Err(Full);
    }

    // --- One directory further along a path ---

    /** Turns the just named entry s of the page into a directory with a page of its own. */
    method AddFolder(d: nat, s: nat, name: Name, ghost before: seq<DirPage>)
      requires Kept(before, tab, where, files, counter) && before[0].num == 0
      requires d < |before| && s < |before[d].entries| && before[d].entries[s] == BLANK
      requires SlotFor(before[d].entries, s, name)
      requires dirs == before[d := before[d].(entries := before[d].entries[s := BLANK.(name := name)])]
      requires Tidy(tab) && GoodName(name) && name != [] && counter + 1 < LIMIT
      modifies `dirs, `counter, `tab, `where
      ensures Tree() && Tidy(tab) && |dirs| == |before| + 1 && counter == old(counter) + 1
      ensures dirs[|before|].num == old(counter)
      ensures before[d].num in old(tab) && old(tab)[before[d].num] == before[d].entries
        && before[d].num < old(counter) && old(counter) !in old(tab)
        && tab == WithFolder(old(tab), before[d].num, s, name, old(counter))
    {
      hide Kept, Tidy, WithFolder, NewPage, SlotFor;
      ghost var t := tab;
      ghost var w := where;
      var num := dirs[d].num;
      var c := counter;
      KeptPage(before, t, w, files, c, d);
      var entry := dirs[d].entries[s].(offset := c, size := 1, vsize := PAGE, kind := DIRECTORY);
      dirs := dirs[d := dirs[d].(entries := dirs[d].entries[s := entry])];
      AllocDirPage(c, num);
      counter := c + 1;
      tab := WithFolder(t, num, s, name, c);
      where := where[c := where[num] + [name]];
      FolderKept(before, t, w, files, c, d, s, name);
      ListedIs(before, old(dirs), d, s, name, c);
      assert entry == FolderEntry(name, c);
    }

    /** The body of fs_alloc_file_entry's loop for every item but the last; q is the path
        walked so far. */
    method Descend(d: nat, name: Name, ghost q: Path) returns (r: Result<nat>)
      requires Tree() && Tidy(tab) && d < |dirs| && GoodName(name) && name != []
      requires counter + 1 < LIMIT
      modifies `dirs, `counter, `tab, `where
      ensures r.Ok? ==>
        Tree() && Tidy(tab) && r.value < |dirs| && old(counter) <= counter <= old(counter) + 1
      ensures r.Err? ==> tab == old(tab) && where == old(where) && (r.error == Fatal || r.error == Full)
      ensures r.Err? && r.error == Full ==> NoSlot(tab, old(dirs[d].num), name)
      ensures Walked(old(tab), q, name, old(dirs[d].num)) ==>
        match r
        case Ok(e) => Led(old(tab), tab, q, name, dirs[e].num)
        case Err(e) => e == Fatal ==> Seen(old(tab), q + [name]).Stored?
    {
      hide Kept, Seen, Named, WithFolder, NewPage, FullPage, Tidy, Walked, Led;
      ghost var num := dirs[d].num;
      ghost var t := tab;
      ghost var w := where;
      KeptPage(dirs, t, w, files, counter, d);
      var a := DirAllocEntry(name, d);
      if a.Err? {
        return Err(a.error);
      }
      var s := a.value;
      var e := dirs[d].entries[s];
      if e.kind == NONE {
        assert FreeOk(t[num][s]) && Named(t[num], name) == |t[num]| by { FreeSlots(t, num, name); }
        AddFolder(d, s, name, old(dirs));
        if Walked(t, q, name, num) {
          KeptLinked(old(dirs), t, w, files, old(counter));
          FolderMade(t, w, tab, num, s, name, old(counter), q);
        }
        r := Ok(|dirs| - 1);
      } else {
        assert dirs == old(dirs);
        var next := DirPageByNum(e.offset);
        EntryLeads(dirs, t, w, files, counter, d, s);
        if Walked(t, q, name, num) {
          FolderThere(t, q, num, name);
        }
        r := if next == |dirs| then Err(Fatal) else Ok(next);
      }
    }

    // --- The entry of a file ---

    ghost predicate Fresh()
      reads this
    {
      dirs == [] && counter == 0 && out == [] && tab == map[] && where == map[] && files == []
    }

    /** fs_alloc_file_entry: the page and slot for the last item of the path, its name
        written into the slot. `before` is the page list without that name. */
    method FsAllocFileEntry(path: seq<Byte>) returns (r: Result<(nat, nat)>, ghost before: seq<DirPage>)
      requires Fresh() || (Tree() && Tidy(tab))
      requires path != [] && 0 !in path && counter + |path| + 3 < LIMIT
      modifies `dirs, `counter, `tab, `where
      ensures r.Err? ==> Denied(old(tab), tab, path, r.error)
      ensures r.Err? && r.error == Full ==> Linked(tab, where) && Tidy(tab)
      ensures r.Ok? ==>
        && Parts(path) != [] && GoodItems(Parts(path))
        && old(counter) <= counter <= old(counter) + |path| + 2
        && SlotChosen(before, dirs, tab, where, files, counter, r.value.0, r.value.1, Last(Parts(path)))
        && OnTheWay(old(tab), tab, Parts(path), |Parts(path)| - 1, before[r.value.0].num)
    {
      hide Kept, Split, Item, NewPage, Led, Walked, OnTheWay, Tidy, NoSlot, NoFileAbove, Body;
      hide SlotChosen, FullPage, Named, Plain, Linked, Blocked, Reach, Seen;
      before := dirs;
      if path[|path| - 1] == SLASH {
        return Err(NotAFile), before;
      }
      ghost var t0 := tab;
      ghost var c0 := counter;
      ghost var items := Items(path);
      assert items == Parts(path);
      if dirs == [] {
        AllocDirPage(0, 0);
        counter := counter + 1;
        tab := map[0 := NewPage(0, 0)];
        where := map[0 := []];
        RootKept();
        assert dirs == [DirPage(0, NewPage(0, 0))];
      }
      OpenedNone(t0, tab, items);
      var npi := ItemsCount(path);
      PathSmall(path);
      var d: nat, i: nat := 0, 0;
      while i < npi
        invariant i < npi && npi == |items| <= |path| + 1
        invariant Tree() && Tidy(tab) && d < |dirs|
        invariant c0 <= counter <= c0 + 1 + i
        invariant forall k :: 0 <= k < i ==> Item(items, k, NAMELEN) != []
        invariant OnTheWay(t0, tab, items, i, dirs[d].num)
      {
        var name := GetItem(path, i, NAMELEN);
        if name == [] {
          return Err(BadPath), before;
        }
        GoodItem(path, i);
        ghost var t := tab;
        ghost var num := dirs[d].num;
        if i == npi - 1 {
          before := dirs;
          KeptPage(before, t, where, files, counter, d);
          var a := DirAllocEntry(name, d);
          if a.Err? {
            IsBlocked(t0, t, items, i, num);
            KeptLinked(dirs, t, where, files, counter);
            return Err(Full), before;
          }
          ChosenIs(before, dirs, t, where, files, counter, d, a.value, name);
          return Ok((d, a.value)), before;
        }
        KeptLinked(dirs, t, where, files, counter);
        var e := Descend(d, name, items[..i]);
        if e.Err? {
          if e.error == Fatal {
            OnFile(t0, t, items, i, num);
          } else {
            IsBlocked(t0, t, items, i, num);
          }
          return Err(e.error), before;
        }
        OnFurther(t0, t, tab, items, i, num, dirs[e.value].num);
        d := e.value;
        i := i + 1;
      }
      assert false;
      r := Err(Fatal);
    }

    // --- Sections one after the other ---

    ghost predicate Done()
      reads this
    {
      && Tree() && Tidy(tab)
      && Written(out, files) && |out| == counter * PAGE
      && Faithful(tab, files)
    }

    /** How mkbootfs fills in a section's entry; the fields a kind does not use stay as they
        are. */
    method FillEntry(named: Entry, sec: Section, c: Word) returns (e: Entry)
      requires Acceptable(sec) && Pages(sec.content) < LIMIT && GoodName(named.name)
      ensures e.name == named.name && e.kind > DIRECTORY && e.offset == c
      ensures sec.content.Reserve? || sec.kind == DATA ==> e.vaddr == named.vaddr && e.ventry == named.ventry
      ensures forall items :: EntryFor(e, Placed(sec, items, c))
    {
      e := named.(offset := c, kind := sec.kind, size := Pages(sec.content), vsize := Length(sec.content));
      if sec.content.File? {
        if sec.kind == 2 || sec.kind == 3 {
          e := e.(vaddr := sec.vaddr, ventry := sec.ventry);
        } else if sec.kind == 5 || sec.kind == 6 {
          e := e.(vaddr := 0, ventry := sec.ventry);
        }
      }
    }

    /** The body of mkbootfs's loop. */
    method AddSection(sec: Section) returns (r: Result<nat>)
      requires Fresh() || Done()
      requires Acceptable(sec) && counter + |sec.path| + 3 + Pages(sec.content) < LIMIT
      modifies this
      ensures r.Err? ==> files == old(files) && Refused(tab, files, sec, r.error)
      ensures r.Ok? ==>
        && Done() && files == old(files) + [Placed(sec, Parts(sec.path), r.value)]
        && Parts(sec.path) != [] && GoodItems(Parts(sec.path))
        && counter <= old(counter) + |sec.path| + 2 + Pages(sec.content)
    {
      hide Kept, Tidy, Written, Faithful, SlotChosen, OnTheWay, Parts, Bytes, GoodItems, HasFullPage, Denied;
      hide Refused, EntryFor, SlotFor;
      ghost var t0 := tab;
      FaithfulStart();
      var a, before := FsAllocFileEntry(sec.path);
      if a.Err? {
        RefusedFor(t0, tab, where, files, sec, a.error);
        return Err(a.error);
      }
      var d, s := a.value.0, a.value.1;
      ghost var t := tab;
      ghost var items := Parts(sec.path);
      ChosenPage(before, dirs, t, where, files, counter, d, s, Last(items));
      var c := counter;
      var data := Bytes(sec.content);
      var e := FillEntry(dirs[d].entries[s], sec, c);
      ghost var f := Placed(sec, items, c);
      FilePlaced(before, dirs, t0, t, where, files, f, d, s, e, out);
      dirs := dirs[d := dirs[d].(entries := dirs[d].entries[s := e])];
      tab := t[dirs[d].num := before[d].entries[s := e]];
      out := WriteAt(out, c * PAGE, data);
      counter := c + Pages(sec.content);
      files := files + [f];
      r := Ok(c);
    }

    // --- The whole image ---

    /** mkbootfs. */
    method Make(secs: seq<Section>) returns (r: Result<seq<Byte>>)
      requires Fresh() && secs != [] && Need(secs) < LIMIT
      requires forall i :: 0 <= i < |secs| ==> Acceptable(secs[i])
      modifies this
      ensures FromScript(files, secs)
      ensures r.Err? ==> |files| < |secs| && Refused(tab, files, secs[|files|], r.error)
      ensures r.Ok? ==>
        && |files| == |secs|
           && (forall i :: 0 <= i < |secs| ==> Parts(secs[i].path) != [] && GoodItems(Parts(secs[i].path)))
        && 0 < counter < LIMIT && ImageOf(r.value, tab, files, counter)
        && Linked(tab, where) && Laid(tab.Keys, files, counter) && Faithful(tab, files)
      ensures NoClimb(secs) ==> (r.Ok? <==> Buildable(secs))
    {
      hide Kept, Tidy, Written, Faithful, Parts, GoodItems, Refused, Buildable, NoClimb;
      var i := 0;
      assert secs[0..] == secs;
      while i < |secs|
        invariant 0 <= i <= |secs| && |files| == i && FromScript(files, secs)
        invariant if i == 0 then Fresh() else Done()
        invariant counter + Need(secs[i..]) < LIMIT
        invariant forall k :: 0 <= k < i ==> Parts(secs[k].path) != [] && GoodItems(Parts(secs[k].path))
      {
        assert secs[i..][0] == secs[i] && secs[i..][1..] == secs[i + 1..];
        var a := AddSection(secs[i]);
        if a.Err? {
          RefusedMeans(tab, files, secs, a.error);
          return Err(a.error);
        }
        i := i + 1;
      }
      BuiltMeans(tab, files, secs);
      WriteDirectories();
      r := Ok(out);
    }

    method WriteDirectories()
      requires Done() && counter < LIMIT
      modifies `out
      ensures 0 < counter && ImageOf(out, tab, files, counter)
      ensures Linked(tab, where) && Laid(tab.Keys, files, counter) && Faithful(tab, files)
    {
      hide Tidy, Written, Faithful, Linked, Laid, InStep, PageBytes, WriteAt, PageIn;
      var fsize := counter;
      var j := 0;
      while j < |dirs|
        invariant 0 <= j <= |dirs|
        invariant |out| == fsize * PAGE && Written(out, files)
        invariant forall i :: 0 <= i < j ==> PageIn(out, dirs[i].num, dirs[i].entries, fsize)
      {
        PageWritten(out, files, dirs, tab, where, j, fsize);
        out := WriteAt(out, dirs[j].num * PAGE, PageBytes(dirs[j].num, dirs[j].entries, fsize));
        j := j + 1;
      }
      AllPages(out, dirs, tab, fsize);
      KeptPage(dirs, tab, where, files, counter, 0);
    }
  }

  lemma FilledIs(before: seq<DirPage>, named: seq<DirPage>, d: nat, s: nat, name: Name, e: Entry)
    requires d < |before| && s < |before[d].entries|
    requires named == before[d := before[d].(entries := before[d].entries[s := before[d].entries[s].(name := name)])]
    ensures before[d := before[d].(entries := before[d].entries[s := e])]
      == named[d := named[d].(entries := named[d].entries[s := e])]
    ensures |named| == |before| && named[d].num == before[d].num && |named[d].entries| == |before[d].entries|
    ensures named[d].entries[s] == before[d].entries[s].(name := name)
    ensures named[d := named[d].(entries := named[d].entries[s := e])][0].num == before[0].num
  {
    var es := before[d].entries;
    assert es[s := es[s].(name := name)][s := e] == es[s := e];
  }

  /** Where no section climbs up, every path stands for what the sections make of it. */
  ghost predicate Faithful(t: Table, files: seq<Placed>) {
    AllPlain(files) ==> Agrees(t, files) && NoneBelow(files) && Upward(t) && Roomy(ItemsOf(files))
  }

  /** Why the program stops at a section. */
  ghost predicate Refused(t: Table, files: seq<Placed>, sec: Section, e: Error) {
    match e
    case NotAFile => Parts(sec.path) == []
    case BadPath => !GoodItems(Parts(sec.path))
    case Full => HasFullPage(t)
        && (AllPlain(files) && Plain(Parts(sec.path)) ==> !Roomy(ItemsOf(files) + [Parts(sec.path)]))
    case Fatal => AllPlain(files) && Plain(Parts(sec.path)) ==>
      exists i :: 0 <= i < |files| && files[i].items < Parts(sec.path)
  }

  // --- Which scripts can be built ---

  ghost function PathsOf(secs: seq<Section>): (ps: seq<Path>)
    ensures |ps| == |secs| && forall i :: 0 <= i < |secs| ==> ps[i] == Parts(secs[i].path)
  {
    seq(|secs|, i requires 0 <= i < |secs| => Parts(secs[i].path))
  }

  ghost predicate NoClimb(secs: seq<Section>) {
    forall i :: 0 <= i < |secs| ==> DOTS !in Parts(secs[i].path)
  }

  /** Every path names a file with items that fit a slot, none lies below an earlier one, and
      no directory gets more names than fit its page. */
  ghost predicate Buildable(secs: seq<Section>) {
    && (forall i :: 0 <= i < |secs| ==> Parts(secs[i].path) != [] && GoodItems(Parts(secs[i].path)))
    && (forall a, b :: 0 <= a < b < |secs| ==> !(Parts(secs[a].path) < Parts(secs[b].path)))
    && Roomy(PathsOf(secs))
  }

  lemma GoodIsPlain(p: Path)
    requires p != [] && GoodItems(p) && DOTS !in p
    ensures Plain(p)
  {
    forall k | 0 <= k < |p| ensures PlainName(p[k]) {
      assert Item(p, k, NAMELEN) != [];
    }
  }

  lemma ScriptPlain(files: seq<Placed>, secs: seq<Section>)
    requires FromScript(files, secs) && NoClimb(secs)
    requires forall k :: 0 <= k < |files| ==> Parts(secs[k].path) != [] && GoodItems(Parts(secs[k].path))
    ensures AllPlain(files)
  {
    hide GoodItems, Parts, Plain;
    forall i | 0 <= i < |files| ensures Plain(files[i].items) {
      GoodIsPlain(files[i].items);
    }
  }

  lemma BuiltMeans(t: Table, files: seq<Placed>, secs: seq<Section>)
    requires FromScript(files, secs) && |files| == |secs| && Faithful(t, files)
    requires forall k :: 0 <= k < |secs| ==> Parts(secs[k].path) != [] && GoodItems(Parts(secs[k].path))
    ensures NoClimb(secs) ==> Buildable(secs)
  {
    hide GoodItems, Parts, AllPlain, Roomy, NoClimb;
    if NoClimb(secs) {
      ScriptPlain(files, secs);
      assert ItemsOf(files) == PathsOf(secs);
    }
  }

  lemma RefusedMeans(t: Table, files: seq<Placed>, secs: seq<Section>, e: Error)
    requires FromScript(files, secs) && |files| < |secs| && Refused(t, files, secs[|files|], e)
    requires forall k :: 0 <= k < |files| ==> Parts(secs[k].path) != [] && GoodItems(Parts(secs[k].path))
    ensures NoClimb(secs) ==> !Buildable(secs)
  {
    hide GoodItems, Parts, AllPlain, Roomy, Plain, HasFullPage;
    if NoClimb(secs) && Buildable(secs) {
      ScriptPlain(files, secs);
      GoodIsPlain(Parts(secs[|files|].path));
      var ps := ItemsOf(files) + [Parts(secs[|files|].path)];
      assert ps <= PathsOf(secs);
      RoomyPrefix(ps, PathsOf(secs));
      assert false;
    }
  }

  lemma RefusedFor(t0: Table, t: Table, where: Labels, files: seq<Placed>, sec: Section, e: Error)
    requires Faithful(t0, files) && Denied(t0, t, sec.path, e)
    requires e == Full ==> Linked(t, where) && Tidy(t)
    ensures Refused(t, files, sec, e)
  {
    hide Seen, Decided, EntryFor, HasFullPage, Parts, Roomy, OnTheWay, NoSlot, Linked, Tidy, ItemsOf;
    var p := Parts(sec.path);
    if e == Fatal && AllPlain(files) && Plain(p) {
      var q :| q != [] && q <= Above(p) && Seen(t0, q).Stored?;
      assert Plain(q) by { assert forall k :: 0 <= k < |q| ==> q[k] == p[k]; }
      assert Told(Seen(t0, q), files, q);
      var i := Decided(files, q).i;
      DecidedIs(files, q);
      assert q < p;
    }
    if e == Full {
      var i, num :| Blocked(t0, t, p, i, num);
      BlockedFull(t0, t, p, i, num);
      if AllPlain(files) && Plain(p) {
        BlockedCrowds(t0, t, where, files, p, i, num);
      }
    }
  }

  lemma BlockedFull(t0: Table, t: Table, p: Path, i: nat, num: nat)
    requires Blocked(t0, t, p, i, num)
    ensures HasFullPage(t)
  {
  }

  lemma BlockedCrowds(t0: Table, t: Table, where: Labels, files: seq<Placed>, p: Path, i: nat, num: nat)
    requires Blocked(t0, t, p, i, num) && Plain(p) && Agrees(t0, files) && Upward(t0) && Linked(t, where) && Tidy(t)
    ensures !Roomy(ItemsOf(files) + [p])
  {
    hide Seen, Told, Linked, Tidy, NoDots, LeadsBack, Reach, Named, FullPage, Roomy;
    var q := p[..i];
    forall m | PlainName(m) ensures Told(Seen(t, q + [m]), files, q + [m]) {
      assert Plain(q + [m]);
      AgreesAt(t0, files, q + [m]);
    }
    FullCrowds(t, where, files, q, num, p);
  }

  lemma FaithfulStart()
    ensures Faithful(map[], []) && Written([], [])
  {
    hide Decided;
    NoNames();
    var none: Table := map[];
    forall p | Plain(p) ensures Told(Seen(none, p), [], p) {
      DecidedNone(p);
    }
  }

  lemma NoNames()
    ensures Roomy(ItemsOf([]))
  {
    forall q: Path ensures Names(ItemsOf([]), q) == {} {
    }
  }

  lemma ChosenPage(before: seq<DirPage>, dirs: seq<DirPage>, t: Table, where: Labels, files: seq<Placed>,
                   total: nat, d: nat, s: nat, name: Name)
    requires SlotChosen(before, dirs, t, where, files, total, d, s, name)
    ensures Kept(before, t, where, files, total) && before[0].num == 0 && Tidy(t)
    ensures d < |before| && before[d].num in t && t[before[d].num] == before[d].entries
    ensures s < |before[d].entries| && SlotFor(before[d].entries, s, name) && GoodName(name) && name != []
    ensures dirs == before[d := before[d].(entries := before[d].entries[s := before[d].entries[s].(name := name)])]
    ensures total !in t
  {
    KeptPage(before, t, where, files, total, d);
  }

  /** What stays in order when a file's entry is filled in and its pages are taken. */
  lemma FileKept(before: seq<DirPage>, t: Table, where: Labels, files: seq<Placed>, f: Placed, d: nat, s: nat, e: Entry)
    requires Kept(before, t, where, files, f.start) && Tidy(t)
    requires d < |before| && s < |before[d].entries| && before[d].num in t && t[before[d].num] == before[d].entries
    requires e.kind > DIRECTORY && e.offset == f.start && f.start !in t && GoodName(e.name) && Pages(f.sec.content) > 0
    requires SlotFor(before[d].entries, s, e.name) && e.name != []
    ensures var es := before[d].entries[s := e]; var u := t[before[d].num := es];
      && Kept(before[d := before[d].(entries := es)], u, where, files + [f], f.start + Pages(f.sec.content))
      && Linked(u, where) && Tidy(u)
  {
    hide Linked, Laid, InStep, Pages, NoTwins, SlotFor;
    var num := before[d].num;
    TidyPut(num, before[d].entries, s, e);
    var es := before[d].entries[s := e];
    var u := t[num := es];
    InStepSet(before, t, d, es);
    LinkedFile(t, where, num, s, e);
    LaidFile(t.Keys, files, f);
    assert u.Keys == t.Keys;
    forall at, k | at in u && 0 <= k < |u[at]|
      ensures FreeOk(u[at][k]) && Stray(u, f.start + Pages(f.sec.content), u[at][k])
    {
      if at != num || k != s {
        assert FreeOk(t[at][k]) && Stray(t, f.start, t[at][k]);
      }
    }
  }

  /** And what every path stands for afterwards. */
  lemma FileFaithful(before: seq<DirPage>, t0: Table, t: Table, where: Labels, files: seq<Placed>, f: Placed,
                     d: nat, s: nat, e: Entry)
    requires Kept(before, t, where, files, f.start) && Faithful(t0, files) && f.items != []
    requires d < |before| && before[d].num in t && t[before[d].num] == before[d].entries
    requires SlotFor(before[d].entries, s, e.name) && e.name == Last(f.items)
    requires OnTheWay(t0, t, f.items, |f.items| - 1, before[d].num)
    requires EntryFor(e, f) && e.kind > DIRECTORY
    requires Tidy(t) && var u := t[before[d].num := before[d].entries[s := e]]; Linked(u, where) && Tidy(u)
    ensures Faithful(t[before[d].num := before[d].entries[s := e]], files + [f])
  {
    hide Seen, EntryFor, Decided, Linked, SlotFor, NoneBelow, Agrees, Tidy, Roomy;
    var more := files + [f];
    if AllPlain(more) {
      assert AllPlain(files) by { assert forall i :: 0 <= i < |files| ==> more[i] == files[i]; }
      assert more[|files|] == f;
      var q := Above(f.items);
      var num := before[d].num;
      SlotIn(before[d].entries, s, e.name);
      PutSlot(t, num, s, e);
      var u := t[num := before[d].entries[s := e]];
      assert f.items == q + [e.name];
      PlainPart(f.items, |q|);
      forall p | Plain(p) ensures Seen(u, p) == SeenWith(t0, f.items, e, p) {
        SeenPut(t, where, u, num, s, e, q, p);
        assert p < f.items <==> p <= q && p != f.items;
      }
      OneMoreTold(t0, u, files, f, e);
      forall a: Path | a != [] && a < f.items ensures !Seen(t0, a).Stored? {
        assert a <= q;
      }
      NoneBelowMore(t0, files, f);
      StillUpward(t, num, s, e);
      StaysRoomy(u, where, files, f);
    }
  }

  lemma StillUpward(t: Table, num: nat, s: nat, e: Entry)
    requires num in t && SlotFor(t[num], s, e.name) && PlainName(e.name) && Upward(t) && Tidy(t)
    requires e.kind != DIRECTORY
    ensures s < |t[num]| && Upward(t[num := t[num][s := e]])
  {
    UpwardPut(t, num, s, e);
  }

  /** Both, and the file's bytes in the image. */
  lemma FilePlaced(before: seq<DirPage>, named: seq<DirPage>, t0: Table, t: Table, where: Labels, files: seq<Placed>,
                   f: Placed,
                   d: nat, s: nat, e: Entry, out: seq<Byte>)
    requires f.items != [] && SlotChosen(before, named, t, where, files, f.start, d, s, Last(f.items))
    requires Faithful(t0, files) && OnTheWay(t0, t, f.items, |f.items| - 1, before[d].num)
    requires e.name == Last(f.items) && EntryFor(e, f) && e.kind > DIRECTORY && e.offset == f.start
    requires Acceptable(f.sec) && Written(out, files) && |out| <= f.start * PAGE
    ensures d < |named| && s < |named[d].entries| && Pages(f.sec.content) > 0
    ensures var filled := named[d := named[d].(entries := named[d].entries[s := e])];
      var u := t[named[d].num := before[d].entries[s := e]];
      var total := f.start + Pages(f.sec.content);
      var img := WriteAt(out, f.start * PAGE, Bytes(f.sec.content));
      && filled != [] && filled[0].num == 0
      && Kept(filled, u, where, files + [f], total) && Tidy(u) && Faithful(u, files + [f])
      && Written(img, files + [f]) && |img| == total * PAGE
  {
    hide Kept, Tidy, Written, Faithful, SlotChosen, OnTheWay, Bytes, WriteAt, EntryFor, SlotFor, Linked;
    ChosenPage(before, named, t, where, files, f.start, d, s, Last(f.items));
    FileKept(before, t, where, files, f, d, s, e);
    FileFaithful(before, t0, t, where, files, f, d, s, e);
    WrittenMore(out, files, f, f.start);
    FilledIs(before, named, d, s, Last(f.items), e);
  }

  lemma WrittenMore(out: seq<Byte>, files: seq<Placed>, f: Placed, c: nat)
    requires Written(out, files) && |out| <= c * PAGE && f.start == c && Pages(f.sec.content) > 0
    ensures var img := WriteAt(out, c * PAGE, Bytes(f.sec.content));
      Written(img, files + [f]) && |img| == (c + Pages(f.sec.content)) * PAGE
  {
    hide Bytes, WriteAt, Holds;
    var s := Bytes(f.sec.content);
    var img := WriteAt(out, c * PAGE, s);
    WriteHolds(out, c * PAGE, s);
    forall i | 0 <= i < |files| ensures Holds(img, files[i].start * PAGE, Bytes(files[i].sec.content)) {
      HoldsInside(out, files[i].start * PAGE, Bytes(files[i].sec.content));
      WriteKeeps(out, c * PAGE, s, files[i].start * PAGE, Bytes(files[i].sec.content));
    }
  }

  lemma AllPages(img: seq<Byte>, dirs: seq<DirPage>, t: Table, fsize: Word)
    requires InStep(dirs, t)
    requires forall i :: 0 <= i < |dirs| ==> PageIn(img, dirs[i].num, dirs[i].entries, fsize)
    ensures forall n :: n in t ==> PageIn(img, n, t[n], fsize)
  {
    forall n | n in t ensures PageIn(img, n, t[n], fsize) {
      var i :| 0 <= i < |dirs| && dirs[i].num == n;
      assert PageIn(img, dirs[i].num, dirs[i].entries, fsize);
    }
  }

  ghost function Above(p: Path): Path
    requires |p| > 0
  {
    p[..|p| - 1]
  }

  ghost function Last(p: Path): Name
    requires |p| > 0
  {
    p[|p| - 1]
  }

  /** Why there is no slot for a path. */
  ghost predicate Denied(t0: Table, t: Table, path: seq<Byte>, e: Error) {
    match e
    case NotAFile => Parts(path) == []
    case BadPath => !GoodItems(Parts(path))
    case Full => exists i, num :: Blocked(t0, t, Parts(path), i, num)
    case Fatal => Plain(Parts(path)) ==> !NoFileAbove(t0, Above(Parts(path)))
  }

  /** A full page without the name. */
  ghost predicate NoSlot(t: Table, num: nat, name: Name) {
    num in t && FullPage(t[num]) && Named(t[num], name) == |t[num]|
  }

  /** The directory of the first i items is full, and the next item is not in it. */
  ghost predicate Blocked(t0: Table, t: Table, p: Path, i: nat, num: nat) {
    i < |p| && OnTheWay(t0, t, p, i, num) && NoSlot(t, num, p[i])
  }

  lemma IsBlocked(t0: Table, t: Table, p: Path, i: nat, num: nat)
    requires i < |p| && OnTheWay(t0, t, p, i, num) && NoSlot(t, num, p[i])
    ensures exists i, num :: Blocked(t0, t, p, i, num)
  {
    assert Blocked(t0, t, p, i, num);
  }

  /** The slot picked for a name, and the page list before and after naming it. */
  ghost predicate SlotChosen(before: seq<DirPage>, dirs: seq<DirPage>, t: Table, where: Labels, files: seq<Placed>,
                             total: nat, d: nat, s: nat, name: Name) {
    && Kept(before, t, where, files, total) && before[0].num == 0 && Tidy(t)
    && d < |before| && SlotFor(before[d].entries, s, name)
    && dirs == before[d := before[d].(entries := before[d].entries[s := before[d].entries[s].(name := name)])]
    && GoodName(name) && name != []
  }

  lemma ChosenIs(before: seq<DirPage>, dirs: seq<DirPage>, t: Table, where: Labels, files: seq<Placed>,
                 total: nat, d: nat, s: nat, name: Name)
    requires Kept(before, t, where, files, total) && before[0].num == 0 && Tidy(t) && d < |before|
    requires GoodName(name) && name != []
    requires var es := before[d].entries; var n := Named(es, name);
      if n < |es| then s == n && dirs == before
      else (s < |es| && es[s].kind == NONE
        && dirs == before[d := before[d].(entries := es[s := es[s].(name := name)])])
    ensures SlotChosen(before, dirs, t, where, files, total, d, s, name)
  {
    var es := before[d].entries;
    assert t[before[d].num] == es && FreeOk(t[before[d].num][s]);
    if Named(es, name) < |es| {
      assert es[s := es[s].(name := name)] == es;
    }
  }

  lemma RootKept()
    ensures var u := map[0 := NewPage(0, 0)];
      Kept([DirPage(0, NewPage(0, 0))], u, map[0 := []], [], 1) && Tidy(u)
  {
    hide NewPage, NoTwins, Linked;
    var u := map[0 := NewPage(0, 0)];
    var none: Table := map[];
    LinkedRoot();
    NewTidy(0, 0);
    InStepAdd([], none, 0, NewPage(0, 0));
    assert Laid(u.Keys, [], 1);
    forall k | 0 <= k < |NewPage(0, 0)| ensures FreeOk(NewPage(0, 0)[k]) && Stray(u, 1, NewPage(0, 0)[k]) {
      NewSlots(0, 0, k);
    }
  }

  /** An empty root, or none at all, shows nothing. */
  lemma OpenedNone(t: Table, u: Table, items: Path)
    requires u == t || (t == map[] && u == map[0 := NewPage(0, 0)])
    requires items != []
    ensures OnTheWay(t, u, items, 0, 0)
  {
    assert items[..0] == [];
    forall p | Plain(p) ensures Seen(u, p) == Seen(t, p) {
      if u != t {
        BareHides(u, 0, p);
      }
    }
  }

  lemma PathSmall(path: seq<Byte>)
    requires Readable(path)
    ensures |Items(path)| <= |path| + 1
  {
    SplitSmall(Body(path));
  }

  lemma GoodItem(path: seq<Byte>, k: nat)
    requires Readable(path) && 0 !in path && k < |Items(path)|
    requires Item(Items(path), k, NAMELEN) != []
    ensures GoodName(Item(Items(path), k, NAMELEN)) && Item(Items(path), k, NAMELEN) == Items(path)[k]
  {
    hide Split;
    SplitSmall(Body(path));
  }

  lemma PlainPart(p: Path, i: nat)
    requires Plain(p) && i < |p|
    ensures p[..i] != [] ==> Plain(p[..i])
    ensures PlainName(p[i])
  {
  }

  /** The directory of the first i items is reached: each of them is a directory now and none
      was a file. */
  ghost predicate OnTheWay(t0: Table, t: Table, p: Path, i: nat, num: nat)
    requires i < |p|
  {
    Plain(p) ==>
      && Reach(t, 0, p[..i]) == Some(num) && Opened(t0, t, p[..i]) && NoFileAbove(t0, p[..i])
      && (Upward(t0) ==> Upward(t))
  }

  lemma NextSeen(t0: Table, t: Table, p: Path, i: nat, num: nat)
    requires Plain(p) && i + 1 < |p| && OnTheWay(t0, t, p, i, num)
    ensures p[..i] + [p[i]] == p[..i + 1] && Walked(t, p[..i], p[i], num)
    ensures Seen(t, p[..i + 1]) == Seen(t0, p[..i + 1])
  {
    hide Seen;
    PlainPart(p, i);
    PlainPart(p, i + 1);
  }

  lemma OnFurther(t0: Table, t: Table, u: Table, p: Path, i: nat, num: nat, num': nat)
    requires i + 1 < |p| && OnTheWay(t0, t, p, i, num)
    requires Walked(t, p[..i], p[i], num) ==> Led(t, u, p[..i], p[i], num')
    ensures OnTheWay(t0, u, p, i + 1, num')
  {
    hide Seen, MadeFolder, Opened;
    if Plain(p) {
      NextSeen(t0, t, p, i, num);
      OpenedMore(t0, t, u, p[..i], p[i]);
      forall a: Path | a != [] && a <= p[..i + 1] ensures !Seen(t0, a).Stored? {
        if a != p[..i + 1] {
          assert a <= p[..i];
        }
      }
    }
  }

  lemma OnFile(t0: Table, t: Table, p: Path, i: nat, num: nat)
    requires i + 1 < |p| && OnTheWay(t0, t, p, i, num)
    requires Walked(t, p[..i], p[i], num) ==> Seen(t, p[..i] + [p[i]]).Stored?
    ensures Plain(p) ==> !NoFileAbove(t0, Above(p))
  {
    hide Seen;
    if Plain(p) {
      NextSeen(t0, t, p, i, num);
      assert p[..i + 1] <= Above(p);
    }
  }

  lemma KeptLinked(dirs: seq<DirPage>, t: Table, where: Labels, files: seq<Placed>, total: nat)
    requires Kept(dirs, t, where, files, total)
    ensures Linked(t, where)
  {
  }

  lemma KeptPage(dirs: seq<DirPage>, t: Table, where: Labels, files: seq<Placed>, total: nat, d: nat)
    requires Kept(dirs, t, where, files, total) && d < |dirs|
    ensures var num := dirs[d].num; num in t && num in where && t[num] == dirs[d].entries && num < total && total !in t
  {
    hide Linked;
    RootLinked(t, where);
    assert dirs[d].num in t.Keys;
  }

  lemma EntryLeads(dirs: seq<DirPage>, t: Table, where: Labels, files: seq<Placed>, total: nat, d: nat, s: nat)
    requires Kept(dirs, t, where, files, total) && d < |dirs| && s < |dirs[d].entries|
    requires dirs[d].entries[s].kind != NONE
    ensures dirs[d].entries[s].kind == DIRECTORY
      <==> exists k :: 0 <= k < |dirs| && dirs[k].num == dirs[d].entries[s].offset
  {
    var at := dirs[d].num;
    assert PageSound(t, where, at);
    assert LeadsOn(t, where, at, t[at][s]);
    assert Stray(t, total, t[at][s]);
  }

  function Listed(dirs: seq<DirPage>, d: nat, s: nat, name: Name, c: Word): seq<DirPage>
    requires d < |dirs| && s < |dirs[d].entries| && dirs[d].num < 0x1_0000_0000
  {
    dirs[d := dirs[d].(entries := dirs[d].entries[s := FolderEntry(name, c)])] + [DirPage(c, NewPage(c, dirs[d].num))]
  }

  lemma ListedIs(before: seq<DirPage>, named: seq<DirPage>, d: nat, s: nat, name: Name, c: Word)
    requires d < |before| && s < |before[d].entries| && before[d].num < 0x1_0000_0000
    requires named == before[d := before[d].(entries := before[d].entries[s := BLANK.(name := name)])]
    ensures Listed(before, d, s, name, c) ==
            named[d := named[d].(entries := named[d].entries[s := FolderEntry(name, c)])]
      + [DirPage(c, NewPage(c, before[d].num))]
  {
    var es := before[d].entries;
    assert es[s := BLANK.(name := name)][s := FolderEntry(name, c)] == es[s := FolderEntry(name, c)];
  }

  /** A free slot has no name, so a named one is not free. */
  lemma FreeSlots(t: Table, num: nat, name: Name)
    requires Tidy(t) && num in t && name != []
    ensures forall k :: 0 <= k < |t[num]| ==> FreeOk(t[num][k])
    ensures Named(t[num], name) < |t[num]| ==> t[num][Named(t[num], name)].kind != NONE
  {
  }

  /** What stays in order when a new directory is made. */
  lemma FolderKept(dirs: seq<DirPage>, t: Table, where: Labels, files: seq<Placed>, c: Word, d: nat, s: nat, name: Name)
    requires Kept(dirs, t, where, files, c) && Tidy(t)
    requires d < |dirs| && s < |dirs[d].entries| && GoodName(name)
    requires dirs[d].num in t && dirs[d].num in where && t[dirs[d].num] == dirs[d].entries
    requires c !in t && dirs[d].num < c && name != [] && SlotFor(dirs[d].entries, s, name)
    ensures var num := dirs[d].num; var u := WithFolder(t, num, s, name, c);
      && Kept(Listed(dirs, d, s, name, c), u, where[c := where[num] + [name]], files, c + 1)
      && Tidy(u)
  {
    hide Linked, Laid, InStep, Tidy, Strays;
    var num := dirs[d].num;
    var es := t[num][s := FolderEntry(name, c)];
    InStepSet(dirs, t, d, es);
    InStepAdd(dirs[d := dirs[d].(entries := es)], t[num := es], c, NewPage(c, num));
    LinkedFolder(t, where, num, s, name, c);
    LaidDirectory(t.Keys, files, c);
    assert WithFolder(t, num, s, name, c).Keys == t.Keys + {c};
    FolderSlots(t, num, s, name, c);
  }

  lemma FolderSlots(t: Table, num: nat, s: nat, name: Name, c: Word)
    requires num in t && s < |t[num]| && c !in t && num < c
    requires Tidy(t) && Strays(t, c) && SlotFor(t[num], s, name) && name != []
    ensures Tidy(WithFolder(t, num, s, name, c)) && Strays(WithFolder(t, num, s, name, c), c + 1)
  {
    hide NewPage, NoTwins, SlotFor;
    TidyPut(num, t[num], s, FolderEntry(name, c));
    NewTidy(c, num);
    var u := WithFolder(t, num, s, name, c);
    forall at, k | at in u && 0 <= k < |u[at]| ensures FreeOk(u[at][k]) && Stray(u, c + 1, u[at][k]) {
      if at == c {
        NewSlots(c, num, k);
      } else if at != num || k != s {
        assert FreeOk(t[at][k]) && Stray(t, c, t[at][k]);
      }
    }
  }

  lemma NewTidy(num: nat, parent: Word)
    ensures NoTwins(NewPage(num, parent))
    ensures num != 0 ==> NewPage(num, parent)[0].name == DOTS
    ensures num == 0 ==> Undotted(NewPage(num, parent))
  {
  }

  lemma NewSlots(num: nat, parent: Word, k: nat)
    requires k < |NewPage(num, parent)|
    ensures var e := NewPage(num, parent)[k]; FreeOk(e) && e.kind <= DIRECTORY
  {
  }
}
