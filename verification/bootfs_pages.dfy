/** What a boot file system script asks for, where its pages end up, and which of its
    sections a path stands for. */
module BootfsPages {
  import opened BootfsPaths
  import opened BootfsLayout
  import opened BootfsTree

  // --- Script sections ---

  datatype Content = Reserve(pages: nat) | File(bytes: seq<Byte>)

  /** The ELF kinds carry the entry point found in the file; the script's vaddr does not
      apply to them. */
  datatype Section = Section(path: seq<Byte>, kind: Word, content: Content, vaddr: Word, ventry: Word)

  /** What extract_params lets through: a known type, and a reserve above zero. */
  predicate Acceptable(sec: Section) {
    && sec.path != [] && 0 !in sec.path
    && 2 <= sec.kind <= 6
    && (sec.content.Reserve? ==> sec.content.pages > 0)
  }

  /** A file always takes a page more than it fills. */
  function Pages(c: Content): nat {
    match c
    case Reserve(n) => n
    case File(b) => |b| / PAGE + 1
  }

  function Length(c: Content): nat {
    match c
    case Reserve(n) => n * PAGE
    case File(b) => |b|
  }

  /** The bytes written: the file, padded with 'U' to whole pages. */
  function Bytes(c: Content): (s: seq<Byte>)
    ensures |s| == Pages(c) * PAGE
    ensures Length(c) <= |s|
    ensures c.File? ==> |c.bytes| < |s| <= |c.bytes| + 4096 && s[..|c.bytes|] == c.bytes
    ensures forall k :: (if c.File? then |c.bytes| else 0) <= k < |s| ==> s[k] == 85
  {
    match c
    case Reserve(n) => Run(n * PAGE, 85)
    case File(b) => b + Run((|b| / PAGE + 1) * PAGE - |b|, 85)
  }

  /** The items of a section's path; a path that ends in a slash names no file. */
  ghost function Parts(path: seq<Byte>): Path {
    if path == [] || path[|path| - 1] == SLASH then [] else Items(path)
  }

  predicate GoodItems(p: Path) {
    forall k :: 0 <= k < |p| ==> Item(p, k, NAMELEN) != []
  }

  // --- Where the pages are ---

  datatype Placed = Placed(sec: Section, items: Path, start: nat)

  predicate InFile(f: Placed, n: nat) {
    f.start <= n < f.start + Pages(f.sec.content)
  }

  ghost predicate InFiles(files: seq<Placed>, n: nat) {
    exists i :: 0 <= i < |files| && InFile(files[i], n)
  }

  /** Directory pages and the files' page ranges fill the pages below `total` without
      overlapping. */
  ghost predicate Laid(dirs: set<nat>, files: seq<Placed>, total: nat) {
    && (forall i, j :: 0 <= i < j < |files| ==> files[i].start + Pages(files[i].sec.content) <= files[j].start)
    && (forall i :: 0 <= i < |files| ==> files[i].start + Pages(files[i].sec.content) <= total)
    && (forall n :: n in dirs ==> n < total && !InFiles(files, n))
    && (forall n :: 0 <= n < total ==> n in dirs || InFiles(files, n))
  }

  lemma LaidBelow(dirs: set<nat>, files: seq<Placed>, total: nat, n: nat)
    requires Laid(dirs, files, total) && n in dirs
    ensures n < total
  {
  }

  lemma LaidDirectory(dirs: set<nat>, files: seq<Placed>, total: nat)
    requires Laid(dirs, files, total)
    ensures Laid(dirs + {total}, files, total + 1)
  {
  }

  lemma LaidFile(dirs: set<nat>, files: seq<Placed>, f: Placed)
    requires Laid(dirs, files, f.start) && Pages(f.sec.content) > 0
    ensures Laid(dirs, files + [f], f.start + Pages(f.sec.content))
  {
    var more := files + [f];
    var total := f.start + Pages(f.sec.content);
    assert more[|files|] == f;
    forall n | 0 <= n < total && n !in dirs ensures InFiles(more, n) {
      if n < f.start {
        var i :| 0 <= i < |files| && InFile(files[i], n);
        assert InFile(more[i], n);
      } else {
        assert InFile(more[|files|], n);
      }
    }
    forall n | n in dirs ensures !InFiles(more, n) {
      assert forall i :: 0 <= i < |files| ==> more[i] == files[i];
      assert forall i :: 0 <= i < |more| && InFile(more[i], n) ==> i == |files| || InFile(files[i], n);
    }
  }

  /** The bytes of every file are in place. */
  ghost predicate Written(img: seq<Byte>, files: seq<Placed>) {
    forall i :: 0 <= i < |files| ==> Holds(img, files[i].start * PAGE, Bytes(files[i].sec.content))
  }

  // --- Which section a path stands for ---

  datatype Verdict = Free | Inside | At(i: nat)

  /** The last section whose path is the given one, or lies above or below it, decides. */
  function Decided(files: seq<Placed>, p: Path): (v: Verdict)
    ensures v.At? ==> v.i < |files| && files[v.i].items == p
  {
    if files == [] then Free else
      var last := files[|files| - 1];
      if last.items == p then At(|files| - 1)
      else if last.items < p then Free
      else if p < last.items then Inside
      else Decided(files[..|files| - 1], p)
  }

  lemma DecidedIs(files: seq<Placed>, p: Path)
    ensures var v := Decided(files, p); v.At? ==> v.i < |files| && files[v.i].items == p
  {
  }

  lemma DecidedNone(p: Path)
    ensures Decided([], p) == Free
  {
  }

  predicate AllPlain(files: seq<Placed>) {
    forall i :: 0 <= i < |files| ==> Plain(files[i].items)
  }

  /** A directory entry that describes a section as mkbootfs fills it in. */
  predicate EntryFor(e: Entry, f: Placed) {
    && e.kind == f.sec.kind && e.offset == f.start
    && e.size == Pages(f.sec.content) && e.vsize == Length(f.sec.content)
    && (f.sec.content.File? && f.sec.kind != DATA ==> e.ventry == f.sec.ventry && e.vaddr == Vaddr(f.sec))
  }

  function Vaddr(sec: Section): Word {
    if sec.kind <= 3 then sec.vaddr else 0
  }

  predicate Told(v: View, files: seq<Placed>, p: Path) {
    match Decided(files, p)
    case Free => v == Nothing
    case Inside => v == Folder
    case At(i) => v.Stored? && v.entry.kind != DIRECTORY && EntryFor(v.entry, files[i])
  }

  /** Every plain path stands for what the sections make of it. */
  ghost predicate Agrees(t: Table, files: seq<Placed>) {
    forall p :: Plain(p) ==> Told(Seen(t, p), files, p)
  }

  lemma AgreesAt(t: Table, files: seq<Placed>, p: Path)
    requires Agrees(t, files) && Plain(p)
    ensures Told(Seen(t, p), files, p)
  {
  }

  /** A section is the one its own path stands for exactly when no later section has that
      path or lies above it. */
  ghost predicate Unhidden(files: seq<Placed>, i: nat)
    requires i < |files|
  {
    forall j :: i < j < |files| ==> !(files[j].items <= files[i].items)
  }

  lemma {:induction false} DecidedOwn(files: seq<Placed>, i: nat)
    requires i < |files|
    requires NoneBelow(files)
    ensures Decided(files, files[i].items) == At(i) <==> Unhidden(files, i)
    decreases |files|
  {
    var p := files[i].items;
    var k := |files| - 1;
    if i < k {
      var init := files[..k];
      DecidedOwn(init, i);
      assert init[i].items == p;
      if files[k].items <= p {
        assert !Unhidden(files, i);
        assert Decided(files, p) != At(i);
      } else {
        assert Unhidden(files, i) <==> Unhidden(init, i);
      }
    }
  }

  /** No section is placed below a path that an earlier one took. */
  ghost predicate NoneBelow(files: seq<Placed>) {
    forall a, b :: 0 <= a < b < |files| ==> !(files[a].items < files[b].items)
  }

  /** Some file is seen on the way to any path below a section's. */
  lemma {:induction false} SeenAbove(files: seq<Placed>, a: nat) returns (j: nat)
    requires a < |files| && NoneBelow(files)
    ensures a <= j < |files| && files[j].items <= files[a].items
    ensures Decided(files, files[j].items) == At(j)
    decreases |files| - a
  {
    if Unhidden(files, a) {
      DecidedOwn(files, a);
      j := a;
    } else {
      var k :| a < k < |files| && files[k].items <= files[a].items;
      j := SeenAbove(files, k);
    }
  }

  // --- What one more section changes ---

  lemma OneMoreTold(t: Table, u: Table, files: seq<Placed>, f: Placed, e: Entry)
    requires Agrees(t, files) && Plain(f.items) && EntryFor(e, f) && e.kind > DIRECTORY
    requires forall p :: Plain(p) ==> Seen(u, p) == SeenWith(t, f.items, e, p)
    ensures Agrees(u, files + [f])
  {
    hide Seen, EntryFor;
    var more := files + [f];
    assert more[..|files|] == files;
    forall p | Plain(p) ensures Told(Seen(u, p), more, p) {
      assert Told(Seen(t, p), files, p);
    }
  }

  /** The section's path stands for its entry, everything above it for a directory, and
      nothing is below it. */
  ghost function SeenWith(t: Table, path: Path, e: Entry, p: Path): View
    requires |p| > 0
  {
    if p == path then Stored(e) else if path < p then Nothing else if p < path then Folder else Seen(t, p)
  }

  lemma NoneBelowMore(t: Table, files: seq<Placed>, f: Placed)
    requires Agrees(t, files) && AllPlain(files) && NoneBelow(files) && Plain(f.items)
    requires forall q :: q != [] && q < f.items ==> !Seen(t, q).Stored?
    ensures NoneBelow(files + [f])
  {
    hide Seen, Decided, EntryFor;
    forall a | 0 <= a < |files| ensures !(files[a].items < f.items) {
      var j := SeenAbove(files, a);
      var q := files[j].items;
      assert Plain(q) && Told(Seen(t, q), files, q);
    }
  }

  // --- The list of directory pages and the table of them ---

  datatype DirPage = DirPage(num: nat, entries: seq<Entry>)

  ghost predicate InStep(dirs: seq<DirPage>, t: Table) {
    && (forall i :: 0 <= i < |dirs| ==> dirs[i].num in t && t[dirs[i].num] == dirs[i].entries)
    && (forall i, j :: 0 <= i < j < |dirs| ==> dirs[i].num != dirs[j].num)
    && (forall n :: n in t ==> exists i :: 0 <= i < |dirs| && dirs[i].num == n)
  }

  lemma InStepSet(dirs: seq<DirPage>, t: Table, d: nat, es: seq<Entry>)
    requires InStep(dirs, t) && d < |dirs|
    ensures InStep(dirs[d := dirs[d].(entries := es)], t[dirs[d].num := es])
  {
    var more := dirs[d := dirs[d].(entries := es)];
    var u := t[dirs[d].num := es];
    assert forall i :: 0 <= i < |dirs| ==> more[i].num == dirs[i].num;
    forall n | n in u ensures exists i :: 0 <= i < |more| && more[i].num == n {
      assert n in t;
      var i :| 0 <= i < |dirs| && dirs[i].num == n;
      assert more[i].num == n;
    }
  }

  lemma InStepAdd(dirs: seq<DirPage>, t: Table, num: nat, es: seq<Entry>)
    requires InStep(dirs, t) && num !in t
    ensures InStep(dirs + [DirPage(num, es)], t[num := es])
  {
    var more := dirs + [DirPage(num, es)];
    var u := t[num := es];
    assert more[|dirs|].num == num;
    forall n | n in u ensures exists i :: 0 <= i < |more| && more[i].num == n {
      if n in t {
        var i :| 0 <= i < |dirs| && dirs[i].num == n;
        assert more[i].num == n;
      }
    }
  }

  /** Free slots carry no name, the others different ones; all pages but the root start with
      the way up. */
  ghost predicate Tidy(t: Table) {
    && (forall at, k :: at in t && 0 <= k < |t[at]| ==> FreeOk(t[at][k]))
    && forall at :: at in t ==> NoTwins(t[at]) && (at != 0 ==> |t[at]| > 0 && t[at][0].name == DOTS)
  }

  predicate FreeOk(e: Entry) {
    (e.kind == NONE ==> e == BLANK) && (e.kind != NONE ==> e.name != [])
  }

  predicate NoTwins(es: seq<Entry>) {
    forall j, k :: 0 <= j < k < |es| && es[j].name != [] ==> es[j].name != es[k].name
  }

  /** Nothing in the root is named like the way up. */
  ghost predicate NoDots(t: Table) {
    0 in t ==> Undotted(t[0])
  }

  /** And every other directory's page leads back up to the page it is named on. */
  ghost predicate Upward(t: Table) {
    NoDots(t) && forall at, k :: at in t && 0 <= k < |t[at]| ==> LeadsBack(t, at, t[at][k])
  }

  predicate LeadsBack(t: Table, at: nat, e: Entry) {
    e.kind == DIRECTORY && e.name != DOTS ==>
      e.offset != 0 && e.offset in t && |t[e.offset]| > 0 && IsWayUp(t[e.offset][0], at)
  }

  predicate IsWayUp(e: Entry, parent: nat) {
    e.name == DOTS && e.kind == DIRECTORY && e.offset == parent && e.size == 1
  }

  predicate Undotted(es: seq<Entry>) {
    forall k :: 0 <= k < |es| ==> es[k].name != DOTS
  }

  /** The slot picked for a name keeps the names of a page different. */
  lemma TidyPut(at: nat, es: seq<Entry>, s: nat, e: Entry)
    requires NoTwins(es) && SlotFor(es, s, e.name) && e.name != []
    ensures s < |es| && NoTwins(es[s := e])
    ensures |es| > 0 && es[0].name == DOTS ==> es[s := e][0].name == DOTS
    ensures DOTS != e.name && Undotted(es) ==> Undotted(es[s := e])
  {
    NamedHas(es, e.name);
  }

  /** Only in the root is a name ever written into the first slot. */
  lemma SlotBehind(t: Table, num: nat, s: nat, name: Name)
    requires Tidy(t) && num in t && SlotFor(t[num], s, name) && PlainName(name) && s < |t[num]|
    ensures num != 0 ==> s != 0
  {
  }

  lemma UpwardPut(t: Table, num: nat, s: nat, e: Entry)
    requires Upward(t) && Tidy(t) && num in t && s < |t[num]| && SlotFor(t[num], s, e.name) && PlainName(e.name)
    requires e.kind != DIRECTORY
    ensures Upward(t[num := t[num][s := e]])
  {
    hide Tidy, SlotFor;
    var u := t[num := t[num][s := e]];
    SlotBehind(t, num, s, e.name);
    forall at, k | at in u && 0 <= k < |u[at]| ensures LeadsBack(u, at, u[at][k]) {
      assert at != num || k != s ==> LeadsBack(t, at, t[at][k]);
    }
  }

  lemma UpwardFolder(t: Table, num: nat, s: nat, name: Name, c: Word)
    requires Upward(t) && Tidy(t) && num in t && s < |t[num]| && SlotFor(t[num], s, name) && PlainName(name)
    requires c !in t && c != 0 && 0 in t && num < 0x1_0000_0000
    ensures Upward(t[num := t[num][s := FolderEntry(name, c)]][c := NewPage(c, num)])
  {
    hide Tidy, SlotFor;
    var u := t[num := t[num][s := FolderEntry(name, c)]][c := NewPage(c, num)];
    SlotBehind(t, num, s, name);
    forall at, k | at in u && 0 <= k < |u[at]| ensures LeadsBack(u, at, u[at][k]) {
      assert at != c && (at != num || k != s) ==> LeadsBack(t, at, t[at][k]);
    }
  }

  /** No file's entry points at a directory page. */
  ghost predicate Strays(t: Table, total: nat) {
    forall at, k :: at in t && 0 <= k < |t[at]| ==> Stray(t, total, t[at][k])
  }

  predicate Stray(t: Table, total: nat, e: Entry) {
    e.kind > DIRECTORY ==> e.offset < total && e.offset !in t
  }
}
