/** The builder and the reader undo each other: what the reader finds and reads in a finished
    image is what the script's sections put there. */
module BootfsRoundTrip {
  import opened BootfsPaths
  import opened BootfsLayout
  import opened BootfsTree
  import opened BootfsPages
  import opened BootfsRoom
  import opened BootfsImage
  import opened BootfsReader
  import opened BootfsBuilder

  // --- Bytes to entries ---

  lemma {:induction false} FirstNamedIs(img: seq<Byte>, first: nat, es: seq<Entry>, name: Name)
    requires GoodNames(es) && GoodName(name) && Holds(img, first, EncodeAll(es))
    ensures FirstNamed(img, first, |es|, name) ==
      if Named(es, name) < |es| then Some(first + SLOT * Named(es, name)) else None
    decreases |es|
  {
    hide NameAt, Encode, Padded;
    if es != [] {
      SlotHolds(img, first, es, 0);
      FieldsRead(img, first, es[0]);
      NameRead(img, first, es[0].name, name);
      assert EncodeAll(es)[SLOT..SLOT + |EncodeAll(es[1..])|] == EncodeAll(es[1..]);
      HoldsPart(img, first, EncodeAll(es), SLOT, EncodeAll(es[1..]));
      FirstNamedIs(img, first + SLOT, es[1..], name);
    }
  }

  /** The identification block of a finished image. */
  lemma IdRead(img: seq<Byte>, t: Table, files: seq<Placed>, total: Word)
    requires ImageOf(img, t, files, total) && 0 in t && total > 0
    ensures |img| >= PAGE && Mountable(img)
    ensures WordAt(img, 8) == PAGE && WordAt(img, 12) == total && WordAt(img, 16) == 1
  {
    hide EncodeId, WordAt, EncodeAll, Written;
    assert PageIn(img, 0, t[0], total);
    var s := PageBytes(0, t[0], total);
    assert s[0..SLOT] == EncodeId(total);
    HoldsPart(img, 0, s, 0, EncodeId(total));
    IdFields(img, total);
  }

  lemma IdCuts(total: Word)
    ensures EncodeId(total)[0..4] == [98, 116, 102, 115] && EncodeId(total)[4..8] == Le(0x10000)
    ensures EncodeId(total)[8..12] == Le(PAGE) && EncodeId(total)[12..16] == Le(total)
    ensures EncodeId(total)[16..20] == Le(1)
  {
    hide Le, Run;
  }

  lemma IdFields(img: seq<Byte>, total: Word)
    requires Holds(img, 0, EncodeId(total))
    ensures |img| >= SLOT && img[0] == 98 && img[1] == 116 && img[2] == 102 && img[3] == 115
    ensures WordAt(img, 4) == 0x10000 && WordAt(img, 8) == PAGE && WordAt(img, 12) == total && WordAt(img, 16) == 1
  {
    hide Le, WordAt, EncodeId;
    var id := EncodeId(total);
    IdCuts(total);
    assert img[0..SLOT] == id;
    assert img[0] == id[0..4][0] && img[1] == id[0..4][1] && img[2] == id[0..4][2] && img[3] == id[0..4][3];
    hide Holds;
    HoldsPart(img, 0, id, 4, Le(0x10000));
    LeWord(img, 4, 0x10000);
    HoldsPart(img, 0, id, 8, Le(PAGE));
    LeWord(img, 8, PAGE);
    HoldsPart(img, 0, id, 12, Le(total));
    LeWord(img, 12, total);
    HoldsPart(img, 0, id, 16, Le(1));
    LeWord(img, 16, 1);
  }

  lemma SlotsOfPage(at: nat)
    ensures forall img: seq<Byte> :: at * PAGE + PAGE <= |img| ==> DirInside(img, PAGE, at, 1)
    ensures FirstSlot(PAGE, at) == (if at == 0 then SLOT else at * PAGE)
    ensures Slots(PAGE, at, 1) == if at == 0 then 63 else 64
  {
  }

  /** A directory page of the table, as the reader addresses its slots. */
  lemma {:induction false} PageSlots(img: seq<Byte>, t: Table, files: seq<Placed>, total: Word, at: nat)
    requires ImageOf(img, t, files, total) && at in t
    ensures GoodNames(t[at]) && DirInside(img, PAGE, at, 1) && Slots(PAGE, at, 1) == |t[at]|
    ensures Holds(img, FirstSlot(PAGE, at), EncodeAll(t[at]))
  {
    hide EncodeId, Written, EncodeAll, GoodNames, Slots, FirstSlot, DirInside;
    SlotsOfPage(at);
    assert PageIn(img, at, t[at], total);
    var s := PageBytes(at, t[at], total);
    if at == 0 {
      assert s[SLOT..SLOT + |EncodeAll(t[at])|] == EncodeAll(t[at]);
      HoldsPart(img, 0, s, SLOT, EncodeAll(t[at]));
    }
  }

  predicate GoodPath(p: Path) {
    p != [] && forall k :: 0 <= k < |p| ==> p[k] != [] && GoodName(p[k])
  }

  /** The reader's walk over the bytes is the lookup in the builder's pages. */
  lemma {:induction false} WalkIsLook(img: seq<Byte>, t: Table, where: Labels, files: seq<Placed>, total: Word,
                                      at: nat, p: Path)
    requires ImageOf(img, t, files, total) && Linked(t, where) && total > 0 && at in t && GoodPath(p)
    ensures |img| >= SLOT
    ensures match Look(t, at, p)
      case None => Walk(img, at, 1, p) == NotFound
      case Some(e) =>
        var r := Walk(img, at, 1, p);
        r.Found? && GoodName(e.name) && Holds(img, r.at, Encode(e))
    decreases |p|
  {
    hide ImageOf, DirInside, Slots, FirstSlot, FirstNamed, Named, Linked, WordAt, Encode, Padded, Holds, EncodeAll,
      GoodNames;
    RootLinked(t, where);
    IdRead(img, t, files, total);
    PageSlots(img, t, files, total, at);
    SlotsInside(img, PAGE, at, 1);
    var es := t[at];
    FirstNamedIs(img, FirstSlot(PAGE, at), es, p[0]);
    var s := Named(es, p[0]);
    if s < |es| {
      SlotHolds(img, FirstSlot(PAGE, at), es, s);
      GoodNameAt(es, s);
      FieldsRead(img, FirstSlot(PAGE, at) + SLOT * s, es[s]);
      if |p| > 1 && es[s].kind == DIRECTORY {
        LeadsInside(t, where, at, s);
        WalkIsLook(img, t, where, files, total, es[s].offset, p[1..]);
      }
    }
  }

  // --- What a path leads to ---

  /** Everything mkbootfs promises of a finished image. */
  ghost predicate Finished(img: seq<Byte>, t: Table, where: Labels, files: seq<Placed>, total: Word) {
    && 0 < total < LIMIT && ImageOf(img, t, files, total)
    && Linked(t, where) && Laid(t.Keys, files, total) && Faithful(t, files)
  }

  /** An entry of the image that describes section i's file. */
  ghost predicate Describes(img: seq<Byte>, a: nat, f: Placed) {
    && SLOT <= |img| && a + SLOT <= |img|
    && WordAt(img, a + 32) == f.start && WordAt(img, a + 36) == f.sec.kind
    && WordAt(img, a + 40) == Pages(f.sec.content) && WordAt(img, a + 44) == Length(f.sec.content)
    && (f.sec.content.File? && f.sec.kind != DATA ==>
      WordAt(img, a + 48) == Vaddr(f.sec) && WordAt(img, a + 52) == f.sec.ventry)
  }

  lemma FinishedIs(img: seq<Byte>, t: Table, where: Labels, files: seq<Placed>, total: Word)
    requires 0 < total < LIMIT && ImageOf(img, t, files, total)
    requires Linked(t, where) && Laid(t.Keys, files, total) && Faithful(t, files)
    ensures Finished(img, t, where, files, total)
  {
  }

  lemma DescribedLength(img: seq<Byte>, a: nat, f: Placed)
    requires Describes(img, a, f) && EntryInside(img, a)
    ensures VSize(img, a) == Length(f.sec.content)
  {
  }

  /** The reader finds at every path what the last section at, above or below it left there:
      that section's entry, nothing, or a directory. */
  lemma LocateTells(img: seq<Byte>, t: Table, where: Labels, files: seq<Placed>, total: Word, p: Path)
    requires Finished(img, t, where, files, total) && AllPlain(files) && GoodPath(p) && Plain(p)
    ensures |img| >= SLOT
    ensures var r := Walk(img, 0, 1, p);
      match Decided(files, p)
      case Free => r == NotFound
      case Inside => r.Found? && WordAt(img, r.at + 36) == DIRECTORY
      case At(i) => r.Found? && Describes(img, r.at, files[i])
  {
    hide ImageOf, Linked, Laid, Walk, Look, Decided, Encode, WordAt, Holds, Agrees;
    RootLinked(t, where);
    WalkIsLook(img, t, where, files, total, 0, p);
    AgreesAt(t, files, p);
    var e := Look(t, 0, p);
    if e.Some? {
      FieldsRead(img, Walk(img, 0, 1, p).at, e.value);
    }
  }

  // --- The way up ---

  /** One item of a path, as the reader takes it. */
  lemma Enters(img: seq<Byte>, t: Table, where: Labels, files: seq<Placed>, total: Word, at: nat, name: Name,
               rest: Path)
    requires ImageOf(img, t, files, total) && Linked(t, where) && total > 0 && at in t
    requires name != [] && GoodName(name) && rest != []
    ensures |img| >= SLOT
    ensures var s := Named(t[at], name);
      Walk(img, at, 1, [name] + rest) ==
        if s < |t[at]| && t[at][s].kind == DIRECTORY then Walk(img, t[at][s].offset, 1, rest) else NotFound
    ensures Named(t[at], name) == |t[at]| ==> Walk(img, at, 1, [name]) == NotFound
  {
    hide ImageOf, DirInside, Slots, FirstSlot, FirstNamed, Named, Linked, WordAt, Encode, Padded, Holds, EncodeAll,
      GoodNames;
    RootLinked(t, where);
    IdRead(img, t, files, total);
    PageSlots(img, t, files, total, at);
    SlotsInside(img, PAGE, at, 1);
    var es := t[at];
    FirstNamedIs(img, FirstSlot(PAGE, at), es, name);
    var s := Named(es, name);
    assert ([name] + rest)[1..] == rest;
    if s < |es| {
      SlotHolds(img, FirstSlot(PAGE, at), es, s);
      GoodNameAt(es, s);
      FieldsRead(img, FirstSlot(PAGE, at) + SLOT * s, es[s]);
      if es[s].kind == DIRECTORY {
        LeadsInside(t, where, at, s);
      }
    }
  }

  lemma BackOnPage(t: Table, at: nat, s: nat)
    requires Upward(t) && at in t && s < |t[at]| && t[at][s].kind == DIRECTORY && t[at][s].name != DOTS
    ensures var c := t[at][s].offset;
      c in t && |t[c]| > 0 && Named(t[c], DOTS) == 0 && t[c][0].kind == DIRECTORY && t[c][0].offset == at
  {
    assert LeadsBack(t, at, t[at][s]);
  }

  /** Into a directory and up again. */
  lemma {:induction false} UpAgain(img: seq<Byte>, t: Table, where: Labels, files: seq<Placed>, total: Word, at: nat,
                                   p: Path, name: Name, rest: Path)
    requires ImageOf(img, t, files, total) && Linked(t, where) && total > 0 && at in t && Upward(t)
    requires GoodPath(p + [name]) && name != DOTS && rest != [] && Reach(t, at, p + [name]).Some?
    ensures |img| >= SLOT && Walk(img, at, 1, p + ([name, DOTS] + rest)) == Walk(img, at, 1, p + rest)
    decreases |p|
  {
    hide ImageOf, Named, Linked, Walk, Upward;
    var first := (p + [name])[0];
    assert first != [] && GoodName(first);
    NamedHas(t[at], first);
    if p == [] {
      assert p + [name] == [name] && p + rest == rest && p + ([name, DOTS] + rest) == [name] + ([DOTS] + rest);
      Enters(img, t, where, files, total, at, name, [DOTS] + rest);
      BackOnPage(t, at, Named(t[at], name));
      Enters(img, t, where, files, total, t[at][Named(t[at], name)].offset, DOTS, rest);
    } else {
      var q := p[1..];
      assert p + ([name, DOTS] + rest) == [p[0]] + (q + ([name, DOTS] + rest)) && p + rest == [p[0]] + (q + rest);
      assert (p + [name])[1..] == q + [name];
      assert GoodPath(q + [name]) by {
        assert forall k :: 0 <= k < |q + [name]| ==> (q + [name])[k] == (p + [name])[k + 1];
      }
      Enters(img, t, where, files, total, at, p[0], q + ([name, DOTS] + rest));
      Enters(img, t, where, files, total, at, p[0], q + rest);
      LeadsInside(t, where, at, Named(t[at], p[0]));
      UpAgain(img, t, where, files, total, t[at][Named(t[at], p[0])].offset, q, name, rest);
    }
  }

  /** Where no section climbs, the way up of a directory leads back to the directory it is in:
      behind it is what is there without the detour, if the directory exists at all. The root
      has no way up. */
  lemma WayBack(img: seq<Byte>, t: Table, where: Labels, files: seq<Placed>, total: Word, p: Path, name: Name,
                rest: Path)
    requires Finished(img, t, where, files, total) && AllPlain(files)
    requires GoodPath(p + [name]) && name != [46, 46] && rest != []
    ensures |img| >= SLOT
    ensures var r := Walk(img, 0, 1, p + [name]);
      Walk(img, 0, 1, p + [name] + ([[46, 46]] + rest)) ==
        if r.Found? && WordAt(img, r.at + 36) == DIRECTORY then Walk(img, 0, 1, p + rest) else NotFound
    ensures Walk(img, 0, 1, [[46, 46]]) == NotFound && Walk(img, 0, 1, [[46, 46]] + rest) == NotFound
  {
    hide ImageOf, Linked, Laid, Walk, Look, Reach, Encode, WordAt, Holds, Agrees, NoneBelow, Roomy, GoodPath, Named,
      LeadsBack;
    RootLinked(t, where);
    WalkIsLook(img, t, where, files, total, 0, p + [name]);
    WalkOn(img, 0, 1, p + [name], [DOTS] + rest);
    var e := Look(t, 0, p + [name]);
    if e.Some? {
      FieldsRead(img, Walk(img, 0, 1, p + [name]).at, e.value);
      if e.value.kind == DIRECTORY {
        FolderReached(t, 0, p + [name]);
        assert p + [name] + ([DOTS] + rest) == p + ([name, DOTS] + rest);
        UpAgain(img, t, where, files, total, 0, p, name, rest);
      }
    }
    NamedHas(t[0], DOTS);
    Enters(img, t, where, files, total, 0, DOTS, rest);
  }

  // --- Reading a file back ---

  /** A described file lies in the image and holds the section's bytes. */
  lemma ReadsBack(img: seq<Byte>, t: Table, where: Labels, files: seq<Placed>, total: Word, i: nat, a: nat)
    requires Finished(img, t, where, files, total) && i < |files| && Describes(img, a, files[i])
    ensures EntryInside(img, a) && DataAt(img, a) == files[i].start * PAGE
    ensures FileBytes(img, a) == Bytes(files[i].sec.content)[..Length(files[i].sec.content)]
  {
    hide Linked, Faithful, WordAt, Bytes, Laid, Holds, PageIn, Length, Pages;
    RootLinked(t, where);
    IdRead(img, t, files, total);
    var c := files[i].sec.content;
    Beginning(img, files[i].start * PAGE, Bytes(c), Length(c));
    assert DataAt(img, a) == files[i].start * PAGE;
  }

  lemma Beginning(img: seq<Byte>, a: nat, s: seq<Byte>, n: nat)
    requires Holds(img, a, s) && n <= |s|
    ensures a + n <= |img| && img[a..a + n] == s[..n]
  {
    assert img[a..a + |s|][..n] == img[a..a + n];
  }

  /** Looking a section's path up gives its own entry exactly when no later section has that
      path or one above it. */
  lemma OwnEntry(img: seq<Byte>, t: Table, where: Labels, files: seq<Placed>, total: Word, i: nat)
    requires Finished(img, t, where, files, total) && AllPlain(files) && i < |files| && GoodPath(files[i].items)
    requires forall j :: 0 <= j < |files| ==> Pages(files[j].sec.content) > 0
    ensures |img| >= SLOT
    ensures var r := Walk(img, 0, 1, files[i].items);
      Unhidden(files, i) <==> r.Found? && Describes(img, r.at, files[i])
  {
    hide ImageOf, Linked, Walk, Decided, WordAt, Pages, Length, Agrees, NoneBelow;
    var p := files[i].items;
    LocateTells(img, t, where, files, total, p);
    DecidedOwn(files, i);
    var v := Decided(files, p);
    if v.At? && v.i != i {
      Apart(t.Keys, files, total, i, v.i);
    }
    if v.Inside? {
      InsideNotOwn(t, files, p, i);
    }
  }

  lemma Apart(dirs: set<nat>, files: seq<Placed>, total: nat, i: nat, j: nat)
    requires Laid(dirs, files, total) && i < |files| && j < |files| && i != j
    requires forall k :: 0 <= k < |files| ==> Pages(files[k].sec.content) > 0
    ensures files[i].start != files[j].start
  {
    hide Pages;
    if i < j {
      assert files[i].start + Pages(files[i].sec.content) <= files[j].start;
    } else {
      assert files[j].start + Pages(files[j].sec.content) <= files[i].start;
    }
  }

  /** A section's path is never left a directory. */
  lemma {:induction false} InsideNotOwn(t: Table, files: seq<Placed>, p: Path, i: nat)
    requires NoneBelow(files) && i < |files| && files[i].items == p
    ensures !Decided(files, p).Inside?
    decreases |files|
  {
    var k := |files| - 1;
    if i < k && files[k].items != p && !(files[k].items < p) {
      assert files[..k][i].items == p;
      InsideNotOwn(t, files[..k], p, i);
    }
  }

  /** No two sections share a path and none lies above another. */
  ghost predicate Clear(files: seq<Placed>) {
    forall i, j :: 0 <= i < |files| && 0 <= j < |files| && i != j ==> !(files[i].items <= files[j].items)
  }

  /** The round trip: every section's path leads to an entry whose file is the section's
      content. */
  lemma RoundTrip(img: seq<Byte>, t: Table, where: Labels, files: seq<Placed>, total: Word, i: nat)
    requires Finished(img, t, where, files, total) && AllPlain(files) && Clear(files) && i < |files|
    requires GoodPath(files[i].items) && forall j :: 0 <= j < |files| ==> Pages(files[j].sec.content) > 0
    ensures |img| >= SLOT
    ensures var r := Walk(img, 0, 1, files[i].items);
      && r.Found? && Describes(img, r.at, files[i]) && EntryInside(img, r.at)
      && FileBytes(img, r.at) == Bytes(files[i].sec.content)[..Length(files[i].sec.content)]
  {
    hide Finished, Walk, Describes, EntryInside, FileBytes, Bytes, Length, Pages;
    OwnEntry(img, t, where, files, total, i);
    ReadsBack(img, t, where, files, total, i, Walk(img, 0, 1, files[i].items).at);
  }

  // --- The program and the library together ---

  /** Good items of a NUL-free path are names the reader can look for. */
  lemma PathIsGood(path: seq<Byte>)
    requires Parts(path) != [] && GoodItems(Parts(path)) && 0 !in path
    ensures GoodPath(Parts(path)) && Readable(path) && Items(path) == Parts(path)
  {
    hide Split;
    forall k | 0 <= k < |Parts(path)| ensures Parts(path)[k] != [] && GoodName(Parts(path)[k]) {
      assert Item(Parts(path), k, NAMELEN) != [];
      GoodItem(path, k);
    }
  }

  /** No path of the script climbs up, is repeated or lies above another. */
  ghost predicate ClearScript(secs: seq<Section>) {
    && NoClimb(secs)
    && (forall j, k :: 0 <= j < |secs| && 0 <= k < |secs| && j != k && Parts(secs[j].path) != [] ==>
          !(Parts(secs[j].path) <= Parts(secs[k].path)))
  }

  lemma ClearFiles(files: seq<Placed>, secs: seq<Section>)
    requires FromScript(files, secs) && |files| == |secs| && ClearScript(secs)
    requires forall j :: 0 <= j < |secs| ==>
             Acceptable(secs[j]) && Parts(secs[j].path) != [] && GoodItems(Parts(secs[j].path))
    ensures AllPlain(files) && Clear(files)
    ensures forall j :: 0 <= j < |files| ==> Pages(files[j].sec.content) > 0
  {
    hide Parts, Plain, GoodItems, NoClimb;
    ScriptPlain(files, secs);
  }

  lemma ClearClimbs(secs: seq<Section>)
    requires ClearScript(secs)
    ensures NoClimb(secs)
  {
  }

  /** Such a script of up to 63 sections with good items is always built. */
  lemma FewAreBuildable(secs: seq<Section>)
    requires ClearScript(secs) && |secs| <= ROOM
    requires forall i :: 0 <= i < |secs| ==> Parts(secs[i].path) != [] && GoodItems(Parts(secs[i].path))
    ensures Buildable(secs)
  {
    hide Parts, GoodItems, Roomy;
    FewAreRoomy(PathsOf(secs));
  }

  lemma PartOfBeginning(s: seq<Byte>, n: nat, a: nat, k: nat)
    requires a + k <= n <= |s|
    ensures s[..n][a..a + k] == s[a..a + k]
  {
  }

  /** What a part of a section's bytes is. */
  lemma OfContent(c: Content, a: nat, k: nat)
    requires a + k <= Length(c)
    ensures match c
      case File(data) => Length(c) == |data| && Bytes(c)[a..a + k] == data[a..a + k]
      case Reserve(m) => Length(c) == m * 4096 && forall j :: a <= j < a + k ==> Bytes(c)[j] == 85
  {
    hide Run;
    if c.File? {
      PartOfBeginning(Bytes(c), |c.bytes|, a, k);
    }
  }

  lemma Delivered(c: Content, a: nat, k: nat, got: seq<Byte>)
    requires a + k <= Length(c) && got == Bytes(c)[a..a + k]
    ensures match c
      case File(data) => |data| == Length(c) && got == data[a..a + k]
      case Reserve(_) => forall j :: 0 <= j < k ==> got[j] == 85
  {
    hide Bytes, Length;
    OfContent(c, a, k);
    assert forall j :: 0 <= j < k ==> got[j] == Bytes(c)[a + j];
  }

  lemma WrappedOnce(cnt: Word)
    ensures Wrapped(1, cnt) == cnt
  {
  }

  /** Build an image, mount it, open a section's path, seek and read: the bytes are the
      section's, from the position sought. The image is built unless an item of a path does
      not fit a slot or a directory has too many names. */
  method BuildAndRead(secs: seq<Section>, i: nat, offs: int, buf: array<Byte>, cnt: Word)
    returns (built: bool, n: nat)
    requires secs != [] && Need(secs) < LIMIT && i < |secs| && buf.Length >= cnt
    requires ClearScript(secs)
    requires forall j :: 0 <= j < |secs| ==> Acceptable(secs[j])
    requires 0 <= offs <= Length(secs[i].content)
    modifies buf
    ensures built <==> Buildable(secs)
    ensures built ==> n == (if cnt > Length(secs[i].content) - offs then Length(secs[i].content) - offs else cnt)
    ensures built ==> buf[..n] == Bytes(secs[i].content)[offs..offs + n]
    ensures built ==> match secs[i].content
      case File(data) => buf[..n] == data[offs..offs + n]
      case Reserve(_) => forall k :: 0 <= k < n ==> buf[k] == 85
  {
    hide ClearScript, Finished, Describes, Bytes, Length, Pages, Parts, GoodItems, Walk, EntryInside, FileBytes,
      Mountable;
    hide Wrapped, Buildable, ImageOf, Linked, Laid, Faithful, Refused, GoodPath, WordAt, Clear, AllPlain, Items,
      Need, Readable;
    n := 0;
    var b := new Builder();
    ClearClimbs(secs);
    var made := b.Make(secs);
    if made.Err? {
      return false, 0;
    }
    var img := made.value;
    PathIsGood(secs[i].path);
    ClearFiles(b.files, secs);
    FinishedIs(img, b.tab, b.where, b.files, b.counter);
    RoundTrip(img, b.tab, b.where, b.files, b.counter, i);
    var v := new Volume();
    RootLinked(b.tab, b.where);
    IdRead(img, b.tab, b.files, b.counter);
    var failed := v.Mount(img);
    var r := v.Locate(secs[i].path);
    var fh := new FileHandle.OpenEntry(img, r.at);
    DescribedLength(img, r.at, b.files[i]);
    var at := fh.Seek(offs, SeekSet);
    WrappedOnce(cnt);
    n := fh.Read(buf, 1, cnt);
    PartOfBeginning(Bytes(secs[i].content), Length(secs[i].content), offs, n);
    Delivered(secs[i].content, offs, n, buf[..n]);
    return true, n;
  }
}
