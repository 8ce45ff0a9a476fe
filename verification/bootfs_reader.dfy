/** The boot-time reader: it finds entries and reads files straight from the bytes of an
    image in memory. */
module BootfsReader {
  import opened BootfsPaths
  import opened BootfsLayout
  import opened BootfsTree

  /** A lookup ends at the address of an entry, without one, or in reads outside the image,
      whose effect is undefined. */
  datatype Find = Found(at: nat) | NotFound | Outside

  // --- One directory ---

  /** A directory's pages lie inside the image, the root's with its first slot. */
  predicate DirInside(img: seq<Byte>, psize: nat, page: nat, npages: nat) {
    && page * psize + npages * psize <= |img|
    && (page == 0 ==> npages * psize >= SLOT)
  }

  function FirstSlot(psize: nat, page: nat): nat {
    if page == 0 then SLOT else page * psize
  }

  function Slots(psize: nat, page: nat, npages: nat): nat {
    var all := npages * psize / SLOT;
    if page == 0 && all > 0 then all - 1 else all
  }

  /** A directory's slots fill its pages, whatever the page size; the root's first slot is
      none of them. */
  lemma SlotsFill(psize: nat, page: nat, npages: nat)
    ensures var first, count := FirstSlot(psize, page), Slots(psize, page, npages);
      && (page > 0 ==> first == page * psize && 64 * count <= npages * psize < 64 * (count + 1))
      && (page == 0 && npages * psize >= 64 ==> first == 64 && 64 * (count + 1) <= npages * psize < 64 * (count + 2))
      && (page == 0 && npages * psize < 64 ==> count == 0)
  {
    var size := npages * psize;
    assert size == size / SLOT * SLOT + size % SLOT;
    if size < SLOT {
      assert size / SLOT == 0;
    }
  }

  lemma SlotsInside(img: seq<Byte>, psize: nat, page: nat, npages: nat)
    requires DirInside(img, psize, page, npages)
    ensures FirstSlot(psize, page) + Slots(psize, page, npages) * SLOT <= |img|
  {
    var size := npages * psize;
    assert size / SLOT * SLOT <= size;
    if page == 0 {
      assert page * psize == 0;
    }
  }

  function FirstNamed(img: seq<Byte>, first: nat, count: nat, name: Name): (r: Option<nat>)
    requires first + count * SLOT <= |img| && |name| < NAMELEN
    ensures r.Some? ==> r.value + SLOT <= |img|
    decreases count
  {
    if count == 0 then None
    else if NameAt(img, first, name) then Some(first)
    else FirstNamed(img, first + SLOT, count - 1, name)
  }

  method EntLocate(img: seq<Byte>, first: nat, count: nat, name: Name) returns (r: Option<nat>)
    requires first + count * SLOT <= |img| && |name| < NAMELEN
    ensures r == FirstNamed(img, first, count, name)
  {
    hide NameAt;
    var i := 0;
    while i < count
      invariant 0 <= i <= count
      invariant FirstNamed(img, first + i * SLOT, count - i, name) == FirstNamed(img, first, count, name)
    {
      var a := first + i * SLOT;
      if NameAt(img, a, name) {
        return Some(a);
      }
      i := i + 1;
    }
    return None;
  }

  // --- A path, item by item ---

  function Walk(img: seq<Byte>, page: nat, npages: nat, items: Path): (r: Find)
    requires |img| >= SLOT && items != []
    ensures r.Found? ==> r.at + SLOT <= |img|
    decreases |items|
  {
    hide FirstNamed, Slots, FirstSlot;
    var psize := WordAt(img, 8);
    var name := items[0];
    if name == [] || |name| >= NAMELEN then NotFound
    else if !DirInside(img, psize, page, npages) then Outside
    else
      SlotsInside(img, psize, page, npages);
      match FirstNamed(img, FirstSlot(psize, page), Slots(psize, page, npages), name)
      case None => NotFound
      case Some(a) =>
        if |items| == 1 then Found(a)
        else if WordAt(img, a + 36) != DIRECTORY then NotFound
        else Walk(img, WordAt(img, a + 32), WordAt(img, a + 40), items[1..])
  }

  /** Walking on from a directory: what chdir and a relative path amount to. */
  lemma {:induction false} WalkOn(img: seq<Byte>, page: nat, npages: nat, p: Path, q: Path)
    requires |img| >= SLOT && p != [] && q != []
    ensures Walk(img, page, npages, p + q) ==
      match Walk(img, page, npages, p)
      case Found(a) =>
        if WordAt(img, a + 36) == DIRECTORY then Walk(img, WordAt(img, a + 32), WordAt(img, a + 40), q) else NotFound
      case NotFound => NotFound
      case Outside => Outside
    decreases |p|
  {
    hide FirstNamed, Slots, FirstSlot, DirInside, WordAt;
    assert (p + q)[0] == p[0] && |p + q| > 1;
    if |p| == 1 {
      assert (p + q)[1..] == q;
    } else {
      assert (p + q)[1..] == p[1..] + q;
      var psize := WordAt(img, 8);
      if p[0] != [] && |p[0]| < NAMELEN && DirInside(img, psize, page, npages) {
        SlotsInside(img, psize, page, npages);
        var r := FirstNamed(img, FirstSlot(psize, page), Slots(psize, page, npages), p[0]);
        if r.Some? && WordAt(img, r.value + 36) == DIRECTORY {
          WalkOn(img, WordAt(img, r.value + 32), WordAt(img, r.value + 40), p[1..], q);
        }
      }
    }
  }

  /** What btfs_mount checks of the first slot. */
  predicate Mountable(img: seq<Byte>)
    requires |img| >= SLOT
  {
    && img[0] == 98 && img[1] == 116 && img[2] == 102 && img[3] == 115
    && WordAt(img, 4) == 0x10000 && WordAt(img, 8) != 0 && WordAt(img, 12) != 0 && WordAt(img, 16) != 0
  }

  class Volume {
    var img: seq<Byte>
    var cwd: Word
    var scwd: Word

    constructor () {
      img, cwd, scwd := [], 0, 0;
    }

    method Mount(addr: seq<Byte>) returns (failed: bool)
      requires |addr| >= SLOT
      modifies this
      ensures failed <==> !Mountable(addr)
      ensures if failed then img == old(img) && cwd == old(cwd) && scwd == old(scwd)
              else img == addr && cwd == 0 && scwd == WordAt(addr, 16)
    {
      var magic: seq<Byte> := [98, 116, 102, 115];
      var i := 0;
      while i < 4
        invariant 0 <= i <= 4
        invariant forall k :: 0 <= k < i ==> addr[k] == magic[k]
      {
        if addr[i] != magic[i] { return true; }
        i := i + 1;
      }
      if WordAt(addr, 4) != 0x10000 || WordAt(addr, 8) == 0 || WordAt(addr, 12) == 0 || WordAt(addr, 16) == 0 {
        return true;
      }
      img, cwd, scwd := addr, 0, WordAt(addr, 16);
      return false;
    }

    /** Where the first item of a path is looked for. */
    function Start(path: seq<Byte>): (nat, nat)
      requires path != []
      reads `cwd, `scwd
    {
      if path[0] == SLASH then (0, 1) else (cwd as nat, scwd as nat)
    }

    method Locate(path: seq<Byte>) returns (r: Find)
      requires |img| >= SLOT && Readable(path)
      ensures r == Walk(img, Start(path).0, Start(path).1, Items(path))
      ensures path[0] == SLASH ==> r == Walk(img, 0, 1, Items(path))
      ensures path[0] != SLASH ==> r == Walk(img, cwd, scwd, Items(path))
    {
      hide Items, FirstNamed, DirInside, Slots, FirstSlot, WordAt;
      var page: nat, npages: nat := cwd, scwd;
      if path[0] == SLASH {
        page, npages := 0, 1;
      }
      var psize := WordAt(img, 8);
      ghost var items := Items(path);
      assert items[0..] == items;
      var en := 0;
      var npi := ItemsCount(path);
      var i := 0;
      while i < npi
        invariant 0 <= i <= npi
        invariant Walk(img, Start(path).0, Start(path).1, items)
          == if i < npi then Walk(img, page, npages, items[i..]) else Found(en)
      {
        assert items[i..][0] == items[i] && items[i..][1..] == items[i + 1..];
        var name := GetItem(path, i, NAMELEN);
        if name == [] {
          return NotFound;
        }
        if !DirInside(img, psize, page, npages) {
          return Outside;
        }
        SlotsInside(img, psize, page, npages);
        var found := EntLocate(img, FirstSlot(psize, page), Slots(psize, page, npages), name);
        if found == None {
          return NotFound;
        }
        en := found.value;
        if i < npi - 1 && WordAt(img, en + 36) != DIRECTORY {
          return NotFound;
        }
        page, npages := WordAt(img, en + 32), WordAt(img, en + 40);
        i := i + 1;
      }
      r := Found(en);
    }

    method Chdir(path: seq<Byte>) returns (failed: bool)
      requires |img| >= SLOT && path != []
      modifies `cwd, `scwd
      ensures path == [SLASH] ==> !failed && cwd == 0 && scwd == 1
      ensures path != [SLASH] ==>
        match old(Walk(img, Start(path).0, Start(path).1, Items(path)))
        case Found(a) =>
          if WordAt(img, a + 36) == DIRECTORY then !failed && cwd == WordAt(img, a + 32) && scwd == WordAt(img, a + 40)
          else failed && cwd == old(cwd) && scwd == old(scwd)
        case NotFound => failed && cwd == old(cwd) && scwd == old(scwd)
        case Outside => failed && cwd == old(cwd) && scwd == old(scwd)
    {
      hide Walk, Items, WordAt;
      if |path| == 1 && path[0] == SLASH {
        cwd, scwd := 0, 1;
        return false;
      }
      var r := Locate(path);
      if !r.Found? || WordAt(img, r.at + 36) != DIRECTORY {
        return true;
      }
      cwd, scwd := WordAt(img, r.at + 32), WordAt(img, r.at + 40);
      return false;
    }
  }

  /** After a change to directory p, wherever that was looked for, a path q from there finds what
      the two paths joined found before. */
  lemma FromThere(img: seq<Byte>, page: nat, npages: nat, p: seq<Byte>, q: seq<Byte>)
    requires |img| >= SLOT && Readable(p) && q != [] && q[0] != SLASH
    ensures Readable(q) && Readable(From(p, q)) && From(p, q)[0] == p[0]
    ensures var r := Walk(img, page, npages, Items(p));
      r.Found? && WordAt(img, r.at + 36) == DIRECTORY ==>
        Walk(img, WordAt(img, r.at + 32), WordAt(img, r.at + 40), Items(q)) ==
            Walk(img, page, npages, Items(From(p, q)))
  {
    hide Walk, Items, WordAt, From;
    ItemsFrom(p, q);
    WalkOn(img, page, npages, Items(p), Items(q));
  }

  /** The same of a volume: change directory, and look up. */
  method ChdirAndLocate(v: Volume, p: seq<Byte>, q: seq<Byte>) returns (failed: bool, r: Find)
    requires |v.img| >= SLOT && Readable(p) && q != [] && q[0] != SLASH
    modifies v
    ensures v.img == old(v.img) && Readable(From(p, q))
    ensures !failed && p[0] == SLASH ==> r == Walk(v.img, 0, 1, Items(From(p, q)))
    ensures !failed && p[0] != SLASH ==> r == old(Walk(v.img, v.cwd, v.scwd, Items(From(p, q))))
  {
    hide Walk, Items, WordAt, From;
    r := NotFound;
    ItemsFrom(p, q);
    FromThere(v.img, v.Start(p).0, v.Start(p).1, p, q);
    failed := v.Chdir(p);
    if !failed {
      r := v.Locate(q);
    }
  }

  // --- Open files ---

  datatype Whence = SeekSet | SeekCur | SeekEnd

  /** The address of a file's first byte. */
  function DataAt(img: seq<Byte>, ent: nat): nat
    requires SLOT <= |img| && ent + SLOT <= |img|
  {
    WordAt(img, ent + 32) * WordAt(img, 8)
  }

  /** An entry whose file lies inside the image. */
  predicate EntryInside(img: seq<Byte>, ent: nat) {
    ent + SLOT <= |img| && DataAt(img, ent) + WordAt(img, ent + 44) <= |img|
  }

  function VSize(img: seq<Byte>, ent: nat): Word
    requires EntryInside(img, ent)
  {
    WordAt(img, ent + 44)
  }

  /** The bytes of the file an entry describes. */
  function FileBytes(img: seq<Byte>, ent: nat): (s: seq<Byte>)
    requires EntryInside(img, ent)
    ensures |s| == VSize(img, ent)
  {
    hide DataAt, WordAt;
    img[DataAt(img, ent)..DataAt(img, ent) + WordAt(img, ent + 44)]
  }

  function Wrapped(rsize: Word, cnt: Word): Word {
    rsize * cnt % 0x1_0000_0000
  }

  class FileHandle {
    var img: seq<Byte>
    var ent: nat
    var pos: int

    ghost predicate Valid()
      reads this
    {
      EntryInside(img, ent) && 0 <= pos <= VSize(img, ent)
    }

    constructor OpenEntry(volume: seq<Byte>, entry: nat)
      requires EntryInside(volume, entry)
      ensures Valid() && img == volume && ent == entry && pos == 0
    {
      img, ent, pos := volume, entry, 0;
    }

    /** The position wanted, kept between the start and the end of the file. */
    method Seek(offs: int, whence: Whence) returns (at: int)
      requires Valid()
      modifies `pos
      ensures Valid() && at == pos
      ensures var base := (match whence case SeekSet => 0 case SeekCur => old(pos) case SeekEnd => VSize(img, ent));
        && (0 <= base + offs <= VSize(img, ent) ==> pos == base + offs)
        && (base + offs < 0 ==> pos == 0)
        && (base + offs > VSize(img, ent) ==> pos == VSize(img, ent))
    {
      hide EntryInside;
      var base := 0;
      match whence {
        case SeekEnd => base := VSize(img, ent);
        case SeekCur => base := pos;
        case SeekSet => base := 0;
      }
      base := base + offs;
      if base < 0 {
        base := 0;
      } else if base > VSize(img, ent) {
        base := VSize(img, ent);
      }
      pos := base;
      return base;
    }

    /** How many bytes a read hands over; the product wraps at 32 bits. */
    function Amount(rsize: Word, cnt: Word): (n: nat)
      requires Valid()
      reads this
      ensures pos + n <= VSize(img, ent)
    {
      var n := Wrapped(rsize, cnt);
      if n > VSize(img, ent) - pos then VSize(img, ent) - pos else n
    }

    /** The position stays where it was. */
    method Read(buf: array<Byte>, rsize: Word, cnt: Word) returns (n: nat)
      requires Valid() && buf.Length >= Amount(rsize, cnt)
      modifies buf
      ensures var want := rsize * cnt % 0x1_0000_0000; var left := VSize(img, ent) - pos;
              n == Amount(rsize, cnt) == if want <= left then want else left
      ensures buf[..n] == FileBytes(img, ent)[pos..pos + n]
      ensures buf[n..] == old(buf[n..])
    {
      hide WordAt, DataAt;
      n := Wrapped(rsize, cnt);
      var fsize := VSize(img, ent);
      var src := DataAt(img, ent) + pos;
      if n > fsize - pos {
        n := fsize - pos;
      }
      forall k | 0 <= k < n {
        buf[k] := img[src + k];
      }
      assert forall k :: 0 <= k < n ==> buf[k] == FileBytes(img, ent)[pos + k];
    }
  }
}
