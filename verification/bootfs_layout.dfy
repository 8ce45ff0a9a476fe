/** The byte layout of a boot file system image: 64-byte directory entries on 4096-byte
    pages, little-endian 32-bit fields, zero-padded names. */
module BootfsLayout {
  import opened BootfsPaths

  type Word = i: int | 0 <= i < 0x1_0000_0000

  const PAGE: nat := 4096
  const SLOT: nat := 64
  const NAMELEN: nat := 32

  const NONE: Word := 0
  const DIRECTORY: Word := 1
  const DATA: Word := 4

  datatype Entry = Entry(name: Name, offset: Word, kind: Word, size: Word, vsize: Word, vaddr: Word, ventry: Word)

  /** A slot of a freshly zeroed page. */
  const BLANK: Entry := Entry([], 0, NONE, 0, 0, 0, 0)

  /** A name that fits a slot and ends where its terminator says. */
  predicate GoodName(n: Name) {
    |n| < NAMELEN && 0 !in n
  }

  /** Least significant byte first. */
  function Le(v: Word): (s: seq<Byte>)
    ensures |s| == 4
    ensures v == s[0] as int + 256 * (s[1] as int) + 65536 * (s[2] as int) + 16777216 * (s[3] as int)
  {
    assert v / 65536 == v / 256 / 256 && v / 16777216 == v / 65536 / 256;

    [v % 256, v / 256 % 256, v / 65536 % 256, v / 16777216]
  }

  function WordAt(img: seq<Byte>, a: nat): Word
    requires a + 4 <= |img|
  {
    img[a] as int + 256 * (img[a + 1] as int) + 65536 * (img[a + 2] as int) + 16777216 * (img[a + 3] as int)
  }

  function Run(n: nat, v: Byte): (s: seq<Byte>)
    ensures |s| == n
    ensures forall k :: 0 <= k < n ==> s[k] == v
  {
    seq(n, _ => v)
  }

  function Padded(n: Name): (s: seq<Byte>)
    requires GoodName(n)
    ensures |s| == NAMELEN
  {
    n + Run(NAMELEN - |n|, 0)
  }

  function Encode(e: Entry): (s: seq<Byte>)
    requires GoodName(e.name)
    ensures |s| == SLOT
  {
    Padded(e.name) + Le(e.offset) + Le(e.kind) + Le(e.size) + Le(e.vsize) + Le(e.vaddr) + Le(e.ventry) + Run(8, 0)
  }

  predicate GoodNames(es: seq<Entry>) {
    forall k :: 0 <= k < |es| ==> GoodName(es[k].name)
  }

  lemma GoodNameAt(es: seq<Entry>, k: nat)
    requires GoodNames(es) && k < |es|
    ensures GoodName(es[k].name)
  {
  }

  function EncodeAll(es: seq<Entry>): (s: seq<Byte>)
    requires GoodNames(es)
    ensures |s| == SLOT * |es|
  {
    if es == [] then [] else Encode(es[0]) + EncodeAll(es[1..])
  }

  /** The identification block in the first slot of page 0: magic, type, page size, file
      system size in pages, root directory size in pages. */
  function EncodeId(fsize: Word): (s: seq<Byte>)
    ensures |s| == SLOT
  {
    [98, 116, 102, 115] + Le(0x10000) + Le(PAGE) + Le(fsize) + Le(1) + Run(44, 0)
  }

  // --- Bytes at an address ---

  ghost predicate Holds(img: seq<Byte>, a: nat, s: seq<Byte>) {
    a + |s| <= |img| && img[a..a + |s|] == s
  }

  lemma HoldsInside(img: seq<Byte>, a: nat, s: seq<Byte>)
    requires Holds(img, a, s)
    ensures a + |s| <= |img|
  {
  }

  lemma HoldsPart(img: seq<Byte>, a: nat, s: seq<Byte>, i: nat, t: seq<Byte>)
    requires Holds(img, a, s) && i + |t| <= |s| && s[i..i + |t|] == t
    ensures Holds(img, a + i, t)
  {
    var part := img[a..a + |s|];
    assert forall k :: i <= k < i + |t| ==> img[a + k] == part[k] == s[i..i + |t|][k - i];
    assert img[a + i..a + i + |t|] == t;
  }

  /** fseek and fwrite: bytes replaced in place, a gap behind the end zero-filled. */
  function WriteAt(img: seq<Byte>, a: nat, s: seq<Byte>): (out: seq<Byte>)
    requires |s| > 0
    ensures |out| == if a + |s| > |img| then a + |s| else |img|
  {
    var long := if a + |s| > |img| then img + Run(a + |s| - |img|, 0) else img;
    long[..a] + s + long[a + |s|..]
  }

  lemma WriteHolds(img: seq<Byte>, a: nat, s: seq<Byte>)
    requires |s| > 0
    ensures Holds(WriteAt(img, a, s), a, s)
  {
  }

  lemma WriteKeeps(img: seq<Byte>, a: nat, s: seq<Byte>, b: nat, t: seq<Byte>)
    requires |s| > 0 && Holds(img, b, t) && (b + |t| <= a || a + |s| <= b)
    ensures Holds(WriteAt(img, a, s), b, t)
  {
    var out := WriteAt(img, a, s);
    assert forall k :: b <= k < b + |t| ==> out[k] == img[k];
    assert out[b..b + |t|] == img[b..b + |t|];
  }

  // --- Reading back what was encoded ---

  lemma LeWord(img: seq<Byte>, a: nat, v: Word)
    requires Holds(img, a, Le(v))
    ensures WordAt(img, a) == v
  {
    var s := img[a..a + 4];
    assert img[a] == s[0] && img[a + 1] == s[1] && img[a + 2] == s[2] && img[a + 3] == s[3];
    assert img[a] == v % 256 && img[a + 1] == v / 256 % 256;
    assert img[a + 2] == v / 65536 % 256 && img[a + 3] == v / 16777216;
    assert v / 65536 == v / 256 / 256 && v / 16777216 == v / 65536 / 256;
  }

  /** What strcmp sees at an address: the name, then its terminator. */
  predicate NameAt(img: seq<Byte>, a: nat, name: Name)
    requires a + NAMELEN <= |img| && |name| < NAMELEN
  {
    img[a..a + |name|] == name && img[a + |name|] == 0
  }

  lemma NameRead(img: seq<Byte>, a: nat, n: Name, name: Name)
    requires GoodName(n) && GoodName(name) && Holds(img, a, Padded(n))
    ensures NameAt(img, a, name) <==> name == n
  {
    var s := img[a..a + NAMELEN];
    assert s == Padded(n);
    assert s[..|n|] == n && s[|n|] == 0;
    assert img[a..a + |name|] == s[..|name|] && img[a + |name|] == s[|name|];
    if |name| < |n| {
      Inside(s, n, |name|);
    }
    if |n| < |name| {
      Inside(s, name, |n|);
    }
  }

  lemma Inside(s: seq<Byte>, n: Name, m: nat)
    requires m < |n| <= |s| && 0 !in n
    ensures s[..|n|] == n ==> s[m] != 0
  {
    assert s[m] == s[..|n|][m];
  }

  lemma FieldsRead(img: seq<Byte>, a: nat, e: Entry)
    requires GoodName(e.name) && Holds(img, a, Encode(e))
    ensures Holds(img, a, Padded(e.name))
    ensures WordAt(img, a + 32) == e.offset && WordAt(img, a + 36) == e.kind
    ensures WordAt(img, a + 40) == e.size && WordAt(img, a + 44) == e.vsize
    ensures WordAt(img, a + 48) == e.vaddr && WordAt(img, a + 52) == e.ventry
  {
    hide Le, WordAt, Holds, Encode;
    var s := Encode(e);
    FieldCuts(e);
    HoldsPart(img, a, s, 0, Padded(e.name));
    HoldsPart(img, a, s, 32, Le(e.offset));
    LeWord(img, a + 32, e.offset);
    HoldsPart(img, a, s, 36, Le(e.kind));
    LeWord(img, a + 36, e.kind);
    HoldsPart(img, a, s, 40, Le(e.size));
    LeWord(img, a + 40, e.size);
    HoldsPart(img, a, s, 44, Le(e.vsize));
    LeWord(img, a + 44, e.vsize);
    HoldsPart(img, a, s, 48, Le(e.vaddr));
    LeWord(img, a + 48, e.vaddr);
    HoldsPart(img, a, s, 52, Le(e.ventry));
    LeWord(img, a + 52, e.ventry);
  }

  lemma FieldCuts(e: Entry)
    requires GoodName(e.name)
    ensures Encode(e)[0..32] == Padded(e.name)
    ensures Encode(e)[32..36] == Le(e.offset) && Encode(e)[36..40] == Le(e.kind)
    ensures Encode(e)[40..44] == Le(e.size) && Encode(e)[44..48] == Le(e.vsize)
    ensures Encode(e)[48..52] == Le(e.vaddr) && Encode(e)[52..56] == Le(e.ventry)
  {
    hide Le, Padded, Run;
  }

  lemma {:induction false} SlotHolds(img: seq<Byte>, a: nat, es: seq<Entry>, k: nat)
    requires GoodNames(es) && Holds(img, a, EncodeAll(es)) && k < |es|
    ensures Holds(img, a + SLOT * k, Encode(es[k]))
    decreases k
  {
    hide Encode;
    var s := EncodeAll(es);
    if k == 0 {
      HoldsPart(img, a, s, 0, Encode(es[0]));
    } else {
      HoldsPart(img, a, s, SLOT, EncodeAll(es[1..]));
      SlotHolds(img, a + SLOT, es[1..], k - 1);
    }
  }
}
