/** Slash-separated paths, as both the image builder and the boot-time reader take them
    apart: one leading and one trailing slash are dropped, the rest is cut at every slash.
    The two programs carry the same two scanning loops. */
module BootfsPaths {
  type Byte = i: int | 0 <= i < 256
  type Name = seq<Byte>
  type Path = seq<Name>

  const SLASH: Byte := 47
  const DOTS: Name := [46, 46]

  // --- Cutting a string at its slashes ---

  /** The number of characters before the first slash. */
  function First(s: seq<Byte>): (k: nat)
    ensures k <= |s|
    ensures SLASH !in s[..k]
    ensures k < |s| ==> s[k] == SLASH
  {
    if s == [] || s[0] == SLASH then 0 else 1 + First(s[1..])
  }

  function Split(s: seq<Byte>): (items: Path)
    ensures |items| > 0
    decreases |s|
  {
    var k := First(s);
    if k == |s| then [s] else [s[..k]] + Split(s[k + 1..])
  }

  function Join(items: Path): seq<Byte>
    requires |items| > 0
  {
    if |items| == 1 then items[0] else items[0] + [SLASH] + Join(items[1..])
  }

  /** No item holds a slash, and the items put together again are the string. */
  lemma {:induction false} SplitThenJoin(s: seq<Byte>)
    ensures Join(Split(s)) == s
    ensures forall k :: 0 <= k < |Split(s)| ==> SLASH !in Split(s)[k]
    decreases |s|
  {
    var k := First(s);
    if k < |s| {
      SplitThenJoin(s[k + 1..]);
      assert Split(s)[1..] == Split(s[k + 1..]);
      assert s == s[..k] + [SLASH] + s[k + 1..];
    }
  }

  lemma {:induction false} FirstOf(a: Name, rest: seq<Byte>)
    requires SLASH !in a
    ensures First(a + rest) == |a| + First(rest)
  {
    if a == [] {
      assert a + rest == rest;
    } else {
      FirstOf(a[1..], rest);
      assert (a + rest)[1..] == a[1..] + rest;
    }
  }

  /** Distinct lists of items are distinct strings: nothing but Split undoes Join. */
  lemma {:induction false} JoinThenSplit(items: Path)
    requires |items| > 0
    requires forall k :: 0 <= k < |items| ==> SLASH !in items[k]
    ensures Split(Join(items)) == items
  {
    if |items| == 1 {
      FirstOf(items[0], []);
      assert items[0] + [] == items[0];
    } else {
      var rest := [SLASH] + Join(items[1..]);
      FirstOf(items[0], rest);
      assert Join(items) == items[0] + rest;
      assert Join(items)[|items[0]| + 1..] == Join(items[1..]);
      JoinThenSplit(items[1..]);
      assert items == [items[0]] + items[1..];
    }
  }

  /** One character further: a slash ends an item, anything else is inside one. */
  lemma SplitStep(s: seq<Byte>)
    requires |s| > 0
    ensures s[0] == SLASH ==> Split(s) == [[]] + Split(s[1..])
    ensures s[0] != SLASH ==> |Split(s)| == |Split(s[1..])| && Split(s)[1..] == Split(s[1..])[1..]
  {
    if s[0] != SLASH {
      var k := First(s[1..]);
      if k < |s[1..]| {
        assert s[1..][k + 1..] == s[First(s) + 1..];
      }
    }
  }

  // --- The two scanning loops ---

  /** The string a path is cut from. Both programs look at the last character of what follows
      the leading slash, so there must be one. */
  predicate Readable(path: seq<Byte>) {
    |path| > 0 && path != [SLASH]
  }

  function Unled(path: seq<Byte>): (s: seq<Byte>)
    requires Readable(path)
    ensures |s| > 0
  {
    if path[0] == SLASH then path[1..] else path
  }

  function Body(path: seq<Byte>): seq<Byte>
    requires Readable(path)
  {
    var s := Unled(path);
    if s[|s| - 1] == SLASH then s[..|s| - 1] else s
  }

  function Items(path: seq<Byte>): (items: Path)
    requires Readable(path)
    ensures |items| > 0
  {
    Split(Body(path))
  }

  /** What a caller with a buffer of `size` characters is given for item idx: nothing for a
      missing item, an empty one, or one that leaves no room for the terminator. */
  function Item(items: Path, idx: nat, size: nat): Name {
    if idx < |items| && |items[idx]| < size then items[idx] else []
  }

  /** The first of the not yet scanned characters, b[i..], belongs to item cnt. */
  ghost predicate Scanned(b: seq<Byte>, i: nat, cnt: nat) {
    && i <= |b| && cnt < |Split(b)|
    && |Split(b[i..])| == |Split(b)| - cnt
    && Split(b[i..])[1..] == Split(b)[cnt + 1..]
  }

  /** b[i] is the first character of item cnt, or the slash or end after an empty one. */
  ghost predicate Starts(b: seq<Byte>, i: nat, cnt: nat) {
    Scanned(b, i, cnt) && Split(b[i..])[0] == Split(b)[cnt]
  }

  lemma ScanStep(b: seq<Byte>, i: nat, cnt: nat)
    requires Scanned(b, i, cnt) && i < |b|
    ensures b[i] != SLASH ==> Scanned(b, i + 1, cnt)
    ensures b[i] == SLASH ==> Scanned(b, i + 1, cnt + 1) && Starts(b, i + 1, cnt + 1)
  {
    hide Split, First;
    SplitStep(b[i..]);
    assert b[i..][1..] == b[i + 1..];
  }

  lemma ScanStart(b: seq<Byte>)
    ensures Scanned(b, 0, 0) && Starts(b, 0, 0)
  {
    assert b[0..] == b;
  }

  lemma ScanEnd(b: seq<Byte>, cnt: nat)
    requires Scanned(b, |b|, cnt)
    ensures cnt == |Split(b)| - 1
    ensures Split(b[|b|..]) == [[]]
  {
    assert b[|b|..] == [];
  }

  method ItemsCount(path: seq<Byte>) returns (cnt: nat)
    requires Readable(path)
    ensures cnt == |Items(path)|
  {
    hide Split, First, Scanned;
    cnt := 1;
    var s := if path[0] == SLASH then path[1..] else path;
    var n := |s|;
    if s[n - 1] == SLASH { n := n - 1; }
    ghost var b := s[..n];
    assert b == Body(path);
    ScanStart(b);
    var i := 0;
    while i < n
      invariant 0 <= i <= n && cnt >= 1
      invariant Scanned(b, i, cnt - 1)
    {
      ScanStep(b, i, cnt - 1);
      if s[i] == SLASH { cnt := cnt + 1; }
      i := i + 1;
    }
    ScanEnd(b, cnt - 1);
  }

  /** The inner loop of path_get_item: up to a slash, the end or the buffer's. */
  method CopyItem(s: seq<Byte>, i: nat, n: nat, size: nat) returns (item: Name)
    requires i <= n <= |s|
    ensures i + |item| <= n && |item| <= size && item == s[i..i + |item|] && SLASH !in item
    ensures |item| < size ==> i + |item| == n || s[i + |item|] == SLASH
  {
    item := [];
    var j := i;
    while j < n && s[j] != SLASH && |item| < size
      invariant i <= j <= n && item == s[i..j] && |item| <= size
      invariant SLASH !in item
    {
      item := item + [s[j]];
      j := j + 1;
    }
  }

  method GetItem(path: seq<Byte>, idx: nat, size: nat) returns (out: Name)
    requires Readable(path) && size > 0
    ensures out == Item(Items(path), idx, size)
  {
    hide Split, First, Scanned;
    var cnt := 0;
    var s := if path[0] == SLASH then path[1..] else path;
    var n := |s|;
    if s[n - 1] == SLASH { n := n - 1; }
    ghost var b := s[..n];
    assert b == Body(path);
    ScanStart(b);
    var i := 0;
    while i < n
      invariant 0 <= i <= n && cnt <= idx
      invariant Scanned(b, i, cnt)
      invariant cnt == idx ==> Starts(b, i, cnt)
    {
      if cnt == idx {
        var item := CopyItem(s, i, n, size);
        assert b[i..i + |item|] == item;
        ItemRead(b, i, i + |item|, idx);
        return if |item| == size then [] else item;
      }
      ScanStep(b, i, cnt);
      if s[i] == SLASH { cnt := cnt + 1; }
      i := i + 1;
    }
    ScanEnd(b, cnt);
    assert cnt == idx ==> Split(b)[idx] == [] by { LastIsEmpty(b, cnt); }
    return [];
  }

  lemma LastIsEmpty(b: seq<Byte>, cnt: nat)
    ensures Starts(b, |b|, cnt) ==> Split(b)[cnt] == []
  {
    assert b[|b|..] == [];
  }

  /** A slash-free stretch from the start of an item is a beginning of the item, and the
      whole item once a slash or the end follows. */
  lemma ItemRead(b: seq<Byte>, i: nat, j: nat, idx: nat)
    requires i <= j <= |b| && Starts(b, i, idx) && SLASH !in b[i..j]
    ensures idx < |Split(b)| && j - i <= |Split(b)[idx]|
    ensures j == |b| || b[j] == SLASH ==> Split(b)[idx] == b[i..j]
  {
    var s := b[i..];
    var k := First(s);
    assert Split(s)[0] == s[..k] by { assert s[..|s|] == s; }
    assert s[..j - i] == b[i..j];
    FirstBeyond(s, j - i);
    assert j - i < k ==> s[..k][j - i] != SLASH;
  }

  lemma {:induction false} FirstBeyond(s: seq<Byte>, j: nat)
    requires j <= |s| && SLASH !in s[..j]
    ensures j <= First(s)
  {
    if j > 0 {
      assert s[..j][0] == s[0];
      assert s[1..][..j - 1] == s[..j][1..];
      FirstBeyond(s[1..], j - 1);
    }
  }

  // --- What items are made of ---

  lemma {:induction false} SplitSmall(s: seq<Byte>)
    ensures |Split(s)| <= |s| + 1
    ensures forall k :: 0 <= k < |Split(s)| ==> forall c :: c in Split(s)[k] ==> c in s
    decreases |s|
  {
    var n := First(s);
    if n < |s| {
      SplitSmall(s[n + 1..]);
    }
  }

  // --- One path after another ---

  lemma {:induction false} FirstKept(a: seq<Byte>, b: seq<Byte>)
    ensures First(a + ([SLASH] + b)) == First(a)
  {
    if a == [] {
      assert a + ([SLASH] + b) == [SLASH] + b;
    } else if a[0] != SLASH {
      assert (a + ([SLASH] + b))[1..] == a[1..] + ([SLASH] + b);
      FirstKept(a[1..], b);
    }
  }

  lemma Cut(s: seq<Byte>, k: nat)
    requires k == First(s) < |s|
    ensures Split(s) == [s[..k]] + Split(s[k + 1..])
  {
  }

  lemma NoCut(s: seq<Byte>)
    requires First(s) == |s|
    ensures Split(s) == [s]
  {
  }

  lemma {:induction false} SplitConcat(a: seq<Byte>, b: seq<Byte>)
    ensures Split(a + ([SLASH] + b)) == Split(a) + Split(b)
    decreases |a|
  {
    hide Split, First;
    var s := a + ([SLASH] + b);
    var k := First(a);
    FirstKept(a, b);
    Cut(s, k);
    assert s[..k] == a[..k];
    if k == |a| {
      NoCut(a);
      assert s[k + 1..] == b && a[..k] == a;
    } else {
      Cut(a, k);
      assert s[k + 1..] == a[k + 1..] + ([SLASH] + b);
      SplitConcat(a[k + 1..], b);
      assert [a[..k]] + (Split(a[k + 1..]) + Split(b)) == [a[..k]] + Split(a[k + 1..]) + Split(b);
    }
  }

  /** Path q, which does not start with a slash, taken from path p. */
  function From(p: seq<Byte>, q: seq<Byte>): seq<Byte>
    requires Readable(p)
  {
    (if p[|p| - 1] == SLASH then p[..|p| - 1] else p) + [SLASH] + q
  }

  /** Its items are those of p and then those of q. */
  lemma ItemsFrom(p: seq<Byte>, q: seq<Byte>)
    requires Readable(p) && q != [] && q[0] != SLASH
    ensures Readable(q) && Readable(From(p, q)) && From(p, q)[0] == p[0] && Items(From(p, q)) == Items(p) + Items(q)
  {
    hide Split;
    BodyFrom(p, q);
    SplitConcat(Body(p), Body(q));
  }

  lemma {:induction false} BodyFrom(p: seq<Byte>, q: seq<Byte>)
    requires Readable(p) && q != [] && q[0] != SLASH
    ensures Readable(q) && Readable(From(p, q)) && From(p, q)[0] == p[0]
    ensures Body(From(p, q)) == Body(p) + ([SLASH] + Body(q))
  {
    hide Body;
    var r := From(p, q);
    var pre := if p[|p| - 1] == SLASH then p[..|p| - 1] else p;
    var lead := if p[0] == SLASH then 1 else 0;
    BodyIs(p, pre[lead..]);
    BodyIs(q, if q[|q| - 1] == SLASH then q[..|q| - 1] else q);
    assert r == pre + ([SLASH] + q);
    assert r[lead..] == pre[lead..] + ([SLASH] + q) && r[|r| - 1] == q[|q| - 1];
    BodyIs(r, pre[lead..] + ([SLASH] + Body(q)));
  }

  lemma BodyIs(p: seq<Byte>, b: seq<Byte>)
    requires Readable(p)
    requires var u := if p[0] == SLASH then p[1..] else p; b == if p[|p| - 1] == SLASH then u[..|u| - 1] else u
    ensures Body(p) == b
  {
  }
}
