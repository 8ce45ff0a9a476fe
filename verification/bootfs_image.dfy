/** A finished image: every directory page and every file's bytes in their places. */
module BootfsImage {
  import opened BootfsPaths
  import opened BootfsLayout
  import opened BootfsTree
  import opened BootfsPages

  /** The bytes of a directory page; the root's first slot identifies the file system. */
  function PageBytes(num: nat, es: seq<Entry>, fsize: Word): (s: seq<Byte>)
    requires GoodNames(es)
  {
    if num == 0 then EncodeId(fsize) + EncodeAll(es) else EncodeAll(es)
  }

  ghost predicate PageIn(img: seq<Byte>, num: nat, es: seq<Entry>, fsize: Word) {
    GoodNames(es) && |es| == (if num == 0 then 63 else 64) && Holds(img, num * PAGE, PageBytes(num, es, fsize))
  }

  ghost predicate ImageOf(img: seq<Byte>, t: Table, files: seq<Placed>, total: Word) {
    && |img| == total * PAGE && Written(img, files)
    && forall n :: n in t ==> PageIn(img, n, t[n], total)
  }

  /** Files are the sections of a script, in its order. */
  ghost predicate FromScript(files: seq<Placed>, secs: seq<Section>) {
    && |files| <= |secs|
    && forall i :: 0 <= i < |files| ==> files[i].sec == secs[i] && files[i].items == Parts(secs[i].path)
  }

  /** More pages than the script can take up. */
  function Need(secs: seq<Section>): nat {
    if secs == [] then 0 else |secs[0].path| + 3 + Pages(secs[0].content) + Need(secs[1..])
  }

  // --- Writing directory pages over the finished file pages ---

  lemma PageWritten(img: seq<Byte>, files: seq<Placed>, dirs: seq<DirPage>, t: Table, where: Labels, j: nat,
                    total: Word)
    requires |img| == total * PAGE && Written(img, files) && InStep(dirs, t) && Laid(t.Keys, files, total)
    requires Linked(t, where) && j < |dirs|
    requires forall i :: 0 <= i < j ==> PageIn(img, dirs[i].num, dirs[i].entries, total)
    ensures GoodNames(dirs[j].entries) && |PageBytes(dirs[j].num, dirs[j].entries, total)| == PAGE
    ensures var out := WriteAt(img, dirs[j].num * PAGE, PageBytes(dirs[j].num, dirs[j].entries, total));
      && |out| == total * PAGE && Written(out, files)
      && forall i :: 0 <= i <= j ==> PageIn(out, dirs[i].num, dirs[i].entries, total)
  {
    hide PageBytes, WriteAt, Holds, Linked, Laid, Bytes;
    var n := dirs[j].num;
    PageSize(t, where, n, total);
    var s := PageBytes(n, dirs[j].entries, total);
    assert n in t.Keys;
    LaidBelow(t.Keys, files, total, n);
    var out := WriteAt(img, n * PAGE, s);
    WriteHolds(img, n * PAGE, s);
    forall i | 0 <= i < |files| ensures Holds(out, files[i].start * PAGE, Bytes(files[i].sec.content)) {
      Beside(t.Keys, files, total, n, i);
      WriteKeeps(img, n * PAGE, s, files[i].start * PAGE, Bytes(files[i].sec.content));
    }
    forall i | 0 <= i < j ensures PageIn(out, dirs[i].num, dirs[i].entries, total) {
      PageSize(t, where, dirs[i].num, total);
      WriteKeeps(img, n * PAGE, s, dirs[i].num * PAGE, PageBytes(dirs[i].num, dirs[i].entries, total));
    }
  }

  lemma PageSize(t: Table, where: Labels, n: nat, fsize: Word)
    requires Linked(t, where) && n in t
    ensures GoodNames(t[n]) && |t[n]| == (if n == 0 then 63 else 64)
    ensures |PageBytes(n, t[n], fsize)| == PAGE
  {
    assert PageSound(t, where, n);
  }

  /** A directory page lies before or behind a file's pages. */
  lemma Beside(dirs: set<nat>, files: seq<Placed>, total: nat, n: nat, i: nat)
    requires Laid(dirs, files, total) && n in dirs && i < |files|
    ensures n + 1 <= files[i].start || files[i].start + Pages(files[i].sec.content) <= n
  {
    assert InFile(files[i], n) ==> InFiles(files, n);
  }
}
