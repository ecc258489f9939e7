/** tools/mkfs.c: the disk image built from a list of directories and files. */
module Mkfs {
  import opened ByteSeq
  import opened AlfsModel
  import opened Sets

  const DISK_SECTS: nat := 256

  /** The superblock: magic, version, directory and data sectors, size. */
  const SUPER: seq<Byte> := [0x53, 0x46, 0x4C, 0x41, 2, 0, 0, 0, 1, 0, 0, 0, 6, 0, 0, 0, 7, 0, 0, 0, 0, 1, 0, 0]

  datatype Item = Folder(path: Name) | Copy(path: Name, bytes: seq<Byte>)

  ghost function Zeros(n: nat): seq<Byte> { seq(n, _ => 0) }

  ghost function NodeFor(it: Item): Node { if it.Folder? then Dir else File(it.bytes) }

  /** The map the items describe. */
  ghost function Tree(items: seq<Item>): map<Name, Node> {
    if items == [] then map[]
    else var n := |items| - 1; Tree(items[..n])[items[n].path := NodeFor(items[n])]
  }

  /** The first data sector after the items. */
  ghost function NextSect(items: seq<Item>): nat {
    if items == [] then DATA_START
    else var n := |items| - 1; NextSect(items[..n]) + if items[n].Folder? then 0 else Sects(|items[n].bytes|)
  }

  /** Paths are C strings. */
  ghost predicate Strings(items: seq<Item>) {
    forall i :: 0 <= i < |items| ==> NoNul(items[i].path)
  }

  ghost predicate DistinctPaths(items: seq<Item>) {
    forall i, j :: 0 <= i < j < |items| ==> items[i].path != items[j].path
  }

  ghost predicate Fits(items: seq<Item>) {
    && |items| <= MAX_FILES && NextSect(items) <= DISK_SECTS
    && forall i :: 0 <= i < |items| ==> |items[i].path| < NAME_MAX
  }

  lemma {:induction false} TreeKeys(items: seq<Item>, path: Name)
    requires path in Tree(items)
    ensures exists i :: 0 <= i < |items| && items[i].path == path
  {
    var n := |items| - 1;
    if items != [] && path != items[n].path {
      TreeKeys(items[..n], path);
      var i :| 0 <= i < n && items[..n][i].path == path;
      assert items[i].path == path;
    }
  }

  lemma {:induction false} NextSectGrows(items: seq<Item>, n: nat)
    requires n <= |items|
    ensures DATA_START <= NextSect(items[..n]) <= NextSect(items)
    decreases |items|
  {
    var m := |items| - 1;
    if n < |items| {
      NextSectGrows(items[..m], n);
      assert items[..m][..n] == items[..n];
    } else {
      assert items[..n] == items;
      if n > 0 { NextSectGrows(items[..m], m); }
    }
  }

  lemma NextItem(items: seq<Item>, n: nat)
    requires n < |items|
    ensures Tree(items[..n + 1]) == Tree(items[..n])[items[n].path := NodeFor(items[n])]
    ensures NextSect(items[..n + 1]) == NextSect(items[..n]) + if items[n].Folder? then 0 else Sects(|items[n].bytes|)
  {
    assert items[..n + 1][..n] == items[..n];
  }

  /** An entry set in the directory and in its place on the disk. */
  lemma EnterBoth(fs: Fs, i: nat, e: Dirent, disk: seq<Byte>)
    requires Inv(fs) && Synced(fs) && i < MAX_FILES && Enterable(fs, i, e)
    requires SameExcept(fs.disk, disk, 512 + 64 * i, 512 + 64 * i + 64) && Stored(disk, i) == Encode(e)
    ensures var now := Fs(fs.dir[i := e], disk);
            Inv(now) && Synced(now) && View(now) == View(fs)[CStr(e.name) := NodeOf(fs.disk, e)]
  {
    assert Shaped(e);
    hide View, Inv, Encode, Enterable, NodeOf, CStr;
    EnterView(fs, i, e);
    var f, now := fs.(dir := fs.dir[i := e]), Fs(fs.dir[i := e], disk);
    SameInside(fs.disk, disk, 512 + 64 * i, 512 + 64 * i + 64);
    DirSectors(f, disk);
    forall j | 0 <= j < MAX_FILES ensures SyncedAt(now, j) {
      assert SyncedAt(fs, j);
      if j != i { SameSlice(fs.disk, disk, 512 + 64 * i, 512 + 64 * i + 64, 512 + 64 * j, 512 + 64 * j + 64); }
    }
  }

  /** Bytes of the directory sectors are no file data. */
  lemma DirSectors(fs: Fs, disk: seq<Byte>)
    requires Inv(fs) && SameExcept(fs.disk, disk, 512, 512 * DATA_START)
    ensures Inv(fs.(disk := disk)) && View(fs.(disk := disk)) == View(fs)
  {
    DirMisses(fs, 512);
    MissView(fs, disk, 512, 512 * DATA_START);
  }

  lemma SameInside(a: seq<Byte>, b: seq<Byte>, lo: int, hi: int)
    requires SameExcept(a, b, lo, hi) && 512 <= lo && hi <= 512 * DATA_START
    ensures SameExcept(a, b, 512, 512 * DATA_START)
  {
  }

  /** The state after some items: a directory `dir` on the disk, its first `n`
      entries in use, its files below sector `next`. */
  ghost predicate Built(dir: seq<Dirent>, disk: seq<Byte>, n: nat, next: nat, items: seq<Item>) {
    && |disk| == 512 * DISK_SECTS && DATA_START <= next <= DISK_SECTS && n <= MAX_FILES
    && Inv(Fs(dir, disk)) && Synced(Fs(dir, disk)) && View(Fs(dir, disk)) == Tree(items)
    && (forall i :: 0 <= i < MAX_FILES && IsFile(dir[i]) ==> EndOf(dir[i]) <= next)
    && (forall i :: n <= i < MAX_FILES ==> !IsUsed(dir[i]))
    && disk[0..24] == SUPER
  }

  lemma BlankBuilt(dir: seq<Dirent>, disk: seq<Byte>)
    requires |disk| == 512 * DISK_SECTS && disk[0..24] == SUPER && |dir| == MAX_FILES
    requires forall i :: 0 <= i < MAX_FILES ==> Stored(disk, i) == Zeros(64) && dir[i] == Decode(Zeros(64))
    ensures Built(dir, disk, 0, DATA_START, [])
  {
    var fs := Fs(dir, disk);
    assert Zeros(64)[60..64] == [0, 0, 0, 0];
    forall i | 0 <= i < MAX_FILES ensures SyncedAt(fs, i) && !IsUsed(dir[i]) &&
      Shaped(dir[i]) { EncodeDecode(Zeros(64)); }
    assert View(fs).Keys == {};
  }

  lemma BuiltFile(dir: seq<Dirent>, a: seq<Byte>, b: seq<Byte>, n: nat, next: nat, items: seq<Item>, bytes: seq<Byte>)
    requires Built(dir, a, n, next, items) && 512 * next + |bytes| <= |a| &&
             SameExcept(a, b, 512 * next, 512 * next + |bytes|)
    ensures Built(dir, b, n, next, items)
  {
    var fs := Fs(dir, a);
    assert Misses(dir, 512 * next, 512 * next + |bytes|);
    SameSlice(a, b, 512 * next, 512 * next + |bytes|, 0, 24);
    hide View, Inv, Misses, SyncedAt;
    MissView(fs, b, 512 * next, 512 * next + |bytes|);
    forall i | 0 <= i < MAX_FILES ensures SyncedAt(Fs(dir, b), i) {
      DataSynced(fs, b, 512 * next, 512 * next + |bytes|, i);
    }
  }

  ghost predicate ItemEntry(it: Item, e: Dirent, disk: seq<Byte>, next: nat) {
    && e.name == PadName(it.path)
    && if it.Folder? then e.start == 0 && e.size == 0 && e.flags == 3
       else && e.start == next && e.size == |it.bytes| && e.flags == 1
            && 512 * (next + Sects(|it.bytes|)) <= |disk| && disk[512 * next..512 * next + |it.bytes|] == it.bytes
  }

  lemma ItemEnterable(dir: seq<Dirent>, disk: seq<Byte>, n: nat, next: nat, items: seq<Item>, it: Item, e: Dirent)
    requires Built(dir, disk, n, next, items) && n < MAX_FILES && NoNul(it.path) && |it.path| < NAME_MAX &&
             it.path !in Tree(items)
    requires ItemEntry(it, e, disk, next)
    ensures Enterable(Fs(dir, disk), n, e) && CStr(e.name) == it.path && NodeOf(disk, e) == NodeFor(it)
  {
    NameKept(it.path);
    hide View, Inv, CStr, PadName, Tree;
  }

  lemma BuiltEntry(dir: seq<Dirent>, a: seq<Byte>, b: seq<Byte>, n: nat, next: nat, items: seq<Item>, it: Item,
      e: Dirent, next': nat)
    requires Built(dir, a, n, next, items) && n < MAX_FILES && NoNul(it.path) && |it.path| < NAME_MAX &&
             it.path !in Tree(items)
    requires ItemEntry(it, e, a, next) && next' == next + (if it.Folder? then 0 else Sects(|it.bytes|)) && Shaped(e)
    requires SameExcept(a, b, 512 + 64 * n, 512 + 64 * n + 64) && Stored(b, n) == Encode(e) && |b| == |a|
    requires Tree(items + [it]) == Tree(items)[it.path := NodeFor(it)]
    ensures |dir| == MAX_FILES && Built(dir[n := e], b, n + 1, next', items + [it])
  {
    SameSlice(a, b, 512 + 64 * n, 512 + 64 * n + 64, 0, 24);
    NextEnds(dir, a, n, next, items, it, e, next');
    hide View, Inv, CStr, PadName, Tree, SameExcept, Encode, SyncedAt, Enterable, ItemEntry, NodeOf, Synced;
    ItemEnterable(dir, a, n, next, items, it, e);
    EnterBoth(Fs(dir, a), n, e, b);
  }

  lemma NextEnds(dir: seq<Dirent>, a: seq<Byte>, n: nat, next: nat, items: seq<Item>, it: Item, e: Dirent, next': nat)
    requires Built(dir, a, n, next, items) && n < MAX_FILES && ItemEntry(it, e, a, next)
    requires next' == next + (if it.Folder? then 0 else Sects(|it.bytes|))
    ensures next' <= DISK_SECTS && |dir| == MAX_FILES
    ensures forall i :: 0 <= i < MAX_FILES && i != n && IsFile(dir[i]) ==> EndOf(dir[i]) <= next'
    ensures IsFile(e) ==> EndOf(e) <= next'
  {
    hide View, Inv, Tree, PadName, Synced;
    assert |dir| == MAX_FILES by { InvLength(Fs(dir, a)); }
  }

  /** The directory on the disk, one used entry per item in order. */
  ghost predicate Listed(dir: seq<Dirent>, disk: seq<Byte>, items: seq<Item>) {
    && |disk| == 512 * DISK_SECTS && |dir| == MAX_FILES && |items| <= MAX_FILES
    && Synced(Fs(dir, disk)) && disk[0..24] == SUPER
    && forall i :: 0 <= i < |items| ==> Has(dir, disk, items, i)
  }

  /** Entry i is that of item i, whose bytes follow those of the files before it. */
  ghost predicate Has(dir: seq<Dirent>, disk: seq<Byte>, items: seq<Item>, i: nat)
    requires i < |dir| && i < |items|
  {
    && CStr(dir[i].name) == items[i].path
    && var start := NextSect(items[..i]);
       match items[i]
       case Folder(path) => dir[i] == Dirent(PadName(path), 0, 0, 3)
       case Copy(path, bytes) =>
         dir[i] == Dirent(PadName(path), start, |bytes|, 1) && 512 * start + |bytes| <= |disk| &&
         disk[512 * start..512 * start + |bytes|] == bytes
  }

  lemma {:induction false} HasMore(dir: seq<Dirent>, disk: seq<Byte>, items: seq<Item>, i: nat, it: Item, e: Dirent)
    requires |items| < |dir| && i < |items| && Has(dir, disk, items, i)
    ensures Has(dir[|items| := e], disk, items + [it], i)
  {
    hide CStr, PadName, NextSect;
    assert (items + [it])[..i] == items[..i];
  }

  /** A change from the end of the files on, or in the directory, keeps an item. */
  lemma {:induction false} HasSame(dir: seq<Dirent>, a: seq<Byte>, b: seq<Byte>, items: seq<Item>, i: nat, lo: nat,
      hi: nat)
    requires i < |dir| && i < |items| && Has(dir, a, items, i) && SameExcept(a, b, lo, hi)
    requires hi <= 512 * DATA_START || 512 * NextSect(items) <= lo
    ensures Has(dir, b, items, i)
  {
    NextSectGrows(items, i + 1);
    NextSectGrows(items[..i], i);
    assert items[..i][..i] == items[..i];
    NextItem(items, i);
    hide CStr, PadName, NextSect;
    if items[i].Copy? {
      var start := NextSect(items[..i]);
      SameSlice(a, b, lo, hi, 512 * start, 512 * start + |items[i].bytes|);
    }
  }

  lemma {:induction false} ListedFile(dir: seq<Dirent>, a: seq<Byte>, b: seq<Byte>, items: seq<Item>, lo: nat, hi: nat)
    requires Listed(dir, a, items) && SameExcept(a, b, lo, hi) && 512 * DATA_START <= lo
    requires 512 * NextSect(items) <= lo
    ensures Listed(dir, b, items)
  {
    SameSlice(a, b, lo, hi, 0, 24);
    hide SyncedAt, CStr, Has, NextSect;
    forall i | 0 <= i < |items| ensures Has(dir, b, items, i) { HasSame(dir, a, b, items, i, lo, hi); }
    forall i | 0 <= i < MAX_FILES ensures SyncedAt(Fs(dir, b), i) {
      assert SyncedAt(Fs(dir, a), i);
      DataSynced(Fs(dir, a), b, lo, hi, i);
    }
  }

  function EntryFor(it: Item, next: nat): Dirent {
    if it.Folder? then Dirent(PadName(it.path), 0, 0, 3) else Dirent(PadName(it.path), next, |it.bytes|, 1)
  }

  lemma {:induction false} EntryHas(dir: seq<Dirent>, a: seq<Byte>, b: seq<Byte>, items: seq<Item>, it: Item, e: Dirent)
    requires |items| < |dir| && |items| < MAX_FILES && NoNul(it.path) && |it.path| < NAME_MAX
    requires e == EntryFor(it, NextSect(items))
    requires it.Copy? ==> var start := NextSect(items);
               512 * start + |it.bytes| <= |a| && a[512 * start..512 * start + |it.bytes|] == it.bytes
    requires SameExcept(a, b, 512 + 64 * |items|, 512 + 64 * |items| + 64)
    ensures Has(dir[|items| := e], b, items + [it], |items|)
  {
    NameKept(it.path);
    NextSectGrows(items, |items|);
    assert (items + [it])[..|items|] == items && items[..|items|] == items;
    hide CStr, PadName, NextSect;
    if it.Copy? {
      var start := NextSect(items);
      SameSlice(a, b, 512 + 64 * |items|, 512 + 64 * |items| + 64, 512 * start, 512 * start + |it.bytes|);
    }
  }

  lemma {:induction false} ListedEntry(dir: seq<Dirent>, a: seq<Byte>, b: seq<Byte>, items: seq<Item>, it: Item,
      e: Dirent)
    requires Listed(dir, a, items) && |items| < MAX_FILES && NoNul(it.path) && |it.path| < NAME_MAX
    requires Shaped(e) && e == EntryFor(it, NextSect(items))
    requires it.Copy? ==> var start := NextSect(items);
               512 * start + |it.bytes| <= |a| && a[512 * start..512 * start + |it.bytes|] == it.bytes
    requires SameExcept(a, b, 512 + 64 * |items|, 512 + 64 * |items| + 64) && Stored(b, |items|) == Encode(e)
    ensures Listed(dir[|items| := e], b, items + [it])
  {
    var n := |items|;
    NameKept(it.path);
    SameSlice(a, b, 512 + 64 * n, 512 + 64 * n + 64, 0, 24);
    EntryHas(dir, a, b, items, it, e);
    hide CStr, Encode, PadName, Has, NextSect, EntryFor;
    var now := Fs(dir[n := e], b);
    forall i | 0 <= i < n ensures Has(now.dir, b, items + [it], i) {
      HasSame(dir, a, b, items, i, 512 + 64 * n, 512 + 64 * n + 64);
      HasMore(dir, b, items, i, it, e);
    }
    forall j | 0 <= j < MAX_FILES ensures SyncedAt(now, j) {
      assert SyncedAt(Fs(dir, a), j);
      if j != n { SameSlice(a, b, 512 + 64 * n, 512 + 64 * n + 64, 512 + 64 * j, 512 + 64 * j + 64); }
    }
  }

  lemma BlankListed(dir: seq<Dirent>, disk: seq<Byte>)
    requires Built(dir, disk, 0, DATA_START, [])
    ensures Listed(dir, disk, [])
  {
  }

  /** Two entries with one name break the invariant. */
  lemma RepeatedPath(dir: seq<Dirent>, image: seq<Byte>, items: seq<Item>)
    requires Listed(dir, image, items) && Inv(Fs(dir, image))
    ensures DistinctPaths(items)
  {
    forall i, j | 0 <= i < j < |items| ensures items[i].path != items[j].path {
      assert Has(dir, image, items, i) && Has(dir, image, items, j);
      InvPair(Fs(dir, image), i, j);
    }
  }

  method Put(disk: array<Byte>, at: nat, data: seq<Byte>)
    requires at + |data| <= disk.Length
    modifies disk
    ensures SameExcept(old(disk[..]), disk[..], at, at + |data|) && disk[..][at..at + |data|] == data
  {
    forall k | 0 <= k < |data| { disk[at + k] := data[k]; }
  }

  /** An entry in place. */
  method PutEntry(disk: array<Byte>, i: nat, e: Dirent)
    requires disk.Length == 512 * DISK_SECTS && i < MAX_FILES && Shaped(e)
    modifies disk
    ensures SameExcept(old(disk[..]), disk[..], 512 + 64 * i, 512 + 64 * i + 64) && Stored(disk[..], i) == Encode(e)
  {
    hide Encode;
    Put(disk, 512 + 64 * i, Encode(e));
  }

  /** A blank image with its superblock. */
  method Blank() returns (disk: array<Byte>, ghost dir: seq<Dirent>)
    ensures fresh(disk) && disk.Length == 512 * DISK_SECTS && Built(dir, disk[..], 0, DATA_START, [])
  {
    disk := new Byte[512 * DISK_SECTS](_ => 0);
    var super := Le32(MAGIC) + Le32(2) + Le32(1) + Le32(6) + Le32(DATA_START) + Le32(DISK_SECTS);
    assert super == SUPER;
    hide Le32, Of32;
    Put(disk, 0, super);
    dir := seq(MAX_FILES, _ => Decode(Zeros(64)));
    forall i | 0 <= i < MAX_FILES ensures Stored(disk[..], i) == Zeros(64) {}
    BlankBuilt(dir, disk[..]);
  }

  lemma PathIsNew(items: seq<Item>, n: nat)
    requires n < |items| && DistinctPaths(items)
    ensures items[n].path !in Tree(items[..n])
  {
    if items[n].path in Tree(items[..n]) {
      TreeKeys(items[..n], items[n].path);
    }
  }

  /** Does not fit once some item does not. */
  lemma TooMuch(items: seq<Item>, n: nat)
    requires n < |items| && (|items[n].path| >= NAME_MAX || NextSect(items[..n + 1]) > DISK_SECTS)
    ensures !Fits(items)
  {
    NextSectGrows(items, n + 1);
  }

  /** One more item, with a path of its own. */
  lemma OneMore(items: seq<Item>, it: Item)
    requires DistinctPaths(items + [it])
    ensures DistinctPaths(items) && it.path !in Tree(items) && Tree(items + [it]) == Tree(items)[it.path := NodeFor(it)]
  {
    var all := items + [it];
    assert all[..|items|] == items;
    assert forall i :: 0 <= i < |items| ==> items[i] == all[i];
    PathIsNew(all, |items|);
  }

  lemma EntryForIs(it: Item, next: nat)
    ensures EntryFor(it, next) ==
            if it.Folder? then Dirent(PadName(it.path), 0, 0, 3) else Dirent(PadName(it.path), next, |it.bytes|, 1)
  {
  }

  /** One item, if it fits. */
  method AddItem(disk: array<Byte>, it: Item, written: nat, next: nat, ghost dir: seq<Dirent>, ghost items: seq<Item>)
    returns (ok: bool, next': nat, ghost dir': seq<Dirent>)
    requires disk.Length == 512 * DISK_SECTS && Listed(dir, disk[..], items) && written == |items| < MAX_FILES
    requires DistinctPaths(items) ==> Built(dir, disk[..], written, next, items)
    requires NoNul(it.path) && DATA_START <= next <= DISK_SECTS && next == NextSect(items)
    modifies disk
    ensures ok <==> |it.path| < NAME_MAX && (it.Copy? ==> next + Sects(|it.bytes|) <= DISK_SECTS)
    ensures ok ==> next' == next + (if it.Folder? then 0 else Sects(|it.bytes|)) && Listed(dir', disk[..], items + [it])
    ensures ok && DistinctPaths(items + [it]) ==> Built(dir', disk[..], written + 1, next', items + [it])
  {
    assert |dir| == MAX_FILES;
    hide View, Inv, Tree, PadName, Encode, Built, Listed, SameExcept, NextSect, DistinctPaths, EntryFor;
    ok, next', dir' := false, next, dir;
    if |it.path| >= NAME_MAX { return; }
    ghost var fresh_ := DistinctPaths(items + [it]);
    if fresh_ { OneMore(items, it); }
    var e := Dirent(PadName(it.path), 0, 0, 3);
    if it.Copy? {
      var sects := Sects(|it.bytes|);
      if next + sects > DISK_SECTS { return; }
      ghost var before := disk[..];
      Put(disk, 512 * next, it.bytes);
      ListedFile(dir, before, disk[..], items, 512 * next, 512 * next + |it.bytes|);
      if fresh_ { BuiltFile(dir, before, disk[..], written, next, items, it.bytes); }
      e := Dirent(PadName(it.path), next, |it.bytes|, 1);
      next' := next + sects;
    }
    ghost var before := disk[..];
    EntryForIs(it, next);
    PutEntry(disk, written, e);
    ListedEntry(dir, before, disk[..], items, it, e);
    if fresh_ { BuiltEntry(dir, before, disk[..], written, next, items, it, e, next'); }
    ok := true;
    dir' := dir[written := e];
  }

  /** The image: it is made exactly when the items fit.  Mounting it gives the map
      they describe if no path is repeated, and otherwise a directory with two
      entries of one name. */
  method Build(items: seq<Item>) returns (ok: bool, image: seq<Byte>, ghost dir: seq<Dirent>)
    requires Strings(items)
    ensures ok <==> Fits(items)
    ensures ok ==>
            |image| == 512 * 256 && OnDisk(image, dir) && Synced(Fs(dir, image)) &&
            image[..24] == [0x53, 0x46, 0x4C, 0x41, 2, 0, 0, 0, 1, 0, 0, 0, 6, 0, 0, 0, 7, 0, 0, 0, 0, 1, 0, 0]
    ensures ok ==> forall i :: 0 <= i < 48 ==> Laid(image, i, dir[i])
    ensures ok ==> forall i :: 0 <= i < |items| ==> Has(dir, image, items, i)
    ensures ok ==> (Inv(Fs(dir, image)) <==> DistinctPaths(items))
    ensures ok && DistinctPaths(items) ==> View(Fs(dir, image)) == Tree(items)
  {
    hide View, Inv, Tree, Fits, Built, Listed, Strings, NextSect, DistinctPaths;
    ok, image, dir := false, [], [];
    if |items| > MAX_FILES {
      TooMany(items);
      return;
    }
    var disk;
    disk, dir := Blank();
    BlankListed(dir, disk[..]);
    var next, written := DATA_START, 0;
    NothingYet();
    assert items[..0] == [];
    while written < |items|
      invariant 0 <= written <= |items| && Listed(dir, disk[..], items[..written])
      invariant DistinctPaths(items[..written]) ==> Built(dir, disk[..], written, next, items[..written])
      invariant DATA_START <= next == NextSect(items[..written]) <= DISK_SECTS && AllShort(items[..written])
    {
      NextItem(items, written);
      PathNoNul(items, written);
      assert items[..written + 1] == items[..written] + [items[written]];
      var more;
      more, next, dir := AddItem(disk, items[written], written, next, dir, items[..written]);
      if !more {
        TooMuch(items, written);
        return;
      }
      written := written + 1;
    }
    assert items[..written] == items;
    ok, image := true, disk[..];
    ListedMounts(dir, image, items);
    if DistinctPaths(items) { BuiltMounts(dir, image, items); }
  }

  lemma TooMany(items: seq<Item>)
    requires |items| > MAX_FILES
    ensures !Fits(items)
  {
  }

  lemma NothingYet()
    ensures NextSect([]) == DATA_START
  {
  }

  ghost predicate AllShort(items: seq<Item>) { forall i :: 0 <= i < |items| ==> |items[i].path| < NAME_MAX }

  lemma PathNoNul(items: seq<Item>, n: nat)
    requires Strings(items) && n < |items|
    ensures NoNul(items[n].path)
  {
  }

  lemma SyncedMounts(dir: seq<Dirent>, image: seq<Byte>, i: nat)
    requires SyncedAt(Fs(dir, image), i)
    ensures |image| >= 512 * DATA_START && dir[i] == Decode(Stored(image, i)) && Laid(image, i, dir[i])
  {
    DecodeEncode(dir[i]);
    LaidIs(image, i, dir[i]);
    hide Encode, Decode, Laid;
  }

  lemma {:induction false} ListedMounts(dir: seq<Dirent>, image: seq<Byte>, items: seq<Item>)
    requires Listed(dir, image, items) && AllShort(items) && NextSect(items) <= DISK_SECTS
    ensures Fits(items) && OnDisk(image, dir) && Synced(Fs(dir, image)) &&
            (Inv(Fs(dir, image)) ==> DistinctPaths(items))
    ensures |image| == 512 * DISK_SECTS && image[..24] == SUPER
    ensures forall i :: 0 <= i < 48 ==> Laid(image, i, dir[i])
    ensures forall i :: 0 <= i < |items| ==> Has(dir, image, items, i)
  {
    assert image[..24] == image[0..24];
    hide Has, Laid, SyncedAt, Inv, Decode, Stored;
    forall i | 0 <= i < MAX_FILES ensures dir[i] == Decode(Stored(image, i)) && Laid(image, i, dir[i]) {
      SyncedMounts(dir, image, i);
    }
    if Inv(Fs(dir, image)) { RepeatedPath(dir, image, items); }
  }

  lemma BuiltMounts(dir: seq<Dirent>, image: seq<Byte>, items: seq<Item>)
    requires Built(dir, image, |items|, NextSect(items), items)
    ensures Inv(Fs(dir, image)) && View(Fs(dir, image)) == Tree(items)
  {
  }
}
