/** A mount of kernel/alfs.c some time after a write that failed: the disk still has
    the old entry of the path, memory has not. */
module AlfsMount {
  import opened ByteSeq
  import opened AlfsModel

  /** Disk and memory agree but for slot `k`, which is unused in memory and holds file
      entry `e` on disk; with it the directory is sound. */
  ghost predicate Stale(fs: Fs, k: int, e: Dirent) {
    && Inv(fs) && 0 <= k < MAX_FILES && SyncedBut(fs, k) && !IsUsed(fs.dir[k])
    && IsFile(e) && Shaped(e) && Stored(fs.disk, k) == Encode(e) && Inv(fs.(dir := fs.dir[k := e]))
  }

  /** So it is after an overwrite whose data transfer failed. */
  lemma FailedIsStale(a: Fs, op: Op, b: Fs)
    requires Inv(a) && Synced(a) && op.Write? && Step(a, op, DataFailed, b) && op.name in View(a)
    ensures var k := Find(a.dir, op.name, 0); k != -1 && Stale(b, k, a.dir[k])
  {
    StepIs(a, op, DataFailed, b);
    ViewSlot(a, op.name);
    DropIs(a, op.name);
    var k := Find(a.dir, op.name, 0);
    assert !Stops(a, op);
    hide Find, View, Step, Inv, CStr, Encode, Synced, Stale;
    DroppedIsStale(a, op, k, b);
  }

  lemma DroppedIsStale(a: Fs, op: Op, k: int, b: Fs)
    requires Inv(a) && Synced(a) && op.Write? && 0 <= k < MAX_FILES && IsFile(a.dir[k]) && DataTouched(a, op, b.disk)
    requires |b.dir| == MAX_FILES && b.dir == a.dir[k := a.dir[k].(flags := 0)]
    ensures Stale(b, k, a.dir[k])
  {
    forall j | 0 <= j < MAX_FILES ensures SyncedAt(Fs(a.dir, b.disk), j) {
      assert SyncedAt(a, j);
      DataSynced(a, b.disk, 512 * Mark(a, op.name), 512 * (Mark(a, op.name) + Need(|op.bytes|)), j);
    }
    assert SyncedAt(Fs(a.dir, b.disk), k);
    SameDisk(a, b.disk);
    ClearedInv(Fs(a.dir, b.disk), k);
    assert b.(dir := b.dir[k := a.dir[k]]) == Fs(a.dir, b.disk) by { assert b.dir[k := a.dir[k]] == a.dir; }
    hide Mark, Need, Encode, Inv;
    forall j | 0 <= j < MAX_FILES && j != k ensures SyncedAt(b, j) {
      assert SyncedAt(Fs(a.dir, b.disk), j) && b.dir[j] == a.dir[j];
    }
  }

  lemma ClearedInv(fs: Fs, k: int)
    requires Inv(fs) && 0 <= k < MAX_FILES
    ensures Inv(fs.(dir := fs.dir[k := fs.dir[k].(flags := 0)]))
  {
  }

  /** The invariant does not look at data. */
  lemma SameDisk(fs: Fs, disk: seq<Byte>)
    requires Inv(fs) && |disk| == |fs.disk|
    ensures Inv(fs.(disk := disk))
  {
  }

  /** The entry that an operation sets or clears. */
  ghost function SlotFor(fs: Fs, op: Op): int
    requires !op.Remount?
  {
    if op.Delete? then Find(fs.dir, op.name, 0) else SlotOf(fs, op.name)
  }

  /** A finished operation changes one entry in memory and one sector of the directory
      on disk, which then agree. */
  ghost predicate OneSector(fs: Fs, i: int, b: Fs) {
    && 0 <= i < MAX_FILES && |fs.dir| == MAX_FILES && |b.dir| == MAX_FILES
    && |fs.disk| >= 512 * DATA_START && |b.disk| == |fs.disk|
    && (forall j :: 0 <= j < MAX_FILES && j != i ==> b.dir[j] == fs.dir[j])
    && forall j :: 0 <= j < MAX_FILES ==>
         if j / 8 == i / 8 then SyncedAt(b, j) else Stored(b.disk, j) == Stored(fs.disk, j)
  }

  lemma FlushOneSector(fs: Fs, f: Fs, i: int, b: Fs)
    requires |fs.dir| == MAX_FILES && 0 <= i < MAX_FILES && FlushedOrNot(f, i, Done, b)
    requires |f.dir| == MAX_FILES && |fs.disk| >= 512 * DATA_START
    requires forall j :: 0 <= j < MAX_FILES && j != i ==> f.dir[j] == fs.dir[j]
    requires SameExcept(fs.disk, f.disk, 512 * DATA_START, |fs.disk|)
    ensures OneSector(fs, i, b)
  {
    forall j | 0 <= j < MAX_FILES
      ensures if j / 8 == i / 8 then SyncedAt(b, j) else Stored(b.disk, j) == Stored(fs.disk, j)
    {
      if j / 8 == i / 8 {
        assert f.dir[8 * (i / 8)..8 * (i / 8) + 8][j - 8 * (i / 8)] == f.dir[j];
        FlushedAt(f, b.disk, i / 8, j);
        assert b == f.(disk := b.disk);
      } else {
        SameSlice(f.disk, b.disk, 512 * (1 + i / 8), 512 * (1 + i / 8) + 512, 512 + 64 * j, 512 + 64 * j + 64);
        SameSlice(fs.disk, f.disk, 512 * DATA_START, |fs.disk|, 512 + 64 * j, 512 + 64 * j + 64);
      }
    }
  }

  lemma OpSector(fs: Fs, op: Op, b: Fs)
    requires Inv(fs) && !op.Remount? && !Stops(fs, op) && Step(fs, op, Done, b)
    ensures OneSector(fs, SlotFor(fs, op), b)
  {
    hide Inv, View, Drop, FlushedOrNot, Mark, Need, NewEntry, Find, Stops, Content, OneSector, Entered, DataIn, SlotOf;
    if op.Write? {
      var disk :| DataIn(fs, op, disk) && FlushedOrNot(Entered(fs, op, disk), SlotOf(fs, op.name), Done, b);
      DataBehind(fs, op, disk);
      EnteredOne(fs, op, disk);
      FlushOneSector(fs, Entered(fs, op, disk), SlotFor(fs, op), b);
    } else if op.Mkdir? {
      EnteredOne(fs, op, fs.disk);
      FlushOneSector(fs, Entered(fs, op, fs.disk), SlotFor(fs, op), b);
    } else {
      DroppedOne(fs, op);
      FlushOneSector(fs, Drop(fs, op.name), SlotFor(fs, op), b);
    }
  }

  lemma DataBehind(fs: Fs, op: Op, disk: seq<Byte>)
    requires op.Write? && DataIn(fs, op, disk)
    ensures SameExcept(fs.disk, disk, 512 * DATA_START, |fs.disk|)
  {
    hide Mark, Need, Content;
    assert Mark(fs, op.name) >= DATA_START;
  }

  lemma EnteredOne(fs: Fs, op: Op, disk: seq<Byte>)
    requires Inv(fs) && (op.Write? || op.Mkdir?) && !Stops(fs, op)
    ensures |fs.dir| == MAX_FILES && 0 <= SlotOf(fs, op.name) < MAX_FILES && |fs.disk| >= 512 * DATA_START
    ensures var f := Entered(fs, op, disk);
            |f.dir| == MAX_FILES && f.disk == disk &&
            forall j :: 0 <= j < MAX_FILES && j != SlotOf(fs, op.name) ==> f.dir[j] == fs.dir[j]
  {
    DropIs(fs, op.name);
    SlotUnused(fs, op);
    assert DiskShape(fs.disk);
    hide Inv, Drop, Find, FirstFree, NewEntry;
  }

  lemma DroppedOne(fs: Fs, op: Op)
    requires Inv(fs) && op.Delete? && !Stops(fs, op)
    ensures var f, k := Drop(fs, op.name), Find(fs.dir, op.name, 0);
            |fs.dir| == MAX_FILES && 0 <= k < MAX_FILES && |f.dir| == MAX_FILES && f.disk == fs.disk &&
            |fs.disk| >= 512 * DATA_START && forall j :: 0 <= j < MAX_FILES && j != k ==> f.dir[j] == fs.dir[j]
  {
    DropIs(fs, op.name);
    assert DiskShape(fs.disk);
    hide Inv, Drop, Find;
  }

  /** The directory that a mount reads after an operation on a stale state. */
  lemma MountReads(fs: Fs, k: int, e: Dirent, i: int, b: Fs, c: Fs)
    requires Stale(fs, k, e) && OneSector(fs, i, b) && c.disk == b.disk && OnDisk(b.disk, c.dir)
    requires forall j :: 0 <= j < MAX_FILES ==> Shaped(b.dir[j])
    ensures c.dir == if i / 8 == k / 8 then b.dir else b.dir[k := e]
  {
    hide Inv, Encode, Decode;
    forall j | 0 <= j < MAX_FILES ensures c.dir[j] == if i / 8 != k / 8 && j == k then e else b.dir[j] {
      if i / 8 != k / 8 && j == k {
        DecodeEncode(e);
      } else {
        if j / 8 != i / 8 { assert SyncedAt(fs, j) && b.dir[j] == fs.dir[j]; } else { assert SyncedAt(b, j); }
        DecodeEncode(b.dir[j]);
      }
    }
  }

  /** With the old entry back, the directory is sound exactly when it and the changed
      entry do not meet. */
  lemma BackAgain(fs: Fs, k: int, e: Dirent, i: int, b: Fs)
    requires Stale(fs, k, e) && OneSector(fs, i, b) && Inv(b) && i != k
    ensures Inv(b.(dir := b.dir[k := e])) <==> Apart(b.dir[i], e) && Different(b.dir[i], e)
  {
    var now, old_ := b.(dir := b.dir[k := e]), fs.(dir := fs.dir[k := e]);
    if Apart(b.dir[i], e) && Different(b.dir[i], e) {
      forall x | 0 <= x < MAX_FILES
        ensures Shaped(now.dir[x]) && Named(now.dir[x]) && Placed(now.dir[x], |now.disk| / 512)
      {
        if x == k { assert Placed(old_.dir[x], |old_.disk| / 512); } else { assert Placed(b.dir[x], |b.disk| / 512); }
      }
      forall x, y | 0 <= x < y < MAX_FILES ensures Apart(now.dir[x], now.dir[y]) && Different(now.dir[x], now.dir[y]) {
        if x != k && y != k {
          assert Apart(b.dir[x], b.dir[y]) && Different(b.dir[x], b.dir[y]);
        } else if x != i && y != i {
          assert Apart(old_.dir[x], old_.dir[y]) && Different(old_.dir[x], old_.dir[y]);
        }
      }
    } else if Inv(now) {
      InvPair(now, i, k);
    }
  }

  /** What an operation leaves in its entry. */
  ghost function NewAt(fs: Fs, op: Op): Dirent
    requires !op.Remount? && !Stops(fs, op)
  {
    if op.Delete? then fs.dir[Find(fs.dir, op.name, 0)].(flags := 0) else NewEntry(fs, op)
  }

  /** After one more operation a mount is safe exactly when that operation wrote the
      sector of the old entry, or its own entry does not meet the old one. */
  lemma LaterMount(fs: Fs, k: int, e: Dirent, op: Op, b: Fs, c: Fs)
    requires Stale(fs, k, e) && !op.Remount? && OpOk(op) && Clean(View(fs), op) && !Stops(fs, op)
    requires Step(fs, op, Done, b) && Step(b, Remount, Done, c)
    ensures Inv(c) <==> SlotFor(fs, op) / 8 == k / 8 || (Apart(NewAt(fs, op), e) && Different(NewAt(fs, op), e))
  {
    StepRefines(fs, op, Done, b);
    OpSector(fs, op, b);
    NewAtIs(fs, op, b);
    MountedIs(b, c);
    assert forall j :: 0 <= j < MAX_FILES ==> Shaped(b.dir[j]);
    hide Inv, View, Step, Stops, Clean, OneSector, Stale, NewAt, SlotFor, Apart, Different;
    MountReads(fs, k, e, SlotFor(fs, op), b, c);
    if SlotFor(fs, op) / 8 != k / 8 { BackAgain(fs, k, e, SlotFor(fs, op), b); }
    if SlotFor(fs, op) / 8 == k / 8 { assert c == b; } else { assert c == b.(dir := b.dir[k := e]); }
  }

  lemma NewAtIs(fs: Fs, op: Op, b: Fs)
    requires Inv(fs) && !op.Remount? && !Stops(fs, op) && Step(fs, op, Done, b)
    ensures var i := SlotFor(fs, op); 0 <= i < |b.dir| && b.dir[i] == NewAt(fs, op)
  {
    DropIs(fs, op.name);
    if op.Delete? {
      DeleteIs(fs, op, Done, b);
    } else {
      SlotUnused(fs, op);
      StepIs(fs, op, Done, b);
    }
    hide Inv, Step, Find, Mark, Stops;
  }

  /** Trying the failed write again and then mounting is safe exactly when the first
      free entry is in the sector of the old one; else the path is there twice. */
  lemma RetryMount(a: Fs, op: Op, b: Fs, again: Fs, c: Fs)
    requires Inv(a) && Synced(a) && op.Write? && GoodName(op.name) && op.name in View(a)
    requires Step(a, op, DataFailed, b) && Step(b, op, Done, again) && Step(again, Remount, Done, c)
    ensures Inv(c) <==> FirstFree(b.dir, 0) / 8 == Find(a.dir, op.name, 0) / 8
  {
    hide Inv, View, Step, Stale, CStr, PadName, Mark, Synced, FirstFree, Stops, Find;
    FailedIsStale(a, op, b);
    var k := Find(a.dir, op.name, 0);
    StepIs(b, op, Done, again);
    GoneIsNew(a, op, b);
    NameKept(op.name);
    LaterMount(b, k, a.dir[k], op, again, c);
  }

  lemma GoneIsNew(a: Fs, op: Op, b: Fs)
    requires Inv(a) && op.Write? && GoodName(op.name) && Step(a, op, DataFailed, b)
    ensures Find(b.dir, op.name, 0) == -1
  {
    StepRefines(a, op, DataFailed, b);
    ViewSlot(b, op.name);
  }

  // ------------------------------------------------------------------
  // Every state where that happens has such a run

  ghost function Over(disk: seq<Byte>, at: nat, data: seq<Byte>): (r: seq<Byte>)
    requires at + |data| <= |disk|
    ensures SameExcept(disk, r, at, at + |data|) && r[at..at + |data|] == data
  {
    disk[..at] + data + disk[at + |data|..]
  }

  lemma CanFlush(f: Fs, i: int) returns (b: Fs)
    requires |f.dir| == MAX_FILES && AllShaped(f.dir) && 0 <= i < MAX_FILES && |f.disk| >= 512 * DATA_START
    ensures FlushedOrNot(f, i, Done, b)
  {
    var s := i / 8;
    var part := f.dir[8 * s..8 * s + 8];
    hide EntryBytes;
    b := Fs(f.dir, Over(f.disk, 512 * (1 + s), EntryBytes(part)));
  }

  lemma CanWrite(fs: Fs, op: Op) returns (disk: seq<Byte>)
    requires op.Write? && 512 * (Mark(fs, op.name) + Need(|op.bytes|)) <= |fs.disk|
    ensures DataIn(fs, op, disk)
  {
    NeedCovers(|op.bytes|);
    hide Mark, Need;
    disk := Over(fs.disk, 512 * Mark(fs, op.name), op.bytes);
  }

  /** A disk that takes every byte lets a write that is not refused finish. */
  lemma CanFinish(fs: Fs, op: Op) returns (b: Fs)
    requires Inv(fs) && op.Write? && !Stops(fs, op) && |op.bytes| < WORDS
    requires 512 * (Mark(fs, op.name) + Need(|op.bytes|)) <= |fs.disk|
    ensures Step(fs, op, Done, b)
  {
    SlotUnused(fs, op);
    DropIs(fs, op.name);
    assert DATA_START <= |fs.disk| / 512 < SECTS_MAX;
    hide Inv, Drop, Mark, Need, Stops, SlotOf, NewEntry, DataIn, FlushedOrNot, Entered;
    var disk := CanWrite(fs, op);
    DataLength(fs, op, disk);
    FinishedDir(fs, op, disk);
    b := CanFlush(Entered(fs, op, disk), SlotOf(fs, op.name));
  }

  lemma DataLength(fs: Fs, op: Op, disk: seq<Byte>)
    requires op.Write? && !Stops(fs, op) && DataIn(fs, op, disk)
    ensures |disk| == |fs.disk| && Entered(fs, op, disk).disk == disk
  {
  }

  lemma NeedCovers(size: nat)
    ensures size <= 512 * Need(size)
  {
  }

  lemma FinishedDir(fs: Fs, op: Op, disk: seq<Byte>)
    requires Inv(fs) && op.Write? && !Stops(fs, op) && |op.bytes| < WORDS && Mark(fs, op.name) < WORDS
    requires |Drop(fs, op.name).dir| == MAX_FILES && 0 <= SlotOf(fs, op.name) < MAX_FILES && Inv(Drop(fs, op.name))
    ensures |Entered(fs, op, disk).dir| == MAX_FILES && AllShaped(Entered(fs, op, disk).dir)
  {
    hide Drop, Mark, SlotOf, Stops;
  }

  /** A failed overwrite, the same write again and a mount leave a path twice. */
  lemma RetryDoubles(a: Fs, op: Op) returns (b: Fs, again: Fs, c: Fs)
    requires Inv(a) && Synced(a) && op.Write? && GoodName(op.name) && op.name in View(a) && View(a)[op.name].File?
    requires |op.bytes| < WORDS && 512 * (Mark(a, op.name) + Need(|op.bytes|)) <= |a.disk|
    requires 0 <= FirstFree(a.dir, 0) && FirstFree(a.dir, 0) / 8 < Find(a.dir, op.name, 0) / 8
    ensures Step(a, op, DataFailed, b) && Step(b, op, Done, again) && Step(again, Remount, Done, c) && !Inv(c)
  {
    hide Inv, View, Synced, CStr, PadName, Find, FirstFree, Drop, OnDisk, Step, Mark, Need, Stops;
    b := Drop(a, op.name);
    FailsAtOnce(a, op);
    GoneIsNew(a, op, b);
    StillFirst(a, op, b);
    SameMark(a, op);
    again := CanFinish(b, op);
    LongEnough(b, op, again);
    c := MountOf(again);
    RetryMount(a, op, b, again, c);
  }

  lemma FailsAtOnce(a: Fs, op: Op)
    requires Inv(a) && op.Write? && op.name in View(a) && View(a)[op.name].File?
    ensures Step(a, op, DataFailed, Drop(a, op.name)) && Inv(Drop(a, op.name))
  {
    hide Inv, View, Find, Drop, Mark, Need, FlushedOrNot, DataIn, Entered, SlotOf, Stops;
    DropIs(a, op.name);
    NotStopped(a, op);
  }

  lemma NotStopped(a: Fs, op: Op)
    requires Inv(a) && op.Write? && op.name in View(a) && View(a)[op.name].File?
    ensures !Stops(a, op)
  {
    ViewSlot(a, op.name);
  }

  lemma SameMark(a: Fs, op: Op)
    requires op.Write? && Find(Drop(a, op.name).dir, op.name, 0) == -1 && FirstFree(Drop(a, op.name).dir, 0) != -1
    ensures Mark(Drop(a, op.name), op.name) == Mark(a, op.name) && !Stops(Drop(a, op.name), op)
    ensures Drop(a, op.name).disk == a.disk
  {
  }

  lemma StillFirst(a: Fs, op: Op, b: Fs)
    requires Inv(a) && op.Write? && b == Drop(a, op.name) && 0 <= FirstFree(a.dir, 0)
    requires FirstFree(a.dir, 0) / 8 < Find(a.dir, op.name, 0) / 8
    ensures FirstFree(b.dir, 0) == FirstFree(a.dir, 0)
  {
    DropIs(a, op.name);
    hide Inv, Find, FirstFree, Drop;
    var f := FirstFree(a.dir, 0);
    assert !IsUsed(b.dir[f]) && forall j :: 0 <= j < f ==> b.dir[j] == a.dir[j];
  }

  lemma LongEnough(a: Fs, op: Op, b: Fs)
    requires Inv(a) && op.Write? && GoodName(op.name) && Step(a, op, Done, b)
    ensures |b.disk| >= 512 * DATA_START
  {
    StepRefines(a, op, Done, b);
    assert DiskShape(b.disk);
  }

  lemma MountOf(b: Fs) returns (c: Fs)
    requires |b.disk| >= 512 * DATA_START
    ensures Step(b, Remount, Done, c)
  {
    hide Decode;
    c := Fs(seq(MAX_FILES, i requires 0 <= i < MAX_FILES => Decode(Stored(b.disk, i))), b.disk);
  }
}
