/** AliFS (kernel/alfs.c) as values: a directory of 48 entries over a disk of
    512-byte sectors, and the map from path to bytes or directory it stands for. */
module AlfsModel {
  import opened ByteSeq
  import opened Sets

  const NAME_MAX: nat := 52    // with the terminating NUL
  const DATA_START: nat := 7   // sector 0 is the superblock, 1..6 the directory
  const MAX_FILES: nat := 48
  const SECTS_MAX: nat := 0x80_0000 // below this, sector numbers and byte sizes fit 32 bits
  const MAGIC: nat := 0x414C4653

  type Name = seq<Byte>

  datatype Dirent = Dirent(name: seq<Byte>, start: nat, size: nat, flags: nat)

  datatype Node = Dir | File(bytes: seq<Byte>)

  datatype Fs = Fs(dir: seq<Dirent>, disk: seq<Byte>)

  predicate IsUsed(e: Dirent) { e.flags % 2 == 1 }

  predicate IsDir(e: Dirent) { e.flags / 2 % 2 == 1 }

  ghost predicate IsFile(e: Dirent) { IsUsed(e) && !IsDir(e) }

  predicate Shaped(e: Dirent) {
    |e.name| == NAME_MAX && e.start < WORDS && e.size < WORDS && e.flags < WORDS
  }

  predicate AllShaped(dir: seq<Dirent>) { forall i :: 0 <= i < |dir| ==> Shaped(dir[i]) }

  function Sects(size: nat): nat { (size + 511) / 512 }

  /** Sectors alfs_write writes: an empty file gets one that it does not keep. */
  function Need(size: nat): nat { if size == 0 then 1 else Sects(size) }

  ghost function EndOf(e: Dirent): nat { e.start + Sects(e.size) }

  /** What strncpy_name leaves in the 52 bytes of an entry. */
  function PadName(name: Name): (p: seq<Byte>)
    ensures |p| == NAME_MAX
  {
    var n := if |name| < NAME_MAX then |name| else NAME_MAX - 1;
    name[..n] + seq(NAME_MAX - n, _ => 0)
  }

  ghost predicate GoodName(name: Name) { |name| < NAME_MAX && NoNul(name) }

  /** A stored name reads back as the path exactly when it is at most 51 bytes long. */
  lemma NameKept(name: Name)
    requires NoNul(name)
    ensures CStr(PadName(name)) == name <==> |name| <= 51
    ensures GoodName(CStr(PadName(name)))
    ensures forall i :: 0 <= i < 52 ==> PadName(name)[i] == if i < |name| && i < 51 then name[i] else 0
  {
    var n := if |name| < NAME_MAX then |name| else NAME_MAX - 1;
    assert PadName(name)[..n] == name[..n];
    CStrIs(PadName(name), n);
  }

  // ------------------------------------------------------------------
  // The meaning of a directory

  ghost predicate Matches(e: Dirent, name: Name) { IsUsed(e) && CStr(e.name) == name }

  /** The first entry from `i` on that holds `name`, or -1. */
  ghost function Find(dir: seq<Dirent>, name: Name, i: nat): (k: int)
    requires i <= |dir|
    ensures k == -1 || i <= k < |dir|
    ensures k == -1 <==> forall j :: i <= j < |dir| ==> !Matches(dir[j], name)
    ensures k != -1 ==> Matches(dir[k], name) && forall j :: i <= j < k ==> !Matches(dir[j], name)
    decreases |dir| - i
  {
    if i == |dir| then -1 else if Matches(dir[i], name) then i else Find(dir, name, i + 1)
  }

  ghost function Content(disk: seq<Byte>, start: nat, size: nat): seq<Byte> {
    if 512 * start + size <= |disk| then disk[512 * start..512 * start + size] else []
  }

  /** What is left of the last sector of a file is zeros. */
  ghost predicate ZeroTail(disk: seq<Byte>, start: nat, size: nat) {
    512 * start + size <= |disk| && forall x ::
      512 * start + size <= x < 512 * (start + Need(size)) && x < |disk| ==> disk[x] == 0
  }

  ghost function NodeOf(disk: seq<Byte>, e: Dirent): Node {
    if IsDir(e) then Dir else File(Content(disk, e.start, e.size))
  }

  ghost function Names(dir: seq<Dirent>): set<Name> {
    set i | 0 <= i < |dir| && IsUsed(dir[i]) :: CStr(dir[i].name)
  }

  /** Path to bytes or directory. */
  ghost function View(fs: Fs): map<Name, Node> {
    map name | name in Names(fs.dir) :: NodeOf(fs.disk, fs.dir[Find(fs.dir, name, 0)])
  }

  // ------------------------------------------------------------------
  // Invariant

  ghost predicate DiskShape(disk: seq<Byte>) {
    |disk| % 512 == 0 && DATA_START <= |disk| / 512 < SECTS_MAX
  }

  /** A file's sectors are data sectors of the disk; a directory has none. */
  ghost predicate Placed(e: Dirent, sects: nat) {
    (IsFile(e) ==> DATA_START <= e.start && EndOf(e) <= sects) && (IsUsed(e) && IsDir(e) ==> e.size == 0)
  }

  ghost predicate Apart(a: Dirent, b: Dirent) {
    IsFile(a) && IsFile(b) ==> EndOf(a) <= b.start || EndOf(b) <= a.start
  }

  ghost predicate Named(e: Dirent) { IsUsed(e) ==> |CStr(e.name)| < NAME_MAX }

  ghost predicate Different(a: Dirent, b: Dirent) { IsUsed(a) && IsUsed(b) ==> CStr(a.name) != CStr(b.name) }

  ghost predicate Inv(fs: Fs) {
    && |fs.dir| == MAX_FILES && DiskShape(fs.disk)
    && (forall i :: 0 <= i < MAX_FILES ==> Shaped(fs.dir[i]) && Named(fs.dir[i]) && Placed(fs.dir[i], |fs.disk| / 512))
    && (forall i, j :: 0 <= i < j < MAX_FILES ==> Apart(fs.dir[i], fs.dir[j]) && Different(fs.dir[i], fs.dir[j]))
  }

  /** Every name in use ends within its 52 bytes. */
  ghost predicate Terminated(dir: seq<Dirent>) {
    forall i :: 0 <= i < |dir| && IsUsed(dir[i]) ==> |dir[i].name| == NAME_MAX && Named(dir[i])
  }

  lemma InvTerminated(fs: Fs)
    requires Inv(fs)
    ensures Terminated(fs.dir)
  {
  }

  lemma LongNotFound(dir: seq<Dirent>, name: Name)
    requires Terminated(dir) && |name| >= NAME_MAX
    ensures Find(dir, name, 0) == -1
  {
    assert forall j :: 0 <= j < |dir| && IsUsed(dir[j]) ==> Named(dir[j]);
  }

  /** An entry in use has as many bytes as it says, a directory none. */
  lemma EntrySize(fs: Fs, i: nat)
    requires Inv(fs) && i < MAX_FILES && IsUsed(fs.dir[i])
    ensures |Content(fs.disk, fs.dir[i].start, fs.dir[i].size)| == fs.dir[i].size
    ensures IsDir(fs.dir[i]) ==> Content(fs.disk, fs.dir[i].start, fs.dir[i].size) == []
  {
    assert Placed(fs.dir[i], |fs.disk| / 512);
  }

  lemma InvPair(fs: Fs, i: nat, j: nat)
    requires Inv(fs) && i < MAX_FILES && j < MAX_FILES && i != j
    ensures Apart(fs.dir[i], fs.dir[j]) && Different(fs.dir[i], fs.dir[j])
  {
    if i > j { assert Apart(fs.dir[j], fs.dir[i]) && Different(fs.dir[j], fs.dir[i]); }
  }

  /** Each used entry is what the view says of its name. */
  lemma ViewAt(fs: Fs, i: nat)
    requires Inv(fs) && i < MAX_FILES && IsUsed(fs.dir[i])
    ensures var name := CStr(fs.dir[i].name);
            Find(fs.dir, name, 0) == i && name in View(fs) && View(fs)[name] == NodeOf(fs.disk, fs.dir[i])
  {
    var k := Find(fs.dir, CStr(fs.dir[i].name), 0);
    assert Matches(fs.dir[i], CStr(fs.dir[i].name));
    if k != i { InvPair(fs, k, i); }
  }

  lemma ViewSlot(fs: Fs, name: Name)
    requires Inv(fs)
    ensures name in View(fs) <==> Find(fs.dir, name, 0) != -1
    ensures name in View(fs) ==> View(fs)[name] == NodeOf(fs.disk, fs.dir[Find(fs.dir, name, 0)])
  {
    var k := Find(fs.dir, name, 0);
    if k != -1 { assert CStr(fs.dir[k].name) in Names(fs.dir); }
  }

  /** `m` says of entry `e` what the disk says. */
  ghost predicate Tells(m: map<Name, Node>, disk: seq<Byte>, e: Dirent) {
    IsUsed(e) ==> CStr(e.name) in m && m[CStr(e.name)] == NodeOf(disk, e)
  }

  lemma ViewTells(fs: Fs, i: nat)
    requires Inv(fs) && i < MAX_FILES
    ensures Tells(View(fs), fs.disk, fs.dir[i])
  {
    if IsUsed(fs.dir[i]) { ViewAt(fs, i); }
  }

  lemma TellsWithout(m: map<Name, Node>, disk: seq<Byte>, e: Dirent, gone: Name)
    requires Tells(m, disk, e) && (IsUsed(e) ==> CStr(e.name) != gone)
    ensures Tells(m - {gone}, disk, e)
  {
    hide CStr, NodeOf, IsUsed;
  }

  lemma TellsWith(m: map<Name, Node>, disk: seq<Byte>, e: Dirent, name: Name, node: Node)
    requires Tells(m, disk, e) && (IsUsed(e) ==> CStr(e.name) != name)
    ensures Tells(m[name := node], disk, e)
  {
    hide CStr, NodeOf, IsUsed;
  }

  lemma ViewIsAt(fs: Fs, m: map<Name, Node>, name: Name)
    requires Inv(fs) && forall i :: 0 <= i < MAX_FILES ==> Tells(m, fs.disk, fs.dir[i])
    requires name in View(fs)
    ensures name in m && View(fs)[name] == m[name]
  {
    ViewSlot(fs, name);
    assert Tells(m, fs.disk, fs.dir[Find(fs.dir, name, 0)]);
  }

  /** A map that agrees with every used entry, and names nothing else, is the view. */
  lemma ViewIs(fs: Fs, m: map<Name, Node>)
    requires Inv(fs) && forall i :: 0 <= i < MAX_FILES ==> Tells(m, fs.disk, fs.dir[i])
    requires forall name :: name in m ==> name in View(fs)
    ensures View(fs) == m
  {
    hide Inv, View, Tells;
    forall name | name in View(fs) ensures name in m && View(fs)[name] == m[name] { ViewIsAt(fs, m, name); }
  }

  // ------------------------------------------------------------------
  // What a change of one entry, or of bytes outside every file, does

  ghost function Clear(fs: Fs, i: nat): Fs
    requires i < |fs.dir|
  {
    fs.(dir := fs.dir[i := fs.dir[i].(flags := 0)])
  }

  lemma ClearInv(fs: Fs, i: nat)
    requires Inv(fs) && i < MAX_FILES
    ensures Inv(Clear(fs, i))
  {
  }

  lemma ClearTells(fs: Fs, i: nat, j: nat)
    requires Inv(fs) && i < MAX_FILES && IsUsed(fs.dir[i]) && j < MAX_FILES
    ensures Tells(View(fs) - {CStr(fs.dir[i].name)}, fs.disk, Clear(fs, i).dir[j])
  {
    if j == i {
      assert !IsUsed(Clear(fs, i).dir[j]);
    } else {
      ViewTells(fs, j);
      InvPair(fs, i, j);
      hide Inv, View, Tells;
      assert Clear(fs, i).dir[j] == fs.dir[j];
      TellsWithout(View(fs), fs.disk, fs.dir[j], CStr(fs.dir[i].name));
    }
  }

  lemma ClearKeeps(fs: Fs, i: nat, name: Name)
    requires Inv(fs) && i < MAX_FILES && IsUsed(fs.dir[i]) && name in View(fs) && name != CStr(fs.dir[i].name)
    ensures name in View(Clear(fs, i))
  {
    ClearInv(fs, i);
    ViewSlot(fs, name);
    assert Matches(Clear(fs, i).dir[Find(fs.dir, name, 0)], name);
    ViewSlot(Clear(fs, i), name);
  }

  lemma ClearView(fs: Fs, i: nat)
    requires Inv(fs) && i < MAX_FILES && IsUsed(fs.dir[i])
    ensures Inv(Clear(fs, i)) && View(Clear(fs, i)) == View(fs) - {CStr(fs.dir[i].name)}
  {
    assert |fs.dir| == MAX_FILES;
    hide Inv, View, Tells;
    ClearInv(fs, i);
    var m := View(fs) - {CStr(fs.dir[i].name)};
    forall j | 0 <= j < MAX_FILES ensures Tells(m, fs.disk, Clear(fs, i).dir[j]) { ClearTells(fs, i, j); }
    forall name | name in m ensures name in View(Clear(fs, i)) { ClearKeeps(fs, i, name); }
    ViewIs(Clear(fs, i), m);
  }

  ghost predicate Enterable(fs: Fs, i: nat, e: Dirent) {
    && i < |fs.dir| && !IsUsed(fs.dir[i]) && Shaped(e) && IsUsed(e) && Named(e) && Placed(e, |fs.disk| / 512)
    && CStr(e.name) !in View(fs)
    && forall j :: 0 <= j < |fs.dir| ==> Apart(fs.dir[j], e)
  }

  lemma EnterDifferent(fs: Fs, i: nat, e: Dirent, j: nat)
    requires Inv(fs) && Enterable(fs, i, e) && j < MAX_FILES
    ensures Different(fs.dir[j], e)
  {
    if IsUsed(fs.dir[j]) { ViewAt(fs, j); }
  }

  lemma EnterInv(fs: Fs, i: nat, e: Dirent)
    requires Inv(fs) && Enterable(fs, i, e)
    ensures Inv(fs.(dir := fs.dir[i := e]))
  {
    hide View;
    forall j | 0 <= j < MAX_FILES ensures Different(fs.dir[j], e) { EnterDifferent(fs, i, e, j); }
  }

  lemma EnterTells(fs: Fs, i: nat, e: Dirent, j: nat)
    requires Inv(fs) && Enterable(fs, i, e) && j < MAX_FILES
    ensures Tells(View(fs)[CStr(e.name) := NodeOf(fs.disk, e)], fs.disk, fs.dir[i := e][j])
  {
    if j != i {
      ViewTells(fs, j);
      EnterDifferent(fs, i, e, j);
      hide Inv, View, Tells, Enterable;
      assert fs.dir[i := e][j] == fs.dir[j];
      TellsWith(View(fs), fs.disk, fs.dir[j], CStr(e.name), NodeOf(fs.disk, e));
    }
  }

  lemma EnterKeeps(fs: Fs, i: nat, e: Dirent, name: Name)
    requires Inv(fs) && Enterable(fs, i, e) && (name in View(fs) || name == CStr(e.name))
    ensures name in View(fs.(dir := fs.dir[i := e]))
  {
    EnterInv(fs, i, e);
    var now := fs.(dir := fs.dir[i := e]);
    assert !IsUsed(fs.dir[i]) && IsUsed(e);
    hide Inv, View, Find, CStr, Enterable;
    ViewSlot(fs, name);
    assert Matches(now.dir[if name == CStr(e.name) then i else Find(fs.dir, name, 0)], name);
    ViewSlot(now, name);
  }

  lemma EnterView(fs: Fs, i: nat, e: Dirent)
    requires Inv(fs) && Enterable(fs, i, e)
    ensures var now := fs.(dir := fs.dir[i := e]); Inv(now) && View(now) == View(fs)[CStr(e.name) := NodeOf(fs.disk, e)]
  {
    assert |fs.dir| == MAX_FILES && i < MAX_FILES;
    hide Inv, View, Tells, Enterable;
    EnterInv(fs, i, e);
    var now := fs.(dir := fs.dir[i := e]);
    var m := View(fs)[CStr(e.name) := NodeOf(fs.disk, e)];
    forall j | 0 <= j < MAX_FILES ensures Tells(m, now.disk, now.dir[j]) { EnterTells(fs, i, e, j); }
    forall name | name in m ensures name in View(now) { EnterKeeps(fs, i, e, name); }
    ViewIs(now, m);
  }

  /** No file has a byte in lo..hi. */
  ghost predicate Misses(dir: seq<Dirent>, lo: int, hi: int) {
    forall i :: 0 <= i < |dir| && IsFile(dir[i]) ==> 512 * EndOf(dir[i]) <= lo || hi <= 512 * dir[i].start
  }

  lemma MissNode(e: Dirent, a: seq<Byte>, b: seq<Byte>, lo: int, hi: int)
    requires IsUsed(e) && (IsFile(e) ==> 512 * EndOf(e) <= lo || hi <= 512 * e.start) && SameExcept(a, b, lo, hi)
    ensures NodeOf(a, e) == NodeOf(b, e)
  {
    if !IsDir(e) && 512 * e.start + e.size <= |a| {
      SameSlice(a, b, lo, hi, 512 * e.start, 512 * e.start + e.size);
    }
  }

  lemma MissView(fs: Fs, disk: seq<Byte>, lo: int, hi: int)
    requires Inv(fs) && SameExcept(fs.disk, disk, lo, hi) && Misses(fs.dir, lo, hi)
    ensures Inv(fs.(disk := disk)) && View(fs.(disk := disk)) == View(fs)
  {
    forall name | name in View(fs) ensures View(fs.(disk := disk))[name] == View(fs)[name] {
      ViewSlot(fs, name);
      MissNode(fs.dir[Find(fs.dir, name, 0)], fs.disk, disk, lo, hi);
    }
  }

  // ------------------------------------------------------------------
  // High-water allocation

  ghost function HighWater(dir: seq<Dirent>, n: nat): (h: nat)
    requires n <= |dir|
    ensures h >= DATA_START && forall i :: 0 <= i < n && IsFile(dir[i]) ==> EndOf(dir[i]) <= h
  {
    if n == 0 then DATA_START
    else var h := HighWater(dir, n - 1); if IsFile(dir[n - 1]) && EndOf(dir[n - 1]) > h then EndOf(dir[n - 1]) else h
  }

  lemma {:induction false} HighWaterFits(fs: Fs, n: nat)
    requires Inv(fs) && n <= MAX_FILES
    ensures HighWater(fs.dir, n) <= |fs.disk| / 512
  {
    if n > 0 { HighWaterFits(fs, n - 1); }
  }

  /** Bytes from the high-water mark on belong to no file. */
  lemma HighWaterMisses(dir: seq<Dirent>, hi: int)
    ensures Misses(dir, 512 * HighWater(dir, |dir|), hi)
  {
  }

  /** The superblock and the directory hold no file data. */
  lemma DirMisses(fs: Fs, lo: int)
    requires Inv(fs)
    ensures Misses(fs.dir, lo, 512 * DATA_START)
  {
  }

  // ------------------------------------------------------------------
  // The directory on disk

  function Encode(e: Dirent): (b: seq<Byte>)
    requires Shaped(e)
    ensures |b| == 64
  {
    e.name + Le32(e.start) + Le32(e.size) + Le32(e.flags)
  }

  function Decode(b: seq<Byte>): (e: Dirent)
    requires |b| == 64
    ensures Shaped(e)
  {
    Dirent(b[..52], Of32(b[52..56]), Of32(b[56..60]), Of32(b[60..64]))
  }

  lemma DecodeEncode(e: Dirent)
    requires Shaped(e)
    ensures Decode(Encode(e)) == e
    ensures var b := Encode(e);
            b[..52] == e.name && IsWord(b, 52, e.start) && IsWord(b, 56, e.size) && IsWord(b, 60, e.flags)
  {
    var b := Encode(e);
    WordBytes(b, 0, 64, 52);
    WordBytes(b, 0, 64, 56);
    WordBytes(b, 0, 64, 60);
    assert b[0..64] == b;
    assert b[..52] == e.name && b[52..56] == Le32(e.start) && b[56..60] == Le32(e.size) && b[60..64] == Le32(e.flags);
    hide Le32, Of32, IsWord;
    Le32RoundTrip(e.start);
    Le32RoundTrip(e.size);
    Le32RoundTrip(e.flags);
  }

  lemma EncodeDecode(b: seq<Byte>)
    requires |b| == 64
    ensures Encode(Decode(b)) == b
    ensures var e := Decode(b);
            e.name == b[..52] && IsWord(b, 52, e.start) && IsWord(b, 56, e.size) && IsWord(b, 60, e.flags)
  {
    WordBytes(b, 0, 64, 52);
    WordBytes(b, 0, 64, 56);
    WordBytes(b, 0, 64, 60);
    assert b[0..64] == b;
    hide Le32, Of32, IsWord;
    Of32RoundTrip(b[52..56]);
    Of32RoundTrip(b[56..60]);
    Of32RoundTrip(b[60..64]);
    assert b == b[..52] + b[52..56] + b[56..60] + b[60..64];
  }

  /** The 64 bytes of entry `i` on the disk. */
  function Stored(disk: seq<Byte>, i: nat): (b: seq<Byte>)
    requires i < MAX_FILES && |disk| >= 512 * DATA_START
    ensures |b| == 64
  {
    disk[512 + 64 * i..512 + 64 * i + 64]
  }

  /** The first word of the superblock. */
  lemma MagicBytes(disk: seq<Byte>)
    requires |disk| >= 4
    ensures Of32(disk[0..4]) == MAGIC <==> disk[..4] == [0x53, 0x46, 0x4C, 0x41]
  {
    assert disk[0..4] == disk[..4];
    if Of32(disk[0..4]) == MAGIC { Of32RoundTrip(disk[0..4]); }
  }

  /** The four bytes from x on are v, the lowest first. */
  ghost predicate IsWord(disk: seq<Byte>, x: nat, v: nat) {
    x + 4 <= |disk| &&
    var b0: int, b1: int, b2: int, b3: int := disk[x], disk[x + 1], disk[x + 2], disk[x + 3];
    v == b0 + 256 * b1 + 65536 * b2 + 16777216 * b3
  }

  /** The bytes of entry `i` on the disk, of 64 each from the second sector on: 52 of
      name, and the words of start, size and flags. */
  ghost predicate Laid(disk: seq<Byte>, i: nat, e: Dirent) {
    && i < 48 && |disk| >= 3584 && e.name == disk[512 + 64 * i..512 + 64 * i + 52]
    && IsWord(disk, 512 + 64 * i + 52, e.start) && IsWord(disk, 512 + 64 * i + 56, e.size)
    && IsWord(disk, 512 + 64 * i + 60, e.flags)
  }

  lemma WordBytes(disk: seq<Byte>, lo: nat, hi: nat, x: nat)
    requires lo <= lo + x <= lo + x + 4 <= hi <= |disk|
    ensures IsWord(disk, lo + x, Of32(disk[lo..hi][x..x + 4]))
  {
    SliceSlice(disk, lo, hi, x, x + 4);
    assert disk[lo + x..lo + x + 4] == [disk[lo + x], disk[lo + x + 1], disk[lo + x + 2], disk[lo + x + 3]];
  }

  lemma OneWord(disk: seq<Byte>, x: nat, v: nat, w: nat)
    requires IsWord(disk, x, w)
    ensures IsWord(disk, x, v) <==> v == w
  {
  }

  /** What a mount reads of an entry is what its bytes say. */
  lemma LaidIs(disk: seq<Byte>, i: nat, e: Dirent)
    requires i < MAX_FILES && |disk| >= 512 * DATA_START
    ensures Laid(disk, i, e) <==> e == Decode(Stored(disk, i))
  {
    var lo := 512 + 64 * i;
    WordBytes(disk, lo, lo + 64, 52);
    WordBytes(disk, lo, lo + 64, 56);
    WordBytes(disk, lo, lo + 64, 60);
    SliceSlice(disk, lo, lo + 64, 0, 52);
    OneWord(disk, lo + 52, e.start, Of32(disk[lo..lo + 64][52..56]));
    OneWord(disk, lo + 56, e.size, Of32(disk[lo..lo + 64][56..60]));
    OneWord(disk, lo + 60, e.flags, Of32(disk[lo..lo + 64][60..64]));
    hide Of32, IsWord;
    assert Stored(disk, i)[..52] == Stored(disk, i)[0..52];
  }

  /** An entry in memory and on disk are the same exactly when the bytes say so. */
  lemma SyncedLaid(fs: Fs, i: nat)
    requires i < MAX_FILES && |fs.dir| == MAX_FILES && |fs.disk| >= 512 * DATA_START && Shaped(fs.dir[i])
    ensures SyncedAt(fs, i) <==> Laid(fs.disk, i, fs.dir[i])
  {
    LaidIs(fs.disk, i, fs.dir[i]);
    DecodeEncode(fs.dir[i]);
    EncodeDecode(Stored(fs.disk, i));
    hide Encode, Decode;
  }

  ghost predicate SyncedAt(fs: Fs, i: nat) {
    i < MAX_FILES && i < |fs.dir| && |fs.disk| >= 512 * DATA_START && Shaped(fs.dir[i]) &&
      Stored(fs.disk, i) == Encode(fs.dir[i])
  }

  /** The directory on disk is the directory in memory. */
  ghost predicate Synced(fs: Fs) {
    forall i :: 0 <= i < MAX_FILES ==> SyncedAt(fs, i)
  }

  /** Only entry `i` may differ from the disk. */
  ghost predicate SyncedBut(fs: Fs, i: nat) {
    forall j :: 0 <= j < MAX_FILES && j != i ==> SyncedAt(fs, j)
  }

  /** The bytes of consecutive entries. */
  function EntryBytes(dir: seq<Dirent>): (b: seq<Byte>)
    requires AllShaped(dir)
    ensures |b| == 64 * |dir|
  {
    if dir == [] then [] else EntryBytes(dir[..|dir| - 1]) + Encode(dir[|dir| - 1])
  }

  lemma {:induction false} EntryBytesAt(dir: seq<Dirent>, i: nat)
    requires AllShaped(dir) && i < |dir|
    ensures EntryBytes(dir)[64 * i..64 * i + 64] == Encode(dir[i])
  {
    var n := |dir| - 1;
    hide Encode;
    var rest := EntryBytes(dir[..n]);
    assert EntryBytes(dir) == rest + Encode(dir[n]);
    if i < n {
      EntryBytesAt(dir[..n], i);
      assert EntryBytes(dir)[64 * i..64 * i + 64] == rest[64 * i..64 * i + 64];
    } else {
      assert EntryBytes(dir)[64 * i..64 * i + 64] == Encode(dir[n]);
    }
  }

  /** A sector of entries in place on the disk. */
  ghost predicate Flushed(fs: Fs, disk: seq<Byte>, s: nat) {
    && s < 6 && |fs.dir| == MAX_FILES && |disk| >= 512 * DATA_START
    && SameExcept(fs.disk, disk, 512 * (1 + s), 512 * (1 + s) + 512)
    && AllShaped(fs.dir[8 * s..8 * s + 8])
    && disk[512 * (1 + s)..512 * (1 + s) + 512] == EntryBytes(fs.dir[8 * s..8 * s + 8])
  }

  lemma SliceSlice(b: seq<Byte>, lo: nat, hi: nat, i: nat, j: nat)
    requires lo <= hi <= |b| && i <= j <= hi - lo
    ensures b[lo..hi][i..j] == b[lo + i..lo + j]
  {
    var s, t := b[lo..hi][i..j], b[lo + i..lo + j];
    assert |s| == |t| && forall k :: 0 <= k < |s| ==> s[k] == t[k];
  }

  lemma FlushedAt(fs: Fs, disk: seq<Byte>, s: nat, i: nat)
    requires Flushed(fs, disk, s) && i < MAX_FILES && Shaped(fs.dir[i]) && (i / 8 != s ==> SyncedAt(fs, i))
    ensures SyncedAt(fs.(disk := disk), i)
  {
    hide EntryBytes, Encode;
    if i / 8 == s {
      var part, k := fs.dir[8 * s..8 * s + 8], i - 8 * s;
      EntryBytesAt(part, k);
      assert part[k] == fs.dir[i];
      var sector := disk[512 * (1 + s)..512 * (1 + s) + 512];
      assert 512 * (1 + s) + 64 * k == 512 + 64 * i;
      SliceSlice(disk, 512 * (1 + s), 512 * (1 + s) + 512, 64 * k, 64 * k + 64);
    } else {
      SameSlice(fs.disk, disk, 512 * (1 + s), 512 * (1 + s) + 512, 512 + 64 * i, 512 + 64 * i + 64);
    }
  }

  /** Writing the sector that holds entry `i` is enough when only that entry changed. */
  lemma FlushSyncs(fs: Fs, i: nat, disk: seq<Byte>)
    requires Inv(fs) && i < MAX_FILES && Flushed(fs, disk, i / 8) && SyncedBut(fs, i)
    ensures Synced(fs.(disk := disk))
  {
    forall j | 0 <= j < MAX_FILES ensures SyncedAt(fs.(disk := disk), j) { FlushedAt(fs, disk, i / 8, j); }
  }

  /** Data sectors are not directory sectors. */
  lemma DataSynced(fs: Fs, disk: seq<Byte>, lo: int, hi: int, i: nat)
    requires SyncedAt(fs, i) && SameExcept(fs.disk, disk, lo, hi) && 512 * DATA_START <= lo
    ensures SyncedAt(fs.(disk := disk), i)
  {
    SameSlice(fs.disk, disk, lo, hi, 512 + 64 * i, 512 + 64 * i + 64);
  }

  // ------------------------------------------------------------------
  // A full directory

  ghost function NamesTo(dir: seq<Dirent>, n: nat): set<Name>
    requires n <= |dir|
  {
    set i | 0 <= i < n && IsUsed(dir[i]) :: CStr(dir[i].name)
  }

  ghost function Count(dir: seq<Dirent>, n: nat): (c: nat)
    requires n <= |dir|
    ensures c <= n && (c == n <==> forall i :: 0 <= i < n ==> IsUsed(dir[i]))
  {
    if n == 0 then 0 else Count(dir, n - 1) + if IsUsed(dir[n - 1]) then 1 else 0
  }

  lemma LastIsNew(fs: Fs, n: nat)
    requires Inv(fs) && 0 < n <= MAX_FILES && IsUsed(fs.dir[n - 1])
    ensures CStr(fs.dir[n - 1].name) !in NamesTo(fs.dir, n - 1)
  {
    forall i | 0 <= i < n - 1 ensures Different(fs.dir[i], fs.dir[n - 1]) { InvPair(fs, i, n - 1); }
  }

  lemma NamesStep(dir: seq<Dirent>, n: nat)
    requires 0 < n <= |dir|
    ensures NamesTo(dir, n) ==
            if IsUsed(dir[n - 1]) then NamesTo(dir, n - 1) + {CStr(dir[n - 1].name)} else NamesTo(dir, n - 1)
  {
    hide CStr, IsUsed;
  }

  lemma NamesNext(fs: Fs, n: nat)
    requires Inv(fs) && 0 < n <= MAX_FILES
    ensures |NamesTo(fs.dir, n)| == |NamesTo(fs.dir, n - 1)| + if IsUsed(fs.dir[n - 1]) then 1 else 0
  {
    assert |fs.dir| == MAX_FILES;
    hide Inv, CStr, IsUsed, NamesTo;
    NamesStep(fs.dir, n);
    if IsUsed(fs.dir[n - 1]) {
      LastIsNew(fs, n);
      CardAdd(NamesTo(fs.dir, n - 1), CStr(fs.dir[n - 1].name));
    }
  }

  lemma {:induction false} NamesCount(fs: Fs, n: nat)
    requires Inv(fs) && n <= MAX_FILES
    ensures |NamesTo(fs.dir, n)| == Count(fs.dir, n)
  {
    hide Inv, NamesTo;
    assert n == 0 ==> NamesTo(fs.dir, n) == {} by { NamesNone(fs.dir); }
    if n > 0 {
      NamesCount(fs, n - 1);
      NamesNext(fs, n);
    }
  }

  lemma NamesNone(dir: seq<Dirent>)
    ensures NamesTo(dir, 0) == {}
  {
  }

  /** No slot is unused exactly when 48 paths exist. */
  lemma FullView(fs: Fs)
    requires Inv(fs)
    ensures |View(fs)| == MAX_FILES <==> forall i :: 0 <= i < MAX_FILES ==> IsUsed(fs.dir[i])
  {
    NamesCount(fs, MAX_FILES);
    assert View(fs).Keys == Names(fs.dir) == NamesTo(fs.dir, MAX_FILES);
  }

  // ------------------------------------------------------------------
  // Operations

  /** How an operation ended: it was carried out, it was refused before anything
      changed, or a disk transfer failed, of data or of the directory sector. */
  datatype Outcome = Done | Refused | DataFailed | FlushFailed

  datatype Op = Write(name: Name, bytes: seq<Byte>) | Mkdir(name: Name) | Delete(name: Name) | Remount

  /** The first unused entry from `i` on, or -1. */
  ghost function FirstFree(dir: seq<Dirent>, i: nat): (k: int)
    requires i <= |dir|
    ensures k == -1 || i <= k < |dir|
    ensures k == -1 <==> forall j :: i <= j < |dir| ==> IsUsed(dir[j])
    ensures k != -1 ==> !IsUsed(dir[k]) && forall j :: i <= j < k ==> IsUsed(dir[j])
    decreases |dir| - i
  {
    if i == |dir| then -1 else if !IsUsed(dir[i]) then i else FirstFree(dir, i + 1)
  }

  /** The searches of an operation end it before anything changes. */
  ghost predicate Stops(fs: Fs, op: Op)
    requires !op.Remount?
  {
    var k := Find(fs.dir, op.name, 0);
    if op.Delete? then k == -1
    else if k != -1 then op.Mkdir? || IsDir(fs.dir[k])
    else FirstFree(fs.dir, 0) == -1
  }

  /** The slot of the old file, or else the first free one. */
  ghost function SlotOf(fs: Fs, name: Name): int {
    var k := Find(fs.dir, name, 0); if k != -1 then k else FirstFree(fs.dir, 0)
  }

  /** The old entry of a path is cleared in memory only. */
  ghost function Drop(fs: Fs, name: Name): Fs {
    var k := Find(fs.dir, name, 0); if k == -1 then fs else Clear(fs, k)
  }

  /** The sector where alfs_write puts new data. */
  ghost function Mark(fs: Fs, name: Name): (h: nat)
    ensures h >= DATA_START
  {
    HighWater(Drop(fs, name).dir, |Drop(fs, name).dir|)
  }

  ghost function NewEntry(fs: Fs, op: Op): Dirent
    requires op.Write? || op.Mkdir?
  {
    if op.Write? then Dirent(PadName(op.name), Mark(fs, op.name), |op.bytes|, 1) else Dirent(PadName(op.name), 0, 0, 3)
  }

  /** The new entry in its slot, over a disk. */
  ghost function Entered(fs: Fs, op: Op, disk: seq<Byte>): Fs
    requires (op.Write? || op.Mkdir?) && !Stops(fs, op)
  {
    Fs(Drop(fs, op.name).dir[SlotOf(fs, op.name) := NewEntry(fs, op)], disk)
  }

  /** Only the sectors for the new data may have changed. */
  ghost predicate DataTouched(fs: Fs, op: Op, disk: seq<Byte>)
    requires op.Write?
  {
    SameExcept(fs.disk, disk, 512 * Mark(fs, op.name), 512 * (Mark(fs, op.name) + Need(|op.bytes|)))
  }

  /** The data is in those sectors. */
  ghost predicate DataIn(fs: Fs, op: Op, disk: seq<Byte>)
    requires op.Write?
  {
    && DataTouched(fs, op, disk) && 512 * (Mark(fs, op.name) + Need(|op.bytes|)) <= |disk|
    && Content(disk, Mark(fs, op.name), |op.bytes|) == op.bytes
  }

  /** The directory sector of entry `i` has been written, or the attempt failed. */
  ghost predicate FlushedOrNot(f: Fs, i: int, o: Outcome, b: Fs) {
    && i >= 0 && b.dir == f.dir && (o == Done || o == FlushFailed)
    && SameExcept(f.disk, b.disk, 512 * (1 + i / 8), 512 * (1 + i / 8) + 512)
    && (o == Done ==> Flushed(f, b.disk, i / 8))
  }

  /** The directory a mount reads. */
  ghost predicate OnDisk(disk: seq<Byte>, dir: seq<Dirent>) {
    |dir| == MAX_FILES && |disk| >= 512 * DATA_START && forall i :: 0 <= i < MAX_FILES ==>
      dir[i] == Decode(Stored(disk, i))
  }

  /** What the code does to the directory in memory and to the disk. */
  ghost predicate Step(a: Fs, op: Op, o: Outcome, b: Fs) {
    if op.Remount? then b.disk == a.disk && OnDisk(a.disk, b.dir) && o == Done
    else if Stops(a, op) then o == Refused && b == a
    else match op
      case Delete(name) => FlushedOrNot(Drop(a, name), Find(a.dir, name, 0), o, b)
      case Mkdir(name) => FlushedOrNot(Entered(a, op, a.disk), SlotOf(a, name), o, b)
      case Write(name, _) =>
        || (o == DataFailed && b.dir == Drop(a, name).dir && DataTouched(a, op, b.disk))
        || exists disk :: DataIn(a, op, disk) && FlushedOrNot(Entered(a, op, disk), SlotOf(a, name), o, b)
  }

  // ------------------------------------------------------------------
  // What the operations mean for the map

  /** The path under which a name is stored. */
  ghost function Key(name: Name): Name { CStr(PadName(name)) }

  /** The map the operation leaves. */
  ghost function After(m: map<Name, Node>, op: Op, o: Outcome): map<Name, Node> {
    if op.Remount? || o == Refused then m
    else if op.Delete? || o == DataFailed then m - {op.name}
    else m[Key(op.name) := if op.Write? then File(op.bytes) else Dir]
  }

  ghost predicate MustRefuse(m: map<Name, Node>, op: Op) {
    match op
    case Write(name, _) => if name in m then m[name] == Dir else |m| == MAX_FILES
    case Mkdir(name) => name in m || |m| == MAX_FILES
    case Delete(name) => name !in m
    case Remount => false
  }

  /** The name is stored whole, or what is stored of it is no path yet. */
  ghost predicate Clean(m: map<Name, Node>, op: Op) {
    op.Write? || op.Mkdir? ==> |op.name| < NAME_MAX || Key(op.name) !in m
  }

  ghost predicate OpOk(op: Op) { op.Remount? || NoNul(op.name) }

  /** The searches refuse exactly what the map says must be refused. */
  lemma Refusal(fs: Fs, op: Op)
    requires Inv(fs) && !op.Remount?
    ensures Stops(fs, op) <==> MustRefuse(View(fs), op)
  {
    ViewSlot(fs, op.name);
    FullView(fs);
    hide View, Inv, Find;
  }

  lemma DropView(fs: Fs, name: Name)
    requires Inv(fs)
    ensures Inv(Drop(fs, name)) && View(Drop(fs, name)) == View(fs) - {name}
  {
    ViewSlot(fs, name);
    var k := Find(fs.dir, name, 0);
    if k != -1 { ClearView(fs, k); }
  }

  /** What clearing the old entry gives. */
  lemma DropIs(fs: Fs, name: Name)
    requires Inv(fs)
    ensures var k := Find(fs.dir, name, 0);
            Inv(Drop(fs, name)) && Drop(fs, name).disk == fs.disk && |Drop(fs, name).dir| == |fs.dir| == MAX_FILES
            && Drop(fs, name).dir == if k == -1 then fs.dir else fs.dir[k := fs.dir[k].(flags := 0)]
  {
    DropView(fs, name);
  }

  lemma MarkIs(fs: Fs, name: Name)
    requires |Drop(fs, name).dir| == MAX_FILES
    ensures Mark(fs, name) == HighWater(Drop(fs, name).dir, MAX_FILES)
  {
  }

  /** No stored path is longer than 51 bytes. */
  lemma LongAbsent(fs: Fs, name: Name)
    requires Inv(fs) && |name| >= NAME_MAX
    ensures name !in View(fs)
  {
    forall p | p in View(fs) ensures |p| < NAME_MAX {
      ViewSlot(fs, p);
      assert Named(fs.dir[Find(fs.dir, p, 0)]);
    }
  }

  /** A clean name's key is new once the old entry is gone. */
  lemma KeyIsNew(fs: Fs, op: Op)
    requires Inv(fs) && (op.Write? || op.Mkdir?) && NoNul(op.name) && Clean(View(fs), op)
    ensures Key(op.name) !in View(fs) - {op.name} && |Key(op.name)| < NAME_MAX
  {
    NameKept(op.name);
    hide View, Inv, CStr, PadName;
  }

  lemma KeyUpdate(fs: Fs, op: Op, node: Node)
    requires Inv(fs) && (op.Write? || op.Mkdir?) && NoNul(op.name)
    ensures (View(fs) - {op.name})[Key(op.name) := node] == View(fs)[Key(op.name) := node]
  {
    hide View, Inv;
    NameKept(op.name);
    if |op.name| < NAME_MAX {
      RemoveUpdate(View(fs), op.name, node);
    } else {
      LongAbsent(fs, op.name);
      assert View(fs) - {op.name} == View(fs);
    }
  }

  lemma RemoveUpdate(m: map<Name, Node>, name: Name, node: Node)
    ensures (m - {name})[name := node] == m[name := node]
  {
  }

  /** The slot is free once the old entry is cleared, and only it may be out of step. */
  lemma SlotUnused(fs: Fs, op: Op)
    requires Inv(fs) && (op.Write? || op.Mkdir?) && !Stops(fs, op)
    ensures var d, i := Drop(fs, op.name), SlotOf(fs, op.name);
            |d.dir| == MAX_FILES && 0 <= i < MAX_FILES && !IsUsed(d.dir[i]) && d.disk == fs.disk &&
            (Synced(fs) ==> SyncedBut(d, i))
  {
    var d, i := Drop(fs, op.name), SlotOf(fs, op.name);
    forall j | 0 <= j < MAX_FILES && j != i && Synced(fs) ensures SyncedAt(d, j) {
      assert d.dir[j] == fs.dir[j] && SyncedAt(fs, j);
    }
  }

  /** Files other than the old one end at or below the mark. */
  lemma DropMisses(fs: Fs, name: Name, i: nat)
    requires Inv(fs) && i < MAX_FILES && i != Find(fs.dir, name, 0) && IsFile(fs.dir[i])
    ensures EndOf(fs.dir[i]) <= Mark(fs, name)
  {
    assert Drop(fs, name).dir[i] == fs.dir[i];
  }

  /** Data at the mark leaves the view of the dropped directory alone. */
  lemma DropOver(fs: Fs, name: Name, disk: seq<Byte>, hi: int)
    requires Inv(fs) && SameExcept(fs.disk, disk, 512 * Mark(fs, name), hi)
    ensures var d := Drop(fs, name).(disk := disk); Inv(d) && View(d) == View(fs) - {name}
  {
    var d := Drop(fs, name);
    DropIs(fs, name);
    hide View, Inv, Drop, HighWater, Misses, SameExcept;
    DropView(fs, name);
    HighWaterMisses(d.dir, hi);
    MissView(d, disk, 512 * Mark(fs, name), hi);
  }

  /** The entry of an operation fits the directory and the disk. */
  ghost predicate EntryFits(fs: Fs, op: Op)
    requires op.Write? || op.Mkdir?
  {
    Shaped(NewEntry(fs, op)) && IsUsed(NewEntry(fs, op)) && Placed(NewEntry(fs, op), |fs.disk| / 512)
  }

  lemma EntryFitsDisk(fs: Fs, op: Op, disk: seq<Byte>)
    requires DiskShape(fs.disk) && |disk| == |fs.disk| && (op.Mkdir? || (op.Write? && DataIn(fs, op, disk)))
    ensures EntryFits(fs, op) && NodeOf(disk, NewEntry(fs, op)) == if op.Write? then File(op.bytes) else Dir
  {
    hide Mark, PadName, Content, SameExcept;
  }

  lemma EntryEnters(fs: Fs, op: Op, disk: seq<Byte>)
    requires Inv(fs) && (op.Write? || op.Mkdir?) && NoNul(op.name) && Clean(View(fs), op) && !Stops(fs, op)
    requires EntryFits(fs, op) && |disk| == |fs.disk|
    requires View(Drop(fs, op.name).(disk := disk)) == View(fs) - {op.name}
    ensures 0 <= SlotOf(fs, op.name)
    ensures Enterable(Drop(fs, op.name).(disk := disk), SlotOf(fs, op.name), NewEntry(fs, op))
    ensures CStr(NewEntry(fs, op).name) == Key(op.name)
  {
    SlotUnused(fs, op);
    KeyIsNew(fs, op);
    HighWaterApart(Drop(fs, op.name).dir, NewEntry(fs, op));
    hide View, Inv, Drop, HighWater, SlotOf, CStr, PadName, Shaped, Placed, Apart, Stops;
  }

  lemma HighWaterApart(dir: seq<Dirent>, e: Dirent)
    requires IsFile(e) ==> e.start == HighWater(dir, |dir|)
    ensures forall j :: 0 <= j < |dir| ==> Apart(dir[j], e)
  {
  }

  /** The new entry over the disk as the data left it. */
  lemma EntersOver(fs: Fs, op: Op, disk: seq<Byte>, hi: int)
    requires Inv(fs) && (op.Write? || op.Mkdir?) && NoNul(op.name) && Clean(View(fs), op) && !Stops(fs, op)
    requires EntryFits(fs, op) && SameExcept(fs.disk, disk, 512 * Mark(fs, op.name), hi) && |disk| == |fs.disk|
    ensures Inv(Entered(fs, op, disk))
    ensures View(Entered(fs, op, disk)) == View(fs)[Key(op.name) := NodeOf(disk, NewEntry(fs, op))]
  {
    hide View, Inv, Drop, Mark, SlotOf, NodeOf, SameExcept, NoNul, EntryFits, Enterable, Clean, Stops, Key, NewEntry;
    SlotUnused(fs, op);
    DropOver(fs, op.name, disk, hi);
    EntryEnters(fs, op, disk);
    EnterView(Drop(fs, op.name).(disk := disk), SlotOf(fs, op.name), NewEntry(fs, op));
    KeyUpdate(fs, op, NodeOf(disk, NewEntry(fs, op)));
  }

  /** Entries other than the new one that were in step with the disk still are. */
  lemma OverSynced(fs: Fs, op: Op, disk: seq<Byte>, hi: int)
    requires Inv(fs) && Synced(fs) && (op.Write? || op.Mkdir?) && !Stops(fs, op)
    requires SameExcept(fs.disk, disk, 512 * Mark(fs, op.name), hi)
    ensures SlotOf(fs, op.name) >= 0 && SyncedBut(Entered(fs, op, disk), SlotOf(fs, op.name))
  {
    SlotUnused(fs, op);
    var d, i := Drop(fs, op.name), SlotOf(fs, op.name);
    var now := Entered(fs, op, disk);
    forall j | 0 <= j < MAX_FILES && j != i ensures SyncedAt(now, j) {
      hide Drop, Inv, Encode, Stops, Mark, SlotOf, NewEntry;
      DataSynced(d, disk, 512 * Mark(fs, op.name), hi, j);
      assert now.dir[j] == d.dir[j];
    }
  }

  /** The directory sector is written, or the attempt fails. */
  lemma FlushRefines(f: Fs, i: int, o: Outcome, b: Fs)
    requires Inv(f) && i < MAX_FILES && FlushedOrNot(f, i, o, b)
    ensures Inv(b) && View(b) == View(f)
    ensures o == Done && SyncedBut(f, i) ==> Synced(b)
  {
    assert b == f.(disk := b.disk);
    var lo := 512 * (1 + i / 8);
    FlushMisses(f, i);
    if o == Done && SyncedBut(f, i) { FlushSyncs(f, i, b.disk); }
    hide View, Inv, Misses, SyncedBut, Synced, Flushed;
    MissView(f, b.disk, lo, lo + 512);
  }

  lemma FlushMisses(f: Fs, i: nat)
    requires Inv(f) && i < MAX_FILES
    ensures Misses(f.dir, 512 * (1 + i / 8), 512 * (1 + i / 8) + 512)
  {
    forall j | 0 <= j < |f.dir| && IsFile(f.dir[j]) ensures 512 * (1 + i / 8) + 512 <= 512 * f.dir[j].start {
      assert Placed(f.dir[j], |f.disk| / 512);
    }
  }

  /** The new entry with its sector written, or not. */
  lemma CommitRefines(fs: Fs, op: Op, disk: seq<Byte>, hi: int, o: Outcome, b: Fs)
    requires Inv(fs) && (op.Write? || op.Mkdir?) && NoNul(op.name) && Clean(View(fs), op) && !Stops(fs, op)
    requires EntryFits(fs, op) && SameExcept(fs.disk, disk, 512 * Mark(fs, op.name), hi) && |disk| == |fs.disk|
    requires NodeOf(disk, NewEntry(fs, op)) == if op.Write? then File(op.bytes) else Dir
    requires FlushedOrNot(Entered(fs, op, disk), SlotOf(fs, op.name), o, b) && o in {Done, FlushFailed}
    ensures Inv(b) && View(b) == After(View(fs), op, o) && (o == Done && Synced(fs) ==> Synced(b))
  {
    hide View, Inv, Drop, Mark, SlotOf, NodeOf, SameExcept, NoNul, EntryFits, Clean, Stops, Key, NewEntry, Entered;
    hide FlushedOrNot, Synced, SyncedBut;
    EntersOver(fs, op, disk, hi);
    SlotUnused(fs, op);
    FlushRefines(Entered(fs, op, disk), SlotOf(fs, op.name), o, b);
    if o == Done && Synced(fs) { OverSynced(fs, op, disk, hi); }
  }

  lemma WriteRefines(a: Fs, op: Op, o: Outcome, b: Fs)
    requires Inv(a) && op.Write? && NoNul(op.name) && Clean(View(a), op) && Step(a, op, o, b) && !Stops(a, op)
    ensures Inv(b) && View(b) == After(View(a), op, o) && o != Refused && (o == Done && Synced(a) ==> Synced(b))
  {
    var hi := 512 * (Mark(a, op.name) + Need(|op.bytes|));
    assert DiskShape(a.disk);
    hide View, Inv, Drop, Mark, SlotOf, NodeOf, NoNul, EntryFits, Clean, Stops, Key, NewEntry, Entered, Synced, Content;
    if o == DataFailed && b.dir == Drop(a, op.name).dir && DataTouched(a, op, b.disk) {
      DropOver(a, op.name, b.disk, hi);
      assert b == Drop(a, op.name).(disk := b.disk);
    } else {
      var disk :| DataIn(a, op, disk) && FlushedOrNot(Entered(a, op, disk), SlotOf(a, op.name), o, b);
      EntryFitsDisk(a, op, disk);
      hide SameExcept;
      CommitRefines(a, op, disk, hi, o, b);
    }
  }

  lemma MkdirRefines(a: Fs, op: Op, o: Outcome, b: Fs)
    requires Inv(a) && op.Mkdir? && NoNul(op.name) && Clean(View(a), op) && Step(a, op, o, b) && !Stops(a, op)
    ensures Inv(b) && View(b) == After(View(a), op, o) && o in {Done, FlushFailed} &&
            (o == Done && Synced(a) ==> Synced(b))
  {
    assert DiskShape(a.disk);
    hide View, Inv, Drop, Mark, SlotOf, NodeOf, NoNul, EntryFits, Clean, Stops, Key, NewEntry, Entered, Synced;
    EntryFitsDisk(a, op, a.disk);
    CommitRefines(a, op, a.disk, 0, o, b);
  }

  lemma DeleteRefines(a: Fs, op: Op, o: Outcome, b: Fs)
    requires Inv(a) && |a.dir| == MAX_FILES && op.Delete? && Step(a, op, o, b) && !Stops(a, op)
    ensures Inv(b) && View(b) == After(View(a), op, o) && o in {Done, FlushFailed} &&
            (o == Done && Synced(a) ==> Synced(b))
  {
    hide View, Inv, Drop, Synced, SyncedBut, FlushedOrNot, Find, Step, Stops;
    var k := Find(a.dir, op.name, 0);
    DeleteIs(a, op, o, b);
    if Synced(a) { DropSynced(a, op.name); }
    DropView(a, op.name);
    FlushRefines(Drop(a, op.name), k, o, b);
  }

  lemma DeleteIs(a: Fs, op: Op, o: Outcome, b: Fs)
    requires |a.dir| == MAX_FILES && op.Delete? && Step(a, op, o, b) && !Stops(a, op)
    ensures var k := Find(a.dir, op.name, 0);
            0 <= k < MAX_FILES && FlushedOrNot(Drop(a, op.name), k, o, b) && o in {Done, FlushFailed}
  {
  }

  lemma DropSynced(fs: Fs, name: Name)
    requires Inv(fs) && Synced(fs) && Find(fs.dir, name, 0) != -1
    ensures SyncedBut(Drop(fs, name), Find(fs.dir, name, 0))
  {
    var d := Drop(fs, name);
    forall j | 0 <= j < MAX_FILES && j != Find(fs.dir, name, 0) ensures SyncedAt(d, j) {
      assert d.dir[j] == fs.dir[j] && SyncedAt(fs, j);
    }
  }

  /** Mounting a disk whose directory is the one in memory changes nothing. */
  lemma RemountSame(a: Fs, b: Fs)
    requires Inv(a) && Synced(a) && b.disk == a.disk && OnDisk(a.disk, b.dir)
    ensures b == a
  {
    forall i | 0 <= i < MAX_FILES ensures b.dir[i] == a.dir[i] {
      assert SyncedAt(a, i);
      DecodeEncode(a.dir[i]);
    }
  }

  /** One step of the code keeps the invariant and does to the map what the
      operation says; without a failed transfer disk and memory stay in step. */
  lemma StepRefines(a: Fs, op: Op, o: Outcome, b: Fs)
    requires Inv(a) && OpOk(op) && Step(a, op, o, b) && Clean(View(a), op) && (op.Remount? ==> Synced(a))
    ensures Inv(b) && View(b) == After(View(a), op, o) && (o == Refused <==> MustRefuse(View(a), op))
    ensures Synced(a) && o in {Done, Refused} ==> Synced(b)
  {
    hide View, Inv, Synced, After, Clean, MustRefuse;
    if op.Remount? {
      RemountSame(a, b);
      AfterNothing(View(a), op, o);
    } else {
      Refusal(a, op);
      if Stops(a, op) {
        AfterNothing(View(a), op, o);
      } else if op.Write? {
        WriteRefines(a, op, o, b);
      } else if op.Mkdir? {
        MkdirRefines(a, op, o, b);
      } else {
        InvLength(a);
        DeleteRefines(a, op, o, b);
      }
    }
  }

  lemma {:induction false} HighWaterSame(a: seq<Dirent>, b: seq<Dirent>, n: nat)
    requires n <= |a| == |b| && forall j :: 0 <= j < n ==> a[j] == b[j] || (!IsFile(a[j]) && !IsFile(b[j]))
    ensures HighWater(a, n) == HighWater(b, n)
  {
    if n > 0 { HighWaterSame(a, b, n - 1); }
  }

  /** A file is rewritten in place: the next write of it starts at the same sector. */
  lemma MarkKept(a: Fs, op: Op, b: Fs)
    requires Inv(a) && op.Write? && GoodName(op.name) && Step(a, op, Done, b)
    ensures Mark(b, op.name) == Mark(a, op.name) && |b.disk| == |a.disk|
  {
    hide View, Inv, Synced, SlotOf, Drop, Mark, Stops, NewEntry, PadName, CStr;
    NameKept(op.name);
    StepRefines(a, op, Done, b);
    assert !Stops(a, op);
    SlotUnused(a, op);
    var i := SlotOf(a, op.name);
    assert b.dir == Drop(a, op.name).dir[i := NewEntry(a, op)];
    NewNamed(a, op);
    ViewAt(b, i);
    DropIs(b, op.name);
    MarkIs(a, op.name);
    MarkIs(b, op.name);
    HighWaterSame(Drop(b, op.name).dir, Drop(a, op.name).dir, MAX_FILES);
  }

  lemma NewNamed(a: Fs, op: Op)
    requires op.Write?
    ensures NewEntry(a, op).name == PadName(op.name) && IsUsed(NewEntry(a, op))
  {
  }

  /** Names in use end within their 52 bytes after any write, also of a cut name. */
  lemma StepTerminated(a: Fs, op: Op, o: Outcome, b: Fs)
    requires Inv(a) && op.Write? && NoNul(op.name) && Step(a, op, o, b)
    ensures Terminated(b.dir)
  {
    InvTerminated(a);
    DropIs(a, op.name);
    InvTerminated(Drop(a, op.name));
    NameKept(op.name);
    hide Inv, View, Drop, Mark, Find, CStr, DataTouched, DataIn, SameExcept, Flushed, Need;
    if !Stops(a, op) { SlotUnused(a, op); }
  }

  lemma AfterNothing(m: map<Name, Node>, op: Op, o: Outcome)
    requires op.Remount? || o == Refused
    ensures After(m, op, o) == m && (op.Remount? ==> !MustRefuse(m, op))
  {
  }

  lemma InvLength(fs: Fs)
    requires Inv(fs)
    ensures |fs.dir| == MAX_FILES
  {
  }

  /** The invariant survives an operation exactly when no stored path is doubled:
      when the name is stored whole or what is stored of it is new. */
  lemma StepKeepsInv(a: Fs, op: Op, o: Outcome, b: Fs)
    requires Inv(a) && OpOk(op) && !op.Remount? && Step(a, op, o, b)
    ensures Inv(b) <==> Clean(View(a), op) || o in {Refused, DataFailed}
  {
    hide Inv, View, Clean, Stops, Step, After, MustRefuse, Synced, Drop, Mark;
    StepIs(a, op, o, b);
    if Clean(View(a), op) {
      StepRefines(a, op, o, b);
    } else if o == DataFailed {
      DropOver(a, op.name, b.disk, 512 * (Mark(a, op.name) + Need(|op.bytes|)));
      DropIs(a, op.name);
      assert b == Drop(a, op.name).(disk := b.disk);
    } else if o != Refused {
      CleanUnless(View(a), op);
      DoubledPath(a, op, b);
    }
  }

  lemma CleanUnless(m: map<Name, Node>, op: Op)
    requires !Clean(m, op)
    ensures op.Write? || op.Mkdir?
  {
  }

  /** What a step does to the directory in memory. */
  lemma StepIs(a: Fs, op: Op, o: Outcome, b: Fs)
    requires !op.Remount? && Step(a, op, o, b)
    ensures o == Refused <==> Stops(a, op)
    ensures o == Refused ==> b == a
    ensures o == DataFailed ==> op.Write? && b.dir == Drop(a, op.name).dir && DataTouched(a, op, b.disk)
    ensures o in {Done, FlushFailed} && !op.Delete? ==> b.dir == Entered(a, op, b.disk).dir
  {
    hide Stops, Drop, DataTouched, Flushed, SameExcept, NewEntry, SlotOf;
  }

  /** The map is what the bytes of the entries say: an entry whose flags are odd is a
      path, of a directory if bit 1 is set and else of the bytes from its sector on. */
  lemma TreeOnDisk(fs: Fs, path: Name, i: nat)
    requires Inv(fs) && i < MAX_FILES && Laid(fs.disk, i, fs.dir[i]) && fs.dir[i].flags % 2 == 1 && |fs.disk| >= 3584
    requires path == CStr(fs.disk[512 + 64 * i..512 + 64 * i + 52])
    ensures var e := fs.dir[i];
            path in View(fs) &&
            if e.flags / 2 % 2 == 1 then View(fs)[path] == Dir
            else 512 * e.start + e.size <= |fs.disk| &&
                 View(fs)[path] == File(fs.disk[512 * e.start..512 * e.start + e.size])
  {
    hide Inv, View, Laid, CStr, Find;
    InvLength(fs);
    LaidName(fs.disk, i, fs.dir[i]);
    if IsFile(fs.dir[i]) { FileInside(fs, i); }
    ViewAt(fs, i);
  }

  lemma FileInside(fs: Fs, i: nat)
    requires Inv(fs) && i < MAX_FILES && IsFile(fs.dir[i])
    ensures 512 * fs.dir[i].start + fs.dir[i].size <= |fs.disk|
  {
    assert Placed(fs.dir[i], |fs.disk| / 512);
  }

  lemma LaidName(disk: seq<Byte>, i: nat, e: Dirent)
    requires Laid(disk, i, e)
    ensures |disk| >= 3584 && e.name == disk[512 + 64 * i..512 + 64 * i + 52]
  {
  }

  /** And every path is that of such an entry. */
  lemma PathOnDisk(fs: Fs, path: Name) returns (i: nat)
    requires Inv(fs) && path in View(fs) && forall j :: 0 <= j < MAX_FILES ==> Laid(fs.disk, j, fs.dir[j])
    ensures i < MAX_FILES && fs.dir[i].flags % 2 == 1 && |fs.disk| >= 3584
    ensures path == CStr(fs.disk[512 + 64 * i..512 + 64 * i + 52])
  {
    InvLength(fs);
    hide Inv, View, Laid, CStr;
    ViewSlot(fs, path);
    i := Find(fs.dir, path, 0);
    LaidName(fs.disk, i, fs.dir[i]);
  }

  /** The first sector after the data area's start and all files but entry k. */
  ghost predicate FirstAfter(dir: seq<Dirent>, k: nat, start: nat) {
    && 7 <= start
    && (forall j :: 0 <= j < |dir| && j != k && IsFile(dir[j]) ==> dir[j].start + (dir[j].size + 511) / 512 <= start)
    && (start == 7 || exists j :: 0 <= j < |dir| && j != k && IsFile(dir[j]) &&
                                  start == dir[j].start + (dir[j].size + 511) / 512)
  }

  lemma {:induction false} HighWaterIs(dir: seq<Dirent>, n: nat)
    requires n <= |dir|
    ensures HighWater(dir, n) == 7 || exists j ::
              0 <= j < n && IsFile(dir[j]) && HighWater(dir, n) == dir[j].start + (dir[j].size + 511) / 512
  {
    if n > 0 { HighWaterIs(dir, n - 1); }
  }

  lemma MarkFirst(a: Fs, op: Op, k: nat, dir: seq<Dirent>)
    requires op.Write? && |Drop(a, op.name).dir| == |dir| && k < |dir| && !IsUsed(Drop(a, op.name).dir[k])
    requires forall j :: 0 <= j < |dir| && j != k ==> dir[j] == Drop(a, op.name).dir[j]
    ensures FirstAfter(dir, k, Mark(a, op.name))
  {
    var d := Drop(a, op.name).dir;
    HighWaterIs(d, |d|);
    hide HighWater, Drop;
  }

  /** What an operation leaves in the bytes of its entry when it succeeds: path, first
      sector, length and 1 for a file whose bytes are in those sectors, behind all other
      files; path and 3 for a directory; and 0 in the flags of what was deleted.  A new
      path takes the first unused entry. */
  lemma DoneOnDisk(a: Fs, op: Op, b: Fs) returns (k: nat)
    requires Inv(a) && !op.Remount? && Step(a, op, Done, b)
    ensures k < MAX_FILES && |b.dir| == |a.dir| == MAX_FILES && Laid(b.disk, k, b.dir[k])
    ensures forall j :: 0 <= j < MAX_FILES && j != k ==> b.dir[j] == a.dir[j]
    ensures var e := b.dir[k];
            match op
            case Delete(name) => Matches(a.dir[k], name) && e == a.dir[k].(flags := 0)
            case Mkdir(name) => !IsUsed(a.dir[k]) && e == Dirent(PadName(name), 0, 0, 3)
            case Write(name, bytes) =>
              && (IsUsed(a.dir[k]) ==> Matches(a.dir[k], name)) && e == Dirent(PadName(name), e.start, |bytes|, 1)
              && FirstAfter(b.dir, k, e.start) && 512 * e.start + |bytes| <= |b.disk|
              && b.disk[512 * e.start..512 * e.start + |bytes|] == bytes
            case Remount => true
    ensures !IsUsed(a.dir[k]) ==> forall j :: 0 <= j < k ==> IsUsed(a.dir[j])
  {
    hide FirstAfter, Inv, Find, FirstFree, Flushed, SameExcept, PadName, Laid, HighWater, CStr;
    DropIs(a, op.name);
    match op
    case Delete(name) =>
      k := Find(a.dir, name, 0);
      FlushedLaid(Drop(a, name), b.disk, k / 8, k);
    case Mkdir(name) =>
      k := SlotOf(a, name);
      FlushedLaid(Entered(a, op, a.disk), b.disk, k / 8, k);
    case Write(name, bytes) =>
      k := WrittenOnDisk(a, op, b);
    case Remount =>
  }

  lemma WrittenOnDisk(a: Fs, op: Op, b: Fs) returns (k: nat)
    requires Inv(a) && op.Write? && Step(a, op, Done, b)
    ensures k < MAX_FILES && |b.dir| == |a.dir| == MAX_FILES && Laid(b.disk, k, b.dir[k])
    ensures forall j :: 0 <= j < MAX_FILES && j != k ==> b.dir[j] == a.dir[j]
    ensures var e := b.dir[k];
            && e == Dirent(PadName(op.name), e.start, |op.bytes|, 1)
            && FirstAfter(b.dir, k, e.start) && 512 * e.start + |op.bytes| <= |b.disk|
            && b.disk[512 * e.start..512 * e.start + |op.bytes|] == op.bytes
    ensures if IsUsed(a.dir[k]) then Matches(a.dir[k], op.name) else forall j :: 0 <= j < k ==> IsUsed(a.dir[j])
  {
    hide FirstAfter, Inv, Find, FirstFree, Flushed, SameExcept, PadName, Laid, HighWater, CStr;
    DropIs(a, op.name);
    k := SlotOf(a, op.name);
    var disk :| DataIn(a, op, disk) && FlushedOrNot(Entered(a, op, disk), k, Done, b);
    FlushedLaid(Entered(a, op, disk), b.disk, k / 8, k);
    FlushKeepsData(disk, b.disk, k / 8, Mark(a, op.name), |op.bytes|);
    hide Mark;
    MarkFirst(a, op, k, b.dir);
  }

  lemma FlushKeepsData(a: seq<Byte>, b: seq<Byte>, s: nat, start: nat, size: nat)
    requires s < 6 && 7 <= start && 512 * (start + Need(size)) <= |a|
    requires SameExcept(a, b, 512 * (1 + s), 512 * (1 + s) + 512)
    ensures 512 * start + size <= |b| && b[512 * start..512 * start + size] == Content(a, start, size)
  {
  }

  /** The entries of a flushed sector, byte by byte. */
  lemma FlushedLaid(fs: Fs, disk: seq<Byte>, s: nat, k: nat)
    requires Flushed(fs, disk, s) && k / 8 == s
    ensures k < MAX_FILES && k < |fs.dir| && Laid(disk, k, fs.dir[k])
  {
    assert Shaped(fs.dir[8 * s..8 * s + 8][k - 8 * s]);
    FlushedAt(fs, disk, s, k);
    hide Flushed, Laid;
    SyncedLaid(fs.(disk := disk), k);
  }

  lemma DoubledPath(a: Fs, op: Op, b: Fs)
    requires Inv(a) && (op.Write? || op.Mkdir?) && NoNul(op.name) && !Clean(View(a), op) && !Stops(a, op)
    requires b.dir == Entered(a, op, b.disk).dir
    ensures !Inv(b)
  {
    SlotUnused(a, op);
    ViewSlot(a, Key(op.name));
    var j, i := Find(a.dir, Key(op.name), 0), SlotOf(a, op.name);
    NameKept(op.name);
    assert Drop(a, op.name).dir[j] == a.dir[j] by {
      LongAbsent(a, op.name);
      ViewSlot(a, op.name);
    }
    assert j != i && !Different(b.dir[j], b.dir[i]) && !Different(b.dir[i], b.dir[j]);
  }

  // ------------------------------------------------------------------
  // Runs

  ghost function AfterAll(m: map<Name, Node>, ops: seq<Op>, os: seq<Outcome>): map<Name, Node>
    requires |ops| == |os|
  {
    if ops == [] then m
    else var n := |ops| - 1; After(AfterAll(m, ops[..n], os[..n]), ops[n], os[n])
  }

  ghost predicate Run(ss: seq<Fs>, ops: seq<Op>, os: seq<Outcome>) {
    && |ss| == |ops| + 1 && |os| == |ops| && Inv(ss[0])
    && forall i :: 0 <= i < |ops| ==>
       OpOk(ops[i]) && Clean(View(ss[i]), ops[i]) && Step(ss[i], ops[i], os[i], ss[i + 1])
  }

  lemma RunPrefix(ss: seq<Fs>, ops: seq<Op>, os: seq<Outcome>)
    requires Run(ss, ops, os) && ops != []
    ensures var n := |ops| - 1; Run(ss[..n + 1], ops[..n], os[..n])
    ensures var n := |ops| - 1; OpOk(ops[n]) && Clean(View(ss[n]), ops[n]) && Step(ss[n], ops[n], os[n], ss[n + 1])
  {
    hide Inv, View, Step, Clean;
  }

  ghost predicate NoFailure(ss: seq<Fs>, os: seq<Outcome>) {
    ss != [] && Synced(ss[0]) && forall i :: 0 <= i < |os| ==> os[i] in {Done, Refused}
  }

  ghost predicate NoRemount(ops: seq<Op>) { forall i :: 0 <= i < |ops| ==> !ops[i].Remount? }

  /** Without a failed transfer, every run of writes, mkdirs, deletes and remounts
      refines the map, and the disk always holds the directory in memory. */
  lemma {:induction false} RunRefines(ss: seq<Fs>, ops: seq<Op>, os: seq<Outcome>)
    requires Run(ss, ops, os) && NoFailure(ss, os)
    ensures var s := ss[|ops|]; Inv(s) && Synced(s) && View(s) == AfterAll(View(ss[0]), ops, os)
    decreases |ops|
  {
    hide Step, Inv, Synced, View, After, Clean;
    if ops != [] {
      var n := |ops| - 1;
      RunPrefix(ss, ops, os);
      RunRefines(ss[..n + 1], ops[..n], os[..n]);
      StepRefines(ss[n], ops[n], os[n], ss[n + 1]);
    }
  }

  /** With transfers failing at will, every run on a mounted disk still refines the
      map; a failed data write costs its own path and no other. */
  lemma {:induction false} MountedRunRefines(ss: seq<Fs>, ops: seq<Op>, os: seq<Outcome>)
    requires Run(ss, ops, os) && NoRemount(ops)
    ensures var s := ss[|ops|]; Inv(s) && View(s) == AfterAll(View(ss[0]), ops, os)
    decreases |ops|
  {
    hide Step, Inv, Synced, View, After, Clean;
    if ops != [] {
      var n := |ops| - 1;
      RunPrefix(ss, ops, os);
      MountedRunRefines(ss[..n + 1], ops[..n], os[..n]);
      StepRefines(ss[n], ops[n], os[n], ss[n + 1]);
    }
  }

  /** The operation leaves path `p` alone. */
  ghost predicate Spares(op: Op, o: Outcome, p: Name) {
    op.Remount? || o == Refused || (op.name != p && Key(op.name) != p)
  }

  lemma {:induction false} LastAfter(m: map<Name, Node>, ops: seq<Op>, os: seq<Outcome>, k: nat)
    requires |ops| == |os| && k < |ops| && ops[k].Write? && os[k] == Done && NoNul(ops[k].name) &&
             |ops[k].name| < NAME_MAX
    requires forall i :: k < i < |ops| ==> Spares(ops[i], os[i], ops[k].name)
    ensures var v := AfterAll(m, ops, os); ops[k].name in v && v[ops[k].name] == File(ops[k].bytes)
    decreases |ops|
  {
    var n := |ops| - 1;
    NameKept(ops[k].name);
    hide CStr, PadName;
    if k < n {
      LastAfter(m, ops[..n], os[..n], k);
      assert Spares(ops[n], os[n], ops[k].name);
    }
  }

  /** In the last state of a run the directory and the disk hold, under a path, the
      bytes of the last successful write to it. */
  lemma LastWriteWins(ss: seq<Fs>, ops: seq<Op>, os: seq<Outcome>, k: nat)
    requires Run(ss, ops, os) && (NoFailure(ss, os) || NoRemount(ops))
    requires k < |ops| && ops[k].Write? && os[k] == Done && |ops[k].name| < NAME_MAX
    requires forall i :: k < i < |ops| ==> Spares(ops[i], os[i], ops[k].name)
    ensures var s, i := ss[|ops|], Find(ss[|ops|].dir, ops[k].name, 0);
            i != -1 && IsFile(s.dir[i]) && Content(s.disk, s.dir[i].start, s.dir[i].size) == ops[k].bytes
  {
    assert OpOk(ops[k]);
    hide Step, Inv, Synced, View, After, Clean, Spares, NoFailure, Content;
    if NoFailure(ss, os) { RunRefines(ss, ops, os); } else { MountedRunRefines(ss, ops, os); }
    LastAfter(View(ss[0]), ops, os, k);
    ViewSlot(ss[|ops|], ops[k].name);
  }

  // ------------------------------------------------------------------
  // A failed data write and the next mount

  /** Paths other than `name` mean the same on both disks under directory `dir`. */
  ghost predicate OthersKept(dir: seq<Dirent>, a: seq<Byte>, b: seq<Byte>, name: Name) {
    && View(Fs(dir, a)).Keys == View(Fs(dir, b)).Keys
    && forall p :: p in View(Fs(dir, a)) && p != name ==>
       p in View(Fs(dir, b)) && View(Fs(dir, b))[p] == View(Fs(dir, a))[p]
  }

  lemma OthersAre(fs: Fs, name: Name, disk: seq<Byte>, hi: int, p: Name)
    requires Inv(fs) && SameExcept(fs.disk, disk, 512 * Mark(fs, name), hi) && p in View(fs) && p != name
    ensures p in View(Fs(fs.dir, disk)) && View(Fs(fs.dir, disk))[p] == View(fs)[p]
  {
    ViewSlot(fs, p);
    var k := Find(fs.dir, p, 0);
    assert k != Find(fs.dir, name, 0);
    if IsFile(fs.dir[k]) { DropMisses(fs, name, k); }
    MissNode(fs.dir[k], fs.disk, disk, 512 * Mark(fs, name), hi);
  }

  lemma OthersAreKept(fs: Fs, name: Name, disk: seq<Byte>, hi: int)
    requires Inv(fs) && SameExcept(fs.disk, disk, 512 * Mark(fs, name), hi)
    ensures OthersKept(fs.dir, fs.disk, disk, name)
  {
    assert View(Fs(fs.dir, disk)).Keys == View(fs).Keys;
    hide View, Inv, Mark;
    forall p | p in View(fs) && p != name
      ensures p in View(Fs(fs.dir, disk)) && View(Fs(fs.dir, disk))[p] == View(fs)[p]
    {
      OthersAre(fs, name, disk, hi, p);
    }
    assert fs == Fs(fs.dir, fs.disk);
  }

  /** The mount after a failed data write reads the directory of before. */
  lemma RemountsOld(a: Fs, op: Op, b: Fs, c: Fs)
    requires Inv(a) && Synced(a) && op.Write? && Step(a, op, DataFailed, b) && Step(b, Remount, Done, c)
    ensures c == Fs(a.dir, b.disk) && DataTouched(a, op, b.disk)
  {
    StepIs(a, op, DataFailed, b);
    MountedIs(b, c);
    hide Step, Inv, Mark, Drop, OnDisk;
    StillOnDisk(a, b.disk, 512 * Mark(a, op.name), 512 * (Mark(a, op.name) + Need(|op.bytes|)));
    OneOnDisk(b.disk, a.dir, c.dir);
  }

  lemma MountedIs(b: Fs, c: Fs)
    requires Step(b, Remount, Done, c)
    ensures c.disk == b.disk && OnDisk(b.disk, c.dir)
  {
  }

  /** Data sectors aside, a disk in step with memory holds that directory. */
  lemma StillOnDisk(a: Fs, disk: seq<Byte>, lo: int, hi: int)
    requires Inv(a) && Synced(a) && SameExcept(a.disk, disk, lo, hi) && 512 * DATA_START <= lo
    ensures OnDisk(disk, a.dir)
  {
    forall i | 0 <= i < MAX_FILES ensures a.dir[i] == Decode(Stored(disk, i)) {
      SameSlice(a.disk, disk, lo, hi, 512 + 64 * i, 512 + 64 * i + 64);
      assert SyncedAt(a, i);
      DecodeEncode(a.dir[i]);
    }
  }

  lemma OneOnDisk(disk: seq<Byte>, x: seq<Dirent>, y: seq<Dirent>)
    requires OnDisk(disk, x) && OnDisk(disk, y)
    ensures x == y
  {
  }

  /** If a data write fails part way and the disk is then mounted again, every
      other path is as it was before the write. */
  lemma FailedWriteRemount(a: Fs, op: Op, b: Fs, c: Fs)
    requires Inv(a) && Synced(a) && op.Write? && Step(a, op, DataFailed, b) && Step(b, Remount, Done, c)
    ensures c.dir == a.dir && View(c).Keys == View(a).Keys
    ensures forall p :: p in View(a) && p != op.name ==> View(c)[p] == View(a)[p]
  {
    RemountsOld(a, op, b, c);
    hide View, Inv, Mark, Step;
    OthersAreKept(a, op.name, b.disk, 512 * (Mark(a, op.name) + Need(|op.bytes|)));
    assert a == Fs(a.dir, a.disk);
  }

  /** The new data goes to none of the old file's sectors. */
  ghost predicate SparesOld(a: Fs, op: Op)
    requires op.Write?
  {
    var k := Find(a.dir, op.name, 0);
    k != -1 ==>
      var e := a.dir[k];
      e.size == 0 || EndOf(e) <= Mark(a, op.name) || Mark(a, op.name) + Need(|op.bytes|) <= e.start
  }

  /** The path itself then has its old bytes if the new data went elsewhere. */
  lemma NamedSurvives(a: Fs, op: Op, b: Fs, c: Fs)
    requires Inv(a) && Synced(a) && op.Write? && Step(a, op, DataFailed, b) && Step(b, Remount, Done, c) &&
             SparesOld(a, op)
    ensures View(c) == View(a)
  {
    hide View, Inv, Mark, Step, Synced, EndOf, Find, SameExcept;
    FailedWriteRemount(a, op, b, c);
    RemountsOld(a, op, b, c);
    if op.name in View(a) {
      NamedNode(a, b.disk, op.name);
      SameNode(a.dir[Find(a.dir, op.name, 0)], a.disk, b.disk, Mark(a, op.name), Mark(a, op.name) + Need(|op.bytes|));
    }
  }

  lemma NamedNode(a: Fs, disk: seq<Byte>, name: Name)
    requires Inv(a) && name in View(a)
    ensures Find(a.dir, name, 0) != -1 && name in View(Fs(a.dir, disk))
    ensures View(a)[name] == NodeOf(a.disk, a.dir[Find(a.dir, name, 0)])
    ensures View(Fs(a.dir, disk))[name] == NodeOf(disk, a.dir[Find(a.dir, name, 0)])
  {
    ViewSlot(a, name);
  }

  lemma SameNode(e: Dirent, a: seq<Byte>, b: seq<Byte>, lo: nat, hi: nat)
    requires SameExcept(a, b, 512 * lo, 512 * hi) && (e.size == 0 || EndOf(e) <= lo || hi <= e.start)
    ensures NodeOf(a, e) == NodeOf(b, e)
  {
    if 512 * e.start + e.size <= |a| && e.size > 0 {
      SameSlice(a, b, 512 * lo, 512 * hi, 512 * e.start, 512 * e.start + e.size);
    }
  }

  /** Otherwise some failure of the transfer loses them. */
  lemma NamedLost(a: Fs, op: Op) returns (b: Fs, c: Fs)
    requires Inv(a) && Synced(a) && op.Write? && !Stops(a, op) && !SparesOld(a, op)
    ensures Step(a, op, DataFailed, b) && Step(b, Remount, Done, c)
    ensures op.name in View(a) && op.name in View(c) && View(c)[op.name] != View(a)[op.name]
  {
    hide Inv, View, Find, Mark, Need, Drop, Stops, Synced, OnDisk;
    var x := CommonByte(a, op);
    var disk := a.disk[x := if a.disk[x] == 0 then 1 else 0];
    b := Drop(a, op.name).(disk := disk);
    c := Fs(a.dir, disk);
    StillOnDisk(a, disk, 512 * Mark(a, op.name), 512 * (Mark(a, op.name) + Need(|op.bytes|)));
    LostView(a, op.name, disk, x);
  }

  lemma CommonByte(a: Fs, op: Op) returns (x: nat)
    requires Inv(a) && op.Write? && !Stops(a, op) && !SparesOld(a, op)
    ensures var k := Find(a.dir, op.name, 0);
            k != -1 && op.name in View(a) && !IsDir(a.dir[k]) &&
            512 * a.dir[k].start <= x < 512 * a.dir[k].start + a.dir[k].size <= |a.disk|
    ensures 512 * Mark(a, op.name) <= x < 512 * (Mark(a, op.name) + Need(|op.bytes|))
  {
    ViewSlot(a, op.name);
    var e, start := a.dir[Find(a.dir, op.name, 0)], Mark(a, op.name);
    assert Placed(e, |a.disk| / 512);
    hide View, Find, Mark;
    x := 512 * if e.start >= start then e.start else start;
  }

  lemma LostView(a: Fs, name: Name, disk: seq<Byte>, x: nat)
    requires Inv(a) && name in View(a) && Find(a.dir, name, 0) != -1 && |disk| == |a.disk| && x < |disk| &&
             disk[x] != a.disk[x]
    requires var e := a.dir[Find(a.dir, name, 0)]; !IsDir(e) && 512 * e.start <= x < 512 * e.start + e.size <= |disk|
    ensures name in View(Fs(a.dir, disk)) && View(Fs(a.dir, disk))[name] != View(a)[name]
  {
    ViewSlot(a, name);
    assert name in Names(a.dir);
    LostNode(a.dir[Find(a.dir, name, 0)], a.disk, disk, x);
    hide Inv, NodeOf, Names, Find;
  }

  lemma LostNode(e: Dirent, a: seq<Byte>, b: seq<Byte>, x: nat)
    requires !IsDir(e) && |a| == |b| && x < |a| && a[x] != b[x] && 512 * e.start <= x < 512 * e.start + e.size <= |a|
    ensures NodeOf(b, e) != NodeOf(a, e)
  {
    var i := x - 512 * e.start;
    assert Content(b, e.start, e.size)[i] == b[x] && Content(a, e.start, e.size)[i] == a[x];
  }
}
