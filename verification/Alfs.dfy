/** kernel/alfs.c over a drive that may fail. */
module Alfs {
  import opened ByteSeq
  import opened AlfsModel

  datatype Transfer = Transfer(lba: nat, n: nat)

  /** Since `log` was `from` long, only the sectors lo..hi have been read. */
  ghost predicate ReadsOnly(log: seq<Transfer>, from: nat, lo: nat, hi: nat) {
    from <= |log| && forall i :: from <= i < |log| ==> lo <= log[i].lba && log[i].lba + log[i].n <= hi
  }

  /** Buffer d0 has become d: `n` bytes from `at` on are those of src from `base` on. */
  ghost predicate Fetched(d0: seq<Byte>, d: seq<Byte>, at: nat, n: nat, src: seq<Byte>, base: nat) {
    && at + n <= |d| && base + n <= |src| && SameExcept(d0, d, at, at + n)
    && d[at..at + n] == src[base..base + n]
  }

  lemma FetchedNone(d: seq<Byte>, at: nat, src: seq<Byte>, base: nat)
    requires at <= |d| && base <= |src|
    ensures Fetched(d, d, at, 0, src, base)
  {
  }

  lemma FetchedMore(d0: seq<Byte>, d1: seq<Byte>, d2: seq<Byte>, at: nat, n: nat, more: nat, src: seq<Byte>, base: nat)
    requires Fetched(d0, d1, at, n, src, base) && at + n + more <= |d2| && base + n + more <= |src|
    requires SameExcept(d1, d2, at + n, at + n + more)
    requires d2[at + n..at + n + more] == src[base + n..base + n + more]
    ensures Fetched(d0, d2, at, n + more, src, base)
  {
    SameSlice(d1, d2, at + n, at + n + more, at, at + n);
    assert d2[at..at + n + more] == d2[at..at + n] + d2[at + n..at + n + more];
    assert src[base..base + n + more] == src[base..base + n] + src[base + n..base + n + more];
  }

  lemma FetchedPart(d0: seq<Byte>, d1: seq<Byte>, d2: seq<Byte>, at: nat, n: nat, more: nat, src: seq<Byte>, base: nat,
      all: nat)
    requires Fetched(d0, d1, at, n, src, base) && n + more <= all && SameExcept(d1, d2, at + n, at + n + more)
    ensures SameExcept(d0, d2, at, at + all)
  {
  }

  lemma FetchedAll(d0: seq<Byte>, d: seq<Byte>, at: nat, n: nat, src: seq<Byte>, base: nat)
    requires Fetched(d0, d, at, n, src, base)
    ensures SameExcept(d0, d, at, at + n) && at + n <= |d| && base + n <= |src| && d[at..at + n] == src[base..base + n]
  {
  }

  lemma ReadsNone(log: seq<Transfer>, lo: nat, hi: nat)
    ensures ReadsOnly(log, |log|, lo, hi)
  {
  }

  lemma ReadsOneMore(log: seq<Transfer>, from: nat, lo: nat, hi: nat, now: seq<Transfer>)
    requires ReadsOnly(log, from, lo, hi)
    requires exists t :: now == log + [t] && lo <= t.lba && t.lba + t.n <= hi
    ensures ReadsOnly(now, from, lo, hi)
  {
  }

  /** The drive: a failed write may leave anything in the sectors it was given. */
  class Disk {
    const reliable: bool // transfers inside the disk never fail
    var bytes: seq<Byte>
    ghost var log: seq<Transfer> // the reads so far

    constructor (bytes: seq<Byte>, reliable: bool)
      ensures this.bytes == bytes && this.reliable == reliable && log == []
    {
      this.bytes, this.reliable, log := bytes, reliable, [];
    }

    method Read(lba: nat, n: nat, dst: array<Byte>, at: nat) returns (ok: bool)
      requires |bytes| % 512 == 0 && 0 < n < 256 && at + 512 * n <= dst.Length
      modifies this`log, dst
      ensures SameExcept(old(dst[..]), dst[..], at, at + 512 * n)
      ensures ok ==> 512 * (lba + n) <= |bytes| && dst[at..at + 512 * n] == bytes[512 * lba..512 * (lba + n)]
      ensures reliable ==> (ok <==> 512 * (lba + n) <= |bytes|)
      ensures log == old(log) + [Transfer(lba, n)]
    {
      log := log + [Transfer(lba, n)];
      var fault: bool := *;
      ok := 512 * (lba + n) <= |bytes| && (reliable || !fault);
      if ok {
        forall k | at <= k < at + 512 * n { dst[k] := bytes[512 * lba + k - at]; }
      }
    }

    method Write(lba: nat, data: seq<Byte>) returns (ok: bool)
      requires |bytes| % 512 == 0 && |data| % 512 == 0 && 0 < |data| < 512 * 256
      modifies this`bytes
      ensures SameExcept(old(bytes), bytes, 512 * lba, 512 * lba + |data|)
      ensures ok ==> 512 * lba + |data| <= |bytes| && bytes[512 * lba..512 * lba + |data|] == data
      ensures reliable ==> (ok <==> 512 * lba + |data| <= |bytes|)
    {
      var fault: bool := *;
      var written := data;
      ok := 512 * lba + |data| <= |bytes| && (reliable || !fault);
      if !ok {
        var junk: seq<Byte> := *;
        if 512 * lba + |junk| > |bytes| || |junk| > |data| { return; }
        written := junk;
      }
      bytes := bytes[..512 * lba] + written + bytes[512 * lba + |written|..];
    }
  }

  function ByteAt(name: Name, i: nat): Byte { if i < |name| then name[i] else 0 }

  /** streq: `a` is a stored name, `b` a NUL-terminated string. */
  method Streq(a: seq<Byte>, b: Name) returns (eq: bool)
    requires |CStr(a)| < |a| && NoNul(b)
    ensures eq <==> CStr(a) == b
  {
    var i := 0;
    while a[i] != 0 && a[i] == ByteAt(b, i)
      invariant 0 <= i <= |CStr(a)| && i <= |b| && CStr(a)[..i] == b[..i]
      decreases |a| - i
    {
      assert CStr(a)[..i + 1] == CStr(a)[..i] + [a[i]] && b[..i + 1] == b[..i] + [b[i]];
      i := i + 1;
    }
    eq := a[i] == ByteAt(b, i);
  }

  /** strncpy_name. */
  method CopyName(src: Name) returns (name: seq<Byte>)
    ensures name == PadName(src)
  {
    var dst := new Byte[NAME_MAX];
    var i := 0;
    while i < NAME_MAX - 1 && i < |src|
      invariant 0 <= i <= NAME_MAX - 1 && i <= |src| && dst[..i] == src[..i]
    {
      dst[i] := src[i];
      i := i + 1;
    }
    ghost var n := i;
    while i < NAME_MAX
      invariant n <= i <= NAME_MAX && dst[..n] == src[..n]
      invariant forall k :: n <= k < i ==> dst[k] == 0
    {
      dst[i] := 0;
      i := i + 1;
    }
    name := dst[..];
    assert name[..n] == src[..n];
    assert name == name[..n] + name[n..];
  }

  /** Entry i of the six sectors read. */
  lemma EntryAt(raw: seq<Byte>, disk: seq<Byte>, i: nat)
    requires i < MAX_FILES && |disk| >= 3584 && raw == disk[512..3584]
    ensures raw[64 * i..64 * i + 64] == Stored(disk, i)
  {
    SliceSlice(disk, 512, 3584, 64 * i, 64 * i + 64);
  }

  class Alfs {
    const disk: Disk
    const super: array<Byte>
    const dir: array<Dirent>
    const sbuf: array<Byte>
    var ready: bool

    ghost predicate Shape()
      reads disk
    {
      super.Length == 512 && dir.Length == MAX_FILES && sbuf.Length == 512 && super != sbuf && DiskShape(disk.bytes)
    }

    ghost function State(): Fs
      reads dir, disk
    {
      Fs(dir[..], disk.bytes)
    }

    ghost predicate Valid()
      reads this, dir, disk
    {
      Shape() && (ready ==> Inv(State()))
    }

    constructor (disk: Disk)
      requires DiskShape(disk.bytes)
      ensures Valid() && !ready && this.disk == disk && fresh(super) && fresh(dir) && fresh(sbuf)
    {
      this.disk, ready := disk, false;
      super := new Byte[512];
      dir := new Dirent[MAX_FILES](_ => Dirent([], 0, 0, 0));
      sbuf := new Byte[512];
    }

    /** alfs_init: on success the directory is the one on the disk. */
    method Init() returns (ok: bool)
      requires Shape()
      modifies this`ready, super, dir, disk`log
      ensures ok ==> ready && OnDisk(disk.bytes, dir[..]) && disk.bytes[..4] == [0x53, 0x46, 0x4C, 0x41]
      ensures ok ==> forall i :: 0 <= i < 48 ==> Laid(disk.bytes, i, dir[i])
      ensures !ok ==> ready == old(ready)
      ensures disk.reliable ==> (ok <==> disk.bytes[..4] == [0x53, 0x46, 0x4C, 0x41])
    {
      MagicBytes(disk.bytes);
      hide Of32, Decode, Laid;
      ok := disk.Read(0, 1, super, 0);
      if !ok { return; }
      assert super[0..512] == super[..];
      assert super[0..4] == disk.bytes[0..4];
      if Of32(super[0..4]) != MAGIC { return false; }
      var raw := new Byte[3072];
      ok := disk.Read(1, 6, raw, 0);
      if !ok { return; }
      assert raw[0..3072] == raw[..];
      hide Stored, SameExcept;
      for i := 0 to MAX_FILES
        invariant forall k :: 0 <= k < i ==> dir[k] == Decode(Stored(disk.bytes, k))
        invariant raw[..] == disk.bytes[512..3584]
      {
        EntryAt(raw[..], disk.bytes, i);
        dir[i] := Decode(raw[..][64 * i..64 * i + 64]);
      }
      forall i | 0 <= i < 48 ensures Laid(disk.bytes, i, dir[i]) { LaidIs(disk.bytes, i, dir[i]); }
      ready := true;
    }

    /** The entry that holds `name`, or -1: the search of alfs_find, alfs_write and alfs_delete. */
    method Search(name: Name) returns (k: int)
      requires dir.Length == MAX_FILES && Terminated(dir[..]) && NoNul(name)
      ensures k == AlfsModel.Find(dir[..], name, 0)
    {
      k := 0;
      while k < MAX_FILES
        invariant 0 <= k <= MAX_FILES && forall j :: 0 <= j < k ==> !Matches(dir[..][j], name)
      {
        if IsUsed(dir[k]) {
          assert Named(dir[..][k]);
          var eq := Streq(dir[k].name, name);
          if eq { return; }
        }
        k := k + 1;
      }
      k := -1;
    }

    /** alfs_find. */
    method Find(name: Name) returns (k: int)
      requires Shape() && (ready ==> Terminated(dir[..])) && NoNul(name)
      ensures k == if ready then AlfsModel.Find(dir[..], name, 0) else -1
      ensures Valid() ==> (k != -1 <==> ready && name in View(State()))
      ensures Valid() && k != -1 ==>
              0 <= k < MAX_FILES && Matches(dir[k], name) && View(State())[name] == NodeOf(disk.bytes, dir[k])
    {
      if !ready { return -1; }
      k := Search(name);
      if Valid() { ViewSlot(State(), name); }
    }

    /** The first unused entry, or -1. */
    method FreeSlot() returns (k: int)
      requires dir.Length == MAX_FILES
      ensures k == FirstFree(dir[..], 0)
    {
      k := 0;
      while k < MAX_FILES
        invariant 0 <= k <= MAX_FILES && forall i :: 0 <= i < k ==> IsUsed(dir[..][i])
      {
        if !IsUsed(dir[k]) { return; }
        k := k + 1;
      }
      k := -1;
    }

    /** high_water. */
    method HighWaterMark() returns (h: nat)
      requires Valid() && ready
      ensures h == HighWater(dir[..], MAX_FILES)
    {
      hide Inv, EndOf;
      h := DATA_START;
      for i := 0 to MAX_FILES
        invariant h == HighWater(dir[..], i)
      {
        var e := dir[i];
        assert e == dir[..][i];
        if IsUsed(e) && !IsDir(e) {
          EndExact(State(), i);
          var end := (e.start + (e.size + 511) % WORDS / 512) % WORDS;
          if end > h { h := end; }
        }
      }
    }

    /** dir_flush_slot. */
    method FlushSlot(i: nat) returns (ok: bool)
      requires Shape() && AllShaped(dir[..]) && i < MAX_FILES
      modifies disk`bytes
      ensures SameExcept(old(disk.bytes), disk.bytes, 512 * (1 + i / 8), 512 * (1 + i / 8) + 512)
      ensures |disk.bytes| == |old(disk.bytes)| && (ok ==> Flushed(old(State()), disk.bytes, i / 8))
      ensures ok ==> forall k :: i / 8 * 8 <= k < i / 8 * 8 + 8 ==> Laid(disk.bytes, k, dir[k])
      ensures disk.reliable ==> ok
    {
      ghost var a := State();
      var s := i / 8;
      var part := dir[8 * s..8 * s + 8];
      assert part == dir[..][8 * s..8 * s + 8];
      hide EntryBytes, Laid;
      ok := disk.Write(1 + s, EntryBytes(part));
      if ok {
        forall k | i / 8 * 8 <= k < i / 8 * 8 + 8 ensures Laid(disk.bytes, k, dir[k]) {
          FlushedLaid(a, disk.bytes, s, k);
        }
      }
    }

    /** The complete sectors of alfs_write, in batches of up to 255. */
    method WriteFull(start: nat, buf: array<Byte>, full: nat) returns (ok: bool)
      requires |disk.bytes| % 512 == 0 && 512 * full <= buf.Length && 512 * start <= |disk.bytes|
      modifies disk`bytes
      ensures SameExcept(old(disk.bytes), disk.bytes, 512 * start, 512 * (start + full))
      ensures ok ==>
              512 * (start + full) <= |disk.bytes| && disk.bytes[512 * start..512 * (start + full)] == buf[..512 * full]
      ensures disk.reliable ==> (ok <==> 512 * (start + full) <= |disk.bytes|)
    {
      var done := 0;
      while done < full
        invariant 0 <= done <= full && 512 * (start + done) <= |disk.bytes| && |disk.bytes| % 512 == 0
        invariant SameExcept(old(disk.bytes), disk.bytes, 512 * start, 512 * (start + done))
        invariant disk.bytes[512 * start..512 * (start + done)] == buf[..512 * done]
      {
        var batch := if full - done > 255 then 255 else full - done;
        ghost var before := disk.bytes;
        ok := disk.Write(start + done, buf[512 * done..512 * (done + batch)]);
        SameJoined(old(disk.bytes), before, disk.bytes, 512 * start, 512 * (start + done),
          512 * (start + done + batch));
        if !ok { return; }
        Joined(before, disk.bytes, 512 * start, 512 * (start + done), 512 * (start + done + batch), buf[..512 * done],
          buf[512 * done..512 * (done + batch)]);
        assert buf[..512 * done] + buf[512 * done..512 * (done + batch)] == buf[..512 * (done + batch)];
        done := done + batch;
      }
      ok := true;
    }

    /** The data of alfs_write: complete sectors, then one padded with zeros if any
        bytes are left or the file is empty. */
    method WriteData(start: nat, buf: array<Byte>, size: nat) returns (ok: bool)
      requires Shape() && size <= buf.Length && buf != sbuf && 512 * start <= |disk.bytes|
      modifies disk`bytes, sbuf
      ensures SameExcept(old(disk.bytes), disk.bytes, 512 * start, 512 * (start + Need(size))) &&
              |disk.bytes| == |old(disk.bytes)|
      ensures ok ==> 512 * (start + Need(size)) <= |disk.bytes| && Content(disk.bytes, start, size) == buf[..size]
      ensures ok ==> ZeroTail(disk.bytes, start, size)
      ensures disk.reliable ==> (ok <==> 512 * (start + Need(size)) <= |disk.bytes|)
    {
      var full, partial := size / 512, size % 512;
      NeedIs(size);
      hide SameExcept, Need, ZeroTail;
      ok := WriteFull(start, buf, full);
      ghost var before := disk.bytes;
      SameLength(old(disk.bytes), before, 512 * start, 512 * (start + full));
      SameWider(old(disk.bytes), before, 512 * start, 512 * (start + full), 512 * (start + Need(size)));
      if !ok { return; }
      if partial > 0 || size == 0 {
        var sector := Padded(buf, 512 * full, partial);
        ok := disk.Write(start + full, sector);
        SameLength(before, disk.bytes, 512 * (start + full), 512 * (start + full + 1));
        SameJoined(old(disk.bytes), before, disk.bytes, 512 * start, 512 * (start + full), 512 * (start + full + 1));
        if !ok { return; }
        DataJoined(before, disk.bytes, start, full, buf[..], size, sector);
        TailIs(disk.bytes, start, full, size, sector);
      } else {
        NoTail(disk.bytes, start, size);
      }
    }

    /** The bounce buffer: `n` bytes of `buf` from `from` on, then zeros. */
    method Padded(buf: array<Byte>, from: nat, n: nat) returns (sector: seq<Byte>)
      requires sbuf.Length == 512 && buf != sbuf && from + n <= buf.Length && n < 512
      modifies sbuf
      ensures sector == sbuf[..] && |sector| == 512 && sector[..n] == buf[from..from + n]
      ensures forall k :: n <= k < 512 ==> sector[k] == 0
    {
      for i := 0 to n
        invariant forall k :: 0 <= k < i ==> sbuf[k] == buf[from + k]
      {
        sbuf[i] := buf[from + i];
      }
      for i := n to 512
        invariant forall k :: 0 <= k < n ==> sbuf[k] == buf[from + k]
        invariant forall k :: n <= k < i ==> sbuf[k] == 0
      {
        sbuf[i] := 0;
      }
      sector := sbuf[..];
    }

    /** The slot alfs_write uses: that of the old file, cleared, or an unused one. */
    method Slot(name: Name, ghost op: Op) returns (slot: int)
      requires Valid() && ready && NoNul(name) && op.Write? && op.name == name
      modifies dir
      ensures slot == -1 <==> Stops(old(State()), op)
      ensures slot == -1 ==> State() == old(State())
      ensures slot != -1 ==> State() == Drop(old(State()), name) && slot == SlotOf(old(State()), name)
    {
      hide Inv, CStr, AlfsModel.Find, FirstFree, Drop, View;
      ghost var a := State();
      DropIs(a, name);
      InvTerminated(State());
      slot := Search(name);
      if slot != -1 {
        if IsDir(dir[slot]) { return -1; }
        dir[slot] := dir[slot].(flags := 0);
        assert State().dir == a.dir[slot := a.dir[slot].(flags := 0)];
      } else {
        slot := FreeSlot();
      }
    }

    /** Set the entry of a slot and write its directory sector. */
    method Commit(ghost a: Fs, ghost op: Op, slot: nat, e: Dirent) returns (ok: bool, ghost o: Outcome)
      requires Shape() && Inv(a) && (op.Write? || op.Mkdir?) && !Stops(a, op) && slot == SlotOf(a, op.name) < MAX_FILES
      requires dir[..] == Drop(a, op.name).dir && e == NewEntry(a, op) && Shaped(e)
      modifies disk`bytes, dir
      ensures dir[slot] == e && Shape() && o == (if ok then Done else FlushFailed) && (disk.reliable ==> ok)
      ensures FlushedOrNot(Entered(a, op, old(disk.bytes)), slot, o, State()) && |disk.bytes| == |old(disk.bytes)|
    {
      hide Inv, Drop, SlotOf, SameExcept, Flushed, Stops, NewEntry;
      dir[slot] := e;
      assert State() == Entered(a, op, disk.bytes);
      CommitShaped(a, op.name, slot, e);
      ok := FlushSlot(slot);
      o := if ok then Done else FlushFailed;
    }

    /** alfs_write. */
    method Write(name: Name, buf: array<Byte>, size: nat) returns (slot: int, ghost o: Outcome)
      requires Valid() && NoNul(name) && size <= buf.Length && size < WORDS && buf != sbuf
      modifies disk`bytes, sbuf, dir
      ensures Shape() && (Clean(View(old(State())), AlfsModel.Write(name, buf[..size])) ==> Valid())
      ensures !ready ==> slot == -1 && State() == old(State())
      ensures ready ==> Step(old(State()), AlfsModel.Write(name, buf[..size]), o, State()) && Terminated(dir[..])
      ensures ready ==>
              (slot != -1 <==> o == Done) && (slot != -1 ==> 0 <= slot < MAX_FILES && Matches(dir[slot], Key(name)))
      ensures slot != -1 ==> ZeroTail(disk.bytes, dir[slot].start, size)
      ensures ready && disk.reliable && o != Refused ==>
                (o == Done <==> 512 * (Mark(old(State()), name) + Need(size)) <= |disk.bytes|) && o != FlushFailed
    {
      hide Inv, View, Step, Stops, Drop, HighWater, Mark, SameExcept, Clean, SlotOf, PadName, Content, Need, CStr;
      hide FlushedOrNot, Entered, Terminated, ZeroTail;
      slot, o := -1, Refused;
      ghost var a, op := State(), AlfsModel.Write(name, buf[..size]);
      if !ready { return; }
      slot := Slot(name, op);
      if slot == -1 {
        StepRefused(a, op);
        StepTerminated(a, op, o, State());
        return;
      }
      DropIs(a, name);
      SlotUnused(a, op);
      var start := HighWaterMark();
      MarkIs(a, name);
      HighWaterFits(State(), MAX_FILES);
      var ok := WriteData(start, buf, size);
      ghost var written := disk.bytes;
      if !ok {
        StepStopped(a, op, State());
        StepTerminated(a, op, DataFailed, State());
        KeepsValid(a, op, DataFailed, State());
        return -1, DataFailed;
      }
      var padded := CopyName(name);
      EntryIs(a, op, written, Dirent(padded, start, size, 1));
      ok, o := Commit(a, op, slot, Dirent(padded, start, size, 1));
      StepCommitted(a, op, written, o, State());
      StepTerminated(a, op, o, State());
      if ok { TailFlushed(a, op, written, slot, State(), start, size); }
      KeepsValid(a, op, o, State());
      if !ok { slot := -1; }
    }

    /** alfs_mkdir. */
    method Mkdir(path: Name) returns (slot: int, ghost o: Outcome)
      requires Valid() && NoNul(path)
      modifies disk`bytes, dir
      ensures Shape() && (Clean(View(old(State())), AlfsModel.Mkdir(path)) ==> Valid())
      ensures !ready ==> slot == -1 && State() == old(State())
      ensures ready ==> Step(old(State()), AlfsModel.Mkdir(path), o, State())
      ensures ready ==>
              (slot != -1 <==> o == Done) && (slot != -1 ==> 0 <= slot < MAX_FILES && Matches(dir[slot], Key(path)))
      ensures ready && disk.reliable ==> o != FlushFailed
    {
      hide Inv, View, Step, Drop, Mark, Clean, PadName, CStr, FlushedOrNot, Entered, AlfsModel.Find, FirstFree;
      slot, o := -1, Refused;
      ghost var a, op := State(), AlfsModel.Mkdir(path);
      if !ready { return; }
      InvTerminated(State());
      slot := Search(path);
      if slot >= 0 {
        StepRefused(a, op);
        return -1, Refused;
      }
      slot := FreeSlot();
      if slot < 0 {
        StepRefused(a, op);
        return;
      }
      DropIs(a, path);
      var padded := CopyName(path);
      EntryIs(a, op, disk.bytes, Dirent(padded, 0, 0, 3));
      var ok;
      ok, o := Commit(a, op, slot, Dirent(padded, 0, 0, 3));
      StepCommitted(a, op, a.disk, o, State());
      KeepsValid(a, op, o, State());
      if !ok { slot := -1; }
    }

    /** alfs_delete. */
    method Delete(name: Name) returns (ok: bool, ghost o: Outcome)
      requires Valid() && NoNul(name)
      modifies disk`bytes, dir
      ensures Valid() && (!ready ==> !ok && State() == old(State()))
      ensures ready ==> Step(old(State()), AlfsModel.Delete(name), o, State()) && (ok <==> o == Done)
      ensures ready && disk.reliable ==> o != FlushFailed
    {
      hide Inv, View, Step, Drop, SameExcept, AlfsModel.Find, Flushed, Terminated, CStr, Laid, AllShaped;
      ok, o := false, Refused;
      ghost var a, op := State(), AlfsModel.Delete(name);
      if !ready { return; }
      DropIs(a, name);
      InvTerminated(State());
      var k := Search(name);
      if k == -1 {
        StepRefused(a, op);
        return;
      }
      dir[k] := dir[k].(flags := 0);
      assert State() == Drop(a, name);
      InvShaped(State());
      ok := FlushSlot(k);
      o := if ok then Done else FlushFailed;
      StepDeleted(a, op, o, State());
      KeepsValid(a, op, o, State());
    }

    ghost predicate Has(idx: int)
      requires dir.Length == MAX_FILES
      reads this, dir
    {
      ready && 0 <= idx < MAX_FILES && IsUsed(dir[idx])
    }

    /** The complete sectors of alfs_read, in batches of up to 255. */
    method ReadFull(lba: nat, full: nat, dst: array<Byte>) returns (ok: bool)
      requires |disk.bytes| % 512 == 0 && 512 * full <= dst.Length && 512 * (lba + full) <= |disk.bytes|
      modifies dst, disk`log
      ensures SameExcept(old(dst[..]), dst[..], 0, 512 * full)
      ensures ok ==> dst[..][0..512 * full] == disk.bytes[512 * lba..512 * (lba + full)]
      ensures disk.reliable ==> ok
      ensures ReadsOnly(disk.log, |old(disk.log)|, lba, lba + full)
    {
      hide SameExcept, ReadsOnly;
      SameSelf(dst[..], 0, 0);
      ReadsNone(disk.log, lba, lba + full);
      var done := 0;
      while done < full
        invariant 0 <= done <= full && SameExcept(old(dst[..]), dst[..], 0, 512 * done)
        invariant dst[..][0..512 * done] == disk.bytes[512 * lba..512 * (lba + done)]
        invariant ReadsOnly(disk.log, |old(disk.log)|, lba, lba + full)
      {
        var batch := if full - done > 255 then 255 else full - done;
        ghost var before, log := dst[..], disk.log;
        ok := disk.Read(lba + done, batch, dst, 512 * done);
        ReadsOneMore(log, |old(disk.log)|, lba, lba + full, disk.log);
        SameJoined(old(dst[..]), before, dst[..], 0, 512 * done, 512 * (done + batch));
        SameWider(old(dst[..]), dst[..], 0, 512 * (done + batch), 512 * full);
        if !ok { return; }
        Copied(before, dst[..], 0, 512 * done, 512 * (done + batch), disk.bytes, 512 * lba);
        done := done + batch;
      }
      ok := true;
    }

    /** Part of one sector, through the bounce buffer. */
    method Bounce(lba: nat, from: nat, n: nat, dst: array<Byte>, at: nat) returns (ok: bool)
      requires |disk.bytes| % 512 == 0 && sbuf.Length == 512 && dst != sbuf && from + n <= 512 && at + n <= dst.Length
      modifies dst, sbuf, disk`log
      ensures SameExcept(old(dst[..]), dst[..], at, at + n)
      ensures ok ==>
              512 * (lba + 1) <= |disk.bytes| &&
              dst[..][at..at + n] == disk.bytes[512 * lba + from..512 * lba + from + n]
      ensures disk.reliable && 512 * (lba + 1) <= |disk.bytes| ==> ok
      ensures disk.log == old(disk.log) + [Transfer(lba, 1)]
    {
      ok := disk.Read(lba, 1, sbuf, 0);
      if !ok { return; }
      ghost var sector := sbuf[0..512];
      for i := 0 to n
        invariant sbuf[0..512] == sector && disk.log == old(disk.log) + [Transfer(lba, 1)]
        invariant SameExcept(old(dst[..]), dst[..], at, at + n)
        invariant dst[at..at + i] == sector[from..from + i]
      {
        assert sbuf[from + i] == sector[from + i];
        dst[at + i] := sbuf[from + i];
        assert dst[at..at + i + 1] == dst[at..at + i] + [sector[from + i]];
      }
      assert dst[..][at..at + n] == dst[at..at + n];
      SliceSlice(disk.bytes, 512 * lba, 512 * (lba + 1), from, from + n);
    }

    /** alfs_read. */
    method Read(idx: int, buf: array<Byte>, max: nat) returns (n: int)
      requires Valid() && max <= buf.Length && buf != sbuf
      modifies buf, sbuf, disk`log
      ensures n != -1 ==>
              Has(idx) && n == Min(dir[idx].size, max) &&
              buf[..n] == Content(disk.bytes, dir[idx].start, dir[idx].size)[..n]
      ensures disk.reliable ==> (n != -1 <==> Has(idx))
      ensures SameExcept(old(buf[..]), buf[..], 0, if Has(idx) then Min(dir[idx].size, max) else 0)
      ensures if Has(idx) then ReadsOnly(disk.log, |old(disk.log)|, dir[idx].start, EndOf(dir[idx]))
              else disk.log == old(disk.log)
    {
      if !ready || idx < 0 || idx >= MAX_FILES { return -1; }
      var e := dir[idx];
      if !IsUsed(e) { return -1; }
      InvPlaced(State(), idx);
      hide Inv, SameExcept, Content, Sects;
      SameSelf(buf[..], 0, 0);
      var bytes := if e.size < max then e.size else max;
      if bytes == 0 { return 0; }
      SectsMonotone(bytes, e.size);
      var ok := ReadBytes(e.start, bytes, buf);
      if !ok { return -1; }
      ContentSlice(disk.bytes, e.start, e.size, 0, bytes);
      assert buf[..bytes] == buf[..][0..bytes];
      n := bytes;
    }

    /** The transfers of alfs_read: complete sectors, then the rest of one. */
    method ReadBytes(start: nat, bytes: nat, buf: array<Byte>) returns (ok: bool)
      requires |disk.bytes| % 512 == 0 && sbuf.Length == 512 && bytes <= buf.Length && buf != sbuf &&
               512 * (start + Sects(bytes)) <= |disk.bytes|
      modifies buf, sbuf, disk`log
      ensures ok ==> buf[..][0..bytes] == disk.bytes[512 * start..512 * start + bytes]
      ensures disk.reliable ==> ok
      ensures SameExcept(old(buf[..]), buf[..], 0, bytes)
      ensures ReadsOnly(disk.log, |old(disk.log)|, start, start + Sects(bytes))
    {
      hide SameExcept;
      var full, partial := bytes / 512, bytes % 512;
      ok := ReadFull(start, full, buf);
      ghost var before := buf[..];
      SameWider(old(buf[..]), before, 0, 512 * full, bytes);
      if ok && partial > 0 {
        ok := Bounce(start + full, 0, partial, buf, 512 * full);
        SameLength(before, buf[..], 512 * full, bytes);
        SameJoined(old(buf[..]), before, buf[..], 0, 512 * full, bytes);
        if ok { Copied(before, buf[..], 0, 512 * full, bytes, disk.bytes, 512 * start); }
      }
    }

    /** alfs_pread: as much of content[off..off + len] as there is, to dst[at..]. */
    method Pread(idx: int, dst: array<Byte>, at: nat, len: nat, off: nat) returns (n: int)
      requires Valid() && at + len <= dst.Length && dst != sbuf
      modifies dst, sbuf, disk`log
      ensures n != -1 ==> Has(idx) && n == Avail(dir[idx].size, off, len)
      ensures n > 0 ==>
              off + n <= dir[idx].size &&
              dst[at..at + n] == Content(disk.bytes, dir[idx].start, dir[idx].size)[off..off + n]
      ensures disk.reliable ==> (n != -1 <==> Has(idx))
      ensures SameExcept(old(dst[..]), dst[..], at, at + if Has(idx) then Avail(dir[idx].size, off, len) else 0)
      ensures if Has(idx) then ReadsOnly(disk.log, |old(disk.log)|, dir[idx].start, EndOf(dir[idx]))
              else disk.log == old(disk.log)
    {
      hide Inv, SameExcept, Content, ReadsOnly, Sects, IsUsed;
      SameSelf(dst[..], at, at);
      if !ready || idx < 0 || idx >= MAX_FILES { return -1; }
      var e := dir[idx];
      if !IsUsed(e) { return -1; }
      InvPlaced(State(), idx);
      ReadsNone(disk.log, e.start, EndOf(e));
      if off >= e.size { return 0; }
      var avail := e.size - off;
      var bytes := if len < avail then len else avail;
      if bytes == 0 { return 0; }
      var ok := PreadLoop(e.start, e.size, dst, at, bytes, off);
      if !ok { return -1; }
      ContentSlice(disk.bytes, e.start, e.size, off, bytes);
      assert dst[at..at + bytes] == dst[..][at..at + bytes];
      n := bytes;
    }

    method PreadLoop(start: nat, size: nat, dst: array<Byte>, at: nat, bytes: nat, off: nat) returns (ok: bool)
      requires Shape() && at + bytes <= dst.Length && dst != sbuf && off + bytes <= size &&
               512 * (start + Sects(size)) <= |disk.bytes|
      modifies dst, sbuf, disk`log
      ensures ok ==> dst[..][at..at + bytes] == disk.bytes[512 * start + off..512 * start + off + bytes]
      ensures disk.reliable ==> ok
      ensures SameExcept(old(dst[..]), dst[..], at, at + bytes)
      ensures ReadsOnly(disk.log, |old(disk.log)|, start, start + Sects(size))
    {
      SectsCover(size);
      hide SameExcept, Sects, ReadsOnly, Fetched;
      ReadsNone(disk.log, start, start + Sects(size));
      ghost var base, was := 512 * start + off, dst[..];
      FetchedNone(was, at, disk.bytes, base);
      var got := 0;
      while bytes - got > 0
        invariant 0 <= got <= bytes && Fetched(was, dst[..], at, got, disk.bytes, base)
        invariant ReadsOnly(disk.log, |old(disk.log)|, start, start + Sects(size))
      {
        ghost var before, log := dst[..], disk.log;
        var n;
        ok, n := PreadChunk(start, dst, at + got, bytes - got, off + got, start + Sects(size));
        ReadsOneMore(log, |old(disk.log)|, start, start + Sects(size), disk.log);
        if !ok {
          FetchedPart(was, before, dst[..], at, got, n, disk.bytes, base, bytes);
          return;
        }
        FetchedMore(was, before, dst[..], at, got, n, disk.bytes, base);
        got := got + n;
      }
      FetchedAll(was, dst[..], at, bytes, disk.bytes, base);
      ok := true;
    }

    /** One turn of the loop of alfs_pread: whole sectors straight to `dst`, or
        part of one through the bounce buffer. */
    method PreadChunk(start: nat, dst: array<Byte>, p: nat, remaining: nat, fileOff: nat, ghost end: nat)
        returns (ok: bool, n: nat)
      requires |disk.bytes| % 512 == 0 && sbuf.Length == 512 && dst != sbuf && p + remaining <= dst.Length &&
               remaining > 0
      requires 512 * end <= |disk.bytes| && 512 * start + fileOff + remaining <= 512 * end
      modifies dst, sbuf, disk`log
      ensures 0 < n <= remaining && SameExcept(old(dst[..]), dst[..], p, p + n)
      ensures ok ==> dst[..][p..p + n] == disk.bytes[512 * start + fileOff..512 * start + fileOff + n]
      ensures disk.reliable ==> ok
      ensures exists t :: disk.log == old(disk.log) + [t] && start <= t.lba && t.lba + t.n <= end
    {
      hide SameExcept;
      var sectIdx, sectOff := fileOff / 512, fileOff % 512;
      assert 512 * (start + sectIdx) + sectOff == 512 * start + fileOff;
      if sectOff == 0 && remaining >= 512 {
        var full := if remaining / 512 > 255 then 255 else remaining / 512;
        ok := disk.Read(start + sectIdx, full, dst, p);
        n := 512 * full;
        assert disk.log == old(disk.log) + [Transfer(start + sectIdx, full)];
        assert dst[..][p..p + n] == dst[p..p + n];
      } else {
        n := if 512 - sectOff > remaining then remaining else 512 - sectOff;
        ok := Bounce(start + sectIdx, sectOff, n, dst, p);
        assert disk.log == old(disk.log) + [Transfer(start + sectIdx, 1)];
      }
    }
  }

  function Min(a: nat, b: nat): nat { if a < b then a else b }

  /** How many of `len` bytes at `off` a file of `size` bytes has. */
  function Avail(size: nat, off: nat, len: nat): nat { if off >= size then 0 else Min(len, size - off) }

  lemma InvPlaced(fs: Fs, i: nat)
    requires Inv(fs) && i < MAX_FILES && IsUsed(fs.dir[i])
    ensures fs.dir[i].size > 0 ==>
            512 * (fs.dir[i].start + Sects(fs.dir[i].size)) <= |fs.disk| &&
            512 * fs.dir[i].start + fs.dir[i].size <= |fs.disk|
  {
    assert Placed(fs.dir[i], |fs.disk| / 512);
  }

  lemma SameSelf(a: seq<Byte>, lo: int, hi: int)
    ensures SameExcept(a, a, lo, hi)
  {
  }

  lemma SectsMonotone(a: nat, b: nat)
    requires a <= b
    ensures Sects(a) <= Sects(b)
  {
  }

  lemma SectsCover(size: nat)
    ensures size <= 512 * Sects(size)
  {
  }

  /** Disk bytes inside a file are file bytes. */
  lemma ContentSlice(disk: seq<Byte>, start: nat, size: nat, off: nat, n: nat)
    requires 512 * start + size <= |disk| && off + n <= size
    ensures |Content(disk, start, size)| == size
    ensures disk[512 * start + off..512 * start + off + n] == Content(disk, start, size)[off..off + n]
  {
    SliceSlice(disk, 512 * start, 512 * start + size, off, off + n);
  }

  /** Bytes lo..mid of `a` and the new bytes mid..hi of `b` come from consecutive bytes of `src`. */
  lemma Copied(a: seq<Byte>, b: seq<Byte>, lo: nat, mid: nat, hi: nat, src: seq<Byte>, from: nat)
    requires SameExcept(a, b, mid, hi) && lo <= mid <= hi <= |a| && from + (hi - lo) <= |src|
    requires a[lo..mid] == src[from..from + (mid - lo)] && |b| == |a| &&
             b[mid..hi] == src[from + (mid - lo)..from + (hi - lo)]
    ensures b[lo..hi] == src[from..from + (hi - lo)]
  {
    Joined(a, b, lo, mid, hi, a[lo..mid], b[mid..hi]);
  }

  lemma StepRefused(a: Fs, op: Op)
    requires !op.Remount? && Stops(a, op)
    ensures Step(a, op, Refused, a)
  {
  }

  lemma StepStopped(a: Fs, op: Op, b: Fs)
    requires op.Write? && !Stops(a, op) && b.dir == Drop(a, op.name).dir && DataTouched(a, op, b.disk)
    ensures Step(a, op, DataFailed, b)
  {
    hide Stops, Drop, DataTouched;
  }

  lemma TailFlushed(a: Fs, op: Op, disk: seq<Byte>, slot: nat, b: Fs, start: nat, size: nat)
    requires (op.Write? || op.Mkdir?) && !Stops(a, op) && FlushedOrNot(Entered(a, op, disk), slot, Done, b)
    requires slot < MAX_FILES && DATA_START <= start && ZeroTail(disk, start, size)
    ensures ZeroTail(b.disk, start, size)
  {
    hide Stops, Entered, SlotOf, Flushed;
    assert Entered(a, op, disk).disk == disk by { EnteredDisk(a, op, disk); }
  }

  lemma EnteredDisk(a: Fs, op: Op, disk: seq<Byte>)
    requires (op.Write? || op.Mkdir?) && !Stops(a, op)
    ensures Entered(a, op, disk).disk == disk
  {
  }

  lemma StepCommitted(a: Fs, op: Op, disk: seq<Byte>, o: Outcome, b: Fs)
    requires (op.Write? || op.Mkdir?) && !Stops(a, op) && FlushedOrNot(Entered(a, op, disk), SlotOf(a, op.name), o, b)
    requires if op.Write? then DataIn(a, op, disk) else disk == a.disk
    ensures Step(a, op, o, b)
  {
    hide Stops, DataIn, FlushedOrNot, Entered, SlotOf;
  }

  lemma StepDeleted(a: Fs, op: Op, o: Outcome, b: Fs)
    requires op.Delete? && !Stops(a, op) && FlushedOrNot(Drop(a, op.name), AlfsModel.Find(a.dir, op.name, 0), o, b)
    ensures Step(a, op, o, b)
  {
    hide Stops, FlushedOrNot, Drop, AlfsModel.Find;
  }

  lemma KeepsValid(a: Fs, op: Op, o: Outcome, b: Fs)
    requires Inv(a) && !op.Remount? && NoNul(op.name) && Step(a, op, o, b)
    ensures Clean(View(a), op) ==> Inv(b)
  {
    StepKeepsInv(a, op, o, b);
  }

  /** The entry the code stores, and under which path it will be found. */
  lemma EntryIs(a: Fs, op: Op, disk: seq<Byte>, e: Dirent)
    requires Inv(a) && (op.Write? || op.Mkdir?) && NoNul(op.name) && |disk| == |a.disk|
    requires e == NewEntry(a, op) && (op.Write? ==> DataIn(a, op, disk))
    ensures Shaped(e) && Matches(e, Key(op.name))
  {
    EntryFitsDisk(a, op, disk);
  }

  lemma InvShaped(fs: Fs)
    requires Inv(fs)
    ensures AllShaped(fs.dir)
  {
  }

  lemma CommitShaped(a: Fs, name: Name, i: nat, e: Dirent)
    requires Inv(a) && i < |Drop(a, name).dir| && Shaped(e)
    ensures AllShaped(Drop(a, name).dir[i := e])
  {
  }

  lemma NeedIs(size: nat)
    ensures Need(size) == size / 512 + if size % 512 > 0 || size == 0 then 1 else 0
  {
  }

  /** Complete sectors and a padded one hold the data. */
  lemma TailIs(disk: seq<Byte>, start: nat, full: nat, size: nat, sector: seq<Byte>)
    requires full == size / 512 && |sector| == 512 && 512 * (start + full + 1) <= |disk|
    requires disk[512 * (start + full)..512 * (start + full + 1)] == sector
    requires forall k :: size % 512 <= k < 512 ==> sector[k] == 0
    ensures ZeroTail(disk, start, size)
  {
    forall x | 512 * start + size <= x < 512 * (start + full + 1) ensures disk[x] == 0 {
      assert disk[x] == sector[x - 512 * (start + full)];
    }
  }

  lemma NoTail(disk: seq<Byte>, start: nat, size: nat)
    requires size % 512 == 0 && size != 0 && 512 * start + size <= |disk|
    ensures ZeroTail(disk, start, size)
  {
  }

  lemma DataJoined(a: seq<Byte>, b: seq<Byte>, start: nat, full: nat, buf: seq<Byte>, size: nat, sector: seq<Byte>)
    requires 512 * full <= size <= |buf| && size - 512 * full < 512 && |sector| == 512 &&
             512 * (start + full + 1) <= |a| == |b|
    requires SameExcept(a, b, 512 * (start + full), 512 * (start + full + 1)) &&
             a[512 * start..512 * (start + full)] == buf[..512 * full]
    requires b[512 * (start + full)..512 * (start + full + 1)] == sector &&
             sector[..size - 512 * full] == buf[512 * full..size]
    ensures Content(b, start, size) == buf[..size]
  {
    Joined(a, b, 512 * start, 512 * (start + full), 512 * (start + full + 1), buf[..512 * full], sector);
    hide SameExcept;
    assert (buf[..512 * full] + sector)[..size] == buf[..512 * full] + sector[..size - 512 * full];
    assert buf[..512 * full] + buf[512 * full..size] == buf[..size];
    SliceSlice(b, 512 * start, 512 * (start + full + 1), 0, size);
  }

  /** The 32-bit arithmetic of high_water does not wrap. */
  lemma EndExact(fs: Fs, i: nat)
    requires Inv(fs) && i < MAX_FILES && IsFile(fs.dir[i])
    ensures (fs.dir[i].start + (fs.dir[i].size + 511) % WORDS / 512) % WORDS == EndOf(fs.dir[i])
  {
    assert Placed(fs.dir[i], |fs.disk| / 512);
  }

  lemma SameLength(a: seq<Byte>, b: seq<Byte>, lo: int, hi: int)
    requires SameExcept(a, b, lo, hi)
    ensures |a| == |b|
  {
  }

  lemma SameWider(a: seq<Byte>, b: seq<Byte>, lo: int, mid: int, hi: int)
    requires SameExcept(a, b, lo, mid) && mid <= hi
    ensures SameExcept(a, b, lo, hi)
  {
  }

  lemma SameJoined(a: seq<Byte>, b: seq<Byte>, c: seq<Byte>, lo: int, mid: int, hi: int)
    requires SameExcept(a, b, lo, mid) && SameExcept(b, c, mid, hi) && lo <= mid <= hi
    ensures SameExcept(a, c, lo, hi)
  {
  }

  /** Two stretches written one after the other. */
  lemma Joined(a: seq<Byte>, b: seq<Byte>, lo: int, mid: int, hi: int, x: seq<Byte>, y: seq<Byte>)
    requires SameExcept(a, b, mid, hi) && 0 <= lo <= mid <= hi <= |a| && a[lo..mid] == x && b[mid..hi] == y
    ensures b[lo..hi] == x + y
  {
    SameSlice(a, b, mid, hi, lo, mid);
    assert b[lo..hi] == b[lo..mid] + b[mid..hi];
  }
}
