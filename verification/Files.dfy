/** The file side of kernel/syscall.c: descriptors opened for writing over AliFS.
    A write rewrites the whole file from a 4096-byte staging buffer. */
module Files {
  import opened ByteSeq
  import opened AlfsModel
  import opened Alfs

  const STAGE: nat := 4096

  /** The FD_FILE fields of a descriptor. */
  class Fd {
    var idx: int
    var offset: nat
  }

  ghost function Concat(chunks: seq<seq<Byte>>): seq<Byte> {
    if chunks == [] then [] else Concat(chunks[..|chunks| - 1]) + chunks[|chunks| - 1]
  }

  /** What file_write stages: the file as far as it goes, then whatever the staging
      buffer held up to the offset, then the new bytes. */
  ghost function Staged(stage: seq<Byte>, content: seq<Byte>, off: nat, buf: seq<Byte>): seq<Byte>
    requires off <= |stage|
  {
    var n := Min(off, |content|);
    content[..n] + stage[n..off] + buf
  }

  /** Up to the end of the file nothing of the old staging buffer is written. */
  lemma StagedInside(stage: seq<Byte>, content: seq<Byte>, off: nat, buf: seq<Byte>)
    requires off <= |stage| && off <= |content|
    ensures Staged(stage, content, off, buf) == content[..off] + buf
  {
  }

  ghost function BytesIn(s: Fs, idx: nat): seq<Byte>
    requires idx < |s.dir|
  {
    Content(s.disk, s.dir[idx].start, s.dir[idx].size)
  }

  /** The disk has the sectors that a write of `size` bytes to a path needs. */
  ghost predicate Room(s: Fs, name: Name, size: nat) { 512 * (Mark(s, name) + Need(size)) <= |s.disk| }

  lemma MoreRoom(s: Fs, name: Name, k: nat, n: nat)
    requires k <= n
    ensures Room(s, name, n) ==> Room(s, name, k)
  {
  }

  lemma SameRoom(a: Fs, op: Op, b: Fs)
    requires Inv(a) && op.Write? && GoodName(op.name) && Step(a, op, Done, b)
    ensures forall k :: Room(b, op.name, k) <==> Room(a, op.name, k)
  {
    hide Step, Inv, Mark, Need;
    MarkKept(a, op, b);
  }

  lemma ConcatNone(chunks: seq<seq<Byte>>)
    ensures Concat(chunks[..0]) == []
  {
  }

  lemma ConcatNext(chunks: seq<seq<Byte>>, n: nat)
    requires n < |chunks|
    ensures Concat(chunks[..n + 1]) == Concat(chunks[..n]) + chunks[n] && |Concat(chunks[..n + 1])| <= |Concat(chunks)|
  {
    assert chunks[..n + 1][..n] == chunks[..n];
    ConcatGrows(chunks, n + 1);
  }

  lemma {:induction false} ConcatGrows(chunks: seq<seq<Byte>>, n: nat)
    requires n <= |chunks|
    ensures |Concat(chunks[..n])| <= |Concat(chunks)|
    decreases |chunks|
  {
    var m := |chunks| - 1;
    if n < |chunks| {
      ConcatGrows(chunks[..m], n);
      assert chunks[..m][..n] == chunks[..n];
    } else {
      assert chunks[..n] == chunks;
    }
  }

  /** A write at the end of a file stages the file and the new bytes. */
  lemma Rewrites(a: Fs, stage: seq<Byte>, idx: nat, name: Name, bytes: seq<Byte>, off: nat, buf: seq<Byte>)
    requires Inv(a) && idx < MAX_FILES && Matches(a.dir[idx], name) && name in View(a) && View(a)[name] == File(bytes)
    requires off == |bytes| <= |stage|
    ensures Staged(stage, BytesIn(a, idx), off, buf) == bytes + buf && !IsDir(a.dir[idx])
    ensures IsUsed(a.dir[idx]) && CStr(a.dir[idx].name) == name
  {
    TracksContent(a, idx, name, bytes);
    StagedInside(stage, bytes, off, buf);
    assert bytes[..off] == bytes;
  }

  class Files {
    const fs: Alfs
    const stage: array<Byte>

    constructor (fs: Alfs)
      ensures this.fs == fs && stage.Length == STAGE && fresh(stage)
    {
      this.fs := fs;
      stage := new Byte[STAGE];
    }

    ghost predicate Valid()
      reads fs, fs.dir, fs.disk
    {
      fs.Valid() && fs.ready && stage.Length == STAGE && stage != fs.sbuf
    }

    ghost function Tree(): map<Name, Node>
      reads fs.dir, fs.disk
    {
      View(fs.State())
    }

    /** `fd` is at the end of file `name`, which holds `bytes`. */
    ghost predicate Tracks(fd: Fd, name: Name, bytes: seq<Byte>)
      reads fd, fs, fs.dir, fs.disk
    {
      && Valid() && GoodName(name) && 0 <= fd.idx < MAX_FILES && Matches(fs.dir[fd.idx], name)
      && name in Tree() && Tree()[name] == File(bytes) && fd.offset == |bytes|
    }

    /** sys_open_w, for a path already resolved and a descriptor already chosen.  A
        path over 51 bytes is stored cut and then not found. */
    method OpenW(fd: Fd, path: Name, append: bool) returns (ok: bool)
      requires Valid() && NoNul(path)
      modifies fd, fs.disk`bytes, fs.sbuf, fs.dir
      ensures Clean(old(Tree()), AlfsModel.Write(path, [])) ==> Valid()
      ensures append && path in old(Tree()) ==>
                ok && fs.State() == old(fs.State()) &&
                  0 <= fd.idx < MAX_FILES && Matches(fs.dir[fd.idx], path) &&
                  fd.offset == (if old(Tree())[path].File? then |old(Tree())[path].bytes| else 0) &&
                  (old(Tree())[path].File? ==> Tracks(fd, path, old(Tree())[path].bytes))
      ensures !(append && path in old(Tree())) && ok ==>
                Tracks(fd, path, []) && Step(old(fs.State()), AlfsModel.Write(path, []), Done, fs.State())
      ensures !(append && path in old(Tree())) && !ok ==>
                exists o :: (o != Done || !GoodName(path)) &&
                            Step(old(fs.State()), AlfsModel.Write(path, []), o, fs.State())
      ensures !(append && path in old(Tree())) && fs.disk.reliable ==>
                (ok <==> GoodName(path) && !MustRefuse(old(Tree()), AlfsModel.Write(path, [])) &&
                         Room(old(fs.State()), path, 0))
    {
      hide Inv, View, Step, Clean, Key, MustRefuse, Mark, Need, Terminated;
      ghost var a := fs.State();
      InvTerminated(a);
      GoodIsClean(Tree(), AlfsModel.Write(path, []));
      var startOff := 0;
      var fresh_ := !append;
      if append {
        var idx := fs.Find(path);
        if idx >= 0 {
          startOff := fs.dir[idx].size;
          EntrySize(a, idx);
          EntryName(a, idx);
        } else {
          fresh_ := true;
        }
      }
      if fresh_ {
        var slot;
        ghost var o;
        slot, o := fs.Write(path, stage, 0);
        assert stage[..0] == [];
        if GoodName(path) { StepOutcome(a, AlfsModel.Write(path, []), o, fs.State()); }
        if slot < 0 { return false; }
        if !GoodName(path) { LongNotFound(fs.dir[..], path); }
        if GoodName(path) { StepDone(a, AlfsModel.Write(path, []), fs.State()); }
      }
      var idx := fs.Find(path);
      if idx < 0 { return false; }
      fd.idx, fd.offset := idx, startOff;
      ok := true;
    }

    /** file_write at the descriptor's offset, whatever the descriptor refers to. */
    method FileWrite(fd: Fd, buf: seq<Byte>) returns (r: int)
      requires Valid() && fd.offset + |buf| < WORDS
      modifies fd, stage, fs.disk, fs.sbuf, fs.dir
      ensures Valid() && r in {-1, |buf|}
      ensures r == -1 ==> fd.idx == old(fd.idx) && fd.offset == old(fd.offset)
      ensures !old(fs.Has(fd.idx)) || old(fd.offset) + |buf| > 4096 ==> r == -1 && fs.State() == old(fs.State())
      ensures old(fs.Has(fd.idx)) && old(fd.offset) + |buf| <= 4096 ==>
                var a, idx := old(fs.State()), old(fd.idx);
                var name, data := CStr(a.dir[idx].name), Staged(old(stage[..]), BytesIn(a, idx), old(fd.offset), buf);
                && (r == -1 ==>
                   fs.State() == a || exists o :: o != Done && Step(a, AlfsModel.Write(name, data), o, fs.State()))
                && (r != -1 ==> View(fs.State()) == View(a)[name := File(data)] && fd.offset == old(fd.offset) + |buf|)
                && (r != -1 ==> Step(a, AlfsModel.Write(name, data), Done, fs.State()))
                && (r != -1 ==> 0 <= fd.idx < MAX_FILES && Matches(fs.dir[fd.idx], name))
                && (fs.disk.reliable ==>
                      (r != -1 <==> !IsDir(a.dir[idx]) && Room(a, name, |data|)))
    {
      hide Inv, View, Step, Mark, Need, Clean, Key, Staged, CStr, MustRefuse, Terminated, BytesIn, Room;
      ghost var a := fs.State();
      var idx, off := fd.idx, fd.offset;
      if off + |buf| > STAGE { return -1; }
      ghost var st := stage[..];
      var staged := Stage(idx, off, buf);
      if !staged { return -1; }
      ghost var data := Staged(st, BytesIn(a, idx), off, buf);
      var path := CStr(fs.dir[idx].name);
      EntryName(a, idx);
      GoodIsClean(View(a), AlfsModel.Write(path, data));
      var slot;
      ghost var o;
      slot, o := fs.Write(path, stage, off + |buf|);
      WriteOutcome(a, idx, data, o, fs.State());
      RoomIs(a, path, |data|);
      if slot < 0 { return -1; }
      fd.idx := fs.Find(path);
      fd.offset := fd.offset + |buf|;
      r := |buf|;
    }

    /** Stage the file up to the offset and the new bytes behind it. */
    method Stage(idx: int, off: nat, buf: seq<Byte>) returns (ok: bool)
      requires Valid() && off + |buf| <= STAGE
      modifies stage, fs.sbuf, fs.disk`log
      ensures Valid() && fs.State() == old(fs.State())
      ensures ok ==> fs.Has(idx) && stage[..off + |buf|] == Staged(old(stage[..]), BytesIn(fs.State(), idx), off, buf)
      ensures fs.disk.reliable ==> (ok <==> fs.Has(idx))
    {
      hide Inv, Content, SameExcept, Staged;
      ghost var a, st := fs.State(), stage[..];
      ok := false;
      SameSelf(st, 0, 0);
      if off > 0 {
        var got := fs.Pread(idx, stage, 0, off, 0);
        if got < 0 { return; }
        assert stage[..][0..got] == stage[0..got];
      }
      if idx < 0 || idx >= MAX_FILES || !IsUsed(fs.dir[idx]) { return; }
      EntrySize(a, idx);
      StagedIs(st, stage[..], BytesIn(a, idx), off, buf);
      Append(buf, off);
      ok := true;
    }

    /** A program that opens a file with truncation and then writes chunk after
        chunk: as long as the calls succeed the file is their concatenation, and
        nothing else has changed.  On a working drive all of them succeed exactly
        when the path is free or a file, and the whole fits the staging buffer and
        the disk. */
    method WriteAll(fd: Fd, path: Name, chunks: seq<seq<Byte>>) returns (n: int)
      requires Valid() && GoodName(path) && forall i :: 0 <= i < |chunks| ==> |chunks[i]| < WORDS - STAGE
      modifies fd, stage, fs.disk, fs.sbuf, fs.dir
      ensures Valid() && -1 <= n <= |chunks|
      ensures n == |chunks| ==>
              Tracks(fd, path, Concat(chunks)) && Tree() == old(Tree())[path := File(Concat(chunks))] &&
              |Concat(chunks)| <= 4096
      ensures fs.disk.reliable ==>
                (n == |chunks| <==> !MustRefuse(old(Tree()), AlfsModel.Write(path, [])) && |Concat(chunks)| <= 4096 &&
                                    Room(old(fs.State()), path, |Concat(chunks)|))
    {
      hide Step, View, Inv, MustRefuse, Room, Staged, BytesIn, Concat, CStr;
      ghost var s := fs.State();
      var ok := OpenW(fd, path, false);
      ConcatNone(chunks);
      if !ok {
        MoreRoom(s, path, 0, |Concat(chunks)|);
        return -1;
      }
      StepDone(s, AlfsModel.Write(path, []), fs.State());
      SameRoom(s, AlfsModel.Write(path, []), fs.State());
      n := 0;
      while n < |chunks|
        invariant 0 <= n <= |chunks| && Tracks(fd, path, Concat(chunks[..n])) && |Concat(chunks[..n])| <= STAGE
        invariant Tree() == old(Tree())[path := File(Concat(chunks[..n]))]
        invariant forall k :: Room(fs.State(), path, k) <==> Room(s, path, k)
        invariant fs.disk.reliable ==>
                  !MustRefuse(old(Tree()), AlfsModel.Write(path, [])) && Room(s, path, |Concat(chunks[..n])|)
      {
        ghost var a := fs.State();
        ConcatNext(chunks, n);
        Rewrites(a, stage[..], fd.idx, path, Concat(chunks[..n]), fd.offset, chunks[n]);
        var r := FileWrite(fd, chunks[n]);
        if r == -1 {
          MoreRoom(s, path, |Concat(chunks[..n + 1])|, |Concat(chunks)|);
          return;
        }
        SameRoom(a, AlfsModel.Write(path, Concat(chunks[..n + 1])), fs.State());
        n := n + 1;
      }
      assert chunks[..n] == chunks;
    }

    method Append(buf: seq<Byte>, off: nat)
      requires off + |buf| <= stage.Length
      modifies stage
      ensures stage[..off] == old(stage[..off]) && stage[..off + |buf|] == old(stage[..off]) + buf
    {
      for i := 0 to |buf|
        invariant stage[..off] == old(stage[..off]) && stage[off..off + i] == buf[..i]
      {
        stage[off + i] := buf[i];
        assert stage[off..off + i + 1] == stage[off..off + i] + [buf[i]];
      }
      assert stage[..off + |buf|] == stage[..off] + stage[off..off + |buf|];
    }
  }

  lemma StepDone(a: Fs, op: Op, b: Fs)
    requires Inv(a) && op.Write? && GoodName(op.name) && Step(a, op, Done, b)
    ensures View(b) == View(a)[op.name := File(op.bytes)] && Key(op.name) == op.name
  {
    NameKept(op.name);
    StepRefines(a, op, Done, b);
  }

  lemma StepOutcome(a: Fs, op: Op, o: Outcome, b: Fs)
    requires Inv(a) && op.Write? && GoodName(op.name) && Step(a, op, o, b)
    ensures o == Refused <==> MustRefuse(View(a), op)
    ensures |b.disk| == |a.disk|
  {
    hide Inv, View, MustRefuse, Step;
    StepRefines(a, op, o, b);
    StepLength(a, op, o, b);
  }

  lemma StepLength(a: Fs, op: Op, o: Outcome, b: Fs)
    requires op.Write? && Step(a, op, o, b)
    ensures |b.disk| == |a.disk|
  {
    hide Stops, Drop, Mark, Need, SlotOf, NewEntry, Content, Flushed;
  }

  /** What a write to the name of a used entry comes to. */
  lemma WriteOutcome(a: Fs, idx: nat, data: seq<Byte>, o: Outcome, b: Fs)
    requires Inv(a) && idx < MAX_FILES && IsUsed(a.dir[idx]) &&
             Step(a, AlfsModel.Write(CStr(a.dir[idx].name), data), o, b)
    ensures (o == Refused <==> IsDir(a.dir[idx])) && |b.disk| == |a.disk| && Inv(b)
    ensures o == Done ==> View(b) == View(a)[CStr(a.dir[idx].name) := File(data)]
    ensures Key(CStr(a.dir[idx].name)) == CStr(a.dir[idx].name)
  {
    InvLength(a);
    hide Inv, View, Step, CStr, PadName, After, Clean, MustRefuse;
    var op := AlfsModel.Write(CStr(a.dir[idx].name), data);
    EntryName(a, idx);
    NameKept(op.name);
    RefusedIfDir(a, idx, data, o, b);
    StepLength(a, op, o, b);
    GoodIsClean(View(a), op);
    StepRefines(a, op, o, b);
    if o == Done { StepDone(a, op, b); }
  }

  lemma RoomIs(s: Fs, name: Name, size: nat)
    ensures Room(s, name, size) <==> 512 * (Mark(s, name) + Need(size)) <= |s.disk|
  {
  }

  /** A name of at most 51 bytes is stored whole. */
  lemma GoodIsClean(m: map<Name, Node>, op: Op)
    requires !op.Remount?
    ensures GoodName(op.name) ==> Clean(m, op)
  {
  }

  lemma TracksContent(s: Fs, idx: nat, name: Name, bytes: seq<Byte>)
    requires Inv(s) && idx < MAX_FILES && Matches(s.dir[idx], name) && name in View(s) && View(s)[name] == File(bytes)
    ensures BytesIn(s, idx) == bytes && s.dir[idx].size == |bytes| && !IsDir(s.dir[idx])
  {
    ViewAt(s, idx);
    EntrySize(s, idx);
  }

  lemma EntryName(s: Fs, idx: nat)
    requires Inv(s) && idx < MAX_FILES && IsUsed(s.dir[idx])
    ensures GoodName(CStr(s.dir[idx].name))
  {
    assert Named(s.dir[idx]);
  }

  /** Writing to the name of a used entry is refused exactly for a directory. */
  lemma RefusedIfDir(a: Fs, idx: nat, data: seq<Byte>, o: Outcome, b: Fs)
    requires Inv(a) && idx < MAX_FILES && IsUsed(a.dir[idx]) &&
             Step(a, AlfsModel.Write(CStr(a.dir[idx].name), data), o, b)
    ensures o == Refused <==> IsDir(a.dir[idx])
  {
    EntryName(a, idx);
    hide Inv, View, Step;
    ViewAt(a, idx);
    StepRefines(a, AlfsModel.Write(CStr(a.dir[idx].name), data), o, b);
  }

  lemma StagedIs(stage: seq<Byte>, now: seq<Byte>, content: seq<Byte>, off: nat, buf: seq<Byte>)
    requires off <= |stage| && SameExcept(stage, now, 0, Avail(|content|, 0, off))
    requires off > 0 && content != [] ==> now[0..Avail(|content|, 0, off)] == content[0..Avail(|content|, 0, off)]
    ensures |now| == |stage| && now[..off] + buf == Staged(stage, content, off, buf)
  {
    var n := Min(off, |content|);
    assert now[..n] == content[..n];
    assert now[n..off] == stage[n..off];
    assert now[..off] == now[..n] + now[n..off];
  }
}
