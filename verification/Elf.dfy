/** elf_load of kernel/elf.c: the program headers of a file on AliFS become pages
    of a user address space. */
module Elf {
  import opened ByteSeq
  import opened Pmm
  import opened Cow
  import opened Sets
  import Uvm
  import AlfsModel
  import Alfs

  const USER_START: nat := 0x0800_0000
  const USER_END: nat := 0xC000_0000

  /** A PT_LOAD program header. */
  datatype Seg = Seg(offset: nat, vaddr: nat, filesz: nat, memsz: nat, write: bool)

  // ------------------------------------------------------------------
  // What a segment describes

  /** The byte at user address `va`: from the file inside the file part, 0 elsewhere. */
  ghost function SegByte(seg: Seg, content: seq<Byte>, va: nat): Byte {
    if seg.vaddr <= va < seg.vaddr + seg.filesz && seg.offset + (va - seg.vaddr) < |content|
    then content[seg.offset + (va - seg.vaddr)] else 0
  }

  ghost function SegPage(seg: Seg, content: seq<Byte>, vp: nat): (b: seq<Byte>)
    ensures |b| == PAGE_SIZE && forall i :: 0 <= i < PAGE_SIZE ==> b[i] == SegByte(seg, content, 4096 * vp + i)
  {
    seq<Byte>(PAGE_SIZE, (i: nat) => SegByte(seg, content, 4096 * vp + i))
  }

  ghost function FirstPage(seg: Seg): nat { seg.vaddr / 4096 }

  ghost function EndPage(seg: Seg): nat { (seg.vaddr + seg.memsz + 4095) / 4096 }

  ghost function SegPages(seg: Seg, content: seq<Byte>, hi: nat): map<int, Page> {
    map vp: int | FirstPage(seg) <= vp < hi :: Page(SegPage(seg, content, vp), seg.write)
  }

  /** The segment lies below the kernel, and no sum wraps around 32 bits. */
  ghost predicate SegOk(seg: Seg) {
    seg.vaddr + seg.memsz <= USER_END && seg.vaddr + seg.filesz < WORDS && seg.offset + seg.filesz < WORDS
  }

  function Half(b: seq<Byte>, at: nat): nat
    requires at + 2 <= |b|
  {
    var lo: int, hi: int := b[at], b[at + 1]; lo + 256 * hi
  }

  /** A 32-bit i386 executable with one to eight program headers. */
  predicate HeaderOk(b: seq<Byte>)
    requires |b| >= 52
  {
    && b[0] == 0x7F && b[1] == 0x45 && b[2] == 0x4C && b[3] == 0x46 && b[4] == 1
    && Half(b, 16) == 2 && Half(b, 18) == 3 && Half(b, 42) == 32 && 0 < Half(b, 44) <= 8
  }

  /** The program header at `at` is a PT_LOAD with a size. */
  predicate IsLoad(b: seq<Byte>, at: nat)
    requires at + 32 <= |b|
  {
    Word(b, at) == 1 && Word(b, at + 20) != 0
  }

  function SegAt(b: seq<Byte>, at: nat): Seg
    requires at + 32 <= |b|
  {
    Seg(Word(b, at + 4), Word(b, at + 8), Word(b, at + 16), Word(b, at + 20), Word(b, at + 24) / 2 % 2 == 1)
  }

  // ------------------------------------------------------------------
  // The same by the bytes of the file

  /** The header of a 32-bit i386 executable with one to eight program headers of 32
      bytes, byte by byte. */
  ghost predicate Executable(s: seq<Byte>) {
    && |s| >= 52 && s[..5] == [0x7F, 0x45, 0x4C, 0x46, 1]
    && s[16..20] == [2, 0, 3, 0] && s[42..44] == [32, 0] && 1 <= s[44] <= 8 && s[45] == 0
  }

  /** Program header i of the table is a PT_LOAD with memory. */
  ghost predicate PtLoad(table: seq<Byte>, i: int) {
    0 <= i && 32 * i + 32 <= |table| && Word(table, 32 * i) == 1 && Word(table, 32 * i + 20) != 0
  }

  /** Page vp meets the memory [p_vaddr, p_vaddr + p_memsz) of program header i, a PT_LOAD. */
  ghost predicate Meets(table: seq<Byte>, i: nat, vp: int) {
    && PtLoad(table, i)
    && Word(table, 32 * i + 8) < 4096 * (vp + 1)
    && 4096 * vp < Word(table, 32 * i + 8) + Word(table, 32 * i + 20)
  }

  /** The memory of every PT_LOAD starts between the identity map and the kernel. */
  ghost predicate StartInUser(table: seq<Byte>, count: nat) {
    forall i :: i < count && PtLoad(table, i) ==> 0x0800_0000 <= Word(table, 32 * i + 8) < 0xC000_0000
  }

  /** The memory of every PT_LOAD that starts there ends below the kernel, and the ends
      of its file part do not wrap around 32 bits. */
  ghost predicate Bounded(table: seq<Byte>, count: nat) {
    forall i :: i < count && PtLoad(table, i) && 0x0800_0000 <= Word(table, 32 * i + 8) < 0xC000_0000 ==>
      && Word(table, 32 * i + 8) + Word(table, 32 * i + 20) <= 0xC000_0000
      && Word(table, 32 * i + 8) + Word(table, 32 * i + 16) < 0x1_0000_0000
      && Word(table, 32 * i + 4) + Word(table, 32 * i + 16) < 0x1_0000_0000
  }

  /** The space has exactly the pages of the first n program headers.  Program header i
      gives a page that no later one meets its bytes, from p_offset on for p_filesz
      bytes and 0 elsewhere, and its write permission. */
  ghost predicate Loaded(table: seq<Byte>, content: seq<Byte>, n: nat, space: map<int, Page>) {
    && (forall vp :: vp in space <==> exists i :: 0 <= i < n && Meets(table, i, vp))
    && forall i: nat, vp :: i < n && Meets(table, i, vp) && (forall j :: i < j < n ==> !Meets(table, j, vp)) ==>
         PageOf(table, content, i, vp, space)
  }

  ghost predicate PageOf(table: seq<Byte>, content: seq<Byte>, i: nat, vp: int, space: map<int, Page>)
    requires 32 * i + 32 <= |table|
  {
    && vp in space && |space[vp].bytes| == 4096
    && (space[vp].writable <==> Word(table, 32 * i + 24) / 2 % 2 == 1)
    && var offset, vaddr, filesz := Word(table, 32 * i + 4), Word(table, 32 * i + 8), Word(table, 32 * i + 16);
       forall k :: 0 <= k < 4096 ==>
         var x := 4096 * vp + k - vaddr;
         space[vp].bytes[k] == if 0 <= x < filesz && offset + x < |content| then content[offset + x] else 0
  }

  lemma HeaderMeans(s: seq<Byte>)
    requires |s| >= 52
    ensures HeaderOk(s) <==> Executable(s)
    ensures HeaderOk(s) ==> Half(s, 44) == s[44]
  {
    assert s[..5] == [s[0], s[1], s[2], s[3], s[4]] && s[16..20] == [s[16], s[17], s[18], s[19]];
    assert s[42..44] == [s[42], s[43]];
  }

  predicate InUser(seg: Seg) { USER_START <= seg.vaddr < USER_END }

  /** A buffer after alfs_pread of `len` bytes at `off`: what the file does not have
      stays as it was. */
  ghost function Seen(buf: seq<Byte>, content: seq<Byte>, off: nat, len: nat): (r: seq<Byte>)
    requires len <= |buf|
    ensures |r| == |buf|
  {
    var n := Alfs.Avail(|content|, off, len);
    if n == 0 then buf else content[off..off + n] + buf[n..]
  }

  /** A file of at least 52 bytes is judged by its own header. */
  lemma SeenHeader(buf: seq<Byte>, content: seq<Byte>)
    requires |buf| == 512 && |content| >= 52
    ensures var s := Seen(buf, content, 0, 512);
            s[..52] == content[..52] && (HeaderOk(s) <==> Executable(content)) && Word(s, 24) == Word(content, 24) &&
              Word(s, 28) == Word(content, 28)
  {
    var s := Seen(buf, content, 0, 512);
    assert s[..52] == content[..52];
    HeaderSame(s, content);
    HeaderMeans(content);
  }

  /** Program headers inside the file are seen as they are. */
  lemma SeenTable(buf: seq<Byte>, content: seq<Byte>, t: nat, n: nat, i: nat)
    requires |buf| == 256 && i < n <= 8 && t + 32 * n <= |content|
    ensures var s := Seen(buf, content, t, 32 * n);
            forall k :: 0 <= k < 32 && k % 4 == 0 ==> Word(s, 32 * i + k) == Word(content, t + 32 * i + k)
  {
    var s := Seen(buf, content, t, 32 * n);
    assert s[..32 * n] == content[t..t + 32 * n];
    hide Word, Seen;
    forall k | 0 <= k < 32 && k % 4 == 0 ensures Word(s, 32 * i + k) == Word(content, t + 32 * i + k) {
      SameWord(s, content, t, n, 32 * i + k);
    }
  }

  /** An empty file, or a directory, is judged by the headers of the program that
      was read before it. */
  lemma SeenNothing(buf: seq<Byte>, off: nat, len: nat)
    requires len <= |buf|
    ensures Seen(buf, [], off, len) == buf
  {
  }

  /** Program header `i` of the table describes a segment. */
  ghost predicate Loads(table: seq<Byte>, i: nat) {
    32 * i + 32 <= |table| && IsLoad(table, 32 * i)
  }

  ghost function SegNo(table: seq<Byte>, i: nat): Seg
    requires Loads(table, i)
  {
    SegAt(table, 32 * i)
  }

  /** Every segment starts in the user range. */
  ghost predicate AllInUser(table: seq<Byte>, count: nat) {
    forall i :: 0 <= i < count && Loads(table, i) ==> InUser(SegNo(table, i))
  }

  /** The address space that the first `n` program headers describe. */
  ghost function Image(table: seq<Byte>, content: seq<Byte>, n: nat): map<int, Page> {
    if n == 0 then map[]
    else if Loads(table, n - 1)
    then Image(table, content, n - 1) + SegPages(SegNo(table, n - 1), content, EndPage(SegNo(table, n - 1)))
    else Image(table, content, n - 1)
  }

  ghost predicate Covers(table: seq<Byte>, i: nat, vp: int) {
    Loads(table, i) && FirstPage(SegNo(table, i)) <= vp < EndPage(SegNo(table, i))
  }

  /** Exactly the pages of the segments are there. */
  lemma {:induction false} ImageKeys(table: seq<Byte>, content: seq<Byte>, n: nat, vp: int)
    ensures vp in Image(table, content, n) <==> exists i :: 0 <= i < n && Covers(table, i, vp)
  {
    hide SegPage, Loads, SegNo;
    if n > 0 {
      ImageKeys(table, content, n - 1, vp);
      if Covers(table, n - 1, vp) { assert vp in Image(table, content, n); }
    }
  }

  /** Each page is there as the last segment that covers it describes it. */
  lemma {:induction false} ImagePage(table: seq<Byte>, content: seq<Byte>, n: nat, i: nat, vp: int)
    requires i < n && Covers(table, i, vp) && forall j :: i < j < n ==> !Covers(table, j, vp)
    ensures vp in Image(table, content, n)
    ensures Image(table, content, n)[vp] == Page(SegPage(SegNo(table, i), content, vp), SegNo(table, i).write)
    decreases n
  {
    hide SegPage, Loads, SegNo;
    if i < n - 1 {
      ImagePage(table, content, n - 1, i, vp);
      assert !Covers(table, n - 1, vp);
    }
  }

  /** So every byte of it is the file byte inside the file part of that segment and
      0 elsewhere: nothing is left of an earlier segment on the same page. */
  lemma ImageByte(table: seq<Byte>, content: seq<Byte>, n: nat, i: nat, va: nat)
    requires i < n && Covers(table, i, va / 4096) && forall j :: i < j < n ==> !Covers(table, j, va / 4096)
    ensures var seg, image := SegNo(table, i), Image(table, content, n);
            va / 4096 in image && |image[va / 4096].bytes| == PAGE_SIZE && image[va / 4096].writable == seg.write &&
            image[va / 4096].bytes[va % 4096] ==
            if seg.vaddr <= va < seg.vaddr + seg.filesz && seg.offset + (va - seg.vaddr) < |content|
            then content[seg.offset + (va - seg.vaddr)] else 0
  {
    ImagePage(table, content, n, i, va / 4096);
    PageByte(SegNo(table, i), content, va);
    hide Loads, SegNo, Image, SegPage;
  }

  /** So the image is what the words of the table describe. */
  lemma ImageLoaded(table: seq<Byte>, content: seq<Byte>, n: nat)
    ensures Loaded(table, content, n, Image(table, content, n))
  {
    var space := Image(table, content, n);
    hide Covers, Meets, Image, Word, PageOf;
    forall i: nat, vp ensures Covers(table, i, vp) <==> Meets(table, i, vp) { CoversMeets(table, i, vp); }
    forall vp ensures vp in space <==> exists i :: 0 <= i < n && Meets(table, i, vp) {
      ImageKeys(table, content, n, vp);
    }
    forall i: nat, vp | i < n && Meets(table, i, vp) && (forall j :: i < j < n ==> !Meets(table, j, vp))
      ensures 32 * i + 32 <= |table| && PageOf(table, content, i, vp, space)
    {
      ImageWords(table, content, n, i, vp);
    }
  }

  lemma UserStart(table: seq<Byte>, n: nat)
    ensures AllInUser(table, n) <==> StartInUser(table, n)
  {
    hide Word;
    assert forall i: nat :: Loads(table, i) <==> PtLoad(table, i);
    hide PtLoad, IsLoad;
  }

  lemma CoversMeets(table: seq<Byte>, i: nat, vp: int)
    ensures Covers(table, i, vp) <==> Meets(table, i, vp)
  {
    hide Word;
  }

  lemma ImageWords(table: seq<Byte>, content: seq<Byte>, n: nat, i: nat, vp: int)
    requires i < n && Covers(table, i, vp) && forall j :: i < j < n ==> !Covers(table, j, vp)
    ensures 32 * i + 32 <= |table| && PageOf(table, content, i, vp, Image(table, content, n))
  {
    ImagePage(table, content, n, i, vp);
    hide Image, Word;
  }

  lemma PageByte(seg: Seg, content: seq<Byte>, va: nat)
    ensures SegPage(seg, content, va / 4096)[va % 4096] == SegByte(seg, content, va)
  {
    assert 4096 * (va / 4096) + va % 4096 == va;
  }

  // ------------------------------------------------------------------
  // A page allocated, filled and mapped

  lemma FillStep(a: Uvm.Phys, f: nat, bytes: seq<Byte>, m: Uvm.Phys)
    requires Uvm.PhysInv(a) && f in a.pm.free && f < PAGES_MAX && |bytes| == PAGE_SIZE
    requires m == a.(pm := Take(a.pm, f), mem := a.mem[f := Bytes(bytes)])
    ensures Uvm.PhysInv(m) && View(Uvm.Flatten(m)) == View(Uvm.Flatten(a)) &&
            Uvm.Flatten(m).spaces == Uvm.Flatten(a).spaces
    ensures f != 0 && f !in m.pm.free && m.pm.refs[f] == 1 && Mappers(Uvm.Flatten(m).spaces, f) == {}
  {
    FreeIsNoTable(a, f);
    FillTables(a, f, bytes, m);
    NoMappers(a, f);
    hide Uvm.Tables, Inv, Uvm.SpaceOf, View, EagerStep, Mappers;
    var fl := Uvm.Flatten(a);
    assert Step(fl, Alloc(f, bytes), Uvm.Flatten(m));
    StepInv(fl, Alloc(f, bytes), Uvm.Flatten(m));
    StepRefines(fl, Alloc(f, bytes), Uvm.Flatten(m));
    assert EagerStep(View(fl), Alloc(f, bytes)) == View(fl) by { EagerAlloc(View(fl), f, bytes); }
  }

  lemma EagerAlloc(e: Eager, f: int, bytes: seq<Byte>)
    ensures EagerStep(e, Alloc(f, bytes)) == e
  {
  }

  lemma FreeIsNoTable(a: Uvm.Phys, f: int)
    requires Uvm.Tables(a) && f in a.pm.free
    ensures f !in a.dirs && f !in a.tabs && f != 0
  {
    if f in a.dirs || f in a.tabs { Uvm.TableNotFree(a, f); }
  }

  lemma FillTables(a: Uvm.Phys, f: nat, bytes: seq<Byte>, m: Uvm.Phys)
    requires Uvm.Tables(a) && f in a.pm.free && f < PAGES_MAX && f !in a.dirs && f !in a.tabs
    requires m == a.(pm := Take(a.pm, f), mem := a.mem[f := Bytes(bytes)])
    ensures Uvm.Tables(m) && Uvm.Flatten(m).spaces == Uvm.Flatten(a).spaces
  {
    Uvm.StoreData(a, f, Bytes(bytes));
    var s := a.(mem := a.mem[f := Bytes(bytes)]);
    forall t | t in s.dirs || t in s.tabs
      ensures 0 <= t < PAGES_MAX && t !in Take(a.pm, f).free && Take(a.pm, f).refs[t] == 1
    {
      assert Uvm.TableFrame(s, t);
    }
    Uvm.ChangePm(s, Take(a.pm, f));
  }

  lemma NoMappers(a: Uvm.Phys, f: nat)
    requires Uvm.PhysInv(a) && f in a.pm.free
    ensures Mappers(Uvm.Flatten(a).spaces, f) == {}
  {
    var fl := Uvm.Flatten(a);
    hide Uvm.Tables, Uvm.SpaceOf;
    forall d, vp | d in fl.spaces && vp in fl.spaces[d] ensures fl.spaces[d][vp].frame != f {
      assert PteOk(fl, vp, fl.spaces[d][vp]);
    }
  }

  /** Every frame of directory d has one reference. */
  ghost predicate Private(s: Uvm.Phys, d: int)
    requires WellFormed(s.pm)
  {
    forall vp :: vp in Uvm.SpaceOf(s.mem, d) ==>
      0 <= Uvm.SpaceOf(s.mem, d)[vp].frame < PAGES_MAX && s.pm.refs[Uvm.SpaceOf(s.mem, d)[vp].frame] == 1
  }

  /** So each of its entries is its frame's only one. */
  lemma PrivateReplaceable(s: Uvm.Phys, d: int, vp: int)
    requires Uvm.PhysInv(s) && d in s.dirs && Private(s, d)
    ensures d in Uvm.Flatten(s).spaces && Replaceable(Uvm.Flatten(s).spaces, d, vp)
  {
    var fl := Uvm.Flatten(s);
    assert fl.spaces[d] == Uvm.SpaceOf(s.mem, d);
    hide Uvm.Tables, Uvm.SpaceOf, Mappers;
    if vp in fl.spaces[d] {
      var f := fl.spaces[d][vp].frame;
      MappersMember(fl.spaces, f, (d, vp));
      CardOne(Mappers(fl.spaces, f), (d, vp));
    }
  }

  lemma CardOne<T>(s: set<T>, x: T)
    requires x in s && |s| == 1
    ensures s == {x}
  {
    CardRemove(s, x);
    assert |s - {x}| == 0;
  }

  lemma PrivateFilled(a: Uvm.Phys, d: int, f: nat, bytes: seq<Byte>, m: Uvm.Phys)
    requires Uvm.PhysInv(a) && d in a.dirs && f in a.pm.free && f < PAGES_MAX && Private(a, d)
    requires WellFormed(m.pm) && m == a.(pm := Take(a.pm, f), mem := a.mem[f := Bytes(bytes)])
    requires Uvm.Flatten(m).spaces == Uvm.Flatten(a).spaces
    ensures Private(m, d)
  {
    var fl := Uvm.Flatten(a);
    assert fl.spaces[d] == Uvm.SpaceOf(a.mem, d) && Uvm.Flatten(m).spaces[d] == Uvm.SpaceOf(m.mem, d);
    hide Uvm.Tables, Uvm.SpaceOf;
    forall vp | vp in fl.spaces[d] ensures fl.spaces[d][vp].frame != f { assert PteOk(fl, vp, fl.spaces[d][vp]); }
  }

  lemma PrivateMapped(m: Uvm.Phys, d: int, vp: int, f: nat, w: bool, b: Uvm.Phys)
    requires Uvm.PhysInv(m) && Private(m, d) && WellFormed(b.pm) && Uvm.MapRel(m, d, vp, Pte(f, w, true, false), b)
    requires f < PAGES_MAX && f !in m.pm.free && m.pm.refs[f] == 1
    ensures Private(b, d)
  {
    var fl := Uvm.Flatten(m);
    assert fl.spaces[d] == Uvm.SpaceOf(m.mem, d) && Uvm.Flatten(b).spaces[d] == Uvm.SpaceOf(b.mem, d);
    hide Uvm.Tables, Uvm.SpaceOf;
    forall q | q in fl.spaces[d] ensures fl.spaces[d][q].frame !in m.pm.free { assert PteOk(fl, q, fl.spaces[d][q]); }
  }

  lemma PrivateEmpty(s: Uvm.Phys, d: int)
    requires WellFormed(s.pm) && d in s.dirs && d in View(Uvm.Flatten(s)) && View(Uvm.Flatten(s))[d] == map[]
    ensures Private(s, d)
  {
    assert Uvm.Flatten(s).spaces[d] == Uvm.SpaceOf(s.mem, d);
    assert View(Uvm.Flatten(s))[d].Keys == Uvm.SpaceOf(s.mem, d).Keys;
  }

  lemma MapStep(m: Uvm.Phys, d: int, vp: int, f: nat, w: bool, b: Uvm.Phys)
    requires Uvm.PhysInv(m) && WellFormed(b.pm) && Uvm.MapRel(m, d, vp, Pte(f, w, true, false), b) && Private(m, d)
    requires USER_LO <= vp < USER_HI && 0 < f < PAGES_MAX && f !in m.pm.free && m.pm.refs[f] == 1
    requires Mappers(Uvm.Flatten(m).spaces, f) == {} && m.mem[f].Bytes? && |m.mem[f].b| == PAGE_SIZE
    requires d in View(Uvm.Flatten(m))
    ensures Uvm.PhysInv(b) && Private(b, d)
    ensures View(Uvm.Flatten(b)) == View(Uvm.Flatten(m))[d := View(Uvm.Flatten(m))[d][vp := Page(m.mem[f].b, w)]]
  {
    PrivateReplaceable(m, d, vp);
    PrivateMapped(m, d, vp, f, w, b);
    var fm, fb := Uvm.Flatten(m), Uvm.Flatten(b);
    var op := Map(d, vp, f, m.mem[f].b, w, Uvm.Owned(b, d) - Uvm.Owned(m, d));
    hide Uvm.Tables, Inv, Uvm.SpaceOf, Mappers, Private, Replaceable, View;
    Uvm.MapIsStep(m, d, vp, f, w, b);
    StepRefines(fm, op, fb);
  }

  // ------------------------------------------------------------------
  // The loader

  class Loader {
    const vm: Uvm.Vm
    const fs: Alfs.Alfs
    const hdr: array<Byte> // hdr_buf
    const ph: array<Byte>  // ph_buf

    constructor (vm: Uvm.Vm, fs: Alfs.Alfs)
      ensures this.vm == vm && this.fs == fs && hdr.Length == 512 && ph.Length == 256 && fresh(hdr) && fresh(ph) &&
              hdr != ph
    {
      this.vm, this.fs := vm, fs;
      hdr := new Byte[512];
      ph := new Byte[256];
    }

    ghost predicate Valid()
      reads vm, vm.pm, vm.pm.bitmap, vm.pm.pageRefs, fs, fs.dir, fs.disk
    {
      && hdr.Length == 512 && ph.Length == 256 && hdr != ph && hdr != fs.sbuf && ph != fs.sbuf
      && {vm.pm.pageRefs as object} !! {fs.sbuf, hdr, ph}
      && vm.Valid() && Uvm.PhysInv(vm.S()) && fs.Valid() && fs.ready
    }

    ghost function Users(): Eager
      requires vm.pm.Valid()
      reads vm, vm.pm, vm.pm.bitmap, vm.pm.pageRefs
    {
      View(vm.F())
    }

    /** File `idx` holds `content`. */
    ghost predicate Holds(idx: int, content: seq<Byte>)
      requires fs.dir.Length == AlfsModel.MAX_FILES
      reads fs, fs.dir, fs.disk
    {
      fs.Has(idx) && AlfsModel.Content(fs.disk.bytes, fs.dir[idx].start, fs.dir[idx].size) == content &&
        |content| == fs.dir[idx].size
    }

    /** A zeroed page with the file bytes that fall on it. */
    method FillPage(seg: Seg, va: nat, idx: int, ghost content: seq<Byte>) returns (ok: bool, page: array<Byte>)
      requires fs.Valid() && fs.ready && Holds(idx, content) && SegOk(seg) && va % 4096 == 0 && va < USER_END
      modifies fs.sbuf, fs.disk`log
      ensures fresh(page) && page.Length == PAGE_SIZE
      ensures ok ==> page[..] == SegPage(seg, content, va / 4096)
      ensures fs.disk.reliable ==> ok
    {
      hide AlfsModel.Inv, AlfsModel.Content, SegPage, SegByte, SameExcept, Alfs.ReadsOnly;
      page := new Byte[PAGE_SIZE](_ => 0);
      ghost var zero := page[..];
      var lo := if va > seg.vaddr then va else seg.vaddr;
      var hi := if va + 4096 < seg.vaddr + seg.filesz then va + 4096 else seg.vaddr + seg.filesz;
      if lo < hi {
        var off := seg.offset + (lo - seg.vaddr);
        var n := fs.Pread(idx, page, lo - va, hi - lo, off);
        if n < 0 { return false, page; }
        FilledPage(seg, content, va, zero, page[..], lo, hi, n);
      } else {
        EmptyPage(seg, content, va, page[..], lo, hi);
      }
      ok := true;
    }

    /** One page of a segment: allocated, filled from the file and mapped. */
    method LoadPage(d: nat, seg: Seg, va: nat, idx: int, ghost content: seq<Byte>) returns (ok: bool)
      requires Valid() && Holds(idx, content) && SegOk(seg) && va % 4096 == 0 && USER_START <= va < USER_END
      requires d in vm.dirs && d in Users() && Private(vm.S(), d)
      modifies vm`mem, vm`tabs, vm.pm`freeCount, vm.pm.bitmap, vm.pm.pageRefs, fs.sbuf, fs.disk`log
      ensures Valid() && vm.dirs == old(vm.dirs) && Holds(idx, content) && Private(vm.S(), d)
      ensures Users() == if ok
              then old(Users())[d := old(Users())[d][va / 4096 := Page(SegPage(seg, content, va / 4096), seg.write)]]
              else old(Users())
      ensures !ok && fs.disk.reliable ==> vm.pm.Free() == {}
    {
      hide AlfsModel.Inv, AlfsModel.Content, SegPage, Uvm.Tables, Inv, Uvm.MapRel, View, Uvm.SpaceOf, Private,
        WellFormed, Take, Uvm.WordAt, Uvm.AllMapKernel;
      ghost var a := vm.S();
      FreeFrames(a);
      var phys := vm.pm.Alloc();
      if phys == 0 { return false; }
      var f := phys / 4096;
      var filled, page := FillPage(seg, va, idx, content);
      Uvm.KernelKeptFree(a, vm.kernelDir, f, Bytes(page[..]));
      vm.mem := vm.mem[f := Bytes(page[..])];
      ghost var m := vm.S();
      FillStep(a, f, page[..], m);
      PrivateFilled(a, d, f, page[..], m);
      if !filled { return false; }
      var flags := if seg.write then Uvm.PAGE_USER + Uvm.PAGE_WRITE else Uvm.PAGE_USER;
      FlagBits(seg.write);
      ok := vm.MapPage(d, va, phys, flags);
      if ok { MapStep(m, d, va / 4096, f, seg.write, vm.S()); }
    }

    /** The page loop of one segment. */
    method LoadSegment(d: nat, seg: Seg, idx: int, ghost content: seq<Byte>) returns (ok: bool)
      requires Valid() && Holds(idx, content) && SegOk(seg) && InUser(seg) && d in vm.dirs && d in Users()
      requires Private(vm.S(), d)
      modifies vm`mem, vm`tabs, vm.pm`freeCount, vm.pm.bitmap, vm.pm.pageRefs, fs.sbuf, fs.disk`log
      ensures Valid() && vm.dirs == old(vm.dirs) && Holds(idx, content) && OnlyChanges(old(Users()), Users(), d)
      ensures Private(vm.S(), d)
      ensures ok ==> Users() == old(Users())[d := old(Users())[d] + SegPages(seg, content, EndPage(seg))]
      ensures !ok && fs.disk.reliable ==> vm.pm.Free() == {}
    {
      hide AlfsModel.Inv, AlfsModel.Content, SegPage, SegPages, Uvm.Tables, Inv, Uvm.PhysInv, View, Uvm.SpaceOf;
      ghost var e := Users();
      var vp, end := seg.vaddr / 4096, (seg.vaddr + seg.memsz + 4095) / 4096;
      NoPages(seg, content, e, d);
      while vp < end
        invariant FirstPage(seg) <= vp <= end && Valid() && vm.dirs == old(vm.dirs) && Holds(idx, content)
        invariant Private(vm.S(), d)
        invariant Users() == e[d := e[d] + SegPages(seg, content, vp)]
      {
        NextPage(seg, content, e[d], vp);
        ok := LoadPage(d, seg, 4096 * vp, idx, content);
        if !ok { return; }
        Overwrite(e, d, e[d] + SegPages(seg, content, vp), Users()[d]);
        vp := vp + 1;
      }
      ok := true;
    }

    /** The segment loop of elf_load over the program headers in `ph`. */
    method LoadAll(d: nat, idx: int, ghost content: seq<Byte>, n: nat) returns (ok: bool)
      requires Valid() && Holds(idx, content) && n <= 8 && Bounded(ph[..], n)
      requires d in vm.dirs && d in Users() && Users()[d] == map[]
      modifies vm`mem, vm`tabs, vm.pm`freeCount, vm.pm.bitmap, vm.pm.pageRefs, fs.sbuf, fs.disk`log
      ensures Valid() && OnlyChanges(old(Users()), Users(), d)
      ensures ok ==> Users() == old(Users())[d := Image(ph[..], content, n)] && AllInUser(ph[..], n)
      ensures !ok && fs.disk.reliable ==> vm.pm.Free() == {} || !AllInUser(ph[..], n)
    {
      hide AlfsModel.Inv, AlfsModel.Content, SegPages, Uvm.Tables, Inv, Uvm.PhysInv, View, Uvm.SpaceOf, Bounded,
        IsLoad, SegAt;
      ghost var e, table := Users(), ph[..];
      PrivateEmpty(vm.S(), d);
      assert e[d := Image(table, content, 0)] == e;
      for i := 0 to n
        invariant Valid() && vm.dirs == old(vm.dirs) && Holds(idx, content) && ph[..] == table
        invariant Private(vm.S(), d)
        invariant Users() == e[d := Image(table, content, i)] && AllInUser(table, i)
      {
        if IsLoad(ph[..], 32 * i) {
          var seg := SegAt(ph[..], 32 * i);
          assert Loads(table, i) && SegNo(table, i) == seg;
          if !InUser(seg) { return false; }
          SegBound(table, n, i);
          ok := LoadSegment(d, seg, idx, content);
          if !ok { return; }
          Overwrite(e, d, Image(table, content, i), Users()[d]);
        }
      }
      ok := true;
    }

    /** Read and check the file header, then read the program headers. */
    method ReadHeaders(idx: int, ghost content: seq<Byte>) returns (ok: bool, entry: nat, phnum: nat)
      requires Valid() && Holds(idx, content)
      modifies hdr, ph, fs.sbuf, fs.disk`log
      ensures var s := Seen(old(hdr[..]), content, 0, 512);
              ok ==>
                Executable(s) && entry == Word(s, 24) && phnum == s[44] &&
                ph[..] == Seen(old(ph[..]), content, Word(s, 28), 32 * phnum)
      ensures fs.disk.reliable ==> (ok <==> Executable(Seen(old(hdr[..]), content, 0, 512)))
      ensures ok || fs.disk.reliable ==>
                hdr[..] == Seen(old(hdr[..]), content, 0, 512) && (!ok ==> ph[..] == old(ph[..]))
    {
      hide AlfsModel.Inv, AlfsModel.Content, HeaderOk, SameExcept, Alfs.ReadsOnly, Uvm.PhysInv, Uvm.Tables, Seen;
      ok, entry, phnum := false, 0, 0;
      ghost var h, p := hdr[..], ph[..];
      var got := fs.Pread(idx, hdr, 0, 512, 0);
      if got < 0 { return; }
      SeenIs(h, content, 0, 512, hdr[..]);
      HeaderMeans(hdr[..]);
      if !HeaderOk(hdr[..]) { return; }
      entry := Word(hdr[..], 24);
      var phoff := Word(hdr[..], 28);
      phnum := Half(hdr[..], 44);
      got := fs.Pread(idx, ph, 0, 32 * phnum, phoff);
      if got < 0 { return; }
      SeenIs(p, content, phoff, 32 * phnum, ph[..]);
      ok := true;
    }

    /** The header and the program headers that elf_load sees, and whether the
        segments they describe do not wrap or reach the kernel. */
    ghost predicate Sane(content: seq<Byte>)
      requires hdr.Length == 512 && ph.Length == 256
      reads hdr, ph
    {
      var s := Seen(hdr[..], content, 0, 512);
      Executable(s) ==> var n: nat := s[44]; Bounded(Seen(ph[..], content, Word(s, 28), 32 * n), n)
    }

    /** elf_load into an empty address space. */
    method Load(d: nat, name: AlfsModel.Name) returns (ok: bool, entry: nat)
      requires Valid() && NoNul(name) && d in vm.dirs && d in Users() && Users()[d] == map[]
      requires var files := AlfsModel.View(fs.State()); name in files ==> Sane(FileBytes(files[name]))
      modifies hdr, ph, vm`mem, vm`tabs, vm.pm`freeCount, vm.pm.bitmap, vm.pm.pageRefs, fs.sbuf, fs.disk`log
      ensures Valid() && OnlyChanges(old(Users()), Users(), d)
      ensures name !in AlfsModel.View(old(fs.State())) ==>
                !ok && Users() == old(Users()) && hdr[..] == old(hdr[..]) && ph[..] == old(ph[..])
      ensures name in AlfsModel.View(old(fs.State())) ==>
                var content := FileBytes(AlfsModel.View(old(fs.State()))[name]);
                var s := Seen(old(hdr[..]), content, 0, 512);
                && (ok || fs.disk.reliable ==> hdr[..] == s)
                && if !Executable(s) then !ok && Users() == old(Users()) && (fs.disk.reliable ==> ph[..] == old(ph[..]))
                else
                  var n: nat := s[44];
                  var table := Seen(old(ph[..]), content, Word(s, 28), 32 * n);
                  && (ok || fs.disk.reliable ==> ph[..] == table)
                  && (ok ==> entry == Word(s, 24) && Loaded(table, content, n, Users()[d]) && StartInUser(table, n))
                  && (!ok && fs.disk.reliable ==> vm.pm.Free() == {} || !StartInUser(table, n))
    {
      hide AlfsModel.Inv, AlfsModel.Content, AlfsModel.View, Uvm.Tables, Uvm.PhysInv, View, Bounded, HeaderOk, Image,
        Seen, AllInUser, StartInUser, Loaded, Executable;
      ok, entry := false, 0;
      AlfsModel.InvTerminated(fs.State());
      var idx := fs.Find(name);
      if idx < 0 { return; }
      ghost var content := FileBytes(AlfsModel.View(fs.State())[name]);
      FileHolds(fs.State(), idx, name);
      HeaderCounts(Seen(hdr[..], content, 0, 512));
      var phnum;
      ok, entry, phnum := ReadHeaders(idx, content);
      if !ok { return; }
      ImageLoaded(ph[..], content, phnum);
      UserStart(ph[..], phnum);
      ok := LoadAll(d, idx, content, phnum);
    }
  }

  ghost function FileBytes(node: AlfsModel.Node): seq<Byte> {
    if node.File? then node.bytes else []
  }

  lemma HeaderCounts(header: seq<Byte>)
    ensures Executable(header) ==> |header| >= 52 && 1 <= header[44] <= 8
  {
  }

  lemma SeenIs(buf: seq<Byte>, content: seq<Byte>, off: nat, len: nat, now: seq<Byte>)
    requires len <= |buf|
    requires var n := Alfs.Avail(|content|, off, len);
             SameExcept(buf, now, 0, n) && (n > 0 ==> now[..n] == content[off..off + n])
    ensures now == Seen(buf, content, off, len)
  {
    var n := Alfs.Avail(|content|, off, len);
    assert now[n..] == buf[n..];
    assert now == now[..n] + now[n..];
  }

  lemma FileHolds(s: AlfsModel.Fs, idx: nat, name: AlfsModel.Name)
    requires AlfsModel.Inv(s) && idx < AlfsModel.MAX_FILES && AlfsModel.Matches(s.dir[idx], name)
    requires name in AlfsModel.View(s)
    ensures var bytes := FileBytes(AlfsModel.View(s)[name]);
            AlfsModel.Content(s.disk, s.dir[idx].start, s.dir[idx].size) == bytes && |bytes| == s.dir[idx].size
  {
    hide AlfsModel.Inv, AlfsModel.View, AlfsModel.Find, AlfsModel.Content, CStr;
    AlfsModel.ViewAt(s, idx);
    AlfsModel.EntrySize(s, idx);
  }

  lemma HeaderSame(a: seq<Byte>, b: seq<Byte>)
    requires |a| >= 52 && |b| >= 52 && a[..52] == b[..52]
    ensures HeaderOk(a) == HeaderOk(b) && Word(a, 24) == Word(b, 24) && Word(a, 28) == Word(b, 28) &&
            Half(a, 44) == Half(b, 44)
  {
    assert forall i :: 0 <= i < 52 ==> a[i] == a[..52][i] && b[i] == b[..52][i];
    assert a[24..28] == b[24..28] && a[28..32] == b[28..32];
  }

  lemma SameWord(buf: seq<Byte>, content: seq<Byte>, t: nat, n: nat, x: nat)
    requires 32 * n <= |buf| && t + 32 * n <= |content| && buf[..32 * n] == content[t..t + 32 * n] && x + 4 <= 32 * n
    ensures Word(buf, x) == Word(content, t + x)
  {
    AlfsModel.SliceSlice(buf, 0, 32 * n, x, x + 4);
    AlfsModel.SliceSlice(content, t, t + 32 * n, x, x + 4);
    assert buf[0..32 * n] == buf[..32 * n];
  }

  lemma SegBound(table: seq<Byte>, n: nat, i: nat)
    requires Bounded(table, n) && i < n && Loads(table, i) && InUser(SegNo(table, i))
    ensures SegOk(SegNo(table, i))
  {
    assert PtLoad(table, i);
  }

  ghost predicate OnlyChanges(a: Eager, b: Eager, d: int) {
    a.Keys == b.Keys && forall e :: e in a && e != d ==> b[e] == a[e]
  }

  lemma NoPages(seg: Seg, content: seq<Byte>, e: Eager, d: int)
    requires d in e
    ensures e[d := e[d] + SegPages(seg, content, FirstPage(seg))] == e
  {
    assert SegPages(seg, content, FirstPage(seg)) == map[];
    assert e[d] + map[] == e[d];
  }

  lemma NextPage(seg: Seg, content: seq<Byte>, m: map<int, Page>, vp: nat)
    requires FirstPage(seg) <= vp
    ensures (m + SegPages(seg, content, vp))[vp := Page(SegPage(seg, content, vp), seg.write)] ==
            m + SegPages(seg, content, vp + 1)
  {
    hide SegPage;
  }

  lemma FlagBits(write: bool)
    ensures var flags := if write then Uvm.PAGE_USER + Uvm.PAGE_WRITE else Uvm.PAGE_USER;
            Uvm.Writable(flags) == write && Uvm.ForUser(flags) && !Uvm.IsCow(flags)
  {
  }

  lemma FreeFrames(a: Uvm.Phys)
    requires Uvm.Tables(a)
    ensures |a.mem| == PAGES_MAX && (forall f :: f in a.pm.free ==> 0 < f < PAGES_MAX)
  {
  }

  lemma FilledPage(seg: Seg, content: seq<Byte>, va: nat, zero: seq<Byte>, page: seq<Byte>, lo: nat, hi: nat, n: nat)
    requires va % 4096 == 0 && lo == (if va > seg.vaddr then va else seg.vaddr) < hi
    requires hi == if va + 4096 < seg.vaddr + seg.filesz then va + 4096 else seg.vaddr + seg.filesz
    requires |zero| == PAGE_SIZE && (forall i :: 0 <= i < PAGE_SIZE ==> zero[i] == 0)
    requires var off := seg.offset + (lo - seg.vaddr);
             n == Alfs.Avail(|content|, off, hi - lo) && SameExcept(zero, page, lo - va, lo - va + n) &&
                                                       (n > 0 ==> page[lo - va..lo - va + n] == content[off..off + n])
    ensures page == SegPage(seg, content, va / 4096)
  {
    var off := seg.offset + (lo - seg.vaddr);
    assert 4096 * (va / 4096) == va;
    hide SegByte;
    forall i | 0 <= i < PAGE_SIZE ensures page[i] == SegByte(seg, content, va + i) {
      if lo - va <= i < lo - va + n {
        assert page[i] == page[lo - va..lo - va + n][i - (lo - va)];
      }
      FilledByte(seg, content, va, lo, hi, n, i);
    }
  }

  lemma FilledByte(seg: Seg, content: seq<Byte>, va: nat, lo: nat, hi: nat, n: nat, i: nat)
    requires lo == (if va > seg.vaddr then va else seg.vaddr) < hi && i < PAGE_SIZE
    requires hi == if va + 4096 < seg.vaddr + seg.filesz then va + 4096 else seg.vaddr + seg.filesz
    requires n == Alfs.Avail(|content|, seg.offset + (lo - seg.vaddr), hi - lo)
    ensures SegByte(seg, content, va + i) ==
            if lo - va <= i < lo - va + n then content[seg.offset + (lo - seg.vaddr) + (i - (lo - va))] else 0
  {
  }

  lemma EmptyPage(seg: Seg, content: seq<Byte>, va: nat, page: seq<Byte>, lo: nat, hi: nat)
    requires va % 4096 == 0 && lo == (if va > seg.vaddr then va else seg.vaddr) && hi <= lo
    requires hi == if va + 4096 < seg.vaddr + seg.filesz then va + 4096 else seg.vaddr + seg.filesz
    requires |page| == PAGE_SIZE && (forall i :: 0 <= i < PAGE_SIZE ==> page[i] == 0)
    ensures page == SegPage(seg, content, va / 4096)
  {
    assert 4096 * (va / 4096) == va;
  }
}
