/** kernel/uvm.c and the copy-on-write branch of kernel/fault.c over two-level page
    tables held in physical frames.  Each method is proved to take a step of the
    machine in module Cow. */
module Uvm {
  import opened ByteSeq
  import opened Pmm
  import opened Cow
  import opened Sets

  const ENTRIES: int := 1024
  const USER_PDE_LO: int := 32
  const USER_PDE_HI: int := 768
  const KERNEL_PDE_END: int := 800

  // ------------------------------------------------------------------
  // Entry words

  const PAGE_PRESENT: nat := 1
  const PAGE_WRITE: nat := 2
  const PAGE_USER: nat := 4
  const PAGE_COW: nat := 512

  predicate Present(w: nat) { w % 2 == 1 }
  predicate Writable(w: nat) { w / 2 % 2 == 1 }
  predicate ForUser(w: nat) { w / 4 % 2 == 1 }
  predicate IsCow(w: nat) { w / 512 % 2 == 1 }
  function FrameOf(w: nat): nat { w / 4096 }

  function OrPresent(fl: nat): nat { if Present(fl) then fl else fl + PAGE_PRESENT }
  function OrWrite(fl: nat): nat { if Writable(fl) then fl else fl + PAGE_WRITE }
  function WithoutCow(fl: nat): nat { if IsCow(fl) then fl - PAGE_COW else fl }
  function Kept(w: nat): nat {
    (if Writable(w) then PAGE_WRITE else 0) + (if ForUser(w) then PAGE_USER else 0) + (if IsCow(w) then PAGE_COW else 0)
  }

  function Decode(w: nat): Pte {
    Pte(FrameOf(w), Writable(w), ForUser(w), IsCow(w))
  }

  lemma WriteBit(f: nat, fl: nat)
    ensures Writable(f * 4096 + fl) == Writable(fl) && Present(f * 4096 + fl) == Present(fl)
  {
    assert (f * 4096 + fl) / 2 == f * 2048 + fl / 2;
  }

  lemma UserBit(f: nat, fl: nat)
    ensures ForUser(f * 4096 + fl) == ForUser(fl)
  {
    assert (f * 4096 + fl) / 4 == f * 1024 + fl / 4;
  }

  lemma CowBit(f: nat, fl: nat)
    ensures IsCow(f * 4096 + fl) == IsCow(fl)
  {
    assert (f * 4096 + fl) / 512 == f * 8 + fl / 512;
  }

  lemma DecodeEntry(f: nat, fl: nat)
    requires fl < 4096
    ensures Decode(f * 4096 + fl) == Pte(f, Writable(fl), ForUser(fl), IsCow(fl))
    ensures Present(f * 4096 + fl) == Present(fl)
  {
    hide Present, Writable, ForUser, IsCow;
    WriteBit(f, fl);
    UserBit(f, fl);
    CowBit(f, fl);
  }

  lemma AddOne(fl: nat)
    requires fl % 2 == 0
    ensures (fl + 1) / 2 == fl / 2 && (fl + 1) / 4 == fl / 4 && (fl + 1) / 512 == fl / 512
  {
    var h := fl / 2;
    assert fl == 2 * h;
    assert (2 * h + 1) / 4 == h / 2 && (2 * h) / 4 == h / 2;
    assert (2 * h + 1) / 512 == h / 256 && (2 * h) / 512 == h / 256;
  }

  lemma AddTwo(fl: nat)
    requires fl / 2 % 2 == 0
    ensures (fl + 2) / 4 == fl / 4 && (fl + 2) / 512 == fl / 512
  {
    var q, r := fl / 4, fl % 4;
    assert fl == 4 * q + r && r < 2;
    assert (4 * q + r + 2) / 512 == q / 128 && (4 * q + r) / 512 == q / 128;
  }

  lemma OrPresentFlags(fl: nat)
    requires fl < 4096
    ensures OrPresent(fl) < 4096 && Present(OrPresent(fl)) && Writable(OrPresent(fl)) == Writable(fl)
            && ForUser(OrPresent(fl)) == ForUser(fl) && IsCow(OrPresent(fl)) == IsCow(fl)
  {
    if !Present(fl) { AddOne(fl); }
  }

  lemma OrWriteFlags(fl: nat)
    requires fl < 4096
    ensures OrWrite(fl) < 4096 && Writable(OrWrite(fl)) && Present(OrWrite(fl)) == Present(fl)
            && ForUser(OrWrite(fl)) == ForUser(fl) && IsCow(OrWrite(fl)) == IsCow(fl)
  {
    if !Writable(fl) { AddTwo(fl); }
    assert (fl + 2) / 2 == fl / 2 + 1;
  }

  lemma WithoutCowFlags(fl: nat)
    requires fl < 4096
    ensures WithoutCow(fl) < 4096 && !IsCow(WithoutCow(fl)) && Present(WithoutCow(fl)) == Present(fl)
            && ForUser(WithoutCow(fl)) == ForUser(fl) && Writable(WithoutCow(fl)) == Writable(fl)
  {
    if IsCow(fl) {
      assert (fl - 512) / 2 == fl / 2 - 256;
      assert (fl - 512) / 4 == fl / 4 - 128;
      assert (fl - 512) / 512 == fl / 512 - 1;
    }
  }

  lemma KeptFlags(w: nat)
    ensures Kept(w) < 4096 && Writable(Kept(w)) == Writable(w) && ForUser(Kept(w)) == ForUser(w) &&
            IsCow(Kept(w)) == IsCow(w)
  {
  }

  // ------------------------------------------------------------------
  // Walking the tables

  function WordAt(mem: seq<Frame>, f: int, k: int): nat {
    if 0 <= f < |mem| && mem[f].Words? && 0 <= k < |mem[f].w| then mem[f].w[k] else 0
  }

  function PteWord(mem: seq<Frame>, d: int, vp: int): nat {
    var e := WordAt(mem, d, vp / 1024);
    if Present(e) then WordAt(mem, FrameOf(e), vp % 1024) else 0
  }

  ghost predicate HasPage(mem: seq<Frame>, d: int, vp: int) {
    USER_LO <= vp < USER_HI && Present(PteWord(mem, d, vp))
  }

  ghost function SpaceOf(mem: seq<Frame>, d: int): Space {
    map vp: int | USER_LO <= vp < USER_HI && HasPage(mem, d, vp) :: Decode(PteWord(mem, d, vp))
  }

  /** Physical memory, the allocator, the live directories, and for each page table
      the directory and slot that own it. */
  datatype Phys = Phys(mem: seq<Frame>, pm: Frames, dirs: set<int>, tabs: map<int, (int, int)>)

  ghost function Flatten(s: Phys): Flat {
    Flat(map d | d in s.dirs :: SpaceOf(s.mem, d), s.pm, s.mem)
  }

  ghost predicate TableFrame(s: Phys, f: int)
    requires WellFormed(s.pm) && |s.mem| == PAGES_MAX
  {
    && 0 < f < PAGES_MAX && f !in s.pm.free && s.pm.refs[f] == 1
    && s.mem[f].Words? && |s.mem[f].w| == ENTRIES
  }

  ghost predicate UserSlot(i: int) { USER_PDE_LO <= i < USER_PDE_HI }

  ghost predicate Tables(s: Phys) {
    && WellFormed(s.pm) && |s.mem| == PAGES_MAX && 0 !in s.pm.free
    && (forall d :: d in s.dirs ==> TableFrame(s, d) && d !in s.tabs)
    && (forall t :: t in s.tabs ==>
          TableFrame(s, t) && s.tabs[t].0 in s.dirs && UserSlot(s.tabs[t].1) &&
          Present(WordAt(s.mem, s.tabs[t].0, s.tabs[t].1)) && FrameOf(WordAt(s.mem, s.tabs[t].0, s.tabs[t].1)) == t)
    && (forall d, i :: d in s.dirs && UserSlot(i) && Present(WordAt(s.mem, d, i)) ==>
          FrameOf(WordAt(s.mem, d, i)) in s.tabs && s.tabs[FrameOf(WordAt(s.mem, d, i))] == (d, i))
  }

  ghost predicate PhysInv(s: Phys) {
    Tables(s) && Inv(Flatten(s))
  }

  /** The frames that hold the tables of directory d, and d itself. */
  ghost function Owned(s: Phys, d: int): set<int> {
    {d} + set t | t in s.tabs && s.tabs[t].0 == d
  }

  // ------------------------------------------------------------------
  // How one write to a table shows in the address spaces

  lemma SpaceSame(mem: seq<Frame>, mem': seq<Frame>, d: int)
    requires forall vp :: USER_LO <= vp < USER_HI ==> PteWord(mem', d, vp) == PteWord(mem, d, vp)
    ensures SpaceOf(mem', d) == SpaceOf(mem, d)
  {
    assert forall vp :: HasPage(mem', d, vp) <==> HasPage(mem, d, vp);
  }

  ghost function SetWord(mem: seq<Frame>, f: int, k: int, x: nat): seq<Frame>
    requires 0 <= f < |mem| && mem[f].Words? && 0 <= k < |mem[f].w|
  {
    mem[f := Words(mem[f].w[k := x])]
  }

  lemma TableShape(s: Phys, t: int)
    requires Tables(s) && (t in s.tabs || t in s.dirs)
    ensures 0 < t < |s.mem| && s.mem[t].Words? && |s.mem[t].w| == ENTRIES && |s.mem| == PAGES_MAX
    ensures 0 !in s.pm.free
  {
    assert TableFrame(s, t);
  }

  /** The table that covers a present page. */
  lemma TableOf(s: Phys, d: int, vp: int)
    requires Tables(s) && d in s.dirs && USER_LO <= vp < USER_HI && Present(WordAt(s.mem, d, vp / 1024))
    ensures var t := FrameOf(WordAt(s.mem, d, vp / 1024)); t in s.tabs && s.tabs[t] == (d, vp / 1024)
  {
    assert UserSlot(vp / 1024);
  }

  lemma PteWordAfterSet(s: Phys, t: int, j: int, x: nat, e: int, vp: int)
    requires Tables(s) && t in s.tabs && 0 <= j < ENTRIES && e in s.dirs && USER_LO <= vp < USER_HI
    ensures PteWord(SetWord(s.mem, t, j, x), e, vp) ==
            if e == s.tabs[t].0 && vp == s.tabs[t].1 * 1024 + j then x else PteWord(s.mem, e, vp)
  {
    var mem' := SetWord(s.mem, t, j, x);
    assert forall k :: WordAt(mem', e, k) == WordAt(s.mem, e, k);
    var w := WordAt(s.mem, e, vp / 1024);
    if Present(w) {
      TableOf(s, e, vp);
    } else {
      assert UserSlot(s.tabs[t].1);
    }
  }

  lemma TablesAfterSet(s: Phys, t: int, j: int, x: nat)
    requires Tables(s) && t in s.tabs && 0 <= j < ENTRIES
    ensures Tables(s.(mem := SetWord(s.mem, t, j, x)))
  {
    hide Present, FrameOf;
    var mem' := SetWord(s.mem, t, j, x);
    forall e, k | e in s.dirs ensures WordAt(mem', e, k) == WordAt(s.mem, e, k) {
      assert e != t;
    }
  }

  lemma SpaceAfterSet(s: Phys, t: int, j: int, x: nat, e: int)
    requires Tables(s) && t in s.tabs && 0 <= j < ENTRIES && Present(x) && e in s.dirs
    ensures var d, vp := s.tabs[t].0, s.tabs[t].1 * 1024 + j;
            SpaceOf(SetWord(s.mem, t, j, x), e) ==
              if e == d then SpaceOf(s.mem, d)[vp := Decode(x)] else SpaceOf(s.mem, e)
  {
    hide Present, WordAt, PteWord;
    var mem' := SetWord(s.mem, t, j, x);
    var d, vp := s.tabs[t].0, s.tabs[t].1 * 1024 + j;
    assert UserSlot(s.tabs[t].1) && USER_LO <= vp < USER_HI;
    hide Tables;
    forall p | USER_LO <= p < USER_HI
      ensures PteWord(mem', e, p) == if e == d && p == vp then x else PteWord(s.mem, e, p)
    {
      PteWordAfterSet(s, t, j, x, e, p);
    }
    if e == d {
      assert forall p :: HasPage(mem', d, p) <==> p == vp || HasPage(s.mem, d, p);
      assert SpaceOf(mem', d) == SpaceOf(s.mem, d)[vp := Decode(x)];
    } else {
      SpaceSame(s.mem, mem', e);
    }
  }

  /** Storing an entry in a table changes one page of one address space. */
  lemma SetPte(s: Phys, t: int, j: int, x: nat)
    requires Tables(s) && t in s.tabs && 0 <= j < ENTRIES && Present(x)
    ensures var s' := s.(mem := SetWord(s.mem, t, j, x));
            var d, vp := s.tabs[t].0, s.tabs[t].1 * 1024 + j;
            Tables(s') && Flatten(s').spaces == Flatten(s).spaces[d := SpaceOf(s.mem, d)[vp := Decode(x)]]
  {
    TableShape(s, t);
    assert s.tabs[t].0 in s.dirs;
    hide Tables, SpaceOf, Present;
    TablesAfterSet(s, t, j, x);
    forall e | e in s.dirs
      ensures SpaceOf(SetWord(s.mem, t, j, x), e) ==
              if e == s.tabs[t].0 then SpaceOf(s.mem, s.tabs[t].0)[s.tabs[t].1 * 1024 + j := Decode(x)]
                else SpaceOf(s.mem, e)
    {
      SpaceAfterSet(s, t, j, x, e);
    }
  }

  lemma TablesAfterAdd(s: Phys, d: int, i: int, t: int)
    requires Tables(s) && d in s.dirs && UserSlot(i) && !Present(WordAt(s.mem, d, i)) && t in s.pm.free
    ensures var mem' := SetWord(s.mem[t := Words(seq(ENTRIES, _ => 0))], d, i, t * 4096 + 7);
            Tables(Phys(mem', Take(s.pm, t), s.dirs, s.tabs[t := (d, i)]))
  {
    DecodeEntry(t, 7);
    hide Present, FrameOf;
    var mem' := SetWord(s.mem[t := Words(seq(ENTRIES, _ => 0))], d, i, t * 4096 + 7);
    assert t !in s.dirs && t !in s.tabs;
    forall e, k | e in s.dirs
      ensures WordAt(mem', e, k) == if e == d && k == i then t * 4096 + 7 else WordAt(s.mem, e, k)
    {
    }
  }

  lemma PteWordAfterAdd(s: Phys, d: int, i: int, t: int, e: int, p: int)
    requires Tables(s) && d in s.dirs && UserSlot(i) && !Present(WordAt(s.mem, d, i)) && t in s.pm.free
    requires e in s.dirs && USER_LO <= p < USER_HI
    ensures var mem' := SetWord(s.mem[t := Words(seq(ENTRIES, _ => 0))], d, i, t * 4096 + 7);
            Present(PteWord(mem', e, p)) == Present(PteWord(s.mem, e, p)) &&
            (Present(PteWord(s.mem, e, p)) ==> PteWord(mem', e, p) == PteWord(s.mem, e, p))
  {
    var mem' := SetWord(s.mem[t := Words(seq(ENTRIES, _ => 0))], d, i, t * 4096 + 7);
    DecodeEntry(t, 7);
    if Present(WordAt(s.mem, e, p / 1024)) {
      TableOf(s, e, p);
      var u := FrameOf(WordAt(s.mem, e, p / 1024));
      assert TableFrame(s, u) && u != t && u != d;
      assert mem'[u] == s.mem[u];
    }
  }

  /** Hanging an empty table under an absent slot changes no address space. */
  lemma AddTable(s: Phys, d: int, i: int, t: int)
    requires Tables(s) && d in s.dirs && UserSlot(i) && !Present(WordAt(s.mem, d, i)) && t in s.pm.free
    ensures var mem' := SetWord(s.mem[t := Words(seq(ENTRIES, _ => 0))], d, i, t * 4096 + 7);
            var s' := Phys(mem', Take(s.pm, t), s.dirs, s.tabs[t := (d, i)]);
            Tables(s') && Flatten(s').spaces == Flatten(s).spaces
  {
    TablesAfterAdd(s, d, i, t);
    hide Tables, Present, WordAt, PteWord;
    var mem' := SetWord(s.mem[t := Words(seq(ENTRIES, _ => 0))], d, i, t * 4096 + 7);
    forall e | e in s.dirs ensures SpaceOf(mem', e) == SpaceOf(s.mem, e) {
      forall p | USER_LO <= p < USER_HI
        ensures HasPage(mem', e, p) <==> HasPage(s.mem, e, p)
        ensures HasPage(s.mem, e, p) ==> PteWord(mem', e, p) == PteWord(s.mem, e, p)
      {
        PteWordAfterAdd(s, d, i, t, e, p);
      }
    }
  }

  // ------------------------------------------------------------------
  // The frames uvm_free drops, in the order it drops them

  ghost function PteVisit(mem: seq<Frame>, d: int, vp: int): seq<nat> {
    var w := PteWord(mem, d, vp);
    if Present(w) then [FrameOf(w)] else []
  }

  ghost function TableVisit(mem: seq<Frame>, d: int, vp: int): seq<nat> {
    var e := WordAt(mem, d, vp / 1024);
    if vp % 1024 == 1023 && Present(e) then [FrameOf(e)] else []
  }

  ghost function WalkTo(mem: seq<Frame>, d: int, lo: int, vp: int): seq<nat>
    requires lo * 1024 <= vp
    decreases vp - lo * 1024
  {
    if vp == lo * 1024 then []
    else WalkTo(mem, d, lo, vp - 1) + PteVisit(mem, d, vp - 1) + TableVisit(mem, d, vp - 1)
  }

  /** uvm_free's walk over directory slots lo..767, then the directory itself. */
  ghost function Walk(mem: seq<Frame>, d: nat, lo: int): seq<nat>
    requires lo <= USER_PDE_HI
  {
    WalkTo(mem, d, lo, USER_PDE_HI * 1024) + [d]
  }

  lemma WalkNext(mem: seq<Frame>, d: int, lo: int, vp: int)
    requires lo * 1024 <= vp
    ensures WalkTo(mem, d, lo, vp + 1) == WalkTo(mem, d, lo, vp) + PteVisit(mem, d, vp) + TableVisit(mem, d, vp)
  {
  }

  lemma WalkEmpty(mem: seq<Frame>, d: int, lo: int)
    ensures WalkTo(mem, d, lo, lo * 1024) == []
  {
  }

  lemma WalkStart(mem: seq<Frame>, d: int, lo: int, p0: Frames)
    requires WellFormed(p0)
    ensures DropAll(p0, WalkTo(mem, d, lo, lo * 1024)) == p0
  {
  }

  lemma AbsentVisit(mem: seq<Frame>, d: int, vp: int)
    requires !Present(WordAt(mem, d, vp / 1024))
    ensures PteVisit(mem, d, vp) == [] && TableVisit(mem, d, vp) == []
  {
  }

  lemma {:induction false} SkipAbsent(mem: seq<Frame>, d: int, lo: int, i: int, n: int)
    requires lo <= i && 0 <= n <= 1024 && !Present(WordAt(mem, d, i))
    ensures WalkTo(mem, d, lo, i * 1024 + n) == WalkTo(mem, d, lo, i * 1024)
    decreases n
  {
    hide Present, WordAt, PteVisit, TableVisit, WalkTo;
    if n > 0 {
      SkipAbsent(mem, d, lo, i, n - 1);
      assert (i * 1024 + n - 1) / 1024 == i;
      WalkNext(mem, d, lo, i * 1024 + n - 1);
      AbsentVisit(mem, d, i * 1024 + n - 1);
    }
  }

  ghost function UsingBelow(sp: Space, vp: int, f: int): set<int> {
    set x | x in sp && x < vp && sp[x].frame == f
  }

  ghost function TableCount(s: Phys, d: int, vp: int, f: int): nat {
    if f in s.tabs && s.tabs[f].0 == d && (s.tabs[f].1 + 1) * 1024 <= vp then 1 else 0
  }

  /** The walk meets a frame once for each entry that maps it, and each page table
      of the directory once. */
  lemma {:induction false} WalkCount(s: Phys, d: int, vp: int, f: nat)
    requires Tables(s) && d in s.dirs && USER_LO <= vp <= USER_HI
    ensures multiset(WalkTo(s.mem, d, USER_PDE_LO, vp))[f] ==
            |UsingBelow(SpaceOf(s.mem, d), vp, f)| + TableCount(s, d, vp, f)
    decreases vp
  {
    var sp := SpaceOf(s.mem, d);
    if vp == USER_LO {
      assert UsingBelow(sp, vp, f) == {};
    } else {
      var q := vp - 1;
      WalkCount(s, d, q, f);
      assert multiset(WalkTo(s.mem, d, USER_PDE_LO, vp)) ==
             multiset(WalkTo(s.mem, d, USER_PDE_LO, q)) + multiset(PteVisit(s.mem, d, q)) +
               multiset(TableVisit(s.mem, d, q));
      UsingGrows(s.mem, d, q, f);
      TableCountGrows(s, d, q, f);
    }
  }

  lemma UsingBelowNext(sp: Space, q: int, f: int)
    ensures |UsingBelow(sp, q + 1, f)| == |UsingBelow(sp, q, f)| + (if q in sp && sp[q].frame == f then 1 else 0)
  {
    if q in sp && sp[q].frame == f {
      assert UsingBelow(sp, q + 1, f) == UsingBelow(sp, q, f) + {q};
      CardAdd(UsingBelow(sp, q, f), q);
    } else {
      assert UsingBelow(sp, q + 1, f) == UsingBelow(sp, q, f);
    }
  }

  lemma UsingGrows(mem: seq<Frame>, d: int, q: int, f: nat)
    requires USER_LO <= q < USER_HI
    ensures |UsingBelow(SpaceOf(mem, d), q + 1, f)| ==
            |UsingBelow(SpaceOf(mem, d), q, f)| + multiset(PteVisit(mem, d, q))[f]
  {
    UsingBelowNext(SpaceOf(mem, d), q, f);
    assert q in SpaceOf(mem, d) <==> HasPage(mem, d, q);
  }

  lemma TableCountGrows(s: Phys, d: int, q: int, f: nat)
    requires Tables(s) && d in s.dirs && USER_LO <= q < USER_HI
    ensures TableCount(s, d, q + 1, f) == TableCount(s, d, q, f) + multiset(TableVisit(s.mem, d, q))[f]
  {
    assert UserSlot(q / 1024);
  }

  ghost function AfterFree(s: Phys, d: nat, lo: int): Phys
    requires WellFormed(s.pm) && lo <= USER_PDE_HI
  {
    Phys(s.mem, DropAll(s.pm, Walk(s.mem, d, lo)), s.dirs - {d}, s.tabs - Owned(s, d))
  }

  lemma OwnedUnmapped(s: Phys, d: int, f: int)
    requires PhysInv(s) && d in s.dirs && f in Owned(s, d)
    ensures Mappers(Flatten(s).spaces, f) == {} && Using(SpaceOf(s.mem, d), f) == {}
  {
    var fl := Flatten(s);
    assert TableFrame(s, f);
    forall e, vp | e in fl.spaces && vp in fl.spaces[e] ensures fl.spaces[e][vp].frame != f {
      assert PteOk(fl, vp, fl.spaces[e][vp]);
    }
    assert fl.spaces[d] == SpaceOf(s.mem, d);
  }

  lemma FreeCounts(s: Phys, d: nat, f: nat)
    requires WellFormed(s.pm) && PhysInv(s) && d in s.dirs && f < PAGES_MAX
    ensures var n := multiset(Walk(s.mem, d, USER_PDE_LO))[f];
            n == (if f in Owned(s, d) then 1 else |Using(SpaceOf(s.mem, d), f)|)
            && (f in Owned(s, d) ==> Mappers(Flatten(s).spaces, f) == {} && s.pm.refs[f] == 1 && f !in s.pm.free)
            && (f !in Owned(s, d) && n > 0 ==> f !in s.pm.free && Weight(s.pm, f) == s.pm.refs[f] >= n)
  {
    hide Tables, SpaceOf, Inv, Walk, WellFormed;
    WholeWalkCount(s, d, f);
    assert Flatten(s).spaces[d] == SpaceOf(s.mem, d);
    UsingBound(Flatten(s), d, f);
    if f in Owned(s, d) {
      OwnedHere(s, d, f);
      OwnedUnmapped(s, d, f);
    }
  }

  lemma FreePm(s: Phys, d: nat, f: nat)
    requires WellFormed(s.pm) && PhysInv(s) && d in s.dirs && f < PAGES_MAX
    ensures var pm' := DropAll(s.pm, Walk(s.mem, d, USER_PDE_LO));
            var used := Using(SpaceOf(s.mem, d), f);
            pm'.refs[f] == (if f in Owned(s, d) then 0 else s.pm.refs[f] - |used|)
            && (f in pm'.free <==> (f in s.pm.free || f in Owned(s, d) || (used != {} && s.pm.refs[f] == |used|)))
  {
    hide Tables, SpaceOf, Inv, Walk, DropAll, PhysInv;
    FreeCounts(s, d, f);
    DropAllWeights(s.pm, Walk(s.mem, d, USER_PDE_LO), f);
  }

  lemma ZeroUnused(s: Phys, d: nat)
    requires PhysInv(s) && d in s.dirs
    ensures 0 !in Owned(s, d) && 0 !in s.pm.free && Using(SpaceOf(s.mem, d), 0) == {}
  {
    assert forall f :: f in Owned(s, d) ==> TableFrame(s, f);
    assert Flatten(s).spaces[d] == SpaceOf(s.mem, d);
    forall vp | vp in SpaceOf(s.mem, d) ensures SpaceOf(s.mem, d)[vp].frame != 0 {
      assert PteOk(Flatten(s), vp, Flatten(s).spaces[d][vp]);
    }
  }

  lemma ZeroStaysTaken(s: Phys, d: nat)
    requires WellFormed(s.pm) && PhysInv(s) && d in s.dirs
    ensures 0 !in DropAll(s.pm, Walk(s.mem, d, USER_PDE_LO)).free
  {
    hide PhysInv, SpaceOf, Walk, DropAll;
    FreePm(s, d, 0);
    ZeroUnused(s, d);
  }

  lemma TablesWithout(s: Phys, d: int, pm: Frames)
    requires Tables(s) && d in s.dirs && WellFormed(pm) && 0 !in pm.free
    requires forall t :: (t in s.dirs || t in s.tabs) && t !in Owned(s, d) ==>
             0 <= t < PAGES_MAX && t !in pm.free && pm.refs[t] == 1
    ensures Tables(Phys(s.mem, pm, s.dirs - {d}, s.tabs - Owned(s, d)))
  {
  }

  lemma TablesAfterFree(s: Phys, d: nat)
    requires PhysInv(s) && d in s.dirs
    ensures Tables(AfterFree(s, d, USER_PDE_LO))
  {
    var pm := DropAll(s.pm, Walk(s.mem, d, USER_PDE_LO));
    forall t | (t in s.dirs || t in s.tabs) && t !in Owned(s, d)
      ensures 0 <= t < PAGES_MAX && t !in pm.free && pm.refs[t] == 1
    {
      assert TableFrame(s, t);
      UnusedTable(s, d, t);
      FreePm(s, d, t);
    }
    ZeroStaysTaken(s, d);
    TablesWithout(s, d, pm);
  }

  lemma SpacesWithout(s: Phys, d: int, pm: Frames)
    ensures Flatten(Phys(s.mem, pm, s.dirs - {d}, s.tabs - Owned(s, d))).spaces == Flatten(s).spaces - {d}
  {
  }

  /** Freeing the user range is the Free step: it gives back the tables and the
      directory, and every page that no other space maps. */
  lemma FreeIsStep(s: Phys, d: nat)
    requires WellFormed(s.pm) && PhysInv(s) && d in s.dirs
    ensures var s' := AfterFree(s, d, USER_PDE_LO);
            Tables(s') && FreeStep(Flatten(s), d, Owned(s, d), Flatten(s'))
  {
    hide Tables, SpaceOf, Inv, Walk, DropAll;
    var s' := AfterFree(s, d, USER_PDE_LO);
    TablesAfterFree(s, d);
    var a, b := Flatten(s), Flatten(s');
    assert a.spaces[d] == SpaceOf(s.mem, d);
    forall f: nat | f < PAGES_MAX
      ensures b.pm.refs[f] == if f in Owned(s, d) then 0 else a.pm.refs[f] - |Using(a.spaces[d], f)|
      ensures f in b.pm.free <==>
              (f in a.pm.free || f in Owned(s, d) ||
               (Using(a.spaces[d], f) != {} && a.pm.refs[f] == |Using(a.spaces[d], f)|))
    {
      FreePm(s, d, f);
    }
    forall f | f in Owned(s, d) ensures 0 < f < PAGES_MAX && f !in s.pm.free && Mappers(a.spaces, f) == {} {
      OwnedHere(s, d, f);
      OwnedUnmapped(s, d, f);
    }
    SpacesWithout(s, d, s'.pm);
  }

  lemma UnusedTable(s: Phys, d: int, t: int)
    requires PhysInv(s) && d in s.dirs && TableFrame(s, t)
    ensures Using(SpaceOf(s.mem, d), t) == {}
  {
    var fl := Flatten(s);
    forall vp | vp in fl.spaces[d] ensures fl.spaces[d][vp].frame != t {
      assert PteOk(fl, vp, fl.spaces[d][vp]);
    }
  }

  // ------------------------------------------------------------------
  // Fork, one page at a time

  /** The parent's space when the pages below vp are downgraded. */
  ghost function DownBelow(sp: Space, vp: int): Space {
    map x | x in sp :: if x < vp then Down(sp[x]) else sp[x]
  }

  /** The child's space when the pages below vp are shared. */
  ghost function SharedBelow(sp: Space, vp: int): Space {
    map x | x in sp && x < vp :: Down(sp[x])
  }

  ghost predicate CloneSpaces(a: Phys, d: int, c: int, vp: int, b: Phys) {
    && d in a.dirs && c !in a.dirs && b.dirs == a.dirs + {c}
    && var sp := SpaceOf(a.mem, d);
       Flatten(b).spaces == Flatten(a).spaces[d := DownBelow(sp, vp)][c := SharedBelow(sp, vp)]
  }

  /** A count stops at 255. */
  ghost function Capped(n: nat): nat { if n < MAX_REFS then n else MAX_REFS }

  ghost predicate CloneCounts(sp: Space, a: Frames, owned: set<int>, vp: int, b: Frames)
    requires WellFormed(a) && WellFormed(b)
  {
    && owned <= a.free && b.free == a.free - owned
    && forall f :: 0 <= f < PAGES_MAX ==>
         b.refs[f] == if f in owned then 1 else Capped(a.refs[f] + |UsingBelow(sp, vp, f)|)
  }

  /** The data frames in use in a hold the same bytes in b. */
  ghost predicate DataKept(a: Phys, b: Phys) {
    && |a.mem| == PAGES_MAX && |b.mem| == PAGES_MAX
    && forall g :: 0 <= g < PAGES_MAX && g !in a.pm.free && a.mem[g].Bytes? ==> b.mem[g] == a.mem[g]
  }

  /** State b is reached from a while cloning d into c, with the pages below vp done. */
  ghost predicate CloningAt(a: Phys, d: int, c: int, vp: int, b: Phys)
    requires WellFormed(a.pm) && WellFormed(b.pm)
  {
    && CloneSpaces(a, d, c, vp, b) && DataKept(a, b)
    && CloneCounts(SpaceOf(a.mem, d), a.pm, Owned(b, c), vp, b.pm)
    && b.tabs - Owned(b, c) == a.tabs
  }

  lemma KeptIsKeepsData(a: Phys, b: Phys)
    requires PhysInv(a) && DataKept(a, b)
    ensures KeepsData(Flatten(a), Flatten(b))
  {
    var fa := Flatten(a);
    forall e, vp | e in fa.spaces && vp in fa.spaces[e]
      ensures b.mem[fa.spaces[e][vp].frame] == a.mem[fa.spaces[e][vp].frame]
    {
      assert PteOk(fa, vp, fa.spaces[e][vp]);
    }
  }

  lemma AllBelow(mem: seq<Frame>, d: int)
    ensures var sp := SpaceOf(mem, d);
            DownBelow(sp, USER_HI) == DownAll(sp) && SharedBelow(sp, USER_HI) == DownAll(sp) &&
            forall f :: UsingBelow(sp, USER_HI, f) == Using(sp, f)
  {
  }

  lemma CloneKeepsData(a: Phys, d: int, c: int, b: Phys)
    requires PhysInv(a) && WellFormed(b.pm) && CloningAt(a, d, c, USER_HI, b)
    ensures KeepsData(Flatten(a), Flatten(b))
  {
    KeptIsKeepsData(a, b);
  }

  lemma CloneIsForkStep(a: Phys, d: int, c: int, b: Phys)
    requires WellFormed(a.pm) && WellFormed(b.pm) && CloningAt(a, d, c, USER_HI, b)
    requires RoomToShare(Flatten(a), d) && KeepsData(Flatten(a), Flatten(b))
    ensures ForkStep(Flatten(a), d, c, Owned(b, c), Flatten(b))
  {
    AllBelow(a.mem, d);
    assert Flatten(a).spaces[d] == SpaceOf(a.mem, d);
    hide SpaceOf, DownBelow, SharedBelow, DownAll, UsingBelow, KeepsData, DataKept;
  }

  lemma CloneIsFork(a: Phys, d: int, c: int, b: Phys)
    requires PhysInv(a) && WellFormed(b.pm) && CloningAt(a, d, c, USER_HI, b) && RoomToShare(Flatten(a), d)
    ensures Step(Flatten(a), Fork(d, c, Owned(b, c)), Flatten(b)) && Inv(Flatten(b))
  {
    hide CloneSpaces, CloneCounts, SpaceOf, KeepsData, DataKept, Tables;
    CloneKeepsData(a, d, c, b);
    CloneIsForkStep(a, d, c, b);
    ForkInv(Flatten(a), d, c, Owned(b, c), Flatten(b));
  }

  /** The finished clone shows the child what the parent sees, and keeps the invariant
      exactly when there was room for the new sharers. */
  lemma CloneShows(a: Phys, d: int, c: int, b: Phys)
    requires PhysInv(a) && WellFormed(b.pm) && CloningAt(a, d, c, USER_HI, b)
    ensures d in View(Flatten(a)) && View(Flatten(b)) == View(Flatten(a))[c := View(Flatten(a))[d]]
    ensures Inv(Flatten(b)) <==> RoomToShare(Flatten(a), d)
  {
    KeptIsKeepsData(a, b);
    AllBelow(a.mem, d);
    assert Flatten(a).spaces[d] == SpaceOf(a.mem, d);
    if RoomToShare(Flatten(a), d) { CloneIsFork(a, d, c, b); }
    hide Inv, RoomToShare, SpaceOf, KeepsData, View;
    ViewForked(Flatten(a), d, c, Flatten(b));
    if Inv(Flatten(b)) { ForkNeedsRoom(Flatten(a), d, c, Flatten(b)); }
    HasView(Flatten(a), d);
  }

  lemma HasView(s: Flat, d: int)
    requires d in s.spaces
    ensures d in View(s)
  {
  }

  /** A clone whose user range is then freed leaves every reference count, the free
      frames and what user code sees as they were before. */
  lemma CloneThenFree(a: Phys, d: int, c: nat, b: Phys)
    requires WellFormed(a.pm) && PhysInv(a) && WellFormed(b.pm) && PhysInv(b) && c in b.dirs
    requires Step(Flatten(a), Fork(d, c, Owned(b, c)), Flatten(b))
    ensures var e := AfterFree(b, c, USER_PDE_LO); e.pm == a.pm && View(Flatten(e)) == View(Flatten(a))
  {
    hide Tables, Inv, SpaceOf, DropAll, Walk, View, FreeStep;
    FreeIsStep(b, c);
    ForkThenFree(Flatten(a), d, c, Owned(b, c), Flatten(b), Flatten(AfterFree(b, c, USER_PDE_LO)));
  }

  // ------------------------------------------------------------------
  // uvm_map as a relation on states

  ghost predicate MapRel(a: Phys, d: int, vp: int, p: Pte, b: Phys)
    requires WellFormed(a.pm) && WellFormed(b.pm)
  {
    && d in a.dirs && b.dirs == a.dirs && Tables(b)
    && Flatten(b).spaces == Flatten(a).spaces[d := SpaceOf(a.mem, d)[vp := p]]
    && DataKept(a, b)
    && GrowsBy(a, d, b)
  }

  ghost function WithTable(s: Phys, d: int, i: int, t: int): Phys
    requires Tables(s) && d in s.dirs && UserSlot(i) && t in s.pm.free
  {
    Phys(SetWord(s.mem[t := Words(seq(ENTRIES, _ => 0))], d, i, t * 4096 + 7), Take(s.pm, t), s.dirs,
      s.tabs[t := (d, i)])
  }

  lemma MapIntoTable(s: Phys, t: int, j: int, x: nat)
    requires Tables(s) && t in s.tabs && 0 <= j < ENTRIES && Present(x)
    ensures MapRel(s, s.tabs[t].0, s.tabs[t].1 * 1024 + j, Decode(x), s.(mem := SetWord(s.mem, t, j, x)))
  {
    SetPte(s, t, j, x);
    assert Owned(s.(mem := SetWord(s.mem, t, j, x)), s.tabs[t].0) - Owned(s, s.tabs[t].0) == {};
  }

  /** b is a, or a with one new empty table under slot i of d. */
  ghost predicate TableRel(a: Phys, d: int, i: int, b: Phys)
    requires WellFormed(a.pm) && WellFormed(b.pm)
  {
    && d in a.dirs && b.dirs == a.dirs && Tables(b)
    && Flatten(b).spaces == Flatten(a).spaces
    && DataKept(a, b)
    && GrowsBy(a, d, b)
    && forall t :: t in b.tabs && t !in a.tabs ==> b.tabs[t] == (d, i)
  }

  /** Directory d is the same except for slot i. */
  ghost predicate DirKept(m0: seq<Frame>, m1: seq<Frame>, d: int, i: int) {
    forall k :: k != i ==> WordAt(m1, d, k) == WordAt(m0, d, k)
  }

  /** A frame is taken for the table if there was none behind the word. */
  ghost predicate Costs(before: nat, word: nat, after: nat) {
    before == after + if Present(word) then 0 else 1
  }

  /** The user slots of directory c that lead to a table. */
  ghost predicate HasSlots(mem: seq<Frame>, c: int, slots: set<int>) {
    forall k :: UserSlot(k) ==> (Present(WordAt(mem, c, k)) <==> k in slots)
  }

  lemma NoSlots(mem: seq<Frame>, c: int)
    requires forall k :: UserSlot(k) ==> WordAt(mem, c, k) == 0
    ensures HasSlots(mem, c, {})
  {
  }

  /** The frames newly used are the new tables of d. */
  ghost predicate GrowsBy(a: Phys, d: int, b: Phys)
    requires WellFormed(a.pm) && WellFormed(b.pm)
  {
    && Taken(a.pm, Owned(b, d) - Owned(a, d), b.pm)
    && (forall t :: t in a.tabs ==> t in b.tabs && b.tabs[t] == a.tabs[t])
    && (forall t :: t in b.tabs ==> t in a.tabs || b.tabs[t].0 == d)
  }

  lemma TableThere(s: Phys, d: int, i: int)
    requires Tables(s) && d in s.dirs && UserSlot(i) && Present(WordAt(s.mem, d, i))
    ensures var t := FrameOf(WordAt(s.mem, d, i)); t != 0 && t in s.tabs && s.tabs[t] == (d, i)
    ensures TableRel(s, d, i, s)
  {
    assert TableFrame(s, FrameOf(WordAt(s.mem, d, i)));
    assert Owned(s, d) - Owned(s, d) == {};
  }

  lemma NewTableRel(s: Phys, d: int, i: int, t: int)
    requires Tables(s) && d in s.dirs && UserSlot(i) && !Present(WordAt(s.mem, d, i)) && t in s.pm.free
    ensures TableRel(s, d, i, WithTable(s, d, i, t))
  {
    var b := WithTable(s, d, i, t);
    AddTable(s, d, i, t);
    assert t !in s.tabs && t !in s.dirs;
    assert Owned(b, d) - Owned(s, d) == {t};
  }

  lemma DirSame(mem: seq<Frame>, d: int, i: int)
    ensures DirKept(mem, mem, d, i)
  {
  }

  lemma NewTableWord(s: Phys, d: int, i: int, t: int)
    requires Tables(s) && d in s.dirs && UserSlot(i) && t in s.pm.free
    ensures DirKept(s.mem, WithTable(s, d, i, t).mem, d, i) && Present(WordAt(WithTable(s, d, i, t).mem, d, i))
  {
    assert TableFrame(s, d);
  }

  lemma MapAfterTable(s: Phys, d: int, i: int, m: Phys, vp: int, p: Pte, b: Phys)
    requires WellFormed(s.pm) && WellFormed(m.pm) && WellFormed(b.pm)
    requires TableRel(s, d, i, m) && MapRel(m, d, vp, p, b) && b.tabs == m.tabs && b.pm == m.pm
    ensures MapRel(s, d, vp, p, b)
  {
    assert SpaceOf(m.mem, d) == Flatten(m).spaces[d] == Flatten(s).spaces[d] == SpaceOf(s.mem, d);
    assert Owned(b, d) == Owned(m, d);
    assert forall g :: g in m.pm.free ==> g in s.pm.free;
  }

  /** Mapping a page the caller has taken and filled is the Map step, also over an
      entry that is its frame's only one. */
  lemma MapIsStep(a: Phys, d: int, vp: int, f: int, w: bool, b: Phys)
    requires PhysInv(a) && WellFormed(b.pm) && MapRel(a, d, vp, Pte(f, w, true, false), b)
    requires d in Flatten(a).spaces && Replaceable(Flatten(a).spaces, d, vp) && USER_LO <= vp < USER_HI
    requires 0 < f < PAGES_MAX && f !in a.pm.free && a.pm.refs[f] == 1 && Mappers(Flatten(a).spaces, f) == {}
    requires a.mem[f].Bytes? && |a.mem[f].b| == PAGE_SIZE
    ensures Step(Flatten(a), Map(d, vp, f, a.mem[f].b, w, Owned(b, d) - Owned(a, d)), Flatten(b)) && PhysInv(b)
  {
    KeptIsKeepsData(a, b);
    assert Flatten(a).spaces[d] == SpaceOf(a.mem, d);
    hide Tables, SpaceOf, DataKept, Inv, KeepsData, Mappers;
    StepInv(Flatten(a), Map(d, vp, f, a.mem[f].b, w, Owned(b, d) - Owned(a, d)), Flatten(b));
  }

  /** A new directory is a Create step, and keeps every frame counted by its mappings. */
  lemma CreateIsStep(a: Phys, d: nat, b: Phys)
    requires WellFormed(a.pm) && PhysInv(a) && d in a.pm.free && WellFormed(b.pm) && Tables(b)
    requires b.pm == Take(a.pm, d) && DataKept(a, b) && Flatten(b).spaces == Flatten(a).spaces[d as int := map[]]
    ensures Step(Flatten(a), Create(d), Flatten(b)) && PhysInv(b)
  {
    OwnsNothing(a, d);
    KeptIsKeepsData(a, b);
    hide Tables, SpaceOf, DataKept, Inv, KeepsData;
    StepInv(Flatten(a), Create(d), Flatten(b));
  }

  lemma TablesAfterDir(s: Phys, d: nat, w: seq<nat>)
    requires Tables(s) && d in s.pm.free && |w| == ENTRIES
    requires forall i :: USER_PDE_LO <= i < USER_PDE_HI ==> w[i] == 0
    ensures Tables(Phys(s.mem[d := Words(w)], Take(s.pm, d), s.dirs + {d}, s.tabs))
  {
    var mem' := s.mem[d := Words(w)];
    assert d !in s.dirs && d !in s.tabs;
    assert forall i :: UserSlot(i) ==> !Present(WordAt(mem', d, i));
    hide Present, FrameOf;
    assert forall e, i :: e in s.dirs ==> WordAt(mem', e, i) == WordAt(s.mem, e, i);
  }

  lemma OwnsNothing(s: Phys, d: int)
    requires Tables(s) && d in s.pm.free
    ensures Owned(s, d) == {d} && d !in s.dirs && d !in s.tabs
  {
    assert forall t :: t in s.tabs ==> s.tabs[t].0 in s.dirs;
  }

  lemma ZeroTaken(s: Phys)
    requires Tables(s)
    ensures 0 !in s.pm.free && |s.mem| == PAGES_MAX
  {
  }

  lemma EmptyDirectory(mem: seq<Frame>, d: int)
    requires forall i :: USER_PDE_LO <= i < USER_PDE_HI ==> WordAt(mem, d, i) == 0
    ensures SpaceOf(mem, d) == map[]
  {
    forall vp | USER_LO <= vp < USER_HI ensures !HasPage(mem, d, vp) {
      assert USER_PDE_LO <= vp / 1024 < USER_PDE_HI;
    }
  }

  lemma NewDirectory(s: Phys, d: nat, w: seq<nat>)
    requires Tables(s) && d in s.pm.free && |w| == ENTRIES
    requires forall i :: USER_PDE_LO <= i < USER_PDE_HI ==> w[i] == 0
    ensures var s' := Phys(s.mem[d := Words(w)], Take(s.pm, d), s.dirs + {d}, s.tabs);
            Tables(s') && Flatten(s').spaces == Flatten(s).spaces[d := map[]] && Owned(s', d) == {d} && DataKept(s, s')
  {
    var mem' := s.mem[d := Words(w)];
    var s' := Phys(mem', Take(s.pm, d), s.dirs + {d}, s.tabs);
    TablesAfterDir(s, d, w);
    EmptyDirectory(mem', d);
    OwnsNothing(s, d);
    assert Owned(s', d) == Owned(s, d);
    StoreData(s, d, Words(w));
    hide Tables, SpaceOf;
    var m := s.(mem := mem');
    assert Flatten(m).spaces == Flatten(s).spaces;
    forall e | e in s'.dirs ensures Flatten(s').spaces[e] == Flatten(s).spaces[d as int := map[]][e] {
      if e != d {
        assert Flatten(s').spaces[e] == Flatten(m).spaces[e];
      }
    }
  }

  // ------------------------------------------------------------------
  // One page of uvm_clone

  /** Before page vp is shared, the source still maps it as it did. */
  lemma CurrentPte(a: Phys, d: int, c: int, vp: int, b: Phys)
    requires WellFormed(a.pm) && WellFormed(b.pm) && CloningAt(a, d, c, vp, b) && USER_LO <= vp < USER_HI
    ensures Present(PteWord(b.mem, d, vp)) <==> vp in SpaceOf(a.mem, d)
    ensures vp in SpaceOf(a.mem, d) ==> Decode(PteWord(b.mem, d, vp)) == SpaceOf(a.mem, d)[vp]
  {
    assert SpaceOf(b.mem, d) == Flatten(b).spaces[d] == DownBelow(SpaceOf(a.mem, d), vp);
    assert vp in SpaceOf(b.mem, d) <==> HasPage(b.mem, d, vp);
  }

  lemma CloneSkip(a: Phys, d: int, c: int, lo: int, hi: int, b: Phys)
    requires WellFormed(a.pm) && WellFormed(b.pm) && CloningAt(a, d, c, lo, b) && lo <= hi
    requires forall x :: lo <= x < hi ==> x !in SpaceOf(a.mem, d)
    ensures CloningAt(a, d, c, hi, b)
  {
    var sp := SpaceOf(a.mem, d);
    assert DownBelow(sp, hi) == DownBelow(sp, lo);
    assert SharedBelow(sp, hi) == SharedBelow(sp, lo);
    assert forall f :: UsingBelow(sp, hi, f) == UsingBelow(sp, lo, f);
  }

  lemma NoPagesThere(a: Phys, d: int, c: int, i: int, b: Phys)
    requires WellFormed(a.pm) && WellFormed(b.pm) && CloningAt(a, d, c, i * 1024, b) && UserSlot(i)
    requires !Present(WordAt(b.mem, d, i))
    ensures forall x :: i * 1024 <= x < (i + 1) * 1024 ==> x !in SpaceOf(a.mem, d)
  {
    var sp := SpaceOf(a.mem, d);
    assert SpaceOf(b.mem, d) == Flatten(b).spaces[d] == DownBelow(sp, i * 1024);
    forall x | i * 1024 <= x < (i + 1) * 1024 ensures x !in sp {
      assert x / 1024 == i;
      assert !HasPage(b.mem, d, x);
      assert x !in SpaceOf(b.mem, d);
    }
  }

  lemma AbsentSlot(a: Phys, d: int, c: int, i: int, b: Phys)
    requires WellFormed(a.pm) && WellFormed(b.pm) && CloningAt(a, d, c, i * 1024, b) && UserSlot(i)
    requires !Present(WordAt(b.mem, d, i))
    ensures CloningAt(a, d, c, (i + 1) * 1024, b)
  {
    NoPagesThere(a, d, c, i, b);
    CloneSkip(a, d, c, i * 1024, (i + 1) * 1024, b);
  }

  lemma BelowNext(sp: Space, vp: int)
    requires vp in sp
    ensures DownBelow(sp, vp + 1) == DownBelow(sp, vp)[vp := Down(sp[vp])]
    ensures SharedBelow(sp, vp + 1) == SharedBelow(sp, vp)[vp := Down(sp[vp])]
    ensures !sp[vp].write ==> DownBelow(sp, vp + 1) == DownBelow(sp, vp)
  {
  }

  lemma SourceFrame(a: Phys, d: int, vp: int)
    requires PhysInv(a) && d in a.dirs && vp in SpaceOf(a.mem, d)
    ensures var f := SpaceOf(a.mem, d)[vp].frame;
            0 < f < PAGES_MAX && f !in a.pm.free && |a.mem| == PAGES_MAX && a.mem[f].Bytes? &&
            SpaceOf(a.mem, d)[vp].user
  {
    var fa := Flatten(a);
    assert fa.spaces[d] == SpaceOf(a.mem, d);
    assert PteOk(fa, vp, fa.spaces[d][vp]);
  }

  lemma RoomBelow(a: Phys, d: int, vp: int, f: int)
    requires PhysInv(a) && d in a.dirs && RoomToShare(Flatten(a), d) && 0 <= f < PAGES_MAX
    ensures a.pm.refs[f] + |UsingBelow(SpaceOf(a.mem, d), vp, f)| <= MAX_REFS
  {
    var sp := SpaceOf(a.mem, d);
    assert Flatten(a).spaces[d] == sp;
    assert UsingBelow(sp, vp, f) <= Using(sp, f);
    SubsetCard(UsingBelow(sp, vp, f), Using(sp, f));
  }

  lemma RoomHere(a: Phys, d: int, vp: int)
    requires PhysInv(a) && d in a.dirs && RoomToShare(Flatten(a), d) && vp in SpaceOf(a.mem, d)
    ensures var f := SpaceOf(a.mem, d)[vp].frame;
            0 < f < PAGES_MAX && f !in a.pm.free && a.pm.refs[f] + |UsingBelow(SpaceOf(a.mem, d), vp, f)| < MAX_REFS
  {
    SourceFrame(a, d, vp);
    var sp := SpaceOf(a.mem, d);
    assert Flatten(a).spaces[d] == sp;
    var f := sp[vp].frame;
    hide SpaceOf, Tables, Inv;
    assert vp in Using(sp, f) && UsingBelow(sp, vp, f) <= Using(sp, f) - {vp};
    CardRemove(Using(sp, f), vp);
    SubsetCard(UsingBelow(sp, vp, f), Using(sp, f) - {vp});
  }

  /** State b2: page vp downgraded in the parent and its frame retained. */
  ghost function Retained(b: Phys, mem: seq<Frame>, f: int): Phys
    requires WellFormed(b.pm) && 0 <= f
  {
    b.(mem := mem, pm := AddRef(b.pm, f))
  }

  ghost predicate ParentDone(a: Phys, d: int, c: int, vp: int, b: Phys, mem: seq<Frame>)
    requires WellFormed(a.pm) && WellFormed(b.pm)
  {
    && CloningAt(a, d, c, vp, b)
    && Tables(b.(mem := mem)) && DataKept(b, b.(mem := mem)) && d != c
    && vp in SpaceOf(a.mem, d)
    && Flatten(b.(mem := mem)).spaces == Flatten(b).spaces[d := DownBelow(SpaceOf(a.mem, d), vp + 1)]
  }

  lemma RetainKeepsTables(b: Phys, f: int)
    requires Tables(b) && 0 <= f < PAGES_MAX && f !in b.dirs && f !in b.tabs
    ensures Tables(b.(pm := AddRef(b.pm, f))) && Flatten(b.(pm := AddRef(b.pm, f))).spaces == Flatten(b).spaces
  {
  }

  lemma SharedCounts(sp: Space, vp: int, a: Frames, owned: set<int>, b: Frames, owned': set<int>, e: Frames)
    requires WellFormed(a) && WellFormed(b) && WellFormed(e) && CloneCounts(sp, a, owned, vp, b)
    requires vp in sp && 0 < sp[vp].frame < PAGES_MAX && sp[vp].frame !in a.free
    requires owned <= owned' && Taken(AddRef(b, sp[vp].frame), owned' - owned, e)
    ensures CloneCounts(sp, a, owned', vp + 1, e)
  {
    forall f | 0 <= f < PAGES_MAX
      ensures e.refs[f] == if f in owned' then 1 else Capped(a.refs[f] + |UsingBelow(sp, vp + 1, f)|)
    {
      UsingBelowNext(sp, vp, f);
    }
    assert e.free == a.free - owned';
  }

  lemma ShareSpaces(a: Phys, d: int, c: int, vp: int, b2: Phys, e: Phys)
    requires d in a.dirs && c !in a.dirs && b2.dirs == a.dirs + {c} && e.dirs == b2.dirs && vp in SpaceOf(a.mem, d)
    requires Flatten(b2).spaces ==
             Flatten(a).spaces[d := DownBelow(SpaceOf(a.mem, d), vp + 1)][c := SharedBelow(SpaceOf(a.mem, d), vp)]
    requires Flatten(e).spaces == Flatten(b2).spaces[c := SpaceOf(b2.mem, c)[vp := Down(SpaceOf(a.mem, d)[vp])]]
    ensures CloneSpaces(a, d, c, vp + 1, e)
  {
    hide SpaceOf, DownBelow, SharedBelow;
    assert SpaceOf(b2.mem, c) == Flatten(b2).spaces[c];
    BelowNext(SpaceOf(a.mem, d), vp);
  }

  lemma ShareTabs(a: Phys, c: int, b: Phys, e: Phys)
    requires WellFormed(b.pm) && WellFormed(e.pm)
    requires b.tabs - Owned(b, c) == a.tabs && GrowsBy(b, c, e)
    ensures e.tabs - Owned(e, c) == a.tabs && Owned(b, c) <= Owned(e, c)
  {
    assert forall t :: t in b.tabs ==> t in e.tabs && e.tabs[t] == b.tabs[t];
    assert forall t :: t in e.tabs ==> t in b.tabs || e.tabs[t].0 == c;
    forall t | t in Owned(b, c) ensures t in Owned(e, c) {
    }
    var x, y := e.tabs - Owned(e, c), b.tabs - Owned(b, c);
    forall t ensures t in x <==> t in y {
      if t in y { assert t in e.tabs && e.tabs[t].0 != c; }
    }
    assert x == y;
  }

  lemma GrowthIsTaken(a: Phys, d: int, b: Phys)
    requires WellFormed(a.pm) && WellFormed(b.pm) && GrowsBy(a, d, b)
    ensures Taken(a.pm, Owned(b, d) - Owned(a, d), b.pm)
  {
  }

  lemma ShareData(a: Phys, b: Phys, b1: Phys, b2: Phys, e: Phys)
    requires DataKept(a, b) && DataKept(b, b1) && DataKept(b2, e)
    requires b1.mem == b2.mem && b2.pm.free == b.pm.free && b.pm.free <= a.pm.free
    ensures DataKept(a, e)
  {
  }

  lemma CloneShare(a: Phys, d: int, c: int, vp: int, b: Phys, mem: seq<Frame>, e: Phys)
    requires WellFormed(a.pm) && PhysInv(a) && WellFormed(b.pm) && WellFormed(e.pm) && ParentDone(a, d, c, vp, b, mem)
    requires MapRel(Retained(b, mem, SpaceOf(a.mem, d)[vp].frame), c, vp, Down(SpaceOf(a.mem, d)[vp]), e)
    ensures CloningAt(a, d, c, vp + 1, e)
  {
    hide Tables, SpaceOf, UsingBelow, DownBelow, SharedBelow, Inv, RoomToShare, Down, DataKept, GrowsBy, WellFormed;
    var sp := SpaceOf(a.mem, d);
    var f := sp[vp].frame;
    SourceFrame(a, d, vp);
    var b2 := Retained(b, mem, f);
    assert Flatten(b2).spaces == Flatten(b.(mem := mem)).spaces;
    UpdateTwice(Flatten(a).spaces, d, DownBelow(sp, vp), c, SharedBelow(sp, vp), DownBelow(sp, vp + 1));
    ShareSpaces(a, d, c, vp, b2, e);
    assert Owned(b2, c) == Owned(b, c);
    ShareTabs(a, c, b2, e);
    GrowthIsTaken(b2, c, e);
    SharedCounts(sp, vp, a.pm, Owned(b, c), b.pm, Owned(e, c), e.pm);
    ShareData(a, b, b.(mem := mem), b2, e);
  }

  // ------------------------------------------------------------------
  // The copy-on-write fault

  lemma CowWord(w: nat)
    requires Present(w)
    ensures var x := FrameOf(w) * 4096 + OrWrite(WithoutCow(w % 4096));
            Present(x) && Decode(x) == Decode(w).(write := true, cow := false)
  {
    var fl := w % 4096;
    DecodeEntry(FrameOf(w), fl);
    assert w == FrameOf(w) * 4096 + fl;
    WithoutCowFlags(fl);
    OrWriteFlags(WithoutCow(fl));
    DecodeEntry(FrameOf(w), OrWrite(WithoutCow(fl)));
  }

  lemma CowWordAt(w: nat, nf: nat)
    requires Present(w)
    ensures var x := nf * 4096 + OrWrite(WithoutCow(w % 4096));
            Present(x) && Decode(x) == Decode(w).(frame := nf, write := true, cow := false)
  {
    CowWord(w);
    DecodeEntry(FrameOf(w), w % 4096);
    WithoutCowFlags(w % 4096);
    OrWriteFlags(WithoutCow(w % 4096));
    DecodeEntry(nf, OrWrite(WithoutCow(w % 4096)));
    DecodeEntry(FrameOf(w), OrWrite(WithoutCow(w % 4096)));
  }

  /** Writing a frame that is no table changes no address space. */
  lemma StoreData(s: Phys, f: int, x: Frame)
    requires Tables(s) && 0 <= f < PAGES_MAX && f !in s.dirs && f !in s.tabs
    ensures var s' := s.(mem := s.mem[f := x]); Tables(s') && Flatten(s').spaces == Flatten(s).spaces
  {
    var mem' := s.mem[f := x];
    forall d | d in s.dirs ensures SpaceOf(mem', d) == SpaceOf(s.mem, d) {
      forall vp | USER_LO <= vp < USER_HI ensures PteWord(mem', d, vp) == PteWord(s.mem, d, vp) {
        if Present(WordAt(s.mem, d, vp / 1024)) { TableOf(s, d, vp); }
      }
      SpaceSame(s.mem, mem', d);
    }
  }

  /** The allocator may change as long as the frames of tables keep their one reference. */
  lemma ChangePm(s: Phys, pm: Frames)
    requires Tables(s) && WellFormed(pm) && 0 !in pm.free
    requires forall t :: t in s.dirs || t in s.tabs ==> 0 <= t < PAGES_MAX && t !in pm.free && pm.refs[t] == 1
    ensures Tables(s.(pm := pm)) && Flatten(s.(pm := pm)).spaces == Flatten(s).spaces
  {
  }

  lemma MappedIsData(s: Phys, d: int, vp: int)
    requires PhysInv(s) && d in s.dirs && vp in SpaceOf(s.mem, d)
    ensures var p := SpaceOf(s.mem, d)[vp];
            PteOk(Flatten(s), vp, p) && p.frame !in s.dirs && p.frame !in s.tabs && s.pm.refs[p.frame] >= 1
            && Present(WordAt(s.mem, d, vp / 1024)) && Present(PteWord(s.mem, d, vp)) &&
               Decode(PteWord(s.mem, d, vp)) == p
  {
    var fl := Flatten(s);
    assert fl.spaces[d] == SpaceOf(s.mem, d);
    assert PteOk(fl, vp, fl.spaces[d][vp]);
    SoleOwner(fl, d, vp);
    assert HasPage(s.mem, d, vp);
    var f := fl.spaces[d][vp].frame;
    if f in s.dirs || f in s.tabs { TableShape(s, f); }
  }

  ghost predicate FaultRel(a: Phys, d: int, vp: int, nf: nat, b: Phys)
    requires WellFormed(a.pm) && WellFormed(b.pm)
  {
    && d in a.dirs && b.dirs == a.dirs && b.tabs == a.tabs && Tables(b) && DataKept(a, b)
    && vp in SpaceOf(a.mem, d)
    && var p := SpaceOf(a.mem, d)[vp];
    && p.cow && 0 <= p.frame < PAGES_MAX
    && var q := Resolved(Flatten(a), p.(write := false), nf);
    && Flatten(b).spaces == Flatten(a).spaces[d := SpaceOf(a.mem, d)[vp := q]]
    && (if a.pm.refs[p.frame] == 1 then b.pm == a.pm else nf in a.pm.free && b.pm == Drop(Take(a.pm, nf), p.frame))
    && 0 <= q.frame < PAGES_MAX && b.mem[q.frame] == a.mem[p.frame]
  }

  /** The state after the copy is made and the old share dropped, before the entry is set. */
  ghost function Copied(a: Phys, f: int, nf: nat): Phys
    requires WellFormed(a.pm) && |a.mem| == PAGES_MAX && 0 <= f < PAGES_MAX && nf < PAGES_MAX
  {
    a.(mem := a.mem[nf := a.mem[f]], pm := Drop(Take(a.pm, nf), f))
  }

  lemma CopyStep(a: Phys, d: int, vp: int, nf: nat)
    requires PhysInv(a) && d in a.dirs && vp in SpaceOf(a.mem, d) && nf in a.pm.free
    requires a.pm.refs[SpaceOf(a.mem, d)[vp].frame] != 1
    ensures var f := SpaceOf(a.mem, d)[vp].frame;
            0 <= f < PAGES_MAX && f != nf && f !in a.pm.free &&
            var c := Copied(a, f, nf);
            Tables(c) && Flatten(c).spaces == Flatten(a).spaces && DataKept(a, c) && c.mem[nf] == a.mem[f]
  {
    var f := SpaceOf(a.mem, d)[vp].frame;
    MappedIsData(a, d, vp);
    assert nf !in a.dirs && nf !in a.tabs;
    StoreData(a, nf, a.mem[f]);
    var m := a.(mem := a.mem[nf := a.mem[f]]);
    var pm := Drop(Take(a.pm, nf), f);
    forall t | t in a.dirs || t in a.tabs ensures 0 <= t < PAGES_MAX && t !in pm.free && pm.refs[t] == 1 {
      assert TableFrame(a, t);
    }
    ChangePm(m, pm);
  }

  /** A ring-3 store through a resolved entry is the Write step. */
  lemma StoreIsStep(a: Phys, d: int, vp: int, k: nat, v: Byte, nf: nat, b: Phys, e: Phys)
    requires WellFormed(a.pm) && |a.mem| == PAGES_MAX && PhysInv(a) && d in a.dirs && vp in SpaceOf(a.mem, d)
    requires k < PAGE_SIZE && WellFormed(b.pm) && WellFormed(e.pm) && Tables(b) && |b.mem| == PAGES_MAX
    requires FaultRel(a, d, vp, nf, b) || (b == a && SpaceOf(a.mem, d)[vp].write)
    requires 0 <= SpaceOf(a.mem, d)[vp].frame < PAGES_MAX
    requires var q := Resolved(Flatten(a), SpaceOf(a.mem, d)[vp], nf);
             0 <= q.frame < PAGES_MAX && b.mem[q.frame].Bytes? && k < |b.mem[q.frame].b| &&
             e == b.(mem := b.mem[q.frame := Bytes(b.mem[q.frame].b[k := v])])
    ensures Step(Flatten(a), Write(d, vp, k, v, nf), Flatten(e)) && Tables(e)
  {
    hide Tables, SpaceOf, DataKept;
    var p := SpaceOf(a.mem, d)[vp];
    var q := Resolved(Flatten(a), p, nf);
    MappedIsData(a, d, vp);
    assert DataKept(a, b) by { if b == a { DataKeptSelf(a); } }
    KeptIsKeepsData(a, b);
    assert Flatten(a).spaces[d] == SpaceOf(a.mem, d);
    assert q.frame !in b.dirs && q.frame !in b.tabs by {
      if q.frame in b.dirs || q.frame in b.tabs { TableShape(b, q.frame); }
    }
    StoreData(b, q.frame, Bytes(b.mem[q.frame].b[k := v]));
    if p.write {
      UpdateSame(SpaceOf(a.mem, d), vp);
      UpdateSame(Flatten(a).spaces, d);
    }
  }

  lemma DataKeptSelf(a: Phys)
    requires |a.mem| == PAGES_MAX
    ensures DataKept(a, a)
  {
  }

  lemma SlotOf(s: Phys, t: int, j: int)
    requires Tables(s) && t in s.tabs && 0 <= j < 1024
    ensures var vp := s.tabs[t].1 * 1024 + j; USER_LO <= vp < USER_HI && vp / 1024 == s.tabs[t].1 && vp % 1024 == j
    ensures s.tabs[t].0 in s.dirs
  {
  }

  ghost function Rewritten(s: Phys, t: int, j: int, x: nat): Phys
    requires 0 <= t < |s.mem| && s.mem[t].Words? && 0 <= j < |s.mem[t].w|
  {
    s.(mem := SetWord(s.mem, t, j, x))
  }

  lemma SoleFault(a: Phys, d: int, t: int, j: int, pte: nat)
    requires WellFormed(a.pm) && PhysInv(a) && Tables(a) && d in a.dirs && t in a.tabs && a.tabs[t].0 == d &&
             0 <= j < ENTRIES
    requires pte == PteWord(a.mem, d, a.tabs[t].1 * 1024 + j) && Present(pte) && IsCow(pte)
    requires FrameOf(pte) < PAGES_MAX && |a.pm.refs| == PAGES_MAX && a.pm.refs[FrameOf(pte)] == 1
    requires 0 < t < |a.mem| && a.mem[t].Words? && |a.mem[t].w| == ENTRIES
    ensures var x := FrameOf(pte) * 4096 + OrWrite(WithoutCow(pte % 4096));
            var b := Rewritten(a, t, j, x);
            Tables(b) && FaultRel(a, d, a.tabs[t].1 * 1024 + j, 0, b)
  {
    hide Tables, SpaceOf, WellFormed, Inv, DataKept;
    var vp := a.tabs[t].1 * 1024 + j;
    SlotOf(a, t, j);
    SpaceMember(a.mem, d, vp);
    MappedIsData(a, d, vp);
    CowWord(pte);
    var x := FrameOf(pte) * 4096 + OrWrite(WithoutCow(pte % 4096));
    MapIntoTable(a, t, j, x);
    KeptFrame(a, Rewritten(a, t, j, x), FrameOf(pte));
  }

  lemma KeptFrame(a: Phys, b: Phys, f: int)
    requires DataKept(a, b) && 0 <= f < PAGES_MAX && f !in a.pm.free && a.mem[f].Bytes?
    ensures b.mem[f] == a.mem[f]
  {
  }

  lemma CopyFault(a: Phys, d: int, t: int, j: int, pte: nat, nf: nat)
    requires WellFormed(a.pm) && PhysInv(a) && Tables(a) && d in a.dirs && t in a.tabs && a.tabs[t].0 == d &&
             0 <= j < ENTRIES
    requires pte == PteWord(a.mem, d, a.tabs[t].1 * 1024 + j) && Present(pte) && IsCow(pte)
    requires FrameOf(pte) < PAGES_MAX && |a.pm.refs| == PAGES_MAX && a.pm.refs[FrameOf(pte)] != 1
    requires 0 < t < |a.mem| && a.mem[t].Words? && |a.mem[t].w| == ENTRIES && |a.mem| == PAGES_MAX &&
             nf in a.pm.free && nf < PAGES_MAX
    ensures var x := nf * 4096 + OrWrite(WithoutCow(pte % 4096));
            var c := Copied(a, FrameOf(pte), nf);
            c.mem[t] == a.mem[t] && Tables(Rewritten(c, t, j, x)) &&
            FaultRel(a, d, a.tabs[t].1 * 1024 + j, nf, Rewritten(c, t, j, x))
  {
    hide Tables, SpaceOf, WellFormed, Inv, DataKept, Drop, Take;
    var vp := a.tabs[t].1 * 1024 + j;
    var f := FrameOf(pte);
    SlotOf(a, t, j);
    SpaceMember(a.mem, d, vp);
    MappedIsData(a, d, vp);
    CopyStep(a, d, vp, nf);
    var c := Copied(a, f, nf);
    assert t != nf by { TableNotFree(a, t); }
    TableShape(c, t);
    CowWordAt(pte, nf);
    var x := nf * 4096 + OrWrite(WithoutCow(pte % 4096));
    MapIntoTable(c, t, j, x);
    assert SpaceOf(c.mem, d) == Flatten(c).spaces[d] == Flatten(a).spaces[d] == SpaceOf(a.mem, d);
    CopyKept(a, f, nf, c, Rewritten(c, t, j, x));
  }

  lemma TableIsNoDir(s: Phys, t: int)
    requires Tables(s) && t in s.tabs
    ensures t !in s.dirs
  {
  }

  lemma DirNotTable(s: Phys, d: int)
    requires Tables(s) && d in s.dirs
    ensures d !in s.tabs
  {
  }

  lemma TableNotFree(s: Phys, t: int)
    requires Tables(s) && (t in s.tabs || t in s.dirs)
    ensures t !in s.pm.free
  {
    assert TableFrame(s, t);
  }

  lemma FaultTarget(a: Phys, d: int, vp: int, nf: nat, b: Phys)
    requires PhysInv(a) && d in a.dirs && USER_LO <= vp < USER_HI && vp in SpaceOf(a.mem, d) &&
             !SpaceOf(a.mem, d)[vp].write
    requires WellFormed(a.pm) && WellFormed(b.pm) && FaultRel(a, d, vp, nf, b)
    ensures var p := SpaceOf(a.mem, d)[vp];
            0 <= p.frame < PAGES_MAX &&
            var q := Resolved(Flatten(a), p, nf);
            FrameOf(PteWord(b.mem, d, vp)) == q.frame && 0 <= q.frame < |b.mem| == PAGES_MAX &&
            b.mem[q.frame].Bytes? && |b.mem[q.frame].b| == PAGE_SIZE
  {
    hide Tables, SpaceOf, WellFormed, Inv, Drop, Take;
    MappedIsData(a, d, vp);
    assert SpaceOf(b.mem, d) == Flatten(b).spaces[d];
    SpaceMember(b.mem, d, vp);
  }

  lemma TableWalk(mem: seq<Frame>, d: int, i: int, j: int)
    requires 0 <= j < 1024 && Present(WordAt(mem, d, i))
    ensures PteWord(mem, d, i * 1024 + j) == WordAt(mem, FrameOf(WordAt(mem, d, i)), j)
    ensures TableVisit(mem, d, i * 1024 + j) == if j == 1023 then [FrameOf(WordAt(mem, d, i))] else []
  {
    assert (i * 1024 + j) / 1024 == i && (i * 1024 + j) % 1024 == j;
  }

  lemma SpaceMember(mem: seq<Frame>, d: int, vp: int)
    requires USER_LO <= vp < USER_HI
    ensures vp in SpaceOf(mem, d) <==> Present(PteWord(mem, d, vp))
    ensures vp in SpaceOf(mem, d) ==> SpaceOf(mem, d)[vp] == Decode(PteWord(mem, d, vp))
    ensures PteWord(mem, d, vp) == var e := WordAt(mem, d, vp / 1024);
            if Present(e) then WordAt(mem, FrameOf(e), vp % 1024) else 0
  {
    assert vp in SpaceOf(mem, d) <==> HasPage(mem, d, vp);
  }

  lemma CopyKept(a: Phys, f: int, nf: nat, c: Phys, e: Phys)
    requires WellFormed(a.pm) && |a.mem| == PAGES_MAX && nf in a.pm.free && 0 <= f < PAGES_MAX && f != nf &&
             f !in a.pm.free
    requires c == Copied(a, f, nf) && DataKept(a, c) && DataKept(c, e) && a.mem[f].Bytes? && a.pm.refs[f] > 1
    ensures DataKept(a, e) && e.mem[nf] == a.mem[f]
  {
  }

  // ------------------------------------------------------------------
  // uvm_free as written starts at slot 0

  /** Slot i < 32 of directory d holds a table of the kernel: in use, not a table of d. */
  ghost predicate KernelSlot(s: Phys, d: int, i: int)
    requires |s.mem| == PAGES_MAX && WellFormed(s.pm)
  {
    var t := FrameOf(WordAt(s.mem, d, i));
    t < PAGES_MAX && t !in s.pm.free && s.mem[t].Words? && t !in Owned(s, d)
  }

  ghost predicate NoIdentity(mem: seq<Frame>, d: int) {
    forall i :: 0 <= i < USER_PDE_LO ==> !Present(WordAt(mem, d, i))
  }

  lemma {:induction false} WalkSplit(mem: seq<Frame>, d: int, vp: int)
    requires USER_LO <= vp
    ensures WalkTo(mem, d, 0, vp) == WalkTo(mem, d, 0, USER_LO) + WalkTo(mem, d, USER_PDE_LO, vp)
    decreases vp
  {
    hide PteVisit, TableVisit, WalkTo;
    if vp == USER_LO {
      WalkEmpty(mem, d, USER_PDE_LO);
    } else {
      WalkSplit(mem, d, vp - 1);
      WalkNext(mem, d, 0, vp - 1);
      WalkNext(mem, d, USER_PDE_LO, vp - 1);
    }
  }

  lemma {:induction false} NothingLow(mem: seq<Frame>, d: int, i: int)
    requires NoIdentity(mem, d) && 0 <= i <= USER_PDE_LO
    ensures WalkTo(mem, d, 0, i * 1024) == []
  {
    if i > 0 {
      NothingLow(mem, d, i - 1);
      SkipAbsent(mem, d, 0, i - 1, 1024);
    }
  }

  lemma {:induction false} LowTableVisited(mem: seq<Frame>, d: int, i: int, vp: int)
    requires 0 <= i && Present(WordAt(mem, d, i)) && (i + 1) * 1024 <= vp
    ensures FrameOf(WordAt(mem, d, i)) in WalkTo(mem, d, 0, vp)
    decreases vp
  {
    WalkNext(mem, d, 0, vp - 1);
    hide WalkTo, Present;
    if vp == (i + 1) * 1024 {
      assert (vp - 1) / 1024 == i && (vp - 1) % 1024 == 1023;
    } else {
      LowTableVisited(mem, d, i, vp - 1);
    }
  }

  lemma WalkWithoutIdentity(mem: seq<Frame>, d: nat)
    requires NoIdentity(mem, d)
    ensures Walk(mem, d, 0) == Walk(mem, d, USER_PDE_LO)
  {
    hide WalkTo;
    WalkSplit(mem, d, USER_HI);
    NothingLow(mem, d, USER_PDE_LO);
    assert USER_PDE_LO * 1024 == USER_LO;
  }

  /** Started at slot 0, uvm_free gives back exactly the user range if and only if
      the directory has no identity-map slot; every kernel table found there loses a
      reference that nobody gave it. */
  lemma LiteralFreeIsExact(s: Phys, d: nat)
    requires PhysInv(s) && d in s.dirs
    requires forall i :: 0 <= i < USER_PDE_LO && Present(WordAt(s.mem, d, i)) ==> KernelSlot(s, d, i)
    ensures AfterFree(s, d, 0) == AfterFree(s, d, USER_PDE_LO) <==> NoIdentity(s.mem, d)
    ensures forall i :: 0 <= i < USER_PDE_LO && Present(WordAt(s.mem, d, i)) ==>
              var t := FrameOf(WordAt(s.mem, d, i));
              Weight(AfterFree(s, d, 0).pm, t) < Weight(s.pm, t) == Weight(AfterFree(s, d, USER_PDE_LO).pm, t)
  {
    if NoIdentity(s.mem, d) {
      WalkWithoutIdentity(s.mem, d);
    }
    forall i | 0 <= i < USER_PDE_LO && Present(WordAt(s.mem, d, i))
      ensures var t := FrameOf(WordAt(s.mem, d, i));
              Weight(AfterFree(s, d, 0).pm, t) < Weight(s.pm, t) == Weight(AfterFree(s, d, USER_PDE_LO).pm, t)
    {
      LiteralDropsKernelTable(s, d, i);
    }
  }

  lemma LiteralDropsKernelTable(s: Phys, d: nat, i: int)
    requires WellFormed(s.pm) && |s.mem| == PAGES_MAX && PhysInv(s) && d in s.dirs && 0 <= i < USER_PDE_LO
    requires Present(WordAt(s.mem, d, i)) && KernelSlot(s, d, i)
    ensures var t := FrameOf(WordAt(s.mem, d, i));
            Weight(AfterFree(s, d, 0).pm, t) < Weight(s.pm, t) == Weight(AfterFree(s, d, USER_PDE_LO).pm, t)
  {
    hide Tables, SpaceOf, Inv, Walk, DropAll, PhysInv, WordAt, Present, FrameOf;
    var t := FrameOf(WordAt(s.mem, d, i));
    LowTableInWalk(s.mem, d, i);
    DropAllWeights(s.pm, Walk(s.mem, d, 0), t);
    FreeCounts(s, d, t);
    NotMappedWords(s, d, t);
    DropAllWeights(s.pm, Walk(s.mem, d, USER_PDE_LO), t);
  }

  lemma LowTableInWalk(mem: seq<Frame>, d: nat, i: int)
    requires 0 <= i < USER_PDE_LO && Present(WordAt(mem, d, i))
    ensures multiset(Walk(mem, d, 0))[FrameOf(WordAt(mem, d, i))] >= 1
  {
    hide WalkTo, WordAt, Present, FrameOf;
    var t := FrameOf(WordAt(mem, d, i));
    LowTableVisited(mem, d, i, USER_HI);
    assert t in WalkTo(mem, d, 0, USER_HI);
    assert t in Walk(mem, d, 0);
  }

  /** Frames the loop drops for slots 0..31, on top of the user range. */
  lemma LiteralWeights(s: Phys, d: nat, f: nat)
    requires WellFormed(s.pm) && f < PAGES_MAX
    ensures Weight(AfterFree(s, d, 0).pm, f) ==
            Monus(Weight(AfterFree(s, d, USER_PDE_LO).pm, f), multiset(WalkTo(s.mem, d, 0, USER_LO))[f])
    ensures f in AfterFree(s, d, 0).pm.free <==>
            f in AfterFree(s, d, USER_PDE_LO).pm.free ||
              multiset(WalkTo(s.mem, d, 0, USER_LO))[f] >= Weight(AfterFree(s, d, USER_PDE_LO).pm, f)
  {
    hide WalkTo, DropAll, Weight, WellFormed;
    var low, user := WalkTo(s.mem, d, 0, USER_LO), WalkTo(s.mem, d, USER_PDE_LO, USER_HI);
    WalkSplit(s.mem, d, USER_HI);
    assert Walk(s.mem, d, 0) == low + Walk(s.mem, d, USER_PDE_LO);
    assert multiset(Walk(s.mem, d, 0)) == multiset(low) + multiset(Walk(s.mem, d, USER_PDE_LO));
    DropAllWeights(s.pm, Walk(s.mem, d, 0), f);
    DropAllWeights(s.pm, Walk(s.mem, d, USER_PDE_LO), f);
  }

  /** Slots 0..31 lead to tables that map every page below 128 MB to itself, as
      paging_init builds them. */
  ghost predicate IdentityTables(mem: seq<Frame>, d: int) {
    forall vp :: 0 <= vp < USER_LO ==> PteWord(mem, d, vp) == vp * 4096 + 3
  }

  lemma {:induction false} IdentityVisited(mem: seq<Frame>, d: int, f: nat, vp: int)
    requires IdentityTables(mem, d) && f < vp <= USER_LO
    ensures f in WalkTo(mem, d, 0, vp)
    decreases vp
  {
    hide WalkTo, PteVisit, TableVisit, IdentityTables;
    WalkNext(mem, d, 0, vp - 1);
    if vp == f + 1 {
      IdentityVisit(mem, d, f);
      assert f in PteVisit(mem, d, f);
    } else {
      IdentityVisited(mem, d, f, vp - 1);
    }
  }

  lemma IdentityVisit(mem: seq<Frame>, d: int, f: nat)
    requires IdentityTables(mem, d) && f < USER_LO
    ensures PteVisit(mem, d, f) == [f]
  {
    assert PteWord(mem, d, f) == f * 4096 + 3;
    hide PteWord;
  }

  /** With those tables every frame below 128 MB that is in use after the user range
      has been freed loses a reference more. */
  lemma LiteralDropsAll(s: Phys, d: nat, f: nat)
    requires WellFormed(s.pm) && IdentityTables(s.mem, d) && f < USER_LO &&
             Weight(AfterFree(s, d, USER_PDE_LO).pm, f) > 0
    ensures Weight(AfterFree(s, d, 0).pm, f) < Weight(AfterFree(s, d, USER_PDE_LO).pm, f)
  {
    hide WalkTo, DropAll, Weight, WellFormed, AfterFree, IdentityTables;
    IdentityVisited(s.mem, d, f, USER_LO);
    assert multiset(WalkTo(s.mem, d, 0, USER_LO))[f] > 0;
    LiteralWeights(s, d, f);
  }

  /** So a page that another address space maps alone is freed while it is mapped. */
  lemma LiteralFreesMapped(s: Phys, d: nat, e: int, vp: int)
    requires WellFormed(s.pm) && PhysInv(s) && d in s.dirs && IdentityTables(s.mem, d)
    requires e in s.dirs && e != d && vp in SpaceOf(s.mem, e)
    requires SpaceOf(s.mem, e)[vp].frame < USER_LO && s.pm.refs[SpaceOf(s.mem, e)[vp].frame] == 1
    ensures SpaceOf(s.mem, e)[vp].frame in AfterFree(s, d, 0).pm.free && !PhysInv(AfterFree(s, d, 0))
  {
    hide Tables, SpaceOf, WalkTo, DropAll, IdentityTables;
    var f := SpaceOf(s.mem, e)[vp].frame;
    MappedIsData(s, e, vp);
    var t := AfterFree(s, d, 0);
    IdentityVisited(s.mem, d, f, USER_LO);
    WalkSplit(s.mem, d, USER_HI);
    assert f in Walk(s.mem, d, 0);
    assert multiset(Walk(s.mem, d, 0))[f] >= 1;
    DropAllWeights(s.pm, Walk(s.mem, d, 0), f);
    assert Flatten(t).spaces[e] == SpaceOf(s.mem, e);
    assert !PteOk(Flatten(t), vp, Flatten(t).spaces[e][vp]);
  }

  // ------------------------------------------------------------------
  // Such a state: the tables paging_init takes from 1 MB on, and two directories

  lemma NotMappedWords(s: Phys, d: int, t: int)
    requires PhysInv(s) && d in s.dirs && 0 <= t < PAGES_MAX && s.mem[t].Words?
    ensures Using(SpaceOf(s.mem, d), t) == {}
  {
    var fl := Flatten(s);
    forall vp | vp in fl.spaces[d] ensures fl.spaces[d][vp].frame != t {
      assert PteOk(fl, vp, fl.spaces[d][vp]);
    }
  }

  // ------------------------------------------------------------------
  // uvm_clone out of memory

  /** What is left when a clone fails at page vp: the parent's pages up to vp are
      marked copy-on-write, and nothing any space can see has changed. */
  ghost predicate FailedClone(a: Phys, d: int, vp: int, b: Phys) {
    && d in a.dirs && b.dirs == a.dirs && b.tabs == a.tabs && DataKept(a, b)
    && Flatten(b).spaces == Flatten(a).spaces[d := DownBelow(SpaceOf(a.mem, d), vp)]
  }

  lemma FailedCloneView(a: Phys, d: int, vp: int, b: Phys)
    requires PhysInv(a) && FailedClone(a, d, vp, b)
    ensures View(Flatten(b)) == View(Flatten(a))
  {
    hide Tables, SpaceOf, WellFormed, DataKept, View, KeepsData, Mappers;
    var fa, fb := Flatten(a), Flatten(b);
    assert fa.spaces[d] == SpaceOf(a.mem, d);
    KeptIsKeepsData(a, b);
    var w: Eager := View(fa);
    ViewKeys(fa);
    forall e | e in w ensures w[e].Keys == fb.spaces[e].Keys { ViewHas(fa, e); }
    forall e, x | e in w && x in w[e] ensures w[e][x] == PageOf(fb.mem, fb.spaces[e][x]) {
      ViewHas(fa, e);
      KeptPage(fa, fb, e, x);
      assert PageOf(fb.mem, fb.spaces[e][x]) == PageOf(fb.mem, fa.spaces[e][x]);
    }
    ViewIs(fb, w);
  }

  lemma FailedCloneState(a: Phys, d: int, c: nat, vp: int, b: Phys, mem: seq<Frame>)
    requires WellFormed(a.pm) && WellFormed(b.pm) && ParentDone(a, d, c, vp, b, mem) && 0 <= SpaceOf(a.mem, d)[vp].frame
    ensures var b2 := Retained(b, mem, SpaceOf(a.mem, d)[vp].frame); FailedClone(a, d, vp + 1, AfterFree(b2, c, 0))
  {
    hide Tables, WellFormed, Walk, DropAll, CloneCounts, DownBelow, SharedBelow, SpaceOf;
    var sp := SpaceOf(a.mem, d);
    var b2 := Retained(b, mem, sp[vp].frame);
    var e := AfterFree(b2, c, 0);
    assert Owned(b2, c) == Owned(b, c);
    UpdateTwice(Flatten(a).spaces, d, DownBelow(sp, vp), c, SharedBelow(sp, vp), DownBelow(sp, vp + 1));
    assert Flatten(e).spaces == Flatten(b2).spaces - {c};
    assert Flatten(b2).spaces == Flatten(b.(mem := mem)).spaces;
    assert e.dirs == a.dirs;
    FreeShrinks(sp, a.pm, Owned(b, c), vp, b.pm);
    ShareDataFree(a, b, b.(mem := mem));
    assert DataKept(a, e);
  }

  lemma FreeShrinks(sp: Space, a: Frames, owned: set<int>, vp: int, b: Frames)
    requires WellFormed(a) && WellFormed(b) && CloneCounts(sp, a, owned, vp, b)
    ensures b.free <= a.free
  {
  }

  lemma ShareDataFree(a: Phys, b: Phys, b1: Phys)
    requires WellFormed(a.pm) && WellFormed(b.pm) && DataKept(a, b) && DataKept(b, b1) && b.pm.free <= a.pm.free
    ensures DataKept(a, b1)
  {
  }

  /** References of frame f when a clone has stopped at page vp and dropped the ones
      it had added below vp; the one for vp itself stays. */
  ghost function LeftRefs(a: Frames, sp: Space, vp: int, f: nat): nat
    requires WellFormed(a) && vp in sp && f < PAGES_MAX
  {
    var using := |UsingBelow(sp, vp, f)|;
    Monus(Capped(a.refs[f] + using + if f == sp[vp].frame then 1 else 0), using)
  }

  ghost predicate LeftFree(a: Frames, sp: Space, vp: int, f: nat)
    requires WellFormed(a) && vp in sp && f < PAGES_MAX
  {
    f in a.free || (UsingBelow(sp, vp, f) != {} && LeftRefs(a, sp, vp, f) == 0)
  }

  /** The allocator after a clone that stopped at page vp, with the user range of the
      child freed. */
  ghost function CloneLeft(a: Frames, sp: Space, vp: int): (e: Frames)
    requires WellFormed(a) && vp in sp
    ensures WellFormed(e)
  {
    Frames(set f: nat | f < PAGES_MAX && LeftFree(a, sp, vp, f),
           seq(PAGES_MAX, f requires 0 <= f < PAGES_MAX => LeftRefs(a, sp, vp, f)))
  }

  /** No count reached 255 on the way to page vp. */
  ghost predicate RoomSoFar(a: Frames, sp: Space, vp: int)
    requires WellFormed(a) && vp in sp
  {
    forall f: nat :: f < PAGES_MAX && UsingBelow(sp, vp, f) != {} ==>
      a.refs[f] + |UsingBelow(sp, vp, f)| + (if f == sp[vp].frame then 1 else 0) <= MAX_REFS
  }

  /** A clone that stops has given back all it took except the one reference added
      just before the mapping that failed, if and only if no count reached 255. */
  lemma FailedCloneLeaksOne(a: Phys, d: int, vp: int)
    requires WellFormed(a.pm) && PhysInv(a) && d in a.dirs && vp in SpaceOf(a.mem, d)
    ensures 0 < SpaceOf(a.mem, d)[vp].frame
    ensures CloneLeft(a.pm, SpaceOf(a.mem, d), vp) == AddRef(a.pm, SpaceOf(a.mem, d)[vp].frame) <==>
            RoomSoFar(a.pm, SpaceOf(a.mem, d), vp)
  {
    SourceFrame(a, d, vp);
    hide Tables, SpaceOf, Inv, RoomSoFar, CloneLeft;
    var sp := SpaceOf(a.mem, d);
    var e, g := CloneLeft(a.pm, sp, vp), sp[vp].frame;
    if RoomSoFar(a.pm, sp, vp) {
      forall f: nat | f < PAGES_MAX
        ensures e.refs[f] == AddRef(a.pm, g).refs[f] && (f in e.free <==> f in a.pm.free)
      {
        LeftIs(a, d, vp, f);
      }
      assert e.refs == AddRef(a.pm, g).refs && e.free == AddRef(a.pm, g).free;
    } else if e == AddRef(a.pm, g) {
      RoomLeft(a, d, vp, e);
    }
  }

  lemma LeftIs(a: Phys, d: int, vp: int, f: nat)
    requires WellFormed(a.pm) && PhysInv(a) && d in a.dirs && vp in SpaceOf(a.mem, d) && f < PAGES_MAX
    requires RoomSoFar(a.pm, SpaceOf(a.mem, d), vp) && 0 < SpaceOf(a.mem, d)[vp].frame < PAGES_MAX
    ensures var sp := SpaceOf(a.mem, d);
            CloneLeft(a.pm, sp, vp).refs[f] == AddRef(a.pm, sp[vp].frame).refs[f] &&
            (f in CloneLeft(a.pm, sp, vp).free <==> f in a.pm.free)
  {
    UsedHere(a, d, vp, f);
    hide SpaceOf;
  }

  lemma RoomLeft(a: Phys, d: int, vp: int, e: Frames)
    requires WellFormed(a.pm) && PhysInv(a) && d in a.dirs && vp in SpaceOf(a.mem, d)
    requires 0 < SpaceOf(a.mem, d)[vp].frame < PAGES_MAX
    requires e == CloneLeft(a.pm, SpaceOf(a.mem, d), vp) == AddRef(a.pm, SpaceOf(a.mem, d)[vp].frame)
    ensures RoomSoFar(a.pm, SpaceOf(a.mem, d), vp)
  {
    var sp := SpaceOf(a.mem, d);
    forall f: nat | f < PAGES_MAX && UsingBelow(sp, vp, f) != {}
      ensures a.pm.refs[f] + |UsingBelow(sp, vp, f)| + (if f == sp[vp].frame then 1 else 0) <= MAX_REFS
    {
      UsedHere(a, d, vp, f);
      hide SpaceOf;
      assert e.refs[f] == LeftRefs(a.pm, sp, vp, f);
    }
  }

  /** That is what freeing the user range of the unfinished child leaves. */
  lemma FailedCloneLeft(a: Phys, d: int, c: nat, vp: int, b: Phys, mem: seq<Frame>)
    requires WellFormed(a.pm) && PhysInv(a) && WellFormed(b.pm) && ParentDone(a, d, c, vp, b, mem)
    requires 0 <= SpaceOf(a.mem, d)[vp].frame < PAGES_MAX
    ensures AfterFree(Retained(b, mem, SpaceOf(a.mem, d)[vp].frame), c, USER_PDE_LO).pm ==
            CloneLeft(a.pm, SpaceOf(a.mem, d), vp)
  {
    hide Tables, Inv, SpaceOf, Walk, DropAll, DownBelow, SharedBelow, DataKept, WordAt, LeftRefs, LeftFree;
    var sp := SpaceOf(a.mem, d);
    var e, l := AfterFree(Retained(b, mem, sp[vp].frame), c, USER_PDE_LO).pm, CloneLeft(a.pm, sp, vp);
    forall f: nat | f < PAGES_MAX
      ensures e.refs[f] == l.refs[f] && (f in e.free <==> f in l.free)
    {
      FailedCloneFrame(a, d, c, vp, b, mem, f);
    }
    assert e.refs == l.refs;
    assert e.free == l.free;
  }

  lemma FailedCloneFrame(a: Phys, d: int, c: nat, vp: int, b: Phys, mem: seq<Frame>, f: nat)
    requires WellFormed(a.pm) && PhysInv(a) && WellFormed(b.pm) && ParentDone(a, d, c, vp, b, mem)
    requires 0 <= SpaceOf(a.mem, d)[vp].frame < PAGES_MAX && f < PAGES_MAX
    ensures var sp := SpaceOf(a.mem, d);
            var e := AfterFree(Retained(b, mem, sp[vp].frame), c, USER_PDE_LO).pm;
            e.refs[f] == LeftRefs(a.pm, sp, vp, f) && (f in e.free <==> LeftFree(a.pm, sp, vp, f))
  {
    hide Tables, Inv, SpaceOf, Walk, DropAll, DownBelow, SharedBelow, DataKept;
    var sp := SpaceOf(a.mem, d);
    var g := sp[vp].frame;
    var b1 := b.(mem := mem);
    var b2 := Retained(b, mem, g);
    SourceFrame(a, d, vp);
    WholeWalkCount(b1, c, f);
    assert SpaceOf(mem, c) == Flatten(b1).spaces[c] == SharedBelow(sp, vp);
    SharedUsing(sp, vp, f);
    if f in Owned(b1, c) { OwnedHere(b1, c, f); }
    assert Owned(b1, c) == Owned(b, c);
    DropAllWeights(b2.pm, Walk(mem, c, USER_PDE_LO), f);
    UsedHere(a, d, vp, f);
  }

  /** The frames behind slots 0..31 of a directory with these words, as uvm_free visits them. */
  ghost function LowWalk(mem: seq<Frame>, words: seq<nat>, vp: nat): seq<nat>
    requires |words| == ENTRIES && vp <= USER_LO
  {
    if vp == 0 then []
    else
      var e := words[(vp - 1) / 1024];
      var w := if Present(e) then WordAt(mem, FrameOf(e), (vp - 1) % 1024) else 0;
      LowWalk(mem, words, vp - 1) + (if Present(w) then [FrameOf(w)] else []) +
      if (vp - 1) % 1024 == 1023 && Present(e) then [FrameOf(e)] else []
  }

  lemma {:induction false} LowWalkIs(mem: seq<Frame>, c: int, words: seq<nat>, vp: nat)
    requires LowSlots(mem, c, words) && vp <= USER_LO
    ensures WalkTo(mem, c, 0, vp) == LowWalk(mem, words, vp)
  {
    if vp > 0 {
      LowWalkIs(mem, c, words, vp - 1);
      assert WordAt(mem, c, (vp - 1) / 1024) == words[(vp - 1) / 1024];
      hide WordAt, Present, FrameOf;
    }
  }

  /** The clean-up as written, uvm_free from slot 0, then takes from every frame as
      many references more as the kernel's identity tables lead to it. */
  lemma FailedCloneLiteral(a: Phys, d: int, c: nat, vp: int, b: Phys, mem: seq<Frame>, kernelDir: seq<nat>)
    requires WellFormed(a.pm) && PhysInv(a) && WellFormed(b.pm) && ParentDone(a, d, c, vp, b, mem)
    requires 0 <= SpaceOf(a.mem, d)[vp].frame < PAGES_MAX && LowSlots(mem, c, kernelDir)
    ensures WeightsAre(CloneLeft(a.pm, SpaceOf(a.mem, d), vp), LowWalk(mem, kernelDir, USER_LO),
                       AfterFree(Retained(b, mem, SpaceOf(a.mem, d)[vp].frame), c, 0).pm)
  {
    hide Tables, Inv, SpaceOf, Walk, WalkTo, DropAll, CloningAt, DataKept, DownBelow, WordAt, LowWalk,
      Weight, AddRef, CloneLeft;
    FailedCloneLeft(a, d, c, vp, b, mem);
    LowWalkIs(mem, c, kernelDir, USER_LO);
    forall f: nat | f < PAGES_MAX
      ensures Weight(AfterFree(Retained(b, mem, SpaceOf(a.mem, d)[vp].frame), c, 0).pm, f) ==
              Monus(Weight(CloneLeft(a.pm, SpaceOf(a.mem, d), vp), f),
                    multiset(LowWalk(mem, kernelDir, USER_LO))[f])
    {
      LiteralWeights(Retained(b, mem, SpaceOf(a.mem, d)[vp].frame), c, f);
    }
  }

  lemma WholeWalkCount(s: Phys, d: nat, f: nat)
    requires Tables(s) && d in s.dirs
    ensures multiset(Walk(s.mem, d, USER_PDE_LO))[f] == |Using(SpaceOf(s.mem, d), f)| + (if f in Owned(s, d) then 1
            else 0)
  {
    WalkCount(s, d, USER_HI, f);
    assert multiset(Walk(s.mem, d, USER_PDE_LO)) == multiset(WalkTo(s.mem, d, USER_PDE_LO, USER_HI)) + multiset{d};
    assert UsingBelow(SpaceOf(s.mem, d), USER_HI, f) == Using(SpaceOf(s.mem, d), f);
    assert f in s.tabs && s.tabs[f].0 == d ==> UserSlot(s.tabs[f].1);
  }

  lemma SharedUsing(sp: Space, vp: int, f: int)
    ensures Using(SharedBelow(sp, vp), f) == UsingBelow(sp, vp, f)
  {
    assert forall x :: x in SharedBelow(sp, vp) ==> SharedBelow(sp, vp)[x].frame == sp[x].frame;
  }

  lemma OwnedHere(s: Phys, d: int, f: int)
    requires Tables(s) && d in s.dirs && f in Owned(s, d)
    ensures 0 < f < PAGES_MAX && s.pm.refs[f] == 1 && f !in s.pm.free
  {
    assert TableFrame(s, f);
  }

  lemma UsedHere(a: Phys, d: int, vp: int, f: int)
    requires PhysInv(a) && d in a.dirs && 0 <= f < PAGES_MAX
    ensures f in a.pm.free ==> UsingBelow(SpaceOf(a.mem, d), vp, f) == {} && a.pm.refs[f] == 0
    ensures UsingBelow(SpaceOf(a.mem, d), vp, f) != {} ==> a.pm.refs[f] >= 1
  {
    var fa := Flatten(a);
    assert fa.spaces[d] == SpaceOf(a.mem, d);
    UsingBound(fa, d, f);
    assert UsingBelow(SpaceOf(a.mem, d), vp, f) <= Using(SpaceOf(a.mem, d), f);
    SubsetCard(UsingBelow(SpaceOf(a.mem, d), vp, f), Using(SpaceOf(a.mem, d), f));
  }

  /** Slots 0..31 of directory c are the kernel's. */
  ghost predicate LowSlots(mem: seq<Frame>, c: int, kernelDir: seq<nat>) {
    |kernelDir| == ENTRIES && forall i :: 0 <= i < USER_PDE_LO ==> WordAt(mem, c, i) == kernelDir[i]
  }

  /** Directory d maps the kernel as the kernel's own does: the identity map in slots 0
      to 31, the high half in slots 768 to 799, and nothing above.  The slots between
      are empty or lead to tables that ring 3 may use for reading and writing. */
  ghost predicate MapsKernel(mem: seq<Frame>, d: int, kernelDir: seq<nat>) {
    && |kernelDir| == ENTRIES
    && (forall i :: 0 <= i < 32 || 768 <= i < 800 ==> WordAt(mem, d, i) == kernelDir[i])
    && (forall i :: 800 <= i < 1024 ==> WordAt(mem, d, i) == 0)
    && (forall i :: 32 <= i < 768 ==> WordAt(mem, d, i) == 0 || WordAt(mem, d, i) % 4096 == 7)
  }

  ghost predicate AllMapKernel(mem: seq<Frame>, dirs: set<int>, kernelDir: seq<nat>) {
    forall d :: d in dirs ==> MapsKernel(mem, d, kernelDir)
  }

  lemma KernelIsLow(mem: seq<Frame>, dirs: set<int>, c: int, kernelDir: seq<nat>)
    requires AllMapKernel(mem, dirs, kernelDir) && c in dirs
    ensures LowSlots(mem, c, kernelDir)
  {
  }

  lemma MapsSame(m0: seq<Frame>, m1: seq<Frame>, d: int, kernelDir: seq<nat>)
    requires MapsKernel(m0, d, kernelDir) && forall k ::
               WordAt(m1, d, k) == WordAt(m0, d, k) || (UserSlot(k) && WordAt(m1, d, k) % 4096 == 7)
    ensures MapsKernel(m1, d, kernelDir)
  {
    hide WordAt;
  }

  /** A change of a frame that is no directory keeps that. */
  lemma KernelKept(mem: seq<Frame>, dirs: set<int>, kernelDir: seq<nat>, f: int, x: Frame)
    requires AllMapKernel(mem, dirs, kernelDir) && 0 <= f < |mem| && f !in dirs
    ensures AllMapKernel(mem[f := x], dirs, kernelDir)
  {
    forall d | d in dirs ensures MapsKernel(mem[f := x], d, kernelDir) {
      MapsSame(mem, mem[f := x], d, kernelDir);
    }
  }

  /** So does a word in a table, and a store to a page. */
  lemma KernelKeptTable(s: Phys, kernelDir: seq<nat>, t: int, x: Frame)
    requires Tables(s) && AllMapKernel(s.mem, s.dirs, kernelDir) &&
             (t in s.tabs || (0 <= t < |s.mem| && s.mem[t].Bytes?))
    ensures 0 <= t < |s.mem| && AllMapKernel(s.mem[t := x], s.dirs, kernelDir)
  {
    if t in s.tabs { assert TableFrame(s, t); }
    forall d | d in s.dirs ensures d != t { assert TableFrame(s, d); }
    KernelKept(s.mem, s.dirs, kernelDir, t, x);
  }

  /** So does what a frame just taken is filled with. */
  lemma KernelKeptFree(s: Phys, kernelDir: seq<nat>, f: int, x: Frame)
    requires Tables(s) && AllMapKernel(s.mem, s.dirs, kernelDir) && f in s.pm.free && 0 <= f < |s.mem|
    ensures AllMapKernel(s.mem[f := x], s.dirs, kernelDir)
  {
    forall d | d in s.dirs ensures d != f { assert TableFrame(s, d); }
    KernelKept(s.mem, s.dirs, kernelDir, f, x);
  }

  /** So does a new directory that maps the kernel. */
  lemma KernelNew(s: Phys, kernelDir: seq<nat>, d: int, x: Frame)
    requires Tables(s) && AllMapKernel(s.mem, s.dirs, kernelDir) && d in s.pm.free && 0 <= d < |s.mem|
    requires MapsKernel(s.mem[d := x], d, kernelDir)
    ensures AllMapKernel(s.mem[d := x], s.dirs + {d}, kernelDir)
  {
    KernelKeptFree(s, kernelDir, d, x);
  }

  /** So does a word in a user slot of a directory. */
  lemma KernelKeptSlot(mem: seq<Frame>, dirs: set<int>, kernelDir: seq<nat>, d: int, i: int, x: nat)
    requires AllMapKernel(mem, dirs, kernelDir) && UserSlot(i) && x % 4096 == 7
    requires 0 <= d < |mem| && mem[d].Words? && |mem[d].w| == ENTRIES
    ensures AllMapKernel(SetWord(mem, d, i, x), dirs, kernelDir)
  {
    var now := SetWord(mem, d, i, x);
    forall e | e in dirs ensures MapsKernel(now, e, kernelDir) { MapsSame(mem, now, e, kernelDir); }
  }

  /** The processor lets ring 3 read, or write, user address va: both levels of the
      tables are present and open to users, and for a write both are writable. */
  ghost predicate Allowed(mem: seq<Frame>, d: int, va: nat, write: bool) {
    var pde := WordAt(mem, d, va / 0x400000);
    var pte := WordAt(mem, pde / 4096, va / 4096 % 1024);
    && pde % 2 == 1 && pde / 4 % 2 == 1 && pte % 2 == 1 && pte / 4 % 2 == 1
    && (write ==> pde / 2 % 2 == 1 && pte / 2 % 2 == 1)
  }

  ghost function PhysicalPage(mem: seq<Frame>, d: int, va: nat): nat {
    WordAt(mem, WordAt(mem, d, va / 0x400000) / 4096, va / 4096 % 1024) / 4096
  }

  /** What the processor gives ring 3 is the view: it may read a byte exactly when the
      view has the page, reads there what the view says, and may write it without a
      fault exactly when the entry is writable, and then it is the frame's only one. */
  lemma ProcessorShows(s: Phys, kernelDir: seq<nat>, d: int, va: nat)
    requires PhysInv(s) && AllMapKernel(s.mem, s.dirs, kernelDir) && d in s.dirs
    requires 0x0800_0000 <= va < 0xC000_0000
    ensures d in View(Flatten(s))
    ensures Allowed(s.mem, d, va, false) <==> va / 4096 in View(Flatten(s))[d]
    ensures Allowed(s.mem, d, va, false) ==>
              var f := PhysicalPage(s.mem, d, va);
              f < |s.mem| && s.mem[f].Bytes? && s.mem[f].b == View(Flatten(s))[d][va / 4096].bytes
    ensures Allowed(s.mem, d, va, true) ==>
              Mappers(Flatten(s).spaces, PhysicalPage(s.mem, d, va)) == {(d, va / 4096)}
    ensures View(Flatten(s))[d].Keys == SpaceOf(s.mem, d).Keys
    ensures va / 4096 in SpaceOf(s.mem, d) ==>
              (SpaceOf(s.mem, d)[va / 4096].cow <==>
               WordAt(s.mem, WordAt(s.mem, d, va / 0x400000) / 4096, va / 4096 % 1024) / 512 % 2 == 1)
    ensures Allowed(s.mem, d, va, true) <==> va / 4096 in SpaceOf(s.mem, d) && SpaceOf(s.mem, d)[va / 4096].write
  {
    var fl, vp := Flatten(s), va / 4096;
    assert fl.spaces[d] == SpaceOf(s.mem, d);
    assert MapsKernel(s.mem, d, kernelDir);
    assert vp / 1024 == va / 0x400000 && vp % 1024 == va / 4096 % 1024;
    AllowedIs(s.mem, d, va);
    if vp in fl.spaces[d] { assert PteOk(fl, vp, fl.spaces[d][vp]); }
  }

  lemma AllowedIs(mem: seq<Frame>, d: int, va: nat)
    requires 0x0800_0000 <= va < 0xC000_0000
    requires var pde := WordAt(mem, d, va / 0x400000); pde == 0 || pde % 4096 == 7
    requires va / 4096 in SpaceOf(mem, d) ==> SpaceOf(mem, d)[va / 4096].user
    ensures Allowed(mem, d, va, false) <==> va / 4096 in SpaceOf(mem, d)
    ensures Allowed(mem, d, va, true) <==> va / 4096 in SpaceOf(mem, d) && SpaceOf(mem, d)[va / 4096].write
    ensures va / 4096 in SpaceOf(mem, d) ==> SpaceOf(mem, d)[va / 4096].frame == PhysicalPage(mem, d, va)
    ensures va / 4096 in SpaceOf(mem, d) ==>
              (SpaceOf(mem, d)[va / 4096].cow <==>
               WordAt(mem, WordAt(mem, d, va / 0x400000) / 4096, va / 4096 % 1024) / 512 % 2 == 1)
  {
    var vp := va / 4096;
    assert vp / 1024 == va / 0x400000 && vp % 1024 == va / 4096 % 1024;
    TableOpen(WordAt(mem, d, va / 0x400000));
  }

  lemma TableOpen(pde: nat)
    requires pde == 0 || pde % 4096 == 7
    ensures pde % 2 == 1 <==> pde != 0
    ensures pde != 0 ==> pde / 2 % 2 == 1 && pde / 4 % 2 == 1
  {
    if pde != 0 {
      hide Present, Writable, ForUser;
      assert pde == pde / 4096 * 4096 + 7;
      WriteBit(pde / 4096, 7);
      UserBit(pde / 4096, 7);
    }
  }

  /** The user slots under which an address space has a page below vp: one table each. */
  ghost function SlotsBelow(sp: Space, vp: int): set<int> { set x | x in sp && x < vp :: x / 1024 }

  ghost function Slots(sp: Space): set<int> { SlotsBelow(sp, USER_HI) }

  /** So far the clone took a frame for its directory and one for each of those tables. */
  ghost predicate Metered(sp: Space, a: Frames, c: int, vp: int, b: Phys) {
    HasSlots(b.mem, c, SlotsBelow(sp, vp)) && |b.pm.free| + 1 + |SlotsBelow(sp, vp)| == |a.free|
  }

  /** Page vp asks for a table when n frames are spent on the directory and tables. */
  ghost predicate RunsOut(sp: Space, n: nat, vp: int) {
    vp in sp && vp / 1024 !in SlotsBelow(sp, vp) && 1 + |SlotsBelow(sp, vp)| == n
  }

  /** There is only one such page. */
  lemma RunsOutOnce(sp: Space, n: nat, v: int, w: int)
    requires RunsOut(sp, n, v) && RunsOut(sp, n, w)
    ensures v == w
  {
    if v < w {
      SlotsGrow(sp, v, w);
    } else if w < v {
      SlotsGrow(sp, w, v);
    }
  }

  lemma SlotsGrow(sp: Space, v: int, w: int)
    requires v in sp && v / 1024 !in SlotsBelow(sp, v) && v < w
    ensures |SlotsBelow(sp, v)| < |SlotsBelow(sp, w)|
  {
    CardAdd(SlotsBelow(sp, v), v / 1024);
    SubsetCard(SlotsBelow(sp, v) + {v / 1024}, SlotsBelow(sp, w));
  }

  lemma MeterStart(mem: seq<Frame>, d: int, a: Frames, c: nat, b: Phys)
    requires WellFormed(a) && c in a.free && b.pm == Take(a, c) && HasSlots(b.mem, c, {})
    ensures Metered(SpaceOf(mem, d), a, c, USER_LO, b)
  {
    assert SlotsBelow(SpaceOf(mem, d), USER_LO) == {};
    CardRemove(a.free, c);
  }

  lemma MeterSkip(sp: Space, a: Frames, c: int, lo: int, hi: int, b: Phys)
    requires Metered(sp, a, c, lo, b) && lo <= hi && forall x :: lo <= x < hi ==> x !in sp
    ensures Metered(sp, a, c, hi, b)
  {
    assert SlotsBelow(sp, hi) == SlotsBelow(sp, lo);
  }

  lemma MeterStep(sp: Space, a: Frames, c: int, vp: int, b: Phys, e: Phys)
    requires Metered(sp, a, c, vp, b) && vp in sp && UserSlot(vp / 1024) && DirKept(b.mem, e.mem, c, vp / 1024)
    requires Present(WordAt(e.mem, c, vp / 1024)) && Costs(|b.pm.free|, WordAt(b.mem, c, vp / 1024), |e.pm.free|)
    ensures Metered(sp, a, c, vp + 1, e)
  {
    SlotsNext(sp, vp);
    hide Present, WordAt, SlotsBelow;
    if vp / 1024 !in SlotsBelow(sp, vp) {
      CardAdd(SlotsBelow(sp, vp), vp / 1024);
    } else {
      assert SlotsBelow(sp, vp) + {vp / 1024} == SlotsBelow(sp, vp);
    }
  }

  lemma SlotsNext(sp: Space, vp: int)
    requires vp in sp
    ensures SlotsBelow(sp, vp + 1) == SlotsBelow(sp, vp) + {vp / 1024}
  {
    forall i | i in SlotsBelow(sp, vp + 1) ensures i in SlotsBelow(sp, vp) + {vp / 1024} {
      var x :| x in sp && x < vp + 1 && x / 1024 == i;
      assert x == vp || x < vp;
    }
  }

  /** Out of frames with a table to go: there were not enough. */
  lemma MeterStops(sp: Space, a: Frames, c: int, vp: int, b: Phys)
    requires Metered(sp, a, c, vp, b) && vp in sp && vp < USER_HI && UserSlot(vp / 1024) && b.pm.free == {}
    requires !Present(WordAt(b.mem, c, vp / 1024))
    ensures 0 < |a.free| <= |Slots(sp)| && RunsOut(sp, |a.free|, vp)
  {
    hide Present, WordAt;
    assert vp / 1024 !in SlotsBelow(sp, vp);
    CardAdd(SlotsBelow(sp, vp), vp / 1024);
    assert SlotsBelow(sp, vp) + {vp / 1024} <= Slots(sp);
    SubsetCard(SlotsBelow(sp, vp) + {vp / 1024}, Slots(sp));
  }

  /** State b is left by a clone of d that stopped at page vp. */
  ghost predicate CloneFailed(a: Phys, d: int, kernelDir: seq<nat>, b: Phys, vp: int)
    requires WellFormed(a.pm) && |kernelDir| == ENTRIES
  {
    && b.dirs == a.dirs && View(Flatten(b)) == View(Flatten(a))
    && vp in SpaceOf(a.mem, d) && WellFormed(b.pm)
    && WeightsAre(CloneLeft(a.pm, SpaceOf(a.mem, d), vp), LowWalk(b.mem, kernelDir, USER_LO), b.pm)
  }

  /** Each frame has the references it had in `a`, less its visits. */
  ghost predicate WeightsAre(a: Frames, visits: seq<nat>, b: Frames)
    requires WellFormed(a) && WellFormed(b)
  {
    forall f: nat :: f < PAGES_MAX ==> Weight(b, f) == Monus(Weight(a, f), multiset(visits)[f])
  }

  lemma CloneStart(a: Phys, d: int, c: nat, b: Phys)
    requires WellFormed(a.pm) && WellFormed(b.pm) && PhysInv(a) && d in a.dirs && c in a.pm.free
    requires b.pm == Take(a.pm, c) && b.dirs == a.dirs + {c as int} && b.tabs == a.tabs && DataKept(a, b) &&
             Owned(b, c) == {c as int}
    requires Flatten(b).spaces == Flatten(a).spaces[c as int := map[]]
    ensures CloningAt(a, d, c, USER_LO, b)
  {
    OwnsNothing(a, c);
    var sp := SpaceOf(a.mem, d);
    assert Flatten(a).spaces[d] == sp;
    NothingBelow(a.mem, d);
    hide Tables, SpaceOf, DownBelow, SharedBelow, Inv, DataKept;
    UpdateSame(Flatten(a).spaces, d);
    assert b.tabs - {c as int} == a.tabs;
    assert CloneCounts(sp, a.pm, {c as int}, USER_LO, b.pm);
  }

  lemma NothingBelow(mem: seq<Frame>, d: int)
    ensures var sp := SpaceOf(mem, d);
            DownBelow(sp, USER_LO) == sp && SharedBelow(sp, USER_LO) == map[] && forall f ::
              UsingBelow(sp, USER_LO, f) == {}
  {
  }

  lemma DirsAfterClone(a: Phys, d: int, c: int, vp: int, b: Phys)
    requires WellFormed(a.pm) && WellFormed(b.pm) && CloningAt(a, d, c, vp, b)
    ensures b.dirs == a.dirs + {c}
  {
  }

  /** The source's tables stay where they were while it is cloned. */
  lemma SourceTable(a: Phys, d: int, c: int, vp: int, i: int, b: Phys)
    requires WellFormed(a.pm) && WellFormed(b.pm) && Tables(b) && CloningAt(a, d, c, vp, b) && UserSlot(i) &&
             Present(WordAt(b.mem, d, i))
    ensures var t := FrameOf(WordAt(b.mem, d, i)); t in a.tabs && a.tabs[t] == (d, i)
  {
    var t := FrameOf(WordAt(b.mem, d, i));
    assert t in b.tabs && b.tabs[t] == (d, i);
    assert t !in Owned(b, c);
    assert t in b.tabs - Owned(b, c);
  }

  lemma SourceEntry(a: Phys, d: int, c: int, vp: int, t: int, i: int, j: int, b: Phys)
    requires WellFormed(a.pm) && WellFormed(b.pm) && Tables(b) && CloningAt(a, d, c, vp, b) && vp == i * 1024 + j &&
             0 <= j < 1024
    requires t in a.tabs && a.tabs[t] == (d, i) && UserSlot(i)
    ensures t in b.tabs && b.tabs[t] == (d, i) && PteWord(b.mem, d, vp) == WordAt(b.mem, t, j)
    ensures USER_LO <= vp < USER_HI && 0 < t < |b.mem| && b.mem[t].Words? && |b.mem[t].w| == ENTRIES && d in b.dirs &&
            c in b.dirs && d != c
  {
    assert t in b.tabs - Owned(b, c);
    TableShape(b, t);
    assert vp / 1024 == i && vp % 1024 == j;
  }

  lemma DowngradeParent(a: Phys, d: int, c: int, vp: int, t: int, i: int, j: int, b: Phys, x: nat)
    requires WellFormed(a.pm) && WellFormed(b.pm) && Tables(b) && CloningAt(a, d, c, vp, b) && vp == i * 1024 + j &&
             0 <= j < 1024
    requires t in b.tabs && b.tabs[t] == (d, i) && 0 <= t < |b.mem| && b.mem[t].Words? && |b.mem[t].w| == ENTRIES
    requires vp in SpaceOf(a.mem, d) && SpaceOf(a.mem, d)[vp].write && d != c
    requires x == SpaceOf(a.mem, d)[vp].frame * 4096 + PAGE_PRESENT + PAGE_USER + PAGE_COW &&
             SpaceOf(a.mem, d)[vp].frame >= 0
    ensures ParentDone(a, d, c, vp, b, SetWord(b.mem, t, j, x))
  {
    hide Tables, SpaceOf, DataKept;
    var sp := SpaceOf(a.mem, d);
    DecodeEntry(sp[vp].frame, 517);
    MapIntoTable(b, t, j, x);
    BelowNext(sp, vp);
    assert SpaceOf(b.mem, d) == Flatten(b).spaces[d] == DownBelow(sp, vp);
  }

  lemma KeepParent(a: Phys, d: int, c: int, vp: int, b: Phys)
    requires WellFormed(a.pm) && WellFormed(b.pm) && Tables(b) && CloningAt(a, d, c, vp, b) && d != c
    requires vp in SpaceOf(a.mem, d) && !SpaceOf(a.mem, d)[vp].write
    ensures ParentDone(a, d, c, vp, b, b.mem)
  {
    var sp := SpaceOf(a.mem, d);
    BelowNext(sp, vp);
    assert Flatten(b).spaces[d] == DownBelow(sp, vp);
    UpdateSame(Flatten(b).spaces, d);
    DataKeptSelf(b);
    assert b.(mem := b.mem) == b;
  }

  /** The parent's tables hold no word of the child's directory. */
  lemma ChildKept(a: Phys, d: int, c: int, vp: int, b: Phys, mem: seq<Frame>)
    requires WellFormed(a.pm) && WellFormed(b.pm) && Tables(b) && ParentDone(a, d, c, vp, b, mem)
    requires mem == b.mem || exists t, j, x ::
             t in b.tabs && 0 <= j < ENTRIES && 0 <= t < |b.mem| && b.mem[t].Words? && j < |b.mem[t].w| &&
             mem == SetWord(b.mem, t, j, x)
    ensures forall k :: WordAt(mem, c, k) == WordAt(b.mem, c, k)
  {
    assert c in b.dirs;
  }

  lemma MeterSame(sp: Space, a: Frames, c: int, vp: int, b: Phys, b2: Phys, f: nat)
    requires Metered(sp, a, c, vp, b) && forall k :: WordAt(b2.mem, c, k) == WordAt(b.mem, c, k)
    requires WellFormed(b.pm) && b2.pm == AddRef(b.pm, f)
    ensures Metered(sp, a, c, vp, b2)
  {
  }

  lemma RetainedTables(a: Phys, d: int, c: int, vp: int, b: Phys, mem: seq<Frame>)
    requires WellFormed(a.pm) && PhysInv(a) && WellFormed(b.pm) && ParentDone(a, d, c, vp, b, mem) &&
             0 < SpaceOf(a.mem, d)[vp].frame < PAGES_MAX
    requires SpaceOf(a.mem, d)[vp].frame !in a.pm.free && |a.mem| == PAGES_MAX &&
             a.mem[SpaceOf(a.mem, d)[vp].frame].Bytes?
    ensures var b2 := Retained(b, mem, SpaceOf(a.mem, d)[vp].frame); Tables(b2) && c in b2.dirs
  {
    hide SpaceOf, DownBelow, SharedBelow, CloneCounts;
    var f := SpaceOf(a.mem, d)[vp].frame;
    var b1 := b.(mem := mem);
    assert b1.mem[f].Bytes? by {
      assert b.mem[f] == a.mem[f];
      FreeShrinks(SpaceOf(a.mem, d), a.pm, Owned(b, c), vp, b.pm);
    }
    RetainKeepsTables(b1, f);
  }

  lemma FlagsAreDown(pte: nat, flags: nat)
    requires ForUser(pte) && flags == if Writable(pte) then PAGE_USER + PAGE_COW else Kept(pte)
    ensures Pte(FrameOf(pte), Writable(flags), ForUser(flags), IsCow(flags)) == Down(Decode(pte))
  {
    KeptFlags(pte);
  }

  lemma FailedCloneIs(a: Phys, d: int, c: nat, vp: int, b: Phys, mem: seq<Frame>, kernelDir: seq<nat>)
    requires WellFormed(a.pm) && PhysInv(a) && WellFormed(b.pm) && ParentDone(a, d, c, vp, b, mem)
    requires LowSlots(mem, c, kernelDir) && vp in SpaceOf(a.mem, d) && 0 <= SpaceOf(a.mem, d)[vp].frame < PAGES_MAX
    ensures CloneFailed(a, d, kernelDir, AfterFree(Retained(b, mem, SpaceOf(a.mem, d)[vp].frame), c, 0), vp)
  {
    hide Tables, SpaceOf, Inv, ParentDone, Walk, DropAll, WordAt, Present, LowWalk, WeightsAre, CloneLeft, AddRef;
    FailedCloneState(a, d, c, vp, b, mem);
    FailedCloneView(a, d, vp + 1, AfterFree(Retained(b, mem, SpaceOf(a.mem, d)[vp].frame), c, 0));
    FailedCloneLiteral(a, d, c, vp, b, mem, kernelDir);
  }

  class Vm {
    const pm: Allocator
    const kernelDir: seq<nat> // the kernel's own page directory
    var mem: seq<Frame>
    ghost var dirs: set<int>
    ghost var tabs: map<int, (int, int)>

    ghost function S(): Phys
      requires pm.Valid()
      reads this, pm, pm.bitmap, pm.pageRefs
    {
      Phys(mem, pm.State(), dirs, tabs)
    }

    ghost function F(): Flat
      requires pm.Valid()
      reads this, pm, pm.bitmap, pm.pageRefs
    {
      Flatten(S())
    }

    ghost predicate Valid()
      reads this, pm, pm.bitmap, pm.pageRefs
    {
      pm.Valid() && |kernelDir| == ENTRIES && Tables(S()) && AllMapKernel(mem, dirs, kernelDir)
    }

    /** Memory at boot, before any user address space exists. */
    constructor (pm: Allocator, kernelDir: seq<nat>, mem: seq<Frame>)
      requires pm.Valid() && 0 !in pm.Free() && |kernelDir| == ENTRIES && |mem| == PAGES_MAX
      requires forall f :: f in pm.Free() ==> pm.State().refs[f] == 0
      ensures Valid() && PhysInv(S()) && F().spaces == map[]
      ensures this.pm == pm && this.kernelDir == kernelDir && this.mem == mem
    {
      this.pm, this.kernelDir, this.mem := pm, kernelDir, mem;
      dirs, tabs := {}, map[];
    }

    /** uvm_create with paging_copy_kernel_mappings. */
    method Create() returns (d: nat)
      requires Valid()
      modifies this, pm`freeCount, pm.bitmap, pm.pageRefs
      ensures Valid()
      ensures d == 0 ==> S() == old(S()) && pm.Free() == {}
      ensures d != 0 ==> d in old(pm.Free()) && pm.State() == Take(old(pm.State()), d)
      ensures d != 0 ==> dirs == old(dirs) + {d} && tabs == old(tabs) && DataKept(old(S()), S()) && Owned(S(), d) == {d}
      ensures d != 0 ==> F().spaces == old(F()).spaces[d := map[]]
      ensures d != 0 ==> MapsKernel(mem, d, kernelDir) && HasSlots(mem, d, {})
      ensures d != 0 && PhysInv(old(S())) ==> Step(old(F()), Cow.Create(d), F()) && PhysInv(S())
    {
      hide Tables, SpaceOf, DataKept, WellFormed, Take, Present, PhysInv, Step, AllMapKernel;
      ghost var s0 := S();
      ZeroTaken(S());
      var addr := pm.Alloc();
      if addr == 0 { return 0; }
      d := addr / PAGE_SIZE;
      var w := seq(ENTRIES, _ => 0);
      for i := 0 to USER_PDE_LO
        invariant |w| == ENTRIES
        invariant forall k :: 0 <= k < i ==> w[k] == kernelDir[k]
        invariant forall k :: USER_PDE_LO <= k < ENTRIES ==> w[k] == 0
      {
        w := w[i := kernelDir[i]];
      }
      for i := USER_PDE_HI to KERNEL_PDE_END
        invariant |w| == ENTRIES
        invariant forall k :: 0 <= k < USER_PDE_LO || USER_PDE_HI <= k < i ==> w[k] == kernelDir[k]
        invariant forall k :: USER_PDE_LO <= k < USER_PDE_HI || KERNEL_PDE_END <= k < ENTRIES ==> w[k] == 0
      {
        w := w[i := kernelDir[i]];
      }
      NewDirectory(old(S()), d, w);
      KernelNew(s0, kernelDir, d, Words(w));
      mem := mem[d := Words(w)];
      NoSlots(mem, d);
      dirs := dirs + {d};
      assert S() == Phys(old(mem)[d := Words(w)], Take(old(S()).pm, d), old(dirs) + {d}, tabs);
      if PhysInv(old(S())) { CreateIsStep(old(S()), d, S()); }
    }

    /** The table for slot i of directory d, created if it is missing; 0 if out of memory. */
    method EnsureTable(d: nat, i: nat) returns (t: nat)
      requires Valid() && d in dirs && UserSlot(i)
      modifies this`mem, this`tabs, pm`freeCount, pm.bitmap, pm.pageRefs
      ensures Valid()
      ensures t == 0 ==> S() == old(S()) && pm.Free() == {}
      ensures t != 0 ==> t in tabs && tabs[t] == (d as int, i as int) && TableRel(old(S()), d, i, S())
      ensures DirKept(old(mem), mem, d, i) && (t == 0 ==> !Present(WordAt(old(mem), d, i)))
      ensures t != 0 ==> Present(WordAt(mem, d, i)) && Costs(|old(pm.Free())|, WordAt(old(mem), d, i), |pm.Free()|)
    {
      hide Tables, GrowsBy, DataKept, SpaceOf, DirKept, TableRel, AllMapKernel;
      ghost var s0 := S();
      TableShape(s0, d);
      DirSame(mem, d, i);
      var pde := WordAt(mem, d, i);
      if Present(pde) {
        t := FrameOf(pde);
        TableThere(s0, d, i);
      } else {
        var addr := pm.Alloc();
        if addr == 0 { return 0; }
        t := addr / PAGE_SIZE;
        TableNotFree(s0, d);
        NewTableRel(s0, d, i, t);
        NewTableWord(s0, d, i, t);
        KernelKeptFree(s0, kernelDir, t, Words(seq(ENTRIES, _ => 0)));
        mem := mem[t := Words(seq(ENTRIES, _ => 0))];
        KernelKeptSlot(mem, dirs, kernelDir, d, i, t * 4096 + 7);
        mem := mem[d := Words(mem[d].w[i := t * 4096 + 7])];
        tabs := tabs[t := (d, i)];
        assert S() == WithTable(s0, d, i, t);
        CardRemove(s0.pm.free, t);
      }
    }

    /** uvm_map. */
    method MapPage(d: nat, virt: nat, phys: nat, flags: nat) returns (ok: bool)
      requires Valid() && d in dirs
      requires USER_LO * 4096 <= virt < USER_HI * 4096 && flags < 4096
      modifies this`mem, this`tabs, pm`freeCount, pm.bitmap, pm.pageRefs
      ensures Valid()
      ensures !ok ==> S() == old(S()) && pm.Free() == {}
      ensures ok ==>
              MapRel(old(S()), d, virt / 4096, Pte(phys / 4096, Writable(flags), ForUser(flags), IsCow(flags)), S())
      ensures DirKept(old(mem), mem, d, virt / 0x400000)
      ensures if ok then Present(WordAt(mem, d, virt / 0x400000)) &&
                         Costs(|old(pm.Free())|, WordAt(old(mem), d, virt / 0x400000), |pm.Free()|)
              else !Present(WordAt(old(mem), d, virt / 0x400000))
    {
      hide Tables, GrowsBy, DataKept, SpaceOf, AllMapKernel;
      var i, j := virt / 0x400000, virt / 4096 % 1024;
      var t := EnsureTable(d, i);
      if t == 0 { return false; }
      ghost var s1 := S();
      TableShape(s1, t);
      DirNotTable(s1, d);
      var x := phys / 4096 * 4096 + OrPresent(flags);
      OrPresentFlags(flags);
      DecodeEntry(phys / 4096, OrPresent(flags));
      MapIntoTable(s1, t, j, x);
      KernelKeptTable(s1, kernelDir, t, Words(mem[t].w[j := x]));
      mem := mem[t := Words(mem[t].w[j := x])];
      assert S() == s1.(mem := SetWord(s1.mem, t, j, x));
      assert i * 1024 + j == virt / 4096;
      MapAfterTable(old(S()), d, i, s1, virt / 4096, Decode(x), S());
      return true;
    }

    /** uvm_free, with the first directory slot it visits as a parameter: the source
        starts at slot 0, the user range at slot 32. */
    method FreeFrom(d: nat, lo: nat)
      requires pm.Valid() && lo <= USER_PDE_HI
      modifies this`dirs, this`tabs, pm`freeCount, pm.bitmap, pm.pageRefs
      ensures pm.Valid() && S() == AfterFree(old(S()), d, lo)
    {
      hide DropAll, WalkTo, Present, FrameOf, WordAt, WellFormed, Drop;
      ghost var s0 := S();
      ghost var p0 := pm.State();
      var i := lo;
      WalkStart(mem, d, lo, p0);
      while i < USER_PDE_HI
        invariant lo <= i <= USER_PDE_HI && pm.Valid()
        invariant dirs == s0.dirs && tabs == s0.tabs
        invariant pm.State() == DropAll(p0, WalkTo(mem, d, lo, i * 1024))
      {
        var pde := WordAt(mem, d, i);
        if Present(pde) {
          FreeTable(d, lo, i, p0);
        } else {
          SkipAbsent(mem, d, lo, i, 1024);
          assert i * 1024 + 1024 == (i + 1) * 1024;
        }
        i := i + 1;
      }
      DropAllSnoc(p0, WalkTo(mem, d, lo, USER_PDE_HI * 1024), d);
      pm.Release(d * PAGE_SIZE);
      assert d * PAGE_SIZE / PAGE_SIZE == d;
      assert pm.State() == DropAll(p0, Walk(mem, d, lo));
      tabs := tabs - Owned(s0, d);
      dirs := dirs - {d};
    }

    /** The pages of one table, then the table. */
    method FreeTable(d: nat, ghost lo: nat, i: nat, ghost p0: Frames)
      requires pm.Valid() && lo <= i < USER_PDE_HI && WellFormed(p0) && Present(WordAt(mem, d, i))
      requires pm.State() == DropAll(p0, WalkTo(mem, d, lo, i * 1024))
      modifies pm`freeCount, pm.bitmap, pm.pageRefs
      ensures pm.Valid() && pm.State() == DropAll(p0, WalkTo(mem, d, lo, (i + 1) * 1024))
    {
      hide DropAll, WalkTo, PteWord, Present, FrameOf, WordAt, WellFormed, Drop;
      var t := FrameOf(WordAt(mem, d, i));
      ghost var walked := WalkTo(mem, d, lo, i * 1024);
      var j := 0;
      while j < ENTRIES
        invariant 0 <= j <= ENTRIES && pm.Valid()
        invariant pm.State() == DropAll(p0, walked)
        invariant j < ENTRIES ==> walked == WalkTo(mem, d, lo, i * 1024 + j)
        invariant j == ENTRIES ==> walked + [t] == WalkTo(mem, d, lo, i * 1024 + j)
      {
        ghost var vp := i * 1024 + j;
        WalkNext(mem, d, lo, vp);
        TableWalk(mem, d, i, j);
        var pte := WordAt(mem, t, j);
        if Present(pte) {
          DropAllSnoc(p0, walked, FrameOf(pte));
          pm.Release(FrameOf(pte) * PAGE_SIZE);
          assert FrameOf(pte) * PAGE_SIZE / PAGE_SIZE == FrameOf(pte);
          assert PteVisit(mem, d, vp) == [FrameOf(pte)];
        } else {
          assert walked + PteVisit(mem, d, vp) == walked;
        }
        walked := walked + PteVisit(mem, d, vp);
        j := j + 1;
      }
      DropAllSnoc(p0, walked, t);
      pm.Release(t * PAGE_SIZE);
    }

    /** The copy-on-write branch of page_fault, for a user-mode write to cr2. */
    method PageFault(d: nat, cr2: nat) returns (resolved: bool, ghost nf: nat)
      requires Valid() && PhysInv(S()) && d in dirs && USER_LO * 4096 <= cr2 < USER_HI * 4096
      modifies this`mem, pm`freeCount, pm.bitmap, pm.pageRefs
      ensures Valid()
      ensures resolved ==> FaultRel(old(S()), d, cr2 / 4096, nf, S())
      ensures !resolved ==> S() == old(S())
      ensures !resolved ==> var sp, vp := SpaceOf(mem, d), cr2 / 4096;
                (vp !in sp || !sp[vp].cow ||
                 (0 <= sp[vp].frame < PAGES_MAX && pm.State().refs[sp[vp].frame] != 1 && pm.Free() == {}))
    {
      hide Tables, SpaceOf, DataKept, WellFormed, Inv, FaultRel, Present, FrameOf, WordAt, AllMapKernel;
      ghost var a := S();
      ghost var vp := cr2 / 4096;
      nf := 0;
      var i, j := cr2 / 0x400000, cr2 / 4096 % 1024;
      assert vp / 1024 == i && vp % 1024 == j && vp == i * 1024 + j && UserSlot(i);
      var pde := WordAt(mem, d, i);
      SpaceMember(mem, d, vp);
      if !Present(pde) { return false, 0; }
      var t := FrameOf(pde);
      var pte := WordAt(mem, t, j);
      if !(Present(pte) && IsCow(pte)) { return false, 0; }
      MappedIsData(a, d, vp);
      TableThere(a, d, i);
      var n := pm.GetRef(FrameOf(pte) * PAGE_SIZE);
      if n == 1 {
        SetOwnWritable(d, t, j, pte);
        resolved := true;
      } else {
        resolved, nf := CopyPage(d, t, j, pte);
      }
    }

    /** The sole owner gets its page back writable. */
    method SetOwnWritable(ghost d: nat, t: nat, j: nat, pte: nat)
      requires Valid() && PhysInv(S()) && d in dirs && t in tabs && tabs[t].0 == d && j < ENTRIES
      requires pte == PteWord(mem, d, tabs[t].1 * 1024 + j) && Present(pte) && IsCow(pte)
      requires FrameOf(pte) < PAGES_MAX && pm.State().refs[FrameOf(pte)] == 1
      modifies this`mem
      ensures Valid() && FaultRel(old(S()), d, tabs[t].1 * 1024 + j, 0, S())
    {
      hide Tables, SpaceOf, WellFormed, Inv, FaultRel, AllMapKernel;
      ghost var a := S();
      TableShape(a, t);
      SoleFault(a, d, t, j, pte);
      var x := FrameOf(pte) * 4096 + OrWrite(WithoutCow(pte % 4096));
      KernelKeptTable(a, kernelDir, t, Words(mem[t].w[j := x]));
      mem := mem[t := Words(mem[t].w[j := x])];
      assert S() == Rewritten(a, t, j, x);
    }

    /** A sharer gets a private copy and drops its share; fails when out of memory. */
    method CopyPage(ghost d: nat, t: nat, j: nat, pte: nat) returns (ok: bool, ghost nf: nat)
      requires Valid() && PhysInv(S()) && d in dirs && t in tabs && tabs[t].0 == d && j < ENTRIES
      requires pte == PteWord(mem, d, tabs[t].1 * 1024 + j) && Present(pte) && IsCow(pte)
      requires FrameOf(pte) < PAGES_MAX && pm.State().refs[FrameOf(pte)] != 1
      modifies this`mem, pm`freeCount, pm.bitmap, pm.pageRefs
      ensures Valid()
      ensures ok ==> FaultRel(old(S()), d, tabs[t].1 * 1024 + j, nf, S())
      ensures !ok ==> S() == old(S()) && pm.Free() == {}
    {
      hide Tables, SpaceOf, WellFormed, Inv, DataKept, Drop, Take, FaultRel, AllMapKernel;
      ghost var a := S();
      nf := 0;
      TableShape(a, t);
      var f := FrameOf(pte);
      var addr := pm.Alloc();
      if addr == 0 { return false, 0; }
      var new_ := addr / PAGE_SIZE;
      nf := new_;
      CopyFault(a, d, t, j, pte, nf);
      KernelKeptFree(a, kernelDir, new_, mem[f]);
      mem := mem[new_ := mem[f]];
      pm.Release(f * PAGE_SIZE);
      assert f * PAGE_SIZE / PAGE_SIZE == f;
      assert S() == Copied(a, f, nf);
      var x := new_ * 4096 + OrWrite(WithoutCow(pte % 4096));
      TableIsNoDir(a, t);
      KernelKept(mem, dirs, kernelDir, t, Words(mem[t].w[j := x]));
      mem := mem[t := Words(mem[t].w[j := x])];
      assert S() == Rewritten(Copied(a, f, nf), t, j, x);
      ok := true;
    }

    /** One byte stored by user code, with the fault it may take first. */
    method UserStore(d: nat, va: nat, v: Byte) returns (ok: bool, ghost nf: nat)
      requires Valid() && PhysInv(S()) && d in dirs && USER_LO * 4096 <= va < USER_HI * 4096
      modifies this`mem, pm`freeCount, pm.bitmap, pm.pageRefs
      ensures Valid() && PhysInv(S())
      ensures ok ==> Step(old(F()), Write(d, va / 4096, va % 4096, v, nf), F())
      ensures !ok ==> S() == old(S())
      ensures !ok ==> var view, vp := View(F())[d], va / 4096;
                vp !in view || !view[vp].writable || pm.Free() == {}
    {
      hide Tables, SpaceOf, DataKept, FaultRel, Inv, AllMapKernel;
      ghost var a := S();
      ghost var vp := va / 4096;
      SpaceMember(mem, d, vp);
      assert F().spaces[d] == SpaceOf(mem, d);
      TableShape(a, d);
      nf := 0;
      var pte := PteWord(mem, d, va / 4096);
      if !Present(pte) { return false, 0; }
      MappedIsData(a, d, vp);
      if !Writable(pte) {
        var resolved;
        resolved, nf := PageFault(d, va);
        if !resolved { return false, nf; }
        pte := PteWord(mem, d, va / 4096);
        FaultTarget(a, d, vp, nf, S());
      }
      ghost var b := S();
      var f := FrameOf(pte);
      KernelKeptTable(b, kernelDir, f, Bytes(mem[f].b[va % 4096 := v]));
      mem := mem[f := Bytes(mem[f].b[va % 4096 := v])];
      StoreIsStep(a, d, vp, va % 4096, v, nf, b, S());
      StepInv(Flatten(a), Write(d, vp, va % 4096, v, nf), F());
      ok := true;
    }

    /** One byte stored by the kernel through a user address, as sys_read does: CR0.WP
        is never set, so only presence matters. */
    method KernelStore(d: nat, va: nat, v: Byte) returns (ok: bool)
      requires Valid() && PhysInv(S()) && d in dirs && USER_LO * 4096 <= va < USER_HI * 4096
      modifies this`mem
      ensures Valid() && PhysInv(S()) && d in old(F()).spaces && (ok <==> va / 4096 in old(F()).spaces[d])
      ensures !ok ==> S() == old(S())
      ensures ok ==> var f := old(F()).spaces[d][va / 4096].frame;
                0 <= f < |old(mem)| && old(mem)[f].Bytes? && |old(mem)[f].b| == PAGE_SIZE &&
                F() == Poked(old(F()), f, va % 4096, v)
    {
      hide Tables, SpaceOf, Inv, AllMapKernel;
      ghost var a := S();
      SpaceMember(mem, d, va / 4096);
      assert F().spaces[d] == SpaceOf(mem, d);
      TableShape(a, d);
      var pte := PteWord(mem, d, va / 4096);
      if !Present(pte) { return false; }
      MappedIsData(a, d, va / 4096);
      var f := FrameOf(pte);
      PokeInv(Flatten(a), d, va / 4096, va % 4096, v);
      StoreData(a, f, Bytes(mem[f].b[va % 4096 := v]));
      KernelKeptTable(a, kernelDir, f, Bytes(mem[f].b[va % 4096 := v]));
      mem := mem[f := Bytes(mem[f].b[va % 4096 := v])];
      assert F() == Poked(Flatten(a), f, va % 4096, v);
      ok := true;
    }

    /** uvm_clone.  On success the child shares every page of the source; out of
        memory, nothing visible changes, but one reference may stay behind.
        `stopped` is the page at which it ran out, or -1. */
    method Clone(src: nat) returns (c: nat, ghost stopped: int)
      requires Valid() && PhysInv(S()) && src in dirs
      modifies this, pm`freeCount, pm.bitmap, pm.pageRefs
      ensures pm.Valid()
      ensures c != 0 <==> |old(pm.Free())| > |Slots(SpaceOf(old(mem), src))|
      ensures c != 0 ==> Valid() && dirs == old(dirs) + {c} && (PhysInv(S()) <==> RoomToShare(old(F()), src))
      ensures c != 0 ==> src in View(old(F())) && View(F()) == View(old(F()))[c := View(old(F()))[src]]
      ensures c != 0 && RoomToShare(old(F()), src) ==> Step(old(F()), Fork(src, c, Owned(S(), c)), F())
      ensures c == 0 ==> View(F()) == View(old(F())) && dirs == old(dirs)
      ensures c == 0 && old(pm.Free()) == {} ==> pm.State() == old(pm.State())
      ensures c == 0 && old(pm.Free()) != {} ==>
                |kernelDir| == ENTRIES && RunsOut(SpaceOf(old(mem), src), |old(pm.Free())|, stopped) &&
                WeightsAre(CloneLeft(old(pm.State()), SpaceOf(old(mem), src), stopped),
                           LowWalk(mem, kernelDir, USER_LO), pm.State())
    {
      hide Tables, SpaceOf, DataKept, WellFormed, Inv, RoomToShare, CloningAt, Present, FrameOf, WordAt, Step,
        FailedClone, Take, LowWalk, WeightsAre, AddRef, View, CloneLeft, AllMapKernel, SlotsBelow, HasSlots;
      ghost var a := S();
      ghost var sp := SpaceOf(a.mem, src);
      stopped := -1;
      c := Create();
      if c == 0 { return; }
      CloneStart(a, src, c, S());
      MeterStart(a.mem, src, a.pm, c, S());
      var i := USER_PDE_LO;
      while i < USER_PDE_HI
        invariant USER_PDE_LO <= i <= USER_PDE_HI && Valid()
        invariant CloningAt(a, src, c, i * 1024, S())
        invariant Metered(sp, a.pm, c, i * 1024, S())
      {
        var ok;
        ok, stopped := CloneSlot(src, c, i, a);
        if !ok { return 0, stopped; }
        i := i + 1;
      }
      CloneShows(a, src, c, S());
      if RoomToShare(Flatten(a), src) { CloneIsFork(a, src, c, S()); }
      DirsAfterClone(a, src, c, USER_HI, S());
    }

    /** Slot i of the directory being cloned. */
    method CloneSlot(src: nat, c: nat, i: nat, ghost a: Phys) returns (ok: bool, ghost stopped: int)
      requires Valid() && WellFormed(a.pm) && PhysInv(a) && src in a.dirs && UserSlot(i)
      requires CloningAt(a, src, c, i * 1024, S())
      requires Metered(SpaceOf(a.mem, src), a.pm, c, i * 1024, S())
      modifies this, pm`freeCount, pm.bitmap, pm.pageRefs
      ensures pm.Valid()
      ensures ok ==> Valid() && CloningAt(a, src, c, (i + 1) * 1024, S())
      ensures ok ==> Metered(SpaceOf(a.mem, src), a.pm, c, (i + 1) * 1024, S())
      ensures !ok ==> CloneFailed(a, src, kernelDir, S(), stopped) && 0 < |a.pm.free| <= |Slots(SpaceOf(a.mem, src))|
      ensures !ok ==> RunsOut(SpaceOf(a.mem, src), |a.pm.free|, stopped)
    {
      hide Tables, SpaceOf, DataKept, WellFormed, Inv, CloningAt, Present, FrameOf, WordAt, CloneFailed, AllMapKernel,
        Metered, SlotsBelow, RunsOut;
      stopped := -1;
      ok := true;
      var pde := WordAt(mem, src, i);
      if !Present(pde) {
        NoPagesThere(a, src, c, i, S());
        AbsentSlot(a, src, c, i, S());
        MeterSkip(SpaceOf(a.mem, src), a.pm, c, i * 1024, (i + 1) * 1024, S());
        return;
      }
      var t := FrameOf(pde);
      SourceTable(a, src, c, i * 1024, i, S());
      assert i * 1024 + 1024 == (i + 1) * 1024;
      var j := 0;
      while j < ENTRIES
        invariant 0 <= j <= ENTRIES && Valid()
        invariant t in a.tabs && a.tabs[t] == (src as int, i as int)
        invariant CloningAt(a, src, c, i * 1024 + j, S())
        invariant Metered(SpaceOf(a.mem, src), a.pm, c, i * 1024 + j, S())
      {
        ok, stopped := ClonePage(src, c, i, j, t, a);
        if !ok { return; }
        j := j + 1;
      }
    }

    /** Entry j of that slot's table t. */
    method ClonePage(src: nat, c: nat, i: nat, j: nat, t: nat, ghost a: Phys) returns (ok: bool, ghost stopped: int)
      requires Valid() && WellFormed(a.pm) && PhysInv(a) && src in a.dirs && UserSlot(i) && j < ENTRIES
      requires CloningAt(a, src, c, i * 1024 + j, S())
      requires t in a.tabs && a.tabs[t] == (src as int, i as int)
      requires Metered(SpaceOf(a.mem, src), a.pm, c, i * 1024 + j, S())
      modifies this, pm`freeCount, pm.bitmap, pm.pageRefs
      ensures pm.Valid()
      ensures ok ==> Valid() && CloningAt(a, src, c, i * 1024 + j + 1, S())
      ensures ok ==> Metered(SpaceOf(a.mem, src), a.pm, c, i * 1024 + j + 1, S())
      ensures !ok ==> CloneFailed(a, src, kernelDir, S(), stopped) && 0 < |a.pm.free| <= |Slots(SpaceOf(a.mem, src))|
      ensures !ok ==> RunsOut(SpaceOf(a.mem, src), |a.pm.free|, stopped)
    {
      hide Tables, SpaceOf, DataKept, WellFormed, Inv, CloningAt, Present, FrameOf, WordAt, CloneFailed, AllMapKernel,
        LowSlots,
        ParentDone, MapRel, AddRef, Metered, SlotsBelow, DirKept, Costs, RunsOut;
      stopped := -1;
      ghost var b := S();
      ghost var vp := i * 1024 + j;
      ghost var sp := SpaceOf(a.mem, src);
      assert vp / 1024 == i && vp * 4096 / 0x400000 == i;
      SourceEntry(a, src, c, vp, t, i, j, b);
      CurrentPte(a, src, c, vp, b);
      var pte := WordAt(mem, t, j);
      if !Present(pte) {
        CloneSkip(a, src, c, vp, vp + 1, b);
        MeterSkip(sp, a.pm, c, vp, vp + 1, b);
        return true, -1;
      }
      SourceFrame(a, src, vp);
      ghost var p := sp[vp];
      var flags := Kept(pte);
      KeptFlags(pte);
      if Writable(pte) {
        flags := PAGE_USER + PAGE_COW;
        var x := FrameOf(pte) * 4096 + PAGE_PRESENT + PAGE_USER + PAGE_COW;
        KernelKeptTable(b, kernelDir, t, Words(mem[t].w[j := x]));
        mem := mem[t := Words(mem[t].w[j := x])];
        DowngradeParent(a, src, c, vp, t, i, j, b, x);
      } else {
        KeepParent(a, src, c, vp, b);
      }
      ghost var m := mem;
      ChildKept(a, src, c, vp, b, m);
      pm.Retain(FrameOf(pte) * PAGE_SIZE);
      assert FrameOf(pte) * PAGE_SIZE / PAGE_SIZE == FrameOf(pte);
      ghost var b2 := S();
      assert b2 == Retained(b, m, p.frame);
      RetainedTables(a, src, c, vp, b, m);
      MeterSame(sp, a.pm, c, vp, b, b2, p.frame);
      assert vp * 4096 / 4096 == vp;
      ok := MapPage(c, (i * 1024 + j) * 4096, FrameOf(pte) * PAGE_SIZE, flags);
      if ok {
        FlagsAreDown(pte, flags);
        CloneShare(a, src, c, vp, b, m, S());
        MeterStep(sp, a.pm, c, vp, b2, S());
      } else {
        MeterStops(sp, a.pm, c, vp, b2);
        KernelIsLow(m, dirs, c, kernelDir);
        FreeFrom(c, 0);
        stopped := vp;
        FailedCloneIs(a, src, c, vp, b, m, kernelDir);
      }
    }
  }
}
