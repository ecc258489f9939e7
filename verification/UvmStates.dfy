/** States of kernel/uvm.c with the kernel's identity tables as kernel/paging.c builds
    them, at which properties one would expect fail. */
module UvmStates {
  import opened ByteSeq
  import opened Pmm
  import opened Sets
  import opened Cow
  import opened Uvm

  const ID_TABLES: int := 256 // frames of the identity tables, then of the kernel-high ones
  const EMPTY: int := 320     // a directory with no user page
  const DIRS: int := 400      // directories that share a page, one table each
  const TABS: int := 700
  const SHARED: int := 1000   // the page

  ghost function KernelWord(i: int): nat {
    if 0 <= i < USER_PDE_LO then (ID_TABLES + i) * 4096 + 3
    else if USER_PDE_HI <= i < KERNEL_PDE_END then (ID_TABLES + 32 + i - USER_PDE_HI) * 4096 + 3 else 0
  }

  ghost predicate Sharer(n: nat, d: int) { DIRS <= d < DIRS + n }

  ghost predicate Directory(n: nat, d: int) { d == EMPTY || Sharer(n, d) }

  ghost predicate Table(n: nat, t: int) { TABS <= t < TABS + n }

  ghost predicate Unused(top: int, f: int) { SHARED < f < top }

  ghost function DirWord(d: int, i: int): nat {
    if d != EMPTY && i == USER_PDE_LO && d >= DIRS then (d - DIRS + TABS) * 4096 + 7 else KernelWord(i)
  }

  ghost function BootFrame(f: int): Frame {
    if ID_TABLES <= f < ID_TABLES + 64
      then Words(seq(ENTRIES, j requires 0 <= j => ((f - ID_TABLES) % 32 * 1024 + j) * 4096 + 3))
    else if Directory(255, f) then Words(seq(ENTRIES, i => DirWord(f, i)))
    else if Table(255, f) then Words(seq(ENTRIES, j => if j == 0 then SHARED * 4096 + 5 else 0))
    else if f == SHARED then Bytes(seq<Byte>(PAGE_SIZE, _ => 0))
    else Words(seq(ENTRIES, _ => 0))
  }

  ghost function BootMem(): seq<Frame> { seq(PAGES_MAX, f => BootFrame(f)) }

  ghost function BootPm(n: nat, top: nat): Frames {
    Frames(set f: nat | f < PAGES_MAX && Unused(top, f),
           seq(PAGES_MAX, f => if Unused(top, f) then 0 else if f == SHARED then n else 1))
  }

  /** One directory with an empty user range and `n` that share a read-only page; the
      frames after it and below `top` are free. */
  ghost function Boot(n: nat, top: nat): Phys {
    Phys(BootMem(), BootPm(n, top), set d: int | 0 <= d < PAGES_MAX && Directory(n, d),
         map t: int | 0 <= t < PAGES_MAX && Table(n, t) :: (t - TABS + DIRS, USER_PDE_LO as int))
  }

  ghost function SpaceIn(d: int): Space {
    if d == EMPTY then map[] else map[USER_LO as int := Pte(SHARED, false, true, false)]
  }

  ghost function Spaces(n: nat): map<int, Space> {
    map d: int | 0 <= d < PAGES_MAX && Directory(n, d) :: SpaceIn(d)
  }

  // ------------------------------------------------------------------
  // Words

  lemma WordOfDir(d: int, i: int)
    requires Directory(255, d) && 0 <= i < ENTRIES
    ensures WordAt(BootMem(), d, i) == DirWord(d, i)
  {
    assert BootMem()[d] == BootFrame(d);
    hide DirWord;
  }

  lemma WordOfTable(t: int, j: int)
    requires Table(255, t) && 0 <= j < ENTRIES
    ensures WordAt(BootMem(), t, j) == if j == 0 then SHARED * 4096 + 5 else 0
  {
    assert BootMem()[t] == BootFrame(t);
  }

  lemma WordOfIdentity(k: int, j: int)
    requires 0 <= k < 32 && 0 <= j < ENTRIES
    ensures WordAt(BootMem(), ID_TABLES + k, j) == (k * 1024 + j) * 4096 + 3
  {
    assert BootMem()[ID_TABLES + k] == BootFrame(ID_TABLES + k);
  }

  lemma DirWords(d: int, i: int)
    requires Directory(255, d) && 0 <= i < ENTRIES
    ensures i < USER_PDE_LO ==> Present(DirWord(d, i)) && FrameOf(DirWord(d, i)) == ID_TABLES + i
    ensures UserSlot(i) ==> (Present(DirWord(d, i)) <==> d != EMPTY && i == USER_PDE_LO)
    ensures d != EMPTY ==> FrameOf(DirWord(d, USER_PDE_LO)) == d - DIRS + TABS
  {
  }

  lemma Identity(d: int)
    requires Directory(255, d)
    ensures IdentityTables(BootMem(), d)
  {
    forall vp | 0 <= vp < USER_LO ensures PteWord(BootMem(), d, vp) == vp * 4096 + 3 {
      WordOfDir(d, vp / 1024);
      DirWords(d, vp / 1024);
      WordOfIdentity(vp / 1024, vp % 1024);
      hide BootMem, WordAt, Present, FrameOf, DirWord;
      assert vp / 1024 * 1024 + vp % 1024 == vp;
    }
  }

  lemma Page(d: int, vp: int)
    requires Directory(255, d) && USER_LO <= vp < USER_HI
    ensures PteWord(BootMem(), d, vp) == if d != EMPTY && vp == USER_LO then SHARED * 4096 + 5 else 0
  {
    WordOfDir(d, vp / 1024);
    DirWords(d, vp / 1024);
    if d != EMPTY { WordOfTable(d - DIRS + TABS, vp % 1024); }
    hide BootMem, WordAt, Present, FrameOf, DirWord;
  }

  lemma SpaceIs(d: int)
    requires Directory(255, d)
    ensures SpaceOf(BootMem(), d) == SpaceIn(d)
  {
    var mem := BootMem();
    forall vp | USER_LO <= vp < USER_HI
      ensures PteWord(mem, d, vp) == if d != EMPTY && vp == USER_LO then SHARED * 4096 + 5 else 0
    {
      Page(d, vp);
    }
    hide BootMem, PteWord;
    assert Present(SHARED * 4096 + 5) && Decode(SHARED * 4096 + 5) == Pte(SHARED, false, true, false) && !Present(0);
    hide Present, Decode;
    forall vp: int ensures vp in SpaceOf(mem, d) <==> d != EMPTY && vp == USER_LO {
      if USER_LO <= vp < USER_HI { assert HasPage(mem, d, vp) <==> Present(PteWord(mem, d, vp)); }
    }
    assert d != EMPTY ==> SpaceOf(mem, d)[USER_LO as int] == Pte(SHARED, false, true, false);
    assert SpaceOf(mem, d).Keys == SpaceIn(d).Keys;
  }

  lemma SpacesAre(n: nat, top: nat)
    requires n <= 255
    ensures Flatten(Boot(n, top)).spaces == Spaces(n)
  {
    forall d | 0 <= d < PAGES_MAX && Directory(n, d) ensures SpaceOf(BootMem(), d) == SpaceIn(d) { SpaceIs(d); }
    hide SpaceOf, BootMem, SpaceIn, Directory;
  }

  // ------------------------------------------------------------------
  // The invariant

  lemma PmFacts(n: nat, top: nat)
    requires n <= 255 && SHARED < top <= PAGES_MAX
    ensures WellFormed(BootPm(n, top)) && 0 !in BootPm(n, top).free && BootPm(n, top).refs[SHARED] == n
    ensures SHARED !in BootPm(n, top).free && forall f :: f in BootPm(n, top).free ==> BootPm(n, top).refs[f] == 0
    ensures forall f :: 0 < f < SHARED ==> f !in BootPm(n, top).free && BootPm(n, top).refs[f] == 1
  {
  }

  lemma TableFrames(n: nat, top: nat, f: int)
    requires n <= 255 && SHARED < top <= PAGES_MAX && (Directory(n, f) || Table(n, f)) && WellFormed(BootPm(n, top))
    ensures TableFrame(Boot(n, top), f)
  {
    PmFacts(n, top);
    assert BootMem()[f] == BootFrame(f);
    hide BootPm;
  }

  lemma BootTables(n: nat, top: nat)
    requires n <= 255 && SHARED < top <= PAGES_MAX
    ensures Tables(Boot(n, top))
  {
    var s := Boot(n, top);
    PmFacts(n, top);
    forall f | Directory(n, f) || Table(n, f) ensures TableFrame(s, f) { TableFrames(n, top, f); }
    forall d, i | Directory(n, d) && UserSlot(i)
      ensures Present(WordAt(s.mem, d, i)) <==> d != EMPTY && i == USER_PDE_LO
      ensures d != EMPTY ==> FrameOf(WordAt(s.mem, d, USER_PDE_LO)) == d - DIRS + TABS
    {
      WordOfDir(d, i);
      DirWords(d, i);
      WordOfDir(d, USER_PDE_LO);
    }
    hide BootMem, BootPm, WordAt, Present, FrameOf, TableFrame;
  }

  lemma Uses(d: int, f: int)
    ensures |Using(SpaceIn(d), f)| == if d != EMPTY && f == SHARED then 1 else 0
  {
    if d != EMPTY && f == SHARED {
      assert Using(SpaceIn(d), f) == {USER_LO as int};
    } else {
      assert Using(SpaceIn(d), f) == {};
    }
  }

  lemma {:induction false} Sharers(n: nat, f: int)
    requires n <= 255
    ensures |Mappers(Spaces(n), f)| == if f == SHARED then n else 0
  {
    if n == 0 {
      assert Mappers(Spaces(0), f) == {};
    } else {
      var d := DIRS + n - 1;
      Uses(d, f);
      Sharers(n - 1, f);
      assert Spaces(n) - {d} == Spaces(n - 1) && d in Spaces(n) && Spaces(n)[d] == SpaceIn(d);
      hide Mappers, Using, SpaceIn, Spaces;
      MappersSplit(Spaces(n), d, f);
    }
  }

  lemma OnePage(fl: Flat, n: nat)
    requires WellFormed(fl.pm) && |fl.mem| == PAGES_MAX && 0 !in fl.pm.free && fl.spaces == Spaces(n)
    requires forall f :: f in fl.pm.free ==> fl.pm.refs[f] == 0
    requires SHARED !in fl.pm.free && fl.mem[SHARED].Bytes? && |fl.mem[SHARED].b| == PAGE_SIZE
    ensures Shaped(fl) && WritableIsSole(fl)
  {
    hide Mappers, WellFormed;
  }

  lemma BootInv(n: nat, top: nat)
    requires n <= 255 && SHARED < top <= PAGES_MAX
    ensures PhysInv(Boot(n, top))
  {
    var fl := Flatten(Boot(n, top));
    BootTables(n, top);
    PmFacts(n, top);
    SpacesAre(n, top);
    assert fl.mem == BootMem() && fl.pm == BootPm(n, top);
    assert BootMem()[SHARED] == BootFrame(SHARED);
    assert |fl.mem| == PAGES_MAX && fl.mem[SHARED].Bytes? && |fl.mem[SHARED].b| == PAGE_SIZE;
    hide Tables, BootMem, BootPm, Boot, SpaceOf, Mappers, Spaces, Shaped, WritableIsSole, BootFrame;
    OnePage(fl, n);
    forall f | 0 <= f < PAGES_MAX && Mappers(fl.spaces, f) != {} ensures fl.pm.refs[f] == |Mappers(fl.spaces, f)| {
      Sharers(n, f);
      NotEmpty(Mappers(fl.spaces, f));
    }
  }

  lemma NotEmpty<T>(s: set<T>)
    requires s != {}
    ensures |s| > 0
  {
  }

  // ------------------------------------------------------------------
  // uvm_free, uvm_clone out of memory, and uvm_clone of a crowded page

  /** Freeing the empty directory frees the page that one other process maps. */
  lemma LiteralFreeFails()
    ensures var s := Boot(1, PAGES_MAX);
            PhysInv(s) && IdentityTables(s.mem, EMPTY) && EMPTY in s.dirs && SpaceOf(s.mem, DIRS) == SpaceIn(DIRS) &&
            SHARED in AfterFree(s, EMPTY, 0).pm.free && !PhysInv(AfterFree(s, EMPTY, 0))
  {
    BootInv(1, PAGES_MAX);
    PmFacts(1, PAGES_MAX);
    Identity(EMPTY);
    SpaceIs(DIRS);
    hide BootMem, BootPm, PhysInv, IdentityTables, SpaceOf, AfterFree;
    LiteralFreesMapped(Boot(1, PAGES_MAX), EMPTY, DIRS, USER_LO);
  }

  /** A child of the first sharer at frame c, with its directory and no table yet. */
  ghost function Begun(n: nat, top: nat, c: nat): Phys
    requires n <= 255 && SHARED < c < top <= PAGES_MAX
  {
    Phys(BootMem()[c := Words(seq(ENTRIES, i => KernelWord(i)))], Take(BootPm(n, top), c),
         Boot(n, top).dirs + {c}, Boot(n, top).tabs)
  }

  lemma BegunIs(n: nat, top: nat, c: nat)
    requires 1 <= n <= 255 && SHARED < c < top <= PAGES_MAX
    ensures WellFormed(Boot(n, top).pm) && WellFormed(Begun(n, top, c).pm) && Tables(Begun(n, top, c))
    ensures CloningAt(Boot(n, top), DIRS, c, USER_LO, Begun(n, top, c))
  {
    var a, w := Boot(n, top), seq(ENTRIES, i => KernelWord(i));
    BootInv(n, top);
    PmFacts(n, top);
    assert c in a.pm.free && DIRS in a.dirs;
    assert forall i :: USER_PDE_LO <= i < USER_PDE_HI ==> w[i] == 0;
    hide BootMem, BootPm, Tables, SpaceOf, DataKept, Inv, CloningAt;
    NewDirectory(a, c, w);
    CloneStart(a, DIRS, c, Begun(n, top, c));
  }

  lemma LastFrame()
    ensures var b := Begun(1, SHARED + 2, SHARED + 1);
            b.pm.free == {} && WordAt(b.mem, SHARED + 1, USER_PDE_LO) == 0 && DIRS in Boot(1, SHARED + 2).dirs
  {
    hide BootMem;
    assert |BootMem()| == PAGES_MAX by { MemLength(); }
  }

  lemma MemLength()
    ensures |BootMem()| == PAGES_MAX
  {
  }

  lemma FirstPage(pm: Frames)
    requires WellFormed(pm)
    ensures USER_LO in SpaceIn(DIRS) && SpaceIn(DIRS)[USER_LO] == Pte(SHARED, false, true, false)
    ensures RoomSoFar(pm, SpaceIn(DIRS), USER_LO)
  {
    assert forall f :: UsingBelow(SpaceIn(DIRS), USER_LO, f) == {};
  }

  lemma LeakHere(a: Phys, d: int, c: nat, vp: int, b: Phys)
    requires WellFormed(a.pm) && PhysInv(a) && WellFormed(b.pm) && Tables(b) && CloningAt(a, d, c, vp, b) && d != c
    requires d in a.dirs && vp in SpaceOf(a.mem, d) && !SpaceOf(a.mem, d)[vp].write
    requires RoomSoFar(a.pm, SpaceOf(a.mem, d), vp)
    ensures ParentDone(a, d, c, vp, b, b.mem)
    ensures var g := SpaceOf(a.mem, d)[vp].frame;
            0 < g < PAGES_MAX && AfterFree(Retained(b, b.mem, g), c, USER_PDE_LO).pm == AddRef(a.pm, g)
  {
    hide Tables, SpaceOf, Inv, CloningAt, CloneLeft, RoomSoFar, AfterFree, Retained, ParentDone;
    SourceFrame(a, d, vp);
    KeepParent(a, d, c, vp, b);
    FailedCloneLeft(a, d, c, vp, b, b.mem);
    FailedCloneLeaksOne(a, d, vp);
  }

  /** With one frame left, uvm_clone takes it for the directory and has none for the
      first table: the page's count is one too high afterwards. */
  lemma CloneLeaks()
    ensures var a, c := Boot(1, SHARED + 2), SHARED + 1;
            var b := Begun(1, SHARED + 2, c);
            PhysInv(a) && DIRS in a.dirs && WellFormed(b.pm) && ParentDone(a, DIRS, c, USER_LO, b, b.mem) &&
            b.pm.free == {} && !Present(WordAt(b.mem, c, USER_PDE_LO)) &&
            AfterFree(Retained(b, b.mem, SHARED), c, USER_PDE_LO).pm == AddRef(a.pm, SHARED) != a.pm
  {
    hide BootMem, BootPm, Begun, Tables, SpaceOf, SpaceIn, Inv, CloningAt, RoomSoFar, WordAt, AfterFree, Retained,
      ParentDone, WellFormed, PhysInv;
    var c := SHARED + 1;
    BegunIs(1, SHARED + 2, c);
    LastFrame();
    BootInv(1, SHARED + 2);
    PmFacts(1, SHARED + 2);
    SpaceIs(DIRS);
    FirstPage(BootPm(1, SHARED + 2));
    assert Boot(1, SHARED + 2).mem == BootMem() && Boot(1, SHARED + 2).pm == BootPm(1, SHARED + 2);
    hide Boot;
    LeakHere(Boot(1, SHARED + 2), DIRS, c, USER_LO, Begun(1, SHARED + 2, c));
  }

  /** With 255 processes sharing a page and frames to spare, uvm_clone of one of them
      succeeds, and whatever it leaves breaks the invariant. */
  lemma CrowdBreaks(c: int, b: Phys)
    requires WellFormed(b.pm) && WellFormed(BootPm(255, PAGES_MAX)) &&
             CloningAt(Boot(255, PAGES_MAX), DIRS, c, USER_HI, b)
    ensures !Inv(Flatten(b))
  {
    CrowdHasNoRoom();
    hide Boot, Inv, RoomToShare, CloningAt, PhysInv;
    CloneShows(Boot(255, PAGES_MAX), DIRS, c, b);
  }

  lemma CrowdHasNoRoom()
    ensures var a := Boot(255, PAGES_MAX);
            PhysInv(a) && DIRS in a.dirs && !RoomToShare(Flatten(a), DIRS) &&
            |a.pm.free| > |Slots(SpaceOf(a.mem, DIRS))|
  {
    var a := Boot(255, PAGES_MAX);
    BootInv(255, PAGES_MAX);
    PmFacts(255, PAGES_MAX);
    SpacesAre(255, PAGES_MAX);
    SpaceIs(DIRS);
    Uses(DIRS, SHARED);
    FramesToSpare();
    OneSlot();
    assert DIRS in Spaces(255) && Spaces(255)[DIRS] == SpaceIn(DIRS);
    assert a.mem == BootMem() && a.pm == BootPm(255, PAGES_MAX);
    hide Slots, SpaceOf, BootMem, BootPm, SpaceIn, PhysInv, Spaces, Boot, WellFormed, Using;
    assert Using(Flatten(a).spaces[DIRS], SHARED) != {};
  }

  lemma FramesToSpare()
    ensures |BootPm(255, PAGES_MAX).free| > 1 && DIRS in Boot(255, PAGES_MAX).dirs
  {
    var free := BootPm(255, PAGES_MAX).free;
    assert SHARED + 1 in free && SHARED + 2 in free;
    TwoOrMore(free, SHARED + 1, SHARED + 2);
  }

  lemma OneSlot()
    ensures |Slots(SpaceIn(DIRS))| <= 1
  {
    assert Slots(SpaceIn(DIRS)) <= {USER_PDE_LO as int};
    SubsetCard(Slots(SpaceIn(DIRS)), {USER_PDE_LO as int});
  }

  lemma TwoOrMore<T>(s: set<T>, x: T, y: T)
    requires x in s && y in s && x != y
    ensures |s| > 1
  {
    CardRemove(s, x);
    CardRemove(s - {x}, y);
  }
}
