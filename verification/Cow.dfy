/** The copy-on-write address spaces of kernel/uvm.c and kernel/fault.c, seen with
    each address space as one map from virtual page to page-table entry, and the
    machine they stand in for: one that copies every page at fork.  Module Uvm
    shows that the two-level tables in physical memory take exactly these steps. */
module Cow {
  import opened ByteSeq
  import opened Pmm
  import opened Sets

  const USER_LO: nat := 32 * 1024  // first user page: PDE 32
  const USER_HI: nat := 768 * 1024 // one past the last user page: PDE 767
  const MAX_REFS: nat := 255

  /** A page frame, as page-table words or as data. */
  datatype Frame = Words(w: seq<nat>) | Bytes(b: seq<Byte>)

  datatype Pte = Pte(frame: int, write: bool, user: bool, cow: bool)

  type Space = map<int, Pte>

  datatype Flat = Flat(spaces: map<int, Space>, pm: Frames, mem: seq<Frame>)

  // ------------------------------------------------------------------
  // The eager machine

  datatype Page = Page(bytes: seq<Byte>, writable: bool)

  type Eager = map<int, map<int, Page>>

  datatype Op =
    | Alloc(f: int, bytes: seq<Byte>)                              // a kernel caller takes and fills a page
    | Create(d: int)                                               // uvm_create
    | Map(d: int, vp: int, f: int, bytes: seq<Byte>, w: bool, taken: set<int>) // uvm_map
    | Fork(d: int, c: int, taken: set<int>)                        // uvm_clone
    | Write(d: int, vp: int, k: nat, v: Byte, nf: nat)             // a ring-3 store with its fault
    | Free(d: int, released: set<int>)                             // uvm_free

  ghost function EagerStep(e: Eager, op: Op): Eager {
    match op
    case Alloc(_, _) => e
    case Create(d) => e[d := map[]]
    case Map(d, vp, _, bytes, w, _) => if d in e then e[d := e[d][vp := Page(bytes, w)]] else e
    case Fork(d, c, _) => if d in e then e[c := e[d]] else e
    case Write(d, vp, k, v, _) =>
      if d in e && vp in e[d] && e[d][vp].writable && k < |e[d][vp].bytes|
      then e[d := e[d][vp := Page(e[d][vp].bytes[k := v], true)]] else e
    case Free(d, _) => e - {d}
  }

  // ------------------------------------------------------------------
  // Meaning and invariant of the lazy machine

  ghost function BytesOf(m: Frame): seq<Byte> {
    if m.Bytes? then m.b else []
  }

  ghost function PageOf(mem: seq<Frame>, p: Pte): Page {
    Page(if 0 <= p.frame < |mem| then BytesOf(mem[p.frame]) else [], p.write || p.cow)
  }

  ghost function SpaceView(mem: seq<Frame>, sp: Space): map<int, Page> {
    map vp | vp in sp :: PageOf(mem, sp[vp])
  }

  /** What user code can see of a state. */
  ghost function View(s: Flat): Eager {
    map d | d in s.spaces :: SpaceView(s.mem, s.spaces[d])
  }

  /** The entries, over all address spaces, that map frame f. */
  ghost function Mappers(spaces: map<int, Space>, f: int): set<(int, int)> {
    set d, vp | d in spaces && vp in spaces[d] && spaces[d][vp].frame == f :: (d, vp)
  }

  ghost function Using(sp: Space, f: int): set<int> {
    set vp | vp in sp && sp[vp].frame == f
  }

  ghost predicate PteOk(s: Flat, vp: int, p: Pte)
    requires WellFormed(s.pm) && |s.mem| == PAGES_MAX
  {
    && USER_LO <= vp < USER_HI
    && 0 < p.frame < PAGES_MAX && p.frame !in s.pm.free
    && s.mem[p.frame].Bytes? && |s.mem[p.frame].b| == PAGE_SIZE
    && p.user && !(p.write && p.cow)
  }

  ghost predicate Shaped(s: Flat) {
    && WellFormed(s.pm) && |s.mem| == PAGES_MAX
    && 0 !in s.pm.free
    && (forall f :: f in s.pm.free ==> s.pm.refs[f] == 0)
    && (forall d, vp :: d in s.spaces && vp in s.spaces[d] ==> PteOk(s, vp, s.spaces[d][vp]))
  }

  /** The stored count of a mapped frame is the number of entries that map it. */
  ghost predicate Counted(s: Flat)
    requires WellFormed(s.pm)
  {
    forall f :: 0 <= f < PAGES_MAX && Mappers(s.spaces, f) != {} ==> s.pm.refs[f] == |Mappers(s.spaces, f)|
  }

  /** A frame that some entry lets be written is mapped by that entry alone. */
  ghost predicate WritableIsSole(s: Flat)
    requires WellFormed(s.pm)
  {
    forall d, vp :: d in s.spaces && vp in s.spaces[d] && s.spaces[d][vp].write && s.spaces[d][vp].frame < PAGES_MAX ==>
      Mappers(s.spaces, s.spaces[d][vp].frame) == {(d, vp)}
  }

  ghost predicate Inv(s: Flat) {
    Shaped(s) && Counted(s) && WritableIsSole(s)
  }

  // ------------------------------------------------------------------
  // Steps of the lazy machine

  ghost predicate KeepsData(a: Flat, b: Flat) {
    && |b.mem| == |a.mem|
    && forall d, vp :: d in a.spaces && vp in a.spaces[d] && 0 <= a.spaces[d][vp].frame < |a.mem| ==>
         b.mem[a.spaces[d][vp].frame] == a.mem[a.spaces[d][vp].frame]
  }

  ghost predicate KeepsDataExcept(a: Flat, b: Flat, g: int) {
    && |b.mem| == |a.mem|
    && forall d, vp ::
       d in a.spaces && vp in a.spaces[d] && 0 <= a.spaces[d][vp].frame < |a.mem| && a.spaces[d][vp].frame != g ==>
         b.mem[a.spaces[d][vp].frame] == a.mem[a.spaces[d][vp].frame]
  }

  ghost predicate Taken(a: Frames, taken: set<int>, b: Frames)
    requires WellFormed(a) && WellFormed(b)
  {
    && taken <= a.free && b.free == a.free - taken
    && forall f :: 0 <= f < PAGES_MAX ==> b.refs[f] == if f in taken then 1 else a.refs[f]
  }

  ghost function Down(p: Pte): Pte {
    if p.write then Pte(p.frame, false, true, true) else p
  }

  ghost function DownAll(sp: Space): Space {
    map vp | vp in sp :: Down(sp[vp])
  }

  /** Fewer than 255 sharers, counting the ones fork is about to add. */
  ghost predicate RoomToShare(s: Flat, d: int)
    requires WellFormed(s.pm) && d in s.spaces
  {
    forall f :: 0 <= f < PAGES_MAX && Using(s.spaces[d], f) != {} ==>
      s.pm.refs[f] + |Using(s.spaces[d], f)| <= MAX_REFS
  }

  ghost predicate ForkStep(a: Flat, d: int, c: int, taken: set<int>, b: Flat)
    requires WellFormed(a.pm) && WellFormed(b.pm)
  {
    && d in a.spaces && c !in a.spaces && RoomToShare(a, d)
    && taken <= a.pm.free
    && b.spaces == Forked(a.spaces, d, c)
    && b.pm.free == a.pm.free - taken
    && (forall f :: 0 <= f < PAGES_MAX ==>
          b.pm.refs[f] == if f in taken then 1 else a.pm.refs[f] + |Using(a.spaces[d], f)|)
    && KeepsData(a, b)
  }

  ghost predicate FreeStep(a: Flat, d: int, released: set<int>, b: Flat)
    requires WellFormed(a.pm) && WellFormed(b.pm)
  {
    && d in a.spaces
    && (forall f :: f in released ==> f < PAGES_MAX && f != 0 && f !in a.pm.free && Mappers(a.spaces, f) == {})
    && b.spaces == a.spaces - {d}
    && (forall f :: 0 <= f < PAGES_MAX ==>
          b.pm.refs[f] == if f in released then 0 else a.pm.refs[f] - |Using(a.spaces[d], f)|)
    && (forall f :: 0 <= f < PAGES_MAX ==>
          (f in b.pm.free <==>
           f in a.pm.free || f in released || (Using(a.spaces[d], f) != {} && a.pm.refs[f] == |Using(a.spaces[d], f)|)))
    && KeepsData(a, b)
  }

  /** The entry the store goes through after the fault, if any, is resolved. */
  ghost function Resolved(a: Flat, p: Pte, nf: nat): Pte
    requires WellFormed(a.pm) && 0 <= p.frame < PAGES_MAX
  {
    if p.write then p
    else if a.pm.refs[p.frame] == 1 then p.(write := true, cow := false)
    else p.(frame := nf, write := true, cow := false)
  }

  ghost predicate WriteStep(a: Flat, d: int, vp: int, k: nat, v: Byte, nf: nat, b: Flat)
    requires Shaped(a) && WellFormed(b.pm)
  {
    && d in a.spaces && vp in a.spaces[d] && k < PAGE_SIZE
    && var p := a.spaces[d][vp];
    && (p.write || p.cow)
    && PteOk(a, vp, p)
    && var q := Resolved(a, p, nf);
    && b.spaces == a.spaces[d := a.spaces[d][vp := q]]
    && (if p.write || a.pm.refs[p.frame] == 1 then b.pm == a.pm
        else nf in a.pm.free && b.pm == Drop(Take(a.pm, nf), p.frame))
    && 0 <= q.frame < PAGES_MAX
    && KeepsDataExcept(a, b, q.frame)
    && b.mem[q.frame] == Bytes(a.mem[p.frame].b[k := v])
  }

  /** No entry for page vp, or one whose frame nobody else maps. */
  ghost predicate Replaceable(spaces: map<int, Space>, d: int, vp: int)
    requires d in spaces
  {
    vp in spaces[d] ==> Mappers(spaces, spaces[d][vp].frame) == {(d, vp)}
  }

  ghost predicate Step(a: Flat, op: Op, b: Flat) {
    && Shaped(a) && WellFormed(b.pm)
    && match op
       case Alloc(f, bytes) =>
         && f in a.pm.free && |bytes| == PAGE_SIZE
         && b == Flat(a.spaces, Take(a.pm, f), a.mem[f := Bytes(bytes)])
       case Create(d) =>
         && d !in a.spaces && b.spaces == a.spaces[d := map[]]
         && d in a.pm.free && Taken(a.pm, {d}, b.pm) && KeepsData(a, b)
       case Map(d, vp, f, bytes, w, taken) =>
         && d in a.spaces && Replaceable(a.spaces, d, vp) && USER_LO <= vp < USER_HI
         && 0 < f < PAGES_MAX && f !in a.pm.free && a.pm.refs[f] == 1 && Mappers(a.spaces, f) == {}
         && a.mem[f] == Bytes(bytes) && |bytes| == PAGE_SIZE
         && b.spaces == a.spaces[d := a.spaces[d][vp := Pte(f, w, true, false)]]
         && Taken(a.pm, taken, b.pm) && KeepsData(a, b) && b.mem[f] == a.mem[f]
       case Fork(d, c, taken) => ForkStep(a, d, c, taken, b)
       case Write(d, vp, k, v, nf) => WriteStep(a, d, vp, k, v, nf, b)
       case Free(d, released) => FreeStep(a, d, released, b)
  }

  // ------------------------------------------------------------------
  // Counting lemmas

  lemma MappersMember(spaces: map<int, Space>, f: int, m: (int, int))
    ensures m in Mappers(spaces, f) <==> m.0 in spaces && m.1 in spaces[m.0] && spaces[m.0][m.1].frame == f
  {
    if m.0 in spaces && m.1 in spaces[m.0] && spaces[m.0][m.1].frame == f {
      var d, vp := m.0, m.1;
      assert (d, vp) in Mappers(spaces, f);
      assert m == (d, vp);
    }
  }

  lemma MappersSplit(spaces: map<int, Space>, d: int, f: int)
    requires d in spaces
    ensures Mappers(spaces, f) == Mappers(spaces - {d}, f) + Pairs(d, Using(spaces[d], f))
    ensures |Mappers(spaces, f)| == |Mappers(spaces - {d}, f)| + |Using(spaces[d], f)|
  {
    var rest, own := Mappers(spaces - {d}, f), Pairs(d, Using(spaces[d], f));
    forall m ensures m in Mappers(spaces, f) <==> m in rest + own {
      PairsMember(d, Using(spaces[d], f), m);
      MappersMember(spaces, f, m);
      MappersMember(spaces - {d}, f, m);
    }
    assert Mappers(spaces, f) == rest + own;
    assert Mappers(spaces - {d}, f) !! Pairs(d, Using(spaces[d], f));
    PairsCard(d, Using(spaces[d], f));
  }

  lemma UsingDown(sp: Space, f: int)
    ensures Using(DownAll(sp), f) == Using(sp, f)
  {
    assert forall vp :: vp in sp ==> DownAll(sp)[vp].frame == sp[vp].frame;
  }

  // ------------------------------------------------------------------
  // Every step keeps the invariant

  ghost function Forked(spaces: map<int, Space>, d: int, c: int): map<int, Space>
    requires d in spaces
  {
    spaces[d := DownAll(spaces[d])][c := DownAll(spaces[d])]
  }

  lemma ForkMappers(spaces: map<int, Space>, d: int, c: int, f: int)
    requires d in spaces && c !in spaces
    ensures Mappers(Forked(spaces, d, c), f) == Mappers(spaces, f) + Pairs(c, Using(spaces[d], f))
    ensures |Mappers(Forked(spaces, d, c), f)| == |Mappers(spaces, f)| + |Using(spaces[d], f)|
  {
    hide Using, DownAll;
    var mid := spaces[d := DownAll(spaces[d])];
    var end := Forked(spaces, d, c);
    UsingDown(spaces[d], f);
    MappersSplit(spaces, d, f);
    MappersSplit(mid, d, f);
    assert mid - {d} == spaces - {d};
    assert end - {c} == mid;
    MappersSplit(end, c, f);
  }

  lemma ForkCounted(a: Flat, d: int, c: int, taken: set<int>, b: Flat, f: int)
    requires Inv(a) && WellFormed(b.pm) && ForkStep(a, d, c, taken, b)
    requires 0 <= f < PAGES_MAX && Mappers(b.spaces, f) != {}
    ensures b.pm.refs[f] == |Mappers(b.spaces, f)|
  {
    ForkMappers(a.spaces, d, c, f);
    UsingBound(a, d, f);
    assert Mappers(a.spaces, f) != {} by {
      if Using(a.spaces[d], f) == {} {
        assert Pairs(c, Using(a.spaces[d], f)) == {};
      }
    }
    var m :| m in Mappers(a.spaces, f);
    assert PteOk(a, m.1, a.spaces[m.0][m.1]);
  }

  lemma ForkSole(a: Flat, d: int, c: int, taken: set<int>, b: Flat, e: int, vp: int)
    requires Inv(a) && WellFormed(b.pm) && ForkStep(a, d, c, taken, b)
    requires e in b.spaces && vp in b.spaces[e] && b.spaces[e][vp].write
    ensures Mappers(b.spaces, b.spaces[e][vp].frame) == {(e, vp)}
  {
    var f := b.spaces[e][vp].frame;
    assert e != c && e != d;
    assert PteOk(a, vp, a.spaces[e][vp]);
    assert Mappers(a.spaces, f) == {(e, vp)};
    ForkMappers(a.spaces, d, c, f);
    assert Using(a.spaces[d], f) == {} by {
      assert forall q :: q in Using(a.spaces[d], f) ==> (d, q) in Mappers(a.spaces, f);
    }
    assert Pairs(c, Using(a.spaces[d], f)) == {};
  }

  /** With counts of at most 255, room for the new sharers is also necessary: no
      state with the forked spaces can keep the counts otherwise. */
  lemma ForkNeedsRoom(a: Flat, d: int, c: int, b: Flat)
    requires Inv(a) && d in a.spaces && c !in a.spaces && Inv(b) && b.spaces == Forked(a.spaces, d, c)
    ensures RoomToShare(a, d)
  {
    forall f | 0 <= f < PAGES_MAX && Using(a.spaces[d], f) != {}
      ensures a.pm.refs[f] + |Using(a.spaces[d], f)| <= MAX_REFS
    {
      ForkMappers(a.spaces, d, c, f);
      MappersSplit(a.spaces, d, f);
      SomeMapper(a.spaces, d, f);
    }
  }

  lemma SomeMapper(spaces: map<int, Space>, d: int, f: int)
    requires d in spaces && Using(spaces[d], f) != {}
    ensures Mappers(spaces, f) != {}
  {
    assert forall vp :: vp in Using(spaces[d], f) ==> (d, vp) in Mappers(spaces, f);
  }

  lemma ForkInv(a: Flat, d: int, c: int, taken: set<int>, b: Flat)
    requires Inv(a) && WellFormed(b.pm) && ForkStep(a, d, c, taken, b)
    ensures Inv(b)
  {
    forall e, vp | e in b.spaces && vp in b.spaces[e] ensures PteOk(b, vp, b.spaces[e][vp]) {
      var o := if e == c then d else e;
      assert PteOk(a, vp, a.spaces[o][vp]);
    }
    forall f | f in b.pm.free ensures b.pm.refs[f] == 0 {
      UsingBound(a, d, f);
    }
    forall f | 0 <= f < PAGES_MAX && Mappers(b.spaces, f) != {} ensures b.pm.refs[f] == |Mappers(b.spaces, f)| {
      ForkCounted(a, d, c, taken, b, f);
    }
    forall e, vp | e in b.spaces && vp in b.spaces[e] && b.spaces[e][vp].write
      ensures Mappers(b.spaces, b.spaces[e][vp].frame) == {(e, vp)}
    {
      ForkSole(a, d, c, taken, b, e, vp);
    }
  }

  lemma UsingBound(s: Flat, d: int, f: int)
    requires Inv(s) && d in s.spaces && 0 <= f < PAGES_MAX
    ensures |Using(s.spaces[d], f)| <= s.pm.refs[f]
    ensures Using(s.spaces[d], f) != {} ==> f !in s.pm.free && Mappers(s.spaces, f) != {}
  {
    MappersSplit(s.spaces, d, f);
    if Using(s.spaces[d], f) != {} {
      var vp :| vp in Using(s.spaces[d], f);
      assert (d, vp) in Mappers(s.spaces, f);
      assert PteOk(s, vp, s.spaces[d][vp]);
    }
  }

  lemma FreeInv(a: Flat, d: int, released: set<int>, b: Flat)
    requires Inv(a) && WellFormed(b.pm) && FreeStep(a, d, released, b)
    ensures Inv(b)
  {
    hide Mappers, Using;
    forall f | 0 <= f < PAGES_MAX
      ensures Mappers(b.spaces, f) != {} ==> f !in b.pm.free && f !in released && b.pm.refs[f] == |Mappers(b.spaces, f)|
      ensures f in b.pm.free ==> f != 0 && b.pm.refs[f] == 0
    {
      FreedFrame(a, d, released, b, f);
    }
    forall e, vp | e in b.spaces && vp in b.spaces[e]
      ensures PteOk(b, vp, b.spaces[e][vp])
      ensures b.spaces[e][vp].write ==> Mappers(b.spaces, b.spaces[e][vp].frame) == {(e, vp)}
    {
      assert PteOk(a, vp, a.spaces[e][vp]);
      StillSole(a, d, e, vp);
    }
  }

  lemma FreedFrame(a: Flat, d: int, released: set<int>, b: Flat, f: int)
    requires Inv(a) && WellFormed(b.pm) && FreeStep(a, d, released, b) && 0 <= f < PAGES_MAX
    ensures Mappers(b.spaces, f) != {} ==> f !in b.pm.free && f !in released && b.pm.refs[f] == |Mappers(b.spaces, f)|
    ensures f in b.pm.free ==> f != 0 && b.pm.refs[f] == 0
  {
    MappersSplit(a.spaces, d, f);
    UsingBound(a, d, f);
    hide Using, KeepsData, WritableIsSole;
    if Mappers(b.spaces, f) != {} {
      var m: (int, int) :| m in Mappers(b.spaces, f);
      MappersMember(b.spaces, f, m);
      MappersMember(a.spaces, f, m);
      hide Mappers;
      assert PteOk(a, m.1, a.spaces[m.0][m.1]);
    }
  }

  lemma StillSole(a: Flat, d: int, e: int, vp: int)
    requires WellFormed(a.pm) && WritableIsSole(a) && d in a.spaces && e in a.spaces && e != d && vp in a.spaces[e]
    requires a.spaces[e][vp].frame < PAGES_MAX
    ensures var f := a.spaces[e][vp].frame;
            (e, vp) in Mappers(a.spaces - {d}, f) &&
            (a.spaces[e][vp].write ==> Mappers(a.spaces - {d}, f) == {(e, vp)})
  {
    var f := a.spaces[e][vp].frame;
    MappersMember(a.spaces - {d}, f, (e, vp));
    MappersSplit(a.spaces, d, f);
  }

  lemma MapMappers(a: Flat, op: Op, b: Flat, f: int)
    requires Inv(a) && op.Map? && Step(a, op, b) && 0 <= f < PAGES_MAX
    ensures Mappers(b.spaces, f) == if f == op.f then {(op.d, op.vp)} else Mappers(a.spaces, f) - {(op.d, op.vp)}
    ensures Mappers(b.spaces, f) != {} ==> b.pm.refs[f] == |Mappers(b.spaces, f)|
  {
    hide Mappers, PteOk, WritableIsSole, KeepsData;
    MapAdds(a.spaces, op.d, op.vp, Pte(op.f, op.w, true, false), f);
    MappersMember(a.spaces, f, (op.d, op.vp));
    if Mappers(a.spaces, f) != {} { MappedNotFree(a, f); }
    if (op.d, op.vp) !in Mappers(a.spaces, f) {
      assert Mappers(a.spaces, f) - {(op.d, op.vp)} == Mappers(a.spaces, f);
    }
  }

  lemma MapAdds(spaces: map<int, Space>, d: int, vp: int, p: Pte, f: int)
    requires d in spaces
    ensures var now := spaces[d := spaces[d][vp := p]];
            Mappers(now, f) == Mappers(spaces, f) - {(d, vp)} + if f == p.frame then {(d, vp)} else {}
  {
    var now := spaces[d := spaces[d][vp := p]];
    forall m
      ensures m in Mappers(now, f) <==> (m in Mappers(spaces, f) && m != (d, vp)) || (f == p.frame && m == (d, vp))
    {
      MappersMember(now, f, m);
      MappersMember(spaces, f, m);
    }
  }

  lemma MapInv(a: Flat, op: Op, b: Flat)
    requires Inv(a) && op.Map? && Step(a, op, b)
    ensures Inv(b)
  {
    hide Mappers;
    forall f | 0 <= f < PAGES_MAX
      ensures Mappers(b.spaces, f) == if f == op.f then {(op.d, op.vp)} else Mappers(a.spaces, f) - {(op.d, op.vp)}
      ensures Mappers(b.spaces, f) != {} ==> b.pm.refs[f] == |Mappers(b.spaces, f)|
    {
      MapMappers(a, op, b, f);
    }
    forall e, q | e in b.spaces && q in b.spaces[e]
      ensures PteOk(b, q, b.spaces[e][q])
      ensures b.spaces[e][q].write ==> Mappers(b.spaces, b.spaces[e][q].frame) == {(e, q)}
    {
      if (e, q) != (op.d, op.vp) {
        assert b.spaces[e][q] == a.spaces[e][q];
        assert PteOk(a, q, a.spaces[e][q]);
        MappersMember(a.spaces, a.spaces[e][q].frame, (e, q));
      }
    }
  }

  /** Redirecting one entry moves it from the mappers of one frame to another. */
  lemma RedirectMappers(spaces: map<int, Space>, d: int, vp: int, q: Pte, f: int)
    requires d in spaces && vp in spaces[d]
    ensures var m := Mappers(spaces[d := spaces[d][vp := q]], f);
            m == (if f == q.frame then Mappers(spaces, f) + {(d, vp)} else Mappers(spaces, f) - {(d, vp)})
  {
  }

  lemma WriteCounted(a: Flat, d: int, vp: int, k: nat, v: Byte, nf: nat, b: Flat, f: int)
    requires Inv(a) && WellFormed(b.pm) && WriteStep(a, d, vp, k, v, nf, b)
    requires 0 <= f < PAGES_MAX && Mappers(b.spaces, f) != {}
    ensures b.pm.refs[f] == |Mappers(b.spaces, f)|
  {
    hide Mappers, PteOk, Counted, Shaped, WritableIsSole, KeepsDataExcept, Drop, Take;
    InvWellFormed(a);
    var p := a.spaces[d][vp];
    WriteMappers(a, d, vp, k, v, nf, b, f);
    SoleOwner(a, d, vp);
    if Mappers(a.spaces, f) != {} { CountedAt(a, f); }
    if p.write || a.pm.refs[p.frame] == 1 {
      assert Mappers(b.spaces, f) == Mappers(a.spaces, f);
    } else {
      CopiedRefs(a.pm, nf, p.frame, f);
      if f == nf {
        FreeUnmapped(a, nf);
        assert Mappers(b.spaces, f) == {(d, vp)};
      } else if f == p.frame {
        CardRemove(Mappers(a.spaces, f), (d, vp));
      } else {
        assert Mappers(b.spaces, f) == Mappers(a.spaces, f);
      }
    }
  }

  lemma CopiedRefs(a: Frames, nf: nat, g: int, f: int)
    requires WellFormed(a) && nf in a.free && 0 < g < PAGES_MAX && g !in a.free && a.refs[g] > 1 && 0 <= f < PAGES_MAX
    ensures var b := Drop(Take(a, nf), g);
            |b.refs| == PAGES_MAX && b.refs[f] == if f == nf then 1 else if f == g then a.refs[g] - 1 else a.refs[f]
  {
  }

  lemma WriteMappers(a: Flat, d: int, vp: int, k: nat, v: Byte, nf: nat, b: Flat, f: int)
    requires Inv(a) && WellFormed(b.pm) && WriteStep(a, d, vp, k, v, nf, b)
    ensures var m := Mappers(a.spaces, f);
            && ((d, vp) in m <==> f == a.spaces[d][vp].frame)
            && 0 < a.spaces[d][vp].frame < PAGES_MAX && a.spaces[d][vp].frame !in a.pm.free
            && Mappers(b.spaces, f) ==
               if f == Resolved(a, a.spaces[d][vp], nf).frame then m + {(d, vp)} else m - {(d, vp)}
  {
    RedirectMappers(a.spaces, d, vp, Resolved(a, a.spaces[d][vp], nf), f);
    MappersMember(a.spaces, f, (d, vp));
  }

  lemma CountedAt(a: Flat, f: int)
    requires Inv(a) && 0 <= f < PAGES_MAX && Mappers(a.spaces, f) != {}
    ensures WellFormed(a.pm) && a.pm.refs[f] == |Mappers(a.spaces, f)|
  {
  }

  lemma WriteInv(a: Flat, d: int, vp: int, k: nat, v: Byte, nf: nat, b: Flat)
    requires Inv(a) && WellFormed(b.pm) && WriteStep(a, d, vp, k, v, nf, b)
    ensures Inv(b)
  {
    forall f | 0 <= f < PAGES_MAX && Mappers(b.spaces, f) != {} ensures b.pm.refs[f] == |Mappers(b.spaces, f)| {
      WriteCounted(a, d, vp, k, v, nf, b, f);
    }
    forall e, r | e in b.spaces && r in b.spaces[e]
      ensures PteOk(b, r, b.spaces[e][r])
      ensures b.spaces[e][r].write ==> Mappers(b.spaces, b.spaces[e][r].frame) == {(e, r)}
    {
      WriteEntry(a, d, vp, k, v, nf, b, e, r);
      if b.spaces[e][r].write { WriteSole(a, d, vp, k, v, nf, b, e, r); }
    }
    SoleOwner(a, d, vp);
    assert forall f :: f in b.pm.free ==> f in a.pm.free;
  }

  lemma FreeUnmapped(a: Flat, f: int)
    requires Shaped(a) && f in a.pm.free
    ensures Mappers(a.spaces, f) == {}
  {
    forall d, vp | d in a.spaces && vp in a.spaces[d] ensures a.spaces[d][vp].frame != f {
      assert PteOk(a, vp, a.spaces[d][vp]);
    }
  }

  /** The no-copy path of the fault handler is taken exactly by a sole owner. */
  lemma SoleOwner(a: Flat, d: int, vp: int)
    requires Inv(a) && d in a.spaces && vp in a.spaces[d]
    ensures a.pm.refs[a.spaces[d][vp].frame] == 1 <==> Mappers(a.spaces, a.spaces[d][vp].frame) == {(d, vp)}
    ensures a.pm.refs[a.spaces[d][vp].frame] >= 1
    ensures a.spaces[d][vp].write ==> a.pm.refs[a.spaces[d][vp].frame] == 1 && !a.spaces[d][vp].cow
  {
    var f := a.spaces[d][vp].frame;
    assert PteOk(a, vp, a.spaces[d][vp]);
    assert (d, vp) in Mappers(a.spaces, f);
    if a.pm.refs[f] == 1 {
      CardRemove(Mappers(a.spaces, f), (d, vp));
      assert Mappers(a.spaces, f) - {(d, vp)} == {};
    }
  }

  lemma WriteEntry(a: Flat, d: int, vp: int, k: nat, v: Byte, nf: nat, b: Flat, e: int, r: int)
    requires Inv(a) && WellFormed(b.pm) && WriteStep(a, d, vp, k, v, nf, b)
    requires e in b.spaces && r in b.spaces[e]
    ensures PteOk(b, r, b.spaces[e][r])
  {
    SoleOwner(a, d, vp);
    if e != d || r != vp {
      assert b.spaces[e][r] == a.spaces[e][r];
      assert PteOk(a, r, a.spaces[e][r]);
    }
  }

  lemma SoleAfterRedirect(spaces: map<int, Space>, d: int, vp: int, q: Pte, e: int, r: int)
    requires d in spaces && vp in spaces[d] && e in spaces
    requires Mappers(spaces, q.frame) <= {(d, vp)}
    requires (e, r) == (d, vp) || (r in spaces[e] && Mappers(spaces, spaces[e][r].frame) == {(e, r)})
    ensures var after: map<int, Space> := spaces[d := spaces[d][vp := q]]; Mappers(after, after[e][r].frame) == {(e, r)}
  {
    var after: map<int, Space> := spaces[d := spaces[d][vp := q]];
    var f := after[e][r].frame;
    RedirectMappers(spaces, d, vp, q, f);
    if e != d || r != vp {
      assert after[e][r] == spaces[e][r];
      assert (e, r) in Mappers(spaces, f);
      assert f != q.frame;
      assert f != spaces[d][vp].frame by { assert (d, vp) in Mappers(spaces, spaces[d][vp].frame); }
    }
  }

  lemma WriteSole(a: Flat, d: int, vp: int, k: nat, v: Byte, nf: nat, b: Flat, e: int, r: int)
    requires Inv(a) && WellFormed(b.pm) && WriteStep(a, d, vp, k, v, nf, b)
    requires e in b.spaces && r in b.spaces[e] && b.spaces[e][r].write
    ensures Mappers(b.spaces, b.spaces[e][r].frame) == {(e, r)}
  {
    var p := a.spaces[d][vp];
    var q := Resolved(a, p, nf);
    SoleOwner(a, d, vp);
    assert Mappers(a.spaces, q.frame) <= {(d, vp)} by {
      if q.frame != p.frame {
        FreeUnmapped(a, nf);
        assert q.frame == nf;
      } else {
        assert a.pm.refs[p.frame] == 1;
        assert Mappers(a.spaces, p.frame) == {(d, vp)};
      }
    }
    if e != d || r != vp {
      assert PteOk(a, r, a.spaces[e][r]);
    }
    SoleAfterRedirect(a.spaces, d, vp, q, e, r);
  }

  lemma StepInv(a: Flat, op: Op, b: Flat)
    requires Inv(a) && Step(a, op, b)
    ensures Inv(b)
  {
    match op
    case Alloc(f, bytes) => AllocInv(a, op, b);
    case Create(d) => CreateInv(a, op, b);
    case Map(_, _, _, _, _, _) => MapInv(a, op, b);
    case Fork(d, c, taken) => ForkInv(a, d, c, taken, b);
    case Write(d, vp, k, v, nf) => WriteInv(a, d, vp, k, v, nf, b);
    case Free(d, released) => FreeInv(a, d, released, b);
  }

  lemma MappedNotFree(a: Flat, f: int)
    requires Inv(a) && Mappers(a.spaces, f) != {}
    ensures 0 <= f < PAGES_MAX && f !in a.pm.free
  {
    var m :| m in Mappers(a.spaces, f);
    assert PteOk(a, m.1, a.spaces[m.0][m.1]);
  }

  lemma AllocInv(a: Flat, op: Op, b: Flat)
    requires Inv(a) && op.Alloc? && Step(a, op, b)
    ensures Inv(b)
  {
    forall f | 0 <= f < PAGES_MAX && Mappers(b.spaces, f) != {} ensures b.pm.refs[f] == |Mappers(b.spaces, f)| {
      MappedNotFree(a, f);
    }
    forall e, r | e in b.spaces && r in b.spaces[e] ensures PteOk(b, r, b.spaces[e][r]) {
      assert PteOk(a, r, a.spaces[e][r]);
    }
  }

  lemma CreateInv(a: Flat, op: Op, b: Flat)
    requires Inv(a) && op.Create? && Step(a, op, b)
    ensures Inv(b)
  {
    forall f ensures Mappers(b.spaces, f) == Mappers(a.spaces, f) {
      assert forall e, vp :: e in b.spaces && vp in b.spaces[e] <==> e in a.spaces && vp in a.spaces[e];
    }
    forall f | 0 <= f < PAGES_MAX && Mappers(b.spaces, f) != {} ensures b.pm.refs[f] == |Mappers(b.spaces, f)| {
      MappedNotFree(a, f);
    }
    forall e, r | e in b.spaces && r in b.spaces[e] ensures PteOk(b, r, b.spaces[e][r]) {
      assert PteOk(a, r, a.spaces[e][r]);
    }
  }

  // ------------------------------------------------------------------
  // Every step is the eager machine's step

  lemma StepRefines(a: Flat, op: Op, b: Flat)
    requires Inv(a) && Step(a, op, b)
    ensures View(b) == EagerStep(View(a), op)
  {
    match op
    case Alloc(f, bytes) => ViewAlloc(a, op, b);
    case Create(d) => ViewCreate(a, op, b);
    case Map(_, _, _, _, _, _) => ViewMap(a, op, b);
    case Fork(d, c, taken) => ViewFork(a, d, c, taken, b);
    case Write(d, vp, k, v, nf) => ViewWrite(a, d, vp, k, v, nf, b);
    case Free(d, released) => ViewFree(a, d, released, b);
  }

  lemma KeptView(a: Flat, b: Flat)
    requires Shaped(a) && KeepsData(a, b)
    ensures forall d :: d in a.spaces ==> SpaceView(b.mem, a.spaces[d]) == SpaceView(a.mem, a.spaces[d])
  {
    forall d, vp | d in a.spaces && vp in a.spaces[d]
      ensures PageOf(b.mem, a.spaces[d][vp]) == PageOf(a.mem, a.spaces[d][vp])
    {
      assert PteOk(a, vp, a.spaces[d][vp]);
    }
  }

  lemma ViewCreate(a: Flat, op: Op, b: Flat)
    requires Inv(a) && op.Create? && Step(a, op, b)
    ensures View(b) == View(a)[op.d := map[]]
  {
    KeptView(a, b);
    forall e | e in b.spaces ensures View(b)[e] == View(a)[op.d := map[]][e] {
      if e != op.d {
        assert b.spaces[e] == a.spaces[e];
      } else {
        assert b.spaces[e] == map[];
      }
    }
  }

  /** A view, page by page. */
  lemma ViewIs(s: Flat, w: Eager)
    requires w.Keys == s.spaces.Keys && forall d :: d in w ==> w[d].Keys == s.spaces[d].Keys
    requires forall d, vp :: d in w && vp in w[d] ==> w[d][vp] == PageOf(s.mem, s.spaces[d][vp])
    ensures View(s) == w
  {
    forall d | d in w ensures SpaceView(s.mem, s.spaces[d]) == w[d] {
      assert forall vp :: vp in w[d] ==> w[d][vp] == PageOf(s.mem, s.spaces[d][vp]);
    }
  }

  lemma ViewHas(s: Flat, d: int)
    requires d in s.spaces
    ensures d in View(s) && View(s)[d].Keys == s.spaces[d].Keys
    ensures forall vp :: vp in s.spaces[d] ==> View(s)[d][vp] == PageOf(s.mem, s.spaces[d][vp])
  {
  }

  lemma ViewKeys(s: Flat)
    ensures View(s).Keys == s.spaces.Keys
  {
  }

  /** A page whose frame is kept is seen as before. */
  lemma KeptPage(a: Flat, b: Flat, d: int, vp: int)
    requires Shaped(a) && KeepsData(a, b) && d in a.spaces && vp in a.spaces[d]
    ensures PageOf(b.mem, a.spaces[d][vp]) == PageOf(a.mem, a.spaces[d][vp])
  {
    assert PteOk(a, vp, a.spaces[d][vp]);
  }

  lemma ViewMap(a: Flat, op: Op, b: Flat)
    requires Inv(a) && op.Map? && Step(a, op, b)
    ensures op.d in View(a) && View(b) == View(a)[op.d := View(a)[op.d][op.vp := Page(op.bytes, op.w)]]
  {
    ViewHas(a, op.d);
    ViewKeys(a);
    hide Counted, WritableIsSole, Taken, WellFormed, View, Shaped, Replaceable, KeepsData;
    var w: Eager := View(a)[op.d := View(a)[op.d][op.vp := Page(op.bytes, op.w)]];
    forall e | e in w ensures w[e].Keys == b.spaces[e].Keys { ViewHas(a, e); }
    forall e, r | e in w && r in w[e] ensures w[e][r] == PageOf(b.mem, b.spaces[e][r]) {
      ViewHas(a, e);
      if (e, r) != (op.d, op.vp) { KeptPage(a, b, e, r); }
    }
    ViewIs(b, w);
  }

  lemma ViewFree(a: Flat, d: int, released: set<int>, b: Flat)
    requires Inv(a) && WellFormed(b.pm) && FreeStep(a, d, released, b)
    ensures View(b) == View(a) - {d}
  {
    KeptView(a, b);
    forall e | e in b.spaces ensures View(b)[e] == View(a)[e] {
      assert b.spaces[e] == a.spaces[e];
    }
  }

  lemma ViewAlloc(a: Flat, op: Op, b: Flat)
    requires Inv(a) && op.Alloc? && Step(a, op, b)
    ensures View(b) == View(a)
  {
    forall d | d in a.spaces ensures SpaceView(b.mem, b.spaces[d]) == SpaceView(a.mem, a.spaces[d]) {
      forall vp | vp in a.spaces[d] ensures PageOf(b.mem, b.spaces[d][vp]) == PageOf(a.mem, a.spaces[d][vp]) {
        assert PteOk(a, vp, a.spaces[d][vp]);
      }
    }
  }

  lemma DownView(mem: seq<Frame>, sp: Space)
    ensures SpaceView(mem, DownAll(sp)) == SpaceView(mem, sp)
  {
    assert forall vp :: vp in sp ==> PageOf(mem, Down(sp[vp])) == PageOf(mem, sp[vp]);
  }

  lemma ViewFork(a: Flat, d: int, c: int, taken: set<int>, b: Flat)
    requires Inv(a) && WellFormed(b.pm) && ForkStep(a, d, c, taken, b)
    ensures View(b) == View(a)[c := View(a)[d]]
  {
    ViewForked(a, d, c, b);
  }

  /** What user code sees of forked spaces, whatever the counts are. */
  lemma ViewForked(a: Flat, d: int, c: int, b: Flat)
    requires Inv(a) && d in a.spaces && c !in a.spaces && b.spaces == Forked(a.spaces, d, c) && KeepsData(a, b)
    ensures View(b) == View(a)[c := View(a)[d]]
  {
    hide Counted, WritableIsSole, Using, RoomToShare, WellFormed, SpaceView, DownAll;
    KeptView(a, b);
    DownView(b.mem, a.spaces[d]);
    forall e | e in b.spaces ensures View(b)[e] == View(a)[c := View(a)[d]][e] {
    }
  }

  /** The store goes to a frame that no other entry maps. */
  lemma StoreTarget(a: Flat, d: int, vp: int, k: nat, v: Byte, nf: nat, b: Flat, e: int, r: int)
    requires Inv(a) && WellFormed(b.pm) && WriteStep(a, d, vp, k, v, nf, b)
    requires e in a.spaces && r in a.spaces[e] && (e, r) != (d, vp)
    ensures a.spaces[e][r].frame != Resolved(a, a.spaces[d][vp], nf).frame
    ensures b.spaces[e][r] == a.spaces[e][r]
  {
    assert PteOk(a, r, a.spaces[e][r]);
    MappersMember(a.spaces, a.spaces[e][r].frame, (e, r));
    SoleOwner(a, d, vp);
  }

  lemma ViewWrite(a: Flat, d: int, vp: int, k: nat, v: Byte, nf: nat, b: Flat)
    requires Inv(a) && WellFormed(b.pm) && WriteStep(a, d, vp, k, v, nf, b)
    ensures View(b) == EagerStep(View(a), Write(d, vp, k, v, nf))
  {
    ViewHas(a, d);
    ViewKeys(a);
    assert PteOk(a, vp, a.spaces[d][vp]);
    hide Mappers, Counted, WritableIsSole, Drop, Take, WellFormed, View, Shaped;
    var w: Eager := EagerStep(View(a), Write(d, vp, k, v, nf));
    forall e | e in w ensures w[e].Keys == b.spaces[e].Keys { ViewHas(a, e); }
    forall e, r | e in w && r in w[e] ensures w[e][r] == PageOf(b.mem, b.spaces[e][r]) {
      ViewHas(a, e);
      if (e, r) != (d, vp) { OtherPage(a, d, vp, k, v, nf, b, e, r); }
    }
    ViewIs(b, w);
  }

  lemma OtherPage(a: Flat, d: int, vp: int, k: nat, v: Byte, nf: nat, b: Flat, e: int, r: int)
    requires Inv(a) && WellFormed(b.pm) && WriteStep(a, d, vp, k, v, nf, b)
    requires e in a.spaces && r in a.spaces[e] && (e, r) != (d, vp)
    ensures b.spaces[e][r] == a.spaces[e][r] && PageOf(b.mem, b.spaces[e][r]) == PageOf(a.mem, a.spaces[e][r])
  {
    StoreTarget(a, d, vp, k, v, nf, b, e, r);
    assert PteOk(a, r, a.spaces[e][r]);
    hide Mappers, Counted, WritableIsSole, Drop, Take, WellFormed;
  }

  // ------------------------------------------------------------------
  // Stores of the kernel, which ignore write permission

  ghost function Poked(s: Flat, f: int, k: nat, v: Byte): Flat
    requires 0 <= f < |s.mem| && s.mem[f].Bytes? && k < |s.mem[f].b|
  {
    s.(mem := s.mem[f := Bytes(s.mem[f].b[k := v])])
  }

  /** What a machine that copies at fork shows after a store to page vp of d. */
  ghost function StoredIn(e: Eager, d: int, vp: int, k: nat, v: Byte): Eager
    requires d in e && vp in e[d] && k < |e[d][vp].bytes|
  {
    e[d := e[d][vp := Page(e[d][vp].bytes[k := v], e[d][vp].writable)]]
  }

  lemma ViewPage(s: Flat, d: int, vp: int)
    requires Inv(s) && d in s.spaces && vp in s.spaces[d]
    ensures PteOk(s, vp, s.spaces[d][vp]) && d in View(s) && vp in View(s)[d]
    ensures View(s)[d][vp] == PageOf(s.mem, s.spaces[d][vp]) && |View(s)[d][vp].bytes| == PAGE_SIZE
  {
  }

  /** A store through an entry changes the byte in every page of its frame. */
  lemma PokeShows(s: Flat, d: int, vp: int, k: nat, v: Byte, e: int, q: int)
    requires Inv(s) && d in s.spaces && vp in s.spaces[d] && k < PAGE_SIZE && e in s.spaces && q in s.spaces[e]
    ensures PteOk(s, vp, s.spaces[d][vp]) && e in View(s) && q in View(s)[e] && |View(s)[e][q].bytes| == PAGE_SIZE
    ensures var b := Poked(s, s.spaces[d][vp].frame, k, v);
            e in View(b) && q in View(b)[e] && View(b)[e][q].writable == View(s)[e][q].writable &&
            View(b)[e][q].bytes == if s.spaces[e][q].frame == s.spaces[d][vp].frame then View(s)[e][q].bytes[k := v]
                                   else View(s)[e][q].bytes
  {
    ViewPage(s, d, vp);
    ViewPage(s, e, q);
    hide Inv, Mappers;
  }

  lemma PokeInv(s: Flat, d: int, vp: int, k: nat, v: Byte)
    requires Inv(s) && d in s.spaces && vp in s.spaces[d] && k < PAGE_SIZE
    ensures PteOk(s, vp, s.spaces[d][vp]) && Inv(Poked(s, s.spaces[d][vp].frame, k, v))
  {
    ViewPage(s, d, vp);
    var b := Poked(s, s.spaces[d][vp].frame, k, v);
    hide Mappers;
    forall e, q | e in b.spaces && q in b.spaces[e] ensures PteOk(b, q, b.spaces[e][q]) {
      assert PteOk(s, q, s.spaces[e][q]);
    }
  }

  /** It is the store of the copying machine exactly when the entry is the frame's only
      one, or the byte is there already. */
  lemma PokeIsolated(s: Flat, d: int, vp: int, k: nat, v: Byte)
    requires Inv(s) && d in s.spaces && vp in s.spaces[d] && k < PAGE_SIZE
    ensures PteOk(s, vp, s.spaces[d][vp]) && d in View(s) && vp in View(s)[d] && k < |View(s)[d][vp].bytes|
    ensures var f := s.spaces[d][vp].frame;
            View(Poked(s, f, k, v)) == StoredIn(View(s), d, vp, k, v) <==>
            Mappers(s.spaces, f) == {(d, vp)} || View(s)[d][vp].bytes[k] == v
  {
    ViewPage(s, d, vp);
    var f := s.spaces[d][vp].frame;
    var b: Eager, w: Eager := View(Poked(s, f, k, v)), StoredIn(View(s), d, vp, k, v);
    MappersMember(s.spaces, f, (d, vp));
    if Mappers(s.spaces, f) == {(d, vp)} || View(s)[d][vp].bytes[k] == v {
      PokeAlone(s, d, vp, k, v);
    } else {
      var m: (int, int) :| m in Mappers(s.spaces, f) && m != (d, vp);
      MappersMember(s.spaces, f, m);
      PokeShows(s, d, vp, k, v, m.0, m.1);
      SameFrame(s, d, vp, m.0, m.1);
      hide View, Inv, Mappers, Poked;
      assert w[m.0][m.1] == View(s)[m.0][m.1] && b[m.0][m.1].bytes[k] == v;
    }
  }

  lemma SameFrame(s: Flat, d: int, vp: int, e: int, q: int)
    requires Inv(s) && d in s.spaces && vp in s.spaces[d] && e in s.spaces && q in s.spaces[e]
    requires s.spaces[e][q].frame == s.spaces[d][vp].frame
    ensures d in View(s) && vp in View(s)[d] && e in View(s) && q in View(s)[e]
    ensures View(s)[e][q].bytes == View(s)[d][vp].bytes
  {
    ViewPage(s, d, vp);
    ViewPage(s, e, q);
  }

  lemma PokeAlone(s: Flat, d: int, vp: int, k: nat, v: Byte)
    requires Inv(s) && d in s.spaces && vp in s.spaces[d] && k < PAGE_SIZE && d in View(s) && vp in View(s)[d]
    requires 0 <= s.spaces[d][vp].frame < |s.mem| && s.mem[s.spaces[d][vp].frame].Bytes?
    requires |s.mem[s.spaces[d][vp].frame].b| == PAGE_SIZE && |View(s)[d][vp].bytes| == PAGE_SIZE
    requires Mappers(s.spaces, s.spaces[d][vp].frame) == {(d, vp)} || View(s)[d][vp].bytes[k] == v
    ensures View(Poked(s, s.spaces[d][vp].frame, k, v)) == StoredIn(View(s), d, vp, k, v)
  {
    var f := s.spaces[d][vp].frame;
    var b := Poked(s, f, k, v);
    hide Inv, Mappers, View;
    var w: Eager := StoredIn(View(s), d, vp, k, v);
    ViewKeys(s);
    forall e | e in w ensures w[e].Keys == b.spaces[e].Keys { ViewHas(s, e); }
    forall e, q | e in w && q in w[e] ensures w[e][q] == PageOf(b.mem, b.spaces[e][q]) {
      ViewHas(s, e);
      PokePage(s, d, vp, k, v, e, q);
    }
    ViewIs(b, w);
  }

  lemma PokePage(s: Flat, d: int, vp: int, k: nat, v: Byte, e: int, q: int)
    requires Inv(s) && d in s.spaces && vp in s.spaces[d] && k < PAGE_SIZE && d in View(s) && vp in View(s)[d]
    requires 0 <= s.spaces[d][vp].frame < |s.mem| && s.mem[s.spaces[d][vp].frame].Bytes?
    requires |s.mem[s.spaces[d][vp].frame].b| == PAGE_SIZE && |View(s)[d][vp].bytes| == PAGE_SIZE
    requires Mappers(s.spaces, s.spaces[d][vp].frame) == {(d, vp)} || View(s)[d][vp].bytes[k] == v
    requires e in s.spaces && q in s.spaces[e]
    ensures var b, w := Poked(s, s.spaces[d][vp].frame, k, v), StoredIn(View(s), d, vp, k, v);
            e in w && q in w[e] && w[e][q] == PageOf(b.mem, b.spaces[e][q])
  {
    hide Inv, Mappers, View, PteOk;
    var f := s.spaces[d][vp].frame;
    ViewHas(s, d);
    ViewHas(s, e);
    ViewHas(Poked(s, f, k, v), e);
    PokeShows(s, d, vp, k, v, e, q);
    MappersMember(s.spaces, f, (e, q));
    if s.spaces[e][q].frame == f { SameFrame(s, d, vp, e, q); }
  }

  lemma SharedFrame(a: Flat, d: int, c: int, taken: set<int>, b: Flat, vp: int)
    requires WellFormed(a.pm) && WellFormed(b.pm) && ForkStep(a, d, c, taken, b) && vp in a.spaces[d]
    ensures d in b.spaces && vp in b.spaces[d]
    ensures c in b.spaces && vp in b.spaces[c] && b.spaces[c][vp].frame == b.spaces[d][vp].frame
  {
  }

  /** After a fork it shows in the other process as well. */
  lemma PokeAfterFork(a: Flat, d: int, c: int, taken: set<int>, b: Flat, vp: int, k: nat, v: Byte)
    requires Inv(a) && WellFormed(b.pm) && ForkStep(a, d, c, taken, b) && vp in a.spaces[d] && k < PAGE_SIZE
    ensures Inv(b) && d in b.spaces && vp in b.spaces[d] && PteOk(b, vp, b.spaces[d][vp])
    ensures var now := Poked(b, b.spaces[d][vp].frame, k, v);
            c in View(now) && vp in View(now)[c] && k < |View(now)[c][vp].bytes| && View(now)[c][vp].bytes[k] == v
  {
    SharedFrame(a, d, c, taken, b, vp);
    hide Inv, ForkStep, View, Forked;
    ForkInv(a, d, c, taken, b);
    PokeShows(b, d, vp, k, v, c, vp);
  }

  // ------------------------------------------------------------------
  // Whole runs

  ghost predicate IsRun(states: seq<Flat>, ops: seq<Op>) {
    && |states| == |ops| + 1
    && forall i :: 0 <= i < |ops| ==> Step(states[i], ops[i], states[i + 1])
  }

  ghost function EagerRun(e: Eager, ops: seq<Op>): Eager {
    if ops == [] then e else EagerStep(EagerRun(e, ops[..|ops| - 1]), ops[|ops| - 1])
  }

  /** Every run of the lazy machine keeps the counts exact and shows user code what
      the machine that copies at fork would show. */
  lemma {:induction false} RunRefinesEager(states: seq<Flat>, ops: seq<Op>)
    requires IsRun(states, ops) && Inv(states[0])
    ensures Inv(states[|ops|])
    ensures View(states[|ops|]) == EagerRun(View(states[0]), ops)
    decreases |ops|
  {
    if ops != [] {
      var n := |ops| - 1;
      assert IsRun(states[..|ops|], ops[..n]);
      RunRefinesEager(states[..|ops|], ops[..n]);
      assert Step(states[n], ops[n], states[n + 1]);
      StepInv(states[n], ops[n], states[n + 1]);
      StepRefines(states[n], ops[n], states[n + 1]);
    }
  }

  /** In every reachable state a store changes one byte of one page in one space. */
  lemma WriteIsolated(a: Flat, d: int, vp: int, k: nat, v: Byte, nf: nat, b: Flat, e: int, r: int)
    requires Inv(a) && WellFormed(b.pm) && WriteStep(a, d, vp, k, v, nf, b)
    requires e in a.spaces && r in a.spaces[e]
    ensures e in View(b) && r in View(b)[e]
    ensures (e, r) != (d, vp) ==> View(b)[e][r] == View(a)[e][r]
    ensures View(b)[d][vp].bytes == View(a)[d][vp].bytes[k := v]
  {
    ViewWrite(a, d, vp, k, v, nf, b);
    assert PteOk(a, vp, a.spaces[d][vp]);
  }

  /** A fork whose child is freed again, with no step in between, leaves every
      count, the free set and every view as they were, and the parent's next store
      to a page that nobody else maps needs no new frame. */
  lemma ForkThenFree(a: Flat, d: int, c: int, taken: set<int>, b: Flat, e: Flat)
    requires Inv(a) && WellFormed(b.pm) && WellFormed(e.pm)
    requires ForkStep(a, d, c, taken, b) && FreeStep(b, c, taken, e)
    ensures e.pm == a.pm
    ensures View(e) == View(a)
    ensures e.spaces == a.spaces[d := DownAll(a.spaces[d])]
    ensures forall vp :: vp in a.spaces[d] && Mappers(a.spaces, a.spaces[d][vp].frame) == {(d, vp)} ==>
              e.pm.refs[e.spaces[d][vp].frame] == 1
  {
    ForkFreeSpaces(a, d, c, taken, b, e);
    hide View, Mappers, Inv, ForkStep, FreeStep, DownAll;
    ForkFreePm(a, d, c, taken, b, e);
    ForkFreeView(a, d, c, taken, b, e);
    forall vp | vp in a.spaces[d] && Mappers(a.spaces, a.spaces[d][vp].frame) == {(d, vp)}
      ensures e.pm.refs[e.spaces[d][vp].frame] == 1
    {
      OwnedAgain(a, d, vp);
    }
  }

  lemma ForkFreeSpaces(a: Flat, d: int, c: int, taken: set<int>, b: Flat, e: Flat)
    requires WellFormed(a.pm) && WellFormed(b.pm) && WellFormed(e.pm)
    requires ForkStep(a, d, c, taken, b) && FreeStep(b, c, taken, e)
    ensures d in a.spaces && e.spaces == a.spaces[d := DownAll(a.spaces[d])]
  {
    hide WellFormed, DownAll, KeepsData, RoomToShare, Mappers, Using;
  }

  lemma ForkFreePm(a: Flat, d: int, c: int, taken: set<int>, b: Flat, e: Flat)
    requires Inv(a) && WellFormed(b.pm) && WellFormed(e.pm)
    requires ForkStep(a, d, c, taken, b) && FreeStep(b, c, taken, e)
    ensures e.pm == a.pm
  {
    InvWellFormed(a);
    hide Inv, ForkStep, FreeStep;
    forall f | 0 <= f < PAGES_MAX
      ensures e.pm.refs[f] == a.pm.refs[f]
      ensures f in e.pm.free <==> f in a.pm.free
    {
      ForkFreeFrame(a, d, c, taken, b, e, f);
    }
    assert e.pm.refs == a.pm.refs;
    assert e.pm.free == a.pm.free;
  }

  lemma InvWellFormed(a: Flat)
    requires Inv(a)
    ensures WellFormed(a.pm)
  {
  }

  lemma ForkFreeView(a: Flat, d: int, c: int, taken: set<int>, b: Flat, e: Flat)
    requires Inv(a) && WellFormed(b.pm) && WellFormed(e.pm)
    requires ForkStep(a, d, c, taken, b) && FreeStep(b, c, taken, e)
    ensures View(e) == View(a)
  {
    InvWellFormed(a);
    ViewHasFork(a, d, c, taken, b);
    hide View, Inv, ForkStep, FreeStep;
    ForkInv(a, d, c, taken, b);
    ViewFork(a, d, c, taken, b);
    ViewFree(b, c, taken, e);
    assert View(e) == View(a)[c := View(a)[d]] - {c};
  }

  lemma OwnedAgain(a: Flat, d: int, vp: int)
    requires Inv(a) && d in a.spaces && vp in a.spaces[d]
    requires Mappers(a.spaces, a.spaces[d][vp].frame) == {(d, vp)}
    ensures 0 <= a.spaces[d][vp].frame < PAGES_MAX && a.pm.refs[a.spaces[d][vp].frame] == 1
    ensures DownAll(a.spaces[d])[vp].frame == a.spaces[d][vp].frame
  {
    SoleOwner(a, d, vp);
    assert PteOk(a, vp, a.spaces[d][vp]);
  }

  lemma ViewHasFork(a: Flat, d: int, c: int, taken: set<int>, b: Flat)
    requires WellFormed(a.pm) && WellFormed(b.pm) && ForkStep(a, d, c, taken, b)
    ensures d in a.spaces && d in View(a) && c !in View(a)
  {
    ViewHas(a, d);
    InView(a, c);
  }

  lemma InView(a: Flat, c: int)
    ensures c in View(a) <==> c in a.spaces
  {
  }

  lemma ForkFreeFrame(a: Flat, d: int, c: int, taken: set<int>, b: Flat, e: Flat, f: int)
    requires Inv(a) && WellFormed(b.pm) && WellFormed(e.pm) && 0 <= f < PAGES_MAX
    requires ForkStep(a, d, c, taken, b) && FreeStep(b, c, taken, e)
    ensures e.pm.refs[f] == a.pm.refs[f]
    ensures f in e.pm.free <==> f in a.pm.free
  {
    UsingDown(a.spaces[d], f);
    UsingBound(a, d, f);
    assert b.spaces[c] == DownAll(a.spaces[d]);
  }
}
