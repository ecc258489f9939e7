/** kernel/heap.c: first-fit allocation over pages from the page allocator, with
    block headers linked through memory. */
module Heap {
  import opened Pmm
  import opened Sets
  import opened HeapModel

  /** Words of memory by address. */
  type Memory = map<nat, nat>

  function RoundUp(size: nat): nat { (size + 3) % TWO32 / 4 * 4 }

  ghost function Next(bs: seq<Block>, i: nat): nat {
    if i + 1 < |bs| then bs[i + 1].addr else 0
  }

  function Flag(free: bool): nat { if free then 1 else 0 }

  /** A header is three words: size, free, next. */
  ghost predicate Holds(mem: Memory, b: Block, next: nat) {
    && b.addr in mem && b.addr + 4 in mem && b.addr + 8 in mem
    && mem[b.addr] == b.size && mem[b.addr + 4] == Flag(b.free) && mem[b.addr + 8] == next
  }

  /** Memory holds the headers of `bs`, linked from `head` in this order. */
  ghost predicate Linked(mem: Memory, head: nat, bs: seq<Block>) {
    && head == (if bs == [] then 0 else bs[0].addr)
    && (forall i :: 0 <= i < |bs| ==> bs[i].addr != 0 && Holds(mem, bs[i], Next(bs, i)))
  }

  // ------------------------------------------------------------------
  // What a change of memory leaves alone

  ghost predicate Kept(m0: Memory, m1: Memory, a: nat) {
    (a in m0 <==> a in m1) && (a in m0 ==> m0[a] == m1[a])
  }

  ghost predicate Inside(m0: Memory, m1: Memory, lo: nat, hi: nat) {
    forall a: nat :: !(lo <= a < hi) ==> Kept(m0, m1, a)
  }

  ghost predicate PayloadKept(m0: Memory, m1: Memory, b: Block) {
    forall a: nat :: b.addr + HDR <= a < End(b) ==> Kept(m0, m1, a)
  }

  /** No word of a payload of `live`, and none outside the pages, has changed. */
  ghost predicate Spares(m0: Memory, m1: Memory, live: set<Block>, pages: set<nat>) {
    && (forall b :: b in live ==> PayloadKept(m0, m1, b))
    && (forall a: nat :: a / PAGE !in pages ==> Kept(m0, m1, a))
  }

  lemma SparesSelf(m: Memory, live: set<Block>, pages: set<nat>)
    ensures Spares(m, m, live, pages)
  {
  }

  lemma SparesTrans(m0: Memory, m1: Memory, m2: Memory, live: set<Block>, pages0: set<nat>, pages: set<nat>)
    requires Spares(m0, m1, live, pages0) && Spares(m1, m2, live, pages) && pages0 <= pages
    ensures Spares(m0, m2, live, pages)
  {
    forall b | b in live ensures PayloadKept(m0, m2, b) {
      forall a: nat | b.addr + HDR <= a < End(b) ensures Kept(m0, m2, a) {
        assert Kept(m0, m1, a) && Kept(m1, m2, a);
      }
    }
    forall a: nat | a / PAGE !in pages ensures Kept(m0, m2, a) {
      assert Kept(m0, m1, a) && Kept(m1, m2, a);
    }
  }

  lemma SparesFewer(m0: Memory, m1: Memory, live: set<Block>, pages: set<nat>, some: set<Block>, more: set<nat>)
    requires Spares(m0, m1, live, pages) && some <= live && pages <= more
    ensures Spares(m0, m1, some, more)
  {
  }

  /** A change inside block k leaves the header and the payload of block i alone. */
  lemma BlockKept(m0: Memory, m1: Memory, bs: seq<Block>, k: nat, i: nat, next: nat)
    requires Disjoint(bs) && k < |bs| && i < |bs| && i != k && Inside(m0, m1, bs[k].addr, End(bs[k]))
    ensures PayloadKept(m0, m1, bs[i]) && (Holds(m0, bs[i], next) ==> Holds(m1, bs[i], next))
  {
    assert Apart(bs[i], bs[k]) by {
      if i < k { assert Apart(bs[i], bs[k]); } else { assert Apart(bs[k], bs[i]); }
    }
    var a := bs[i].addr;
    assert Kept(m0, m1, a) && Kept(m0, m1, a + 4) && Kept(m0, m1, a + 8);
  }

  lemma InBlock(m0: Memory, m1: Memory, b: Block)
    requires Inside(m0, m1, b.addr, b.addr + HDR)
    ensures Inside(m0, m1, b.addr, End(b)) && PayloadKept(m0, m1, b)
  {
  }

  lemma InPages(m0: Memory, m1: Memory, bs: seq<Block>, pages: set<nat>, k: nat)
    requires Tiled(bs, pages) && k < |bs| && Inside(m0, m1, bs[k].addr, End(bs[k]))
    ensures forall a: nat :: a / PAGE !in pages ==> Kept(m0, m1, a)
  {
    forall a: nat | a / PAGE !in pages ensures Kept(m0, m1, a) {
      assert Within(bs[k], a) ==> Covered(bs, a);
    }
  }

  /** A change inside a free block, or inside a header, spares all live payloads. */
  lemma BlockSpares(m0: Memory, m1: Memory, bs: seq<Block>, pages: set<nat>, k: nat)
    requires Tiled(bs, pages) && k < |bs|
    requires Inside(m0, m1, bs[k].addr, if bs[k].free then End(bs[k]) else bs[k].addr + HDR)
    ensures Spares(m0, m1, Live(bs), pages)
  {
    if !bs[k].free { InBlock(m0, m1, bs[k]); }
    InPages(m0, m1, bs, pages, k);
    forall b | b in Live(bs) ensures PayloadKept(m0, m1, b) {
      var i :| 0 <= i < |bs| && !bs[i].free && bs[i] == b;
      if i != k { BlockKept(m0, m1, bs, k, i, 0); }
    }
  }

  /** A fresh page meets no block. */
  lemma PageSpares(m0: Memory, m1: Memory, bs: seq<Block>, pages: set<nat>, p: nat)
    requires Tiled(bs, pages) && p !in pages && Inside(m0, m1, p * PAGE, p * PAGE + HDR)
    ensures Spares(m0, m1, Live(bs), pages + {p})
  {
    forall b | b in Live(bs) ensures PayloadKept(m0, m1, b) {
      var i :| 0 <= i < |bs| && !bs[i].free && bs[i] == b;
      AppendApart(bs, pages, p, i);
    }
    forall a: nat | a / PAGE !in pages + {p} ensures Kept(m0, m1, a) {
      PageBytes(p, a);
    }
  }

  // ------------------------------------------------------------------
  // Links

  /** Every block lies in the pages, so its bytes are below 256 MB. */
  lemma BlockBounds(bs: seq<Block>, pages: set<nat>, i: nat)
    requires Tiled(bs, pages) && i < |bs| && (forall p :: p in pages ==> 0 < p < PAGES_MAX)
    ensures PAGE <= bs[i].addr && End(bs[i]) <= PAGES_MAX * PAGE
  {
    assert Within(bs[i], bs[i].addr);
    assert Covered(bs, bs[i].addr);
    assert Within(bs[i], End(bs[i]) - 1);
    assert Covered(bs, End(bs[i]) - 1);
  }

  lemma LinkAt(mem: Memory, head: nat, bs: seq<Block>, k: nat)
    requires Linked(mem, head, bs) && k < |bs|
    ensures Holds(mem, bs[k], Next(bs, k)) && bs[k].addr != 0
  {
  }

  lemma LinkAll(mem: Memory, head: nat, bs: seq<Block>)
    requires bs != [] && head == bs[0].addr
    requires forall i :: 0 <= i < |bs| ==> bs[i].addr != 0 && Holds(mem, bs[i], Next(bs, i))
    ensures Linked(mem, head, bs)
  {
  }

  lemma HeadOf(mem: Memory, head: nat, bs: seq<Block>)
    requires Linked(mem, head, bs)
    ensures head == 0 <==> bs == []
    ensures bs != [] ==> head == bs[0].addr
  {
  }

  lemma ResizeAt(bs: seq<Block>, k: nat, b: Block, i: nat)
    requires k < |bs| && i < |bs| && b.addr == bs[k].addr
    ensures var r := bs[k := b];
            r[0].addr == bs[0].addr && r[i] == (if i == k then b else bs[i]) && Next(r, i) == Next(bs, i)
  {
  }

  lemma ResizeLinked(m0: Memory, head: nat, bs: seq<Block>, k: nat, b: Block, m1: Memory)
    requires Linked(m0, head, bs) && Disjoint(bs) && k < |bs| && b.addr == bs[k].addr
    requires Inside(m0, m1, bs[k].addr, bs[k].addr + HDR) && Holds(m1, b, Next(bs, k))
    ensures Linked(m1, head, bs[k := b])
  {
    InBlock(m0, m1, bs[k]);
    HeadOf(m0, head, bs);
    hide Linked, Disjoint, Next, Inside, Holds;
    var r := bs[k := b];
    forall i | 0 <= i < |r| ensures r[i].addr != 0 && Holds(m1, r[i], Next(r, i)) {
      LinkAt(m0, head, bs, i);
      ResizeAt(bs, k, b, i);
      if i != k { BlockKept(m0, m1, bs, k, i, Next(bs, i)); }
    }
    ResizeAt(bs, k, b, 0);
    LinkAll(m1, head, r);
  }

  lemma AppendAt(bs: seq<Block>, b: Block, i: nat)
    requires i <= |bs|
    ensures var r := bs + [b];
            r[0].addr == (if bs == [] then b else bs[0]).addr && r[i] == (if i == |bs| then b else bs[i])
            && Next(r, i) == if i == |bs| then 0 else if i == |bs| - 1 then b.addr else Next(bs, i)
  {
  }

  /** The new header is written first, then the link to it. */
  lemma AppendLinked(m0: Memory, head: nat, bs: seq<Block>, b: Block, m1: Memory, m2: Memory)
    requires Linked(m0, head, bs) && Disjoint(bs) && b.addr != 0 && forall i :: 0 <= i < |bs| ==> Apart(bs[i], b)
    requires Inside(m0, m1, b.addr, b.addr + HDR) && Holds(m1, b, 0)
    requires if bs == [] then m2 == m1
             else var l := bs[|bs| - 1]; Inside(m1, m2, l.addr, l.addr + HDR) && Holds(m2, l, b.addr)
    ensures Linked(m2, if bs == [] then b.addr else head, bs + [b])
  {
    HeadOf(m0, head, bs);
    hide Linked, Disjoint, Next;
    var r := bs + [b];
    forall i | 0 <= i < |r| ensures r[i].addr != 0 && Holds(m2, r[i], Next(r, i)) {
      AppendAt(bs, b, i);
      if i < |bs| { LinkAt(m0, head, bs, i); }
      if i < |bs| - 1 { AppendKeeps(m0, bs, b, m1, m2, i, Next(bs, i)); }
      if i == |bs| && bs != [] { HeaderKept(m1, m2, bs[|bs| - 1], b, 0); }
    }
    AppendAt(bs, b, 0);
    LinkAll(m2, if bs == [] then b.addr else head, r);
  }

  lemma HeaderKept(m0: Memory, m1: Memory, a: Block, b: Block, next: nat)
    requires Apart(a, b) && Inside(m0, m1, a.addr, a.addr + HDR) && Holds(m0, b, next)
    ensures Holds(m1, b, next)
  {
    assert Kept(m0, m1, b.addr) && Kept(m0, m1, b.addr + 4) && Kept(m0, m1, b.addr + 8);
  }

  lemma AppendKeeps(m0: Memory, bs: seq<Block>, b: Block, m1: Memory, m2: Memory, i: nat, next: nat)
    requires Disjoint(bs) && i < |bs| - 1 && Apart(bs[i], b) && Holds(m0, bs[i], next)
    requires Inside(m0, m1, b.addr, b.addr + HDR) && Inside(m1, m2, bs[|bs| - 1].addr, bs[|bs| - 1].addr + HDR)
    ensures Holds(m2, bs[i], next)
  {
    HeaderKept(m0, m1, b, bs[i], next);
    assert Apart(bs[i], bs[|bs| - 1]);
    HeaderKept(m1, m2, bs[|bs| - 1], bs[i], next);
  }

  lemma SplitAt(bs: seq<Block>, k: nat, size: nat, i: nat)
    requires k < |bs| && bs[k].size >= size + MIN_SPLIT && i <= |bs|
    ensures var u, s := Use(bs, k, size), bs[k].addr + HDR + size;
            |u| == |bs| + 1 && u[0].addr == bs[0].addr
            && if i < k then u[i] == bs[i] && Next(u, i) == Next(bs, i)
               else if i == k then u[i] == Block(bs[k].addr, size, false) && Next(u, i) == s
               else if i == k + 1 then u[i] == Block(s, bs[k].size - size - HDR, true) && Next(u, i) == Next(bs, k)
               else u[i] == bs[i - 1] && Next(u, i) == Next(bs, i - 1)
  {
  }

  lemma SplitLinked(m0: Memory, head: nat, bs: seq<Block>, k: nat, size: nat, m1: Memory)
    requires Linked(m0, head, bs) && Disjoint(bs) && k < |bs| && bs[k].size >= size + MIN_SPLIT
    requires Inside(m0, m1, bs[k].addr, End(bs[k]))
    requires var s := bs[k].addr + HDR + size;
             Holds(m1, Block(bs[k].addr, size, false), s) &&
               Holds(m1, Block(s, bs[k].size - size - HDR, true), Next(bs, k))
    ensures Linked(m1, head, Use(bs, k, size))
  {
    HeadOf(m0, head, bs);
    LinkAt(m0, head, bs, k);
    hide Use, Next, Disjoint, Linked, Holds, Inside;
    var u := Use(bs, k, size);
    SplitAt(bs, k, size, 0);
    forall i | 0 <= i < |u| ensures u[i].addr != 0 && Holds(m1, u[i], Next(u, i)) {
      SplitAt(bs, k, size, i);
      if i < k {
        LinkAt(m0, head, bs, i);
        BlockKept(m0, m1, bs, k, i, Next(bs, i));
      } else if i > k + 1 {
        LinkAt(m0, head, bs, i - 1);
        BlockKept(m0, m1, bs, k, i - 1, Next(bs, i - 1));
      }
    }
    LinkAll(m1, head, u);
  }

  lemma MergeLinked(m0: Memory, head: nat, bs: seq<Block>, k: nat, m1: Memory)
    requires Linked(m0, head, bs) && Disjoint(bs) && k + 1 < |bs|
    requires Inside(m0, m1, bs[k].addr, bs[k].addr + HDR) && Holds(m1, Merged(bs[k], bs[k + 1]), Next(bs, k + 1))
    ensures Linked(m1, head, Splice(bs, k, 2, [Merged(bs[k], bs[k + 1])]))
  {
    InBlock(m0, m1, bs[k]);
    HeadOf(m0, head, bs);
    LinkAt(m0, head, bs, k);
    hide Next, Disjoint, Linked, Splice, Holds, Inside;
    var m := Splice(bs, k, 2, [Merged(bs[k], bs[k + 1])]);
    MergeAt(bs, k, 0);
    forall i | 0 <= i < |m| ensures m[i].addr != 0 && Holds(m1, m[i], Next(m, i)) {
      MergeAt(bs, k, i);
      if i < k {
        LinkAt(m0, head, bs, i);
        BlockKept(m0, m1, bs, k, i, Next(bs, i));
      } else if i > k {
        LinkAt(m0, head, bs, i + 1);
        BlockKept(m0, m1, bs, k, i + 1, Next(bs, i + 1));
      }
    }
    LinkAll(m1, head, m);
  }

  lemma MergeAt(bs: seq<Block>, k: nat, i: nat)
    requires k + 1 < |bs| && i + 1 < |bs|
    ensures var m := Splice(bs, k, 2, [Merged(bs[k], bs[k + 1])]);
            |m| == |bs| - 1 && m[0].addr == bs[0].addr
            && if i < k then m[i] == bs[i] && Next(m, i) == Next(bs, i)
               else if i == k then m[i] == Merged(bs[k], bs[k + 1]) && Next(m, i) == Next(bs, k + 1)
               else m[i] == bs[i + 1] && Next(m, i) == Next(bs, i + 1)
  {
  }

  lemma TiledDisjoint(bs: seq<Block>, pages: set<nat>)
    requires Tiled(bs, pages)
    ensures Disjoint(bs)
  {
  }

  lemma TakeFree(s: Frames, p: nat)
    requires WellFormed(s) && p < PAGES_MAX
    ensures Take(s, p).free == s.free - {p}
  {
  }

  lemma GrownIs(bs: seq<Block>, addr: nat)
    ensures bs == [] ==> Grown(bs, addr) == bs + [Block(addr, WHOLE, true)]
    ensures bs != [] ==> var k := |bs| - 1;
              Next(bs, k) == 0 &&
              Grown(bs, addr) == if bs[k].free && End(bs[k]) == addr
                then bs[k := Block(bs[k].addr, bs[k].size + PAGE, true)]
                                 else bs + [Block(addr, WHOLE, true)]
  {
  }

  lemma GrownSound(bs: seq<Block>, pages: set<nat>, p: nat)
    requires Tiled(bs, pages) && Separated(bs) && p !in pages && Total(bs) == PAGE * |pages|
    ensures Tiled(Grown(bs, p * PAGE), pages + {p}) && Separated(Grown(bs, p * PAGE))
    ensures Total(Grown(bs, p * PAGE)) == PAGE * |pages + {p}|
    ensures Disjoint(bs) && forall i :: 0 <= i < |bs| ==> Apart(bs[i], Block(p * PAGE, WHOLE, true))
  {
    GrownTiled(bs, pages, p);
    GrownSeparated(bs, p * PAGE);
    GrownTotal(bs, p * PAGE);
    forall i | 0 <= i < |bs| ensures Apart(bs[i], Block(p * PAGE, WHOLE, true)) { AppendApart(bs, pages, p, i); }
    CardAdd(pages, p);
  }

  /** One more page moves from the free set into the heap. */
  lemma MovePage(pages0: set<nat>, free0: set<nat>, pages: set<nat>, free: set<nat>, p: nat)
    requires pages0 <= pages && pages - pages0 <= free0 && free == free0 - (pages - pages0) && p in free && p !in pages
    ensures pages0 <= pages + {p} && pages + {p} - pages0 <= free0 && free - {p} == free0 - (pages + {p} - pages0)
    ensures |pages + {p} - pages0| == |pages - pages0| + 1 && |free - {p}| < |free| && pages + {p} != pages0
  {
    assert pages + {p} - pages0 == (pages - pages0) + {p};
    CardAdd(pages - pages0, p);
    CardRemove(free, p);
    assert p in pages + {p};
  }

  lemma LiveIndex(bs: seq<Block>, ptr: nat) returns (k: nat)
    requires exists b :: b in Live(bs) && b.addr + HDR == ptr
    ensures k < |bs| && !bs[k].free && bs[k].addr + HDR == ptr
  {
    k :| 0 <= k < |bs| && !bs[k].free && bs[k].addr + HDR == ptr;
  }

  lemma LiveAt(bs: seq<Block>, ptr: nat, offset: nat) returns (k: nat)
    requires exists b :: b in Live(bs) && b.addr + HDR == ptr && offset < b.size
    ensures k < |bs| && bs[k].addr + HDR == ptr && offset < bs[k].size
  {
    k :| 0 <= k < |bs| && bs[k].addr + HDR == ptr && offset < bs[k].size;
  }

  lemma FreedSound(bs: seq<Block>, pages: set<nat>, k: nat)
    requires Tiled(bs, pages) && k < |bs| && !bs[k].free
    ensures Freed(bs, k) == bs[k := Block(bs[k].addr, bs[k].size, true)]
    ensures Tiled(Freed(bs, k), pages) && Total(Freed(bs, k)) == Total(bs) && Live(Freed(bs, k)) == Live(bs) - {bs[k]}
    ensures Disjoint(bs)
  {
    FreedTiled(bs, pages, k);
    FreedTotal(bs, k);
    FreedLive(bs, k);
  }

  lemma PartsFit(bs: seq<Block>, k: nat, size: nat)
    requires k < |bs| && bs[k].size < size + MIN_SPLIT
    ensures bs[k := Block(bs[k].addr, bs[k].size, false)] == Use(bs, k, size)
  {
  }

  lemma UseAligned(bs: seq<Block>, k: nat)
    requires Aligned(bs) && k < |bs|
    ensures (bs[k].addr + HDR) % 4 == 0
  {
  }

  lemma UseSound(bs: seq<Block>, pages: set<nat>, k: nat, size: nat)
    requires Tiled(bs, pages) && Separated(bs) && k < |bs| && Fitting(bs[k], size) && size % 4 == 0
    ensures Tiled(Use(bs, k, size), pages) && Separated(Use(bs, k, size)) && Total(Use(bs, k, size)) == Total(bs)
    ensures Disjoint(bs) && (bs[k].addr + HDR) % 4 == 0
    ensures bs[k].size < size + MIN_SPLIT ==> bs[k := Block(bs[k].addr, bs[k].size, false)] == Use(bs, k, size)
  {
    UseAligned(bs, k);
    TiledDisjoint(bs, pages);
    hide Tiled, Separated, Total, Use, Disjoint, Aligned;
    UseTiled(bs, pages, k, size);
    UseSeparated(bs, k, size);
    UseTotal(bs, k, size);
    if bs[k].size < size + MIN_SPLIT { PartsFit(bs, k, size); }
  }

  /** Three stores make a header. */
  lemma Written(m0: Memory, b: Block, next: nat)
    requires b.free
    ensures var m1 := m0[b.addr := b.size][b.addr + 4 := 1][b.addr + 8 := next];
            Inside(m0, m1, b.addr, b.addr + HDR) && Holds(m1, b, next)
  {
  }

  /** Stores to fields of the header at `a` stay inside it. */
  lemma Rewritten(m0: Memory, a: nat, x: nat, v: nat)
    requires a <= x < a + HDR
    ensures Inside(m0, m0[x := v], a, a + HDR)
  {
  }

  lemma RewrittenTwice(m0: Memory, a: nat, x: nat, v: nat, y: nat, w: nat)
    requires a <= x < a + HDR && a <= y < a + HDR
    ensures Inside(m0, m0[x := v][y := w], a, a + HDR)
  {
  }

  lemma SplitWritten(m0: Memory, b: Block, size: nat, next: nat)
    requires Holds(m0, b, next) && b.size >= size + MIN_SPLIT
    ensures var s := b.addr + HDR + size;
            var m1 := m0[s := b.size - size - HDR][s + 4 := 1][s + 8 := next][b.addr + 8 := s][b.addr := size];
            Inside(m0, m1, b.addr, End(b)) && Holds(m1, Block(b.addr, size, b.free), s)
            && Holds(m1, Block(s, b.size - size - HDR, true), next)
  {
  }

  lemma SplitUsed(m0: Memory, m1: Memory, b: Block, size: nat, next: nat)
    requires b.size >= size + MIN_SPLIT && Inside(m0, m1, b.addr, End(b))
    requires Holds(m1, Block(b.addr, size, b.free), b.addr + HDR + size)
    requires Holds(m1, Block(b.addr + HDR + size, b.size - size - HDR, true), next)
    ensures var m2 := m1[b.addr + 4 := 0];
            Inside(m0, m2, b.addr, End(b)) && Holds(m2, Block(b.addr, size, false), b.addr + HDR + size)
            && Holds(m2, Block(b.addr + HDR + size, b.size - size - HDR, true), next)
  {
    var m2 := m1[b.addr + 4 := 0];
    forall a: nat | !(b.addr <= a < End(b)) ensures Kept(m0, m2, a) {
      assert Kept(m0, m1, a);
    }
  }

  /** A change inside the payload of one block leaves every header alone. */
  lemma PayloadLinked(m0: Memory, head: nat, bs: seq<Block>, k: nat, m1: Memory)
    requires Linked(m0, head, bs) && Disjoint(bs) && k < |bs| && Inside(m0, m1, bs[k].addr + HDR, End(bs[k]))
    ensures Linked(m1, head, bs)
  {
    forall i | 0 <= i < |bs| ensures Holds(m1, bs[i], Next(bs, i)) {
      HeaderMissesPayload(bs, i, k);
      var a := bs[i].addr;
      assert Kept(m0, m1, a) && Kept(m0, m1, a + 4) && Kept(m0, m1, a + 8);
    }
  }

  lemma MergeLive(bs: seq<Block>, k: nat)
    requires k + 1 < |bs| && bs[k].free && bs[k + 1].free
    ensures Live(Splice(bs, k, 2, [Merged(bs[k], bs[k + 1])])) == Live(bs)
  {
    LiveSplice(bs, k, 2, [Merged(bs[k], bs[k + 1])]);
    assert Live(bs[k..k + 2]) == {} && Live([Merged(bs[k], bs[k + 1])]) == {};
  }

  class Heap {
    const pm: Allocator
    var head: nat
    var mem: Memory
    ghost var blocks: seq<Block>
    ghost var pages: set<nat>

    /** Everything but the separation of free blocks. */
    ghost predicate Sound()
      reads this, pm, pm.bitmap, pm.pageRefs
    {
      && pm.Valid() && 0 !in pm.Free() && pages !! pm.Free()
      && (forall p :: p in pages ==> 0 < p < PAGES_MAX)
      && Linked(mem, head, blocks)
      && Tiled(blocks, pages)
      && Total(blocks) == PAGE * |pages|
    }

    ghost predicate Valid()
      reads this, pm, pm.bitmap, pm.pageRefs
    {
      Sound() && Separated(blocks)
    }

    /** Before heap_init, whatever memory holds. */
    constructor (pm: Allocator, mem: Memory)
      requires pm.Valid() && 0 !in pm.Free()
      ensures Valid() && this.pm == pm && this.mem == mem && pages == {} && blocks == []
    {
      this.pm := pm;
      this.mem := mem;
      head, blocks, pages := 0, [], {};
    }

    /** Walk to the last header. */
    method Tail() returns (cur: nat, ghost k: nat)
      requires Linked(mem, head, blocks) && head != 0
      ensures blocks != [] && k == |blocks| - 1 && cur == blocks[k].addr && Holds(mem, blocks[k], 0)
    {
      cur, k := head, 0;
      while mem[cur + 8] != 0
        invariant 0 <= k < |blocks| && cur == blocks[k].addr && Holds(mem, blocks[k], Next(blocks, k))
        decreases |blocks| - k
      {
        cur := mem[cur + 8];
        k := k + 1;
      }
    }

    /** Link page p into the list: a longer last block, or a new one. */
    method LinkPage(addr: nat, ghost p: nat)
      requires Linked(mem, head, blocks) && Tiled(blocks, pages) && p !in pages && addr == p * PAGE != 0
      modifies this`head, this`mem, this`blocks
      ensures Linked(mem, head, blocks) && blocks == Grown(old(blocks), addr)
      ensures Spares(old(mem), mem, Live(old(blocks)), pages + {p})
    {
      hide Linked, Tiled, Grown, Next, Live, Spares, Kept;
      ghost var b := Block(addr, WHOLE, true);
      ghost var m0 := mem;
      TiledDisjoint(blocks, pages);
      forall i | 0 <= i < |blocks| ensures Apart(blocks[i], b) { AppendApart(blocks, pages, p, i); }
      GrownIs(blocks, addr);
      HeadOf(mem, head, blocks);
      if head == 0 {
        mem := mem[addr := PAGE - HDR];
        mem := mem[addr + 4 := 1];
        mem := mem[addr + 8 := 0];
        head := addr;
        Written(m0, b, 0);
        PageSpares(m0, mem, blocks, pages, p);
        AppendLinked(m0, 0, blocks, b, mem, mem);
      } else {
        var cur;
        ghost var k;
        cur, k := Tail();
        if mem[cur + 4] != 0 && cur + HDR + mem[cur] == addr {
          mem := mem[cur := mem[cur] + PAGE];
          Rewritten(m0, cur, cur, m0[cur] + PAGE);
          ResizeLinked(m0, head, blocks, k, Block(cur, blocks[k].size + PAGE, true), mem);
          BlockSpares(m0, mem, blocks, pages, k);
          SparesFewer(m0, mem, Live(blocks), pages, Live(blocks), pages + {p});
        } else {
          mem := mem[addr := PAGE - HDR];
          mem := mem[addr + 4 := 1];
          mem := mem[addr + 8 := 0];
          Written(m0, b, 0);
          ghost var m1 := mem;
          HeaderKept(m0, m1, b, blocks[k], 0);
          mem := mem[cur + 8 := addr];
          Rewritten(m1, cur, cur + 8, addr);
          AppendLinked(m0, head, blocks, b, m1, mem);
          PageSpares(m0, m1, blocks, pages, p);
          BlockSpares(m1, mem, blocks, pages, k);
          SparesFewer(m1, mem, Live(blocks), pages, Live(blocks), pages + {p});
          SparesTrans(m0, m1, mem, Live(blocks), pages + {p}, pages + {p});
        }
      }
      blocks := Grown(blocks, addr);
    }

    /** heap_grow. */
    method Grow() returns (ok: bool, ghost p: nat)
      requires Valid()
      modifies this, pm`freeCount, pm.bitmap, pm.pageRefs
      ensures Valid()
      ensures !ok ==>
              old(pm.Free()) == {} && blocks == old(blocks) && pages == old(pages) && pm.State() == old(pm.State())
      ensures !ok ==> mem == old(mem)
      ensures ok ==> p in old(pm.Free()) && pages == old(pages) + {p} && pm.Free() == old(pm.Free()) - {p}
      ensures ok ==> blocks == Grown(old(blocks), p * PAGE) && Spares(old(mem), mem, Live(old(blocks)), pages)
    {
      hide Tiled, Total, Separated, Linked, Disjoint, Grown, Take, Live, Spares;
      var addr := pm.Alloc();
      p := addr / PAGE_SIZE;
      if addr == 0 { return false, p; }
      TakeFree(old(pm.State()), p);
      GrownSound(blocks, pages, p);
      LinkPage(addr, p);
      pages := pages + {p};
      ok := true;
    }

    /** One walk of kfree over the list, merging as it goes. */
    method Coalesce() returns (merged: bool)
      requires Sound()
      modifies this`mem, this`blocks
      ensures Sound() && blocks == Pass(old(blocks))
      ensures |blocks| <= |old(blocks)| && (merged <==> |blocks| < |old(blocks)|)
      ensures Live(blocks) == Live(old(blocks)) && Spares(old(mem), mem, Live(blocks), pages)
    {
      hide Tiled, Total, Pass, Linked, Disjoint, Splice, Live, Spares, Kept, Inside;
      HeadOf(mem, head, blocks);
      if head != 0 { LinkAt(mem, head, blocks, 0); }
      merged := false;
      var cur := head;
      ghost var k := 0;
      ghost var bs0, live, mem0 := blocks, Live(blocks), mem;
      SparesSelf(mem, live, pages);
      assert blocks[..0] + Pass(blocks[0..]) == Pass(bs0) by { assert blocks[0..] == bs0; }
      while cur != 0 && mem[cur + 8] != 0
        invariant Linked(mem, head, blocks) && Tiled(blocks, pages) && Total(blocks) == PAGE * |pages|
        invariant blocks != [] ==> 0 <= k < |blocks| && cur == blocks[k].addr && Holds(mem, blocks[k], Next(blocks, k))
        invariant blocks == [] ==> cur == 0 && k == 0
        invariant blocks[..k] + Pass(blocks[k..]) == Pass(bs0)
        invariant |blocks| <= |bs0| && (merged <==> |blocks| < |bs0|)
        invariant Live(blocks) == live && Spares(mem0, mem, live, pages)
        decreases |blocks| - k
      {
        var nxt := mem[cur + 8];
        LinkAt(mem, head, blocks, k + 1);
        if mem[cur + 4] != 0 && mem[nxt + 4] != 0 && cur + HDR + mem[cur] == nxt {
          TiledDisjoint(blocks, pages);
          ghost var m0, bs := mem, blocks;
          mem := mem[cur := mem[cur] + HDR + mem[nxt]];
          mem := mem[cur + 8 := mem[nxt + 8]];
          RewrittenTwice(m0, cur, cur, m0[cur] + HDR + m0[nxt], cur + 8, m0[nxt + 8]);
          InBlock(m0, mem, bs[k]);
          BlockSpares(m0, mem, bs, pages, k);
          SparesTrans(mem0, m0, mem, live, pages, pages);
          MergeLinked(m0, head, bs, k, mem);
          MergeTiled(bs, pages, k);
          MergeTotal(bs, k);
          MergeLive(bs, k);
          PassMerge(bs, k);
          MergeAt(bs, k, k);
          blocks := Splice(bs, k, 2, [Merged(bs[k], bs[k + 1])]);
          merged := true;
          LinkAt(mem, head, blocks, k);
        } else {
          PassSkip(blocks, k);
          cur := nxt;
          k := k + 1;
        }
      }
      if k < |blocks| { LinkAt(mem, head, blocks, k); }
      if k + 1 < |blocks| { LinkAt(mem, head, blocks, k + 1); }
      PassShort(blocks[k..]);
      assert blocks[..k] + blocks[k..] == blocks;
    }

    /** kfree of a pointer that kmalloc returned, or of NULL. */
    method Free(ptr: nat) returns (ghost k: int)
      requires Valid()
      requires ptr != 0 ==> exists b :: b in Live(blocks) && b.addr + HDR == ptr
      modifies this`mem, this`blocks
      ensures Valid() && pages == old(pages)
      ensures ptr == 0 ==> blocks == old(blocks) && mem == old(mem)
      ensures ptr != 0 ==> var bs := old(blocks);
                0 <= k < |bs| && bs[k].addr + HDR == ptr && !bs[k].free &&
                blocks == FreeMerge(bs, k) && Live(blocks) == Live(bs) - {bs[k]}
      ensures Spares(old(mem), mem, Live(blocks), pages)
    {
      hide Tiled, Total, Separated, Pass, FreeMerge, Linked, Live, Freed, Disjoint, Spares, Kept, Inside;
      k := -1;
      if ptr == 0 {
        SparesSelf(mem, Live(blocks), pages);
        return;
      }
      ghost var bs, mem0 := blocks, mem;
      k := LiveIndex(bs, ptr);
      LinkAt(mem, head, bs, k);
      var blk := ptr - HDR;
      FreedSound(bs, pages, k);
      mem := mem[blk + 4 := 1];
      Rewritten(mem0, blk, blk + 4, 1);
      ResizeLinked(mem0, head, bs, k, Block(blk, bs[k].size, true), mem);
      BlockSpares(mem0, mem, bs, pages, k);
      blocks := Freed(bs, k);
      SparesFewer(mem0, mem, Live(bs), pages, Live(blocks), pages);
      FreeMergesNeighbours(bs, k);
      PassLive(Freed(bs, k));
      PassFixpoint(FreeMerge(bs, k));
      var merged := true;
      ghost var first := true;
      while merged
        invariant Sound() && pages == old(pages)
        invariant first ==> merged && blocks == Freed(bs, k)
        invariant !first ==> blocks == FreeMerge(bs, k)
        invariant Spares(mem0, mem, Live(blocks), pages)
        decreases |blocks|, merged
      {
        ghost var m1 := mem;
        ghost var live := Live(blocks);
        merged := Coalesce();
        SparesTrans(mem0, m1, mem, live, pages, pages);
        first := false;
      }
    }

    /** The first free block of at least `size` bytes, or 0. */
    method Find(size: nat) returns (cur: nat, ghost k: int)
      requires Linked(mem, head, blocks)
      ensures cur == 0 ==> !Fits(blocks, size)
      ensures cur != 0 ==> FirstFit(blocks, size, k) && cur == blocks[k].addr
    {
      cur := head;
      k := 0;
      while cur != 0
        invariant 0 <= k <= |blocks| && cur == if k < |blocks| then blocks[k].addr else 0
        invariant forall j :: 0 <= j < k ==> !Fitting(blocks[j], size)
        decreases |blocks| - k
      {
        LinkAt(mem, head, blocks, k);
        if mem[cur + 4] != 0 && mem[cur] >= size { return; }
        cur := mem[cur + 8];
        k := k + 1;
      }
    }

    /** Write the header of the rest behind `size` bytes of block b, and shorten b. */
    method Split(cur: nat, size: nat, ghost b: Block, ghost next: nat)
      requires Holds(mem, b, next) && cur == b.addr && b.size >= size + MIN_SPLIT
      modifies this`mem
      ensures Inside(old(mem), mem, b.addr, End(b)) && Holds(mem, Block(cur, size, b.free), cur + HDR + size)
      ensures Holds(mem, Block(cur + HDR + size, b.size - size - HDR, true), next)
    {
      hide Inside, Kept;
      SplitWritten(mem, b, size, next);
      var split := cur + HDR + size;
      mem := mem[split := mem[cur] - size - HDR];
      mem := mem[split + 4 := 1];
      mem := mem[split + 8 := mem[cur + 8]];
      mem := mem[cur + 8 := split];
      mem := mem[cur := size];
    }

    /** Split block k if the rest is worth a header, and mark it used. */
    method UseBlock(cur: nat, size: nat, ghost k: int) returns (ptr: nat)
      requires Valid() && FirstFit(blocks, size, k) && cur == blocks[k].addr && size % 4 == 0
      modifies this`mem, this`blocks
      ensures Valid() && pages == old(pages) && ptr == old(blocks)[k].addr + HDR && ptr % 4 == 0
      ensures blocks == Use(old(blocks), k, size) && Spares(old(mem), mem, Live(old(blocks)), pages)
    {
      hide Tiled, Total, Separated, Use, Linked, Disjoint, Spares, Kept, Inside, Live;
      ghost var bs, m0 := blocks, mem;
      LinkAt(mem, head, bs, k);
      UseSound(bs, pages, k, size);
      BlockBounds(bs, pages, k);
      assert (size + MIN_SPLIT) % TWO32 == size + MIN_SPLIT;
      if mem[cur] >= (size + MIN_SPLIT) % TWO32 {
        Split(cur, size, bs[k], Next(bs, k));
        SplitUsed(m0, mem, bs[k], size, Next(bs, k));
        SplitLinked(m0, head, bs, k, size, mem[cur + 4 := 0]);
      } else {
        Rewritten(m0, cur, cur + 4, 0);
        InBlock(m0, mem[cur + 4 := 0], bs[k]);
        ResizeLinked(m0, head, bs, k, Block(cur, bs[k].size, false), mem[cur + 4 := 0]);
      }
      mem := mem[cur + 4 := 0];
      BlockSpares(m0, mem, bs, pages, k);
      blocks := Use(bs, k, size);
      return cur + HDR;
    }

    /** A store through a pointer that kmalloc returned, inside its payload. */
    method Store(ptr: nat, offset: nat, v: nat)
      requires Valid() && exists b :: b in Live(blocks) && b.addr + HDR == ptr && offset < b.size
      modifies this`mem
      ensures Valid() && mem == old(mem)[ptr + offset := v]
    {
      ghost var k := LiveAt(blocks, ptr, offset);
      hide Tiled, Total, Separated, Linked, Disjoint, Live;
      TiledDisjoint(blocks, pages);
      ghost var m0 := mem;
      mem := mem[ptr + offset := v];
      assert Inside(m0, mem, blocks[k].addr + HDR, End(blocks[k]));
      PayloadLinked(m0, head, blocks, k, mem);
    }

    /** The heap has grown from `bs0` over `pages0`, `free0` being free then, to
        satisfy a request of `size` bytes. */
    ghost predicate Growing(size: nat, mem0: Memory, bs0: seq<Block>, pages0: set<nat>, free0: set<nat>)
      reads this, pm, pm.bitmap, pm.pageRefs
    {
      && pm.Shape() && pages0 <= pages && pages - pages0 <= free0 && pm.Free() == free0 - (pages - pages0)
      && Live(blocks) == Live(bs0) && Spares(mem0, mem, Live(bs0), pages)
      && (pages == pages0 ==> blocks == bs0)
      && (pages != pages0 ==> !Fits(bs0, size) && free0 != {} && (size <= WHOLE ==> Fits(blocks, size)))
      && (size <= WHOLE ==> |pages - pages0| <= 1)
    }

    method GrowFor(size: nat, ghost mem0: Memory, ghost bs0: seq<Block>, ghost pages0: set<nat>, ghost free0: set<nat>)
      returns (ok: bool)
      requires Valid() && Growing(size, mem0, bs0, pages0, free0) && !Fits(blocks, size)
      modifies this, pm`freeCount, pm.bitmap, pm.pageRefs
      ensures Valid() && Growing(size, mem0, bs0, pages0, free0)
      ensures !ok ==> pm.Free() == {} && blocks == old(blocks) && pages == old(pages)
      ensures ok ==> |pm.Free()| < |old(pm.Free())|
    {
      hide Tiled, Total, Separated, Grown, Live, Fits, Linked, Spares;
      ghost var m1, bs, pages1, free1 := mem, blocks, pages, pm.Free();
      assert size <= WHOLE ==> pages == pages0;
      ghost var p;
      ok, p := Grow();
      if ok {
        GrownLive(bs, p * PAGE);
        SparesTrans(mem0, m1, mem, Live(bs0), pages1, pages);
        if size <= WHOLE { GrownFits(bs, p * PAGE, size); }
        MovePage(pages0, free0, pages1, free1, p);
      }
    }

    /** kmalloc.  `mid` is the block list after the heap has grown, if it had to. */
    method Alloc(request: nat) returns (ptr: nat, ghost mid: seq<Block>, ghost k: int)
      requires Valid() && request < TWO32
      modifies this, pm`freeCount, pm.bitmap, pm.pageRefs
      ensures Valid() && old(pages) <= pages && pages - old(pages) <= old(pm.Free())
      ensures Spares(old(mem), mem, Live(old(blocks)), pages)
      ensures request == 0 ==> ptr == 0 && blocks == old(blocks) && mem == old(mem)
      ensures ptr == 0 && request != 0 ==>
              pm.Free() == {} && !Fits(blocks, RoundUp(request)) && Live(blocks) == Live(old(blocks))
      ensures ptr != 0 ==>
                FirstFit(mid, RoundUp(request), k) && ptr == mid[k].addr + 12 && ptr % 4 == 0 &&
                blocks == Use(mid, k, RoundUp(request)) && Live(mid) == Live(old(blocks)) &&
                Live(blocks) == Live(old(blocks)) + {Parts(mid[k], RoundUp(request))[0]}
      ensures Fits(old(blocks), RoundUp(request)) && request != 0 ==>
              ptr != 0 && pages == old(pages) && mid == old(blocks)
      ensures RoundUp(request) <= 4084 && request != 0 ==>
                |pages - old(pages)| <= 1 &&
                  (ptr == 0 <==> old(pm.Free()) == {} && !Fits(old(blocks), RoundUp(request)))
    {
      mid, k := [], -1;
      if request == 0 {
        SparesSelf(mem, Live(blocks), pages);
        return 0, mid, k;
      }
      var size := RoundUp(request);
      BigEnough(request);
      hide RoundUp, Tiled, Total, Separated, Live, Fits, Use, Linked, Parts, Spares;
      ghost var mem0, bs0, pages0, free0 := mem, blocks, pages, pm.Free();
      SparesSelf(mem0, Live(bs0), pages0);
      while true
        invariant Valid() && Growing(size, mem0, bs0, pages0, free0)
        decreases |pm.Free()|
      {
        var cur;
        cur, k := Find(size);
        if cur != 0 {
          FitIsFit(blocks, size, k);
          mid := blocks;
          ghost var m1 := mem;
          UseLive(mid, k, size);
          ptr := UseBlock(cur, size, k);
          SparesTrans(mem0, m1, mem, Live(bs0), pages, pages);
          return;
        }
        var ok := GrowFor(size, mem0, bs0, pages0, free0);
        if !ok { return 0, mid, k; }
      }
    }
  }

  lemma FitIsFit(bs: seq<Block>, size: nat, k: int)
    requires FirstFit(bs, size, k)
    ensures Fits(bs, size)
  {
  }

  /** The block kmalloc hands out is at least as big as the request exactly when
      rounding the request up does not wrap around 32 bits; the size is then the next
      multiple of 4. */
  lemma BigEnough(request: nat)
    requires 0 < request < 0x1_0000_0000
    ensures RoundUp(request) >= request <==> request + 3 < 0x1_0000_0000
    ensures RoundUp(request) % 4 == 0 && RoundUp(request) < request + 4
  {
  }

  /** A block is handed out whole exactly when the rest would have less than 8 bytes
      behind a header of 12; otherwise the rest becomes a free block right after it. */
  lemma SplitOff(b: Block, request: nat)
    requires 0 < request && request + 3 < 0x1_0000_0000 && b.size >= RoundUp(request)
    ensures var p := Parts(b, RoundUp(request));
            && 1 <= |p| <= 2 && p[0].addr == b.addr && !p[0].free && request <= p[0].size
            && (|p| == 1 ==> p[0].size == b.size < request + 4 + 12 + 8)
            && (|p| == 2 ==> && p[0].size < request + 4 && p[1].free && p[1].size >= 8
                             && p[1].addr == b.addr + 12 + p[0].size &&
                                p[1].addr + 12 + p[1].size == b.addr + 12 + b.size)
            && (|p| == 1 <==> b.size - RoundUp(request) < 12 + 8)
  {
    BigEnough(request);
    hide RoundUp;
  }
}
