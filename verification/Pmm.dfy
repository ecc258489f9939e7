/** The physical-page allocator of kernel/pmm.c: a bitmap with one bit per 4 KB
    page, a cached count of clear bits, and a saturating reference count per page. */
module Pmm {
  import opened Sets

  const PAGE_SIZE: nat := 4096
  const PAGES_MAX: nat := 65536
  const TWO32: nat := 0x1_0000_0000
  const TWO64: nat := 0x1_0000_0000_0000_0000
  const E820_USABLE: nat := 1
  const LOW_PAGES: nat := 256 // the first megabyte

  /** The allocator as a value: the set of free pages and the stored counts. */
  datatype Frames = Frames(free: set<nat>, refs: seq<nat>)

  datatype E820 = E820(base: nat, length: nat, kind: nat)

  ghost predicate WellFormed(s: Frames) {
    && |s.refs| == PAGES_MAX
    && (forall p :: p in s.free ==> p < PAGES_MAX)
    && (forall p :: 0 <= p < PAGES_MAX ==> s.refs[p] <= 255)
  }

  // ------------------------------------------------------------------
  // The operations as functions of the value

  ghost predicate IsLowest(s: set<nat>, p: nat) {
    p in s && forall q :: q in s ==> p <= q
  }

  ghost function Take(s: Frames, p: nat): (r: Frames)
    requires WellFormed(s) && p < PAGES_MAX
    ensures WellFormed(r)
  {
    Frames(s.free - {p}, s.refs[p := 1])
  }

  ghost function Drop(s: Frames, p: nat): (r: Frames)
    requires WellFormed(s)
    ensures WellFormed(r)
  {
    if p >= PAGES_MAX || p in s.free then s
    else if s.refs[p] > 1 then s.(refs := s.refs[p := s.refs[p] - 1])
    else Frames(s.free + {p}, s.refs[p := 0])
  }

  ghost function AddRef(s: Frames, p: nat): (r: Frames)
    requires WellFormed(s)
    ensures WellFormed(r)
  {
    if p < PAGES_MAX && s.refs[p] < 255 then s.(refs := s.refs[p := s.refs[p] + 1]) else s
  }

  ghost function DropAll(s: Frames, ps: seq<nat>): (r: Frames)
    requires WellFormed(s)
    ensures WellFormed(r)
    decreases |ps|
  {
    if ps == [] then s else Drop(DropAll(s, ps[..|ps| - 1]), ps[|ps| - 1])
  }

  lemma DropAllSnoc(s: Frames, ps: seq<nat>, x: nat)
    requires WellFormed(s)
    ensures DropAll(s, ps + [x]) == Drop(DropAll(s, ps), x)
  {
    assert (ps + [x])[..|ps|] == ps;
  }

  /** How many drops a page in use survives: its count, but at least one, because
      a page in use with a stored count of zero (a reserved page) is released by
      the first drop as well. */
  ghost function Weight(s: Frames, p: nat): nat
    requires WellFormed(s)
  {
    if p >= PAGES_MAX || p in s.free then 0
    else if s.refs[p] <= 1 then 1 else s.refs[p]
  }

  ghost function Monus(a: nat, b: nat): nat {
    if a <= b then 0 else a - b
  }

  /** Any list of drops, in any order, lowers each page's weight by the number of
      times the page is in the list; a page is free afterwards exactly when it was
      free or was dropped as often as its weight. */
  lemma {:induction false} DropAllWeights(s: Frames, ps: seq<nat>, p: nat)
    requires WellFormed(s) && p < PAGES_MAX
    ensures Weight(DropAll(s, ps), p) == Monus(Weight(s, p), multiset(ps)[p])
    ensures p in DropAll(s, ps).free <==> p in s.free || multiset(ps)[p] >= Weight(s, p)
    ensures multiset(ps)[p] == 0 ==> DropAll(s, ps).refs[p] == s.refs[p]
    ensures p !in s.free && 0 < multiset(ps)[p] < Weight(s, p) ==>
              DropAll(s, ps).refs[p] == s.refs[p] - multiset(ps)[p]
    ensures p !in s.free && multiset(ps)[p] >= Weight(s, p) ==> DropAll(s, ps).refs[p] == 0
    ensures p in s.free ==> DropAll(s, ps).refs[p] == s.refs[p]
    decreases |ps|
  {
    if ps == [] {
    } else {
      var init, last := ps[..|ps| - 1], ps[|ps| - 1];
      DropAllWeights(s, init, p);
      assert ps == init + [last];
    }
  }

  /** A page in use with n references needs exactly n drops. */
  lemma ExactlyNDrops(s: Frames, p: nat, k: nat)
    requires WellFormed(s) && p < PAGES_MAX && p !in s.free && s.refs[p] >= 1
    ensures p in DropAll(s, seq(k, _ => p)).free <==> k >= s.refs[p]
  {
    var ps := seq(k, _ => p);
    SameElementCount(p, k);
    DropAllWeights(s, ps, p);
  }

  lemma {:induction false} SameElementCount(p: nat, k: nat)
    ensures multiset(seq(k, _ => p))[p] == k
  {
    if k == 0 {
    } else {
      SameElementCount(p, k - 1);
      assert seq(k, _ => p) == seq(k - 1, _ => p) + [p];
    }
  }

  // ------------------------------------------------------------------
  // Bits of one bitmap byte

  function Mask(k: nat): bv8
    requires k < 8
  {
    if k == 0 then 1 else if k == 1 then 2 else if k == 2 then 4 else if k == 3 then 8
    else if k == 4 then 16 else if k == 5 then 32 else if k == 6 then 64 else 128
  }

  predicate Bit(b: bv8, k: nat)
    requires k < 8
  {
    b & Mask(k) != 0
  }

  lemma Masks(b: bv8, k: nat, j: nat)
    requires k < 8 && j < 8
    ensures (b | Mask(k)) & Mask(j) != 0 <==> j == k || b & Mask(j) != 0
    ensures (b & !Mask(k)) & Mask(j) != 0 <==> j != k && b & Mask(j) != 0
  {
    var m, n := Mask(k), Mask(j);
    assert m & n == if j == k then n else 0;
    assert (b | m) & n == (b & n) | (m & n);
    assert (b & !m) & n == (b & n) & !(m & n);
  }

  lemma SetBit(b: bv8, k: nat)
    requires k < 8
    ensures forall j :: 0 <= j < 8 ==> (Bit(b | Mask(k), j) <==> j == k || Bit(b, j))
  {
    forall j | 0 <= j < 8 ensures Bit(b | Mask(k), j) <==> j == k || Bit(b, j) { Masks(b, k, j); }
  }

  lemma ClearBit(b: bv8, k: nat)
    requires k < 8
    ensures forall j :: 0 <= j < 8 ==> (Bit(b & !Mask(k), j) <==> j != k && Bit(b, j))
  {
    forall j | 0 <= j < 8 ensures Bit(b & !Mask(k), j) <==> j != k && Bit(b, j) { Masks(b, k, j); }
  }

  lemma SetBits(bytes: seq<bv8>, p: nat)
    requires p < 8 * |bytes|
    ensures var now := bytes[p / 8 := bytes[p / 8] | Mask(p % 8)];
            forall q: nat :: q < 8 * |bytes| ==> (Bit(now[q / 8], q % 8) <==> q == p || Bit(bytes[q / 8], q % 8))
  {
    SetBit(bytes[p / 8], p % 8);
    hide Bit, Mask;
  }

  lemma ClearBits(bytes: seq<bv8>, p: nat)
    requires p < 8 * |bytes|
    ensures var now := bytes[p / 8 := bytes[p / 8] & !Mask(p % 8)];
            forall q: nat :: q < 8 * |bytes| ==> (Bit(now[q / 8], q % 8) <==> q != p && Bit(bytes[q / 8], q % 8))
  {
    ClearBit(bytes[p / 8], p % 8);
    hide Bit, Mask;
  }

  // ------------------------------------------------------------------
  // Which pages pmm_init leaves free

  function RoundUp64(a: nat): nat {
    ((a + PAGE_SIZE - 1) % TWO64) / PAGE_SIZE * PAGE_SIZE
  }

  function RoundDown64(a: nat): nat {
    (a % TWO64) / PAGE_SIZE * PAGE_SIZE
  }

  /** The page numbers, cut to 32 bits, that range_free visits from addr on. */
  ghost function Visited(addr: nat, end: nat): set<nat>
    decreases end - addr
  {
    if addr >= end then {} else {addr / PAGE_SIZE % TWO32} + Visited(addr + PAGE_SIZE, end)
  }

  ghost predicate Visits(base: nat, len: nat, p: nat) {
    p in Visited(RoundUp64(base), RoundDown64(base + len))
  }

  lemma VisitsIs(base: nat, len: nat)
    ensures forall p :: p in Visited(RoundUp64(base), RoundDown64(base + len)) <==> Visits(base, len, p)
  {
  }

  lemma VisitedNext(addr: nat, end: nat)
    ensures Visited(addr, end) ==
            if addr >= end then {} else {addr / PAGE_SIZE % TWO32} + Visited(addr + PAGE_SIZE, end)
  {
  }

  ghost predicate StartsIn(addr: nat, end: nat, q: nat) { addr <= q * PAGE_SIZE < end }

  lemma {:induction false} VisitedPages(addr: nat, end: nat, p: nat)
    requires addr % PAGE_SIZE == 0 && end % PAGE_SIZE == 0
    ensures p in Visited(addr, end) <==> exists q: nat :: StartsIn(addr, end, q) && q % TWO32 == p
    decreases end - addr
  {
    if addr < end {
      VisitedPages(addr + PAGE_SIZE, end, p);
      assert StartsIn(addr, end, addr / PAGE_SIZE);
      if p in Visited(addr + PAGE_SIZE, end) {
        var q: nat :| StartsIn(addr + PAGE_SIZE, end, q) && q % TWO32 == p;
        assert StartsIn(addr, end, q);
      }
      forall q: nat | StartsIn(addr, end, q) && q % TWO32 == p ensures p in Visited(addr, end) {
        assert q == addr / PAGE_SIZE || StartsIn(addr + PAGE_SIZE, end, q);
      }
    }
  }

  /** The bytes of page p all lie in [base, base + len). */
  ghost predicate WhollyInside(base: nat, len: nat, p: nat) {
    base <= p * PAGE_SIZE && (p + 1) * PAGE_SIZE <= base + len
  }

  /** One of the first n entries is usable and makes range_free visit page p. */
  ghost predicate Usable(map_: seq<E820>, n: nat, p: nat)
    requires n <= |map_|
  {
    n > 0 && (Usable(map_, n - 1, p) ||
      (map_[n - 1].kind == E820_USABLE && Visits(map_[n - 1].base, map_[n - 1].length, p)))
  }

  ghost predicate UsableRam(map_: seq<E820>, n: nat, p: nat)
    requires n <= |map_|
  {
    exists i :: 0 <= i < n && map_[i].kind == 1 && WhollyInside(map_[i].base, map_[i].length, p)
  }

  /** Page p holds a byte of [base, end). */
  ghost predicate Touches(base: nat, end: nat, p: nat) {
    base / PAGE_SIZE <= p < (end + PAGE_SIZE - 1) % TWO32 / PAGE_SIZE
  }

  ghost predicate InitiallyFree(map_: seq<E820>, kernelEnd: nat, p: nat) {
    p < PAGES_MAX && Usable(map_, |map_|, p) && p >= LOW_PAGES && !Touches(0x1000, kernelEnd, p)
  }

  /** Some page whose number, cut to 32 bits, is p lies wholly in [base, base + len). */
  ghost predicate AliasInside(base: nat, len: nat, p: nat) {
    exists q: nat :: WhollyInside(base, len, q) && q % TWO32 == p
  }

  /** The loop visits p exactly when some page with this number, cut to 32 bits,
      lies wholly inside the entry. */
  lemma VisitsAliases(base: nat, len: nat, p: nat)
    requires base + len < TWO64 && base + PAGE_SIZE <= TWO64
    ensures Visits(base, len, p) <==> AliasInside(base, len, p)
  {
    var addr, end := RoundUp64(base), RoundDown64(base + len);
    VisitedPages(addr, end, p);
    forall q: nat ensures StartsIn(addr, end, q) <==> WhollyInside(base, len, q) {
      PageInside(base, len, q);
    }
  }

  lemma PageInside(base: nat, len: nat, q: nat)
    requires base + len < TWO64 && base + PAGE_SIZE <= TWO64
    ensures StartsIn(RoundUp64(base), RoundDown64(base + len), q) <==> WhollyInside(base, len, q)
  {
  }

  /** For an entry that ends at or below 2^44 these are the pages that lie wholly
      inside the entry; above 2^44 the numbers come round again. */
  lemma VisitsWhole(base: nat, len: nat, p: nat)
    requires base + len <= 0x1000_0000_0000 && p < PAGES_MAX
    ensures Visits(base, len, p) <==> WhollyInside(base, len, p)
  {
    VisitsAliases(base, len, p);
    if WhollyInside(base, len, p) { assert p % TWO32 == p; }
  }

  lemma LowTouched()
    ensures forall p: nat :: Touches(0, 0x100000, p) <==> p < LOW_PAGES
  {
  }

  lemma PageAddress(p: nat)
    ensures p * PAGE_SIZE % PAGE_SIZE == 0 && p * PAGE_SIZE / PAGE_SIZE == p
  {
  }

  class Allocator {
    const bitmap: array<bv8>
    const pageRefs: array<nat>
    var freeCount: nat

    /** The static storage is zero-filled before pmm_init runs. */
    constructor ()
      ensures Shape() && fresh(bitmap) && fresh(pageRefs)
      ensures forall p :: 0 <= p < PAGES_MAX ==> pageRefs[p] == 0
    {
      bitmap := new bv8[PAGES_MAX / 8](_ => 0);
      pageRefs := new nat[PAGES_MAX](_ => 0);
      freeCount := 0;
    }

    ghost predicate Shape() {
      bitmap.Length == PAGES_MAX / 8 && pageRefs.Length == PAGES_MAX
    }

    predicate PageIsFree(p: nat)
      requires Shape() && p < PAGES_MAX
      reads bitmap
    {
      !Bit(bitmap[p / 8], p % 8)
    }

    ghost function Free(): (s: set<nat>)
      requires Shape()
      reads bitmap
    {
      set p: nat | 0 <= p < PAGES_MAX && PageIsFree(p)
    }

    ghost predicate Valid()
      reads this, bitmap, pageRefs
    {
      && Shape()
      && freeCount == |Free()|
      && (forall p :: 0 <= p < PAGES_MAX ==> pageRefs[p] <= 255)
    }

    ghost function State(): (s: Frames)
      requires Valid()
      reads this, bitmap, pageRefs
      ensures WellFormed(s)
    {
      Frames(Free(), pageRefs[..])
    }

    method SetUsed(p: nat)
      requires Valid() && p in Free()
      modifies this`freeCount, bitmap
      ensures Valid() && Free() == old(Free()) - {p} && pageRefs[..] == old(pageRefs[..])
    {
      hide Bit, Mask;
      ghost var bytes := bitmap[..];
      SetBits(bytes, p);
      bitmap[p / 8] := bitmap[p / 8] | Mask(p % 8);
      assert bitmap[..] == bytes[p / 8 := bytes[p / 8] | Mask(p % 8)];
      forall q: nat | q < PAGES_MAX ensures PageIsFree(q) <==> q != p && old(PageIsFree(q)) {
        assert bitmap[q / 8] == bitmap[..][q / 8] && old(bitmap[q / 8]) == bytes[q / 8];
      }
      assert Free() == old(Free()) - {p};
      CardRemove(old(Free()), p);
      if freeCount > 0 { freeCount := freeCount - 1; }
    }

    method SetFree(p: nat)
      requires Valid() && p < PAGES_MAX && p !in Free()
      modifies this`freeCount, bitmap
      ensures Valid() && Free() == old(Free()) + {p} && pageRefs[..] == old(pageRefs[..])
    {
      hide Bit, Mask;
      ghost var bytes := bitmap[..];
      ClearBits(bytes, p);
      bitmap[p / 8] := bitmap[p / 8] & !Mask(p % 8);
      assert bitmap[..] == bytes[p / 8 := bytes[p / 8] & !Mask(p % 8)];
      forall q: nat | q < PAGES_MAX ensures PageIsFree(q) <==> q == p || old(PageIsFree(q)) {
        assert bitmap[q / 8] == bitmap[..][q / 8] && old(bitmap[q / 8]) == bytes[q / 8];
      }
      assert Free() == old(Free()) + {p};
      CardAdd(old(Free()), p);
      freeCount := freeCount + 1;
    }

    method RangeFree(base: nat, len: nat)
      requires Valid() && base < TWO64 && len < TWO64
      modifies this`freeCount, bitmap
      ensures Valid()
      ensures forall p: nat :: p < PAGES_MAX ==> (p in Free() <==> p in old(Free()) || Visits(base, len, p))
    {
      VisitsIs(base, len);
      hide Visits, Visited, RoundUp64, RoundDown64;
      var addr, end := RoundUp64(base), RoundDown64(base + len);
      while addr < end
        invariant Valid()
        invariant old(Free()) <= Free()
        invariant forall p: nat :: p < PAGES_MAX ==>
                    (p in Free() || p in Visited(addr, end) <==> p in old(Free()) || Visits(base, len, p))
      {
        var page := (addr / PAGE_SIZE) % TWO32;
        VisitedNext(addr, end);
        if page < PAGES_MAX && !PageIsFree(page) {
          SetFree(page);
        }
        addr := addr + PAGE_SIZE;
      }
      VisitedNext(addr, end);
    }

    method RangeUsed(base: nat, end: nat)
      requires Valid() && base < TWO32 && end < TWO32
      modifies this`freeCount, bitmap
      ensures Valid()
      ensures forall p: nat :: p in Free() <==> p in old(Free()) && !Touches(base, end, p)
    {
      var p := base / PAGE_SIZE;
      var e := (end + PAGE_SIZE - 1) % TWO32 / PAGE_SIZE;
      while p < e && p < PAGES_MAX
        invariant base / PAGE_SIZE <= p
        invariant Valid()
        invariant forall q: nat :: q in Free() <==> q in old(Free()) && !(base / PAGE_SIZE <= q < p && q < e)
      {
        if PageIsFree(p) {
          SetUsed(p);
        }
        p := p + 1;
      }
    }

    /** pmm_init. `kernelEnd` is the physical end of the kernel image. */
    method Init(map_: seq<E820>, kernelEnd: nat)
      requires Shape()
      requires forall p :: 0 <= p < PAGES_MAX ==> pageRefs[p] <= 255
      requires forall i :: 0 <= i < |map_| ==> map_[i].base < TWO64 && map_[i].length < TWO64
      requires kernelEnd < TWO32
      modifies this`freeCount, bitmap
      ensures Valid()
      ensures forall p: nat :: p in Free() <==> InitiallyFree(map_, kernelEnd, p)
    {
      LowTouched();
      hide Touches, Visits;
      var k := 0;
      while k < bitmap.Length
        invariant 0 <= k <= bitmap.Length
        invariant forall j :: 0 <= j < k ==> bitmap[j] == 0xFF
      {
        bitmap[k] := 0xFF;
        k := k + 1;
      }
      freeCount := 0;
      assert forall p: nat | p < PAGES_MAX :: bitmap[p / 8] == 0xFF && !PageIsFree(p);
      assert Free() == {};
      var i := 0;
      while i < |map_|
        invariant 0 <= i <= |map_|
        invariant Valid()
        invariant forall p: nat :: p in Free() <==> p < PAGES_MAX && Usable(map_, i, p)
      {
        if map_[i].kind == E820_USABLE {
          RangeFree(map_[i].base, map_[i].length);
        }
        i := i + 1;
      }
      RangeUsed(0, 0x100000);
      RangeUsed(0x1000, kernelEnd);
    }

    method Alloc() returns (addr: nat)
      requires Valid()
      modifies this`freeCount, bitmap, pageRefs
      ensures Valid()
      ensures old(Free()) == {} ==> addr == 0 && State() == old(State())
      ensures old(Free()) != {} ==>
                addr % PAGE_SIZE == 0 && IsLowest(old(Free()), addr / PAGE_SIZE) &&
                State() == Take(old(State()), addr / PAGE_SIZE)
    {
      var p := 0;
      while p < PAGES_MAX
        invariant 0 <= p <= PAGES_MAX
        invariant forall q: nat :: q < p ==> q !in Free()
      {
        if PageIsFree(p) {
          assert p in Free();
          ghost var f := Free();
          assert IsLowest(f, p);
          PageAddress(p);
          hide IsLowest;
          SetUsed(p);
          pageRefs[p] := 1;
          assert Free() == f - {p};
          return p * PAGE_SIZE;
        }
        p := p + 1;
      }
      assert Free() == {};
      return 0;
    }

    method Release(addr: nat)
      requires Valid()
      modifies this`freeCount, bitmap, pageRefs
      ensures Valid() && State() == Drop(old(State()), addr / PAGE_SIZE)
    {
      var p := addr / PAGE_SIZE;
      if p >= PAGES_MAX || PageIsFree(p) {
        return;
      }
      assert p !in Free();
      if pageRefs[p] > 1 {
        pageRefs[p] := pageRefs[p] - 1;
        assert Free() == old(Free());
        return;
      }
      pageRefs[p] := 0;
      assert Free() == old(Free());
      SetFree(p);
    }

    method Retain(addr: nat)
      requires Valid()
      modifies pageRefs
      ensures Valid() && State() == AddRef(old(State()), addr / PAGE_SIZE)
    {
      var p := addr / PAGE_SIZE;
      if p < PAGES_MAX && pageRefs[p] < 255 {
        pageRefs[p] := pageRefs[p] + 1;
      }
      assert Free() == old(Free());
    }

    method GetRef(addr: nat) returns (n: nat)
      requires Valid()
      ensures n == if addr / PAGE_SIZE < PAGES_MAX then State().refs[addr / PAGE_SIZE] else 0
    {
      n := if addr / PAGE_SIZE < PAGES_MAX then pageRefs[addr / PAGE_SIZE] else 0;
    }
  }

  ghost predicate Fits64(map_: seq<E820>) {
    forall i :: 0 <= i < |map_| ==> map_[i].base + map_[i].length < TWO64 && map_[i].base + PAGE_SIZE <= TWO64
  }

  /** What pmm_init leaves free, for entries in the 64-bit space and a kernel image
      that does not reach the last page of the 4 GB space. */
  lemma InitMeansAliases(map_: seq<E820>, kernelEnd: nat, p: nat)
    requires Fits64(map_) && 0x1000 < kernelEnd <= TWO32 - PAGE_SIZE
    ensures InitiallyFree(map_, kernelEnd, p) <==>
            p < 65536
            && (exists i :: 0 <= i < |map_| && map_[i].kind == 1 && AliasInside(map_[i].base, map_[i].length, p))
            && p * 4096 >= 0x100000 && (kernelEnd <= p * 4096 || (p + 1) * 4096 <= 0x1000)
  {
    UsableAliases(map_, |map_|, p);
  }

  lemma {:induction false} UsableAliases(map_: seq<E820>, n: nat, p: nat)
    requires n <= |map_| && Fits64(map_)
    ensures Usable(map_, n, p) <==>
            exists i :: 0 <= i < n && map_[i].kind == 1 && AliasInside(map_[i].base, map_[i].length, p)
  {
    hide Visits, AliasInside;
    if n > 0 {
      UsableAliases(map_, n - 1, p);
      VisitsAliases(map_[n - 1].base, map_[n - 1].length, p);
    }
  }

  /** What pmm_init promises, for a machine whose memory map ends below 2^44 and
      whose kernel image does not reach the last page of the 4 GB space. */
  lemma InitMeansUsableRam(map_: seq<E820>, kernelEnd: nat, p: nat)
    requires forall i :: 0 <= i < |map_| ==> map_[i].base + map_[i].length <= 0x1000_0000_0000
    requires 0x1000 < kernelEnd <= TWO32 - PAGE_SIZE
    ensures InitiallyFree(map_, kernelEnd, p) <==>
            (p < 65536 && UsableRam(map_, |map_|, p) && p * 4096 >= 0x100000 &&
             (kernelEnd <= p * 4096 || (p + 1) * 4096 <= 0x1000))
  {
    if p < PAGES_MAX { UsableIsRam(map_, |map_|, p); }
  }

  lemma {:induction false} UsableIsRam(map_: seq<E820>, n: nat, p: nat)
    requires n <= |map_| && p < PAGES_MAX
    requires forall i :: 0 <= i < |map_| ==> map_[i].base + map_[i].length <= 0x1000_0000_0000
    ensures Usable(map_, n, p) <==> UsableRam(map_, n, p)
  {
    if n > 0 {
      UsableIsRam(map_, n - 1, p);
      VisitsWhole(map_[n - 1].base, map_[n - 1].length, p);
    }
  }

  /** One usable page at 2^44 + 1 MB, and no RAM: pmm_init frees page 256. */
  lemma HighEntryFreesLow(kernelEnd: nat)
    requires 0x1000 < kernelEnd <= 0x100000
    ensures var map_ := [E820(0x1000_0010_0000, 4096, 1)];
            InitiallyFree(map_, kernelEnd, 256) && !UsableRam(map_, 1, 256)
  {
    var e := E820(0x1000_0010_0000, PAGE_SIZE, E820_USABLE);
    assert WhollyInside(e.base, e.length, TWO32 + 256) && (TWO32 + 256) % TWO32 == 256;
    assert AliasInside(e.base, e.length, 256);
    InitMeansAliases([e], kernelEnd, 256);
    assert [e][0] == e;
  }
}
