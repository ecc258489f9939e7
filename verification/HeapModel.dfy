/** The block list of kernel/heap.c as a value: headers and payloads tile the pages
    the heap owns, and freeing merges a block with its neighbours in the list. */
module HeapModel {

  const HDR: nat := 12
  const MIN_SPLIT: nat := 20
  const PAGE: nat := 4096
  const WHOLE: nat := 4084 // payload of a page with one header

  datatype Block = Block(addr: nat, size: nat, free: bool)

  function End(b: Block): nat { b.addr + HDR + b.size }

  ghost predicate Within(b: Block, x: nat) { b.addr <= x < End(b) }

  ghost predicate Apart(a: Block, b: Block) { End(a) <= b.addr || End(b) <= a.addr }

  ghost predicate Aligned(bs: seq<Block>) {
    forall i :: 0 <= i < |bs| ==> bs[i].addr % 4 == 0 && bs[i].size % 4 == 0
  }

  ghost predicate Disjoint(bs: seq<Block>) {
    forall i, j :: 0 <= i < j < |bs| ==> Apart(bs[i], bs[j])
  }

  ghost predicate Covered(bs: seq<Block>, x: nat) {
    exists i :: 0 <= i < |bs| && Within(bs[i], x)
  }

  /** The blocks are disjoint and together are exactly the bytes of the pages. */
  ghost predicate Tiled(bs: seq<Block>, pages: set<nat>) {
    && Aligned(bs) && Disjoint(bs)
    && forall x: nat :: Covered(bs, x) <==> x / PAGE in pages
  }

  ghost function Total(bs: seq<Block>): nat {
    if bs == [] then 0 else Total(bs[..|bs| - 1]) + HDR + bs[|bs| - 1].size
  }

  ghost predicate Mergeable(a: Block, b: Block) { a.free && b.free && End(a) == b.addr }

  /** No two blocks that follow each other in the list are free and contiguous. */
  ghost predicate Separated(bs: seq<Block>) {
    forall i :: 0 <= i < |bs| - 1 ==> !Mergeable(bs[i], bs[i + 1])
  }

  ghost function Live(bs: seq<Block>): set<Block> {
    set i | 0 <= i < |bs| && !bs[i].free :: bs[i]
  }

  // ------------------------------------------------------------------
  // The operations

  /** Replace blocks k..k+n by others. */
  ghost function Splice(bs: seq<Block>, k: nat, n: nat, mid: seq<Block>): seq<Block>
    requires k + n <= |bs|
  {
    bs[..k] + mid + bs[k + n..]
  }

  ghost function Parts(b: Block, size: nat): seq<Block> {
    if b.size >= size + MIN_SPLIT
    then [Block(b.addr, size, false), Block(b.addr + HDR + size, b.size - size - HDR, true)]
    else [Block(b.addr, b.size, false)]
  }

  ghost function Use(bs: seq<Block>, k: nat, size: nat): seq<Block>
    requires k < |bs|
  {
    Splice(bs, k, 1, Parts(bs[k], size))
  }

  ghost function Grown(bs: seq<Block>, page: nat): seq<Block> {
    if bs != [] && bs[|bs| - 1].free && End(bs[|bs| - 1]) == page
    then bs[|bs| - 1 := bs[|bs| - 1].(size := bs[|bs| - 1].size + PAGE)]
    else bs + [Block(page, WHOLE, true)]
  }

  ghost function Freed(bs: seq<Block>, k: nat): seq<Block>
    requires k < |bs|
  {
    bs[k := bs[k].(free := true)]
  }

  ghost function Merged(a: Block, b: Block): Block {
    Block(a.addr, a.size + HDR + b.size, true)
  }

  /** The forward pass of kfree from the head of the list. */
  ghost function Pass(bs: seq<Block>): seq<Block>
    decreases |bs|
  {
    if |bs| < 2 then bs
    else if Mergeable(bs[0], bs[1]) then Pass([Merged(bs[0], bs[1])] + bs[2..])
    else [bs[0]] + Pass(bs[1..])
  }

  // ------------------------------------------------------------------
  // Replacing blocks by others over the same bytes

  /** `mid` covers the same bytes as `old`, in disjoint aligned blocks. */
  ghost predicate SameBytes(old_: seq<Block>, mid: seq<Block>) {
    && Aligned(mid) && Disjoint(mid)
    && forall x: nat :: Covered(mid, x) <==> Covered(old_, x)
  }

  lemma CoveredConcat(a: seq<Block>, b: seq<Block>, x: nat)
    ensures Covered(a + b, x) <==> Covered(a, x) || Covered(b, x)
  {
    if Covered(b, x) {
      var i :| 0 <= i < |b| && Within(b[i], x);
      assert (a + b)[|a| + i] == b[i];
    }
    if Covered(a, x) {
      var i :| 0 <= i < |a| && Within(a[i], x);
      assert (a + b)[i] == a[i];
    }
  }

  lemma CoveredSplice(bs: seq<Block>, k: nat, n: nat, mid: seq<Block>, x: nat)
    requires k + n <= |bs|
    ensures Covered(Splice(bs, k, n, mid), x) <==> Covered(bs[..k], x) || Covered(mid, x) || Covered(bs[k + n..], x)
  {
    CoveredConcat(bs[..k] + mid, bs[k + n..], x);
    CoveredConcat(bs[..k], mid, x);
  }

  /** Two blocks are apart exactly when no byte is in both. */
  lemma ApartBytes(a: Block, b: Block)
    ensures Apart(a, b) <==> forall x: nat :: !(Within(a, x) && Within(b, x))
  {
    if !Apart(a, b) {
      var x := if a.addr <= b.addr then b.addr else a.addr;
      assert Within(a, x) && Within(b, x);
    }
  }

  ghost predicate OutOf(bs: seq<Block>, mid: seq<Block>) {
    forall i, j :: 0 <= i < |bs| && 0 <= j < |mid| ==> Apart(bs[i], mid[j])
  }

  lemma OutOfBytes(bs: seq<Block>, old_: seq<Block>, mid: seq<Block>)
    requires OutOf(bs, old_) && SameBytes(old_, mid)
    ensures OutOf(bs, mid)
  {
    forall i, j | 0 <= i < |bs| && 0 <= j < |mid| ensures Apart(bs[i], mid[j]) {
      forall x: nat | Within(mid[j], x) ensures !Within(bs[i], x) {
        assert Covered(mid, x);
        var m :| 0 <= m < |old_| && Within(old_[m], x);
        assert Apart(bs[i], old_[m]);
      }
      ApartBytes(bs[i], mid[j]);
    }
  }

  lemma SpliceTiled(bs: seq<Block>, pages: set<nat>, k: nat, n: nat, mid: seq<Block>)
    requires Tiled(bs, pages) && k + n <= |bs| && SameBytes(bs[k..k + n], mid)
    ensures Tiled(Splice(bs, k, n, mid), pages)
  {
    var l, o, r := bs[..k], bs[k..k + n], bs[k + n..];
    var new_ := Splice(bs, k, n, mid);
    OutOfBytes(l, o, mid);
    OutOfBytes(r, o, mid);
    forall i, j | 0 <= i < j < |new_| ensures Apart(new_[i], new_[j]) {
      if j < k {
        assert Apart(bs[i], bs[j]);
      } else if i >= k + |mid| {
        assert Apart(bs[i - |mid| + n], bs[j - |mid| + n]);
      } else if i < k && j < k + |mid| {
        assert Apart(l[i], mid[j - k]);
      } else if i < k {
        assert Apart(bs[i], bs[j - |mid| + n]);
      } else if j < k + |mid| {
        assert Apart(mid[i - k], mid[j - k]);
      } else {
        assert Apart(r[j - k - |mid|], mid[i - k]);
      }
    }
    forall x: nat ensures Covered(new_, x) <==> Covered(bs, x) {
      CoveredSplice(bs, k, n, mid, x);
      CoveredSplice(bs, k, n, o, x);
      assert bs == Splice(bs, k, n, o);
    }
    forall i | 0 <= i < |new_| ensures new_[i].addr % 4 == 0 && new_[i].size % 4 == 0 {
      if i < k {
        assert new_[i] == bs[i];
      } else if i < k + |mid| {
        assert new_[i] == mid[i - k];
      } else {
        assert new_[i] == bs[i - |mid| + n];
      }
    }
  }

  lemma PartsSameBytes(b: Block, size: nat)
    requires b.addr % 4 == 0 && b.size % 4 == 0 && size % 4 == 0
    ensures SameBytes([b], Parts(b, size))
  {
    var ps := Parts(b, size);
    forall x: nat ensures Covered(ps, x) <==> Covered([b], x) {
      if Covered([b], x) {
        assert Within([b][0], x);
        assert Within(ps[0], x) || Within(ps[|ps| - 1], x);
      }
      if Covered(ps, x) {
        var i :| 0 <= i < |ps| && Within(ps[i], x);
        assert Within([b][0], x);
      }
    }
  }

  lemma MergedBytes(a: Block, b: Block, x: nat)
    requires Mergeable(a, b)
    ensures Covered([Merged(a, b)], x) <==> Covered([a, b], x)
  {
    var two, one := [a, b], [Merged(a, b)];
    if Within(one[0], x) { assert Within(two[0], x) || Within(two[1], x); }
    if Covered(two, x) { assert Within(one[0], x); }
  }

  lemma MergedSameBytes(a: Block, b: Block)
    requires Aligned([a, b]) && Mergeable(a, b)
    ensures SameBytes([a, b], [Merged(a, b)])
  {
    hide Covered, Mergeable;
    var two := [a, b];
    assert a.addr % 4 == 0 && a.size % 4 == 0 by { assert two[0] == a; }
    assert b.size % 4 == 0 by { assert two[1] == b; }
    forall x: nat ensures Covered([Merged(a, b)], x) <==> Covered([a, b], x) {
      MergedBytes(a, b, x);
    }
  }

  lemma UseTiled(bs: seq<Block>, pages: set<nat>, k: nat, size: nat)
    requires Tiled(bs, pages) && k < |bs| && size % 4 == 0
    ensures Tiled(Use(bs, k, size), pages)
  {
    PartsSameBytes(bs[k], size);
    assert bs[k..k + 1] == [bs[k]];
    SpliceTiled(bs, pages, k, 1, Parts(bs[k], size));
  }

  lemma FreedTiled(bs: seq<Block>, pages: set<nat>, k: nat)
    requires Tiled(bs, pages) && k < |bs|
    ensures Tiled(Freed(bs, k), pages)
  {
    var b := bs[k].(free := true);
    assert SameBytes([bs[k]], [b]) by {
      forall x: nat ensures Covered([b], x) <==> Covered([bs[k]], x) {
        if Within(b, x) { assert Within([bs[k]][0], x); }
        if Within(bs[k], x) { assert Within([b][0], x); }
      }
    }
    assert bs[k..k + 1] == [bs[k]];
    SpliceTiled(bs, pages, k, 1, [b]);
    assert Splice(bs, k, 1, [b]) == Freed(bs, k);
  }

  lemma MergeTiled(bs: seq<Block>, pages: set<nat>, k: nat)
    requires Tiled(bs, pages) && k + 1 < |bs| && Mergeable(bs[k], bs[k + 1])
    ensures Tiled(Splice(bs, k, 2, [Merged(bs[k], bs[k + 1])]), pages)
  {
    assert bs[k..k + 2] == [bs[k], bs[k + 1]];
    assert Aligned(bs[k..k + 2]);
    MergedSameBytes(bs[k], bs[k + 1]);
    SpliceTiled(bs, pages, k, 2, [Merged(bs[k], bs[k + 1])]);
  }

  // ------------------------------------------------------------------
  // Growing by a page

  lemma PageBytes(p: nat, x: nat)
    ensures Within(Block(p * PAGE, WHOLE, true), x) <==> x / PAGE == p
  {
  }

  lemma AppendApart(bs: seq<Block>, pages: set<nat>, p: nat, i: nat)
    requires Tiled(bs, pages) && p !in pages && i < |bs|
    ensures Apart(bs[i], Block(p * PAGE, WHOLE, true))
  {
    var new_ := Block(p * PAGE, WHOLE, true);
    forall x: nat | Within(bs[i], x) ensures !Within(new_, x) {
      assert Covered(bs, x);
      PageBytes(p, x);
    }
    ApartBytes(bs[i], new_);
  }

  lemma AppendCovered(bs: seq<Block>, p: nat, x: nat)
    ensures Covered(bs + [Block(p * PAGE, WHOLE, true)], x) <==> Covered(bs, x) || x / PAGE == p
  {
    var new_ := Block(p * PAGE, WHOLE, true);
    CoveredConcat(bs, [new_], x);
    PageBytes(p, x);
    if Within(new_, x) { assert Within([new_][0], x); }
  }

  lemma PageAligned(p: nat)
    ensures p * PAGE % 4 == 0
  {
    assert p * PAGE == 4 * (p * 1024);
  }

  lemma AppendAligned(bs: seq<Block>, p: nat)
    requires Aligned(bs)
    ensures Aligned(bs + [Block(p * PAGE, WHOLE, true)])
  {
    PageAligned(p);
    var a := p * PAGE;
    assert forall i :: 0 <= i < |bs| ==> (bs + [Block(a, WHOLE, true)])[i] == bs[i];
  }

  lemma AppendTiled(bs: seq<Block>, pages: set<nat>, p: nat)
    requires Tiled(bs, pages) && p !in pages
    ensures Tiled(bs + [Block(p * PAGE, WHOLE, true)], pages + {p})
  {
    hide Covered, Apart, Aligned;
    AppendAligned(bs, p);
    var new_ := Block(p * PAGE, WHOLE, true);
    var app := bs + [new_];
    forall i, j | 0 <= i < j < |app| ensures Apart(app[i], app[j]) {
      if j == |bs| { AppendApart(bs, pages, p, i); } else { assert Apart(bs[i], bs[j]); }
    }
    forall x: nat ensures Covered(app, x) <==> x / PAGE in pages + {p} {
      AppendCovered(bs, p, x);
    }
  }

  lemma GrownTiled(bs: seq<Block>, pages: set<nat>, p: nat)
    requires Tiled(bs, pages) && p !in pages
    ensures Tiled(Grown(bs, p * PAGE), pages + {p})
  {
    hide Tiled;
    AppendTiled(bs, pages, p);
    var new_ := Block(p * PAGE, WHOLE, true);
    var app := bs + [new_];
    if Grown(bs, p * PAGE) != app {
      var k := |bs| - 1;
      MergeTiled(app, pages + {p}, k);
      assert Splice(app, k, 2, [Merged(bs[k], new_)]) == Grown(bs, p * PAGE);
    }
  }

  // ------------------------------------------------------------------
  // No list-consecutive blocks stay mergeable

  lemma UseSeparated(bs: seq<Block>, k: nat, size: nat)
    requires Separated(bs) && k < |bs| && bs[k].free && bs[k].size >= size
    ensures Separated(Use(bs, k, size))
  {
    var u := Use(bs, k, size);
    var n := |Parts(bs[k], size)|;
    forall i | 0 <= i < |u| - 1 ensures !Mergeable(u[i], u[i + 1]) {
      if i + 1 < k {
        assert u[i] == bs[i] && u[i + 1] == bs[i + 1];
      } else if i >= k + n {
        assert u[i] == bs[i - n + 1] && u[i + 1] == bs[i - n + 2];
      } else if i == k + n - 1 {
        assert u[i + 1] == bs[k + 1] && End(u[i]) == End(bs[k]);
      }
    }
  }

  lemma GrownSeparated(bs: seq<Block>, page: nat)
    requires Separated(bs)
    ensures Separated(Grown(bs, page))
  {
  }

  /** One forward pass reaches the fixpoint, whatever list it starts from. */
  lemma {:induction false} PassSeparates(bs: seq<Block>)
    ensures Separated(Pass(bs))
    ensures bs != [] ==> Pass(bs) != [] && Pass(bs)[0].addr == bs[0].addr && Pass(bs)[0].free == bs[0].free
    ensures bs != [] && (|bs| == 1 || !Mergeable(bs[0], bs[1])) ==> Pass(bs)[0] == bs[0]
    decreases |bs|
  {
    if |bs| >= 2 {
      if Mergeable(bs[0], bs[1]) {
        PassSeparates([Merged(bs[0], bs[1])] + bs[2..]);
      } else {
        PassSeparates(bs[1..]);
        var p := Pass(bs[1..]);
        assert Pass(bs) == [bs[0]] + p;
        forall i | 0 <= i < |p| ensures !Mergeable(Pass(bs)[i], Pass(bs)[i + 1]) {
          if i > 0 { assert !Mergeable(p[i - 1], p[i]); }
        }
      }
    }
  }

  /** A separated list is left as it is, so the second pass stops the loop. */
  lemma {:induction false} PassFixpoint(bs: seq<Block>)
    requires Separated(bs)
    ensures Pass(bs) == bs
    decreases |bs|
  {
    if |bs| >= 2 {
      assert !Mergeable(bs[0], bs[1]);
      forall i | 0 <= i < |bs[1..]| - 1 ensures !Mergeable(bs[1..][i], bs[1..][i + 1]) {
        assert !Mergeable(bs[i + 1], bs[i + 2]);
      }
      PassFixpoint(bs[1..]);
    }
  }

  // ------------------------------------------------------------------
  // Freeing one block merges it with at most its two neighbours

  ghost function MergeHere(bs: seq<Block>, k: nat): seq<Block> {
    if k + 1 < |bs| && Mergeable(bs[k], bs[k + 1]) then Splice(bs, k, 2, [Merged(bs[k], bs[k + 1])]) else bs
  }

  /** Free block k, join it with its successor, then join its predecessor with it. */
  ghost function FreeMerge(bs: seq<Block>, k: nat): seq<Block>
    requires k < |bs|
  {
    var joined := MergeHere(Freed(bs, k), k);
    if k > 0 then MergeHere(joined, k - 1) else joined
  }

  lemma PassShort(bs: seq<Block>)
    requires |bs| < 2
    ensures Pass(bs) == bs
  {
  }

  lemma PassJoins(bs: seq<Block>)
    requires |bs| >= 2 && Mergeable(bs[0], bs[1])
    ensures Pass(bs) == Pass([Merged(bs[0], bs[1])] + bs[2..])
  {
  }

  lemma PassKeeps(bs: seq<Block>)
    requires |bs| >= 2 && !Mergeable(bs[0], bs[1])
    ensures Pass(bs) == [bs[0]] + Pass(bs[1..])
  {
  }

  lemma {:induction false} PassPrefix(l: seq<Block>, r: seq<Block>)
    requires Separated(l) && (l != [] && r != [] ==> !Mergeable(l[|l| - 1], r[0]))
    ensures Pass(l + r) == l + Pass(r)
    decreases |l|
  {
    hide Pass, Mergeable;
    if l == [] {
      assert l + r == r;
    } else if |l + r| >= 2 {
      var t := l[1..];
      assert (l + r)[1..] == t + r;
      assert Separated(t) by {
        forall i | 0 <= i < |t| - 1 ensures !Mergeable(t[i], t[i + 1]) { assert !Mergeable(l[i + 1], l[i + 2]); }
      }
      assert !Mergeable((l + r)[0], (l + r)[1]) by { if |l| > 1 { assert !Mergeable(l[0], l[1]); } }
      PassKeeps(l + r);
      PassPrefix(t, r);
      assert [l[0]] + (t + Pass(r)) == l + Pass(r);
    } else {
      PassShort(l + r);
      PassShort(r);
    }
  }

  lemma PassOnce(r: seq<Block>)
    requires r != [] && Separated(r[1..])
    ensures Pass(r) == MergeHere(r, 0)
  {
    if |r| >= 2 && Mergeable(r[0], r[1]) {
      var m := [Merged(r[0], r[1])] + r[2..];
      assert Separated(m) by {
        forall i | 0 <= i < |m| - 1 ensures !Mergeable(m[i], m[i + 1]) {
          assert !Mergeable(r[1..][i], r[1..][i + 1]);
        }
      }
      PassFixpoint(m);
      assert Splice(r, 0, 2, [Merged(r[0], r[1])]) == m;
    } else {
      assert Separated(r) by {
        forall i | 0 <= i < |r| - 1 ensures !Mergeable(r[i], r[i + 1]) {
          if i > 0 { assert !Mergeable(r[1..][i - 1], r[1..][i]); }
        }
      }
      PassFixpoint(r);
    }
  }

  lemma SeparatedSlice(bs: seq<Block>, i: nat, j: nat)
    requires Separated(bs) && i <= j <= |bs|
    ensures Separated(bs[i..j])
  {
    forall m | 0 <= m < j - i - 1 ensures !Mergeable(bs[i..j][m], bs[i..j][m + 1]) {
      assert !Mergeable(bs[i + m], bs[i + m + 1]);
    }
  }

  /** After a kfree the pass has merged the freed block with its list neighbours,
      and nothing else. */
  lemma FreeMergesNeighbours(bs: seq<Block>, k: nat)
    requires Separated(bs) && k < |bs| && !bs[k].free
    ensures Pass(Freed(bs, k)) == FreeMerge(bs, k)
    ensures Separated(FreeMerge(bs, k)) && |FreeMerge(bs, k)| >= |bs| - 2
  {
    var f := Freed(bs, k);
    PassSeparates(f);
    SeparatedSlice(bs, k + 1, |bs|);
    var r := f[k..];
    assert r[1..] == bs[k + 1..];
    PassOnce(r);
    var joined := MergeHere(f, k);
    assert joined == f[..k] + MergeHere(r, 0);
    if k == 0 {
      assert r == f;
    } else if !Mergeable(bs[k - 1], f[k]) {
      SeparatedSlice(bs, 0, k);
      assert f == bs[..k] + r && f[..k] == bs[..k];
      PassPrefix(bs[..k], r);
    } else {
      FreeMergesBoth(bs, k);
    }
  }

  lemma FreeMergesBoth(bs: seq<Block>, k: nat)
    requires Separated(bs) && 0 < k < |bs| && !bs[k].free && Mergeable(bs[k - 1], Freed(bs, k)[k])
    ensures Pass(Freed(bs, k)) == FreeMerge(bs, k)
  {
    var f := Freed(bs, k);
    var l0, p, b, rest := bs[..k - 1], bs[k - 1], f[k], bs[k + 1..];
    var tail := [p, b] + rest;
    assert f == l0 + tail;
    SeparatedSlice(bs, 0, k - 1);
    assert l0 != [] ==> !Mergeable(bs[k - 2], bs[k - 1]);
    PassPrefix(l0, tail);
    var m := [Merged(p, b)] + rest;
    assert tail[2..] == rest;
    assert Pass(tail) == Pass(m);
    SeparatedSlice(bs, k + 1, |bs|);
    assert m[1..] == rest;
    PassOnce(m);
    hide Pass, Separated;
    JoinBoth(l0, p, b, rest);
  }

  lemma JoinBoth(l: seq<Block>, p: Block, b: Block, rest: seq<Block>)
    requires Mergeable(p, b)
    ensures var f, k := l + ([p, b] + rest), |l| + 1;
            MergeHere(MergeHere(f, k), k - 1) == l + MergeHere([Merged(p, b)] + rest, 0)
  {
    var f, k := l + ([p, b] + rest), |l| + 1;
    assert f[k] == b;
    if rest != [] && Mergeable(b, rest[0]) {
      assert f[k + 1] == rest[0] && f[k + 2..] == rest[1..] && f[..k] == l + [p];
      var j := l + [p, Merged(b, rest[0])] + rest[1..];
      assert MergeHere(f, k) == j;
      assert j[k - 1] == p && j[k] == Merged(b, rest[0]) && j[..k - 1] == l && j[k + 1..] == rest[1..];
      var m := [Merged(p, b)] + rest;
      assert m[2..] == rest[1..] && m[..0] == [];
    } else {
      assert rest != [] ==> f[k + 1] == rest[0];
      assert MergeHere(f, k) == f;
      assert f[k - 1] == p && f[..k - 1] == l && f[k + 1..] == rest;
    }
  }

  // ------------------------------------------------------------------
  // Live blocks and totals

  lemma LiveConcat(a: seq<Block>, b: seq<Block>)
    ensures Live(a + b) == Live(a) + Live(b)
  {
    forall x | x in Live(b) ensures x in Live(a + b) {
      var i :| 0 <= i < |b| && !b[i].free && b[i] == x;
      assert (a + b)[|a| + i] == x;
    }
    forall x | x in Live(a) ensures x in Live(a + b) {
      var i :| 0 <= i < |a| && !a[i].free && a[i] == x;
      assert (a + b)[i] == x;
    }
  }

  lemma LiveSplice(bs: seq<Block>, k: nat, n: nat, mid: seq<Block>)
    requires k + n <= |bs|
    ensures Live(Splice(bs, k, n, mid)) == Live(bs[..k]) + Live(mid) + Live(bs[k + n..])
    ensures Live(bs) == Live(bs[..k]) + Live(bs[k..k + n]) + Live(bs[k + n..])
  {
    LiveConcat(bs[..k] + mid, bs[k + n..]);
    LiveConcat(bs[..k], mid);
    assert bs == bs[..k] + bs[k..k + n] + bs[k + n..];
    LiveConcat(bs[..k] + bs[k..k + n], bs[k + n..]);
    LiveConcat(bs[..k], bs[k..k + n]);
  }

  /** Allocation adds one live block and keeps every other as it is. */
  lemma UseLive(bs: seq<Block>, k: nat, size: nat)
    requires k < |bs| && bs[k].free && bs[k].size >= size
    ensures Live(Use(bs, k, size)) == Live(bs) + {Parts(bs[k], size)[0]}
  {
    var ps := Parts(bs[k], size);
    LiveSplice(bs, k, 1, ps);
    assert bs[k..k + 1] == [bs[k]];
    assert Live([bs[k]]) == {};
    assert Live(ps) == {ps[0]} by {
      assert ps[0] in Live(ps);
    }
  }

  lemma {:induction false} PassLive(bs: seq<Block>)
    ensures Live(Pass(bs)) == Live(bs)
    decreases |bs|
  {
    if |bs| >= 2 {
      if Mergeable(bs[0], bs[1]) {
        var m := [Merged(bs[0], bs[1])];
        PassLive(m + bs[2..]);
        LiveConcat(m, bs[2..]);
        LiveConcat(bs[..2], bs[2..]);
        assert bs == bs[..2] + bs[2..];
        assert Live(m) == {} && Live(bs[..2]) == {};
      } else {
        PassLive(bs[1..]);
        LiveConcat([bs[0]], bs[1..]);
        LiveConcat([bs[0]], Pass(bs[1..]));
        assert bs == [bs[0]] + bs[1..];
      }
    }
  }

  lemma GrownLive(bs: seq<Block>, page: nat)
    ensures Live(Grown(bs, page)) == Live(bs)
  {
    var g := Grown(bs, page);
    if |g| == |bs| {
      var l := bs[..|bs| - 1];
      assert bs == l + [bs[|bs| - 1]] && g == l + [g[|bs| - 1]];
      LiveConcat(l, [bs[|bs| - 1]]);
      LiveConcat(l, [g[|bs| - 1]]);
      assert Live([bs[|bs| - 1]]) == {} && Live([g[|bs| - 1]]) == {};
    } else {
      LiveConcat(bs, [Block(page, WHOLE, true)]);
      assert Live([Block(page, WHOLE, true)]) == {};
    }
  }

  /** Freeing removes exactly the freed block. */
  lemma FreedLive(bs: seq<Block>, k: nat)
    requires Disjoint(bs) && k < |bs| && !bs[k].free
    ensures Live(Freed(bs, k)) == Live(bs) - {bs[k]}
  {
    var f := Freed(bs, k);
    forall i | 0 <= i < |bs| && i != k ensures bs[i] != bs[k] {
      assert Apart(bs[i], bs[k]) || Apart(bs[k], bs[i]);
    }
    forall x | x in Live(bs) && x != bs[k] ensures x in Live(f) {
      var i :| 0 <= i < |bs| && !bs[i].free && bs[i] == x;
      assert f[i] == x;
    }
  }

  lemma {:induction false} TotalConcat(a: seq<Block>, b: seq<Block>)
    ensures Total(a + b) == Total(a) + Total(b)
    decreases |b|
  {
    if b == [] {
      assert a + b == a;
    } else {
      var c := b[..|b| - 1];
      TotalConcat(a, c);
      assert (a + b)[..|a + b| - 1] == a + c;
    }
  }

  lemma TotalSplice(bs: seq<Block>, k: nat, n: nat, mid: seq<Block>)
    requires k + n <= |bs|
    ensures Total(Splice(bs, k, n, mid)) == Total(bs) - Total(bs[k..k + n]) + Total(mid)
  {
    TotalConcat(bs[..k] + mid, bs[k + n..]);
    TotalConcat(bs[..k], mid);
    assert bs == bs[..k] + bs[k..k + n] + bs[k + n..];
    TotalConcat(bs[..k] + bs[k..k + n], bs[k + n..]);
    TotalConcat(bs[..k], bs[k..k + n]);
  }

  lemma TotalOne(b: Block)
    ensures Total([b]) == HDR + b.size
  {
    assert Total([b][..0]) == 0;
  }

  lemma TotalTwo(a: Block, b: Block)
    ensures Total([a, b]) == HDR + a.size + HDR + b.size
  {
    assert [a, b] == [a] + [b];
    TotalConcat([a], [b]);
    TotalOne(a);
    TotalOne(b);
  }

  lemma UseTotal(bs: seq<Block>, k: nat, size: nat)
    requires k < |bs| && bs[k].size >= size
    ensures Total(Use(bs, k, size)) == Total(bs)
  {
    hide Total;
    var ps := Parts(bs[k], size);
    TotalSplice(bs, k, 1, ps);
    assert bs[k..k + 1] == [bs[k]];
    TotalOne(bs[k]);
    if |ps| == 2 { TotalTwo(ps[0], ps[1]); } else { TotalOne(ps[0]); }
  }

  lemma FreedTotal(bs: seq<Block>, k: nat)
    requires k < |bs|
    ensures Total(Freed(bs, k)) == Total(bs)
  {
    hide Total;
    var b := bs[k].(free := true);
    TotalSplice(bs, k, 1, [b]);
    assert Splice(bs, k, 1, [b]) == Freed(bs, k);
    assert bs[k..k + 1] == [bs[k]];
    TotalOne(bs[k]);
    TotalOne(b);
  }

  lemma GrownTotal(bs: seq<Block>, page: nat)
    ensures Total(Grown(bs, page)) == Total(bs) + PAGE
  {
    var g := Grown(bs, page);
    if |g| == |bs| {
      assert g[..|bs| - 1] == bs[..|bs| - 1];
    } else {
      assert g[..|g| - 1] == bs;
    }
  }

  lemma MergeTotal(bs: seq<Block>, k: nat)
    requires k + 1 < |bs|
    ensures Total(Splice(bs, k, 2, [Merged(bs[k], bs[k + 1])])) == Total(bs)
  {
    hide Total;
    TotalSplice(bs, k, 2, [Merged(bs[k], bs[k + 1])]);
    assert bs[k..k + 2] == [bs[k], bs[k + 1]];
    TotalTwo(bs[k], bs[k + 1]);
    TotalOne(Merged(bs[k], bs[k + 1]));
  }

  lemma PassMerge(bs: seq<Block>, k: nat)
    requires k + 1 < |bs| && Mergeable(bs[k], bs[k + 1])
    ensures var m := Splice(bs, k, 2, [Merged(bs[k], bs[k + 1])]); m[..k] + Pass(m[k..]) == bs[..k] + Pass(bs[k..])
  {
    hide Pass, Mergeable;
    var m := Splice(bs, k, 2, [Merged(bs[k], bs[k + 1])]);
    assert m[k..] == [Merged(bs[k], bs[k + 1])] + bs[k..][2..];
    assert m[..k] == bs[..k];
    PassJoins(bs[k..]);
  }

  lemma PassSkip(bs: seq<Block>, k: nat)
    requires k + 1 < |bs| && !Mergeable(bs[k], bs[k + 1])
    ensures bs[..k + 1] + Pass(bs[k + 1..]) == bs[..k] + Pass(bs[k..])
  {
    assert bs[k..][1..] == bs[k + 1..];
  }

  /** No byte of a header lies in another block's payload. */
  lemma HeaderMissesPayload(bs: seq<Block>, i: nat, j: nat)
    requires Disjoint(bs) && i < |bs| && j < |bs|
    ensures bs[i].addr + HDR <= bs[j].addr + HDR || End(bs[j]) <= bs[i].addr
  {
    if i < j { assert Apart(bs[i], bs[j]); }
    if j < i { assert Apart(bs[j], bs[i]); }
  }

  // ------------------------------------------------------------------
  // First fit

  ghost predicate Fitting(b: Block, size: nat) { b.free && b.size >= size }

  ghost predicate FirstFit(bs: seq<Block>, size: nat, k: int) {
    0 <= k < |bs| && Fitting(bs[k], size) && forall j :: 0 <= j < k ==> !Fitting(bs[j], size)
  }

  ghost predicate Fits(bs: seq<Block>, size: nat) {
    exists i :: 0 <= i < |bs| && Fitting(bs[i], size)
  }

  /** A grown heap has room for any request of up to a page less one header. */
  lemma GrownFits(bs: seq<Block>, page: nat, size: nat)
    requires size <= WHOLE
    ensures Fits(Grown(bs, page), size)
  {
    var g := Grown(bs, page);
    assert Fitting(g[|g| - 1], size);
  }
}
