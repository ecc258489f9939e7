/** kernel/pipe.c: the ring buffer of a pipe with its ever-increasing 32-bit
    counters, and every interleaving of readers and writers over it. */
module Pipes {
  import opened ByteSeq

  const SIZE: nat := 512

  // ------------------------------------------------------------------
  // The ring

  function Avail(head: nat, tail: nat): (n: nat)
    ensures n < WORDS
  {
    (head - tail) % WORDS
  }

  /** The `n` bytes from position `tail` on. */
  ghost function Held(data: seq<Byte>, tail: nat, n: nat): (s: seq<Byte>)
    requires |data| == SIZE
    ensures |s| == n && forall i :: 0 <= i < n ==> s[i] == data[(tail + i) % SIZE]
  {
    if n == 0 then [] else Held(data, tail, n - 1) + [data[(tail + n - 1) % SIZE]]
  }

  /** A counter step of one, with wrap-around, moves the ring position by one. */
  lemma StepPosition(x: nat, i: nat)
    requires x < WORDS
    ensures ((x + 1) % WORDS + i) % SIZE == (x + 1 + i) % SIZE
  {
    if x + 1 == WORDS {
      assert WORDS == 8388608 * SIZE;
      assert (x + 1 + i) % SIZE == (i + SIZE * 8388608) % SIZE;
      ModAdd(i, 8388608);
    }
  }

  lemma {:induction false} ModAdd(i: nat, k: nat)
    ensures (i + SIZE * k) % SIZE == i % SIZE
  {
    if k > 0 { ModAdd(i, k - 1); }
  }

  lemma TailStep(head: nat, tail: nat)
    requires head < WORDS && tail < WORDS && Avail(head, tail) > 0
    ensures Avail(head, (tail + 1) % WORDS) == Avail(head, tail) - 1
  {
  }

  lemma HeadStep(head: nat, tail: nat)
    requires head < WORDS && tail < WORDS && Avail(head, tail) + 1 < WORDS
    ensures Avail((head + 1) % WORDS, tail) == Avail(head, tail) + 1
  {
  }

  /** Counting on from `tail` past the held bytes gives the position of `head`. */
  lemma HeadPosition(head: nat, tail: nat)
    requires head < WORDS && tail < WORDS
    ensures (tail + Avail(head, tail)) % SIZE == head % SIZE
  {
    if head < tail {
      assert tail + Avail(head, tail) == head + SIZE * 8388608;
      ModAdd(head, 8388608);
    }
  }

  lemma HeldPop(data: seq<Byte>, tail: nat, n: nat)
    requires |data| == SIZE && tail < WORDS && n > 0
    ensures Held(data, tail, n)[0] == data[tail % SIZE] &&
            Held(data, (tail + 1) % WORDS, n - 1) == Held(data, tail, n)[1..]
  {
    var a, b := Held(data, (tail + 1) % WORDS, n - 1), Held(data, tail, n)[1..];
    forall i | 0 <= i < n - 1 ensures a[i] == b[i] {
      StepPosition(tail, i);
      assert a[i] == data[((tail + 1) % WORDS + i) % SIZE] && b[i] == data[(tail + (i + 1)) % SIZE];
    }
    assert Held(data, tail, n)[0] == data[(tail + 0) % SIZE];
  }

  lemma DifferentSlots(tail: nat, i: nat, n: nat)
    requires i < n < SIZE
    ensures (tail + i) % SIZE != (tail + n) % SIZE
  {
  }

  lemma HeldPush(data: seq<Byte>, tail: nat, n: nat, b: Byte)
    requires |data| == SIZE && n < SIZE
    ensures Held(data[(tail + n) % SIZE := b], tail, n + 1) == Held(data, tail, n) + [b]
  {
    var now := data[(tail + n) % SIZE := b];
    var x, y := Held(now, tail, n + 1), Held(data, tail, n) + [b];
    forall i | 0 <= i < n + 1 ensures x[i] == y[i] {
      if i < n { DifferentSlots(tail, i, n); }
    }
  }

  /** What one critical section of pipe_read or pipe_write came to. */
  datatype Turn = Moved(n: nat) | Retry | Stop

  function Min(a: nat, b: nat): nat { if a < b then a else b }

  /** The outcome for a reader that still wants `want` bytes. */
  function ReadOutcome(buf: seq<Byte>, writers: nat, want: nat): Turn {
    if |buf| > 0 then Moved(Min(|buf|, want)) else if writers == 0 then Stop else Retry
  }

  /** The outcome for a writer that still has `want` bytes. */
  function WriteOutcome(buf: seq<Byte>, readers: nat, want: nat): Turn {
    if readers == 0 then Stop else if |buf| < SIZE then Moved(Min(SIZE - |buf|, want)) else Retry
  }

  function Count(t: Turn): nat { if t.Moved? then t.n else 0 }

  /** The world after a reader's turn with outcome t that left `got` with the caller. */
  lemma ReadTurnIsNext(w: World, who: nat, got: seq<Byte>, t: Turn, now: seq<Byte>)
    requires who in w.calls && w.calls[who].Reader? && w.calls[who].st == Busy && |w.calls[who].got| < w.calls[who].len
    requires t.Stop? <==> w.buf == [] && w.writers == 0
    requires t.Retry? <==> w.buf == [] && w.writers > 0
    requires t.Moved? ==> var want := w.calls[who].len - |w.calls[who].got|;
               t.n <= want && t.n <= |w.buf| && (t.n == want || t.n == |w.buf|)
    requires now == w.buf[Count(t)..] && got == w.calls[who].got + w.buf[..Count(t)]
    ensures var c, w1 := w.calls[who], Next(w, Turn_(who));
            w1.buf == now && w1.readers == w.readers && w1.writers == w.writers &&
            w1.calls == w.calls[who := Reader(c.len, got, if t.Stop? then Returned(|got|) else Busy)]
  {
    assert w.buf[0..] == w.buf && w.calls[who].got + w.buf[..0] == w.calls[who].got;
    if t.Retry? { assert w.calls == w.calls[who := w.calls[who]]; }
  }

  lemma ReadIdleIsNext(w: World, who: nat)
    requires who in w.calls && w.calls[who].Reader? && w.calls[who].st == Busy &&
             |w.calls[who].got| < w.calls[who].len && w.buf == []
    ensures var c, w1 := w.calls[who], Next(w, Turn_(who));
            w1.buf == w.buf && w1.readers == w.readers && w1.writers == w.writers &&
            w1.calls == w.calls[who := Reader(c.len, c.got, if w.writers == 0 then Returned(|c.got|) else Busy)]
  {
    hide Next;
    var t, got := if w.writers == 0 then Stop else Retry, w.calls[who].got;
    assert [] == w.buf[Count(t)..] && got == got + w.buf[..Count(t)];
    ReadTurnIsNext(w, who, got, t, []);
  }

  lemma WriteTurnIsNext(w: World, who: nat, t: Turn, now: seq<Byte>)
    requires who in w.calls && w.calls[who].Writer? && w.calls[who].st == Busy &&
             w.calls[who].sent < |w.calls[who].bytes|
    requires |w.buf| <= 512 && (t.Stop? <==> w.readers == 0) && (t.Retry? <==> w.readers > 0 && |w.buf| == 512)
    requires t.Moved? ==> var want := |w.calls[who].bytes| - w.calls[who].sent;
               t.n <= want && |w.buf| + t.n <= 512 && (t.n == want || |w.buf| + t.n == 512)
    requires var c := w.calls[who]; now == w.buf + c.bytes[c.sent..c.sent + Count(t)]
    ensures var c, w1 := w.calls[who], Next(w, Turn_(who));
            w1.buf == now && w1.readers == w.readers && w1.writers == w.writers &&
            w1.calls == w.calls[who := Writer(c.bytes, c.sent + Count(t), if t.Stop? then Returned(-1) else Busy)]
  {
    if t.Retry? { assert w.calls == w.calls[who := w.calls[who]]; }
  }

  class Pipe {
    const data: array<Byte>
    var head: nat
    var tail: nat
    var readers: nat
    var writers: nat

    ghost predicate Valid()
      reads this, data
    {
      data.Length == SIZE && head < WORDS && tail < WORDS && Avail(head, tail) <= SIZE
    }

    ghost function Buffered(): (s: seq<Byte>)
      requires Valid()
      reads this, data
      ensures |s| <= SIZE
    {
      Held(data[..], tail, Avail(head, tail))
    }

    /** The pipe is in the state that world w describes. */
    ghost predicate Shows(w: World)
      reads this, data
    {
      Valid() && w.buf == Buffered() && w.readers == readers && w.writers == writers
    }

    /** pipe_alloc: an empty pipe with one reader and one writer. */
    constructor ()
      ensures Valid() && Buffered() == [] && readers == 1 && writers == 1 && fresh(data)
    {
      data := new Byte[SIZE];
      head, tail, readers, writers := 0, 0, 1, 1;
    }

    /** Move the oldest `take` bytes to `buf` from index n on. */
    method Pull(buf: array<Byte>, n: nat, take: nat)
      requires Valid() && n + take <= buf.Length && buf != data && take <= |Buffered()|
      modifies buf, this`tail
      ensures Valid() && Buffered() == old(Buffered())[take..] && buf[n..n + take] == old(Buffered())[..take]
      ensures buf[..n + take] == old(buf[..n]) + old(Buffered())[..take]
      ensures forall k :: 0 <= k < buf.Length && !(n <= k < n + take) ==> buf[k] == old(buf[k])
    {
      hide Held;
      ghost var held, avail := Buffered(), Avail(head, tail);
      for k := 0 to take
        invariant Valid() && Avail(head, tail) == avail - k && Held(data[..], tail, avail - k) == held[k..]
        invariant buf[n..n + k] == held[..k]
        invariant forall j :: 0 <= j < buf.Length && !(n <= j < n + take) ==> buf[j] == old(buf[j])
      {
        HeldPop(data[..], tail, avail - k);
        TailStep(head, tail);
        buf[n + k] := data[tail % SIZE];
        assert buf[n..n + k + 1] == buf[n..n + k] + [held[k]];
        tail := (tail + 1) % WORDS;
      }
      assert buf[..n + take] == buf[..n] + buf[n..n + take] && buf[..n] == old(buf[..n]);
    }

    /** Append `put` bytes of `buf` from index n on. */
    method Push(buf: array<Byte>, n: nat, put: nat)
      requires Valid() && n + put <= buf.Length && buf != data && |Buffered()| + put <= SIZE
      modifies data, this`head
      ensures Valid() && Buffered() == old(Buffered()) + buf[n..n + put]
    {
      hide Held;
      ghost var held, avail := Buffered(), Avail(head, tail);
      for k := 0 to put
        invariant Valid() && Avail(head, tail) == avail + k && Held(data[..], tail, avail + k) == held + buf[n..n + k]
      {
        HeadPosition(head, tail);
        HeldPush(data[..], tail, avail + k, buf[n + k]);
        HeadStep(head, tail);
        ghost var before := data[..];
        data[head % SIZE] := buf[n + k];
        assert data[..] == before[head % SIZE := buf[n + k]];
        assert held + buf[n..n + k + 1] == held + buf[n..n + k] + [buf[n + k]];
        head := (head + 1) % WORDS;
      }
    }

    /** One critical section of pipe_read with `n` of `len` bytes already in `buf`. */
    method ReadTurn(buf: array<Byte>, n: nat, len: nat, ghost w: World, ghost who: nat) returns (t: Turn)
      requires Valid() && n < len <= buf.Length && buf != data
      requires Shows(w) && who in w.calls && w.calls[who] == Reader(len, buf[..n], Busy)
      modifies buf, this`tail
      ensures Valid()
      ensures t.Stop? <==> old(Buffered()) == [] && writers == 0
      ensures t.Moved? <==> old(Buffered()) != []
      ensures t.Moved? ==> t.n == |old(Buffered())| || t.n == len - n
      ensures t.Moved? ==>
              0 < t.n <= len - n && t.n <= |old(Buffered())| && Buffered() == old(Buffered())[t.n..] &&
                buf[n..n + t.n] == old(Buffered())[..t.n]
      ensures !t.Moved? ==> Buffered() == old(Buffered()) == []
      ensures forall k :: 0 <= k < buf.Length && !(n <= k < n + Count(t)) ==> buf[k] == old(buf[k])
      ensures var w1 := Next(w, Turn_(who));
              Shows(w1) && n + Count(t) <= buf.Length &&
              w1.calls == w.calls[who := Reader(len, buf[..n + Count(t)], if t.Stop? then Returned(n) else Busy)]
    {
      hide Held, Next, Avail;
      ghost var held := Buffered();
      var avail := Avail(head, tail);
      if avail == 0 {
        t := if writers == 0 then Stop else Retry;
        ReadIdleIsNext(w, who);
        return;
      }
      var take := if avail < len - n then avail else len - n;
      Pull(buf, n, take);
      t := Moved(take);
      ReadTurnIsNext(w, who, buf[..n + take], t, held[take..]);
    }

    /** One critical section of pipe_write with `n` of `len` bytes already sent. */
    method WriteTurn(buf: array<Byte>, n: nat, len: nat, ghost w: World, ghost who: nat) returns (t: Turn)
      requires Valid() && n < len <= buf.Length && buf != data
      requires Shows(w) && who in w.calls && w.calls[who] == Writer(buf[..len], n, Busy)
      modifies data, this`head
      ensures Valid()
      ensures t.Stop? <==> readers == 0
      ensures t.Moved? <==> readers > 0 && |old(Buffered())| < 512
      ensures t.Moved? ==> |Buffered()| == 512 || t.n == len - n
      ensures t.Moved? ==> 0 < t.n <= len - n && Buffered() == old(Buffered()) + buf[n..n + t.n]
      ensures !t.Moved? ==> Buffered() == old(Buffered())
      ensures var w1 := Next(w, Turn_(who));
              Shows(w1) && w1.calls ==
                w.calls[who := Writer(buf[..len], n + Count(t), if t.Stop? then Returned(-1) else Busy)]
    {
      hide Held, Next;
      ghost var held, bytes := Buffered(), buf[..len];
      if readers == 0 {
        WriteTurnIsNext(w, who, Stop, held);
        return Stop;
      }
      var avail := (head - tail) % WORDS;
      var space := SIZE - avail;
      if space == 0 {
        WriteTurnIsNext(w, who, Retry, held);
        return Retry;
      }
      var put := if space < len - n then space else len - n;
      Push(buf, n, put);
      t := Moved(put);
      assert bytes[n..n + put] == buf[n..n + put];
      WriteTurnIsNext(w, who, t, held + buf[n..n + put]);
    }
  }

  // ------------------------------------------------------------------
  // Any number of calls in progress, in any interleaving

  datatype Status = Busy | Returned(r: int)

  datatype Call =
    | Reader(len: nat, got: seq<Byte>, st: Status)
    | Writer(bytes: seq<Byte>, sent: nat, st: Status)

  /** A byte and the call that wrote it, or the call that read it. */
  datatype Tagged = Tagged(who: nat, b: Byte)

  datatype World = World(buf: seq<Byte>, readers: nat, writers: nat, calls: map<nat, Call>, written: seq<Tagged>,
    taken: seq<Tagged>)

  datatype Event =
    | Begin(who: nat, call: Call) // a task enters pipe_read or pipe_write
    | Turn_(who: nat)             // one turn of its loop
    | Ends(r: nat, w: nat)        // ends are opened and closed elsewhere

  ghost function Tag(who: nat, s: seq<Byte>): (t: seq<Tagged>)
    ensures |t| == |s| && forall i :: 0 <= i < |s| ==> t[i] == Tagged(who, s[i])
  {
    if s == [] then [] else Tag(who, s[..|s| - 1]) + [Tagged(who, s[|s| - 1])]
  }

  ghost function Untag(t: seq<Tagged>): (s: seq<Byte>)
    ensures |s| == |t| && forall i :: 0 <= i < |t| ==> s[i] == t[i].b
  {
    if t == [] then [] else Untag(t[..|t| - 1]) + [t[|t| - 1].b]
  }

  /** The bytes of one call, in order. */
  ghost function By(t: seq<Tagged>, who: nat): seq<Byte> {
    if t == [] then []
    else By(t[..|t| - 1], who) + if t[|t| - 1].who == who then [t[|t| - 1].b] else []
  }

  lemma BySnoc(t: seq<Tagged>, x: Tagged, c: nat)
    ensures By(t + [x], c) == if x.who == c then By(t, c) + [x.b] else By(t, c)
  {
    assert (t + [x])[..|t|] == t;
  }

  lemma {:induction false} ByConcat(t: seq<Tagged>, who: nat, s: seq<Byte>, c: nat)
    ensures By(t + Tag(who, s), c) == if c == who then By(t, c) + s else By(t, c)
    decreases |s|
  {
    hide By;
    if s == [] {
      assert t + Tag(who, s) == t;
    } else {
      var n := |s| - 1;
      assert t + Tag(who, s) == (t + Tag(who, s[..n])) + [Tagged(who, s[n])];
      hide Tag;
      BySnoc(t + Tag(who, s[..n]), Tagged(who, s[n]), c);
      ByConcat(t, who, s[..n], c);
      assert s == s[..n] + [s[n]];
    }
  }

  lemma UntagConcat(t: seq<Tagged>, who: nat, s: seq<Byte>)
    ensures Untag(t + Tag(who, s)) == Untag(t) + s
  {
  }

  lemma {:induction false} ByAll(t: seq<Tagged>, who: nat)
    requires forall i :: 0 <= i < |t| ==> t[i].who == who
    ensures By(t, who) == Untag(t)
  {
    if t != [] { ByAll(t[..|t| - 1], who); }
  }

  ghost predicate Fresh(c: Call) { c.st == Busy && if c.Reader? then c.got == [] else c.sent == 0 }

  ghost predicate Enabled(w: World, ev: Event) {
    match ev
    case Begin(who, call) => who !in w.calls && Fresh(call)
    case Turn_(who) => who in w.calls && w.calls[who].st == Busy
    case Ends(_, _) => true
  }

  /** A reader takes `n` buffered bytes. */
  ghost function ReaderMoved(w: World, who: nat, n: nat): World
    requires who in w.calls && w.calls[who].Reader? && n <= |w.buf|
  {
    w.(buf := w.buf[n..], calls := w.calls[who := Reader(w.calls[who].len, w.calls[who].got + w.buf[..n], Busy)],
       taken := w.taken + Tag(who, w.buf[..n]))
  }

  /** A writer appends its next `n` bytes. */
  ghost function WriterMoved(w: World, who: nat, n: nat): World
    requires who in w.calls && w.calls[who].Writer? && w.calls[who].sent + n <= |w.calls[who].bytes|
  {
    var call := w.calls[who];
    var chunk := call.bytes[call.sent..call.sent + n];
    w.(buf := w.buf + chunk, calls := w.calls[who := Writer(call.bytes, call.sent + n, Busy)],
      written := w.written + Tag(who, chunk))
  }

  ghost function ReadBy(w: World, who: nat, c: Call): World
    requires c.Reader? && who in w.calls && w.calls[who] == c
  {
    if |c.got| >= c.len then w.(calls := w.calls[who := Reader(c.len, c.got, Returned(|c.got|))])
    else match ReadOutcome(w.buf, w.writers, c.len - |c.got|)
      case Stop => w.(calls := w.calls[who := Reader(c.len, c.got, Returned(|c.got|))])
      case Retry => w
      case Moved(n) => ReaderMoved(w, who, n)
  }

  ghost function WriteBy(w: World, who: nat, c: Call): World
    requires c.Writer? && who in w.calls && w.calls[who] == c
  {
    if c.sent >= |c.bytes| then w.(calls := w.calls[who := Writer(c.bytes, c.sent, Returned(c.sent))])
    else match WriteOutcome(w.buf, w.readers, |c.bytes| - c.sent)
      case Stop => w.(calls := w.calls[who := Writer(c.bytes, c.sent, Returned(-1))])
      case Retry => w
      case Moved(n) => WriterMoved(w, who, n)
  }

  ghost predicate CallOk(w: World, who: nat)
    requires who in w.calls
  {
    var c := w.calls[who];
    if c.Reader? then |c.got| <= c.len && By(w.taken, who) == c.got && By(w.written, who) == [] &&
      (c.st.Returned? ==> c.st.r == |c.got|)
    else
      && c.sent <= |c.bytes| && By(w.written, who) == c.bytes[..c.sent] && By(w.taken, who) == []
      && (c.st.Returned? ==> (c.st.r == |c.bytes| && c.sent == |c.bytes|) || (c.st.r == -1 && c.sent < |c.bytes|))
  }

  /** What was read followed by what is buffered is what was written; each reader
      has its own part of what was read and each writer a prefix of its bytes, in order. */
  ghost predicate Inv(w: World) {
    && |w.buf| <= SIZE && Untag(w.taken) + w.buf == Untag(w.written)
    && (forall c :: c in w.calls ==> CallOk(w, c))
    && (forall i :: 0 <= i < |w.written| ==> w.written[i].who in w.calls)
    && (forall i :: 0 <= i < |w.taken| ==> w.taken[i].who in w.calls)
  }

  ghost function Next(w: World, ev: Event): World
    requires Enabled(w, ev)
  {
    match ev
    case Begin(who, call) => w.(calls := w.calls[who := call])
    case Turn_(who) => if w.calls[who].Reader? then ReadBy(w, who, w.calls[who]) else WriteBy(w, who, w.calls[who])
    case Ends(r, n) => w.(readers := r, writers := n)
  }

  lemma {:induction false} ByNone(t: seq<Tagged>, who: nat)
    requires forall i :: 0 <= i < |t| ==> t[i].who != who
    ensures By(t, who) == []
  {
    if t != [] { ByNone(t[..|t| - 1], who); }
  }

  lemma BeginInv(w: World, who: nat, call: Call)
    requires Inv(w) && who !in w.calls && Fresh(call)
    ensures Inv(w.(calls := w.calls[who := call]))
  {
    var now := w.(calls := w.calls[who := call]);
    ByNone(w.taken, who);
    ByNone(w.written, who);
    forall c | c in now.calls ensures CallOk(now, c) {
      if c != who { assert CallOk(w, c); }
    }
  }

  /** A call's record and its tags in the two histories, after `who` has moved on. */
  lemma OthersOk(w: World, now: World, who: nat, c: nat)
    requires c in w.calls && CallOk(w, c) && c != who && c in now.calls && now.calls[c] == w.calls[c]
    requires By(now.taken, c) == By(w.taken, c) && By(now.written, c) == By(w.written, c)
    ensures CallOk(now, c)
  {
  }

  ghost predicate OnlyChanges(w: World, now: World, who: nat) {
    who in w.calls && now.calls.Keys == w.calls.Keys && forall c :: c in w.calls && c != who ==>
      now.calls[c] == w.calls[c]
  }

  lemma TookInv(w: World, now: World, who: nat, s: seq<Byte>)
    requires Inv(w) && OnlyChanges(w, now, who) && now.taken == w.taken + Tag(who, s) && now.written == w.written
    requires CallOk(now, who) && |now.buf| <= SIZE && Untag(now.taken) + now.buf == Untag(now.written)
    ensures Inv(now)
  {
    hide Untag, By, Tag;
    forall c | c in now.calls ensures CallOk(now, c) {
      if c != who {
        assert c in w.calls.Keys && CallOk(w, c);
        ByConcat(w.taken, who, s, c);
        OthersOk(w, now, who, c);
      }
    }
  }

  lemma WroteInv(w: World, now: World, who: nat, s: seq<Byte>)
    requires Inv(w) && OnlyChanges(w, now, who) && now.written == w.written + Tag(who, s) && now.taken == w.taken
    requires CallOk(now, who) && |now.buf| <= SIZE && Untag(now.taken) + now.buf == Untag(now.written)
    ensures Inv(now)
  {
    hide Untag, By, Tag;
    forall c | c in now.calls ensures CallOk(now, c) {
      if c != who {
        assert c in w.calls.Keys && CallOk(w, c);
        ByConcat(w.written, who, s, c);
        OthersOk(w, now, who, c);
      }
    }
  }

  lemma CallFacts(w: World, who: nat)
    requires Inv(w) && who in w.calls
    ensures CallOk(w, who) && |w.buf| <= SIZE && Untag(w.taken) + w.buf == Untag(w.written)
    ensures w.calls[who].Reader? ==> |w.calls[who].got| <= w.calls[who].len
    ensures w.calls[who].Writer? ==> w.calls[who].sent <= |w.calls[who].bytes|
  {
  }

  lemma ReaderMovedOk(w: World, who: nat, n: nat)
    requires who in w.calls && w.calls[who].Reader? && CallOk(w, who) && w.calls[who].st == Busy
    requires n <= |w.buf| && n <= w.calls[who].len - |w.calls[who].got|
    ensures CallOk(ReaderMoved(w, who, n), who)
  {
    hide By, Tag;
    ByConcat(w.taken, who, w.buf[..n], who);
  }

  lemma ReadMoves(w: World, who: nat, n: nat)
    requires Inv(w) && who in w.calls && w.calls[who].Reader? && w.calls[who].st == Busy
    requires 0 < n <= |w.buf| && n <= w.calls[who].len - |w.calls[who].got|
    ensures Inv(ReaderMoved(w, who, n))
  {
    hide Inv, Untag, By, Tag, CallOk;
    var now := ReaderMoved(w, who, n);
    CallFacts(w, who);
    UntagConcat(w.taken, who, w.buf[..n]);
    assert Untag(w.taken) + w.buf == Untag(w.taken) + w.buf[..n] + w.buf[n..];
    ReaderMovedOk(w, who, n);
    TookInv(w, now, who, w.buf[..n]);
  }

  lemma StatusInv(w: World, who: nat, call: Call)
    requires Inv(w) && who in w.calls && CallOk(w.(calls := w.calls[who := call]), who)
    ensures Inv(w.(calls := w.calls[who := call]))
  {
    var now := w.(calls := w.calls[who := call]);
    hide Untag, By;
    forall c | c in now.calls ensures CallOk(now, c) {
      if c != who {
        assert CallOk(w, c);
        OthersOk(w, now, who, c);
      }
    }
  }

  lemma ReadInv(w: World, who: nat)
    requires Inv(w) && who in w.calls && w.calls[who].Reader? && w.calls[who].st == Busy
    ensures Inv(ReadBy(w, who, w.calls[who]))
  {
    hide Inv, Untag, By, Tag;
    var call := w.calls[who];
    CallFacts(w, who);
    if |call.got| < call.len && w.buf != [] {
      ReadMoves(w, who, Min(|w.buf|, call.len - |call.got|));
    } else if |call.got| >= call.len || w.writers == 0 {
      StatusInv(w, who, Reader(call.len, call.got, Returned(|call.got|)));
    }
  }

  lemma WriterMovedOk(w: World, who: nat, n: nat)
    requires who in w.calls && w.calls[who].Writer? && CallOk(w, who) && w.calls[who].st == Busy
    requires w.calls[who].sent + n <= |w.calls[who].bytes|
    ensures CallOk(WriterMoved(w, who, n), who)
  {
    hide By, Tag;
    var call := w.calls[who];
    var chunk := call.bytes[call.sent..call.sent + n];
    ByConcat(w.written, who, chunk, who);
    assert call.bytes[..call.sent + n] == call.bytes[..call.sent] + chunk;
  }

  lemma WriteMoves(w: World, who: nat, n: nat)
    requires Inv(w) && who in w.calls && w.calls[who].Writer? && w.calls[who].st == Busy
    requires 0 < n <= |w.calls[who].bytes| - w.calls[who].sent && |w.buf| + n <= SIZE
    ensures Inv(WriterMoved(w, who, n))
  {
    hide Inv, Untag, By, Tag, CallOk;
    var now, call := WriterMoved(w, who, n), w.calls[who];
    var chunk := call.bytes[call.sent..call.sent + n];
    CallFacts(w, who);
    UntagConcat(w.written, who, chunk);
    assert Untag(w.taken) + (w.buf + chunk) == (Untag(w.taken) + w.buf) + chunk;
    WriterMovedOk(w, who, n);
    WroteInv(w, now, who, chunk);
  }

  lemma WriteInv(w: World, who: nat)
    requires Inv(w) && who in w.calls && w.calls[who].Writer? && w.calls[who].st == Busy
    ensures Inv(WriteBy(w, who, w.calls[who]))
  {
    hide Inv, Untag, By, Tag;
    var call := w.calls[who];
    CallFacts(w, who);
    if call.sent < |call.bytes| && w.readers > 0 && |w.buf| < SIZE {
      WriteMoves(w, who, Min(SIZE - |w.buf|, |call.bytes| - call.sent));
    } else if call.sent >= |call.bytes| {
      StatusInv(w, who, Writer(call.bytes, call.sent, Returned(call.sent)));
    } else if w.readers == 0 {
      StatusInv(w, who, Writer(call.bytes, call.sent, Returned(-1)));
    }
  }

  lemma StepInv(w: World, ev: Event)
    requires Inv(w) && Enabled(w, ev)
    ensures Inv(Next(w, ev))
  {
    match ev
    case Begin(who, call) => BeginInv(w, who, call);
    case Turn_(who) =>
      hide Inv;
      if w.calls[who].Reader? { ReadInv(w, who); } else { WriteInv(w, who); }
    case Ends(r, n) =>
      forall c | c in w.calls ensures CallOk(Next(w, ev), c) { assert CallOk(w, c); }
  }

  ghost predicate Run(ws: seq<World>, evs: seq<Event>) {
    |ws| == |evs| + 1 && Inv(ws[0]) && forall i :: 0 <= i < |evs| ==>
      Enabled(ws[i], evs[i]) && ws[i + 1] == Next(ws[i], evs[i])
  }

  /** The invariant holds after every prefix of every run. */
  lemma {:induction false} RunInv(ws: seq<World>, evs: seq<Event>, n: nat)
    requires Run(ws, evs) && n <= |evs|
    ensures Inv(ws[n])
  {
    hide Inv, Next;
    if n > 0 {
      RunInv(ws, evs, n - 1);
      assert Enabled(ws[n - 1], evs[n - 1]) && ws[n - 1 + 1] == Next(ws[n - 1], evs[n - 1]);
      StepInv(ws[n - 1], evs[n - 1]);
    }
  }

  /** A reader's turn moves the oldest bytes to it, all there are or all it still wants.
      It returns exactly when it has what it wants, or finds the buffer empty and no
      writer. */
  lemma ReaderTurn(w: World, who: nat)
    requires Inv(w) && Enabled(w, Turn_(who)) && w.calls[who].Reader?
    ensures var c, now := w.calls[who], Next(w, Turn_(who));
            && now.calls.Keys == w.calls.Keys && now.calls[who].Reader? && now.calls[who].len == c.len
            && (forall x :: x in w.calls && x != who ==> now.calls[x] == w.calls[x])
            && now.readers == w.readers && now.writers == w.writers
            && now.calls[who].got + now.buf == c.got + w.buf && c.got <= now.calls[who].got
            && (now.buf == [] || |now.calls[who].got| == c.len)
            && now.calls[who].st ==
               if |c.got| == c.len || (w.buf == [] && w.writers == 0) then Returned(|c.got|) else Busy
  {
    hide Inv, CallOk, Tag, Untag;
    CallFacts(w, who);
    var c := w.calls[who];
    if |c.got| < c.len && w.buf != [] {
      var n := Min(|w.buf|, c.len - |c.got|);
      SplitJoin(c.got, w.buf, n);
      assert Next(w, Turn_(who)) == ReaderMoved(w, who, n);
    }
  }

  lemma SplitJoin(a: seq<Byte>, b: seq<Byte>, n: nat)
    requires n <= |b|
    ensures (a + b[..n]) + b[n..] == a + b && a <= a + b[..n] && |a + b[..n]| == |a| + n
  {
  }

  /** A writer's turn appends its next bytes, all it still has or all that fit into 512,
      if there is a reader.  It fails exactly when there is none and bytes are left to
      send, and returns their number exactly when none are left. */
  lemma WriterTurn(w: World, who: nat)
    requires Inv(w) && Enabled(w, Turn_(who)) && w.calls[who].Writer?
    ensures var c, now := w.calls[who], Next(w, Turn_(who));
            && now.calls.Keys == w.calls.Keys && now.calls[who].Writer? && now.calls[who].bytes == c.bytes
            && (forall x :: x in w.calls && x != who ==> now.calls[x] == w.calls[x])
            && now.readers == w.readers && now.writers == w.writers
            && c.sent <= now.calls[who].sent <= |c.bytes|
            && now.buf == w.buf + c.bytes[c.sent..now.calls[who].sent] && |now.buf| <= 512
            && (w.readers == 0 ==> now.calls[who].sent == c.sent)
            && (w.readers > 0 ==> |now.buf| == 512 || now.calls[who].sent == |c.bytes|)
            && now.calls[who].st == if c.sent == |c.bytes| then Returned(|c.bytes|)
                                    else if w.readers == 0 then Returned(-1) else Busy
  {
    CallFacts(w, who);
    hide Inv, CallOk, Tag, Untag;
  }

  /** A read comes back short exactly when it finds the buffer empty and no writer left
      with bytes still wanted; with bytes in the buffer it gets some. */
  lemma ShortReadIsEof(w: World, who: nat)
    requires Inv(w) && Enabled(w, Turn_(who)) && w.calls[who].Reader?
    ensures var c, d := w.calls[who], Next(w, Turn_(who)).calls[who];
            && (d.st.Returned? && d.st.r < c.len <==> w.buf == [] && w.writers == 0 && |c.got| < c.len)
            && (w.buf != [] && |c.got| < c.len ==> d.Reader? && |c.got| < |d.got| && d.st == Busy)
  {
    CallFacts(w, who);
    hide Inv, CallOk, Tag, Untag;
  }

  /** A write fails exactly when there is no reader left and bytes are still to be sent;
      with a reader and space it sends some. */
  lemma FailedWriteIsBroken(w: World, who: nat)
    requires Inv(w) && Enabled(w, Turn_(who)) && w.calls[who].Writer?
    ensures var c, d := w.calls[who], Next(w, Turn_(who)).calls[who];
            && (d.st == Returned(-1) <==> w.readers == 0 && c.sent < |c.bytes|)
            && (w.readers > 0 && |w.buf| < 512 && c.sent < |c.bytes| ==> d.Writer? && c.sent < d.sent)
  {
    CallFacts(w, who);
    hide Inv, CallOk, Tag, Untag;
  }

  /** With one reader and one writer, the reader has a prefix of the writer's bytes
      and the rest of what was sent is in the buffer. */
  lemma SoleChannel(w: World, r: nat, s: nat)
    requires Inv(w) && r in w.calls && s in w.calls && w.calls[r].Reader? && w.calls[s].Writer?
    requires forall c :: c in w.calls ==> c == r || c == s
    ensures w.calls[r].got + w.buf == w.calls[s].bytes[..w.calls[s].sent] && w.calls[r].got <= w.calls[s].bytes
  {
    assert CallOk(w, r) && CallOk(w, s);
    NotBy(w.written, r);
    NotBy(w.taken, s);
    ByAll(w.written, s);
    ByAll(w.taken, r);
  }

  lemma {:induction false} NotBy(t: seq<Tagged>, who: nat)
    requires By(t, who) == []
    ensures forall i :: 0 <= i < |t| ==> t[i].who != who
  {
    if t != [] { NotBy(t[..|t| - 1], who); }
  }
}
