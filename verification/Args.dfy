/** elf_push_args of kernel/elf.c: argc and argv laid out on the initial user
    stack page, and what a program reads back from it. */
module Args {
  import opened ByteSeq

  const PAGE: nat := 4096
  const BASE: nat := 0xBFFFF000 // USER_STACK_VBASE

  // Memory is the stack page and the 12 bytes below it, the furthest that the
  // function can reach; indices count from there.
  const BELOW: nat := 12
  const ORIGIN: nat := BASE - BELOW
  const LAST: nat := BELOW + 4095
  const LOW: nat := BELOW + 64

  /** Where string `i` would start: strings `i` and on, with their NULs, end at LAST. */
  ghost function Top(args: seq<seq<Byte>>, i: nat): (t: int)
    requires i <= |args|
    ensures t <= LAST
    decreases |args| - i
  {
    if i == |args| then LAST else Top(args, i + 1) - |args[i]| - 1
  }

  /** argc after the string loop has come down to `i`: the first string that would
      start below LOW stops it. */
  ghost function Argc(args: seq<seq<Byte>>, i: nat): (n: nat)
    requires i <= |args|
    ensures n <= |args|
  {
    if i == 0 then |args| else if Top(args, i - 1) < LOW then i - 1 else Argc(args, i - 1)
  }

  function Align(x: int): int
    requires x >= 0
  {
    x / 4 * 4
  }

  function Max(a: int, b: int): int { if a > b then a else b }

  /** Bytes of all strings with their NULs. */
  ghost function Total(args: seq<seq<Byte>>): nat { LAST - Top(args, 0) }

  /** Room for everything on the page. */
  ghost predicate Fits(args: seq<seq<Byte>>) {
    |args| <= 15 && Total(args) <= 4095 - Max(64, 4 * |args| + 16)
  }

  lemma {:induction false} TopOrder(args: seq<seq<Byte>>, i: nat, j: nat)
    requires i <= j <= |args|
    ensures Top(args, i) <= Top(args, j) && (i < j ==> Top(args, i) + |args[i]| + 1 <= Top(args, j))
    decreases j - i
  {
    if i < j { TopOrder(args, i + 1, j); }
  }

  lemma AlignAtLeast(t: nat, m: nat)
    ensures Align(t) >= 4 * m <==> t >= 4 * m
    ensures Align(t) <= t && Align(t) % 4 == 0
  {
    var q := t / 4;
    assert t == 4 * q + t % 4 && Align(t) == 4 * q;
    if q < m { assert 4 * q + 4 <= 4 * m; }
  }

  /** No string stops the loop exactly when the lowest one starts at LOW or above. */
  lemma {:induction false} ArgcAll(args: seq<seq<Byte>>, i: nat)
    requires i <= |args|
    ensures Argc(args, i) == |args| <==> i == 0 || Top(args, 0) >= LOW
  {
    if i > 0 {
      TopOrder(args, 0, i - 1);
      ArgcAll(args, i - 1);
    }
  }

  /** The bound is exact: it holds just when no string stops the loop and the words
      below the strings stay inside the page. */
  lemma FitsExactly(args: seq<seq<Byte>>)
    requires |args| <= 15
    ensures Fits(args) <==> Argc(args, |args|) == |args| && Align(Max(0, Top(args, 0))) - 4 * |args| - 16 >= BELOW
  {
    ArgcAll(args, |args|);
    if Top(args, 0) >= 0 { AlignAtLeast(Top(args, 0), |args| + 7); }
  }

  /** Three strings of which the middle one does not fit: argc is 1, and the one
      pointer is what the array held. */
  lemma MiddleTooLong(x: seq<Byte>, y: seq<Byte>, z: seq<Byte>)
    requires |y| == |z| == 2040
    ensures Argc([x, y, z], 3) == 1 && !Fits([x, y, z])
  {
    var args := [x, y, z];
    assert Top(args, 3) == LAST && Top(args, 2) == LAST - 2041 && Top(args, 1) == LAST - 4082;
    FitsExactly(args);
  }

  /** A program that starts with stack pointer `esp` on this page finds a zero
      return address, argc, and a NULL-terminated argv with these strings. */
  ghost predicate Reads(mem: seq<Byte>, esp: nat, args: seq<seq<Byte>>) {
    && 0xBFFF_F000 <= esp && Framed(mem, esp, |args|)
    && forall i :: 0 <= i < |args| ==> ArgAt(mem, esp, i, args[i])
  }

  /** At `esp`: a zero return address, argc, the address of argv, and a NULL behind
      argc pointers. */
  ghost predicate Framed(mem: seq<Byte>, esp: nat, argc: nat) {
    && |mem| == BELOW + PAGE && esp % 4 == 0 && ORIGIN <= esp && esp - ORIGIN + 16 + 4 * argc <= |mem|
    && Word(mem, esp - ORIGIN) == 0 && Word(mem, esp - ORIGIN + 4) == argc && Word(mem, esp - ORIGIN + 8) == esp + 12
    && Word(mem, esp - ORIGIN + 12 + 4 * argc) == 0
  }

  /** argv[i] points to `s`. */
  ghost predicate ArgAt(mem: seq<Byte>, esp: nat, i: nat, s: seq<Byte>) {
    ORIGIN <= esp && esp - ORIGIN + 16 + 4 * i <= |mem| && StringAt(mem, Word(mem, esp - ORIGIN + 12 + 4 * i), s)
  }

  ghost predicate StringAt(mem: seq<Byte>, p: nat, s: seq<Byte>) {
    0xBFFF_F000 <= p && p - ORIGIN + |s| < |mem| && CStr(mem[p - ORIGIN..]) == s
  }

  /** The strings from `i` on are in place. */
  ghost predicate Placed(mem: seq<Byte>, args: seq<seq<Byte>>, i: nat) {
    forall j :: i <= j < |args| ==> PlacedAt(mem, Top(args, j), args[j])
  }

  ghost predicate PlacedAt(mem: seq<Byte>, t: int, s: seq<Byte>) {
    0 <= t && t + |s| < |mem| && mem[t..t + |s|] == s && mem[t + |s|] == 0
  }

  lemma PlacedKept(a: seq<Byte>, b: seq<Byte>, args: seq<seq<Byte>>, i: nat, hi: int)
    requires Placed(a, args, i) && i <= |args| && SameExcept(a, b, 0, hi) && hi <= Top(args, i)
    ensures Placed(b, args, i)
  {
    forall j | i <= j < |args| ensures PlacedAt(b, Top(args, j), args[j]) {
      TopOrder(args, i, j);
      assert PlacedAt(a, Top(args, j), args[j]);
      SameSlice(a, b, 0, hi, Top(args, j), Top(args, j) + |args[j]|);
    }
  }

  lemma PlacedNone(mem: seq<Byte>, args: seq<seq<Byte>>)
    ensures Placed(mem, args, |args|)
  {
  }

  lemma PlacedNext(mem: seq<Byte>, args: seq<seq<Byte>>, i: nat)
    requires i < |args| && Placed(mem, args, i + 1) && PlacedAt(mem, Top(args, i), args[i])
    ensures Placed(mem, args, i)
  {
  }

  lemma PlacedReads(mem: seq<Byte>, t: int, s: seq<Byte>)
    requires PlacedAt(mem, t, s) && NoNul(s)
    ensures CStr(mem[t..]) == s
  {
    assert mem[t..][..|s|] == s;
    CStrIs(mem[t..], |s|);
  }

  /** Store a word. */
  method PutWord(mem: array<Byte>, at: nat, x: nat)
    requires at + 4 <= mem.Length && x < WORDS
    modifies mem
    ensures SameExcept(old(mem[..]), mem[..], at, at + 4) && Word(mem[..], at) == x
  {
    Le32RoundTrip(x);
    var b := Le32(x);
    hide Le32, Of32;
    forall k | 0 <= k < 4 { mem[at + k] := b[k]; }
    assert mem[..][at..at + 4] == b;
  }

  /** Copy one string with its NUL. */
  method PutString(mem: array<Byte>, at: nat, s: seq<Byte>)
    requires at + |s| < mem.Length
    modifies mem
    ensures SameExcept(old(mem[..]), mem[..], at, at + |s| + 1) && PlacedAt(mem[..], at, s)
  {
    for j := 0 to |s|
      invariant SameExcept(old(mem[..]), mem[..], at, at + |s| + 1) && mem[at..at + j] == s[..j]
    {
      mem[at + j] := s[j];
      assert mem[at..at + j + 1] == mem[at..at + j] + [s[j]];
    }
    mem[at + |s|] := 0;
    assert mem[..][at..at + |s|] == mem[at..at + |s|];
  }

  /** The string loop; `junk` is what the pointer array holds before it is written. */
  method PutStrings(mem: array<Byte>, args: seq<seq<Byte>>, junk: seq<nat>)
      returns (top: nat, vaddrs: seq<nat>, argc: nat)
    requires mem.Length == BELOW + PAGE && |args| <= |junk|
    modifies mem
    ensures argc == Argc(args, |args|) && LOW <= top <= LAST && |vaddrs| == |junk|
    ensures var lo := if argc == |args| then 0 else argc + 1; top == Top(args, lo) && Placed(mem[..], args, lo)
    ensures forall j :: 0 <= j < argc ==> vaddrs[j] == if argc == |args| then ORIGIN + Top(args, j) else junk[j]
  {
    hide Placed, SameExcept, PlacedAt;
    PlacedNone(mem[..], args);
    var i := |args|;
    top, vaddrs, argc := LAST, junk, |args|;
    while i > 0
      invariant 0 <= i <= |args| && LOW <= top == Top(args, i) && Placed(mem[..], args, i)
      invariant |vaddrs| == |junk| && argc == |args| && Argc(args, |args|) == Argc(args, i)
      invariant forall j :: 0 <= j < |args| ==> vaddrs[j] == if i <= j then ORIGIN + Top(args, j) else junk[j]
    {
      var s := args[i - 1];
      ghost var before := mem[..];
      assert Top(args, i - 1) == top - (|s| + 1);
      i := i - 1;
      if top - (|s| + 1) < LOW {
        argc := i;
        break;
      }
      top := top - (|s| + 1);
      PutString(mem, top, s);
      SameDown(before, mem[..], top, top + |s| + 1);
      PlacedKept(before, mem[..], args, i + 1, top + |s| + 1);
      PlacedNext(mem[..], args, i);
      vaddrs := vaddrs[i := ORIGIN + top];
    }
  }

  lemma WordKept(a: seq<Byte>, b: seq<Byte>, lo: int, hi: int, at: nat)
    requires SameExcept(a, b, lo, hi) && hi <= at && at + 4 <= |a|
    ensures Word(b, at) == Word(a, at)
  {
    SameSlice(a, b, lo, hi, at, at + 4);
  }

  /** The pointers `j` and on are in place below the NULL at `end`. */
  ghost predicate Pointed(mem: seq<Byte>, end: nat, vaddrs: seq<nat>, i: nat) {
    && i <= |vaddrs| && 4 * |vaddrs| <= end && end + 4 <= |mem| && Word(mem, end) == 0
    && forall j {:trigger vaddrs[j]} :: i <= j < |vaddrs| ==> Word(mem, end - 4 * (|vaddrs| - j)) == vaddrs[j]
  }

  lemma PointedKept(a: seq<Byte>, b: seq<Byte>, end: nat, vaddrs: seq<nat>, i: nat, lo: int, hi: int)
    requires Pointed(a, end, vaddrs, i) && SameExcept(a, b, lo, hi) && hi <= end - 4 * (|vaddrs| - i)
    ensures Pointed(b, end, vaddrs, i)
  {
    WordKept(a, b, lo, hi, end);
    forall j {:trigger vaddrs[j]} | i <= j < |vaddrs| ensures Word(b, end - 4 * (|vaddrs| - j)) == vaddrs[j] {
      WordKept(a, b, lo, hi, end - 4 * (|vaddrs| - j));
    }
  }

  /** The pointer array, NULL first, downwards from `end`. */
  method PutPointers(mem: array<Byte>, end: nat, vaddrs: seq<nat>) returns (top: nat)
    requires mem.Length == BELOW + PAGE && 4 * |vaddrs| <= end && end + 4 <= BELOW + PAGE && forall j ::
             0 <= j < |vaddrs| ==> vaddrs[j] < WORDS
    modifies mem
    ensures top == end - 4 * |vaddrs| && Pointed(mem[..], end, vaddrs, 0) &&
            SameExcept(old(mem[..]), mem[..], 0, end + 4)
  {
    hide Word;
    PutWord(mem, end, 0);
    SameDown(old(mem[..]), mem[..], end, end + 4);
    top := end;
    var i := |vaddrs|;
    while i > 0
      invariant 0 <= i <= |vaddrs| && top == end - 4 * (|vaddrs| - i) && Pointed(mem[..], end, vaddrs, i)
      invariant SameExcept(old(mem[..]), mem[..], 0, end + 4)
    {
      ghost var before := mem[..];
      i := i - 1;
      top := top - 4;
      PutWord(mem, top, vaddrs[i]);
      PointedKept(before, mem[..], end, vaddrs, i + 1, top, top + 4);
    }
  }

  /** elf_push_args. */
  method PushArgs(mem: array<Byte>, argv: seq<seq<Byte>>, junk: seq<nat>) returns (esp: nat)
    requires mem.Length == BELOW + PAGE && (forall i :: 0 <= i < |argv| ==> NoNul(argv[i]))
    requires |junk| == 15 && forall j :: 0 <= j < 15 ==> junk[j] < WORDS
    modifies mem
    ensures var args := if |argv| > 15 then argv[..15] else argv;
            Pushed(mem[..], esp, args, junk) && (Reads(mem[..], esp, args) <==> Fits(args))
  {
    esp := PushAll(mem, if |argv| > 15 then argv[..15] else argv, junk);
  }

  /** What is on the stack for any arguments: if a string did not fit, argc is its
      index and the pointers are whatever the array held. */
  ghost predicate Pushed(mem: seq<Byte>, esp: nat, args: seq<seq<Byte>>, junk: seq<nat>)
    requires |args| <= |junk|
  {
    var argc := Argc(args, |args|);
    Framed(mem, esp, argc) &&
    forall j :: 0 <= j < argc ==> PointerAt(mem, esp, j, if argc == |args| then ORIGIN + Top(args, j) else junk[j])
  }

  ghost predicate PointerAt(mem: seq<Byte>, esp: nat, j: nat, v: int) {
    ORIGIN <= esp && esp - ORIGIN + 16 + 4 * j <= |mem| && Word(mem, esp - ORIGIN + 12 + 4 * j) == v
  }

  method PushAll(mem: array<Byte>, args: seq<seq<Byte>>, junk: seq<nat>) returns (esp: nat)
    requires mem.Length == BELOW + PAGE && |args| <= 15 && (forall i :: 0 <= i < |args| ==> NoNul(args[i]))
    requires |junk| == 15 && forall j :: 0 <= j < 15 ==> junk[j] < WORDS
    modifies mem
    ensures Pushed(mem[..], esp, args, junk) && (Reads(mem[..], esp, args) <==> Fits(args))
  {
    hide Word, Fits, CStr, SameExcept, Placed, Pointed, Top, Align, Reads, Pushed, Argc, NoNul;
    var top, vaddrs, argc := PutStrings(mem, args, junk);
    AlignAtLeast(top, 19);
    ghost var lo := if argc == |args| then 0 else argc + 1;
    var end := Align(top) - 4;
    ghost var strings := mem[..];
    vaddrs := vaddrs[..argc];
    var p := PutPointers(mem, end, vaddrs);
    PlacedKept(strings, mem[..], args, lo, end + 4);
    ghost var a := mem[..];
    PutFrame(mem, p, argc);
    esp := ORIGIN + p - 12;
    PointedKept(a, mem[..], end, vaddrs, 0, 0, p);
    PlacedKept(a, mem[..], args, lo, p);
    PushedIs(mem[..], esp, end, vaddrs, args, junk);
    ReadsExactly(mem[..], esp, args, junk);
  }

  /** The argv pointer, argc and a zero return address below `p`. */
  method PutFrame(mem: array<Byte>, p: nat, argc: nat)
    requires mem.Length == BELOW + PAGE && 12 <= p <= BELOW + PAGE && argc < WORDS
    modifies mem
    ensures SameExcept(old(mem[..]), mem[..], 0, p)
    ensures Word(mem[..], p - 4) == ORIGIN + p && Word(mem[..], p - 8) == argc && Word(mem[..], p - 12) == 0
  {
    hide Word, SameExcept;
    ghost var a := mem[..];
    PutWord(mem, p - 4, ORIGIN + p);
    ghost var b := mem[..];
    PutWord(mem, p - 8, argc);
    ghost var c := mem[..];
    PutWord(mem, p - 12, 0);
    WordKept(b, c, p - 8, p - 4, p - 4);
    WordKept(c, mem[..], p - 12, p - 8, p - 4);
    WordKept(c, mem[..], p - 12, p - 8, p - 8);
    SameThree(a, b, c, mem[..], p);
  }

  lemma SameThree(a: seq<Byte>, b: seq<Byte>, c: seq<Byte>, d: seq<Byte>, p: int)
    requires 12 <= p && SameExcept(a, b, p - 4, p) && SameExcept(b, c, p - 8, p - 4) && SameExcept(c, d, p - 12, p - 8)
    ensures SameExcept(a, d, 0, p)
  {
  }

  lemma PushedIs(mem: seq<Byte>, esp: nat, end: nat, vaddrs: seq<nat>, args: seq<seq<Byte>>, junk: seq<nat>)
    requires |mem| == BELOW + PAGE && ORIGIN <= esp && esp % 4 == 0 && |args| <= |junk| &&
             |vaddrs| == Argc(args, |args|)
    requires end == esp - ORIGIN + 12 + 4 * |vaddrs| && end + 4 <= |mem| && Pointed(mem, end, vaddrs, 0)
    requires Word(mem, esp - ORIGIN) == 0 && Word(mem, esp - ORIGIN + 4) == |vaddrs| &&
             Word(mem, esp - ORIGIN + 8) == esp + 12
    requires forall j :: 0 <= j < |vaddrs| ==>
             vaddrs[j] == if |vaddrs| == |args| then ORIGIN + Top(args, j) else junk[j]
    ensures Pushed(mem, esp, args, junk)
  {
    hide Word, Top, Argc;
    assert Word(mem, end) == 0;
    forall j | 0 <= j < |vaddrs|
      ensures PointerAt(mem, esp, j, if |vaddrs| == |args| then ORIGIN + Top(args, j) else junk[j])
    {
      assert Word(mem, end - 4 * (|vaddrs| - j)) == vaddrs[j];
      assert end - 4 * (|vaddrs| - j) == esp - ORIGIN + 12 + 4 * j;
    }
  }

  /** The program reads its arguments back if and only if they fit. */
  lemma ReadsExactly(mem: seq<Byte>, esp: nat, args: seq<seq<Byte>>, junk: seq<nat>)
    requires |args| <= 15 <= |junk| && (forall i :: 0 <= i < |args| ==> NoNul(args[i])) && Pushed(mem, esp, args, junk)
    requires var argc := Argc(args, |args|);
             var lo := if argc == |args| then 0 else argc + 1;
             LOW <= Top(args, lo) && esp == ORIGIN + Align(Top(args, lo)) - 16 - 4 * argc && Placed(mem, args, lo)
    ensures Reads(mem, esp, args) <==> Fits(args)
  {
    FitsExactly(args);
    ArgcAll(args, |args|);
    hide Word, CStr, NoNul, Top, Argc, Fits, Align;
    if Fits(args) {
      forall i | 0 <= i < |args| ensures ArgAt(mem, esp, i, args[i]) {
        assert PlacedAt(mem, Top(args, i), args[i]);
        TopOrder(args, 0, i);
        ReadsArg(mem, esp, i, args, junk);
      }
    }
  }

  lemma ReadsArg(mem: seq<Byte>, esp: nat, i: nat, args: seq<seq<Byte>>, junk: seq<nat>)
    requires |args| <= |junk| && i < |args| == Argc(args, |args|) && Pushed(mem, esp, args, junk)
    requires PlacedAt(mem, Top(args, i), args[i]) && NoNul(args[i]) && Top(args, i) >= BELOW
    ensures ArgAt(mem, esp, i, args[i])
  {
    hide Word, CStr, NoNul, Top, Argc;
    assert PointerAt(mem, esp, i, ORIGIN + Top(args, i));
    PlacedReads(mem, Top(args, i), args[i]);
  }

  lemma SameDown(a: seq<Byte>, b: seq<Byte>, lo: int, hi: int)
    requires SameExcept(a, b, lo, hi) && 0 <= lo
    ensures SameExcept(a, b, 0, hi)
  {
  }
}
