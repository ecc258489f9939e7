/** Bytes, little-endian words and C strings. */
module ByteSeq {
  type Byte = n: int | 0 <= n < 256

  const WORDS: nat := 0x1_0000_0000 // one past the largest 32-bit word

  function Le32(x: nat): seq<Byte>
    requires x < WORDS
  {
    [x % 256, x / 256 % 256, x / 65536 % 256, x / 16777216]
  }

  function Of32(b: seq<Byte>): (x: nat)
    requires |b| == 4
    ensures x < WORDS
  {
    var b0: int, b1: int, b2: int, b3: int := b[0], b[1], b[2], b[3];
    b0 + 256 * b1 + 65536 * b2 + 16777216 * b3
  }

  /** The little-endian word at `at`. */
  function Word(b: seq<Byte>, at: nat): nat
    requires at + 4 <= |b|
  {
    Of32(b[at..at + 4])
  }

  lemma Le32RoundTrip(x: nat)
    requires x < WORDS
    ensures Of32(Le32(x)) == x
  {
    var y, z := x / 256, x / 65536;
    assert x == 256 * y + x % 256;
    assert z == y / 256 && y == 256 * z + y % 256;
    assert x / 16777216 == z / 256 && z == 256 * (z / 256) + z % 256;
  }

  lemma Of32RoundTrip(b: seq<Byte>)
    requires |b| == 4
    ensures Le32(Of32(b)) == b
  {
    var x := Of32(b);
    var b1: int, b2: int, b3: int := b[1], b[2], b[3];
    assert x / 256 == b1 + 256 * b2 + 65536 * b3;
    assert x / 65536 == b2 + 256 * b3;
    assert x / 16777216 == b[3];
  }

  /** `a` and `b` agree outside the bytes lo..hi. */
  ghost predicate SameExcept(a: seq<Byte>, b: seq<Byte>, lo: int, hi: int) {
    |a| == |b| && forall k :: 0 <= k < |a| && !(lo <= k < hi) ==> a[k] == b[k]
  }

  lemma SameSlice(a: seq<Byte>, b: seq<Byte>, lo: int, hi: int, i: int, j: int)
    requires SameExcept(a, b, lo, hi) && 0 <= i <= j <= |a| && (j <= lo || hi <= i)
    ensures a[i..j] == b[i..j]
  {
  }

  // ------------------------------------------------------------------
  // C strings

  ghost predicate NoNul(s: seq<Byte>) { forall i :: 0 <= i < |s| ==> s[i] != 0 }

  /** The bytes before the first NUL. */
  function CStr(b: seq<Byte>): (s: seq<Byte>)
    ensures |s| <= |b| && s == b[..|s|] && NoNul(s)
    ensures |s| < |b| ==> b[|s|] == 0
  {
    if b == [] || b[0] == 0 then [] else [b[0]] + CStr(b[1..])
  }

  lemma {:induction false} CStrIs(b: seq<Byte>, n: nat)
    requires n <= |b| && NoNul(b[..n]) && (n < |b| ==> b[n] == 0)
    ensures CStr(b) == b[..n]
  {
    if n > 0 {
      assert b[..n][0] == b[0];
      assert b[1..][..n - 1] == b[..n][1..];
      CStrIs(b[1..], n - 1);
    }
  }
}
