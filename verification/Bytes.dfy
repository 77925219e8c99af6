/** Bytes, and the 32-bit words the wire and the image header spell with them. */
module Bytes {

  type Byte = b: int | 0 <= b < 256

  const WORD := 0x1_0000_0000

  type U32 = n: int | 0 <= n < WORD

  /** The low byte of a number, as a C cast to `u8` gives it. */
  function Low(n: nat): Byte {
    n % 256
  }

  function Quad(b0: Byte, b1: Byte, b2: Byte, b3: Byte): U32
  {
    b0 + 0x100 * b1 + 0x1_0000 * b2 + 0x100_0000 * b3
  }

  /** A word stored least significant byte first (image header, CRC trailer). */
  function Le32(b: seq<Byte>): U32
    requires |b| == 4
  {
    Quad(b[0], b[1], b[2], b[3])
  }

  /** A word sent most significant byte first (both OTA protocols). */
  function Be32(b: seq<Byte>): U32
    requires |b| == 4
  {
    Quad(b[3], b[2], b[1], b[0])
  }

  function ToLe32(n: nat): (b: seq<Byte>)
    ensures |b| == 4
  {
    [Low(n), Low(n / 0x100), Low(n / 0x1_0000), Low(n / 0x100_0000)]
  }

  lemma Quotients(n: nat)
    ensures n / 0x1_0000 == n / 0x100 / 0x100
    ensures n / 0x100_0000 == n / 0x1_0000 / 0x100
  {
  }

  lemma QuadRoundTrip(n: nat)
    requires n < WORD
    ensures Quad(Low(n), Low(n / 0x100), Low(n / 0x1_0000), Low(n / 0x100_0000)) == n
  {
    var q1, q2, q3 := n / 0x100, n / 0x1_0000, n / 0x100_0000;
    Quotients(n);
    assert q3 % 0x100 == q3;
    assert n == 0x100 * q1 + n % 0x100;
    assert q1 == 0x100 * q2 + q1 % 0x100;
    assert q2 == 0x100 * q3 + q2 % 0x100;
  }

  lemma Le32RoundTrip(n: nat)
    requires n < WORD
    ensures Le32(ToLe32(n)) == n
  {
    QuadRoundTrip(n);
  }

  function ToBe32(n: nat): (b: seq<Byte>)
    ensures |b| == 4
  {
    [Low(n / 0x100_0000), Low(n / 0x1_0000), Low(n / 0x100), Low(n)]
  }

  lemma Be32RoundTrip(n: nat)
    requires n < WORD
    ensures Be32(ToBe32(n)) == n
  {
    QuadRoundTrip(n);
  }

  lemma SliceOfSlice<T>(s: seq<T>, a: nat, b: nat, lo: nat, hi: nat)
    requires a <= b <= |s| && lo <= hi <= b - a
    ensures s[a..b][lo..hi] == s[a + lo..a + hi]
  {
    var x, y := s[a..b][lo..hi], s[a + lo..a + hi];
    forall k | 0 <= k < hi - lo
      ensures x[k] == y[k]
    {
    }
  }

  lemma DropSlice<T>(s: seq<T>, a: nat, lo: nat, hi: nat)
    requires a <= |s| && lo <= hi <= |s| - a
    ensures s[a..][lo..hi] == s[a + lo..a + hi]
  {
    assert s[a..] == s[a..|s|];
    SliceOfSlice(s, a, |s|, lo, hi);
  }

  lemma SliceJoin<T>(s: seq<T>, a: nat, b: nat, c: nat)
    requires a <= b <= c <= |s|
    ensures s[a..b] + s[b..c] == s[a..c]
  {
    var x, y := s[a..b] + s[b..c], s[a..c];
    forall k | 0 <= k < c - a
      ensures x[k] == y[k]
    {
    }
  }

  // ---------------------------------------------------------------- bitwise and

  function And(a: nat, b: nat): (r: nat)
    ensures r <= a && r <= b
    decreases a
  {
    if a == 0 || b == 0 then 0
    else 2 * And(a / 2, b / 2) + (if a % 2 == 1 && b % 2 == 1 then 1 else 0)
  }

  function Ones(n: nat): nat {
    if n == 0 then 0 else 2 * Ones(n - 1) + 1
  }

  lemma {:induction false} AndOnes(a: nat, n: nat)
    requires a <= Ones(n)
    ensures And(a, Ones(n)) == a && And(Ones(n), a) == a
    decreases n
  {
    if n > 0 && a > 0 {
      assert Ones(n) / 2 == Ones(n - 1);
      AndOnes(a / 2, n - 1);
    }
  }

  /** Programming over a blank byte stores the data; storing 0xFF changes nothing. */
  lemma AndBlank(a: Byte)
    ensures And(a, 0xFF) == a && And(0xFF, a) == a
  {
    assert Ones(8) == 0xFF;
    AndOnes(a, 8);
  }
}
