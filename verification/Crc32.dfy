/** The CRC-32 the bootloader, the HCI handler and the image patcher share: a byte step
    folded over the data, starting from all ones and without a final inversion. Every
    result here holds whatever the byte step is. */
module Crc32 {
  import opened Bytes

  const INIT: U32 := 0xFFFF_FFFF

  type ByteStep = (U32, Byte) -> U32

  function Fold(step: ByteStep, s: seq<Byte>, crc: U32): U32
    decreases |s|
  {
    if s == [] then crc else Fold(step, s[1..], step(crc, s[0]))
  }

  /** What makes every chunked computation of this CRC agree with one pass. */
  lemma {:induction false} FoldConcat(step: ByteStep, a: seq<Byte>, b: seq<Byte>, crc: U32)
    ensures Fold(step, a + b, crc) == Fold(step, b, Fold(step, a, crc))
    decreases |a|
  {
    if a == [] {
      assert a + b == b;
    } else {
      assert (a + b)[1..] == a[1..] + b;
      FoldConcat(step, a[1..], b, step(crc, a[0]));
    }
  }

  /** `xcrc32`: the caller passes the running value, the loop consumes `buf`. */
  method Xcrc32(step: ByteStep, buf: seq<Byte>, init: U32) returns (crc: U32)
    ensures crc == Fold(step, buf, init)
  {
    crc := init;
    var k := 0;
    while k < |buf|
      invariant 0 <= k <= |buf|
      invariant Fold(step, buf, init) == Fold(step, buf[k..], crc)
    {
      assert buf[k..][1..] == buf[k + 1..];
      crc := step(crc, buf[k]);
      k := k + 1;
    }
  }
}
