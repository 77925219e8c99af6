/** The table-driven CRC-16 of the programmers, against the bitwise CRC it stands for. */
module Crc16 {

  /** A byte, kept in the width of the CRC. */
  type Octet = b: bv16 | b <= 0xFF

  // ---------------------------------------------------------------- the bitwise definition

  /** One bit of the reflected CRC with polynomial 0xA001. */
  function BitStep(c: bv16): bv16 {
    if c & 1 == 1 then (c >> 1) ^ 0xA001 else c >> 1
  }

  function Bits(c: bv16, n: nat): bv16
    decreases n
  {
    if n == 0 then c else Bits(BitStep(c), n - 1)
  }

  function EightBits(c: bv16): bv16 {
    Bits(c, 8)
  }

  function Step(c: bv16, b: Octet): bv16 {
    EightBits(c ^ b)
  }

  function Crc(s: seq<Octet>, c: bv16): bv16
    decreases |s|
  {
    if s == [] then c else Crc(s[1..], Step(c, s[0]))
  }

  // ---------------------------------------------------------------- the table

  function Pick8(i: bv16, t0: bv16, t1: bv16, t2: bv16, t3: bv16, t4: bv16, t5: bv16, t6: bv16, t7: bv16): bv16 {
    if i == 0 then t0 else if i == 1 then t1 else if i == 2 then t2 else if i == 3 then t3
    else if i == 4 then t4 else if i == 5 then t5 else if i == 6 then t6 else t7
  }

  /** `crctable`, row by row. */
  function Table(i: Octet): bv16 {
    if i < 0x08 then Pick8(i & 7, 0x0000, 0xC0C1, 0xC181, 0x0140, 0xC301, 0x03C0, 0x0280, 0xC241)
    else if i < 0x10 then Pick8(i & 7, 0xC601, 0x06C0, 0x0780, 0xC741, 0x0500, 0xC5C1, 0xC481, 0x0440)
    else if i < 0x18 then Pick8(i & 7, 0xCC01, 0x0CC0, 0x0D80, 0xCD41, 0x0F00, 0xCFC1, 0xCE81, 0x0E40)
    else if i < 0x20 then Pick8(i & 7, 0x0A00, 0xCAC1, 0xCB81, 0x0B40, 0xC901, 0x09C0, 0x0880, 0xC841)
    else if i < 0x28 then Pick8(i & 7, 0xD801, 0x18C0, 0x1980, 0xD941, 0x1B00, 0xDBC1, 0xDA81, 0x1A40)
    else if i < 0x30 then Pick8(i & 7, 0x1E00, 0xDEC1, 0xDF81, 0x1F40, 0xDD01, 0x1DC0, 0x1C80, 0xDC41)
    else if i < 0x38 then Pick8(i & 7, 0x1400, 0xD4C1, 0xD581, 0x1540, 0xD701, 0x17C0, 0x1680, 0xD641)
    else if i < 0x40 then Pick8(i & 7, 0xD201, 0x12C0, 0x1380, 0xD341, 0x1100, 0xD1C1, 0xD081, 0x1040)
    else if i < 0x48 then Pick8(i & 7, 0xF001, 0x30C0, 0x3180, 0xF141, 0x3300, 0xF3C1, 0xF281, 0x3240)
    else if i < 0x50 then Pick8(i & 7, 0x3600, 0xF6C1, 0xF781, 0x3740, 0xF501, 0x35C0, 0x3480, 0xF441)
    else if i < 0x58 then Pick8(i & 7, 0x3C00, 0xFCC1, 0xFD81, 0x3D40, 0xFF01, 0x3FC0, 0x3E80, 0xFE41)
    else if i < 0x60 then Pick8(i & 7, 0xFA01, 0x3AC0, 0x3B80, 0xFB41, 0x3900, 0xF9C1, 0xF881, 0x3840)
    else if i < 0x68 then Pick8(i & 7, 0x2800, 0xE8C1, 0xE981, 0x2940, 0xEB01, 0x2BC0, 0x2A80, 0xEA41)
    else if i < 0x70 then Pick8(i & 7, 0xEE01, 0x2EC0, 0x2F80, 0xEF41, 0x2D00, 0xEDC1, 0xEC81, 0x2C40)
    else if i < 0x78 then Pick8(i & 7, 0xE401, 0x24C0, 0x2580, 0xE541, 0x2700, 0xE7C1, 0xE681, 0x2640)
    else if i < 0x80 then Pick8(i & 7, 0x2200, 0xE2C1, 0xE381, 0x2340, 0xE101, 0x21C0, 0x2080, 0xE041)
    else if i < 0x88 then Pick8(i & 7, 0xA001, 0x60C0, 0x6180, 0xA141, 0x6300, 0xA3C1, 0xA281, 0x6240)
    else if i < 0x90 then Pick8(i & 7, 0x6600, 0xA6C1, 0xA781, 0x6740, 0xA501, 0x65C0, 0x6480, 0xA441)
    else if i < 0x98 then Pick8(i & 7, 0x6C00, 0xACC1, 0xAD81, 0x6D40, 0xAF01, 0x6FC0, 0x6E80, 0xAE41)
    else if i < 0xA0 then Pick8(i & 7, 0xAA01, 0x6AC0, 0x6B80, 0xAB41, 0x6900, 0xA9C1, 0xA881, 0x6840)
    else if i < 0xA8 then Pick8(i & 7, 0x7800, 0xB8C1, 0xB981, 0x7940, 0xBB01, 0x7BC0, 0x7A80, 0xBA41)
    else if i < 0xB0 then Pick8(i & 7, 0xBE01, 0x7EC0, 0x7F80, 0xBF41, 0x7D00, 0xBDC1, 0xBC81, 0x7C40)
    else if i < 0xB8 then Pick8(i & 7, 0xB401, 0x74C0, 0x7580, 0xB541, 0x7700, 0xB7C1, 0xB681, 0x7640)
    else if i < 0xC0 then Pick8(i & 7, 0x7200, 0xB2C1, 0xB381, 0x7340, 0xB101, 0x71C0, 0x7080, 0xB041)
    else if i < 0xC8 then Pick8(i & 7, 0x5000, 0x90C1, 0x9181, 0x5140, 0x9301, 0x53C0, 0x5280, 0x9241)
    else if i < 0xD0 then Pick8(i & 7, 0x9601, 0x56C0, 0x5780, 0x9741, 0x5500, 0x95C1, 0x9481, 0x5440)
    else if i < 0xD8 then Pick8(i & 7, 0x9C01, 0x5CC0, 0x5D80, 0x9D41, 0x5F00, 0x9FC1, 0x9E81, 0x5E40)
    else if i < 0xE0 then Pick8(i & 7, 0x5A00, 0x9AC1, 0x9B81, 0x5B40, 0x9901, 0x59C0, 0x5880, 0x9841)
    else if i < 0xE8 then Pick8(i & 7, 0x8801, 0x48C0, 0x4980, 0x8941, 0x4B00, 0x8BC1, 0x8A81, 0x4A40)
    else if i < 0xF0 then Pick8(i & 7, 0x4E00, 0x8EC1, 0x8F81, 0x4F40, 0x8D01, 0x4DC0, 0x4C80, 0x8C41)
    else if i < 0xF8 then Pick8(i & 7, 0x4400, 0x84C1, 0x8581, 0x4540, 0x8701, 0x47C0, 0x4680, 0x8641)
    else Pick8(i & 7, 0x8201, 0x42C0, 0x4380, 0x8341, 0x4100, 0x81C1, 0x8081, 0x4040)
  }

  // ---------------------------------------------------------------- linearity

  lemma BitLinear(a: bv16, b: bv16, c: bv16) returns (a1: bv16, b1: bv16, c1: bv16)
    requires c == a ^ b
    ensures a1 == BitStep(a) && b1 == BitStep(b) && c1 == BitStep(c) && c1 == a1 ^ b1
  {
    a1, b1, c1 := BitStep(a), BitStep(b), BitStep(c);
    if a & 1 == 1 {
      if b & 1 == 1 {
      }
    } else if b & 1 == 1 {
    }
  }

  lemma {:induction false} BitsLinear(a: bv16, b: bv16, c: bv16, n: nat)
    requires c == a ^ b
    ensures Bits(c, n) == Bits(a, n) ^ Bits(b, n)
    decreases n
  {
    if n > 0 {
      var a1, b1, c1 := BitLinear(a, b, c);
      BitsLinear(a1, b1, c1, n - 1);
    }
  }

  /** The CRC of a difference is the difference of the CRCs. */
  lemma EightLinear(a: bv16, b: bv16, c: bv16)
    requires c == a ^ b
    ensures EightBits(c) == EightBits(a) ^ EightBits(b)
  {
    BitsLinear(a, b, c, 8);
  }

  lemma BitZero(c: bv16)
    ensures BitStep(c) == 0 <==> c == 0
  {
    if c & 1 == 1 {
    }
  }

  lemma {:induction false} BitsZero(c: bv16, n: nat)
    ensures Bits(c, n) == 0 <==> c == 0
    decreases n
  {
    if n > 0 {
      BitZero(c);
      BitsZero(BitStep(c), n - 1);
    }
  }

  /** No polynomial comes in while the low byte is zero. */
  lemma HighShifts(h: bv16)
    requires h & 0xFF == 0
    ensures EightBits(h) == h >> 8
  {
  }

  // ---------------------------------------------------------------- the table is the bitwise step

  /** Every entry is eight bitwise steps from its index. */
  lemma TableIsBitwise(i: Octet)
    ensures Table(i) == EightBits(i)
  {
    if i < 0x40 {
      TableLow(i);
    } else if i < 0x80 {
      TableMiddle(i);
    } else if i < 0xC0 {
      TableUpper(i);
    } else {
      TableHigh(i);
    }
  }

  lemma TableLow(i: Octet)
    requires i < 0x40
    ensures Table(i) == EightBits(i)
  {
  }

  lemma TableMiddle(i: Octet)
    requires 0x40 <= i < 0x80
    ensures Table(i) == EightBits(i)
  {
  }

  lemma TableUpper(i: Octet)
    requires 0x80 <= i < 0xC0
    ensures Table(i) == EightBits(i)
  {
  }

  lemma TableHigh(i: Octet)
    requires 0xC0 <= i
    ensures Table(i) == EightBits(i)
  {
  }

  function Looked(c: bv16, x: bv16): bv16 {
    (c >> 8) ^ Table(x & 0xFF)
  }

  function TableStep(c: bv16, b: Octet): bv16 {
    Looked(c, c ^ b)
  }

  lemma LookedParts(c: bv16, x: bv16, high: bv16, low: Octet)
    requires high ^ low == x && low == x & 0xFF && high & 0xFF == 0 && high >> 8 == c >> 8
    ensures Looked(c, x) == EightBits(x)
  {
    EightLinear(high, low, x);
    HighShifts(high);
    TableIsBitwise(low);
  }

  lemma ByteParts(c: bv16, b: Octet, x: bv16) returns (high: bv16, low: Octet)
    requires x == c ^ b
    ensures high ^ low == x && low == x & 0xFF && high & 0xFF == 0 && high >> 8 == c >> 8
  {
    high, low := x & 0xFF00, x & 0xFF;
  }

  lemma LookedAt(c: bv16, b: Octet, x: bv16)
    requires x == c ^ b
    ensures Looked(c, x) == EightBits(x)
  {
    var high, low := ByteParts(c, b, x);
    LookedParts(c, x, high, low);
  }

  /** One turn of the loop is eight bitwise steps. */
  lemma TableStepIsBitwise(c: bv16, b: Octet)
    ensures TableStep(c, b) == Step(c, b)
  {
    LookedAt(c, b, c ^ b);
  }

  // ---------------------------------------------------------------- what the check catches

  lemma XorZero(a: bv16, b: bv16)
    ensures a ^ b == 0 <==> a == b
  {
  }

  lemma XorSame(c: bv16, d: bv16, b: bv16)
    ensures c ^ b == d ^ b <==> c == d
  {
  }

  /** No two states meet on the same byte. */
  lemma StepInjective(c: bv16, d: bv16, b: Octet)
    ensures Step(c, b) == Step(d, b) <==> c == d
  {
    XorSame(c, d, b);
    SameEight(c ^ b, d ^ b);
  }

  lemma SameEight(x: bv16, y: bv16)
    ensures EightBits(x) == EightBits(y) <==> x == y
  {
    var z := x ^ y;
    EightLinear(x, y, z);
    BitsZero(z, 8);
    XorZero(x, y);
    XorZero(EightBits(x), EightBits(y));
  }

  /** A low byte that is not zero reaches the high byte. */
  lemma LowReachesHigh(i: Octet)
    ensures EightBits(i) <= 0xFF <==> i == 0
  {
    TableIsBitwise(i);
    TableIsWide(i);
  }

  lemma TableIsWide(i: Octet)
    ensures Table(i) <= 0xFF <==> i == 0
  {
  }

  lemma EightZero(x: bv16)
    ensures EightBits(x) == 0 <==> x == 0
  {
    BitsZero(x, 8);
  }

  /** The state two bytes lead to zero from: the low byte first, then the high byte. */
  function Low(c: bv16): Octet {
    c & 0xFF
  }

  function High(c: bv16): Octet {
    c >> 8
  }

  lemma StepZero(c: bv16, b: Octet)
    ensures Step(c, b) == 0 <==> c == b
  {
    EightZero(c ^ b);
    XorZero(c, b);
  }

  lemma SmallAfter(h: bv16, e: bv16, b: Octet)
    requires h <= 0xFF
    ensures e <= 0xFF <==> h ^ e <= 0xFF
    ensures e == 0 ==> h ^ e == h
  {
  }

  lemma LowMatches(c: bv16, b: Octet, x: bv16, high: bv16, low: Octet)
    requires x == c ^ b && high ^ low == x && low == x & 0xFF && high & 0xFF == 0 && high >> 8 == c >> 8
    ensures low == 0 <==> b == Low(c)
    ensures high >> 8 == High(c) <= 0xFF
  {
  }

  /** After one byte the state fits a byte exactly if that byte was the state's low one, and
      then the state's high byte is left. */
  lemma OneByteLeft(c: bv16, b: Octet)
    ensures Step(c, b) <= 0xFF <==> b == Low(c)
    ensures b == Low(c) ==> Step(c, b) == High(c)
  {
    OneByteLeftAt(c, b, c ^ b);
  }

  lemma OneByteLeftAt(c: bv16, b: Octet, x: bv16)
    requires x == c ^ b
    ensures EightBits(x) <= 0xFF <==> b == Low(c)
    ensures b == Low(c) ==> EightBits(x) == High(c)
  {
    var high, low := ByteParts(c, b, x);
    LowMatches(c, b, x, high, low);
    EightLinear(high, low, x);
    HighShifts(high);
    LowReachesHigh(low);
    EightZero(low);
    SmallAfter(high >> 8, EightBits(low), b);
  }

  lemma TwoBytesLeft(c: bv16, b0: Octet, b1: Octet)
    ensures Step(Step(c, b0), b1) == 0 <==> b0 == Low(c) && b1 == High(c)
  {
    StepZero(Step(c, b0), b1);
    OneByteLeft(c, b0);
  }

  // ---------------------------------------------------------------- messages

  const INIT: bv16 := 0xFFFF

  function CrcBytes(c: bv16): seq<Octet> {
    [Low(c), High(c)]
  }

  /** `crc16(data, length)`, with a length that may be negative. */
  method Crc16(data: seq<Octet>, length: int) returns (r: seq<Octet>)
    requires length <= |data|
    ensures r == CrcBytes(Crc(data[..if length < 0 then 0 else length], INIT))
  {
    var crc: bv16 := INIT;
    var i := 0;
    ghost var n: nat := if length < 0 then 0 else length;
    while i < length
      invariant 0 <= i <= n
      invariant Crc(data[..n], INIT) == Crc(data[i..n], crc)
    {
      TableStepIsBitwise(crc, data[i]);
      assert data[i..n][1..] == data[i + 1..n] && data[i..n][0] == data[i];
      crc := (crc >> 8) ^ Table((crc ^ data[i]) & 0xFF);
      i := i + 1;
    }
    assert data[n..n] == [];
    r := [crc & 0xFF, (crc >> 8) & 0xFF];
  }

  function Blk(data: seq<Octet>): seq<Octet> {
    data + CrcBytes(Crc(data, INIT))
  }

  predicate Chk(data: seq<Octet>) {
    |data| >= 2 && data[|data| - 2..] == CrcBytes(Crc(data[..|data| - 2], INIT))
  }

  method CrcBlk(data: seq<Octet>) returns (r: seq<Octet>)
    ensures r == Blk(data)
  {
    var crc := Crc16(data, |data|);
    assert data[..|data|] == data;
    r := data + crc;
  }

  /** `crc_chk`: a slice that starts before the data starts with the data. */
  method CrcChk(data: seq<Octet>) returns (r: int)
    ensures r == if Chk(data) then 1 else 0
  {
    var c := data[if |data| < 2 then 0 else |data| - 2..];
    var crc := Crc16(data, |data| - 2);
    if c == crc {
      return 1;
    }
    r := 0;
  }

  lemma {:induction false} CrcConcat(a: seq<Octet>, b: seq<Octet>, c: bv16)
    ensures Crc(a + b, c) == Crc(b, Crc(a, c))
    decreases |a|
  {
    if a == [] {
      assert a + b == b;
    } else {
      assert (a + b)[1..] == a[1..] + b;
      CrcConcat(a[1..], b, Step(c, a[0]));
    }
  }

  lemma CrcPair(b0: Octet, b1: Octet, c: bv16)
    ensures Crc([b0, b1], c) == Step(Step(c, b0), b1)
  {
    var s := [b0, b1];
    assert s[1..] == [b1] && [b1][1..] == [];
    assert Crc(s, c) == Crc([b1], Step(c, b0)) == Crc([], Step(Step(c, b0), b1));
  }

  lemma PairIsCrc(b0: Octet, b1: Octet, c: bv16)
    ensures Crc([b0, b1], c) == 0 <==> [b0, b1] == CrcBytes(c)
  {
    CrcPair(b0, b1, c);
    TwoBytesLeft(c, b0, b1);
  }

  /** The check on a block amounts to the CRC over all of it being zero. */
  lemma ChkIffZero(data: seq<Octet>)
    requires |data| >= 2
    ensures Chk(data) <==> Crc(data, INIT) == 0
  {
    var n := |data| - 2;
    var body, tail := data[..n], data[n..];
    assert data == body + tail && tail == [data[n], data[n + 1]];
    CrcConcat(body, tail, INIT);
    PairIsCrc(data[n], data[n + 1], Crc(body, INIT));
  }

  /** A block with its CRC appended passes, and its body comes back. */
  lemma BlkPasses(data: seq<Octet>)
    ensures Chk(Blk(data)) && Blk(data)[..|Blk(data)| - 2] == data
  {
    var r := Blk(data);
    assert r[..|r| - 2] == data && r[|r| - 2..] == CrcBytes(Crc(data, INIT));
  }

  lemma {:induction false} CrcInjective(s: seq<Octet>, c: bv16, d: bv16)
    ensures Crc(s, c) == Crc(s, d) <==> c == d
    decreases |s|
  {
    if s != [] {
      CrcInjective(s[1..], Step(c, s[0]), Step(d, s[0]));
      StepInjective(c, d, s[0]);
    }
  }

  /** Two blocks that differ only in one pair of neighbouring bytes. */
  predicate DifferAt(a: seq<Octet>, b: seq<Octet>, i: nat) {
    i + 2 <= |a| == |b| && a != b && a[..i] == b[..i] && a[i + 2..] == b[i + 2..]
  }

  lemma ByteDifference(c: bv16, x: bv16, y: bv16, b: Octet, d: Octet) returns (e: bv16)
    requires x == c ^ b && y == c ^ d
    ensures e == x ^ y && e <= 0xFF && (e == 0 <==> b == d)
  {
    e := x ^ y;
  }

  /** Different bytes drive one state further apart than another byte can make up for. */
  lemma FirstByte(c: bv16, x: bv16, y: bv16, b: Octet, d: Octet)
    requires x == c ^ b && y == c ^ d && EightBits(x) ^ EightBits(y) <= 0xFF
    ensures b == d
  {
    var e := ByteDifference(c, x, y, b, d);
    EightLinear(x, y, e);
    LowReachesHigh(e);
  }

  lemma SmallDifference(p: bv16, q: bv16, b: Octet, d: Octet)
    requires p ^ b == q ^ d
    ensures p ^ q <= 0xFF && (p == q ==> b == d)
  {
  }

  lemma SecondByte(p: bv16, q: bv16, b: Octet, d: Octet)
    requires Step(p, b) == Step(q, d)
    ensures p ^ q <= 0xFF && (p == q ==> b == d)
  {
    SameEight(p ^ b, q ^ d);
    SmallDifference(p, q, b, d);
  }

  /** Two different pairs of bytes never lead from one state to one state. */
  lemma PairInjective(c: bv16, b0: Octet, b1: Octet, d0: Octet, d1: Octet)
    requires Step(Step(c, b0), b1) == Step(Step(c, d0), d1)
    ensures b0 == d0 && b1 == d1
  {
    SecondByte(Step(c, b0), Step(c, d0), b1, d1);
    FirstByte(c, c ^ b0, c ^ d0, b0, d0);
  }

  lemma PairCrcInjective(p: seq<Octet>, q: seq<Octet>, c: bv16)
    requires |p| == |q| == 2 && Crc(p, c) == Crc(q, c)
    ensures p == q
  {
    assert p == [p[0], p[1]] && q == [q[0], q[1]];
    CrcPair(p[0], p[1], c);
    CrcPair(q[0], q[1], c);
    PairInjective(c, p[0], p[1], q[0], q[1]);
  }

  lemma CrcInThree(a: seq<Octet>, p: seq<Octet>, z: seq<Octet>)
    ensures Crc(a + (p + z), INIT) == Crc(z, Crc(p, Crc(a, INIT)))
  {
    CrcConcat(a, p + z, INIT);
    CrcConcat(p, z, Crc(a, INIT));
  }

  lemma DamageInside(head: seq<Octet>, p: seq<Octet>, q: seq<Octet>, rest: seq<Octet>)
    requires |p| == |q| == 2 && p != q && Crc(head + (p + rest), INIT) == 0
    ensures Crc(head + (q + rest), INIT) != 0
  {
    CrcInThree(head, p, rest);
    CrcInThree(head, q, rest);
    var c := Crc(head, INIT);
    CrcInjective(rest, Crc(p, c), Crc(q, c));
    if Crc(p, c) == Crc(q, c) {
      PairCrcInjective(p, q, c);
    }
  }

  /** Damage to two neighbouring bytes, or to one, never goes unnoticed. */
  lemma DamageRejected(a: seq<Octet>, b: seq<Octet>, i: nat)
    requires DifferAt(a, b, i) && Chk(a)
    ensures !Chk(b)
  {
    var head, p, q, rest := a[..i], a[i..i + 2], b[i..i + 2], a[i + 2..];
    assert a == head + (p + rest) && b == head + (q + rest);
    ChkIffZero(a);
    ChkIffZero(b);
    DamageInside(head, p, q, rest);
  }
}
