/** The bootloader's serial frames: start flag, type, length, check byte, payload, end flag. */
module UartFrame {
  import opened Bytes

  const START: Byte := 0x55
  const END: Byte := 0xAA
  const HEAD := 6
  const TX_BUF := 64

  const STA_START_CHAR: Byte := 0xE0
  const STA_END_CHAR: Byte := 0xE2
  const STA_BAD_MSG: Byte := 0xE3
  const STA_CRC: Byte := 0xE5

  const OTA_START_REQUEST := 0x0210
  const OTA_BLOCK_RESPONSE := 0x0211

  predicate Accepted(type': nat) {
    type' == OTA_START_REQUEST || type' == OTA_BLOCK_RESPONSE
  }

  type U16 = n: int | 0 <= n < 0x1_0000

  // ---------------------------------------------------------------- exclusive or

  function XorBits(a: nat, b: nat): nat
    decreases a + b
  {
    if a == 0 && b == 0 then 0 else 2 * XorBits(a / 2, b / 2) + (if a % 2 == b % 2 then 0 else 1)
  }

  lemma {:induction false} XorBound(a: nat, b: nat, n: nat)
    requires a <= Ones(n) && b <= Ones(n)
    ensures XorBits(a, b) <= Ones(n)
    decreases n
  {
    if n > 0 {
      XorBound(a / 2, b / 2, n - 1);
    }
  }

  function Xor(a: Byte, b: Byte): Byte {
    assert Ones(8) == 0xFF;
    XorBound(a, b, 8);
    XorBits(a, b)
  }

  lemma {:induction false} XorBitsTwice(a: nat, b: nat)
    ensures XorBits(a, XorBits(a, b)) == b
    decreases a + b
  {
    if a != 0 || b != 0 {
      var c := XorBits(a, b);
      assert c / 2 == XorBits(a / 2, b / 2) && (c % 2 == 0 <==> a % 2 == b % 2);
      XorBitsTwice(a / 2, b / 2);
    }
  }

  lemma XorTwice(a: Byte, b: Byte)
    ensures Xor(a, Xor(a, b)) == b
  {
    XorBitsTwice(a, b);
  }

  lemma {:induction false} XorBitsSwap(a: nat, b: nat)
    ensures XorBits(a, b) == XorBits(b, a)
    decreases a + b
  {
    if a != 0 || b != 0 {
      XorBitsSwap(a / 2, b / 2);
    }
  }

  /** A change in one operand always shows. */
  lemma XorCancel(a: Byte, b: Byte, x: Byte)
    ensures Xor(a, x) == Xor(b, x) <==> a == b
    ensures Xor(x, a) == Xor(x, b) <==> a == b
  {
    XorTwice(x, a);
    XorTwice(x, b);
    XorBitsSwap(a, x);
    XorBitsSwap(b, x);
  }

  function XorAll(s: seq<Byte>, c: Byte): Byte
    decreases |s|
  {
    if s == [] then c else XorAll(s[1..], Xor(c, s[0]))
  }

  lemma {:induction false} XorAllCancel(s: seq<Byte>, c: Byte, d: Byte)
    ensures XorAll(s, c) == XorAll(s, d) <==> c == d
    decreases |s|
  {
    if s != [] {
      XorAllCancel(s[1..], Xor(c, s[0]), Xor(d, s[0]));
      XorCancel(c, d, s[0]);
    }
  }

  lemma {:induction false} XorAllChange(s: seq<Byte>, i: nat, b: Byte, c: Byte)
    requires i < |s|
    ensures XorAll(s[i := b], c) == XorAll(s, c) <==> b == s[i]
    decreases i
  {
    var t := s[i := b];
    if i == 0 {
      assert t[1..] == s[1..];
      XorAllCancel(s[1..], Xor(c, t[0]), Xor(c, s[0]));
      XorCancel(t[0], s[0], c);
    } else {
      assert t[1..] == s[1..][i - 1 := b];
      XorAllChange(s[1..], i - 1, b, Xor(c, s[0]));
    }
  }

  lemma {:induction false} XorAllSnoc(s: seq<Byte>, b: Byte, c: Byte)
    ensures XorAll(s + [b], c) == Xor(XorAll(s, c), b)
    decreases |s|
  {
    if s == [] {
      assert s + [b] == [b] && [b][1..] == [];
    } else {
      assert (s + [b])[1..] == s[1..] + [b];
      XorAllSnoc(s[1..], b, Xor(c, s[0]));
    }
  }

  // ---------------------------------------------------------------- frames

  function Hi(n: U16): Byte {
    n / 0x100
  }

  function Lo(n: U16): Byte {
    n % 0x100
  }

  function Wide(hi: Byte, lo: Byte): U16 {
    0x100 * hi + lo
  }

  /** The four bytes the check covers besides the payload, in the order it takes them. */
  function Covered(type': U16, len: U16): seq<Byte> {
    [Hi(type'), Lo(len), Hi(len)]
  }

  function Check(type': U16, len: U16, data: seq<Byte>): Byte
    requires len <= |data|
  {
    XorAll(Covered(type', len) + data[..len], Lo(type'))
  }

  lemma CoveredFold(type': U16, len: U16)
    ensures XorAll(Covered(type', len), Lo(type')) == Xor(Xor(Xor(Lo(type'), Hi(type')), Lo(len)), Hi(len))
  {
    var c := Lo(type');
    XorAllSnoc([], Hi(type'), c);
    XorAllSnoc([Hi(type')], Lo(len), c);
    XorAllSnoc([Hi(type'), Lo(len)], Hi(len), c);
    assert [] + [Hi(type')] == [Hi(type')] && [Hi(type')] + [Lo(len)] == [Hi(type'), Lo(len)];
    assert [Hi(type'), Lo(len)] + [Hi(len)] == Covered(type', len);
  }

  /** `crc8Calc` */
  method Crc8Calc(type': U16, len: U16, data: seq<Byte>) returns (crc8: Byte)
    requires len <= |data|
    ensures crc8 == Check(type', len, data)
  {
    crc8 := Lo(type');
    crc8 := Xor(crc8, Hi(type'));
    crc8 := Xor(crc8, Lo(len));
    crc8 := Xor(crc8, Hi(len));
    ghost var head := Covered(type', len);
    CoveredFold(type', len);
    assert head + data[..0] == head;
    var i := 0;
    while i < len
      invariant 0 <= i <= len
      invariant crc8 == XorAll(head + data[..i], Lo(type'))
    {
      XorAllSnoc(head + data[..i], data[i], Lo(type'));
      assert head + data[..i] + [data[i]] == head + data[..i + 1];
      crc8 := Xor(crc8, data[i]);
      i := i + 1;
    }
  }

  function Head(type': U16, len: U16, check: Byte): seq<Byte> {
    [START, Hi(type'), Lo(type'), Hi(len), Lo(len), check]
  }

  function Frame(type': U16, data: seq<Byte>): seq<Byte>
    requires |data| < 0x1_0000
  {
    Head(type', |data|, Check(type', |data|, data)) + data + [END]
  }

  /** `bootloader_uartTx`, filling the transmit buffer through a moving pointer. The buffer
      holds 64 bytes and the source checks nothing. */
  method UartTx(uartTxBuf: array<Byte>, type': U16, data: seq<Byte>) returns (n: nat)
    requires uartTxBuf.Length == TX_BUF && HEAD + |data| + 1 <= TX_BUF
    modifies uartTxBuf
    ensures n == HEAD + |data| + 1 && uartTxBuf[..n] == Frame(type', data)
  {
    var len := |data|;
    var crc8 := Crc8Calc(type', len, data);
    uartTxBuf[0], uartTxBuf[1], uartTxBuf[2] := START, Hi(type'), Lo(type');
    uartTxBuf[3], uartTxBuf[4], uartTxBuf[5] := Hi(len), Lo(len), crc8;
    n := HEAD;
    var i := 0;
    while i < len
      invariant 0 <= i <= len && n == HEAD + i
      invariant uartTxBuf[..n] == Head(type', len, crc8) + data[..i]
    {
      uartTxBuf[n] := data[i];
      n, i := n + 1, i + 1;
    }
    assert data[..len] == data;
    uartTxBuf[n] := END;
    n := n + 1;
  }

  // ---------------------------------------------------------------- receiving

  datatype Outcome = Dispatch(type': U16, payload: seq<Byte>) | Nack(type': U16, status: Byte)

  function LenOf(buf: seq<Byte>): U16
    requires HEAD <= |buf|
  {
    Wide(buf[3], buf[4])
  }

  function TypeOf(buf: seq<Byte>): U16
    requires HEAD <= |buf|
  {
    Wide(buf[1], buf[2])
  }

  /** The receive buffer reaches as far as the length field says: the source reads on blindly. */
  predicate Readable(buf: seq<Byte>) {
    HEAD <= |buf| && HEAD + LenOf(buf) < |buf|
  }

  function Process(buf: seq<Byte>): Outcome
    requires Readable(buf)
  {
    var type', len := TypeOf(buf), LenOf(buf);
    if buf[0] != START then Nack(0xFFFF, STA_START_CHAR)
    else if buf[HEAD + len] != END then Nack(type', STA_END_CHAR)
    else if !Accepted(type') then Nack(type', STA_BAD_MSG)
    else if buf[5] != Check(type', len, buf[HEAD..]) then Nack(type', STA_CRC)
    else Dispatch(type', buf[HEAD..HEAD + len])
  }

  /** The check over the payload behind the header of a buffer, and the payload. */
  method ReadPayload(buf: array<Byte>, msgType: U16, msgLen: U16) returns (crc8: Byte, payload: seq<Byte>)
    requires HEAD + msgLen < buf.Length
    ensures crc8 == Check(msgType, msgLen, buf[..][HEAD..]) && payload == buf[..][HEAD..HEAD + msgLen]
  {
    assert buf[HEAD..] == buf[..][HEAD..];
    crc8 := Crc8Calc(msgType, msgLen, buf[HEAD..]);
    payload := buf[HEAD..HEAD + msgLen];
  }

  /** `bootloader_uartRxDataProc` on one queued buffer. */
  method UartRxDataProc(buf: array<Byte>) returns (outcome: Outcome)
    requires Readable(buf[..])
    ensures outcome == Process(buf[..])
  {
    var msgType: U16, msgLen: U16 := 0xFFFF, 0;
    if buf[0] == START {
      msgType, msgLen := Wide(buf[1], buf[2]), Wide(buf[3], buf[4]);
      if buf[HEAD + msgLen] == END {
        if Accepted(msgType) {
          var crc8, payload := ReadPayload(buf, msgType, msgLen);
          outcome := if buf[5] == crc8 then Dispatch(msgType, payload) else Nack(msgType, STA_CRC);
        } else {
          outcome := Nack(msgType, STA_BAD_MSG);
        }
      } else {
        outcome := Nack(msgType, STA_END_CHAR);
      }
    } else {
      outcome := Nack(msgType, STA_START_CHAR);
    }
  }

  lemma WideRoundTrip(n: U16)
    ensures Wide(Hi(n), Lo(n)) == n
  {
  }

  lemma ByteRoundTrip(hi: Byte, lo: Byte)
    ensures Hi(Wide(hi, lo)) == hi && Lo(Wide(hi, lo)) == lo
  {
  }

  /** `f` begins with the frame of `type'` and `data`. */
  predicate Carries(f: seq<Byte>, type': U16, data: seq<Byte>) {
    var n := |data|;
    && n < 0x1_0000 && HEAD + n < |f|
    && f[0] == START && f[1] == Hi(type') && f[2] == Lo(type') && f[3] == Hi(n) && f[4] == Lo(n)
    && f[5] == Check(type', n, data) && f[HEAD..HEAD + n] == data && f[HEAD + n] == END
  }

  lemma FrameCarries(type': U16, data: seq<Byte>, behind: seq<Byte>)
    requires |data| < 0x1_0000
    ensures Carries(Frame(type', data) + behind, type', data)
  {
  }

  lemma CarriedFields(f: seq<Byte>, type': U16, data: seq<Byte>)
    requires Carries(f, type', data)
    ensures Readable(f) && TypeOf(f) == type' && LenOf(f) == |data|
  {
    WideRoundTrip(type');
    WideRoundTrip(|data|);
  }

  /** What the receiver says of a buffer whose payload is `body`. */
  function Verdict(type': U16, start: Byte, end: Byte, check: Byte, body: seq<Byte>): Outcome
    requires |body| < 0x1_0000
  {
    if start != START then Nack(0xFFFF, STA_START_CHAR)
    else if end != END then Nack(type', STA_END_CHAR)
    else if !Accepted(type') then Nack(type', STA_BAD_MSG)
    else if check != Check(type', |body|, body) then Nack(type', STA_CRC)
    else Dispatch(type', body)
  }

  lemma ProcessVerdict(buf: seq<Byte>)
    requires Readable(buf)
    ensures var n := LenOf(buf);
            Process(buf) == Verdict(TypeOf(buf), buf[0], buf[HEAD + n], buf[5], buf[HEAD..HEAD + n])
  {
    var n := LenOf(buf);
    var body := buf[HEAD..HEAD + n];
    assert buf[HEAD..][..n] == body[..n];
    assert Check(TypeOf(buf), n, buf[HEAD..]) == Check(TypeOf(buf), n, body);
  }

  /** What is sent is what is received, whatever lies behind the frame in memory; a type the
      bootloader does not take is answered as such. */
  lemma FrameRoundTrip(type': U16, data: seq<Byte>, behind: seq<Byte>)
    requires |data| < 0x1_0000
    ensures var buf := Frame(type', data) + behind;
            Readable(buf) && Process(buf) == if Accepted(type') then Dispatch(type', data) else Nack(type', STA_BAD_MSG)
  {
    var buf := Frame(type', data) + behind;
    FrameCarries(type', data, behind);
    CarriedFields(buf, type', data);
    ProcessVerdict(buf);
  }

  lemma {:induction false} XorZero(a: nat)
    ensures XorBits(0, a) == a
    decreases a
  {
    if a != 0 {
      XorZero(a / 2);
    }
  }

  /** The frame byte by byte: flags, type and length most significant byte first, the exclusive or of
      their bytes and the payload's, the payload. */
  lemma FrameIs(type': U16, data: seq<Byte>)
    requires |data| < 0x1_0000
    ensures var f, n := Frame(type', data), |data|;
            && |f| == n + 7 && f[0] == 0x55 && f[n + 6] == 0xAA && f[6..n + 6] == data
            && (f[1] as int) * 0x100 + f[2] == type' && (f[3] as int) * 0x100 + f[4] == n
            && f[5] == XorAll([f[2], f[1], f[4], f[3]] + data, 0)
  {
    var n, f := |data|, Frame(type', data);
    var rest := Covered(type', n) + data;
    XorZero(Lo(type'));
    assert data[..n] == data;
    assert [f[2], f[1], f[4], f[3]] + data == [Lo(type')] + rest && ([Lo(type')] + rest)[1..] == rest;
    WideRoundTrip(type');
    WideRoundTrip(n);
  }

  /** What lies in the buffer from the payload on. */
  lemma FromPayload(type': U16, data: seq<Byte>, behind: seq<Byte>)
    requires |data| < 0x1_0000
    ensures (Frame(type', data) + behind)[HEAD..] == data + ([END] + behind)
  {
    var head := Head(type', |data|, Check(type', |data|, data));
    assert |head| == HEAD;
    Regroup(head, data, [END], behind);
  }

  lemma Regroup(a: seq<Byte>, b: seq<Byte>, c: seq<Byte>, d: seq<Byte>)
    ensures (a + b + c + d)[|a|..] == b + (c + d)
  {
  }

  // ---------------------------------------------------------------- damage

  /** Damage to the type field shows in the check unless the type is refused anyway. */
  lemma TypeDamage(type': U16, other: U16, len: U16, data: seq<Byte>)
    requires len <= |data| && type' != other && (Hi(type') == Hi(other) || Lo(type') == Lo(other))
    ensures Check(type', len, data) != Check(other, len, data)
  {
    WideRoundTrip(type');
    WideRoundTrip(other);
    var s, t := Covered(type', len) + data[..len], Covered(other, len) + data[..len];
    if Hi(type') == Hi(other) {
      XorAllCancel(s, Lo(type'), Lo(other));
    } else {
      assert t == s[0 := Hi(other)];
      XorAllChange(s, 0, Hi(other), Lo(type'));
    }
  }

  lemma PayloadDamage(type': U16, len: U16, data: seq<Byte>, i: nat, b: Byte)
    requires i < len <= |data| && b != data[i]
    ensures Check(type', len, data[i := b]) != Check(type', len, data)
  {
    var s := Covered(type', len) + data[..len];
    assert Covered(type', len) + data[i := b][..len] == s[3 + i := b];
    XorAllChange(s, 3 + i, b, Lo(type'));
  }

  lemma DamagedType(f: seq<Byte>, type': U16, data: seq<Byte>, i: nat, b: Byte)
    requires Carries(f, type', data) && Accepted(type') && (i == 1 || i == 2) && b != f[i]
    ensures Readable(f[i := b]) && Process(f[i := b]).Nack?
  {
    var buf, n := f[i := b], |data|;
    CarriedFields(f, type', data);
    ProcessVerdict(buf);
    assert buf[HEAD..HEAD + n] == data && LenOf(buf) == n;
    OtherType(type', TypeOf(buf), buf[1], buf[2], n, data);
  }

  lemma OtherType(type': U16, other: U16, hi: Byte, lo: Byte, len: U16, data: seq<Byte>)
    requires other == Wide(hi, lo) && len <= |data| && (hi == Hi(type')) != (lo == Lo(type'))
    ensures Check(type', len, data) != Check(other, len, data)
  {
    ByteRoundTrip(hi, lo);
    TypeDamage(type', other, len, data);
  }

  lemma DamagedPayload(f: seq<Byte>, type': U16, data: seq<Byte>, i: nat, b: Byte)
    requires Carries(f, type', data) && Accepted(type') && HEAD <= i < HEAD + |data| && b != f[i]
    ensures Readable(f[i := b]) && Process(f[i := b]) == Nack(type', STA_CRC)
  {
    var buf, n := f[i := b], |data|;
    CarriedFields(f, type', data);
    ProcessVerdict(buf);
    assert f[i] == f[HEAD..HEAD + n][i - HEAD] == data[i - HEAD];
    PayloadDamage(type', n, data, i - HEAD, b);
    assert buf[HEAD..HEAD + n] == data[i - HEAD := b];
  }

  lemma DamagedMark(f: seq<Byte>, type': U16, data: seq<Byte>, i: nat, b: Byte)
    requires Carries(f, type', data) && Accepted(type') && (i == 0 || i == HEAD + |data|) && b != f[i]
    ensures Readable(f[i := b])
    ensures Process(f[i := b]) == if i == 0 then Nack(0xFFFF, STA_START_CHAR) else Nack(type', STA_END_CHAR)
  {
    var buf := f[i := b];
    CarriedFields(f, type', data);
    assert LenOf(buf) == |data| && TypeOf(buf) == type';
  }

  lemma DamagedCheck(f: seq<Byte>, type': U16, data: seq<Byte>, b: Byte)
    requires Carries(f, type', data) && Accepted(type') && b != f[5]
    ensures Readable(f[5 := b]) && Process(f[5 := b]) == Nack(type', STA_CRC)
  {
    var buf, n := f[5 := b], |data|;
    CarriedFields(f, type', data);
    assert LenOf(buf) == n && TypeOf(buf) == type';
    ProcessVerdict(buf);
    assert buf[HEAD..HEAD + n] == data;
  }

  /** Any one damaged byte outside the length field is noticed. */
  lemma DamageRefused(type': U16, data: seq<Byte>, behind: seq<Byte>, i: nat, b: Byte)
    requires |data| < 0x1_0000 && Accepted(type') && i <= HEAD + |data| && i != 3 && i != 4
    requires b != (Frame(type', data) + behind)[i]
    ensures var buf := (Frame(type', data) + behind)[i := b];
            Readable(buf) && Process(buf).Nack?
  {
    var f := Frame(type', data) + behind;
    FrameCarries(type', data, behind);
    if i == 1 || i == 2 {
      DamagedType(f, type', data, i, b);
    } else if HEAD <= i < HEAD + |data| {
      DamagedPayload(f, type', data, i, b);
    } else if i == 5 {
      DamagedCheck(f, type', data, b);
    } else {
      DamagedMark(f, type', data, i, b);
    }
  }

  /** Damage to one byte of the length field passes exactly if the end flag and the check of
      the frame happen to fit the other length; it is then taken with that length. */
  lemma LengthDamageIff(type': U16, data: seq<Byte>, behind: seq<Byte>, i: nat, b: Byte)
    requires |data| < 0x1_0000 && Accepted(type') && (i == 3 || i == 4)
    requires var f := Frame(type', data) + behind; b != f[i] && Readable(f[i := b])
    ensures var f := Frame(type', data) + behind;
            var buf := f[i := b];
            var m := LenOf(buf);
            && m != |data| && HEAD + m < |f|
            && (Process(buf).Dispatch? <==>
                  f[HEAD + m] == END && Check(type', m, f[HEAD..]) == Check(type', |data|, data))
            && (Process(buf).Dispatch? ==> Process(buf) == Dispatch(type', f[HEAD..HEAD + m]))
  {
    var f := Frame(type', data) + behind;
    var buf := f[i := b];
    FrameCarries(type', data, behind);
    CarriedFields(f, type', data);
    ByteRoundTrip(buf[3], buf[4]);
    assert buf[HEAD..] == f[HEAD..] && TypeOf(buf) == type';
    assert buf[HEAD..HEAD + LenOf(buf)] == f[HEAD..HEAD + LenOf(buf)];
  }

  /** The byte that, behind the end flag, brings the check of the longer frame to `check`. */
  lemma MatchingByte(type': U16, data: seq<Byte>, check: Byte) returns (w: Byte)
    requires |data| + 2 < 0x1_0000
    ensures Check(type', |data| + 2, data + [END, w]) == check
  {
    var s := Covered(type', |data| + 2) + (data + [END]);
    var x := XorAll(s, Lo(type'));
    w := Xor(x, check);
    XorTwice(x, check);
    XorAllSnoc(s, w, Lo(type'));
    var long := data + [END, w];
    assert long[..|data| + 2] == long && s + [w] == Covered(type', |data| + 2) + long;
  }

  /** A damaged length field can pass: for every message there is a longer one whose frame is
      received as the shorter one when its length field is damaged, in one byte if the high
      bytes of the lengths agree. */
  lemma LengthDamagePasses(type': U16, data: seq<Byte>) returns (long: seq<Byte>)
    requires Accepted(type') && |data| + 2 < 0x1_0000
    ensures |long| == |data| + 2 && long[..|data|] == data
    ensures var buf := Frame(type', long)[3 := Hi(|data|)][4 := Lo(|data|)];
            Readable(buf) && Process(buf) == Dispatch(type', data)
  {
    var w := MatchingByte(type', data, Check(type', |data|, data));
    long := data + [END, w];
    var f := Frame(type', long);
    assert f + [] == f;
    FrameCarries(type', long, []);
    ShortenedFrame(type', f, data, long);
  }

  lemma ShortenedFrame(type': U16, f: seq<Byte>, data: seq<Byte>, long: seq<Byte>)
    requires Accepted(type') && Carries(f, type', long)
    requires |long| == |data| + 2 && long[..|data|] == data && long[|data|] == END
    requires Check(type', |long|, long) == Check(type', |data|, data)
    ensures var buf := f[3 := Hi(|data|)][4 := Lo(|data|)];
            Readable(buf) && Process(buf) == Dispatch(type', data)
  {
    var n := |data|;
    var buf := f[3 := Hi(n)][4 := Lo(n)];
    WideRoundTrip(n);
    WideRoundTrip(type');
    ShorterPayload(f, buf, data, long);
    ProcessVerdict(buf);
  }

  lemma ShorterPayload(f: seq<Byte>, buf: seq<Byte>, data: seq<Byte>, long: seq<Byte>)
    requires |f| == |buf| && HEAD + |long| < |f| && forall k :: HEAD <= k < |f| ==> buf[k] == f[k]
    requires f[HEAD..HEAD + |long|] == long && |data| < |long| && long[..|data|] == data
    ensures buf[HEAD..HEAD + |data|] == data && buf[HEAD + |data|] == long[|data|]
  {
    forall k | 0 <= k < |data|
      ensures buf[HEAD + k] == data[k]
    {
      assert buf[HEAD + k] == long[k] == long[..|data|][k];
    }
    assert long[|data|] == f[HEAD..HEAD + |long|][|data|];
  }
}
