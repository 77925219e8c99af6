/** The single-wire line code of `TlsrComProg.py`: five UART characters a byte, two bits each,
    with the start of a block marked in its first character. */
module SwireCode {

  // ---------------------------------------------------------------- the code

  const IDLE: bv8 := 0xEF    // two zeros
  const START: bv8 := 0xE8   // the start of a block and a zero
  const ONE_HIGH: bv8 := 0x0F
  const ONE_LOW: bv8 := 0xE8

  function Masked(el: bv8, bit: bv8, mask: bv8): bv8 {
    if el & bit != 0 then mask else 0xFF
  }

  /** The five characters of one byte. */
  function CodeByte(start: bool, el: bv8): (d: seq<bv8>)
    ensures |d| == 5
  {
    [(if start then START else IDLE) & Masked(el, 0x80, ONE_HIGH),
     IDLE & Masked(el, 0x40, ONE_LOW) & Masked(el, 0x20, ONE_HIGH),
     IDLE & Masked(el, 0x10, ONE_LOW) & Masked(el, 0x08, ONE_HIGH),
     IDLE & Masked(el, 0x04, ONE_LOW) & Masked(el, 0x02, ONE_HIGH),
     IDLE & Masked(el, 0x01, ONE_LOW)]
  }

  function CodeFrom(start: bool, blk: seq<bv8>): (pkt: seq<bv8>)
    ensures |pkt| == 5 * |blk|
    decreases |blk|
  {
    if blk == [] then [] else CodeByte(start, blk[0]) + CodeFrom(false, blk[1..])
  }

  function Code(blk: seq<bv8>): seq<bv8> {
    CodeFrom(true, blk)
  }

  /** One line of the loop body: a one bit masks one half of its character. */
  method MaskHalf(d: array<bv8>, i: nat, el: bv8, bit: bv8, mask: bv8)
    requires i < d.Length
    modifies d
    ensures d[..] == old(d[..])[i := old(d[i]) & Masked(el, bit, mask)]
  {
    if el & bit != 0 {
      d[i] := d[i] & mask;
    } else {
      assert d[i] & 0xFF == d[i];
    }
  }

  method SetBits(d: array<bv8>, el: bv8, start: bool)
    requires d[..] == [if start then START else IDLE, IDLE, IDLE, IDLE, IDLE]
    modifies d
    ensures d[..] == CodeByte(start, el)
  {
    MaskHalf(d, 0, el, 0x80, 0x0F);
    MaskHalf(d, 1, el, 0x40, 0xE8);
    MaskHalf(d, 1, el, 0x20, 0x0F);
    MaskHalf(d, 2, el, 0x10, 0xE8);
    MaskHalf(d, 2, el, 0x08, 0x0F);
    MaskHalf(d, 3, el, 0x04, 0xE8);
    MaskHalf(d, 3, el, 0x02, 0x0F);
    MaskHalf(d, 4, el, 0x01, 0xE8);
  }

  /** `sws_code_blk` */
  method SwsCodeBlk(blk: seq<bv8>) returns (pkt: seq<bv8>)
    ensures pkt == Code(blk)
  {
    pkt := [];
    var d := new bv8[] [START, IDLE, IDLE, IDLE, IDLE];
    var k := 0;
    while k < |blk|
      invariant 0 <= k <= |blk| && fresh(d)
      invariant d[..] == [if k == 0 then START else IDLE, IDLE, IDLE, IDLE, IDLE]
      invariant pkt + CodeFrom(k == 0, blk[k..]) == Code(blk)
    {
      SetBits(d, blk[k], k == 0);
      pkt := CodeOneMore(blk, k, pkt, d[..]);
      d := new bv8[] [IDLE, IDLE, IDLE, IDLE, IDLE];
      k := k + 1;
    }
    assert pkt + [] == pkt;
  }

  /** `pkt += d` */
  method CodeOneMore(blk: seq<bv8>, k: nat, pkt: seq<bv8>, d: seq<bv8>) returns (r: seq<bv8>)
    requires k < |blk| && d == CodeByte(k == 0, blk[k])
    requires pkt + CodeFrom(k == 0, blk[k..]) == Code(blk)
    ensures r == pkt + d && r + CodeFrom(false, blk[k + 1..]) == Code(blk)
  {
    r := pkt + d;
    assert blk[k..][1..] == blk[k + 1..];
    assert r + CodeFrom(false, blk[k + 1..]) == pkt + (d + CodeFrom(false, blk[k + 1..]));
  }

  // ---------------------------------------------------------------- reading it back

  /** The upper half of a character is cleared for a one, the lower half cut short. */
  function HighBit(c: bv8, bit: bv8): bv8 {
    if c & 0xF0 == 0 then bit else 0
  }

  function LowBit(c: bv8, bit: bv8): bv8 {
    if c & 0x0F == 0x08 then bit else 0
  }

  function DecodeByte(d: seq<bv8>): bv8
    requires |d| == 5
  {
    HighBit(d[0], 0x80) | LowBit(d[1], 0x40) | HighBit(d[1], 0x20) | LowBit(d[2], 0x10)
    | HighBit(d[2], 0x08) | LowBit(d[3], 0x04) | HighBit(d[3], 0x02) | LowBit(d[4], 0x01)
  }

  predicate Starts(d: seq<bv8>)
    requires |d| == 5
  {
    d[0] & 0x0F == 0x08
  }

  /** The blocks in a run of characters: a marked character opens a block, any other byte
      belongs to the block before it. `open` holds that block so far. */
  function DecodeOn(s: seq<bv8>, open: seq<bv8>): seq<seq<bv8>>
    decreases |s|
  {
    if |s| < 5 then Closed(open)
    else
      var d, more := s[..5], s[5..];
      if Starts(d) then Closed(open) + DecodeOn(more, [DecodeByte(d)])
      else DecodeOn(more, open + [DecodeByte(d)])
  }

  function Closed(open: seq<bv8>): seq<seq<bv8>> {
    if open == [] then [] else [open]
  }

  function Decode(s: seq<bv8>): seq<seq<bv8>> {
    DecodeOn(s, [])
  }

  lemma ByteRoundTrip(start: bool, el: bv8)
    ensures DecodeByte(CodeByte(start, el)) == el
    ensures Starts(CodeByte(start, el)) <==> start
  {
  }

  /** The characters of one byte in front of the rest. */
  lemma OneByteOn(start: bool, el: bv8, rest: seq<bv8>, open: seq<bv8>)
    ensures DecodeOn(CodeByte(start, el) + rest, open)
            == if start then Closed(open) + DecodeOn(rest, [el]) else DecodeOn(rest, open + [el])
  {
    var s := CodeByte(start, el) + rest;
    assert s[..5] == CodeByte(start, el) && s[5..] == rest;
    ByteRoundTrip(start, el);
  }

  /** The rest of a block is added to what is open. */
  lemma {:induction false} RestOn(blk: seq<bv8>, rest: seq<bv8>, open: seq<bv8>)
    ensures DecodeOn(CodeFrom(false, blk) + rest, open) == DecodeOn(rest, open + blk)
    decreases |blk|
  {
    if blk == [] {
      assert CodeFrom(false, blk) + rest == rest && open + blk == open;
    } else {
      var tail := CodeFrom(false, blk[1..]) + rest;
      assert CodeFrom(false, blk) + rest == CodeByte(false, blk[0]) + tail;
      OneByteOn(false, blk[0], tail, open);
      RestOn(blk[1..], rest, open + [blk[0]]);
      assert open + [blk[0]] + blk[1..] == open + blk;
    }
  }

  /** A block closes the one before it and becomes the open one. */
  lemma BlockOn(blk: seq<bv8>, rest: seq<bv8>, open: seq<bv8>)
    requires blk != []
    ensures DecodeOn(Code(blk) + rest, open) == Closed(open) + DecodeOn(rest, blk)
  {
    var tail := CodeFrom(false, blk[1..]) + rest;
    assert Code(blk) + rest == CodeByte(true, blk[0]) + tail;
    OneByteOn(true, blk[0], tail, open);
    RestOn(blk[1..], rest, [blk[0]]);
    assert [blk[0]] + blk[1..] == blk;
  }

  function CodeAll(blocks: seq<seq<bv8>>): seq<bv8>
    decreases |blocks|
  {
    if blocks == [] then [] else Code(blocks[0]) + CodeAll(blocks[1..])
  }

  function NonEmpty(blocks: seq<seq<bv8>>): seq<seq<bv8>>
    decreases |blocks|
  {
    if blocks == [] then [] else Closed(blocks[0]) + NonEmpty(blocks[1..])
  }

  lemma {:induction false} BlocksOn(blocks: seq<seq<bv8>>, open: seq<bv8>)
    ensures DecodeOn(CodeAll(blocks), open) == Closed(open) + NonEmpty(blocks)
    decreases |blocks|
  {
    if blocks != [] {
      var blk, rest := blocks[0], CodeAll(blocks[1..]);
      if blk == [] {
        assert Code(blk) + rest == rest;
        BlocksOn(blocks[1..], open);
      } else {
        BlockOn(blk, rest, open);
        BlocksOn(blocks[1..], blk);
      }
    }
  }

  /** Whatever blocks are sent one after another, the characters give back every byte and
      every boundary; only empty blocks leave no trace. */
  lemma BlocksRoundTrip(blocks: seq<seq<bv8>>)
    ensures Decode(CodeAll(blocks)) == NonEmpty(blocks)
  {
    BlocksOn(blocks, []);
  }

  // ---------------------------------------------------------------- the frames

  const OPENING: bv8 := 0x5A

  function AddrByte(addr: nat, unit: nat): bv8
    requires unit > 0
  {
    (addr / unit % 256) as bv8
  }

  function Header(addr: nat, command: bv8): seq<bv8> {
    [OPENING, AddrByte(addr, 0x1_0000), AddrByte(addr, 0x100), AddrByte(addr, 1), command]
  }

  /** The header is the opening byte, the low 24 bits of the address, most significant byte first, and
      the command. */
  lemma HeaderSpells(top: nat, high: nat, mid: nat, low: nat, command: bv8)
    requires high < 256 && mid < 256 && low < 256
    ensures Header(0x100_0000 * top + 0x1_0000 * high + 0x100 * mid + low, command)
            == [0x5A, high as bv8, mid as bv8, low as bv8, command]
  {
    var addr := 0x100_0000 * top + 0x1_0000 * high + 0x100 * mid + low;
    AddressBytes(top, high, mid, low, addr);
  }

  lemma AddressBytes(top: nat, high: nat, mid: nat, low: nat, addr: nat)
    requires high < 256 && mid < 256 && low < 256
    requires addr == 0x100_0000 * top + 0x1_0000 * high + 0x100 * mid + low
    ensures addr / 0x1_0000 % 256 == high && addr / 0x100 % 256 == mid && addr / 1 % 256 == low
  {
    assert addr / 0x1_0000 == 0x100 * top + high;
    assert addr / 0x100 == 0x1_0000 * top + 0x100 * high + mid;
  }

  method SwsRdAddr(addr: nat) returns (pkt: seq<bv8>)
    ensures Decode(pkt) == [Header(addr, 0x80)]
  {
    pkt := SwsCodeBlk(Header(addr, 0x80));
    OneFrame(Header(addr, 0x80));
  }

  lemma OneFrame(blk: seq<bv8>)
    requires blk != []
    ensures Decode(Code(blk)) == [blk]
  {
    BlockOn(blk, [], []);
    assert Code(blk) + [] == Code(blk);
  }

  /** A write is the header and the data in one block, and the end marker in a second one. */
  method SwsWrAddr(addr: nat, data: seq<bv8>) returns (pkt: seq<bv8>)
    ensures Decode(pkt) == [Header(addr, 0) + data, [0xFF]]
  {
    var head := SwsCodeBlk(Header(addr, 0) + data);
    var tail := SwsCodeBlk([0xFF]);
    pkt := head + tail;
    BlockOn(Header(addr, 0) + data, tail, []);
    BlockOn([0xFF], [], Header(addr, 0) + data);
    assert Code([0xFF]) + [] == tail;
  }
}
