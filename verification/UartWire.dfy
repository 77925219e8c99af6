/** The bootloader's messages on the wire: what the host frames is what the upgrade handles. */
module UartWire {
  import opened Bytes
  import F = UartFrame
  import opened UartUpgrade

  /** A block as the host sends it, most significant byte first. */
  function BlockBytes(status: Byte, offset: U32, piece: seq<Byte>): seq<Byte>
    requires |piece| < 256
  {
    [status] + ToBe32(offset) + [|piece|] + piece
  }

  /** A start request for `size` bytes is received as such, whatever lies behind it in memory. */
  lemma StartReceived(size: U32, behind: seq<Byte>)
    ensures var buf := F.Frame(0x0210, ToBe32(size)) + behind;
            && F.Readable(buf) && F.Process(buf) == F.Dispatch(0x0210, ToBe32(size))
            && Decode(0x0210, ToBe32(size)) == StartRequest(size)
  {
    F.FrameRoundTrip(0x0210, ToBe32(size), behind);
    Be32RoundTrip(size);
    assert ToBe32(size)[..4] == ToBe32(size);
  }

  lemma BlockDecoded(status: Byte, offset: U32, piece: seq<Byte>, behind: seq<Byte>)
    requires |piece| < 256 && BLOCK_MAX <= |piece| + |behind|
    ensures var p := BlockBytes(status, offset, piece) + behind;
            Readable(0x0211, p) && Decode(0x0211, p) == BlockResponse(status, offset, |piece|, piece + behind)
  {
    var p := BlockBytes(status, offset, piece) + behind;
    assert p[1..5] == ToBe32(offset) && p[5] == |piece| && p[6..] == piece + behind;
    Be32RoundTrip(offset);
  }

  /** A block is received as it was sent, as long as the buffer reaches as far as the longest one
      would: the handler gets a pointer into it. */
  lemma BlockReceived(status: Byte, offset: U32, piece: seq<Byte>, behind: seq<Byte>)
    requires |piece| < 256 && BLOCK_MAX <= |piece| + 1 + |behind|
    ensures var buf := F.Frame(0x0211, BlockBytes(status, offset, piece)) + behind;
            && F.Readable(buf) && F.Process(buf) == F.Dispatch(0x0211, BlockBytes(status, offset, piece))
            && Readable(0x0211, buf[F.HEAD..])
            && Decode(0x0211, buf[F.HEAD..]) == BlockResponse(status, offset, |piece|, piece + ([F.END] + behind))
  {
    var bytes := BlockBytes(status, offset, piece);
    var buf := F.Frame(0x0211, bytes) + behind;
    F.FrameRoundTrip(0x0211, bytes, behind);
    F.FromPayload(0x0211, bytes, behind);
    BlockDecoded(status, offset, piece, [F.END] + behind);
  }

  /** No other frame gets through to the upgrade. */
  lemma OthersRefused(type': F.U16, data: seq<Byte>, behind: seq<Byte>)
    requires |data| < 0x1_0000
    ensures var buf := F.Frame(type', data) + behind;
            && F.Readable(buf)
            && (F.Process(buf) == F.Nack(type', 0xE3) <==> type' != 0x0210 && type' != 0x0211)
            && (F.Process(buf) == F.Dispatch(type', data) <==> type' == 0x0210 || type' == 0x0211)
  {
    F.FrameRoundTrip(type', data, behind);
  }
}
