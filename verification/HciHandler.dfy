/** `zbhci_uartOTAHandle` and its timer callbacks, acting on the record, the timer handle and
    the flash, proved to do what the steps of HciOta say. */
module HciHandler {
  import opened Bytes
  import opened NorFlash
  import opened HciOta
  import Crc32

  lemma EndAfter(m: Mem, log: seq<Op>, i: Info, w: Op, status: Byte)
    requires Fits(m, w)
    ensures AllFit(m, [w] + EndOps(i, status))
    ensures Run(m, [w] + EndOps(i, status)) == Run(Apply(m, w), EndOps(i, status))
    ensures log + [w] + EndOps(i, status) == log + ([w] + EndOps(i, status))
  {
    RunOne(m, w);
    RunConcat(m, [w], EndOps(i, status));
  }

  lemma TwoAfter(m: Mem, log: seq<Op>, p: Op, q: Op)
    requires Fits(m, p) && Fits(m, q)
    ensures AllFit(m, [p, q]) && Run(m, [p, q]) == Apply(Apply(m, p), q)
    ensures log + [p] + [q] == log + [p, q]
  {
    RunOne(m, p);
    RunSnoc(m, [p], q);
    assert [p] + [q] == [p, q];
  }

  /** Changing one byte of the receive buffer changes that byte of the block in it. */
  lemma BufferTail(buf: seq<Byte>, k: nat, v: Byte, len: nat)
    requires 6 + len < |buf| && k <= len
    ensures buf[6 + k := v][6..6 + len] == buf[6..][k := v][..len]
  {
    var x, y := buf[6 + k := v][6..6 + len], buf[6..][k := v][..len];
    forall n | 0 <= n < len
      ensures x[n] == y[n]
    {
    }
  }

  /** The payload of a block response holds what its status makes the handler read: of a failure
      nothing but the status. */
  predicate Readable(payload: seq<Byte>) {
    0 < |payload| && (payload[0] == OTA_SUCCESS ==> 6 < |payload| && payload[5] < |payload| - 6)
  }

  function MsgOf(payload: seq<Byte>): (msg: Msg)
    requires Readable(payload)
    ensures msg.BlockResponse? && WellFormed(msg) && msg.status == payload[0]
  {
    if payload[0] != OTA_SUCCESS then BlockResponse(payload[0], 0, 0, [0])
    else BlockResponse(OTA_SUCCESS, Be32(payload[1..5]), payload[5], payload[6..])
  }

  /** A block as a host sends it, most significant byte first; `behind` is what else the buffer
      holds. */
  function BlockBytes(status: Byte, offset: U32, piece: seq<Byte>, behind: seq<Byte>): seq<Byte>
    requires |piece| < 256
  {
    [status] + ToBe32(offset) + [|piece|] + piece + behind
  }

  /** It arrives as it was sent. */
  lemma BlockRead(offset: U32, piece: seq<Byte>, behind: seq<Byte>)
    requires |piece| < 256 && behind != []
    ensures var p := BlockBytes(OTA_SUCCESS, offset, piece, behind);
            Readable(p) && MsgOf(p) == BlockResponse(OTA_SUCCESS, offset, |piece|, piece + behind)
  {
    var p := BlockBytes(OTA_SUCCESS, offset, piece, behind);
    assert p[1..5] == ToBe32(offset) && p[5] == |piece| && p[6..] == piece + behind;
    Be32RoundTrip(offset);
  }

  const REMOTE_OTA_BIN: Byte := 0

  /** Lines 1130-1137: the size, and the type if the payload goes on. */
  function StartOf(payload: seq<Byte>): Msg
    requires 4 <= |payload|
  {
    StartRequest(Be32(payload[..4]), if |payload| > 4 then payload[4] else REMOTE_OTA_BIN)
  }

  /** A start request arrives as it was sent, without a type as one for a remote file. */
  lemma StartRead(size: U32, type': Byte)
    ensures StartOf(ToBe32(size)) == StartRequest(size, 0)
    ensures StartOf(ToBe32(size) + [type']) == StartRequest(size, type')
  {
    Be32RoundTrip(size);
    assert ToBe32(size)[..4] == ToBe32(size) == (ToBe32(size) + [type'])[..4];
  }

  /** The fields of a success, read from the array. */
  method ReadHeader(payload: array<Byte>) returns (recvOffset: U32, len: Byte, ghost data: seq<Byte>)
    requires Readable(payload[..]) && payload[0] == OTA_SUCCESS
    ensures MsgOf(payload[..]) == BlockResponse(OTA_SUCCESS, recvOffset, len, data)
    ensures data == payload[6..] && 6 + len < payload.Length
  {
    assert payload[..][1..5] == payload[1..5] && payload[..][6..] == payload[6..];
    recvOffset, len, data := Be32(payload[1..5]), payload[5], payload[6..];
  }

  /** `ota_info`, field by field, with the slot by its first sector, and the timer handle. */
  class OtaHandler {
    const b: Board
    const chip: Flash
    var slot: nat
    var total: U32
    var offset: nat
    var crc: U32
    var bootFlag: seq<Byte>
    var found: bool
    var inProgress: bool
    var count: nat
    var binType: Byte
    var timer: Timer

    function Record(): Info
      reads this
    {
      Info(slot, total, offset, crc, bootFlag, found, inProgress, count, binType)
    }

    function View(): Device
      reads this, chip
    {
      Device(Record(), timer, chip.mem)
    }

    ghost predicate Wired()
      reads this, chip
    {
      && b.Valid() && b.OnChip(chip.mem) && !chip.worn
      && |bootFlag| == 4 && (slot == 0 || slot == SLOT_B)
    }

    /** The handler has done exactly step `s` from device `d`. */
    ghost predicate Did(d: Device, log: seq<Op>, s: Step)
      reads this, chip
    {
      && AllFit(d.mem, s.ops) && chip.mem == Run(d.mem, s.ops) && chip.log == log + s.ops
      && Record() == s.info && timer == s.timer
    }

    lemma NothingDone(d: Device, log: seq<Op>)
      requires d == View() && log == chip.log
      ensures Did(d, log, Step(d.info, d.timer, [], [], false))
    {
    }

    constructor (b: Board, chip: Flash)
      requires b.Valid() && b.OnChip(chip.mem) && !chip.worn
      ensures Wired() && this.b == b && this.chip == chip && View() == Restarted(chip.mem)
      ensures Sane(b, View())
    {
      this.b, this.chip := b, chip;
      slot, total, offset, crc, bootFlag, found := 0, 0, 0, 0, [0, 0, 0, 0], false;
      inProgress, count, binType, timer := false, 0, 0, Off;
    }

    /** `mcuBootAddrGet`: 0 or 1. */
    method BootAddr() returns (addr: nat)
      requires Wired()
      ensures addr == if BootsFromA(b, chip.mem) then 0 else 1
    {
      var flag := chip.Read(b.flag, 1);
      addr := if flag[0] == START_FLAG then 0 else 1;
    }

    /** Lines 1141-1158 for a file that fits. */
    method Begin(type': Byte)
      requires Wired() && total < b.max
      modifies this, chip
      ensures Wired() && timer == Block
      ensures Record() == old(Record()).(offset := 0, crc := Crc32.INIT, found := false, inProgress := true,
                                         count := 0, binType := type')
      ensures AllFit(old(chip.mem), EraseOps(slot, SectorsUsed(total)))
      ensures chip.mem == Run(old(chip.mem), EraseOps(slot, SectorsUsed(total)))
      ensures chip.log == old(chip.log) + EraseOps(slot, SectorsUsed(total))
    {
      binType, offset, inProgress := type', 0, true;
      EraseRange(chip, slot, slot * SECTOR, SectorsUsed(total));
      found, count, crc, timer := false, 0, Crc32.INIT, Block;
    }

    method StartRequested(size: U32, type': Byte) returns (replies: seq<Reply>)
      requires Wired() && Sane(b, View())
      modifies this, chip
      ensures Wired()
      ensures Did(old(View()), old(chip.log), OnStart(b, old(View()), size, type'))
      ensures replies == OnStart(b, old(View()), size, type').replies
    {
      var status := OTA_SUCCESS;
      if !inProgress {
        var addr := BootAddr();
        slot := if addr == 1 then 0 else SLOT_B;
        total := size;
        if total < b.max {
          Begin(type');
        } else {
          status := OTA_OVERSIZE;
        }
      } else {
        status := OTA_IN_PROGRESS;
      }
      replies := [StartRsp(Record(), status)];
    }

    /** Lines 1122-1163, the fields taken from the payload. */
    method StartCommand(payload: seq<Byte>) returns (replies: seq<Reply>)
      requires Wired() && Sane(b, View()) && 4 <= |payload|
      modifies this, chip
      ensures Wired()
      ensures var msg := StartOf(payload);
              && Did(old(View()), old(chip.log), OnStart(b, old(View()), msg.size, msg.binType))
              && replies == OnStart(b, old(View()), msg.size, msg.binType).replies
    {
      var type' := REMOTE_OTA_BIN;
      if |payload| > 4 {
        type' := payload[4];
      }
      replies := StartRequested(Be32(payload[..4]), type');
    }

    /** `uart_send_ota_end`: erase after a failure, then clear the record. */
    method SendEnd(status: Byte) returns (replies: seq<Reply>)
      requires Wired()
      modifies this, chip
      ensures Wired() && timer == old(timer) && Record() == CLEARED
      ensures AllFit(old(chip.mem), EndOps(old(Record()), status))
      ensures chip.mem == Run(old(chip.mem), EndOps(old(Record()), status))
      ensures chip.log == old(chip.log) + EndOps(old(Record()), status)
      ensures replies == [EndStatus(old(total), old(offset), status)]
    {
      replies := [EndStatus(total, offset, status)];
      if status != OTA_SUCCESS {
        EraseRange(chip, slot, slot * SECTOR, SectorsUsed(offset));
      }
      slot, total, offset, crc, bootFlag, found := 0, 0, 0, 0, [0, 0, 0, 0], false;
      inProgress, count, binType := false, 0, 0;
    }

    /** An end that follows no write. */
    method Abort(status: Byte) returns (replies: seq<Reply>)
      requires Wired()
      modifies this, chip
      ensures Wired() && Did(old(View()), old(chip.log), End(old(Record()), Off, [], status))
      ensures replies == [EndStatus(old(total), old(offset), status)]
    {
      ghost var ops := EndOps(Record(), status);
      timer := Off;
      replies := SendEnd(status);
      assert [] + ops == ops;
    }

    /** The same once the boot flag has been collected, which the end does not look at. */
    method AbortAfter(status: Byte, ghost d: Device) returns (replies: seq<Reply>)
      requires Wired() && chip.mem == d.mem
      requires d.info.start == slot && d.info.total == total && d.info.offset == offset
      modifies this, chip
      ensures Wired() && Did(d, old(chip.log), End(d.info, Off, [], status))
      ensures replies == [EndStatus(old(total), old(offset), status)]
    {
      assert EndOps(Record(), status) == EndOps(d.info, status);
      replies := Abort(status);
    }

    /** Lines 1187-1196: how much of the block the CRC takes, and the CRC over it. */
    method AccumulateCrc(data: seq<Byte>, len: Byte)
      requires len < |data|
      modifies this`crc
      ensures crc == Crc32.Fold(b.crc, data[..CrcLen(total, offset, len)], old(crc))
    {
      var crcLen := 0;
      if (total - offset) % WORD < 4 {
        crcLen := 0;
      } else if (total - offset - len) % WORD >= 4 {
        crcLen := len;
      } else {
        crcLen := (total - offset) % WORD - 4;
      }
      crc := Crc32.Xcrc32(b.crc, data[..crcLen], crc);
    }

    /** Lines 1208-1225: collect the flag bytes; says whether they are complete and match. */
    method CollectFlag(data: seq<Byte>, len: Byte) returns (matched: bool)
      requires Wired() && len < |data|
      modifies this`bootFlag, this`found
      ensures Wired()
      ensures Record().(offset := offset + len) == RemoteNext(b, old(Record()), len, data)
      ensures matched == MatchesFlag(old(Record()), RemoteNext(b, old(Record()), len, data))
    {
      matched := false;
      if !found {
        ghost var was := bootFlag;
        var i := 0;
        while i < len
          invariant 0 <= i <= len && |bootFlag| == 4 && !found && !matched
          invariant offset + i <= b.flag + 3 || offset > b.flag + 3
          invariant bootFlag == Capture(b, offset, i, data, was)
        {
          var at := offset + i - b.flag;
          if 0 <= at < 4 {
            bootFlag := bootFlag[at := data[i]];
            if at == 3 {
              found := true;
              matched := bootFlag == FLAG_WORD;
              assert bootFlag == Capture(b, offset, len, data, was);
              return;
            }
          }
          i := i + 1;
        }
      }
    }

    /** Lines 1233-1243: the last block is written; check a local image, then end. */
    method Conclude() returns (replies: seq<Reply>, ghost status: Byte)
      requires Wired() && timer == Off
      modifies this, chip
      ensures Wired() && Record() == CLEARED
      ensures status == if old(binType) != LOCAL_BIN || FinalCheck(b, old(chip.mem), old(Record()))
                        then OTA_SUCCESS else OTA_INCORRECT_DATA
      ensures timer == if old(binType) == LOCAL_BIN && status == OTA_SUCCESS then Handover else Off
      ensures AllFit(old(chip.mem), EndOps(old(Record()), status))
      ensures chip.mem == Run(old(chip.mem), EndOps(old(Record()), status))
      ensures chip.log == old(chip.log) + EndOps(old(Record()), status)
      ensures replies == [EndStatus(old(total), old(offset), status)]
    {
      var finalStatus := OTA_SUCCESS;
      if binType == LOCAL_BIN {
        var crcRecv := WordAt(chip.mem, total - 4);
        var flagWord := chip.Read(slot * SECTOR + b.flag, 4);
        if crcRecv == crc && flagWord == HIDDEN_WORD {
          timer := Handover;
        } else {
          finalStatus := OTA_INCORRECT_DATA;
        }
      }
      status := finalStatus;
      replies := SendEnd(finalStatus);
    }

    /** The record has moved past the block just written, which took the flash from `d` to here. */
    ghost predicate Wrote(d: Device, log: seq<Op>, w: Op, j: Info)
      reads this, chip
    {
      && Wired() && timer == Off && j == Record()
      && Fits(d.mem, w) && chip.mem == Apply(d.mem, w) && chip.log == log + [w]
    }

    /** Lines 1229-1231: more is to come. */
    method AwaitNext(ghost d: Device, ghost log: seq<Op>, ghost w: Op, ghost j: Info)
      requires Wrote(d, log, w, j) && offset < total
      modifies this
      ensures Wired()
      ensures Did(d, log, Stored(b, d.mem, j, w)) && Stored(b, d.mem, j, w).replies == []
    {
      RunOne(d.mem, w);
      count, timer := 0, Block;
    }

    /** Lines 1232-1243: the last block. */
    method Finish(ghost d: Device, ghost log: seq<Op>, ghost w: Op, ghost j: Info) returns (replies: seq<Reply>)
      requires Wrote(d, log, w, j) && offset == total
      modifies this, chip
      ensures Wired()
      ensures Did(d, log, Stored(b, d.mem, j, w)) && replies == Stored(b, d.mem, j, w).replies
    {
      ghost var status;
      replies, status := Conclude();
      EndAfter(d.mem, log, j, w, status);
    }

    /** Lines 1244-1246: a block past the end. */
    method GiveUp(ghost d: Device, ghost log: seq<Op>, ghost w: Op, ghost j: Info) returns (replies: seq<Reply>)
      requires Wrote(d, log, w, j) && offset > total
      modifies this, chip
      ensures Wired()
      ensures Did(d, log, Stored(b, d.mem, j, w)) && replies == Stored(b, d.mem, j, w).replies
    {
      replies := SendEnd(OTA_INCORRECT_OFFSET);
      EndAfter(d.mem, log, j, w, OTA_INCORRECT_OFFSET);
    }

    /** Lines 1228-1246: move on, finish or give up. */
    method MoveOn(len: Byte, ghost d: Device, ghost log: seq<Op>, ghost w: Op, ghost j: Info)
        returns (replies: seq<Reply>)
      requires Wired() && timer == Off && j == Record().(offset := offset + len)
      requires Fits(d.mem, w) && chip.mem == Apply(d.mem, w) && chip.log == log + [w]
      modifies this, chip
      ensures Wired()
      ensures Did(d, log, Stored(b, d.mem, j, w)) && replies == Stored(b, d.mem, j, w).replies
    {
      offset := offset + len;
      assert Wrote(d, log, w, j);
      if offset < total {
        AwaitNext(d, log, w, j);
        replies := [];
      } else if offset == total {
        replies := Finish(d, log, w, j);
      } else {
        replies := GiveUp(d, log, w, j);
      }
    }

    /** Lines 1227-1246: write the block, then move on. */
    method StoreBlock(piece: seq<Byte>, ghost d: Device, ghost w: Op, ghost j: Info) returns (replies: seq<Reply>)
      requires Wired() && timer == Off && |piece| < 256 && Room(chip.mem, slot, offset) && chip.mem == d.mem
      requires w == ProgramOp(slot * SECTOR + offset, piece) && j == Record().(offset := offset + |piece|)
      modifies this, chip
      ensures Wired()
      ensures Did(d, old(chip.log), Stored(b, d.mem, j, w)) && replies == Stored(b, d.mem, j, w).replies
    {
      ghost var log := chip.log;
      var checked := chip.WriteWithCheck(slot * SECTOR + offset, piece);
      replies := MoveOn(|piece|, d, log, w, j);
    }

    /** Lines 1187-1205: the CRC over the block, then the flag byte looked at and hidden in the
        receive buffer itself. */
    method PrepareLocal(payload: array<Byte>, len: Byte, ghost i: Info, ghost data: seq<Byte>)
        returns (kept: bool, piece: seq<Byte>)
      requires 6 + len < payload.Length && data == payload[6..] && i == Record()
      modifies this`crc, payload
      ensures kept <==> !SpoilsFlag(b, offset, len, data)
      ensures Record().(offset := offset + len) == LocalNext(b, i, len, data)
      ensures |piece| == len
      ensures kept ==> WriteOp(i, len, Hide(b, i.offset, len, data)) == ProgramOp(slot * SECTOR + offset, piece)
    {
      ghost var before := payload[..];
      AccumulateCrc(payload[6..], len);
      kept := true;
      if CoversFlag(b, offset, len) {
        if payload[6 + b.flag - offset] != START_FLAG {
          kept := false;
        } else {
          payload[6 + b.flag - offset] := BLANK;
          BufferTail(before, b.flag - offset, BLANK, len);
          assert payload[..] == before[6 + (b.flag - offset) := BLANK];
        }
      }
      piece := payload[6..6 + len];
      assert piece == payload[..][6..6 + len];
      SliceOfSlice(before, 6, |before|, 0, len);
    }

    /** Lines 1199-1203 and 1227-1246: store the prepared block, or end. */
    method StoreOrAbort(kept: bool, piece: seq<Byte>, len: Byte, ghost d: Device, ghost data: seq<Byte>, ghost j: Info,
                        ghost w: Op)
        returns (replies: seq<Reply>)
      requires Wired() && Roomy(b, d) && timer == Off && chip.mem == d.mem && len < |data| && |piece| == len
      requires j == LocalNext(b, d.info, len, data) && Record().(offset := offset + len) == j
      requires d.info.offset == offset && d.info.start == slot && d.info.total == total
      requires kept <==> !SpoilsFlag(b, d.info.offset, len, data)
      requires w == WriteOp(d.info, len, Hide(b, d.info.offset, len, data))
      requires kept ==> w == ProgramOp(slot * SECTOR + offset, piece)
      modifies this, chip
      ensures Wired()
      ensures Did(d, old(chip.log), OnLocalBlock(b, d, len, data))
      ensures replies == OnLocalBlock(b, d, len, data).replies
    {
      if kept {
        replies := StoreBlock(piece, d, w, j);
      } else {
        replies := AbortAfter(OTA_INCORRECT_DATA, d);
      }
    }

    method LocalBlock(payload: array<Byte>, len: Byte, ghost d: Device, ghost data: seq<Byte>)
        returns (replies: seq<Reply>)
      requires Wired() && Roomy(b, d) && 6 + len < payload.Length && d == View() && data == payload[6..]
      modifies this, chip, payload
      ensures Wired()
      ensures Did(d, old(chip.log), OnLocalBlock(b, d, len, data))
      ensures replies == OnLocalBlock(b, d, len, data).replies
    {
      timer := Off;
      var kept, piece := PrepareLocal(payload, len, d.info, data);
      ghost var j, w := LocalNext(b, d.info, len, data), WriteOp(d.info, len, Hide(b, d.info.offset, len, data));
      replies := StoreOrAbort(kept, piece, len, d, data, j, w);
    }

    method RemoteBlock(data: seq<Byte>, len: Byte, ghost d: Device) returns (replies: seq<Reply>)
      requires Wired() && Roomy(b, d) && len < |data| && d == View()
      modifies this, chip
      ensures Wired()
      ensures Did(d, old(chip.log), OnRemoteBlock(b, d, len, data))
      ensures replies == OnRemoteBlock(b, d, len, data).replies
    {
      timer := Off;
      var matched := CollectFlag(data, len);
      if matched {
        replies := AbortAfter(OTA_MATCH_BOOT_FLAG, d);
      } else {
        replies := StoreBlock(data[..len], d, WriteOp(d.info, len, data), RemoteNext(b, d.info, len, data));
      }
    }

    /** Lines 1166-1247, on the payload as it arrived: status, offset, length, data. */
    method BlockReceived(payload: array<Byte>, ghost d: Device, ghost msg: Msg) returns (replies: seq<Reply>)
      requires Wired() && Roomy(b, d) && d == View() && Readable(payload[..]) && msg == MsgOf(payload[..])
      modifies this, chip, payload
      ensures Wired()
      ensures Did(d, old(chip.log), OnBlock(b, d, msg)) && replies == OnBlock(b, d, msg).replies
    {
      if payload[0] != OTA_SUCCESS {
        replies := Abort(OTA_INCORRECT_DATA);
        return;
      }
      var recvOffset, len;
      ghost var data;
      recvOffset, len, data := ReadHeader(payload);
      if recvOffset != offset {
        replies := [];
        NothingDone(d, chip.log);
      } else if binType == LOCAL_BIN {
        replies := LocalBlock(payload, len, d, data);
      } else {
        replies := RemoteBlock(payload[6..], len, d);
      }
    }

    /** `recv_ota_block_response_cb` */
    method BlockTimerFired() returns (replies: seq<Reply>)
      requires Wired() && Sane(b, View()) && timer == Block
      modifies this, chip
      ensures Wired() && Did(old(View()), old(chip.log), OnBlockTimer(old(View())))
      ensures replies == OnBlockTimer(old(View())).replies
    {
      if count < RETRY_MAX {
        count := count + 1;
        var left := Remaining(total, offset);
        var next := if left >= BLOCK_MAX then BLOCK_MAX else left;
        replies := [BlockReq(offset, next)];
      } else {
        replies := Abort(OTA_TIMEOUT);
      }
    }

    /** Line 1098: set the flag of the new slot; says whether it took. */
    method RaiseFlag(newSlot: nat) returns (ok: bool)
      requires Wired() && newSlot <= SLOT_B
      modifies chip
      ensures Fits(old(chip.mem), SetFlag(b, newSlot)) && Wired()
      ensures chip.mem == Apply(old(chip.mem), SetFlag(b, newSlot)) && chip.log == old(chip.log) + [SetFlag(b, newSlot)]
      ensures ok <==> chip.mem[newSlot * SECTOR + b.flag] == START_FLAG
    {
      var f := newSlot * SECTOR + b.flag;
      ok := chip.WriteWithCheck(f, [START_FLAG]);
      assert chip.mem[f..f + 1] == [chip.mem[f]];
    }

    /** Lines 1099-1103: clear the flag of the slot now taken for the running one. */
    method DropRunningFlag()
      requires Wired()
      modifies chip
      ensures Wired() && Fits(old(chip.mem), ClearFlag(b, TakenForRunning(b, old(chip.mem))))
      ensures chip.mem == Apply(old(chip.mem), ClearFlag(b, TakenForRunning(b, old(chip.mem))))
      ensures chip.log == old(chip.log) + [ClearFlag(b, TakenForRunning(b, old(chip.mem)))]
    {
      var addr := BootAddr();
      var base := if addr == 1 then SLOT_B else 0;
      chip.Write(base * SECTOR + b.flag, [0]);
    }

    /** Lines 1097-1104: set the new flag and, if it took, clear the other. */
    method SwitchFlags(newSlot: nat, ghost d: Device) returns (reset: bool)
      requires Wired() && d.mem == chip.mem && newSlot == Spare(b, d.mem) && NewImageValid(b, d.mem, newSlot)
      modifies chip
      ensures Wired() && AllFit(d.mem, OnHandover(b, d).ops)
      ensures chip.mem == Run(d.mem, OnHandover(b, d).ops) && chip.log == old(chip.log) + OnHandover(b, d).ops
      ensures reset == OnHandover(b, d).reset
    {
      ghost var log, raise := chip.log, SetFlag(b, newSlot);
      reset := RaiseFlag(newSlot);
      RunOne(d.mem, raise);
      if reset {
        ghost var drop := ClearFlag(b, TakenForRunning(b, chip.mem));
        DropRunningFlag();
        TwoAfter(d.mem, log, raise, drop);
      }
    }

    /** `local_ota_reboot_delay`; says whether the chip is reset. */
    method HandoverTimerFired() returns (reset: bool)
      requires Wired() && Sane(b, View()) && timer == Handover
      modifies this, chip
      ensures Wired() && Did(old(View()), old(chip.log), OnHandover(b, old(View())))
      ensures reset == OnHandover(b, old(View())).reset
    {
      ghost var d := View();
      timer := Off;
      reset := false;
      var addr := BootAddr();
      var newSlot := if addr == 1 then 0 else SLOT_B;
      if NewImageValid(b, chip.mem, newSlot) {
        reset := SwitchFlags(newSlot, d);
      }
    }
  }
}
