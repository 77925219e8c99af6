/** The HCI OTA handler: a stop-and-wait transfer into the slot the device does not run from,
    and the handover between the two slots. */
module HciOta {
  import opened Bytes
  import opened NorFlash
  import Crc32

  const RETRY_MAX := 5
  const BLOCK_MAX := 40

  const LOCAL_BIN: Byte := 1

  const OTA_SUCCESS: Byte := 0
  const OTA_TIMEOUT: Byte := 1
  const OTA_IN_PROGRESS: Byte := 2
  const OTA_INCORRECT_OFFSET: Byte := 3
  const OTA_OVERSIZE: Byte := 4
  const OTA_INCORRECT_DATA: Byte := 5
  const OTA_MATCH_BOOT_FLAG: Byte := 6

  const START_FLAG: Byte := 0x4B
  const FLAG_WORD: seq<Byte> := [0x4B, 0x4E, 0x4C, 0x54]
  /** The flag word while its first byte is disabled, 0x544C4EFF. */
  const HIDDEN_WORD: seq<Byte> := [0xFF, 0x4E, 0x4C, 0x54]

  /** First sector of the slot at 0x40000; the other slot starts at 0. */
  const SLOT_B := 64

  /** `sectors` is the size of a slot, `flag` the offset of the flag word, `crc` one byte of
      xcrc32. */
  datatype Board = Board(sectors: nat, flag: nat, crc: Crc32.ByteStep) {
    /** FLASH_OTA_IMAGE_MAX_SIZE */
    const max: nat := sectors * SECTOR

    predicate Valid() {
      0 < sectors <= SLOT_B && (flag == 8 || flag == 32)
    }

    /** Both slots, and the sector a last block may run into past the second; at most 24 bits of
        address. */
    predicate OnChip(m: Mem) {
      (SLOT_B + sectors + 1) * SECTOR <= |m| <= 0x100_0000
    }
  }

  /** `mcuBootAddrGet`: the chip boots from 0 exactly if the flag byte there is set. */
  predicate BootsFromA(b: Board, m: Mem)
    requires b.flag < |m|
  {
    m[b.flag] == START_FLAG
  }

  /** The slot the device does not run from, by its first sector. */
  function Spare(b: Board, m: Mem): nat
    requires b.flag < |m|
  {
    if BootsFromA(b, m) then SLOT_B else 0
  }

  /** A read past either end of the chip is taken to return blank bytes. */
  function ByteAt(m: Mem, a: int): Byte {
    if 0 <= a < |m| then m[a] else BLANK
  }

  function WordAt(m: Mem, a: int): U32 {
    Quad(ByteAt(m, a), ByteAt(m, a + 1), ByteAt(m, a + 2), ByteAt(m, a + 3))
  }

  /** `ota_info`. */
  datatype Info = Info(
    start: nat, total: U32, offset: nat, crc: U32, bootFlag: seq<Byte>, found: bool,
    inProgress: bool, count: nat, binType: Byte)

  const CLEARED := Info(0, 0, 0, 0, [0, 0, 0, 0], false, false, 0, 0)

  /** The one timer handle, and what it was armed for. */
  datatype Timer = Off | Block | Handover

  datatype Device = Device(info: Info, timer: Timer, mem: Mem)

  datatype Msg =
    | StartRequest(size: U32, binType: Byte)
    | BlockResponse(status: Byte, offset: U32, len: Byte, data: seq<Byte>)

  datatype Event = Received(msg: Msg) | BlockTimer | HandoverTimer

  datatype Reply =
    | StartRsp(info: Info, status: Byte)
    | BlockReq(offset: nat, len: nat)
    | EndStatus(total: nat, offset: nat, status: Byte)

  /** What one handler call does: the flash commands it gives, the record and the timer it
      leaves, what it sends, and whether it resets the chip. */
  datatype Step = Step(info: Info, timer: Timer, ops: seq<Op>, replies: seq<Reply>, reset: bool)

  /** One byte past the block is still buffer: the flag test may look at it. */
  predicate WellFormed(msg: Msg) {
    msg.BlockResponse? ==> msg.len < |msg.data|
  }

  // ---------------------------------------------------------------- start

  /** `otaFileTotalSize / FLASH_SECTOR_SIZE + 1` */
  function SectorsUsed(n: nat): nat {
    n / SECTOR + 1
  }

  function OnStart(b: Board, d: Device, size: U32, binType: Byte): Step
    requires b.Valid() && b.OnChip(d.mem)
  {
    if d.info.inProgress then Step(d.info, d.timer, [], [StartRsp(d.info, OTA_IN_PROGRESS)], false)
    else
      var aimed := d.info.(start := Spare(b, d.mem), total := size);
      if size >= b.max then Step(aimed, d.timer, [], [StartRsp(aimed, OTA_OVERSIZE)], false)
      else
        var info := aimed.(offset := 0, crc := Crc32.INIT, found := false, inProgress := true, count := 0,
                           binType := binType);
        Step(info, Block, EraseOps(info.start, SectorsUsed(size)), [StartRsp(info, OTA_SUCCESS)], false)
  }

  // ---------------------------------------------------------------- end

  /** `uart_send_ota_end`: anything but success erases what the offset says was used. */
  function EndOps(i: Info, status: Byte): seq<Op> {
    if status != OTA_SUCCESS then EraseOps(i.start, SectorsUsed(i.offset)) else []
  }

  function End(i: Info, timer: Timer, before: seq<Op>, status: Byte): Step {
    Step(CLEARED, timer, before + EndOps(i, status), [EndStatus(i.total, i.offset, status)], false)
  }

  // ---------------------------------------------------------------- blocks

  /** How much of a block goes into the local CRC, in 32-bit arithmetic. */
  function CrcLen(total: U32, offset: nat, len: Byte): (n: nat)
    ensures n <= len
  {
    if (total - offset) % WORD < 4 then 0
    else if (total - offset - len) % WORD >= 4 then len
    else (total - offset) % WORD - 4
  }

  predicate CoversFlag(b: Board, offset: nat, len: Byte) {
    offset <= b.flag <= offset + len
  }

  function Hide(b: Board, offset: nat, len: Byte, data: seq<Byte>): seq<Byte>
    requires len < |data|
  {
    if CoversFlag(b, offset, len) then data[b.flag - offset := BLANK] else data
  }

  /** The boot-flag bytes of a remote image, collected as they come by. */
  function Capture(b: Board, offset: nat, len: Byte, data: seq<Byte>, bootFlag: seq<Byte>): (r: seq<Byte>)
    requires len < |data| && |bootFlag| == 4
    ensures |r| == 4
  {
    seq(4, k requires 0 <= k < 4 =>
      if offset <= b.flag + k < offset + len then data[b.flag + k - offset] else bootFlag[k])
  }

  predicate CompletesFlag(b: Board, offset: nat, len: Byte) {
    offset <= b.flag + 3 < offset + len
  }

  /** Lines 1235-1237: the trailer is read at `total - 4` of the address space, not of the slot. */
  predicate FinalCheck(b: Board, m: Mem, i: Info)
    requires i.start * SECTOR + b.flag + 4 <= |m|
  {
    && WordAt(m, i.total - 4) == i.crc
    && m[i.start * SECTOR + b.flag..i.start * SECTOR + b.flag + 4] == HIDDEN_WORD
  }

  /** Lines 1228-1246, once `piece` has been written and `i.offset` moved past it. */
  function Stored(b: Board, m: Mem, i: Info, write: Op): Step
    requires i.start * SECTOR + b.flag + 4 <= |m| && Fits(m, write)
  {
    if i.offset < i.total then Step(i.(count := 0), Block, [write], [], false)
    else if i.offset > i.total then End(i, Off, [write], OTA_INCORRECT_OFFSET)
    else if i.binType != LOCAL_BIN then End(i, Off, [write], OTA_SUCCESS)
    else if FinalCheck(b, Apply(m, write), i) then End(i, Handover, [write], OTA_SUCCESS)
    else End(i, Off, [write], OTA_INCORRECT_DATA)
  }

  function WriteOp(i: Info, len: Byte, data: seq<Byte>): Op
    requires len < |data|
  {
    ProgramOp(i.start * SECTOR + i.offset, data[..len])
  }

  /** The record after a local block that is kept: the CRC is taken before the flag is hidden. */
  function LocalNext(b: Board, i: Info, len: Byte, data: seq<Byte>): Info
    requires len < |data|
  {
    i.(crc := Crc32.Fold(b.crc, data[..CrcLen(i.total, i.offset, len)], i.crc), offset := i.offset + len)
  }

  /** A local block that has another byte where the flag byte belongs. */
  predicate SpoilsFlag(b: Board, offset: nat, len: Byte, data: seq<Byte>)
    requires len < |data|
  {
    CoversFlag(b, offset, len) && data[b.flag - offset] != START_FLAG
  }

  function OnLocalBlock(b: Board, d: Device, len: Byte, data: seq<Byte>): Step
    requires Roomy(b, d) && len < |data|
  {
    if SpoilsFlag(b, d.info.offset, len, data) then End(d.info, Off, [], OTA_INCORRECT_DATA)
    else
      Stored(b, d.mem, LocalNext(b, d.info, len, data), WriteOp(d.info, len, Hide(b, d.info.offset, len, data)))
  }

  /** The record after a remote block that is kept. */
  function RemoteNext(b: Board, i: Info, len: Byte, data: seq<Byte>): Info
    requires len < |data| && |i.bootFlag| == 4
  {
    if i.found then i.(offset := i.offset + len)
    else i.(bootFlag := Capture(b, i.offset, len, data, i.bootFlag),
            found := CompletesFlag(b, i.offset, len), offset := i.offset + len)
  }

  predicate MatchesFlag(i: Info, j: Info) {
    !i.found && j.found && j.bootFlag == FLAG_WORD
  }

  function OnRemoteBlock(b: Board, d: Device, len: Byte, data: seq<Byte>): Step
    requires Roomy(b, d) && len < |data|
  {
    var j := RemoteNext(b, d.info, len, data);
    if MatchesFlag(d.info, j) then End(d.info, Off, [], OTA_MATCH_BOOT_FLAG)
    else Stored(b, d.mem, j, WriteOp(d.info, len, data))
  }

  /** A sector is left on the chip behind `offset` bytes from sector `start` on. */
  predicate Room(m: Mem, start: nat, offset: nat) {
    start * SECTOR + offset + SECTOR <= |m|
  }

  /** The write of any block stays on the chip. */
  predicate Roomy(b: Board, d: Device) {
    && b.Valid() && b.OnChip(d.mem) && |d.info.bootFlag| == 4
    && (d.info.start == 0 || d.info.start == SLOT_B)
    && Room(d.mem, d.info.start, d.info.offset)
  }

  function OnBlock(b: Board, d: Device, msg: Msg): Step
    requires Roomy(b, d) && msg.BlockResponse? && WellFormed(msg)
  {
    if msg.status != OTA_SUCCESS then End(d.info, Off, [], OTA_INCORRECT_DATA)
    else if msg.offset != d.info.offset then Step(d.info, d.timer, [], [], false)
    else if d.info.binType == LOCAL_BIN then OnLocalBlock(b, d, msg.len, msg.data)
    else OnRemoteBlock(b, d, msg.len, msg.data)
  }

  // ---------------------------------------------------------------- timers

  function Min(a: int, b: int): int {
    if a < b then a else b
  }

  /** `otaFileTotalSize - otaFileOffset` in 32 bits. */
  function Remaining(total: U32, offset: nat): int {
    if offset <= total then total - offset else WORD + total - offset
  }

  function OnBlockTimer(d: Device): Step
    requires d.info.offset < WORD
  {
    var i := d.info;
    if i.count < RETRY_MAX then
      Step(i.(count := i.count + 1), Block, [], [BlockReq(i.offset, Min(BLOCK_MAX, Remaining(i.total, i.offset)))],
           false)
    else End(i, Off, [], OTA_TIMEOUT)
  }

  function HeaderSize(m: Mem, slot: nat): U32 {
    WordAt(m, slot * SECTOR + 0x18)
  }

  /** The image in a slot, its start-up flag set whatever flash says. */
  function ImageIn(b: Board, m: Mem, slot: nat, n: nat): seq<Byte>
    requires slot * SECTOR + n <= |m|
  {
    var s := m[slot * SECTOR..slot * SECTOR + n];
    if b.flag < n then s[b.flag := START_FLAG] else s
  }

  /** `ota_newImageValid` */
  predicate NewImageValid(b: Board, m: Mem, slot: nat)
    requires b.Valid() && b.OnChip(m) && (slot == 0 || slot == SLOT_B)
  {
    var size, f := HeaderSize(m, slot), slot * SECTOR + b.flag;
    && size <= b.max
    && m[f + 1..f + 4] == FLAG_WORD[1..]
    && Crc32.Fold(b.crc, ImageIn(b, m, slot, if size < 4 then 0 else size - 4), Crc32.INIT)
       == WordAt(m, slot * SECTOR + size - 4)
  }

  function SetFlag(b: Board, slot: nat): Op {
    ProgramOp(slot * SECTOR + b.flag, [START_FLAG])
  }

  function ClearFlag(b: Board, slot: nat): Op {
    ProgramOp(slot * SECTOR + b.flag, [0])
  }

  /** The slot the handover takes for the running one, judged after the new flag is written. */
  function TakenForRunning(b: Board, m: Mem): nat
    requires b.flag < |m|
  {
    if BootsFromA(b, m) then 0 else SLOT_B
  }

  /** `local_ota_reboot_delay` */
  function OnHandover(b: Board, d: Device): Step
    requires b.Valid() && b.OnChip(d.mem)
  {
    var slot := Spare(b, d.mem);
    if !NewImageValid(b, d.mem, slot) then Step(d.info, Off, [], [], false)
    else
      var m := Apply(d.mem, SetFlag(b, slot));
      if m[slot * SECTOR + b.flag] != START_FLAG then Step(d.info, Off, [SetFlag(b, slot)], [], false)
      else Step(d.info, Off, [SetFlag(b, slot), ClearFlag(b, TakenForRunning(b, m))], [], true)
  }

  // ---------------------------------------------------------------- one event

  /** Timers fire only while armed. Messages come at any time. */
  predicate Possible(d: Device, e: Event) {
    match e
    case Received(msg) => WellFormed(msg)
    case BlockTimer => d.timer == Block
    case HandoverTimer => d.timer == Handover
  }

  /** The record outside a transfer: cleared, or left by an oversize start that was refused. */
  predicate Idle(b: Board, i: Info) {
    !i.inProgress && i.binType != LOCAL_BIN && (i == CLEARED || b.max <= i.total)
  }

  /** Between events. The block timer runs while a transfer is under way, and otherwise only if
      blocks have come after an oversize start. */
  predicate Sane(b: Board, d: Device) {
    && Roomy(b, d) && d.info.count <= RETRY_MAX
    && (if d.info.inProgress then
          && d.timer == Block && d.info.offset <= d.info.total < b.max
          && (d.info.offset < d.info.total || d.info.total == 0)
        else
          Idle(b, d.info) && (d.timer == Block ==> b.max <= d.info.total))
  }

  /** Outside a transfer a block that is taken, or another oversize start, does not bring the
      place of the next block to the end of the chip. */
  predicate Staying(b: Board, d: Device, e: Event)
    requires b.Valid() && b.OnChip(d.mem)
  {
    e.Received? && !d.info.inProgress ==>
      match e.msg
      case StartRequest(size, _) => size < b.max || Room(d.mem, Spare(b, d.mem), d.info.offset)
      case BlockResponse(status, offset, len, _) =>
        status == OTA_SUCCESS && offset == d.info.offset ==> Room(d.mem, d.info.start, d.info.offset + len)
  }

  function Handle(b: Board, d: Device, e: Event): Step
    requires Sane(b, d) && Possible(d, e)
  {
    match e
    case Received(StartRequest(size, binType)) => OnStart(b, d, size, binType)
    case Received(BlockResponse(_, _, _, _)) => OnBlock(b, d, e.msg)
    case BlockTimer => OnBlockTimer(d)
    case HandoverTimer => OnHandover(b, d)
  }

  /** A reset starts over with nothing but flash. */
  function Restarted(m: Mem): Device {
    Device(CLEARED, Off, m)
  }

  function Outcome(d: Device, s: Step): Device
    requires AllFit(d.mem, s.ops)
  {
    if s.reset then Restarted(Run(d.mem, s.ops)) else Device(s.info, s.timer, Run(d.mem, s.ops))
  }

  lemma EndFits(m: Mem, i: Info, timer: Timer, before: seq<Op>, status: Byte)
    requires AllFit(m, before)
    ensures AllFit(m, End(i, timer, before, status).ops)
  {
  }

  lemma StoredFits(b: Board, m: Mem, i: Info, write: Op)
    requires i.start * SECTOR + b.flag + 4 <= |m| && Fits(m, write)
    ensures AllFit(m, Stored(b, m, i, write).ops)
    ensures var s := Stored(b, m, i, write);
            if i.offset < i.total then s.info == i.(count := 0) && s.timer == Block
            else s.info == CLEARED && s.timer != Block
  {
    EndFits(m, i, Off, [write], OTA_INCORRECT_OFFSET);
    EndFits(m, i, Off, [write], OTA_INCORRECT_DATA);
    EndFits(m, i, Off, [write], OTA_SUCCESS);
  }

  lemma SaneStored(b: Board, d: Device, j: Info, write: Op)
    requires Sane(b, d) && j.inProgress == d.info.inProgress && Fits(d.mem, write)
    requires j.start == d.info.start && j.total == d.info.total && j.binType == d.info.binType && |j.bootFlag| == 4
    ensures AllFit(d.mem, Stored(b, d.mem, j, write).ops)
    ensures d.info.inProgress || Room(d.mem, j.start, j.offset) ==> Sane(b, Outcome(d, Stored(b, d.mem, j, write)))
  {
    StoredFits(b, d.mem, j, write);
  }

  lemma SaneBlock(b: Board, d: Device, msg: Msg)
    requires Sane(b, d) && msg.BlockResponse? && WellFormed(msg)
    ensures AllFit(d.mem, OnBlock(b, d, msg).ops)
    ensures Staying(b, d, Received(msg)) ==> Sane(b, Outcome(d, OnBlock(b, d, msg)))
  {
    var i, len := d.info, msg.len;
    if msg.status != OTA_SUCCESS {
      EndFits(d.mem, i, Off, [], OTA_INCORRECT_DATA);
    } else if msg.offset != i.offset {
    } else if i.binType == LOCAL_BIN {
      EndFits(d.mem, i, Off, [], OTA_INCORRECT_DATA);
      SaneStored(b, d, LocalNext(b, i, len, msg.data), WriteOp(i, len, Hide(b, i.offset, len, msg.data)));
    } else {
      EndFits(d.mem, i, Off, [], OTA_MATCH_BOOT_FLAG);
      SaneStored(b, d, RemoteNext(b, i, len, msg.data), WriteOp(i, len, msg.data));
    }
  }

  lemma SaneStart(b: Board, d: Device, size: U32, binType: Byte)
    requires Sane(b, d)
    ensures AllFit(d.mem, OnStart(b, d, size, binType).ops)
    ensures Staying(b, d, Received(StartRequest(size, binType))) ==> Sane(b, Outcome(d, OnStart(b, d, size, binType)))
  {
  }

  lemma SaneBlockTimer(b: Board, d: Device)
    requires Sane(b, d) && d.timer == Block
    ensures AllFit(d.mem, OnBlockTimer(d).ops) && Sane(b, Outcome(d, OnBlockTimer(d)))
  {
    EndFits(d.mem, d.info, Off, [], OTA_TIMEOUT);
  }

  lemma SaneHandover(b: Board, d: Device)
    requires Sane(b, d) && d.timer == Handover
    ensures AllFit(d.mem, OnHandover(b, d).ops) && Sane(b, Outcome(d, OnHandover(b, d)))
  {
  }

  /** The record, the timer and the flash stay in step through every event. */
  lemma SaneHandle(b: Board, d: Device, e: Event)
    requires Sane(b, d) && Possible(d, e)
    ensures AllFit(d.mem, Handle(b, d, e).ops)
    ensures Staying(b, d, e) ==> Sane(b, Outcome(d, Handle(b, d, e)))
  {
    match e
    case Received(StartRequest(size, binType)) => SaneStart(b, d, size, binType);
    case Received(BlockResponse(_, _, _, _)) => SaneBlock(b, d, e.msg);
    case BlockTimer => SaneBlockTimer(b, d);
    case HandoverTimer => SaneHandover(b, d);
  }
}
