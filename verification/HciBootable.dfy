/** Any number of updates, with power failing anywhere: the chip can always boot, exactly as long
    as a few blocks do not come that the handler should refuse and does not. */
module HciBootable {
  import opened Bytes
  import opened NorFlash
  import opened HciOta
  import opened HciTransfer
  import opened HciOutcome
  import opened HciBoot
  import opened HciHandover

  // ---------------------------------------------------------------- commands that stay in the spare slot

  /** How far a transfer into a slot may reach: into the sector behind it, unless that is the
      first of the other slot. */
  function Edge(b: Board, slot: nat): (n: nat)
    requires b.Valid() && (slot == 0 || slot == SLOT_B)
    ensures slot * SECTOR + b.max <= n <= (slot + b.sectors + 1) * SECTOR
    ensures slot == 0 ==> n <= SLOT_B * SECTOR
  {
    if slot == 0 && b.sectors == SLOT_B then b.max else (slot + b.sectors + 1) * SECTOR
  }

  /** The command does not leave a set flag byte in the slot at 0. */
  predicate Unflagging(b: Board, m: Mem, op: Op, slot: nat)
    requires b.flag < |m|
  {
    op.ProgramOp? && slot == 0 && op.addr <= b.flag < op.addr + |op.data| ==>
      Programmed(m[b.flag], op.data[b.flag - op.addr]) != START_FLAG
  }

  lemma StaysInSlot(m: Mem, op: Op, lo: nat, hi: nat)
    requires Fits(m, op) && OpWithin(op, lo, hi)
    ensures SameOutside(m, Apply(m, op), lo, hi)
  {
  }

  lemma NoFlagAppears(b: Board, m: Mem, op: Op)
    requires Fits(m, op) && b.flag < |m| && m[b.flag] != START_FLAG && Unflagging(b, m, op, 0)
    ensures Apply(m, op)[b.flag] != START_FLAG
  {
    var r, f := Apply(m, op), b.flag;
    match op
    case EraseOp(s) =>
      assert r[f] == BLANK || r[f] == m[f];
    case ProgramOp(a, d) =>
      assert a <= f < a + |d| ==> r[f] == Programmed(m[f], d[f - a]);
  }

  lemma HarmlessKeeps(b: Board, m: Mem, op: Op, slot: nat)
    requires b.Valid() && b.OnChip(m) && BootOk(b, m) && slot == Spare(b, m) && Fits(m, op)
    requires OpWithin(op, slot * SECTOR, Edge(b, slot)) && Unflagging(b, m, op, slot)
    ensures BootOk(b, Apply(m, op)) && Spare(b, Apply(m, op)) == slot
    ensures SameOutside(m, Apply(m, op), slot * SECTOR, Edge(b, slot))
  {
    var r := Apply(m, op);
    StaysInSlot(m, op, slot * SECTOR, Edge(b, slot));
    if slot == 0 {
      NoFlagAppears(b, m, op);
      SoundFrame(b, m, r, SLOT_B);
    } else {
      SoundFrame(b, m, r, 0);
    }
  }

  /** Commands for the slot: erases, after at most one write that does not set the flag. */
  ghost predicate AllHarmless(b: Board, m: Mem, ops: seq<Op>, slot: nat)
    requires b.Valid() && b.flag < |m| && (slot == 0 || slot == SLOT_B)
  {
    forall k :: 0 <= k < |ops| ==>
      && OpWithin(ops[k], slot * SECTOR, Edge(b, slot))
      && (ops[k].EraseOp? || (k == 0 && Unflagging(b, m, ops[k], slot)))
  }

  lemma {:induction false} HarmlessRun(b: Board, m: Mem, ops: seq<Op>, slot: nat)
    requires b.Valid() && b.OnChip(m) && BootOk(b, m) && AllFit(m, ops) && slot == Spare(b, m)
    requires AllHarmless(b, m, ops, slot)
    ensures BootOk(b, Run(m, ops)) && Spare(b, Run(m, ops)) == slot
    ensures SameOutside(m, Run(m, ops), slot * SECTOR, Edge(b, slot))
    decreases |ops|
  {
    if ops != [] {
      HarmlessKeeps(b, m, ops[0], slot);
      HarmlessRun(b, Apply(m, ops[0]), ops[1..], slot);
    }
  }

  // ---------------------------------------------------------------- the device between events

  /** A transfer into the slot at 0 finds the flag word blank, and has collected none of it, until
      its place has come. */
  predicate Waiting(b: Board, i: Info, m: Mem) {
    i.inProgress && i.start == 0 && i.offset <= b.flag ==> !i.found && IsBlank(m, b.flag, b.flag + 4)
  }

  /** The chip can boot, and a transfer under way aims at the slot it would not boot from. */
  predicate Aimed(b: Board, d: Device) {
    && Sane(b, d) && BootOk(b, d.mem)
    && (d.info.inProgress ==> d.info.start == Spare(b, d.mem)) && Waiting(b, d.info, d.mem)
  }

  /** A block that does not end inside a slot at 0 that touches the other. */
  predicate Overruns(b: Board, i: Info, msg: Msg)
    requires msg.BlockResponse?
  {
    b.sectors == SLOT_B && i.offset + msg.len >= b.max
  }

  /** A block of a remote file with 0x4B in the place of the flag byte, which is not refused for
      completing the flag word. */
  predicate RaisesFlag(b: Board, i: Info, msg: Msg)
    requires msg.BlockResponse? && WellFormed(msg) && |i.bootFlag| == 4
  {
    && i.binType != LOCAL_BIN && i.offset <= b.flag < i.offset + msg.len
    && msg.data[b.flag - i.offset] == START_FLAG
    && !MatchesFlag(i, RemoteNext(b, i, msg.len, msg.data))
  }

  /** What a transfer into the slot at 0 must not be sent. */
  predicate AllowedIn(b: Board, i: Info, msg: Msg)
    requires msg.BlockResponse? && WellFormed(msg) && |i.bootFlag| == 4
  {
    msg.status == OTA_SUCCESS && msg.offset == i.offset && i.start == 0 ==>
      !Overruns(b, i, msg) && !RaisesFlag(b, i, msg)
  }

  lemma EdgeReached(b: Board, slot: nat, n: nat)
    requires b.Valid() && (slot == 0 || slot == SLOT_B) && n < b.max + SECTOR
    requires slot == 0 && b.sectors == SLOT_B ==> n < b.max
    ensures (slot + SectorsUsed(n)) * SECTOR <= Edge(b, slot)
  {
  }

  lemma ErasesHarmless(b: Board, m: Mem, slot: nat, n: nat)
    requires b.Valid() && b.flag < |m| && (slot == 0 || slot == SLOT_B) && n < b.max + SECTOR
    requires slot == 0 && b.sectors == SLOT_B ==> n < b.max
    ensures AllHarmless(b, m, EraseOps(slot, SectorsUsed(n)), slot)
  {
    EdgeReached(b, slot, n);
  }

  lemma EndHarmless(b: Board, m: Mem, i: Info, timer: Timer, before: seq<Op>, status: Byte)
    requires b.Valid() && b.flag < |m| && (i.start == 0 || i.start == SLOT_B) && i.offset < b.max + SECTOR
    requires i.start == 0 && b.sectors == SLOT_B ==> i.offset < b.max
    requires AllHarmless(b, m, before, i.start)
    ensures AllHarmless(b, m, End(i, timer, before, status).ops, i.start)
  {
    ErasesHarmless(b, m, i.start, i.offset);
    if status != OTA_SUCCESS {
      var erases := EraseOps(i.start, SectorsUsed(i.offset));
      var ops := before + erases;
      forall k | 0 <= k < |ops|
        ensures OpWithin(ops[k], i.start * SECTOR, Edge(b, i.start))
        ensures ops[k].EraseOp? || (k == 0 && Unflagging(b, m, ops[k], i.start))
      {
        if k >= |before| {
          assert ops[k] == erases[k - |before|];
        }
      }
    }
  }

  /** Where a block taken in a transfer ends. */
  lemma BlockEnds(b: Board, d: Device, msg: Msg)
    requires Aimed(b, d) && d.info.inProgress && msg.BlockResponse? && WellFormed(msg)
    requires msg.status == OTA_SUCCESS && msg.offset == d.info.offset && AllowedIn(b, d.info, msg)
    ensures d.info.offset + msg.len < b.max + SECTOR
    ensures d.info.start == 0 && b.sectors == SLOT_B ==> d.info.offset + msg.len < b.max
    ensures d.info.start * SECTOR + d.info.offset + msg.len <= Edge(b, d.info.start)
  {
    EdgeReached(b, d.info.start, d.info.offset + msg.len);
  }

  /** What becomes of a write that is harmless. */
  lemma StoredHarmless(b: Board, m: Mem, j: Info, w: Op)
    requires b.Valid() && b.OnChip(m) && (j.start == 0 || j.start == SLOT_B) && Fits(m, w)
    requires j.offset < b.max + SECTOR && (j.start == 0 && b.sectors == SLOT_B ==> j.offset < b.max)
    requires OpWithin(w, j.start * SECTOR, Edge(b, j.start)) && Unflagging(b, m, w, j.start)
    ensures AllHarmless(b, m, Stored(b, m, j, w).ops, j.start)
  {
    EndHarmless(b, m, j, Off, [w], OTA_INCORRECT_OFFSET);
    EndHarmless(b, m, j, Off, [w], OTA_INCORRECT_DATA);
    EndHarmless(b, m, j, Off, [w], OTA_SUCCESS);
    EndHarmless(b, m, j, Handover, [w], OTA_SUCCESS);
  }

  lemma HiddenUnflagging(b: Board, d: Device, len: Byte, data: seq<Byte>)
    requires Aimed(b, d) && d.info.inProgress && len < |data|
    ensures Unflagging(b, d.mem, WriteOp(d.info, len, Hide(b, d.info.offset, len, data)), d.info.start)
  {
    ProgrammingBlank(d.mem[b.flag], BLANK);
  }

  lemma RemoteUnflagging(b: Board, d: Device, msg: Msg)
    requires Aimed(b, d) && d.info.inProgress && d.info.binType != LOCAL_BIN && msg.BlockResponse? && WellFormed(msg)
    requires msg.status == OTA_SUCCESS && msg.offset == d.info.offset && AllowedIn(b, d.info, msg)
    requires !MatchesFlag(d.info, RemoteNext(b, d.info, msg.len, msg.data))
    ensures Unflagging(b, d.mem, WriteOp(d.info, msg.len, msg.data), d.info.start)
  {
  }

  lemma TakenHarmless(b: Board, d: Device, msg: Msg)
    requires Aimed(b, d) && d.info.inProgress && msg.BlockResponse? && WellFormed(msg)
    requires msg.status == OTA_SUCCESS && msg.offset == d.info.offset && AllowedIn(b, d.info, msg)
    ensures AllHarmless(b, d.mem, OnBlock(b, d, msg).ops, d.info.start)
  {
    var i, len, data := d.info, msg.len, msg.data;
    BlockEnds(b, d, msg);
    EndHarmless(b, d.mem, i, Off, [], OTA_INCORRECT_DATA);
    EndHarmless(b, d.mem, i, Off, [], OTA_MATCH_BOOT_FLAG);
    if i.binType == LOCAL_BIN {
      HiddenUnflagging(b, d, len, data);
      StoredHarmless(b, d.mem, LocalNext(b, i, len, data), WriteOp(i, len, Hide(b, i.offset, len, data)));
    } else if !MatchesFlag(i, RemoteNext(b, i, len, data)) {
      RemoteUnflagging(b, d, msg);
      StoredHarmless(b, d.mem, RemoteNext(b, i, len, data), WriteOp(i, len, data));
    }
  }

  /** The events of a transfer, its start included. */
  predicate OfTransfer(b: Board, d: Device, e: Event)
    requires Roomy(b, d) && Possible(d, e)
  {
    match e
    case Received(StartRequest(_, _)) => true
    case Received(BlockResponse(_, _, _, _)) => d.info.inProgress && AllowedIn(b, d.info, e.msg)
    case BlockTimer => d.info.inProgress
    case HandoverTimer => false
  }

  lemma EventHarmless(b: Board, d: Device, e: Event)
    requires Aimed(b, d) && Possible(d, e) && OfTransfer(b, d, e)
    ensures AllHarmless(b, d.mem, Handle(b, d, e).ops, Spare(b, d.mem))
  {
    match e
    case Received(StartRequest(size, _)) =>
      if !d.info.inProgress && size < b.max {
        ErasesHarmless(b, d.mem, Spare(b, d.mem), size);
      }
    case Received(BlockResponse(status, offset, len, data)) =>
      if status != OTA_SUCCESS {
        EndHarmless(b, d.mem, d.info, Off, [], OTA_INCORRECT_DATA);
      } else if offset == d.info.offset {
        TakenHarmless(b, d, e.msg);
      }
    case BlockTimer =>
      EndHarmless(b, d.mem, d.info, Off, [], OTA_TIMEOUT);
  }

  /** After any number of the commands of a transfer's event the chip boots from the same slot,
      which has not been touched at all. */
  lemma RunningUntouched(b: Board, d: Device, e: Event, k: nat)
    requires Aimed(b, d) && Possible(d, e) && OfTransfer(b, d, e) && k <= |Handle(b, d, e).ops|
    ensures AllFit(d.mem, Handle(b, d, e).ops[..k])
    ensures var r := Run(d.mem, Handle(b, d, e).ops[..k]);
            && BootOk(b, r) && Spare(b, r) == Spare(b, d.mem)
            && SameOutside(d.mem, r, Spare(b, d.mem) * SECTOR, Edge(b, Spare(b, d.mem)))
  {
    SaneHandle(b, d, e);
    EventHarmless(b, d, e);
    HarmlessRun(b, d.mem, Handle(b, d, e).ops[..k], Spare(b, d.mem));
  }

  // ---------------------------------------------------------------- blocks that must not come

  lemma OverrunErases(b: Board, d: Device, j: Info, w: Op)
    requires Aimed(b, d) && d.info.inProgress && d.info.start == 0 && b.sectors == SLOT_B
    requires j.start == 0 && j.total == d.info.total && b.max <= j.offset < b.max + SECTOR
    requires w.ProgramOp? && OpWithin(w, 0, j.offset)
    ensures AllFit(d.mem, Stored(b, d.mem, j, w).ops) && !AlwaysBoots(b, d.mem, Stored(b, d.mem, j, w).ops)
    ensures !BootOk(b, Outcome(d, Stored(b, d.mem, j, w)).mem)
  {
    var n, r := SectorsUsed(j.offset), Apply(d.mem, w);
    assert n == SLOT_B + 1;
    WriteThenErasesIff(b, d.mem, w, 0, n, r);
    EraseOpsBlank(r, 0, n);
    RunOne(d.mem, w);
    RunConcat(d.mem, [w], EraseOps(0, n));
    FlagUnsound(b, Run(r, EraseOps(0, n)), SLOT_B, 0);
  }

  /** Two slots that touch, a device that runs from 0x40000: a block that runs past the end of the
      slot at 0 makes the clean-up erase the first sector of the running image. */
  lemma OverrunErasesRunning(b: Board, d: Device, msg: Msg)
    requires Aimed(b, d) && d.info.inProgress && d.info.start == 0 && msg.BlockResponse? && WellFormed(msg)
    requires msg.status == OTA_SUCCESS && msg.offset == d.info.offset && Overruns(b, d.info, msg)
    ensures var s := OnBlock(b, d, msg);
            && AllFit(d.mem, s.ops) && !AlwaysBoots(b, d.mem, s.ops)
            && !BootOk(b, Outcome(d, s).mem)
  {
    var i, len, data := d.info, msg.len, msg.data;
    if i.binType == LOCAL_BIN {
      OverrunErases(b, d, LocalNext(b, i, len, data), WriteOp(i, len, Hide(b, i.offset, len, data)));
    } else {
      OverrunErases(b, d, RemoteNext(b, i, len, data), WriteOp(i, len, data));
    }
  }

  lemma FlagRaised(b: Board, m: Mem, w: Op)
    requires w.ProgramOp? && Fits(m, w) && b.flag < |m| && m[b.flag] == BLANK
    requires w.addr <= b.flag < w.addr + |w.data| && w.data[b.flag - w.addr] == START_FLAG
    ensures BootsFromA(b, Apply(m, w))
  {
  }

  lemma FlagWritten(b: Board, m: Mem, w: Op, k: nat)
    requires w.ProgramOp? && Fits(m, w) && IsBlank(m, b.flag, b.flag + 4) && k < 4
    ensures Apply(m, w)[b.flag + k] ==
            if w.addr <= b.flag + k < w.addr + |w.data| then w.data[b.flag + k - w.addr] else BLANK
  {
  }

  /** The flag word a remote block leaves in the slot at 0 is not the one the chip looks for, unless
      the block was refused. */
  lemma HalfAFlag(b: Board, i: Info, m: Mem, len: Byte, data: seq<Byte>)
    requires b.Valid() && b.max <= |m| && IsBlank(m, b.flag, b.flag + 4) && |i.bootFlag| == 4
    requires i.start == 0 && !i.found && i.offset <= b.flag < i.offset + len && len < |data|
    requires Fits(m, WriteOp(i, len, data)) && !MatchesFlag(i, RemoteNext(b, i, len, data))
    ensures !SlotSound(b, Apply(m, WriteOp(i, len, data)), 0)
  {
    var w := WriteOp(i, len, data);
    if CompletesFlag(b, i.offset, len) {
      var word := Capture(b, i.offset, len, data, i.bootFlag);
      assert word != FLAG_WORD;
      var k :| 0 <= k < 4 && word[k] != FLAG_WORD[k];
      FlagWritten(b, m, w, k);
      FlagUnsound(b, Apply(m, w), 0, k);
    } else {
      FlagWritten(b, m, w, 3);
      FlagUnsound(b, Apply(m, w), 0, 3);
    }
  }

  /** The first command of a remote block that is stored. */
  lemma FirstCommand(b: Board, d: Device, msg: Msg, w: Op)
    requires Sane(b, d) && d.info.binType != LOCAL_BIN && msg.BlockResponse? && WellFormed(msg)
    requires msg.status == OTA_SUCCESS && msg.offset == d.info.offset && w == WriteOp(d.info, msg.len, msg.data)
    requires !MatchesFlag(d.info, RemoteNext(b, d.info, msg.len, msg.data))
    ensures AllFit(d.mem, OnBlock(b, d, msg).ops) && OnBlock(b, d, msg).ops != []
    ensures Run(d.mem, OnBlock(b, d, msg).ops[..1]) == Apply(d.mem, w)
  {
    SaneBlock(b, d, msg);
    assert OnBlock(b, d, msg).ops[..1] == [w];
    RunOne(d.mem, w);
  }

  /** A device that runs from 0x40000 and takes a remote file: the block that brings 0x4B to the
      place of the flag byte, and is not refused for the whole flag word, makes the chip boot from
      0 from then on, with the file half in. */
  lemma RemoteFlagTakesOver(b: Board, d: Device, msg: Msg)
    requires Aimed(b, d) && d.info.inProgress && d.info.start == 0 && msg.BlockResponse? && WellFormed(msg)
    requires msg.status == OTA_SUCCESS && msg.offset == d.info.offset && RaisesFlag(b, d.info, msg)
    ensures var ops := OnBlock(b, d, msg).ops;
            && ops != [] && AllFit(d.mem, ops)
            && BootsFromA(b, Run(d.mem, ops[..1])) && !BootOk(b, Run(d.mem, ops[..1]))
  {
    var w := WriteOp(d.info, msg.len, msg.data);
    FirstCommand(b, d, msg, w);
    FlagRaised(b, d.mem, w);
    HalfAFlag(b, d.info, d.mem, msg.len, msg.data);
  }

  /** In a transfer the exact condition: wherever power fails while a block is handled, the chip can
      boot, if and only if the block is one of those allowed. */
  lemma InTransferIff(b: Board, d: Device, msg: Msg)
    requires Aimed(b, d) && d.info.inProgress && msg.BlockResponse? && WellFormed(msg)
    ensures AllFit(d.mem, OnBlock(b, d, msg).ops)
    ensures AlwaysBoots(b, d.mem, OnBlock(b, d, msg).ops) <==> AllowedIn(b, d.info, msg)
  {
    SaneBlock(b, d, msg);
    var ops := OnBlock(b, d, msg).ops;
    if AllowedIn(b, d.info, msg) {
      forall k | 0 <= k <= |ops|
        ensures BootOk(b, Run(d.mem, ops[..k]))
      {
        RunningUntouched(b, d, Received(msg), k);
      }
    } else if Overruns(b, d.info, msg) {
      OverrunErasesRunning(b, d, msg);
    } else {
      RemoteFlagTakesOver(b, d, msg);
    }
  }

  // ---------------------------------------------------------------- outside a transfer

  /** Outside a transfer a response has the record cleared and erases from the start of the slot it
      names: a failure, a block that is refused for its boot flag, one past the announced size. */
  predicate Cleans(b: Board, d: Device, msg: Msg)
    requires Roomy(b, d) && msg.BlockResponse? && WellFormed(msg)
  {
    || msg.status != OTA_SUCCESS
    || (msg.offset == d.info.offset && (!TakenAnyway(b, d, msg) || d.info.offset + msg.len > d.info.total))
  }

  /** How many sectors that is. */
  function Cleaned(b: Board, d: Device, msg: Msg): nat
    requires Roomy(b, d) && msg.BlockResponse? && WellFormed(msg)
  {
    SectorsUsed(if TakenAnyway(b, d, msg) then d.info.offset + msg.len else d.info.offset)
  }

  /** A response outside a transfer that costs nothing: what it writes and what it erases is not
      what the chip boots from, or the other slot is sound. */
  predicate AllowedOut(b: Board, d: Device, msg: Msg)
    requires Roomy(b, d) && msg.BlockResponse? && WellFormed(msg)
  {
    && (TakenAnyway(b, d, msg) ==> WriteSpares(b, d.mem, WriteOp(d.info, msg.len, msg.data)))
    && (Cleans(b, d, msg) ==> ErasesSpare(b, d.mem, d.info.start, Cleaned(b, d, msg)))
  }

  lemma CleanedFits(b: Board, d: Device, msg: Msg)
    requires Sane(b, d) && !d.info.inProgress && msg.BlockResponse? && WellFormed(msg)
    requires Staying(b, d, Received(msg))
    ensures (d.info.start + Cleaned(b, d, msg)) * SECTOR <= |d.mem|
    ensures TakenAnyway(b, d, msg) ==>
              OpWithin(WriteOp(d.info, msg.len, msg.data), d.info.start * SECTOR,
                       (d.info.start + Cleaned(b, d, msg)) * SECTOR)
  {
    var n := if TakenAnyway(b, d, msg) then d.info.offset + msg.len else d.info.offset;
    assert n / SECTOR * SECTOR <= n < n / SECTOR * SECTOR + SECTOR;
  }

  /** The commands of a response outside a transfer. */
  lemma OutsideOps(b: Board, d: Device, msg: Msg)
    requires Sane(b, d) && !d.info.inProgress && msg.BlockResponse? && WellFormed(msg)
    ensures OnBlock(b, d, msg).ops ==
            (if TakenAnyway(b, d, msg) then [WriteOp(d.info, msg.len, msg.data)] else [])
            + (if Cleans(b, d, msg) then EraseOps(d.info.start, Cleaned(b, d, msg)) else [])
  {
  }

  /** Outside a transfer: what has to hold of the write and of the clean-up, each exactly.
      `WriteBoots` says what becomes of the write. */
  lemma OutsideIff(b: Board, d: Device, msg: Msg)
    requires Sane(b, d) && BootOk(b, d.mem) && !d.info.inProgress && msg.BlockResponse? && WellFormed(msg)
    requires Staying(b, d, Received(msg))
    ensures AllFit(d.mem, OnBlock(b, d, msg).ops)
    ensures AlwaysBoots(b, d.mem, OnBlock(b, d, msg).ops) <==>
            && (TakenAnyway(b, d, msg) ==> BootOk(b, Apply(d.mem, WriteOp(d.info, msg.len, msg.data))))
            && (Cleans(b, d, msg) ==> ErasesSpare(b, d.mem, d.info.start, Cleaned(b, d, msg)))
    ensures AllowedOut(b, d, msg) ==> AlwaysBoots(b, d.mem, OnBlock(b, d, msg).ops)
    ensures !TakenAnyway(b, d, msg) ==> (AlwaysBoots(b, d.mem, OnBlock(b, d, msg).ops) <==> AllowedOut(b, d, msg))
  {
    var i, w, n := d.info, WriteOp(d.info, msg.len, msg.data), Cleaned(b, d, msg);
    SaneBlock(b, d, msg);
    OutsideOps(b, d, msg);
    CleanedFits(b, d, msg);
    if TakenAnyway(b, d, msg) {
      WriteBoots(b, d.mem, w, Apply(d.mem, w));
      if Cleans(b, d, msg) {
        WriteThenErasesIff(b, d.mem, w, i.start, n, Apply(d.mem, w));
      } else {
        WriteAloneIff(b, d.mem, w);
        assert [w] + [] == [w];
      }
    } else {
      ErasesBootIff(b, d.mem, i.start, if Cleans(b, d, msg) then n else 0);
      assert OnBlock(b, d, msg).ops == EraseOps(i.start, if Cleans(b, d, msg) then n else 0);
    }
  }

  /** A response while the record is cleared: whether the chip can still boot afterwards. A device
      that runs from 0 with no sound image in the other slot is lost to a single one. */
  lemma StrayBootsIff(b: Board, d: Device, msg: Msg)
    requires Roomy(b, d) && BootOk(b, d.mem) && d.info == CLEARED && msg.BlockResponse? && WellFormed(msg)
    ensures AllFit(d.mem, OnBlock(b, d, msg).ops)
    ensures BootOk(b, Outcome(d, OnBlock(b, d, msg)).mem) <==>
            || (msg.status == OTA_SUCCESS && (msg.offset != 0 || msg.len == 0))
            || !BootsFromA(b, d.mem) || SlotSound(b, d.mem, SLOT_B)
  {
    StrayResponse(b, d, msg);
    if !(msg.status == OTA_SUCCESS && (msg.offset != 0 || msg.len == 0)) {
      SoundFrame(b, d.mem, Outcome(d, OnBlock(b, d, msg)).mem, SLOT_B);
    }
  }

  /** After an oversize start and blocks up to the end of a slot at 0 that touches the other, the
      next one is written over the image the device runs from. */
  lemma StrayReachesRunning(b: Board, d: Device, len: Byte, data: seq<Byte>)
    requires Sane(b, d) && BootOk(b, d.mem) && !d.info.inProgress && !BootsFromA(b, d.mem)
    requires d.info.start == 0 && b.sectors == SLOT_B && d.info.offset == b.max
    requires b.flag < len < |data| && data[b.flag] == 0
    ensures var ops := OnBlock(b, d, BlockResponse(OTA_SUCCESS, d.info.offset, len, data)).ops;
            ops != [] && AllFit(d.mem, ops) && !BootOk(b, Run(d.mem, ops[..1]))
  {
    var msg, w := BlockResponse(OTA_SUCCESS, d.info.offset, len, data), WriteOp(d.info, len, data);
    FirstCommand(b, d, msg, w);
    assert w.addr == SLOT_B * SECTOR && w.data[b.flag] == 0;
    AndZero(d.mem[w.addr + b.flag]);
    FlagOverwritten(b, d.mem, w.addr, w.data, w.addr + b.flag);
  }

  // ---------------------------------------------------------------- any run, with power failing anywhere

  /** What must not happen, case by case. The host decides about blocks; the clock about the timeout
      after blocks that came although no transfer was under way. */
  predicate Allowed(b: Board, d: Device, e: Event)
    requires Sane(b, d) && Possible(d, e)
  {
    match e
    case Received(BlockResponse(_, _, _, _)) =>
      if d.info.inProgress then AllowedIn(b, d.info, e.msg) else AllowedOut(b, d, e.msg)
    case BlockTimer =>
      !d.info.inProgress && d.info.count == RETRY_MAX ==>
        ErasesSpare(b, d.mem, d.info.start, SectorsUsed(d.info.offset))
    case _ => true
  }

  lemma TickIff(b: Board, d: Device)
    requires Sane(b, d) && BootOk(b, d.mem) && !d.info.inProgress && d.timer == Block
    ensures AllFit(d.mem, OnBlockTimer(d).ops)
    ensures AlwaysBoots(b, d.mem, OnBlockTimer(d).ops) <==> Allowed(b, d, BlockTimer)
  {
    var n := if d.info.count < RETRY_MAX then 0 else SectorsUsed(d.info.offset);
    RoomForErase(b, d);
    ErasesBootIff(b, d.mem, d.info.start, n);
    assert OnBlockTimer(d).ops == EraseOps(d.info.start, n);
  }

  /** After any number of an event's flash commands the chip can boot. */
  lemma BoundaryBootable(b: Board, d: Device, e: Event)
    requires Aimed(b, d) && Possible(d, e) && Allowed(b, d, e) && Staying(b, d, e)
    ensures AllFit(d.mem, Handle(b, d, e).ops) && AlwaysBoots(b, d.mem, Handle(b, d, e).ops)
  {
    SaneHandle(b, d, e);
    var ops := Handle(b, d, e).ops;
    if OfTransfer(b, d, e) {
      forall k | 0 <= k <= |ops|
        ensures BootOk(b, Run(d.mem, ops[..k]))
      {
        RunningUntouched(b, d, e, k);
      }
    } else {
      match e
      case Received(msg) => OutsideIff(b, d, msg);
      case BlockTimer => TickIff(b, d);
      case HandoverTimer => HandoverBoots(b, d);
    }
  }

  lemma StoredWaiting(b: Board, d: Device, j: Info, w: Op)
    requires Aimed(b, d) && d.info.inProgress && Fits(d.mem, w) && w.ProgramOp?
    requires j.start == d.info.start && d.info.offset <= j.offset
    requires j.found ==> d.info.found || b.flag < j.offset
    requires w.addr == j.start * SECTOR + d.info.offset && w.addr + |w.data| == j.start * SECTOR + j.offset
    ensures AllFit(d.mem, Stored(b, d.mem, j, w).ops)
    ensures Waiting(b, Outcome(d, Stored(b, d.mem, j, w)).info, Outcome(d, Stored(b, d.mem, j, w)).mem)
  {
    StoredFits(b, d.mem, j, w);
    RunOne(d.mem, w);
  }

  lemma TakenWaiting(b: Board, d: Device, len: Byte, data: seq<Byte>)
    requires Aimed(b, d) && d.info.inProgress && len < |data|
    ensures var s := if d.info.binType == LOCAL_BIN then OnLocalBlock(b, d, len, data)
                     else OnRemoteBlock(b, d, len, data);
            AllFit(d.mem, s.ops) && Waiting(b, Outcome(d, s).info, Outcome(d, s).mem)
  {
    var i := d.info;
    EndFits(d.mem, i, Off, [], OTA_INCORRECT_DATA);
    EndFits(d.mem, i, Off, [], OTA_MATCH_BOOT_FLAG);
    if i.binType == LOCAL_BIN {
      StoredWaiting(b, d, LocalNext(b, i, len, data), WriteOp(i, len, Hide(b, i.offset, len, data)));
    } else {
      StoredWaiting(b, d, RemoteNext(b, i, len, data), WriteOp(i, len, data));
    }
  }

  lemma StartWaiting(b: Board, d: Device, size: U32, binType: Byte)
    requires Aimed(b, d)
    ensures var s := OnStart(b, d, size, binType);
            AllFit(d.mem, s.ops) && Waiting(b, Outcome(d, s).info, Outcome(d, s).mem)
  {
    if !d.info.inProgress && size < b.max {
      EraseOpsBlank(d.mem, Spare(b, d.mem), SectorsUsed(size));
    }
  }

  lemma EventWaiting(b: Board, d: Device, e: Event)
    requires Aimed(b, d) && Possible(d, e)
    ensures var s := Handle(b, d, e);
            AllFit(d.mem, s.ops) && Waiting(b, Outcome(d, s).info, Outcome(d, s).mem)
  {
    SaneHandle(b, d, e);
    match e
    case Received(StartRequest(size, binType)) => StartWaiting(b, d, size, binType);
    case Received(BlockResponse(status, offset, len, data)) =>
      if d.info.inProgress && status == OTA_SUCCESS && offset == d.info.offset {
        TakenWaiting(b, d, len, data);
      } else if !d.info.inProgress {
        NoneStarted(b, d, e.msg);
      }
    case _ =>
  }

  lemma NoneStarted(b: Board, d: Device, msg: Msg)
    requires Sane(b, d) && !d.info.inProgress && msg.BlockResponse? && WellFormed(msg)
    ensures !OnBlock(b, d, msg).info.inProgress
  {
  }

  /** Power fails inside the command and leaves anything in the bytes it addresses. */
  ghost predicate TornOp(m: Mem, op: Op, r: Mem) {
    match op
    case EraseOp(s) => SameOutside(m, r, s * SECTOR, s * SECTOR + SECTOR)
    case ProgramOp(a, d) => SameOutside(m, r, a, a + |d|)
  }

  lemma SpareTorn(b: Board, m: Mem, op: Op, r: Mem, slot: nat)
    requires b.Valid() && b.OnChip(m) && BootOk(b, m) && slot == Spare(b, m) && TornOp(m, op, r)
    requires OpWithin(op, slot * SECTOR, Edge(b, slot)) && (BootsFromA(b, r) ==> BootsFromA(b, m))
    ensures BootOk(b, r)
  {
    SoundFrame(b, m, r, Running(b, m));
  }

  lemma HandoverTorn(b: Board, d: Device, k: nat, m: Mem, r: Mem)
    requires Sane(b, d) && BootOk(b, d.mem) && d.timer == Handover && k < |OnHandover(b, d).ops|
    requires AllFit(d.mem, OnHandover(b, d).ops[..k]) && m == Run(d.mem, OnHandover(b, d).ops[..k])
    requires TornOp(m, OnHandover(b, d).ops[k], r) && (BootsFromA(b, r) ==> BootsFromA(b, d.mem))
    ensures BootOk(b, r)
  {
    var ops := OnHandover(b, d).ops;
    if k == 0 {
      RaiseTorn(b, d.mem, r);
    } else {
      assert ops[..k] == [ops[0]];
      RunOne(d.mem, ops[0]);
      BothSound(b, d, ops[0], m);
      ClearTorn(b, m, r);
    }
  }

  /** What happens to the device: an event, or power failing after `done` of its commands, or inside
      the one behind these. */
  datatype Act = Whole(e: Event) | Cut(e: Event, done: nat) | Torn(e: Event, done: nat, r: Mem)

  /** Power fails in a transfer or in a handover and leaves `r`, in which the flag byte at 0 has not
      come out as set unless it was. */
  ghost predicate CanTear(b: Board, d: Device, e: Event, done: nat, r: Mem)
    requires Sane(b, d) && Possible(d, e)
  {
    && (OfTransfer(b, d, e) || e.HandoverTimer?) && done < |Handle(b, d, e).ops|
    && (SaneHandle(b, d, e); TornOp(Run(d.mem, Handle(b, d, e).ops[..done]), Handle(b, d, e).ops[done], r))
    && |r| == |d.mem| && (BootsFromA(b, r) ==> BootsFromA(b, d.mem))
  }

  lemma TornBoots(b: Board, d: Device, e: Event, done: nat, r: Mem)
    requires Aimed(b, d) && Possible(d, e) && CanTear(b, d, e, done, r)
    ensures BootOk(b, r)
  {
    SaneHandle(b, d, e);
    var m := Run(d.mem, Handle(b, d, e).ops[..done]);
    if e.HandoverTimer? {
      HandoverTorn(b, d, done, m, r);
    } else {
      RunningUntouched(b, d, e, done);
      EventHarmless(b, d, e);
      SpareTorn(b, m, Handle(b, d, e).ops[done], r, Spare(b, d.mem));
    }
  }

  ghost predicate CanAct(b: Board, d: Device, act: Act)
    requires Sane(b, d)
  {
    && Possible(d, act.e) && Allowed(b, d, act.e) && Staying(b, d, act.e)
    && (act.Cut? ==> act.done <= |Handle(b, d, act.e).ops|)
    && (act.Torn? ==> CanTear(b, d, act.e, act.done, act.r))
  }

  ghost function Acted(b: Board, d: Device, act: Act): (t: Device)
    requires Sane(b, d) && CanAct(b, d, act)
    ensures Sane(b, t)
  {
    SaneHandle(b, d, act.e);
    var s := Handle(b, d, act.e);
    match act
    case Whole(_) => Outcome(d, s)
    case Cut(_, k) => Restarted(Run(d.mem, s.ops[..k]))
    case Torn(_, _, r) => Restarted(r)
  }

  /** A transfer keeps its slot, and a new one takes the spare slot. */
  lemma SlotStays(b: Board, d: Device, e: Event)
    requires Aimed(b, d) && Possible(d, e)
    ensures Handle(b, d, e).info.inProgress ==>
              && Handle(b, d, e).info.start == Spare(b, d.mem)
              && (d.info.inProgress || (e.Received? && e.msg.StartRequest?))
  {
    if !d.info.inProgress && e.Received? && e.msg.BlockResponse? {
      NoneStarted(b, d, e.msg);
    }
  }

  lemma AimedEvent(b: Board, d: Device, e: Event) returns (s: Step, t: Device)
    requires Aimed(b, d) && Possible(d, e) && Allowed(b, d, e) && Staying(b, d, e)
    ensures s == Handle(b, d, e) && AllFit(d.mem, s.ops) && t == Outcome(d, s) && Aimed(b, t)
  {
    s := Handle(b, d, e);
    SaneHandle(b, d, e);
    SlotStays(b, d, e);
    EventWaiting(b, d, e);
    BoundaryBootable(b, d, e);
    assert s.ops[..|s.ops|] == s.ops;
    t := Outcome(d, s);
    if s.info.inProgress {
      RunningUntouched(b, d, e, |s.ops|);
    }
  }

  lemma AimedActs(b: Board, d: Device, act: Act)
    requires Aimed(b, d) && CanAct(b, d, act)
    ensures Aimed(b, Acted(b, d, act))
  {
    match act
    case Whole(e) =>
      var s, t := AimedEvent(b, d, e);
    case Cut(e, k) =>
      BoundaryBootable(b, d, e);
    case Torn(e, k, r) =>
      TornBoots(b, d, e, k, r);
  }

  ghost predicate Campaign(b: Board, d: Device, acts: seq<Act>)
    requires Sane(b, d)
    decreases |acts|
  {
    acts != [] ==> CanAct(b, d, acts[0]) && Campaign(b, Acted(b, d, acts[0]), acts[1..])
  }

  ghost function AfterActs(b: Board, d: Device, acts: seq<Act>): Device
    requires Sane(b, d) && Campaign(b, d, acts)
    decreases |acts|
  {
    if acts == [] then d else AfterActs(b, Acted(b, d, acts[0]), acts[1..])
  }

  /** Over any number of updates, local or remote, started, refused, aborted, completed or cut short
      by power failing between any two flash commands or inside one, and of responses in a transfer
      or not, the chip can always boot. */
  lemma {:induction false} AlwaysBootable(b: Board, d: Device, acts: seq<Act>)
    requires Aimed(b, d) && Campaign(b, d, acts)
    ensures Aimed(b, AfterActs(b, d, acts)) && BootOk(b, AfterActs(b, d, acts).mem)
    decreases |acts|
  {
    if acts != [] {
      AimedActs(b, d, acts[0]);
      AlwaysBootable(b, Acted(b, d, acts[0]), acts[1..]);
    }
  }
}
