/** How an HCI transfer ends: when it is accepted, what an abort leaves, and that it ends. */
module HciOutcome {
  import opened Bytes
  import opened NorFlash
  import opened HciOta
  import opened HciTransfer
  import Crc32

  // ---------------------------------------------------------------- acceptance

  /** A transfer reported as a success left the whole file in the slot. */
  lemma SuccessIsWhole(b: Board, img: seq<Byte>, d: Device, msg: Msg)
    requires Faithful(b, img, d.info.binType, d) && d.info.inProgress
    requires msg.BlockResponse? && WellFormed(msg) && Serves(img, d.info.binType, msg)
    requires Succeeds(OnBlock(b, d, msg))
    ensures AllFit(d.mem, OnBlock(b, d, msg).ops)
    ensures Holds(Outcome(d, OnBlock(b, d, msg)).mem, d.info.start * SECTOR, OnDisk(b, img, d.info.binType))
    ensures d.info.binType != LOCAL_BIN && b.flag + 4 <= |img| ==> !FlagIn(b, img)
  {
    var i, len, data := d.info, msg.len, msg.data;
    if i.binType == LOCAL_BIN {
      var j, r := LocalBlockReceived(b, img, d, len, data);
      SuccessHolds(b, img, d, j, WriteOp(i, len, Hide(b, i.offset, len, data)), r);
    } else {
      var j, r := RemoteBlockReceived(b, img, d, len, data);
      SuccessHolds(b, img, d, j, WriteOp(i, len, data), r);
    }
  }

  lemma SuccessHolds(b: Board, img: seq<Byte>, d: Device, j: Info, w: Op, r: Mem)
    requires Faithful(b, img, d.info.binType, d) && d.info.inProgress
    requires Fits(d.mem, w) && r == Apply(d.mem, w) && HasReceived(b, img, j, r)
    requires j.start == d.info.start && j.binType == d.info.binType && j.inProgress && |j.bootFlag| == 4
    requires Succeeds(Stored(b, d.mem, j, w))
    ensures AllFit(d.mem, Stored(b, d.mem, j, w).ops)
    ensures Holds(Outcome(d, Stored(b, d.mem, j, w)).mem, d.info.start * SECTOR, OnDisk(b, img, d.info.binType))
    ensures d.info.binType != LOCAL_BIN && b.flag + 4 <= |img| ==> !FlagIn(b, img)
  {
    StoredKeeps(b, img, d, j, w, r);
  }

  /** A remote file is refused for its boot flag exactly at the block that brings the flag's
      last byte, and exactly if the flag word is in the file. */
  lemma RemoteRefusedIff(b: Board, img: seq<Byte>, d: Device, len: Byte, data: seq<Byte>)
    requires Faithful(b, img, d.info.binType, d) && d.info.inProgress && d.info.binType != LOCAL_BIN
    requires len < |data| && d.info.offset + len <= |img|
    requires data[..len] == img[d.info.offset..d.info.offset + len]
    ensures OnRemoteBlock(b, d, len, data).replies == [EndStatus(|img|, d.info.offset, OTA_MATCH_BOOT_FLAG)]
            <==> CompletesFlag(b, d.info.offset, len) && FlagIn(b, img)
  {
    RemoteFlag(b, img, d.info, len, data);
    var j := RemoteNext(b, d.info, len, data);
    assert MatchesFlag(d.info, j) <==> CompletesFlag(b, d.info.offset, len) && FlagIn(b, img);
  }

  lemma WordFrame(m: Mem, r: Mem, a: nat)
    requires |m| == |r| && forall k :: a <= k < a + 4 && k < |m| ==> r[k] == m[k]
    ensures WordAt(r, a) == WordAt(m, a)
  {
  }

  lemma WordHeld(m: Mem, disk: seq<Byte>, a: nat)
    requires HoldsUpTo(m, 0, disk, |disk|) && a + 4 <= |disk|
    ensures WordAt(m, a) == Quad(disk[a], disk[a + 1], disk[a + 2], disk[a + 3])
  {
  }

  /** The trailer the final check reads: the file's own, as it is stored, only when the slot
      starts at 0. */
  function TrailerRead(b: Board, img: seq<Byte>, d: Device): U32
    requires 4 <= |img|
  {
    if d.info.start == 0 then Le32(OnDisk(b, img, LOCAL_BIN)[|img| - 4..]) else WordAt(d.mem, |img| - 4)
  }

  /** As it is stored the trailer is the file's own unless it is the flag word itself. */
  lemma OwnTrailer(b: Board, img: seq<Byte>)
    requires 4 <= |img| && b.flag + 4 < |img|
    ensures OnDisk(b, img, LOCAL_BIN)[|img| - 4..] == img[|img| - 4..]
  {
  }

  lemma HiddenFlagIff(b: Board, img: seq<Byte>, m: Mem, a: nat)
    requires b.flag + 4 <= |img| && HoldsUpTo(m, a, OnDisk(b, img, LOCAL_BIN), |img|)
    requires img[b.flag] == START_FLAG
    ensures m[a + b.flag..a + b.flag + 4] == HIDDEN_WORD <==> FlagIn(b, img)
  {
    var w, f := m[a + b.flag..a + b.flag + 4], img[b.flag..b.flag + 4];
    assert w == [BLANK, f[1], f[2], f[3]];
    assert f == [START_FLAG, f[1], f[2], f[3]];
  }

  lemma TrailerAfter(b: Board, img: seq<Byte>, d: Device, i: Info, w: Op, r: Mem)
    requires Roomy(b, d) && Fits(d.mem, w) && r == Apply(d.mem, w) && w.ProgramOp?
    requires i.start == d.info.start && w.addr >= i.start * SECTOR
    requires 4 <= |img| < b.max && i.total == |img|
    requires HoldsUpTo(r, i.start * SECTOR, OnDisk(b, img, LOCAL_BIN), |img|)
    ensures WordAt(r, |img| - 4) == TrailerRead(b, img, d)
  {
    if i.start == 0 {
      WordHeld(r, OnDisk(b, img, LOCAL_BIN), |img| - 4);
    } else {
      WordFrame(d.mem, r, |img| - 4);
    }
  }

  /** A file that ends before its flag word does is never taken. */
  lemma ShortHasNoFlag(b: Board, img: seq<Byte>, m: Mem, a: nat, end: nat)
    requires |img| < b.flag + 4 && Filled(m, a, OnDisk(b, img, LOCAL_BIN), |img|, end) && a + b.flag + 4 <= end
    ensures m[a + b.flag..a + b.flag + 4] != HIDDEN_WORD
  {
    var w := m[a + b.flag..a + b.flag + 4];
    assert w[3] == m[a + b.flag + 3] == BLANK;
  }

  lemma FinalCheckIff(b: Board, img: seq<Byte>, d: Device, j: Info, w: Op, r: Mem)
    requires Roomy(b, d) && Fits(d.mem, w) && r == Apply(d.mem, w) && w.ProgramOp?
    requires w.addr >= d.info.start * SECTOR && j.start == d.info.start
    requires HasReceived(b, img, j, r) && j.binType == LOCAL_BIN && j.offset == |img|
    requires 0 < |img| < b.max
    ensures FinalCheck(b, r, j) <==>
            FlagIn(b, img) && Crc32.Fold(b.crc, img[..|img| - 4], Crc32.INIT) == TrailerRead(b, img, d)
  {
    if b.flag + 4 <= |img| {
      HiddenFlagIff(b, img, r, j.start * SECTOR);
      TrailerAfter(b, img, d, j, w, r);
    } else {
      SectorsCover(b, j.start, |img|);
      ShortHasNoFlag(b, img, r, j.start * SECTOR, ErasedTo(j.start, |img|));
    }
  }

  lemma StoredLocalEnd(b: Board, m: Mem, j: Info, w: Op)
    requires j.start * SECTOR + b.flag + 4 <= |m| && Fits(m, w)
    requires j.offset == j.total && j.binType == LOCAL_BIN
    ensures Succeeds(Stored(b, m, j, w)) <==> FinalCheck(b, Apply(m, w), j)
    ensures Stored(b, m, j, w).timer == Handover <==> FinalCheck(b, Apply(m, w), j)
    ensures !Succeeds(Stored(b, m, j, w)) ==>
              Stored(b, m, j, w).replies == [EndStatus(j.total, j.total, OTA_INCORRECT_DATA)]
  {
  }

  /** The last block of a local image is accepted exactly if the image's flag word is in place
      and the CRC over all but its trailer equals the word at `total - 4` of the address space.
      For the slot at 0 that word is the image's trailer; for the slot at 0x40000 it is
      whatever the running image has there. */
  lemma LocalAcceptedIff(b: Board, img: seq<Byte>, d: Device, len: Byte, data: seq<Byte>)
    requires Faithful(b, img, LOCAL_BIN, d) && d.info.inProgress && d.info.binType == LOCAL_BIN
    requires len < |data| && d.info.offset + len == |img|
    requires data[..len] == img[d.info.offset..d.info.offset + len]
    requires !SpoilsFlag(b, d.info.offset, len, data)
    ensures Succeeds(OnLocalBlock(b, d, len, data)) <==>
            FlagIn(b, img) && Crc32.Fold(b.crc, img[..|img| - 4], Crc32.INIT) == TrailerRead(b, img, d)
    ensures OnLocalBlock(b, d, len, data).timer == Handover <==> Succeeds(OnLocalBlock(b, d, len, data))
    ensures !Succeeds(OnLocalBlock(b, d, len, data)) ==>
              OnLocalBlock(b, d, len, data).replies == [EndStatus(|img|, |img|, OTA_INCORRECT_DATA)]
  {
    var w := WriteOp(d.info, len, Hide(b, d.info.offset, len, data));
    var j, r := LocalBlockReceived(b, img, d, len, data);
    FinalCheckIff(b, img, d, j, w, r);
    StoredLocalEnd(b, d.mem, j, w);
    LocalKept(b, d, len, data);
  }

  // ---------------------------------------------------------------- aborts

  /** If the step ends the transfer in failure, what it programmed lies below the reported
      offset, and everything from the start of the slot up to that offset ends up erased. */
  ghost predicate LeavesNothing(d: Device, s: Step) {
    && AllFit(d.mem, s.ops)
    && (Fails(s) ==>
          var a, n := d.info.start * SECTOR, s.replies[0].offset;
          && d.info.offset <= n && IsBlank(Outcome(d, s).mem, a, a + n)
          && forall k :: 0 <= k < |s.ops| && s.ops[k].ProgramOp? ==> OpWithin(s.ops[k], a, a + n))
  }

  lemma EndErases(d: Device, i: Info, timer: Timer, before: seq<Op>, status: Byte)
    requires AllFit(d.mem, before) && i.start == d.info.start && d.info.offset <= i.offset
    requires forall k :: 0 <= k < |before| ==> OpWithin(before[k], i.start * SECTOR, i.start * SECTOR + i.offset)
    requires (i.start + SectorsUsed(i.offset)) * SECTOR <= |d.mem|
    ensures LeavesNothing(d, End(i, timer, before, status))
  {
    if status != OTA_SUCCESS {
      var ops, n := EndOps(i, status), SectorsUsed(i.offset);
      EraseOpsBlank(Run(d.mem, before), i.start, n);
      RunConcat(d.mem, before, ops);
      assert i.start * SECTOR + i.offset <= (i.start + n) * SECTOR;
    }
  }

  lemma RoomToErase(b: Board, d: Device, n: nat)
    requires Sane(b, d) && d.info.inProgress && n <= d.info.offset + 255
    ensures (d.info.start + SectorsUsed(n)) * SECTOR <= |d.mem|
  {
    assert n < b.max + SECTOR;
  }

  lemma StoredErases(b: Board, d: Device, j: Info, w: Op)
    requires Sane(b, d) && d.info.inProgress && Fits(d.mem, w)
    requires j.start == d.info.start && d.info.offset <= j.offset <= d.info.offset + 255
    requires OpWithin(w, j.start * SECTOR, j.start * SECTOR + j.offset)
    ensures LeavesNothing(d, Stored(b, d.mem, j, w))
  {
    RoomToErase(b, d, j.offset);
    EndErases(d, j, Off, [w], OTA_INCORRECT_OFFSET);
    EndErases(d, j, Off, [w], OTA_INCORRECT_DATA);
    EndErases(d, j, Off, [w], OTA_SUCCESS);
    EndErases(d, j, Handover, [w], OTA_SUCCESS);
  }

  lemma BlockErases(b: Board, d: Device, msg: Msg)
    requires Sane(b, d) && d.info.inProgress && msg.BlockResponse? && WellFormed(msg)
    ensures LeavesNothing(d, OnBlock(b, d, msg))
  {
    var i, len, data := d.info, msg.len, msg.data;
    RoomToErase(b, d, i.offset);
    EndErases(d, i, Off, [], OTA_INCORRECT_DATA);
    EndErases(d, i, Off, [], OTA_MATCH_BOOT_FLAG);
    if msg.status == OTA_SUCCESS && msg.offset == i.offset {
      if i.binType == LOCAL_BIN {
        StoredErases(b, d, LocalNext(b, i, len, data), WriteOp(i, len, Hide(b, i.offset, len, data)));
      } else {
        StoredErases(b, d, RemoteNext(b, i, len, data), WriteOp(i, len, data));
      }
    }
  }

  /** A transfer that ends with any other status than success, for any reason and whatever was
      sent, leaves every byte it wrote erased. */
  lemma AbortErases(b: Board, d: Device, e: Event)
    requires Sane(b, d) && Possible(d, e) && d.info.inProgress
    ensures LeavesNothing(d, Handle(b, d, e))
  {
    match e
    case Received(BlockResponse(_, _, _, _)) => BlockErases(b, d, e.msg);
    case BlockTimer =>
      RoomToErase(b, d, d.info.offset);
      EndErases(d, d.info, Off, [], OTA_TIMEOUT);
    case _ =>
  }

  // ---------------------------------------------------------------- progress

  predicate AcceptedBlock(d: Device, e: Event) {
    e.Received? && e.msg.BlockResponse? && e.msg.status == OTA_SUCCESS && e.msg.offset == d.info.offset
  }

  /** A run that stays inside one transfer. */
  ghost predicate Inside(b: Board, d: Device, es: seq<Event>)
    requires Sane(b, d)
    decreases |es|
  {
    && d.info.inProgress
    && (es != [] ==>
          && Possible(d, es[0])
          && var s := Handle(b, d, es[0]);
             AllFit(d.mem, s.ops) && Sane(b, Outcome(d, s)) && Inside(b, Outcome(d, s), es[1..]))
  }

  ghost function Last(b: Board, d: Device, es: seq<Event>): Device
    requires Sane(b, d) && Inside(b, d, es)
    decreases |es|
  {
    if es == [] then d else Last(b, Outcome(d, Handle(b, d, es[0])), es[1..])
  }

  function Ticks(es: seq<Event>): nat {
    if es == [] then 0 else (if es[0].BlockTimer? then 1 else 0) + Ticks(es[1..])
  }

  ghost function Accepted(b: Board, d: Device, es: seq<Event>): nat
    requires Sane(b, d) && Inside(b, d, es)
    decreases |es|
  {
    if es == [] then 0
    else (if AcceptedBlock(d, es[0]) then 1 else 0) + Accepted(b, Outcome(d, Handle(b, d, es[0])), es[1..])
  }

  function Empties(es: seq<Event>): nat {
    if es == [] then 0
    else (if es[0].Received? && es[0].msg.BlockResponse? && es[0].msg.len == 0 then 1 else 0) + Empties(es[1..])
  }

  /** Each event inside a transfer: a tick uses up one request, an accepted block moves the
      offset and gives the requests back, and nothing else changes either. */
  lemma OneEvent(b: Board, d: Device, e: Event)
    requires Sane(b, d) && d.info.inProgress && Possible(d, e)
    requires Handle(b, d, e).info.inProgress
    ensures var t := Handle(b, d, e).info;
            && (e.BlockTimer? ==> t.offset == d.info.offset && t.count == d.info.count + 1 <= RETRY_MAX)
            && (AcceptedBlock(d, e) ==> t.offset == d.info.offset + e.msg.len && t.count == 0)
            && (!e.BlockTimer? && !AcceptedBlock(d, e) ==> t == d.info && Handle(b, d, e).ops == [])
  {
  }

  /** While a transfer is under way its timer is armed, and between two accepted blocks at most
      five requests go out: it cannot go on for ever unless the host keeps sending empty blocks,
      each of which gives the requests back. */
  lemma {:induction false} TransferEnds(b: Board, d: Device, es: seq<Event>)
    requires Sane(b, d) && Inside(b, d, es)
    ensures var t := Last(b, d, es);
            && t.timer == Block && t.info.count <= RETRY_MAX
            && Ticks(es) <= RETRY_MAX * Accepted(b, d, es) + t.info.count - d.info.count
            && Accepted(b, d, es) <= t.info.offset - d.info.offset + Empties(es)
    ensures Ticks(es) + Accepted(b, d, es) <= 6 * (d.info.total - d.info.offset) + 6 * Empties(es) + RETRY_MAX
    decreases |es|
  {
    LastBound(b, d, es);
    if es != [] {
      var s := Handle(b, d, es[0]);
      OneEvent(b, d, es[0]);
      TransferEnds(b, Outcome(d, s), es[1..]);
    }
  }

  lemma {:induction false} LastBound(b: Board, d: Device, es: seq<Event>)
    requires Sane(b, d) && Inside(b, d, es)
    ensures var t := Last(b, d, es); t.info.total == d.info.total && t.info.offset <= t.info.total && t.timer == Block
    decreases |es|
  {
    if es != [] {
      LastBound(b, Outcome(d, Handle(b, d, es[0])), es[1..]);
    }
  }

  // ---------------------------------------------------------------- what the host is told

  /** What the answer to a start request means: 0 that a transfer of this size into the spare slot
      has begun, with the area for it erased and the timer armed; 2 that one is under way, and nothing
      has changed; 4 that the file does not fit, see OversizeLeaves. */
  lemma StartAnswers(b: Board, d: Device, size: U32, binType: Byte)
    requires Sane(b, d)
    ensures var s := OnStart(b, d, size, binType);
            && AllFit(d.mem, s.ops) && |s.replies| == 1 && s.replies[0].StartRsp? && s.replies[0].info == s.info
            && var status, t, a := s.replies[0].status, Outcome(d, s), Spare(b, d.mem) * SECTOR;
               && (status == 2 <==> d.info.inProgress) && (status == 4 <==> !d.info.inProgress && size >= b.max)
               && (status != 2 && status != 4 ==> status == 0)
               && (status == 2 ==> t == d)
               && (status == 0 ==>
                     && t.info == Info(Spare(b, d.mem), size, 0, 0xFFFF_FFFF, d.info.bootFlag, false, true, 0, binType)
                     && t.timer == Block && IsBlank(t.mem, a, a + size) && SameOutside(d.mem, t.mem, a, a + b.max))
  {
    SaneStart(b, d, size, binType);
    if !d.info.inProgress && size < b.max {
      SectorsCover(b, Spare(b, d.mem), size);
      EraseOpsBlank(d.mem, Spare(b, d.mem), SectorsUsed(size));
    }
  }

  /** A block that is looked at and stored. */
  predicate Kept(b: Board, i: Info, msg: Msg)
    requires msg.BlockResponse? && WellFormed(msg) && |i.bootFlag| == 4
  {
    && msg.status == 0 && msg.offset == i.offset
    && (if i.binType == 1 then !SpoilsFlag(b, i.offset, msg.len, msg.data)
        else !MatchesFlag(i, RemoteNext(b, i, msg.len, msg.data)))
  }

  /** What the answer to a block means, in a transfer. None: it is stored and more is wanted, or it is
      for another offset. An end with 3: it was stored and went past the end. With 6: a remote file
      has the boot flag. With 5: the host has failed, or a local image has no flag byte, or fails the
      final check. With 0: it was the last and all is in order. Ends report the size and how far the
      transfer has got, and clear the record. */
  lemma BlockAnswers(b: Board, d: Device, msg: Msg)
    requires Sane(b, d) && d.info.inProgress && msg.BlockResponse? && WellFormed(msg)
    ensures var s, i := OnBlock(b, d, msg), d.info;
            var kept, end := Kept(b, i, msg), i.offset + msg.len;
            && (s.replies == [] <==> (kept && end < i.total) || (msg.status == 0 && msg.offset != i.offset))
            && (s.replies == [EndStatus(i.total, end, 3)] <==> kept && end > i.total)
            && (s.replies == [EndStatus(i.total, i.offset, 6)] <==>
                  msg.status == 0 && msg.offset == i.offset && i.binType != 1 && !kept)
            && (msg.status != 0 || (msg.offset == i.offset && i.binType == 1 && !kept) ==>
                  s.replies == [EndStatus(i.total, i.offset, 5)])
            && (kept && end == i.total ==>
                  || s.replies == [EndStatus(i.total, end, 0)]
                  || (i.binType == 1 && s.replies == [EndStatus(i.total, end, 5)]))
            && (s.replies == [EndStatus(i.total, end, 0)] ==> kept && end == i.total)
            && (s.replies != [] ==> s.info == CLEARED && s.timer != Block)
  {
  }

  /** A local block that ends right before the flag byte is judged by the byte behind it in the
      receive buffer, which is not part of it. */
  lemma ByteBehindDecides(b: Board, d: Device, msg: Msg)
    requires Sane(b, d) && d.info.inProgress && d.info.binType == LOCAL_BIN
    requires msg.BlockResponse? && WellFormed(msg) && msg.status == OTA_SUCCESS && msg.offset == d.info.offset
    requires msg.offset + msg.len == b.flag < d.info.total
    ensures var s := OnBlock(b, d, msg);
            if msg.data[msg.len] == 0x4B then s.replies == [] && s.info.inProgress
            else s.replies == [EndStatus(d.info.total, d.info.offset, 5)] && s.info == CLEARED
  {
  }

  // ---------------------------------------------------------------- outside a transfer

  /** Outside a transfer nothing is looked at but the status and the offset. A response that
      comes after a transfer has ended, or before the first: a success for another offset than 0
      does nothing, one for no bytes only stops the timer, with the handover it may have been
      armed for; anything else stops it too and erases the first sector of the chip. */
  lemma StrayResponse(b: Board, d: Device, msg: Msg)
    requires Roomy(b, d) && d.info == CLEARED && msg.BlockResponse? && WellFormed(msg)
    ensures AllFit(d.mem, OnBlock(b, d, msg).ops)
    ensures var t := Outcome(d, OnBlock(b, d, msg));
            if msg.status == OTA_SUCCESS && msg.offset != 0 then t == d && OnBlock(b, d, msg).replies == []
            else
              && t.info == CLEARED && t.timer == Off
              && (if msg.status == OTA_SUCCESS && msg.len == 0 then t.mem == d.mem
                  else IsBlank(t.mem, 0, SECTOR) && SameOutside(d.mem, t.mem, 0, SECTOR))
  {
    var i, len := d.info, msg.len;
    EndErasesUsed(d, i, [], OTA_INCORRECT_DATA, 0, SECTOR);
    if msg.status == OTA_SUCCESS && msg.offset == 0 {
      var j, w := RemoteNext(b, i, len, msg.data), WriteOp(i, len, msg.data);
      RunOne(d.mem, w);
      EndErasesUsed(d, i, [], OTA_MATCH_BOOT_FLAG, 0, SECTOR);
      EndErasesUsed(d, j, [w], OTA_INCORRECT_OFFSET, 0, SECTOR);
      if len == 0 {
        assert [w] + [] == [w];
        assert Apply(d.mem, w) == d.mem;
      }
    }
  }

  /** What a failing end does that follows writes within the sectors it erases. */
  lemma EndErasesUsed(d: Device, i: Info, before: seq<Op>, status: Byte, lo: nat, hi: nat)
    requires AllFit(d.mem, before) && status != OTA_SUCCESS
    requires lo == i.start * SECTOR && hi == (i.start + SectorsUsed(i.offset)) * SECTOR <= |d.mem|
    requires OpsWithin(before, lo, hi)
    ensures AllFit(d.mem, End(i, Off, before, status).ops)
    ensures var t := Outcome(d, End(i, Off, before, status));
            t.info == CLEARED && t.timer == Off && IsBlank(t.mem, lo, hi) && SameOutside(d.mem, t.mem, lo, hi)
  {
    var n := SectorsUsed(i.offset);
    var m := Run(d.mem, before);
    RunFrame(d.mem, before, lo, hi);
    EraseOpsBlank(m, i.start, n);
    RunConcat(d.mem, before, EraseOps(i.start, n));
  }

  /** The second record there is outside a transfer: a start request for an oversize file is
      refused, but the slot and the size stay in the record. */
  lemma OversizeLeaves(b: Board, d: Device, size: U32, binType: Byte)
    requires Sane(b, d) && !d.info.inProgress && size >= b.max
    ensures var s := OnStart(b, d, size, binType);
            && s.replies == [StartRsp(s.info, OTA_OVERSIZE)]
            && AllFit(d.mem, s.ops)
            && Outcome(d, s) == Device(d.info.(start := Spare(b, d.mem), total := size), d.timer, d.mem)
            && !s.info.inProgress && s.info != CLEARED
            && (Staying(b, d, Received(StartRequest(size, binType))) ==> Sane(b, Outcome(d, s)))
  {
    SaneStart(b, d, size, binType);
  }

  /** Whether a response for the offset at hand is stored outside a transfer. */
  predicate TakenAnyway(b: Board, d: Device, msg: Msg)
    requires Roomy(b, d) && msg.BlockResponse? && WellFormed(msg)
  {
    && msg.status == OTA_SUCCESS && msg.offset == d.info.offset
    && !MatchesFlag(d.info, RemoteNext(b, d.info, msg.len, msg.data))
  }

  /** A response after an oversize start, and whatever blocks have come since, up to the end of
      the chip: one for another offset does nothing; one for the offset at hand is programmed where
      it falls, in the slot or behind it, and arms the block timer, although no transfer is under
      way, until the announced size is reached; a failure, and a block that completes a boot flag,
      clear the record and erase from the start of the slot up to the sector the offset has
      reached, and so does a block past that size. */
  lemma OversizeResponse(b: Board, d: Device, msg: Msg)
    requires Sane(b, d) && !d.info.inProgress && d.info != CLEARED
    requires msg.BlockResponse? && WellFormed(msg) && Staying(b, d, Received(msg))
    ensures AllFit(d.mem, OnBlock(b, d, msg).ops)
    ensures var i, s, t := d.info, OnBlock(b, d, msg), Outcome(d, OnBlock(b, d, msg));
            var a, end := i.start * SECTOR, i.offset + msg.len;
            if msg.status == OTA_SUCCESS && msg.offset != i.offset then t == d
            else if TakenAnyway(b, d, msg) && end <= i.total then
              && s.ops == [ProgramOp(a + i.offset, msg.data[..msg.len])] && !t.info.inProgress
              && (if end < i.total then t.timer == Block && t.info.offset == end && t.info.total == i.total
                  else t.timer == Off && t.info == CLEARED)
            else
              var hi := ErasedTo(i.start, if TakenAnyway(b, d, msg) then end else i.offset);
              && t.info == CLEARED && t.timer == Off
              && IsBlank(t.mem, a, hi) && SameOutside(d.mem, t.mem, a, hi)
  {
    var i := d.info;
    SaneBlock(b, d, msg);
    RoomForErase(b, d);
    EndErasesUsed(d, i, [], OTA_INCORRECT_DATA, i.start * SECTOR, ErasedTo(i.start, i.offset));
    EndErasesUsed(d, i, [], OTA_MATCH_BOOT_FLAG, i.start * SECTOR, ErasedTo(i.start, i.offset));
    if TakenAnyway(b, d, msg) && i.offset + msg.len > i.total {
      PastTheSize(b, d, msg);
    }
  }

  lemma PastTheSize(b: Board, d: Device, msg: Msg)
    requires Sane(b, d) && !d.info.inProgress && d.info != CLEARED
    requires msg.BlockResponse? && WellFormed(msg) && Staying(b, d, Received(msg))
    requires TakenAnyway(b, d, msg) && d.info.offset + msg.len > d.info.total
    ensures AllFit(d.mem, OnBlock(b, d, msg).ops)
    ensures var t, a := Outcome(d, OnBlock(b, d, msg)), d.info.start * SECTOR;
            var hi := ErasedTo(d.info.start, d.info.offset + msg.len);
            t.info == CLEARED && t.timer == Off && IsBlank(t.mem, a, hi) && SameOutside(d.mem, t.mem, a, hi)
  {
    var j, w := RemoteNext(b, d.info, msg.len, msg.data), WriteOp(d.info, msg.len, msg.data);
    var hi := ErasedTo(d.info.start, d.info.offset + msg.len);
    assert OnBlock(b, d, msg) == End(j, Off, [w], OTA_INCORRECT_OFFSET);
    ErasedPast(d.info.start, d.info.offset + msg.len);
    EndErasesUsed(d, j, [w], OTA_INCORRECT_OFFSET, d.info.start * SECTOR, hi);
  }

  lemma ErasedPast(start: nat, n: nat)
    ensures start * SECTOR + n < ErasedTo(start, n) <= start * SECTOR + n + SECTOR
  {
  }

  lemma RoomForErase(b: Board, d: Device)
    requires Roomy(b, d)
    ensures ErasedTo(d.info.start, d.info.offset) <= |d.mem|
  {
    assert d.info.offset / SECTOR * SECTOR <= d.info.offset;
  }

  /** The device after `k` ticks with no answer. */
  function Ticking(b: Board, d: Device, k: nat): Device
    requires Sane(b, d) && d.timer == Block && d.info.count + k <= RETRY_MAX
  {
    d.(info := d.info.(count := d.info.count + k))
  }

  /** Each of them asks for the next 40 bytes, or for what is left, and does nothing else but count;
      the one after the fifth ends it with a timeout and erases what the offset says was used, in a
      transfer or not. */
  lemma UnansweredEnds(b: Board, d: Device, k: nat)
    requires Sane(b, d) && d.timer == Block && d.info.count + k <= 5
    ensures var t, i := Ticking(b, d, k), d.info;
            && Sane(b, t) && AllFit(d.mem, OnBlockTimer(t).ops)
            && var r, replies := Outcome(t, OnBlockTimer(t)), OnBlockTimer(t).replies;
               if i.count + k < 5 then
                 && r == Ticking(b, d, k + 1) && |replies| == 1 && replies[0].BlockReq?
                 && var req := replies[0];
                    && req.offset == i.offset && req.len <= 40
                    && (if i.offset <= i.total then
                          req.offset + req.len <= i.total && (req.len == 40 || req.offset + req.len == i.total)
                        else req.len == 40)
               else
                 && replies == [EndStatus(i.total, i.offset, OTA_TIMEOUT)]
                 && r.info == CLEARED && r.timer == Off
                 && IsBlank(r.mem, i.start * SECTOR, ErasedTo(i.start, i.offset))
                 && SameOutside(d.mem, r.mem, i.start * SECTOR, ErasedTo(i.start, i.offset))
  {
    var t := Ticking(b, d, k);
    RoomForErase(b, d);
    SaneBlockTimer(b, t);
    EndErasesUsed(t, t.info, [], OTA_TIMEOUT, t.info.start * SECTOR, ErasedTo(t.info.start, t.info.offset));
  }

  /** So a refused start request is enough to have blocks stored and, once they stop, the first
      sector of the spare slot erased, with no transfer ever under way. */
  lemma OversizeThenStray(b: Board, d: Device, size: U32, binType: Byte, msg: Msg) returns (t1: Device, t2: Device)
    requires Sane(b, d) && d.info == CLEARED && size >= b.max
    requires msg.BlockResponse? && WellFormed(msg) && msg.status == OTA_SUCCESS && msg.offset == 0
    requires b.flag + 4 <= msg.len ==> msg.data[b.flag..b.flag + 4] != FLAG_WORD
    ensures AllFit(d.mem, OnStart(b, d, size, binType).ops) && t1 == Outcome(d, OnStart(b, d, size, binType))
    ensures Sane(b, t1) && AllFit(t1.mem, OnBlock(b, t1, msg).ops) && t2 == Outcome(t1, OnBlock(b, t1, msg))
    ensures OnStart(b, d, size, binType).replies == [StartRsp(t1.info, OTA_OVERSIZE)]
    ensures t2.mem == Apply(d.mem, ProgramOp(Spare(b, d.mem) * SECTOR, msg.data[..msg.len]))
    ensures msg.len < b.max ==> Sane(b, t2) && !t2.info.inProgress && t2.timer == Block && t2.info.offset == msg.len
  {
    OversizeLeaves(b, d, size, binType);
    t1 := Outcome(d, OnStart(b, d, size, binType));
    SaneBlock(b, t1, msg);
    NotAMatch(b, t1.info, msg);
    OversizeResponse(b, t1, msg);
    RunOne(d.mem, ProgramOp(Spare(b, d.mem) * SECTOR, msg.data[..msg.len]));
    t2 := Outcome(t1, OnBlock(b, t1, msg));
  }

  lemma NotAMatch(b: Board, i: Info, msg: Msg)
    requires msg.BlockResponse? && WellFormed(msg) && i.offset == 0 && |i.bootFlag| == 4
    requires b.flag + 4 <= msg.len ==> msg.data[b.flag..b.flag + 4] != FLAG_WORD
    ensures !MatchesFlag(i, RemoteNext(b, i, msg.len, msg.data))
  {
    if b.flag + 4 <= msg.len {
      assert Capture(b, 0, msg.len, msg.data, i.bootFlag) == msg.data[b.flag..b.flag + 4];
    }
  }

  /** A new transfer takes the timer handle over, so a pending handover is off. */
  lemma RestartCancelsHandover(b: Board, d: Device, size: U32, binType: Byte)
    requires Sane(b, d) && d.timer == Handover && size < b.max
    ensures var s := OnStart(b, d, size, binType);
            && s.timer == Block && s.info.inProgress
            && AllFit(d.mem, s.ops) && !Possible(Outcome(d, s), HandoverTimer)
  {
  }
}
