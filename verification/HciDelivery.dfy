/** A local update whose every block arrives: which devices take an image that is in order, and
    that it is the one that runs afterwards. */
module HciDelivery {
  import opened Bytes
  import opened NorFlash
  import opened HciOta
  import opened HciTransfer
  import opened HciOutcome
  import opened HciBoot
  import opened HciHandover
  import Crc32

  /** An image in order: its flag word in place, its trailer the CRC over all before it. */
  predicate Sealed(b: Board, img: seq<Byte>) {
    && FlagIn(b, img) && b.flag + 4 < |img| < b.max
    && Crc32.Fold(b.crc, img[..|img| - 4], Crc32.INIT) == Le32(img[|img| - 4..])
  }

  /** The block a host answers the next request with; the flag test may look one byte further. */
  function NextBlock(img: seq<Byte>, offset: nat): (msg: Msg)
    requires offset < |img| < WORD
    ensures msg.BlockResponse? && WellFormed(msg) && Serves(img, LOCAL_BIN, msg)
    ensures msg.offset == offset && msg.len == Min(BLOCK_MAX, |img| - offset)
    ensures msg.data == img[offset..offset + msg.len] + [START_FLAG]
  {
    var len := Min(BLOCK_MAX, |img| - offset);
    var data := img[offset..offset + len] + [START_FLAG];
    assert data[..len] == img[offset..offset + len];
    BlockResponse(OTA_SUCCESS, offset, len, data)
  }

  lemma FlagPasses(b: Board, img: seq<Byte>, offset: nat, msg: Msg)
    requires FlagIn(b, img) && offset < |img| < WORD && msg == NextBlock(img, offset)
    ensures !SpoilsFlag(b, offset, msg.len, msg.data)
  {
    assert img[b.flag] == img[b.flag..b.flag + 4][0];
    if CoversFlag(b, offset, msg.len) && b.flag < offset + msg.len {
      assert msg.data[b.flag - offset] == img[offset..offset + msg.len][b.flag - offset];
    }
  }

  /** Flash below the second slot, which a transfer into that leaves alone. */
  predicate SameBelow(m: Mem, r: Mem) {
    |m| == |r| && forall k :: 0 <= k < SLOT_B * SECTOR && k < |m| ==> r[k] == m[k]
  }

  lemma WordBelow(b: Board, img: seq<Byte>, m: Mem, r: Mem)
    requires b.Valid() && 4 <= |img| < b.max && SameBelow(m, r)
    ensures WordAt(r, |img| - 4) == WordAt(m, |img| - 4)
  {
    WordFrame(m, r, |img| - 4);
  }

  /** One more block that is not the last. */
  lemma OneMore(b: Board, img: seq<Byte>, d: Device, msg: Msg) returns (t: Device)
    requires Faithful(b, img, LOCAL_BIN, d) && d.info.inProgress && FlagIn(b, img)
    requires |img| - d.info.offset > BLOCK_MAX && msg == NextBlock(img, d.info.offset)
    ensures AllFit(d.mem, OnBlock(b, d, msg).ops) && t == Outcome(d, OnBlock(b, d, msg))
    ensures Faithful(b, img, LOCAL_BIN, t) && t.info.inProgress && t.info.start == d.info.start
    ensures t.info.offset == d.info.offset + BLOCK_MAX && (t.info.start == SLOT_B ==> SameBelow(d.mem, t.mem))
  {
    var i, len, data := d.info, msg.len, msg.data;
    FlagPasses(b, img, i.offset, msg);
    BlockKeeps(b, img, d, msg);
    LocalKept(b, d, len, data);
    var w := WriteOp(i, len, Hide(b, i.offset, len, data));
    RunOne(d.mem, w);
    t := Outcome(d, OnBlock(b, d, msg));
  }

  lemma SessionOn(b: Board, img: seq<Byte>, d: Device, e: Event, rest: seq<Event>)
    requires Sane(b, d) && Possible(d, e) && (e.Received? ==> Serves(img, LOCAL_BIN, e.msg))
    requires AllFit(d.mem, Handle(b, d, e).ops) && Sane(b, Outcome(d, Handle(b, d, e)))
    requires Session(b, img, LOCAL_BIN, Outcome(d, Handle(b, d, e)), rest)
    ensures Session(b, img, LOCAL_BIN, d, [e] + rest)
    ensures After(b, img, LOCAL_BIN, d, [e] + rest) == After(b, img, LOCAL_BIN, Outcome(d, Handle(b, d, e)), rest)
  {
    assert ([e] + rest)[1..] == rest;
  }

  /** The session up to the last block. */
  lemma {:induction false} UpToLast(b: Board, img: seq<Byte>, d: Device) returns (es: seq<Event>, t: Device)
    requires Faithful(b, img, LOCAL_BIN, d) && d.info.inProgress && FlagIn(b, img)
    ensures Session(b, img, LOCAL_BIN, d, es) && t == After(b, img, LOCAL_BIN, d, es)
    ensures Faithful(b, img, LOCAL_BIN, t) && t.info.inProgress && t.info.start == d.info.start
    ensures 0 < |img| - t.info.offset <= BLOCK_MAX && (t.info.start == SLOT_B ==> SameBelow(d.mem, t.mem))
    decreases |img| - d.info.offset
  {
    if |img| - d.info.offset <= BLOCK_MAX {
      es, t := [], d;
    } else {
      var msg := NextBlock(img, d.info.offset);
      var next := OneMore(b, img, d, msg);
      es, t := UpToLast(b, img, next);
      SessionOn(b, img, d, Received(msg), es);
      es := [Received(msg)] + es;
    }
  }

  lemma Started(b: Board, img: seq<Byte>, d: Device) returns (t: Device)
    requires Sane(b, d) && !d.info.inProgress && 4 <= |img| < b.max
    ensures AllFit(d.mem, OnStart(b, d, |img|, LOCAL_BIN).ops)
    ensures t == Outcome(d, OnStart(b, d, |img|, LOCAL_BIN))
    ensures Faithful(b, img, LOCAL_BIN, t) && t.info.inProgress && t.info.start == Spare(b, d.mem)
    ensures t.info.start == SLOT_B ==> SameBelow(d.mem, t.mem)
  {
    StartKeeps(b, img, LOCAL_BIN, d);
    t := Outcome(d, OnStart(b, d, |img|, LOCAL_BIN));
    SectorsCover(b, t.info.start, |img|);
    EraseOpsBlank(d.mem, t.info.start, SectorsUsed(|img|));
  }

  /** Every image in order can be sent to every device that is not in a transfer, block by block
      to the last. It is then taken exactly if it went into the slot at 0, or if the running
      image at 0 happens to have the same CRC where the new one ends. */
  lemma SealedTakenIff(b: Board, img: seq<Byte>, d: Device) returns (es: seq<Event>, t: Device, last: Msg)
    requires Sane(b, d) && !d.info.inProgress && Sealed(b, img)
    ensures Session(b, img, LOCAL_BIN, d, es) && t == After(b, img, LOCAL_BIN, d, es)
    ensures Faithful(b, img, LOCAL_BIN, t) && t.info.inProgress
    ensures last.BlockResponse? && WellFormed(last) && Serves(img, LOCAL_BIN, last)
    ensures last.status == OTA_SUCCESS && last.offset == t.info.offset && last.offset + last.len == |img|
    ensures t.info.start == Spare(b, d.mem) && (BootsFromA(b, d.mem) ==> SameBelow(d.mem, t.mem))
    ensures Succeeds(OnBlock(b, t, last)) <==>
            !BootsFromA(b, d.mem) || WordAt(d.mem, |img| - 4) == Le32(img[|img| - 4..])
    ensures !Succeeds(OnBlock(b, t, last)) ==>
              OnBlock(b, t, last).replies == [EndStatus(|img|, |img|, OTA_INCORRECT_DATA)]
  {
    var start := Received(StartRequest(|img|, LOCAL_BIN));
    var t0 := Started(b, img, d);
    es, t := UpToLast(b, img, t0);
    SessionOn(b, img, d, start, es);
    es := [start] + es;
    last := NextBlock(img, t.info.offset);
    FlagPasses(b, img, t.info.offset, last);
    if t.info.start == SLOT_B {
      WordBelow(b, img, d.mem, t.mem);
    }
    LocalAcceptedIff(b, img, t, last.len, last.data);
    OwnTrailer(b, img);
  }

  /** So an image in order is refused by a device that runs from 0 whose image has another word
      there: the last block is answered with the status for wrong data. */
  lemma GoodImageRefused(b: Board, img: seq<Byte>, d: Device) returns (es: seq<Event>, t: Device, last: Msg)
    requires Sane(b, d) && !d.info.inProgress && Sealed(b, img)
    requires BootsFromA(b, d.mem) && WordAt(d.mem, |img| - 4) != Le32(img[|img| - 4..])
    ensures Session(b, img, LOCAL_BIN, d, es) && t == After(b, img, LOCAL_BIN, d, es) && t.info.inProgress
    ensures last.BlockResponse? && WellFormed(last) && Serves(img, LOCAL_BIN, last) && Roomy(b, t)
    ensures last.offset + last.len == |img|
    ensures OnBlock(b, t, last).replies == [EndStatus(|img|, |img|, OTA_INCORRECT_DATA)]
  {
    es, t, last := SealedTakenIff(b, img, d);
  }

  // ---------------------------------------------------------------- the image that comes up

  /** In order, and its header says how long it is. */
  predicate InOrder(b: Board, img: seq<Byte>) {
    && Sealed(b, img) && 0x1C <= |img| && b.flag + 8 <= |img|
    && Le32(img[0x18..0x1C]) == |img|
  }

  lemma HeldSlice(b: Board, m: Mem, slot: nat, img: seq<Byte>, s: seq<Byte>, lo: nat, hi: nat)
    requires slot * SECTOR + b.max <= |m| && s == SlotOf(b, m, slot) && |img| <= b.max
    requires Holds(m, slot * SECTOR, img) && lo <= hi <= |img|
    ensures s[lo..hi] == img[lo..hi]
  {
    HoldsPart(m, slot * SECTOR, img, lo, hi);
    SliceOfSlice(m, slot * SECTOR, slot * SECTOR + b.max, lo, hi);
  }

  /** A slot that begins with it is sound. */
  lemma HeldIsSound(b: Board, img: seq<Byte>, m: Mem, slot: nat)
    requires b.Valid() && slot * SECTOR + b.max <= |m| && InOrder(b, img) && Holds(m, slot * SECTOR, img)
    ensures SlotSound(b, m, slot)
  {
    var s := SlotOf(b, m, slot);
    HeldSlice(b, m, slot, img, s, 0x18, 0x1C);
    HeldSlice(b, m, slot, img, s, b.flag, b.flag + 4);
    HeldSlice(b, m, slot, img, s, 0, |img| - 4);
    HeldSlice(b, m, slot, img, s, |img| - 4, |img|);
    assert s[..|img| - 4] == s[0..|img| - 4] && img[..|img| - 4] == img[0..|img| - 4];
    assert img[|img| - 4..] == img[|img| - 4..|img|];
  }

  /** Raising the flag byte turns what was stored into the image. */
  lemma RaisedHolds(b: Board, img: seq<Byte>, m: Mem, slot: nat, r: Mem)
    requires FlagIn(b, img) && Holds(m, slot * SECTOR, OnDisk(b, img, LOCAL_BIN))
    requires slot * SECTOR + b.flag < |m| && r == m[slot * SECTOR + b.flag := START_FLAG]
    ensures Holds(r, slot * SECTOR, img)
  {
    assert img[b.flag] == img[b.flag..b.flag + 4][0];
  }

  lemma HeldSize(b: Board, img: seq<Byte>, m: Mem, slot: nat, r: Mem)
    requires b.Valid() && b.OnChip(m) && (slot == 0 || slot == SLOT_B) && InOrder(b, img)
    requires r == m[slot * SECTOR + b.flag := START_FLAG] && Holds(r, slot * SECTOR, img)
    ensures HeaderSize(m, slot) == |img|
  {
    WordInSlot(b, m, r, slot, 0x18);
    HeldSlice(b, r, slot, img, SlotOf(b, r, slot), 0x18, 0x1C);
  }

  /** Every image in order passes the image check, as it was stored. */
  lemma InOrderPasses(b: Board, img: seq<Byte>, m: Mem, slot: nat)
    requires b.Valid() && b.OnChip(m) && (slot == 0 || slot == SLOT_B) && InOrder(b, img)
    requires Holds(m, slot * SECTOR, OnDisk(b, img, LOCAL_BIN))
    ensures NewImageValid(b, m, slot)
  {
    var r := m[slot * SECTOR + b.flag := START_FLAG];
    RaisedHolds(b, img, m, slot, r);
    HeldSize(b, img, m, slot, r);
    HeldIsSound(b, img, r, slot);
    ImageCheckIff(b, m, slot, r);
  }

  lemma RaisedByte(b: Board, m: Mem, slot: nat)
    requires slot * SECTOR + b.flag < |m| && m[slot * SECTOR + b.flag] == BLANK
    ensures Apply(m, SetFlag(b, slot)) == m[slot * SECTOR + b.flag := START_FLAG]
  {
  }

  lemma ClearedBelow(b: Board, m: Mem, img: seq<Byte>)
    requires b.Valid() && b.OnChip(m) && Holds(m, SLOT_B * SECTOR, img)
    ensures var r := Apply(m, ClearFlag(b, 0)); Holds(r, SLOT_B * SECTOR, img) && !BootsFromA(b, r)
  {
    AndZero(m[b.flag]);
    assert Apply(m, ClearFlag(b, 0))[b.flag] == Programmed(m[b.flag], 0);
  }

  /** On a device that runs from 0 the handover brings it up: the chip is reset and then boots from
      0x40000, where the image lies byte for byte. */
  lemma HandoverBringsUp(b: Board, img: seq<Byte>, d: Device) returns (t: Device)
    requires Sane(b, d) && d.timer == Handover && BootsFromA(b, d.mem) && InOrder(b, img)
    requires Holds(d.mem, SLOT_B * SECTOR, OnDisk(b, img, LOCAL_BIN))
    ensures AllFit(d.mem, OnHandover(b, d).ops) && OnHandover(b, d).reset && t == Outcome(d, OnHandover(b, d))
    ensures t.info == CLEARED && Running(b, t.mem) == SLOT_B
    ensures Holds(t.mem, SLOT_B * SECTOR, img) && SlotSound(b, t.mem, SLOT_B)
  {
    var m, raise, drop := d.mem, SetFlag(b, SLOT_B), ClearFlag(b, 0);
    SaneHandover(b, d);
    InOrderPasses(b, img, m, SLOT_B);
    assert m[SLOT_B * SECTOR + b.flag] == OnDisk(b, img, LOCAL_BIN)[b.flag];
    RaisedByte(b, m, SLOT_B);
    var m1 := Apply(m, raise);
    RaisedHolds(b, img, m, SLOT_B, m1);
    RunOne(m, raise);
    RunSnoc(m, [raise], drop);
    assert [raise] + [drop] == [raise, drop];
    ClearedBelow(b, m1, img);
    t := Outcome(d, OnHandover(b, d));
    HeldIsSound(b, img, t.mem, SLOT_B);
  }

  /** The last block of a session has been taken. */
  lemma LastTaken(b: Board, img: seq<Byte>, d: Device, last: Msg) returns (t: Device)
    requires Faithful(b, img, LOCAL_BIN, d) && d.info.inProgress && d.info.start == SLOT_B && FlagIn(b, img)
    requires last.BlockResponse? && WellFormed(last) && Serves(img, LOCAL_BIN, last)
    requires last.status == OTA_SUCCESS && last.offset == d.info.offset && last.offset + last.len == |img|
    requires Succeeds(OnBlock(b, d, last))
    ensures AllFit(d.mem, OnBlock(b, d, last).ops) && t == Outcome(d, OnBlock(b, d, last))
    ensures Sane(b, t) && t.timer == Handover && SameBelow(d.mem, t.mem)
    ensures Holds(t.mem, SLOT_B * SECTOR, OnDisk(b, img, LOCAL_BIN))
  {
    SaneBlock(b, d, last);
    SuccessIsWhole(b, img, d, last);
    t := Outcome(d, OnBlock(b, d, last));
    LastTimer(b, img, d, last);
    LastBelow(b, d, last);
  }

  lemma LastTimer(b: Board, img: seq<Byte>, d: Device, last: Msg)
    requires Faithful(b, img, LOCAL_BIN, d) && d.info.inProgress
    requires last.BlockResponse? && WellFormed(last) && last.status == OTA_SUCCESS && last.offset == d.info.offset
    requires last.offset + last.len == |img| && Succeeds(OnBlock(b, d, last))
    ensures OnBlock(b, d, last).timer == Handover
  {
  }

  /** What a transfer into the second slot writes lies in it. */
  lemma LastBelow(b: Board, d: Device, last: Msg)
    requires Sane(b, d) && d.info.inProgress && d.info.start == SLOT_B
    requires last.BlockResponse? && WellFormed(last) && Succeeds(OnBlock(b, d, last))
    requires AllFit(d.mem, OnBlock(b, d, last).ops)
    ensures SameBelow(d.mem, Run(d.mem, OnBlock(b, d, last).ops))
  {
    var ops := OnBlock(b, d, last).ops;
    assert ops == [] || ops == [ops[0]];
    RunFrame(d.mem, ops, SLOT_B * SECTOR, |d.mem|);
  }

  /** The whole update of a device that runs from 0: for every image in order that the last check
      takes there is a session, whose last block is answered with success, after which the image is
      the one that runs. */
  lemma DeliveredComesUp(b: Board, img: seq<Byte>, d: Device)
      returns (es: seq<Event>, t: Device, last: Msg, u: Device, up: Device)
    requires Sane(b, d) && !d.info.inProgress && InOrder(b, img)
    requires BootsFromA(b, d.mem) && WordAt(d.mem, |img| - 4) == Le32(img[|img| - 4..])
    ensures Session(b, img, LOCAL_BIN, d, es) && t == After(b, img, LOCAL_BIN, d, es)
    ensures Sane(b, t) && last.BlockResponse? && WellFormed(last) && Serves(img, LOCAL_BIN, last)
    ensures Succeeds(OnBlock(b, t, last)) && AllFit(t.mem, OnBlock(b, t, last).ops)
    ensures u == Outcome(t, OnBlock(b, t, last)) && Sane(b, u) && u.timer == Handover
    ensures AllFit(u.mem, OnHandover(b, u).ops) && up == Outcome(u, OnHandover(b, u))
    ensures OnHandover(b, u).reset && Running(b, up.mem) == SLOT_B && Holds(up.mem, SLOT_B * SECTOR, img)
  {
    es, t, last := SealedTakenIff(b, img, d);
    u := LastTaken(b, img, t, last);
    up := HandoverBringsUp(b, img, u);
  }
}
