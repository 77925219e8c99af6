/** The bootloader's UART upgrade: a stop-and-wait transfer that fills the spare slot. */
module UartUpgrade {
  import opened Bytes
  import opened NorFlash
  import opened Firmware

  const RETRY_MAX := 5
  const BLOCK_MAX := 40
  const CHECK_AFTER_UPGRADE := 50

  const STA_SUCCESS: Byte := 0
  const STA_TIMEOUT: Byte := 1
  const STA_IN_PROGRESS: Byte := 2
  const STA_INCORRECT_OFFSET: Byte := 3
  const STA_OVERSIZE: Byte := 4
  const STA_ERR_BLOCK: Byte := 5

  const CMD_START := 0x0210
  const CMD_BLOCK := 0x0211

  /** `upgradeInfo`. `timer` says whether the retry timer is armed. */
  datatype Info = Info(timer: bool, start: nat, total: nat, offset: nat, retry: nat)

  const CLEARED := Info(false, 0, 0, 0, 0)

  /** `check` is the delay the install check was armed with, 0 when it is not armed. */
  datatype Device = Device(info: Info, check: nat, mem: Mem)

  /** A message as the handler reads it. `data` is the receive buffer from the block on. */
  datatype Msg =
    | StartRequest(size: U32)
    | BlockResponse(status: Byte, offset: U32, len: Byte, data: seq<Byte>)
    | Ignored

  datatype Event = Received(msg: Msg) | RetryTimer

  datatype Reply =
    | StartRsp(info: Info, status: Byte)
    | BlockReq(offset: nat, len: nat)
    | EndStatus(total: nat, offset: nat, status: Byte)
    | Ack(status: Byte)

  /** The buffer is readable as far as the longest block and the flag byte reach. */
  predicate WellFormed(msg: Msg) {
    msg.BlockResponse? ==> |msg.data| >= BLOCK_MAX
  }

  /** Blocks may overrun the slot by less than their own length. */
  predicate Fitting(l: Layout, m: Mem) {
    l.spare + l.max + BLOCK_MAX <= |m|
  }

  predicate Sane(l: Layout, d: Device) {
    && l.Valid() && Fitting(l, d.mem)
    && (d.info.start == 0 ==> d.info == CLEARED)
    && (d.info.start != 0 ==> d.info.start == l.spare && d.info.total <= l.max && d.info.offset <= d.info.total)
    && d.info.retry <= RETRY_MAX
  }

  function Sectors(size: nat): nat {
    (size + 4095) / SECTOR
  }

  function OnStart(l: Layout, d: Device, size: U32): (Device, seq<Reply>)
    requires Sane(l, d)
  {
    if d.info.start != 0 then (d, [StartRsp(d.info, STA_IN_PROGRESS)])
    else if size > l.max then (d, [StartRsp(d.info, STA_OVERSIZE)])
    else
      var info := Info(true, l.spare, size, 0, 0);
      (Device(info, 0, Run(d.mem, EraseOps(l.spareSector, Sectors(size)))), [StartRsp(info, STA_SUCCESS)])
  }

  /** The first block has its flag byte disabled before it is stored. */
  function Stored(l: Layout, offset: nat, len: nat, data: seq<Byte>): seq<Byte>
    requires l.flag < |data| && len <= |data|
  {
    (if offset == 0 then data[l.flag := BLANK] else data)[..len]
  }

  predicate Accepts(d: Device, msg: Msg) {
    && msg.BlockResponse? && msg.status == STA_SUCCESS && d.info.total != 0
    && msg.offset == d.info.offset && 0 < msg.len <= BLOCK_MAX
  }

  /** `bootloader_uartOtaComplete` and the timeout clear the whole record. */
  function Dropped(d: Device, m: Mem): Device {
    Device(CLEARED, d.check, m)
  }

  /** The last block is in: enable the flag and arm the install check. */
  function Finished(l: Layout, m: Mem): Device
    requires l.Valid() && Fitting(l, m)
  {
    Device(CLEARED, CHECK_AFTER_UPGRADE, Apply(m, ProgramOp(l.spare + l.flag, [START_UP_FLAG])))
  }

  function Advanced(d: Device, m: Mem, end: nat): Device {
    Device(d.info.(timer := true, offset := end, retry := 0), d.check, m)
  }

  /** The timer was cancelled before the block was looked at; refusing it does not rearm it. */
  function Refused(d: Device): Device {
    d.(info := d.info.(timer := false))
  }

  function Store(l: Layout, d: Device, msg: Msg): (m: Mem)
    requires Sane(l, d) && WellFormed(msg) && Accepts(d, msg)
    ensures |m| == |d.mem|
  {
    Apply(d.mem, ProgramOp(l.spare + d.info.offset, Stored(l, d.info.offset, msg.len, msg.data)))
  }

  function OnBlock(l: Layout, d: Device, msg: Msg): (Device, seq<Reply>)
    requires Sane(l, d) && msg.BlockResponse? && WellFormed(msg)
  {
    var i := d.info;
    if msg.status != STA_SUCCESS || i.total == 0 then
      (Dropped(d, d.mem), [EndStatus(i.total, i.offset, STA_ERR_BLOCK)])
    else if Accepts(d, msg) then
      var m, end := Store(l, d, msg), i.offset + msg.len;
      if end == i.total then (Finished(l, m), [EndStatus(i.total, end, STA_SUCCESS)])
      else if end > i.total then (Dropped(d, m), [EndStatus(i.total, end, STA_INCORRECT_OFFSET)])
      else (Advanced(d, m, end), [Ack(STA_SUCCESS)])
    else (Refused(d), [Ack(STA_INCORRECT_OFFSET)])
  }

  function Min(a: nat, b: nat): nat {
    if a < b then a else b
  }

  function OnRetryTimer(l: Layout, d: Device): (Device, seq<Reply>)
    requires Sane(l, d)
  {
    var i := d.info;
    if i.retry < RETRY_MAX then
      (d.(info := i.(retry := i.retry + 1)), [BlockReq(i.offset, Min(BLOCK_MAX, i.total - i.offset))])
    else (Dropped(d, d.mem), [EndStatus(i.total, i.offset, STA_TIMEOUT)])
  }

  /** The retry timer only runs while it is armed. */
  predicate Possible(d: Device, e: Event) {
    (e.Received? ==> WellFormed(e.msg)) && (e.RetryTimer? ==> d.info.timer)
  }

  function Handle(l: Layout, d: Device, e: Event): (Device, seq<Reply>)
    requires Sane(l, d) && Possible(d, e)
  {
    match e
    case Received(StartRequest(size)) => OnStart(l, d, size)
    case Received(BlockResponse(_, _, _, _)) => OnBlock(l, d, e.msg)
    case Received(Ignored) => (d, [])
    case RetryTimer => OnRetryTimer(l, d)
  }

  lemma SaneStart(l: Layout, d: Device, size: U32)
    requires Sane(l, d)
    ensures Sane(l, OnStart(l, d, size).0)
  {
  }

  lemma SaneHandle(l: Layout, d: Device, e: Event)
    requires Sane(l, d) && Possible(d, e)
    ensures Sane(l, Handle(l, d, e).0)
    ensures |Handle(l, d, e).0.mem| == |d.mem|
  {
  }

  // ---------------------------------------------------------------- the transfer of one image

  /** The image with its start-up flag disabled, as it lies in flash during the transfer. */
  function Disabled(l: Layout, img: seq<Byte>): (r: seq<Byte>)
    ensures |r| == |img|
  {
    if l.flag < |img| then img[l.flag := BLANK] else img
  }

  /** The image with its start-up flag set. */
  function Enabled(l: Layout, img: seq<Byte>): (r: seq<Byte>)
    ensures |r| == |img|
  {
    if l.flag < |img| then img[l.flag := START_UP_FLAG] else img
  }

  /** What a host that serves `img` puts on the wire: the size, error statuses, and pieces of
      the image of any length. The network may lose, repeat and reorder all of it. */
  predicate Serves(img: seq<Byte>, msg: Msg) {
    match msg
    case StartRequest(size) => size == |img|
    case BlockResponse(status, offset, len, data) =>
      status == STA_SUCCESS ==>
        offset + len <= |img| && len <= |data| && data[..len] == img[offset..offset + len]
    case Ignored => true
  }

  /** A first piece reaches past the flag byte unless it is the whole image. */
  predicate PastFlag(l: Layout, img: seq<Byte>, msg: Msg) {
    msg.BlockResponse? && msg.status == STA_SUCCESS && msg.offset == 0 && msg.len != 0 ==>
      l.flag < msg.len || msg.len == |img|
  }

  /** The block the request asks for is a piece of the image, and one that reaches past the
      flag byte if it is the first. */
  lemma RequestedIsServed(l: Layout, img: seq<Byte>, d: Device, data: seq<Byte>)
    requires Sane(l, d) && d.info.timer && d.info.retry < RETRY_MAX
    requires d.info.total == |img| && d.info.offset < |img|
    ensures
      var req := OnRetryTimer(l, d).1[0];
      && req == BlockReq(d.info.offset, Min(BLOCK_MAX, |img| - d.info.offset)) && 0 < req.len
      && var msg := BlockResponse(STA_SUCCESS, req.offset, req.len, data);
         && (req.len <= |data| && data[..req.len] == img[req.offset..req.offset + req.len] ==> Serves(img, msg))
         && PastFlag(l, img, msg) && Accepts(d, msg)
  {
  }

  /** The image as it lies in flash during the transfer. A `bare` one came in a first block that
      ended at or before the flag byte, which so was stored as it is. */
  function InFlash(l: Layout, img: seq<Byte>, bare: bool): (r: seq<Byte>)
    ensures |r| == |img|
  {
    if bare then img else Disabled(l, img)
  }

  /** Whether the transfer is a bare one, after event `e`: the first accepted block decides. */
  predicate BareNext(l: Layout, d: Device, e: Event, bare: bool) {
    if e.Received? && Accepts(d, e.msg) && d.info.offset == 0 then e.msg.len <= l.flag else bare
  }

  /** The image once 0x4B has been programmed over its flag byte. */
  function Finalized(l: Layout, img: seq<Byte>, bare: bool): (r: seq<Byte>)
    ensures |r| == |img|
  {
    if l.flag < |img| then img[l.flag := Programmed(InFlash(l, img, bare)[l.flag], START_UP_FLAG)] else img
  }

  predicate Complete(l: Layout, img: seq<Byte>, bare: bool, m: Mem) {
    Holds(m, l.spare, Finalized(l, img, bare))
  }

  lemma {:induction false} AndSelf(a: nat)
    ensures And(a, a) == a
    decreases a
  {
    if a != 0 {
      AndSelf(a / 2);
    }
  }

  /** The flag comes out set exactly if it was disabled first, or can be programmed over what the
      image has in its place; for an image that has the flag set nothing is lost. */
  lemma FinalizedIs(l: Layout, img: seq<Byte>, bare: bool)
    ensures Finalized(l, img, bare) == Enabled(l, img) <==>
            !bare || |img| <= l.flag || Programmed(img[l.flag], START_UP_FLAG) == START_UP_FLAG
    ensures l.flag < |img| && img[l.flag] == START_UP_FLAG ==> Finalized(l, img, bare) == img
  {
    AndSelf(START_UP_FLAG);
    if l.flag < |img| {
      assert Enabled(l, img)[l.flag] == START_UP_FLAG;
    }
  }

  /** Where the sectors erased for an image of `size` bytes end. */
  function ErasedEnd(l: Layout, size: nat): nat {
    (l.spareSector + Sectors(size)) * SECTOR
  }

  /** The transfer invariant: the slot holds exactly the bytes received so far, the flag
      disabled unless the transfer is a bare one, and is erased beyond, up to the end of the
      last sector; and what the armed install check stands for. */
  predicate Faithful(l: Layout, img: seq<Byte>, bare: bool, d: Device) {
    && Sane(l, d) && 0 < |img| <= l.max
    && (d.info.start != 0 ==>
          && d.info.total == |img| && d.info.offset < |img|
          && (d.info.offset == 0 || bare || l.flag < d.info.offset)
          && Filled(d.mem, l.spare, InFlash(l, img, bare), d.info.offset, ErasedEnd(l, |img|)))
    && (d.check == CHECK_AFTER_UPGRADE ==> d.info.start == 0 && Complete(l, img, bare, d.mem))
  }

  lemma SectorsCover(l: Layout, size: nat)
    requires l.Valid() && size <= l.max
    ensures l.spare + size <= ErasedEnd(l, size) <= l.spare + l.max
    ensures 0 < size ==> l.spare + SECTOR <= ErasedEnd(l, size)
  {
  }

  lemma FaithfulStart(l: Layout, img: seq<Byte>, bare: bool, d: Device)
    requires Faithful(l, img, bare, d)
    ensures Faithful(l, img, bare, OnStart(l, d, |img|).0)
  {
    if d.info.start == 0 {
      SectorsCover(l, |img|);
      EraseOpsBlank(d.mem, l.spareSector, Sectors(|img|));
    }
  }

  lemma StoredIsImage(l: Layout, img: seq<Byte>, bare: bool, offset: nat, len: nat, data: seq<Byte>)
    requires l.flag < |data| && len <= |data| && offset + len <= |img|
    requires data[..len] == img[offset..offset + len]
    requires if offset == 0 then bare == (len <= l.flag) else bare || l.flag < offset
    ensures |Stored(l, offset, len, data)| == len
    ensures PieceOf(Stored(l, offset, len, data), InFlash(l, img, bare), offset)
  {
    var piece := Stored(l, offset, len, data);
    forall k | 0 <= k < len
      ensures piece[k] == InFlash(l, img, bare)[offset + k]
    {
      assert data[..len][k] == img[offset..offset + len][k];
    }
  }

  lemma OneByte(m: Mem, f: nat, b: Byte, k: nat)
    requires f < |m| && k < |m|
    ensures Apply(m, ProgramOp(f, [b]))[k] == if k == f then Programmed(m[k], b) else m[k]
  {
  }

  /** Writing 0x4B over the flag byte completes the image. */
  lemma FlagCompletes(l: Layout, img: seq<Byte>, bare: bool, m: Mem)
    requires l.Valid() && Fitting(l, m) && 0 < |img| <= l.max
    requires HoldsUpTo(m, l.spare, InFlash(l, img, bare), |img|)
    ensures Complete(l, img, bare, Apply(m, ProgramOp(l.spare + l.flag, [START_UP_FLAG])))
  {
    var f, disk, whole := l.spare + l.flag, InFlash(l, img, bare), Finalized(l, img, bare);
    var r := Apply(m, ProgramOp(f, [START_UP_FLAG]));
    forall k | l.spare <= k < l.spare + |img|
      ensures r[k] == whole[k - l.spare]
    {
      assert m[k] == disk[k - l.spare];
      OneByte(m, f, START_UP_FLAG, k);
    }
  }

  lemma StoreFills(l: Layout, img: seq<Byte>, bare: bool, m: Mem, a: nat, disk: seq<Byte>,
                   offset: nat, len: nat, data: seq<Byte>, end: nat) returns (r: Mem)
    requires l.flag < |data| && len <= |data| && offset + len <= |img|
    requires data[..len] == img[offset..offset + len]
    requires if offset == 0 then bare == (len <= l.flag) else bare || l.flag < offset
    requires disk == InFlash(l, img, bare) && Filled(m, a, disk, offset, end) && a + |img| <= end
    ensures r == Apply(m, ProgramOp(a + offset, Stored(l, offset, len, data)))
    ensures Filled(r, a, disk, offset + len, end)
  {
    StoredIsImage(l, img, bare, offset, len, data);
    AppendPiece(m, a, disk, offset, Stored(l, offset, len, data), len, end);
    r := Apply(m, ProgramOp(a + offset, Stored(l, offset, len, data)));
  }

  lemma NothingYet(m: Mem, a: nat, d: seq<Byte>, e: seq<Byte>, end: nat)
    requires Filled(m, a, d, 0, end)
    ensures Filled(m, a, e, 0, end)
  {
  }

  /** The slot as an accepted block finds it. */
  lemma ReadyForBlock(l: Layout, img: seq<Byte>, was: bool, d: Device, msg: Msg, bare: bool)
    requires Faithful(l, img, was, d) && Accepts(d, msg) && bare == BareNext(l, d, Received(msg), was)
    ensures Filled(d.mem, l.spare, InFlash(l, img, bare), d.info.offset, ErasedEnd(l, |img|))
    ensures if d.info.offset == 0 then bare == (msg.len <= l.flag) else bare || l.flag < d.info.offset
  {
    if d.info.offset == 0 {
      NothingYet(d.mem, l.spare, InFlash(l, img, was), InFlash(l, img, bare), ErasedEnd(l, |img|));
    }
  }

  /** An accepted block is the next piece of the image. */
  lemma BlockFills(l: Layout, img: seq<Byte>, was: bool, d: Device, msg: Msg, bare: bool)
    requires Faithful(l, img, was, d) && WellFormed(msg) && Serves(img, msg) && Accepts(d, msg)
    requires bare == BareNext(l, d, Received(msg), was)
    ensures d.info.offset + msg.len <= |img| && (bare || l.flag < d.info.offset + msg.len)
    ensures Filled(Store(l, d, msg), l.spare, InFlash(l, img, bare), d.info.offset + msg.len, ErasedEnd(l, |img|))
  {
    var a, offset, disk, end := l.spare, d.info.offset, InFlash(l, img, bare), ErasedEnd(l, |img|);
    SectorsCover(l, |img|);
    ReadyForBlock(l, img, was, d, msg, bare);
    var r := StoreFills(l, img, bare, d.mem, a, disk, offset, msg.len, msg.data, end);
    assert r == Store(l, d, msg);
  }

  lemma FaithfulLast(l: Layout, img: seq<Byte>, bare: bool, d: Device, m: Mem)
    requires Sane(l, d) && 0 < |img| <= l.max && |m| == |d.mem|
    requires HoldsUpTo(m, l.spare, InFlash(l, img, bare), |img|)
    ensures Faithful(l, img, bare, Finished(l, m))
  {
    FlagCompletes(l, img, bare, m);
  }

  lemma FaithfulMiddle(l: Layout, img: seq<Byte>, was: bool, bare: bool, d: Device, m: Mem, end: nat)
    requires Faithful(l, img, was, d) && d.info.start != 0 && |m| == |d.mem|
    requires 0 < end < |img| && (bare || l.flag < end)
    requires Filled(m, l.spare, InFlash(l, img, bare), end, ErasedEnd(l, |img|))
    ensures Faithful(l, img, bare, Advanced(d, m, end))
  {
  }

  lemma FaithfulIdle(l: Layout, img: seq<Byte>, bare: bool, d: Device)
    requires Faithful(l, img, bare, d)
    ensures Faithful(l, img, bare, Dropped(d, d.mem)) && Faithful(l, img, bare, Refused(d))
  {
  }

  lemma FaithfulBlock(l: Layout, img: seq<Byte>, was: bool, d: Device, msg: Msg, bare: bool)
    requires Faithful(l, img, was, d) && msg.BlockResponse? && WellFormed(msg) && Serves(img, msg)
    requires bare == BareNext(l, d, Received(msg), was)
    ensures Faithful(l, img, bare, OnBlock(l, d, msg).0)
  {
    if Accepts(d, msg) {
      var end := d.info.offset + msg.len;
      BlockFills(l, img, was, d, msg, bare);
      if end == |img| {
        FaithfulLast(l, img, bare, d, Store(l, d, msg));
      } else {
        FaithfulMiddle(l, img, was, bare, d, Store(l, d, msg), end);
      }
    } else {
      FaithfulIdle(l, img, bare, d);
    }
  }

  lemma FaithfulHandle(l: Layout, img: seq<Byte>, bare: bool, d: Device, e: Event)
    requires Faithful(l, img, bare, d) && Possible(d, e) && (e.Received? ==> Serves(img, e.msg))
    ensures Faithful(l, img, BareNext(l, d, e, bare), Handle(l, d, e).0)
  {
    match e
    case Received(StartRequest(size)) => FaithfulStart(l, img, bare, d);
    case Received(BlockResponse(_, _, _, _)) => FaithfulBlock(l, img, bare, d, e.msg, BareNext(l, d, e, bare));
    case _ =>
  }

  // ---------------------------------------------------------------- whole sessions

  /** A session: messages a host serving `img` may have sent, in any order, and timer ticks. */
  ghost predicate Session(l: Layout, img: seq<Byte>, d: Device, es: seq<Event>)
    requires Sane(l, d)
    decreases |es|
  {
    es != [] ==>
      && Possible(d, es[0]) && (es[0].Received? ==> Serves(img, es[0].msg))
      && Sane(l, Handle(l, d, es[0]).0)
      && Session(l, img, Handle(l, d, es[0]).0, es[1..])
  }

  ghost function After(l: Layout, img: seq<Byte>, d: Device, es: seq<Event>): Device
    requires Sane(l, d) && Session(l, img, d, es)
    decreases |es|
  {
    if es == [] then d else After(l, img, Handle(l, d, es[0]).0, es[1..])
  }

  /** Whether the transfer the session is in, or has completed, is a bare one. */
  ghost predicate BareAfter(l: Layout, img: seq<Byte>, d: Device, es: seq<Event>, bare: bool)
    requires Sane(l, d) && Session(l, img, d, es)
    decreases |es|
  {
    if es == [] then bare
    else BareAfter(l, img, Handle(l, d, es[0]).0, es[1..], BareNext(l, d, es[0], bare))
  }

  lemma {:induction false} FaithfulAfter(l: Layout, img: seq<Byte>, bare: bool, d: Device, es: seq<Event>)
    requires Faithful(l, img, bare, d) && Session(l, img, d, es)
    ensures Faithful(l, img, BareAfter(l, img, d, es, bare), After(l, img, d, es))
    decreases |es|
  {
    if es != [] {
      FaithfulHandle(l, img, bare, d, es[0]);
      FaithfulAfter(l, img, BareNext(l, d, es[0], bare), Handle(l, d, es[0]).0, es[1..]);
    }
  }

  /** A device that has just started: nothing received, the check armed for 2 s or not at all. */
  predicate Fresh(l: Layout, d: Device) {
    l.Valid() && Fitting(l, d.mem) && d.info == CLEARED && d.check != CHECK_AFTER_UPGRADE
  }

  /** Whether the slot counts as bootable in mid-transfer, `offset` bytes in. */
  predicate Exposed(l: Layout, img: seq<Byte>, bare: bool, offset: nat) {
    bare && l.flag + 4 <= offset <= |img| && img[l.flag..l.flag + 4] == FLAG_WORD
  }

  /** Whatever the network does and however the image is cut: while a transfer is under way the
      slot holds what has come and can be taken for an image exactly if the first block ended at
      or before the flag byte and the image's own flag word has come since; once the install
      check is armed the slot holds the whole image, 0x4B programmed over its flag byte. */
  lemma SessionSafe(l: Layout, img: seq<Byte>, d: Device, es: seq<Event>)
    requires Fresh(l, d) && 0 < |img| <= l.max && Session(l, img, d, es)
    ensures var t, bare := After(l, img, d, es), BareAfter(l, img, d, es, false);
            && |t.mem| >= l.spare + l.max
            && (t.info.start != 0 ==>
                  && HoldsUpTo(t.mem, l.spare, InFlash(l, img, bare), t.info.offset)
                  && (Flagged(l, t.mem, l.spare) <==> Exposed(l, img, bare, t.info.offset)))
            && (t.check == CHECK_AFTER_UPGRADE ==>
                  t.info == CLEARED && Holds(t.mem, l.spare, Finalized(l, img, bare)))
  {
    FaithfulAfter(l, img, false, d, es);
    var t, bare := After(l, img, d, es), BareAfter(l, img, d, es, false);
    if t.info.start != 0 {
      FlagState(l, img, bare, t.mem, t.info.offset);
    }
  }

  /** The flag of a slot filled so far. */
  lemma FlagState(l: Layout, img: seq<Byte>, bare: bool, m: Mem, offset: nat)
    requires l.Valid() && Fitting(l, m) && 0 < |img| <= l.max
    requires Filled(m, l.spare, InFlash(l, img, bare), offset, ErasedEnd(l, |img|))
    requires offset == 0 || bare || l.flag < offset
    ensures Flagged(l, m, l.spare) <==> Exposed(l, img, bare, offset)
  {
    SectorsCover(l, |img|);
    var f, end := l.spare + l.flag, ErasedEnd(l, |img|);
    if l.flag + 4 <= offset && bare {
      StoredFlag(l, img, m, offset);
    } else if l.flag < offset && !bare {
      assert m[f] == InFlash(l, img, bare)[l.flag] == BLANK;
      Unflagged(l, m, l.spare);
    } else {
      assert m[f + 3] == BLANK;
      FlaggedBytes(l, m, l.spare);
    }
  }

  lemma StoredFlag(l: Layout, img: seq<Byte>, m: Mem, n: nat)
    requires HoldsUpTo(m, l.spare, img, n) && l.flag + 4 <= n
    ensures Flagged(l, m, l.spare) <==> img[l.flag..l.flag + 4] == FLAG_WORD
  {
    assert m[l.spare + l.flag..l.spare + l.flag + 4] == img[l.flag..l.flag + 4];
  }

  ghost predicate AllPastFlag(l: Layout, img: seq<Byte>, es: seq<Event>) {
    forall k :: 0 <= k < |es| && es[k].Received? ==> PastFlag(l, img, es[k].msg)
  }

  /** No transfer with bytes in it is a bare one. */
  predicate NotBare(d: Device, bare: bool) {
    d.info.start != 0 && d.info.offset != 0 ==> !bare
  }

  lemma NotBareHandle(l: Layout, img: seq<Byte>, bare: bool, d: Device, e: Event)
    requires Faithful(l, img, bare, d) && Possible(d, e)
    requires e.Received? ==> Serves(img, e.msg) && PastFlag(l, img, e.msg)
    requires NotBare(d, bare)
    ensures NotBare(Handle(l, d, e).0, BareNext(l, d, e, bare))
  {
  }

  lemma {:induction false} NotBareAfter(l: Layout, img: seq<Byte>, bare: bool, d: Device, es: seq<Event>)
    requires Faithful(l, img, bare, d) && Session(l, img, d, es) && AllPastFlag(l, img, es) && NotBare(d, bare)
    ensures NotBare(After(l, img, d, es), BareAfter(l, img, d, es, bare))
    decreases |es|
  {
    if es != [] {
      FaithfulHandle(l, img, bare, d, es[0]);
      NotBareHandle(l, img, bare, d, es[0]);
      NotBareAfter(l, img, BareNext(l, d, es[0], bare), Handle(l, d, es[0]).0, es[1..]);
    }
  }

  /** With a host that sends first blocks as they are asked for, the slot can at no point of a
      transfer be taken for an image. */
  lemma SessionHidden(l: Layout, img: seq<Byte>, d: Device, es: seq<Event>)
    requires Fresh(l, d) && 0 < |img| <= l.max && Session(l, img, d, es) && AllPastFlag(l, img, es)
    ensures var t := After(l, img, d, es);
            |t.mem| >= l.spare + l.max && (t.info.start != 0 ==> !Flagged(l, t.mem, l.spare))
  {
    SessionSafe(l, img, d, es);
    NotBareAfter(l, img, false, d, es);
  }

  /** Power failing between the last block and the flag leaves the slot as bootable as the
      transfer had made it. */
  lemma CutBeforeFlag(l: Layout, img: seq<Byte>, was: bool, d: Device, msg: Msg)
    requires Faithful(l, img, was, d) && WellFormed(msg) && Serves(img, msg) && Accepts(d, msg)
    ensures Flagged(l, Store(l, d, msg), l.spare) <==>
            Exposed(l, img, BareNext(l, d, Received(msg), was), d.info.offset + msg.len)
  {
    var bare := BareNext(l, d, Received(msg), was);
    BlockFills(l, img, was, d, msg, bare);
    FlagState(l, img, bare, Store(l, d, msg), d.info.offset + msg.len);
  }

  /** Power failing anywhere in the erase loop, from the first sector on, leaves the slot hidden. */
  lemma CutInErase(l: Layout, m: Mem, n: nat)
    requires l.Valid() && Fitting(l, m) && 0 < n <= l.sectors
    ensures !Flagged(l, Run(m, EraseOps(l.spareSector, n)), l.spare)
  {
    EraseOpsBlank(m, l.spareSector, n);
    Unflagged(l, Run(m, EraseOps(l.spareSector, n)), l.spare);
  }

  /** Success is reported for exactly the block that completes the image. */
  lemma SuccessIsComplete(l: Layout, img: seq<Byte>, was: bool, d: Device, msg: Msg)
    requires Faithful(l, img, was, d) && msg.BlockResponse? && WellFormed(msg) && Serves(img, msg)
    ensures var (t, replies) := OnBlock(l, d, msg);
            replies == [EndStatus(d.info.total, |img|, STA_SUCCESS)]
            <==> Accepts(d, msg) && msg.offset + msg.len == |img|
    ensures Accepts(d, msg) && msg.offset + msg.len == |img| ==>
              Complete(l, img, BareNext(l, d, Received(msg), was), OnBlock(l, d, msg).0.mem)
  {
    var bare := BareNext(l, d, Received(msg), was);
    FaithfulBlock(l, img, was, d, msg, bare);
    if Accepts(d, msg) {
      BlockFills(l, img, was, d, msg, bare);
    }
  }

  /** The answer to a request: the piece asked for, in a buffer that reaches further. */
  function Answer(img: seq<Byte>, offset: nat, len: Byte): (msg: Msg)
    requires offset + len <= |img| < WORD
    ensures WellFormed(msg) && Serves(img, msg)
  {
    var data := img[offset..offset + len] + seq(BLOCK_MAX, _ => BLANK);
    assert data[..len] == img[offset..offset + len];
    BlockResponse(STA_SUCCESS, offset, len, data)
  }

  /** A request and its answer bring the transfer on, and the last one completes it. */
  lemma OneAnswer(l: Layout, img: seq<Byte>, bare: bool, d: Device) returns (msg: Msg)
    requires Faithful(l, img, bare, d) && d.info.timer && d.info.start != 0 && d.info.retry == 0 && !bare
    ensures msg.BlockResponse? && WellFormed(msg) && Serves(img, msg) && PastFlag(l, img, msg)
    ensures var t := OnRetryTimer(l, d).0;
            && Sane(l, t) && OnRetryTimer(l, d).1 == [BlockReq(msg.offset, msg.len)]
            && var r := OnBlock(l, t, msg).0;
               && Faithful(l, img, false, r)
               && (r.check == CHECK_AFTER_UPGRADE
                   || (r.info.timer && r.info.start != 0 && r.info.retry == 0 && d.info.offset < r.info.offset))
  {
    var len := Min(BLOCK_MAX, |img| - d.info.offset);
    msg := Answer(img, d.info.offset, len);
    var t := OnRetryTimer(l, d).0;
    FaithfulBlock(l, img, bare, t, msg, BareNext(l, t, Received(msg), bare));
  }

  /** However far a transfer has got: a host that answers every request completes it. */
  lemma {:induction false} AnsweredCompletes(l: Layout, img: seq<Byte>, d: Device) returns (es: seq<Event>)
    requires Faithful(l, img, false, d) && d.info.timer && d.info.start != 0 && d.info.retry == 0
    ensures Session(l, img, d, es) && AllPastFlag(l, img, es)
    ensures After(l, img, d, es).check == CHECK_AFTER_UPGRADE
    decreases |img| - d.info.offset
  {
    var msg := OneAnswer(l, img, false, d);
    var t := OnRetryTimer(l, d).0;
    var r := OnBlock(l, t, msg).0;
    var rest := [];
    if r.check != CHECK_AFTER_UPGRADE {
      rest := AnsweredCompletes(l, img, r);
    }
    SessionOn(l, img, t, Received(msg), rest);
    SessionOn(l, img, d, RetryTimer, [Received(msg)] + rest);
    es := [RetryTimer] + ([Received(msg)] + rest);
  }

  lemma SessionOn(l: Layout, img: seq<Byte>, d: Device, e: Event, rest: seq<Event>)
    requires Sane(l, d) && Possible(d, e) && (e.Received? ==> Serves(img, e.msg))
    requires Sane(l, Handle(l, d, e).0) && Session(l, img, Handle(l, d, e).0, rest)
    ensures Session(l, img, d, [e] + rest)
    ensures After(l, img, d, [e] + rest) == After(l, img, Handle(l, d, e).0, rest)
  {
    assert ([e] + rest)[1..] == rest;
  }

  /** Every image that fits can be uploaded: started, asked for piece by piece, completed. */
  lemma UploadCompletes(l: Layout, img: seq<Byte>, d: Device) returns (es: seq<Event>)
    requires Fresh(l, d) && 0 < |img| <= l.max
    ensures Session(l, img, d, es) && AllPastFlag(l, img, es)
    ensures After(l, img, d, es).check == CHECK_AFTER_UPGRADE
  {
    var start := Received(StartRequest(|img|));
    FaithfulHandle(l, img, false, d, start);
    var rest := AnsweredCompletes(l, img, Handle(l, d, start).0);
    SessionOn(l, img, d, start, rest);
    es := [start] + rest;
  }

  // ---------------------------------------------------------------- where the promise stops

  /** The shortest bare transfer: two blocks, the first ending at or before the flag byte. The
      slot then counts as bootable, if the image has its flag word, although the transfer is
      still under way. */
  lemma ShortFirstBlock(l: Layout, img: seq<Byte>, was: bool, d: Device, b1: Msg, b2: Msg)
    requires Faithful(l, img, was, d) && d.info.start != 0 && d.info.offset == 0
    requires b1.BlockResponse? && WellFormed(b1) && Serves(img, b1) && Accepts(d, b1) && b1.len <= l.flag
    requires b2.BlockResponse? && WellFormed(b2) && Serves(img, b2) && b2.status == STA_SUCCESS
    requires 0 < b2.len <= BLOCK_MAX && b2.offset == b1.len && l.flag + 4 <= b1.len + b2.len < |img|
    ensures var t1 := OnBlock(l, d, b1).0;
            && Sane(l, t1) && Accepts(t1, b2)
            && var t := OnBlock(l, t1, b2).0;
               && t.info.start != 0 && t.info.offset < |img| && |t.mem| == |d.mem|
               && (Flagged(l, t.mem, l.spare) <==> img[l.flag..l.flag + 4] == FLAG_WORD)
  {
    var t1 := OnBlock(l, d, b1).0;
    FaithfulBlock(l, img, was, d, b1, true);
    CutBeforeFlag(l, img, true, t1, b2);
  }

  predicate Stalled(d: Device) {
    d.info.start != 0 && !d.info.timer
  }

  /** A block that is refused stalls the transfer, and nothing else does: the retry timer is
      cancelled before the block is looked at and only an accepted block rearms it. */
  lemma StallsIffRefused(l: Layout, d: Device, msg: Msg)
    requires Sane(l, d) && d.info.start != 0 && msg.BlockResponse? && WellFormed(msg)
    ensures Stalled(OnBlock(l, d, msg).0) <==>
            msg.status == STA_SUCCESS && d.info.total != 0 && !Accepts(d, msg)
  {
  }

  /** From a stall only another block response leads on: a new start request is refused. */
  lemma StallStays(l: Layout, d: Device, e: Event)
    requires Sane(l, d) && Stalled(d) && Possible(d, e)
    requires e.Received? ==> !e.msg.BlockResponse?
    ensures Handle(l, d, e).0 == d
    ensures e.Received? && e.msg.StartRequest? ==> Handle(l, d, e).1 == [StartRsp(d.info, STA_IN_PROGRESS)]
  {
  }

  /** During a transfer the install check is not armed: the start request stopped it. */
  predicate Unarmed(d: Device) {
    d.info.start != 0 ==> d.check == 0
  }

  lemma UnarmedHandle(l: Layout, d: Device, e: Event)
    requires Sane(l, d) && Possible(d, e) && Unarmed(d)
    ensures Unarmed(Handle(l, d, e).0)
  {
  }

  /** No transfer under way, and no install check to start the application. */
  predicate Inert(d: Device) {
    d.info == CLEARED && d.check == 0
  }

  /** A transfer that ends without success leaves the device inert. */
  lemma DroppedIsInert(l: Layout, d: Device, e: Event)
    requires Sane(l, d) && Possible(d, e) && Unarmed(d) && d.info.start != 0
    ensures var t := Handle(l, d, e).0;
            t.info.start == 0 <==> Inert(t) || t.check == CHECK_AFTER_UPGRADE
  {
  }

  predicate FittingStart(l: Layout, e: Event) {
    e.Received? && e.msg.StartRequest? && e.msg.size <= l.max
  }

  /** An inert device is changed by nothing but a start request for a size that fits. */
  lemma InertChangesIff(l: Layout, d: Device, e: Event)
    requires Sane(l, d) && Possible(d, e) && Inert(d)
    ensures Handle(l, d, e).0 != d <==> FittingStart(l, e)
  {
    if FittingStart(l, e) {
      assert Handle(l, d, e).0.info.start == l.spare != 0;
    }
  }

  /** Any events, from any host. */
  ghost predicate Happen(l: Layout, d: Device, es: seq<Event>)
    requires Sane(l, d)
    decreases |es|
  {
    es != [] ==> Possible(d, es[0]) && (SaneHandle(l, d, es[0]); Happen(l, Handle(l, d, es[0]).0, es[1..]))
  }

  ghost function Afterwards(l: Layout, d: Device, es: seq<Event>): Device
    requires Sane(l, d) && Happen(l, d, es)
    decreases |es|
  {
    if es == [] then d
    else
      SaneHandle(l, d, es[0]);
      Afterwards(l, Handle(l, d, es[0]).0, es[1..])
  }

  /** So after a transfer that was dropped nothing but a new upload or a power cycle ever starts
      the application: whatever else happens, the check stays unarmed and flash as it is. */
  lemma {:induction false} InertForGood(l: Layout, d: Device, es: seq<Event>)
    requires Sane(l, d) && Inert(d) && Happen(l, d, es)
    requires forall k :: 0 <= k < |es| ==> !FittingStart(l, es[k])
    ensures Afterwards(l, d, es) == d
    decreases |es|
  {
    if es != [] {
      SaneHandle(l, d, es[0]);
      InertChangesIff(l, d, es[0]);
      InertForGood(l, d, es[1..]);
    }
  }

  // ---------------------------------------------------------------- what the host is told

  /** What the answer to a start request means: 0 that a transfer of this size has begun, with the
      area for it erased, 2 that one is under way, 4 that the file is too large, and then nothing
      has changed. */
  lemma StartAnswers(l: Layout, d: Device, size: U32)
    requires Sane(l, d)
    ensures var (t, replies) := Handle(l, d, Received(StartRequest(size)));
            && (exists status: Byte :: replies == [StartRsp(t.info, status)] && status in {0, 2, 4})
            && var status := replies[0].status;
               && (status == 0 ==>
                     && d.info.start == 0 && size <= l.max && t.info == Info(true, l.spare, size, 0, 0)
                     && t.check == 0 && IsBlank(t.mem, l.spare, l.spare + size)
                     && SameOutside(d.mem, t.mem, l.spare, l.spare + l.max))
               && (status == 2 <==> d.info.start != 0) && (status == 4 <==> d.info.start == 0 && size > l.max)
               && (status != 0 ==> t == d)
  {
    var (t, replies) := Handle(l, d, Received(StartRequest(size)));
    assert replies == [StartRsp(t.info, replies[0].status)];
    if d.info.start == 0 && size <= l.max {
      SectorsUp(l, size);
      EraseOpsBlank(d.mem, l.spareSector, Sectors(size));
    }
  }

  lemma SectorsUp(l: Layout, size: nat)
    requires l.Valid() && size <= l.max
    ensures size <= Sectors(size) * SECTOR <= l.max
  {
  }

  /** What the answer to a block means, in a transfer. An acknowledgement with 0 that it was stored
      and more is wanted, with 3 that it was not the one wanted, with nothing but the timer changed;
      an end with 0 that it was the last, with 3 that it went past the end, with 5 that the host has
      failed or there is nothing to send. Ends report the size and how far the transfer has got. */
  lemma BlockAnswers(l: Layout, d: Device, msg: Msg)
    requires Sane(l, d) && d.info.start != 0 && msg.BlockResponse? && WellFormed(msg)
    ensures var (t, replies) := Handle(l, d, Received(msg));
            var i, end, over := d.info, d.info.offset + msg.len, Info(false, 0, 0, 0, 0);
            && |replies| == 1
            && (replies == [Ack(0)] <==> Accepts(d, msg) && end < i.total)
            && (replies == [Ack(3)] <==> msg.status == 0 && i.total != 0 && !Accepts(d, msg))
            && (replies == [EndStatus(i.total, end, 0)] <==> Accepts(d, msg) && end == i.total)
            && (replies == [EndStatus(i.total, end, 3)] <==> Accepts(d, msg) && end > i.total)
            && (replies == [EndStatus(i.total, i.offset, 5)] <==> msg.status != 0 || i.total == 0)
            && (replies == [Ack(0)] ==> t.info == Info(true, i.start, i.total, end, 0) && t.check == d.check)
            && (replies == [Ack(3)] ==> t == d.(info := i.(timer := false)))
            && (replies == [EndStatus(i.total, end, 0)] ==> t.info == over && t.check == 50)
            && (replies[0].EndStatus? && replies[0].status != 0 ==> t.info == over && t.check == d.check)
  {
  }

  // ---------------------------------------------------------------- a host that falls silent

  /** The device after `k` ticks with no answer. */
  function Ticking(d: Device, k: nat): Device {
    d.(info := d.info.(retry := d.info.retry + k))
  }

  /** Each tick asks for the next 40 bytes, or for what is left, and is counted; the one after the
      fifth reports a timeout and clears the record. Flash and the install check stay as they are. */
  lemma UnansweredEnds(l: Layout, d: Device, k: nat)
    requires Sane(l, d) && d.info.timer && d.info.retry + k <= 5
    ensures var t := Ticking(d, k);
            && Sane(l, t) && Possible(t, RetryTimer)
            && var (r, replies) := Handle(l, t, RetryTimer);
               if d.info.retry + k < 5 then
                 && r == Ticking(d, k + 1) && |replies| == 1 && replies[0].BlockReq?
                 && var req := replies[0];
                    && req.offset == d.info.offset && req.len <= 40 && req.offset + req.len <= d.info.total
                    && (req.len == 40 || req.offset + req.len == d.info.total)
               else
                 && replies == [EndStatus(d.info.total, d.info.offset, STA_TIMEOUT)]
                 && r == Device(Info(false, 0, 0, 0, 0), d.check, d.mem)
  {
  }

  function Ticks(n: nat): (es: seq<Event>)
    ensures |es| == n
  {
    seq(n, _ => RetryTimer)
  }

  /** So a transfer whose host falls silent is over after six ticks at the most. */
  lemma {:induction false} TimesOut(l: Layout, d: Device)
    requires Sane(l, d) && d.info.timer && d.info.retry <= 5
    ensures var es := Ticks(6 - d.info.retry);
            Happen(l, d, es) && Afterwards(l, d, es) == Device(Info(false, 0, 0, 0, 0), d.check, d.mem)
    decreases 5 - d.info.retry
  {
    var es := Ticks(6 - d.info.retry);
    UnansweredEnds(l, d, 0);
    SaneHandle(l, d, RetryTimer);
    if d.info.retry < 5 {
      TimesOut(l, Ticking(d, 1));
      assert es[1..] == Ticks(5 - d.info.retry);
    } else {
      assert es[1..] == [];
    }
  }

  // ---------------------------------------------------------------- the code itself

  predicate Readable(cmd: nat, p: seq<Byte>) {
    && (cmd == CMD_START ==> 4 <= |p|)
    && (cmd == CMD_BLOCK ==> 6 + BLOCK_MAX <= |p|)
  }

  function Decode(cmd: nat, p: seq<Byte>): (msg: Msg)
    requires Readable(cmd, p)
    ensures WellFormed(msg)
  {
    if cmd == CMD_START then StartRequest(Be32(p[..4]))
    else if cmd == CMD_BLOCK then BlockResponse(p[0], Be32(p[1..5]), p[5], p[6..])
    else Ignored
  }

  /** Disabling the flag in the buffer and cutting the block out of it, or the other way round. */
  lemma BufferEdit(l: Layout, p: seq<Byte>, offset: nat, len: nat)
    requires l.flag < BLOCK_MAX && 6 + BLOCK_MAX <= |p| && len <= BLOCK_MAX
    ensures (if offset == 0 then p[6 + l.flag := BLANK] else p)[6..6 + len] == Stored(l, offset, len, p[6..])
  {
    var a := (if offset == 0 then p[6 + l.flag := BLANK] else p)[6..6 + len];
    var b := Stored(l, offset, len, p[6..]);
    forall k | 0 <= k < len
      ensures a[k] == b[k]
    {
    }
  }

  /** The bootloader's statics: `upgradeInfo`, the install-check timer, and the flash. */
  class Bootloader {
    const l: Layout
    const chip: Flash
    var timer: bool
    var flashStartAddr: nat
    var totalImageSize: nat
    var offset: nat
    var retryCnt: nat
    var check: nat

    ghost predicate Valid()
      reads this, chip
    {
      Sane(l, View()) && !chip.worn
    }

    function View(): Device
      reads this, chip
    {
      Device(Info(timer, flashStartAddr, totalImageSize, offset, retryCnt), check, chip.mem)
    }

    constructor (l: Layout, chip: Flash)
      requires l.Valid() && Fitting(l, chip.mem) && !chip.worn
      ensures Valid() && this.l == l && this.chip == chip && View() == Device(CLEARED, 2000, chip.mem)
    {
      this.l, this.chip := l, chip;
      timer, flashStartAddr, totalImageSize, offset, retryCnt, check := false, 0, 0, 0, 0, 2000;
    }

    /** `bootloader_uartOtaComplete`: report, cancel the timer, clear the record. */
    method OtaComplete(status: Byte) returns (replies: seq<Reply>)
      modifies this
      ensures View() == Device(CLEARED, old(check), chip.mem)
      ensures replies == [EndStatus(old(totalImageSize), old(offset), status)]
    {
      replies := [EndStatus(totalImageSize, offset, status)];
      timer, flashStartAddr, totalImageSize, offset, retryCnt := false, 0, 0, 0, 0;
    }

    method StartRequested(size: U32) returns (replies: seq<Reply>)
      requires Valid()
      modifies this, chip
      ensures Valid() && (View(), replies) == OnStart(l, old(View()), size)
    {
      var sta := STA_SUCCESS;
      if flashStartAddr == 0 {
        if size <= l.max {
          check := 0;
          retryCnt, offset, flashStartAddr, totalImageSize := 0, 0, l.spare, size;
          EraseRange(chip, l.spareSector, l.spare, (totalImageSize + 4095) / 4096);
          timer := true;
        } else {
          sta := STA_OVERSIZE;
        }
      } else {
        sta := STA_IN_PROGRESS;
      }
      replies := [StartRsp(View().info, sta)];
      SaneStart(l, old(View()), size);
    }

    /** Lines 453-456: disable the flag in the receive buffer. */
    method HideFlag(payload: array<Byte>, len: Byte) returns (piece: seq<Byte>)
      requires Valid() && 6 + BLOCK_MAX <= payload.Length && len <= BLOCK_MAX
      modifies payload
      ensures piece == Stored(l, offset, len, old(payload[6..])) && |piece| == len
      ensures payload[..] == if offset == 0 then old(payload[..])[6 + l.flag := BLANK] else old(payload[..])
    {
      BufferEdit(l, payload[..], offset, len);
      assert payload[6..] == payload[..][6..];
      if offset == 0 {
        payload[6 + l.flag] := BLANK;
      }
      piece := payload[6..6 + len];
      assert piece == payload[..][6..6 + len];
    }

    /** Lines 453-458: disable the flag in the receive buffer, then write the block. */
    method StoreBlock(payload: array<Byte>, len: Byte)
      requires Valid() && 6 + BLOCK_MAX <= payload.Length && len <= BLOCK_MAX
      requires flashStartAddr != 0
      modifies chip, payload
      ensures chip.mem == Apply(old(chip.mem), ProgramOp(l.spare + offset, Stored(l, offset, len, old(payload[6..]))))
      ensures payload[..] == if offset == 0 then old(payload[..])[6 + l.flag := BLANK] else old(payload[..])
    {
      var piece := HideFlag(payload, len);
      chip.Write(flashStartAddr + offset, piece);
    }

    /** Lines 435-449: the fields of the message. */
    method ReadBlockHeader(payload: array<Byte>) returns (status: Byte, at: U32, len: Byte)
      requires 6 + BLOCK_MAX <= payload.Length
      ensures status == payload[0] && at == Be32(payload[..][1..5]) && len == payload[5]
    {
      assert payload[1..5] == payload[..][1..5];
      status, at, len := payload[0], Be32(payload[1..5]), payload[5];
    }

    /** Lines 460-482: move on, finish, or give up. */
    method BlockStored(len: Byte) returns (replies: seq<Reply>)
      requires Valid() && flashStartAddr != 0
      modifies this, chip
      ensures chip.mem == if old(offset) + len == old(totalImageSize) then Finished(l, old(chip.mem)).mem
                          else old(chip.mem)
      ensures (View(), replies) ==
              var d, end := old(View()), old(offset) + len;
              if end == d.info.total then (Finished(l, d.mem), [EndStatus(d.info.total, end, STA_SUCCESS)])
              else if end > d.info.total then (Dropped(d, d.mem), [EndStatus(d.info.total, end, STA_INCORRECT_OFFSET)])
              else (Advanced(d, d.mem, end), [Ack(STA_SUCCESS)])
    {
      offset := offset + len;
      if offset == totalImageSize {
        chip.Write(flashStartAddr + l.flag, [START_UP_FLAG]);
        check := CHECK_AFTER_UPGRADE;
        replies := OtaComplete(STA_SUCCESS);
      } else if offset > totalImageSize {
        replies := OtaComplete(STA_INCORRECT_OFFSET);
      } else {
        retryCnt, timer := 0, true;
        replies := [Ack(STA_SUCCESS)];
      }
    }

    /** Lines 453-482 for the block that was asked for; `timer` has been cancelled. */
    method AcceptBlock(payload: array<Byte>, len: Byte) returns (replies: seq<Reply>)
      requires Valid() && 6 + BLOCK_MAX <= payload.Length
      requires flashStartAddr != 0 && totalImageSize != 0 && 0 < len <= BLOCK_MAX
      modifies this, chip, payload
      ensures payload[..] == if old(offset) == 0 then old(payload[..])[6 + l.flag := BLANK] else old(payload[..])
      ensures var msg := BlockResponse(STA_SUCCESS, old(offset), len, old(payload[..])[6..]);
              (View(), replies) == OnBlock(l, old(View()), msg)
    {
      assert payload[6..] == payload[..][6..];
      StoreBlock(payload, len);
      replies := BlockStored(len);
    }

    /** Lines 430-488: a block that may or may not be the expected one. */
    method BlockReceived(payload: array<Byte>) returns (replies: seq<Reply>)
      requires Valid() && 6 + BLOCK_MAX <= payload.Length
      modifies this, chip, payload
      ensures Valid()
      ensures (View(), replies) == OnBlock(l, old(View()), Decode(CMD_BLOCK, old(payload[..])))
    {
      SaneHandle(l, View(), Received(Decode(CMD_BLOCK, payload[..])));
      timer := false;
      var rspStatus, rcvOffset, rcvBlockLen := ReadBlockHeader(payload);
      if rspStatus != STA_SUCCESS || totalImageSize == 0 {
        replies := OtaComplete(STA_ERR_BLOCK);
      } else if rcvOffset == offset && 0 < rcvBlockLen <= BLOCK_MAX {
        replies := AcceptBlock(payload, rcvBlockLen);
      } else {
        replies := [Ack(STA_INCORRECT_OFFSET)];
      }
    }

    /** `bootloader_upgrade`. */
    method Upgrade(cmd: nat, payload: array<Byte>) returns (replies: seq<Reply>)
      requires Valid() && Readable(cmd, payload[..])
      modifies this, chip, payload
      ensures Valid()
      ensures (View(), replies) == Handle(l, old(View()), Received(Decode(cmd, old(payload[..]))))
    {
      if cmd == CMD_START {
        replies := StartRequested(Be32(payload[..4]));
      } else if cmd == CMD_BLOCK {
        replies := BlockReceived(payload);
      } else {
        replies := [];
      }
    }

    /** `upgradeBlockReqTimerCb`. */
    method UpgradeBlockReqTimerCb() returns (replies: seq<Reply>)
      requires Valid() && timer
      modifies this
      ensures Valid()
      ensures (View(), replies) == Handle(l, old(View()), RetryTimer)
    {
      ghost var d := View();
      SaneHandle(l, d, RetryTimer);
      if retryCnt < RETRY_MAX {
        retryCnt := retryCnt + 1;
        var blockReqLen := if totalImageSize - offset >= BLOCK_MAX then BLOCK_MAX else totalImageSize - offset;
        replies := [BlockReq(offset, blockReqLen)];
      } else {
        replies := OtaComplete(STA_TIMEOUT);
      }
    }
  }
}
