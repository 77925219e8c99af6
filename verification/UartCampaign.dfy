/** The bootloader over its whole life: uploads over the UART and install passes, in any order,
    with power failing anywhere. */
module UartCampaign {
  import opened Bytes
  import opened NorFlash
  import opened Firmware
  import opened BootInstall
  import opened BootSafe
  import opened BootPass
  import E = EndToEnd
  import U = UartUpgrade

  function LoadContents(l: Layout, m: Mem): (s: seq<Byte>)
    requires l.Valid() && l.OnChip(m)
    ensures |s| == l.max
  {
    m[l.load..l.load + l.max]
  }

  /** The load slot holds a whole image. */
  predicate LoadOk(l: Layout, m: Mem)
    requires l.Valid() && l.OnChip(m)
  {
    Bootable(l, LoadContents(l, m))
  }

  /** The spare slot holds a whole image. */
  predicate SpareGood(l: Layout, m: Mem)
    requires l.Valid() && l.OnChip(m)
  {
    Good(l, SlotContents(l, m))
  }

  predicate SpareOk(l: Layout, m: Mem)
    requires l.Valid() && l.OnChip(m)
  {
    SpareGood(l, m) || Harmless(l, m)
  }

  /** The application is in the load slot and nothing in the spare slot can harm it, or it can be
      brought there from the spare slot. */
  predicate Recoverable(l: Layout, m: Mem) {
    && l.Valid() && U.Fitting(l, m)
    && (SpareGood(l, m) || (LoadOk(l, m) && Harmless(l, m)))
  }

  lemma LoadFrame(l: Layout, m: Mem, r: Mem)
    requires l.Valid() && l.OnChip(m) && SameLoadSlot(l, m, r)
    ensures LoadOk(l, r) == LoadOk(l, m)
  {
    assert LoadContents(l, r) == LoadContents(l, m);
  }

  lemma LoadOkIsFlagged(l: Layout, m: Mem)
    requires l.Valid() && l.OnChip(m) && LoadOk(l, m)
    ensures Flagged(l, m, l.load)
  {
    SliceOfSlice(m, l.load, l.load + l.max, l.flag, l.flag + 4);
  }

  /** An image that is installed is a whole image in the load slot. */
  lemma InstalledIsOk(l: Layout, img: seq<Byte>, m: Mem)
    requires Good(l, img) && l.OnChip(m) && Installed(l, img, m)
    ensures LoadOk(l, m)
  {
    var s, n := LoadContents(l, m), FwSize(img);
    SameStart(l, img, m, s, PAGE);
    SameStart(l, img, m, s, n);
    SameParts(img, s, PAGE, SIZE_AT, HEADER);
    SameParts(img, s, PAGE, l.flag, l.flag + 4);
    SameParts(img, s, n, 0, n - 4);
    SameParts(img, s, n, n - 4, n);
  }

  lemma SameParts(a: seq<Byte>, b: seq<Byte>, n: nat, lo: nat, hi: nat)
    requires n <= |a| && n <= |b| && a[..n] == b[..n] && lo <= hi <= n
    ensures a[lo..hi] == b[lo..hi]
  {
    SliceOfSlice(a, 0, n, lo, hi);
    SliceOfSlice(b, 0, n, lo, hi);
  }

  lemma SameStart(l: Layout, img: seq<Byte>, m: Mem, s: seq<Byte>, n: nat)
    requires l.Valid() && l.OnChip(m) && |img| == l.max && s == LoadContents(l, m) && Copied(l, img, m, n)
    ensures img[..n] == s[..n]
  {
    forall k | 0 <= k < n
      ensures img[k] == s[k]
    {
      assert s[k] == m[l.load + k];
    }
  }

  // ---------------------------------------------------------------- install passes

  lemma ContentsAre(l: Layout, m: Mem, img: seq<Byte>)
    requires l.Valid() && l.OnChip(m) && |img| == l.max && Holds(m, l.spare, img)
    ensures SlotContents(l, m) == img
  {
    HoldsSlice(m, l.spare, img);
  }

  lemma SafeIsRecoverable(l: Layout, img: seq<Byte>, s: State)
    requires Good(l, img) && U.Fitting(l, s.mem) && Safe(l, img, s)
    ensures Recoverable(l, s.mem) && s.pc != NoApp && (s.pc == Reboot ==> LoadOk(l, s.mem))
  {
    if Holds(s.mem, l.spare, img) {
      ContentsAre(l, s.mem, img);
    } else {
      InstalledIsOk(l, img, s.mem);
    }
    if s.pc == Reboot {
      InstalledIsOk(l, img, s.mem);
    }
  }

  lemma RefusedIsRecoverable(l: Layout, m: Mem, s: State)
    requires l.Valid() && U.Fitting(l, m) && LoadOk(l, m) && Keeps(l, m, s) && HeaderFits(l, s.mem)
    ensures Recoverable(l, s.mem) && s.pc != NoApp && (s.pc == Reboot ==> LoadOk(l, s.mem))
  {
    LoadFrame(l, m, s.mem);
    LoadOkIsFlagged(l, m);
  }

  /** Wherever an install pass is cut short, the device is still ready, and an application that
      is entered is a whole image in the load slot. */
  lemma InstallKeepsRecoverable(l: Layout, run: seq<State>, k: nat)
    requires l.Valid() && IsRun(l, run) && run[0].pc == Boot && Recoverable(l, run[0].mem) && k < |run|
    ensures Recoverable(l, run[k].mem) && run[k].pc != NoApp && (run[k].pc == Reboot ==> LoadOk(l, run[k].mem))
  {
    var m := run[0].mem;
    RunSize(l, run, k);
    if SpareGood(l, m) {
      var img := SlotContents(l, m);
      SafeRun(l, img, run, k);
      SafeIsRecoverable(l, img, run[k]);
    } else {
      HarmlessIsRefused(l, m);
      KeepsRun(l, m, run, k);
      TidyRun(l, run, k);
      RefusedIsRecoverable(l, m, run[k]);
    }
  }

  lemma {:induction false} RunSize(l: Layout, run: seq<State>, k: nat)
    requires l.Valid() && IsRun(l, run) && k < |run|
    ensures |run[k].mem| == |run[0].mem|
    decreases k
  {
    if k > 0 {
      RunSize(l, run, k - 1);
      assert Next(l, run[k - 1], run[k]);
    }
  }

  // ---------------------------------------------------------------- uploads

  predicate Starts(l: Layout, d: U.Device, e: U.Event) {
    e.Received? && e.msg.StartRequest? && d.info.start == 0 && e.msg.size <= l.max
  }

  predicate Stores(d: U.Device, e: U.Event) {
    e.Received? && U.Accepts(d, e.msg)
  }

  /** How many flash commands an event gives. */
  function Commands(l: Layout, d: U.Device, e: U.Event): nat {
    if Starts(l, d, e) then U.Sectors(e.msg.size)
    else if Stores(d, e) then if d.info.offset + e.msg.len == d.info.total then 2 else 1
    else 0
  }

  /** Flash when power fails after `done` of them. */
  function CutMem(l: Layout, d: U.Device, e: U.Event, done: nat): (r: Mem)
    requires U.Sane(l, d) && U.Possible(d, e) && done <= Commands(l, d, e)
    ensures |r| == |d.mem|
  {
    if done == Commands(l, d, e) then U.SaneHandle(l, d, e); U.Handle(l, d, e).0.mem
    else if Starts(l, d, e) then Run(d.mem, EraseOps(l.spareSector, done))
    else if done == 1 then U.Store(l, d, e.msg)
    else d.mem
  }

  /** What a served event may be: a piece of a bootable image, a first one past the flag byte. */
  predicate Proper(l: Layout, img: seq<Byte>, d: U.Device, e: U.Event) {
    U.Possible(d, e) && (e.Received? ==> U.Serves(img, e.msg) && U.PastFlag(l, img, e.msg))
  }

  predicate UpReady(l: Layout, img: seq<Byte>, bare: bool, d: U.Device) {
    && U.Faithful(l, img, bare, d) && U.NotBare(d, bare) && Bootable(l, img)
    && LoadOk(l, d.mem) && SpareOk(l, d.mem)
  }

  lemma SpareOnly(l: Layout, m: Mem, r: Mem, lo: nat, hi: nat)
    requires l.Valid() && l.OnChip(m) && LoadOk(l, m) && l.spare <= lo && SameOutside(m, r, lo, hi)
    ensures LoadOk(l, r)
  {
    LoadFrame(l, m, r);
  }

  lemma StartCut(l: Layout, img: seq<Byte>, bare: bool, d: U.Device, done: nat)
    requires UpReady(l, img, bare, d) && done <= U.Sectors(|img|)
    ensures var r := Run(d.mem, EraseOps(l.spareSector, done)); LoadOk(l, r) && SpareOk(l, r)
  {
    var r := Run(d.mem, EraseOps(l.spareSector, done));
    U.SectorsCover(l, |img|);
    EraseOpsBlank(d.mem, l.spareSector, done);
    SpareOnly(l, d.mem, r, l.spareSector * SECTOR, (l.spareSector + done) * SECTOR);
    if done == 0 {
      EraseOneMore(d.mem, l.spareSector, 0);
    } else {
      U.CutInErase(l, d.mem, done);
    }
  }

  lemma StoreCut(l: Layout, img: seq<Byte>, bare: bool, d: U.Device, msg: U.Msg)
    requires UpReady(l, img, bare, d) && Proper(l, img, d, U.Received(msg)) && U.Accepts(d, msg)
    ensures var r := U.Store(l, d, msg); LoadOk(l, r) && !Flagged(l, r, l.spare)
    ensures SameOutside(d.mem, U.Store(l, d, msg), l.spare, l.spare + l.max)
  {
    var r := U.Store(l, d, msg);
    U.BlockFills(l, img, bare, d, msg, U.BareNext(l, d, U.Received(msg), bare));
    U.CutBeforeFlag(l, img, bare, d, msg);
    StoredInSlot(l, d, msg);
    SpareOnly(l, d.mem, r, l.spare, l.spare + l.max);
  }

  lemma StoredInSlot(l: Layout, d: U.Device, msg: U.Msg)
    requires U.Sane(l, d) && U.WellFormed(msg) && U.Accepts(d, msg) && d.info.offset + msg.len <= l.max
    ensures SameOutside(d.mem, U.Store(l, d, msg), l.spare, l.spare + l.max)
  {
    assert |U.Stored(l, d.info.offset, msg.len, msg.data)| == msg.len;
  }

  lemma CompleteIsOk(l: Layout, img: seq<Byte>, bare: bool, r: Mem)
    requires l.Valid() && l.OnChip(r) && Bootable(l, img) && |img| <= l.max && U.Complete(l, img, bare, r)
    ensures SpareOk(l, r)
  {
    E.FlagIsSet(l, img);
    U.FinalizedIs(l, img, bare);
    E.ReceivedIsGood(l, img, r);
  }

  /** The last block: the slot holds the image, flag and all. */
  lemma LastStored(l: Layout, img: seq<Byte>, bare: bool, d: U.Device, msg: U.Msg)
    requires UpReady(l, img, bare, d) && Proper(l, img, d, U.Received(msg)) && U.Accepts(d, msg)
    requires d.info.offset + msg.len == d.info.total
    ensures var r := U.OnBlock(l, d, msg).0.mem; |r| == |d.mem| && LoadOk(l, r) && SpareOk(l, r)
  {
    var m, r, f := U.Store(l, d, msg), U.OnBlock(l, d, msg).0.mem, l.spare + l.flag;
    StoreCut(l, img, bare, d, msg);
    assert r == Apply(m, ProgramOp(f, [START_UP_FLAG]));
    SpareOnly(l, m, r, f, f + 1);
    U.SuccessIsComplete(l, img, bare, d, msg);
    CompleteIsOk(l, img, U.BareNext(l, d, U.Received(msg), bare), r);
  }

  /** Power failing after any number of the commands of any event. */
  lemma EventCut(l: Layout, img: seq<Byte>, bare: bool, d: U.Device, e: U.Event, done: nat)
    requires UpReady(l, img, bare, d) && Proper(l, img, d, e) && done <= Commands(l, d, e)
    ensures var r := CutMem(l, d, e, done); LoadOk(l, r) && SpareOk(l, r)
  {
    if Starts(l, d, e) {
      StartCut(l, img, bare, d, done);
    } else if Stores(d, e) && done > 0 {
      StoreCut(l, img, bare, d, e.msg);
      if done == 2 {
        LastStored(l, img, bare, d, e.msg);
      }
    }
  }

  /** Power failing inside erase number `j` of an upload leaves anything in that sector; what is
      left of the first one is taken to be harmless, as in an install pass. */
  ghost predicate TornSector(l: Layout, m: Mem, j: nat, r: Mem)
    requires l.Valid() && l.OnChip(m)
  {
    var a := (l.spareSector + j) * SECTOR;
    && AllFit(m, EraseOps(l.spareSector, j))
    && SameOutside(Run(m, EraseOps(l.spareSector, j)), r, a, a + SECTOR)
    && (j == 0 ==> Harmless(l, r))
  }

  /** Power failing while `data` is programmed at `a`: anything in the bytes that are to change. */
  ghost predicate TornWrite(m: Mem, a: nat, data: seq<Byte>, r: Mem) {
    && |r| == |m|
    && forall k :: 0 <= k < |m| && !(a <= k < a + |data| && data[k - a] != BLANK) ==> r[k] == m[k]
  }

  /** What flash may hold when power fails inside one of the commands of an event. */
  ghost predicate TornMem(l: Layout, d: U.Device, e: U.Event, r: Mem)
    requires U.Sane(l, d) && U.Possible(d, e)
  {
    if Starts(l, d, e) then exists j: nat :: j < U.Sectors(e.msg.size) && TornSector(l, d.mem, j, r)
    else
      && Stores(d, e)
      && (|| TornWrite(d.mem, l.spare + d.info.offset, U.Stored(l, d.info.offset, e.msg.len, e.msg.data), r)
          || (&& d.info.offset + e.msg.len == d.info.total
              && TornWrite(U.Store(l, d, e.msg), l.spare + l.flag, [START_UP_FLAG], r)))
  }

  lemma StartTorn(l: Layout, img: seq<Byte>, bare: bool, d: U.Device, j: nat, r: Mem)
    requires UpReady(l, img, bare, d) && j < U.Sectors(|img|) && TornSector(l, d.mem, j, r)
    ensures |r| == |d.mem| && LoadOk(l, r) && SpareOk(l, r)
  {
    var b := Run(d.mem, EraseOps(l.spareSector, j));
    U.SectorsCover(l, |img|);
    EraseOpsBlank(d.mem, l.spareSector, j);
    SpareOnly(l, d.mem, b, l.spareSector * SECTOR, (l.spareSector + j) * SECTOR);
    SpareOnly(l, b, r, (l.spareSector + j) * SECTOR, (l.spareSector + j) * SECTOR + SECTOR);
    if j > 0 {
      U.CutInErase(l, d.mem, j);
      FlaggedFrame(l, b, r, l.spare);
    }
  }

  /** The place of the flag byte as a block finds it. */
  lemma FlagStillBlank(l: Layout, img: seq<Byte>, bare: bool, d: U.Device)
    requires UpReady(l, img, bare, d) && d.info.start != 0
    ensures d.mem[l.spare + l.flag] == BLANK
  {
    U.SectorsCover(l, |img|);
    if d.info.offset != 0 {
      assert d.mem[l.spare + l.flag] == U.InFlash(l, img, bare)[l.flag];
    }
  }

  lemma StoreTorn(l: Layout, img: seq<Byte>, bare: bool, d: U.Device, msg: U.Msg, r: Mem)
    requires UpReady(l, img, bare, d) && Proper(l, img, d, U.Received(msg)) && U.Accepts(d, msg)
    requires TornWrite(d.mem, l.spare + d.info.offset, U.Stored(l, d.info.offset, msg.len, msg.data), r)
    ensures |r| == |d.mem| && LoadOk(l, r) && SpareOk(l, r)
  {
    var a, piece := l.spare + d.info.offset, U.Stored(l, d.info.offset, msg.len, msg.data);
    FlagStillBlank(l, img, bare, d);
    SpareOnly(l, d.mem, r, a, a + |piece|);
    assert r[l.spare + l.flag] == BLANK;
    Unflagged(l, r, l.spare);
  }

  lemma FlagTorn(l: Layout, img: seq<Byte>, bare: bool, d: U.Device, msg: U.Msg, r: Mem)
    requires UpReady(l, img, bare, d) && Proper(l, img, d, U.Received(msg)) && U.Accepts(d, msg)
    requires d.info.offset + msg.len == d.info.total
    requires TornWrite(U.Store(l, d, msg), l.spare + l.flag, [START_UP_FLAG], r)
    ensures |r| == |d.mem| && LoadOk(l, r) && SpareOk(l, r)
  {
    var m, f := U.Store(l, d, msg), l.spare + l.flag;
    StoreCut(l, img, bare, d, msg);
    SpareOnly(l, m, r, f, f + 1);
    if r[f] == START_UP_FLAG {
      FlagTaken(l, img, bare, d, msg, r);
    } else {
      Unflagged(l, r, l.spare);
    }
  }

  lemma ByteCameOut(m: Mem, a: nat, b: Byte, r: Mem)
    requires a < |m| && m[a] == BLANK && TornWrite(m, a, [b], r) && r[a] == b
    ensures r == Apply(m, ProgramOp(a, [b]))
  {
  }

  /** The flag has come out whole. */
  lemma FlagTaken(l: Layout, img: seq<Byte>, bare: bool, d: U.Device, msg: U.Msg, r: Mem)
    requires UpReady(l, img, bare, d) && Proper(l, img, d, U.Received(msg)) && U.Accepts(d, msg)
    requires d.info.offset + msg.len == d.info.total
    requires TornWrite(U.Store(l, d, msg), l.spare + l.flag, [START_UP_FLAG], r) && r[l.spare + l.flag] == START_UP_FLAG
    ensures |r| == |d.mem| && SpareOk(l, r)
  {
    StoredFlagByte(l, img, bare, d, msg);
    ByteCameOut(U.Store(l, d, msg), l.spare + l.flag, START_UP_FLAG, r);
    LastStored(l, img, bare, d, msg);
    assert r == U.OnBlock(l, d, msg).0.mem;
  }

  lemma StoredFlagByte(l: Layout, img: seq<Byte>, bare: bool, d: U.Device, msg: U.Msg)
    requires UpReady(l, img, bare, d) && Proper(l, img, d, U.Received(msg)) && U.Accepts(d, msg)
    ensures U.Store(l, d, msg)[l.spare + l.flag] == BLANK
  {
    FlagStillBlank(l, img, bare, d);
    ProgrammingBlank(BLANK, BLANK);
  }

  /** Power failing inside any of the commands of any event. */
  lemma EventTorn(l: Layout, img: seq<Byte>, bare: bool, d: U.Device, e: U.Event, r: Mem)
    requires UpReady(l, img, bare, d) && Proper(l, img, d, e) && TornMem(l, d, e, r)
    ensures |r| == |d.mem| && LoadOk(l, r) && SpareOk(l, r)
  {
    if Starts(l, d, e) {
      var j: nat :| j < U.Sectors(e.msg.size) && TornSector(l, d.mem, j, r);
      StartTorn(l, img, bare, d, j, r);
    } else if TornWrite(d.mem, l.spare + d.info.offset, U.Stored(l, d.info.offset, e.msg.len, e.msg.data), r) {
      StoreTorn(l, img, bare, d, e.msg, r);
    } else {
      FlagTorn(l, img, bare, d, e.msg, r);
    }
  }

  lemma EventKeeps(l: Layout, img: seq<Byte>, bare: bool, d: U.Device, e: U.Event)
    requires UpReady(l, img, bare, d) && Proper(l, img, d, e)
    ensures UpReady(l, img, U.BareNext(l, d, e, bare), U.Handle(l, d, e).0)
  {
    U.FaithfulHandle(l, img, bare, d, e);
    U.NotBareHandle(l, img, bare, d, e);
    EventCut(l, img, bare, d, e, Commands(l, d, e));
  }

  lemma {:induction false} SessionKeeps(l: Layout, img: seq<Byte>, bare: bool, d: U.Device, es: seq<U.Event>)
      returns (bare': bool)
    requires UpReady(l, img, bare, d) && U.Session(l, img, d, es) && U.AllPastFlag(l, img, es)
    ensures UpReady(l, img, bare', U.After(l, img, d, es))
    decreases |es|
  {
    bare' := bare;
    if es != [] {
      EventKeeps(l, img, bare, d, es[0]);
      bare' := SessionKeeps(l, img, U.BareNext(l, d, es[0], bare), U.Handle(l, d, es[0]).0, es[1..]);
    }
  }

  // ---------------------------------------------------------------- the whole life

  /** What happens between two power-ups: an upload, left alone, cut between two commands of one
      more event or inside one of them, or an install pass that got as far as `run`. */
  datatype Phase =
    | Upload(img: seq<Byte>, es: seq<U.Event>)
    | CutUpload(img: seq<Byte>, es: seq<U.Event>, e: U.Event, done: nat)
    | TornUpload(img: seq<Byte>, es: seq<U.Event>, e: U.Event, r: Mem)
    | Install(run: seq<State>)

  /** The bootloader just started: nothing received, the install check due in two seconds. */
  function PoweredUp(m: Mem): U.Device {
    U.Device(U.CLEARED, 2000, m)
  }

  /** A host uploads only bootable images that fit, and only while the application is in place. */
  ghost predicate CanUpload(l: Layout, m: Mem, img: seq<Byte>, es: seq<U.Event>)
    requires Recoverable(l, m)
  {
    && LoadOk(l, m) && Bootable(l, img) && |img| <= l.max
    && U.Session(l, img, PoweredUp(m), es) && U.AllPastFlag(l, img, es)
  }

  ghost predicate Can(l: Layout, m: Mem, p: Phase)
    requires Recoverable(l, m)
  {
    match p
    case Upload(img, es) => CanUpload(l, m, img, es)
    case CutUpload(img, es, e, done) =>
      && CanUpload(l, m, img, es)
      && var d := U.After(l, img, PoweredUp(m), es);
         U.Sane(l, d) && Proper(l, img, d, e) && done <= Commands(l, d, e)
    case TornUpload(img, es, e, r) =>
      && CanUpload(l, m, img, es)
      && var d := U.After(l, img, PoweredUp(m), es);
         U.Sane(l, d) && Proper(l, img, d, e) && TornMem(l, d, e, r)
    case Install(run) => IsRun(l, run) && run[0] == State(m, Boot)
  }

  /** Flash after the phase. */
  ghost function Left(l: Layout, m: Mem, p: Phase): Mem
    requires Recoverable(l, m) && Can(l, m, p)
  {
    match p
    case Upload(img, es) => U.After(l, img, PoweredUp(m), es).mem
    case CutUpload(img, es, e, done) => CutMem(l, U.After(l, img, PoweredUp(m), es), e, done)
    case TornUpload(_, _, _, r) => r
    case Install(run) => run[|run| - 1].mem
  }

  lemma UploadKeepsRecoverable(l: Layout, m: Mem, img: seq<Byte>, es: seq<U.Event>) returns (bare: bool)
    requires Recoverable(l, m) && CanUpload(l, m, img, es)
    ensures var d := U.After(l, img, PoweredUp(m), es); UpReady(l, img, bare, d)
  {
    bare := SessionKeeps(l, img, false, PoweredUp(m), es);
  }

  lemma PhaseKeepsRecoverable(l: Layout, m: Mem, p: Phase)
    requires Recoverable(l, m) && Can(l, m, p)
    ensures Recoverable(l, Left(l, m, p))
  {
    match p
    case Upload(img, es) =>
      var bare := UploadKeepsRecoverable(l, m, img, es);
    case CutUpload(img, es, e, done) =>
      var bare := UploadKeepsRecoverable(l, m, img, es);
      EventCut(l, img, bare, U.After(l, img, PoweredUp(m), es), e, done);
    case TornUpload(img, es, e, r) =>
      var bare := UploadKeepsRecoverable(l, m, img, es);
      EventTorn(l, img, bare, U.After(l, img, PoweredUp(m), es), e, r);
    case Install(run) =>
      InstallKeepsRecoverable(l, run, |run| - 1);
  }

  ghost predicate Life(l: Layout, m: Mem, ps: seq<Phase>)
    requires Recoverable(l, m)
    decreases |ps|
  {
    ps != [] ==>
      && Can(l, m, ps[0])
      && (PhaseKeepsRecoverable(l, m, ps[0]); Life(l, Left(l, m, ps[0]), ps[1..]))
  }

  /** Flash after all of it; recoverable, as every phase keeps it so. */
  ghost function AtEnd(l: Layout, m: Mem, ps: seq<Phase>): (r: Mem)
    requires Recoverable(l, m) && Life(l, m, ps)
    ensures Recoverable(l, r)
    decreases |ps|
  {
    if ps == [] then m
    else
      PhaseKeepsRecoverable(l, m, ps[0]);
      AtEnd(l, Left(l, m, ps[0]), ps[1..])
  }

  /** Over any number of uploads and install passes, completed, abandoned or cut short by power
      failing between any two flash commands or inside one: the application is in the load slot
      or can still be brought there, so that the next pass, whatever fails in it, never ends
      without an application and enters none but a whole one. */
  lemma NeverBricked(l: Layout, m: Mem, ps: seq<Phase>, run: seq<State>, k: nat)
    requires Recoverable(l, m) && Life(l, m, ps)
    requires IsRun(l, run) && run[0] == State(AtEnd(l, m, ps), Boot) && k < |run|
    ensures Recoverable(l, AtEnd(l, m, ps)) && Recoverable(l, run[k].mem)
    ensures run[k].pc != NoApp && (run[k].pc == Reboot ==> LoadOk(l, run[k].mem))
  {
    InstallKeepsRecoverable(l, run, k);
  }

  /** On a sound chip the next pass, with power to the end, enters a whole image. */
  method StartUp(l: Layout, chip: Flash) returns (outcome: Pc)
    requires Recoverable(l, chip.mem) && !chip.worn
    modifies chip
    ensures l.OnChip(chip.mem) && outcome == Reboot && LoadOk(l, chip.mem)
  {
    ghost var m := chip.mem;
    ghost var run;
    outcome, run := BootloaderWithOtaCheck(l, chip);
    PassIsRun(l, m, run, State(chip.mem, outcome));
    InstallKeepsRecoverable(l, run, |run| - 1);
  }

  // ---------------------------------------------------------------- where the promise stops

  /** Power may fail when an install pass has erased the first sector of the load slot: the
      image is then in the spare slot only. */
  lemma PendingInstall(l: Layout, m: Mem) returns (run: seq<State>)
    requires Recoverable(l, m) && SpareGood(l, m)
    ensures IsRun(l, run) && run[0] == State(m, Boot)
    ensures var r := run[|run| - 1].mem; Recoverable(l, r) && SpareGood(l, r) && !LoadOk(l, r)
  {
    var size, r := FirstErased(l, m);
    run := PassOn(l, m, [State(m, Boot)], State(m, Boot), State(m, Page(size, 0)));
    run := PassOn(l, m, run, State(m, Page(size, 0)), State(r, Ready(size, 0)));
    PassIsRun(l, m, run, State(r, Ready(size, 0)));
    InstallKeepsRecoverable(l, run, |run| - 1);
  }

  lemma FirstErased(l: Layout, m: Mem) returns (size: nat, r: Mem)
    requires Recoverable(l, m) && SpareGood(l, m)
    ensures AfterChecks(l, m) == Page(size, 0) && 0 < size && r == SectorReady(l, m, 0) && !LoadOk(l, r)
  {
    var img := SlotContents(l, m);
    SlotAccepts(l, m, img);
    size := FwSize(img);
    r := SectorReady(l, m, 0);
    assert r[l.load + l.flag] == BLANK;
    Unflagged(l, r, l.load);
    if LoadOk(l, r) {
      LoadOkIsFlagged(l, r);
    }
  }

  /** A start request within the two seconds before the install check is accepted for any size
      that fits, and erases the spare slot: that costs nothing exactly if the application is in
      the load slot, or nothing is erased. */
  lemma StartWhilePending(l: Layout, m: Mem, size: U32)
    requires Recoverable(l, m)
    ensures var r := U.OnStart(l, PoweredUp(m), size).0.mem;
            |r| == |m| && (Recoverable(l, r) <==> LoadOk(l, m) || size == 0 || size > l.max)
  {
    var n := U.Sectors(size);
    if size == 0 {
      EraseOneMore(m, l.spareSector, 0);
    } else if size <= l.max {
      U.SectorsCover(l, size);
      StartErases(l, m, n);
    }
  }

  lemma StartErases(l: Layout, m: Mem, n: nat)
    requires l.Valid() && l.OnChip(m) && 0 < n <= l.sectors
    ensures var r := Run(m, EraseOps(l.spareSector, n));
            |r| == |m| && LoadOk(l, r) == LoadOk(l, m) && !Flagged(l, r, l.spare) && !SpareGood(l, r)
  {
    var r := Run(m, EraseOps(l.spareSector, n));
    EraseOpsBlank(m, l.spareSector, n);
    Unflagged(l, r, l.spare);
    LoadFrame(l, m, r);
    if SpareGood(l, r) {
      SlotAccepts(l, r, SlotContents(l, r));
    }
  }
}
