/** What an HCI transfer leaves in flash, whatever the network does with its blocks. */
module HciTransfer {
  import opened Bytes
  import opened NorFlash
  import opened HciOta
  import Crc32

  // ---------------------------------------------------------------- the local CRC

  /** How far into a file of `total` bytes the running CRC has got once `offset` bytes are in. */
  function CrcEnd(total: nat, offset: nat): (n: nat)
    ensures n <= offset
  {
    if total < 4 then 0 else if offset <= total - 4 then offset else total - 4
  }

  lemma CrcLenIs(total: U32, offset: nat, len: Byte)
    requires offset + len <= total
    ensures CrcLen(total, offset, len) == CrcEnd(total, offset + len) - CrcEnd(total, offset)
    ensures CrcLen(total, offset, len) > 0 ==> CrcEnd(total, offset) == offset
  {
    assert (total - offset) % WORD == total - offset;
    assert (total - offset - len) % WORD == total - offset - len;
  }

  /** What one block adds to the CRC: nothing in the last four bytes of the file, otherwise all
      up to the trailer, except that a block past the end is taken whole, trailer and all. */
  lemma CrcLenExact(total: U32, offset: nat, len: Byte)
    requires offset <= total
    ensures var left := total - offset;
            CrcLen(total, offset, len) ==
            if left < 4 then 0 else if len > left then len else if len <= left - 4 then len else left - 4
  {
    var left := total - offset;
    assert left % WORD == left;
    if len > left {
      assert (left - len) % WORD == left - len + WORD;
    } else {
      assert (left - len) % WORD == left - len;
    }
  }

  /** One block brings the running CRC from one prefix of the file to the next. */
  lemma CrcFurther(b: Board, img: seq<Byte>, offset: nat, len: Byte, data: seq<Byte>)
    requires |img| < WORD && offset + len <= |img| && len <= |data|
    requires data[..len] == img[offset..offset + len]
    ensures
      var n := CrcLen(|img|, offset, len);
      Crc32.Fold(b.crc, data[..n], Crc32.Fold(b.crc, img[..CrcEnd(|img|, offset)], Crc32.INIT))
      == Crc32.Fold(b.crc, img[..CrcEnd(|img|, offset + len)], Crc32.INIT)
  {
    var n, was := CrcLen(|img|, offset, len), CrcEnd(|img|, offset);
    CrcLenIs(|img|, offset, len);
    if n == 0 {
      assert data[..n] == [];
    } else {
      SliceOfSlice(img, offset, offset + len, 0, n);
      assert data[..n] == data[..len][0..n];
      assert img[..offset] + img[offset..offset + n] == img[..offset + n];
      Crc32.FoldConcat(b.crc, img[..was], data[..n], Crc32.INIT);
    }
  }

  function Sum(cuts: seq<nat>): nat {
    if cuts == [] then 0 else cuts[0] + Sum(cuts[1..])
  }

  /** The running CRC over consecutive blocks of the given lengths, from `offset` on. */
  function CrcOver(b: Board, img: seq<Byte>, cuts: seq<nat>, offset: nat, crc: U32): U32
    requires |img| < WORD && offset + Sum(cuts) <= |img|
    requires forall k :: 0 <= k < |cuts| ==> cuts[k] < 256
    decreases |cuts|
  {
    if cuts == [] then crc
    else
      var n := CrcLen(|img|, offset, cuts[0]);
      CrcOver(b, img, cuts[1..], offset + cuts[0], Crc32.Fold(b.crc, img[offset..offset + n], crc))
  }

  lemma {:induction false} CrcOverFrom(b: Board, img: seq<Byte>, cuts: seq<nat>, offset: nat)
    requires |img| < WORD && offset + Sum(cuts) == |img|
    requires forall k :: 0 <= k < |cuts| ==> cuts[k] < 256
    ensures CrcOver(b, img, cuts, offset, Crc32.Fold(b.crc, img[..CrcEnd(|img|, offset)], Crc32.INIT))
            == Crc32.Fold(b.crc, img[..CrcEnd(|img|, |img|)], Crc32.INIT)
    decreases |cuts|
  {
    if cuts != [] {
      var len := cuts[0];
      var block := img[offset..offset + len];
      CrcFurther(b, img, offset, len, block);
      var n := CrcLen(|img|, offset, len);
      SliceOfSlice(img, offset, offset + len, 0, n);
      CrcOverFrom(b, img, cuts[1..], offset + len);
    }
  }

  /** However a file of at least four bytes is cut into blocks, the accumulated CRC is one
      pass over all of it but the trailer. */
  lemma CrcSplitIndependent(b: Board, img: seq<Byte>, cuts: seq<nat>)
    requires 4 <= |img| < WORD && Sum(cuts) == |img|
    requires forall k :: 0 <= k < |cuts| ==> cuts[k] < 256
    ensures CrcOver(b, img, cuts, 0, Crc32.INIT) == Crc32.Fold(b.crc, img[..|img| - 4], Crc32.INIT)
  {
    CrcOverFrom(b, img, cuts, 0);
    assert img[..0] == [];
  }

  // ---------------------------------------------------------------- the remote boot flag

  /** The flag bytes seen so far are those of the file. */
  predicate Seen(b: Board, img: seq<Byte>, offset: nat, bootFlag: seq<Byte>) {
    && |bootFlag| == 4
    && forall k :: 0 <= k < 4 && b.flag + k < offset && b.flag + k < |img| ==> bootFlag[k] == img[b.flag + k]
  }

  lemma CaptureSees(b: Board, img: seq<Byte>, offset: nat, len: Byte, data: seq<Byte>, bootFlag: seq<Byte>)
    requires len < |data| && offset + len <= |img| && Seen(b, img, offset, bootFlag)
    requires data[..len] == img[offset..offset + len]
    ensures Seen(b, img, offset + len, Capture(b, offset, len, data, bootFlag))
  {
    var r := Capture(b, offset, len, data, bootFlag);
    forall k | 0 <= k < 4 && b.flag + k < offset + len
      ensures r[k] == img[b.flag + k]
    {
      if offset <= b.flag + k {
        assert data[..len][b.flag + k - offset] == img[offset..offset + len][b.flag + k - offset];
      }
    }
  }

  predicate FlagIn(b: Board, img: seq<Byte>) {
    b.flag + 4 <= |img| && img[b.flag..b.flag + 4] == FLAG_WORD
  }

  lemma SeenAll(b: Board, img: seq<Byte>, offset: nat, bootFlag: seq<Byte>)
    requires Seen(b, img, offset, bootFlag) && b.flag + 4 <= offset <= |img|
    ensures bootFlag == img[b.flag..b.flag + 4]
  {
  }

  /** The record has collected what the file has shown of its flag word so far, and counts the
      word as complete exactly once its last byte has come. */
  predicate Collecting(b: Board, img: seq<Byte>, i: Info) {
    Seen(b, img, i.offset, i.bootFlag) && (i.found <==> b.flag + 3 < i.offset)
  }

  lemma CollectsOn(b: Board, img: seq<Byte>, i: Info, len: Byte, data: seq<Byte>)
    requires len < |data| && i.offset + len <= |img| && Collecting(b, img, i)
    requires data[..len] == img[i.offset..i.offset + len]
    ensures Collecting(b, img, RemoteNext(b, i, len, data))
  {
    CaptureSees(b, img, i.offset, len, data, i.bootFlag);
  }

  /** The record after consecutive blocks of the given lengths. */
  function RemoteOver(b: Board, img: seq<Byte>, cuts: seq<nat>, i: Info): Info
    requires i.offset + Sum(cuts) <= |img| && |i.bootFlag| == 4
    requires forall k :: 0 <= k < |cuts| ==> cuts[k] < 256
    decreases |cuts|
  {
    if cuts == [] then i
    else
      var block := img[i.offset..i.offset + cuts[0]] + [0];
      RemoteOver(b, img, cuts[1..], RemoteNext(b, i, cuts[0], block))
  }

  /** However the file is cut, even through the flag word: after any number of blocks the flag
      counts as complete exactly if its last byte has come, and then the bytes judged are the
      file's bytes F..F+3. */
  lemma {:induction false} FlagSplitIndependent(b: Board, img: seq<Byte>, cuts: seq<nat>, i: Info)
    requires i.offset + Sum(cuts) <= |img| && Collecting(b, img, i)
    requires forall k :: 0 <= k < |cuts| ==> cuts[k] < 256
    ensures var j := RemoteOver(b, img, cuts, i);
            && j.offset == i.offset + Sum(cuts) && (j.found <==> b.flag + 3 < j.offset)
            && (j.found ==> j.bootFlag == img[b.flag..b.flag + 4])
    decreases |cuts|
  {
    if cuts == [] {
      if i.found {
        SeenAll(b, img, i.offset, i.bootFlag);
      }
    } else {
      var block := img[i.offset..i.offset + cuts[0]] + [0];
      CollectsOn(b, img, i, cuts[0], block);
      FlagSplitIndependent(b, img, cuts[1..], RemoteNext(b, i, cuts[0], block));
    }
  }

  // ---------------------------------------------------------------- the transfer of one file

  /** The file as it is stored: a local image has its flag byte disabled. */
  function OnDisk(b: Board, img: seq<Byte>, binType: Byte): (r: seq<Byte>)
    ensures |r| == |img|
  {
    if binType == LOCAL_BIN && b.flag < |img| then img[b.flag := BLANK] else img
  }

  /** A host that serves `img`: its size, error statuses, pieces of it of any length. The
      network may lose, repeat and reorder them. */
  predicate Serves(img: seq<Byte>, binType: Byte, msg: Msg) {
    match msg
    case StartRequest(size, t) => size == |img| && t == binType
    case BlockResponse(status, offset, len, data) =>
      status == OTA_SUCCESS ==>
        offset + len <= |img| && len <= |data| && data[..len] == img[offset..offset + len]
  }

  predicate LocalState(b: Board, img: seq<Byte>, i: Info)
    requires i.offset <= |img|
  {
    && i.crc == Crc32.Fold(b.crc, img[..CrcEnd(|img|, i.offset)], Crc32.INIT)
    && (b.flag < i.offset ==> img[b.flag] == START_FLAG)
  }

  predicate RemoteState(b: Board, img: seq<Byte>, i: Info)
    requires i.offset <= |img|
  {
    Collecting(b, img, i) && (i.found ==> !FlagIn(b, img))
  }

  function ErasedTo(start: nat, size: nat): nat {
    (start + SectorsUsed(size)) * SECTOR
  }

  /** The first `i.offset` bytes of the file are in the slot, nothing else is, and the running
      CRC or the collected flag agree with them. */
  predicate HasReceived(b: Board, img: seq<Byte>, i: Info, m: Mem) {
    && i.total == |img| && i.offset <= |img|
    && Filled(m, i.start * SECTOR, OnDisk(b, img, i.binType), i.offset, ErasedTo(i.start, |img|))
    && (if i.binType == LOCAL_BIN then LocalState(b, img, i) else RemoteState(b, img, i))
  }

  predicate Faithful(b: Board, img: seq<Byte>, binType: Byte, d: Device) {
    && Sane(b, d) && 0 < |img| < b.max
    && (d.info.inProgress ==> d.info.binType == binType && HasReceived(b, img, d.info, d.mem))
  }

  lemma SectorsCover(b: Board, start: nat, size: nat)
    requires b.Valid() && size < b.max
    ensures start * SECTOR + size < ErasedTo(start, size) <= start * SECTOR + b.max
    ensures start * SECTOR + SECTOR <= ErasedTo(start, size)
    ensures SectorsUsed(size) <= b.sectors
  {
  }

  lemma HiddenPiece(b: Board, img: seq<Byte>, offset: nat, len: Byte, data: seq<Byte>)
    requires len < |data| && offset + len <= |img| && data[..len] == img[offset..offset + len]
    ensures PieceOf(Hide(b, offset, len, data)[..len], OnDisk(b, img, LOCAL_BIN), offset)
  {
    var piece, disk := Hide(b, offset, len, data)[..len], OnDisk(b, img, LOCAL_BIN);
    forall k | 0 <= k < len
      ensures piece[k] == disk[offset + k]
    {
      assert data[..len][k] == img[offset..offset + len][k];
    }
  }

  lemma PlainPiece(img: seq<Byte>, offset: nat, len: Byte, data: seq<Byte>)
    requires len < |data| && offset + len <= |img| && data[..len] == img[offset..offset + len]
    ensures PieceOf(data[..len], img, offset)
  {
  }

  lemma LocalFurther(b: Board, img: seq<Byte>, i: Info, len: Byte, data: seq<Byte>)
    requires len < |data| && i.offset + len <= |img| == i.total && LocalState(b, img, i)
    requires data[..len] == img[i.offset..i.offset + len]
    requires !SpoilsFlag(b, i.offset, len, data)
    ensures LocalState(b, img, LocalNext(b, i, len, data))
  {
    CrcFurther(b, img, i.offset, len, data);
    if i.offset <= b.flag < i.offset + len {
      assert data[..len][b.flag - i.offset] == img[i.offset..i.offset + len][b.flag - i.offset];
    }
  }

  lemma ReceivedNow(b: Board, img: seq<Byte>, i: Info, m: Mem, a: nat, disk: seq<Byte>, end: nat)
    requires i.total == |img| && i.offset <= |img|
    requires a == i.start * SECTOR && disk == OnDisk(b, img, i.binType) && end == ErasedTo(i.start, |img|)
    requires Filled(m, a, disk, i.offset, end)
    requires if i.binType == LOCAL_BIN then LocalState(b, img, i) else RemoteState(b, img, i)
    ensures HasReceived(b, img, i, m)
  {
  }

  /** The write of the next piece, whatever the record becomes. */
  lemma PieceStored(i: Info, m: Mem, len: Byte, data: seq<Byte>, a: nat, disk: seq<Byte>, end: nat) returns (r: Mem)
    requires len < |data| && PieceOf(data[..len], disk, i.offset)
    requires a == i.start * SECTOR && a + |disk| <= end && Filled(m, a, disk, i.offset, end)
    ensures Fits(m, WriteOp(i, len, data)) && r == Apply(m, WriteOp(i, len, data))
    ensures Filled(r, a, disk, i.offset + len, end)
  {
    var offset, piece := i.offset, data[..len];
    AppendPiece(m, a, disk, offset, piece, len, end);
    r := Apply(m, ProgramOp(a + offset, piece));
  }

  lemma LocalBlockReceived(b: Board, img: seq<Byte>, d: Device, len: Byte, data: seq<Byte>) returns (j: Info, r: Mem)
    requires Roomy(b, d) && HasReceived(b, img, d.info, d.mem) && d.info.binType == LOCAL_BIN && |img| < b.max
    requires len < |data| && d.info.offset + len <= |img|
    requires data[..len] == img[d.info.offset..d.info.offset + len]
    requires !SpoilsFlag(b, d.info.offset, len, data)
    ensures Fits(d.mem, WriteOp(d.info, len, Hide(b, d.info.offset, len, data)))
    ensures r == Apply(d.mem, WriteOp(d.info, len, Hide(b, d.info.offset, len, data)))
    ensures j == LocalNext(b, d.info, len, data) && HasReceived(b, img, j, r)
  {
    var i := d.info;
    SectorsCover(b, i.start, |img|);
    var a, disk, end := i.start * SECTOR, OnDisk(b, img, LOCAL_BIN), ErasedTo(i.start, |img|);
    j := LocalNext(b, i, len, data);
    HiddenPiece(b, img, i.offset, len, data);
    r := PieceStored(i, d.mem, len, Hide(b, i.offset, len, data), a, disk, end);
    LocalFurther(b, img, i, len, data);
    ReceivedNow(b, img, j, r, a, disk, end);
  }

  lemma RemoteFlag(b: Board, img: seq<Byte>, i: Info, len: Byte, data: seq<Byte>)
    requires i.offset + len <= |img| && RemoteState(b, img, i) && len < |data|
    requires data[..len] == img[i.offset..i.offset + len]
    ensures var j := RemoteNext(b, i, len, data);
            && Collecting(b, img, j)
            && (!i.found && j.found ==> (j.bootFlag == FLAG_WORD <==> FlagIn(b, img)))
  {
    var j := RemoteNext(b, i, len, data);
    CollectsOn(b, img, i, len, data);
    if j.found {
      SeenAll(b, img, j.offset, j.bootFlag);
    }
  }

  lemma RemoteBlockReceived(b: Board, img: seq<Byte>, d: Device, len: Byte, data: seq<Byte>) returns (j: Info, r: Mem)
    requires Roomy(b, d) && HasReceived(b, img, d.info, d.mem) && d.info.binType != LOCAL_BIN && |img| < b.max
    requires len < |data| && d.info.offset + len <= |img|
    requires data[..len] == img[d.info.offset..d.info.offset + len]
    requires !MatchesFlag(d.info, RemoteNext(b, d.info, len, data))
    ensures Fits(d.mem, WriteOp(d.info, len, data)) && r == Apply(d.mem, WriteOp(d.info, len, data))
    ensures j == RemoteNext(b, d.info, len, data) && HasReceived(b, img, j, r)
  {
    var i := d.info;
    SectorsCover(b, i.start, |img|);
    var a, end := i.start * SECTOR, ErasedTo(i.start, |img|);
    j := RemoteNext(b, i, len, data);
    PlainPiece(img, i.offset, len, data);
    r := PieceStored(i, d.mem, len, data, a, img, end);
    RemoteFlag(b, img, i, len, data);
    ReceivedNow(b, img, j, r, a, img, end);
  }

  predicate Succeeds(s: Step) {
    |s.replies| == 1 && s.replies[0].EndStatus? && s.replies[0].status == OTA_SUCCESS
  }

  predicate Fails(s: Step) {
    |s.replies| == 1 && s.replies[0].EndStatus? && s.replies[0].status != OTA_SUCCESS
  }

  lemma CountAside(b: Board, img: seq<Byte>, j: Info, r: Mem)
    requires HasReceived(b, img, j, r)
    ensures HasReceived(b, img, j.(count := 0), r)
  {
    assert OnDisk(b, img, j.binType) == OnDisk(b, img, j.(count := 0).binType);
  }

  /** What becomes of a block once it is written. */
  lemma StoredKeeps(b: Board, img: seq<Byte>, d: Device, j: Info, w: Op, r: Mem)
    requires Faithful(b, img, d.info.binType, d) && d.info.inProgress
    requires Fits(d.mem, w) && r == Apply(d.mem, w) && HasReceived(b, img, j, r)
    requires j.start == d.info.start && j.binType == d.info.binType && j.inProgress && |j.bootFlag| == 4
    ensures AllFit(d.mem, Stored(b, d.mem, j, w).ops)
    ensures Faithful(b, img, d.info.binType, Outcome(d, Stored(b, d.mem, j, w)))
    ensures Succeeds(Stored(b, d.mem, j, w)) <==>
            j.offset == |img| && (j.binType != LOCAL_BIN || FinalCheck(b, r, j))
    ensures Succeeds(Stored(b, d.mem, j, w)) ==> Outcome(d, Stored(b, d.mem, j, w)).mem == r
  {
    SaneStored(b, d, j, w);
    RunOne(d.mem, w);
    var s := Stored(b, d.mem, j, w);
    if j.offset < |img| {
      CountAside(b, img, j, r);
      assert Outcome(d, s) == Device(j.(count := 0), Block, r);
    } else {
      assert s.ops == [w] + EndOps(j, OTA_SUCCESS) || !Succeeds(s);
      assert [w] + [] == [w];
    }
  }

  lemma LocalKept(b: Board, d: Device, len: Byte, data: seq<Byte>)
    requires Roomy(b, d) && len < |data|
    requires !SpoilsFlag(b, d.info.offset, len, data)
    ensures OnLocalBlock(b, d, len, data) ==
            Stored(b, d.mem, LocalNext(b, d.info, len, data), WriteOp(d.info, len, Hide(b, d.info.offset, len, data)))
  {
  }

  lemma EndKeeps(b: Board, img: seq<Byte>, binType: Byte, d: Device, status: Byte)
    requires Faithful(b, img, binType, d)
    ensures AllFit(d.mem, End(d.info, Off, [], status).ops)
    ensures Faithful(b, img, binType, Outcome(d, End(d.info, Off, [], status)))
  {
    EndFits(d.mem, d.info, Off, [], status);
  }

  lemma LocalStoredKeeps(b: Board, img: seq<Byte>, d: Device, len: Byte, data: seq<Byte>) returns (s: Step)
    requires Faithful(b, img, LOCAL_BIN, d) && d.info.inProgress && d.info.binType == LOCAL_BIN
    requires len < |data| && d.info.offset + len <= |img|
    requires data[..len] == img[d.info.offset..d.info.offset + len]
    requires !SpoilsFlag(b, d.info.offset, len, data)
    ensures s == OnLocalBlock(b, d, len, data) && AllFit(d.mem, s.ops) && Faithful(b, img, LOCAL_BIN, Outcome(d, s))
  {
    var w := WriteOp(d.info, len, Hide(b, d.info.offset, len, data));
    LocalKept(b, d, len, data);
    var j, r := LocalBlockReceived(b, img, d, len, data);
    StoredKeeps(b, img, d, j, w, r);
    s := Stored(b, d.mem, j, w);
  }

  lemma LocalBlockKeeps(b: Board, img: seq<Byte>, d: Device, len: Byte, data: seq<Byte>)
    requires Faithful(b, img, LOCAL_BIN, d) && d.info.inProgress && d.info.binType == LOCAL_BIN
    requires len < |data| && d.info.offset + len <= |img|
    requires data[..len] == img[d.info.offset..d.info.offset + len]
    ensures AllFit(d.mem, OnLocalBlock(b, d, len, data).ops)
    ensures Faithful(b, img, LOCAL_BIN, Outcome(d, OnLocalBlock(b, d, len, data)))
  {
    if SpoilsFlag(b, d.info.offset, len, data) {
      EndKeeps(b, img, LOCAL_BIN, d, OTA_INCORRECT_DATA);
    } else {
      var s := LocalStoredKeeps(b, img, d, len, data);
    }
  }

  lemma RemoteBlockKeeps(b: Board, img: seq<Byte>, d: Device, len: Byte, data: seq<Byte>)
    requires Faithful(b, img, d.info.binType, d) && d.info.inProgress && d.info.binType != LOCAL_BIN
    requires len < |data| && d.info.offset + len <= |img|
    requires data[..len] == img[d.info.offset..d.info.offset + len]
    ensures AllFit(d.mem, OnRemoteBlock(b, d, len, data).ops)
    ensures Faithful(b, img, d.info.binType, Outcome(d, OnRemoteBlock(b, d, len, data)))
  {
    if MatchesFlag(d.info, RemoteNext(b, d.info, len, data)) {
      EndFits(d.mem, d.info, Off, [], OTA_MATCH_BOOT_FLAG);
    } else {
      var j, r := RemoteBlockReceived(b, img, d, len, data);
      StoredKeeps(b, img, d, j, WriteOp(d.info, len, data), r);
    }
  }

  /** Any block a host serves keeps the invariant, whatever its length and wherever it is cut. */
  lemma BlockKeeps(b: Board, img: seq<Byte>, d: Device, msg: Msg)
    requires Faithful(b, img, d.info.binType, d) && d.info.inProgress
    requires msg.BlockResponse? && WellFormed(msg) && Serves(img, d.info.binType, msg)
    ensures AllFit(d.mem, OnBlock(b, d, msg).ops)
    ensures Faithful(b, img, d.info.binType, Outcome(d, OnBlock(b, d, msg)))
  {
    if msg.status != OTA_SUCCESS {
      EndFits(d.mem, d.info, Off, [], OTA_INCORRECT_DATA);
    } else if msg.offset != d.info.offset {
    } else if d.info.binType == LOCAL_BIN {
      LocalBlockKeeps(b, img, d, msg.len, msg.data);
    } else {
      RemoteBlockKeeps(b, img, d, msg.len, msg.data);
    }
  }

  lemma StartKeeps(b: Board, img: seq<Byte>, binType: Byte, d: Device)
    requires Faithful(b, img, binType, d) && b.Valid()
    ensures AllFit(d.mem, OnStart(b, d, |img|, binType).ops)
    ensures Faithful(b, img, binType, Outcome(d, OnStart(b, d, |img|, binType)))
  {
    SaneStart(b, d, |img|, binType);
    if !d.info.inProgress {
      var t := Outcome(d, OnStart(b, d, |img|, binType));
      SectorsCover(b, t.info.start, |img|);
      EraseOpsBlank(d.mem, t.info.start, SectorsUsed(|img|));
      assert img[..0] == [];
    }
  }

  lemma TimerKeeps(b: Board, img: seq<Byte>, binType: Byte, d: Device)
    requires Faithful(b, img, binType, d) && d.timer == Block
    ensures AllFit(d.mem, OnBlockTimer(d).ops)
    ensures Faithful(b, img, binType, Outcome(d, OnBlockTimer(d)))
  {
    SaneBlockTimer(b, d);
    if d.info.count < RETRY_MAX {
      assert OnDisk(b, img, d.info.binType) == OnDisk(b, img, OnBlockTimer(d).info.binType);
    }
  }

  /** A response outside a transfer starts none. */
  lemma StrayKeeps(b: Board, img: seq<Byte>, binType: Byte, d: Device, msg: Msg)
    requires Faithful(b, img, binType, d) && !d.info.inProgress
    requires msg.BlockResponse? && WellFormed(msg) && Serves(img, binType, msg)
    ensures AllFit(d.mem, OnBlock(b, d, msg).ops) && !OnBlock(b, d, msg).info.inProgress
    ensures Faithful(b, img, binType, Outcome(d, OnBlock(b, d, msg)))
  {
    SaneBlock(b, d, msg);
  }

  /** A session: what such a host may have sent, in any order and at any time, also outside a
      transfer, with the timers in between. */
  ghost predicate Session(b: Board, img: seq<Byte>, binType: Byte, d: Device, es: seq<Event>)
    requires Sane(b, d)
    decreases |es|
  {
    es != [] ==>
      && Possible(d, es[0]) && (es[0].Received? ==> Serves(img, binType, es[0].msg))
      && var s := Handle(b, d, es[0]);
         AllFit(d.mem, s.ops) && Sane(b, Outcome(d, s)) && Session(b, img, binType, Outcome(d, s), es[1..])
  }

  ghost function After(b: Board, img: seq<Byte>, binType: Byte, d: Device, es: seq<Event>): Device
    requires Sane(b, d) && Session(b, img, binType, d, es)
    decreases |es|
  {
    if es == [] then d else After(b, img, binType, Outcome(d, Handle(b, d, es[0])), es[1..])
  }

  lemma FaithfulHandle(b: Board, img: seq<Byte>, binType: Byte, d: Device, e: Event)
    requires Faithful(b, img, binType, d) && Possible(d, e) && (e.Received? ==> Serves(img, binType, e.msg))
    ensures AllFit(d.mem, Handle(b, d, e).ops)
    ensures Faithful(b, img, binType, Outcome(d, Handle(b, d, e)))
  {
    SaneHandle(b, d, e);
    match e
    case Received(StartRequest(_, _)) => StartKeeps(b, img, binType, d);
    case Received(BlockResponse(_, _, _, _)) =>
      if d.info.inProgress {
        BlockKeeps(b, img, d, e.msg);
      } else {
        StrayKeeps(b, img, binType, d, e.msg);
      }
    case BlockTimer => TimerKeeps(b, img, binType, d);
    case HandoverTimer =>
  }

  lemma {:induction false} FaithfulAfter(b: Board, img: seq<Byte>, binType: Byte, d: Device, es: seq<Event>)
    requires Faithful(b, img, binType, d) && Session(b, img, binType, d, es)
    ensures Faithful(b, img, binType, After(b, img, binType, d, es))
    decreases |es|
  {
    if es != [] {
      FaithfulHandle(b, img, binType, d, es[0]);
      FaithfulAfter(b, img, binType, Outcome(d, Handle(b, d, es[0])), es[1..]);
    }
  }

  /** Whatever the network loses, repeats or reorders: as long as a transfer is under way the
      slot holds exactly the bytes received, at their own offsets, and nothing else; a local
      image has its flag byte disabled and its CRC has run over just these bytes. */
  lemma TransferExact(b: Board, img: seq<Byte>, binType: Byte, d: Device, es: seq<Event>)
    requires Sane(b, d) && !d.info.inProgress && 0 < |img| < b.max && Session(b, img, binType, d, es)
    ensures var t := After(b, img, binType, d, es);
            t.info.inProgress ==>
              && t.timer == Block && t.info.offset < |img|
              && Filled(t.mem, t.info.start * SECTOR, OnDisk(b, img, binType), t.info.offset,
                        ErasedTo(t.info.start, |img|))
              && (binType == LOCAL_BIN ==>
                    t.info.crc == Crc32.Fold(b.crc, img[..CrcEnd(|img|, t.info.offset)], Crc32.INIT))
  {
    FaithfulAfter(b, img, binType, d, es);
  }

  // ---------------------------------------------------------------- every byte is written once

  /** The commands program the first `n` bytes of `disk` at `a`, in order, each byte once, and
      do nothing else. */
  ghost predicate Tiles(ops: seq<Op>, a: nat, disk: seq<Byte>, n: nat)
    decreases |ops|
  {
    if ops == [] then n == 0
    else
      var last := ops[|ops| - 1];
      && last.ProgramOp? && |last.data| <= n && last.addr == a + (n - |last.data|)
      && PieceOf(last.data, disk, n - |last.data|)
      && Tiles(ops[..|ops| - 1], a, disk, n - |last.data|)
  }

  lemma TilesOn(ops: seq<Op>, a: nat, disk: seq<Byte>, n: nat, piece: seq<Byte>)
    requires Tiles(ops, a, disk, n) && PieceOf(piece, disk, n)
    ensures Tiles(ops + [ProgramOp(a + n, piece)], a, disk, n + |piece|)
  {
    var on := ops + [ProgramOp(a + n, piece)];
    assert on[..|on| - 1] == ops;
  }

  /** An event that leaves a transfer under way either writes nothing or writes the next piece. */
  predicate WritesNext(disk: seq<Byte>, i: Info, s: Step) {
    || (s.ops == [] && s.info.offset == i.offset)
    || (&& |s.ops| == 1 && s.ops[0].ProgramOp? && s.ops[0].addr == i.start * SECTOR + i.offset
        && PieceOf(s.ops[0].data, disk, i.offset) && s.info.offset == i.offset + |s.ops[0].data|)
  }

  lemma BlockWritesNext(b: Board, img: seq<Byte>, d: Device, msg: Msg)
    requires Faithful(b, img, d.info.binType, d) && d.info.inProgress
    requires msg.BlockResponse? && WellFormed(msg) && Serves(img, d.info.binType, msg)
    ensures OnBlock(b, d, msg).info.inProgress ==>
              && OnBlock(b, d, msg).info.start == d.info.start
              && WritesNext(OnDisk(b, img, d.info.binType), d.info, OnBlock(b, d, msg))
  {
    if msg.status == OTA_SUCCESS && msg.offset == d.info.offset {
      HiddenPiece(b, img, msg.offset, msg.len, msg.data);
      PlainPiece(img, msg.offset, msg.len, msg.data);
    }
  }

  /** The commands given since the transfer under way was started, its erasing aside. */
  ghost function Log(b: Board, img: seq<Byte>, binType: Byte, d: Device, es: seq<Event>, log: seq<Op>): seq<Op>
    requires Sane(b, d) && Session(b, img, binType, d, es)
    decreases |es|
  {
    if es == [] then log
    else
      var s := Handle(b, d, es[0]);
      Log(b, img, binType, Outcome(d, s), es[1..], if d.info.inProgress then log + s.ops else [])
  }

  ghost predicate Logged(b: Board, img: seq<Byte>, d: Device, log: seq<Op>) {
    d.info.inProgress ==> Tiles(log, d.info.start * SECTOR, OnDisk(b, img, d.info.binType), d.info.offset)
  }

  lemma LoggedHandle(b: Board, img: seq<Byte>, binType: Byte, d: Device, e: Event, log: seq<Op>)
    requires Faithful(b, img, binType, d) && Possible(d, e) && (e.Received? ==> Serves(img, binType, e.msg))
    requires Logged(b, img, d, log)
    ensures AllFit(d.mem, Handle(b, d, e).ops)
    ensures Logged(b, img, Outcome(d, Handle(b, d, e)), if d.info.inProgress then log + Handle(b, d, e).ops else [])
  {
    SaneHandle(b, d, e);
    FaithfulHandle(b, img, binType, d, e);
    var s := Handle(b, d, e);
    assert log + [] == log;
    if !d.info.inProgress && e.Received? && e.msg.BlockResponse? {
      StrayKeeps(b, img, binType, d, e.msg);
    }
    if d.info.inProgress && e.Received? && e.msg.BlockResponse? {
      BlockWritesNext(b, img, d, e.msg);
      if s.info.inProgress && s.ops != [] {
        assert s.ops == [s.ops[0]];
        TilesOn(log, d.info.start * SECTOR, OnDisk(b, img, d.info.binType), d.info.offset, s.ops[0].data);
      }
    }
  }

  lemma {:induction false} LoggedAfter(b: Board, img: seq<Byte>, binType: Byte, d: Device, es: seq<Event>, log: seq<Op>)
    requires Faithful(b, img, binType, d) && Session(b, img, binType, d, es) && Logged(b, img, d, log)
    ensures Logged(b, img, After(b, img, binType, d, es), Log(b, img, binType, d, es, log))
    decreases |es|
  {
    if es != [] {
      var s := Handle(b, d, es[0]);
      FaithfulHandle(b, img, binType, d, es[0]);
      LoggedHandle(b, img, binType, d, es[0], log);
      LoggedAfter(b, img, binType, Outcome(d, s), es[1..], if d.info.inProgress then log + s.ops else []);
    }
  }

  /** Every accepted byte is programmed exactly once, at its own offset. */
  lemma EveryByteOnce(b: Board, img: seq<Byte>, binType: Byte, d: Device, es: seq<Event>)
    requires Sane(b, d) && !d.info.inProgress && 0 < |img| < b.max && Session(b, img, binType, d, es)
    ensures var t := After(b, img, binType, d, es);
            t.info.inProgress ==>
              Tiles(Log(b, img, binType, d, es, []), t.info.start * SECTOR, OnDisk(b, img, t.info.binType),
                    t.info.offset)
  {
    LoggedAfter(b, img, binType, d, es, []);
  }
}
