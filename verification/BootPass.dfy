/** `bootloader_with_ota_check` itself, proved to be a pass of the machine of BootInstall. */
module BootPass {
  import opened Bytes
  import opened NorFlash
  import opened Firmware
  import opened BootInstall
  import opened BootSafe
  import Crc32

  ghost predicate StepAt(l: Layout, run: seq<State>, k: nat)
    requires l.Valid() && 0 < k < |run|
  {
    l.OnChip(run[k - 1].mem) && CodeStep(l, run[k - 1], run[k])
  }

  /** The states one uninterrupted pass goes through, from flash contents `m` to `s`. */
  ghost predicate Pass(l: Layout, m: Mem, run: seq<State>, s: State)
    requires l.Valid()
  {
    && |run| > 0 && run[0] == State(m, Boot) && run[|run| - 1] == s && l.OnChip(s.mem)
    && forall k :: 0 < k < |run| ==> StepAt(l, run, k)
  }

  lemma PassOn(l: Layout, m: Mem, run: seq<State>, s: State, t: State) returns (on: seq<State>)
    requires l.Valid() && Pass(l, m, run, s) && CodeStep(l, s, t)
    ensures Pass(l, m, on, t)
  {
    on := run + [t];
    forall k | 0 < k < |on|
      ensures StepAt(l, on, k)
    {
      if k < |run| {
        assert StepAt(l, run, k);
      }
    }
  }

  /** A pass that meets no failure is one of the runs the theorems speak about. */
  lemma PassIsRun(l: Layout, m: Mem, run: seq<State>, s: State)
    requires l.Valid() && Pass(l, m, run, s)
    ensures IsRun(l, run) && run[0] == State(m, Boot) && run[|run| - 1] == s
  {
    forall k | 0 <= k < |run|
      ensures l.OnChip(run[k].mem)
    {
      if k + 1 < |run| {
        assert StepAt(l, run, k + 1);
      }
    }
    forall k | 0 < k < |run|
      ensures Next(l, run[k - 1], run[k])
    {
      assert StepAt(l, run, k);
    }
  }

  /** The load slot is erased from page `p` up to sector `end`. */
  predicate SectorInHand(l: Layout, m: Mem, p: nat, end: nat) {
    IsBlank(m, PageAt(l.load, p), l.load + end * SECTOR)
  }

  lemma SectorGap(l: Layout, p: nat, end: nat)
    requires l.Valid() && p * PAGE <= end * SECTOR < p * PAGE + SECTOR
    ensures p % PAGES_PER_SECTOR == 0 <==> end * SECTOR == p * PAGE
    ensures p * PAGE % SECTOR == 0 <==> end * SECTOR == p * PAGE
    ensures p * PAGE < end * SECTOR ==> (p + 1) * PAGE <= end * SECTOR
    ensures end * SECTOR == p * PAGE ==>
              (l.load + p * PAGE) / SECTOR == l.loadSector + end && p / PAGES_PER_SECTOR == end
  {
    assert p <= 16 * end < p + 16;
    if p % 16 == 0 {
      assert p == 16 * (p / 16);
    }
    if p * PAGE % SECTOR == 0 {
      assert p * PAGE == SECTOR * (p * PAGE / SECTOR);
    }
    if p == 16 * end {
      assert p % 16 == 0 && p / 16 == end;
    }
  }

  /** Lines 147-163, the CRC in pieces of at most 256 bytes: one pass over the slot's bytes up to
      the trailer gives the trailer. */
  method ChunkedCrcMatches(l: Layout, chip: Flash, size: U32) returns (ok: bool)
    requires l.Valid() && l.OnChip(chip.mem) && size <= l.max
    ensures ok <==> CrcMatches(l, chip.mem, size)
    ensures size >= 4 ==>
              var s := SlotContents(l, chip.mem);
              ok <==> Crc32.Fold(l.crc, s[..size - 4], Crc32.INIT) == Le32(s[size - 4..size])
  {
    var totalLen := size - 4;
    var at := l.spare;
    var trailer := chip.Read(l.spare + size - 4, 4);
    var cur := Crc32.INIT;
    while totalLen > 0
      invariant totalLen > 0 ==> at + totalLen == l.spare + Covered(size)
      invariant totalLen <= 0 ==> at == l.spare + Covered(size)
      invariant l.spare <= at
      invariant cur == Crc32.Fold(l.crc, chip.mem[l.spare..at], Crc32.INIT)
    {
      var n := if totalLen > 256 then 256 else totalLen;
      var buf := chip.Read(at, n);
      Crc32.FoldConcat(l.crc, chip.mem[l.spare..at], buf, Crc32.INIT);
      SliceJoin(chip.mem, l.spare, at, at + n);
      cur := Crc32.Xcrc32(l.crc, buf, cur);
      totalLen, at := totalLen - n, at + n;
    }
    ok := cur == Le32(trailer);
    if size >= 4 {
      SlotTrailer(l, chip.mem, SlotContents(l, chip.mem), size);
    }
  }

  lemma PageStored(m: Mem, r: Mem, a: nat, d: seq<Byte>)
    requires IsBlank(m, a, a + |d|) && r == Apply(m, ProgramOp(a, d))
    ensures r[a..a + |d|] == d
  {
    ProgramBlank(m, a, d);
    HoldsSlice(r, a, d);
  }

  /** Lines 178-182: write the page that starts at `from` to `to`, and read it back. */
  method WriteReadBack(chip: Flash, from: nat, to: nat) returns (same: bool)
    requires from + PAGE <= |chip.mem| && to + PAGE <= |chip.mem|
    requires to + PAGE <= from
    modifies chip
    ensures SameOutside(old(chip.mem), chip.mem, to, to + PAGE)
    ensures same <==> chip.mem[to..to + PAGE] == chip.mem[from..from + PAGE]
    ensures !chip.worn && IsBlank(old(chip.mem), to, to + PAGE) ==> same
  {
    ghost var m := chip.mem;
    var buf := chip.Read(from, PAGE);
    chip.Write(to, buf);
    assert chip.mem[from..from + PAGE] == buf;
    if !chip.worn && IsBlank(m, to, to + PAGE) {
      PageStored(m, chip.mem, to, buf);
    }
    var readBuf := chip.Read(to, PAGE);
    same := readBuf == buf;
  }

  /** One turn of the copy loop, written down. */
  lemma PassPage(l: Layout, start: Mem, run: seq<State>, m: Mem, ready: Mem, r: Mem, size: nat, p: nat)
      returns (on: seq<State>)
    requires l.Valid() && Pass(l, start, run, State(m, Page(size, p)))
    requires p * PAGE < size && ready == SectorReady(l, m, p) && PagesOnChip(l, r, p)
    requires SameOutside(ready, r, PageAt(l.load, p), PageAt(l.load, p) + PAGE)
    ensures Pass(l, start, on, State(r, if SamePage(l, r, p) then Page(size, p + 1) else Boot))
  {
    on := PassOn(l, start, run, State(m, Page(size, p)), State(ready, Ready(size, p)));
    on := PassOn(l, start, on, State(ready, Ready(size, p)), State(r, Verify(size, p)));
    on := PassOn(l, start, on, State(r, Verify(size, p)),
                 State(r, if SamePage(l, r, p) then Page(size, p + 1) else Boot));
  }

  lemma SectorErased(l: Layout, m: Mem, p: nat, end: nat)
    requires l.Valid() && l.OnChip(m) && end * SECTOR == p * PAGE < l.max
    ensures IsBlank(Apply(m, EraseOp(l.loadSector + end)), PageAt(l.load, p), l.load + (end + 1) * SECTOR)
    ensures SameOutside(m, Apply(m, EraseOp(l.loadSector + end)), PageAt(l.load, p), l.load + l.max)
  {
  }

  /** Lines 174-176. */
  method PrepareSector(l: Layout, chip: Flash, i: nat, ghost p: nat, ghost end: nat) returns (ghost end': nat)
    requires l.Valid() && l.OnChip(chip.mem) && i == p * PAGE < l.max
    requires p * PAGE <= end * SECTOR < p * PAGE + SECTOR
    requires !chip.worn ==> SectorInHand(l, chip.mem, p, end)
    modifies chip
    ensures chip.mem == SectorReady(l, old(chip.mem), p)
    ensures SameOutside(old(chip.mem), chip.mem, PageAt(l.load, p), l.load + l.max)
    ensures (p + 1) * PAGE <= end' * SECTOR < (p + 1) * PAGE + SECTOR
    ensures !chip.worn ==> SectorInHand(l, chip.mem, p, end')
  {
    SectorGap(l, p, end);
    if i % SECTOR == 0 {
      SectorErased(l, chip.mem, p, end);
      chip.Erase(l.load + i);
      end' := end + 1;
    } else {
      end' := end;
    }
  }

  /** Body of the copy loop: erase at a sector start, write the page, read it back. */
  method CopyPage(l: Layout, chip: Flash, i: nat, ghost p: nat, ghost end: nat)
      returns (same: bool, ghost ready: Mem, ghost end': nat)
    requires l.Valid() && l.OnChip(chip.mem) && i == p * PAGE && (p + 1) * PAGE <= l.max
    requires p * PAGE <= end * SECTOR < p * PAGE + SECTOR
    requires !chip.worn ==> SectorInHand(l, chip.mem, p, end)
    modifies chip
    ensures l.OnChip(chip.mem)
    ensures ready == SectorReady(l, old(chip.mem), p)
    ensures SameOutside(ready, chip.mem, PageAt(l.load, p), PageAt(l.load, p) + PAGE)
    ensures PagesOnChip(l, chip.mem, p) && (same <==> SamePage(l, chip.mem, p))
    ensures SameOutside(old(chip.mem), chip.mem, PageAt(l.load, p), l.load + l.max)
    ensures (p + 1) * PAGE <= end' * SECTOR < (p + 1) * PAGE + SECTOR
    ensures !chip.worn ==> same && SectorInHand(l, chip.mem, p + 1, end')
  {
    end' := PrepareSector(l, chip, i, p, end);
    ready := chip.mem;
    var from, to := l.spare + i, l.load + i;
    assert to == PageAt(l.load, p) && from == PageAt(l.spare, p);
    same := WriteReadBack(chip, from, to);
  }

  /** Lines 173-191: the copy loop. A page that does not read back right resets the chip. */
  method CopyImage(l: Layout, chip: Flash, size: U32, ghost img: seq<Byte>,
                   ghost start: Mem, ghost before: seq<State>)
      returns (reset: bool, ghost run: seq<State>)
    requires l.Valid() && l.OnChip(chip.mem) && size <= l.max
    requires |img| == l.max && Holds(chip.mem, l.spare, img)
    requires Pass(l, start, before, State(chip.mem, Page(size, 0)))
    modifies chip
    ensures l.OnChip(chip.mem)
    ensures Pass(l, start, run, State(chip.mem, if reset then Boot else Clear(size)))
    ensures SameOutside(old(chip.mem), chip.mem, l.load, l.load + l.max)
    ensures !chip.worn ==> !reset
    ensures !reset ==> Copied(l, img, chip.mem, size) && Holds(chip.mem, l.spare, img)
  {
    ghost var m0 := chip.mem;
    ghost var p, end := 0, 0;
    run := before;
    var i := 0;
    while i < size
      invariant l.OnChip(chip.mem) && SameOutside(m0, chip.mem, l.load, l.load + l.max)
      invariant i == p * PAGE <= l.max
      invariant p * PAGE <= end * SECTOR < p * PAGE + SECTOR
      invariant Holds(chip.mem, l.spare, img) && Copied(l, img, chip.mem, p * PAGE)
      invariant !chip.worn ==> SectorInHand(l, chip.mem, p, end)
      invariant Pass(l, start, run, State(chip.mem, Page(size, p)))
      decreases size - i
    {
      ghost var below := chip.mem;
      PageFits(l, size, p);
      var same;
      ghost var ready;
      same, ready, end := CopyPage(l, chip, i, p, end);
      run := PassPage(l, start, run, below, ready, chip.mem, size, p);
      if !same {
        return true, run;
      }
      CopyKept(l, img, below, chip.mem, p);
      PageReadBack(l, img, chip.mem, p);
      i, p := i + PAGE, p + 1;
    }
    run := PassOn(l, start, run, State(chip.mem, Page(size, p)), State(chip.mem, Clear(size)));
    reset := false;
  }

  /** Flash once the first `j` sectors of the wipe are erased. */
  function WipedTo(l: Layout, m: Mem, j: nat): (r: Mem)
    ensures |r| == |m|
    decreases j
  {
    if j == 0 then m
    else
      var before := WipedTo(l, m, j - 1);
      Apply(before, EraseOp(Wiped(l, before, j - 1)))
  }

  lemma {:induction false} PassWipe(l: Layout, start: Mem, run: seq<State>, m: Mem, size: nat, j: nat)
      returns (on: seq<State>)
    requires l.Valid() && Pass(l, start, run, State(m, Wipe(size, 0))) && j <= SectorsToWipe(size)
    ensures Pass(l, start, on, State(WipedTo(l, m, j), Wipe(size, j)))
    decreases j
  {
    if j == 0 {
      on := run;
    } else {
      on := PassWipe(l, start, run, m, size, j - 1);
      on := PassOn(l, start, on, State(WipedTo(l, m, j - 1), Wipe(size, j - 1)),
                   State(WipedTo(l, m, j), Wipe(size, j)));
    }
  }

  lemma PassRetire(l: Layout, start: Mem, run: seq<State>, m: Mem, r: Mem, size: nat) returns (on: seq<State>)
    requires l.Valid() && Pass(l, start, run, State(m, Clear(size)))
    requires SameOutside(m, r, l.spare + l.flag, l.spare + l.flag + 1)
    ensures Pass(l, start, on, State(WipedTo(l, r, SectorsToWipe(size)), Launch))
  {
    var n := SectorsToWipe(size);
    on := PassOn(l, start, run, State(m, Clear(size)), State(r, Wipe(size, 0)));
    on := PassWipe(l, start, on, r, size, n);
    on := PassOn(l, start, on, State(WipedTo(l, r, n), Wipe(size, n)), State(WipedTo(l, r, n), Launch));
  }

  /** The wipe of an image that fits. */
  lemma {:induction false} WipedInside(l: Layout, m: Mem, size: nat, j: nat)
    requires l.Valid() && l.OnChip(m) && Contained(l, size) && j <= SectorsToWipe(size)
    ensures AllFit(m, EraseOps(l.spareSector, j)) && WipedTo(l, m, j) == Run(m, EraseOps(l.spareSector, j))
    decreases j
  {
    if j == 0 {
      EraseOneMore(m, l.spareSector, 0);
    } else {
      WipedInside(l, m, size, j - 1);
      WipeInside(l, WipedTo(l, m, j - 1), size, j - 1);
      EraseOneMore(m, l.spareSector, j - 1);
    }
  }

  lemma WipedBlank(l: Layout, m: Mem, size: U32)
    requires l.Valid() && l.OnChip(m) && Contained(l, size)
    ensures var r := WipedTo(l, m, SectorsToWipe(size));
            && IsBlank(r, l.spare, l.spare + SectorsToWipe(size) * SECTOR)
            && SameOutside(m, r, l.spare, l.spare + l.max)
  {
    var n := SectorsToWipe(size);
    WipedInside(l, m, size, n);
    EraseOpsBlank(m, l.spareSector, n);
  }

  /** Lines 198-200: erase the sectors the header says the image occupies. */
  method WipeSpare(l: Layout, chip: Flash, size: U32)
    requires l.Valid() && l.OnChip(chip.mem)
    modifies chip
    ensures chip.mem == WipedTo(l, old(chip.mem), SectorsToWipe(size))
  {
    ghost var m := chip.mem;
    var n := SectorsToWipe(size);
    var i := 0;
    while i < n
      invariant 0 <= i <= n && chip.mem == WipedTo(l, m, i)
    {
      chip.EraseWrapping(l.spare + i * SECTOR, l.spareSector + i);
      i := i + 1;
    }
  }

  /** Lines 194-205: clear the flag, then wipe. */
  method RetireSpare(l: Layout, chip: Flash, size: U32, ghost start: Mem, ghost before: seq<State>)
      returns (ghost run: seq<State>)
    requires l.Valid() && l.OnChip(chip.mem)
    requires Pass(l, start, before, State(chip.mem, Clear(size)))
    modifies chip
    ensures l.OnChip(chip.mem) && Pass(l, start, run, State(chip.mem, Launch))
    ensures Contained(l, size) ==> SameOutside(old(chip.mem), chip.mem, l.spare, l.spare + l.max)
    ensures Contained(l, size) ==> IsBlank(chip.mem, l.spare, l.spare + SectorsToWipe(size) * SECTOR)
  {
    ghost var m := chip.mem;
    chip.Write(l.spare + l.flag, [0]);
    run := PassRetire(l, start, before, m, chip.mem, size);
    if Contained(l, size) {
      WipedBlank(l, chip.mem, size);
    }
    WipeSpare(l, chip, size);
  }

  /** Lines 139-140. */
  method HeaderSize(l: Layout, chip: Flash) returns (size: U32)
    requires l.Valid() && l.OnChip(chip.mem)
    ensures size == SlotSize(l, chip.mem)
  {
    var buf := chip.Read(l.spare, 256);
    SliceOfSlice(chip.mem, l.spare, l.spare + 256, SIZE_AT, HEADER);
    size := Le32(buf[SIZE_AT..HEADER]);
  }

  /** Lines 133-164: the flag word, the size in the header, the CRC. */
  method Inspect(l: Layout, chip: Flash) returns (next: Pc)
    requires l.Valid() && l.OnChip(chip.mem)
    ensures next == AfterChecks(l, chip.mem)
    ensures next == if Installable(l, chip.mem) then Page(SlotSize(l, chip.mem), 0)
                    else if Flagged(l, chip.mem, l.spare) then Clear(SlotSize(l, chip.mem)) else Launch
  {
    ChecksIff(l, chip.mem);
    var flagWord := chip.Read(l.spare + l.flag, 4);
    if flagWord != FLAG_WORD {
      return Launch;
    }
    var size := HeaderSize(l, chip);
    var valid := false;
    if size <= l.max {
      valid := ChunkedCrcMatches(l, chip, size);
    }
    next := if valid then Page(size, 0) else Clear(size);
  }

  /** From `m` to `r` the image moved from the spare slot, now erased, to the load slot. */
  predicate Delivered(l: Layout, size: nat, m: Mem, r: Mem)
    requires l.Valid() && l.OnChip(m) && l.OnChip(r)
  {
    && size <= l.max
    && r[l.load..l.load + size] == m[l.spare..l.spare + size]
    && IsBlank(r, l.spare, l.spare + SectorsToWipe(size) * SECTOR)
  }

  /** Lines 166-205 for a slot that passed the checks. */
  method InstallImage(l: Layout, chip: Flash, size: U32, ghost before: seq<State>)
      returns (reset: bool, ghost run: seq<State>)
    requires l.Valid() && l.OnChip(chip.mem) && size <= l.max
    requires Pass(l, chip.mem, before, State(chip.mem, Page(size, 0)))
    modifies chip
    ensures l.OnChip(chip.mem)
    ensures Pass(l, old(chip.mem), run, State(chip.mem, if reset then Boot else Launch))
    ensures !chip.worn ==> !reset
    ensures !reset ==> Delivered(l, size, old(chip.mem), chip.mem)
  {
    ghost var start := chip.mem;
    ghost var img := start[l.spare..l.spare + l.max];
    reset, run := CopyImage(l, chip, size, img, start, before);
    if !reset {
      CopiedSlice(l, start, chip.mem, size);
      ContainedIff(l, size);
      ghost var copy := chip.mem[l.load..l.load + size];
      run := RetireSpare(l, chip, size, start, run);
      assert chip.mem[l.load..l.load + size] == copy;
    }
  }

  /** Lines 208-222: the last test. */
  method LaunchLoadSlot(l: Layout, chip: Flash) returns (outcome: Pc)
    requires l.Valid() && l.OnChip(chip.mem)
    ensures outcome == if Flagged(l, chip.mem, l.load) then Reboot else NoApp
  {
    var flagWord := chip.Read(l.load + l.flag, 4);
    outcome := if flagWord == FLAG_WORD then Reboot else NoApp;
  }

  /** Lines 133-206: leaves the machine at Launch, or at Boot after a reset. */
  method Update(l: Layout, chip: Flash) returns (reset: bool, ghost run: seq<State>)
    requires l.Valid() && l.OnChip(chip.mem)
    modifies chip
    ensures l.OnChip(chip.mem)
    ensures Pass(l, old(chip.mem), run, State(chip.mem, if reset then Boot else Launch))
    ensures !chip.worn ==> !reset
    ensures !Flagged(l, old(chip.mem), l.spare) ==> !reset && chip.mem == old(chip.mem)
    ensures !Installable(l, old(chip.mem)) ==> !reset
    ensures !reset && Installable(l, old(chip.mem)) ==>
              Delivered(l, SlotSize(l, old(chip.mem)), old(chip.mem), chip.mem)
  {
    ghost var start := chip.mem;
    var next := Inspect(l, chip);
    reset := false;
    run := PassOn(l, start, [State(start, Boot)], State(start, Boot), State(start, next));
    match next
    case Page(size, _) =>
      reset, run := InstallImage(l, chip, size, run);
    case Clear(size) =>
      run := RetireSpare(l, chip, size, start, run);
    case _ =>
  }

  /** `bootloader_with_ota_check`. The pass it makes is one of the machine's; on a chip that
      stores what it is told, a good image ends up in the load slot and the spare is erased. */
  method BootloaderWithOtaCheck(l: Layout, chip: Flash) returns (outcome: Pc, ghost run: seq<State>)
    requires l.Valid() && l.OnChip(chip.mem)
    modifies chip
    ensures l.OnChip(chip.mem)
    ensures Pass(l, old(chip.mem), run, State(chip.mem, outcome))
    ensures outcome == Boot || outcome == (if Flagged(l, chip.mem, l.load) then Reboot else NoApp)
    ensures !chip.worn ==> outcome != Boot
    ensures !Flagged(l, old(chip.mem), l.spare) ==> chip.mem == old(chip.mem)
    ensures outcome != Boot && Installable(l, old(chip.mem)) ==>
              Delivered(l, SlotSize(l, old(chip.mem)), old(chip.mem), chip.mem)
    ensures !Installable(l, old(chip.mem)) && Spared(l, old(chip.mem)) ==>
              SameLoadSlot(l, old(chip.mem), chip.mem) && outcome != Boot
    ensures HeaderFits(l, old(chip.mem)) ==> SlotsOnly(l, old(chip.mem), chip.mem)
  {
    ghost var start := chip.mem;
    var reset;
    reset, run := Update(l, chip);
    if reset {
      outcome := Boot;
    } else {
      outcome := LaunchLoadSlot(l, chip);
      run := PassOn(l, start, run, State(chip.mem, Launch), State(chip.mem, outcome));
    }
    PassStaysInside(l, start, run, State(chip.mem, outcome));
    PassRefused(l, start, run, State(chip.mem, outcome));
  }

  lemma PassRefused(l: Layout, m: Mem, run: seq<State>, s: State)
    requires l.Valid() && l.OnChip(m) && Pass(l, m, run, s)
    ensures !Installable(l, m) && Spared(l, m) ==> SameLoadSlot(l, m, s.mem)
  {
    PassIsRun(l, m, run, s);
    if !Installable(l, m) && Spared(l, m) {
      RejectedKeepsApp(l, run);
    }
  }

  lemma PassStaysInside(l: Layout, m: Mem, run: seq<State>, s: State)
    requires l.Valid() && l.OnChip(m) && Pass(l, m, run, s)
    ensures HeaderFits(l, m) ==> SlotsOnly(l, m, s.mem)
  {
    PassIsRun(l, m, run, s);
    if HeaderFits(l, m) {
      OutsideKept(l, run);
    }
  }

  lemma CopiedSlice(l: Layout, m: Mem, r: Mem, n: nat)
    requires l.Valid() && l.OnChip(m) && |r| == |m| && n <= l.max
    requires Copied(l, m[l.spare..l.spare + l.max], r, n)
    ensures r[l.load..l.load + n] == m[l.spare..l.spare + n]
  {
    SliceOfSlice(m, l.spare, l.spare + l.max, 0, n);
  }
}
