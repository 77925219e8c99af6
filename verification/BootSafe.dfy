/** What every run of the install machine keeps: a good image is never lost, a bad one costs
    nothing, and nothing outside the two slots changes. */
module BootSafe {
  import opened Bytes
  import opened NorFlash
  import opened Firmware
  import opened BootInstall

  // ---------------------------------------------------------------- a good image is never lost

  /** The first `n` bytes of the load slot are those of the image. */
  predicate Copied(l: Layout, img: seq<Byte>, m: Mem, n: nat) {
    && l.load + n <= |m| && n <= |img|
    && forall k :: l.load <= k < l.load + n ==> m[k] == img[k - l.load]
  }

  /** The load slot holds the image, and its first page to the end. */
  predicate Installed(l: Layout, img: seq<Byte>, m: Mem)
    requires HEADER <= |img|
  {
    Copied(l, img, m, FwSize(img)) && Copied(l, img, m, PAGE)
  }

  /** The image is installed and nothing would start another install. */
  predicate Settled(l: Layout, img: seq<Byte>, m: Mem)
    requires l.Valid() && l.OnChip(m) && HEADER <= |img|
  {
    Installed(l, img, m) && Harmless(l, m)
  }

  /** `img` is what the spare slot held when the update was complete. */
  predicate Good(l: Layout, img: seq<Byte>) {
    l.Valid() && |img| == l.max && Bootable(l, img)
  }

  ghost predicate Safe(l: Layout, img: seq<Byte>, s: State)
    requires Good(l, img)
  {
    && l.OnChip(s.mem)
    && var intact := Holds(s.mem, l.spare, img);
       var n := FwSize(img);
       match s.pc
       case Boot => intact || Settled(l, img, s.mem)
       case Page(size, p) => size == n && p * PAGE < n + PAGE && intact && Copied(l, img, s.mem, p * PAGE)
       case Ready(size, p) => size == n && p * PAGE < n && intact && Copied(l, img, s.mem, p * PAGE)
       case Verify(size, p) => size == n && p * PAGE < n && intact && Copied(l, img, s.mem, p * PAGE)
       case Clear(size) =>
         && Contained(l, size) && Installed(l, img, s.mem) && Flagged(l, s.mem, l.spare)
         && (intact || Harmless(l, s.mem))
       case Wipe(size, j) =>
         && Contained(l, size) && Installed(l, img, s.mem)
         && (if j == 0 then intact || Harmless(l, s.mem) else !Flagged(l, s.mem, l.spare))
       case Launch => Installed(l, img, s.mem) && (intact || Harmless(l, s.mem))
       case Reboot => Installed(l, img, s.mem) && (intact || Harmless(l, s.mem))
       case NoApp => false
  }

  lemma PageFits(l: Layout, n: nat, p: nat)
    requires l.Valid() && n <= l.max && p * PAGE < n
    ensures (p + 1) * PAGE <= l.max
    ensures p % PAGES_PER_SECTOR == 0 ==>
              && (l.loadSector + p / PAGES_PER_SECTOR) * SECTOR == PageAt(l.load, p)
              && PageAt(l.load, p) + SECTOR <= l.load + l.max
  {
  }

  lemma SafeBoot(l: Layout, img: seq<Byte>, s: State, t: State)
    requires Good(l, img) && Safe(l, img, s) && s.pc == Boot && CodeStep(l, s, t)
    ensures Safe(l, img, t)
  {
    if Holds(s.mem, l.spare, img) {
      SlotAccepts(l, s.mem, img);
    }
  }

  /** Whatever happens from page `p` of the load slot on keeps what is below, and the spare slot. */
  lemma CopyKept(l: Layout, img: seq<Byte>, m: Mem, r: Mem, p: nat)
    requires l.Valid() && l.OnChip(m) && |img| == l.max
    requires Holds(m, l.spare, img) && Copied(l, img, m, p * PAGE)
    requires SameOutside(m, r, PageAt(l.load, p), l.load + l.max)
    ensures Holds(r, l.spare, img) && Copied(l, img, r, p * PAGE)
  {
  }

  lemma SafePage(l: Layout, img: seq<Byte>, s: State, t: State)
    requires Good(l, img) && Safe(l, img, s) && s.pc.Page? && CodeStep(l, s, t)
    ensures Safe(l, img, t)
  {
    var p := s.pc.p;
    if p * PAGE < s.pc.size {
      PageFits(l, FwSize(img), p);
      assert SameOutside(s.mem, t.mem, PageAt(l.load, p), l.load + l.max);
      CopyKept(l, img, s.mem, t.mem, p);
    } else {
      assert p >= 1;
      GoodIsContained(l, img);
      SlotHeader(l, s.mem, img);
    }
  }

  lemma SafeReady(l: Layout, img: seq<Byte>, s: State, t: State)
    requires Good(l, img) && Safe(l, img, s) && s.pc.Ready? && CodeStep(l, s, t)
    ensures Safe(l, img, t)
  {
    PageFits(l, FwSize(img), s.pc.p);
    CopyKept(l, img, s.mem, t.mem, s.pc.p);
  }

  /** A page that reads back right is the page of the image. */
  lemma PageReadBack(l: Layout, img: seq<Byte>, m: Mem, p: nat)
    requires l.Valid() && l.OnChip(m) && |img| == l.max && Holds(m, l.spare, img)
    requires (p + 1) * PAGE <= l.max && Copied(l, img, m, p * PAGE)
    requires PagesOnChip(l, m, p) && SamePage(l, m, p)
    ensures Copied(l, img, m, (p + 1) * PAGE)
  {
    var a, b := PageAt(l.load, p), PageAt(l.spare, p);
    forall k | a <= k < a + PAGE
      ensures m[k] == img[k - l.load]
    {
      assert m[a..a + PAGE][k - a] == m[b..b + PAGE][k - a];
      assert m[b + (k - a)] == img[b + (k - a) - l.spare];
    }
  }

  lemma SafeVerify(l: Layout, img: seq<Byte>, s: State, t: State)
    requires Good(l, img) && Safe(l, img, s) && s.pc.Verify? && CodeStep(l, s, t)
    ensures Safe(l, img, t)
  {
    PageFits(l, FwSize(img), s.pc.p);
    if SamePage(l, s.mem, s.pc.p) {
      PageReadBack(l, img, s.mem, s.pc.p);
    }
  }

  /** Whatever happens outside the load slot, an installed image stays installed. */
  lemma InstalledFrame(l: Layout, img: seq<Byte>, m: Mem, r: Mem, lo: nat, hi: nat)
    requires Good(l, img) && l.OnChip(m) && Installed(l, img, m)
    requires l.spare <= lo && SameOutside(m, r, lo, hi)
    ensures Installed(l, img, r)
  {
  }

  /** Clearing the flag, well or badly, either leaves the slot as it was or hides it. */
  lemma ClearHides(l: Layout, m: Mem, r: Mem)
    requires l.Valid() && l.OnChip(m) && Flagged(l, m, l.spare)
    requires SameOutside(m, r, l.spare + l.flag, l.spare + l.flag + 1)
    ensures r == m || !Flagged(l, r, l.spare)
  {
    var f := l.spare + l.flag;
    if r[f] == START_UP_FLAG {
      FlaggedBytes(l, m, l.spare);
      assert r == m;
    } else {
      Unflagged(l, r, l.spare);
    }
  }

  lemma SafeClear(l: Layout, img: seq<Byte>, s: State, t: State)
    requires Good(l, img) && Safe(l, img, s) && s.pc.Clear? && CodeStep(l, s, t)
    ensures Safe(l, img, t)
  {
    ClearHides(l, s.mem, t.mem);
    InstalledFrame(l, img, s.mem, t.mem, l.spare + l.flag, l.spare + l.flag + 1);
    assert t.pc == Wipe(s.pc.size, 0);
  }

  lemma LandsInside(sector: nat, m: Mem)
    requires (sector + 1) * SECTOR <= |m|
    ensures Landing(sector, m) == sector
  {
  }

  /** The wipe stays in the slot for every size that fits and, as the sum overflows, for the
      largest ones. */
  lemma ContainedIff(l: Layout, size: U32)
    requires l.Valid()
    ensures Contained(l, size) <==> size <= l.max || size > 0xFFFF_F000
  {
  }

  lemma WipeInside(l: Layout, m: Mem, size: nat, j: nat)
    requires l.Valid() && l.OnChip(m) && Contained(l, size) && j < SectorsToWipe(size)
    ensures Wiped(l, m, j) == l.spareSector + j && j < l.sectors
  {
    LandsInside(l.spareSector + j, m);
  }

  /** Erasing the first sector hides the slot, erasing any other keeps it hidden. */
  lemma WipeHides(l: Layout, m: Mem, w: nat)
    requires l.Valid() && l.OnChip(m) && (w == l.spareSector || !Flagged(l, m, l.spare))
    ensures !Flagged(l, Apply(m, EraseOp(w)), l.spare)
  {
    var r := Apply(m, EraseOp(w));
    if w == l.spareSector {
      assert r[l.spare + l.flag] == BLANK;
      Unflagged(l, r, l.spare);
    } else {
      FlaggedFrame(l, m, r, l.spare);
    }
  }

  lemma SomeSectors(size: nat)
    requires 4 <= size <= 0x100_0000
    ensures SectorsToWipe(size) > 0
  {
  }

  lemma WipeKeepsInstalled(l: Layout, img: seq<Byte>, m: Mem, j: nat)
    requires Good(l, img) && l.OnChip(m) && Installed(l, img, m)
    ensures Installed(l, img, Apply(m, EraseOp(l.spareSector + j)))
  {
    var a := (l.spareSector + j) * SECTOR;
    InstalledFrame(l, img, m, Apply(m, EraseOp(l.spareSector + j)), a, a + SECTOR);
  }

  lemma SafeErase(l: Layout, img: seq<Byte>, m: Mem, w: nat, j: nat)
    requires Good(l, img) && l.OnChip(m) && Installed(l, img, m) && w == l.spareSector + j
    requires j == 0 || !Flagged(l, m, l.spare)
    ensures Installed(l, img, Apply(m, EraseOp(w))) && !Flagged(l, Apply(m, EraseOp(w)), l.spare)
  {
    WipeHides(l, m, w);
    WipeKeepsInstalled(l, img, m, j);
  }

  lemma GoodIsContained(l: Layout, img: seq<Byte>)
    requires Good(l, img)
    ensures Contained(l, FwSize(img)) && SectorsToWipe(FwSize(img)) > 0
  {
    ContainedIff(l, FwSize(img));
    SomeSectors(FwSize(img));
  }

  lemma SafeWipe(l: Layout, img: seq<Byte>, s: State, t: State)
    requires Good(l, img) && Safe(l, img, s) && s.pc.Wipe? && CodeStep(l, s, t)
    ensures Safe(l, img, t)
  {
    var size, j := s.pc.size, s.pc.j;
    if j < SectorsToWipe(size) {
      WipeInside(l, s.mem, size, j);
      SafeErase(l, img, s.mem, l.spareSector + j, j);
    }
  }

  lemma SafeLaunch(l: Layout, img: seq<Byte>, s: State, t: State)
    requires Good(l, img) && Safe(l, img, s) && s.pc.Launch? && CodeStep(l, s, t)
    ensures Safe(l, img, t)
  {
    assert s.mem[l.load + l.flag..l.load + l.flag + 4] == img[l.flag..l.flag + 4];
  }

  lemma SafeTorn(l: Layout, img: seq<Byte>, s: State, t: State)
    requires Good(l, img) && Safe(l, img, s) && TornErase(l, s, t)
    ensures Safe(l, img, t)
  {
    match s.pc
    case Page(size, p) =>
      PageFits(l, size, p);
    case Wipe(size, j) =>
      WipeInside(l, s.mem, size, j);
      var a := (l.spareSector + j) * SECTOR;
      InstalledFrame(l, img, s.mem, t.mem, a, a + SECTOR);
      if j > 0 {
        FlaggedFrame(l, s.mem, t.mem, l.spare);
      }
    case _ =>
  }

  lemma SafePowerLoss(l: Layout, img: seq<Byte>, s: State, t: State)
    requires Good(l, img) && Safe(l, img, s) && PowerLoss(s, t)
    ensures Safe(l, img, t)
  {
  }

  lemma SafeStep(l: Layout, img: seq<Byte>, s: State, t: State)
    requires Good(l, img) && Safe(l, img, s) && Next(l, s, t)
    ensures Safe(l, img, t)
  {
    if PowerLoss(s, t) {
      SafePowerLoss(l, img, s, t);
    } else if TornErase(l, s, t) {
      SafeTorn(l, img, s, t);
    } else {
      match s.pc
      case Boot => SafeBoot(l, img, s, t);
      case Page(_, _) => SafePage(l, img, s, t);
      case Ready(_, _) => SafeReady(l, img, s, t);
      case Verify(_, _) => SafeVerify(l, img, s, t);
      case Clear(_) => SafeClear(l, img, s, t);
      case Wipe(_, _) => SafeWipe(l, img, s, t);
      case Launch => SafeLaunch(l, img, s, t);
      case _ =>
    }
  }

  lemma {:induction false} SafeRun(l: Layout, img: seq<Byte>, run: seq<State>, k: nat)
    requires Good(l, img) && IsRun(l, run) && Safe(l, img, run[0]) && k < |run|
    ensures Safe(l, img, run[k])
    decreases k
  {
    if k > 0 {
      SafeRun(l, img, run, k - 1);
      SafeStep(l, img, run[k - 1], run[k]);
    }
  }

  /** Over any number of power losses, torn sectors, bad pages and reboots: at every point
      the spare slot still holds the whole image or the load slot holds a copy of it, the
      flag is gone only once the copy is complete, and nothing but a complete copy is entered. */
  lemma CrashSafe(l: Layout, img: seq<Byte>, run: seq<State>)
    requires Good(l, img) && IsRun(l, run)
    requires run[0].pc == Boot && Holds(run[0].mem, l.spare, img)
    ensures forall k :: 0 <= k < |run| ==>
              Holds(run[k].mem, l.spare, img) || Copied(l, img, run[k].mem, FwSize(img))
    ensures forall k :: 0 <= k < |run| && !Flagged(l, run[k].mem, l.spare) ==>
              Copied(l, img, run[k].mem, FwSize(img))
    ensures forall k :: 0 <= k < |run| && run[k].pc == Reboot ==>
              Copied(l, img, run[k].mem, FwSize(img)) && Flagged(l, run[k].mem, l.load)
    ensures forall k :: 0 <= k < |run| ==> run[k].pc != NoApp
    ensures forall k :: 0 <= k < |run| ==> SlotsOnly(l, run[0].mem, run[k].mem)
  {
    SlotHeader(l, run[0].mem, img);
    ContainedIff(l, FwSize(img));
    OutsideKept(l, run);
    forall k | 0 <= k < |run|
      ensures Holds(run[k].mem, l.spare, img) || Copied(l, img, run[k].mem, FwSize(img))
      ensures !Flagged(l, run[k].mem, l.spare) ==> Copied(l, img, run[k].mem, FwSize(img))
      ensures run[k].pc == Reboot ==> Copied(l, img, run[k].mem, FwSize(img)) && Flagged(l, run[k].mem, l.load)
      ensures run[k].pc != NoApp
    {
      SafeRun(l, img, run, k);
      SafePoint(l, img, run[k]);
    }
  }

  lemma SafePoint(l: Layout, img: seq<Byte>, s: State)
    requires Good(l, img) && Safe(l, img, s)
    ensures Holds(s.mem, l.spare, img) || Copied(l, img, s.mem, FwSize(img))
    ensures Holds(s.mem, l.spare, img) ==> Flagged(l, s.mem, l.spare)
    ensures s.pc == Reboot ==> Copied(l, img, s.mem, FwSize(img)) && Flagged(l, s.mem, l.load)
    ensures s.pc != NoApp
  {
    if Holds(s.mem, l.spare, img) {
      SlotHeader(l, s.mem, img);
    }
    if s.pc == Reboot {
      assert s.mem[l.load + l.flag..l.load + l.flag + 4] == img[l.flag..l.flag + 4];
    }
  }

  // ---------------------------------------------------------------- a bad image costs nothing

  /** No flag, a size that does not fit, or a wrong CRC, as the boot code reads them. */
  predicate Rejects(l: Layout, m: Mem)
    requires l.Valid() && l.OnChip(m)
  {
    !Flagged(l, m, l.spare) || !CrcAccepts(l, m)
  }

  /** The checks lead to an install exactly if the slot holds a bootable image, to the wipe exactly
      if it has a flag but none, and past both exactly if it has no flag. */
  lemma ChecksIff(l: Layout, m: Mem)
    requires l.Valid() && l.OnChip(m)
    ensures AfterChecks(l, m) == Page(SlotSize(l, m), 0) <==> Installable(l, m)
    ensures AfterChecks(l, m) == Clear(SlotSize(l, m)) <==> Flagged(l, m, l.spare) && !Installable(l, m)
    ensures AfterChecks(l, m) == Launch <==> !Flagged(l, m, l.spare)
    ensures Rejects(l, m) <==> !Installable(l, m)
  {
    AcceptedIff(l, m);
  }

  predicate SameLoadSlot(l: Layout, m: Mem, r: Mem) {
    && |m| == |r| && l.load + l.max <= |m|
    && forall k :: l.load <= k < l.load + l.max ==> r[k] == m[k]
  }

  /** The wipe for a header that gives this size stops before it comes round to the load slot. */
  predicate WipeSpares(l: Layout, m: Mem, size: nat) {
    l.spareSector + SectorsToWipe(size) <= |m| / SECTOR + l.loadSector
  }

  /** There is no flag, or the wipe it leads to spares the load slot. */
  predicate Spared(l: Layout, m: Mem)
    requires l.Valid() && l.OnChip(m)
  {
    Flagged(l, m, l.spare) ==> WipeSpares(l, m, SlotSize(l, m))
  }

  /** Nothing is installed from the spare slot, and its wipe spares the load slot. */
  predicate Refused(l: Layout, m: Mem)
    requires l.Valid() && l.OnChip(m)
  {
    Rejects(l, m) && Spared(l, m)
  }

  lemma HarmlessIsRefused(l: Layout, m: Mem)
    requires l.Valid() && l.OnChip(m) && Harmless(l, m)
    ensures Refused(l, m)
  {
  }

  lemma HarmlessIff(l: Layout, m: Mem)
    requires l.Valid() && l.OnChip(m)
    ensures Harmless(l, m) <==> !Flagged(l, m, l.spare) || (!Installable(l, m) && Contained(l, SlotSize(l, m)))
  {
    AcceptedIff(l, m);
  }

  lemma WrapsOnce(sector: nat, n: nat)
    requires n <= sector < 2 * n
    ensures Wrap(sector, n) == sector - n
  {
  }

  lemma WipeMisses(l: Layout, m: Mem, size: nat, j: nat)
    requires l.Valid() && l.OnChip(m) && WipeSpares(l, m, size) && j < SectorsToWipe(size)
    ensures Wiped(l, m, j) < l.loadSector || l.loadSector + l.sectors <= Wiped(l, m, j)
    ensures j == 0 ==> Wiped(l, m, j) == l.spareSector
  {
    var n := |m| / SECTOR;
    if l.spareSector + j >= n {
      WrapsOnce(l.spareSector + j, n);
    }
  }

  lemma ErasedElsewhere(l: Layout, m: Mem, r: Mem, w: nat)
    requires l.Valid() && l.OnChip(m) && SameOutside(m, r, w * SECTOR, w * SECTOR + SECTOR)
    requires w < l.loadSector || l.loadSector + l.sectors <= w
    ensures SameLoadSlot(l, m, r)
  {
  }

  ghost predicate Keeps(l: Layout, m: Mem, s: State)
    requires l.Valid() && l.OnChip(m)
  {
    && SameLoadSlot(l, m, s.mem)
    && Refused(l, s.mem)
    && match s.pc
       case Boot => true
       case Clear(size) => Flagged(l, s.mem, l.spare) && WipeSpares(l, m, size)
       case Wipe(size, j) => (j > 0 ==> !Flagged(l, s.mem, l.spare)) && WipeSpares(l, m, size)
       case Launch => true
       case Reboot => Flagged(l, m, l.load)
       case NoApp => !Flagged(l, m, l.load)
       case _ => false
  }

  lemma KeepsErase(l: Layout, m: Mem, s: State, r: Mem, w: nat)
    requires l.Valid() && l.OnChip(m) && Keeps(l, m, s) && s.pc.Wipe? && s.pc.j < SectorsToWipe(s.pc.size)
    requires w == Wiped(l, s.mem, s.pc.j) && SameOutside(s.mem, r, w * SECTOR, w * SECTOR + SECTOR)
    ensures SameLoadSlot(l, m, r) && (s.pc.j == 0 ==> w == l.spareSector)
    ensures w != l.spareSector && !Flagged(l, s.mem, l.spare) ==> !Flagged(l, r, l.spare)
  {
    WipeMisses(l, s.mem, s.pc.size, s.pc.j);
    ErasedElsewhere(l, s.mem, r, w);
    if w != l.spareSector {
      FlaggedFrame(l, s.mem, r, l.spare);
    }
  }

  lemma KeepsWipe(l: Layout, m: Mem, s: State, t: State)
    requires l.Valid() && l.OnChip(m) && Keeps(l, m, s) && s.pc.Wipe?
    requires CodeStep(l, s, t) || TornErase(l, s, t)
    ensures Keeps(l, m, t)
  {
    var size, j := s.pc.size, s.pc.j;
    if j < SectorsToWipe(size) {
      var w := Wiped(l, s.mem, j);
      KeepsErase(l, m, s, t.mem, w);
      if CodeStep(l, s, t) {
        WipeHides(l, s.mem, w);
      } else if w == l.spareSector {
        HarmlessIsRefused(l, t.mem);
      }
    }
  }

  lemma KeepsStep(l: Layout, m: Mem, s: State, t: State)
    requires l.Valid() && l.OnChip(m) && Keeps(l, m, s) && Next(l, s, t)
    ensures Keeps(l, m, t)
  {
    if PowerLoss(s, t) {
    } else if s.pc.Wipe? {
      KeepsWipe(l, m, s, t);
    } else if s.pc.Clear? {
      ClearHides(l, s.mem, t.mem);
    } else if s.pc == Launch {
      FlaggedFrame(l, m, s.mem, l.load);
    }
  }

  lemma {:induction false} KeepsRun(l: Layout, m: Mem, run: seq<State>, k: nat)
    requires l.Valid() && l.OnChip(m) && Refused(l, m)
    requires IsRun(l, run) && run[0] == State(m, Boot) && k < |run|
    ensures Keeps(l, m, run[k])
    decreases k
  {
    if k > 0 {
      KeepsRun(l, m, run, k - 1);
      KeepsStep(l, m, run[k - 1], run[k]);
    }
  }

  /** A slot that is not accepted costs the application not a byte, whatever fails, and the
      application is entered exactly when it was bootable before: as long as the header does
      not make the wipe come round to the load slot. */
  lemma RejectedKeepsApp(l: Layout, run: seq<State>)
    requires l.Valid() && IsRun(l, run) && run[0].pc == Boot && !Installable(l, run[0].mem) && Spared(l, run[0].mem)
    ensures forall k :: 0 <= k < |run| ==> SameLoadSlot(l, run[0].mem, run[k].mem)
    ensures forall k :: 0 <= k < |run| && run[k].pc == Reboot ==> Flagged(l, run[0].mem, l.load)
    ensures forall k :: 0 <= k < |run| && run[k].pc == NoApp ==> !Flagged(l, run[0].mem, l.load)
  {
    ChecksIff(l, run[0].mem);
    forall k | 0 <= k < |run|
      ensures Keeps(l, run[0].mem, run[k])
    {
      KeepsRun(l, run[0].mem, run, k);
    }
  }

  // ---------------------------------------------------------------- nothing outside the slots

  /** Flash outside the two slots is the same. */
  ghost predicate SlotsOnly(l: Layout, m: Mem, r: Mem) {
    && |m| == |r|
    && forall k :: 0 <= k < |m| && !(l.load <= k < l.load + l.max) && !(l.spare <= k < l.spare + l.max) ==> r[k] == m[k]
  }

  /** There is no flag, or the wipe it leads to stays in the slot. */
  predicate HeaderFits(l: Layout, m: Mem)
    requires l.Valid() && l.OnChip(m)
  {
    Flagged(l, m, l.spare) ==> Contained(l, SlotSize(l, m))
  }

  ghost predicate Tidy(l: Layout, m: Mem, s: State)
    requires l.Valid() && l.OnChip(m)
  {
    && SlotsOnly(l, m, s.mem) && HeaderFits(l, s.mem)
    && var fits := Contained(l, SlotSize(l, s.mem));
       match s.pc
       case Page(size, p) => size <= l.max && Contained(l, size) && fits
       case Ready(size, p) => size <= l.max && Contained(l, size) && fits && p * PAGE < size
       case Verify(size, p) => size <= l.max && Contained(l, size) && fits
       case Clear(size) => Contained(l, size) && fits
       case Wipe(size, j) => Contained(l, size) && (j > 0 ==> !Flagged(l, s.mem, l.spare))
       case _ => true
  }

  lemma SameHeader(l: Layout, m: Mem, r: Mem)
    requires l.Valid() && l.OnChip(m) && |r| == |m|
    requires forall k :: l.spare + SIZE_AT <= k < l.spare + HEADER ==> r[k] == m[k]
    ensures SlotSize(l, r) == SlotSize(l, m)
  {
    assert r[l.spare + SIZE_AT..l.spare + HEADER] == m[l.spare + SIZE_AT..l.spare + HEADER];
  }

  /** A change within the load slot. */
  lemma TidyCopy(l: Layout, m: Mem, s: Mem, r: Mem, lo: nat, hi: nat)
    requires l.Valid() && l.OnChip(m) && SlotsOnly(l, m, s) && HeaderFits(l, s)
    requires SameOutside(s, r, lo, hi) && l.load <= lo && hi <= l.load + l.max
    ensures SlotsOnly(l, m, r) && HeaderFits(l, r) && SlotSize(l, r) == SlotSize(l, s)
  {
    SameHeader(l, s, r);
    FlaggedFrame(l, s, r, l.spare);
  }

  /** A change within the spare slot. */
  lemma TidySpare(l: Layout, m: Mem, s: Mem, r: Mem, lo: nat, hi: nat)
    requires l.Valid() && l.OnChip(m) && SlotsOnly(l, m, s)
    requires SameOutside(s, r, lo, hi) && l.spare <= lo && hi <= l.spare + l.max
    ensures SlotsOnly(l, m, r)
  {
  }

  lemma TidyErase(l: Layout, m: Mem, s: Mem, size: nat, j: nat, r: Mem)
    requires l.Valid() && l.OnChip(m) && SlotsOnly(l, m, s) && Contained(l, size) && j < SectorsToWipe(size)
    requires j > 0 ==> !Flagged(l, s, l.spare)
    requires var w := Wiped(l, s, j); SameOutside(s, r, w * SECTOR, w * SECTOR + SECTOR)
    ensures SlotsOnly(l, m, r)
    ensures Wiped(l, s, j) != l.spareSector || r == Apply(s, EraseOp(l.spareSector)) ==> !Flagged(l, r, l.spare)
  {
    var w := l.spareSector + j;
    WipeInside(l, s, size, j);
    TidySpare(l, m, s, r, w * SECTOR, w * SECTOR + SECTOR);
    if j > 0 {
      FlaggedFrame(l, s, r, l.spare);
    } else if r == Apply(s, EraseOp(w)) {
      WipeHides(l, s, w);
    }
  }

  lemma TidyWipe(l: Layout, m: Mem, s: State, t: State)
    requires l.Valid() && l.OnChip(m) && Tidy(l, m, s) && s.pc.Wipe?
    requires CodeStep(l, s, t) || TornErase(l, s, t)
    ensures Tidy(l, m, t)
  {
    if s.pc.j < SectorsToWipe(s.pc.size) {
      TidyErase(l, m, s.mem, s.pc.size, s.pc.j, t.mem);
    }
  }

  lemma TidyPage(l: Layout, m: Mem, s: State, t: State)
    requires l.Valid() && l.OnChip(m) && Tidy(l, m, s) && (s.pc.Page? || s.pc.Ready?)
    requires CodeStep(l, s, t) || TornErase(l, s, t)
    ensures Tidy(l, m, t)
  {
    var size, p := s.pc.size, s.pc.p;
    if p * PAGE < size {
      PageFits(l, size, p);
      assert SameOutside(s.mem, t.mem, PageAt(l.load, p), l.load + l.max);
      TidyCopy(l, m, s.mem, t.mem, PageAt(l.load, p), l.load + l.max);
    }
  }

  lemma TidyStep(l: Layout, m: Mem, s: State, t: State)
    requires l.Valid() && l.OnChip(m) && Tidy(l, m, s) && Next(l, s, t)
    ensures Tidy(l, m, t)
  {
    if PowerLoss(s, t) {
    } else if s.pc.Page? || s.pc.Ready? {
      TidyPage(l, m, s, t);
    } else if s.pc.Wipe? {
      TidyWipe(l, m, s, t);
    } else if s.pc == Boot {
      ContainedIff(l, SlotSize(l, s.mem));
    } else if s.pc.Clear? {
      TidySpare(l, m, s.mem, t.mem, l.spare + l.flag, l.spare + l.flag + 1);
      SameHeader(l, s.mem, t.mem);
    }
  }

  lemma {:induction false} TidyRun(l: Layout, run: seq<State>, k: nat)
    requires l.Valid() && IsRun(l, run) && run[0].pc == Boot && HeaderFits(l, run[0].mem) && k < |run|
    ensures Tidy(l, run[0].mem, run[k])
    decreases k
  {
    if k > 0 {
      TidyRun(l, run, k - 1);
      TidyStep(l, run[0].mem, run[k - 1], run[k]);
    }
  }

  /** As long as the header of a flagged slot keeps the wipe in it, no run with whatever
      failures changes flash outside the two slots. */
  lemma OutsideKept(l: Layout, run: seq<State>)
    requires l.Valid() && IsRun(l, run) && run[0].pc == Boot && HeaderFits(l, run[0].mem)
    ensures forall k :: 0 <= k < |run| ==> SlotsOnly(l, run[0].mem, run[k].mem)
  {
    forall k | 0 <= k < |run|
      ensures SlotsOnly(l, run[0].mem, run[k].mem)
    {
      TidyRun(l, run, k);
    }
  }
}
