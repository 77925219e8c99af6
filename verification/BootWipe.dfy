/** What a header does that leads the wipe of the spare slot out of it. */
module BootWipe {
  import opened NorFlash
  import opened Firmware
  import opened BootInstall
  import opened BootSafe
  import opened BootPass

  /** The sector is erased, if the chip has it. */
  predicate SectorBlank(r: Mem, w: nat) {
    (w + 1) * SECTOR <= |r| ==> IsBlank(r, w * SECTOR, w * SECTOR + SECTOR)
  }

  lemma ErasedSector(m: Mem, w: nat)
    ensures SectorBlank(Apply(m, EraseOp(w)), w)
  {
  }

  lemma LastWiped(l: Layout, m: Mem, cleared: Mem, j: nat)
    requires |m| == |cleared|
    ensures SectorBlank(WipedTo(l, cleared, j + 1), Wiped(l, m, j))
  {
    var before := WipedTo(l, cleared, j);
    ErasedSector(before, Wiped(l, before, j));
  }

  /** With a flagged slot whose image is refused, the pass gets to the wipe and goes through it
      up to sector `j`. */
  lemma WipeRun(l: Layout, m: Mem, j: nat) returns (run: seq<State>, r: Mem)
    requires l.Valid() && l.OnChip(m) && Flagged(l, m, l.spare) && !Installable(l, m)
    requires j < SectorsToWipe(SlotSize(l, m))
    ensures IsRun(l, run) && run[0] == State(m, Boot) && run[|run| - 1].mem == r && |r| == |m|
    ensures SectorBlank(r, Wiped(l, m, j))
  {
    var size := SlotSize(l, m);
    ChecksIff(l, m);
    var cleared := Apply(m, ProgramOp(l.spare + l.flag, [0]));
    run := PassOn(l, m, [State(m, Boot)], State(m, Boot), State(m, Clear(size)));
    run := PassOn(l, m, run, State(m, Clear(size)), State(cleared, Wipe(size, 0)));
    run := PassWipe(l, m, run, cleared, size, j + 1);
    r := WipedTo(l, cleared, j + 1);
    LastWiped(l, m, cleared, j);
    PassIsRun(l, m, run, State(r, Wipe(size, j + 1)));
  }

  /** No run from flash `m`, whatever fails, changes the load slot. */
  ghost predicate AppKept(l: Layout, m: Mem)
    requires l.Valid()
  {
    forall run: seq<State> :: IsRun(l, run) && run[0] == State(m, Boot) ==> SameLoadSlot(l, m, run[|run| - 1].mem)
  }

  /** A refused slot costs the application nothing exactly if it has no flag, or a header that
      does not make the wipe come round to the load slot. */
  lemma RejectedKeepsAppIff(l: Layout, m: Mem)
    requires l.Valid() && l.OnChip(m) && !Installable(l, m) && !IsBlank(m, l.load, l.load + SECTOR)
    ensures AppKept(l, m) <==> Spared(l, m)
  {
    if Spared(l, m) {
      forall run: seq<State> | IsRun(l, run) && run[0] == State(m, Boot)
        ensures SameLoadSlot(l, m, run[|run| - 1].mem)
      {
        RejectedKeepsApp(l, run);
      }
    } else {
      var n := |m| / SECTOR;
      var j := n + l.loadSector - l.spareSector;
      WrapsOnce(l.spareSector + j, n);
      var run, r := WipeRun(l, m, j);
      LoadSectorLost(l, m, r);
    }
  }

  lemma LoadSectorLost(l: Layout, m: Mem, r: Mem)
    requires l.Valid() && l.OnChip(m) && |r| == |m|
    requires IsBlank(r, l.loadSector * SECTOR, l.loadSector * SECTOR + SECTOR) && !IsBlank(m, l.load, l.load + SECTOR)
    ensures !SameLoadSlot(l, m, r)
  {
    var k :| l.load <= k < l.load + SECTOR && m[k] != BLANK;
    assert r[k] == BLANK;
  }

  /** No run from flash `m`, whatever fails, changes flash outside the two slots. */
  ghost predicate OutsideSafe(l: Layout, m: Mem)
    requires l.Valid()
  {
    forall run: seq<State> :: IsRun(l, run) && run[0] == State(m, Boot) ==> SlotsOnly(l, m, run[|run| - 1].mem)
  }

  /** Where the sector behind the spare slot lies on the chip. */
  function Behind(l: Layout, m: Mem): nat {
    Landing(l.spareSector + l.sectors, m)
  }

  lemma BehindIsOutside(l: Layout, m: Mem)
    requires l.Valid() && l.OnChip(m)
    ensures !(l.spareSector <= Behind(l, m) < l.spareSector + l.sectors)
  {
    var n, s := |m| / SECTOR, l.spareSector + l.sectors;
    if s >= n {
      WrapsOnce(s, n);
    }
  }

  /** Flash outside the slots is safe exactly if there is no flag in the spare slot or its
      header gives a size that fits, or one within a sector of the largest a word holds. */
  lemma OutsideKeptIff(l: Layout, m: Mem)
    requires l.Valid() && l.OnChip(m)
    requires !(l.loadSector <= Behind(l, m) < l.loadSector + l.sectors)
    requires (Behind(l, m) + 1) * SECTOR <= |m| && !IsBlank(m, Behind(l, m) * SECTOR, Behind(l, m) * SECTOR + SECTOR)
    ensures OutsideSafe(l, m) <==>
            (Flagged(l, m, l.spare) ==> SlotSize(l, m) <= l.max || SlotSize(l, m) > 0xFFFF_F000)
  {
    ContainedIff(l, SlotSize(l, m));
    if HeaderFits(l, m) {
      forall run: seq<State> | IsRun(l, run) && run[0] == State(m, Boot)
        ensures SlotsOnly(l, m, run[|run| - 1].mem)
      {
        OutsideKept(l, run);
      }
    } else {
      BehindIsOutside(l, m);
      ChecksIff(l, m);
      var run, r := WipeRun(l, m, l.sectors);
      SectorBehindLost(l, m, r, Behind(l, m));
    }
  }

  lemma SectorBehindLost(l: Layout, m: Mem, r: Mem, w: nat)
    requires l.Valid() && l.OnChip(m) && |r| == |m| && (w + 1) * SECTOR <= |m|
    requires !(l.loadSector <= w < l.loadSector + l.sectors) && !(l.spareSector <= w < l.spareSector + l.sectors)
    requires IsBlank(r, w * SECTOR, w * SECTOR + SECTOR) && !IsBlank(m, w * SECTOR, w * SECTOR + SECTOR)
    ensures !SlotsOnly(l, m, r)
  {
    var k :| w * SECTOR <= k < w * SECTOR + SECTOR && m[k] != BLANK;
    assert r[k] == BLANK;
  }
}
