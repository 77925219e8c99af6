/** The bootloader's install pass as a machine of single flash commands, with power loss,
    resets, torn sectors and pages that store the wrong bytes. */
module BootInstall {
  import opened Bytes
  import opened NorFlash
  import opened Firmware

  /** Where `bootloader_with_ota_check` stands. `size` is its local copy of the header size,
      which outlives the header once the spare slot is being erased. */
  datatype Pc =
    | Boot
    | Page(size: nat, p: nat)      // top of the copy loop, at page p
    | Ready(size: nat, p: nat)     // sector erased if need be, page p to be written
    | Verify(size: nat, p: nat)    // page p to be read back
    | Clear(size: nat)             // flag of the spare slot to be cleared
    | Wipe(size: nat, j: nat)      // sector j of the spare slot to be erased
    | Launch                       // flag of the load slot to be tested
    | Reboot
    | NoApp

  datatype State = State(mem: Mem, pc: Pc)

  /** `(fw_size + 4095)/4096` in 32-bit arithmetic. */
  function SectorsToWipe(size: nat): nat {
    (size + 4095) % WORD / SECTOR
  }

  /** The sector the wipe erases as number `j`. It is not limited to the slot. */
  function Wiped(l: Layout, m: Mem, j: nat): nat {
    Landing(l.spareSector + j, m)
  }

  function AfterChecks(l: Layout, m: Mem): Pc
    requires l.Valid() && l.OnChip(m)
  {
    if !Flagged(l, m, l.spare) then Launch
    else if CrcAccepts(l, m) then Page(SlotSize(l, m), 0)
    else Clear(SlotSize(l, m))
  }

  /** Page `p` of a slot. */
  function PageAt(slot: nat, p: nat): nat {
    slot + p * PAGE
  }

  const PAGES_PER_SECTOR := 16

  /** Page `p` reads the same in both slots. */
  predicate SamePage(l: Layout, m: Mem, p: nat)
    requires PagesOnChip(l, m, p)
  {
    m[PageAt(l.load, p)..PageAt(l.load, p) + PAGE] == m[PageAt(l.spare, p)..PageAt(l.spare, p) + PAGE]
  }

  predicate PagesOnChip(l: Layout, m: Mem, p: nat) {
    PageAt(l.load, p) + PAGE <= |m| && PageAt(l.spare, p) + PAGE <= |m|
  }

  /** The load slot's sector is erased as its first page comes up. */
  function SectorReady(l: Layout, m: Mem, p: nat): (r: Mem)
    ensures |r| == |m|
  {
    if p % PAGES_PER_SECTOR == 0 then Apply(m, EraseOp(l.loadSector + p / PAGES_PER_SECTOR)) else m
  }

  /** What the code does next. Programming may store anything in the bytes it addresses. */
  ghost predicate CodeStep(l: Layout, s: State, t: State)
    requires l.Valid() && l.OnChip(s.mem)
  {
    && |t.mem| == |s.mem|
    && match s.pc
       case Boot => t == State(s.mem, AfterChecks(l, s.mem))
       case Page(size, p) =>
         if p * PAGE >= size then t == State(s.mem, Clear(size))
         else && t.pc == Ready(size, p)
              && t.mem == SectorReady(l, s.mem, p)
       case Ready(size, p) =>
         && t.pc == Verify(size, p)
         && SameOutside(s.mem, t.mem, PageAt(l.load, p), PageAt(l.load, p) + PAGE)
       case Verify(size, p) =>
         && PagesOnChip(l, s.mem, p)
         && t.mem == s.mem
         && t.pc == (if SamePage(l, s.mem, p) then Page(size, p + 1) else Boot)   // SYSTEM_RESET
       case Clear(size) =>
         t.pc == Wipe(size, 0) && SameOutside(s.mem, t.mem, l.spare + l.flag, l.spare + l.flag + 1)
       case Wipe(size, j) =>
         if j >= SectorsToWipe(size) then t == State(s.mem, Launch)
         else t == State(Apply(s.mem, EraseOp(Wiped(l, s.mem, j))), Wipe(size, j + 1))
       case Launch => t == State(s.mem, if Flagged(l, s.mem, l.load) then Reboot else NoApp)
       case Reboot => false
       case NoApp => false
  }

  /** Power fails between two commands; the next thing that runs is a fresh pass. */
  ghost predicate PowerLoss(s: State, t: State) {
    t == State(s.mem, Boot)
  }

  /** The wipe for a header that gives this size stays in the slot. */
  predicate Contained(l: Layout, size: nat) {
    SectorsToWipe(size) <= l.sectors
  }

  /** The spare slot is not flagged, or what is in it is refused and wiped within the slot. */
  predicate Harmless(l: Layout, m: Mem)
    requires l.Valid() && l.OnChip(m)
  {
    Flagged(l, m, l.spare) ==> !CrcAccepts(l, m) && Contained(l, SlotSize(l, m))
  }

  /** Power fails inside an erase and leaves anything in that sector. What is left of the spare
      slot's first sector, which holds flag and header, is taken to be harmless. */
  ghost predicate TornErase(l: Layout, s: State, t: State)
    requires l.Valid() && l.OnChip(s.mem)
  {
    && t.pc == Boot
    && match s.pc
       case Page(size, p) =>
         && p * PAGE < size && p % PAGES_PER_SECTOR == 0
         && SameOutside(s.mem, t.mem, PageAt(l.load, p), PageAt(l.load, p) + SECTOR)
       case Wipe(size, j) =>
         && j < SectorsToWipe(size)
         && var w := Wiped(l, s.mem, j);
            && SameOutside(s.mem, t.mem, w * SECTOR, w * SECTOR + SECTOR)
            && (w == l.spareSector ==> Harmless(l, t.mem))
       case _ => false
  }

  ghost predicate Next(l: Layout, s: State, t: State)
    requires l.Valid() && l.OnChip(s.mem)
  {
    CodeStep(l, s, t) || PowerLoss(s, t) || TornErase(l, s, t)
  }

  ghost predicate IsRun(l: Layout, run: seq<State>)
    requires l.Valid()
  {
    && |run| > 0
    && (forall k :: 0 <= k < |run| ==> l.OnChip(run[k].mem))
    && forall k :: 0 < k < |run| ==> Next(l, run[k - 1], run[k])
  }
}
