/** The image header the boot code trusts, and the two flash slots it moves images between. */
module Firmware {
  import opened Bytes
  import opened NorFlash
  import Crc32

  const START_UP_FLAG: Byte := 0x4B
  /** 0x544C4E4B as it lies in flash. */
  const FLAG_WORD: seq<Byte> := [0x4B, 0x4E, 0x4C, 0x54]
  const SIZE_AT := 0x18
  const HEADER := 0x1C

  /** `load` is where the application runs, `spare` the slot an update is received in, both
      given by their first sector; `sectors` is the size of each. `flag` is the offset of the
      start-up flag word, `crc` one byte of xcrc32. */
  datatype Layout = Layout(loadSector: nat, spareSector: nat, sectors: nat, flag: nat, crc: Crc32.ByteStep) {
    const load: nat := loadSector * SECTOR
    const spare: nat := spareSector * SECTOR
    /** FLASH_OTA_IMAGE_MAX_SIZE */
    const max: nat := sectors * SECTOR

    /** drv_nv.h: slots that do not meet, in a 24-bit address space; the flag word at 8 or at 32. */
    predicate Valid() {
      && 0 < sectors && loadSector + sectors <= spareSector && spare + max <= 0x100_0000
      && (flag == 8 || flag == 32)
    }

    predicate OnChip(m: Mem) {
      spare + max <= |m|
    }
  }

  /** `is_valid_fw_bootloader`: the whole flag word, read at one slot. */
  predicate Flagged(l: Layout, m: Mem, slot: nat)
    requires slot + l.flag + 4 <= |m|
  {
    m[slot + l.flag..slot + l.flag + 4] == FLAG_WORD
  }

  lemma FlaggedBytes(l: Layout, m: Mem, slot: nat)
    requires slot + l.flag + 4 <= |m|
    ensures Flagged(l, m, slot) <==>
            && m[slot + l.flag] == 0x4B && m[slot + l.flag + 1] == 0x4E
            && m[slot + l.flag + 2] == 0x4C && m[slot + l.flag + 3] == 0x54
  {
    var w := m[slot + l.flag..slot + l.flag + 4];
    assert w == [w[0], w[1], w[2], w[3]];
  }

  lemma FlaggedFrame(l: Layout, m: Mem, r: Mem, slot: nat)
    requires slot + l.flag + 4 <= |m| == |r|
    requires forall k :: slot + l.flag <= k < slot + l.flag + 4 ==> r[k] == m[k]
    ensures Flagged(l, r, slot) == Flagged(l, m, slot)
  {
    assert r[slot + l.flag..slot + l.flag + 4] == m[slot + l.flag..slot + l.flag + 4];
  }

  /** Any other value in the flag's first byte hides the image. */
  lemma Unflagged(l: Layout, m: Mem, slot: nat)
    requires slot + l.flag + 4 <= |m| && m[slot + l.flag] != START_UP_FLAG
    ensures !Flagged(l, m, slot)
  {
    FlaggedBytes(l, m, slot);
  }

  // ---------------------------------------------------------------- the header of an image

  function FwSize(img: seq<Byte>): U32
    requires HEADER <= |img|
  {
    Le32(img[SIZE_AT..HEADER])
  }

  /** Size and trailer agree with the bytes, and the flag word is in place. */
  predicate Bootable(l: Layout, img: seq<Byte>) {
    && HEADER <= |img| && l.flag + 4 <= |img|
    && 4 <= FwSize(img) <= |img|
    && img[l.flag..l.flag + 4] == FLAG_WORD
    && Crc32.Fold(l.crc, img[..FwSize(img) - 4], Crc32.INIT) == Le32(img[FwSize(img) - 4..FwSize(img)])
  }

  // ---------------------------------------------------------------- what the boot code reads

  function SlotSize(l: Layout, m: Mem): U32
    requires l.Valid() && l.OnChip(m)
  {
    Le32(m[l.spare + SIZE_AT..l.spare + HEADER])
  }

  /** `fw_size - 4` as the signed counter the CRC loop starts from: none for a size below 4. */
  function Covered(size: nat): nat {
    if size < 4 then 0 else size - 4
  }

  /** The CRC of all but the trailer equals the trailer. */
  predicate CrcMatches(l: Layout, m: Mem, size: nat)
    requires l.Valid() && l.OnChip(m) && size <= l.max
  {
    Crc32.Fold(l.crc, m[l.spare..l.spare + Covered(size)], Crc32.INIT)
      == Le32(m[l.spare + size - 4..l.spare + size])
  }

  predicate CrcAccepts(l: Layout, m: Mem)
    requires l.Valid() && l.OnChip(m)
  {
    SlotSize(l, m) <= l.max && CrcMatches(l, m, SlotSize(l, m))
  }

  lemma SlotHeader(l: Layout, m: Mem, img: seq<Byte>)
    requires l.Valid() && l.OnChip(m) && |img| == l.max && Holds(m, l.spare, img)
    ensures SlotSize(l, m) == FwSize(img)
    ensures Flagged(l, m, l.spare) == (img[l.flag..l.flag + 4] == FLAG_WORD)
  {
    HoldsPart(m, l.spare, img, SIZE_AT, HEADER);
    HoldsPart(m, l.spare, img, l.flag, l.flag + 4);
  }

  lemma SlotAccepts(l: Layout, m: Mem, img: seq<Byte>)
    requires l.Valid() && l.OnChip(m) && |img| == l.max && Holds(m, l.spare, img)
    requires Bootable(l, img)
    ensures Flagged(l, m, l.spare) && CrcAccepts(l, m) && SlotSize(l, m) == FwSize(img)
  {
    SlotHeader(l, m, img);
    SlotTrailer(l, m, img, FwSize(img));
  }

  lemma SlotTrailer(l: Layout, m: Mem, img: seq<Byte>, n: nat)
    requires l.Valid() && l.OnChip(m) && |img| == l.max && Holds(m, l.spare, img)
    requires 4 <= n <= l.max
    ensures m[l.spare..l.spare + Covered(n)] == img[..n - 4]
    ensures m[l.spare + n - 4..l.spare + n] == img[n - 4..n]
  {
    HoldsPart(m, l.spare, img, 0, n - 4);
    HoldsPart(m, l.spare, img, n - 4, n);
  }

  function SlotContents(l: Layout, m: Mem): (s: seq<Byte>)
    requires l.Valid() && l.OnChip(m)
    ensures |s| == l.max && Holds(m, l.spare, s)
  {
    m[l.spare..l.spare + l.max]
  }

  /** What the spare slot should be installed for: contents that are bootable. With a size below 4
      in the header there is no trailer; the word that ends at the size, which begins before the slot,
      is then compared with the CRC over nothing. */
  predicate Installable(l: Layout, m: Mem)
    requires l.Valid() && l.OnChip(m)
  {
    var size := SlotSize(l, m);
    if size >= 4 then Bootable(l, SlotContents(l, m))
    else Flagged(l, m, l.spare) && Le32(m[l.spare + size - 4..l.spare + size]) == 0xFFFF_FFFF
  }

  /** Flag word, size limit and CRC as the boot code reads them accept exactly these slots. */
  lemma AcceptedIff(l: Layout, m: Mem)
    requires l.Valid() && l.OnChip(m)
    ensures Flagged(l, m, l.spare) && CrcAccepts(l, m) <==> Installable(l, m)
  {
    var size, img := SlotSize(l, m), SlotContents(l, m);
    SlotHeader(l, m, img);
    if 4 <= size <= l.max {
      SlotTrailer(l, m, img, size);
    } else if size < 4 {
      assert m[l.spare..l.spare + 0] == [];
    }
  }
}
