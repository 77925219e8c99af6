/** `tl_check_fw.py`: pad the image, write its length and magic into the header, append the CRC. */
module ImagePatch {
  import opened Bytes
  import opened NorFlash
  import opened Firmware
  import Crc32

  const MAGIC: seq<Byte> := [0x5D, 0x02]
  const MAGIC_AT := 6

  function Clamp(n: nat, top: nat): nat {
    if n < top then n else top
  }

  /** Python's `s[a:b]`: indices past the end mean the end. */
  function Cut<T>(s: seq<T>, a: nat, b: nat): seq<T>
    requires a <= b
  {
    s[Clamp(a, |s|)..Clamp(b, |s|)]
  }

  /** Python's `s[a:b] = v`: it replaces what is there, and inserts where nothing is. */
  function SliceAssign<T>(s: seq<T>, a: nat, b: nat, v: seq<T>): seq<T>
    requires a <= b
  {
    s[..Clamp(a, |s|)] + v + s[Clamp(b, |s|)..]
  }

  function Fill(n: nat): (r: seq<Byte>)
    ensures |r| == n && forall k :: 0 <= k < n ==> r[k] == BLANK
  {
    seq(n, _ => BLANK)
  }

  function Padding(n: nat): nat {
    if 16 - n % 16 < 16 then 16 - n % 16 else 0
  }

  /** `binascii.crc32`: the fold with its result inverted. */
  function Binascii(step: Crc32.ByteStep, s: seq<Byte>): U32 {
    0xFFFF_FFFF - Crc32.Fold(step, s, Crc32.INIT)
  }

  function Padded(file: seq<Byte>): seq<Byte> {
    file + Fill(Padding(|file|))
  }

  function Headed(file: seq<Byte>): seq<Byte> {
    var p := Padded(file);
    SliceAssign(SliceAssign(p, SIZE_AT, HEADER, ToLe32(|p| + 4)), MAGIC_AT, MAGIC_AT + 2, MAGIC)
  }

  predicate AlreadyPatched(file: seq<Byte>) {
    Cut(file, MAGIC_AT, MAGIC_AT + 2) == MAGIC
  }

  /** `int.to_bytes(4)` raises for a length that needs five bytes. */
  predicate TooLong(file: seq<Byte>) {
    !AlreadyPatched(file) && |Padded(file)| + 4 >= WORD
  }

  function Patched(step: Crc32.ByteStep, file: seq<Byte>): seq<Byte> {
    if AlreadyPatched(file) then file
    else Headed(file) + ToLe32(Crc32.Fold(step, Headed(file), Crc32.INIT))
  }

  // ---------------------------------------------------------------- the script

  /** The file the script is pointed at. */
  class ImageFile {
    var bytes: seq<Byte>

    constructor (bytes: seq<Byte>)
      ensures this.bytes == bytes
    {
      this.bytes := bytes;
    }
  }

  method CheckFw(step: Crc32.ByteStep, file: ImageFile) returns (raised: bool)
    modifies file
    ensures raised == TooLong(old(file.bytes))
    ensures file.bytes == if raised then old(file.bytes) else Patched(step, old(file.bytes))
  {
    var firmware := file.bytes;
    raised := false;
    if Cut(firmware, MAGIC_AT, MAGIC_AT + 2) != MAGIC {
      var padding := 16 - |firmware| % 16;
      if padding < 16 {
        firmware := firmware + Fill(padding);
      }
      assert firmware == Padded(file.bytes);
      if |firmware| + 4 >= WORD {
        return true;
      }
      firmware := SliceAssign(firmware, SIZE_AT, HEADER, ToLe32(|firmware| + 4));
      firmware := SliceAssign(firmware, MAGIC_AT, MAGIC_AT + 2, MAGIC);
      var crc := 0xFFFF_FFFF - Binascii(step, firmware);
      firmware := firmware + ToLe32(crc);
      file.bytes := firmware;
    }
  }

  // ---------------------------------------------------------------- what the patch means

  lemma PaddedSize(file: seq<Byte>)
    ensures |Padded(file)| % 16 == 0 && |file| <= |Padded(file)| < |file| + 16
    ensures |Padded(file)| >= 32 <==> |file| > 16
    ensures |file| == 0 ==> |Padded(file)| == 0
    ensures 0 < |file| <= 16 ==> |Padded(file)| == 16
  {
  }

  /** From 17 bytes on the two fields land where they belong and the rest stays as it was. */
  lemma HeadedFields(file: seq<Byte>)
    requires |file| > 16
    ensures var p, h := Padded(file), Headed(file);
            && |h| == |p| >= 32
            && h[SIZE_AT..HEADER] == ToLe32(|p| + 4)
            && h[MAGIC_AT..MAGIC_AT + 2] == MAGIC
            && forall k :: 0 <= k < |p| && !(SIZE_AT <= k < HEADER) && !(MAGIC_AT <= k < MAGIC_AT + 2) ==> h[k] == p[k]
  {
    PaddedSize(file);
  }

  /** A short file is padded to one row of 16 and the length field is appended to it. */
  lemma HeadedShort(file: seq<Byte>)
    requires |file| <= 16
    ensures |Headed(file)| == if file == [] then 6 else 20
    ensures file != [] ==> Headed(file)[MAGIC_AT..MAGIC_AT + 2] == MAGIC
    ensures forall k :: 0 <= k < |file| && !(MAGIC_AT <= k < MAGIC_AT + 2) ==> Headed(file)[k] == file[k]
  {
    PaddedSize(file);
  }

  /** The patch changes nothing of the file but the two header fields. */
  lemma PatchKeeps(step: Crc32.ByteStep, file: seq<Byte>, k: nat)
    requires k < |file|
    requires !(SIZE_AT <= k < HEADER) && !(MAGIC_AT <= k < MAGIC_AT + 2)
    ensures k < |Patched(step, file)| && Patched(step, file)[k] == file[k]
  {
    PaddedSize(file);
    if |file| > 16 {
      HeadedFields(file);
    } else {
      HeadedShort(file);
    }
  }

  /** Patching twice is patching once, for every file but the empty one. */
  lemma PatchIdempotent(step: Crc32.ByteStep, file: seq<Byte>)
    requires file != []
    ensures AlreadyPatched(Patched(step, file))
    ensures Patched(step, Patched(step, file)) == Patched(step, file)
  {
    if !AlreadyPatched(file) {
      var h, r := Headed(file), Patched(step, file);
      if |file| > 16 {
        HeadedFields(file);
      } else {
        HeadedShort(file);
      }
      assert r[MAGIC_AT..MAGIC_AT + 2] == h[MAGIC_AT..MAGIC_AT + 2];
    }
  }

  /** The flag word of the file once padded, which the patch does not touch. */
  predicate HasFlag(l: Layout, file: seq<Byte>) {
    l.flag + 4 <= |Padded(file)| && Padded(file)[l.flag..l.flag + 4] == FLAG_WORD
  }

  lemma HeadedFlag(l: Layout, file: seq<Byte>)
    requires l.Valid() && |file| > 16
    ensures HasFlag(l, file) <==> l.flag + 4 <= |Headed(file)| && Headed(file)[l.flag..l.flag + 4] == FLAG_WORD
  {
    PaddedSize(file);
    HeadedFields(file);
    if l.flag + 4 <= |Padded(file)| {
      assert Padded(file)[l.flag..l.flag + 4] == Headed(file)[l.flag..l.flag + 4];
    }
  }

  lemma InFront(h: seq<Byte>, tail: seq<Byte>, lo: nat, hi: nat)
    requires lo <= hi <= |h|
    ensures (h + tail)[lo..hi] == h[lo..hi]
  {
    SliceOfSlice(h + tail, 0, |h|, lo, hi);
    assert (h + tail)[0..|h|] == h;
  }

  /** The file has a flag word, or ends where it would be and has a trailer that reads as one. */
  predicate ReadsAsFlagged(l: Layout, file: seq<Byte>) {
    if l.flag < |Padded(file)| then HasFlag(l, file)
    else ToLe32(Crc32.Fold(l.crc, Headed(file), Crc32.INIT)) == FLAG_WORD
  }

  /** What the tool produces from an unpatched file is what the boot code accepts, with the
      whole of it covered, exactly if the file has more than 16 bytes and a flag word. A file of
      32 bytes or less ends where a flag word at 32 would be: there the trailer decides. */
  lemma PatchedIsBootable(l: Layout, file: seq<Byte>)
    requires l.Valid() && !AlreadyPatched(file) && !TooLong(file)
    ensures var img := Patched(l.crc, file);
            && (Bootable(l, img) <==> |file| > 16 && ReadsAsFlagged(l, file))
            && (|file| > 16 ==> HEADER <= |img| && FwSize(img) == |img|)
  {
    PaddedSize(file);
    if |file| > 16 {
      var h, img := Headed(file), Patched(l.crc, file);
      var crc := Crc32.Fold(l.crc, h, Crc32.INIT);
      HeadedFields(file);
      HeadedFlag(l, file);
      InFront(h, ToLe32(crc), SIZE_AT, HEADER);
      Le32RoundTrip(|h| + 4);
      Le32RoundTrip(crc);
      assert img[..|h|] == h && img[|h|..|h| + 4] == ToLe32(crc);
      if l.flag < |h| {
        assert l.flag + 4 <= |h|;
        InFront(h, ToLe32(crc), l.flag, l.flag + 4);
      } else {
        assert l.flag == |h|;
      }
    } else {
      HeadedShort(file);
    }
  }
}
