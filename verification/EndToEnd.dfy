/** From the file the build produces to the bytes that run: patched by the tool, sent over the
    UART, checked and installed. */
module EndToEnd {
  import opened Bytes
  import opened NorFlash
  import opened Firmware
  import opened ImagePatch
  import opened BootInstall
  import opened BootSafe
  import opened BootPass
  import U = UartUpgrade

  /** Whatever lies behind an image in its slot, the boot code reads the same image. */
  lemma BootablePrefix(l: Layout, img: seq<Byte>, slot: seq<Byte>)
    requires Bootable(l, img) && |img| <= |slot| && slot[..|img|] == img
    ensures Bootable(l, slot) && FwSize(slot) == FwSize(img)
  {
    var n := FwSize(img);
    SameCut(img, slot, SIZE_AT, HEADER);
    SameCut(img, slot, l.flag, l.flag + 4);
    SameCut(img, slot, 0, n - 4);
    SameCut(img, slot, n - 4, n);
  }

  lemma SameCut(img: seq<Byte>, slot: seq<Byte>, lo: nat, hi: nat)
    requires |img| <= |slot| && slot[..|img|] == img && lo <= hi <= |img|
    ensures slot[lo..hi] == img[lo..hi]
  {
    SliceOfSlice(slot, 0, |img|, lo, hi);
  }

  lemma FlagIsSet(l: Layout, img: seq<Byte>)
    requires l.flag + 4 <= |img| && img[l.flag..l.flag + 4] == FLAG_WORD
    ensures img[l.flag] == START_UP_FLAG
  {
    assert img[l.flag] == img[l.flag..l.flag + 4][0];
  }

  /** The slot an image was received into is good for an install. */
  lemma ReceivedIsGood(l: Layout, img: seq<Byte>, m: Mem)
    requires l.Valid() && l.OnChip(m) && Bootable(l, img) && |img| <= l.max && Holds(m, l.spare, img)
    ensures Good(l, SlotContents(l, m)) && FwSize(SlotContents(l, m)) == FwSize(img)
    ensures SlotContents(l, m)[..|img|] == img
  {
    var s := SlotContents(l, m);
    HoldsSlice(m, l.spare, img);
    SliceOfSlice(m, l.spare, l.spare + l.max, 0, |img|);
    BootablePrefix(l, img, s);
  }

  lemma CopiedPrefix(l: Layout, img: seq<Byte>, slot: seq<Byte>, m: Mem)
    requires Copied(l, slot, m, |img|) && slot[..|img|] == img
    ensures Holds(m, l.load, img)
  {
    forall k | l.load <= k < l.load + |img|
      ensures m[k] == img[k - l.load]
    {
      assert slot[..|img|][k - l.load] == slot[k - l.load];
    }
  }

  lemma HeldPrefix(l: Layout, img: seq<Byte>, slot: seq<Byte>, m: Mem)
    requires Holds(m, l.spare, slot) && |img| <= |slot| && slot[..|img|] == img
    ensures Holds(m, l.spare, img)
  {
    forall k | l.spare <= k < l.spare + |img|
      ensures m[k] == img[k - l.spare]
    {
      assert slot[..|img|][k - l.spare] == slot[k - l.spare];
    }
  }

  /** A file the tool patches, with its flag word, that fits the slot. */
  predicate Shippable(l: Layout, file: seq<Byte>) {
    && l.Valid() && !AlreadyPatched(file) && |file| > 16 && HasFlag(l, file)
    && |Patched(l.crc, file)| <= l.max
  }

  lemma ShippedIsBootable(l: Layout, file: seq<Byte>)
    requires Shippable(l, file)
    ensures var img := Patched(l.crc, file); Bootable(l, img) && FwSize(img) == |img|
  {
    HeadedFields(file);
    PatchedIsBootable(l, file);
  }

  /** `d` is the device once a session with a host serving the patched file has run to the
      point where the install check is armed with its short delay. */
  ghost predicate Uploaded(l: Layout, file: seq<Byte>, d0: U.Device, es: seq<U.Event>, d: U.Device) {
    && Shippable(l, file) && U.Fresh(l, d0)
    && var img := Patched(l.crc, file);
       && U.Session(l, img, d0, es)
       && d == U.After(l, img, d0, es) && d.check == U.CHECK_AFTER_UPGRADE
  }

  lemma UploadedIsGood(l: Layout, file: seq<Byte>, d0: U.Device, es: seq<U.Event>, d: U.Device)
    requires Uploaded(l, file, d0, es, d)
    ensures var img := Patched(l.crc, file);
            && l.OnChip(d.mem) && Holds(d.mem, l.spare, img) && Good(l, SlotContents(l, d.mem))
            && FwSize(SlotContents(l, d.mem)) == |img| && SlotContents(l, d.mem)[..|img|] == img
  {
    var img := Patched(l.crc, file);
    ShippedIsBootable(l, file);
    U.SessionSafe(l, img, d0, es);
    FlagIsSet(l, img);
    U.FinalizedIs(l, img, U.BareAfter(l, img, d0, es, false));
    ReceivedIsGood(l, img, d.mem);
  }

  /** An upload that answers every request gets there, whatever the slot held before. */
  lemma UploadReached(l: Layout, file: seq<Byte>, d0: U.Device) returns (es: seq<U.Event>)
    requires Shippable(l, file) && U.Fresh(l, d0)
    ensures U.Session(l, Patched(l.crc, file), d0, es)
    ensures Uploaded(l, file, d0, es, U.After(l, Patched(l.crc, file), d0, es))
  {
    es := U.UploadCompletes(l, Patched(l.crc, file), d0);
  }

  /** Whatever the network did to the messages and whatever fails during the install: the
      patched file is never lost, and the application that is entered is the patched file. */
  lemma UpdateArrives(l: Layout, file: seq<Byte>, d0: U.Device, es: seq<U.Event>, d: U.Device, run: seq<State>)
    requires Uploaded(l, file, d0, es, d)
    requires IsRun(l, run) && run[0] == State(d.mem, Boot)
    ensures var img := Patched(l.crc, file);
            && (forall k :: 0 <= k < |run| ==>
                  Holds(run[k].mem, l.spare, img) || Holds(run[k].mem, l.load, img))
            && (forall k :: 0 <= k < |run| && run[k].pc == Reboot ==> Holds(run[k].mem, l.load, img))
            && (forall k :: 0 <= k < |run| ==> run[k].pc != NoApp)
  {
    var img := Patched(l.crc, file);
    UploadedIsGood(l, file, d0, es, d);
    var slot := SlotContents(l, d.mem);
    CrashSafe(l, slot, run);
    forall k | 0 <= k < |run|
      ensures Holds(run[k].mem, l.spare, img) || Holds(run[k].mem, l.load, img)
      ensures run[k].pc == Reboot ==> Holds(run[k].mem, l.load, img)
    {
      if Copied(l, slot, run[k].mem, FwSize(slot)) {
        CopiedPrefix(l, img, slot, run[k].mem);
      } else {
        HeldPrefix(l, img, slot, run[k].mem);
      }
    }
  }

  lemma AcceptedSlot(l: Layout, img: seq<Byte>, m: Mem)
    requires l.Valid() && l.OnChip(m) && Bootable(l, img) && |img| <= l.max && Holds(m, l.spare, img)
    ensures Installable(l, m) && SlotSize(l, m) == FwSize(img)
  {
    ReceivedIsGood(l, img, m);
    SlotAccepts(l, m, SlotContents(l, m));
    ChecksIff(l, m);
  }

  /** A pass over a received image with power to the end: the image runs. */
  method InstallReceived(l: Layout, chip: Flash, ghost img: seq<Byte>) returns (outcome: Pc)
    requires l.Valid() && l.OnChip(chip.mem) && !chip.worn
    requires Bootable(l, img) && FwSize(img) == |img| <= l.max && Holds(chip.mem, l.spare, img)
    modifies chip
    ensures outcome == Reboot && Holds(chip.mem, l.load, img)
  {
    ghost var m := chip.mem;
    AcceptedSlot(l, img, m);
    ghost var run;
    outcome, run := BootloaderWithOtaCheck(l, chip);
    Arrived(l, img, m, chip.mem);
  }

  /** The install check fires after an upload: the patched file runs. */
  method InstallCheckFired(l: Layout, chip: Flash, ghost file: seq<Byte>, ghost d0: U.Device, ghost es: seq<U.Event>,
                           ghost d: U.Device) returns (outcome: Pc)
    requires Uploaded(l, file, d0, es, d) && chip.mem == d.mem && l.OnChip(chip.mem) && !chip.worn
    modifies chip
    ensures outcome == Reboot && Holds(chip.mem, l.load, Patched(l.crc, file))
  {
    ShippedIsBootable(l, file);
    UploadedIsGood(l, file, d0, es, d);
    outcome := InstallReceived(l, chip, Patched(l.crc, file));
  }

  lemma Arrived(l: Layout, img: seq<Byte>, m: Mem, r: Mem)
    requires l.Valid() && l.OnChip(m) && l.OnChip(r) && |img| <= l.max && Bootable(l, img)
    requires Delivered(l, |img|, m, r) && Holds(m, l.spare, img)
    ensures Holds(r, l.load, img) && Flagged(l, r, l.load)
  {
    HoldsSlice(m, l.spare, img);
    var s := r[l.load..l.load + |img|];
    forall k | l.load <= k < l.load + |img|
      ensures r[k] == img[k - l.load]
    {
      assert s[k - l.load] == r[k];
    }
    HoldsPart(r, l.load, img, l.flag, l.flag + 4);
  }
}
