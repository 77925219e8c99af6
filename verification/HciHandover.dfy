/** The handover between the two slots: which image it brings up, and that the chip can boot
    whenever power fails on the way. */
module HciHandover {
  import opened Bytes
  import opened NorFlash
  import opened HciOta
  import opened HciBoot
  import Crc32

  lemma WordInSlot(b: Board, m: Mem, r: Mem, slot: nat, at: nat)
    requires slot * SECTOR + b.max <= |m| == |r| && at + 4 <= b.max
    requires forall k :: slot * SECTOR + at <= k < slot * SECTOR + at + 4 ==> r[k] == m[k]
    ensures WordAt(m, slot * SECTOR + at) == Le32(SlotOf(b, r, slot)[at..at + 4])
  {
    var a, s := slot * SECTOR + at, SlotOf(b, r, slot);
    var w := s[at..at + 4];
    assert w[0] == s[at] == m[a] && w[1] == s[at + 1] == m[a + 1];
    assert w[2] == s[at + 2] == m[a + 2] && w[3] == s[at + 3] == m[a + 3];
  }

  /** Raising the flag of a slot that passed the image check makes it sound. */
  lemma RaisedIsSound(b: Board, m: Mem, slot: nat, r: Mem)
    requires b.Valid() && b.OnChip(m) && (slot == 0 || slot == SLOT_B) && NewImageValid(b, m, slot)
    requires r == m[slot * SECTOR + b.flag := START_FLAG]
    ensures SlotSound(b, r, slot)
  {
    var a, s, size := slot * SECTOR, SlotOf(b, r, slot), HeaderSize(m, slot);
    WordInSlot(b, m, r, slot, 0x18);
    RaisedFlag(b, m, slot, r, s);
    if 4 <= size && !(b.flag < size <= b.flag + 4) {
      WordInSlot(b, m, r, slot, size - 4);
      RaisedImage(b, m, slot, r, s, size - 4);
    }
  }

  /** The check is exact: an image passes if and only if its slot is sound once the flag byte is set,
      for every size that leaves room for a trailer clear of the flag byte. */
  lemma ImageCheckIff(b: Board, m: Mem, slot: nat, r: Mem)
    requires b.Valid() && b.OnChip(m) && (slot == 0 || slot == SLOT_B)
    requires r == m[slot * SECTOR + b.flag := START_FLAG]
    requires var size := HeaderSize(m, slot); 4 <= size && !(b.flag < size <= b.flag + 4)
    ensures NewImageValid(b, m, slot) <==> SlotSound(b, r, slot)
  {
    if NewImageValid(b, m, slot) {
      RaisedIsSound(b, m, slot, r);
    } else if SlotSound(b, r, slot) {
      var s, size := SlotOf(b, r, slot), HeaderSize(m, slot);
      WordInSlot(b, m, r, slot, 0x18);
      RaisedTail(b, m, slot, r, s);
      WordInSlot(b, m, r, slot, size - 4);
      RaisedImage(b, m, slot, r, s, size - 4);
    }
  }

  /** With a size below 4 there is no trailer: the word that ends at the size, which begins before the
      slot, is compared with the CRC over nothing. */
  lemma ImageCheckSmall(b: Board, m: Mem, slot: nat)
    requires b.Valid() && b.OnChip(m) && (slot == 0 || slot == SLOT_B) && HeaderSize(m, slot) < 4
    ensures var f := slot * SECTOR + b.flag;
            NewImageValid(b, m, slot) <==>
            m[f + 1..f + 4] == FLAG_WORD[1..] && WordAt(m, slot * SECTOR + HeaderSize(m, slot) - 4) == 0xFFFF_FFFF
  {
    assert ImageIn(b, m, slot, 0) == [];
  }

  lemma RaisedTail(b: Board, m: Mem, slot: nat, r: Mem, s: seq<Byte>)
    requires b.Valid() && b.OnChip(m) && slot <= SLOT_B && r == m[slot * SECTOR + b.flag := START_FLAG]
    requires s == SlotOf(b, r, slot) && s[b.flag..b.flag + 4] == FLAG_WORD
    ensures var f := slot * SECTOR + b.flag; m[f + 1..f + 4] == FLAG_WORD[1..]
  {
    var f, g := slot * SECTOR + b.flag, b.flag;
    var w := s[g..g + 4];
    assert w[1] == s[g + 1] == m[f + 1] && w[2] == s[g + 2] == m[f + 2] && w[3] == s[g + 3] == m[f + 3];
  }

  lemma RaisedFlag(b: Board, m: Mem, slot: nat, r: Mem, s: seq<Byte>)
    requires b.Valid() && b.OnChip(m) && slot <= SLOT_B && r == m[slot * SECTOR + b.flag := START_FLAG]
    requires s == SlotOf(b, r, slot)
    requires var f := slot * SECTOR + b.flag; m[f + 1..f + 4] == FLAG_WORD[1..]
    ensures s[b.flag..b.flag + 4] == FLAG_WORD
  {
    var f, g := slot * SECTOR + b.flag, b.flag;
    var tail, w := m[f + 1..f + 4], s[b.flag..b.flag + 4];
    assert s[g] == START_FLAG && s[g + 1] == m[f + 1] && s[g + 2] == m[f + 2] && s[g + 3] == m[f + 3];
    assert tail == [m[f + 1], m[f + 2], m[f + 3]];
    assert w == [s[g], s[g + 1], s[g + 2], s[g + 3]] == [START_FLAG] + tail;
    assert FLAG_WORD == [START_FLAG] + FLAG_WORD[1..];
  }

  lemma RaisedImage(b: Board, m: Mem, slot: nat, r: Mem, s: seq<Byte>, n: nat)
    requires b.Valid() && b.OnChip(m) && slot <= SLOT_B && r == m[slot * SECTOR + b.flag := START_FLAG]
    requires s == SlotOf(b, r, slot) && n <= b.max
    ensures ImageIn(b, m, slot, n) == s[..n]
  {
    var a, x := slot * SECTOR, ImageIn(b, m, slot, n);
    forall k | 0 <= k < n
      ensures x[k] == s[k]
    {
      assert s[k] == r[a + k];
    }
  }

  /** Setting the flag of the spare slot, which holds a checked image: the chip boots from a
      sound slot before and after, and the new slot is sound if the byte took. */
  lemma SetFlagKeeps(b: Board, m: Mem, r: Mem)
    requires b.Valid() && b.OnChip(m) && BootOk(b, m) && NewImageValid(b, m, Spare(b, m))
    requires r == Apply(m, SetFlag(b, Spare(b, m)))
    ensures BootOk(b, r) && SlotSound(b, r, Running(b, m))
    ensures r[Spare(b, m) * SECTOR + b.flag] == START_FLAG ==> SlotSound(b, r, Spare(b, m))
  {
    var slot, run := Spare(b, m), Running(b, m);
    SoundFrame(b, m, r, run);
    if r[slot * SECTOR + b.flag] == START_FLAG {
      assert r == m[slot * SECTOR + b.flag := START_FLAG];
      RaisedIsSound(b, m, slot, r);
    }
  }

  /** The slot whose flag the handover then clears is always the one at 0: it asks again which
      slot the chip boots from, after the new flag is in place. */
  lemma AlwaysClearsA(b: Board, m: Mem)
    requires b.Valid() && b.OnChip(m)
    requires Apply(m, SetFlag(b, Spare(b, m)))[Spare(b, m) * SECTOR + b.flag] == START_FLAG
    ensures TakenForRunning(b, Apply(m, SetFlag(b, Spare(b, m)))) == 0
  {
  }

  lemma ClearFlagKeeps(b: Board, m: Mem, r: Mem)
    requires b.Valid() && b.OnChip(m) && r == Apply(m, ClearFlag(b, 0)) && SlotSound(b, m, SLOT_B)
    ensures BootOk(b, r) && Running(b, r) == SLOT_B
  {
    AndZero(m[b.flag]);
    assert r[b.flag] == 0;
    SoundFrame(b, m, r, SLOT_B);
  }

  lemma AfterRaise(b: Board, d: Device, raise: Op)
    requires Sane(b, d) && BootOk(b, d.mem) && d.timer == Handover
    requires OnHandover(b, d).ops != [] && raise == SetFlag(b, Spare(b, d.mem))
    ensures AllFit(d.mem, [raise]) && BootOk(b, Run(d.mem, [raise]))
  {
    SetFlagKeeps(b, d.mem, Apply(d.mem, raise));
    RunOne(d.mem, raise);
  }

  lemma AfterBoth(b: Board, d: Device, raise: Op, drop: Op)
    requires Sane(b, d) && BootOk(b, d.mem) && d.timer == Handover && OnHandover(b, d).ops == [raise, drop]
    ensures AllFit(d.mem, [raise, drop]) && BootOk(b, Run(d.mem, [raise, drop]))
    ensures Running(b, Run(d.mem, [raise, drop])) == SLOT_B
  {
    var m1 := Apply(d.mem, raise);
    SetFlagKeeps(b, d.mem, m1);
    AlwaysClearsA(b, d.mem);
    RunOne(d.mem, raise);
    RunSnoc(d.mem, [raise], drop);
    assert [raise] + [drop] == [raise, drop];
    assert Spare(b, d.mem) == SLOT_B || Running(b, d.mem) == SLOT_B;
    ClearFlagKeeps(b, m1, Apply(m1, drop));
  }

  lemma HandoverBoundary(b: Board, d: Device, k: nat, cut: seq<Op>)
    requires Sane(b, d) && BootOk(b, d.mem) && d.timer == Handover
    requires k <= |OnHandover(b, d).ops| && cut == OnHandover(b, d).ops[..k]
    ensures AllFit(d.mem, cut) && BootOk(b, Run(d.mem, cut))
    ensures k == 2 ==> Running(b, Run(d.mem, cut)) == SLOT_B
  {
    var ops := OnHandover(b, d).ops;
    if k == 1 {
      assert cut == [ops[0]];
      AfterRaise(b, d, ops[0]);
    } else if k == 2 {
      assert cut == ops == [ops[0], ops[1]];
      AfterBoth(b, d, ops[0], ops[1]);
    }
  }

  lemma HandoverBoots(b: Board, d: Device)
    requires Sane(b, d) && BootOk(b, d.mem) && d.timer == Handover
    ensures AllFit(d.mem, OnHandover(b, d).ops) && AlwaysBoots(b, d.mem, OnHandover(b, d).ops)
  {
    var ops := OnHandover(b, d).ops;
    SaneHandover(b, d);
    forall k | 0 <= k <= |ops|
      ensures BootOk(b, Run(d.mem, ops[..k]))
    {
      HandoverBoundary(b, d, k, ops[..k]);
    }
  }

  /** Power failing while the new flag is raised, and it does not come out as the flag. */
  lemma RaiseTorn(b: Board, m: Mem, r: Mem)
    requires b.Valid() && b.OnChip(m) && BootOk(b, m)
    requires var f := Spare(b, m) * SECTOR + b.flag; SameOutside(m, r, f, f + 1)
    requires BootsFromA(b, r) ==> BootsFromA(b, m)
    ensures BootOk(b, r)
  {
    SoundFrame(b, m, r, Running(b, m));
  }

  lemma ClearTorn(b: Board, m: Mem, r: Mem)
    requires b.Valid() && b.OnChip(m) && BootOk(b, m) && BootsFromA(b, m) && SlotSound(b, m, SLOT_B)
    requires SameOutside(m, r, b.flag, b.flag + 1)
    ensures BootOk(b, r)
  {
    SoundFrame(b, m, r, SLOT_B);
    if BootsFromA(b, r) {
      SoundFrame(b, m, r, 0);
    }
  }

  /** What the first command of the handover leaves, where there is a second. */
  lemma BothSound(b: Board, d: Device, raise: Op, m: Mem)
    requires Sane(b, d) && BootOk(b, d.mem) && d.timer == Handover && |OnHandover(b, d).ops| == 2
    requires raise == OnHandover(b, d).ops[0] && m == Apply(d.mem, raise)
    ensures OnHandover(b, d).ops[1] == ClearFlag(b, 0)
    ensures BootOk(b, m) && BootsFromA(b, m) && SlotSound(b, m, SLOT_B)
  {
    SetFlagKeeps(b, d.mem, m);
    AlwaysClearsA(b, d.mem);
    assert Spare(b, d.mem) == SLOT_B || Running(b, d.mem) == SLOT_B;
  }

  /** The handover resets the chip exactly if the spare slot passes the image check and its flag
      byte can be set. It then always leaves the chip booting from 0x40000: the new image comes
      up exactly if the device was running from 0, and a device that runs from 0x40000 clears the
      flag it has just written and stays on the old image. Without a reset nothing is switched. */
  lemma HandoverSwitchesIff(b: Board, d: Device)
    requires Sane(b, d) && BootOk(b, d.mem) && d.timer == Handover
    ensures var s, slot := OnHandover(b, d), Spare(b, d.mem);
            && AllFit(d.mem, s.ops)
            && (s.reset <==> NewImageValid(b, d.mem, slot)
                             && Programmed(d.mem[slot * SECTOR + b.flag], START_FLAG) == START_FLAG)
            && var t := Outcome(d, s);
               && BootOk(b, t.mem)
               && (s.reset ==> Running(b, t.mem) == SLOT_B)
               && (!s.reset ==> Running(b, t.mem) == Running(b, d.mem))
               && (Running(b, t.mem) == slot <==> s.reset && BootsFromA(b, d.mem))
  {
    var ops := OnHandover(b, d).ops;
    assert ops[..|ops|] == ops;
    HandoverBoundary(b, d, |ops|, ops);
    if |ops| == 1 {
      RunOne(d.mem, ops[0]);
    }
  }

  /** So no handover ever takes a device that runs from 0x40000 off its image. */
  lemma StaysOnB(b: Board, d: Device)
    requires Sane(b, d) && BootOk(b, d.mem) && d.timer == Handover && !BootsFromA(b, d.mem)
    ensures AllFit(d.mem, OnHandover(b, d).ops)
    ensures Running(b, Outcome(d, OnHandover(b, d)).mem) == SLOT_B
  {
    HandoverSwitchesIff(b, d);
  }
}
