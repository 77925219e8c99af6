/** What the chip boots from, and which flash commands leave it something to boot. */
module HciBoot {
  import opened Bytes
  import opened NorFlash
  import opened HciOta
  import Crc32

  /** What the chip may boot: the flag word in place, a size that fits and a matching CRC, unless
      the size leaves no room for a trailer or puts it over the flag byte. */
  predicate Sound(b: Board, s: seq<Byte>)
    requires b.Valid() && |s| == b.max
  {
    var size := Le32(s[0x18..0x1C]);
    && s[b.flag..b.flag + 4] == FLAG_WORD && size <= b.max
    && (4 <= size && !(b.flag < size <= b.flag + 4) ==>
          Crc32.Fold(b.crc, s[..size - 4], Crc32.INIT) == Le32(s[size - 4..size]))
  }

  function SlotOf(b: Board, m: Mem, slot: nat): (s: seq<Byte>)
    requires slot * SECTOR + b.max <= |m|
    ensures |s| == b.max
  {
    m[slot * SECTOR..slot * SECTOR + b.max]
  }

  predicate SlotSound(b: Board, m: Mem, slot: nat)
    requires b.Valid() && slot * SECTOR + b.max <= |m|
  {
    Sound(b, SlotOf(b, m, slot))
  }

  function Running(b: Board, m: Mem): nat
    requires b.flag < |m|
  {
    if BootsFromA(b, m) then 0 else SLOT_B
  }

  /** The slot a restart would boot from holds a sound image. */
  predicate BootOk(b: Board, m: Mem)
    requires b.Valid() && b.OnChip(m)
  {
    SlotSound(b, m, Running(b, m))
  }

  lemma SoundFrame(b: Board, m: Mem, r: Mem, slot: nat)
    requires b.Valid() && slot * SECTOR + b.max <= |m| == |r|
    requires forall k :: slot * SECTOR <= k < slot * SECTOR + b.max ==> r[k] == m[k]
    ensures SlotSound(b, r, slot) == SlotSound(b, m, slot)
  {
    assert SlotOf(b, r, slot) == SlotOf(b, m, slot);
  }

  /** A byte of the flag word that differs is enough. */
  lemma FlagUnsound(b: Board, m: Mem, slot: nat, k: nat)
    requires b.Valid() && slot * SECTOR + b.max <= |m| && k < 4
    requires m[slot * SECTOR + b.flag + k] != FLAG_WORD[k]
    ensures !SlotSound(b, m, slot)
  {
    var s := SlotOf(b, m, slot);
    assert s[b.flag..b.flag + 4][k] == s[b.flag + k] == m[slot * SECTOR + b.flag + k];
  }

  lemma FlagOfSound(b: Board, m: Mem, slot: nat, k: nat)
    requires b.Valid() && slot * SECTOR + b.max <= |m| && k < 4 && SlotSound(b, m, slot)
    ensures m[slot * SECTOR + b.flag + k] == FLAG_WORD[k]
  {
    if m[slot * SECTOR + b.flag + k] != FLAG_WORD[k] {
      FlagUnsound(b, m, slot, k);
    }
  }

  /** The chip can boot before, between and after the commands. */
  ghost predicate AlwaysBoots(b: Board, m: Mem, ops: seq<Op>)
    requires b.Valid() && b.OnChip(m) && AllFit(m, ops)
  {
    forall k :: 0 <= k <= |ops| ==> BootOk(b, Run(m, ops[..k]))
  }

  // ---------------------------------------------------------------- erasing

  /** Erasing `n` sectors from the start of a slot: of the slot at 0 if the other one is sound
      and stays clear of it, of the one at 0x40000 if the chip boots from 0. */
  predicate ErasesSpare(b: Board, m: Mem, slot: nat, n: nat)
    requires b.Valid() && b.OnChip(m)
  {
    if slot == 0 then n <= SLOT_B && SlotSound(b, m, SLOT_B) else BootsFromA(b, m)
  }

  lemma ErasedBootIff(b: Board, m: Mem, slot: nat, n: nat, r: Mem)
    requires b.Valid() && b.OnChip(m) && BootOk(b, m)
    requires (slot == 0 || slot == SLOT_B) && 0 < n && (slot + n) * SECTOR <= |m|
    requires AllFit(m, EraseOps(slot, n)) && r == Run(m, EraseOps(slot, n))
    ensures BootOk(b, r) <==> ErasesSpare(b, m, slot, n)
  {
    EraseOpsBlank(m, slot, n);
    if slot == SLOT_B {
      if BootsFromA(b, m) {
        SoundFrame(b, m, r, 0);
      } else {
        FlagUnsound(b, r, SLOT_B, 0);
      }
    } else if n <= SLOT_B {
      SoundFrame(b, m, r, SLOT_B);
    } else {
      FlagUnsound(b, r, SLOT_B, 0);
    }
  }

  /** The exact condition, wherever power fails on the way. */
  lemma ErasesBootIff(b: Board, m: Mem, slot: nat, n: nat)
    requires b.Valid() && b.OnChip(m) && BootOk(b, m)
    requires (slot == 0 || slot == SLOT_B) && (slot + n) * SECTOR <= |m|
    ensures AllFit(m, EraseOps(slot, n))
    ensures AlwaysBoots(b, m, EraseOps(slot, n)) <==> n == 0 || ErasesSpare(b, m, slot, n)
  {
    var ops := EraseOps(slot, n);
    assert ops[..n] == ops;
    forall k | 0 < k <= n
      ensures ops[..k] == EraseOps(slot, k)
      ensures BootOk(b, Run(m, ops[..k])) <==> ErasesSpare(b, m, slot, k)
    {
      assert ops[..k] == EraseOps(slot, k);
      ErasedBootIff(b, m, slot, k, Run(m, EraseOps(slot, k)));
    }
  }

  // ---------------------------------------------------------------- writing

  /** The write covers byte `k` with something that is not there already. */
  predicate Hits(m: Mem, w: Op, k: nat)
    requires w.ProgramOp? && Fits(m, w)
  {
    w.addr <= k < w.addr + |w.data| && Programmed(m[k], w.data[k - w.addr]) != m[k]
  }

  /** Every byte written between `lo` and `hi` is there already. */
  predicate Leaves(m: Mem, w: Op, lo: nat, hi: nat)
    requires w.ProgramOp? && Fits(m, w)
  {
    forall k :: lo <= k < hi ==> !Hits(m, w, k)
  }

  lemma HitIff(m: Mem, w: Op, k: nat)
    requires w.ProgramOp? && Fits(m, w) && k < |m|
    ensures Hits(m, w, k) <==> Apply(m, w)[k] != m[k]
  {
    var r := Apply(m, w);
    if w.addr <= k < w.addr + |w.data| {
      assert r[k] == Programmed(m[k], w.data[k - w.addr]);
    } else {
      assert r[k] == m[k];
    }
  }

  /** The byte the flag byte of the slot at 0 becomes. */
  function FlagAfter(b: Board, m: Mem, w: Op): Byte
    requires b.flag < |m| && w.ProgramOp? && Fits(m, w)
  {
    if w.addr <= b.flag < w.addr + |w.data| then Programmed(m[b.flag], w.data[b.flag - w.addr]) else m[b.flag]
  }

  /** The write changes which slot the chip boots from. */
  predicate Switches(b: Board, m: Mem, w: Op)
    requires b.flag < |m| && w.ProgramOp? && Fits(m, w)
  {
    BootsFromA(b, m) != (FlagAfter(b, m, w) == START_FLAG)
  }

  /** The write leaves what the chip boots from as it is, or takes the flag off the slot at 0 while
      the other one is sound. */
  predicate WriteSpares(b: Board, m: Mem, w: Op)
    requires b.Valid() && b.OnChip(m) && w.ProgramOp? && Fits(m, w)
  {
    if Switches(b, m, w) then BootsFromA(b, m) && SlotSound(b, m, SLOT_B)
    else Leaves(m, w, Running(b, m) * SECTOR, Running(b, m) * SECTOR + b.max)
  }

  lemma SameSlotIff(b: Board, m: Mem, r: Mem, slot: nat, a: nat)
    requires a == slot * SECTOR && a + b.max <= |m| == |r|
    ensures SlotOf(b, r, slot) == SlotOf(b, m, slot) <==> forall k :: a <= k < a + b.max ==> r[k] == m[k]
  {
    var s, t := SlotOf(b, m, slot), SlotOf(b, r, slot);
    if s == t {
      forall k | a <= k < a + b.max
        ensures r[k] == m[k]
      {
        assert s[k - a] == t[k - a];
      }
    }
  }

  lemma LeavesIff(b: Board, m: Mem, w: Op, slot: nat, r: Mem)
    requires b.Valid() && slot * SECTOR + b.max <= |m| && w.ProgramOp? && Fits(m, w) && r == Apply(m, w)
    ensures Leaves(m, w, slot * SECTOR, slot * SECTOR + b.max) <==> SlotOf(b, r, slot) == SlotOf(b, m, slot)
  {
    var a := slot * SECTOR;
    forall k | a <= k < a + b.max
      ensures Hits(m, w, k) <==> r[k] != m[k]
    {
      HitIff(m, w, k);
    }
    SameSlotIff(b, m, r, slot, a);
  }

  lemma FlagByteWritten(b: Board, m: Mem, w: Op, r: Mem)
    requires b.flag < |m| && w.ProgramOp? && Fits(m, w) && r == Apply(m, w)
    ensures r[b.flag] == FlagAfter(b, m, w)
  {
  }

  lemma SwitchBoots(b: Board, m: Mem, w: Op, r: Mem)
    requires b.Valid() && b.OnChip(m) && w.ProgramOp? && |w.data| < 256 && Fits(m, w) && r == Apply(m, w)
    requires Switches(b, m, w)
    ensures SlotSound(b, r, SLOT_B) == SlotSound(b, m, SLOT_B)
  {
    SoundFrame(b, m, r, SLOT_B);
  }

  lemma FlagWordHit(b: Board, m: Mem, w: Op, slot: nat, r: Mem)
    requires b.Valid() && slot * SECTOR + b.max <= |m| && w.ProgramOp? && Fits(m, w) && r == Apply(m, w)
    requires SlotSound(b, m, slot) && !Leaves(m, w, slot * SECTOR + b.flag, slot * SECTOR + b.flag + 4)
    ensures !SlotSound(b, r, slot)
  {
    var a := slot * SECTOR + b.flag;
    var k :| a <= k < a + 4 && Hits(m, w, k);
    HitIff(m, w, k);
    FlagOfSound(b, m, slot, k - a);
    FlagUnsound(b, r, slot, k - a);
  }

  /** What one write does to booting. If the flag byte at 0 comes or goes the chip boots from the
      other slot, whatever lies there; otherwise it boots from the same slot, which is exactly as
      it was if and only if every byte written into it was there already, and no longer boots if
      a byte of its flag word was not. */
  lemma WriteBoots(b: Board, m: Mem, w: Op, r: Mem)
    requires b.Valid() && b.OnChip(m) && BootOk(b, m)
    requires w.ProgramOp? && |w.data| < 256 && Fits(m, w) && r == Apply(m, w)
    ensures WriteSpares(b, m, w) ==> BootOk(b, r)
    ensures var run := Running(b, m);
            if Switches(b, m, w) then
              && Running(b, r) != run
              && (BootOk(b, r) <==> if BootsFromA(b, m) then SlotSound(b, m, SLOT_B) else SlotSound(b, r, 0))
            else
              && Running(b, r) == run
              && (Leaves(m, w, run * SECTOR, run * SECTOR + b.max) <==> SlotOf(b, r, run) == SlotOf(b, m, run))
              && (!Leaves(m, w, run * SECTOR + b.flag, run * SECTOR + b.flag + 4) ==> !BootOk(b, r))
  {
    var run := Running(b, m);
    FlagByteWritten(b, m, w, r);
    if Switches(b, m, w) {
      SwitchBoots(b, m, w, r);
    } else {
      LeavesIff(b, m, w, run, r);
      if !Leaves(m, w, run * SECTOR + b.flag, run * SECTOR + b.flag + 4) {
        FlagWordHit(b, m, w, run, r);
      }
    }
  }

  lemma AndZero(x: Byte)
    ensures Programmed(x, 0) == 0
  {
  }

  /** A write that takes the flag off the slot at 0x40000 that the chip boots from. */
  lemma FlagOverwritten(b: Board, m: Mem, a: nat, data: seq<Byte>, f: nat)
    requires b.Valid() && b.OnChip(m) && !BootsFromA(b, m) && b.flag < a && a + |data| <= |m|
    requires f == SLOT_B * SECTOR + b.flag && a <= f < a + |data| && Programmed(m[f], data[f - a]) != START_FLAG
    ensures !BootOk(b, Apply(m, ProgramOp(a, data)))
  {
    var r := Apply(m, ProgramOp(a, data));
    assert r[f] == Programmed(m[f], data[f - a]) && r[b.flag] == m[b.flag];
    FlagUnsound(b, r, SLOT_B, 0);
  }

  /** A write and then erases. */
  lemma WriteFirst(b: Board, m: Mem, w: Op, ops: seq<Op>, all: seq<Op>)
    requires b.Valid() && b.OnChip(m) && BootOk(b, m) && Fits(m, w) && AllFit(m, ops) && all == [w] + ops
    ensures AllFit(m, all)
    ensures AlwaysBoots(b, m, all) <==> AlwaysBoots(b, Apply(m, w), ops)
  {
    var r := Apply(m, w);
    forall k | 0 <= k <= |ops|
      ensures all[..k + 1] == [w] + ops[..k] && Run(m, all[..k + 1]) == Run(r, ops[..k])
    {
      assert all[..k + 1] == [w] + ops[..k];
      RunOne(m, w);
      RunConcat(m, [w], ops[..k]);
    }
    if AlwaysBoots(b, m, all) {
      forall k | 0 <= k <= |ops|
        ensures BootOk(b, Run(r, ops[..k]))
      {
        assert BootOk(b, Run(m, all[..k + 1]));
      }
    }
    if AlwaysBoots(b, r, ops) {
      forall k | 0 <= k <= |all|
        ensures BootOk(b, Run(m, all[..k]))
      {
        if k > 0 {
          assert all[..k] == all[..(k - 1) + 1];
          assert BootOk(b, Run(r, ops[..k - 1]));
        }
      }
    }
  }

  /** The exact condition for a write into a slot, or behind it, and a clean-up that covers it. */
  lemma WriteThenErasesIff(b: Board, m: Mem, w: Op, slot: nat, n: nat, r: Mem)
    requires b.Valid() && b.OnChip(m) && BootOk(b, m) && w.ProgramOp? && Fits(m, w) && r == Apply(m, w)
    requires (slot == 0 || slot == SLOT_B) && 0 < n && OpWithin(w, slot * SECTOR, (slot + n) * SECTOR)
    requires (slot + n) * SECTOR <= |m|
    ensures AllFit(m, [w] + EraseOps(slot, n))
    ensures AlwaysBoots(b, m, [w] + EraseOps(slot, n)) <==> BootOk(b, r) && ErasesSpare(b, m, slot, n)
  {
    var ops := EraseOps(slot, n);
    WriteFirst(b, m, w, ops, [w] + ops);
    if BootOk(b, r) {
      ErasesBootIff(b, r, slot, n);
      if slot == 0 && n <= SLOT_B {
        SoundFrame(b, m, r, SLOT_B);
      }
    } else {
      assert ops[..0] == [];
      assert Run(r, ops[..0]) == r;
    }
  }

  /** The same for a write alone. */
  lemma WriteAloneIff(b: Board, m: Mem, w: Op)
    requires b.Valid() && b.OnChip(m) && BootOk(b, m) && Fits(m, w)
    ensures AllFit(m, [w]) && (AlwaysBoots(b, m, [w]) <==> BootOk(b, Apply(m, w)))
  {
    WriteFirst(b, m, w, [], [w]);
    var none: seq<Op> := [];
    assert none[..0] == none;
    assert Run(Apply(m, w), none) == Apply(m, w);
  }
}
