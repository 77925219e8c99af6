/** What becomes of each byte of a file written from any address, on the page grid or off it, by a
    chip that stores such a page in one piece. */
module AnyStart {
  import opened Bytes
  import opened NorFlash
  import opened Programmer

  /** Sector `s` holds byte `k`. */
  predicate InSector(s: nat, k: nat) {
    s * SECTOR <= k < s * SECTOR + SECTOR
  }

  /** What a byte is that a turn may erase first. */
  function Before(m: Mem, a: nat, last: int, k: nat): Byte
    requires k < |m|
  {
    if last != a / SECTOR && InSector(a / SECTOR, k) then BLANK else m[k]
  }

  lemma TurnByte(m: Mem, a: nat, last: int, piece: seq<Byte>, k: nat) returns (r: Mem)
    requires a + |piece| <= |m| && k < |m|
    ensures AllFit(m, Turn(true, a, last, piece)) && r == Run(m, Turn(true, a, last, piece))
    ensures r[k] == if a <= k < a + |piece| then Programmed(Before(m, a, last, k), piece[k - a])
                    else Before(m, a, last, k)
  {
    var erase := EraseIf(last != a / SECTOR, a / SECTOR);
    RunOne(m, EraseOp(a / SECTOR));
    var m1 := Run(m, erase);
    assert m1[k] == Before(m, a, last, k);
    WriteDoes(m1, a, piece);
    RunConcat(m, erase, WriteIf(a, piece));
    r := Apply(m1, ProgramOp(a, piece));
  }

  lemma ByteOf(d: seq<Byte>, piece: seq<Byte>, more: seq<Byte>, n: nat)
    requires d == piece + more && n < |d|
    ensures d[n] == if n < |piece| then piece[n] else more[n - |piece|]
  {
  }

  /** Both steps of a plan. */
  lemma Joined(m: Mem, turn: seq<Op>, m1: Mem, rest: seq<Op>, plan: seq<Op>)
    requires AllFit(m, turn) && m1 == Run(m, turn) && AllFit(m1, rest) && plan == turn + rest
    ensures AllFit(m, plan) && Run(m, plan) == Run(m1, rest)
  {
    assert forall j :: 0 <= j < |rest| ==> Fits(m, rest[j]);
    RunConcat(m, turn, rest);
  }

  /** A byte below the place reached, in a sector already entered, is left alone. */
  lemma {:induction false} LeftAlone(m: Mem, a: nat, last: int, d: seq<Byte>, plan: seq<Op>, s: nat, k: nat)
      returns (r: Mem)
    requires a + |d| <= |m| && plan == Plan(true, a, last, d) && InSector(s, k) && k < a && s <= last <= a / SECTOR
    ensures AllFit(m, plan) && r == Run(m, plan) && r[k] == m[k]
    decreases |d|
  {
    r := m;
    if d != [] {
      var piece, more, turn, rest, b, t := PlanCuts(a, last, d, plan);
      var m1 := TurnByte(m, a, last, piece, k);
      r := LeftAlone(m1, b, a / SECTOR, more, rest, s, k);
      Joined(m, turn, m1, rest, plan);
    }
  }

  /** What becomes of a byte of the file. If its page starts in the sector before, that page is
      written before the byte's sector is erased: the byte is lost if another page follows, and lands
      on what was there otherwise. If its page starts in its own sector, that was erased before,
      except for the one the write started in the middle of. */
  function Fate(was: Byte, b: Byte, split: bool, follows: bool, entered: bool): Byte {
    if split && follows then BLANK
    else if split || entered then Programmed(was, b)
    else b
  }

  /** The turn that writes byte `k`, and all that follows. */
  lemma FirstPage(m: Mem, a: nat, last: int, d: seq<Byte>, plan: seq<Op>, s: nat, k: nat) returns (r: Mem)
    requires a + |d| <= |m| && plan == Plan(true, a, last, d) && last <= a / SECTOR
    requires InSector(s, k) && a <= k < a + PAGE && k < a + |d|
    ensures AllFit(m, plan) && r == Run(m, plan)
    ensures r[k] == Fate(m[k], d[k - a], a / SECTOR < s, a + PAGE < a + |d|, last == s)
  {
    var piece, more, turn, rest, b, t := PlanCuts(a, last, d, plan);
    var m1 := TurnByte(m, a, last, piece, k);
    ByteOf(d, piece, more, k - a);
    if more == [] {
      r := m1;
    } else if a / SECTOR < s {
      r := NextErases(m1, b, t, more, rest, s, k);
    } else {
      r := LeftAlone(m1, b, t, more, rest, s, k);
    }
    Joined(m, turn, m1, rest, plan);
  }

  /** The next page is the first to start in the byte's sector. */
  lemma NextErases(m: Mem, a: nat, last: int, d: seq<Byte>, plan: seq<Op>, s: nat, k: nat) returns (r: Mem)
    requires d != [] && a + |d| <= |m| && plan == Plan(true, a, last, d) && last < s == a / SECTOR
    requires InSector(s, k) && k < a
    ensures AllFit(m, plan) && r == Run(m, plan) && r[k] == BLANK
  {
    var piece, more, turn, rest, b, t := PlanCuts(a, last, d, plan);
    var m1 := TurnByte(m, a, last, piece, k);
    r := LeftAlone(m1, b, t, more, rest, s, k);
    Joined(m, turn, m1, rest, plan);
  }

  /** Byte `k` of sector `s`, in the page `i` pages further on. */
  lemma {:induction false} PlanByte(m: Mem, a: nat, last: int, d: seq<Byte>, plan: seq<Op>, s: nat, i: nat, k: nat)
      returns (r: Mem)
    requires a + |d| <= |m| && plan == Plan(true, a, last, d) && last <= a / SECTOR
    requires InSector(s, k) && a + PAGE * i <= k < a + PAGE * i + PAGE && k < a + |d|
    ensures AllFit(m, plan) && r == Run(m, plan)
    ensures r[k] == Fate(m[k], d[k - a], (a + PAGE * i) / SECTOR < s, a + PAGE * i + PAGE < a + |d|, last == s)
    decreases i
  {
    if i == 0 {
      r := FirstPage(m, a, last, d, plan, s, k);
    } else {
      var piece, more, turn, rest, b, t := PlanCuts(a, last, d, plan);
      var m1 := TurnByte(m, a, last, piece, k);
      ByteOf(d, piece, more, k - a);
      r := PlanByte(m1, b, t, more, rest, s, i - 1, k);
      Joined(m, turn, m1, rest, plan);
    }
  }

  /** Where the page begins that byte `k` is written with. */
  function PageAt(a: nat, k: nat): nat
    requires a <= k
  {
    a + (k - a) / PAGE * PAGE
  }

  /** That page begins in an earlier sector. */
  predicate Split(a: nat, k: nat)
    requires a <= k
  {
    PageAt(a, k) / SECTOR < k / SECTOR
  }

  /** It is not the last. */
  predicate Followed(a: nat, d: seq<Byte>, k: nat)
    requires a <= k
  {
    PageAt(a, k) + PAGE < a + |d|
  }

  /** The write starts in the middle of the byte's sector. */
  predicate Entered(a: nat, k: nat) {
    a % SECTOR != 0 && k / SECTOR == a / SECTOR
  }

  /** Each byte of the file, whatever was there and wherever the file starts. */
  lemma AnyStartByte(m: Mem, a: nat, d: seq<Byte>, k: nat)
    requires a + |d| <= |m| && a <= k < a + |d|
    ensures AllFit(m, Plan(true, a, StartsAt(a), d))
    ensures Run(m, Plan(true, a, StartsAt(a), d))[k] ==
            Fate(m[k], d[k - a], Split(a, k), Followed(a, d, k), Entered(a, k))
  {
    var r := PlanByte(m, a, StartsAt(a), d, Plan(true, a, StartsAt(a), d), k / SECTOR, (k - a) / PAGE, k);
  }

  /** What must be so for a byte to arrive. */
  predicate Lands(m: Mem, a: nat, d: seq<Byte>, k: nat)
    requires a <= k < a + |d| <= |m|
  {
    if Split(a, k) && Followed(a, d, k) then d[k - a] == BLANK
    else Split(a, k) || Entered(a, k) ==> Programmed(m[k], d[k - a]) == d[k - a]
  }

  lemma ByteLands(m: Mem, a: nat, d: seq<Byte>, k: nat, b: Byte)
    requires a <= k < a + |d| <= |m| && b == Fate(m[k], d[k - a], Split(a, k), Followed(a, d, k), Entered(a, k))
    ensures b == d[k - a] <==> Lands(m, a, d, k)
  {
  }

  /** The file arrives exactly if no byte but blank ones is in the part of a page behind a sector
      boundary when another page follows, and the bytes there in the last page, and those in the
      sector the write starts in the middle of, can be programmed over what is there. */
  lemma AnyStartIff(m: Mem, a: nat, d: seq<Byte>)
    requires a + |d| <= |m|
    ensures AllFit(m, Plan(true, a, StartsAt(a), d))
    ensures Holds(Run(m, Plan(true, a, StartsAt(a), d)), a, d) <==> forall k :: a <= k < a + |d| ==> Lands(m, a, d, k)
  {
    PlanFits(m, true, a, StartsAt(a), d);
    var r := Run(m, Plan(true, a, StartsAt(a), d));
    forall k | a <= k < a + |d|
      ensures r[k] == d[k - a] <==> Lands(m, a, d, k)
    {
      AnyStartByte(m, a, d, k);
      ByteLands(m, a, d, k, r[k]);
    }
  }

  lemma OnTheGrid(a: nat, k: nat)
    requires a % PAGE == 0 && a <= k
    ensures !Split(a, k)
  {
    PageStep(PageAt(a, k), k - PageAt(a, k) + 1);
  }

  /** On the page grid no page is split: the file arrives exactly if it can be programmed over what
      the sector holds that the write starts in the middle of. */
  lemma MidSectorStart(m: Mem, a: nat, d: seq<Byte>)
    requires a % PAGE == 0 && a + |d| <= |m|
    ensures AllFit(m, Plan(true, a, StartsAt(a), d))
    ensures Holds(Run(m, Plan(true, a, StartsAt(a), d)), a, d) <==>
            forall k :: a <= k < a + |d| && Entered(a, k) ==> Programmed(m[k], d[k - a]) == d[k - a]
  {
    AnyStartIff(m, a, d);
    forall k | a <= k < a + |d|
      ensures Lands(m, a, d, k) <==> (Entered(a, k) ==> Programmed(m[k], d[k - a]) == d[k - a])
    {
      OnTheGrid(a, k);
    }
  }
}
