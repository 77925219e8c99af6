/** The host programmer: the erase-before-write loop and the chunked read of `TlsrPgm.py`. */
module Programmer {
  import opened Bytes
  import opened NorFlash

  const READ_MAX := 1024
  const ERR_RETRY_COUNT := 3

  function Min(a: nat, b: nat): nat {
    if a < b then a else b
  }

  predicate AllBlank(d: seq<Byte>) {
    forall k :: 0 <= k < |d| ==> d[k] == BLANK
  }

  // ---------------------------------------------------------------- the commands the loop gives

  function EraseIf(yes: bool, sector: nat): seq<Op> {
    if yes then [EraseOp(sector)] else []
  }

  function WriteIf(a: nat, piece: seq<Byte>): seq<Op> {
    if AllBlank(piece) then [] else [ProgramOp(a, piece)]
  }

  /** One turn of the loop: erase the sector if it is not the one at hand, write the piece
      unless it is blank. `last` is the sector at hand, -1 for none. */
  function Turn(erase: bool, a: nat, last: int, piece: seq<Byte>): seq<Op> {
    EraseIf(erase && last != a / SECTOR, a / SECTOR) + WriteIf(a, piece)
  }

  function Plan(erase: bool, a: nat, last: int, d: seq<Byte>): seq<Op>
    decreases |d|
  {
    if d == [] then []
    else
      var n := Min(PAGE, |d|);
      Turn(erase, a, last, d[..n]) + Plan(erase, a + n, a / SECTOR, d[n..])
  }

  /** Every command of a write stays on the chip. */
  lemma {:induction false} PlanFits(m: Mem, erase: bool, a: nat, last: int, d: seq<Byte>)
    requires a + |d| <= |m|
    ensures AllFit(m, Plan(erase, a, last, d))
    decreases |d|
  {
    if d != [] {
      var n := Min(PAGE, |d|);
      assert AllFit(m, Turn(erase, a, last, d[..n]));
      PlanFits(m, erase, a + n, a / SECTOR, d[n..]);
    }
  }

  /** The sector the loop starts from: one it enters in the middle counts as erased. */
  function StartsAt(a: nat): int {
    if a % SECTOR != 0 then a / SECTOR else -1
  }

  /** The next sector boundary at or after `a`. */
  function RoundUp(a: nat): nat {
    (a + SECTOR - 1) / SECTOR * SECTOR
  }

  // ---------------------------------------------------------------- what they do to flash

  /** What byte `k` ends up as. Below the first boundary flash was not erased. */
  function Final(m: Mem, a: nat, d: seq<Byte>, k: nat): Byte
    requires a + |d| <= |m| && k < |m|
  {
    if a <= k < a + |d| then if k < RoundUp(a) then Programmed(m[k], d[k - a]) else d[k - a]
    else if RoundUp(a) <= k < RoundUp(a + |d|) then BLANK
    else m[k]
  }

  ghost predicate Becomes(m: Mem, r: Mem, a: nat, d: seq<Byte>)
    requires a + |d| <= |m|
  {
    |r| == |m| && forall k :: 0 <= k < |m| ==> r[k] == Final(m, a, d, k)
  }

  lemma SectorIs(a: nat, s: nat, o: nat)
    requires a == s * SECTOR + o && o < SECTOR
    ensures a / SECTOR == s && a % SECTOR == o
  {
  }

  lemma RoundsUp(a: nat, s: nat, o: nat)
    requires a == s * SECTOR + o && o < SECTOR
    ensures RoundUp(a) == if o == 0 then a else s * SECTOR + SECTOR
  {
    if o == 0 {
      SectorIs(a + SECTOR - 1, s, SECTOR - 1);
    } else {
      SectorIs(a + SECTOR - 1, s + 1, o - 1);
    }
  }

  lemma PageOffset(a: nat)
    requires a % PAGE == 0
    ensures a % SECTOR <= SECTOR - PAGE && (a + PAGE) % PAGE == 0
  {
  }

  /** Where page-aligned `a` stands in its sector, and what the page after it starts. */
  lemma PageStep(a: nat, n: nat)
    requires a % PAGE == 0 && 0 < n <= PAGE
    ensures a / SECTOR * SECTOR <= a && a + n <= a / SECTOR * SECTOR + SECTOR
    ensures a % SECTOR == 0 ==> RoundUp(a) == a && a / SECTOR * SECTOR == a
    ensures a % SECTOR != 0 ==> RoundUp(a) == a / SECTOR * SECTOR + SECTOR
    ensures RoundUp(a + n) == a / SECTOR * SECTOR + SECTOR
    ensures n == PAGE ==> (a + n) % PAGE == 0
    ensures (a + n) % SECTOR != 0 ==> (a + n) / SECTOR == a / SECTOR
    ensures (a + n) % SECTOR == 0 ==> a / SECTOR < (a + n) / SECTOR
  {
    PageOffset(a);
    StepInSector(a, a / SECTOR, a % SECTOR, n);
  }

  lemma StepInSector(a: nat, s: nat, o: nat, n: nat)
    requires a == s * SECTOR + o && o < SECTOR && 0 < n && o + n <= SECTOR
    ensures RoundUp(a) == if o == 0 then a else s * SECTOR + SECTOR
    ensures RoundUp(a + n) == s * SECTOR + SECTOR
    ensures (a + n) % SECTOR != 0 ==> (a + n) / SECTOR == s
    ensures (a + n) % SECTOR == 0 ==> s < (a + n) / SECTOR
  {
    RoundsUp(a, s, o);
    if o + n < SECTOR {
      SectorIs(a + n, s, o + n);
      RoundsUp(a + n, s, o + n);
    } else {
      SectorIs(a + n, s + 1, 0);
      RoundsUp(a + n, s + 1, 0);
    }
  }

  lemma StillAtHand(a: nat, n: nat, d: seq<Byte>)
    requires a % PAGE == 0 && n == Min(PAGE, |d|) && 0 < n
    ensures n < |d| ==> (a + n) % PAGE == 0
    ensures AtHand(a + n, a / SECTOR)
  {
    PageStep(a, n);
  }

  /** `last` is right for a loop about to continue at `a`. */
  predicate AtHand(a: nat, last: int) {
    if a % SECTOR != 0 then last == a / SECTOR else last < a / SECTOR
  }

  /** Byte `k` after the turn at page-aligned `a`, in the sector that starts at `base`. */
  function Turned(m: Mem, a: nat, piece: seq<Byte>, base: nat, k: nat): Byte
    requires k < |m|
  {
    var was := if a == base && base <= k < base + SECTOR then BLANK else m[k];
    if a <= k < a + |piece| then Programmed(was, piece[k - a]) else was
  }

  predicate TurnsTo(m: Mem, r: Mem, a: nat, piece: seq<Byte>, base: nat) {
    |r| == |m| && forall k :: 0 <= k < |m| ==> r[k] == Turned(m, a, piece, base, k)
  }

  lemma EraseDoes(m: Mem, a: nat, last: int, base: nat) returns (r: Mem)
    requires base == a / SECTOR * SECTOR && (last != a / SECTOR <==> a == base)
    ensures AllFit(m, EraseIf(last != a / SECTOR, a / SECTOR)) && r == Run(m, EraseIf(last != a / SECTOR, a / SECTOR))
    ensures |r| == |m|
    ensures forall k :: 0 <= k < |m| ==> r[k] == if a == base && base <= k < base + SECTOR then BLANK else m[k]
  {
    RunOne(m, EraseOp(a / SECTOR));
    r := Run(m, EraseIf(last != a / SECTOR, a / SECTOR));
  }

  /** Leaving out a blank page comes to the same as writing it. */
  lemma SkippedPage(m: Mem, a: nat, piece: seq<Byte>)
    requires a + |piece| <= |m| && AllBlank(piece)
    ensures Apply(m, ProgramOp(a, piece)) == m
  {
    var r := Apply(m, ProgramOp(a, piece));
    forall k | 0 <= k < |m|
      ensures r[k] == m[k]
    {
      if a <= k < a + |piece| {
        ProgrammingBlank(m[k], piece[k - a]);
      }
    }
  }

  lemma WriteDoes(m: Mem, a: nat, piece: seq<Byte>)
    requires a + |piece| <= |m|
    ensures AllFit(m, WriteIf(a, piece)) && Run(m, WriteIf(a, piece)) == Apply(m, ProgramOp(a, piece))
  {
    RunOne(m, ProgramOp(a, piece));
    if AllBlank(piece) {
      SkippedPage(m, a, piece);
    }
  }

  lemma TurnDoes(m: Mem, a: nat, last: int, piece: seq<Byte>, base: nat) returns (r: Mem)
    requires a % PAGE == 0 && 0 < |piece| <= PAGE && a + |piece| <= |m| && AtHand(a, last)
    requires base == a / SECTOR * SECTOR
    ensures AllFit(m, Turn(true, a, last, piece)) && r == Run(m, Turn(true, a, last, piece))
    ensures TurnsTo(m, r, a, piece, base)
  {
    PageStep(a, |piece|);
    var m1 := EraseDoes(m, a, last, base);
    WriteDoes(m1, a, piece);
    r := Apply(m1, ProgramOp(a, piece));
    RunConcat(m, EraseIf(last != a / SECTOR, a / SECTOR), WriteIf(a, piece));
    Combine(m, m1, a, piece, base);
  }

  lemma Combine(m: Mem, m1: Mem, a: nat, piece: seq<Byte>, base: nat)
    requires a + |piece| <= |m| == |m1|
    requires forall k :: 0 <= k < |m| ==> m1[k] == if a == base && base <= k < base + SECTOR then BLANK else m[k]
    ensures TurnsTo(m, Apply(m1, ProgramOp(a, piece)), a, piece, base)
  {
    var r := Apply(m1, ProgramOp(a, piece));
    forall k | 0 <= k < |m|
      ensures r[k] == Turned(m, a, piece, base, k)
    {
      assert r[k] == if a <= k < a + |piece| then Programmed(m1[k], piece[k - a]) else m1[k];
    }
  }

  /** The rest of the loop, after one turn, does what the whole loop should. */
  lemma Further(m: Mem, m1: Mem, r: Mem, a: nat, b: nat, d: seq<Byte>, piece: seq<Byte>, more: seq<Byte>, base: nat)
    requires d != [] && Splits(d, piece, more) && b == a + |piece|
    requires a % PAGE == 0 && a + |d| <= |m| && base == a / SECTOR * SECTOR
    requires |m1| == |m| && TurnsTo(m, m1, a, piece, base) && Becomes(m1, r, b, more)
    ensures Becomes(m, r, a, d)
  {
    PageStep(a, |piece|);
    assert RoundUp(a + |d|) >= RoundUp(b);
    forall k | 0 <= k < |m|
      ensures r[k] == Final(m, a, d, k)
    {
      assert r[k] == Final(m1, b, more, k);
      assert m1[k] == Turned(m, a, piece, base, k);
    }
  }

  predicate Splits(d: seq<Byte>, piece: seq<Byte>, more: seq<Byte>) {
    |piece| == Min(PAGE, |d|) && d == piece + more
  }

  /** The first turn, and what is left for the next. */
  lemma PlanUnfolds(a: nat, last: int, d: seq<Byte>) returns (piece: seq<Byte>, more: seq<Byte>, b: nat)
    requires d != [] && a % PAGE == 0
    ensures Splits(d, piece, more) && 0 < |piece| <= PAGE && |more| < |d| && b == a + |piece| && b + |more| == a + |d|
    ensures Plan(true, a, last, d) == Turn(true, a, last, piece) + Plan(true, b, a / SECTOR, more)
    ensures (more != [] ==> b % PAGE == 0) && AtHand(b, a / SECTOR)
  {
    var n := Min(PAGE, |d|);
    piece, more, b := d[..n], d[n..], a + n;
    StillAtHand(a, n, d);
  }

  /** The same for any start. */
  lemma PlanCuts(a: nat, last: int, d: seq<Byte>, plan: seq<Op>)
      returns (piece: seq<Byte>, more: seq<Byte>, turn: seq<Op>, rest: seq<Op>, b: nat, s: int)
    requires d != [] && plan == Plan(true, a, last, d)
    ensures |piece| == Min(PAGE, |d|) && |more| < |d| && d == piece + more && plan == turn + rest && s == a / SECTOR
    ensures turn == Turn(true, a, last, piece) && b == a + |piece| && rest == Plan(true, b, s, more)
  {
    var n := Min(PAGE, |d|);
    piece, more, b, s := d[..n], d[n..], a + n, a / SECTOR;
    turn, rest := Turn(true, a, last, piece), Plan(true, b, s, more);
  }

  lemma {:induction false} PlanContents(m: Mem, a: nat, last: int, d: seq<Byte>) returns (r: Mem)
    requires (d != [] ==> a % PAGE == 0) && a + |d| <= |m| && AtHand(a, last)
    ensures AllFit(m, Plan(true, a, last, d)) && r == Run(m, Plan(true, a, last, d))
    ensures Becomes(m, r, a, d)
    decreases |d|
  {
    if d == [] {
      r := m;
    } else {
      var piece, more, b := PlanUnfolds(a, last, d);
      var s, base := a / SECTOR, a / SECTOR * SECTOR;
      var m1 := TurnDoes(m, a, last, piece, base);
      r := PlanContents(m1, b, s, more);
      RunConcat(m, Turn(true, a, last, piece), Plan(true, b, s, more));
      Further(m, m1, r, a, b, d, piece, more, base);
    }
  }

  /** Writing a file to a sector boundary, on a device that does what it is told: flash holds
      the file, skipped pages included, the rest of the touched sectors is blank, and no other
      sector changes. Whatever was there before does not matter. */
  lemma WriteStores(m: Mem, a: nat, d: seq<Byte>)
    requires a % SECTOR == 0 && a + |d| <= |m|
    ensures AllFit(m, Plan(true, a, StartsAt(a), d))
    ensures var r := Run(m, Plan(true, a, StartsAt(a), d));
            && Holds(r, a, d)
            && (forall k :: a + |d| <= k < RoundUp(a + |d|) && k < |m| ==> r[k] == BLANK)
            && SameOutside(m, r, a, RoundUp(a + |d|))
  {
    var r := PlanContents(m, a, StartsAt(a), d);
    BoundaryStart(m, r, a, d);
  }

  lemma BoundaryStart(m: Mem, r: Mem, a: nat, d: seq<Byte>)
    requires a % SECTOR == 0 && a + |d| <= |m| && Becomes(m, r, a, d)
    ensures Holds(r, a, d) && SameOutside(m, r, a, RoundUp(a + |d|))
    ensures forall k :: a + |d| <= k < RoundUp(a + |d|) && k < |m| ==> r[k] == BLANK
  {
    var hi := RoundUp(a + |d|);
    assert RoundUp(a) == a && a + |d| <= hi;
    forall k | 0 <= k < |m|
      ensures r[k] == if a <= k < a + |d| then d[k - a] else if a <= k < hi then BLANK else m[k]
    {
      assert r[k] == Final(m, a, d, k);
    }
  }

  // ---------------------------------------------------------------- the order of the commands

  /** Sectors are erased in ascending order, so none twice, and whatever is written goes into
      the sector erased last, so after its erase. */
  predicate Ordered(ops: seq<Op>, last: int)
    decreases |ops|
  {
    ops != [] ==>
      match ops[0]
      case EraseOp(s) => s > last && Ordered(ops[1..], s)
      case ProgramOp(a, d) =>
        last >= 0 && OpWithin(ops[0], last * SECTOR, last * SECTOR + SECTOR) && Ordered(ops[1..], last)
  }

  lemma {:induction false} PlanOrdered(a: nat, last: int, d: seq<Byte>)
    requires (d != [] ==> a % PAGE == 0) && AtHand(a, last)
    ensures Ordered(Plan(true, a, last, d), last)
    decreases |d|
  {
    if d != [] {
      var piece, more, b := PlanUnfolds(a, last, d);
      PlanOrdered(b, a / SECTOR, more);
      PageStep(a, |piece|);
      WriteOrdered(a, piece, Plan(true, b, a / SECTOR, more));
      TurnOrdered(a, last, piece, Plan(true, b, a / SECTOR, more));
    }
  }

  lemma TurnOrdered(a: nat, last: int, piece: seq<Byte>, rest: seq<Op>)
    requires AtHand(a, last) && Ordered(WriteIf(a, piece) + rest, a / SECTOR)
    ensures Ordered(Turn(true, a, last, piece) + rest, last)
  {
    var tail := WriteIf(a, piece) + rest;
    assert Turn(true, a, last, piece) + rest == EraseIf(last != a / SECTOR, a / SECTOR) + tail;
    if last != a / SECTOR {
      assert ([EraseOp(a / SECTOR)] + tail)[1..] == tail;
    } else {
      assert [] + tail == tail;
    }
  }

  lemma WriteOrdered(a: nat, piece: seq<Byte>, rest: seq<Op>)
    requires Ordered(rest, a / SECTOR) && a + |piece| <= a / SECTOR * SECTOR + SECTOR
    ensures Ordered(WriteIf(a, piece) + rest, a / SECTOR)
  {
    if AllBlank(piece) {
      assert [] + rest == rest;
    } else {
      assert ([ProgramOp(a, piece)] + rest)[1..] == rest;
    }
  }

  /** What the order means for two commands of the list. */
  lemma {:induction false} OrderedPair(ops: seq<Op>, last: int, i: nat, j: nat)
    requires Ordered(ops, last) && i < j < |ops|
    ensures ops[i].EraseOp? && ops[j].EraseOp? ==> ops[i].sector < ops[j].sector
    ensures ops[i].ProgramOp? && ops[j].EraseOp? ==>
              ops[i].addr + |ops[i].data| <= ops[j].sector * SECTOR
    decreases i
  {
    if i > 0 {
      OrderedPair(ops[1..], if ops[0].EraseOp? then ops[0].sector else last, i - 1, j - 1);
    } else {
      if ops[j].EraseOp? {
        LaterErase(ops[1..], if ops[0].EraseOp? then ops[0].sector else last, j - 1);
      }
    }
  }

  lemma {:induction false} LaterErase(ops: seq<Op>, last: int, j: nat)
    requires Ordered(ops, last) && j < |ops| && ops[j].EraseOp?
    ensures ops[j].sector > last
    decreases j
  {
    if j > 0 {
      LaterErase(ops[1..], if ops[0].EraseOp? then ops[0].sector else last, j - 1);
    }
  }

  /** Every write follows the erase of its own sector. */
  lemma {:induction false} ErasedBefore(ops: seq<Op>, last: int, j: nat) returns (i: int)
    requires Ordered(ops, last) && j < |ops| && ops[j].ProgramOp?
    ensures -1 <= i < j
    ensures i == -1 ==> last >= 0 && OpWithin(ops[j], last * SECTOR, last * SECTOR + SECTOR)
    ensures i >= 0 ==> ops[i].EraseOp? && OpWithin(ops[j], ops[i].sector * SECTOR, ops[i].sector * SECTOR + SECTOR)
    decreases j
  {
    if j == 0 {
      i := -1;
    } else {
      var next := if ops[0].EraseOp? then ops[0].sector else last;
      i := ErasedBefore(ops[1..], next, j - 1);
      if i >= 0 || ops[0].EraseOp? {
        i := i + 1;
      }
    }
  }

  ghost predicate ErasesAscend(ops: seq<Op>) {
    forall i, j :: 0 <= i < j < |ops| && ops[i].EraseOp? && ops[j].EraseOp? ==> ops[i].sector < ops[j].sector
  }

  /** Command `i` erases the sector command `j` writes to. */
  predicate Prepares(ops: seq<Op>, i: int, j: int) {
    && 0 <= i < j < |ops| && ops[i].EraseOp?
    && OpWithin(ops[j], ops[i].sector * SECTOR, ops[i].sector * SECTOR + SECTOR)
  }

  ghost predicate WritesPrepared(ops: seq<Op>) {
    forall j :: 0 <= j < |ops| && ops[j].ProgramOp? ==> exists i :: Prepares(ops, i, j)
  }

  lemma OrderedMeans(ops: seq<Op>)
    requires Ordered(ops, -1)
    ensures ErasesAscend(ops) && WritesPrepared(ops)
  {
    forall i, j | 0 <= i < j < |ops| && ops[i].EraseOp? && ops[j].EraseOp?
      ensures ops[i].sector < ops[j].sector
    {
      OrderedPair(ops, -1, i, j);
    }
    forall j | 0 <= j < |ops| && ops[j].ProgramOp?
      ensures exists i :: Prepares(ops, i, j)
    {
      var i := ErasedBefore(ops, -1, j);
      assert Prepares(ops, i, j);
    }
  }

  /** For a write from a sector boundary: each sector is erased at most once, and before its
      first write. */
  lemma ErasedOnceBeforeWritten(a: nat, d: seq<Byte>)
    requires a % SECTOR == 0
    ensures ErasesAscend(Plan(true, a, StartsAt(a), d)) && WritesPrepared(Plan(true, a, StartsAt(a), d))
  {
    PlanOrdered(a, -1, d);
    OrderedMeans(Plan(true, a, -1, d));
  }
}
