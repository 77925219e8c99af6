/** When success reported by the programmer means that the file is stored. */
module TlsrArrival {
  import opened Bytes
  import opened NorFlash
  import opened Programmer
  import opened TlsrLine

  lemma FitsAlike(m: Mem, r: Mem, ops: seq<Op>)
    requires AllFit(m, ops) && |m| == |r|
    ensures AllFit(r, ops)
  {
  }

  predicate Touches(op: Op, k: nat) {
    match op
    case EraseOp(s) => s * SECTOR <= k < s * SECTOR + SECTOR
    case ProgramOp(a, d) => a <= k < a + |d|
  }

  /** Some command of the list erases byte `k`. */
  predicate Erases(ops: seq<Op>, k: nat)
    decreases |ops|
  {
    ops != [] && ((ops[0].EraseOp? && Touches(ops[0], k)) || Erases(ops[1..], k))
  }

  /** Some command of the list programs byte `k`. */
  predicate Writes(ops: seq<Op>, k: nat)
    decreases |ops|
  {
    ops != [] && ((ops[0].ProgramOp? && Touches(ops[0], k)) || Writes(ops[1..], k))
  }

  /** Some command of the list programs byte `k`, and none behind it erases it. */
  predicate Sticks(ops: seq<Op>, k: nat)
    decreases |ops|
  {
    ops != [] &&
    ((ops[0].ProgramOp? && Touches(ops[0], k) && !Erases(ops[1..], k)) || Sticks(ops[1..], k))
  }

  /** What is written are pieces of `d`, the file for address `a`, one behind the other from
      `lo` on, none of them blank. */
  predicate Rising(ops: seq<Op>, a: nat, d: seq<Byte>, lo: nat)
    decreases |ops|
  {
    ops != [] ==>
      match ops[0]
      case EraseOp(_) => Rising(ops[1..], a, d, lo)
      case ProgramOp(at, piece) =>
        && a <= at && lo <= at && !AllBlank(piece) && PieceOf(piece, d, at - a)
        && Rising(ops[1..], a, d, at + |piece|)
  }

  lemma {:induction false} RisingFrom(ops: seq<Op>, a: nat, d: seq<Byte>, lo: nat, j: nat)
    requires Rising(ops, a, d, lo) && j < |ops| && ops[j].ProgramOp?
    ensures a <= ops[j].addr && lo <= ops[j].addr
    ensures !AllBlank(ops[j].data) && PieceOf(ops[j].data, d, ops[j].addr - a)
    decreases j
  {
    if j > 0 {
      RisingFrom(ops[1..], a, d, if ops[0].ProgramOp? then ops[0].addr + |ops[0].data| else lo, j - 1);
    }
  }

  /** Every command carried out is one of the list. */
  lemma {:induction false} FromPlan(plan: seq<Op>, line: Line, n: nat, i: nat) returns (j: nat)
    requires i < |Heeded(plan, line, n)|
    ensures j < |plan| && plan[j] == Heeded(plan, line, n)[i] && !line(n + j).Refused?
    decreases |plan|
  {
    if !line(n).Refused? && i == 0 {
      j := 0;
    } else {
      j := FromPlan(plan[1..], line, n + 1, if line(n).Refused? then i else i - 1);
      j := j + 1;
    }
  }

  /** Every command of the list that is not refused is carried out. */
  lemma {:induction false} IntoHeeded(plan: seq<Op>, line: Line, n: nat, j: nat) returns (i: nat)
    requires j < |plan| && !line(n + j).Refused?
    ensures i < |Heeded(plan, line, n)| && Heeded(plan, line, n)[i] == plan[j]
    decreases |plan|
  {
    if j == 0 {
      i := 0;
    } else {
      i := IntoHeeded(plan[1..], line, n + 1, j - 1);
      i := if line(n).Refused? then i else i + 1;
    }
  }

  // ---------------------------------------------------------------- one byte

  /** What byte `k` becomes: its sector erased or not, and its page programmed for good or not. */
  function Becoming(was: Byte, erased: bool, written: bool, b: Byte): Byte {
    var base := if erased then BLANK else was;
    if written then Programmed(base, b) else base
  }

  lemma {:induction false} NoWriteBelow(ops: seq<Op>, a: nat, d: seq<Byte>, lo: nat, k: nat)
    requires Rising(ops, a, d, lo) && k < lo
    ensures !Writes(ops, k) && !Sticks(ops, k)
    decreases |ops|
  {
    if ops != [] {
      NoWriteBelow(ops[1..], a, d, if ops[0].ProgramOp? then ops[0].addr + |ops[0].data| else lo, k);
    }
  }

  lemma FirstByte(m: Mem, op: Op, a: nat, d: seq<Byte>, k: nat)
    requires Fits(m, op) && a <= k < a + |d| && k < |m|
    requires op.ProgramOp? ==> a <= op.addr && PieceOf(op.data, d, op.addr - a)
    ensures Apply(m, op)[k] ==
            if !Touches(op, k) then m[k] else if op.EraseOp? then BLANK else Programmed(m[k], d[k - a])
  {
    if op.ProgramOp? && Touches(op, k) {
      assert op.data[k - op.addr] == d[(op.addr - a) + (k - op.addr)];
    }
  }

  /** The contents after any list of pieces of the file and erases, in whatever order: each byte
      is what its last erase and a write behind that made of it. */
  lemma {:induction false} ByteAfter(m: Mem, ops: seq<Op>, a: nat, d: seq<Byte>, lo: nat, k: nat) returns (r: Byte)
    requires AllFit(m, ops) && Rising(ops, a, d, lo) && a <= k < a + |d| && k < |m|
    ensures r == Run(m, ops)[k] == Becoming(m[k], Erases(ops, k), Sticks(ops, k), d[k - a])
    decreases |ops|
  {
    r := m[k];
    if ops != [] {
      var op, lo' := ops[0], if ops[0].ProgramOp? then ops[0].addr + |ops[0].data| else lo;
      FirstByte(m, op, a, d, k);
      if op.ProgramOp? && Touches(op, k) {
        NoWriteBelow(ops[1..], a, d, lo', k);
      }
      r := ByteAfter(Apply(m, op), ops[1..], a, d, lo', k);
    }
  }

  lemma {:induction false} RisingHeeded(ops: seq<Op>, a: nat, d: seq<Byte>, lo: nat, line: Line, n: nat)
    requires Rising(ops, a, d, lo)
    ensures Rising(Heeded(ops, line, n), a, d, lo)
    decreases |ops|
  {
    if ops != [] {
      var rest, lo' := Heeded(ops[1..], line, n + 1), if ops[0].ProgramOp? then ops[0].addr + |ops[0].data| else lo;
      RisingHeeded(ops[1..], a, d, lo', line, n + 1);
      if line(n).Refused? {
        RisingSooner(rest, a, d, lo', lo);
        assert Heeded(ops, line, n) == rest;
      } else {
        assert Heeded(ops, line, n)[1..] == rest;
      }
    }
  }

  /** Nothing is erased or written that the list does not. */
  lemma {:induction false} HeededTouch(ops: seq<Op>, line: Line, n: nat, k: nat)
    ensures Erases(Heeded(ops, line, n), k) ==> Erases(ops, k)
    ensures Writes(Heeded(ops, line, n), k) ==> Writes(ops, k)
    decreases |ops|
  {
    if ops != [] {
      HeededTouch(ops[1..], line, n + 1, k);
      HeededFirst(ops, line, n);
    }
  }

  lemma HeededFirst(ops: seq<Op>, line: Line, n: nat)
    requires ops != []
    ensures var done, rest := Heeded(ops, line, n), Heeded(ops[1..], line, n + 1);
            if line(n).Refused? then done == rest else done != [] && done[0] == ops[0] && done[1..] == rest
  {
  }

  lemma HeededWrites(ops: seq<Op>, line: Line, n: nat, k: nat)
    requires ops != []
    ensures Writes(Heeded(ops, line, n), k) <==>
            || (!line(n).Refused? && ops[0].ProgramOp? && Touches(ops[0], k))
            || Writes(Heeded(ops[1..], line, n + 1), k)
  {
    HeededFirst(ops, line, n);
  }

  lemma {:induction false} NoEraseBelow(ops: seq<Op>, last: int, k: nat)
    requires Ordered(ops, last) && k < (last + 1) * SECTOR
    ensures !Erases(ops, k)
    decreases |ops|
  {
    if ops != [] {
      NoEraseBelow(ops[1..], if ops[0].EraseOp? then ops[0].sector else last, k);
    }
  }

  /** In an ordered list a write is never erased again, whatever is refused. */
  lemma {:induction false} WrittenForGood(ops: seq<Op>, last: int, line: Line, n: nat, k: nat)
    requires Ordered(ops, last)
    ensures Sticks(Heeded(ops, line, n), k) <==> Writes(Heeded(ops, line, n), k)
    decreases |ops|
  {
    if ops != [] {
      WrittenForGood(ops[1..], if ops[0].EraseOp? then ops[0].sector else last, line, n + 1, k);
      HeededFirst(ops, line, n);
      if ops[0].ProgramOp? && Touches(ops[0], k) {
        NoEraseBelow(ops[1..], last, k);
        HeededTouch(ops[1..], line, n + 1, k);
      }
    }
  }

  lemma {:induction false} ErasesIndex(ops: seq<Op>, k: nat, j: nat)
    requires j < |ops| && ops[j].EraseOp? && Touches(ops[j], k)
    ensures Erases(ops, k)
    decreases j
  {
    if j > 0 {
      ErasesIndex(ops[1..], k, j - 1);
    }
  }

  lemma {:induction false} WritesIndex(ops: seq<Op>, k: nat, j: nat)
    requires j < |ops| && ops[j].ProgramOp? && Touches(ops[j], k)
    ensures Writes(ops, k)
    decreases j
  {
    if j > 0 {
      WritesIndex(ops[1..], k, j - 1);
    }
  }

  lemma RisingWrite(b: nat, piece: seq<Byte>, rest: seq<Op>, a: nat, d: seq<Byte>, lo: nat, at: nat, c: nat)
    requires b == a + at && lo <= b && PieceOf(piece, d, at) && c == b + |piece| && Rising(rest, a, d, c)
    ensures Rising(WriteIf(b, piece) + rest, a, d, lo)
  {
    var tail := WriteIf(b, piece) + rest;
    if AllBlank(piece) {
      assert tail == rest;
      RisingSooner(rest, a, d, c, lo);
    } else {
      assert tail[1..] == rest;
    }
  }

  lemma RisingErase(first: seq<Op>, tail: seq<Op>, a: nat, d: seq<Byte>, lo: nat)
    requires |first| <= 1 && (first != [] ==> first[0].EraseOp?) && Rising(tail, a, d, lo)
    ensures Rising(first + tail, a, d, lo)
  {
    if first != [] {
      assert (first + tail)[1..] == tail;
    } else {
      assert first + tail == tail;
    }
  }

  /** The commands of a turn, then those of the rest. */
  lemma RisingTurn(b: nat, last: int, piece: seq<Byte>, rest: seq<Op>, a: nat, d: seq<Byte>, lo: nat, at: nat, c: nat)
    requires b == a + at && lo <= b && PieceOf(piece, d, at) && c == b + |piece| && Rising(rest, a, d, c)
    ensures Rising(Turn(true, b, last, piece) + rest, a, d, lo)
  {
    var first, write := EraseIf(last != b / SECTOR, b / SECTOR), WriteIf(b, piece);
    RisingWrite(b, piece, rest, a, d, lo, at, c);
    RisingErase(first, write + rest, a, d, lo);
    assert first + write + rest == first + (write + rest);
  }

  lemma {:induction false} RisingSooner(ops: seq<Op>, a: nat, d: seq<Byte>, lo: nat, lower: nat)
    requires Rising(ops, a, d, lo) && lower <= lo
    ensures Rising(ops, a, d, lower)
    decreases |ops|
  {
    if ops != [] && ops[0].EraseOp? {
      RisingSooner(ops[1..], a, d, lo, lower);
    }
  }

  lemma PieceSplits(both: seq<Byte>, piece: seq<Byte>, tail: seq<Byte>, d: seq<Byte>, at: nat) returns (next: nat)
    requires PieceOf(both, d, at) && both == piece + tail
    ensures next == at + |piece| && PieceOf(piece, d, at) && PieceOf(tail, d, next)
  {
    next := at + |piece|;
    forall k | 0 <= k < |piece|
      ensures piece[k] == d[at + k]
    {
      assert both[k] == piece[k];
    }
    forall k | 0 <= k < |tail|
      ensures tail[k] == d[next + k]
    {
      assert both[|piece| + k] == tail[k];
    }
  }

  lemma {:induction false} PlanRising(b: nat, last: int, more: seq<Byte>, plan: seq<Op>, a: nat, d: seq<Byte>, at: nat)
    requires b == a + at && PieceOf(more, d, at) && plan == Plan(true, b, last, more)
    ensures Rising(plan, a, d, b)
    decreases |more|
  {
    if more != [] {
      var piece, tail, turn, rest, c, s := PlanCuts(b, last, more, plan);
      var next := PieceSplits(more, piece, tail, d, at);
      PlanRising(c, s, tail, rest, a, d, next);
      RisingTurn(b, last, piece, rest, a, d, b, at, c);
    }
  }

  /** Every byte from the first sector boundary on lies in a sector the plan erases. */
  lemma {:induction false} PlanErases(a: nat, last: int, d: seq<Byte>, k: nat) returns (j: nat)
    requires d != [] && a % PAGE == 0 && AtHand(a, last) && RoundUp(a) <= k < a + |d|
    ensures j < |Plan(true, a, last, d)| && Plan(true, a, last, d)[j].EraseOp? && Touches(Plan(true, a, last, d)[j], k)
    decreases |d|
  {
    var piece, more, b := PlanUnfolds(a, last, d);
    var turn := Turn(true, a, last, piece);
    PageStep(a, |piece|);
    if a % SECTOR == 0 && k < a / SECTOR * SECTOR + SECTOR {
      j := 0;
      assert turn[0] == EraseOp(a / SECTOR);
    } else {
      j := PlanErases(b, a / SECTOR, more, k);
      j := |turn| + j;
    }
  }

  /** Command `j` of the list writes byte `k`; -1 stands for none, which is right for a blank. */
  predicate WrittenAt(ops: seq<Op>, k: nat, j: int, b: Byte) {
    if j < 0 then b == BLANK else j < |ops| && ops[j].ProgramOp? && Touches(ops[j], k)
  }

  /** A turn writes every byte of its piece, unless the piece is blank. */
  lemma TurnWrites(a: nat, last: int, piece: seq<Byte>, turn: seq<Op>, k: nat) returns (j: int)
    requires a <= k < a + |piece| && turn == Turn(true, a, last, piece)
    ensures WrittenAt(turn, k, j, piece[k - a])
  {
    j := if AllBlank(piece) then -1 else |turn| - 1;
  }

  lemma WrittenIn(turn: seq<Op>, rest: seq<Op>, k: nat, j: int, b: Byte)
    ensures WrittenAt(turn, k, j, b) ==> WrittenAt(turn + rest, k, j, b)
    ensures WrittenAt(rest, k, j, b) ==> WrittenAt(turn + rest, k, if j < 0 then j else |turn| + j, b)
  {
  }

  /** Every byte of the file lies in a page the plan writes, or is blank. */
  lemma {:induction false} PlanWrites(a: nat, last: int, d: seq<Byte>, plan: seq<Op>, k: nat) returns (j: int)
    requires a <= k < a + |d| && plan == Plan(true, a, last, d)
    ensures WrittenAt(plan, k, j, d[k - a])
    decreases |d|
  {
    var piece, more, turn, rest, b, s := PlanCuts(a, last, d, plan);
    if k < b {
      j := TurnWrites(a, last, piece, turn, k);
      WrittenIn(turn, rest, k, j, d[k - a]);
    } else {
      j := PlanWrites(b, s, more, rest, k);
      WrittenIn(turn, rest, k, j, d[k - a]);
      j := if j < 0 then j else |turn| + j;
    }
  }

  /** No erase of the list is refused. */
  predicate ErasesHeeded(plan: seq<Op>, line: Line, n: nat) {
    forall j :: 0 <= j < |plan| && plan[j].EraseOp? ==> !line(n + j).Refused?
  }

  /** No write of the list is refused. */
  predicate WritesHeeded(plan: seq<Op>, line: Line, n: nat) {
    forall j :: 0 <= j < |plan| && plan[j].ProgramOp? ==> !line(n + j).Refused?
  }

  /** What byte `k` of the file must find: its sector erased, or something that the byte can be
      programmed over; and its page written, and not erased again, unless the byte is there already. */
  predicate Arrives(m: Mem, a: nat, d: seq<Byte>, done: seq<Op>, k: nat)
    requires a <= k < a + |d| <= |m|
  {
    Becoming(m[k], Erases(done, k), Sticks(done, k), d[k - a]) == d[k - a]
  }

  lemma HeededFits(m: Mem, ops: seq<Op>, line: Line, n: nat)
    requires AllFit(m, ops)
    ensures AllFit(m, Heeded(ops, line, n))
  {
    forall i | 0 <= i < |Heeded(ops, line, n)|
      ensures Fits(m, Heeded(ops, line, n)[i])
    {
      var j := FromPlan(ops, line, n, i);
    }
  }

  lemma HeldBytes(m: Mem, r: Mem, a: nat, d: seq<Byte>, done: seq<Op>)
    requires a + |d| <= |m| == |r|
    requires forall k :: a <= k < a + |d| ==> (r[k] == d[k - a] <==> Arrives(m, a, d, done, k))
    ensures Holds(r, a, d) <==> forall k :: a <= k < a + |d| ==> Arrives(m, a, d, done, k)
  {
  }

  lemma ListArrives(m: Mem, ops: seq<Op>, a: nat, d: seq<Byte>)
    requires AllFit(m, ops) && Rising(ops, a, d, a) && a + |d| <= |m|
    ensures Holds(Run(m, ops), a, d) <==> forall k :: a <= k < a + |d| ==> Arrives(m, a, d, ops, k)
  {
    var r := Run(m, ops);
    forall k | a <= k < a + |d|
      ensures r[k] == d[k - a] <==> Arrives(m, a, d, ops, k)
    {
      var same := ByteAfter(m, ops, a, d, a, k);
    }
    HeldBytes(m, r, a, d, ops);
  }

  /** Whatever is answered, as long as success is reported, and wherever the file starts: it is in
      flash exactly if each of its bytes arrived. */
  lemma ArrivesIff(m: Mem, a: nat, d: seq<Byte>, line: Line, n: nat) returns (plan: seq<Op>, done: seq<Op>)
    requires a + |d| <= |m|
    requires Carry(Plan(true, a, StartsAt(a), d), line, n, ERR_RETRY_COUNT).ok
    ensures plan == Plan(true, a, StartsAt(a), d) && AllFit(m, plan) && Rising(plan, a, d, a)
    ensures done == Carry(plan, line, n, ERR_RETRY_COUNT).done == Heeded(plan, line, n) && AllFit(m, done)
    ensures Holds(Run(m, done), a, d) <==> forall k :: a <= k < a + |d| ==> Arrives(m, a, d, done, k)
  {
    plan := Plan(true, a, StartsAt(a), d);
    PlanFits(m, true, a, StartsAt(a), d);
    PlanRising(a, StartsAt(a), d, plan, a, d, 0);
    NeverRetried(plan, line, n, ERR_RETRY_COUNT);
    done := Heeded(plan, line, n);
    HeededFits(m, plan, line, n);
    RisingHeeded(plan, a, d, a, line, n);
    ListArrives(m, done, a, d);
  }

  // ---------------------------------------------------------------- on the page grid

  lemma GridOrdered(a: nat, d: seq<Byte>)
    requires a % PAGE == 0
    ensures AtHand(a, StartsAt(a)) && Ordered(Plan(true, a, StartsAt(a), d), StartsAt(a))
  {
    PlanOrdered(a, StartsAt(a), d);
  }

  /** The same on the page grid, where no write is erased again. */
  lemma GridArrives(m: Mem, a: nat, d: seq<Byte>, line: Line, n: nat, done: seq<Op>, k: nat)
    requires a % PAGE == 0 && a <= k < a + |d| <= |m| && done == Heeded(Plan(true, a, StartsAt(a), d), line, n)
    ensures Arrives(m, a, d, done, k) <==>
            Becoming(m[k], Erases(done, k), Writes(done, k), d[k - a]) == d[k - a]
  {
    GridOrdered(a, d);
    WrittenForGood(Plan(true, a, StartsAt(a), d), StartsAt(a), line, n, k);
  }

  lemma ErasedAll(a: nat, d: seq<Byte>, line: Line, n: nat, k: nat)
    requires a % PAGE == 0 && a <= k < a + |d| && RoundUp(a) <= k
    requires ErasesHeeded(Plan(true, a, StartsAt(a), d), line, n)
    ensures Erases(Heeded(Plan(true, a, StartsAt(a), d), line, n), k)
  {
    var plan := Plan(true, a, StartsAt(a), d);
    GridOrdered(a, d);
    var j := PlanErases(a, StartsAt(a), d, k);
    var i := IntoHeeded(plan, line, n, j);
    ErasesIndex(Heeded(plan, line, n), k, i);
  }

  /** The sector a write starts in the middle of is not erased. */
  lemma NotErased(a: nat, d: seq<Byte>, line: Line, n: nat, k: nat)
    requires a % PAGE == 0 && a <= k < RoundUp(a)
    ensures !Erases(Heeded(Plan(true, a, StartsAt(a), d), line, n), k)
  {
    var plan := Plan(true, a, StartsAt(a), d);
    GridOrdered(a, d);
    PageStep(a, 1);
    NoEraseBelow(plan, StartsAt(a), k);
    HeededTouch(plan, line, n, k);
  }

  /** The write of a byte, if there is one, was carried out. */
  lemma WrittenAll(a: nat, d: seq<Byte>, line: Line, n: nat, j: int, k: nat)
    requires a <= k < a + |d| && WrittenAt(Plan(true, a, StartsAt(a), d), k, j, d[k - a])
    requires 0 <= j ==> !line(n + j).Refused?
    ensures Writes(Heeded(Plan(true, a, StartsAt(a), d), line, n), k) || d[k - a] == BLANK
  {
    var plan := Plan(true, a, StartsAt(a), d);
    if j >= 0 {
      var i := IntoHeeded(plan, line, n, j);
      WritesIndex(Heeded(plan, line, n), k, i);
    }
  }

  lemma RisingNext(ops: seq<Op>, a: nat, d: seq<Byte>, lo: nat) returns (rest: seq<Op>, next: nat)
    requires ops != [] && Rising(ops, a, d, lo)
    ensures rest == ops[1..] && Rising(rest, a, d, next)
    ensures ops[0].ProgramOp? ==> next == ops[0].addr + |ops[0].data|
  {
    rest, next := ops[1..], if ops[0].ProgramOp? then ops[0].addr + |ops[0].data| else lo;
  }

  /** A page that is refused is not written by any other command. */
  lemma {:induction false} RefusedPage(ops: seq<Op>, a: nat, d: seq<Byte>, lo: nat, line: Line, n: nat, j: nat, k: nat)
    requires Rising(ops, a, d, lo) && j < |ops| && ops[j].ProgramOp? && line(n + j).Refused? && Touches(ops[j], k)
    ensures !Writes(Heeded(ops, line, n), k)
    decreases j
  {
    var rest, next := RisingNext(ops, a, d, lo);
    HeededWrites(ops, line, n, k);
    if j == 0 {
      NoWriteBelow(rest, a, d, next, k);
      HeededTouch(rest, line, n + 1, k);
    } else {
      assert rest[j - 1] == ops[j];
      RisingFrom(rest, a, d, next, j - 1);
      RefusedPage(rest, a, d, next, line, n + 1, j - 1, k);
    }
  }

  /** A refused page holds a byte that then is missing. */
  lemma MissingByte(plan: seq<Op>, a: nat, d: seq<Byte>, line: Line, n: nat, j: nat) returns (k: nat)
    requires Rising(plan, a, d, a) && j < |plan| && plan[j].ProgramOp? && line(n + j).Refused?
    ensures a <= k < a + |d| && plan[j].addr <= k && d[k - a] != BLANK && !Writes(Heeded(plan, line, n), k)
  {
    RisingFrom(plan, a, d, a, j);
    var o :| 0 <= o < |plan[j].data| && plan[j].data[o] != BLANK;
    k := plan[j].addr + o;
    assert plan[j].data[o] == d[plan[j].addr - a + o];
    RefusedPage(plan, a, d, a, line, n, j, k);
  }

  /** A write stays in one sector. */
  lemma {:induction false} OneSector(ops: seq<Op>, last: int, j: nat) returns (s: nat)
    requires Ordered(ops, last) && j < |ops| && ops[j].ProgramOp?
    ensures OpWithin(ops[j], s * SECTOR, s * SECTOR + SECTOR)
    decreases j
  {
    if j == 0 {
      s := last;
    } else {
      s := OneSector(ops[1..], if ops[0].EraseOp? then ops[0].sector else last, j - 1);
    }
  }

  /** A page that reaches beyond the first sector boundary starts beyond it. */
  lemma BeyondBoundary(a: nat, d: seq<Byte>, j: nat, k: nat)
    requires a % PAGE == 0 && j < |Plan(true, a, StartsAt(a), d)| && Plan(true, a, StartsAt(a), d)[j].ProgramOp?
    requires Touches(Plan(true, a, StartsAt(a), d)[j], k) && RoundUp(a) <= k
    ensures RoundUp(a) <= Plan(true, a, StartsAt(a), d)[j].addr
  {
    GridOrdered(a, d);
    var s := OneSector(Plan(true, a, StartsAt(a), d), StartsAt(a), j);
    var t := (a + SECTOR - 1) / SECTOR;
    assert t <= s;
  }

  /** No write at or behind `lo` is refused. */
  predicate WritesHeededFrom(plan: seq<Op>, line: Line, n: nat, lo: nat) {
    forall j :: 0 <= j < |plan| && plan[j].ProgramOp? && lo <= plan[j].addr ==> !line(n + j).Refused?
  }

  /** What is asked of the bytes in a sector that the write starts in the middle of. */
  predicate EntryArrives(m: Mem, a: nat, d: seq<Byte>, done: seq<Op>)
    requires a + |d| <= |m|
  {
    forall k :: a <= k < a + |d| && k < RoundUp(a) ==>
      (if Writes(done, k) then Programmed(m[k], d[k - a]) else m[k]) == d[k - a]
  }

  lemma BeyondArrives(m: Mem, a: nat, d: seq<Byte>, line: Line, n: nat, plan: seq<Op>, done: seq<Op>, k: nat)
    requires a % PAGE == 0 && a <= k < a + |d| <= |m| && RoundUp(a) <= k && plan == Plan(true, a, StartsAt(a), d)
    requires ErasesHeeded(plan, line, n) && done == Heeded(plan, line, n)
    ensures Arrives(m, a, d, done, k) <==> Writes(done, k) || d[k - a] == BLANK
    ensures WritesHeededFrom(plan, line, n, RoundUp(a)) ==> Arrives(m, a, d, done, k)
  {
    GridArrives(m, a, d, line, n, done, k);
    ErasedAll(a, d, line, n, k);
    ProgrammingBlank(BLANK, BLANK);
    if WritesHeededFrom(plan, line, n, RoundUp(a)) {
      var j := PlanWrites(a, StartsAt(a), d, plan, k);
      if j >= 0 {
        BeyondBoundary(a, d, j, k);
      }
      WrittenAll(a, d, line, n, j, k);
    }
  }

  /** Success reported and every erase carried out, from the page grid: the file is in flash exactly
      if no write behind the first sector boundary was refused and what comes before it arrived
      over what was there. Answers may have been lost. */
  lemma FileArrivesIff(m: Mem, a: nat, d: seq<Byte>, line: Line, n: nat)
    requires a % PAGE == 0 && a + |d| <= |m|
    requires Carry(Plan(true, a, StartsAt(a), d), line, n, ERR_RETRY_COUNT).ok
    requires ErasesHeeded(Plan(true, a, StartsAt(a), d), line, n)
    ensures var plan := Plan(true, a, StartsAt(a), d);
            var done := Carry(plan, line, n, ERR_RETRY_COUNT).done;
            && AllFit(m, done)
            && (Holds(Run(m, done), a, d) <==>
                  EntryArrives(m, a, d, done) && WritesHeededFrom(plan, line, n, RoundUp(a)))
  {
    var plan, done := ArrivesIff(m, a, d, line, n);
    forall k | a <= k < a + |d|
      ensures Arrives(m, a, d, done, k) <==>
              if k < RoundUp(a) then (if Writes(done, k) then Programmed(m[k], d[k - a]) else m[k]) == d[k - a]
              else Writes(done, k) || d[k - a] == BLANK
      ensures RoundUp(a) <= k && WritesHeededFrom(plan, line, n, RoundUp(a)) ==> Arrives(m, a, d, done, k)
    {
      if k < RoundUp(a) {
        GridArrives(m, a, d, line, n, done, k);
        NotErased(a, d, line, n, k);
      } else {
        BeyondArrives(m, a, d, line, n, plan, done, k);
      }
    }
    if !WritesHeededFrom(plan, line, n, RoundUp(a)) {
      var j :| 0 <= j < |plan| && plan[j].ProgramOp? && RoundUp(a) <= plan[j].addr && line(n + j).Refused?;
      var k := MissingByte(plan, a, d, line, n, j);
      assert !Arrives(m, a, d, done, k);
    }
  }

  /** From a sector boundary the file is in flash exactly if no write was refused. */
  lemma AlignedArrivesIff(m: Mem, a: nat, d: seq<Byte>, line: Line, n: nat)
    requires a % SECTOR == 0 && a + |d| <= |m|
    requires Carry(Plan(true, a, StartsAt(a), d), line, n, ERR_RETRY_COUNT).ok
    requires ErasesHeeded(Plan(true, a, StartsAt(a), d), line, n)
    ensures var plan := Plan(true, a, StartsAt(a), d);
            var done := Carry(plan, line, n, ERR_RETRY_COUNT).done;
            AllFit(m, done) && (Holds(Run(m, done), a, d) <==> WritesHeeded(plan, line, n))
  {
    var plan, done := ArrivesIff(m, a, d, line, n);
    FileArrivesIff(m, a, d, line, n);
    PageStep(a, 1);
    forall j | 0 <= j < |plan| && plan[j].ProgramOp?
      ensures a <= plan[j].addr
    {
      RisingFrom(plan, a, d, a, j);
    }
  }

  /** Success reported and every write carried out, from the page grid: what was not erased costs
      nothing exactly if the file can be programmed over what was there. */
  lemma RefusedEraseIff(m: Mem, a: nat, d: seq<Byte>, line: Line, n: nat)
    requires a % PAGE == 0 && a + |d| <= |m|
    requires Carry(Plan(true, a, StartsAt(a), d), line, n, ERR_RETRY_COUNT).ok
    requires WritesHeeded(Plan(true, a, StartsAt(a), d), line, n)
    ensures var done := Carry(Plan(true, a, StartsAt(a), d), line, n, ERR_RETRY_COUNT).done;
            && AllFit(m, done)
            && (Holds(Run(m, done), a, d) <==>
                  forall k :: a <= k < a + |d| && !Erases(done, k) ==> Programmed(m[k], d[k - a]) == d[k - a])
  {
    var plan, done := ArrivesIff(m, a, d, line, n);
    forall k | a <= k < a + |d|
      ensures Arrives(m, a, d, done, k) <==> Erases(done, k) || Programmed(m[k], d[k - a]) == d[k - a]
    {
      var j := PlanWrites(a, StartsAt(a), d, plan, k);
      WrittenAll(a, d, line, n, j, k);
      GridArrives(m, a, d, line, n, done, k);
      if !Writes(done, k) {
        ProgrammingBlank(m[k], d[k - a]);
      }
    }
  }
}
