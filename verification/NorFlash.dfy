/** NOR flash: erasing sets a whole sector to 0xFF, programming can only clear bits. */
module NorFlash {
  import opened Bytes

  const SECTOR := 4096
  const PAGE := 256
  const BLANK: Byte := 0xFF

  type Mem = seq<Byte>

  /** One command the chip executes. A power loss happens between two of them. */
  datatype Op = EraseOp(sector: nat) | ProgramOp(addr: nat, data: seq<Byte>)

  /** Programming stays on the chip. */
  predicate Fits(m: Mem, op: Op) {
    op.ProgramOp? ==> op.addr + |op.data| <= |m|
  }

  /** Programming ands the data in; over a blank byte that stores the data. */
  function Programmed(was: Byte, b: Byte): Byte {
    if was == BLANK then b else And(was, b)
  }

  /** A sector past the end of the chip does not exist; see `Landing` for what a chip makes of
      an address there. */
  function Apply(m: Mem, op: Op): (r: Mem)
    requires Fits(m, op)
    ensures |r| == |m|
  {
    match op
    case EraseOp(a) =>
      seq(|m|, k requires 0 <= k < |m| => if a * SECTOR <= k < a * SECTOR + SECTOR then BLANK else m[k])
    case ProgramOp(a, d) =>
      seq(|m|, k requires 0 <= k < |m| => if a <= k < a + |d| then Programmed(m[k], d[k - a]) else m[k])
  }

  predicate AllFit(m: Mem, ops: seq<Op>) {
    forall k :: 0 <= k < |ops| ==> Fits(m, ops[k])
  }

  function Run(m: Mem, ops: seq<Op>): (r: Mem)
    requires AllFit(m, ops)
    ensures |r| == |m|
    decreases |ops|
  {
    if ops == [] then m else Run(Apply(m, ops[0]), ops[1..])
  }

  lemma {:induction false} RunConcat(m: Mem, a: seq<Op>, b: seq<Op>)
    requires AllFit(m, a) && AllFit(m, b)
    ensures AllFit(m, a + b)
    ensures Run(m, a + b) == Run(Run(m, a), b)
    decreases |a|
  {
    if a == [] {
      assert a + b == b;
    } else {
      assert (a + b)[1..] == a[1..] + b;
      RunConcat(Apply(m, a[0]), a[1..], b);
    }
  }

  lemma RunOne(m: Mem, op: Op)
    requires Fits(m, op)
    ensures Run(m, [op]) == Apply(m, op)
  {
    assert [op][1..] == [];
  }

  lemma RunSnoc(m: Mem, ops: seq<Op>, op: Op)
    requires AllFit(m, ops) && Fits(m, op)
    ensures AllFit(m, ops + [op])
    ensures Run(m, ops + [op]) == Apply(Run(m, ops), op)
  {
    RunConcat(m, ops, [op]);
    RunOne(Run(m, ops), op);
  }

  // ---------------------------------------------------------------- contents and frames

  /** `d` lies in flash at address `a`. */
  predicate Holds(m: Mem, a: nat, d: seq<Byte>) {
    a + |d| <= |m| && forall k :: a <= k < a + |d| ==> m[k] == d[k - a]
  }

  /** The first `n` bytes of `d` lie in flash at address `a`. */
  predicate HoldsUpTo(m: Mem, a: nat, d: seq<Byte>, n: nat) {
    n <= |d| && a + n <= |m| && forall k :: a <= k < a + n ==> m[k] == d[k - a]
  }

  predicate IsBlank(m: Mem, lo: nat, hi: nat) {
    hi <= |m| && forall k :: lo <= k < hi ==> m[k] == BLANK
  }

  ghost predicate SameOutside(m: Mem, r: Mem, lo: nat, hi: nat) {
    |m| == |r| && forall k :: 0 <= k < |m| && !(lo <= k < hi) ==> r[k] == m[k]
  }

  lemma HoldsSlice(m: Mem, a: nat, d: seq<Byte>)
    requires Holds(m, a, d)
    ensures m[a..a + |d|] == d
  {
  }

  lemma HoldsPart(m: Mem, a: nat, d: seq<Byte>, lo: nat, hi: nat)
    requires Holds(m, a, d) && lo <= hi <= |d|
    ensures m[a + lo..a + hi] == d[lo..hi]
  {
    HoldsSlice(m, a, d);
    SliceOfSlice(m, a, a + |d|, lo, hi);
  }

  predicate OpWithin(op: Op, lo: nat, hi: nat) {
    match op
    case EraseOp(a) => lo <= a * SECTOR && a * SECTOR + SECTOR <= hi
    case ProgramOp(a, d) => lo <= a && a + |d| <= hi
  }

  predicate OpsWithin(ops: seq<Op>, lo: nat, hi: nat) {
    forall k :: 0 <= k < |ops| ==> OpWithin(ops[k], lo, hi)
  }

  lemma {:induction false} RunFrame(m: Mem, ops: seq<Op>, lo: nat, hi: nat)
    requires AllFit(m, ops) && OpsWithin(ops, lo, hi)
    ensures SameOutside(m, Run(m, ops), lo, hi)
    decreases |ops|
  {
    if ops != [] {
      var m1 := Apply(m, ops[0]);
      RunFrame(m1, ops[1..], lo, hi);
      forall k | 0 <= k < |m| && !(lo <= k < hi)
        ensures Run(m, ops)[k] == m[k]
      {
        assert OpWithin(ops[0], lo, hi);
        assert m1[k] == m[k];
      }
    }
  }

  // ---------------------------------------------------------------- erasing a range of sectors

  function Wrap(sector: nat, n: nat): nat {
    if n == 0 || sector < n then sector else Wrap(sector - n, n)
  }

  /** The sector an erase command hits: the chip ignores the address bits above its size. */
  function Landing(sector: nat, m: Mem): nat {
    Wrap(sector, |m| / SECTOR)
  }

  /** `for(i = 0; i < n; i++) flash_erase(sector start + i * 4096)`. */
  function EraseOps(sector: nat, n: nat): (ops: seq<Op>)
    ensures |ops| == n
    ensures forall k :: 0 <= k < n ==> ops[k] == EraseOp(sector + k)
    decreases n
  {
    if n == 0 then [] else EraseOps(sector, n - 1) + [EraseOp(sector + n - 1)]
  }

  lemma EraseOneMore(m: Mem, sector: nat, n: nat)
    ensures AllFit(m, EraseOps(sector, n)) && AllFit(m, EraseOps(sector, n + 1))
    ensures Run(m, EraseOps(sector, n + 1)) == Apply(Run(m, EraseOps(sector, n)), EraseOp(sector + n))
    ensures Run(m, EraseOps(sector, 0)) == m
  {
    RunSnoc(m, EraseOps(sector, n), EraseOp(sector + n));
  }

  lemma {:induction false} EraseOpsBlank(m: Mem, sector: nat, n: nat)
    requires (sector + n) * SECTOR <= |m|
    ensures AllFit(m, EraseOps(sector, n))
    ensures IsBlank(Run(m, EraseOps(sector, n)), sector * SECTOR, (sector + n) * SECTOR)
    ensures SameOutside(m, Run(m, EraseOps(sector, n)), sector * SECTOR, (sector + n) * SECTOR)
    decreases n
  {
    if n > 0 {
      EraseOpsBlank(m, sector, n - 1);
      RunSnoc(m, EraseOps(sector, n - 1), EraseOp(sector + n - 1));
    }
  }

  /** Programming blank flash stores exactly the data. */
  lemma ProgramBlank(m: Mem, a: nat, d: seq<Byte>)
    requires IsBlank(m, a, a + |d|)
    ensures Holds(Apply(m, ProgramOp(a, d)), a, d)
    ensures SameOutside(m, Apply(m, ProgramOp(a, d)), a, a + |d|)
  {
    var r := Apply(m, ProgramOp(a, d));
    forall k | a <= k < a + |d|
      ensures r[k] == d[k - a]
    {
      AndBlank(d[k - a]);
    }
  }

  /** Programming 0xFF changes nothing. */
  lemma ProgrammingBlank(was: Byte, b: Byte)
    requires b == BLANK
    ensures Programmed(was, b) == was
  {
    AndBlank(was);
  }

  /** `piece` is the part of `d` that starts at `n`. */
  predicate PieceOf(piece: seq<Byte>, d: seq<Byte>, n: nat) {
    n + |piece| <= |d| && forall k :: 0 <= k < |piece| ==> piece[k] == d[n + k]
  }

  /** The first `n` bytes of `d` lie at `a`, and flash is erased from there up to `hi`. */
  predicate Filled(m: Mem, a: nat, d: seq<Byte>, n: nat, hi: nat) {
    HoldsUpTo(m, a, d, n) && IsBlank(m, a + n, hi)
  }

  /** Appending the next piece to what is already stored, inside the erased area. */
  lemma AppendPiece(m: Mem, a: nat, d: seq<Byte>, n: nat, piece: seq<Byte>, len: nat, hi: nat)
    requires Filled(m, a, d, n, hi)
    requires |piece| == len && PieceOf(piece, d, n) && a + (n + len) <= hi
    ensures Filled(Apply(m, ProgramOp(a + n, piece)), a, d, n + len, hi)
  {
    var r := Apply(m, ProgramOp(a + n, piece));
    ProgramBlank(m, a + n, piece);
    forall k | a <= k < a + (n + len)
      ensures r[k] == d[k - a]
    {
      if k >= a + n {
        assert r[k] == piece[k - (a + n)];
      }
    }
  }

  // ---------------------------------------------------------------- the device

  /** The chip. A `worn` one may store anything in the bytes it is asked to program;
      `log` records the commands. */
  class Flash {
    var mem: Mem
    const worn: bool
    ghost var log: seq<Op>

    constructor (contents: Mem, worn: bool)
      ensures mem == contents && log == [] && this.worn == worn
    {
      mem, this.worn, log := contents, worn, [];
    }

    method Read(a: nat, n: nat) returns (d: seq<Byte>)
      requires a + n <= |mem|
      ensures d == mem[a..a + n]
    {
      d := mem[a..a + n];
    }

    method Erase(a: nat)
      modifies this
      ensures mem == Apply(old(mem), EraseOp(a / SECTOR)) && log == old(log) + [EraseOp(a / SECTOR)]
    {
      mem := Apply(mem, EraseOp(a / SECTOR));
      log := log + [EraseOp(a / SECTOR)];
    }

    /** An erase that may be addressed past the end of the chip. */
    method EraseWrapping(a: nat, ghost sector: nat)
      requires a == sector * SECTOR
      modifies this
      ensures mem == Apply(old(mem), EraseOp(Landing(sector, old(mem))))
      ensures log == old(log) + [EraseOp(Landing(sector, old(mem)))]
    {
      var s := a / SECTOR;
      assert s == sector;
      log := log + [EraseOp(Landing(s, mem))];
      mem := Apply(mem, EraseOp(Landing(s, mem)));
    }

    method Write(a: nat, d: seq<Byte>)
      requires a + |d| <= |mem|
      modifies this
      ensures |mem| == |old(mem)|
      ensures SameOutside(old(mem), mem, a, a + |d|)
      ensures !worn ==> mem == Apply(old(mem), ProgramOp(a, d))
      ensures log == old(log) + [ProgramOp(a, d)]
    {
      if worn {
        var stored: seq<Byte> :| |stored| == |d|;
        mem := mem[..a] + stored + mem[a + |d|..];
      } else {
        mem := Apply(mem, ProgramOp(a, d));
      }
      log := log + [ProgramOp(a, d)];
    }

    /** `flash_writeWithCheck`: write, then compare in pieces of 48 bytes. */
    method WriteWithCheck(a: nat, d: seq<Byte>) returns (ok: bool)
      requires a + |d| <= |mem|
      modifies this
      ensures |mem| == |old(mem)|
      ensures SameOutside(old(mem), mem, a, a + |d|)
      ensures !worn ==> mem == Apply(old(mem), ProgramOp(a, d))
      ensures log == old(log) + [ProgramOp(a, d)]
      ensures ok <==> mem[a..a + |d|] == d
    {
      Write(a, d);
      ghost var stored := mem[a..a + |d|];
      var left, at := |d|, 0;
      while left > 0
        invariant 0 <= left <= |d| && at == |d| - left
        invariant a + |d| <= |mem| && mem[a..a + |d|] == stored
        invariant stored[..at] == d[..at]
        modifies {}
      {
        var n := if left > 48 then 48 else left;
        var temp := Read(a + at, n);
        SliceOfSlice(mem, a, a + |d|, at, at + n);
        assert temp == stored[at..at + n];
        if temp != d[at..at + n] {
          assert stored != d;
          return false;
        }
        SliceJoin(stored, 0, at, at + n);
        SliceJoin(d, 0, at, at + n);
        left, at := left - n, at + n;
      }
      assert d[..at] == d && stored[..at] == stored;
      ok := true;
    }
  }

  /** The erase loops of the sources: `n` sectors from address `a` on. */
  method EraseRange(chip: Flash, ghost sector: nat, a: nat, n: nat)
    requires a == sector * SECTOR
    modifies chip
    ensures AllFit(old(chip.mem), EraseOps(sector, n))
    ensures chip.mem == Run(old(chip.mem), EraseOps(sector, n))
    ensures chip.log == old(chip.log) + EraseOps(sector, n)
  {
    ghost var m := chip.mem;
    var i := 0;
    while i < n
      invariant 0 <= i <= n
      invariant chip.mem == Run(m, EraseOps(sector, i))
      invariant chip.log == old(chip.log) + EraseOps(sector, i)
    {
      EraseOneMore(m, sector, i);
      assert (a + i * SECTOR) / SECTOR == sector + i;
      chip.Erase(a + i * SECTOR);
      i := i + 1;
    }
  }
}
