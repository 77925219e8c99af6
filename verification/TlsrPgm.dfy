/** `TLSRPGM.WriteBlockFlash` and `ReadBlockFlash` on that line. */
module TlsrPgm {
  import opened Bytes
  import opened NorFlash
  import opened AnyStart
  import opened Programmer
  import opened TlsrLine
  import opened TlsrArrival

  const NO_SECTOR := 0xFFFF_FFFF

  lemma RunOn(m: Mem, m1: Mem, did: seq<Op>, now: seq<Op>, log: seq<Op>)
    requires AllFit(m, did) && m1 == Run(m, did) && AllFit(m1, now)
    ensures AllFit(m, did + now) && Run(m, did + now) == Run(m1, now)
    ensures log + did + now == log + (did + now)
  {
    FitsAlike(m1, m, now);
    RunConcat(m, did, now);
  }

  lemma PrependOn(did: seq<Op>, now: seq<Op>, o: Outcome)
    ensures Prepend(did, Prepend(now, o)) == Prepend(did + now, o)
  {
    assert did + (now + o.done) == did + now + o.done;
  }

  lemma Onward(m: Mem, m1: Mem, did: seq<Op>, now: seq<Op>, log: seq<Op>, o: Outcome) returns (both: seq<Op>)
    requires AllFit(m, did) && m1 == Run(m, did) && AllFit(m1, now)
    ensures AllFit(m, both) && Run(m, both) == Run(m1, now)
    ensures log + did + now == log + both && Prepend(did, Prepend(now, o)) == Prepend(both, o)
  {
    both := did + now;
    RunOn(m, m1, did, now, log);
    PrependOn(did, now, o);
  }

  /** The commands left to send begin with those of one turn. */
  lemma PlanTurn(erase: bool, a: nat, last: int, d: seq<Byte>, piece: seq<Byte>, todo: seq<Op>)
      returns (more: seq<Byte>, next: seq<Op>)
    requires d != [] && |piece| == Min(PAGE, |d|) && piece == d[..|piece|] && todo == Plan(erase, a, last, d)
    ensures more == d[|piece|..] && next == Plan(erase, a + |piece|, a / SECTOR, more)
    ensures todo == EraseIf(erase && last != a / SECTOR, a / SECTOR) + (WriteIf(a, piece) + next)
  {
    more := d[|piece|..];
    next := Plan(erase, a + |piece|, a / SECTOR, more);
  }

  /** `erasec` as the sector it stands for. */
  function SectorAt(erasec: nat): int {
    if erasec == NO_SECTOR then -1 else erasec / SECTOR
  }

  predicate SectorStart(erasec: nat) {
    erasec == NO_SECTOR || erasec % SECTOR == 0
  }

  lemma SectorBase(sector: nat, erasec: nat)
    requires SectorStart(erasec) && sector * SECTOR < 0x100_0000
    ensures SectorStart(sector * SECTOR) && SectorAt(sector * SECTOR) == sector
    ensures erasec == sector * SECTOR <==> SectorAt(erasec) == sector
  {
  }

  /** Lines 719-722: what the loop starts from. */
  method FirstErasec(erase: bool, start: nat) returns (erasec: nat)
    requires start <= 0x100_0000
    ensures SectorStart(erasec) && (erase ==> SectorAt(erasec) == StartsAt(start))
  {
    erasec := if erase && start % SECTOR != 0 then start / SECTOR * SECTOR else NO_SECTOR;
  }

  /** `offset & 0xffffff` */
  method Mask(offset: nat) returns (r: nat)
    ensures r < 0x100_0000 && (offset < 0x100_0000 ==> r == offset)
  {
    r := offset % 0x100_0000;
  }

  /** `stream.read(n)`, of a file with `file` still to read. */
  method ReadStream(file: seq<Byte>, n: nat) returns (data: seq<Byte>, rest: seq<Byte>)
    ensures |data| == Min(n, |file|) && data == file[..|data|] && rest == file[|data|..]
  {
    var k := Min(n, |file|);
    data, rest := file[..k], file[k..];
  }

  /** The programmer on its serial line: `sent` counts the commands that change flash. */
  class Pgm {
    const chip: Flash
    const line: Line
    var sent: nat

    constructor (chip: Flash, line: Line)
      ensures this.chip == chip && this.line == line && sent == 0
    {
      this.chip, this.line, sent := chip, line, 0;
    }

    /** One command and its answer; the flash has what the answer says. */
    method Command(op: Op, cntErr: nat, ghost rest: seq<Op>) returns (left: nat, ghost did: seq<Op>)
      requires 0 < cntErr && !chip.worn && Fits(chip.mem, op)
      modifies this, chip
      ensures AllFit(old(chip.mem), did) && chip.mem == Run(old(chip.mem), did) && chip.log == old(chip.log) + did
      ensures Carry([op] + rest, line, old(sent), cntErr) == Prepend(did, Carry(rest, line, sent, left))
    {
      var answer := line(sent);
      did := Did(op, answer);
      RunOne(chip.mem, op);
      if !answer.Refused? {
        match op {
          case EraseOp(s) => chip.Erase(s * SECTOR);
          case ProgramOp(a, d) => chip.Write(a, d);
        }
      }
      sent := sent + 1;
      left := if answer.Good? then ERR_RETRY_COUNT else cntErr - 1;
      assert ([op] + rest)[1..] == rest;
    }

    /** Lines 725-744: erase the sector at hand unless that was done. */
    method EnterSector(erase: bool, offset: nat, erasec: nat, cntErr: nat, ghost last: int, ghost rest: seq<Op>)
        returns (erased: nat, left: nat, ghost did: seq<Op>)
      requires 0 < cntErr && !chip.worn && offset < 0x100_0000
      requires SectorStart(erasec) && (erase ==> last == SectorAt(erasec))
      modifies this, chip
      ensures AllFit(old(chip.mem), did) && chip.mem == Run(old(chip.mem), did) && chip.log == old(chip.log) + did
      ensures SectorStart(erased) && (erase ==> SectorAt(erased) == offset / SECTOR)
      ensures Carry(EraseIf(erase && last != offset / SECTOR, offset / SECTOR) + rest, line, old(sent), cntErr)
              == Prepend(did, Carry(rest, line, sent, left))
    {
      erased, left, did := erasec, cntErr, [];
      var sector := offset / SECTOR;
      SectorBase(sector, erasec);
      var wrsec := sector * SECTOR;
      if erase && erasec != wrsec {
        left, did := Command(EraseOp(sector), cntErr, rest);
        erased := wrsec;
      } else {
        assert [] + rest == rest && forall o: Outcome :: Prepend([], o) == o;
      }
    }

    /** Lines 750-768: write the page unless it is blank. */
    method WritePage(offset: nat, data: seq<Byte>, cntErr: nat, ghost rest: seq<Op>)
        returns (left: nat, ghost did: seq<Op>)
      requires 0 < cntErr && !chip.worn && offset + |data| <= |chip.mem|
      modifies this, chip
      ensures AllFit(old(chip.mem), did) && chip.mem == Run(old(chip.mem), did) && chip.log == old(chip.log) + did
      ensures Carry(WriteIf(offset, data) + rest, line, old(sent), cntErr)
              == Prepend(did, Carry(rest, line, sent, left))
    {
      left, did := cntErr, [];
      var i := 0;
      while i < |data|
        invariant 0 <= i <= |data| && AllBlank(data[..i])
      {
        if data[i] != BLANK {
          left, did := Command(ProgramOp(offset, data), cntErr, rest);
          return;
        }
        i := i + 1;
      }
      assert data[..i] == data;
      assert [] + rest == rest && forall o: Outcome :: Prepend([], o) == o;
    }

    /** Lines 725-768, one turn of the loop, with `next` to follow. */
    method OneTurn(erase: bool, offset: nat, erasec: nat, data: seq<Byte>, cntErr: nat,
                   ghost last: int, ghost todo: seq<Op>, ghost next: seq<Op>)
        returns (erased: nat, left: nat, ghost did: seq<Op>)
      requires 0 < cntErr && !chip.worn && offset + |data| <= |chip.mem| && offset < 0x100_0000
      requires SectorStart(erasec) && (erase ==> last == SectorAt(erasec))
      requires todo == EraseIf(erase && last != offset / SECTOR, offset / SECTOR) + (WriteIf(offset, data) + next)
      modifies this, chip
      ensures AllFit(old(chip.mem), did) && chip.mem == Run(old(chip.mem), did) && chip.log == old(chip.log) + did
      ensures SectorStart(erased) && (erase ==> SectorAt(erased) == offset / SECTOR)
      ensures Carry(todo, line, old(sent), cntErr) == Prepend(did, Carry(next, line, sent, left))
    {
      ghost var m, log := chip.mem, chip.log;
      ghost var write := WriteIf(offset, data);
      erased, left, did := EnterSector(erase, offset, erasec, cntErr, last, write + next);
      if left != 0 {
        ghost var before, now := chip.mem, [];
        left, now := WritePage(offset, data, left, next);
        did := Onward(m, before, did, now, log, Carry(next, line, sent, left));
      }
    }

    /** From flash `m`, `did` has been carried out; `todo` decides the rest of the outcome. */
    ghost predicate Going(m: Mem, log: seq<Op>, whole: Outcome, did: seq<Op>, todo: seq<Op>, left: nat)
      reads this, chip
    {
      && AllFit(m, did) && chip.mem == Run(m, did) && chip.log == log + did
      && whole == Prepend(did, Carry(todo, line, sent, left))
    }

    method Advance(erase: bool, offset: nat, erasec: nat, data: seq<Byte>, cntErr: nat,
                   ghost last: int, ghost todo: seq<Op>, ghost next: seq<Op>,
                   ghost m: Mem, ghost log: seq<Op>, ghost whole: Outcome, ghost did: seq<Op>)
        returns (erased: nat, left: nat, ghost both: seq<Op>)
      requires 0 < cntErr && !chip.worn && offset + |data| <= |chip.mem| && offset < 0x100_0000
      requires SectorStart(erasec) && (erase ==> last == SectorAt(erasec))
      requires todo == EraseIf(erase && last != offset / SECTOR, offset / SECTOR) + (WriteIf(offset, data) + next)
      requires Going(m, log, whole, did, todo, cntErr)
      modifies this, chip
      ensures SectorStart(erased) && (erase ==> SectorAt(erased) == offset / SECTOR)
      ensures Going(m, log, whole, both, next, left) && |chip.mem| == |old(chip.mem)|
    {
      ghost var before, now := chip.mem, [];
      erased, left, now := OneTurn(erase, offset, erasec, data, cntErr, last, todo, next);
      both := Onward(m, before, did, now, log, Carry(next, line, sent, left));
    }

    lemma Started(todo: seq<Op>, left: nat)
      ensures Going(chip.mem, chip.log, Carry(todo, line, sent, left), [], todo, left)
    {
      var o := Carry(todo, line, sent, left);
      assert Prepend([], o) == o;
    }

    lemma Ended(m: Mem, log: seq<Op>, whole: Outcome, did: seq<Op>, todo: seq<Op>, left: nat)
      requires Going(m, log, whole, did, todo, left) && (left == 0 || todo == [])
      ensures whole == Outcome(did, left != 0)
      ensures AllFit(m, did) && chip.mem == Run(m, did) && chip.log == log + did
    {
    }

    /** The loop variables agree with the commands still to send, for the `more` still to read. */
    ghost predicate InStep(erase: bool, offset: nat, erasec: nat, last: int, more: seq<Byte>, todo: seq<Op>)
      reads chip
    {
      && !chip.worn && offset + |more| <= |chip.mem| <= 0x100_0000
      && SectorStart(erasec) && (erase ==> last == SectorAt(erasec))
      && todo == Plan(erase, offset, last, more)
    }

    /** Lines 723-768: the body of the loop, on the data just read. */
    method Body(data: seq<Byte>, erase: bool, offset: nat, erasec: nat, cntErr: nat,
                ghost last: int, ghost more: seq<Byte>, ghost todo: seq<Op>,
                ghost m: Mem, ghost log: seq<Op>, ghost whole: Outcome, ghost did: seq<Op>)
        returns (erased: nat, left: nat, ghost sector: int, ghost rest: seq<Op>, ghost both: seq<Op>)
      requires 0 < cntErr && more != [] && |data| == Min(PAGE, |more|) && data == more[..|data|]
      requires InStep(erase, offset, erasec, last, more, todo) && Going(m, log, whole, did, todo, cntErr)
      modifies this, chip
      ensures InStep(erase, offset + |data|, erased, sector, more[|data|..], rest)
      ensures Going(m, log, whole, both, rest, left) && |chip.mem| == |old(chip.mem)|
    {
      ghost var tail;
      sector := offset / SECTOR;
      tail, rest := PlanTurn(erase, offset, last, more, data, todo);
      erased, left, both := Advance(erase, offset, erasec, data, cntErr, last, todo, rest, m, log, whole, did);
    }

    /** The top of the loop, with `file` still to read. */
    ghost predicate AtTop(file: seq<Byte>, size: int, wrsize: nat, erase: bool, offset: nat, erasec: nat, left: nat,
                          last: int, todo: seq<Op>, m: Mem, log: seq<Op>, whole: Outcome, did: seq<Op>)
      reads this, chip
    {
      && size == |file| && (size > 0 ==> wrsize == PAGE)
      && InStep(erase, offset, erasec, last, file, todo)
      && Going(m, log, whole, did, todo, left)
    }

    /** Lines 723-770: one time round the loop. */
    method Round(file: seq<Byte>, size: int, wrsize: nat, erase: bool, offset: nat, erasec: nat, cntErr: nat,
                 ghost last: int, ghost todo: seq<Op>, ghost m: Mem, ghost log: seq<Op>, ghost whole: Outcome,
                 ghost did: seq<Op>)
        returns (file': seq<Byte>, size': int, wrsize': nat, offset': nat, erasec': nat, left: nat,
                 ghost last': int, ghost todo': seq<Op>, ghost did': seq<Op>)
      requires AtTop(file, size, wrsize, erase, offset, erasec, cntErr, last, todo, m, log, whole, did)
      requires 0 < cntErr && 0 < size
      modifies this, chip
      ensures AtTop(file', size', wrsize', erase, offset', erasec', left, last', todo', m, log, whole, did')
      ensures size' < size
    {
      var masked := Mask(offset);
      var data;
      data, file' := ReadStream(file, wrsize);
      wrsize' := |data|;
      erasec', left, last', todo', did' :=
        Body(data, erase, masked, erasec, cntErr, last, file, todo, m, log, whole, did);
      size', offset' := size - wrsize', masked + wrsize';
    }

    /** `WriteBlockFlash` of a whole file within the 24-bit address space. */
    method WriteBlockFlash(stream: seq<Byte>, start: nat, erase: bool) returns (ok: bool, ghost did: seq<Op>)
      requires !chip.worn && start + |stream| <= |chip.mem| <= 0x100_0000
      modifies this, chip
      ensures Carry(Plan(erase, start, StartsAt(start), stream), line, old(sent), ERR_RETRY_COUNT) == Outcome(did, ok)
      ensures AllFit(old(chip.mem), did) && chip.mem == Run(old(chip.mem), did) && chip.log == old(chip.log) + did
    {
      ghost var plan := Plan(erase, start, StartsAt(start), stream);
      ok, did := WriteLoop(stream, start, erase, plan, chip.mem, chip.log, Carry(plan, line, sent, ERR_RETRY_COUNT));
    }

    method WriteLoop(stream: seq<Byte>, start: nat, erase: bool, ghost plan: seq<Op>, ghost m: Mem, ghost log: seq<Op>,
                     ghost whole: Outcome) returns (ok: bool, ghost did: seq<Op>)
      requires !chip.worn && start + |stream| <= |m| <= 0x100_0000 && chip.mem == m && chip.log == log
      requires plan == Plan(erase, start, StartsAt(start), stream) && whole == Carry(plan, line, sent, ERR_RETRY_COUNT)
      modifies this, chip
      ensures whole == Outcome(did, ok)
      ensures AllFit(m, did) && chip.mem == Run(m, did) && chip.log == log + did
    {
      var file, size, wrsize: nat, offset: nat, left: nat := stream, |stream|, PAGE, start, ERR_RETRY_COUNT;
      var erasec := FirstErasec(erase, start);
      ghost var last, todo := StartsAt(start), plan;
      did := [];
      Started(todo, left);
      while size > 0
        invariant AtTop(file, size, wrsize, erase, offset, erasec, left, last, todo, m, log, whole, did)
        invariant 0 < left
      {
        file, size, wrsize, offset, erasec, left, last, todo, did :=
          Round(file, size, wrsize, erase, offset, erasec, left, last, todo, m, log, whole, did);
        if left == 0 {
          Ended(m, log, whole, did, todo, left);
          return false, did;
        }
      }
      Ended(m, log, whole, did, todo, left);
      ok := true;
    }

    /** What the user is promised. A device that answers every command: success, and the file is at
        `start` exactly if each of its bytes lands; from a sector boundary it always is, whatever was
        there, and outside its sectors nothing has changed. From there on any other device success
        and every erase carried out mean the file if and only if no write was refused. */
    method WriteFile(stream: seq<Byte>, start: nat) returns (ok: bool)
      requires !chip.worn && start + |stream| <= |chip.mem| <= 0x100_0000
      modifies this, chip
      ensures |chip.mem| == |old(chip.mem)|
      ensures (forall k :: old(sent) <= k ==> line(k).Good?) ==>
                && ok && chip.log == old(chip.log) + Plan(true, start, StartsAt(start), stream)
                && (Holds(chip.mem, start, stream) <==>
                      forall k :: start <= k < start + |stream| ==> Lands(old(chip.mem), start, stream, k))
                && (start % SECTOR == 0 ==>
                      && Holds(chip.mem, start, stream)
                      && SameOutside(old(chip.mem), chip.mem, start, RoundUp(start + |stream|)))
      ensures ok && start % SECTOR == 0 && ErasesHeeded(Plan(true, start, StartsAt(start), stream), line, old(sent)) ==>
                (Holds(chip.mem, start, stream) <==>
                   WritesHeeded(Plan(true, start, StartsAt(start), stream), line, old(sent)))
    {
      ghost var plan, m, n := Plan(true, start, StartsAt(start), stream), chip.mem, sent;
      ghost var did;
      ok, did := WriteBlockFlash(stream, start, true);
      ghost var answered := forall k :: n <= k ==> line(k).Good?;
      ghost var aligned := start % SECTOR == 0;
      if answered {
        AllGood(plan, line, n, ERR_RETRY_COUNT);
        AnyStartIff(m, start, stream);
      }
      if answered && aligned {
        WriteStores(m, start, stream);
      }
      ghost var erased := ok && aligned && ErasesHeeded(plan, line, n);
      if erased {
        AlignedArrivesIff(m, start, stream, line, n);
      }
    }

    /** `ReadBlockFlash`: the first read that is not answered ends it. */
    method ReadBlockFlash(start: nat, count: nat) returns (ok: bool, stream: seq<Byte>)
      requires start + count <= |chip.mem| <= 0x100_0000
      modifies this
      ensures ok ==> stream == chip.mem[start..start + count]
      ensures |stream| <= count && stream == chip.mem[start..start + |stream|]
      ensures ok <==> |stream| == count
      ensures (forall k :: old(sent) <= k ==> line(k).Good?) ==> ok
    {
      stream := [];
      var offset: nat, size: nat, rdsize := start, count, READ_MAX;
      while size > 0
        invariant size <= count && offset == start + (count - size) && 0 < rdsize
        invariant |stream| == count - size && stream == chip.mem[start..start + |stream|]
        invariant sent >= old(sent)
      {
        if rdsize > size {
          rdsize := size;
        }
        sent := sent + 1;
        if line(sent - 1) != Good {
          return false, stream;
        }
        SliceJoin(chip.mem, start, offset, offset + rdsize);
        stream := stream + chip.mem[offset..offset + rdsize];
        size, offset := size - rdsize, offset + rdsize;
      }
      ok := true;
    }
  }
}
