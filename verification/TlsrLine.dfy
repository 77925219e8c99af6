/** The programmer's line to a device that may leave a command undone or its answer unheard: what
    the caller is told, and what is carried out. */
module TlsrLine {
  import opened Bytes
  import opened NorFlash
  import opened Programmer

  /** What becomes of a command: carried out and acknowledged, carried out with the answer
      lost, or not carried out. */
  datatype Answer = Good | Unheard | Refused

  type Line = nat -> Answer

  /** What of a list of commands is carried out, and what the caller is told. */
  datatype Outcome = Outcome(done: seq<Op>, ok: bool)

  function Did(op: Op, answer: Answer): seq<Op> {
    if answer.Refused? then [] else [op]
  }

  /** `cnt_err` after one answer. */
  function Left(left: nat, answer: Answer): nat
    requires left > 0
  {
    if answer.Good? then ERR_RETRY_COUNT else left - 1
  }

  function Prepend(did: seq<Op>, o: Outcome): Outcome {
    Outcome(did + o.done, o.ok)
  }

  /** Commands `n`, `n + 1`, ... of the line, `left` failures from giving up. No command is sent
      twice: the retry loops of the source end after one pass. */
  function Carry(plan: seq<Op>, line: Line, n: nat, left: nat): Outcome
    decreases |plan|
  {
    if left == 0 then Outcome([], false)
    else if plan == [] then Outcome([], true)
    else Prepend(Did(plan[0], line(n)), Carry(plan[1..], line, n + 1, Left(left, line(n))))
  }

  // ---------------------------------------------------------------- what the answers decide

  /** On a device that answers every command, the whole list is carried out. */
  lemma {:induction false} AllGood(plan: seq<Op>, line: Line, n: nat, left: nat)
    requires left > 0 && forall k :: n <= k < n + |plan| ==> line(k).Good?
    ensures Carry(plan, line, n, left) == Outcome(plan, true)
    decreases |plan|
  {
    if plan != [] {
      AllGood(plan[1..], line, n + 1, ERR_RETRY_COUNT);
      assert [plan[0]] + plan[1..] == plan;
    }
  }

  predicate FailsFrom(line: Line, k: nat, count: nat) {
    forall j :: k <= j < k + count ==> !line(j).Good?
  }

  /** Some three commands in a row among `n..end` are not acknowledged. */
  predicate ThreeInARow(line: Line, n: nat, end: nat) {
    exists k :: n <= k && k + 3 <= end && FailsFrom(line, k, 3)
  }

  lemma {:induction false} FailureLater(plan: seq<Op>, line: Line, n: nat, left: nat)
    requires 0 < left <= ERR_RETRY_COUNT
    ensures Carry(plan, line, n, left).ok
            <==> !ThreeInARow(line, n, n + |plan|) && !(left <= |plan| && FailsFrom(line, n, left))
    decreases |plan|
  {
    if plan != [] {
      var next := Left(left, line(n));
      if next > 0 {
        FailureLater(plan[1..], line, n + 1, next);
      }
      if ThreeInARow(line, n, n + |plan|) {
        var k :| n <= k && k + ERR_RETRY_COUNT <= n + |plan| && FailsFrom(line, k, ERR_RETRY_COUNT);
        if k == n {
          assert !line(n).Good? && left <= |plan| && FailsFrom(line, n, left);
        } else {
          assert ThreeInARow(line, n + 1, n + |plan|);
        }
      } else {
        assert !ThreeInARow(line, n + 1, n + |plan|);
      }
      if line(n).Good? && ERR_RETRY_COUNT <= |plan| - 1 && FailsFrom(line, n + 1, ERR_RETRY_COUNT) {
        assert ThreeInARow(line, n, n + |plan|);
      }
      assert left > 1 && !line(n).Good? ==> (FailsFrom(line, n, left) <==> FailsFrom(line, n + 1, left - 1));
    }
  }

  /** The caller is told of a failure exactly if three commands in a row go unacknowledged. */
  lemma FailsIffThreeInARow(plan: seq<Op>, line: Line, n: nat)
    ensures Carry(plan, line, n, ERR_RETRY_COUNT).ok <==> !ThreeInARow(line, n, n + |plan|)
  {
    FailureLater(plan, line, n, ERR_RETRY_COUNT);
    if ERR_RETRY_COUNT <= |plan| && FailsFrom(line, n, ERR_RETRY_COUNT) {
      assert ThreeInARow(line, n, n + |plan|);
    }
  }

  /** The commands of a list that the device carries out. */
  function Heeded(plan: seq<Op>, line: Line, n: nat): seq<Op>
    decreases |plan|
  {
    if plan == [] then [] else Did(plan[0], line(n)) + Heeded(plan[1..], line, n + 1)
  }

  /** A caller told of success has sent every command once; those refused are left out. */
  lemma {:induction false} NeverRetried(plan: seq<Op>, line: Line, n: nat, left: nat)
    requires Carry(plan, line, n, left).ok
    ensures Carry(plan, line, n, left).done == Heeded(plan, line, n)
    decreases |plan|
  {
    if plan != [] {
      NeverRetried(plan[1..], line, n + 1, Left(left, line(n)));
    }
  }

  /** So success does not mean the file is there: one refused write is enough. */
  lemma SuccessWithoutTheByte(m: Mem, line: Line)
    requires |m| >= SECTOR && line(0).Good? && line(1).Refused?
    ensures var plan := Plan(true, 0, StartsAt(0), [0]);
            var o := Carry(plan, line, 0, ERR_RETRY_COUNT);
            o == Outcome([EraseOp(0)], true) && AllFit(m, o.done) && !Holds(Run(m, o.done), 0, [0])
  {
    var plan := Plan(true, 0, StartsAt(0), [0]);
    assert [0][..1] == [0] && [0][1..] == [];
    assert [0][..1][0] != BLANK;
    assert plan == [EraseOp(0), ProgramOp(0, [0])];
    assert plan[1..] == [ProgramOp(0, [0])];
    assert plan[1..][1..] == [];
    RunOne(m, EraseOp(0));
    assert Apply(m, EraseOp(0))[0] == BLANK;
    assert Carry(plan[1..], line, 1, ERR_RETRY_COUNT) == Outcome([], true);
  }
}
