/** The debounce counters of `smoke_handler`, against a detector that looks at whole windows of
    samples. */
module Debounce {

  const LIMIT := 32
  /** How far one level must outweigh the other. */
  const NEEDED := 31

  type Counter = c: int | 1 <= c <= LIMIT witness 1

  /** The counter, and the level it last ran up or down to. */
  datatype State = State(count: Counter, on: bool)

  const IDLE := State(1, false)

  function Step(c: Counter, active: bool): Counter {
    if active then if c != LIMIT then c + 1 else c
    else if c != 1 then c - 1 else c
  }

  /** The sample brings the counter to its upper, or its lower, end. */
  predicate Rises(c: Counter, active: bool) {
    active && c != LIMIT && c + 1 == LIMIT
  }

  predicate Falls(c: Counter, active: bool) {
    !active && c != 1 && c - 1 == 1
  }

  function Next(s: State, active: bool): State {
    State(Step(s.count, active),
          if Rises(s.count, active) then true else if Falls(s.count, active) then false else s.on)
  }

  function After(xs: seq<bool>): State
    decreases |xs|
  {
    if xs == [] then IDLE else Next(After(xs[..|xs| - 1]), xs[|xs| - 1])
  }

  /** A run of `n` active samples from the start: the level changes with the 31st. */
  lemma {:induction false} FirstRun(n: nat)
    ensures After(seq(n, _ => true)) == State(if n < 31 then n + 1 else 32, n >= 31)
    decreases n
  {
    var xs := seq(n, _ => true);
    if n > 0 {
      assert xs[..n - 1] == seq(n - 1, _ => true);
      FirstRun(n - 1);
    }
  }

  // ---------------------------------------------------------------- the detector

  /** By how much samples at `level` outnumber the others. */
  function Net(xs: seq<bool>, level: bool): int
    decreases |xs|
  {
    if xs == [] then 0 else Net(xs[..|xs| - 1], level) + (if xs[|xs| - 1] == level then 1 else -1)
  }

  /** Some window that ends now has a net of at least `k`. */
  ghost predicate Prevails(xs: seq<bool>, level: bool, k: int) {
    exists i :: 0 <= i <= |xs| && Net(xs[i..], level) >= k
  }

  /** The level reported, and the samples since it was. */
  datatype Phase = Phase(on: bool, since: seq<bool>)

  ghost function Detect(p: Phase, active: bool): Phase {
    var since := p.since + [active];
    if Prevails(since, !p.on, NEEDED) then Phase(!p.on, []) else Phase(p.on, since)
  }

  ghost function Detector(xs: seq<bool>): Phase
    decreases |xs|
  {
    if xs == [] then Phase(false, []) else Detect(Detector(xs[..|xs| - 1]), xs[|xs| - 1])
  }

  // ---------------------------------------------------------------- they agree

  /** The greatest net of any window that ends now. */
  function Best(xs: seq<bool>, level: bool): nat
    decreases |xs|
  {
    if xs == [] then 0
    else
      var b := Best(xs[..|xs| - 1], level);
      if xs[|xs| - 1] == level then b + 1 else if b == 0 then 0 else b - 1
  }

  lemma NetSuffix(xs: seq<bool>, i: nat, level: bool)
    requires i < |xs|
    ensures Net(xs[i..], level) == Net(xs[..|xs| - 1][i..], level) + (if xs[|xs| - 1] == level then 1 else -1)
  {
    var t := xs[i..];
    assert t[..|t| - 1] == xs[..|xs| - 1][i..];
  }

  lemma {:induction false} PrevailsMeansBest(xs: seq<bool>, level: bool, k: int)
    requires k > 0 && Prevails(xs, level, k)
    ensures Best(xs, level) >= k
    decreases |xs|
  {
    var i :| 0 <= i <= |xs| && Net(xs[i..], level) >= k;
    assert i < |xs|;
    NetSuffix(xs, i, level);
    var init := xs[..|xs| - 1];
    var d := if xs[|xs| - 1] == level then 1 else -1;
    assert Net(init[i..], level) >= k - d;
    if k - d > 0 {
      PrevailsMeansBest(init, level, k - d);
    }
  }

  lemma {:induction false} BestMeansPrevails(xs: seq<bool>, level: bool, k: int)
    requires k > 0 && Best(xs, level) >= k
    ensures Prevails(xs, level, k)
    decreases |xs|
  {
    var init := xs[..|xs| - 1];
    var d := if xs[|xs| - 1] == level then 1 else -1;
    var i := |init|;
    if k - d > 0 {
      BestMeansPrevails(init, level, k - d);
      i :| 0 <= i <= |init| && Net(init[i..], level) >= k - d;
    }
    assert init[|init|..] == [];
    NetSuffix(xs, i, level);
  }

  /** The counter is one more than the best net for a rise, or that far below its upper end. */
  predicate Tracks(s: State, p: Phase) {
    && s.on == p.on
    && var best := Best(p.since, !p.on);
       best < NEEDED && s.count == if p.on then LIMIT - best else 1 + best
  }

  lemma BestStep(xs: seq<bool>, x: bool, level: bool)
    ensures Best(xs + [x], level) ==
            if x == level then Best(xs, level) + 1 else if Best(xs, level) == 0 then 0 else Best(xs, level) - 1
  {
    assert (xs + [x])[..|xs|] == xs;
  }

  lemma TracksStep(s: State, p: Phase, x: bool)
    requires Tracks(s, p)
    ensures Tracks(Next(s, x), Detect(p, x))
  {
    var since := p.since + [x];
    BestStep(p.since, x, !p.on);
    if Prevails(since, !p.on, NEEDED) {
      PrevailsMeansBest(since, !p.on, NEEDED);
    } else if Best(since, !p.on) >= NEEDED {
      BestMeansPrevails(since, !p.on, NEEDED);
    }
  }

  lemma {:induction false} TracksAlways(xs: seq<bool>)
    ensures Tracks(After(xs), Detector(xs))
    decreases |xs|
  {
    if xs != [] {
      TracksAlways(xs[..|xs| - 1]);
      TracksStep(After(xs[..|xs| - 1]), Detector(xs[..|xs| - 1]), xs[|xs| - 1]);
    }
  }

  /** On every stream of samples the counter reports what the detector reports: the level
      changes at exactly the first sample by which, in some window since the last change, the
      other level outweighs it by 31. */
  lemma CountsWindows(xs: seq<bool>)
    ensures After(xs).on == Detector(xs).on
  {
    TracksAlways(xs);
  }

  /** A counter at one of its ends says the level of the last sample, and the level reported is
      that one. */
  lemma {:induction false} EndsAgree(xs: seq<bool>)
    requires xs != []
    ensures After(xs).count == LIMIT ==> xs[|xs| - 1] && After(xs).on
    ensures After(xs).count == 1 ==> !xs[|xs| - 1] && !After(xs).on
  {
    TracksAlways(xs);
  }
}
