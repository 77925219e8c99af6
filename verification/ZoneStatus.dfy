/** What the ZoneStatus word says over any history of the sensor, and what others are told of it. */
module ZoneStatus {
  import opened Debounce
  import opened Sensor

  // ---------------------------------------------------------------- one machine for each bit

  /** A sample of one input, and whether the device was in a network then. */
  datatype Reading = Reading(active: bool, joined: bool)

  /** One debounced input: its counter and the level last reported. */
  datatype Input = Input(count: Counter, reported: bool)

  function InputNext(i: Input, r: Reading): Input {
    Input(Step(i.count, r.active),
          if r.joined && (Rises(i.count, r.active) || Falls(i.count, r.active)) then r.active else i.reported)
  }

  function InputAfter(rs: seq<Reading>): Input
    decreases |rs|
  {
    if rs == [] then Input(1, false) else InputNext(InputAfter(rs[..|rs| - 1]), rs[|rs| - 1])
  }

  /** The events each machine is run on. */
  function Smokes(es: seq<Event>): seq<Reading>
    decreases |es|
  {
    if es == [] then []
    else
      var before, e := Smokes(es[..|es| - 1]), es[|es| - 1];
      if e.Sample? then before + [Reading(e.smoke, e.joined)] else before
  }

  function Tampers(es: seq<Event>): seq<Reading>
    decreases |es|
  {
    if es == [] then []
    else
      var before, e := Tampers(es[..|es| - 1]), es[|es| - 1];
      if e.Sample? then before + [Reading(e.tamper, e.joined)] else before
  }

  /** The last battery reading was low. */
  predicate Low(g: Config, es: seq<Event>)
    decreases |es|
  {
    es != [] &&
    var e := es[|es| - 1];
    if e.Battery? then Level(Rounded(e.raw, g.factor)) == 0 else Low(g, es[..|es| - 1])
  }

  /** The test button was last seen pressed while in a network. */
  predicate Testing(es: seq<Event>)
    decreases |es|
  {
    es != [] &&
    match es[|es| - 1]
    case Press(key, joined) => (key == VK_SW1 && joined) || Testing(es[..|es| - 1])
    case Release(key, joined) => !(key == VK_SW1 && joined) && Testing(es[..|es| - 1])
    case _ => Testing(es[..|es| - 1])
  }

  /** What the four machines, each run on its own events, say the word should be. */
  function Machines(g: Config, es: seq<Event>): Bits {
    Bits(InputAfter(Smokes(es)).reported, InputAfter(Tampers(es)).reported, Low(g, es), Testing(es), RESTORE_NOTIFY)
  }

  predicate Decomposed(g: Config, es: seq<Event>, d: Device) {
    && d.smoke == InputAfter(Smokes(es)).count && d.tamper == InputAfter(Tampers(es)).count
    && d.status == Machines(g, es)
  }

  lemma InputOn(rs: seq<Reading>, r: Reading)
    ensures InputAfter(rs + [r]) == InputNext(InputAfter(rs), r)
  {
    assert (rs + [r])[..|rs|] == rs;
  }

  /** One pass takes both inputs one step on and touches nothing else of the word. */
  lemma SampleDoes(g: Config, d: Device, e: Event, i: Input, j: Input)
    requires e.Sample?
    requires d.smoke == i.count && d.status.alarm == i.reported && d.tamper == j.count && d.status.tamper == j.reported
    ensures var t := Handle(g, d, e);
            var i', j' := InputNext(i, Reading(e.smoke, e.joined)), InputNext(j, Reading(e.tamper, e.joined));
            && t.smoke == i'.count && t.tamper == j'.count
            && t.status == d.status.(alarm := i'.reported, tamper := j'.reported)
  {
  }

  lemma SampleInputs(es: seq<Event>, before: seq<Event>, e: Event)
    requires es != [] && before == es[..|es| - 1] && e == es[|es| - 1] && e.Sample?
    ensures InputAfter(Smokes(es)) == InputNext(InputAfter(Smokes(before)), Reading(e.smoke, e.joined))
    ensures InputAfter(Tampers(es)) == InputNext(InputAfter(Tampers(before)), Reading(e.tamper, e.joined))
  {
    InputOn(Smokes(before), Reading(e.smoke, e.joined));
    InputOn(Tampers(before), Reading(e.tamper, e.joined));
  }

  lemma DecomposedSample(g: Config, es: seq<Event>, before: seq<Event>, d: Device, e: Event)
    requires es != [] && before == es[..|es| - 1] && e == es[|es| - 1] && e.Sample? && Decomposed(g, before, d)
    ensures Decomposed(g, es, Handle(g, d, e))
  {
    SampleInputs(es, before, e);
    SampleDoes(g, d, e, InputAfter(Smokes(before)), InputAfter(Tampers(before)));
  }

  lemma DecomposedBattery(g: Config, es: seq<Event>, before: seq<Event>, d: Device, e: Event)
    requires es != [] && before == es[..|es| - 1] && e == es[|es| - 1] && e.Battery? && Decomposed(g, before, d)
    ensures Decomposed(g, es, Handle(g, d, e))
  {
    LowIffLevelZero(e.raw, g.factor);
  }

  lemma DecomposedKey(g: Config, es: seq<Event>, before: seq<Event>, d: Device, e: Event)
    requires es != [] && before == es[..|es| - 1] && e == es[|es| - 1] && !e.Sample? && !e.Battery?
    requires Decomposed(g, before, d)
    ensures Decomposed(g, es, Handle(g, d, e))
  {
  }

  /** Over any interleaving of samples, battery checks and key events, in and out of the
      network, each bit is the output of its own machine run on its own events alone, and no
      other bit ever changes. */
  lemma {:induction false} EachBitItsOwnMachine(g: Config, es: seq<Event>)
    ensures Decomposed(g, es, Run(g, es))
    decreases |es|
  {
    if es != [] {
      var before, e := es[..|es| - 1], es[|es| - 1];
      var d := Run(g, before);
      EachBitItsOwnMachine(g, before);
      match e
      case Sample(_, _, _) => DecomposedSample(g, es, before, d, e);
      case Battery(_) => DecomposedBattery(g, es, before, d, e);
      case _ => DecomposedKey(g, es, before, d, e);
    }
  }

  // ---------------------------------------------------------------- while joined

  predicate AllJoined(rs: seq<Reading>) {
    forall k :: 0 <= k < |rs| ==> rs[k].joined
  }

  function Levels(rs: seq<Reading>): (xs: seq<bool>)
    ensures |xs| == |rs|
  {
    seq(|rs|, k requires 0 <= k < |rs| => rs[k].active)
  }

  /** The counter does not care about the network, and in it the level reported is the one
      debounced. */
  lemma {:induction false} InputDebounces(rs: seq<Reading>)
    ensures InputAfter(rs).count == After(Levels(rs)).count
    ensures AllJoined(rs) ==> InputAfter(rs).reported == After(Levels(rs)).on
    decreases |rs|
  {
    if rs != [] {
      var before := rs[..|rs| - 1];
      InputDebounces(before);
      assert Levels(rs)[..|rs| - 1] == Levels(before);
    }
  }

  /** While joined, ALARM1 and TAMPER change at exactly the samples at which the window
      detector does. */
  lemma AlarmsAreDetected(g: Config, es: seq<Event>)
    requires AllJoined(Smokes(es)) && AllJoined(Tampers(es))
    ensures Run(g, es).status.alarm == Detector(Levels(Smokes(es))).on
    ensures Run(g, es).status.tamper == Detector(Levels(Tampers(es))).on
  {
    EachBitItsOwnMachine(g, es);
    InputDebounces(Smokes(es));
    InputDebounces(Tampers(es));
    CountsWindows(Levels(Smokes(es)));
    CountsWindows(Levels(Tampers(es)));
  }

  // ---------------------------------------------------------------- in and out of the network

  /** Sample `j` ends the debouncing of a change. */
  predicate EdgeAt(rs: seq<Reading>, j: nat)
    requires j < |rs|
  {
    var c := InputAfter(rs[..j]).count;
    Rises(c, rs[j].active) || Falls(c, rs[j].active)
  }

  /** The first `k` samples are those up to the last change that was debounced in the network. */
  ghost predicate LastReported(rs: seq<Reading>, k: nat) {
    && k <= |rs| && (k > 0 ==> rs[k - 1].joined && EdgeAt(rs, k - 1))
    && forall j :: k <= j < |rs| && rs[j].joined ==> !EdgeAt(rs, j)
  }

  lemma LastReportedOn(rs: seq<Reading>, before: seq<Reading>, k: nat)
    requires rs != [] && before == rs[..|rs| - 1] && LastReported(before, k)
    requires !(rs[|rs| - 1].joined && EdgeAt(rs, |rs| - 1))
    ensures LastReported(rs, k) && rs[..k] == before[..k]
  {
    forall j | 0 <= j < |before|
      ensures EdgeAt(rs, j) == EdgeAt(before, j)
    {
      assert rs[..j] == before[..j];
    }
  }

  /** For any history of joining and leaving: the level reported is the debounced one as of the
      last change debounced in the network. One debounced outside is not reported then, and not
      caught up on later. */
  lemma {:induction false} ReportedAsOf(rs: seq<Reading>) returns (k: nat)
    ensures LastReported(rs, k) && InputAfter(rs).reported == After(Levels(rs[..k])).on
    decreases |rs|
  {
    k := 0;
    if rs != [] {
      var before, r := rs[..|rs| - 1], rs[|rs| - 1];
      InputDebounces(before);
      InputDebounces(rs);
      assert Levels(rs)[..|rs| - 1] == Levels(before);
      if r.joined && EdgeAt(rs, |rs| - 1) {
        k := |rs|;
        assert rs[..k] == rs;
      } else {
        k := ReportedAsOf(before);
        LastReportedOn(rs, before, k);
      }
    }
  }

  /** So over any history both alarm bits are what the window detector had found by then. */
  lemma AlarmsAsOf(g: Config, es: seq<Event>) returns (k: nat, n: nat)
    ensures LastReported(Smokes(es), k) && Run(g, es).status.alarm == Detector(Levels(Smokes(es)[..k])).on
    ensures LastReported(Tampers(es), n) && Run(g, es).status.tamper == Detector(Levels(Tampers(es)[..n])).on
  {
    EachBitItsOwnMachine(g, es);
    k := ReportedAsOf(Smokes(es));
    n := ReportedAsOf(Tampers(es));
    CountsWindows(Levels(Smokes(es)[..k]));
    CountsWindows(Levels(Tampers(es)[..n]));
  }

  // ---------------------------------------------------------------- the sleep gate

  lemma InputSettled(rs: seq<Reading>)
    requires rs != [] && (InputAfter(rs).count == 1 || InputAfter(rs).count == LIMIT)
    ensures After(Levels(rs)).on == rs[|rs| - 1].active
    ensures AllJoined(rs) ==> InputAfter(rs).reported == rs[|rs| - 1].active
  {
    InputDebounces(rs);
    EndsAgree(Levels(rs));
  }

  /** At every entry to low power the debounced levels are those sampled in the same pass, and
      while joined so are the two status bits. */
  lemma AsleepUpToDate(g: Config, es: seq<Event>, bdbIdle: bool, buttonBusy: bool)
    requires es != [] && es[|es| - 1].Sample? && Sleeps(Run(g, es), bdbIdle, buttonBusy)
    ensures var e, d := es[|es| - 1], Run(g, es);
            && After(Levels(Smokes(es))).on == e.smoke && After(Levels(Tampers(es))).on == e.tamper
            && (AllJoined(Smokes(es)) ==> d.status.alarm == e.smoke)
            && (AllJoined(Tampers(es)) ==> d.status.tamper == e.tamper)
  {
    EachBitItsOwnMachine(g, es);
    InputSettled(Smokes(es));
    InputSettled(Tampers(es));
  }

  /** The history ends with `k` samples of the same two levels. */
  predicate Steady(es: seq<Event>, k: nat, smoke: bool, tamper: bool)
    decreases k
  {
    k > 0 ==>
      && es != [] && es[|es| - 1].Sample? && es[|es| - 1].smoke == smoke && es[|es| - 1].tamper == tamper
      && Steady(es[..|es| - 1], k - 1, smoke, tamper)
  }

  /** How far a counter has run by then. */
  predicate RunTo(c: Counter, level: bool, k: nat) {
    if level then c == 32 || k < c else c == 1 || c + k < 33
  }

  lemma {:induction false} SteadyRuns(g: Config, es: seq<Event>, k: nat, smoke: bool, tamper: bool)
    requires Steady(es, k, smoke, tamper)
    ensures RunTo(Run(g, es).smoke, smoke, k) && RunTo(Run(g, es).tamper, tamper, k)
    decreases k
  {
    if k > 0 {
      SteadyRuns(g, es[..|es| - 1], k - 1, smoke, tamper);
    }
  }

  /** Once both inputs have been steady for 31 samples the device goes to sleep whenever nothing else
      keeps it up, and never when something does. */
  lemma SteadySleeps(g: Config, es: seq<Event>, smoke: bool, tamper: bool, bdbIdle: bool, buttonBusy: bool)
    requires Steady(es, 31, smoke, tamper)
    ensures Sleeps(Run(g, es), bdbIdle, buttonBusy) <==> bdbIdle && !buttonBusy
  {
    SteadyRuns(g, es, 31, smoke, tamper);
  }

  // ---------------------------------------------------------------- what others are told

  function Last(cs: seq<Command>): Command
    requires cs != []
  {
    cs[|cs| - 1]
  }

  /** Whether the sample ends the debouncing of a change in the network. */
  predicate Reports(i: Input, r: Reading) {
    r.joined && (Rises(i.count, r.active) || Falls(i.count, r.active))
  }

  /** The switch action as it was last set. */
  function ActionNow(g: Config, es: seq<Event>): Action
    decreases |es|
  {
    if es == [] then g.action
    else
      var before, e := es[..|es| - 1], es[|es| - 1];
      if e.Configure? then e.action else ActionNow(g, before)
  }

  lemma {:induction false} ActionKept(g: Config, es: seq<Event>)
    ensures Run(g, es).action == ActionNow(g, es)
    decreases |es|
  {
    if es != [] {
      ActionKept(g, es[..|es| - 1]);
    }
  }

  /** The last battery reading. */
  function LastReading(es: seq<Event>): Option<U16>
    decreases |es|
  {
    if es == [] then None
    else
      var before, e := es[..|es| - 1], es[|es| - 1];
      if e.Battery? then Some(e.raw) else LastReading(before)
  }

  /** Voltage and level shown are always those of the last battery reading, zero before the first. */
  lemma {:induction false} ShownAsOf(g: Config, es: seq<Event>)
    ensures var d := Run(g, es);
            match LastReading(es)
            case None => d.tenths == 0 && d.level == 0
            case Some(raw) =>
              d.tenths == Tenths(Divided(raw, g.factor)) % 0x100 && d.level == Level(Rounded(raw, g.factor))
    decreases |es|
  {
    if es != [] {
      ShownAsOf(g, es[..|es| - 1]);
    }
  }

  /** The switch action the last report was made under, whatever it has been set to since. */
  function ActionUsed(g: Config, es: seq<Event>): Option<Action>
    decreases |es|
  {
    if es == [] then None
    else
      var before, e := es[..|es| - 1], es[|es| - 1];
      if e.Sample? && Reports(InputAfter(Smokes(before)), Reading(e.smoke, e.joined)) then Some(ActionNow(g, before))
      else ActionUsed(g, before)
  }

  /** What the light was last told fits ALARM1, given the action it was told under. */
  predicate Agreed(d: Device, used: Option<Action>) {
    && (if d.told.Some? then d.told.value == d.status else d.status == INITIAL)
    && match used
       case None => !d.status.alarm && d.sent == []
       case Some(OnOff) => d.sent != [] && (Last(d.sent) == On <==> d.status.alarm) && Last(d.sent) != Flip
       case Some(OffOn) => d.sent != [] && (Last(d.sent) == On <==> !d.status.alarm) && Last(d.sent) != Flip
       case Some(Toggle) => d.sent != [] && Last(d.sent) == Flip
       case Some(NoAction) => true
  }

  lemma AgreedSmoke(d: Device, active: bool, joined: bool, used: Option<Action>)
    requires Agreed(d, used)
    ensures Agreed(SmokeSample(d, active, joined),
                   if Reports(Input(d.smoke, d.status.alarm), Reading(active, joined)) then Some(d.action) else used)
  {
  }

  lemma AgreedTamper(d: Device, active: bool, joined: bool, used: Option<Action>)
    requires Agreed(d, used)
    ensures Agreed(TamperSample(d, active, joined), used)
  {
  }

  lemma AgreedStep(g: Config, d: Device, e: Event, used: Option<Action>)
    requires Agreed(d, used)
    ensures Agreed(Handle(g, d, e),
                   if e.Sample? && Reports(Input(d.smoke, d.status.alarm), Reading(e.smoke, e.joined))
                   then Some(d.action) else used)
  {
    if e.Sample? {
      var reports := Reports(Input(d.smoke, d.status.alarm), Reading(e.smoke, e.joined));
      AgreedSmoke(d, e.smoke, e.joined, used);
      AgreedTamper(SmokeSample(d, e.smoke, e.joined), e.tamper, e.joined, if reports then Some(d.action) else used);
    }
  }

  /** In and out of the network, whatever happens and however often the switch action is set
      anew: the last on/off command is the one for what ALARM1 says under the action it was sent
      under, and the last notification carries the status as it is. */
  lemma {:induction false} AlwaysAgreed(g: Config, es: seq<Event>)
    ensures Agreed(Run(g, es), ActionUsed(g, es))
    decreases |es|
  {
    if es != [] {
      var before := es[..|es| - 1];
      AlwaysAgreed(g, before);
      EachBitItsOwnMachine(g, before);
      ActionKept(g, before);
      AgreedStep(g, Run(g, before), es[|es| - 1], ActionUsed(g, before));
    }
  }

  /** How many reports there have been that the switch action has a command for. */
  function Commanded(g: Config, es: seq<Event>): nat
    decreases |es|
  {
    if es == [] then 0
    else
      var before, e := es[..|es| - 1], es[|es| - 1];
      var reports := e.Sample? && Reports(InputAfter(Smokes(before)), Reading(e.smoke, e.joined));
      Commanded(g, before) + (if reports && ActionNow(g, before) != NoAction then 1 else 0)
  }

  /** Each of them sends one command, and nothing else sends any. */
  lemma {:induction false} OneCommandEach(g: Config, es: seq<Event>)
    ensures |Run(g, es).sent| == Commanded(g, es)
    decreases |es|
  {
    if es != [] {
      var before := es[..|es| - 1];
      OneCommandEach(g, before);
      EachBitItsOwnMachine(g, before);
      ActionKept(g, before);
      CommandStep(g, Run(g, before), es[|es| - 1]);
    }
  }

  lemma CommandStep(g: Config, d: Device, e: Event)
    ensures var reports := e.Sample? && Reports(Input(d.smoke, d.status.alarm), Reading(e.smoke, e.joined));
            |Handle(g, d, e).sent| == |d.sent| + (if reports && d.action != NoAction then 1 else 0)
  {
    if e.Sample? {
      TamperAside(SmokeSample(d, e.smoke, e.joined), e.tamper, e.joined);
    }
  }

  /** A report of a level already reported: the counter left its end and came back. */
  predicate Returns(i: Input, r: Reading) {
    Reports(i, r) && i.reported == r.active
  }

  /** An odd number of such reports so far. */
  predicate OddReturns(es: seq<Event>)
    decreases |es|
  {
    es != [] &&
    var before, e := es[..|es| - 1], es[|es| - 1];
    OddReturns(before) != (e.Sample? && Returns(InputAfter(Smokes(before)), Reading(e.smoke, e.joined)))
  }

  predicate Odd<T>(s: seq<T>) {
    |s| % 2 == 1
  }

  lemma OneMore<T>(s: seq<T>, x: T)
    ensures Odd(s + [x]) == !Odd(s)
  {
  }

  /** The tamper half of a sample does not concern ALARM1 or the light. */
  lemma TamperAside(d: Device, active: bool, joined: bool)
    ensures var t := TamperSample(d, active, joined);
            t.status.alarm == d.status.alarm && t.sent == d.sent
  {
  }

  /** How one sample changes the number of toggles. */
  lemma ToggleStep(g: Config, d: Device, e: Event)
    requires d.action == Toggle && e.Sample?
    ensures var again := Returns(Input(d.smoke, d.status.alarm), Reading(e.smoke, e.joined));
            var t := Handle(g, d, e);
            var changed := t.status.alarm != d.status.alarm;
            !(again && changed) && t.sent == (if again || changed then d.sent + [Flip] else d.sent)
  {
    TamperAside(SmokeSample(d, e.smoke, e.joined), e.tamper, e.joined);
  }

  /** The same for any event, as far as parity goes. */
  lemma ParityStep(g: Config, d: Device, e: Event, again: bool)
    requires d.action == Toggle
    requires again == (e.Sample? && Returns(Input(d.smoke, d.status.alarm), Reading(e.smoke, e.joined)))
    ensures var t := Handle(g, d, e);
            (Odd(t.sent) != t.status.alarm) == ((Odd(d.sent) != d.status.alarm) != again)
  {
    if e.Sample? {
      ToggleStep(g, d, e);
      OneMore(d.sent, Flip);
    }
  }

  /** The switch action is never anything but toggling. */
  predicate OnlyToggles(g: Config, es: seq<Event>) {
    g.action == Toggle && forall k :: 0 <= k < |es| && es[k].Configure? ==> es[k].action == Toggle
  }

  lemma {:induction false} StillToggles(g: Config, es: seq<Event>)
    requires OnlyToggles(g, es)
    ensures Run(g, es).action == Toggle
    decreases |es|
  {
    if es != [] {
      StillToggles(g, es[..|es| - 1]);
    }
  }

  /** With the toggle action the light does not follow ALARM1 for good: it does exactly while
      the number of repeated reports is even. */
  lemma {:induction false} TogglesFollowIffEven(g: Config, es: seq<Event>)
    requires OnlyToggles(g, es)
    ensures Odd(Run(g, es).sent) == (Run(g, es).status.alarm != OddReturns(es))
    decreases |es|
  {
    if es != [] {
      var before, e := es[..|es| - 1], es[|es| - 1];
      TogglesFollowIffEven(g, before);
      StillToggles(g, before);
      EachBitItsOwnMachine(g, before);
      ParityStep(g, Run(g, before), e,
                 e.Sample? && Returns(InputAfter(Smokes(before)), Reading(e.smoke, e.joined)));
    }
  }

  /** One stray sample during an alarm is enough. */
  lemma StraySampleReturns(i: Input, joined: bool)
    requires i.count == LIMIT && i.reported
    ensures Returns(InputNext(i, Reading(false, joined)), Reading(true, true))
  {
  }
}
