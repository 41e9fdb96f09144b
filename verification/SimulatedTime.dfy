/** Simulated time: in which order callbacks run, and exactly when time goes back. */
module SimulatedTime {
  import opened Simulators

  /** Nothing pending lies before the present. */
  ghost predicate NothingPast(s: Sim) {
    forall c | c in s.callbacks :: s.now <= c.time
  }

  /** Each executed callback comes before the next. */
  ghost predicate InOrder(executed: seq<Callback>) {
    var n := |executed|;
    n < 2 || (Before(executed[n - 2], executed[n - 1]) && InOrder(executed[..n - 1]))
  }

  lemma {:induction false} InOrderMeansIncreasing(executed: seq<Callback>, i: nat, j: nat)
    requires InOrder(executed) && i < j < |executed|
    ensures executed[i].time < executed[j].time
         || (executed[i].time == executed[j].time && executed[i].id < executed[j].id)
    decreases |executed|
  {
    var n := |executed|;
    if j < n - 1 {
      InOrderMeansIncreasing(executed[..n - 1], i, j);
    } else if i < n - 2 {
      InOrderMeansIncreasing(executed[..n - 1], i, n - 2);
    }
  }

  /** Nothing pending lies before the present or before what was executed. */
  ghost predicate Ordered(s: Sim, executed: seq<Callback>) {
    && NothingPast(s)
    && (executed != [] ==>
          var last := executed[|executed| - 1];
          last.time == s.now && last.id < s.counter && forall c | c in s.callbacks :: Before(last, c))
    && InOrder(executed)
  }

  ghost predicate Inv(w: World) {
    Exact(w) && Ordered(w.sim, w.past.executed)
  }

  lemma InitialInv(wall: real)
    ensures Inv(Initial(wall)) && SoundSettings(Initial(wall).sim)
  {
  }

  // ----- what schedules in the past -----

  /** The callback about to run schedules another one before its own time: a reset with a negative
      exposure, or a readout whose frame interval is shorter than the exposure. */
  predicate FiresLate(s: Sim, c: Callback) {
    match c.kind
    case Reset(cam) => cam in s.integrating && s.integrating[cam].exposure < 0.0
    case Readout(cam, exposure, interval) => cam in s.power && cam in s.integrating && interval < exposure
    case _ => false
  }

  predicate Late(w: World, step: Step) {
    match step
    case Iterate(c, _, _, _) => FiresLate(w.sim, c)
    case Command(_) => false
    case Schedule(_, time) => time < w.sim.now
  }

  lemma FireLeavesNothingPast(s: Sim, c: Callback)
    requires NothingPast(s) && c.time == s.now
    ensures NothingPast(Fire(s, c)) <==> !FiresLate(s, c)
  {
    if FiresLate(s, c) {
      var t := if c.kind.Reset? then c.time + s.integrating[c.kind.cam].exposure
               else c.time - c.kind.exposure + c.kind.interval;
      assert Fire(s, c).handles[c.kind.cam] in Fire(s, c).callbacks && Fire(s, c).handles[c.kind.cam].time == t;
    }
  }

  /** With nothing pending in the past, a step leaves nothing in the past exactly when it is none of the
      late ones: a callback of negative exposure or short interval, or one added for an earlier time. */
  lemma StepLeavesNothingPast(w: World, step: Step, factor: real)
    requires NothingPast(w.sim) && Enabled(w, step, factor)
    ensures NothingPast(Apply(w, step).sim) <==> !Late(w, step)
  {
    match step
    case Iterate(c, light, _, stamp) =>
      var s := Advance(w.sim, c, light, stamp);
      assert NothingPast(s);
      FireLeavesNothingPast(s, c);
    case Command(kind) =>
    case Schedule(tag, time) =>
      assert Callback(time, w.sim.counter, Other(tag)) in Apply(w, step).sim.callbacks;
  }

  /** An iteration sets time back exactly when something pending lies in the past. */
  lemma IterationGoesBackWhen(w: World, step: Step, factor: real)
    requires step.Iterate? && Enabled(w, step, factor)
    ensures Apply(w, step).sim.now < w.sim.now <==> !NothingPast(w.sim)
  {
    FireKeepsClocks(Advance(w.sim, step.c, step.light, step.stamp), step.c);
    if !NothingPast(w.sim) {
      var d :| d in w.sim.callbacks && d.time < w.sim.now;
      assert d == step.c || Before(step.c, d);
    }
  }

  // ----- runs -----

  predicate NeverLate(w: World, steps: seq<Step>)
    decreases |steps|
  {
    steps == [] || (!Late(w, steps[0]) && NeverLate(Apply(w, steps[0]), steps[1..]))
  }

  predicate GoesBack(w: World, steps: seq<Step>)
    decreases |steps|
  {
    steps != [] && (Apply(w, steps[0]).sim.now < w.sim.now || GoesBack(Apply(w, steps[0]), steps[1..]))
  }

  /** What lies in the past stays pending until an iteration goes back to it. */
  lemma {:induction false} PastIsReached(w: World, steps: seq<Step>, factor: real)
    requires !NothingPast(w.sim) && Possible(w, steps, factor)
    requires steps != [] && steps[|steps| - 1].Iterate?
    ensures GoesBack(w, steps)
    decreases |steps|
  {
    if steps[0].Iterate? {
      IterationGoesBackWhen(w, steps[0], factor);
    } else {
      var d :| d in w.sim.callbacks && d.time < w.sim.now;
      assert d in Apply(w, steps[0]).sim.callbacks;
      PastIsReached(Apply(w, steps[0]), steps[1..], factor);
    }
  }

  /** Over every run, taken up to an iteration, simulated time goes back somewhere if and only if a step
      before that iteration was late. */
  lemma {:induction false} TimeGoesBackExactly(w: World, steps: seq<Step>, factor: real)
    requires NothingPast(w.sim) && Possible(w, steps, factor)
    requires steps != [] && steps[|steps| - 1].Iterate?
    ensures GoesBack(w, steps) <==> !NeverLate(w, steps[..|steps| - 1])
    decreases |steps|
  {
    var u, rest, early := Apply(w, steps[0]), steps[1..], steps[..|steps| - 1];
    if steps[0].Iterate? { IterationGoesBackWhen(w, steps[0], factor); }
    if rest == [] {
      assert early == [];
    } else {
      assert early[0] == steps[0] && early[1..] == rest[..|rest| - 1];
      StepLeavesNothingPast(w, steps[0], factor);
      if Late(w, steps[0]) {
        PastIsReached(u, rest, factor);
      } else {
        TimeGoesBackExactly(u, rest, factor);
      }
    }
  }

  lemma FireKeepsOrdered(s: Sim, executed: seq<Callback>, c: Callback)
    requires Ordered(s, executed) && executed != [] && executed[|executed| - 1] == c && !FiresLate(s, c)
    ensures Ordered(Fire(s, c), executed)
  {
    FireLeavesNothingPast(s, c);
    FireKeepsClocks(s, c);
    forall d | d in Fire(s, c).callbacks ensures Before(c, d) {
      assert d in s.callbacks || d.id == s.counter;
    }
  }

  lemma AdvanceKeepsOrdered(s: Sim, executed: seq<Callback>, c: Callback, light: Camera -> real, wall: real)
    requires Numbered(s) && Ordered(s, executed) && IsNext(s, c)
    ensures Ordered(Advance(s, c, light, wall), executed + [c])
  {
    assert (executed + [c])[..|executed|] == executed;
  }

  lemma StepKeepsInv(w: World, step: Step, factor: real)
    requires Inv(w) && Enabled(w, step, factor) && !Late(w, step)
    ensures Inv(Apply(w, step))
    ensures w.sim.now <= Apply(w, step).sim.now
  {
    StepKeepsExact(w, step, factor);
    if step.Iterate? {
      var s := Advance(w.sim, step.c, step.light, step.stamp);
      AdvanceKeepsOrdered(w.sim, w.past.executed, step.c, step.light, step.stamp);
      FireKeepsOrdered(s, w.past.executed + [step.c], step.c);
      FireKeepsClocks(s, step.c);
    }
  }

  /** Over every run without a late step, for every interleaving of camera commands, callbacks are executed
      in strictly increasing (time, id) order and simulated time never goes back. */
  lemma {:induction false} RunKeepsInv(w: World, steps: seq<Step>, factor: real)
    requires Inv(w) && Possible(w, steps, factor) && NeverLate(w, steps)
    ensures Inv(Run(w, steps))
    ensures w.sim.now <= Run(w, steps).sim.now
    decreases |steps|
  {
    if steps == [] {
    } else {
      StepKeepsInv(w, steps[0], factor);
      RunKeepsInv(Apply(w, steps[0]), steps[1..], factor);
    }
  }

  // ----- settings that are never late -----

  predicate Sound(exposure: real, interval: real) {
    0.0 <= exposure <= interval
  }

  predicate SoundKind(k: Kind) {
    k.StartCamera? || k.Readout? ==> Sound(k.exposure, k.interval)
  }

  /** Every exposure lasts between nothing and a frame interval. */
  ghost predicate SoundSettings(s: Sim) {
    && (forall c | c in s.callbacks :: SoundKind(c.kind))
    && (forall cam | cam in s.integrating :: Sound(s.integrating[cam].exposure, s.integrating[cam].interval))
  }

  predicate SoundStep(w: World, step: Step) {
    match step
    case Iterate(_, _, _, _) => true
    case Command(kind) => SoundKind(kind)
    case Schedule(_, time) => w.sim.now <= time
  }

  predicate SoundSteps(w: World, steps: seq<Step>)
    decreases |steps|
  {
    steps == [] || (SoundStep(w, steps[0]) && SoundSteps(Apply(w, steps[0]), steps[1..]))
  }

  lemma SoundStepIsNotLate(w: World, step: Step, factor: real)
    requires SoundSettings(w.sim) && Enabled(w, step, factor) && SoundStep(w, step)
    ensures !Late(w, step) && SoundSettings(Apply(w, step).sim)
  {
    if step.Iterate? {
      var s := Advance(w.sim, step.c, step.light, step.stamp);
      assert SoundSettings(s) && SoundKind(step.c.kind);
      FireKeepsSound(s, step.c);
    }
  }

  lemma FireKeepsSound(s: Sim, c: Callback)
    requires SoundSettings(s) && SoundKind(c.kind)
    ensures SoundSettings(Fire(s, c))
  {
  }

  /** If every start command asks for a frame interval of at least the exposure, and no callback is added
      for an earlier time, no step is late, whatever cameras are started, restarted or ended. */
  lemma {:induction false} SoundRunIsNeverLate(w: World, steps: seq<Step>, factor: real)
    requires SoundSettings(w.sim) && Possible(w, steps, factor) && SoundSteps(w, steps)
    ensures NeverLate(w, steps) && SoundSettings(Run(w, steps).sim)
    decreases |steps|
  {
    if steps == [] {
    } else {
      SoundStepIsNotLate(w, steps[0], factor);
      SoundRunIsNeverLate(Apply(w, steps[0]), steps[1..], factor);
    }
  }

  // ----- late runs from a new simulator -----

  lemma {:induction false} RunOneMore(w: World, steps: seq<Step>, x: Step, factor: real)
    ensures Possible(w, steps + [x], factor) <==> Possible(w, steps, factor) && Enabled(Run(w, steps), x, factor)
    ensures Run(w, steps + [x]) == Apply(Run(w, steps), x)
    decreases |steps|
  {
    if steps == [] {
      assert [x][1..] == [] && steps + [x] == [x];
    } else {
      assert (steps + [x])[1..] == steps[1..] + [x];
      RunOneMore(Apply(w, steps[0]), steps[1..], x, factor);
    }
  }

  lemma RunFour(w: World, a: Step, b: Step, c: Step, d: Step, factor: real)
    requires var w1 := Apply(w, a); var w2 := Apply(w1, b); var w3 := Apply(w2, c);
             Enabled(w, a, factor) && Enabled(w1, b, factor) && Enabled(w2, c, factor) && Enabled(w3, d, factor)
    ensures Possible(w, [a, b, c, d], factor)
    ensures Run(w, [a, b, c, d]) == Apply(Apply(Apply(Apply(w, a), b), c), d)
  {
    RunOneMore(w, [], a, factor);
    assert [] + [a] == [a];
    RunOneMore(w, [a], b, factor);
    assert [a] + [b] == [a, b];
    RunOneMore(w, [a, b], c, factor);
    assert [a, b] + [c] == [a, b, c];
    RunOneMore(w, [a, b, c], d, factor);
    assert [a, b, c] + [d] == [a, b, c, d];
  }

  /** An iteration in the dark that is never too early. */
  function Turn(c: Callback, wall: real): Step {
    Iterate(c, _ => 0.0, wall, wall)
  }

  /** An exposure of 2 s with a frame every second: after the readout at 2 s, the second reset is executed
      at 1 s. */
  lemma ShortIntervalGoesBack(start: Kind, steps: seq<Step>, last: Step)
    requires start == StartCamera("c", 2.0, 1.0)
    requires steps == [Command(start), Turn(Callback(0.0, 0, start), 0.0), Turn(Callback(0.0, 1, Reset("c")), 0.0),
                       Turn(Callback(2.0, 2, Readout("c", 2.0, 1.0)), 2.0)]
    requires last == Turn(Callback(1.0, 3, Reset("c")), 2.0)
    ensures Possible(Initial(0.0), steps + [last], 1.0)
    ensures Run(Initial(0.0), steps).sim.now == 2.0 && Run(Initial(0.0), steps + [last]).sim.now == 1.0
  {
    var w := Initial(0.0);
    var w1 := Apply(w, steps[0]);
    assert w1.sim.callbacks == {steps[1].c};
    var w2 := Apply(w1, steps[1]);
    assert w2.sim.callbacks == {steps[2].c};
    var w3 := Apply(w2, steps[2]);
    assert w3.sim.callbacks == {steps[3].c};
    var w4 := Apply(w3, steps[3]);
    assert w4.sim.callbacks == {last.c};
    RunFour(w, steps[0], steps[1], steps[2], steps[3], 1.0);
    RunOneMore(w, steps, last, 1.0);
  }

  /** A negative exposure: the readout is executed one second before the reset. */
  lemma NegativeExposureGoesBack(start: Kind, steps: seq<Step>)
    requires start == StartCamera("c", -1.0, 0.0)
    requires steps == [Command(start), Turn(Callback(0.0, 0, start), 0.0), Turn(Callback(0.0, 1, Reset("c")), 0.0),
                       Turn(Callback(-1.0, 2, Readout("c", -1.0, 0.0)), 0.0)]
    ensures Possible(Initial(0.0), steps, 1.0) && Run(Initial(0.0), steps).sim.now == -1.0
  {
    var w := Initial(0.0);
    var w1 := Apply(w, steps[0]);
    assert w1.sim.callbacks == {steps[1].c};
    var w2 := Apply(w1, steps[1]);
    assert w2.sim.callbacks == {steps[2].c};
    var w3 := Apply(w2, steps[2]);
    assert w3.sim.callbacks == {steps[3].c};
    RunFour(w, steps[0], steps[1], steps[2], steps[3], 1.0);
    FireKeepsClocks(Advance(w3.sim, steps[3].c, _ => 0.0, 0.0), steps[3].c);
  }
}
