/** The reset/readout chain of one camera over whole runs: when it breaks off, and at what times its
    exposures begin. Nothing here depends on the settings being sensible. */
module CameraChains {
  import opened Simulators
  import SimulatedTime

  ghost predicate HasChain(s: Sim, cam: Camera) {
    exists c :: c in s.callbacks && OnChain(c.kind, cam)
  }

  /** The pending callback of a camera, if it has one, is its handle. */
  lemma ChainIsHandle(s: Sim, cam: Camera)
    requires Chained(s)
    ensures HasChain(s, cam) <==> cam in s.handles && s.handles[cam] in s.callbacks
  {
  }

  // ----- restarting a camera that is already integrating -----

  /** A start command leaves its camera with a pending reset, due at once, exactly when the camera was not already
      integrating; otherwise it cancels the pending callback without a replacement. */
  lemma StartKeepsChainUnlessIntegrating(s: Sim, h: History, c: Callback)
    requires Popped(s, h, c) && c.kind.StartCamera?
    ensures HasChain(Fire(s, c), c.kind.cam) <==> c.kind.cam !in s.integrating
    ensures c.kind.cam !in s.integrating ==>
              exists d :: d in Fire(s, c).callbacks && d.kind == Reset(c.kind.cam) && d.time == c.time
    ensures Fire(s, c).integrating == s.integrating[c.kind.cam := Setting(c.kind.exposure, c.kind.interval)]
  {
    var cam, t := c.kind.cam, Fire(s, c);
    if cam !in s.integrating {
      assert t.handles[cam] in t.callbacks;
    }
  }

  /** Integrating, yet with nothing pending. */
  ghost predicate Stalled(w: World, cam: Camera) {
    cam in w.sim.integrating && !HasChain(w.sim, cam)
  }

  ghost predicate Cycling(w: World, cam: Camera) {
    cam in w.sim.integrating && HasChain(w.sim, cam)
  }

  predicate NeverEnds(steps: seq<Step>, cam: Camera) {
    forall i | 0 <= i < |steps| :: steps[i].Iterate? ==> steps[i].c.kind != EndCamera(cam)
  }

  /** Some iteration executes a start command for the camera while it is integrating. */
  predicate Restarts(w: World, step: Step, cam: Camera) {
    step.Iterate? && step.c.kind.StartCamera? && step.c.kind.cam == cam && cam in w.sim.integrating
  }

  predicate Restarted(w: World, steps: seq<Step>, cam: Camera)
    decreases |steps|
  {
    steps != [] && (Restarts(w, steps[0], cam) || Restarted(Apply(w, steps[0]), steps[1..], cam))
  }

  function FramesOf(frames: seq<Frame>, cam: Camera): nat {
    if frames == [] then 0
    else FramesOf(frames[..|frames| - 1], cam) + if frames[|frames| - 1].cam == cam then 1 else 0
  }

  lemma StepStaysStalled(w: World, step: Step, cam: Camera, factor: real)
    requires Exact(w) && Enabled(w, step, factor) && Stalled(w, cam)
    requires step.Iterate? ==> step.c.kind != EndCamera(cam)
    ensures Stalled(Apply(w, step), cam)
    ensures FramesOf(Apply(w, step).past.frames, cam) == FramesOf(w.past.frames, cam)
  {
    var u := Apply(w, step);
    assert forall c | c in u.sim.callbacks && OnChain(c.kind, cam) :: c in w.sim.callbacks;
    if step.Iterate? {
      var f := FrameOf(w.past, w.sim, step.c, step.light);
      assert !OnChain(step.c.kind, cam);
      if f == [] {
        assert w.past.frames + f == w.past.frames;
      } else {
        assert u.past.frames[..|w.past.frames|] == w.past.frames && u.past.frames[|w.past.frames|] == f[0];
      }
    }
  }

  /** From a stalled camera no frame is read out, whatever start commands follow, until an end command for
      it is executed. */
  lemma {:induction false} StalledCameraStaysStalled(w: World, steps: seq<Step>, cam: Camera, factor: real)
    requires Exact(w) && Possible(w, steps, factor)
    requires Stalled(w, cam) && NeverEnds(steps, cam)
    ensures Stalled(Run(w, steps), cam)
    ensures FramesOf(Run(w, steps).past.frames, cam) == FramesOf(w.past.frames, cam)
    decreases |steps|
  {
    if steps == [] {
    } else {
      StepKeepsExact(w, steps[0], factor);
      StepStaysStalled(w, steps[0], cam, factor);
      StalledCameraStaysStalled(Apply(w, steps[0]), steps[1..], cam, factor);
    }
  }

  /** Cancelling another camera's callback leaves this one's alone. */
  lemma CancelKeepsOthers(s: Sim, other: Camera, c: Callback)
    requires Chained(s) && c in s.callbacks && !OnChain(c.kind, other)
    ensures c in CancelChain(s, other).callbacks
  {
    assert other in s.handles ==> !SameId(s.handles[other], c);
  }

  lemma FireKeepsPending(s: Sim, c: Callback, d: Callback, cam: Camera)
    requires Chained(s) && d in s.callbacks && OnChain(d.kind, cam)
    requires c.kind.StartCamera? ==> c.kind.cam != cam
    ensures d in Fire(s, c).callbacks
  {
    if c.kind.StartCamera? { CancelKeepsOthers(s, c.kind.cam, d); }
  }

  lemma FiredChainGoesOn(s: Sim, h: History, c: Callback, cam: Camera)
    requires Popped(s, h, c) && OnChain(c.kind, cam) && cam in s.integrating
    ensures HasChain(Fire(s, c), cam)
  {
    var t := Fire(s, c);
    assert t.handles[cam] in t.callbacks && OnChain(t.handles[cam].kind, cam);
  }

  lemma StepKeepsCycling(w: World, step: Step, cam: Camera, factor: real)
    requires Exact(w) && Enabled(w, step, factor) && Cycling(w, cam)
    requires step.Iterate? ==> step.c.kind != EndCamera(cam)
    ensures if Restarts(w, step, cam) then Stalled(Apply(w, step), cam) else Cycling(Apply(w, step), cam)
  {
    var d :| d in w.sim.callbacks && OnChain(d.kind, cam);
    if step.Iterate? {
      var c := step.c;
      var s, h := Advance(w.sim, c, step.light, step.stamp), PoppedHistory(w.past, w.sim, c);
      AdvancePops(w, c, step.light, step.stamp);
      if Restarts(w, step, cam) {
        StartKeepsChainUnlessIntegrating(s, h, c);
      } else if OnChain(c.kind, cam) {
        FiredChainGoesOn(s, h, c, cam);
      } else {
        FireKeepsPending(s, c, d, cam);
      }
    } else {
      assert d in Apply(w, step).sim.callbacks;
    }
  }

  /** Over every run in which a cycling camera is not ended: it ends up stalled if and only if some start
      command for it was executed on the way; otherwise it still has its pending callback. */
  lemma {:induction false} StallsExactlyWhenRestarted(w: World, steps: seq<Step>, cam: Camera, factor: real)
    requires Exact(w) && Possible(w, steps, factor)
    requires Cycling(w, cam) && NeverEnds(steps, cam)
    ensures Stalled(Run(w, steps), cam) <==> Restarted(w, steps, cam)
    ensures Cycling(Run(w, steps), cam) <==> !Restarted(w, steps, cam)
    decreases |steps|
  {
    if steps == [] {
    } else {
      var u := Apply(w, steps[0]);
      StepKeepsExact(w, steps[0], factor);
      StepKeepsCycling(w, steps[0], cam, factor);
      if Restarts(w, steps[0], cam) {
        StalledCameraStaysStalled(u, steps[1..], cam, factor);
      } else {
        StallsExactlyWhenRestarted(u, steps[1..], cam, factor);
      }
    }
  }

  // ----- ending an acquisition -----

  /** The readout of an exposure under way. */
  ghost predicate IsExposing(s: Sim, cam: Camera) {
    exists c :: c in s.callbacks && c.kind.Readout? && c.kind.cam == cam
  }

  function Left(exposing: bool): nat { if exposing then 1 else 0 }

  /** Executing an end command stops the camera and touches no other: every other camera keeps its setting
      and its pending callback. */
  lemma EndStopsOnlyItsCamera(w: World, step: Step, cam: Camera, other: Camera)
    requires Exact(w) && step.Iterate? && step.c in w.sim.callbacks && step.c.kind == EndCamera(cam) && other != cam
    ensures var u := Apply(w, step);
            && cam !in u.sim.integrating
            && (other in u.sim.integrating <==> other in w.sim.integrating)
            && (other in w.sim.integrating ==> u.sim.integrating[other] == w.sim.integrating[other])
            && (forall c | c in w.sim.callbacks && OnChain(c.kind, other) :: c in u.sim.callbacks)
            && (forall c | c in u.sim.callbacks :: c in w.sim.callbacks)
  {
  }

  /** No start command for the camera is executed. */
  predicate NeverStarts(steps: seq<Step>, cam: Camera) {
    forall i | 0 <= i < |steps| :: !Starts(steps[i], cam)
  }

  predicate Starts(step: Step, cam: Camera) {
    step.Iterate? && step.c.kind.StartCamera? && step.c.kind.cam == cam
  }

  lemma FramesOfMore(frames: seq<Frame>, more: seq<Frame>, cam: Camera)
    requires |more| <= 1
    ensures FramesOf(frames + more, cam) == FramesOf(frames, cam) + if more != [] && more[0].cam == cam then 1 else 0
  {
    if more == [] {
      assert frames + more == frames;
    } else {
      assert (frames + more)[..|frames|] == frames;
    }
  }

  /** Its last pending callback: a readout hands over the exposure under way, a reset begins none. */
  lemma LastOfChain(w: World, step: Step, cam: Camera)
    requires Exact(w) && step.Iterate? && step.c in w.sim.callbacks && OnChain(step.c.kind, cam)
    requires cam !in w.sim.integrating
    ensures var u := Apply(w, step);
            && cam !in u.sim.integrating && NoChain(u.sim, cam)
            && FramesOf(u.past.frames, cam) == FramesOf(w.past.frames, cam) + Left(step.c.kind.Readout?)
  {
    FramesOfMore(w.past.frames, FrameOf(w.past, w.sim, step.c, step.light), cam);
    forall d | d in w.sim.callbacks && OnChain(d.kind, cam) ensures d == step.c {
      OnePendingPerCamera(w.sim, step.c, d);
    }
  }

  lemma OtherFires(s: Sim, c: Callback, cam: Camera)
    requires Chained(s) && !OnChain(c.kind, cam) && cam !in s.integrating
    requires !(c.kind.StartCamera? && c.kind.cam == cam)
    ensures cam !in Fire(s, c).integrating
    ensures forall d: Callback | OnChain(d.kind, cam) :: d in Fire(s, c).callbacks <==> d in s.callbacks
  {
    forall d | d in s.callbacks && OnChain(d.kind, cam) ensures d in Fire(s, c).callbacks {
      FireKeepsPending(s, c, d, cam);
    }
  }

  lemma OtherFrame(w: World, step: Step, cam: Camera)
    requires step.Iterate? && !OnChain(step.c.kind, cam)
    ensures FramesOf(Apply(w, step).past.frames, cam) == FramesOf(w.past.frames, cam)
  {
    FramesOfMore(w.past.frames, FrameOf(w.past, w.sim, step.c, step.light), cam);
  }

  /** Any other callback but a start of the camera leaves its chain and its frames alone. */
  lemma OtherCallback(w: World, step: Step, cam: Camera)
    requires Exact(w) && step.Iterate? && step.c in w.sim.callbacks && !OnChain(step.c.kind, cam)
    requires cam !in w.sim.integrating && !Starts(step, cam)
    ensures var u := Apply(w, step);
            && cam !in u.sim.integrating
            && (forall d: Callback | OnChain(d.kind, cam) :: d in u.sim.callbacks <==> d in w.sim.callbacks)
            && FramesOf(u.past.frames, cam) == FramesOf(w.past.frames, cam)
  {
    var s := Advance(w.sim, step.c, step.light, step.stamp);
    AdvancePops(w, step.c, step.light, step.stamp);
    OtherFires(s, step.c, cam);
    OtherFrame(w, step, cam);
    ExecutedNext(w, step);
    assert s.callbacks == w.sim.callbacks - {step.c};
  }

  /** From the moment it is not integrating, nothing is added to the camera's chain; an exposure under way
      is read out or still under way. */
  lemma StepStaysEnded(w: World, step: Step, cam: Camera, factor: real)
    requires Exact(w) && Enabled(w, step, factor) && cam !in w.sim.integrating && !Starts(step, cam)
    ensures var u := Apply(w, step);
            && cam !in u.sim.integrating
            && (forall c | c in u.sim.callbacks && OnChain(c.kind, cam) :: c in w.sim.callbacks)
            && FramesOf(u.past.frames, cam) + Left(IsExposing(u.sim, cam))
               == FramesOf(w.past.frames, cam) + Left(IsExposing(w.sim, cam))
  {
    if step.Iterate? && OnChain(step.c.kind, cam) {
      LastOfChain(w, step, cam);
      forall d | d in w.sim.callbacks && OnChain(d.kind, cam) ensures d == step.c {
        OnePendingPerCamera(w.sim, step.c, d);
      }
      assert IsExposing(w.sim, cam) <==> step.c.kind.Readout?;
    } else {
      if step.Iterate? { OtherCallback(w, step, cam); }
      SameExposing(w.sim, Apply(w, step).sim, cam);
    }
  }

  lemma SameExposing(s: Sim, t: Sim, cam: Camera)
    requires forall d: Callback | OnChain(d.kind, cam) :: d in t.callbacks <==> d in s.callbacks
    ensures IsExposing(s, cam) <==> IsExposing(t, cam)
  {
    if IsExposing(s, cam) {
      var d :| d in s.callbacks && d.kind.Readout? && d.kind.cam == cam;
      assert OnChain(d.kind, cam) && d in t.callbacks;
    }
    if IsExposing(t, cam) {
      var d :| d in t.callbacks && d.kind.Readout? && d.kind.cam == cam;
      assert OnChain(d.kind, cam) && d in s.callbacks;
    }
  }

  /** Over every run from there in which the camera is not started again: it does not integrate, its chain
      is never continued, and it reads out at most one more frame: the exposure that was under way, once. */
  lemma {:induction false} EndedCameraFinishes(w: World, steps: seq<Step>, cam: Camera, factor: real)
    requires Exact(w) && Possible(w, steps, factor) && cam !in w.sim.integrating && NeverStarts(steps, cam)
    ensures var u := Run(w, steps);
            && cam !in u.sim.integrating
            && (forall c | c in u.sim.callbacks && OnChain(c.kind, cam) :: c in w.sim.callbacks)
            && FramesOf(u.past.frames, cam) + Left(IsExposing(u.sim, cam))
               == FramesOf(w.past.frames, cam) + Left(IsExposing(w.sim, cam))
    decreases |steps|
  {
    if steps == [] {
    } else {
      assert !Starts(steps[0], cam);
      StepKeepsExact(w, steps[0], factor);
      StepStaysEnded(w, steps[0], cam, factor);
      EndedCameraFinishes(Apply(w, steps[0]), steps[1..], cam, factor);
    }
  }

  /** The whole story of an end command: after it is executed, and until a start command for the camera is,
      at most one frame follows, and only if an exposure was under way; once nothing of the camera is
      pending nothing ever is. A start command executed then has it integrate and expose again. */
  lemma EndThenMaybeStart(w: World, end: Step, steps: seq<Step>, start: Step, cam: Camera, factor: real)
    requires Exact(w) && Possible(w, [end] + steps, factor) && end.Iterate? && end.c.kind == EndCamera(cam)
    requires NeverStarts(steps, cam)
    requires Enabled(Run(w, [end] + steps), start, factor) && Starts(start, cam)
    ensures var u := Run(w, [end] + steps);
            && cam !in u.sim.integrating
            && FramesOf(u.past.frames, cam)
               <= FramesOf(w.past.frames, cam) + (if IsExposing(w.sim, cam) then 1 else 0)
            && (!HasChain(w.sim, cam) ==> !HasChain(u.sim, cam))
            && Cycling(Apply(u, start), cam)
            && Apply(u, start).sim.integrating[cam] == Setting(start.c.kind.exposure, start.c.kind.interval)
  {
    var v := Apply(w, end);
    assert ([end] + steps)[1..] == steps;
    StepKeepsExact(w, end, factor);
    assert v.sim.callbacks == w.sim.callbacks - {end.c};
    assert v.past.frames == w.past.frames;
    EndedCameraFinishes(v, steps, cam, factor);
    var u := Run(v, steps);
    RunKeepsExact(v, steps, factor);
    AdvancePops(u, start.c, start.light, start.stamp);
    StartKeepsChainUnlessIntegrating(
      Advance(u.sim, start.c, start.light, start.stamp), PoppedHistory(u.past, u.sim, start.c), start.c);
  }

  /** Two start commands in a row: the second one stalls the camera before its first exposure. */
  lemma StalledAfterTwoStarts(start: Kind, steps: seq<Step>)
    requires start == StartCamera("c", 1.0, 1.0)
    requires steps == [Command(start), Command(start), SimulatedTime.Turn(Callback(0.0, 0, start), 0.0),
                       SimulatedTime.Turn(Callback(0.0, 1, start), 0.0)]
    ensures Possible(Initial(0.0), steps, 1.0)
    ensures Stalled(Run(Initial(0.0), steps), "c")
  {
    var w := Initial(0.0);
    var w2 := Apply(Apply(w, steps[0]), steps[1]);
    assert w2.sim.callbacks == {steps[2].c, steps[3].c};
    var w3 := Apply(w2, steps[2]);
    assert w3.sim.callbacks == {steps[3].c, Callback(0.0, 2, Reset("c"))};
    var w4 := Apply(w3, steps[3]);
    assert w4.sim.callbacks == {};
    SimulatedTime.RunFour(w, steps[0], steps[1], steps[2], steps[3], 1.0);
  }

  // ----- cadence -----

  /** When the exposures of a camera began. */
  function ResetTimes(executed: seq<Callback>, cam: Camera): seq<real> {
    if executed == [] then []
    else
      var c := executed[|executed| - 1];
      ResetTimes(executed[..|executed| - 1], cam) + if c.kind == Reset(cam) then [c.time] else []
  }

  lemma OneMoreExecuted(executed: seq<Callback>, c: Callback, cam: Camera)
    ensures ResetTimes(executed + [c], cam) == ResetTimes(executed, cam) + if c.kind == Reset(cam) then [c.time] else []
  {
    assert (executed + [c])[..|executed|] == executed;
  }

  /** `k` frame intervals after the first exposure. */
  function Tick(first: real, interval: real, k: nat): real {
    first + k as real * interval
  }

  lemma NextTick(first: real, interval: real, k: nat)
    ensures Tick(first, interval, k + 1) == Tick(first, interval, k) + interval
  {
  }

  /** The exposures begun after the first `m` began on successive ticks, and what is pending belongs to the
      next: its reset, or the readout of the one under way. */
  ghost predicate InCadence(s: Sim, executed: seq<Callback>, cam: Camera, x: Setting, first: real, m: nat) {
    var times := ResetTimes(executed, cam);
    OnTicks(times, m, first, x.interval) && OnTick(s, cam, x, first, |times| - m)
  }

  /** From the m-th on, the times are successive ticks. */
  ghost predicate OnTicks(times: seq<real>, m: nat, first: real, interval: real) {
    m <= |times| && forall i | m <= i < |times| :: times[i] == Tick(first, interval, i - m)
  }

  lemma TimesStayOnTick(executed: seq<Callback>, c: Callback, cam: Camera, m: nat, first: real, interval: real)
    requires OnTicks(ResetTimes(executed, cam), m, first, interval)
    requires c.kind == Reset(cam) ==> c.time == Tick(first, interval, |ResetTimes(executed, cam)| - m)
    ensures OnTicks(ResetTimes(executed + [c], cam), m, first, interval)
    ensures |ResetTimes(executed + [c], cam)| == |ResetTimes(executed, cam)| + if c.kind == Reset(cam) then 1 else 0
  {
    OneMoreExecuted(executed, c, cam);
  }

  ghost predicate OnTick(s: Sim, cam: Camera, x: Setting, first: real, n: nat) {
    && cam in s.integrating && s.integrating[cam] == x
    && cam in s.handles && s.handles[cam] in s.callbacks
    && match s.handles[cam].kind
       case Reset(_) => s.handles[cam].time == Tick(first, x.interval, n)
       case Readout(_, exposure, interval) =>
         && exposure == x.exposure && interval == x.interval
         && n > 0 && s.handles[cam].time == Tick(first, x.interval, n - 1) + x.exposure
       case _ => false
  }

  predicate LeavesAlone(step: Step, cam: Camera) {
    step.Iterate? ==>
      && step.c.kind != EndCamera(cam)
      && !(step.c.kind.StartCamera? && step.c.kind.cam == cam)
  }

  lemma FireOwnKeepsTick(s: Sim, h: History, c: Callback, cam: Camera, x: Setting, first: real, n: nat)
    requires Popped(s, h, c) && OnChain(c.kind, cam) && cam in s.integrating && s.integrating[cam] == x
    requires match c.kind
             case Reset(_) => c.time == Tick(first, x.interval, n)
             case Readout(_, exposure, interval) =>
               exposure == x.exposure && interval == x.interval && n > 0
               && c.time == Tick(first, x.interval, n - 1) + x.exposure
             case _ => false
    ensures OnTick(Fire(s, c), cam, x, first, if c.kind.Reset? then n + 1 else n)
  {
    var t := Fire(s, c);
    if c.kind.Readout? { NextTick(first, x.interval, n - 1); }
    assert t.handles[cam] in t.callbacks;
  }

  lemma FireOtherKeepsTick(s: Sim, c: Callback, cam: Camera, x: Setting, first: real, n: nat)
    requires Chained(s) && OnTick(s, cam, x, first, n) && !OnChain(c.kind, cam)
    requires c.kind != EndCamera(cam) && !(c.kind.StartCamera? && c.kind.cam == cam)
    ensures OnTick(Fire(s, c), cam, x, first, n)
  {
    FireKeepsPending(s, c, s.handles[cam], cam);
  }

  lemma StepKeepsCadence(w: World, step: Step, cam: Camera, x: Setting, first: real, m: nat, factor: real)
    requires Exact(w) && Enabled(w, step, factor) && LeavesAlone(step, cam)
    requires InCadence(w.sim, w.past.executed, cam, x, first, m)
    ensures InCadence(Apply(w, step).sim, Apply(w, step).past.executed, cam, x, first, m)
  {
    if step.Iterate? {
      IterateKeepsCadence(w, step, cam, x, first, m);
      ExecutedNext(w, step);
    }
  }

  lemma ExecutedNext(w: World, step: Step)
    requires step.Iterate?
    ensures Apply(w, step).sim == Fire(Advance(w.sim, step.c, step.light, step.stamp), step.c)
    ensures Apply(w, step).past.executed == w.past.executed + [step.c]
  {
  }

  lemma PendingResetIsOnTick(s: Sim, c: Callback, cam: Camera, x: Setting, first: real, n: nat)
    requires Chained(s) && OnTick(s, cam, x, first, n) && c in s.callbacks && c.kind == Reset(cam)
    ensures c.time == Tick(first, x.interval, n)
  {
    assert s.handles[cam] == c;
  }

  lemma IterateKeepsCadence(w: World, step: Step, cam: Camera, x: Setting, first: real, m: nat)
    requires Exact(w) && step.Iterate? && step.c in w.sim.callbacks && LeavesAlone(step, cam)
    requires InCadence(w.sim, w.past.executed, cam, x, first, m)
    ensures InCadence(Fire(Advance(w.sim, step.c, step.light, step.stamp), step.c), w.past.executed + [step.c],
                      cam, x, first, m)
  {
    var c, n := step.c, |ResetTimes(w.past.executed, cam)| - m;
    IterateKeepsTick(w, step, cam, x, first, n);
    if c.kind == Reset(cam) { PendingResetIsOnTick(w.sim, c, cam, x, first, n); }
    TimesStayOnTick(w.past.executed, c, cam, m, first, x.interval);
  }

  lemma IterateKeepsTick(w: World, step: Step, cam: Camera, x: Setting, first: real, n: nat)
    requires Exact(w) && step.Iterate? && step.c in w.sim.callbacks && LeavesAlone(step, cam)
    requires OnTick(w.sim, cam, x, first, n)
    ensures OnTick(Fire(Advance(w.sim, step.c, step.light, step.stamp), step.c), cam, x, first,
                   if step.c.kind == Reset(cam) then n + 1 else n)
  {
    var c := step.c;
    var s, h := Advance(w.sim, c, step.light, step.stamp), PoppedHistory(w.past, w.sim, c);
    AdvancePops(w, c, step.light, step.stamp);
    if OnChain(c.kind, cam) {
      assert w.sim.handles[cam] == c;
      FireOwnKeepsTick(s, h, c, cam, x, first, n);
    } else {
      assert s.handles[cam] in s.callbacks;
      FireOtherKeepsTick(s, c, cam, x, first, n);
    }
  }

  lemma {:induction false} RunKeepsCadence(w: World, steps: seq<Step>, cam: Camera, x: Setting, first: real, m: nat, factor: real)
    requires Exact(w) && Possible(w, steps, factor) && forall i | 0 <= i < |steps| :: LeavesAlone(steps[i], cam)
    requires InCadence(w.sim, w.past.executed, cam, x, first, m)
    ensures InCadence(Run(w, steps).sim, Run(w, steps).past.executed, cam, x, first, m)
    decreases |steps|
  {
    if steps == [] {
    } else {
      StepKeepsExact(w, steps[0], factor);
      StepKeepsCadence(w, steps[0], cam, x, first, m, factor);
      RunKeepsCadence(Apply(w, steps[0]), steps[1..], cam, x, first, m, factor);
    }
  }

  /** A camera whose first reset is pending and that is neither restarted nor ended begins its k-th
      exposure exactly k frame intervals after its first, over every run. */
  lemma ExposuresKeepCadence(w: World, steps: seq<Step>, cam: Camera, first: Callback, factor: real)
    requires Exact(w) && Possible(w, steps, factor) && forall i | 0 <= i < |steps| :: LeavesAlone(steps[i], cam)
    requires first in w.sim.callbacks && first.kind == Reset(cam) && cam in w.sim.integrating
    ensures OnTicks(ResetTimes(Run(w, steps).past.executed, cam), |ResetTimes(w.past.executed, cam)|,
                    first.time, w.sim.integrating[cam].interval)
  {
    var x, m := w.sim.integrating[cam], |ResetTimes(w.past.executed, cam)|;
    assert w.sim.handles[cam] == first;
    assert Tick(first.time, x.interval, 0) == first.time;
    assert InCadence(w.sim, w.past.executed, cam, x, first.time, m);
    RunKeepsCadence(w, steps, cam, x, first.time, m, factor);
    assert InCadence(Run(w, steps).sim, Run(w, steps).past.executed, cam, x, first.time, m);
  }

  // ----- what a frame holds -----

  /** The light that fell on a camera: over each iteration, its light then times the simulated time that
      passed. */
  function LightOver(w: World, steps: seq<Step>, cam: Camera): real
    decreases |steps|
  {
    if steps == [] then 0.0
    else LightIn(w, steps[0], cam) + LightOver(Apply(w, steps[0]), steps[1..], cam)
  }

  function LightIn(w: World, step: Step, cam: Camera): real {
    if step.Iterate? then step.light(cam) * (step.c.time - w.sim.now) else 0.0
  }

  predicate NoneOfChain(steps: seq<Step>, cam: Camera) {
    forall i | 0 <= i < |steps| :: steps[i].Iterate? ==> !OnChain(steps[i].c.kind, cam)
  }

  lemma StepAddsLight(w: World, step: Step, cam: Camera)
    requires cam in w.sim.power && (step.Iterate? ==> !OnChain(step.c.kind, cam))
    ensures cam in Apply(w, step).sim.power
    ensures Apply(w, step).sim.power[cam] == w.sim.power[cam] + LightIn(w, step, cam)
  {
    if step.Iterate? {
      var s := Advance(w.sim, step.c, step.light, step.stamp);
      FireKeepsPower(s, step.c);
      ExecutedNext(w, step);
    }
  }

  /** Until its next reset or readout a camera keeps what it has collected and adds what falls on it. */
  lemma {:induction false} PowerAddsUp(w: World, steps: seq<Step>, cam: Camera)
    requires cam in w.sim.power && NoneOfChain(steps, cam)
    ensures cam in Run(w, steps).sim.power
    ensures Run(w, steps).sim.power[cam] == w.sim.power[cam] + LightOver(w, steps, cam)
    decreases |steps|
  {
    if steps == [] {
    } else {
      StepAddsLight(w, steps[0], cam);
      PowerAddsUp(Apply(w, steps[0]), steps[1..], cam);
    }
  }

  /** For any light: the readout that follows a reset hands over one frame, and its power is exactly the
      light that fell on the camera between the two. */
  lemma FrameHoldsTheLight(w: World, reset: Step, steps: seq<Step>, read: Step, cam: Camera, factor: real)
    requires Exact(w) && Enabled(w, reset, factor) && reset.Iterate? && reset.c.kind == Reset(cam)
    requires cam in w.sim.integrating
    requires Possible(Apply(w, reset), steps, factor) && NoneOfChain(steps, cam)
    requires Enabled(Run(Apply(w, reset), steps), read, factor)
    requires read.Iterate? && read.c.kind.Readout? && read.c.kind.cam == cam
    ensures var u := Run(Apply(w, reset), steps);
            AddsFrame(u.past.frames, Apply(u, read).past.frames, cam, LightOver(Apply(w, reset), steps, cam) + LightIn(u, read, cam))
  {
    var v := Apply(w, reset);
    var u := Run(v, steps);
    ResetClears(w, reset, cam);
    PowerAddsUp(v, steps, cam);
    StepKeepsExact(w, reset, factor);
    RunKeepsExact(v, steps, factor);
    ReadoutHandsOver(u, read, cam);
  }

  /** One frame more, of that camera and power. */
  ghost predicate AddsFrame(before: seq<Frame>, after: seq<Frame>, cam: Camera, power: real) {
    && |after| == |before| + 1 && after[..|before|] == before
    && after[|before|].cam == cam && after[|before|].power == power
  }

  lemma ReadoutHandsOver(u: World, read: Step, cam: Camera)
    requires Exact(u) && cam in u.sim.power
    requires read.Iterate? && read.c.kind.Readout? && read.c.kind.cam == cam
    ensures AddsFrame(u.past.frames, Apply(u, read).past.frames, cam, u.sim.power[cam] + LightIn(u, read, cam))
  {
    var f := FrameOf(u.past, u.sim, read.c, read.light);
    assert |f| == 1 && Apply(u, read).past.frames == u.past.frames + f;
  }

  lemma ResetClears(w: World, reset: Step, cam: Camera)
    requires reset.Iterate? && reset.c.kind == Reset(cam) && cam in w.sim.integrating
    ensures cam in Apply(w, reset).sim.power && Apply(w, reset).sim.power[cam] == 0.0
  {
    ExecutedNext(w, reset);
    FireKeepsPower(Advance(w.sim, reset.c, reset.light, reset.stamp), reset.c);
  }
}
