/** The simulator service as the object it is: its main loop, its callback list and the callbacks that
    commands schedule, updating the fields in place. */
module SimulatorServices {
  import opened Outcomes
  import opened Simulators
  import opened SimulatedTime

  /** One turn of the main loop: commands that arrived since the last one, the light each camera
      receives, and the two readings of the wall clock. */
  datatype LoopTurn = LoopTurn(commands: seq<Kind>, light: Camera -> real, check: real, stamp: real)

  class Simulator {
    const maxTimeFactor: real
    var callbacks: set<Callback>
    var callbackCounter: nat
    var time: real
    var integratingCameras: map<Camera, Setting>
    var cameraIntegratedPower: map<Camera, real>
    var cameraCallbacks: map<Camera, Callback>
    var lastUpdateTime: real
    ghost var past: History

    ghost function State(): Sim
      reads this
    {
      Sim(callbacks, callbackCounter, time, integratingCameras, cameraIntegratedPower, cameraCallbacks, lastUpdateTime)
    }

    ghost function TheWorld(): World
      reads this
    {
      World(State(), past)
    }

    constructor (factor: real, wall: real)
      ensures maxTimeFactor == factor && TheWorld() == Initial(wall)
    {
      maxTimeFactor := factor;
      callbacks, callbackCounter, time := {}, 0, 0.0;
      integratingCameras, cameraIntegratedPower, cameraCallbacks := map[], map[], map[];
      lastUpdateTime := wall;
      past := History([], [], map[], map[]);
    }

    method AddCallback(kind: Kind, t: Option<real>) returns (c: Callback)
      modifies this
      ensures State() == Add(old(State()), kind, if t.Some? then t.value else old(time))
      ensures c == Callback(if t.Some? then t.value else old(time), old(callbackCounter), kind)
      ensures callbacks == old(callbacks) + {c} && callbackCounter == old(callbackCounter) + 1
      ensures past == old(past)
    {
      c := Callback(if t.Some? then t.value else time, callbackCounter, kind);
      callbacks := callbacks + {c};
      callbackCounter := callbackCounter + 1;
    }

    method RemoveCallback(c: Callback)
      modifies this
      ensures State() == Remove(old(State()), c) && past == old(past)
    {
      callbacks := set d | d in callbacks && !(SameId(c, d) && d.time == c.time);
    }

    method StartCallback(cam: Camera, exposure: real, interval: real)
      modifies this
      ensures State() == FireStart(old(State()), cam, exposure, interval) && past == old(past)
    {
      if cam in cameraCallbacks {
        RemoveCallback(cameraCallbacks[cam]);
        cameraCallbacks := cameraCallbacks - {cam};
      }
      var wasAlreadyIntegrating := cam in integratingCameras;
      integratingCameras := integratingCameras[cam := Setting(exposure, interval)];
      if !wasAlreadyIntegrating {
        var c := AddCallback(Reset(cam), None);
        cameraCallbacks := cameraCallbacks[cam := c];
      }
    }

    method EndCallback(cam: Camera)
      modifies this
      ensures State() == FireEnd(old(State()), cam) && past == old(past)
      ensures cam !in integratingCameras && integratingCameras == old(integratingCameras) - {cam}
      ensures callbacks == old(callbacks) && cameraIntegratedPower == old(cameraIntegratedPower)
    {
      if cam in integratingCameras {
        integratingCameras := integratingCameras - {cam};
      }
    }

    method ResetCallback(cam: Camera, t: real)
      modifies this
      ensures State() == FireReset(old(State()), cam, t) && past == old(past)
    {
      if cam !in integratingCameras { return; }
      var Setting(exposure, interval) := integratingCameras[cam];
      cameraIntegratedPower := cameraIntegratedPower[cam := 0.0];
      var c := AddCallback(Readout(cam, exposure, interval), Some(t + exposure));
      cameraCallbacks := cameraCallbacks[cam := c];
    }

    method ReadoutCallback(cam: Camera, exposure: real, interval: real, t: real)
      returns (frame: Option<real>)
      modifies this
      ensures State() == FireReadout(old(State()), cam, exposure, interval, t) && past == old(past)
      ensures frame == if cam in old(cameraIntegratedPower) then Some(old(cameraIntegratedPower)[cam]) else None
    {
      if cam !in cameraIntegratedPower { return None; }
      frame := Some(cameraIntegratedPower[cam]);  // camera_readout
      cameraIntegratedPower := cameraIntegratedPower - {cam};
      if cam in integratingCameras {
        var c := AddCallback(Reset(cam), Some(t - exposure + interval));
        cameraCallbacks := cameraCallbacks[cam := c];
      }
    }

    /** Runs a callback; a readout may hand over a frame. */
    method RunCallback(c: Callback) returns (frame: Option<real>)
      modifies this
      ensures State() == Fire(old(State()), c) && past == old(past)
      ensures frame == if c.kind.Readout? && c.kind.cam in old(cameraIntegratedPower)
                       then Some(old(cameraIntegratedPower)[c.kind.cam]) else None
    {
      frame := None;
      match c.kind
      case StartCamera(cam, exposure, interval) => StartCallback(cam, exposure, interval);
      case EndCamera(cam) => EndCallback(cam);
      case Reset(cam) => ResetCallback(cam, c.time);
      case Readout(cam, exposure, interval) => frame := ReadoutCallback(cam, exposure, interval, c.time);
      case Other(_) =>
    }

    /** heappop: the smallest callback by time, then id. */
    method PopNext() returns (c: Callback)
      requires callbacks != {} && Numbered(State())
      modifies this`callbacks
      ensures IsNext(old(State()), c) && callbacks == old(callbacks) - {c}
      ensures c in old(callbacks) && forall d | d in old(callbacks) && d != c ::
                c.time < d.time || (c.time == d.time && c.id < d.id)
    {
      ghost var next := NextExists(State(), callbacks);
      c :| c in callbacks && forall d | d in callbacks && d != c :: Before(c, d);
      callbacks := callbacks - {c};
    }

    /** One iteration of the main loop, with the command threads kept out of it. What it reads out is what
        the history notes as a frame. */
    method Iteration(turn: LoopTurn) returns (ran: bool, frame: Option<real>, ghost step: Step)
      requires Exact(TheWorld())
      modifies this
      ensures old(callbacks) != {} ==>
                && step.Iterate? && step == Iterate(step.c, turn.light, turn.check, turn.stamp)
                && IsNext(old(State()), step.c)
                && (ran <==> step.c.time - old(time) <= maxTimeFactor * (turn.check - old(lastUpdateTime)))
      ensures ran ==> old(callbacks) != {}
      ensures TheWorld() == if ran then Apply(old(TheWorld()), step) else old(TheWorld())
      ensures ran && old(lastUpdateTime) <= turn.check <= turn.stamp ==> Enabled(old(TheWorld()), step, maxTimeFactor)
      ensures if ran then HandsOver(frame, step.c, old(past.frames), past.frames) else frame == None
    {
      step := Command(Other(0));
      ghost var before := State();
      if callbacks == {} { return false, None, step; }
      var allowed := maxTimeFactor * (turn.check - lastUpdateTime);
      var c := PopNext();
      step := Iterate(c, turn.light, turn.check, turn.stamp);
      assert TooFast(before, c, maxTimeFactor, turn.check) <==> c.time - time > allowed;
      if c.time - time > allowed {
        callbacks := callbacks + {c};
        assert callbacks == before.callbacks;
        return false, None, step;
      }
      assert State() == before.(callbacks := before.callbacks - {c});
      AdvancePopped(before, c, turn.light, turn.stamp);
      frame := Proceed(c, turn);
      assert State() == Fire(Advance(before, c, turn.light, turn.stamp), c);
      FramesTold(before, past, c, turn.light, frame);
      past := Apply(World(before, past), step).past;
      ran := true;
    }

    /** Light is collected up to the time of the callback, and the callback is run. */
    method Proceed(c: Callback, turn: LoopTurn) returns (frame: Option<real>)
      requires c !in callbacks
      modifies this
      ensures State() == Fire(Advance(old(State()), c, turn.light, turn.stamp), c) && past == old(past)
      ensures frame == if c.kind.Readout? && c.kind.cam in old(cameraIntegratedPower)
                       then Some(Collected(old(cameraIntegratedPower)[c.kind.cam], turn.light(c.kind.cam), c.time - old(time)))
                       else None
    {
      var integration := c.time - time;
      cameraIntegratedPower := map cam | cam in cameraIntegratedPower ::
        Collected(cameraIntegratedPower[cam], turn.light(cam), integration);
      time := c.time;
      lastUpdateTime := turn.stamp;
      assert State() == Advance(old(State()), c, turn.light, turn.stamp);
      frame := RunCallback(c);
    }

    static lemma AdvancePopped(s: Sim, c: Callback, light: Camera -> real, wall: real)
      ensures Advance(s.(callbacks := s.callbacks - {c}), c, light, wall) == Advance(s, c, light, wall)
    {
      assert s.callbacks - {c} - {c} == s.callbacks - {c};
    }

    static lemma FramesTold(s: Sim, h: History, c: Callback, light: Camera -> real, frame: Option<real>)
      requires Exact(World(s, h))
      requires frame == if c.kind.Readout? && c.kind.cam in s.power
                        then Some(Collected(s.power[c.kind.cam], light(c.kind.cam), c.time - s.now)) else None
      ensures HandsOver(frame, c, h.frames, h.frames + FrameOf(h, s, c, light))
    {
    }

    /** The frames noted are those before and, if one was handed over, that one. */
    static ghost predicate HandsOver(frame: Option<real>, c: Callback, before: seq<Frame>, after: seq<Frame>) {
      match frame
      case None => after == before
      case Some(power) =>
        c.kind.Readout? && |after| == |before| + 1 && after[..|before|] == before
        && after[|before|].cam == c.kind.cam && after[|before|].power == power
    }

    predicate WellTimed(turns: seq<LoopTurn>, from: nat)
      reads this
    {
      && (forall i | from <= i < |turns| :: lastUpdateTime <= turns[i].check <= turns[i].stamp)
      && (forall i, j | from <= i < j < |turns| :: turns[i].stamp <= turns[j].check)
    }

    predicate AreCommands(kinds: seq<Kind>) {
      forall k | k in kinds :: k.StartCamera? || k.EndCamera? || k.Other?
    }

    predicate AreSound(kinds: seq<Kind>) {
      forall k | k in kinds :: SoundKind(k)
    }

    /** Sensible so far: no setting can set time back and callbacks ran in order. */
    ghost predicate Sensible()
      reads this
    {
      SoundSettings(State()) && Ordered(State(), past.executed)
    }

    /** The main loop, for as long as it is observed: whatever start and end commands arrive between
        iterations, exposures are exact and simulated time keeps its pace; and if their frame intervals
        are at least the exposures, callbacks run in order and time never goes back. */
    method MainLoop(turns: seq<LoopTurn>)
      requires Exact(TheWorld()) && maxTimeFactor >= 0.0 && WellTimed(turns, 0)
      requires forall i | 0 <= i < |turns| :: AreCommands(turns[i].commands)
      modifies this
      ensures Exact(TheWorld())
      ensures forall i | 0 <= i < |past.frames| :: past.frames[i].credited == past.frames[i].exposure
      ensures time - old(time) <= maxTimeFactor * (lastUpdateTime - old(lastUpdateTime))
      ensures old(Sensible()) && (forall i | 0 <= i < |turns| :: AreSound(turns[i].commands)) ==>
                Sensible() && InOrder(past.executed) && old(time) <= time
    {
      ghost var from, start := time, lastUpdateTime;
      ghost var sound := Sensible() && forall i | 0 <= i < |turns| :: AreSound(turns[i].commands);
      FactorGrows(maxTimeFactor, start, start, start);
      for n := 0 to |turns|
        invariant Exact(TheWorld()) && WellTimed(turns, n)
        invariant Paced(TheWorld(), from, start, maxTimeFactor)
        invariant sound ==> Sensible() && from <= time
      {
        Receive(turns[n].commands);
        TakeTurn(turns[n], from, start);
      }
    }

    method TakeTurn(turn: LoopTurn, ghost from: real, ghost start: real)
      requires Exact(TheWorld()) && maxTimeFactor >= 0.0 && Paced(TheWorld(), from, start, maxTimeFactor)
      requires lastUpdateTime <= turn.check <= turn.stamp
      modifies this
      ensures Exact(TheWorld()) && Paced(TheWorld(), from, start, maxTimeFactor)
      ensures lastUpdateTime == old(lastUpdateTime) || lastUpdateTime == turn.stamp
      ensures old(Sensible()) ==> Sensible() && old(time) <= time
    {
      ghost var before, step := TheWorld(), Command(Other(0));
      var ran, frame;
      ran, frame, step := Iteration(turn);
      if ran { IterationKeeps(before, step, from, start, maxTimeFactor); }
    }

    static lemma IterationKeeps(w: World, step: Step, from: real, start: real, factor: real)
      requires step.Iterate? && Exact(w) && factor >= 0.0 && Enabled(w, step, factor) && Paced(w, from, start, factor)
      ensures Exact(Apply(w, step)) && Paced(Apply(w, step), from, start, factor)
      ensures Apply(w, step).sim.lastUpdate == step.stamp
      ensures SoundSettings(w.sim) && Ordered(w.sim, w.past.executed) ==>
                SoundSettings(Apply(w, step).sim) && Ordered(Apply(w, step).sim, Apply(w, step).past.executed)
                && w.sim.now <= Apply(w, step).sim.now
    {
      StepKeepsExact(w, step, factor);
      StepKeepsPace(w, step, from, start, factor);
      FireKeepsClocks(Advance(w.sim, step.c, step.light, step.stamp), step.c);
      if SoundSettings(w.sim) && Ordered(w.sim, w.past.executed) {
        SoundStepIsNotLate(w, step, factor);
        SimulatedTime.StepKeepsInv(w, step, factor);
      }
    }

    /** For each command a callback of its kind is due at that time. */
    static ghost predicate AreScheduled(commands: seq<Kind>, pending: set<Callback>, time: real) {
      forall k | k in commands :: IsDue(k, pending, time)
    }

    static ghost predicate IsDue(k: Kind, pending: set<Callback>, time: real) {
      exists c :: c in pending && c.kind == k && c.time == time
    }

    static lemma OneMoreScheduled(commands: seq<Kind>, i: nat, before: set<Callback>, after: set<Callback>, c: Callback, time: real)
      requires i < |commands| && AreScheduled(commands[..i], before, time)
      requires after == before + {c} && c.kind == commands[i] && c.time == time
      ensures AreScheduled(commands[..i + 1], after, time)
    {
      forall k | k in commands[..i + 1] ensures IsDue(k, after, time) {
        if k in commands[..i] {
          assert IsDue(k, before, time);
          var d :| d in before && d.kind == k && d.time == time;
          assert d in after;
        } else {
          assert c in after && c.kind == k;
        }
      }
    }

    /** Commands schedule their callback for the current simulated time. */
    method Receive(commands: seq<Kind>)
      requires Exact(TheWorld()) && AreCommands(commands)
      modifies this
      ensures Exact(TheWorld()) && past == old(past)
      ensures time == old(time) && lastUpdateTime == old(lastUpdateTime)
      ensures old(Sensible()) && AreSound(commands) ==> Sensible()
      ensures AreScheduled(commands, callbacks, old(time)) && old(callbacks) <= callbacks
    {
      for i := 0 to |commands|
        invariant Exact(TheWorld()) && past == old(past) && old(callbacks) <= callbacks
        invariant AreScheduled(commands[..i], callbacks, old(time))
        invariant time == old(time) && lastUpdateTime == old(lastUpdateTime)
        invariant old(Sensible()) && AreSound(commands) ==> Sensible()
      {
        assert commands[i] in commands;
        AddKeepsExact(TheWorld(), commands[i], time);
        ghost var before := callbacks;
        var c := AddCallback(commands[i], None);
        OneMoreScheduled(commands, i, before, callbacks, c, time);
      }
      assert commands[..|commands|] == commands;
    }
  }
}
