/** The discrete-event simulator as a value: pending callbacks, simulated time, and the cameras whose
    images are integrated while time passes. Steps are one iteration of the main loop, or a command
    arriving between two iterations. */
module Simulators {
  type Camera = string

  datatype Kind =
    | StartCamera(cam: Camera, exposure: real, interval: real)
    | EndCamera(cam: Camera)
    | Reset(cam: Camera)
    | Readout(cam: Camera, exposure: real, interval: real)
    | Other(tag: int)

  datatype Callback = Callback(time: real, id: nat, kind: Kind)

  datatype Setting = Setting(exposure: real, interval: real)

  datatype Sim = Sim(
    callbacks: set<Callback>,
    counter: nat,
    now: real,                          // the time stream
    integrating: map<Camera, Setting>,
    power: map<Camera, real>,           // camera_integrated_power
    handles: map<Camera, Callback>,     // camera_callbacks
    lastUpdate: real)                   // wall clock of the last progress

  /** What a run leaves behind: the callbacks executed, the frames read out, and for each camera being
      exposed when it was reset and how much simulated time was credited since. */
  datatype Frame = Frame(cam: Camera, power: real, credited: real, exposure: real)

  datatype History = History(
    executed: seq<Callback>, frames: seq<Frame>, resetAt: map<Camera, real>, credited: map<Camera, real>)

  datatype World = World(sim: Sim, past: History)

  // ----- the callback list -----

  predicate Before(a: Callback, b: Callback) {
    a.time < b.time || (a.time == b.time && a.id < b.id)
  }

  predicate IsNext(s: Sim, c: Callback) {
    c in s.callbacks && forall d | d in s.callbacks && d != c :: Before(c, d)
  }

  function Add(s: Sim, kind: Kind, t: real): Sim {
    s.(callbacks := s.callbacks + {Callback(t, s.counter, kind)}, counter := s.counter + 1)
  }

  predicate SameId(c: Callback, d: Callback) {
    c.id == d.id
  }

  /** Callbacks compare equal by time and id; removing one that is not there does nothing. */
  function Remove(s: Sim, c: Callback): Sim {
    s.(callbacks := set d | d in s.callbacks && !(SameId(c, d) && d.time == c.time))
  }

  /** Schedules a reset or readout and remembers it as the camera's callback. */
  function AddChain(s: Sim, cam: Camera, kind: Kind, t: real): Sim {
    Add(s, kind, t).(handles := s.handles[cam := Callback(t, s.counter, kind)])
  }

  // ----- what each callback does -----

  function CancelChain(s: Sim, cam: Camera): Sim {
    if cam in s.handles then Remove(s, s.handles[cam]).(handles := s.handles - {cam}) else s
  }

  function FireStart(s: Sim, cam: Camera, exposure: real, interval: real): Sim {
    var r := CancelChain(s, cam);
    var q := r.(integrating := r.integrating[cam := Setting(exposure, interval)]);
    if cam in s.integrating then q else AddChain(q, cam, Reset(cam), q.now)
  }

  function FireEnd(s: Sim, cam: Camera): Sim {
    s.(integrating := s.integrating - {cam})
  }

  function FireReset(s: Sim, cam: Camera, t: real): Sim {
    if cam !in s.integrating then s
    else
      var x := s.integrating[cam];
      AddChain(s.(power := s.power[cam := 0.0]), cam, Readout(cam, x.exposure, x.interval), t + x.exposure)
  }

  function FireReadout(s: Sim, cam: Camera, exposure: real, interval: real, t: real): Sim {
    if cam !in s.power then s
    else
      var r := s.(power := s.power - {cam});
      if cam !in s.integrating then r else AddChain(r, cam, Reset(cam), t - exposure + interval)
  }

  function Fire(s: Sim, c: Callback): Sim {
    match c.kind
    case StartCamera(cam, exposure, interval) => FireStart(s, cam, exposure, interval)
    case EndCamera(cam) => FireEnd(s, cam)
    case Reset(cam) => FireReset(s, cam, c.time)
    case Readout(cam, exposure, interval) => FireReadout(s, cam, exposure, interval, c.time)
    case Other(_) => s
  }

  function Collected(power: real, light: real, dt: real): real {
    power + light * dt
  }

  /** Simulated time moves to the callback: every camera being exposed collects light meanwhile. */
  function Advance(s: Sim, c: Callback, light: Camera -> real, wall: real): Sim {
    s.(callbacks := s.callbacks - {c},
       power := map cam | cam in s.power :: Collected(s.power[cam], light(cam), c.time - s.now),
       now := c.time,
       lastUpdate := wall)
  }

  // ----- steps -----

  datatype Step =
    | Iterate(c: Callback, light: Camera -> real, check: real, stamp: real)
    | Command(kind: Kind)               // scheduled for the current simulated time
    | Schedule(tag: int, time: real)    // any other callback, for a given time

  /** Time may not run faster than `factor` times the wall clock since the last progress. */
  predicate TooFast(s: Sim, c: Callback, factor: real, wall: real) {
    c.time - s.now > factor * (wall - s.lastUpdate)
  }

  predicate Enabled(w: World, step: Step, factor: real) {
    match step
    case Iterate(c, _, check, stamp) =>
      && IsNext(w.sim, c)
      && w.sim.lastUpdate <= check <= stamp
      && !TooFast(w.sim, c, factor, check)
    case Command(kind) => kind.StartCamera? || kind.EndCamera? || kind.Other?
    case Schedule(_, _) => true
  }

  function Remember(h: History, s: Sim, c: Callback): History {
    var dt := c.time - s.now;
    var credited := map cam | cam in h.credited :: h.credited[cam] + dt;
    var g := h.(executed := h.executed + [c], credited := credited);
    if c.kind.Reset? && c.kind.cam in s.integrating then
      g.(resetAt := g.resetAt[c.kind.cam := c.time], credited := g.credited[c.kind.cam := 0.0])
    else if c.kind.Readout? && c.kind.cam in s.power && c.kind.cam in credited then
      g.(resetAt := g.resetAt - {c.kind.cam}, credited := g.credited - {c.kind.cam})
    else g
  }

  /** The frame a readout hands over, if it does. */
  function FrameOf(h: History, s: Sim, c: Callback, light: Camera -> real): seq<Frame> {
    if c.kind.Readout? && c.kind.cam in s.power && c.kind.cam in h.credited then
      var dt := c.time - s.now;
      [Frame(c.kind.cam, Collected(s.power[c.kind.cam], light(c.kind.cam), dt), h.credited[c.kind.cam] + dt, c.kind.exposure)]
    else []
  }

  function Apply(w: World, step: Step): World {
    match step
    case Iterate(c, light, _, stamp) =>
      World(Fire(Advance(w.sim, c, light, stamp), c),
            Remember(w.past, w.sim, c).(frames := w.past.frames + FrameOf(w.past, w.sim, c, light)))
    case Command(kind) => w.(sim := Add(w.sim, kind, w.sim.now))
    case Schedule(tag, time) => w.(sim := Add(w.sim, Other(tag), time))
  }

  predicate Possible(w: World, steps: seq<Step>, factor: real)
    decreases |steps|
  {
    steps == [] || (Enabled(w, steps[0], factor) && Possible(Apply(w, steps[0]), steps[1..], factor))
  }

  function Run(w: World, steps: seq<Step>): World
    decreases |steps|
  {
    if steps == [] then w else Run(Apply(w, steps[0]), steps[1..])
  }

  // ----- the invariant -----

  predicate OnChain(k: Kind, cam: Camera) {
    (k.Reset? || k.Readout?) && k.cam == cam
  }

  /** Ids are unique and below the counter. */
  ghost predicate Numbered(s: Sim) {
    && (forall c | c in s.callbacks :: c.id < s.counter)
    && (forall c, d {:trigger SameId(c, d)} | c in s.callbacks && d in s.callbacks && SameId(c, d) :: c == d)
  }

  /** A camera's handle is the only pending callback of its reset/readout chain, if any is; a handle
      whose callback has run stands for no other callback. */
  ghost predicate Chained(s: Sim) {
    && (forall c | c in s.callbacks && (c.kind.Reset? || c.kind.Readout?) ::
          c.kind.cam in s.handles && s.handles[c.kind.cam] == c)
    && (forall cam | cam in s.handles :: OnChain(s.handles[cam].kind, cam) && s.handles[cam].id < s.counter)
    && (forall cam, c {:trigger SameId(s.handles[cam], c)} |
          cam in s.handles && c in s.callbacks && SameId(s.handles[cam], c) :: c == s.handles[cam])
  }

  /** The time credited to a camera is the time since its reset, and a pending readout is due exactly
      one exposure after the reset. */
  ghost predicate Exposed(s: Sim, h: History) {
    && s.power.Keys == h.resetAt.Keys == h.credited.Keys
    && (forall cam | cam in h.resetAt :: h.credited[cam] == s.now - h.resetAt[cam])
    && (forall c | c in s.callbacks && c.kind.Readout? ::
          c.kind.cam in h.resetAt && c.time == h.resetAt[c.kind.cam] + c.kind.exposure)
    && (forall i | 0 <= i < |h.frames| :: h.frames[i].credited == h.frames[i].exposure)
  }

  /** What holds for any settings, also when time goes back. */
  ghost predicate Exact(w: World) {
    Numbered(w.sim) && Chained(w.sim) && Exposed(w.sim, w.past)
  }

  ghost predicate NoChain(s: Sim, cam: Camera) {
    forall d | d in s.callbacks :: !OnChain(d.kind, cam)
  }

  lemma AddKeepsNumbered(s: Sim, kind: Kind, t: real)
    requires Numbered(s)
    ensures Numbered(Add(s, kind, t))
  {
  }

  lemma AddChainKeepsChained(s: Sim, cam: Camera, kind: Kind, t: real)
    requires Numbered(s) && Chained(s) && NoChain(s, cam) && OnChain(kind, cam)
    ensures Chained(AddChain(s, cam, kind, t))
  {
  }

  lemma AddChainKeepsExact(s: Sim, h: History, cam: Camera, kind: Kind, t: real)
    requires Exact(World(s, h)) && NoChain(s, cam) && OnChain(kind, cam)
    requires kind.Readout? ==> cam in h.resetAt && t == h.resetAt[cam] + kind.exposure
    ensures Exact(World(AddChain(s, cam, kind, t), h))
  {
    var u := AddChain(s, cam, kind, t);
    AddKeepsNumbered(s, kind, t);
    assert Numbered(u);
    AddChainKeepsChained(s, cam, kind, t);
    assert Exposed(u, h);
  }

  /** What is known between popping a callback and running it. */
  ghost predicate Popped(s: Sim, h: History, c: Callback) {
    && Exact(World(s, h)) && c.time == s.now
    && (c.kind.Reset? || c.kind.Readout? ==> NoChain(s, c.kind.cam))
    && (c.kind.Readout? ==> c.kind.cam in h.resetAt && c.time == h.resetAt[c.kind.cam] + c.kind.exposure)
  }

  function PoppedHistory(h: History, s: Sim, c: Callback): History {
    h.(executed := h.executed + [c],
       credited := map cam | cam in h.credited :: h.credited[cam] + (c.time - s.now))
  }

  lemma AdvanceKeepsExposed(s: Sim, h: History, c: Callback, light: Camera -> real, wall: real)
    requires Exposed(s, h) && c in s.callbacks
    ensures Exposed(Advance(s, c, light, wall), PoppedHistory(h, s, c))
  {
  }

  lemma AdvancePops(w: World, c: Callback, light: Camera -> real, wall: real)
    requires Exact(w) && c in w.sim.callbacks
    ensures Popped(Advance(w.sim, c, light, wall), PoppedHistory(w.past, w.sim, c), c)
  {
    var s := Advance(w.sim, c, light, wall);
    AdvanceKeepsExposed(w.sim, w.past, c, light, wall);
    assert Numbered(s) && Chained(s);
  }

  lemma CancelChainKeepsExact(s: Sim, h: History, cam: Camera)
    requires Exact(World(s, h))
    ensures Exact(World(CancelChain(s, cam), h)) && NoChain(CancelChain(s, cam), cam)
  {
    var r := CancelChain(s, cam);
    assert r.callbacks <= s.callbacks;
    assert Numbered(r);
    assert Chained(r);
    assert Exposed(r, h);
  }

  /** Changing settings or powers leaves what only depends on callbacks, time and handles. */
  lemma SameCallbacks(s: Sim, q: Sim)
    requires Numbered(s) && Chained(s)
    requires q.callbacks == s.callbacks && q.counter == s.counter && q.handles == s.handles
    ensures Numbered(q) && Chained(q)
  {
  }

  lemma SameExposures(s: Sim, q: Sim, h: History)
    requires Exposed(s, h)
    requires q.callbacks == s.callbacks && q.now == s.now && q.power == s.power
    ensures Exposed(q, h)
  {
  }

  /** Cancelling the chain and noting the new setting, before any reset is scheduled. */
  lemma StartSettles(s: Sim, h: History, cam: Camera, exposure: real, interval: real)
    requires Exact(World(s, h))
    ensures var r := CancelChain(s, cam);
            var q := r.(integrating := r.integrating[cam := Setting(exposure, interval)]);
            Exact(World(q, h)) && NoChain(q, cam)
  {
    CancelChainKeepsExact(s, h, cam);
    var r := CancelChain(s, cam);
    var q := r.(integrating := r.integrating[cam := Setting(exposure, interval)]);
    SameCallbacks(r, q);
    SameExposures(r, q, h);
  }

  lemma StartKeepsExact(s: Sim, h: History, cam: Camera, exposure: real, interval: real)
    requires Exact(World(s, h))
    ensures Exact(World(FireStart(s, cam, exposure, interval), h))
  {
    StartSettles(s, h, cam, exposure, interval);
    var r := CancelChain(s, cam);
    var q := r.(integrating := r.integrating[cam := Setting(exposure, interval)]);
    if cam !in s.integrating { AddChainKeepsExact(q, h, cam, Reset(cam), q.now); }
  }

  function ResetHistory(h: History, c: Callback): History
    requires c.kind.Reset?
  {
    h.(resetAt := h.resetAt[c.kind.cam := c.time], credited := h.credited[c.kind.cam := 0.0])
  }

  lemma ResetKeepsExposed(s: Sim, h: History, c: Callback)
    requires Exposed(s, h) && c.kind.Reset? && NoChain(s, c.kind.cam) && c.time == s.now
    ensures Exposed(s.(power := s.power[c.kind.cam := 0.0]), ResetHistory(h, c))
  {
  }

  lemma ReadoutKeepsExposed(s: Sim, h: History, c: Callback, f: Frame)
    requires Exposed(s, h) && c.kind.Readout? && NoChain(s, c.kind.cam) && f.credited == f.exposure
    ensures Exposed(s.(power := s.power - {c.kind.cam}), ReadoutHistory(h, c, f))
  {
  }

  lemma ResetSettles(s: Sim, h: History, c: Callback)
    requires Exact(World(s, h)) && c.kind.Reset? && NoChain(s, c.kind.cam) && c.time == s.now
    ensures Exact(World(s.(power := s.power[c.kind.cam := 0.0]), ResetHistory(h, c)))
  {
    SameCallbacks(s, s.(power := s.power[c.kind.cam := 0.0]));
    ResetKeepsExposed(s, h, c);
  }

  /** `g` is the history with the reset noted, `s` still the state before it. */
  lemma ResetKeepsExact(s: Sim, g: History, cam: Camera)
    requires Exact(World(s.(power := s.power[cam := 0.0]), g)) && NoChain(s, cam)
    requires cam in s.integrating && cam in g.resetAt && g.resetAt[cam] == s.now
    ensures Exact(World(FireReset(s, cam, s.now), g))
  {
    var x, t := s.integrating[cam], s.(power := s.power[cam := 0.0]);
    var kind, time := Readout(cam, x.exposure, x.interval), s.now + x.exposure;
    assert FireReset(s, cam, s.now) == AddChain(t, cam, kind, time);
    assert NoChain(t, cam);
    AddChainKeepsExact(t, g, cam, kind, time);
  }

  function ReadoutHistory(h: History, c: Callback, f: Frame): History
    requires c.kind.Readout?
  {
    h.(resetAt := h.resetAt - {c.kind.cam}, credited := h.credited - {c.kind.cam}, frames := h.frames + [f])
  }

  lemma ReadoutSettles(s: Sim, h: History, c: Callback, f: Frame)
    requires Exact(World(s, h)) && c.kind.Readout? && NoChain(s, c.kind.cam) && f.credited == f.exposure
    ensures Exact(World(s.(power := s.power - {c.kind.cam}), ReadoutHistory(h, c, f)))
  {
    SameCallbacks(s, s.(power := s.power - {c.kind.cam}));
    ReadoutKeepsExposed(s, h, c, f);
  }

  /** `g` is the history with the frame noted, `s` still the state before the readout. */
  lemma ReadoutKeepsExact(s: Sim, g: History, cam: Camera, exposure: real, interval: real)
    requires Exact(World(s.(power := s.power - {cam}), g)) && NoChain(s, cam)
    requires cam in s.power && cam in s.integrating
    ensures Exact(World(FireReadout(s, cam, exposure, interval, s.now), g))
  {
    var t, time := s.(power := s.power - {cam}), s.now - exposure + interval;
    assert FireReadout(s, cam, exposure, interval, s.now) == AddChain(t, cam, Reset(cam), time);
    assert NoChain(t, cam);
    AddChainKeepsExact(t, g, cam, Reset(cam), time);
  }

  lemma EndKeepsExact(s: Sim, h: History, cam: Camera)
    requires Exact(World(s, h))
    ensures Exact(World(FireEnd(s, cam), h))
  {
    SameCallbacks(s, FireEnd(s, cam));
    SameExposures(s, FireEnd(s, cam), h);
  }

  /** Running a popped callback, with what is remembered of it. */
  function Fired(s: Sim, h: History, c: Callback, f: seq<Frame>): World {
    match c.kind
    case Reset(cam) => World(FireReset(s, cam, s.now), if cam in s.integrating then ResetHistory(h, c) else h)
    case Readout(cam, exposure, interval) =>
      World(FireReadout(s, cam, exposure, interval, s.now), if f != [] then ReadoutHistory(h, c, f[0]) else h)
    case _ => World(Fire(s, c), h)
  }

  lemma FiredKeepsExact(s: Sim, h: History, c: Callback, f: seq<Frame>)
    requires Popped(s, h, c)
    requires c.kind.Readout? ==> f != [] && f[0].credited == f[0].exposure
    ensures Exact(Fired(s, h, c, f))
  {
    match c.kind
    case StartCamera(cam, exposure, interval) => StartKeepsExact(s, h, cam, exposure, interval);
    case EndCamera(cam) => EndKeepsExact(s, h, cam);
    case Reset(cam) =>
      if cam in s.integrating {
        ResetSettles(s, h, c);
        ResetKeepsExact(s, ResetHistory(h, c), cam);
      }
    case Readout(cam, exposure, interval) =>
      ReadoutSettles(s, h, c, f[0]);
      if cam in s.integrating { ReadoutKeepsExact(s, ReadoutHistory(h, c, f[0]), cam, exposure, interval); }
    case Other(_) =>
  }

  lemma IterationFires(w: World, step: Step)
    requires step.Iterate? && w.sim.power.Keys == w.past.credited.Keys
    ensures Apply(w, step) == Fired(Advance(w.sim, step.c, step.light, step.stamp),
                                    PoppedHistory(w.past, w.sim, step.c), step.c,
                                    FrameOf(w.past, w.sim, step.c, step.light))
  {
    var f := FrameOf(w.past, w.sim, step.c, step.light);
    if f == [] { assert w.past.frames + f == w.past.frames; } else { assert f == [f[0]]; }
  }

  lemma IterateKeepsExact(w: World, step: Step)
    requires Exact(w) && step.Iterate? && step.c in w.sim.callbacks
    ensures Exact(Apply(w, step))
  {
    var s, h := Advance(w.sim, step.c, step.light, step.stamp), PoppedHistory(w.past, w.sim, step.c);
    AdvancePops(w, step.c, step.light, step.stamp);
    IterationFires(w, step);
    FiredKeepsExact(s, h, step.c, FrameOf(w.past, w.sim, step.c, step.light));
  }

  lemma AddKeepsExact(w: World, kind: Kind, t: real)
    requires Exact(w) && !kind.Reset? && !kind.Readout?
    ensures Exact(World(Add(w.sim, kind, t), w.past))
  {
    var u := Add(w.sim, kind, t);
    AddKeepsNumbered(w.sim, kind, t);
    assert Chained(u) && Exposed(u, w.past);
  }

  lemma StepKeepsExact(w: World, step: Step, factor: real)
    requires Exact(w) && Enabled(w, step, factor)
    ensures Exact(Apply(w, step))
  {
    match step
    case Iterate(_, _, _, _) => IterateKeepsExact(w, step);
    case Command(kind) => AddKeepsExact(w, kind, w.sim.now);
    case Schedule(tag, time) => AddKeepsExact(w, Other(tag), time);
  }

  /** Over every run, for every interleaving of camera commands and any settings, even ones that set time
      back: each camera has at most one pending reset or readout, and every frame was read out after light
      had been collected for exactly its integration time since the reset. */
  lemma {:induction false} RunKeepsExact(w: World, steps: seq<Step>, factor: real)
    requires Exact(w) && Possible(w, steps, factor)
    ensures Exact(Run(w, steps))
    decreases |steps|
  {
    if steps == [] {
    } else {
      StepKeepsExact(w, steps[0], factor);
      RunKeepsExact(Apply(w, steps[0]), steps[1..], factor);
    }
  }

  /** There is always a next callback while any is pending. */
  lemma {:induction false} NextExists(s: Sim, some: set<Callback>) returns (c: Callback)
    requires Numbered(s) && some <= s.callbacks && some != {}
    ensures c in some && forall d | d in some && d != c :: Before(c, d)
    decreases some
  {
    var b :| b in some;
    c := b;
    if some != {b} {
      var d := NextExists(s, some - {b});
      assert !SameId(b, d);
      if Before(d, b) { c := d; }
      forall e | e in some && e != c ensures Before(c, e) {
        if e != b && e != d { assert Before(d, e); }
      }
    }
  }

  /** Cancelling removes the camera's own pending callback and nothing else. */
  lemma CancelRemovesOnlyOwn(s: Sim, cam: Camera)
    requires Chained(s)
    ensures CancelChain(s, cam).callbacks == s.callbacks - set c | c in s.callbacks && OnChain(c.kind, cam)
  {
    forall c | c in s.callbacks
      ensures c in CancelChain(s, cam).callbacks <==> !OnChain(c.kind, cam)
    {
      if cam in s.handles && SameId(s.handles[cam], c) { assert c == s.handles[cam]; }
      if OnChain(c.kind, cam) { assert SameId(s.handles[cam], c); }
    }
  }

  lemma OnePendingPerCamera(s: Sim, c: Callback, d: Callback)
    requires Chained(s) && c in s.callbacks && d in s.callbacks
    requires (c.kind.Reset? || c.kind.Readout?) && (d.kind.Reset? || d.kind.Readout?) && c.kind.cam == d.kind.cam
    ensures c == d
  {
  }

  /** The simulator as constructed. */
  function Initial(wall: real): World {
    World(Sim({}, 0, 0.0, map[], map[], map[], wall), History([], [], map[], map[]))
  }

  lemma InitialExact(wall: real)
    ensures Exact(Initial(wall))
  {
  }

  // ----- pacing -----

  /** Simulated time has not outrun `factor` times the wall clock since `start`. */
  predicate Paced(w: World, from: real, start: real, factor: real) {
    w.sim.now - from <= factor * (w.sim.lastUpdate - start)
  }

  lemma FactorGrows(factor: real, a: real, b: real, c: real)
    requires factor >= 0.0 && b <= c
    ensures factor * (b - a) + factor * (c - b) == factor * (c - a)
    ensures factor * (b - a) <= factor * (c - a)
  {
    assert factor * (c - b) >= 0.0;
  }

  /** Time passed so far, plus what the check of this iteration allows, against the later stamp. */
  lemma PaceArithmetic(factor: real, from: real, now: real, time: real, start: real, last: real, check: real, stamp: real)
    requires factor >= 0.0 && last <= check <= stamp
    requires now - from <= factor * (last - start) && time - now <= factor * (check - last)
    ensures time - from <= factor * (stamp - start)
  {
    FactorGrows(factor, start, last, check);
    FactorGrows(factor, start, check, stamp);
  }

  lemma StepKeepsPace(w: World, step: Step, from: real, start: real, factor: real)
    requires factor >= 0.0 && Enabled(w, step, factor) && Paced(w, from, start, factor)
    ensures Paced(Apply(w, step), from, start, factor)
    ensures w.sim.lastUpdate <= Apply(w, step).sim.lastUpdate
  {
    if step.Iterate? {
      FireKeepsClocks(Advance(w.sim, step.c, step.light, step.stamp), step.c);
      PaceArithmetic(factor, from, w.sim.now, step.c.time, start, w.sim.lastUpdate, step.check, step.stamp);
    }
  }

  lemma FireKeepsClocks(s: Sim, c: Callback)
    ensures Fire(s, c).now == s.now && Fire(s, c).lastUpdate == s.lastUpdate
  {
  }

  /** Over every run the simulated time that has passed is at most `factor` times the wall-clock time
      that has passed. */
  lemma {:induction false} RunKeepsPace(w: World, steps: seq<Step>, from: real, start: real, factor: real)
    requires factor >= 0.0 && Possible(w, steps, factor) && Paced(w, from, start, factor)
    ensures Paced(Run(w, steps), from, start, factor)
    ensures w.sim.lastUpdate <= Run(w, steps).sim.lastUpdate
    decreases |steps|
  {
    if steps == [] {
    } else {
      StepKeepsPace(w, steps[0], from, start, factor);
      RunKeepsPace(Apply(w, steps[0]), steps[1..], from, start, factor);
    }
  }

  // ----- constant light -----

  ghost predicate ConstantLight(steps: seq<Step>, light: Camera -> real) {
    forall i | 0 <= i < |steps| :: steps[i].Iterate? ==> steps[i].light == light
  }

  ghost predicate PowersFit(power: map<Camera, real>, credited: map<Camera, real>, light: Camera -> real) {
    forall cam | cam in power && cam in credited :: power[cam] == light(cam) * credited[cam]
  }

  ghost predicate FramesFit(frames: seq<Frame>, light: Camera -> real) {
    forall i | 0 <= i < |frames| :: frames[i].power == light(frames[i].cam) * frames[i].credited
  }

  ghost predicate CollectedUnder(w: World, light: Camera -> real) {
    PowersFit(w.sim.power, w.past.credited, light) && FramesFit(w.past.frames, light)
  }

  lemma CollectMore(p: real, a: real, b: real)
    ensures p * a + p * b == p * (a + b)
  {
  }

  lemma AdvanceCollects(s: Sim, h: History, c: Callback, light: Camera -> real, wall: real)
    requires PowersFit(s.power, h.credited, light)
    ensures PowersFit(Advance(s, c, light, wall).power, PoppedHistory(h, s, c).credited, light)
  {
    forall cam | cam in s.power && cam in h.credited
      ensures Collected(s.power[cam], light(cam), c.time - s.now) == light(cam) * (h.credited[cam] + (c.time - s.now))
    {
      CollectMore(light(cam), h.credited[cam], c.time - s.now);
    }
  }

  /** Running a callback changes no power but that of a camera it resets or reads out. */
  lemma FireKeepsPower(s: Sim, c: Callback)
    ensures Fire(s, c).power == match c.kind
                                case Reset(cam) => if cam in s.integrating then s.power[cam := 0.0] else s.power
                                case Readout(cam, _, _) => s.power - {cam}
                                case _ => s.power
  {
  }

  lemma RememberedCredit(h: History, s: Sim, c: Callback)
    ensures var k := PoppedHistory(h, s, c).credited;
            Remember(h, s, c).credited == match c.kind
                                          case Reset(cam) => if cam in s.integrating then k[cam := 0.0] else k
                                          case Readout(cam, _, _) => if cam in s.power then k - {cam} else k
                                          case _ => k
  {
  }

  lemma AppendFits(frames: seq<Frame>, f: Frame, light: Camera -> real)
    requires FramesFit(frames, light) && f.power == light(f.cam) * f.credited
    ensures FramesFit(frames + [f], light)
  {
  }

  /** The frame handed over is what the camera has collected when simulated time reaches the readout. */
  lemma FrameIsCollected(s: Sim, h: History, c: Callback, light: Camera -> real, wall: real)
    requires FrameOf(h, s, c, light) != []
    ensures var f := FrameOf(h, s, c, light)[0];
            var power, credited := Advance(s, c, light, wall).power, PoppedHistory(h, s, c).credited;
            && f.cam in power && f.cam in credited
            && f.power == power[f.cam] && f.credited == credited[f.cam]
  {
  }

  lemma NewFrameFits(s: Sim, h: History, c: Callback, light: Camera -> real, wall: real)
    requires PowersFit(Advance(s, c, light, wall).power, PoppedHistory(h, s, c).credited, light)
    requires FramesFit(h.frames, light)
    ensures FramesFit(h.frames + FrameOf(h, s, c, light), light)
  {
    var fs := FrameOf(h, s, c, light);
    if fs == [] {
      assert h.frames + fs == h.frames;
    } else {
      FrameIsCollected(s, h, c, light, wall);
      AppendFits(h.frames, fs[0], light);
      assert fs == [fs[0]];
    }
  }

  lemma ClearedFits(power: map<Camera, real>, credited: map<Camera, real>, light: Camera -> real, cam: Camera)
    requires PowersFit(power, credited, light)
    ensures PowersFit(power[cam := 0.0], credited[cam := 0.0], light)
    ensures PowersFit(power - {cam}, credited - {cam}, light)
    ensures PowersFit(power - {cam}, credited, light)
  {
  }

  lemma StepCollects(w: World, step: Step, light: Camera -> real)
    requires CollectedUnder(w, light)
    requires step.Iterate? ==> step.light == light
    ensures CollectedUnder(Apply(w, step), light)
  {
    if step.Iterate? {
      var c := step.c;
      var s := Advance(w.sim, c, light, step.stamp);
      AdvanceCollects(w.sim, w.past, c, light, step.stamp);
      FireKeepsPower(s, c);
      RememberedCredit(w.past, w.sim, c);
      NewFrameFits(w.sim, w.past, c, light, step.stamp);
      if c.kind.Reset? || c.kind.Readout? {
        ClearedFits(s.power, PoppedHistory(w.past, w.sim, c).credited, light, c.kind.cam);
      }
    }
  }

  ghost predicate ReadOutUnder(frames: seq<Frame>, light: Camera -> real) {
    forall i | 0 <= i < |frames| :: frames[i].power == light(frames[i].cam) * frames[i].exposure
  }

  lemma CollectedFrames(w: World, light: Camera -> real)
    requires Exact(w) && CollectedUnder(w, light)
    ensures ReadOutUnder(w.past.frames, light)
  {
    assert forall i | 0 <= i < |w.past.frames| :: w.past.frames[i].credited == w.past.frames[i].exposure;
  }

  /** Under constant incident power P every frame of a run reads out P times its integration time. */
  lemma {:induction false} ConstantPowerReadout(w: World, steps: seq<Step>, light: Camera -> real, factor: real)
    requires Exact(w) && Possible(w, steps, factor)
    requires ConstantLight(steps, light) && CollectedUnder(w, light)
    ensures ReadOutUnder(Run(w, steps).past.frames, light)
    decreases |steps|
  {
    if steps == [] {
      CollectedFrames(w, light);
    } else {
      StepKeepsExact(w, steps[0], factor);
      StepCollects(w, steps[0], light);
      ConstantPowerReadout(Apply(w, steps[0]), steps[1..], light, factor);
    }
  }
}
