/** Shutting all services down: dependents first, with stop, interrupt and terminate in turn. What the
    operating system shows (is there still a process, what time is it, was Ctrl+C pressed) is an input. */
module ShuttingDown {
  import opened Outcomes
  import opened Dependencies

  datatype Signal = Stop | Interrupt | Terminate

  datatype Stage = Alive | Stopped | Interrupted | Terminated

  datatype Entry = Entry(stage: Stage, since: real)

  /** What happens on the outside: a service was seen to have no process, or was sent a signal: after
      which reading of the clock, by when it was done, and whether Ctrl+C had been pressed twice. */
  datatype Event =
    | Gone(id: Id)
    | Sent(id: Id, signal: Signal, check: real, stamp: real, forced: bool)

  /** One look at a service: is its process gone, and the clock before and after acting on it. */
  datatype Sight = Sight(gone: bool, check: real, stamp: real)

  type Sighting = Id -> Sight

  /** Ctrl+C during the sleep leads to a second look; pressed again within five seconds it forces. */
  datatype Nap = Undisturbed | CtrlC(look: Sighting, again: Option<Sighting>)

  datatype Round = Round(see: Sighting, nap: Nap)

  /** The services still being shut down, and what has happened so far. */
  datatype Progress = Progress(entries: map<Id, Entry>, trace: seq<Event>)

  const LENIENCY := 60.0

  function Escalate(leniency: real, e: Entry, s: Sight): (Entry, Option<Signal>) {
    match e.stage
    case Alive => (Entry(Stopped, s.stamp), Some(Stop))
    case Stopped =>
      if s.check - e.since > leniency then (Entry(Interrupted, s.stamp), Some(Interrupt)) else (e, None)
    case Interrupted =>
      if s.check - e.since > leniency then (Entry(Terminated, s.stamp), Some(Terminate)) else (e, None)
    case Terminated => (e, None)
  }

  predicate Blocked(g: Dependents, entries: map<Id, Entry>, x: Id)
    requires x in g
  {
    exists y | y in g[x] :: y in entries
  }

  function Act(p: Progress, x: Id, leniency: real, forced: bool, s: Sight): Progress
    requires x in p.entries
  {
    var (e, signal) := Escalate(leniency, p.entries[x], s);
    Progress(p.entries[x := e],
             if signal.Some? then p.trace + [Sent(x, signal.value, s.check, s.stamp, forced)] else p.trace)
  }

  function Visit(g: Dependents, p: Progress, x: Id, see: Sighting): Progress
    requires x in g
  {
    if x !in p.entries then p
    else if see(x).gone then p.(trace := p.trace + [Gone(x)])
    else if Blocked(g, p.entries, x) then p
    else Act(p, x, LENIENCY, false, see(x))
  }

  /** The loop over all services of one pass. */
  function Sweep(g: Dependents, p: Progress, order: seq<Id>, see: Sighting): (q: Progress)
    requires forall x | x in order :: x in g
    ensures q.entries.Keys == p.entries.Keys
    decreases |order|
  {
    if order == [] then p
    else Visit(g, Sweep(g, p, order[..|order| - 1], see), order[|order| - 1], see)
  }

  lemma SweepOneMore(g: Dependents, p: Progress, order: seq<Id>, see: Sighting, i: nat)
    requires (forall x | x in order :: x in g) && i < |order|
    ensures Sweep(g, p, order[..i + 1], see) == Visit(g, Sweep(g, p, order[..i], see), order[i], see)
  {
    assert order[..i + 1][..i] == order[..i];
  }

  function Remove(p: Progress, see: Sighting): Progress {
    p.(entries := map x | x in p.entries && !see(x).gone :: p.entries[x])
  }

  predicate IsWaitedFor(g: Dependents, entries: map<Id, Entry>, x: Id, look: Sighting)
    requires x in g
  {
    x in entries && !look(x).gone && !Blocked(g, entries, x)
  }

  /** The forced path: no leniency for any service that is being waited for. */
  function Force(g: Dependents, p: Progress, order: seq<Id>, look: Sighting, again: Sighting): (q: Progress)
    requires forall x | x in order :: x in g
    ensures q.entries.Keys == p.entries.Keys
    decreases |order|
  {
    if order == [] then p
    else
      var x, r := order[|order| - 1], Force(g, p, order[..|order| - 1], look, again);
      if IsWaitedFor(g, r.entries, x, look) then Act(r, x, 0.0, true, again(x)) else r
  }

  lemma ForceOneMore(g: Dependents, p: Progress, order: seq<Id>, look: Sighting, again: Sighting, i: nat)
    requires (forall x | x in order :: x in g) && i < |order|
    ensures Force(g, p, order[..i + 1], look, again)
         == if IsWaitedFor(g, p.entries, order[i], look)
            then Act(Force(g, p, order[..i], look, again), order[i], 0.0, true, again(order[i]))
            else Force(g, p, order[..i], look, again)
  {
    assert order[..i + 1][..i] == order[..i];
    var r := Force(g, p, order[..i], look, again);
    assert Blocked(g, r.entries, order[i]) == Blocked(g, p.entries, order[i]);
  }

  function Pass(g: Dependents, p: Progress, order: seq<Id>, round: Round): Progress
    requires forall x | x in order :: x in g
  {
    var q := Remove(Sweep(g, p, order, round.see), round.see);
    if round.nap.CtrlC? && round.nap.again.Some?
    then Force(g, q, order, round.nap.look, round.nap.again.value)
    else q
  }

  function Run(g: Dependents, p: Progress, order: seq<Id>, rounds: seq<Round>): Progress
    requires forall x | x in order :: x in g
    decreases |rounds|
  {
    if p.entries.Keys == {} || rounds == [] then p
    else Run(g, Pass(g, p, order, rounds[0]), order, rounds[1..])
  }

  function Begin(order: seq<Id>): Progress {
    Progress(map x | x in order :: Entry(Alive, 0.0), [])
  }

  // ----- order and escalation -----

  const ESCALATION := [Stop, Interrupt, Terminate]

  function Sends(stage: Stage): nat {
    match stage
    case Alive => 0
    case Stopped => 1
    case Interrupted => 2
    case Terminated => 3
  }

  function SignalsTo(trace: seq<Event>, x: Id): seq<Signal>
    decreases |trace|
  {
    if trace == [] then [] else
      var rest, e := SignalsTo(trace[..|trace| - 1], x), trace[|trace| - 1];
      if e.Sent? && e.id == x then rest + [e.signal] else rest
  }

  /** Every signal to a service came after each of its direct dependents was seen to be gone. */
  ghost predicate DependentsFirst(g: Dependents, trace: seq<Event>) {
    forall i, y | 0 <= i < |trace| && trace[i].Sent? && trace[i].id in g && y in g[trace[i].id] ::
      Gone(y) in trace[..i]
  }

  /** A service that left the table was seen to be gone; one in it got the signals of its stage. */
  ghost predicate ServiceInv(p: Progress, x: Id) {
    && (x !in p.entries ==> Gone(x) in p.trace)
    && SignalsTo(p.trace, x) <= ESCALATION
    && (x in p.entries ==> SignalsTo(p.trace, x) == ESCALATION[..Sends(p.entries[x].stage)])
  }

  ghost predicate Inv(g: Dependents, p: Progress) {
    && p.entries.Keys <= g.Keys
    && (forall x | x in g :: ServiceInv(p, x))
    && DependentsFirst(g, p.trace)
  }

  lemma AppendedEvent(g: Dependents, trace: seq<Event>, e: Event)
    requires DependentsFirst(g, trace)
    requires e.Sent? && e.id in g ==> forall y | y in g[e.id] :: Gone(y) in trace
    ensures DependentsFirst(g, trace + [e])
    ensures forall y :: SignalsTo(trace + [e], y)
                     == SignalsTo(trace, y) + if e.Sent? && e.id == y then [e.signal] else []
  {
    var t := trace + [e];
    assert t[..|trace|] == trace;
    forall i, y | 0 <= i < |t| && t[i].Sent? && t[i].id in g && y in g[t[i].id]
      ensures Gone(y) in t[..i]
    {
      if i < |trace| { assert t[..i] == trace[..i]; }
    }
  }

  lemma EscalationStep(stage: Stage, signal: Signal)
    requires !stage.Terminated? && signal == ESCALATION[Sends(stage)]
    ensures ESCALATION[..Sends(stage)] + [signal] == ESCALATION[..Sends(stage) + 1]
  {
  }

  lemma ActKeepsInv(g: Dependents, p: Progress, x: Id, leniency: real, forced: bool, s: Sight)
    requires Inv(g, p) && Closed(g) && x in p.entries && !Blocked(g, p.entries, x)
    ensures Inv(g, Act(p, x, leniency, forced, s))
    ensures p.trace <= Act(p, x, leniency, forced, s).trace
  {
    var q := Act(p, x, leniency, forced, s);
    var signal := Escalate(leniency, p.entries[x], s).1;
    assert ServiceInv(p, x) && q.entries.Keys == p.entries.Keys;
    if signal.Some? {
      AppendedEvent(g, p.trace, Sent(x, signal.value, s.check, s.stamp, forced));
      EscalationStep(p.entries[x].stage, signal.value);
    }
    forall y | y in g ensures ServiceInv(q, y) {
      assert ServiceInv(p, y);
    }
  }

  lemma VisitKeepsInv(g: Dependents, p: Progress, x: Id, see: Sighting)
    requires Inv(g, p) && Closed(g) && x in g
    ensures Inv(g, Visit(g, p, x, see))
    ensures p.trace <= Visit(g, p, x, see).trace
    ensures x in p.entries && see(x).gone ==> Gone(x) in Visit(g, p, x, see).trace
  {
    if x in p.entries {
      if see(x).gone {
        AppendedEvent(g, p.trace, Gone(x));
      } else if !Blocked(g, p.entries, x) {
        ActKeepsInv(g, p, x, LENIENCY, false, see(x));
      }
    }
  }

  lemma {:induction false} SweepKeepsInv(g: Dependents, p: Progress, order: seq<Id>, see: Sighting)
    requires Inv(g, p) && Closed(g) && forall x | x in order :: x in g
    ensures Inv(g, Sweep(g, p, order, see))
    ensures p.trace <= Sweep(g, p, order, see).trace
    decreases |order|
  {
    if order == [] {
    } else {
      SweepKeepsInv(g, p, order[..|order| - 1], see);
      VisitKeepsInv(g, Sweep(g, p, order[..|order| - 1], see), order[|order| - 1], see);
    }
  }

  /** Whoever is in the table and gone is noted by the end of the sweep. */
  lemma {:induction false} SweepNotesGone(g: Dependents, p: Progress, order: seq<Id>, see: Sighting, x: Id)
    requires Inv(g, p) && Closed(g) && forall y | y in order :: y in g
    requires x in order && x in p.entries && see(x).gone
    ensures Gone(x) in Sweep(g, p, order, see).trace
    decreases |order|
  {
    var front, last := order[..|order| - 1], order[|order| - 1];
    SweepKeepsInv(g, p, front, see);
    VisitKeepsInv(g, Sweep(g, p, front, see), last, see);
    if x != last { SweepNotesGone(g, p, front, see, x); }
  }

  lemma {:induction false} ForceKeepsInv(g: Dependents, p: Progress, order: seq<Id>, look: Sighting, again: Sighting)
    requires Inv(g, p) && Closed(g) && forall x | x in order :: x in g
    ensures Inv(g, Force(g, p, order, look, again))
    ensures p.trace <= Force(g, p, order, look, again).trace
    decreases |order|
  {
    if order == [] {
    } else {
      var front, x := order[..|order| - 1], order[|order| - 1];
      var r := Force(g, p, front, look, again);
      ForceKeepsInv(g, p, front, look, again);
      if IsWaitedFor(g, r.entries, x, look) { ActKeepsInv(g, r, x, 0.0, true, again(x)); }
    }
  }

  lemma PassKeepsInv(g: Dependents, p: Progress, order: seq<Id>, round: Round)
    requires Inv(g, p) && Closed(g) && (forall x :: x in order <==> x in g)
    ensures Inv(g, Pass(g, p, order, round))
    ensures p.trace <= Pass(g, p, order, round).trace
  {
    SweepKeepsInv(g, p, order, round.see);
    var r := Sweep(g, p, order, round.see);
    var q := Remove(r, round.see);
    forall x | x in g ensures ServiceInv(q, x) {
      assert ServiceInv(r, x);
      if x in p.entries && round.see(x).gone { SweepNotesGone(g, p, order, round.see, x); }
    }
    assert Inv(g, q);
    if round.nap.CtrlC? && round.nap.again.Some? {
      ForceKeepsInv(g, q, order, round.nap.look, round.nap.again.value);
    }
  }

  /** Over every run, whatever processes, clocks and Ctrl+C do: a signal goes to a service only after
      each of its direct dependents was seen to be gone, and each service gets stop, interrupt and
      terminate at most once and in that order. */
  lemma {:induction false} ShutdownOrder(g: Dependents, p: Progress, order: seq<Id>, rounds: seq<Round>)
    requires Inv(g, p) && Closed(g) && (forall x :: x in order <==> x in g)
    ensures var q := Run(g, p, order, rounds);
            && Inv(g, q) && p.trace <= q.trace
            && DependentsFirst(g, q.trace)
            && forall x | x in g :: SignalsTo(q.trace, x) <= [Stop, Interrupt, Terminate]
    decreases |rounds|
  {
    if p.entries.Keys == {} || rounds == [] {
    } else {
      PassKeepsInv(g, p, order, rounds[0]);
      ShutdownOrder(g, Pass(g, p, order, rounds[0]), order, rounds[1..]);
    }
  }

  lemma BeginInv(g: Dependents, order: seq<Id>)
    requires forall x :: x in order <==> x in g
    ensures Inv(g, Begin(order))
  {
  }

  // ----- the shutdown ends -----

  /** The environment cooperates: the leniency has run out by the next look, and a terminated process
      is gone by then. */
  ghost predicate Cooperates(p: Progress, see: Sighting) {
    forall x | x in p.entries ::
      match p.entries[x].stage
      case Alive => true
      case Stopped => see(x).check - p.entries[x].since > 60.0
      case Interrupted => see(x).check - p.entries[x].since > 60.0
      case Terminated => see(x).gone
  }

  ghost predicate CooperativeRun(g: Dependents, p: Progress, order: seq<Id>, rounds: seq<Round>)
    requires forall x | x in order :: x in g
    decreases |rounds|
  {
    p.entries.Keys == {} || rounds == [] || (
      && Cooperates(p, rounds[0].see)
      && CooperativeRun(g, Pass(g, p, order, rounds[0]), order, rounds[1..]))
  }

  function Left(p: Progress, x: Id): nat {
    if x in p.entries then 4 - Sends(p.entries[x].stage) else 0
  }

  /** The passes a remaining service still needs at most, added up. */
  function Weight(p: Progress, order: seq<Id>): nat {
    if order == [] then 0 else Left(p, order[0]) + Weight(p, order[1..])
  }

  lemma {:induction false} WeightFalls(p: Progress, q: Progress, order: seq<Id>, x: Id)
    requires forall y | y in order :: Left(q, y) <= Left(p, y)
    ensures Weight(q, order) <= Weight(p, order)
    ensures x in order && Left(q, x) < Left(p, x) ==> Weight(q, order) < Weight(p, order)
    decreases |order|
  {
    if order == [] {
    } else {
      WeightFalls(p, q, order[1..], x);
    }
  }

  lemma {:induction false} WeightBound(p: Progress, order: seq<Id>)
    ensures Weight(p, order) <= 4 * |order|
    decreases |order|
  {
    if order == [] {
    } else {
      WeightBound(p, order[1..]);
    }
  }

  /** A sweep touches each service on its own: the entry of `x` only depends on its own visit. */
  lemma {:induction false} SweepEntry(g: Dependents, p: Progress, order: seq<Id>, see: Sighting, x: Id)
    requires (forall y | y in order :: y in g) && Distinct(order) && x in p.entries && x in g
    ensures Sweep(g, p, order, see).entries[x] ==
            if x in order && !see(x).gone && !Blocked(g, p.entries, x)
            then Escalate(LENIENCY, p.entries[x], see(x)).0 else p.entries[x]
    decreases |order|
  {
    if order == [] {
    } else {
      var init, y := order[..|order| - 1], order[|order| - 1];
      SweepEntry(g, p, init, see, x);
      var r := Sweep(g, p, init, see);
      assert Blocked(g, r.entries, x) == Blocked(g, p.entries, x);
      if x == y {
        forall i | 0 <= i < |init| ensures init[i] != x { assert order[i] != order[|order| - 1]; }
      } else {
        assert x in order <==> x in init by {
          if x in order { var i :| 0 <= i < |order| && order[i] == x; assert init[i] == x; }
        }
      }
    }
  }

  lemma {:induction false} ForceOnlyEscalates(g: Dependents, p: Progress, order: seq<Id>, look: Sighting, again: Sighting, x: Id)
    requires forall y | y in order :: y in g
    ensures Left(Force(g, p, order, look, again), x) <= Left(p, x)
    decreases |order|
  {
    if order == [] {
    } else {
      ForceOnlyEscalates(g, p, order[..|order| - 1], look, again, x);
    }
  }

  /** After a pass no service needs more passes than before, and one that had no remaining dependent
      needs fewer. */
  lemma PassEntry(g: Dependents, p: Progress, order: seq<Id>, round: Round, x: Id)
    requires Distinct(order) && (forall y :: y in order <==> y in g)
    requires p.entries.Keys <= g.Keys && Cooperates(p, round.see)
    ensures Left(Pass(g, p, order, round), x) <= Left(p, x)
    ensures x in p.entries && !Blocked(g, p.entries, x) ==> Left(Pass(g, p, order, round), x) < Left(p, x)
  {
    var q := Remove(Sweep(g, p, order, round.see), round.see);
    if round.nap.CtrlC? && round.nap.again.Some? {
      ForceOnlyEscalates(g, q, order, round.nap.look, round.nap.again.value, x);
    }
    if x in p.entries { SweepEntry(g, p, order, round.see, x); }
  }

  /** Forcing escalates every service that is being waited for, and no other, at its next signal. */
  lemma {:induction false} ForceEntry(g: Dependents, p: Progress, order: seq<Id>, look: Sighting, again: Sighting, x: Id)
    requires (forall y | y in order :: y in g) && Distinct(order) && x in p.entries && x in g
    ensures Force(g, p, order, look, again).entries[x] ==
            if x in order && IsWaitedFor(g, p.entries, x, look)
            then Escalate(0.0, p.entries[x], again(x)).0 else p.entries[x]
    decreases |order|
  {
    if order == [] {
    } else {
      var init, y := order[..|order| - 1], order[|order| - 1];
      ForceEntry(g, p, init, look, again, x);
      var r := Force(g, p, init, look, again);
      assert Blocked(g, r.entries, x) == Blocked(g, p.entries, x);
      if x == y {
        forall i | 0 <= i < |init| ensures init[i] != x { assert order[i] != order[|order| - 1]; }
      } else {
        assert x in order <==> x in init by {
          if x in order { var i :| 0 <= i < |order| && order[i] == x; assert init[i] == x; }
        }
      }
    }
  }

  lemma PassLightens(g: Dependents, p: Progress, order: seq<Id>, round: Round)
    requires Closed(g) && Acyclic(g) && Distinct(order) && (forall x :: x in order <==> x in g)
    requires p.entries.Keys <= g.Keys && p.entries.Keys != {} && Cooperates(p, round.see)
    ensures Weight(Pass(g, p, order, round), order) < Weight(p, order)
    ensures Pass(g, p, order, round).entries.Keys <= p.entries.Keys
  {
    var free := SomeServiceIsFree(g, p.entries.Keys);
    forall x ensures Left(Pass(g, p, order, round), x) <= Left(p, x) {
      PassEntry(g, p, order, round, x);
    }
    PassEntry(g, p, order, round, free);
    WeightFalls(p, Pass(g, p, order, round), order, free);
  }

  /** On an accepted, hence acyclic, graph a cooperative environment lets the loop empty the table
      within four passes per service: some remaining service never has a remaining dependent. */
  lemma {:induction false} ShutdownEnds(g: Dependents, p: Progress, order: seq<Id>, rounds: seq<Round>)
    requires Closed(g) && Acyclic(g) && Distinct(order) && (forall x :: x in order <==> x in g)
    requires p.entries.Keys <= g.Keys && CooperativeRun(g, p, order, rounds)
    requires |rounds| >= Weight(p, order)
    ensures Run(g, p, order, rounds).entries.Keys == {}
    decreases |rounds|
  {
    if p.entries.Keys == {} {
    } else if rounds == [] {
      var x :| x in p.entries.Keys;
      WeightFalls(p, Progress(map[], []), order, x);
    } else {
      PassLightens(g, p, order, rounds[0]);
      ShutdownEnds(g, Pass(g, p, order, rounds[0]), order, rounds[1..]);
    }
  }

  lemma ShutdownWithinFourPassesEach(g: Dependents, order: seq<Id>, rounds: seq<Round>)
    requires Closed(g) && Acyclic(g) && Distinct(order) && (forall x :: x in order <==> x in g)
    requires CooperativeRun(g, Begin(order), order, rounds) && |rounds| >= 4 * |order|
    ensures Run(g, Begin(order), order, rounds).entries.Keys == {}
  {
    WeightBound(Begin(order), order);
    ShutdownEnds(g, Begin(order), order, rounds);
  }

  // ----- layer by layer -----

  /** A service of rank k, counting layers from zero, is gone after 4(k + 1) passes. */
  ghost predicate OnTime(rank: map<Id, nat>, p: Progress, passes: nat, x: Id) {
    x in rank && (Left(p, x) == 0 || Left(p, x) + passes <= 4 * (rank[x] + 1))
  }

  ghost predicate OnSchedule(g: Dependents, rank: map<Id, nat>, p: Progress, passes: nat) {
    forall x | x in g :: OnTime(rank, p, passes, x)
  }

  /** Once the layers below it are gone a service is not blocked, so all of a layer progress together. */
  lemma PassKeepsSchedule(g: Dependents, rank: map<Id, nat>, p: Progress, order: seq<Id>, round: Round, passes: nat)
    requires Closed(g) && IsRank(g, rank) && Distinct(order) && (forall x :: x in order <==> x in g)
    requires p.entries.Keys <= g.Keys && Cooperates(p, round.see)
    requires OnSchedule(g, rank, p, passes)
    ensures OnSchedule(g, rank, Pass(g, p, order, round), passes + 1)
  {
    forall x | x in g ensures OnTime(rank, Pass(g, p, order, round), passes + 1, x) {
      assert OnTime(rank, p, passes, x);
      if x in p.entries && passes >= 4 * rank[x] { LayerIsFree(g, rank, p, passes, x); }
      PassEntry(g, p, order, round, x);
    }
  }

  lemma LayerIsFree(g: Dependents, rank: map<Id, nat>, p: Progress, passes: nat, x: Id)
    requires Closed(g) && IsRank(g, rank) && OnSchedule(g, rank, p, passes)
    requires x in g && passes >= 4 * rank[x]
    ensures !Blocked(g, p.entries, x)
  {
    forall y | y in g[x] ensures y !in p.entries {
      assert OnTime(rank, p, passes, y);
    }
  }

  lemma {:induction false} ShutdownOnSchedule(
      g: Dependents, rank: map<Id, nat>, layers: nat, p: Progress, order: seq<Id>, rounds: seq<Round>, passes: nat)
    requires Closed(g) && IsRank(g, rank) && Distinct(order) && (forall x :: x in order <==> x in g)
    requires p.entries.Keys <= g.Keys && CooperativeRun(g, p, order, rounds) && OnSchedule(g, rank, p, passes)
    requires (forall x | x in g :: rank[x] < layers) && passes + |rounds| >= 4 * layers
    ensures Run(g, p, order, rounds).entries.Keys == {}
    decreases |rounds|
  {
    if p.entries.Keys == {} || rounds == [] {
      assert forall x | x in p.entries :: Left(p, x) > 0 && OnTime(rank, p, passes, x);
    } else {
      PassKeepsSchedule(g, rank, p, order, rounds[0], passes);
      assert Pass(g, p, order, rounds[0]).entries.Keys <= p.entries.Keys;
      ShutdownOnSchedule(g, rank, layers, Pass(g, p, order, rounds[0]), order, rounds[1..], passes + 1);
    }
  }

  /** The stronger bound: four passes for each layer of the graph, however many services share it. */
  lemma ShutdownWithinFourPassesPerLayer(
      g: Dependents, rank: map<Id, nat>, layers: nat, order: seq<Id>, rounds: seq<Round>)
    requires Closed(g) && IsRank(g, rank) && Distinct(order) && (forall x :: x in order <==> x in g)
    requires forall x | x in g :: rank[x] < layers
    requires CooperativeRun(g, Begin(order), order, rounds) && |rounds| >= 4 * layers
    ensures Run(g, Begin(order), order, rounds).entries.Keys == {}
  {
    ShutdownOnSchedule(g, rank, layers, Begin(order), order, rounds, 0);
  }
}
