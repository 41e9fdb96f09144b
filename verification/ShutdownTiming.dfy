/** How long a service is left alone between signals during a shutdown. */
module ShutdownTiming {
  import opened Outcomes
  import opened Dependencies
  import opened ShuttingDown

  /** The last signal sent to a service. */
  function LastSent(trace: seq<Event>, x: Id): Option<Event> {
    if trace == [] then None
    else
      var e := trace[|trace| - 1];
      if e.Sent? && e.id == x then Some(e) else LastSent(trace[..|trace| - 1], x)
  }

  lemma {:induction false} LastSentAt(trace: seq<Event>, x: Id, i: nat)
    requires i < |trace| && trace[i].Sent? && trace[i].id == x
    requires forall j | i < j < |trace| :: !(trace[j].Sent? && trace[j].id == x)
    ensures LastSent(trace, x) == Some(trace[i])
    decreases |trace|
  {
    if i == |trace| - 1 {
    } else {
      LastSentAt(trace[..|trace| - 1], x, i);
    }
  }

  /** A signal that follows another to the same service comes more than a minute after that one was done,
      unless Ctrl+C was pressed twice. */
  predicate TimelyAt(trace: seq<Event>, j: nat)
    requires j < |trace|
  {
    trace[j].Sent? ==>
      var last := LastSent(trace[..j], trace[j].id);
      last.Some? && last.value.Sent? ==> trace[j].check - last.value.stamp > if trace[j].forced then 0.0 else 60.0
  }

  ghost predicate Timely(trace: seq<Event>) {
    forall j | 0 <= j < |trace| :: TimelyAt(trace, j)
  }

  /** Whatever waits in the table was last signalled at the time noted for it. */
  predicate SinceLast(p: Progress, x: Id)
    requires x in p.entries
  {
    var last := LastSent(p.trace, x);
    && (last.Some? <==> !p.entries[x].stage.Alive?)
    && (last.Some? ==> last.value.Sent? && last.value.stamp == p.entries[x].since)
  }

  ghost predicate TimeInv(p: Progress) {
    Timely(p.trace) && forall x | x in p.entries :: SinceLast(p, x)
  }

  lemma OneMoreEvent(trace: seq<Event>, e: Event)
    requires Timely(trace) && TimelyAt(trace + [e], |trace|)
    ensures Timely(trace + [e])
    ensures forall x :: LastSent(trace + [e], x) == if e.Sent? && e.id == x then Some(e) else LastSent(trace, x)
  {
    var t := trace + [e];
    assert t[..|trace|] == trace;
    forall j | 0 <= j < |t| ensures TimelyAt(t, j) {
      if j < |trace| { assert t[..j] == trace[..j] && TimelyAt(trace, j); }
    }
  }

  lemma ActKeepsTime(p: Progress, x: Id, forced: bool, s: Sight)
    requires TimeInv(p) && x in p.entries
    ensures TimeInv(Act(p, x, if forced then 0.0 else LENIENCY, forced, s))
  {
    var leniency := if forced then 0.0 else LENIENCY;
    var q, signal := Act(p, x, leniency, forced, s), Escalate(leniency, p.entries[x], s).1;
    assert SinceLast(p, x);
    if signal.Some? {
      var e := Sent(x, signal.value, s.check, s.stamp, forced);
      assert (p.trace + [e])[..|p.trace|] == p.trace;
      OneMoreEvent(p.trace, e);
    }
    forall y | y in q.entries ensures SinceLast(q, y) {
      assert SinceLast(p, y);
    }
  }

  lemma VisitKeepsTime(g: Dependents, p: Progress, x: Id, see: Sighting)
    requires TimeInv(p) && x in g
    ensures TimeInv(Visit(g, p, x, see))
  {
    if x in p.entries {
      if see(x).gone {
        OneMoreEvent(p.trace, Gone(x));
        forall y | y in p.entries ensures SinceLast(Visit(g, p, x, see), y) { assert SinceLast(p, y); }
      } else if !Blocked(g, p.entries, x) {
        ActKeepsTime(p, x, false, see(x));
      }
    }
  }

  lemma {:induction false} SweepKeepsTime(g: Dependents, p: Progress, order: seq<Id>, see: Sighting)
    requires TimeInv(p) && forall x | x in order :: x in g
    ensures TimeInv(Sweep(g, p, order, see))
    decreases |order|
  {
    if order == [] {
    } else {
      SweepKeepsTime(g, p, order[..|order| - 1], see);
      VisitKeepsTime(g, Sweep(g, p, order[..|order| - 1], see), order[|order| - 1], see);
    }
  }

  lemma {:induction false} ForceKeepsTime(g: Dependents, p: Progress, order: seq<Id>, look: Sighting, again: Sighting)
    requires TimeInv(p) && forall x | x in order :: x in g
    ensures TimeInv(Force(g, p, order, look, again))
    decreases |order|
  {
    if order == [] {
    } else {
      var front, x := order[..|order| - 1], order[|order| - 1];
      ForceKeepsTime(g, p, front, look, again);
      var r := Force(g, p, front, look, again);
      if IsWaitedFor(g, r.entries, x, look) { ActKeepsTime(r, x, true, again(x)); }
    }
  }

  lemma PassKeepsTime(g: Dependents, p: Progress, order: seq<Id>, round: Round)
    requires TimeInv(p) && forall x | x in order :: x in g
    ensures TimeInv(Pass(g, p, order, round))
  {
    SweepKeepsTime(g, p, order, round.see);
    var r := Sweep(g, p, order, round.see);
    var q := Remove(r, round.see);
    forall x | x in q.entries ensures SinceLast(q, x) { assert SinceLast(r, x); }
    if round.nap.CtrlC? && round.nap.again.Some? {
      ForceKeepsTime(g, q, order, round.nap.look, round.nap.again.value);
    }
  }

  /** Over every run: without a second Ctrl+C each interrupt and terminate comes more than 60 seconds after
      the previous signal to that service was done; with one, still after it. */
  lemma {:induction false} SignalsAreTimely(g: Dependents, p: Progress, order: seq<Id>, rounds: seq<Round>)
    requires TimeInv(p) && forall x | x in order :: x in g
    ensures TimeInv(Run(g, p, order, rounds))
    decreases |rounds|
  {
    if p.entries.Keys == {} || rounds == [] {
    } else {
      PassKeepsTime(g, p, order, rounds[0]);
      SignalsAreTimely(g, Pass(g, p, order, rounds[0]), order, rounds[1..]);
    }
  }

  lemma BeginTime(order: seq<Id>)
    ensures TimeInv(Begin(order))
  {
  }

  // ----- forced signals -----

  /** Ctrl+C was pressed a second time in this round, and the service was being waited for: it had a
      process when looked at. */
  predicate ForcedIn(round: Round, e: Event) {
    && e.Sent? && round.nap.CtrlC? && round.nap.again.Some?
    && !round.nap.look(e.id).gone
    && e.check == round.nap.again.value(e.id).check
  }

  ghost predicate ForcedOnlyIn(trace: seq<Event>, rounds: seq<Round>) {
    forall e | e in trace && e.Sent? && e.forced :: exists k :: 0 <= k < |rounds| && ForcedIn(rounds[k], e)
  }

  lemma {:induction false} SweepForcesNothing(g: Dependents, p: Progress, order: seq<Id>, see: Sighting, e: Event)
    requires (forall x | x in order :: x in g) && e in Sweep(g, p, order, see).trace
    ensures e in p.trace || !(e.Sent? && e.forced)
    decreases |order|
  {
    if order == [] {
    } else {
      var r := Sweep(g, p, order[..|order| - 1], see);
      if e in r.trace { SweepForcesNothing(g, p, order[..|order| - 1], see, e); }
    }
  }

  lemma {:induction false} ForceForcesWaitedFor(g: Dependents, p: Progress, order: seq<Id>, round: Round, e: Event)
    requires (forall x | x in order :: x in g) && round.nap.CtrlC? && round.nap.again.Some?
    requires e in Force(g, p, order, round.nap.look, round.nap.again.value).trace
    ensures e in p.trace || (ForcedIn(round, e) && e.id in p.entries && e.id in g && forall y | y in g[e.id] :: y !in p.entries)
    decreases |order|
  {
    if order == [] {
    } else {
      var r := Force(g, p, order[..|order| - 1], round.nap.look, round.nap.again.value);
      var x := order[|order| - 1];
      if e in r.trace {
        ForceForcesWaitedFor(g, p, order[..|order| - 1], round, e);
      } else {
        assert Blocked(g, r.entries, x) == Blocked(g, p.entries, x);
      }
    }
  }

  lemma {:induction false} RunForcesOnlyAsAsked(g: Dependents, p: Progress, order: seq<Id>, rounds: seq<Round>, e: Event)
    requires (forall x | x in order :: x in g) && e.Sent? && e.forced
    requires e in Run(g, p, order, rounds).trace && e !in p.trace
    ensures exists k :: 0 <= k < |rounds| && ForcedIn(rounds[k], e)
    decreases |rounds|
  {
    var round := rounds[0];
    var q := Pass(g, p, order, round);
    if e in q.trace {
      var s := Remove(Sweep(g, p, order, round.see), round.see);
      if e in s.trace { SweepForcesNothing(g, p, order, round.see, e); }
      if round.nap.CtrlC? && round.nap.again.Some? {
        ForceForcesWaitedFor(g, s, order, round, e);
      }
      assert ForcedIn(rounds[0], e);
    } else {
      RunForcesOnlyAsAsked(g, q, order, rounds[1..], e);
      var k :| 0 <= k < |rounds[1..]| && ForcedIn(rounds[1..][k], e);
      assert ForcedIn(rounds[k + 1], e);
    }
  }

  predicate NeverForced(rounds: seq<Round>) {
    forall k | 0 <= k < |rounds| :: !(rounds[k].nap.CtrlC? && rounds[k].nap.again.Some?)
  }

  /** The j-th event is the next signal to the service that the i-th was sent to. */
  predicate Follows(t: seq<Event>, i: nat, j: nat) {
    && i < j < |t| && t[i].Sent? && t[j].Sent? && t[i].id == t[j].id
    && forall k | i < k < j :: !(t[k].Sent? && t[k].id == t[j].id)
  }

  /** When Ctrl+C is never pressed twice: any two successive signals to a service are more than 60 seconds
      apart, over the whole shutdown. */
  lemma PatientShutdown(g: Dependents, order: seq<Id>, rounds: seq<Round>, i: nat, j: nat)
    requires (forall x | x in order :: x in g) && NeverForced(rounds)
    requires Follows(Run(g, Begin(order), order, rounds).trace, i, j)
    ensures var t := Run(g, Begin(order), order, rounds).trace;
            t[j].check - t[i].stamp > 60.0
  {
    var t := Run(g, Begin(order), order, rounds).trace;
    BeginTime(order);
    SignalsAreTimely(g, Begin(order), order, rounds);
    if t[j].forced {
      assert t[j] in t;
      RunForcesOnlyAsAsked(g, Begin(order), order, rounds, t[j]);
    }
    assert TimelyAt(t, j);
    LastSentAt(t[..j], t[j].id, i);
  }

  // ----- within the leniency -----

  lemma {:induction false} SweepSends(g: Dependents, p: Progress, order: seq<Id>, see: Sighting, x: Id)
    requires (forall y | y in order :: y in g) && x in p.entries && x in g
    requires !p.entries[x].stage.Alive? && !see(x).gone && see(x).check - p.entries[x].since <= 60.0
    ensures Sweep(g, p, order, see).entries[x] == p.entries[x]
    ensures SignalsTo(Sweep(g, p, order, see).trace, x) == SignalsTo(p.trace, x)
    decreases |order|
  {
    if order == [] {
    } else {
      SweepSends(g, p, order[..|order| - 1], see, x);
      VisitLeavesAlone(g, Sweep(g, p, order[..|order| - 1], see), order[|order| - 1], see, x);
    }
  }

  lemma VisitLeavesAlone(g: Dependents, p: Progress, y: Id, see: Sighting, x: Id)
    requires y in g && x in p.entries
    requires !p.entries[x].stage.Alive? && !see(x).gone && see(x).check - p.entries[x].since <= 60.0
    ensures var q := Visit(g, p, y, see);
            x in q.entries && q.entries[x] == p.entries[x] && SignalsTo(q.trace, x) == SignalsTo(p.trace, x)
  {
    var q := Visit(g, p, y, see);
    if q.trace != p.trace {
      assert q.trace[..|p.trace|] == p.trace;
    }
  }

  /** A service that was sent a signal and is still seen alive within 60 seconds of it is left alone by a
      pass in which Ctrl+C is not pressed twice: it stays as it is and is sent nothing. */
  lemma LeftAloneWithinAMinute(g: Dependents, p: Progress, order: seq<Id>, round: Round, x: Id)
    requires (forall y | y in order :: y in g) && x in p.entries && x in g
    requires p.entries[x].stage != Alive && !round.see(x).gone && round.see(x).check - p.entries[x].since <= 60.0
    requires !(round.nap.CtrlC? && round.nap.again.Some?)
    ensures var q := Pass(g, p, order, round);
            && x in q.entries && q.entries[x] == p.entries[x]
            && SignalsTo(q.trace, x) == SignalsTo(p.trace, x)
  {
    SweepSends(g, p, order, round.see, x);
  }

  /** The other half: a service seen alive later than that, with no dependent left, is sent the next signal
      in that very pass. */
  lemma SignalledAfterAMinute(g: Dependents, p: Progress, order: seq<Id>, see: Sighting, x: Id)
    requires (forall y | y in order :: y in g) && Distinct(order) && x in order && x in p.entries && x in g
    requires !see(x).gone && forall y | y in g[x] :: y !in p.entries
    ensures var (before, after) := (p.entries[x], Sweep(g, p, order, see).entries[x]);
            after == match before.stage
                     case Alive => Entry(Stopped, see(x).stamp)
                     case Stopped => if see(x).check > before.since + 60.0 then Entry(Interrupted, see(x).stamp) else before
                     case Interrupted => if see(x).check > before.since + 60.0 then Entry(Terminated, see(x).stamp) else before
                     case Terminated => before
  {
    SweepEntry(g, p, order, see, x);
  }

  /** Pressing Ctrl+C a second time sends each service that is being waited for its next signal at once,
      whatever its leniency: one that had a process when looked at and has no dependent left. */
  lemma ForcedAtOnce(g: Dependents, p: Progress, order: seq<Id>, round: Round, x: Id)
    requires (forall y | y in order :: y in g) && Distinct(order) && x in order && x in g
    requires round.nap.CtrlC? && round.nap.again.Some? && !round.nap.look(x).gone && !round.see(x).gone
    requires x in p.entries && forall y | y in g[x] :: y !in p.entries
    ensures var before, again := Sweep(g, p, order, round.see).entries[x], round.nap.again.value(x);
            var q := Pass(g, p, order, round);
            && x in q.entries
            && q.entries[x] == match before.stage
                               case Alive => Entry(Stopped, again.stamp)
                               case Stopped => if again.check > before.since then Entry(Interrupted, again.stamp) else before
                               case Interrupted => if again.check > before.since then Entry(Terminated, again.stamp) else before
                               case Terminated => before
  {
    var q := Remove(Sweep(g, p, order, round.see), round.see);
    assert x in q.entries && forall y | y in g[x] :: y !in q.entries;
    ForceEntry(g, q, order, round.nap.look, round.nap.again.value, x);
  }

  /** Nobody else's entry is touched by forcing. */
  lemma OthersAreNotForced(g: Dependents, p: Progress, order: seq<Id>, look: Sighting, again: Sighting, x: Id)
    requires (forall y | y in order :: y in g) && Distinct(order) && x in p.entries && x in g
    requires look(x).gone || exists y :: y in g[x] && y in p.entries
    ensures Force(g, p, order, look, again).entries[x] == p.entries[x]
  {
    ForceEntry(g, p, order, look, again, x);
  }
}
