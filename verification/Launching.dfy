/** What starting a service has to achieve, as a relation between the states before and after. */
module Launching {
  import opened Dependencies
  import opened Walks

  datatype ServiceState =
    | CLOSED | INITIALIZING | OPENING | RUNNING | CLOSING | UNRESPONSIVE | CRASHED | FAIL_SAFE

  type States = map<Id, ServiceState>

  predicate IsDead(s: ServiceState) {
    s.CLOSED? || s.CRASHED? || s.FAIL_SAFE?
  }

  predicate IsUp(states: States, x: Id) {
    x in states && !IsDead(states[x])
  }

  function DeadSet(states: States): set<Id> {
    set x | x in states && IsDead(states[x])
  }

  /** The dependencies of each service, by the same map type as its dependents. */
  type Needs = map<Id, seq<Id>>

  /** What every call does, failed or not: `launched` are dead services reachable from `s`, each once,
      and nothing else changes. */
  ghost predicate LaunchedOnly(needs: Needs, s: Id, before: States, after: States, launched: seq<Id>) {
    && Distinct(launched)
    && (forall x | x in launched :: x in before && IsDead(before[x]) && Reaches(needs, s, x))
    && after.Keys == before.Keys
    && (forall x | x in before :: after[x] == if x in launched then INITIALIZING else before[x])
  }

  ghost predicate NeedsAreUp(needs: Needs, after: States, xs: set<Id>) {
    forall x | x in xs && x in needs :: forall d | d in needs[x] :: IsUp(after, d)
  }

  /** What a call that returns normally achieves in addition. */
  ghost predicate Started(needs: Needs, s: Id, before: States, after: States, launched: seq<Id>) {
    && LaunchedOnly(needs, s, before, after, launched)
    && IsUp(after, s)
    && NeedsAreUp(needs, after, set x | x in launched)
  }

  /** The services that are not dead have all their dependencies not dead. */
  ghost predicate ClosedUnderNeeds(needs: Needs, states: States) {
    NeedsAreUp(needs, states, set x | x in states && !IsDead(states[x]))
  }

  /** start_service is an exact search of the dependency graph: if the running services were closed
      under dependencies, exactly the dead services reachable from `s` were launched, each once, and
      the running services are closed again. */
  lemma ExactSearch(needs: Needs, s: Id, before: States, after: States, launched: seq<Id>)
    requires Started(needs, s, before, after, launched)
    requires ClosedUnderNeeds(needs, before)
    ensures forall x :: x in launched <==> x in before && IsDead(before[x]) && Reaches(needs, s, x)
    ensures Distinct(launched)
    ensures ClosedUnderNeeds(needs, after)
  {
    var up := set x | x in after && !IsDead(after[x]);
    forall x, d | x in up && x in needs && d in needs[x] ensures d in up {
      if x in launched {
        assert x in (set y | y in launched);
        assert IsUp(after, d);
      } else {
        assert x in (set y | y in before && !IsDead(before[y]));
        assert IsUp(before, d);
      }
    }
    forall x | x in before && IsDead(before[x]) && Reaches(needs, s, x) ensures x in launched {
      var p :| IsWalk(needs, p) && |p| >= 1 && p[0] == s && p[|p| - 1] == x;
      WalkStaysInside(needs, up, p);
    }
  }

  /** In terms of the states themselves: services that are closed, crashed or failed safe are launched when
      `s` reaches them, `s` itself included, and no others; a service in any other state stays in it. */
  lemma DeadStatesAreLaunched(needs: Needs, s: Id, before: States, after: States, launched: seq<Id>)
    requires Started(needs, s, before, after, launched)
    requires ClosedUnderNeeds(needs, before)
    ensures s in before
    ensures forall x | x in before ::
              && x in after
              && ((before[x] == CLOSED || before[x] == CRASHED || before[x] == FAIL_SAFE) ==>
                    (if x in launched then after[x] == INITIALIZING && Reaches(needs, s, x)
                     else after[x] == before[x] && !Reaches(needs, s, x)))
              && ((before[x] == INITIALIZING || before[x] == OPENING || before[x] == RUNNING
                   || before[x] == CLOSING || before[x] == UNRESPONSIVE) ==> x !in launched && after[x] == before[x])
    ensures s in launched <==> before[s] == CLOSED || before[s] == CRASHED || before[s] == FAIL_SAFE
  {
    ExactSearch(needs, s, before, after, launched);
    ReachesSelf(needs, s);
    assert s in before;
  }

  /** Launching on behalf of a dependency extends what has been launched on behalf of `s`. */
  lemma LaunchesAddUp(needs: Needs, s: Id, d: Id, before: States, mid: States, after: States,
                      first: seq<Id>, second: seq<Id>)
    requires s in needs && d in needs[s]
    requires LaunchedOnly(needs, s, before, mid, first)
    requires LaunchedOnly(needs, d, mid, after, second)
    ensures LaunchedOnly(needs, s, before, after, first + second)
  {
    forall x | x in second ensures x in before && IsDead(before[x]) && x !in first && Reaches(needs, s, x) {
      ReachesThrough(needs, s, d, x);
    }
    DistinctAppend(first, second);
  }

  /** Where start_service stands after starting the first `i` dependencies of `s`: everything launched
      on the way but `s` itself has its dependencies up. */
  ghost predicate InProgress(needs: Needs, s: Id, before: States, now: States, done: seq<Id>, i: nat)
    requires s in needs && i <= |needs[s]|
  {
    && LaunchedOnly(needs, s, before, now, done)
    && s in done
    && (forall d | d in needs[s][..i] :: IsUp(now, d))
    && NeedsAreUp(needs, now, (set x | x in done) - {s})
  }

  lemma ProgressBegins(needs: Needs, s: Id, before: States)
    requires s in needs && s in before && IsDead(before[s])
    ensures InProgress(needs, s, before, before[s := INITIALIZING], [s], 0)
  {
    ReachesSelf(needs, s);
  }

  lemma ProgressAdvances(needs: Needs, s: Id, before: States, mid: States, after: States,
                         done: seq<Id>, more: seq<Id>, i: nat)
    requires s in needs && i < |needs[s]|
    requires InProgress(needs, s, before, mid, done, i)
    requires Started(needs, needs[s][i], mid, after, more)
    ensures InProgress(needs, s, before, after, done + more, i + 1)
  {
    LaunchesAddUp(needs, s, needs[s][i], before, mid, after, done, more);
    assert forall x | IsUp(mid, x) :: IsUp(after, x);
    forall d | d in needs[s][..i + 1] ensures IsUp(after, d) {
      assert d in needs[s][..i] || d == needs[s][i];
    }
    forall x, y | x in (set z | z in done + more) - {s} && x in needs && y in needs[x] ensures IsUp(after, y) {
      if x in more { assert x in (set z | z in more); } else { assert IsUp(mid, y); }
    }
  }

  lemma ProgressEnds(needs: Needs, s: Id, before: States, now: States, done: seq<Id>)
    requires s in needs && InProgress(needs, s, before, now, done, |needs[s]|)
    ensures Started(needs, s, before, now, done)
  {
    assert needs[s][..|needs[s]|] == needs[s];
  }

  /** The dead services shrink with every launch. */
  lemma LaunchingUses(needs: Needs, s: Id, before: States, now: States, done: seq<Id>)
    requires LaunchedOnly(needs, s, before, now, done) && done != []
    ensures DeadSet(now) < DeadSet(before)
  {
    assert done[0] in DeadSet(before) && done[0] !in DeadSet(now);
  }
}
