/** The testbed: it sets up the dependency graph and rejects cycles, starts services together with
    what they need, and shuts all of them down. */
module Testbeds {
  import opened Outcomes
  import opened Walks
  import opened Dependencies
  import opened Launching
  import opened ShuttingDown
  import opened ShutdownTiming

  datatype SetupError =
    | UnknownDependency(id: Id)   // KeyError
    | NoSafetyService(id: Id)
    | CircularDependencies

  datatype StartError =
    | ShutdownRequested
    | UnknownService
    | NotLaunchable(id: Id)       // no script or executable for its type

  ghost predicate IsGraphOf(c: Config, g: Dependents) {
    && g.Keys == c.services.Keys
    && forall x, y | x in g :: y in g[x] <==> Depends(c, y, x)
  }

  lemma GraphIsClosed(c: Config, g: Dependents)
    requires IsGraphOf(c, g) && IsDictionary(c)
    ensures Closed(g) && forall x :: x in c.order <==> x in g
  {
    forall x, y | x in g && y in g[x] ensures y in g { assert Depends(c, y, x); }
  }

  /** Which lists represent the graph does not matter for cycles. */
  lemma SameGraphSameCycles(c: Config, g: Dependents, h: Dependents)
    requires IsGraphOf(c, g) && IsGraphOf(c, h) && HasCycle(g)
    ensures HasCycle(h)
  {
    var p :| IsWalk(g, p) && |p| >= 2 && p[0] == p[|p| - 1];
    SameWalks(g, h, p);
  }

  lemma {:induction false} SameWalks(g: Dependents, h: Dependents, p: seq<Id>)
    requires g.Keys == h.Keys && forall x, y | x in g :: y in g[x] <==> y in h[x]
    requires IsWalk(g, p)
    ensures IsWalk(h, p)
    decreases |p|
  {
    if |p| < 2 {
    } else {
      SameWalks(g, h, p[1..]);
    }
  }

  /** list.remove: drops the first occurrence. */
  function Without(s: seq<Id>, x: Id): seq<Id> {
    if s == [] then [] else if s[0] == x then s[1..] else [s[0]] + Without(s[1..], x)
  }

  lemma {:induction false} WithoutDrops(s: seq<Id>, x: Id)
    requires Distinct(s)
    ensures Distinct(Without(s, x))
    ensures forall y :: y in Without(s, x) <==> y in s && y != x
    ensures x in s ==> |Without(s, x)| < |s|
    ensures |Without(s, x)| <= |s|
    decreases |s|
  {
    if s == [] {
    } else {
      assert Distinct(s[1..]);
      WithoutDrops(s[1..], x);
      if s[0] == x {
        forall y ensures y in s[1..] <==> y in s && y != x {
          if y in s[1..] { var i :| 0 <= i < |s| - 1 && s[1..][i] == y; assert s[i + 1] == y; }
        }
      } else {
        DistinctAppend([s[0]], Without(s[1..], x));
      }
    }
  }

  /** Does one of these services depend on the one with the given dependents? */
  method HasDependentAmong(dependents: seq<Id>, those: set<Id>) returns (blocked: bool)
    ensures blocked <==> exists y :: y in dependents && y in those
  {
    for j := 0 to |dependents|
      invariant forall y | y in dependents[..j] :: y !in those
    {
      if dependents[j] in those { return true; }
    }
    return false;
  }

  /** The services of one layer: those nobody in `left` depends on. */
  method NextLayer(left: seq<Id>, g: Dependents) returns (layer: seq<Id>)
    requires Distinct(left) && forall x | x in left :: x in g
    ensures forall x :: x in layer <==> x in left && forall y | y in g[x] :: y !in left
    ensures Distinct(layer)
  {
    layer := [];
    for i := 0 to |left|
      invariant forall x :: x in layer <==> x in left[..i] && forall y | y in g[x] :: y !in left
      invariant Distinct(layer)
    {
      var blocked := HasDependentAmong(g[left[i]], set y | y in left);
      if !blocked {
        DistinctAppend(layer, [left[i]]);
        layer := layer + [left[i]];
      }
    }
  }

  method RemoveAll(left: seq<Id>, layer: seq<Id>) returns (rest: seq<Id>)
    requires Distinct(left) && forall x | x in layer :: x in left
    ensures Distinct(rest) && forall x :: x in rest <==> x in left && x !in layer
    ensures layer != [] ==> |rest| < |left|
  {
    rest := left;
    for i := 0 to |layer|
      invariant Distinct(rest) && |rest| <= |left| && (i > 0 ==> |rest| < |left|)
      invariant forall x :: x in rest <==> x in left && x !in layer[..i]
    {
      WithoutDrops(rest, layer[i]);
      if i == 0 { assert layer[0] in rest; }
      rest := Without(rest, layer[i]);
    }
    assert layer[..|layer|] == layer;
  }

  /** The services peeled so far are ranked by their layer; the others are still in `left`. */
  ghost predicate Peeled(g: Dependents, left: seq<Id>, rank: map<Id, nat>, height: nat) {
    && (forall x | x in left :: x in g)
    && (forall x | x in g :: x in rank || x in left)
    && (forall x | x in rank :: x in g && rank[x] < height)
    && (forall x | x in rank :: forall y | y in g[x] :: y in rank && rank[y] < rank[x])
  }

  lemma PeelLayer(g: Dependents, left: seq<Id>, rank: map<Id, nat>, height: nat, layer: seq<Id>, rest: seq<Id>)
    returns (rank': map<Id, nat>)
    requires Closed(g) && Peeled(g, left, rank, height)
    requires forall x :: x in layer <==> x in left && forall y | y in g[x] :: y !in left
    requires forall x :: x in rest <==> x in left && x !in layer
    ensures Peeled(g, rest, rank', height + 1)
  {
    rank' := map x | x in g && (x in rank || x in layer) :: if x in rank then rank[x] else height;
    forall x, y | x in rank' && y in g[x] ensures y in rank' && rank'[y] < rank'[x] {
      if x in rank { assert y in rank; } else { assert y in rank by { assert y !in left; } }
    }
  }

  /** The circular dependency check: it accepts exactly the graphs with a topological rank and rejects
      exactly those with a cycle. */
  method IsFreeOfCycles(order: seq<Id>, g: Dependents) returns (ok: bool)
    requires Distinct(order) && Closed(g) && forall x :: x in order <==> x in g
    ensures ok <==> Acyclic(g)
    ensures !ok <==> HasCycle(g)
  {
    var left := order;
    ghost var rank: map<Id, nat> := map[];
    ghost var height: nat := 0;
    while left != []
      invariant Distinct(left) && Peeled(g, left, rank, height)
      decreases |left|
    {
      var layer := NextLayer(left, g);
      if layer == [] {
        ghost var rest := set x | x in left;
        forall x | x in rest ensures HasDependentIn(g, rest, x) {
          assert x !in layer;
          var y :| y in g[x] && y in left;
          assert y in rest;
        }
        assert left[0] in rest;
        StuckHasCycle(g, rest);
        CycleHasNoRank(g);
        return false;
      }
      var rest := RemoveAll(left, layer);
      rank := PeelLayer(g, left, rank, height, layer, rest);
      height := height + 1;
      left := rest;
    }
    assert IsRank(g, rank);
    if HasCycle(g) { CycleHasNoRank(g); }
    return true;
  }

  /** The edges that the services in `done` contribute. */
  ghost predicate EdgesFrom(c: Config, g: Dependents, done: seq<Id>) {
    && g.Keys == c.services.Keys
    && forall x, y | x in g :: y in g[x] <==> y in done && Depends(c, y, x)
  }

  ghost predicate ResolvableService(c: Config, y: Id)
    requires y in c.services
  {
    && (forall d | d in c.services[y].dependsOn :: d in c.services)
    && (c.services[y].requiresSafety ==> c.safety.Some? && c.safety.value in c.services)
  }

  ghost predicate Explains(c: Config, e: SetupError) {
    match e
    case UnknownDependency(d) => d !in c.services && exists y :: Depends(c, y, d)
    case NoSafetyService(y) => y in c.services && c.services[y].requiresSafety && c.safety.None?
    case CircularDependencies => Resolvable(c) && forall g | IsGraphOf(c, g) :: HasCycle(g)
  }

  method AddEdgesOf(c: Config, y: Id, done: seq<Id>, g0: Dependents) returns (r: Result<Dependents, SetupError>)
    requires y in c.services && y !in done && EdgesFrom(c, g0, done)
    ensures r.Ok? <==> ResolvableService(c, y)
    ensures r.Ok? ==> EdgesFrom(c, r.value, done + [y])
    ensures r.Err? ==> Explains(c, r.error) && !r.error.CircularDependencies?
  {
    var g, needs := g0, c.services[y].dependsOn;
    for j := 0 to |needs|
      invariant g.Keys == c.services.Keys
      invariant forall x, z | x in g :: z in g[x] <==> z in g0[x] || (z == y && x in needs[..j])
      invariant forall d | d in needs[..j] :: d in c.services
    {
      var d := needs[j];
      if d !in g {
        assert Depends(c, y, d);
        return Err(UnknownDependency(d));
      }
      g := g[d := g[d] + [y]];
    }
    assert needs[..|needs|] == needs;
    if c.services[y].requiresSafety {
      if c.safety.None? { return Err(NoSafetyService(y)); }
      if c.safety.value !in g {
        assert Depends(c, y, c.safety.value);
        return Err(UnknownDependency(c.safety.value));
      }
      g := g[c.safety.value := g[c.safety.value] + [y]];
    }
    return Ok(g);
  }

  /** Inverts the dependencies, adding an edge to the safety service for each service that needs it. */
  method DependentsOf(c: Config) returns (r: Result<Dependents, SetupError>)
    requires IsDictionary(c)
    ensures r.Ok? <==> Resolvable(c)
    ensures r.Ok? ==> IsGraphOf(c, r.value)
    ensures r.Err? ==> Explains(c, r.error) && !r.error.CircularDependencies?
  {
    var g: Dependents := map x | x in c.services :: [];
    for i := 0 to |c.order|
      invariant EdgesFrom(c, g, c.order[..i])
      invariant forall k | 0 <= k < i :: ResolvableService(c, c.order[k])
    {
      var y := c.order[i];
      assert y in c.services;
      assert c.order[..i + 1] == c.order[..i] + [y];
      var added := AddEdgesOf(c, y, c.order[..i], g);
      if added.Err? { return added; }
      g := added.value;
    }
    assert c.order[..|c.order|] == c.order;
    forall y | y in c.services ensures ResolvableService(c, y) {
      assert y in c.order;
    }
    return Ok(g);
  }

  /** Deleting the collected services leaves those whose process was seen. */
  lemma RemovedAreGone(order: seq<Id>, entries: map<Id, Entry>, trace: seq<Event>, gone: seq<Id>, see: Sighting)
    requires forall x | x in entries :: x in order
    requires forall x | x in gone :: see(x).gone
    requires forall k | 0 <= k < |order| && order[k] in entries && see(order[k]).gone :: order[k] in gone
    ensures Progress(entries - (set x | x in gone), trace) == Remove(Progress(entries, trace), see)
  {
    forall x | x in entries ensures x in gone <==> see(x).gone {
      var k :| 0 <= k < |order| && order[k] == x;
    }
  }

  class Testbed {
    const config: Config
    const needs: Needs
    const dependedOnBy: Dependents
    const launchable: set<Id>
    var states: States
    var launched: seq<Id>
    var shutdownRequested: bool

    /** What the constructor established about the configuration; it never changes. */
    ghost predicate SetUp() {
      && IsDictionary(config) && Resolvable(config)
      && IsGraphOf(config, dependedOnBy) && Acyclic(dependedOnBy)
      && forall x | x in needs :: x in config.services && needs[x] == config.services[x].dependsOn
    }

    ghost predicate TracksEveryService()
      reads this
    {
      && states.Keys == needs.Keys == config.services.Keys
      && forall x | x in needs :: forall d | d in needs[x] :: d in config.services
    }

    ghost predicate Valid()
      reads this
    {
      SetUp() && TracksEveryService()
    }

    constructor Assembled(c: Config, g: Dependents, runnable: set<Id>)
      requires IsDictionary(c) && Resolvable(c) && IsGraphOf(c, g) && Acyclic(g)
      ensures Valid() && config == c && dependedOnBy == g && launchable == runnable
      ensures launched == [] && !shutdownRequested
      ensures forall x | x in states :: states[x] == CLOSED
    {
      config, dependedOnBy, launchable := c, g, runnable;
      needs := map x | x in c.services :: c.services[x].dependsOn;
      states := map x | x in c.services :: CLOSED;
      launched, shutdownRequested := [], false;
    }

    /** Set-up succeeds exactly for resolvable configurations whose graph has no cycle. */
    static method Create(c: Config, runnable: set<Id>) returns (r: Result<Testbed, SetupError>)
      requires IsDictionary(c)
      ensures r.Ok? ==> fresh(r.value) && r.value.Valid() && r.value.config == c && r.value.launchable == runnable
      ensures r.Err? ==> Explains(c, r.error)
    {
      var g := DependentsOf(c);
      if g.Err? { return Err(g.error); }
      var ok := IsFreeOfCycles(c.order, g.value);
      if !ok {
        forall h | IsGraphOf(c, h) ensures HasCycle(h) { SameGraphSameCycles(c, g.value, h); }
        return Err(CircularDependencies);
      }
      var testbed := new Testbed.Assembled(c, g.value, runnable);
      return Ok(testbed);
    }

    /** Why a start failed. */
    ghost predicate Excuses(s: Id, before: States, e: StartError)
      reads this
    {
      match e
      case ShutdownRequested => shutdownRequested && states == before
      case UnknownService => s !in config.services && states == before
      case NotLaunchable(x) => x !in launchable && x in before && IsDead(before[x]) && Reaches(needs, s, x)
    }

    /** Launches a service and then, recursively, everything it needs that is not up yet. */
    method StartService(s: Id) returns (r: Result<(), StartError>, ghost more: seq<Id>)
      requires TracksEveryService()
      modifies this
      ensures TracksEveryService() && shutdownRequested == old(shutdownRequested)
      ensures launched == old(launched) + more && forall x | x in more :: x in launchable
      ensures LaunchedOnly(needs, s, old(states), states, more)
      ensures r.Ok? ==> Started(needs, s, old(states), states, more)
      ensures r.Err? ==> Excuses(s, old(states), r.error)
      ensures shutdownRequested || s !in config.services ==> r.Err?
      ensures more != [] ==> more[0] == s
      decreases DeadSet(states), 0
    {
      more := [];
      if shutdownRequested { return Err(ShutdownRequested), []; }
      if s !in config.services { return Err(UnknownService), []; }
      if !IsDead(states[s]) { return Ok(()), []; }
      ReachesSelf(needs, s);
      if s !in launchable { return Err(NotLaunchable(s)), []; }
      ghost var before := states;
      states := states[s := INITIALIZING];
      ghost var was := launched;
      launched := launched + [s];
      ProgressBegins(needs, s, before);
      LaunchingUses(needs, s, before, states, [s]);
      r, more := StartNeeds(s, before, was);
    }

    /** The request handler, on a testbed whose running services have their dependencies running: it
        launches exactly the dead services reachable from `s`, each once, and leaves that so. It fails
        only if the testbed is shutting down, the service is unknown, or one of those services has
        nothing to run. */
    method OnStartService(s: Id) returns (r: Result<(), StartError>, ghost more: seq<Id>)
      requires Valid() && ClosedUnderNeeds(needs, states)
      modifies this
      ensures Valid() && launched == old(launched) + more && Distinct(more)
      ensures r.Ok? ==> ClosedUnderNeeds(needs, states)
      ensures r.Ok? ==> forall x :: x in more <==> x in old(states) && IsDead(old(states)[x]) && Reaches(needs, s, x)
      ensures r.Ok? ==> s in old(states) && s in states
      ensures r.Ok? && (old(states)[s] == CLOSED || old(states)[s] == CRASHED || old(states)[s] == FAIL_SAFE)
              ==> s in more && states[s] == INITIALIZING
      ensures r.Ok? && !(old(states)[s] == CLOSED || old(states)[s] == CRASHED || old(states)[s] == FAIL_SAFE)
              ==> s !in more && states[s] == old(states)[s]
      ensures r.Ok? <==>
                && !shutdownRequested && s in config.services
                && forall x | x in old(states) && IsDead(old(states)[x]) && Reaches(needs, s, x) :: x in launchable
    {
      r, more := StartService(s);
      if r.Ok? {
        ExactSearch(needs, s, old(states), states, more);
        DeadStatesAreLaunched(needs, s, old(states), states, more);
      }
    }

    /** The loop over the dependencies at the end of start_service. */
    method StartNeeds(s: Id, ghost before: States, ghost was: seq<Id>) returns (r: Result<(), StartError>, ghost more: seq<Id>)
      requires TracksEveryService() && !shutdownRequested && s in needs && s in launchable
      requires before.Keys == states.Keys && IsDead(before[s]) && states == before[s := INITIALIZING]
      requires launched == was + [s]
      modifies this
      ensures TracksEveryService() && shutdownRequested == old(shutdownRequested)
      ensures launched == was + more && forall x | x in more :: x in launchable
      ensures more != [] && more[0] == s
      ensures LaunchedOnly(needs, s, before, states, more)
      ensures r.Ok? ==> Started(needs, s, before, states, more)
      ensures r.Err? ==> Excuses(s, before, r.error)
      decreases DeadSet(states), 2
    {
      more := [s];
      ProgressBegins(needs, s, before);
      for i := 0 to |needs[s]|
        invariant TracksEveryService() && !shutdownRequested
        invariant launched == was + more && more != [] && more[0] == s
        invariant forall x | x in more :: x in launchable
        invariant InProgress(needs, s, before, states, more, i)
      {
        assert DeadSet(states) <= DeadSet(old(states));
        ghost var extra;
        r, extra := StartNeed(s, i, before, more);
        assert was + (more + extra) == was + more + extra;
        more := more + extra;
        if r.Err? { return; }
      }
      ProgressEnds(needs, s, before, states, more);
      return Ok(()), more;
    }

    /** Starts the next dependency of `s`, of which `done` has been launched so far. */
    method StartNeed(s: Id, i: nat, ghost before: States, ghost done: seq<Id>)
      returns (r: Result<(), StartError>, ghost extra: seq<Id>)
      requires TracksEveryService() && !shutdownRequested && s in needs && i < |needs[s]|
      requires InProgress(needs, s, before, states, done, i)
      modifies this
      ensures TracksEveryService() && !shutdownRequested
      ensures launched == old(launched) + extra && forall x | x in extra :: x in launchable
      ensures LaunchedOnly(needs, s, before, states, done + extra)
      ensures r.Ok? ==> InProgress(needs, s, before, states, done + extra, i + 1)
      ensures r.Err? ==> Excuses(s, before, r.error)
      decreases DeadSet(states), 1
    {
      ghost var mid := states;
      r, extra := StartService(needs[s][i]);
      LaunchesAddUp(needs, s, needs[s][i], before, mid, states, done, extra);
      if r.Ok? {
        ProgressAdvances(needs, s, before, mid, states, done, extra, i);
      } else if r.error.NotLaunchable? {
        ReachesThrough(needs, s, needs[s][i], r.error.id);
      }
    }

    /** Sends stop, interrupt and terminate until no service is left or the observation ends. */
    method ShutDownAllServices(rounds: seq<Round>) returns (entries: map<Id, Entry>, trace: seq<Event>)
      requires Valid()
      ensures Progress(entries, trace) == Run(dependedOnBy, Begin(config.order), config.order, rounds)
      ensures DependentsFirst(dependedOnBy, trace)
      ensures forall x | x in config.services :: SignalsTo(trace, x) <= [Stop, Interrupt, Terminate]
      ensures forall x | x in config.services && x !in entries :: Gone(x) in trace
      ensures |rounds| >= 4 * |config.order| && CooperativeRun(dependedOnBy, Begin(config.order), config.order, rounds)
              ==> entries.Keys == {}
      ensures forall rank, layers: nat {:trigger InLayers(rank, layers)} | InLayers(rank, layers) ::
                |rounds| >= 4 * layers && CooperativeRun(dependedOnBy, Begin(config.order), config.order, rounds)
                ==> entries.Keys == {}
      ensures NeverForced(rounds) ==>
                forall i: nat, j: nat | Follows(trace, i, j) :: trace[j].check - trace[i].stamp > 60.0
      ensures forall e | e in trace && e.Sent? && e.forced :: exists k :: 0 <= k < |rounds| && ForcedIn(rounds[k], e)
      ensures forall i, y | 0 <= i < |trace| && trace[i].Sent? && y in config.services
                && (trace[i].id in config.services[y].dependsOn
                    || (config.services[y].requiresSafety && config.safety == Some(trace[i].id))) ::
                Gone(y) in trace[..i]
    {
      GraphIsClosed(config, dependedOnBy);
      entries, trace := RunRounds(rounds);
      TimesAreKept(rounds, entries, trace);
      forall i, y | 0 <= i < |trace| && trace[i].Sent? && y in config.services && Depends(config, y, trace[i].id)
        ensures trace[i].id in dependedOnBy && y in dependedOnBy[trace[i].id]
      {
      }
      BeginInv(dependedOnBy, config.order);
      ShutdownOrder(dependedOnBy, Begin(config.order), config.order, rounds);
      if |rounds| >= 4 * |config.order| && CooperativeRun(dependedOnBy, Begin(config.order), config.order, rounds) {
        ShutdownWithinFourPassesEach(dependedOnBy, config.order, rounds);
      }
      forall rank, layers: nat | InLayers(rank, layers) && |rounds| >= 4 * layers
                                 && CooperativeRun(dependedOnBy, Begin(config.order), config.order, rounds)
        ensures entries.Keys == {}
      {
        ShutdownWithinFourPassesPerLayer(dependedOnBy, rank, layers, config.order, rounds);
      }
    }

    lemma TimesAreKept(rounds: seq<Round>, entries: map<Id, Entry>, trace: seq<Event>)
      requires OrderIsKnown()
      requires Progress(entries, trace) == Run(dependedOnBy, Begin(config.order), config.order, rounds)
      ensures NeverForced(rounds) ==>
                forall i: nat, j: nat | Follows(trace, i, j) :: trace[j].check - trace[i].stamp > 60.0
      ensures forall e | e in trace && e.Sent? && e.forced :: exists k :: 0 <= k < |rounds| && ForcedIn(rounds[k], e)
    {
      if NeverForced(rounds) {
        forall i: nat, j: nat | Follows(trace, i, j) ensures trace[j].check - trace[i].stamp > 60.0 {
          PatientShutdown(dependedOnBy, config.order, rounds, i, j);
        }
      }
      forall e | e in trace && e.Sent? && e.forced ensures exists k :: 0 <= k < |rounds| && ForcedIn(rounds[k], e) {
        RunForcesOnlyAsAsked(dependedOnBy, Begin(config.order), config.order, rounds, e);
      }
    }

    /** The graph fits into that many layers, each depending only on later ones. */
    ghost predicate InLayers(rank: map<Id, nat>, layers: nat)
      reads this
    {
      IsRank(dependedOnBy, rank) && forall x | x in dependedOnBy :: rank[x] < layers
    }

    method RunRounds(rounds: seq<Round>) returns (entries: map<Id, Entry>, trace: seq<Event>)
      requires OrderIsKnown()
      ensures Progress(entries, trace) == Run(dependedOnBy, Begin(config.order), config.order, rounds)
    {
      entries := map x | x in config.order :: Entry(Alive, 0.0);
      trace := [];
      var k := 0;
      while entries.Keys != {} && k < |rounds|
        invariant 0 <= k <= |rounds| && forall x | x in entries :: x in config.order
        invariant Run(dependedOnBy, Progress(entries, trace), config.order, rounds[k..])
               == Run(dependedOnBy, Begin(config.order), config.order, rounds)
      {
        var round := rounds[k];
        assert rounds[k..][1..] == rounds[k + 1..];
        entries, trace := SweepServices(entries, trace, round.see);
        if round.nap.CtrlC? && round.nap.again.Some? {
          entries, trace := ForceShutdown(entries, trace, round.nap.look, round.nap.again.value);
        }
        k := k + 1;
      }
    }

    /** One pass over the services, then the removal of those seen to be gone. */
    method SweepServices(entries: map<Id, Entry>, trace: seq<Event>, see: Sighting)
      returns (e: map<Id, Entry>, t: seq<Event>)
      requires OrderIsKnown() && forall x | x in entries :: x in config.order
      ensures Progress(e, t)
           == Remove(Sweep(dependedOnBy, Progress(entries, trace), config.order, see), see)
    {
      var order := config.order;
      ghost var p := Progress(entries, trace);
      e, t := entries, trace;
      var gone: seq<Id> := [];
      for i := 0 to |order|
        invariant e.Keys == entries.Keys
        invariant Progress(e, t) == Sweep(dependedOnBy, p, order[..i], see)
        invariant forall x | x in gone :: see(x).gone
        invariant forall k | 0 <= k < i && order[k] in entries && see(order[k]).gone :: order[k] in gone
      {
        SweepOneMore(dependedOnBy, p, order, see, i);
        if order[i] in e && see(order[i]).gone { gone := gone + [order[i]]; }
        e, t := VisitService(e, t, order[i], see);
      }
      assert order[..|order|] == order;
      RemovedAreGone(order, e, t, gone, see);
      e := e - (set x | x in gone);
    }

    ghost predicate OrderIsKnown() {
      forall x | x in config.order :: x in dependedOnBy
    }

    method VisitService(entries: map<Id, Entry>, trace: seq<Event>, x: Id, see: Sighting)
      returns (e: map<Id, Entry>, t: seq<Event>)
      requires x in dependedOnBy
      ensures Progress(e, t) == Visit(dependedOnBy, Progress(entries, trace), x, see)
    {
      e, t := entries, trace;
      if x in e {
        if see(x).gone {
          t := t + [Gone(x)];
        } else {
          var blocked := HasDependentAmong(dependedOnBy[x], e.Keys);
          if !blocked {
            var (entry, signal) := Escalate(LENIENCY, e[x], see(x));
            e := e[x := entry];
            if signal.Some? { t := t + [Sent(x, signal.value, see(x).check, see(x).stamp, false)]; }
          }
        }
      }
    }

    /** Ctrl+C twice: gather the services that are being waited for, then escalate each at once. */
    method ForceShutdown(entries: map<Id, Entry>, trace: seq<Event>, look: Sighting, again: Sighting)
      returns (e: map<Id, Entry>, t: seq<Event>)
      requires OrderIsKnown()
      ensures Progress(e, t) == Force(dependedOnBy, Progress(entries, trace), config.order, look, again)
    {
      var order, g := config.order, dependedOnBy;
      var waiting: seq<bool> := [];
      for i := 0 to |order|
        invariant |waiting| == i
        invariant forall k | 0 <= k < i :: waiting[k] == IsWaitedFor(g, entries, order[k], look)
      {
        var x, wait := order[i], false;
        if x in entries && !look(x).gone {
          var blocked := HasDependentAmong(g[x], entries.Keys);
          wait := !blocked;
        }
        waiting := waiting + [wait];
      }
      e, t := entries, trace;
      for i := 0 to |order|
        invariant e.Keys == entries.Keys
        invariant Progress(e, t) == Force(g, Progress(entries, trace), order[..i], look, again)
      {
        ForceOneMore(g, Progress(entries, trace), order, look, again, i);
        if waiting[i] {
          var x := order[i];
          var (entry, signal) := Escalate(0.0, e[x], again(x));
          e := e[x := entry];
          if signal.Some? { t := t + [Sent(x, signal.value, again(x).check, again(x).stamp, true)]; }
        }
      }
      assert order[..|order|] == order;
    }
  }
}
