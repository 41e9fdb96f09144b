/** The optical model: wavefronts at named planes, computed from the planes they depend on, memoised,
    invalidated downstream, and overridden at chosen planes. The reference is evaluation with no
    cache at all. */
module OpticalModels {
  import opened Outcomes
  import opened Walks

  type Plane = string

  /** What has been registered. A propagator turns one wavefront from each dependency into one. */
  datatype Graph<!W> = Graph(needs: map<Plane, seq<Plane>>, props: map<Plane, seq<W> -> W>)

  /** Ranks for some planes; every other plane ranks lowest. */
  type Ranking = map<Plane, nat>

  function Rank(rank: Ranking, p: Plane): nat {
    if p in rank then rank[p] else 0
  }

  /** A rank that grows along every edge, as on a directed acyclic graph. */
  ghost predicate Ranked(edges: map<Plane, seq<Plane>>, rank: Ranking) {
    forall p | p in edges :: forall d | d in edges[p] :: Rank(rank, d) < Rank(rank, p)
  }

  // ----- propagation, one wavefront at a time -----

  /** How many tuples `zip` yields: the length of the shortest list, none for no lists. */
  function ZipLength<W>(inputs: seq<seq<W>>): nat {
    if inputs == [] then 0
    else if |inputs| == 1 then |inputs[0]|
    else
      var rest := ZipLength(inputs[1..]);
      if |inputs[0]| < rest then |inputs[0]| else rest
  }

  lemma {:induction false} ZipLengthIsShortest<W>(inputs: seq<seq<W>>)
    requires inputs != []
    ensures forall i | 0 <= i < |inputs| :: ZipLength(inputs) <= |inputs[i]|
    ensures exists i :: 0 <= i < |inputs| && ZipLength(inputs) == |inputs[i]|
    decreases |inputs|
  {
    if |inputs| == 1 {
      assert ZipLength(inputs) == |inputs[0]|;
    } else {
      ZipLengthIsShortest(inputs[1..]);
      forall i | 0 <= i < |inputs| ensures ZipLength(inputs) <= |inputs[i]| {
        if i > 0 { assert inputs[i] == inputs[1..][i - 1]; }
      }
      if ZipLength(inputs) != |inputs[0]| {
        var i :| 0 <= i < |inputs| - 1 && ZipLength(inputs[1..]) == |inputs[1..][i]|;
        assert ZipLength(inputs) == |inputs[i + 1]|;
      } else {
        assert ZipLength(inputs) == |inputs[0]|;
      }
    }
  }

  lemma ZipFits<W>(inputs: seq<seq<W>>)
    ensures forall i | 0 <= i < |inputs| :: ZipLength(inputs) <= |inputs[i]|
  {
    if inputs != [] { ZipLengthIsShortest(inputs); }
  }

  function Tuple<W>(inputs: seq<seq<W>>, k: nat): (args: seq<W>)
    requires forall i | 0 <= i < |inputs| :: k < |inputs[i]|
    ensures |args| == |inputs| && forall i | 0 <= i < |inputs| :: args[i] == inputs[i][k]
  {
    seq(|inputs|, i requires 0 <= i < |inputs| => inputs[i][k])
  }

  function Propagated<W>(f: seq<W> -> W, inputs: seq<seq<W>>): (out: seq<W>)
    ensures |out| == ZipLength(inputs)
  {
    ZipFits(inputs);
    seq(ZipLength(inputs), k requires 0 <= k < ZipLength(inputs) => f(Tuple(inputs, k)))
  }

  // ----- evaluation without a cache -----

  /** The wavefronts at `p` when the planes in `pins` are overridden; None where the source raises a
      KeyError for a plane that was never registered. */
  ghost function Eval<W(!new)>(g: Graph<W>, rank: Ranking, pins: map<Plane, seq<W>>, p: Plane): Option<seq<W>>
    requires Ranked(g.needs, rank)
    decreases Rank(rank, p), 1, 0
  {
    if p in pins then Some(pins[p])
    else if p !in g.props || p !in g.needs then None
    else
      match EvalAll(g, rank, pins, p, g.needs[p])
      case None => None
      case Some(inputs) => Some(Propagated(g.props[p], inputs))
  }

  ghost function EvalAll<W(!new)>(g: Graph<W>, rank: Ranking, pins: map<Plane, seq<W>>, p: Plane, ds: seq<Plane>)
    : (r: Option<seq<seq<W>>>)
    requires Ranked(g.needs, rank) && forall d | d in ds :: Rank(rank, d) < Rank(rank, p)
    ensures r.Some? ==> |r.value| == |ds|
    decreases Rank(rank, p), 0, |ds|
  {
    if ds == [] then Some([])
    else
      match EvalAll(g, rank, pins, p, ds[..|ds| - 1])
      case None => None
      case Some(front) =>
        match Eval(g, rank, pins, ds[|ds| - 1])
        case None => None
        case Some(w) => Some(front + [w])
  }

  /** Any function that satisfies the defining equation of evaluation is evaluation: the result does
      not depend on how the graph happens to be ranked. */
  lemma {:induction false} EvalIsUnique<W(!new)>(g: Graph<W>, rank: Ranking, rank': Ranking,
                                                 pins: map<Plane, seq<W>>, p: Plane)
    requires Ranked(g.needs, rank) && Ranked(g.needs, rank')
    ensures Eval(g, rank, pins, p) == Eval(g, rank', pins, p)
    decreases Rank(rank, p), 1, 0
  {
    if p in pins || p !in g.props || p !in g.needs {
    } else {
      EvalAllIsUnique(g, rank, rank', pins, p, g.needs[p]);
    }
  }

  lemma {:induction false} EvalAllIsUnique<W(!new)>(g: Graph<W>, rank: Ranking, rank': Ranking,
                                                    pins: map<Plane, seq<W>>, p: Plane, ds: seq<Plane>)
    requires Ranked(g.needs, rank) && Ranked(g.needs, rank')
    requires forall d | d in ds :: Rank(rank, d) < Rank(rank, p) && Rank(rank', d) < Rank(rank', p)
    ensures EvalAll(g, rank, pins, p, ds) == EvalAll(g, rank', pins, p, ds)
    decreases Rank(rank, p), 0, |ds|
  {
    if ds == [] {
    } else {
      EvalAllIsUnique(g, rank, rank', pins, p, ds[..|ds| - 1]);
      EvalIsUnique(g, rank, rank', pins, ds[|ds| - 1]);
    }
  }

  /** What is cached is what evaluation gives. */
  ghost predicate Holds<W(!new)>(g: Graph<W>, rank: Ranking, pins: map<Plane, seq<W>>, cache: map<Plane, seq<W>>)
    requires Ranked(g.needs, rank)
  {
    forall q {:trigger Eval(g, rank, pins, q)} | q in cache :: Eval(g, rank, pins, q) == Some(cache[q])
  }

  // ----- one wavefront at a time -----

  /** What a plane that is not overridden evaluates to: the k-th wavefront is the propagator applied to the
      k-th wavefront of each dependency, in the order of the dependencies, for as many k as all have. */
  lemma EvalOfPlane<W(!new)>(g: Graph<W>, rank: Ranking, pins: map<Plane, seq<W>>, p: Plane) returns (inputs: seq<seq<W>>)
    requires Ranked(g.needs, rank) && p !in pins && Eval(g, rank, pins, p).Some?
    ensures p in g.props && p in g.needs && |inputs| == |g.needs[p]|
    ensures forall j | 0 <= j < |inputs| :: Eval(g, rank, pins, g.needs[p][j]) == Some(inputs[j])
    ensures var out := Eval(g, rank, pins, p).value;
            && (inputs == [] ==> out == [])
            && (forall j | 0 <= j < |inputs| :: |out| <= |inputs[j]|)
            && (inputs != [] ==> exists j :: 0 <= j < |inputs| && |out| == |inputs[j]|)
            && forall k | 0 <= k < |out| ::
                 out[k] == g.props[p](seq(|inputs|, j requires 0 <= j < |inputs| => inputs[j][k]))
  {
    inputs := EvalAll(g, rank, pins, p, g.needs[p]).value;
    EvalAllInOrder(g, rank, pins, p, g.needs[p]);
    PropagatedMeans(g.props[p], inputs);
  }

  lemma {:induction false} EvalAllInOrder<W(!new)>(g: Graph<W>, rank: Ranking, pins: map<Plane, seq<W>>, p: Plane, ds: seq<Plane>)
    requires Ranked(g.needs, rank) && (forall d | d in ds :: Rank(rank, d) < Rank(rank, p))
    requires EvalAll(g, rank, pins, p, ds).Some?
    ensures forall j | 0 <= j < |ds| :: Eval(g, rank, pins, ds[j]) == Some(EvalAll(g, rank, pins, p, ds).value[j])
    decreases |ds|
  {
    if ds == [] {
    } else {
      EvalAllInOrder(g, rank, pins, p, ds[..|ds| - 1]);
    }
  }

  lemma PropagatedMeans<W>(f: seq<W> -> W, inputs: seq<seq<W>>)
    ensures var out := Propagated(f, inputs);
            && (inputs == [] ==> out == [])
            && (forall j | 0 <= j < |inputs| :: |out| <= |inputs[j]|)
            && (inputs != [] ==> exists j :: 0 <= j < |inputs| && |out| == |inputs[j]|)
            && forall k | 0 <= k < |out| :: out[k] == f(seq(|inputs|, j requires 0 <= j < |inputs| => inputs[j][k]))
  {
    ZipFits(inputs);
    if inputs != [] { ZipLengthIsShortest(inputs); }
    var out := Propagated(f, inputs);
    forall k | 0 <= k < |out| ensures out[k] == f(seq(|inputs|, j requires 0 <= j < |inputs| => inputs[j][k])) {
      assert Tuple(inputs, k) == seq(|inputs|, j requires 0 <= j < |inputs| => inputs[j][k]);
    }
  }

  /** The k-th wavefront alone; a plane without inputs has none. */
  function Only<W>(ws: seq<W>, k: nat): seq<W> {
    if k < |ws| then [ws[k]] else []
  }

  function OnlyPins<W>(pins: map<Plane, seq<W>>, k: nat): map<Plane, seq<W>> {
    map q | q in pins :: Only(pins[q], k)
  }

  ghost predicate EvenPins<W>(pins: map<Plane, seq<W>>, n: nat) {
    forall q | q in pins :: |pins[q]| == n
  }

  /** Evaluation works on each wavefront separately: with n wavefronts at every overridden plane, a plane has
      n wavefronts or none, and its k-th is what the k-th wavefronts of the overridden planes alone give. */
  lemma {:induction false} EvalIsPointwise<W(!new)>(g: Graph<W>, rank: Ranking, pins: map<Plane, seq<W>>, n: nat, k: nat, p: Plane)
    requires Ranked(g.needs, rank) && EvenPins(pins, n) && k < n
    ensures match Eval(g, rank, pins, p)
            case None => Eval(g, rank, OnlyPins(pins, k), p) == None
            case Some(out) => (|out| == 0 || |out| == n) && Eval(g, rank, OnlyPins(pins, k), p) == Some(Only(out, k))
    decreases Rank(rank, p), 1, 0
  {
    if p in pins || p !in g.props || p !in g.needs {
    } else {
      EvalAllIsPointwise(g, rank, pins, n, k, p, g.needs[p]);
      var whole, one := EvalAll(g, rank, pins, p, g.needs[p]), EvalAll(g, rank, OnlyPins(pins, k), p, g.needs[p]);
      if whole.Some? { PropagatedIsPointwise(g.props[p], whole.value, one.value, n, k); }
    }
  }

  lemma {:induction false} EvalAllIsPointwise<W(!new)>(
      g: Graph<W>, rank: Ranking, pins: map<Plane, seq<W>>, n: nat, k: nat, p: Plane, ds: seq<Plane>)
    requires Ranked(g.needs, rank) && EvenPins(pins, n) && k < n && forall d | d in ds :: Rank(rank, d) < Rank(rank, p)
    ensures match EvalAll(g, rank, pins, p, ds)
            case None => EvalAll(g, rank, OnlyPins(pins, k), p, ds) == None
            case Some(inputs) => EvalAll(g, rank, OnlyPins(pins, k), p, ds).Some?
                                 && AreOnly(inputs, EvalAll(g, rank, OnlyPins(pins, k), p, ds).value, n, k)
    decreases Rank(rank, p), 0, |ds|
  {
    if ds == [] {
    } else {
      EvalAllIsPointwise(g, rank, pins, n, k, p, ds[..|ds| - 1]);
      EvalIsPointwise(g, rank, pins, n, k, ds[|ds| - 1]);
    }
  }

  ghost predicate AreOnly<W>(inputs: seq<seq<W>>, ones: seq<seq<W>>, n: nat, k: nat) {
    && |ones| == |inputs|
    && forall j | 0 <= j < |inputs| :: (|inputs[j]| == 0 || |inputs[j]| == n) && ones[j] == Only(inputs[j], k)
  }

  lemma PropagatedIsPointwise<W>(f: seq<W> -> W, inputs: seq<seq<W>>, ones: seq<seq<W>>, n: nat, k: nat)
    requires AreOnly(inputs, ones, n, k) && k < n
    ensures |Propagated(f, inputs)| == 0 || |Propagated(f, inputs)| == n
    ensures Propagated(f, ones) == Only(Propagated(f, inputs), k)
  {
    PropagatedMeans(f, inputs);
    PropagatedMeans(f, ones);
    var out, one := Propagated(f, inputs), Propagated(f, ones);
    if out != [] {
      forall j | 0 <= j < |inputs| ensures |ones[j]| == 1 { assert |out| <= |inputs[j]|; }
      assert |one| == 1;
      assert Tuple(ones, 0) == Tuple(inputs, k);
    } else if inputs != [] {
      var j :| 0 <= j < |inputs| && |out| == |inputs[j]|;
      assert |one| <= |ones[j]|;
    }
  }

  // ----- what lies downstream of a plane -----

  /** The dependents lists cover every dependency edge. */
  ghost predicate Covers<W>(dependents: map<Plane, seq<Plane>>, g: Graph<W>) {
    forall p | p in g.needs :: forall d | d in g.needs[p] :: d in dependents && p in dependents[d]
  }

  /** Ranks of planes that are a dependent of something are bounded, and dependents rank higher. */
  ghost predicate RankedUpTo(dependents: map<Plane, seq<Plane>>, rank: Ranking, bound: nat) {
    forall d | d in dependents :: forall p | p in dependents[d] :: Rank(rank, d) < Rank(rank, p) <= bound
  }

  function Height(rank: Ranking, bound: nat, p: Plane): nat {
    if Rank(rank, p) <= bound then bound - Rank(rank, p) else 0
  }

  /** The plane and everything reachable from it through dependents, which is what a purge clears. */
  ghost function Downstream(dependents: map<Plane, seq<Plane>>, rank: Ranking, bound: nat, p: Plane): set<Plane>
    requires RankedUpTo(dependents, rank, bound)
    decreases Height(rank, bound, p), 1, 0
  {
    {p} + if p in dependents then DownstreamOfAll(dependents, rank, bound, p, dependents[p]) else {}
  }

  ghost function DownstreamOfAll(dependents: map<Plane, seq<Plane>>, rank: Ranking, bound: nat, p: Plane, ds: seq<Plane>): set<Plane>
    requires RankedUpTo(dependents, rank, bound) && forall d | d in ds :: Rank(rank, p) < Rank(rank, d) <= bound
    decreases Height(rank, bound, p), 0, |ds|
  {
    if ds == [] then {}
    else DownstreamOfAll(dependents, rank, bound, p, ds[..|ds| - 1])
         + Downstream(dependents, rank, bound, ds[|ds| - 1])
  }

  lemma {:induction false} InDownstreamOfAll(dependents: map<Plane, seq<Plane>>, rank: Ranking, bound: nat, p: Plane, ds: seq<Plane>, q: Plane)
    requires RankedUpTo(dependents, rank, bound) && forall d | d in ds :: Rank(rank, p) < Rank(rank, d) <= bound
    ensures q in DownstreamOfAll(dependents, rank, bound, p, ds)
       <==> exists i :: 0 <= i < |ds| && q in Downstream(dependents, rank, bound, ds[i])
    decreases |ds|
  {
    if ds == [] {
    } else {
      InDownstreamOfAll(dependents, rank, bound, p, ds[..|ds| - 1], q);
      if q in DownstreamOfAll(dependents, rank, bound, p, ds[..|ds| - 1]) {
        var i :| 0 <= i < |ds| - 1 && q in Downstream(dependents, rank, bound, ds[..|ds| - 1][i]);
        assert q in Downstream(dependents, rank, bound, ds[i]);
      }
      if i :| 0 <= i < |ds| && q in Downstream(dependents, rank, bound, ds[i]) {
        if i < |ds| - 1 { assert q in Downstream(dependents, rank, bound, ds[..|ds| - 1][i]); }
      }
    }
  }

  /** Downstream is exactly reachability: purging clears a plane and its descendants, nothing else. */
  lemma {:induction false} DownstreamIsReachable(dependents: map<Plane, seq<Plane>>, rank: Ranking, bound: nat, p: Plane, q: Plane)
    requires RankedUpTo(dependents, rank, bound)
    ensures q in Downstream(dependents, rank, bound, p) <==> Reaches(dependents, p, q)
    decreases Height(rank, bound, p)
  {
    if q == p {
      ReachesSelf(dependents, p);
    } else {
      if p in dependents { InDownstreamOfAll(dependents, rank, bound, p, dependents[p], q); }
      if q in Downstream(dependents, rank, bound, p) {
        var i :| 0 <= i < |dependents[p]| && q in Downstream(dependents, rank, bound, dependents[p][i]);
        DownstreamIsReachable(dependents, rank, bound, dependents[p][i], q);
        ReachesThrough(dependents, p, dependents[p][i], q);
      }
      if Reaches(dependents, p, q) {
        var i := FirstStep(dependents, p, q);
        DownstreamIsReachable(dependents, rank, bound, dependents[p][i], q);
      }
    }
  }

  /** Whoever depends on something downstream is downstream. */
  lemma DownstreamIsClosed(dependents: map<Plane, seq<Plane>>, rank: Ranking, bound: nat, p: Plane, x: Plane, y: Plane)
    requires RankedUpTo(dependents, rank, bound)
    requires x in Downstream(dependents, rank, bound, p) && x in dependents && y in dependents[x]
    ensures y in Downstream(dependents, rank, bound, p)
  {
    DownstreamIsReachable(dependents, rank, bound, p, x);
    DownstreamIsReachable(dependents, rank, bound, p, y);
    var path :| IsWalk(dependents, path) && |path| >= 1 && path[0] == p && path[|path| - 1] == x;
    WalkExtends(dependents, path, y);
  }

  // ----- evaluation only looks upstream -----

  /** No plane outside `region` depends on a plane inside it. */
  ghost predicate NothingLeaves<W>(g: Graph<W>, region: set<Plane>) {
    forall q | q in g.needs && q !in region :: forall d | d in g.needs[q] :: d !in region
  }

  ghost predicate AgreeOutside<W>(g: Graph<W>, g': Graph<W>, pins: map<Plane, seq<W>>, pins': map<Plane, seq<W>>, region: set<Plane>) {
    forall q | q !in region ::
      && (q in pins <==> q in pins') && (q in pins ==> pins[q] == pins'[q])
      && (q in g.needs <==> q in g'.needs) && (q in g.needs ==> g.needs[q] == g'.needs[q])
      && (q in g.props <==> q in g'.props) && (q in g.props ==> g.props[q] == g'.props[q])
  }

  lemma NothingLeavesDownstream<W>(dependents: map<Plane, seq<Plane>>, g: Graph<W>, rank: Ranking, bound: nat, p: Plane)
    requires RankedUpTo(dependents, rank, bound) && Covers(dependents, g)
    ensures NothingLeaves(g, Downstream(dependents, rank, bound, p)) && p in Downstream(dependents, rank, bound, p)
  {
    var region := Downstream(dependents, rank, bound, p);
    forall q, d | q in g.needs && q !in region && d in g.needs[q] ensures d !in region {
      if d in region { DownstreamIsClosed(dependents, rank, bound, p, d, q); }
    }
  }

  /** Evaluation of a plane is not affected by pins, propagators or dependencies changed in a region
      that nothing outside depends on. */
  lemma {:induction false} EvalIgnoresDownstream<W(!new)>(
      g: Graph<W>, g': Graph<W>, rank: Ranking, pins: map<Plane, seq<W>>, pins': map<Plane, seq<W>>,
      region: set<Plane>, p: Plane)
    requires Ranked(g.needs, rank) && Ranked(g'.needs, rank)
    requires NothingLeaves(g, region) && AgreeOutside(g, g', pins, pins', region) && p !in region
    ensures Eval(g, rank, pins, p) == Eval(g', rank, pins', p)
    decreases Rank(rank, p), 1, 0
  {
    if p in pins || p !in g.props || p !in g.needs {
    } else {
      EvalAllIgnoresDownstream(g, g', rank, pins, pins', region, p, g.needs[p]);
    }
  }

  lemma {:induction false} EvalAllIgnoresDownstream<W(!new)>(
      g: Graph<W>, g': Graph<W>, rank: Ranking, pins: map<Plane, seq<W>>, pins': map<Plane, seq<W>>,
      region: set<Plane>, p: Plane, ds: seq<Plane>)
    requires Ranked(g.needs, rank) && Ranked(g'.needs, rank)
    requires NothingLeaves(g, region) && AgreeOutside(g, g', pins, pins', region)
    requires forall d | d in ds :: Rank(rank, d) < Rank(rank, p) && d !in region
    ensures EvalAll(g, rank, pins, p, ds) == EvalAll(g', rank, pins', p, ds)
    decreases Rank(rank, p), 0, |ds|
  {
    if ds == [] {
    } else {
      EvalAllIgnoresDownstream(g, g', rank, pins, pins', region, p, ds[..|ds| - 1]);
      EvalIgnoresDownstream(g, g', rank, pins, pins', region, ds[|ds| - 1]);
    }
  }

  /** A plane redefined so that it still evaluates to the same makes no difference anywhere. */
  lemma {:induction false} EvalSameIfSameAt<W(!new)>(
      g: Graph<W>, g': Graph<W>, rank: Ranking, pins: map<Plane, seq<W>>, p: Plane, q: Plane)
    requires Ranked(g.needs, rank) && Ranked(g'.needs, rank) && AgreeOutside(g, g', pins, pins, {p})
    requires Eval(g, rank, pins, p) == Eval(g', rank, pins, p)
    ensures Eval(g, rank, pins, q) == Eval(g', rank, pins, q)
    decreases Rank(rank, q), 1, 0
  {
    if q == p || q in pins || q !in g.props || q !in g.needs {
    } else {
      EvalAllSameIfSameAt(g, g', rank, pins, p, q, g.needs[q]);
    }
  }

  lemma {:induction false} EvalAllSameIfSameAt<W(!new)>(
      g: Graph<W>, g': Graph<W>, rank: Ranking, pins: map<Plane, seq<W>>, p: Plane, q: Plane, ds: seq<Plane>)
    requires Ranked(g.needs, rank) && Ranked(g'.needs, rank) && AgreeOutside(g, g', pins, pins, {p})
    requires Eval(g, rank, pins, p) == Eval(g', rank, pins, p) && forall d | d in ds :: Rank(rank, d) < Rank(rank, q)
    ensures EvalAll(g, rank, pins, q, ds) == EvalAll(g', rank, pins, q, ds)
    decreases Rank(rank, q), 0, |ds|
  {
    if ds == [] {
    } else {
      EvalAllSameIfSameAt(g, g', rank, pins, p, q, ds[..|ds| - 1]);
      EvalSameIfSameAt(g, g', rank, pins, p, ds[|ds| - 1]);
    }
  }

  predicate Needs(needs: map<Plane, seq<Plane>>, q: Plane, d: Plane) {
    q in needs && d in needs[q]
  }

  /** Every kept plane that is not overridden has what it needs kept as well. */
  ghost predicate Supports<W>(needs: map<Plane, seq<Plane>>, pins: map<Plane, seq<W>>, kept: map<Plane, seq<W>>) {
    forall q, d {:trigger Needs(needs, q, d)} | Needs(needs, q, d) && q in kept && q !in pins :: d in kept
  }

  lemma SupportsMore<W>(needs: map<Plane, seq<Plane>>, pins: map<Plane, seq<W>>, kept: map<Plane, seq<W>>, p: Plane, ws: seq<W>)
    requires Supports(needs, pins, kept)
    requires p in needs ==> forall d | d in needs[p] :: d in kept
    ensures Supports(needs, pins, kept[p := ws])
  {
  }

  /** Evaluation of kept planes does not see what happens to a plane that is not kept. */
  lemma {:induction false} EvalIgnoresOutside<W(!new)>(
      g: Graph<W>, g': Graph<W>, rank: Ranking, pins: map<Plane, seq<W>>, kept: map<Plane, seq<W>>, p: Plane, q: Plane)
    requires Ranked(g.needs, rank) && Ranked(g'.needs, rank) && AgreeOutside(g, g', pins, pins, {p})
    requires Supports(g.needs, pins, kept) && p !in kept && q in kept
    ensures Eval(g, rank, pins, q) == Eval(g', rank, pins, q)
    decreases Rank(rank, q), 1, 0
  {
    if q in pins || q !in g.props || q !in g.needs {
    } else {
      assert forall d | d in g.needs[q] :: Needs(g.needs, q, d);
      EvalAllIgnoresOutside(g, g', rank, pins, kept, p, q, g.needs[q]);
    }
  }

  lemma {:induction false} EvalAllIgnoresOutside<W(!new)>(
      g: Graph<W>, g': Graph<W>, rank: Ranking, pins: map<Plane, seq<W>>, kept: map<Plane, seq<W>>, p: Plane, q: Plane, ds: seq<Plane>)
    requires Ranked(g.needs, rank) && Ranked(g'.needs, rank) && AgreeOutside(g, g', pins, pins, {p})
    requires Supports(g.needs, pins, kept) && p !in kept && forall d | d in ds :: d in kept && Rank(rank, d) < Rank(rank, q)
    ensures EvalAll(g, rank, pins, q, ds) == EvalAll(g', rank, pins, q, ds)
    decreases Rank(rank, q), 0, |ds|
  {
    if ds == [] {
    } else {
      EvalAllIgnoresOutside(g, g', rank, pins, kept, p, q, ds[..|ds| - 1]);
      EvalIgnoresOutside(g, g', rank, pins, kept, p, ds[|ds| - 1]);
    }
  }

  /** When a cached plane goes stale because `p` is registered anew: with cached planes supported and
      correct before, all are still correct afterwards if and only if `p` is not cached, is overridden,
      or computes to what is cached for it. */
  lemma StaleAfterRegistering<W(!new)>(
      g: Graph<W>, g': Graph<W>, rank: Ranking, pins: map<Plane, seq<W>>, cache: map<Plane, seq<W>>, p: Plane)
    requires Ranked(g.needs, rank) && Ranked(g'.needs, rank) && AgreeOutside(g, g', pins, pins, {p})
    requires Supports(g.needs, pins, cache)
    requires Holds(g, rank, pins, cache)
    ensures Holds(g', rank, pins, cache)
       <==> (p in cache && p !in pins ==> Eval(g', rank, pins, p) == Some(cache[p]))
  {
    if p in cache && p !in pins ==> Eval(g', rank, pins, p) == Some(cache[p]) {
      forall q | q in cache ensures Eval(g', rank, pins, q) == Some(cache[q]) {
        if p in cache {
          EvalSameIfSameAt(g, g', rank, pins, p, q);
        } else {
          EvalIgnoresOutside(g, g', rank, pins, cache, p, q);
        }
      }
    }
  }

  lemma SupportedAfterRegistering<W>(needs: map<Plane, seq<Plane>>, pins: map<Plane, seq<W>>, cache: map<Plane, seq<W>>, p: Plane, ds: seq<Plane>)
    requires Supports(needs, pins, cache)
    ensures Supports(needs[p := ds], pins, cache) <==> (p in cache && p !in pins ==> forall d | d in ds :: d in cache)
  {
    var after := needs[p := ds];
    assert forall d | d in ds :: Needs(after, p, d);
    forall q, d | Needs(after, q, d) && q != p && q in cache && q !in pins ensures d in cache {
      assert Needs(needs, q, d);
    }
  }

  /** Registration as a whole, however the planes were ranked before. */
  lemma Registering<W(!new)>(
      g: Graph<W>, g': Graph<W>, rank: Ranking, r: Ranking, pins: map<Plane, seq<W>>, cache: map<Plane, seq<W>>,
      p: Plane, ds: seq<Plane>)
    requires Ranked(g.needs, rank) && Ranked(g.needs, r) && Ranked(g'.needs, r)
    requires g'.needs == g.needs[p := ds] && AgreeOutside(g, g', pins, pins, {p})
    requires Supports(g.needs, pins, cache)
    requires Holds(g, rank, pins, cache)
    ensures Holds(g', r, pins, cache)
       <==> (p in cache && p !in pins ==> Eval(g', r, pins, p) == Some(cache[p]))
    ensures Supports(g'.needs, pins, cache) <==> (p in cache && p !in pins ==> forall d | d in ds :: d in cache)
  {
    forall q | q in cache ensures Eval(g, r, pins, q) == Some(cache[q]) {
      EvalIsUnique(g, rank, r, pins, q);
    }
    StaleAfterRegistering(g, g', r, pins, cache, p);
    SupportedAfterRegistering(g.needs, pins, cache, p, ds);
  }

  /** Ranks that fit the dependents lists fit the dependencies they cover. */
  lemma CoveredAreRanked<W>(dependents: map<Plane, seq<Plane>>, g: Graph<W>, rank: Ranking, bound: nat)
    requires Covers(dependents, g) && RankedUpTo(dependents, rank, bound)
    ensures Ranked(g.needs, rank)
  {
  }

  /** Clearing a region that nothing outside depends on keeps what is left of the cache correct. */
  lemma PurgingKeeps<W(!new)>(
      g: Graph<W>, g': Graph<W>, rank: Ranking, cache: map<Plane, seq<W>>, pins: map<Plane, seq<W>>, region: set<Plane>)
    requires Ranked(g.needs, rank) && g'.needs == g.needs && NothingLeaves(g, region)
    requires AgreeOutside(g, g', pins, pins - region, region) && Supports(g.needs, pins, cache)
    requires Holds(g, rank, pins, cache)
    ensures Holds(g', rank, pins - region, cache - region)
    ensures Supports(g.needs, pins - region, cache - region)
  {
    forall q | q in cache - region ensures Eval(g', rank, pins - region, q) == Some((cache - region)[q]) {
      EvalIgnoresDownstream(g, g', rank, pins, pins - region, region, q);
    }
  }

  /** A plane computed, cached and then registered again with another propagator: the cache is stale. */
  lemma ReregisteredPlaneIsStale(rank: Ranking, g: Graph<int>, g': Graph<int>, pins: map<Plane, seq<int>>)
    requires Rank(rank, "in") < Rank(rank, "out") && pins == map["in" := [7]]
    requires g == Graph(map["out" := ["in"]], map["out" := args => 1])
    requires g' == Graph(map["out" := ["in"]], map["out" := args => 2])
    ensures Eval(g, rank, pins, "out") == Some([1]) && Eval(g', rank, pins, "out") == Some([2])
  {
    OneInput(g, rank, pins, "out", "in");
    OneInput(g', rank, pins, "out", "in");
    assert Propagated(g.props["out"], [[7]]) == [1];
    assert Propagated(g'.props["out"], [[7]]) == [2];
  }

  lemma OneInput<W(!new)>(g: Graph<W>, rank: Ranking, pins: map<Plane, seq<W>>, p: Plane, d: Plane)
    requires Ranked(g.needs, rank) && p !in pins && d in pins && p in g.props && p in g.needs && g.needs[p] == [d]
    ensures Eval(g, rank, pins, p) == Some(Propagated(g.props[p], [pins[d]]))
  {
    assert [d][..0] == [];
    assert EvalAll(g, rank, pins, p, []) == Some([]) && Eval(g, rank, pins, d) == Some(pins[d]);
    assert [d][|[d]| - 1] == d && |[d]| - 1 == 0;
    assert EvalAll(g, rank, pins, p, [d]) == Some([] + [pins[d]]);
    assert [] + [pins[d]] == [pins[d]];
  }
}
