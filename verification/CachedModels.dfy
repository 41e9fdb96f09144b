/** The optical model as the object it is: a cache that every operation updates in place, proved to
    return what evaluation without a cache returns. */
module CachedModels {
  import opened Outcomes
  import opened OpticalModels

  /** `propagate` unwraps a single wavefront. */
  datatype Propagation<W> = Single(w: W) | Several(ws: seq<W>)

  function Unwrapped<W>(ws: seq<W>): Propagation<W> {
    if |ws| == 1 then Single(ws[0]) else Several(ws)
  }

  /** No wavefront is lost, and exactly a single one is handed over by itself. */
  predicate HandsOver<W(==)>(r: Propagation<W>, ws: seq<W>) {
    match r
    case Single(w) => ws == [w]
    case Several(vs) => vs == ws && |ws| != 1
  }

  class OpticalModel<W(!new)> {
    var needs: map<Plane, seq<Plane>>
    var dependents: map<Plane, seq<Plane>>
    var props: map<Plane, seq<W> -> W>
    var cache: map<Plane, seq<W>>

    /** The planes written by set_wavefronts and not purged since. */
    ghost var pins: map<Plane, seq<W>>
    /** Shows that the planes form a directed acyclic graph. */
    ghost var rank: Ranking
    ghost var bound: nat

    ghost function TheGraph(): Graph<W>
      reads this
    {
      Graph(needs, props)
    }

    /** The registered planes are acyclic, and their dependents lists cover every dependency. */
    ghost predicate Structured()
      reads this
    {
      && Ranked(needs, rank)
      && RankedUpTo(dependents, rank, bound)
      && Covers(dependents, TheGraph())
    }

    /** Every cached plane holds what evaluation from the current pins gives; pins are cached. */
    ghost predicate Coherent()
      reads this
      requires Structured()
    {
      && Holds(TheGraph(), rank, pins, cache)
      && (forall q | q in pins :: q in cache)
    }

    /** Whatever was computed has its inputs still cached. */
    ghost predicate Supported()
      reads this
    {
      Supports(needs, pins, cache)
    }

    ghost predicate Valid()
      reads this
    {
      Structured() && Coherent() && Supported()
    }

    twostate predicate SameStructure()
      reads this
    {
      needs == old(needs) && dependents == old(dependents) && props == old(props)
      && rank == old(rank) && bound == old(bound)
    }

    constructor (ghost r: Ranking, ghost b: nat)
      ensures Valid() && rank == r && bound == b
      ensures needs == map[] && dependents == map[] && props == map[] && cache == map[] && pins == map[]
    {
      needs, dependents, props, cache := map[], map[], map[], map[];
      pins, rank, bound := map[], r, b;
    }

    method PurgeAll()
      requires Structured()
      modifies this
      ensures Valid() && SameStructure() && cache == map[] && pins == map[]
    {
      cache := map[];
      pins := map[];
    }

    /** Clears the plane and, recursively, everything that depends on it: nothing more, nothing less. */
    method PurgePlane(p: Plane)
      requires RankedUpTo(dependents, rank, bound)
      modifies this
      ensures SameStructure()
      ensures cache == old(cache) - Downstream(dependents, rank, bound, p)
      ensures pins == old(pins) - Downstream(dependents, rank, bound, p)
      decreases Height(rank, bound, p)
    {
      cache := cache - {p};
      pins := pins - {p};
      if p in dependents {
        var ds := dependents[p];
        ghost var cleared: set<Plane> := {p};
        for i := 0 to |ds|
          invariant SameStructure() && ds == dependents[p]
          invariant cleared == {p} + DownstreamOfAll(dependents, rank, bound, p, ds[..i])
          invariant cache == old(cache) - cleared && pins == old(pins) - cleared
        {
          PurgePlane(ds[i]);
          assert ds[..i + 1] == ds[..i] + [ds[i]];
          ClearTwice(old(cache), cleared, Downstream(dependents, rank, bound, ds[i]));
          ClearTwice(old(pins), cleared, Downstream(dependents, rank, bound, ds[i]));
          cleared := cleared + Downstream(dependents, rank, bound, ds[i]);
        }
        assert ds[..|ds|] == ds;
      }
    }

    static lemma ClearTwice(m: map<Plane, seq<W>>, a: set<Plane>, b: set<Plane>)
      ensures m - a - b == m - (a + b)
    {
    }

    /** Purging keeps the cache coherent, also when the purged plane's pin or propagator changes. */
    lemma StaysCoherent(p: Plane, g: Graph<W>, before: map<Plane, seq<W>>, pinned: map<Plane, seq<W>>)
      requires Structured() && Ranked(g.needs, rank) && Covers(dependents, g)
      requires g.needs == needs && forall q | q != p :: (q in g.props <==> q in props) && (q in props ==> g.props[q] == props[q])
      requires Holds(g, rank, pinned, before)
      requires forall q | q in pinned :: q in before
      requires Supports(needs, pinned, before)
      requires cache == before - Downstream(dependents, rank, bound, p)
      requires pins == pinned - Downstream(dependents, rank, bound, p)
      ensures Coherent() && Supported()
    {
      NothingLeavesDownstream(dependents, g, rank, bound, p);
      PurgingKeeps(g, TheGraph(), rank, before, pinned, Downstream(dependents, rank, bound, p));
    }

    method Purge(p: Plane)
      requires Valid()
      modifies this
      ensures Valid() && SameStructure()
      ensures cache == old(cache) - Downstream(dependents, rank, bound, p)
      ensures pins == old(pins) - Downstream(dependents, rank, bound, p)
    {
      ghost var g, before, pinned := TheGraph(), cache, pins;
      PurgePlane(p);
      StaysCoherent(p, g, before, pinned);
    }

    method SetWavefronts(p: Plane, ws: seq<W>)
      requires Valid()
      modifies this
      ensures Valid() && SameStructure()
      ensures pins == (old(pins) - Downstream(dependents, rank, bound, p))[p := ws]
      ensures cache == (old(cache) - Downstream(dependents, rank, bound, p))[p := ws]
    {
      Purge(p);
      ghost var before, region := pins, Downstream(dependents, rank, bound, p);
      cache := cache[p := ws];
      pins := pins[p := ws];
      NothingLeavesDownstream(dependents, TheGraph(), rank, bound, p);
      forall q | q in cache && q != p ensures Eval(TheGraph(), rank, pins, q) == Some(cache[q]) {
        EvalIgnoresDownstream(TheGraph(), TheGraph(), rank, before, pins, region, q);
      }
    }

    /** A property of the model with logic attached: the propagator of a plane changes, and the logic
        purges that plane. */
    method ChangePropagator(p: Plane, f: seq<W> -> W)
      requires Valid()
      modifies this
      ensures Valid() && needs == old(needs) && dependents == old(dependents)
      ensures rank == old(rank) && bound == old(bound) && props == old(props)[p := f]
      ensures cache == old(cache) - Downstream(dependents, rank, bound, p)
    {
      ghost var g, before, pinned := TheGraph(), cache, pins;
      props := props[p := f];
      PurgePlane(p);
      StaysCoherent(p, g, before, pinned);
    }

    /** Registration adds a plane's dependencies to whatever dependents lists there are, and leaves the
        cache as it is. `r` and `b` show that the lists stay free of cycles. A coherent cache stays so if
        and only if the plane is not cached, is pinned, or now computes to what is cached for it. */
    method RegisterPlane(p: Plane, ds: seq<Plane>, f: seq<W> -> W, ghost r: Ranking, ghost b: nat)
      requires Structured()
      requires RankedUpTo(dependents, r, b) && Rank(r, p) <= b && forall d | d in ds :: Rank(r, d) < Rank(r, p)
      modifies this`needs, this`dependents, this`props, this`rank, this`bound
      ensures Structured() && rank == r && bound == b
      ensures needs == old(needs)[p := ds] && props == old(props)[p := f]
      ensures Gains(old(dependents), dependents, p, ds)
      ensures old(Valid()) ==>
                (Coherent() <==> (p in cache && p !in pins ==> Eval(TheGraph(), rank, pins, p) == Some(cache[p])))
      ensures old(Valid()) ==>
                (Supported() <==> (p in cache && p !in pins ==> forall d | d in ds :: d in cache))
    {
      ghost var after := Graph(needs[p := ds], props[p := f]);
      CoveredAreRanked(dependents, TheGraph(), r, b);
      if Valid() { Registering(TheGraph(), after, rank, r, pins, cache, p, ds); }
      AddPlane(p, ds, f, r, b);
      assert TheGraph() == after;
    }

    method AddPlane(p: Plane, ds: seq<Plane>, f: seq<W> -> W, ghost r: Ranking, ghost b: nat)
      requires Covers(dependents, TheGraph())
      requires RankedUpTo(dependents, r, b) && Rank(r, p) <= b && forall d | d in ds :: Rank(r, d) < Rank(r, p)
      modifies this`needs, this`dependents, this`props, this`rank, this`bound
      ensures Structured() && rank == r && bound == b
      ensures needs == old(needs)[p := ds] && props == old(props)[p := f]
      ensures Gains(old(dependents), dependents, p, ds)
    {
      ghost var g := TheGraph();
      rank, bound := r, b;
      needs := needs[p := ds];
      AddDependent(p, ds);
      props := props[p := f];
      CoversMore(old(dependents), dependents, g, TheGraph(), p, ds);
      CoveredAreRanked(dependents, TheGraph(), r, b);
    }

    /** `x` is in the dependents list of `d`. */
    static predicate Lists(dependents: map<Plane, seq<Plane>>, d: Plane, x: Plane) {
      d in dependents && x in dependents[d]
    }

    /** Each of these dependencies gains `p` as a dependent, and nothing else changes. */
    static ghost predicate Gains(before: map<Plane, seq<Plane>>, after: map<Plane, seq<Plane>>, p: Plane, ds: seq<Plane>) {
      forall d, x :: Lists(after, d, x) <==> Lists(before, d, x) || (x == p && d in ds)
    }

    static lemma CoversMore(before: map<Plane, seq<Plane>>, after: map<Plane, seq<Plane>>,
                            g: Graph<W>, g': Graph<W>, p: Plane, ds: seq<Plane>)
      requires Covers(before, g) && g'.needs == g.needs[p := ds]
      requires Gains(before, after, p, ds)
      ensures Covers(after, g')
    {
      forall q, d | q in g'.needs && d in g'.needs[q] ensures d in after && q in after[d] {
        assert q != p ==> Lists(before, d, q);
        assert Lists(after, d, q);
      }
    }

    method AddDependent(p: Plane, ds: seq<Plane>)
      requires RankedUpTo(dependents, rank, bound)
      requires Rank(rank, p) <= bound && forall d | d in ds :: Rank(rank, d) < Rank(rank, p)
      modifies this`dependents
      ensures RankedUpTo(dependents, rank, bound)
      ensures Gains(old(dependents), dependents, p, ds)
    {
      for i := 0 to |ds|
        invariant RankedUpTo(dependents, rank, bound)
        invariant forall d, x :: Lists(dependents, d, x) <==> Lists(old(dependents), d, x) || (x == p && d in ds[..i])
      {
        var d := ds[i];
        ghost var before := dependents;
        assert ds[..i + 1] == ds[..i] + [d];
        dependents := dependents[d := (if d in dependents then dependents[d] else []) + [p]];
        Appended(before, d, p, rank, bound);
        forall e, x
          ensures Lists(dependents, e, x) <==> Lists(old(dependents), e, x) || (x == p && e in ds[..i + 1])
        {
          assert e in ds[..i + 1] <==> e in ds[..i] || e == d;
          assert Lists(dependents, e, x) <==> Lists(before, e, x) || (x == p && e == d);
          assert Lists(before, e, x) <==> Lists(old(dependents), e, x) || (x == p && e in ds[..i]);
        }
      }
      assert ds[..|ds|] == ds;
    }

    static lemma Appended(before: map<Plane, seq<Plane>>, d: Plane, p: Plane, rank: Ranking, bound: nat)
      requires RankedUpTo(before, rank, bound) && Rank(rank, d) < Rank(rank, p) <= bound
      ensures var after := before[d := (if d in before then before[d] else []) + [p]];
              && RankedUpTo(after, rank, bound)
              && forall e, x :: Lists(after, e, x) <==> Lists(before, e, x) || (x == p && e == d)
    {
      var list := if d in before then before[d] else [];
      var after := before[d := list + [p]];
      forall e, x ensures Lists(after, e, x) <==> Lists(before, e, x) || (x == p && e == d) {
        if e == d { assert x in list + [p] <==> x in list || x == p; }
      }
    }

    /** The loop that computes a plane from its inputs. */
    method Compute(f: seq<W> -> W, inputs: seq<seq<W>>) returns (out: seq<W>)
      ensures out == Propagated(f, inputs)
      ensures inputs == [] ==> out == []
      ensures forall j | 0 <= j < |inputs| :: |out| <= |inputs[j]|
      ensures inputs != [] ==> exists j :: 0 <= j < |inputs| && |out| == |inputs[j]|
      ensures forall k | 0 <= k < |out| :: out[k] == f(seq(|inputs|, j requires 0 <= j < |inputs| => inputs[j][k]))
    {
      out := [];
      PropagatedMeans(f, inputs);
      ZipFits(inputs);
      while |out| < ZipLength(inputs)
        invariant |out| <= ZipLength(inputs) && out == Propagated(f, inputs)[..|out|]
      {
        out := out + [f(Tuple(inputs, |out|))];
      }
    }

    /** Keeps a computed plane in the cache. */
    method Store(p: Plane, out: seq<W>)
      requires Valid() && p in needs && forall d | d in needs[p] :: d in cache
      requires Eval(TheGraph(), rank, pins, p) == Some(out)
      modifies this`cache
      ensures Valid() && cache == old(cache)[p := out]
    {
      SupportsMore(needs, pins, cache, p, out);
      cache := cache[p := out];
    }

    /** The memoised evaluator returns exactly what evaluation without a cache would, and None (a
        KeyError) exactly when that meets an unregistered plane. */
    method GetWavefronts(p: Plane) returns (r: Option<seq<W>>)
      requires Valid()
      modifies this`cache
      ensures Valid() && SameStructure() && pins == old(pins)
      ensures r == Eval(TheGraph(), rank, pins, p)
      ensures forall q {:trigger q in old(cache)} | q in old(cache) :: q in cache && cache[q] == old(cache)[q]
      ensures r.Some? ==> p in cache
      decreases Rank(rank, p), 1, 0
    {
      if p in cache { return Some(cache[p]); }
      if p !in props || p !in needs { return None; }
      var f := props[p];
      var inputs := GetInputs(p, needs[p]);
      if inputs.None? { return None; }
      var out := Compute(f, inputs.value);
      Store(p, out);
      return Some(out);
    }

    /** The first `i` inputs of `p` have been computed and are cached, and nothing cached before is lost. */
    ghost predicate Gathered(p: Plane, ds: seq<Plane>, i: nat, inputs: seq<seq<W>>, before: map<Plane, seq<W>>)
      reads this
    {
      && Valid() && i <= |ds| && (forall d | d in ds :: Rank(rank, d) < Rank(rank, p))
      && EvalAll(TheGraph(), rank, pins, p, ds[..i]) == Some(inputs)
      && Keeps(before, cache) && (forall j | 0 <= j < i :: ds[j] in cache)
    }

    static ghost predicate Keeps(before: map<Plane, seq<W>>, after: map<Plane, seq<W>>) {
      forall q {:trigger q in before} | q in before :: q in after && after[q] == before[q]
    }

    /** The recursive part: the wavefronts of all dependencies in turn, each cached afterwards. */
    method GetInputs(p: Plane, ds: seq<Plane>) returns (r: Option<seq<seq<W>>>)
      requires Valid() && forall d | d in ds :: Rank(rank, d) < Rank(rank, p)
      modifies this`cache
      ensures Valid() && SameStructure() && pins == old(pins)
      ensures r == EvalAll(TheGraph(), rank, pins, p, ds)
      ensures forall q {:trigger q in old(cache)} | q in old(cache) :: q in cache && cache[q] == old(cache)[q]
      ensures r.Some? ==> forall d | d in ds :: d in cache
      decreases Rank(rank, p), 0, 1
    {
      ghost var before := cache;
      var inputs: seq<seq<W>> := [];
      for i := 0 to |ds|
        invariant SameStructure() && pins == old(pins) && Gathered(p, ds, i, inputs, before)
      {
        var w := GetInput(p, ds, i, inputs, before);
        if w.None? { return None; }
        inputs := inputs + [w.value];
      }
      assert ds[..|ds|] == ds;
      return Some(inputs);
    }

    /** One dependency, after the inputs before it. */
    method GetInput(p: Plane, ds: seq<Plane>, i: nat, ghost front: seq<seq<W>>, ghost before: map<Plane, seq<W>>)
      returns (w: Option<seq<W>>)
      requires Gathered(p, ds, i, front, before) && i < |ds|
      modifies this`cache
      ensures Valid() && SameStructure() && pins == old(pins) && Keeps(before, cache)
      ensures w.Some? ==> Gathered(p, ds, i + 1, front + [w.value], before)
      ensures w.None? ==> EvalAll(TheGraph(), rank, pins, p, ds).None?
      decreases Rank(rank, p), 0, 0
    {
      w := GetWavefronts(ds[i]);
      assert ds[..i + 1] == ds[..i] + [ds[i]];
      if w.None? { FailsAfter(ds, i, p); }
    }

    lemma {:induction false} FailsAfter(ds: seq<Plane>, i: nat, p: Plane)
      requires Structured() && (forall d | d in ds :: Rank(rank, d) < Rank(rank, p)) && i < |ds|
      requires EvalAll(TheGraph(), rank, pins, p, ds[..i + 1]).None?
      ensures EvalAll(TheGraph(), rank, pins, p, ds).None?
      decreases |ds|
    {
      if i + 1 == |ds| {
        assert ds[..i + 1] == ds;
      } else {
        assert ds[..|ds| - 1][..i + 1] == ds[..i + 1];
        FailsAfter(ds[..|ds| - 1], i, p);
      }
    }

    /** Propagation from one plane to another in a cache of its own: it computes what evaluation with
        only that input gives, and leaves the model's cache as it was, also when it fails. */
    method Propagate(input: Plane, output: Plane, ws: seq<W>) returns (r: Option<Propagation<W>>)
      requires Valid()
      modifies this
      ensures Valid() && SameStructure() && cache == old(cache) && pins == old(pins)
      ensures var e := Eval(TheGraph(), rank, map[input := ws], output);
              r == if e.None? then None else Some(Unwrapped(e.value))
      ensures r.Some? ==> HandsOver(r.value, Eval(TheGraph(), rank, map[input := ws], output).value)
    {
      var outer := cache;
      ghost var outerPins := pins;
      PurgeAll();
      SetWavefronts(input, ws);
      assert pins == map[input := ws];
      var e := GetWavefronts(output);
      r := if e.None? then None else Some(Unwrapped(e.value));
      cache := outer;
      pins := outerPins;
    }
  }
}
