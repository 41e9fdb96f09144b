/** The dependency graph of a testbed: who depends on whom, topological ranks and cycles. */
module Dependencies {
  import opened Outcomes
  import opened Walks

  type Id = string

  datatype Service = Service(dependsOn: seq<Id>, requiresSafety: bool)

  /** The services in configuration order, and the safety service if one is configured. */
  datatype Config = Config(order: seq<Id>, services: map<Id, Service>, safety: Option<Id>)

  predicate Distinct<T(==)>(s: seq<T>) {
    forall i, j | 0 <= i < j < |s| :: s[i] != s[j]
  }

  lemma DistinctAppend<T>(a: seq<T>, b: seq<T>)
    requires Distinct(a) && Distinct(b) && forall x | x in b :: x !in a
    ensures Distinct(a + b)
  {
    forall i, j | 0 <= i < j < |a + b| ensures (a + b)[i] != (a + b)[j] {
      if i < |a| <= j { assert (a + b)[j] in b && (a + b)[i] in a; }
    }
  }

  /** What a dictionary guarantees: each key once. */
  ghost predicate IsDictionary(c: Config) {
    Distinct(c.order) && forall id :: id in c.order <==> id in c.services
  }

  /** An edge of the graph, the added safety edges included: `y` must be gone before `x` may stop. */
  predicate Depends(c: Config, y: Id, x: Id) {
    y in c.services &&
    (x in c.services[y].dependsOn || (c.services[y].requiresSafety && c.safety == Some(x)))
  }

  ghost predicate Resolvable(c: Config) {
    forall y | y in c.services ::
      && (forall d | d in c.services[y].dependsOn :: d in c.services)
      && (c.services[y].requiresSafety ==> c.safety.Some? && c.safety.value in c.services)
  }

  /** For each service the services that depend on it. */
  type Dependents = map<Id, seq<Id>>

  ghost predicate Closed(g: Dependents) {
    forall x | x in g :: forall y | y in g[x] :: y in g
  }

  /** Every dependent ranks below the service it depends on. */
  ghost predicate IsRank(g: Dependents, rank: map<Id, nat>) {
    forall x | x in g :: x in rank && forall y | y in g[x] :: y in rank && rank[y] < rank[x]
  }

  ghost predicate Acyclic(g: Dependents) {
    exists rank :: IsRank(g, rank)
  }

  ghost predicate HasCycle(g: Dependents) {
    exists p :: IsWalk(g, p) && |p| >= 2 && p[0] == p[|p| - 1]
  }

  lemma {:induction false} RankFallsAlongWalk(g: Dependents, rank: map<Id, nat>, p: seq<Id>)
    requires IsRank(g, rank) && IsWalk(g, p) && |p| >= 2
    ensures p[0] in rank && p[|p| - 1] in rank && rank[p[|p| - 1]] < rank[p[0]]
    decreases |p|
  {
    if |p| == 2 {
    } else {
      RankFallsAlongWalk(g, rank, p[1..]);
    }
  }

  lemma CycleHasNoRank(g: Dependents)
    requires HasCycle(g)
    ensures !Acyclic(g)
  {
    if Acyclic(g) {
      var rank :| IsRank(g, rank);
      var p :| IsWalk(g, p) && |p| >= 2 && p[0] == p[|p| - 1];
      RankFallsAlongWalk(g, rank, p);
    }
  }

  ghost predicate HasDependentIn(g: Dependents, left: set<Id>, x: Id) {
    x in g && exists y :: y in g[x] && y in left
  }

  ghost predicate Stuck(g: Dependents, left: set<Id>) {
    forall x {:trigger HasDependentIn(g, left, x)} | x in left :: HasDependentIn(g, left, x)
  }

  /** A set in which everyone has a dependent in the set has walks of any length. */
  lemma {:induction false} LongWalk(g: Dependents, left: set<Id>, x: Id, n: nat) returns (p: seq<Id>)
    requires Stuck(g, left) && x in left
    ensures |p| == n + 1 && p[0] == x && IsWalk(g, p) && forall q | q in p :: q in left
    decreases n
  {
    if n == 0 {
      p := [x];
    } else {
      assert HasDependentIn(g, left, x);
      var y :| y in g[x] && y in left;
      var rest := LongWalk(g, left, y, n - 1);
      p := [x] + rest;
      assert p[1..] == rest;
    }
  }

  lemma {:induction false} DistinctFits<T>(p: seq<T>, bound: set<T>)
    requires Distinct(p) && forall x | x in p :: x in bound
    ensures |p| <= |bound|
    decreases |p|
  {
    if p == [] {
    } else {
      var x := p[|p| - 1];
      DistinctFits(p[..|p| - 1], bound - {x});
    }
  }

  /** A walk that meets a service twice goes round a cycle. */
  lemma RepetitionIsCycle(g: Dependents, p: seq<Id>, i: nat, j: nat)
    requires IsWalk(g, p) && i < j < |p| && p[i] == p[j]
    ensures HasCycle(g)
  {
    PartOfWalk(g, p, i, j + 1);
    SliceEnds(p, i, j);
    ClosedWalkIsCycle(g, p[i..j + 1]);
  }

  lemma SliceEnds<T>(p: seq<T>, i: nat, j: nat)
    requires i < j < |p|
    ensures var c := p[i..j + 1]; |c| >= 2 && c[0] == p[i] && c[|c| - 1] == p[j]
  {
  }

  lemma ClosedWalkIsCycle(g: Dependents, c: seq<Id>)
    requires IsWalk(g, c) && |c| >= 2 && c[0] == c[|c| - 1]
    ensures HasCycle(g)
  {
  }

  lemma StuckHasCycle(g: Dependents, left: set<Id>)
    requires left != {} && Stuck(g, left)
    ensures HasCycle(g)
  {
    var x :| x in left;
    var p := LongWalk(g, left, x, |left|);
    if Distinct(p) {
      DistinctFits(p, left);
    } else {
      var i, j :| 0 <= i < j < |p| && p[i] == p[j];
      RepetitionIsCycle(g, p, i, j);
    }
  }

  /** A nonempty set of services of an acyclic graph has one whose dependents are all outside it. */
  lemma {:induction false} SomeServiceIsFree(g: Dependents, left: set<Id>) returns (x: Id)
    requires Acyclic(g) && left != {} && forall y | y in left :: y in g
    ensures x in left && forall y | y in g[x] :: y !in left
  {
    if Stuck(g, left) {
      StuckHasCycle(g, left);
      CycleHasNoRank(g);
      assert false;
    }
    x :| x in left && !HasDependentIn(g, left, x);
  }
}
