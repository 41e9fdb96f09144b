/** Walks along the edges of a graph given by adjacency lists, and what they reach. */
module Walks {
  type Edges<T> = map<T, seq<T>>

  ghost predicate IsWalk<T>(g: Edges<T>, p: seq<T>) {
    |p| < 2 || (p[0] in g && p[1] in g[p[0]] && IsWalk(g, p[1..]))
  }

  /** There is a walk from `a` to `b`, possibly of no edges. */
  ghost predicate Reaches<T(!new)>(g: Edges<T>, a: T, b: T) {
    exists p :: IsWalk(g, p) && |p| >= 1 && p[0] == a && p[|p| - 1] == b
  }

  lemma ReachesSelf<T(!new)>(g: Edges<T>, a: T)
    ensures Reaches(g, a, a)
  {
    assert IsWalk(g, [a]);
  }

  lemma ReachesThrough<T(!new)>(g: Edges<T>, a: T, d: T, b: T)
    requires a in g && d in g[a] && Reaches(g, d, b)
    ensures Reaches(g, a, b)
  {
    var p :| IsWalk(g, p) && |p| >= 1 && p[0] == d && p[|p| - 1] == b;
    assert ([a] + p)[1..] == p;
    assert IsWalk(g, [a] + p);
  }

  lemma FirstStep<T(!new)>(g: Edges<T>, a: T, b: T) returns (i: nat)
    requires a != b && Reaches(g, a, b)
    ensures a in g && i < |g[a]| && Reaches(g, g[a][i], b)
  {
    var p :| IsWalk(g, p) && |p| >= 1 && p[0] == a && p[|p| - 1] == b;
    assert IsWalk(g, p[1..]);
    i :| 0 <= i < |g[a]| && g[a][i] == p[1];
  }

  lemma {:induction false} WalkExtends<T>(g: Edges<T>, p: seq<T>, y: T)
    requires IsWalk(g, p) && |p| >= 1
    requires p[|p| - 1] in g && y in g[p[|p| - 1]]
    ensures IsWalk(g, p + [y])
    decreases |p|
  {
    if |p| == 1 {
      assert (p + [y])[1..] == [y];
    } else {
      WalkExtends(g, p[1..], y);
      assert (p + [y])[1..] == p[1..] + [y];
    }
  }

  lemma {:induction false} PartOfWalk<T>(g: Edges<T>, p: seq<T>, i: nat, j: nat)
    requires IsWalk(g, p) && i <= j <= |p|
    ensures IsWalk(g, p[i..j])
    decreases |p|, i
  {
    var q := p[i..j];
    if |q| < 2 {
    } else if i > 0 {
      PartOfWalk(g, p[1..], i - 1, j - 1);
      assert q == p[1..][i - 1..j - 1];
    } else {
      PartOfWalk(g, p[1..], 0, j - 1);
      assert q[1..] == p[1..][0..j - 1];
    }
  }

  lemma {:induction false} WalkStaysInside<T>(g: Edges<T>, inside: set<T>, p: seq<T>)
    requires forall x | x in inside && x in g :: forall d | d in g[x] :: d in inside
    requires IsWalk(g, p) && |p| >= 1 && p[0] in inside
    ensures p[|p| - 1] in inside
    decreases |p|
  {
    if |p| == 1 {
    } else {
      WalkStaysInside(g, inside, p[1..]);
    }
  }
}
