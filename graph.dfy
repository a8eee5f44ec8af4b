/** The campus graph store: named locations, directed edges labelled with a
    turn instruction, and the walks that follow those edges. */
module CampusGraph {

  datatype Option<T> = None | Some(value: T)

  /** A location is identified by its exact, case-sensitive name. */
  type Location = string

  /** Each location maps to its outgoing edges, in configured order, as
      (target, instruction) pairs. A target need not itself be a key. */
  type Graph = map<Location, seq<(Location, string)>>

  /** Outgoing edges of `u`; a location that is not a key has none
      (the `graph.get(current, [])` lookup of the search). */
  function Neighbors(g: Graph, u: Location): (r: seq<(Location, string)>)
    ensures u in g ==> r == g[u]
    ensures u !in g ==> r == []
  {
    if u in g then g[u] else []
  }

  /** Some edge listed for `u` leads to `v`. */
  predicate IsEdge(g: Graph, u: Location, v: Location)
  {
    exists j :: 0 <= j < |Neighbors(g, u)| && Neighbors(g, u)[j].0 == v
  }

  /** A non-empty sequence of locations, each consecutive pair an edge. */
  predicate IsWalk(g: Graph, p: seq<Location>)
  {
    |p| > 0 && forall i :: 0 <= i < |p| - 1 ==> IsEdge(g, p[i], p[i + 1])
  }

  predicate IsWalkFrom(g: Graph, p: seq<Location>, s: Location, t: Location)
  {
    IsWalk(g, p) && p[0] == s && p[|p| - 1] == t
  }

  ghost predicate Reachable(g: Graph, s: Location, t: Location)
  {
    exists p :: IsWalkFrom(g, p, s, t)
  }

  /** A walk from `s` to `t` with no more hops than any other such walk. */
  ghost predicate IsShortestWalk(g: Graph, p: seq<Location>, s: Location, t: Location)
  {
    IsWalkFrom(g, p, s, t) && forall w :: IsWalkFrom(g, w, s, t) ==> |p| <= |w|
  }

  predicate Distinct(p: seq<Location>)
  {
    forall i, j :: 0 <= i < j < |p| ==> p[i] != p[j]
  }

  /** Only keys have outgoing edges. */
  lemma EdgeFromKey(g: Graph, u: Location, v: Location)
    requires IsEdge(g, u, v)
    ensures u in g
  {
  }

  lemma WalkPrefix(g: Graph, w: seq<Location>, n: nat)
    requires IsWalk(g, w) && 1 <= n <= |w|
    ensures IsWalk(g, w[..n])
  {
  }

  lemma WalkSuffix(g: Graph, w: seq<Location>)
    requires IsWalk(g, w) && |w| >= 2
    ensures IsWalk(g, w[1..])
  {
  }

  lemma WalkExtend(g: Graph, p: seq<Location>, v: Location)
    requires IsWalk(g, p) && IsEdge(g, p[|p| - 1], v)
    ensures IsWalk(g, p + [v])
  {
    var q := p + [v];
    forall i | 0 <= i < |q| - 1
      ensures IsEdge(g, q[i], q[i + 1])
    {
      if i < |p| - 1 {
        assert q[i] == p[i] && q[i + 1] == p[i + 1];
      }
    }
  }

  /** A sequence of two or more locations is a walk exactly when all but its
      last location form a walk and its last hop is an edge. */
  lemma WalkSnoc(g: Graph, p: seq<Location>)
    requires |p| >= 2
    ensures IsWalk(g, p) <==> IsWalk(g, p[..|p| - 1]) && IsEdge(g, p[|p| - 2], p[|p| - 1])
  {
    var n := |p|;
    if IsWalk(g, p[..n - 1]) && IsEdge(g, p[n - 2], p[n - 1]) {
      forall i | 0 <= i < n - 1 ensures IsEdge(g, p[i], p[i + 1]) {
        if i < n - 2 {
          assert p[..n - 1][i] == p[i] && p[..n - 1][i + 1] == p[i + 1];
        }
      }
    }
    if IsWalk(g, p) {
      WalkPrefix(g, p, n - 1);
    }
  }

  /** Any walk that starts inside a set of locations and ends outside it
      leaves the set along some edge. */
  lemma {:induction false} CrossingEdge(g: Graph, w: seq<Location>, inside: set<Location>)
    requires IsWalk(g, w) && w[0] in inside && w[|w| - 1] !in inside
    ensures exists i :: 1 <= i < |w| && w[i - 1] in inside && w[i] !in inside
  {
    if w[1] !in inside {
      assert w[0] in inside;
    } else {
      WalkSuffix(g, w);
      CrossingEdge(g, w[1..], inside);
      var i :| 1 <= i < |w[1..]| && w[1..][i - 1] in inside && w[1..][i] !in inside;
      assert w[i] in inside && w[i + 1] !in inside;
    }
  }
}
