/** Directions reconstruction: re-walk a path and recover, for each hop, the
    instruction of the first edge out of the hop's source that leads to the
    hop's target. */
module Directions {
  import opened CampusGraph

  /** `edges[i]` is the first edge in the list whose target is `target`. */
  predicate IsFirstMatch(edges: seq<(Location, string)>, target: Location, i: int)
  {
    0 <= i < |edges| && edges[i].0 == target && forall m :: 0 <= m < i ==> edges[m].0 != target
  }

  /** The instruction of the first edge to `target`, if any edge leads there. */
  function FirstInstruction(edges: seq<(Location, string)>, target: Location): (r: Option<string>)
    ensures r.None? <==> forall i :: 0 <= i < |edges| ==> edges[i].0 != target
    ensures r.Some? ==> exists i :: IsFirstMatch(edges, target, i) && edges[i].1 == r.value
  {
    if |edges| == 0 then None
    else if edges[0].0 == target then (assert IsFirstMatch(edges, target, 0); Some(edges[0].1))
    else
      var r := FirstInstruction(edges[1..], target);
      if r.Some? then
        var i :| IsFirstMatch(edges[1..], target, i) && edges[1..][i].1 == r.value;
        assert IsFirstMatch(edges, target, i + 1);
        r
      else r
  }

  /** Whichever edge is the first match, its instruction is the one found:
      a consequence of the first match being unique. */
  lemma FirstInstructionAt(edges: seq<(Location, string)>, target: Location, i: int)
    requires IsFirstMatch(edges, target, i)
    ensures FirstInstruction(edges, target) == Some(edges[i].1)
  {
  }

  /** Every location a hop starts from is a key of the graph: the lookup
      `graph[path[i]]` of the reconstruction does not fail. */
  predicate KeysAlong(g: Graph, path: seq<Location>)
  {
    forall i :: 0 <= i < |path| - 1 ==> path[i] in g
  }

  lemma WalkKeysAlong(g: Graph, path: seq<Location>)
    requires IsWalk(g, path)
    ensures KeysAlong(g, path)
  {
    forall i | 0 <= i < |path| - 1 ensures path[i] in g {
      EdgeFromKey(g, path[i], path[i + 1]);
    }
  }

  /** A key has an instruction towards `v` exactly when it has an edge to `v`. */
  lemma InstructionIffEdge(g: Graph, u: Location, v: Location)
    requires u in g
    ensures FirstInstruction(g[u], v).Some? <==> IsEdge(g, u, v)
  {
    if FirstInstruction(g[u], v).Some? {
      var i :| IsFirstMatch(g[u], v, i) && g[u][i].1 == FirstInstruction(g[u], v).value;
      assert Neighbors(g, u)[i].0 == v;
    }
  }

  /** The instructions contributed by one hop: the first matching one, or
      none when no edge of the source leads to the target. */
  function HopInstruction(edges: seq<(Location, string)>, target: Location): seq<string>
  {
    match FirstInstruction(edges, target)
    case Some(d) => [d]
    case None => []
  }

  /** The directions for a path, hop by hop from the first location; each hop
      contributes at most one instruction. */
  function DirectionsOf(g: Graph, path: seq<Location>): (r: seq<string>)
    requires KeysAlong(g, path)
    ensures |path| > 0 ==> |r| <= |path| - 1
    ensures |path| == 0 ==> r == []
    decreases |path|
  {
    if |path| < 2 then []
    else
      var n := |path|;
      assert KeysAlong(g, path[..n - 1]);
      DirectionsOf(g, path[..n - 1]) + HopInstruction(g[path[n - 2]], path[n - 1])
  }

  /** Along a walk no hop is dropped: one instruction per hop, and the i-th
      is that of the first edge from `path[i]` to `path[i + 1]`. */
  lemma {:induction false} DirectionsAlongWalk(g: Graph, path: seq<Location>)
    requires IsWalk(g, path)
    ensures KeysAlong(g, path)
    ensures |DirectionsOf(g, path)| == |path| - 1
    ensures forall i :: 0 <= i < |path| - 1 ==>
              FirstInstruction(g[path[i]], path[i + 1]) == Some(DirectionsOf(g, path)[i])
  {
    WalkKeysAlong(g, path);
    var n := |path|;
    if n >= 2 {
      var prefix := path[..n - 1];
      WalkPrefix(g, path, n - 1);
      DirectionsAlongWalk(g, prefix);
      InstructionIffEdge(g, path[n - 2], path[n - 1]);
      var last := FirstInstruction(g[path[n - 2]], path[n - 1]).value;
      var d := DirectionsOf(g, path);
      assert d == DirectionsOf(g, prefix) + [last];
      forall i | 0 <= i < n - 1
        ensures FirstInstruction(g[path[i]], path[i + 1]) == Some(d[i])
      {
        if i < n - 2 {
          assert prefix[i] == path[i] && prefix[i + 1] == path[i + 1];
        }
      }
    }
  }

  /** A hop with no matching edge contributes nothing, so a non-empty path
      gets one instruction per hop exactly when it is a walk. */
  lemma {:induction false} DirectionsCountHops(g: Graph, path: seq<Location>)
    requires |path| > 0 && KeysAlong(g, path)
    ensures |DirectionsOf(g, path)| <= |path| - 1
    ensures |DirectionsOf(g, path)| == |path| - 1 <==> IsWalk(g, path)
  {
    var n := |path|;
    if n >= 2 {
      var prefix := path[..n - 1];
      assert KeysAlong(g, prefix);
      DirectionsCountHops(g, prefix);
      InstructionIffEdge(g, path[n - 2], path[n - 1]);
      WalkSnoc(g, path);
    }
  }

  /** The reconstruction loop: for each hop, scan the source's edges in order
      and take the instruction of the first one leading to the hop's target. */
  method ReconstructDirections(g: Graph, path: seq<Location>) returns (directions: seq<string>)
    requires KeysAlong(g, path)
    ensures directions == DirectionsOf(g, path)
  {
    directions := [];
    var i := 0;
    while i < |path| - 1
      invariant 0 <= i && (|path| > 0 ==> i <= |path| - 1)
      invariant |path| > 0 ==> directions == DirectionsOf(g, path[..i + 1])
      invariant |path| == 0 ==> directions == []
    {
      var edges := g[path[i]];
      ghost var before := directions;
      var j := 0;
      while j < |edges|
        invariant 0 <= j <= |edges|
        invariant forall m :: 0 <= m < j ==> edges[m].0 != path[i + 1]
        invariant directions == before
      {
        if edges[j].0 == path[i + 1] {
          FirstInstructionAt(edges, path[i + 1], j);
          directions := directions + [edges[j].1];
          break;
        }
        j := j + 1;
      }
      assert directions == before + HopInstruction(edges, path[i + 1]);
      assert path[..i + 2][..i + 1] == path[..i + 1];
      i := i + 1;
    }
    if |path| > 0 {
      assert path[..|path|] == path;
    }
  }
}
