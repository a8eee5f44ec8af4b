/** The path resolver's search: a uniform-cost search with unit edge weights
    over a priority queue of (cost, location, path-so-far) entries, with a
    visited set so that each location is expanded at most once. */
module PathSearch {
  import opened CampusGraph

  /** A queue entry: hops taken so far, the location to expand next, and the
      locations walked before reaching it. */
  datatype Entry = Entry(cost: nat, node: Location, path: seq<Location>)

  /** `q[k]` has the least cost in the queue. Which of several least-cost
      entries the heap yields is left open. */
  predicate IsMinAt(q: seq<Entry>, k: int)
  {
    0 <= k < |q| && forall j :: 0 <= j < |q| ==> q[k].cost <= q[j].cost
  }

  lemma {:induction false} MinExists(q: seq<Entry>)
    requires |q| > 0
    ensures exists k :: IsMinAt(q, k)
  {
    if |q| == 1 {
      assert IsMinAt(q, 0);
    } else {
      MinExists(q[1..]);
      var k :| IsMinAt(q[1..], k);
      if q[0].cost <= q[k + 1].cost {
        assert IsMinAt(q, 0);
      } else {
        assert IsMinAt(q, k + 1);
      }
    }
  }

  /** Every location the search can ever put in the queue: the start, the
      keys, and every edge target. It is finite, which bounds the search. */
  ghost function Universe(g: Graph, start: Location): set<Location>
  {
    {start} + g.Keys + set u, j | u in g && 0 <= j < |g[u]| :: g[u][j].0
  }

  lemma TargetInUniverse(g: Graph, start: Location, u: Location, j: int)
    requires 0 <= j < |Neighbors(g, u)|
    ensures Neighbors(g, u)[j].0 in Universe(g, start)
  {
    assert u in g;
    assert g[u][j].0 in set u', j' | u' in g && 0 <= j' < |g[u']| :: g[u'][j'].0;
  }

  /** The entry stands for the walk `path + [node]` from the start, of
      `cost` hops, whose earlier locations are distinct and already visited. */
  ghost predicate EntryOk(g: Graph, start: Location, e: Entry, visited: set<Location>)
  {
    && IsWalkFrom(g, e.path + [e.node], start, e.node)
    && |e.path| == e.cost
    && Distinct(e.path)
    && (forall y :: y in e.path ==> y in visited)
    && e.node in Universe(g, start)
  }

  ghost predicate EntriesOk(g: Graph, start: Location, queue: seq<Entry>, visited: set<Location>)
  {
    forall k :: 0 <= k < |queue| ==> EntryOk(g, start, queue[k], visited)
  }

  /** Every edge leaving a visited location reaches a visited location or has
      an entry queued at most one hop beyond the source's settled cost. */
  ghost predicate Closed(g: Graph, queue: seq<Entry>, visited: set<Location>, dist: map<Location, nat>)
    requires dist.Keys == visited
  {
    forall u, j :: u in visited && 0 <= j < |Neighbors(g, u)| && Neighbors(g, u)[j].0 !in visited ==>
      exists k :: 0 <= k < |queue| && queue[k].node == Neighbors(g, u)[j].0 && queue[k].cost <= dist[u] + 1
  }

  /** The settled cost of a visited location is a lower bound on the hops of
      every walk from the start to it. */
  ghost predicate Settled(g: Graph, start: Location, visited: set<Location>, dist: map<Location, nat>)
    requires dist.Keys == visited
  {
    forall x, w :: x in visited && IsWalkFrom(g, w, start, x) ==> dist[x] <= |w| - 1
  }

  ghost predicate SearchInv(g: Graph, start: Location, end: Location,
                            queue: seq<Entry>, visited: set<Location>, dist: map<Location, nat>)
  {
    && dist.Keys == visited
    && visited <= Universe(g, start)
    && end !in visited
    && (visited == {} ==> queue == [Entry(0, start, [])])
    && (visited != {} ==> start in visited)
    && EntriesOk(g, start, queue, visited)
    && Closed(g, queue, visited, dist)
    && Settled(g, start, visited, dist)
  }

  /** An unvisited location popped with the least cost has been reached by a
      walk no longer than any walk from the start to it. */
  lemma PopIsMinimal(g: Graph, start: Location,
                     queue: seq<Entry>, visited: set<Location>, dist: map<Location, nat>, k: int)
    requires dist.Keys == visited
    requires visited == {} ==> queue == [Entry(0, start, [])]
    requires visited != {} ==> start in visited
    requires Closed(g, queue, visited, dist) && Settled(g, start, visited, dist)
    requires IsMinAt(queue, k) && queue[k].node !in visited
    ensures forall w :: IsWalkFrom(g, w, start, queue[k].node) ==> queue[k].cost <= |w| - 1
  {
    forall w | IsWalkFrom(g, w, start, queue[k].node)
      ensures queue[k].cost <= |w| - 1
    {
      if visited == {} {
        assert queue[k] == Entry(0, start, []);
      } else {
        CrossingEdge(g, w, visited);
        var i :| 1 <= i < |w| && w[i - 1] in visited && w[i] !in visited;
        var u := w[i - 1];
        assert IsEdge(g, u, w[i]);
        var j :| 0 <= j < |Neighbors(g, u)| && Neighbors(g, u)[j].0 == w[i];
        var kk :| 0 <= kk < |queue| && queue[kk].node == w[i] && queue[kk].cost <= dist[u] + 1;
        WalkPrefix(g, w, i);
        assert IsWalkFrom(g, w[..i], start, u);
        assert dist[u] <= i - 1;
        assert queue[k].cost <= queue[kk].cost;
      }
    }
  }

  lemma SkipEntries(g: Graph, start: Location, queue: seq<Entry>, visited: set<Location>, k: int)
    requires EntriesOk(g, start, queue, visited)
    requires 0 <= k < |queue|
    ensures EntriesOk(g, start, queue[..k] + queue[k + 1..], visited)
  {
    var rest := queue[..k] + queue[k + 1..];
    forall m | 0 <= m < |rest|
      ensures EntryOk(g, start, rest[m], visited)
    {
      assert rest[m] == queue[if m < k then m else m + 1];
    }
  }

  lemma SkipClosed(g: Graph, queue: seq<Entry>, visited: set<Location>, dist: map<Location, nat>, k: int)
    requires dist.Keys == visited && Closed(g, queue, visited, dist)
    requires 0 <= k < |queue| && queue[k].node in visited
    ensures Closed(g, queue[..k] + queue[k + 1..], visited, dist)
  {
    var rest := queue[..k] + queue[k + 1..];
    forall u, j | u in visited && 0 <= j < |Neighbors(g, u)| && Neighbors(g, u)[j].0 !in visited
      ensures exists m :: 0 <= m < |rest| && rest[m].node == Neighbors(g, u)[j].0 && rest[m].cost <= dist[u] + 1
    {
      var kk :| 0 <= kk < |queue| && queue[kk].node == Neighbors(g, u)[j].0 && queue[kk].cost <= dist[u] + 1;
      if kk < k {
        assert rest[kk] == queue[kk];
      } else {
        assert rest[kk - 1] == queue[kk];
      }
    }
  }

  /** Discarding a popped entry for an already visited location keeps the invariant. */
  lemma SkipPreserves(g: Graph, start: Location, end: Location,
                      queue: seq<Entry>, visited: set<Location>, dist: map<Location, nat>, k: int)
    requires SearchInv(g, start, end, queue, visited, dist)
    requires 0 <= k < |queue| && queue[k].node in visited
    ensures SearchInv(g, start, end, queue[..k] + queue[k + 1..], visited, dist)
  {
    SkipEntries(g, start, queue, visited, k);
    SkipClosed(g, queue, visited, dist, k);
  }

  /** The queue after visiting `queue[k]`: the other entries in their order,
      then one entry per outgoing edge of the visited location. */
  ghost predicate Expanded(g: Graph, queue: seq<Entry>, k: int, queue': seq<Entry>)
    requires 0 <= k < |queue|
  {
    var rest, e := queue[..k] + queue[k + 1..], queue[k];
    && |queue'| == |rest| + |Neighbors(g, e.node)|
    && queue'[..|rest|] == rest
    && forall m :: 0 <= m < |Neighbors(g, e.node)| ==>
         queue'[|rest| + m] == Entry(e.cost + 1, Neighbors(g, e.node)[m].0, e.path + [e.node])
  }

  lemma ExpandedKeeps(g: Graph, queue: seq<Entry>, k: int, queue': seq<Entry>)
    requires 0 <= k < |queue| && Expanded(g, queue, k, queue')
    ensures forall m :: 0 <= m < k ==> queue'[m] == queue[m]
    ensures forall m :: k < m < |queue| ==> queue'[m - 1] == queue[m]
  {
    var n := |queue| - 1;
    forall m | 0 <= m < k ensures queue'[m] == queue[m] {
      assert queue'[..n][m] == queue'[m];
    }
    forall m | k < m < |queue| ensures queue'[m - 1] == queue[m] {
      assert queue'[..n][m - 1] == queue'[m - 1];
    }
  }

  lemma VisitEntries(g: Graph, start: Location,
                     queue: seq<Entry>, visited: set<Location>, k: int, queue': seq<Entry>)
    requires EntriesOk(g, start, queue, visited)
    requires 0 <= k < |queue| && queue[k].node !in visited
    requires Expanded(g, queue, k, queue')
    ensures EntriesOk(g, start, queue', visited + {queue[k].node})
  {
    var e := queue[k];
    var v := e.node;
    var edges := Neighbors(g, v);
    var visited' := visited + {v};
    var n := |queue| - 1;
    var walked := e.path + [v];
    ExpandedKeeps(g, queue, k, queue');
    assert EntryOk(g, start, e, visited);
    assert Distinct(walked) by {
      forall y | y in e.path ensures y != v { }
    }
    forall m | 0 <= m < |queue'|
      ensures EntryOk(g, start, queue'[m], visited')
    {
      if m < n {
        var src := if m < k then m else m + 1;
        assert queue'[m] == queue[src];
        assert EntryOk(g, start, queue[src], visited);
      } else {
        var j := m - n;
        var t := edges[j].0;
        assert queue'[m] == Entry(e.cost + 1, t, walked);
        assert IsEdge(g, v, t);
        WalkExtend(g, walked, t);
        TargetInUniverse(g, start, v, j);
      }
    }
  }

  lemma VisitClosed(g: Graph, queue: seq<Entry>, visited: set<Location>, dist: map<Location, nat>, k: int,
                    queue': seq<Entry>)
    requires dist.Keys == visited && Closed(g, queue, visited, dist)
    requires 0 <= k < |queue| && queue[k].node !in visited
    requires Expanded(g, queue, k, queue')
    ensures Closed(g, queue', visited + {queue[k].node}, dist[queue[k].node := queue[k].cost])
  {
    var v := queue[k].node;
    var visited' := visited + {v};
    var dist' := dist[v := queue[k].cost];
    var n := |queue| - 1;
    ExpandedKeeps(g, queue, k, queue');
    forall u, j | u in visited' && 0 <= j < |Neighbors(g, u)| && Neighbors(g, u)[j].0 !in visited'
      ensures exists m :: 0 <= m < |queue'| && queue'[m].node == Neighbors(g, u)[j].0 && queue'[m].cost <= dist'[u] + 1
    {
      if u == v {
        assert queue'[n + j].node == Neighbors(g, u)[j].0;
      } else {
        var kk :| 0 <= kk < |queue| && queue[kk].node == Neighbors(g, u)[j].0 && queue[kk].cost <= dist[u] + 1;
        if kk < k {
          assert queue'[kk] == queue[kk];
        } else {
          assert queue'[kk - 1] == queue[kk];
        }
      }
    }
  }

  /** Visiting the popped location `v` (settling it at the entry's cost) and
      queueing one entry per outgoing edge keeps the invariant. */
  lemma VisitPreserves(g: Graph, start: Location, end: Location,
                       queue: seq<Entry>, visited: set<Location>, dist: map<Location, nat>, k: int,
                       queue': seq<Entry>)
    requires SearchInv(g, start, end, queue, visited, dist)
    requires IsMinAt(queue, k) && queue[k].node !in visited && queue[k].node != end
    requires Expanded(g, queue, k, queue')
    ensures SearchInv(g, start, end, queue', visited + {queue[k].node}, dist[queue[k].node := queue[k].cost])
    ensures Universe(g, start) - (visited + {queue[k].node}) < Universe(g, start) - visited
  {
    var v := queue[k].node;
    var dist' := dist[v := queue[k].cost];
    VisitEntries(g, start, queue, visited, k, queue');
    VisitClosed(g, queue, visited, dist, k, queue');
    PopIsMinimal(g, start, queue, visited, dist, k);
    assert EntryOk(g, start, queue[k], visited);
    forall x, w | x in visited + {v} && IsWalkFrom(g, w, start, x)
      ensures dist'[x] <= |w| - 1
    {
    }
  }

  /** Once the queue is empty, the end cannot be reached. */
  lemma ExhaustedUnreachable(g: Graph, start: Location, end: Location,
                             visited: set<Location>, dist: map<Location, nat>)
    requires SearchInv(g, start, end, [], visited, dist)
    ensures !Reachable(g, start, end)
  {
    forall w | IsWalkFrom(g, w, start, end)
      ensures false
    {
      CrossingEdge(g, w, visited);
    }
  }

  /** The walk carried by a least-cost entry for the unvisited end is a
      shortest walk without repeats; from the end to itself it is `[end]`. */
  lemma FoundIsShortest(g: Graph, start: Location, end: Location,
                        queue: seq<Entry>, visited: set<Location>, dist: map<Location, nat>, k: int)
    requires SearchInv(g, start, end, queue, visited, dist)
    requires IsMinAt(queue, k) && queue[k].node == end && end !in visited
    ensures IsShortestWalk(g, queue[k].path + [end], start, end)
    ensures Distinct(queue[k].path + [end])
    ensures start == end ==> queue[k].path + [end] == [start]
  {
    var p := queue[k].path + [end];
    PopIsMinimal(g, start, queue, visited, dist, k);
    assert EntryOk(g, start, queue[k], visited);
    assert Distinct(p) by {
      forall y | y in queue[k].path ensures y != end { }
    }
    if start == end {
      assert IsWalkFrom(g, [start], start, end);
      assert queue[k].path == [];
    }
  }

  /** Pushes one entry per outgoing edge, in edge order, each one hop further
      along `path`; the queue's earlier entries are kept as they were. */
  method PushNeighbors(queue: seq<Entry>, edges: seq<(Location, string)>, cost: nat, path: seq<Location>)
    returns (queue': seq<Entry>)
    ensures |queue'| == |queue| + |edges| && queue'[..|queue|] == queue
    ensures forall m :: 0 <= m < |edges| ==> queue'[|queue| + m] == Entry(cost, edges[m].0, path)
  {
    queue' := queue;
    var j := 0;
    while j < |edges|
      invariant 0 <= j <= |edges|
      invariant |queue'| == |queue| + j && queue'[..|queue|] == queue
      invariant forall m :: 0 <= m < j ==> queue'[|queue| + m] == Entry(cost, edges[m].0, path)
    {
      queue' := queue' + [Entry(cost, edges[j].0, path)];
      j := j + 1;
    }
  }

  /** Uniform-cost search from `start` to `end`. The result, when there is
      one, is a shortest walk that repeats no location; there is none exactly
      when `end` cannot be reached. */
  method FindShortestPath(g: Graph, start: Location, end: Location) returns (r: Option<seq<Location>>)
    ensures r.Some? ==> IsShortestWalk(g, r.value, start, end) && Distinct(r.value)
    ensures r.None? <==> !Reachable(g, start, end)
    ensures start == end ==> r == Some([start])
  {
    var queue := [Entry(0, start, [])];
    var visited: set<Location> := {};
    ghost var dist: map<Location, nat> := map[];
    while queue != []
      invariant SearchInv(g, start, end, queue, visited, dist)
      decreases Universe(g, start) - visited, |queue|
    {
      MinExists(queue);
      var k :| IsMinAt(queue, k);
      ghost var before := queue;
      var Entry(cost, current, path) := queue[k];
      queue := queue[..k] + queue[k + 1..];

      if current in visited {
        SkipPreserves(g, start, end, before, visited, dist, k);
        continue;
      }

      path := path + [current];

      if current == end {
        FoundIsShortest(g, start, end, before, visited, dist, k);
        return Some(path);
      }

      queue := PushNeighbors(queue, Neighbors(g, current), cost + 1, path);
      VisitPreserves(g, start, end, before, visited, dist, k, queue);
      visited := visited + {current};
      dist := dist[current := cost];
    }
    ExhaustedUnreachable(g, start, end, visited, dist);
    assert start == end ==> IsWalkFrom(g, [start], start, end);
    return None;
  }
}
