/** A route query as the "Find Path" action runs it: validate the two
    endpoints, search, and reconstruct the directions of the route found. */
module RouteQuery {
  import opened CampusGraph
  import opened PathSearch
  import opened Directions

  /** Why a query is refused before any search. */
  datatype Rejection =
    | MissingEndpoint   // start or end was left empty
    | UnknownLocation   // start or end is not a location of the graph

  /** The endpoints are checked in order: emptiness first, then membership. */
  function Validate(g: Graph, start: Location, end: Location): (r: Option<Rejection>)
    ensures r == Some(MissingEndpoint) <==> start == "" || end == ""
    ensures r == Some(UnknownLocation) <==> start != "" && end != "" && (start !in g || end !in g)
    ensures r == None <==> start != "" && end != "" && start in g && end in g
  {
    if start == "" || end == "" then Some(MissingEndpoint)
    else if start !in g || end !in g then Some(UnknownLocation)
    else None
  }

  datatype Outcome =
    | Rejected(reason: Rejection)
    | NoPathFound
    | Route(path: seq<Location>, directions: seq<string>)

  /** Validates the endpoints, searches, and pairs the route found with its
      directions: one per hop, the first matching edge's instruction. */
  method FindPath(g: Graph, start: Location, end: Location) returns (out: Outcome)
    ensures out.Rejected? <==> Validate(g, start, end).Some?
    ensures out.Rejected? ==> Some(out.reason) == Validate(g, start, end)
    ensures out == NoPathFound <==> Validate(g, start, end) == None && !Reachable(g, start, end)
    ensures out.Route? ==>
              && Validate(g, start, end) == None
              && IsShortestWalk(g, out.path, start, end)
              && Distinct(out.path)
              && |out.directions| == |out.path| - 1
              && KeysAlong(g, out.path)
              && forall i :: 0 <= i < |out.path| - 1 ==>
                   FirstInstruction(g[out.path[i]], out.path[i + 1]) == Some(out.directions[i])
    ensures start == end && start != "" && start in g ==> out == Route([start], [])
  {
    var rejection := Validate(g, start, end);
    if rejection.Some? {
      return Rejected(rejection.value);
    }
    var found := FindShortestPath(g, start, end);
    match found {
      case Some(path) =>
        DirectionsAlongWalk(g, path);
        var directions := ReconstructDirections(g, path);
        out := Route(path, directions);
      case None =>
        out := NoPathFound;
    }
  }
}
