/** The campus graph the application ships with, and one route on it worked
    out from the search's contract alone. */
module CampusRoutes {
  import opened CampusGraph
  import opened Directions
  import opened RouteQuery

  const Campus: Graph := map[
    "Entrance" := [("Trust Office", "Take right"), ("Sports complex", "Take left"),
                   ("B S Narayan Platinum Jubilee Block", "Go straight")],
    "Trust Office" := [("Entrance", "Take left"), ("Administrative Block", "Go straight"),
                       ("Sports complex", "Take right")],
    "Sports complex" := [("Entrance", "Take left"), ("Hostel", "Go straight & Take Left"),
                         ("Trust Office", "Take left")],
    "Hostel" := [("Sports complex", "Go straight"), ("Canteen", "Go straight"), ("Entrance", "Take right")],
    "Canteen" := [("Hostel", "Go straight"), ("Boys Hostel", "Take left"), ("Sports complex", "Take right")],
    "Boys Hostel" := [("Canteen", "Take right"), ("Bank", "Take left"), ("Hostel", "Take right")],
    "Bank" := [("Boys Hostel", "Take right"), ("Canteen", "Take left")],
    "B S Narayan Platinum Jubilee Block" := [("Entrance", "Go straight"), ("PG Block", "Take right"),
                                             ("Science Block", "Go straight"), ("Mechanical Block", "Take left")],
    // "LAW" is an edge target that is not itself a location of the graph.
    "PG Block" := [("B S Narayan Platinum Jubilee Block", "Take left"), ("LAW", "Take right"),
                   ("Entrance", "Take right")],
    "LAW Canteen" := [("PG Block", "Take left"), ("Mechanical Block", "Go straight"), ("Canteen", "Take left"),
                      ("BMS College Architecture", "Take right")],
    "Mechanical Block" := [("B S Narayan Platinum Jubilee Block", "Take left"), ("LAW Canteen", "Go straight"),
                           ("Science Block", "Take right")],
    "Science Block" := [("B S Narayan Platinum Jubilee Block", "Go straight"), ("Mechanical Block", "Take left"),
                        ("PG Block", "Take right")],
    "Administrative Block" := [("Trust Office", "Go straight"), ("Entrance", "Take left")],
    "BMS College Architecture" := [("LAW Canteen", "Take left"), ("BMS College of LAW", "Take right"),
                                   ("PG Block", "Take left")],
    "BMS College of LAW" := [("BMS College Architecture", "Take left"), ("LAW Canteen", "Take right")]
  ]

  /** The Entrance's edges lead to the Trust Office, the Sports complex and
      the B S Narayan Platinum Jubilee Block only. */
  lemma EntranceTargets(v: Location)
    requires IsEdge(Campus, "Entrance", v)
    ensures v == "Trust Office" || v == "Sports complex" || v == "B S Narayan Platinum Jubilee Block"
  {
  }

  /** Of the Entrance's neighbours, only the Trust Office has an edge into the
      Administrative Block; the Entrance itself has none. */
  lemma AdministrativeBlockEntries(u: Location)
    requires u == "Entrance" || u == "Sports complex" || u == "B S Narayan Platinum Jubilee Block"
    ensures !IsEdge(Campus, u, "Administrative Block")
  {
  }

  /** No walk of at most two hops from the Entrance reaches the
      Administrative Block other than through the Trust Office. */
  lemma EntranceToAdministrativeBlockIsUnique(p: seq<Location>)
    requires IsWalkFrom(Campus, p, "Entrance", "Administrative Block") && |p| <= 3
    ensures p == ["Entrance", "Trust Office", "Administrative Block"]
  {
    AdministrativeBlockEntries("Entrance");
    EntranceTargets(p[1]);
    if p[1] != "Trust Office" {
      AdministrativeBlockEntries(p[1]);
    }
  }

  /** The Entrance reaches the Administrative Block through the Trust Office. */
  lemma AdministrativeBlockReachable()
    ensures IsWalkFrom(Campus, ["Entrance", "Trust Office", "Administrative Block"], "Entrance", "Administrative Block")
    ensures Reachable(Campus, "Entrance", "Administrative Block")
  {
    var route := ["Entrance", "Trust Office", "Administrative Block"];
    assert Neighbors(Campus, "Entrance")[0].0 == "Trust Office";
    assert Neighbors(Campus, "Trust Office")[1].0 == "Administrative Block";
    assert IsEdge(Campus, route[0], route[1]) && IsEdge(Campus, route[1], route[2]);
    assert IsWalkFrom(Campus, route, "Entrance", "Administrative Block");
  }

  /** The two hops of that route are taken with "Take right" and "Go straight". */
  lemma AdministrativeBlockInstructions(path: seq<Location>, directions: seq<string>)
    requires path == ["Entrance", "Trust Office", "Administrative Block"]
    requires |directions| == 2 && KeysAlong(Campus, path)
    requires forall i :: 0 <= i < |path| - 1 ==> FirstInstruction(Campus[path[i]], path[i + 1]) == Some(directions[i])
    ensures directions == ["Take right", "Go straight"]
  {
    FirstInstructionAt(Campus["Entrance"], "Trust Office", 0);
    FirstInstructionAt(Campus["Trust Office"], "Administrative Block", 1);
    assert FirstInstruction(Campus[path[0]], path[1]) == Some(directions[0]);
    assert FirstInstruction(Campus[path[1]], path[2]) == Some(directions[1]);
  }

  /** Entrance to Administrative Block: through the Trust Office, taking a
      right and then going straight. */
  method EntranceToAdministrativeBlock() returns (out: Outcome)
    ensures out == Route(["Entrance", "Trust Office", "Administrative Block"], ["Take right", "Go straight"])
  {
    AdministrativeBlockReachable();
    out := FindPath(Campus, "Entrance", "Administrative Block");
    EntranceToAdministrativeBlockIsUnique(out.path);
    AdministrativeBlockInstructions(out.path, out.directions);
  }
}
