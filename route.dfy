/** The route handler `GET /api/route?from=<code>&to=<code>`: validates the
    two station codes, resolves them to station_line ids, runs the
    multi-source search over the operational connections, picks the best
    target and answers with the total travel time and the list of stops.
    The two query results are passed in as row sequences; the reply is
    either an error (with its HTTP status) or the found route. */
module RouteHandler {
  import opened Graph
  import opened GraphBuilder
  import opened Solver
  import opened Path

  // ---------------------------------------------------------------------
  // Query parameters
  // ---------------------------------------------------------------------

  /** The characters `String.prototype.trim` removes: the ECMAScript
      WhiteSpace and LineTerminator code points. */
  predicate IsSpace(c: char)
  {
    c == '\t' || c == '\n' || c == '\U{000B}' || c == '\U{000C}' || c == '\r' || c == ' ' ||
    c == '\U{00A0}' || c == '\U{1680}' || ('\U{2000}' <= c <= '\U{200A}') ||
    c == '\U{2028}' || c == '\U{2029}' || c == '\U{202F}' || c == '\U{205F}' || c == '\U{3000}' || c == '\U{FEFF}'
  }

  /** Number of leading whitespace characters. */
  function Lead(s: string): (n: nat)
    ensures n <= |s|
    ensures forall k :: 0 <= k < n ==> IsSpace(s[k])
    ensures n < |s| ==> !IsSpace(s[n])
  {
    if s == [] || !IsSpace(s[0]) then 0
    else
      var n := 1 + Lead(s[1..]);
      assert forall k :: 1 <= k < n ==> s[k] == s[1..][k - 1];
      n
  }

  /** Number of trailing whitespace characters. */
  function Trail(s: string): (n: nat)
    ensures n <= |s|
    ensures forall k :: |s| - n <= k < |s| ==> IsSpace(s[k])
    ensures n < |s| ==> !IsSpace(s[|s| - 1 - n])
  {
    if s == [] || !IsSpace(s[|s| - 1]) then 0
    else
      var n := 1 + Trail(s[..|s| - 1]);
      assert forall k :: |s| - n <= k < |s| - 1 ==> s[k] == s[..|s| - 1][k];
      n
  }

  /** `s.trim()`: the part of `s` between its leading and its trailing
      whitespace. It is the slice of `s` that starts after the leading
      whitespace, everything after it is whitespace too, and it neither
      starts nor ends with whitespace. */
  function Trim(s: string): (r: string)
    ensures Lead(s) + |r| <= |s| && r == s[Lead(s)..Lead(s) + |r|]
    ensures forall k :: Lead(s) + |r| <= k < |s| ==> IsSpace(s[k])
    ensures r != [] ==> !IsSpace(r[0]) && !IsSpace(r[|r| - 1])
  {
    var i := Lead(s);
    var j := Trail(s[i..]);
    var r := s[i..|s| - j];
    assert forall k :: i + |r| <= k < |s| ==> s[k] == s[i..][k - i];
    assert r != [] ==> r[|r| - 1] == s[i..][|s[i..]| - 1 - j];
    r
  }

  /** Trimming is idempotent. */
  lemma TrimIdempotent(s: string)
    ensures Trim(Trim(s)) == Trim(s)
  {
    var r := Trim(s);
    if r != [] {
      assert Lead(r) == 0;
      assert Trail(r) == 0;
      assert r[0..|r|] == r;
    }
  }

  /** A value trims to the empty string exactly when it is all whitespace. */
  lemma TrimEmpty(s: string)
    ensures Trim(s) == [] <==> forall k :: 0 <= k < |s| ==> IsSpace(s[k])
  {
    if forall k :: 0 <= k < |s| ==> IsSpace(s[k]) {
      assert Lead(s) == |s|;
    }
  }

  /** `searchParams.get(name)?.trim()`, read as a station code: absent
      when the parameter is missing or blank (`!code`). */
  function Code(param: Option<string>): (code: Option<string>)
    ensures code.None? <==> param.None? || forall k :: 0 <= k < |param.value| ==> IsSpace(param.value[k])
    ensures code.Some? ==> code.value == Trim(param.value) && code.value != []
  {
    if param.None? then None
    else
      TrimEmpty(param.value);
      if Trim(param.value) != [] then Some(Trim(param.value)) else None
  }

  // ---------------------------------------------------------------------
  // Replies
  // ---------------------------------------------------------------------

  /** A reply of the handler. */
  datatype Reply =
    | MissingParameters                      // 400
    | SameStation                            // 400
    | StationNotFound(code: string)          // 404
    | NoRoute                                // 404
    | Found(from: string, to: string, totalTimeMin: nat, path: seq<NodeInfo>)

  /** The HTTP status of a reply. */
  function Status(r: Reply): (status: int)
    ensures status == 200 <==> r.Found?
    ensures r.MissingParameters? || r.SameStation? ==> status == 400
    ensures r.StationNotFound? || r.NoRoute? ==> status == 404
  {
    match r
    case MissingParameters => 400
    case SameStation => 400
    case StationNotFound(_) => 404
    case NoRoute => 404
    case Found(_, _, _, _) => 200
  }

  /** The `error` text of an error reply. Only the not-found texts start
      with "Station not found: ", and what follows is the code. */
  function ErrorText(r: Reply): (msg: string)
    requires !r.Found?
    ensures r.StationNotFound? <==> |msg| >= |NotFoundPrefix| && msg[..|NotFoundPrefix|] == NotFoundPrefix
    ensures r.StationNotFound? ==> msg[|NotFoundPrefix|..] == r.code
  {
    match r
    case MissingParameters =>
      var text := "Missing" + " required query parameters: from and to";
      assert text[0] != NotFoundPrefix[0];
      text
    case SameStation =>
      var text := "from and to must be different";
      assert text[0] != NotFoundPrefix[0];
      text
    case StationNotFound(code) =>
      assert (NotFoundPrefix + code)[..|NotFoundPrefix|] == NotFoundPrefix;
      NotFoundPrefix + code
    case NoRoute =>
      var text := "No route found between the given stations";
      assert text[0] != NotFoundPrefix[0];
      text
  }

  const NotFoundPrefix: string := "Station not found: "

  /** Different error replies have different texts: the text tells which
      error it was and, when a station was not found, which code. */
  lemma ErrorTextInjective(r1: Reply, r2: Reply)
    requires !r1.Found? && !r2.Found?
    ensures ErrorText(r1) == ErrorText(r2) ==> r1 == r2
  {
    if ErrorText(r1) == ErrorText(r2) && !r1.StationNotFound? && !r2.StationNotFound? {
      assert ErrorText(r1)[0] == ErrorText(r2)[0];
      assert ErrorText(r1)[1] == ErrorText(r2)[1];
    }
  }

  // ---------------------------------------------------------------------
  // The handler
  // ---------------------------------------------------------------------

  /** Both codes are present, different, and each names at least one
      station_line row: the search runs. */
  ghost predicate Resolved(fromParam: Option<string>, toParam: Option<string>, nodes: seq<NodeRow>)
  {
    Code(fromParam).Some? && Code(toParam).Some? && Code(fromParam) != Code(toParam) &&
    IdsWithCode(nodes, Code(fromParam).value) != [] && IdsWithCode(nodes, Code(toParam).value) != []
  }

  /** Each station_line id names one row. */
  ghost predicate UniqueIds(nodes: seq<NodeRow>)
  {
    forall i, j :: 0 <= i < |nodes| && 0 <= j < |nodes| && nodes[i].id == nodes[j].id ==> i == j
  }

  /** The handler: validation, resolution, search, best target, path.
      `pathIds` is the id list the reply's `path` is built from. */
  method FindRoute(fromParam: Option<string>, toParam: Option<string>, nodes: seq<NodeRow>, conns: seq<Connection>)
    returns (r: Reply, ghost pathIds: seq<NodeId>)
    ensures r == MissingParameters <==> Code(fromParam).None? || Code(toParam).None?
    ensures r == SameStation <==> Code(fromParam).Some? && Code(toParam).Some? && Code(fromParam) == Code(toParam)
    ensures r.StationNotFound? <==>
      Code(fromParam).Some? && Code(toParam).Some? && Code(fromParam) != Code(toParam) && !Resolved(fromParam, toParam, nodes)
    ensures r.StationNotFound? ==>
      r.code == if IdsWithCode(nodes, Code(fromParam).value) == [] then Code(fromParam).value else Code(toParam).value
    ensures r == NoRoute <==>
      Resolved(fromParam, toParam, nodes) &&
      !Reaches(AdjacencyOf(conns), IdsWithCode(nodes, Code(fromParam).value), IdsWithCode(nodes, Code(toParam).value))
    ensures r.Found? ==>
      Resolved(fromParam, toParam, nodes) && r.from == Code(fromParam).value && r.to == Code(toParam).value &&
      RouteFound(nodes, conns, r, pathIds)
    ensures Status(r) == 400 <==> Code(fromParam).None? || Code(toParam).None? || Code(fromParam) == Code(toParam)
    ensures Status(r) == 404 <==>
      Code(fromParam).Some? && Code(toParam).Some? && Code(fromParam) != Code(toParam) &&
      (!Resolved(fromParam, toParam, nodes) ||
       !Reaches(AdjacencyOf(conns), IdsWithCode(nodes, Code(fromParam).value), IdsWithCode(nodes, Code(toParam).value)))
    ensures Status(r) == 200 <==>
      Resolved(fromParam, toParam, nodes) &&
      Reaches(AdjacencyOf(conns), IdsWithCode(nodes, Code(fromParam).value), IdsWithCode(nodes, Code(toParam).value))
  {
    pathIds := [];
    // --- 1. Validate inputs ---
    if fromParam.None? || toParam.None? {
      return MissingParameters, pathIds;
    }
    var fromCode := Trim(fromParam.value);
    var toCode := Trim(toParam.value);
    if fromCode == [] || toCode == [] {
      return MissingParameters, pathIds;
    }
    if fromCode == toCode {
      return SameStation, pathIds;
    }
    // --- 2. Station resolution ---
    var fromIds := IdsWithCode(nodes, fromCode);
    var toIds := IdsWithCode(nodes, toCode);
    if |fromIds| == 0 {
      return StationNotFound(fromCode), pathIds;
    }
    if |toIds| == 0 {
      return StationNotFound(toCode), pathIds;
    }
    r, pathIds := SearchRoute(fromCode, toCode, nodes, conns);
  }

  /** A found reply: its total is the shortest travel time from a stop of
      the `from` station to a stop of the `to` station; `pathIds` are the
      nodes of a walk of exactly that travel time between them; the `path`
      is their metadata; and, when row ids are unique, it starts at a stop
      of the `from` station and ends at one of the `to` station. */
  ghost predicate RouteFound(nodes: seq<NodeRow>, conns: seq<Connection>, r: Reply, pathIds: seq<NodeId>)
    requires r.Found?
  {
    var g, fromIds, toIds := AdjacencyOf(conns), IdsWithCode(nodes, r.from), IdsWithCode(nodes, r.to);
    && IsShortest(g, fromIds, toIds, r.totalTimeMin)
    && (exists s, p :: s in fromIds && IsWalk(g, s, p) && End(s, p) in toIds &&
          Weight(p) == r.totalTimeMin && Nodes(s, p) == pathIds)
    && r.path == StopsOf(NodeMapOf(nodes), pathIds)
    && (UniqueIds(nodes) ==>
          |r.path| >= 1 && r.path[0].stationCode == r.from && r.path[|r.path| - 1].stationCode == r.to)
  }

  /** Steps 3 to 6 of the handler, once both codes resolve: build the
      adjacency and the node metadata, search, pick the best target,
      reconstruct the path. */
  method SearchRoute(fromCode: string, toCode: string, nodes: seq<NodeRow>, conns: seq<Connection>)
    returns (r: Reply, ghost pathIds: seq<NodeId>)
    requires IdsWithCode(nodes, fromCode) != [] && IdsWithCode(nodes, toCode) != []
    ensures r.NoRoute? || r.Found?
    ensures r.NoRoute? <==> !Reaches(AdjacencyOf(conns), IdsWithCode(nodes, fromCode), IdsWithCode(nodes, toCode))
    ensures r.Found? ==> r.from == fromCode && r.to == toCode && RouteFound(nodes, conns, r, pathIds)
  {
    pathIds := [];
    var nodeMap := BuildNodeMap(nodes);
    var fromIds := IdsWithCode(nodes, fromCode);
    var toIds := IdsWithCode(nodes, toCode);
    // --- 3. Adjacency ---
    var adj := BuildAdjacency(conns);
    // --- 4. Multi-source Dijkstra ---
    var dist, prev, visited, rank, expanded, reached := ShortestPaths(adj, fromIds, toIds);
    // --- 5. Best destination ---
    var bestEnd, bestDist := PickBest(toIds, dist);
    if bestEnd.None? || bestDist.Inf? {
      return NoRoute, pathIds;
    }
    // --- 6. Path ---
    var ids := Reconstruct(prev, bestEnd.value, rank);
    pathIds := ids;
    var path := StopsOf(nodeMap, ids);
    r := Found(fromCode, toCode, bestDist.value, path);
    BestIsShortest(adj, fromIds, toIds, dist, prev, visited, rank, reached, bestEnd.value, bestDist.value);
    PathStations(nodes, fromCode, toCode, adj, dist, prev, rank, bestEnd.value, ids, path);
  }

  /** The best target's distance is the shortest travel time from the
      sources to the targets, and the reconstructed path is a walk of
      exactly that travel time from a source to the best target. */
  lemma BestIsShortest(g: Adjacency, S: seq<NodeId>, T: seq<NodeId>, dist: map<NodeId, Dist>,
                       prev: map<NodeId, Option<NodeId>>, visited: set<NodeId>, rank: map<NodeId, nat>,
                       reached: Option<NodeId>, best: NodeId, bestDist: nat)
    requires PrevConsistent(g, S, dist, prev) && Ranked(prev, rank)
    requires reached.None? ==> forall t :: t in T ==> Get(dist, t) == Inf
    requires reached.Some? ==>
      reached.value in T && Get(dist, reached.value).Fin? && SetLowerBound(g, S, T, Get(dist, reached.value).value)
    requires best in T && Get(dist, best) == Fin(bestDist)
    requires forall t :: t in T ==> AtMost(Fin(bestDist), Get(dist, t))
    ensures IsShortest(g, S, T, bestDist)
    ensures exists s, p :: (s in S && IsWalk(g, s, p) && End(s, p) in T &&
                            Weight(p) == bestDist && Nodes(s, p) == Reverse(Chain(prev, rank, best)))
  {
    var s, p := ChainIsWalk(g, S, dist, prev, rank, best);
    assert reached.Some?;
    var u := reached.value;
    assert Get(dist, u).value <= bestDist;
    assert AtMost(Fin(bestDist), Get(dist, u));
  }

  /** With unique row ids, the path starts at a stop of the `from` station
      and ends at a stop of the `to` station. */
  lemma PathStations(nodes: seq<NodeRow>, fromCode: string, toCode: string, g: Adjacency,
                     dist: map<NodeId, Dist>, prev: map<NodeId, Option<NodeId>>, rank: map<NodeId, nat>, best: NodeId,
                     ids: seq<NodeId>, path: seq<NodeInfo>)
    requires PrevConsistent(g, IdsWithCode(nodes, fromCode), dist, prev) && Ranked(prev, rank)
    requires Get(dist, best).Fin? && best in IdsWithCode(nodes, toCode)
    requires ids == Reverse(Chain(prev, rank, best)) && path == StopsOf(NodeMapOf(nodes), ids)
    ensures UniqueIds(nodes) ==>
      |path| >= 1 && path[0].stationCode == fromCode && path[|path| - 1].stationCode == toCode
  {
    if UniqueIds(nodes) {
      var s, p := ChainIsWalk(g, IdsWithCode(nodes, fromCode), dist, prev, rank, best);
      NodesEnds(s, p);
      PathEnds(prev, rank, best);
      assert ids[0] == s;
      var i :| 0 <= i < |nodes| && nodes[i].stationCode == fromCode && nodes[i].id == s;
      var j :| 0 <= j < |nodes| && nodes[j].stationCode == toCode && nodes[j].id == best;
      KnownRow(nodes, i);
      KnownRow(nodes, j);
      StopsOfEnds(NodeMapOf(nodes), ids);
    }
  }

  /** With unique row ids, the metadata of a row's id is that row's. */
  lemma KnownRow(nodes: seq<NodeRow>, i: nat)
    requires UniqueIds(nodes) && i < |nodes|
    ensures nodes[i].id in NodeMapOf(nodes) && NodeMapOf(nodes)[nodes[i].id] == Info(nodes[i])
  {
    NodeMapLastRowWins(nodes, nodes[i].id);
  }
}
