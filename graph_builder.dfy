/** The Graph Builder of the route handler: the node metadata table
    `nodeMap`, the resolution of a station code to its station_line ids, and
    the directed adjacency built from the operational connection rows.
    The rows are the results of the two database queries, passed in. */
module GraphBuilder {
  import opened Graph

  /** A row of the station_lines query: `id, station, station_code, line, sequence`. */
  datatype NodeRow = NodeRow(id: NodeId, station: string, stationCode: string, line: string, sequence: int)

  /** A row of the connections query (only operational connections are
      selected): `from_station_line_id, to_station_line_id, travel_time_min`. */
  datatype Connection = Connection(from: NodeId, to: NodeId, travelTimeMin: nat)

  /** A `nodeMap` entry, `{ station, stationCode, line, sequence }`; it is also
      the shape of one element of the returned `path`. */
  datatype NodeInfo = NodeInfo(station: string, stationCode: string, line: string, sequence: int)

  function Info(row: NodeRow): NodeInfo
  {
    NodeInfo(row.station, row.stationCode, row.line, row.sequence)
  }

  // ---------------------------------------------------------------------
  // nodeMap
  // ---------------------------------------------------------------------

  /** The table `nodeMap` after its rows have been stored one after another
      (`nodeMap[row.id] = ...`). */
  function NodeMapOf(rows: seq<NodeRow>): map<NodeId, NodeInfo>
  {
    if rows == [] then map[]
    else NodeMapOf(rows[..|rows| - 1])[rows[|rows| - 1].id := Info(rows[|rows| - 1])]
  }

  /** `nodesResult.rows.forEach((row) => { nodeMap[row.id] = ... })` */
  method BuildNodeMap(rows: seq<NodeRow>) returns (nodeMap: map<NodeId, NodeInfo>)
    ensures nodeMap == NodeMapOf(rows)
    ensures forall i :: 0 <= i < |rows| ==> rows[i].id in nodeMap
  {
    nodeMap := map[];
    var i := 0;
    while i < |rows|
      invariant 0 <= i <= |rows|
      invariant nodeMap == NodeMapOf(rows[..i])
    {
      assert rows[..i + 1][..i] == rows[..i];
      nodeMap := nodeMap[rows[i].id := Info(rows[i])];
      i := i + 1;
    }
    assert rows[..i] == rows;
    forall k | 0 <= k < |rows| ensures rows[k].id in nodeMap {
      NodeMapHasRow(rows, k);
    }
  }

  /** Every row's id has an entry. */
  lemma {:induction false} NodeMapHasRow(rows: seq<NodeRow>, k: nat)
    requires k < |rows|
    ensures rows[k].id in NodeMapOf(rows)
  {
    if k < |rows| - 1 {
      NodeMapHasRow(rows[..|rows| - 1], k);
    }
  }

  /** An id has an entry exactly when some row carries it, and the entry is
      that of the LAST row carrying it: a later row overwrites an earlier one. */
  lemma {:induction false} NodeMapLastRowWins(rows: seq<NodeRow>, id: NodeId)
    ensures id in NodeMapOf(rows) <==> exists i :: 0 <= i < |rows| && rows[i].id == id
    ensures id in NodeMapOf(rows) ==>
      exists i :: 0 <= i < |rows| && rows[i].id == id && NodeMapOf(rows)[id] == Info(rows[i]) &&
        forall j :: i < j < |rows| ==> rows[j].id != id
  {
    if rows != [] {
      var init := rows[..|rows| - 1];
      var n := |rows| - 1;
      NodeMapLastRowWins(init, id);
      if rows[n].id == id {
        assert id in NodeMapOf(rows) && NodeMapOf(rows)[id] == Info(rows[n]);
      } else {
        assert NodeMapOf(rows) == NodeMapOf(init)[rows[n].id := Info(rows[n])];
        assert id in NodeMapOf(rows) <==> id in NodeMapOf(init);
        assert id in NodeMapOf(init) ==> NodeMapOf(rows)[id] == NodeMapOf(init)[id];
        if exists i :: 0 <= i < |rows| && rows[i].id == id {
          var i :| 0 <= i < |rows| && rows[i].id == id;
          assert init[i].id == id;
        }
        if id in NodeMapOf(init) {
          var i :| 0 <= i < |init| && init[i].id == id && NodeMapOf(init)[id] == Info(init[i]) &&
            forall j :: i < j < |init| ==> init[j].id != id;
          assert rows[i] == init[i];
          assert forall j :: i < j < |rows| ==> rows[j].id != id by {
            forall j | i < j < |rows| ensures rows[j].id != id {
              if j < n { assert rows[j] == init[j]; }
            }
          }
        }
      }
    }
  }

  // ---------------------------------------------------------------------
  // Station resolution
  // ---------------------------------------------------------------------

  /** `rows.filter((r) => r.station_code === code).map((r) => r.id)`: the
      ids of the station_lines of one physical station, one per line it
      serves, in row order. */
  function IdsWithCode(rows: seq<NodeRow>, code: string): (ids: seq<NodeId>)
    ensures |ids| <= |rows|
    ensures forall x :: x in ids <==> exists i :: 0 <= i < |rows| && rows[i].stationCode == code && rows[i].id == x
  {
    if rows == [] then []
    else
      var init := rows[..|rows| - 1];
      var last := rows[|rows| - 1];
      var r := IdsWithCode(init, code) + (if last.stationCode == code then [last.id] else []);
      assert forall x :: x in r <==> exists i :: 0 <= i < |rows| && rows[i].stationCode == code && rows[i].id == x by {
        forall x ensures x in r <==> exists i :: 0 <= i < |rows| && rows[i].stationCode == code && rows[i].id == x {
          if x in IdsWithCode(init, code) {
            var i :| 0 <= i < |init| && init[i].stationCode == code && init[i].id == x;
            assert rows[i] == init[i];
          }
          if exists i :: 0 <= i < |rows| && rows[i].stationCode == code && rows[i].id == x {
            var i :| 0 <= i < |rows| && rows[i].stationCode == code && rows[i].id == x;
            if i < |init| { assert init[i] == rows[i]; }
          }
        }
      }
      r
  }

  /** Resolution keeps row order: the ids of a concatenation of row lists are
      the ids of the first list followed by those of the second. */
  lemma {:induction false} IdsWithCodeAppend(a: seq<NodeRow>, b: seq<NodeRow>, code: string)
    ensures IdsWithCode(a + b, code) == IdsWithCode(a, code) + IdsWithCode(b, code)
  {
    if b == [] {
      assert a + b == a;
    } else {
      var b' := b[..|b| - 1];
      assert (a + b)[..|a + b| - 1] == a + b';
      assert (a + b)[|a + b| - 1] == b[|b| - 1];
      IdsWithCodeAppend(a, b', code);
    }
  }

  /** A station on two lines, that is two rows with its code, resolves to two
      ids, in row order. */
  lemma MultiLineStation(r1: NodeRow, r2: NodeRow, code: string)
    requires r1.stationCode == code && r2.stationCode == code
    ensures IdsWithCode([r1, r2], code) == [r1.id, r2.id]
  {
    assert [r1, r2][..1] == [r1];
    assert [r1][..0] == [];
  }

  // ---------------------------------------------------------------------
  // Adjacency
  // ---------------------------------------------------------------------

  /** The table `adj` after the connection rows have been appended one after
      another (`if (!adj[a]) adj[a] = []; adj[a].push({ node: b, weight: w })`). */
  function AdjacencyOf(conns: seq<Connection>): Adjacency
  {
    if conns == [] then map[]
    else
      var g := AdjacencyOf(conns[..|conns| - 1]);
      var c := conns[|conns| - 1];
      g[c.from := Outgoing(g, c.from) + [Arc(c.to, c.travelTimeMin)]]
  }

  /** `connResult.rows.forEach(...)`, pushing each connection onto the list of
      the node it leaves. */
  method BuildAdjacency(conns: seq<Connection>) returns (adj: Adjacency)
    ensures adj == AdjacencyOf(conns)
  {
    adj := map[];
    var i := 0;
    while i < |conns|
      invariant 0 <= i <= |conns|
      invariant adj == AdjacencyOf(conns[..i])
    {
      assert conns[..i + 1][..i] == conns[..i];
      var a := conns[i].from;
      var b := conns[i].to;
      var w := conns[i].travelTimeMin;
      if a !in adj {
        adj := adj[a := []];
      }
      adj := adj[a := adj[a] + [Arc(b, w)]];
      i := i + 1;
    }
    assert conns[..i] == conns;
  }

  /** An independent reference definition: the arcs leaving `a`, read off the
      connection rows from the first to the last. */
  function OutArcs(conns: seq<Connection>, a: NodeId): seq<Arc>
  {
    if conns == [] then []
    else (if conns[0].from == a then [Arc(conns[0].to, conns[0].travelTimeMin)] else []) + OutArcs(conns[1..], a)
  }

  lemma {:induction false} OutArcsSnoc(conns: seq<Connection>, c: Connection, a: NodeId)
    ensures OutArcs(conns + [c], a) == OutArcs(conns, a) + (if c.from == a then [Arc(c.to, c.travelTimeMin)] else [])
  {
    if conns != [] {
      assert (conns + [c])[1..] == conns[1..] + [c];
      OutArcsSnoc(conns[1..], c, a);
    }
  }

  /** `adj[a]` holds exactly the connections that leave `a`, in row order. */
  lemma {:induction false} AdjacencyInRowOrder(conns: seq<Connection>, a: NodeId)
    ensures Outgoing(AdjacencyOf(conns), a) == OutArcs(conns, a)
  {
    if conns != [] {
      var init := conns[..|conns| - 1];
      var c := conns[|conns| - 1];
      AdjacencyInRowOrder(init, a);
      OutArcsSnoc(init, c, a);
      assert init + [c] == conns;
    }
  }

  lemma {:induction false} OutArcsMember(conns: seq<Connection>, a: NodeId, b: NodeId, w: nat)
    ensures Arc(b, w) in OutArcs(conns, a) <==> Connection(a, b, w) in conns
  {
    if conns != [] {
      OutArcsMember(conns[1..], a, b, w);
      assert conns == [conns[0]] + conns[1..];
    }
  }

  /** The graph is directed: an arc `b` (weight `w`) leaves `a` exactly when
      there is a connection row from `a` to `b` with travel time `w`; no
      reverse arc is ever added. */
  lemma AdjacencyIsDirected(conns: seq<Connection>, a: NodeId, b: NodeId, w: nat)
    ensures Arc(b, w) in Outgoing(AdjacencyOf(conns), a) <==> Connection(a, b, w) in conns
  {
    AdjacencyInRowOrder(conns, a);
    OutArcsMember(conns, a, b, w);
  }

  /** A directed connection with no row in the opposite direction is never
      traversed backwards. */
  lemma OneWayConnection(conns: seq<Connection>, a: NodeId, b: NodeId)
    requires forall c :: c in conns ==> !(c.from == b && c.to == a)
    ensures forall arc :: arc in Outgoing(AdjacencyOf(conns), b) ==> arc.node != a
  {
    forall arc | arc in Outgoing(AdjacencyOf(conns), b) ensures arc.node != a {
      AdjacencyIsDirected(conns, b, arc.node, arc.weight);
    }
  }
}
