/** The multi-source shortest-path solver of the route handler: Dijkstra
    over the directed adjacency, every source seeded at distance 0, the
    frontier kept as an array of `{ node, d }` entries scanned linearly for
    its minimum, stale entries skipped through the `visited` set, strict
    relaxation, and an early exit at the first settled target; then the
    choice of the best target. */
module Solver {
  import opened Graph

  /** A queue entry `{ node, d }`. */
  datatype Entry = Entry(node: NodeId, d: nat)

  // ---------------------------------------------------------------------
  // Extract-min
  // ---------------------------------------------------------------------

  /** The linear scan for the entry with the least `d`; on a tie the first
      such entry wins (`queue[i].d < queue[minIdx].d`). */
  method FindMin(queue: seq<Entry>) returns (minIdx: nat)
    requires |queue| > 0
    ensures minIdx < |queue|
    ensures forall j :: 0 <= j < |queue| ==> queue[minIdx].d <= queue[j].d
    ensures forall j :: 0 <= j < minIdx ==> queue[minIdx].d < queue[j].d
  {
    minIdx := 0;
    var i := 1;
    while i < |queue|
      invariant 1 <= i <= |queue|
      invariant minIdx < i
      invariant forall j :: 0 <= j < i ==> queue[minIdx].d <= queue[j].d
      invariant forall j :: 0 <= j < minIdx ==> queue[minIdx].d < queue[j].d
    {
      if queue[i].d < queue[minIdx].d {
        minIdx := i;
      }
      i := i + 1;
    }
  }

  /** `queue.splice(k, 1)`: the queue without its entry at index `k`. */
  function RemoveAt(queue: seq<Entry>, k: nat): (r: seq<Entry>)
    requires k < |queue|
    ensures |r| == |queue| - 1
    ensures forall j :: 0 <= j < k ==> r[j] == queue[j]
    ensures forall j :: k <= j < |r| ==> r[j] == queue[j + 1]
  {
    queue[..k] + queue[k + 1..]
  }

  /** Removing one entry keeps every other entry, and adds none. */
  lemma RemoveAtMembers(queue: seq<Entry>, k: nat)
    requires k < |queue|
    ensures forall e :: e in RemoveAt(queue, k) ==> e in queue
    ensures forall e :: e in queue && e != queue[k] ==> e in RemoveAt(queue, k)
  {
    var r := RemoveAt(queue, k);
    forall e | e in queue && e != queue[k] ensures e in r {
      var j :| 0 <= j < |queue| && queue[j] == e;
      if j < k { assert r[j] == e; } else { assert r[j - 1] == e; }
    }
  }

  // ---------------------------------------------------------------------
  // Relaxation
  // ---------------------------------------------------------------------

  /** `v`'s distance was lowered by the relaxation out of `u`: its
      predecessor is now `u`, its distance is `du` plus the weight of an arc
      from `u` to `v`, and an entry carrying that distance was queued. */
  ghost predicate Improved(u: NodeId, du: nat, arcs: seq<Arc>, dist: map<NodeId, Dist>,
                           prev: map<NodeId, Option<NodeId>>, queue: seq<Entry>, v: NodeId)
  {
    Prev(prev, v) == Some(u) && Get(dist, v).Fin? && du <= Get(dist, v).value &&
    Arc(v, Get(dist, v).value - du) in arcs && Entry(v, Get(dist, v).value) in queue
  }

  /** An entry pushed by the relaxation out of `u`: `{ node: v, d: alt }`
      where `alt = du + w` for an arc to `v`, and `dist[v]` is at most `alt`. */
  ghost predicate Pushed(du: nat, arcs: seq<Arc>, dist: map<NodeId, Dist>, e: Entry)
  {
    du <= e.d && Arc(e.node, e.d - du) in arcs && AtMost(Get(dist, e.node), Fin(e.d))
  }

  /** The state after relaxing the first `i` arcs out of `u`, whose distance
      is `du`. Distances only go down; `dist[u]` itself stays; each relaxed
      arc `u -> v` leaves `dist[v] <= du + w`; a node whose distance changed
      was improved through `u`, and the predecessor of any other node is
      untouched; the queue only grows, by pushed entries. */
  ghost predicate RelaxedUpTo(u: NodeId, du: nat, arcs: seq<Arc>, i: nat,
                              dist0: map<NodeId, Dist>, prev0: map<NodeId, Option<NodeId>>, queue0: seq<Entry>,
                              dist: map<NodeId, Dist>, prev: map<NodeId, Option<NodeId>>, queue: seq<Entry>)
    requires i <= |arcs|
  {
    && Get(dist0, u) == Fin(du) && Get(dist, u) == Fin(du)
    && (forall v :: AtMost(Get(dist, v), Get(dist0, v)))
    && (forall j :: 0 <= j < i ==> AtMost(Get(dist, arcs[j].node), Fin(du + arcs[j].weight)))
    && (forall v :: Get(dist, v) != Get(dist0, v) ==> Improved(u, du, arcs, dist, prev, queue, v))
    && (forall v :: Get(dist, v) == Get(dist0, v) ==> Prev(prev, v) == Prev(prev0, v))
    && (forall e :: e in queue0 ==> e in queue)
    && (forall e :: e in queue ==> e in queue0 || Pushed(du, arcs, dist, e))
  }

  /** The inner loop over `adj[u] || []`:
      `alt = dist[u] + w`; a node never given a distance first gets INF and
      a null predecessor; then, if `alt < dist[v]` (strictly), `dist[v]` and
      `prev[v]` are updated and `{ node: v, d: alt }` is pushed. */
  method Relax(u: NodeId, arcs: seq<Arc>, dist0: map<NodeId, Dist>, prev0: map<NodeId, Option<NodeId>>, queue0: seq<Entry>)
    returns (dist: map<NodeId, Dist>, prev: map<NodeId, Option<NodeId>>, queue: seq<Entry>)
    requires Get(dist0, u).Fin?
    ensures RelaxedUpTo(u, Get(dist0, u).value, arcs, |arcs|, dist0, prev0, queue0, dist, prev, queue)
  {
    dist, prev, queue := dist0, prev0, queue0;
    ghost var du := Get(dist0, u).value;
    var i := 0;
    while i < |arcs|
      invariant 0 <= i <= |arcs|
      invariant RelaxedUpTo(u, du, arcs, i, dist0, prev0, queue0, dist, prev, queue)
    {
      var v := arcs[i].node;
      var w := arcs[i].weight;
      var alt := dist[u].value + w;
      ghost var distBefore, prevBefore, queueBefore := dist, prev, queue;
      if v !in dist {
        dist := dist[v := Inf];
        prev := prev[v := None];
      }
      if Below(alt, dist[v]) {
        dist := dist[v := Fin(alt)];
        prev := prev[v := Some(u)];
        queue := queue + [Entry(v, alt)];
        assert forall x :: Get(dist, x) == if x == v then Fin(alt) else Get(distBefore, x);
        assert forall x :: Prev(prev, x) == if x == v then Some(u) else Prev(prevBefore, x);
      } else {
        assert forall x :: Get(dist, x) == Get(distBefore, x);
        assert forall x :: Prev(prev, x) == Prev(prevBefore, x);
      }
      RelaxOneArc(u, du, arcs, i, dist0, prev0, queue0, distBefore, prevBefore, queueBefore, dist, prev, queue);
      i := i + 1;
    }
  }

  /** One turn of the inner loop: relaxing arc `i` keeps the relaxation
      state, one arc further. */
  lemma RelaxOneArc(u: NodeId, du: nat, arcs: seq<Arc>, i: nat,
                    dist0: map<NodeId, Dist>, prev0: map<NodeId, Option<NodeId>>, queue0: seq<Entry>,
                    dist: map<NodeId, Dist>, prev: map<NodeId, Option<NodeId>>, queue: seq<Entry>,
                    dist': map<NodeId, Dist>, prev': map<NodeId, Option<NodeId>>, queue': seq<Entry>)
    requires i < |arcs|
    requires RelaxedUpTo(u, du, arcs, i, dist0, prev0, queue0, dist, prev, queue)
    requires Below(du + arcs[i].weight, Get(dist, arcs[i].node)) ==>
      && (forall x :: Get(dist', x) == if x == arcs[i].node then Fin(du + arcs[i].weight) else Get(dist, x))
      && (forall x :: Prev(prev', x) == if x == arcs[i].node then Some(u) else Prev(prev, x))
      && queue' == queue + [Entry(arcs[i].node, du + arcs[i].weight)]
    requires !Below(du + arcs[i].weight, Get(dist, arcs[i].node)) ==>
      && (forall x :: Get(dist', x) == Get(dist, x))
      && (forall x :: Prev(prev', x) == Prev(prev, x))
      && queue' == queue
    ensures RelaxedUpTo(u, du, arcs, i + 1, dist0, prev0, queue0, dist', prev', queue')
  {
    if Below(du + arcs[i].weight, Get(dist, arcs[i].node)) {
      RelaxLowers(u, du, arcs, i, dist0, prev0, queue0, dist, prev, queue, dist', prev', queue');
    } else {
      RelaxSkips(u, du, arcs, i, dist0, prev0, queue0, dist, prev, queue, dist', prev', queue');
    }
  }

  /** Arc `i` lowers the distance of its node: the node gets `du + w`,
      predecessor `u`, and a new queue entry. */
  lemma RelaxLowers(u: NodeId, du: nat, arcs: seq<Arc>, i: nat,
                    dist0: map<NodeId, Dist>, prev0: map<NodeId, Option<NodeId>>, queue0: seq<Entry>,
                    dist: map<NodeId, Dist>, prev: map<NodeId, Option<NodeId>>, queue: seq<Entry>,
                    dist': map<NodeId, Dist>, prev': map<NodeId, Option<NodeId>>, queue': seq<Entry>)
    requires i < |arcs|
    requires RelaxedUpTo(u, du, arcs, i, dist0, prev0, queue0, dist, prev, queue)
    requires Below(du + arcs[i].weight, Get(dist, arcs[i].node))
    requires forall x :: Get(dist', x) == if x == arcs[i].node then Fin(du + arcs[i].weight) else Get(dist, x)
    requires forall x :: Prev(prev', x) == if x == arcs[i].node then Some(u) else Prev(prev, x)
    requires queue' == queue + [Entry(arcs[i].node, du + arcs[i].weight)]
    ensures RelaxedUpTo(u, du, arcs, i + 1, dist0, prev0, queue0, dist', prev', queue')
  {
    var v, alt := arcs[i].node, du + arcs[i].weight;
    assert arcs[i] == Arc(v, alt - du);
    assert v != u;
    forall x ensures AtMost(Get(dist', x), Get(dist0, x)) {
      assert AtMost(Get(dist, x), Get(dist0, x));
    }
    forall j | 0 <= j < i + 1 ensures AtMost(Get(dist', arcs[j].node), Fin(du + arcs[j].weight)) {
      assert AtMost(Get(dist', arcs[j].node), Get(dist, arcs[j].node));
    }
    forall x | Get(dist', x) != Get(dist0, x) ensures Improved(u, du, arcs, dist', prev', queue', x) {
      if x != v {
        assert Improved(u, du, arcs, dist, prev, queue, x);
      }
    }
    forall e | e in queue' ensures e in queue0 || Pushed(du, arcs, dist', e) {
      if e in queue {
        if e !in queue0 {
          assert Pushed(du, arcs, dist, e);
          assert AtMost(Get(dist', e.node), Get(dist, e.node));
        }
      } else {
        assert e == Entry(v, alt);
      }
    }
  }

  /** Arc `i` does not lower the distance of its node: nothing changes. */
  lemma RelaxSkips(u: NodeId, du: nat, arcs: seq<Arc>, i: nat,
                   dist0: map<NodeId, Dist>, prev0: map<NodeId, Option<NodeId>>, queue0: seq<Entry>,
                   dist: map<NodeId, Dist>, prev: map<NodeId, Option<NodeId>>, queue: seq<Entry>,
                   dist': map<NodeId, Dist>, prev': map<NodeId, Option<NodeId>>, queue': seq<Entry>)
    requires i < |arcs|
    requires RelaxedUpTo(u, du, arcs, i, dist0, prev0, queue0, dist, prev, queue)
    requires !Below(du + arcs[i].weight, Get(dist, arcs[i].node))
    requires forall x :: Get(dist', x) == Get(dist, x)
    requires forall x :: Prev(prev', x) == Prev(prev, x)
    requires queue' == queue
    ensures RelaxedUpTo(u, du, arcs, i + 1, dist0, prev0, queue0, dist', prev', queue')
  {
    forall x | Get(dist', x) != Get(dist0, x) ensures Improved(u, du, arcs, dist', prev', queue', x) {
      assert Improved(u, du, arcs, dist, prev, queue, x);
    }
    forall e | e in queue' && e !in queue0 ensures Pushed(du, arcs, dist', e) {
      assert Pushed(du, arcs, dist, e);
    }
  }

  // ---------------------------------------------------------------------
  // The invariants of the main loop
  // ---------------------------------------------------------------------

  /** Sources keep distance 0 and a null predecessor. */
  ghost predicate SourcesFixed(S: seq<NodeId>, dist: map<NodeId, Dist>, prev: map<NodeId, Option<NodeId>>)
  {
    forall s :: s in S ==> Get(dist, s) == Fin(0) && Prev(prev, s) == None
  }

  /** No entry understates its node's distance; every unsettled node with a
      finite distance has an entry carrying that distance; no settled node
      is farther than any queued entry. */
  ghost predicate QueueTracks(dist: map<NodeId, Dist>, queue: seq<Entry>, visited: set<NodeId>)
  {
    && (forall e :: e in queue ==> AtMost(Get(dist, e.node), Fin(e.d)))
    && (forall v :: v !in visited && Get(dist, v).Fin? ==> Entry(v, Get(dist, v).value) in queue)
    && (forall v :: v in visited ==> Get(dist, v).Fin?)
    && (forall v, e :: v in visited && e in queue ==> Get(dist, v).value <= e.d)
  }

  /** Every arc out of a settled node has been relaxed. */
  ghost predicate Expanded(g: Adjacency, dist: map<NodeId, Dist>, visited: set<NodeId>)
  {
    forall u, a :: u in visited && a in Outgoing(g, u) && Get(dist, u).Fin? ==>
      AtMost(Get(dist, a.node), Fin(Get(dist, u).value + a.weight))
  }

  /** Every settled node's distance is a lower bound on every walk to it. */
  ghost predicate Optimal(g: Adjacency, S: seq<NodeId>, dist: map<NodeId, Dist>, visited: set<NodeId>)
  {
    forall v :: v in visited ==> Get(dist, v).Fin? && LowerBound(g, S, v, Get(dist, v).value)
  }

  /** No target has been settled yet: the loop stops at the first one. */
  ghost predicate NoTargetSettled(T: seq<NodeId>, visited: set<NodeId>)
  {
    forall t :: t in T ==> t !in visited
  }

  /** The link `prev[v] == u` is an arc of `g` from `u` to `v` whose weight
      is the difference of their distances. */
  ghost predicate Link(g: Adjacency, dist: map<NodeId, Dist>, u: NodeId, v: NodeId)
  {
    Get(dist, u).Fin? && Get(dist, v).Fin? && Get(dist, u).value <= Get(dist, v).value &&
    Arc(v, Get(dist, v).value - Get(dist, u).value) in Outgoing(g, u)
  }

  /** Every predecessor link is an arc of `g` consistent with `dist`, and a
      node with a distance but no predecessor is a source at distance 0. */
  ghost predicate PrevConsistent(g: Adjacency, S: seq<NodeId>, dist: map<NodeId, Dist>, prev: map<NodeId, Option<NodeId>>)
  {
    && (forall v :: Prev(prev, v).Some? ==> Link(g, dist, Prev(prev, v).value, v))
    && (forall v :: Prev(prev, v).None? && Get(dist, v).Fin? ==> v in S && Get(dist, v) == Fin(0))
  }

  /** Every predecessor was settled, and settled before the node it precedes
      whenever that node is settled too (`rank` is the settling order). */
  ghost predicate Ranked(prev: map<NodeId, Option<NodeId>>, rank: map<NodeId, nat>)
  {
    forall v :: Prev(prev, v).Some? ==>
      Prev(prev, v).value in rank && (v in rank ==> rank[Prev(prev, v).value] < rank[v])
  }

  /** `rank` numbers the settled nodes 0, 1, ... in the order they were
      settled, and that order is non-decreasing in distance. */
  ghost predicate SettleOrder(dist: map<NodeId, Dist>, visited: set<NodeId>, rank: map<NodeId, nat>)
  {
    && (forall v :: v in rank <==> v in visited)
    && (forall v :: v in rank ==> rank[v] < |rank|)
    && (forall u, v :: u in rank && v in rank && u != v ==> rank[u] != rank[v])
    && (forall u, v :: u in rank && v in rank && rank[u] < rank[v] && Get(dist, u).Fin? && Get(dist, v).Fin? ==>
          Get(dist, u).value <= Get(dist, v).value)
  }

  /** Each node was expanded (its arcs relaxed) at most once. */
  ghost predicate ExpandedOnce(expanded: seq<NodeId>, visited: set<NodeId>)
  {
    && (forall i, j :: 0 <= i < j < |expanded| ==> expanded[i] != expanded[j])
    && (forall i :: 0 <= i < |expanded| ==> expanded[i] in visited)
  }

  /** The finite set of nodes the queue can ever mention. */
  ghost function Universe(g: Adjacency, S: seq<NodeId>): set<NodeId>
  {
    g.Keys + (set a, arc | a in g && arc in g[a] :: arc.node) + (set s | s in S)
  }

  ghost predicate InUniverse(U: set<NodeId>, queue: seq<Entry>, visited: set<NodeId>)
  {
    (forall e :: e in queue ==> e.node in U) && visited <= U
  }

  // ---------------------------------------------------------------------
  // Lemmas behind the main loop
  // ---------------------------------------------------------------------

  /** Any walk from a source to an unsettled node passes an unsettled node
      `y` with a finite distance that is at most the walk's weight: the
      first unsettled node of the walk. */
  lemma {:induction false} FrontierCrossing(g: Adjacency, S: seq<NodeId>, dist: map<NodeId, Dist>,
                                            visited: set<NodeId>, s: NodeId, p: seq<Step>) returns (y: NodeId)
    requires forall x :: x in S ==> Get(dist, x) == Fin(0)
    requires Expanded(g, dist, visited)
    requires Optimal(g, S, dist, visited)
    requires s in S && IsWalk(g, s, p) && End(s, p) !in visited
    ensures y !in visited && Get(dist, y).Fin? && Get(dist, y).value <= Weight(p)
    decreases |p|
  {
    if p == [] {
      y := s;
    } else {
      var q := p[..|p| - 1];
      var e := p[|p| - 1];
      WalkPrefix(g, s, p);
      var z := End(s, q);
      if z in visited {
        assert LowerBound(g, S, z, Get(dist, z).value);
        assert Get(dist, z).value <= Weight(q);
        assert Arc(e.to, e.weight) in Outgoing(g, z);
        y := e.to;
      } else {
        y := FrontierCrossing(g, S, dist, visited, s, q);
      }
    }
  }

  /** The entry taken off the queue is not farther than any walk from a
      source to an unsettled node. */
  lemma PopIsOptimal(g: Adjacency, S: seq<NodeId>, dist: map<NodeId, Dist>, queue: seq<Entry>,
                     visited: set<NodeId>, du: nat)
    requires forall x :: x in S ==> Get(dist, x) == Fin(0)
    requires Expanded(g, dist, visited) && Optimal(g, S, dist, visited)
    requires QueueTracks(dist, queue, visited)
    requires forall e :: e in queue ==> du <= e.d
    ensures forall s, p :: s in S && IsWalk(g, s, p) && End(s, p) !in visited ==> du <= Weight(p)
  {
    forall s, p | s in S && IsWalk(g, s, p) && End(s, p) !in visited ensures du <= Weight(p) {
      var y := FrontierCrossing(g, S, dist, visited, s, p);
      assert Entry(y, Get(dist, y).value) in queue;
    }
  }

  /** When the queue runs dry, no walk from a source reaches an unsettled
      node. */
  lemma ExhaustedUnreachable(g: Adjacency, S: seq<NodeId>, dist: map<NodeId, Dist>, visited: set<NodeId>,
                             s: NodeId, p: seq<Step>)
    requires forall x :: x in S ==> Get(dist, x) == Fin(0)
    requires Expanded(g, dist, visited) && Optimal(g, S, dist, visited)
    requires QueueTracks(dist, [], visited)
    requires s in S && IsWalk(g, s, p)
    ensures End(s, p) in visited
  {
    if End(s, p) !in visited {
      var y := FrontierCrossing(g, S, dist, visited, s, p);
      assert false;
    }
  }

  /** The entry taken off the queue for an unsettled node carries that
      node's current distance. */
  lemma PoppedIsCurrent(dist: map<NodeId, Dist>, queue: seq<Entry>, visited: set<NodeId>, k: nat)
    requires QueueTracks(dist, queue, visited)
    requires k < |queue| && queue[k].node !in visited
    requires forall e :: e in queue ==> queue[k].d <= e.d
    ensures Get(dist, queue[k].node) == Fin(queue[k].d)
  {
    assert queue[k] in queue;
  }

  /** Settling `u` at distance `du`, the least queued distance, keeps the
      settle order, `u` ranked last. */
  lemma SettleKeepsOrder(dist: map<NodeId, Dist>, visited: set<NodeId>,
                         rank: map<NodeId, nat>, u: NodeId, du: nat)
    requires SettleOrder(dist, visited, rank)
    requires forall v :: v in visited ==> Get(dist, v).Fin? && Get(dist, v).value <= du
    requires u !in visited && Get(dist, u) == Fin(du)
    ensures SettleOrder(dist, visited + {u}, rank[u := |rank|])
  {
    var rank' := rank[u := |rank|];
    assert u !in rank;
    assert |rank'| == |rank| + 1;
  }

  /** No settled node is farther than a queued entry. */
  lemma SettledBelow(dist: map<NodeId, Dist>, queue: seq<Entry>, visited: set<NodeId>, u: NodeId, du: nat)
    requires QueueTracks(dist, queue, visited) && Entry(u, du) in queue
    ensures forall v :: v in visited ==> Get(dist, v).Fin? && Get(dist, v).value <= du
  {
  }

  /** Ranking a node not yet ranked, last, keeps every predecessor ranked
      before the node it precedes. */
  lemma SettleKeepsRanks(prev: map<NodeId, Option<NodeId>>, rank: map<NodeId, nat>, u: NodeId)
    requires Ranked(prev, rank) && u !in rank
    requires forall v :: v in rank ==> rank[v] < |rank|
    ensures Ranked(prev, rank[u := |rank|])
  {
  }

  /** Settling `u` at a distance no walk to an unsettled node undercuts
      keeps every settled distance a lower bound. */
  lemma SettleIsOptimal(g: Adjacency, S: seq<NodeId>, dist: map<NodeId, Dist>, visited: set<NodeId>, u: NodeId, du: nat)
    requires Optimal(g, S, dist, visited)
    requires u !in visited && Get(dist, u) == Fin(du)
    requires forall s, p :: s in S && IsWalk(g, s, p) && End(s, p) !in visited ==> du <= Weight(p)
    ensures Optimal(g, S, dist, visited + {u})
  {
  }

  /** The relaxation out of `u`, the node just settled at `du`, the least
      queued distance, leaves every settled node's distance as it was: a
      lowered distance would be `du` plus a weight, yet below `du`. */
  lemma SettledKeepDistance(u: NodeId, du: nat, arcs: seq<Arc>,
                            dist0: map<NodeId, Dist>, prev0: map<NodeId, Option<NodeId>>, queueB: seq<Entry>,
                            visited0: set<NodeId>, queueP: seq<Entry>,
                            dist: map<NodeId, Dist>, prev: map<NodeId, Option<NodeId>>, queue: seq<Entry>)
    requires QueueTracks(dist0, queueB, visited0)
    requires Entry(u, du) in queueB
    requires RelaxedUpTo(u, du, arcs, |arcs|, dist0, prev0, queueP, dist, prev, queue)
    ensures forall v :: v in visited0 + {u} ==> Get(dist, v) == Get(dist0, v)
  {
    forall v | v in visited0 + {u} ensures Get(dist, v) == Get(dist0, v) {
      if v != u {
        assert Get(dist0, v).Fin? && Get(dist0, v).value <= du;
      }
    }
  }

  /** After settling `u` and relaxing its arcs, the queue invariants hold
      again, with `u` settled. */
  lemma QueueAfterRelax(g: Adjacency, S: seq<NodeId>, U: set<NodeId>, u: NodeId, du: nat,
                        dist0: map<NodeId, Dist>, queueB: seq<Entry>, visited0: set<NodeId>, k: nat,
                        queueP: seq<Entry>, dist: map<NodeId, Dist>, prev0: map<NodeId, Option<NodeId>>,
                        prev: map<NodeId, Option<NodeId>>, queue: seq<Entry>)
    requires k < |queueB| && queueP == RemoveAt(queueB, k) && queueB[k] == Entry(u, du)
    requires forall e :: e in queueB ==> du <= e.d
    requires u !in visited0
    requires U == Universe(g, S)
    requires QueueTracks(dist0, queueB, visited0)
    requires InUniverse(U, queueB, visited0)
    requires RelaxedUpTo(u, du, Outgoing(g, u), |Outgoing(g, u)|, dist0, prev0, queueP, dist, prev, queue)
    requires forall v :: v in visited0 + {u} ==> Get(dist, v) == Get(dist0, v)
    ensures QueueTracks(dist, queue, visited0 + {u})
    ensures InUniverse(U, queue, visited0 + {u})
  {
    var arcs := Outgoing(g, u);
    var visited := visited0 + {u};
    RemoveAtMembers(queueB, k);
    assert queueB[k] in queueB;
    forall v | v !in visited && Get(dist, v).Fin? ensures Entry(v, Get(dist, v).value) in queue {
      if Get(dist, v) == Get(dist0, v) {
        assert Entry(v, Get(dist0, v).value) in queueB;
        assert Entry(v, Get(dist0, v).value) in queueP;
      } else {
        assert Improved(u, du, arcs, dist, prev, queue, v);
      }
    }
    forall e | e in queue ensures AtMost(Get(dist, e.node), Fin(e.d)) && du <= e.d && e.node in U {
      if e in queueP {
        assert AtMost(Get(dist, e.node), Get(dist0, e.node));
      } else {
        assert Pushed(du, arcs, dist, e);
        assert u in g;
        assert Arc(e.node, e.d - du) in g[u];
        assert e.node in (set a, arc | a in g && arc in g[a] :: arc.node);
      }
    }
    forall v, e | v in visited && e in queue ensures Get(dist, v).Fin? && Get(dist, v).value <= e.d {
      if v != u {
        assert Get(dist0, v).value <= du;
      }
    }
    assert u in U;
  }

  /** After settling `u` and relaxing its arcs, every settled node, `u`
      included, has all its arcs relaxed. */
  lemma ExpandedAfterRelax(g: Adjacency, u: NodeId, du: nat, dist0: map<NodeId, Dist>, visited0: set<NodeId>,
                           queueP: seq<Entry>, dist: map<NodeId, Dist>, prev0: map<NodeId, Option<NodeId>>,
                           prev: map<NodeId, Option<NodeId>>, queue: seq<Entry>)
    requires Expanded(g, dist0, visited0)
    requires RelaxedUpTo(u, du, Outgoing(g, u), |Outgoing(g, u)|, dist0, prev0, queueP, dist, prev, queue)
    requires forall v :: v in visited0 + {u} ==> Get(dist, v) == Get(dist0, v)
    ensures Expanded(g, dist, visited0 + {u})
  {
    var arcs := Outgoing(g, u);
    forall x, a | x in visited0 + {u} && a in Outgoing(g, x) && Get(dist, x).Fin?
      ensures AtMost(Get(dist, a.node), Fin(Get(dist, x).value + a.weight))
    {
      if x != u {
        assert AtMost(Get(dist0, a.node), Fin(Get(dist0, x).value + a.weight));
        assert AtMost(Get(dist, a.node), Get(dist0, a.node));
      } else {
        var j :| 0 <= j < |arcs| && arcs[j] == a;
      }
    }
  }

  /** After settling `u` and relaxing its arcs, sources are still fixed and
      every predecessor link is still an arc consistent with `dist`, its
      source settled before the node it precedes. */
  lemma PrevAfterRelax(g: Adjacency, S: seq<NodeId>, u: NodeId, du: nat, dist0: map<NodeId, Dist>,
                       prev0: map<NodeId, Option<NodeId>>, visited0: set<NodeId>, rank: map<NodeId, nat>,
                       queueP: seq<Entry>, dist: map<NodeId, Dist>, prev: map<NodeId, Option<NodeId>>, queue: seq<Entry>)
    requires SourcesFixed(S, dist0, prev0)
    requires PrevConsistent(g, S, dist0, prev0)
    requires Ranked(prev0, rank) && forall v :: v in rank <==> v in visited0 + {u}
    requires RelaxedUpTo(u, du, Outgoing(g, u), |Outgoing(g, u)|, dist0, prev0, queueP, dist, prev, queue)
    requires forall v :: v in visited0 + {u} ==> Get(dist, v) == Get(dist0, v)
    ensures SourcesFixed(S, dist, prev)
    ensures PrevConsistent(g, S, dist, prev)
    ensures Ranked(prev, rank)
  {
    SourcesAfterRelax(g, S, u, du, dist0, prev0, queueP, dist, prev, queue);
    LinksAfterRelax(g, S, u, du, dist0, prev0, queueP, dist, prev, queue);
    RanksAfterRelax(g, u, du, dist0, prev0, visited0, rank, queueP, dist, prev, queue);
  }

  lemma SourcesAfterRelax(g: Adjacency, S: seq<NodeId>, u: NodeId, du: nat, dist0: map<NodeId, Dist>,
                          prev0: map<NodeId, Option<NodeId>>,
                          queueP: seq<Entry>, dist: map<NodeId, Dist>, prev: map<NodeId, Option<NodeId>>, queue: seq<Entry>)
    requires SourcesFixed(S, dist0, prev0)
    requires RelaxedUpTo(u, du, Outgoing(g, u), |Outgoing(g, u)|, dist0, prev0, queueP, dist, prev, queue)
    ensures SourcesFixed(S, dist, prev)
  {
    forall s | s in S ensures Get(dist, s) == Fin(0) && Prev(prev, s) == None {
      assert AtMost(Get(dist, s), Get(dist0, s));
    }
  }

  lemma LinksAfterRelax(g: Adjacency, S: seq<NodeId>, u: NodeId, du: nat, dist0: map<NodeId, Dist>,
                        prev0: map<NodeId, Option<NodeId>>,
                        queueP: seq<Entry>, dist: map<NodeId, Dist>, prev: map<NodeId, Option<NodeId>>, queue: seq<Entry>)
    requires PrevConsistent(g, S, dist0, prev0)
    requires RelaxedUpTo(u, du, Outgoing(g, u), |Outgoing(g, u)|, dist0, prev0, queueP, dist, prev, queue)
    requires forall v :: Prev(prev0, v).Some? ==> Get(dist, Prev(prev0, v).value) == Get(dist0, Prev(prev0, v).value)
    requires forall v :: Prev(prev0, v).None? && Get(dist0, v).Fin? ==> Get(dist, v) == Get(dist0, v)
    ensures PrevConsistent(g, S, dist, prev)
  {
    var arcs := Outgoing(g, u);
    forall v | Prev(prev, v).Some? ensures Link(g, dist, Prev(prev, v).value, v) {
      if Get(dist, v) == Get(dist0, v) {
        var x := Prev(prev0, v).value;
        assert Link(g, dist0, x, v);
      } else {
        assert Improved(u, du, arcs, dist, prev, queue, v);
      }
    }
    forall v | Prev(prev, v).None? && Get(dist, v).Fin? ensures v in S && Get(dist, v) == Fin(0) {
      assert Get(dist, v) == Get(dist0, v);
    }
  }

  lemma RanksAfterRelax(g: Adjacency, u: NodeId, du: nat, dist0: map<NodeId, Dist>,
                        prev0: map<NodeId, Option<NodeId>>, visited0: set<NodeId>, rank: map<NodeId, nat>,
                        queueP: seq<Entry>, dist: map<NodeId, Dist>, prev: map<NodeId, Option<NodeId>>, queue: seq<Entry>)
    requires Ranked(prev0, rank) && forall v :: v in rank <==> v in visited0 + {u}
    requires RelaxedUpTo(u, du, Outgoing(g, u), |Outgoing(g, u)|, dist0, prev0, queueP, dist, prev, queue)
    requires forall v :: v in visited0 + {u} ==> Get(dist, v) == Get(dist0, v)
    ensures Ranked(prev, rank)
  {
    forall v | Prev(prev, v).Some? ensures Prev(prev, v).value in rank {
      if Get(dist, v) == Get(dist0, v) {
        assert Prev(prev0, v).Some?;
      }
    }
    forall v | Prev(prev, v).Some? && v in rank ensures rank[Prev(prev, v).value] < rank[v] {
      assert Get(dist, v) == Get(dist0, v);
      assert Prev(prev0, v).Some?;
    }
  }

  // ---------------------------------------------------------------------
  // The frontier loop
  // ---------------------------------------------------------------------

  /** All the invariants of the main loop together. */
  ghost predicate SearchInv(g: Adjacency, S: seq<NodeId>, T: seq<NodeId>, U: set<NodeId>,
                            dist: map<NodeId, Dist>, prev: map<NodeId, Option<NodeId>>, queue: seq<Entry>,
                            visited: set<NodeId>, rank: map<NodeId, nat>, expanded: seq<NodeId>)
  {
    && SourcesFixed(S, dist, prev)
    && QueueTracks(dist, queue, visited)
    && Expanded(g, dist, visited)
    && Optimal(g, S, dist, visited)
    && NoTargetSettled(T, visited)
    && PrevConsistent(g, S, dist, prev)
    && Ranked(prev, rank)
    && SettleOrder(dist, visited, rank)
    && InUniverse(U, queue, visited)
    && ExpandedOnce(expanded, visited)
    && (forall v :: v in visited ==> v in expanded)
  }

  /** The set-up before the loop: every node of `Object.keys(adj)`,
      `fromIds` and `toIds` at INF with a null predecessor, then every
      source at 0, and one queue entry `{ node: id, d: 0 }` per source, in
      `fromIds` order. */
  method InitSearch(g: Adjacency, fromIds: seq<NodeId>, toIds: seq<NodeId>)
    returns (dist: map<NodeId, Dist>, prev: map<NodeId, Option<NodeId>>, queue: seq<Entry>)
    ensures dist.Keys == g.Keys + (set id | id in fromIds) + (set id | id in toIds)
    ensures prev.Keys == dist.Keys
    ensures forall v :: v in dist ==> dist[v] == if v in fromIds then Fin(0) else Inf
    ensures forall v :: v in prev ==> prev[v] == None
    ensures queue == seq(|fromIds|, k requires 0 <= k < |fromIds| => Entry(fromIds[k], 0))
  {
    // for (const id of allNodeIds) { dist[id] = INF; prev[id] = null; }
    var allNodeIds := g.Keys + (set id | id in fromIds) + (set id | id in toIds);
    dist, prev := map[], map[];
    var pending := allNodeIds;
    while pending != {}
      invariant pending <= allNodeIds
      invariant dist.Keys == allNodeIds - pending && prev.Keys == allNodeIds - pending
      invariant forall v :: v in dist ==> dist[v] == Inf
      invariant forall v :: v in prev ==> prev[v] == None
      decreases pending
    {
      var id :| id in pending;
      dist := dist[id := Inf];
      prev := prev[id := None];
      pending := pending - {id};
    }
    // for (const id of fromIds) dist[id] = 0;
    for i := 0 to |fromIds|
      invariant dist.Keys == allNodeIds
      invariant forall v :: v in dist ==> dist[v] == if v in fromIds[..i] then Fin(0) else Inf
    {
      assert fromIds[..i + 1] == fromIds[..i] + [fromIds[i]];
      dist := dist[fromIds[i] := Fin(0)];
    }
    assert fromIds[..|fromIds|] == fromIds;
    queue := seq(|fromIds|, k requires 0 <= k < |fromIds| => Entry(fromIds[k], 0));
  }

  /** The set-up state satisfies the loop invariants, nothing settled yet. */
  lemma InitialInvariant(g: Adjacency, S: seq<NodeId>, T: seq<NodeId>,
                         dist: map<NodeId, Dist>, prev: map<NodeId, Option<NodeId>>, queue: seq<Entry>)
    requires forall v :: v in dist ==> dist[v] == if v in S then Fin(0) else Inf
    requires forall s :: s in S ==> s in dist
    requires forall v :: v in prev ==> prev[v] == None
    requires queue == seq(|S|, k requires 0 <= k < |S| => Entry(S[k], 0))
    ensures SearchInv(g, S, T, Universe(g, S), dist, prev, queue, {}, map[], [])
  {
    forall v | Get(dist, v).Fin? ensures Entry(v, Get(dist, v).value) in queue {
      var j :| 0 <= j < |S| && S[j] == v;
      assert queue[j] == Entry(v, 0);
    }
    forall e | e in queue ensures AtMost(Get(dist, e.node), Fin(e.d)) && e.node in Universe(g, S) {
      var j :| 0 <= j < |queue| && queue[j] == e;
      assert e.node == S[j];
    }
  }

  /** Taking an entry of an already settled node off the queue (the
      `continue` branch) keeps the invariants. */
  lemma SkipSettled(g: Adjacency, S: seq<NodeId>, T: seq<NodeId>, U: set<NodeId>,
                    dist: map<NodeId, Dist>, prev: map<NodeId, Option<NodeId>>, queue: seq<Entry>,
                    visited: set<NodeId>, rank: map<NodeId, nat>, expanded: seq<NodeId>, k: nat)
    requires SearchInv(g, S, T, U, dist, prev, queue, visited, rank, expanded)
    requires k < |queue| && queue[k].node in visited
    ensures SearchInv(g, S, T, U, dist, prev, RemoveAt(queue, k), visited, rank, expanded)
  {
    RemoveAtMembers(queue, k);
  }

  /** Settling `u`, the node of the least entry, and relaxing its arcs
      keeps the invariants, with `u` settled, ranked last and expanded. */
  lemma SettleAndRelax(g: Adjacency, S: seq<NodeId>, T: seq<NodeId>, U: set<NodeId>,
                       dist0: map<NodeId, Dist>, prev0: map<NodeId, Option<NodeId>>, queueB: seq<Entry>,
                       visited0: set<NodeId>, rank0: map<NodeId, nat>, expanded0: seq<NodeId>, k: nat,
                       dist: map<NodeId, Dist>, prev: map<NodeId, Option<NodeId>>, queue: seq<Entry>)
    requires U == Universe(g, S)
    requires SearchInv(g, S, T, U, dist0, prev0, queueB, visited0, rank0, expanded0)
    requires k < |queueB| && queueB[k].node !in visited0 && queueB[k].node !in T
    requires forall e :: e in queueB ==> queueB[k].d <= e.d
    requires Get(dist0, queueB[k].node) == Fin(queueB[k].d)
    requires RelaxedUpTo(queueB[k].node, queueB[k].d, Outgoing(g, queueB[k].node), |Outgoing(g, queueB[k].node)|,
                         dist0, prev0, RemoveAt(queueB, k), dist, prev, queue)
    ensures SearchInv(g, S, T, U, dist, prev, queue, visited0 + {queueB[k].node},
                      rank0[queueB[k].node := |rank0|], expanded0 + [queueB[k].node])
  {
    var u, du := queueB[k].node, queueB[k].d;
    var queueP := RemoveAt(queueB, k);
    var visited, rank := visited0 + {u}, rank0[u := |rank0|];
    assert queueB[k] in queueB;
    PopIsOptimal(g, S, dist0, queueB, visited0, du);
    SettleIsOptimal(g, S, dist0, visited0, u, du);
    SettledBelow(dist0, queueB, visited0, u, du);
    SettleKeepsOrder(dist0, visited0, rank0, u, du);
    SettleKeepsRanks(prev0, rank0, u);
    SettledKeepDistance(u, du, Outgoing(g, u), dist0, prev0, queueB, visited0, queueP, dist, prev, queue);
    QueueAfterRelax(g, S, U, u, du, dist0, queueB, visited0, k, queueP, dist, prev0, prev, queue);
    ExpandedAfterRelax(g, u, du, dist0, visited0, queueP, dist, prev0, prev, queue);
    PrevAfterRelax(g, S, u, du, dist0, prev0, visited0, rank, queueP, dist, prev, queue);
    SettledUnchanged(g, S, dist0, dist, visited, rank);
    ExpandOnce(expanded0, visited0, u);
  }

  /** Distances of settled nodes that did not change keep the bounds and
      the settle order. */
  lemma SettledUnchanged(g: Adjacency, S: seq<NodeId>, dist0: map<NodeId, Dist>, dist: map<NodeId, Dist>,
                         visited: set<NodeId>, rank: map<NodeId, nat>)
    requires Optimal(g, S, dist0, visited) && SettleOrder(dist0, visited, rank)
    requires forall v :: v in visited ==> Get(dist, v) == Get(dist0, v)
    ensures Optimal(g, S, dist, visited) && SettleOrder(dist, visited, rank)
  {
    forall v | v in visited ensures Get(dist, v).Fin? && LowerBound(g, S, v, Get(dist, v).value) {
      assert Get(dist, v) == Get(dist0, v);
    }
  }

  /** Expanding a node settled just now, never expanded before, keeps every
      node expanded at most once. */
  lemma ExpandOnce(expanded0: seq<NodeId>, visited0: set<NodeId>, u: NodeId)
    requires ExpandedOnce(expanded0, visited0) && u !in visited0
    requires forall v :: v in visited0 ==> v in expanded0
    ensures ExpandedOnce(expanded0 + [u], visited0 + {u})
    ensures forall v :: v in visited0 + {u} ==> v in expanded0 + [u]
  {
    var expanded := expanded0 + [u];
    forall i, j | 0 <= i < j < |expanded| ensures expanded[i] != expanded[j] {
      if j == |expanded0| {
        assert expanded[i] == expanded0[i];
      }
    }
  }

  /** What the loop learns about the entry it takes off the queue: its node
      is one of the finitely many the queue can mention, and, unless
      already settled, its `d` is that node's current distance. */
  lemma PoppedFacts(g: Adjacency, S: seq<NodeId>, T: seq<NodeId>, U: set<NodeId>,
                    dist: map<NodeId, Dist>, prev: map<NodeId, Option<NodeId>>, queue: seq<Entry>,
                    visited: set<NodeId>, rank: map<NodeId, nat>, expanded: seq<NodeId>, k: nat)
    requires SearchInv(g, S, T, U, dist, prev, queue, visited, rank, expanded)
    requires k < |queue| && forall j :: 0 <= j < |queue| ==> queue[k].d <= queue[j].d
    ensures forall e :: e in queue ==> queue[k].d <= e.d
    ensures queue[k].node in U
    ensures queue[k].node !in visited ==> Get(dist, queue[k].node) == Fin(queue[k].d)
  {
    assert queue[k] in queue;
    if queue[k].node !in visited {
      PoppedIsCurrent(dist, queue, visited, k);
    }
  }

  /** Settling one more node of the finite universe leaves fewer unsettled. */
  lemma SettlingShrinks(U: set<NodeId>, visited: set<NodeId>, u: NodeId)
    requires u in U && u !in visited
    ensures |U - (visited + {u})| < |U - visited|
  {
    assert U - visited == (U - (visited + {u})) + {u};
    assert u !in U - (visited + {u});
  }

  /** The search stops at the first settled target `u`: its distance is
      the least travel time from a source to any target. */
  lemma ReachedTarget(g: Adjacency, S: seq<NodeId>, T: seq<NodeId>, U: set<NodeId>,
                      dist: map<NodeId, Dist>, prev: map<NodeId, Option<NodeId>>, queueB: seq<Entry>,
                      visited0: set<NodeId>, rank0: map<NodeId, nat>, expanded: seq<NodeId>, k: nat)
    requires SearchInv(g, S, T, U, dist, prev, queueB, visited0, rank0, expanded)
    requires k < |queueB| && queueB[k].node !in visited0 && queueB[k].node in T
    requires forall e :: e in queueB ==> queueB[k].d <= e.d
    ensures SourcesFixed(S, dist, prev) && PrevConsistent(g, S, dist, prev)
    ensures Optimal(g, S, dist, visited0 + {queueB[k].node})
    ensures Ranked(prev, rank0[queueB[k].node := |rank0|])
    ensures SettleOrder(dist, visited0 + {queueB[k].node}, rank0[queueB[k].node := |rank0|])
    ensures ExpandedOnce(expanded, visited0 + {queueB[k].node})
    ensures Get(dist, queueB[k].node) == Fin(queueB[k].d)
    ensures SetLowerBound(g, S, T, queueB[k].d)
  {
    var u, du := queueB[k].node, queueB[k].d;
    assert queueB[k] in queueB;
    PoppedIsCurrent(dist, queueB, visited0, k);
    PopIsOptimal(g, S, dist, queueB, visited0, du);
    SettleIsOptimal(g, S, dist, visited0, u, du);
    SettledBelow(dist, queueB, visited0, u, du);
    SettleKeepsOrder(dist, visited0, rank0, u, du);
    SettleKeepsRanks(prev, rank0, u);
  }

  /** The queue ran dry before any target was settled: no walk from a
      source reaches a target, and every target is still at INF. */
  lemma NoTargetReachable(g: Adjacency, S: seq<NodeId>, T: seq<NodeId>, U: set<NodeId>,
                          dist: map<NodeId, Dist>, prev: map<NodeId, Option<NodeId>>,
                          visited: set<NodeId>, rank: map<NodeId, nat>, expanded: seq<NodeId>)
    requires SearchInv(g, S, T, U, dist, prev, [], visited, rank, expanded)
    ensures !Reaches(g, S, T)
    ensures forall t :: t in T ==> Get(dist, t) == Inf
  {
    forall s, p | s in S && IsWalk(g, s, p) ensures End(s, p) !in T {
      ExhaustedUnreachable(g, S, dist, visited, s, p);
    }
  }

  /** What the search guarantees on return. Every settled node's distance
      is the shortest travel time from any source; sources sit at 0 with
      no predecessor; each predecessor link is an arc whose weight is the
      difference of the two distances, and its source was settled earlier;
      nodes were settled in non-decreasing distance order and each was
      expanded at most once. Either a target `reached` was settled, and no
      walk from a source to any target is shorter than its distance, or no
      walk from a source reaches any target and every target is at INF. */
  ghost predicate Outcome(g: Adjacency, S: seq<NodeId>, T: seq<NodeId>,
                          dist: map<NodeId, Dist>, prev: map<NodeId, Option<NodeId>>, visited: set<NodeId>,
                          rank: map<NodeId, nat>, expanded: seq<NodeId>, reached: Option<NodeId>)
  {
    && SourcesFixed(S, dist, prev)
    && Optimal(g, S, dist, visited)
    && PrevConsistent(g, S, dist, prev)
    && Ranked(prev, rank)
    && SettleOrder(dist, visited, rank)
    && ExpandedOnce(expanded, visited)
    && (reached.None? ==> !Reaches(g, S, T) && forall t :: t in T ==> Get(dist, t) == Inf)
    && (reached.Some? ==>
          reached.value in T && reached.value in visited && Get(dist, reached.value).Fin? &&
          SetLowerBound(g, S, T, Get(dist, reached.value).value))
  }

  /** The main loop, `while (queue.length)`: take the first minimal entry
      off the queue, skip it if its node is already `visited`, settle the
      node, stop if the node is a target, and otherwise relax its arcs. */
  method Search(g: Adjacency, S: seq<NodeId>, T: seq<NodeId>, ghost U: set<NodeId>,
                dist0: map<NodeId, Dist>, prev0: map<NodeId, Option<NodeId>>, queue0: seq<Entry>)
    returns (dist: map<NodeId, Dist>, prev: map<NodeId, Option<NodeId>>, visited: set<NodeId>,
             ghost rank: map<NodeId, nat>, ghost expanded: seq<NodeId>, ghost reached: Option<NodeId>)
    requires U == Universe(g, S)
    requires SearchInv(g, S, T, U, dist0, prev0, queue0, {}, map[], [])
    ensures Outcome(g, S, T, dist, prev, visited, rank, expanded, reached)
  {
    var queue;
    dist, prev, queue, visited := dist0, prev0, queue0, {};
    rank, expanded, reached := map[], [], None;
    while queue != []
      invariant SearchInv(g, S, T, U, dist, prev, queue, visited, rank, expanded)
      decreases |U - visited|, |queue|
    {
      var minIdx := FindMin(queue);
      var u := queue[minIdx].node;
      ghost var queueB := queue;
      queue := RemoveAt(queue, minIdx);          // queue.splice(minIdx, 1)
      PoppedFacts(g, S, T, U, dist, prev, queueB, visited, rank, expanded, minIdx);
      if u in visited {
        SkipSettled(g, S, T, U, dist, prev, queueB, visited, rank, expanded, minIdx);
        continue;
      }
      ghost var visited0, rank0, expanded0 := visited, rank, expanded;
      SettlingShrinks(U, visited0, u);
      visited := visited + {u};
      rank := rank[u := |rank|];
      if u in T {
        // the first settled target ends the search
        ReachedTarget(g, S, T, U, dist, prev, queueB, visited0, rank0, expanded, minIdx);
        reached := Some(u);
        return;
      }
      expanded := expanded + [u];
      ghost var distB, prevB := dist, prev;
      dist, prev, queue := Relax(u, Outgoing(g, u), dist, prev, queue);
      SettleAndRelax(g, S, T, U, distB, prevB, queueB, visited0, rank0, expanded0, minIdx, dist, prev, queue);
    }
    NoTargetReachable(g, S, T, U, dist, prev, visited, rank, expanded);
  }

  /** Multi-source Dijkstra, as the route handler runs it: the set-up of
      `InitSearch`, then the main loop of `Search`. */
  method ShortestPaths(g: Adjacency, fromIds: seq<NodeId>, toIds: seq<NodeId>)
    returns (dist: map<NodeId, Dist>, prev: map<NodeId, Option<NodeId>>, visited: set<NodeId>,
             ghost rank: map<NodeId, nat>, ghost expanded: seq<NodeId>, ghost reached: Option<NodeId>)
    ensures SourcesFixed(fromIds, dist, prev)
    ensures Optimal(g, fromIds, dist, visited)
    ensures PrevConsistent(g, fromIds, dist, prev)
    ensures Ranked(prev, rank)
    ensures SettleOrder(dist, visited, rank)
    ensures ExpandedOnce(expanded, visited)
    ensures reached.None? ==> !Reaches(g, fromIds, toIds) && forall t :: t in toIds ==> Get(dist, t) == Inf
    ensures reached.Some? ==>
      reached.value in toIds && reached.value in visited && Get(dist, reached.value).Fin? &&
      SetLowerBound(g, fromIds, toIds, Get(dist, reached.value).value)
  {
    var dist0, prev0, queue0 := InitSearch(g, fromIds, toIds);
    InitialInvariant(g, fromIds, toIds, dist0, prev0, queue0);
    dist, prev, visited, rank, expanded, reached := Search(g, fromIds, toIds, Universe(g, fromIds), dist0, prev0, queue0);
  }

  // ---------------------------------------------------------------------
  // Best target
  // ---------------------------------------------------------------------

  /** `for (const id of toIds) if (dist[id] < bestDist) { bestDist = dist[id]; bestEnd = id; }`
      starting from `bestEnd = null`, `bestDist = INF`: the least distance
      over the targets, the FIRST target in `toIds` order winning a tie;
      no best target exactly when every target is at INF. */
  method PickBest(toIds: seq<NodeId>, dist: map<NodeId, Dist>) returns (bestEnd: Option<NodeId>, bestDist: Dist)
    ensures bestEnd.None? <==> bestDist.Inf?
    ensures bestEnd.None? <==> forall t :: t in toIds ==> Get(dist, t).Inf?
    ensures forall t :: t in toIds ==> AtMost(bestDist, Get(dist, t))
    ensures bestEnd.Some? ==>
      exists k :: 0 <= k < |toIds| && toIds[k] == bestEnd.value && Get(dist, toIds[k]) == bestDist &&
        forall j :: 0 <= j < k ==> Below(bestDist.value, Get(dist, toIds[j]))
  {
    bestEnd, bestDist := None, Inf;
    ghost var k := 0;
    for i := 0 to |toIds|
      invariant bestEnd.None? <==> bestDist.Inf?
      invariant bestEnd.None? <==> forall j :: 0 <= j < i ==> Get(dist, toIds[j]).Inf?
      invariant forall j :: 0 <= j < i ==> AtMost(bestDist, Get(dist, toIds[j]))
      invariant bestEnd.Some? ==>
        k < i && toIds[k] == bestEnd.value && Get(dist, toIds[k]) == bestDist &&
        forall j :: 0 <= j < k ==> Below(bestDist.value, Get(dist, toIds[j]))
    {
      var d := Get(dist, toIds[i]);
      if d.Fin? && Below(d.value, bestDist) {
        bestDist := d;
        bestEnd := Some(toIds[i]);
        k := i;
      }
    }
  }
}
