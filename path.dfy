/** Path reconstruction of the route handler: backtracking the predecessor
    links from the chosen target, reversing, and mapping the ids to the
    stop metadata of `nodeMap`. */
module Path {
  import opened Graph
  import opened GraphBuilder
  import opened Solver

  /** `s` in reverse order. */
  function Reverse<T>(s: seq<T>): (r: seq<T>)
    ensures |r| == |s|
    ensures forall i :: 0 <= i < |s| ==> r[i] == s[|s| - 1 - i]
  {
    if s == [] then []
    else
      var r := Reverse(s[1..]) + [s[0]];
      assert forall i :: 0 <= i < |s| - 1 ==> r[i] == s[1..][|s| - 2 - i];
      r
  }

  /** The ids met by following `prev` from `v` until a null (or missing)
      predecessor: `v`, `prev[v]`, `prev[prev[v]]`, ... It is well defined
      because every predecessor was settled before the node it precedes. */
  ghost function Chain(prev: map<NodeId, Option<NodeId>>, rank: map<NodeId, nat>, v: NodeId): (c: seq<NodeId>)
    requires Ranked(prev, rank)
    ensures |c| >= 1 && c[0] == v
    ensures Prev(prev, c[|c| - 1]).None?
    decreases if v in rank then 1 else 2, if v in rank then rank[v] else 0
  {
    match Prev(prev, v)
    case None => [v]
    case Some(x) => [v] + Chain(prev, rank, x)
  }

  /** What is left to collect when the backtracking cursor is `cur`. */
  ghost function Rest(prev: map<NodeId, Option<NodeId>>, rank: map<NodeId, nat>, cur: Option<NodeId>): seq<NodeId>
    requires Ranked(prev, rank)
  {
    if cur.None? then [] else Chain(prev, rank, cur.value)
  }

  /** The backtracking measure: a cursor past the chain's start is lowest,
      then settled nodes by settle rank, then a node never settled. */
  ghost function Tier(rank: map<NodeId, nat>, cur: Option<NodeId>): nat
  {
    if cur.None? then 0 else if cur.value in rank then 1 else 2
  }

  ghost function Level(rank: map<NodeId, nat>, cur: Option<NodeId>): nat
  {
    if cur.Some? && cur.value in rank then rank[cur.value] else 0
  }

  /** One backtracking step collects `c` and moves to `prev[c]`, which was
      settled before `c`. */
  lemma RestStep(prev: map<NodeId, Option<NodeId>>, rank: map<NodeId, nat>, c: NodeId)
    requires Ranked(prev, rank)
    ensures Rest(prev, rank, Some(c)) == [c] + Rest(prev, rank, Prev(prev, c))
    ensures Tier(rank, Prev(prev, c)) < Tier(rank, Some(c)) ||
            (Tier(rank, Prev(prev, c)) == Tier(rank, Some(c)) && Level(rank, Prev(prev, c)) < Level(rank, Some(c)))
  {
  }

  /** `while (cur != null) { pathIds.push(cur); cur = prev[cur]; }`: the
      ids met backtracking from `bestEnd`, in backtracking order. */
  method Backtrack(prev: map<NodeId, Option<NodeId>>, bestEnd: NodeId, ghost rank: map<NodeId, nat>)
    returns (rev: seq<NodeId>)
    requires Ranked(prev, rank)
    ensures rev == Chain(prev, rank, bestEnd)
  {
    ghost var chain := Chain(prev, rank, bestEnd);
    rev := [];
    var cur: Option<NodeId> := Some(bestEnd);
    while cur.Some?
      invariant rev + Rest(prev, rank, cur) == chain
      decreases Tier(rank, cur), Level(rank, cur)
    {
      var c := cur.value;
      RestStep(prev, rank, c);
      ghost var rest := Rest(prev, rank, Prev(prev, c));
      AppendOne(rev, c, rest);
      rev := rev + [c];
      cur := Prev(prev, c);
    }
  }

  lemma AppendOne(a: seq<NodeId>, c: NodeId, r: seq<NodeId>)
    ensures (a + [c]) + r == a + ([c] + r)
  {
  }

  /** `pathIds.reverse()` after the backtracking: the path from a source to
      `bestEnd`, each id followed by the one it is the predecessor of. */
  method Reconstruct(prev: map<NodeId, Option<NodeId>>, bestEnd: NodeId, ghost rank: map<NodeId, nat>)
    returns (pathIds: seq<NodeId>)
    requires Ranked(prev, rank)
    ensures pathIds == Reverse(Chain(prev, rank, bestEnd))
    ensures |pathIds| >= 1 && pathIds[|pathIds| - 1] == bestEnd && Prev(prev, pathIds[0]).None?
  {
    var rev := Backtrack(prev, bestEnd, rank);
    pathIds := Reverse(rev);
    PathEnds(prev, rank, bestEnd);
  }

  /** The reversed chain ends at the node backtracked from and starts at a
      node with no predecessor. */
  lemma PathEnds(prev: map<NodeId, Option<NodeId>>, rank: map<NodeId, nat>, v: NodeId)
    requires Ranked(prev, rank)
    ensures var path := Reverse(Chain(prev, rank, v));
      |path| >= 1 && path[|path| - 1] == v && Prev(prev, path[0]).None?
  {
    var c := Chain(prev, rank, v);
    assert Reverse(c)[|c| - 1] == c[0];
    assert Reverse(c)[0] == c[|c| - 1];
  }

  /** The reversed chain grows at its end. */
  lemma ReverseCons<T>(x: T, t: seq<T>)
    ensures Reverse([x] + t) == Reverse(t) + [x]
  {
    assert ([x] + t)[1..] == t;
  }

  /** The reconstructed path is a walk: backtracking from any node with a
      finite distance ends at a source, and the ids in reverse order are
      the nodes of a walk from that source to the node whose total travel
      time is the node's distance. */
  lemma {:induction false} ChainIsWalk(g: Adjacency, S: seq<NodeId>, dist: map<NodeId, Dist>,
                                       prev: map<NodeId, Option<NodeId>>, rank: map<NodeId, nat>, v: NodeId)
    returns (s: NodeId, p: seq<Step>)
    requires PrevConsistent(g, S, dist, prev) && Ranked(prev, rank)
    requires Get(dist, v).Fin?
    ensures s in S && IsWalk(g, s, p) && End(s, p) == v && Weight(p) == Get(dist, v).value
    ensures Nodes(s, p) == Reverse(Chain(prev, rank, v))
    decreases if v in rank then 1 else 2, if v in rank then rank[v] else 0
  {
    match Prev(prev, v)
    case None =>
      s, p := v, [];
    case Some(x) =>
      assert Link(g, dist, x, v);
      var q;
      s, q := ChainIsWalk(g, S, dist, prev, rank, x);
      var e := Step(x, v, Get(dist, v).value - Get(dist, x).value);
      WalkExtend(g, s, q, e);
      p := q + [e];
      ReverseCons(v, Chain(prev, rank, x));
  }

  /** A settled node's distance is the shortest travel time from the
      sources to it: no walk is shorter, and the predecessor links give a
      walk of exactly that weight. */
  lemma SettledIsShortest(g: Adjacency, S: seq<NodeId>, dist: map<NodeId, Dist>, prev: map<NodeId, Option<NodeId>>,
                          visited: set<NodeId>, rank: map<NodeId, nat>, v: NodeId)
    requires Optimal(g, S, dist, visited) && PrevConsistent(g, S, dist, prev) && Ranked(prev, rank)
    requires v in visited
    ensures Get(dist, v).Fin? && IsShortest(g, S, [v], Get(dist, v).value)
  {
    var s, p := ChainIsWalk(g, S, dist, prev, rank, v);
    assert End(s, p) in [v];
  }

  /** A walk's node list starts at its start and ends at its end. */
  lemma {:induction false} NodesEnds(s: NodeId, p: seq<Step>)
    ensures |Nodes(s, p)| == |p| + 1
    ensures Nodes(s, p)[0] == s && Nodes(s, p)[|p|] == End(s, p)
  {
    if p != [] {
      NodesEnds(s, p[..|p| - 1]);
    }
  }

  // ---------------------------------------------------------------------
  // Stop metadata
  // ---------------------------------------------------------------------

  /** `pathIds.map((id) => nodeMap[id] ? {...} : null).filter(Boolean)`:
      the metadata of each id, in order, ids without metadata dropped. */
  function StopsOf(nodeMap: map<NodeId, NodeInfo>, ids: seq<NodeId>): (stops: seq<NodeInfo>)
    ensures |stops| <= |ids|
    ensures forall x :: x in stops ==> exists id :: id in ids && id in nodeMap && nodeMap[id] == x
  {
    if ids == [] then []
    else
      var init, last := ids[..|ids| - 1], ids[|ids| - 1];
      var r := StopsOf(nodeMap, init) + (if last in nodeMap then [nodeMap[last]] else []);
      assert forall x :: x in StopsOf(nodeMap, init) ==> exists id :: id in ids && id in nodeMap && nodeMap[id] == x by {
        forall x | x in StopsOf(nodeMap, init) ensures exists id :: id in ids && id in nodeMap && nodeMap[id] == x {
          var id :| id in init && id in nodeMap && nodeMap[id] == x;
          assert id in ids;
        }
      }
      r
  }

  /** Mapping distributes over concatenation. */
  lemma {:induction false} StopsOfAppend(nodeMap: map<NodeId, NodeInfo>, a: seq<NodeId>, b: seq<NodeId>)
    ensures StopsOf(nodeMap, a + b) == StopsOf(nodeMap, a) + StopsOf(nodeMap, b)
  {
    if b == [] {
      assert a + b == a;
    } else {
      var b' := b[..|b| - 1];
      assert (a + b)[..|a + b| - 1] == a + b';
      assert (a + b)[|a + b| - 1] == b[|b| - 1];
      StopsOfAppend(nodeMap, a, b');
    }
  }

  /** An id without metadata is dropped and leaves the rest as they were. */
  lemma StopsOfDropsUnknown(nodeMap: map<NodeId, NodeInfo>, a: seq<NodeId>, x: NodeId, b: seq<NodeId>)
    requires x !in nodeMap
    ensures StopsOf(nodeMap, a + [x] + b) == StopsOf(nodeMap, a + b)
  {
    StopsOfAppend(nodeMap, a + [x], b);
    StopsOfAppend(nodeMap, a, [x]);
    StopsOfAppend(nodeMap, a, b);
    assert [x][..0] == [];
  }

  /** An id with metadata contributes its entry, in its place. */
  lemma StopsOfKeepsKnown(nodeMap: map<NodeId, NodeInfo>, a: seq<NodeId>, x: NodeId, b: seq<NodeId>)
    requires x in nodeMap
    ensures StopsOf(nodeMap, a + [x] + b) == StopsOf(nodeMap, a) + [nodeMap[x]] + StopsOf(nodeMap, b)
  {
    StopsOfAppend(nodeMap, a + [x], b);
    StopsOfAppend(nodeMap, a, [x]);
    assert [x][..0] == [];
  }

  /** When every id has metadata nothing is dropped: stop `i` is the
      metadata of id `i`. */
  lemma {:induction false} StopsOfAllKnown(nodeMap: map<NodeId, NodeInfo>, ids: seq<NodeId>)
    requires forall id :: id in ids ==> id in nodeMap
    ensures |StopsOf(nodeMap, ids)| == |ids|
    ensures forall i :: 0 <= i < |ids| ==> StopsOf(nodeMap, ids)[i] == nodeMap[ids[i]]
  {
    if ids != [] {
      var init := ids[..|ids| - 1];
      assert forall id :: id in init ==> id in ids;
      StopsOfAllKnown(nodeMap, init);
    }
  }

  /** The first stop is the metadata of the first id when that id is known,
      and likewise the last. */
  lemma StopsOfEnds(nodeMap: map<NodeId, NodeInfo>, ids: seq<NodeId>)
    requires |ids| >= 1 && ids[0] in nodeMap && ids[|ids| - 1] in nodeMap
    ensures |StopsOf(nodeMap, ids)| >= 1
    ensures StopsOf(nodeMap, ids)[0] == nodeMap[ids[0]]
    ensures StopsOf(nodeMap, ids)[|StopsOf(nodeMap, ids)| - 1] == nodeMap[ids[|ids| - 1]]
  {
    StopsOfAppend(nodeMap, [ids[0]], ids[1..]);
    assert [ids[0]] + ids[1..] == ids;
    assert StopsOf(nodeMap, [ids[0]]) == [nodeMap[ids[0]]] by {
      assert [ids[0]][..0] == [];
    }
  }
}
