/** Vocabulary shared by the route engine: station_line ids, the directed
    adjacency built from connection rows, tentative distances with an INF
    sentinel, and walks through the graph with their total travel time. */
module Graph {

  /** station_lines ids are opaque UUID strings, used as map keys. */
  type NodeId = string

  datatype Option<+T> = None | Some(value: T)

  /** One entry of an adjacency list, `{ node, weight }`. */
  datatype Arc = Arc(node: NodeId, weight: nat)

  /** The adjacency `adj`: a node id to its outgoing arcs. */
  type Adjacency = map<NodeId, seq<Arc>>

  /** A tentative distance. `Inf` is the INF sentinel, larger than every
      feasible sum of travel times. */
  datatype Dist = Inf | Fin(value: nat)

  /** `adj[u] || []` */
  function Outgoing(g: Adjacency, u: NodeId): seq<Arc>
  {
    if u in g then g[u] else []
  }

  /** `dist[v]`, where a node that was never given a distance reads as INF. */
  function Get(dist: map<NodeId, Dist>, v: NodeId): Dist
  {
    if v in dist then dist[v] else Inf
  }

  /** `prev[v]`, where a missing entry reads as `null`. */
  function Prev(prev: map<NodeId, Option<NodeId>>, v: NodeId): Option<NodeId>
  {
    if v in prev then prev[v] else None
  }

  /** `alt < dist[v]` with INF above every finite value. */
  predicate Below(alt: nat, d: Dist)
  {
    d.Inf? || alt < d.value
  }

  /** `a <= b` with INF above every finite value. */
  predicate AtMost(a: Dist, b: Dist)
  {
    b.Inf? || (a.Fin? && a.value <= b.value)
  }

  /** Taking one arc: from `from` to `to` at cost `weight`. */
  datatype Step = Step(from: NodeId, to: NodeId, weight: nat)

  /** `p` is a walk in `g` that starts at `s`: every step follows an arc of
      `g` in its declared direction, and each step starts where the previous
      one ended. */
  ghost predicate IsWalk(g: Adjacency, s: NodeId, p: seq<Step>)
  {
    forall i :: 0 <= i < |p| ==>
      Arc(p[i].to, p[i].weight) in Outgoing(g, p[i].from) &&
      p[i].from == (if i == 0 then s else p[i - 1].to)
  }

  function End(s: NodeId, p: seq<Step>): NodeId
  {
    if p == [] then s else p[|p| - 1].to
  }

  /** Total travel time of a walk. */
  function Weight(p: seq<Step>): nat
  {
    if p == [] then 0 else Weight(p[..|p| - 1]) + p[|p| - 1].weight
  }

  /** The node ids a walk visits, start included. */
  function Nodes(s: NodeId, p: seq<Step>): seq<NodeId>
  {
    if p == [] then [s] else Nodes(s, p[..|p| - 1]) + [p[|p| - 1].to]
  }

  /** No walk from a source in `S` to `v` is shorter than `d`. */
  ghost predicate LowerBound(g: Adjacency, S: seq<NodeId>, v: NodeId, d: nat)
  {
    forall s, p :: s in S && IsWalk(g, s, p) && End(s, p) == v ==> d <= Weight(p)
  }

  /** No walk from a source in `S` to any target in `T` is shorter than `d`. */
  ghost predicate SetLowerBound(g: Adjacency, S: seq<NodeId>, T: seq<NodeId>, d: nat)
  {
    forall s, p :: s in S && IsWalk(g, s, p) && End(s, p) in T ==> d <= Weight(p)
  }

  /** Some walk leads from a source in `S` to a target in `T`. */
  ghost predicate Reaches(g: Adjacency, S: seq<NodeId>, T: seq<NodeId>)
  {
    exists s, p :: s in S && IsWalk(g, s, p) && End(s, p) in T
  }

  /** `d` is the shortest travel time from the source set to the target set. */
  ghost predicate IsShortest(g: Adjacency, S: seq<NodeId>, T: seq<NodeId>, d: nat)
  {
    SetLowerBound(g, S, T, d) &&
    exists s, p :: s in S && IsWalk(g, s, p) && End(s, p) in T && Weight(p) == d
  }

  /** The prefix of a walk, without its last step, is a walk that ends where
      the last step starts. */
  lemma WalkPrefix(g: Adjacency, s: NodeId, p: seq<Step>)
    requires IsWalk(g, s, p) && p != []
    ensures IsWalk(g, s, p[..|p| - 1])
    ensures End(s, p[..|p| - 1]) == p[|p| - 1].from
  {
    var q := p[..|p| - 1];
    forall i | 0 <= i < |q|
      ensures Arc(q[i].to, q[i].weight) in Outgoing(g, q[i].from)
      ensures q[i].from == (if i == 0 then s else q[i - 1].to)
    {
      assert q[i] == p[i];
      assert Arc(p[i].to, p[i].weight) in Outgoing(g, p[i].from);
      if i > 0 { assert q[i - 1] == p[i - 1]; }
    }
    assert IsWalk(g, s, q);
    var n := |p| - 1;
    assert p[n].from == (if n == 0 then s else p[n - 1].to);
  }

  /** A walk extended by an arc out of its end is a walk. */
  lemma WalkExtend(g: Adjacency, s: NodeId, p: seq<Step>, e: Step)
    requires IsWalk(g, s, p)
    requires e.from == End(s, p) && Arc(e.to, e.weight) in Outgoing(g, e.from)
    ensures IsWalk(g, s, p + [e])
    ensures End(s, p + [e]) == e.to
    ensures Weight(p + [e]) == Weight(p) + e.weight
    ensures Nodes(s, p + [e]) == Nodes(s, p) + [e.to]
  {
    assert (p + [e])[..|p + [e]| - 1] == p;
  }
}
