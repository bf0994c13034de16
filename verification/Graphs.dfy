/** Finite directed graphs with ordered successor lists, and paths that stay inside a node set. */
module Graphs {
  import opened Reachability

  type Node = nat

  /** A basic-block graph: `out[n]` lists the targets of the out-edges of `n` in iteration order. */
  datatype Graph = Graph(nodes: set<Node>, out: map<Node, seq<Node>>) {

    ghost predicate Valid() {
      && out.Keys == nodes
      && forall n, s :: n in nodes && s in out[n] ==> s in nodes
    }

    predicate Edge(u: Node, v: Node) {
      u in out && v in out[u]
    }
  }

  /** The edges between nodes of `S`. */
  function EdgesWithin(g: Graph, S: set<Node>): Pairs {
    set x, y | x in S && x in g.out && y in g.out[x] && y in S :: (x, y)
  }

  /** There is a path from `a` to `b` all of whose nodes, ends included, are in `S`. */
  ghost predicate PathIn(g: Graph, S: set<Node>, a: Node, b: Node) {
    a in S && Reach(EdgesWithin(g, S), a, b)
  }

  /** Some path inside `S` from `a` ends in an edge to a node of `T`. */
  ghost predicate Escapes(g: Graph, S: set<Node>, a: Node, T: set<Node>) {
    exists z, y :: z in S && y in T && PathIn(g, S, a, z) && g.Edge(z, y)
  }

  lemma PathSelf(g: Graph, S: set<Node>, a: Node)
    requires a in S
    ensures PathIn(g, S, a, a)
  {
    ReachSelf(EdgesWithin(g, S), a);
  }

  lemma PathTrans(g: Graph, S: set<Node>, a: Node, b: Node, c: Node)
    requires PathIn(g, S, a, b) && PathIn(g, S, b, c)
    ensures PathIn(g, S, a, c)
  {
    ReachTrans(EdgesWithin(g, S), a, b, c);
  }

  lemma PathStep(g: Graph, S: set<Node>, a: Node, b: Node)
    requires a in S && b in S && g.Edge(a, b)
    ensures PathIn(g, S, a, b)
  {
    ReachStep(EdgesWithin(g, S), a, b);
  }

  lemma PathMono(g: Graph, S: set<Node>, S': set<Node>, a: Node, b: Node)
    requires PathIn(g, S, a, b) && S <= S'
    ensures PathIn(g, S', a, b)
  {
    ReachMono(EdgesWithin(g, S), EdgesWithin(g, S'), a, b);
  }

  lemma PathEnds(g: Graph, S: set<Node>, a: Node, b: Node)
    requires PathIn(g, S, a, b)
    ensures a in S && b in S
  {
    ClosedReach(EdgesWithin(g, S), S, a, b);
  }

  lemma EscapesMono(g: Graph, S: set<Node>, S': set<Node>, a: Node, T: set<Node>)
    requires Escapes(g, S, a, T) && S <= S'
    ensures Escapes(g, S', a, T)
  {
    var z, y :| z in S && y in T && PathIn(g, S, a, z) && g.Edge(z, y);
    PathMono(g, S, S', a, z);
  }

  lemma EscapesAfter(g: Graph, S: set<Node>, a: Node, b: Node, T: set<Node>)
    requires PathIn(g, S, a, b) && Escapes(g, S, b, T)
    ensures Escapes(g, S, a, T)
  {
    var z, y :| z in S && y in T && PathIn(g, S, b, z) && g.Edge(z, y);
    PathTrans(g, S, a, b, z);
  }

  lemma EscapesByEdge(g: Graph, S: set<Node>, a: Node, z: Node, y: Node, T: set<Node>)
    requires PathIn(g, S, a, z) && g.Edge(z, y) && y in T
    ensures Escapes(g, S, a, T)
  {
    PathEnds(g, S, a, z);
  }

  /** Inside `S`, `a` reaches `b`, or it reaches an edge into `T`. */
  ghost predicate Returns(g: Graph, S: set<Node>, a: Node, b: Node, T: set<Node>) {
    PathIn(g, S, a, b) || Escapes(g, S, a, T)
  }

  lemma ReturnsMono(g: Graph, S: set<Node>, S': set<Node>, a: Node, b: Node, T: set<Node>)
    requires S <= S' && Returns(g, S, a, b, T)
    ensures Returns(g, S', a, b, T)
  {
    if PathIn(g, S, a, b) {
      PathMono(g, S, S', a, b);
    } else {
      EscapesMono(g, S, S', a, T);
    }
  }

  /** Escaping from `B` into `A` or `T`, when all of `A` returns to `b` or escapes to `T`. */
  lemma EscapeThenReturn(g: Graph, A: set<Node>, B: set<Node>, x: Node, b: Node, T: set<Node>)
    requires Escapes(g, B, x, A + T)
    requires forall z :: z in A ==> Returns(g, A, z, b, T)
    ensures Returns(g, A + B, x, b, T)
  {
    var z, y :| z in B && y in A + T && PathIn(g, B, x, z) && g.Edge(z, y);
    hide PathIn, Escapes;
    PathMono(g, B, A + B, x, z);
    if y in T {
      EscapesByEdge(g, A + B, x, z, y, T);
    } else {
      PathStep(g, A + B, z, y);
      PathTrans(g, A + B, x, z, y);
      ReturnsMono(g, A, A + B, y, b, T);
      if PathIn(g, A + B, y, b) {
        PathTrans(g, A + B, x, y, b);
      } else {
        EscapesAfter(g, A + B, x, y, T);
      }
    }
  }

  /** A set closed under the edges inside `S` holds everything a member reaches inside `S`. */
  lemma ClosedUnderPaths(g: Graph, S: set<Node>, T: set<Node>, a: Node, b: Node)
    requires PathIn(g, S, a, b) && a in T
    requires forall x, y :: x in T && x in S && y in S && g.Edge(x, y) ==> y in T
    ensures b in T
  {
    ClosedReach(EdgesWithin(g, S), T, a, b);
  }

  /** The nodes reachable from `entry`. */
  ghost function Reachable(g: Graph, entry: Node): set<Node> {
    set n | n in g.nodes && PathIn(g, g.nodes, entry, n)
  }

  lemma ReachableClosed(g: Graph, entry: Node)
    requires g.Valid() && entry in g.nodes
    ensures entry in Reachable(g, entry)
    ensures forall x, y :: x in Reachable(g, entry) && g.Edge(x, y) ==> y in Reachable(g, entry)
  {
    PathSelf(g, g.nodes, entry);
    forall x, y | x in Reachable(g, entry) && g.Edge(x, y)
      ensures y in Reachable(g, entry)
    {
      PathStep(g, g.nodes, x, y);
      PathTrans(g, g.nodes, entry, x, y);
    }
  }
}
