/** The top-level components of a correct tree are the strongly connected components of the
    graph it covers, and a cycle component stands exactly where the graph has a cycle. */
module WtoComponents {
  import opened Graphs
  import opened Reachability
  import opened WtoTree

  lemma {:induction false} TopIndex(cs: seq<Comp>, n: Node) returns (i: nat)
    requires n in Nodes(cs)
    ensures i < |cs| && n in NodesOf(cs[i])
  {
    if n in NodesOf(cs[0]) {
      i := 0;
    } else {
      i := TopIndex(cs[1..], n);
      i := i + 1;
    }
  }

  lemma {:induction false} TopNodes(cs: seq<Comp>, i: nat)
    requires i < |cs|
    ensures NodesOf(cs[i]) <= Nodes(cs)
  {
    if i > 0 {
      TopNodes(cs[1..], i - 1);
    }
  }

  lemma {:induction false} TopUnique(cs: seq<Comp>, i: nat, j: nat, n: Node)
    requires Distinct(cs) && i <= j < |cs| && n in NodesOf(cs[i]) && n in NodesOf(cs[j])
    ensures i == j
  {
    if i > 0 {
      TopUnique(cs[1..], i - 1, j - 1, n);
    } else if j > 0 {
      TopNodes(cs[1..], j - 1);
    }
  }

  lemma {:induction false} TopEdgeForward(g: Graph, cs: seq<Comp>, i: nat, j: nat, u: Node, v: Node)
    requires EdgesOK(g, cs) && i < |cs| && j < |cs|
    requires u in NodesOf(cs[i]) && v in NodesOf(cs[j]) && g.Edge(u, v)
    ensures i <= j
  {
    if j < i {
      if j == 0 {
        TopNodes(cs[1..], i - 1);
      } else {
        TopEdgeForward(g, cs[1..], i - 1, j - 1, u, v);
      }
    }
  }

  lemma TopPathForward(g: Graph, cs: seq<Comp>, i: nat, j: nat, u: Node, v: Node)
    requires Correct(g, cs) && i < |cs| && j < |cs|
    requires u in NodesOf(cs[i]) && v in NodesOf(cs[j]) && PathIn(g, Nodes(cs), u, v)
    ensures i <= j
  {
    var p :| Links(EdgesWithin(g, Nodes(cs)), p, u, v);
    var k, at := 0, i;
    while k + 1 < |p|
      invariant 0 <= k < |p| && i <= at < |cs| && p[k] in NodesOf(cs[at])
    {
      assert (p[k + 1 - 1], p[k + 1]) in EdgesWithin(g, Nodes(cs));
      var next := TopIndex(cs, p[k + 1]);
      TopEdgeForward(g, cs, at, next, p[k], p[k + 1]);
      k, at := k + 1, next;
    }
    if j <= at {
      TopUnique(cs, j, at, v);
    }
  }

  lemma {:induction false} TopLoop(g: Graph, cs: seq<Comp>, i: nat)
    requires Correct(g, cs) && i < |cs|
    ensures cs[i].Cycle? ==> Loop(g, NodesOf(cs[i]), cs[i].head)
    ensures cs[i].Vertex? ==> !g.Edge(cs[i].node, cs[i].node)
  {
    if i > 0 {
      TopLoop(g, cs[1..], i - 1);
    }
  }

  /** Two covered nodes reach each other exactly when they share their top-level component. */
  lemma SameComponentIffMutuallyReachable(g: Graph, cs: seq<Comp>, i: nat, j: nat, u: Node, v: Node)
    requires Correct(g, cs) && i < |cs| && j < |cs| && u in NodesOf(cs[i]) && v in NodesOf(cs[j])
    ensures i == j <==> PathIn(g, Nodes(cs), u, v) && PathIn(g, Nodes(cs), v, u)
  {
    hide PathIn;
    if i == j {
      TopNodes(cs, i);
      TopLoop(g, cs, i);
      if cs[i].Cycle? {
        var S, h := NodesOf(cs[i]), cs[i].head;
        PathTrans(g, S, u, h, v);
        PathTrans(g, S, v, h, u);
        PathMono(g, S, Nodes(cs), u, v);
        PathMono(g, S, Nodes(cs), v, u);
      } else {
        PathSelf(g, Nodes(cs), u);
      }
    } else if PathIn(g, Nodes(cs), u, v) && PathIn(g, Nodes(cs), v, u) {
      TopPathForward(g, cs, i, j, u, v);
      TopPathForward(g, cs, j, i, v, u);
    }
  }

  lemma PathFirstEdge(g: Graph, S: set<Node>, u: Node, x: Node) returns (y: Node)
    requires PathIn(g, S, u, x)
    ensures u == x == y || (y in S && g.Edge(u, y))
  {
    if u == x {
      y := x;
    } else {
      y := FirstStep(EdgesWithin(g, S), u, x);
    }
  }

  /** Every node of a loop has an edge along a cycle inside the loop. */
  lemma LoopEdge(g: Graph, S: set<Node>, h: Node, u: Node) returns (y: Node)
    requires Loop(g, S, h) && u in S
    ensures y in S && g.Edge(u, y) && PathIn(g, S, y, u)
  {
    var x :| x in S && g.Edge(x, h);
    hide PathIn;
    PathEnds(g, S, h, u);
    PathTrans(g, S, u, h, x);
    y := PathFirstEdge(g, S, u, x);
    if !(y in S && g.Edge(u, y)) {
      y := h;
    }
    PathTrans(g, S, y, h, u);
  }

  ghost predicate OnGraphCycle(g: Graph, S: set<Node>, u: Node) {
    exists y :: y in S && g.Edge(u, y) && PathIn(g, S, y, u)
  }

  /** A top-level component is a cycle component exactly when its nodes lie on graph cycles. */
  lemma CycleIffOnGraphCycle(g: Graph, cs: seq<Comp>, i: nat, u: Node)
    requires Correct(g, cs) && i < |cs| && u in NodesOf(cs[i])
    ensures cs[i].Cycle? <==> OnGraphCycle(g, Nodes(cs), u)
  {
    hide PathIn;
    TopLoop(g, cs, i);
    TopNodes(cs, i);
    if cs[i].Cycle? {
      var y := LoopEdge(g, NodesOf(cs[i]), cs[i].head, u);
      PathMono(g, NodesOf(cs[i]), Nodes(cs), y, u);
    } else if OnGraphCycle(g, Nodes(cs), u) {
      var y :| y in Nodes(cs) && g.Edge(u, y) && PathIn(g, Nodes(cs), y, u);
      var j := TopIndex(cs, y);
      TopPathForward(g, cs, j, i, y, u);
      TopEdgeForward(g, cs, i, j, u, y);
    }
  }

  /** The top-level components are the strongly connected components, and exactly those with a
      graph cycle are cycle components. */
  ghost predicate StronglyConnectedParts(g: Graph, cs: seq<Comp>) {
    && (forall i, j, u, v | 0 <= i < |cs| && 0 <= j < |cs| && u in NodesOf(cs[i]) && v in NodesOf(cs[j]) ::
          i == j <==> PathIn(g, Nodes(cs), u, v) && PathIn(g, Nodes(cs), v, u))
    && (forall i, u | 0 <= i < |cs| && u in NodesOf(cs[i]) :: cs[i].Cycle? <==> OnGraphCycle(g, Nodes(cs), u))
  }

  lemma PartsOfOrder(g: Graph, cs: seq<Comp>)
    requires Correct(g, cs)
    ensures StronglyConnectedParts(g, cs)
  {
    hide Correct, PathIn, OnGraphCycle, NodesOf, Nodes;
    forall i, j, u, v | 0 <= i < |cs| && 0 <= j < |cs| && u in NodesOf(cs[i]) && v in NodesOf(cs[j])
      ensures i == j <==> PathIn(g, Nodes(cs), u, v) && PathIn(g, Nodes(cs), v, u)
    {
      SameComponentIffMutuallyReachable(g, cs, i, j, u, v);
    }
    forall i, u | 0 <= i < |cs| && u in NodesOf(cs[i]) ensures cs[i].Cycle? <==> OnGraphCycle(g, Nodes(cs), u) {
      CycleIffOnGraphCycle(g, cs, i, u);
    }
  }
}
