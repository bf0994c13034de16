/** What the recorded cycles are good for: their heads cut every cycle of the graph, and below a
    head the order is again one of strongly connected components. */
module WtoHeads {
  import opened Graphs
  import opened Reachability
  import opened WtoTree
  import opened WtoComponents

  lemma {:induction false} HeadIsRecorded(cs: seq<Comp>, h: Node, u: Node)
    requires HeadsCycleOf(cs, h, u)
    ensures h in HeadMap(cs)
  {
    if HeadsCycleOf(cs[1..], h, u) {
      HeadIsRecorded(cs[1..], h, u);
    } else if h != cs[0].head {
      HeadIsRecorded(cs[0].body, h, u);
    }
  }

  /** A walk of one step or more along edges of the order, back to where it started. */
  ghost predicate IsCycle(g: Graph, S: set<Node>, p: seq<Node>) {
    IsChain(EdgesWithin(g, S), p) && |p| > 1 && p[0] == p[|p| - 1]
  }

  ghost predicate Meets(p: seq<Node>, heads: set<Node>) {
    exists i :: 0 <= i < |p| && p[i] in heads
  }

  /** Every graph cycle passes through a head, so widening at the heads is enough. */
  ghost predicate HeadsCutCycles(g: Graph, cs: seq<Comp>) {
    forall p: seq<Node> | IsCycle(g, Nodes(cs), p) :: Meets(p, HeadMap(cs).Keys)
  }

  /** A step to a node that is no head moves on in the flattened order. */
  lemma StepForward(g: Graph, cs: seq<Comp>, u: Node, v: Node, at: nat) returns (next: nat)
    requires Correct(g, cs) && (u, v) in EdgesWithin(g, Nodes(cs)) && v !in HeadMap(cs)
    requires at < |Flat(cs)| && Flat(cs)[at] == u
    ensures at < next < |Flat(cs)| && Flat(cs)[next] == v
  {
    EdgeForwardOrToHead(g, cs, u, v);
    if HeadsCycleOf(cs, v, u) {
      HeadIsRecorded(cs, v, u);
    }
    var i, j :| 0 <= i < j < |Flat(cs)| && Flat(cs)[i] == u && Flat(cs)[j] == v;
    DistinctFlat(cs);
    next := j;
  }

  lemma CycleMeetsHead(g: Graph, cs: seq<Comp>, p: seq<Node>)
    requires Correct(g, cs) && IsCycle(g, Nodes(cs), p)
    ensures Meets(p, HeadMap(cs).Keys)
  {
    hide Correct, Nodes, HeadMap, Flat, EdgesWithin;
    if !Meets(p, HeadMap(cs).Keys) {
      assert (p[1 - 1], p[1]) in EdgesWithin(g, Nodes(cs));
      var first := PositionOf(g, cs, p[0], p[1]);
      var k, at := 0, first;
      while k + 1 < |p|
        invariant 0 <= k < |p| && first <= at < |Flat(cs)| && Flat(cs)[at] == p[k] && (k > 0 ==> first < at)
      {
        assert (p[k + 1 - 1], p[k + 1]) in EdgesWithin(g, Nodes(cs));
        at := StepForward(g, cs, p[k], p[k + 1], at);
        k := k + 1;
      }
      OnePosition(g, cs, first, at);
    }
  }

  lemma PositionOf(g: Graph, cs: seq<Comp>, u: Node, v: Node) returns (at: nat)
    requires (u, v) in EdgesWithin(g, Nodes(cs))
    ensures at < |Flat(cs)| && Flat(cs)[at] == u
  {
    FlatNodes(cs);
    assert u in Flat(cs);
    at :| at < |Flat(cs)| && Flat(cs)[at] == u;
  }

  lemma OnePosition(g: Graph, cs: seq<Comp>, i: nat, j: nat)
    requires Correct(g, cs) && i < |Flat(cs)| && j < |Flat(cs)| && Flat(cs)[i] == Flat(cs)[j]
    ensures i == j
  {
    DistinctFlat(cs);
  }

  /** The body of a recorded cycle is a correct order of its own. */
  lemma {:induction false} BodyIsCorrect(g: Graph, cs: seq<Comp>, h: Node)
    requires Correct(g, cs) && h in HeadMap(cs)
    ensures HeadMap(cs)[h].Cycle? && Correct(g, HeadMap(cs)[h].body)
  {
    var body := if cs[0].Cycle? then cs[0].body else [];
    if h in HeadMap(cs[1..]) {
      BodyIsCorrect(g, cs[1..], h);
    }
    if h in HeadMap(body) {
      BodyIsCorrect(g, body, h);
    }
  }

  /** Below every head, in the part of the graph without it, the components are again the strongly
      connected ones. */
  ghost predicate NestedParts(g: Graph, cs: seq<Comp>) {
    forall h | h in HeadMap(cs) :: HeadMap(cs)[h].Cycle? && StronglyConnectedParts(g, HeadMap(cs)[h].body)
  }

  lemma HeadsOfOrder(g: Graph, cs: seq<Comp>)
    requires Correct(g, cs)
    ensures HeadsCutCycles(g, cs) && NestedParts(g, cs)
  {
    hide Correct, StronglyConnectedParts, IsCycle, Meets;
    forall p: seq<Node> | IsCycle(g, Nodes(cs), p) ensures Meets(p, HeadMap(cs).Keys) {
      CycleMeetsHead(g, cs, p);
    }
    forall h | h in HeadMap(cs) ensures HeadMap(cs)[h].Cycle? && StronglyConnectedParts(g, HeadMap(cs)[h].body) {
      BodyIsCorrect(g, cs, h);
      PartsOfOrder(g, HeadMap(cs)[h].body);
    }
  }
}
