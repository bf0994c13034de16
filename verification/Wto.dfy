/** The builder of the weak topological order: Bourdoncle's recursive strategy over the
    fields of the order object. */
module Wto {
  import opened Graphs
  import opened WtoTree
  import opened WtoMarks
  import opened WtoSteps
  import opened WtoDepth
  import opened WtoTails
  import opened WtoComponents
  import opened WtoHeads

  class BlockOrder {
    const g: Graph
    var components: seq<Comp>
    var headToCycle: map<Node, Comp>
    var headToTails: map<Node, set<Node>>
    var nodeToDepth: map<Node, Depth>
    var cdn: map<Node, Cdn>
    var num: nat
    var stack: seq<Node>

    ghost predicate Fresh()
      reads this
    {
      && components == [] && headToCycle == map[] && headToTails == map[] && nodeToDepth == map[]
      && cdn == map[] && num == 0 && stack == []
    }

    constructor (g: Graph)
      ensures this.g == g && Fresh()
    {
      this.g := g;
      components, headToCycle, headToTails, nodeToDepth := [], map[], map[], map[];
      cdn, num, stack := map[], 0, [];
    }

    /** Builds the order of everything reachable from `entry`, then depths and tails. */
    method Build(entry: Node)
      requires g.Valid() && entry in g.nodes && Fresh()
      modifies this
      ensures Distinct(components) && Nodes(components) == Reachable(g, entry)
      ensures EdgesOK(g, components) && CyclesAreLoops(g, components)
      ensures ListsOnce(components, Reachable(g, entry)) && WeakOrder(g, components)
      ensures StronglyConnectedParts(g, components) && NestedParts(g, components) && HeadsCutCycles(g, components)
      ensures headToCycle == HeadMap(components)
      ensures RecordsHeads(components, headToCycle)
      ensures nodeToDepth.Keys == Nodes(components)
      ensures forall n :: n in nodeToDepth ==> Chain(components, nodeToDepth[n], n)
      ensures headToTails.Keys == headToCycle.Keys && RecordsTails(g, components, headToCycle, headToTails)
    {
      hide Found, Reaches, StronglyConnectedParts, NestedParts, HeadsCutCycles, Inv, Region, Visited, Built;
      hide Correct, Distinct, EdgesOK, CyclesAreLoops, ListsOnce, WeakOrder, Chain, TailSet, Reachable, SuccsCovered;
      hide RecordsHeads, RecordsTails;
      ghost var low: nat;
      ghost var added: seq<Comp>;
      ghost var m0 := Marked();
      var partition: seq<Comp>;
      EmptyMarks(g, entry);
      low, partition, added := Visit(entry, components, Reachable(g, entry));
      AllPlaced(g, m0, Marked(), entry, low, added);
      JoinEmpty(added, HeadMap(added));
      components := partition;
      CorrectParts(g, components);
      PartsOfOrder(g, components);
      HeadsOfOrder(g, components);
      DepthsAreChains(components);
      OrderTheorem(g, components);
      cdn := map[];
      stack := [];
      BuildNodeToDepth();
      BuildTails();
      TailMembers(g, components, headToTails);
    }

    method BuildNodeToDepth()
      requires Distinct(components) && nodeToDepth == map[]
      modifies this`nodeToDepth
      ensures nodeToDepth == Depths(components, [])
    {
      var builder := new DepthBuilder();
      builder.VisitAll(components);
      nodeToDepth := builder.nodeToDepth;
    }

    method BuildTails()
      requires Distinct(components) && headToCycle == HeadMap(components) && headToTails == map[]
      requires nodeToDepth == Depths(components, []) && SuccsCovered(g, components)
      modifies this`headToTails
      ensures headToTails.Keys == headToCycle.Keys
      ensures forall h :: h in headToTails ==> headToTails[h] == TailSet(g, components, h)
    {
      hide Distinct, SuccsCovered, TailSet;
      var todo := headToCycle.Keys;
      while todo != {}
        invariant todo <= headToCycle.Keys && headToTails.Keys == headToCycle.Keys - todo
        invariant forall h :: h in headToTails ==> headToTails[h] == TailSet(g, components, h)
      {
        var h :| h in todo;
        TailsReady(g, components, h);
        var builder := new TailBuilder(g, nodeToDepth, h, nodeToDepth[h]);
        builder.VisitAll(headToCycle[h].body);
        headToTails := headToTails[h := builder.tails];
        todo := todo - {h};
      }
    }

    ghost function Marked(): Marks
      reads this
    {
      Marks(stack, num, cdn)
    }

    method Push(n: Node)
      modifies this`stack
      ensures stack == old(stack) + [n]
    {
      stack := stack + [n];
    }

    method Pop() returns (top: Node)
      requires stack != []
      modifies this`stack
      ensures top == old(stack)[|old(stack)| - 1] && stack == old(stack)[..|old(stack)| - 1]
    {
      top := stack[|stack| - 1];
      stack := stack[..|stack| - 1];
    }

    method SetCDN(n: Node, depth: Cdn)
      modifies this`cdn
      ensures cdn == old(cdn)[n := depth]
    {
      cdn := cdn[n := depth];
    }

    /** Visits `node`, prepending the components it closes to `partition`. The ghost region `W`
        bounds what the visit can reach. */
    method Visit(node: Node, partition: seq<Comp>, ghost W: set<Node>)
      returns (head: nat, grown: seq<Comp>, ghost added: seq<Comp>)
      requires Inv(g, Marked()) && node in W && Region(g, Marked(), W)
      requires GetCDN(cdn, node) == Num(0)
      requires headToCycle.Keys <= Marked().Placed()
      modifies this`stack, this`num, this`cdn, this`headToCycle
      ensures Visited(g, old(Marked()), Marked(), node, W, head)
      ensures old(stack) <= stack && Found(old(Marked()), Marked()) == Reaches(g, old(Marked()), node)
      ensures grown == added + partition && Built(g, old(Marked()), Marked(), added)
      ensures headToCycle == old(headToCycle) + HeadMap(added)
      ensures headToCycle.Keys <= Marked().Placed()
      decreases g.nodes - Marked().Placed(), Unvisited(g, Marked()), 0
    {
      hide HeadMap, Found, Reaches, Visited, Scanning, Correct, Built, Inv, Frame, Region, SuccsPlaced;
      hide Popping, Popped, ComponentReady, ComponentDone;
      ghost var m0 := Marked();
      var min: Cdn;
      Push(node);
      num := num + 1;
      head := num;
      SetCDN(node, Num(head));
      var loop := false;
      grown, added := partition, [];
      HeadMapNone();
      StartScan(g, m0, node, W);
      NothingBuilt(g, m0, Marked());
      var out := g.out[node];
      for i := 0 to |out|
        invariant Scanning(g, m0, Marked(), node, W, i, head, loop)
        invariant grown == added + partition && Built(g, m0, Marked(), added)
        invariant headToCycle == old(headToCycle) + HeadMap(added)
        invariant headToCycle.Keys <= Marked().Placed()
      {
        var succ := out[i];
        ScanCall(g, m0, Marked(), node, W, i, head, loop);
        min := GetCDN(cdn, succ);
        if min == Num(0) {
          ghost var m := Marked();
          var low: nat;
          ghost var later: seq<Comp>;
          low, grown, later := Visit(succ, grown, W);
          min := Num(low);
          ScanVisited(g, m0, m, Marked(), node, succ, W, i, head, loop, low);
          VisitedFrame(g, m, Marked(), succ, W, low);
          BuiltInFront(g, m0, m, Marked(), added, later);
          JoinsInFront(later, added, partition, old(headToCycle));
          added := later + added;
        } else {
          ScanSeen(g, m0, Marked(), node, W, i, head, loop);
        }
        if AtMost(min, head) {
          head := min.n;
          loop := true;
        }
      }
      ghost var m := Marked();
      ScanEnd(g, m0, m, node, W, head, loop);
      if Num(head) == GetCDN(cdn, node) {
        SetCDN(node, Inf);
        var element := Pop();
        if loop {
          PopDownTo(node, element, m0, m);
          ghost var m1 := Marked();
          FinishPop(g, m0, m, m1, node, W);
          var cycle := Component(node, Grown(m0, m) - {node});
          CycleBuilt(g, m0, m, m1, Marked(), node, W, added, cycle);
          JoinsInFront([cycle], added, partition, old(headToCycle));
          grown := [cycle] + grown;
          added := [cycle] + added;
        } else {
          VertexBuilt(g, m0, m, Marks(m0.stack, m.num, m.cdn[node := Inf]), node, W, added);
          JoinsInFront([Vertex(node)], added, partition, old(headToCycle));
          grown := [Vertex(node)] + grown;
          added := [Vertex(node)] + added;
        }
      } else {
        FinishOpen(g, m0, m, node, W, head, loop);
      }
      VisitFound(g, m0, Marked(), node, W, head);
    }

    /** Pops the elements above `node`, from `top` on, and makes each of them unvisited again. */
    method PopDownTo(node: Node, top: Node, ghost m0: Marks, ghost m: Marks)
      requires Inv(g, m) && Above(m0, m, node)
      requires Marked() == Marks(m.stack[..|m.stack| - 1], m.num, m.cdn[node := Inf]) && top == m.stack[|m.stack| - 1]
      modifies this`stack, this`cdn
      ensures Popped(g, m0, m, Marked(), node)
    {
      hide Inv, Popping, Popped;
      var element := top;
      ghost var k: nat := |stack|;
      PopStart(g, m0, m, node);
      while element != node
        invariant Popping(g, m0, m, stack, cdn, k, node)
        invariant k < |m.stack| && element == m.stack[k] && stack == m.stack[..k]
        decreases k
      {
        PopNext(g, m0, m, stack, cdn, k, node);
        SetCDN(element, Num(0));
        element := Pop();
        k := k - 1;
        assert stack == m.stack[..k];
      }
      PopDone(g, m0, m, Marked(), k, node);
    }

    /** Builds the cycle component headed by `node` from the unvisited region `W` around it. */
    method Component(node: Node, ghost W: set<Node>) returns (cycle: Comp)
      requires ComponentReady(g, Marked(), node, W)
      requires headToCycle.Keys <= Marked().Placed() && node !in headToCycle
      modifies this`stack, this`num, this`cdn, this`headToCycle
      ensures ComponentDone(g, old(Marked()), Marked(), W)
      ensures cycle.Cycle? && cycle.head == node
      ensures Correct(g, cycle.body) && Nodes(cycle.body) == W
      ensures headToCycle == old(headToCycle) + HeadMap([cycle])
      ensures headToCycle.Keys <= Marked().Placed()
      decreases g.nodes - Marked().Placed(), Unvisited(g, Marked()), 1
    {
      hide HeadMap, Found, Reaches, Visited, Correct, Built, ComponentReady, ComponentDone;
      hide Inv, Frame, Region, SuccsPlaced, Filling;
      ghost var m0 := Marked();
      ComponentStart(g, m0, node, W);
      var partition: seq<Comp> := [];
      HeadMapNone();
      var out := g.out[node];
      for i := 0 to |out|
        invariant Filling(g, m0, Marked(), node, W, i)
        invariant Built(g, m0, Marked(), partition)
        invariant headToCycle == old(headToCycle) + HeadMap(partition)
        invariant headToCycle.Keys <= Marked().Placed()
      {
        var succ := out[i];
        FillCall(g, m0, Marked(), node, W, i);
        if GetCDN(cdn, succ) == Num(0) {
          ghost var m, earlier := Marked(), partition;
          var low: nat;
          ghost var later: seq<Comp>;
          low, partition, later := Visit(succ, partition, W);
          FillVisited(g, m0, m, Marked(), node, W, i, low);
          VisitedFrame(g, m, Marked(), succ, W, low);
          BuiltInFront(g, m0, m, Marked(), earlier, later);
          HeadMapConcat(later, earlier);
          MergeAssoc(old(headToCycle), HeadMap(earlier), HeadMap(later));
        }
      }
      FillDone(g, m0, Marked(), node, W);
      HeadMapNodes(partition);
      HeadMapCycle(node, partition);
      BuiltAll(g, m0, Marked(), partition, W);
      MergeAssoc(old(headToCycle), HeadMap(partition), map[node := Cycle(node, partition)]);
      cycle := Cycle(node, partition);
      if node !in headToCycle {
        headToCycle := headToCycle[node := cycle];
      }
    }
  }

  /** The flattened order lists exactly the nodes of `S`, each of them once. */
  ghost predicate ListsOnce(cs: seq<Comp>, S: set<Node>) {
    && (forall n :: n in Flat(cs) <==> n in S)
    && (forall i, j :: 0 <= i < j < |Flat(cs)| ==> Flat(cs)[i] != Flat(cs)[j])
  }

  /** Every edge goes forward in the flattened order or to the head of a cycle around its source. */
  ghost predicate WeakOrder(g: Graph, cs: seq<Comp>) {
    forall u, v :: u in Nodes(cs) && v in Nodes(cs) && g.Edge(u, v) ==> Before(Flat(cs), u, v) || HeadsCycleOf(cs, v, u)
  }

  lemma OrderTheorem(g: Graph, cs: seq<Comp>)
    requires Distinct(cs) && EdgesOK(g, cs)
    ensures ListsOnce(cs, Nodes(cs)) && WeakOrder(g, cs)
  {
    hide EdgesOK, Distinct, Before, HeadsCycleOf;
    FlatNodes(cs);
    DistinctFlat(cs);
    forall u, v | u in Nodes(cs) && v in Nodes(cs) && g.Edge(u, v)
      ensures Before(Flat(cs), u, v) || HeadsCycleOf(cs, v, u)
    {
      EdgeForwardOrToHead(g, cs, u, v);
    }
  }

  /** Every successor of a covered node is covered. */
  ghost predicate SuccsCovered(g: Graph, cs: seq<Comp>) {
    Nodes(cs) <= g.out.Keys && forall n, s :: n in Nodes(cs) && s in g.out[n] ==> s in Nodes(cs)
  }

  /** The tails of head `h`: what it encloses, heads aside, with a regular exit. */
  ghost function TailSet(g: Graph, cs: seq<Comp>, h: Node): set<Node> {
    set n | n in Nodes(cs) && Encloses(cs, h, n) && n !in HeadMap(cs) && RegularExit(g, cs, h, n)
  }

  /** The nodes with a recorded cycle are those that head one. */
  ghost predicate RecordsHeads(cs: seq<Comp>, cycles: map<Node, Comp>) {
    forall h :: h in cycles <==> HeadsCycleOf(cs, h, h)
  }

  /** The tails of a head are the nodes it encloses that head no cycle and have a regular exit. */
  ghost predicate RecordsTails(g: Graph, cs: seq<Comp>, cycles: map<Node, Comp>, tails: map<Node, set<Node>>) {
    forall h, n :: h in tails ==>
      (n in tails[h] <==> Encloses(cs, h, n) && n !in cycles && RegularExit(g, cs, h, n))
  }

  lemma TailMembers(g: Graph, cs: seq<Comp>, tails: map<Node, set<Node>>)
    requires Distinct(cs) && forall h :: h in tails ==> tails[h] == TailSet(g, cs, h)
    ensures RecordsHeads(cs, HeadMap(cs)) && RecordsTails(g, cs, HeadMap(cs), tails)
  {
    hide Encloses, RegularExit;
    forall h ensures h in HeadMap(cs) <==> HeadsCycleOf(cs, h, h) {
      RecordedHeads(cs, h);
    }
    forall h, n | Encloses(cs, h, n) ensures n in Nodes(cs) {
      EnclosesNodes(cs, h, n);
    }
  }

  /** The depth lookups of tail building never miss, and the collected set is the intended one. */
  lemma TailsReady(g: Graph, cs: seq<Comp>, h: Node)
    requires Distinct(cs) && h in HeadMap(cs) && SuccsCovered(g, cs)
    ensures HeadMap(cs)[h].Cycle? && h in Depths(cs, [])
    ensures DepthsKnown(g, Depths(cs, []), PlainNodes(HeadMap(cs)[h].body))
    ensures TailsIn(g, Depths(cs, []), h, Depths(cs, [])[h], HeadMap(cs)[h].body) == TailSet(g, cs, h)
  {
    hide Distinct, RegularExit, ExitsTo, Encloses, HeadMap;
    RecordedCycle(cs, h);
    RecordedBody(cs, h);
    DepthIsEnclosingHeads(cs, []);
    var body := HeadMap(cs)[h].body;
    PlainAreNoHeads(body);
    forall n | n in PlainNodes(body)
      ensures ExitsTo(g, Depths(cs, []), h, Depths(cs, [])[h], n) <==> RegularExit(g, cs, h, n)
    {
      TailsAreRegularExits(g, cs, h, n);
    }
  }

  /** Putting components in front of those added so far, in the list and in the head table. */
  lemma JoinsInFront(later: seq<Comp>, added: seq<Comp>, partition: seq<Comp>, heads: map<Node, Comp>)
    ensures later + (added + partition) == later + added + partition
    ensures heads + HeadMap(added) + HeadMap(later) == heads + HeadMap(later + added)
  {
    hide HeadMap;
    HeadMapConcat(later, added);
    MergeAssoc(heads, HeadMap(added), HeadMap(later));
    ListAssoc(later, added, partition);
  }

  lemma VisitFound(g: Graph, m0: Marks, m: Marks, node: Node, W: set<Node>, head: nat)
    requires Inv(g, m0) && m0.Of(node) == Num(0) && Visited(g, m0, m, node, W, head)
    ensures m0.stack <= m.stack && Found(m0, m) == Reaches(g, m0, node)
  {
    FindsWhatItReaches(g, m0, m, node, W, head);
  }

  lemma JoinEmpty(cs: seq<Comp>, m: map<Node, Comp>)
    ensures cs + [] == cs && map[] + m == m
  {
  }

  lemma EmptyMarks(g: Graph, entry: Node)
    requires g.Valid() && entry in g.nodes
    ensures Inv(g, Marks([], 0, map[])) && Region(g, Marks([], 0, map[]), Reachable(g, entry))
    ensures entry in Reachable(g, entry)
  {
    ReachableClosed(g, entry);
  }

  /** The visit of the entry leaves an empty stack and places exactly the reachable nodes. */
  lemma AllPlaced(g: Graph, m0: Marks, m: Marks, entry: Node, low: nat, added: seq<Comp>)
    requires g.Valid() && entry in g.nodes && m0 == Marks([], 0, map[])
    requires Visited(g, m0, m, entry, Reachable(g, entry), low) && Built(g, m0, m, added)
    ensures m.stack == [] && m.Placed() == Reachable(g, entry) == Nodes(added)
    ensures Correct(g, added) && SuccsCovered(g, added)
  {
    hide PathIn, Correct;
    assert m0.Placed() == {};
    assert m.stack == [];
    assert NewlyPlaced(m0, m) == m.Placed() == Nodes(added);
    assert m.Of(entry) == Inf && entry in m.Placed();
    forall x, y | x in m.Placed() && g.Edge(x, y) ensures y in m.Placed() {
      assert m.Of(y) == Inf;
    }
    forall n | n in Reachable(g, entry) ensures n in m.Placed() {
      ClosedUnderPaths(g, g.nodes, m.Placed(), entry, n);
    }
  }

  lemma CorrectParts(g: Graph, cs: seq<Comp>)
    requires Correct(g, cs)
    ensures Distinct(cs) && EdgesOK(g, cs) && CyclesAreLoops(g, cs)
  {
  }

  lemma DepthsAreChains(cs: seq<Comp>)
    requires Distinct(cs)
    ensures Depths(cs, []).Keys == Nodes(cs)
    ensures forall n :: n in Nodes(cs) ==> Chain(cs, Depths(cs, [])[n], n)
  {
    DepthIsEnclosingHeads(cs, []);
    forall n | n in Nodes(cs) ensures Chain(cs, Depths(cs, [])[n], n) {
      assert DepthOK(cs, [], n, Depths(cs, [])[n]);
      assert Depths(cs, [])[n][0..] == Depths(cs, [])[n];
    }
  }
}
