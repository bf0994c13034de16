/** The tails of a cycle: which of its nodes the tail visitor collects, and what they are. */
module WtoTails {
  import opened Graphs
  import opened WtoTree
  import opened WtoDepth

  /** The nodes of single-node components, at any nesting level. */
  function PlainNodes(cs: seq<Comp>): set<Node> {
    if cs == [] then {} else
      (match cs[0]
       case Vertex(n) => {n}
       case Cycle(_, body) => PlainNodes(body)) + PlainNodes(cs[1..])
  }

  /** Among `succs` is a node other than `head` whose depth is a prefix of the head's depth. */
  predicate AnyExit(succs: seq<Node>, depths: map<Node, Depth>, head: Node, headDepth: Depth) {
    exists s :: s in succs && s != head && s in depths && depths[s] <= headDepth
  }

  /** `n` has an edge to a node other than `head` whose depth is a prefix of the head's depth. */
  predicate ExitsTo(g: Graph, depths: map<Node, Depth>, head: Node, headDepth: Depth, n: Node) {
    n in g.out && AnyExit(g.out[n], depths, head, headDepth)
  }

  /** Every out-edge of `X` leads to a node with a recorded depth. */
  ghost predicate DepthsKnown(g: Graph, depths: map<Node, Depth>, X: set<Node>) {
    X <= g.out.Keys && forall n, s :: n in X && s in g.out[n] ==> s in depths
  }

  function TailsIn(g: Graph, depths: map<Node, Depth>, head: Node, headDepth: Depth, cs: seq<Comp>): set<Node> {
    set n | n in PlainNodes(cs) && ExitsTo(g, depths, head, headDepth, n)
  }

  /** The nodes that head no cycle, at any nesting level, and pass the test. */
  function PlainExits(g: Graph, depths: map<Node, Depth>, head: Node, headDepth: Depth, cs: seq<Comp>): set<Node> {
    set n | n in Nodes(cs) && n !in HeadMap(cs) && ExitsTo(g, depths, head, headDepth, n)
  }

  /** In a tree without repetition the plain nodes are all nodes but the heads. */
  lemma {:induction false} PlainAreNoHeads(cs: seq<Comp>)
    requires Distinct(cs)
    ensures PlainNodes(cs) == Nodes(cs) - HeadMap(cs).Keys
  {
    if cs != [] {
      PlainAreNoHeads(cs[1..]);
      HeadMapNodes(cs[1..]);
      if cs[0].Cycle? {
        PlainAreNoHeads(cs[0].body);
        HeadMapNodes(cs[0].body);
      }
    }
  }

  lemma PlainExitsAre(g: Graph, depths: map<Node, Depth>, head: Node, headDepth: Depth, cs: seq<Comp>)
    ensures Distinct(cs) ==> TailsIn(g, depths, head, headDepth, cs) == PlainExits(g, depths, head, headDepth, cs)
  {
    hide ExitsTo;
    if Distinct(cs) {
      PlainAreNoHeads(cs);
    }
  }

  /** The recorded heads are those that head a cycle of the tree. */
  lemma {:induction false} RecordedHeads(cs: seq<Comp>, h: Node)
    requires Distinct(cs)
    ensures h in HeadMap(cs) <==> HeadsCycleOf(cs, h, h)
  {
    if cs != [] {
      RecordedHeads(cs[1..], h);
      if cs[0].Cycle? {
        RecordedHeads(cs[0].body, h);
      }
    }
  }

  /** Walks the components of one cycle and collects its tails. */
  class TailBuilder {
    const g: Graph
    const depths: map<Node, Depth>
    const head: Node
    const headDepth: Depth
    var tails: set<Node>

    constructor (g: Graph, depths: map<Node, Depth>, head: Node, headDepth: Depth)
      ensures this.g == g && this.depths == depths && this.head == head && this.headDepth == headDepth
      ensures tails == {}
    {
      this.g, this.depths, this.head, this.headDepth := g, depths, head, headDepth;
      tails := {};
    }

    /** Depth lookups succeed: `DepthsKnown` is what the source asserts at each of them. */
    method Visit(c: Comp)
      requires DepthsKnown(g, depths, PlainNodes([c]))
      modifies this`tails
      ensures tails == old(tails) + TailsIn(g, depths, head, headDepth, [c])
      ensures Distinct([c]) ==> tails == old(tails) + PlainExits(g, depths, head, headDepth, [c])
      decreases c
    {
      assert [c][1..] == [];
      PlainExitsAre(g, depths, head, headDepth, [c]);
      match c
      case Vertex(n) =>
        var out := g.out[n];
        for i := 0 to |out|
          invariant tails == old(tails) + if AnyExit(out[..i], depths, head, headDepth) then {n} else {}
        {
          var succ := out[i];
          var r := Compare(depths[succ], headDepth);
          if succ != head && r <= 0 {
            tails := tails + {n};
          }
          assert out[..i + 1] == out[..i] + [succ];
        }
        assert out[..|out|] == out && g.out[n] == out;
        assert PlainNodes([c]) == {n};
      case Cycle(_, body) =>
        assert PlainNodes([c]) == PlainNodes(body);
        VisitAll(body);
    }

    method VisitAll(cs: seq<Comp>)
      requires DepthsKnown(g, depths, PlainNodes(cs))
      modifies this`tails
      ensures tails == old(tails) + TailsIn(g, depths, head, headDepth, cs)
      ensures Distinct(cs) ==> tails == old(tails) + PlainExits(g, depths, head, headDepth, cs)
      decreases cs
    {
      PlainExitsAre(g, depths, head, headDepth, cs);
      for i := 0 to |cs|
        invariant tails == old(tails) + TailsIn(g, depths, head, headDepth, cs[..i])
      {
        PlainOne(cs, i);
        Visit(cs[i]);
      }
      assert cs[..|cs|] == cs;
    }
  }

  lemma PlainOne(cs: seq<Comp>, i: nat)
    requires i < |cs|
    ensures PlainNodes([cs[i]]) <= PlainNodes(cs)
    ensures PlainNodes(cs[..i + 1]) == PlainNodes(cs[..i]) + PlainNodes([cs[i]])
  {
    PlainConcat(cs[..i], [cs[i]]);
    assert cs[..i + 1] == cs[..i] + [cs[i]];
    PlainConcat(cs[..i + 1], cs[i + 1..]);
    assert cs[..i + 1] + cs[i + 1..] == cs;
  }

  lemma {:induction false} PlainConcat(a: seq<Comp>, b: seq<Comp>)
    ensures PlainNodes(a + b) == PlainNodes(a) + PlainNodes(b)
  {
    if a == [] {
      assert a + b == b;
    } else {
      assert (a + b)[1..] == a[1..] + b;
      PlainConcat(a[1..], b);
    }
  }

  lemma {:induction false} PlainAreNodes(cs: seq<Comp>)
    ensures PlainNodes(cs) <= Nodes(cs)
  {
    if cs != [] {
      PlainAreNodes(cs[1..]);
      if cs[0].Cycle? {
        PlainAreNodes(cs[0].body);
      }
    }
  }

  // Nesting is a strict order.

  lemma {:induction false} EnclosesTrans(cs: seq<Comp>, a: Node, b: Node, c: Node)
    requires Distinct(cs) && Encloses(cs, a, b) && Encloses(cs, b, c)
    ensures Encloses(cs, a, c)
  {
    if Encloses(cs[1..], b, c) {
      EnclosesNodes(cs[1..], b, c);
    }
    if Encloses(cs[1..], a, b) {
      EnclosesNodes(cs[1..], a, b);
    }
    if cs[0].Cycle? {
      var body := cs[0].body;
      if Encloses(body, b, c) {
        EnclosesNodes(body, b, c);
        if Encloses(body, a, b) {
          EnclosesTrans(body, a, b, c);
        }
      }
      if Encloses(body, a, b) {
        EnclosesNodes(body, a, b);
      }
    }
    if Encloses(cs[1..], a, b) && Encloses(cs[1..], b, c) {
      EnclosesTrans(cs[1..], a, b, c);
    }
  }

  lemma {:induction false} EnclosesIrreflexive(cs: seq<Comp>, a: Node)
    requires Distinct(cs)
    ensures !Encloses(cs, a, a)
  {
    if cs != [] {
      EnclosesIrreflexive(cs[1..], a);
      if cs[0].Cycle? {
        EnclosesIrreflexive(cs[0].body, a);
      }
    }
  }

  /** The recorded cycle of a head holds exactly what the head encloses. */
  lemma {:induction false} RecordedCycle(cs: seq<Comp>, h: Node)
    requires Distinct(cs) && h in HeadMap(cs)
    ensures HeadMap(cs)[h].Cycle? && HeadMap(cs)[h].head == h && h in Nodes(cs)
    ensures Nodes(HeadMap(cs)[h].body) <= Nodes(cs)
    ensures forall u :: u in Nodes(HeadMap(cs)[h].body) <==> Encloses(cs, h, u)
  {
    var rest := cs[1..];
    HeadMapNodes(rest);
    var body := if cs[0].Cycle? then cs[0].body else [];
    HeadMapNodes(body);
    if h in HeadMap(rest) {
      RecordedCycle(rest, h);
    } else if h in HeadMap(body) {
      RecordedCycle(body, h);
    }
    forall u ensures u in Nodes(HeadMap(cs)[h].body) <==> Encloses(cs, h, u) {
      if Encloses(rest, h, u) {
        EnclosesNodes(rest, h, u);
      }
      if Encloses(body, h, u) {
        EnclosesNodes(body, h, u);
      }
    }
  }

  /** The body of a recorded cycle has no repetition, and its heads are the tree's heads in it. */
  lemma {:induction false} RecordedBody(cs: seq<Comp>, h: Node)
    requires Distinct(cs) && h in HeadMap(cs)
    ensures HeadMap(cs)[h].Cycle? && Distinct(HeadMap(cs)[h].body)
    ensures Nodes(HeadMap(cs)[h].body) <= Nodes(cs)
    ensures forall u :: u in Nodes(HeadMap(cs)[h].body) ==> (u in HeadMap(HeadMap(cs)[h].body) <==> u in HeadMap(cs))
  {
    var rest := cs[1..];
    HeadMapNodes(rest);
    var body := if cs[0].Cycle? then cs[0].body else [];
    HeadMapNodes(body);
    if h in HeadMap(rest) {
      RecordedBody(rest, h);
    } else if h in HeadMap(body) {
      RecordedBody(body, h);
    }
  }

  /** Every cycle strictly around `s` is also strictly around `h`. */
  ghost predicate SharesCycles(cs: seq<Comp>, s: Node, h: Node) {
    forall k :: Encloses(cs, k, s) ==> Encloses(cs, k, h)
  }

  /** One depth is a prefix of another exactly when every enclosing cycle is shared. */
  lemma PrefixIffShared(cs: seq<Comp>, s: Node, h: Node, ds: Depth, dh: Depth)
    requires Distinct(cs) && Chain(cs, ds, s) && Chain(cs, dh, h)
    ensures ds <= dh <==> SharesCycles(cs, s, h)
  {
    hide Encloses;
    if ds <= dh {
      forall k | Encloses(cs, k, s) ensures Encloses(cs, k, h) {
        assert k in ds;
      }
    }
    if SharesCycles(cs, s, h) {
      var i := 0;
      while i < |ds|
        invariant 0 <= i <= |ds| && i <= |dh| && ds[..i] == dh[..i]
      {
        NextShared(cs, s, h, ds, dh, i);
        i := i + 1;
      }
      assert ds == ds[..|ds|] == dh[..|ds|];
      assert |ds| <= |dh| && forall j :: 0 <= j < |ds| ==> ds[j] == dh[j];
    }
  }

  lemma NextShared(cs: seq<Comp>, s: Node, h: Node, ds: Depth, dh: Depth, i: nat)
    requires Distinct(cs) && Chain(cs, ds, s) && Chain(cs, dh, h)
    requires SharesCycles(cs, s, h)
    requires i < |ds| && i <= |dh| && ds[..i] == dh[..i]
    ensures i < |dh| && ds[i] == dh[i]
  {
    hide Encloses;
    var k := ds[i];
    assert k in ds && Encloses(cs, k, s) && k in dh;
    EnclosesIrreflexive(cs, k);
    var j :| 0 <= j < |dh| && dh[j] == k;
    if j > i {
      var k' := dh[i];
      assert Encloses(cs, k', k);
      EnclosesTrans(cs, k', k, s);
      assert k' in ds;
      var m :| 0 <= m < |ds| && ds[m] == k';
      EnclosesIrreflexive(cs, k');
      if m > i {
        EnclosesTrans(cs, k, k', k);
      }
    }
  }

  /** `n` has an edge that leaves the cycle of `h` for a node all of whose enclosing cycles also
      enclose `h`: a regular exit, not a jump into another cycle's body. */
  ghost predicate RegularExit(g: Graph, cs: seq<Comp>, h: Node, n: Node) {
    exists s :: g.Edge(n, s) && s != h && !Encloses(cs, h, s) && SharesCycles(cs, s, h)
  }

  /** The tails of a cycle are its plain nodes with a regular exit. */
  lemma TailsAreRegularExits(g: Graph, cs: seq<Comp>, h: Node, n: Node)
    requires Distinct(cs) && h in HeadMap(cs) && Nodes(cs) <= g.out.Keys
    requires DepthsKnown(g, Depths(cs, []), Nodes(cs)) && n in Nodes(cs)
    ensures h in Depths(cs, []) && (ExitsTo(g, Depths(cs, []), h, Depths(cs, [])[h], n) <==> RegularExit(g, cs, h, n))
  {
    hide Encloses, Distinct, DepthsKnown, SharesCycles;
    var m := Depths(cs, []);
    RecordedCycle(cs, h);
    HeadShares(cs, h);
    SuccKnown(g, cs, n);
    if ExitsTo(g, m, h, m[h], n) {
      var s :| s in g.out[n] && s != h && s in m && m[s] <= m[h];
      DepthPrefix(cs, s, h);
      assert g.Edge(n, s);
    }
    if RegularExit(g, cs, h, n) {
      var s :| g.Edge(n, s) && s != h && !Encloses(cs, h, s) && SharesCycles(cs, s, h);
      DepthPrefix(cs, s, h);
    }
  }

  lemma HeadShares(cs: seq<Comp>, h: Node)
    requires Distinct(cs) && h in Nodes(cs)
    ensures h in Depths(cs, []) && forall s :: SharesCycles(cs, s, h) ==> !Encloses(cs, h, s)
  {
    EnclosesIrreflexive(cs, h);
    DepthIsEnclosingHeads(cs, []);
  }

  lemma SuccKnown(g: Graph, cs: seq<Comp>, n: Node)
    requires Distinct(cs) && DepthsKnown(g, Depths(cs, []), Nodes(cs)) && n in Nodes(cs)
    ensures n in g.out && forall s :: g.Edge(n, s) ==> s in Nodes(cs)
    ensures Depths(cs, []).Keys == Nodes(cs)
  {
    DepthIsEnclosingHeads(cs, []);
  }

  lemma DepthPrefix(cs: seq<Comp>, s: Node, h: Node)
    requires Distinct(cs) && s in Nodes(cs) && h in Nodes(cs)
    ensures s in Depths(cs, []) && h in Depths(cs, [])
    ensures Depths(cs, [])[s] <= Depths(cs, [])[h] <==> SharesCycles(cs, s, h)
  {
    hide Encloses;
    var m := Depths(cs, []);
    DepthIsEnclosingHeads(cs, []);
    assert m[s][0..] == m[s] && m[h][0..] == m[h];
    assert DepthOK(cs, [], s, m[s]) && DepthOK(cs, [], h, m[h]);
    PrefixIffShared(cs, s, h, m[s], m[h]);
  }
}
