/** The component tree of a weak topological order, and what makes such a tree a correct order. */
module WtoTree {
  import opened Graphs

  /** A component is one node, or a cycle: a head and the components nested below it. */
  datatype Comp = Vertex(node: Node) | Cycle(head: Node, body: seq<Comp>)

  /** All nodes of a component list, heads included. */
  function Nodes(cs: seq<Comp>): set<Node> {
    if cs == [] then {} else
      (match cs[0]
       case Vertex(n) => {n}
       case Cycle(h, body) => {h} + Nodes(body)) + Nodes(cs[1..])
  }

  function NodesOf(c: Comp): set<Node> {
    match c
    case Vertex(n) => {n}
    case Cycle(h, body) => {h} + Nodes(body)
  }

  /** The nodes in component order, a head before its body. */
  function Flat(cs: seq<Comp>): seq<Node> {
    if cs == [] then [] else
      (match cs[0]
       case Vertex(n) => [n]
       case Cycle(h, body) => [h] + Flat(body)) + Flat(cs[1..])
  }

  /** The cycle of each head. A later binding of a head is never overwritten by an earlier one. */
  function HeadMap(cs: seq<Comp>): map<Node, Comp> {
    if cs == [] then map[] else
      HeadMap(cs[1..]) +
      (match cs[0]
       case Vertex(_) => map[]
       case Cycle(h, body) => HeadMap(body) + map[h := cs[0]])
  }

  ghost predicate NoEdges(g: Graph, A: set<Node>, B: set<Node>) {
    forall x, y :: x in A && y in B ==> !g.Edge(x, y)
  }

  /** No edge leads back in the list, at any nesting level, except to the head of an enclosing cycle. */
  ghost predicate EdgesOK(g: Graph, cs: seq<Comp>) {
    cs == [] ||
    (&& NoEdges(g, Nodes(cs[1..]), NodesOf(cs[0]))
     && (match cs[0]
         case Vertex(n) => !g.Edge(n, n)
         case Cycle(_, body) => EdgesOK(g, body))
     && EdgesOK(g, cs[1..]))
  }

  /** No node occurs twice. */
  ghost predicate Distinct(cs: seq<Comp>) {
    cs == [] ||
    (&& Nodes(cs[1..]) !! NodesOf(cs[0])
     && (match cs[0]
         case Vertex(_) => true
         case Cycle(h, body) => h !in Nodes(body) && Distinct(body))
     && Distinct(cs[1..]))
  }

  /** `S` is a strongly connected region around `h` with an edge back to `h`. */
  ghost predicate Loop(g: Graph, S: set<Node>, h: Node) {
    && (forall x :: x in S ==> PathIn(g, S, h, x) && PathIn(g, S, x, h))
    && (exists x :: x in S && g.Edge(x, h))
  }

  /** Every cycle component, at any nesting level, is a loop of the graph through its head. */
  ghost predicate CyclesAreLoops(g: Graph, cs: seq<Comp>) {
    cs == [] ||
    (&& (match cs[0]
         case Vertex(_) => true
         case Cycle(h, body) => Loop(g, NodesOf(cs[0]), h) && CyclesAreLoops(g, body))
     && CyclesAreLoops(g, cs[1..]))
  }

  /** `h` heads a cycle component that contains `u`. */
  ghost predicate HeadsCycleOf(cs: seq<Comp>, h: Node, u: Node) {
    cs != [] &&
    (|| (match cs[0]
         case Vertex(_) => false
         case Cycle(k, body) => (h == k && u in NodesOf(cs[0])) || HeadsCycleOf(body, h, u))
     || HeadsCycleOf(cs[1..], h, u))
  }

  /** Some occurrence of `u` comes strictly before some occurrence of `v`. */
  ghost predicate Before(s: seq<Node>, u: Node, v: Node) {
    exists i, j :: 0 <= i < j < |s| && s[i] == u && s[j] == v
  }

  lemma BeforeFrame(a: seq<Node>, s: seq<Node>, b: seq<Node>, u: Node, v: Node)
    requires Before(s, u, v)
    ensures Before(a + s + b, u, v)
  {
    var i, j :| 0 <= i < j < |s| && s[i] == u && s[j] == v;
    assert (a + s + b)[|a| + i] == u && (a + s + b)[|a| + j] == v;
  }

  lemma BeforeSplit(a: seq<Node>, b: seq<Node>, u: Node, v: Node)
    requires u in a && v in b
    ensures Before(a + b, u, v)
  {
    var i :| 0 <= i < |a| && a[i] == u;
    var j :| 0 <= j < |b| && b[j] == v;
    assert (a + b)[i] == u && (a + b)[|a| + j] == v;
  }

  lemma {:induction false} FlatNodes(cs: seq<Comp>)
    ensures forall n :: n in Flat(cs) <==> n in Nodes(cs)
  {
    if cs != [] {
      FlatNodes(cs[1..]);
      if cs[0].Cycle? {
        FlatNodes(cs[0].body);
      }
    }
  }

  /** Distinct trees flatten to a list without repetition: each node occurs exactly once. */
  lemma {:induction false} DistinctFlat(cs: seq<Comp>)
    requires Distinct(cs)
    ensures forall i, j :: 0 <= i < j < |Flat(cs)| ==> Flat(cs)[i] != Flat(cs)[j]
  {
    if cs != [] {
      DistinctFlat(cs[1..]);
      FlatNodes(cs[1..]);
      var rest := Flat(cs[1..]);
      if cs[0].Cycle? {
        DistinctFlat(cs[0].body);
        FlatNodes(cs[0].body);
        var first := [cs[0].head] + Flat(cs[0].body);
        assert Flat(cs) == first + rest;
        assert forall n :: n in first ==> n in NodesOf(cs[0]);
        assert forall i :: 0 <= i < |rest| ==> rest[i] in Nodes(cs[1..]);
      } else {
        assert Flat(cs) == [cs[0].node] + rest;
        assert forall i :: 0 <= i < |rest| ==> rest[i] in Nodes(cs[1..]);
      }
    }
  }

  /** The theorem of weak topological orders: an edge goes forward in the order, or back to the
      head of a cycle component that contains its source. */
  lemma {:induction false} EdgeForwardOrToHead(g: Graph, cs: seq<Comp>, u: Node, v: Node)
    requires EdgesOK(g, cs) && u in Nodes(cs) && v in Nodes(cs) && g.Edge(u, v)
    ensures Before(Flat(cs), u, v) || HeadsCycleOf(cs, v, u)
  {
    var c, rest := cs[0], cs[1..];
    FlatNodes(rest);
    var first := match c case Vertex(n) => [n] case Cycle(h, body) => [h] + Flat(body);
    assert Flat(cs) == first + Flat(rest);
    if c.Cycle? {
      FlatNodes(c.body);
    }
    if u in Nodes(rest) {
      assert v in Nodes(rest);
      EdgeForwardOrToHead(g, rest, u, v);
      if Before(Flat(rest), u, v) {
        BeforeFrame(first, Flat(rest), [], u, v);
        assert first + Flat(rest) + [] == first + Flat(rest);
      }
    } else if v in Nodes(rest) {
      BeforeSplit(first, Flat(rest), u, v);
    } else if c.Cycle? && v != c.head {
      if u == c.head {
        BeforeSplit([u], Flat(c.body), u, v);
        BeforeFrame([], first, Flat(rest), u, v);
        assert [] + first == first;
      } else {
        EdgeForwardOrToHead(g, c.body, u, v);
        if Before(Flat(c.body), u, v) {
          BeforeFrame([c.head], Flat(c.body), Flat(rest), u, v);
        }
      }
    }
  }

  // Concatenation and prefixing, as the builder grows its partition at the front.

  lemma {:induction false} NodesConcat(a: seq<Comp>, b: seq<Comp>)
    ensures Nodes(a + b) == Nodes(a) + Nodes(b)
  {
    if a == [] {
      assert a + b == b;
    } else {
      assert (a + b)[1..] == a[1..] + b;
      NodesConcat(a[1..], b);
    }
  }

  lemma ListAssoc(a: seq<Comp>, b: seq<Comp>, c: seq<Comp>)
    ensures a + (b + c) == (a + b) + c
  {
  }

  lemma MergeAssoc(a: map<Node, Comp>, b: map<Node, Comp>, c: map<Node, Comp>)
    ensures (a + b) + c == a + (b + c)
  {
  }

  lemma HeadMapNone()
    ensures HeadMap([]) == map[]
  {
  }

  lemma HeadMapFirst(cs: seq<Comp>)
    requires cs != []
    ensures HeadMap(cs) == HeadMap(cs[1..]) + HeadMap([cs[0]])
  {
    assert [cs[0]][1..] == [];
  }

  lemma {:induction false} HeadMapConcat(a: seq<Comp>, b: seq<Comp>)
    ensures HeadMap(a + b) == HeadMap(b) + HeadMap(a)
  {
    if a == [] {
      assert a + b == b;
    } else {
      hide HeadMap;
      HeadMapFirst(a + b);
      HeadMapFirst(a);
      assert (a + b)[1..] == a[1..] + b;
      HeadMapConcat(a[1..], b);
      MergeAssoc(HeadMap(b), HeadMap(a[1..]), HeadMap([a[0]]));
    }
  }

  lemma {:induction false} HeadMapNodes(cs: seq<Comp>)
    ensures HeadMap(cs).Keys <= Nodes(cs)
  {
    if cs != [] {
      HeadMapNodes(cs[1..]);
      if cs[0].Cycle? {
        HeadMapNodes(cs[0].body);
      }
    }
  }

  lemma HeadMapCycle(h: Node, body: seq<Comp>)
    ensures HeadMap([Cycle(h, body)]) == HeadMap(body) + map[h := Cycle(h, body)]
    ensures Nodes([Cycle(h, body)]) == {h} + Nodes(body)
  {
    assert [Cycle(h, body)][1..] == [];
  }

  /** What holds of every component list the builder produces. */
  ghost predicate Correct(g: Graph, cs: seq<Comp>) {
    EdgesOK(g, cs) && Distinct(cs) && CyclesAreLoops(g, cs)
  }

  lemma {:induction false} CorrectConcat(g: Graph, a: seq<Comp>, b: seq<Comp>)
    requires Correct(g, a) && Correct(g, b)
    requires Nodes(a) !! Nodes(b) && NoEdges(g, Nodes(b), Nodes(a))
    ensures Correct(g, a + b)
  {
    if a == [] {
      assert a + b == b;
    } else {
      var ab := a + b;
      assert ab[1..] == a[1..] + b && ab[0] == a[0];
      assert Nodes(a) == NodesOf(a[0]) + Nodes(a[1..]);
      NodesConcat(a[1..], b);
      CorrectConcat(g, a[1..], b);
    }
  }

  lemma CorrectVertex(g: Graph, n: Node)
    requires !g.Edge(n, n)
    ensures Correct(g, [Vertex(n)]) && Nodes([Vertex(n)]) == {n} && HeadMap([Vertex(n)]) == map[]
  {
    assert [Vertex(n)][1..] == [];
  }

  lemma CorrectCycle(g: Graph, h: Node, body: seq<Comp>)
    requires Correct(g, body) && h !in Nodes(body) && Loop(g, {h} + Nodes(body), h)
    ensures Correct(g, [Cycle(h, body)]) && Nodes([Cycle(h, body)]) == {h} + Nodes(body)
  {
    assert [Cycle(h, body)][1..] == [];
  }
}
