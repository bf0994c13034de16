/** One step of the depth-first search at a time: each lemma carries the scan of a node's
    out-edges, or its end, from one snapshot to the next. */
module WtoSteps {
  import opened Graphs
  import opened WtoMarks
  import WtoTree

  lemma GrownConcat(m0: Marks, m: Marks, m': Marks)
    requires m0.stack <= m.stack <= m'.stack
    ensures Grown(m0, m') == Grown(m0, m) + Grown(m, m')
  {
    assert m'.stack[|m0.stack|..] == m.stack[|m0.stack|..] + m'.stack[|m.stack|..];
  }

  lemma GrownOnStack(g: Graph, m0: Marks, m: Marks, x: Node)
    requires Inv(g, m) && m0.stack <= m.stack && x in m.stack
    ensures m.OnStack(x)
    ensures x in Elems(m0.stack) || x in Grown(m0, m)
  {
    var k :| 0 <= k < |m.stack| && m.stack[k] == x;
    if k < |m0.stack| {
      assert m0.stack[k] == x;
    } else {
      assert m.stack[|m0.stack|..][k - |m0.stack|] == x;
    }
  }

  /** `node` sits right above the old stack, with the first number after the old counter. */
  ghost predicate Above(m0: Marks, m: Marks, node: Node) {
    && m0.stack <= m.stack && |m0.stack| < |m.stack|
    && m.stack[|m0.stack|] == node && m.Of(node) == Num(m0.num + 1)
  }

  lemma StackOrder(g: Graph, m: Marks, i: nat, j: nat)
    requires Inv(g, m) && i < |m.stack| && j < |m.stack|
    ensures m.OnStack(m.stack[i]) && m.OnStack(m.stack[j])
    ensures m.Of(m.stack[i]).n < m.Of(m.stack[j]).n <==> i < j
    ensures m.stack[i] == m.stack[j] ==> i == j
  {
    assert j < i ==> m.Of(m.stack[j]).n < m.Of(m.stack[i]).n;
  }

  /** Only `node` and what lies above it carry a number beyond the old counter. */
  lemma NumbersAboveNode(g: Graph, m0: Marks, m: Marks, node: Node, x: Node)
    requires Inv(g, m) && Above(m0, m, node) && x in m.stack
    ensures m.OnStack(x)
    ensures x in m0.stack ==> m.Of(x).n <= m0.num && x !in Grown(m0, m)
    ensures x !in m0.stack ==> m.Of(x).n >= m0.num + 1 && x in Grown(m0, m)
    ensures m.Of(x) == Num(m0.num + 1) ==> x == node
  {
    hide Inv;
    var at := |m0.stack|;
    var k :| 0 <= k < |m.stack| && m.stack[k] == x;
    StackOrder(g, m, k, at);
    StackOrder(g, m, at, k);
    if k < at {
      assert m0.stack[k] == x;
      forall j | at <= j < |m.stack| ensures m.stack[j] != x {
        StackOrder(g, m, j, k);
      }
      assert forall j :: 0 <= j < |m.stack[at..]| ==> m.stack[at..][j] == m.stack[at + j];
    } else {
      assert m.stack[at..][k - at] == x;
      forall j | 0 <= j < at ensures m0.stack[j] != x {
        StackOrder(g, m, j, k);
      }
    }
  }

  /** An out-edge to a node that is already visited. */
  lemma ScanSeen(g: Graph, m0: Marks, m: Marks, node: Node, W: set<Node>, i: nat, head: nat, loop: bool)
    requires node in g.out && i < |g.out[node]|
    requires Inv(g, m0) && Scanning(g, m0, m, node, W, i, head, loop)
    requires m.Of(g.out[node][i]) != Num(0)
    ensures
      var min := m.Of(g.out[node][i]);
      if AtMost(min, head) then Scanning(g, m0, m, node, W, i + 1, min.n, true)
      else Scanning(g, m0, m, node, W, i + 1, head, loop)
  {
    hide PathIn, Escapes, Returns, SuccsPlaced, AllReachedFrom, AllReturn, LowBound, Inv, Frame;
    var succ := g.out[node][i];
    var min := m.Of(succ);
    assert g.Edge(node, succ);
    assert node in Grown(m0, m) by { assert m.stack[|m0.stack|..][0] == node; }
    LowBoundLower(g, m, Grown(m0, m) - {node}, head, if AtMost(min, head) then min.n else head);
    SuccsSeenLower(g, m, node, i, head, if AtMost(min, head) then min.n else head);
    FramePrefix(g, m0, m);
    if m.OnStack(succ) {
      StackHolds(g, m, succ);
      NumbersAboveNode(g, m0, m, node, succ);
      OldNumber(g, m0, m, succ);
      if !loop {
        AllAtMostTop(g, m, m0, node, succ);
      }
    }
  }

  lemma StackHolds(g: Graph, m: Marks, x: Node)
    requires Inv(g, m) && m.OnStack(x)
    ensures x in m.stack && m.Of(x).n <= m.num && x in g.nodes
  {
  }

  lemma OldNumber(g: Graph, m0: Marks, m: Marks, x: Node)
    requires Frame(g, m0, m)
    ensures x in m0.stack ==> m.Of(x) == m0.Of(x)
  {
  }

  lemma LowBoundLower(g: Graph, m: Marks, X: set<Node>, head: nat, head': nat)
    requires LowBound(g, m, X, head) && head' <= head
    ensures LowBound(g, m, X, head')
  {
  }

  lemma SuccsSeenLower(g: Graph, m: Marks, node: Node, i: nat, head: nat, head': nat)
    requires node in g.out && i <= |g.out[node]| && SuccsSeen(g, m, node, i, head) && head' <= head
    ensures SuccsSeen(g, m, node, i, head')
  {
  }

  /** Placed nodes stay placed and stacked nodes keep their number. */
  lemma Persist(g: Graph, m: Marks, m': Marks)
    requires Inv(g, m) && Frame(g, m, m')
    ensures forall y :: m.Of(y) == Inf ==> m'.Of(y) == Inf
    ensures forall y :: m.OnStack(y) ==> m'.Of(y) == m.Of(y)
  {
    forall y | m.Of(y) == Inf ensures m'.Of(y) == Inf {
      assert y in m.Placed();
    }
  }

  lemma FrameTrans(g: Graph, m0: Marks, m: Marks, m': Marks, S: set<Node>)
    requires Inv(g, m) && Frame(g, m0, m) && Frame(g, m, m')
    requires NewlyPlaced(m0, m) + Grown(m0, m) <= S
    requires NewlyPlaced(m, m') + Grown(m, m') <= S
    ensures Frame(g, m0, m')
    ensures NewlyPlaced(m0, m') == NewlyPlaced(m0, m) + NewlyPlaced(m, m')
    ensures NewlyPlaced(m0, m') + Grown(m0, m') <= S
  {
    GrownConcat(m0, m, m');
    forall n | n in m0.stack ensures m'.Of(n) == m0.Of(n) {
      var k :| 0 <= k < |m0.stack| && m0.stack[k] == n;
      assert m.stack[k] == n;
    }
  }

  lemma PlacedTrans(g: Graph, m0: Marks, m: Marks, m': Marks)
    requires Inv(g, m) && Frame(g, m, m')
    requires NewlyPlaced(m0, m') == NewlyPlaced(m0, m) + NewlyPlaced(m, m')
    requires SuccsPlaced(g, m, NewlyPlaced(m0, m)) && SuccsPlaced(g, m', NewlyPlaced(m, m'))
    ensures SuccsPlaced(g, m', NewlyPlaced(m0, m'))
  {
    Persist(g, m, m');
  }

  lemma LowTrans(g: Graph, m: Marks, m': Marks, node: Node, X: set<Node>, i: nat, head: nat, head': nat)
    requires Inv(g, m) && Frame(g, m, m') && head' <= head
    requires node in g.out && i <= |g.out[node]|
    requires LowBound(g, m, X, head) && SuccsSeen(g, m, node, i, head)
    ensures LowBound(g, m', X, head') && SuccsSeen(g, m', node, i, head')
  {
    Persist(g, m, m');
  }

  /** What grew above `node` is numbered above it. */
  lemma GrownNumbers(g: Graph, m: Marks, m': Marks, node: Node, x: Node)
    requires Inv(g, m') && m.stack <= m'.stack && node in m.stack && x in Grown(m, m')
    ensures m'.OnStack(node) && m'.OnStack(x) && m'.Of(x).n > m'.Of(node).n
  {
    var j :| 0 <= j < |m.stack| && m.stack[j] == node;
    var k :| 0 <= k < |m'.stack[|m.stack|..]| && m'.stack[|m.stack|..][k] == x;
    assert m'.stack[j] == node && m'.stack[|m.stack| + k] == x;
  }

  lemma NodeStacked(m0: Marks, m: Marks, node: Node)
    requires |m.stack| > |m0.stack| && m.stack[|m0.stack|] == node
    ensures node in Grown(m0, m) && node in m.stack
  {
    assert m.stack[|m0.stack|..][0] == node;
  }

  /** What a nested visit finds is reached through the edge to it. */
  lemma FoundExtends(g: Graph, m0: Marks, m: Marks, m': Marks, node: Node, succ: Node)
    requires m0.stack <= m.stack <= m'.stack && node in Grown(m0, m) && g.Edge(node, succ)
    requires NewlyPlaced(m0, m') == NewlyPlaced(m0, m) + NewlyPlaced(m, m')
    requires AllReachedFrom(g, Found(m0, m), node) && AllReachedFrom(g, Found(m, m'), succ)
    ensures AllReachedFrom(g, Found(m0, m'), node)
  {
    hide PathIn, NewlyPlaced, Grown;
    var earlier, later, all := Found(m0, m), Found(m, m'), Found(m0, m');
    GrownConcat(m0, m, m');
    assert all == earlier + later;
    forall x | x in all ensures PathIn(g, all, node, x) {
      if x in earlier {
        PathMono(g, earlier, all, node, x);
      } else {
        PathEnds(g, later, succ, x);
        PathMono(g, later, all, succ, x);
        PathStep(g, all, node, succ);
        PathTrans(g, all, node, succ, x);
      }
    }
  }

  /** A nested visit that closed its component leaves the scan's stack alone. */
  lemma ScanClosed(
    g: Graph, m0: Marks, m: Marks, m': Marks, node: Node, succ: Node, W: set<Node>,
    i: nat, head: nat, loop: bool, min: nat
  )
    requires node in g.out && i < |g.out[node]| && succ == g.out[node][i]
    requires Inv(g, m0) && Scanning(g, m0, m, node, W, i, head, loop)
    requires Visited(g, m, m', succ, W, min) && m'.stack == m.stack
    ensures min > head && Scanning(g, m0, m', node, W, i + 1, head, loop)
  {
    hide PathIn, Escapes, Returns, Inv, SuccsPlaced, LowBound, AllReachedFrom, AllReturn, AllEscape, BackEdge;
    assert Grown(m0, m') == Grown(m0, m);
    FrameTrans(g, m0, m, m', W * Unvisited(g, m0));
    PlacedTrans(g, m0, m, m');
    LowTrans(g, m, m', node, Grown(m0, m) - {node}, i, head, head);
    NodeStacked(m0, m, node);
    FoundExtends(g, m0, m, m', node, succ);
    NumberAfter(g, m, m', node);
    Persist(g, m, m');
  }

  lemma NumberAfter(g: Graph, m: Marks, m': Marks, node: Node)
    requires Inv(g, m) && Frame(g, m, m') && node in m.stack
    ensures m'.Of(node) == m.Of(node) && m.OnStack(node) && m.Of(node).n <= m.num
  {
  }

  function Lower(a: nat, b: nat): nat {
    if a <= b then a else b
  }

  /** A nested visit that stayed open adds its descendants to the scan's part of the stack. */
  lemma ScanOpen(
    g: Graph, m0: Marks, m: Marks, m': Marks, node: Node, succ: Node, W: set<Node>,
    i: nat, head: nat, loop: bool, min: nat
  )
    requires node in g.out && i < |g.out[node]| && succ == g.out[node][i]
    requires Inv(g, m0) && Scanning(g, m0, m, node, W, i, head, loop)
    requires Visited(g, m, m', succ, W, min) && m'.stack != m.stack
    ensures Scanning(g, m0, m', node, W, i + 1, Lower(min, head), loop || min <= head)
  {
    hide PathIn, Escapes, Returns, Inv, SuccsPlaced, LowBound, SuccsSeen;
    hide AllReachedFrom, AllReturn, AllEscape, BackEdge;
    var head' := Lower(min, head);
    GrownConcat(m0, m, m');
    FrameTrans(g, m0, m, m', W * Unvisited(g, m0));
    PlacedTrans(g, m0, m, m');
    LowTrans(g, m, m', node, Grown(m0, m) - {node}, i, head, head');
    NodeStacked(m0, m, node);
    NumberAfter(g, m, m', node);
    GrownNumbers(g, m, m', node, succ);
    OpenLow(g, m0, m, m', node, succ, i, head', min);
    OpenPaths(g, m0, m, m', node, succ);
    FoundExtends(g, m0, m, m', node, succ);
    OpenHead(g, m0, m, m', node, W, i, head, loop, min);
  }

  lemma OpenLow(g: Graph, m0: Marks, m: Marks, m': Marks, node: Node, succ: Node, i: nat, head': nat, min: nat)
    requires node in g.out && i < |g.out[node]| && succ == g.out[node][i]
    requires m0.stack <= m.stack <= m'.stack && head' <= min
    requires LowBound(g, m', Grown(m0, m) - {node}, head') && LowBound(g, m', Grown(m, m'), min)
    requires SuccsSeen(g, m', node, i, head') && m'.OnStack(succ) && m'.Of(succ).n >= head'
    ensures LowBound(g, m', Grown(m0, m') - {node}, head') && SuccsSeen(g, m', node, i + 1, head')
  {
    GrownConcat(m0, m, m');
  }

  lemma OpenPaths(g: Graph, m0: Marks, m: Marks, m': Marks, node: Node, succ: Node)
    requires m0.stack <= m.stack <= m'.stack
    requires node in Grown(m0, m) && succ in Grown(m, m') && g.Edge(node, succ)
    requires AllReachedFrom(g, Grown(m0, m), node) && AllReturn(g, Grown(m0, m), node, Elems(m0.stack))
    requires AllReachedFrom(g, Grown(m, m'), succ) && AllEscape(g, m, Grown(m, m'))
    ensures AllReachedFrom(g, Grown(m0, m'), node) && AllReturn(g, Grown(m0, m'), node, Elems(m0.stack))
  {
    hide PathIn, Escapes, Returns;
    var kept, added, all := Grown(m0, m), Grown(m, m'), Grown(m0, m');
    GrownConcat(m0, m, m');
    assert Elems(m.stack) == kept + Elems(m0.stack) by {
      assert m.stack == m0.stack + m.stack[|m0.stack|..];
    }
    assert kept + added == all;
    PathStep(g, all, node, succ);
    forall x | x in all
      ensures PathIn(g, all, node, x) && Returns(g, all, x, node, Elems(m0.stack))
    {
      if x in kept {
        PathMono(g, kept, all, node, x);
        ReturnsMono(g, kept, all, x, node, Elems(m0.stack));
      } else {
        PathMono(g, added, all, succ, x);
        PathTrans(g, all, node, succ, x);
        EscapeThenReturn(g, kept, added, x, node, Elems(m0.stack));
      }
    }
  }

  /** The low number a nested visit reports is the new low number of the scan, or no news. */
  lemma OpenHead(
    g: Graph, m0: Marks, m: Marks, m': Marks, node: Node, W: set<Node>, i: nat, head: nat, loop: bool, min: nat
  )
    requires Inv(g, m0) && Scanning(g, m0, m, node, W, i, head, loop)
    requires m.stack <= m'.stack && BackEdge(g, m, Grown(m, m'), min)
    ensures head <= m0.num ==> BackEdge(g, m0, Grown(m0, m'), head)
    ensures min <= m0.num ==> BackEdge(g, m0, Grown(m0, m'), min)
    ensures min == m0.num + 1 ==> exists x :: x in Grown(m0, m') && g.Edge(x, node)
    ensures !loop ==> min <= head
  {
    hide PathIn, Escapes, Returns, Inv, Grown, NewlyPlaced, SuccsPlaced, LowBound, SuccsSeen, BackEdge;
    GrownConcat(m0, m, m');
    if head <= m0.num {
      BackEdgeGrows(g, m0, Grown(m0, m), Grown(m0, m'), head);
    }
    BackEdgeBelow(g, m0, m, Grown(m, m'), node, min);
    if min <= m0.num {
      BackEdgeGrows(g, m0, Grown(m, m'), Grown(m0, m'), min);
    }
    if !loop {
      BackEdgeToTop(g, m0, m, Grown(m, m'), node, min);
    }
  }

  lemma BackEdgeGrows(g: Graph, m0: Marks, X: set<Node>, Y: set<Node>, head: nat)
    requires BackEdge(g, m0, X, head) && X <= Y
    ensures BackEdge(g, m0, Y, head)
  {
  }

  /** A back edge into the stack with `node` on it leads to the old stack or to `node` itself. */
  lemma BackEdgeBelow(g: Graph, m0: Marks, m: Marks, X: set<Node>, node: Node, min: nat)
    requires Inv(g, m) && Frame(g, m0, m) && Above(m0, m, node) && BackEdge(g, m, X, min)
    ensures min <= m0.num ==> BackEdge(g, m0, X, min)
    ensures min == m0.num + 1 ==> exists x :: x in X && g.Edge(x, node)
  {
    hide Inv;
    var bx, bt :| bx in X && bt in m.stack && g.Edge(bx, bt) && m.Of(bt) == Num(min);
    NumbersAboveNode(g, m0, m, node, bt);
  }

  lemma BackEdgeToTop(g: Graph, m0: Marks, m: Marks, X: set<Node>, node: Node, min: nat)
    requires Inv(g, m) && m.stack == m0.stack + [node] && m.OnStack(node) && BackEdge(g, m, X, min)
    ensures min <= m.Of(node).n
  {
    hide Inv;
    var bx, bt :| bx in X && bt in m.stack && g.Edge(bx, bt) && m.Of(bt) == Num(min);
    AllAtMostTop(g, m, m0, node, bt);
  }

  lemma AllAtMostTop(g: Graph, m: Marks, m0: Marks, node: Node, y: Node)
    requires Inv(g, m) && m.stack == m0.stack + [node] && y in m.stack && m.OnStack(node)
    ensures m.Of(y).n <= m.Of(node).n
  {
    var k :| 0 <= k < |m.stack| && m.stack[k] == y;
    assert m.stack[|m0.stack|] == node;
  }

  /** The scan is over and `node` reaches below itself: it stays open on the stack. */
  lemma FinishOpen(g: Graph, m0: Marks, m: Marks, node: Node, W: set<Node>, head: nat, loop: bool)
    requires node in g.out && Inv(g, m0) && Scanning(g, m0, m, node, W, |g.out[node]|, head, loop) && head <= m0.num
    ensures Visited(g, m0, m, node, W, head)
  {
    hide PathIn, Escapes, Returns, SuccsPlaced, AllReachedFrom, AllReturn, SuccsSeen, Inv, Frame;
    var X := Grown(m0, m);
    NodeStacked(m0, m, node);
    var bx, bt :| bx in X && bt in m0.stack && g.Edge(bx, bt) && m0.Of(bt) == Num(head);
    ReachedOne(g, X, node, bx);
    EscapesByEdge(g, X, node, bx, bt, Elems(m0.stack));
    AllReturnsEscape(g, X, node, Elems(m0.stack));
    InvGraph(g, m0);
    NodeEdges(g, m, node, head);
  }

  lemma ReachedOne(g: Graph, X: set<Node>, node: Node, x: Node)
    requires AllReachedFrom(g, X, node) && x in X
    ensures PathIn(g, X, node, x)
  {
  }

  lemma AllReturnsEscape(g: Graph, X: set<Node>, node: Node, T: set<Node>)
    requires AllReturn(g, X, node, T) && Escapes(g, X, node, T)
    ensures forall x :: x in X ==> Escapes(g, X, x, T)
  {
    hide PathIn, Escapes;
    forall x | x in X ensures Escapes(g, X, x, T) {
      if PathIn(g, X, x, node) {
        EscapesAfter(g, X, x, node, T);
      }
    }
  }

  lemma NodeEdges(g: Graph, m: Marks, node: Node, head: nat)
    requires g.Valid() && node in g.nodes
    requires SuccsSeen(g, m, node, |g.out[node]|, head)
    ensures LowBound(g, m, {node}, head)
  {
  }

  /** When nothing below `node` is reached, every edge out of the open part stays in it or
      leads to a placed node, and the open part is strongly connected. */
  lemma RootIsolated(g: Graph, m0: Marks, m: Marks, node: Node, W: set<Node>, loop: bool)
    requires node in g.out && Inv(g, m0) && Scanning(g, m0, m, node, W, |g.out[node]|, m0.num + 1, loop)
    ensures node in Grown(m0, m)
    ensures forall x, y :: x in Grown(m0, m) && g.Edge(x, y) ==> y in Grown(m0, m) || m.Of(y) == Inf
    ensures forall x :: x in Grown(m0, m) ==> PathIn(g, Grown(m0, m), x, node)
  {
    hide PathIn, Escapes, Returns, SuccsPlaced, AllReachedFrom, AllReturn, SuccsSeen, Inv, Frame;
    var X := Grown(m0, m);
    NodeStacked(m0, m, node);
    InvGraph(g, m0);
    FramePrefix(g, m0, m);
    NodeEdges(g, m, node, m0.num + 1);
    forall x, y | x in X && g.Edge(x, y) ensures y in X || m.Of(y) == Inf {
      if m.Of(y) != Inf {
        assert m.OnStack(y) && m.Of(y).n >= m0.num + 1;
        StackHolds(g, m, y);
        NumbersAboveNode(g, m0, m, node, y);
      }
    }
    forall x, y | x in X && y in Elems(m0.stack) ensures !g.Edge(x, y) {
      var k :| 0 <= k < |m0.stack| && m0.stack[k] == y;
      assert m.stack[k] == y;
      NumbersAboveNode(g, m0, m, node, y);
    }
    NoEscape(g, X, node, Elems(m0.stack));
  }

  lemma FramePrefix(g: Graph, m0: Marks, m: Marks)
    requires Frame(g, m0, m)
    ensures m0.stack <= m.stack && m0.num <= m.num
  {
  }

  lemma NoEscape(g: Graph, X: set<Node>, node: Node, T: set<Node>)
    requires AllReturn(g, X, node, T) && forall x, y :: x in X && y in T ==> !g.Edge(x, y)
    ensures forall x :: x in X ==> PathIn(g, X, x, node)
  {
    hide PathIn;
  }

  /** Popping the open part off the stack: `node` is placed, the others are unvisited again. */
  ghost predicate Popped(g: Graph, m0: Marks, m: Marks, m1: Marks, node: Node)
    requires |m0.stack| <= |m.stack|
  {
    && m1.stack == m0.stack
    && m1.num == m.num
    && m1.cdn.Keys <= g.nodes
    && m1.Of(node) == Inf
    && (forall n :: n in Grown(m0, m) && n != node ==> m1.Of(n) == Num(0))
    && (forall n :: n !in Grown(m0, m) ==> m1.Of(n) == m.Of(n))
  }

  /** What `component(node)` needs: the other open nodes form an unvisited region around `node`. */
  ghost predicate ComponentReady(g: Graph, m: Marks, node: Node, W: set<Node>) {
    && Inv(g, m)
    && node in g.nodes && m.Of(node) == Inf
    && W <= Unvisited(g, m)
    && (forall x, y :: x in W + {node} && g.Edge(x, y) ==> y in W || m.Of(y) == Inf)
    && AllReachedFrom(g, W + {node}, node)
  }

  lemma FinishPop(g: Graph, m0: Marks, m: Marks, m1: Marks, node: Node, W: set<Node>)
    requires node in g.out && Inv(g, m0) && Scanning(g, m0, m, node, W, |g.out[node]|, m0.num + 1, true)
    requires Popped(g, m0, m, m1, node)
    ensures ComponentReady(g, m1, node, Grown(m0, m) - {node})
    ensures WtoTree.Loop(g, Grown(m0, m), node)
    ensures m1.Placed() == m.Placed() + {node} && node !in m.Placed()
  {
    hide PathIn, Escapes, Returns, Inv, SuccsPlaced, LowBound, SuccsSeen, AllReturn, BackEdge;
    var X := Grown(m0, m);
    RootIsolated(g, m0, m, node, W, true);
    assert X - {node} + {node} == X;
    PopInv(g, m0, m, m1, node);
    InvGraph(g, m0);
  }

  lemma InvGraph(g: Graph, m: Marks)
    requires Inv(g, m)
    ensures g.Valid()
  {
  }

  lemma PopInv(g: Graph, m0: Marks, m: Marks, m1: Marks, node: Node)
    requires Inv(g, m0) && Inv(g, m) && Frame(g, m0, m) && Above(m0, m, node) && Popped(g, m0, m, m1, node)
    ensures Inv(g, m1)
    ensures m1.Placed() == m.Placed() + {node} && node !in m.Placed()
    ensures forall n :: n in m0.stack ==> m1.Of(n) == m0.Of(n)
    ensures Grown(m0, m) !! m.Placed()
    ensures Grown(m0, m) - {node} <= Unvisited(g, m1)
  {
    var X := Grown(m0, m);
    NodeStacked(m0, m, node);
    forall x | x in X ensures m.OnStack(x) && x in g.nodes { StackOf(g, m0, m, x); }
    forall n | n in m0.stack ensures n !in X && m1.Of(n) == m0.Of(n) {
      OldNumberKept(g, m0, m, m1, node, n);
    }
    assert forall n :: m1.Of(n) == Inf <==> n == node || m.Of(n) == Inf;
    PoppedStack(g, m0, m, m1, node);
  }

  lemma OldNumberKept(g: Graph, m0: Marks, m: Marks, m1: Marks, node: Node, n: Node)
    requires Inv(g, m) && Frame(g, m0, m) && Above(m0, m, node) && Popped(g, m0, m, m1, node) && n in m0.stack
    ensures n !in Grown(m0, m) && m1.Of(n) == m0.Of(n)
  {
    var k :| 0 <= k < |m0.stack| && m0.stack[k] == n;
    assert m.stack[k] == n;
    NumbersAboveNode(g, m0, m, node, n);
  }

  lemma PoppedStack(g: Graph, m0: Marks, m: Marks, m1: Marks, node: Node)
    requires Inv(g, m0) && Inv(g, m) && m0.stack <= m.stack && Popped(g, m0, m, m1, node) && m0.num <= m.num
    requires forall n :: n in m0.stack ==> m1.Of(n) == m0.Of(n)
    ensures Inv(g, m1)
  {
    forall n | m1.OnStack(n) ensures n in m1.stack {
      GrownOnStack(g, m0, m, n);
    }
  }

  /** `node` closes without a loop: it becomes a single-node component. */
  lemma FinishVertex(g: Graph, m0: Marks, m: Marks, m': Marks, node: Node, W: set<Node>)
    requires node in g.out && Inv(g, m0) && Scanning(g, m0, m, node, W, |g.out[node]|, m0.num + 1, false)
    requires m' == Marks(m0.stack, m.num, m.cdn[node := Inf])
    ensures m.stack == m0.stack + [node]
    ensures Visited(g, m0, m', node, W, m0.num + 1)
    ensures NewlyPlaced(m0, m') == NewlyPlaced(m0, m) + {node} && node !in NewlyPlaced(m0, m)
    ensures !g.Edge(node, node)
    ensures WtoTree.NoEdges(g, NewlyPlaced(m0, m), {node})
  {
    hide PathIn, Escapes, Returns, Inv, LowBound, AllReturn, AllReachedFrom, BackEdge;
    assert m.stack[|m0.stack|..] == [node];
    assert Grown(m0, m) == {node};
    assert Grown(m0, m') == {};
    NodeStacked(m0, m, node);
    InvGraph(g, m0);
    assert node in g.nodes && m'.cdn.Keys <= g.nodes by { InvKeys(g, m); }
    PopInv(g, m0, m, m', node);
    assert forall n :: n != node ==> m'.Of(n) == m.Of(n);
    NothingOpen(g, m0, m', node, m0.num + 1);
    assert Found(m0, m') == Found(m0, m);
  }

  lemma InvKeys(g: Graph, m: Marks)
    requires Inv(g, m)
    ensures m.cdn.Keys <= g.nodes
  {
  }

  lemma StackOf(g: Graph, m0: Marks, m: Marks, x: Node)
    requires Inv(g, m) && m0.stack <= m.stack && x in Grown(m0, m)
    ensures x in m.stack && m.OnStack(x) && x in g.nodes
  {
    var k :| 0 <= k < |m.stack[|m0.stack|..]| && m.stack[|m0.stack|..][k] == x;
    assert m.stack[|m0.stack| + k] == x;
  }

  /** What `component(node)` leaves: the whole region is placed and the stack is untouched. */
  ghost predicate ComponentDone(g: Graph, m: Marks, m': Marks, W: set<Node>) {
    && Inv(g, m')
    && Frame(g, m, m')
    && m'.stack == m.stack
    && NewlyPlaced(m, m') == W
    && SuccsPlaced(g, m', W)
  }

  /** `node` closes with a loop: the open part becomes a cycle component headed by `node`. */
  lemma FinishCycle(g: Graph, m0: Marks, m: Marks, m1: Marks, m2: Marks, node: Node, W: set<Node>)
    requires node in g.out && Inv(g, m0) && Scanning(g, m0, m, node, W, |g.out[node]|, m0.num + 1, true)
    requires Popped(g, m0, m, m1, node)
    requires ComponentDone(g, m1, m2, Grown(m0, m) - {node})
    ensures Visited(g, m0, m2, node, W, m0.num + 1)
    ensures NewlyPlaced(m0, m2) == NewlyPlaced(m0, m) + Grown(m0, m)
    ensures NewlyPlaced(m0, m) !! Grown(m0, m)
    ensures WtoTree.NoEdges(g, NewlyPlaced(m0, m), Grown(m0, m))
  {
    hide PathIn, Escapes, Returns, Inv, LowBound, SuccsSeen, AllReturn, AllReachedFrom, BackEdge;
    var X := Grown(m0, m);
    PopInv(g, m0, m, m1, node);
    RootIsolated(g, m0, m, node, W, true);
    Persist(g, m1, m2);
    assert Grown(m0, m2) == {};
    assert m2.Placed() == m1.Placed() + (X - {node});
    assert m2.Placed() == m.Placed() + X;
    forall n | m2.Of(n) == Num(0) ensures m.Of(n) == Num(0) && n !in X {
      assert n !in m2.Placed() && n !in X;
      assert m1.Of(n) == m.Of(n);
    }
    forall x, y | x in NewlyPlaced(m0, m2) && g.Edge(x, y) ensures m2.Of(y) == Inf {
      if x in X {
        assert y in X || y in m.Placed();
      } else {
        assert x in NewlyPlaced(m0, m);
        assert m.Of(y) == Inf;
        assert y in m.Placed();
      }
      assert y in m2.Placed();
    }
    CycleFrame(g, m0, m, m1, m2, node);
    NothingOpen(g, m0, m2, node, m0.num + 1);
    assert Found(m0, m2) == Found(m0, m);
  }

  lemma NothingOpen(g: Graph, m0: Marks, m: Marks, node: Node, head: nat)
    ensures LowBound(g, m, {}, head) && AllReachedFrom(g, {}, node) && AllEscape(g, m0, {})
  {
  }

  lemma CycleFrame(g: Graph, m0: Marks, m: Marks, m1: Marks, m2: Marks, node: Node)
    requires Frame(g, m0, m) && Frame(g, m1, m2) && m1.stack == m0.stack && m1.num == m.num
    requires m2.Placed() == m.Placed() + Grown(m0, m)
    requires forall n :: n in m0.stack ==> m1.Of(n) == m0.Of(n)
    requires forall n :: m2.Of(n) == Num(0) ==> m.Of(n) == Num(0)
    ensures Frame(g, m0, m2)
  {
  }

  /** The components built between two snapshots: exactly the nodes placed meanwhile. */
  ghost predicate Built(g: Graph, m0: Marks, m: Marks, added: seq<WtoTree.Comp>) {
    WtoTree.Correct(g, added) && WtoTree.Nodes(added) == NewlyPlaced(m0, m)
  }

  /** Components found later go in front of those found earlier. */
  lemma BuiltInFront(g: Graph, m0: Marks, m: Marks, m': Marks, earlier: seq<WtoTree.Comp>, later: seq<WtoTree.Comp>)
    requires Built(g, m0, m, earlier) && Built(g, m, m', later)
    requires SuccsPlaced(g, m, NewlyPlaced(m0, m)) && Frame(g, m0, m) && Frame(g, m, m')
    ensures Built(g, m0, m', later + earlier)
  {
    WtoTree.NodesConcat(later, earlier);
    forall x, y | x in NewlyPlaced(m0, m) && y in NewlyPlaced(m, m') ensures !g.Edge(x, y) {
      assert g.Edge(x, y) ==> y in m.Placed();
    }
    WtoTree.CorrectConcat(g, later, earlier);
  }

  lemma NothingBuilt(g: Graph, m0: Marks, m: Marks)
    requires m.Placed() == m0.Placed()
    ensures Built(g, m0, m, [])
  {
  }

  /** The scan may call a visit of its next out-edge if that node is unvisited. */
  lemma ScanCall(g: Graph, m0: Marks, m: Marks, node: Node, W: set<Node>, i: nat, head: nat, loop: bool)
    requires Inv(g, m0) && Region(g, m0, W) && node in W && m0.Of(node) == Num(0)
    requires Scanning(g, m0, m, node, W, i, head, loop) && i < |g.out[node]|
    ensures Inv(g, m) && Region(g, m, W) && Frame(g, m0, m) && SuccsPlaced(g, m, NewlyPlaced(m0, m))
    ensures m.Of(g.out[node][i]) == Num(0) ==> g.out[node][i] in W
    ensures Unvisited(g, m) < Unvisited(g, m0) && m0.Placed() <= m.Placed()
  {
    hide PathIn, Escapes, Inv, LowBound, AllReachedFrom, AllReturn;
    assert g.Edge(node, g.out[node][i]);
    InvGraph(g, m0);
    assert node in Unvisited(g, m0) && node !in Unvisited(g, m);
    forall x, y | x in W && g.Edge(x, y) && m.Of(y) == Num(0) ensures y in W {
      assert y in Unvisited(g, m);
      assert y in Unvisited(g, m0);
    }
  }

  /** The scan of all out-edges is over. */
  lemma ScanEnd(g: Graph, m0: Marks, m: Marks, node: Node, W: set<Node>, head: nat, loop: bool)
    requires node in g.out && Scanning(g, m0, m, node, W, |g.out[node]|, head, loop)
    ensures Inv(g, m) && Above(m0, m, node) && Frame(g, m0, m) && 0 < head <= m0.num + 1
  {
  }

  lemma VertexBuilt(g: Graph, m0: Marks, m: Marks, m': Marks, node: Node, W: set<Node>, added: seq<WtoTree.Comp>)
    requires node in g.out && Inv(g, m0) && Scanning(g, m0, m, node, W, |g.out[node]|, m0.num + 1, false)
    requires m' == Marks(m0.stack, m.num, m.cdn[node := Inf])
    requires Built(g, m0, m, added)
    ensures Visited(g, m0, m', node, W, m0.num + 1)
    ensures Built(g, m0, m', [WtoTree.Vertex(node)] + added)
    ensures WtoTree.HeadMap([WtoTree.Vertex(node)] + added) == WtoTree.HeadMap(added)
    ensures m.stack == m0.stack + [node]
    ensures m.Placed() <= m'.Placed()
  {
    hide Visited, Inv;
    FinishVertex(g, m0, m, m', node, W);
    WtoTree.CorrectVertex(g, node);
    WtoTree.CorrectConcat(g, [WtoTree.Vertex(node)], added);
    WtoTree.NodesConcat([WtoTree.Vertex(node)], added);
    WtoTree.HeadMapConcat([WtoTree.Vertex(node)], added);
  }

  lemma CycleBuilt(g: Graph, m0: Marks, m: Marks, m1: Marks, m2: Marks, node: Node, W: set<Node>,
                   added: seq<WtoTree.Comp>, cycle: WtoTree.Comp)
    requires node in g.out && Inv(g, m0) && Scanning(g, m0, m, node, W, |g.out[node]|, m0.num + 1, true)
    requires Popped(g, m0, m, m1, node)
    requires ComponentDone(g, m1, m2, Grown(m0, m) - {node})
    requires Built(g, m0, m, added)
    requires cycle.Cycle? && cycle.head == node
    requires WtoTree.Correct(g, cycle.body) && WtoTree.Nodes(cycle.body) == Grown(m0, m) - {node}
    ensures Visited(g, m0, m2, node, W, m0.num + 1)
    ensures Built(g, m0, m2, [cycle] + added)
    ensures WtoTree.HeadMap([cycle] + added) == WtoTree.HeadMap(added) + WtoTree.HeadMap([cycle])
  {
    hide Visited, Inv, Scanning, PathIn, Popped, ComponentDone, ComponentReady;
    FinishPop(g, m0, m, m1, node, W);
    FinishCycle(g, m0, m, m1, m2, node, W);
    ScanEnd(g, m0, m, node, W, m0.num + 1, true);
    NodeStacked(m0, m, node);
    assert {node} + WtoTree.Nodes(cycle.body) == Grown(m0, m);
    WtoTree.CorrectCycle(g, node, cycle.body);
    WtoTree.NodesConcat([cycle], added);
    WtoTree.CorrectConcat(g, [cycle], added);
    WtoTree.HeadMapConcat([cycle], added);
  }

  lemma VisitedFrame(g: Graph, m: Marks, m': Marks, node: Node, W: set<Node>, low: nat)
    requires Visited(g, m, m', node, W, low)
    ensures Frame(g, m, m') && Inv(g, m')
  {
  }

  /** A nested visit, seen from the scan that made it. */
  lemma ScanVisited(
    g: Graph, m0: Marks, m: Marks, m': Marks, node: Node, succ: Node, W: set<Node>,
    i: nat, head: nat, loop: bool, min: nat
  )
    requires node in g.out && i < |g.out[node]| && succ == g.out[node][i]
    requires Inv(g, m0) && Scanning(g, m0, m, node, W, i, head, loop)
    requires Visited(g, m, m', succ, W, min)
    ensures Scanning(g, m0, m', node, W, i + 1, Lower(min, head), loop || min <= head)
  {
    hide Scanning, Visited;
    if m'.stack == m.stack {
      ScanClosed(g, m0, m, m', node, succ, W, i, head, loop, min);
    } else {
      ScanOpen(g, m0, m, m', node, succ, W, i, head, loop, min);
    }
  }

  /** The popping loop: `k` is the stack position of the element in hand, all above it are reset. */
  ghost predicate Popping(g: Graph, m0: Marks, m: Marks, stack: seq<Node>, cdn: map<Node, Cdn>, k: nat, node: Node) {
    && |m0.stack| <= k < |m.stack|
    && stack == m.stack[..k]
    && cdn.Keys <= g.nodes
    && GetCDN(cdn, node) == Inf
    && (forall j :: k < j < |m.stack| ==> GetCDN(cdn, m.stack[j]) == Num(0))
    && (forall n :: n !in m.stack[k + 1..] && n != node ==> GetCDN(cdn, n) == m.Of(n))
  }

  lemma PopStart(g: Graph, m0: Marks, m: Marks, node: Node)
    requires Inv(g, m) && Above(m0, m, node)
    ensures Popping(g, m0, m, m.stack[..|m.stack| - 1], m.cdn[node := Inf], |m.stack| - 1, node)
  {
    assert node in m.stack;
  }

  lemma PopNext(g: Graph, m0: Marks, m: Marks, stack: seq<Node>, cdn: map<Node, Cdn>, k: nat, node: Node)
    requires Inv(g, m) && Above(m0, m, node) && Popping(g, m0, m, stack, cdn, k, node) && m.stack[k] != node
    ensures k > |m0.stack| && Popping(g, m0, m, m.stack[..k - 1], cdn[m.stack[k] := Num(0)], k - 1, node)
  {
    var element := m.stack[k];
    var cdn' := cdn[element := Num(0)];
    assert m.stack[k..] == [element] + m.stack[k + 1..];
    assert element in g.nodes;
    forall n | n !in m.stack[k..] && n != node ensures GetCDN(cdn', n) == m.Of(n) {
      assert n != element;
    }
  }

  lemma PopDone(g: Graph, m0: Marks, m: Marks, m1: Marks, k: nat, node: Node)
    requires Inv(g, m) && Above(m0, m, node) && Popping(g, m0, m, m1.stack, m1.cdn, k, node)
    requires m.stack[k] == node && m1.num == m.num
    ensures Popped(g, m0, m, m1, node)
  {
    hide Inv;
    StackOrder(g, m, k, |m0.stack|);
    assert m.stack[k..] == [node] + m.stack[k + 1..];
    forall n | n in Grown(m0, m) && n != node ensures m1.Of(n) == Num(0) {
      var j :| 0 <= j < |m.stack[k..]| && m.stack[k..][j] == n;
      assert m.stack[k + j] == n;
    }
  }

  /** The loop of `component(node)` over the out-edges, after the first `i` of them. */
  ghost predicate Filling(g: Graph, m0: Marks, m: Marks, node: Node, W: set<Node>, i: nat) {
    && Inv(g, m)
    && Frame(g, m0, m)
    && m.stack == m0.stack
    && NewlyPlaced(m0, m) <= W
    && SuccsPlaced(g, m, NewlyPlaced(m0, m))
    && node in g.out && i <= |g.out[node]|
    && forall k :: 0 <= k < i ==> m.Of(g.out[node][k]) == Inf
  }

  /** The region can be left only to placed nodes, so nothing in it reaches the stack. */
  lemma RegionOffStack(g: Graph, m0: Marks, m: Marks, node: Node, W: set<Node>)
    requires ComponentReady(g, m0, node, W) && Inv(g, m) && Frame(g, m0, m) && m.stack == m0.stack
    ensures Region(g, m, W)
    ensures forall y :: y in W ==> y !in m.stack
    ensures forall x, y :: x in W + {node} && g.Edge(x, y) && m.Of(y) != Num(0) ==> m.Of(y) == Inf
  {
    Persist(g, m0, m);
  }

  lemma ComponentStart(g: Graph, m: Marks, node: Node, W: set<Node>)
    requires ComponentReady(g, m, node, W)
    ensures node in g.out && Filling(g, m, m, node, W, 0) && Built(g, m, m, []) && m.Of(node) == Inf
  {
  }

  /** The component loop may call a visit of its next out-edge if that node is unvisited. */
  lemma FillCall(g: Graph, m0: Marks, m: Marks, node: Node, W: set<Node>, i: nat)
    requires ComponentReady(g, m0, node, W) && Filling(g, m0, m, node, W, i) && i < |g.out[node]|
    ensures Inv(g, m) && Frame(g, m0, m) && Region(g, m, W) && SuccsPlaced(g, m, NewlyPlaced(m0, m))
    ensures m.Of(g.out[node][i]) == Num(0) ==> g.out[node][i] in W
    ensures m.Of(g.out[node][i]) != Num(0) ==> Filling(g, m0, m, node, W, i + 1)
    ensures m0.Placed() <= m.Placed() && Unvisited(g, m) <= Unvisited(g, m0)
  {
    RegionOffStack(g, m0, m, node, W);
    Persist(g, m0, m);
    assert g.Edge(node, g.out[node][i]);
  }

  lemma FillVisited(g: Graph, m0: Marks, m: Marks, m': Marks, node: Node, W: set<Node>, i: nat, low: nat)
    requires ComponentReady(g, m0, node, W) && Filling(g, m0, m, node, W, i)
    requires i < |g.out[node]| && Visited(g, m, m', g.out[node][i], W, low)
    ensures Filling(g, m0, m', node, W, i + 1)
  {
    hide PathIn, Escapes, Inv, LowBound, AllReachedFrom, AllEscape;
    RegionOffStack(g, m0, m, node, W);
    assert m'.stack == m.stack;
    assert Grown(m0, m) == {} == Grown(m, m');
    FrameTrans(g, m0, m, m', W);
    PlacedTrans(g, m0, m, m');
    Persist(g, m, m');
  }

  lemma BuiltAll(g: Graph, m0: Marks, m: Marks, cs: seq<WtoTree.Comp>, W: set<Node>)
    requires Built(g, m0, m, cs) && ComponentDone(g, m0, m, W)
    ensures WtoTree.Correct(g, cs) && WtoTree.Nodes(cs) == W && m0.Placed() + W == m.Placed()
  {
  }

  lemma FillDone(g: Graph, m0: Marks, m: Marks, node: Node, W: set<Node>)
    requires ComponentReady(g, m0, node, W) && node in g.out && Filling(g, m0, m, node, W, |g.out[node]|)
    ensures ComponentDone(g, m0, m, W) && node !in W
  {
    hide PathIn, Inv;
    InvGraph(g, m);
    Persist(g, m0, m);
    forall w | w in W ensures w in m.Placed() {
      ReachedOne(g, W + {node}, node, w);
      forall x, y | x in m.Placed() && x in W + {node} && g.Edge(x, y) ensures y in m.Placed() {
        if x == node {
          var k :| 0 <= k < |g.out[node]| && g.out[node][k] == y;
        } else {
          assert x in NewlyPlaced(m0, m);
        }
        assert m.Of(y) == Inf;
      }
      ClosedUnderPaths(g, W + {node}, m.Placed(), node, w);
    }
    assert NewlyPlaced(m0, m) == W;
  }
}
