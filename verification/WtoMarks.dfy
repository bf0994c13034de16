/** The numbering state of the order builder: stack, counter and cycle depth numbers (CDNs),
    with the facts one step of the depth-first search keeps. */
module WtoMarks {
  import opened Graphs

  /** A cycle depth number: 0 is "unvisited", `Inf` is "already placed in a component". */
  datatype Cdn = Num(n: nat) | Inf

  function GetCDN(cdn: map<Node, Cdn>, n: Node): Cdn {
    if n in cdn then cdn[n] else Num(0)
  }

  predicate AtMost(a: Cdn, head: nat) {
    a.Num? && a.n <= head
  }

  /** A snapshot of the builder's fields. */
  datatype Marks = Marks(stack: seq<Node>, num: nat, cdn: map<Node, Cdn>) {

    function Of(n: Node): Cdn {
      GetCDN(cdn, n)
    }

    ghost function Placed(): set<Node> {
      set n | n in cdn && Of(n) == Inf
    }

    ghost predicate OnStack(n: Node) {
      Of(n).Num? && Of(n).n > 0
    }
  }

  ghost function Unvisited(g: Graph, m: Marks): set<Node> {
    set n | n in g.nodes && m.Of(n) == Num(0)
  }

  /** Numbers grow along the stack, and exactly the stacked nodes carry a positive number. */
  ghost predicate Inv(g: Graph, m: Marks) {
    && g.Valid()
    && m.cdn.Keys <= g.nodes
    && (forall i :: 0 <= i < |m.stack| ==>
          m.stack[i] in g.nodes && m.OnStack(m.stack[i]) && m.Of(m.stack[i]).n <= m.num)
    && (forall i, j :: 0 <= i < j < |m.stack| ==> m.Of(m.stack[i]).n < m.Of(m.stack[j]).n)
    && (forall n :: m.OnStack(n) ==> n in m.stack)
  }

  ghost function Elems(s: seq<Node>): set<Node> {
    set n | n in s
  }

  /** The part of the stack grown since `m0`. */
  ghost function Grown(m0: Marks, m: Marks): set<Node>
    requires |m0.stack| <= |m.stack|
  {
    Elems(m.stack[|m0.stack|..])
  }

  ghost function NewlyPlaced(m0: Marks, m: Marks): set<Node> {
    m.Placed() - m0.Placed()
  }

  /** Everything visited since `m0` that is placed or still on the stack. */
  ghost function Found(m0: Marks, m: Marks): set<Node>
    requires |m0.stack| <= |m.stack|
  {
    NewlyPlaced(m0, m) + Grown(m0, m)
  }

  /** What never changes backwards: placed nodes stay placed, visited nodes stay visited,
      and the old stack stays as it was below anything new. */
  ghost predicate Frame(g: Graph, m0: Marks, m: Marks) {
    && m0.Placed() <= m.Placed()
    && Unvisited(g, m) <= Unvisited(g, m0)
    && m0.stack <= m.stack
    && (forall n :: n in m0.stack ==> m.Of(n) == m0.Of(n))
    && m0.num <= m.num
  }

  /** `W` can only be left through nodes that are already visited. */
  ghost predicate Region(g: Graph, m: Marks, W: set<Node>) {
    && W <= g.nodes
    && forall x, y :: x in W && g.Edge(x, y) ==> y in W || m.Of(y) != Num(0)
  }

  /** Every node in `X` has only placed successors. */
  ghost predicate SuccsPlaced(g: Graph, m: Marks, X: set<Node>) {
    forall x, y :: x in X && g.Edge(x, y) ==> m.Of(y) == Inf
  }

  /** Every successor of `X` is visited, and no stacked one lies below number `head`. */
  ghost predicate LowBound(g: Graph, m: Marks, X: set<Node>, head: nat) {
    forall x, y :: x in X && g.Edge(x, y) ==> m.Of(y) == Inf || (m.OnStack(y) && m.Of(y).n >= head)
  }

  /** An edge from `X` to the node of the old stack numbered `head`. */
  ghost predicate BackEdge(g: Graph, m0: Marks, X: set<Node>, head: nat) {
    exists x, y :: x in X && y in m0.stack && g.Edge(x, y) && m0.Of(y) == Num(head)
  }

  /** From `X`, every member reaches the old stack, staying in `X` until the last edge. */
  ghost predicate AllEscape(g: Graph, m0: Marks, X: set<Node>) {
    forall x :: x in X ==> Escapes(g, X, x, Elems(m0.stack))
  }

  ghost predicate AllReturn(g: Graph, X: set<Node>, node: Node, T: set<Node>) {
    forall x :: x in X ==> Returns(g, X, x, node, T)
  }

  ghost predicate AllReachedFrom(g: Graph, X: set<Node>, node: Node) {
    forall x :: x in X ==> PathIn(g, X, node, x)
  }

  /** What a visit of `node` inside region `W` establishes. Either it closed a component
      (the stack is as before) or it left `node` and its open descendants on the stack. */
  ghost predicate Visited(g: Graph, m0: Marks, m: Marks, node: Node, W: set<Node>, head: nat) {
    && Inv(g, m)
    && Frame(g, m0, m)
    && m.Of(node) != Num(0)
    && NewlyPlaced(m0, m) + Grown(m0, m) <= W * Unvisited(g, m0)
    && SuccsPlaced(g, m, NewlyPlaced(m0, m))
    && LowBound(g, m, Grown(m0, m), head)
    && AllReachedFrom(g, Grown(m0, m), node)
    && AllReachedFrom(g, Found(m0, m), node)
    && AllEscape(g, m0, Grown(m0, m))
    && (if m.stack == m0.stack then head > m0.num && m.Of(node) == Inf
        else node in Grown(m0, m) && 0 < head <= m0.num && BackEdge(g, m0, Grown(m0, m), head))
  }

  /** What `node` reaches through unvisited nodes. */
  ghost function Reaches(g: Graph, m: Marks, node: Node): set<Node> {
    set x | x in Unvisited(g, m) && PathIn(g, Unvisited(g, m), node, x)
  }

  /** A visit places or leaves open exactly what its node reached when it began. */
  lemma FindsWhatItReaches(g: Graph, m0: Marks, m: Marks, node: Node, W: set<Node>, head: nat)
    requires Inv(g, m0) && m0.Of(node) == Num(0) && Visited(g, m0, m, node, W, head)
    ensures Found(m0, m) == Reaches(g, m0, node)
  {
    FoundIsClosed(g, m0, m, node, W, head);
    hide Inv, Frame, Visited, Found, PathIn, AllReachedFrom, Unvisited;
    ClosedIsReached(g, Unvisited(g, m0), Found(m0, m), node);
  }

  /** A part of `U` closed in it, with everything reached from `node`, is all that `node` reaches. */
  lemma ClosedIsReached(g: Graph, U: set<Node>, F: set<Node>, node: Node)
    requires F <= U && node in F && AllReachedFrom(g, F, node)
    requires forall x, y | x in F && y in U && g.Edge(x, y) :: y in F
    ensures F == set x | x in U && PathIn(g, U, node, x)
  {
    hide PathIn;
    forall x | x in F ensures PathIn(g, U, node, x) {
      PathMono(g, F, U, node, x);
    }
    forall x | x in U && PathIn(g, U, node, x) ensures x in F {
      ClosedUnderPaths(g, U, F, node, x);
    }
  }

  lemma FoundIsClosed(g: Graph, m0: Marks, m: Marks, node: Node, W: set<Node>, head: nat)
    requires Inv(g, m0) && m0.Of(node) == Num(0) && Visited(g, m0, m, node, W, head)
    ensures m0.stack <= m.stack && Found(m0, m) <= Unvisited(g, m0) && node in Found(m0, m)
    ensures AllReachedFrom(g, Found(m0, m), node)
    ensures forall x, y | x in Found(m0, m) && y in Unvisited(g, m0) && g.Edge(x, y) :: y in Found(m0, m)
  {
    hide PathIn, Escapes, AllReachedFrom, AllEscape, BackEdge;
    forall x, y | x in Found(m0, m) && y in Unvisited(g, m0) && g.Edge(x, y) ensures y in Found(m0, m) {
      assert m.Of(y) == Inf || m.OnStack(y);
      if m.Of(y) != Inf {
        StackSplits(m0, m, y);
      }
    }
  }

  lemma StackSplits(m0: Marks, m: Marks, y: Node)
    requires m0.stack <= m.stack && y in m.stack
    ensures y in m0.stack || y in Grown(m0, m)
  {
    assert m.stack == m0.stack + m.stack[|m0.stack|..];
  }

  /** `LowBound` for the first `i` out-edges of `node`. */
  ghost predicate SuccsSeen(g: Graph, m: Marks, node: Node, i: nat, head: nat)
    requires node in g.out && i <= |g.out[node]|
  {
    forall k :: 0 <= k < i ==>
      m.Of(g.out[node][k]) == Inf || (m.OnStack(g.out[node][k]) && m.Of(g.out[node][k]).n >= head)
  }

  /** The loop over the out-edges of `node`, after the first `i` of them. `node` sits on the
      stack right above the old stack; its descendants above it reach it or the old stack. */
  ghost predicate Scanning(g: Graph, m0: Marks, m: Marks, node: Node, W: set<Node>, i: nat, head: nat, loop: bool) {
    && Inv(g, m)
    && Frame(g, m0, m)
    && node in g.out && i <= |g.out[node]|
    && |m.stack| > |m0.stack| && m.stack[|m0.stack|] == node
    && m.Of(node) == Num(m0.num + 1)
    && NewlyPlaced(m0, m) + Grown(m0, m) <= W * Unvisited(g, m0)
    && SuccsPlaced(g, m, NewlyPlaced(m0, m))
    && LowBound(g, m, Grown(m0, m) - {node}, head)
    && SuccsSeen(g, m, node, i, head)
    && AllReachedFrom(g, Grown(m0, m), node)
    && AllReachedFrom(g, Found(m0, m), node)
    && AllReturn(g, Grown(m0, m), node, Elems(m0.stack))
    && 0 < head <= m0.num + 1
    && (head <= m0.num ==> BackEdge(g, m0, Grown(m0, m), head))
    && (loop && head == m0.num + 1 ==> exists x :: x in Grown(m0, m) && g.Edge(x, node))
    && (!loop ==>
          && m.stack == m0.stack + [node] && head == m0.num + 1
          && forall k :: 0 <= k < i ==> m.Of(g.out[node][k]) == Inf)
  }

  /** Pushing `node` starts the scan. */
  lemma StartScan(g: Graph, m0: Marks, node: Node, W: set<Node>)
    requires Inv(g, m0) && node in W && Region(g, m0, W) && m0.Of(node) == Num(0)
    ensures
      var m := Marks(m0.stack + [node], m0.num + 1, m0.cdn[node := Num(m0.num + 1)]);
      Scanning(g, m0, m, node, W, 0, m0.num + 1, false)
    ensures node in g.out
  {
    hide PathIn, Escapes;
    var m := Marks(m0.stack + [node], m0.num + 1, m0.cdn[node := Num(m0.num + 1)]);
    assert node !in m0.stack;
    assert forall n :: n != node ==> m.Of(n) == m0.Of(n);
    assert m.stack[|m0.stack|..] == [node];
    assert Grown(m0, m) == {node};
    assert NewlyPlaced(m0, m) == {} && Found(m0, m) == {node};
    PathSelf(g, {node}, node);
    PushInv(g, m0, node);
  }

  lemma PushInv(g: Graph, m0: Marks, node: Node)
    requires Inv(g, m0) && node in g.nodes && m0.Of(node) == Num(0)
    ensures Inv(g, Marks(m0.stack + [node], m0.num + 1, m0.cdn[node := Num(m0.num + 1)]))
  {
    var m := Marks(m0.stack + [node], m0.num + 1, m0.cdn[node := Num(m0.num + 1)]);
    assert node !in m0.stack;
    assert forall n :: n != node ==> m.Of(n) == m0.Of(n);
    forall k | 0 <= k < |m.stack|
      ensures if k < |m0.stack|
        then m.stack[k] == m0.stack[k] && m.Of(m.stack[k]) == m0.Of(m0.stack[k]) else m.stack[k] == node
    {
      if k < |m0.stack| {
        assert m0.stack[k] in m0.stack;
      }
    }
    forall n | m.OnStack(n) ensures n in m.stack {
      if n == node { assert m.stack[|m0.stack|] == n; }
      else { assert n in m0.stack; }
    }
  }
}
