/** Nesting depths and tails: the two visitors that walk the finished component tree. */
module WtoDepth {
  import opened Graphs
  import opened WtoTree

  /** A cycle depth: the heads of enclosing cycles, outermost first. */
  type Depth = seq<Node>

  /** Compares two depths by a simultaneous walk: 0 equal, 1 when `d` continues `other`,
      -1 when `other` continues `d`, 2 when they part. */
  method Compare(d: Depth, other: Depth) returns (r: int)
    ensures r == 0 <==> d == other
    ensures r == 1 <==> other < d
    ensures r == -1 <==> d < other
    ensures r == 2 <==> !(d <= other) && !(other <= d)
  {
    var i := 0;
    while i != |d|
      invariant 0 <= i <= |d| && i <= |other|
      invariant d[..i] == other[..i]
    {
      if i == |other| {
        assert other == other[..i];
        return 1;
      } else if d[i] == other[i] {
        i := i + 1;
      } else {
        return 2;
      }
    }
    assert d == d[..i];
    r := if i == |other| then 0 else -1;
  }

  /** The common prefix of two depths. */
  method CommonPrefix(d: Depth, other: Depth) returns (res: Depth)
    ensures res <= d && res <= other
    ensures |res| == |d| || |res| == |other| || d[|res|] != other[|res|]
  {
    res := [];
    var i := 0;
    while i != |d| && i != |other|
      invariant 0 <= i <= |d| && i <= |other|
      invariant res == d[..i] == other[..i]
    {
      if d[i] == other[i] {
        res := res + [d[i]];
      } else {
        break;
      }
      i := i + 1;
    }
  }

  /** The depth of every node of a list nested below the heads in `d`. An earlier entry wins. */
  function Depths(cs: seq<Comp>, d: Depth): map<Node, Depth> {
    if cs == [] then map[] else
      Depths(cs[1..], d) +
      (match cs[0]
       case Vertex(n) => map[n := d]
       case Cycle(h, body) => Depths(body, d + [h]) + map[h := d])
  }

  /** Walks the tree and records the nesting of every node. */
  class DepthBuilder {
    var nesting: Depth
    var nodeToDepth: map<Node, Depth>

    constructor ()
      ensures nesting == [] && nodeToDepth == map[]
    {
      nesting, nodeToDepth := [], map[];
    }

    /** Inserting keeps an existing entry. */
    method Insert(n: Node, d: Depth)
      modifies this`nodeToDepth
      ensures nodeToDepth == map[n := d] + old(nodeToDepth)
    {
      if n !in nodeToDepth {
        nodeToDepth := nodeToDepth[n := d];
      }
    }

    method Visit(c: Comp)
      modifies this
      ensures nesting == old(nesting)
      ensures nodeToDepth == Depths([c], nesting) + old(nodeToDepth)
      decreases c
    {
      DepthsOne(c, nesting);
      match c
      case Vertex(n) =>
        Insert(n, nesting);
      case Cycle(head, body) =>
        EarlierWins(Depths(body, nesting + [head]), map[head := nesting], nodeToDepth);
        var previous := nesting;
        Insert(head, nesting);
        nesting := nesting + [head];
        VisitAll(body);
        nesting := previous;
    }

    method VisitAll(cs: seq<Comp>)
      modifies this
      ensures nesting == old(nesting)
      ensures nodeToDepth == Depths(cs, nesting) + old(nodeToDepth)
      decreases cs
    {
      ghost var before := nodeToDepth;
      for i := 0 to |cs|
        invariant nesting == old(nesting)
        invariant nodeToDepth == Depths(cs[..i], nesting) + before
      {
        Visit(cs[i]);
        assert cs[..i + 1] == cs[..i] + [cs[i]];
        DepthsConcat(cs[..i], [cs[i]], nesting);
        EarlierWins(Depths([cs[i]], nesting), Depths(cs[..i], nesting), before);
      }
      assert cs[..|cs|] == cs;
    }
  }

  lemma DepthsOne(c: Comp, d: Depth)
    ensures c.Vertex? ==> Depths([c], d) == map[c.node := d]
    ensures c.Cycle? ==> Depths([c], d) == Depths(c.body, d + [c.head]) + map[c.head := d]
  {
    assert [c][1..] == [];
  }

  lemma EarlierWins(a: map<Node, Depth>, b: map<Node, Depth>, c: map<Node, Depth>)
    ensures (a + b) + c == a + (b + c)
  {
  }

  lemma DepthsFirst(cs: seq<Comp>, d: Depth)
    requires cs != []
    ensures Depths(cs, d) == Depths(cs[1..], d) + Depths([cs[0]], d)
  {
    assert [cs[0]][1..] == [];
  }

  lemma {:induction false} DepthsConcat(a: seq<Comp>, b: seq<Comp>, d: Depth)
    ensures Depths(a + b, d) == Depths(b, d) + Depths(a, d)
  {
    if a == [] {
      assert a + b == b;
    } else {
      hide Depths;
      DepthsFirst(a + b, d);
      DepthsFirst(a, d);
      assert (a + b)[1..] == a[1..] + b;
      DepthsConcat(a[1..], b, d);
      EarlierWins(Depths(b, d), Depths(a[1..], d), Depths([a[0]], d));
    }
  }

  // What the recorded depth of a node means.

  /** `h` heads a cycle component, at any level, whose body contains `u`. */
  ghost predicate Encloses(cs: seq<Comp>, h: Node, u: Node) {
    cs != [] &&
    (|| (match cs[0]
         case Vertex(_) => false
         case Cycle(k, body) => (h == k && u in Nodes(body)) || Encloses(body, h, u))
     || Encloses(cs[1..], h, u))
  }

  lemma {:induction false} EnclosesNodes(cs: seq<Comp>, h: Node, u: Node)
    requires Encloses(cs, h, u)
    ensures h in Nodes(cs) && u in Nodes(cs)
  {
    if cs[0].Cycle? && Encloses(cs[0].body, h, u) {
      EnclosesNodes(cs[0].body, h, u);
    } else if Encloses(cs[1..], h, u) {
      EnclosesNodes(cs[1..], h, u);
    }
  }

  /** The part of a depth below the common prefix `d`: heads of enclosing cycles, outermost first. */
  ghost predicate Chain(cs: seq<Comp>, e: Depth, n: Node) {
    && (forall h :: h in e <==> Encloses(cs, h, n))
    && (forall i, j :: 0 <= i < j < |e| ==> Encloses(cs, e[i], e[j]))
  }

  lemma ChainInBody(cs: seq<Comp>, e: Depth, n: Node)
    requires cs != [] && cs[0].Cycle? && Distinct(cs)
    requires n in Nodes(cs[0].body) && Chain(cs[0].body, e, n)
    ensures Chain(cs, [cs[0].head] + e, n)
  {
    var k, body, rest := cs[0].head, cs[0].body, cs[1..];
    var e' := [k] + e;
    forall h ensures h in e' <==> Encloses(cs, h, n) {
      if Encloses(rest, h, n) {
        EnclosesNodes(rest, h, n);
      }
    }
    forall i, j | 0 <= i < j < |e'| ensures Encloses(cs, e'[i], e'[j]) {
      assert e'[j] == e[j - 1] && e[j - 1] in e;
      EnclosesNodes(body, e[j - 1], n);
      if i > 0 {
        assert Encloses(body, e[i - 1], e[j - 1]);
      }
    }
  }

  lemma ChainInRest(cs: seq<Comp>, e: Depth, n: Node)
    requires cs != [] && Distinct(cs) && n in Nodes(cs[1..]) && Chain(cs[1..], e, n)
    ensures Chain(cs, e, n)
  {
    forall h ensures h in e <==> Encloses(cs, h, n) {
      if cs[0].Cycle? && Encloses(cs[0].body, h, n) {
        EnclosesNodes(cs[0].body, h, n);
      }
    }
  }

  lemma ChainAtTop(cs: seq<Comp>, n: Node)
    requires cs != [] && Distinct(cs) && n == (if cs[0].Cycle? then cs[0].head else cs[0].node)
    ensures Chain(cs, [], n)
  {
    forall h ensures !Encloses(cs, h, n) {
      if cs[0].Cycle? && Encloses(cs[0].body, h, n) {
        EnclosesNodes(cs[0].body, h, n);
      } else if Encloses(cs[1..], h, n) {
        EnclosesNodes(cs[1..], h, n);
      }
    }
  }

  /** The depth of `n`, below `d`, lists the heads of the cycles of `cs` around `n`. */
  ghost predicate DepthOK(cs: seq<Comp>, d: Depth, n: Node, dn: Depth) {
    d <= dn && Chain(cs, dn[|d|..], n)
  }

  lemma DepthInBody(cs: seq<Comp>, d: Depth, n: Node, dn: Depth)
    requires cs != [] && cs[0].Cycle? && Distinct(cs)
    requires n in Nodes(cs[0].body) && DepthOK(cs[0].body, d + [cs[0].head], n, dn)
    ensures DepthOK(cs, d, n, dn)
  {
    var e := dn[|d| + 1..];
    ChainInBody(cs, e, n);
    assert dn[|d|..] == [cs[0].head] + e;
  }

  /** Every node has a depth, and it lists exactly the heads of the cycles around it, outermost
      first. A head is not inside its own cycle's body, so it does not list itself. */
  lemma {:induction false} DepthIsEnclosingHeads(cs: seq<Comp>, d: Depth)
    requires Distinct(cs)
    ensures Depths(cs, d).Keys == Nodes(cs)
    ensures forall n :: n in Nodes(cs) ==> DepthOK(cs, d, n, Depths(cs, d)[n])
  {
    if cs != [] {
      hide DepthOK;
      var c, rest := cs[0], cs[1..];
      DepthIsEnclosingHeads(rest, d);
      var body := if c.Cycle? then c.body else [];
      if c.Cycle? {
        DepthIsEnclosingHeads(body, d + [c.head]);
      }
      forall n | n in Nodes(cs)
        ensures DepthOK(cs, d, n, Depths(cs, d)[n])
      {
        if n in Nodes(rest) {
          DepthInRest(cs, d, n, Depths(rest, d)[n]);
        } else if n in Nodes(body) {
          DepthInBody(cs, d, n, Depths(body, d + [c.head])[n]);
        } else {
          DepthAtTop(cs, d, n);
        }
      }
    }
  }

  lemma DepthInRest(cs: seq<Comp>, d: Depth, n: Node, dn: Depth)
    requires cs != [] && Distinct(cs) && n in Nodes(cs[1..]) && DepthOK(cs[1..], d, n, dn)
    ensures DepthOK(cs, d, n, dn)
  {
    ChainInRest(cs, dn[|d|..], n);
  }

  lemma DepthAtTop(cs: seq<Comp>, d: Depth, n: Node)
    requires cs != [] && Distinct(cs) && n == (if cs[0].Cycle? then cs[0].head else cs[0].node)
    ensures DepthOK(cs, d, n, d)
  {
    ChainAtTop(cs, n);
    assert d[|d|..] == [];
  }
}
