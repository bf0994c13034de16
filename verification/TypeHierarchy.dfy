/** The hierarchy graph over debug types: canonical representatives, nodes and edges created on
    demand, the cached search for the types below a type, and the closing under void. */
module TypeHierarchy {
  import opened DebugTypes
  import opened HierarchyClosing
  import opened HierarchySearch
  import opened HierarchyTables
  import opened Reachability

  class DCHGraph {
    var canonicalTypeMap: map<DIType, DIType>
    var canonicalTypes: set<DIType>
    var diTypeToNodeMap: map<DIType, nat>
    var nodeTypes: seq<DIType>
    var edges: set<Edge>
    var chaMap: map<DIType, set<nat>>
    var chaFFMap: map<DIType, set<nat>>

    ghost predicate Canonicals()
      reads this`canonicalTypeMap, this`canonicalTypes
    {
      CanonicalTable(canonicalTypeMap, canonicalTypes)
    }

    ghost predicate Nodes()
      reads this`canonicalTypes, this`diTypeToNodeMap, this`nodeTypes, this`edges
    {
      NodeTable(canonicalTypes, diTypeToNodeMap, nodeTypes, edges)
    }

    ghost predicate Caches()
      reads this`diTypeToNodeMap, this`edges, this`chaMap, this`chaFFMap
    {
      && CacheTable(chaMap, diTypeToNodeMap, Followed(edges, false))
      && CacheTable(chaFFMap, diTypeToNodeMap, Followed(edges, true))
    }

    constructor ()
      ensures Canonicals() && Nodes() && Caches()
      ensures canonicalTypes == {} && nodeTypes == [] && edges == {}
    {
      canonicalTypeMap, canonicalTypes, diTypeToNodeMap := map[], {}, map[];
      nodeTypes, edges, chaMap, chaFFMap := [], {}, map[], map[];
    }

    /** The answer is the one canonical type of the form of `t`, found or made; nothing known before
        changes, and a type already in the table changes nothing at all. */
    method GetCanonicalType(t: DIType) returns (r: DIType)
      requires WellTagged(t) && Canonicals()
      modifies this`canonicalTypeMap, this`canonicalTypes
      ensures Canonicals() && r in canonicalTypes && Teq(t, r) && FormOf(r) == FormOf(t)
      ensures forall k | k in old(canonicalTypeMap) ::
        k in canonicalTypeMap && canonicalTypeMap[k] == old(canonicalTypeMap[k])
      ensures t in old(canonicalTypeMap) ==>
        r == old(canonicalTypeMap[t]) && canonicalTypeMap == old(canonicalTypeMap)
      ensures canonicalTypes == old(canonicalTypes) + {r}
      ensures r !in old(canonicalTypes) ==> r == Strip(t)
    {
      hide CanonicalTable, Teq, Strip, WellTagged, FormOf;
      var s := StripQualifiers(t);
      StrippedType(t);
      TeqIffSameForm(t, s);
      if t in canonicalTypeMap {
        KnownAnswer(canonicalTypeMap, canonicalTypes, t);
        TeqIffSameForm(t, canonicalTypeMap[t]);
        return canonicalTypeMap[t];
      }
      if t != s {
        if s in canonicalTypeMap {
          KnownAnswer(canonicalTypeMap, canonicalTypes, s);
          TeqOfStripped(t, canonicalTypeMap[s]);
          TeqIffSameForm(t, canonicalTypeMap[s]);
          NewEntry(canonicalTypeMap, canonicalTypes, t, canonicalTypeMap[s]);
          canonicalTypeMap := canonicalTypeMap[t := canonicalTypeMap[s]];
          return canonicalTypeMap[t];
        }
      }
      var rest := canonicalTypes;
      while rest != {}
        invariant rest <= canonicalTypes && forall c | c in canonicalTypes - rest :: !Teq(s, c)
      {
        var canonType :| canonType in rest;
        if Teq(s, canonType) {
          TeqOfStripped(t, canonType);
          TeqIffSameForm(t, canonType);
          NewEntry(canonicalTypeMap, canonicalTypes, s, canonType);
          canonicalTypeMap := canonicalTypeMap[s := canonType];
          return canonicalTypeMap[s];
        }
        rest := rest - {canonType};
      }
      AddToTable(canonicalTypeMap, canonicalTypes, s);
      canonicalTypes := canonicalTypes + {s};
      canonicalTypeMap := canonicalTypeMap[s := s];
      return canonicalTypeMap[s];
    }

    /** Over any history of queries, two answers agree exactly when the types have the same form. */
    method Answers(ts: seq<DIType>) returns (rs: seq<DIType>)
      requires Canonicals() && forall t | t in ts :: WellTagged(t)
      modifies this`canonicalTypeMap, this`canonicalTypes
      ensures Canonicals() && |rs| == |ts|
      ensures forall i, j | 0 <= i < |ts| && 0 <= j < |ts| :: rs[i] == rs[j] <==> FormOf(ts[i]) == FormOf(ts[j])
      ensures forall k | k in old(canonicalTypeMap) ::
        k in canonicalTypeMap && canonicalTypeMap[k] == old(canonicalTypeMap[k])
    {
      hide CanonicalTable, Teq, FormOf;
      rs := [];
      while |rs| < |ts|
        invariant |rs| <= |ts| && Canonicals()
        invariant forall i: nat | i < |rs| :: rs[i] in canonicalTypes && Teq(ts[i], rs[i])
        invariant forall k | k in old(canonicalTypeMap) ::
          k in canonicalTypeMap && canonicalTypeMap[k] == old(canonicalTypeMap[k])
      {
        var r := GetCanonicalType(ts[|rs|]);
        rs := rs + [r];
      }
      forall i, j | 0 <= i < |ts| && 0 <= j < |ts| ensures rs[i] == rs[j] <==> FormOf(ts[i]) == FormOf(ts[j]) {
        TeqIffSameForm(ts[i], ts[j]);
        OneCanonicalType(canonicalTypeMap, canonicalTypes, ts[i], ts[j], rs[i], rs[j]);
      }
    }

    /** The node of the canonical type; a type that has one changes nothing. */
    method GetOrCreateNode(t: DIType) returns (n: nat, ghost c: DIType)
      requires WellTagged(t) && Canonicals() && Nodes()
      modifies this`canonicalTypeMap, this`canonicalTypes, this`diTypeToNodeMap, this`nodeTypes
      ensures Canonicals() && Nodes()
      ensures c in canonicalTypes && Teq(t, c) && c in diTypeToNodeMap && n == diTypeToNodeMap[c]
      ensures canonicalTypes == old(canonicalTypes) + {c}
      ensures if c in old(diTypeToNodeMap)
        then diTypeToNodeMap == old(diTypeToNodeMap) && nodeTypes == old(nodeTypes)
        else diTypeToNodeMap == old(diTypeToNodeMap)[c := |old(nodeTypes)|] && nodeTypes == old(nodeTypes) + [c]
      ensures t in old(canonicalTypes) ==> c == t && canonicalTypeMap == old(canonicalTypeMap)
    {
      hide CanonicalTable, NodeTable, Teq, Strip, WellTagged;
      if t in canonicalTypes {
        CanonicalEntry(canonicalTypeMap, canonicalTypes, t);
      }
      var s := GetCanonicalType(t);
      MoreCanonicalTypes(old(canonicalTypes), canonicalTypes, diTypeToNodeMap, nodeTypes, edges);
      c := s;
      if s in diTypeToNodeMap {
        return diTypeToNodeMap[s], s;
      }
      n := |nodeTypes|;
      NewNode(canonicalTypes, diTypeToNodeMap, nodeTypes, edges, s);
      nodeTypes := nodeTypes + [s];
      diTypeToNodeMap := diTypeToNodeMap[s := n];
    }

    /** The nodes at the two ends of an edge about to be added: one node exactly when the types are
        equal. */
    method EdgeEnds(t1: DIType, t2: DIType) returns (src: nat, dst: nat, ghost c1: DIType, ghost c2: DIType)
      requires WellTagged(t1) && WellTagged(t2) && Canonicals() && Nodes()
      modifies this`canonicalTypeMap, this`canonicalTypes, this`diTypeToNodeMap, this`nodeTypes
      ensures Canonicals() && Nodes()
      ensures (t1 in old(canonicalTypes) ==> c1 == t1) && (t2 in old(canonicalTypes) ==> c2 == t2)
      ensures c1 in canonicalTypes && Teq(t1, c1) && c1 in diTypeToNodeMap && src == diTypeToNodeMap[c1]
      ensures c2 in canonicalTypes && Teq(t2, c2) && c2 in diTypeToNodeMap && dst == diTypeToNodeMap[c2]
      ensures (src == dst <==> Teq(t1, t2)) && (src == dst <==> FormOf(t1) == FormOf(t2))
      ensures canonicalTypes == old(canonicalTypes) + {c1, c2}
      ensures forall k | k in old(diTypeToNodeMap) ::
        k in diTypeToNodeMap && diTypeToNodeMap[k] == old(diTypeToNodeMap[k])
      ensures diTypeToNodeMap.Keys == old(diTypeToNodeMap).Keys + {c1, c2} && old(nodeTypes) <= nodeTypes
      ensures c1 in old(diTypeToNodeMap) && c2 in old(diTypeToNodeMap) ==> nodeTypes == old(nodeTypes)
    {
      hide CanonicalTable, NodeTable, Teq, Strip, WellTagged, FormOf;
      src, c1 := GetOrCreateNode(t1);
      dst, c2 := GetOrCreateNode(t2);
      OneNode(canonicalTypeMap, canonicalTypes, diTypeToNodeMap, nodeTypes, edges, t1, t2, c1, c2);
    }

    /** The edge between the two canonical types' nodes is there afterwards, and no other is new; it
        leads back to where it starts exactly when the types are equal. */
    method AddEdge(t1: DIType, t2: DIType, kind: Kind) returns (ghost c1: DIType, ghost c2: DIType)
      requires WellTagged(t1) && WellTagged(t2) && Canonicals() && Nodes()
      modifies this`canonicalTypeMap, this`canonicalTypes, this`diTypeToNodeMap, this`nodeTypes, this`edges
      ensures Canonicals() && Nodes()
      ensures (t1 in old(canonicalTypes) ==> c1 == t1) && (t2 in old(canonicalTypes) ==> c2 == t2)
      ensures c1 in canonicalTypes && Teq(t1, c1) && c1 in diTypeToNodeMap
      ensures c2 in canonicalTypes && Teq(t2, c2) && c2 in diTypeToNodeMap
      ensures diTypeToNodeMap[c1] == diTypeToNodeMap[c2] <==> Teq(t1, t2)
      ensures diTypeToNodeMap[c1] == diTypeToNodeMap[c2] <==> FormOf(t1) == FormOf(t2)
      ensures canonicalTypes == old(canonicalTypes) + {c1, c2}
      ensures forall k | k in old(diTypeToNodeMap) ::
        k in diTypeToNodeMap && diTypeToNodeMap[k] == old(diTypeToNodeMap[k])
      ensures diTypeToNodeMap.Keys == old(diTypeToNodeMap).Keys + {c1, c2} && old(nodeTypes) <= nodeTypes
      ensures c1 in old(diTypeToNodeMap) && c2 in old(diTypeToNodeMap) ==> nodeTypes == old(nodeTypes)
      ensures edges == old(edges) + {Edge(diTypeToNodeMap[c1], diTypeToNodeMap[c2], kind)}
    {
      hide CanonicalTable, NodeTable, Teq, Strip, WellTagged, FormOf;
      var src, dst;
      src, dst, c1, c2 := EdgeEnds(t1, t2);
      var found := HasEdge(src, dst, kind);
      if !found {
        NewEdge(canonicalTypes, diTypeToNodeMap, nodeTypes, edges, c1, c2, kind);
        edges := edges + {Edge(src, dst, kind)};
      }
    }

    method HasEdge(src: nat, dst: nat, kind: Kind) returns (found: bool)
      ensures found <==> Edge(src, dst, kind) in edges
    {
      var outEdges := set e | e in edges && e.src == src;
      while outEdges != {}
        invariant outEdges <= edges && (Edge(src, dst, kind) in edges ==> Edge(src, dst, kind) in outEdges)
      {
        var edge :| edge in outEdges;
        if edge.dst == dst && edge.kind == kind {
          assert edge == Edge(src, dst, kind);
          return true;
        }
        outEdges := outEdges - {edge};
      }
      return false;
    }

    /** The cached recursive search returns exactly the nodes that reach the type, whatever was
        asked before, and leaves every cached answer exact. `rank` witnesses that nothing below the
        type lies on a cycle of the edges followed (`RankedBelowIff`). */
    method Cha(t: DIType, firstField: bool, ghost rank: nat -> nat) returns (r: set<nat>, ghost c: DIType)
      requires WellTagged(t) && Canonicals() && Nodes() && Caches()
      requires RankedBelowType(canonicalTypes, diTypeToNodeMap, edges, firstField, rank, t)
      modifies this`canonicalTypeMap, this`canonicalTypes, this`diTypeToNodeMap, this`nodeTypes
      modifies this`chaMap, this`chaFFMap
      ensures Canonicals() && Nodes() && Caches()
      ensures c in canonicalTypes && Teq(t, c) && c in diTypeToNodeMap
      ensures r == Below(Followed(edges, firstField), diTypeToNodeMap[c])
      ensures canonicalTypes == old(canonicalTypes) + {c}
      ensures if c in old(diTypeToNodeMap)
        then diTypeToNodeMap == old(diTypeToNodeMap) && nodeTypes == old(nodeTypes)
        else diTypeToNodeMap == old(diTypeToNodeMap)[c := |old(nodeTypes)|] && nodeTypes == old(nodeTypes) + [c]
      ensures t in old(canonicalTypes) ==> c == t && canonicalTypeMap == old(canonicalTypeMap)
      decreases t !in diTypeToNodeMap, if t in diTypeToNodeMap then rank(diTypeToNodeMap[t]) else 0, 1
    {
      hide CanonicalTable, NodeTable, CacheTable, Teq, Strip, WellTagged, Below, Followed, Reach;
      hide RankedBelow, RankedBelowType;
      ghost var P := Followed(edges, firstField);
      ghost var S := canonicalTypes;
      if t in diTypeToNodeMap {
        HasCanonicalType(canonicalTypes, diTypeToNodeMap, nodeTypes, edges, t);
      }
      if t in canonicalTypes {
        CanonicalEntry(canonicalTypeMap, canonicalTypes, t);
      }
      var s := GetCanonicalType(t);
      MoreCanonicalTypes(old(canonicalTypes), canonicalTypes, diTypeToNodeMap, nodeTypes, edges);
      c := s;
      var cacheMap := if firstField then chaFFMap else chaMap;
      if s in cacheMap {
        Cached(cacheMap, diTypeToNodeMap, P, s);
        return cacheMap[s], s;
      }
      var n;
      ghost var before := diTypeToNodeMap;
      CanonicalEntry(canonicalTypeMap, canonicalTypes, s);
      n, c := GetOrCreateNode(s);
      if s in before {
        HasCanonicalType(S, before, old(nodeTypes), edges, s);
        assert canonicalTypes == S;
        RankedBelowNode(canonicalTypeMap, S, before, edges, firstField, rank, t, s);
      } else {
        NothingBelowNew(S, before, old(nodeTypes), edges, firstField, rank);
        MoreNodes(chaMap, before, Followed(edges, false), s, n);
        MoreNodes(chaFFMap, before, Followed(edges, true), s, n);
      }
      HasCanonicalType(canonicalTypes, diTypeToNodeMap, nodeTypes, edges, s);
      r := Descend(n, firstField, rank);
      if firstField {
        NewAnswer(chaFFMap, diTypeToNodeMap, Followed(edges, true), s);
        chaFFMap := chaFFMap[s := r];
      } else {
        NewAnswer(chaMap, diTypeToNodeMap, Followed(edges, false), s);
        chaMap := chaMap[s := r];
      }
    }

    /** The loop of `Cha`: the node itself and its children's children. */
    method Descend(n: nat, firstField: bool, ghost rank: nat -> nat) returns (r: set<nat>)
      requires n < |nodeTypes| && Canonicals() && Nodes() && Caches()
      requires RankedBelow(Followed(edges, firstField), rank, n)
      modifies this`canonicalTypeMap, this`canonicalTypes, this`diTypeToNodeMap, this`nodeTypes
      modifies this`chaMap, this`chaFFMap
      ensures Canonicals() && Nodes() && Caches()
      ensures r == Below(Followed(edges, firstField), n)
      ensures canonicalTypes == old(canonicalTypes) && canonicalTypeMap == old(canonicalTypeMap)
      ensures diTypeToNodeMap == old(diTypeToNodeMap) && nodeTypes == old(nodeTypes)
      decreases false, rank(n), 0
    {
      hide CanonicalTable, NodeTable, CacheTable, Teq, Strip, WellTagged, Below, Followed, Reach;
      hide RankedBelow, RankedBelowType;
      ghost var P := Followed(edges, firstField);
      r := {n};
      BelowItself(P, n);
      var inEdges := set e | e in edges && e.dst == n;
      while inEdges != {}
        invariant inEdges <= edges && forall e | e in inEdges :: e.dst == n
        invariant Canonicals() && Nodes() && Caches()
        invariant canonicalTypes == old(canonicalTypes) && canonicalTypeMap == old(canonicalTypeMap)
        invariant diTypeToNodeMap == old(diTypeToNodeMap) && nodeTypes == old(nodeTypes)
        invariant n in r && r <= Below(P, n)
        invariant forall e | e in edges && e.dst == n && Follows(e.kind, firstField) ::
          e in inEdges || Below(P, e.src) <= r
      {
        var edge :| edge in inEdges;
        inEdges := inEdges - {edge};
        if !edge.kind.Inheritance? && !edge.kind.FirstField? && !edge.kind.StdDef? {
          continue;
        }
        if !firstField && edge.kind.FirstField? {
          continue;
        }
        TypeOfNode(canonicalTypeMap, canonicalTypes, diTypeToNodeMap, nodeTypes, edges, edge);
        InFollowed(edges, edge, firstField);
        RankedBelowSource(P, rank, edge.src, n);
        TeqReflexive(nodeTypes[edge.src]);
        RankedBelowNode(
          canonicalTypeMap, canonicalTypes, diTypeToNodeMap, edges, firstField, rank,
          nodeTypes[edge.src], nodeTypes[edge.src]
        );
        BelowGrows(P, edge.src, n);
        var children;
        ghost var d;
        children, d := Cha(nodeTypes[edge.src], firstField, rank);
        r := r + children;
      }
      forall x | x in Below(P, n) ensures x in r {
        if x != n {
          var m := BelowSplits(P, n, x);
          var e := FollowedEdge(edges, m, n, firstField);
        }
      }
    }

    /** `a` is a base of `b` exactly when `b`'s node reaches `a`'s. */
    method IsBase(a: DIType, b: DIType, firstField: bool, ghost rank: nat -> nat) returns (r: bool)
      requires WellTagged(a) && WellTagged(b) && Canonicals() && Nodes() && Caches()
      requires HasNode(canonicalTypes, diTypeToNodeMap, a) && HasNode(canonicalTypes, diTypeToNodeMap, b)
      requires RankedBelowType(canonicalTypes, diTypeToNodeMap, edges, firstField, rank, a)
      modifies this`canonicalTypeMap, this`canonicalTypes, this`diTypeToNodeMap, this`nodeTypes
      modifies this`chaMap, this`chaFFMap
      ensures Canonicals() && Nodes() && Caches()
      ensures canonicalTypes == old(canonicalTypes) && diTypeToNodeMap == old(diTypeToNodeMap)
      ensures nodeTypes == old(nodeTypes)
      ensures r == BaseOf(canonicalTypes, diTypeToNodeMap, edges, firstField, a, b)
    {
      hide CanonicalTable, NodeTable, CacheTable, Teq, Strip, Below, Followed, Reach;
      hide RankedBelow, RankedBelowType;
      ghost var S, N := canonicalTypes, diTypeToNodeMap;
      var c := GetCanonicalType(a);
      SameCanonicalTypes(canonicalTypeMap, canonicalTypes, S, N, a, c);
      var d := GetCanonicalType(b);
      SameCanonicalTypes(canonicalTypeMap, canonicalTypes, S, N, b, d);
      NodeOfIs(canonicalTypeMap, S, N, a, c);
      NodeOfIs(canonicalTypeMap, S, N, b, d);
      CanonicalEntry(canonicalTypeMap, canonicalTypes, c);
      RankedBelowNode(canonicalTypeMap, S, N, edges, firstField, rank, a, c);
      TeqReflexive(c);
      RankedBelowNode(canonicalTypeMap, S, N, edges, firstField, rank, c, c);
      var bNode := diTypeToNodeMap[d];
      var aChildren;
      ghost var e;
      aChildren, e := Cha(c, firstField, rank);
      BelowIsReach(Followed(edges, firstField), bNode, diTypeToNodeMap[c]);
      return bNode in aChildren;
    }

    /** The end of building an extended graph with a char type: a type, old or new, comes to lie
        below void exactly when it climbed to void, to char or to a type with nothing above it. The
        hierarchy is free of cycles afterwards exactly when it was before, void had nothing above it
        and char led up to nothing but void; every type is then below void, unless its way up needs
        edges the queries never follow. */
    method CloseUnderVoid(charType: DIType) returns (ghost ch: nat, ghost vd: nat)
      requires charType.Basic? && IsChar(charType.encoding)
      requires Canonicals() && Nodes() && Void in diTypeToNodeMap
      modifies this`canonicalTypeMap, this`canonicalTypes, this`diTypeToNodeMap, this`nodeTypes, this`edges
      ensures Canonicals() && Nodes()
      ensures old(nodeTypes) <= nodeTypes
      ensures Void in diTypeToNodeMap && vd == diTypeToNodeMap[Void] == old(diTypeToNodeMap[Void])
      ensures ch < |nodeTypes| && Teq(charType, nodeTypes[ch])
      ensures edges == Closing(old(edges), ch, vd, |nodeTypes|)
      ensures forall i: nat | i < |nodeTypes| ::
        Reach(Followed(edges, true), i, vd) <==> ClimbsOut(old(edges), ch, vd, i)
      ensures (exists higher :: Ranked(edges, higher)) <==>
        (exists rank :: Ranked(old(edges), rank)) && StaysAcyclic(old(edges), ch, vd, |nodeTypes|)
      ensures (exists rank :: Ranked(old(edges), rank)) && (forall e | e in old(edges) :: !e.kind.Instance?) ==>
        forall i: nat | i < |nodeTypes| :: Reach(Followed(edges, true), i, vd)
    {
      hide CanonicalTable, NodeTable, Teq, Strip, Followed, Ranked, Reach, Closing, HasOutEdge, StaysAcyclic;
      hide ClimbsOut;
      HasCanonicalType(canonicalTypes, diTypeToNodeMap, nodeTypes, edges, Void);
      ghost var c, v := AddEdge(charType, Void, StdDef);
      ghost var E := old(edges);
      vd, ch := diTypeToNodeMap[v], diTypeToNodeMap[c];
      CharIsNotVoid(charType, c, canonicalTypes, diTypeToNodeMap, nodeTypes, edges);
      ghost var S, N, T := canonicalTypes, diTypeToNodeMap, nodeTypes;
      NothingClosed(E, ch, vd);
      for i := 0 to |nodeTypes|
        invariant Canonicals() && Nodes()
        invariant canonicalTypes == S && diTypeToNodeMap == N && nodeTypes == T
        invariant edges == Closing(E, ch, vd, i)
      {
        ClosingStep(E, ch, vd, i);
        TypeOfNumber(canonicalTypeMap, S, N, T, edges, i);
        if nodeTypes[i] != Void && !HasOutEdge(edges, i) {
          ghost var c1, c2 := AddEdge(nodeTypes[i], charType, StdDef);
          SameCanonicalType(canonicalTypeMap, canonicalTypes, charType, c, c2);
        }
      }
      ClosedOverVoid(S, N, T, E, ch, vd);
    }
  }

  const BASE_CLASS := Composite(1, Class, "A", 7, 3, "", Void)
  const DERIVED_CLASS := Composite(2, Class, "B", 7, 9, "", Void)

  /** The node of the class is neither char's nor void's. */
  lemma ClassNode(
    S: set<DIType>, N: map<DIType, nat>, T: seq<DIType>, E: set<Edge>, charType: DIType, n: nat, ch: nat
  )
    requires NodeTable(S, N, T, E) && Void in N && n < |T| && ch < |T|
    requires charType.Basic? && Teq(charType, T[ch]) && Teq(BASE_CLASS, T[n])
    ensures n != N[Void] && n != ch
  {
    if n == ch {
      TeqSymmetric(BASE_CLASS, T[n]);
      TeqTransitive(charType, T[n], BASE_CLASS);
    }
  }

  lemma CanonicalVoid(M: map<DIType, DIType>, S: set<DIType>, c: DIType)
    requires CanonicalTable(M, S) && c in S && Teq(Void, c)
    ensures c == Void
  {
  }

  lemma EqualClasses()
    ensures WellTagged(Void) && WellTagged(BASE_CLASS) && WellTagged(DERIVED_CLASS) && Teq(DERIVED_CLASS, BASE_CLASS)
  {
  }

  /** The two classes become one node, and the inheritance between them an edge to itself. */
  method ClassesMerge() returns (g: DCHGraph, ghost n: nat)
    ensures fresh(g) && g.Canonicals() && g.Nodes()
    ensures n < |g.nodeTypes| && Teq(BASE_CLASS, g.nodeTypes[n]) && Teq(DERIVED_CLASS, g.nodeTypes[n])
    ensures Void in g.diTypeToNodeMap && g.edges == {Edge(n, n, Kind.Inheritance)}
  {
    hide CanonicalTable, NodeTable, Teq, Strip, WellTagged;
    EqualClasses();
    g := new DCHGraph();
    var v;
    ghost var none;
    v, none := g.GetOrCreateNode(Void);
    CanonicalVoid(g.canonicalTypeMap, g.canonicalTypes, none);
    ghost var d, b := g.AddEdge(DERIVED_CLASS, BASE_CLASS, Kind.Inheritance);
    n := g.diTypeToNodeMap[d];
    TypeAtNode(g.canonicalTypes, g.diTypeToNodeMap, g.nodeTypes, g.edges, d);
    TypeAtNode(g.canonicalTypes, g.diTypeToNodeMap, g.nodeTypes, g.edges, b);
  }

  lemma TypeAtNode(S: set<DIType>, N: map<DIType, nat>, T: seq<DIType>, E: set<Edge>, t: DIType)
    requires NodeTable(S, N, T, E) && t in N
    ensures N[t] < |T| && T[N[t]] == t
  {
  }

  /** The search below a node with an edge to itself ends at no call depth. */
  lemma LoopNeverEnds(
    sources: nat -> seq<nat>, E: set<Edge>, i: nat, kind: Kind, firstField: bool, depth: nat
  )
    requires Lists(sources, Followed(E, firstField)) && Edge(i, i, kind) in E && Follows(kind, firstField)
    ensures Search(sources, {}, i, depth).None?
  {
    var P := Followed(E, firstField);
    InFollowed(E, Edge(i, i, kind), firstField);
    ReachSelf(P, i);
    NeverEnds(sources, P, {}, i, i, depth);
  }

  /** A class deriving from another, both without an identifier, as classes of internal linkage are:
      closing leaves their common node out of void's reach; below it there is no rank to go down, and the
      search ends at no call depth. */
  method ClassesWithoutIdentifier(charType: DIType) returns (g: DCHGraph, ghost n: nat, ghost vd: nat)
    requires charType.Basic? && IsChar(charType.encoding)
    ensures fresh(g) && g.Canonicals() && g.Nodes()
    ensures n < |g.nodeTypes| && Teq(BASE_CLASS, g.nodeTypes[n]) && Teq(DERIVED_CLASS, g.nodeTypes[n])
    ensures Void in g.diTypeToNodeMap && vd == g.diTypeToNodeMap[Void]
    ensures Edge(n, n, Kind.Inheritance) in g.edges && !Reach(Followed(g.edges, true), n, vd)
    ensures forall firstField, rank :: !RankedBelow(Followed(g.edges, firstField), rank, n)
    ensures forall firstField, sources, depth: nat :: Lists(sources, Followed(g.edges, firstField)) ==>
      Search(sources, {}, n, depth).None?
  {
    hide CanonicalTable, NodeTable, Followed, Reach, RankedBelow, Teq, Strip, ClimbsOut, Ranked, StaysAcyclic;
    hide Lists, Search;
    g, n := ClassesMerge();
    ghost var E := g.edges;
    ghost var ch;
    ch, vd := g.CloseUnderVoid(charType);
    ClassNode(g.canonicalTypes, g.diTypeToNodeMap, g.nodeTypes, g.edges, charType, n, ch);
    assert Within(E, |g.nodeTypes|);
    assert Edge(n, n, Kind.Inheritance) in E;
    LoopStaysOut(E, ch, vd, |g.nodeTypes|, n);
    forall firstField, rank ensures !RankedBelow(Followed(g.edges, firstField), rank, n) {
      LoopHasNoRank(g.edges, n, Kind.Inheritance, firstField, rank);
    }
    forall firstField, sources, depth: nat | Lists(sources, Followed(g.edges, firstField))
      ensures Search(sources, {}, n, depth).None?
    {
      LoopNeverEnds(sources, g.edges, n, Kind.Inheritance, firstField, depth);
    }
  }
}
