/** What the tables of the debug-type hierarchy mean: canonical representatives, nodes, edges, the
    cached sets of types below a type, and the closing under void. */
module HierarchyTables {
  import opened DebugTypes
  import opened Reachability
  import opened Sets

  /** The canonical types are stripped and pairwise different up to `Teq`; every entry of the memo
      table sends a type to the canonical type it equals. */
  ghost predicate CanonicalTable(M: map<DIType, DIType>, S: set<DIType>) {
    && (forall c | c in S :: WellTagged(c) && Strip(c) == c && c in M && M[c] == c)
    && (forall k | k in M :: M[k] in S && Teq(k, M[k]))
    && (forall c, d | c in S && d in S :: Teq(c, d) ==> c == d)
  }

  lemma OneCanonicalType(M: map<DIType, DIType>, S: set<DIType>, t: DIType, u: DIType, c: DIType, d: DIType)
    requires CanonicalTable(M, S) && c in S && d in S && Teq(t, c) && Teq(u, d)
    ensures c == d <==> Teq(t, u)
  {
    TeqSymmetric(u, d);
    TeqSymmetric(t, c);
    if c == d {
      TeqTransitive(t, c, u);
    }
    if Teq(t, u) {
      TeqTransitive(c, t, u);
      TeqTransitive(c, u, d);
    }
  }

  /** Canonical types are told apart by their forms. */
  lemma FormsApart(M: map<DIType, DIType>, S: set<DIType>)
    requires CanonicalTable(M, S)
    ensures forall c, d | c in S && d in S :: FormOf(c) == FormOf(d) ==> c == d
  {
    hide Teq, FormOf;
    forall c, d | c in S && d in S && FormOf(c) == FormOf(d) ensures c == d {
      TeqIffSameForm(c, d);
    }
  }

  lemma TeqOfStripped(t: DIType, c: DIType)
    ensures Teq(Strip(t), c) == Teq(t, c)
  {
    TeqReflexive(t);
    if Teq(t, c) {
      TeqTransitive(Strip(t), t, c);
    } else if Teq(Strip(t), c) {
      TeqTransitive(t, Strip(t), c);
    }
  }

  lemma StrippedType(t: DIType)
    requires WellTagged(t)
    ensures WellTagged(Strip(t)) && Strip(Strip(t)) == Strip(t) && Teq(t, Strip(t))
  {
    TeqReflexive(t);
  }

  lemma KnownAnswer(M: map<DIType, DIType>, S: set<DIType>, t: DIType)
    requires CanonicalTable(M, S) && t in M
    ensures M[t] in S && Teq(t, M[t])
  {
  }

  lemma NewEntry(M: map<DIType, DIType>, S: set<DIType>, t: DIType, c: DIType)
    requires CanonicalTable(M, S) && c in S && Teq(t, c) && t !in M
    ensures CanonicalTable(M[t := c], S)
  {
  }

  lemma AddToTable(M: map<DIType, DIType>, S: set<DIType>, t: DIType)
    requires CanonicalTable(M, S) && WellTagged(t) && Strip(t) == t && t !in M
    requires forall c | c in S :: !Teq(t, c)
    ensures CanonicalTable(M[t := t], S + {t})
  {
    TeqReflexive(t);
    forall c, d | c in S + {t} && d in S + {t} && Teq(c, d) ensures c == d {
      TeqSymmetric(c, d);
    }
  }

  datatype Kind = Inheritance | Instance | FirstField | StdDef

  datatype Edge = Edge(src: nat, dst: nat, kind: Kind)

  predicate Follows(kind: Kind, firstField: bool) {
    kind.Inheritance? || kind.StdDef? || (firstField && kind.FirstField?)
  }

  function Followed(E: set<Edge>, firstField: bool): Pairs {
    set e | e in E && Follows(e.kind, firstField) :: (e.src, e.dst)
  }

  /** The edges followed, kind by kind: first fields only when asked for, instances never. */
  lemma FollowedIff(E: set<Edge>, m: nat, n: nat)
    ensures (m, n) in Followed(E, false) <==> Edge(m, n, Kind.Inheritance) in E || Edge(m, n, StdDef) in E
    ensures (m, n) in Followed(E, true) <==>
      Edge(m, n, Kind.Inheritance) in E || Edge(m, n, StdDef) in E || Edge(m, n, FirstField) in E
  {
    if (m, n) in Followed(E, false) {
      var e := FollowedEdge(E, m, n, false);
      assert e == Edge(m, n, e.kind);
    }
    if (m, n) in Followed(E, true) {
      var e := FollowedEdge(E, m, n, true);
      assert e == Edge(m, n, e.kind);
    }
    forall kind, firstField | Edge(m, n, kind) in E && Follows(kind, firstField)
      ensures (m, n) in Followed(E, firstField)
    {
      InFollowed(E, Edge(m, n, kind), firstField);
    }
  }

  lemma InFollowed(E: set<Edge>, e: Edge, firstField: bool)
    requires e in E && Follows(e.kind, firstField)
    ensures (e.src, e.dst) in Followed(E, firstField)
  {
  }

  lemma FollowedEdge(E: set<Edge>, m: nat, n: nat, firstField: bool) returns (e: Edge)
    requires (m, n) in Followed(E, firstField)
    ensures e in E && e.src == m && e.dst == n && Follows(e.kind, firstField)
  {
    e :| e in E && e.src == m && e.dst == n && Follows(e.kind, firstField);
  }

  /** Everything that reaches `n`. */
  ghost function Below(P: Pairs, n: nat): set<nat> {
    {n} + set p | p in P && Reach(P, p.0, n) :: p.0
  }

  lemma BelowIsReach(P: Pairs, m: nat, n: nat)
    ensures m in Below(P, n) <==> Reach(P, m, n)
  {
    ReachSelf(P, n);
    if Reach(P, m, n) && m != n {
      var p :| Links(P, p, m, n);
      assert (p[1 - 1], p[1]) in P;
    }
  }

  lemma BelowItself(P: Pairs, n: nat)
    ensures n in Below(P, n)
  {
  }

  lemma BelowGrows(P: Pairs, m: nat, n: nat)
    requires (m, n) in P
    ensures Below(P, m) <= Below(P, n)
  {
    forall x | x in Below(P, m) ensures x in Below(P, n) {
      BelowIsReach(P, x, m);
      ReachStep(P, m, n);
      ReachTrans(P, x, m, n);
      BelowIsReach(P, x, n);
    }
  }

  /** What reaches `n` is `n` itself and whatever reaches one of its predecessors. */
  lemma BelowSplits(P: Pairs, n: nat, x: nat) returns (m: nat)
    requires x in Below(P, n) && x != n
    ensures (m, n) in P && x in Below(P, m)
  {
    BelowIsReach(P, x, n);
    m := LastStep(P, x, n);
    BelowIsReach(P, x, m);
  }

  ghost predicate Ranked(E: set<Edge>, rank: nat -> nat) {
    forall e | e in E :: rank(e.src) < rank(e.dst)
  }

  /** Along every edge followed into a node from which `n` is reached, the rank rises. */
  ghost predicate RankedBelow(P: Pairs, rank: nat -> nat, n: nat) {
    forall p | p in P && Reach(P, p.1, n) :: rank(p.0) < rank(p.1)
  }

  lemma RankedBelowSource(P: Pairs, rank: nat -> nat, m: nat, n: nat)
    requires RankedBelow(P, rank, n) && (m, n) in P
    ensures RankedBelow(P, rank, m) && rank(m) < rank(n)
  {
    ReachSelf(P, n);
    ReachStep(P, m, n);
    assert (m, n).1 == n;
    forall p | p in P && Reach(P, p.1, m) ensures rank(p.0) < rank(p.1) {
      ReachTrans(P, p.1, m, n);
    }
  }

  lemma RankAlongBelow(P: Pairs, rank: nat -> nat, n: nat, p: seq<nat>)
    requires RankedBelow(P, rank, n) && IsChain(P, p) && Reach(P, p[|p| - 1], n)
    ensures Reach(P, p[0], n) && rank(p[0]) <= rank(p[|p| - 1])
  {
    if |p| > 1 {
      assert (p[1 - 1], p[1]) in P;
      RankAlongBelow(P, rank, n, p[1..]);
      ReachStep(P, p[0], p[1]);
      ReachTrans(P, p[0], p[1], n);
    }
  }

  /** The search below a node has a rank to go down exactly when nothing below it lies on a cycle
      of the edges followed. */
  lemma RankedBelowIff(P: Pairs, n: nat)
    ensures (exists rank :: RankedBelow(P, rank, n)) <==> (forall x: nat | Reach(P, x, n) :: !ReachPlus(P, x, x))
  {
    if rank :| RankedBelow(P, rank, n) {
      forall x: nat | Reach(P, x, n) ensures !ReachPlus(P, x, x) {
        if ReachPlus(P, x, x) {
          var c :| (x, c) in P && Reach(P, c, x);
          var p :| Links(P, p, c, x);
          assert (x, c).1 == c;
          RankAlongBelow(P, rank, n, p);
        }
      }
    }
    if forall x: nat | Reach(P, x, n) :: !ReachPlus(P, x, x) {
      var rank := (x: nat) => |Below(P, x)|;
      forall p | p in P && Reach(P, p.1, n) ensures rank(p.0) < rank(p.1) {
        MoreBelow(P, p.0, p.1);
      }
      assert RankedBelow(P, rank, n);
    }
  }

  /** Nodes are numbered in order of creation, one per canonical type. */
  ghost predicate NodeTable(S: set<DIType>, N: map<DIType, nat>, T: seq<DIType>, E: set<Edge>) {
    && (forall i: nat | i < |T| :: T[i] in S && T[i] in N && N[T[i]] == i)
    && (forall t | t in N :: N[t] < |T| && T[N[t]] == t)
    && (forall e | e in E :: e.src < |T| && e.dst < |T|)
  }

  /** A cache entry is the set of nodes that reach the type along the edges followed. */
  ghost predicate CacheTable(C: map<DIType, set<nat>>, N: map<DIType, nat>, P: Pairs) {
    forall t | t in C :: t in N && C[t] == Below(P, N[t])
  }

  lemma NewNode(S: set<DIType>, N: map<DIType, nat>, T: seq<DIType>, E: set<Edge>, c: DIType)
    requires NodeTable(S, N, T, E) && c in S && c !in N
    ensures NodeTable(S, N[c := |T|], T + [c], E)
  {
  }

  lemma NewEdge(S: set<DIType>, N: map<DIType, nat>, T: seq<DIType>, E: set<Edge>, c: DIType, d: DIType, kind: Kind)
    requires NodeTable(S, N, T, E) && c in N && d in N
    ensures NodeTable(S, N, T, E + {Edge(N[c], N[d], kind)})
  {
  }

  lemma MoreCanonicalTypes(S: set<DIType>, S': set<DIType>, N: map<DIType, nat>, T: seq<DIType>, E: set<Edge>)
    requires NodeTable(S, N, T, E) && S <= S'
    ensures NodeTable(S', N, T, E)
  {
  }

  lemma TypeOfNode(M: map<DIType, DIType>, S: set<DIType>, N: map<DIType, nat>, T: seq<DIType>, E: set<Edge>, e: Edge)
    requires CanonicalTable(M, S) && NodeTable(S, N, T, E) && e in E
    ensures e.src < |T| && T[e.src] in S && T[e.src] in N && N[T[e.src]] == e.src && WellTagged(T[e.src])
  {
  }

  lemma CanonicalEntry(M: map<DIType, DIType>, S: set<DIType>, c: DIType)
    requires CanonicalTable(M, S) && c in S
    ensures WellTagged(c) && c in M && M[c] == c
  {
  }

  lemma HasCanonicalType(S: set<DIType>, N: map<DIType, nat>, T: seq<DIType>, E: set<Edge>, t: DIType)
    requires NodeTable(S, N, T, E) && t in N
    ensures t in S && N[t] < |T|
  {
  }

  lemma MoreNodes(C: map<DIType, set<nat>>, N: map<DIType, nat>, P: Pairs, t: DIType, n: nat)
    requires CacheTable(C, N, P) && t !in N
    ensures CacheTable(C, N[t := n], P)
  {
  }

  lemma NewAnswer(C: map<DIType, set<nat>>, N: map<DIType, nat>, P: Pairs, t: DIType)
    requires CacheTable(C, N, P) && t in N
    ensures CacheTable(C[t := Below(P, N[t])], N, P)
  {
  }

  lemma Cached(C: map<DIType, set<nat>>, N: map<DIType, nat>, P: Pairs, t: DIType)
    requires CacheTable(C, N, P) && t in C
    ensures t in N && C[t] == Below(P, N[t])
  {
  }

  /** The node of the canonical type equal to `t`. */
  ghost predicate HasNode(S: set<DIType>, N: map<DIType, nat>, t: DIType) {
    exists c :: c in S && c in N && Teq(t, c)
  }

  ghost function NodeOf(S: set<DIType>, N: map<DIType, nat>, t: DIType): nat
    requires HasNode(S, N, t)
  {
    var c :| c in S && c in N && Teq(t, c);
    N[c]
  }

  lemma NodeOfIs(M: map<DIType, DIType>, S: set<DIType>, N: map<DIType, nat>, t: DIType, c: DIType)
    requires CanonicalTable(M, S) && HasNode(S, N, t) && c in S && Teq(t, c)
    ensures c in N && NodeOf(S, N, t) == N[c]
  {
    TeqReflexive(t);
    forall d | d in S && d in N && Teq(t, d) ensures d == c {
      OneCanonicalType(M, S, t, t, c, d);
    }
  }

  lemma SameCanonicalTypes(
    M: map<DIType, DIType>, S: set<DIType>, S': set<DIType>, N: map<DIType, nat>, t: DIType, c: DIType
  )
    requires CanonicalTable(M, S) && HasNode(S', N, t) && S == S' + {c} && Teq(t, c)
    ensures S == S'
  {
    var d :| d in S' && d in N && Teq(t, d);
    TeqReflexive(t);
    OneCanonicalType(M, S, t, t, c, d);
  }

  /** The search for what lies below `t` has a rank to go down; a type without a node has nothing
      below it. */
  ghost predicate RankedBelowType(
    S: set<DIType>, N: map<DIType, nat>, E: set<Edge>, firstField: bool, rank: nat -> nat, t: DIType
  ) {
    HasNode(S, N, t) ==> RankedBelow(Followed(E, firstField), rank, NodeOf(S, N, t))
  }

  lemma RankedBelowNode(
    M: map<DIType, DIType>, S: set<DIType>, N: map<DIType, nat>, E: set<Edge>, firstField: bool,
    rank: nat -> nat, t: DIType, c: DIType
  )
    requires CanonicalTable(M, S) && c in S && c in N && Teq(t, c)
    ensures RankedBelowType(S, N, E, firstField, rank, t) <==> RankedBelow(Followed(E, firstField), rank, N[c])
  {
    NodeOfIs(M, S, N, t, c);
  }

  /** Nothing leads to a node about to be created. */
  lemma NothingBelowNew(
    S: set<DIType>, N: map<DIType, nat>, T: seq<DIType>, E: set<Edge>, firstField: bool, rank: nat -> nat
  )
    requires NodeTable(S, N, T, E)
    ensures RankedBelow(Followed(E, firstField), rank, |T|)
  {
    var P := Followed(E, firstField);
    forall p | p in P ensures !Reach(P, p.1, |T|) {
      if Reach(P, p.1, |T|) {
        var m := p.0;
        if p.1 != |T| {
          m := LastStep(P, p.1, |T|);
        }
        var e := FollowedEdge(E, m, |T|, firstField);
      }
    }
  }

  /** `a` is `b` or one of its bases, following first fields too when asked. */
  ghost predicate BaseOf(S: set<DIType>, N: map<DIType, nat>, E: set<Edge>, firstField: bool, a: DIType, b: DIType) {
    HasNode(S, N, a) && HasNode(S, N, b) && Reach(Followed(E, firstField), NodeOf(S, N, b), NodeOf(S, N, a))
  }

  /** Being a base is reflexive up to type equality and transitive, and following first fields
      only adds bases. */
  lemma BaseOfPreorder(
    M: map<DIType, DIType>, S: set<DIType>, N: map<DIType, nat>, E: set<Edge>, firstField: bool,
    a: DIType, b: DIType, c: DIType
  )
    requires CanonicalTable(M, S) && HasNode(S, N, a)
    ensures Teq(a, b) ==> BaseOf(S, N, E, firstField, a, b)
    ensures BaseOf(S, N, E, firstField, a, b) && BaseOf(S, N, E, firstField, b, c) ==> BaseOf(S, N, E, firstField, a, c)
    ensures BaseOf(S, N, E, false, a, b) ==> BaseOf(S, N, E, true, a, b)
  {
    hide CanonicalTable, Teq, Reach, Followed;
    if Teq(a, b) {
      SameNode(M, S, N, a, b);
      ReachSelf(Followed(E, firstField), NodeOf(S, N, a));
    }
    if BaseOf(S, N, E, firstField, a, b) && BaseOf(S, N, E, firstField, b, c) {
      ReachTrans(Followed(E, firstField), NodeOf(S, N, c), NodeOf(S, N, b), NodeOf(S, N, a));
    }
    if BaseOf(S, N, E, false, a, b) {
      FollowsMore(E);
      ReachMono(Followed(E, false), Followed(E, true), NodeOf(S, N, b), NodeOf(S, N, a));
    }
  }

  lemma FollowsMore(E: set<Edge>)
    ensures Followed(E, false) <= Followed(E, true)
  {
    forall p | p in Followed(E, false) ensures p in Followed(E, true) {
      var e := FollowedEdge(E, p.0, p.1, false);
    }
  }

  lemma SameNode(M: map<DIType, DIType>, S: set<DIType>, N: map<DIType, nat>, a: DIType, b: DIType)
    requires CanonicalTable(M, S) && HasNode(S, N, a) && Teq(a, b)
    ensures HasNode(S, N, b) && NodeOf(S, N, a) == NodeOf(S, N, b)
  {
    var c :| c in S && c in N && Teq(a, c);
    TeqSymmetric(a, b);
    TeqTransitive(b, a, c);
    NodeOfIs(M, S, N, a, c);
    NodeOfIs(M, S, N, b, c);
  }

  /** A rank exists exactly when no node reaches itself in one or more steps. */
  lemma AcyclicIffRanked(E: set<Edge>)
    ensures (exists rank :: Ranked(E, rank)) <==> (forall n: nat :: !ReachPlus(AllPairs(E), n, n))
  {
    if rank :| Ranked(E, rank) {
      forall n: nat ensures !ReachPlus(AllPairs(E), n, n) {
        if ReachPlus(AllPairs(E), n, n) {
          var c :| (n, c) in AllPairs(E) && Reach(AllPairs(E), c, n);
          var p :| Links(AllPairs(E), p, c, n);
          RankAlong(E, rank, p);
        }
      }
    }
    if forall n: nat :: !ReachPlus(AllPairs(E), n, n) {
      var P := AllPairs(E);
      var rank := (n: nat) => |Below(P, n)|;
      forall e | e in E ensures rank(e.src) < rank(e.dst) {
        MoreBelow(P, e.src, e.dst);
      }
      assert Ranked(E, rank);
    }
  }

  function AllPairs(E: set<Edge>): Pairs {
    set e | e in E :: (e.src, e.dst)
  }

  lemma RankAlong(E: set<Edge>, rank: nat -> nat, p: seq<nat>)
    requires Ranked(E, rank) && IsChain(AllPairs(E), p)
    ensures rank(p[0]) <= rank(p[|p| - 1])
  {
    if |p| > 1 {
      assert (p[1 - 1], p[1]) in AllPairs(E);
      RankAlong(E, rank, p[1..]);
    }
  }

  lemma MoreBelow(P: Pairs, m: nat, n: nat)
    requires (m, n) in P && !ReachPlus(P, n, n)
    ensures |Below(P, m)| < |Below(P, n)|
  {
    BelowGrows(P, m, n);
    BelowItself(P, n);
    if n in Below(P, m) {
      BelowIsReach(P, n, m);
      ReachThenStep(P, n, m, n);
    }
    ProperSubsetSize(Below(P, m), Below(P, n), n);
  }

  /** The nodes of two types are one node exactly when the types are equal. */
  lemma OneNode(
    M: map<DIType, DIType>, S: set<DIType>, N: map<DIType, nat>, T: seq<DIType>, E: set<Edge>,
    t: DIType, u: DIType, c: DIType, d: DIType
  )
    requires CanonicalTable(M, S) && NodeTable(S, N, T, E)
    requires c in S && c in N && d in S && d in N && Teq(t, c) && Teq(u, d)
    ensures N[c] == N[d] <==> Teq(t, u)
    ensures N[c] == N[d] <==> FormOf(t) == FormOf(u)
  {
    hide CanonicalTable, Teq, FormOf;
    OneCanonicalType(M, S, t, u, c, d);
    TeqIffSameForm(t, u);
  }

  lemma CharIsNotVoid(t: DIType, c: DIType, S: set<DIType>, N: map<DIType, nat>, T: seq<DIType>, E: set<Edge>)
    requires t.Basic? && Teq(t, c) && NodeTable(S, N, T, E) && c in N && Void in N
    ensures N[c] < |T| && N[Void] < |T| && N[c] != N[Void] && T[N[c]] == c
  {
  }

  lemma TypeOfNumber(M: map<DIType, DIType>, S: set<DIType>, N: map<DIType, nat>, T: seq<DIType>, E: set<Edge>, i: nat)
    requires CanonicalTable(M, S) && NodeTable(S, N, T, E) && i < |T|
    ensures T[i] in S && T[i] in N && N[T[i]] == i && WellTagged(T[i])
    ensures Void in N ==> (T[i] == Void <==> i == N[Void])
  {
  }

  lemma SameCanonicalType(M: map<DIType, DIType>, S: set<DIType>, t: DIType, c: DIType, d: DIType)
    requires CanonicalTable(M, S) && c in S && d in S && Teq(t, c) && Teq(t, d)
    ensures c == d
  {
    TeqReflexive(t);
    OneCanonicalType(M, S, t, t, c, d);
  }
}
