/** Closing the hierarchy: char comes below void, and everything with nothing above it below char. */
module HierarchyClosing {
  import opened DebugTypes
  import opened HierarchyTables
  import opened Reachability
  import opened Sets

  predicate HasOutEdge(E: set<Edge>, n: nat) {
    exists e :: e in E && e.src == n
  }

  /** The edges once char is below void and the first `k` nodes without an out-edge, void apart,
      are below char. */
  ghost function Closing(E: set<Edge>, ch: nat, vd: nat, k: nat): set<Edge> {
    var E1 := E + {Edge(ch, vd, StdDef)};
    E1 + set i: nat | i < k && i != vd && !HasOutEdge(E1, i) :: Edge(i, ch, StdDef)
  }

  /** The new edges: char below void, and below char every other node that had nothing above it. */
  lemma ClosingIff(E: set<Edge>, ch: nat, vd: nat, k: nat, e: Edge)
    ensures e in Closing(E, ch, vd, k) <==>
      || e in E
      || (e.src == ch && e.dst == vd && e.kind.StdDef?)
      || (e.src < k && e.src != vd && e.src != ch && e.dst == ch && e.kind.StdDef?
          && forall f :: f in E ==> f.src != e.src)
  {
    var E1 := E + {Edge(ch, vd, StdDef)};
    assert HasOutEdge(E1, e.src) <==> e.src == ch || exists f :: f in E && f.src == e.src by {
      if f :| f in E && f.src == e.src {
        assert f in E1;
      }
      assert Edge(ch, vd, StdDef) in E1;
    }
    assert e == Edge(e.src, e.dst, e.kind);
  }

  lemma ClosingStep(E: set<Edge>, ch: nat, vd: nat, k: nat)
    requires ch != vd
    ensures HasOutEdge(Closing(E, ch, vd, k), k) == HasOutEdge(E + {Edge(ch, vd, StdDef)}, k)
    ensures Closing(E, ch, vd, k + 1) ==
      if k != vd && !HasOutEdge(Closing(E, ch, vd, k), k)
      then Closing(E, ch, vd, k) + {Edge(k, ch, StdDef)} else Closing(E, ch, vd, k)
  {
    var E1 := E + {Edge(ch, vd, StdDef)};
    if HasOutEdge(E1, k) {
      var e :| e in E1 && e.src == k;
      assert e in Closing(E, ch, vd, k);
    }
  }

  lemma HighestRank(rank: nat -> nat, n: nat) returns (m: nat)
    ensures forall i: nat | i < n :: rank(i) <= m
  {
    m := 0;
    for k := 0 to n
      invariant forall i: nat | i < k :: rank(i) <= m
    {
      m := if rank(k) > m then rank(k) else m;
    }
  }

  ghost predicate Within(E: set<Edge>, n: nat) {
    forall e | e in E :: e.src < n && e.dst < n
  }

  /** `i` climbs to void, to char, or to a node with nothing above it. */
  ghost predicate ClimbsOut(E: set<Edge>, ch: nat, vd: nat, i: nat) {
    exists s: nat :: Reach(Followed(E, true), i, s) && (s == vd || s == ch || !HasOutEdge(E, s))
  }

  /** The edges that closing adds lead from a node where `ClimbsOut` may stop. */
  lemma ClosingEdge(E: set<Edge>, ch: nat, vd: nat, n: nat, m: nat, k: nat)
    requires (m, k) in Followed(Closing(E, ch, vd, n), true)
    ensures (m, k) in Followed(E, true) || m == ch || !HasOutEdge(E, m)
  {
    var e := FollowedEdge(Closing(E, ch, vd, n), m, k, true);
    if e in E {
      InFollowed(E, e, true);
    } else if e != Edge(ch, vd, StdDef) {
      OutEdgeStays(E, Edge(ch, vd, StdDef), m);
    }
  }

  lemma {:induction false} ClimbsOutAlong(E: set<Edge>, ch: nat, vd: nat, n: nat, p: seq<nat>)
    requires IsChain(Followed(Closing(E, ch, vd, n), true), p) && p[|p| - 1] == vd
    ensures ClimbsOut(E, ch, vd, p[0])
  {
    var P := Followed(E, true);
    ReachSelf(P, p[0]);
    if p[0] != vd && p[0] != ch && HasOutEdge(E, p[0]) {
      assert (p[1 - 1], p[1]) in Followed(Closing(E, ch, vd, n), true);
      ClosingEdge(E, ch, vd, n, p[0], p[1]);
      ReachStep(P, p[0], p[1]);
      ClimbsOutAlong(E, ch, vd, n, p[1..]);
      var s: nat :| Reach(P, p[1], s) && (s == vd || s == ch || !HasOutEdge(E, s));
      ReachTrans(P, p[0], p[1], s);
    }
  }

  /** Where `ClimbsOut` may stop, closing leads on to void. */
  lemma ClosingLeadsOn(E: set<Edge>, ch: nat, vd: nat, n: nat, s: nat)
    requires s < n && (s == vd || s == ch || !HasOutEdge(E, s))
    ensures Reach(Followed(Closing(E, ch, vd, n), true), s, vd)
  {
    var C := Closing(E, ch, vd, n);
    var P := Followed(C, true);
    InFollowed(C, Edge(ch, vd, StdDef), true);
    ReachStep(P, ch, vd);
    ReachSelf(P, vd);
    if s != vd && s != ch {
      OutEdgeStays(E, Edge(ch, vd, StdDef), s);
      InFollowed(C, Edge(s, ch, StdDef), true);
      ReachStep(P, s, ch);
      ReachTrans(P, s, ch, vd);
    }
  }

  lemma ReachWithin(E: set<Edge>, n: nat, i: nat, s: nat)
    requires Within(E, n) && i < n && Reach(Followed(E, true), i, s)
    ensures s < n
  {
    if i != s {
      var m := LastStep(Followed(E, true), i, s);
      var e := FollowedEdge(E, m, s, true);
    }
  }

  /** Closing puts exactly the nodes below void that climbed out before, cycles or not. */
  lemma ReachesVoidIff(E: set<Edge>, ch: nat, vd: nat, n: nat, i: nat)
    requires Within(E, n) && i < n
    ensures Reach(Followed(Closing(E, ch, vd, n), true), i, vd) <==> ClimbsOut(E, ch, vd, i)
  {
    var P, Q := Followed(E, true), Followed(Closing(E, ch, vd, n), true);
    if p :| Links(Q, p, i, vd) {
      ClimbsOutAlong(E, ch, vd, n, p);
    }
    if s: nat :| Reach(P, i, s) && (s == vd || s == ch || !HasOutEdge(E, s)) {
      ReachWithin(E, n, i, s);
      ClosingLeadsOn(E, ch, vd, n, s);
      FollowedGrows(E, Closing(E, ch, vd, n));
      ReachMono(P, Q, i, s);
      ReachTrans(Q, i, s, vd);
    }
  }

  lemma FollowedGrows(E: set<Edge>, C: set<Edge>)
    requires E <= C
    ensures Followed(E, true) <= Followed(C, true)
  {
  }

  /** Without cycles, and with every edge followed, all nodes climb out and so come below void. */
  lemma ReachesVoid(E: set<Edge>, rank: nat -> nat, ch: nat, vd: nat, n: nat, i: nat)
    requires Ranked(E, rank) && Within(E, n) && i < n && forall e | e in E :: !e.kind.Instance?
    ensures Reach(Followed(Closing(E, ch, vd, n), true), i, vd)
  {
    var top := HighestRank(rank, n);
    var s := ClimbToTop(E, rank, n, i, top);
    assert AllPairs(E) == Followed(E, true);
    assert ClimbsOut(E, ch, vd, i);
    ReachesVoidIff(E, ch, vd, n, i);
  }

  /** A node whose edges only lead back to itself stays out of void's reach. */
  lemma LoopStaysOut(E: set<Edge>, ch: nat, vd: nat, n: nat, i: nat)
    requires Within(E, n) && i < n && i != ch && i != vd
    requires HasOutEdge(E, i) && forall e | e in E && e.src == i :: e.dst == i
    ensures !Reach(Followed(Closing(E, ch, vd, n), true), i, vd)
  {
    var P := Followed(E, true);
    forall s: nat | Reach(P, i, s) ensures s == i {
      forall x, y | x == i && (x, y) in P ensures y == i {
        var e := FollowedEdge(E, x, y, true);
      }
      ClosedReach(P, {i}, i, s);
    }
    ReachesVoidIff(E, ch, vd, n, i);
  }

  /** The search below a node with an edge to itself has no rank to go down. */
  lemma LoopHasNoRank(E: set<Edge>, i: nat, kind: Kind, firstField: bool, rank: nat -> nat)
    requires Edge(i, i, kind) in E && Follows(kind, firstField)
    ensures !RankedBelow(Followed(E, firstField), rank, i)
  {
    InFollowed(E, Edge(i, i, kind), firstField);
    if RankedBelow(Followed(E, firstField), rank, i) {
      RankedBelowSource(Followed(E, firstField), rank, i, i);
    }
  }

  /** Void has nothing above it, and nothing above char but void is without something above it. */
  ghost predicate StaysAcyclic(E: set<Edge>, ch: nat, vd: nat, n: nat) {
    && !HasOutEdge(E, vd)
    && (forall i: nat | i < n && Reach(AllPairs(E), ch, i) && !HasOutEdge(E, i) :: i == ch || i == vd)
  }

  /** Everything above char is lifted above the nodes put below it, and void above all. */
  lemma ClosingRanked(E: set<Edge>, rank: nat -> nat, ch: nat, vd: nat, n: nat)
    requires Ranked(E, rank) && Within(E, n) && ch < n && ch != vd && StaysAcyclic(E, ch, vd, n)
    ensures exists higher :: Ranked(Closing(E, ch, vd, n), higher)
  {
    var top := HighestRank(rank, n);
    var A := set x | x in UpTo(n) && Reach(AllPairs(E), ch, x);
    ReachSelf(AllPairs(E), ch);
    var higher := (i: nat) => if i == vd then 2 * top + 2 else if i in A then top + 1 + rank(i) else rank(i);
    forall e | e in Closing(E, ch, vd, n) ensures higher(e.src) < higher(e.dst) {
      if e in E {
        assert HasOutEdge(E, e.src);
        AboveChar(E, ch, e);
      } else if e != Edge(ch, vd, StdDef) {
        NotAboveChar(E, ch, vd, n, e.src);
      }
    }
    assert Ranked(Closing(E, ch, vd, n), higher);
  }

  lemma AboveChar(E: set<Edge>, ch: nat, e: Edge)
    requires e in E
    ensures Reach(AllPairs(E), ch, e.src) ==> Reach(AllPairs(E), ch, e.dst)
  {
    if Reach(AllPairs(E), ch, e.src) {
      ReachStep(AllPairs(E), e.src, e.dst);
      ReachTrans(AllPairs(E), ch, e.src, e.dst);
    }
  }

  lemma NotAboveChar(E: set<Edge>, ch: nat, vd: nat, n: nat, i: nat)
    requires StaysAcyclic(E, ch, vd, n) && i < n && i != vd && !HasOutEdge(E + {Edge(ch, vd, StdDef)}, i)
    ensures !Reach(AllPairs(E), ch, i)
  {
    if Reach(AllPairs(E), ch, i) {
      OutEdgeStays(E, Edge(ch, vd, StdDef), i);
    }
  }

  lemma OutEdgeStays(E: set<Edge>, e: Edge, i: nat)
    ensures HasOutEdge(E + {e}, i) <==> HasOutEdge(E, i) || i == e.src
  {
    if HasOutEdge(E, i) {
      var f :| f in E && f.src == i;
      assert f in E + {e};
    }
    assert e in E + {e};
  }

  /** From every node one can climb to a node with nothing above it. */
  lemma {:induction false} ClimbToTop(E: set<Edge>, rank: nat -> nat, n: nat, i: nat, top: nat) returns (s: nat)
    requires Ranked(E, rank) && Within(E, n) && i < n && forall j: nat | j < n :: rank(j) <= top
    ensures s < n && !HasOutEdge(E, s) && Reach(AllPairs(E), i, s)
    decreases top - rank(i)
  {
    if HasOutEdge(E, i) {
      var e :| e in E && e.src == i;
      s := ClimbToTop(E, rank, n, e.dst, top);
      ReachStep(AllPairs(E), i, e.dst);
      ReachTrans(AllPairs(E), i, e.dst, s);
    } else {
      s := i;
      ReachSelf(AllPairs(E), i);
    }
  }

  /** Along a ranked extension of the edges, reaching does not lower the rank. */
  lemma RankReach(E: set<Edge>, C: set<Edge>, rank: nat -> nat, a: nat, b: nat)
    requires E <= C && Ranked(C, rank) && Reach(AllPairs(E), a, b)
    ensures rank(a) <= rank(b)
  {
    var p :| Links(AllPairs(E), p, a, b);
    RankAlong(E, rank, p);
  }

  lemma ClosingNeeds(E: set<Edge>, higher: nat -> nat, ch: nat, vd: nat, n: nat)
    requires Within(E, n) && vd < n && ch != vd && Ranked(Closing(E, ch, vd, n), higher)
    ensures Ranked(E, higher) && StaysAcyclic(E, ch, vd, n)
  {
    hide Reach;
    var C := Closing(E, ch, vd, n);
    assert E <= C && Edge(ch, vd, StdDef) in C;
    if HasOutEdge(E, vd) {
      var top := HighestRank(higher, n);
      var s := ClimbToTop(E, higher, n, vd, top);
      OutEdgeStays(E, Edge(ch, vd, StdDef), s);
      assert s == ch || Edge(s, ch, StdDef) in C;
      RankReach(E, C, higher, vd, s);
    }
    forall i: nat | i < n && Reach(AllPairs(E), ch, i) && !HasOutEdge(E, i) ensures i == ch || i == vd {
      OutEdgeStays(E, Edge(ch, vd, StdDef), i);
      assert i == ch || i == vd || Edge(i, ch, StdDef) in C;
      RankReach(E, C, higher, ch, i);
    }
  }

  /** The closed hierarchy is acyclic exactly when it was before and `StaysAcyclic` held. */
  lemma ClosingAcyclicIff(E: set<Edge>, ch: nat, vd: nat, n: nat)
    requires Within(E, n) && ch < n && vd < n && ch != vd
    ensures (exists higher :: Ranked(Closing(E, ch, vd, n), higher)) <==>
      (exists rank :: Ranked(E, rank)) && StaysAcyclic(E, ch, vd, n)
  {
    hide StaysAcyclic, Closing;
    if rank :| Ranked(E, rank) {
      if StaysAcyclic(E, ch, vd, n) {
        ClosingRanked(E, rank, ch, vd, n);
      }
    }
    if higher :| Ranked(Closing(E, ch, vd, n), higher) {
      ClosingNeeds(E, higher, ch, vd, n);
    }
  }

  lemma NothingClosed(E: set<Edge>, ch: nat, vd: nat)
    ensures Closing(E, ch, vd, 0) == E + {Edge(ch, vd, StdDef)}
  {
  }

  lemma ClosedOverVoid(
    S: set<DIType>, N: map<DIType, nat>, T: seq<DIType>, E: set<Edge>, ch: nat, vd: nat
  )
    requires NodeTable(S, N, T, Closing(E, ch, vd, |T|)) && ch < |T| && vd < |T| && ch != vd
    ensures forall i: nat | i < |T| ::
      Reach(Followed(Closing(E, ch, vd, |T|), true), i, vd) <==> ClimbsOut(E, ch, vd, i)
    ensures (exists higher :: Ranked(Closing(E, ch, vd, |T|), higher)) <==>
      (exists rank :: Ranked(E, rank)) && StaysAcyclic(E, ch, vd, |T|)
    ensures (exists rank :: Ranked(E, rank)) && (forall e | e in E :: !e.kind.Instance?) ==>
      forall i: nat | i < |T| :: Reach(Followed(Closing(E, ch, vd, |T|), true), i, vd)
  {
    hide Reach, Followed, Ranked, HasOutEdge, StaysAcyclic, ClimbsOut;
    assert Within(E, |T|) by {
      forall e | e in E ensures e.src < |T| && e.dst < |T| {
        assert e in Closing(E, ch, vd, |T|);
      }
    }
    forall i: nat | i < |T|
      ensures Reach(Followed(Closing(E, ch, vd, |T|), true), i, vd) <==> ClimbsOut(E, ch, vd, i)
    {
      ReachesVoidIff(E, ch, vd, |T|, i);
    }
    ClosingAcyclicIff(E, ch, vd, |T|);
    if rank :| Ranked(E, rank) {
      if forall e | e in E :: !e.kind.Instance? {
        forall i: nat | i < |T| ensures Reach(Followed(Closing(E, ch, vd, |T|), true), i, vd) {
          ReachesVoid(E, rank, ch, vd, |T|, i);
        }
      }
    }
  }
}
