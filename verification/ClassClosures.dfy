/** What a worklist walk along inheritance edges collects: the classes above a class. */
module ClassClosures {
  import opened Reachability
  import opened Sets

  datatype Kind = Inheritance | Instance

  datatype Edge = Edge(src: nat, dst: nat, kind: Kind)

  function InheritancePairs(E: set<Edge>): Pairs {
    set e | e in E && e.kind.Inheritance? :: (e.src, e.dst)
  }

  lemma InheritancePairsAre(E: set<Edge>, m: nat, n: nat)
    ensures (m, n) in InheritancePairs(E) <==> Edge(m, n, Inheritance) in E
  {
    if (m, n) in InheritancePairs(E) {
      var e :| e in E && e.kind.Inheritance? && (e.src, e.dst) == (m, n);
      assert e == Edge(m, n, Inheritance);
    }
  }

  /** The classes a map of sets holds under a key; a key without an entry holds none. */
  function Get(m: map<nat, set<nat>>, k: nat): set<nat> {
    if k in m then m[k] else {}
  }

  function Insert(m: map<nat, set<nat>>, k: nat, v: nat): map<nat, set<nat>> {
    m[k := Get(m, k) + {v}]
  }

  /** The targets of edges that leave `V`. */
  function Successors(P: Pairs, V: set<nat>): set<nat> {
    set p | p in P && p.0 in V :: p.1
  }

  /** Everything reached from `n` in at least one step. */
  ghost function Above(P: Pairs, n: nat): set<nat> {
    set p | p in P && ReachPlus(P, n, p.1) :: p.1
  }

  lemma AboveIsReachPlus(P: Pairs, n: nat, m: nat)
    ensures m in Above(P, n) <==> ReachPlus(P, n, m)
  {
    if ReachPlus(P, n, m) {
      var b := PlusHasLastStep(P, n, m);
      assert (b, m).1 in Above(P, n);
    }
  }

  /** A visited set that holds the start, is reached from it, and is closed, yields by its
      outgoing edges exactly what is above the start. */
  lemma ClosedVisit(P: Pairs, n: nat, V: set<nat>)
    requires n in V && (forall v | v in V :: Reach(P, n, v)) && Successors(P, V) <= V
    ensures Successors(P, V) == Above(P, n)
  {
    forall m | m in Successors(P, V) ensures m in Above(P, n) {
      var p :| p in P && p.0 in V && p.1 == m;
      ReachThenStep(P, n, p.0, m);
      AboveIsReachPlus(P, n, m);
    }
    forall m | m in Above(P, n) ensures m in Successors(P, V) {
      AboveIsReachPlus(P, n, m);
      var b := PlusHasLastStep(P, n, m);
      forall x, y | x in V && (x, y) in P ensures y in V {
        assert (x, y).1 in Successors(P, V);
      }
      ClosedReach(P, V, n, b);
      assert (b, m) in P && b in V;
    }
  }

  /** The maps have gained `A` under `node` and `node` under each of `A`, and nothing else. */
  ghost predicate Gained(
    up0: map<nat, set<nat>>, down0: map<nat, set<nat>>, up: map<nat, set<nat>>, down: map<nat, set<nat>>,
    node: nat, A: set<nat>
  ) {
    && (forall k: nat :: Get(up, k) == Get(up0, k) + if k == node then A else {})
    && (forall k: nat :: Get(down, k) == Get(down0, k) + if k in A then {node} else {})
  }

  lemma GainsOne(
    up0: map<nat, set<nat>>, down0: map<nat, set<nat>>, up: map<nat, set<nat>>, down: map<nat, set<nat>>,
    node: nat, A: set<nat>, s: nat
  )
    requires Gained(up0, down0, up, down, node, A)
    ensures Gained(up0, down0, Insert(up, node, s), Insert(down, s, node), node, A + {s})
  {
    hide Get, Insert;
    forall k: nat ensures Get(Insert(up, node, s), k) == Get(up0, k) + if k == node then A + {s} else {} {
      GetInsert(up, node, s, k);
    }
    forall k: nat ensures Get(Insert(down, s, node), k) == Get(down0, k) + if k in A + {s} then {node} else {} {
      GetInsert(down, s, node, k);
    }
  }

  lemma GetInsert(m: map<nat, set<nat>>, k: nat, v: nat, j: nat)
    ensures Get(Insert(m, k, v), j) == Get(m, j) + if j == k then {v} else {}
  {
  }

  lemma NoGain(up: map<nat, set<nat>>, down: map<nat, set<nat>>, node: nat, P: Pairs)
    ensures Successors(P, {}) == {} && Gained(up, down, up, down, node, {})
  {
  }

  lemma ReachSuccessors(P: Pairs, n: nat, c: nat, limit: nat)
    requires Reach(P, n, c) && forall p | p in P :: p.1 < limit
    ensures forall s | s in Successors(P, {c}) :: s < limit && Reach(P, n, s)
  {
    forall s | s in Successors(P, {c}) ensures s < limit && Reach(P, n, s) {
      ReachStep(P, c, s);
      ReachTrans(P, n, c, s);
    }
  }

  lemma QueueHead(queue: seq<nat>)
    requires queue != []
    ensures forall v :: v in queue <==> v == queue[0] || v in queue[1..]
  {
    assert queue == [queue[0]] + queue[1..];
  }

  /** The classes queued behind the rest are reached too. */
  lemma QueueReached(P: Pairs, n: nat, c: nat, limit: nat, rest: seq<nat>, longer: seq<nat>)
    requires Reach(P, n, c) && forall p | p in P :: p.1 < limit
    requires forall v | v in rest :: v < limit && Reach(P, n, v)
    requires forall v :: v in longer <==> v in rest || v in Successors(P, {c})
    ensures forall v | v in longer :: v < limit && Reach(P, n, v)
  {
    hide Reach, Successors;
    ReachSuccessors(P, n, c, limit);
    forall v | v in longer ensures v < limit && Reach(P, n, v) {
      assert v in rest || v in Successors(P, {c});
    }
  }

  lemma VisitOneMore(P: Pairs, V: set<nat>, c: nat)
    ensures Successors(P, V + {c}) == Successors(P, V) + Successors(P, {c})
  {
    forall s | s in Successors(P, V + {c}) ensures s in Successors(P, V) + Successors(P, {c}) {
      var p :| p in P && p.0 in V + {c} && p.1 == s;
    }
  }
}
