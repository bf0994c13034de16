/** Reachability along a finite relation between node numbers. */
module Reachability {

  type Pairs = set<(nat, nat)>

  ghost predicate IsChain(E: Pairs, p: seq<nat>) {
    p != [] && forall i :: 0 < i < |p| ==> (p[i - 1], p[i]) in E
  }

  ghost predicate Links(E: Pairs, p: seq<nat>, a: nat, b: nat) {
    IsChain(E, p) && p[0] == a && p[|p| - 1] == b
  }

  /** Zero or more steps from `a` to `b`. */
  ghost predicate Reach(E: Pairs, a: nat, b: nat) {
    exists p :: Links(E, p, a, b)
  }

  /** One or more steps from `a` to `b`. */
  ghost predicate ReachPlus(E: Pairs, a: nat, b: nat) {
    exists c :: (a, c) in E && Reach(E, c, b)
  }

  lemma ReachSelf(E: Pairs, a: nat)
    ensures Reach(E, a, a)
  {
    assert Links(E, [a], a, a);
  }

  lemma ReachStep(E: Pairs, a: nat, b: nat)
    requires (a, b) in E
    ensures Reach(E, a, b)
  {
    assert Links(E, [a, b], a, b);
  }

  lemma ReachTrans(E: Pairs, a: nat, b: nat, c: nat)
    requires Reach(E, a, b) && Reach(E, b, c)
    ensures Reach(E, a, c)
  {
    var p :| Links(E, p, a, b);
    var q :| Links(E, q, b, c);
    var r := p + q[1..];
    assert Links(E, r, a, c) by {
      assert r[|p| - 1] == b == q[0];
    }
  }

  /** A set closed under the relation holds everything a member reaches. */
  lemma ClosedReach(E: Pairs, T: set<nat>, a: nat, b: nat)
    requires Reach(E, a, b) && a in T && forall x, y :: x in T && (x, y) in E ==> y in T
    ensures b in T
  {
    var p :| Links(E, p, a, b);
    var i := 0;
    while i + 1 < |p|
      invariant 0 <= i < |p| && p[i] in T
    {
      assert (p[i + 1 - 1], p[i + 1]) in E;
      i := i + 1;
    }
  }

  /** A non-trivial chain starts with a step. */
  lemma FirstStep(E: Pairs, a: nat, b: nat) returns (c: nat)
    requires Reach(E, a, b) && a != b
    ensures (a, c) in E && Reach(E, c, b)
  {
    var p :| Links(E, p, a, b);
    c := p[1];
    assert (p[1 - 1], p[1]) in E;
    assert Links(E, p[1..], c, b);
  }

  /** A non-trivial chain ends with a step. */
  lemma LastStep(E: Pairs, a: nat, b: nat) returns (c: nat)
    requires Reach(E, a, b) && a != b
    ensures (c, b) in E && Reach(E, a, c)
  {
    var p :| Links(E, p, a, b);
    c := p[|p| - 2];
    assert Links(E, p[..|p| - 1], a, c);
    assert (p[|p| - 1 - 1], p[|p| - 1]) in E;
  }

  /** A chain's every step makes it `ReachPlus`. */
  lemma ReachThenStep(E: Pairs, a: nat, b: nat, c: nat)
    requires Reach(E, a, b) && (b, c) in E
    ensures ReachPlus(E, a, c)
  {
    if a == b {
      ReachSelf(E, c);
    } else {
      var d := FirstStep(E, a, b);
      ReachStep(E, b, c);
      ReachTrans(E, d, b, c);
    }
  }

  lemma PlusHasLastStep(E: Pairs, a: nat, c: nat) returns (b: nat)
    requires ReachPlus(E, a, c)
    ensures Reach(E, a, b) && (b, c) in E
  {
    var d :| (a, d) in E && Reach(E, d, c);
    if d == c {
      b := a;
      ReachSelf(E, a);
    } else {
      b := LastStep(E, d, c);
      ReachStep(E, a, d);
      ReachTrans(E, a, d, b);
    }
  }

  lemma ReachMono(E: Pairs, E': Pairs, a: nat, b: nat)
    requires Reach(E, a, b) && E <= E'
    ensures Reach(E', a, b)
  {
    var p :| Links(E, p, a, b);
    assert Links(E', p, a, b);
  }

  function Converse(E: Pairs): Pairs {
    set e | e in E :: (e.1, e.0)
  }

  /** In a relation closed under converse, reachability is symmetric. */
  lemma {:induction false} ReachConverse(E: Pairs, a: nat, b: nat, p: seq<nat>)
    requires Links(E, p, a, b) && Converse(E) <= E
    ensures Reach(E, b, a)
    decreases |p|
  {
    if |p| == 1 {
      ReachSelf(E, a);
    } else {
      assert (p[1 - 1], p[1]) in E;
      assert (p[1], p[0]) in Converse(E);
      assert Links(E, p[1..], p[1], b);
      ReachConverse(E, p[1], b, p[1..]);
      ReachStep(E, p[1], a);
      ReachTrans(E, b, p[1], a);
    }
  }

  lemma ReachSymmetric(E: Pairs, a: nat, b: nat)
    requires Reach(E, a, b) && Converse(E) <= E
    ensures Reach(E, b, a)
  {
    var p :| Links(E, p, a, b);
    ReachConverse(E, a, b, p);
  }
}
