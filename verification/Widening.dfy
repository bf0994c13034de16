/** Widening and narrowing iterations over the interval domain reach and keep a post-fixpoint. */
module Widening {
  import opened NumericLiteral
  import opened IntervalValue

  ghost predicate Monotone(F: Interval -> Interval) {
    forall x: Interval, y: Interval :: x.Leq(y) ==> F(x).Leq(F(y))
  }

  /** `F` applied `n` times to the empty interval. */
  function Iterate(F: Interval -> Interval, n: nat): Interval {
    if n == 0 then BOTTOM else F(Iterate(F, n - 1))
  }

  /** The widening sequence `x := x.widen_with(F(x))` from the empty interval. */
  function WidenSteps(F: Interval -> Interval, n: nat): Interval {
    if n == 0 then BOTTOM else Widen(WidenSteps(F, n - 1), F(WidenSteps(F, n - 1)))
  }

  /** The narrowing sequence `x := x.narrow_with(F(x))` from `x`. */
  function NarrowSteps(F: Interval -> Interval, x: Interval, n: nat): Interval {
    if n == 0 then x else Narrow(NarrowSteps(F, x, n - 1), F(NarrowSteps(F, x, n - 1)))
  }

  ghost predicate PostFixpoint(F: Interval -> Interval, x: Interval) {
    F(x).Leq(x)
  }

  lemma LeqTrans(a: Interval, b: Interval, c: Interval)
    requires a.Leq(b) && b.Leq(c)
    ensures a.Leq(c)
  {
  }

  /** The number of bounds of a non-empty interval that widening can still give up. */
  function FiniteEnds(x: Interval): nat {
    (if x.lb.MinusInf? then 0 else 1) + (if x.ub.PlusInf? then 0 else 1)
  }

  /** A widening step from a non-empty interval either was not needed or gives up a bound. */
  lemma WidenStep(x: Interval, y: Interval)
    requires !x.IsBottom()
    ensures !Widen(x, y).IsBottom() && x.Leq(Widen(x, y)) && y.Leq(Widen(x, y))
    ensures y.Leq(x) ==> Widen(x, y) == x
    ensures !y.Leq(x) ==> FiniteEnds(Widen(x, y)) < FiniteEnds(x)
  {
  }

  /** After `n` steps the sequence is stable, or it is non-empty and has given up `n - 1` bounds. */
  lemma {:induction false} WidenProgress(F: Interval -> Interval, n: nat)
    requires Monotone(F)
    ensures
      var x := WidenSteps(F, n);
      || PostFixpoint(F, x)
      || (n == 0 && x.IsBottom())
      || (!x.IsBottom() && FiniteEnds(x) + n <= 3)
  {
    if n > 0 {
      WidenProgress(F, n - 1);
      var x := WidenSteps(F, n - 1);
      if x.IsBottom() {
        assert Widen(x, F(x)) == F(x);
        if F(x).IsBottom() {
          assert F(x).Leq(x);
          assert F(F(x)).Leq(F(x));
        }
      } else {
        WidenStep(x, F(x));
      }
    }
  }

  lemma TopIsPostFixpoint(F: Interval -> Interval, x: Interval)
    requires !x.IsBottom() && FiniteEnds(x) == 0
    ensures PostFixpoint(F, x)
  {
  }

  /** Three changes are enough: `F(x)` is below `x` from then on, and `x` changes no more. */
  lemma {:induction false} WideningStopsInThree(F: Interval -> Interval, n: nat)
    requires Monotone(F) && n >= 3
    ensures PostFixpoint(F, WidenSteps(F, n))
    ensures WidenSteps(F, n).Equals(WidenSteps(F, 3))
  {
    if n == 3 {
      WidenProgress(F, 3);
      if !PostFixpoint(F, WidenSteps(F, 3)) {
        TopIsPostFixpoint(F, WidenSteps(F, 3));
      }
    } else {
      WideningStopsInThree(F, n - 1);
      var x := WidenSteps(F, n - 1);
      if x.IsBottom() {
        assert F(F(x)).Leq(F(x));
      } else {
        WidenStep(x, F(x));
      }
    }
  }

  /** A post-fixpoint of a monotone function covers every iterate from the empty interval. */
  lemma {:induction false} PostFixpointCovers(F: Interval -> Interval, x: Interval, n: nat)
    requires Monotone(F) && PostFixpoint(F, x)
    ensures Iterate(F, n).Leq(x)
  {
    if n > 0 {
      PostFixpointCovers(F, x, n - 1);
      assert F(Iterate(F, n - 1)).Leq(F(x));
      LeqTrans(Iterate(F, n), F(x), x);
    }
  }

  /** The result of widening covers every iterate of `F`. */
  lemma WideningCovers(F: Interval -> Interval, k: nat, n: nat)
    requires Monotone(F) && k >= 3
    ensures Iterate(F, n).Leq(WidenSteps(F, k))
  {
    WideningStopsInThree(F, k);
    PostFixpointCovers(F, WidenSteps(F, k), n);
  }

  /** Narrowing with something below stays between the two, and never trips the emptiness
      assertion of the bound reads. */
  lemma NarrowStep(x: Interval, y: Interval)
    requires y.Leq(x)
    ensures NarrowReads(x, y) && y.Leq(Narrow(x, y)) && Narrow(x, y).Leq(x)
  {
  }

  /** From a post-fixpoint on, narrowing keeps a post-fixpoint, descends, covers every iterate,
      and reads its bounds safely. */
  lemma {:induction false} NarrowingKeeps(F: Interval -> Interval, x: Interval, n: nat)
    requires Monotone(F) && PostFixpoint(F, x)
    ensures
      var y := NarrowSteps(F, x, n);
      && PostFixpoint(F, y) && y.Leq(x) && NarrowReads(y, F(y))
      && NarrowSteps(F, x, n + 1).Leq(y)
      && forall k: nat :: Iterate(F, k).Leq(y)
  {
    if n > 0 {
      NarrowingKeeps(F, x, n - 1);
      var y := NarrowSteps(F, x, n - 1);
      NarrowStep(y, F(y));
      var y' := NarrowSteps(F, x, n);
      assert F(y').Leq(F(y));
      LeqTrans(F(y'), F(y), y');
      LeqTrans(y', y, x);
    }
    var y := NarrowSteps(F, x, n);
    NarrowStep(y, F(y));
    forall k: nat ensures Iterate(F, k).Leq(y) {
      PostFixpointCovers(F, y, k);
    }
  }

  /** What narrowing can still do: become empty, and replace each infinite bound once. */
  function NarrowsLeft(x: Interval): nat {
    if x.IsBottom() then 0 else 1 + (if x.lb.MinusInf? then 1 else 0) + (if x.ub.PlusInf? then 1 else 0)
  }

  lemma NarrowChanges(x: Interval, y: Interval)
    requires y.Leq(x)
    ensures Narrow(x, y).Equals(x) || NarrowsLeft(Narrow(x, y)) < NarrowsLeft(x)
  {
  }

  /** Once a narrowing step changes nothing, no later one does. */
  lemma {:induction false} NarrowStable(F: Interval -> Interval, x: Interval, n: nat, k: nat)
    requires Monotone(F) && PostFixpoint(F, x) && n <= k
    requires NarrowSteps(F, x, n + 1).Equals(NarrowSteps(F, x, n))
    ensures NarrowSteps(F, x, k).Equals(NarrowSteps(F, x, n))
    decreases k
  {
    if n < k {
      NarrowStable(F, x, n, k - 1);
      var y, z := NarrowSteps(F, x, n), NarrowSteps(F, x, k - 1);
      NarrowingKeeps(F, x, k - 1);
      if !y.IsBottom() {
        assert y == z;
      }
    }
  }

  lemma {:induction false} NarrowBudget(F: Interval -> Interval, x: Interval, n: nat) returns (stop: nat)
    requires Monotone(F) && PostFixpoint(F, x)
    ensures stop <= n + NarrowsLeft(NarrowSteps(F, x, n))
    ensures n <= stop && NarrowSteps(F, x, stop + 1).Equals(NarrowSteps(F, x, stop))
    decreases NarrowsLeft(NarrowSteps(F, x, n))
  {
    NarrowingKeeps(F, x, n);
    var y := NarrowSteps(F, x, n);
    NarrowChanges(y, F(y));
    if NarrowSteps(F, x, n + 1).Equals(y) {
      stop := n;
    } else {
      stop := NarrowBudget(F, x, n + 1);
    }
  }

  /** Narrowing stops too: after three steps it changes no more. */
  lemma NarrowingStopsInThree(F: Interval -> Interval, x: Interval, k: nat)
    requires Monotone(F) && PostFixpoint(F, x) && k >= 3
    ensures NarrowSteps(F, x, k).Equals(NarrowSteps(F, x, 3))
  {
    var stop := NarrowBudget(F, x, 0);
    NarrowStable(F, x, stop, k);
    NarrowStable(F, x, stop, 3);
  }

  /** Outside the iteration the emptiness assertion can trip: narrowing [-oo, 3] with [5, 7] reads
      its upper bound while it is [5, 3]. */
  lemma NarrowCanTrip()
    ensures !NarrowReads(Interval(MinusInf, Fin(3)), Interval(Fin(5), Fin(7)))
    ensures HalfNarrowed(Interval(MinusInf, Fin(3)), Interval(Fin(5), Fin(7))).IsBottom()
  {
    NarrowTripsIff(Interval(MinusInf, Fin(3)), Interval(Fin(5), Fin(7)));
  }
}
