/** When an interval is the least one that holds all results of an operation on two intervals. */
module BestInterval {
  import opened Arithmetic
  import opened NumericLiteral
  import opened IntervalValue

  /** `t` holds every result of `f` that exists. */
  ghost predicate Holds(t: Interval, lhs: Interval, rhs: Interval, f: (int, int) --> int) {
    forall x, y | lhs.Contains(x) && rhs.Contains(y) && f.requires(x, y) :: t.Contains(f(x, y))
  }

  /** `r` holds all results, and lies in every interval that does. */
  ghost predicate Best(r: Interval, lhs: Interval, rhs: Interval, f: (int, int) --> int) {
    Holds(r, lhs, rhs, f) && forall t: Interval | t.WellFormed() && Holds(t, lhs, rhs, f) :: r.Leq(t)
  }

  ghost predicate SomeBelow(lhs: Interval, rhs: Interval, f: (int, int) --> int, n: int) {
    exists x, y :: lhs.Contains(x) && rhs.Contains(y) && f.requires(x, y) && f(x, y) < n
  }

  ghost predicate SomeAbove(lhs: Interval, rhs: Interval, f: (int, int) --> int, n: int) {
    exists x, y :: lhs.Contains(x) && rhs.Contains(y) && f.requires(x, y) && f(x, y) > n
  }

  /** Results come as close to both bounds as integers can. */
  ghost predicate Approached(r: Interval, lhs: Interval, rhs: Interval, f: (int, int) --> int) {
    && (forall n: int | !Fin(n).Leq(r.lb) :: SomeBelow(lhs, rhs, f, n))
    && (forall n: int | !Fin(n).Geq(r.ub) :: SomeAbove(lhs, rhs, f, n))
  }

  lemma NothingOutside(t: Interval, lhs: Interval, rhs: Interval, f: (int, int) --> int, n: int)
    requires Holds(t, lhs, rhs, f)
    ensures t.lb.Fin? ==> !SomeBelow(lhs, rhs, f, t.lb.n)
    ensures t.ub.Fin? ==> !SomeAbove(lhs, rhs, f, t.ub.n)
    ensures SomeBelow(lhs, rhs, f, n) ==> !t.IsBottom()
  {
  }

  lemma ApproachedIsBest(r: Interval, lhs: Interval, rhs: Interval, f: (int, int) --> int)
    requires r.WellFormed() && !r.IsBottom()
    requires Holds(r, lhs, rhs, f) && Approached(r, lhs, rhs, f)
    ensures Best(r, lhs, rhs, f)
  {
    hide SomeBelow, SomeAbove;
    var n := if r.lb.Fin? then r.lb.n + 1 else 0;
    assert SomeBelow(lhs, rhs, f, n);
    forall t: Interval | t.WellFormed() && Holds(t, lhs, rhs, f) ensures r.Leq(t) {
      NothingOutside(t, lhs, rhs, f, n);
    }
  }

  lemma NoMembersBest(lhs: Interval, rhs: Interval, f: (int, int) --> int)
    requires lhs.IsBottom() || rhs.IsBottom()
    ensures Best(BOTTOM, lhs, rhs, f)
  {
    assert forall x :: !(lhs.IsBottom() && lhs.Contains(x)) && !(rhs.IsBottom() && rhs.Contains(x));
  }

  ghost predicate Finite(i: Interval) {
    !i.IsBottom() && i.lb.Fin? && i.ub.Fin?
  }

  ghost predicate Inside(r: Interval, v: Num) {
    r.lb.Leq(v) && v.Leq(r.ub)
  }

  predicate IsEnd(i: Interval, e: Num) {
    i.WellFormed() && !i.IsBottom() && (e == i.lb || e == i.ub)
  }

  /** A member at an end: the end itself, or as far out as asked for. */
  function Near(i: Interval, e: Num, m: nat): (x: int)
    requires IsEnd(i, e)
    ensures i.Contains(x)
    ensures e.Fin? ==> e.n == x
    ensures e.MinusInf? ==> x <= -1 * m
    ensures e.PlusInf? ==> x >= m
  {
    match e
    case Fin(n) => n
    case MinusInf => if i.ub.Fin? && i.ub.n < -1 * m then i.ub.n else -1 * m
    case PlusInf => if i.lb.Fin? && i.lb.n > m then i.lb.n else m
  }

  function Abs(x: int): nat {
    if x < 0 then -x else x
  }

  function Plus(x: int, y: int): int {
    x + y
  }

  function Minus(x: int, y: int): int {
    x - y
  }

  function Times(x: int, y: int): int {
    x * y
  }

  lemma SumApproached(lhs: Interval, rhs: Interval, n: int)
    requires lhs.WellFormed() && rhs.WellFormed() && !lhs.IsBottom() && !rhs.IsBottom()
    ensures !Fin(n).Leq(lhs.lb.Add(rhs.lb)) ==> SomeBelow(lhs, rhs, Plus, n)
    ensures !Fin(n).Geq(lhs.ub.Add(rhs.ub)) ==> SomeAbove(lhs, rhs, Plus, n)
  {
    var y0, y1 := Near(rhs, rhs.lb, Abs(n) + 1), Near(rhs, rhs.ub, Abs(n) + 1);
    var x0 := Near(lhs, lhs.lb, Abs(n) + Abs(y0) + 1);
    var x1 := Near(lhs, lhs.ub, Abs(n) + Abs(y1) + 1);
    var z0, z1 := Near(rhs, rhs.lb, Abs(n) + Abs(x0) + 1), Near(rhs, rhs.ub, Abs(n) + Abs(x1) + 1);
    assert Plus(x0, y0) < n || Plus(x0, z0) < n || Fin(n).Leq(lhs.lb.Add(rhs.lb));
    assert Plus(x1, y1) > n || Plus(x1, z1) > n || Fin(n).Geq(lhs.ub.Add(rhs.ub));
  }

  lemma DifferenceApproached(lhs: Interval, rhs: Interval, n: int)
    requires lhs.WellFormed() && rhs.WellFormed() && !lhs.IsBottom() && !rhs.IsBottom()
    ensures !Fin(n).Leq(lhs.lb.Sub(rhs.ub)) ==> SomeBelow(lhs, rhs, Minus, n)
    ensures !Fin(n).Geq(lhs.ub.Sub(rhs.lb)) ==> SomeAbove(lhs, rhs, Minus, n)
  {
    var y0, y1 := Near(rhs, rhs.ub, Abs(n) + 1), Near(rhs, rhs.lb, Abs(n) + 1);
    var x0 := Near(lhs, lhs.lb, Abs(n) + Abs(y0) + 1);
    var x1 := Near(lhs, lhs.ub, Abs(n) + Abs(y1) + 1);
    var z0, z1 := Near(rhs, rhs.ub, Abs(n) + Abs(x0) + 1), Near(rhs, rhs.lb, Abs(n) + Abs(x1) + 1);
    assert Minus(x0, y0) < n || Minus(x0, z0) < n || Fin(n).Leq(lhs.lb.Sub(rhs.ub));
    assert Minus(x1, y1) > n || Minus(x1, z1) > n || Fin(n).Geq(lhs.ub.Sub(rhs.lb));
  }

  /** A factor at least as large as asked for makes a product as large, times a non-zero factor. */
  lemma FarProduct(x: int, y: int, m: nat)
    requires y != 0
    ensures x >= m && y > 0 ==> x * y >= m
    ensures x >= m && y < 0 ==> x * y <= -1 * m
    ensures x <= -1 * m && y > 0 ==> x * y <= -1 * m
    ensures x <= -1 * m && y < 0 ==> x * y >= m
  {
    if y > 0 {
      MulMono(x, 1, y);
    } else {
      MulMono(x, y, -1);
    }
  }

  /** The product of two ends is approached by products of members. */
  lemma ProductApproached(lhs: Interval, rhs: Interval, e: Num, f: Num, n: int)
    requires IsEnd(lhs, e) && IsEnd(rhs, f)
    ensures !Fin(n).Leq(e.Mul(f)) ==> SomeBelow(lhs, rhs, Times, n)
    ensures !Fin(n).Geq(e.Mul(f)) ==> SomeAbove(lhs, rhs, Times, n)
  {
    var m := Abs(n) + 1;
    var x, y := Near(lhs, e, m), Near(rhs, f, m);
    if x != 0 && y != 0 {
      FarProduct(x, y, m);
      FarProduct(y, x, m);
    }
    assert Times(x, y) < n || Fin(n).Leq(e.Mul(f));
    assert Times(x, y) > n || Fin(n).Geq(e.Mul(f));
  }

  lemma SumsBest(lhs: Interval, rhs: Interval)
    requires lhs.WellFormed() && rhs.WellFormed() && !lhs.IsBottom() && !rhs.IsBottom()
    ensures Best(Interval(lhs.lb.Add(rhs.lb), lhs.ub.Add(rhs.ub)), lhs, rhs, Plus)
  {
    hide SomeBelow, SomeAbove;
    var r := Interval(lhs.lb.Add(rhs.lb), lhs.ub.Add(rhs.ub));
    forall n: int ensures
      && (!Fin(n).Leq(r.lb) ==> SomeBelow(lhs, rhs, Plus, n))
      && (!Fin(n).Geq(r.ub) ==> SomeAbove(lhs, rhs, Plus, n))
    {
      SumApproached(lhs, rhs, n);
    }
    assert Holds(r, lhs, rhs, Plus);
    ApproachedIsBest(r, lhs, rhs, Plus);
  }

  lemma DifferencesBest(lhs: Interval, rhs: Interval)
    requires lhs.WellFormed() && rhs.WellFormed() && !lhs.IsBottom() && !rhs.IsBottom()
    ensures Best(Interval(lhs.lb.Sub(rhs.ub), lhs.ub.Sub(rhs.lb)), lhs, rhs, Minus)
  {
    hide SomeBelow, SomeAbove;
    var r := Interval(lhs.lb.Sub(rhs.ub), lhs.ub.Sub(rhs.lb));
    forall n: int ensures
      && (!Fin(n).Leq(r.lb) ==> SomeBelow(lhs, rhs, Minus, n))
      && (!Fin(n).Geq(r.ub) ==> SomeAbove(lhs, rhs, Minus, n))
    {
      DifferenceApproached(lhs, rhs, n);
    }
    assert Holds(r, lhs, rhs, Minus);
    ApproachedIsBest(r, lhs, rhs, Minus);
  }

  predicate IsCorner(lhs: Interval, rhs: Interval, v: Num) {
    v == lhs.lb.Mul(rhs.lb) || v == lhs.lb.Mul(rhs.ub) || v == lhs.ub.Mul(rhs.lb) || v == lhs.ub.Mul(rhs.ub)
  }

  lemma ProductsApproached(lhs: Interval, rhs: Interval, r: Interval)
    requires lhs.WellFormed() && rhs.WellFormed() && !lhs.IsBottom() && !rhs.IsBottom()
    requires IsCorner(lhs, rhs, r.lb) && IsCorner(lhs, rhs, r.ub)
    ensures Approached(r, lhs, rhs, Times)
  {
    hide SomeBelow, SomeAbove;
    forall n: int ensures
      && (!Fin(n).Leq(r.lb) ==> SomeBelow(lhs, rhs, Times, n))
      && (!Fin(n).Geq(r.ub) ==> SomeAbove(lhs, rhs, Times, n))
    {
      ProductApproached(lhs, rhs, lhs.lb, rhs.lb, n);
      ProductApproached(lhs, rhs, lhs.lb, rhs.ub, n);
      ProductApproached(lhs, rhs, lhs.ub, rhs.lb, n);
      ProductApproached(lhs, rhs, lhs.ub, rhs.ub, n);
    }
  }
}
