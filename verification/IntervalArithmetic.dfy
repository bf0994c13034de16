/** Interval arithmetic: every result stands for at least all results of the members, and, where
    said, for no more than the least interval that does. */
module IntervalArithmetic {
  import opened Arithmetic
  import opened NumericLiteral
  import opened IntervalValue
  import opened BestInterval
  import opened IntervalQuotients

  // Four-corner evaluation.

  /** Bounding four corners bounds whatever lies between two values that each lie between two of them. */
  lemma CornersBound(r: Interval, ll: Num, lu: Num, ul: Num, uu: Num, l: Num, u: Num, v: Num)
    requires Inside(r, ll) && Inside(r, lu) && Inside(r, ul) && Inside(r, uu)
    requires Between(l, ll, lu) && Between(u, ul, uu) && Between(v, l, u)
    ensures Inside(r, v)
  {
  }

  lemma ProductBetween(a: Num, x: int, b: Num, y: int)
    requires a.Leq(Fin(x)) && Fin(x).Leq(b)
    ensures Between(Fin(x * y), a.Mul(Fin(y)), b.Mul(Fin(y)))
  {
    MulBetween(Fin(y), a, x, b);
    MulComm(Fin(y), a);
    MulComm(Fin(y), b);
    MulComm(Fin(y), Fin(x));
  }

  /** The four corner products bound every product. */
  lemma CornersBoundProduct(lhs: Interval, rhs: Interval, r: Interval, x: int, y: int)
    requires lhs.Contains(x) && rhs.Contains(y)
    requires Inside(r, lhs.lb.Mul(rhs.lb)) && Inside(r, lhs.lb.Mul(rhs.ub))
    requires Inside(r, lhs.ub.Mul(rhs.lb)) && Inside(r, lhs.ub.Mul(rhs.ub))
    ensures r.Contains(x * y)
  {
    MulBetween(lhs.lb, rhs.lb, y, rhs.ub);
    MulBetween(lhs.ub, rhs.lb, y, rhs.ub);
    ProductBetween(lhs.lb, x, lhs.ub, y);
    CornersBound(r, lhs.lb.Mul(rhs.lb), lhs.lb.Mul(rhs.ub), lhs.ub.Mul(rhs.lb), lhs.ub.Mul(rhs.ub),
                 lhs.lb.Mul(Fin(y)), lhs.ub.Mul(Fin(y)), Fin(x * y));
  }

  /** The four corner quotients bound every quotient when the divisors have one sign. */
  lemma CornersBoundQuotient(lhs: Interval, rhs: Interval, r: Interval, x: int, y: int)
    requires lhs.Contains(x) && rhs.Contains(y) && rhs.WellFormed() && !rhs.Contains(0)
    requires Inside(r, lhs.lb.Div(rhs.lb)) && Inside(r, lhs.lb.Div(rhs.ub))
    requires Inside(r, lhs.ub.Div(rhs.lb)) && Inside(r, lhs.ub.Div(rhs.ub))
    ensures y != 0 && r.Contains(x / y)
  {
    DivBetweenDivisors(lhs.lb, rhs.lb, y, rhs.ub);
    DivBetweenDivisors(lhs.ub, rhs.lb, y, rhs.ub);
    DivBetweenNumerators(lhs.lb, x, lhs.ub, y);
    CornersBound(r, lhs.lb.Div(rhs.lb), lhs.lb.Div(rhs.ub), lhs.ub.Div(rhs.lb), lhs.ub.Div(rhs.ub),
                 lhs.lb.Div(Fin(y)), lhs.ub.Div(Fin(y)), Fin(x / y));
  }

  method Add(lhs: Interval, rhs: Interval) returns (r: Interval)
    requires lhs.WellFormed() && rhs.WellFormed()
    ensures r.WellFormed()
    ensures Best(r, lhs, rhs, Plus)
    ensures r.IsBottom() <==> lhs.IsBottom() || rhs.IsBottom()
  {
    hide Best;
    if lhs.IsBottom() || rhs.IsBottom() {
      NoMembersBest(lhs, rhs, Plus);
      return BOTTOM;
    }
    if lhs.IsTop() || rhs.IsTop() {
      r := TOP;
    } else {
      r := Interval(lhs.lb.Add(rhs.lb), lhs.ub.Add(rhs.ub));
    }
    SumsBest(lhs, rhs);
  }

  method Sub(lhs: Interval, rhs: Interval) returns (r: Interval)
    requires lhs.WellFormed() && rhs.WellFormed()
    ensures r.WellFormed()
    ensures Best(r, lhs, rhs, Minus)
    ensures r.IsBottom() <==> lhs.IsBottom() || rhs.IsBottom()
  {
    hide Best;
    if lhs.IsBottom() || rhs.IsBottom() {
      NoMembersBest(lhs, rhs, Minus);
      return BOTTOM;
    }
    if lhs.IsTop() || rhs.IsTop() {
      r := TOP;
    } else {
      r := Interval(lhs.lb.Sub(rhs.ub), lhs.ub.Sub(rhs.lb));
    }
    DifferencesBest(lhs, rhs);
  }

  /** The least interval of all products, infinite bounds included. */
  method Mul(lhs: Interval, rhs: Interval) returns (r: Interval)
    requires lhs.WellFormed() && rhs.WellFormed()
    ensures r.WellFormed()
    ensures Best(r, lhs, rhs, Times)
    ensures r.IsBottom() <==> lhs.IsBottom() || rhs.IsBottom()
  {
    if lhs.IsBottom() || rhs.IsBottom() {
      NoMembersBest(lhs, rhs, Times);
      return BOTTOM;
    }
    var ll := lhs.lb.Mul(rhs.lb);
    var lu := lhs.lb.Mul(rhs.ub);
    var ul := lhs.ub.Mul(rhs.lb);
    var uu := lhs.ub.Mul(rhs.ub);
    var vec := [ll, lu, ul, uu];
    var lb := MinOf(vec);
    var ub := MaxOf(vec);
    r := Interval(lb, ub);
    assert vec[0] == ll && vec[1] == lu && vec[2] == ul && vec[3] == uu;
    forall x, y | lhs.Contains(x) && rhs.Contains(y) ensures r.Contains(Times(x, y)) {
      CornersBoundProduct(lhs, rhs, r, x, y);
    }
    ProductsApproached(lhs, rhs, r);
    ApproachedIsBest(r, lhs, rhs, Times);
  }

  /** Holds every quotient by a non-zero divisor, and is the least such interval exactly when
      `DivLeast` says so. */
  method Div(lhs: Interval, rhs: Interval) returns (r: Interval)
    requires lhs.WellFormed() && rhs.WellFormed()
    ensures r.WellFormed()
    ensures Holds(r, lhs, rhs, Quotient)
    ensures Best(r, lhs, rhs, Quotient) <==> DivLeast(lhs, rhs)
    ensures r.IsBottom() <==> lhs.IsBottom() || rhs.IsBottom()
    ensures !lhs.IsBottom() && rhs.Contains(0) ==> r == if lhs.IsZero() then Interval(Fin(0), Fin(0)) else TOP
    ensures !lhs.IsBottom() && !rhs.IsBottom() && !rhs.Contains(0) ==> FourQuotients(lhs, rhs, r)
  {
    hide Best;
    if lhs.IsBottom() || rhs.IsBottom() {
      NoMembersBest(lhs, rhs, Quotient);
      return BOTTOM;
    } else if rhs.Contains(0) {
      ZeroDivisorLeastIff(lhs, rhs);
      ZeroHoldsQuotients(lhs, rhs);
      return if lhs.IsZero() then Interval(Fin(0), Fin(0)) else TOP;
    }
    var ll := lhs.lb.Div(rhs.lb);
    var lu := lhs.lb.Div(rhs.ub);
    var ul := lhs.ub.Div(rhs.lb);
    var uu := lhs.ub.Div(rhs.ub);
    var vec := [ll, lu, ul, uu];
    var lb := MinOf(vec);
    var ub := MaxOf(vec);
    r := Interval(lb, ub);
    assert vec[0] == ll && vec[1] == lu && vec[2] == ul && vec[3] == uu;
    forall x, y | lhs.Contains(x) && rhs.Contains(y) && y != 0 ensures r.Contains(Quotient(x, y)) {
      CornersBoundQuotient(lhs, rhs, r, x, y);
    }
    CornersLeastIff(lhs, rhs, r);
  }

  lemma ZeroHoldsQuotients(lhs: Interval, rhs: Interval)
    ensures lhs.IsZero() ==> Holds(Interval(Fin(0), Fin(0)), lhs, rhs, Quotient)
    ensures Holds(TOP, lhs, rhs, Quotient)
  {
    forall y | y != 0 ensures Quotient(0, y) == 0 {
      QuotientShrinks(0, y);
    }
  }

  /** Inputs on which division is sound but too wide: -5 divided by 2 and more gives [-3, 0], yet
      no quotient is 0; 5 divided by 0 to 2 gives everything, yet the quotients are 2 and 5. */
  lemma DivNotBest()
    ensures !DivLeast(Interval(Fin(-5), Fin(-5)), Interval(Fin(2), PlusInf))
    ensures !Best(Interval(Fin(-3), Fin(0)), Interval(Fin(-5), Fin(-5)), Interval(Fin(2), PlusInf), Quotient)
    ensures !DivLeast(Interval(Fin(5), Fin(5)), Interval(Fin(0), Fin(2)))
    ensures Holds(Interval(Fin(2), Fin(5)), Interval(Fin(5), Fin(5)), Interval(Fin(0), Fin(2)), Quotient)
  {
    var lhs, rhs := Interval(Fin(-5), Fin(-5)), Interval(Fin(2), PlusInf);
    var t := Interval(Fin(-3), Fin(-1));
    forall x, y | lhs.Contains(x) && rhs.Contains(y) && y != 0 ensures t.Contains(Quotient(x, y)) {
      DivMonoDivisor(-5, 2, y);
    }
    assert Holds(t, lhs, rhs, Quotient);
    FiveByTwo();
  }

  lemma FiveByTwo()
    ensures Holds(Interval(Fin(2), Fin(5)), Interval(Fin(5), Fin(5)), Interval(Fin(0), Fin(2)), Quotient)
  {
    assert Quotient(5, 1) == 5 && Quotient(5, 2) == 2;
  }
}
