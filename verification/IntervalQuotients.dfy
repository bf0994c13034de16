/** When the quotient of two intervals is the least interval that holds all quotients by non-zero
    divisors. */
module IntervalQuotients {
  import opened Arithmetic
  import opened NumericLiteral
  import opened IntervalValue
  import opened BestInterval

  /** There is no quotient by zero. */
  function Quotient(x: int, y: int): int
    requires y != 0
  {
    x / y
  }

  /** A numerator far enough out has a quotient as far out as asked for. */
  lemma FarQuotient(x: int, y: int, m: nat)
    requires y != 0
    ensures x >= m * Abs(y) ==> if y > 0 then x / y >= m else x / y <= -1 * m
    ensures x <= -1 * (m * Abs(y)) ==> if y > 0 then x / y <= -1 * m else x / y >= m
  {
    var d := Abs(y);
    QuotientLeast(x, d, m);
    QuotientLeast(x, d, -1 * m + 1);
    assert (-1 * m + 1) * d == -1 * (m * d) + d;
    if y < 0 {
      DivNegDivisor(x, y);
    }
  }

  /** The quotient of two ends is approached by quotients of members, except that a finite end
      divided by an infinite one counts as 0, which negative numerators do not come down to. */
  lemma QuotientApproached(lhs: Interval, rhs: Interval, e: Num, f: Num, n: int)
    requires IsEnd(lhs, e) && IsEnd(rhs, f) && !rhs.Contains(0)
    requires f.IsInf() && e.Fin? ==> e.n >= 0
    ensures !Fin(n).Leq(e.Div(f)) ==> SomeBelow(lhs, rhs, Quotient, n)
    ensures !Fin(n).Geq(e.Div(f)) ==> SomeAbove(lhs, rhs, Quotient, n)
  {
    var y := Near(rhs, f, if e.Fin? then Abs(e.n) + 1 else 0);
    if e.Fin? {
      if f.IsInf() {
        SmallNumerator(e.n, y);
      }
      assert Quotient(e.n, y) < n || Fin(n).Leq(e.Div(f));
      assert Quotient(e.n, y) > n || Fin(n).Geq(e.Div(f));
    } else {
      FarNumerator(lhs, rhs, e, y, n);
    }
  }

  /** Dividends that go on for ever do so divided by any divisor. */
  lemma FarNumerator(lhs: Interval, rhs: Interval, e: Num, y: int, n: int)
    requires IsEnd(lhs, e) && e.IsInf() && rhs.Contains(y) && y != 0
    ensures (e.MinusInf? == (y > 0)) ==> SomeBelow(lhs, rhs, Quotient, n)
    ensures (e.PlusInf? == (y > 0)) ==> SomeAbove(lhs, rhs, Quotient, n)
  {
    var m := Abs(n) + 1;
    var x := Near(lhs, e, m * Abs(y));
    FarQuotient(x, y, m);
    assert Quotient(x, y) < n || Quotient(x, y) > n;
  }

  lemma SmallNumerator(x: int, y: int)
    requires 0 <= x < Abs(y)
    ensures x / y == 0
  {
    var d := Abs(y);
    QuotientLeast(x, d, 0);
    QuotientLeast(x, d, 1);
    if y < 0 {
      DivNegDivisor(x, y);
    }
  }

  predicate IsQuotientCorner(lhs: Interval, rhs: Interval, v: Num)
    requires !rhs.lb.IsZero() && !rhs.ub.IsZero()
  {
    v == lhs.lb.Div(rhs.lb) || v == lhs.lb.Div(rhs.ub) || v == lhs.ub.Div(rhs.lb) || v == lhs.ub.Div(rhs.ub)
  }

  /** The bounds are the least and the greatest of the four corner quotients. */
  ghost predicate FourQuotients(lhs: Interval, rhs: Interval, r: Interval) {
    && !rhs.lb.IsZero() && !rhs.ub.IsZero()
    && IsQuotientCorner(lhs, rhs, r.lb) && IsQuotientCorner(lhs, rhs, r.ub)
    && Inside(r, lhs.lb.Div(rhs.lb)) && Inside(r, lhs.lb.Div(rhs.ub))
    && Inside(r, lhs.ub.Div(rhs.lb)) && Inside(r, lhs.ub.Div(rhs.ub))
  }

  predicate IsOperands(lhs: Interval, rhs: Interval) {
    lhs.WellFormed() && !lhs.IsBottom() && rhs.WellFormed() && !rhs.IsBottom()
  }

  /** The corner quotient of a negative end and an infinite one is 0, and then so is that of a
      non-negative end. */
  lemma ZeroCorner(lhs: Interval, rhs: Interval, r: Interval, f: Num)
    requires IsOperands(lhs, rhs) && !rhs.Contains(0) && FourQuotients(lhs, rhs, r)
    requires IsEnd(rhs, f) && f.IsInf() && lhs.lb.Fin? && lhs.lb.n < 0 && lhs.ub.Geq(Fin(0))
    ensures r.lb == lhs.lb.Div(f) ==> r.lb == lhs.ub.Div(f)
    ensures r.ub == lhs.lb.Div(f) ==> r.ub == lhs.ub.Div(f)
  {
    var c := if rhs.lb.Fin? then rhs.lb.n else rhs.ub.n;
    if c > 0 {
      DivMonoDivisor(lhs.lb.n, c, c);
    } else {
      DivNegDivisor(lhs.lb.n, c);
      DivMonoDivisor(lhs.lb.n, -c, -c);
    }
  }

  lemma QuotientsApproached(lhs: Interval, rhs: Interval, r: Interval)
    requires IsOperands(lhs, rhs) && !rhs.Contains(0) && FourQuotients(lhs, rhs, r)
    requires Finite(rhs) || lhs.ub.Geq(Fin(0))
    ensures Approached(r, lhs, rhs, Quotient)
  {
    hide SomeBelow, SomeAbove;
    if lhs.lb.Fin? && lhs.lb.n < 0 {
      if rhs.lb.IsInf() { ZeroCorner(lhs, rhs, r, rhs.lb); }
      if rhs.ub.IsInf() { ZeroCorner(lhs, rhs, r, rhs.ub); }
    }
    forall n: int ensures
      && (!Fin(n).Leq(r.lb) ==> SomeBelow(lhs, rhs, Quotient, n))
      && (!Fin(n).Geq(r.ub) ==> SomeAbove(lhs, rhs, Quotient, n))
    {
      GoodCorner(lhs, rhs, lhs.lb, rhs.lb, n);
      GoodCorner(lhs, rhs, lhs.lb, rhs.ub, n);
      GoodCorner(lhs, rhs, lhs.ub, rhs.lb, n);
      GoodCorner(lhs, rhs, lhs.ub, rhs.ub, n);
    }
  }

  lemma GoodCorner(lhs: Interval, rhs: Interval, e: Num, f: Num, n: int)
    requires IsEnd(lhs, e) && IsEnd(rhs, f) && !rhs.Contains(0)
    ensures (f.IsInf() && e.Fin? ==> e.n >= 0) && !Fin(n).Leq(e.Div(f)) ==> SomeBelow(lhs, rhs, Quotient, n)
    ensures (f.IsInf() && e.Fin? ==> e.n >= 0) && !Fin(n).Geq(e.Div(f)) ==> SomeAbove(lhs, rhs, Quotient, n)
  {
    if f.IsInf() && e.Fin? ==> e.n >= 0 {
      QuotientApproached(lhs, rhs, e, f, n);
    }
  }

  /** Negative numbers divided by unboundedly many divisors: the end 0 is not come down to. */
  lemma NegativesMissZero(lhs: Interval, rhs: Interval, r: Interval)
    requires IsOperands(lhs, rhs) && !rhs.Contains(0) && FourQuotients(lhs, rhs, r)
    requires !Finite(rhs) && !lhs.ub.Geq(Fin(0)) && Holds(r, lhs, rhs, Quotient)
    ensures !Best(r, lhs, rhs, Quotient)
  {
    var t := if rhs.lb.Fin? then Interval(r.lb, Fin(-1)) else Interval(Fin(1), r.ub);
    forall x, y | lhs.Contains(x) && rhs.Contains(y) && y != 0 ensures t.Contains(Quotient(x, y)) {
      assert r.Contains(Quotient(x, y));
      if y > 0 {
        DivMonoDivisor(x, y, y);
      } else {
        DivNegDivisor(x, y);
        DivMonoDivisor(x, -y, -y);
      }
    }
    assert Holds(t, lhs, rhs, Quotient);
    assert !r.Leq(t) && t.WellFormed();
  }

  /** Without 0 among the divisors the corner quotients are the least interval exactly when the
      divisors are bounded or some dividend is not negative. */
  lemma CornersLeastIff(lhs: Interval, rhs: Interval, r: Interval)
    requires IsOperands(lhs, rhs) && !rhs.Contains(0) && FourQuotients(lhs, rhs, r)
    requires r.WellFormed() && !r.IsBottom() && Holds(r, lhs, rhs, Quotient)
    ensures Best(r, lhs, rhs, Quotient) <==> Finite(rhs) || lhs.ub.Geq(Fin(0))
  {
    hide Best, Holds, Approached;
    if Finite(rhs) || lhs.ub.Geq(Fin(0)) {
      QuotientsApproached(lhs, rhs, r);
      ApproachedIsBest(r, lhs, rhs, Quotient);
    } else {
      NegativesMissZero(lhs, rhs, r);
    }
  }

  /** Dividends go down without bound against a divisor of the same sign, or up against one of the
      other sign. */
  predicate UnboundedBelow(lhs: Interval, rhs: Interval) {
    (lhs.lb.MinusInf? && !rhs.ub.Leq(Fin(0))) || (lhs.ub.PlusInf? && !rhs.lb.Geq(Fin(0)))
  }

  predicate UnboundedAbove(lhs: Interval, rhs: Interval) {
    (lhs.ub.PlusInf? && !rhs.ub.Leq(Fin(0))) || (lhs.lb.MinusInf? && !rhs.lb.Geq(Fin(0)))
  }

  lemma ByOne(x: int)
    ensures Quotient(x, 1) == x && Quotient(-x, -1) == x
  {
    DivNegDivisor(-x, -1);
  }

  lemma UnboundedQuotients(lhs: Interval, rhs: Interval, n: int)
    requires IsOperands(lhs, rhs) && rhs.Contains(0)
    ensures UnboundedBelow(lhs, rhs) ==> SomeBelow(lhs, rhs, Quotient, n)
    ensures UnboundedAbove(lhs, rhs) ==> SomeAbove(lhs, rhs, Quotient, n)
  {
    var m := Abs(n) + 1;
    if lhs.lb.MinusInf? {
      var x := Near(lhs, lhs.lb, m);
      ByOne(x);
      ByOne(-x);
      assert !rhs.ub.Leq(Fin(0)) ==> rhs.Contains(1) && Quotient(x, 1) < n;
      assert !rhs.lb.Geq(Fin(0)) ==> rhs.Contains(-1) && Quotient(x, -1) > n;
    }
    if lhs.ub.PlusInf? {
      var x := Near(lhs, lhs.ub, m);
      ByOne(x);
      ByOne(-x);
      assert !rhs.ub.Leq(Fin(0)) ==> rhs.Contains(1) && Quotient(x, 1) > n;
      assert !rhs.lb.Geq(Fin(0)) ==> rhs.Contains(-1) && Quotient(x, -1) < n;
    }
  }

  /** A quotient is no further out than its dividend. */
  lemma QuotientShrinks(x: int, y: int)
    requires y != 0
    ensures (x >= 0) == (y > 0) ==> 0 <= x / y <= Abs(x)
    ensures (x <= 0) == (y > 0) ==> -1 * Abs(x) <= x / y <= 0
  {
    if y < 0 {
      DivNegDivisor(x, y);
    }
    DivMonoDivisor(x, 1, Abs(y));
  }

  function SizeOf(e: Num): nat {
    if e.Fin? then Abs(e.n) else 0
  }

  /** Where the quotients are bounded on a side, the sizes of the dividend's finite ends bound them. */
  lemma BoundedQuotients(lhs: Interval, rhs: Interval, x: int, y: int)
    requires lhs.Contains(x) && rhs.Contains(y) && y != 0
    ensures !UnboundedBelow(lhs, rhs) ==> x / y >= -1 * (SizeOf(lhs.lb) + SizeOf(lhs.ub))
    ensures !UnboundedAbove(lhs, rhs) ==> x / y <= SizeOf(lhs.lb) + SizeOf(lhs.ub)
  {
    QuotientShrinks(x, y);
  }

  /** With 0 among the divisors: [0, 0] is the least interval exactly when there is another divisor,
      and everything is exactly when the quotients are unbounded both ways. */
  lemma ZeroDivisorLeastIff(lhs: Interval, rhs: Interval)
    requires IsOperands(lhs, rhs) && rhs.Contains(0)
    ensures lhs.IsZero() ==> (Best(Interval(Fin(0), Fin(0)), lhs, rhs, Quotient) <==> !rhs.IsZero())
    ensures Best(TOP, lhs, rhs, Quotient) <==> UnboundedBelow(lhs, rhs) && UnboundedAbove(lhs, rhs)
  {
    if lhs.IsZero() {
      ZeroDividend(lhs, rhs);
    }
    if UnboundedBelow(lhs, rhs) && UnboundedAbove(lhs, rhs) {
      forall n: int ensures SomeBelow(lhs, rhs, Quotient, n) && SomeAbove(lhs, rhs, Quotient, n) {
        UnboundedQuotients(lhs, rhs, n);
      }
      ApproachedIsBest(TOP, lhs, rhs, Quotient);
    } else {
      var m := SizeOf(lhs.lb) + SizeOf(lhs.ub);
      var t := if UnboundedBelow(lhs, rhs) then Interval(MinusInf, Fin(m)) else Interval(Fin(-1 * m), PlusInf);
      forall x, y | lhs.Contains(x) && rhs.Contains(y) && y != 0 ensures t.Contains(Quotient(x, y)) {
        BoundedQuotients(lhs, rhs, x, y);
      }
      assert Holds(t, lhs, rhs, Quotient);
      assert !TOP.Leq(t) && t.WellFormed();
    }
  }

  lemma ZeroDividend(lhs: Interval, rhs: Interval)
    requires IsOperands(lhs, rhs) && rhs.Contains(0) && lhs.IsZero()
    ensures Best(Interval(Fin(0), Fin(0)), lhs, rhs, Quotient) <==> !rhs.IsZero()
  {
    var zero := Interval(Fin(0), Fin(0));
    forall y | y != 0 ensures Quotient(0, y) == 0 {
      QuotientShrinks(0, y);
    }
    if rhs.IsZero() {
      assert Holds(BOTTOM, lhs, rhs, Quotient);
      assert !zero.Leq(BOTTOM) && BOTTOM.WellFormed();
    } else {
      var y := if rhs.Contains(1) then 1 else -1;
      assert rhs.Contains(y);
      forall t: Interval | t.WellFormed() && Holds(t, lhs, rhs, Quotient) ensures zero.Leq(t) {
        assert t.Contains(Quotient(0, y));
      }
    }
  }

  /** When division yields the least interval of the quotients by non-zero divisors. */
  predicate DivLeast(lhs: Interval, rhs: Interval) {
    if lhs.IsBottom() || rhs.IsBottom() then true
    else if !rhs.Contains(0) then (rhs.lb.Fin? && rhs.ub.Fin?) || lhs.ub.Geq(Fin(0))
    else if lhs.IsZero() then !rhs.IsZero()
    else UnboundedBelow(lhs, rhs) && UnboundedAbove(lhs, rhs)
  }
}
