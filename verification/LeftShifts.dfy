/** The left shift of intervals. */
module LeftShifts {
  import opened Arithmetic
  import opened NumericLiteral
  import opened IntervalValue
  import opened BestInterval
  import opened IntervalArithmetic
  import opened Bits
  import opened ShiftCounts

  function Scaled(x: int, s: int): int
    requires s >= 0
  {
    x * Pow2(s)
  }

  /** The factors the source multiplies with: 1 shifted by the bounds as cast. */
  function Factors(shift: Interval): Interval
    requires CountsDefined(shift)
  {
    Interval(Fin(ShiftedOne(Cast(shift.lb).n)), if shift.ub.Fin? then Fin(ShiftedOne(Cast(shift.ub).n)) else PlusInf)
  }

  /** The factors of a left shift whose counts stay below the sign bit. */
  predicate IsFactors(shift: Interval, coeff: Interval) {
    && IsClipped(shift) && coeff.lb == Fin(Pow2(shift.lb.n))
    && coeff.ub == if shift.ub.Fin? then Fin(Pow2(shift.ub.n)) else PlusInf
  }

  lemma FactorOf(shift: Interval, coeff: Interval, s: int)
    requires IsFactors(shift, coeff) && shift.Contains(s)
    ensures s >= 0 && coeff.Contains(Pow2(s))
  {
    Pow2Mono(shift.lb.n, s);
    if shift.ub.Fin? {
      Pow2Mono(s, shift.ub.n);
    }
  }

  /** An interval that holds all multiples by powers of two holds what lies between them. */
  lemma HoldsBetween(t: Interval, lhs: Interval, shift: Interval, coeff: Interval, x: int, c: int)
    requires IsFactors(shift, coeff) && Holds(t, lhs, shift, Scaled) && lhs.Contains(x) && coeff.Contains(c)
    ensures t.Contains(x * c)
  {
    var low := shift.lb.n;
    var high := if shift.ub.Fin? then shift.ub.n else low + c;
    Pow2Grows(high);
    assert shift.Contains(low) && shift.Contains(high);
    assert t.Contains(Scaled(x, low)) && t.Contains(Scaled(x, high));
    MulMono(x, Pow2(low), c);
    MulMono(x, c, Pow2(high));
  }

  lemma BestScaled(r: Interval, lhs: Interval, shift: Interval, coeff: Interval)
    requires IsFactors(shift, coeff) && Best(r, lhs, coeff, Times)
    ensures Best(r, lhs, shift, Scaled)
  {
    forall x, s | lhs.Contains(x) && shift.Contains(s) && s >= 0 ensures r.Contains(Scaled(x, s)) {
      FactorOf(shift, coeff, s);
      assert r.Contains(Times(x, Pow2(s)));
    }
    forall t: Interval | t.WellFormed() && Holds(t, lhs, shift, Scaled) ensures r.Leq(t) {
      forall x, c | lhs.Contains(x) && coeff.Contains(c) ensures t.Contains(Times(x, c)) {
        HoldsBetween(t, lhs, shift, coeff, x, c);
      }
      assert Holds(t, lhs, coeff, Times);
    }
  }

  /** Where the operand has a finite end away from zero, no product goes beyond that end's. */
  predicate NoFiniteReach(lhs: Interval) {
    (lhs.ub.PlusInf? || lhs.ub.Leq(Fin(0))) && (lhs.lb.MinusInf? || lhs.lb.Geq(Fin(0)))
  }

  /** When the products with the source's factors cover the shifts by all counts. The factors must
      not be empty; apart from operands with nothing to lose, the upper count must survive the cast
      and not reach the sign bit, or the loss must be made up for at an infinite end. With both counts
      at the sign bit the factor is -2^31, which only symmetric operands forgive. */
  predicate LeftSound(lhs: Interval, shift: Interval)
    requires CountsDefined(shift)
  {
    && !Factors(shift).IsBottom()
    && (lhs.IsZero() || lhs.IsTop() || shift.ub.PlusInf? ||
        if Cast(shift.lb).n <= 30 then Cast(shift.ub) == shift.ub || NoFiniteReach(lhs)
        else if Cast(shift.ub).n == 31 then shift.ub.n == 31 && lhs.lb == lhs.ub.Neg()
        else lhs.lb.MinusInf? || lhs.ub.PlusInf?)
  }

  /** When they are not wider than needed either. */
  predicate LeftLeast(lhs: Interval, shift: Interval)
    requires CountsDefined(shift)
  {
    && LeftSound(lhs, shift)
    && (lhs.IsZero() || lhs.IsTop() ||
        if Cast(shift.lb).n <= 30 then Cast(shift.lb) == shift.lb || lhs.Contains(0)
        else if shift.ub.PlusInf? then lhs.Contains(-1) && lhs.Contains(1)
        else Cast(shift.ub).n == 31)
  }

  /** The source's factors as numbers. */
  lemma FactorBounds(shift: Interval)
    requires CountsDefined(shift)
    ensures
      var a, c := Cast(shift.lb).n, Factors(shift);
      && (if a <= 30 then c.lb == Fin(Pow2(a)) && 1 <= Pow2(a) <= Pow2(shift.lb.n) else c.lb == Fin(-0x8000_0000))
      && (a == 31 ==> Pow2(shift.lb.n) >= 0x8000_0000)
      && (a <= 30 && a != shift.lb.n ==> Pow2(a) < Pow2(shift.lb.n))
    ensures shift.ub.PlusInf? ==> Factors(shift).ub.PlusInf?
    ensures shift.ub.Fin? ==>
      var b, c := Cast(shift.ub).n, Factors(shift);
      && (if b <= 30 then c.ub == Fin(Pow2(b)) && 1 <= Pow2(b) <= 0x4000_0000 else c.ub == Fin(-0x8000_0000))
      && (b == shift.ub.n || Pow2(shift.ub.n) > 0x8000_0000)
  {
    hide Cast;
    Pow30();
    CastGrows(shift.lb.n);
    if shift.ub.Fin? {
      CastGrows(shift.ub.n);
    }
  }

  lemma CastGrows(n: nat)
    requires 0 <= Cast(Fin(n)).n <= 31
    ensures
      var k := Cast(Fin(n)).n;
      && 1 <= Pow2(k) && (k <= 30 ==> Pow2(k) <= 0x4000_0000) && (k == 31 ==> Pow2(k) == 0x8000_0000)
      && (k == n || Pow2(n) > 0x8000_0000)
  {
    var k := Cast(Fin(n)).n;
    CastCount(n);
    Pow30();
    Pow2Mono(k, if k <= 30 then 30 else 31);
    if k != n {
      Pow2Mono(32, n);
    }
  }

  // When the products cover the shifts.

  /** On a side where the operand has no end, products come as far out as asked for. */
  lemma FarInside(lhs: Interval, coeff: Interval, r: Interval, x: int, c: int, v: int)
    requires Holds(r, lhs, coeff, Times) && lhs.Contains(x) && coeff.Contains(c) && c > 0
    requires x > 0 ==> lhs.ub.PlusInf? && v >= x * c
    requires x < 0 ==> lhs.lb.MinusInf? && v <= x * c
    requires x == 0 ==> v == 0
    ensures r.Contains(v)
  {
    assert r.Contains(Times(x, c));
    MulMono(x, 1, c);
    MulMono(v, 1, c);
    if x != 0 {
      assert r.Contains(Times(v, c));
    }
  }

  /** Factors of both signs and an end without bound give every product. */
  lemma BothSigns(lhs: Interval, coeff: Interval, r: Interval, v: int)
    requires lhs.WellFormed() && !lhs.IsBottom() && (lhs.lb.MinusInf? || lhs.ub.PlusInf?)
    requires coeff.Contains(1) && coeff.Contains(-1) && Holds(r, lhs, coeff, Times)
    ensures r.Contains(v)
  {
    var x := Near(lhs, if lhs.ub.PlusInf? then lhs.ub else lhs.lb, Abs(v));
    assert r.Contains(Times(x, 1)) && r.Contains(Times(x, -1));
  }

  lemma AllInside(lhs: Interval, coeff: Interval, r: Interval, c: int, v: int)
    requires lhs.IsTop() && coeff.Contains(c) && c != 0 && Holds(r, lhs, coeff, Times)
    ensures r.Contains(v)
  {
    FarProduct(Abs(v), c, Abs(v));
    FarProduct(-1 * Abs(v), c, Abs(v));
    assert r.Contains(Times(Abs(v), c)) && r.Contains(Times(-1 * Abs(v), c));
  }

  /** The factor of a count, against the source's factors. */
  lemma FactorOfCount(shift: Interval, s: nat)
    requires CountsDefined(shift) && shift.Contains(s)
    ensures
      var a, c := Cast(shift.lb).n, Factors(shift);
      && Pow2(s) >= 1 && c.lb.Fin?
      && (shift.ub.PlusInf? ==> c.Contains(Pow2(s)))
      && (shift.ub.Fin? && a <= 30 && Cast(shift.ub) == shift.ub && !c.IsBottom() ==> c.Contains(Pow2(s)))
      && (a <= 30 ==> c.lb.n >= 1 && c.lb.n <= Pow2(s))
      && (a == 31 ==> c.lb.n == -0x8000_0000)
      && (a == 31 && shift.ub == Fin(31) ==> Pow2(s) == 0x8000_0000)
  {
    hide Cast, Factors, Pow2;
    FactorBounds(shift);
    SignCount(shift, s);
    Pow2Mono(shift.lb.n, s);
    if shift.ub.Fin? {
      Pow2Mono(s, shift.ub.n);
    }
  }

  lemma SignCount(shift: Interval, s: nat)
    requires CountsDefined(shift) && shift.Contains(s)
    ensures Cast(shift.lb).n == 31 && shift.ub == Fin(31) ==> s == 31 && Pow2(s) == 0x8000_0000
  {
    CastCount(shift.lb.n);
    Pow30();
  }

  lemma LeftHoldsAt(lhs: Interval, shift: Interval, r: Interval, x: int, s: nat)
    requires lhs.WellFormed() && CountsDefined(shift) && LeftSound(lhs, shift)
    requires Holds(r, lhs, Factors(shift), Times) && lhs.Contains(x) && shift.Contains(s)
    ensures r.Contains(Scaled(x, s))
  {
    hide Cast, Holds, Pow2;
    FactorOfCount(shift, s);
    var c := Factors(shift);
    var low, f := c.lb.n, Pow2(s);
    if lhs.IsZero() {
      HasProduct(lhs, c, r, 0, low);
    } else if lhs.IsTop() {
      AllInside(lhs, c, r, low, x * f);
    } else if shift.ub.PlusInf? || (Cast(shift.lb).n <= 30 && Cast(shift.ub) == shift.ub) {
      HasProduct(lhs, c, r, x, f);
    } else if Cast(shift.lb).n <= 30 {
      MulMono(x, low, f);
      FarInside(lhs, c, r, x, low, x * f);
    } else if Cast(shift.ub).n == 31 {
      HasProduct(lhs, c, r, -x, -0x8000_0000);
    } else {
      FactorBounds(shift);
      BothSigns(lhs, c, r, x * f);
    }
  }

  lemma HasProduct(lhs: Interval, coeff: Interval, r: Interval, x: int, c: int)
    requires Holds(r, lhs, coeff, Times) && lhs.Contains(x) && coeff.Contains(c)
    ensures r.Contains(x * c)
  {
    assert r.Contains(Times(x, c));
  }

  // When they do not.

  /** A least interval of products reaches no further than any interval that holds them. */
  lemma LeavesOut(lhs: Interval, coeff: Interval, r: Interval, t: Interval, v: int)
    requires Best(r, lhs, coeff, Times) && t.WellFormed() && Holds(t, lhs, coeff, Times) && !t.Contains(v)
    ensures !r.Contains(v)
  {
    assert r.Leq(t);
  }

  lemma LowFactorsMiss(lhs: Interval, coeff: Interval, r: Interval, p: int, q: int) returns (x: int)
    requires lhs.WellFormed() && !lhs.IsBottom() && Best(r, lhs, coeff, Times)
    requires coeff.lb.Geq(Fin(0)) && coeff.ub == Fin(p) && p < q && !NoFiniteReach(lhs)
    ensures lhs.Contains(x) && !r.Contains(x * q)
  {
    hide Holds, Best;
    if !(lhs.ub.PlusInf? || lhs.ub.Leq(Fin(0))) {
      x := lhs.ub.n;
      MulStrict(x, p, q);
      ProductsBelow(lhs, coeff, x, p);
      LeavesOut(lhs, coeff, r, Interval(MinusInf, Fin(x * p)), x * q);
    } else {
      x := lhs.lb.n;
      MulStrict(x, p, q);
      ProductsAbove(lhs, coeff, x, p);
      LeavesOut(lhs, coeff, r, Interval(Fin(x * p), PlusInf), x * q);
    }
  }

  lemma ProductsBelow(lhs: Interval, coeff: Interval, x: int, p: int)
    requires lhs.ub == Fin(x) && x >= 0 && coeff.lb.Geq(Fin(0)) && coeff.ub == Fin(p)
    ensures Holds(Interval(MinusInf, Fin(x * p)), lhs, coeff, Times)
  {
    forall y, c | lhs.Contains(y) && coeff.Contains(c) ensures Times(y, c) <= x * p {
      MulMono(c, y, x);
      MulMono(x, c, p);
    }
  }

  lemma ProductsAbove(lhs: Interval, coeff: Interval, x: int, p: int)
    requires lhs.lb == Fin(x) && x <= 0 && coeff.lb.Geq(Fin(0)) && coeff.ub == Fin(p)
    ensures Holds(Interval(Fin(x * p), PlusInf), lhs, coeff, Times)
  {
    forall y, c | lhs.Contains(y) && coeff.Contains(c) ensures Times(y, c) >= x * p {
      MulMono(c, x, y);
      MulMono(x, c, p);
    }
  }

  /** With the single factor -2^31 the products are the operand mirrored. */
  lemma SignFactorMisses(lhs: Interval, coeff: Interval, r: Interval, q: int) returns (x: int)
    requires lhs.WellFormed() && !lhs.IsBottom() && Best(r, lhs, coeff, Times)
    requires coeff == Interval(Fin(-0x8000_0000), Fin(-0x8000_0000)) && q >= 0x8000_0000
    requires !lhs.IsZero() && !lhs.IsTop() && !(q == 0x8000_0000 && lhs.lb == lhs.ub.Neg())
    ensures lhs.Contains(x) && !r.Contains(x * q)
  {
    hide Holds, Best;
    var p := 0x8000_0000;
    var t := Interval(if lhs.ub.Fin? then Fin(-p * lhs.ub.n) else MinusInf,
                      if lhs.lb.Fin? then Fin(-p * lhs.lb.n) else PlusInf);
    Mirrored(lhs, coeff, t);
    if lhs.lb.Fin? && lhs.ub.Fin? {
      var l, u := lhs.lb.n, lhs.ub.n;
      x := if Abs(u) >= Abs(l) then u else l;
      MulMono(x, p, q);
      if q > p {
        MulStrict(x, p, q);
      }
    } else if lhs.ub.Fin? {
      x := Near(lhs, lhs.lb, p * Abs(lhs.ub.n) + 1);
      MulMono(x, 1, q);
    } else {
      x := Near(lhs, lhs.ub, p * Abs(lhs.lb.n) + 1);
      MulMono(x, 1, q);
    }
    LeavesOut(lhs, coeff, r, t, x * q);
  }

  lemma Mirrored(lhs: Interval, coeff: Interval, t: Interval)
    requires lhs.WellFormed() && !lhs.IsBottom() && coeff == Interval(Fin(-0x8000_0000), Fin(-0x8000_0000))
    requires t.lb == if lhs.ub.Fin? then Fin(-0x8000_0000 * lhs.ub.n) else MinusInf
    requires t.ub == if lhs.lb.Fin? then Fin(-0x8000_0000 * lhs.lb.n) else PlusInf
    ensures t.WellFormed() && Holds(t, lhs, coeff, Times)
  {
  }

  /** Factors of at most 2^31 either way do not make up for a count beyond 32 bits. */
  lemma MixedFactorsMiss(lhs: Interval, coeff: Interval, r: Interval, q: int) returns (x: int)
    requires lhs.WellFormed() && !lhs.IsBottom() && !lhs.IsZero() && lhs.lb.Fin? && lhs.ub.Fin?
    requires Best(r, lhs, coeff, Times) && q > 0x8000_0000
    requires forall c | coeff.Contains(c) :: -0x8000_0000 <= c <= 0x8000_0000
    ensures lhs.Contains(x) && !r.Contains(x * q)
  {
    hide Holds, Best;
    var p := 0x8000_0000;
    x := if Abs(lhs.ub.n) >= Abs(lhs.lb.n) then lhs.ub.n else lhs.lb.n;
    var m: int := Abs(x);
    var t := Interval(Fin(-1 * (m * p)), Fin(m * p));
    BoundedProducts(lhs, coeff, t, m);
    MulStrict(m, p, q);
    AbsProduct(x, q);
    LeavesOut(lhs, coeff, r, t, x * q);
  }

  lemma AbsProduct(x: int, y: int)
    ensures x * y == Abs(x) * Abs(y) || x * y == -1 * (Abs(x) * Abs(y))
  {
  }

  lemma ProductBound(y: nat, c: nat, m: nat)
    requires y <= m && c <= 0x8000_0000
    ensures 0 <= y * c <= m * 0x8000_0000
  {
    MulMono(y, c, 0x8000_0000);
  }

  lemma BoundedProducts(lhs: Interval, coeff: Interval, t: Interval, m: nat)
    requires forall y | lhs.Contains(y) :: -1 * m <= y <= m
    requires forall c | coeff.Contains(c) :: -0x8000_0000 <= c <= 0x8000_0000
    requires t == Interval(Fin(-1 * (m * 0x8000_0000)), Fin(m * 0x8000_0000))
    ensures t.WellFormed() && Holds(t, lhs, coeff, Times)
  {
    forall y, c | lhs.Contains(y) && coeff.Contains(c) ensures t.Contains(Times(y, c)) {
      ProductBound(Abs(y), Abs(c), m);
      AbsProduct(y, c);
    }
  }

  /** The source's factors fail to cover some shift unless `LeftSound`. */
  lemma LeftMisses(lhs: Interval, shift: Interval, r: Interval)
    requires lhs.WellFormed() && !lhs.IsBottom() && CountsDefined(shift) && !LeftSound(lhs, shift)
    requires Best(r, lhs, Factors(shift), Times) && (Factors(shift).IsBottom() ==> r.IsBottom())
    ensures !Holds(r, lhs, shift, Scaled)
  {
    hide Cast, Best, Pow2, NoFiniteReach;
    var c := Factors(shift);
    var x, s := Near(lhs, lhs.lb, 0), shift.lb.n;
    FactorBounds(shift);
    if !c.IsBottom() {
      s := shift.ub.n;
      var q := Pow2(s);
      hide Factors;
      if Cast(shift.lb).n <= 30 {
        x := LowFactorsMiss(lhs, c, r, c.ub.n, q);
      } else if Cast(shift.ub).n == 31 {
        CastGrows(s);
        x := SignFactorMisses(lhs, c, r, q);
      } else {
        CastCount(shift.lb.n);
        x := MixedFactorsMiss(lhs, c, r, q);
      }
    }
    assert lhs.Contains(x) && shift.Contains(s) && !r.Contains(Scaled(x, s));
  }

  // When they are least.

  /** What an interval that holds all shifts holds with them. */
  lemma ShiftsCover(lhs: Interval, shift: Interval, t: Interval, x: int, c: int)
    requires lhs.WellFormed() && CountsDefined(shift) && LeftLeast(lhs, shift)
    requires Holds(t, lhs, shift, Scaled) && lhs.Contains(x) && Factors(shift).Contains(c)
    ensures t.Contains(x * c)
  {
    hide Cast, Holds, Pow2, Factors;
    if lhs.IsZero() {
      HasShift(lhs, shift, t, x, shift.lb.n);
    } else if lhs.IsTop() {
      TopShifts(lhs, shift, t, x * c);
    } else if Cast(shift.lb).n <= 30 {
      if shift.ub.PlusInf? {
        EndlessCover(lhs, shift, t, x, c);
      } else {
        FiniteCover(lhs, shift, t, x, c);
      }
    } else if shift.ub.PlusInf? {
      SignsCover(lhs, shift, t, x * c);
    } else {
      SignFactor(shift, c);
      HasShift(lhs, shift, t, -x, 31);
    }
  }

  /** The single factor -2^31. */
  lemma SignFactor(shift: Interval, c: int)
    requires CountsDefined(shift) && Cast(shift.lb).n == 31 && shift.ub == Fin(31) && Factors(shift).Contains(c)
    ensures c == -1 * Pow2(31) && shift.Contains(31)
  {
    Pow30();
    CastCount(shift.lb.n);
  }

  lemma EndlessCover(lhs: Interval, shift: Interval, t: Interval, x: int, c: int)
    requires CountsDefined(shift) && shift.ub.PlusInf? && Cast(shift.lb).n <= 30
    requires Cast(shift.lb) == shift.lb || lhs.Contains(0)
    requires Holds(t, lhs, shift, Scaled) && lhs.Contains(x) && Factors(shift).Contains(c)
    ensures t.Contains(x * c)
  {
    hide Cast, Holds, Pow2;
    FactorBounds(shift);
    var low := shift.lb.n;
    var s := low + Abs(c);
    Pow2Grows(s);
    HasShift(lhs, shift, t, x, s);
    MulMono(x, c, Pow2(s));
    if Cast(shift.lb) == shift.lb {
      HasShift(lhs, shift, t, x, low);
      MulMono(x, Pow2(low), c);
    } else {
      HasShift(lhs, shift, t, 0, low);
      MulMono(x, 0, c);
    }
  }

  lemma SignsCover(lhs: Interval, shift: Interval, t: Interval, v: int)
    requires IsClipped(shift) && shift.ub.PlusInf? && lhs.Contains(-1) && lhs.Contains(1)
    requires Holds(t, lhs, shift, Scaled)
    ensures t.Contains(v)
  {
    hide Pow2;
    var s := shift.lb.n + Abs(v);
    Pow2Grows(s);
    HasShift(lhs, shift, t, 1, s);
    HasShift(lhs, shift, t, -1, s);
  }

  lemma FiniteCover(lhs: Interval, shift: Interval, t: Interval, x: int, c: int)
    requires lhs.WellFormed() && CountsDefined(shift) && LeftLeast(lhs, shift)
    requires shift.ub.Fin? && Cast(shift.lb).n <= 30 && !lhs.IsZero() && !lhs.IsTop()
    requires Holds(t, lhs, shift, Scaled) && lhs.Contains(x) && Factors(shift).Contains(c)
    ensures t.Contains(x * c)
  {
    hide Cast, Holds, Pow2;
    FactorBounds(shift);
    var low, p := shift.lb.n, Pow2(shift.lb.n);
    HasShift(lhs, shift, t, x, low);
    MulMono(x, 1, c);
    if Cast(shift.lb) == shift.lb {
      MulMono(x, p, c);
    } else {
      HasShift(lhs, shift, t, 0, low);
    }
    if Cast(shift.ub) == shift.ub {
      CastKeptBelow(shift);
      HasShift(lhs, shift, t, x, shift.ub.n);
      MulMono(x, c, Pow2(shift.ub.n));
      MulMono(x, p, c);
    } else if x != 0 {
      HasShift(lhs, shift, t, x * c, low);
      MulMono(x * c, 1, p);
    }
  }

  lemma CastKeptBelow(shift: Interval)
    requires CountsDefined(shift) && shift.ub.Fin? && Cast(shift.ub) == shift.ub
    ensures Cast(shift.lb) == shift.lb
  {
    CastCount(shift.lb.n);
  }

  lemma HasShift(lhs: Interval, shift: Interval, t: Interval, x: int, s: nat)
    requires Holds(t, lhs, shift, Scaled) && lhs.Contains(x) && shift.Contains(s)
    ensures t.Contains(x * Pow2(s))
  {
    assert t.Contains(Scaled(x, s));
  }

  lemma TopShifts(lhs: Interval, shift: Interval, t: Interval, v: int)
    requires lhs.IsTop() && IsClipped(shift) && Holds(t, lhs, shift, Scaled)
    ensures t.Contains(v)
  {
    hide Pow2;
    var s := shift.lb.n;
    Pow2Grows(s);
    HasShift(lhs, shift, t, Abs(v), s);
    HasShift(lhs, shift, t, -1 * Abs(v), s);
    FarProduct(Abs(v), Pow2(s), Abs(v));
    FarProduct(-1 * Abs(v), Pow2(s), Abs(v));
  }

  lemma LeftBest(lhs: Interval, shift: Interval, r: Interval)
    requires lhs.WellFormed() && CountsDefined(shift) && LeftLeast(lhs, shift)
    requires Best(r, lhs, Factors(shift), Times)
    ensures Best(r, lhs, shift, Scaled)
  {
    hide Cast, LeftLeast, LeftSound, Factors, Pow2;
    forall x, s | lhs.Contains(x) && shift.Contains(s) && s >= 0 ensures r.Contains(Scaled(x, s)) {
      LeastSound(lhs, shift);
      LeftHoldsAt(lhs, shift, r, x, s);
    }
    forall t: Interval | t.WellFormed() && Holds(t, lhs, shift, Scaled) ensures r.Leq(t) {
      forall x, c | lhs.Contains(x) && Factors(shift).Contains(c) ensures t.Contains(Times(x, c)) {
        ShiftsCover(lhs, shift, t, x, c);
      }
      assert Holds(t, lhs, Factors(shift), Times);
    }
  }

  lemma LeastSound(lhs: Interval, shift: Interval)
    requires CountsDefined(shift) && LeftLeast(lhs, shift)
    ensures LeftSound(lhs, shift)
  {
  }

  /** The shifts of an operand away from zero begin at its nearer end shifted least. */
  lemma AwayFromZero(lhs: Interval, shift: Interval) returns (t: Interval)
    requires lhs.WellFormed() && !lhs.IsBottom() && !lhs.Contains(0) && IsClipped(shift)
    ensures t.WellFormed() && Holds(t, lhs, shift, Scaled)
    ensures if lhs.lb.Geq(Fin(0))
      then lhs.lb.Fin? && lhs.lb.n > 0 && t == Interval(Fin(lhs.lb.n * Pow2(shift.lb.n)), PlusInf)
      else lhs.ub.Fin? && lhs.ub.n < 0 && t == Interval(MinusInf, Fin(lhs.ub.n * Pow2(shift.lb.n)))
  {
    hide Pow2;
    var p := Pow2(shift.lb.n);
    t := if lhs.lb.Geq(Fin(0)) then Interval(Fin(lhs.lb.n * p), PlusInf) else Interval(MinusInf, Fin(lhs.ub.n * p));
    forall x, s | lhs.Contains(x) && shift.Contains(s) && s >= 0 ensures t.Contains(Scaled(x, s)) {
      Pow2Mono(shift.lb.n, s);
      MulMono(x, p, Pow2(s));
      if lhs.lb.Geq(Fin(0)) {
        MulMono(p, lhs.lb.n, x);
      } else {
        MulMono(p, x, lhs.ub.n);
      }
    }
  }

  lemma ShiftKeepsSign(lhs: Interval, shift: Interval)
    ensures lhs.lb.Geq(Fin(0)) ==> Holds(Interval(Fin(0), PlusInf), lhs, shift, Scaled)
    ensures lhs.ub.Leq(Fin(0)) ==> Holds(Interval(MinusInf, Fin(0)), lhs, shift, Scaled)
  {
    hide Pow2;
    forall x, s | s >= 0 ensures (x >= 0 ==> Scaled(x, s) >= 0) && (x <= 0 ==> Scaled(x, s) <= 0) {
      MulMono(x, 0, Pow2(s));
    }
  }

  /** By bounded counts, the shifts of an operand with an end do not go beyond that end's. */
  lemma ShiftsEnd(lhs: Interval, shift: Interval) returns (t: Interval)
    requires lhs.WellFormed() && !lhs.IsTop() && IsClipped(shift) && shift.ub.Fin?
    requires lhs.lb.MinusInf? || lhs.ub.PlusInf?
    ensures t.WellFormed() && Holds(t, lhs, shift, Scaled) && !t.IsTop() && (t.lb.Fin? || t.ub.Fin?)
  {
    hide Pow2;
    var q := Pow2(shift.ub.n);
    var e := if lhs.lb.Fin? then lhs.lb.n else lhs.ub.n;
    var far := if (lhs.lb.Fin? && e < 0) || (lhs.ub.Fin? && e > 0) then e * q else 0;
    t := if lhs.lb.Fin? then Interval(Fin(far), PlusInf) else Interval(MinusInf, Fin(far));
    forall x, s | lhs.Contains(x) && shift.Contains(s) && s >= 0 ensures t.Contains(Scaled(x, s)) {
      Pow2Mono(s, shift.ub.n);
      MulMono(x, 0, Pow2(s));
      MulMono(e, Pow2(s), q);
      if lhs.lb.Fin? {
        MulMono(Pow2(s), e, x);
      } else {
        MulMono(Pow2(s), x, e);
      }
    }
  }

  /** A least factor below the least power reaches nearer to zero than any shift. */
  lemma NearerZero(lhs: Interval, shift: Interval, coeff: Interval, r: Interval) returns (v: int, t: Interval)
    requires lhs.WellFormed() && !lhs.IsBottom() && !lhs.Contains(0) && IsClipped(shift)
    requires coeff.lb.Fin? && !coeff.IsBottom() && coeff.lb.n < Pow2(shift.lb.n) && Holds(r, lhs, coeff, Times)
    ensures t.WellFormed() && Holds(t, lhs, shift, Scaled) && r.Contains(v) && !t.Contains(v)
  {
    hide Holds, Pow2;
    t := AwayFromZero(lhs, shift);
    var x := if lhs.lb.Geq(Fin(0)) then lhs.lb.n else lhs.ub.n;
    v := x * coeff.lb.n;
    MulStrict(x, coeff.lb.n, Pow2(shift.lb.n));
    HasProduct(lhs, coeff, r, x, coeff.lb.n);
  }

  /** A negative factor takes an operand of one sign to the other. */
  lemma OtherSign(lhs: Interval, shift: Interval, coeff: Interval, r: Interval) returns (v: int, t: Interval)
    requires lhs.WellFormed() && !lhs.IsBottom() && !lhs.IsZero() && !(lhs.Contains(-1) && lhs.Contains(1))
    requires coeff.lb == Fin(-0x8000_0000) && !coeff.IsBottom() && Holds(r, lhs, coeff, Times)
    ensures t.WellFormed() && Holds(t, lhs, shift, Scaled) && r.Contains(v) && !t.Contains(v)
  {
    hide Holds;
    ShiftKeepsSign(lhs, shift);
    t := if lhs.lb.Geq(Fin(0)) then Interval(Fin(0), PlusInf) else Interval(MinusInf, Fin(0));
    var x := Near(lhs, if lhs.lb.Geq(Fin(0)) then lhs.ub else lhs.lb, 1);
    v := x * -0x8000_0000;
    HasProduct(lhs, coeff, r, x, -0x8000_0000);
  }

  /** Sound but wider than needed: a number among the products, and an interval of all shifts
      without it. */
  lemma LeftLoose(lhs: Interval, shift: Interval, r: Interval) returns (v: int, t: Interval)
    requires lhs.WellFormed() && !lhs.IsBottom() && CountsDefined(shift)
    requires LeftSound(lhs, shift) && !LeftLeast(lhs, shift) && Holds(r, lhs, Factors(shift), Times)
    ensures t.WellFormed() && Holds(t, lhs, shift, Scaled) && r.Contains(v) && !t.Contains(v)
  {
    hide Cast, Holds, Pow2;
    FactorBounds(shift);
    var coeff := Factors(shift);
    hide Factors;
    if Cast(shift.lb).n <= 30 {
      v, t := NearerZero(lhs, shift, coeff, r);
    } else if shift.ub.PlusInf? {
      v, t := OtherSign(lhs, shift, coeff, r);
    } else {
      t := ShiftsEnd(lhs, shift);
      v := if t.lb.Fin? then t.lb.n - 1 else t.ub.n + 1;
      BothSigns(lhs, coeff, r, v);
    }
  }

  /** What a left shift promises of its result, given that there are operands and counts. */
  ghost predicate LeftResult(lhs: Interval, rhs: Interval, r: Interval)
    requires CountsDefined(Meet(rhs, NON_NEGATIVE))
  {
    && (Holds(r, lhs, rhs, Scaled) <==> LeftSound(lhs, Meet(rhs, NON_NEGATIVE)))
    && (Best(r, lhs, rhs, Scaled) <==> LeftLeast(lhs, Meet(rhs, NON_NEGATIVE)))
  }

  lemma LeftDone(lhs: Interval, rhs: Interval, r: Interval)
    requires lhs.WellFormed() && !lhs.IsBottom() && CountsDefined(Meet(rhs, NON_NEGATIVE))
    requires Best(r, lhs, Factors(Meet(rhs, NON_NEGATIVE)), Times) && r.WellFormed()
    requires Factors(Meet(rhs, NON_NEGATIVE)).IsBottom() ==> r.IsBottom()
    ensures LeftResult(lhs, rhs, r)
  {
    hide Cast, LeftLeast, LeftSound, Factors, Meet, Pow2;
    var shift := Meet(rhs, NON_NEGATIVE);
    ClippedCounts(r, lhs, rhs, Scaled);
    if !LeftSound(lhs, shift) {
      LeftMisses(lhs, shift, r);
      if LeftLeast(lhs, shift) {
        LeastSound(lhs, shift);
      }
    } else {
      forall x, s | lhs.Contains(x) && shift.Contains(s) && s >= 0 ensures r.Contains(Scaled(x, s)) {
        LeftHoldsAt(lhs, shift, r, x, s);
      }
      if LeftLeast(lhs, shift) {
        LeftBest(lhs, shift, r);
      } else {
        var v, t := LeftLoose(lhs, shift, r);
        LeqIffIncluded(r, t);
      }
    }
  }

  lemma EverythingLeft(lhs: Interval, rhs: Interval)
    requires lhs.IsTop() && rhs.IsTop()
    ensures CountsDefined(Meet(rhs, NON_NEGATIVE)) && LeftResult(lhs, rhs, TOP)
    ensures Best(TOP, lhs, Factors(Meet(rhs, NON_NEGATIVE)), Times)
  {
    hide Best;
    assert forall x :: Scaled(x, 0) == x && Times(x, 1) == x;
    EverythingBest(lhs, rhs, Scaled, 0);
    EverythingBest(lhs, Factors(Meet(rhs, NON_NEGATIVE)), Times, 1);
  }

  /** Left shift multiplies with the factors of the bounds as cast to 32 bits. The result holds every
      shift by a non-negative count exactly under `LeftSound`, and is the least interval that does
      exactly under `LeftLeast`; so it is for counts up to 30. */
  method ShiftLeft(lhs: Interval, rhs: Interval) returns (r: Interval)
    requires lhs.WellFormed() && rhs.WellFormed() && ShiftDefined(rhs)
    ensures r.WellFormed()
    ensures if lhs.IsBottom() || Meet(rhs, NON_NEGATIVE).IsBottom() then r == BOTTOM && Best(r, lhs, rhs, Scaled)
      else LeftResult(lhs, rhs, r) && Best(r, lhs, Factors(Meet(rhs, NON_NEGATIVE)), Times)
  {
    hide Best, Holds;
    var shift := Meet(rhs, NON_NEGATIVE);
    if lhs.IsBottom() || rhs.IsBottom() {
      NoMembersBest(lhs, shift, Scaled);
      ClippedCounts(BOTTOM, lhs, rhs, Scaled);
      return BOTTOM;
    }
    if lhs.IsTop() && rhs.IsTop() {
      EverythingLeft(lhs, rhs);
      return TOP;
    }
    if shift.IsBottom() {
      NoMembersBest(lhs, shift, Scaled);
      ClippedCounts(BOTTOM, lhs, rhs, Scaled);
      return BOTTOM;
    }
    var coeff := Interval(
      Fin(ShiftedOne(ToS32(GetNumeral(shift.lb)))),
      if shift.ub.IsInf() then PlusInf else Fin(ShiftedOne(ToS32(GetNumeral(shift.ub)))));
    r := Mul(lhs, coeff);
    LeftDone(lhs, rhs, r);
  }

  /** With counts up to 30 the least interval of all shifts. */
  lemma SmallCountsLeast(lhs: Interval, shift: Interval)
    requires IsClipped(shift) && shift.lb.n <= 30 && (shift.ub.Fin? ==> shift.ub.n <= 30)
    ensures CountsDefined(shift) && LeftLeast(lhs, shift)
  {
    if shift.ub.Fin? {
      Pow2Mono(shift.lb.n, shift.ub.n);
    }
  }

  /** Counts up to 31: nothing is lost unless the upper one is 31; then the lower one must be 31 and
      the operand symmetric. */
  lemma SignBitSound(lhs: Interval, shift: Interval)
    requires lhs.WellFormed() && !lhs.IsBottom() && IsClipped(shift)
    requires shift.lb.n <= 31 && (shift.ub.Fin? ==> shift.ub.n <= 31)
    ensures CountsDefined(shift)
    ensures LeftSound(lhs, shift) <==>
      (shift.ub == Fin(31) ==> shift.lb == Fin(31) && lhs.lb == lhs.ub.Neg())
  {
    hide Cast, Factors, Pow2;
    SmallCast(shift.lb.n);
    if shift.ub.Fin? {
      SmallCast(shift.ub.n);
      Pow2Mono(shift.lb.n, shift.ub.n);
    }
    FactorBounds(shift);
  }

  lemma SmallCast(n: nat)
    requires n <= 31
    ensures Cast(Fin(n)) == Fin(n)
  {
  }

  /** Shifting 1 by 0 to 31 comes out empty, and by 2^32 as 1. */
  lemma LeftShiftLoses()
    ensures
      var one, upTo31, far := Interval(Fin(1), Fin(1)), Interval(Fin(0), Fin(31)), Fin(0x1_0000_0000);
      && CountsDefined(upTo31) && Factors(upTo31).IsBottom() && !LeftSound(one, upTo31)
      && CountsDefined(Interval(far, far)) && Factors(Interval(far, far)) == one && !LeftSound(one, Interval(far, far))
  {
    assert Pow2(0) == 1;
  }
}
