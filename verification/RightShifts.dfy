/** The right shift of intervals. */
module RightShifts {
  import opened Arithmetic
  import opened NumericLiteral
  import opened IntervalValue
  import opened BestInterval
  import opened IntervalArithmetic
  import opened IntervalQuotients
  import opened Bits
  import opened ShiftCounts

  function Shifted(x: int, s: int): int
    requires s >= 0
  {
    x / Pow2(s)
  }

  /** Right shift of a bound, on 32-bit numbers. */
  function ShiftNum(a: Num, b: Num): Num
    requires b.Geq(Fin(0)) && (b.Fin? ==> b.n <= 31)
  {
    if a.IsZero() then a
    else if a.IsInf() then a
    else if b.IsInf() then (if a.Geq(Fin(0)) then Fin(0) else Fin(-1))
    else Fin(ToS32(GetNumeral(a)) / Pow2(b.n))
  }

  predicate BoundS32(a: Num) {
    a.Fin? ==> IsS32(a.n)
  }

  /** On 32-bit numbers the shift by a finite count is floor division. */
  lemma ShiftIsQuotient(x: int, k: nat)
    requires IsS32(x) && k <= 31
    ensures ShiftNum(Fin(x), Fin(k)) == Fin(x / Pow2(k))
  {
    hide Pow2;
    SmallNumeral(x);
    hide ToS32, GetNumeral;
    ZeroQuotient(Pow2(k));
  }

  lemma SmallNumeral(x: int)
    requires IsS32(x)
    ensures ToS32(GetNumeral(Fin(x))) == x
  {
  }

  lemma ZeroQuotient(d: int)
    requires d > 0
    ensures 0 / d == 0
  {
  }

  /** An infinite count stands for a count beyond every bit. */
  lemma ShiftAway(x: int, s: nat)
    ensures x >= 0 ==> ShiftNum(Fin(x), PlusInf) == Fin(0) && 0 <= x / Pow2(s)
    ensures x < 0 ==> ShiftNum(Fin(x), PlusInf) == Fin(-1) && x / Pow2(s) <= -1
  {
    DivMonoDivisor(x, Pow2(s), Pow2(s));
  }

  lemma ShiftBetween(e: Num, c: Num, s: nat, d: Num)
    requires c.Leq(Fin(s)) && Fin(s).Leq(d) && BoundS32(e)
    requires c.Fin? && 0 <= c.n <= 31 && (d.Fin? ==> d.n <= 31)
    ensures Between(e.Div(Fin(Pow2(s))), ShiftNum(e, c), ShiftNum(e, d))
  {
    if e.Fin? {
      hide ShiftNum, Pow2;
      Pow2Mono(c.n, s);
      ShiftIsQuotient(e.n, c.n);
      DivMonoDivisor(e.n, Pow2(c.n), Pow2(s));
      if d.Fin? {
        Pow2Mono(s, d.n);
        ShiftIsQuotient(e.n, d.n);
        DivMonoDivisor(e.n, Pow2(s), Pow2(d.n));
      } else {
        ShiftAway(e.n, s);
      }
    }
  }

  /** The four corner shifts bound every shift of a number by a count in range. */
  lemma CornersBoundShift(lhs: Interval, shift: Interval, r: Interval, x: int, s: nat)
    requires lhs.Contains(x) && shift.Contains(s) && BoundS32(lhs.lb) && BoundS32(lhs.ub)
    requires shift.lb.Fin? && 0 <= shift.lb.n <= 31 && !shift.ub.MinusInf? && (shift.ub.Fin? ==> shift.ub.n <= 31)
    requires shift.ub.Geq(Fin(0))
    requires Inside(r, ShiftNum(lhs.lb, shift.lb)) && Inside(r, ShiftNum(lhs.lb, shift.ub))
    requires Inside(r, ShiftNum(lhs.ub, shift.lb)) && Inside(r, ShiftNum(lhs.ub, shift.ub))
    ensures r.Contains(x / Pow2(s))
  {
    ShiftBetween(lhs.lb, shift.lb, s, shift.ub);
    ShiftBetween(lhs.ub, shift.lb, s, shift.ub);
    DivBetweenNumerators(lhs.lb, x, lhs.ub, Pow2(s));
    CornersBound(r, ShiftNum(lhs.lb, shift.lb), ShiftNum(lhs.lb, shift.ub),
                 ShiftNum(lhs.ub, shift.lb), ShiftNum(lhs.ub, shift.ub),
                 lhs.lb.Div(Fin(Pow2(s))), lhs.ub.Div(Fin(Pow2(s))), Fin(x / Pow2(s)));
  }

  lemma ShiftOfInf(e: Num, f: Num)
    requires e.IsInf() && f.Geq(Fin(0)) && (f.Fin? ==> f.n <= 31)
    ensures ShiftNum(e, f) == e
  {
  }

  /** A count beyond every bit leaves 0 or -1. */
  lemma ShiftedAway(x: int, s: nat)
    requires Pow2(s) > Abs(x)
    ensures ShiftNum(Fin(x), PlusInf) == Fin(x / Pow2(s))
  {
    hide Pow2;
    ShiftAway(x, s);
    QuotientLeast(x, Pow2(s), if x >= 0 then 1 else 0);
    QuotientLeast(x, Pow2(s), if x >= 0 then 0 else -1);
  }

  // The exact hull of all quotients, whatever the counts.

  /** An end shifted by a count, without truncation. */
  function ShiftedEnd(e: Num, c: Num): Num
    requires c.Geq(Fin(0))
  {
    if e.IsInf() then e
    else if c.Fin? then Fin(Shifted(e.n, c.n))
    else if e.Geq(Fin(0)) then Fin(0) else Fin(-1)
  }

  /** From the lower end, by the count that takes it lowest, to the upper end, by the one that leaves
      it highest. */
  function QuotientHull(lhs: Interval, shift: Interval): Interval
    requires IsClipped(shift)
  {
    Interval(ShiftedEnd(lhs.lb, if lhs.lb.Geq(Fin(0)) then shift.ub else shift.lb),
             ShiftedEnd(lhs.ub, if lhs.ub.Geq(Fin(0)) then shift.lb else shift.ub))
  }

  lemma EndBelow(e: int, c: Num, x: int, s: nat)
    requires c.Geq(Fin(0)) && e <= x && (if e >= 0 then Fin(s).Leq(c) else c.Leq(Fin(s)))
    ensures ShiftedEnd(Fin(e), c).Leq(Fin(Shifted(x, s)))
  {
    hide Pow2;
    DivMonoNumerator(e, x, Pow2(s));
    DivMonoDivisor(e, Pow2(s), Pow2(s));
    if c.Fin? {
      if e >= 0 {
        Pow2Mono(s, c.n);
        DivMonoDivisor(e, Pow2(s), Pow2(c.n));
      } else {
        Pow2Mono(c.n, s);
        DivMonoDivisor(e, Pow2(c.n), Pow2(s));
      }
    }
  }

  lemma EndAbove(e: int, c: Num, x: int, s: nat)
    requires c.Geq(Fin(0)) && x <= e && (if e >= 0 then c.Leq(Fin(s)) else Fin(s).Leq(c))
    ensures Fin(Shifted(x, s)).Leq(ShiftedEnd(Fin(e), c))
  {
    hide Pow2;
    DivMonoNumerator(x, e, Pow2(s));
    DivMonoDivisor(e, Pow2(s), Pow2(s));
    if c.Fin? {
      if e >= 0 {
        Pow2Mono(c.n, s);
        DivMonoDivisor(e, Pow2(c.n), Pow2(s));
      } else {
        Pow2Mono(s, c.n);
        DivMonoDivisor(e, Pow2(s), Pow2(c.n));
      }
    }
  }

  /** The shift of an end by an end of the counts is approached by shifts of members. */
  lemma EndApproached(lhs: Interval, shift: Interval, e: Num, f: Num, n: int)
    requires IsEnd(lhs, e) && IsEnd(shift, f) && IsClipped(shift)
    ensures !Fin(n).Leq(ShiftedEnd(e, f)) ==> SomeBelow(lhs, shift, Shifted, n)
    ensures !Fin(n).Geq(ShiftedEnd(e, f)) ==> SomeAbove(lhs, shift, Shifted, n)
  {
    hide Pow2;
    var m := Abs(n) + 1;
    var s := Near(shift, f, if e.Fin? then Abs(e.n) else 0);
    assert s >= 0;
    var x := Near(lhs, e, m * Pow2(s));
    if e.Fin? {
      if f.PlusInf? {
        Pow2Grows(s);
        ShiftedAway(e.n, s);
      }
    } else {
      FarQuotient(x, Pow2(s), m);
    }
    assert Shifted(x, s) < n || Fin(n).Leq(ShiftedEnd(e, f));
    assert Shifted(x, s) > n || Fin(n).Geq(ShiftedEnd(e, f));
  }

  /** The hull is the least interval of all quotients. */
  lemma HullBest(lhs: Interval, shift: Interval)
    requires lhs.WellFormed() && !lhs.IsBottom() && IsClipped(shift)
    ensures QuotientHull(lhs, shift).WellFormed() && !QuotientHull(lhs, shift).IsBottom()
    ensures Best(QuotientHull(lhs, shift), lhs, shift, Shifted)
  {
    hide ShiftedEnd, SomeBelow, SomeAbove, Best;
    var t := QuotientHull(lhs, shift);
    InfiniteEnds(lhs, shift);
    forall x, s | lhs.Contains(x) && shift.Contains(s) && s >= 0 ensures t.Contains(Shifted(x, s)) {
      HullContains(lhs, shift, x, s);
    }
    forall n: int ensures
      && (!Fin(n).Leq(t.lb) ==> SomeBelow(lhs, shift, Shifted, n))
      && (!Fin(n).Geq(t.ub) ==> SomeAbove(lhs, shift, Shifted, n))
    {
      EndApproached(lhs, shift, lhs.lb, if lhs.lb.Geq(Fin(0)) then shift.ub else shift.lb, n);
      EndApproached(lhs, shift, lhs.ub, if lhs.ub.Geq(Fin(0)) then shift.lb else shift.ub, n);
    }
    HullContains(lhs, shift, Near(lhs, lhs.lb, 0), shift.lb.n);
    ApproachedIsBest(t, lhs, shift, Shifted);
  }

  lemma InfiniteEnds(lhs: Interval, shift: Interval)
    requires IsClipped(shift)
    ensures QuotientHull(lhs, shift).lb.IsInf() ==> QuotientHull(lhs, shift).lb == lhs.lb
    ensures QuotientHull(lhs, shift).ub.IsInf() ==> QuotientHull(lhs, shift).ub == lhs.ub
  {
  }

  lemma HullContains(lhs: Interval, shift: Interval, x: int, s: nat)
    requires IsClipped(shift) && lhs.Contains(x) && shift.Contains(s)
    ensures QuotientHull(lhs, shift).Contains(Shifted(x, s))
  {
    hide Shifted;
    if lhs.lb.Fin? {
      EndBelow(lhs.lb.n, if lhs.lb.Geq(Fin(0)) then shift.ub else shift.lb, x, s);
    }
    if lhs.ub.Fin? {
      EndAbove(lhs.ub.n, if lhs.ub.Geq(Fin(0)) then shift.lb else shift.ub, x, s);
    }
  }

  /** The least interval decides about every other one. */
  lemma LeastDecides(t: Interval, r: Interval, lhs: Interval, rhs: Interval, f: (int, int) --> int)
    requires t.WellFormed() && r.WellFormed() && Best(t, lhs, rhs, f)
    ensures Holds(r, lhs, rhs, f) <==> t.Leq(r)
    ensures Best(r, lhs, rhs, f) <==> t.Leq(r) && r.Leq(t)
  {
    LeqIffIncluded(t, r);
    LeqIffIncluded(r, t);
    if t.Leq(r) && r.Leq(t) {
      forall i: Interval | i.WellFormed() && Holds(i, lhs, rhs, f) ensures r.Leq(i) {
        assert t.Leq(i);
        LeqIffIncluded(t, i);
        LeqIffIncluded(r, i);
      }
    }
  }

  // The four corners, of 32-bit ends.

  lemma ShiftNumExact(e: Num, f: Num)
    requires BoundS32(e) && f.Geq(Fin(0)) && (f.Fin? ==> f.n <= 31)
    ensures ShiftNum(e, f) == ShiftedEnd(e, f)
  {
    if e.Fin? && f.Fin? {
      ShiftIsQuotient(e.n, f.n);
    } else if e.IsInf() {
      ShiftOfInf(e, f);
    }
  }

  /** The shift of an end of `lhs` by an end of the counts is approached by shifts of members. */
  lemma ShiftApproached(lhs: Interval, shift: Interval, e: Num, f: Num, n: int)
    requires IsEnd(lhs, e) && IsEnd(shift, f) && BoundS32(e) && shift.lb.Geq(Fin(0))
    requires f.Geq(Fin(0)) && (f.Fin? ==> f.n <= 31)
    ensures !Fin(n).Leq(ShiftNum(e, f)) ==> SomeBelow(lhs, shift, Shifted, n)
    ensures !Fin(n).Geq(ShiftNum(e, f)) ==> SomeAbove(lhs, shift, Shifted, n)
  {
    hide ShiftNum, ShiftedEnd;
    ShiftNumExact(e, f);
    EndApproached(lhs, shift, e, f, n);
  }

  predicate IsShiftCorner(lhs: Interval, shift: Interval, v: Num)
    requires shift.lb.Geq(Fin(0)) && (shift.lb.Fin? ==> shift.lb.n <= 31)
    requires shift.ub.Geq(Fin(0)) && (shift.ub.Fin? ==> shift.ub.n <= 31)
  {
    || v == ShiftNum(lhs.lb, shift.lb) || v == ShiftNum(lhs.lb, shift.ub)
    || v == ShiftNum(lhs.ub, shift.lb) || v == ShiftNum(lhs.ub, shift.ub)
  }

  lemma ShiftsApproached(lhs: Interval, shift: Interval, r: Interval)
    requires lhs.WellFormed() && !lhs.IsBottom() && BoundS32(lhs.lb) && BoundS32(lhs.ub)
    requires shift.WellFormed() && !shift.IsBottom()
    requires shift.lb.Geq(Fin(0)) && (shift.lb.Fin? ==> shift.lb.n <= 31)
    requires shift.ub.Geq(Fin(0)) && (shift.ub.Fin? ==> shift.ub.n <= 31)
    requires IsShiftCorner(lhs, shift, r.lb) && IsShiftCorner(lhs, shift, r.ub)
    ensures Approached(r, lhs, shift, Shifted)
  {
    hide SomeBelow, SomeAbove, ShiftNum;
    forall n: int ensures
      && (!Fin(n).Leq(r.lb) ==> SomeBelow(lhs, shift, Shifted, n))
      && (!Fin(n).Geq(r.ub) ==> SomeAbove(lhs, shift, Shifted, n))
    {
      ShiftApproached(lhs, shift, lhs.lb, shift.lb, n);
      ShiftApproached(lhs, shift, lhs.lb, shift.ub, n);
      ShiftApproached(lhs, shift, lhs.ub, shift.lb, n);
      ShiftApproached(lhs, shift, lhs.ub, shift.ub, n);
    }
  }

  lemma JoinContains(a: Interval, b: Interval, x: int)
    ensures a.Contains(x) || b.Contains(x) ==> Join(a, b).Contains(x)
    ensures a.WellFormed() && b.WellFormed() ==> Join(a, b).WellFormed()
  {
  }

  lemma SplitAtZero(lhs: Interval, x: int)
    requires lhs.Contains(x)
    ensures x == 0 || Interval(lhs.lb, Fin(-1)).Contains(x) || Interval(Fin(1), lhs.ub).Contains(x)
  {
  }

  /** The best intervals of the parts around zero, joined with zero, are best for the whole. */
  lemma BestAroundZero(lhs: Interval, rhs: Interval, l: Interval, u: Interval, count: nat)
    requires lhs.WellFormed() && lhs.Contains(0) && rhs.Contains(count)
    requires Best(l, Interval(lhs.lb, Fin(-1)), rhs, Shifted) && Best(u, Interval(Fin(1), lhs.ub), rhs, Shifted)
    ensures Best(Join(Join(l, u), Interval(Fin(0), Fin(0))), lhs, rhs, Shifted)
  {
    HoldsAroundZero(lhs, rhs, l, u);
    forall t: Interval | t.WellFormed() && Holds(t, lhs, rhs, Shifted)
      ensures Join(Join(l, u), Interval(Fin(0), Fin(0))).Leq(t)
    {
      PartsHold(t, lhs, rhs, count);
      JoinIsLeast(l, u, t);
      JoinIsLeast(Join(l, u), Interval(Fin(0), Fin(0)), t);
    }
  }

  lemma HoldsAroundZero(lhs: Interval, rhs: Interval, l: Interval, u: Interval)
    requires Holds(l, Interval(lhs.lb, Fin(-1)), rhs, Shifted) && Holds(u, Interval(Fin(1), lhs.ub), rhs, Shifted)
    ensures Holds(Join(Join(l, u), Interval(Fin(0), Fin(0))), lhs, rhs, Shifted)
  {
    var zero := Interval(Fin(0), Fin(0));
    var r := Join(Join(l, u), zero);
    forall x, s | lhs.Contains(x) && rhs.Contains(s) && s >= 0 ensures r.Contains(Shifted(x, s)) {
      SplitAtZero(lhs, x);
      JoinContains(l, u, Shifted(x, s));
      JoinContains(Join(l, u), zero, Shifted(x, s));
      ZeroQuotient(Pow2(s));
    }
  }

  lemma PartsHold(t: Interval, lhs: Interval, rhs: Interval, count: nat)
    requires Holds(t, lhs, rhs, Shifted) && lhs.Contains(0) && rhs.Contains(count) && t.WellFormed()
    ensures Holds(t, Interval(lhs.lb, Fin(-1)), rhs, Shifted) && Holds(t, Interval(Fin(1), lhs.ub), rhs, Shifted)
    ensures Interval(Fin(0), Fin(0)).Leq(t)
  {
    assert t.Contains(Shifted(0, count));
    ZeroQuotient(Pow2(count));
  }

  /** No finite end sticks out of the 32-bit range on its side. */
  predicate ShiftFits(lhs: Interval) {
    && (lhs.lb.Fin? ==> lhs.lb.n >= -0x8000_0000)
    && (lhs.ub.Fin? ==> lhs.ub.n < 0x8000_0000)
  }

  /** On the sides where the operand is bounded, the result is no wider than what 32-bit operands,
      shifted by at least `k`, can give. */
  ghost predicate Truncated(lhs: Interval, k: nat, r: Interval) {
    && (lhs.lb.Fin? ==> r.lb.Geq(Fin(-0x8000_0000 / Pow2(k))))
    && (lhs.ub.Fin? ==> r.ub.Leq(Fin(0x7fff_ffff / Pow2(k))))
  }

  /** Whatever the operand, a shift by at least `k` stays within the range of 32-bit ones. */
  lemma ShiftTruncates(e: int, f: Num, k: nat)
    requires k <= 31 && f.Geq(Fin(k)) && (f.Fin? ==> f.n <= 31)
    ensures Inside(Interval(Fin(-0x8000_0000 / Pow2(k)), Fin(0x7fff_ffff / Pow2(k))), ShiftNum(Fin(e), f))
  {
    hide Pow2, ToS32, GetNumeral;
    if f.Fin? {
      QuotientRange(ToS32(GetNumeral(Fin(e))), f.n, k);
      QuotientRange(0, k, k);
      ZeroQuotient(Pow2(k));
    } else {
      DivMonoDivisor(-0x8000_0000, Pow2(k), Pow2(k));
      DivMonoDivisor(0x7fff_ffff, Pow2(k), Pow2(k));
    }
  }

  lemma QuotientRange(t: int, s: nat, k: nat)
    requires IsS32(t) && k <= s
    ensures -0x8000_0000 / Pow2(k) <= t / Pow2(s) <= 0x7fff_ffff / Pow2(k)
  {
    hide Pow2;
    Pow2Mono(k, s);
    DivMonoDivisor(t, Pow2(k), Pow2(s));
    DivMonoNumerator(-0x8000_0000, t, Pow2(k));
    DivMonoNumerator(t, 0x7fff_ffff, Pow2(k));
    DivMonoDivisor(-0x8000_0000, Pow2(k), Pow2(k));
    DivMonoDivisor(0x7fff_ffff, Pow2(k), Pow2(k));
  }

  /** An operand beyond the 32-bit range, on its unbounded side only, is truncated to one that
      shifts to less than it should. */
  lemma LooseCorner(e: int, f: Num, x: int, s: nat)
    requires Fin(s).Leq(f) && (f.Fin? ==> f.n <= 31)
    ensures e < -0x8000_0000 && x <= e ==> Fin(x / Pow2(s)).Leq(ShiftNum(Fin(e), f))
    ensures e >= 0x8000_0000 && x >= e ==> ShiftNum(Fin(e), f).Leq(Fin(x / Pow2(s)))
  {
    hide Pow2;
    if f.Fin? {
      ShiftTruncates(e, f, s);
      hide ShiftNum;
      if x < -0x8000_0000 {
        DivMonoNumerator(x, -0x8000_0000, Pow2(s));
      } else if x > 0x7fff_ffff {
        DivMonoNumerator(0x7fff_ffff, x, Pow2(s));
      }
    } else {
      DivMonoDivisor(x, Pow2(s), Pow2(s));
    }
  }

  /** The corners of an operand away from zero. */
  ghost predicate FourShifts(lhs: Interval, shift: Interval, r: Interval)
    requires shift.lb.Geq(Fin(0)) && (shift.lb.Fin? ==> shift.lb.n <= 31)
    requires shift.ub.Geq(Fin(0)) && (shift.ub.Fin? ==> shift.ub.n <= 31)
  {
    && IsShiftCorner(lhs, shift, r.lb) && IsShiftCorner(lhs, shift, r.ub)
    && Inside(r, ShiftNum(lhs.lb, shift.lb)) && Inside(r, ShiftNum(lhs.lb, shift.ub))
    && Inside(r, ShiftNum(lhs.ub, shift.lb)) && Inside(r, ShiftNum(lhs.ub, shift.ub))
  }

  /** Clipped counts: from a finite non-negative one on. */
  predicate IsCounts(shift: Interval) {
    && shift.WellFormed() && !shift.IsBottom()
    && shift.lb.Fin? && 0 <= shift.lb.n <= 31 && shift.ub.Geq(Fin(0)) && (shift.ub.Fin? ==> shift.ub.n <= 31)
  }

  lemma CornersTruncated(lhs: Interval, shift: Interval, r: Interval)
    requires lhs.WellFormed() && !lhs.IsBottom() && IsCounts(shift) && FourShifts(lhs, shift, r)
    ensures Truncated(lhs, shift.lb.n, r)
  {
    hide ShiftNum;
    var k := shift.lb.n;
    if lhs.lb.Fin? {
      ShiftTruncates(lhs.lb.n, shift.lb, k);
      ShiftTruncates(lhs.lb.n, shift.ub, k);
    } else {
      ShiftOfInf(lhs.lb, shift.lb);
      ShiftOfInf(lhs.lb, shift.ub);
    }
    if lhs.ub.Fin? {
      ShiftTruncates(lhs.ub.n, shift.lb, k);
      ShiftTruncates(lhs.ub.n, shift.ub, k);
    } else {
      ShiftOfInf(lhs.ub, shift.lb);
      ShiftOfInf(lhs.ub, shift.ub);
    }
  }

  lemma CornersHold(lhs: Interval, shift: Interval, r: Interval)
    requires lhs.WellFormed() && !lhs.IsBottom() && IsCounts(shift) && FourShifts(lhs, shift, r)
    requires ShiftFits(lhs)
    ensures Holds(r, lhs, shift, Shifted)
  {
    hide ShiftNum;
    forall x, s | lhs.Contains(x) && shift.Contains(s) && s >= 0 ensures r.Contains(Shifted(x, s)) {
      if BoundS32(lhs.lb) && BoundS32(lhs.ub) {
        CornersBoundShift(lhs, shift, r, x, s);
      } else if lhs.ub.Fin? {
        LooseCorner(lhs.ub.n, shift.ub, x, s);
        ShiftOfInf(lhs.lb, shift.lb);
      } else {
        LooseCorner(lhs.lb.n, shift.ub, x, s);
        ShiftOfInf(lhs.ub, shift.lb);
      }
    }
  }

  /** A truncated result misses the shift of an end beyond the 32-bit range. */
  lemma TruncatedMisses(lhs: Interval, shift: Interval, r: Interval)
    requires lhs.WellFormed() && !lhs.IsBottom() && IsCounts(shift) && Truncated(lhs, shift.lb.n, r)
    requires !ShiftFits(lhs)
    ensures !Holds(r, lhs, shift, Shifted)
  {
    var k := shift.lb.n;
    Pow2Splits(k);
    if lhs.lb.Fin? && lhs.lb.n < -0x8000_0000 {
      BeyondLow(lhs.lb.n, k);
      assert !r.Contains(Shifted(lhs.lb.n, k));
    } else {
      BeyondHigh(lhs.ub.n, k);
      assert !r.Contains(Shifted(lhs.ub.n, k));
    }
  }

  lemma Pow2Splits(k: nat)
    requires k <= 31
    ensures Pow2(31 - k) * Pow2(k) == 0x8000_0000
  {
    Pow2Add(31 - k, k);
    Pow30();
  }

  lemma BeyondLow(x: int, k: nat)
    requires k <= 31 && x < -0x8000_0000
    ensures x / Pow2(k) < -0x8000_0000 / Pow2(k)
  {
    hide Pow2;
    var p: int, q: int := Pow2(31 - k), Pow2(k);
    Pow2Splits(k);
    assert (-1 * p) * q == -1 * (p * q);
    QuotientLeast(-0x8000_0000, q, -1 * p);
    QuotientLeast(x, q, -1 * p);
  }

  lemma BeyondHigh(x: int, k: nat)
    requires k <= 31 && x >= 0x8000_0000
    ensures x / Pow2(k) > 0x7fff_ffff / Pow2(k)
  {
    hide Pow2;
    Pow2Splits(k);
    QuotientLeast(x, Pow2(k), Pow2(31 - k));
    QuotientLeast(0x7fff_ffff, Pow2(k), Pow2(31 - k));
  }

  /** The truncated results of the parts around zero, joined with zero, are truncated. */
  lemma TruncatedAroundZero(lhs: Interval, k: nat, l: Interval, u: Interval)
    requires lhs.Contains(0) && Truncated(Interval(lhs.lb, Fin(-1)), k, l) && Truncated(Interval(Fin(1), lhs.ub), k, u)
    ensures Truncated(lhs, k, Join(Join(l, u), Interval(Fin(0), Fin(0))))
  {
    hide Pow2;
    QuotientRange(0, k, k);
    ZeroQuotient(Pow2(k));
  }

  lemma NoTruncation(lhs: Interval, k: nat)
    ensures Truncated(lhs, k, BOTTOM)
  {
    hide Pow2;
    QuotientRange(0, k, k);
    ZeroQuotient(Pow2(k));
    DivMonoDivisor(-0x8000_0000, Pow2(k), Pow2(k));
  }

  /** Truncation to 32 bits keeps the sign of a finite end. */
  predicate KeepsSign(e: Num) {
    e.Fin? ==> (e.n < 0 <==> ToS32(GetNumeral(e)) < 0)
  }

  /** Besides fitting, the finite ends are 32-bit numbers, or the counts are unbounded and only
      the signs matter. */
  predicate ShiftLeast(lhs: Interval, shift: Interval) {
    && ShiftFits(lhs)
    && ((BoundS32(lhs.lb) && BoundS32(lhs.ub)) || (shift.ub.PlusInf? && KeepsSign(lhs.lb) && KeepsSign(lhs.ub)))
  }

  /** What a right shift promises of its result, given that there are operands and counts: when it
      holds all quotients, and when it is the least interval that does. */
  ghost predicate ShiftResult(lhs: Interval, rhs: Interval, r: Interval) {
    && (Holds(r, lhs, rhs, Shifted) <==> ShiftFits(lhs))
    && (Best(r, lhs, rhs, Shifted) <==> ShiftLeast(lhs, Meet(rhs, NON_NEGATIVE)))
  }

  /** Beyond the 32-bit range on the unbounded side, quotients come up to this one. */
  function NearestQuotient(lhs: Interval, shift: Interval): Interval
    requires IsCounts(shift)
  {
    if lhs.ub.Fin? then Interval(MinusInf, if shift.ub.Fin? then Fin(lhs.ub.n / Pow2(shift.ub.n)) else Fin(-1))
    else if lhs.lb.Fin? then Interval(if shift.ub.Fin? then Fin(lhs.lb.n / Pow2(shift.ub.n)) else Fin(0), PlusInf)
    else TOP
  }

  lemma NearestHolds(lhs: Interval, shift: Interval)
    requires lhs.WellFormed() && IsCounts(shift) && ShiftFits(lhs) && !(BoundS32(lhs.lb) && BoundS32(lhs.ub))
    ensures Holds(NearestQuotient(lhs, shift), lhs, shift, Shifted)
  {
    hide Pow2;
    forall x, s | lhs.Contains(x) && shift.Contains(s) && s >= 0
      ensures NearestQuotient(lhs, shift).Contains(Shifted(x, s))
    {
      var e := if lhs.ub.Fin? then lhs.ub.n else lhs.lb.n;
      DivMonoDivisor(x, Pow2(s), Pow2(s));
      if shift.ub.Fin? {
        Pow2Mono(s, shift.ub.n);
        DivMonoDivisor(x, Pow2(s), Pow2(shift.ub.n));
        if x <= e {
          DivMonoNumerator(x, e, Pow2(shift.ub.n));
        } else {
          DivMonoNumerator(e, x, Pow2(shift.ub.n));
        }
      }
    }
  }

  /** The result reaches past the nearest quotient unless the counts are unbounded and the
      truncation keeps the sign. */
  lemma PastNearest(lhs: Interval, shift: Interval, r: Interval)
    requires lhs.WellFormed() && !lhs.IsBottom() && IsCounts(shift) && FourShifts(lhs, shift, r)
    requires ShiftFits(lhs) && !(BoundS32(lhs.lb) && BoundS32(lhs.ub))
    ensures ShiftLeast(lhs, shift) ==> r == NearestQuotient(lhs, shift)
    ensures !ShiftLeast(lhs, shift) ==> !r.Leq(NearestQuotient(lhs, shift))
  {
    hide Pow2, ToS32, GetNumeral;
    var e := if lhs.ub.Fin? then lhs.ub.n else lhs.lb.n;
    var t := ToS32(GetNumeral(Fin(e)));
    DivMonoDivisor(t, Pow2(shift.lb.n), Pow2(shift.lb.n));
    if shift.ub.Fin? {
      var u := shift.ub.n;
      ShiftTruncates(e, shift.ub, u);
      if e < 0 {
        BeyondLow(e, u);
      } else {
        BeyondHigh(e, u);
      }
    }
  }

  lemma NearestApproached(lhs: Interval, shift: Interval)
    requires lhs.WellFormed() && !lhs.IsBottom() && IsCounts(shift) && shift.ub.PlusInf?
    requires ShiftFits(lhs) && !(BoundS32(lhs.lb) && BoundS32(lhs.ub))
    ensures Approached(NearestQuotient(lhs, shift), lhs, shift, Shifted)
  {
    hide Pow2;
    var e := if lhs.ub.Fin? then lhs.ub.n else lhs.lb.n;
    var s := Near(shift, PlusInf, Abs(e));
    Pow2Grows(s);
    ShiftAway(e, s);
    ShiftedAway(e, s);
    assert Shifted(e, s) == if e < 0 then -1 else 0;
    forall n: int ensures
      && (lhs.lb.MinusInf? ==> SomeBelow(lhs, shift, Shifted, n))
      && (lhs.ub.PlusInf? ==> SomeAbove(lhs, shift, Shifted, n))
    {
      FarShifts(lhs, shift, n);
    }
    assert lhs.Contains(e);
  }

  lemma FarShifts(lhs: Interval, shift: Interval, n: int)
    requires lhs.WellFormed() && !lhs.IsBottom() && IsCounts(shift)
    ensures lhs.lb.MinusInf? ==> SomeBelow(lhs, shift, Shifted, n)
    ensures lhs.ub.PlusInf? ==> SomeAbove(lhs, shift, Shifted, n)
  {
    if lhs.lb.MinusInf? {
      ShiftOfInf(lhs.lb, shift.lb);
      ShiftApproached(lhs, shift, lhs.lb, shift.lb, n);
    }
    if lhs.ub.PlusInf? {
      ShiftOfInf(lhs.ub, shift.lb);
      ShiftApproached(lhs, shift, lhs.ub, shift.lb, n);
    }
  }

  lemma LeastBeyond(lhs: Interval, shift: Interval, r: Interval)
    requires lhs.WellFormed() && !lhs.IsBottom() && IsCounts(shift) && FourShifts(lhs, shift, r)
    requires r.WellFormed() && !r.IsBottom() && ShiftFits(lhs) && !(BoundS32(lhs.lb) && BoundS32(lhs.ub))
    requires Holds(r, lhs, shift, Shifted)
    ensures Best(r, lhs, shift, Shifted) <==> ShiftLeast(lhs, shift)
  {
    hide Holds, Approached, FourShifts;
    NearestHolds(lhs, shift);
    PastNearest(lhs, shift, r);
    if ShiftLeast(lhs, shift) {
      NearestApproached(lhs, shift);
      ApproachedIsBest(r, lhs, shift, Shifted);
    } else {
      assert NearestQuotient(lhs, shift).WellFormed();
    }
  }

  lemma CornersDone(lhs: Interval, rhs: Interval, r: Interval)
    requires lhs.WellFormed() && !lhs.IsBottom() && IsCounts(Meet(rhs, NON_NEGATIVE))
    requires FourShifts(lhs, Meet(rhs, NON_NEGATIVE), r)
    ensures r.WellFormed() && !r.IsBottom() && ShiftResult(lhs, rhs, r)
    ensures Truncated(lhs, Meet(rhs, NON_NEGATIVE).lb.n, r)
  {
    hide Holds, Approached, Truncated, FourShifts;
    var shift := Meet(rhs, NON_NEGATIVE);
    CornersWellFormed(lhs, shift, r);
    hide ShiftNum, IsShiftCorner, Meet, KeepsSign;
    CornersTruncated(lhs, shift, r);
    ClippedCounts(r, lhs, rhs, Shifted);
    if !ShiftFits(lhs) {
      TruncatedMisses(lhs, shift, r);
    } else {
      CornersHold(lhs, shift, r);
      hide Best;
      if BoundS32(lhs.lb) && BoundS32(lhs.ub) {
        ShiftsApproached(lhs, shift, r);
        ApproachedIsBest(r, lhs, shift, Shifted);
      } else {
        LeastBeyond(lhs, shift, r);
      }
    }
  }

  lemma CornersWellFormed(lhs: Interval, shift: Interval, r: Interval)
    requires lhs.WellFormed() && !lhs.IsBottom() && IsCounts(shift) && FourShifts(lhs, shift, r)
    ensures r.WellFormed() && !r.IsBottom() && IsShiftCorner(lhs, shift, r.lb) && IsShiftCorner(lhs, shift, r.ub)
  {
  }

  lemma AroundZeroDone(lhs: Interval, rhs: Interval, l: Interval, u: Interval)
    requires lhs.WellFormed() && lhs.Contains(0) && IsCounts(Meet(rhs, NON_NEGATIVE))
    requires l.WellFormed() && (l.IsBottom() <==> Interval(lhs.lb, Fin(-1)).IsBottom())
    requires u.WellFormed() && (u.IsBottom() <==> Interval(Fin(1), lhs.ub).IsBottom())
    requires if l.IsBottom() then Best(l, Interval(lhs.lb, Fin(-1)), rhs, Shifted)
             else ShiftResult(Interval(lhs.lb, Fin(-1)), rhs, l)
    requires if u.IsBottom() then Best(u, Interval(Fin(1), lhs.ub), rhs, Shifted)
             else ShiftResult(Interval(Fin(1), lhs.ub), rhs, u)
    requires Truncated(Interval(lhs.lb, Fin(-1)), Meet(rhs, NON_NEGATIVE).lb.n, l)
    requires Truncated(Interval(Fin(1), lhs.ub), Meet(rhs, NON_NEGATIVE).lb.n, u)
    ensures
      var r := Join(Join(l, u), Interval(Fin(0), Fin(0)));
      r.WellFormed() && !r.IsBottom() && ShiftResult(lhs, rhs, r) && Truncated(lhs, Meet(rhs, NON_NEGATIVE).lb.n, r)
  {
    hide Holds, Truncated;
    var r, k := Join(Join(l, u), Interval(Fin(0), Fin(0))), Meet(rhs, NON_NEGATIVE).lb.n;
    JoinContains(l, u, 0);
    JoinContains(Join(l, u), Interval(Fin(0), Fin(0)), 0);
    MeetIsIntersection(rhs, NON_NEGATIVE, k);
    hide Join, Meet;
    TruncatedAroundZero(lhs, k, l, u);
    ClippedCounts(r, lhs, rhs, Shifted);
    if ShiftFits(lhs) {
      HoldsAroundZero(lhs, rhs, l, u);
      BestAroundZero(lhs, rhs, l, u, k);
    } else {
      TruncatedMisses(lhs, Meet(rhs, NON_NEGATIVE), r);
    }
  }

  // What the source computes.

  /** The least interval around the shifts of both ends, truncated to 32 bits, by both counts, cast. */
  function Corners(lhs: Interval, shift: Interval): Interval
    requires CountsDefined(shift)
  {
    var c, d := Cast(shift.lb), Cast(shift.ub);
    var ll, lu := ShiftNum(lhs.lb, c), ShiftNum(lhs.lb, d);
    var ul, uu := ShiftNum(lhs.ub, c), ShiftNum(lhs.ub, d);
    if lhs.IsBottom() then BOTTOM else Interval(ll.Min(lu).Min(ul).Min(uu), ll.Max(lu).Max(ul).Max(uu))
  }

  /** An operand around zero is split there. */
  function RightShift(lhs: Interval, shift: Interval): Interval
    requires CountsDefined(shift)
  {
    if !lhs.Contains(0) then Corners(lhs, shift)
    else Join(Join(Corners(Interval(lhs.lb, Fin(-1)), shift), Corners(Interval(Fin(1), lhs.ub), shift)),
              Interval(Fin(0), Fin(0)))
  }

  lemma CornersWF(lhs: Interval, shift: Interval)
    requires lhs.WellFormed() && CountsDefined(shift)
    ensures Corners(lhs, shift).WellFormed() && (Corners(lhs, shift).IsBottom() <==> lhs.IsBottom())
  {
    hide Cast, Pow2, ToS32, GetNumeral;
  }

  lemma RightShiftWF(lhs: Interval, shift: Interval)
    requires lhs.WellFormed() && CountsDefined(shift)
    ensures RightShift(lhs, shift).WellFormed() && (RightShift(lhs, shift).IsBottom() <==> lhs.IsBottom())
  {
    hide Corners;
    if lhs.Contains(0) {
      CornersWF(Interval(lhs.lb, Fin(-1)), shift);
      CornersWF(Interval(Fin(1), lhs.ub), shift);
    } else {
      CornersWF(lhs, shift);
    }
  }

  lemma FourBounds(a: Num, b: Num, c: Num, d: Num)
    ensures
      var r := Interval(a.Min(b).Min(c).Min(d), a.Max(b).Max(c).Max(d));
      && Inside(r, a) && Inside(r, b) && Inside(r, c) && Inside(r, d)
      && r.lb in [a, b, c, d] && r.ub in [a, b, c, d]
  {
  }

  /** The corners bound the four shifts and are among them. */
  lemma FourCorners(lhs: Interval, shift: Interval)
    requires lhs.WellFormed() && !lhs.IsBottom() && CountsDefined(shift)
    ensures
      var r, c, d := Corners(lhs, shift), Cast(shift.lb), Cast(shift.ub);
      && Inside(r, ShiftNum(lhs.lb, c)) && Inside(r, ShiftNum(lhs.lb, d))
      && Inside(r, ShiftNum(lhs.ub, c)) && Inside(r, ShiftNum(lhs.ub, d))
      && r.lb in [ShiftNum(lhs.lb, c), ShiftNum(lhs.lb, d), ShiftNum(lhs.ub, c), ShiftNum(lhs.ub, d)]
      && r.ub in [ShiftNum(lhs.lb, c), ShiftNum(lhs.lb, d), ShiftNum(lhs.ub, c), ShiftNum(lhs.ub, d)]
  {
    var c, d := Cast(shift.lb), Cast(shift.ub);
    hide Cast, ShiftNum, Num.Min, Num.Max, Inside;
    FourBounds(ShiftNum(lhs.lb, c), ShiftNum(lhs.lb, d), ShiftNum(lhs.ub, c), ShiftNum(lhs.ub, d));
  }

  lemma KeptFour(lhs: Interval, shift: Interval)
    requires lhs.WellFormed() && !lhs.IsBottom() && CountsDefined(shift) && CountsKept(shift)
    ensures IsCounts(shift) && FourShifts(lhs, shift, Corners(lhs, shift))
  {
    hide ShiftNum, Corners, Cast, Inside;
    FourCorners(lhs, shift);
  }

  /** With counts the cast keeps, the corners of a part of the operand do what `ShiftResult` says. */
  lemma KeptCorners(lhs: Interval, rhs: Interval)
    requires lhs.WellFormed() && CountsDefined(Meet(rhs, NON_NEGATIVE)) && CountsKept(Meet(rhs, NON_NEGATIVE))
    ensures
      var r := Corners(lhs, Meet(rhs, NON_NEGATIVE));
      && r.WellFormed() && (r.IsBottom() <==> lhs.IsBottom())
      && (if r.IsBottom() then Best(r, lhs, rhs, Shifted) else ShiftResult(lhs, rhs, r))
      && Truncated(lhs, Meet(rhs, NON_NEGATIVE).lb.n, r)
  {
    hide Best, Holds, ShiftNum, Truncated, Cast, Meet, FourShifts, ShiftResult;
    CornersWF(lhs, Meet(rhs, NON_NEGATIVE));
    if lhs.IsBottom() {
      NoMembersBest(lhs, rhs, Shifted);
      NoTruncation(lhs, Meet(rhs, NON_NEGATIVE).lb.n);
    } else {
      KeptFour(lhs, Meet(rhs, NON_NEGATIVE));
      hide Corners;
      CornersDone(lhs, rhs, Corners(lhs, Meet(rhs, NON_NEGATIVE)));
    }
  }

  lemma KeptResult(lhs: Interval, rhs: Interval)
    requires lhs.WellFormed() && !lhs.IsBottom()
    requires CountsDefined(Meet(rhs, NON_NEGATIVE)) && CountsKept(Meet(rhs, NON_NEGATIVE))
    ensures ShiftResult(lhs, rhs, RightShift(lhs, Meet(rhs, NON_NEGATIVE)))
  {
    hide Best, Holds, Truncated, Corners, Meet, ShiftResult, Cast;
    var shift := Meet(rhs, NON_NEGATIVE);
    if lhs.Contains(0) {
      var below, above := Interval(lhs.lb, Fin(-1)), Interval(Fin(1), lhs.ub);
      KeptCorners(below, rhs);
      KeptCorners(above, rhs);
      AroundZeroDone(lhs, rhs, Corners(below, shift), Corners(above, shift));
    } else {
      KeptCorners(lhs, rhs);
    }
  }

  /** What a right shift promises of its result, given that there are operands and counts: it holds
      all quotients exactly when the hull of the exact ends lies within what the truncated and cast
      ones give, and is least exactly when the two agree. For counts the cast keeps, `ShiftResult`
      says when that is. */
  ghost predicate RightResult(lhs: Interval, rhs: Interval, r: Interval)
    requires CountsDefined(Meet(rhs, NON_NEGATIVE))
  {
    var shift := Meet(rhs, NON_NEGATIVE);
    var exact, computed := QuotientHull(lhs, shift), RightShift(lhs, shift);
    && (Holds(r, lhs, rhs, Shifted) <==> exact.Leq(computed))
    && (Best(r, lhs, rhs, Shifted) <==> exact == computed)
    && (CountsKept(shift) ==> ShiftResult(lhs, rhs, r))
  }

  lemma RightDone(lhs: Interval, rhs: Interval)
    requires lhs.WellFormed() && !lhs.IsBottom() && CountsDefined(Meet(rhs, NON_NEGATIVE))
    ensures RightResult(lhs, rhs, RightShift(lhs, Meet(rhs, NON_NEGATIVE)))
  {
    hide Best, Holds, RightShift, QuotientHull, Meet, ShiftResult, Cast;
    var shift := Meet(rhs, NON_NEGATIVE);
    var r := RightShift(lhs, shift);
    RightShiftWF(lhs, shift);
    HullBest(lhs, shift);
    LeastDecides(QuotientHull(lhs, shift), r, lhs, shift, Shifted);
    ClippedCounts(r, lhs, rhs, Shifted);
    SameInterval(QuotientHull(lhs, shift), r);
    if CountsKept(shift) {
      KeptResult(lhs, rhs);
    }
  }

  lemma SameInterval(a: Interval, b: Interval)
    requires !a.IsBottom() && !b.IsBottom()
    ensures a.Leq(b) && b.Leq(a) <==> a == b
  {
  }

  lemma EverythingRight(shift: Interval)
    requires shift == NON_NEGATIVE
    ensures CountsDefined(shift) && RightShift(TOP, shift) == TOP
  {
  }

  /** Right shift is floor division by powers of two, of ends truncated to 32 bits by counts cast to
      32 bits. An operand around zero is split there. */
  method ShiftRight(lhs: Interval, rhs: Interval) returns (r: Interval)
    requires lhs.WellFormed() && rhs.WellFormed() && ShiftDefined(rhs)
    ensures r.WellFormed()
    ensures r.IsBottom() <==> lhs.IsBottom() || Meet(rhs, NON_NEGATIVE).IsBottom()
    ensures if r.IsBottom() then r == BOTTOM && Best(r, lhs, rhs, Shifted)
      else r == RightShift(lhs, Meet(rhs, NON_NEGATIVE)) && RightResult(lhs, rhs, r)
    decreases if lhs.Contains(0) then 1 else 0
  {
    hide Best, Holds, RightResult, Corners;
    var shift := Meet(rhs, NON_NEGATIVE);
    if lhs.IsBottom() || rhs.IsBottom() {
      NoMembersBest(lhs, shift, Shifted);
      ClippedCounts(BOTTOM, lhs, rhs, Shifted);
      return BOTTOM;
    } else if lhs.IsTop() && rhs.IsTop() {
      EverythingRight(shift);
      RightDone(lhs, rhs);
      return TOP;
    }
    if shift.IsBottom() {
      NoMembersBest(lhs, shift, Shifted);
      ClippedCounts(BOTTOM, lhs, rhs, Shifted);
      return BOTTOM;
    }
    hide Meet, Cast, ShiftNum;
    RightShiftWF(lhs, shift);
    RightDone(lhs, rhs);
    if lhs.Contains(0) {
      var l := ShiftRight(Interval(lhs.lb, Fin(-1)), rhs);
      var u := ShiftRight(Interval(Fin(1), lhs.ub), rhs);
      CornersOfPart(Interval(lhs.lb, Fin(-1)), shift);
      CornersOfPart(Interval(Fin(1), lhs.ub), shift);
      r := Join(Join(l, u), Interval(Fin(0), Fin(0)));
    } else {
      var ll := ShiftNum(lhs.lb, Cast(shift.lb));
      var lu := ShiftNum(lhs.lb, Cast(shift.ub));
      var ul := ShiftNum(lhs.ub, Cast(shift.lb));
      var uu := ShiftNum(lhs.ub, Cast(shift.ub));
      var vec := [ll, lu, ul, uu];
      var lb := MinOf(vec);
      var ub := MaxOf(vec);
      r := Interval(lb, ub);
      assert vec[0] == ll && vec[1] == lu && vec[2] == ul && vec[3] == uu;
      ExtremesOfFour(ll, lu, ul, uu, lb, ub);
      CornersAre(lhs, shift, ll, lu, ul, uu);
    }
  }

  lemma CornersOfPart(lhs: Interval, shift: Interval)
    requires CountsDefined(shift) && !lhs.Contains(0)
    ensures RightShift(lhs, shift) == Corners(lhs, shift)
    ensures lhs.IsBottom() ==> Corners(lhs, shift) == BOTTOM
  {
  }

  lemma CornersAre(lhs: Interval, shift: Interval, ll: Num, lu: Num, ul: Num, uu: Num)
    requires CountsDefined(shift) && !lhs.IsBottom()
    requires ll == ShiftNum(lhs.lb, Cast(shift.lb)) && lu == ShiftNum(lhs.lb, Cast(shift.ub))
    requires ul == ShiftNum(lhs.ub, Cast(shift.lb)) && uu == ShiftNum(lhs.ub, Cast(shift.ub))
    ensures Corners(lhs, shift) == Interval(ll.Min(lu).Min(ul).Min(uu), ll.Max(lu).Max(ul).Max(uu))
  {
  }

  lemma ExtremesOfFour(a: Num, b: Num, c: Num, d: Num, lb: Num, ub: Num)
    requires lb in [a, b, c, d] && lb.Leq(a) && lb.Leq(b) && lb.Leq(c) && lb.Leq(d)
    requires ub in [a, b, c, d] && a.Leq(ub) && b.Leq(ub) && c.Leq(ub) && d.Leq(ub)
    ensures lb == a.Min(b).Min(c).Min(d) && ub == a.Max(b).Max(c).Max(d)
  {
  }

  // Counts that the cast changes.

  /** The power of two of the count that shifts furthest, as cast. */
  function FurthestPower(shift: Interval): int
    requires CountsDefined(shift) && shift.ub.Fin?
  {
    Pow2(if Cast(shift.lb).n <= Cast(shift.ub).n then Cast(shift.ub).n else Cast(shift.lb).n)
  }

  /** An operand on one side of zero is shifted away by the cast counts, too. */
  predicate ShiftedAwayToo(lhs: Interval, shift: Interval)
    requires CountsDefined(shift) && shift.ub.Fin?
  {
    && (lhs.lb.Geq(Fin(1)) ==> !lhs.lb.Geq(Fin(FurthestPower(shift))))
    && (lhs.ub.Leq(Fin(-1)) ==> lhs.ub.Geq(Fin(-1 * FurthestPower(shift))))
  }

  /** A cast count shifts no further, so it leaves at least as wide an end. */
  lemma CastLeavesWider(e: Num, c: Num)
    requires BoundS32(e) && c.Fin? && c.n >= 0 && 0 <= Cast(c).n <= 31
    ensures e.Geq(Fin(0)) ==> ShiftedEnd(e, c).Leq(ShiftNum(e, Cast(c)))
    ensures !e.Geq(Fin(0)) ==> ShiftNum(e, Cast(c)).Leq(ShiftedEnd(e, c))
  {
    CastCount(c.n);
    hide Cast, ShiftNum, Pow2;
    ShiftNumExact(e, Cast(c));
    if e.Fin? {
      Pow2Mono(Cast(c).n, c.n);
      DivMonoDivisor(e.n, Pow2(Cast(c).n), Pow2(c.n));
    }
  }

  /** A 32-bit number is shifted away by 32 or more. */
  lemma FarCount(e: int, c: Num)
    requires IsS32(e) && c.Geq(Fin(32))
    ensures ShiftedEnd(Fin(e), c) == Fin(if e >= 0 then 0 else -1)
  {
    if c.Fin? {
      Pow30();
      Pow2Mono(31, c.n);
      hide Pow2;
      QuotientLeast(e, Pow2(c.n), 0);
      QuotientLeast(e, Pow2(c.n), 1);
      QuotientLeast(e, Pow2(c.n), -1);
    }
  }

  lemma ShiftsAway(e: int, k: nat)
    requires IsS32(e) && k <= 31
    ensures e >= 0 ==>
      (ShiftNum(Fin(e), Fin(k)) == Fin(0) <==> e < Pow2(k)) && ShiftNum(Fin(e), Fin(k)).Geq(Fin(0))
    ensures e < 0 ==>
      (ShiftNum(Fin(e), Fin(k)) == Fin(-1) <==> e >= -1 * Pow2(k)) && ShiftNum(Fin(e), Fin(k)).Leq(Fin(-1))
  {
    hide ShiftNum, Pow2;
    ShiftIsQuotient(e, k);
    QuotientLeast(e, Pow2(k), 0);
    QuotientLeast(e, Pow2(k), 1);
    QuotientLeast(e, Pow2(k), -1);
  }

  /** The shifts of an end by the two cast counts: whether they come to 0 or -1. */
  lemma EndReachesZero(e: Num, shift: Interval)
    requires BoundS32(e) && CountsDefined(shift) && shift.ub.Fin?
    ensures
      var v, w, p := ShiftNum(e, Cast(shift.lb)), ShiftNum(e, Cast(shift.ub)), FurthestPower(shift);
      && (e.Geq(Fin(0)) ==> v.Geq(Fin(0)) && w.Geq(Fin(0)) && (v == Fin(0) || w == Fin(0) <==> !e.Geq(Fin(p))))
      && (e.Leq(Fin(-1)) ==>
            v.Leq(Fin(-1)) && w.Leq(Fin(-1)) && (v == Fin(-1) || w == Fin(-1) <==> e.Geq(Fin(-1 * p))))
  {
    var c, d := Cast(shift.lb).n, Cast(shift.ub).n;
    Pow2Mono(if c <= d then c else d, if c <= d then d else c);
    hide Cast, Pow2, ShiftNum;
    if e.Fin? {
      ShiftsAway(e.n, c);
      ShiftsAway(e.n, d);
    } else {
      ShiftOfInf(e, Fin(c));
      ShiftOfInf(e, Fin(d));
    }
  }

  /** The nearer end of an operand away from zero decides whether the corners come to zero. */
  lemma CornersReachZero(lhs: Interval, shift: Interval)
    requires lhs.WellFormed() && !lhs.IsBottom() && BoundS32(lhs.lb) && BoundS32(lhs.ub)
    requires CountsDefined(shift) && shift.ub.Fin?
    ensures lhs.lb.Geq(Fin(1)) ==> (Corners(lhs, shift).lb.Leq(Fin(0)) <==> !lhs.lb.Geq(Fin(FurthestPower(shift))))
    ensures lhs.ub.Leq(Fin(-1)) ==>
      (Corners(lhs, shift).ub.Geq(Fin(-1)) <==> lhs.ub.Geq(Fin(-1 * FurthestPower(shift))))
  {
    hide Cast, Corners, ShiftNum, FurthestPower;
    FourCorners(lhs, shift);
    EndReachesZero(lhs.lb, shift);
    EndReachesZero(lhs.ub, shift);
  }

  /** Of 32-bit operands, counts that the cast changes are sound exactly around zero, without an
      upper bound, or when the cast counts shift the operand away as well. */
  lemma FarCountsSound(lhs: Interval, shift: Interval)
    requires lhs.WellFormed() && !lhs.IsBottom() && BoundS32(lhs.lb) && BoundS32(lhs.ub)
    requires CountsDefined(shift) && !CountsKept(shift)
    ensures QuotientHull(lhs, shift).Leq(RightShift(lhs, shift)) <==>
      lhs.Contains(0) || shift.ub.PlusInf? || ShiftedAwayToo(lhs, shift)
  {
    hide Cast, Corners, ShiftNum, ShiftedEnd, FurthestPower;
    HullBest(lhs, shift);
    RightShiftWF(lhs, shift);
    if lhs.Contains(0) {
      AroundZeroWider(lhs, shift);
    } else {
      AwayWider(lhs, shift);
      if shift.ub.Fin? {
        CornersReachZero(lhs, shift);
      }
    }
  }

  lemma AroundZeroWider(lhs: Interval, shift: Interval)
    requires lhs.WellFormed() && lhs.Contains(0) && BoundS32(lhs.lb) && BoundS32(lhs.ub)
    requires CountsDefined(shift)
    ensures QuotientHull(lhs, shift).Leq(RightShift(lhs, shift))
  {
    hide Cast, Corners, ShiftNum;
    var below, above := Interval(lhs.lb, Fin(-1)), Interval(Fin(1), lhs.ub);
    RightShiftWF(lhs, shift);
    CornersWF(below, shift);
    CornersWF(above, shift);
    ZeroQuotient(Pow2(shift.lb.n));
    hide ShiftedEnd;
    if !below.IsBottom() {
      FourCorners(below, shift);
      CastLeavesWider(lhs.lb, shift.lb);
    }
    if !above.IsBottom() {
      FourCorners(above, shift);
      CastLeavesWider(lhs.ub, shift.lb);
    }
  }

  /** Away from zero the far side is always wide enough; the near side is exactly 0 or -1. */
  lemma AwayWider(lhs: Interval, shift: Interval)
    requires lhs.WellFormed() && !lhs.IsBottom() && !lhs.Contains(0) && BoundS32(lhs.lb) && BoundS32(lhs.ub)
    requires CountsDefined(shift) && !CountsKept(shift)
    ensures
      var exact, r := QuotientHull(lhs, shift), Corners(lhs, shift);
      && (lhs.lb.Geq(Fin(1)) ==> exact.lb == Fin(0) && exact.ub.Leq(r.ub) && (shift.ub.PlusInf? ==> r.lb.Leq(Fin(0))))
      && (lhs.ub.Leq(Fin(-1)) ==>
            exact.ub == Fin(-1) && r.lb.Leq(exact.lb) && (shift.ub.PlusInf? ==> r.ub.Geq(Fin(-1))))
  {
    FarUpper(shift);
    hide Cast, Corners, ShiftNum;
    FourCorners(lhs, shift);
    if lhs.lb.Geq(Fin(1)) {
      FarCount(lhs.lb.n, shift.ub);
      CastLeavesWider(lhs.ub, shift.lb);
      ShiftAway(lhs.lb.n, 0);
    } else {
      FarCount(lhs.ub.n, shift.ub);
      CastLeavesWider(lhs.lb, shift.lb);
      ShiftAway(lhs.ub.n, 0);
    }
  }

  lemma FarUpper(shift: Interval)
    requires CountsDefined(shift) && !CountsKept(shift)
    ensures shift.ub.Geq(Fin(32))
  {
    CastCount(shift.lb.n);
    if shift.ub.Fin? {
      CastCount(shift.ub.n);
    }
  }

  /** Shifting 5 right by 2^32 leaves 5, where nothing should be left. */
  lemma RightShiftLoses()
    ensures
      var five, far := Interval(Fin(5), Fin(5)), Interval(Fin(0x1_0000_0000), Fin(0x1_0000_0000));
      && CountsDefined(far) && RightShift(five, far) == five
      && QuotientHull(five, far) == Interval(Fin(0), Fin(0))
  {
    assert Cast(Fin(0x1_0000_0000)) == Fin(0);
    FarCount(5, Fin(0x1_0000_0000));
    ShiftIsQuotient(5, 0);
  }
}
