/** Bit operations on intervals. */
module IntervalBits {
  import opened NumericLiteral
  import opened IntervalValue
  import opened ShiftCounts
  import opened Bits

  /** `r` holds the operation's result on all members. */
  ghost predicate SoundBits(op: BitOp, lhs: Interval, rhs: Interval, r: Interval) {
    forall x, y :: lhs.Contains(x) && rhs.Contains(y) ==> r.Contains(Bitwise(op, x, y))
  }

  /** Operands are truncated to 64 bits, which truncates the result. */
  function SingleBits(op: BitOp, a: Num, b: Num): (r: Interval)
    requires a.Fin? && b.Fin?
    ensures r == Interval(Fin(ToS64(Bitwise(op, a.n, b.n))), Fin(ToS64(Bitwise(op, a.n, b.n))))
  {
    TruncatedBits(op, a.n, b.n);
    var v := Fin(Bitwise(op, ToS64(a.n), ToS64(b.n)));
    Interval(v, v)
  }

  /** Both operands are single numbers. */
  predicate Singles(lhs: Interval, rhs: Interval) {
    && !lhs.IsBottom() && lhs.IsNumeral() && lhs.lb.Fin?
    && !rhs.IsBottom() && rhs.IsNumeral() && rhs.lb.Fin?
  }

  /** The operands are not both single numbers, or the number they yield fits 64 bits. */
  predicate NothingTruncated(op: BitOp, lhs: Interval, rhs: Interval) {
    Singles(lhs, rhs) ==> IsS64(Bitwise(op, lhs.lb.n, rhs.lb.n))
  }

  lemma SinglesSound(op: BitOp, lhs: Interval, rhs: Interval)
    requires Singles(lhs, rhs)
    ensures SoundBits(op, lhs, rhs, SingleBits(op, lhs.lb, rhs.lb)) <==> NothingTruncated(op, lhs, rhs)
  {
    assert lhs.Contains(lhs.lb.n) && rhs.Contains(rhs.lb.n);
  }

  /** A number beyond 64 bits loses its upper ones: 2^64 & 2^64 comes out as 0. */
  lemma OverlongTruncated()
    ensures
      var a := Fin(0x1_0000_0000_0000_0000);
      SingleBits(And, a, a) == Interval(Fin(0), Fin(0)) && !NothingTruncated(And, Interval(a, a), Interval(a, a))
  {
    AndSelf(0x1_0000_0000_0000_0000);
  }

  /** Conjunction: sound unless single numbers yield one beyond 64 bits; a non-negative side bounds
      the result. */
  method BitAnd(lhs: Interval, rhs: Interval) returns (r: Interval)
    requires lhs.WellFormed() && rhs.WellFormed()
    ensures r.WellFormed() && (SoundBits(And, lhs, rhs, r) <==> NothingTruncated(And, lhs, rhs))
    ensures r.IsBottom() <==> lhs.IsBottom() || rhs.IsBottom()
    ensures Singles(lhs, rhs) ==> r == SingleBits(And, lhs.lb, rhs.lb)
    ensures !lhs.IsBottom() && !rhs.IsBottom() && !(lhs.IsNumeral() && rhs.IsNumeral()) ==>
      && (lhs.lb.Geq(Fin(0)) || rhs.lb.Geq(Fin(0)) <==> r.lb == Fin(0))
      && (lhs.lb.Geq(Fin(0)) ==> r.ub.Leq(lhs.ub))
      && (rhs.lb.Geq(Fin(0)) ==> r.ub.Leq(rhs.ub))
      && ((r.ub == lhs.ub && lhs.lb.Geq(Fin(0))) || (r.ub == rhs.ub && rhs.lb.Geq(Fin(0))) || r == TOP)
  {
    if lhs.IsBottom() || rhs.IsBottom() {
      return BOTTOM;
    }
    if lhs.IsNumeral() && rhs.IsNumeral() {
      r := SingleBits(And, lhs.lb, rhs.lb);
      SinglesSound(And, lhs, rhs);
      return;
    }
    if GetNumeral(lhs.lb) >= 0 && GetNumeral(rhs.lb) >= 0 {
      r := Interval(Fin(0), lhs.ub.Min(rhs.ub));
    } else if GetNumeral(lhs.lb) >= 0 {
      r := Interval(Fin(0), lhs.ub);
    } else if GetNumeral(rhs.lb) >= 0 {
      r := Interval(Fin(0), rhs.ub);
    } else {
      r := TOP;
    }
    forall x, y | lhs.Contains(x) && rhs.Contains(y) ensures r.Contains(Bitwise(And, x, y)) {
      AndTwice(x, y);
    }
  }

  lemma AndTwice(x: int, y: int)
    ensures x >= 0 ==> 0 <= Bitwise(And, x, y) <= x
    ensures y >= 0 ==> 0 <= Bitwise(And, x, y) <= y
  {
    if x >= 0 { AndBounded(x, y); }
    if y >= 0 { AndBounded(y, x); }
  }

  /** Both sides non-negative and finite, not both single numbers: the branch that computes a
      power of two. */
  predicate PowerBranch(lhs: Interval, rhs: Interval) {
    && !lhs.IsBottom() && !rhs.IsBottom() && !(lhs.IsNumeral() && rhs.IsNumeral())
    && GetNumeral(lhs.lb) >= 0 && !lhs.ub.IsInf() && GetNumeral(rhs.lb) >= 0 && !rhs.ub.IsInf()
  }

  function LargerUb(lhs: Interval, rhs: Interval): int {
    if GetNumeral(lhs.ub) >= GetNumeral(rhs.ub) then GetNumeral(lhs.ub) else GetNumeral(rhs.ub)
  }

  /** No member is negative, and there is a greatest. */
  predicate NonNegative(i: Interval) {
    i.lb.Geq(Fin(0)) && i.ub.Fin?
  }

  /** `m` is the greatest member of either side. */
  ghost predicate UpperEnd(lhs: Interval, rhs: Interval, m: int) {
    (lhs.Contains(m) || rhs.Contains(m)) && forall x | lhs.Contains(x) || rhs.Contains(x) :: x <= m
  }

  /** `r` goes from 0 to the least power of two, from 2 on, above `m`. */
  ghost predicate LeastPower(m: int, r: Interval) {
    exists i: nat :: 1 <= i && r == Interval(Fin(0), Fin(Pow2(i))) && m < Pow2(i) && (i == 1 || Pow2(i - 1) <= m)
  }

  /** The side conditions of the source's branch, in terms of the operands' members. */
  lemma BranchMeans(lhs: Interval, rhs: Interval)
    requires lhs.WellFormed() && rhs.WellFormed() && !lhs.IsBottom() && !rhs.IsBottom()
    ensures PowerBranch(lhs, rhs) <==> NonNegative(lhs) && NonNegative(rhs) && !Singles(lhs, rhs)
    ensures PowerBranch(lhs, rhs) && LargerUb(lhs, rhs) + 1 < 0x8000_0000 ==>
      forall m :: UpperEnd(lhs, rhs, m) <==> m == LargerUb(lhs, rhs)
  {
    if PowerBranch(lhs, rhs) && LargerUb(lhs, rhs) + 1 < 0x8000_0000 {
      assert lhs.Contains(lhs.ub.n) && rhs.Contains(rhs.ub.n);
    }
  }

  /** Disjunction and exclusive disjunction share their shape. The result is sound exactly when no
      single number beyond 64 bits is truncated and the power-of-two branch is not taken or its power
      fits: m + 1 < 2^30 for the larger upper bound m. At 2^30 the bound turns negative and the
      result is empty. */
  method BitOrXor(op: BitOp, lhs: Interval, rhs: Interval) returns (r: Interval)
    requires op != And && lhs.WellFormed() && rhs.WellFormed()
    requires PowerBranch(lhs, rhs) ==> LargerUb(lhs, rhs) + 1 < 0x8000_0000
    ensures SoundBits(op, lhs, rhs, r) <==>
      NothingTruncated(op, lhs, rhs) && (PowerBranch(lhs, rhs) ==> LargerUb(lhs, rhs) + 1 < 0x4000_0000)
    ensures Singles(lhs, rhs) ==> r == SingleBits(op, lhs.lb, rhs.lb)
    ensures lhs.IsBottom() || rhs.IsBottom() ==> r.IsBottom()
    ensures !lhs.IsBottom() && !rhs.IsBottom() && !Singles(lhs, rhs) ==>
      if NonNegative(lhs) && NonNegative(rhs) then
        forall m | UpperEnd(lhs, rhs, m) :: if m + 1 < 0x4000_0000 then LeastPower(m + 1, r) else r.IsBottom()
      else r == TOP
  {
    hide Bitwise, Pow2;
    if lhs.IsBottom() || rhs.IsBottom() {
      return BOTTOM;
    }
    BranchMeans(lhs, rhs);
    if lhs.IsNumeral() && rhs.IsNumeral() {
      r := SingleBits(op, lhs.lb, rhs.lb);
      SinglesSound(op, lhs, rhs);
      return;
    }
    if GetNumeral(lhs.lb) >= 0 && !lhs.ub.IsInf() && GetNumeral(rhs.lb) >= 0 && !rhs.ub.IsInf() {
      var m := LargerUb(lhs, rhs);
      var ub := NextPowerOf2(m + 1);
      r := Interval(Fin(0), Fin(ub));
      if m + 1 < 0x4000_0000 {
        var i: nat :| 1 <= i <= 30 && ub == Pow2(i) && m + 1 < ub && (i == 1 || Pow2(i - 1) <= m + 1);
        forall x, y | lhs.Contains(x) && rhs.Contains(y) ensures r.Contains(Bitwise(op, x, y)) {
          BitwiseBelow(op, x, y, i);
        }
      } else {
        assert lhs.Contains(lhs.ub.n) && rhs.Contains(rhs.ub.n);
        assert !r.Contains(Bitwise(op, lhs.ub.n, rhs.ub.n));
      }
    } else {
      r := TOP;
    }
  }
}
