/** The counts of interval shifts: which of them count, and how the source reads them. */
module ShiftCounts {
  import opened Arithmetic
  import opened NumericLiteral
  import opened IntervalValue
  import opened BestInterval
  import opened Bits

  const NON_NEGATIVE := Interval(Fin(0), PlusInf)

  /** The number a bound is read as: infinities and overlong numbers saturate at 64 bits. */
  function GetNumeral(a: Num): int {
    match a
    case MinusInf => -0x8000_0000_0000_0000
    case PlusInf => 0x7fff_ffff_ffff_ffff
    case Fin(n) => if IsS64(n) then n else if n < 0 then -0x8000_0000_0000_0000 else 0x7fff_ffff_ffff_ffff
  }

  /** That is the 64-bit number nearest to the bound. */
  lemma NumeralNearest(a: Num, m: int)
    requires IsS64(m)
    ensures IsS64(GetNumeral(a))
    ensures (Fin(m).Leq(a) ==> m <= GetNumeral(a)) && (a.Leq(Fin(m)) ==> GetNumeral(a) <= m)
  {
  }

  /** A finite count is cast to 32 bits. */
  function Cast(c: Num): (r: Num)
    ensures r.Fin? <==> c.Fin?
    ensures !c.Fin? ==> r == c
  {
    if c.Fin? then Fin(ToS32(GetNumeral(c))) else c
  }

  /** Non-negative counts: what is left of an operand clipped at zero, when anything is. */
  predicate IsClipped(shift: Interval) {
    shift.WellFormed() && !shift.IsBottom() && shift.lb.Fin? && shift.lb.n >= 0
  }

  /** The bounds as cast shift a 32-bit number by 0 to 31. */
  predicate CountsDefined(shift: Interval) {
    && IsClipped(shift) && 0 <= Cast(shift.lb).n <= 31
    && (shift.ub.Fin? ==> 0 <= Cast(shift.ub).n <= 31)
  }

  /** What a shift asks of its counts; beyond that the language leaves it undefined. */
  predicate ShiftDefined(rhs: Interval) {
    var shift := Meet(rhs, NON_NEGATIVE);
    shift.IsBottom() || CountsDefined(shift)
  }

  /** The cast changes neither bound. */
  predicate CountsKept(shift: Interval) {
    Cast(shift.lb) == shift.lb && Cast(shift.ub) == shift.ub
  }

  /** A cast count is the count itself, or the count is beyond 32 bits. */
  lemma CastCount(n: nat)
    requires 0 <= Cast(Fin(n)).n <= 31
    ensures n == Cast(Fin(n)).n || n >= 0x1_0000_0000
  {
  }

  /** Clipping the counts at zero loses only counts that shift by nothing. */
  lemma ClippedCounts(r: Interval, lhs: Interval, rhs: Interval, f: (int, int) --> int)
    requires forall x, s :: f.requires(x, s) <==> s >= 0
    ensures Holds(r, lhs, Meet(rhs, NON_NEGATIVE), f) == Holds(r, lhs, rhs, f)
    ensures Best(r, lhs, Meet(rhs, NON_NEGATIVE), f) == Best(r, lhs, rhs, f)
  {
    forall s ensures Meet(rhs, NON_NEGATIVE).Contains(s) <==> rhs.Contains(s) && s >= 0 {
      MeetIsIntersection(rhs, NON_NEGATIVE, s);
    }
    forall t: Interval ensures Holds(t, lhs, Meet(rhs, NON_NEGATIVE), f) == Holds(t, lhs, rhs, f) {
    }
  }

  lemma {:induction false} Pow2Grows(k: nat)
    ensures Pow2(k) >= k + 1
  {
    if k > 0 {
      Pow2Grows(k - 1);
    }
  }

  /** An operation that some operand leaves alone takes everything to everything. */
  lemma EverythingBest(lhs: Interval, rhs: Interval, f: (int, int) --> int, y: int)
    requires lhs.IsTop() && rhs.Contains(y)
    requires forall x :: f.requires(x, y) && f(x, y) == x
    ensures Best(TOP, lhs, rhs, f)
  {
    hide Best;
    forall n: int ensures SomeBelow(lhs, rhs, f, n) && SomeAbove(lhs, rhs, f, n) {
      assert f(n - 1, y) == n - 1 && f(n + 1, y) == n + 1;
      assert lhs.Contains(n - 1) && lhs.Contains(n + 1);
    }
    ApproachedIsBest(TOP, lhs, rhs, f);
  }
}
