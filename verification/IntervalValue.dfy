/** The interval domain: lattice operations in place, arithmetic on fresh values. */
module IntervalValue {
  import opened NumericLiteral

  datatype Interval = Interval(lb: Num, ub: Num) {

    predicate IsBottom() {
      !ub.Geq(lb)
    }

    predicate IsTop() {
      lb.MinusInf? && ub.PlusInf?
    }

    predicate IsZero() {
      lb.IsZero() && ub.IsZero()
    }

    predicate IsNumeral() {
      lb == ub
    }

    /** The source's membership test; on a well-formed interval, the integers it stands for. */
    predicate Contains(x: int) {
      lb.Leq(Fin(x)) && ub.Geq(Fin(x))
    }

    /** Either empty, or bounded by proper bounds: not all the way at one infinity. */
    predicate WellFormed() {
      IsBottom() || (lb != PlusInf && ub != MinusInf)
    }

    predicate Leq(other: Interval) {
      if IsBottom() then true
      else if other.IsBottom() then false
      else other.lb.Leq(lb) && ub.Leq(other.ub)
    }

    predicate Equals(other: Interval) {
      if IsBottom() then other.IsBottom()
      else if other.IsBottom() then false
      else lb == other.lb && ub == other.ub
    }
  }

  const BOTTOM := Interval(Fin(1), Fin(0))
  const TOP := Interval(MinusInf, PlusInf)

  function Join(a: Interval, b: Interval): Interval {
    if a.IsBottom() then (if b.IsBottom() then a else b)
    else if b.IsBottom() then a
    else Interval(a.lb.Min(b.lb), a.ub.Max(b.ub))
  }

  function Meet(a: Interval, b: Interval): Interval {
    if a.IsBottom() || b.IsBottom() then BOTTOM
    else
      var r := Interval(a.lb.Max(b.lb), a.ub.Min(b.ub));
      if r.IsBottom() then BOTTOM else r
  }

  function Widen(a: Interval, b: Interval): Interval {
    if a.IsBottom() then b
    else if b.IsBottom() then a
    else Interval(if !a.lb.Leq(b.lb) then MinusInf else a.lb, if !a.ub.Geq(b.ub) then PlusInf else a.ub)
  }

  function Narrow(a: Interval, b: Interval): Interval {
    if a.IsBottom() || b.IsBottom() then BOTTOM
    else Interval(if a.lb.IsInf() then b.lb else a.lb, if a.ub.IsInf() then b.ub else a.ub)
  }

  /** Narrowing is safe unless the lower bound is infinite and the other interval lies above: it
      reads its upper bound, asserting non-emptiness, after it has replaced the lower one. */
  predicate NarrowReads(a: Interval, b: Interval) {
    a.IsBottom() || b.IsBottom() || (a.lb.IsInf() ==> b.lb.Leq(a.ub))
  }

  /** The interval between the two assignments of narrowing. */
  function HalfNarrowed(a: Interval, b: Interval): Interval {
    Interval(if a.lb.IsInf() then b.lb else a.lb, a.ub)
  }

  /** The second read finds an empty interval exactly on the inputs `NarrowReads` excludes; for
      well-formed operands these are the ones that have no integer in common while the first is
      unbounded below. */
  lemma NarrowTripsIff(a: Interval, b: Interval)
    requires !a.IsBottom() && !b.IsBottom()
    ensures HalfNarrowed(a, b).IsBottom() <==> !NarrowReads(a, b)
    ensures a.WellFormed() && b.WellFormed() ==>
      (NarrowReads(a, b) <==> a.lb.Fin? || exists x :: a.Contains(x) && b.Contains(x))
  {
    if a.WellFormed() && b.WellFormed() && a.lb.MinusInf? && b.lb.Leq(a.ub) {
      var x := if b.lb.Fin? then b.lb.n
               else if !a.ub.Fin? then (if b.ub.Fin? then b.ub.n else 0)
               else if b.ub.Leq(a.ub) then b.ub.n else a.ub.n;
      assert a.Contains(x) && b.Contains(x);
    }
  }

  /** `z` has the finite bounds of `x`. */
  predicate KeepsFinite(x: Interval, z: Interval) {
    (x.lb.Fin? ==> z.lb == x.lb) && (x.ub.Fin? ==> z.ub == x.ub)
  }

  /** Narrowing by something below gives the least interval that holds it and keeps the finite
      bounds: it gives up no finite bound and lets every infinite one down. */
  lemma NarrowIsLeast(x: Interval, y: Interval)
    requires !y.IsBottom() && y.Leq(x)
    ensures y.Leq(Narrow(x, y)) && KeepsFinite(x, Narrow(x, y))
    ensures forall z: Interval :: y.Leq(z) && z.Leq(x) && KeepsFinite(x, z) ==> Narrow(x, y).Leq(z)
  {
  }

  /** Of any two non-empty intervals, narrowing takes the finite bounds of the first and the bounds of
      the second for the infinite ones; with an empty one the result is empty. */
  lemma NarrowBounds(x: Interval, y: Interval)
    ensures x.IsBottom() || y.IsBottom() ==> Narrow(x, y).IsBottom()
    ensures !x.IsBottom() && !y.IsBottom() ==>
      && KeepsFinite(x, Narrow(x, y))
      && (!x.lb.Fin? ==> Narrow(x, y).lb == y.lb) && (!x.ub.Fin? ==> Narrow(x, y).ub == y.ub)
  {
  }

  /** Each bound of `z` is that of `x` or infinite. */
  predicate GivesUp(x: Interval, z: Interval) {
    (z.lb == x.lb || z.lb.MinusInf?) && (z.ub == x.ub || z.ub.PlusInf?)
  }

  /** Widening gives up no more bounds than it must: the result is the least interval above both
      whose bounds are those of the first or infinite. */
  lemma WidenIsLeast(x: Interval, y: Interval)
    ensures x.IsBottom() ==> Widen(x, y) == y
    ensures !x.IsBottom() ==>
      && x.Leq(Widen(x, y)) && y.Leq(Widen(x, y)) && GivesUp(x, Widen(x, y))
      && forall z: Interval :: x.Leq(z) && y.Leq(z) && GivesUp(x, z) ==> Widen(x, y).Leq(z)
  {
  }

  /** An interval object, updated in place by the lattice operations. The other operand may be
      the same object. Each read of a bound through `GetLb`/`GetUb` asserts non-emptiness. */
  class IntervalValue {
    var lb: Num
    var ub: Num

    constructor (lb: Num, ub: Num)
      ensures Value() == Interval(lb, ub)
    {
      this.lb, this.ub := lb, ub;
    }

    function Value(): Interval
      reads this
    {
      Interval(lb, ub)
    }

    function GetLb(): (r: Num)
      reads this
      requires !Value().IsBottom()
    {
      lb
    }

    function GetUb(): (r: Num)
      reads this
      requires !Value().IsBottom()
    {
      ub
    }

    method SetToBottom()
      modifies this
      ensures Value() == BOTTOM
    {
      lb, ub := Fin(1), Fin(0);
    }

    method JoinWith(other: IntervalValue)
      modifies this
      ensures Value() == Join(old(Value()), old(other.Value()))
    {
      if Value().IsBottom() {
        if other.Value().IsBottom() {
          return;
        } else {
          lb := other.GetLb();
          ub := other.GetUb();
        }
      } else if other.Value().IsBottom() {
        return;
      } else {
        lb := GetLb().Min(other.GetLb());
        ub := GetUb().Max(other.GetUb());
      }
    }

    method WidenWith(other: IntervalValue)
      modifies this
      ensures Value() == Widen(old(Value()), old(other.Value()))
    {
      if Value().IsBottom() {
        lb := other.lb;
        ub := other.ub;
      } else if other.Value().IsBottom() {
        return;
      } else {
        lb := if !GetLb().Leq(other.GetLb()) then MinusInf else GetLb();
        ub := if !GetUb().Geq(other.GetUb()) then PlusInf else GetUb();
      }
    }

    /** Reports whether the second read trips its assertion; if so, the interval is left half
        narrowed. */
    method NarrowWith(other: IntervalValue) returns (tripped: bool)
      modifies this
      ensures tripped <==> !NarrowReads(old(Value()), old(other.Value()))
      ensures !tripped ==> Value() == Narrow(old(Value()), old(other.Value()))
      ensures tripped ==> Value() == HalfNarrowed(old(Value()), old(other.Value())) && Value().IsBottom()
    {
      tripped := false;
      if Value().IsBottom() || other.Value().IsBottom() {
        SetToBottom();
      } else if other.Value().IsBottom() {
        return;
      } else {
        lb := if GetLb().IsInf() then other.lb else lb;
        if Value().IsBottom() {
          return true;
        }
        ub := if GetUb().IsInf() then other.ub else ub;
      }
    }

    method MeetWith(other: IntervalValue)
      modifies this
      ensures Value() == Meet(old(Value()), old(other.Value()))
    {
      if Value().IsBottom() || other.Value().IsBottom() {
        SetToBottom();
      } else {
        lb := lb.Max(other.GetLb());
        ub := ub.Min(other.GetUb());
        if Value().IsBottom() {
          SetToBottom();
        }
      }
    }
  }

  // What the lattice operations mean on the integers the intervals stand for.

  /** A well-formed interval is empty exactly when it stands for no integer. */
  lemma BottomIffEmpty(a: Interval)
    requires a.WellFormed()
    ensures a.IsBottom() <==> forall x :: !a.Contains(x)
  {
    if !a.IsBottom() {
      var x := if a.lb.Fin? then a.lb.n else if a.ub.Fin? then a.ub.n else 0;
      assert a.Contains(x);
    }
  }

  /** The order of intervals is inclusion of the integers they stand for. */
  lemma LeqIffIncluded(a: Interval, b: Interval)
    requires a.WellFormed() && b.WellFormed()
    ensures a.Leq(b) <==> forall x :: a.Contains(x) ==> b.Contains(x)
  {
    if !a.IsBottom() && forall x :: a.Contains(x) ==> b.Contains(x) {
      BottomIffEmpty(a);
      var x :| a.Contains(x);
      assert b.Contains(x);
      if !b.lb.Leq(a.lb) {
        var y := if a.lb.Fin? then a.lb.n else if b.lb.Fin? && b.lb.n - 1 < x then b.lb.n - 1 else x;
        assert a.Contains(y);
      }
      if !a.ub.Leq(b.ub) {
        var y := if a.ub.Fin? then a.ub.n else if b.ub.Fin? && b.ub.n + 1 > x then b.ub.n + 1 else x;
        assert a.Contains(y);
      }
    }
  }

  /** Equality of intervals is that of the integers they stand for. */
  lemma EqualsIffSame(a: Interval, b: Interval)
    requires a.WellFormed() && b.WellFormed()
    ensures a.Equals(b) <==> forall x :: a.Contains(x) <==> b.Contains(x)
  {
    LeqIffIncluded(a, b);
    LeqIffIncluded(b, a);
  }

  /** `Join` is the least upper bound. */
  lemma JoinIsLeast(a: Interval, b: Interval, c: Interval)
    ensures a.Leq(Join(a, b)) && b.Leq(Join(a, b))
    ensures a.Leq(c) && b.Leq(c) ==> Join(a, b).Leq(c)
    ensures a.WellFormed() && b.WellFormed() ==> Join(a, b).WellFormed()
  {
  }

  /** `Meet` stands for exactly the integers in both intervals. */
  lemma MeetIsIntersection(a: Interval, b: Interval, x: int)
    ensures Meet(a, b).Contains(x) <==> a.Contains(x) && b.Contains(x)
  {
  }
}
