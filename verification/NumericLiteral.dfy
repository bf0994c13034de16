/** Integers extended with two infinities, with the order and arithmetic of the interval bounds. */
module NumericLiteral {
  import opened Arithmetic

  datatype Num = MinusInf | Fin(n: int) | PlusInf {

    predicate IsInf() {
      MinusInf? || PlusInf?
    }

    predicate IsZero() {
      this == Fin(0)
    }

    predicate Leq(rhs: Num) {
      if IsInf() != rhs.IsInf() then
        (if IsInf() then MinusInf? else rhs.PlusInf?)
      else if IsInf() then
        (if MinusInf? then true else rhs.PlusInf?)
      else n <= rhs.n
    }

    predicate Geq(rhs: Num) {
      if IsInf() != rhs.IsInf() then
        (if IsInf() then PlusInf? else rhs.MinusInf?)
      else if IsInf() then
        (if PlusInf? then true else rhs.MinusInf?)
      else n >= rhs.n
    }

    function Neg(): Num {
      match this
      case PlusInf => MinusInf
      case MinusInf => PlusInf
      case Fin(n) => Fin(-n)
    }

    /** Opposite infinities have no sum: the source aborts there. */
    function Add(rhs: Num): Num
      requires IsInf() && rhs.IsInf() ==> this == rhs
    {
      if !IsInf() && !rhs.IsInf() then Fin(n + rhs.n)
      else if !IsInf() then rhs
      else this
    }

    function Sub(rhs: Num): Num
      requires IsInf() && rhs.IsInf() ==> this != rhs
    {
      if !IsInf() && !rhs.IsInf() then Fin(n - rhs.n)
      else if !IsInf() then rhs.Neg()
      else this
    }

    function Mul(rhs: Num): Num {
      if IsZero() || rhs.IsZero() then Fin(0)
      else if IsInf() && rhs.IsInf() then (if this == rhs then PlusInf else MinusInf)
      else if IsInf() then (if !rhs.Leq(Fin(0)) then this else Neg())
      else if rhs.IsInf() then (if !Leq(Fin(0)) then rhs else rhs.Neg())
      else Fin(n * rhs.n)
    }

    /** Integer division keeps a non-negative remainder. Division by zero aborts in the source. */
    function Div(rhs: Num): Num
      requires !rhs.IsZero()
    {
      if !IsInf() && !rhs.IsInf() then Fin(n / rhs.n)
      else if !IsInf() then Fin(0)
      else if !rhs.IsInf() then (if !rhs.Leq(Fin(0)) then this else Neg())
      else if this == rhs then PlusInf else MinusInf
    }

    function Min(rhs: Num): Num {
      if Leq(rhs) then this else rhs
    }

    function Max(rhs: Num): Num {
      if Leq(rhs) then rhs else this
    }
  }

  /** The least element of a list; of an empty list, plus infinity. */
  method MinOf(l: seq<Num>) returns (ret: Num)
    ensures forall i :: 0 <= i < |l| ==> ret.Leq(l[i])
    ensures ret in l || (l == [] && ret == PlusInf)
  {
    ret := PlusInf;
    for k := 0 to |l|
      invariant forall i :: 0 <= i < k ==> ret.Leq(l[i])
      invariant ret in l || ret == PlusInf
      invariant k > 0 && ret == PlusInf ==> ret in l
    {
      if l[k].MinusInf? {
        return MinusInf;
      } else if !l[k].Geq(ret) {
        ret := l[k];
      }
    }
  }

  /** The greatest element of a list; of an empty list, minus infinity. */
  method MaxOf(l: seq<Num>) returns (ret: Num)
    ensures forall i :: 0 <= i < |l| ==> l[i].Leq(ret)
    ensures ret in l || (l == [] && ret == MinusInf)
  {
    ret := MinusInf;
    for k := 0 to |l|
      invariant forall i :: 0 <= i < k ==> l[i].Leq(ret)
      invariant ret in l || ret == MinusInf
      invariant k > 0 && ret == MinusInf ==> ret in l
    {
      if l[k].PlusInf? {
        return PlusInf;
      } else if !l[k].Leq(ret) {
        ret := l[k];
      }
    }
  }

  /** `v` lies between the two ends, whichever is the smaller. */
  predicate Between(v: Num, p: Num, q: Num) {
    p.Min(q).Leq(v) && v.Leq(p.Max(q))
  }

  /** Multiplication by a fixed extended factor takes a value between two bounds to a value
      between the products of the bounds. */
  lemma MulBetween(e: Num, c: Num, y: int, d: Num)
    requires c.Leq(Fin(y)) && Fin(y).Leq(d)
    ensures Between(e.Mul(Fin(y)), e.Mul(c), e.Mul(d))
  {
    if e.Fin? {
      FiniteMulBetween(e.n, c, y, d);
    }
  }

  lemma FiniteMulBetween(e: int, c: Num, y: int, d: Num)
    requires c.Leq(Fin(y)) && Fin(y).Leq(d)
    ensures Between(Fin(e * y), Fin(e).Mul(c), Fin(e).Mul(d))
  {
    if c.Fin? { MulMono(e, c.n, y); }
    if d.Fin? { MulMono(e, y, d.n); }
  }

  lemma MulComm(a: Num, b: Num)
    ensures a.Mul(b) == b.Mul(a)
  {
    if a.Fin? && b.Fin? {
      assert a.n * b.n == b.n * a.n;
    }
  }

  /** Division of a value between two bounds by a fixed divisor. */
  lemma DivBetweenNumerators(a: Num, x: int, b: Num, y: int)
    requires a.Leq(Fin(x)) && Fin(x).Leq(b) && y != 0
    ensures Between(Fin(x / y), a.Div(Fin(y)), b.Div(Fin(y)))
  {
    var d := if y > 0 then y else -y;
    if y < 0 {
      DivNegDivisor(x, y);
      if a.Fin? { DivNegDivisor(a.n, y); }
      if b.Fin? { DivNegDivisor(b.n, y); }
    }
    if a.Fin? { DivMonoNumerator(a.n, x, d); }
    if b.Fin? { DivMonoNumerator(x, b.n, d); }
  }

  /** Division of a fixed extended numerator by divisors of one sign. */
  lemma DivBetweenDivisors(e: Num, c: Num, y: int, d: Num)
    requires c.Leq(Fin(y)) && Fin(y).Leq(d) && c != PlusInf && d != MinusInf
    requires !(c.Leq(Fin(0)) && Fin(0).Leq(d))
    ensures Between(e.Div(Fin(y)), e.Div(c), e.Div(d))
  {
    if e.Fin? {
      if y > 0 {
        DivMonoDivisor(e.n, c.n, y);
        if d.Fin? { DivMonoDivisor(e.n, y, d.n); }
      } else {
        DivNegDivisor(e.n, y);
        DivNegDivisor(e.n, d.n);
        DivMonoDivisor(e.n, -d.n, -y);
        if c.Fin? {
          DivNegDivisor(e.n, c.n);
          DivMonoDivisor(e.n, -y, -c.n);
        }
      }
    }
  }
}
