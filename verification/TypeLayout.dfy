/** Nested types, their flattened element lists, and the offsets of their parts. */
module TypeLayout {
  import Arithmetic

  /** `Scalar` stands for every type that is neither aggregate nor vector. */
  datatype Type =
    | Scalar(id: nat)
    | Vector(lane: nat)
    | Struct(fields: seq<Type>)
    | Array(n: nat, elem: Type)

  predicate IsAggregate(t: Type) {
    t.Struct? || t.Array?
  }

  function Repeat<T>(s: seq<T>, n: nat): (r: seq<T>)
    ensures |r| == n * |s|
  {
    if n == 0 then [] else
      assert n * |s| == (n - 1) * |s| + |s|;
      Repeat(s, n - 1) + s
  }

  /** The product of the dimensions of an array of arrays. */
  function Total(t: Type): nat {
    if t.Array? then t.n * Total(t.elem) else 1
  }

  /** The element below all array dimensions. */
  function Inner(t: Type): Type {
    if t.Array? then Inner(t.elem) else t
  }

  /** The flattened element types: an array repeats its immediate element, a struct concatenates
      its fields. An array without elements counts one dummy element. */
  function Flat(t: Type): seq<Type>
    decreases t
  {
    match t
    case Struct(fields) => FlatAll(fields)
    case Array(n, elem) => if Total(t) == 0 then [Inner(t)] else Repeat(Flat(elem), n)
    case _ => [t]
  }

  function FlatAll(fields: seq<Type>): seq<Type>
    decreases fields
  {
    if fields == [] then [] else Flat(fields[0]) + FlatAll(fields[1..])
  }

  /** The flattened field types: like elements, but an array counts its element once. */
  function FlatFields(t: Type): seq<Type>
    decreases t
  {
    match t
    case Struct(fields) => FlatFieldsAll(fields)
    case Array(_, elem) => if Total(t) == 0 then [Inner(t)] else FlatFields(elem)
    case _ => [t]
  }

  function FlatFieldsAll(fields: seq<Type>): seq<Type>
    decreases fields
  {
    if fields == [] then [] else FlatFields(fields[0]) + FlatFieldsAll(fields[1..])
  }

  /** No array, at any depth, has zero elements. */
  predicate NoZeroArrays(t: Type)
    decreases t
  {
    match t
    case Struct(fields) => forall f :: f in fields ==> NoZeroArrays(f)
    case Array(n, elem) => n > 0 && NoZeroArrays(elem)
    case _ => true
  }

  function Parts(t: Type): nat {
    match t
    case Struct(fields) => |fields|
    case Array(n, _) => n
    case _ => 0
  }

  function Part(t: Type, i: nat): Type
    requires i < Parts(t)
  {
    if t.Struct? then t.fields[i] else t.elem
  }

  /** Where part `i` starts in the flattened list. */
  function PartOffset(t: Type, i: nat): nat
    requires i < Parts(t)
  {
    if t.Struct? then |FlatAll(t.fields[..i])| else i * |Flat(t.elem)|
  }

  // Flattening arrays of arrays.

  lemma MulAssoc(a: nat, b: nat, c: nat)
    ensures a * (b * c) == (a * b) * c
  {
  }

  lemma {:induction false} RepeatAdd<T>(s: seq<T>, m: nat, n: nat)
    ensures Repeat(s, m + n) == Repeat(s, m) + Repeat(s, n)
    decreases n
  {
    if n > 0 {
      RepeatAdd(s, m, n - 1);
      assert m + n - 1 == m + (n - 1);
    }
  }

  lemma {:induction false} RepeatRepeat<T>(s: seq<T>, m: nat, n: nat)
    ensures Repeat(Repeat(s, m), n) == Repeat(s, n * m)
    decreases n
  {
    if n > 0 {
      RepeatRepeat(s, m, n - 1);
      assert n * m == (n - 1) * m + m;
      RepeatAdd(s, (n - 1) * m, m);
    }
  }

  /** Peeling all dimensions at once gives the same list as repeating the immediate element. */
  lemma {:induction false} PeelAll(t: Type)
    requires Total(t) != 0
    ensures Flat(t) == Repeat(Flat(Inner(t)), Total(t))
    ensures FlatFields(t) == FlatFields(Inner(t))
  {
    if t.Array? {
      PeelAll(t.elem);
      RepeatRepeat(Flat(Inner(t)), Total(t.elem), t.n);
    } else {
      assert Repeat(Flat(t), 1) == Flat(t) by { assert Repeat(Flat(t), 0) == []; }
    }
  }

  /** The recorded index of array element `i` is `i` times the size of one element. */
  lemma ArrayIndex(t: Type, i: nat)
    requires t.Array? && Total(t) != 0
    ensures (i * |Flat(Inner(t))| * Total(t)) / t.n == i * |Flat(t.elem)|
  {
    var nfE, rest, n := |Flat(Inner(t))|, Total(t.elem), t.n;
    PeelAll(t.elem);
    assert |Flat(t.elem)| == rest * nfE && Total(t) == n * rest;
    Regroup(i, nfE, n, rest);
    ExactQuotient(i * (rest * nfE), n);
  }

  lemma Regroup(i: nat, e: nat, n: nat, rest: nat)
    ensures i * e * (n * rest) == i * (rest * e) * n
  {
    MulAssoc(i * e, n, rest);
    MulAssoc(i, rest, e);
    var ie := i * e;
    assert ie * n * rest == ie * rest * n by {
      MulAssoc(ie, n, rest);
      MulAssoc(ie, rest, n);
      assert n * rest == rest * n;
    }
    assert ie * rest == i * rest * e by {
      MulAssoc(i, e, rest);
      assert e * rest == rest * e;
      MulAssoc(i, rest, e);
    }
  }

  lemma ExactQuotient(q: nat, n: nat)
    requires n > 0
    ensures (q * n) / n == q
  {
    Arithmetic.QuotientLeast(q * n, n, q);
    Arithmetic.MulMono(n, q, q + 1);
    Arithmetic.QuotientLeast(q * n, n, q + 1);
  }

  // The parts tile the flattened list.

  lemma {:induction false} FlatAllConcat(a: seq<Type>, b: seq<Type>)
    ensures FlatAll(a + b) == FlatAll(a) + FlatAll(b)
  {
    if a == [] {
      assert a + b == b;
    } else {
      assert (a + b)[1..] == a[1..] + b;
      FlatAllConcat(a[1..], b);
    }
  }

  lemma FlatAllOne(t: Type)
    ensures FlatAll([t]) == Flat(t)
  {
    assert [t][1..] == [];
  }

  lemma SplitAt(fields: seq<Type>, i: nat)
    requires i < |fields|
    ensures fields == fields[..i + 1] + fields[i + 1..] && fields[..i + 1] == fields[..i] + [fields[i]]
  {
  }

  lemma FlatAllAt(fields: seq<Type>, i: nat)
    requires i < |fields|
    ensures FlatAll(fields) == FlatAll(fields[..i]) + Flat(fields[i]) + FlatAll(fields[i + 1..])
    ensures FlatAll(fields[..i + 1]) == FlatAll(fields[..i]) + Flat(fields[i])
  {
    hide FlatAll, Flat;
    SplitAt(fields, i);
    FlatAllConcat(fields[..i + 1], fields[i + 1..]);
    FlatAllConcat(fields[..i], [fields[i]]);
    FlatAllOne(fields[i]);
  }

  lemma RepeatAt<T>(s: seq<T>, n: nat, i: nat)
    requires i < n
    ensures Repeat(s, n) == Repeat(s, i) + s + Repeat(s, n - i - 1)
    ensures (i + 1) * |s| == i * |s| + |s|
  {
    RepeatAdd(s, i + 1, n - i - 1);
    assert (i + 1) + (n - i - 1) == n;
  }

  /** Part `i` occupies its slice of the flattened list. */
  lemma PartSlice(t: Type, i: nat)
    requires i < Parts(t) && (t.Array? ==> Total(t) != 0)
    ensures PartOffset(t, i) + |Flat(Part(t, i))| <= |Flat(t)|
    ensures Flat(t)[PartOffset(t, i)..PartOffset(t, i) + |Flat(Part(t, i))|] == Flat(Part(t, i))
    ensures i + 1 < Parts(t) ==> PartOffset(t, i + 1) == PartOffset(t, i) + |Flat(Part(t, i))|
    ensures i + 1 == Parts(t) ==> |Flat(t)| == PartOffset(t, i) + |Flat(Part(t, i))|
  {
    if t.Struct? {
      FlatAllAt(t.fields, i);
      if i + 1 == |t.fields| {
        assert t.fields[..i + 1] == t.fields;
      }
    } else {
      RepeatAt(Flat(t.elem), t.n, i);
      if i + 1 == t.n {
        assert Repeat(Flat(t.elem), 0) == [];
      }
    }
  }

  lemma {:induction false} NonZeroTotal(t: Type)
    requires NoZeroArrays(t)
    ensures Total(t) != 0
  {
    if t.Array? {
      NonZeroTotal(t.elem);
    }
  }

  lemma PartNoZero(t: Type, i: nat)
    requires NoZeroArrays(t) && i < Parts(t)
    ensures NoZeroArrays(Part(t, i)) && (t.Array? ==> Total(t) != 0)
  {
    NonZeroTotal(t);
  }

  /** Parts come one after the other. */
  lemma {:induction false} PartsOrdered(t: Type, i: nat, j: nat)
    requires i < j < Parts(t) && (t.Array? ==> Total(t) != 0)
    ensures PartOffset(t, i) + |Flat(Part(t, i))| <= PartOffset(t, j)
    decreases j
  {
    PartSlice(t, i);
    if i + 1 < j {
      PartsOrdered(t, i, j - 1);
      PartSlice(t, j - 1);
    }
  }

  /** Every flattened position of an aggregate lies in one of its parts. */
  lemma PartCovering(t: Type, k: nat) returns (i: nat)
    requires IsAggregate(t) && k < |Flat(t)| && (t.Array? ==> Total(t) != 0)
    ensures i < Parts(t) && PartOffset(t, i) <= k < PartOffset(t, i) + |Flat(Part(t, i))|
  {
    i := 0;
    assert PartOffset(t, 0) == 0 by { if t.Struct? { assert t.fields[..0] == []; } }
    PartSlice(t, 0);
    while k >= PartOffset(t, i) + |Flat(Part(t, i))|
      invariant i < Parts(t) && PartOffset(t, i) <= k
      decreases Parts(t) - i
    {
      PartSlice(t, i);
      i := i + 1;
    }
  }

  // Leaves.

  /** The index paths that end at a non-aggregate. */
  predicate LeafPath(t: Type, p: seq<nat>)
    decreases t
  {
    match t
    case Struct(fields) => p != [] && p[0] < |fields| && LeafPath(fields[p[0]], p[1..])
    case Array(n, elem) => p != [] && p[0] < n && LeafPath(elem, p[1..])
    case _ => p == []
  }

  function LeafType(t: Type, p: seq<nat>): Type
    requires LeafPath(t, p)
    decreases t
  {
    match t
    case Struct(fields) => LeafType(fields[p[0]], p[1..])
    case Array(n, elem) => LeafType(elem, p[1..])
    case _ => t
  }

  /** The sum of the recorded element offsets along a path. */
  function PathOffset(t: Type, p: seq<nat>): nat
    requires LeafPath(t, p)
    decreases t
  {
    match t
    case Struct(fields) => PartOffset(t, p[0]) + PathOffset(fields[p[0]], p[1..])
    case Array(n, elem) => PartOffset(t, p[0]) + PathOffset(elem, p[1..])
    case _ => 0
  }

  /** Leaf paths do not enter arrays without elements. */
  lemma {:induction false} LeafTotal(t: Type, p: seq<nat>)
    requires LeafPath(t, p)
    ensures Total(t) != 0
  {
    if t.Array? {
      LeafTotal(t.elem, p[1..]);
    }
  }

  /** A leaf path leads to a position of the flattened list, and that position has the leaf's type. */
  lemma {:induction false} LeafInRange(t: Type, p: seq<nat>)
    requires LeafPath(t, p)
    ensures PathOffset(t, p) < |Flat(t)| && Flat(t)[PathOffset(t, p)] == LeafType(t, p)
    decreases t
  {
    if IsAggregate(t) {
      var i := p[0];
      LeafTotal(t, p);
      PartSlice(t, i);
      LeafInRange(Part(t, i), p[1..]);
      var o, q := PartOffset(t, i), PathOffset(Part(t, i), p[1..]);
      assert Flat(t)[o..o + |Flat(Part(t, i))|][q] == Flat(t)[o + q];
    }
  }

  /** Paths to one position take the same first step. */
  lemma LeafFirstStep(t: Type, p: seq<nat>, i: nat, k: nat)
    requires LeafPath(t, p) && IsAggregate(t) && i < Parts(t) && k < |Flat(Part(t, i))|
    requires PathOffset(t, p) == PartOffset(t, i) + k
    ensures p[0] == i && PathOffset(Part(t, i), p[1..]) == k
  {
    LeafTotal(t, p);
    LeafInRange(Part(t, p[0]), p[1..]);
    if p[0] < i {
      PartsOrdered(t, p[0], i);
    } else if i < p[0] {
      PartsOrdered(t, i, p[0]);
    }
  }

  /** Different leaf paths lead to different positions. */
  lemma {:induction false} LeafInjective(t: Type, p: seq<nat>, q: seq<nat>)
    requires LeafPath(t, p) && LeafPath(t, q) && PathOffset(t, p) == PathOffset(t, q)
    ensures p == q
    decreases t
  {
    if IsAggregate(t) {
      LeafInRange(Part(t, q[0]), q[1..]);
      LeafFirstStep(t, p, q[0], PathOffset(Part(t, q[0]), q[1..]));
      LeafInjective(Part(t, p[0]), p[1..], q[1..]);
      assert p == [p[0]] + p[1..] && q == [q[0]] + q[1..];
    }
  }

  /** Without zero-length arrays, every position of the flattened list is the offset of a leaf path. */
  lemma {:induction false} LeafSurjective(t: Type, k: nat) returns (p: seq<nat>)
    requires NoZeroArrays(t) && k < |Flat(t)|
    ensures LeafPath(t, p) && PathOffset(t, p) == k
    decreases t
  {
    if IsAggregate(t) {
      NonZeroTotal(t);
      var i := PartCovering(t, k);
      PartNoZero(t, i);
      var rest := LeafSurjective(Part(t, i), k - PartOffset(t, i));
      p := [i] + rest;
      assert p[1..] == rest;
    } else {
      p := [];
    }
  }

  /** The dummy element of an array without elements is at the end of no leaf path. */
  lemma {:induction false} DummyPosition(t: Type) returns (k: nat)
    requires !NoZeroArrays(t)
    ensures k < |Flat(t)| && forall p :: LeafPath(t, p) ==> PathOffset(t, p) != k
    decreases t
  {
    if t.Array? && Total(t) == 0 {
      k := 0;
      forall p ensures !LeafPath(t, p) {
        if LeafPath(t, p) {
          LeafTotal(t, p);
        }
      }
    } else {
      var i := if t.Array? then 0 else FieldWithZeroArray(t.fields);
      PartSlice(t, i);
      var rest := DummyPosition(Part(t, i));
      k := PartOffset(t, i) + rest;
      forall p | LeafPath(t, p) ensures PathOffset(t, p) != k {
        if PathOffset(t, p) == k {
          LeafFirstStep(t, p, i, rest);
        }
      }
    }
  }

  ghost function FieldWithZeroArray(fields: seq<Type>): (i: nat)
    requires exists f :: f in fields && !NoZeroArrays(f)
    ensures i < |fields| && !NoZeroArrays(fields[i])
  {
    var f :| f in fields && !NoZeroArrays(f);
    var i: nat :| i < |fields| && fields[i] == f;
    i
  }

  /** Some leaf path leads to position `k`. */
  ghost predicate IsLeaf(t: Type, k: nat) {
    exists p :: LeafPath(t, p) && PathOffset(t, p) == k
  }

  /** The leaf paths reach all positions exactly when no array has zero elements. */
  lemma LeavesCoverIff(t: Type)
    ensures NoZeroArrays(t) <==> forall k: nat :: k < |Flat(t)| ==> IsLeaf(t, k)
  {
    if NoZeroArrays(t) {
      forall k: nat | k < |Flat(t)| ensures IsLeaf(t, k) {
        var p := LeafSurjective(t, k);
      }
    } else {
      var k := DummyPosition(t);
      assert !IsLeaf(t, k);
    }
  }
}
