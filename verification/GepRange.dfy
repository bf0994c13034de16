/** What the summed offset of an address computation means, and when it is in range. */
module GepRange {
  import Arithmetic
  import opened GepOffset
  import opened TypeLayout

  /** The part an index selects. */
  function Selection(t: Type, i: Index): Type
    requires IsAggregate(t) && ValidStep(t, i)
  {
    Below(t, i).value
  }

  lemma {:induction false} LanesAddNothing(lane: nat, idx: seq<Index>)
    requires ValidWalk(Scalar(lane), idx)
    ensures idx == []
  {
  }

  /** Away from aggregates no index moves. */
  lemma NoPartsNoOffset(t: Type, idx: seq<Index>)
    requires ValidWalk(t, idx) && (idx == [] || !IsAggregate(t))
    ensures TargetOffset(t, idx) == 0 && Target(t, idx) == t
  {
    if idx != [] {
      LanesAddNothing(t.lane, idx[1..]);
    }
  }

  /** With elements at all dimensions, an index selects part `i` at its slice. */
  lemma SelectedPart(t: Type, op: Index) returns (i: nat)
    requires IsAggregate(t) && ValidStep(t, op) && Total(t) != 0
    ensures i < Parts(t) && Selected(t, op) == PartOffset(t, i) && Selection(t, op) == Part(t, i)
    ensures i == if t.Struct? then op.v else Element(t.n, op)
  {
    i := if t.Struct? then op.v else Element(t.n, op);
  }

  lemma SubSlice<T>(s: seq<T>, o: nat, m: nat, p: nat, n: nat)
    requires o + m <= |s| && p + n <= m
    ensures s[o..o + m][p..p + n] == s[o + p..o + p + n]
  {
    var a, b := s[o..o + m][p..p + n], s[o + p..o + p + n];
    forall k | 0 <= k < n ensures a[k] == b[k] {
      assert a[k] == s[o..o + m][p + k] == s[o + (p + k)];
    }
  }

  // The range of the offset, for all types.

  /** The largest number of an element that a constant index can count as. */
  function LastElement(n: nat): nat {
    if n == 0 then 0 else if n <= 0x1_0000_0000 then n - 1 else 0xffff_ffff
  }

  /** The largest offset of a type's index lists. */
  function MaxOffset(t: Type): nat
    decreases t, 1, 0
  {
    match t
    case Struct(fields) => MaxField(t, |fields|)
    case Array(n, elem) => (if Total(t) == 0 then 0 else PartOffset(t, LastElement(n))) + MaxOffset(elem)
    case _ => 0
  }

  /** The largest offset into one of the first `k` fields. */
  function MaxField(t: Type, k: nat): nat
    requires t.Struct? && k <= |t.fields|
    decreases t, 0, k
  {
    if k == 0 then 0 else
      var here, before := PartOffset(t, k - 1) + MaxOffset(t.fields[k - 1]), MaxField(t, k - 1);
      if before <= here then here else before
  }

  lemma {:induction false} MaxFieldCovers(t: Type, k: nat, i: nat)
    requires t.Struct? && i < k <= |t.fields|
    ensures PartOffset(t, i) + MaxOffset(t.fields[i]) <= MaxField(t, k)
    decreases k
  {
    if i < k - 1 {
      MaxFieldCovers(t, k - 1, i);
    }
  }

  lemma SelectedAtMost(t: Type, op: Index)
    requires IsAggregate(t) && ValidStep(t, op)
    ensures Selected(t, op) + MaxOffset(Selection(t, op)) <= MaxOffset(t)
  {
    if t.Struct? {
      MaxFieldCovers(t, |t.fields|, op.v);
    } else if Total(t) != 0 {
      Arithmetic.MulMono(|Flat(t.elem)|, Element(t.n, op), LastElement(t.n));
    }
  }

  lemma {:induction false} OffsetAtMost(t: Type, idx: seq<Index>)
    requires ValidWalk(t, idx)
    ensures TargetOffset(t, idx) <= MaxOffset(t)
    decreases idx
  {
    hide MaxOffset, Selected;
    if idx != [] && IsAggregate(t) {
      SelectedAtMost(t, idx[0]);
      OffsetAtMost(Selection(t, idx[0]), idx[1..]);
    } else {
      NoPartsNoOffset(t, idx);
    }
  }

  lemma StepFirst(t: Type, op: Index, rest: seq<Index>)
    requires IsAggregate(t) && ValidStep(t, op) && ValidWalk(Selection(t, op), rest)
    ensures ValidWalk(t, [op] + rest) && Target(t, [op] + rest) == Target(Selection(t, op), rest)
    ensures TargetOffset(t, [op] + rest) == Selected(t, op) + TargetOffset(Selection(t, op), rest)
  {
    assert ([op] + rest)[1..] == rest;
  }

  lemma {:induction false} OffsetAttained(t: Type) returns (idx: seq<Index>)
    ensures ValidWalk(t, idx) && TargetOffset(t, idx) == MaxOffset(t)
    decreases t, if t.Struct? then |t.fields| + 1 else 0
  {
    idx := [];
    if t.Struct? {
      idx := FieldAttained(t, |t.fields|);
    } else if t.Array? {
      var rest := OffsetAttained(t.elem);
      var op := Const(if Total(t) == 0 then 0 else LastElement(t.n));
      idx := [op] + rest;
      StepFirst(t, op, rest);
    }
  }

  lemma {:induction false} FieldAttained(t: Type, k: nat) returns (idx: seq<Index>)
    requires t.Struct? && k <= |t.fields|
    ensures ValidWalk(t, idx) && TargetOffset(t, idx) == MaxField(t, k)
    decreases t, k
  {
    idx := [];
    if k > 0 {
      idx := FieldAttained(t, k - 1);
      if MaxField(t, k) != MaxField(t, k - 1) {
        var rest := OffsetAttained(t.fields[k - 1]);
        idx := [Const(k - 1)] + rest;
        StepFirst(t, Const(k - 1), rest);
      }
    }
  }

  /** The offset is below the element count for every valid index list exactly when the largest
      offset is. */
  lemma InRangeIff(t: Type)
    ensures MaxOffset(t) < |Flat(t)| <==> forall idx :: ValidWalk(t, idx) ==> TargetOffset(t, idx) < |Flat(t)|
  {
    if MaxOffset(t) < |Flat(t)| {
      forall idx | ValidWalk(t, idx) ensures TargetOffset(t, idx) < |Flat(t)| {
        OffsetAtMost(t, idx);
      }
    } else {
      var idx := OffsetAttained(t);
    }
  }

  // What the offset addresses.

  /** The selected part's list stands in the type's own list where the index moves to. */
  ghost predicate PartInPlace(t: Type, i: Index)
    requires IsAggregate(t) && ValidStep(t, i)
  {
    var o, part := Selected(t, i), Flat(Selection(t, i));
    o + |part| <= |Flat(t)| && Flat(t)[o..o + |part|] == part
  }

  /** Where a dimension is 0, the element's list is no more than the one dummy element recorded for
      the array. This is so for elements that are no aggregates, as for `[0 x i8]`. */
  predicate Consistent(t: Type)
    decreases t
  {
    match t
    case Struct(fields) => forall f :: f in fields ==> Consistent(f)
    case Array(_, elem) => Consistent(elem) && (Total(t) == 0 ==> Flat(elem) <= [Inner(t)])
    case _ => true
  }

  lemma {:induction false} NoZeroArraysConsistent(t: Type)
    requires NoZeroArrays(t)
    ensures Consistent(t)
    decreases t
  {
    if t.Struct? {
      forall f | f in t.fields ensures Consistent(f) {
        NoZeroArraysConsistent(f);
      }
    } else if t.Array? {
      NonZeroTotal(t);
      NoZeroArraysConsistent(t.elem);
    }
  }

  lemma StepInPlace(t: Type, op: Index)
    requires Consistent(t) && IsAggregate(t) && ValidStep(t, op)
    ensures PartInPlace(t, op) && Consistent(Selection(t, op))
  {
    if Total(t) != 0 {
      var i := SelectedPart(t, op);
      PartSlice(t, i);
    }
  }

  lemma {:induction false} TargetConsistent(t: Type, idx: seq<Index>)
    requires Consistent(t) && ValidWalk(t, idx)
    ensures Consistent(Target(t, idx))
    decreases idx
  {
    if idx != [] && IsAggregate(t) {
      StepInPlace(t, idx[0]);
      TargetConsistent(Selection(t, idx[0]), idx[1..]);
    } else {
      NoPartsNoOffset(t, idx);
    }
  }

  lemma {:induction false} Misplaced(t: Type) returns (idx: seq<Index>, op: Index)
    requires !Consistent(t)
    ensures ValidWalk(t, idx) && IsAggregate(Target(t, idx)) && ValidStep(Target(t, idx), op)
    ensures !PartInPlace(Target(t, idx), op)
    decreases t
  {
    if t.Array? && Consistent(t.elem) {
      idx, op := [], Const(0);
    } else {
      var i: nat := 0;
      if t.Struct? {
        i :| i < |t.fields| && !Consistent(t.fields[i]);
      }
      var first := Const(i);
      idx, op := Misplaced(Selection(t, first));
      StepFirst(t, first, idx);
      idx := [first] + idx;
    }
  }

  /** A type is consistent exactly when every part of every aggregate within it stands where the
      index that selects it moves to. */
  lemma ConsistentIffInPlace(t: Type)
    ensures Consistent(t) <==> forall idx, op ::
      ValidWalk(t, idx) && IsAggregate(Target(t, idx)) && ValidStep(Target(t, idx), op) ==>
        PartInPlace(Target(t, idx), op)
  {
    if Consistent(t) {
      forall idx, op | ValidWalk(t, idx) && IsAggregate(Target(t, idx)) && ValidStep(Target(t, idx), op)
        ensures PartInPlace(Target(t, idx), op)
      {
        TargetConsistent(t, idx);
        StepInPlace(Target(t, idx), op);
      }
    } else {
      var idx, op := Misplaced(t);
    }
  }

  /** The offset is where the addressed sub-object starts: its flattened list is the slice there. */
  lemma {:induction false} OffsetAddressesTarget(t: Type, idx: seq<Index>)
    requires Consistent(t) && ValidWalk(t, idx)
    ensures
      var o, target := TargetOffset(t, idx), Flat(Target(t, idx));
      o + |target| <= |Flat(t)| && Flat(t)[o..o + |target|] == target
    decreases idx
  {
    hide Flat, Selected, Consistent;
    if idx != [] && IsAggregate(t) {
      StepInPlace(t, idx[0]);
      var part := Selection(t, idx[0]);
      OffsetAddressesTarget(part, idx[1..]);
      var n := |Flat(Target(part, idx[1..]))|;
      SubSlice(Flat(t), Selected(t, idx[0]), |Flat(part)|, TargetOffset(part, idx[1..]), n);
    } else {
      NoPartsNoOffset(t, idx);
    }
  }

  /** The offset stays below the element count whenever it addresses a non-empty sub-object. */
  lemma OffsetInRange(t: Type, idx: seq<Index>)
    requires Consistent(t) && ValidWalk(t, idx) && Flat(Target(t, idx)) != []
    ensures TargetOffset(t, idx) < |Flat(t)|
  {
    OffsetAddressesTarget(t, idx);
  }

  /** Nothing follows the part an index selects: all later parts are empty. In an array without
      elements, only a dummy that the element does not fill would follow. */
  predicate LaterPartsEmpty(t: Type, op: Index)
    requires IsAggregate(t) && ValidStep(t, op)
  {
    if Total(t) == 0 then Flat(t.elem) != [] else
      var i := if t.Struct? then op.v else Element(t.n, op);
      forall j :: i < j < Parts(t) ==> Flat(Part(t, j)) == []
  }

  lemma {:induction false} EmptyToTheEnd(t: Type, i: nat)
    requires i < Parts(t) && (t.Array? ==> Total(t) != 0)
    ensures (forall j :: i < j < Parts(t) ==> Flat(Part(t, j)) == []) <==>
      |Flat(t)| == PartOffset(t, i) + |Flat(Part(t, i))|
    decreases Parts(t) - i
  {
    PartSlice(t, i);
    if i + 1 < Parts(t) {
      PartSlice(t, i + 1);
      EmptyToTheEnd(t, i + 1);
    }
  }

  lemma LaterPartsEmptyIff(t: Type, op: Index)
    requires Consistent(t) && IsAggregate(t) && ValidStep(t, op)
    ensures LaterPartsEmpty(t, op) <==> Selected(t, op) + |Flat(Selection(t, op))| == |Flat(t)|
  {
    StepInPlace(t, op);
    if Total(t) != 0 {
      var i := SelectedPart(t, op);
      EmptyToTheEnd(t, i);
    }
  }

  /** The addressed sub-object is empty, and at every level of the walk nothing follows. */
  predicate NothingFollows(t: Type, idx: seq<Index>)
    requires ValidWalk(t, idx)
    decreases idx
  {
    if idx == [] || !IsAggregate(t) then Flat(t) == []
    else LaterPartsEmpty(t, idx[0]) && NothingFollows(Selection(t, idx[0]), idx[1..])
  }

  /** The offset of an index list is out of range exactly when nothing is at it or follows. */
  lemma {:induction false} OutOfRangeIff(t: Type, idx: seq<Index>)
    requires Consistent(t) && ValidWalk(t, idx)
    ensures TargetOffset(t, idx) >= |Flat(t)| <==> NothingFollows(t, idx)
    decreases idx
  {
    hide Flat, Selected, Consistent, LaterPartsEmpty;
    if idx != [] && IsAggregate(t) {
      StepInPlace(t, idx[0]);
      LaterPartsEmptyIff(t, idx[0]);
      OutOfRangeIff(Selection(t, idx[0]), idx[1..]);
      OffsetAddressesTarget(Selection(t, idx[0]), idx[1..]);
    } else {
      NoPartsNoOffset(t, idx);
    }
  }

  /** How much of the list follows the selected part. An array without elements counts its dummy
      element, which what is selected may exceed. */
  function Following(t: Type, op: Index): int
    requires IsAggregate(t) && ValidStep(t, op)
  {
    match t
    case Struct(fields) => |FlatAll(fields[op.v + 1..])|
    case Array(n, elem) =>
      if Total(t) == 0 then 1 - |Flat(elem)| else (n - 1 - Element(n, op)) * |Flat(elem)|
  }

  /** What the addressed sub-object has, and what follows at every level of the walk. */
  function Remaining(t: Type, idx: seq<Index>): int
    requires ValidWalk(t, idx)
    decreases idx
  {
    if idx == [] || !IsAggregate(t) then |Flat(t)|
    else Following(t, idx[0]) + Remaining(Selection(t, idx[0]), idx[1..])
  }

  lemma SelectedAndFollowing(t: Type, op: Index)
    requires IsAggregate(t) && ValidStep(t, op)
    ensures Selected(t, op) + |Flat(Selection(t, op))| + Following(t, op) == |Flat(t)|
  {
    if t.Struct? {
      FlatAllAt(t.fields, op.v);
    } else if Total(t) != 0 {
      RepeatAt(Flat(t.elem), t.n, Element(t.n, op));
    }
  }

  /** For every type, the offset and what remains make up the list, so one index list is out of range
      exactly when nothing remains. */
  lemma {:induction false} OffsetAndRemaining(t: Type, idx: seq<Index>)
    requires ValidWalk(t, idx)
    ensures TargetOffset(t, idx) + Remaining(t, idx) == |Flat(t)|
    ensures TargetOffset(t, idx) >= |Flat(t)| <==> Remaining(t, idx) <= 0
    decreases idx
  {
    hide Flat, Selected, Following;
    if idx != [] && IsAggregate(t) {
      SelectedAndFollowing(t, idx[0]);
      OffsetAndRemaining(Selection(t, idx[0]), idx[1..]);
    } else {
      NoPartsNoOffset(t, idx);
    }
  }

  /** The last part of the last part, and so on, ends in a non-aggregate or in the dummy element of
      an array without elements: nothing empty trails. */
  predicate FillsEnd(t: Type)
    decreases t
  {
    match t
    case Struct(fields) => fields != [] && FillsEnd(fields[|fields| - 1])
    case Array(_, elem) => FillsEnd(elem) || (Total(t) == 0 && Flat(elem) == [])
    case _ => true
  }

  lemma {:induction false} FillsEndNonEmpty(t: Type)
    requires FillsEnd(t)
    ensures Flat(t) != []
  {
    if IsAggregate(t) && Total(t) != 0 {
      var last := Parts(t) - 1;
      PartSlice(t, last);
      FillsEndNonEmpty(Part(t, last));
    }
  }

  lemma {:induction false} FillsEndInRange(t: Type, idx: seq<Index>)
    requires Consistent(t) && FillsEnd(t) && ValidWalk(t, idx)
    ensures !NothingFollows(t, idx)
    decreases idx
  {
    FillsEndNonEmpty(t);
    if idx != [] && IsAggregate(t) {
      StepInPlace(t, idx[0]);
      var last := Parts(t) - 1;
      if Total(t) == 0 {
        if FillsEnd(t.elem) {
          FillsEndInRange(t.elem, idx[1..]);
        }
      } else {
        var i := SelectedPart(t, idx[0]);
        FillsEndNonEmpty(Part(t, last));
        if i == last {
          FillsEndInRange(Part(t, i), idx[1..]);
        }
      }
    }
  }

  /** All array sizes can be written in 32 bits. */
  predicate SizesFit(t: Type)
    decreases t
  {
    match t
    case Struct(fields) => forall f :: f in fields ==> SizesFit(f)
    case Array(n, elem) => n <= 0x1_0000_0000 && SizesFit(elem)
    case _ => true
  }

  /** With a trailing empty part there is an index list that points past the last element. */
  lemma {:induction false} PastTheEnd(t: Type) returns (idx: seq<Index>)
    requires Consistent(t) && SizesFit(t) && !FillsEnd(t)
    ensures ValidWalk(t, idx) && NothingFollows(t, idx)
  {
    if t.Struct? && t.fields == [] {
      idx := [];
    } else {
      var op := Const(if Total(t) == 0 then 0 else Parts(t) - 1);
      assert ValidStep(t, op);
      StepInPlace(t, op);
      var rest := PastTheEnd(Selection(t, op));
      idx := [op] + rest;
      assert idx[1..] == rest;
    }
  }

  /** In a consistent type the offset is below the element count for every valid index list exactly
      when nothing empty trails. */
  lemma InRangeIffFillsEnd(t: Type)
    requires Consistent(t) && SizesFit(t)
    ensures FillsEnd(t) <==> forall idx :: ValidWalk(t, idx) ==> TargetOffset(t, idx) < |Flat(t)|
  {
    if FillsEnd(t) {
      forall idx | ValidWalk(t, idx) ensures TargetOffset(t, idx) < |Flat(t)| {
        FillsEndInRange(t, idx);
        OutOfRangeIff(t, idx);
      }
    } else {
      var idx := PastTheEnd(t);
      OutOfRangeIff(t, idx);
    }
  }

  /** A non-empty source is not enough: field 1 of { scalar, {} } starts past the only element. */
  lemma NonEmptySourceIsNotEnough()
    ensures
      var t := Struct([Scalar(0), Struct([])]);
      ValidWalk(t, [Const(1)]) && |Flat(t)| == 1 && TargetOffset(t, [Const(1)]) == 1
  {
    var t := Struct([Scalar(0), Struct([])]);
    assert t.fields[..1] == [Scalar(0)];
    FlatAllOne(Scalar(0));
    assert t.fields[1..] == [Struct([])];
    FlatAllOne(Struct([]));
    assert [Const(1)][1..] == [];
  }

  /** Nor is it enough that nothing empty trails: behind a scalar, an array of no pairs counts one
      element, so the second half of a pair in it lies past the end. */
  lemma FlexibleArrayOfStructs()
    ensures
      var pair := Struct([Scalar(0), Scalar(0)]);
      var t, idx := Struct([Scalar(0), Array(0, pair)]), [Const(1), Var, Const(1)];
      && FillsEnd(t) && !Consistent(t)
      && ValidWalk(t, idx) && |Flat(t)| == 2 && TargetOffset(t, idx) == 2
  {
    var pair := Struct([Scalar(0), Scalar(0)]);
    var flexible := Array(0, pair);
    var t := Struct([Scalar(0), flexible]);
    TwoFields(Scalar(0), Scalar(0));
    TwoFields(Scalar(0), flexible);
    assert flexible in t.fields;
    StepFirst(pair, Const(1), []);
    StepFirst(flexible, Var, [Const(1)]);
    assert [Var] + [Const(1)] == [Var, Const(1)];
    StepFirst(t, Const(1), [Var, Const(1)]);
    assert [Const(1)] + [Var, Const(1)] == [Const(1), Var, Const(1)];
  }

  lemma TwoFields(a: Type, b: Type)
    ensures Flat(Struct([a, b])) == Flat(a) + Flat(b) && PartOffset(Struct([a, b]), 1) == |Flat(a)|
  {
    assert [a, b][1..] == [b] && [a, b][..1] == [a];
    FlatAllOne(a);
    FlatAllOne(b);
  }

  function Constants(p: seq<nat>): seq<Index> {
    seq(|p|, i requires 0 <= i < |p| => Const(p[i]))
  }

  /** Along a leaf path the offset is the leaf's position in the flattened list. */
  lemma {:induction false} LeafPathOffset(t: Type, p: seq<nat>)
    requires SizesFit(t) && LeafPath(t, p)
    ensures ValidWalk(t, Constants(p)) && TargetOffset(t, Constants(p)) == PathOffset(t, p)
    decreases t
  {
    if IsAggregate(t) {
      LeafTotal(t, p);
      LeafPathOffset(Part(t, p[0]), p[1..]);
      assert Constants(p)[1..] == Constants(p[1..]);
    }
  }
}
