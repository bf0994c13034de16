/** What the flattened field list holds: one place for every way to a non-aggregate that enters
    structs by any field and arrays once. */
module FieldLayout {
  import opened TypeCollector
  import opened TypeLayout

  /** The ways to a leaf. An array is entered by its element 0; one without elements is a leaf, its
      dummy element. */
  predicate FieldPath(t: Type, p: seq<nat>)
    decreases t
  {
    match t
    case Struct(fields) => p != [] && p[0] < |fields| && FieldPath(fields[p[0]], p[1..])
    case Array(_, elem) => if Total(t) == 0 then p == [] else p != [] && p[0] == 0 && FieldPath(elem, p[1..])
    case _ => p == []
  }

  /** The type at the end; of the dummy, what is below all dimensions. */
  function FieldLeaf(t: Type, p: seq<nat>): Type
    requires FieldPath(t, p)
    decreases t
  {
    match t
    case Struct(fields) => FieldLeaf(fields[p[0]], p[1..])
    case Array(_, elem) => if Total(t) == 0 then Inner(t) else FieldLeaf(elem, p[1..])
    case _ => t
  }

  /** The sum of the recorded field indices along a path. */
  function FieldPathOffset(t: Type, p: seq<nat>): nat
    requires FieldPath(t, p)
    decreases t
  {
    match t
    case Struct(fields) => FieldStart(t, p[0]) + FieldPathOffset(fields[p[0]], p[1..])
    case Array(_, elem) => if Total(t) == 0 then 0 else FieldStart(t, 0) + FieldPathOffset(elem, p[1..])
    case _ => 0
  }

  /** Where part `i` starts in the flattened field list. */
  function FieldStart(t: Type, i: nat): nat
    requires i < Parts(t)
  {
    if t.Struct? then |FlatFieldsAll(t.fields[..i])| else 0
  }

  /** The layout records these starts, and the leaf's own place for what has no parts. */
  lemma RecordedFields(info: StInfo, t: Type)
    requires Describes(info, t)
    ensures if IsAggregate(t) && Total(t) != 0
      then |info.fldIdx| == Parts(t) && forall i :: 0 <= i < Parts(t) ==> info.fldIdx[i] == FieldStart(t, i)
      else info.fldIdx == [0] && info.fieldTypes == [Inner(t)] && info.numFields == 1
  {
  }

  /** The list of all fields is that before one, its own and that behind it. */
  lemma ListSplit(fields: seq<Type>, i: nat)
    requires i < |fields|
    ensures FlatFieldsAll(fields) ==
      FlatFieldsAll(fields[..i]) + FlatFields(fields[i]) + FlatFieldsAll(fields[i + 1..])
  {
    hide FlatFields, FlatFieldsAll;
    PrefixStep(fields, i);
    FieldsConcat(fields[..i + 1], fields[i + 1..]);
    assert fields[..i + 1] + fields[i + 1..] == fields;
  }

  /** A field occupies its slice of the struct's field list. */
  lemma FieldSlice(t: Type, i: nat)
    requires t.Struct? && i < |t.fields|
    ensures FieldStart(t, i) + |FlatFields(t.fields[i])| <= |FlatFields(t)|
    ensures forall k :: 0 <= k < |FlatFields(t.fields[i])| ==>
      FlatFields(t)[FieldStart(t, i) + k] == FlatFields(t.fields[i])[k]
    ensures i + 1 < |t.fields| ==> FieldStart(t, i + 1) == FieldStart(t, i) + |FlatFields(t.fields[i])|
    ensures i + 1 == |t.fields| ==> |FlatFields(t)| == FieldStart(t, i) + |FlatFields(t.fields[i])|
  {
    PrefixStep(t.fields, i);
    ListSplit(t.fields, i);
    if i + 1 == |t.fields| {
      assert t.fields[..i + 1] == t.fields;
    }
  }

  lemma {:induction false} FieldsOrdered(t: Type, i: nat, j: nat)
    requires t.Struct? && i < j < |t.fields|
    ensures FieldStart(t, i) + |FlatFields(t.fields[i])| <= FieldStart(t, j)
    decreases j
  {
    FieldSlice(t, i);
    if i + 1 < j {
      FieldsOrdered(t, i, j - 1);
      FieldSlice(t, j - 1);
    }
  }

  lemma FieldCovering(t: Type, k: nat) returns (i: nat)
    requires t.Struct? && k < |FlatFields(t)|
    ensures i < |t.fields| && FieldStart(t, i) <= k < FieldStart(t, i) + |FlatFields(t.fields[i])|
  {
    i := 0;
    assert t.fields[..0] == [];
    FieldSlice(t, 0);
    while k >= FieldStart(t, i) + |FlatFields(t.fields[i])|
      invariant i < |t.fields| && FieldStart(t, i) <= k
      decreases |t.fields| - i
    {
      FieldSlice(t, i);
      i := i + 1;
    }
  }

  /** A path leads to a place of the field list, and the type there is the leaf's. */
  lemma {:induction false} FieldInRange(t: Type, p: seq<nat>)
    requires FieldPath(t, p)
    ensures FieldPathOffset(t, p) < |FlatFields(t)| && FlatFields(t)[FieldPathOffset(t, p)] == FieldLeaf(t, p)
    decreases t
  {
    if t.Struct? {
      FieldSlice(t, p[0]);
      FieldInRange(t.fields[p[0]], p[1..]);
    } else if t.Array? && Total(t) != 0 {
      FieldInRange(t.elem, p[1..]);
    }
  }

  /** Different paths lead to different places. */
  lemma {:induction false} FieldInjective(t: Type, p: seq<nat>, q: seq<nat>)
    requires FieldPath(t, p) && FieldPath(t, q) && FieldPathOffset(t, p) == FieldPathOffset(t, q)
    ensures p == q
    decreases t
  {
    if t.Struct? {
      FieldInRange(t.fields[p[0]], p[1..]);
      FieldInRange(t.fields[q[0]], q[1..]);
      if p[0] < q[0] {
        FieldsOrdered(t, p[0], q[0]);
      } else if q[0] < p[0] {
        FieldsOrdered(t, q[0], p[0]);
      } else {
        FieldInjective(t.fields[p[0]], p[1..], q[1..]);
      }
      assert p == [p[0]] + p[1..] && q == [q[0]] + q[1..];
    } else if t.Array? && Total(t) != 0 {
      FieldInjective(t.elem, p[1..], q[1..]);
      assert p == [p[0]] + p[1..] && q == [q[0]] + q[1..];
    }
  }

  /** Every place is that of a path, in every type. */
  lemma {:induction false} FieldSurjective(t: Type, k: nat) returns (p: seq<nat>)
    requires k < |FlatFields(t)|
    ensures FieldPath(t, p) && FieldPathOffset(t, p) == k
    decreases t
  {
    p := [];
    if t.Struct? {
      var i := FieldCovering(t, k);
      var rest := FieldSurjective(t.fields[i], k - FieldStart(t, i));
      p := [i] + rest;
      assert p[1..] == rest;
    } else if t.Array? && Total(t) != 0 {
      var rest := FieldSurjective(t.elem, k);
      p := [0] + rest;
      assert p[1..] == rest;
    }
  }

  /** The places a recorded layout counts as fields are those of the paths, one each. */
  lemma FieldsOfLayout(info: StInfo, t: Type)
    requires Describes(info, t)
    ensures |info.fieldTypes| == info.numFields
    ensures forall p :: FieldPath(t, p) ==>
      FieldPathOffset(t, p) < info.numFields && info.fieldTypes[FieldPathOffset(t, p)] == FieldLeaf(t, p)
    ensures forall p, q :: FieldPath(t, p) && FieldPath(t, q) && FieldPathOffset(t, p) == FieldPathOffset(t, q) ==>
      p == q
    ensures forall k: nat :: k < info.numFields ==> IsField(t, k)
  {
    forall p | FieldPath(t, p)
      ensures FieldPathOffset(t, p) < info.numFields && info.fieldTypes[FieldPathOffset(t, p)] == FieldLeaf(t, p)
    {
      FieldInRange(t, p);
    }
    forall p, q | FieldPath(t, p) && FieldPath(t, q) && FieldPathOffset(t, p) == FieldPathOffset(t, q) ensures p == q {
      FieldInjective(t, p, q);
    }
    forall k: nat | k < info.numFields ensures IsField(t, k) {
      var p := FieldSurjective(t, k);
    }
  }

  /** Some path leads to place `k`. */
  ghost predicate IsField(t: Type, k: nat) {
    exists p :: FieldPath(t, p) && FieldPathOffset(t, p) == k
  }
}
