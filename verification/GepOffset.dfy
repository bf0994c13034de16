/** The constant field index of an address computation: the type walk and the summed offsets. */
module GepOffset {
  import opened TypeCollector
  import opened TypeLayout

  /** An index operand: a constant, or a value known only at run time. */
  datatype Index = Const(v: int) | Var

  datatype Option<T> = None | Some(value: T)

  /** What the iterator shows: the pointer to the source type first, then the types walked into. */
  datatype GepType = PointerTo(t: Type) | Plain(t: Type)

  function ToU32(v: int): nat {
    v % 0x1_0000_0000
  }

  predicate IsSingleValue(t: Type) {
    t.Scalar? || t.Vector?
  }

  /** The guard on a constant array index compares it, as a 32-bit unsigned number, with the
      number of elements. */
  predicate Admitted(n: nat, i: Index) {
    i.Const? && !(n <= ToU32(i.v))
  }

  /** The element an array index counts as: the lookup is 32-bit unsigned too. Indices that are
      unknown or not admitted count as element 0. */
  function Element(n: nat, i: Index): nat {
    if Admitted(n, i) then ToU32(i.v) else 0
  }

  /** What one index demands: a constant index into a struct names a field, and an array without
      elements has only one offset recorded, for element 0; elsewhere the source asserts. */
  predicate ValidStep(t: Type, i: Index) {
    match t
    case Struct(fields) => i.Const? && 0 <= i.v < |fields|
    case Array(n, _) => Total(t) == 0 ==> Element(n, i) == 0
    case _ => true
  }

  /** One step of the walk from a type; nothing is indexed below a scalar. */
  function Below(t: Type, i: Index): Option<Type>
    requires t.Struct? ==> i.Const? && 0 <= i.v < |t.fields|
  {
    match t
    case Struct(fields) => Some(fields[i.v])
    case Array(_, elem) => Some(elem)
    case Vector(lane) => Some(Scalar(lane))
    case Scalar(_) => None
  }

  predicate ValidWalk(t: Type, idx: seq<Index>)
    decreases idx
  {
    idx == [] || (!t.Scalar? && ValidStep(t, idx[0]) && ValidWalk(Below(t, idx[0]).value, idx[1..]))
  }

  /** How far one index moves: to the start of the part it selects. */
  function Selected(t: Type, i: Index): nat
    requires ValidStep(t, i)
  {
    match t
    case Struct(_) => PartOffset(t, i.v)
    case Array(n, _) => if Total(t) == 0 then 0 else PartOffset(t, Element(n, i))
    case _ => 0
  }

  function TargetOffset(t: Type, idx: seq<Index>): nat
    requires ValidWalk(t, idx)
    decreases idx
  {
    if idx == [] then 0 else Selected(t, idx[0]) + TargetOffset(Below(t, idx[0]).value, idx[1..])
  }

  /** The sub-object an index list addresses. A vector is one flattened element, lanes and all. */
  function Target(t: Type, idx: seq<Index>): Type
    requires ValidWalk(t, idx)
    decreases idx
  {
    if idx == [] || t.Vector? then t else Target(Below(t, idx[0]).value, idx[1..])
  }

  /** The type walk: a position in the index list, and the current type; at the first position
      the current type is the source type seen through the pointer. */
  class GepTypeIterator {
    const idx: seq<Index>
    var curTy: Option<Type>
    var throughPointer: bool
    var pos: nat

    constructor Begin(source: Type, idx: seq<Index>)
      ensures this.idx == idx && curTy == Some(source) && throughPointer && pos == 0
    {
      this.idx := idx;
      curTy, throughPointer, pos := Some(source), true, 0;
    }

    function Current(): GepType
      reads this
      requires curTy.Some?
    {
      if throughPointer then PointerTo(curTy.value) else Plain(curTy.value)
    }

    function Operand(): Index
      reads this
      requires pos < |idx|
    {
      idx[pos]
    }

    method Next()
      requires pos < |idx|
      requires !throughPointer && curTy.Some? && curTy.value.Struct? ==>
        Operand().Const? && 0 <= Operand().v < |curTy.value.fields|
      modifies this
      ensures pos == old(pos) + 1 && !throughPointer
      ensures old(throughPointer) ==> curTy == old(curTy)
      ensures !old(throughPointer) && old(curTy).Some? ==> curTy == Below(old(curTy).value, old(Operand()))
    {
      if throughPointer {
        throughPointer := false;
      } else if curTy.Some? {
        match curTy.value {
          case Struct(fields) => curTy := Some(fields[Operand().v]);
          case Array(_, elem) => curTy := Some(elem);
          case Vector(lane) => curTy := Some(Scalar(lane));
          case Scalar(_) => curTy := None;
        }
      } else {
        curTy := None;
      }
      pos := pos + 1;
    }
  }

  /** The element offset recorded for part `origId`; out of bounds, the source asserts. */
  function FlattenedElemIdx(info: StInfo, origId: nat): nat
    requires origId < |info.elemIdx|
  {
    info.elemIdx[origId]
  }

  lemma RecordedOffset(info: StInfo, t: Type, i: Index)
    requires Describes(info, t) && IsAggregate(t) && ValidStep(t, i) && (t.Array? ==> Admitted(t.n, i))
    ensures
      var origId := if t.Struct? then i.v else ToU32(i.v);
      origId < |info.elemIdx| && FlattenedElemIdx(info, origId) == Selected(t, i)
  {
  }

  /** What one index of a plain type adds. */
  method StepOffset(t: Type, op: Index, types: ModuleTypes) returns (offset: nat)
    requires types.Valid() && ValidStep(t, op)
    modifies types
    ensures types.Valid() && types.Grows() && offset == Selected(t, op)
  {
    hide Describes, Total, Flat, ModuleTypes.Valid;
    var info := types.CollectTypeInfo(t);
    offset := 0;
    match t {
      case Array(n, elem) =>
        if op.Var? || n <= ToU32(op.v) {
          assert Element(n, op) == 0;
        } else {
          RecordedOffset(info, t, op);
          offset := FlattenedElemIdx(info, ToU32(op.v));
        }
      case Struct(fields) =>
        RecordedOffset(info, t, op);
        offset := FlattenedElemIdx(info, op.v);
      case _ =>
    }
  }

  /** Sums the element offsets recorded for the walked types, collecting the layouts that are not
      there yet: the sum is where the addressed sub-object starts. The first index steps over
      whole objects and adds nothing. The result is constant unless a pointer to a single value is
      stepped by an unknown amount. */
  method ComputeGepOffset(source: Type, idx: seq<Index>, types: ModuleTypes) returns (isConst: bool, fldIdx: nat)
    requires ValidWalk(source, if idx == [] then [] else idx[1..]) && types.Valid()
    modifies types
    ensures fldIdx == TargetOffset(source, if idx == [] then [] else idx[1..])
    ensures isConst <==> !(idx != [] && idx[0].Var? && !source.Struct? && !source.Array?)
    ensures types.Valid() && types.Grows()
  {
    hide Describes, PartOffset, Selected, ModuleTypes.Valid;
    isConst := true;
    fldIdx := 0;
    var gi := new GepTypeIterator.Begin(source, idx);
    while gi.pos != |idx|
      invariant gi.idx == idx && gi.pos <= |idx|
      invariant gi.throughPointer <==> gi.pos == 0
      invariant gi.curTy.Some?
      invariant gi.pos == 0 ==> fldIdx == 0 && gi.curTy == Some(source)
      invariant gi.pos > 0 ==>
        && ValidWalk(gi.curTy.value, idx[gi.pos..])
        && fldIdx + TargetOffset(gi.curTy.value, idx[gi.pos..]) == TargetOffset(source, idx[1..])
      invariant isConst <==> !(gi.pos > 0 && idx[0].Var? && IsSingleValue(source))
      invariant types.Valid() && types.Grows() && fresh(gi)
      decreases |idx| - gi.pos
    {
      var gepTy, op := gi.Current(), gi.Operand();
      ghost var pos, fld := gi.pos, fldIdx;
      assert idx[pos..][1..] == idx[pos + 1..];
      match gepTy {
        case PointerTo(pointee) =>
          if op.Var? && IsSingleValue(pointee) {
            isConst := false;
          }
        case Plain(t) =>
          assert ValidWalk(t, idx[pos..]);
          var offset := StepOffset(t, op, types);
          fldIdx := fldIdx + offset;
      }
      gi.Next();
    }
    assert idx[gi.pos..] == [];
  }

  /** A constant index within the array counts as itself. One outside counts as element 0 exactly
      when its 32-bit unsigned form is 0 or outside as well. */
  lemma ArrayIndexElement(n: nat, v: int)
    requires 0 < n <= 0x1_0000_0000
    ensures 0 <= v < n ==> Element(n, Const(v)) == v
    ensures !(0 <= v < n) ==> (Element(n, Const(v)) == 0 <==> ToU32(v) == 0 || ToU32(v) >= n)
  {
  }

  /** Indices that fit 32 bits, into arrays of at most 2^31 elements: outside the array they add 0. */
  lemma SmallIndexOutside(n: nat, v: int)
    requires 0 < n <= 0x8000_0000 && -0x8000_0000 <= v < 0x8000_0000
    ensures Element(n, Const(v)) == if 0 <= v < n then v else 0
  {
  }

  /** A 64-bit index out of bounds can wrap to another element. */
  lemma WideIndexWraps()
    ensures Element(5, Const(0x1_0000_0001)) == 1
  {
  }
}
