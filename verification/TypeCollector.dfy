/** Collecting the flattened layout of types, with a table of the types already done. */
module TypeCollector {
  import opened TypeLayout

  /** The recorded layout of a type. */
  datatype StInfo = StInfo(
    fldIdx: seq<nat>,
    elemIdx: seq<nat>,
    fieldTypes: seq<Type>,
    elementTypes: seq<Type>,
    stride: nat,
    numFields: nat,
    numElems: nat)
  {
    function AddField(fld: nat, elem: nat): StInfo {
      this.(fldIdx := fldIdx + [fld], elemIdx := elemIdx + [elem])
    }
  }

  function NewInfo(stride: nat): StInfo {
    StInfo([], [], [], [], stride, stride, stride)
  }

  /** The layout says what the flattened lists are, and where each part starts in them. */
  ghost predicate Describes(info: StInfo, t: Type) {
    && info.elementTypes == Flat(t) && info.numElems == |Flat(t)|
    && info.fieldTypes == FlatFields(t) && info.numFields == |FlatFields(t)|
    && info.stride == Total(t)
    && |info.elemIdx| == |info.fldIdx|
    && (if IsAggregate(t) && Total(t) != 0 then
          && |info.elemIdx| == Parts(t)
          && (forall i :: 0 <= i < Parts(t) ==> info.elemIdx[i] == PartOffset(t, i))
          && (forall i :: 0 <= i < Parts(t) ==>
                info.fldIdx[i] == if t.Struct? then |FlatFieldsAll(t.fields[..i])| else 0)
        else info.elemIdx == [0] && info.fldIdx == [0])
  }

  lemma {:induction false} FieldsConcat(a: seq<Type>, b: seq<Type>)
    ensures FlatFieldsAll(a + b) == FlatFieldsAll(a) + FlatFieldsAll(b)
  {
    if a == [] {
      assert a + b == b;
    } else {
      assert (a + b)[1..] == a[1..] + b;
      FieldsConcat(a[1..], b);
    }
  }

  /** One more field: both flattened lists of the prefix grow by the field's. */
  lemma PrefixStep(fields: seq<Type>, i: nat)
    requires i < |fields|
    ensures FlatAll(fields[..i + 1]) == FlatAll(fields[..i]) + Flat(fields[i])
    ensures FlatFieldsAll(fields[..i + 1]) == FlatFieldsAll(fields[..i]) + FlatFields(fields[i])
  {
    hide FlatAll, FlatFieldsAll, Flat, FlatFields;
    FlatAllAt(fields, i);
    SplitAt(fields, i);
    FieldsConcat(fields[..i], [fields[i]]);
    FieldsOne(fields[i]);
  }

  lemma FieldsOne(t: Type)
    ensures FlatFieldsAll([t]) == FlatFields(t)
  {
    assert [t][1..] == [];
  }

  class ModuleTypes {
    var typeInfo: map<Type, StInfo>
    var maxStSize: nat
    var maxStruct: Type

    constructor ()
      ensures Valid() && typeInfo == map[]
    {
      typeInfo, maxStSize, maxStruct := map[], 0, Scalar(0);
    }

    /** Every recorded layout is right, and the largest struct is a recorded one than which no
        recorded one has more fields. */
    ghost predicate Valid()
      reads this
    {
      && (forall t :: t in typeInfo ==> Describes(typeInfo[t], t))
      && (forall t :: t in typeInfo && t.Struct? ==> |FlatFields(t)| <= maxStSize)
      && (maxStSize > 0 ==> maxStruct in typeInfo && maxStruct.Struct? && |FlatFields(maxStruct)| == maxStSize)
    }

    /** Entries are only added, never changed. */
    twostate predicate Grows()
      reads this
    {
      forall t :: t in old(typeInfo) ==> t in typeInfo && typeInfo[t] == old(typeInfo)[t]
    }

    method CollectTypeInfo(t: Type) returns (info: StInfo)
      requires Valid()
      modifies this
      ensures Valid() && Grows() && t in typeInfo && info == typeInfo[t] && Describes(info, t)
      decreases t, 1
    {
      if t in typeInfo {
        return typeInfo[t];
      }
      if t.Array? {
        info := CollectArrayInfo(t);
      } else if t.Struct? {
        var nf;
        info, nf := CollectStructInfo(t);
        if nf > maxStSize {
          maxStruct := t;
          maxStSize := nf;
        }
      } else {
        info := CollectSimpleTypeInfo(t);
      }
      if t !in typeInfo {
        typeInfo := typeInfo[t := info];
      } else {
        SameLayout(typeInfo[t], info, t);
      }
    }

    method CollectSimpleTypeInfo(t: Type) returns (info: StInfo)
      requires !IsAggregate(t)
      ensures Describes(info, t)
    {
      info := NewInfo(1).AddField(0, 0);
      info := info.(fieldTypes := info.fieldTypes + [t], elementTypes := info.elementTypes + [t]);
      info := info.(numFields := 1, numElems := 1);
    }

    method CollectStructInfo(t: Type) returns (info: StInfo, numFields: nat)
      requires Valid() && t.Struct?
      modifies this
      ensures Valid() && Grows() && Describes(info, t) && numFields == |FlatFields(t)|
      decreases t, 0
    {
      hide Describes;
      info := NewInfo(1);
      numFields := 0;
      var strideOffset := 0;
      var fields := t.fields;
      for i := 0 to |fields|
        invariant Valid() && Grows()
        invariant info.elementTypes == FlatAll(fields[..i]) && strideOffset == |FlatAll(fields[..i])|
        invariant info.fieldTypes == FlatFieldsAll(fields[..i]) && numFields == |FlatFieldsAll(fields[..i])|
        invariant info.stride == 1 && |info.elemIdx| == |info.fldIdx| == i
        invariant forall k :: 0 <= k < i ==>
          info.elemIdx[k] == |FlatAll(fields[..k])| && info.fldIdx[k] == |FlatFieldsAll(fields[..k])|
      {
        var elemTy := fields[i];
        info := info.AddField(numFields, strideOffset);
        PrefixStep(fields, i);
        if IsAggregate(elemTy) {
          var sub := CollectTypeInfo(elemTy);
          Layout(sub, elemTy);
          info := info.(
            fieldTypes := info.fieldTypes + sub.fieldTypes,
            elementTypes := info.elementTypes + sub.elementTypes
          );
          numFields := numFields + sub.numFields;
          strideOffset := strideOffset + sub.numElems;
        } else {
          numFields := numFields + 1;
          strideOffset := strideOffset + 1;
          info := info.(fieldTypes := info.fieldTypes + [elemTy], elementTypes := info.elementTypes + [elemTy]);
        }
      }
      assert fields[..|fields|] == fields;
      info := info.(numFields := numFields, numElems := strideOffset);
      StructDescribed(info, t);
    }

    method CollectArrayInfo(t: Type) returns (info: StInfo)
      requires Valid() && t.Array?
      modifies this
      ensures Valid() && Grows() && Describes(info, t)
      decreases t, 0
    {
      hide Describes;
      var totalElemNum: nat := t.n;
      var elemTy := t.elem;
      while elemTy.Array?
        invariant totalElemNum * Total(elemTy) == Total(t) && Inner(elemTy) == Inner(t)
        invariant elemTy < t && Valid() && Grows()
        decreases elemTy
      {
        MulAssoc(totalElemNum, elemTy.n, Total(elemTy.elem));
        totalElemNum := totalElemNum * elemTy.n;
        elemTy := elemTy.elem;
      }
      info := NewInfo(totalElemNum);
      if totalElemNum == 0 {
        info := info.AddField(0, 0);
        info := info.(numFields := 1, numElems := 1);
        info := info.(fieldTypes := info.fieldTypes + [elemTy], elementTypes := info.elementTypes + [elemTy]);
        DummyDescribed(info, t);
        return;
      }
      var elemInfo := CollectTypeInfo(elemTy);
      info := FillArrayInfo(t, elemTy, elemInfo, info);
    }
  }

  /** Fills in the layout of an array with elements, from the layout of its innermost element. */
  method FillArrayInfo(t: Type, elemTy: Type, elemInfo: StInfo, start: StInfo) returns (info: StInfo)
    requires t.Array? && Total(t) != 0 && elemTy == Inner(t)
    requires Describes(elemInfo, elemTy) && start == NewInfo(Total(t))
    ensures Describes(info, t)
  {
    hide Describes, Flat, FlatFields;
    Layout(elemInfo, elemTy);
    info := start;
    var totalElemNum := info.stride;
    var nfF, nfE := elemInfo.numFields, elemInfo.numElems;
    for j := 0 to nfF
      invariant info == NewInfo(totalElemNum).(fieldTypes := FlatFields(elemTy)[..j])
    {
      info := info.(fieldTypes := info.fieldTypes + [elemInfo.fieldTypes[j]]);
    }
    var outArrayElemNum := t.n;
    for i := 0 to outArrayElemNum
      invariant info.fieldTypes == FlatFields(elemTy) && info.elementTypes == [] && info.stride == totalElemNum
      invariant |info.elemIdx| == |info.fldIdx| == i
      invariant forall k :: 0 <= k < i ==> info.elemIdx[k] == k * |Flat(t.elem)| && info.fldIdx[k] == 0
    {
      var idx := (i * nfE * totalElemNum) / outArrayElemNum;
      ArrayIndex(t, i);
      info := info.AddField(0, idx);
    }
    for i := 0 to totalElemNum
      invariant info.fieldTypes == FlatFields(elemTy) && info.stride == totalElemNum && Indexed(info, t)
      invariant info.elementTypes == Repeat(Flat(elemTy), i)
    {
      for j := 0 to nfE
        invariant info.fieldTypes == FlatFields(elemTy) && info.stride == totalElemNum && Indexed(info, t)
        invariant info.elementTypes == Repeat(Flat(elemTy), i) + Flat(elemTy)[..j]
      {
        info := info.(elementTypes := info.elementTypes + [elemInfo.elementTypes[j]]);
      }
      assert Flat(elemTy)[..nfE] == Flat(elemTy);
    }
    PeelAll(t);
    info := info.(numFields := nfF, numElems := nfE * totalElemNum);
    ArrayDescribed(info, t);
  }

  /** The recorded starts of the elements of an array. */
  ghost predicate Indexed(info: StInfo, t: Type)
    requires t.Array?
  {
    && |info.elemIdx| == |info.fldIdx| == t.n
    && forall k :: 0 <= k < t.n ==> info.elemIdx[k] == k * |Flat(t.elem)| && info.fldIdx[k] == 0
  }

  lemma Layout(info: StInfo, t: Type)
    requires Describes(info, t)
    ensures info.elementTypes == Flat(t) && info.numElems == |Flat(t)|
    ensures info.fieldTypes == FlatFields(t) && info.numFields == |FlatFields(t)|
  {
  }

  /** There is only one right layout. */
  lemma SameLayout(a: StInfo, b: StInfo, t: Type)
    requires Describes(a, t) && Describes(b, t)
    ensures a == b
  {
    assert a.elemIdx == b.elemIdx && a.fldIdx == b.fldIdx;
  }

  lemma StructDescribed(info: StInfo, t: Type)
    requires t.Struct? && info.stride == 1
    requires info.elementTypes == FlatAll(t.fields) && info.numElems == |FlatAll(t.fields)|
    requires info.fieldTypes == FlatFieldsAll(t.fields) && info.numFields == |FlatFieldsAll(t.fields)|
    requires |info.elemIdx| == |info.fldIdx| == |t.fields|
    requires forall k :: 0 <= k < |t.fields| ==>
      info.elemIdx[k] == |FlatAll(t.fields[..k])| && info.fldIdx[k] == |FlatFieldsAll(t.fields[..k])|
    ensures Describes(info, t)
  {
  }

  lemma DummyDescribed(info: StInfo, t: Type)
    requires t.Array? && Total(t) == 0 && info == StInfo([0], [0], [Inner(t)], [Inner(t)], 0, 1, 1)
    ensures Describes(info, t)
  {
  }

  lemma ArrayDescribed(info: StInfo, t: Type)
    requires t.Array? && Total(t) != 0 && info.stride == Total(t) && Indexed(info, t)
    requires info.fieldTypes == FlatFields(t) && info.numFields == |info.fieldTypes|
    requires info.elementTypes == Flat(t) && info.numElems == |info.elementTypes|
    ensures Describes(info, t)
  {
  }
}
