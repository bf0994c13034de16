/** Debug-information types, the qualifiers on them, and when two of them count as the same. */
module DebugTypes {

  datatype Encoding = Signed | Unsigned | Boolean | Float | SignedChar | UnsignedChar | OtherEncoding(n: nat)

  datatype Tag =
    | Const | Atomic | Volatile | Restrict | Typedef
    | Member | Pointer | PtrToMember | Reference | RvalueReference
    | Inheritance | Friend
    | ArrayOf | Class | Structure | Union | Enumeration

  /** A type node with a finite chain of base types. Equal values are the same node, told apart
      by `id`; `Void` is the null pointer. */
  datatype DIType =
    | Void
    | Basic(id: nat, encoding: Encoding, size: nat, align: nat)
    | Subroutine(id: nat)
    | Derived(id: nat, tag: Tag, base: DIType)
    | Composite(id: nat, tag: Tag, name: string, file: nat, line: nat, identifier: string, base: DIType)

  predicate IsQualifier(tag: Tag) {
    tag in {Const, Atomic, Volatile, Restrict, Typedef}
  }

  /** The tags stripping can handle; on inheritance and friend entries the source asserts. */
  predicate WellTagged(t: DIType) {
    match t
    case Derived(_, tag, base) =>
      (IsQualifier(tag) || tag in {Member, Pointer, PtrToMember, Reference, RvalueReference}) && WellTagged(base)
    case Composite(_, tag, _, _, _, _, base) =>
      tag in {ArrayOf, Class, Structure, Union, Enumeration} && WellTagged(base)
    case _ => true
  }

  function Depth(t: DIType): nat {
    if t.Derived? || t.Composite? then 1 + Depth(t.base) else 0
  }

  /** The type beneath the qualifiers. */
  function Strip(t: DIType): (r: DIType)
    ensures Depth(r) <= Depth(t) && (WellTagged(t) ==> WellTagged(r))
    ensures r.Derived? ==> !IsQualifier(r.tag)
    ensures !(t.Derived? && IsQualifier(t.tag)) ==> r == t
  {
    if t.Derived? && IsQualifier(t.tag) then Strip(t.base) else t
  }

  method StripQualifiers(t: DIType) returns (r: DIType)
    requires WellTagged(t)
    ensures r == Strip(t)
  {
    r := t;
    while true
      invariant WellTagged(r) && Strip(r) == Strip(t)
      decreases Depth(r)
    {
      if r.Void? || r.Basic? || r.Subroutine? {
        break;
      }
      if IsQualifier(r.tag) {
        r := r.base;
      } else {
        break;
      }
    }
  }

  predicate IsInteger(e: Encoding) {
    e in {Signed, Unsigned, Boolean}
  }

  predicate IsChar(e: Encoding) {
    e in {SignedChar, UnsignedChar}
  }

  /** Pointers, references, members and arrays: compared by their base types alone. */
  predicate HasBase(t: DIType) {
    t.Derived? || (t.Composite? && t.tag == ArrayOf)
  }

  /** Type equality up to qualifiers, signedness, and the kind of indirection. */
  predicate Teq(a: DIType, b: DIType)
    decreases Depth(a) + Depth(b)
  {
    var t1, t2 := Strip(a), Strip(b);
    if t1 == t2 then true
    else if t1.Void? || t2.Void? then false
    else if t1.Basic? && t2.Basic? then
      var okayEnc :=
        || (IsInteger(t1.encoding) && IsInteger(t2.encoding))
        || (t1.encoding.Float? && t2.encoding.Float?)
        || (IsChar(t1.encoding) && IsChar(t2.encoding));
      if !okayEnc then false else t1.size == t2.size && t1.align == t2.align
    else if HasBase(t1) && HasBase(t2) then
      Teq(t1.base, t2.base)
    else if t1.Composite? && t2.Composite? then
      if t1.tag != t2.tag then false
      else if t1.tag == Enumeration then true
      else if t1.tag == Class then t1.identifier == t2.identifier
      else t1.name == t2.name && t1.file == t2.file && t1.line == t2.line
    else false
  }

  /** What type equality looks at, of one type alone. */
  datatype Form =
    | Integer(size: nat, align: nat)
    | Floating(size: nat, align: nat)
    | Character(size: nat, align: nat)
    | Indirection(base: Form)
    | AnyEnumeration
    | Named(identifier: string)
    | Placed(tag: Tag, name: string, file: nat, line: nat)
    | Node(t: DIType)

  /** Qualifiers do not count, nor does signedness, nor the kind of indirection; enumerations are all
      one, classes are told apart by their identifier, structs and unions by name and place. Void,
      subroutines and basic types of any other encoding are themselves only. */
  function FormOf(t: DIType): Form {
    match t
    case Void => Node(t)
    case Subroutine(_) => Node(t)
    case Basic(_, encoding, size, align) =>
      (match encoding
       case Signed => Integer(size, align)
       case Unsigned => Integer(size, align)
       case Boolean => Integer(size, align)
       case Float => Floating(size, align)
       case SignedChar => Character(size, align)
       case UnsignedChar => Character(size, align)
       case OtherEncoding(_) => Node(t))
    case Derived(_, tag, base) =>
      if tag in {Const, Atomic, Volatile, Restrict, Typedef} then FormOf(base) else Indirection(FormOf(base))
    case Composite(_, tag, name, file, line, identifier, base) =>
      (match tag
       case ArrayOf => Indirection(FormOf(base))
       case Enumeration => AnyEnumeration
       case Class => Named(identifier)
       case _ => Placed(tag, name, file, line))
  }

  lemma {:induction false} FormOfStripped(t: DIType)
    ensures FormOf(Strip(t)) == FormOf(t)
  {
    if t.Derived? && IsQualifier(t.tag) {
      FormOfStripped(t.base);
    }
  }

  lemma BasicForms(a: DIType, b: DIType)
    requires a.Basic? && b.Basic?
    ensures Teq(a, b) <==> FormOf(a) == FormOf(b)
  {
  }

  lemma CompositeForms(a: DIType, b: DIType)
    requires a.Composite? && b.Composite? && !(HasBase(a) && HasBase(b))
    ensures Teq(a, b) <==> FormOf(a) == FormOf(b)
  {
  }

  /** Types of different kinds have different forms. */
  lemma OtherForms(a: DIType, b: DIType)
    requires Strip(a) == a && Strip(b) == b && !(HasBase(a) && HasBase(b))
    requires !(a.Basic? && b.Basic?) && !(a.Composite? && b.Composite?)
    ensures Teq(a, b) <==> FormOf(a) == FormOf(b)
  {
  }

  lemma TeqStripped(a: DIType, b: DIType)
    ensures Teq(a, b) == Teq(Strip(a), Strip(b))
  {
  }

  /** Two types are equal exactly when they have the same form. */
  lemma {:induction false} TeqIffSameForm(a: DIType, b: DIType)
    ensures Teq(a, b) <==> FormOf(a) == FormOf(b)
    decreases Depth(a) + Depth(b)
  {
    FormOfStripped(a);
    FormOfStripped(b);
    TeqStripped(a, b);
    var t1, t2 := Strip(a), Strip(b);
    if HasBase(t1) && HasBase(t2) {
      if t1 != t2 {
        TeqIffSameForm(t1.base, t2.base);
      }
    } else {
      hide Teq, FormOf;
      if t1.Basic? && t2.Basic? {
        BasicForms(t1, t2);
      } else if t1.Composite? && t2.Composite? {
        CompositeForms(t1, t2);
      } else {
        OtherForms(t1, t2);
      }
    }
  }

  lemma TeqReflexive(a: DIType)
    ensures Teq(a, a) && Teq(a, Strip(a)) && Teq(Strip(a), a)
  {
  }

  lemma {:induction false} TeqSymmetric(a: DIType, b: DIType)
    requires Teq(a, b)
    ensures Teq(b, a)
    decreases Depth(a) + Depth(b)
  {
    var t1, t2 := Strip(a), Strip(b);
    if t1 != t2 && HasBase(t1) && HasBase(t2) {
      TeqSymmetric(t1.base, t2.base);
    }
  }

  /** Together with reflexivity and symmetry: type equality is an equivalence. */
  lemma {:induction false} TeqTransitive(a: DIType, b: DIType, c: DIType)
    requires Teq(a, b) && Teq(b, c)
    ensures Teq(a, c)
    decreases Depth(a) + Depth(b) + Depth(c)
  {
    var t1, t2, t3 := Strip(a), Strip(b), Strip(c);
    if t1 != t2 && t2 != t3 && t1 != t3 && HasBase(t1) && HasBase(t2) && HasBase(t3) {
      TeqTransitive(t1.base, t2.base, t3.base);
    }
  }
}
