/** Constant address computations inside operands: finding them, and what a lowered function has in
    their place. */
module ConstantGEPs {
  import opened LoweringStep
  import opened SsaIR

  /** The recursive scan for an address computation in a constant expression. */
  predicate HasConstantGEP(v: Value) {
    v.Expr? && (v.op == GetElementPtr || exists a :: a in v.args && HasConstantGEP(a))
  }

  predicate UsesGEP(inst: Inst) {
    exists v :: v in Operands(inst) && HasConstantGEP(v)
  }

  /** `s` is `v` or occurs in one of its arguments. */
  predicate Occurs(s: Value, v: Value)
    decreases v
  {
    s == v || (v.Expr? && exists a :: a in v.args && Occurs(s, a))
  }

  /** An address computation occurs in `v`. */
  ghost predicate EmbedsGEP(v: Value) {
    exists s :: Occurs(s, v) && s.Expr? && s.op == GetElementPtr
  }

  /** The scan finds an address computation exactly when one occurs. */
  lemma {:induction false} ScanFindsGEP(v: Value)
    ensures HasConstantGEP(v) <==> EmbedsGEP(v)
    decreases v
  {
    if v.Expr? {
      forall a | a in v.args ensures HasConstantGEP(a) <==> EmbedsGEP(a) {
        ScanFindsGEP(a);
      }
      if v.op == GetElementPtr {
        assert Occurs(v, v);
      } else if a :| a in v.args && HasConstantGEP(a) {
        var s :| Occurs(s, a) && s.Expr? && s.op == GetElementPtr;
        assert Occurs(s, v);
      }
    }
  }

  lemma {:induction false} OccursTrans(r: Value, s: Value, v: Value)
    requires Occurs(r, s) && Occurs(s, v)
    ensures Occurs(r, v)
    decreases v
  {
    if s != v {
      var a :| a in v.args && Occurs(s, a);
      OccursTrans(r, s, a);
    }
  }

  /** The normal form: no address computation occurs in an operand of any instruction. */
  ghost predicate NormalForm(f: Func) {
    forall id, v :: id in f.insts && v in Operands(f.insts[id]) ==> !EmbedsGEP(v)
  }

  lemma NormalFormIff(f: Func)
    ensures NormalForm(f) <==> forall id :: id in f.insts ==> !UsesGEP(f.insts[id])
  {
    hide EmbedsGEP, HasConstantGEP;
    forall id, v | id in f.insts && v in Operands(f.insts[id]) ensures HasConstantGEP(v) <==> EmbedsGEP(v) {
      ScanFindsGEP(v);
    }
  }

  // What the instructions made stand for.

  /** Operands stay, but for expressions with an address computation in them, in whose place the
      instruction made for the expression may stand. */
  ghost predicate Stands(vs: seq<Value>, vs': seq<Value>, origin: map<Id, Value>) {
    && |vs| == |vs'|
    && forall i :: 0 <= i < |vs| ==>
         || vs'[i] == vs[i]
         || (EmbedsGEP(vs[i]) && vs'[i].Ref? && vs'[i].id in origin && origin[vs'[i].id] == vs[i])
  }

  ghost predicate OccursIn(f: Func, s: Value) {
    exists id, v :: id in f.insts && v in Operands(f.insts[id]) && Occurs(s, v)
  }

  /** The operands an instruction began with: those it had in `f`, or the arguments of the
      expression it was made for. */
  ghost function Began(f: Func, origin: map<Id, Value>, id: Id): seq<Value> {
    if id in f.insts then Operands(f.insts[id])
    else if id in origin && origin[id].Expr? then origin[id].args
    else []
  }

  predicate SameShape(inst: Inst, inst': Inst) {
    match inst
    case Op(opcode, _) => inst'.Op? && inst'.opcode == opcode
    case Phi(incoming) => inst'.Phi? && Blocks(inst'.incoming) == Blocks(incoming)
  }

  /** `f'` is `f` with instructions made for expressions that occur in `f` and have an address
      computation in them, and nothing else is different. */
  ghost predicate Converts(f: Func, f': Func, origin: map<Id, Value>) {
    && f'.insts.Keys == f.insts.Keys + origin.Keys && f.insts.Keys !! origin.Keys
    && (forall id :: id in f.insts ==> SameShape(f.insts[id], f'.insts[id]))
    && (forall id :: id in origin ==>
          && origin[id].Expr? && EmbedsGEP(origin[id]) && OccursIn(f, origin[id])
          && SameShape(Op(origin[id].op, []), f'.insts[id]))
    && (forall id :: id in f'.insts ==> Stands(Began(f, origin, id), Operands(f'.insts[id]), origin))
  }

  lemma ConvertsNothing(f: Func)
    ensures Converts(f, f, map[])
  {
  }

  /** A conversion replaces operands of the user that are the expression, and nothing else. */
  lemma OnlyTheConstant(f: Func, c: Conversion)
    requires Applies(f, c)
    ensures c.user in f.insts && c.user in Apply(f, c).insts
    ensures SameShape(f.insts[c.user], Apply(f, c).insts[c.user])
    ensures
      var vs, vs' := Operands(f.insts[c.user]), Operands(Apply(f, c).insts[c.user]);
      && |vs'| == |vs|
      && forall i :: 0 <= i < |vs| ==> vs'[i] == vs[i] || (vs[i] == c.ce && vs'[i] == Ref(c.made))
  {
    hide Placed, Shaped;
    if f.insts[c.user].Phi? {
      var inc := f.insts[c.user].incoming;
      assert InstOK(f.insts[c.user], f.insts.Keys, |f.blocks|);
      assert Blocks(Apply(f, c).insts[c.user].incoming) == Blocks(inc);
      forall i | 0 <= i < |inc| && inc[i].block == inc[c.index].block ensures inc[i].value == c.ce {
        assert inc[i].value == inc[c.index].value;
      }
    }
  }

  /** The expression converted occurs in the first function. */
  lemma ConstantOccurs(f0: Func, f: Func, c: Conversion, origin: map<Id, Value>)
    requires Converts(f0, f, origin) && c.ce.Expr? && c.user in f.insts && c.ce in Operands(f.insts[c.user])
    ensures OccursIn(f0, c.ce)
  {
    hide EmbedsGEP;
    var vs := Operands(f.insts[c.user]);
    var i :| 0 <= i < |vs| && vs[i] == c.ce;
    assert Stands(Began(f0, origin, c.user), vs, origin);
    assert Began(f0, origin, c.user)[i] == c.ce;
    assert Occurs(c.ce, c.ce);
    if c.user !in f0.insts {
      var s := origin[c.user];
      assert OccursIn(f0, s) && c.ce in s.args && Occurs(c.ce, s);
      var id, v :| id in f0.insts && v in Operands(f0.insts[id]) && Occurs(s, v);
      OccursTrans(c.ce, s, v);
    }
  }

  lemma StandsMore(vs: seq<Value>, vs': seq<Value>, origin: map<Id, Value>, made: Id, ce: Value)
    requires Stands(vs, vs', origin) && made !in origin
    ensures Stands(vs, vs', origin[made := ce])
  {
    hide EmbedsGEP;
  }

  lemma StandsConverted(
    vs: seq<Value>, vs': seq<Value>, vs'': seq<Value>, origin: map<Id, Value>, made: Id, ce: Value
  )
    requires Stands(vs, vs', origin) && made !in origin && ce.Expr? && EmbedsGEP(ce) && |vs''| == |vs'|
    requires forall i :: 0 <= i < |vs'| ==> vs''[i] == vs'[i] || (vs'[i] == ce && vs''[i] == Ref(made))
    ensures Stands(vs, vs'', origin[made := ce])
  {
    hide EmbedsGEP;
  }

  lemma StandsOneMore(f0: Func, f: Func, c: Conversion, origin: map<Id, Value>, id: Id)
    requires Converts(f0, f, origin) && Applies(f, c) && HasConstantGEP(c.ce)
    requires c.user in f.insts && c.ce in Operands(f.insts[c.user]) && id in Apply(f, c).insts
    ensures Stands(Began(f0, origin[c.made := c.ce], id), Operands(Apply(f, c).insts[id]), origin[c.made := c.ce])
  {
    hide EmbedsGEP, HasConstantGEP, OccursIn, Stands, WF, SameShape;
    ScanFindsGEP(c.ce);
    KindKept(f, c, c.user);
    OnlyTheConstant(f, c);
    OthersStay(f, c);
    hide Applies, Apply;
    if id == c.made {
      StandsSelf(c.ce.args, origin[c.made := c.ce]);
    } else if id == c.user {
      var vs := Operands(f.insts[id]);
      StandsConverted(Began(f0, origin, id), vs, Operands(Apply(f, c).insts[id]), origin, c.made, c.ce);
    } else {
      StandsMore(Began(f0, origin, id), Operands(f.insts[id]), origin, c.made, c.ce);
    }
  }

  lemma ShapesOneMore(f0: Func, f: Func, c: Conversion, origin: map<Id, Value>)
    requires Converts(f0, f, origin) && Applies(f, c) && c.ce.Expr? && c.user in f.insts
    ensures f0.insts.Keys <= Apply(f, c).insts.Keys && origin.Keys <= Apply(f, c).insts.Keys
    ensures forall id :: id in f0.insts ==> SameShape(f0.insts[id], Apply(f, c).insts[id])
    ensures forall id :: id in origin ==> SameShape(Op(origin[id].op, []), Apply(f, c).insts[id])
    ensures c.made in Apply(f, c).insts && SameShape(Op(c.ce.op, []), Apply(f, c).insts[c.made])
  {
    hide EmbedsGEP, OccursIn, Stands, WF, Began;
    KindKept(f, c, c.user);
    OnlyTheConstant(f, c);
    OthersStay(f, c);
    ShapeOfMade(c.ce.op, c.ce.args);
    hide Applies, Apply, SameShape;
    var f' := Apply(f, c);
    forall id | id in f0.insts ensures SameShape(f0.insts[id], f'.insts[id]) {
      if id == c.user {
        ShapeTrans(f0.insts[id], f.insts[id], f'.insts[id]);
      }
    }
    forall id | id in origin ensures SameShape(Op(origin[id].op, []), f'.insts[id]) {
      if id == c.user {
        ShapeTrans(Op(origin[id].op, []), f.insts[id], f'.insts[id]);
      }
    }
  }

  /** One more conversion, recorded with the expression the made instruction stands for. */
  lemma ConvertsOneMore(f0: Func, f: Func, c: Conversion, origin: map<Id, Value>)
    requires Converts(f0, f, origin) && Applies(f, c) && HasConstantGEP(c.ce)
    requires c.user in f.insts && c.ce in Operands(f.insts[c.user])
    ensures Converts(f0, Apply(f, c), origin[c.made := c.ce])
  {
    hide EmbedsGEP, HasConstantGEP, OccursIn, Stands, WF;
    var f', origin' := Apply(f, c), origin[c.made := c.ce];
    ScanFindsGEP(c.ce);
    ConstantOccurs(f0, f, c, origin);
    OthersStay(f, c);
    hide Applies, Apply, SameShape, Began;
    forall id | id in f'.insts ensures Stands(Began(f0, origin', id), Operands(f'.insts[id]), origin') {
      StandsOneMore(f0, f, c, origin, id);
    }
    ShapesOneMore(f0, f, c, origin);
  }

  lemma StandsSelf(vs: seq<Value>, origin: map<Id, Value>)
    ensures Stands(vs, vs, origin)
  {
  }

  lemma ShapeOfMade(op: Opcode, args: seq<Value>)
    ensures SameShape(Op(op, []), Op(op, args))
  {
  }

  lemma ShapeTrans(a: Inst, b: Inst, c: Inst)
    requires SameShape(a, b) && SameShape(b, c)
    ensures SameShape(a, c)
  {
  }

  lemma OthersStay(f: Func, c: Conversion)
    requires Applies(f, c)
    ensures Apply(f, c).insts.Keys == f.insts.Keys + {c.made} && c.made !in f.insts
    ensures forall id :: id in f.insts && id != c.user ==> Apply(f, c).insts[id] == f.insts[id]
    ensures c.ce.Expr? ==> Apply(f, c).insts[c.made] == Op(c.ce.op, c.ce.args)
  {
    hide Placed, Shaped, WF;
  }
}
