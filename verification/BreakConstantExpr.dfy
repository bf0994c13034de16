/** The pass that turns constant address expressions, however deeply nested, into instructions. */
module BreakConstantExpr {
  import opened ConstantGEPs
  import opened LoweringStep
  import opened SsaIR
  import opened SsaDominance

  // How much constant expression is left.

  ghost function Size(v: Value): nat {
    if v.Expr? then 1 + Sizes(v.args) else 0
  }

  ghost function Sizes(vs: seq<Value>): nat {
    if vs == [] then 0 else Size(vs[0]) + Sizes(vs[1..])
  }

  ghost function Weight(insts: map<Id, Inst>, worklist: seq<Id>): nat
    requires forall id :: id in worklist ==> id in insts
  {
    if worklist == [] then 0
    else 1 + Sizes(Operands(insts[worklist[0]])) + Weight(insts, worklist[1..])
  }

  lemma {:induction false} SizesShrink(vs: seq<Value>, vs': seq<Value>, i: nat, d: nat)
    requires |vs| == |vs'| && i < |vs| && Size(vs'[i]) + d <= Size(vs[i])
    requires forall k :: 0 <= k < |vs| ==> Size(vs'[k]) <= Size(vs[k])
    ensures Sizes(vs') + d <= Sizes(vs)
  {
    if i > 0 {
      SizesShrink(vs[1..], vs'[1..], i - 1, d);
    } else {
      SizesMono(vs[1..], vs'[1..]);
    }
  }

  lemma {:induction false} SizesMono(vs: seq<Value>, vs': seq<Value>)
    requires |vs| == |vs'| && forall k :: 0 <= k < |vs| ==> Size(vs'[k]) <= Size(vs[k])
    ensures Sizes(vs') <= Sizes(vs)
  {
    if vs != [] {
      SizesMono(vs[1..], vs'[1..]);
    }
  }

  lemma {:induction false} WeightMono(insts: map<Id, Inst>, insts': map<Id, Inst>, worklist: seq<Id>)
    requires forall id :: id in worklist ==> id in insts && id in insts'
    requires forall id :: id in worklist ==> Sizes(Operands(insts'[id])) <= Sizes(Operands(insts[id]))
    ensures Weight(insts', worklist) <= Weight(insts, worklist)
  {
    if worklist != [] {
      WeightMono(insts, insts', worklist[1..]);
    }
  }

  lemma {:induction false} WeightPush(insts: map<Id, Inst>, worklist: seq<Id>, id: Id)
    requires id in insts && forall x :: x in worklist ==> x in insts
    ensures Weight(insts, worklist + [id]) == Weight(insts, worklist) + 1 + Sizes(Operands(insts[id]))
  {
    if worklist != [] {
      assert (worklist + [id])[1..] == worklist[1..] + [id];
      WeightPush(insts, worklist[1..], id);
    } else {
      assert worklist + [id] == [id];
      assert [id][1..] == [];
    }
  }

  /** A conversion costs no weight: the user shrinks by what the made instruction brings in. */
  lemma ConversionWeight(f: Func, c: Conversion, worklist: seq<Id>)
    requires Applies(f, c) && c.ce in Operands(f.insts[c.user])
    requires forall id :: id in worklist ==> id in f.insts
    ensures c.made in Apply(f, c).insts && c.user in Apply(f, c).insts
    ensures forall id :: id in worklist + [c.made] ==> id in Apply(f, c).insts
    ensures Weight(Apply(f, c).insts, worklist + [c.made]) + Sizes(Operands(Apply(f, c).insts[c.user]))
         <= Weight(f.insts, worklist) + Sizes(Operands(f.insts[c.user]))
  {
    hide WF;
    var f' := Apply(f, c);
    var vs, vs' := Operands(f.insts[c.user]), Operands(f'.insts[c.user]);
    RewrittenOperands(f, c);
    var i :| 0 <= i < |vs| && vs[i] == c.ce && vs'[i] == Ref(c.made);
    SizesShrink(vs, vs', i, Size(c.ce));
    WeightMono(f.insts, f'.insts, worklist);
    WeightPush(f'.insts, worklist, c.made);
  }

  /** The user's operands are as before, but for uses of the constant expression. */
  lemma RewrittenOperands(f: Func, c: Conversion)
    requires Applies(f, c) && c.ce in Operands(f.insts[c.user])
    ensures
      var vs, vs' := Operands(f.insts[c.user]), Operands(Apply(f, c).insts[c.user]);
      && |vs'| == |vs|
      && (forall i :: 0 <= i < |vs| ==> vs'[i] == vs[i] || vs'[i] == Ref(c.made))
      && (f.insts[c.user].Op? ==> forall i :: 0 <= i < |vs| && vs[i] == c.ce ==> vs'[i] == Ref(c.made))
      && (f.insts[c.user].Phi? ==> c.index < |vs| && vs[c.index] == c.ce && vs'[c.index] == Ref(c.made))
      && exists i :: 0 <= i < |vs| && vs[i] == c.ce && vs'[i] == Ref(c.made)
  {
    hide WF;
    var vs := Operands(f.insts[c.user]);
    if f.insts[c.user].Op? {
      var i :| 0 <= i < |vs| && vs[i] == c.ce;
      assert Operands(Apply(f, c).insts[c.user])[i] == Ref(c.made);
    }
  }

  /** Converting an operand of an ordinary instruction in front of that instruction is a conversion. */
  lemma OperandApplies(f: Func, c: Conversion, index: nat)
    requires WF(f) && c.user in f.insts && f.insts[c.user].Op? && c.made !in f.insts
    requires index < |f.insts[c.user].operands| && f.insts[c.user].operands[index] == c.ce && HasConstantGEP(c.ce)
    requires At(f.blocks, c.user, c.b, c.j)
    ensures Applies(f, c) && c.ce in Operands(f.insts[c.user])
    ensures Apply(f, c) == Func(f.blocks[c.b := Insert(f.blocks[c.b], c.j, c.made)],
      f.insts[c.made := Op(c.ce.op, c.ce.args)]
             [c.user := Op(f.insts[c.user].opcode, ReplaceUses(f.insts[c.user].operands, c.ce, Ref(c.made)))])
  {
    hide WF;
    OperandConst(f, c.user, index);
  }

  lemma OperandConst(f: Func, user: Id, index: nat)
    requires WF(f) && user in f.insts && index < |Operands(f.insts[user])|
    ensures Operands(f.insts[user])[index].Expr? ==> IsConst(Operands(f.insts[user])[index])
  {
    hide Placed, Shaped;
    assert InstOK(f.insts[user], f.insts.Keys, |f.blocks|);
    assert Operands(f.insts[user])[index] in Operands(f.insts[user]);
  }

  /** PHI entries for the same block carry the same value. */
  lemma EntriesAgree(f: Func, user: Id, i: nat, j: nat)
    requires WF(f) && user in f.insts && f.insts[user].Phi?
    requires i < |f.insts[user].incoming| && j < |f.insts[user].incoming|
    ensures f.insts[user].incoming[i].block == f.insts[user].incoming[j].block
        ==> f.insts[user].incoming[i].value == f.insts[user].incoming[j].value
  {
    hide Placed, Shaped;
    assert InstOK(f.insts[user], f.insts.Keys, |f.blocks|);
  }

  lemma PhiEntry(f: Func, user: Id, index: nat)
    requires WF(f) && user in f.insts && f.insts[user].Phi? && index < |f.insts[user].incoming|
    ensures
      var b := f.insts[user].incoming[index].block;
      b < |f.blocks| && f.blocks[b] != [] && f.blocks[b][|f.blocks[b]| - 1] in f.insts
  {
    hide Placed;
    assert InstOK(f.insts[user], f.insts.Keys, |f.blocks|);
  }

  /** Entry `c.index` of a PHI holds the expression, and the insertion place is that of the last
      instruction of the entry's block. */
  ghost predicate ConvertsEntry(f: Func, c: Conversion) {
    && c.user in f.insts && f.insts[c.user].Phi? && c.made !in f.insts
    && c.index < |f.insts[c.user].incoming| && f.insts[c.user].incoming[c.index].value == c.ce && HasConstantGEP(c.ce)
    && AtEnd(f, f.insts[c.user].incoming[c.index].block, c.b, c.j)
  }

  ghost predicate AtEnd(f: Func, block: BlockId, b: nat, j: nat) {
    block < |f.blocks| && f.blocks[block] != [] && At(f.blocks, f.blocks[block][|f.blocks[block]| - 1], b, j)
  }

  lemma EndPlace(f: Func, block: BlockId, b: nat, j: nat)
    requires WF(f) && AtEnd(f, block, b, j)
    ensures b == block && j == |f.blocks[b]| - 1
  {
    hide WF;
    assert At(f.blocks, f.blocks[block][|f.blocks[block]| - 1], block, |f.blocks[block]| - 1);
    PlaceUnique(f, f.blocks[block][|f.blocks[block]| - 1], b, j, block, |f.blocks[block]| - 1);
  }

  /** Converting a PHI entry in front of its block's terminator is a conversion, as the entries
      before it hold no constant address computation. */
  lemma EntryApplies(f: Func, c: Conversion)
    requires WF(f) && ConvertsEntry(f, c) && Clean(f.insts[c.user], c.index)
    ensures Applies(f, c) && c.ce in Operands(f.insts[c.user])
  {
    hide WF, HasConstantGEP, IsConst;
    var inc := f.insts[c.user].incoming;
    EndPlace(f, inc[c.index].block, c.b, c.j);
    hide AtEnd;
    assert Operands(f.insts[c.user])[c.index] == c.ce;
    OperandConst(f, c.user, c.index);
    GEPIsExpr(c.ce);
    forall i | 0 <= i < c.index ensures inc[i].block != c.b {
      assert Operands(f.insts[c.user])[i] == inc[i].value;
      EntriesAgree(f, c.user, i, c.index);
    }
  }

  lemma GEPIsExpr(v: Value)
    requires HasConstantGEP(v)
    ensures v.Expr?
  {
  }

  lemma EntryResult(f: Func, c: Conversion)
    requires Applies(f, c) && f.insts[c.user].Phi?
    ensures c.index < |f.insts[c.user].incoming|
    ensures Apply(f, c) == Func(f.blocks[c.b := Insert(f.blocks[c.b], c.j, c.made)],
      f.insts[c.made := Op(c.ce.op, c.ce.args)]
             [c.user := Phi(ReplaceEntries(f.insts[c.user].incoming, c.index, Ref(c.made)))])
  {
    hide WF;
  }

  /** After a conversion the function is verified, keeps what `f0` had, and only the user changed. */
  lemma ConversionDone(f0: Func, f: Func, c: Conversion)
    requires Applies(f, c) && Preserves(f0, f)
    ensures WF(Apply(f, c)) && Preserves(f0, Apply(f, c)) && Apply(f, c).insts.Keys == f.insts.Keys + {c.made}
    ensures forall id :: id in f.insts && id != c.user ==> Apply(f, c).insts[id] == f.insts[id]
    ensures c.user in f.insts && Apply(f, c).insts[c.user].Phi? == f.insts[c.user].Phi?
  {
    hide WF, Preserves;
    ConversionPreserves(f0, f, c);
    ConversionKeepsWF(f, c);
  }

  /** The first `n` operands are converted. */
  ghost predicate Clean(inst: Inst, n: nat) {
    n <= |Operands(inst)| && forall k :: 0 <= k < n ==> !HasConstantGEP(Operands(inst)[k])
  }

  lemma CleanStep(f: Func, c: Conversion, n: nat)
    requires Applies(f, c) && Clean(f.insts[c.user], n) && n < |Operands(f.insts[c.user])|
    requires Operands(f.insts[c.user])[n] == c.ce && (f.insts[c.user].Phi? ==> n == c.index)
    ensures c.user in Apply(f, c).insts && Clean(Apply(f, c).insts[c.user], n + 1)
    ensures |Operands(Apply(f, c).insts[c.user])| == |Operands(f.insts[c.user])|
  {
    hide Applies, Apply;
    KindKept(f, c, c.user) by { UserKnown(f, c); }
    RewrittenOperands(f, c);
  }

  lemma CleanNext(inst: Inst, n: nat)
    requires Clean(inst, n) && n < |Operands(inst)| && !HasConstantGEP(Operands(inst)[n])
    ensures Clean(inst, n + 1)
  {
  }

  lemma CleanNone(inst: Inst)
    ensures Clean(inst, 0)
  {
  }

  lemma CleanAll(inst: Inst)
    requires Clean(inst, |Operands(inst)|)
    ensures !UsesGEP(inst)
  {
  }

  /** What one conversion of operand `n` leaves: everything kept, one more operand clean, and the
      new instruction paid for by the operand. */
  lemma ConversionStep(
    f0: Func, f: Func, c: Conversion, n: nat, worklist: seq<Id>, origin: map<Id, Value>
  )
    requires Applies(f, c) && Preserves(f0, f) && Converts(f0, f, origin) && HasConstantGEP(c.ce)
    requires Clean(f.insts[c.user], n) && n < |Operands(f.insts[c.user])|
    requires Operands(f.insts[c.user])[n] == c.ce && (f.insts[c.user].Phi? ==> n == c.index)
    requires forall id :: id in worklist ==> id in f.insts
    ensures WF(Apply(f, c)) && Preserves(f0, Apply(f, c)) && Apply(f, c).insts.Keys == f.insts.Keys + {c.made}
    ensures Converts(f0, Apply(f, c), origin[c.made := c.ce])
    ensures c.user in f.insts && c.user != c.made && Apply(f, c).insts[c.user].Phi? == f.insts[c.user].Phi?
    ensures |Operands(Apply(f, c).insts[c.user])| == |Operands(f.insts[c.user])|
    ensures Clean(Apply(f, c).insts[c.user], n + 1)
    ensures forall id :: id in f.insts && id != c.user ==> Apply(f, c).insts[id] == f.insts[id]
    ensures forall id :: id in worklist + [c.made] ==> id in Apply(f, c).insts
    ensures Weight(Apply(f, c).insts, worklist + [c.made]) + Sizes(Operands(Apply(f, c).insts[c.user]))
         <= Weight(f.insts, worklist) + Sizes(Operands(f.insts[c.user]))
  {
    UserIsOld(f, c);
    hide WF, Preserves, Converts, HasConstantGEP, Applies, Apply, Clean, UsesGEP;
    ConversionDone(f0, f, c);
    CleanStep(f, c, n);
    assert c.ce in Operands(f.insts[c.user]);
    ConvertsOneMore(f0, f, c, origin);
    ConversionWeight(f, c, worklist);
  }

  lemma UserIsOld(f: Func, c: Conversion)
    requires Applies(f, c)
    ensures c.user in f.insts && c.made !in f.insts
  {
  }

  class FunctionBody {
    var blocks: seq<seq<Id>>
    var insts: map<Id, Inst>
    var nextId: Id
    /** The expressions the made instructions stand for. */
    ghost var origin: map<Id, Value>

    constructor (f: Func, nextId: Id)
      ensures Body() == f && this.nextId == nextId
    {
      blocks, insts, this.nextId := f.blocks, f.insts, nextId;
      origin := map[];
    }

    ghost function Body(): Func
      reads this
    {
      Func(blocks, insts)
    }

    /** A verified function that keeps the meaning and the dominance of `f0` and is `f0` but for
        converted expressions; identities from `nextId` on are unused. */
    ghost predicate Lowers(f0: Func)
      reads this
    {
      && WF(Body()) && Preserves(f0, Body()) && Converts(f0, Body(), origin)
      && forall id :: id in insts ==> id < nextId
    }

    /** Every user of a constant address computation is on the worklist; `but` may be missing. */
    ghost predicate Pending(worklist: seq<Id>, but: set<Id>)
      reads this
    {
      && (forall id :: id in worklist ==> id in insts)
      && (forall id :: id in insts && UsesGEP(insts[id]) ==> id in worklist || id in but)
    }

    /** Finds the place of an instruction. */
    method PlaceOf(id: Id) returns (b: nat, j: nat)
      requires WF(Body()) && id in insts
      ensures At(blocks, id, b, j)
    {
      ghost var b0, j0 := InstPlace(Body(), id);
      b := 0;
      while b < |blocks|
        invariant b <= b0
      {
        j := 0;
        while j < |blocks[b]|
          invariant j <= |blocks[b]| && b <= b0 && (b == b0 ==> j <= j0)
        {
          if blocks[b][j] == id {
            return;
          }
          j := j + 1;
        }
        b := b + 1;
      }
    }

    /** Makes an instruction of `ce`, without converting its operands, in front of `insertPt`. */
    method ConvertExpression(ce: Value, insertPt: Id) returns (result: Id, ghost b: nat, ghost j: nat)
      requires WF(Body()) && insertPt in insts && ce.Expr?
      modifies this
      ensures result == old(nextId) && nextId == result + 1
      ensures At(old(blocks), insertPt, b, j)
      ensures blocks == old(blocks)[b := Insert(old(blocks)[b], j, result)]
      ensures insts == old(insts)[result := Op(ce.op, ce.args)] && origin == old(origin)[result := ce]
    {
      var b', j' := PlaceOf(insertPt);
      result := nextId;
      nextId := nextId + 1;
      insts := insts[result := Op(ce.op, ce.args)];
      origin := origin[result := ce];
      blocks := blocks[b' := Insert(blocks[b'], j', result)];
      b, j := b', j';
    }

    /** All uses of `ce` in an instruction become uses of `made`. */
    method ReplaceUsesOfWith(user: Id, ce: Value, made: Id)
      requires user in insts && insts[user].Op?
      modifies this`insts
      ensures insts ==
        old(insts)[user := Op(old(insts)[user].opcode, ReplaceUses(old(insts)[user].operands, ce, Ref(made)))]
    {
      var inst := insts[user];
      var operands := inst.operands;
      for i := 0 to |operands|
        invariant |operands| == |inst.operands|
        invariant forall k :: 0 <= k < |operands| ==>
          operands[k] == if k < i && inst.operands[k] == ce then Ref(made) else inst.operands[k]
      {
        if operands[i] == ce {
          operands := operands[i := Ref(made)];
        }
      }
      assert operands == ReplaceUses(inst.operands, ce, Ref(made));
      insts := insts[user := Op(inst.opcode, operands)];
    }

    /** From entry `index` on, the entries of the same block get `made`. */
    method ReplaceIncoming(phi: Id, index: nat, made: Id)
      requires phi in insts && insts[phi].Phi? && index < |insts[phi].incoming|
      modifies this`insts
      ensures insts == old(insts)[phi := Phi(ReplaceEntries(old(insts)[phi].incoming, index, Ref(made)))]
    {
      var inc := insts[phi].incoming;
      var incoming := inc;
      for i2 := index to |inc|
        invariant |incoming| == |inc|
        invariant forall k :: 0 <= k < |inc| ==>
          incoming[k] ==
            if index <= k < i2 && inc[k].block == inc[index].block then Incoming(inc[k].block, Ref(made)) else inc[k]
      {
        if incoming[i2].block == incoming[index].block {
          incoming := incoming[i2 := Incoming(incoming[i2].block, Ref(made))];
        }
      }
      assert incoming == ReplaceEntries(inc, index, Ref(made));
      insts := insts[phi := Phi(incoming)];
    }

    /** Converts the operands of an ordinary instruction, in front of that instruction. */
    method LowerOperands(user: Id, worklist: seq<Id>, ghost f0: Func) returns (grown: seq<Id>)
      requires Lowers(f0) && Pending(worklist, {user}) && user in insts && insts[user].Op?
      modifies this
      ensures Lowers(f0) && Pending(grown, {}) && insts.Keys >= old(insts).Keys
      ensures Weight(insts, grown) <= old(Weight(insts, worklist) + Sizes(Operands(insts[user])))
    {
      hide WF, Preserves, Converts, Applies, Apply, Clean, UsesGEP, HasConstantGEP, Weight, Sizes;
      hide Insert, ReplaceEntries, ReplaceUses;
      grown := worklist;
      ghost var budget := Weight(insts, worklist) + Sizes(Operands(insts[user]));
      var n := |insts[user].operands|;
      CleanNone(insts[user]);
      for index := 0 to n
        invariant Lowers(f0) && Pending(grown, {user}) && insts.Keys >= old(insts).Keys
        invariant user in insts && insts[user].Op? && |insts[user].operands| == n
        invariant Clean(insts[user], index)
        invariant Weight(insts, grown) + Sizes(Operands(insts[user])) <= budget
      {
        var ce := insts[user].operands[index];
        if HasConstantGEP(ce) {
          ghost var f, before := Body(), origin;
          GEPIsExpr(ce);
          var made; ghost var b, j;
          made, b, j := ConvertExpression(ce, user);
          ReplaceUsesOfWith(user, ce, made);
          ghost var c := Conversion(user, 0, b, j, ce, made);
          OperandApplies(f, c, index);
          assert Body() == Apply(f, c);
          ConversionStep(f0, f, c, index, grown, before);
          grown := grown + [made];
        } else {
          CleanNext(insts[user], index);
        }
      }
      CleanAll(insts[user]);
    }

    /** Converts the entries of a PHI, each in front of the terminator of its incoming block. */
    method LowerPhi(user: Id, worklist: seq<Id>, ghost f0: Func) returns (grown: seq<Id>)
      requires Lowers(f0) && Pending(worklist, {user}) && user in insts && insts[user].Phi?
      modifies this
      ensures Lowers(f0) && Pending(grown, {}) && insts.Keys >= old(insts).Keys
      ensures Weight(insts, grown) <= old(Weight(insts, worklist) + Sizes(Operands(insts[user])))
    {
      hide WF, Preserves, Converts, Applies, Apply, Clean, UsesGEP, HasConstantGEP, Weight, Sizes;
      hide Insert, ReplaceEntries, ReplaceUses;
      grown := worklist;
      ghost var budget := Weight(insts, worklist) + Sizes(Operands(insts[user]));
      var n := |insts[user].incoming|;
      CleanNone(insts[user]);
      for index := 0 to n
        invariant Lowers(f0) && Pending(grown, {user}) && insts.Keys >= old(insts).Keys
        invariant user in insts && insts[user].Phi? && |insts[user].incoming| == n
        invariant Clean(insts[user], index)
        invariant Weight(insts, grown) + Sizes(Operands(insts[user])) <= budget
      {
        ghost var f, before := Body(), origin;
        PhiEntry(f, user, index);
        var ids := blocks[insts[user].incoming[index].block];
        var insertPt := ids[|ids| - 1];
        var ce := insts[user].incoming[index].value;
        if HasConstantGEP(ce) {
          GEPIsExpr(ce);
          var made; ghost var b, j;
          made, b, j := ConvertExpression(ce, insertPt);
          ReplaceIncoming(user, index, made);
          ghost var c := Conversion(user, index, b, j, ce, made);
          EntryApplies(f, c);
          EntryResult(f, c);
          assert Body() == Apply(f, c);
          ConversionStep(f0, f, c, index, grown, before);
          grown := grown + [made];
        } else {
          CleanNext(insts[user], index);
        }
      }
      CleanAll(insts[user]);
    }

    /** The users of constant address computations, once for each operand that holds one. */
    method CollectUsers() returns (worklist: seq<Id>)
      requires WF(Body())
      ensures Pending(worklist, {})
      ensures forall id :: id in worklist ==> UsesGEP(insts[id])
    {
      hide WF, UsesGEP;
      worklist := [];
      for b := 0 to |blocks|
        invariant Scanned(Body(), worklist, b, 0)
      {
        for j := 0 to |blocks[b]|
          invariant Scanned(Body(), worklist, b, j)
        {
          var id := blocks[b][j];
          PlaceKnown(Body(), id, b, j) by { assert At(blocks, id, b, j); }
          var operands := Operands(insts[id]);
          CleanNone(insts[id]);
          for index := 0 to |operands|
            invariant Scanned(Body(), worklist, b, j)
            invariant id in worklist || Clean(insts[id], index)
          {
            if HasConstantGEP(operands[index]) {
              assert UsesGEP(insts[id]) by { UseFound(insts[id], index); }
              worklist := worklist + [id];
            } else if id !in worklist {
              CleanNext(insts[id], index);
            }
          }
          if id !in worklist {
            CleanAll(insts[id]);
          }
          ScannedNext(Body(), worklist, b, j);
        }
        ScannedBlock(Body(), worklist, b);
      }
      ScannedAll(Body(), worklist);
    }

    /** Lowers one function: afterwards no address computation occurs in an operand, and the function
        is what it was but for instructions made in place of expressions with one. Reports whether
        there was any. */
    method RunOnFunction() returns (modified: bool)
      requires WF(Body()) && forall id :: id in insts ==> id < nextId
      modifies this
      ensures WF(Body()) && Preserves(old(Body()), Body()) && NormalForm(Body())
      ensures Converts(old(Body()), Body(), origin)
      ensures modified <==> !NormalForm(old(Body()))
      ensures !modified ==> Body() == old(Body())
    {
      hide WF, Preserves, Converts, UsesGEP, NormalForm;
      ghost var f0 := Body();
      PreservesSelf(f0);
      ConvertsNothing(f0);
      NormalFormIff(f0);
      origin := map[];
      var worklist := CollectUsers();
      modified := worklist != [];
      if modified {
        assert worklist[0] in worklist;
      }
      while worklist != []
        invariant Lowers(f0) && Pending(worklist, {})
        invariant !modified ==> worklist == [] && Body() == f0
        decreases Weight(insts, worklist)
      {
        var user := worklist[|worklist| - 1];
        ghost var rest := worklist[..|worklist| - 1];
        assert worklist == rest + [user];
        WeightPush(insts, rest, user);
        worklist := worklist[..|worklist| - 1];
        if insts[user].Phi? {
          worklist := LowerPhi(user, worklist, f0);
        } else {
          worklist := LowerOperands(user, worklist, f0);
        }
      }
      NormalFormIff(Body());
    }
  }

  // The initial scan: everything up to place (b, j) that uses a constant address computation is listed.

  ghost predicate Scanned(f: Func, worklist: seq<Id>, b: nat, j: nat) {
    && (forall id :: id in worklist ==> id in f.insts && UsesGEP(f.insts[id]))
    && (forall id, b': nat, j': nat ::
          At(f.blocks, id, b', j') && (b' < b || (b' == b && j' < j)) && id in f.insts && UsesGEP(f.insts[id]) ==>
            id in worklist)
  }

  lemma UseFound(inst: Inst, index: nat)
    requires index < |Operands(inst)| && HasConstantGEP(Operands(inst)[index])
    ensures UsesGEP(inst)
  {
  }

  lemma ScannedNext(f: Func, worklist: seq<Id>, b: nat, j: nat)
    requires Scanned(f, worklist, b, j) && b < |f.blocks| && j < |f.blocks[b]| && f.blocks[b][j] in f.insts
    requires f.blocks[b][j] in worklist || !UsesGEP(f.insts[f.blocks[b][j]])
    ensures Scanned(f, worklist, b, j + 1)
  {
    hide UsesGEP;
  }

  lemma ScannedBlock(f: Func, worklist: seq<Id>, b: nat)
    requires b < |f.blocks| && Scanned(f, worklist, b, |f.blocks[b]|)
    ensures Scanned(f, worklist, b + 1, 0)
  {
    hide UsesGEP;
  }

  lemma ScannedAll(f: Func, worklist: seq<Id>)
    requires WF(f) && Scanned(f, worklist, |f.blocks|, 0)
    ensures forall id :: id in f.insts && UsesGEP(f.insts[id]) ==> id in worklist
  {
    hide UsesGEP, WF;
    forall id | id in f.insts && UsesGEP(f.insts[id]) ensures id in worklist {
      var b, j := InstPlace(f, id);
    }
  }

  /** A constant address computation occurs in some operand of the function. */
  ghost predicate HasGEPOperand(f: Func) {
    exists id, v, s :: id in f.insts && v in Operands(f.insts[id]) && Occurs(s, v) && s.Expr? && s.op == GetElementPtr
  }

  lemma NormalFormHasNone(f: Func)
    ensures NormalForm(f) <==> !HasGEPOperand(f)
  {
    if id, v, s :| id in f.insts && v in Operands(f.insts[id]) && Occurs(s, v) && s.Expr? && s.op == GetElementPtr {
      assert EmbedsGEP(v);
    }
  }

  ghost predicate Lowered(f: Func, f': Func) {
    WF(f') && Preserves(f, f') && !HasGEPOperand(f') && exists origin :: Converts(f, f', origin)
  }

  /** The pass over a module: every function is lowered, means what it meant, keeps its uses
      dominated by their definitions, and is otherwise unchanged; the result tells whether a constant
      address computation occurred in an operand of any function. */
  method RunOnModule(fs: seq<Func>, nextId: Id) returns (modified: bool, lowered: seq<Func>)
    requires forall i :: 0 <= i < |fs| ==> WF(fs[i]) && forall id :: id in fs[i].insts ==> id < nextId
    ensures |lowered| == |fs|
    ensures forall i :: 0 <= i < |fs| ==> Lowered(fs[i], lowered[i])
    ensures modified <==> exists i :: 0 <= i < |fs| && HasGEPOperand(fs[i])
    ensures !modified ==> lowered == fs
  {
    hide WF, Preserves, Converts, NormalForm, HasGEPOperand;
    modified, lowered := false, [];
    for i := 0 to |fs|
      invariant |lowered| == i
      invariant forall k :: 0 <= k < i ==> Lowered(fs[k], lowered[k])
      invariant modified <==> exists k :: 0 <= k < i && HasGEPOperand(fs[k])
      invariant !modified ==> lowered == fs[..i]
    {
      var body := new FunctionBody(fs[i], nextId);
      var changed := body.RunOnFunction();
      NormalFormHasNone(fs[i]);
      NormalFormHasNone(body.Body());
      modified := modified || changed;
      lowered := lowered + [Func(body.blocks, body.insts)];
    }
  }
}
