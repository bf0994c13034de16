/** One conversion of a constant expression into an instruction, and why it keeps the meaning
    of the function. */
module LoweringStep {
  import opened SsaIR

  function ReplaceUses(vs: seq<Value>, ce: Value, v: Value): seq<Value> {
    seq(|vs|, i requires 0 <= i < |vs| => if vs[i] == ce then v else vs[i])
  }

  /** From entry `index` on, every entry of the same block gets `v`. */
  function ReplaceEntries(incoming: seq<Incoming>, index: nat, v: Value): seq<Incoming>
    requires index < |incoming|
  {
    seq(|incoming|, i requires 0 <= i < |incoming| =>
      if i >= index && incoming[i].block == incoming[index].block then Incoming(incoming[i].block, v) else incoming[i])
  }

  function Insert(ids: seq<Id>, j: nat, id: Id): seq<Id>
    requires j <= |ids|
  {
    ids[..j] + [id] + ids[j..]
  }

  /** One conversion: constant expression `ce`, an operand of `user`, becomes instruction `made`
      at place `j` of block `b`, and the uses in `user` are replaced. `index` is the entry
      converted when `user` is a PHI. */
  datatype Conversion = Conversion(user: Id, index: nat, b: BlockId, j: nat, ce: Value, made: Id)

  ghost predicate Applies(f: Func, c: Conversion) {
    && WF(f)
    && c.user in f.insts && c.made !in f.insts
    && c.ce.Expr? && IsConst(c.ce)
    && c.b < |f.blocks| && c.j < |f.blocks[c.b]|
    && (match f.insts[c.user]
        case Op(_, operands) => At(f.blocks, c.user, c.b, c.j)
        case Phi(incoming) =>
          && c.index < |incoming| && incoming[c.index] == Incoming(c.b, c.ce)
          && (forall i :: 0 <= i < c.index ==> incoming[i].block != c.b)
          && c.j == |f.blocks[c.b]| - 1)
  }

  function Rewritten(inst: Inst, c: Conversion): Inst {
    match inst
    case Op(opcode, operands) => Op(opcode, ReplaceUses(operands, c.ce, Ref(c.made)))
    case Phi(incoming) => if c.index < |incoming| then Phi(ReplaceEntries(incoming, c.index, Ref(c.made))) else inst
  }

  ghost function Apply(f: Func, c: Conversion): Func
    requires Applies(f, c)
  {
    Func(f.blocks[c.b := Insert(f.blocks[c.b], c.j, c.made)],
         f.insts[c.made := Op(c.ce.op, c.ce.args)][c.user := Rewritten(f.insts[c.user], c)])
  }

  /** The converted instruction has run and holds the value of the constant expression. */
  ghost predicate Holds(m: Machine, c: Conversion, env: Env) {
    c.made in env && env[c.made] == Eval(m, map[], c.ce)
  }

  lemma {:induction false} ConstEval(m: Machine, env: Env, v: Value)
    requires IsConst(v)
    ensures Eval(m, env, v) == Eval(m, map[], v)
    decreases v
  {
    if v.Expr? {
      ConstEvalAll(m, env, v.args);
    }
  }

  lemma {:induction false} ConstEvalAll(m: Machine, env: Env, vs: seq<Value>)
    requires forall v :: v in vs ==> IsConst(v)
    ensures EvalAll(m, env, vs) == EvalAll(m, map[], vs)
    decreases vs
  {
    if vs != [] {
      ConstEval(m, env, vs[0]);
      ConstEvalAll(m, env, vs[1..]);
    }
  }

  lemma ValueSim(m: Machine, K: set<Id>, env: Env, env': Env, v: Value)
    requires Agree(K, env, env') && ValueOK(v, K)
    ensures Eval(m, env, v) == Eval(m, env', v)
  {
    if v.Expr? {
      ConstEval(m, env, v);
      ConstEval(m, env', v);
    }
  }

  /** Operands stay but for those of the user that were the constant. */
  lemma OperandsAfter(f: Func, c: Conversion, id: Id)
    requires Applies(f, c) && id in f.insts && f.insts[id].Op?
    ensures id in Apply(f, c).insts && Apply(f, c).insts[id].Op?
    ensures Apply(f, c).insts[id].opcode == f.insts[id].opcode && IsConst(c.ce)
    ensures
      var vs, vs' := f.insts[id].operands, Apply(f, c).insts[id].operands;
      && |vs| == |vs'|
      && forall i | 0 <= i < |vs| ::
           ValueOK(vs[i], f.insts.Keys) && (vs'[i] == vs[i] || (id == c.user && vs[i] == c.ce && vs'[i] == Ref(c.made)))
  {
    var vs := f.insts[id].operands;
    assert InstOK(f.insts[id], f.insts.Keys, |f.blocks|);
    forall i | 0 <= i < |vs| ensures ValueOK(vs[i], f.insts.Keys) {
      assert vs[i] == Operands(f.insts[id])[i];
    }
  }

  /** Operands of an instruction give the same values after the conversion; for the user this
      needs the converted instruction to have run. */
  lemma OperandsSim(m: Machine, f: Func, c: Conversion, id: Id, env: Env, env': Env)
    requires Applies(f, c) && Agree(f.insts.Keys, env, env')
    requires id in f.insts && f.insts[id].Op?
    requires id == c.user ==> Holds(m, c, env')
    ensures id in Apply(f, c).insts
    ensures Apply(f, c).insts[id].Op? && Apply(f, c).insts[id].opcode == f.insts[id].opcode
    ensures EvalAll(m, env, f.insts[id].operands) == EvalAll(m, env', Apply(f, c).insts[id].operands)
  {
    hide Applies, Apply;
    OperandsAfter(f, c, id);
    var vs, vs' := f.insts[id].operands, Apply(f, c).insts[id].operands;
    forall i | 0 <= i < |vs| ensures Eval(m, env, vs[i]) == Eval(m, env', vs'[i]) {
      ValueSim(m, f.insts.Keys, env, env', vs[i]);
      if vs[i] != vs'[i] {
        ConstEval(m, env, c.ce);
      }
    }
  }

  lemma PhiSim(m: Machine, f: Func, c: Conversion, id: Id, pred: BlockId, env: Env, env': Env)
    requires Applies(f, c) && Agree(f.insts.Keys, env, env') && PicksEntries(m)
    requires id in f.insts && f.insts[id].Phi?
    requires pred == c.b ==> Holds(m, c, env')
    ensures Apply(f, c).insts[id].Phi?
    ensures PhiValue(m, env, f.insts[id].incoming, pred) == PhiValue(m, env', Apply(f, c).insts[id].incoming, pred)
  {
    hide Shaped, Placed;
    var inc, inc' := f.insts[id].incoming, Apply(f, c).insts[id].incoming;
    assert Blocks(inc) == Blocks(inc');
    if pred in Blocks(inc) {
      var i := m.pick(Blocks(inc), pred);
      assert Blocks(inc)[i] == pred == inc[i].block;
      EntrySim(m, f, c, id, i, env, env');
    }
  }

  /** The entry for `pred` gives the same value: it is unchanged, or comes from the block that
      has run the made instruction. */
  lemma EntrySim(m: Machine, f: Func, c: Conversion, id: Id, i: nat, env: Env, env': Env)
    requires Applies(f, c) && Agree(f.insts.Keys, env, env')
    requires id in f.insts && f.insts[id].Phi? && i < |f.insts[id].incoming|
    requires f.insts[id].incoming[i].block == c.b ==> Holds(m, c, env')
    ensures Apply(f, c).insts[id].Phi? && |Apply(f, c).insts[id].incoming| == |f.insts[id].incoming|
    ensures Eval(m, env, f.insts[id].incoming[i].value) == Eval(m, env', Apply(f, c).insts[id].incoming[i].value)
  {
    hide Shaped, Placed;
    var inc, inc' := f.insts[id].incoming, Apply(f, c).insts[id].incoming;
    assert InstOK(f.insts[id], f.insts.Keys, |f.blocks|);
    assert inc[i].value == Operands(f.insts[id])[i];
    ValueSim(m, f.insts.Keys, env, env', inc[i].value);
    if inc[i] != inc'[i] {
      assert inc[i].value == inc[c.index].value;
      ConstEval(m, env, c.ce);
    }
  }

  /** The instructions of `f` keep their kind; only the made instruction is added. */
  lemma KindKept(f: Func, c: Conversion, id: Id)
    requires Applies(f, c) && id in f.insts
    ensures id != c.made && id in Apply(f, c).insts
    ensures Apply(f, c).insts[id].Op? == f.insts[id].Op?
    ensures c.made in Apply(f, c).insts && Apply(f, c).insts[c.made] == Op(c.ce.op, c.ce.args)
    ensures c.ce.Expr? && IsConst(c.ce) && c.user in f.insts && !c.ce.op.Effect?
  {
  }

  /** The states agree on the instructions of `f`. */
  ghost predicate SameState(ids: set<Id>, s: State, s': State) {
    Agree(ids, s.env, s'.env) && s.mem == s'.mem
  }

  /** One instruction, run by both functions. */
  lemma InstSim(m: Machine, f: Func, c: Conversion, id: Id, s: State, s': State)
    requires Applies(f, c) && SameState(f.insts.Keys, s, s')
    requires id in f.insts && f.insts[id].Op?
    requires id == c.user ==> Holds(m, c, s'.env)
    ensures id in Apply(f, c).insts && Apply(f, c).insts[id].Op?
    ensures
      var inst, inst' := f.insts[id], Apply(f, c).insts[id];
      var r, r' := RunInst(m, id, inst.opcode, inst.operands, s), RunInst(m, id, inst'.opcode, inst'.operands, s');
      SameState(f.insts.Keys, r, r') && (Holds(m, c, s'.env) ==> Holds(m, c, r'.env))
  {
    hide Applies, Apply, EvalAll, Eval;
    KindKept(f, c, id);
    OperandsSim(m, f, c, id, s.env, s'.env);
  }

  /** A part of the body the conversion did not insert into. */
  lemma {:induction false} BodySim(m: Machine, f: Func, c: Conversion, ids: seq<Id>, s: State, s': State)
    requires Applies(f, c) && SameState(f.insts.Keys, s, s')
    requires forall id :: id in ids ==> id in f.insts
    requires c.user in ids && f.insts[c.user].Op? ==> Holds(m, c, s'.env)
    ensures
      var r, r' := RunBody(m, f.insts, ids, s), RunBody(m, Apply(f, c).insts, ids, s');
      SameState(f.insts.Keys, r, r') && (Holds(m, c, s'.env) ==> Holds(m, c, r'.env))
    decreases |ids|
  {
    hide Applies, Apply, SameState, Holds, RunInst;
    if ids != [] {
      var id := ids[0];
      KindKept(f, c, id);
      if f.insts[id].Op? {
        InstSim(m, f, c, id, s, s');
        var inst, inst' := f.insts[id], Apply(f, c).insts[id];
        BodySim(
          m, f, c, ids[1..],
          RunInst(m, id, inst.opcode, inst.operands, s), RunInst(m, id, inst'.opcode, inst'.operands, s')
        );
      } else {
        BodySim(m, f, c, ids[1..], s, s');
      }
    }
  }

  /** Running the made instruction stores the value of the constant expression. */
  lemma MadeHolds(m: Machine, f: Func, c: Conversion, s: State, s': State)
    requires Applies(f, c) && SameState(f.insts.Keys, s, s')
    ensures
      var r' := RunInst(m, c.made, c.ce.op, c.ce.args, s');
      SameState(f.insts.Keys, s, r') && Holds(m, c, r'.env)
  {
    hide Apply;
    ConstEval(m, s'.env, c.ce);
  }

  /** The part of the body that received the converted instruction, `k` places ahead. */
  lemma {:induction false} InsertedSim(m: Machine, f: Func, c: Conversion, ids: seq<Id>, k: nat, s: State, s': State)
    requires Applies(f, c) && SameState(f.insts.Keys, s, s')
    requires forall id :: id in ids ==> id in f.insts
    requires k < |ids| && (c.user in ids[..k] ==> f.insts[c.user].Phi?)
    ensures
      var r, r' := RunBody(m, f.insts, ids, s), RunBody(m, Apply(f, c).insts, Insert(ids, k, c.made), s');
      SameState(f.insts.Keys, r, r') && Holds(m, c, r'.env)
    decreases k
  {
    hide Applies, Apply, SameState, Holds, RunInst;
    var ids' := Insert(ids, k, c.made);
    var id := ids[0];
    KindKept(f, c, id);
    if k == 0 {
      assert ids'[0] == c.made && ids'[1..] == ids;
      MadeHolds(m, f, c, s, s');
      BodySim(m, f, c, ids, s, RunInst(m, c.made, c.ce.op, c.ce.args, s'));
    } else {
      InsertTail(ids, k, c.made);
      PrefixUses(ids, k, c.user);
      if f.insts[id].Op? {
        InstSim(m, f, c, id, s, s');
        var inst, inst' := f.insts[id], Apply(f, c).insts[id];
        InsertedSim(
          m, f, c, ids[1..], k - 1,
          RunInst(m, id, inst.opcode, inst.operands, s), RunInst(m, id, inst'.opcode, inst'.operands, s')
        );
      } else {
        InsertedSim(m, f, c, ids[1..], k - 1, s, s');
      }
    }
  }

  lemma InsertTail(ids: seq<Id>, k: nat, id: Id)
    requires 0 < k <= |ids|
    ensures Insert(ids, k, id)[0] == ids[0] && Insert(ids, k, id)[1..] == Insert(ids[1..], k - 1, id)
  {
  }

  lemma PrefixUses(ids: seq<Id>, k: nat, id: Id)
    requires 0 < k <= |ids|
    ensures ids[0] in ids[..k] && (id in ids[1..][..k - 1] ==> id in ids[..k])
  {
    assert ids[..k] == [ids[0]] + ids[1..][..k - 1];
  }

  lemma {:induction false} PhisSim(m: Machine, f: Func, c: Conversion, ids: seq<Id>, pred: BlockId,
                                   before: Env, before': Env, env: Env, env': Env)
    requires Applies(f, c) && Agree(f.insts.Keys, before, before') && Agree(f.insts.Keys, env, env') && PicksEntries(m)
    requires forall id :: id in ids ==> id in f.insts
    requires pred == c.b ==> Holds(m, c, before')
    ensures Agree(f.insts.Keys, RunPhis(m, f.insts, ids, pred, before, env),
                  RunPhis(m, Apply(f, c).insts, ids, pred, before', env'))
    decreases |ids|
  {
    hide Applies, Apply, Holds, PicksEntries, PhiValue;
    if ids != [] {
      var id := ids[0];
      KindKept(f, c, id);
      if f.insts[id].Phi? {
        PhiSim(m, f, c, id, pred, before, before');
        PhisSim(m, f, c, ids[1..], pred, before, before',
                env[id := PhiValue(m, before, f.insts[id].incoming, pred)],
                env'[id := PhiValue(m, before', Apply(f, c).insts[id].incoming, pred)]);
      } else {
        PhisSim(m, f, c, ids[1..], pred, before, before', env, env');
      }
    }
  }

  /** The inserted instruction is no PHI, so the PHI pass skips it. */
  lemma {:induction false} PhisSkip(
    m: Machine, insts: map<Id, Inst>, ids: seq<Id>, k: nat, id: Id, pred: BlockId, before: Env, env: Env
  )
    requires k <= |ids| && id in insts && insts[id].Op?
    ensures RunPhis(m, insts, Insert(ids, k, id), pred, before, env) == RunPhis(m, insts, ids, pred, before, env)
    decreases k
  {
    var ids' := Insert(ids, k, id);
    if k == 0 {
      assert ids'[1..] == ids;
    } else {
      assert ids'[1..] == Insert(ids[1..], k - 1, id);
      var next :=
        if ids[0] in insts && insts[ids[0]].Phi? then
          env[ids[0] := PhiValue(m, before, insts[ids[0]].incoming, pred)]
        else env;
      PhisSkip(m, insts, ids[1..], k - 1, id, pred, before, next);
    }
  }

  /** Related configurations: equal but for the converted instruction, which holds its value
      whenever control comes from its block. */
  ghost predicate Related(m: Machine, f: Func, c: Conversion, g: Config, g': Config) {
    SameConfig(f.insts.Keys, g, g') && (g.pred == c.b ==> Holds(m, c, g'.state.env))
  }

  lemma StepSim(m: Machine, f: Func, c: Conversion, g: Config, g': Config)
    requires Applies(f, c) && PicksEntries(m) && Related(m, f, c, g, g')
    ensures Related(m, f, c, Step(m, f, g), Step(m, Apply(f, c), g'))
  {
    hide Applies, Apply, Holds, PicksEntries, RunBody, RunPhis, Agree, Insert;
    var f' := Apply(f, c);
    BlocksOf(f, c, g.block);
    if g.block < |f.blocks| {
      var ids, ids' := f.blocks[g.block], f'.blocks[g.block];
      var env := RunPhis(m, f.insts, ids, g.pred, g.state.env, g.state.env);
      var env' := RunPhis(m, f'.insts, ids', g.pred, g'.state.env, g'.state.env);
      var s, s' := State(env, g.state.mem), State(env', g.state.mem);
      PhisSim(m, f, c, ids, g.pred, g.state.env, g'.state.env, g.state.env, g'.state.env);
      if g.block == c.b {
        KindKept(f, c, ids[0]);
        PhisSkip(m, f'.insts, ids, c.j, c.made, g.pred, g'.state.env, g'.state.env);
        UserAhead(f, c);
        InsertedSim(m, f, c, ids, c.j, s, s');
      } else {
        UserElsewhere(f, c, g.block);
        BodySim(m, f, c, ids, s, s');
      }
      LastSim(m, f, c, g.block, RunBody(m, f.insts, ids, s), RunBody(m, f'.insts, ids', s'));
    }
  }

  lemma BlocksOf(f: Func, c: Conversion, b: BlockId)
    requires Applies(f, c)
    ensures |Apply(f, c).blocks| == |f.blocks|
    ensures c.b < |f.blocks| && c.j < |f.blocks[c.b]|
    ensures b < |f.blocks| ==>
      && f.blocks[b] != [] && (forall id :: id in f.blocks[b] ==> id in f.insts)
      && Apply(f, c).blocks[b] != []
      && (b != c.b ==> Apply(f, c).blocks[b] == f.blocks[b])
      && (b == c.b ==> Apply(f, c).blocks[b] == Insert(f.blocks[b], c.j, c.made))
  {
  }

  /** Before the insertion place there is no use of the converted instruction. */
  lemma UserAhead(f: Func, c: Conversion)
    requires Applies(f, c)
    ensures c.user in f.blocks[c.b][..c.j] ==> f.insts[c.user].Phi?
  {
    hide Shaped;
    if f.insts[c.user].Op? && c.user in f.blocks[c.b][..c.j] {
      var k :| 0 <= k < c.j && f.blocks[c.b][..c.j][k] == c.user;
      assert At(f.blocks, c.user, c.b, k);
    }
  }

  lemma UserElsewhere(f: Func, c: Conversion, b: BlockId)
    requires Applies(f, c) && b < |f.blocks| && b != c.b
    ensures c.user in f.blocks[b] ==> f.insts[c.user].Phi?
  {
    if c.user in f.blocks[b] && f.insts[c.user].Op? {
      var k :| 0 <= k < |f.blocks[b]| && f.blocks[b][k] == c.user;
      assert At(f.blocks, c.user, b, k);
    }
  }

  /** The terminator decides the same branch. */
  lemma LastSim(m: Machine, f: Func, c: Conversion, b: BlockId, s: State, s': State)
    requires Applies(f, c) && b < |f.blocks| && SameState(f.insts.Keys, s, s')
    requires b == c.b ==> Holds(m, c, s'.env)
    ensures
      var f', ids, ids' := Apply(f, c), f.blocks[b], Apply(f, c).blocks[b];
      ids != [] &&
      var last := ids[|ids| - 1];
      && ids' != [] && ids'[|ids'| - 1] == last && last in f.insts && last in f'.insts
      && EvalAll(m, s.env, Operands(f.insts[last])) == EvalAll(m, s'.env, Operands(f'.insts[last]))
  {
    BlocksOf(f, c, b);
    LastIsOp(f, c, b);
    var last := f.blocks[b][|f.blocks[b]| - 1];
    KindKept(f, c, last);
    OperandsSim(m, f, c, last, s.env, s'.env);
  }

  lemma LastIsOp(f: Func, c: Conversion, b: BlockId)
    requires Applies(f, c) && b < |f.blocks|
    ensures
      var ids, ids' := f.blocks[b], Apply(f, c).blocks[b];
      ids != [] && ids[|ids| - 1] in f.insts && f.insts[ids[|ids| - 1]].Op?
      && (ids[|ids| - 1] == c.user ==> b == c.b)
      && ids' != [] && ids'[|ids'| - 1] == ids[|ids| - 1]
  {
    hide Shaped, Placed, InstOK;
    var ids, ids' := f.blocks[b], Apply(f, c).blocks[b];
    BlocksOf(f, c, b);
    assert At(f.blocks, ids[|ids| - 1], b, |ids| - 1);
    assert Insert(ids, |ids| - 1, c.made)[|ids|] == ids[|ids| - 1];
    TerminatorIsOp(f, b);
    if ids[|ids| - 1] == c.user {
      UserPlace(f, c, b, |ids| - 1);
    }
  }

  lemma TerminatorIsOp(f: Func, b: BlockId)
    requires WF(f) && b < |f.blocks|
    ensures f.blocks[b] != [] && f.blocks[b][|f.blocks[b]| - 1] in f.insts
    ensures f.insts[f.blocks[b][|f.blocks[b]| - 1]].Op?
  {
  }

  lemma UserPlace(f: Func, c: Conversion, b: BlockId, k: nat)
    requires Applies(f, c) && f.insts[c.user].Op? && At(f.blocks, c.user, b, k)
    ensures b == c.b && k == c.j
  {
    hide Shaped;
  }

  lemma StartSim(m: Machine, f: Func, c: Conversion, mem: int)
    requires Applies(f, c)
    ensures Related(m, f, c, Run(m, f, mem, 0), Run(m, Apply(f, c), mem, 0))
  {
    hide WF;
  }

  lemma {:induction false} RunSim(m: Machine, f: Func, c: Conversion, mem: int, n: nat)
    requires Applies(f, c) && PicksEntries(m)
    ensures Related(m, f, c, Run(m, f, mem, n), Run(m, Apply(f, c), mem, n))
  {
    hide Apply, Step, Applies, PicksEntries, Related;
    if n == 0 {
      StartSim(m, f, c, mem);
    } else {
      RunSim(m, f, c, mem, n - 1);
      StepSim(m, f, c, Run(m, f, mem, n - 1), Run(m, Apply(f, c), mem, n - 1));
    }
  }

  /** One conversion keeps the meaning of the function. */
  lemma ConversionKeepsMeaning(f: Func, c: Conversion)
    requires Applies(f, c)
    ensures SameMeaning(f, Apply(f, c))
  {
    forall m: Machine, mem: int, n: nat | PicksEntries(m)
      ensures SameConfig(f.insts.Keys, Run(m, f, mem, n), Run(m, Apply(f, c), mem, n))
    {
      RunSim(m, f, c, mem, n);
    }
  }

  // A conversion keeps the function verified.

  /** Where a place of the converted function comes from; the made instruction's own place aside. */
  lemma PlaceBack(f: Func, c: Conversion, id: Id, b: nat, k: nat)
    requires Applies(f, c) && At(Apply(f, c).blocks, id, b, k) && !(b == c.b && k == c.j)
    ensures At(f.blocks, id, b, if b == c.b && k > c.j then k - 1 else k)
  {
    hide WF;
  }

  lemma PlaceForward(f: Func, c: Conversion, id: Id, b: nat, k: nat)
    requires Applies(f, c) && At(f.blocks, id, b, k)
    ensures At(Apply(f, c).blocks, id, b, if b == c.b && k >= c.j then k + 1 else k)
    ensures At(Apply(f, c).blocks, c.made, c.b, c.j)
  {
    hide WF;
  }

  lemma PlaceKnown(f: Func, id: Id, b: nat, k: nat)
    requires WF(f) && At(f.blocks, id, b, k)
    ensures id in f.insts
  {
  }

  lemma PlaceUnique(f: Func, id: Id, b: nat, k: nat, b': nat, k': nat)
    requires WF(f) && At(f.blocks, id, b, k) && At(f.blocks, id, b', k')
    ensures b == b' && k == k'
  {
  }

  lemma InstPlace(f: Func, id: Id) returns (b: nat, k: nat)
    requires WF(f) && id in f.insts
    ensures At(f.blocks, id, b, k)
  {
    b, k :| At(f.blocks, id, b, k);
  }

  lemma PlaceAfter(f: Func, c: Conversion, b: nat, k: nat)
    requires Applies(f, c) && b < |Apply(f, c).blocks| && k < |Apply(f, c).blocks[b]|
    ensures Apply(f, c).blocks[b][k] in Apply(f, c).insts
  {
    var f' := Apply(f, c);
    hide WF, Apply;
    KeysGrow(f, c);
    MadePlace(f, c);
    var id := f'.blocks[b][k];
    assert At(f'.blocks, id, b, k);
    if !(b == c.b && k == c.j) {
      PlaceBack(f, c, id, b, k);
      PlaceKnown(f, id, b, if b == c.b && k > c.j then k - 1 else k);
    }
  }

  lemma KnownAfter(f: Func, c: Conversion, id: Id)
    requires Applies(f, c) && id in Apply(f, c).insts
    ensures exists b, k :: At(Apply(f, c).blocks, id, b, k)
  {
    hide WF, Apply;
    KeysGrow(f, c);
    MadePlace(f, c);
    if id != c.made {
      var b, k := InstPlace(f, id);
      PlaceForward(f, c, id, b, k);
    }
  }

  lemma ApplyPlaced(f: Func, c: Conversion)
    requires Applies(f, c)
    ensures Placed(Apply(f, c))
  {
    var f' := Apply(f, c);
    hide WF, Apply, Applies;
    forall b, k | 0 <= b < |f'.blocks| && 0 <= k < |f'.blocks[b]| ensures f'.blocks[b][k] in f'.insts {
      PlaceAfter(f, c, b, k);
    }
    forall id | id in f'.insts ensures exists b, k :: At(f'.blocks, id, b, k) {
      KnownAfter(f, c, id);
    }
    forall id, b, k, b', k' | At(f'.blocks, id, b, k) && At(f'.blocks, id, b', k') ensures b == b' && k == k' {
      SamePlace(f, c, id, b, k, b', k');
    }
  }

  lemma KeysGrow(f: Func, c: Conversion)
    requires Applies(f, c)
    ensures Apply(f, c).insts.Keys == f.insts.Keys + {c.made} && |Apply(f, c).blocks| == |f.blocks|
  {
  }

  lemma MadePlace(f: Func, c: Conversion)
    requires Applies(f, c)
    ensures At(Apply(f, c).blocks, c.made, c.b, c.j)
    ensures c.made !in f.insts
  {
  }

  lemma SamePlace(f: Func, c: Conversion, id: Id, b: nat, k: nat, b': nat, k': nat)
    requires Applies(f, c) && At(Apply(f, c).blocks, id, b, k) && At(Apply(f, c).blocks, id, b', k')
    ensures b == b' && k == k'
  {
    hide WF, Apply;
    MadePlace(f, c);
    if id == c.made {
      if !(b == c.b && k == c.j) {
        PlaceBack(f, c, id, b, k);
        PlaceKnown(f, id, b, if b == c.b && k > c.j then k - 1 else k);
      }
      if !(b' == c.b && k' == c.j) {
        PlaceBack(f, c, id, b', k');
        PlaceKnown(f, id, b', if b' == c.b && k' > c.j then k' - 1 else k');
      }
    } else {
      PlaceBack(f, c, id, b, k);
      PlaceBack(f, c, id, b', k');
      PlaceUnique(f, id, b, if b == c.b && k > c.j then k - 1 else k, b', if b' == c.b && k' > c.j then k' - 1 else k');
    }
  }

  /** The insertion place is behind every PHI of its block. */
  lemma NoPhiFrom(f: Func, c: Conversion, k: nat)
    requires Applies(f, c) && c.j <= k < |f.blocks[c.b]|
    ensures f.blocks[c.b][k] in f.insts && f.insts[f.blocks[c.b][k]].Op?
  {
    hide InstOK;
  }

  lemma PhiOrder(f: Func, b: nat, j: nat, k: nat)
    requires WF(f) && b < |f.blocks| && j < k < |f.blocks[b]|
    ensures f.blocks[b][j] in f.insts && f.blocks[b][k] in f.insts
    ensures f.insts[f.blocks[b][k]].Phi? ==> f.insts[f.blocks[b][j]].Phi?
  {
  }

  lemma ApplyShaped(f: Func, c: Conversion)
    requires Applies(f, c)
    ensures Shaped(Apply(f, c))
  {
    hide Applies, Apply, BlockShaped;
    KeysGrow(f, c);
    forall b | 0 <= b < |Apply(f, c).blocks| ensures BlockShaped(Apply(f, c).insts, Apply(f, c).blocks[b]) {
      ApplyBlockShaped(f, c, b);
    }
  }

  lemma ApplyBlockShaped(f: Func, c: Conversion, b: nat)
    requires Applies(f, c) && b < |f.blocks|
    ensures |Apply(f, c).blocks| == |f.blocks| && BlockShaped(Apply(f, c).insts, Apply(f, c).blocks[b])
  {
    hide Applies, Apply;
    KeysGrow(f, c);
    LastIsOp(f, c, b);
    KindKept(f, c, f.blocks[b][|f.blocks[b]| - 1]);
    var ids' := Apply(f, c).blocks[b];
    forall j, k | 0 <= j < k < |ids'|
      ensures ids'[k] in Apply(f, c).insts && ids'[j] in Apply(f, c).insts
      ensures Apply(f, c).insts[ids'[k]].Phi? ==> Apply(f, c).insts[ids'[j]].Phi?
    {
      ShapedPair(f, c, b, j, k);
    }
  }

  lemma ShapedPair(f: Func, c: Conversion, b: nat, j: nat, k: nat)
    requires Applies(f, c) && b < |f.blocks| && j < k < |Apply(f, c).blocks[b]|
    ensures
      var f' := Apply(f, c);
      && f'.blocks[b][k] in f'.insts && f'.blocks[b][j] in f'.insts
      && (f'.insts[f'.blocks[b][k]].Phi? ==> f'.insts[f'.blocks[b][j]].Phi?)
  {
    hide WF, Apply;
    BlocksOf(f, c, b);
    KindKept(f, c, c.user);
    var ids := f.blocks[b];
    var j0 := if b == c.b && j > c.j then j - 1 else j;
    var k0 := if b == c.b && k > c.j then k - 1 else k;
    if b == c.b && k >= c.j {
      NoPhiFrom(f, c, k0);
      KindKept(f, c, ids[k0]);
      KindKept(f, c, ids[j0]);
    } else {
      PhiOrder(f, b, j, k);
      KindKept(f, c, ids[j]);
      KindKept(f, c, ids[k]);
    }
  }

  lemma ValueGrow(v: Value, ids: set<Id>, ids': set<Id>)
    requires ValueOK(v, ids) && ids <= ids'
    ensures ValueOK(v, ids')
  {
  }

  lemma MadeInstOK(f: Func, c: Conversion)
    requires Applies(f, c)
    ensures c.made in Apply(f, c).insts && InstOK(Apply(f, c).insts[c.made], Apply(f, c).insts.Keys, |f.blocks|)
  {
    hide WF;
    forall a | a in c.ce.args ensures ValueOK(a, Apply(f, c).insts.Keys) {
      assert IsConst(a);
    }
  }

  lemma RewrittenValues(f: Func, c: Conversion, id: Id, ids': set<Id>)
    requires Applies(f, c) && id in f.insts && ids' == f.insts.Keys + {c.made}
    ensures id in Apply(f, c).insts
    ensures forall v :: v in Operands(Apply(f, c).insts[id]) ==> ValueOK(v, ids')
  {
    hide Placed, Shaped;
    var vs, vs' := Operands(f.insts[id]), Operands(Apply(f, c).insts[id]);
    assert InstOK(f.insts[id], f.insts.Keys, |f.blocks|);
    forall i | 0 <= i < |vs'| ensures ValueOK(vs'[i], ids') {
      assert vs'[i] == vs[i] || vs'[i] == Ref(c.made);
      if vs'[i] == vs[i] {
        assert vs[i] in vs;
        ValueGrow(vs[i], f.insts.Keys, ids');
      }
    }
  }

  lemma RewrittenEntries(f: Func, c: Conversion, id: Id)
    requires Applies(f, c) && id in f.insts && f.insts[id].Phi?
    ensures id in Apply(f, c).insts && Apply(f, c).insts[id].Phi?
    ensures
      var inc := Apply(f, c).insts[id].incoming;
      && (forall i :: 0 <= i < |inc| ==> inc[i].block < |f.blocks|)
      && forall i, j :: 0 <= i < |inc| && 0 <= j < |inc| && inc[i].block == inc[j].block ==>
           inc[i].value == inc[j].value
  {
    hide Placed, Shaped;
    assert InstOK(f.insts[id], f.insts.Keys, |f.blocks|);
  }

  /** One conversion keeps the function verified. */
  lemma ConversionKeepsWF(f: Func, c: Conversion)
    requires Applies(f, c)
    ensures WF(Apply(f, c)) && Apply(f, c).insts.Keys == f.insts.Keys + {c.made} && |Apply(f, c).blocks| == |f.blocks|
  {
    hide InstOK, Apply, Applies;
    ApplyPlaced(f, c);
    ApplyShaped(f, c);
    KeysGrow(f, c);
    forall id | id in Apply(f, c).insts
      ensures InstOK(Apply(f, c).insts[id], Apply(f, c).insts.Keys, |Apply(f, c).blocks|)
    {
      if id == c.made {
        MadeInstOK(f, c);
      } else {
        RewrittenOK(f, c, id);
      }
    }
  }

  lemma RewrittenOK(f: Func, c: Conversion, id: Id)
    requires Applies(f, c) && id in f.insts
    ensures id in Apply(f, c).insts && InstOK(Apply(f, c).insts[id], Apply(f, c).insts.Keys, |Apply(f, c).blocks|)
  {
    hide Apply, Applies, ValueOK;
    KeysGrow(f, c);
    KindKept(f, c, id);
    RewrittenValues(f, c, id, f.insts.Keys + {c.made});
    if f.insts[id].Phi? {
      RewrittenEntries(f, c, id);
    }
  }

  lemma UserKnown(f: Func, c: Conversion)
    requires Applies(f, c)
    ensures c.user in f.insts
  {
  }
}
