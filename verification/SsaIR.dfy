/** A small SSA form: blocks of instructions whose operands may be nested constant expressions,
    and its execution. */
module SsaIR {

  type Id = nat
  type BlockId = nat

  /** `Pure` opcodes, like address arithmetic, may also occur in constant expressions. */
  datatype Opcode = GetElementPtr | Pure(k: nat) | Effect(k: nat)

  datatype Value =
    | Ref(id: Id)
    | Arg(k: nat)
    | Leaf(c: int)
    | Expr(op: Opcode, args: seq<Value>)

  datatype Incoming = Incoming(block: BlockId, value: Value)

  datatype Inst = Phi(incoming: seq<Incoming>) | Op(opcode: Opcode, operands: seq<Value>)

  /** The instruction order of each block, and the instructions by identity. */
  datatype Func = Func(blocks: seq<seq<Id>>, insts: map<Id, Inst>)

  /** The operands an instruction offers to a scan. */
  function Operands(inst: Inst): seq<Value> {
    match inst
    case Phi(incoming) => seq(|incoming|, i requires 0 <= i < |incoming| => incoming[i].value)
    case Op(_, operands) => operands
  }

  /** Constants mention no instruction and no argument, and compute with pure opcodes only. */
  predicate IsConst(v: Value) {
    match v
    case Leaf(_) => true
    case Expr(op, args) => !op.Effect? && forall a :: a in args ==> IsConst(a)
    case _ => false
  }

  predicate ValueOK(v: Value, ids: set<Id>) {
    match v
    case Ref(id) => id in ids
    case Arg(_) => true
    case _ => IsConst(v)
  }

  predicate InstOK(inst: Inst, ids: set<Id>, blocks: nat) {
    && (forall v :: v in Operands(inst) ==> ValueOK(v, ids))
    && (inst.Phi? ==> forall i :: 0 <= i < |inst.incoming| ==> inst.incoming[i].block < blocks)
    && (inst.Phi? ==> forall i, j :: 0 <= i < |inst.incoming| && 0 <= j < |inst.incoming|
                        && inst.incoming[i].block == inst.incoming[j].block
                        ==> inst.incoming[i].value == inst.incoming[j].value)
  }

  ghost predicate At(blocks: seq<seq<Id>>, id: Id, b: nat, j: nat) {
    b < |blocks| && j < |blocks[b]| && blocks[b][j] == id
  }

  /** The instructions are exactly those listed in the blocks, each at one place. */
  ghost predicate Placed(f: Func) {
    && (forall b, j :: 0 <= b < |f.blocks| && 0 <= j < |f.blocks[b]| ==> f.blocks[b][j] in f.insts)
    && (forall id :: id in f.insts ==> exists b, j :: At(f.blocks, id, b, j))
    && (forall id, b, j, b', j' :: At(f.blocks, id, b, j) && At(f.blocks, id, b', j') ==> b == b' && j == j')
  }

  /** A block ends in an instruction that is no PHI, and its PHIs come first. */
  ghost predicate BlockShaped(insts: map<Id, Inst>, ids: seq<Id>) {
    && ids != []
    && (forall k :: 0 <= k < |ids| ==> ids[k] in insts)
    && insts[ids[|ids| - 1]].Op?
    && (forall j, k :: 0 <= j < k < |ids| && insts[ids[k]].Phi? ==> insts[ids[j]].Phi?)
  }

  ghost predicate Shaped(f: Func) {
    forall b :: 0 <= b < |f.blocks| ==> BlockShaped(f.insts, f.blocks[b])
  }

  /** A verified function. PHI entries for the same block carry the same value. */
  ghost predicate WF(f: Func) {
    && Placed(f)
    && Shaped(f)
    && (forall id :: id in f.insts ==> InstOK(f.insts[id], f.insts.Keys, |f.blocks|))
  }

  // Execution.

  type Env = map<Id, int>

  /** Everything a run depends on besides the code: the meaning of opcodes, constants and
      arguments, branch decisions, and which of several equal PHI entries is read. */
  datatype Machine = Machine(
    leaf: int -> int,
    arg: nat -> int,
    pure: (Opcode, seq<int>) -> int,
    effect: (Opcode, seq<int>, int) -> (int, int),
    branch: (Id, seq<int>, int) -> nat,
    pick: (seq<BlockId>, BlockId) -> nat)

  ghost predicate PicksEntries(m: Machine) {
    forall bs: seq<BlockId>, b {:trigger m.pick(bs, b)} :: b in bs ==> m.pick(bs, b) < |bs| && bs[m.pick(bs, b)] == b
  }

  function Eval(m: Machine, env: Env, v: Value): int {
    match v
    case Ref(id) => if id in env then env[id] else 0
    case Arg(k) => m.arg(k)
    case Leaf(c) => m.leaf(c)
    case Expr(op, args) => m.pure(op, EvalAll(m, env, args))
  }

  function EvalAll(m: Machine, env: Env, vs: seq<Value>): (r: seq<int>)
    ensures |r| == |vs| && forall i :: 0 <= i < |vs| ==> r[i] == Eval(m, env, vs[i])
  {
    if vs == [] then [] else [Eval(m, env, vs[0])] + EvalAll(m, env, vs[1..])
  }

  function Blocks(incoming: seq<Incoming>): seq<BlockId> {
    seq(|incoming|, i requires 0 <= i < |incoming| => incoming[i].block)
  }

  /** The value a PHI takes when control comes from `pred`. */
  function PhiValue(m: Machine, env: Env, incoming: seq<Incoming>, pred: BlockId): int {
    var i := m.pick(Blocks(incoming), pred);
    if pred in Blocks(incoming) && i < |incoming| then Eval(m, env, incoming[i].value) else 0
  }

  datatype State = State(env: Env, mem: int)

  /** All PHIs of a block read the environment `before` the block. */
  function RunPhis(m: Machine, insts: map<Id, Inst>, ids: seq<Id>, pred: BlockId, before: Env, env: Env): Env {
    if ids == [] then env
    else if ids[0] in insts && insts[ids[0]].Phi? then
      RunPhis(m, insts, ids[1..], pred, before, env[ids[0] := PhiValue(m, before, insts[ids[0]].incoming, pred)])
    else RunPhis(m, insts, ids[1..], pred, before, env)
  }

  function RunInst(m: Machine, id: Id, opcode: Opcode, operands: seq<Value>, s: State): State {
    var vals := EvalAll(m, s.env, operands);
    if opcode.Effect? then
      var (v, mem) := m.effect(opcode, vals, s.mem);
      State(s.env[id := v], mem)
    else State(s.env[id := m.pure(opcode, vals)], s.mem)
  }

  /** The instructions after the PHIs, in order. */
  function RunBody(m: Machine, insts: map<Id, Inst>, ids: seq<Id>, s: State): State {
    if ids == [] then s
    else if ids[0] in insts && insts[ids[0]].Op? then
      RunBody(m, insts, ids[1..], RunInst(m, ids[0], insts[ids[0]].opcode, insts[ids[0]].operands, s))
    else RunBody(m, insts, ids[1..], s)
  }

  /** Control is about to enter `block` from `pred`; a block number out of range means returned. */
  datatype Config = Config(block: BlockId, pred: BlockId, state: State)

  function Step(m: Machine, f: Func, c: Config): Config {
    if c.block >= |f.blocks| || f.blocks[c.block] == [] then c else
      var ids := f.blocks[c.block];
      var env := RunPhis(m, f.insts, ids, c.pred, c.state.env, c.state.env);
      var s := RunBody(m, f.insts, ids, State(env, c.state.mem));
      var last := ids[|ids| - 1];
      var vals := if last in f.insts then EvalAll(m, s.env, Operands(f.insts[last])) else [];
      Config(m.branch(last, vals, s.mem), c.block, s)
  }

  /** The configuration after `n` blocks, from the entry block 0 with no predecessor. */
  function Run(m: Machine, f: Func, mem: int, n: nat): Config {
    if n == 0 then Config(0, |f.blocks|, State(map[], mem)) else Step(m, f, Run(m, f, mem, n - 1))
  }

  /** On `ids` both environments know the same instructions, with the same values. */
  ghost predicate Agree(ids: set<Id>, a: Env, b: Env) {
    forall id :: id in ids ==> (id in a <==> id in b) && (id in a ==> a[id] == b[id])
  }

  ghost predicate SameConfig(ids: set<Id>, c: Config, c': Config) {
    c.block == c'.block && c.pred == c'.pred && c.state.mem == c'.state.mem && Agree(ids, c.state.env, c'.state.env)
  }

  /** On every machine and after every number of blocks, `f'` is at the same point with the same
      memory, and every instruction of `f` has the same value. */
  ghost predicate SameMeaning(f: Func, f': Func) {
    && f.insts.Keys <= f'.insts.Keys
    && forall m: Machine, mem: int, n: nat :: PicksEntries(m) ==>
         SameConfig(f.insts.Keys, Run(m, f, mem, n), Run(m, f', mem, n))
  }

  lemma SameMeaningSelf(f: Func)
    ensures SameMeaning(f, f)
  {
  }

  lemma SameMeaningTrans(f: Func, g: Func, h: Func)
    requires SameMeaning(f, g) && SameMeaning(g, h)
    ensures SameMeaning(f, h)
  {
    forall m: Machine, mem: int, n: nat | PicksEntries(m)
      ensures SameConfig(f.insts.Keys, Run(m, f, mem, n), Run(m, h, mem, n))
    {
      assert SameConfig(f.insts.Keys, Run(m, f, mem, n), Run(m, g, mem, n));
      assert SameConfig(g.insts.Keys, Run(m, g, mem, n), Run(m, h, mem, n));
    }
  }
}
