/** Every use of a value is dominated by its definition, and a conversion keeps it so. */
module SsaDominance {
  import opened SsaIR
  import opened LoweringStep
  import opened Reachability

  /** Every way from the entry block to `b` leads through `a`. */
  ghost predicate Dominates(cfg: Pairs, a: nat, b: nat) {
    forall p: seq<nat> | Links(cfg, p, 0, b) :: a in p
  }

  /** The definition at place (b', j') is executed before place (b, j) is. */
  ghost predicate Precedes(cfg: Pairs, b': nat, j': nat, b: nat, j: nat) {
    if b' == b then j' < j else Dominates(cfg, b', b)
  }

  /** Some definition of `d` is executed before place (b, j) is. */
  ghost predicate Available(f: Func, cfg: Pairs, d: Id, b: nat, j: nat) {
    exists b', j' :: At(f.blocks, d, b', j') && Precedes(cfg, b', j', b, j)
  }

  /** An ordinary instruction needs its operands where it stands; a PHI needs the value of an entry
      at the end of the entry's block. */
  ghost predicate UsesAvailable(f: Func, cfg: Pairs, inst: Inst, b: nat, j: nat) {
    match inst
    case Op(_, operands) =>
      forall v | v in operands && v.Ref? :: Available(f, cfg, v.id, b, j)
    case Phi(incoming) =>
      forall e | e in incoming && e.value.Ref? ::
        e.block < |f.blocks| && Available(f, cfg, e.value.id, e.block, |f.blocks[e.block]|)
  }

  /** The dominance property of SSA form, for the control flow `cfg` between the blocks. */
  ghost predicate UsesDominated(f: Func, cfg: Pairs) {
    forall id, b, j | id in f.insts && At(f.blocks, id, b, j) :: UsesAvailable(f, cfg, f.insts[id], b, j)
  }

  /** Whatever the control flow, definitions dominate uses afterwards if they did before. */
  ghost predicate KeepsDominance(f: Func, f': Func) {
    forall cfg: Pairs | UsesDominated(f, cfg) :: UsesDominated(f', cfg)
  }

  lemma KeepsDominanceTrans(f: Func, g: Func, h: Func)
    requires KeepsDominance(f, g) && KeepsDominance(g, h)
    ensures KeepsDominance(f, h)
  {
  }

  /** Where a place is after the insertion. */
  function Moved(c: Conversion, b: nat, j: nat): nat {
    if b == c.b && j >= c.j then j + 1 else j
  }

  lemma AvailableMoved(f: Func, c: Conversion, cfg: Pairs, d: Id, b: nat, j: nat)
    requires Applies(f, c) && Available(f, cfg, d, b, j)
    ensures Available(Apply(f, c), cfg, d, b, Moved(c, b, j))
  {
    hide Applies, Apply, Dominates;
    var b', j' :| At(f.blocks, d, b', j') && Precedes(cfg, b', j', b, j);
    PlaceForward(f, c, d, b', j');
    assert At(Apply(f, c).blocks, d, b', Moved(c, b', j')) && Precedes(cfg, b', Moved(c, b', j'), b, Moved(c, b, j));
  }

  lemma MadeAvailable(f: Func, c: Conversion, cfg: Pairs, j: nat)
    requires Applies(f, c) && j > c.j
    ensures Available(Apply(f, c), cfg, c.made, c.b, j)
  {
    MadePlace(f, c);
    assert Precedes(cfg, c.b, c.j, c.b, j);
  }

  /** The made instruction uses constants only. */
  lemma MadeUses(f: Func, c: Conversion, cfg: Pairs)
    requires Applies(f, c)
    ensures c.made in Apply(f, c).insts && UsesAvailable(Apply(f, c), cfg, Apply(f, c).insts[c.made], c.b, c.j)
  {
    hide WF, Available;
    assert Apply(f, c).insts[c.made] == Op(c.ce.op, c.ce.args);
    forall v | v in c.ce.args ensures !v.Ref? {
      assert IsConst(v);
    }
  }

  lemma OperandUses(f: Func, c: Conversion, cfg: Pairs, id: Id, b: nat, j: nat)
    requires Applies(f, c) && id in f.insts && f.insts[id].Op? && At(f.blocks, id, b, j)
    requires UsesAvailable(f, cfg, f.insts[id], b, j)
    ensures id in Apply(f, c).insts && UsesAvailable(Apply(f, c), cfg, Apply(f, c).insts[id], b, Moved(c, b, j))
  {
    hide Available, WF;
    var vs, inst' := f.insts[id].operands, Apply(f, c).insts[id];
    forall v | v in inst'.operands && v.Ref? ensures Available(Apply(f, c), cfg, v.id, b, Moved(c, b, j)) {
      if v in vs {
        AvailableMoved(f, c, cfg, v.id, b, j);
      } else {
        assert id == c.user && v == Ref(c.made);
        PlaceUnique(f, id, b, j, c.b, c.j);
        MadeAvailable(f, c, cfg, c.j + 1);
      }
    }
  }

  lemma EntryUses(f: Func, c: Conversion, cfg: Pairs, id: Id, b: nat, j: nat)
    requires Applies(f, c) && id in f.insts && f.insts[id].Phi?
    requires UsesAvailable(f, cfg, f.insts[id], b, j)
    ensures id in Apply(f, c).insts && UsesAvailable(Apply(f, c), cfg, Apply(f, c).insts[id], b, Moved(c, b, j))
  {
    hide Available, WF;
    var es, inst', f' := f.insts[id].incoming, Apply(f, c).insts[id], Apply(f, c);
    forall e | e in inst'.incoming && e.value.Ref?
      ensures e.block < |f'.blocks| && Available(f', cfg, e.value.id, e.block, |f'.blocks[e.block]|)
    {
      if e in es {
        AvailableMoved(f, c, cfg, e.value.id, e.block, |f.blocks[e.block]|);
      } else {
        assert id == c.user && e == Incoming(c.b, Ref(c.made));
        MadeAvailable(f, c, cfg, |f'.blocks[c.b]|);
      }
    }
  }

  /** One conversion, in front of an instruction or at the end of an incoming block, keeps every
      use dominated by its definition. */
  lemma ConversionKeepsDominance(f: Func, c: Conversion)
    requires Applies(f, c)
    ensures KeepsDominance(f, Apply(f, c))
  {
    hide Applies, Apply, UsesAvailable;
    var f' := Apply(f, c);
    forall cfg: Pairs, id, b, k | UsesDominated(f, cfg) && id in f'.insts && At(f'.blocks, id, b, k)
      ensures UsesAvailable(f', cfg, f'.insts[id], b, k)
    {
      MadePlace(f, c);
      KeysGrow(f, c);
      if id == c.made {
        SamePlace(f, c, id, b, k, c.b, c.j);
        MadeUses(f, c, cfg);
      } else {
        var j := OldPlace(f, c, id, b, k);
        if f.insts[id].Op? {
          OperandUses(f, c, cfg, id, b, j);
        } else {
          EntryUses(f, c, cfg, id, b, j);
        }
      }
    }
  }

  lemma OldPlace(f: Func, c: Conversion, id: Id, b: nat, k: nat) returns (j: nat)
    requires Applies(f, c) && id != c.made && At(Apply(f, c).blocks, id, b, k)
    ensures At(f.blocks, id, b, j) && k == Moved(c, b, j)
  {
    hide Applies, Apply;
    MadePlace(f, c);
    PlaceBack(f, c, id, b, k);
    j := if b == c.b && k > c.j then k - 1 else k;
  }

  /** What a lowered function keeps: its meaning, and definitions that dominate their uses. */
  ghost predicate Preserves(f: Func, f': Func) {
    SameMeaning(f, f') && KeepsDominance(f, f')
  }

  lemma PreservesSelf(f: Func)
    ensures Preserves(f, f)
  {
    SameMeaningSelf(f);
  }

  lemma ConversionPreserves(f0: Func, f: Func, c: Conversion)
    requires Applies(f, c) && Preserves(f0, f)
    ensures Preserves(f0, Apply(f, c))
  {
    hide SameMeaning, KeepsDominance, Applies, Apply;
    ConversionKeepsMeaning(f, c);
    SameMeaningTrans(f0, f, Apply(f, c));
    ConversionKeepsDominance(f, c);
    KeepsDominanceTrans(f0, f, Apply(f, c));
  }
}
