/** Dead code and traps: loads and divisions have no side effects, so they are removed when nothing needs
    their result, and with them the traps they would have caused. */
module DeadTraps {
  import opened IR
  import opened Semantics
  import opened DeadCode

  /** Which uninterpreted instructions trap, on which operands and memory. */
  type Traps = (string, seq<Val>, Memory) -> bool

  predicate TrapsAt(traps: Traps, k: Kind, s: State) {
    (k.Pure? || k.Effect?) && traps(k.name, GetAll(s.env, k.uses), s.mem)
  }

  /** No instruction of the given kind traps while the list runs. */
  predicate Clear(m: Machine, traps: Traps, counts: Kind -> bool, insts: seq<Kind>, s: State) {
    insts == [] || IsTerminator(insts[0])
    || (!(counts(insts[0]) && TrapsAt(traps, insts[0], s))
      && Clear(m, traps, counts, insts[1..], Perform(m, insts[0], s)))
  }

  predicate BlockClear(m: Machine, traps: Traps, counts: Kind -> bool, block: Block, from: Option<BlockId>, s: State) {
    Clear(m, traps, counts, block.insts, s.(env := BindPhis(block.insts, from, s.env, s.env)))
  }

  /** No instruction of the given kind traps in the first n blocks of the run. */
  predicate RunClear(m: Machine, traps: Traps, counts: Kind -> bool, blocks: seq<Block>, b: BlockId,
      from: Option<BlockId>, s: State, n: nat)
    decreases n
  {
    n == 0 || Find(blocks, b).None?
    || (var block := Find(blocks, b).value;
        var step := RunBlock(m, block, from, s);
        && BlockClear(m, traps, counts, block, from, s)
        && (step.exit.Goto? ==> RunClear(m, traps, counts, blocks, step.exit.target, Some(b), step.state, n - 1)))
  }

  predicate Any(k: Kind) {
    true
  }

  /** The instructions that dead code elimination removes. */
  function Removed(used: set<Value>): Kind -> bool {
    (k: Kind) => !Keeps(k, used)
  }

  lemma {:induction false} ClearPruned(m: Machine, traps: Traps, insts: seq<Kind>, used: set<Value>, s: State, t: State)
    requires OperandsIn(insts, used) && AgreeOn(s.env, t.env, used) && s.mem == t.mem
    ensures Clear(m, traps, Any, insts, s)
      <==> Clear(m, traps, Any, Retain(insts, used), t) && Clear(m, traps, Removed(used), insts, s)
    decreases |insts|
  {
    if insts != [] && !IsTerminator(insts[0]) {
      var k, rest := insts[0], insts[1..];
      RetainUnfolds(insts, used);
      assert OperandsIn(rest, used);
      if Keeps(k, used) {
        KeptStep(m, traps, k, used, s, t);
        ClearPruned(m, traps, rest, used, Perform(m, k, s), Perform(m, k, t));
      } else {
        RemovedStep(m, k, used, s, t);
        ClearPruned(m, traps, rest, used, Perform(m, k, s), t);
      }
    } else if insts != [] {
      RetainUnfolds(insts, used);
    }
  }

  /** A kept instruction traps on the pruned side exactly when it did before. */
  lemma KeptStep(m: Machine, traps: Traps, k: Kind, used: set<Value>, s: State, t: State)
    requires Operands(k) <= used && !IsTerminator(k) && AgreeOn(s.env, t.env, used) && s.mem == t.mem
    ensures TrapsAt(traps, k, s) <==> TrapsAt(traps, k, t)
    ensures AgreeOn(Perform(m, k, s).env, Perform(m, k, t).env, used) && Perform(m, k, s).mem == Perform(m, k, t).mem
  {
    assert AgreeOnUses(s.env, t.env, k) by {
      assert forall v | v in GetUses(k) && !k.Phi? :: v in Operands(k);
    }
    PerformAgrees(m, k, s, t);
    if k.Pure? || k.Effect? {
      UsesAgree(k, s.env, t.env);
      GetAllAgrees(s.env, t.env, k.uses);
    }
  }

  lemma RemovedStep(m: Machine, k: Kind, used: set<Value>, s: State, t: State)
    requires !Keeps(k, used) && AgreeOn(s.env, t.env, used) && s.mem == t.mem
    ensures AgreeOn(Perform(m, k, s).env, t.env, used) && Perform(m, k, s).mem == t.mem
  {
  }

  lemma BlockClearPruned(m: Machine, traps: Traps, blocks: seq<Block>, used: set<Value>, block: Block,
      from: Option<BlockId>, s: State, t: State)
    requires SingleAssignment(blocks) && IsRequired(blocks, used) && block in blocks
    requires AgreeOn(s.env, t.env, used) && s.mem == t.mem
    ensures BlockClear(m, traps, Any, block, from, s)
      <==>
        && BlockClear(m, traps, Any, PruneBlock(block, used), from, t)
        && BlockClear(m, traps, Removed(used), block, from, s)
  {
    var insts := block.insts;
    KeptUsesIn(blocks, used, block);
    hide OperandsIn, IsRequired, SingleAssignment, Clear, BindPhis, Retain;
    BindPhisPruned(insts, used, from, s.env, t.env, s.env, t.env);
    ClearPruned(m, traps, insts, used, s.(env := BindPhis(insts, from, s.env, s.env)),
      t.(env := BindPhis(Retain(insts, used), from, t.env, t.env)));
  }

  /** A run is free of traps exactly when the pruned run is and none of the removed instructions would
      have trapped. Together with the preserved run: what does not trap before is unchanged after, and the
      only traps that vanish are those of dead instructions. */
  lemma {:induction false} TrapsPreserved(m: Machine, traps: Traps, blocks: seq<Block>, used: set<Value>, b: BlockId,
      from: Option<BlockId>, s: State, t: State, n: nat)
    requires SingleAssignment(blocks) && IsRequired(blocks, used)
    requires AgreeOn(s.env, t.env, used) && s.mem == t.mem
    ensures RunClear(m, traps, Any, blocks, b, from, s, n)
      <==>
        && RunClear(m, traps, Any, Prune(blocks, used), b, from, t, n)
        && RunClear(m, traps, Removed(used), blocks, b, from, s, n)
    decreases n
  {
    hide RunBlock, BlockClear, PruneBlock, Prune, Find, IsRequired, SingleAssignment, AgreeOn;
    if n > 0 {
      FindPruned(blocks, used, b);
      if Find(blocks, b).Some? {
        var block := Find(blocks, b).value;
        BlockClearPruned(m, traps, blocks, used, block, from, s, t);
        StepPruned(m, blocks, used, block, from, s, t);
        var x, y := RunBlock(m, block, from, s), RunBlock(m, PruneBlock(block, used), from, t);
        if x.exit.Goto? {
          TrapsPreserved(m, traps, blocks, used, x.exit.target, Some(b), x.state, y.state, n - 1);
        }
      }
    }
  }

  /** A dead load that traps: the run before the pass traps, the run after it does not. */
  lemma DeadLoadStopsTrapping(m: Machine, s: State) returns (blocks: seq<Block>, used: set<Value>, traps: Traps)
    ensures SingleAssignment(blocks) && IsRequired(blocks, used)
    ensures !RunClear(m, traps, Any, blocks, 0, None, s, 1)
      && RunClear(m, traps, Any, Prune(blocks, used), 0, None, s, 1)
  {
    var load := Pure(1, "list load", []);
    var block := Block(0, [load, Return(None)], [], []);
    blocks, used, traps := [block], {}, (name: string, args: seq<Val>, mem: Memory) => true;
    NothingRequired(block);
    assert Find(blocks, 0) == Some(block);
    assert TrapsAt(traps, load, s.(env := BindPhis(block.insts, None, s.env, s.env)));
    assert !BlockClear(m, traps, Any, block, None, s);
    var pruned := PruneBlock(block, {});
    assert block.insts[1..] == [Return(None)] && [Return(None)][1..] == [];
    assert Retain([Return(None)], {}) == [Return(None)];
    assert pruned.insts == [Return(None)];
    assert Prune(blocks, {}) == [pruned] && Find([pruned], 0) == Some(pruned);
    assert BlockClear(m, traps, Any, pruned, None, s);
    RunReturn(m, pruned, s);
  }

  lemma RunReturn(m: Machine, block: Block, s: State)
    requires block.insts == [Return(None)]
    ensures !RunBlock(m, block, None, s).exit.Goto?
  {
  }

  lemma NothingRequired(block: Block)
    requires block.insts == [Pure(1, "list load", []), Return(None)]
    ensures SingleAssignment([block]) && IsRequired([block], {})
  {
    hide Root;
    forall v
      ensures !Required([block], v)
    {
      if p :| p != [] && Chain([block], p) && p[|p| - 1] == v {
        ChainStarts([block], p);
        NoRoot(block, p[0]);
      }
    }
  }

  lemma NoRoot(block: Block, v: Value)
    requires block.insts == [Pure(1, "list load", []), Return(None)]
    ensures !Root([block], v)
  {
  }

  lemma {:induction false} ChainStarts(blocks: seq<Block>, p: seq<Value>)
    requires Chain(blocks, p)
    ensures Root(blocks, p[0])
    decreases |p|
  {
    if |p| > 1 {
      ChainStarts(blocks, p[..|p| - 1]);
    }
  }
}
