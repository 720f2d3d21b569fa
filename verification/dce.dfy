/** Dead code elimination: keep side effects and what they depend on, drop everything else. */
module DeadCode {
  import opened IR
  import opened Semantics

  // ----- what has to stay -----

  /** An operand of an instruction with side effects. */
  ghost predicate Root(blocks: seq<Block>, v: Value) {
    exists block, k :: block in blocks && k in block.insts && HasSideEffects(k) && v in Operands(k)
  }

  /** The values the definition of v depends on. */
  function DependsOn(blocks: seq<Block>, v: Value): set<Value> {
    match FindDef(blocks, v)
    case None => {}
    case Some(k) => Operands(k)
  }

  ghost predicate Chain(blocks: seq<Block>, p: seq<Value>) {
    && p != []
    && (if |p| == 1 then Root(blocks, p[0])
        else p[|p| - 1] in DependsOn(blocks, p[|p| - 2]) && Chain(blocks, p[..|p| - 1]))
  }

  /** Some side effect depends on v, through any number of definitions. */
  ghost predicate Required(blocks: seq<Block>, v: Value) {
    exists p :: Chain(blocks, p) && p[|p| - 1] == v
  }

  ghost predicate Closed(blocks: seq<Block>, used: set<Value>) {
    && (forall v | Root(blocks, v) :: v in used)
    && (forall v, u | v in used && u in DependsOn(blocks, v) :: u in used)
  }

  /** used is the least operand-closed set that holds the operands of the side effects. */
  ghost predicate IsRequired(blocks: seq<Block>, used: set<Value>) {
    forall v: Value :: v in used <==> Required(blocks, v)
  }

  lemma {:induction false} ClosedHoldsChains(blocks: seq<Block>, used: set<Value>, p: seq<Value>)
    requires Closed(blocks, used) && Chain(blocks, p)
    ensures p[|p| - 1] in used
    decreases |p|
  {
    if |p| > 1 {
      ClosedHoldsChains(blocks, used, p[..|p| - 1]);
    }
  }

  lemma LeastClosed(blocks: seq<Block>, used: set<Value>, other: set<Value>)
    requires IsRequired(blocks, used) && Closed(blocks, other)
    ensures used <= other
  {
    forall v | v in used
      ensures v in other
    {
      var p :| Chain(blocks, p) && p[|p| - 1] == v;
      ClosedHoldsChains(blocks, other, p);
    }
  }

  lemma RequiredIsClosed(blocks: seq<Block>, used: set<Value>)
    requires IsRequired(blocks, used)
    ensures Closed(blocks, used)
  {
    forall v | Root(blocks, v)
      ensures v in used
    {
      assert Chain(blocks, [v]);
    }
    forall v, u | v in used && u in DependsOn(blocks, v)
      ensures u in used
    {
      ExtendChain(blocks, v, u);
    }
  }

  lemma ExtendChain(blocks: seq<Block>, v: Value, u: Value)
    requires Required(blocks, v) && u in DependsOn(blocks, v)
    ensures Required(blocks, u)
  {
    var p :| Chain(blocks, p) && p[|p| - 1] == v;
    assert (p + [u])[..|p + [u]| - 1] == p;
    assert Chain(blocks, p + [u]);
  }

  // ----- the pass -----

  predicate Keeps(k: Kind, used: set<Value>) {
    HasSideEffects(k) || (GetDef(k).Some? && GetDef(k).value in used)
  }

  function Retain(insts: seq<Kind>, used: set<Value>): seq<Kind> {
    if insts == [] then []
    else if Keeps(insts[0], used) then [insts[0]] + Retain(insts[1..], used)
    else Retain(insts[1..], used)
  }

  lemma RetainUnfolds(insts: seq<Kind>, used: set<Value>)
    requires insts != []
    ensures insts == [insts[0]] + insts[1..]
    ensures var r := Retain(insts, used);
      if Keeps(insts[0], used) then |r| > 0 && r[0] == insts[0] && r[1..] == Retain(insts[1..], used)
      else r == Retain(insts[1..], used)
  {
  }

  function PruneBlock(block: Block, used: set<Value>): Block {
    block.(insts := Retain(block.insts, used))
  }

  function Prune(blocks: seq<Block>, used: set<Value>): seq<Block> {
    seq(|blocks|, i requires 0 <= i < |blocks| => PruneBlock(blocks[i], used))
  }

  /** Pushes the operands of an instruction, a phi's from all edges. */
  method PushOperands(k: Kind, worklist: seq<Value>) returns (r: seq<Value>)
    ensures forall v :: v in r <==> v in worklist || v in Operands(k)
  {
    r := worklist + GetUses(k);
    if k.Phi? {
      var rest := k.mappings.Values;
      while rest != {}
        invariant rest <= k.mappings.Values
        invariant forall v :: v in r <==> v in worklist || (v in k.mappings.Values && v !in rest)
        decreases rest
      {
        var v :| v in rest;
        r := r + [v];
        rest := rest - {v};
      }
    }
  }

  /** The operands of every instruction with side effects. */
  method Roots(blocks: seq<Block>) returns (worklist: seq<Value>)
    ensures forall v :: v in worklist <==> Root(blocks, v)
  {
    worklist := [];
    for i := 0 to |blocks|
      invariant forall v :: v in worklist <==> Root(blocks[..i], v)
    {
      var insts := blocks[i].insts;
      for j := 0 to |insts|
        invariant forall v :: v in worklist <==> Root(blocks[..i], v) || RootIn(insts[..j], v)
      {
        if HasSideEffects(insts[j]) {
          worklist := PushOperands(insts[j], worklist);
        }
        assert insts[..j + 1] == insts[..j] + [insts[j]];
      }
      assert insts[..|insts|] == insts;
      RootsOfPrefix(blocks, i);
    }
    assert blocks[..|blocks|] == blocks;
  }

  ghost predicate RootIn(insts: seq<Kind>, v: Value) {
    exists k :: k in insts && HasSideEffects(k) && v in Operands(k)
  }

  lemma RootsOfPrefix(blocks: seq<Block>, i: nat)
    requires i < |blocks|
    ensures forall v :: Root(blocks[..i + 1], v) <==> Root(blocks[..i], v) || RootIn(blocks[i].insts, v)
  {
  }

  lemma DependenciesMentioned(blocks: seq<Block>, v: Value)
    ensures DependsOn(blocks, v) <= Mentioned(blocks)
  {
  }

  /** Loop invariant of the worklist: only required values are taken up, the side effects' operands
      are covered, and a value's dependencies are never forgotten. */
  ghost predicate Progress(blocks: seq<Block>, used: set<Value>, worklist: seq<Value>) {
    && (forall v | v in worklist || v in used :: Required(blocks, v) && v in Mentioned(blocks))
    && (forall v | Root(blocks, v) :: v in used || v in worklist)
    && (forall v, u | v in used && u in DependsOn(blocks, v) :: u in used || u in worklist)
  }

  lemma ProgressStart(blocks: seq<Block>, worklist: seq<Value>)
    requires forall v :: v in worklist <==> Root(blocks, v)
    ensures Progress(blocks, {}, worklist)
  {
    forall v | v in worklist
      ensures Required(blocks, v) && v in Mentioned(blocks)
    {
      assert Chain(blocks, [v]);
      var block, k :| block in blocks && k in block.insts && HasSideEffects(k) && v in Operands(k);
    }
  }

  lemma ProgressSeen(blocks: seq<Block>, used: set<Value>, worklist: seq<Value>, val: Value)
    requires Progress(blocks, used, worklist + [val]) && val in used
    ensures Progress(blocks, used, worklist)
  {
    hide Required, Root, DependsOn, Mentioned;
    assert forall v | v in worklist + [val] :: v in worklist || v in used;
  }

  lemma ProgressNew(blocks: seq<Block>, used: set<Value>, worklist: seq<Value>, val: Value, after: seq<Value>)
    requires Progress(blocks, used, worklist + [val])
    requires forall v :: v in after <==> v in worklist || v in DependsOn(blocks, val)
    ensures val in Mentioned(blocks) && Progress(blocks, used + {val}, after)
  {
    assert forall v :: v in worklist + [val] <==> v in worklist || v == val;
    DependenciesMentioned(blocks, val);
    forall u | u in DependsOn(blocks, val)
      ensures Required(blocks, u)
    {
      ExtendChain(blocks, val, u);
    }
  }

  lemma ProgressDone(blocks: seq<Block>, used: set<Value>)
    requires Progress(blocks, used, [])
    ensures IsRequired(blocks, used)
  {
    forall v: Value | Required(blocks, v)
      ensures v in used
    {
      var p :| Chain(blocks, p) && p[|p| - 1] == v;
      ClosedHoldsChains(blocks, used, p);
    }
  }

  /** The worklist: everything the side effects need, directly or through definitions. */
  method RequiredValues(blocks: seq<Block>) returns (used: set<Value>)
    ensures IsRequired(blocks, used)
  {
    hide Progress, Root, Mentioned;
    used := {};
    var worklist := Roots(blocks);
    ProgressStart(blocks, worklist);
    while worklist != []
      invariant Progress(blocks, used, worklist)
      decreases Mentioned(blocks) - used, |worklist|
    {
      var val := worklist[|worklist| - 1];
      var rest := worklist[..|worklist| - 1];
      assert worklist == rest + [val];
      worklist := rest;
      if val in used {
        ProgressSeen(blocks, used, rest, val);
      } else {
        var def := FindDef(blocks, val);
        if def.Some? {
          worklist := PushOperands(def.value, worklist);
        }
        ProgressNew(blocks, used, rest, val, worklist);
        used := used + {val};
      }
    }
    ProgressDone(blocks, used);
  }

  method RetainInsts(insts: seq<Kind>, used: set<Value>) returns (kept: seq<Kind>)
    ensures kept == Retain(insts, used)
  {
    kept := [];
    for i := 0 to |insts|
      invariant kept + Retain(insts[i..], used) == Retain(insts, used)
    {
      assert insts[i..][1..] == insts[i + 1..];
      if Keeps(insts[i], used) {
        kept := kept + [insts[i]];
      }
    }
  }

  method EliminateDeadCode(func: Function)
    modifies func
    ensures exists used :: IsRequired(old(func.blocks), used) && func.blocks == Prune(old(func.blocks), used)
  {
    ghost var blocks := func.blocks;
    var used := RequiredValues(func.blocks);
    var i := 0;
    while i < |func.blocks|
      invariant 0 <= i <= |func.blocks| == |blocks|
      invariant forall j | 0 <= j < i :: func.blocks[j] == PruneBlock(blocks[j], used)
      invariant forall j | i <= j < |blocks| :: func.blocks[j] == blocks[j]
    {
      var kept := RetainInsts(func.blocks[i].insts, used);
      func.blocks := func.blocks[i := func.blocks[i].(insts := kept)];
      i := i + 1;
    }
  }

  // ----- what the pass preserves -----

  ghost predicate AgreeOn(e: Store, f: Store, used: set<Value>) {
    forall v | v in used :: Get(e, v) == Get(f, v)
  }

  lemma {:induction false} FindPruned(blocks: seq<Block>, used: set<Value>, b: BlockId)
    ensures Find(Prune(blocks, used), b) ==
      match Find(blocks, b) case None => None case Some(block) => Some(PruneBlock(block, used))
  {
    if blocks != [] {
      assert Prune(blocks, used)[1..] == Prune(blocks[1..], used);
      FindPruned(blocks[1..], used, b);
    }
  }

  /** The operands of whatever is kept are in the required set. */
  lemma KeptOperandsUsed(blocks: seq<Block>, used: set<Value>, block: Block, k: Kind)
    requires SingleAssignment(blocks) && Closed(blocks, used) && block in blocks && k in block.insts && Keeps(k, used)
    ensures Operands(k) <= used
  {
  }

  ghost predicate OperandsIn(insts: seq<Kind>, used: set<Value>) {
    forall k | k in insts && Keeps(k, used) :: Operands(k) <= used
  }

  lemma {:induction false} BindPhisPruned(insts: seq<Kind>, used: set<Value>, from: Option<BlockId>, e: Store, f: Store,
      boundE: Store, boundF: Store)
    requires OperandsIn(insts, used) && AgreeOn(e, f, used) && AgreeOn(boundE, boundF, used)
    ensures AgreeOn(BindPhis(insts, from, e, boundE), BindPhis(Retain(insts, used), from, f, boundF), used)
    decreases |insts|
  {
    if insts != [] {
      var k, rest := insts[0], insts[1..];
      RetainUnfolds(insts, used);
      var boundE', boundF' := boundE, boundF;
      if k.Phi? {
        boundE' := boundE[k.dest := Incoming(k.mappings, from, e)];
        if Keeps(k, used) {
          boundF' := boundF[k.dest := Incoming(k.mappings, from, f)];
          assert from.Some? && from.value in k.mappings ==> k.mappings[from.value] in Operands(k);
        }
      }
      BindPhisPruned(rest, used, from, e, f, boundE', boundF');
    }
  }

  /** Dropping what is not required changes no side effect, no exit and no required value. */
  lemma {:induction false} ExecPruned(m: Machine, insts: seq<Kind>, used: set<Value>, s: State, t: State)
    requires OperandsIn(insts, used) && AgreeOn(s.env, t.env, used) && s.mem == t.mem
    ensures var x, y := Exec(m, insts, s), Exec(m, Retain(insts, used), t);
      x.trace == y.trace && x.exit == y.exit && x.state.mem == y.state.mem && AgreeOn(x.state.env, y.state.env, used)
    decreases |insts|
  {
    if insts != [] {
      var k, rest := insts[0], insts[1..];
      RetainUnfolds(insts, used);
      if Keeps(k, used) {
        assert AgreeOnUses(s.env, t.env, k) by {
          assert forall v | v in GetUses(k) && !k.Phi? :: v in Operands(k);
        }
        if IsTerminator(k) {
          LeaveAgrees(k, s.env, t.env);
        } else {
          PerformAgrees(m, k, s, t);
          assert AgreeOn(Perform(m, k, s).env, Perform(m, k, t).env, used);
          ExecPruned(m, rest, used, Perform(m, k, s), Perform(m, k, t));
        }
      } else {
        assert AgreeOn(Perform(m, k, s).env, t.env, used);
        ExecPruned(m, rest, used, Perform(m, k, s), t);
      }
    }
  }

  /** Dead code elimination preserves every run: same path, same side effects on the same operand
      values, same ending, result and memory, for any start and any number of steps. */
  lemma {:induction false} RunsPreserved(m: Machine, blocks: seq<Block>, used: set<Value>, b: BlockId,
      from: Option<BlockId>, s: State, t: State, n: nat)
    requires SingleAssignment(blocks) && IsRequired(blocks, used)
    requires AgreeOn(s.env, t.env, used) && s.mem == t.mem
    ensures Run(m, blocks, b, from, s, n) == Run(m, Prune(blocks, used), b, from, t, n)
    decreases n
  {
    hide RunBlock, Run, PruneBlock, Prune, Find, IsRequired, SingleAssignment, AgreeOn;
    if n == 0 {
      RunNone(m, blocks, b, from, s);
      RunNone(m, Prune(blocks, used), b, from, t);
    } else {
      FindPruned(blocks, used, b);
      if Find(blocks, b).Some? {
        var block := Find(blocks, b).value;
        StepPruned(m, blocks, used, block, from, s, t);
        var x, y := RunBlock(m, block, from, s), RunBlock(m, PruneBlock(block, used), from, t);
        if x.exit.Goto? {
          RunsPreserved(m, blocks, used, x.exit.target, Some(b), x.state, y.state, n - 1);
        }
      }
      RunNext(m, blocks, Prune(blocks, used), b, from, s, t, n);
    }
  }

  /** One block and its pruned form: same effects, same exit, stores that still agree. */
  lemma StepPruned(m: Machine, blocks: seq<Block>, used: set<Value>, block: Block, from: Option<BlockId>, s: State,
      t: State)
    requires SingleAssignment(blocks) && IsRequired(blocks, used) && block in blocks
    requires AgreeOn(s.env, t.env, used) && s.mem == t.mem
    ensures var x, y := RunBlock(m, block, from, s), RunBlock(m, PruneBlock(block, used), from, t);
      x.trace == y.trace && x.exit == y.exit && x.state.mem == y.state.mem && AgreeOn(x.state.env, y.state.env, used)
  {
    var insts := block.insts;
    KeptUsesIn(blocks, used, block);
    hide OperandsIn, IsRequired, SingleAssignment, Exec, BindPhis, Retain;
    BindPhisPruned(insts, used, from, s.env, t.env, s.env, t.env);
    ExecPruned(m, insts, used, s.(env := BindPhis(insts, from, s.env, s.env)),
      t.(env := BindPhis(Retain(insts, used), from, t.env, t.env)));
  }

  lemma KeptUsesIn(blocks: seq<Block>, used: set<Value>, block: Block)
    requires SingleAssignment(blocks) && IsRequired(blocks, used) && block in blocks
    ensures OperandsIn(block.insts, used)
  {
    RequiredIsClosed(blocks, used);
    forall k | k in block.insts && Keeps(k, used) {
      KeptOperandsUsed(blocks, used, block, k);
    }
  }

  lemma {:induction false} RetainKeeps(insts: seq<Kind>, used: set<Value>)
    ensures forall k :: k in Retain(insts, used) <==> k in insts && Keeps(k, used)
  {
    if insts != [] {
      RetainKeeps(insts[1..], used);
      assert insts == [insts[0]] + insts[1..];
    }
  }

  /** An instruction survives exactly when it has a side effect or some side effect depends on it. */
  lemma KeptExactly(blocks: seq<Block>, used: set<Value>, i: nat, k: Kind)
    requires IsRequired(blocks, used) && i < |blocks| && k in blocks[i].insts
    ensures k in Prune(blocks, used)[i].insts <==>
      HasSideEffects(k) || (GetDef(k).Some? && Required(blocks, GetDef(k).value))
  {
    RetainKeeps(blocks[i].insts, used);
  }

  /** Nothing kept refers to a definition that was removed. */
  lemma NoDanglingOperand(blocks: seq<Block>, used: set<Value>, i: nat, k: Kind, j: nat, d: Kind)
    requires SingleAssignment(blocks) && IsRequired(blocks, used)
    requires i < |blocks| && k in Prune(blocks, used)[i].insts
    requires j < |blocks| && d in blocks[j].insts && GetDef(d).Some? && GetDef(d).value in Operands(k)
    ensures d in Prune(blocks, used)[j].insts
  {
    RetainKeeps(blocks[i].insts, used);
    RetainKeeps(blocks[j].insts, used);
    RequiredIsClosed(blocks, used);
    KeptOperandsUsed(blocks, used, blocks[i], k);
  }

  // ----- a second run -----

  lemma {:induction false} FindInRetained(insts: seq<Kind>, used: set<Value>, v: Value)
    requires v in used
    ensures FindIn(Retain(insts, used), v) == FindIn(insts, v)
  {
    if insts != [] {
      FindInRetained(insts[1..], used, v);
      RetainUnfolds(insts, used);
    }
  }

  lemma {:induction false} FindDefPruned(blocks: seq<Block>, used: set<Value>, v: Value)
    requires v in used
    ensures FindDef(Prune(blocks, used), v) == FindDef(blocks, v)
  {
    if blocks != [] {
      assert Prune(blocks, used)[1..] == Prune(blocks[1..], used);
      FindInRetained(blocks[0].insts, used, v);
      FindDefPruned(blocks[1..], used, v);
    }
  }

  lemma RootsPruned(blocks: seq<Block>, used: set<Value>, v: Value)
    ensures Root(Prune(blocks, used), v) <==> Root(blocks, v)
  {
    var pruned := Prune(blocks, used);
    if Root(blocks, v) {
      var block, k :| block in blocks && k in block.insts && HasSideEffects(k) && v in Operands(k);
      var i :| 0 <= i < |blocks| && blocks[i] == block;
      RetainKeeps(block.insts, used);
      assert pruned[i] in pruned && k in pruned[i].insts;
    }
    if Root(pruned, v) {
      var block, k :| block in pruned && k in block.insts && HasSideEffects(k) && v in Operands(k);
      var i :| 0 <= i < |blocks| && pruned[i] == block;
      RetainKeeps(blocks[i].insts, used);
      assert blocks[i] in blocks;
    }
  }

  lemma {:induction false} ChainPruned(blocks: seq<Block>, used: set<Value>, p: seq<Value>)
    requires IsRequired(blocks, used)
    ensures Chain(Prune(blocks, used), p) <==> Chain(blocks, p)
    decreases |p|
  {
    if |p| == 1 {
      RootsPruned(blocks, used, p[0]);
    } else if |p| > 1 {
      var q := p[..|p| - 1];
      ChainPruned(blocks, used, q);
      if Chain(blocks, q) {
        assert Required(blocks, q[|q| - 1]);
        FindDefPruned(blocks, used, q[|q| - 1]);
      }
    }
  }

  lemma {:induction false} RetainTwice(insts: seq<Kind>, used: set<Value>)
    ensures Retain(Retain(insts, used), used) == Retain(insts, used)
  {
    if insts != [] {
      RetainTwice(insts[1..], used);
      RetainUnfolds(insts, used);
    }
  }

  /** The pass is idempotent: what it finds required in its own output is the same set, and a second
      run removes nothing. */
  lemma SecondRunChangesNothing(blocks: seq<Block>, used: set<Value>, again: set<Value>)
    requires IsRequired(blocks, used) && IsRequired(Prune(blocks, used), again)
    ensures again == used && Prune(Prune(blocks, used), again) == Prune(blocks, used)
  {
    var pruned := Prune(blocks, used);
    forall v: Value
      ensures Required(pruned, v) <==> Required(blocks, v)
    {
      if Required(pruned, v) {
        var p :| Chain(pruned, p) && p[|p| - 1] == v;
        ChainPruned(blocks, used, p);
      }
      if Required(blocks, v) {
        var p :| Chain(blocks, p) && p[|p| - 1] == v;
        ChainPruned(blocks, used, p);
      }
    }
    assert again == used;
    forall i | 0 <= i < |blocks|
      ensures PruneBlock(pruned[i], again) == pruned[i]
    {
      RetainTwice(blocks[i].insts, used);
      assert pruned[i] == PruneBlock(blocks[i], used);
    }
  }
}
