/** Strict SSA: definitions dominate their uses. What follows for runs: every operand is defined
    when it is read, and the equation of a dominating definition holds with current values. */
module StrictSsa {
  import opened IR
  import opened Cfg
  import opened Semantics

  ghost function SuccEdges(blocks: seq<Block>): Edges {
    iset e: (BlockId, BlockId) | Find(blocks, e.0).Some? && e.1 in Find(blocks, e.0).value.succs
  }

  ghost predicate DefinedIn(blocks: seq<Block>, d: BlockId, v: Value) {
    Find(blocks, d).Some? && Defines(Find(blocks, d).value.insts, v)
  }

  /** Each value has one defining instruction, in one place. */
  ghost predicate UniqueDefinitions(blocks: seq<Block>) {
    && (forall c: BlockId, d: BlockId, v | DefinedIn(blocks, c, v) && DefinedIn(blocks, d, v) :: c == d)
    && (forall block, i, j | block in blocks && 0 <= i < |block.insts| && 0 <= j < |block.insts|
          && GetDef(block.insts[i]).Some? && GetDef(block.insts[i]) == GetDef(block.insts[j]) :: i == j)
  }

  /** v is not defined by any instruction: a parameter of the function. */
  ghost predicate Parameter(blocks: seq<Block>, v: Value) {
    forall d: BlockId :: !DefinedIn(blocks, d, v)
  }

  /** v is available to the instruction at position i of `block`. */
  ghost predicate AvailableAt(blocks: seq<Block>, entry: BlockId, block: Block, i: nat, v: Value)
    requires i <= |block.insts|
  {
    || Parameter(blocks, v)
    || (exists j | 0 <= j < i :: GetDef(block.insts[j]) == Some(v))
    || (exists d: BlockId ::
      d != block.id && DefinedIn(blocks, d, v) && Dominates(SuccEdges(blocks), entry, d, block.id))
  }

  ghost predicate AvailableAtEnd(blocks: seq<Block>, entry: BlockId, p: BlockId, v: Value) {
    || Parameter(blocks, v)
    || exists d: BlockId :: DefinedIn(blocks, d, v) && Dominates(SuccEdges(blocks), entry, d, p)
  }

  ghost predicate PhisFirst(block: Block) {
    forall i, j | 0 <= i < j < |block.insts| && block.insts[j].Phi? :: block.insts[i].Phi?
  }

  ghost predicate UsesAvailable(blocks: seq<Block>, entry: BlockId, block: Block) {
    && (forall i, v | 0 <= i < |block.insts| && v in GetUses(block.insts[i]) :: AvailableAt(blocks, entry, block, i, v))
    && (forall k, p | k in block.insts && k.Phi? && p in k.mappings && (p, block.id) in SuccEdges(blocks) ::
          AvailableAtEnd(blocks, entry, p, k.mappings[p]))
  }

  ghost predicate Strict(blocks: seq<Block>, entry: BlockId) {
    && WellFormed(blocks) && UniqueDefinitions(blocks)
    && (forall block | block in blocks :: PhisFirst(block) && UsesAvailable(blocks, entry, block))
  }

  // ----- runs along a path -----

  /** The block step at the end of path p when the run from the entry follows exactly p. */
  function StepAt(m: Machine, blocks: seq<Block>, p: seq<BlockId>, s0: State): Option<Step>
    decreases |p|
  {
    if p == [] then None
    else
      match Find(blocks, p[|p| - 1])
      case None => None
      case Some(block) =>
        if |p| == 1 then Some(RunBlock(m, block, None, s0))
        else
          match StepAt(m, blocks, p[..|p| - 1], s0)
          case None => None
          case Some(step) =>
            if step.exit == Goto(p[|p| - 1]) then Some(RunBlock(m, block, Some(p[|p| - 2]), step.state)) else None
  }

  lemma ExtendStep(m: Machine, blocks: seq<Block>, p: seq<BlockId>, s0: State, b: BlockId)
    requires StepAt(m, blocks, p, s0).Some? && StepAt(m, blocks, p, s0).value.exit == Goto(b) && Find(blocks, b).Some?
    ensures StepAt(m, blocks, p + [b], s0)
      == Some(RunBlock(m, Find(blocks, b).value, Some(p[|p| - 1]), StepAt(m, blocks, p, s0).value.state))
  {
  }

  ghost predicate OnlyParameters(blocks: seq<Block>, s0: State) {
    forall v | v in s0.env :: Parameter(blocks, v)
  }

  /** A path a run follows is a walk in the graph. */
  lemma {:induction false} StepsAreWalks(m: Machine, blocks: seq<Block>, entry: BlockId, p: seq<BlockId>, s0: State)
    requires WellFormed(blocks) && StepAt(m, blocks, p, s0).Some? && p[0] == entry
    ensures Walk(SuccEdges(blocks), entry, p, p[|p| - 1])
    decreases |p|
  {
    if |p| > 1 {
      var q := p[..|p| - 1];
      StepsAreWalks(m, blocks, entry, q, s0);
      var block := Find(blocks, q[|q| - 1]).value;
      var from := if |q| == 1 then None else Some(q[|q| - 2]);
      var s := if |q| == 1 then s0 else StepAt(m, blocks, q[..|q| - 1], s0).value.state;
      ExecTarget(m, block.insts, s.(env := BindPhis(block.insts, from, s.env, s.env)));
    }
  }

  // ----- everything executed is defined -----

  lemma {:induction false} BindPhisKeys(insts: seq<Kind>, from: Option<BlockId>, env: Store, bound: Store)
    ensures BindPhis(insts, from, env, bound).Keys == bound.Keys + PhiDefs(insts)
  {
    if insts != [] {
      assert insts == [insts[0]] + insts[1..];
      assert PhiDefs(insts) == PhiDefs(insts[1..]) + (if insts[0].Phi? then {insts[0].dest} else {});
      if insts[0].Phi? {
        BindPhisKeys(insts[1..], from, env, bound[insts[0].dest := Incoming(insts[0].mappings, from, env)]);
      } else {
        BindPhisKeys(insts[1..], from, env, bound);
      }
    }
  }

  lemma {:induction false} ExecKeys(m: Machine, insts: seq<Kind>, s: State, v: Value)
    requires forall i | 0 <= i < |insts| - 1 :: !IsTerminator(insts[i])
    ensures v in s.env ==> v in Exec(m, insts, s).state.env
    ensures (exists k :: k in insts && !k.Phi? && GetDef(k) == Some(v)) ==> v in Exec(m, insts, s).state.env
    ensures v in Exec(m, insts, s).state.env ==> v in s.env || Defines(insts, v)
  {
    if insts != [] && !IsTerminator(insts[0]) {
      var rest := insts[1..];
      assert insts == [insts[0]] + rest;
      var s1 := Perform(m, insts[0], s);
      ExecKeys(m, rest, s1, v);
      if Defines(rest, v) {
        var i :| 0 <= i < |rest| && GetDef(rest[i]) == Some(v);
        assert GetDef(insts[i + 1]) == Some(v);
      }
      if v in s1.env && v !in s.env {
        assert GetDef(insts[0]) == Some(v);
      }
    } else if insts != [] {
      assert |insts| == 1;
    }
  }

  lemma StepKeys(m: Machine, block: Block, from: Option<BlockId>, s: State, v: Value)
    requires WellTerminated(block)
    ensures v in s.env ==> v in RunBlock(m, block, from, s).state.env
    ensures Defines(block.insts, v) ==> v in RunBlock(m, block, from, s).state.env
    ensures v in RunBlock(m, block, from, s).state.env ==> v in s.env || Defines(block.insts, v)
  {
    var env := BindPhis(block.insts, from, s.env, s.env);
    BindPhisKeys(block.insts, from, s.env, s.env);
    ExecKeys(m, block.insts, s.(env := env), v);
    if Defines(block.insts, v) {
      var i :| 0 <= i < |block.insts| && GetDef(block.insts[i]) == Some(v);
      assert block.insts[i].Phi? ==> v in PhiDefs(block.insts);
    }
    if v in PhiDefs(block.insts) {
      var k :| k in block.insts && k.Phi? && k.dest == v;
      assert GetDef(k) == Some(v);
    }
  }

  /** After a run along p, every value defined in a block of p is in the store. */
  lemma {:induction false} DefinedAfter(m: Machine, blocks: seq<Block>, p: seq<BlockId>, s0: State, d: BlockId,
      v: Value)
    requires WellFormed(blocks) && StepAt(m, blocks, p, s0).Some?
    requires d in p && DefinedIn(blocks, d, v)
    ensures v in StepAt(m, blocks, p, s0).value.state.env
    decreases |p|
  {
    var c := p[|p| - 1];
    var block := Find(blocks, c).value;
    if |p| == 1 {
      StepKeys(m, block, None, s0, v);
    } else {
      var s := StepAt(m, blocks, p[..|p| - 1], s0).value.state;
      StepKeys(m, block, Some(p[|p| - 2]), s, v);
      if d != c {
        DefinedAfter(m, blocks, p[..|p| - 1], s0, d, v);
      }
    }
  }

  // ----- equations of dominating definitions -----

  /** Instructions whose value depends on their operands alone. */
  predicate MemoryFree(k: Kind) {
    !HasSideEffects(k) && GetDef(k).Some? && !k.Phi? && !k.Pure?
  }

  lemma ComputeIgnoresMemory(m: Machine, k: Kind, env: Store, a: Memory, b: Memory)
    requires MemoryFree(k)
    ensures Compute(m, k, env, a) == Compute(m, k, env, b)
  {
  }

  /** The defining equation of k holds in the store. */
  ghost predicate EquationHolds(m: Machine, k: Kind, s: State)
    requires MemoryFree(k)
  {
    Get(s.env, GetDef(k).value) == Compute(m, k, s.env, s.mem)
  }

  /** Instructions that redefine neither k's result nor its operands keep its equation. */
  lemma {:induction false} ExecKeepsValue(m: Machine, insts: seq<Kind>, s: State, v: Value)
    requires !Defines(insts, v)
    ensures Get(Exec(m, insts, s).state.env, v) == Get(s.env, v)
  {
    if insts != [] && !IsTerminator(insts[0]) {
      var rest := insts[1..];
      forall i | 0 <= i < |rest|
        ensures GetDef(rest[i]) != Some(v)
      {
        assert rest[i] == insts[i + 1];
      }
      assert GetDef(insts[0]) != Some(v);
      ExecKeepsValue(m, rest, Perform(m, insts[0], s), v);
    }
  }

  lemma StepKeepsValue(m: Machine, block: Block, from: Option<BlockId>, s: State, v: Value)
    requires !Defines(block.insts, v)
    ensures Get(RunBlock(m, block, from, s).state.env, v) == Get(s.env, v)
  {
    assert forall k | k in block.insts && k.Phi? :: k.dest != v by {
      forall k | k in block.insts && k.Phi?
        ensures k.dest != v
      {
        assert GetDef(k) == Some(k.dest);
      }
    }
    BindPhisFrame(block.insts, from, s.env, s.env, v);
    ExecKeepsValue(m, block.insts, s.(env := BindPhis(block.insts, from, s.env, s.env)), v);
  }

  lemma EquationKept(m: Machine, k: Kind, s: State, t: State)
    requires MemoryFree(k) && EquationHolds(m, k, s)
    requires Get(t.env, GetDef(k).value) == Get(s.env, GetDef(k).value) && AgreeOnUses(s.env, t.env, k)
    ensures EquationHolds(m, k, t)
  {
    ComputeAgrees(m, k, s.env, t.env, s.mem);
    ComputeIgnoresMemory(m, k, t.env, s.mem, t.mem);
  }

  /** Straight-line code establishes the equation of each of its instructions. */
  lemma {:induction false} ExecEstablishes(m: Machine, insts: seq<Kind>, s: State, i: nat)
    requires i < |insts| && MemoryFree(insts[i])
    requires forall j | 0 <= j < |insts| - 1 :: !IsTerminator(insts[j])
    requires forall j, v | i <= j < |insts| && v in GetUses(insts[i]) :: GetDef(insts[j]) != Some(v)
    requires forall j | i < j < |insts| :: GetDef(insts[j]) != GetDef(insts[i])
    ensures EquationHolds(m, insts[i], Exec(m, insts, s).state)
  {
    var rest := insts[1..];
    if i > 0 {
      assert rest[i - 1] == insts[i];
      ExecEstablishes(m, rest, Perform(m, insts[0], s), i - 1);
    } else {
      var k := insts[0];
      var s1 := Perform(m, k, s);
      PerformAgrees(m, k, s, s);
      assert EquationHolds(m, k, s1) by {
        assert AgreeOnUses(s.env, s1.env, k);
        ComputeAgrees(m, k, s.env, s1.env, s.mem);
      }
      var t := Exec(m, rest, s1).state;
      assert !Defines(rest, GetDef(k).value);
      ExecKeepsValue(m, rest, s1, GetDef(k).value);
      forall v | v in GetUses(k)
        ensures Get(t.env, v) == Get(s1.env, v)
      {
        assert !Defines(rest, v);
        ExecKeepsValue(m, rest, s1, v);
      }
      EquationKept(m, k, s1, t);
    }
  }

  /** An operand of a definition in block y is not defined in any other block c that y dominates. */
  lemma OperandDefinedElsewhere(blocks: seq<Block>, entry: BlockId, y: BlockId, i: nat, v: Value, c: BlockId)
    requires Strict(blocks, entry) && Find(blocks, y).Some? && i < |Find(blocks, y).value.insts|
    requires v in GetUses(Find(blocks, y).value.insts[i])
    requires c != y && Dominates(SuccEdges(blocks), entry, y, c) && Reachable(SuccEdges(blocks), entry, c)
    ensures !DefinedIn(blocks, c, v)
  {
    var block := Find(blocks, y).value;
    assert AvailableAt(blocks, entry, block, i, v);
    if DefinedIn(blocks, c, v) {
      if j :| 0 <= j < i && GetDef(block.insts[j]) == Some(v) {
        assert DefinedIn(blocks, y, v);
      } else {
        var d: BlockId :| d != y && DefinedIn(blocks, d, v) && Dominates(SuccEdges(blocks), entry, d, y);
        DominanceAntisymmetric(SuccEdges(blocks), entry, y, c);
      }
    }
  }

  /** In strict SSA the equation of a definition holds, with current values, wherever the definition
      dominates: after every run, loops included, as if all names were mathematical variables. */
  lemma {:induction false} EquationsHold(m: Machine, blocks: seq<Block>, entry: BlockId, p: seq<BlockId>, s0: State,
      y: BlockId, i: nat)
    requires Strict(blocks, entry) && StepAt(m, blocks, p, s0).Some? && p[0] == entry
    requires Find(blocks, y).Some? && i < |Find(blocks, y).value.insts| && MemoryFree(Find(blocks, y).value.insts[i])
    requires Dominates(SuccEdges(blocks), entry, y, p[|p| - 1])
    ensures EquationHolds(m, Find(blocks, y).value.insts[i], StepAt(m, blocks, p, s0).value.state)
    decreases |p|
  {
    var c := p[|p| - 1];
    var e := SuccEdges(blocks);
    var here, block := Find(blocks, y).value, Find(blocks, c).value;
    var k := here.insts[i];
    StepsAreWalks(m, blocks, entry, p, s0);
    var from := if |p| == 1 then None else Some(p[|p| - 2]);
    var s := if |p| == 1 then s0 else StepAt(m, blocks, p[..|p| - 1], s0).value.state;
    if y == c {
      EstablishedInBlock(m, blocks, entry, block, i, s.(env := BindPhis(block.insts, from, s.env, s.env)));
    } else {
      assert |p| > 1 by {
        assert y in p;
      }
      DominatesPredecessor(e, entry, y, p[|p| - 2], c);
      EquationsHold(m, blocks, entry, p[..|p| - 1], s0, y, i);
      var t := RunBlock(m, block, from, s).state;
      assert Get(t.env, GetDef(k).value) == Get(s.env, GetDef(k).value) by {
        var v := GetDef(k).value;
        assert GetDef(here.insts[i]) == Some(v) && DefinedIn(blocks, y, v);
        assert DefinedIn(blocks, c, v) <==> Defines(block.insts, v);
        StepKeepsValue(m, block, from, s, v);
      }
      forall v | v in GetUses(k)
        ensures Get(s.env, v) == Get(t.env, v)
      {
        OperandDefinedElsewhere(blocks, entry, y, i, v, c);
        StepKeepsValue(m, block, from, s, v);
      }
      EquationKept(m, k, s, t);
    }
  }

  lemma EstablishedInBlock(m: Machine, blocks: seq<Block>, entry: BlockId, block: Block, i: nat, s: State)
    requires Strict(blocks, entry) && Find(blocks, block.id) == Some(block)
    requires i < |block.insts| && MemoryFree(block.insts[i])
    ensures EquationHolds(m, block.insts[i], Exec(m, block.insts, s).state)
  {
    var k := block.insts[i];
    forall j, v | i <= j < |block.insts| && v in GetUses(k)
      ensures GetDef(block.insts[j]) != Some(v)
    {
      assert AvailableAt(blocks, entry, block, i, v);
      if GetDef(block.insts[j]) == Some(v) {
        assert DefinedIn(blocks, block.id, v);
      }
    }
    ExecEstablishes(m, block.insts, s, i);
  }
}
