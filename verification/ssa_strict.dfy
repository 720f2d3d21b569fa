/** What the builder hands on: a function in strict SSA form whose runs hold, for every variable, the
    value last stored to it. */
module BuiltSsa {
  import opened Arithmetic
  import opened IR
  import opened Cfg
  import opened Semantics
  import opened StrictSsa
  import opened SsaBuilder
  import opened SsaCorrectness
  import L = LoopEquality

  /** Construction is over: every block is sealed and no phi waits for operands. */
  ghost predicate Finished(s: Snapshot) {
    && Inv(s) && s.pending == {} && StoresAvailable(s)
    && forall c: BlockId | c < |s.blocks| :: c in s.sealed
  }

  // ----- the graph -----

  lemma {:induction false} FindFrom(blocks: seq<Block>, k: nat, b: BlockId)
    requires forall i: BlockId | i < |blocks| :: blocks[i].id == i + k
    ensures Find(blocks, b) == if k <= b < k + |blocks| then Some(blocks[b - k]) else None
  {
    if blocks != [] && blocks[0].id != b {
      FindFrom(blocks[1..], k + 1, b);
    }
  }

  /** Blocks are numbered by position. */
  lemma FindBuilt(s: Snapshot, b: BlockId)
    requires Inv(s)
    ensures Find(s.blocks, b) == if b < |s.blocks| then Some(s.blocks[b]) else None
  {
    FindFrom(s.blocks, 0, b);
  }

  lemma SameEdges(s: Snapshot)
    requires Inv(s)
    ensures SuccEdges(s.blocks) == EdgesOf(s.blocks)
  {
    hide ValuesOk, DefsOk, IncompleteOk, EntryOk, BlockShape;
    forall b: BlockId, c: BlockId
      ensures (b, c) in SuccEdges(s.blocks) <==> (b, c) in EdgesOf(s.blocks)
    {
      FindBuilt(s, b);
      assert Succeeds(s.blocks, b, c) <==> Precedes(s.blocks, b, c);
    }
  }

  lemma BuiltDefines(s: Snapshot, d: BlockId, v: Value)
    requires Inv(s)
    ensures DefinedIn(s.blocks, d, v) <==> d < |s.blocks| && Defines(s.blocks[d].insts, v)
  {
    FindBuilt(s, d);
  }

  lemma BuiltUnique(s: Snapshot)
    requires Inv(s)
    ensures UniqueDefinitions(s.blocks)
  {
    forall d: BlockId, v
      ensures DefinedIn(s.blocks, d, v) <==> d < |s.blocks| && Defines(s.blocks[d].insts, v)
    {
      BuiltDefines(s, d, v);
    }
    hide DefinedIn, Defines, DefsOk, IncompleteOk, EntryOk, PhisLead, PhisOwned;
    forall block | block in s.blocks
      ensures DefinedOnce(block.insts)
    {
      var b: BlockId :| b < |s.blocks| && s.blocks[b] == block;
      assert BlockShape(s.blocks[b].insts, b, s.owner, s.entries);
    }
  }

  // ----- phi operands -----

  lemma {:induction false} OnlyPhi(insts: seq<Kind>, k: Kind)
    requires DefinedOnce(insts) && k in insts && k.Phi?
    ensures PhiOps(insts, k.dest) == Some(k.mappings) && Defines(insts, k.dest)
  {
    var i :| 0 <= i < |insts| && insts[i] == k;
    assert GetDef(insts[i]) == Some(k.dest);
    if i > 0 {
      assert GetDef(insts[0]) != Some(k.dest);
      var rest := insts[1..];
      assert forall j | 0 <= j < |rest| :: rest[j] == insts[j + 1];
      OnlyPhi(rest, k);
    }
  }

  /** On the way from a reachable predecessor, every phi of a finished function is complete. */
  lemma PhiIsComplete(s: Snapshot, b: BlockId, k: Kind, w: seq<BlockId>)
    requires Finished(s) && b < |s.blocks| && k in s.blocks[b].insts && k.Phi?
    requires EntryWalk(s, w) && w[|w| - 1] == b
    ensures k.dest in s.owner && Complete(s, s.owner[k.dest].0, b, k.mappings)
  {
    assert BlockShape(s.blocks[b].insts, b, s.owner, s.entries);
    var x := s.owner[k.dest].0;
    assert s.owner[k.dest] == (x, b) && EntryOk(s, x, b);
    OnlyPhi(s.blocks[b].insts, k);
    if CopiesPredecessor(s, x, b, k.dest) {
      CopyIsNotClobbered(s, w, x, k.dest);
    }
  }

  /** The operand of a phi is available at the end of its predecessor. */
  lemma PhiOperandAvailable(s: Snapshot, b: BlockId, k: Kind, p: BlockId)
    requires Finished(s) && b < |s.blocks| && k in s.blocks[b].insts && k.Phi? && p in k.mappings
    requires (p, b) in SuccEdges(s.blocks)
    ensures AvailableAtEnd(s.blocks, ENTRY, p, k.mappings[p])
  {
    var v := k.mappings[p];
    SameEdges(s);
    if d: BlockId :| DefinedIn(s.blocks, d, v) {
      forall w | Walk(SuccEdges(s.blocks), ENTRY, w, p)
        ensures d in w
      {
        OperandOnWalk(s, b, k, p, w, d);
      }
      assert Dominates(SuccEdges(s.blocks), ENTRY, d, p);
    }
  }

  lemma OperandOnWalk(s: Snapshot, b: BlockId, k: Kind, p: BlockId, w: seq<BlockId>, d: BlockId)
    requires Finished(s) && b < |s.blocks| && k in s.blocks[b].insts && k.Phi? && p in k.mappings
    requires (p, b) in EdgesOf(s.blocks) && Walk(EdgesOf(s.blocks), ENTRY, w, p)
      && DefinedIn(s.blocks, d, k.mappings[p])
    ensures d in w
  {
    BuiltDefines(s, d, k.mappings[p]);
    hide Inv, StoresAvailable, DefinedIn, EdgesOf;
    ExtendWalk(EdgesOf(s.blocks), ENTRY, w, p, b);
    WalksAreSealed(s, w + [b]);
    WalksAreSealed(s, w);
    PhiIsComplete(s, b, k, w + [b]);
    DefinedOnWalk(s, w, s.owner[k.dest].0, k.mappings[p], d);
  }

  lemma {:induction false} WalksAreSealed(s: Snapshot, w: seq<BlockId>)
    requires Finished(s) && IsPath(EdgesOf(s.blocks), w) && w[0] == ENTRY
    ensures EntryWalk(s, w)
    decreases |w|
  {
    if |w| > 1 {
      WalksAreSealed(s, w[..|w| - 1]);
      assert w == w[..|w| - 1] + [w[|w| - 1]];
    }
  }

  /** The finished function is in strict SSA form, given what the front end sees to itself: blocks close
      with their terminator, and ordinary instructions use what they can name at that point. */
  lemma BuiltIsStrict(s: Snapshot)
    requires Finished(s) && forall block | block in s.blocks :: WellTerminated(block)
    requires forall b: BlockId, i, v | b < |s.blocks| && 0 <= i < |s.blocks[b].insts|
      && v in GetUses(s.blocks[b].insts[i]) ::
      AvailableAt(s.blocks, ENTRY, s.blocks[b], i, v)
    ensures Strict(s.blocks, ENTRY)
  {
    BuiltUnique(s);
    assert UniqueIds(s.blocks);
    forall block | block in s.blocks
      ensures PhisFirst(block) && UsesAvailable(s.blocks, ENTRY, block)
    {
      var b: BlockId :| b < |s.blocks| && s.blocks[b] == block;
      assert BlockShape(s.blocks[b].insts, b, s.owner, s.entries) && block.id == b;
      hide Inv, StoresAvailable, AvailableAt, AvailableAtEnd, SuccEdges, UniqueDefinitions;
      forall k, p | k in block.insts && k.Phi? && p in k.mappings && (p, block.id) in SuccEdges(s.blocks)
        ensures AvailableAtEnd(s.blocks, ENTRY, p, k.mappings[p])
      {
        PhiOperandAvailable(s, b, k, p);
      }
    }
  }

  // ----- runs -----

  /** What a run of the built function holds in v at the end of p. */
  ghost function Held(m: Machine, s: Snapshot, s0: State): Results {
    (p: seq<BlockId>, v: Value) => if StepAt(m, s.blocks, p, s0).Some?
      then Get(StepAt(m, s.blocks, p, s0).value.state.env, v) else Undef
  }

  /** Evaluating a value along the path of a run gives what the run's store holds. */
  lemma {:induction false} EvalIsHeld(m: Machine, s: Snapshot, p: seq<BlockId>, s0: State, v: Value)
    requires Inv(s) && Strict(s.blocks, ENTRY) && StepAt(m, s.blocks, p, s0).Some? && p[0] == ENTRY
    ensures Eval(s, Held(m, s, s0), p, v) == Get(StepAt(m, s.blocks, p, s0).value.state.env, v)
    decreases |p|
  {
    if |p| > 1 {
      var c, q := p[|p| - 1], p[..|p| - 1];
      FindBuilt(s, c);
      var insts := s.blocks[c].insts;
      var state := StepAt(m, s.blocks, q, s0).value.state;
      hide Inv, Strict, RunBlock;
      match PhiOps(insts, v)
      case Some(ops) =>
        PhiOpsIs(insts, v);
        L.PhiAtEnd(m, s.blocks, ENTRY, s.blocks[c], Some(p[|p| - 2]), state, v, ops);
        if p[|p| - 2] in ops {
          EvalIsHeld(m, s, q, s0, ops[p[|p| - 2]]);
        }
      case None =>
        if !Defines(insts, v) {
          StepKeepsValue(m, s.blocks[c], Some(p[|p| - 2]), state, v);
          EvalIsHeld(m, s, q, s0, v);
        }
    }
  }

  lemma {:induction false} PhiOpsIs(insts: seq<Kind>, v: Value)
    requires PhiOps(insts, v).Some?
    ensures Phi(v, PhiOps(insts, v).value) in insts
  {
    if !(insts[0].Phi? && insts[0].dest == v) {
      PhiOpsIs(insts[1..], v);
    }
  }

  /** The value last stored to x on the path of a run, as the run's store held it at that store. */
  ghost function LastStored(m: Machine, s: Snapshot, p: seq<BlockId>, s0: State, x: string): Option<Val>
    decreases |p|
  {
    if p == [] then None
    else if (x, p[|p| - 1]) in s.written then Some(Held(m, s, s0)(p, s.written[(x, p[|p| - 1])]))
    else LastStored(m, s, p[..|p| - 1], s0, x)
  }

  lemma {:induction false} LastStoreIsStored(m: Machine, s: Snapshot, p: seq<BlockId>, s0: State, x: string)
    requires Inv(s) && Strict(s.blocks, ENTRY) && StepAt(m, s.blocks, p, s0).Some? && p[0] == ENTRY
    ensures LastStored(m, s, p, s0, x) == LastStore(s, Held(m, s, s0), p, x)
    decreases |p|
  {
    hide Inv, Strict;
    if (x, p[|p| - 1]) in s.written {
      EvalIsHeld(m, s, p, s0, s.written[(x, p[|p| - 1])]);
    } else if |p| > 1 {
      LastStoreIsStored(m, s, p[..|p| - 1], s0, x);
    }
  }

  /** Reading a variable reads its last store: whenever a run of the finished function ends a block, the
      value the builder recorded for x there holds what was last stored to x on the way. */
  lemma RunHoldsLastStore(m: Machine, s: Snapshot, p: seq<BlockId>, s0: State, x: string, v: Value)
    requires Finished(s) && Strict(s.blocks, ENTRY) && StepAt(m, s.blocks, p, s0).Some? && p[0] == ENTRY
    requires DefOf(s.defs, x, p[|p| - 1]) == Some(v)
    ensures LastStored(m, s, p, s0, x) == Some(Get(StepAt(m, s.blocks, p, s0).value.state.env, v))
  {
    SameEdges(s);
    hide Inv, StoresAvailable;
    StepsAreWalks(m, s.blocks, ENTRY, p, s0);
    WalksAreSealed(s, p);
    hide Strict, StepAt;
    ReadGivesLastStore(s, Held(m, s, s0), p, x, v);
    LastStoreIsStored(m, s, p, s0, x);
    EvalIsHeld(m, s, p, s0, v);
  }

  // ----- where the recorded successors are not the terminator's targets -----

  /** Block 1 jumps to block 2, but the edge was recorded from block 0, as it is for the blocks in which a
      short-circuit condition of a loop ends. The variable is stored in blocks 0 and 1. */
  ghost function Misrecorded(x: string): Snapshot {
    Snapshot(
      [Block(0, [ConstInt(1, 7), Jump(1)], [], [1, 2]),
       Block(1, [ConstInt(2, 8), Jump(2)], [0], []),
       Block(2, [Return(Some(1))], [0], [])],
      3, map[x := map[0 := 1, 1 := 2, 2 := 1]], map[], {0, 1, 2},
      map[(x, 0) := 1, (x, 1) := 2], map[(x, 2) := 1], map[], {})
  }

  /** There a store is lost: construction finishes, block 2 reads the variable as value 1, and the run
      that ends in block 2 has passed the store of value 2. */
  lemma UnrecordedEdgeLosesStore(m: Machine, x: string, mem: Memory)
    requires m.width(1) == 8 && m.width(2) == 8
    ensures var s, s0, p := Misrecorded(x), State(map[], mem), [0, 1, 2];
      && Finished(s) && DefOf(s.defs, x, 2) == Some(1) && StepAt(m, s.blocks, p, s0).Some?
      && LastStored(m, s, p, s0, x) == Some(Word(8))
      && Get(StepAt(m, s.blocks, p, s0).value.state.env, 1) == Word(7)
  {
    MisrecordedIsFinished(x);
    MisrecordedRun(m, x, mem);
    var s, s0 := Misrecorded(x), State(map[], mem);
    assert [0, 1, 2][..2] == [0, 1];
    hide StepAt, Inv, StoresAvailable;
    assert LastStored(m, s, [0, 1, 2], s0, x) == LastStored(m, s, [0, 1], s0, x);
  }

  lemma MisrecordedIsFinished(x: string)
    ensures Finished(Misrecorded(x))
  {
    var s := Misrecorded(x);
    MisrecordedShape(x);
    MisrecordedValues(x);
    hide Defines, Shaped, ValuesOk;
    assert EntryOk(s, x, 2);
    assert DefsOk(s);
    MisrecordedStores(x);
    hide StoresAvailable;
  }

  lemma MisrecordedShape(x: string)
    ensures var s := Misrecorded(x); Shaped(s.blocks, s.owner, s.entries)
  {
    var s := Misrecorded(x);
    MisrecordedEdges(x);
    hide Mirrored;
    assert BlockShape(s.blocks[0].insts, 0, map[], s.entries);
    assert BlockShape(s.blocks[1].insts, 1, map[], s.entries);
    assert BlockShape(s.blocks[2].insts, 2, map[], s.entries);
  }

  lemma MisrecordedEdges(x: string)
    ensures Mirrored(Misrecorded(x).blocks)
  {
    var s := Misrecorded(x);
    forall b: BlockId, c: BlockId
      ensures Succeeds(s.blocks, b, c) <==> Precedes(s.blocks, b, c)
    {
      assert Succeeds(s.blocks, b, c) <==> b == 0 && (c == 1 || c == 2);
      assert Precedes(s.blocks, b, c) <==> b == 0 && (c == 1 || c == 2);
    }
  }

  lemma MisrecordedValues(x: string)
    ensures ValuesOk(Misrecorded(x))
  {
    MisrecordedDefines(x);
    hide Defines;
  }

  lemma MisrecordedStores(x: string)
    ensures StoresAvailable(Misrecorded(x))
  {
    MisrecordedDefines(x);
    hide Defines;
  }

  lemma MisrecordedDefines(x: string)
    ensures var s := Misrecorded(x);
      && (forall v :: Defines(s.blocks[0].insts, v) <==> v == 1)
      && (forall v :: Defines(s.blocks[1].insts, v) <==> v == 2)
      && (forall v :: !Defines(s.blocks[2].insts, v))
  {
    var s := Misrecorded(x);
    assert GetDef(s.blocks[0].insts[0]) == Some(1) && GetDef(s.blocks[0].insts[1]) == None;
    assert GetDef(s.blocks[1].insts[0]) == Some(2) && GetDef(s.blocks[1].insts[1]) == None;
    assert GetDef(s.blocks[2].insts[0]) == None;
  }

  lemma MisrecordedRun(m: Machine, x: string, mem: Memory)
    requires m.width(1) == 8 && m.width(2) == 8
    ensures var s, s0 := Misrecorded(x), State(map[], mem);
      && StepAt(m, s.blocks, [0, 1], s0).Some? && Get(StepAt(m, s.blocks, [0, 1], s0).value.state.env, 2) == Word(8)
      && StepAt(m, s.blocks, [0, 1, 2], s0).Some?
        && Get(StepAt(m, s.blocks, [0, 1, 2], s0).value.state.env, 1) == Word(7)
  {
    var s, s0 := Misrecorded(x), State(map[], mem);
    var s1, s2 := State(map[1 := Word(7)], mem), State(map[1 := Word(7), 2 := Word(8)], mem);
    MisrecordedFind(x);
    LiteralStep(m, s.blocks[0], None, 1, 7, 1, s0);
    LiteralStep(m, s.blocks[1], Some(0), 2, 8, 2, s1);
    assert s0.env[1 := Word(7)] == s1.env && s1.env[2 := Word(8)] == s2.env;
    hide RunBlock, Find;
    assert StepAt(m, s.blocks, [0], s0) == Some(Step(s1, [], Goto(1)));
    ExtendStep(m, s.blocks, [0], s0, 1);
    assert [0] + [1] == [0, 1];
    assert StepAt(m, s.blocks, [0, 1], s0) == Some(Step(s2, [], Goto(2)));
    ExtendStep(m, s.blocks, [0, 1], s0, 2);
    assert [0, 1] + [2] == [0, 1, 2];
    StepKeepsValue(m, s.blocks[2], Some(1), s2, 1);
  }

  lemma MisrecordedFind(x: string)
    ensures var s := Misrecorded(x); forall b: BlockId | b < 3 :: Find(s.blocks, b) == Some(s.blocks[b])
    ensures !Defines(Misrecorded(x).blocks[2].insts, 1)
  {
    MisrecordedDefines(x);
    FindFrom(Misrecorded(x).blocks, 0, 0);
    FindFrom(Misrecorded(x).blocks, 0, 1);
    FindFrom(Misrecorded(x).blocks, 0, 2);
  }

  lemma LiteralStep(m: Machine, block: Block, from: Option<BlockId>, d: Value, n: nat, t: BlockId, s: State)
    requires block.insts == [ConstInt(d, n), Jump(t)] && m.width(d) == 8 && n < 256
    ensures RunBlock(m, block, from, s) == Step(s.(env := s.env[d := Word(n)]), [], Goto(t))
  {
    RunTwo(m, block, ConstInt(d, n), Jump(t), from, s);
    assert Pow2(8) == 256;
  }
}
