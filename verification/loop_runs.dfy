/** Runs that go round a loop, and the verifier's conditions: what a run does until it comes back to a
    block it has passed satisfies them. */
module LoopRuns {
  import opened Arithmetic
  import opened IR
  import opened Cfg
  import opened Reachability
  import opened Semantics
  import opened StrictSsa
  import opened Conditions
  import opened Translation
  import opened ConditionMeaning
  import opened RunConditions
  import opened Safety
  import C = ConditionRuns
  import L = LoopEquality

  // ----- the assignment of the first pass -----

  /** The steps along p, and the one back where the run goes on to a block of p. */
  function StepsTaken(p: seq<BlockId>, exit: Exit): set<(BlockId, BlockId)>
    requires p != []
  {
    PathEdges(p) + if exit.Goto? then {(p[|p| - 1], exit.target)} else {}
  }

  /** Blocks passed and steps taken are on, all others off; values are those computed so far. */
  function FirstPass(sorts: Sorts, p: seq<BlockId>, step: Step): Assignment
    requires p != []
  {
    Assignment((set b | b in p), StepsTaken(p, step.exit), Completed(sorts, step.state.env))
  }

  /** A run from the entry along p that has passed no block twice and ends, or comes back to p, next. */
  ghost predicate PassesOnce(m: Machine, sorts: Sorts, blocks: seq<Block>, entry: BlockId, p: seq<BlockId>, s0: State) {
    && p != [] && StepAt(m, blocks, p, s0).Some? && p[0] == entry && Distinct(p)
    && RunTyped(sorts, blocks, s0, StepAt(m, blocks, p, s0).value.state.env)
    && (StepAt(m, blocks, p, s0).value.exit.Goto? ==> StepAt(m, blocks, p, s0).value.exit.target in p)
  }

  /** Some operand of the phi comes from where its block leads, some other does not. */
  ghost predicate HeadsLoop(succs: Successors, b: BlockId, k: Kind) {
    && k.Phi? && (exists x | x in k.mappings :: Reaches(succs, b, x))
    && (exists x | x in k.mappings :: !Reaches(succs, b, x))
  }

  ghost predicate EntersAt(succs: Successors, block: Block, p: seq<BlockId>, i: nat)
    requires i < |p|
  {
    (exists k :: k in block.insts && HeadsLoop(succs, block.id, k)) ==> i > 0 && !Reaches(succs, p[i], p[i - 1])
  }

  /** Loop headers that have an edge from outside are entered by one. */
  ghost predicate EntersLoops(blocks: seq<Block>, succs: Successors, p: seq<BlockId>) {
    forall i, block | 0 <= i < |p| && block in blocks && block.id == p[i] :: EntersAt(succs, block, p, i)
  }

  /** Phis the detector accepts as equal have one width. */
  ghost predicate PairsFit(sorts: Sorts, blocks: seq<Block>, succs: Successors) {
    forall block, k, other | block in blocks && k in block.insts && other in block.insts && k.Phi?
      && KeptEqual(sorts, blocks, succs, block.id, k, other) :: sorts.width(k.dest) == sorts.width(other.dest)
  }

  // ----- control -----

  /** The store solves what the blocks of p demand, and each leaves for the next one. */
  ghost predicate Solves(m: Machine, blocks: seq<Block>, p: seq<BlockId>, exit: Exit, env: Store, mem: Memory) {
    forall n | 1 <= n <= |p| :: SolvedAt(m, blocks, p[..n], env, mem) && LeavesBy(blocks, p, n, exit, env)
  }

  ghost predicate LeavesBy(blocks: seq<Block>, p: seq<BlockId>, n: nat, exit: Exit, env: Store)
    requires 1 <= n <= |p|
  {
    && Find(blocks, p[n - 1]).Some?
    && ExitOf(Find(blocks, p[n - 1]).value, env) == if n < |p| then Goto(p[n]) else exit
  }

  lemma PassSolves(m: Machine, sorts: Sorts, blocks: seq<Block>, entry: BlockId, p: seq<BlockId>, s0: State)
    requires Strict(blocks, entry) && PassesOnce(m, sorts, blocks, entry, p, s0)
    ensures var step := StepAt(m, blocks, p, s0).value;
      Solves(m, blocks, p, step.exit, Completed(sorts, step.state.env), s0.mem)
  {
    hide Strict, Completed, RunTyped, ExitOf, StepAt, Distinct, SolvedAt;
    var step := StepAt(m, blocks, p, s0).value;
    forall n | 1 <= n <= |p|
      ensures SolvedAt(m, blocks, p[..n], Completed(sorts, step.state.env), s0.mem)
        && LeavesBy(blocks, p, n, step.exit, Completed(sorts, step.state.env))
    {
      CompletedSolves(m, sorts, blocks, entry, p, s0, n);
    }
  }

  lemma SolvesAt(m: Machine, blocks: seq<Block>, p: seq<BlockId>, exit: Exit, env: Store, mem: Memory, block: Block)
    returns (i: nat)
    requires UniqueIds(blocks) && Solves(m, blocks, p, exit, env, mem) && block in blocks && block.id in p
    ensures i < |p| && p[i] == block.id && Find(blocks, p[i]) == Some(block)
    ensures SolvedAt(m, blocks, p[..i + 1], env, mem) && LeavesBy(blocks, p, i + 1, exit, env)
  {
    i := Located(blocks, p, block);
    assert SolvedAt(m, blocks, p[..i + 1], env, mem);
  }

  /** A step taken starts at position i of p and leads where the run left for. */
  lemma StepFrom(p: seq<BlockId>, exit: Exit, x: BlockId, b: BlockId) returns (i: nat)
    requires p != [] && (x, b) in StepsTaken(p, exit)
    ensures i < |p| && p[i] == x && (if i + 1 < |p| then p[i + 1] == b else exit == Goto(b))
  {
    if (x, b) in PathEdges(p) {
      i :| 0 <= i < |p| - 1 && PairAt(p, i) == (x, b);
    } else {
      i := |p| - 1;
    }
  }

  lemma StepsFollow(m: Machine, blocks: seq<Block>, p: seq<BlockId>, exit: Exit, env: Store, mem: Memory, block: Block)
    requires UniqueIds(blocks) && p != [] && Distinct(p) && Solves(m, blocks, p, exit, env, mem) && block in blocks
    ensures EdgesFollow(block, Assignment((set b | b in p), StepsTaken(p, exit), env))
  {
    hide SolvedAt, ExitOf, EdgeTargets;
    forall t | t in EdgeTargets(block)
      ensures (block.id, t) in StepsTaken(p, exit) <==> block.id in p && ExitOf(block, env) == Goto(t)
    {
      if (block.id, t) in StepsTaken(p, exit) {
        var j := StepFrom(p, exit, block.id, t);
        var i := SolvesAt(m, blocks, p, exit, env, mem, block);
        assert i == j;
      } else if block.id in p {
        var i := SolvesAt(m, blocks, p, exit, env, mem, block);
        assert i < |p| - 1 ==> PairAt(p, i) in PathEdges(p);
      }
    }
  }

  lemma BlocksFollow(blocks: seq<Block>, p: seq<BlockId>, exit: Exit, env: Store, b: BlockId)
    requires p != [] && EdgesOfPath(blocks, p) && (exit.Goto? ==> exit.target in p)
    ensures BlockFollows(blocks, p[0], b, Assignment((set b | b in p), StepsTaken(p, exit), env))
  {
    hide KnownEdges;
    if b in p && b != p[0] {
      var i :| 0 <= i < |p| && p[i] == b;
      assert StepsTo(blocks, p, i) && PairAt(p, i - 1) == (p[i - 1], b);
      assert (p[i - 1], b) in PathEdges(p);
    }
    if x: BlockId :| (x, b) in KnownEdges(blocks) && (x, b) in StepsTaken(p, exit) {
      var i := StepFrom(p, exit, x, b);
      assert b in p;
    }
  }

  // ----- phis -----

  lemma {:induction false} SegmentReaches(blocks: seq<Block>, succs: Successors, p: seq<BlockId>, i: nat, j: nat)
    requires Represents(succs, blocks) && EdgesOfPath(blocks, p) && i <= j < |p|
    ensures Reaches(succs, p[i], p[j])
    decreases j
  {
    if i == j {
      assert Walk(EdgesIn(succs), p[i], [p[i]], p[i]);
    } else {
      SegmentReaches(blocks, succs, p, i, j - 1);
      assert StepsTo(blocks, p, j);
      assert (p[j - 1], p[j]) in EdgesIn(succs);
      ReachStep(succs, p[i], p[j - 1], p[j]);
    }
  }

  /** A step into the block at position i comes from the block before it, or from where that block leads. */
  lemma StepInto(blocks: seq<Block>, succs: Successors, p: seq<BlockId>, exit: Exit, i: nat, x: BlockId)
    requires Represents(succs, blocks) && EdgesOfPath(blocks, p) && Distinct(p) && i < |p|
    requires (x, p[i]) in StepsTaken(p, exit)
    ensures (i > 0 && x == p[i - 1]) || Reaches(succs, p[i], x)
  {
    var j := StepFrom(p, exit, x, p[i]);
    if j + 1 < |p| {
      assert j + 1 == i;
    } else {
      SegmentReaches(blocks, succs, p, i, j);
    }
  }

  /** A phi is bound by a step unless its block leads to where the step comes from. */
  lemma StepBinds(m: Machine, blocks: seq<Block>, succs: Successors, p: seq<BlockId>, exit: Exit, env: Store,
      mem: Memory,
      block: Block, k: Kind, x: BlockId)
    requires UniqueIds(blocks) && Distinct(p) && EdgesOfPath(blocks, p) && Represents(succs, blocks)
    requires p != [] && Solves(m, blocks, p, exit, env, mem) && (exit.Goto? ==> exit.target in p)
    requires block in blocks && k in block.insts && k.Phi? && x in k.mappings && !Reaches(succs, block.id, x)
    ensures Bound(block.id, k, x, Assignment((set b | b in p), StepsTaken(p, exit), env))
  {
    hide SolvedAt, Reaches, Represents, EdgesOfPath;
    if (x, block.id) in StepsTaken(p, exit) {
      var j := StepFrom(p, exit, x, block.id);
      assert block.id in p;
      var i := SolvesAt(m, blocks, p, exit, env, mem, block);
      StepInto(blocks, succs, p, exit, i, x);
      SolvedBinds(m, blocks, p[..i + 1], env, mem, k);
    }
  }

  lemma SolvedBinds(m: Machine, blocks: seq<Block>, p: seq<BlockId>, env: Store, mem: Memory, k: Kind)
    requires |p| > 1 && SolvedAt(m, blocks, p, env, mem) && k in Find(blocks, p[|p| - 1]).value.insts
    requires k.Phi? && p[|p| - 2] in k.mappings
    ensures Get(env, k.dest) == Get(env, k.mappings[p[|p| - 2]])
  {
  }

  /** A step comes into the block from outside exactly when the block before it is outside. */
  lemma EntersExactly(blocks: seq<Block>, succs: Successors, p: seq<BlockId>, exit: Exit, block: Block, k: Kind, i: nat)
    requires Distinct(p) && EdgesOfPath(blocks, p) && Represents(succs, blocks) && PhisTotal(blocks)
    requires i < |p| && p[i] == block.id && block in blocks && k in block.insts && k.Phi?
    ensures (exists x | x in k.mappings && !Reaches(succs, block.id, x) :: (x, block.id) in StepsTaken(p, exit))
      <==> (i > 0 && !Reaches(succs, p[i], p[i - 1]))
  {
    hide Reaches, Represents;
    if x :| x in k.mappings && !Reaches(succs, block.id, x) && (x, block.id) in StepsTaken(p, exit) {
      StepInto(blocks, succs, p, exit, i, x);
    }
    if i > 0 && !Reaches(succs, p[i], p[i - 1]) {
      assert StepsTo(blocks, p, i) && PairAt(p, i - 1) == (p[i - 1], block.id);
      assert p[i - 1] in k.mappings && (p[i - 1], block.id) in PathEdges(p);
    }
  }

  /** Phis that the detector accepts are equal in the completed store. */
  lemma KeptPhisAreEqual(m: Machine, sorts: Sorts, blocks: seq<Block>, entry: BlockId, succs: Successors,
      p: seq<BlockId>, s0: State, block: Block, k: Kind, other: Kind)
    requires Strict(blocks, entry) && L.Typed(m, blocks) && PairsFit(sorts, blocks, succs) && m.width == sorts.width
    requires PassesOnce(m, sorts, blocks, entry, p, s0) && block in blocks && block.id in p
    requires k in block.insts && other in block.insts && k.Phi? && KeptEqual(sorts, blocks, succs, block.id, k, other)
    ensures var full := Completed(sorts, StepAt(m, blocks, p, s0).value.state.env);
      Get(full, k.dest) == Get(full, other.dest)
  {
    hide Strict, L.Typed, RunTyped, Completed, StepAt, L.Accepts, Settled, WellFormed, UniqueDefinitions, Distinct;
    StrictParts(blocks, entry);
    assert sorts.width(k.dest) == sorts.width(other.dest);
    var i := LocatedIn(blocks, p, block);
    assert k == Phi(k.dest, k.mappings) && other == Phi(other.dest, other.mappings);
    L.AcceptedPhisAreEqual(m, blocks, entry, succs, block.id, k.dest, k.mappings, other.dest, other.mappings, p, s0);
    forall phi | phi in block.insts && phi.Phi?
      ensures var env := StepAt(m, blocks, p, s0).value.state.env;
        Get(Completed(sorts, env), phi.dest) == Get(env, phi.dest)
    {
      DefSettled(blocks, p[..i + 1], phi);
      SettledLater(blocks, p, i + 1, phi.dest);
      CompletedAgrees(m, sorts, blocks, p, s0, phi.dest);
    }
  }

  lemma LocatedIn(blocks: seq<Block>, p: seq<BlockId>, block: Block) returns (i: nat)
    requires WellFormed(blocks) && block in blocks && block.id in p
    ensures i < |p| && p[i] == block.id && Find(blocks, p[i]) == Some(block)
  {
    i := Located(blocks, p, block);
  }

  ghost predicate PhiEntered(succs: Successors, block: Block, k: Kind, p: seq<BlockId>) {
    HeadsLoop(succs, block.id, k) ==>
      forall i | 0 <= i < |p| && p[i] == block.id :: i > 0 && !Reaches(succs, p[i], p[i - 1])
  }

  /** Off the path nothing is demanded of a phi. */
  lemma PhiOffPath(sorts: Sorts, blocks: seq<Block>, succs: Successors, p: seq<BlockId>, exit: Exit, env: Store,
      block: Block, k: Kind)
    requires p != [] && (exit.Goto? ==> exit.target in p) && block.id !in p
    ensures PhiSeen(sorts, blocks, succs, block, k, Assignment((set b | b in p), StepsTaken(p, exit), env))
  {
    hide Reaches, KeptEqual;
    forall x | (x, block.id) in StepsTaken(p, exit)
      ensures false
    {
      var j := StepFrom(p, exit, x, block.id);
    }
  }

  /** With the phi bound and equal to its like, only how the block was entered is left to ask. */
  lemma PhiSeenIfEntered(sorts: Sorts, blocks: seq<Block>, succs: Successors, a: Assignment, block: Block, k: Kind,
      entered: bool)
    requires k.Phi? && block.id in a.blocks
    requires forall x | x in k.mappings && !Reaches(succs, block.id, x) :: Bound(block.id, k, x, a)
    requires forall other | other in block.insts && other.Phi? && KeptEqual(sorts, blocks, succs, block.id, k, other) ::
      Get(a.env, k.dest) == Get(a.env, other.dest)
    requires (exists x | x in k.mappings && !Reaches(succs, block.id, x) :: (x, block.id) in a.edges) <==> entered
    ensures PhiSeen(sorts, blocks, succs, block, k, a) <==> (HeadsLoop(succs, block.id, k) ==> entered)
  {
    hide Reaches, L.Accepts, Bound;
    if exists x | x in k.mappings :: Reaches(succs, block.id, x) {
      assert HeaderPhiSeen(sorts, blocks, succs, block, k, a)
        <==> ((exists x | x in k.mappings :: !Reaches(succs, block.id, x)) ==> entered);
    }
    hide HeaderPhiSeen;
  }

  lemma PhiOnPath(sorts: Sorts, blocks: seq<Block>, succs: Successors, p: seq<BlockId>, exit: Exit, a: Assignment,
      block: Block, k: Kind, i: nat)
    requires Distinct(p) && EdgesOfPath(blocks, p) && Represents(succs, blocks) && PhisTotal(blocks)
    requires i < |p| && p[i] == block.id && block in blocks && k in block.insts && k.Phi?
    requires a.blocks == (set b | b in p) && a.edges == StepsTaken(p, exit)
    requires forall x | x in k.mappings && !Reaches(succs, block.id, x) :: Bound(block.id, k, x, a)
    requires forall other | other in block.insts && other.Phi? && KeptEqual(sorts, blocks, succs, block.id, k, other) ::
      Get(a.env, k.dest) == Get(a.env, other.dest)
    ensures PhiSeen(sorts, blocks, succs, block, k, a) <==> PhiEntered(succs, block, k, p)
  {
    hide Reaches, KeptEqual, Represents, PhisTotal, EdgesOfPath, StepsTaken, Bound, HeadsLoop, PhiSeen;
    EntersExactly(blocks, succs, p, exit, block, k, i);
    assert forall j | 0 <= j < |p| && p[j] == block.id :: j == i;
    hide Distinct;
    PhiSeenIfEntered(sorts, blocks, succs, a, block, k, i > 0 && !Reaches(succs, p[i], p[i - 1]));
  }

  /** The demands on a phi are met exactly when its loop was entered from outside. */
  lemma PhiSeenExactly(m: Machine, sorts: Sorts, blocks: seq<Block>, entry: BlockId, succs: Successors,
      p: seq<BlockId>, s0: State, block: Block, k: Kind)
    requires Strict(blocks, entry) && L.Typed(m, blocks) && PairsFit(sorts, blocks, succs) && m.width == sorts.width
    requires PassesOnce(m, sorts, blocks, entry, p, s0) && Represents(succs, blocks) && PhisTotal(blocks)
    requires block in blocks && k in block.insts
    ensures PhiSeen(sorts, blocks, succs, block, k, FirstPass(sorts, p, StepAt(m, blocks, p, s0).value))
      <==> PhiEntered(succs, block, k, p)
  {
    hide Strict, L.Typed, PairsFit, RunTyped, Completed, StepAt, Represents, PhisTotal, PhiSeen, Distinct, EdgesOfPath,
      Solves, UniqueDefinitions, KeptEqual, Bound, Reaches;
    StrictParts(blocks, entry);
    StepsUseEdges(m, blocks, p, s0);
    var step := StepAt(m, blocks, p, s0).value;
    var a := FirstPass(sorts, p, step);
    if k.Phi? && block.id in p {
      var i := LocatedIn(blocks, p, block);
      PassSolves(m, sorts, blocks, entry, p, s0);
      forall x | x in k.mappings && !Reaches(succs, block.id, x)
        ensures Bound(block.id, k, x, a)
      {
        StepBinds(m, blocks, succs, p, step.exit, a.env, s0.mem, block, k, x);
      }
      forall other | other in block.insts && other.Phi? && KeptEqual(sorts, blocks, succs, block.id, k, other)
        ensures Get(a.env, k.dest) == Get(a.env, other.dest)
      {
        KeptPhisAreEqual(m, sorts, blocks, entry, succs, p, s0, block, k, other);
      }
      PhiOnPath(sorts, blocks, succs, p, step.exit, a, block, k, i);
    } else {
      PhiNotEntered(sorts, blocks, succs, p, block, k, a);
      if k.Phi? {
        PhiOffPath(sorts, blocks, succs, p, step.exit, a.env, block, k);
      }
    }
  }

  lemma PhiNotEntered(sorts: Sorts, blocks: seq<Block>, succs: Successors, p: seq<BlockId>, block: Block, k: Kind,
      a: Assignment)
    requires !k.Phi? || block.id !in p
    ensures PhiEntered(succs, block, k, p) && (!k.Phi? ==> PhiSeen(sorts, blocks, succs, block, k, a))
  {
  }

  // ----- the conditions -----

  lemma PassEquations(m: Machine, sorts: Sorts, blocks: seq<Block>, entry: BlockId, p: seq<BlockId>, s0: State,
      block: Block, k: Kind)
    requires Strict(blocks, entry) && PassesOnce(m, sorts, blocks, entry, p, s0) && block in blocks && k in block.insts
    ensures EquationFollows(m, sorts, block.id, k, FirstPass(sorts, p, StepAt(m, blocks, p, s0).value), s0.mem)
  {
    hide Strict, RunTyped, Completed, StepAt, Distinct, Solves, UniqueDefinitions;
    if block.id in p && Definition(sorts, k).Some? {
      StrictParts(blocks, entry);
      PassSolves(m, sorts, blocks, entry, p, s0);
      var step := StepAt(m, blocks, p, s0).value;
      var i := SolvesAt(m, blocks, p, step.exit, Completed(sorts, step.state.env), s0.mem, block);
      assert MemoryFree(k);
    }
  }

  lemma PassControl(m: Machine, sorts: Sorts, blocks: seq<Block>, entry: BlockId, p: seq<BlockId>, s0: State,
      block: Block)
    requires Strict(blocks, entry) && PassesOnce(m, sorts, blocks, entry, p, s0) && block in blocks
    ensures var a := FirstPass(sorts, p, StepAt(m, blocks, p, s0).value);
      BlockFollows(blocks, entry, block.id, a) && EdgesFollow(block, a)
  {
    hide Strict, RunTyped, Completed, StepAt, Distinct, Solves, UniqueDefinitions, BlockFollows, EdgesFollow,
      EdgesOfPath;
    StrictParts(blocks, entry);
    StepsUseEdges(m, blocks, p, s0);
    PassSolves(m, sorts, blocks, entry, p, s0);
    var step := StepAt(m, blocks, p, s0).value;
    StepsFollow(m, blocks, p, step.exit, Completed(sorts, step.state.env), s0.mem, block);
    BlocksFollow(blocks, p, step.exit, Completed(sorts, step.state.env), block.id);
  }

  /** All demands on phis are met exactly when the run entered its loops from outside. */
  lemma LoopsEntered(blocks: seq<Block>, succs: Successors, p: seq<BlockId>)
    ensures EntersLoops(blocks, succs, p)
      <==> forall block, k | block in blocks && k in block.insts :: PhiEntered(succs, block, k, p)
  {
    hide HeadsLoop, Reaches;
    if forall block, k | block in blocks && k in block.insts :: PhiEntered(succs, block, k, p) {
      forall i, block | 0 <= i < |p| && block in blocks && block.id == p[i]
        ensures EntersAt(succs, block, p, i)
      {
        if k :| k in block.insts && HeadsLoop(succs, block.id, k) {
          assert PhiEntered(succs, block, k, p);
        }
      }
    }
    if EntersLoops(blocks, succs, p) {
      forall block, k | block in blocks && k in block.insts
        ensures PhiEntered(succs, block, k, p)
      {
        forall i | 0 <= i < |p| && p[i] == block.id && HeadsLoop(succs, block.id, k)
          ensures i > 0 && !Reaches(succs, p[i], p[i - 1])
        {
          assert EntersAt(succs, block, p, i);
        }
      }
    }
  }

  /** What a run does up to the moment it comes back satisfies the conditions of the function, loops
      included, exactly when every branch condition it has evaluated is zero or one and every loop was entered
      by an edge from outside. */
  lemma FirstPassSatisfies(m: Machine, sorts: Sorts, blocks: seq<Block>, entry: BlockId, succs: Successors,
      p: seq<BlockId>, s0: State)
    requires Strict(blocks, entry) && WellTyped(sorts, blocks) && PhisTotal(blocks) && Represents(succs, blocks)
    requires L.Typed(m, blocks) && PairsFit(sorts, blocks, succs) && m.width == sorts.width
    requires PassesOnce(m, sorts, blocks, entry, p, s0)
    ensures var step := StepAt(m, blocks, p, s0).value;
      Satisfies(sorts, FirstPass(sorts, p, step), Encoding(sorts, blocks, entry, succs)) <==>
      TestsBooleans(blocks, p, step.state.env) && EntersLoops(blocks, succs, p)
  {
    hide Strict, WellTyped, PhisTotal, Represents, L.Typed, PairsFit, Completed, RunTyped, StepAt, PhiSeen, PhiEntered,
      EquationFollows, BlockFollows, EdgesFollow, BlockTests, BlockSeen, UniqueDefinitions, WellFormed, Encoding,
      Satisfies, WellSorted, EntersLoops, Distinct;
    var a := FirstPass(sorts, p, StepAt(m, blocks, p, s0).value);
    StrictParts(blocks, entry);
    PassIsSorted(m, sorts, blocks, entry, p, s0);
    PassEncoding(m, sorts, blocks, entry, succs, a, s0.mem);
    forall block | block in blocks
      ensures BlockFollows(blocks, entry, block.id, a) && EdgesFollow(block, a) && SeenFollows(block, a)
    {
      PassControl(m, sorts, blocks, entry, p, s0, block);
      PassTests(sorts, blocks, block, a);
    }
    forall block, k | block in blocks && k in block.insts
      ensures EquationFollows(m, sorts, block.id, k, a, s0.mem)
      ensures PhiSeen(sorts, blocks, succs, block, k, a) <==> PhiEntered(succs, block, k, p)
    {
      PassEquations(m, sorts, blocks, entry, p, s0, block, k);
      PhiSeenExactly(m, sorts, blocks, entry, succs, p, s0, block, k);
    }
    LoopsEntered(blocks, succs, p);
    PassBooleans(m, sorts, blocks, entry, p, s0);
  }

  lemma PassIsSorted(m: Machine, sorts: Sorts, blocks: seq<Block>, entry: BlockId, p: seq<BlockId>, s0: State)
    requires PassesOnce(m, sorts, blocks, entry, p, s0) && WellTyped(sorts, blocks)
    ensures WellSorted(sorts, FirstPass(sorts, p, StepAt(m, blocks, p, s0).value).env)
  {
    CompletedIsSorted(sorts, blocks, s0, StepAt(m, blocks, p, s0).value.state.env);
  }

  lemma PassEncoding(m: Machine, sorts: Sorts, blocks: seq<Block>, entry: BlockId, succs: Successors, a: Assignment,
      mem: Memory)
    requires WellFormed(blocks) && WellTyped(sorts, blocks) && m.width == sorts.width && WellSorted(sorts, a.env)
    ensures Satisfies(sorts, a, Encoding(sorts, blocks, entry, succs)) <==>
      CoherentSeen(m, sorts, blocks, entry, succs, a, mem)
  {
    EncodingSeen(m, sorts, blocks, entry, succs, a, mem);
  }

  lemma PassTests(sorts: Sorts, blocks: seq<Block>, block: Block, a: Assignment)
    requires WellFormed(blocks) && WellTyped(sorts, blocks) && WellSorted(sorts, a.env) && block in blocks
    ensures SeenFollows(block, a)
  {
    SeenBlockFollows(sorts, block, a);
  }

  lemma PassBooleans(m: Machine, sorts: Sorts, blocks: seq<Block>, entry: BlockId, p: seq<BlockId>, s0: State)
    requires Strict(blocks, entry) && PassesOnce(m, sorts, blocks, entry, p, s0)
    ensures var step := StepAt(m, blocks, p, s0).value;
      TestsBooleans(blocks, p, step.state.env) <==> BooleanTests(blocks, FirstPass(sorts, p, step))
  {
    hide Completed, BlockTests, StepAt, RunTyped, Strict;
    TestsCompleted(m, sorts, blocks, entry, p, s0);
  }

  // ----- natural loops -----

  /** A loop header dominates the blocks its back edges come from. */
  ghost predicate NaturalLoops(blocks: seq<Block>, entry: BlockId, succs: Successors) {
    forall block, k, x | block in blocks && k in block.insts && HeadsLoop(succs, block.id, k) && x in k.mappings
      && Reaches(succs, block.id, x) :: Dominates(SuccEdges(blocks), entry, block.id, x)
  }

  /** Functions with natural loops that the verifier's conditions are meant for. */
  ghost predicate LoopScope(m: Machine, sorts: Sorts, blocks: seq<Block>, entry: BlockId, succs: Successors) {
    && Strict(blocks, entry) && WellTyped(sorts, blocks) && PhisTotal(blocks) && Represents(succs, blocks)
    && L.Typed(m, blocks) && PairsFit(sorts, blocks, succs) && m.width == sorts.width
    && C.Complete(blocks, entry) && NaturalLoops(blocks, entry, succs)
  }

  /** Natural loops are always entered from outside. */
  lemma NaturalLoopsAreEntered(m: Machine, sorts: Sorts, blocks: seq<Block>, entry: BlockId, succs: Successors,
      p: seq<BlockId>, s0: State)
    requires LoopScope(m, sorts, blocks, entry, succs) && PassesOnce(m, sorts, blocks, entry, p, s0)
    ensures EntersLoops(blocks, succs, p)
  {
    hide LoopScope, PassesOnce;
    forall i, block, k | 0 <= i < |p| && block in blocks && block.id == p[i] && k in block.insts
      && HeadsLoop(succs, block.id, k)
      ensures i > 0 && !Reaches(succs, p[i], p[i - 1])
    {
      NaturalLoopIsEntered(m, sorts, blocks, entry, succs, p, s0, i, block, k);
    }
    hide HeadsLoop, Reaches;
  }

  lemma NaturalLoopIsEntered(m: Machine, sorts: Sorts, blocks: seq<Block>, entry: BlockId, succs: Successors,
      p: seq<BlockId>, s0: State, i: nat, block: Block, k: Kind)
    requires LoopScope(m, sorts, blocks, entry, succs) && PassesOnce(m, sorts, blocks, entry, p, s0)
    requires i < |p| && block in blocks && block.id == p[i] && k in block.insts && HeadsLoop(succs, block.id, k)
    ensures i > 0 && !Reaches(succs, p[i], p[i - 1])
  {
    hide Strict, WellTyped, PhisTotal, Represents, L.Typed, PairsFit, C.Complete, NaturalLoops, RunTyped, StepAt,
      HeadsLoop, Reaches, Dominates, EdgesOfPath;
    StrictParts(blocks, entry);
    NoLoopAtEntry(blocks, entry, succs, block, k);
    StepsUseEdges(m, blocks, p, s0);
    StepIsOperand(blocks, succs, p, i, block, k);
    if Reaches(succs, p[i], p[i - 1]) {
      HeaderDominates(blocks, entry, succs, block, k, p[i - 1]);
      hide Distinct;
      PrefixSteps(m, blocks, p, s0, i);
      StepsAreWalks(m, blocks, entry, p[..i], s0);
      OnWalk(SuccEdges(blocks), entry, p[..i], block.id, p[i - 1]);
      NotBefore(p, i);
    }
  }

  lemma NoLoopAtEntry(blocks: seq<Block>, entry: BlockId, succs: Successors, block: Block, k: Kind)
    requires UniqueIds(blocks) && C.Complete(blocks, entry) && block in blocks && k in block.insts
      && HeadsLoop(succs, block.id, k)
    ensures block.id != entry
  {
    var i :| 0 <= i < |blocks| && blocks[i] == block;
    FindAt(blocks, i);
  }

  lemma StepIsOperand(blocks: seq<Block>, succs: Successors, p: seq<BlockId>, i: nat, block: Block, k: Kind)
    requires PhisTotal(blocks) && EdgesOfPath(blocks, p) && 0 < i < |p| && p[i] == block.id
    requires block in blocks && k in block.insts && HeadsLoop(succs, block.id, k)
    ensures p[i - 1] in k.mappings
  {
    assert StepsTo(blocks, p, i);
  }

  lemma HeaderDominates(blocks: seq<Block>, entry: BlockId, succs: Successors, block: Block, k: Kind, x: BlockId)
    requires NaturalLoops(blocks, entry, succs) && block in blocks && k in block.insts && HeadsLoop(succs, block.id, k)
    requires x in k.mappings && Reaches(succs, block.id, x)
    ensures Dominates(SuccEdges(blocks), entry, block.id, x)
  {
  }

  lemma OnWalk(e: Edges, entry: BlockId, q: seq<BlockId>, d: BlockId, x: BlockId)
    requires Dominates(e, entry, d, x) && Walk(e, entry, q, x)
    ensures d in q
  {
  }

  lemma NotBefore(p: seq<BlockId>, i: nat)
    requires Distinct(p) && i < |p|
    ensures p[i] !in p[..i]
  {
  }

  // ----- what a proof is worth in a loop -----

  lemma PassSatisfies(m: Machine, sorts: Sorts, blocks: seq<Block>, entry: BlockId, succs: Successors,
      p: seq<BlockId>, s0: State)
    requires LoopScope(m, sorts, blocks, entry, succs) && PassesOnce(m, sorts, blocks, entry, p, s0)
      && TestsBooleans(blocks, p, StepAt(m, blocks, p, s0).value.state.env)
    ensures Satisfies(sorts, FirstPass(sorts, p, StepAt(m, blocks, p, s0).value), Encoding(sorts, blocks, entry, succs))
  {
    NaturalLoopsAreEntered(m, sorts, blocks, entry, succs, p, s0);
    hide Strict, WellTyped, PhisTotal, Represents, L.Typed, PairsFit, C.Complete, NaturalLoops, TestsBooleans,
      PassesOnce,
      EntersLoops, Encoding, FirstPass, Satisfies;
    FirstPassSatisfies(m, sorts, blocks, entry, succs, p, s0);
  }

  /** Unsatisfiable means safe on the first pass, too: nothing a run does before it comes back to a block
      violates a check whose query has no satisfying assignment. */
  lemma FirstPassIsSafe(m: Machine, sorts: Sorts, blocks: seq<Block>, entry: BlockId, succs: Successors,
      check: SafetyCheck, p: seq<BlockId>, s0: State)
    requires LoopScope(m, sorts, blocks, entry, succs)
      && CheckHolds(sorts, Encoding(sorts, blocks, entry, succs), check)
    requires PassesOnce(m, sorts, blocks, entry, p, s0)
      && TestsBooleans(blocks, p, StepAt(m, blocks, p, s0).value.state.env)
    ensures !Violates(sorts, FirstPass(sorts, p, StepAt(m, blocks, p, s0).value), check)
  {
    PassSatisfies(m, sorts, blocks, entry, succs, p, s0);
    hide LoopScope, TestsBooleans, PassesOnce, Encoding, FirstPass, Satisfies;
    AddFormulas(sorts, FirstPass(sorts, p, StepAt(m, blocks, p, s0).value), Encoding(sorts, blocks, entry, succs),
      check.path, check.violation);
  }

  /** A successful verification: on its first pass through any loops a run violates no check and leaves no
      strict match for its default. */
  lemma VerifiedFirstPass(m: Machine, sorts: Sorts, blocks: seq<Block>, entry: BlockId, succs: Successors,
      checks: set<SafetyCheck>, p: seq<BlockId>, s0: State)
    requires LoopScope(m, sorts, blocks, entry, succs) && Verified(sorts, blocks, entry, succs, checks)
    requires PassesOnce(m, sorts, blocks, entry, p, s0)
      && TestsBooleans(blocks, p, StepAt(m, blocks, p, s0).value.state.env)
    ensures forall check | check in checks ::
      !Violates(sorts, FirstPass(sorts, p, StepAt(m, blocks, p, s0).value), check)
    ensures forall block, k | block in blocks && k in block.insts && k.Match? && k.strict ::
      (block.id, k.default) !in StepsTaken(p, StepAt(m, blocks, p, s0).value.exit)
  {
    var step := StepAt(m, blocks, p, s0).value;
    var a, steps := FirstPass(sorts, p, step), StepsTaken(p, step.exit);
    hide LoopScope, TestsBooleans, PassesOnce, Encoding, Represents, Satisfiable, Violates, FirstPass, StepsTaken,
      CheckHolds, StepAt;
    forall check | check in checks
      ensures !Violates(sorts, a, check)
    {
      FirstPassIsSafe(m, sorts, blocks, entry, succs, check, p, s0);
    }
    forall block, k | block in blocks && k in block.insts && k.Match? && k.strict
      ensures (block.id, k.default) !in steps
    {
      LoopScopeAt(m, sorts, blocks, entry, succs, block, k);
      assert DefaultsDead(sorts, Encoding(sorts, blocks, entry, succs), block.id, block.insts);
      assert StrictMatch(sorts, k);
      DefaultNotTaken(m, sorts, blocks, entry, succs, block, k, p, s0);
    }
  }

  lemma DefaultNotTaken(m: Machine, sorts: Sorts, blocks: seq<Block>, entry: BlockId, succs: Successors, block: Block,
      k: Kind, p: seq<BlockId>, s0: State)
    requires LoopScope(m, sorts, blocks, entry, succs) && block in blocks && k in block.insts && StrictMatch(sorts, k)
    requires !Satisfiable(sorts,
      Encoding(sorts, blocks, entry, succs) + {DefaultTest(block.id, k.selector, k.cases.Keys)})
    requires PassesOnce(m, sorts, blocks, entry, p, s0)
      && TestsBooleans(blocks, p, StepAt(m, blocks, p, s0).value.state.env)
    ensures (block.id, k.default) !in StepsTaken(p, StepAt(m, blocks, p, s0).value.exit)
  {
    var d := DefaultTest(block.id, k.selector, k.cases.Keys);
    hide Encoding, Satisfiable, StepsTaken, DefaultTest, Eval, FirstPass, TestsBooleans, LoopScope, PassesOnce, StepAt;
    assert {d, d} == {d};
    FirstPassIsSafe(m, sorts, blocks, entry, succs, SafetyCheck(d, d), p, s0);
    DefaultFollows(m, sorts, blocks, entry, succs, block, k, p, s0);
  }

  lemma DefaultFollows(m: Machine, sorts: Sorts, blocks: seq<Block>, entry: BlockId, succs: Successors, block: Block,
      k: Kind, p: seq<BlockId>, s0: State)
    requires LoopScope(m, sorts, blocks, entry, succs) && block in blocks && k in block.insts && StrictMatch(sorts, k)
    requires PassesOnce(m, sorts, blocks, entry, p, s0)
    ensures (block.id, k.default) in StepsTaken(p, StepAt(m, blocks, p, s0).value.exit)
      <==> Eval(sorts, FirstPass(sorts, p, StepAt(m, blocks, p, s0).value),
        DefaultTest(block.id, k.selector, k.cases.Keys))
  {
    hide StepAt, StepsTaken, DefaultTest, EdgesFollow, WellSorted, Eval, BlockFollows, LoopScope, Completed, RunTyped,
      Distinct, Strict, WellTyped, WellTerminated, TestsFit, DistinctTargets, StrictMatch;
    LoopScopeAt(m, sorts, blocks, entry, succs, block, k);
    PassControl(m, sorts, blocks, entry, p, s0, block);
    PassIsSorted(m, sorts, blocks, entry, p, s0);
    DefaultEdgeMeans(sorts, block, k, FirstPass(sorts, p, StepAt(m, blocks, p, s0).value));
  }

  lemma LoopScopeAt(m: Machine, sorts: Sorts, blocks: seq<Block>, entry: BlockId, succs: Successors, block: Block,
      k: Kind)
    requires LoopScope(m, sorts, blocks, entry, succs) && block in blocks && k in block.insts
    ensures Strict(blocks, entry) && WellTyped(sorts, blocks)
    ensures WellTerminated(block) && TestsFit(sorts, k) && DistinctTargets(k)
  {
  }

  // ----- the checks of loop equalities -----

  /** The phi is found equal to another, and its block leads to x, where both have word operands. */
  ghost predicate KeptAlong(sorts: Sorts, blocks: seq<Block>, succs: Successors, block: Block, k: Kind, other: Kind,
      x: BlockId)
    requires k.Phi?
  {
    && other in block.insts && KeptEqual(sorts, blocks, succs, block.id, k, other)
    && x in k.mappings && x in other.mappings && Reaches(succs, block.id, x)
    && k.mappings[x] in sorts.words && other.mappings[x] in sorts.words
  }

  /** The check asks for the two next values to differ when the edge from x is taken. */
  ghost predicate AsksAlong(block: Block, k: Kind, other: Kind, x: BlockId, check: SafetyCheck)
    requires k.Phi? && other.Phi? && x in k.mappings && x in other.mappings
  {
    check == SafetyCheck(OnEdge(x, block.id), Not(Equal(Sym(k.mappings[x]), Sym(other.mappings[x]))))
  }

  /** The checks registered for a phi: one for every phi it is found equal to and every back edge. */
  lemma PhiChecksExactly(sorts: Sorts, blocks: seq<Block>, succs: Successors, block: Block, k: Kind, check: SafetyCheck)
    requires UniqueIds(blocks) && block in blocks && k.Phi?
    ensures check in Checks(sorts, blocks, succs, block.id, k) <==>
      exists other, x :: KeptAlong(sorts, blocks, succs, block, k, other, x) && AsksAlong(block, k, other, x, check)
  {
    hide Reaches, L.Accepts, Find, EntryEdges, EqualPhis, BackChecks, UniqueIds;
    if check in Checks(sorts, blocks, succs, block.id, k) {
      var phis := EqualPhis(sorts, blocks, succs, block.id, k.dest, k.mappings);
      var other :| other in phis && check in BackChecks(sorts, succs, block.id, k.mappings, other.mappings);
      EqualPhisAre(sorts, blocks, succs, block, k, other);
      CheckIsBack(sorts, blocks, succs, block, k, other, check);
    }
    if other, x :| KeptAlong(sorts, blocks, succs, block, k, other, x) && AsksAlong(block, k, other, x, check) {
      BackIsCheck(sorts, blocks, succs, block, k, other, x, check);
    }
  }

  /** The check belongs to a phi of the function, another it is found equal to, and a back edge. */
  ghost predicate AsksFor(sorts: Sorts, blocks: seq<Block>, succs: Successors, block: Block, k: Kind, other: Kind,
      x: BlockId, check: SafetyCheck) {
    && block in blocks && k in block.insts && k.Phi?
    && KeptAlong(sorts, blocks, succs, block, k, other, x) && AsksAlong(block, k, other, x, check)
  }

  /** The checks a function's translation registers, all of them. */
  lemma AllChecksExactly(sorts: Sorts, blocks: seq<Block>, succs: Successors, check: SafetyCheck)
    requires UniqueIds(blocks)
    ensures check in AllChecks(sorts, blocks, succs, blocks)
      <==> exists block, k, other, x :: AsksFor(sorts, blocks, succs, block, k, other, x, check)
  {
    hide PhiChecks, KeptAlong, AsksAlong, UniqueIds;
    if check in AllChecks(sorts, blocks, succs, blocks) {
      var block :| block in blocks && check in BlockChecks(sorts, blocks, succs, block.id, block.insts);
      var k :| k in block.insts && check in Checks(sorts, blocks, succs, block.id, k);
      var other, x := CheckOf(sorts, blocks, succs, block, k, check);
      assert AsksFor(sorts, blocks, succs, block, k, other, x, check);
    }
    if block, k, other, x :| AsksFor(sorts, blocks, succs, block, k, other, x, check) {
      BackIsCheck(sorts, blocks, succs, block, k, other, x, check);
      assert check in BlockChecks(sorts, blocks, succs, block.id, block.insts);
    }
  }

  lemma CheckOf(sorts: Sorts, blocks: seq<Block>, succs: Successors, block: Block, k: Kind, check: SafetyCheck)
    returns (other: Kind, x: BlockId)
    requires UniqueIds(blocks) && block in blocks && k.Phi? && check in Checks(sorts, blocks, succs, block.id, k)
    ensures KeptAlong(sorts, blocks, succs, block, k, other, x) && AsksAlong(block, k, other, x, check)
  {
    PhiChecksExactly(sorts, blocks, succs, block, k, check);
    hide Checks, L.Accepts, Reaches, UniqueIds;
    other, x :| KeptAlong(sorts, blocks, succs, block, k, other, x) && AsksAlong(block, k, other, x, check);
  }

  lemma EqualPhisAre(sorts: Sorts, blocks: seq<Block>, succs: Successors, block: Block, k: Kind, other: Kind)
    requires UniqueIds(blocks) && block in blocks && k.Phi?
    ensures other in EqualPhis(sorts, blocks, succs, block.id, k.dest, k.mappings)
      <==> other in block.insts && KeptEqual(sorts, blocks, succs, block.id, k, other)
  {
    hide L.Accepts;
    var i :| 0 <= i < |blocks| && blocks[i] == block;
    FindAt(blocks, i);
  }

  lemma BackIsCheck(sorts: Sorts, blocks: seq<Block>, succs: Successors, block: Block, k: Kind, other: Kind,
      x: BlockId, check: SafetyCheck)
    requires UniqueIds(blocks) && block in blocks && k.Phi?
    requires KeptAlong(sorts, blocks, succs, block, k, other, x) && AsksAlong(block, k, other, x, check)
    ensures check in Checks(sorts, blocks, succs, block.id, k)
  {
    hide L.Accepts, EqualPhis, Reaches, UniqueIds;
    EqualPhisAre(sorts, blocks, succs, block, k, other);
    assert LoopHeader(succs, block.id, k.mappings);
    assert check == BackCheck(block.id, x, k.mappings[x], other.mappings[x]);
    assert check in BackChecks(sorts, succs, block.id, k.mappings, other.mappings);
  }

  lemma CheckIsBack(sorts: Sorts, blocks: seq<Block>, succs: Successors, block: Block, k: Kind, other: Kind,
      check: SafetyCheck)
    requires k.Phi? && other in block.insts && KeptEqual(sorts, blocks, succs, block.id, k, other)
    requires check in BackChecks(sorts, succs, block.id, k.mappings, other.mappings)
    ensures exists x :: KeptAlong(sorts, blocks, succs, block, k, other, x) && AsksAlong(block, k, other, x, check)
  {
    hide Reaches, L.Accepts;
    var x :| x in k.mappings && x !in EntryEdges(succs, block.id, k.mappings) && x in other.mappings
      && {k.mappings[x], other.mappings[x]} <= sorts.words
      && check == BackCheck(block.id, x, k.mappings[x], other.mappings[x]);
    assert KeptAlong(sorts, blocks, succs, block, k, other, x);
  }

  // ----- a loop in scope -----

  /** A block that goes round for ever, with one value on the first pass and another on all later ones. */
  const SPIN: seq<Block> := [
    Block(0, [Jump(1)], [], [1]),
    Block(1, [Phi(1, map[0 := 0, 1 := 2]), Jump(1)], [0, 1], [1])]

  lemma SpinBlocks()
    ensures Find(SPIN, 0) == Some(SPIN[0]) && Find(SPIN, 1) == Some(SPIN[1])
    ensures forall b: BlockId | b > 1 :: Find(SPIN, b).None?
    ensures SPIN[0] in SPIN && SPIN[1] in SPIN && forall block | block in SPIN :: block == SPIN[0] || block == SPIN[1]
  {
    assert SPIN[1..] == [SPIN[1]] && SPIN[1..][1..] == [];
  }

  lemma SpinDefines()
    ensures forall d: BlockId, v :: DefinedIn(SPIN, d, v) <==> d == 1 && v == 1
  {
    SpinBlocks();
    hide Find;
    assert GetDef(SPIN[1].insts[0]) == Some(1);
  }

  lemma SpinEdges()
    ensures KnownEdges(SPIN) == {(0, 1), (1, 1)}
    ensures forall x: BlockId, y: BlockId :: (x, y) in SuccEdges(SPIN) <==> (x == 0 || x == 1) && y == 1
  {
    SpinBlocks();
    assert EdgesFrom(SPIN[0]) == {(0, 1)} && EdgesFrom(SPIN[1]) == {(1, 1)};
    hide Find;
  }

  lemma SpinIsStrict()
    ensures Strict(SPIN, 0) && PhisTotal(SPIN) && C.Complete(SPIN, 0)
  {
    SpinBlocks();
    SpinUses();
    SpinForm();
    SpinEdges();
    hide Find, KnownEdges, SuccEdges, UsesAvailable, WellFormed, UniqueDefinitions;
    assert PhisFirst(SPIN[0]) && PhisFirst(SPIN[1]);
  }

  lemma SpinForm()
    ensures WellFormed(SPIN) && UniqueDefinitions(SPIN)
  {
    SpinBlocks();
    SpinDefines();
    hide Find, DefinedIn;
    assert WellTerminated(SPIN[0]) && WellTerminated(SPIN[1]);
  }

  lemma SpinUses()
    ensures UsesAvailable(SPIN, 0, SPIN[0]) && UsesAvailable(SPIN, 0, SPIN[1])
  {
    SpinDefines();
    SpinEdges();
    assert Dominates(SuccEdges(SPIN), 0, 1, 1);
    hide Find, KnownEdges, DefinedIn, SuccEdges, Dominates;
    assert Parameter(SPIN, 0) && Parameter(SPIN, 2);
    assert AvailableAtEnd(SPIN, 0, 0, 0) && AvailableAtEnd(SPIN, 0, 1, 2);
  }

  lemma SpinLoops(succs: Successors)
    requires succs == map[0 := [1], 1 := [1]]
    ensures Represents(succs, SPIN) && NaturalLoops(SPIN, 0, succs)
  {
    SpinBlocks();
    SpinEdges();
    forall p | Walk(EdgesIn(succs), 1, p, 0)
      ensures false
    {
      ClosedHoldsWalks(succs, 1, {1}, p);
    }
    assert !Reaches(succs, 1, 0);
    assert Dominates(SuccEdges(SPIN), 0, 1, 1);
    assert forall k | k in SPIN[0].insts :: !k.Phi?;
    assert forall k, x | k in SPIN[1].insts && k.Phi? && x in k.mappings :: x == 0 || x == 1;
    hide Find, KnownEdges, SuccEdges, Reaches, Dominates;
  }

  lemma SpinIsTyped(m: Machine, sorts: Sorts, succs: Successors)
    requires m.width(0) == m.width(1) == m.width(2) && sorts == Sorts({0, 1, 2}, {}, {}, m.width)
    ensures WellTyped(sorts, SPIN) && L.Typed(m, SPIN) && PairsFit(sorts, SPIN, succs)
  {
    SpinBlocks();
    hide L.Accepts;
    assert forall k | k in SPIN[0].insts :: k == Jump(1);
    assert forall k | k in SPIN[1].insts :: k == Jump(1) || k == Phi(1, map[0 := 0, 1 := 2]);
  }

  /** The scope is met by a loop, and its first pass by a run. */
  lemma LoopScopeIsInhabited(m: Machine, mem: Memory) returns (sorts: Sorts, succs: Successors, s0: State)
    requires m.width(0) == m.width(1) == m.width(2) > 0
    ensures LoopScope(m, sorts, SPIN, 0, succs) && PassesOnce(m, sorts, SPIN, 0, [0, 1], s0)
    ensures StepAt(m, SPIN, [0, 1], s0).value.exit == Goto(1)
    ensures TestsBooleans(SPIN, [0, 1], StepAt(m, SPIN, [0, 1], s0).value.state.env)
  {
    sorts, succs, s0 := SpinSorts(m), SPINSUCCS, SpinStart(mem);
    SpinIsStrict();
    SpinLoops(succs);
    SpinIsTyped(m, sorts, succs);
    SpinRuns(m, mem);
    hide Strict, PhisTotal, C.Complete, NaturalLoops, Represents, WellTyped, L.Typed, PairsFit, StepAt;
    SpinPasses(m, sorts, mem);
    hide PassesOnce;
    SpinTests(StepAt(m, SPIN, [0, 1], s0).value.state.env);
  }

  const SPINSUCCS: Successors := map[0 := [1], 1 := [1]]

  function SpinSorts(m: Machine): Sorts {
    Sorts({0, 1, 2}, {}, {}, m.width)
  }

  function SpinStart(mem: Memory): State {
    State(map[0 := Word(0), 2 := Word(1)], mem)
  }

  lemma SpinTests(env: Store)
    ensures TestsBooleans(SPIN, [0, 1], env)
  {
    SpinBlocks();
    assert forall block | block in SPIN :: forall k | k in block.insts :: !k.Branch?;
  }

  lemma SpinPasses(m: Machine, sorts: Sorts, mem: Memory)
    requires sorts == SpinSorts(m) && m.width(0) == m.width(1) == m.width(2) > 0
    ensures PassesOnce(m, sorts, SPIN, 0, [0, 1], SpinStart(mem))
  {
    SpinRuns(m, mem);
    SpinRunTyped(m, sorts, mem);
    hide StepAt, RunTyped;
    assert Distinct([0, 1]);
  }

  lemma SpinRunTyped(m: Machine, sorts: Sorts, mem: Memory)
    requires sorts == SpinSorts(m) && m.width(0) == m.width(1) == m.width(2) > 0
    ensures RunTyped(sorts, SPIN, SpinStart(mem), map[0 := Word(0), 2 := Word(1), 1 := Word(0)])
  {
    SpinParameters();
    hide Parameter;
    assert Pow2(m.width(2)) == 2 * Pow2(m.width(2) - 1);
  }

  lemma SpinParameters()
    ensures !Parameter(SPIN, 1)
  {
    SpinDefines();
    hide DefinedIn;
    assert DefinedIn(SPIN, 1, 1);
  }

  /** The loop's block entered along an edge takes the operand of that edge and goes round. */
  lemma SpinStep(m: Machine, s: State, from: BlockId, x: Val)
    requires (from == 0 && Get(s.env, 0) == x) || (from == 1 && Get(s.env, 2) == x)
    ensures RunBlock(m, SPIN[1], Some(from), s) == Step(s.(env := s.env[1 := x]), [], Goto(1))
  {
    var phi := Phi(1, map[0 := 0, 1 := 2]);
    var bound := s.(env := s.env[1 := x]);
    assert BindPhis([phi, Jump(1)], Some(from), s.env, s.env) == bound.env by {
      assert [phi, Jump(1)][1..] == [Jump(1)] && [Jump(1)][1..] == [];
      assert Incoming(phi.mappings, Some(from), s.env) == x;
      assert BindPhis([Jump(1)], Some(from), s.env, bound.env) == bound.env;
    }
    assert Exec(m, [phi, Jump(1)], bound) == Step(bound, [], Goto(1)) by {
      assert [phi, Jump(1)][1..] == [Jump(1)];
      assert Exec(m, [Jump(1)], bound) == Step(bound, [], Goto(1));
    }
  }

  /** The first two times round. */
  lemma SpinRuns(m: Machine, mem: Memory)
    ensures StepAt(m, SPIN, [0, 1], SpinStart(mem))
      == Some(Step(State(map[0 := Word(0), 2 := Word(1), 1 := Word(0)], mem), [], Goto(1)))
    ensures StepAt(m, SPIN, [0, 1, 1], SpinStart(mem))
      == Some(Step(State(map[0 := Word(0), 2 := Word(1), 1 := Word(1)], mem), [], Goto(1)))
  {
    var s0 := SpinStart(mem);
    SpinBlocks();
    RunOne(m, SPIN[0], Jump(1), None, s0);
    assert StepAt(m, SPIN, [0], s0) == Some(RunBlock(m, SPIN[0], None, s0));
    SpinStep(m, s0, 0, Word(0));
    var s1 := s0.(env := s0.env[1 := Word(0)]);
    SpinStep(m, s1, 1, Word(1));
    hide RunBlock, Find;
    ExtendStep(m, SPIN, [0], s0, 1);
    assert [0] + [1] == [0, 1];
    ExtendStep(m, SPIN, [0, 1], s0, 1);
    assert [0, 1] + [1] == [0, 1, 1];
    assert s1.env[1 := Word(1)] == map[0 := Word(0), 2 := Word(1), 1 := Word(1)];
  }

  // ----- where the guarantee ends -----

  /** A satisfying assignment shows a header's phi on its way in and at no later time: if the block is on the
      phi has the value of an operand from outside its loop. */
  lemma OnlyFirstPassIsSeen(m: Machine, sorts: Sorts, blocks: seq<Block>, entry: BlockId, succs: Successors,
      a: Assignment, mem: Memory, block: Block, k: Kind)
    returns (x: BlockId)
    requires WellTyped(sorts, blocks) && UniqueIds(blocks) && m.width == sorts.width
    requires Satisfies(sorts, a, Encoding(sorts, blocks, entry, succs))
    requires block in blocks && k in block.insts && HeadsLoop(succs, block.id, k) && block.id in a.blocks
    ensures x in k.mappings && !Reaches(succs, block.id, x) && (x, block.id) in a.edges
    ensures Get(a.env, k.dest) == Get(a.env, k.mappings[x])
  {
    hide Reaches, Encoding, UniqueIds, WellTyped, KeptEqual, EquationFollows, BlockFollows, BlockSeen;
    EncodingSeen(m, sorts, blocks, entry, succs, a, mem);
    assert HeaderPhiSeen(sorts, blocks, succs, block, k, a);
    x :| x in k.mappings && !Reaches(succs, block.id, x) && (x, block.id) in a.edges;
    assert Bound(block.id, k, x, a);
  }

  /** So a check that holds may be violated by a later iteration: here on the second time round. */
  lemma LaterPassIsMissed(m: Machine, mem: Memory) returns (check: SafetyCheck)
    requires m.width(0) == m.width(1) == m.width(2) > 0
    ensures check == SafetyCheck(OnBlock(1), Not(Equal(Sym(1), Sym(0))))
    ensures LoopScope(m, SpinSorts(m), SPIN, 0, SPINSUCCS)
      && CheckHolds(SpinSorts(m), Encoding(SpinSorts(m), SPIN, 0, SPINSUCCS), check)
    ensures StepAt(m, SPIN, [0, 1, 1], SpinStart(mem)).Some?
      && var env := StepAt(m, SPIN, [0, 1, 1], SpinStart(mem)).value.state.env; Get(env, 1) != Get(env, 0)
  {
    var sorts := SpinSorts(m);
    check := SafetyCheck(OnBlock(1), Not(Equal(Sym(1), Sym(0))));
    SpinRuns(m, mem);
    SpinIsStrict();
    SpinLoops(SPINSUCCS);
    SpinIsTyped(m, sorts, SPINSUCCS);
    hide Strict, PhisTotal, C.Complete, NaturalLoops, Represents, WellTyped, L.Typed, PairsFit, StepAt, Encoding;
    hide Satisfies;
    assert CheckHolds(sorts, Encoding(sorts, SPIN, 0, SPINSUCCS), check) by {
      if a :| Satisfies(sorts, a, Encoding(sorts, SPIN, 0, SPINSUCCS) + {check.path, check.violation}) {
        SpinCheckHolds(m, mem, sorts, a, check);
      }
    }
  }

  lemma SpinCheckHolds(m: Machine, mem: Memory, sorts: Sorts, a: Assignment, check: SafetyCheck)
    requires m.width(0) == m.width(1) == m.width(2) && sorts == SpinSorts(m)
    requires check == SafetyCheck(OnBlock(1), Not(Equal(Sym(1), Sym(0))))
    ensures !Satisfies(sorts, a, Encoding(sorts, SPIN, 0, SPINSUCCS) + {check.path, check.violation})
  {
    hide Encoding;
    if Satisfies(sorts, a, Encoding(sorts, SPIN, 0, SPINSUCCS) + {check.path, check.violation}) {
      assert Eval(sorts, a, check.path) && Eval(sorts, a, check.violation);
      SpinSeesEntry(m, mem, sorts, a);
    }
  }

  lemma SpinSeesEntry(m: Machine, mem: Memory, sorts: Sorts, a: Assignment)
    requires m.width(0) == m.width(1) == m.width(2) && sorts == SpinSorts(m)
    requires Satisfies(sorts, a, Encoding(sorts, SPIN, 0, SPINSUCCS)) && 1 in a.blocks
    ensures Get(a.env, 1) == Get(a.env, 0)
  {
    SpinBlocks();
    SpinForm();
    SpinIsTyped(m, sorts, SPINSUCCS);
    SpinHeads();
    hide Encoding, WellTyped, UniqueDefinitions, Satisfies, Find;
    var x := OnlyFirstPassIsSeen(m, sorts, SPIN, 0, SPINSUCCS, a, mem, SPIN[1], SPIN[1].insts[0]);
    assert Walk(EdgesIn(SPINSUCCS), 1, [1], 1);
  }

  lemma SpinHeads()
    ensures HeadsLoop(SPINSUCCS, 1, SPIN[1].insts[0]) && !Reaches(SPINSUCCS, 1, 0)
  {
    forall p | Walk(EdgesIn(SPINSUCCS), 1, p, 0)
      ensures false
    {
      ClosedHoldsWalks(SPINSUCCS, 1, {1}, p);
    }
    assert Walk(EdgesIn(SPINSUCCS), 1, [1], 1);
    var k := SPIN[1].insts[0];
    assert 0 in k.mappings && 1 in k.mappings;
    assert Reaches(SPINSUCCS, 1, 1) && !Reaches(SPINSUCCS, 1, 0);
  }
}
