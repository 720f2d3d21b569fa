/** What the verifier's answers are worth: a proved check cannot be violated by a run, a violated one
    is reached by a run of the function with its open instructions answering suitably. */
module Safety {
  import opened Arithmetic
  import opened IR
  import opened Cfg
  import opened Reachability
  import opened Semantics
  import opened StrictSsa
  import opened Conditions
  import opened Translation
  import opened ConditionMeaning
  import opened RunConditions
  import opened ConditionRuns

  /** Functions the correspondence between assignments and runs is claimed for. */
  ghost predicate InScope(sorts: Sorts, blocks: seq<Block>, entry: BlockId, rank: BlockId -> nat) {
    && Strict(blocks, entry) && WellTyped(sorts, blocks) && PhisTotal(blocks)
    && Ranked(blocks, rank) && Complete(blocks, entry)
  }

  /** A run from the entry along p that came to its end with values of the right sorts. */
  ghost predicate EndedRun(m: Machine, sorts: Sorts, blocks: seq<Block>, entry: BlockId, p: seq<BlockId>, s0: State) {
    && StepAt(m, blocks, p, s0).Some? && p[0] == entry && !StepAt(m, blocks, p, s0).value.exit.Goto?
    && RunTyped(sorts, blocks, s0, StepAt(m, blocks, p, s0).value.state.env)
  }

  /** Its branches tested zero or one. */
  ghost predicate BooleanRun(m: Machine, blocks: seq<Block>, p: seq<BlockId>, s0: State)
    requires StepAt(m, blocks, p, s0).Some?
  {
    TestsBooleans(blocks, p, StepAt(m, blocks, p, s0).value.state.env)
  }

  /** With conditions of one bit every run is of this kind. */
  lemma NarrowIsBoolean(m: Machine, sorts: Sorts, blocks: seq<Block>, entry: BlockId, rank: BlockId -> nat,
      p: seq<BlockId>, s0: State)
    requires InScope(sorts, blocks, entry, rank) && EndedRun(m, sorts, blocks, entry, p, s0)
    requires forall block, k | block in blocks && k in block.insts && k.Branch? :: sorts.width(k.cond) == 1
    ensures BooleanRun(m, blocks, p, s0)
  {
    hide Strict, PhisTotal, Ranked, Complete, StepAt, RunTyped, Completed, TestsBooleans, BooleanTests, OperandsFit,
      DistinctTargets;
    var env := StepAt(m, blocks, p, s0).value.state.env;
    TestsCompleted(m, sorts, blocks, entry, p, s0);
    CompletedIsSorted(sorts, blocks, s0, env);
    forall block, k | block in blocks && k in block.insts && k.Branch?
      ensures k.cond in sorts.words
    {
      assert TestsFit(sorts, k);
    }
    NarrowTests(sorts, blocks, AssignmentOf(sorts, p, env));
  }

  lemma NarrowTests(sorts: Sorts, blocks: seq<Block>, a: Assignment)
    requires WellSorted(sorts, a.env)
    requires forall block, k | block in blocks && k in block.insts
      && k.Branch? :: k.cond in sorts.words && sorts.width(k.cond) == 1
    ensures BooleanTests(blocks, a)
  {
    assert Pow2(1) == 2;
  }

  /** In scope no lookup of an edge's boolean can fail, loops or not. */
  lemma LookupsAlwaysSucceed(blocks: seq<Block>)
    requires WellFormed(blocks) && PhisTotal(blocks)
    ensures LookupsSucceed(blocks)
  {
    forall succs, block, k | Represents(succs, blocks) && block in blocks && k in block.insts
      ensures EdgesKnown(KnownEdges(blocks), succs, block.id, k)
    {
      forall t | t in Targets(k)
        ensures (block.id, t) in KnownEdges(blocks)
      {
        assert IsTerminator(k) && WellTerminated(block);
        assert block.insts[|block.insts| - 1] == k;
        assert (block.id, t) in EdgesFrom(block);
      }
    }
  }

  /** The check's path condition and its violation both hold of the run. */
  ghost predicate Violates(sorts: Sorts, a: Assignment, check: SafetyCheck) {
    Eval(sorts, a, check.path) && Eval(sorts, a, check.violation)
  }

  lemma AddFormulas(sorts: Sorts, a: Assignment, fs: set<Formula>, f: Formula, g: Formula)
    requires Satisfies(sorts, a, fs)
    ensures Eval(sorts, a, f) && Eval(sorts, a, g) ==> Satisfiable(sorts, fs + {f, g})
  {
    assert Eval(sorts, a, f) && Eval(sorts, a, g) ==> Satisfies(sorts, a, fs + {f, g});
  }

  /** Unsatisfiable means safe: no run to the end, whatever the open instructions answer, violates a
      check whose query has no satisfying assignment. */
  lemma ProvedIsSafe(m: Machine, sorts: Sorts, blocks: seq<Block>, entry: BlockId, rank: BlockId -> nat,
      succs: Successors, check: SafetyCheck, p: seq<BlockId>, s0: State)
    requires InScope(sorts, blocks, entry, rank) && Represents(succs, blocks) && m.width == sorts.width
    requires CheckHolds(sorts, Encoding(sorts, blocks, entry, succs), check)
    requires EndedRun(m, sorts, blocks, entry, p, s0) && BooleanRun(m, blocks, p, s0)
    ensures !Violates(sorts, AssignmentOf(sorts, p, StepAt(m, blocks, p, s0).value.state.env), check)
  {
    var a := AssignmentOf(sorts, p, StepAt(m, blocks, p, s0).value.state.env);
    RunSatisfiesConditions(m, sorts, blocks, entry, rank, succs, p, s0);
    AddFormulas(sorts, a, Encoding(sorts, blocks, entry, succs), check.path, check.violation);
  }

  /** Satisfiable means reachable: an assignment that violates a check and tests booleans is a run of the
      opened function that takes the path condition and has values that violate the check. */
  lemma ViolatedIsReached(m: Machine, sorts: Sorts, blocks: seq<Block>, entry: BlockId, rank: BlockId -> nat,
      succs: Successors, check: SafetyCheck, a: Assignment, mem: Memory)
    returns (p: seq<BlockId>)
    requires InScope(sorts, blocks, entry, rank) && Represents(succs, blocks) && m.width == sorts.width
    requires Satisfies(sorts, a, Encoding(sorts, blocks, entry, succs) + {check.path, check.violation})
      && BooleanTests(blocks, a)
    ensures Violates(sorts, a, check) && IsRun(m, sorts, blocks, entry, a, mem, p)
  {
    p := ModelIsRun(m, sorts, blocks, entry, rank, succs, a, mem);
  }

  /** Once a strict match has been accepted no run leaves it for its default. */
  lemma StrictMatchIsExhaustive(m: Machine, sorts: Sorts, blocks: seq<Block>, entry: BlockId, rank: BlockId -> nat,
      succs: Successors, block: Block, k: Kind, p: seq<BlockId>, s0: State)
    requires InScope(sorts, blocks, entry, rank) && Represents(succs, blocks) && m.width == sorts.width
    requires block in blocks && k in block.insts && StrictMatch(sorts, k)
    requires !Satisfiable(sorts,
      Encoding(sorts, blocks, entry, succs) + {DefaultTest(block.id, k.selector, k.cases.Keys)})
    requires EndedRun(m, sorts, blocks, entry, p, s0) && BooleanRun(m, blocks, p, s0)
    ensures (block.id, k.default) !in PathEdges(p)
  {
    var a := AssignmentOf(sorts, p, StepAt(m, blocks, p, s0).value.state.env);
    var d := DefaultTest(block.id, k.selector, k.cases.Keys);
    RunIsCoherent(m, sorts, blocks, entry, rank, succs, p, s0, block);
    AddFormulas(sorts, a, Encoding(sorts, blocks, entry, succs), d, d);
    assert {d, d} == {d};
    InScopeAt(sorts, blocks, entry, rank, block, k);
    hide InScope, StepAt, TestsFit, DistinctTargets, EndedRun, Encoding, Represents, Satisfiable, EdgesFollow,
      DefaultTest;
    DefaultEdgeMeans(sorts, block, k, a);
  }

  /** What a successful verification is worth: no run to the end violates a check the solver was asked
      about or leaves a strict match for its default. */
  lemma VerifiedIsSafe(m: Machine, sorts: Sorts, blocks: seq<Block>, entry: BlockId, rank: BlockId -> nat,
      succs: Successors, checks: set<SafetyCheck>, p: seq<BlockId>, s0: State)
    requires InScope(sorts, blocks, entry, rank) && m.width == sorts.width
    requires Verified(sorts, blocks, entry, succs, checks)
    requires EndedRun(m, sorts, blocks, entry, p, s0) && BooleanRun(m, blocks, p, s0)
    ensures forall check | check in checks ::
      !Violates(sorts, AssignmentOf(sorts, p, StepAt(m, blocks, p, s0).value.state.env), check)
    ensures forall block, k | block in blocks && k in block.insts
      && k.Match? && k.strict :: (block.id, k.default) !in PathEdges(p)
  {
    hide InScope, EndedRun, BooleanRun, Encoding, Represents, CheckHolds, Satisfiable, Violates, PathEdges, StepAt;
    forall check | check in checks {
      ProvedIsSafe(m, sorts, blocks, entry, rank, succs, check, p, s0);
    }
    forall block, k | block in blocks && k in block.insts && k.Match? && k.strict
      ensures (block.id, k.default) !in PathEdges(p)
    {
      InScopeAt(sorts, blocks, entry, rank, block, k);
      assert StrictMatch(sorts, k);
      assert DefaultsDead(sorts, Encoding(sorts, blocks, entry, succs), block.id, block.insts);
      StrictMatchIsExhaustive(m, sorts, blocks, entry, rank, succs, block, k, p, s0);
    }
  }

  lemma InScopeAt(sorts: Sorts, blocks: seq<Block>, entry: BlockId, rank: BlockId -> nat, block: Block, k: Kind)
    requires InScope(sorts, blocks, entry, rank) && block in blocks && k in block.insts
    ensures WellTerminated(block) && TestsFit(sorts, k) && DistinctTargets(k)
  {
  }

  lemma RunIsCoherent(m: Machine, sorts: Sorts, blocks: seq<Block>, entry: BlockId, rank: BlockId -> nat,
      succs: Successors, p: seq<BlockId>, s0: State, block: Block)
    requires InScope(sorts, blocks, entry, rank) && Represents(succs, blocks) && m.width == sorts.width
    requires EndedRun(m, sorts, blocks, entry, p, s0) && BooleanRun(m, blocks, p, s0) && block in blocks
    ensures var a := AssignmentOf(sorts, p, StepAt(m, blocks, p, s0).value.state.env);
      Satisfies(sorts, a, Encoding(sorts, blocks, entry, succs)) && EdgesFollow(block, a) && a.edges == PathEdges(p)
  {
    var a := AssignmentOf(sorts, p, StepAt(m, blocks, p, s0).value.state.env);
    RunSatisfiesConditions(m, sorts, blocks, entry, rank, succs, p, s0);
  }

  lemma DefaultEdgeMeans(sorts: Sorts, block: Block, k: Kind, a: Assignment)
    requires WellTerminated(block) && k in block.insts && StrictMatch(sorts, k) && TestsFit(sorts, k)
      && DistinctTargets(k)
    requires WellSorted(sorts, a.env) && EdgesFollow(block, a)
    ensures (block.id, k.default) in a.edges <==> Eval(sorts, a, DefaultTest(block.id, k.selector, k.cases.Keys))
  {
    DefaultMeans(sorts, block.id, k.selector, k.cases, a);
    assert block.insts[|block.insts| - 1] == k;
    assert k.default in EdgeTargets(block);
    hide DefaultTest;
    var c := Get(a.env, k.selector).bits;
    assert c in k.cases ==> k.cases[c] in k.cases.Values;
  }

  /** The setting is met, by a branch on a boolean for instance, and so are its runs. */
  lemma ScopeIsInhabited(m: Machine, mem: Memory) returns (sorts: Sorts, blocks: seq<Block>, s0: State)
    requires forall v :: m.width(v) == 1
    ensures InScope(sorts, blocks, 0, b => b) && m.width == sorts.width
    ensures EndedRun(m, sorts, blocks, 0, [0, 1], s0) && BooleanRun(m, blocks, [0, 1], s0)
  {
    sorts := Sorts({0}, {}, {}, m.width);
    blocks := WIDE;
    s0 := State(map[0 := Word(1)], mem);
    WideIsStrict();
    BranchRun(m, sorts, s0);
    NarrowIsBoolean(m, sorts, blocks, 0, b => b, [0, 1], s0);
  }

  lemma WideBlocks()
    ensures Find(WIDE, 0) == Some(WIDE[0]) && Find(WIDE, 1) == Some(WIDE[1]) && Find(WIDE, 2) == Some(WIDE[2])
    ensures forall b: BlockId | b > 2 :: Find(WIDE, b).None?
    ensures forall block | block in WIDE :: block == WIDE[0] || block == WIDE[1] || block == WIDE[2]
    ensures WIDE[0].insts == [Branch(0, 1, 2)] && WIDE[1].insts == [Return(None)] && WIDE[2].insts == [Return(None)]
    ensures forall d: BlockId, v :: !DefinedIn(WIDE, d, v)
  {
    assert WIDE[1..] == [WIDE[1], WIDE[2]] && WIDE[1..][1..] == [WIDE[2]] && WIDE[1..][1..][1..] == [];
  }

  lemma WideEdges()
    ensures KnownEdges(WIDE) == {(0, 1), (0, 2)}
  {
    WideBlocks();
    assert EdgesFrom(WIDE[0]) == {(0, 1), (0, 2)} && EdgesFrom(WIDE[1]) == {} && EdgesFrom(WIDE[2]) == {};
    assert WIDE[0] in WIDE;
  }

  lemma WideUses()
    ensures forall block | block in WIDE :: UsesAvailable(WIDE, 0, block)
  {
    WideBlocks();
    hide Find, Dominates, DefinedIn;
    assert forall v :: Parameter(WIDE, v);
  }

  lemma WideIsStrict()
    ensures Strict(WIDE, 0) && PhisTotal(WIDE) && Ranked(WIDE, b => b) && Complete(WIDE, 0)
  {
    WideBlocks();
    WideEdges();
    WideUses();
    hide KnownEdges, Find, Dominates, DefinedIn, UsesAvailable;
    assert Targets(WIDE[0].insts[0]) == {1, 2};
    forall block | block in WIDE
      ensures WellTerminated(block) && PhisFirst(block)
      ensures forall k | k in block.insts :: !k.Phi? && GetDef(k).None?
    {
    }
  }

  lemma RunOne(m: Machine, block: Block, k: Kind, from: Option<BlockId>, s: State)
    requires block.insts == [k] && IsTerminator(k)
    ensures RunBlock(m, block, from, s) == Step(s, [], Leave(k, s.env))
  {
    assert [k][1..] == [];
    assert BindPhis([k], from, s.env, s.env) == s.env;
    assert s.(env := s.env) == s;
  }

  lemma BranchRun(m: Machine, sorts: Sorts, s0: State)
    requires m.width == sorts.width && sorts.words == {0} && sorts.floats == {} && sorts.width(0) == 1
      && s0.env == map[0 := Word(1)]
    ensures WellTyped(sorts, WIDE) && EndedRun(m, sorts, WIDE, 0, [0, 1], s0)
  {
    WideBlocks();
    RunOne(m, WIDE[0], Branch(0, 1, 2), None, s0);
    RunOne(m, WIDE[1], Return(None), Some(0), s0);
    hide RunBlock, Find;
    assert StepAt(m, WIDE, [0], s0) == Some(RunBlock(m, WIDE[0], None, s0));
    ExtendStep(m, WIDE, [0], s0, 1);
    assert [0] + [1] == [0, 1];
    assert Pow2(1) == 2;
  }

  // ----- where the correspondence ends -----

  const WIDE: seq<Block> := [
    Block(0, [Branch(0, 1, 2)], [], [1, 2]),
    Block(1, [Return(None)], [0], []),
    Block(2, [Return(None)], [0], [])]

  /** A branch on a byte holding 2 runs to its first target, … */
  lemma WideConditionRuns(m: Machine, mem: Memory)
    ensures StepAt(m, WIDE, [0, 1], State(map[0 := Word(2)], mem)).Some?
  {
    var s0 := State(map[0 := Word(2)], mem);
    WideBlocks();
    RunOne(m, WIDE[0], Branch(0, 1, 2), None, s0);
    hide RunBlock, Find;
    assert StepAt(m, WIDE, [0], s0) == Some(RunBlock(m, WIDE[0], None, s0));
    ExtendStep(m, WIDE, [0], s0, 1);
    assert [0] + [1] == [0, 1];
  }

  /** … but in no assignment that gives the byte this value is that target on: a violation there
      would be missed. */
  lemma WideConditionIsMissed(sorts: Sorts, succs: Successors, a: Assignment)
    requires sorts.width(0) == 8 && 0 in sorts.words
    requires Satisfies(sorts, a, Encoding(sorts, WIDE, 0, succs)) && Get(a.env, 0) == Word(2)
    ensures 1 !in a.blocks
  {
    WideEdges();
    WideEdgeAsserted(sorts, succs, a);
    hide Encoding, Satisfies, KnownEdges;
    BlockAssertionMeans(sorts, WIDE, 0, 1, a);
    TwoIsNotOne(sorts, a);
  }

  lemma WideEdgeAsserted(sorts: Sorts, succs: Successors, a: Assignment)
    requires 0 in sorts.words && Satisfies(sorts, a, Encoding(sorts, WIDE, 0, succs))
    ensures Eval(sorts, a, Iff(OnEdge(0, 1), And(OnBlock(0), BranchTest(sorts, 0))))
    ensures Eval(sorts, a, BlockAssertion(KnownEdges(WIDE), 0, 1))
  {
    hide Eval, Encoding, KnownEdges, BlockAssertion, BranchTest;
    EncodingParts(sorts, WIDE, 0, succs, a);
    var block := WIDE[0];
    assert block in WIDE && WIDE[1] in WIDE && block.insts[0] in block.insts;
    assert Iff(OnEdge(0, 1), And(OnBlock(0), BranchTest(sorts, 0))) in Assertions(sorts, WIDE, succs, 0,
      block.insts[0]);
  }

  lemma TwoIsNotOne(sorts: Sorts, a: Assignment)
    requires sorts.width(0) == 8 && Get(a.env, 0) == Word(2)
    ensures Eval(sorts, a, Iff(OnEdge(0, 1), And(OnBlock(0), BranchTest(sorts, 0)))) ==> (0, 1) !in a.edges
  {
    assert Pow2(8) == 256;
    var test := BranchTest(sorts, 0);
    assert !Eval(sorts, a, test);
    assert !Eval(sorts, a, And(OnBlock(0), test));
    assert Eval(sorts, a, OnEdge(0, 1)) <==> (0, 1) in a.edges;
  }
}
