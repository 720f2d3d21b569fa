/** Liveness means something for runs: what is not live cannot be observed. */
module LivenessSoundness {
  import opened IR
  import opened Semantics
  import opened Liveness

  ghost predicate AgreeOn(e: Store, f: Store, live: set<Value>) {
    forall v | v in live :: Get(e, v) == Get(f, v)
  }

  /** What a store must get right when control enters a block along an edge, or at the start. */
  ghost function Needed(liveIn: LiveSets, from: Option<BlockId>, block: Block): set<Value> {
    if from.Some? then AcrossEdge(liveIn, from.value, block)
    else LiveAtEntry(liveIn, block.id) - PhiDefs(block.insts)
  }

  /** Reading the phis turns agreement on the edge into agreement on what is live in the block. */
  lemma {:induction false} BindPhisAgrees(insts: seq<Kind>, from: Option<BlockId>, e: Store, f: Store, boundE: Store,
      boundF: Store, v: Value)
    requires from.Some? ==> AgreeOn(e, f, PhiUses(insts, from.value))
    requires v in PhiDefs(insts) || Get(boundE, v) == Get(boundF, v)
    ensures Get(BindPhis(insts, from, e, boundE), v) == Get(BindPhis(insts, from, f, boundF), v)
    decreases |insts|
  {
    if insts != [] {
      var k, rest := insts[0], insts[1..];
      assert insts == [k] + rest;
      if from.Some? {
        forall u | u in PhiUses(rest, from.value)
          ensures u in PhiUses(insts, from.value)
        {
          var j :| j in rest && j.Phi? && from.value in j.mappings && j.mappings[from.value] == u;
          assert j in insts;
        }
      }
      if k.Phi? {
        assert from.Some? && from.value in k.mappings ==> k.mappings[from.value] in PhiUses(insts, from.value);
        var x, y := Incoming(k.mappings, from, e), Incoming(k.mappings, from, f);
        if v in PhiDefs(insts) && v !in PhiDefs(rest) {
          var j :| j in insts && j.Phi? && j.dest == v;
          assert j == k;
        }
        BindPhisAgrees(rest, from, e, f, boundE[k.dest := x], boundF[k.dest := y], v);
      } else {
        if v in PhiDefs(insts) {
          var j :| j in insts && j.Phi? && j.dest == v;
          assert j in rest;
        }
        BindPhisAgrees(rest, from, e, f, boundE, boundF, v);
      }
    }
  }

  /** Stores that agree on what is live before a block's instructions, and on its phis, run it
      identically and agree on its live-out set when it ends. */
  lemma {:induction false} ExecAgrees(m: Machine, insts: seq<Kind>, out: set<Value>, s: State, t: State)
    requires forall i | 0 <= i < |insts| - 1 :: !IsTerminator(insts[i])
    requires s.mem == t.mem && AgreeOn(s.env, t.env, BeforeAll(insts, out)) && AgreeOn(s.env, t.env, PhiDefs(insts))
    ensures var x, y := Exec(m, insts, s), Exec(m, insts, t);
      x.trace == y.trace && x.exit == y.exit && x.state.mem == y.state.mem && AgreeOn(x.state.env, y.state.env, out)
  {
    if insts != [] {
      var k, rest := insts[0], insts[1..];
      assert insts == [k] + rest;
      assert !k.Phi? ==> AgreeOnUses(s.env, t.env, k);
      if IsTerminator(k) {
        assert rest == [] && out <= BeforeAll(insts, out);
        LeaveAgrees(k, s.env, t.env);
      } else {
        assert k.Phi? ==> k.dest in PhiDefs(insts);
        if !k.Phi? {
          PerformAgrees(m, k, s, t);
        }
        ExecAgrees(m, rest, out, Perform(m, k, s), Perform(m, k, t));
      }
    }
  }

  /** Two stores that agree on what an edge (or the function entry) needs give runs with the same
      path, the same side effects on the same operands, the same ending and result. */
  lemma {:induction false} RunsAgree(m: Machine, blocks: seq<Block>, liveIn: LiveSets, b: BlockId,
      from: Option<BlockId>, s: State, t: State, n: nat)
    requires WellFormed(blocks) && Solves(blocks, liveIn) && s.mem == t.mem
    requires Find(blocks, b).Some? ==> AgreeOn(s.env, t.env, Needed(liveIn, from, Find(blocks, b).value))
    ensures Run(m, blocks, b, from, s, n) == Run(m, blocks, b, from, t, n)
    decreases n
  {
    if n > 0 && Find(blocks, b).Some? {
      var block := Find(blocks, b).value;
      var out := Out(blocks, liveIn, block);
      EntryAgrees(blocks, liveIn, block, from, s.env, t.env);
      hide Exec, BindPhis, BeforeAll, Out, Needed, Solves, WellTerminated, UniqueIds;
      ExecAgrees(m, block.insts, out, s.(env := BindPhis(block.insts, from, s.env, s.env)),
        t.(env := BindPhis(block.insts, from, t.env, t.env)));
      var x, y := RunBlock(m, block, from, s), RunBlock(m, block, from, t);
      if x.exit.Goto? {
        var c := x.exit.target;
        if Find(blocks, c).Some? {
          ExitIsSuccessor(m, block, s.(env := BindPhis(block.insts, from, s.env, s.env)));
          NeededIsOut(blocks, liveIn, block, c);
        }
        RunsAgree(m, blocks, liveIn, c, Some(b), x.state, y.state, n - 1);
      }
    }
  }

  /** Once its phis are read, stores that agreed on what the edge needs agree on what the block needs. */
  lemma EntryAgrees(blocks: seq<Block>, liveIn: LiveSets, block: Block, from: Option<BlockId>, e: Store, f: Store)
    requires Solves(blocks, liveIn) && block in blocks && AgreeOn(e, f, Needed(liveIn, from, block))
    ensures forall v | v in BeforeAll(block.insts, Out(blocks, liveIn, block)) || v in PhiDefs(block.insts) ::
      Get(BindPhis(block.insts, from, e, e), v) == Get(BindPhis(block.insts, from, f, f), v)
  {
    hide BindPhis, BeforeAll, Out, Get;
    forall v | v in BeforeAll(block.insts, Out(blocks, liveIn, block)) || v in PhiDefs(block.insts)
      ensures Get(BindPhis(block.insts, from, e, e), v) == Get(BindPhis(block.insts, from, f, f), v)
    {
      assert liveIn[block.id] == In(blocks, liveIn, block);
      assert v !in PhiDefs(block.insts) ==> v in Needed(liveIn, from, block);
      BindPhisAgrees(block.insts, from, e, f, e, f, v);
    }
  }

  lemma NeededIsOut(blocks: seq<Block>, liveIn: LiveSets, block: Block, c: BlockId)
    requires Find(blocks, c).Some? && c in block.succs
    ensures forall v | v in Needed(liveIn, Some(block.id), Find(blocks, c).value) :: v in Out(blocks, liveIn, block)
  {
    forall v | v in Needed(liveIn, Some(block.id), Find(blocks, c).value)
      ensures v in Out(blocks, liveIn, block)
    {
      InOutOver(blocks, liveIn, block.id, block.succs, v);
      assert v in AcrossEdgeTo(blocks, liveIn, block.id, c);
    }
  }

  lemma ExitIsSuccessor(m: Machine, block: Block, s: State)
    requires WellTerminated(block) && Exec(m, block.insts, s).exit.Goto?
    ensures Exec(m, block.insts, s).exit.target in block.succs
  {
    ExecTarget(m, block.insts, s);
  }

  /** Stores that agree on a block's live-out set continue identically along every edge out of it. */
  lemma LiveOutSuffices(m: Machine, blocks: seq<Block>, liveIn: LiveSets, block: Block, c: BlockId, s: State, t: State,
      n: nat)
    requires WellFormed(blocks) && Solves(blocks, liveIn) && s.mem == t.mem && block in blocks && c in block.succs
    requires AgreeOn(s.env, t.env, Out(blocks, liveIn, block))
    ensures Run(m, blocks, c, Some(block.id), s, n) == Run(m, blocks, c, Some(block.id), t, n)
  {
    if Find(blocks, c).Some? {
      NeededIsOut(blocks, liveIn, block, c);
    }
    RunsAgree(m, blocks, liveIn, c, Some(block.id), s, t, n);
  }

  // ----- where the recorded successors are not the terminator's targets -----

  /** A loop on `a and b`: the branch stands where the short-circuit ends, in block 1, and its targets are
      recorded as successors of the header, block 0. */
  const SHORT_CIRCUIT: seq<Block> := [
    Block(0, [Jump(1)], [], [1, 2, 3]),
    Block(1, [Branch(0, 2, 3)], [0], []),
    Block(2, [Effect(None, "use", [5]), Return(None)], [0], []),
    Block(3, [Return(None)], [0], [])]

  /** There liveness misses what the branch's targets use: every solution leaves value 5 out of what is
      live in block 1, and a run from there shows it. */
  lemma UnrecordedTargetIsMissed(m: Machine, liveIn: LiveSets, mem: Memory)
    requires Solves(SHORT_CIRCUIT, liveIn)
    ensures liveIn[1] == {0} && !WellTerminated(SHORT_CIRCUIT[1])
    ensures var s, t := State(map[0 := Word(1), 5 := Word(0)], mem), State(map[0 := Word(1), 5 := Word(1)], mem);
      && AgreeOn(s.env, t.env, liveIn[1])
      && Run(m, SHORT_CIRCUIT, 1, None, s, 2) != Run(m, SHORT_CIRCUIT, 1, None, t, 2)
  {
    OnlyTheCondition(liveIn);
    BranchUnrecorded();
    hide Run, Solves, WellTerminated;
    var s, t := State(map[0 := Word(1), 5 := Word(0)], mem), State(map[0 := Word(1), 5 := Word(1)], mem);
    ShowsFive(m, s);
    ShowsFive(m, t);
    var x, y := [Event("use", [Word(0)])], [Event("use", [Word(1)])];
    assert x[0].args[0] != y[0].args[0];
  }

  lemma BranchUnrecorded()
    ensures !WellTerminated(SHORT_CIRCUIT[1])
  {
    assert Branch(0, 2, 3) in SHORT_CIRCUIT[1].insts && 2 in Targets(Branch(0, 2, 3));
  }

  lemma OnlyTheCondition(liveIn: LiveSets)
    requires Solves(SHORT_CIRCUIT, liveIn)
    ensures 1 in liveIn && liveIn[1] == {0}
  {
    var block := SHORT_CIRCUIT[1];
    assert block in SHORT_CIRCUIT;
    assert Out(SHORT_CIRCUIT, liveIn, block) == {};
    assert block.insts[1..] == [];
    assert BeforeAll(block.insts, {}) == Before(Branch(0, 2, 3), {});
    assert GetUses(Branch(0, 2, 3)) == [0];
  }

  lemma ShowsFive(m: Machine, s: State)
    requires Get(s.env, 0) == Word(1)
    ensures Run(m, SHORT_CIRCUIT, 1, None, s, 2).trace == [Event("use", [Get(s.env, 5)])]
  {
    var b, c := SHORT_CIRCUIT[1], SHORT_CIRCUIT[2];
    assert SHORT_CIRCUIT[1..][0] == b && SHORT_CIRCUIT[1..][1..][0] == c;
    assert Find(SHORT_CIRCUIT, 1) == Some(b) && Find(SHORT_CIRCUIT, 2) == Some(c);
    BranchStep(m, b, s);
    UseStep(m, c, Some(1), s);
    hide RunBlock, Find;
    assert Run(m, SHORT_CIRCUIT, 2, Some(1), s, 1).trace == [Event("use", [Get(s.env, 5)])];
    assert [] + [Event("use", [Get(s.env, 5)])] == [Event("use", [Get(s.env, 5)])];
  }

  lemma BranchStep(m: Machine, b: Block, s: State)
    requires b.insts == [Branch(0, 2, 3)] && Get(s.env, 0) == Word(1)
    ensures RunBlock(m, b, None, s) == Step(s, [], Goto(2))
  {
    assert BindPhis(b.insts, None, s.env, s.env) == s.env;
  }

  lemma UseStep(m: Machine, c: Block, from: Option<BlockId>, s: State)
    requires c.insts == [Effect(None, "use", [5]), Return(None)]
    ensures RunBlock(m, c, from, s).trace == [Event("use", [Get(s.env, 5)])] && !RunBlock(m, c, from, s).exit.Goto?
  {
    RunTwo(m, c, Effect(None, "use", [5]), Return(None), from, s);
    assert GetAll(s.env, [5]) == [Get(s.env, 5)];
  }
}
