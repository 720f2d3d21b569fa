/** Every run of a function without cycles satisfies the verifier's conditions. */
module RunConditions {
  import opened Arithmetic
  import opened IR
  import opened Cfg
  import opened Reachability
  import opened Semantics
  import opened StrictSsa
  import opened Conditions
  import opened Translation
  import opened ConditionMeaning
  import L = LoopEquality

  // ----- paths of runs -----

  ghost predicate Distinct(p: seq<BlockId>) {
    forall i, j | 0 <= i < j < |p| :: p[i] != p[j]
  }

  ghost predicate StepsTo(blocks: seq<Block>, p: seq<BlockId>, i: nat)
    requires 1 <= i < |p|
  {
    (p[i - 1], p[i]) in KnownEdges(blocks)
  }

  ghost predicate EdgesOfPath(blocks: seq<Block>, p: seq<BlockId>) {
    forall i | 1 <= i < |p| :: StepsTo(blocks, p, i)
  }

  lemma {:induction false} ExecEnds(m: Machine, insts: seq<Kind>, s: State)
    requires forall i | 0 <= i < |insts| - 1 :: !IsTerminator(insts[i])
    ensures var x := Exec(m, insts, s);
      x.exit == if insts == []
        || !IsTerminator(insts[|insts| - 1]) then FallsOff else Leave(insts[|insts| - 1], x.state.env)
  {
    if insts != [] && !IsTerminator(insts[0]) {
      ExecEnds(m, insts[1..], Perform(m, insts[0], s));
    }
  }

  lemma StepEnds(m: Machine, block: Block, from: Option<BlockId>, s: State)
    requires WellTerminated(block)
    ensures RunBlock(m, block, from, s).exit == ExitOf(block, RunBlock(m, block, from, s).state.env)
  {
    ExecEnds(m, block.insts, s.(env := BindPhis(block.insts, from, s.env, s.env)));
  }

  lemma FoundIn(blocks: seq<Block>, b: BlockId)
    requires WellFormed(blocks) && Find(blocks, b).Some?
    ensures var block := Find(blocks, b).value; block in blocks && block.id == b && WellTerminated(block)
  {
  }

  /** The last block of a path a run follows, its store there and how it leaves. */
  lemma LastStep(m: Machine, blocks: seq<Block>, p: seq<BlockId>, s0: State)
    requires WellFormed(blocks) && StepAt(m, blocks, p, s0).Some?
    ensures Find(blocks, p[|p| - 1]).Some?
    ensures var step := StepAt(m, blocks, p, s0).value;
      step.exit == ExitOf(Find(blocks, p[|p| - 1]).value, step.state.env)
    ensures |p| > 1 ==>
      StepAt(m, blocks, p[..|p| - 1], s0).Some? && StepAt(m, blocks, p[..|p| - 1], s0).value.exit == Goto(p[|p| - 1])
  {
    var block := Find(blocks, p[|p| - 1]).value;
    FoundIn(blocks, p[|p| - 1]);
    if |p| == 1 {
      StepEnds(m, block, None, s0);
    } else {
      StepEnds(m, block, Some(p[|p| - 2]), StepAt(m, blocks, p[..|p| - 1], s0).value.state);
    }
  }

  lemma {:induction false} PrefixSteps(m: Machine, blocks: seq<Block>, p: seq<BlockId>, s0: State, n: nat)
    requires WellFormed(blocks) && StepAt(m, blocks, p, s0).Some? && 1 <= n <= |p|
    ensures StepAt(m, blocks, p[..n], s0).Some?
    ensures n < |p| ==> StepAt(m, blocks, p[..n], s0).value.exit == Goto(p[n])
    decreases |p|
  {
    LastStep(m, blocks, p, s0);
    if n == |p| {
      assert p[..n] == p;
    } else {
      PrefixSteps(m, blocks, p[..|p| - 1], s0, n);
      assert p[..|p| - 1][..n] == p[..n];
    }
  }

  lemma GotoIsKnown(blocks: seq<Block>, b: BlockId, env: Store, t: BlockId)
    requires WellFormed(blocks) && Find(blocks, b).Some? && ExitOf(Find(blocks, b).value, env) == Goto(t)
    ensures t in EdgeTargets(Find(blocks, b).value) && (b, t) in KnownEdges(blocks)
  {
    var block := Find(blocks, b).value;
    assert t in Targets(block.insts[|block.insts| - 1]);
    assert (block.id, t) in EdgesFrom(block);
  }

  lemma StepsUseEdges(m: Machine, blocks: seq<Block>, p: seq<BlockId>, s0: State)
    requires WellFormed(blocks) && StepAt(m, blocks, p, s0).Some?
    ensures EdgesOfPath(blocks, p)
  {
    forall i | 1 <= i < |p|
      ensures StepsTo(blocks, p, i)
    {
      hide KnownEdges, StepAt, ExitOf;
      PrefixSteps(m, blocks, p, s0, i);
      LastStep(m, blocks, p[..i], s0);
      GotoIsKnown(blocks, p[i - 1], StepAt(m, blocks, p[..i], s0).value.state.env, p[i]);
    }
  }

  lemma {:induction false} RanksGrow(blocks: seq<Block>, rank: BlockId -> nat, p: seq<BlockId>, i: nat, j: nat)
    requires Ranked(blocks, rank) && EdgesOfPath(blocks, p) && i < j < |p|
    ensures rank(p[i]) < rank(p[j])
    decreases j
  {
    assert StepsTo(blocks, p, j);
    if i < j - 1 {
      RanksGrow(blocks, rank, p, i, j - 1);
    }
  }

  lemma RankedIsDistinct(blocks: seq<Block>, rank: BlockId -> nat, p: seq<BlockId>)
    requires Ranked(blocks, rank) && EdgesOfPath(blocks, p)
    ensures Distinct(p)
  {
    forall i, j | 0 <= i < j < |p|
      ensures p[i] != p[j]
    {
      RanksGrow(blocks, rank, p, i, j);
    }
  }

  // ----- values do not change once defined -----

  /** v is a parameter or has been defined on path p. */
  ghost predicate Settled(blocks: seq<Block>, p: seq<BlockId>, v: Value) {
    Parameter(blocks, v) || exists d: BlockId :: d in p && DefinedIn(blocks, d, v)
  }

  lemma {:induction false} SettledKept(m: Machine, blocks: seq<Block>, p: seq<BlockId>, s0: State, n: nat, v: Value)
    requires WellFormed(blocks) && UniqueDefinitions(blocks) && Distinct(p)
    requires StepAt(m, blocks, p, s0).Some? && 1 <= n <= |p| && Settled(blocks, p[..n], v)
    ensures StepAt(m, blocks, p[..n], s0).Some?
    ensures Get(StepAt(m, blocks, p, s0).value.state.env, v) == Get(StepAt(m, blocks, p[..n], s0).value.state.env, v)
    decreases |p|
  {
    PrefixSteps(m, blocks, p, s0, n);
    if n == |p| {
      assert p[..n] == p;
    } else {
      var q := p[..|p| - 1];
      LastStep(m, blocks, p, s0);
      assert q[..n] == p[..n];
      SettledKept(m, blocks, q, s0, n, v);
      NotDefinedLater(blocks, p, n, v);
      var block := Find(blocks, p[|p| - 1]).value;
      StepKeepsValue(m, block, Some(p[|p| - 2]), StepAt(m, blocks, q, s0).value.state, v);
    }
  }

  lemma NotDefinedLater(blocks: seq<Block>, p: seq<BlockId>, n: nat, v: Value)
    requires UniqueDefinitions(blocks) && Distinct(p) && n < |p| && Settled(blocks, p[..n], v)
    requires Find(blocks, p[|p| - 1]).Some?
    ensures !Defines(Find(blocks, p[|p| - 1]).value.insts, v)
  {
    var c := p[|p| - 1];
    if Defines(Find(blocks, c).value.insts, v) {
      assert DefinedIn(blocks, c, v);
    }
  }

  lemma UseSettled(blocks: seq<Block>, entry: BlockId, p: seq<BlockId>, i: nat, v: Value)
    requires Strict(blocks, entry) && p != [] && Walk(SuccEdges(blocks), entry, p, p[|p| - 1])
      && Find(blocks, p[|p| - 1]).Some?
    requires i < |Find(blocks, p[|p| - 1]).value.insts| && v in GetUses(Find(blocks, p[|p| - 1]).value.insts[i])
    ensures Settled(blocks, p, v)
  {
    var block := Find(blocks, p[|p| - 1]).value;
    assert AvailableAt(blocks, entry, block, i, v);
    if j :| 0 <= j < i && GetDef(block.insts[j]) == Some(v) {
      assert DefinedIn(blocks, p[|p| - 1], v);
    }
  }

  lemma EdgeUseSettled(blocks: seq<Block>, entry: BlockId, p: seq<BlockId>, b: BlockId, k: Kind)
    requires Strict(blocks, entry) && p != [] && Walk(SuccEdges(blocks), entry, p, p[|p| - 1]) && Find(blocks, b).Some?
    requires k in Find(blocks, b).value.insts && k.Phi? && p[|p| - 1] in k.mappings
      && (p[|p| - 1], b) in SuccEdges(blocks)
    ensures Settled(blocks, p, k.mappings[p[|p| - 1]])
  {
  }

  lemma DefSettled(blocks: seq<Block>, p: seq<BlockId>, k: Kind)
    requires p != [] && Find(blocks, p[|p| - 1]).Some? && k in Find(blocks, p[|p| - 1]).value.insts && GetDef(k).Some?
    ensures Settled(blocks, p, GetDef(k).value)
  {
    var insts := Find(blocks, p[|p| - 1]).value.insts;
    var i :| 0 <= i < |insts| && insts[i] == k;
    assert GetDef(insts[i]) == Some(GetDef(k).value);
    assert DefinedIn(blocks, p[|p| - 1], GetDef(k).value);
  }

  // ----- a run solves the conditions -----

  /** The store solves what the instructions of the last block of p demand. */
  ghost predicate SolvedAt(m: Machine, blocks: seq<Block>, p: seq<BlockId>, env: Store, mem: Memory)
    requires p != []
  {
    var c := p[|p| - 1];
    && Find(blocks, c).Some?
    && (forall k | k in Find(blocks, c).value.insts && MemoryFree(k) :: EquationHolds(m, k, State(env, mem)))
    && (|p| > 1 ==> forall k | k in Find(blocks, c).value.insts && k.Phi? && p[|p| - 2] in k.mappings ::
          Get(env, k.dest) == Get(env, k.mappings[p[|p| - 2]]))
  }

  /** At the end of a block the store solves the block's equations and its phis. */
  lemma StepSolves(m: Machine, blocks: seq<Block>, entry: BlockId, p: seq<BlockId>, s0: State)
    requires Strict(blocks, entry) && StepAt(m, blocks, p, s0).Some? && p[0] == entry && Distinct(p)
    ensures SolvedAt(m, blocks, p, StepAt(m, blocks, p, s0).value.state.env, s0.mem)
  {
    var c := p[|p| - 1];
    LastStep(m, blocks, p, s0);
    FoundIn(blocks, c);
    var block := Find(blocks, c).value;
    var q := p[..|p| - 1];
    var from := if |p| == 1 then None else Some(p[|p| - 2]);
    var s := if |p| == 1 then s0 else StepAt(m, blocks, q, s0).value.state;
    var t := StepAt(m, blocks, p, s0).value.state;
    forall k | k in block.insts && MemoryFree(k)
      ensures EquationHolds(m, k, State(t.env, s0.mem))
    {
      var i :| 0 <= i < |block.insts| && block.insts[i] == k;
      EstablishedInBlock(m, blocks, entry, block, i, s.(env := BindPhis(block.insts, from, s.env, s.env)));
      ComputeIgnoresMemory(m, k, t.env, t.mem, s0.mem);
    }
    if |p| > 1 {
      forall k | k in block.insts && k.Phi? && p[|p| - 2] in k.mappings
        ensures Get(t.env, k.dest) == Get(t.env, k.mappings[p[|p| - 2]])
      {
        PhiSolved(m, blocks, entry, p, s0, k);
      }
    }
  }

  lemma PhiSolved(m: Machine, blocks: seq<Block>, entry: BlockId, p: seq<BlockId>, s0: State, k: Kind)
    requires Strict(blocks, entry) && StepAt(m, blocks, p, s0).Some? && p[0] == entry && Distinct(p) && |p| > 1
    requires Find(blocks, p[|p| - 1]).Some? && k in Find(blocks, p[|p| - 1]).value.insts && k.Phi?
      && p[|p| - 2] in k.mappings
    ensures var env := StepAt(m, blocks, p, s0).value.state.env; Get(env, k.dest) == Get(env, k.mappings[p[|p| - 2]])
  {
    var q := p[..|p| - 1];
    LastStep(m, blocks, p, s0);
    StepsAreWalks(m, blocks, entry, p, s0);
    FoundIn(blocks, p[|p| - 1]);
    hide Strict;
    L.PhiAtEnd(m, blocks, entry, Find(blocks, p[|p| - 1]).value, Some(p[|p| - 2]), StepAt(m, blocks, q, s0).value.state,
      k.dest, k.mappings);
    EdgeUseSettled(blocks, entry, q, p[|p| - 1], k);
    StrictParts(blocks, entry);
    SettledKept(m, blocks, p, s0, |p| - 1, k.mappings[p[|p| - 2]]);
  }

  lemma StrictParts(blocks: seq<Block>, entry: BlockId)
    requires Strict(blocks, entry)
    ensures WellFormed(blocks) && UniqueDefinitions(blocks)
  {
  }

  /** Stores that agree on what is settled by p solve the same demands. */
  lemma SolvedMoves(m: Machine, blocks: seq<Block>, entry: BlockId, p: seq<BlockId>, e: Store, f: Store, mem: Memory)
    requires Strict(blocks, entry) && p != [] && Walk(SuccEdges(blocks), entry, p, p[|p| - 1])
    requires SolvedAt(m, blocks, p, e, mem)
    requires forall v | Settled(blocks, p, v) :: Get(e, v) == Get(f, v)
    ensures SolvedAt(m, blocks, p, f, mem)
      && ExitOf(Find(blocks, p[|p| - 1]).value, e) == ExitOf(Find(blocks, p[|p| - 1]).value, f)
  {
    var c := p[|p| - 1];
    var block := Find(blocks, c).value;
    forall k | k in block.insts
      ensures AgreeOnUses(e, f, k)
    {
      var i :| 0 <= i < |block.insts| && block.insts[i] == k;
      forall v | v in GetUses(k) {
        UseSettled(blocks, entry, p, i, v);
      }
    }
    forall k | k in block.insts && MemoryFree(k)
      ensures EquationHolds(m, k, State(f, mem))
    {
      DefSettled(blocks, p, k);
      EquationKept(m, k, State(e, mem), State(f, mem));
    }
    if |p| > 1 {
      forall k | k in block.insts && k.Phi? && p[|p| - 2] in k.mappings
        ensures Get(f, k.dest) == Get(f, k.mappings[p[|p| - 2]])
      {
        DefSettled(blocks, p, k);
        var q := p[..|p| - 1];
        assert Settled(blocks, q, k.mappings[p[|p| - 2]]) by {
          EdgeUseSettled(blocks, entry, q, c, k);
        }
        assert forall d | d in q :: d in p;
      }
    }
    if block.insts != [] {
      var last := block.insts[|block.insts| - 1];
      assert last in block.insts;
      LeaveAgrees(last, e, f);
    }
  }

  /** After a run along p the final store solves the demands of all its blocks and leaves each of them
      the way the run did. */
  lemma RunSolves(m: Machine, blocks: seq<Block>, entry: BlockId, p: seq<BlockId>, s0: State, n: nat)
    requires Strict(blocks, entry) && StepAt(m, blocks, p, s0).Some? && p[0] == entry && Distinct(p) && 1 <= n <= |p|
    ensures var env := StepAt(m, blocks, p, s0).value.state.env;
      && SolvedAt(m, blocks, p[..n], env, s0.mem)
      && ExitOf(Find(blocks, p[n - 1]).value, env)
        == (if n < |p| then Goto(p[n]) else StepAt(m, blocks, p, s0).value.exit)
  {
    hide Strict, StepAt, ExitOf, SolvedAt, Settled, WellFormed, UniqueDefinitions, Find, IsPath, SuccEdges;
    var q := p[..n];
    StrictParts(blocks, entry);
    PrefixSteps(m, blocks, p, s0, n);
    LastStep(m, blocks, q, s0);
    StepsAreWalks(m, blocks, entry, q, s0);
    assert n == |p| ==> q == p;
    StepSolves(m, blocks, entry, q, s0);
    var e, f := StepAt(m, blocks, q, s0).value.state.env, StepAt(m, blocks, p, s0).value.state.env;
    forall v | Settled(blocks, q, v)
      ensures Get(e, v) == Get(f, v)
    {
      SettledKept(m, blocks, p, s0, n, v);
    }
    SolvedMoves(m, blocks, entry, q, e, f, s0.mem);
  }

  // ----- the assignment of a run -----

  /** Values the run never computed get an arbitrary value of their sort. */
  function Completed(sorts: Sorts, env: Store): Store {
    map v | v in sorts.words + sorts.floats + env.Keys ::
      if v in env then env[v] else if v in sorts.words then Word(0) else Float(0.0)
  }

  function PairAt(p: seq<BlockId>, i: nat): (BlockId, BlockId)
    requires i < |p| - 1
  {
    (p[i], p[i + 1])
  }

  function PathEdges(p: seq<BlockId>): set<(BlockId, BlockId)> {
    set i | 0 <= i < |p| - 1 :: PairAt(p, i)
  }

  /** The blocks and edges of the path are on, all others off. */
  function OnPath(p: seq<BlockId>, env: Store): Assignment {
    Assignment((set b | b in p), PathEdges(p), env)
  }

  function AssignmentOf(sorts: Sorts, p: seq<BlockId>, env: Store): Assignment {
    OnPath(p, Completed(sorts, env))
  }

  /** The values a run starts from and computes have the sorts the verifier gives them. */
  ghost predicate RunTyped(sorts: Sorts, blocks: seq<Block>, s0: State, env: Store) {
    && (forall v | v in sorts.words && v in env :: env[v].Word? && env[v].bits < Pow2(sorts.width(v)))
    && (forall v | v in sorts.floats && v in env :: env[v].Float?)
    && (forall v | v in sorts.words + sorts.floats && Parameter(blocks, v) :: v in s0.env)
  }

  lemma {:induction false} StoreGrows(m: Machine, blocks: seq<Block>, p: seq<BlockId>, s0: State, v: Value)
    requires WellFormed(blocks) && StepAt(m, blocks, p, s0).Some? && v in s0.env
    ensures v in StepAt(m, blocks, p, s0).value.state.env
    decreases |p|
  {
    LastStep(m, blocks, p, s0);
    FoundIn(blocks, p[|p| - 1]);
    var block := Find(blocks, p[|p| - 1]).value;
    if |p| == 1 {
      StepKeys(m, block, None, s0, v);
    } else {
      StoreGrows(m, blocks, p[..|p| - 1], s0, v);
      StepKeys(m, block, Some(p[|p| - 2]), StepAt(m, blocks, p[..|p| - 1], s0).value.state, v);
    }
  }

  /** Completion changes nothing the run could look at. */
  lemma CompletedAgrees(m: Machine, sorts: Sorts, blocks: seq<Block>, p: seq<BlockId>, s0: State, v: Value)
    requires WellFormed(blocks) && StepAt(m, blocks, p, s0).Some? && Settled(blocks, p, v)
    requires RunTyped(sorts, blocks, s0, StepAt(m, blocks, p, s0).value.state.env)
    ensures var env := StepAt(m, blocks, p, s0).value.state.env; Get(Completed(sorts, env), v) == Get(env, v)
  {
    var env := StepAt(m, blocks, p, s0).value.state.env;
    if Parameter(blocks, v) {
      if v in sorts.words + sorts.floats {
        StoreGrows(m, blocks, p, s0, v);
      }
    } else {
      var d: BlockId :| d in p && DefinedIn(blocks, d, v);
      DefinedAfter(m, blocks, p, s0, d, v);
    }
  }

  /** The store solves the demands of every block of p, and each block leaves for the next one. */
  ghost predicate Follows(m: Machine, blocks: seq<Block>, p: seq<BlockId>, env: Store, mem: Memory) {
    forall n | 1 <= n <= |p| :: SolvedAt(m, blocks, p[..n], env, mem) && LeavesFor(blocks, p, n, env)
  }

  ghost predicate LeavesFor(blocks: seq<Block>, p: seq<BlockId>, n: nat, env: Store)
    requires 1 <= n <= |p| && Find(blocks, p[n - 1]).Some?
  {
    var x := ExitOf(Find(blocks, p[n - 1]).value, env);
    if n < |p| then x == Goto(p[n]) else !x.Goto?
  }

  lemma FollowsAt(m: Machine, blocks: seq<Block>, p: seq<BlockId>, env: Store, mem: Memory, block: Block)
      returns (i: nat)
    requires UniqueIds(blocks) && Follows(m, blocks, p, env, mem) && block in blocks && block.id in p
    ensures i < |p| && p[i] == block.id && Find(blocks, p[i]) == Some(block)
    ensures SolvedAt(m, blocks, p[..i + 1], env, mem) && LeavesFor(blocks, p, i + 1, env)
  {
    i :| 0 <= i < |p| && p[i] == block.id;
    var n :| 0 <= n < |blocks| && blocks[n] == block;
    FindAt(blocks, n);
    assert SolvedAt(m, blocks, p[..i + 1], env, mem) && LeavesFor(blocks, p, i + 1, env);
  }

  lemma PathEdgesFollow(m: Machine, blocks: seq<Block>, p: seq<BlockId>, env: Store, mem: Memory, block: Block)
    requires UniqueIds(blocks) && Distinct(p) && Follows(m, blocks, p, env, mem) && block in blocks
    ensures EdgesFollow(block, OnPath(p, env))
  {
    hide SolvedAt;
    forall t | t in EdgeTargets(block)
      ensures (block.id, t) in PathEdges(p) <==> block.id in p && ExitOf(block, env) == Goto(t)
    {
      if (block.id, t) in PathEdges(p) {
        var j :| 0 <= j < |p| - 1 && PairAt(p, j) == (block.id, t);
        var i := FollowsAt(m, blocks, p, env, mem, block);
        assert i == j;
      } else if block.id in p {
        var i := FollowsAt(m, blocks, p, env, mem, block);
        assert i < |p| - 1 ==> PairAt(p, i) in PathEdges(p);
      }
    }
  }

  lemma PathBlocksFollow(blocks: seq<Block>, p: seq<BlockId>, env: Store, b: BlockId)
    requires p != [] && EdgesOfPath(blocks, p)
    ensures BlockFollows(blocks, p[0], b, OnPath(p, env))
  {
    if b in p && b != p[0] {
      var i :| 0 <= i < |p| && p[i] == b;
      assert StepsTo(blocks, p, i) && PairAt(p, i - 1) == (p[i - 1], b);
    }
    if x: BlockId :| (x, b) in KnownEdges(blocks) && (x, b) in PathEdges(p) {
      var i :| 0 <= i < |p| - 1 && PairAt(p, i) == (x, b);
      assert p[i + 1] == b;
    }
  }

  lemma PathInstructionFollows(m: Machine, sorts: Sorts, blocks: seq<Block>, p: seq<BlockId>, env: Store, mem: Memory,
      block: Block, k: Kind)
    requires UniqueIds(blocks) && Distinct(p) && Follows(m, blocks, p, env, mem) && block in blocks && k in block.insts
    ensures var a := OnPath(p, env); PhiFollows(block.id, k, a) && EquationFollows(m, sorts, block.id, k, a, mem)
  {
    if block.id in p {
      var i := FollowsAt(m, blocks, p, env, mem, block);
      assert Definition(sorts, k).Some? ==> MemoryFree(k);
      if k.Phi? {
        forall x | x in k.mappings && (x, block.id) in PathEdges(p)
          ensures Get(env, k.dest) == Get(env, k.mappings[x])
        {
          var j :| 0 <= j < |p| - 1 && PairAt(p, j) == (x, block.id);
          assert j + 1 == i;
        }
      }
    } else {
      forall x | k.Phi? && x in k.mappings
        ensures (x, block.id) !in PathEdges(p)
      {
        EdgeEndsOnPath(p, x, block.id);
      }
    }
  }

  lemma EdgeEndsOnPath(p: seq<BlockId>, x: BlockId, b: BlockId)
    ensures (x, b) in PathEdges(p) ==> b in p
  {
  }

  lemma PathIsCoherent(m: Machine, sorts: Sorts, blocks: seq<Block>, p: seq<BlockId>, env: Store, mem: Memory)
    requires UniqueIds(blocks) && p != [] && Distinct(p) && EdgesOfPath(blocks, p) && Follows(m, blocks, p, env, mem)
    ensures Coherent(m, sorts, blocks, p[0], OnPath(p, env), mem)
  {
    forall block | block in blocks
      ensures BlockFollows(blocks, p[0], block.id, OnPath(p, env)) && EdgesFollow(block, OnPath(p, env))
    {
      PathBlocksFollow(blocks, p, env, block.id);
      PathEdgesFollow(m, blocks, p, env, mem, block);
    }
    forall block, k | block in blocks && k in block.insts {
      PathInstructionFollows(m, sorts, blocks, p, env, mem, block, k);
    }
  }

  /** The completed store solves the demands of every block of the run and leaves each the way the run did. */
  lemma CompletedSolves(m: Machine, sorts: Sorts, blocks: seq<Block>, entry: BlockId, p: seq<BlockId>, s0: State,
      n: nat)
    requires Strict(blocks, entry) && Distinct(p) && StepAt(m, blocks, p, s0).Some? && p[0] == entry && 1 <= n <= |p|
    requires RunTyped(sorts, blocks, s0, StepAt(m, blocks, p, s0).value.state.env)
    ensures var step := StepAt(m, blocks, p, s0).value; var full := Completed(sorts, step.state.env);
      && SolvedAt(m, blocks, p[..n], full, s0.mem) && Find(blocks, p[n - 1]).Some?
      && ExitOf(Find(blocks, p[n - 1]).value, full) == if n < |p| then Goto(p[n]) else step.exit
  {
    hide Strict, WellFormed, UniqueDefinitions, Completed, RunTyped, ExitOf, SolvedAt, StepAt, Settled, Distinct, Find;
    var env := StepAt(m, blocks, p, s0).value.state.env;
    var full := Completed(sorts, env);
    var q := p[..n];
    StrictParts(blocks, entry);
    RunSolves(m, blocks, entry, p, s0, n);
    PrefixSteps(m, blocks, p, s0, n);
    StepsAreWalks(m, blocks, entry, q, s0);
    forall v | Settled(blocks, q, v)
      ensures Get(env, v) == Get(full, v)
    {
      SettledLater(blocks, p, n, v);
      CompletedAgrees(m, sorts, blocks, p, s0, v);
    }
    SolvedMoves(m, blocks, entry, q, env, full, s0.mem);
    FoundLast(m, blocks, q, env, s0.mem);
  }

  lemma CompletedFollows(m: Machine, sorts: Sorts, blocks: seq<Block>, entry: BlockId, p: seq<BlockId>, s0: State)
    requires Strict(blocks, entry) && Distinct(p) && StepAt(m, blocks, p, s0).Some? && p[0] == entry
    requires !StepAt(m, blocks, p, s0).value.exit.Goto?
      && RunTyped(sorts, blocks, s0, StepAt(m, blocks, p, s0).value.state.env)
    ensures Follows(m, blocks, p, Completed(sorts, StepAt(m, blocks, p, s0).value.state.env), s0.mem)
  {
    hide Strict, Completed, RunTyped, ExitOf, StepAt, Distinct, SolvedAt;
    var full := Completed(sorts, StepAt(m, blocks, p, s0).value.state.env);
    forall n | 1 <= n <= |p|
      ensures Find(blocks, p[n - 1]).Some? && SolvedAt(m, blocks, p[..n], full, s0.mem)
        && LeavesFor(blocks, p, n, full)
    {
      CompletedSolves(m, sorts, blocks, entry, p, s0, n);
    }
  }

  lemma FoundLast(m: Machine, blocks: seq<Block>, q: seq<BlockId>, env: Store, mem: Memory)
    requires q != [] && SolvedAt(m, blocks, q, env, mem)
    ensures Find(blocks, q[|q| - 1]).Some?
  {
  }

  lemma SettledLater(blocks: seq<Block>, p: seq<BlockId>, n: nat, v: Value)
    requires n <= |p| && Settled(blocks, p[..n], v)
    ensures Settled(blocks, p, v)
  {
  }

  /** Every branch condition the run evaluates is zero or one. */
  ghost predicate TestsBooleans(blocks: seq<Block>, p: seq<BlockId>, env: Store) {
    forall block | block in blocks && block.id in p :: BlockTests(block, env)
  }

  /** What the instructions of the block at position n use is settled on the run. */
  lemma UseOnPath(m: Machine, blocks: seq<Block>, entry: BlockId, p: seq<BlockId>, s0: State, n: nat, k: Kind, v: Value)
    requires Strict(blocks, entry) && StepAt(m, blocks, p, s0).Some? && p[0] == entry && n < |p|
    requires Find(blocks, p[n]).Some? && k in Find(blocks, p[n]).value.insts && v in GetUses(k)
    ensures Settled(blocks, p, v)
  {
    hide Strict, StepAt, Settled, WellFormed, UniqueDefinitions, Find;
    StrictParts(blocks, entry);
    PrefixSteps(m, blocks, p, s0, n + 1);
    StepsAreWalks(m, blocks, entry, p[..n + 1], s0);
    var block := Find(blocks, p[n]).value;
    var i :| 0 <= i < |block.insts| && block.insts[i] == k;
    UseSettled(blocks, entry, p[..n + 1], i, v);
    SettledLater(blocks, p, n + 1, v);
  }

  lemma Located(blocks: seq<Block>, p: seq<BlockId>, block: Block) returns (n: nat)
    requires UniqueIds(blocks) && block in blocks && block.id in p
    ensures n < |p| && p[n] == block.id && Find(blocks, p[n]) == Some(block)
  {
    n :| 0 <= n < |p| && p[n] == block.id;
    var l :| 0 <= l < |blocks| && blocks[l] == block;
    FindAt(blocks, l);
  }

  /** Completion keeps the conditions the run evaluated. */
  lemma CompletedTests(m: Machine, sorts: Sorts, blocks: seq<Block>, entry: BlockId, p: seq<BlockId>, s0: State,
      block: Block)
    requires Strict(blocks, entry) && StepAt(m, blocks, p, s0).Some? && p[0] == entry && block in blocks
      && block.id in p
    requires RunTyped(sorts, blocks, s0, StepAt(m, blocks, p, s0).value.state.env)
    ensures var env := StepAt(m, blocks, p, s0).value.state.env;
      BlockTests(block, env) <==> BlockTests(block, Completed(sorts, env))
  {
    hide Completed, Strict, RunTyped, StepAt, Settled, UniqueDefinitions, Find;
    var env := StepAt(m, blocks, p, s0).value.state.env;
    StrictParts(blocks, entry);
    var n := Located(blocks, p, block);
    hide WellFormed;
    forall k | k in block.insts
      ensures BooleanTest(k, env) <==> BooleanTest(k, Completed(sorts, env))
    {
      if k.Branch? {
        assert k.cond in GetUses(k);
        UseOnPath(m, blocks, entry, p, s0, n, k, k.cond);
        CompletedAgrees(m, sorts, blocks, p, s0, k.cond);
      }
    }
  }

  lemma TestsCompleted(m: Machine, sorts: Sorts, blocks: seq<Block>, entry: BlockId, p: seq<BlockId>, s0: State)
    requires Strict(blocks, entry) && StepAt(m, blocks, p, s0).Some? && p[0] == entry
    requires RunTyped(sorts, blocks, s0, StepAt(m, blocks, p, s0).value.state.env)
    ensures var env := StepAt(m, blocks, p, s0).value.state.env;
      TestsBooleans(blocks, p, env) <==> BooleanTests(blocks, AssignmentOf(sorts, p, env))
  {
    var env := StepAt(m, blocks, p, s0).value.state.env;
    hide Strict, StepAt, RunTyped, Completed, BlockTests;
    forall block | block in blocks && block.id in p
      ensures BlockTests(block, env) <==> BlockTests(block, Completed(sorts, env))
    {
      CompletedTests(m, sorts, blocks, entry, p, s0, block);
    }
  }

  /** A run that comes to its end satisfies all conditions exactly when every branch condition it
      evaluates is zero or one: then the blocks and edges it took are on, all others off, and every
      constant has the value the run computed. */
  lemma RunSatisfiesConditions(m: Machine, sorts: Sorts, blocks: seq<Block>, entry: BlockId, rank: BlockId -> nat,
      succs: Successors, p: seq<BlockId>, s0: State)
    requires Strict(blocks, entry) && WellTyped(sorts, blocks) && PhisTotal(blocks) && Ranked(blocks, rank)
    requires Represents(succs, blocks) && m.width == sorts.width
    requires StepAt(m, blocks, p, s0).Some? && p[0] == entry && !StepAt(m, blocks, p, s0).value.exit.Goto?
    requires RunTyped(sorts, blocks, s0, StepAt(m, blocks, p, s0).value.state.env)
    ensures var env := StepAt(m, blocks, p, s0).value.state.env; var a := AssignmentOf(sorts, p, env);
      && (Satisfies(sorts, a, Encoding(sorts, blocks, entry, succs)) <==> TestsBooleans(blocks, p, env))
      && Coherent(m, sorts, blocks, entry, a, s0.mem) && WellSorted(sorts, a.env)
      && forall v | Settled(blocks, p, v) :: Get(a.env, v) == Get(env, v)
  {
    var env := StepAt(m, blocks, p, s0).value.state.env;
    StepsUseEdges(m, blocks, p, s0);
    RankedIsDistinct(blocks, rank, p);
    CompletedFollows(m, sorts, blocks, entry, p, s0);
    PathIsCoherent(m, sorts, blocks, p, Completed(sorts, env), s0.mem);
    CompletedIsSorted(sorts, blocks, s0, env);
    TestsCompleted(m, sorts, blocks, entry, p, s0);
    forall v | Settled(blocks, p, v) {
      CompletedAgrees(m, sorts, blocks, p, s0, v);
    }
    hide RunTyped, Follows, Completed, Coherent, TestsBooleans, BooleanTests;
    EncodingMeans(m, sorts, blocks, entry, rank, succs, AssignmentOf(sorts, p, env), s0.mem);
  }

  lemma CompletedIsSorted(sorts: Sorts, blocks: seq<Block>, s0: State, env: Store)
    requires RunTyped(sorts, blocks, s0, env) && sorts.words !! sorts.floats
    ensures WellSorted(sorts, Completed(sorts, env))
  {
  }
}