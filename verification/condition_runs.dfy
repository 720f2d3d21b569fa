/** Every assignment that satisfies the verifier's conditions of a function without cycles is a run,
    once the instructions the verifier leaves open answer what the assignment says. */
module ConditionRuns {
  import opened IR
  import opened Cfg
  import opened Reachability
  import opened Semantics
  import opened StrictSsa
  import opened Conditions
  import opened Translation
  import opened ConditionMeaning
  import opened RunConditions
  import L = LoopEquality

  // ----- open instructions -----

  /** A name that identifies the value asked for. */
  function Label(v: Value): string {
    seq(v, i => 'v')
  }

  /** An instruction the verifier has no equation for answers anything: it asks for its own result. */
  function OpenInst(sorts: Sorts, k: Kind): Kind {
    if k.Phi? || IsTerminator(k) || Definition(sorts, k).Some? then k
    else if GetDef(k).Some? then Pure(GetDef(k).value, Label(GetDef(k).value), [])
    else Nop
  }

  function OpenInsts(sorts: Sorts, insts: seq<Kind>): (r: seq<Kind>)
    ensures |r| == |insts| && forall i | 0 <= i < |insts| :: r[i] == OpenInst(sorts, insts[i])
  {
    seq(|insts|, i requires 0 <= i < |insts| => OpenInst(sorts, insts[i]))
  }

  function OpenBlock(sorts: Sorts, block: Block): Block {
    block.(insts := OpenInsts(sorts, block.insts))
  }

  function Opened(sorts: Sorts, blocks: seq<Block>): (r: seq<Block>)
    ensures |r| == |blocks| && forall i | 0 <= i < |blocks| :: r[i] == OpenBlock(sorts, blocks[i])
  {
    seq(|blocks|, i requires 0 <= i < |blocks| => OpenBlock(sorts, blocks[i]))
  }

  /** The machine on which open instructions answer with the values of env. */
  function Answering(m: Machine, env: Store): Machine {
    m.(compute := (name: string, args: seq<Val>, mem: Memory) => Get(env, |name|))
  }

  /** The verifier sees no difference. */
  lemma OpenMeaning(sorts: Sorts, k: Kind)
    ensures GetDef(OpenInst(sorts, k)) == GetDef(k) && Definition(sorts, OpenInst(sorts, k)) == Definition(sorts, k)
    ensures k.Phi? || IsTerminator(k) ==> OpenInst(sorts, k) == k
    ensures (OpenInst(sorts, k).Phi? <==> k.Phi?) && (IsTerminator(OpenInst(sorts, k)) <==> IsTerminator(k))
  {
  }

  lemma {:induction false} FindOpened(sorts: Sorts, blocks: seq<Block>, b: BlockId)
    ensures Find(Opened(sorts, blocks), b)
      == if Find(blocks, b).Some? then Some(OpenBlock(sorts, Find(blocks, b).value)) else None
  {
    if blocks != [] && blocks[0].id != b {
      FindOpened(sorts, blocks[1..], b);
      assert Opened(sorts, blocks)[1..] == Opened(sorts, blocks[1..]);
    }
  }

  lemma OpenedWellFormed(sorts: Sorts, blocks: seq<Block>)
    requires WellFormed(blocks)
    ensures WellFormed(Opened(sorts, blocks))
  {
    forall block | block in Opened(sorts, blocks)
      ensures WellTerminated(block)
    {
      var i :| 0 <= i < |blocks| && block == OpenBlock(sorts, blocks[i]);
      OpenedTerminated(sorts, blocks[i]);
    }
  }

  lemma OpenedTerminated(sorts: Sorts, block: Block)
    requires WellTerminated(block)
    ensures WellTerminated(OpenBlock(sorts, block))
  {
  }

  lemma OpenedExit(sorts: Sorts, block: Block, env: Store)
    ensures ExitOf(OpenBlock(sorts, block), env) == ExitOf(block, env)
  {
  }

  // ----- one block -----

  /** Every use of an instruction is known beforehand or defined earlier in the list. */
  ghost predicate UsesKnown(insts: seq<Kind>, known: iset<Value>) {
    forall i, v | 0 <= i < |insts| && v in GetUses(insts[i]) && !insts[i].Phi? ::
      v in known || exists j | 0 <= j < i :: GetDef(insts[j]) == Some(v)
  }

  /** The store satisfies the equations of the interpreted instructions. */
  ghost predicate SolvesAll(m: Machine, sorts: Sorts, insts: seq<Kind>, env: Store, mem: Memory) {
    forall k | k in insts && Definition(sorts, k).Some? :: Get(env, GetDef(k).value) == Compute(m, k, env, mem)
  }

  /** One instruction of the opened function computes what env says. */
  lemma OpenPerforms(m: Machine, sorts: Sorts, k: Kind, s: State, env: Store, mem: Memory)
    requires !k.Phi? && !IsTerminator(k) && AgreeOnUses(env, s.env, k)
    requires Definition(sorts, k).Some? ==> Get(env, GetDef(k).value) == Compute(m, k, env, mem)
    ensures GetDef(k).Some? ==>
      Get(Perform(Answering(m, env), OpenInst(sorts, k), s).env, GetDef(k).value) == Get(env, GetDef(k).value)
    ensures forall v: Value | GetDef(k) != Some(v) ::
      Get(Perform(Answering(m, env), OpenInst(sorts, k), s).env, v) == Get(s.env, v)
  {
  }

  lemma {:induction false} OpenExec(m: Machine, sorts: Sorts, insts: seq<Kind>, known: iset<Value>, s: State,
      env: Store, mem: Memory)
    requires forall i | 0 <= i < |insts| - 1 :: !IsTerminator(insts[i])
    requires UsesKnown(insts, known) && SolvesAll(m, sorts, insts, env, mem)
    requires forall k | k in insts && k.Phi? :: k.dest in known
    requires forall v | v in known :: Get(s.env, v) == Get(env, v)
    ensures forall v: Value | v in known || Defines(insts, v) ::
      Get(Exec(Answering(m, env), OpenInsts(sorts, insts), s).state.env, v) == Get(env, v)
  {
    if insts != [] {
      var k, rest := insts[0], insts[1..];
      OpenMeaning(sorts, k);
      assert OpenInsts(sorts, insts)[1..] == OpenInsts(sorts, rest);
      assert insts == [k] + rest;
      if !IsTerminator(k) {
        OpenExecStep(m, sorts, insts, known, s, env, mem);
        var t := Perform(Answering(m, env), OpenInst(sorts, k), s);
        var more := known + (if GetDef(k).Some? then iset{GetDef(k).value} else iset{});
        OpenExec(m, sorts, rest, more, t, env, mem);
        forall v: Value | Defines(insts, v)
          ensures v in more || Defines(rest, v)
        {
          DefinesSplits(insts, v);
        }
      } else {
        forall v: Value | Defines(insts, v)
          ensures v in known
        {
          DefinesSplits(insts, v);
        }
      }
    }
  }

  lemma DefinesSplits(insts: seq<Kind>, v: Value)
    requires insts != [] && Defines(insts, v)
    ensures GetDef(insts[0]) == Some(v) || Defines(insts[1..], v)
  {
  }

  lemma OpenExecStep(m: Machine, sorts: Sorts, insts: seq<Kind>, known: iset<Value>, s: State, env: Store, mem: Memory)
    requires insts != [] && !IsTerminator(insts[0])
    requires UsesKnown(insts, known) && SolvesAll(m, sorts, insts, env, mem)
    requires forall k | k in insts && k.Phi? :: k.dest in known
    requires forall v | v in known :: Get(s.env, v) == Get(env, v)
    ensures var k, rest := insts[0], insts[1..];
      var more := known + (if GetDef(k).Some? then iset{GetDef(k).value} else iset{});
      var t := Perform(Answering(m, env), OpenInst(sorts, k), s);
      && UsesKnown(rest, more) && SolvesAll(m, sorts, rest, env, mem)
      && (forall v | v in more :: Get(t.env, v) == Get(env, v))
      && (forall j | j in rest && j.Phi? :: j.dest in more)
  {
    var k, rest := insts[0], insts[1..];
    var more := known + (if GetDef(k).Some? then iset{GetDef(k).value} else iset{});
    assert forall j | j in rest :: j in insts;
    assert k in insts;
    forall i, v | 0 <= i < |rest| && v in GetUses(rest[i]) && !rest[i].Phi?
      ensures v in more || exists j | 0 <= j < i :: GetDef(rest[j]) == Some(v)
    {
      assert rest[i] == insts[i + 1];
      if v !in known {
        var j :| 0 <= j < i + 1 && GetDef(insts[j]) == Some(v);
        if j > 0 {
          assert GetDef(rest[j - 1]) == Some(v);
        }
      }
    }
    if !k.Phi? {
      assert AgreeOnUses(env, s.env, k) by {
        forall v | v in GetUses(k)
          ensures v in known
        {
          assert insts[0] == k;
        }
      }
      OpenPerforms(m, sorts, k, s, env, mem);
    } else {
      OpenMeaning(sorts, k);
    }
  }

  // ----- from an assignment to a run -----

  /** A function the verifier can be asked about: targets exist, nothing is joined at the entry. */
  ghost predicate Complete(blocks: seq<Block>, entry: BlockId) {
    && Find(blocks, entry).Some?
    && (forall k | k in Find(blocks, entry).value.insts :: !k.Phi?)
    && (forall e | e in KnownEdges(blocks) :: Find(blocks, e.1).Some?)
  }

  /** What is known when block c is entered after path q. */
  ghost function KnownIn(blocks: seq<Block>, q: seq<BlockId>, insts: seq<Kind>): iset<Value> {
    iset v: Value | Settled(blocks, q, v) || v in PhiDefs(insts)
  }

  lemma UsesKnownIn(blocks: seq<Block>, entry: BlockId, q: seq<BlockId>, c: BlockId)
    requires Strict(blocks, entry) && Find(blocks, c).Some? && Walk(SuccEdges(blocks), entry, q + [c], c)
    ensures UsesKnown(Find(blocks, c).value.insts, KnownIn(blocks, q, Find(blocks, c).value.insts))
  {
  }

  /** The operand of a phi on the edge that was taken is settled and has the phi's value. */
  lemma EdgeOperandAgrees(blocks: seq<Block>, entry: BlockId, q: seq<BlockId>, c: BlockId, s: State, a: Assignment,
      k: Kind)
    requires Strict(blocks, entry) && Complete(blocks, entry) && PhisTotal(blocks) && Find(blocks, c).Some?
    requires q == [] ==> c == entry
    requires q != [] ==>
      Walk(SuccEdges(blocks), entry, q, q[|q| - 1]) && (q[|q| - 1], c) in KnownEdges(blocks)
      && (q[|q| - 1], c) in a.edges
    requires k in Find(blocks, c).value.insts && k.Phi? && PhiFollows(c, k, a)
    requires forall u: Value | Settled(blocks, q, u) :: Get(s.env, u) == Get(a.env, u)
    ensures q != [] && q[|q| - 1] in k.mappings
    ensures Get(s.env, k.mappings[q[|q| - 1]]) == Get(a.env, k.dest)
  {
    FoundIn(blocks, c);
    assert q != [];
    assert q[|q| - 1] in k.mappings;
    KnownIsSucc(blocks, q[|q| - 1], c);
    EdgeUseSettled(blocks, entry, q, c, k);
  }

  lemma OpenPhis(sorts: Sorts, blocks: seq<Block>, entry: BlockId, q: seq<BlockId>, c: BlockId, s: State, a: Assignment,
      v: Value)
    requires Strict(blocks, entry) && Complete(blocks, entry) && PhisTotal(blocks) && Find(blocks, c).Some?
    requires q == [] ==> c == entry
    requires q != [] ==>
      Walk(SuccEdges(blocks), entry, q, q[|q| - 1]) && (q[|q| - 1], c) in KnownEdges(blocks)
      && (q[|q| - 1], c) in a.edges
    requires forall k | k in Find(blocks, c).value.insts :: PhiFollows(c, k, a)
    requires forall u: Value | Settled(blocks, q, u) :: Get(s.env, u) == Get(a.env, u)
    requires v in KnownIn(blocks, q, Find(blocks, c).value.insts)
    ensures var from := if q == [] then None else Some(q[|q| - 1]);
      Get(BindPhis(OpenInsts(sorts, Find(blocks, c).value.insts), from, s.env, s.env), v) == Get(a.env, v)
  {
    hide Settled, PhisTotal, Complete, KnownEdges, SuccEdges, IsPath, UsesAvailable, PhisFirst, UniqueDefinitions,
      PhiFollows, BindPhis;
    var block := Find(blocks, c).value;
    var from := if q == [] then None else Some(q[|q| - 1]);
    FoundIn(blocks, c);
    StrictBlock(blocks, entry, block);
    if v in PhiDefs(block.insts) {
      var k :| k in block.insts && k.Phi? && k.dest == v;
      EdgeOperandAgrees(blocks, entry, q, c, s, a, k);
      OpenBinds(sorts, block.insts, from, s.env, k);
    } else {
      OpenKeeps(sorts, block.insts, from, s.env, v);
    }
  }

  lemma OpenBinds(sorts: Sorts, insts: seq<Kind>, from: Option<BlockId>, env: Store, k: Kind)
    requires k in insts && k.Phi?
    requires forall i, j | 0 <= i < |insts| && 0 <= j < |insts| && GetDef(insts[i]).Some?
      && GetDef(insts[i]) == GetDef(insts[j]) :: i == j
    ensures Get(BindPhis(OpenInsts(sorts, insts), from, env, env), k.dest) == Incoming(k.mappings, from, env)
  {
    OpenPhiSame(sorts, insts);
    hide OpenInst, GetDef;
    L.BindPhisValue(OpenInsts(sorts, insts), from, env, env, k.dest, k.mappings);
  }

  lemma OpenKeeps(sorts: Sorts, insts: seq<Kind>, from: Option<BlockId>, env: Store, v: Value)
    requires v !in PhiDefs(insts)
    ensures Get(BindPhis(OpenInsts(sorts, insts), from, env, env), v) == Get(env, v)
  {
    OpenPhiSame(sorts, insts);
    forall k | k in OpenInsts(sorts, insts) && k.Phi?
      ensures k.dest != v
    {
      assert k in insts;
    }
    BindPhisFrame(OpenInsts(sorts, insts), from, env, env, v);
  }

  lemma KnownIsSucc(blocks: seq<Block>, p: BlockId, c: BlockId)
    requires WellFormed(blocks) && (p, c) in KnownEdges(blocks)
    ensures (p, c) in SuccEdges(blocks) && Find(blocks, p).Some? && c in EdgeTargets(Find(blocks, p).value)
  {
  }

  lemma StrictBlock(blocks: seq<Block>, entry: BlockId, block: Block)
    requires Strict(blocks, entry) && block in blocks
    ensures forall i, j | 0 <= i < |block.insts| && 0 <= j < |block.insts| && GetDef(block.insts[i]).Some?
      && GetDef(block.insts[i]) == GetDef(block.insts[j]) :: i == j
  {
  }

  /** Opening keeps the phis and every instruction's result. */
  lemma OpenPhiSame(sorts: Sorts, insts: seq<Kind>)
    ensures forall i | 0 <= i < |insts| :: GetDef(OpenInsts(sorts, insts)[i]) == GetDef(insts[i])
    ensures forall k: Kind | k.Phi? :: k in OpenInsts(sorts, insts) <==> k in insts
  {
  }

  lemma SettledSplits(blocks: seq<Block>, q: seq<BlockId>, c: BlockId, v: Value)
    requires Settled(blocks, q + [c], v) && Find(blocks, c).Some?
    ensures Settled(blocks, q, v) || Defines(Find(blocks, c).value.insts, v)
  {
  }

  /** What block c needs is known when it is entered, with the assignment's values once its phis are read. */
  lemma OpenEntry(m: Machine, sorts: Sorts, blocks: seq<Block>, entry: BlockId, q: seq<BlockId>, c: BlockId, s: State,
      a: Assignment, mem: Memory)
    requires Strict(blocks, entry) && Complete(blocks, entry) && PhisTotal(blocks)
      && Coherent(m, sorts, blocks, entry, a, mem)
    requires Find(blocks, c).Some? && c in a.blocks && Walk(SuccEdges(blocks), entry, q + [c], c)
    requires q == [] ==> c == entry
    requires q != [] ==>
      Walk(SuccEdges(blocks), entry, q, q[|q| - 1]) && (q[|q| - 1], c) in KnownEdges(blocks)
      && (q[|q| - 1], c) in a.edges
    requires forall v: Value | Settled(blocks, q, v) :: Get(s.env, v) == Get(a.env, v)
    ensures var from := if q == [] then None else Some(q[|q| - 1]);
      var insts := Find(blocks, c).value.insts;
      var known := KnownIn(blocks, q, insts);
      && (forall v | v in known :: Get(BindPhis(OpenInsts(sorts, insts), from, s.env, s.env), v) == Get(a.env, v))
      && (forall i | 0 <= i < |insts| - 1 :: !IsTerminator(insts[i]))
      && (forall k | k in insts && k.Phi? :: k.dest in known)
      && UsesKnown(insts, known) && SolvesAll(m, sorts, insts, a.env, mem)
  {
    hide UsesKnown, SolvesAll, BindPhis, Settled, KnownEdges, SuccEdges, Walk, Find, Strict, Complete, PhisTotal,
      Coherent;
    StrictParts(blocks, entry);
    FoundIn(blocks, c);
    hide WellFormed, UniqueDefinitions;
    UsesKnownIn(blocks, entry, q, c);
    CoherentAt(m, sorts, blocks, entry, a, mem, Find(blocks, c).value);
    hide PhiFollows;
    forall v | v in KnownIn(blocks, q, Find(blocks, c).value.insts) {
      OpenPhis(sorts, blocks, entry, q, c, s, a, v);
    }
  }

  /** Entering block c with the assignment's values leaves it with the assignment's values. */
  lemma OpenStep(m: Machine, sorts: Sorts, blocks: seq<Block>, entry: BlockId, q: seq<BlockId>, c: BlockId, s: State,
      a: Assignment, mem: Memory)
    requires Strict(blocks, entry) && Complete(blocks, entry) && PhisTotal(blocks)
      && Coherent(m, sorts, blocks, entry, a, mem)
    requires Find(blocks, c).Some? && c in a.blocks && Walk(SuccEdges(blocks), entry, q + [c], c)
    requires q == [] ==> c == entry
    requires q != [] ==>
      Walk(SuccEdges(blocks), entry, q, q[|q| - 1]) && (q[|q| - 1], c) in KnownEdges(blocks)
      && (q[|q| - 1], c) in a.edges
    requires forall v: Value | Settled(blocks, q, v) :: Get(s.env, v) == Get(a.env, v)
    ensures var from := if q == [] then None else Some(q[|q| - 1]);
      forall v: Value | Settled(blocks, q + [c], v) ::
        Get(RunBlock(Answering(m, a.env), OpenBlock(sorts, Find(blocks, c).value), from, s).state.env, v)
          == Get(a.env, v)
  {
    var block := Find(blocks, c).value;
    var from := if q == [] then None else Some(q[|q| - 1]);
    var known := KnownIn(blocks, q, block.insts);
    var t := s.(env := BindPhis(OpenInsts(sorts, block.insts), from, s.env, s.env));
    OpenEntry(m, sorts, blocks, entry, q, c, s, a, mem);
    hide Strict, Complete, PhisTotal, Coherent, KnownEdges, BindPhis, UsesKnown, SolvesAll, Exec;
    OpenExec(m, sorts, block.insts, known, t, a.env, mem);
    forall v: Value | Settled(blocks, q + [c], v)
      ensures v in known || Defines(block.insts, v)
    {
      SettledSplits(blocks, q, c, v);
    }
  }

  lemma CoherentAt(m: Machine, sorts: Sorts, blocks: seq<Block>, entry: BlockId, a: Assignment, mem: Memory,
      block: Block)
    requires Coherent(m, sorts, blocks, entry, a, mem) && block in blocks && block.id in a.blocks
    ensures SolvesAll(m, sorts, block.insts, a.env, mem) && forall k | k in block.insts :: PhiFollows(block.id, k, a)
  {
  }

  // ----- following the assignment -----

  /** The run starts from what the assignment says about the parameters. */
  ghost function Start(blocks: seq<Block>, a: Assignment, mem: Memory): State {
    State(map v | v in a.env && Parameter(blocks, v) :: a.env[v], mem)
  }

  ghost function OpenRun(m: Machine, sorts: Sorts, blocks: seq<Block>, a: Assignment, mem: Memory,
      p: seq<BlockId>): Option<Step> {
    StepAt(Answering(m, a.env), Opened(sorts, blocks), p, Start(blocks, a, mem))
  }

  ghost predicate OnWith(blocks: seq<Block>, p: seq<BlockId>, n: nat, a: Assignment)
    requires 1 <= n <= |p|
  {
    && p[n - 1] in a.blocks && Find(blocks, p[n - 1]).Some?
    && (n < |p| ==> ExitOf(Find(blocks, p[n - 1]).value, a.env) == Goto(p[n]) && (p[n - 1], p[n]) in a.edges)
  }

  ghost predicate TracedPath(blocks: seq<Block>, entry: BlockId, a: Assignment, p: seq<BlockId>) {
    && p != [] && p[0] == entry && Walk(SuccEdges(blocks), entry, p, p[|p| - 1]) && EdgesOfPath(blocks, p)
    && (forall n | 1 <= n <= |p| :: OnWith(blocks, p, n, a))
  }

  /** At every step the run along p has the assignment's value for everything settled so far. */
  ghost predicate TracedRun(m: Machine, sorts: Sorts, blocks: seq<Block>, a: Assignment, mem: Memory, p: seq<BlockId>) {
    && AgreesAfter(m, sorts, blocks, a, mem, p)
    && (forall n | 1 <= n < |p| :: AgreesAfter(m, sorts, blocks, a, mem, p[..n]))
  }

  ghost predicate AgreesAfter(m: Machine, sorts: Sorts, blocks: seq<Block>, a: Assignment, mem: Memory,
      p: seq<BlockId>) {
    && OpenRun(m, sorts, blocks, a, mem, p).Some?
    && (forall v: Value | Settled(blocks, p, v) ::
      Get(OpenRun(m, sorts, blocks, a, mem, p).value.state.env, v) == Get(a.env, v))
  }

  /** p follows the blocks and edges that are on, and the opened function runs along it with the
      assignment's values. */
  ghost predicate Traced(m: Machine, sorts: Sorts, blocks: seq<Block>, entry: BlockId, a: Assignment, mem: Memory,
      p: seq<BlockId>) {
    TracedPath(blocks, entry, a, p) && TracedRun(m, sorts, blocks, a, mem, p)
  }

  /** The setting of all lemmas below. */
  ghost predicate Setting(m: Machine, sorts: Sorts, blocks: seq<Block>, entry: BlockId, a: Assignment, mem: Memory) {
    Strict(blocks, entry) && Complete(blocks, entry) && PhisTotal(blocks) && Coherent(m, sorts, blocks, entry, a, mem)
  }

  lemma StartPath(blocks: seq<Block>, entry: BlockId, a: Assignment)
    requires Find(blocks, entry).Some? && entry in a.blocks
    ensures TracedPath(blocks, entry, a, [entry])
  {
  }

  lemma EntryIsOn(m: Machine, sorts: Sorts, blocks: seq<Block>, entry: BlockId, a: Assignment, mem: Memory)
    requires Setting(m, sorts, blocks, entry, a, mem)
    ensures Strict(blocks, entry) && Complete(blocks, entry) && PhisTotal(blocks)
      && Coherent(m, sorts, blocks, entry, a, mem)
    ensures Find(blocks, entry).Some? && entry in a.blocks
  {
    FoundIn(blocks, entry);
    assert BlockFollows(blocks, entry, entry, a);
  }

  lemma TraceStart(m: Machine, sorts: Sorts, blocks: seq<Block>, entry: BlockId, a: Assignment, mem: Memory)
    requires Setting(m, sorts, blocks, entry, a, mem)
    ensures Traced(m, sorts, blocks, entry, a, mem, [entry])
  {
    EntryIsOn(m, sorts, blocks, entry, a, mem);
    StartPath(blocks, entry, a);
    hide *;
    StartRun(m, sorts, blocks, entry, a, mem);
    assert Traced(m, sorts, blocks, entry, a, mem, [entry]) by {
      TracedParts(m, sorts, blocks, entry, a, mem, [entry]);
    }
  }

  lemma TracedParts(m: Machine, sorts: Sorts, blocks: seq<Block>, entry: BlockId, a: Assignment, mem: Memory,
      p: seq<BlockId>)
    requires TracedPath(blocks, entry, a, p) && TracedRun(m, sorts, blocks, a, mem, p)
    ensures Traced(m, sorts, blocks, entry, a, mem, p)
  {
  }

  lemma StartRun(m: Machine, sorts: Sorts, blocks: seq<Block>, entry: BlockId, a: Assignment, mem: Memory)
    requires Strict(blocks, entry) && Complete(blocks, entry) && PhisTotal(blocks)
      && Coherent(m, sorts, blocks, entry, a, mem)
    requires Find(blocks, entry).Some? && entry in a.blocks
    ensures TracedRun(m, sorts, blocks, a, mem, [entry])
  {
    hide Strict, Complete, PhisTotal, Coherent, KnownEdges, SuccEdges, RunBlock, Answering, Opened, OpenBlock, Find,
      WellFormed;
    FindOpened(sorts, blocks, entry);
    assert [] + [entry] == [entry];
    assert Walk(SuccEdges(blocks), entry, [entry], entry);
    OpenStep(m, sorts, blocks, entry, [], entry, Start(blocks, a, mem), a, mem);
  }

  /** The run leaves a block the way the assignment's values say. */
  lemma TraceExit(m: Machine, sorts: Sorts, blocks: seq<Block>, entry: BlockId, a: Assignment, mem: Memory,
      p: seq<BlockId>)
    requires Setting(m, sorts, blocks, entry, a, mem) && Traced(m, sorts, blocks, entry, a, mem, p)
    ensures Find(blocks, p[|p| - 1]).Some?
    ensures OpenRun(m, sorts, blocks, a, mem, p).value.exit == ExitOf(Find(blocks, p[|p| - 1]).value, a.env)
  {
    var c := p[|p| - 1];
    assert OnWith(blocks, p, |p|, a);
    var block := Find(blocks, c).value;
    OpenedWellFormed(sorts, blocks);
    var env := OpenRun(m, sorts, blocks, a, mem, p).value.state.env;
    ExitAgrees(blocks, entry, p, env, a.env);
    hide Strict, Complete, PhisTotal, Coherent, Settled, OnWith, ExitOf, WellFormed;
    LastStep(Answering(m, a.env), Opened(sorts, blocks), p, Start(blocks, a, mem));
    FindOpened(sorts, blocks, c);
    OpenedExit(sorts, block, env);
  }

  /** Stores that agree on what is settled leave the last block the same way. */
  lemma ExitAgrees(blocks: seq<Block>, entry: BlockId, p: seq<BlockId>, e: Store, f: Store)
    requires Strict(blocks, entry) && p != [] && Walk(SuccEdges(blocks), entry, p, p[|p| - 1])
      && Find(blocks, p[|p| - 1]).Some?
    requires forall v: Value | Settled(blocks, p, v) :: Get(e, v) == Get(f, v)
    ensures var block := Find(blocks, p[|p| - 1]).value; ExitOf(block, e) == ExitOf(block, f)
  {
    var block := Find(blocks, p[|p| - 1]).value;
    if block.insts != [] {
      var i := |block.insts| - 1;
      forall v | v in GetUses(block.insts[i])
        ensures Get(e, v) == Get(f, v)
      {
        UseSettled(blocks, entry, p, i, v);
      }
      LeaveAgrees(block.insts[i], e, f);
    }
  }

  lemma GotoIsOn(m: Machine, sorts: Sorts, blocks: seq<Block>, entry: BlockId, a: Assignment, mem: Memory, c: BlockId,
      t: BlockId)
    requires Setting(m, sorts, blocks, entry, a, mem) && Find(blocks, c).Some? && c in a.blocks
    requires ExitOf(Find(blocks, c).value, a.env) == Goto(t)
    ensures (c, t) in KnownEdges(blocks) && (c, t) in a.edges && t in a.blocks && Find(blocks, t).Some?
    ensures (c, t) in SuccEdges(blocks)
  {
    GotoIsKnown(blocks, c, a.env, t);
    FoundIn(blocks, c);
    assert EdgesFollow(Find(blocks, c).value, a);
    FoundIn(blocks, t);
    assert BlockFollows(blocks, entry, t, a);
    KnownIsSucc(blocks, c, t);
  }

  lemma ExtendPath(blocks: seq<Block>, entry: BlockId, a: Assignment, p: seq<BlockId>, t: BlockId)
    requires TracedPath(blocks, entry, a, p) && OnWith(blocks, p, |p|, a)
      && ExitOf(Find(blocks, p[|p| - 1]).value, a.env) == Goto(t)
    requires var c := p[|p| - 1];
      (c, t) in KnownEdges(blocks) && (c, t) in SuccEdges(blocks) && (c, t) in a.edges && t in a.blocks
        && Find(blocks, t).Some?
    ensures TracedPath(blocks, entry, a, p + [t])
  {
    hide KnownEdges, SuccEdges, ExitOf;
    var r := p + [t];
    ExtendWalk(SuccEdges(blocks), entry, p, p[|p| - 1], t);
    forall n | 1 <= n <= |r|
      ensures OnWith(blocks, r, n, a)
    {
      if n <= |p| {
        assert OnWith(blocks, p, n, a);
      }
    }
    forall i | 1 <= i < |r|
      ensures StepsTo(blocks, r, i)
    {
      if i < |p| {
        assert StepsTo(blocks, p, i);
      }
    }
  }

  lemma TraceExtend(m: Machine, sorts: Sorts, blocks: seq<Block>, entry: BlockId, a: Assignment, mem: Memory,
      p: seq<BlockId>, t: BlockId)
    requires Setting(m, sorts, blocks, entry, a, mem) && Traced(m, sorts, blocks, entry, a, mem, p)
    requires OpenRun(m, sorts, blocks, a, mem, p).value.exit == Goto(t)
    ensures Traced(m, sorts, blocks, entry, a, mem, p + [t])
  {
    var c := p[|p| - 1];
    TraceExit(m, sorts, blocks, entry, a, mem, p);
    assert OnWith(blocks, p, |p|, a);
    GotoIsOn(m, sorts, blocks, entry, a, mem, c, t);
    ExtendPath(blocks, entry, a, p, t);
    hide Setting, TracedRun, SuccEdges, KnownEdges, ExitOf;
    assert Walk(SuccEdges(blocks), entry, p + [t], t);
    ExtendRun(m, sorts, blocks, entry, a, mem, p, t);
  }

  lemma ExtendRun(m: Machine, sorts: Sorts, blocks: seq<Block>, entry: BlockId, a: Assignment, mem: Memory,
      p: seq<BlockId>, t: BlockId)
    requires Setting(m, sorts, blocks, entry, a, mem) && p != [] && Walk(SuccEdges(blocks), entry, p, p[|p| - 1])
    requires Walk(SuccEdges(blocks), entry, p + [t], t) && Find(blocks, t).Some? && t in a.blocks
    requires (p[|p| - 1], t) in KnownEdges(blocks) && (p[|p| - 1], t) in a.edges
    requires TracedRun(m, sorts, blocks, a, mem, p) && OpenRun(m, sorts, blocks, a, mem, p).value.exit == Goto(t)
    ensures TracedRun(m, sorts, blocks, a, mem, p + [t])
  {
    hide StepAt, RunBlock, Strict, Complete, PhisTotal, Coherent, KnownEdges, SuccEdges, Settled, Walk, Answering,
      Start, Opened, OpenBlock, Get;
    FindOpened(sorts, blocks, t);
    ExtendStep(Answering(m, a.env), Opened(sorts, blocks), p, Start(blocks, a, mem), t);
    OpenStep(m, sorts, blocks, entry, p, t, OpenRun(m, sorts, blocks, a, mem, p).value.state, a, mem);
    assert (p + [t])[..|p|] == p;
    forall n | 1 <= n < |p + [t]|
      ensures AgreesAfter(m, sorts, blocks, a, mem, (p + [t])[..n])
    {
      assert n < |p| ==> (p + [t])[..n] == p[..n];
    }
  }

  ghost function Unvisited(blocks: seq<Block>, p: seq<BlockId>): set<BlockId> {
    set block | block in blocks && block.id !in p :: block.id
  }

  lemma VisitShrinks(blocks: seq<Block>, rank: BlockId -> nat, p: seq<BlockId>, t: BlockId)
    requires Ranked(blocks, rank) && EdgesOfPath(blocks, p + [t]) && Find(blocks, t).Some?
    ensures Unvisited(blocks, p + [t]) < Unvisited(blocks, p)
  {
    var q := p + [t];
    RankedIsDistinct(blocks, rank, q);
    forall i | 0 <= i < |p|
      ensures p[i] != t
    {
      assert q[i] != q[|p|];
    }
    assert t in q && forall b | b in p :: b in q;
    assert Find(blocks, t).value in blocks;
    assert t in Unvisited(blocks, p) && t !in Unvisited(blocks, q);
  }

  /** The assignment can be followed to where the run ends. */
  lemma TraceToEnd(m: Machine, sorts: Sorts, blocks: seq<Block>, entry: BlockId, rank: BlockId -> nat, a: Assignment,
      mem: Memory, p: seq<BlockId>)
    returns (r: seq<BlockId>)
    requires Setting(m, sorts, blocks, entry, a, mem) && Ranked(blocks, rank)
      && Traced(m, sorts, blocks, entry, a, mem, p)
    ensures Traced(m, sorts, blocks, entry, a, mem, r) && !OpenRun(m, sorts, blocks, a, mem, r).value.exit.Goto?
    decreases Unvisited(blocks, p)
  {
    r := p;
    var exit := OpenRun(m, sorts, blocks, a, mem, p).value.exit;
    if exit.Goto? {
      var q := p + [exit.target];
      TraceExtend(m, sorts, blocks, entry, a, mem, p, exit.target);
      assert OnWith(blocks, q, |q|, a);
      VisitShrinks(blocks, rank, p, exit.target);
      hide Setting, Ranked, Unvisited, TracedPath, TracedRun;
      r := TraceToEnd(m, sorts, blocks, entry, rank, a, mem, q);
    }
  }

  // ----- the assignment is the run -----

  /** Whatever block is on has been passed by a traced path that came to its end. */
  lemma {:induction false} OnIsTraced(m: Machine, sorts: Sorts, blocks: seq<Block>, entry: BlockId,
      rank: BlockId -> nat, a: Assignment, mem: Memory, p: seq<BlockId>, block: Block)
    requires Setting(m, sorts, blocks, entry, a, mem) && Ranked(blocks, rank)
      && Traced(m, sorts, blocks, entry, a, mem, p)
    requires !OpenRun(m, sorts, blocks, a, mem, p).value.exit.Goto? && block in blocks && block.id in a.blocks
    ensures block.id in p
    decreases rank(block.id), 0
  {
    assert BlockFollows(blocks, entry, block.id, a);
    if block.id != entry {
      var x: BlockId :| (x, block.id) in KnownEdges(blocks) && (x, block.id) in a.edges;
      EdgeIsTraced(m, sorts, blocks, entry, rank, a, mem, p, x, block.id);
    }
  }

  lemma {:induction false} EdgeIsTraced(m: Machine, sorts: Sorts, blocks: seq<Block>, entry: BlockId,
      rank: BlockId -> nat, a: Assignment, mem: Memory, p: seq<BlockId>, x: BlockId, b: BlockId)
    requires Setting(m, sorts, blocks, entry, a, mem) && Ranked(blocks, rank)
      && Traced(m, sorts, blocks, entry, a, mem, p)
    requires !OpenRun(m, sorts, blocks, a, mem, p).value.exit.Goto? && (x, b) in KnownEdges(blocks) && (x, b) in a.edges
    ensures b in p && (x, b) in PathEdges(p)
    decreases rank(x), 1
  {
    KnownIsSucc(blocks, x, b);
    FoundIn(blocks, x);
    var from := Find(blocks, x).value;
    assert EdgesFollow(from, a);
    hide Setting, TracedRun, TracedPath, KnownEdges, SuccEdges;
    OnIsTraced(m, sorts, blocks, entry, rank, a, mem, p, from);
    TraceExit(m, sorts, blocks, entry, a, mem, p);
    PassesOn(blocks, entry, a, p, x, b);
  }

  lemma PassesOn(blocks: seq<Block>, entry: BlockId, a: Assignment, p: seq<BlockId>, x: BlockId, b: BlockId)
    requires TracedPath(blocks, entry, a, p) && x in p && Find(blocks, x).Some?
      && ExitOf(Find(blocks, x).value, a.env) == Goto(b)
    requires Find(blocks, p[|p| - 1]).Some? && !ExitOf(Find(blocks, p[|p| - 1]).value, a.env).Goto?
    ensures b in p && (x, b) in PathEdges(p)
  {
    var i :| 0 <= i < |p| && p[i] == x;
    assert OnWith(blocks, p, i + 1, a);
    assert PairAt(p, i) == (x, b);
  }

  /** The assignment is the run along p: its blocks and edges are the path's, the run comes to an end,
      and at every step the values computed so far are the assignment's. */
  ghost predicate IsRun(m: Machine, sorts: Sorts, blocks: seq<Block>, entry: BlockId, a: Assignment, mem: Memory,
      p: seq<BlockId>) {
    && p != [] && p[0] == entry && Walk(SuccEdges(blocks), entry, p, p[|p| - 1])
    && TracedRun(m, sorts, blocks, a, mem, p) && !OpenRun(m, sorts, blocks, a, mem, p).value.exit.Goto?
    && (forall block | block in blocks :: block.id in a.blocks <==> block.id in p)
    && (forall e | e in KnownEdges(blocks) :: e in a.edges <==> e in PathEdges(p))
  }

  /** A satisfying assignment whose branch conditions are zero or one is a run: the blocks that are on
      are those of exactly one path from the entry to where the function ends, the edges that are on are
      its steps, and the opened function runs along it computing the values of the assignment. */
  lemma ModelIsRun(m: Machine, sorts: Sorts, blocks: seq<Block>, entry: BlockId, rank: BlockId -> nat,
      succs: Successors, a: Assignment, mem: Memory)
    returns (p: seq<BlockId>)
    requires Strict(blocks, entry) && WellTyped(sorts, blocks) && PhisTotal(blocks) && Ranked(blocks, rank)
      && Complete(blocks, entry)
    requires Represents(succs, blocks) && m.width == sorts.width
      && Satisfies(sorts, a, Encoding(sorts, blocks, entry, succs))
    requires BooleanTests(blocks, a)
    ensures IsRun(m, sorts, blocks, entry, a, mem, p)
  {
    assert WellSorted(sorts, a.env);
    hide Strict, WellTyped, WellFormed, WellSorted, Coherent, Represents, Satisfies, Encoding, Complete, PhisTotal,
      Ranked, BooleanTests, KnownEdges, TracedRun, TracedPath;
    StrictParts(blocks, entry);
    EncodingMeans(m, sorts, blocks, entry, rank, succs, a, mem);
    TraceStart(m, sorts, blocks, entry, a, mem);
    p := TraceToEnd(m, sorts, blocks, entry, rank, a, mem, [entry]);
    TraceIsAssignment(m, sorts, blocks, entry, rank, a, mem, p);
  }

  lemma TraceIsAssignment(m: Machine, sorts: Sorts, blocks: seq<Block>, entry: BlockId, rank: BlockId -> nat,
      a: Assignment, mem: Memory, p: seq<BlockId>)
    requires Setting(m, sorts, blocks, entry, a, mem) && Ranked(blocks, rank)
      && Traced(m, sorts, blocks, entry, a, mem, p)
    requires !OpenRun(m, sorts, blocks, a, mem, p).value.exit.Goto?
    ensures IsRun(m, sorts, blocks, entry, a, mem, p)
  {
    hide Setting, Ranked, KnownEdges, TracedRun, SuccEdges;
    forall block | block in blocks
      ensures block.id in a.blocks <==> block.id in p
    {
      if block.id in p {
        var i :| 0 <= i < |p| && p[i] == block.id;
        assert OnWith(blocks, p, i + 1, a);
      } else if block.id in a.blocks {
        OnIsTraced(m, sorts, blocks, entry, rank, a, mem, p, block);
      }
    }
    forall e | e in KnownEdges(blocks)
      ensures e in a.edges <==> e in PathEdges(p)
    {
      if e in PathEdges(p) {
        var i :| 0 <= i < |p| - 1 && PairAt(p, i) == e;
        assert OnWith(blocks, p, i + 1, a);
      } else if e in a.edges {
        EdgeIsTraced(m, sorts, blocks, entry, rank, a, mem, p, e.0, e.1);
      }
    }
  }

  /** The opened function passes the blocks of its path one by one. */
  lemma OpenPrefix(m: Machine, sorts: Sorts, blocks: seq<Block>, a: Assignment, mem: Memory, p: seq<BlockId>, n: nat)
    requires WellFormed(blocks) && OpenRun(m, sorts, blocks, a, mem, p).Some? && 1 <= n <= |p|
    ensures OpenRun(m, sorts, blocks, a, mem, p[..n]).Some? && Find(blocks, p[n - 1]).Some?
    ensures var step := OpenRun(m, sorts, blocks, a, mem, p[..n]).value;
      step.exit == ExitOf(Find(blocks, p[n - 1]).value, step.state.env)
        && (if n < |p| then step.exit == Goto(p[n]) else step == OpenRun(m, sorts, blocks, a, mem, p).value)
  {
    hide StepAt, ExitOf, Opened, OpenBlock, Start, Answering, WellFormed, Find;
    assert n == |p| ==> p[..n] == p;
    OpenedWellFormed(sorts, blocks);
    PrefixSteps(Answering(m, a.env), Opened(sorts, blocks), p, Start(blocks, a, mem), n);
    LastStep(Answering(m, a.env), Opened(sorts, blocks), p[..n], Start(blocks, a, mem));
    FindOpened(sorts, blocks, p[n - 1]);
    OpenedExit(sorts, Find(blocks, p[n - 1]).value, OpenRun(m, sorts, blocks, a, mem, p[..n]).value.state.env);
  }

  lemma UseOnWalk(blocks: seq<Block>, entry: BlockId, p: seq<BlockId>, i: nat, k: Kind, v: Value)
    requires Strict(blocks, entry) && p != [] && Walk(SuccEdges(blocks), entry, p, p[|p| - 1]) && i < |p|
    requires Find(blocks, p[i]).Some? && k in Find(blocks, p[i]).value.insts && v in GetUses(k)
    ensures Settled(blocks, p[..i + 1], v)
  {
    hide Strict, Settled, SuccEdges;
    PrefixIsPath(SuccEdges(blocks), p, i + 1);
    var block := Find(blocks, p[i]).value;
    var j :| 0 <= j < |block.insts| && block.insts[j] == k;
    UseSettled(blocks, entry, p[..i + 1], j, v);
  }

  lemma RunAgrees(m: Machine, sorts: Sorts, blocks: seq<Block>, a: Assignment, mem: Memory, p: seq<BlockId>, n: nat)
    requires TracedRun(m, sorts, blocks, a, mem, p) && 1 <= n <= |p|
    ensures AgreesAfter(m, sorts, blocks, a, mem, p[..n]) && OpenRun(m, sorts, blocks, a, mem, p).Some?
  {
    assert n == |p| ==> p[..n] == p;
  }

  /** A run along the assignment leaves its block at position i by the branch the assignment's value of
      the condition selects. */
  lemma BranchTaken(m: Machine, sorts: Sorts, blocks: seq<Block>, entry: BlockId, a: Assignment, mem: Memory,
      p: seq<BlockId>, i: nat, k: Kind)
    requires Strict(blocks, entry) && IsRun(m, sorts, blocks, entry, a, mem, p) && i < |p| && Find(blocks, p[i]).Some?
    requires k in Find(blocks, p[i]).value.insts && k.Branch? && Get(a.env, k.cond).Word?
    ensures i + 1 < |p| && Leave(k, a.env) == Goto(p[i + 1])
  {
    hide Strict, WellFormed, UniqueDefinitions, Settled, SuccEdges, KnownEdges, OpenRun, Find, Walk, TracedRun, ExitOf,
      PathEdges;
    StrictParts(blocks, entry);
    LastLeaves(blocks, p[i], k, a.env);
    UseOnWalk(blocks, entry, p, i, k, k.cond);
    RunAgrees(m, sorts, blocks, a, mem, p, i + 1);
    OpenPrefix(m, sorts, blocks, a, mem, p, i + 1);
    var env := OpenRun(m, sorts, blocks, a, mem, p[..i + 1]).value.state.env;
    LastLeaves(blocks, p[i], k, env);
    assert Get(env, k.cond) == Get(a.env, k.cond);
  }

  lemma LastLeaves(blocks: seq<Block>, b: BlockId, k: Kind, env: Store)
    requires WellFormed(blocks) && Find(blocks, b).Some? && k in Find(blocks, b).value.insts && IsTerminator(k)
    ensures ExitOf(Find(blocks, b).value, env) == Leave(k, env)
  {
    var insts := Find(blocks, b).value.insts;
    assert WellTerminated(Find(blocks, b).value);
    assert insts[|insts| - 1] == k;
  }

  lemma TestedBoolean(m: Machine, sorts: Sorts, blocks: seq<Block>, entry: BlockId, a: Assignment, mem: Memory,
      p: seq<BlockId>, block: Block, k: Kind)
    requires Strict(blocks, entry) && IsRun(m, sorts, blocks, entry, a, mem, p) && block in blocks && block.id in p
    requires k in block.insts && k.Branch? && DistinctTargets(k) && Get(a.env, k.cond).Word?
      && EdgesSeen(block.id, k, a)
    ensures BooleanTest(k, a.env)
  {
    StrictParts(blocks, entry);
    var i := Located(blocks, p, block);
    assert WellTerminated(block) && block.insts[|block.insts| - 1] == k;
    hide Strict, WellFormed, WellTerminated, UniqueDefinitions, Find, Walk, TracedRun, SuccEdges, OpenRun;
    BranchTaken(m, sorts, blocks, entry, a, mem, p, i, k);
    var t := p[i + 1];
    assert t in Targets(k);
    assert (block.id, t) in EdgesFrom(block) && (block.id, t) in KnownEdges(blocks);
    assert PairAt(p, i) == (block.id, t);
  }

  /** Assignments and runs correspond exactly where branches test booleans: a satisfying assignment is a
      run if and only if the conditions of the branches it passes are zero or one. */
  lemma ModelIsRunExactly(m: Machine, sorts: Sorts, blocks: seq<Block>, entry: BlockId, rank: BlockId -> nat,
      succs: Successors, a: Assignment, mem: Memory)
    requires Strict(blocks, entry) && WellTyped(sorts, blocks) && PhisTotal(blocks) && Ranked(blocks, rank)
      && Complete(blocks, entry)
    requires Represents(succs, blocks) && m.width == sorts.width
      && Satisfies(sorts, a, Encoding(sorts, blocks, entry, succs))
    ensures (exists p :: IsRun(m, sorts, blocks, entry, a, mem, p)) <==> BooleanTests(blocks, a)
  {
    if BooleanTests(blocks, a) {
      hide *;
      var p := ModelIsRun(m, sorts, blocks, entry, rank, succs, a, mem);
    }
    if p :| IsRun(m, sorts, blocks, entry, a, mem, p) {
      RunTestsBooleans(m, sorts, blocks, entry, rank, succs, a, mem, p);
    }
  }

  lemma RunTestsBooleans(m: Machine, sorts: Sorts, blocks: seq<Block>, entry: BlockId, rank: BlockId -> nat,
      succs: Successors, a: Assignment, mem: Memory, p: seq<BlockId>)
    requires Strict(blocks, entry) && WellTyped(sorts, blocks) && PhisTotal(blocks) && Ranked(blocks, rank)
    requires Represents(succs, blocks) && m.width == sorts.width
      && Satisfies(sorts, a, Encoding(sorts, blocks, entry, succs))
    requires IsRun(m, sorts, blocks, entry, a, mem, p)
    ensures BooleanTests(blocks, a)
  {
    hide Strict, PhisTotal, Ranked, Represents, Encoding, EdgesSeen, DistinctTargets, OperandsFit, TracedRun, OpenRun,
      Walk, KnownEdges, PathEdges;
    StrictParts(blocks, entry);
    EncodingSeen(m, sorts, blocks, entry, succs, a, mem);
    forall block, k | block in blocks && block.id in a.blocks && k in block.insts
      ensures BooleanTest(k, a.env)
    {
      if k.Branch? {
        assert TestsFit(sorts, k) && BlockSeen(block, a);
        TestedBoolean(m, sorts, blocks, entry, a, mem, p, block, k);
      }
    }
  }
}
