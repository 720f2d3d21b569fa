/** Backward liveness analysis: an in-place fixed point over the blocks of a function. */
module Liveness {
  import opened IR

  type LiveSets = map<BlockId, set<Value>>

  // ----- the dataflow equations -----

  /** Liveness before an instruction, from liveness after it. */
  function Before(k: Kind, after: set<Value>): set<Value> {
    (after - (if GetDef(k).Some? then {GetDef(k).value} else {}))
    + (if k.Phi? then {} else set v | v in GetUses(k))
  }

  function BeforeAll(insts: seq<Kind>, out: set<Value>): set<Value> {
    if insts == [] then out else Before(insts[0], BeforeAll(insts[1..], out))
  }

  function LiveAtEntry(liveIn: LiveSets, b: BlockId): set<Value> {
    if b in liveIn then liveIn[b] else {}
  }

  /** What the edge from p into block `succ` keeps alive: the phis of `succ` read their operands
      for this edge, and do not need the values they define. */
  function AcrossEdge(liveIn: LiveSets, p: BlockId, succ: Block): set<Value> {
    (LiveAtEntry(liveIn, succ.id) - PhiDefs(succ.insts)) + PhiUses(succ.insts, p)
  }

  function AcrossEdgeTo(blocks: seq<Block>, liveIn: LiveSets, p: BlockId, s: BlockId): set<Value> {
    match Find(blocks, s)
    case None => {}
    case Some(succ) => AcrossEdge(liveIn, p, succ)
  }

  function OutOver(blocks: seq<Block>, liveIn: LiveSets, p: BlockId, succs: seq<BlockId>): set<Value> {
    if succs == [] then {}
    else OutOver(blocks, liveIn, p, succs[..|succs| - 1]) + AcrossEdgeTo(blocks, liveIn, p, succs[|succs| - 1])
  }

  function Out(blocks: seq<Block>, liveIn: LiveSets, block: Block): set<Value> {
    OutOver(blocks, liveIn, block.id, block.succs)
  }

  function In(blocks: seq<Block>, liveIn: LiveSets, block: Block): set<Value> {
    BeforeAll(block.insts, Out(blocks, liveIn, block))
  }

  ghost predicate Solves(blocks: seq<Block>, liveIn: LiveSets) {
    forall block | block in blocks :: block.id in liveIn && liveIn[block.id] == In(blocks, liveIn, block)
  }

  // ----- what liveness means -----

  /** The instructions use v before defining it; phi operands do not count as uses here. */
  ghost predicate Exposed(insts: seq<Kind>, v: Value) {
    exists i | 0 <= i < |insts| ::
      && !insts[i].Phi? && v in GetUses(insts[i])
      && forall j | 0 <= j < i :: GetDef(insts[j]) != Some(v)
  }

  /** Following the blocks of p, v is used, or read by a phi on the last edge, before any definition. */
  ghost predicate UsedAlong(blocks: seq<Block>, p: seq<BlockId>, v: Value) {
    && p != [] && Find(blocks, p[0]).Some?
    && var insts := Find(blocks, p[0]).value.insts;
      if |p| == 1 then Exposed(insts, v)
      else
        && !Defines(insts, v) && p[1] in Find(blocks, p[0]).value.succs && Find(blocks, p[1]).Some?
        && var next := Find(blocks, p[1]).value.insts;
          || (|p| == 2 && v in PhiUses(next, p[0]))
          || (v !in PhiDefs(next) && UsedAlong(blocks, p[1..], v))
  }

  ghost predicate Live(blocks: seq<Block>, b: BlockId, v: Value) {
    exists p :: p != [] && p[0] == b && UsedAlong(blocks, p, v)
  }

  // ----- facts about the equations -----

  /** Exposure in a list is a use by its head, or exposure in the tail past the head's definition. */
  lemma ExposedUnfolds(insts: seq<Kind>, v: Value)
    requires insts != []
    ensures Exposed(insts, v) <==>
      || (!insts[0].Phi? && v in GetUses(insts[0]))
      || (GetDef(insts[0]) != Some(v) && Exposed(insts[1..], v))
  {
  }

  lemma DefinesUnfolds(insts: seq<Kind>, v: Value)
    requires insts != []
    ensures Defines(insts, v) <==> GetDef(insts[0]) == Some(v) || Defines(insts[1..], v)
  {
  }

  lemma {:induction false} InBeforeAll(insts: seq<Kind>, out: set<Value>, v: Value)
    ensures v in BeforeAll(insts, out) <==> Exposed(insts, v) || (v in out && !Defines(insts, v))
  {
    if insts != [] {
      InBeforeAll(insts[1..], out, v);
      ExposedUnfolds(insts, v);
      DefinesUnfolds(insts, v);
      hide Exposed, Defines, GetUses, GetDef;
    }
  }

  lemma {:induction false} InOutOver(blocks: seq<Block>, liveIn: LiveSets, p: BlockId, succs: seq<BlockId>, v: Value)
    ensures v in OutOver(blocks, liveIn, p, succs) <==>
      exists s :: s in succs && v in AcrossEdgeTo(blocks, liveIn, p, s)
  {
    if succs != [] {
      var n := |succs| - 1;
      InOutOver(blocks, liveIn, p, succs[..n], v);
      assert succs == succs[..n] + [succs[n]];
    }
  }

  ghost predicate Below(l: LiveSets, r: LiveSets) {
    forall b: BlockId :: LiveAtEntry(l, b) <= LiveAtEntry(r, b)
  }

  lemma InMonotone(blocks: seq<Block>, l: LiveSets, r: LiveSets, block: Block)
    requires Below(l, r)
    ensures In(blocks, l, block) <= In(blocks, r, block)
  {
    forall v | v in In(blocks, l, block)
      ensures v in In(blocks, r, block)
    {
      InBeforeAll(block.insts, Out(blocks, l, block), v);
      InBeforeAll(block.insts, Out(blocks, r, block), v);
      InOutOver(blocks, l, block.id, block.succs, v);
      InOutOver(blocks, r, block.id, block.succs, v);
    }
  }

  ghost predicate Bounded(blocks: seq<Block>, liveIn: LiveSets) {
    forall b: BlockId :: LiveAtEntry(liveIn, b) <= Mentioned(blocks)
  }

  lemma InBounded(blocks: seq<Block>, liveIn: LiveSets, block: Block)
    requires Bounded(blocks, liveIn) && block in blocks
    ensures In(blocks, liveIn, block) <= Mentioned(blocks)
  {
    forall v | v in In(blocks, liveIn, block)
      ensures v in Mentioned(blocks)
    {
      InBeforeAll(block.insts, Out(blocks, liveIn, block), v);
      if Exposed(block.insts, v) {
        var i :| 0 <= i < |block.insts| && !block.insts[i].Phi? && v in GetUses(block.insts[i]);
        assert v in Operands(block.insts[i]);
      } else {
        InOutOver(blocks, liveIn, block.id, block.succs, v);
        var s :| s in block.succs && v in AcrossEdgeTo(blocks, liveIn, block.id, s);
        var succ := Find(blocks, s).value;
        if v in PhiUses(succ.insts, block.id) {
          var k :| k in succ.insts && k.Phi? && block.id in k.mappings && k.mappings[block.id] == v;
          assert v in Operands(k);
        }
      }
    }
  }

  // ----- solution and meaning -----

  ghost predicate OnlyLive(blocks: seq<Block>, liveIn: LiveSets) {
    forall b: BlockId, v | v in LiveAtEntry(liveIn, b) :: Live(blocks, b, v)
  }

  /** One application of the equations adds no value that is not live. */
  lemma InOnlyLive(blocks: seq<Block>, liveIn: LiveSets, block: Block, v: Value)
    requires OnlyLive(blocks, liveIn) && Find(blocks, block.id) == Some(block)
    requires v in In(blocks, liveIn, block)
    ensures Live(blocks, block.id, v)
  {
    InBeforeAll(block.insts, Out(blocks, liveIn, block), v);
    if Exposed(block.insts, v) {
      assert UsedAlong(blocks, [block.id], v);
    } else {
      InOutOver(blocks, liveIn, block.id, block.succs, v);
      var s :| s in block.succs && v in AcrossEdgeTo(blocks, liveIn, block.id, s);
      var succ := Find(blocks, s).value;
      if v in PhiUses(succ.insts, block.id) {
        assert UsedAlong(blocks, [block.id, s], v);
      } else {
        var p :| p != [] && p[0] == s && UsedAlong(blocks, p, v);
        assert ([block.id] + p)[1..] == p;
        assert UsedAlong(blocks, [block.id] + p, v);
      }
    }
  }

  /** Any solution contains every live value. */
  lemma {:induction false} SolutionCoversLive(blocks: seq<Block>, liveIn: LiveSets, p: seq<BlockId>, v: Value)
    requires Solves(blocks, liveIn) && UsedAlong(blocks, p, v)
    ensures v in LiveAtEntry(liveIn, p[0])
    decreases |p|
  {
    var block := Find(blocks, p[0]).value;
    InBeforeAll(block.insts, Out(blocks, liveIn, block), v);
    if |p| > 1 {
      var next := Find(blocks, p[1]).value;
      if v !in PhiUses(next.insts, p[0]) {
        SolutionCoversLive(blocks, liveIn, p[1..], v);
      }
      assert v in AcrossEdgeTo(blocks, liveIn, block.id, p[1]);
      InOutOver(blocks, liveIn, block.id, block.succs, v);
    }
  }

  /** The analysis result is exactly the live values, and so lies below every other solution. */
  ghost predicate IsLeastSolution(blocks: seq<Block>, liveIn: LiveSets) {
    && Solves(blocks, liveIn)
    && (forall block, v | block in blocks :: v in liveIn[block.id] <==> Live(blocks, block.id, v))
  }

  lemma LeastBelowEverySolution(blocks: seq<Block>, least: LiveSets, other: LiveSets, block: Block)
    requires IsLeastSolution(blocks, least) && Solves(blocks, other) && block in blocks
    ensures least[block.id] <= other[block.id]
  {
    forall v | v in least[block.id]
      ensures v in other[block.id]
    {
      assert Live(blocks, block.id, v);
      var p :| p != [] && p[0] == block.id && UsedAlong(blocks, p, v);
      SolutionCoversLive(blocks, other, p, v);
    }
  }

  lemma ExactWhenSolved(blocks: seq<Block>, liveIn: LiveSets)
    requires Solves(blocks, liveIn) && OnlyLive(blocks, liveIn)
    ensures IsLeastSolution(blocks, liveIn)
  {
    forall block, v | block in blocks && Live(blocks, block.id, v)
      ensures v in liveIn[block.id]
    {
      var p :| p != [] && p[0] == block.id && UsedAlong(blocks, p, v);
      SolutionCoversLive(blocks, liveIn, p, v);
    }
    forall block, v | block in blocks && v in liveIn[block.id]
      ensures Live(blocks, block.id, v)
    {
      assert v in LiveAtEntry(liveIn, block.id);
    }
  }

  // ----- progress of the fixed point -----

  ghost function Total(blocks: seq<Block>, liveIn: LiveSets): nat {
    if blocks == [] then 0 else |LiveAtEntry(liveIn, blocks[0].id)| + Total(blocks[1..], liveIn)
  }

  lemma SubsetSize(a: set<Value>, b: set<Value>)
    requires a <= b
    ensures |a| <= |b| && (a != b ==> |a| < |b|)
  {
    assert b == a + (b - a);
  }

  lemma TotalBounded(blocks: seq<Block>, liveIn: LiveSets, all: set<Value>)
    requires forall b: BlockId :: LiveAtEntry(liveIn, b) <= all
    ensures Total(blocks, liveIn) <= |blocks| * |all|
  {
    if blocks != [] {
      SubsetSize(LiveAtEntry(liveIn, blocks[0].id), all);
      TotalBounded(blocks[1..], liveIn, all);
      assert |blocks| * |all| == |all| + (|blocks| - 1) * |all|;
    }
  }

  lemma TotalGrows(blocks: seq<Block>, l: LiveSets, r: LiveSets)
    requires Below(l, r)
    ensures Total(blocks, l) <= Total(blocks, r)
    ensures (exists block :: block in blocks && LiveAtEntry(l, block.id) != LiveAtEntry(r, block.id))
      ==> Total(blocks, l) < Total(blocks, r)
  {
    if blocks != [] {
      SubsetSize(LiveAtEntry(l, blocks[0].id), LiveAtEntry(r, blocks[0].id));
      TotalGrows(blocks[1..], l, r);
    }
  }

  /** What the sweeps maintain about the entry sets: they only grow, and stay below the meaning. */
  ghost predicate Climbing(blocks: seq<Block>, liveIn: LiveSets) {
    && (forall block | block in blocks :: block.id in liveIn)
    && (forall block | block in blocks :: liveIn[block.id] <= In(blocks, liveIn, block))
    && OnlyLive(blocks, liveIn)
    && Bounded(blocks, liveIn)
  }

  lemma Climb(blocks: seq<Block>, liveIn: LiveSets, i: nat)
    requires UniqueIds(blocks) && i < |blocks| && Climbing(blocks, liveIn)
    ensures var next := liveIn[blocks[i].id := In(blocks, liveIn, blocks[i])];
      Climbing(blocks, next) && Below(liveIn, next)
  {
    var block := blocks[i];
    var next := liveIn[block.id := In(blocks, liveIn, block)];
    FindAt(blocks, i);
    InBounded(blocks, liveIn, block);
    assert Below(liveIn, next);
    forall other | other in blocks
      ensures next[other.id] <= In(blocks, next, other)
    {
      InMonotone(blocks, liveIn, next, other);
      if other.id == block.id {
        var j :| 0 <= j < |blocks| && blocks[j] == other;
        assert j == i;
      }
    }
    forall b: BlockId, v | v in LiveAtEntry(next, b)
      ensures Live(blocks, b, v)
    {
      if b == block.id {
        InOnlyLive(blocks, liveIn, block, v);
      } else {
        assert v in LiveAtEntry(liveIn, b);
      }
    }
  }

  // ----- the analysis -----

  method LiveOutOf(blocks: seq<Block>, liveIn: LiveSets, block: Block) returns (out: set<Value>)
    ensures out == Out(blocks, liveIn, block)
  {
    out := {};
    for i := 0 to |block.succs|
      invariant out == OutOver(blocks, liveIn, block.id, block.succs[..i])
    {
      var found := Find(blocks, block.succs[i]);
      assert block.succs[..i + 1][..i] == block.succs[..i];
      if found.Some? {
        var succ := found.value;
        var inSet := if succ.id in liveIn then liveIn[succ.id] else {};
        out := out + (inSet - PhiDefs(succ.insts)) + PhiUses(succ.insts, block.id);
      }
    }
    assert block.succs[..|block.succs|] == block.succs;
  }

  method LiveInOf(block: Block, out: set<Value>) returns (live: set<Value>)
    ensures live == BeforeAll(block.insts, out)
  {
    live := out;
    var i := |block.insts|;
    while i > 0
      invariant 0 <= i <= |block.insts|
      invariant live == BeforeAll(block.insts[i..], out)
    {
      i := i - 1;
      var inst := block.insts[i];
      assert block.insts[i..][1..] == block.insts[i + 1..];
      if GetDef(inst).Some? {
        live := live - {GetDef(inst).value};
      }
      if !inst.Phi? {
        live := live + (set v | v in GetUses(inst));
      }
    }
  }

  datatype Results = Results(liveIn: LiveSets, liveOut: LiveSets, instLiveOut: map<(BlockId, nat), set<Value>>)

  ghost predicate SweptFrom(blocks: seq<Block>, liveIn: LiveSets, liveOut: LiveSets, i: int)
    requires 0 <= i <= |blocks|
  {
    forall j | i <= j < |blocks| ::
      && blocks[j].id in liveIn && liveIn[blocks[j].id] == In(blocks, liveIn, blocks[j])
      && blocks[j].id in liveOut && liveOut[blocks[j].id] == Out(blocks, liveIn, blocks[j])
  }

  lemma SweptOneMore(blocks: seq<Block>, liveIn: LiveSets, liveOut: LiveSets, i: nat)
    requires UniqueIds(blocks) && i < |blocks| && SweptFrom(blocks, liveIn, liveOut, i + 1)
    requires blocks[i].id in liveIn && liveIn[blocks[i].id] == In(blocks, liveIn, blocks[i])
    ensures SweptFrom(blocks, liveIn, liveOut[blocks[i].id := Out(blocks, liveIn, blocks[i])], i)
  {
  }

  lemma SweptAll(blocks: seq<Block>, liveIn: LiveSets, liveOut: LiveSets)
    requires SweptFrom(blocks, liveIn, liveOut, 0)
    ensures Solves(blocks, liveIn)
    ensures forall block | block in blocks :: block.id in liveOut && liveOut[block.id] == Out(blocks, liveIn, block)
  {
  }

  /** Updating one block strictly raises the total. */
  lemma TotalRaised(blocks: seq<Block>, l: LiveSets, i: nat)
    requires UniqueIds(blocks) && i < |blocks| && Climbing(blocks, l)
    requires l[blocks[i].id] != In(blocks, l, blocks[i])
    ensures Total(blocks, l) < Total(blocks, l[blocks[i].id := In(blocks, l, blocks[i])])
  {
    var next := l[blocks[i].id := In(blocks, l, blocks[i])];
    Climb(blocks, l, i);
    assert LiveAtEntry(l, blocks[i].id) != LiveAtEntry(next, blocks[i].id);
    TotalGrows(blocks, l, next);
  }

  /** One sweep over the blocks, last to first, updating the entry sets in place. */
  method Sweep(blocks: seq<Block>, liveIn0: LiveSets, liveOut0: LiveSets)
    returns (liveIn: LiveSets, liveOut: LiveSets, changed: bool)
    requires UniqueIds(blocks) && Climbing(blocks, liveIn0)
    ensures Climbing(blocks, liveIn)
    ensures changed ==> Total(blocks, liveIn0) < Total(blocks, liveIn)
    ensures !changed ==> liveIn == liveIn0 && SweptFrom(blocks, liveIn, liveOut, 0)
  {
    hide Total, In, Out, Climbing, SweptFrom;
    liveIn, liveOut, changed := liveIn0, liveOut0, false;
    var i := |blocks|;
    NothingSwept(blocks, liveIn, liveOut);
    while i > 0
      invariant 0 <= i <= |blocks|
      invariant Climbing(blocks, liveIn)
      invariant changed ==> Total(blocks, liveIn0) < Total(blocks, liveIn)
      invariant !changed ==> liveIn == liveIn0 && SweptFrom(blocks, liveIn, liveOut, i)
    {
      i := i - 1;
      var block := blocks[i];
      var out := LiveOutOf(blocks, liveIn, block);
      ghost var l := liveOut;
      liveOut := liveOut[block.id := out];
      var currentLive := LiveInOf(block, out);
      assert currentLive == In(blocks, liveIn, block) by { InUnfolds(blocks, liveIn, block); }
      HasEntry(blocks, liveIn, i);
      if currentLive != liveIn[block.id] {
        Climb(blocks, liveIn, i);
        TotalRaised(blocks, liveIn, i);
        liveIn := liveIn[block.id := currentLive];
        changed := true;
      } else if !changed {
        SweptOneMore(blocks, liveIn, l, i);
      }
    }
  }

  lemma NothingSwept(blocks: seq<Block>, liveIn: LiveSets, liveOut: LiveSets)
    ensures SweptFrom(blocks, liveIn, liveOut, |blocks|)
  {
  }

  lemma InUnfolds(blocks: seq<Block>, liveIn: LiveSets, block: Block)
    ensures In(blocks, liveIn, block) == BeforeAll(block.insts, Out(blocks, liveIn, block))
  {
  }

  lemma HasEntry(blocks: seq<Block>, liveIn: LiveSets, i: nat)
    requires Climbing(blocks, liveIn) && i < |blocks|
    ensures blocks[i].id in liveIn
  {
  }

  lemma StartsClimbing(blocks: seq<Block>)
    ensures Climbing(blocks, map block | block in blocks :: block.id := {})
  {
  }

  lemma BoundedTotal(blocks: seq<Block>, liveIn: LiveSets)
    requires Climbing(blocks, liveIn)
    ensures Total(blocks, liveIn) <= |blocks| * |Mentioned(blocks)|
  {
    TotalBounded(blocks, liveIn, Mentioned(blocks));
  }

  /** Repeats sweeps until one changes nothing. */
  method FixedPoint(blocks: seq<Block>) returns (liveIn: LiveSets, liveOut: LiveSets)
    requires UniqueIds(blocks)
    ensures IsLeastSolution(blocks, liveIn)
    ensures forall block | block in blocks :: block.id in liveOut && liveOut[block.id] == Out(blocks, liveIn, block)
  {
    liveIn, liveOut := map block | block in blocks :: block.id := {}, map block | block in blocks :: block.id := {};
    var changed := true;
    StartsClimbing(blocks);
    ghost var bound := |blocks| * |Mentioned(blocks)|;
    BoundedTotal(blocks, liveIn);
    hide Climbing, Total, Mentioned, SweptFrom, UniqueIds;
    while changed
      invariant Climbing(blocks, liveIn)
      invariant Total(blocks, liveIn) <= bound
      invariant !changed ==> SweptFrom(blocks, liveIn, liveOut, 0)
      decreases bound - Total(blocks, liveIn), changed
    {
      liveIn, liveOut, changed := Sweep(blocks, liveIn, liveOut);
      BoundedTotal(blocks, liveIn);
    }
    SweptAll(blocks, liveIn, liveOut);
    ExactWhenSolved(blocks, liveIn);
  }

  /** The sets after each instruction of a block, walking back from its live-out set. */
  method LiveAfterEach(block: Block, out: set<Value>) returns (after: map<nat, set<Value>>)
    ensures forall i: nat :: i in after <==> i < |block.insts|
    ensures forall i: nat | i < |block.insts| :: after[i] == BeforeAll(block.insts[i + 1..], out)
  {
    after := map[];
    var live := out;
    var i := |block.insts|;
    while i > 0
      invariant 0 <= i <= |block.insts|
      invariant live == BeforeAll(block.insts[i..], out)
      invariant forall j: nat :: j in after <==> i <= j < |block.insts|
      invariant forall j: nat | i <= j < |block.insts| :: after[j] == BeforeAll(block.insts[j + 1..], out)
    {
      i := i - 1;
      var inst := block.insts[i];
      BeforeOneMore(block.insts, out, i);
      hide BeforeAll, GetDef, GetUses;
      after := after[i := live];
      if GetDef(inst).Some? {
        live := live - {GetDef(inst).value};
      }
      if !inst.Phi? {
        live := live + (set v | v in GetUses(inst));
      }
    }
  }

  lemma BeforeOneMore(insts: seq<Kind>, out: set<Value>, i: nat)
    requires i < |insts|
    ensures var live := BeforeAll(insts[i + 1..], out);
      var k := insts[i];
      var rest := if GetDef(k).Some? then live - {GetDef(k).value} else live;
      BeforeAll(insts[i..], out) == if k.Phi? then rest else rest + (set v | v in GetUses(k))
  {
    assert insts[i..][1..] == insts[i + 1..];
  }

  ghost predicate AfterSetsOk(r: Results, block: Block)
    requires block.id in r.liveOut
  {
    forall i: nat | i < |block.insts| ::
      (block.id, i) in r.instLiveOut
        && r.instLiveOut[(block.id, i)] == BeforeAll(block.insts[i + 1..], r.liveOut[block.id])
  }

  function Recorded(afters: map<(BlockId, nat), set<Value>>, b: BlockId, after: map<nat, set<Value>>): map<(BlockId,
      nat), set<Value>> {
    afters + map i | i in after :: (b, i) := after[i]
  }

  /** Recording the sets of block n keeps those of the blocks before it. */
  lemma RecordAfters(blocks: seq<Block>, n: nat, liveIn: LiveSets, liveOut: LiveSets, afters: map<(BlockId, nat),
      set<Value>>, after: map<nat, set<Value>>)
    requires UniqueIds(blocks) && n < |blocks| && forall k | 0 <= k <= n :: blocks[k].id in liveOut
    requires forall k | 0 <= k < n :: AfterSetsOk(Results(liveIn, liveOut, afters), blocks[k])
    requires forall i: nat :: i in after <==> i < |blocks[n].insts|
    requires forall i: nat | i < |blocks[n].insts| ::
      after[i] == BeforeAll(blocks[n].insts[i + 1..], liveOut[blocks[n].id])
    ensures forall k | 0 <= k <= n ::
      AfterSetsOk(Results(liveIn, liveOut, Recorded(afters, blocks[n].id, after)), blocks[k])
  {
  }

  /** Liveness is exactly "used on some path before any definition"; the exit sets agree with the
      final entry sets, and the per-instruction sets lead from one to the other. */
  method AnalyzeLiveness(blocks: seq<Block>) returns (r: Results)
    requires UniqueIds(blocks)
    ensures IsLeastSolution(blocks, r.liveIn)
    ensures forall block | block in blocks ::
      && block.id in r.liveOut && r.liveOut[block.id] == Out(blocks, r.liveIn, block)
      && AfterSetsOk(r, block)
      && (block.insts != [] ==> r.liveIn[block.id] == Before(block.insts[0], r.instLiveOut[(block.id, 0)]))
  {
    hide Live, BeforeAll, Before, In, Out;
    var liveIn, liveOut := FixedPoint(blocks);
    var afters: map<(BlockId, nat), set<Value>> := map[];
    for n := 0 to |blocks|
      invariant forall k | 0 <= k < n :: AfterSetsOk(Results(liveIn, liveOut, afters), blocks[k])
    {
      var block := blocks[n];
      var after := LiveAfterEach(block, liveOut[block.id]);
      RecordAfters(blocks, n, liveIn, liveOut, afters, after);
      hide AfterSetsOk, Recorded;
      afters := Recorded(afters, block.id, after);
    }
    r := Results(liveIn, liveOut, afters);
    forall block | block in blocks
      ensures AfterSetsOk(r, block)
      ensures block.insts != [] ==> r.liveIn[block.id] == Before(block.insts[0], r.instLiveOut[(block.id, 0)])
    {
      var k :| 0 <= k < |blocks| && blocks[k] == block;
      assert AfterSetsOk(r, blocks[k]);
      AfterSetsReachEntry(blocks, r, block);
    }
  }

  /** Walking the sets of a block back to its first instruction gives its entry set. */
  lemma AfterSetsReachEntry(blocks: seq<Block>, r: Results, block: Block)
    requires block.id in r.liveOut && AfterSetsOk(r, block) && block.id in r.liveIn
    requires r.liveIn[block.id] == In(blocks, r.liveIn, block) && r.liveOut[block.id] == Out(blocks, r.liveIn, block)
    ensures block.insts != [] ==>
      (block.id, 0) in r.instLiveOut && r.liveIn[block.id] == Before(block.insts[0], r.instLiveOut[(block.id, 0)])
  {
    hide Before, Out;
  }
}
