/** The optimisation pipeline: folding, fusion and dead code elimination one after the other. Each pass
    keeps strict SSA, which the next one relies on, and together they preserve every run. */
module Optimization {
  import opened IR
  import opened Cfg
  import opened Semantics
  import opened StrictSsa
  import F = ConstantFolding
  import opened Fusion
  import M = FusionMeaning
  import D = DeadCode

  // ----- rewriting in place keeps strict SSA -----

  /** The rewritten instruction defines the same value; phis and terminators stay as they are. */
  ghost predicate SameFrame(k: Kind, f: Kind) {
    GetDef(f) == GetDef(k) && (k.Phi? || IsTerminator(k) || f.Phi? || IsTerminator(f) ==> f == k)
  }

  ghost predicate BlockFrame(block: Block, next: Block) {
    && next == block.(insts := next.insts) && |next.insts| == |block.insts|
    && forall i | 0 <= i < |block.insts| :: SameFrame(block.insts[i], next.insts[i])
  }

  ghost predicate Framed(blocks: seq<Block>, next: seq<Block>) {
    |next| == |blocks| && forall i | 0 <= i < |blocks| :: BlockFrame(blocks[i], next[i])
  }

  /** What the rewritten instructions use was available to the old ones. */
  ghost predicate UsesStill(blocks: seq<Block>, next: seq<Block>, entry: BlockId)
    requires Framed(blocks, next)
  {
    forall n, i, v | 0 <= n < |blocks| && 0 <= i < |blocks[n].insts| && v in GetUses(next[n].insts[i]) ::
      AvailableAt(blocks, entry, blocks[n], i, v)
  }

  lemma {:induction false} FindFramed(blocks: seq<Block>, next: seq<Block>, b: BlockId)
    requires Framed(blocks, next)
    ensures Find(next, b).Some? <==> Find(blocks, b).Some?
    ensures Find(blocks, b).Some? ==> BlockFrame(Find(blocks, b).value, Find(next, b).value)
  {
    if blocks != [] {
      assert BlockFrame(blocks[0], next[0]);
      FindFramed(blocks[1..], next[1..], b);
    }
  }

  lemma FrameDefines(block: Block, next: Block, v: Value)
    requires BlockFrame(block, next)
    ensures Defines(next.insts, v) <==> Defines(block.insts, v)
  {
    forall i | 0 <= i < |block.insts|
      ensures GetDef(next.insts[i]) == GetDef(block.insts[i])
    {
      assert SameFrame(block.insts[i], next.insts[i]);
    }
  }

  /** The graph and the places of definitions are the same. */
  lemma FrameGraph(blocks: seq<Block>, next: seq<Block>)
    requires Framed(blocks, next)
    ensures SuccEdges(next) == SuccEdges(blocks)
    ensures forall d: BlockId, v :: DefinedIn(next, d, v) <==> DefinedIn(blocks, d, v)
    ensures forall v :: Parameter(next, v) <==> Parameter(blocks, v)
  {
    hide BlockFrame, Defines, Find;
    forall b: BlockId
      ensures Find(next, b).Some? <==> Find(blocks, b).Some?
      ensures Find(blocks, b).Some? ==> BlockFrame(Find(blocks, b).value, Find(next, b).value)
    {
      FindFramed(blocks, next, b);
    }
    forall b: BlockId | Find(blocks, b).Some?
      ensures Find(next, b).value.succs == Find(blocks, b).value.succs
    {
      FrameSuccs(Find(blocks, b).value, Find(next, b).value);
    }
    forall d: BlockId, v: Value
      ensures DefinedIn(next, d, v) <==> DefinedIn(blocks, d, v)
    {
      if Find(blocks, d).Some? {
        FrameDefines(Find(blocks, d).value, Find(next, d).value, v);
      }
    }
  }

  lemma FrameSuccs(block: Block, next: Block)
    requires BlockFrame(block, next)
    ensures next.succs == block.succs && next.id == block.id
  {
  }

  lemma FrameTerminated(block: Block, next: Block)
    requires BlockFrame(block, next) && WellTerminated(block) && PhisFirst(block)
    ensures WellTerminated(next) && PhisFirst(next)
  {
    forall i | 0 <= i < |block.insts|
      ensures IsTerminator(next.insts[i]) || next.insts[i].Phi? || IsTerminator(block.insts[i]) || block.insts[i].Phi?
        ==> next.insts[i] == block.insts[i]
    {
      assert SameFrame(block.insts[i], next.insts[i]);
    }
    forall k | k in next.insts && IsTerminator(k)
      ensures k in block.insts
    {
    }
  }

  lemma FrameUnique(block: Block, next: Block)
    requires BlockFrame(block, next)
    requires forall i, j | 0 <= i < |block.insts| && 0 <= j < |block.insts| && GetDef(block.insts[i]).Some?
      && GetDef(block.insts[i]) == GetDef(block.insts[j]) :: i == j
    ensures forall i, j | 0 <= i < |next.insts| && 0 <= j < |next.insts| && GetDef(next.insts[i]).Some?
      && GetDef(next.insts[i]) == GetDef(next.insts[j]) :: i == j
  {
    forall i | 0 <= i < |block.insts|
      ensures GetDef(next.insts[i]) == GetDef(block.insts[i])
    {
      assert SameFrame(block.insts[i], next.insts[i]);
    }
  }

  lemma FrameAvailable(blocks: seq<Block>, next: seq<Block>, entry: BlockId, block: Block, rewritten: Block, i: nat,
      v: Value)
    requires Framed(blocks, next) && BlockFrame(block, rewritten) && i <= |block.insts|
      && AvailableAt(blocks, entry, block, i, v)
    ensures AvailableAt(next, entry, rewritten, i, v)
  {
    FrameGraph(blocks, next);
    if j :| 0 <= j < i && GetDef(block.insts[j]) == Some(v) {
      assert SameFrame(block.insts[j], rewritten.insts[j]);
      assert GetDef(rewritten.insts[j]) == Some(v);
    }
  }

  lemma FrameUses(blocks: seq<Block>, next: seq<Block>, entry: BlockId, n: nat)
    requires Framed(blocks, next) && n < |blocks| && UsesAvailable(blocks, entry, blocks[n])
      && UsesStill(blocks, next, entry)
    ensures UsesAvailable(next, entry, next[n])
  {
    var block, rewritten := blocks[n], next[n];
    assert BlockFrame(block, rewritten);
    hide AvailableAt, Framed, BlockFrame;
    forall i, v | 0 <= i < |rewritten.insts| && v in GetUses(rewritten.insts[i])
      ensures AvailableAt(next, entry, rewritten, i, v)
    {
      FrameAvailable(blocks, next, entry, block, rewritten, i, v);
    }
    FrameGraph(blocks, next);
    FrameSuccs(block, rewritten);
    forall k, p | k in rewritten.insts && k.Phi? && p in k.mappings && (p, block.id) in SuccEdges(next)
      ensures AvailableAtEnd(next, entry, p, k.mappings[p])
    {
      FramePhi(block, rewritten, k);
    }
  }

  lemma FramePhi(block: Block, next: Block, k: Kind)
    requires BlockFrame(block, next) && k in next.insts && k.Phi?
    ensures k in block.insts
  {
    var i :| 0 <= i < |next.insts| && next.insts[i] == k;
    assert SameFrame(block.insts[i], k);
  }

  lemma FrameKeepsStrict(blocks: seq<Block>, next: seq<Block>, entry: BlockId)
    requires Strict(blocks, entry) && Framed(blocks, next) && UsesStill(blocks, next, entry)
    ensures Strict(next, entry)
  {
    hide BlockFrame, UsesStill, UsesAvailable, WellTerminated, PhisFirst;
    FrameGraph(blocks, next);
    forall n | 0 <= n < |blocks|
      ensures next[n].id == blocks[n].id && WellTerminated(next[n]) && PhisFirst(next[n])
        && UsesAvailable(next, entry, next[n])
      ensures forall i, j | 0 <= i < |next[n].insts| && 0 <= j < |next[n].insts| && GetDef(next[n].insts[i]).Some?
        && GetDef(next[n].insts[i]) == GetDef(next[n].insts[j]) :: i == j
    {
      assert blocks[n] in blocks;
      FrameSuccs(blocks[n], next[n]);
      FrameTerminated(blocks[n], next[n]);
      FrameUnique(blocks[n], next[n]);
      FrameUses(blocks, next, entry, n);
    }
  }

  // ----- folding -----

  lemma FoldFrame(k: Kind, f: Kind, c: F.Constants)
    requires F.FoldsTo(k, f, c)
    ensures SameFrame(k, f) && forall v | v in GetUses(f) :: v in GetUses(k)
  {
  }

  /** Folding keeps strict SSA. */
  lemma FoldingKeepsStrict(blocks: seq<Block>, entry: BlockId)
    requires Strict(blocks, entry)
    ensures Strict(F.FoldBlocks(blocks, map[]).0, entry)
  {
    var (folded, c) := F.FoldBlocks(blocks, map[]);
    F.StrictIsDistinct(blocks, entry);
    F.FoldBlocksOk(blocks, map[], c);
    FoldedFramed(blocks, folded, c);
    forall n, i, v | 0 <= n < |blocks| && 0 <= i < |blocks[n].insts| && v in GetUses(folded[n].insts[i])
      ensures AvailableAt(blocks, entry, blocks[n], i, v)
    {
      assert F.BlockFoldsTo(blocks[n], folded[n], c);
      FoldFrame(blocks[n].insts[i], folded[n].insts[i], c);
      assert blocks[n] in blocks;
    }
    FrameKeepsStrict(blocks, folded, entry);
  }

  lemma FoldedFramed(blocks: seq<Block>, folded: seq<Block>, c: F.Constants)
    requires |folded| == |blocks| && forall i | 0 <= i < |blocks| :: F.BlockFoldsTo(blocks[i], folded[i], c)
    ensures Framed(blocks, folded)
  {
    forall n | 0 <= n < |blocks|
      ensures BlockFrame(blocks[n], folded[n])
    {
      assert F.BlockFoldsTo(blocks[n], folded[n], c);
      forall i | 0 <= i < |blocks[n].insts|
        ensures SameFrame(blocks[n].insts[i], folded[n].insts[i])
      {
        FoldFrame(blocks[n].insts[i], folded[n].insts[i], c);
      }
    }
  }

  /** Folding touches no tensor instruction. */
  lemma FoldingKeepsTyping(blocks: seq<Block>, entry: BlockId, tensors: set<Value>)
    requires Strict(blocks, entry) && M.TypedBlocks(blocks, tensors)
    ensures M.TypedBlocks(F.FoldBlocks(blocks, map[]).0, tensors)
  {
    var (folded, c) := F.FoldBlocks(blocks, map[]);
    F.StrictIsDistinct(blocks, entry);
    F.FoldBlocksOk(blocks, map[], c);
    forall block, k | block in folded && k in block.insts
      ensures M.TypedKind(k, tensors)
    {
      var n :| 0 <= n < |folded| && folded[n] == block;
      assert F.BlockFoldsTo(blocks[n], block, c) && blocks[n] in blocks;
      var i :| 0 <= i < |block.insts| && block.insts[i] == k;
      FoldTyped(blocks[n].insts[i], k, c, tensors);
    }
  }

  lemma FoldTyped(k: Kind, f: Kind, c: F.Constants, tensors: set<Value>)
    requires F.FoldsTo(k, f, c) && M.TypedKind(k, tensors)
    ensures M.TypedKind(f, tensors)
  {
  }

  // ----- fusion -----

  /** v is used by one of the first i instructions. */
  ghost predicate UsedBefore(insts: seq<Kind>, i: nat, v: Value) {
    exists j | 0 <= j < i && j < |insts| :: v in GetUses(insts[j])
  }

  ghost predicate DefsUse(insts: seq<Kind>, i: nat, defs: DefMap) {
    forall w, v | w in defs && v in GetUses(defs[w]) :: UsedBefore(insts, i, v)
  }

  lemma UsedLater(insts: seq<Kind>, i: nat, v: Value)
    requires UsedBefore(insts, i, v)
    ensures UsedBefore(insts, i + 1, v)
  {
  }

  /** A fused kernel uses nothing that was not used up to the operation it replaces. */
  lemma FuseUsesBefore(insts: seq<Kind>, i: nat, defs: DefMap, counts: map<Value, nat>, tensors: set<Value>, v: Value)
    requires i < |insts| && Ordered(defs, Positions(insts)) && DefsUse(insts, i, defs)
    requires v in GetUses(FuseInst(insts[i], defs, counts, tensors, Positions(insts)))
    ensures UsedBefore(insts, i + 1, v)
  {
    hide FuseInst, Ordered, Positions;
    M.FuseInstUses(insts[i], defs, counts, tensors, Positions(insts), v);
    if v !in GetUses(insts[i]) {
      UsedLater(insts, i, v);
    }
  }

  lemma {:induction false} UpToUses(insts: seq<Kind>, i: nat, counts: map<Value, nat>, tensors: set<Value>)
    requires LocallyOrdered(insts) && i <= |insts|
    ensures var (fused, defs) := FusedUpTo(insts, i, counts, tensors);
      DefsUse(insts, i, defs) && forall n, v | 0 <= n < i && v in GetUses(fused[n]) :: UsedBefore(insts, n + 1, v)
  {
    hide LocallyOrdered, DefsOk, UsedBefore, GetUses, Positions, FuseInst, Ordered;
    if i > 0 {
      UpToUses(insts, i - 1, counts, tensors);
      UpToUsesStep(insts, i - 1, counts, tensors);
    }
  }

  lemma UpToUsesStep(insts: seq<Kind>, i: nat, counts: map<Value, nat>, tensors: set<Value>)
    requires LocallyOrdered(insts) && i < |insts|
    requires var (fused, defs) := FusedUpTo(insts, i, counts, tensors);
      DefsUse(insts, i, defs) && forall n, v | 0 <= n < i && v in GetUses(fused[n]) :: UsedBefore(insts, n + 1, v)
    ensures var (fused, defs) := FusedUpTo(insts, i + 1, counts, tensors);
      DefsUse(insts, i + 1, defs) && forall n, v | 0 <= n < i + 1
        && v in GetUses(fused[n]) :: UsedBefore(insts, n + 1, v)
  {
    hide LocallyOrdered, DefsOk, FusedUpTo, FuseInst, Positions, UsedBefore, GetUses, GetDef, TensorLike, Ordered;
    UpToStep(insts, i, counts, tensors);
    var defs := FusedUpTo(insts, i, counts, tensors).1;
    var f := FuseInst(insts[i], defs, counts, tensors, Positions(insts));
    forall v | v in GetUses(f)
      ensures UsedBefore(insts, i + 1, v)
    {
      FuseUsesBefore(insts, i, defs, counts, tensors, v);
    }
    forall w, v | w in defs && v in GetUses(defs[w])
      ensures UsedBefore(insts, i + 1, v)
    {
      UsedLater(insts, i, v);
    }
  }

  lemma FusedBlockFrame(block: Block, counts: map<Value, nat>, tensors: set<Value>)
    requires LocallyOrdered(block.insts)
    ensures BlockFrame(block, FuseBlock(block, counts, tensors))
  {
    hide LocallyOrdered, FusedUpTo;
    forall i | 0 <= i < |block.insts|
      ensures SameFrame(block.insts[i], FuseBlock(block, counts, tensors).insts[i])
    {
      UpToKeepsOrFuses(block.insts, |block.insts|, counts, tensors, i);
    }
  }

  lemma AvailableFromUse(blocks: seq<Block>, entry: BlockId, block: Block, i: nat, v: Value)
    requires UsesAvailable(blocks, entry, block) && i < |block.insts| && UsedBefore(block.insts, i + 1, v)
    ensures AvailableAt(blocks, entry, block, i, v)
  {
    var j :| 0 <= j < i + 1 && v in GetUses(block.insts[j]);
    assert AvailableAt(blocks, entry, block, j, v);
  }

  /** Fusion keeps strict SSA. */
  lemma FusionKeepsStrict(blocks: seq<Block>, entry: BlockId, counts: map<Value, nat>, tensors: set<Value>)
    requires Strict(blocks, entry) && forall block | block in blocks :: LocallyOrdered(block.insts)
    ensures Strict(FuseAll(blocks, counts, tensors), entry)
  {
    var fused := FuseAll(blocks, counts, tensors);
    forall n | 0 <= n < |blocks|
      ensures BlockFrame(blocks[n], fused[n])
    {
      FusedBlockFrame(blocks[n], counts, tensors);
    }
    forall n, i, v | 0 <= n < |blocks| && 0 <= i < |blocks[n].insts| && v in GetUses(fused[n].insts[i])
      ensures AvailableAt(blocks, entry, blocks[n], i, v)
    {
      assert blocks[n] in blocks;
      hide LocallyOrdered, FusedUpTo, UsedBefore, AvailableAt;
      UpToUses(blocks[n].insts, |blocks[n].insts|, counts, tensors);
      AvailableFromUse(blocks, entry, blocks[n], i, v);
    }
    FrameKeepsStrict(blocks, fused, entry);
  }

  lemma StrictAllOrdered(blocks: seq<Block>, entry: BlockId)
    requires Strict(blocks, entry)
    ensures forall block | block in blocks :: LocallyOrdered(block.insts)
  {
    forall block | block in blocks
      ensures LocallyOrdered(block.insts)
    {
      M.StrictIsOrdered(blocks, entry, block);
    }
  }

  lemma StrictIsSingle(blocks: seq<Block>, entry: BlockId)
    requires Strict(blocks, entry)
    ensures SingleAssignment(blocks)
  {
    forall b1, b2, k1, k2 | b1 in blocks && b2 in blocks && k1 in b1.insts && k2 in b2.insts && GetDef(k1).Some?
      && GetDef(k1) == GetDef(k2)
      ensures k1 == k2
    {
      InBlock(blocks, b1, k1);
      InBlock(blocks, b2, k2);
      hide Find, Defines, UsesAvailable, Dominates;
      assert b1.id == b2.id;
    }
  }

  lemma InBlock(blocks: seq<Block>, block: Block, k: Kind)
    requires UniqueIds(blocks) && block in blocks && k in block.insts && GetDef(k).Some?
    ensures DefinedIn(blocks, block.id, GetDef(k).value) && Find(blocks, block.id) == Some(block)
  {
    var n :| 0 <= n < |blocks| && blocks[n] == block;
    FindAt(blocks, n);
    var i :| 0 <= i < |block.insts| && block.insts[i] == k;
    assert GetDef(block.insts[i]) == Some(GetDef(k).value);
  }

  // ----- dead code elimination -----

  /** Where a kept instruction ends up. */
  function Where(insts: seq<Kind>, used: set<Value>, i: nat): (n: nat)
    requires i < |insts| && D.Keeps(insts[i], used)
    ensures n < |D.Retain(insts, used)| && D.Retain(insts, used)[n] == insts[i]
  {
    if i == 0 then 0
    else (if D.Keeps(insts[0], used) then 1 else 0) + Where(insts[1..], used, i - 1)
  }

  lemma {:induction false} WhereOrdered(insts: seq<Kind>, used: set<Value>, i: nat, j: nat)
    requires i < j < |insts| && D.Keeps(insts[i], used) && D.Keeps(insts[j], used)
    ensures Where(insts, used, i) < Where(insts, used, j)
  {
    if i > 0 {
      WhereOrdered(insts[1..], used, i - 1, j - 1);
    }
  }

  /** Every retained instruction comes from somewhere. */
  lemma {:induction false} CameFrom(insts: seq<Kind>, used: set<Value>, n: nat) returns (i: nat)
    requires n < |D.Retain(insts, used)|
    ensures i < |insts| && D.Keeps(insts[i], used) && Where(insts, used, i) == n
  {
    D.RetainUnfolds(insts, used);
    if D.Keeps(insts[0], used) && n == 0 {
      i := 0;
    } else {
      var j := CameFrom(insts[1..], used, if D.Keeps(insts[0], used) then n - 1 else n);
      i := j + 1;
    }
  }

  lemma OrderedFrom(insts: seq<Kind>, used: set<Value>, n: nat, l: nat) returns (i: nat, j: nat)
    requires n < l < |D.Retain(insts, used)|
    ensures i < j < |insts| && D.Retain(insts, used)[n] == insts[i] && D.Retain(insts, used)[l] == insts[j]
  {
    i := CameFrom(insts, used, n);
    j := CameFrom(insts, used, l);
    if j < i {
      WhereOrdered(insts, used, j, i);
    }
  }

  lemma PrunedShape(block: Block, used: set<Value>)
    requires WellTerminated(block) && PhisFirst(block)
    requires forall i, j | 0 <= i < |block.insts| && 0 <= j < |block.insts| && GetDef(block.insts[i]).Some?
      && GetDef(block.insts[i]) == GetDef(block.insts[j]) :: i == j
    ensures var next := D.PruneBlock(block, used);
      && WellTerminated(next) && PhisFirst(next)
      && forall i, j | 0 <= i < |next.insts| && 0 <= j < |next.insts| && GetDef(next.insts[i]).Some?
        && GetDef(next.insts[i]) == GetDef(next.insts[j]) :: i == j
  {
    var next := D.PruneBlock(block, used);
    D.RetainKeeps(block.insts, used);
    forall n, l | 0 <= n < l < |next.insts|
      ensures !IsTerminator(next.insts[n]) && (next.insts[l].Phi? ==> next.insts[n].Phi?)
      ensures GetDef(next.insts[n]).Some? ==> GetDef(next.insts[n]) != GetDef(next.insts[l])
    {
      var i, j := OrderedFrom(block.insts, used, n, l);
    }
    forall n | 0 <= n < |next.insts| - 1
      ensures !IsTerminator(next.insts[n])
    {
      var i, j := OrderedFrom(block.insts, used, n, |next.insts| - 1);
    }
  }

  lemma DefinesKept(insts: seq<Kind>, used: set<Value>, v: Value)
    ensures Defines(D.Retain(insts, used), v) ==> Defines(insts, v)
    ensures v in used && Defines(insts, v) ==> Defines(D.Retain(insts, used), v)
  {
    var kept := D.Retain(insts, used);
    D.RetainKeeps(insts, used);
    if n :| 0 <= n < |kept| && GetDef(kept[n]) == Some(v) {
      var i := CameFrom(insts, used, n);
      assert GetDef(insts[i]) == Some(v);
    }
    if i :| v in used && 0 <= i < |insts| && GetDef(insts[i]) == Some(v) {
      assert GetDef(kept[Where(insts, used, i)]) == Some(v);
    }
  }

  /** The graph is the same, and so are the places of definitions something kept uses. */
  lemma PrunedGraph(blocks: seq<Block>, used: set<Value>)
    ensures SuccEdges(D.Prune(blocks, used)) == SuccEdges(blocks)
    ensures forall d: BlockId, v | DefinedIn(D.Prune(blocks, used), d, v) :: DefinedIn(blocks, d, v)
    ensures forall d: BlockId, v | v in used && DefinedIn(blocks, d, v) :: DefinedIn(D.Prune(blocks, used), d, v)
    ensures forall v | Parameter(blocks, v) :: Parameter(D.Prune(blocks, used), v)
  {
    var next := D.Prune(blocks, used);
    hide Defines, Find, D.Prune, D.Retain;
    forall b: BlockId
      ensures Find(next, b) == match Find(blocks, b) case None => None case Some(block) =>
        Some(D.PruneBlock(block, used))
    {
      D.FindPruned(blocks, used, b);
    }
    forall d: BlockId, v
      ensures DefinedIn(next, d, v) ==> DefinedIn(blocks, d, v)
      ensures v in used && DefinedIn(blocks, d, v) ==> DefinedIn(next, d, v)
    {
      if Find(blocks, d).Some? {
        DefinesKept(Find(blocks, d).value.insts, used, v);
      }
    }
  }

  lemma PrunedAvailable(blocks: seq<Block>, used: set<Value>, entry: BlockId, block: Block, n: nat, v: Value)
    requires UsesAvailable(blocks, entry, block) && D.OperandsIn(block.insts, used)
    requires var kept := D.Retain(block.insts, used); n < |kept| && v in GetUses(kept[n])
    ensures AvailableAt(D.Prune(blocks, used), entry, D.PruneBlock(block, used), n, v)
  {
    var kept := D.Retain(block.insts, used);
    var i := CameFrom(block.insts, used, n);
    assert AvailableAt(blocks, entry, block, i, v);
    assert v in Operands(block.insts[i]) && v in used;
    PrunedGraph(blocks, used);
    if j :| 0 <= j < i && GetDef(block.insts[j]) == Some(v) {
      WhereOrdered(block.insts, used, j, i);
      assert GetDef(kept[Where(block.insts, used, j)]) == Some(v);
    }
  }

  lemma PrunedUses(blocks: seq<Block>, used: set<Value>, entry: BlockId, block: Block)
    requires UsesAvailable(blocks, entry, block) && D.OperandsIn(block.insts, used)
    ensures UsesAvailable(D.Prune(blocks, used), entry, D.PruneBlock(block, used))
  {
    var next := D.PruneBlock(block, used);
    hide AvailableAt, D.OperandsIn, D.Prune, D.Retain;
    forall n, v | 0 <= n < |next.insts| && v in GetUses(next.insts[n])
      ensures AvailableAt(D.Prune(blocks, used), entry, next, n, v)
    {
      PrunedAvailable(blocks, used, entry, block, n, v);
    }
    PrunedGraph(blocks, used);
    D.RetainKeeps(block.insts, used);
    forall k, p | k in next.insts && k.Phi? && p in k.mappings && (p, next.id) in SuccEdges(D.Prune(blocks, used))
      ensures AvailableAtEnd(D.Prune(blocks, used), entry, p, k.mappings[p])
    {
      PhiOperandUsed(block, used, k, p);
    }
  }

  lemma PhiOperandUsed(block: Block, used: set<Value>, k: Kind, p: BlockId)
    requires D.OperandsIn(block.insts, used) && k in block.insts && D.Keeps(k, used) && k.Phi? && p in k.mappings
    ensures k.mappings[p] in used
  {
    assert k.mappings[p] in k.mappings.Values;
  }

  /** Dead code elimination keeps strict SSA. */
  lemma PruningKeepsStrict(blocks: seq<Block>, entry: BlockId, used: set<Value>)
    requires Strict(blocks, entry) && D.IsRequired(blocks, used)
    ensures Strict(D.Prune(blocks, used), entry)
  {
    var next := D.Prune(blocks, used);
    StrictIsSingle(blocks, entry);
    PrunedGraph(blocks, used);
    hide WellTerminated, PhisFirst, UsesAvailable, D.Retain, D.IsRequired, SingleAssignment;
    forall n | 0 <= n < |blocks|
      ensures next[n].id == blocks[n].id && WellTerminated(next[n]) && PhisFirst(next[n])
        && UsesAvailable(next, entry, next[n])
      ensures forall i, j | 0 <= i < |next[n].insts| && 0 <= j < |next[n].insts| && GetDef(next[n].insts[i]).Some?
        && GetDef(next[n].insts[i]) == GetDef(next[n].insts[j]) :: i == j
    {
      assert blocks[n] in blocks;
      D.KeptUsesIn(blocks, used, blocks[n]);
      PrunedShape(blocks[n], used);
      PrunedUses(blocks, used, entry, blocks[n]);
    }
  }

  // ----- the pipeline -----

  /** Functions that take the same steps along every path from the entry run alike. */
  lemma {:induction false} SameStepsSameRun(m: Machine, blocks: seq<Block>, next: seq<Block>, p: seq<BlockId>,
      s0: State, b: BlockId, n: nat)
    requires p != [] && StepAt(m, blocks, p, s0).Some? && StepAt(m, blocks, p, s0).value.exit == Goto(b)
    requires forall q | q != [] && q[0] == p[0] :: StepAt(m, next, q, s0) == StepAt(m, blocks, q, s0)
    ensures var s := StepAt(m, blocks, p, s0).value.state;
      Run(m, next, b, Some(p[|p| - 1]), s, n) == Run(m, blocks, b, Some(p[|p| - 1]), s, n)
    decreases n
  {
    hide RunBlock, Find, Run;
    var s := StepAt(m, blocks, p, s0).value.state;
    if n == 0 {
      RunNone(m, next, b, Some(p[|p| - 1]), s);
      RunNone(m, blocks, b, Some(p[|p| - 1]), s);
    } else {
      var q := p + [b];
      SameNext(m, blocks, next, p, s0, b);
      hide StepAt;
      if Find(blocks, b).Some? && StepAt(m, blocks, q, s0).value.exit.Goto? {
        SameStepsSameRun(m, blocks, next, q, s0, StepAt(m, blocks, q, s0).value.exit.target, n - 1);
      }
      RunNext(m, next, blocks, b, Some(p[|p| - 1]), s, s, n);
    }
  }

  /** Both functions have the block the step leads to, or neither has, and run it alike. */
  lemma SameNext(m: Machine, blocks: seq<Block>, next: seq<Block>, p: seq<BlockId>, s0: State, b: BlockId)
    requires p != [] && StepAt(m, blocks, p, s0).Some? && StepAt(m, blocks, p, s0).value.exit == Goto(b)
    requires forall q | q != [] && q[0] == p[0] :: StepAt(m, next, q, s0) == StepAt(m, blocks, q, s0)
    ensures Find(next, b).Some? <==> Find(blocks, b).Some?
    ensures Find(blocks, b).Some? ==>
      var s := StepAt(m, blocks, p, s0).value.state;
      && StepAt(m, blocks, p + [b], s0) == Some(RunBlock(m, Find(blocks, b).value, Some(p[|p| - 1]), s))
      && RunBlock(m, Find(next, b).value, Some(p[|p| - 1]), s)
        == RunBlock(m, Find(blocks, b).value, Some(p[|p| - 1]), s)
  {
    var q := p + [b];
    assert StepAt(m, next, p, s0) == StepAt(m, blocks, p, s0) && StepAt(m, next, q, s0) == StepAt(m, blocks, q, s0);
    assert Find(blocks, b).None? ==> StepAt(m, blocks, q, s0).None?;
    assert Find(next, b).None? ==> StepAt(m, next, q, s0).None?;
    hide RunBlock, Find;
    if Find(blocks, b).Some? {
      ExtendStep(m, blocks, p, s0, b);
    }
    if Find(next, b).Some? {
      ExtendStep(m, next, p, s0, b);
    }
  }

  lemma SameStepsSameStart(m: Machine, blocks: seq<Block>, next: seq<Block>, entry: BlockId, s0: State, n: nat)
    requires forall q | q != [] && q[0] == entry :: StepAt(m, next, q, s0) == StepAt(m, blocks, q, s0)
    ensures Run(m, next, entry, None, s0, n) == Run(m, blocks, entry, None, s0, n)
  {
    hide RunBlock, Find, Run;
    if n == 0 {
      RunNone(m, next, entry, None, s0);
      RunNone(m, blocks, entry, None, s0);
    } else {
      assert StepAt(m, next, [entry], s0) == StepAt(m, blocks, [entry], s0);
      FirstStep(m, blocks, entry, s0);
      FirstStep(m, next, entry, s0);
      hide StepAt;
      if Find(blocks, entry).Some? && StepAt(m, blocks, [entry], s0).value.exit.Goto? {
        SameStepsSameRun(m, blocks, next, [entry], s0, StepAt(m, blocks, [entry], s0).value.exit.target, n - 1);
      }
      RunNext(m, next, blocks, entry, None, s0, s0, n);
    }
  }

  lemma FirstStep(m: Machine, blocks: seq<Block>, b: BlockId, s0: State)
    ensures StepAt(m, blocks, [b], s0)
      == if Find(blocks, b).Some? then Some(RunBlock(m, Find(blocks, b).value, None, s0)) else None
  {
  }

  /** What the pipeline makes of a function, given the use counts and the required values it found. */
  ghost function Optimized(blocks: seq<Block>, tensors: set<Value>, counts: map<Value, nat>,
      used: set<Value>): seq<Block>
    requires forall block | block in F.FoldBlocks(blocks, map[]).0 :: LocallyOrdered(block.insts)
  {
    D.Prune(FuseAll(F.FoldBlocks(blocks, map[]).0, counts, tensors), used)
  }

  /** The pipeline keeps strict SSA and preserves every run: same path, same side effects on the same
      operand values, same ending, result and memory. */
  lemma PipelinePreservesRuns(m: Machine, blocks: seq<Block>, entry: BlockId, counts: map<Value, nat>, used: set<Value>,
      s0: State, n: nat)
    requires Strict(blocks, entry) && F.WidthsOk(m, blocks) && M.TypedBlocks(blocks, m.tensors)
      && OnlyParameters(blocks, s0)
    requires forall block | block in F.FoldBlocks(blocks, map[]).0 :: LocallyOrdered(block.insts)
    requires D.IsRequired(FuseAll(F.FoldBlocks(blocks, map[]).0, counts, m.tensors), used)
    ensures Strict(Optimized(blocks, m.tensors, counts, used), entry)
    ensures Run(m, Optimized(blocks, m.tensors, counts, used), entry, None, s0, n) == Run(m, blocks, entry, None, s0, n)
  {
    hide Strict, F.FoldBlocks, FuseAll, D.Prune, LocallyOrdered, M.TypedBlocks, F.WidthsOk, D.IsRequired,
      OnlyParameters, SingleAssignment;
    var folded := F.FoldBlocks(blocks, map[]).0;
    forall q | q != [] && q[0] == entry
      ensures StepAt(m, folded, q, s0) == StepAt(m, blocks, q, s0)
    {
      F.RunsPreserved(m, blocks, entry, q, s0);
    }
    SameStepsSameStart(m, blocks, folded, entry, s0, n);
    FoldingKeepsStrict(blocks, entry);
    FoldingKeepsTyping(blocks, entry, m.tensors);
    var fused := FuseAll(folded, counts, m.tensors);
    M.RunsPreserved(m, folded, counts, entry, None, s0, n);
    FusionKeepsStrict(folded, entry, counts, m.tensors);
    StrictIsSingle(fused, entry);
    D.RunsPreserved(m, fused, used, entry, None, s0, s0, n);
    PruningKeepsStrict(fused, entry, used);
  }

  /** The result is what folding leaves, fused by its use counts, and then only what is required of it. */
  ghost predicate Pipelined(blocks: seq<Block>, tensors: set<Value>, counts: map<Value, nat>, used: set<Value>,
      result: seq<Block>) {
    var folded := F.FoldBlocks(blocks, map[]).0;
    && (forall block | block in folded :: LocallyOrdered(block.insts))
    && (forall v: Value :: CountOf(counts, v) == CountAll(folded, v))
    && D.IsRequired(FuseAll(folded, counts, tensors), used)
    && result == D.Prune(FuseAll(folded, counts, tensors), used)
  }

  /** Runs the passes one after the other. */
  method Optimize(func: Function, tensors: set<Value>)
    requires Strict(func.blocks, func.entry)
    modifies func
    ensures Strict(func.blocks, func.entry)
    ensures exists counts, used :: Pipelined(old(func.blocks), tensors, counts, used, func.blocks)
    ensures forall m: Machine, s0, n: nat |
      m.tensors == tensors && F.WidthsOk(m, old(func.blocks)) && M.TypedBlocks(old(func.blocks), tensors)
        && OnlyParameters(old(func.blocks), s0) ::
      Run(m, func.blocks, func.entry, None, s0, n) == Run(m, old(func.blocks), func.entry, None, s0, n)
  {
    ghost var blocks := func.blocks;
    F.FoldConstants(func);
    FoldingKeepsStrict(blocks, func.entry);
    StrictAllOrdered(func.blocks, func.entry);
    ghost var folded := func.blocks;
    FuseTensorKernels(func, tensors);
    ghost var counts :| (forall v: Value :: CountOf(counts, v) == CountAll(folded, v))
      && func.blocks == FuseAll(folded, counts, tensors);
    FusionKeepsStrict(folded, func.entry, counts, tensors);
    ghost var fused := func.blocks;
    D.EliminateDeadCode(func);
    ghost var used :| D.IsRequired(fused, used) && func.blocks == D.Prune(fused, used);
    PruningKeepsStrict(fused, func.entry, used);
    hide Strict, F.FoldBlocks, FuseAll, D.Prune, LocallyOrdered, M.TypedBlocks, F.WidthsOk, D.IsRequired,
      OnlyParameters, CountAll, CountOf;
    assert Pipelined(blocks, tensors, counts, used, func.blocks);
    forall m: Machine, s0, n: nat | m.tensors == tensors && F.WidthsOk(m, blocks) && M.TypedBlocks(blocks, tensors)
      && OnlyParameters(blocks, s0)
      ensures Run(m, func.blocks, func.entry, None, s0, n) == Run(m, blocks, func.entry, None, s0, n)
    {
      PipelinePreservesRuns(m, blocks, func.entry, counts, used, s0, n);
    }
  }
}
