/** What a finished SSA construction means: along every path the value a variable reads as is the
    value last stored to it on that path. */
module SsaCorrectness {
  import opened IR
  import opened Cfg
  import opened Semantics
  import opened SsaBuilder

  /** The result an ordinary definition yields at the end of a walk; left arbitrary, so the
      theorems hold for every meaning of the instructions. */
  type Results = (seq<BlockId>, Value) -> Val

  /** The value v holds at the end of the last block of p. Entering a block, its phis take the
      operands of the edge from the store before that block; other definitions take new results;
      everything else is left alone. */
  ghost function Eval(s: Snapshot, run: Results, p: seq<BlockId>, v: Value): Val
    decreases |p|
  {
    if |p| <= 1 || p[|p| - 1] >= |s.blocks| then run(p, v)
    else
      var insts := s.blocks[p[|p| - 1]].insts;
      match PhiOps(insts, v)
      case Some(ops) =>
        if p[|p| - 2] in ops then Eval(s, run, p[..|p| - 1], ops[p[|p| - 2]]) else run(p, v)
      case None =>
        if Defines(insts, v) then run(p, v) else Eval(s, run, p[..|p| - 1], v)
  }

  /** What the source program holds in x at the end of p: the value of the most recent store. */
  ghost function LastStore(s: Snapshot, run: Results, p: seq<BlockId>, x: string): Option<Val>
    decreases |p|
  {
    if p == [] then None
    else if (x, p[|p| - 1]) in s.written then Some(Eval(s, run, p, s.written[(x, p[|p| - 1])]))
    else LastStore(s, run, p[..|p| - 1], x)
  }

  /** The front end only stores values it can name at that point: their definition dominates the
      block of the store, or they were read from a variable on entry to that block. */
  ghost predicate StoresAvailable(s: Snapshot) {
    forall x, c: BlockId | (x, c) in s.written ::
      || DefinitionDominates(s, s.written[(x, c)], c)
      || exists y :: (y, c) in s.entries && s.entries[(y, c)] == s.written[(x, c)]
  }

  ghost predicate DefinitionDominates(s: Snapshot, v: Value, c: BlockId) {
    forall d: BlockId | d < |s.blocks| && Defines(s.blocks[d].insts, v) ::
      Dominates(EdgesOf(s.blocks), ENTRY, d, c)
  }

  ghost predicate EntryWalk(s: Snapshot, p: seq<BlockId>) {
    IsPath(EdgesOf(s.blocks), p) && p[0] == ENTRY && forall c | c in p :: c in s.sealed && c < |s.blocks|
  }

  lemma EntryWalkPrefix(s: Snapshot, p: seq<BlockId>, k: nat)
    requires EntryWalk(s, p) && 1 <= k <= |p|
    ensures EntryWalk(s, p[..k])
  {
    PrefixIsPath(EdgesOf(s.blocks), p, k);
  }

  /** Whatever a variable reads as, at the end of a block or on entry to it, is defined on every
      walk to that block. */
  lemma {:induction false} DefinedOnWalk(s: Snapshot, p: seq<BlockId>, x: string, v: Value, d: BlockId)
    requires Inv(s) && s.pending == {} && StoresAvailable(s) && EntryWalk(s, p)
    requires var c := p[|p| - 1];
      DefOf(s.defs, x, c) == Some(v) || ((x, c) in s.entries && s.entries[(x, c)] == v)
    requires d < |s.blocks| && Defines(s.blocks[d].insts, v)
    ensures d in p
    decreases |p|
  {
    var c := p[|p| - 1];
    if (x, c) in s.entries && s.entries[(x, c)] == v {
      EntryDefinedOnWalk(s, p, x, v, d);
    } else {
      assert (x, c) in s.written && s.written[(x, c)] == v;
      if DefinitionDominates(s, v, c) {
        assert Walk(EdgesOf(s.blocks), ENTRY, p, c);
      } else {
        var y :| (y, c) in s.entries && s.entries[(y, c)] == v;
        EntryDefinedOnWalk(s, p, y, v, d);
      }
    }
  }

  lemma {:induction false} EntryDefinedOnWalk(s: Snapshot, p: seq<BlockId>, x: string, v: Value, d: BlockId)
    requires Inv(s) && s.pending == {} && StoresAvailable(s) && EntryWalk(s, p)
    requires (x, p[|p| - 1]) in s.entries && s.entries[(x, p[|p| - 1])] == v
    requires d < |s.blocks| && Defines(s.blocks[d].insts, v)
    ensures d in p
    decreases |p|, 0
  {
    var c := p[|p| - 1];
    assert EntryOk(s, x, c);
    if CopiesPredecessor(s, x, c, v) {
      StepFromOnlyPredecessor(s, p);
      EntryWalkPrefix(s, p, |p| - 1);
      DefinedOnWalk(s, p[..|p| - 1], x, v, d);
    } else {
      assert Defines(s.blocks[c].insts, v);
    }
  }

  lemma StepFromOnlyPredecessor(s: Snapshot, p: seq<BlockId>)
    requires Inv(s) && EntryWalk(s, p) && p[|p| - 1] != ENTRY && |s.blocks[p[|p| - 1]].preds| == 1
    ensures |p| > 1 && p[|p| - 2] == s.blocks[p[|p| - 1]].preds[0]
  {
  }

  /** A block with a single predecessor does not redefine what it takes over from it, even inside a
      loop: otherwise it and its predecessor would dominate each other. */
  lemma CopyIsNotClobbered(s: Snapshot, p: seq<BlockId>, x: string, v: Value)
    requires Inv(s) && s.pending == {} && StoresAvailable(s) && EntryWalk(s, p)
    requires (x, p[|p| - 1]) in s.entries && CopiesPredecessor(s, x, p[|p| - 1], v)
    ensures !Defines(s.blocks[p[|p| - 1]].insts, v)
  {
    var c := p[|p| - 1];
    assert EntryOk(s, x, c);
    if Defines(s.blocks[c].insts, v) {
      var i := FirstOccurrence(p, c);
      EntryWalkPrefix(s, p, i + 1);
      StepFromOnlyPredecessor(s, p[..i + 1]);
      EntryWalkPrefix(s, p, i);
      assert p[..i][|p[..i]| - 1] == s.blocks[c].preds[0];
      DefinedOnWalk(s, p[..i], x, v, c);
    }
  }

  /** A variable looked up on entry to a block reads as its last stored value. */
  lemma {:induction false} EntryReadGivesLastStore(s: Snapshot, run: Results, p: seq<BlockId>, x: string)
    requires Inv(s) && s.pending == {} && StoresAvailable(s) && EntryWalk(s, p)
    requires (x, p[|p| - 1]) in s.entries
    ensures |p| > 1
    ensures LastStore(s, run, p[..|p| - 1], x) == Some(Eval(s, run, p, s.entries[(x, p[|p| - 1])]))
    decreases |p|, 0
  {
    var c := p[|p| - 1];
    var v := s.entries[(x, c)];
    assert EntryOk(s, x, c);
    assert (p[|p| - 2], c) in EdgesOf(s.blocks);
    var q, b := p[..|p| - 1], p[|p| - 2];
    EntryWalkPrefix(s, p, |p| - 1);
    if CopiesPredecessor(s, x, c, v) {
      CopyIsNotClobbered(s, p, x, v);
      ReadGivesLastStore(s, run, q, x, v);
    } else {
      var ops := PhiOps(s.blocks[c].insts, v).value;
      assert Complete(s, x, c, ops);
      ReadGivesLastStore(s, run, q, x, ops[b]);
    }
  }

  /** SSA construction is correct on every path, loops included: whatever value the builder holds
      for x in a block evaluates, along any walk from the entry to that block, to the value last
      stored to x on that walk. */
  lemma {:induction false} ReadGivesLastStore(s: Snapshot, run: Results, p: seq<BlockId>, x: string, v: Value)
    requires Inv(s) && s.pending == {} && StoresAvailable(s) && EntryWalk(s, p)
    requires DefOf(s.defs, x, p[|p| - 1]) == Some(v)
    ensures LastStore(s, run, p, x) == Some(Eval(s, run, p, v))
    decreases |p|, 1
  {
    var c := p[|p| - 1];
    if (x, c) !in s.written {
      EntryReadGivesLastStore(s, run, p, x);
    }
  }

  /** A lookup succeeds only where a store reaches it from everywhere: from a bound block no walk back
      to a block without predecessors avoids all stores, unless that block was itself read on entry
      before it was sealed. */
  lemma {:induction false} BoundIsStored(s: Snapshot, x: string, w: seq<BlockId>)
    requires Inv(s) && s.pending == {} && IsPath(EdgesOf(s.blocks), w)
      && (forall c | c in w :: c in s.sealed && c < |s.blocks|)
    requires DefOf(s.defs, x, w[|w| - 1]).Some? && forall c | c in w :: (x, c) !in s.written
    requires forall c: BlockId | c in w && s.blocks[c].preds == [] :: (x, c) !in s.entries
    ensures w[0] < |s.blocks| && s.blocks[w[0]].preds != []
    decreases |w|
  {
    var c := w[|w| - 1];
    assert (x, c) in s.entries && EntryOk(s, x, c);
    if |w| > 1 {
      var q := w[..|w| - 1];
      assert w == q + [c];
      assert (q[|q| - 1], c) in EdgesOf(s.blocks);
      BoundIsStored(s, x, q);
    }
  }
}
