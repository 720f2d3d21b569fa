/** The order blocks are lowered in: a depth-first post-order, reversed. */
module BlockOrder {
  import opened IR
  import opened Cfg
  import opened StrictSsa

  function Successors(blocks: seq<Block>, b: BlockId): seq<BlockId> {
    match Find(blocks, b)
    case None => []
    case Some(block) => block.succs
  }

  /** Every id a search can come across. */
  function Ids(blocks: seq<Block>, entry: BlockId): set<BlockId> {
    {entry} + set block, c | block in blocks && c in block.succs :: c
  }

  ghost predicate NoDuplicates(order: seq<BlockId>) {
    forall i, j | 0 <= i < j < |order| :: order[i] != order[j]
  }

  /** No block comes after one it dominates: in a post-order dominators come last. */
  ghost predicate DominatorsLast(blocks: seq<Block>, entry: BlockId, post: seq<BlockId>) {
    forall i, j | 0 <= i < j < |post| :: !Dominates(SuccEdges(blocks), entry, post[i], post[j])
  }

  ghost predicate DominatorsFirst(blocks: seq<Block>, entry: BlockId, order: seq<BlockId>) {
    forall i, j | 0 <= i < j < |order| :: !Dominates(SuccEdges(blocks), entry, order[j], order[i])
  }

  /** The state of the search while the blocks on `stack` are being visited. */
  ghost predicate Searching(blocks: seq<Block>, entry: BlockId, visited: set<BlockId>, post: seq<BlockId>,
      stack: seq<BlockId>) {
    && visited <= Ids(blocks, entry)
    && (forall b :: b in visited <==> b in post || b in stack)
    && (forall b | b in post :: b !in stack && Reachable(SuccEdges(blocks), entry, b))
    && (forall b, c | b in post && c in Successors(blocks, b) :: c in visited)
    && NoDuplicates(post) && DominatorsLast(blocks, entry, post)
  }

  /** The stack is a walk from the entry. */
  ghost predicate StackWalk(blocks: seq<Block>, entry: BlockId, stack: seq<BlockId>) {
    stack != [] ==> Walk(SuccEdges(blocks), entry, stack, stack[|stack| - 1])
  }

  /** Finishing the block on top of the stack keeps dominators last: all its dominators are on the
      stack, so none has been finished. */
  lemma Finish(blocks: seq<Block>, entry: BlockId, visited: set<BlockId>, post: seq<BlockId>, stack: seq<BlockId>,
      b: BlockId)
    requires Searching(blocks, entry, visited, post, stack + [b]) && StackWalk(blocks, entry, stack + [b])
      && b !in stack
    requires forall c | c in Successors(blocks, b) :: c in visited
    ensures Searching(blocks, entry, visited, post + [b], stack)
  {
  }

  class Search {
    const blocks: seq<Block>
    const entry: BlockId
    var visited: set<BlockId>
    var post: seq<BlockId>

    constructor (blocks: seq<Block>, entry: BlockId)
      ensures this.blocks == blocks && this.entry == entry && visited == {} && post == []
    {
      this.blocks, this.entry := blocks, entry;
      visited, post := {}, [];
    }

    /** Visits what is reachable from b without passing visited blocks, then appends b. */
    method Visit(b: BlockId, ghost stack: seq<BlockId>)
      requires Searching(blocks, entry, visited, post, stack) && b in Ids(blocks, entry)
      requires StackWalk(blocks, entry, stack + [b])
      modifies this
      ensures Searching(blocks, entry, visited, post, stack)
      ensures old(visited) + {b} <= visited && old(post) <= post
      decreases Ids(blocks, entry) - visited
    {
      hide Searching, StackWalk, Ids;
      if b in visited {
        return;
      }
      visited := visited + {b};
      ghost var walk := stack + [b];
      Open(blocks, entry, visited - {b}, post, stack, b);
      var succs := Successors(blocks, b);
      for i := 0 to |succs|
        invariant Searching(blocks, entry, visited, post, walk)
        invariant old(visited) + {b} <= visited && old(post) <= post
        invariant forall c | c in succs[..i] :: c in visited
      {
        SuccessorWalk(blocks, entry, stack, b, succs[i]);
        Visit(succs[i], walk);
      }
      assert succs[..|succs|] == succs;
      Finish(blocks, entry, visited, post, stack, b);
      post := post + [b];
    }
  }

  lemma Open(blocks: seq<Block>, entry: BlockId, visited: set<BlockId>, post: seq<BlockId>, stack: seq<BlockId>,
      b: BlockId)
    requires Searching(blocks, entry, visited, post, stack) && b in Ids(blocks, entry) && b !in visited
    ensures Searching(blocks, entry, visited + {b}, post, stack + [b]) && b !in stack
  {
  }

  lemma SuccessorWalk(blocks: seq<Block>, entry: BlockId, stack: seq<BlockId>, b: BlockId, c: BlockId)
    requires StackWalk(blocks, entry, stack + [b]) && c in Successors(blocks, b)
    ensures StackWalk(blocks, entry, stack + [b] + [c]) && c in Ids(blocks, entry)
  {
  }

  lemma {:induction false} SearchedIsClosed(blocks: seq<Block>, entry: BlockId, post: seq<BlockId>, p: seq<BlockId>)
    requires entry in post && forall b, c | b in post && c in Successors(blocks, b) :: c in post
    requires IsPath(SuccEdges(blocks), p) && p[0] == entry
    ensures p[|p| - 1] in post
    decreases |p|
  {
    if |p| > 1 {
      SearchedIsClosed(blocks, entry, post, p[..|p| - 1]);
    }
  }

  function Reversed(s: seq<BlockId>): (r: seq<BlockId>)
    ensures |r| == |s| && forall i | 0 <= i < |s| :: r[i] == s[|s| - 1 - i]
  {
    if s == [] then [] else Reversed(s[1..]) + [s[0]]
  }

  /** The lowering order: exactly the reachable blocks, each once, every block after its dominators. */
  method ReversePostOrder(blocks: seq<Block>, entry: BlockId) returns (order: seq<BlockId>)
    ensures NoDuplicates(order) && DominatorsFirst(blocks, entry, order)
    ensures forall b :: b in order <==> Reachable(SuccEdges(blocks), entry, b)
  {
    var search := new Search(blocks, entry);
    assert Walk(SuccEdges(blocks), entry, [entry], entry);
    assert [] + [entry] == [entry];
    search.Visit(entry, []);
    ghost var post := search.post;
    order := Reversed(search.post);
    forall b | Reachable(SuccEdges(blocks), entry, b)
      ensures b in post
    {
      var p :| Walk(SuccEdges(blocks), entry, p, b);
      SearchedIsClosed(blocks, entry, post, p);
    }
    forall b
      ensures b in order <==> b in post
    {
      if b in post {
        var i :| 0 <= i < |post| && post[i] == b;
        assert order[|post| - 1 - i] == b;
      }
    }
  }

  /** A dominator of a listed block is listed, and earlier. */
  lemma DominatorIsEarlier(blocks: seq<Block>, entry: BlockId, order: seq<BlockId>, n: nat, d: BlockId)
    requires DominatorsFirst(blocks, entry, order) && forall b :: b in order <==> Reachable(SuccEdges(blocks), entry, b)
    requires n < |order| && Dominates(SuccEdges(blocks), entry, d, order[n]) && d != order[n]
    ensures d in order[..n]
  {
    assert order[n] in order;
    var p :| Walk(SuccEdges(blocks), entry, p, order[n]);
    var i := FirstOccurrence(p, d);
    PrefixIsPath(SuccEdges(blocks), p, i + 1);
    assert Walk(SuccEdges(blocks), entry, p[..i + 1], d);
    assert d in order;
    var j :| 0 <= j < |order| && order[j] == d;
    assert j < n;
  }

  // ----- lowering in this order -----

  /** The operand a phi of block b reads on the edge from p. */
  function EdgeOperands(blocks: seq<Block>, p: BlockId, b: BlockId): set<Value> {
    match Find(blocks, b)
    case None => {}
    case Some(block) => PhiUses(block.insts, p)
  }

  /** What lowering instruction k of block p looks up: its operands, and for a terminator the phi
      operands its edges pass. */
  function LookedUp(blocks: seq<Block>, p: BlockId, k: Kind): set<Value> {
    (set v | v in GetUses(k)) + set t, v | t in Targets(k) && v in EdgeOperands(blocks, p, t) :: v
  }

  function AllPhiDefs(blocks: seq<Block>): set<Value> {
    set block, v | block in blocks && v in PhiDefs(block.insts) :: v
  }

  ghost predicate DefinesAt(blocks: seq<Block>, b: BlockId, j: nat, v: Value) {
    Find(blocks, b).Some? && j < |Find(blocks, b).value.insts| && GetDef(Find(blocks, b).value.insts[j]) == Some(v)
  }

  /** The values with a lowered counterpart before instruction i of the n-th block is lowered. */
  ghost predicate Lowered(blocks: seq<Block>, arguments: set<Value>, order: seq<BlockId>, n: nat, i: nat, v: Value)
    requires n <= |order|
  {
    || v in arguments || v in AllPhiDefs(blocks)
    || (exists d: BlockId :: d in order[..n] && DefinedIn(blocks, d, v))
    || (n < |order| && exists j | 0 <= j < i :: DefinesAt(blocks, order[n], j, v))
  }

  /** All values without a definition are arguments of the function. */
  ghost predicate ParametersAre(blocks: seq<Block>, arguments: set<Value>) {
    forall v: Value | Parameter(blocks, v) :: v in arguments
  }

  /** Every block named by an edge exists. */
  ghost predicate Linked(blocks: seq<Block>, entry: BlockId) {
    Find(blocks, entry).Some? && forall block, c | block in blocks && c in block.succs :: Find(blocks, c).Some?
  }

  ghost predicate IsOrder(blocks: seq<Block>, entry: BlockId, order: seq<BlockId>) {
    && NoDuplicates(order) && DominatorsFirst(blocks, entry, order)
    && forall b :: b in order <==> Reachable(SuccEdges(blocks), entry, b)
  }

  lemma EarlierIsLowered(blocks: seq<Block>, entry: BlockId, arguments: set<Value>, order: seq<BlockId>, n: nat, i: nat,
      v: Value, d: BlockId)
    requires IsOrder(blocks, entry, order) && n < |order| && d != order[n]
    requires DefinedIn(blocks, d, v) && Dominates(SuccEdges(blocks), entry, d, order[n])
    ensures Lowered(blocks, arguments, order, n, i, v)
  {
    DominatorIsEarlier(blocks, entry, order, n, d);
  }

  /** In strict SSA whatever lowering an instruction looks up has been lowered before. */
  lemma LookedUpIsLowered(blocks: seq<Block>, entry: BlockId, arguments: set<Value>, order: seq<BlockId>, n: nat,
      i: nat, v: Value)
    requires Strict(blocks, entry) && ParametersAre(blocks, arguments) && IsOrder(blocks, entry, order) && n < |order|
    requires Find(blocks, order[n]).Some? && i < |Find(blocks, order[n]).value.insts|
    requires v in LookedUp(blocks, order[n], Find(blocks, order[n]).value.insts[i])
    ensures Lowered(blocks, arguments, order, n, i, v)
  {
    var b := order[n];
    var block := Find(blocks, b).value;
    var k := block.insts[i];
    if v in GetUses(k) {
      assert AvailableAt(blocks, entry, block, i, v);
      if j :| 0 <= j < i && GetDef(block.insts[j]) == Some(v) {
        assert DefinesAt(blocks, b, j, v);
      } else if d: BlockId :| d != b && DefinedIn(blocks, d, v) && Dominates(SuccEdges(blocks), entry, d, b) {
        EarlierIsLowered(blocks, entry, arguments, order, n, i, v, d);
      }
    } else {
      var t :| t in Targets(k) && v in EdgeOperands(blocks, b, t);
      EdgeOperandLowered(blocks, entry, arguments, order, n, i, v, t);
    }
  }

  lemma EdgeOperandLowered(blocks: seq<Block>, entry: BlockId, arguments: set<Value>, order: seq<BlockId>, n: nat,
      i: nat, v: Value, t: BlockId)
    requires Strict(blocks, entry) && ParametersAre(blocks, arguments) && IsOrder(blocks, entry, order) && n < |order|
    requires Find(blocks, order[n]).Some? && i < |Find(blocks, order[n]).value.insts|
    requires t in Targets(Find(blocks, order[n]).value.insts[i]) && v in EdgeOperands(blocks, order[n], t)
    ensures Lowered(blocks, arguments, order, n, i, v)
  {
    var b := order[n];
    var block := Find(blocks, b).value;
    var k := block.insts[i];
    assert k in block.insts && IsTerminator(k) && (b, t) in SuccEdges(blocks);
    assert i == |block.insts| - 1;
    var target := Find(blocks, t).value;
    var phi :| phi in target.insts && phi.Phi? && b in phi.mappings && phi.mappings[b] == v;
    assert target in blocks && AvailableAtEnd(blocks, entry, b, v);
    if !Parameter(blocks, v) {
      var d: BlockId :| DefinedIn(blocks, d, v) && Dominates(SuccEdges(blocks), entry, d, b);
      if d == b {
        var j :| 0 <= j < |block.insts| && GetDef(block.insts[j]) == Some(v);
        assert j != i;
        assert DefinesAt(blocks, b, j, v);
      } else {
        EarlierIsLowered(blocks, entry, arguments, order, n, i, v, d);
      }
    }
  }

  lemma EntryComesFirst(blocks: seq<Block>, entry: BlockId, order: seq<BlockId>)
    requires IsOrder(blocks, entry, order)
    ensures order != [] && order[0] == entry
  {
    assert Walk(SuccEdges(blocks), entry, [entry], entry);
    assert entry in order;
    var k :| 0 <= k < |order| && order[k] == entry;
    forall p | Walk(SuccEdges(blocks), entry, p, order[0])
      ensures entry in p
    {
    }
    assert Dominates(SuccEdges(blocks), entry, order[k], order[0]);
  }

  datatype Lowering = Done | MissingBlock(b: BlockId) | MissingValue(v: Value)

  ghost predicate OperandsLowered(blocks: seq<Block>, arguments: set<Value>, order: seq<BlockId>, n: nat, i: nat)
    requires n < |order|
  {
    && Find(blocks, order[n]).Some?
    && forall j, v | 0 <= j < i && j < |Find(blocks, order[n]).value.insts|
      && v in LookedUp(blocks, order[n], Find(blocks, order[n]).value.insts[j]) ::
         Lowered(blocks, arguments, order, n, j, v)
  }

  function InstCount(blocks: seq<Block>, b: BlockId): nat {
    if Find(blocks, b).Some? then |Find(blocks, b).value.insts| else 0
  }

  /** Lowers the blocks in order, looking up a counterpart for every operand. When it gets through,
      every operand had been lowered before; on strict SSA it always gets through. */
  method LowerBlocks(blocks: seq<Block>, entry: BlockId, arguments: set<Value>)
      returns (order: seq<BlockId>, result: Lowering)
    ensures IsOrder(blocks, entry, order)
    ensures result.Done? ==>
      forall n | 0 <= n < |order| :: OperandsLowered(blocks, arguments, order, n, InstCount(blocks, order[n]))
    ensures Strict(blocks, entry) && Linked(blocks, entry) && ParametersAre(blocks, arguments) ==> result.Done?
  {
    order := ReversePostOrder(blocks, entry);
    assert IsOrder(blocks, entry, order);
    EntryComesFirst(blocks, entry, order);
    var values := AllPhiDefs(blocks);
    for n := 0 to |order|
      invariant forall v | v in values :: Lowered(blocks, arguments, order, n, 0, v)
      invariant n > 0 ==> forall v: Value | Lowered(blocks, arguments, order, n, 0, v) :: v in values
      invariant AllPhiDefs(blocks) <= values
      invariant forall k | 0 <= k < n :: OperandsLowered(blocks, arguments, order, k, InstCount(blocks, order[k]))
    {
      var b := order[n];
      var found := Find(blocks, b);
      if found.None? {
        MissingIsUnlinked(blocks, entry, order, b);
        return order, MissingBlock(b);
      }
      if b == entry {
        values := values + arguments;
      }
      NothingBefore(blocks, arguments, order, values, n);
      var missing: Option<Value>;
      values, missing := LowerBlock(blocks, entry, arguments, order, n, values);
      if missing.Some? {
        return order, MissingValue(missing.value);
      }
      LoweredBlock(blocks, arguments, order, n);
      hide Lowered, OperandsLowered, IsOrder, Strict, Linked, ParametersAre, AllPhiDefs;
    }
    result := Done;
  }

  /** Lowers the n-th block; the answer is an operand that had no counterpart, if any. */
  method LowerBlock(blocks: seq<Block>, entry: BlockId, arguments: set<Value>, order: seq<BlockId>, n: nat,
      before: set<Value>)
    returns (values: set<Value>, missing: Option<Value>)
    requires IsOrder(blocks, entry, order) && n < |order| && Find(blocks, order[n]).Some?
      && AllPhiDefs(blocks) <= before
    requires forall v: Value :: Lowered(blocks, arguments, order, n, 0, v) <==> v in before
    ensures AllPhiDefs(blocks) <= values
    ensures missing.None? ==> OperandsLowered(blocks, arguments, order, n, InstCount(blocks, order[n]))
    ensures missing.None? ==>
      forall v: Value :: (Lowered(blocks, arguments, order, n, InstCount(blocks, order[n]), v) <==> v in values)
    ensures missing.Some? ==> !(Strict(blocks, entry) && ParametersAre(blocks, arguments))
  {
    values := before;
    var b := order[n];
    var insts := Find(blocks, b).value.insts;
    for i := 0 to |insts|
      invariant forall v: Value :: Lowered(blocks, arguments, order, n, i, v) <==> v in values
      invariant AllPhiDefs(blocks) <= values
      invariant OperandsLowered(blocks, arguments, order, n, i)
    {
      hide Lowered, LookedUp, Strict, IsOrder, ParametersAre;
      var needed := LookedUp(blocks, b, insts[i]);
      if !(needed <= values) {
        var v :| v in needed && v !in values;
        if Strict(blocks, entry) && ParametersAre(blocks, arguments) {
          LookedUpIsLowered(blocks, entry, arguments, order, n, i, v);
        }
        return values, Some(v);
      }
      LookupNext(blocks, arguments, order, n, i, values);
      LoweredNext(blocks, arguments, order, n, i);
      if GetDef(insts[i]).Some? {
        values := values + {GetDef(insts[i]).value};
      }
    }
    missing := None;
  }

  lemma LookupNext(blocks: seq<Block>, arguments: set<Value>, order: seq<BlockId>, n: nat, i: nat, values: set<Value>)
    requires n < |order| && OperandsLowered(blocks, arguments, order, n, i) && i < |Find(blocks, order[n]).value.insts|
    requires LookedUp(blocks, order[n], Find(blocks, order[n]).value.insts[i]) <= values
    requires forall v | v in values :: Lowered(blocks, arguments, order, n, i, v)
    ensures OperandsLowered(blocks, arguments, order, n, i + 1)
  {
  }

  lemma MissingIsUnlinked(blocks: seq<Block>, entry: BlockId, order: seq<BlockId>, b: BlockId)
    requires IsOrder(blocks, entry, order) && b in order && Find(blocks, b).None?
    ensures !Linked(blocks, entry)
  {
  }

  lemma NothingBefore(blocks: seq<Block>, arguments: set<Value>, order: seq<BlockId>, values: set<Value>, n: nat)
    requires n < |order| && AllPhiDefs(blocks) <= values
    requires n == 0 ==> arguments <= values
    ensures n == 0 ==> forall v: Value | Lowered(blocks, arguments, order, n, 0, v) :: v in values
  {
  }

  lemma LoweredNext(blocks: seq<Block>, arguments: set<Value>, order: seq<BlockId>, n: nat, i: nat)
    requires n < |order| && Find(blocks, order[n]).Some? && i < |Find(blocks, order[n]).value.insts|
    ensures forall v: Value :: (Lowered(blocks, arguments, order, n, i + 1, v) <==>
      Lowered(blocks, arguments, order, n, i, v) || GetDef(Find(blocks, order[n]).value.insts[i]) == Some(v))
  {
    forall v: Value | GetDef(Find(blocks, order[n]).value.insts[i]) == Some(v)
      ensures Lowered(blocks, arguments, order, n, i + 1, v)
    {
      assert DefinesAt(blocks, order[n], i, v);
    }
  }

  lemma LoweredBlock(blocks: seq<Block>, arguments: set<Value>, order: seq<BlockId>, n: nat)
    requires n < |order| && Find(blocks, order[n]).Some?
    ensures forall v: Value :: (Lowered(blocks, arguments, order, n + 1, 0, v) <==>
      Lowered(blocks, arguments, order, n, |Find(blocks, order[n]).value.insts|, v))
  {
    var insts := Find(blocks, order[n]).value.insts;
    assert order[..n + 1] == order[..n] + [order[n]];
    forall v: Value
      ensures Lowered(blocks, arguments, order, n + 1, 0, v) <==> Lowered(blocks, arguments, order, n, |insts|, v)
    {
      LoweredBlockAt(blocks, arguments, order, n, v);
    }
  }

  lemma LoweredBlockAt(blocks: seq<Block>, arguments: set<Value>, order: seq<BlockId>, n: nat, v: Value)
    requires n < |order| && Find(blocks, order[n]).Some? && order[..n + 1] == order[..n] + [order[n]]
    ensures Lowered(blocks, arguments, order, n + 1, 0, v) <==>
      Lowered(blocks, arguments, order, n, |Find(blocks, order[n]).value.insts|, v)
  {
    var insts := Find(blocks, order[n]).value.insts;
    if d: BlockId :| d in order[..n + 1] && DefinedIn(blocks, d, v) {
      if d !in order[..n] {
        var j :| 0 <= j < |insts| && GetDef(insts[j]) == Some(v);
        assert DefinesAt(blocks, order[n], j, v);
      }
    }
    if j: nat :| j < |insts| && DefinesAt(blocks, order[n], j, v) {
      assert DefinedIn(blocks, order[n], v) && order[n] in order[..n + 1];
    }
  }
}