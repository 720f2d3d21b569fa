/** Detection of loop variables that always agree: two phis of a loop header that start equal and
    advance by equal steps. */
module LoopEquality {
  import opened IR
  import opened Cfg
  import opened Semantics
  import opened StrictSsa
  import opened Reachability

  type Mappings = map<BlockId, Value>

  // ----- the test -----

  function ConstOf(blocks: seq<Block>, v: Value): Option<int> {
    match FindDef(blocks, v)
    case Some(ConstInt(_, n)) => Some(n)
    case _ => None
  }

  predicate SameConstant(blocks: seq<Block>, a: Value, b: Value) {
    ConstOf(blocks, a).Some? && ConstOf(blocks, a) == ConstOf(blocks, b)
  }

  predicate SameOperand(blocks: seq<Block>, a: Value, b: Value) {
    a == b || SameConstant(blocks, a, b)
  }

  /** The step of an addition to `dest`, whichever operand `dest` is. */
  function StepOf(dest: Value, l: Value, r: Value): Option<Value> {
    if l == dest then Some(r) else if r == dest then Some(l) else None
  }

  /** Both values advance their own phi by the same step. */
  predicate SameUpdate(blocks: seq<Block>, destA: Value, valA: Value, destB: Value, valB: Value) {
    || (valA == destA && valB == destB)
    || match (FindDef(blocks, valA), FindDef(blocks, valB))
       case (Some(IntAdd(_, la, ra)), Some(IntAdd(_, lb, rb))) =>
         var a, b := StepOf(destA, la, ra), StepOf(destB, lb, rb);
         a.Some? && b.Some? && SameOperand(blocks, a.value, b.value)
       case (Some(IntSub(_, la, ra)), Some(IntSub(_, lb, rb))) =>
         la == destA && lb == destB && SameOperand(blocks, ra, rb)
       case _ => false
  }

  ghost predicate Accepts(blocks: seq<Block>, succs: Successors, header: BlockId, destA: Value, a: Mappings,
      destB: Value, b: Mappings) {
    && a.Keys == b.Keys
    && (exists p | p in a :: Reaches(succs, header, p))
    && (forall p | p in a ::
          if Reaches(succs, header, p) then SameUpdate(blocks, destA, a[p], destB, b[p])
          else SameOperand(blocks, a[p], b[p]))
  }

  // ----- the test without lookups -----

  ghost predicate Contains(blocks: seq<Block>, k: Kind) {
    exists block | block in blocks :: k in block.insts
  }

  /** The same value, or two literals with the same number. */
  ghost predicate AlikeByDefinition(blocks: seq<Block>, a: Value, b: Value) {
    a == b || exists n :: Contains(blocks, ConstInt(a, n)) && Contains(blocks, ConstInt(b, n))
  }

  /** Adding l and r adds s to dest. */
  ghost predicate Adds(dest: Value, l: Value, r: Value, s: Value) {
    (l == dest && s == r) || (r == dest && s == l)
  }

  ghost predicate BothAdd(blocks: seq<Block>, destA: Value, valA: Value, destB: Value, valB: Value, la: Value,
      ra: Value,
      lb: Value, rb: Value) {
    && Contains(blocks, IntAdd(valA, la, ra)) && Contains(blocks, IntAdd(valB, lb, rb))
    && exists s, t :: Adds(destA, la, ra, s) && Adds(destB, lb, rb, t) && AlikeByDefinition(blocks, s, t)
  }

  ghost predicate BothSubtract(blocks: seq<Block>, destA: Value, valA: Value, destB: Value, valB: Value, s: Value,
      t: Value) {
    && Contains(blocks, IntSub(valA, destA, s)) && Contains(blocks, IntSub(valB, destB, t))
    && AlikeByDefinition(blocks, s, t)
  }

  /** Both phis stay as they are, or are advanced by additions, or by subtractions, of alike steps. */
  ghost predicate AdvanceAlike(blocks: seq<Block>, destA: Value, valA: Value, destB: Value, valB: Value) {
    || (valA == destA && valB == destB)
    || (exists la, ra, lb, rb :: BothAdd(blocks, destA, valA, destB, valB, la, ra, lb, rb))
    || (exists s, t :: BothSubtract(blocks, destA, valA, destB, valB, s, t))
  }

  /** The two phis read from the same predecessors, at least one of which the header leads to; from those
      they advance alike, from the others they read alike operands. */
  ghost predicate EqualByDefinition(blocks: seq<Block>, succs: Successors, header: BlockId, destA: Value, a: Mappings,
      destB: Value, b: Mappings) {
    && a.Keys == b.Keys
    && (exists p | p in a :: Reaches(succs, header, p))
    && (forall p | p in a && Reaches(succs, header, p) :: AdvanceAlike(blocks, destA, a[p], destB, b[p]))
    && (forall p | p in a && !Reaches(succs, header, p) :: AlikeByDefinition(blocks, a[p], b[p]))
  }

  lemma ContainsIsDef(blocks: seq<Block>, k: Kind, v: Value)
    requires SingleAssignment(blocks) && GetDef(k) == Some(v)
    ensures Contains(blocks, k) <==> FindDef(blocks, v) == Some(k)
  {
    if Contains(blocks, k) {
      assert FindDef(blocks, v).Some?;
    }
  }

  lemma AlikeExactly(blocks: seq<Block>, a: Value, b: Value)
    requires SingleAssignment(blocks)
    ensures SameOperand(blocks, a, b) <==> AlikeByDefinition(blocks, a, b)
  {
    hide SingleAssignment, Contains;
    forall n {:trigger ConstInt(a, n)}
      ensures Contains(blocks, ConstInt(a, n)) <==> FindDef(blocks, a) == Some(ConstInt(a, n))
      ensures Contains(blocks, ConstInt(b, n)) <==> FindDef(blocks, b) == Some(ConstInt(b, n))
    {
      ContainsIsDef(blocks, ConstInt(a, n), a);
      ContainsIsDef(blocks, ConstInt(b, n), b);
    }
    if SameConstant(blocks, a, b) {
      var n := ConstOf(blocks, a).value;
      assert FindDef(blocks, a) == Some(ConstInt(a, n)) && FindDef(blocks, b) == Some(ConstInt(b, n));
      assert Contains(blocks, ConstInt(a, n)) && Contains(blocks, ConstInt(b, n));
    }
  }

  lemma AdvanceExactly(blocks: seq<Block>, destA: Value, valA: Value, destB: Value, valB: Value)
    requires SingleAssignment(blocks)
    ensures SameUpdate(blocks, destA, valA, destB, valB) <==> AdvanceAlike(blocks, destA, valA, destB, valB)
  {
    if SameUpdate(blocks, destA, valA, destB, valB) && !(valA == destA && valB == destB) {
      UpdateAdvances(blocks, destA, valA, destB, valB);
    }
    if la, ra, lb, rb :| BothAdd(blocks, destA, valA, destB, valB, la, ra, lb, rb) {
      AddsUpdate(blocks, destA, valA, destB, valB, la, ra, lb, rb);
    }
    if s, t :| BothSubtract(blocks, destA, valA, destB, valB, s, t) {
      SubtractsUpdate(blocks, destA, valA, destB, valB, s, t);
    }
    hide SameUpdate, BothAdd, BothSubtract;
  }

  lemma AddsUpdate(blocks: seq<Block>, destA: Value, valA: Value, destB: Value, valB: Value, la: Value, ra: Value,
      lb: Value, rb: Value)
    requires SingleAssignment(blocks) && BothAdd(blocks, destA, valA, destB, valB, la, ra, lb, rb)
    ensures SameUpdate(blocks, destA, valA, destB, valB)
  {
    hide SingleAssignment, Contains, SameOperand, AlikeByDefinition;
    ContainsIsDef(blocks, IntAdd(valA, la, ra), valA);
    ContainsIsDef(blocks, IntAdd(valB, lb, rb), valB);
    var s, t :| Adds(destA, la, ra, s) && Adds(destB, lb, rb, t) && AlikeByDefinition(blocks, s, t);
    AlikeExactly(blocks, s, t);
  }

  lemma SubtractsUpdate(blocks: seq<Block>, destA: Value, valA: Value, destB: Value, valB: Value, s: Value, t: Value)
    requires SingleAssignment(blocks) && BothSubtract(blocks, destA, valA, destB, valB, s, t)
    ensures SameUpdate(blocks, destA, valA, destB, valB)
  {
    hide SingleAssignment, Contains, SameOperand, AlikeByDefinition;
    ContainsIsDef(blocks, IntSub(valA, destA, s), valA);
    ContainsIsDef(blocks, IntSub(valB, destB, t), valB);
    AlikeExactly(blocks, s, t);
  }

  lemma UpdateAdvances(blocks: seq<Block>, destA: Value, valA: Value, destB: Value, valB: Value)
    requires SingleAssignment(blocks)
    requires SameUpdate(blocks, destA, valA, destB, valB) && !(valA == destA && valB == destB)
    ensures AdvanceAlike(blocks, destA, valA, destB, valB)
  {
    hide SingleAssignment, Contains, SameOperand, AlikeByDefinition;
    var ka, kb := FindDef(blocks, valA).value, FindDef(blocks, valB).value;
    ContainsIsDef(blocks, ka, valA);
    ContainsIsDef(blocks, kb, valB);
    if ka.IntAdd? {
      var s, t := StepOf(destA, ka.lhs, ka.rhs).value, StepOf(destB, kb.lhs, kb.rhs).value;
      AlikeExactly(blocks, s, t);
      assert Adds(destA, ka.lhs, ka.rhs, s) && Adds(destB, kb.lhs, kb.rhs, t);
      assert BothAdd(blocks, destA, valA, destB, valB, ka.lhs, ka.rhs, kb.lhs, kb.rhs);
    } else {
      AlikeExactly(blocks, ka.rhs, kb.rhs);
      assert BothSubtract(blocks, destA, valA, destB, valB, ka.rhs, kb.rhs);
    }
  }

  /** The detector's test is what the definitions in the blocks say, no less and no more. */
  lemma AcceptsExactly(blocks: seq<Block>, succs: Successors, header: BlockId, destA: Value, a: Mappings, destB: Value,
      b: Mappings)
    requires SingleAssignment(blocks)
    ensures Accepts(blocks, succs, header, destA, a, destB, b)
      <==> EqualByDefinition(blocks, succs, header, destA, a, destB, b)
  {
    hide SameUpdate, AdvanceAlike, SameOperand, AlikeByDefinition, SingleAssignment, Reaches;
    forall p | p in a && p in b
      ensures SameUpdate(blocks, destA, a[p], destB, b[p]) <==> AdvanceAlike(blocks, destA, a[p], destB, b[p])
      ensures SameOperand(blocks, a[p], b[p]) <==> AlikeByDefinition(blocks, a[p], b[p])
    {
      AdvanceExactly(blocks, destA, a[p], destB, b[p]);
      AlikeExactly(blocks, a[p], b[p]);
    }
  }

  // ----- the detector -----

  lemma SameSizeKeys(a: Mappings, b: Mappings)
    requires |a| == |b| && a.Keys <= b.Keys
    ensures a.Keys == b.Keys
  {
    assert |a.Keys| == |a| && |b.Keys| == |b|;
    assert b.Keys == a.Keys + (b.Keys - a.Keys);
    assert |b.Keys| == |a.Keys| + |b.Keys - a.Keys|;
  }

  /** Compares the entry edges first and the back edges second. */
  method DetectEquality(blocks: seq<Block>, succs: Successors, header: BlockId, destA: Value, a: Mappings, destB: Value,
      b: Mappings)
    returns (equal: bool)
    ensures equal <==> Accepts(blocks, succs, header, destA, a, destB, b)
    ensures SingleAssignment(blocks) ==> (equal <==> EqualByDefinition(blocks, succs, header, destA, a, destB, b))
  {
    if SingleAssignment(blocks) {
      AcceptsExactly(blocks, succs, header, destA, a, destB, b);
    }
    hide SingleAssignment, EqualByDefinition;
    if |a| != |b| {
      assert a.Keys == b.Keys ==> |a.Keys| == |b.Keys|;
      return false;
    }
    var backEdges: set<BlockId> := {};
    var rest := a.Keys;
    while rest != {}
      invariant rest <= a.Keys && backEdges <= a.Keys - rest
      invariant forall p | p in a.Keys - rest :: p in backEdges <==> Reaches(succs, header, p)
      decreases rest
    {
      var p :| p in rest;
      var reachable := IsReachable(succs, header, p);
      if reachable {
        backEdges := backEdges + {p};
      }
      rest := rest - {p};
    }
    if backEdges == {} {
      return false;
    }
    rest := a.Keys - backEdges;
    while rest != {}
      invariant rest <= a.Keys - backEdges
      invariant forall p | p in a.Keys - backEdges - rest :: p in b && SameOperand(blocks, a[p], b[p])
      decreases rest
    {
      var p :| p in rest;
      if p !in b || !SameOperand(blocks, a[p], b[p]) {
        assert p in a.Keys;
        return false;
      }
      rest := rest - {p};
    }
    rest := backEdges;
    while rest != {}
      invariant rest <= backEdges
      invariant forall p | p in backEdges - rest :: p in b && SameUpdate(blocks, destA, a[p], destB, b[p])
      decreases rest
    {
      var p :| p in rest;
      if p !in b || !SameUpdate(blocks, destA, a[p], destB, b[p]) {
        assert p in a.Keys;
        return false;
      }
      rest := rest - {p};
    }
    SameSizeKeys(a, b);
    var p :| p in backEdges;
    assert p in a && Reaches(succs, header, p);
    return true;
  }

  // ----- soundness -----

  /** Additions, subtractions and phis keep the width of their operands. */
  ghost predicate Typed(m: Machine, blocks: seq<Block>) {
    forall block, k, v | block in blocks && k in block.insts
      && (k.IntAdd? || k.IntSub? || k.Phi?) && v in Operands(k) :: m.width(v) == m.width(k.dest)
  }

  /** The header's phis for the two variables. */
  ghost predicate HeaderPhis(blocks: seq<Block>, header: BlockId, destA: Value, a: Mappings, destB: Value,
      b: Mappings) {
    && Find(blocks, header).Some?
    && Phi(destA, a) in Find(blocks, header).value.insts && Phi(destB, b) in Find(blocks, header).value.insts
  }

  /** v's definition, if it has one, dominates block p. */
  ghost predicate AvailableTo(blocks: seq<Block>, entry: BlockId, p: BlockId, v: Value) {
    forall d: BlockId | DefinedIn(blocks, d, v) :: Dominates(SuccEdges(blocks), entry, d, p)
  }

  lemma DefSite(blocks: seq<Block>, v: Value) returns (y: BlockId, i: nat)
    requires UniqueIds(blocks) && FindDef(blocks, v).Some?
    ensures Find(blocks, y).Some? && i < |Find(blocks, y).value.insts|
    ensures Find(blocks, y).value.insts[i] == FindDef(blocks, v).value
    ensures DefinedIn(blocks, y, v)
  {
    var k := FindDef(blocks, v).value;
    var block :| block in blocks && k in block.insts;
    var n :| 0 <= n < |blocks| && blocks[n] == block;
    FindAt(blocks, n);
    y := block.id;
    i :| 0 <= i < |block.insts| && block.insts[i] == k;
  }

  lemma PhiIsDefinedIn(blocks: seq<Block>, header: BlockId, dest: Value, a: Mappings)
    requires Find(blocks, header).Some? && Phi(dest, a) in Find(blocks, header).value.insts
    ensures DefinedIn(blocks, header, dest)
  {
  }

  /** The definition of an operand dominates whatever the definition using it dominates. */
  lemma OperandDominates(blocks: seq<Block>, entry: BlockId, y: BlockId, i: nat, v: Value, d: BlockId, p: BlockId)
    requires Strict(blocks, entry) && Find(blocks, y).Some? && i < |Find(blocks, y).value.insts|
    requires v in GetUses(Find(blocks, y).value.insts[i]) && DefinedIn(blocks, d, v)
    requires Dominates(SuccEdges(blocks), entry, y, p)
    ensures Dominates(SuccEdges(blocks), entry, d, p)
  {
    var block := Find(blocks, y).value;
    assert AvailableAt(blocks, entry, block, i, v);
    if j :| 0 <= j < i && GetDef(block.insts[j]) == Some(v) {
      assert DefinedIn(blocks, y, v);
    } else {
      var c: BlockId :| c != y && DefinedIn(blocks, c, v) && Dominates(SuccEdges(blocks), entry, c, y);
      assert c == d;
      DominanceTransitive(SuccEdges(blocks), entry, d, y, p);
    }
  }

  /** A literal has its value wherever its definition dominates. */
  lemma LiteralHolds(m: Machine, blocks: seq<Block>, entry: BlockId, q: seq<BlockId>, s0: State, v: Value)
    requires Strict(blocks, entry) && StepAt(m, blocks, q, s0).Some? && q[0] == entry && ConstOf(blocks, v).Some?
    requires AvailableTo(blocks, entry, q[|q| - 1], v)
    ensures Get(StepAt(m, blocks, q, s0).value.state.env, v) == Word(Wrap(m.width(v), ConstOf(blocks, v).value))
  {
    var y, i := DefSite(blocks, v);
    EquationsHold(m, blocks, entry, q, s0, y, i);
  }

  lemma OperandsAgree(m: Machine, blocks: seq<Block>, entry: BlockId, q: seq<BlockId>, s0: State, a: Value, b: Value)
    requires Strict(blocks, entry) && StepAt(m, blocks, q, s0).Some? && q[0] == entry && SameOperand(blocks, a, b)
    requires m.width(a) == m.width(b)
    requires AvailableTo(blocks, entry, q[|q| - 1], a)
    requires AvailableTo(blocks, entry, q[|q| - 1], b)
    ensures var env := StepAt(m, blocks, q, s0).value.state.env; Get(env, a) == Get(env, b)
  {
    if a != b {
      LiteralHolds(m, blocks, entry, q, s0, a);
      LiteralHolds(m, blocks, entry, q, s0, b);
    }
  }

  /** What a dominating addition or subtraction says about current values, and where its operands'
      definitions lie. */
  lemma UpdateHolds(m: Machine, blocks: seq<Block>, entry: BlockId, q: seq<BlockId>, s0: State, v: Value)
    requires Strict(blocks, entry) && StepAt(m, blocks, q, s0).Some? && q[0] == entry && Typed(m, blocks)
    requires FindDef(blocks, v).Some? && (FindDef(blocks, v).value.IntAdd? || FindDef(blocks, v).value.IntSub?)
    requires AvailableTo(blocks, entry, q[|q| - 1], v)
    ensures var k := FindDef(blocks, v).value; var s := StepAt(m, blocks, q, s0).value.state;
      && Get(s.env, v) == Compute(m, k, s.env, s.mem)
      && m.width(k.lhs) == m.width(v) && m.width(k.rhs) == m.width(v)
      && AvailableTo(blocks, entry, q[|q| - 1], k.lhs) && AvailableTo(blocks, entry, q[|q| - 1], k.rhs)
  {
    var k := FindDef(blocks, v).value;
    var y, i := DefSite(blocks, v);
    var block := Find(blocks, y).value;
    assert block in blocks && k in block.insts && GetUses(k) == [k.lhs, k.rhs];
    assert k.lhs in Operands(k) && k.rhs in Operands(k);
    EquationsHold(m, blocks, entry, q, s0, y, i);
    forall u, d: BlockId | u in [k.lhs, k.rhs] && DefinedIn(blocks, d, u)
      ensures Dominates(SuccEdges(blocks), entry, d, q[|q| - 1])
    {
      OperandDominates(blocks, entry, y, i, u, d, q[|q| - 1]);
    }
  }

  lemma {:induction false} BindPhisValue(insts: seq<Kind>, from: Option<BlockId>, env: Store, bound: Store, dest: Value,
      a: Mappings)
    requires Phi(dest, a) in insts
    requires forall i, j | 0 <= i < |insts| && 0 <= j < |insts| && GetDef(insts[i]).Some?
      && GetDef(insts[i]) == GetDef(insts[j]) :: i == j
    ensures Get(BindPhis(insts, from, env, bound), dest) == Incoming(a, from, env)
  {
    var k, rest := insts[0], insts[1..];
    assert forall i | 0 <= i < |rest| :: rest[i] == insts[i + 1];
    var next := if k.Phi? then bound[k.dest := Incoming(k.mappings, from, env)] else bound;
    if k == Phi(dest, a) {
      forall j | j in rest && j.Phi?
        ensures j.dest != dest
      {
        var i :| 0 <= i < |rest| && rest[i] == j;
        assert GetDef(insts[i + 1]) == Some(j.dest);
      }
      BindPhisFrame(rest, from, env, next, dest);
    } else {
      assert insts == [k] + rest;
      BindPhisValue(rest, from, env, next, dest, a);
    }
  }

  /** In the block of a phi the phi's value is the operand of the edge taken, until the block ends. */
  lemma PhiAtEnd(m: Machine, blocks: seq<Block>, entry: BlockId, block: Block, from: Option<BlockId>, s: State,
      dest: Value, a: Mappings)
    requires Strict(blocks, entry) && block in blocks && Phi(dest, a) in block.insts
    ensures Get(RunBlock(m, block, from, s).state.env, dest) == Incoming(a, from, s.env)
  {
    BindPhisValue(block.insts, from, s.env, s.env, dest, a);
    var i :| 0 <= i < |block.insts| && block.insts[i] == Phi(dest, a);
    ExecKeepsPhi(m, block.insts, s.(env := BindPhis(block.insts, from, s.env, s.env)), i);
  }

  lemma {:induction false} ExecKeepsPhi(m: Machine, insts: seq<Kind>, s: State, i: nat)
    requires i < |insts| && insts[i].Phi?
    requires forall j | 0 <= j < |insts| && GetDef(insts[j]) == Some(insts[i].dest) :: insts[j].Phi?
    ensures Get(Exec(m, insts, s).state.env, insts[i].dest) == Get(s.env, insts[i].dest)
  {
    ExecKeepsPhiDest(m, insts, s, insts[i].dest);
  }

  lemma {:induction false} ExecKeepsPhiDest(m: Machine, insts: seq<Kind>, s: State, dest: Value)
    requires forall j | 0 <= j < |insts| && GetDef(insts[j]) == Some(dest) :: insts[j].Phi?
    ensures Get(Exec(m, insts, s).state.env, dest) == Get(s.env, dest)
  {
    if insts != [] && !IsTerminator(insts[0]) {
      assert forall j | 0 <= j < |insts[1..]| :: insts[1..][j] == insts[j + 1];
      ExecKeepsPhiDest(m, insts[1..], Perform(m, insts[0], s), dest);
    }
  }

  /** Equal phis advanced by equal steps stay equal. */
  lemma UpdatesAgree(m: Machine, blocks: seq<Block>, entry: BlockId, q: seq<BlockId>, s0: State, destA: Value,
      valA: Value, destB: Value, valB: Value)
    requires Strict(blocks, entry) && Typed(m, blocks) && StepAt(m, blocks, q, s0).Some? && q[0] == entry
    requires SameUpdate(blocks, destA, valA, destB, valB) && !(valA == destA && valB == destB)
    requires m.width(valA) == m.width(valB)
    requires AvailableTo(blocks, entry, q[|q| - 1], valA) && AvailableTo(blocks, entry, q[|q| - 1], valB)
    requires var env := StepAt(m, blocks, q, s0).value.state.env;
      AvailableTo(blocks, entry, q[|q| - 1], destA) ==> Get(env, destA) == Get(env, destB)
    ensures var env := StepAt(m, blocks, q, s0).value.state.env; Get(env, valA) == Get(env, valB)
  {
    assert q != [];
    hide Strict, StepAt, Typed, Get, Wrap, AvailableTo, Compute, Dominates;
    UpdateHolds(m, blocks, entry, q, s0, valA);
    UpdateHolds(m, blocks, entry, q, s0, valB);
    var ka, kb := FindDef(blocks, valA).value, FindDef(blocks, valB).value;
    var stepA := if ka.IntAdd? then StepOf(destA, ka.lhs, ka.rhs).value else ka.rhs;
    var stepB := if kb.IntAdd? then StepOf(destB, kb.lhs, kb.rhs).value else kb.rhs;
    OperandsAgree(m, blocks, entry, q, s0, stepA, stepB);
    var s := StepAt(m, blocks, q, s0).value.state;
    SameStep(m, ka, kb, s.env, s.mem, destA, stepA, destB, stepB);
  }

  /** Equal values advanced by equal steps are equal. */
  lemma SameStep(m: Machine, ka: Kind, kb: Kind, env: Store, mem: Memory, a: Value, stepA: Value, b: Value,
      stepB: Value)
    requires (ka.IntAdd? && kb.IntAdd?) || (ka.IntSub? && kb.IntSub?)
    requires m.width(ka.dest) == m.width(kb.dest)
    requires if ka.IntAdd? then StepOf(a, ka.lhs, ka.rhs) == Some(stepA) && StepOf(b, kb.lhs, kb.rhs) == Some(stepB)
      else ka.lhs == a && ka.rhs == stepA && kb.lhs == b && kb.rhs == stepB
    requires Get(env, a) == Get(env, b) && Get(env, stepA) == Get(env, stepB)
    ensures Compute(m, ka, env, mem) == Compute(m, kb, env, mem)
  {
  }

  /** On an edge into the header the phis' operands are available. */
  lemma EdgeAvailable(m: Machine, blocks: seq<Block>, entry: BlockId, header: BlockId, dest: Value, a: Mappings,
      p: BlockId)
    requires Strict(blocks, entry) && Typed(m, blocks) && Find(blocks, header).Some?
    requires Phi(dest, a) in Find(blocks, header).value.insts && p in a && (p, header) in SuccEdges(blocks)
    ensures AvailableTo(blocks, entry, p, a[p]) && m.width(a[p]) == m.width(dest)
    ensures AvailableTo(blocks, entry, p, dest) ==> Dominates(SuccEdges(blocks), entry, header, p)
  {
  }

  /** The two operands read on an accepted edge are equal, given that the phis were equal before. */
  lemma EdgeValuesAgree(m: Machine, blocks: seq<Block>, entry: BlockId, succs: Successors, header: BlockId,
      destA: Value, a: Mappings, destB: Value, b: Mappings, q: seq<BlockId>, s0: State)
    requires Strict(blocks, entry) && Typed(m, blocks) && m.width(destA) == m.width(destB)
    requires HeaderPhis(blocks, header, destA, a, destB, b) && Accepts(blocks, succs, header, destA, a, destB, b)
    requires StepAt(m, blocks, q, s0).Some? && q[0] == entry
    requires q[|q| - 1] in a && (q[|q| - 1], header) in SuccEdges(blocks)
    requires var env := StepAt(m, blocks, q, s0).value.state.env; header in q ==> Get(env, destA) == Get(env, destB)
    ensures var env := StepAt(m, blocks, q, s0).value.state.env; Get(env, a[q[|q| - 1]]) == Get(env, b[q[|q| - 1]])
  {
    var p := q[|q| - 1];
    hide Strict, StepAt, Typed, Get, SameUpdate, SameOperand;
    StepsFollowGraph(m, blocks, entry, q, s0);
    EdgeAvailable(m, blocks, entry, header, destA, a, p);
    EdgeAvailable(m, blocks, entry, header, destB, b, p);
    if !Reaches(succs, header, p) {
      OperandsAgree(m, blocks, entry, q, s0, a[p], b[p]);
    } else if !(a[p] == destA && b[p] == destB) {
      UpdatesAgree(m, blocks, entry, q, s0, destA, a[p], destB, b[p]);
    }
  }

  lemma StepsFollowGraph(m: Machine, blocks: seq<Block>, entry: BlockId, p: seq<BlockId>, s0: State)
    requires Strict(blocks, entry) && StepAt(m, blocks, p, s0).Some? && p[0] == entry
    ensures Walk(SuccEdges(blocks), entry, p, p[|p| - 1])
    ensures Find(blocks, p[|p| - 1]).Some? && Find(blocks, p[|p| - 1]).value in blocks
  {
    StepsAreWalks(m, blocks, entry, p, s0);
  }

  lemma BothOutsideHeader(m: Machine, blocks: seq<Block>, header: BlockId, destA: Value, a: Mappings, destB: Value,
      b: Mappings, block: Block, from: Option<BlockId>, s: State)
    requires UniqueDefinitions(blocks) && Find(blocks, block.id) == Some(block) && block.id != header
    requires HeaderPhis(blocks, header, destA, a, destB, b) && Get(s.env, destA) == Get(s.env, destB)
    ensures var env := RunBlock(m, block, from, s).state.env; Get(env, destA) == Get(env, destB)
  {
    EqualOutsideHeader(m, blocks, header, destA, a, block, from, s);
    EqualOutsideHeader(m, blocks, header, destB, b, block, from, s);
  }

  /** Arriving at the header along an edge on which the operands are equal, or first of all, leaves the
      phis equal. */
  lemma BothAtHeader(m: Machine, blocks: seq<Block>, entry: BlockId, header: BlockId, destA: Value, a: Mappings,
      destB: Value, b: Mappings, from: Option<BlockId>, s: State)
    requires Strict(blocks, entry) && HeaderPhis(blocks, header, destA, a, destB, b)
      && Find(blocks, header).value.id == header
    requires a.Keys == b.Keys
      && (from.Some? && from.value in a ==> Get(s.env, a[from.value]) == Get(s.env, b[from.value]))
    ensures var env := RunBlock(m, Find(blocks, header).value, from, s).state.env; Get(env, destA) == Get(env, destB)
  {
    hide RunBlock;
    PhiAtEnd(m, blocks, entry, Find(blocks, header).value, from, s, destA, a);
    PhiAtEnd(m, blocks, entry, Find(blocks, header).value, from, s, destB, b);
  }

  lemma EqualOutsideHeader(m: Machine, blocks: seq<Block>, header: BlockId, dest: Value, a: Mappings, block: Block,
      from: Option<BlockId>, s: State)
    requires UniqueDefinitions(blocks) && Find(blocks, block.id) == Some(block) && block.id != header
    requires Find(blocks, header).Some? && Phi(dest, a) in Find(blocks, header).value.insts
    ensures Get(RunBlock(m, block, from, s).state.env, dest) == Get(s.env, dest)
  {
    PhiIsDefinedIn(blocks, header, dest, a);
    assert DefinedIn(blocks, block.id, dest) <==> Defines(block.insts, dest);
    StepKeepsValue(m, block, from, s, dest);
  }

  /** Equality detection is sound: once the header has been entered, the two accepted phis are equal
      at the end of every block, so at every later arrival too, for any number of iterations, any
      nesting and any back edges. */
  lemma {:induction false} AcceptedPhisAreEqual(m: Machine, blocks: seq<Block>, entry: BlockId, succs: Successors,
      header: BlockId, destA: Value, a: Mappings, destB: Value, b: Mappings, p: seq<BlockId>, s0: State)
    requires Strict(blocks, entry) && Typed(m, blocks) && m.width(destA) == m.width(destB)
    requires HeaderPhis(blocks, header, destA, a, destB, b) && Accepts(blocks, succs, header, destA, a, destB, b)
    requires StepAt(m, blocks, p, s0).Some? && p[0] == entry && header in p
    ensures var env := StepAt(m, blocks, p, s0).value.state.env; Get(env, destA) == Get(env, destB)
    decreases |p|
  {
    hide Strict, HeaderPhis, Accepts, Typed, Find, RunBlock;
    if p[|p| - 1] != header {
      AcceptedPhisAreEqual(m, blocks, entry, succs, header, destA, a, destB, b, p[..|p| - 1], s0);
      StaysEqual(m, blocks, entry, header, destA, a, destB, b, p, s0);
    } else {
      if |p| > 1 && header in p[..|p| - 1] {
        AcceptedPhisAreEqual(m, blocks, entry, succs, header, destA, a, destB, b, p[..|p| - 1], s0);
      }
      ArrivesEqual(m, blocks, entry, succs, header, destA, a, destB, b, p, s0);
    }
  }

  lemma StaysEqual(m: Machine, blocks: seq<Block>, entry: BlockId, header: BlockId, destA: Value, a: Mappings,
      destB: Value, b: Mappings, p: seq<BlockId>, s0: State)
    requires Strict(blocks, entry) && HeaderPhis(blocks, header, destA, a, destB, b)
    requires |p| > 1 && p[|p| - 1] != header && StepAt(m, blocks, p, s0).Some? && p[0] == entry
    requires var env := StepAt(m, blocks, p[..|p| - 1], s0).value.state.env; Get(env, destA) == Get(env, destB)
    ensures var env := StepAt(m, blocks, p, s0).value.state.env; Get(env, destA) == Get(env, destB)
  {
    StepsFollowGraph(m, blocks, entry, p, s0);
    hide HeaderPhis, RunBlock, UsesAvailable, PhisFirst, WellFormed;
    BothOutsideHeader(m, blocks, header, destA, a, destB, b, Find(blocks, p[|p| - 1]).value, Some(p[|p| - 2]),
      StepAt(m, blocks, p[..|p| - 1], s0).value.state);
  }

  lemma ArrivesEqual(m: Machine, blocks: seq<Block>, entry: BlockId, succs: Successors, header: BlockId, destA: Value,
      a: Mappings, destB: Value, b: Mappings, p: seq<BlockId>, s0: State)
    requires Strict(blocks, entry) && Typed(m, blocks) && m.width(destA) == m.width(destB)
    requires HeaderPhis(blocks, header, destA, a, destB, b) && Accepts(blocks, succs, header, destA, a, destB, b)
    requires StepAt(m, blocks, p, s0).Some? && p[0] == entry && p[|p| - 1] == header
    requires |p| > 1 && header in p[..|p| - 1] ==>
      var env := StepAt(m, blocks, p[..|p| - 1], s0).value.state.env; Get(env, destA) == Get(env, destB)
    ensures var env := StepAt(m, blocks, p, s0).value.state.env; Get(env, destA) == Get(env, destB)
  {
    hide Strict, HeaderPhis, Accepts, Typed, RunBlock, StepAt, SuccEdges, IsPath;
    AcceptedKeys(blocks, succs, header, destA, a, destB, b);
    StepsFollowGraph(m, blocks, entry, p, s0);
    LastBlockOf(m, blocks, p, s0);
    FoundCarriesId(blocks, header);
    if |p| == 1 {
      BothAtHeader(m, blocks, entry, header, destA, a, destB, b, None, s0);
    } else {
      LastEdgeOf(SuccEdges(blocks), p);
      if p[|p| - 2] in a {
        EdgeValuesAgree(m, blocks, entry, succs, header, destA, a, destB, b, p[..|p| - 1], s0);
      }
      BothAtHeader(m, blocks, entry, header, destA, a, destB, b, Some(p[|p| - 2]),
        StepAt(m, blocks, p[..|p| - 1], s0).value.state);
    }
  }

  lemma AcceptedKeys(blocks: seq<Block>, succs: Successors, header: BlockId, destA: Value, a: Mappings, destB: Value,
      b: Mappings)
    requires Accepts(blocks, succs, header, destA, a, destB, b)
    ensures a.Keys == b.Keys
  {
  }

  lemma FoundCarriesId(blocks: seq<Block>, b: BlockId)
    ensures Find(blocks, b).Some? ==> Find(blocks, b).value.id == b
  {
  }

  lemma LastEdgeOf(e: Edges, p: seq<BlockId>)
    requires IsPath(e, p) && |p| > 1
    ensures (p[|p| - 2], p[|p| - 1]) in e
  {
  }

  /** The last step of a run, from the one before it. */
  lemma LastBlockOf(m: Machine, blocks: seq<Block>, p: seq<BlockId>, s0: State)
    requires StepAt(m, blocks, p, s0).Some?
    ensures p != [] && Find(blocks, p[|p| - 1]).Some?
    ensures |p| == 1 ==> StepAt(m, blocks, p, s0).value == RunBlock(m, Find(blocks, p[|p| - 1]).value, None, s0)
    ensures |p| > 1 ==>
      && StepAt(m, blocks, p[..|p| - 1], s0).Some?
      && StepAt(m, blocks, p, s0).value
           == RunBlock(m, Find(blocks, p[|p| - 1]).value, Some(p[|p| - 2]),
             StepAt(m, blocks, p[..|p| - 1], s0).value.state)
  {
    hide RunBlock, Find;
  }
}
