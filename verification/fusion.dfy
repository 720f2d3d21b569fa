/** Tensor kernel fusion: element-wise operations used once, by another element-wise operation of
    the same block, are evaluated inside the loop of their user. */
module Fusion {
  import opened IR

  type DefMap = map<Value, Kind>

  // ----- use counts -----

  function CountIn(insts: seq<Kind>, v: Value): nat {
    if insts == [] then 0 else CountIn(insts[..|insts| - 1], v) + multiset(GetUses(insts[|insts| - 1]))[v]
  }

  function CountAll(blocks: seq<Block>, v: Value): nat {
    if blocks == [] then 0 else CountAll(blocks[..|blocks| - 1], v) + CountIn(blocks[|blocks| - 1].insts, v)
  }

  function CountOf(counts: map<Value, nat>, v: Value): nat {
    if v in counts then counts[v] else 0
  }

  method AddUses(uses: seq<Value>, counts: map<Value, nat>) returns (r: map<Value, nat>)
    ensures forall v: Value :: CountOf(r, v) == CountOf(counts, v) + multiset(uses)[v]
  {
    r := counts;
    for i := 0 to |uses|
      invariant forall v: Value :: CountOf(r, v) == CountOf(counts, v) + multiset(uses[..i])[v]
    {
      assert uses[..i + 1] == uses[..i] + [uses[i]];
      r := r[uses[i] := CountOf(r, uses[i]) + 1];
    }
    assert uses[..|uses|] == uses;
  }

  method UseCounts(blocks: seq<Block>) returns (counts: map<Value, nat>)
    ensures forall v: Value :: CountOf(counts, v) == CountAll(blocks, v)
  {
    counts := map[];
    for i := 0 to |blocks|
      invariant forall v: Value :: CountOf(counts, v) == CountAll(blocks[..i], v)
    {
      var insts := blocks[i].insts;
      for j := 0 to |insts|
        invariant forall v: Value :: CountOf(counts, v) == CountAll(blocks[..i], v) + CountIn(insts[..j], v)
      {
        assert insts[..j + 1][..j] == insts[..j];
        counts := AddUses(GetUses(insts[j]), counts);
      }
      assert insts[..|insts|] == insts;
      assert blocks[..i + 1][..i] == blocks[..i];
    }
    assert blocks[..|blocks|] == blocks;
  }

  // ----- building fused expressions -----

  predicate TensorLike(k: Kind) {
    k.Tensor? || k.TensorScalar? || k.TensorFused?
  }

  predicate Absorbs(v: Value, defs: DefMap, counts: map<Value, nat>) {
    v in defs && CountOf(counts, v) == 1 && TensorLike(defs[v])
  }

  function AddInput(inputs: seq<Value>, v: Value): seq<Value> {
    if v in inputs then inputs else inputs + [v]
  }

  function AddInputs(inputs: seq<Value>, vs: seq<Value>): seq<Value>
    decreases |vs|
  {
    if vs == [] then inputs else AddInputs(AddInput(inputs, vs[0]), vs[1..])
  }

  /** Operands of unfused tensor operations are defined before them. */
  ghost predicate Ordered(defs: DefMap, pos: Value -> nat) {
    forall v, u | v in defs && (defs[v].Tensor? || defs[v].TensorScalar?) && u in GetUses(defs[v])
      && u in defs :: pos(u) < pos(v)
  }

  function GetFusedExpr(val: Value, defs: DefMap, counts: map<Value, nat>, tensors: set<Value>, inputs: seq<Value>,
      ghost pos: Value -> nat): (FusedExpr, seq<Value>)
    requires Ordered(defs, pos)
    decreases if val in defs then pos(val) + 1 else 0
  {
    if Absorbs(val, defs, counts) then
      match defs[val]
      case Tensor(_, op, l, r) =>
        assert l in GetUses(defs[val]) && r in GetUses(defs[val]);
        var (left, inputs1) := GetFusedExpr(l, defs, counts, tensors, inputs, pos);
        var (right, inputs2) := GetFusedExpr(r, defs, counts, tensors, inputs1, pos);
        (Node(op, left, right), inputs2)
      case TensorScalar(_, op, t, s) =>
        assert t in GetUses(defs[val]) && s in GetUses(defs[val]);
        var (left, inputs1) := GetFusedExpr(t, defs, counts, tensors, inputs, pos);
        var (right, inputs2) := GetFusedExpr(s, defs, counts, tensors, inputs1, pos);
        (Node(op, left, right), inputs2)
      case TensorFused(_, fused, expr) => (expr, AddInputs(inputs, fused))
    else (if val in tensors then Input(val) else Scalar(val), AddInput(inputs, val))
  }

  /** An element-wise operation with an absorbable operand becomes, or extends, a fused kernel. */
  function FuseInst(k: Kind, defs: DefMap, counts: map<Value, nat>, tensors: set<Value>, ghost pos: Value -> nat): Kind
    requires Ordered(defs, pos)
  {
    match k
    case Tensor(dest, op, l, r) =>
      if Absorbs(l, defs, counts) || Absorbs(r, defs, counts) then
        var (left, inputs1) := GetFusedExpr(l, defs, counts, tensors, [], pos);
        var (right, inputs2) := GetFusedExpr(r, defs, counts, tensors, inputs1, pos);
        TensorFused(dest, inputs2, Node(op, left, right))
      else k
    case TensorScalar(dest, op, t, s) =>
      if Absorbs(t, defs, counts) || Absorbs(s, defs, counts) then
        var (left, inputs1) := GetFusedExpr(t, defs, counts, tensors, [], pos);
        var (right, inputs2) := GetFusedExpr(s, defs, counts, tensors, inputs1, pos);
        TensorFused(dest, inputs2, Node(op, left, right))
      else k
    case _ => k
  }

  // ----- the pass -----

  /** Uses inside a block come after definitions inside it, and no value is defined twice. */
  ghost predicate LocallyOrdered(insts: seq<Kind>) {
    && (forall i, j, u | 0 <= i < |insts| && 0 <= j < |insts| && u in GetUses(insts[i])
      && GetDef(insts[j]) == Some(u) :: j < i)
    && (forall i, j | 0 <= i < |insts| && 0 <= j < |insts| && GetDef(insts[i]).Some?
      && GetDef(insts[i]) == GetDef(insts[j]) :: i == j)
  }

  ghost function FirstIndex(insts: seq<Kind>, v: Value): nat {
    if insts == [] || GetDef(insts[0]) == Some(v) then 0 else 1 + FirstIndex(insts[1..], v)
  }

  ghost function Positions(insts: seq<Kind>): Value -> nat {
    (v: Value) => FirstIndex(insts, v)
  }

  lemma {:induction false} FirstIndexIs(insts: seq<Kind>, i: nat, v: Value)
    requires LocallyOrdered(insts) && i < |insts| && GetDef(insts[i]) == Some(v)
    ensures FirstIndex(insts, v) == i
  {
    FirstIndexFrom(insts, insts, i, v, 0);
  }

  lemma {:induction false} FirstIndexFrom(all: seq<Kind>, insts: seq<Kind>, i: nat, v: Value, k: nat)
    requires LocallyOrdered(all) && k <= |all| && insts == all[k..] && i < |insts| && GetDef(insts[i]) == Some(v)
    ensures FirstIndex(insts, v) == i
    decreases |insts|
  {
    assert insts[i] == all[k + i] && insts[0] == all[k];
    if GetDef(insts[0]) != Some(v) {
      assert insts[1..] == all[k + 1..] && insts[1..][i - 1] == insts[i];
      FirstIndexFrom(all, insts[1..], i - 1, v, k + 1);
    }
  }

  /** What the map of definitions holds after i instructions: each value's own instruction, or the
      fused kernel it became. */
  ghost predicate DefsOk(insts: seq<Kind>, i: nat, defs: DefMap)
    requires i <= |insts|
  {
    && (forall v | v in defs :: exists j | 0 <= j < i :: GetDef(insts[j]) == Some(v))
    && (forall j | 0 <= j < i && GetDef(insts[j]).Some? ::
          var v := GetDef(insts[j]).value;
          v in defs && GetDef(defs[v]) == Some(v)
            && (defs[v] == insts[j] || (defs[v].TensorFused? && TensorLike(insts[j]))))
  }

  lemma DefsOrdered(insts: seq<Kind>, i: nat, defs: DefMap)
    requires LocallyOrdered(insts) && i <= |insts| && DefsOk(insts, i, defs)
    ensures Ordered(defs, Positions(insts))
  {
    hide LocallyOrdered, FirstIndex, DefsOk;
    forall v, u | v in defs && (defs[v].Tensor? || defs[v].TensorScalar?) && u in GetUses(defs[v]) && u in defs
      ensures FirstIndex(insts, u) < FirstIndex(insts, v)
    {
      DefsOrderedAt(insts, i, defs, v, u);
    }
  }

  lemma DefsOrderedAt(insts: seq<Kind>, i: nat, defs: DefMap, v: Value, u: Value)
    requires LocallyOrdered(insts) && i <= |insts| && DefsOk(insts, i, defs)
    requires v in defs && (defs[v].Tensor? || defs[v].TensorScalar?) && u in GetUses(defs[v]) && u in defs
    ensures FirstIndex(insts, u) < FirstIndex(insts, v)
  {
    hide LocallyOrdered, FirstIndex, GetUses, TensorLike;
    var j :| 0 <= j < i && GetDef(insts[j]) == Some(v);
    var k :| 0 <= k < i && GetDef(insts[k]) == Some(u);
    FirstIndexIs(insts, j, v);
    FirstIndexIs(insts, k, u);
    DefBeforeUse(insts, j, k, u);
  }

  lemma DefBeforeUse(insts: seq<Kind>, i: nat, j: nat, u: Value)
    requires LocallyOrdered(insts) && i < |insts| && j < |insts| && u in GetUses(insts[i])
      && GetDef(insts[j]) == Some(u)
    ensures j < i
  {
  }

  lemma OneDefinition(insts: seq<Kind>, i: nat, j: nat)
    requires LocallyOrdered(insts) && i < |insts| && j < |insts| && GetDef(insts[i]).Some?
      && GetDef(insts[i]) == GetDef(insts[j])
    ensures i == j
  {
  }

  lemma FuseInstDef(k: Kind, defs: DefMap, counts: map<Value, nat>, tensors: set<Value>, pos: Value -> nat)
    requires Ordered(defs, pos)
    ensures var f := FuseInst(k, defs, counts, tensors, pos);
      GetDef(f) == GetDef(k) && (f == k || (f.TensorFused? && TensorLike(k)))
  {
  }

  lemma DefsStep(insts: seq<Kind>, i: nat, defs: DefMap, k: Kind)
    requires LocallyOrdered(insts) && i < |insts| && DefsOk(insts, i, defs)
    requires GetDef(k) == GetDef(insts[i]) && (k == insts[i] || (k.TensorFused? && TensorLike(insts[i])))
    ensures DefsOk(insts, i + 1, if GetDef(k).Some? then defs[GetDef(k).value := k] else defs)
  {
    hide LocallyOrdered, TensorLike;
    var next := if GetDef(k).Some? then defs[GetDef(k).value := k] else defs;
    forall j | 0 <= j < i && GetDef(insts[j]).Some?
      ensures GetDef(insts[j]) != GetDef(insts[i])
    {
      if GetDef(insts[j]) == GetDef(insts[i]) {
        OneDefinition(insts, i, j);
      }
    }
    forall v | v in next
      ensures exists j | 0 <= j < i + 1 :: GetDef(insts[j]) == Some(v)
    {
      if v in defs {
        var j :| 0 <= j < i && GetDef(insts[j]) == Some(v);
        assert GetDef(insts[j]) == Some(v);
      } else {
        assert GetDef(insts[i]) == Some(v);
      }
    }
  }

  /** The first i instructions after the pass, and the definitions they leave. */
  function FusedUpTo(insts: seq<Kind>, i: nat, counts: map<Value, nat>, tensors: set<Value>): (r: (seq<Kind>, DefMap))
    requires LocallyOrdered(insts) && i <= |insts|
    ensures |r.0| == i && DefsOk(insts, i, r.1)
  {
    if i == 0 then ([], map[])
    else
      var (before, defs) := FusedUpTo(insts, i - 1, counts, tensors);
      DefsOrdered(insts, i - 1, defs);
      var k := FuseInst(insts[i - 1], defs, counts, tensors, Positions(insts));
      FuseInstDef(insts[i - 1], defs, counts, tensors, Positions(insts));
      DefsStep(insts, i - 1, defs, k);
      (before + [k], if GetDef(k).Some? then defs[GetDef(k).value := k] else defs)
  }

  /** One more instruction through the pass. */
  lemma UpToStep(insts: seq<Kind>, i: nat, counts: map<Value, nat>, tensors: set<Value>)
    requires LocallyOrdered(insts) && i < |insts|
    ensures var (before, defs) := FusedUpTo(insts, i, counts, tensors);
      Ordered(defs, Positions(insts))
      && var f := FuseInst(insts[i], defs, counts, tensors, Positions(insts));
         && GetDef(f) == GetDef(insts[i]) && (f == insts[i] || (f.TensorFused? && TensorLike(insts[i])))
         && FusedUpTo(insts, i + 1, counts, tensors).0 == before + [f]
         && FusedUpTo(insts, i + 1, counts, tensors).1 == if GetDef(f).Some? then defs[GetDef(f).value := f] else defs
  {
    hide DefsOk, LocallyOrdered, FuseInst;
    DefsOrdered(insts, i, FusedUpTo(insts, i, counts, tensors).1);
    FuseInstDef(insts[i], FusedUpTo(insts, i, counts, tensors).1, counts, tensors, Positions(insts));
  }

  /** What the pass can change: an element-wise operation into a kernel with the same result. */
  ghost predicate KeptOrFused(k: Kind, f: Kind) {
    GetDef(f) == GetDef(k) && (f == k || (f.TensorFused? && TensorLike(k)))
  }

  lemma {:induction false} UpToKeepsOrFuses(insts: seq<Kind>, i: nat, counts: map<Value, nat>, tensors: set<Value>,
      j: nat)
    requires LocallyOrdered(insts) && j < i <= |insts|
    ensures KeptOrFused(insts[j], FusedUpTo(insts, i, counts, tensors).0[j])
  {
    hide FusedUpTo, LocallyOrdered, FuseInst, GetDef;
    UpToStep(insts, i - 1, counts, tensors);
    if j < i - 1 {
      UpToKeepsOrFuses(insts, i - 1, counts, tensors, j);
    }
  }

  function FuseBlock(block: Block, counts: map<Value, nat>, tensors: set<Value>): Block
    requires LocallyOrdered(block.insts)
  {
    block.(insts := FusedUpTo(block.insts, |block.insts|, counts, tensors).0)
  }

  function FuseAll(blocks: seq<Block>, counts: map<Value, nat>, tensors: set<Value>): seq<Block>
    requires forall block | block in blocks :: LocallyOrdered(block.insts)
  {
    seq(|blocks|, i requires 0 <= i < |blocks| => FuseBlock(blocks[i], counts, tensors))
  }

  method FuseInsts(insts: seq<Kind>, counts: map<Value, nat>, tensors: set<Value>) returns (fused: seq<Kind>)
    requires LocallyOrdered(insts)
    ensures fused == FusedUpTo(insts, |insts|, counts, tensors).0
  {
    fused := insts;
    var defs: DefMap := map[];
    var i := 0;
    assert fused == [] + insts[0..];
    while i < |fused|
      invariant 0 <= i <= |fused| == |insts|
      invariant fused == FusedUpTo(insts, i, counts, tensors).0 + insts[i..]
      invariant defs == FusedUpTo(insts, i, counts, tensors).1
    {
      hide FusedUpTo, FuseInst, DefsOk, LocallyOrdered, Ordered, Positions, GetDef;
      fused, defs := FuseAt(insts, i, fused, defs, counts, tensors);
      i := i + 1;
    }
    assert insts[i..] == [];
  }

  /** Rewrites the instruction at position i in place and records its definition. */
  method FuseAt(insts: seq<Kind>, i: nat, fused: seq<Kind>, defs: DefMap, counts: map<Value, nat>, tensors: set<Value>)
    returns (newFused: seq<Kind>, newDefs: DefMap)
    requires LocallyOrdered(insts) && i < |insts|
    requires fused == FusedUpTo(insts, i, counts, tensors).0 + insts[i..]
      && defs == FusedUpTo(insts, i, counts, tensors).1
    ensures newFused == FusedUpTo(insts, i + 1, counts, tensors).0 + insts[i + 1..]
    ensures newDefs == FusedUpTo(insts, i + 1, counts, tensors).1
  {
    hide FusedUpTo, FuseInst, DefsOk, LocallyOrdered, Ordered, Positions, GetDef;
    UpToStep(insts, i, counts, tensors);
    var k := FuseInst(fused[i], defs, counts, tensors, Positions(insts));
    ReplaceNext(FusedUpTo(insts, i, counts, tensors).0, insts, i, k);
    newFused, newDefs := fused[i := k], defs;
    if GetDef(k).Some? {
      newDefs := defs[GetDef(k).value := k];
    }
  }

  lemma ReplaceNext(before: seq<Kind>, insts: seq<Kind>, i: nat, k: Kind)
    requires i < |insts| && |before| == i
    ensures (before + insts[i..])[i := k] == before + [k] + insts[i + 1..]
  {
  }

  method FuseTensorKernels(func: Function, tensors: set<Value>)
    requires forall block | block in func.blocks :: LocallyOrdered(block.insts)
    modifies func
    ensures exists counts ::
      && (forall v: Value :: CountOf(counts, v) == CountAll(old(func.blocks), v))
      && func.blocks == FuseAll(old(func.blocks), counts, tensors)
  {
    ghost var blocks := func.blocks;
    var counts := UseCounts(func.blocks);
    var i := 0;
    while i < |func.blocks|
      invariant 0 <= i <= |func.blocks| == |blocks|
      invariant forall j | 0 <= j < i :: func.blocks[j] == FuseBlock(blocks[j], counts, tensors)
      invariant forall j | i <= j < |blocks| :: func.blocks[j] == blocks[j]
    {
      assert func.blocks[i] == blocks[i] && blocks[i] in blocks;
      var insts := FuseInsts(func.blocks[i].insts, counts, tensors);
      func.blocks := func.blocks[i := func.blocks[i].(insts := insts)];
      i := i + 1;
    }
    assert func.blocks == FuseAll(blocks, counts, tensors);
  }
}
