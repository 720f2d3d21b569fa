/** Fusion followed by dead code elimination removes intermediates: a tensor absorbed into its only
    user is no longer an operand of anything but phis. */
module FusionDead {
  import opened IR
  import opened Fusion
  import opened DeadCode

  /** t is computed by an element-wise operation at position j of block b and used once in the whole
      function, at the later position x of the same block, by an unfused element-wise operation. */
  ghost predicate Absorbed(blocks: seq<Block>, counts: map<Value, nat>, b: nat, j: nat, x: nat, t: Value) {
    && b < |blocks| && j < x < |blocks[b].insts|
    && TensorLike(blocks[b].insts[j]) && GetDef(blocks[b].insts[j]) == Some(t)
    && (blocks[b].insts[x].Tensor? || blocks[b].insts[x].TensorScalar?) && t in GetUses(blocks[b].insts[x])
    && CountOf(counts, t) == 1
  }

  // ----- one use means one use -----

  lemma {:induction false} CountInOne(insts: seq<Kind>, i: nat, v: Value)
    requires i < |insts| && v in GetUses(insts[i])
    ensures CountIn(insts, v) >= 1
  {
    if i < |insts| - 1 {
      CountInOne(insts[..|insts| - 1], i, v);
    }
  }

  lemma {:induction false} CountInTwo(insts: seq<Kind>, i: nat, j: nat, v: Value)
    requires i < j < |insts| && v in GetUses(insts[i]) && v in GetUses(insts[j])
    ensures CountIn(insts, v) >= 2
  {
    var before := insts[..|insts| - 1];
    if j < |insts| - 1 {
      CountInTwo(before, i, j, v);
    } else {
      CountInOne(before, i, v);
    }
  }

  lemma {:induction false} CountAllOne(blocks: seq<Block>, b: nat, v: Value)
    requires b < |blocks|
    ensures CountAll(blocks, v) >= CountIn(blocks[b].insts, v)
  {
    if b < |blocks| - 1 {
      CountAllOne(blocks[..|blocks| - 1], b, v);
    }
  }

  lemma {:induction false} CountAllTwo(blocks: seq<Block>, b: nat, c: nat, v: Value)
    requires b < c < |blocks|
    ensures CountAll(blocks, v) >= CountIn(blocks[b].insts, v) + CountIn(blocks[c].insts, v)
  {
    var before := blocks[..|blocks| - 1];
    if c < |blocks| - 1 {
      CountAllTwo(before, b, c, v);
    } else {
      CountAllOne(before, b, v);
    }
  }

  lemma OnlyUse(blocks: seq<Block>, counts: map<Value, nat>, b: nat, j: nat, x: nat, t: Value, c: nat, i: nat)
    requires (forall v: Value :: CountOf(counts, v) == CountAll(blocks, v)) && Absorbed(blocks, counts, b, j, x, t)
    requires c < |blocks| && i < |blocks[c].insts| && t in GetUses(blocks[c].insts[i])
    ensures c == b && i == x
  {
    CountInOne(blocks[b].insts, x, t);
    CountInOne(blocks[c].insts, i, t);
    if c < b {
      CountAllTwo(blocks, c, b, t);
    } else if b < c {
      CountAllTwo(blocks, b, c, t);
    } else {
      CountAllOne(blocks, b, t);
      if i < x {
        CountInTwo(blocks[b].insts, i, x, t);
      } else if x < i {
        CountInTwo(blocks[b].insts, x, i, t);
      }
    }
  }

  // ----- the absorbed value is no leaf -----

  /** Either t is absorbed wherever it is met, or nothing recorded so far uses it. */
  ghost predicate Avoided(defs: DefMap, counts: map<Value, nat>, t: Value) {
    && (forall w | w in defs && defs[w].TensorFused? :: t !in GetUses(defs[w]))
    && (Absorbs(t, defs, counts) || forall w | w in defs && TensorLike(defs[w]) :: t !in GetUses(defs[w]))
  }

  lemma {:induction false} AddInputsAvoids(inputs: seq<Value>, vs: seq<Value>, t: Value)
    requires t !in inputs && t !in vs
    ensures t !in AddInputs(inputs, vs)
    decreases |vs|
  {
    if vs != [] {
      AddInputsAvoids(AddInput(inputs, vs[0]), vs[1..], t);
    }
  }

  lemma {:induction false} FusedExprAvoids(val: Value, defs: DefMap, counts: map<Value, nat>, tensors: set<Value>,
      inputs: seq<Value>, pos: Value -> nat, t: Value)
    requires Ordered(defs, pos) && Avoided(defs, counts, t) && (Absorbs(t, defs, counts) || val != t) && t !in inputs
    ensures t !in GetFusedExpr(val, defs, counts, tensors, inputs, pos).1
    decreases if val in defs then pos(val) + 1 else 0
  {
    if Absorbs(val, defs, counts) {
      var k := defs[val];
      match k
      case Tensor(_, _, l, r) =>
        assert l in GetUses(k) && r in GetUses(k);
        FusedExprAvoids(l, defs, counts, tensors, inputs, pos, t);
        FusedExprAvoids(r, defs, counts, tensors, GetFusedExpr(l, defs, counts, tensors, inputs, pos).1, pos, t);
      case TensorScalar(_, _, l, r) =>
        assert l in GetUses(k) && r in GetUses(k);
        FusedExprAvoids(l, defs, counts, tensors, inputs, pos, t);
        FusedExprAvoids(r, defs, counts, tensors, GetFusedExpr(l, defs, counts, tensors, inputs, pos).1, pos, t);
      case TensorFused(_, fused, _) => AddInputsAvoids(inputs, fused, t);
    }
  }

  lemma FuseInstAvoids(k: Kind, defs: DefMap, counts: map<Value, nat>, tensors: set<Value>, pos: Value -> nat, t: Value)
    requires Ordered(defs, pos) && Avoided(defs, counts, t)
    requires t in GetUses(k) ==> (k.Tensor? || k.TensorScalar?) && Absorbs(t, defs, counts)
    ensures t !in GetUses(FuseInst(k, defs, counts, tensors, pos))
  {
    if k.Tensor? || k.TensorScalar? {
      var l, r := GetUses(k)[0], GetUses(k)[1];
      if Absorbs(l, defs, counts) || Absorbs(r, defs, counts) {
        assert t in GetUses(k) <==> t == l || t == r;
        FusedExprAvoids(l, defs, counts, tensors, [], pos, t);
        FusedExprAvoids(r, defs, counts, tensors, GetFusedExpr(l, defs, counts, tensors, [], pos).1, pos, t);
      }
    }
  }

  /** t has no use in the block but that of the operation at x, and its own definition at j comes
      before it. */
  ghost predicate AbsorbedAt(insts: seq<Kind>, counts: map<Value, nat>, j: int, x: int, t: Value) {
    && CountOf(counts, t) == 1
    && (forall n | 0 <= n < |insts| && t in GetUses(insts[n]) :: n == x && (insts[x].Tensor? || insts[x].TensorScalar?))
    && ((exists n | 0 <= n < |insts| :: t in GetUses(insts[n])) ==>
          0 <= j < x && j < |insts| && TensorLike(insts[j]) && GetDef(insts[j]) == Some(t))
  }

  /** No instruction of the fused block has the absorbed value among its operands. */
  lemma {:induction false} UpToAvoids(insts: seq<Kind>, i: nat, counts: map<Value, nat>, tensors: set<Value>, j: int,
      x: int, t: Value)
    requires LocallyOrdered(insts) && i <= |insts| && AbsorbedAt(insts, counts, j, x, t)
    ensures var (fused, defs) := FusedUpTo(insts, i, counts, tensors);
      Avoided(defs, counts, t) && forall n | 0 <= n < i :: t !in GetUses(fused[n])
  {
    hide LocallyOrdered, Avoided, GetUses, AbsorbedAt, DefsOk;
    if i == 0 {
      NothingToAvoid(counts, t);
    } else {
      hide FusedUpTo;
      UpToAvoids(insts, i - 1, counts, tensors, j, x, t);
      UpToAvoidsStep(insts, i - 1, counts, tensors, j, x, t);
    }
  }

  lemma NothingToAvoid(counts: map<Value, nat>, t: Value)
    ensures Avoided(map[], counts, t)
  {
  }

  lemma UpToAvoidsStep(insts: seq<Kind>, i: nat, counts: map<Value, nat>, tensors: set<Value>, j: int, x: int, t: Value)
    requires LocallyOrdered(insts) && i < |insts| && AbsorbedAt(insts, counts, j, x, t)
    requires var (fused, defs) := FusedUpTo(insts, i, counts, tensors);
      Avoided(defs, counts, t) && forall n | 0 <= n < i :: t !in GetUses(fused[n])
    ensures var (fused, defs) := FusedUpTo(insts, i + 1, counts, tensors);
      Avoided(defs, counts, t) && forall n | 0 <= n < i + 1 :: t !in GetUses(fused[n])
  {
    hide FusedUpTo, FuseInst, Positions, LocallyOrdered, Avoided, GetUses, AbsorbedAt, Absorbs, DefsOk, Ordered;
    var defs := FusedUpTo(insts, i, counts, tensors).1;
    DefsOrdered(insts, i, defs);
    UseIsAbsorbed(insts, i, defs, counts, j, x, t);
    FuseInstAvoids(insts[i], defs, counts, tensors, Positions(insts), t);
    UpToAvoidsNext(insts, i, counts, tensors, t);
  }

  lemma UseIsAbsorbed(insts: seq<Kind>, i: nat, defs: DefMap, counts: map<Value, nat>, j: int, x: int, t: Value)
    requires i < |insts| && DefsOk(insts, i, defs) && AbsorbedAt(insts, counts, j, x, t)
    ensures t in GetUses(insts[i]) ==> (insts[i].Tensor? || insts[i].TensorScalar?) && Absorbs(t, defs, counts)
  {
  }

  lemma UpToAvoidsNext(insts: seq<Kind>, i: nat, counts: map<Value, nat>, tensors: set<Value>, t: Value)
    requires LocallyOrdered(insts) && i < |insts| && Ordered(FusedUpTo(insts, i, counts, tensors).1, Positions(insts))
    requires var (fused, defs) := FusedUpTo(insts, i, counts, tensors);
      && Avoided(defs, counts, t) && t !in GetUses(FuseInst(insts[i], defs, counts, tensors, Positions(insts)))
      && forall n | 0 <= n < i :: t !in GetUses(fused[n])
    ensures var (fused, defs) := FusedUpTo(insts, i + 1, counts, tensors);
      Avoided(defs, counts, t) && forall n | 0 <= n < i + 1 :: t !in GetUses(fused[n])
  {
    hide FusedUpTo, FuseInst, Positions, LocallyOrdered, Avoided, GetUses, GetDef, TensorLike, DefsOk, Ordered;
    var defs := FusedUpTo(insts, i, counts, tensors).1;
    UpToStep(insts, i, counts, tensors);
    AvoidedStep(insts, i, defs, counts, FuseInst(insts[i], defs, counts, tensors, Positions(insts)), t);
  }

  lemma AvoidedStep(insts: seq<Kind>, i: nat, defs: DefMap, counts: map<Value, nat>, f: Kind, t: Value)
    requires LocallyOrdered(insts) && i < |insts| && DefsOk(insts, i, defs) && Avoided(defs, counts, t)
      && t !in GetUses(f)
    requires GetDef(f) == GetDef(insts[i])
    ensures Avoided(if GetDef(f).Some? then defs[GetDef(f).value := f] else defs, counts, t)
  {
  }

  /** After the pass the absorbed value is an operand of no instruction, phis aside. */
  lemma AbsorbedHasNoUse(blocks: seq<Block>, counts: map<Value, nat>, tensors: set<Value>, b: nat, j: nat, x: nat,
      t: Value, block: Block, k: Kind)
    requires (forall block | block in blocks :: LocallyOrdered(block.insts))
    requires (forall v: Value :: CountOf(counts, v) == CountAll(blocks, v)) && Absorbed(blocks, counts, b, j, x, t)
    requires block in FuseAll(blocks, counts, tensors) && k in block.insts
    ensures t !in GetUses(k)
  {
    hide LocallyOrdered, FusedUpTo, GetUses, CountAll, CountOf;
    var c :| 0 <= c < |blocks| && block == FuseBlock(blocks[c], counts, tensors);
    var insts := blocks[c].insts;
    forall n | 0 <= n < |insts| && t in GetUses(insts[n])
      ensures n == x && c == b
    {
      OnlyUse(blocks, counts, b, j, x, t, c, n);
    }
    UpToAvoids(insts, |insts|, counts, tensors, j, x, t);
  }

  /** A value no instruction uses is required only for the sake of a required phi. */
  lemma RequiredByPhi(blocks: seq<Block>, used: set<Value>, t: Value)
    requires IsRequired(blocks, used) && t in used
    requires forall block, k | block in blocks && k in block.insts :: t !in GetUses(k)
    ensures exists block, k :: block in blocks && k in block.insts && k.Phi? && t in k.mappings.Values && k.dest in used
  {
    var p :| Chain(blocks, p) && p[|p| - 1] == t;
    if |p| > 1 {
      var u := p[|p| - 2];
      var q := p[..|p| - 1];
      assert Chain(blocks, q) && q[|q| - 1] == u;
      var k := FindDef(blocks, u).value;
      var block :| block in blocks && k in block.insts;
      assert k.dest in used;
    }
  }

  /** Dead code elimination then deletes the absorbed definition, unless a required phi reads it. */
  lemma AbsorbedIsDeleted(blocks: seq<Block>, counts: map<Value, nat>, tensors: set<Value>, used: set<Value>, b: nat,
      j: nat, x: nat, t: Value)
    requires SingleAssignment(blocks) && (forall block | block in blocks :: LocallyOrdered(block.insts))
    requires (forall v: Value :: CountOf(counts, v) == CountAll(blocks, v)) && Absorbed(blocks, counts, b, j, x, t)
    requires IsRequired(FuseAll(blocks, counts, tensors), used)
    requires forall block, k | block in FuseAll(blocks, counts, tensors) && k in block.insts && k.Phi?
      && k.dest in used ::
      t !in k.mappings.Values
    ensures forall block, k | block in Prune(FuseAll(blocks, counts, tensors), used)
      && k in block.insts :: GetDef(k) != Some(t)
  {
    hide LocallyOrdered, CountOf, CountAll, Absorbed, SingleAssignment;
    var fused := FuseAll(blocks, counts, tensors);
    AbsorbedNotRequired(blocks, counts, tensors, used, b, j, x, t);
    forall block, k | block in Prune(fused, used) && k in block.insts
      ensures GetDef(k) != Some(t)
    {
      var c :| 0 <= c < |fused| && block == PruneBlock(fused[c], used);
      RetainKeeps(fused[c].insts, used);
      if GetDef(k) == Some(t) {
        AbsorbedIsTensor(blocks, counts, b, j, x, t);
        EffectsDefineOthers(blocks, counts, tensors, b, j, t, c, k);
      }
    }
  }

  lemma AbsorbedIsTensor(blocks: seq<Block>, counts: map<Value, nat>, b: nat, j: nat, x: nat, t: Value)
    requires Absorbed(blocks, counts, b, j, x, t)
    ensures b < |blocks| && j < |blocks[b].insts| && TensorLike(blocks[b].insts[j])
      && GetDef(blocks[b].insts[j]) == Some(t)
  {
  }

  lemma AbsorbedNotRequired(blocks: seq<Block>, counts: map<Value, nat>, tensors: set<Value>, used: set<Value>, b: nat,
      j: nat, x: nat, t: Value)
    requires (forall block | block in blocks :: LocallyOrdered(block.insts))
    requires (forall v: Value :: CountOf(counts, v) == CountAll(blocks, v)) && Absorbed(blocks, counts, b, j, x, t)
    requires IsRequired(FuseAll(blocks, counts, tensors), used)
    requires forall block, k | block in FuseAll(blocks, counts, tensors) && k in block.insts && k.Phi?
      && k.dest in used ::
      t !in k.mappings.Values
    ensures t !in used
  {
    hide LocallyOrdered, CountOf, CountAll, Absorbed, IsRequired, FuseAll;
    var fused := FuseAll(blocks, counts, tensors);
    forall block, k | block in fused && k in block.insts
      ensures t !in GetUses(k)
    {
      AbsorbedHasNoUse(blocks, counts, tensors, b, j, x, t, block, k);
    }
    if t in used {
      RequiredByPhi(fused, used, t);
    }
  }

  lemma EffectsDefineOthers(blocks: seq<Block>, counts: map<Value, nat>, tensors: set<Value>, b: nat, j: nat, t: Value,
      c: nat, k: Kind)
    requires SingleAssignment(blocks) && (forall block | block in blocks :: LocallyOrdered(block.insts))
    requires b < |blocks| && j < |blocks[b].insts| && TensorLike(blocks[b].insts[j])
      && GetDef(blocks[b].insts[j]) == Some(t)
    requires c < |blocks| && k in FuseBlock(blocks[c], counts, tensors).insts && GetDef(k) == Some(t)
    ensures !HasSideEffects(k)
  {
    hide FusedUpTo, LocallyOrdered, DefsOk;
    var insts := blocks[c].insts;
    assert blocks[c] in blocks && blocks[b] in blocks;
    var fused := FusedUpTo(insts, |insts|, counts, tensors).0;
    var n :| 0 <= n < |fused| && fused[n] == k;
    UpToKeepsOrFuses(insts, |insts|, counts, tensors, n);
    assert insts[n] in insts && blocks[b].insts[j] in blocks[b].insts;
  }
}
