/** Which operations fusion absorbs, and which not: exactly the single-use element-wise results defined
    earlier in the block of their only user. */
module FusionExact {
  import opened IR
  import opened Fusion
  import M = FusionMeaning

  /** t is the result of the element-wise operation at j, before n, and has one use in the function. */
  ghost predicate AbsorbedFrom(blocks: seq<Block>, insts: seq<Kind>, n: nat, t: Value, j: nat) {
    && CountAll(blocks, t) == 1 && j < n && j < |insts| && GetDef(insts[j]) == Some(t)
    && (insts[j].Tensor? || insts[j].TensorScalar? || insts[j].TensorFused?)
  }

  ghost predicate IsAbsorbed(blocks: seq<Block>, insts: seq<Kind>, n: nat, t: Value) {
    exists j: nat :: AbsorbedFrom(blocks, insts, n, t, j)
  }

  /** Operand t of instruction n makes the fused instruction use u: through the operation it absorbs, or as
      itself when it absorbs none. */
  ghost predicate Brings(blocks: seq<Block>, insts: seq<Kind>, fused: seq<Kind>, n: nat, t: Value, u: Value)
    requires |fused| == |insts|
  {
    || (exists j: nat :: AbsorbedFrom(blocks, insts, n, t, j) && u in GetUses(fused[j]))
    || (u == t && !IsAbsorbed(blocks, insts, n, t))
  }

  /** What the pass makes of instruction n: an element-wise operation changes exactly when it has an operand
      to absorb, and then uses exactly what its operands bring; anything else stays. */
  ghost predicate FusedAs(blocks: seq<Block>, insts: seq<Kind>, fused: seq<Kind>, n: nat)
    requires |fused| == |insts| && n < |insts|
  {
    var k := insts[n];
    if k.Tensor? || k.TensorScalar? then
      && (fused[n] != k <==> exists t :: t in GetUses(k) && IsAbsorbed(blocks, insts, n, t))
      && (forall u :: u in GetUses(fused[n]) <==> exists t :: t in GetUses(k) && Brings(blocks, insts, fused, n, t, u))
    else fused[n] == k
  }

  // ----- what the recorded definitions say -----

  lemma {:induction false} DefsAreFused(insts: seq<Kind>, i: nat, counts: map<Value, nat>, tensors: set<Value>, j: nat,
      v: Value)
    requires LocallyOrdered(insts) && j < i <= |insts| && GetDef(insts[j]) == Some(v)
    ensures var (fused, defs) := FusedUpTo(insts, i, counts, tensors); v in defs && defs[v] == fused[j]
  {
    hide FusedUpTo, LocallyOrdered, FuseInst, DefsOk, GetDef;
    UpToStep(insts, i - 1, counts, tensors);
    if j < i - 1 {
      DefsAreFused(insts, i - 1, counts, tensors, j, v);
      if GetDef(insts[i - 1]) == Some(v) {
        OneDefinition(insts, j, i - 1);
      }
    }
  }

  /** The pass absorbs by use count and definition. */
  lemma AbsorbsExactly(blocks: seq<Block>, insts: seq<Kind>, i: nat, counts: map<Value, nat>, tensors: set<Value>,
      t: Value)
    requires LocallyOrdered(insts) && i <= |insts| && CountOf(counts, t) == CountAll(blocks, t)
    ensures Absorbs(t, FusedUpTo(insts, i, counts, tensors).1, counts) <==> IsAbsorbed(blocks, insts, i, t)
  {
    var defs := FusedUpTo(insts, i, counts, tensors).1;
    assert DefsOk(insts, i, defs);
    hide FusedUpTo, LocallyOrdered, CountAll;
    if Absorbs(t, defs, counts) {
      var j :| 0 <= j < i && GetDef(insts[j]) == Some(t);
      assert AbsorbedFrom(blocks, insts, i, t, j);
    }
  }

  /** Operations recorded unfused have no operand to absorb, then or later. */
  ghost predicate NoneLeft(defs: DefMap, counts: map<Value, nat>) {
    forall v, u | v in defs && (defs[v].Tensor? || defs[v].TensorScalar?) && u in GetUses(defs[v]) ::
      !Absorbs(u, defs, counts)
  }

  lemma {:induction false} UpToNoneLeft(insts: seq<Kind>, i: nat, counts: map<Value, nat>, tensors: set<Value>)
    requires LocallyOrdered(insts) && i <= |insts|
    ensures NoneLeft(FusedUpTo(insts, i, counts, tensors).1, counts)
  {
    hide LocallyOrdered, NoneLeft, FuseInst, DefsOk, Ordered;
    if i == 0 {
      NoneLeftIs(map[], counts);
    } else {
      hide FusedUpTo;
      UpToNoneLeft(insts, i - 1, counts, tensors);
      NoneLeftNext(insts, i - 1, counts, tensors);
    }
  }

  lemma NoneLeftNext(insts: seq<Kind>, i: nat, counts: map<Value, nat>, tensors: set<Value>)
    requires LocallyOrdered(insts) && i < |insts| && NoneLeft(FusedUpTo(insts, i, counts, tensors).1, counts)
    ensures NoneLeft(FusedUpTo(insts, i + 1, counts, tensors).1, counts)
  {
    hide FusedUpTo, LocallyOrdered, Positions, TensorLike, GetUses, GetDef, FuseInst, DefsOk, Ordered, NoneLeft,
      Absorbs;
    var next := FusedUpTo(insts, i + 1, counts, tensors).1;
    forall v, u | v in next && (next[v].Tensor? || next[v].TensorScalar?) && u in GetUses(next[v])
      ensures !Absorbs(u, next, counts)
    {
      NoneLeftAt(insts, i, counts, tensors, v, u);
    }
    NoneLeftIs(next, counts);
  }

  lemma NoneLeftIs(defs: DefMap, counts: map<Value, nat>)
    requires forall v, u | v in defs && (defs[v].Tensor? || defs[v].TensorScalar?) && u in GetUses(defs[v]) ::
      !Absorbs(u, defs, counts)
    ensures NoneLeft(defs, counts)
  {
  }

  lemma NoneLeftAt(insts: seq<Kind>, i: nat, counts: map<Value, nat>, tensors: set<Value>, v: Value, u: Value)
    requires LocallyOrdered(insts) && i < |insts| && NoneLeft(FusedUpTo(insts, i, counts, tensors).1, counts)
    requires var next := FusedUpTo(insts, i + 1, counts, tensors).1;
      v in next && (next[v].Tensor? || next[v].TensorScalar?) && u in GetUses(next[v])
    ensures !Absorbs(u, FusedUpTo(insts, i + 1, counts, tensors).1, counts)
  {
    hide FusedUpTo, LocallyOrdered, Positions, TensorLike, GetUses, GetDef, FuseInst, Ordered;
    var defs := FusedUpTo(insts, i, counts, tensors).1;
    UpToStep(insts, i, counts, tensors);
    UnfusedHasNone(insts[i], defs, counts, tensors, Positions(insts));
    var f := FuseInst(insts[i], defs, counts, tensors, Positions(insts));
    var next := FusedUpTo(insts, i + 1, counts, tensors).1;
    var j := i;
    if GetDef(f) != Some(v) {
      assert v in defs && defs[v] == next[v];
      j :| 0 <= j < i && GetDef(insts[j]) == Some(v);
      assert !Absorbs(u, defs, counts);
    } else {
      assert next[v] == f && f == insts[i];
      assert !Absorbs(u, defs, counts);
    }
    assert u in GetUses(insts[j]);
    if GetDef(f) == Some(u) {
      DefBeforeUse(insts, j, i, u);
    }
  }

  lemma UnfusedHasNone(k: Kind, defs: DefMap, counts: map<Value, nat>, tensors: set<Value>, pos: Value -> nat)
    requires Ordered(defs, pos)
    ensures var f := FuseInst(k, defs, counts, tensors, pos);
      f.Tensor? || f.TensorScalar? ==> f == k && forall u | u in GetUses(f) :: !Absorbs(u, defs, counts)
  {
  }

  // ----- the inputs of a kernel -----

  lemma {:induction false} AddedInputs(inputs: seq<Value>, vs: seq<Value>, u: Value)
    ensures u in AddInputs(inputs, vs) <==> u in inputs || u in vs
    decreases |vs|
  {
    if vs != [] {
      AddedInputs(AddInput(inputs, vs[0]), vs[1..], u);
      assert vs == [vs[0]] + vs[1..];
    }
  }

  /** What an operand adds to the inputs of a kernel. */
  ghost predicate Adds(val: Value, defs: DefMap, counts: map<Value, nat>, u: Value) {
    if Absorbs(val, defs, counts) then u in GetUses(defs[val]) else u == val
  }

  lemma ExprInputs(val: Value, defs: DefMap, counts: map<Value, nat>, tensors: set<Value>, inputs: seq<Value>,
      pos: Value -> nat, u: Value)
    requires Ordered(defs, pos) && NoneLeft(defs, counts)
    ensures u in GetFusedExpr(val, defs, counts, tensors, inputs, pos).1 <==> u in inputs || Adds(val, defs, counts, u)
  {
    if Absorbs(val, defs, counts) {
      var k := defs[val];
      match k
      case Tensor(_, _, l, r) =>
        assert l in GetUses(k) && r in GetUses(k);
      case TensorScalar(_, _, t, s) =>
        assert t in GetUses(k) && s in GetUses(k);
      case TensorFused(_, fused, _) =>
        AddedInputs(inputs, fused, u);
    }
  }

  lemma InstInputs(k: Kind, defs: DefMap, counts: map<Value, nat>, tensors: set<Value>, pos: Value -> nat, u: Value)
    requires Ordered(defs, pos) && NoneLeft(defs, counts) && (k.Tensor? || k.TensorScalar?)
    ensures u in GetUses(FuseInst(k, defs, counts, tensors, pos))
      <==> exists t :: t in GetUses(k) && Adds(t, defs, counts, u)
  {
    var l, r := GetUses(k)[0], GetUses(k)[1];
    assert l in GetUses(k) && r in GetUses(k) && GetUses(k) == [l, r];
    var inputs1 := GetFusedExpr(l, defs, counts, tensors, [], pos).1;
    ExprInputs(l, defs, counts, tensors, [], pos, u);
    ExprInputs(r, defs, counts, tensors, inputs1, pos, u);
    hide GetFusedExpr, NoneLeft, Ordered;
    assert u in GetUses(FuseInst(k, defs, counts, tensors, pos))
      <==> (Adds(l, defs, counts, u) || Adds(r, defs, counts, u));
  }

  lemma ChangesExactly(k: Kind, defs: DefMap, counts: map<Value, nat>, tensors: set<Value>, pos: Value -> nat)
    requires Ordered(defs, pos) && (k.Tensor? || k.TensorScalar?)
    ensures FuseInst(k, defs, counts, tensors, pos) != k <==> exists t :: t in GetUses(k) && Absorbs(t, defs, counts)
  {
    var l, r := GetUses(k)[0], GetUses(k)[1];
    assert l in GetUses(k) && r in GetUses(k) && GetUses(k) == [l, r];
    hide GetFusedExpr;
  }

  // ----- the pass -----

  /** What operand t adds is what it brings, seen from the blocks. */
  lemma AddsIsBrings(blocks: seq<Block>, insts: seq<Kind>, n: nat, counts: map<Value, nat>, tensors: set<Value>,
      t: Value,
      u: Value)
    requires LocallyOrdered(insts) && n < |insts| && CountOf(counts, t) == CountAll(blocks, t)
    ensures Adds(t, FusedUpTo(insts, n, counts, tensors).1, counts, u)
      <==> Brings(blocks, insts, FusedUpTo(insts, |insts|, counts, tensors).0, n, t, u)
  {
    hide FusedUpTo, LocallyOrdered, GetUses, CountAll, AbsorbedFrom, Absorbs, IsAbsorbed;
    var fused, defs := FusedUpTo(insts, |insts|, counts, tensors).0, FusedUpTo(insts, n, counts, tensors).1;
    AbsorbsExactly(blocks, insts, n, counts, tensors, t);
    forall j: nat | AbsorbedFrom(blocks, insts, n, t, j)
      ensures j < |fused| && t in defs && defs[t] == fused[j] && IsAbsorbed(blocks, insts, n, t)
    {
      RecordedIsFused(blocks, insts, n, counts, tensors, t, j);
    }
    if IsAbsorbed(blocks, insts, n, t) {
      var j := AbsorbedAt(blocks, insts, n, t);
      assert defs[t] == fused[j];
    }
  }

  lemma AbsorbedAt(blocks: seq<Block>, insts: seq<Kind>, n: nat, t: Value) returns (j: nat)
    requires IsAbsorbed(blocks, insts, n, t)
    ensures AbsorbedFrom(blocks, insts, n, t, j)
  {
    j :| AbsorbedFrom(blocks, insts, n, t, j);
  }

  lemma RecordedIsFused(blocks: seq<Block>, insts: seq<Kind>, n: nat, counts: map<Value, nat>, tensors: set<Value>,
      t: Value, j: nat)
    requires LocallyOrdered(insts) && n <= |insts| && AbsorbedFrom(blocks, insts, n, t, j)
    ensures IsAbsorbed(blocks, insts, n, t) && j < |insts| && t in FusedUpTo(insts, n, counts, tensors).1
    ensures FusedUpTo(insts, n, counts, tensors).1[t] == FusedUpTo(insts, |insts|, counts, tensors).0[j]
  {
    hide FusedUpTo, LocallyOrdered, CountAll, DefsOk, GetDef;
    DefsAreFused(insts, n, counts, tensors, j, t);
    M.FusedAtIndex(insts, |insts|, j, counts, tensors);
    M.FusedAtIndex(insts, n, j, counts, tensors);
  }

  /** Fusion absorbs single-use element-wise operands of the same block and nothing else: an operand used
      elsewhere, too, stays an operand. */
  lemma FusesExactly(blocks: seq<Block>, counts: map<Value, nat>, tensors: set<Value>, b: nat, n: nat)
    requires forall block | block in blocks :: LocallyOrdered(block.insts)
    requires forall v: Value :: CountOf(counts, v) == CountAll(blocks, v)
    requires b < |blocks| && n < |blocks[b].insts|
    ensures |FuseAll(blocks, counts, tensors)| == |blocks|
    ensures |FuseAll(blocks, counts, tensors)[b].insts| == |blocks[b].insts|
    ensures FusedAs(blocks, blocks[b].insts, FuseAll(blocks, counts, tensors)[b].insts, n)
  {
    var insts := blocks[b].insts;
    assert blocks[b] in blocks;
    var fused := FusedUpTo(insts, |insts|, counts, tensors).0;
    assert FuseAll(blocks, counts, tensors)[b].insts == fused;
    InstFuses(blocks, insts, counts, tensors, n);
  }

  lemma InstFuses(blocks: seq<Block>, insts: seq<Kind>, counts: map<Value, nat>, tensors: set<Value>, n: nat)
    requires LocallyOrdered(insts) && n < |insts| && forall v: Value :: CountOf(counts, v) == CountAll(blocks, v)
    ensures FusedAs(blocks, insts, FusedUpTo(insts, |insts|, counts, tensors).0, n)
  {
    hide FusedUpTo, LocallyOrdered, Positions, DefsOk, GetUses, Brings, IsAbsorbed, Absorbs, Adds, CountAll, CountOf;
    var k, defs, fused := insts[n], FusedUpTo(insts, n, counts, tensors).1,
      FusedUpTo(insts, |insts|, counts, tensors).0;
    M.FusedAtIndex(insts, |insts|, n, counts, tensors);
    UpToStep(insts, n, counts, tensors);
    UpToNoneLeft(insts, n, counts, tensors);
    if k.Tensor? || k.TensorScalar? {
      ChangesExactly(k, defs, counts, tensors, Positions(insts));
      hide FuseInst;
      forall t {:trigger Absorbs(t, defs, counts)} {:trigger IsAbsorbed(blocks, insts, n, t)}
        ensures Absorbs(t, defs, counts) <==> IsAbsorbed(blocks, insts, n, t)
      {
        AbsorbsExactly(blocks, insts, n, counts, tensors, t);
      }
      forall u
        ensures u in GetUses(fused[n]) <==> exists t :: t in GetUses(k) && Brings(blocks, insts, fused, n, t, u)
      {
        InstInputs(k, defs, counts, tensors, Positions(insts), u);
        forall t {:trigger Adds(t, defs, counts, u)} {:trigger Brings(blocks, insts, fused, n, t, u)}
          ensures Adds(t, defs, counts, u) <==> Brings(blocks, insts, fused, n, t, u)
        {
          AddsIsBrings(blocks, insts, n, counts, tensors, t, u);
        }
      }
    }
  }

  /** In particular an operand with any number of uses but one is still an operand after the pass. */
  lemma SharedIsKept(blocks: seq<Block>, counts: map<Value, nat>, tensors: set<Value>, b: nat, n: nat, t: Value)
    requires forall block | block in blocks :: LocallyOrdered(block.insts)
    requires forall v: Value :: CountOf(counts, v) == CountAll(blocks, v)
    requires b < |blocks| && n < |blocks[b].insts| && t in GetUses(blocks[b].insts[n]) && CountAll(blocks, t) != 1
    ensures n < |FuseAll(blocks, counts, tensors)[b].insts|
    ensures t in GetUses(FuseAll(blocks, counts, tensors)[b].insts[n])
  {
    FusesExactly(blocks, counts, tensors, b, n);
    hide GetUses, CountAll, FuseAll;
    var insts, fused := blocks[b].insts, FuseAll(blocks, counts, tensors)[b].insts;
    assert !IsAbsorbed(blocks, insts, n, t);
    assert Brings(blocks, insts, fused, n, t, t);
  }
}
