/** Fusion does not change what any value is. */
module FusionMeaning {
  import opened IR
  import opened Semantics
  import opened StrictSsa
  import opened Fusion

  // ----- expressions as whole-tensor operations -----

  function Leaves(e: FusedExpr): set<Value> {
    match e
    case Input(v) => {v}
    case Scalar(v) => {v}
    case Node(_, l, r) => Leaves(l) + Leaves(r)
  }

  /** Tensor leaves are tensors, scalar leaves are not, and a node's left side is a tensor. */
  predicate ExprOk(e: FusedExpr, tensors: set<Value>) {
    match e
    case Input(v) => v in tensors
    case Scalar(v) => v !in tensors
    case Node(_, l, r) => !l.Scalar? && ExprOk(l, tensors) && ExprOk(r, tensors)
  }

  /** The value of an expression computed one whole tensor at a time, as separate kernels would. */
  function ExprVal(m: Machine, e: FusedExpr, env: Store): Val {
    match e
    case Input(v) => Get(env, v)
    case Scalar(v) => Get(env, v)
    case Node(op, l, r) =>
      if r.Scalar? then TensorScalarOp(m, op, ExprVal(m, l, env), ExprVal(m, r, env))
      else TensorOp(m, op, ExprVal(m, l, env), ExprVal(m, r, env))
  }

  predicate LeafFits(m: Machine, v: Value, env: Store, n: nat) {
    if v in m.tensors then Get(env, v).Cells? && |Get(env, v).cells| == n else Get(env, v).Float?
  }

  /** An expression has a value of n cells exactly when all its leaves fit a loop over n cells. */
  lemma {:induction false} ExprSize(m: Machine, e: FusedExpr, env: Store, n: nat)
    requires ExprOk(e, m.tensors)
    ensures (forall v | v in Leaves(e) :: LeafFits(m, v, env, n)) <==>
      var x := ExprVal(m, e, env); if e.Scalar? then x.Float? else x.Cells? && |x.cells| == n
    ensures !e.Scalar? && e.Node? ==> ExprVal(m, e, env).Cells? || ExprVal(m, e, env).Undef?
  {
    match e
    case Input(v) => assert Leaves(e) == {v};
    case Scalar(v) =>
      assert Leaves(e) == {v};
      assert LeafFits(m, v, env, n) <==> ExprVal(m, e, env).Float?;
    case Node(_, l, r) =>
      ExprSize(m, l, env, n);
      ExprSize(m, r, env, n);
      assert (forall v | v in Leaves(e) :: LeafFits(m, v, env, n)) <==>
        (forall v | v in Leaves(l) :: LeafFits(m, v, env, n)) && (forall v | v in Leaves(r) :: LeafFits(m, v, env, n));
  }

  /** Each cell of the whole-tensor value is what the fused loop computes for it. */
  lemma {:induction false} ExprCell(m: Machine, e: FusedExpr, inputs: seq<Value>, env: Store, n: nat, i: nat)
    requires ExprOk(e, m.tensors) && (forall v | v in Leaves(e) :: v in inputs && LeafFits(m, v, env, n)) && i < n
    ensures e.Scalar? ==> ExprVal(m, e, env) == Float(FusedAt(m, inputs, env, e, i))
    ensures !e.Scalar? ==> ExprVal(m, e, env).Cells? && |ExprVal(m, e, env).cells| == n
    ensures !e.Scalar? ==> ExprVal(m, e, env).cells[i] == FusedAt(m, inputs, env, e, i)
  {
    ExprSize(m, e, env, n);
    match e
    case Input(v) => assert v in Leaves(e) && LeafFits(m, v, env, n);
    case Scalar(v) => assert v in Leaves(e) && LeafFits(m, v, env, n);
    case Node(_, l, r) =>
      ExprCell(m, l, inputs, env, n, i);
      ExprCell(m, r, inputs, env, n, i);
  }

  /** A tensor expression has a tensor leaf. */
  lemma {:induction false} HasTensorLeaf(e: FusedExpr, tensors: set<Value>) returns (v: Value)
    requires ExprOk(e, tensors) && !e.Scalar?
    ensures v in Leaves(e) && v in tensors
  {
    if e.Input? {
      v := e.value;
    } else {
      v := HasTensorLeaf(e.left, tensors);
    }
  }

  lemma {:induction false} LoopSizeIs(m: Machine, inputs: seq<Value>, env: Store, n: nat, v: Value)
    requires v in inputs && v in m.tensors
    ensures Fits(m, inputs, env, n) ==> LoopSize(m, inputs, env) == Some(n)
  {
    if inputs[0] !in m.tensors {
      assert inputs == [inputs[0]] + inputs[1..];
      LoopSizeIs(m, inputs[1..], env, n, v);
      assert Fits(m, inputs, env, n) ==> Fits(m, inputs[1..], env, n);
    } else {
      assert inputs[0] in inputs;
    }
  }

  /** The fused loop over the inputs computes the expression, cell by cell or not at all. */
  lemma KernelComputesExpr(m: Machine, e: FusedExpr, inputs: seq<Value>, env: Store)
    requires ExprOk(e, m.tensors) && e.Node? && (forall v :: v in inputs <==> v in Leaves(e))
    ensures FusedKernel(m, inputs, e, env) == ExprVal(m, e, env)
  {
    var x := ExprVal(m, e, env);
    var leaf := HasTensorLeaf(e, m.tensors);
    var size := if x.Cells? then |x.cells| else if LoopSize(m, inputs, env).Some? then LoopSize(m, inputs, env).value
      else 0;
    ExprSize(m, e, env, size);
    LoopSizeIs(m, inputs, env, size, leaf);
    assert Fits(m, inputs, env, size) <==> forall v | v in Leaves(e) :: LeafFits(m, v, env, size);
    if x.Cells? {
      forall i: nat | i < size
        ensures x.cells[i] == FusedAt(m, inputs, env, e, i)
      {
        ExprCell(m, e, inputs, env, size, i);
      }
      assert FusedKernel(m, inputs, e, env).cells == x.cells;
    }
  }

  // ----- the expressions the pass builds -----

  ghost predicate NoDuplicates(vs: seq<Value>) {
    forall i, j | 0 <= i < j < |vs| :: vs[i] != vs[j]
  }

  /** Element-wise instructions are applied to values of the recorded types. */
  ghost predicate TypedKind(k: Kind, tensors: set<Value>) {
    match k
    case Tensor(d, _, l, r) => d in tensors && l in tensors && r in tensors
    case TensorScalar(d, _, t, s) => d in tensors && t in tensors && s !in tensors
    case TensorFused(d, inputs, e) =>
      d in tensors && ExprOk(e, tensors) && e.Node? && NoDuplicates(inputs)
        && (forall v :: v in inputs <==> v in Leaves(e))
    case _ => true
  }

  ghost predicate DefsTyped(defs: DefMap, tensors: set<Value>) {
    forall v | v in defs :: TypedKind(defs[v], tensors) && GetDef(defs[v]) == Some(v)
  }

  /** The element-wise definitions recorded so far hold in the store. */
  ghost predicate DefsHold(m: Machine, defs: DefMap, env: Store, mem: Memory) {
    forall v | v in defs && TensorLike(defs[v]) :: Get(env, v) == Compute(m, defs[v], env, mem)
  }

  lemma {:induction false} AddInputsSet(inputs: seq<Value>, vs: seq<Value>)
    requires NoDuplicates(inputs)
    ensures NoDuplicates(AddInputs(inputs, vs))
    ensures forall v :: v in AddInputs(inputs, vs) <==> v in inputs || v in vs
    decreases |vs|
  {
    if vs != [] {
      assert vs == [vs[0]] + vs[1..];
      AddInputsSet(AddInput(inputs, vs[0]), vs[1..]);
    }
  }

  /** The expression built for a value has that value, its leaves are exactly what is added to the
      duplicate-free input list, and it is a tensor expression when the value is a tensor. */
  lemma {:induction false} FusedExprIs(m: Machine, val: Value, defs: DefMap, counts: map<Value, nat>,
      inputs: seq<Value>, pos: Value -> nat, env: Store, mem: Memory)
    requires Ordered(defs, pos) && DefsTyped(defs, m.tensors) && NoDuplicates(inputs)
    ensures var (e, after) := GetFusedExpr(val, defs, counts, m.tensors, inputs, pos);
      && ExprOk(e, m.tensors) && (e.Scalar? <==> val !in m.tensors)
      && NoDuplicates(after) && (forall v :: v in after <==> v in inputs || v in Leaves(e))
      && (DefsHold(m, defs, env, mem) ==> ExprVal(m, e, env) == Get(env, val))
    decreases if val in defs then pos(val) + 1 else 0
  {
    if Absorbs(val, defs, counts) {
      var k := defs[val];
      assert TypedKind(k, m.tensors);
      match k
      case Tensor(_, _, l, r) =>
        assert l in GetUses(k) && r in GetUses(k);
        FusedExprIs(m, l, defs, counts, inputs, pos, env, mem);
        FusedExprIs(m, r, defs, counts, GetFusedExpr(l, defs, counts, m.tensors, inputs, pos).1, pos, env, mem);
      case TensorScalar(_, _, t, s) =>
        assert t in GetUses(k) && s in GetUses(k);
        FusedExprIs(m, t, defs, counts, inputs, pos, env, mem);
        FusedExprIs(m, s, defs, counts, GetFusedExpr(t, defs, counts, m.tensors, inputs, pos).1, pos, env, mem);
      case TensorFused(_, fused, e) =>
        AddInputsSet(inputs, fused);
        KernelComputesExpr(m, e, fused, env);
    }
  }

  /** Fusing an instruction keeps it well typed and keeps the value it computes. */
  lemma FuseInstIs(m: Machine, k: Kind, defs: DefMap, counts: map<Value, nat>, pos: Value -> nat, env: Store,
      mem: Memory)
    requires Ordered(defs, pos) && DefsTyped(defs, m.tensors) && TypedKind(k, m.tensors)
    ensures TypedKind(FuseInst(k, defs, counts, m.tensors, pos), m.tensors)
    ensures DefsHold(m, defs, env, mem) ==>
      Compute(m, FuseInst(k, defs, counts, m.tensors, pos), env, mem) == Compute(m, k, env, mem)
  {
    var f := FuseInst(k, defs, counts, m.tensors, pos);
    if f != k {
      var l, r := GetUses(k)[0], GetUses(k)[1];
      FusedExprIs(m, l, defs, counts, [], pos, env, mem);
      FusedExprIs(m, r, defs, counts, GetFusedExpr(l, defs, counts, m.tensors, [], pos).1, pos, env, mem);
      KernelComputesExpr(m, f.expr, f.inputs, env);
    }
  }

  // ----- blocks -----

  /** What recorded element-wise definitions depend on is not defined again from position i on. */
  ghost predicate Settled(insts: seq<Kind>, i: nat, defs: DefMap) {
    forall v, u, j | v in defs && TensorLike(defs[v]) && u in GetUses(defs[v]) && i <= j < |insts| ::
      GetDef(insts[j]) != Some(u)
  }

  /** Every input of the built list is the value itself or something a recorded definition uses. */
  lemma {:induction false} FusedExprUses(val: Value, defs: DefMap, counts: map<Value, nat>, tensors: set<Value>,
      inputs: seq<Value>, pos: Value -> nat, u: Value)
    requires Ordered(defs, pos) && u in GetFusedExpr(val, defs, counts, tensors, inputs, pos).1
    ensures u in inputs || u == val || exists w :: w in defs && TensorLike(defs[w]) && u in GetUses(defs[w])
    decreases if val in defs then pos(val) + 1 else 0
  {
    if Absorbs(val, defs, counts) {
      var k := defs[val];
      match k
      case Tensor(_, _, l, r) =>
        assert l in GetUses(k) && r in GetUses(k);
        FusedUsesOfPair(val, l, r, defs, counts, tensors, inputs, pos, u);
      case TensorScalar(_, _, t, s) =>
        assert t in GetUses(k) && s in GetUses(k);
        FusedUsesOfPair(val, t, s, defs, counts, tensors, inputs, pos, u);
      case TensorFused(_, fused, _) =>
        AddInputsFrom(inputs, fused, u);
    }
  }

  lemma {:induction false} FusedUsesOfPair(val: Value, l: Value, r: Value, defs: DefMap, counts: map<Value, nat>,
      tensors: set<Value>, inputs: seq<Value>, pos: Value -> nat, u: Value)
    requires Ordered(defs, pos) && val in defs && TensorLike(defs[val]) && l in GetUses(defs[val])
      && r in GetUses(defs[val])
    requires !defs[val].TensorFused?
    requires var inputs1 := GetFusedExpr(l, defs, counts, tensors, inputs, pos).1;
      u in GetFusedExpr(r, defs, counts, tensors, inputs1, pos).1
    ensures u in inputs || exists w :: w in defs && TensorLike(defs[w]) && u in GetUses(defs[w])
    decreases pos(val) + 1, 0
  {
    var inputs1 := GetFusedExpr(l, defs, counts, tensors, inputs, pos).1;
    FusedExprUses(r, defs, counts, tensors, inputs1, pos, u);
    if u in inputs1 {
      FusedExprUses(l, defs, counts, tensors, inputs, pos, u);
    }
  }

  lemma {:induction false} AddInputsFrom(inputs: seq<Value>, vs: seq<Value>, u: Value)
    requires u in AddInputs(inputs, vs)
    ensures u in inputs || u in vs
    decreases |vs|
  {
    if vs != [] {
      AddInputsFrom(AddInput(inputs, vs[0]), vs[1..], u);
    }
  }

  lemma FuseInstUses(k: Kind, defs: DefMap, counts: map<Value, nat>, tensors: set<Value>, pos: Value -> nat, u: Value)
    requires Ordered(defs, pos) && u in GetUses(FuseInst(k, defs, counts, tensors, pos))
    ensures u in GetUses(k) || exists w :: w in defs && TensorLike(defs[w]) && u in GetUses(defs[w])
  {
    if FuseInst(k, defs, counts, tensors, pos) != k {
      var l, r := GetUses(k)[0], GetUses(k)[1];
      var inputs1 := GetFusedExpr(l, defs, counts, tensors, [], pos).1;
      FusedExprUses(r, defs, counts, tensors, inputs1, pos, u);
      if u in inputs1 {
        FusedExprUses(l, defs, counts, tensors, [], pos, u);
      }
    }
  }

  /** The map of definitions after i instructions is typed and settled. */
  lemma TypedStep(insts: seq<Kind>, i: nat, defs: DefMap, counts: map<Value, nat>, m: Machine, f: Kind)
    requires LocallyOrdered(insts) && i < |insts| && TypedKind(insts[i], m.tensors)
    requires DefsTyped(defs, m.tensors) && Settled(insts, i, defs) && Ordered(defs, Positions(insts))
    requires f == FuseInst(insts[i], defs, counts, m.tensors, Positions(insts)) && GetDef(f) == GetDef(insts[i])
    ensures var next := if GetDef(f).Some? then defs[GetDef(f).value := f] else defs;
      DefsTyped(next, m.tensors) && Settled(insts, i + 1, next)
  {
    hide FuseInst, Positions;
    var mem: Memory :| true;
    FuseInstIs(m, insts[i], defs, counts, Positions(insts), map[], mem);
    forall u, j | u in GetUses(f) && i + 1 <= j < |insts|
      ensures GetDef(insts[j]) != Some(u)
    {
      FuseInstUses(insts[i], defs, counts, m.tensors, Positions(insts), u);
    }
  }

  lemma {:induction false} UpToIsTyped(insts: seq<Kind>, i: nat, counts: map<Value, nat>, m: Machine)
    requires LocallyOrdered(insts) && i <= |insts| && forall k | k in insts :: TypedKind(k, m.tensors)
    ensures var defs := FusedUpTo(insts, i, counts, m.tensors).1;
      DefsTyped(defs, m.tensors) && Settled(insts, i, defs)
  {
    if i > 0 {
      hide LocallyOrdered, DefsTyped, Settled, TypedKind, FuseInst, DefsOk;
      var defs := FusedUpTo(insts, i - 1, counts, m.tensors).1;
      UpToIsTyped(insts, i - 1, counts, m);
      UpToStep(insts, i - 1, counts, m.tensors);
      TypedStep(insts, i - 1, defs, counts, m, FuseInst(insts[i - 1], defs, counts, m.tensors, Positions(insts)));
    }
  }

  lemma {:induction false} FusedAtIndex(insts: seq<Kind>, n: nat, i: nat, counts: map<Value, nat>, tensors: set<Value>)
    requires LocallyOrdered(insts) && i < n <= |insts|
    ensures FusedUpTo(insts, n, counts, tensors).0[i] == FusedUpTo(insts, i + 1, counts, tensors).0[i]
  {
    hide LocallyOrdered, DefsOk, FuseInst, FusedUpTo;
    if i + 1 < n {
      FusedAtIndex(insts, n - 1, i, counts, tensors);
      UpToStep(insts, n - 1, counts, tensors);
    }
  }

  /** One step of the fused block: the same state, and the definitions recorded so far still hold. */
  lemma StepIsFused(m: Machine, insts: seq<Kind>, counts: map<Value, nat>, i: nat, s: State)
    requires LocallyOrdered(insts) && i < |insts| && (forall k | k in insts :: TypedKind(k, m.tensors))
    requires DefsHold(m, FusedUpTo(insts, i, counts, m.tensors).1, s.env, s.mem)
    ensures var f := FusedUpTo(insts, i + 1, counts, m.tensors).0[i];
      && Perform(m, f, s) == Perform(m, insts[i], s) && Observed(f, s.env) == Observed(insts[i], s.env)
      && IsTerminator(f) == IsTerminator(insts[i]) && (IsTerminator(f) ==> f == insts[i])
    ensures var t := Perform(m, insts[i], s);
      !IsTerminator(insts[i]) ==> DefsHold(m, FusedUpTo(insts, i + 1, counts, m.tensors).1, t.env, t.mem)
  {
    hide FusedUpTo, FuseInst, DefsOk, DefsTyped, Positions, TypedKind;
    var defs := FusedUpTo(insts, i, counts, m.tensors).1;
    var k := insts[i];
    UpToIsTyped(insts, i, counts, m);
    UpToStep(insts, i, counts, m.tensors);
    var f := FuseInst(k, defs, counts, m.tensors, Positions(insts));
    FuseInstIs(m, k, defs, counts, Positions(insts), s.env, s.mem);
    if !IsTerminator(k) {
      RecordedStillHolds(m, insts, counts, i, s, defs, f);
    }
  }

  lemma FusedStillHolds(m: Machine, insts: seq<Kind>, counts: map<Value, nat>, i: nat, s: State, defs: DefMap, f: Kind,
      v: Value)
    requires LocallyOrdered(insts) && i < |insts| && TypedKind(insts[i], m.tensors) && !IsTerminator(insts[i])
    requires DefsTyped(defs, m.tensors) && Settled(insts, i, defs) && Ordered(defs, Positions(insts))
      && DefsOk(insts, i, defs)
    requires DefsHold(m, defs, s.env, s.mem)
    requires f == FuseInst(insts[i], defs, counts, m.tensors, Positions(insts)) && GetDef(f) == GetDef(insts[i])
    requires TensorLike(f) && TensorLike(insts[i]) && GetDef(f) == Some(v)
    ensures var t := Perform(m, insts[i], s); Get(t.env, v) == Compute(m, f, t.env, t.mem)
  {
    hide FuseInst, Positions, TypedKind, Compute;
    var k := insts[i];
    FuseInstIs(m, k, defs, counts, Positions(insts), s.env, s.mem);
    forall u | u in GetUses(f)
      ensures u != v
    {
      FuseInstUses(k, defs, counts, m.tensors, Positions(insts), u);
    }
    EquationMoves(m, f, s, Perform(m, k, s), v);
  }

  lemma KeptStillHolds(m: Machine, insts: seq<Kind>, i: nat, s: State, defs: DefMap, v: Value)
    requires LocallyOrdered(insts) && i < |insts| && !IsTerminator(insts[i]) && GetDef(insts[i]) != Some(v)
    requires Settled(insts, i, defs) && DefsOk(insts, i, defs) && DefsHold(m, defs, s.env, s.mem)
    requires v in defs && TensorLike(defs[v])
    ensures var t := Perform(m, insts[i], s); Get(t.env, v) == Compute(m, defs[v], t.env, t.mem)
  {
    hide Positions, Compute;
    var j :| 0 <= j < i && GetDef(insts[j]) == Some(v);
    EquationMoves(m, defs[v], s, Perform(m, insts[i], s), v);
  }

  lemma RecordedStillHolds(m: Machine, insts: seq<Kind>, counts: map<Value, nat>, i: nat, s: State, defs: DefMap,
      f: Kind)
    requires LocallyOrdered(insts) && i < |insts| && TypedKind(insts[i], m.tensors) && !IsTerminator(insts[i])
    requires DefsTyped(defs, m.tensors) && Settled(insts, i, defs) && Ordered(defs, Positions(insts))
      && DefsOk(insts, i, defs)
    requires DefsHold(m, defs, s.env, s.mem)
    requires f == FuseInst(insts[i], defs, counts, m.tensors, Positions(insts)) && GetDef(f) == GetDef(insts[i])
    requires TensorLike(f) ==> TensorLike(insts[i])
    ensures var next := if GetDef(f).Some? then defs[GetDef(f).value := f] else defs;
      var t := Perform(m, insts[i], s); DefsHold(m, next, t.env, t.mem)
  {
    hide FuseInst, Positions, TypedKind, Compute, Settled, DefsOk, Ordered, DefsTyped, LocallyOrdered, Perform;
    var k := insts[i];
    var t := Perform(m, k, s);
    var next := if GetDef(f).Some? then defs[GetDef(f).value := f] else defs;
    forall v | v in next && TensorLike(next[v])
      ensures Get(t.env, v) == Compute(m, next[v], t.env, t.mem)
    {
      if GetDef(f) == Some(v) {
        FusedStillHolds(m, insts, counts, i, s, defs, f, v);
      } else {
        KeptStillHolds(m, insts, i, s, defs, v);
      }
    }
  }

  lemma EquationMoves(m: Machine, k: Kind, s: State, t: State, v: Value)
    requires TensorLike(k) && AgreeOnUses(s.env, t.env, k) && Get(t.env, v) == Compute(m, k, s.env, s.mem)
    ensures Get(t.env, v) == Compute(m, k, t.env, t.mem)
  {
    ComputeAgrees(m, k, s.env, t.env, s.mem);
    ComputeIgnoresMemory(m, k, t.env, s.mem, t.mem);
  }

  lemma {:induction false} ExecIsFused(m: Machine, insts: seq<Kind>, counts: map<Value, nat>, i: nat, s: State)
    requires LocallyOrdered(insts) && i <= |insts| && (forall k | k in insts :: TypedKind(k, m.tensors))
    requires DefsHold(m, FusedUpTo(insts, i, counts, m.tensors).1, s.env, s.mem)
    ensures Exec(m, FusedUpTo(insts, |insts|, counts, m.tensors).0[i..], s) == Exec(m, insts[i..], s)
    decreases |insts| - i
  {
    hide FusedUpTo, LocallyOrdered, DefsHold, DefsOk, TypedKind, Perform;
    if i < |insts| {
      var fused := FusedUpTo(insts, |insts|, counts, m.tensors).0;
      FusedAtIndex(insts, |insts|, i, counts, m.tensors);
      StepIsFused(m, insts, counts, i, s);
      assert fused[i..][1..] == fused[i + 1..] && insts[i..][1..] == insts[i + 1..];
      if !IsTerminator(insts[i]) {
        ExecIsFused(m, insts, counts, i + 1, Perform(m, insts[i], s));
      }
    }
  }

  lemma {:induction false} BindPhisIsFused(insts: seq<Kind>, fused: seq<Kind>, from: Option<BlockId>, env: Store,
      bound: Store)
    requires |fused| == |insts|
    requires forall j | 0 <= j < |insts| :: fused[j] == insts[j] || (fused[j].TensorFused? && TensorLike(insts[j]))
    ensures BindPhis(fused, from, env, bound) == BindPhis(insts, from, env, bound)
  {
    if insts != [] {
      var next := if insts[0].Phi? then bound[insts[0].dest := Incoming(insts[0].mappings, from, env)] else bound;
      BindPhisIsFused(insts[1..], fused[1..], from, env, next);
    }
  }

  ghost predicate TypedBlocks(blocks: seq<Block>, tensors: set<Value>) {
    forall block, k | block in blocks && k in block.insts :: TypedKind(k, tensors)
  }

  lemma BlockIsFused(m: Machine, block: Block, counts: map<Value, nat>, from: Option<BlockId>, s: State)
    requires LocallyOrdered(block.insts) && forall k | k in block.insts :: TypedKind(k, m.tensors)
    ensures RunBlock(m, FuseBlock(block, counts, m.tensors), from, s) == RunBlock(m, block, from, s)
  {
    var insts := block.insts;
    var fused := FusedUpTo(insts, |insts|, counts, m.tensors).0;
    forall j | 0 <= j < |insts|
      ensures fused[j] == insts[j] || (fused[j].TensorFused? && TensorLike(insts[j]))
    {
      UpToKeepsOrFuses(insts, |insts|, counts, m.tensors, j);
    }
    BindPhisIsFused(insts, fused, from, s.env, s.env);
    ExecIsFused(m, insts, counts, 0, s.(env := BindPhis(insts, from, s.env, s.env)));
    assert fused[0..] == fused && insts[0..] == insts;
  }

  lemma {:induction false} FindFused(blocks: seq<Block>, counts: map<Value, nat>, tensors: set<Value>, b: BlockId)
    requires forall block | block in blocks :: LocallyOrdered(block.insts)
    ensures Find(FuseAll(blocks, counts, tensors), b) ==
      match Find(blocks, b) case None => None case Some(block) => Some(FuseBlock(block, counts, tensors))
  {
    if blocks != [] {
      assert FuseAll(blocks, counts, tensors)[1..] == FuseAll(blocks[1..], counts, tensors);
      FindFused(blocks[1..], counts, tensors, b);
    }
  }

  /** Fusion preserves meaning: from any state, for any number of steps, the fused function runs
      through exactly the same blocks, effects and results; no element arithmetic is assumed. */
  lemma {:induction false} RunsPreserved(m: Machine, blocks: seq<Block>, counts: map<Value, nat>, b: BlockId,
      from: Option<BlockId>, s: State, n: nat)
    requires (forall block | block in blocks :: LocallyOrdered(block.insts)) && TypedBlocks(blocks, m.tensors)
    ensures Run(m, FuseAll(blocks, counts, m.tensors), b, from, s, n) == Run(m, blocks, b, from, s, n)
    decreases n
  {
    hide LocallyOrdered, FuseAll, FuseBlock, RunBlock;
    if n > 0 {
      FindFused(blocks, counts, m.tensors, b);
      if Find(blocks, b).Some? {
        var block := Find(blocks, b).value;
        BlockIsFused(m, block, counts, from, s);
        var step := RunBlock(m, block, from, s);
        if step.exit.Goto? {
          RunsPreserved(m, blocks, counts, step.exit.target, Some(b), step.state, n - 1);
        }
      }
    }
  }

  /** Along any path every value of the fused function is the value it was before. */
  lemma {:induction false} ValuesPreserved(m: Machine, blocks: seq<Block>, counts: map<Value, nat>, p: seq<BlockId>,
      s0: State)
    requires (forall block | block in blocks :: LocallyOrdered(block.insts)) && TypedBlocks(blocks, m.tensors)
    ensures StepAt(m, FuseAll(blocks, counts, m.tensors), p, s0) == StepAt(m, blocks, p, s0)
    decreases |p|
  {
    if p != [] {
      FindFused(blocks, counts, m.tensors, p[|p| - 1]);
      ValuesPreserved(m, blocks, counts, p[..|p| - 1], s0);
      if StepAt(m, blocks, p, s0).Some? {
        var from := if |p| == 1 then None else Some(p[|p| - 2]);
        var s := if |p| == 1 then s0 else StepAt(m, blocks, p[..|p| - 1], s0).value.state;
        BlockIsFused(m, Find(blocks, p[|p| - 1]).value, counts, from, s);
      }
    }
  }

  /** Strict SSA functions meet the ordering the pass relies on. */
  lemma StrictIsOrdered(blocks: seq<Block>, entry: BlockId, block: Block)
    requires Strict(blocks, entry) && block in blocks
    ensures LocallyOrdered(block.insts)
  {
    var n :| 0 <= n < |blocks| && blocks[n] == block;
    FindAt(blocks, n);
    forall i, j, u | 0 <= i < |block.insts| && 0 <= j < |block.insts| && u in GetUses(block.insts[i])
      && GetDef(block.insts[j]) == Some(u)
      ensures j < i
    {
      assert AvailableAt(blocks, entry, block, i, u);
      assert DefinedIn(blocks, block.id, u);
    }
  }
}
