/** What a function does when it runs. Operations no pass interprets are left arbitrary; integers
    wrap at the width of the value they define, and the phis of a block are read at once. */
module Semantics {
  import opened Arithmetic
  import opened IR

  /** The memory that loads read and side effects update. */
  type Memory(!new, ==, 0)

  datatype Val = Undef | Word(bits: nat) | Float(num: real) | Cells(cells: seq<real>)

  /** The meaning of everything a function's text leaves open: bit widths and tensor types of its
      values, element arithmetic, and what the grouped instructions compute and change. */
  datatype Machine = Machine(
    width: Value -> nat,
    tensors: set<Value>,
    element: (Op, real, real) -> real,
    compute: (string, seq<Val>, Memory) -> Val,
    answer: (string, seq<Val>, Memory) -> Val,
    update: (string, seq<Val>, Memory) -> Memory)

  type Store = map<Value, Val>

  datatype State = State(env: Store, mem: Memory)

  /** A side effect as the outside sees it: what ran, on which operand values. */
  datatype Event = Event(name: string, args: seq<Val>)

  datatype Exit = FallsOff | Trap | Goto(target: BlockId) | Returned(result: Option<Val>)

  function Get(env: Store, v: Value): Val {
    if v in env then env[v] else Undef
  }

  function GetAll(env: Store, vs: seq<Value>): seq<Val> {
    seq(|vs|, i requires 0 <= i < |vs| => Get(env, vs[i]))
  }

  function Wrap(w: nat, n: int): nat {
    n % Pow2(w)
  }

  // ----- comparisons -----

  /** The word n of width w read in two's complement. */
  function Signed(w: nat, n: nat): int {
    if 2 * n < Pow2(w) then n else n - Pow2(w)
  }

  predicate Compares(cmp: Cmp, w: nat, a: nat, b: nat) {
    match cmp
    case Eq => a == b
    case Ne => a != b
    case SLt => Signed(w, a) < Signed(w, b)
    case SLe => Signed(w, a) <= Signed(w, b)
    case SGt => Signed(w, a) > Signed(w, b)
    case SGe => Signed(w, a) >= Signed(w, b)
    case ULt => a < b
    case ULe => a <= b
    case UGt => a > b
    case UGe => a >= b
  }

  predicate FloatCompares(cmp: Cmp, x: real, y: real) {
    match cmp
    case Ne => x != y
    case SLt => x < y
    case SLe => x <= y
    case SGt => x > y
    case SGe => x >= y
    case _ => x == y
  }

  /** Compiled code turns the outcome into a mask: all bits set when it holds. */
  function Mask(w: nat, holds: bool): Val {
    Word(if holds then Wrap(w, -1) else 0)
  }

  /** Operands of different kinds have no meaning. */
  function CompareOp(width: nat, cmp: Cmp, w: nat, a: Val, b: Val): Val {
    if a.Word? && b.Word? then Mask(width, Compares(cmp, w, a.bits, b.bits))
    else if a.Float? && b.Float? then Mask(width, FloatCompares(cmp, a.num, b.num))
    else Undef
  }

  // ----- tensors -----

  function Elementwise(m: Machine, op: Op, a: seq<real>, b: seq<real>): seq<real>
    requires |a| == |b|
  {
    seq(|a|, i requires 0 <= i < |a| => m.element(op, a[i], b[i]))
  }

  function WithScalar(m: Machine, op: Op, a: seq<real>, x: real): seq<real> {
    seq(|a|, i requires 0 <= i < |a| => m.element(op, a[i], x))
  }

  /** Element-wise application; operands of the wrong kind or of different sizes have no meaning. */
  function TensorOp(m: Machine, op: Op, a: Val, b: Val): Val {
    if a.Cells? && b.Cells? && |a.cells| == |b.cells| then Cells(Elementwise(m, op, a.cells, b.cells))
    else Undef
  }

  function TensorScalarOp(m: Machine, op: Op, a: Val, b: Val): Val {
    if a.Cells? && b.Float? then Cells(WithScalar(m, op, a.cells, b.num)) else Undef
  }

  /** The operands of a fused kernel fit a loop over n cells. */
  predicate Fits(m: Machine, inputs: seq<Value>, env: Store, n: nat) {
    forall v | v in inputs ::
      if v in m.tensors then Get(env, v).Cells? && |Get(env, v).cells| == n else Get(env, v).Float?
  }

  /** The size of a fused kernel's loop: that of its first tensor input. */
  function LoopSize(m: Machine, inputs: seq<Value>, env: Store): Option<nat> {
    if inputs == [] then None
    else if inputs[0] in m.tensors then
      (if Get(env, inputs[0]).Cells? then Some(|Get(env, inputs[0]).cells|) else None)
    else LoopSize(m, inputs[1..], env)
  }

  function LeafAt(inputs: seq<Value>, env: Store, v: Value, i: nat, tensor: bool): real {
    var x := if v in inputs then Get(env, v) else Undef;
    if tensor then (if x.Cells? && i < |x.cells| then x.cells[i] else 0.0)
    else if x.Float? then x.num else 0.0
  }

  /** One iteration of the fused loop: the expression evaluated on the cells at index i. */
  function FusedAt(m: Machine, inputs: seq<Value>, env: Store, e: FusedExpr, i: nat): real {
    match e
    case Input(v) => LeafAt(inputs, env, v, i, true)
    case Scalar(v) => LeafAt(inputs, env, v, i, false)
    case Node(op, l, r) => m.element(op, FusedAt(m, inputs, env, l, i), FusedAt(m, inputs, env, r, i))
  }

  function FusedKernel(m: Machine, inputs: seq<Value>, e: FusedExpr, env: Store): Val {
    match LoopSize(m, inputs, env)
    case None => Undef
    case Some(n) =>
      if Fits(m, inputs, env, n) then Cells(seq(n, i requires 0 <= i < n => FusedAt(m, inputs, env, e, i)))
      else Undef
  }

  // ----- instructions -----

  /** The value a side-effect free instruction other than a phi defines. */
  function Compute(m: Machine, k: Kind, env: Store, mem: Memory): Val {
    match k
    case ConstInt(d, c) => Word(Wrap(m.width(d), c))
    case ConstFloat(_, c) => Float(c)
    case IntAdd(d, l, r) =>
      var a, b := Get(env, l), Get(env, r);
      if a.Word? && b.Word? then Word(Wrap(m.width(d), a.bits + b.bits)) else Undef
    case IntSub(d, l, r) =>
      var a, b := Get(env, l), Get(env, r);
      if a.Word? && b.Word? then Word(Wrap(m.width(d), a.bits - b.bits)) else Undef
    case IntMul(d, l, r) =>
      var a, b := Get(env, l), Get(env, r);
      if a.Word? && b.Word? then Word(Wrap(m.width(d), a.bits * b.bits)) else Undef
    case FloatAdd(_, l, r) =>
      var a, b := Get(env, l), Get(env, r);
      if a.Float? && b.Float? then Float(a.num + b.num) else Undef
    case Neg(d, s) =>
      var a := Get(env, s);
      if a.Word? then Word(Wrap(m.width(d), 0 - a.bits)) else if a.Float? then Float(-a.num) else Undef
    case Compare(d, cmp, l, r) => CompareOp(m.width(d), cmp, m.width(l), Get(env, l), Get(env, r))
    case Tensor(_, op, l, r) => TensorOp(m, op, Get(env, l), Get(env, r))
    case TensorScalar(_, op, t, s) => TensorScalarOp(m, op, Get(env, t), Get(env, s))
    case TensorFused(_, inputs, e) => FusedKernel(m, inputs, e, env)
    case Pure(_, name, uses) => m.compute(name, GetAll(env, uses), mem)
    case _ => Undef
  }

  /** Runs one instruction that does not end its block; phis have already been read. */
  function Perform(m: Machine, k: Kind, s: State): State {
    match k
    case Phi(_, _) => s
    case Effect(result, name, uses) =>
      var args := GetAll(s.env, uses);
      State(if result.Some? then s.env[result.value := m.answer(name, args, s.mem)] else s.env,
            m.update(name, args, s.mem))
    case _ =>
      if GetDef(k).Some? then s.(env := s.env[GetDef(k).value := Compute(m, k, s.env, s.mem)]) else s
  }

  function Observed(k: Kind, env: Store): seq<Event> {
    if k.Effect? then [Event(k.name, GetAll(env, k.uses))] else []
  }

  /** Side effects are what a run cannot do without: where control goes, and what the outside observes;
      nothing else touches the memory. */
  lemma SideEffectsExactly(k: Kind, m: Machine, s: State)
    ensures HasSideEffects(k) <==> IsTerminator(k) || exists env :: Observed(k, env) != []
    ensures HasSideEffects(k) || Perform(m, k, s).mem == s.mem
  {
    if k.Effect? {
      assert Observed(k, s.env) != [];
    }
  }

  /** Where a terminator sends control: a branch tests for non-zero, a match compares tags. */
  function Leave(k: Kind, env: Store): Exit {
    match k
    case Jump(t) => Goto(t)
    case Branch(cond, t, f) =>
      var c := Get(env, cond);
      if c.Word? then Goto(if c.bits != 0 then t else f) else Trap
    case Match(selector, cases, default, _) =>
      var c := Get(env, selector);
      if c.Word? then Goto(if c.bits in cases then cases[c.bits] else default) else Trap
    case Return(None) => Returned(None)
    case Return(Some(v)) => Returned(Some(Get(env, v)))
    case _ => Trap
  }

  datatype Step = Step(state: State, trace: seq<Event>, exit: Exit)

  function Exec(m: Machine, insts: seq<Kind>, s: State): Step {
    if insts == [] then Step(s, [], FallsOff)
    else if IsTerminator(insts[0]) then Step(s, [], Leave(insts[0], s.env))
    else
      var rest := Exec(m, insts[1..], Perform(m, insts[0], s));
      Step(rest.state, Observed(insts[0], s.env) + rest.trace, rest.exit)
  }

  function Incoming(mappings: map<BlockId, Value>, from: Option<BlockId>, env: Store): Val {
    if from.Some? && from.value in mappings then Get(env, mappings[from.value]) else Undef
  }

  /** All phis of a block read their operands from the store the predecessor left. */
  function BindPhis(insts: seq<Kind>, from: Option<BlockId>, env: Store, bound: Store): Store {
    if insts == [] then bound
    else if insts[0].Phi? then
      BindPhis(insts[1..], from, env, bound[insts[0].dest := Incoming(insts[0].mappings, from, env)])
    else BindPhis(insts[1..], from, env, bound)
  }

  function RunBlock(m: Machine, block: Block, from: Option<BlockId>, s: State): Step {
    Exec(m, block.insts, s.(env := BindPhis(block.insts, from, s.env, s.env)))
  }

  /** The visible part of a run: blocks visited, side effects, how it ended, memory left. */
  datatype Outcome = Outcome(path: seq<BlockId>, trace: seq<Event>, exit: Exit, mem: Memory)

  /** The first n blocks of the run that enters b coming from `from`. */
  function Run(m: Machine, blocks: seq<Block>, b: BlockId, from: Option<BlockId>, s: State, n: nat): Outcome
    decreases n
  {
    if n == 0 then Outcome([], [], Goto(b), s.mem)
    else
      match Find(blocks, b)
      case None => Outcome([b], [], Trap, s.mem)
      case Some(block) =>
        var step := RunBlock(m, block, from, s);
        if step.exit.Goto? then
          var rest := Run(m, blocks, step.exit.target, Some(b), step.state, n - 1);
          Outcome([b] + rest.path, step.trace + rest.trace, rest.exit, rest.mem)
        else Outcome([b], step.trace, step.exit, step.state.mem)
  }

  lemma RunNone(m: Machine, blocks: seq<Block>, b: BlockId, from: Option<BlockId>, s: State)
    ensures Run(m, blocks, b, from, s, 0) == Outcome([], [], Goto(b), s.mem)
  {
  }

  /** Two functions run alike if the blocks entered do and the runs after them do. */
  lemma RunNext(m: Machine, blocks: seq<Block>, next: seq<Block>, b: BlockId, from: Option<BlockId>, s: State, t: State,
      n: nat)
    requires n > 0 && s.mem == t.mem && (Find(blocks, b).Some? <==> Find(next, b).Some?)
    requires Find(blocks, b).Some? ==>
      var x, y := RunBlock(m, Find(blocks, b).value, from, s), RunBlock(m, Find(next, b).value, from, t);
      && x.trace == y.trace && x.exit == y.exit && x.state.mem == y.state.mem
      && (x.exit.Goto? ==>
        Run(m, blocks, x.exit.target, Some(b), x.state, n - 1) == Run(m, next, x.exit.target, Some(b), y.state, n - 1))
    ensures Run(m, blocks, b, from, s, n) == Run(m, next, b, from, t, n)
  {
    hide RunBlock, Find;
  }

  /** A block of one ordinary instruction and a terminator. */
  lemma RunTwo(m: Machine, block: Block, k: Kind, last: Kind, from: Option<BlockId>, s: State)
    requires block.insts == [k, last] && !IsTerminator(k) && IsTerminator(last) && !k.Phi?
    ensures var t := Perform(m, k, s); RunBlock(m, block, from, s) == Step(t, Observed(k, s.env), Leave(last, t.env))
  {
    var t := Perform(m, k, s);
    assert block.insts[1..] == [last] && [last][1..] == [];
    assert BindPhis([last], from, s.env, s.env) == s.env;
    assert BindPhis(block.insts, from, s.env, s.env) == s.env && s.(env := s.env) == s;
    assert Exec(m, [last], t) == Step(t, [], Leave(last, t.env));
    assert Observed(k, s.env) + [] == Observed(k, s.env);
  }

  /** A block passes control only to targets of a terminator it contains. */
  lemma {:induction false} ExecTarget(m: Machine, insts: seq<Kind>, s: State)
    ensures var x := Exec(m, insts, s);
      x.exit.Goto? ==> exists k :: k in insts && IsTerminator(k) && x.exit.target in Targets(k)
  {
    if insts != [] {
      if IsTerminator(insts[0]) {
        assert insts[0] in insts;
        assert Leave(insts[0], s.env).Goto? ==> Leave(insts[0], s.env).target in Targets(insts[0]);
      } else {
        ExecTarget(m, insts[1..], Perform(m, insts[0], s));
        assert forall k | k in insts[1..] :: k in insts;
      }
    }
  }

  // ----- stores that agree -----

  ghost predicate AgreeOnUses(e: Store, f: Store, k: Kind) {
    forall v | v in GetUses(k) :: Get(e, v) == Get(f, v)
  }

  lemma GetAllAgrees(e: Store, f: Store, vs: seq<Value>)
    requires forall v | v in vs :: Get(e, v) == Get(f, v)
    ensures GetAll(e, vs) == GetAll(f, vs)
  {
  }

  lemma FusedAgrees(m: Machine, inputs: seq<Value>, e: Store, f: Store, x: FusedExpr, i: nat)
    requires forall v | v in inputs :: Get(e, v) == Get(f, v)
    ensures FusedAt(m, inputs, e, x, i) == FusedAt(m, inputs, f, x, i)
  {
  }

  lemma LoopSizeAgrees(m: Machine, inputs: seq<Value>, e: Store, f: Store)
    requires forall v | v in inputs :: Get(e, v) == Get(f, v)
    ensures LoopSize(m, inputs, e) == LoopSize(m, inputs, f)
  {
  }

  lemma KernelAgrees(m: Machine, inputs: seq<Value>, x: FusedExpr, e: Store, f: Store)
    requires forall v | v in inputs :: Get(e, v) == Get(f, v)
    ensures FusedKernel(m, inputs, x, e) == FusedKernel(m, inputs, x, f)
  {
    LoopSizeAgrees(m, inputs, e, f);
    var size := LoopSize(m, inputs, e);
    if size.Some? {
      assert Fits(m, inputs, e, size.value) <==> Fits(m, inputs, f, size.value);
      forall i: nat | i < size.value {
        FusedAgrees(m, inputs, e, f, x, i);
      }
      hide FusedAt, LoopSize, Fits;
      if Fits(m, inputs, e, size.value) {
        assert FusedKernel(m, inputs, x, e).cells == FusedKernel(m, inputs, x, f).cells;
      }
    }
  }

  lemma BinaryOperands(k: Kind, e: Store, f: Store, l: Value, r: Value)
    requires AgreeOnUses(e, f, k) && GetUses(k) == [l, r]
    ensures Get(e, l) == Get(f, l) && Get(e, r) == Get(f, r)
  {
  }

  /** An instruction depends on the store only through its operands. */
  lemma ComputeAgrees(m: Machine, k: Kind, e: Store, f: Store, mem: Memory)
    requires AgreeOnUses(e, f, k)
    ensures Compute(m, k, e, mem) == Compute(m, k, f, mem)
  {
    hide Get, Wrap, AgreeOnUses, GetAll, FusedKernel, TensorOp, TensorScalarOp, CompareOp;
    match k
    case TensorFused(_, inputs, x) =>
      UsesAgree(k, e, f);
      KernelAgrees(m, inputs, x, e, f);
    case Pure(_, _, uses) =>
      UsesAgree(k, e, f);
      GetAllAgrees(e, f, uses);
    case IntAdd(_, l, r) => BinaryOperands(k, e, f, l, r);
    case IntSub(_, l, r) => BinaryOperands(k, e, f, l, r);
    case IntMul(_, l, r) => BinaryOperands(k, e, f, l, r);
    case FloatAdd(_, l, r) => BinaryOperands(k, e, f, l, r);
    case Compare(_, _, l, r) => BinaryOperands(k, e, f, l, r);
    case Tensor(_, _, l, r) => BinaryOperands(k, e, f, l, r);
    case TensorScalar(_, _, l, r) => BinaryOperands(k, e, f, l, r);
    case Neg(_, s) =>
      UsesAgree(k, e, f);
      assert s in GetUses(k);
    case _ =>
  }

  lemma UsesAgree(k: Kind, e: Store, f: Store)
    requires AgreeOnUses(e, f, k)
    ensures forall v | v in GetUses(k) :: Get(e, v) == Get(f, v)
  {
  }

  lemma LeaveAgrees(k: Kind, e: Store, f: Store)
    requires AgreeOnUses(e, f, k)
    ensures Leave(k, e) == Leave(k, f)
  {
  }

  /** Performing an instruction on stores that agree on its operands has the same visible effect
      and leaves the stores equal on what it defines. */
  lemma PerformAgrees(m: Machine, k: Kind, s: State, t: State)
    requires AgreeOnUses(s.env, t.env, k) && s.mem == t.mem
    ensures Observed(k, s.env) == Observed(k, t.env)
    ensures Perform(m, k, s).mem == Perform(m, k, t).mem
    ensures forall v | GetDef(k) == Some(v) && !k.Phi? :: Get(Perform(m, k, s).env, v) == Get(Perform(m, k, t).env, v)
    ensures forall v: Value | GetDef(k) != Some(v) ::
      Get(Perform(m, k, s).env, v) == Get(s.env, v) && Get(Perform(m, k, t).env, v) == Get(t.env, v)
  {
    if k.Effect? {
      GetAllAgrees(s.env, t.env, k.uses);
    } else {
      ComputeAgrees(m, k, s.env, t.env, s.mem);
    }
  }

  /** A value no instruction of the list defines by a phi keeps its value when the phis are read. */
  lemma BindPhisFrame(insts: seq<Kind>, from: Option<BlockId>, env: Store, bound: Store, v: Value)
    requires forall k | k in insts && k.Phi? :: k.dest != v
    ensures Get(BindPhis(insts, from, env, bound), v) == Get(bound, v)
  {
  }
}
