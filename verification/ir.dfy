/** The SSA intermediate representation every other module works on: values, block ids,
    instruction kinds with their definition / use / side-effect interface, and basic blocks. */
module IR {
  datatype Option<+T> = None | Some(value: T)

  type Value = nat
  type BlockId = nat

  /** The four element-wise operators of the tensor instructions. */
  datatype Op = Add | Sub | Mul | Div

  /** Comparisons: signed ones compare floats too, unsigned ones integers only. */
  datatype Cmp = Eq | Ne | SLt | SLe | SGt | SGe | ULt | ULe | UGt | UGe

  datatype FusedExpr =
    | Input(value: Value)
    | Scalar(value: Value)
    | Node(op: Op, left: FusedExpr, right: FusedExpr)

  /** Instruction kinds. The kinds no pass looks into are grouped: `Pure` for those without
      side effects (loads included) and `Effect` for those with; `uses` is their operand list. */
  datatype Kind =
    | Phi(dest: Value, mappings: map<BlockId, Value>)
    | ConstInt(dest: Value, int64: int)
    | ConstFloat(dest: Value, float64: real)
    | IntAdd(dest: Value, lhs: Value, rhs: Value)
    | IntSub(dest: Value, lhs: Value, rhs: Value)
    | IntMul(dest: Value, lhs: Value, rhs: Value)
    | FloatAdd(dest: Value, lhs: Value, rhs: Value)
    | Neg(dest: Value, src: Value)
    | Compare(dest: Value, cmp: Cmp, lhs: Value, rhs: Value)
    | Tensor(dest: Value, op: Op, lhs: Value, rhs: Value)
    | TensorScalar(dest: Value, op: Op, tensor: Value, scalar: Value)
    | TensorFused(dest: Value, inputs: seq<Value>, expr: FusedExpr)
    | Pure(dest: Value, name: string, uses: seq<Value>)
    | Effect(result: Option<Value>, name: string, uses: seq<Value>)
    | Nop
    | Jump(target: BlockId)
    | Branch(cond: Value, ifTrue: BlockId, ifFalse: BlockId)
    | Match(selector: Value, cases: map<nat, BlockId>, default: BlockId, strict: bool)
    | Return(result: Option<Value>)

  datatype Block = Block(id: BlockId, insts: seq<Kind>, preds: seq<BlockId>, succs: seq<BlockId>)

  predicate IsTerminator(k: Kind) {
    k.Jump? || k.Branch? || k.Match? || k.Return?
  }

  function GetDef(k: Kind): Option<Value> {
    match k
    case Effect(result, _, _) => result
    case Nop | Jump(_) | Branch(_, _, _) | Match(_, _, _, _) | Return(_) => None
    case _ => Some(k.dest)
  }

  /** The operands of an instruction; a phi reports none, its operands belong to its edges. */
  function GetUses(k: Kind): seq<Value> {
    match k
    case IntAdd(_, l, r) => [l, r]
    case IntSub(_, l, r) => [l, r]
    case IntMul(_, l, r) => [l, r]
    case FloatAdd(_, l, r) => [l, r]
    case Neg(_, s) => [s]
    case Compare(_, _, l, r) => [l, r]
    case Tensor(_, _, l, r) => [l, r]
    case TensorScalar(_, _, t, s) => [t, s]
    case TensorFused(_, inputs, _) => inputs
    case Pure(_, _, uses) => uses
    case Effect(_, _, uses) => uses
    case Branch(cond, _, _) => [cond]
    case Match(selector, _, _, _) => [selector]
    case Return(Some(v)) => [v]
    case _ => []
  }

  predicate HasSideEffects(k: Kind) {
    k.Effect? || IsTerminator(k)
  }

  /** The blocks a terminator can pass control to. */
  function Targets(k: Kind): set<BlockId> {
    match k
    case Jump(t) => {t}
    case Branch(_, t, f) => {t, f}
    case Match(_, cases, default, _) => cases.Values + {default}
    case _ => {}
  }

  /** `blocks.iter().find(|b| b.id == id)`: the first block carrying the id. */
  function Find(blocks: seq<Block>, id: BlockId): (r: Option<Block>)
    ensures r.Some? ==> r.value in blocks && r.value.id == id
    ensures r.None? ==> forall b | b in blocks :: b.id != id
  {
    if blocks == [] then None
    else if blocks[0].id == id then Some(blocks[0])
    else Find(blocks[1..], id)
  }

  ghost predicate UniqueIds(blocks: seq<Block>) {
    forall i, j | 0 <= i < j < |blocks| :: blocks[i].id != blocks[j].id
  }

  lemma FindAt(blocks: seq<Block>, i: nat)
    requires UniqueIds(blocks) && i < |blocks|
    ensures Find(blocks, blocks[i].id) == Some(blocks[i])
  {
  }

  /** Whether an instruction list defines a value. */
  ghost predicate Defines(insts: seq<Kind>, v: Value) {
    exists i | 0 <= i < |insts| :: GetDef(insts[i]) == Some(v)
  }

  /** A terminator closes its block and every block it names is a recorded successor. */
  ghost predicate WellTerminated(block: Block) {
    && (forall i | 0 <= i < |block.insts| - 1 :: !IsTerminator(block.insts[i]))
    && (forall k | k in block.insts && IsTerminator(k) :: forall t | t in Targets(k) :: t in block.succs)
  }

  ghost predicate WellFormed(blocks: seq<Block>) {
    UniqueIds(blocks) && forall block | block in blocks :: WellTerminated(block)
  }

  function PhiDefs(insts: seq<Kind>): set<Value> {
    set k | k in insts && k.Phi? :: k.dest
  }

  /** The phi operands that belong to the edge from block p. */
  function PhiUses(insts: seq<Kind>, p: BlockId): set<Value> {
    set k | k in insts && k.Phi? && p in k.mappings :: k.mappings[p]
  }

  /** All values an instruction depends on, a phi's operands from every edge included. */
  function Operands(k: Kind): set<Value> {
    if k.Phi? then k.mappings.Values else set v | v in GetUses(k)
  }

  /** Every value some instruction has as an operand. */
  function Mentioned(blocks: seq<Block>): set<Value> {
    set block, k, v | block in blocks && k in block.insts && v in Operands(k) :: v
  }

  /** The first instruction, in block order, that defines v. */
  function FindIn(insts: seq<Kind>, v: Value): (r: Option<Kind>)
    ensures r.Some? ==> r.value in insts && GetDef(r.value) == Some(v)
    ensures r.None? ==> forall k | k in insts :: GetDef(k) != Some(v)
  {
    if insts == [] then None
    else if GetDef(insts[0]) == Some(v) then Some(insts[0])
    else FindIn(insts[1..], v)
  }

  function FindDef(blocks: seq<Block>, v: Value): (r: Option<Kind>)
    ensures r.Some? ==> GetDef(r.value) == Some(v) && exists block | block in blocks :: r.value in block.insts
    ensures r.None? ==> forall block, k | block in blocks && k in block.insts :: GetDef(k) != Some(v)
  {
    if blocks == [] then None
    else
      var here := FindIn(blocks[0].insts, v);
      if here.Some? then
        assert blocks[0] in blocks;
        here
      else FindDef(blocks[1..], v)
  }

  /** Static single assignment: one defining instruction for each value. */
  ghost predicate SingleAssignment(blocks: seq<Block>) {
    forall b1, b2, k1, k2 | b1 in blocks && b2 in blocks && k1 in b1.insts && k2 in b2.insts
      && GetDef(k1).Some? && GetDef(k1) == GetDef(k2) :: k1 == k2
  }

  /** A function under compilation; the passes rewrite its blocks in place. */
  class Function {
    const entry: BlockId
    var blocks: seq<Block>

    constructor (entry: BlockId, blocks: seq<Block>)
      ensures this.entry == entry && this.blocks == blocks
    {
      this.entry, this.blocks := entry, blocks;
    }
  }
}
