/** How the verifier turns a function into solver assertions: a boolean for every block and edge, an
    equation for every interpreted instruction, guarded by the block it belongs to. */
module Conditions {
  import opened Arithmetic
  import opened IR
  import opened Reachability
  import opened Semantics
  import L = LoopEquality

  // ----- formulas -----

  datatype Term =
    | Sym(v: Value)
    | Bits(width: nat, n: int)
    | Num(x: real)
    | BvAdd(l: Term, r: Term)
    | BvSub(l: Term, r: Term)
    | BvMul(l: Term, r: Term)
    | FpAdd(l: Term, r: Term)
    | FpSub(l: Term, r: Term)

  datatype Formula =
    | Truth(b: bool)
    | OnBlock(block: BlockId)
    | OnEdge(from: BlockId, to: BlockId)
    | Equal(s: Term, t: Term)
    | Less(signed: bool, strict: bool, s: Term, t: Term)
    | Not(f: Formula)
    | And(f: Formula, g: Formula)
    | Or(fs: set<Formula>)
    | Implies(f: Formula, g: Formula)
    | Iff(f: Formula, g: Formula)

  /** The solver sort of each value: bit-vectors with their width, floats, and arrays for the rest. */
  datatype Sorts = Sorts(words: set<Value>, floats: set<Value>, arrays: set<Value>, width: Value -> nat)

  /** Values for the solver's constants: which blocks and edges are on, what every value is. */
  datatype Assignment = Assignment(blocks: set<BlockId>, edges: set<(BlockId, BlockId)>, env: Store)

  function WidthOf(sorts: Sorts, t: Term): nat {
    match t
    case Sym(v) => sorts.width(v)
    case Bits(w, _) => w
    case BvAdd(l, _) => WidthOf(sorts, l)
    case BvSub(l, _) => WidthOf(sorts, l)
    case BvMul(l, _) => WidthOf(sorts, l)
    case _ => 0
  }

  function BitsOf(w: nat, a: Val, b: Val, f: (int, int) -> int): Val {
    if a.Word? && b.Word? then Word(Wrap(w, f(a.bits, b.bits))) else Undef
  }

  function EvalTerm(sorts: Sorts, env: Store, t: Term): Val {
    match t
    case Sym(v) => Get(env, v)
    case Bits(w, n) => Word(Wrap(w, n))
    case Num(x) => Float(x)
    case BvAdd(l, r) => BitsOf(WidthOf(sorts, l), EvalTerm(sorts, env, l), EvalTerm(sorts, env, r), (a, b) => a + b)
    case BvSub(l, r) => BitsOf(WidthOf(sorts, l), EvalTerm(sorts, env, l), EvalTerm(sorts, env, r), (a, b) => a - b)
    case BvMul(l, r) => BitsOf(WidthOf(sorts, l), EvalTerm(sorts, env, l), EvalTerm(sorts, env, r), (a, b) => a * b)
    case FpAdd(l, r) =>
      var a, b := EvalTerm(sorts, env, l), EvalTerm(sorts, env, r);
      if a.Float? && b.Float? then Float(a.num + b.num) else Undef
    case FpSub(l, r) =>
      var a, b := EvalTerm(sorts, env, l), EvalTerm(sorts, env, r);
      if a.Float? && b.Float? then Float(a.num - b.num) else Undef
  }

  /** Bit-vectors compare as words or in two's complement, floats as numbers. */
  predicate IsLess(w: nat, signed: bool, strict: bool, x: Val, y: Val) {
    if x.Word? && y.Word? then
      var a, b := if signed then Signed(w, x.bits) else x.bits, if signed then Signed(w, y.bits) else y.bits;
      if strict then a < b else a <= b
    else x.Float? && y.Float? && if strict then x.num < y.num else x.num <= y.num
  }

  predicate Eval(sorts: Sorts, a: Assignment, f: Formula) {
    match f
    case Truth(b) => b
    case OnBlock(b) => b in a.blocks
    case OnEdge(x, y) => (x, y) in a.edges
    case Equal(s, t) => EvalTerm(sorts, a.env, s) == EvalTerm(sorts, a.env, t)
    case Less(signed, strict, s, t) =>
      IsLess(WidthOf(sorts, s), signed, strict, EvalTerm(sorts, a.env, s), EvalTerm(sorts, a.env, t))
    case Not(g) => !Eval(sorts, a, g)
    case And(g, h) => Eval(sorts, a, g) && Eval(sorts, a, h)
    case Or(fs) => exists g | g in fs :: Eval(sorts, a, g)
    case Implies(g, h) => Eval(sorts, a, g) ==> Eval(sorts, a, h)
    case Iff(g, h) => Eval(sorts, a, g) <==> Eval(sorts, a, h)
  }

  /** Every constant has a value of its sort. */
  ghost predicate WellSorted(sorts: Sorts, env: Store) {
    && (forall v | v in sorts.words :: v in env && env[v].Word? && env[v].bits < Pow2(sorts.width(v)))
    && (forall v | v in sorts.floats :: v in env && env[v].Float?)
  }

  ghost predicate Satisfies(sorts: Sorts, a: Assignment, fs: set<Formula>) {
    WellSorted(sorts, a.env) && forall f | f in fs :: Eval(sorts, a, f)
  }

  ghost predicate Satisfiable(sorts: Sorts, fs: set<Formula>) {
    exists a :: Satisfies(sorts, a, fs)
  }

  // ----- what is asserted -----

  function EdgeTargets(block: Block): set<BlockId> {
    if block.insts == [] then {} else Targets(block.insts[|block.insts| - 1])
  }

  function EdgesFrom(block: Block): set<(BlockId, BlockId)> {
    set t | t in EdgeTargets(block) :: (block.id, t)
  }

  /** The edges given a boolean: those of the last instruction of each block. */
  function KnownEdges(blocks: seq<Block>): set<(BlockId, BlockId)> {
    set block, e | block in blocks && e in EdgesFrom(block) :: e
  }

  function EdgeVars(edges: set<(BlockId, BlockId)>): set<Formula> {
    set e | e in edges :: OnEdge(e.0, e.1)
  }

  function EdgesInto(edges: set<(BlockId, BlockId)>, b: BlockId): set<(BlockId, BlockId)> {
    set e | e in edges && e.1 == b
  }

  /** The entry is on; any other block is on exactly when an edge into it is. */
  function BlockAssertion(edges: set<(BlockId, BlockId)>, entry: BlockId, b: BlockId): Formula {
    if b == entry then Iff(OnBlock(b), Truth(true))
    else if EdgesInto(edges, b) == {} then Iff(OnBlock(b), Truth(false))
    else Iff(OnBlock(b), Or(EdgeVars(EdgesInto(edges, b))))
  }

  function CfgAssertionsOf(blocks: seq<Block>, entry: BlockId, some: seq<Block>): set<Formula> {
    set block | block in some :: BlockAssertion(KnownEdges(blocks), entry, block.id)
  }

  function CfgAssertions(blocks: seq<Block>, entry: BlockId): set<Formula> {
    CfgAssertionsOf(blocks, entry, blocks)
  }

  /** The term an interpreted instruction defines its result by; other instructions leave it open. */
  function Meaning(sorts: Sorts, k: Kind): Option<Term> {
    match k
    case ConstInt(d, n) => if d in sorts.words then Some(Bits(sorts.width(d), n)) else None
    case ConstFloat(d, x) => if d in sorts.floats then Some(Num(x)) else None
    case IntAdd(d, l, r) => if {d, l, r} <= sorts.words then Some(BvAdd(Sym(l), Sym(r))) else None
    case IntSub(d, l, r) => if {d, l, r} <= sorts.words then Some(BvSub(Sym(l), Sym(r))) else None
    case IntMul(d, l, r) => if {d, l, r} <= sorts.words then Some(BvMul(Sym(l), Sym(r))) else None
    case FloatAdd(d, l, r) => if {d, l, r} <= sorts.floats then Some(FpAdd(Sym(l), Sym(r))) else None
    case Neg(d, s) =>
      if {d, s} <= sorts.words then Some(BvSub(Bits(sorts.width(s), 0), Sym(s)))
      else if {d, s} <= sorts.floats then Some(FpSub(Num(0.0), Sym(s)))
      else None
    case _ => None
  }

  predicate Unsigned(cmp: Cmp) {
    cmp.ULt? || cmp.ULe? || cmp.UGt? || cmp.UGe?
  }

  function CompareTest(cmp: Cmp, l: Value, r: Value): Formula {
    match cmp
    case Eq => Equal(Sym(l), Sym(r))
    case Ne => Not(Equal(Sym(l), Sym(r)))
    case SLt => Less(true, true, Sym(l), Sym(r))
    case SLe => Less(true, false, Sym(l), Sym(r))
    case SGt => Less(true, true, Sym(r), Sym(l))
    case SGe => Less(true, false, Sym(r), Sym(l))
    case ULt => Less(false, true, Sym(l), Sym(r))
    case ULe => Less(false, false, Sym(l), Sym(r))
    case UGt => Less(false, true, Sym(r), Sym(l))
    case UGe => Less(false, false, Sym(r), Sym(l))
  }

  /** A comparison's result is one when it holds and zero when not, at the width of the result. */
  function CompareDefinition(sorts: Sorts, d: Value, cmp: Cmp, l: Value, r: Value): Formula {
    var test := CompareTest(cmp, l, r);
    And(Implies(test, Equal(Sym(d), Bits(sorts.width(d), 1))),
      Implies(Not(test), Equal(Sym(d), Bits(sorts.width(d), 0))))
  }

  /** What an interpreted instruction is asserted to define. */
  function Definition(sorts: Sorts, k: Kind): Option<Formula> {
    if k.Compare? then
      if k.dest in sorts.words
        && ({k.lhs, k.rhs} <= sorts.words || ({k.lhs, k.rhs} <= sorts.floats && !Unsigned(k.cmp))) then
        Some(CompareDefinition(sorts, k.dest, k.cmp, k.lhs, k.rhs))
      else None
    else if Meaning(sorts, k).Some? then Some(Equal(Sym(GetDef(k).value), Meaning(sorts, k).value))
    else None
  }

  /** The branch is taken when the condition equals one at its own width. */
  function BranchTest(sorts: Sorts, cond: Value): Formula {
    Equal(Sym(cond), Bits(sorts.width(cond), 1))
  }

  /** Match tags are compared at eight bits. */
  function TagTest(selector: Value, tag: nat): Formula {
    Equal(Sym(selector), Bits(8, tag))
  }

  function TagTests(selector: Value, tags: set<nat>): set<Formula> {
    set tag | tag in tags :: TagTest(selector, tag)
  }

  function DefaultTest(b: BlockId, selector: Value, tags: set<nat>): Formula {
    And(OnBlock(b), Not(Or(TagTests(selector, tags))))
  }

  function CaseAssertions(b: BlockId, selector: Value, cases: map<nat, BlockId>, tags: set<nat>): set<Formula>
    requires tags <= cases.Keys
  {
    set tag | tag in tags :: Iff(OnEdge(b, cases[tag]), And(OnBlock(b), TagTest(selector, tag)))
  }

  predicate SameSort(sorts: Sorts, d: Value, s: Value) {
    {d, s} <= sorts.words || {d, s} <= sorts.floats || {d, s} <= sorts.arrays
  }

  /** A phi equals the operand of each of the given edges that is on. */
  function PhiEquations(sorts: Sorts, b: BlockId, dest: Value, mappings: map<BlockId, Value>,
      preds: set<BlockId>): set<Formula>
    requires preds <= mappings.Keys
  {
    set p | p in preds && SameSort(sorts, dest, mappings[p]) ::
      Implies(OnEdge(p, b), Equal(Sym(dest), Sym(mappings[p])))
  }

  ghost predicate LoopHeader(succs: Successors, b: BlockId, mappings: map<BlockId, Value>) {
    exists p | p in mappings :: Reaches(succs, b, p)
  }

  ghost function EntryEdges(succs: Successors, b: BlockId, mappings: map<BlockId, Value>): set<BlockId> {
    set p | p in mappings && !Reaches(succs, b, p)
  }

  ghost function LiveEdges(succs: Successors, b: BlockId, mappings: map<BlockId, Value>): set<BlockId> {
    set p | p in mappings && Reaches(succs, p, b)
  }

  function EdgeVarsInto(b: BlockId, preds: set<BlockId>): set<Formula> {
    set p | p in preds :: OnEdge(p, b)
  }

  /** The earlier phis of a loop header that the detector finds always equal to this one. */
  ghost function EqualPhis(sorts: Sorts, blocks: seq<Block>, succs: Successors, b: BlockId, dest: Value,
      mappings: map<BlockId, Value>): (phis: set<Kind>)
    ensures forall k | k in phis :: k.Phi?
  {
    EqualAmong(sorts, blocks, succs, b, dest, mappings, BlockInsts(blocks, b))
  }

  ghost function EqualAmong(sorts: Sorts, blocks: seq<Block>, succs: Successors, b: BlockId, dest: Value,
      mappings: map<BlockId, Value>, insts: seq<Kind>): (phis: set<Kind>)
    ensures forall k | k in phis :: k.Phi?
  {
    set k | k in insts && k.Phi? && k.dest < dest
      && L.Accepts(blocks, succs, b, dest, mappings, k.dest, k.mappings) && {dest, k.dest} <= sorts.words
  }

  function EqualPhiAssertions(dest: Value, b: BlockId, phis: set<Kind>): set<Formula>
    requires forall k | k in phis :: k.Phi?
  {
    set k | k in phis :: Implies(OnBlock(b), Equal(Sym(dest), Sym(k.dest)))
  }

  function BlockInsts(blocks: seq<Block>, b: BlockId): seq<Kind> {
    if Find(blocks, b).Some? then Find(blocks, b).value.insts else []
  }

  /** At a loop header only the entry edges bind the phi, and control must have come in by one. */
  ghost function PhiAssertions(sorts: Sorts, blocks: seq<Block>, succs: Successors, b: BlockId, dest: Value,
      mappings: map<BlockId, Value>): set<Formula> {
    if LoopHeader(succs, b, mappings) then
      var entries := EntryEdges(succs, b, mappings);
      (if entries == {} then {} else {Implies(OnBlock(b), Or(EdgeVarsInto(b, entries)))})
      + PhiEquations(sorts, b, dest, mappings, entries)
      + EqualPhiAssertions(dest, b, EqualPhis(sorts, blocks, succs, b, dest, mappings))
    else PhiEquations(sorts, b, dest, mappings, LiveEdges(succs, b, mappings))
  }

  /** Everything asserted for one instruction of block b. */
  ghost function Assertions(sorts: Sorts, blocks: seq<Block>, succs: Successors, b: BlockId, k: Kind): set<Formula> {
    match k
    case Branch(c, t, f) =>
      if c in sorts.words then
        {Iff(OnEdge(b, t), And(OnBlock(b), BranchTest(sorts, c))),
          Iff(OnEdge(b, f), And(OnBlock(b), Not(BranchTest(sorts, c))))}
      else {}
    case Jump(t) => {Iff(OnEdge(b, t), OnBlock(b))}
    case Match(s, cases, d, _) =>
      if s in sorts.words then
        CaseAssertions(b, s, cases, cases.Keys) + {Iff(OnEdge(b, d), DefaultTest(b, s, cases.Keys))}
      else {}
    case Phi(dest, mappings) => PhiAssertions(sorts, blocks, succs, b, dest, mappings)
    case _ =>
      if Definition(sorts, k).Some? then {Implies(OnBlock(b), Definition(sorts, k).value)} else {}
  }

  ghost function BlockAssertions(sorts: Sorts, blocks: seq<Block>, succs: Successors, b: BlockId,
      insts: seq<Kind>): set<Formula> {
    set k, f | k in insts && f in Assertions(sorts, blocks, succs, b, k) :: f
  }

  ghost function AllAssertions(sorts: Sorts, blocks: seq<Block>, succs: Successors, some: seq<Block>): set<Formula> {
    set block, f | block in some && f in BlockAssertions(sorts, blocks, succs, block.id, block.insts) :: f
  }

  /** The conditions for a whole function. */
  ghost function Encoding(sorts: Sorts, blocks: seq<Block>, entry: BlockId, succs: Successors): set<Formula> {
    CfgAssertions(blocks, entry) + AllAssertions(sorts, blocks, succs, blocks)
  }
}
