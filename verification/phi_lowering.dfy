/** Leaving SSA: every phi becomes parameters of its block, every edge a jump that passes registers
    for them. */
module PhiLowering {
  import opened IR
  import opened Semantics

  type Reg = nat

  /** What decides how many machine registers a value takes: scalars and pointers, aggregates passed by
      address, arrays, buffers, tensors, and tuples with the number of registers they flatten to. */
  datatype Shape =
    | Plain
    | Record
    | Array
    | Buffer
    | Tensor(rank: nat)
    | Tuple(fields: nat)
    | NamedTuple(fields: nat)

  /** The registers recorded for values while a function is lowered. */
  datatype Records = Records(
    values: map<Value, Reg>,
    unpacked: map<Value, seq<Reg>>,
    lengths: map<Value, Reg>,
    dims: map<Value, seq<Reg>>,
    strides: map<Value, Reg>)

  /** All registers of an operand; None when a record the lowering insists on is missing. */
  function Registers(shapes: Value -> Shape, r: Records, v: Value): Option<seq<Reg>> {
    match shapes(v)
    case NamedTuple(_) => if v in r.unpacked then Some(r.unpacked[v]) else Single(r, v)
    case Tuple(_) => if v in r.unpacked then Some(r.unpacked[v]) else Single(r, v)
    case Buffer => if v in r.values && v in r.lengths then Some([r.values[v], r.lengths[v]]) else None
    case Tensor(_) => if v in r.values && v in r.dims then Some([r.values[v]] + r.dims[v]) else None
    case _ => Single(r, v)
  }

  function Single(r: Records, v: Value): Option<seq<Reg>> {
    if v in r.values then Some([r.values[v]]) else None
  }

  // ----- parameters -----

  /** How many parameters a phi is declared with. */
  function ParamCount(s: Shape): nat {
    match s
    case NamedTuple(n) => n
    case Buffer => 2
    case _ => 1
  }

  /** The parameters declared for a phi. */
  function ParamRegs(shapes: Value -> Shape, r: Records, dest: Value): seq<Reg> {
    match shapes(dest)
    case NamedTuple(_) => if dest in r.unpacked then r.unpacked[dest] else []
    case Buffer => if dest in r.values && dest in r.lengths then [r.values[dest], r.lengths[dest]] else []
    case _ => if dest in r.values then [r.values[dest]] else []
  }

  /** The parameters of a block: those of its phis, in order. */
  function ParamsOf(shapes: Value -> Shape, r: Records, insts: seq<Kind>): seq<Reg> {
    if insts == [] then []
    else (if insts[0].Phi? then ParamRegs(shapes, r, insts[0].dest) else []) + ParamsOf(shapes, r, insts[1..])
  }

  function Range(first: Reg, n: nat): (s: seq<Reg>)
    ensures |s| == n && forall i | 0 <= i < n :: s[i] == first + i
  {
    seq(n, i => first + i)
  }

  // ----- arguments -----

  /** The registers an edge from block p passes: those of its operand for each phi, in order. */
  function ArgsOf(shapes: Value -> Shape, r: Records, insts: seq<Kind>, p: BlockId): Option<seq<Reg>> {
    if insts == [] then Some([])
    else
      var rest := ArgsOf(shapes, r, insts[1..], p);
      if insts[0].Phi? && p in insts[0].mappings then
        var here := Registers(shapes, r, insts[0].mappings[p]);
        if here.Some? && rest.Some? then Some(here.value + rest.value) else None
      else rest
  }

  /** Both records say the same about v. */
  ghost predicate SameRecord(r: Records, s: Records, v: Value) {
    && (v in r.values <==> v in s.values) && (v in r.values ==> r.values[v] == s.values[v])
    && (v in r.unpacked <==> v in s.unpacked) && (v in r.unpacked ==> r.unpacked[v] == s.unpacked[v])
    && (v in r.lengths <==> v in s.lengths) && (v in r.lengths ==> r.lengths[v] == s.lengths[v])
    && (v in r.dims <==> v in s.dims) && (v in r.dims ==> r.dims[v] == s.dims[v])
    && (v in r.strides <==> v in s.strides) && (v in r.strides ==> r.strides[v] == s.strides[v])
  }

  lemma SameRecordTransitive(r: Records, s: Records, t: Records, v: Value)
    requires SameRecord(r, s, v) && SameRecord(s, t, v)
    ensures SameRecord(r, t, v)
  {
  }

  ghost predicate OthersKept(r: Records, s: Records, vs: set<Value>) {
    forall v: Value | v !in vs :: SameRecord(r, s, v)
  }

  ghost predicate Unrecorded(r: Records, v: Value) {
    v !in r.values && v !in r.unpacked && v !in r.lengths && v !in r.dims && v !in r.strides
  }

  /** The records a phi has after its declaration: no dimensions for a tensor, no stride for an array,
      one register for a tuple. */
  ghost predicate RecordedAsPhi(shapes: Value -> Shape, r: Records, v: Value) {
    match shapes(v)
    case Array => v in r.values && v !in r.strides
    case Buffer => v in r.values && v in r.lengths
    case Tensor(_) => v in r.values && v !in r.dims
    case Tuple(_) => v in r.values && v !in r.unpacked
    case NamedTuple(n) => v in r.unpacked && |r.unpacked[v]| == n
    case _ => v in r.values
  }

  /** Every phi result in the list has its records, and so all its parameters. */
  ghost predicate AllRecorded(shapes: Value -> Shape, r: Records, phis: set<Value>) {
    forall v | v in phis :: RecordedAsPhi(shapes, r, v) && |ParamRegs(shapes, r, v)| == ParamCount(shapes(v))
  }

  lemma RecordKept(shapes: Value -> Shape, r: Records, s: Records, v: Value)
    requires SameRecord(r, s, v) && RecordedAsPhi(shapes, r, v)
    ensures RecordedAsPhi(shapes, s, v) && ParamRegs(shapes, s, v) == ParamRegs(shapes, r, v)
  {
  }

  lemma AllRecordedKept(shapes: Value -> Shape, r: Records, s: Records, phis: set<Value>)
    requires AllRecorded(shapes, r, phis) && forall v | v in phis :: SameRecord(r, s, v)
    ensures AllRecorded(shapes, s, phis)
  {
    hide RecordedAsPhi, SameRecord, ParamRegs;
    forall v | v in phis {
      RecordKept(shapes, r, s, v);
    }
  }

  ghost predicate DistinctPhis(insts: seq<Kind>) {
    forall i, j | 0 <= i < j < |insts| && insts[i].Phi? && insts[j].Phi? :: insts[i].dest != insts[j].dest
  }

  ghost predicate NoDuplicates(regs: seq<Reg>) {
    forall i, j | 0 <= i < j < |regs| :: regs[i] != regs[j]
  }

  ghost predicate Below(regs: seq<Reg>, n: Reg) {
    forall r | r in regs :: r < n
  }

  ghost predicate AtLeast(regs: seq<Reg>, n: Reg) {
    forall r | r in regs :: n <= r
  }

  ghost predicate Disjoint(regs: seq<Reg>, others: seq<Reg>) {
    forall r | r in regs :: r !in others
  }

  lemma {:induction false} ParamsOfAgrees(shapes: Value -> Shape, r: Records, s: Records, insts: seq<Kind>)
    requires forall v | v in PhiDefs(insts) :: SameRecord(r, s, v)
    ensures ParamsOf(shapes, r, insts) == ParamsOf(shapes, s, insts)
  {
    if insts != [] {
      assert forall v | v in PhiDefs(insts[1..]) :: v in PhiDefs(insts) by {
        assert insts == [insts[0]] + insts[1..];
      }
      ParamsOfAgrees(shapes, r, s, insts[1..]);
      assert insts[0].Phi? ==> insts[0].dest in PhiDefs(insts);
    }
  }

  lemma {:induction false} ParamsOfAppend(shapes: Value -> Shape, r: Records, insts: seq<Kind>, k: Kind)
    ensures ParamsOf(shapes, r, insts + [k]) == ParamsOf(shapes, r, insts) + if k.Phi? then ParamRegs(shapes, r, k.dest)
      else []
  {
    if insts == [] {
      assert [k] == [] + [k] && ParamsOf(shapes, r, [k][1..]) == [];
    } else {
      assert (insts + [k])[1..] == insts[1..] + [k];
      ParamsOfAppend(shapes, r, insts[1..], k);
    }
  }

  /** Appending a range of fresh registers keeps registers distinct. */
  lemma FreshRange(regs: seq<Reg>, next: Reg, n: nat)
    requires NoDuplicates(regs) && Below(regs, next)
    ensures NoDuplicates(regs + Range(next, n)) && Below(regs + Range(next, n), next + n)
  {
    var all := regs + Range(next, n);
    forall i, j | 0 <= i < j < |all|
      ensures all[i] != all[j]
    {
      if i < |regs| <= j {
        assert regs[i] in regs;
      }
    }
  }

  lemma PhiDefsAppend(insts: seq<Kind>, i: nat)
    requires i < |insts|
    ensures PhiDefs(insts[..i + 1]) == PhiDefs(insts[..i]) + if insts[i].Phi? then {insts[i].dest} else {}
  {
  }

  function ParamsIn(params: map<BlockId, seq<Reg>>, b: BlockId): seq<Reg> {
    if b in params then params[b] else []
  }

  /** The parameters of the block are those of the phis in the list, all recorded, with registers of
      their own. */
  ghost predicate DeclaredAs(shapes: Value -> Shape, params: map<BlockId, seq<Reg>>, r: Records, next: Reg, b: BlockId,
      insts: seq<Kind>) {
    && ParamsIn(params, b) == ParamsOf(shapes, r, insts) && AllRecorded(shapes, r, PhiDefs(insts))
    && NoDuplicates(ParamsIn(params, b)) && Below(ParamsIn(params, b), next)
  }

  /** The phis of all blocks have their records and parameters; no two blocks share a parameter. */
  ghost predicate PhisDeclared(shapes: Value -> Shape, blocks: seq<Block>, params: map<BlockId, seq<Reg>>, r: Records) {
    && (forall block | block in blocks ::
          && ParamsIn(params, block.id) == ParamsOf(shapes, r, block.insts)
            && AllRecorded(shapes, r, PhiDefs(block.insts))
          && NoDuplicates(ParamsIn(params, block.id)))
    && (forall c, d | c in blocks && d in blocks
      && c.id != d.id :: Disjoint(ParamsIn(params, c.id), ParamsIn(params, d.id)))
  }

  /** Recording other values while blocks are lowered leaves the declaration as it is. */
  lemma DeclarationKept(shapes: Value -> Shape, blocks: seq<Block>, params: map<BlockId, seq<Reg>>, r: Records,
      s: Records)
    requires PhisDeclared(shapes, blocks, params, r)
    requires forall block, v | block in blocks && v in PhiDefs(block.insts) :: SameRecord(r, s, v)
    ensures PhisDeclared(shapes, blocks, params, s)
  {
    hide AllRecorded, SameRecord, PhiDefs;
    forall block | block in blocks
      ensures ParamsOf(shapes, s, block.insts) == ParamsOf(shapes, r, block.insts)
        && AllRecorded(shapes, s, PhiDefs(block.insts))
    {
      ParamsOfAgrees(shapes, r, s, block.insts);
      AllRecordedKept(shapes, r, s, PhiDefs(block.insts));
    }
  }

  function EdgeArgsOf(shapes: Value -> Shape, r: Records, blocks: seq<Block>, p: BlockId,
      t: BlockId): Option<seq<Reg>> {
    match Find(blocks, t)
    case None => Some([])
    case Some(block) => ArgsOf(shapes, r, block.insts, p)
  }

  lemma {:induction false} ArgsOfAppend(shapes: Value -> Shape, r: Records, insts: seq<Kind>, k: Kind, p: BlockId)
    ensures var a, b := ArgsOf(shapes, r, insts, p), ArgsOf(shapes, r, [k], p);
      ArgsOf(shapes, r, insts + [k], p) == if a.Some? && b.Some? then Some(a.value + b.value) else None
  {
    if insts == [] {
      assert [] + [k] == [k];
      var b := ArgsOf(shapes, r, [k], p);
      assert b.Some? ==> [] + b.value == b.value;
    } else {
      assert (insts + [k])[1..] == insts[1..] + [k];
      ArgsOfAppend(shapes, r, insts[1..], k, p);
      if insts[0].Phi? && p in insts[0].mappings {
        var here := Registers(shapes, r, insts[0].mappings[p]);
        var rest, last := ArgsOf(shapes, r, insts[1..], p), ArgsOf(shapes, r, [k], p);
        if here.Some? && rest.Some? && last.Some? {
          assert here.value + (rest.value + last.value) == here.value + rest.value + last.value;
        }
      }
    }
  }

  lemma ArgsOfOne(shapes: Value -> Shape, r: Records, k: Kind, p: BlockId)
    ensures ArgsOf(shapes, r, [k], p) == if k.Phi?
      && p in k.mappings then Registers(shapes, r, k.mappings[p]) else Some([])
  {
    assert ArgsOf(shapes, r, [k][1..], p) == Some([]);
    if k.Phi? && p in k.mappings {
      var here := Registers(shapes, r, k.mappings[p]);
      assert here.Some? ==> here.value + [] == here.value;
    }
  }

  lemma {:induction false} FindInPrefix(blocks: seq<Block>, n: nat, t: BlockId)
    requires UniqueIds(blocks) && n < |blocks|
    ensures Find(blocks[..n + 1], t) == if blocks[n].id == t then Some(blocks[n]) else Find(blocks[..n], t)
  {
  }

  // ----- generated control flow -----

  /** Where a switch goes: straight to a block, or to one of its trampolines. */
  datatype Dest = Direct(b: BlockId) | Trampoline(index: nat)

  /** Generated terminators: the blocks they pass control to, with the registers for their parameters. */
  datatype Code =
    | JumpTo(t: BlockId, args: seq<Reg>)
    | BranchNonZero(t: BlockId, tArgs: seq<Reg>, f: BlockId, fArgs: seq<Reg>)
    | Switch(table: map<nat, Dest>, default: Dest, trampolines: seq<(BlockId, seq<Reg>)>)

  function Follow(trampolines: seq<(BlockId, seq<Reg>)>, d: Dest): (BlockId, seq<Reg>) {
    match d
    case Direct(b) => (b, [])
    case Trampoline(i) => if i < |trampolines| then trampolines[i] else (0, [])
  }

  /** The block generated code reaches, and what it passes, when its operand holds c. */
  function Transfer(code: Code, c: nat): (BlockId, seq<Reg>) {
    match code
    case JumpTo(t, args) => (t, args)
    case BranchNonZero(t, tArgs, f, fArgs) => if c != 0 then (t, tArgs) else (f, fArgs)
    case Switch(table, default, trampolines) => Follow(trampolines, if c in table then table[c] else default)
  }

  /** The machine word a terminator tests. */
  function Operand(k: Kind, env: Store): nat {
    var v := if k.Branch? then Get(env, k.cond) else if k.Match? then Get(env, k.selector) else Word(0);
    if v.Word? then v.bits else 0
  }

  /** Control arrives at t with the arguments of the edge from p. */
  ghost predicate Lands(shapes: Value -> Shape, r: Records, blocks: seq<Block>, p: BlockId, x: (BlockId, seq<Reg>),
      t: BlockId) {
    x.0 == t && EdgeArgsOf(shapes, r, blocks, p, t) == Some(x.1)
  }

  /** Whatever the store, the code goes where the terminator of block p goes, with the edge's arguments. */
  ghost predicate PassesControl(shapes: Value -> Shape, r: Records, blocks: seq<Block>, p: BlockId, k: Kind,
      code: Code) {
    forall env | Leave(k, env).Goto? ::
      Lands(shapes, r, blocks, p, Transfer(code, Operand(k, env)), Leave(k, env).target)
  }

  ghost predicate DestFor(shapes: Value -> Shape, r: Records, blocks: seq<Block>, p: BlockId,
      trampolines: seq<(BlockId, seq<Reg>)>, d: Dest, t: BlockId) {
    (d.Trampoline? ==> d.index < |trampolines|) && Lands(shapes, r, blocks, p, Follow(trampolines, d), t)
  }

  lemma MoreTrampolines(shapes: Value -> Shape, r: Records, blocks: seq<Block>, p: BlockId,
      trampolines: seq<(BlockId, seq<Reg>)>, targets: map<BlockId, Dest>, x: (BlockId, seq<Reg>))
    requires forall t | t in targets :: DestFor(shapes, r, blocks, p, trampolines, targets[t], t)
    ensures forall t | t in targets :: DestFor(shapes, r, blocks, p, trampolines + [x], targets[t], t)
  {
  }

  /** The phis among the first i instructions are declared, the later ones not yet recorded. */
  ghost predicate Partly(shapes: Value -> Shape, params: map<BlockId, seq<Reg>>, r: Records, next: Reg, b: BlockId,
      insts: seq<Kind>, i: nat, start: Records)
    requires i <= |insts|
  {
    && DeclaredAs(shapes, params, r, next, b, insts[..i])
    && OthersKept(start, r, PhiDefs(insts[..i]))
    && forall v | v in PhiDefs(insts) && v !in PhiDefs(insts[..i]) :: Unrecorded(r, v)
  }

  lemma DeclaredNone(shapes: Value -> Shape, params: map<BlockId, seq<Reg>>, r: Records, next: Reg, b: BlockId)
    requires ParamsIn(params, b) == []
    ensures DeclaredAs(shapes, params, r, next, b, [])
  {
  }

  lemma PhiNext(shapes: Value -> Shape, params: map<BlockId, seq<Reg>>, r: Records, next: Reg, b: BlockId,
      insts: seq<Kind>, i: nat, start: Records)
    requires i < |insts| && insts[i].Phi? && DistinctPhis(insts) && Partly(shapes, params, r, next, b, insts, i, start)
    ensures Unrecorded(r, insts[i].dest)
  {
  }

  lemma NoPhi(shapes: Value -> Shape, params: map<BlockId, seq<Reg>>, r: Records, next: Reg, b: BlockId,
      insts: seq<Kind>, i: nat, start: Records)
    requires i < |insts| && !insts[i].Phi? && Partly(shapes, params, r, next, b, insts, i, start)
    ensures Partly(shapes, params, r, next, b, insts, i + 1, start)
  {
    assert insts[..i + 1] == insts[..i] + [insts[i]];
    PhiDefsAppend(insts, i);
    ParamsOfAppend(shapes, r, insts[..i], insts[i]);
  }

  lemma PhiDeclaredAs(shapes: Value -> Shape, p: map<BlockId, seq<Reg>>, r: Records, q: map<BlockId, seq<Reg>>,
      s: Records, m: Reg, n: Reg, b: BlockId, insts: seq<Kind>, i: nat)
    requires i < |insts| && insts[i].Phi? && DistinctPhis(insts) && DeclaredAs(shapes, p, r, m, b, insts[..i])
    requires var dest := insts[i].dest;
      && n == m + ParamCount(shapes(dest)) && ParamRegs(shapes, s, dest) == Range(m, ParamCount(shapes(dest)))
      && q == p[b := ParamsIn(p, b) + ParamRegs(shapes, s, dest)] && OthersKept(r, s, {dest})
        && RecordedAsPhi(shapes, s, dest)
    ensures DeclaredAs(shapes, q, s, n, b, insts[..i + 1])
  {
    hide ParamRegs, ParamsOf, SameRecord, PhiDefs, DistinctPhis, NoDuplicates, Below, RecordedAsPhi;
    assert insts[..i + 1] == insts[..i] + [insts[i]];
    NotYetSeen(insts, i);
    PhiDefsAppend(insts, i);
    AllRecordedKept(shapes, r, s, PhiDefs(insts[..i]));
    FreshRange(ParamsOf(shapes, r, insts[..i]), m, ParamCount(shapes(insts[i].dest)));
    ParamsOfAgrees(shapes, r, s, insts[..i]);
    ParamsOfAppend(shapes, s, insts[..i], insts[i]);
  }

  lemma PhiDeclared(shapes: Value -> Shape, p: map<BlockId, seq<Reg>>, r: Records, q: map<BlockId, seq<Reg>>,
      s: Records, m: Reg, n: Reg, b: BlockId, insts: seq<Kind>, i: nat, start: Records)
    requires i < |insts| && insts[i].Phi? && DistinctPhis(insts) && Partly(shapes, p, r, m, b, insts, i, start)
    requires var dest := insts[i].dest;
      && n == m + ParamCount(shapes(dest)) && ParamRegs(shapes, s, dest) == Range(m, ParamCount(shapes(dest)))
      && q == p[b := ParamsIn(p, b) + ParamRegs(shapes, s, dest)] && OthersKept(r, s, {dest})
        && RecordedAsPhi(shapes, s, dest)
    ensures Partly(shapes, q, s, n, b, insts, i + 1, start)
  {
    hide DeclaredAs, ParamRegs, ParamsIn, SameRecord, Unrecorded, PhiDefs, DistinctPhis, RecordedAsPhi;
    PhiDeclaredAs(shapes, p, r, q, s, m, n, b, insts, i);
    PhiDefsAppend(insts, i);
    forall v: Value | v !in PhiDefs(insts[..i + 1])
      ensures SameRecord(start, s, v)
    {
      SameRecordTransitive(start, r, s, v);
    }
    forall v | v in PhiDefs(insts) && v !in PhiDefs(insts[..i + 1])
      ensures Unrecorded(s, v)
    {
      UnrecordedKept(r, s, v);
    }
  }

  lemma PairAppended(params: seq<Reg>, a: seq<Reg>, b: seq<Reg>)
    ensures params + a + b == params + (a + b)
  {
  }

  class CodegenContext {
    const blocks: seq<Block>
    const shapes: Value -> Shape
    var nextReg: Reg
    var blockParams: map<BlockId, seq<Reg>>
    var records: Records

    constructor (blocks: seq<Block>, shapes: Value -> Shape)
      ensures this.blocks == blocks && this.shapes == shapes && nextReg == 0 && blockParams == map[]
      ensures records == Records(map[], map[], map[], map[], map[])
    {
      this.blocks, this.shapes := blocks, shapes;
      nextReg, blockParams, records := 0, map[], Records(map[], map[], map[], map[], map[]);
    }

    function Params(b: BlockId): seq<Reg>
      reads this`blockParams
    {
      ParamsIn(blockParams, b)
    }

    /** Appends n fresh parameters to a block. */
    method AppendParams(b: BlockId, n: nat) returns (regs: seq<Reg>)
      modifies this`nextReg, this`blockParams
      ensures regs == Range(old(nextReg), n) && nextReg == old(nextReg) + n
      ensures blockParams == old(blockParams)[b := old(Params(b)) + regs]
    {
      regs := Range(nextReg, n);
      nextReg := nextReg + n;
      blockParams := blockParams[b := Params(b) + regs];
    }

    method DeclarePhi(b: BlockId, dest: Value)
      requires Unrecorded(records, dest)
      modifies this`nextReg, this`blockParams, this`records
      ensures nextReg == old(nextReg) + ParamCount(shapes(dest))
      ensures ParamRegs(shapes, records, dest) == Range(old(nextReg), ParamCount(shapes(dest)))
      ensures blockParams == old(blockParams)[b := old(Params(b)) + ParamRegs(shapes, records, dest)]
      ensures OthersKept(old(records), records, {dest}) && RecordedAsPhi(shapes, records, dest)
    {
      var shape := shapes(dest);
      if shape.NamedTuple? {
        var regs := AppendParams(b, shape.fields);
        records := records.(unpacked := records.unpacked[dest := regs]);
      } else {
        DeclareValue(b, dest);
        if shape.Buffer? {
          ghost var first := nextReg - 1;
          DeclareLength(b, dest);
          PairAppended(old(Params(b)), [first], [first + 1]);
          assert ParamRegs(shapes, records, dest) == [first] + [first + 1];
        }
      }
    }

    method DeclareLength(b: BlockId, dest: Value)
      modifies this`nextReg, this`blockParams, this`records
      ensures nextReg == old(nextReg) + 1
        && records == old(records).(lengths := old(records).lengths[dest := old(nextReg)])
      ensures blockParams == old(blockParams)[b := old(Params(b)) + [old(nextReg)]]
    {
      var regs := AppendParams(b, 1);
      records := records.(lengths := records.lengths[dest := regs[0]]);
      assert regs == [regs[0]];
    }

    /** The one parameter of a phi that is not unpacked. */
    method DeclareValue(b: BlockId, dest: Value)
      requires Unrecorded(records, dest)
      modifies this`nextReg, this`blockParams, this`records
      ensures nextReg == old(nextReg) + 1
        && records == old(records).(values := old(records).values[dest := old(nextReg)])
      ensures blockParams == old(blockParams)[b := old(Params(b)) + [old(nextReg)]]
    {
      var regs := AppendParams(b, 1);
      records := records.(values := records.values[dest := regs[0]]);
      assert regs == [regs[0]];
    }

    ghost predicate Declared(b: BlockId, insts: seq<Kind>)
      reads this
    {
      DeclaredAs(shapes, blockParams, records, nextReg, b, insts)
    }

    method DeclareBlock(block: Block)
      requires DistinctPhis(block.insts) && Params(block.id) == []
      requires forall v | v in PhiDefs(block.insts) :: Unrecorded(records, v)
      modifies this`nextReg, this`blockParams, this`records
      ensures Declared(block.id, block.insts) && AtLeast(Params(block.id), old(nextReg))
      ensures forall c: BlockId | c != block.id :: ParamsIn(blockParams, c) == ParamsIn(old(blockParams), c)
      ensures OthersKept(old(records), records, PhiDefs(block.insts)) && nextReg >= old(nextReg)
    {
      var insts := block.insts;
      ghost var start := records;
      DeclaredNone(shapes, blockParams, records, nextReg, block.id);
      for i := 0 to |insts|
        invariant Partly(shapes, blockParams, records, nextReg, block.id, insts, i, start)
        invariant forall c: BlockId | c != block.id :: ParamsIn(blockParams, c) == ParamsIn(old(blockParams), c)
        invariant nextReg >= old(nextReg) && AtLeast(Params(block.id), old(nextReg))
      {
        ghost var params, before, next := blockParams, records, nextReg;
        if insts[i].Phi? {
          PhiNext(shapes, params, before, next, block.id, insts, i, start);
          hide Partly, DeclaredAs, SameRecord, Unrecorded, DistinctPhis, ParamRegs, ParamsOf, OthersKept;
          DeclarePhi(block.id, insts[i].dest);
          PhiDeclared(shapes, params, before, blockParams, records, next, nextReg, block.id, insts, i, start);
        } else {
          NoPhi(shapes, params, before, next, block.id, insts, i, start);
        }
      }
      assert insts[..|insts|] == insts;
    }

    // ----- edges -----

    /** The registers passed on the edge from block p to block t. */
    method EdgeArgs(p: BlockId, t: BlockId) returns (args: Option<seq<Reg>>)
      requires UniqueIds(blocks)
      ensures args == EdgeArgsOf(shapes, records, blocks, p, t)
    {
      args := Some([]);
      for n := 0 to |blocks|
        invariant args == EdgeArgsOf(shapes, records, blocks[..n], p, t)
      {
        FindInPrefix(blocks, n, t);
        if blocks[n].id == t {
          args := PhiArgs(blocks[n].insts, p);
        }
      }
      assert blocks[..|blocks|] == blocks;
    }

    method PhiArgs(insts: seq<Kind>, p: BlockId) returns (args: Option<seq<Reg>>)
      ensures args == ArgsOf(shapes, records, insts, p)
    {
      args := Some([]);
      for i := 0 to |insts|
        invariant args == ArgsOf(shapes, records, insts[..i], p)
      {
        ArgsOfAppend(shapes, records, insts[..i], insts[i], p);
        assert insts[..i + 1] == insts[..i] + [insts[i]];
        ArgsOfOne(shapes, records, insts[i], p);
        assert args.Some? ==> args.value + [] == args.value;
        if insts[i].Phi? && p in insts[i].mappings {
          var here := Registers(shapes, records, insts[i].mappings[p]);
          args := if args.Some? && here.Some? then Some(args.value + here.value) else None;
        }
      }
      assert insts[..|insts|] == insts;
    }

    /** Lowers the match of block p. Targets with phis are reached through a trampoline of their own
        that jumps on with their arguments. */
    method LowerMatch(p: BlockId, cases: map<nat, BlockId>, default: BlockId) returns (code: Option<Code>)
      requires UniqueIds(blocks)
      ensures code.Some? ==>
        forall c: nat :: Lands(shapes, records, blocks, p, Transfer(code.value, c), if c in cases then cases[c]
        else default)
      ensures code.None? <==> exists t | t in cases.Values + {default} ::
        EdgeArgsOf(shapes, records, blocks, p, t).None?
    {
      var targets: map<BlockId, Dest> := map[];
      var trampolines: seq<(BlockId, seq<Reg>)> := [];
      var ok: bool;
      var rest := cases.Keys;
      while rest != {}
        invariant rest <= cases.Keys && forall tag | tag in cases.Keys - rest :: cases[tag] in targets
        invariant forall t | t in targets :: EdgeArgsOf(shapes, records, blocks, p, t).Some?
        invariant forall t | t in targets :: DestFor(shapes, records, blocks, p, trampolines, targets[t], t)
        decreases rest
      {
        var tag :| tag in rest;
        ok, targets, trampolines := AddTarget(p, cases[tag], targets, trampolines);
        if !ok {
          return None;
        }
        rest := rest - {tag};
      }
      ok, targets, trampolines := AddTarget(p, default, targets, trampolines);
      if !ok {
        return None;
      }
      var table := map tag | tag in cases :: targets[cases[tag]];
      code := Some(Switch(table, targets[default], trampolines));
    }

    method AddTarget(p: BlockId, t: BlockId, targets: map<BlockId, Dest>, trampolines: seq<(BlockId, seq<Reg>)>)
      returns (ok: bool, newTargets: map<BlockId, Dest>, newTrampolines: seq<(BlockId, seq<Reg>)>)
      requires UniqueIds(blocks)
      requires forall u | u in targets :: DestFor(shapes, records, blocks, p, trampolines, targets[u], u)
      ensures ok <==> EdgeArgsOf(shapes, records, blocks, p, t).Some?
      ensures ok ==> newTargets.Keys == targets.Keys + {t}
      ensures ok ==> forall u | u in newTargets :: DestFor(shapes, records, blocks, p, newTrampolines, newTargets[u], u)
    {
      var args := EdgeArgs(p, t);
      if args.None? {
        return false, targets, trampolines;
      }
      MoreTrampolines(shapes, records, blocks, p, trampolines, targets, (t, args.value));
      if args.value == [] {
        return true, targets[t := Direct(t)], trampolines;
      }
      return true, targets[t := Trampoline(|trampolines|)], trampolines + [(t, args.value)];
    }

    /** Jumps and branches pass the arguments themselves. */
    method LowerJump(p: BlockId, t: BlockId) returns (code: Option<Code>)
      requires UniqueIds(blocks)
      ensures code.Some? ==> forall c: nat :: Lands(shapes, records, blocks, p, Transfer(code.value, c), t)
      ensures code.None? <==> EdgeArgsOf(shapes, records, blocks, p, t).None?
    {
      var args := EdgeArgs(p, t);
      code := if args.Some? then Some(JumpTo(t, args.value)) else None;
    }

    method LowerBranch(p: BlockId, t: BlockId, f: BlockId) returns (code: Option<Code>)
      requires UniqueIds(blocks)
      ensures code.Some? ==>
        forall c: nat :: Lands(shapes, records, blocks, p, Transfer(code.value, c), if c != 0 then t else f)
      ensures code.None? <==> exists x | x in {t, f} :: EdgeArgsOf(shapes, records, blocks, p, x).None?
    {
      var tArgs := EdgeArgs(p, t);
      var fArgs := EdgeArgs(p, f);
      code := if tArgs.Some? && fArgs.Some? then Some(BranchNonZero(t, tArgs.value, f, fArgs.value)) else None;
    }

    /** Generated code of any terminator goes where the terminator goes, with the edge's arguments. */
    method LowerTerminator(p: BlockId, k: Kind) returns (code: Option<Code>)
      requires UniqueIds(blocks) && (k.Jump? || k.Branch? || k.Match?)
      ensures code.Some? ==> PassesControl(shapes, records, blocks, p, k, code.value)
      ensures code.None? <==> exists t | t in Targets(k) :: EdgeArgsOf(shapes, records, blocks, p, t).None?
    {
      if k.Jump? {
        code := LowerJump(p, k.target);
      } else if k.Branch? {
        code := LowerBranch(p, k.ifTrue, k.ifFalse);
      } else {
        code := LowerMatch(p, k.cases, k.default);
      }
    }

    /** Declares the phis of all blocks before anything is lowered. */
    method DeclarePhis()
      requires UniqueIds(blocks) && PhisApart(blocks) && blockParams == map[]
      requires forall block, v | block in blocks && v in PhiDefs(block.insts) :: Unrecorded(records, v)
      modifies this`nextReg, this`blockParams, this`records
      ensures PhisDeclared(shapes, blocks, blockParams, records)
      ensures forall v: Value | (forall block | block in blocks :: v !in PhiDefs(block.insts)) ::
        SameRecord(old(records), records, v)
    {
      ghost var start := records;
      for n := 0 to |blocks|
        invariant AllDeclared(blocks, n, shapes, blockParams, records, nextReg, start)
      {
        ghost var params, before, next := blockParams, records, nextReg;
        NextUndeclared(blocks, n, shapes, params, before, next, start);
        hide AllDeclared, DeclaredAs, PhiDefs, DistinctPhis, SameRecord, Unrecorded;
        DeclareBlock(blocks[n]);
        DeclareStep(blocks, n, shapes, params, blockParams, before, records, next, nextReg, start);
      }
    }
  }

  /** The phis of the first n blocks are declared, the others still to be. */
  ghost predicate AllDeclared(blocks: seq<Block>, n: nat, shapes: Value -> Shape, params: map<BlockId, seq<Reg>>,
      r: Records, next: Reg, start: Records)
    requires n <= |blocks|
  {
    && (forall m | 0 <= m < n :: DeclaredAs(shapes, params, r, next, blocks[m].id, blocks[m].insts))
    && (forall m | n <= m < |blocks| :: ParamsIn(params, blocks[m].id) == [])
    && (forall l, m | 0 <= l < |blocks| && 0 <= m < |blocks|
      && l != m :: Disjoint(ParamsIn(params, blocks[l].id), ParamsIn(params, blocks[m].id)))
    && (forall m, v | n <= m < |blocks| && v in PhiDefs(blocks[m].insts) :: Unrecorded(r, v))
    && (forall v: Value | (forall block | block in blocks :: v !in PhiDefs(block.insts)) :: SameRecord(start, r, v))
  }

  lemma NextUndeclared(blocks: seq<Block>, n: nat, shapes: Value -> Shape, params: map<BlockId, seq<Reg>>, r: Records,
      next: Reg, start: Records)
    requires n < |blocks| && AllDeclared(blocks, n, shapes, params, r, next, start) && PhisApart(blocks)
    ensures ParamsIn(params, blocks[n].id) == [] && DistinctPhis(blocks[n].insts)
    ensures forall v | v in PhiDefs(blocks[n].insts) :: Unrecorded(r, v)
  {
  }

  lemma UnrecordedKept(r: Records, s: Records, v: Value)
    requires Unrecorded(r, v) && SameRecord(r, s, v)
    ensures Unrecorded(s, v)
  {
  }

  lemma DeclareStep(blocks: seq<Block>, n: nat, shapes: Value -> Shape, p: map<BlockId, seq<Reg>>, q: map<BlockId,
      seq<Reg>>, r: Records, s: Records, i: Reg, j: Reg, start: Records)
    requires n < |blocks| && UniqueIds(blocks) && PhisApart(blocks) && AllDeclared(blocks, n, shapes, p, r, i, start)
    requires DeclaredAs(shapes, q, s, j, blocks[n].id, blocks[n].insts) && AtLeast(ParamsIn(q, blocks[n].id), i)
    requires i <= j && OthersKept(r, s, PhiDefs(blocks[n].insts))
    requires forall c: BlockId | c != blocks[n].id :: ParamsIn(q, c) == ParamsIn(p, c)
    ensures AllDeclared(blocks, n + 1, shapes, q, s, j, start)
  {
    hide DeclaredAs, PhiDefs, SameRecord, Unrecorded, DistinctPhis;
    forall m | 0 <= m < n
      ensures DeclaredAs(shapes, q, s, j, blocks[m].id, blocks[m].insts)
    {
      DeclaredStays(shapes, p, q, r, s, i, j, blocks[m], PhiDefs(blocks[n].insts));
    }
    DisjointStep(blocks, n, shapes, p, q, r, i, start);
    forall m, v | n + 1 <= m < |blocks| && v in PhiDefs(blocks[m].insts)
      ensures Unrecorded(s, v)
    {
      assert Unrecorded(r, v) && v !in PhiDefs(blocks[n].insts);
      UnrecordedKept(r, s, v);
    }
    forall v: Value | forall block | block in blocks :: v !in PhiDefs(block.insts)
      ensures SameRecord(start, s, v)
    {
      assert blocks[n] in blocks;
      SameRecordTransitive(start, r, s, v);
    }
  }

  /** The parameters of a new block are above all earlier ones. */
  lemma DisjointStep(blocks: seq<Block>, n: nat, shapes: Value -> Shape, p: map<BlockId, seq<Reg>>, q: map<BlockId,
      seq<Reg>>, r: Records, i: Reg, start: Records)
    requires n < |blocks| && UniqueIds(blocks) && AllDeclared(blocks, n, shapes, p, r, i, start)
    requires AtLeast(ParamsIn(q, blocks[n].id), i)
    requires forall c: BlockId | c != blocks[n].id :: ParamsIn(q, c) == ParamsIn(p, c)
    ensures forall l, m | 0 <= l < |blocks| && 0 <= m < |blocks|
      && l != m :: Disjoint(ParamsIn(q, blocks[l].id), ParamsIn(q, blocks[m].id))
  {
    forall l | 0 <= l < |blocks| && l != n
      ensures ParamsIn(q, blocks[l].id) == ParamsIn(p, blocks[l].id) && Below(ParamsIn(p, blocks[l].id), i)
    {
      assert l < n ==> DeclaredAs(shapes, p, r, i, blocks[l].id, blocks[l].insts);
    }
  }

  lemma DeclaredStays(shapes: Value -> Shape, p: map<BlockId, seq<Reg>>, q: map<BlockId, seq<Reg>>, r: Records,
      s: Records, n: Reg, m: Reg, block: Block, others: set<Value>)
    requires DeclaredAs(shapes, p, r, n, block.id, block.insts) && ParamsIn(p, block.id) == ParamsIn(q, block.id)
      && n <= m
    requires OthersKept(r, s, others) && PhiDefs(block.insts) !! others
    ensures DeclaredAs(shapes, q, s, m, block.id, block.insts)
  {
    ParamsOfAgrees(shapes, r, s, block.insts);
    AllRecordedKept(shapes, r, s, PhiDefs(block.insts));
  }

  ghost predicate PhisApart(blocks: seq<Block>) {
    && (forall block | block in blocks :: DistinctPhis(block.insts))
    && (forall i, j | 0 <= i < j < |blocks| :: PhiDefs(blocks[i].insts) !! PhiDefs(blocks[j].insts))
  }

  lemma NotYetSeen(insts: seq<Kind>, i: nat)
    requires DistinctPhis(insts) && i < |insts| && insts[i].Phi?
    ensures insts[i].dest !in PhiDefs(insts[..i]) && insts[i].dest in PhiDefs(insts)
  {
  }
}