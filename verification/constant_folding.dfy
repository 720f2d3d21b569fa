/** Constant folding: 64-bit arithmetic on literal operands, done at compile time. */
module ConstantFolding {
  import opened Arithmetic
  import opened IR
  import opened Cfg
  import opened Semantics
  import opened StrictSsa

  datatype Constant = Int(int64: int) | Real(float64: real)

  type Constants = map<Value, Constant>

  const TWO_TO_THE_64: int := 0x1_0000_0000_0000_0000
  const TWO_TO_THE_63: int := 0x8000_0000_0000_0000

  /** Two's complement wrap-around of 64-bit integers. */
  function Int64(n: int): int {
    (n + TWO_TO_THE_63) % TWO_TO_THE_64 - TWO_TO_THE_63
  }

  predicate IsInt(c: Constants, v: Value) {
    v in c && c[v].Int?
  }

  predicate IsReal(c: Constants, v: Value) {
    v in c && c[v].Real?
  }

  // ----- the pass -----

  function FoldTo(d: Value, n: int, c: Constants): (Kind, Constants) {
    (ConstInt(d, n), c[d := Int(n)])
  }

  function FoldInst(k: Kind, c: Constants): (Kind, Constants) {
    match k
    case ConstInt(d, n) => (k, c[d := Int(n)])
    case ConstFloat(d, x) => (k, c[d := Real(x)])
    case IntAdd(d, l, r) =>
      if IsInt(c, l) && IsInt(c, r) then FoldTo(d, Int64(c[l].int64 + c[r].int64), c) else (k, c)
    case IntSub(d, l, r) =>
      if IsInt(c, l) && IsInt(c, r) then FoldTo(d, Int64(c[l].int64 - c[r].int64), c) else (k, c)
    case IntMul(d, l, r) =>
      if IsInt(c, l) && IsInt(c, r) then FoldTo(d, Int64(c[l].int64 * c[r].int64), c) else (k, c)
    case FloatAdd(d, l, r) =>
      if IsReal(c, l) && IsReal(c, r) then
        (ConstFloat(d, c[l].float64 + c[r].float64), c[d := Real(c[l].float64 + c[r].float64)])
      else (k, c)
    case Neg(d, s) =>
      if IsInt(c, s) then FoldTo(d, Int64(-c[s].int64), c)
      else if IsReal(c, s) then (ConstFloat(d, -c[s].float64), c[d := Real(-c[s].float64)])
      else (k, c)
    case _ => (k, c)
  }

  function FoldInsts(insts: seq<Kind>, c: Constants): (seq<Kind>, Constants) {
    if insts == [] then ([], c)
    else
      var (k, c1) := FoldInst(insts[0], c);
      var (rest, c2) := FoldInsts(insts[1..], c1);
      ([k] + rest, c2)
  }

  function FoldBlocks(blocks: seq<Block>, c: Constants): (seq<Block>, Constants) {
    if blocks == [] then ([], c)
    else
      var (insts, c1) := FoldInsts(blocks[0].insts, c);
      var (rest, c2) := FoldBlocks(blocks[1..], c1);
      ([blocks[0].(insts := insts)] + rest, c2)
  }

  /** Drains one block, rebuilding it while the table of known constants grows. */
  method FoldBlock(insts: seq<Kind>, known: Constants) returns (folded: seq<Kind>, constants: Constants)
    ensures folded == FoldInsts(insts, known).0 && constants == FoldInsts(insts, known).1
  {
    folded, constants := [], known;
    assert insts[0..] == insts;
    for i := 0 to |insts|
      invariant FoldInsts(insts, known).0 == folded + FoldInsts(insts[i..], constants).0
      invariant FoldInsts(insts, known).1 == FoldInsts(insts[i..], constants).1
    {
      assert insts[i..][1..] == insts[i + 1..];
      var (k, c) := FoldInst(insts[i], constants);
      folded, constants := folded + [k], c;
    }
  }

  method FoldConstants(func: Function)
    modifies func
    ensures func.blocks == FoldBlocks(old(func.blocks), map[]).0
    ensures DistinctAcross(old(func.blocks)) ==> NothingToFold(func.blocks)
    ensures FitsInt64(old(func.blocks)) ==> FitsInt64(func.blocks)
  {
    ghost var blocks := func.blocks;
    if DistinctAcross(blocks) {
      PassFoldsAll(blocks);
    }
    FoldedFits(blocks, map[]);
    var constants: Constants := map[];
    var i := 0;
    while i < |func.blocks|
      invariant 0 <= i <= |func.blocks| == |blocks|
      invariant func.blocks[i..] == blocks[i..]
      invariant FoldBlocks(blocks, map[]).0 == func.blocks[..i] + FoldBlocks(blocks[i..], constants).0
    {
      var folded, c := FoldBlock(func.blocks[i].insts, constants);
      assert blocks[i..][0] == func.blocks[i] && blocks[i..][1..] == blocks[i + 1..];
      ghost var before := func.blocks;
      func.blocks := func.blocks[i := func.blocks[i].(insts := folded)];
      assert func.blocks[..i + 1] == before[..i] + [func.blocks[i]];
      constants := c;
      i := i + 1;
    }
  }

  // ----- modular arithmetic -----

  /** n is congruent to Wrap(w, n) modulo 2 to the w. */
  lemma WrapDiffers(w: nat, n: int) returns (q: int)
    ensures n == Pow2(w) * q + Wrap(w, n)
  {
    q := n / Pow2(w);
  }

  lemma WrapShift(w: nat, n: int, q: int)
    ensures Wrap(w, n + Pow2(w) * q) == Wrap(w, n)
  {
    var m := Pow2(w);
    assert n + m * q == m * (n / m + q) + n % m;
    ModIs(n + m * q, n / m + q, m, n % m);
  }

  lemma {:induction false} Pow2Divides(w: nat, v: nat) returns (q: nat)
    requires w <= v
    ensures Pow2(v) == Pow2(w) * q
    decreases v
  {
    if w == v {
      q := 1;
    } else {
      var r := Pow2Divides(w, v - 1);
      q := 2 * r;
    }
  }

  /** Truncating a wider wrapped value gives the same bits. */
  lemma WrapNarrow(w: nat, v: nat, n: int)
    requires w <= v
    ensures Wrap(w, Wrap(v, n)) == Wrap(w, n)
  {
    var q := Pow2Divides(w, v);
    var k := WrapDiffers(v, n);
    assert Pow2(v) * k == Pow2(w) * (q * k);
    WrapShift(w, Wrap(v, n), q * k);
  }

  lemma Pow2Is64()
    ensures Pow2(64) == TWO_TO_THE_64
  {
    assert Pow2(8) == 0x100;
    assert Pow2(16) == 0x1_0000;
    assert Pow2(24) == 0x100_0000;
    assert Pow2(32) == 0x1_0000_0000;
    assert Pow2(40) == 0x100_0000_0000;
    assert Pow2(48) == 0x1_0000_0000_0000;
    assert Pow2(56) == 0x100_0000_0000_0000;
  }

  /** Folding in 64 bits and truncating later is the same as never having wrapped. */
  lemma WrapInt64(w: nat, n: int)
    requires w <= 64
    ensures Wrap(w, Int64(n)) == Wrap(w, n)
  {
    Pow2Is64();
    var q := WrapDiffers(64, n + TWO_TO_THE_63);
    var d := Pow2Divides(w, 64);
    assert Int64(n) == n + Pow2(64) * (-q);
    assert Pow2(64) * (-q) == Pow2(w) * (d * -q);
    WrapShift(w, n, d * -q);
  }

  lemma WrapOfSum(w: nat, a: int, b: int)
    ensures Wrap(w, Wrap(w, a) + Wrap(w, b)) == Wrap(w, a + b)
    ensures Wrap(w, Wrap(w, a) - Wrap(w, b)) == Wrap(w, a - b)
  {
    hide Wrap, Pow2;
    var p := WrapDiffers(w, a);
    var q := WrapDiffers(w, b);
    assert Pow2(w) * (p + q) == Pow2(w) * p + Pow2(w) * q;
    assert Pow2(w) * (p - q) == Pow2(w) * p - Pow2(w) * q;
    WrapShift(w, Wrap(w, a) + Wrap(w, b), p + q);
    WrapShift(w, Wrap(w, a) - Wrap(w, b), p - q);
  }

  lemma WrapOfProduct(w: nat, a: int, b: int)
    ensures Wrap(w, Wrap(w, a) * Wrap(w, b)) == Wrap(w, a * b)
  {
    hide Wrap, Pow2;
    var p := WrapDiffers(w, a);
    var q := WrapDiffers(w, b);
    ProductOfCongruent(a, b, Pow2(w), p, q, Wrap(w, a), Wrap(w, b));
    WrapShift(w, Wrap(w, a) * Wrap(w, b), p * b + Wrap(w, a) * q);
  }

  lemma ProductOfCongruent(a: int, b: int, m: int, p: int, q: int, x: int, y: int)
    requires a == m * p + x && b == m * q + y
    ensures a * b == x * y + m * (p * b + x * q)
  {
  }

  // ----- what the pass does to a function in SSA form -----

  /** How an instruction relates to its folded form, given the final table of constants. */
  ghost predicate FoldsTo(k: Kind, f: Kind, c: Constants) {
    match k
    case ConstInt(d, n) => f == k && d in c && c[d] == Int(n)
    case ConstFloat(d, x) => f == k && d in c && c[d] == Real(x)
    case IntAdd(d, l, r) =>
      if d in c then IsInt(c, l) && IsInt(c, r) && Literal(d, f, Int64(c[l].int64 + c[r].int64), c) else f == k
    case IntSub(d, l, r) =>
      if d in c then IsInt(c, l) && IsInt(c, r) && Literal(d, f, Int64(c[l].int64 - c[r].int64), c) else f == k
    case IntMul(d, l, r) =>
      if d in c then IsInt(c, l) && IsInt(c, r) && Literal(d, f, Int64(c[l].int64 * c[r].int64), c) else f == k
    case FloatAdd(d, l, r) =>
      if d in c then
        IsReal(c, l) && IsReal(c, r) && c[d] == Real(c[l].float64 + c[r].float64) && f == ConstFloat(d, c[d].float64)
      else f == k
    case Neg(d, s) =>
      if d in c then
        s in c && (match c[s]
          case Int(n) => Literal(d, f, Int64(-n), c)
          case Real(x) => c[d] == Real(-x) && f == ConstFloat(d, -x))
      else f == k
    case _ => f == k && (GetDef(k).Some? ==> GetDef(k).value !in c)
  }

  ghost predicate Literal(d: Value, f: Kind, n: int, c: Constants) {
    f == ConstInt(d, n) && d in c && c[d] == Int(n)
  }

  ghost predicate Extends(c: Constants, d: Constants) {
    forall v | v in c :: v in d && d[v] == c[v]
  }

  /** d adds nothing to c among the values these instructions define. */
  ghost predicate SameOn(insts: seq<Kind>, c: Constants, d: Constants) {
    forall v | Defines(insts, v) && v in d :: v in c
  }

  lemma DefinesTail(insts: seq<Kind>, v: Value)
    requires insts != []
    ensures Defines(insts, v) <==> GetDef(insts[0]) == Some(v) || Defines(insts[1..], v)
  {
  }

  lemma {:induction false} FoldInstsKeys(insts: seq<Kind>, c: Constants, v: Value)
    ensures v in FoldInsts(insts, c).1 ==> v in c || Defines(insts, v)
  {
    if insts != [] {
      DefinesTail(insts, v);
      FoldInstsKeys(insts[1..], FoldInst(insts[0], c).1, v);
    }
  }

  lemma FoldInstOk(k: Kind, c: Constants, final: Constants)
    requires GetDef(k).Some? ==> GetDef(k).value !in c
    requires Extends(FoldInst(k, c).1, final)
    requires GetDef(k).Some? && GetDef(k).value in final ==> GetDef(k).value in FoldInst(k, c).1
    ensures FoldsTo(k, FoldInst(k, c).0, final) && Extends(c, FoldInst(k, c).1)
  {
  }

  ghost predicate DistinctDefs(insts: seq<Kind>) {
    forall i, j | 0 <= i < j < |insts| && GetDef(insts[i]).Some? :: GetDef(insts[i]) != GetDef(insts[j])
  }

  lemma {:induction false} FoldInstsOk(insts: seq<Kind>, c: Constants, final: Constants)
    requires DistinctDefs(insts) && forall v | v in c :: !Defines(insts, v)
    requires Extends(FoldInsts(insts, c).1, final) && SameOn(insts, FoldInsts(insts, c).1, final)
    ensures Extends(c, FoldInsts(insts, c).1)
    ensures |FoldInsts(insts, c).0| == |insts|
    ensures forall i | 0 <= i < |insts| :: FoldsTo(insts[i], FoldInsts(insts, c).0[i], final)
  {
    if insts != [] {
      var k, rest := insts[0], insts[1..];
      var c1 := FoldInst(k, c).1;
      forall v: Value
        ensures Defines(insts, v) <==> GetDef(k) == Some(v) || Defines(rest, v)
      {
        DefinesTail(insts, v);
      }
      forall v: Value | Defines(rest, v)
        ensures GetDef(k) != Some(v)
      {
        var i :| 0 <= i < |rest| && GetDef(rest[i]) == Some(v);
        assert insts[i + 1] == rest[i];
      }
      FoldInstsOk(rest, c1, final);
      if GetDef(k).Some? && GetDef(k).value in final {
        FoldInstsKeys(rest, c1, GetDef(k).value);
      }
      FoldInstOk(k, c, final);
    }
  }

  ghost predicate DefinedBy(blocks: seq<Block>, v: Value) {
    exists block :: block in blocks && Defines(block.insts, v)
  }

  ghost predicate DistinctAcross(blocks: seq<Block>) {
    && (forall block | block in blocks :: DistinctDefs(block.insts))
    && (forall i, j, v | 0 <= i < j < |blocks| && Defines(blocks[i].insts, v) :: !Defines(blocks[j].insts, v))
  }

  lemma {:induction false} FoldBlocksKeys(blocks: seq<Block>, c: Constants, v: Value)
    ensures v in FoldBlocks(blocks, c).1 ==> v in c || DefinedBy(blocks, v)
  {
    if blocks != [] {
      FoldInstsKeys(blocks[0].insts, c, v);
      FoldBlocksKeys(blocks[1..], FoldInsts(blocks[0].insts, c).1, v);
    }
  }

  ghost predicate BlockFoldsTo(block: Block, f: Block, c: Constants) {
    && f == block.(insts := f.insts) && |f.insts| == |block.insts|
    && forall i | 0 <= i < |block.insts| :: FoldsTo(block.insts[i], f.insts[i], c)
  }

  lemma DistinctRest(blocks: seq<Block>)
    requires DistinctAcross(blocks) && blocks != []
    ensures DistinctAcross(blocks[1..]) && DistinctDefs(blocks[0].insts)
    ensures forall v | DefinedBy(blocks[1..], v) :: !Defines(blocks[0].insts, v)
    ensures forall v | Defines(blocks[0].insts, v) :: DefinedBy(blocks, v)
    ensures forall v | DefinedBy(blocks[1..], v) :: DefinedBy(blocks, v)
  {
  }

  lemma {:induction false} FoldBlocksOk(blocks: seq<Block>, c: Constants, final: Constants)
    requires DistinctAcross(blocks) && forall v | v in c :: !DefinedBy(blocks, v)
    requires Extends(FoldBlocks(blocks, c).1, final)
    requires forall v | DefinedBy(blocks, v) && v in final :: v in FoldBlocks(blocks, c).1
    ensures Extends(c, FoldBlocks(blocks, c).1)
    ensures |FoldBlocks(blocks, c).0| == |blocks|
    ensures forall i | 0 <= i < |blocks| :: BlockFoldsTo(blocks[i], FoldBlocks(blocks, c).0[i], final)
  {
    if blocks != [] {
      var insts, rest := blocks[0].insts, blocks[1..];
      var c1 := FoldInsts(insts, c).1;
      assert blocks[0] in blocks && forall block | block in rest :: block in blocks;
      DistinctRest(blocks);
      hide FoldInsts, Defines, DistinctAcross, DistinctDefs, FoldsTo;
      forall v | v in c1
        ensures !DefinedBy(rest, v)
      {
        FoldInstsKeys(insts, c, v);
      }
      FoldBlocksOk(rest, c1, final);
      forall v | Defines(insts, v) && v in final
        ensures v in c1
      {
        FoldBlocksKeys(rest, c1, v);
      }
      FoldInstsOk(insts, c, final);
    }
  }

  // ----- nothing is left to fold -----

  /** Position j of block m comes before position i of block n. */
  predicate Precedes(m: nat, j: nat, n: nat, i: nat) {
    m < n || (m == n && j < i)
  }

  /** k is an integer literal for v. */
  predicate IntLiteral(k: Kind, v: Value) {
    k.ConstInt? && k.dest == v
  }

  predicate FloatLiteral(k: Kind, v: Value) {
    k.ConstFloat? && k.dest == v
  }

  /** v is defined by an integer literal before position i of block n. */
  ghost predicate IntBefore(blocks: seq<Block>, n: nat, i: nat, v: Value) {
    exists m, j | 0 <= m < |blocks| && 0 <= j < |blocks[m].insts| ::
      Precedes(m, j, n, i) && IntLiteral(blocks[m].insts[j], v)
  }

  ghost predicate FloatBefore(blocks: seq<Block>, n: nat, i: nat, v: Value) {
    exists m, j | 0 <= m < |blocks| && 0 <= j < |blocks[m].insts| ::
      Precedes(m, j, n, i) && FloatLiteral(blocks[m].insts[j], v)
  }

  /** An operation the pass folds, given the values known as integer and as float literals. */
  ghost predicate Foldable(k: Kind, ints: iset<Value>, floats: iset<Value>) {
    match k
    case IntAdd(_, l, r) => l in ints && r in ints
    case IntSub(_, l, r) => l in ints && r in ints
    case IntMul(_, l, r) => l in ints && r in ints
    case FloatAdd(_, l, r) => l in floats && r in floats
    case Neg(_, s) => s in ints || s in floats
    case _ => false
  }

  ghost function IntsBefore(blocks: seq<Block>, n: nat, i: nat): iset<Value> {
    iset v: Value | IntBefore(blocks, n, i, v)
  }

  ghost function FloatsBefore(blocks: seq<Block>, n: nat, i: nat): iset<Value> {
    iset v: Value | FloatBefore(blocks, n, i, v)
  }

  /** No sum, difference, product or negation is left whose operands are literals defined before it. */
  ghost predicate NothingToFold(blocks: seq<Block>) {
    forall n, i | 0 <= n < |blocks| && 0 <= i < |blocks[n].insts| ::
      !Foldable(blocks[n].insts[i], IntsBefore(blocks, n, i), FloatsBefore(blocks, n, i))
  }

  ghost predicate FitsInt64(blocks: seq<Block>) {
    forall block, k | block in blocks && k in block.insts && k.ConstInt? :: -TWO_TO_THE_63 <= k.int64 < TWO_TO_THE_63
  }

  ghost function KnownInts(c: Constants): iset<Value> {
    iset v | IsInt(c, v)
  }

  ghost function KnownFloats(c: Constants): iset<Value> {
    iset v | IsReal(c, v)
  }

  /** Whatever the table knows, or has learned from the literals before position i, is folded there. */
  ghost predicate DoneAt(c: Constants, blocks: seq<Block>, n: nat, i: nat)
    requires n < |blocks| && i < |blocks[n].insts|
  {
    !Foldable(blocks[n].insts[i], KnownInts(c) + IntsBefore(blocks, n, i), KnownFloats(c) + FloatsBefore(blocks, n, i))
  }

  lemma NotFoldedNow(k: Kind, c: Constants)
    ensures !Foldable(FoldInst(k, c).0, KnownInts(c), KnownFloats(c))
  {
  }

  /** The table before position i of one list. */
  function TableAt(insts: seq<Kind>, c: Constants, i: nat): Constants
    requires i <= |insts|
  {
    if i == 0 then c else TableAt(insts[1..], FoldInst(insts[0], c).1, i - 1)
  }

  lemma {:induction false} FoldedAt(insts: seq<Kind>, c: Constants, i: nat)
    requires i < |insts|
    ensures |FoldInsts(insts, c).0| == |insts|
    ensures FoldInsts(insts, c).0[i] == FoldInst(insts[i], TableAt(insts, c, i)).0
  {
    var (rest, _) := FoldInsts(insts[1..], FoldInst(insts[0], c).1);
    if i > 0 {
      FoldedAt(insts[1..], FoldInst(insts[0], c).1, i - 1);
    } else if |insts| > 1 {
      FoldedAt(insts[1..], FoldInst(insts[0], c).1, 0);
    }
  }

  /** Literals already written are in the table, and what was known stays known. */
  lemma {:induction false} TableKnows(insts: seq<Kind>, c: Constants, i: nat, v: Value)
    requires DistinctDefs(insts) && (forall u | u in c :: !Defines(insts, u)) && i <= |insts|
    ensures v in c ==> v in TableAt(insts, c, i) && TableAt(insts, c, i)[v] == c[v]
    ensures |FoldInsts(insts, c).0| == |insts|
    ensures forall j | 0 <= j < i :: LiteralIn(FoldInsts(insts, c).0[j], TableAt(insts, c, i))
  {
    if insts != [] {
      FoldedAt(insts, c, 0);
    }
    if i > 0 {
      var k, rest := insts[0], insts[1..];
      var c1 := FoldInst(k, c).1;
      NextTable(insts, c);
      TableKnows(rest, c1, i - 1, v);
      forall j | 0 <= j < i
        ensures LiteralIn(FoldInsts(insts, c).0[j], TableAt(insts, c, i))
      {
        if j > 0 {
          assert LiteralIn(FoldInsts(rest, c1).0[j - 1], TableAt(rest, c1, i - 1));
        } else if GetDef(k).Some? {
          TableKnows(rest, c1, i - 1, GetDef(k).value);
        }
      }
    }
  }

  ghost predicate LiteralIn(k: Kind, c: Constants) {
    (k.ConstInt? ==> IsInt(c, k.dest)) && (k.ConstFloat? ==> IsReal(c, k.dest))
  }

  ghost predicate AllIn(insts: seq<Kind>, c: Constants) {
    forall j | 0 <= j < |insts| :: LiteralIn(insts[j], c)
  }

  lemma NextTable(insts: seq<Kind>, c: Constants)
    requires DistinctDefs(insts) && (forall u | u in c :: !Defines(insts, u)) && insts != []
    ensures var c1 := FoldInst(insts[0], c).1;
      && DistinctDefs(insts[1..]) && (forall u | u in c1 :: !Defines(insts[1..], u))
      && (forall u | u in c :: u in c1 && c1[u] == c[u]) && LiteralIn(FoldInst(insts[0], c).0, c1)
  {
    var k, rest := insts[0], insts[1..];
    forall u: Value
      ensures Defines(insts, u) <==> GetDef(k) == Some(u) || Defines(rest, u)
    {
      DefinesTail(insts, u);
    }
    forall i | 0 <= i < |rest|
      ensures GetDef(rest[i]).Some? ==> GetDef(rest[i]) != GetDef(k)
    {
      assert insts[i + 1] == rest[i];
    }
    FoldInstKeys(k, c);
  }

  lemma FoldInstKeys(k: Kind, c: Constants)
    ensures forall u | u in FoldInst(k, c).1 :: u in c || GetDef(k) == Some(u)
    ensures forall u | u in c && GetDef(k) != Some(u) :: u in FoldInst(k, c).1 && FoldInst(k, c).1[u] == c[u]
    ensures LiteralIn(FoldInst(k, c).0, FoldInst(k, c).1)
  {
  }

  lemma {:induction false} TableEnds(insts: seq<Kind>, c: Constants)
    ensures TableAt(insts, c, |insts|) == FoldInsts(insts, c).1
  {
    if insts != [] {
      TableEnds(insts[1..], FoldInst(insts[0], c).1);
    }
  }

  lemma {:induction false} FoldsAll(blocks: seq<Block>, c: Constants, n: nat, i: nat)
    requires DistinctAcross(blocks) && forall v | v in c :: !DefinedBy(blocks, v)
    requires n < |blocks| && |FoldBlocks(blocks, c).0| == |blocks| && i < |FoldBlocks(blocks, c).0[n].insts|
    ensures DoneAt(c, FoldBlocks(blocks, c).0, n, i)
  {
    if n == 0 {
      FirstBlockDone(blocks, c, i);
    } else {
      var out := FoldBlocks(blocks, c).0;
      var c1 := FoldInsts(blocks[0].insts, c).1;
      DistinctRest(blocks);
      BlockTable(blocks, c);
      assert out[0].insts == FoldInsts(blocks[0].insts, c).0 && out[1..] == FoldBlocks(blocks[1..], c1).0;
      FoldsAll(blocks[1..], c1, n - 1, i);
      hide FoldInsts, FoldBlocks, DistinctAcross, DefinedBy, LiteralIn;
      KnownLater(out, c, c1, n, i);
    }
  }

  lemma FewerFoldable(k: Kind, ints: iset<Value>, floats: iset<Value>, moreInts: iset<Value>, moreFloats: iset<Value>)
    requires ints <= moreInts && floats <= moreFloats && !Foldable(k, moreInts, moreFloats)
    ensures !Foldable(k, ints, floats)
  {
  }

  /** A literal before position i of a later block is in the first block, and so in its table, or after it. */
  lemma KnownLater(out: seq<Block>, c: Constants, c1: Constants, n: nat, i: nat)
    requires 0 < n < |out| && i < |out[n].insts| && (forall v | v in c :: v in c1 && c1[v] == c[v])
    requires AllIn(out[0].insts, c1)
    requires DoneAt(c1, out[1..], n - 1, i)
    ensures DoneAt(c, out, n, i)
  {
    forall v | v in KnownInts(c) + IntsBefore(out, n, i)
      ensures v in KnownInts(c1) + IntsBefore(out[1..], n - 1, i)
    {
      if v !in KnownInts(c1) {
        var m, j :| 0 <= m < |out| && 0 <= j < |out[m].insts| && Precedes(m, j, n, i) && IntLiteral(out[m].insts[j], v);
        assert m > 0 && out[1..][m - 1] == out[m] && Precedes(m - 1, j, n - 1, i);
        assert IntBefore(out[1..], n - 1, i, v);
      }
    }
    forall v | v in KnownFloats(c) + FloatsBefore(out, n, i)
      ensures v in KnownFloats(c1) + FloatsBefore(out[1..], n - 1, i)
    {
      if v !in KnownFloats(c1) {
        var m, j :| 0 <= m < |out| && 0 <= j < |out[m].insts| && Precedes(m, j, n, i)
          && FloatLiteral(out[m].insts[j], v);
        assert m > 0 && out[1..][m - 1] == out[m] && Precedes(m - 1, j, n - 1, i);
        assert FloatBefore(out[1..], n - 1, i, v);
      }
    }
    FewerFoldable(out[n].insts[i], KnownInts(c) + IntsBefore(out, n, i), KnownFloats(c) + FloatsBefore(out, n, i),
      KnownInts(c1) + IntsBefore(out[1..], n - 1, i), KnownFloats(c1) + FloatsBefore(out[1..], n - 1, i));
  }

  /** After the first block the table has all its literals and none of the later definitions. */
  lemma BlockTable(blocks: seq<Block>, c: Constants)
    requires DistinctAcross(blocks) && (forall v | v in c :: !DefinedBy(blocks, v)) && blocks != []
    ensures var folded, c1 := FoldInsts(blocks[0].insts, c).0, FoldInsts(blocks[0].insts, c).1;
      && AllIn(folded, c1)
      && (forall v | v in c :: v in c1 && c1[v] == c[v]) && (forall v | v in c1 :: !DefinedBy(blocks[1..], v))
  {
    var insts := blocks[0].insts;
    assert blocks[0] in blocks;
    DistinctRest(blocks);
    TableEnds(insts, c);
    hide FoldInsts, TableAt, LiteralIn, Defines, DefinedBy, DistinctDefs, DistinctAcross;
    assert forall u | u in c :: !Defines(insts, u);
    forall v
      ensures v in c ==> v in FoldInsts(insts, c).1 && FoldInsts(insts, c).1[v] == c[v]
      ensures v in FoldInsts(insts, c).1 ==> v in c || Defines(insts, v)
    {
      TableKnows(insts, c, |insts|, v);
      FoldInstsKeys(insts, c, v);
    }
    TableKnows(insts, c, |insts|, 0);
  }

  lemma FirstBlockDone(blocks: seq<Block>, c: Constants, i: nat)
    requires DistinctAcross(blocks) && (forall v | v in c :: !DefinedBy(blocks, v)) && blocks != []
    requires |FoldBlocks(blocks, c).0| == |blocks| && i < |FoldBlocks(blocks, c).0[0].insts|
    ensures DoneAt(c, FoldBlocks(blocks, c).0, 0, i)
  {
    var insts := blocks[0].insts;
    var out := FoldBlocks(blocks, c).0;
    assert out[0].insts == FoldInsts(insts, c).0 && blocks[0] in blocks;
    DistinctRest(blocks);
    assert forall u | u in c :: !Defines(insts, u);
    TableKnows(insts, c, 0, 0);
    FoldedAt(insts, c, i);
    var now := TableAt(insts, c, i);
    NotFoldedNow(insts[i], now);
    hide FoldInsts, TableAt, Defines, DefinedBy, DistinctDefs, DistinctAcross, FoldBlocks, FoldInst;
    forall v: Value
      ensures v in c ==> v in now && now[v] == c[v]
    {
      TableKnows(insts, c, i, v);
    }
    TableKnows(insts, c, i, 0);
    FirstKnown(out, c, now, i);
  }

  lemma FirstKnown(out: seq<Block>, c: Constants, now: Constants, i: nat)
    requires out != [] && i < |out[0].insts| && (forall v: Value :: v in c ==> v in now && now[v] == c[v])
    requires forall j | 0 <= j < i :: LiteralIn(out[0].insts[j], now)
    requires !Foldable(out[0].insts[i], KnownInts(now), KnownFloats(now))
    ensures DoneAt(c, out, 0, i)
  {
    FewerFoldable(out[0].insts[i], KnownInts(c) + IntsBefore(out, 0, i), KnownFloats(c) + FloatsBefore(out, 0, i),
      KnownInts(now), KnownFloats(now));
  }

  /** After the pass no operation is left whose operands are literals defined before it. */
  lemma PassFoldsAll(blocks: seq<Block>)
    requires DistinctAcross(blocks)
    ensures NothingToFold(FoldBlocks(blocks, map[]).0)
  {
    var out := FoldBlocks(blocks, map[]).0;
    FoldedSize(blocks, map[]);
    hide FoldBlocks, DistinctAcross, Foldable;
    forall n, i | 0 <= n < |out| && 0 <= i < |out[n].insts|
      ensures !Foldable(out[n].insts[i], IntsBefore(out, n, i), FloatsBefore(out, n, i))
    {
      FoldsAll(blocks, map[], n, i);
      assert KnownInts(map[]) + IntsBefore(out, n, i) == IntsBefore(out, n, i);
      assert KnownFloats(map[]) + FloatsBefore(out, n, i) == FloatsBefore(out, n, i);
    }
  }

  lemma {:induction false} FoldedSize(blocks: seq<Block>, c: Constants)
    ensures |FoldBlocks(blocks, c).0| == |blocks|
  {
    if blocks != [] {
      FoldedSize(blocks[1..], FoldInsts(blocks[0].insts, c).1);
    }
  }

  // ----- literals stay in 64 bits -----

  lemma Int64Fits(n: int)
    ensures -TWO_TO_THE_63 <= Int64(n) < TWO_TO_THE_63
  {
  }

  lemma {:induction false} FoldedInstsFit(insts: seq<Kind>, c: Constants)
    requires forall k | k in insts && k.ConstInt? :: -TWO_TO_THE_63 <= k.int64 < TWO_TO_THE_63
    ensures forall k | k in FoldInsts(insts, c).0 && k.ConstInt? :: -TWO_TO_THE_63 <= k.int64 < TWO_TO_THE_63
  {
    if insts != [] {
      assert insts == [insts[0]] + insts[1..];
      FoldedInstsFit(insts[1..], FoldInst(insts[0], c).1);
      FoldedInstFits(insts[0], c);
    }
  }

  lemma FoldedInstFits(k: Kind, c: Constants)
    requires k.ConstInt? ==> -TWO_TO_THE_63 <= k.int64 < TWO_TO_THE_63
    ensures var f := FoldInst(k, c).0; f.ConstInt? ==> -TWO_TO_THE_63 <= f.int64 < TWO_TO_THE_63
  {
    hide Int64;
    forall n {
      Int64Fits(n);
    }
  }

  lemma {:induction false} FoldedFits(blocks: seq<Block>, c: Constants)
    ensures FitsInt64(blocks) ==> FitsInt64(FoldBlocks(blocks, c).0)
  {
    if blocks != [] {
      if FitsInt64(blocks) {
        assert blocks[0] in blocks && forall block | block in blocks[1..] :: block in blocks;
        FoldedInstsFit(blocks[0].insts, c);
      }
      FoldedFits(blocks[1..], FoldInsts(blocks[0].insts, c).1);
    }
  }

  lemma StrictIsDistinct(blocks: seq<Block>, entry: BlockId)
    requires Strict(blocks, entry)
    ensures DistinctAcross(blocks)
  {
    forall i, j, v | 0 <= i < j < |blocks| && Defines(blocks[i].insts, v)
      ensures !Defines(blocks[j].insts, v)
    {
      FindAt(blocks, i);
      FindAt(blocks, j);
      assert DefinedIn(blocks, blocks[j].id, v) <==> Defines(blocks[j].insts, v);
      assert DefinedIn(blocks, blocks[i].id, v);
    }
  }

  // ----- meaning -----

  /** The value a constant stands for in a variable of its width. */
  ghost function Meaning(m: Machine, v: Value, c: Constant): Val {
    match c
    case Int(n) => Word(Wrap(m.width(v), n))
    case Real(x) => Float(x)
  }

  /** Whatever the pass calls constant has that value once it is defined. */
  ghost predicate ConstantsHold(m: Machine, c: Constants, env: Store) {
    forall v | v in c && v in env :: env[v] == Meaning(m, v, c[v])
  }

  /** Integer operands are at least as wide as results, and no result is wider than 64 bits. */
  ghost predicate WidthsOk(m: Machine, blocks: seq<Block>) {
    forall block, k | block in blocks && k in block.insts && (k.IntAdd? || k.IntSub? || k.IntMul? || k.Neg?) ::
      m.width(k.dest) <= 64 && forall v | v in GetUses(k) :: m.width(k.dest) <= m.width(v)
  }

  /** With known operands, the folded literal is the value the instruction would have computed. */
  lemma FoldedComputes(m: Machine, k: Kind, f: Kind, c: Constants, env: Store, mem: Memory)
    requires FoldsTo(k, f, c) && ConstantsHold(m, c, env)
    requires forall v | v in GetUses(k) && v in c :: v in env
    requires k.IntAdd? || k.IntSub? || k.IntMul? || k.Neg? ==>
      m.width(k.dest) <= 64 && forall v | v in GetUses(k) :: m.width(k.dest) <= m.width(v)
    ensures GetDef(f) == GetDef(k)
    ensures k != f ==> Compute(m, f, env, mem) == Compute(m, k, env, mem)
    ensures !HasSideEffects(k) && GetDef(k).Some? && !k.Phi? && GetDef(k).value in c ==>
      Compute(m, k, env, mem) == Meaning(m, GetDef(k).value, c[GetDef(k).value])
  {
    if GetDef(k).Some? && GetDef(k).value in c {
      match k
      case IntAdd(d, l, r) =>
        assert l in GetUses(k) && r in GetUses(k);
        AddFolds(m.width(d), m.width(l), m.width(r), c[l].int64, c[r].int64);
      case IntSub(d, l, r) =>
        assert l in GetUses(k) && r in GetUses(k);
        SubFolds(m.width(d), m.width(l), m.width(r), c[l].int64, c[r].int64);
      case IntMul(d, l, r) =>
        assert l in GetUses(k) && r in GetUses(k);
        MulFolds(m.width(d), m.width(l), m.width(r), c[l].int64, c[r].int64);
      case FloatAdd(_, l, r) => assert l in GetUses(k) && r in GetUses(k);
      case Neg(d, s) =>
        assert s in GetUses(k);
        if c[s].Int? {
          NegFolds(m.width(d), m.width(s), c[s].int64);
        }
      case _ =>
    }
  }

  lemma AddFolds(w: nat, u: nat, v: nat, a: int, b: int)
    requires w <= u && w <= v && w <= 64
    ensures Wrap(w, Wrap(u, a) + Wrap(v, b)) == Wrap(w, Int64(a + b))
  {
    hide Wrap, Int64;
    WrapOfSum(w, Wrap(u, a), Wrap(v, b));
    WrapNarrow(w, u, a);
    WrapNarrow(w, v, b);
    WrapOfSum(w, a, b);
    WrapInt64(w, a + b);
  }

  lemma SubFolds(w: nat, u: nat, v: nat, a: int, b: int)
    requires w <= u && w <= v && w <= 64
    ensures Wrap(w, Wrap(u, a) - Wrap(v, b)) == Wrap(w, Int64(a - b))
  {
    hide Wrap, Int64;
    WrapOfSum(w, Wrap(u, a), Wrap(v, b));
    WrapNarrow(w, u, a);
    WrapNarrow(w, v, b);
    WrapOfSum(w, a, b);
    WrapInt64(w, a - b);
  }

  lemma MulFolds(w: nat, u: nat, v: nat, a: int, b: int)
    requires w <= u && w <= v && w <= 64
    ensures Wrap(w, Wrap(u, a) * Wrap(v, b)) == Wrap(w, Int64(a * b))
  {
    hide Wrap, Int64;
    WrapOfProduct(w, Wrap(u, a), Wrap(v, b));
    WrapNarrow(w, u, a);
    WrapNarrow(w, v, b);
    WrapOfProduct(w, a, b);
    WrapInt64(w, a * b);
  }

  lemma NegFolds(w: nat, u: nat, a: int)
    requires w <= u && w <= 64
    ensures Wrap(w, 0 - Wrap(u, a)) == Wrap(w, Int64(-a))
  {
    SubFolds(w, u, u, 0, a);
    assert Wrap(u, 0) == 0;
  }

  // ----- runs -----

  /** The store is ready for position i of a block: what the rest of the block may read and the
      pass calls constant has been computed. */
  ghost predicate Ready(blocks: seq<Block>, entry: BlockId, block: Block, i: nat, env: Store)
    requires i <= |block.insts|
  {
    && (forall j, v | 0 <= j < i && GetDef(block.insts[j]) == Some(v) :: v in env)
    && (forall k | k in block.insts && k.Phi? :: k.dest in env)
    && (forall d: BlockId, v | d != block.id && DefinedIn(blocks, d, v)
          && Dominates(SuccEdges(blocks), entry, d, block.id) :: v in env)
  }

  /** Performing an instruction makes its result ready for the next one. */
  lemma ReadyNext(m: Machine, blocks: seq<Block>, entry: BlockId, block: Block, i: nat, s: State)
    requires i < |block.insts| && !IsTerminator(block.insts[i]) && Ready(blocks, entry, block, i, s.env)
    ensures Ready(blocks, entry, block, i + 1, Perform(m, block.insts[i], s).env)
  {
  }

  lemma OperandsReady(blocks: seq<Block>, entry: BlockId, block: Block, c: Constants, i: nat, env: Store)
    requires UsesAvailable(blocks, entry, block) && i < |block.insts| && Ready(blocks, entry, block, i, env)
    requires forall v | v in c :: !Parameter(blocks, v)
    ensures forall v | v in GetUses(block.insts[i]) && v in c :: v in env
  {
  }

  lemma InstFolds(m: Machine, blocks: seq<Block>, entry: BlockId, block: Block, f: Kind, c: Constants, i: nat, s: State)
    requires UsesAvailable(blocks, entry, block) && WidthsOk(m, blocks) && block in blocks
    requires i < |block.insts| && FoldsTo(block.insts[i], f, c) && !IsTerminator(block.insts[i])
    requires forall v | v in c :: !Parameter(blocks, v)
    requires Ready(blocks, entry, block, i, s.env) && ConstantsHold(m, c, s.env)
    ensures Perform(m, f, s) == Perform(m, block.insts[i], s)
    ensures ConstantsHold(m, c, Perform(m, block.insts[i], s).env)
    ensures Ready(blocks, entry, block, i + 1, Perform(m, block.insts[i], s).env)
  {
    var k := block.insts[i];
    assert k in block.insts;
    OperandsReady(blocks, entry, block, c, i, s.env);
    ReadyNext(m, blocks, entry, block, i, s);
    FoldedComputes(m, k, f, c, s.env, s.mem);
    hide UsesAvailable, WidthsOk, Ready, Compute, Meaning;
    PerformFolds(m, k, f, c, s);
  }

  lemma PerformFolds(m: Machine, k: Kind, f: Kind, c: Constants, s: State)
    requires FoldsTo(k, f, c) && !IsTerminator(k) && ConstantsHold(m, c, s.env) && GetDef(f) == GetDef(k)
    requires k != f ==> Compute(m, f, s.env, s.mem) == Compute(m, k, s.env, s.mem)
    requires !HasSideEffects(k) && GetDef(k).Some? && !k.Phi? && GetDef(k).value in c ==>
      Compute(m, k, s.env, s.mem) == Meaning(m, GetDef(k).value, c[GetDef(k).value])
    ensures Perform(m, f, s) == Perform(m, k, s) && ConstantsHold(m, c, Perform(m, k, s).env)
  {
  }

  lemma {:induction false} ExecFolds(m: Machine, blocks: seq<Block>, entry: BlockId, block: Block, f: Block,
      c: Constants, i: nat, s: State)
    requires UsesAvailable(blocks, entry, block) && WidthsOk(m, blocks) && block in blocks && BlockFoldsTo(block, f, c)
    requires forall v | v in c :: !Parameter(blocks, v)
    requires i <= |block.insts| && Ready(blocks, entry, block, i, s.env) && ConstantsHold(m, c, s.env)
    ensures Exec(m, f.insts[i..], s) == Exec(m, block.insts[i..], s)
    ensures ConstantsHold(m, c, Exec(m, block.insts[i..], s).state.env)
    decreases |block.insts| - i
  {
    hide UsesAvailable, WidthsOk, Parameter, Ready, ConstantsHold, Perform;
    if i < |block.insts| {
      var k, g := block.insts[i], f.insts[i];
      assert block.insts[i..][1..] == block.insts[i + 1..] && f.insts[i..][1..] == f.insts[i + 1..];
      assert FoldsTo(k, g, c);
      if !IsTerminator(k) {
        InstFolds(m, blocks, entry, block, g, c, i, s);
        ExecFolds(m, blocks, entry, block, f, c, i + 1, Perform(m, k, s));
      }
    }
  }

  lemma {:induction false} BindPhisFolds(insts: seq<Kind>, f: seq<Kind>, c: Constants, from: Option<BlockId>,
      env: Store, bound: Store)
    requires |f| == |insts| && forall i | 0 <= i < |insts| :: FoldsTo(insts[i], f[i], c)
    ensures BindPhis(f, from, env, bound) == BindPhis(insts, from, env, bound)
    ensures forall v | v in c && v in BindPhis(insts, from, env, bound) ::
      v in bound && BindPhis(insts, from, env, bound)[v] == bound[v]
  {
    if insts != [] {
      assert FoldsTo(insts[0], f[0], c);
      var next := if insts[0].Phi? then bound[insts[0].dest := Incoming(insts[0].mappings, from, env)] else bound;
      BindPhisFolds(insts[1..], f[1..], c, from, env, next);
    }
  }

  lemma StepFolds(m: Machine, blocks: seq<Block>, entry: BlockId, block: Block, f: Block, c: Constants,
      from: Option<BlockId>, s: State)
    requires Strict(blocks, entry) && WidthsOk(m, blocks) && block in blocks && BlockFoldsTo(block, f, c)
    requires forall v | v in c :: !Parameter(blocks, v)
    requires ConstantsHold(m, c, s.env)
    requires forall d: BlockId, v | d != block.id && DefinedIn(blocks, d, v)
      && Dominates(SuccEdges(blocks), entry, d, block.id) :: v in s.env
    ensures RunBlock(m, f, from, s) == RunBlock(m, block, from, s)
    ensures ConstantsHold(m, c, RunBlock(m, block, from, s).state.env)
  {
    BindPhisFolds(block.insts, f.insts, c, from, s.env, s.env);
    BindPhisKeys(block.insts, from, s.env, s.env);
    var t := s.(env := BindPhis(block.insts, from, s.env, s.env));
    assert forall k | k in block.insts && k.Phi? :: k.dest in PhiDefs(block.insts);
    assert block.insts[0..] == block.insts && f.insts[0..] == f.insts;
    ExecFolds(m, blocks, entry, block, f, c, 0, t);
  }

  lemma {:induction false} FindFolded(blocks: seq<Block>, folded: seq<Block>, c: Constants, b: BlockId)
    requires |folded| == |blocks| && forall i | 0 <= i < |blocks| :: BlockFoldsTo(blocks[i], folded[i], c)
    ensures Find(blocks, b).Some? <==> Find(folded, b).Some?
    ensures Find(blocks, b).Some? ==> BlockFoldsTo(Find(blocks, b).value, Find(folded, b).value, c)
  {
    if blocks != [] {
      assert BlockFoldsTo(blocks[0], folded[0], c);
      FindFolded(blocks[1..], folded[1..], c, b);
    }
  }

  lemma ConstantsAreDefined(blocks: seq<Block>)
    requires UniqueIds(blocks)
    ensures forall v | v in FoldBlocks(blocks, map[]).1 :: !Parameter(blocks, v)
  {
    forall v | v in FoldBlocks(blocks, map[]).1
      ensures !Parameter(blocks, v)
    {
      FoldBlocksKeys(blocks, map[], v);
      var block :| block in blocks && Defines(block.insts, v);
      var i :| 0 <= i < |blocks| && blocks[i] == block;
      FindAt(blocks, i);
      assert DefinedIn(blocks, block.id, v);
    }
  }

  lemma PassFolds(blocks: seq<Block>, entry: BlockId, b: BlockId)
    requires Strict(blocks, entry)
    ensures var (folded, c) := FoldBlocks(blocks, map[]);
      && (forall v | v in c :: !Parameter(blocks, v))
      && (Find(blocks, b).Some? <==> Find(folded, b).Some?)
      && (Find(blocks, b).Some? ==> BlockFoldsTo(Find(blocks, b).value, Find(folded, b).value, c))
  {
    var (folded, c) := FoldBlocks(blocks, map[]);
    StrictIsDistinct(blocks, entry);
    FoldBlocksOk(blocks, map[], c);
    ConstantsAreDefined(blocks);
    FindFolded(blocks, folded, c, b);
  }

  /** Constant folding preserves runs at every width and for any block order: along any path the
      folded function takes the same steps, and every value the pass calls constant has the
      truncation of that constant whenever it is defined. */
  lemma {:induction false} RunsPreserved(m: Machine, blocks: seq<Block>, entry: BlockId, p: seq<BlockId>, s0: State)
    requires Strict(blocks, entry) && WidthsOk(m, blocks) && OnlyParameters(blocks, s0) && p != [] && p[0] == entry
    ensures var (folded, c) := FoldBlocks(blocks, map[]);
      && StepAt(m, folded, p, s0) == StepAt(m, blocks, p, s0)
      && (StepAt(m, blocks, p, s0).Some? ==> ConstantsHold(m, c, StepAt(m, blocks, p, s0).value.state.env))
    decreases |p|
  {
    hide FoldBlocks, WidthsOk, RunBlock, Strict;
    var b := p[|p| - 1];
    PassFolds(blocks, entry, b);
    var (folded, c) := FoldBlocks(blocks, map[]);
    if |p| > 1 {
      RunsPreserved(m, blocks, entry, p[..|p| - 1], s0);
    }
    if StepAt(m, blocks, p, s0).Some? {
      var from := if |p| == 1 then None else Some(p[|p| - 2]);
      var s := if |p| == 1 then s0 else StepAt(m, blocks, p[..|p| - 1], s0).value.state;
      DominatorsExecuted(m, blocks, entry, p, s0);
      StepFolds(m, blocks, entry, Find(blocks, b).value, Find(folded, b).value, c, from, s);
    }
  }

  /** When a run enters a block, the definitions in its strict dominators have been executed. */
  lemma DominatorsExecuted(m: Machine, blocks: seq<Block>, entry: BlockId, p: seq<BlockId>, s0: State)
    requires Strict(blocks, entry) && StepAt(m, blocks, p, s0).Some? && p[0] == entry
    ensures var b := p[|p| - 1];
      var s := if |p| == 1 then s0 else StepAt(m, blocks, p[..|p| - 1], s0).value.state;
      forall d: BlockId, v | d != b && DefinedIn(blocks, d, v)
        && Dominates(SuccEdges(blocks), entry, d, b) :: v in s.env
  {
    var b := p[|p| - 1];
    StepsAreWalks(m, blocks, entry, p, s0);
    forall d: BlockId, v | d != b && DefinedIn(blocks, d, v) && Dominates(SuccEdges(blocks), entry, d, b)
      ensures v in (if |p| == 1 then s0 else StepAt(m, blocks, p[..|p| - 1], s0).value.state).env
    {
      assert d in p && |p| > 1;
      DefinedAfter(m, blocks, p[..|p| - 1], s0, d, v);
    }
  }
}
