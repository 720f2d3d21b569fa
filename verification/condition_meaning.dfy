/** What the verifier's conditions say, without formulas: which edges, phis and equations an
    assignment has to respect. */
module ConditionMeaning {
  import opened Arithmetic
  import opened IR
  import opened Cfg
  import opened Reachability
  import opened Semantics
  import opened Conditions
  import opened Translation
  import L = LoopEquality

  // ----- functions the conditions are meant for -----

  ghost predicate DistinctTargets(k: Kind) {
    match k
    case Branch(_, t, f) => t != f
    case Match(_, cases, d, _) =>
      d !in cases.Values && forall x, y | x in cases && y in cases && cases[x] == cases[y] :: x == y
    case _ => true
  }

  /** Branch conditions are words of any width, match selectors bytes with byte tags. */
  ghost predicate TestsFit(sorts: Sorts, k: Kind) {
    match k
    case Branch(c, _, _) => c in sorts.words && sorts.width(c) > 0
    case Match(s, cases, _, _) => s in sorts.words && sorts.width(s) == 8 && forall tag | tag in cases :: tag < 256
    case _ => true
  }

  ghost predicate SameWidth(sorts: Sorts, d: Value, uses: seq<Value>) {
    d in sorts.words && forall v | v in uses :: v in sorts.words && sorts.width(v) == sorts.width(d)
  }

  ghost predicate AllFloats(sorts: Sorts, d: Value, uses: seq<Value>) {
    d in sorts.floats && forall v | v in uses :: v in sorts.floats
  }

  /** The operands of an instruction have the sorts its result asks for. */
  ghost predicate OperandsFit(sorts: Sorts, k: Kind) {
    match k
    case ConstInt(d, _) => d in sorts.words
    case ConstFloat(d, _) => d in sorts.floats
    case IntAdd(d, l, r) => SameWidth(sorts, d, [l, r])
    case IntSub(d, l, r) => SameWidth(sorts, d, [l, r])
    case IntMul(d, l, r) => SameWidth(sorts, d, [l, r])
    case FloatAdd(d, l, r) => AllFloats(sorts, d, [l, r])
    case Neg(d, s) => SameWidth(sorts, d, [s]) || AllFloats(sorts, d, [s])
    case Compare(d, cmp, l, r) =>
      && d in sorts.words && sorts.width(d) == 1
      && (SameWidth(sorts, l, [r]) || (!Unsigned(cmp) && AllFloats(sorts, l, [r])))
    case Phi(d, mappings) => forall p | p in mappings :: SameSort(sorts, d, mappings[p])
    case _ => true
  }

  ghost predicate WellTyped(sorts: Sorts, blocks: seq<Block>) {
    && sorts.words !! sorts.floats
    && forall block, k | block in blocks
      && k in block.insts :: DistinctTargets(k) && TestsFit(sorts, k) && OperandsFit(sorts, k)
  }

  /** Every phi has an operand for each edge into its block and no others. */
  ghost predicate PhisTotal(blocks: seq<Block>) {
    forall block, k | block in blocks && k in block.insts && k.Phi? ::
      forall p: BlockId :: p in k.mappings <==> (p, block.id) in KnownEdges(blocks)
  }

  /** A numbering along which all edges go up: the graph has no cycle. */
  ghost predicate Ranked(blocks: seq<Block>, rank: BlockId -> nat) {
    forall e | e in KnownEdges(blocks) :: rank(e.0) < rank(e.1)
  }

  // ----- single instructions -----

  /** The solver's bit-vector and float terms denote what the instruction computes. */
  lemma MeaningIsCompute(m: Machine, sorts: Sorts, k: Kind, env: Store, mem: Memory)
    requires OperandsFit(sorts, k) && Meaning(sorts, k).Some? && m.width == sorts.width && WellSorted(sorts, env)
    requires sorts.words !! sorts.floats
    ensures EvalTerm(sorts, env, Meaning(sorts, k).value) == Compute(m, k, env, mem)
  {
  }

  /** Solver and compiled code give a true comparison the same value exactly at a width of one bit: at
      any other the solver's is one, the compiled one has all bits set. */
  lemma MaskIsOneExactly(w: nat)
    ensures Mask(w, true) == Word(1) <==> w == 1
    ensures Mask(w, false) == Word(0)
  {
    if w > 1 {
      assert Pow2(w) == 2 * Pow2(w - 1) && Pow2(w - 1) == 2 * Pow2(w - 2);
      hide Pow2;
      MinusOne(Pow2(w));
    } else {
      assert Pow2(1) == 2 && Pow2(0) == 1;
    }
  }

  lemma MinusOne(p: nat)
    requires p > 0
    ensures (-1) % p == p - 1
  {
  }

  lemma TestMeans(sorts: Sorts, cmp: Cmp, l: Value, r: Value, a: Assignment)
    requires WellSorted(sorts, a.env) && sorts.words !! sorts.floats
    requires SameWidth(sorts, l, [r]) || (!Unsigned(cmp) && AllFloats(sorts, l, [r]))
    ensures var x, y := Get(a.env, l), Get(a.env, r);
      if x.Word? && y.Word?
        then Eval(sorts, a, CompareTest(cmp, l, r)) <==> Compares(cmp, sorts.width(l), x.bits, y.bits)
      else x.Float? && y.Float? && (Eval(sorts, a, CompareTest(cmp, l, r)) <==> FloatCompares(cmp, x.num, y.num))
  {
    hide Signed;
    assert r in [r];
  }

  lemma CompareMeans(m: Machine, sorts: Sorts, k: Kind, a: Assignment, mem: Memory)
    requires k.Compare? && OperandsFit(sorts, k) && m.width == sorts.width && WellSorted(sorts, a.env)
    requires sorts.words !! sorts.floats
    ensures Eval(sorts, a, CompareDefinition(sorts, k.dest, k.cmp, k.lhs, k.rhs)) <==>
      Get(a.env, k.dest) == Compute(m, k, a.env, mem)
  {
    TestMeans(sorts, k.cmp, k.lhs, k.rhs, a);
    MaskIsOneExactly(1);
    var test := CompareTest(k.cmp, k.lhs, k.rhs);
    var one, zero := Equal(Sym(k.dest), Bits(1, 1)), Equal(Sym(k.dest), Bits(1, 0));
    assert Pow2(1) == 2;
    assert Eval(sorts, a, one) <==> Get(a.env, k.dest) == Word(1);
    assert Eval(sorts, a, zero) <==> Get(a.env, k.dest) == Word(0);
    hide CompareTest, Compares, FloatCompares, WellSorted;
    assert Eval(sorts, a, Not(test)) <==> !Eval(sorts, a, test);
    assert Eval(sorts, a, Implies(test, one)) <==> (Eval(sorts, a, test) ==> Eval(sorts, a, one));
    assert Eval(sorts, a, Implies(Not(test), zero)) <==> (!Eval(sorts, a, test) ==> Eval(sorts, a, zero));
    assert Eval(sorts, a, And(Implies(test, one), Implies(Not(test), zero)))
      <==> (Eval(sorts, a, test) ==> Eval(sorts, a, one)) && (!Eval(sorts, a, test) ==> Eval(sorts, a, zero));
  }

  /** What is asserted for an interpreted instruction holds exactly when its result is what it computes. */
  lemma DefinitionMeans(m: Machine, sorts: Sorts, k: Kind, a: Assignment, mem: Memory)
    requires OperandsFit(sorts, k) && Definition(sorts, k).Some? && m.width == sorts.width && WellSorted(sorts, a.env)
    requires sorts.words !! sorts.floats
    ensures Eval(sorts, a, Definition(sorts, k).value) <==> Get(a.env, GetDef(k).value) == Compute(m, k, a.env, mem)
  {
    if k.Compare? {
      CompareMeans(m, sorts, k, a, mem);
    } else {
      MeaningIsCompute(m, sorts, k, a.env, mem);
    }
  }

  /** The instructions with an equation, whenever their operands fit. */
  lemma InterpretedExactly(sorts: Sorts, k: Kind)
    requires OperandsFit(sorts, k)
    ensures Definition(sorts, k).Some? <==>
      k.ConstInt? || k.ConstFloat? || k.IntAdd? || k.IntSub? || k.IntMul? || k.FloatAdd? || k.Neg? || k.Compare?
  {
    match k
    case IntAdd(_, l, r) => assert l in [l, r] && r in [l, r];
    case IntSub(_, l, r) => assert l in [l, r] && r in [l, r];
    case IntMul(_, l, r) => assert l in [l, r] && r in [l, r];
    case FloatAdd(_, l, r) => assert l in [l, r] && r in [l, r];
    case Neg(_, v) => assert v in [v];
    case Compare(_, _, _, r) => assert r in [r];
    case _ =>
  }

  lemma SmallWrap(w: nat, n: nat)
    requires n < Pow2(w)
    ensures Wrap(w, n) == n
  {
    hide Pow2;
    SmallMod(n, Pow2(w));
  }

  lemma SmallMod(n: nat, p: nat)
    requires n < p
    ensures n % p == n
  {
  }

  /** The verifier's branch test and the compiled test for non-zero pick the same edge exactly for
      the conditions zero and one. */
  lemma BranchTestAgrees(sorts: Sorts, cond: Value, a: Assignment, t: BlockId, f: BlockId)
    requires Get(a.env, cond).Word? && t != f && sorts.width(cond) > 0
    ensures var c := Get(a.env, cond).bits;
      (Eval(sorts, a, BranchTest(sorts, cond)) <==> Leave(Branch(cond, t, f), a.env) == Goto(t)) <==> (c == 0 || c == 1)
  {
  }

  /** A case's tag test at eight bits is the compiled comparison exactly for tags below 256, as long as
      the selector is a byte. */
  lemma TagTestAgrees(sorts: Sorts, selector: Value, tag: nat)
    ensures (forall a: Assignment | Get(a.env, selector).Word? && Get(a.env, selector).bits < 256 ::
      Eval(sorts, a, TagTest(selector, tag)) <==> Get(a.env, selector).bits == tag) <==> tag < 256
  {
    assert Pow2(8) == 256;
    if tag >= 256 {
      var a := Assignment({}, {}, map[selector := Word(tag % 256)]);
      assert Eval(sorts, a, TagTest(selector, tag)) && Get(a.env, selector).bits != tag;
    } else {
      SmallWrap(8, tag);
    }
  }

  /** Where the verifier sees a terminator go: a branch is taken when its condition is one. */
  function Seen(k: Kind, env: Store): Exit {
    if k.Branch? && Get(env, k.cond).Word? then Goto(if Get(env, k.cond).bits == 1 then k.ifTrue else k.ifFalse)
    else Leave(k, env)
  }

  /** A branch condition is zero or one, whatever its width. */
  ghost predicate BooleanTest(k: Kind, env: Store) {
    k.Branch? ==> Get(env, k.cond) == Word(0) || Get(env, k.cond) == Word(1)
  }

  ghost predicate BlockTests(block: Block, env: Store) {
    forall k | k in block.insts :: BooleanTest(k, env)
  }

  /** In every block that is on, branch conditions are zero or one. */
  ghost predicate BooleanTests(blocks: seq<Block>, a: Assignment) {
    forall block | block in blocks && block.id in a.blocks :: BlockTests(block, a.env)
  }

  // ----- a whole function -----

  /** Where a block sends control when its values are those of the store. */
  function ExitOf(block: Block, env: Store): Exit {
    if block.insts == [] || !IsTerminator(block.insts[|block.insts| - 1]) then FallsOff
    else Leave(block.insts[|block.insts| - 1], env)
  }

  ghost predicate EdgesFollow(block: Block, a: Assignment) {
    forall t | t in EdgeTargets(block) ::
      (block.id, t) in a.edges <==> block.id in a.blocks && ExitOf(block, a.env) == Goto(t)
  }

  ghost predicate BlockFollows(blocks: seq<Block>, entry: BlockId, b: BlockId, a: Assignment) {
    b in a.blocks <==> b == entry || exists p: BlockId :: (p, b) in KnownEdges(blocks) && (p, b) in a.edges
  }

  ghost predicate PhiFollows(b: BlockId, k: Kind, a: Assignment) {
    k.Phi? ==> forall p | p in k.mappings && (p, b) in a.edges :: Get(a.env, k.dest) == Get(a.env, k.mappings[p])
  }

  ghost predicate EquationFollows(m: Machine, sorts: Sorts, b: BlockId, k: Kind, a: Assignment, mem: Memory) {
    b in a.blocks && Definition(sorts, k).Some? ==> Get(a.env, GetDef(k).value) == Compute(m, k, a.env, mem)
  }

  /** The assignment behaves like a run: control follows the terminators, phis take the operand of the
      edge that is on, interpreted instructions compute their results. */
  ghost predicate Coherent(m: Machine, sorts: Sorts, blocks: seq<Block>, entry: BlockId, a: Assignment, mem: Memory) {
    && (forall block | block in blocks :: BlockFollows(blocks, entry, block.id, a) && EdgesFollow(block, a))
    && (forall block, k | block in blocks
      && k in block.insts :: PhiFollows(block.id, k, a) && EquationFollows(m, sorts, block.id, k, a, mem))
  }

  lemma BlockAssertionMeans(sorts: Sorts, blocks: seq<Block>, entry: BlockId, b: BlockId, a: Assignment)
    ensures Eval(sorts, a, BlockAssertion(KnownEdges(blocks), entry, b)) <==> BlockFollows(blocks, entry, b, a)
  {
    hide KnownEdges;
    var edges := KnownEdges(blocks);
    var incoming := EdgesInto(edges, b);
    var vars := EdgeVars(incoming);
    assert Eval(sorts, a, Or(vars)) <==> exists p: BlockId :: (p, b) in edges && (p, b) in a.edges by {
      if g :| g in vars && Eval(sorts, a, g) {
        var e :| e in incoming && g == OnEdge(e.0, e.1);
        assert (e.0, b) in edges && (e.0, b) in a.edges;
      }
      if p: BlockId :| (p, b) in edges && (p, b) in a.edges {
        assert (p, b) in incoming && OnEdge(p, b) in vars;
        assert Eval(sorts, a, OnEdge(p, b));
      }
    }
    if incoming == {} {
      forall p: BlockId
        ensures (p, b) !in edges
      {
        assert (p, b) in edges ==> (p, b) in incoming;
      }
    }
  }

  lemma CaseMeans(sorts: Sorts, s: Value, cases: map<nat, BlockId>, tag: nat, a: Assignment)
    requires tag in cases && tag < 256 && Get(a.env, s).Word?
    ensures Eval(sorts, a, TagTest(s, tag)) <==> Get(a.env, s).bits == tag
  {
  }

  lemma DefaultMeans(sorts: Sorts, b: BlockId, s: Value, cases: map<nat, BlockId>, a: Assignment)
    requires (forall tag | tag in cases :: tag < 256) && Get(a.env, s).Word?
    ensures Eval(sorts, a, DefaultTest(b, s, cases.Keys)) <==> b in a.blocks && Get(a.env, s).bits !in cases
  {
    var tests := TagTests(s, cases.Keys);
    assert Eval(sorts, a, Or(tests)) <==> Get(a.env, s).bits in cases by {
      if g :| g in tests && Eval(sorts, a, g) {
        var tag :| tag in cases && g == TagTest(s, tag);
        CaseMeans(sorts, s, cases, tag, a);
      }
      if Get(a.env, s).bits in cases {
        CaseMeans(sorts, s, cases, Get(a.env, s).bits, a);
        assert TagTest(s, Get(a.env, s).bits) in tests;
      }
    }
  }

  /** Of the edges out of b only the one to the goal may be on, and is if b is. */
  ghost predicate OnlyEdge(b: BlockId, t: BlockId, goal: BlockId, a: Assignment) {
    (b, t) in a.edges <==> b in a.blocks && t == goal
  }

  lemma CaseAssertionMeans(sorts: Sorts, b: BlockId, s: Value, cases: map<nat, BlockId>, d: BlockId, tag: nat,
      a: Assignment)
    requires Get(a.env, s).Word? && tag in cases && tag < 256
    requires d !in cases.Values && forall x, y | x in cases && y in cases && cases[x] == cases[y] :: x == y
    ensures var c := Get(a.env, s).bits;
      Eval(sorts, a, Iff(OnEdge(b, cases[tag]), And(OnBlock(b), TagTest(s, tag)))) <==>
        OnlyEdge(b, cases[tag], if c in cases then cases[c] else d, a)
  {
    CaseMeans(sorts, s, cases, tag, a);
    hide TagTest;
    assert cases[tag] in cases.Values;
    assert Eval(sorts, a, And(OnBlock(b), TagTest(s, tag))) <==> b in a.blocks && Get(a.env, s).bits == tag;
  }

  lemma CasesMean(sorts: Sorts, b: BlockId, s: Value, cases: map<nat, BlockId>, d: BlockId, a: Assignment)
    requires Get(a.env, s).Word? && forall tag | tag in cases :: tag < 256
    requires d !in cases.Values && forall x, y | x in cases && y in cases && cases[x] == cases[y] :: x == y
    ensures var c := Get(a.env, s).bits;
      (forall f | f in CaseAssertions(b, s, cases, cases.Keys) :: Eval(sorts, a, f))
        <==> (forall t | t in cases.Values :: OnlyEdge(b, t, if c in cases then cases[c] else d, a))
  {
    var goal := if Get(a.env, s).bits in cases then cases[Get(a.env, s).bits] else d;
    forall tag | tag in cases {
      CaseAssertionMeans(sorts, b, s, cases, d, tag, a);
    }
    hide OnlyEdge, TagTest, Eval;
    if forall f | f in CaseAssertions(b, s, cases, cases.Keys) :: Eval(sorts, a, f) {
      forall t | t in cases.Values
        ensures OnlyEdge(b, t, goal, a)
      {
        var tag :| tag in cases && cases[tag] == t;
        assert Iff(OnEdge(b, cases[tag]), And(OnBlock(b), TagTest(s, tag))) in CaseAssertions(b, s, cases, cases.Keys);
      }
    }
    if forall t | t in cases.Values :: OnlyEdge(b, t, goal, a) {
      forall f | f in CaseAssertions(b, s, cases, cases.Keys)
        ensures Eval(sorts, a, f)
      {
        var tag :| tag in cases && f == Iff(OnEdge(b, cases[tag]), And(OnBlock(b), TagTest(s, tag)));
        assert cases[tag] in cases.Values;
      }
    }
  }

  lemma MatchMeans(sorts: Sorts, b: BlockId, s: Value, cases: map<nat, BlockId>, d: BlockId, a: Assignment)
    requires Get(a.env, s).Word? && forall tag | tag in cases :: tag < 256
    requires d !in cases.Values && forall x, y | x in cases && y in cases && cases[x] == cases[y] :: x == y
    ensures var c := Get(a.env, s).bits;
      (forall f | f in CaseAssertions(b, s, cases, cases.Keys) + {Iff(OnEdge(b, d), DefaultTest(b, s, cases.Keys))} ::
        Eval(sorts, a, f))
        <==> (forall t | t in cases.Values + {d} :: OnlyEdge(b, t, if c in cases then cases[c] else d, a))
  {
    var c := Get(a.env, s).bits;
    DefaultMeans(sorts, b, s, cases, a);
    CasesMean(sorts, b, s, cases, d, a);
    hide DefaultTest, CaseAssertions;
    var fs := CaseAssertions(b, s, cases, cases.Keys);
    var last := Iff(OnEdge(b, d), DefaultTest(b, s, cases.Keys));
    assert c in cases ==> cases[c] in cases.Values;
    assert Eval(sorts, a, last) <==> OnlyEdge(b, d, if c in cases then cases[c] else d, a);
    hide Eval, OnlyEdge;
    assert last in fs + {last} && d in cases.Values + {d};
    assert (forall f | f in fs + {last} :: Eval(sorts, a, f))
      <==> (forall f | f in fs :: Eval(sorts, a, f)) && Eval(sorts, a, last);
  }

  lemma OneIsOne(w: nat)
    requires w > 0
    ensures Wrap(w, 1) == 1
  {
    assert Pow2(w) == 2 * Pow2(w - 1);
    hide Pow2;
    SmallWrap(w, 1);
  }

  lemma BranchMeans(sorts: Sorts, b: BlockId, c: Value, t: BlockId, f: BlockId, a: Assignment)
    requires t != f && c in sorts.words && sorts.width(c) > 0 && WellSorted(sorts, a.env)
    ensures var x, y := Iff(OnEdge(b, t), And(OnBlock(b), BranchTest(sorts, c))),
      Iff(OnEdge(b, f), And(OnBlock(b), Not(BranchTest(sorts, c))));
      && (Eval(sorts, a, x) <==> ((b, t) in a.edges <==> b in a.blocks && Seen(Branch(c, t, f), a.env) == Goto(t)))
      && (Eval(sorts, a, y) <==> ((b, f) in a.edges <==> b in a.blocks && Seen(Branch(c, t, f), a.env) == Goto(f)))
  {
    OneIsOne(sorts.width(c));
    hide Pow2, Wrap;
    var test := BranchTest(sorts, c);
    assert Eval(sorts, a, test) <==> Get(a.env, c).bits == 1;
    assert Eval(sorts, a, Not(test)) <==> Get(a.env, c).bits != 1;
    assert Eval(sorts, a, And(OnBlock(b), test)) <==> b in a.blocks && Get(a.env, c).bits == 1;
    assert Eval(sorts, a, And(OnBlock(b), Not(test))) <==> b in a.blocks && Get(a.env, c).bits != 1;
  }

  /** Of the edges of terminator k of block b exactly those the verifier sees taken are on. */
  ghost predicate EdgesSeen(b: BlockId, k: Kind, a: Assignment) {
    forall t | t in Targets(k) :: (b, t) in a.edges <==> b in a.blocks && Seen(k, a.env) == Goto(t)
  }

  ghost predicate EdgesTaken(b: BlockId, k: Kind, a: Assignment) {
    forall t | t in Targets(k) :: (b, t) in a.edges <==> b in a.blocks && Leave(k, a.env) == Goto(t)
  }

  lemma BranchAssertionsMean(sorts: Sorts, blocks: seq<Block>, succs: Successors, b: BlockId, k: Kind, a: Assignment)
    requires k.Branch? && DistinctTargets(k) && TestsFit(sorts, k) && WellSorted(sorts, a.env)
    ensures (forall f | f in Assertions(sorts, blocks, succs, b, k) :: Eval(sorts, a, f)) <==> EdgesSeen(b, k, a)
  {
    BranchMeans(sorts, b, k.cond, k.ifTrue, k.ifFalse, a);
    hide Eval, BranchTest, Seen, WellSorted;
  }

  lemma TerminatorMeans(sorts: Sorts, blocks: seq<Block>, succs: Successors, b: BlockId, k: Kind, a: Assignment)
    requires IsTerminator(k) && DistinctTargets(k) && TestsFit(sorts, k) && WellSorted(sorts, a.env)
    ensures (forall f | f in Assertions(sorts, blocks, succs, b, k) :: Eval(sorts, a, f)) <==> EdgesSeen(b, k, a)
  {
    match k
    case Branch(_, _, _) => BranchAssertionsMean(sorts, blocks, succs, b, k, a);
    case Jump(t) =>
      assert Assertions(sorts, blocks, succs, b, k) == {Iff(OnEdge(b, t), OnBlock(b))};
    case Match(s, cases, d, _) =>
      MatchMeans(sorts, b, s, cases, d, a);
      hide Eval, CaseAssertions, DefaultTest;
    case _ =>
  }

  /** What the verifier sees is what happens exactly when the block is off or its branch condition is
      zero or one. */
  lemma SeenIsTaken(sorts: Sorts, b: BlockId, k: Kind, a: Assignment)
    requires IsTerminator(k) && DistinctTargets(k) && TestsFit(sorts, k) && WellSorted(sorts, a.env)
    ensures (b in a.blocks ==> BooleanTest(k, a.env)) ==> (EdgesSeen(b, k, a) <==> EdgesTaken(b, k, a))
    ensures EdgesSeen(b, k, a) && EdgesTaken(b, k, a) ==> b in a.blocks ==> BooleanTest(k, a.env)
  {
    if k.Branch? {
      assert k.ifTrue in Targets(k);
    }
  }

  // ----- phis and equations -----

  lemma {:induction false} RankGrows(blocks: seq<Block>, rank: BlockId -> nat, succs: Successors, p: seq<BlockId>)
    requires Ranked(blocks, rank) && Represents(succs, blocks) && IsPath(EdgesIn(succs), p)
    ensures rank(p[0]) <= rank(p[|p| - 1])
    decreases |p|
  {
    if |p| > 1 {
      RankGrows(blocks, rank, succs, p[..|p| - 1]);
      assert (p[|p| - 2], p[|p| - 1]) in KnownEdges(blocks);
    }
  }

  lemma NoCycle(blocks: seq<Block>, rank: BlockId -> nat, succs: Successors, p: BlockId, b: BlockId)
    requires Ranked(blocks, rank) && Represents(succs, blocks) && (p, b) in KnownEdges(blocks)
    ensures !Reaches(succs, b, p) && Reaches(succs, p, b)
  {
    assert (p, b) in EdgesIn(succs);
    assert Walk(EdgesIn(succs), p, [p, b], b) by {
      assert [p, b][..1] == [p];
    }
    if Reaches(succs, b, p) {
      var w :| Walk(EdgesIn(succs), b, w, p);
      RankGrows(blocks, rank, succs, w);
    }
  }

  /** The operand p brings is the phi's if the edge from p is on. */
  ghost predicate Bound(b: BlockId, k: Kind, p: BlockId, a: Assignment)
    requires k.Phi? && p in k.mappings
  {
    (p, b) in a.edges ==> Get(a.env, k.dest) == Get(a.env, k.mappings[p])
  }

  /** What the verifier sees of a phi at a loop header: the block is entered by an edge from outside the
      loops it heads, where it has one, the phi is bound along those edges, and it equals the earlier phis
      that the detector accepts. */
  ghost predicate HeaderPhiSeen(sorts: Sorts, blocks: seq<Block>, succs: Successors, block: Block, k: Kind,
      a: Assignment)
    requires k.Phi?
  {
    && (block.id in a.blocks && (exists p | p in k.mappings :: !Reaches(succs, block.id, p)) ==>
          exists p | p in k.mappings && !Reaches(succs, block.id, p) :: (p, block.id) in a.edges)
    && (forall p | p in k.mappings && !Reaches(succs, block.id, p) :: Bound(block.id, k, p, a))
    && (block.id in a.blocks ==>
      forall other | other in block.insts && KeptEqual(sorts, blocks, succs, block.id, k, other) ::
          Get(a.env, k.dest) == Get(a.env, other.dest))
  }

  /** An earlier phi that the detector accepts. */
  ghost predicate KeptEqual(sorts: Sorts, blocks: seq<Block>, succs: Successors, b: BlockId, k: Kind, other: Kind)
    requires k.Phi?
  {
    && other.Phi? && other.dest < k.dest && k.dest in sorts.words && other.dest in sorts.words
    && L.Accepts(blocks, succs, b, k.dest, k.mappings, other.dest, other.mappings)
  }

  /** A phi that no walk from its block comes back to is bound along all edges that lead there. */
  ghost predicate PhiSeen(sorts: Sorts, blocks: seq<Block>, succs: Successors, block: Block, k: Kind, a: Assignment) {
    k.Phi? ==>
      if exists p | p in k.mappings :: Reaches(succs, block.id, p) then
        HeaderPhiSeen(sorts, blocks, succs, block, k, a)
      else forall p | p in k.mappings && Reaches(succs, p, block.id) :: Bound(block.id, k, p, a)
  }

  lemma PhiEquationsMean(sorts: Sorts, b: BlockId, k: Kind, preds: set<BlockId>, a: Assignment)
    requires k.Phi? && preds <= k.mappings.Keys && OperandsFit(sorts, k)
    ensures (forall f | f in PhiEquations(sorts, b, k.dest, k.mappings, preds) :: Eval(sorts, a, f))
      <==> forall p | p in preds :: Bound(b, k, p, a)
  {
    var fs := PhiEquations(sorts, b, k.dest, k.mappings, preds);
    forall p | p in preds
      ensures Eval(sorts, a, Implies(OnEdge(p, b), Equal(Sym(k.dest), Sym(k.mappings[p])))) <==> Bound(b, k, p, a)
      ensures Implies(OnEdge(p, b), Equal(Sym(k.dest), Sym(k.mappings[p]))) in fs
    {
    }
    hide Eval, Bound;
  }

  lemma EnteredMeans(sorts: Sorts, b: BlockId, preds: set<BlockId>, a: Assignment)
    ensures Eval(sorts, a, Implies(OnBlock(b), Or(EdgeVarsInto(b, preds))))
      <==> (b in a.blocks ==> exists p | p in preds :: (p, b) in a.edges)
  {
    var vars := EdgeVarsInto(b, preds);
    if g :| g in vars && Eval(sorts, a, g) {
      var p :| p in preds && g == OnEdge(p, b);
      assert (p, b) in a.edges;
    }
    if p :| p in preds && (p, b) in a.edges {
      assert OnEdge(p, b) in vars && Eval(sorts, a, OnEdge(p, b));
    }
    assert Eval(sorts, a, Or(vars)) <==> exists p | p in preds :: (p, b) in a.edges;
  }

  lemma EqualPhisMean(sorts: Sorts, blocks: seq<Block>, succs: Successors, block: Block, k: Kind, a: Assignment)
    requires UniqueIds(blocks) && block in blocks && k.Phi?
    ensures (forall f | f in EqualPhiAssertions(k.dest, block.id,
        EqualPhis(sorts, blocks, succs, block.id, k.dest, k.mappings)) :: Eval(sorts, a, f))
      <==> (block.id in a.blocks ==>
        forall other | other in block.insts && KeptEqual(sorts, blocks, succs, block.id, k, other) ::
          Get(a.env, k.dest) == Get(a.env, other.dest))
  {
    var i :| 0 <= i < |blocks| && blocks[i] == block;
    FindAt(blocks, i);
    var phis := EqualPhis(sorts, blocks, succs, block.id, k.dest, k.mappings);
    assert forall other ::
      other in phis <==> other in block.insts && KeptEqual(sorts, blocks, succs, block.id, k, other);
    hide EqualPhis, KeptEqual;
    var fs := EqualPhiAssertions(k.dest, block.id, phis);
    forall other | other in phis
      ensures Implies(OnBlock(block.id), Equal(Sym(k.dest), Sym(other.dest))) in fs
      ensures Eval(sorts, a, Implies(OnBlock(block.id), Equal(Sym(k.dest), Sym(other.dest))))
        <==> (block.id in a.blocks ==> Get(a.env, k.dest) == Get(a.env, other.dest))
    {
    }
    hide Eval;
  }

  /** An edge from outside is on, if the block is on and there is one. */
  lemma EntryMeans(sorts: Sorts, succs: Successors, b: BlockId, k: Kind, a: Assignment)
    requires k.Phi?
    ensures var entries := EntryEdges(succs, b, k.mappings);
      (entries == {} || Eval(sorts, a, Implies(OnBlock(b), Or(EdgeVarsInto(b, entries)))))
        <==> (b in a.blocks && (exists p | p in k.mappings :: !Reaches(succs, b, p)) ==>
          exists p | p in k.mappings && !Reaches(succs, b, p) :: (p, b) in a.edges)
  {
    var entries := EntryEdges(succs, b, k.mappings);
    EnteredMeans(sorts, b, entries, a);
    hide Eval, Reaches, EdgeVarsInto;
    if p :| p in k.mappings && !Reaches(succs, b, p) {
      assert p in entries;
    }
  }

  ghost predicate AllHold(sorts: Sorts, a: Assignment, fs: set<Formula>) {
    forall f | f in fs :: Eval(sorts, a, f)
  }

  lemma AllOfUnion(sorts: Sorts, a: Assignment, x: set<Formula>, y: set<Formula>, z: set<Formula>)
    ensures AllHold(sorts, a, x + y + z) <==> AllHold(sorts, a, x) && AllHold(sorts, a, y) && AllHold(sorts, a, z)
  {
    hide Eval;
  }

  lemma HeaderPhiMeans(sorts: Sorts, blocks: seq<Block>, succs: Successors, block: Block, k: Kind, a: Assignment)
    requires UniqueIds(blocks) && block in blocks && k.Phi? && OperandsFit(sorts, k)
    requires LoopHeader(succs, block.id, k.mappings)
    ensures AllHold(sorts, a, PhiAssertions(sorts, blocks, succs, block.id, k.dest, k.mappings)) <==>
      HeaderPhiSeen(sorts, blocks, succs, block, k, a)
  {
    hide Eval, Bound, KeptEqual, EqualPhis, EqualPhiAssertions, PhiEquations, EdgeVarsInto, OperandsFit, Reaches,
      UniqueIds;
    var entries := EntryEdges(succs, block.id, k.mappings);
    EntryMeans(sorts, succs, block.id, k, a);
    PhiEquationsMean(sorts, block.id, k, entries, a);
    EqualPhisMean(sorts, blocks, succs, block, k, a);
    var or := Implies(OnBlock(block.id), Or(EdgeVarsInto(block.id, entries)));
    var entered: set<Formula> := if entries == {} then {} else {or};
    var bound := PhiEquations(sorts, block.id, k.dest, k.mappings, entries);
    var equal := EqualPhiAssertions(k.dest, block.id, EqualPhis(sorts, blocks, succs, block.id, k.dest, k.mappings));
    assert PhiAssertions(sorts, blocks, succs, block.id, k.dest, k.mappings) == entered + bound + equal;
    hide LoopHeader, PhiAssertions;
    AllOfUnion(sorts, a, entered, bound, equal);
    assert AllHold(sorts, a, entered) <==> entries == {} || Eval(sorts, a, or);
    assert AllHold(sorts, a, bound) <==> forall p | p in entries :: Bound(block.id, k, p, a);
    assert (forall p | p in entries :: Bound(block.id, k, p, a))
      <==> forall p | p in k.mappings && !Reaches(succs, block.id, p) :: Bound(block.id, k, p, a);
    hide AllHold, EntryEdges;
  }

  /** The assertions for a phi hold exactly when the assignment respects what the verifier sees of it,
      cycles included. */
  lemma PhiMeans(sorts: Sorts, blocks: seq<Block>, succs: Successors, block: Block, k: Kind, a: Assignment)
    requires UniqueIds(blocks) && block in blocks && k.Phi? && OperandsFit(sorts, k)
    ensures (forall f | f in Assertions(sorts, blocks, succs, block.id, k) :: Eval(sorts, a, f)) <==>
      PhiSeen(sorts, blocks, succs, block, k, a)
  {
    if LoopHeader(succs, block.id, k.mappings) {
      hide Eval, HeaderPhiSeen, PhiAssertions, OperandsFit, Reaches, UniqueIds;
      HeaderPhiMeans(sorts, blocks, succs, block, k, a);
      assert Assertions(sorts, blocks, succs, block.id, k)
        == PhiAssertions(sorts, blocks, succs, block.id, k.dest, k.mappings);
      assert AllHold(sorts, a, Assertions(sorts, blocks, succs, block.id, k))
        <==> HeaderPhiSeen(sorts, blocks, succs, block, k, a);
    } else {
      var live := LiveEdges(succs, block.id, k.mappings);
      PhiEquationsMean(sorts, block.id, k, live, a);
      hide Eval, Bound, HeaderPhiSeen, PhiEquations, OperandsFit, Reaches, UniqueIds;
      assert PhiAssertions(sorts, blocks, succs, block.id, k.dest, k.mappings)
        == PhiEquations(sorts, block.id, k.dest, k.mappings, live);
    }
  }

  /** Without cycles that is to follow every edge that is on. */
  lemma PhiSeenFollows(sorts: Sorts, blocks: seq<Block>, rank: BlockId -> nat, succs: Successors, block: Block, k: Kind,
      a: Assignment)
    requires Ranked(blocks, rank) && Represents(succs, blocks) && PhisTotal(blocks)
    requires block in blocks && k in block.insts
    ensures PhiSeen(sorts, blocks, succs, block, k, a) <==> PhiFollows(block.id, k, a)
  {
    if k.Phi? {
      forall p | p in k.mappings
        ensures !Reaches(succs, block.id, p) && Reaches(succs, p, block.id)
      {
        assert (p, block.id) in KnownEdges(blocks);
        NoCycle(blocks, rank, succs, p, block.id);
      }
    }
    hide Reaches, KnownEdges, HeaderPhiSeen;
  }

  lemma EquationMeans(m: Machine, sorts: Sorts, blocks: seq<Block>, succs: Successors, b: BlockId, k: Kind,
      a: Assignment, mem: Memory)
    requires OperandsFit(sorts, k) && m.width == sorts.width && WellSorted(sorts, a.env) && sorts.words !! sorts.floats
    requires !IsTerminator(k) && !k.Phi?
    ensures (forall f | f in Assertions(sorts, blocks, succs, b, k) :: Eval(sorts, a, f)) <==>
      EquationFollows(m, sorts, b, k, a, mem)
  {
    if Definition(sorts, k).Some? {
      DefinitionMeans(m, sorts, k, a, mem);
      var f := Implies(OnBlock(b), Definition(sorts, k).value);
      assert Assertions(sorts, blocks, succs, b, k) == {f};
      assert Eval(sorts, a, f) <==> EquationFollows(m, sorts, b, k, a, mem);
    }
  }

  lemma NonTerminatorFollows(m: Machine, sorts: Sorts, b: BlockId, k: Kind, a: Assignment, mem: Memory)
    ensures k.Phi? || IsTerminator(k) ==> EquationFollows(m, sorts, b, k, a, mem)
  {
  }

  /** One instruction, as the verifier sees it. */
  ghost predicate InstructionSeen(m: Machine, sorts: Sorts, blocks: seq<Block>, succs: Successors, block: Block,
      k: Kind, a: Assignment, mem: Memory) {
    && PhiSeen(sorts, blocks, succs, block, k, a) && EquationFollows(m, sorts, block.id, k, a, mem)
    && (IsTerminator(k) ==> EdgesSeen(block.id, k, a))
  }

  lemma InstructionMeans(m: Machine, sorts: Sorts, blocks: seq<Block>, succs: Successors, block: Block, k: Kind,
      a: Assignment, mem: Memory)
    requires WellTyped(sorts, blocks) && UniqueIds(blocks)
    requires m.width == sorts.width && WellSorted(sorts, a.env) && block in blocks && k in block.insts
    ensures (forall f | f in Assertions(sorts, blocks, succs, block.id, k) :: Eval(sorts, a, f))
      <==> InstructionSeen(m, sorts, blocks, succs, block, k, a, mem)
  {
    NonTerminatorFollows(m, sorts, block.id, k, a, mem);
    if IsTerminator(k) {
      TerminatorMeans(sorts, blocks, succs, block.id, k, a);
    } else if k.Phi? {
      PhiMeans(sorts, blocks, succs, block, k, a);
    } else {
      EquationMeans(m, sorts, blocks, succs, block.id, k, a, mem);
    }
  }

  /** Edges, phis and equations of the whole function, as the verifier sees them. */
  ghost predicate CoherentSeen(m: Machine, sorts: Sorts, blocks: seq<Block>, entry: BlockId, succs: Successors,
      a: Assignment, mem: Memory) {
    && (forall block | block in blocks :: BlockFollows(blocks, entry, block.id, a) && BlockSeen(block, a))
    && (forall block, k | block in blocks
      && k in block.insts ::
        PhiSeen(sorts, blocks, succs, block, k, a) && EquationFollows(m, sorts, block.id, k, a, mem))
  }

  ghost predicate BlockSeen(block: Block, a: Assignment) {
    forall k | k in block.insts && IsTerminator(k) :: EdgesSeen(block.id, k, a)
  }

  lemma InstructionsSeen(m: Machine, sorts: Sorts, blocks: seq<Block>, succs: Successors, block: Block, a: Assignment,
      mem: Memory)
    ensures (forall k | k in block.insts :: InstructionSeen(m, sorts, blocks, succs, block, k, a, mem))
      <==> BlockSeen(block, a) && forall k | k in block.insts ::
        PhiSeen(sorts, blocks, succs, block, k, a) && EquationFollows(m, sorts, block.id, k, a, mem)
  {
    hide PhiSeen, EquationFollows, EdgesSeen, IsTerminator;
  }

  /** The conditions of a function, cycles or not, hold exactly of the assignments that respect what the
      verifier sees. */
  lemma EncodingSeen(m: Machine, sorts: Sorts, blocks: seq<Block>, entry: BlockId, succs: Successors, a: Assignment,
      mem: Memory)
    requires WellTyped(sorts, blocks) && UniqueIds(blocks)
    requires m.width == sorts.width && WellSorted(sorts, a.env)
    ensures Satisfies(sorts, a, Encoding(sorts, blocks, entry, succs)) <==>
      CoherentSeen(m, sorts, blocks, entry, succs, a, mem)
  {
    hide InstructionSeen, BlockSeen, PhiSeen, EquationFollows, BlockFollows, WellTyped, UniqueIds, Encoding, Assertions,
      BlockAssertion, Eval, KnownEdges, WellSorted;
    forall block | block in blocks
      ensures Eval(sorts, a, BlockAssertion(KnownEdges(blocks), entry, block.id)) <==>
        BlockFollows(blocks, entry, block.id, a)
    {
      BlockAssertionMeans(sorts, blocks, entry, block.id, a);
    }
    forall block, k | block in blocks && k in block.insts
      ensures (forall f | f in Assertions(sorts, blocks, succs, block.id, k) :: Eval(sorts, a, f)) <==>
        InstructionSeen(m, sorts, blocks, succs, block, k, a, mem)
    {
      InstructionMeans(m, sorts, blocks, succs, block, k, a, mem);
    }
    EncodingParts(sorts, blocks, entry, succs, a);
    forall block | block in blocks
      ensures (forall k | k in block.insts :: InstructionSeen(m, sorts, blocks, succs, block, k, a, mem))
        <==> BlockSeen(block, a) && forall k | k in block.insts ::
          PhiSeen(sorts, blocks, succs, block, k, a) && EquationFollows(m, sorts, block.id, k, a, mem)
    {
      InstructionsSeen(m, sorts, blocks, succs, block, a, mem);
    }
  }

  /** The conditions of a function without cycles hold of a coherent assignment exactly when its branch
      conditions are zero or one, and a satisfying assignment is coherent exactly when they are. */
  lemma EncodingMeans(m: Machine, sorts: Sorts, blocks: seq<Block>, entry: BlockId, rank: BlockId -> nat,
      succs: Successors, a: Assignment, mem: Memory)
    requires WellFormed(blocks) && WellTyped(sorts, blocks) && PhisTotal(blocks) && Ranked(blocks, rank)
      && Represents(succs, blocks)
    requires m.width == sorts.width && WellSorted(sorts, a.env)
    ensures BooleanTests(blocks, a) ==>
      (Satisfies(sorts, a, Encoding(sorts, blocks, entry, succs)) <==> Coherent(m, sorts, blocks, entry, a, mem))
    ensures Satisfies(sorts, a, Encoding(sorts, blocks, entry, succs)) && Coherent(m, sorts, blocks, entry, a, mem) ==>
      BooleanTests(blocks, a)
  {
    hide Satisfies, Encoding, Represents, Ranked, PhisTotal, Coherent, CoherentSeen, BooleanTests;
    EncodingSeen(m, sorts, blocks, entry, succs, a, mem);
    SeenIsCoherent(m, sorts, blocks, entry, rank, succs, a, mem);
  }

  lemma SeenIsCoherent(m: Machine, sorts: Sorts, blocks: seq<Block>, entry: BlockId, rank: BlockId -> nat,
      succs: Successors, a: Assignment, mem: Memory)
    requires WellFormed(blocks) && WellTyped(sorts, blocks) && PhisTotal(blocks) && Ranked(blocks, rank)
      && Represents(succs, blocks) && WellSorted(sorts, a.env)
    ensures BooleanTests(blocks, a) ==>
      (CoherentSeen(m, sorts, blocks, entry, succs, a, mem) <==> Coherent(m, sorts, blocks, entry, a, mem))
    ensures CoherentSeen(m, sorts, blocks, entry, succs, a, mem) && Coherent(m, sorts, blocks, entry, a, mem) ==>
      BooleanTests(blocks, a)
  {
    hide WellSorted, BlockFollows, EdgesFollow, BlockSeen, BlockTests, PhiFollows, PhiSeen, EquationFollows,
      WellTerminated, UniqueIds, OperandsFit, PhisTotal, Ranked, Represents;
    forall block | block in blocks
      ensures SeenFollows(block, a)
    {
      SeenBlockFollows(sorts, block, a);
    }
    forall block, k | block in blocks && k in block.insts
      ensures PhiSeen(sorts, blocks, succs, block, k, a) <==> PhiFollows(block.id, k, a)
    {
      PhiSeenFollows(sorts, blocks, rank, succs, block, k, a);
    }
  }

  /** For one block: if its conditions are zero or one its edges are on as the verifier sees them exactly
      when they follow the run; if both, they are zero or one. */
  ghost predicate SeenFollows(block: Block, a: Assignment) {
    && ((block.id in a.blocks ==> BlockTests(block, a.env)) ==> (EdgesFollow(block, a) <==> BlockSeen(block, a)))
    && (EdgesFollow(block, a) && BlockSeen(block, a) ==> block.id in a.blocks ==> BlockTests(block, a.env))
  }

  lemma SeenBlockFollows(sorts: Sorts, block: Block, a: Assignment)
    requires WellTerminated(block) && WellSorted(sorts, a.env)
    requires forall k | k in block.insts :: DistinctTargets(k) && TestsFit(sorts, k)
    ensures SeenFollows(block, a)
  {
    OnlyLastTerminates(block, a);
    forall k | k in block.insts && IsTerminator(k)
      ensures (block.id in a.blocks ==> BooleanTest(k, a.env)) ==>
        (EdgesSeen(block.id, k, a) <==> EdgesTaken(block.id, k, a))
      ensures EdgesSeen(block.id, k, a) && EdgesTaken(block.id, k, a) ==> block.id in a.blocks ==> BooleanTest(k, a.env)
    {
      SeenIsTaken(sorts, block.id, k, a);
    }
    assert forall k | k in block.insts && !IsTerminator(k) :: BooleanTest(k, a.env);
    hide EdgesSeen, EdgesTaken, BooleanTest, EdgesFollow, WellTerminated;
  }

  lemma OnlyLastTerminates(block: Block, a: Assignment)
    requires WellTerminated(block)
    ensures EdgesFollow(block, a) <==> forall k | k in block.insts && IsTerminator(k) :: EdgesTaken(block.id, k, a)
  {
    if block.insts != [] {
      var last := block.insts[|block.insts| - 1];
      forall k | k in block.insts && IsTerminator(k)
        ensures k == last
      {
      }
      hide Leave, WellTerminated;
      assert IsTerminator(last) ==> (EdgesFollow(block, a) <==> EdgesTaken(block.id, last, a));
      assert !IsTerminator(last) ==> Targets(last) == {};
    }
  }

  lemma EncodingParts(sorts: Sorts, blocks: seq<Block>, entry: BlockId, succs: Successors, a: Assignment)
    ensures (forall f | f in Encoding(sorts, blocks, entry, succs) :: Eval(sorts, a, f))
      <==> ((forall block | block in blocks :: Eval(sorts, a, BlockAssertion(KnownEdges(blocks), entry, block.id)))
        && (forall block, k | block in blocks
          && k in block.insts :: forall f | f in Assertions(sorts, blocks, succs, block.id, k) :: Eval(sorts, a, f)))
  {
    hide BlockAssertion, KnownEdges, Assertions, Eval;
    if forall f | f in Encoding(sorts, blocks, entry, succs) :: Eval(sorts, a, f) {
      forall block | block in blocks
        ensures Eval(sorts, a, BlockAssertion(KnownEdges(blocks), entry, block.id))
      {
        assert BlockAssertion(KnownEdges(blocks), entry, block.id) in CfgAssertions(blocks, entry);
      }
      forall block, k, f | block in blocks && k in block.insts && f in Assertions(sorts, blocks, succs, block.id, k)
        ensures Eval(sorts, a, f)
      {
        assert f in BlockAssertions(sorts, blocks, succs, block.id, block.insts);
        assert f in AllAssertions(sorts, blocks, succs, blocks);
      }
    }
  }
}