/** The verifier's translation context: it declares the block and edge booleans, pushes the
    assertions of Conditions into the solver and asks it about violations. */
module Translation {
  import opened IR
  import opened Reachability
  import opened Conditions
  import L = LoopEquality

  datatype SafetyCheck = SafetyCheck(path: Formula, violation: Formula)

  datatype Verdict = Proved | Violated | Unknown

  /** Back edges of a header along which an accepted equality has to be kept. */
  ghost function BackChecks(sorts: Sorts, succs: Successors, b: BlockId, mappings: map<BlockId, Value>,
      other: map<BlockId, Value>): set<SafetyCheck> {
    BackChecksOver(sorts, b, mappings, other, mappings.Keys - EntryEdges(succs, b, mappings))
  }

  function BackChecksOver(sorts: Sorts, b: BlockId, mappings: map<BlockId, Value>, other: map<BlockId, Value>,
      preds: set<BlockId>): set<SafetyCheck>
    requires preds <= mappings.Keys
  {
    set p | p in preds && p in other && {mappings[p], other[p]} <= sorts.words :: BackCheck(b, p, mappings[p], other[p])
  }

  function BackCheck(b: BlockId, p: BlockId, next: Value, other: Value): SafetyCheck {
    SafetyCheck(OnEdge(p, b), Not(Equal(Sym(next), Sym(other))))
  }

  ghost function EqualPhiChecks(sorts: Sorts, succs: Successors, b: BlockId, mappings: map<BlockId, Value>,
      phis: set<Kind>): set<SafetyCheck>
    requires forall k | k in phis :: k.Phi?
  {
    set k, c | k in phis && c in BackChecks(sorts, succs, b, mappings, k.mappings) :: c
  }

  ghost function PhiChecks(sorts: Sorts, blocks: seq<Block>, succs: Successors, b: BlockId, dest: Value,
      mappings: map<BlockId, Value>): set<SafetyCheck> {
    if LoopHeader(succs, b, mappings) then
      EqualPhiChecks(sorts, succs, b, mappings, EqualPhis(sorts, blocks, succs, b, dest, mappings))
    else {}
  }

  ghost function Checks(sorts: Sorts, blocks: seq<Block>, succs: Successors, b: BlockId, k: Kind): set<SafetyCheck> {
    if k.Phi? then PhiChecks(sorts, blocks, succs, b, k.dest, k.mappings) else {}
  }

  ghost function BlockChecks(sorts: Sorts, blocks: seq<Block>, succs: Successors, b: BlockId,
      insts: seq<Kind>): set<SafetyCheck> {
    set k, c | k in insts && c in Checks(sorts, blocks, succs, b, k) :: c
  }

  ghost function AllChecks(sorts: Sorts, blocks: seq<Block>, succs: Successors, some: seq<Block>): set<SafetyCheck> {
    set block, c | block in some && c in BlockChecks(sorts, blocks, succs, block.id, block.insts) :: c
  }

  predicate StrictMatch(sorts: Sorts, k: Kind) {
    k.Match? && k.strict && k.selector in sorts.words
  }

  /** No assignment reaches the default of a strict match of block b. */
  ghost predicate DefaultsDead(sorts: Sorts, fs: set<Formula>, b: BlockId, insts: seq<Kind>) {
    forall k | k in insts && StrictMatch(sorts, k) ::
      !Satisfiable(sorts, fs + {DefaultTest(b, k.selector, k.cases.Keys)})
  }

  ghost predicate AllDefaultsDead(sorts: Sorts, fs: set<Formula>, some: seq<Block>) {
    forall block | block in some :: DefaultsDead(sorts, fs, block.id, block.insts)
  }

  /** The edges whose boolean the translation of an instruction looks up. */
  ghost predicate EdgesKnown(edges: set<(BlockId, BlockId)>, succs: Successors, b: BlockId, k: Kind) {
    && (forall t | t in Targets(k) :: (b, t) in edges)
    && (k.Phi? ==> forall p | p in k.mappings ::
          (p, b) in edges || (!LoopHeader(succs, b, k.mappings) && !Reaches(succs, p, b)))
  }

  lemma KnownEdgesStep(blocks: seq<Block>, i: nat)
    requires i < |blocks|
    ensures KnownEdges(blocks[..i + 1]) == KnownEdges(blocks[..i]) + EdgesFrom(blocks[i])
  {
  }

  lemma CfgAssertionsStep(blocks: seq<Block>, entry: BlockId, i: nat)
    requires i < |blocks|
    ensures CfgAssertionsOf(blocks, entry, blocks[..i + 1])
      == CfgAssertionsOf(blocks, entry, blocks[..i]) + {BlockAssertion(KnownEdges(blocks), entry, blocks[i].id)}
  {
  }

  /** A violation excluded by some assertions is excluded by more. */
  lemma MoreAssertions(sorts: Sorts, few: set<Formula>, many: set<Formula>)
    requires few <= many && !Satisfiable(sorts, few)
    ensures !Satisfiable(sorts, many)
  {
    if a :| Satisfies(sorts, a, many) {
      assert Satisfies(sorts, a, few);
    }
  }

  lemma EqualAmongNone(sorts: Sorts, blocks: seq<Block>, succs: Successors, b: BlockId, dest: Value,
      mappings: map<BlockId, Value>)
    ensures EqualAmong(sorts, blocks, succs, b, dest, mappings, []) == {}
    ensures EqualPhiAssertions(dest, b, {}) == {} && EqualPhiChecks(sorts, succs, b, mappings, {}) == {}
  {
  }

  lemma EqualAmongStep(sorts: Sorts, blocks: seq<Block>, succs: Successors, b: BlockId, dest: Value,
      mappings: map<BlockId, Value>, insts: seq<Kind>, i: nat)
    requires i < |insts|
    ensures var x, y := EqualAmong(sorts, blocks, succs, b, dest, mappings, insts[..i]),
      EqualAmong(sorts, blocks, succs, b, dest, mappings, [insts[i]]);
      && EqualAmong(sorts, blocks, succs, b, dest, mappings, insts[..i + 1]) == x + y
      && EqualPhiAssertions(dest, b, x + y) == EqualPhiAssertions(dest, b, x) + EqualPhiAssertions(dest, b, y)
      && EqualPhiChecks(sorts, succs, b, mappings, x + y)
        == EqualPhiChecks(sorts, succs, b, mappings, x) + EqualPhiChecks(sorts, succs, b, mappings, y)
  {
  }

  lemma BackChecksStep(sorts: Sorts, b: BlockId, mappings: map<BlockId, Value>, other: map<BlockId, Value>,
      preds: set<BlockId>, p: BlockId)
    requires preds <= mappings.Keys && p in mappings
    ensures BackChecksOver(sorts, b, mappings, other, preds + {p}) == BackChecksOver(sorts, b, mappings, other, preds)
      + if p in other && {mappings[p], other[p]} <= sorts.words then {BackCheck(b, p, mappings[p], other[p])} else {}
  {
  }

  lemma EqualAmongOne(sorts: Sorts, blocks: seq<Block>, succs: Successors, b: BlockId, dest: Value,
      mappings: map<BlockId, Value>, k: Kind)
    ensures EqualAmong(sorts, blocks, succs, b, dest, mappings, [k])
      == if k.Phi? && k.dest < dest && L.Accepts(blocks, succs, b, dest, mappings, k.dest, k.mappings)
        && {dest, k.dest} <= sorts.words
         then {k} else {}
    ensures EqualPhiAssertions(dest, b, {}) == {} && EqualPhiChecks(sorts, succs, b, mappings, {}) == {}
    ensures k.Phi? ==> EqualPhiAssertions(dest, b, {k}) == {Implies(OnBlock(b), Equal(Sym(dest), Sym(k.dest)))}
    ensures k.Phi? ==>
      EqualPhiChecks(sorts, succs, b, mappings, {k}) == BackChecks(sorts, succs, b, mappings, k.mappings)
  {
  }

  lemma CaseStep(b: BlockId, selector: Value, cases: map<nat, BlockId>, tags: set<nat>, tag: nat)
    requires tags <= cases.Keys && tag in cases
    ensures TagTests(selector, tags + {tag}) == TagTests(selector, tags) + {TagTest(selector, tag)}
    ensures CaseAssertions(b, selector, cases, tags + {tag})
      == CaseAssertions(b, selector, cases,
        tags) + {Iff(OnEdge(b, cases[tag]), And(OnBlock(b), TagTest(selector, tag)))}
  {
  }

  lemma BlockNone(sorts: Sorts, blocks: seq<Block>, succs: Successors, b: BlockId)
    ensures BlockAssertions(sorts, blocks, succs, b, []) == {} && BlockChecks(sorts, blocks, succs, b, []) == {}
    ensures forall fs :: DefaultsDead(sorts, fs, b, [])
  {
  }

  lemma BlockStep(sorts: Sorts, blocks: seq<Block>, succs: Successors, b: BlockId, insts: seq<Kind>, i: nat)
    requires i < |insts|
    ensures BlockAssertions(sorts, blocks, succs, b, insts[..i + 1])
      == BlockAssertions(sorts, blocks, succs, b, insts[..i]) + Assertions(sorts, blocks, succs, b, insts[i])
    ensures BlockChecks(sorts, blocks, succs, b, insts[..i + 1])
      == BlockChecks(sorts, blocks, succs, b, insts[..i]) + Checks(sorts, blocks, succs, b, insts[i])
  {
  }

  lemma AllNone(sorts: Sorts, blocks: seq<Block>, succs: Successors)
    ensures AllAssertions(sorts, blocks, succs, []) == {} && AllChecks(sorts, blocks, succs, []) == {}
    ensures forall fs :: AllDefaultsDead(sorts, fs, [])
  {
  }

  lemma AllStep(sorts: Sorts, blocks: seq<Block>, succs: Successors, i: nat)
    requires i < |blocks|
    ensures AllAssertions(sorts, blocks, succs, blocks[..i + 1])
      == AllAssertions(sorts, blocks, succs, blocks[..i]) + BlockAssertions(sorts, blocks, succs, blocks[i].id,
        blocks[i].insts)
    ensures AllChecks(sorts, blocks, succs, blocks[..i + 1])
      == AllChecks(sorts, blocks, succs, blocks[..i]) + BlockChecks(sorts, blocks, succs, blocks[i].id, blocks[i].insts)
  {
  }

  ghost predicate BlockEdgesKnown(edges: set<(BlockId, BlockId)>, succs: Successors, block: Block) {
    forall k | k in block.insts :: EdgesKnown(edges, succs, block.id, k)
  }

  ghost predicate AllEdgesKnown(blocks: seq<Block>, edges: set<(BlockId, BlockId)>, succs: Successors) {
    forall block | block in blocks :: BlockEdgesKnown(edges, succs, block)
  }

  /** The adjacency lists hold exactly the function's edges. */
  ghost predicate Represents(succs: Successors, blocks: seq<Block>) {
    EdgesIn(succs) == iset e | e in KnownEdges(blocks)
  }

  /** No translation of an instruction misses the boolean of an edge. */
  ghost predicate LookupsSucceed(blocks: seq<Block>) {
    forall succs | Represents(succs, blocks) :: AllEdgesKnown(blocks, KnownEdges(blocks), succs)
  }

  lemma MoreDefaults(sorts: Sorts, few: set<Formula>, many: set<Formula>, b: BlockId, insts: seq<Kind>)
    requires few <= many && DefaultsDead(sorts, few, b, insts)
    ensures DefaultsDead(sorts, many, b, insts)
  {
    forall k | k in insts && StrictMatch(sorts, k)
      ensures !Satisfiable(sorts, many + {DefaultTest(b, k.selector, k.cases.Keys)})
    {
      var d := {DefaultTest(b, k.selector, k.cases.Keys)};
      MoreAssertions(sorts, few + d, many + d);
    }
  }

  lemma DefaultsStep(sorts: Sorts, few: set<Formula>, many: set<Formula>, b: BlockId, insts: seq<Kind>, i: nat)
    requires i < |insts| && few <= many && DefaultsDead(sorts, few, b, insts[..i])
    requires StrictMatch(sorts, insts[i]) ==>
      !Satisfiable(sorts, many + {DefaultTest(b, insts[i].selector, insts[i].cases.Keys)})
    ensures DefaultsDead(sorts, many, b, insts[..i + 1])
  {
    MoreDefaults(sorts, few, many, b, insts[..i]);
    assert insts[..i + 1] == insts[..i] + [insts[i]];
  }

  lemma AllDefaultsStep(sorts: Sorts, few: set<Formula>, many: set<Formula>, blocks: seq<Block>, i: nat)
    requires i < |blocks| && few <= many && AllDefaultsDead(sorts, few, blocks[..i])
    requires DefaultsDead(sorts, many, blocks[i].id, blocks[i].insts)
    ensures AllDefaultsDead(sorts, many, blocks[..i + 1])
  {
    forall block | block in blocks[..i]
      ensures DefaultsDead(sorts, many, block.id, block.insts)
    {
      MoreDefaults(sorts, few, many, block.id, block.insts);
    }
    assert blocks[..i + 1] == blocks[..i] + [blocks[i]];
  }

  /** A refusal of a strict match: some assignment reaches its default under the assertions made before
      it, which are among all of the function's. */
  ghost predicate Refused(sorts: Sorts, asserted: set<Formula>, all: set<Formula>, b: BlockId, k: Kind) {
    StrictMatch(sorts, k) && exists fs | asserted <= fs <= all ::
      Satisfiable(sorts, fs + {DefaultTest(b, k.selector, k.cases.Keys)})
  }

  ghost predicate RefusedIn(sorts: Sorts, asserted: set<Formula>, all: set<Formula>, b: BlockId, insts: seq<Kind>) {
    exists k | k in insts :: Refused(sorts, asserted, all, b, k)
  }

  ghost predicate RefusedSome(sorts: Sorts, asserted: set<Formula>, all: set<Formula>, blocks: seq<Block>) {
    exists block | block in blocks :: RefusedIn(sorts, asserted, all, block.id, block.insts)
  }

  lemma MatchRefused(sorts: Sorts, blocks: seq<Block>, succs: Successors, asserted: set<Formula>, b: BlockId,
      selector: Value, cases: map<nat, BlockId>, default: BlockId)
    requires selector in sorts.words
    requires Satisfiable(sorts,
      asserted + CaseAssertions(b, selector, cases, cases.Keys) + {DefaultTest(b, selector, cases.Keys)})
    ensures var k := Match(selector, cases, default, true);
      Refused(sorts, asserted, asserted + Assertions(sorts, blocks, succs, b, k), b, k)
  {
    hide Satisfiable, CaseAssertions, DefaultTest;
    var fs := asserted + CaseAssertions(b, selector, cases, cases.Keys);
    assert asserted <= fs <= asserted + Assertions(sorts, blocks, succs, b, Match(selector, cases, default, true));
  }

  lemma RefusedAt(sorts: Sorts, blocks: seq<Block>, succs: Successors, asserted: set<Formula>, before: set<Formula>,
      block: Block, i: nat)
    requires i < |block.insts| && before == asserted + BlockAssertions(sorts, blocks, succs, block.id, block.insts[..i])
    requires Refused(sorts, before, before + Assertions(sorts, blocks, succs, block.id, block.insts[i]), block.id,
      block.insts[i])
    ensures RefusedIn(sorts, asserted, asserted + BlockAssertions(sorts, blocks, succs, block.id, block.insts),
      block.id, block.insts)
  {
    hide Assertions, Satisfiable, DefaultTest, StrictMatch;
    assert BlockAssertions(sorts, blocks, succs, block.id, block.insts[..i])
      <= BlockAssertions(sorts, blocks, succs, block.id, block.insts);
    assert Assertions(sorts, blocks, succs, block.id, block.insts[i])
      <= BlockAssertions(sorts, blocks, succs, block.id, block.insts);
    assert Refused(sorts, asserted, asserted + BlockAssertions(sorts, blocks, succs, block.id, block.insts), block.id,
      block.insts[i]);
  }

  lemma RefusedBlock(sorts: Sorts, blocks: seq<Block>, succs: Successors, asserted: set<Formula>, before: set<Formula>,
      i: nat)
    requires i < |blocks| && before == asserted + AllAssertions(sorts, blocks, succs, blocks[..i])
    requires RefusedIn(sorts, before, before + BlockAssertions(sorts, blocks, succs, blocks[i].id, blocks[i].insts),
      blocks[i].id, blocks[i].insts)
    ensures RefusedSome(sorts, asserted, asserted + AllAssertions(sorts, blocks, succs, blocks), blocks)
  {
    hide BlockAssertions, RefusedIn;
    var all := asserted + AllAssertions(sorts, blocks, succs, blocks);
    assert BlockAssertions(sorts, blocks, succs, blocks[i].id, blocks[i].insts)
      <= AllAssertions(sorts, blocks, succs, blocks);
    assert AllAssertions(sorts, blocks, succs, blocks[..i]) <= AllAssertions(sorts, blocks, succs, blocks);
    RefusedWider(sorts, before, before + BlockAssertions(sorts, blocks, succs, blocks[i].id, blocks[i].insts), asserted,
      all, blocks[i].id, blocks[i].insts);
    assert blocks[i] in blocks;
  }

  lemma RefusedWider(sorts: Sorts, asserted: set<Formula>, all: set<Formula>, fewer: set<Formula>, more: set<Formula>,
      b: BlockId, insts: seq<Kind>)
    requires RefusedIn(sorts, asserted, all, b, insts) && fewer <= asserted && all <= more
    ensures RefusedIn(sorts, fewer, more, b, insts)
  {
    var k :| k in insts && Refused(sorts, asserted, all, b, k);
    assert Refused(sorts, fewer, more, b, k);
  }

  ghost predicate CheckHolds(sorts: Sorts, fs: set<Formula>, check: SafetyCheck) {
    !Satisfiable(sorts, fs + {check.path, check.violation})
  }

  /** What a successful verification has established: the function's conditions exclude every check and
      every default of a strict match. */
  ghost predicate Verified(sorts: Sorts, blocks: seq<Block>, entry: BlockId, succs: Successors,
      checks: set<SafetyCheck>) {
    var fs := Encoding(sorts, blocks, entry, succs);
    && Represents(succs, blocks) && AllDefaultsDead(sorts, fs, blocks)
    && forall check | check in checks :: CheckHolds(sorts, fs, check)
  }

  /** What a refusal means: part of the conditions admits the default of a strict match, or all of them
      admit the violation of a check. */
  ghost predicate Refuted(sorts: Sorts, blocks: seq<Block>, entry: BlockId, succs: Successors,
      checks: set<SafetyCheck>) {
    && Represents(succs, blocks)
    && (|| RefusedSome(sorts, CfgAssertions(blocks, entry), Encoding(sorts, blocks, entry, succs), blocks)
        || exists check | check in checks :: !CheckHolds(sorts, Encoding(sorts, blocks, entry, succs), check))
  }

  class TranslationContext {
    const blocks: seq<Block>
    const entry: BlockId
    const sorts: Sorts
    /** The solver's answer to "is there a satisfying assignment"; None when it gives up. */
    const decide: set<Formula> -> Option<bool>
    var assertions: set<Formula>
    var scopes: seq<set<Formula>>
    var blockConditions: map<BlockId, Formula>
    var edgeConditions: map<(BlockId, BlockId), Formula>
    var successors: Successors
    var safetyChecks: set<SafetyCheck>

    /** The checks given are those of instructions without an equation, bounds and divisors for instance. */
    constructor (blocks: seq<Block>, entry: BlockId, sorts: Sorts, decide: set<Formula> -> Option<bool>,
        given: set<SafetyCheck>)
      ensures this.blocks == blocks && this.entry == entry && this.sorts == sorts && this.decide == decide
      ensures assertions == {} && scopes == [] && safetyChecks == given
      ensures blockConditions == map[] && edgeConditions == map[] && successors == map[]
    {
      this.blocks, this.entry, this.sorts, this.decide := blocks, entry, sorts, decide;
      assertions, scopes, safetyChecks := {}, [], given;
      blockConditions, edgeConditions, successors := map[], map[], map[];
    }

    ghost predicate SolverIsRight() {
      forall fs | decide(fs).Some? :: decide(fs).value <==> Satisfiable(sorts, fs)
    }

    ghost predicate GivesUp() {
      exists fs :: decide(fs).None?
    }

    /** The verdict on a question the solver answers. */
    function VerdictOn(fs: set<Formula>): Verdict {
      match decide(fs)
      case None => Unknown
      case Some(satisfiable) => if satisfiable then Violated else Proved
    }

    ghost predicate BlocksNamed(some: seq<Block>)
      reads this`blockConditions
    {
      && blockConditions.Keys == (set block | block in some :: block.id)
      && forall b | b in blockConditions :: blockConditions[b] == OnBlock(b)
    }

    ghost predicate EdgesNamed(edges: set<(BlockId, BlockId)>)
      reads this`edgeConditions
    {
      && edgeConditions.Keys == edges
      && forall e | e in edgeConditions :: edgeConditions[e] == OnEdge(e.0, e.1)
    }

    /** Every block and edge of the function has its boolean. */
    ghost predicate Declared()
      reads this`blockConditions, this`edgeConditions, this`successors
    {
      && BlocksNamed(blocks) && EdgesNamed(KnownEdges(blocks))
      && Represents(successors, blocks)
    }

    // ----- solver scopes -----

    method Push()
      modifies this`scopes
      ensures scopes == old(scopes) + [assertions]
    {
      scopes := scopes + [assertions];
    }

    method Pop()
      requires scopes != []
      modifies this`scopes, this`assertions
      ensures assertions == old(scopes)[|old(scopes)| - 1] && scopes == old(scopes)[..|old(scopes)| - 1]
    {
      assertions := scopes[|scopes| - 1];
      scopes := scopes[..|scopes| - 1];
    }

    method Assert(f: Formula)
      modifies this`assertions
      ensures assertions == old(assertions) + {f}
    {
      assertions := assertions + {f};
    }

    /** Asks for a violation in a scope of its own; a definite answer leaves the solver as it was. */
    method CheckSafety(check: SafetyCheck) returns (verdict: Verdict)
      requires SolverIsRight()
      modifies this`assertions, this`scopes
      ensures verdict == VerdictOn(old(assertions) + {check.path, check.violation})
      ensures verdict.Proved? ==> CheckHolds(sorts, old(assertions), check)
      ensures verdict.Violated? ==> !CheckHolds(sorts, old(assertions), check)
      ensures !verdict.Unknown? ==> assertions == old(assertions) && scopes == old(scopes)
    {
      Push();
      Assert(check.path);
      Assert(check.violation);
      assert assertions == old(assertions) + {check.path, check.violation};
      var answer := decide(assertions);
      if answer.None? {
        return Unknown;
      }
      Pop();
      verdict := if answer.value then Violated else Proved;
    }

    // ----- control-flow constraints -----

    method DeclareEdges(block: Block, ghost known: set<(BlockId, BlockId)>)
      requires EdgesNamed(known)
      modifies this`edgeConditions
      ensures EdgesNamed(known + EdgesFrom(block))
    {
      var rest := EdgeTargets(block);
      while rest != {}
        invariant rest <= EdgeTargets(block)
        invariant EdgesNamed(known + set t | t in EdgeTargets(block) - rest :: (block.id, t))
        decreases rest
      {
        var t :| t in rest;
        edgeConditions := edgeConditions[(block.id, t) := OnEdge(block.id, t)];
        rest := rest - {t};
      }
    }

    method DeclareBlock(i: nat)
      requires i < |blocks| && BlocksNamed(blocks[..i])
      modifies this`blockConditions
      ensures BlocksNamed(blocks[..i + 1])
    {
      blockConditions := blockConditions[blocks[i].id := OnBlock(blocks[i].id)];
      assert blocks[..i + 1] == blocks[..i] + [blocks[i]];
    }

    method DeclareConstants()
      requires blockConditions == map[] && edgeConditions == map[]
      modifies this`blockConditions, this`edgeConditions
      ensures BlocksNamed(blocks) && EdgesNamed(KnownEdges(blocks))
    {
      for i := 0 to |blocks|
        invariant BlocksNamed(blocks[..i]) && EdgesNamed(KnownEdges(blocks[..i]))
      {
        hide KnownEdges, EdgesFrom, EdgesNamed, BlocksNamed;
        DeclareBlock(i);
        DeclareEdges(blocks[i], KnownEdges(blocks[..i]));
        KnownEdgesStep(blocks, i);
      }
      assert blocks[..|blocks|] == blocks;
    }

    method AssertBlock(b: BlockId)
      requires Declared() && b in blockConditions
      modifies this`assertions
      ensures assertions == old(assertions) + {BlockAssertion(KnownEdges(blocks), entry, b)}
    {
      var condition := blockConditions[b];
      if b == entry {
        Assert(Iff(condition, Truth(true)));
      } else {
        var incoming := set e | e in edgeConditions && e.1 == b :: edgeConditions[e];
        assert incoming == EdgeVars(EdgesInto(KnownEdges(blocks), b));
        assert forall e | e in EdgesInto(KnownEdges(blocks), b) :: OnEdge(e.0, e.1) in incoming;
        if incoming == {} {
          Assert(Iff(condition, Truth(false)));
        } else {
          Assert(Iff(condition, Or(incoming)));
        }
      }
    }

    method AssertBlocks()
      requires Declared()
      modifies this`assertions
      ensures assertions == old(assertions) + CfgAssertions(blocks, entry)
    {
      assert forall block | block in blocks :: block.id in blockConditions;
      assert CfgAssertionsOf(blocks, entry, blocks[..0]) == {};
      hide Declared, BlockAssertion, CfgAssertionsOf;
      for i := 0 to |blocks|
        invariant assertions == old(assertions) + CfgAssertionsOf(blocks, entry, blocks[..i])
      {
        AssertBlock(blocks[i].id);
        CfgAssertionsStep(blocks, entry, i);
      }
      assert blocks[..|blocks|] == blocks;
    }

    method AssertCfgConstraints()
      requires blockConditions == map[] && edgeConditions == map[] && successors == map[]
      modifies this`blockConditions, this`edgeConditions, this`successors, this`assertions
      ensures Declared()
      ensures assertions == old(assertions) + CfgAssertions(blocks, entry)
    {
      hide CfgAssertions, KnownEdges;
      DeclareConstants();
      RecordSuccessors();
      AssertBlocks();
    }

    /** The adjacency lists that reachability questions are answered from. */
    method RecordSuccessors()
      requires successors == map[]
      modifies this`successors
      ensures EdgesIn(successors) == iset e | e in edgeConditions
    {
      var rest := edgeConditions.Keys;
      while rest != {}
        invariant rest <= edgeConditions.Keys
        invariant EdgesIn(successors) == iset e | e in edgeConditions.Keys - rest
        decreases rest
      {
        var e :| e in rest;
        ghost var before := successors;
        successors := successors[e.0 := Next(successors, e.0) + [e.1]];
        rest := rest - {e};
        forall x: BlockId, y: BlockId
          ensures (x, y) in EdgesIn(successors) <==> (x, y) in EdgesIn(before) || (x, y) == e
        {
          assert (x, y) in EdgesIn(successors) <==> y in Next(successors, x);
        }
      }
    }

    // ----- instructions -----

    method TranslateBranch(b: BlockId, cond: Value, t: BlockId, f: BlockId)
      requires Declared() && (b, t) in edgeConditions && (b, f) in edgeConditions && b in blockConditions
      modifies this`assertions
      ensures assertions == old(assertions) + Assertions(sorts, blocks, successors, b, Branch(cond, t, f))
    {
      if cond in sorts.words {
        var test := Equal(Sym(cond), Bits(sorts.width(cond), 1));
        Assert(Iff(edgeConditions[(b, t)], And(blockConditions[b], test)));
        Assert(Iff(edgeConditions[(b, f)], And(blockConditions[b], Not(test))));
      }
    }

    /** Unlike CheckSafety this leaves its scope open when the answer is a refusal. */
    method ProveUnreachable(f: Formula) returns (verdict: Verdict)
      requires SolverIsRight()
      modifies this`assertions, this`scopes
      ensures verdict == VerdictOn(old(assertions) + {f})
      ensures verdict.Proved? ==> assertions == old(assertions) && scopes == old(scopes)
      ensures verdict.Proved? ==> !Satisfiable(sorts, assertions + {f})
      ensures verdict.Violated? ==> Satisfiable(sorts, old(assertions) + {f})
    {
      Push();
      Assert(f);
      var answer := decide(assertions);
      if answer.None? {
        return Unknown;
      }
      if answer.value {
        return Violated;
      }
      Pop();
      verdict := Proved;
    }

    method TranslateCases(b: BlockId, selector: Value, cases: map<nat, BlockId>) returns (handled: set<Formula>)
      requires b in blockConditions && blockConditions[b] == OnBlock(b)
      requires forall t | t in cases.Values :: (b, t) in edgeConditions && edgeConditions[(b, t)] == OnEdge(b, t)
      modifies this`assertions
      ensures handled == TagTests(selector, cases.Keys)
      ensures assertions == old(assertions) + CaseAssertions(b, selector, cases, cases.Keys)
    {
      handled := {};
      var rest := cases.Keys;
      while rest != {}
        invariant rest <= cases.Keys
        invariant handled == TagTests(selector, cases.Keys - rest)
        invariant assertions == old(assertions) + CaseAssertions(b, selector, cases, cases.Keys - rest)
        decreases rest
      {
        var tag :| tag in rest;
        CaseStep(b, selector, cases, cases.Keys - rest, tag);
        assert cases.Keys - (rest - {tag}) == cases.Keys - rest + {tag};
        hide CaseAssertions, TagTests;
        var isMatch := Equal(Sym(selector), Bits(8, tag));
        handled := handled + {isMatch};
        Assert(Iff(edgeConditions[(b, cases[tag])], And(blockConditions[b], isMatch)));
        rest := rest - {tag};
      }
      assert cases.Keys - rest == cases.Keys;
    }

    /** A strict match is refused as soon as some assignment reaches its default. */
    method TranslateMatch(b: BlockId, selector: Value, cases: map<nat, BlockId>, default: BlockId, strict: bool)
      returns (verdict: Verdict)
      requires Declared() && SolverIsRight() && b in blockConditions
      requires forall t | t in Targets(Match(selector, cases, default, strict)) :: (b, t) in edgeConditions
      modifies this`assertions, this`scopes
      ensures verdict == if strict && selector in sorts.words
        then VerdictOn(old(assertions) + CaseAssertions(b, selector, cases,
          cases.Keys) + {DefaultTest(b, selector, cases.Keys)})
        else Proved
      ensures verdict.Proved? ==> scopes == old(scopes)
      ensures verdict.Proved? ==>
        assertions == old(assertions) + Assertions(sorts, blocks, successors, b,
          Match(selector, cases, default, strict))
      ensures verdict.Proved? && strict && selector in sorts.words ==>
        !Satisfiable(sorts, assertions + {DefaultTest(b, selector, cases.Keys)})
      ensures verdict.Unknown? ==> GivesUp()
      ensures verdict.Violated? ==> Refused(sorts, old(assertions),
        old(assertions) + Assertions(sorts, blocks, successors, b, Match(selector, cases, default, strict)), b,
          Match(selector, cases, default, strict))
    {
      hide Refused, GivesUp, SolverIsRight, VerdictOn, Satisfiable;
      if selector !in sorts.words {
        return Proved;
      }
      assert forall t | t in cases.Values :: t in Targets(Match(selector, cases, default, strict));
      assert edgeConditions[(b, default)] == OnEdge(b, default);
      assert blockConditions[b] == OnBlock(b);
      hide CaseAssertions, TagTests, KnownEdges, Represents, Declared;
      ghost var edge := edgeConditions[(b, default)];
      var handled := TranslateCases(b, selector, cases);
      verdict := BindDefault(edgeConditions[(b, default)], And(blockConditions[b], Not(Or(handled))), strict);
      assert edge == OnEdge(b, default);
      if verdict.Violated? {
        MatchRefused(sorts, blocks, successors, old(assertions), b, selector, cases, default);
      }
    }

    /** Ties the default's edge to its condition, once a strict match has been found exhaustive. */
    method BindDefault(edge: Formula, defaultCond: Formula, strict: bool) returns (verdict: Verdict)
      requires SolverIsRight()
      modifies this`assertions, this`scopes
      ensures verdict == if strict then VerdictOn(old(assertions) + {defaultCond}) else Proved
      ensures verdict.Proved? ==> scopes == old(scopes) && assertions == old(assertions) + {Iff(edge, defaultCond)}
      ensures verdict.Proved? && strict ==> !Satisfiable(sorts, assertions + {defaultCond})
      ensures verdict.Violated? ==> strict && Satisfiable(sorts, old(assertions) + {defaultCond})
      ensures verdict.Unknown? ==> GivesUp()
    {
      verdict := Proved;
      if strict {
        verdict := ProveUnreachable(defaultCond);
      }
      if verdict.Proved? {
        ghost var before := assertions;
        Assert(Iff(edge, defaultCond));
        if strict {
          MoreAssertions(sorts, before + {defaultCond}, assertions + {defaultCond});
        }
      }
    }

    /** The phi's predecessors that the block itself can reach. */
    method BackEdges(b: BlockId, mappings: map<BlockId, Value>) returns (back: set<BlockId>)
      ensures back == mappings.Keys - EntryEdges(successors, b, mappings)
      ensures back != {} <==> LoopHeader(successors, b, mappings)
    {
      back := {};
      var rest := mappings.Keys;
      while rest != {}
        invariant rest <= mappings.Keys
        invariant back == set p | p in mappings.Keys - rest && Reaches(successors, b, p)
        decreases rest
      {
        var p :| p in rest;
        var reachable := IsReachable(successors, b, p);
        if reachable {
          back := back + {p};
        }
        rest := rest - {p};
      }
      assert forall p | p in back :: Reaches(successors, b, p);
      assert LoopHeader(successors, b, mappings) ==> exists p | p in mappings :: p in back;
    }

    method BindEdges(b: BlockId, dest: Value, mappings: map<BlockId, Value>, preds: set<BlockId>)
      requires preds <= mappings.Keys
      requires forall p | p in preds :: (p, b) in edgeConditions && edgeConditions[(p, b)] == OnEdge(p, b)
      modifies this`assertions
      ensures assertions == old(assertions) + PhiEquations(sorts, b, dest, mappings, preds)
    {
      var rest := preds;
      while rest != {}
        invariant rest <= preds
        invariant assertions == old(assertions) + PhiEquations(sorts, b, dest, mappings, preds - rest)
        decreases rest
      {
        var p :| p in rest;
        var src := mappings[p];
        if SameSort(sorts, dest, src) {
          Assert(Implies(edgeConditions[(p, b)], Equal(Sym(dest), Sym(src))));
        }
        rest := rest - {p};
      }
    }

    /** Looks for other phis of the header that are always equal to this one, assumes the equality at
        the header and registers a check for every back edge. */
    method AssertEqualPhis(b: BlockId, dest: Value, mappings: map<BlockId, Value>, back: set<BlockId>)
      requires Declared() && b in blockConditions && back == mappings.Keys - EntryEdges(successors, b, mappings)
      requires forall p | p in back :: (p, b) in edgeConditions
      modifies this`assertions, this`safetyChecks
      ensures assertions
        == old(assertions) + EqualPhiAssertions(dest, b, EqualPhis(sorts, blocks, successors, b, dest, mappings))
      ensures safetyChecks
        == old(safetyChecks) + EqualPhiChecks(sorts, successors, b, mappings,
        EqualPhis(sorts, blocks, successors, b, dest, mappings))
    {
      var insts := BlockInsts(blocks, b);
      EqualAmongNone(sorts, blocks, successors, b, dest, mappings);
      hide EqualAmong, EqualPhiAssertions, EqualPhiChecks;
      for i := 0 to |insts|
        invariant assertions
          == old(assertions) + EqualPhiAssertions(dest, b,
          EqualAmong(sorts, blocks, successors, b, dest, mappings, insts[..i]))
        invariant safetyChecks
          == old(safetyChecks) + EqualPhiChecks(sorts, successors, b, mappings,
          EqualAmong(sorts, blocks, successors, b, dest, mappings, insts[..i]))
      {
        AssertIfEqual(b, dest, mappings, back, insts[i]);
        EqualAmongStep(sorts, blocks, successors, b, dest, mappings, insts, i);
      }
      assert insts[..|insts|] == insts;
    }

    method AssertIfEqual(b: BlockId, dest: Value, mappings: map<BlockId, Value>, back: set<BlockId>, other: Kind)
      requires Declared() && b in blockConditions && back == mappings.Keys - EntryEdges(successors, b, mappings)
      requires forall p | p in back :: (p, b) in edgeConditions
      modifies this`assertions, this`safetyChecks
      ensures assertions
        == old(assertions) + EqualPhiAssertions(dest, b,
        EqualAmong(sorts, blocks, successors, b, dest, mappings, [other]))
      ensures safetyChecks
        == old(safetyChecks) + EqualPhiChecks(sorts, successors, b, mappings,
        EqualAmong(sorts, blocks, successors, b, dest, mappings, [other]))
    {
      EqualAmongOne(sorts, blocks, successors, b, dest, mappings, other);
      hide L.Accepts, EqualAmong, EqualPhiAssertions, EqualPhiChecks, BackChecksOver, KnownEdges;
      if other.Phi? && other.dest < dest {
        var equal := L.DetectEquality(blocks, successors, b, dest, mappings, other.dest, other.mappings);
        if equal && dest in sorts.words && other.dest in sorts.words {
          Assert(Implies(blockConditions[b], Equal(Sym(dest), Sym(other.dest))));
          PushBackChecks(b, mappings, other.mappings, back);
        }
      }
    }

    method PushBackChecks(b: BlockId, mappings: map<BlockId, Value>, other: map<BlockId, Value>, back: set<BlockId>)
      requires back <= mappings.Keys
      requires forall p | p in back :: (p, b) in edgeConditions && edgeConditions[(p, b)] == OnEdge(p, b)
      modifies this`safetyChecks
      ensures safetyChecks == old(safetyChecks) + BackChecksOver(sorts, b, mappings, other, back)
    {
      var rest := back;
      while rest != {}
        invariant rest <= back
        invariant safetyChecks == old(safetyChecks) + BackChecksOver(sorts, b, mappings, other, back - rest)
        decreases rest
      {
        var p :| p in rest;
        BackChecksStep(sorts, b, mappings, other, back - rest, p);
        assert back - (rest - {p}) == back - rest + {p};
        hide BackChecksOver;
        if p in other && mappings[p] in sorts.words && other[p] in sorts.words {
          safetyChecks := safetyChecks
            + {SafetyCheck(edgeConditions[(p, b)], Not(Equal(Sym(mappings[p]), Sym(other[p]))))};
        }
        rest := rest - {p};
      }
    }

    method TranslatePhi(b: BlockId, dest: Value, mappings: map<BlockId, Value>)
      requires Declared() && b in blockConditions
      requires EdgesKnown(edgeConditions.Keys, successors, b, Phi(dest, mappings))
      modifies this`assertions, this`safetyChecks
      ensures assertions == old(assertions) + PhiAssertions(sorts, blocks, successors, b, dest, mappings)
      ensures safetyChecks == old(safetyChecks) + PhiChecks(sorts, blocks, successors, b, dest, mappings)
    {
      hide KnownEdges, Represents, PhiEquations, EqualPhis, EqualPhiAssertions, EqualPhiChecks, Reaches;
      var back := BackEdges(b, mappings);
      if back != {} {
        hide PhiChecks, PhiAssertions;
        TranslateHeaderPhi(b, dest, mappings, back);
      } else {
        var live := LivePreds(b, mappings);
        BindEdges(b, dest, mappings, live);
      }
    }

    method TranslateHeaderPhi(b: BlockId, dest: Value, mappings: map<BlockId, Value>, back: set<BlockId>)
      requires Declared() && b in blockConditions && LoopHeader(successors, b, mappings)
      requires back == mappings.Keys - EntryEdges(successors, b, mappings)
      requires forall p | p in mappings :: (p, b) in edgeConditions
      modifies this`assertions, this`safetyChecks
      ensures assertions == old(assertions) + PhiAssertions(sorts, blocks, successors, b, dest, mappings)
      ensures safetyChecks == old(safetyChecks) + PhiChecks(sorts, blocks, successors, b, dest, mappings)
    {
      hide PhiEquations, EqualPhiAssertions, EqualPhiChecks, EqualPhis, KnownEdges, Represents, Reaches;
      var entries := mappings.Keys - back;
      assert entries == EntryEdges(successors, b, mappings);
      EnteredByEntry(b, entries);
      BindEdges(b, dest, mappings, entries);
      AssertEqualPhis(b, dest, mappings, back);
    }

    /** Control at the header must have come in by one of its entry edges. */
    method EnteredByEntry(b: BlockId, entries: set<BlockId>)
      requires b in blockConditions && blockConditions[b] == OnBlock(b)
      requires forall p | p in entries :: (p, b) in edgeConditions && edgeConditions[(p, b)] == OnEdge(p, b)
      modifies this`assertions
      ensures assertions == old(assertions) + if entries == {} then {}
        else {Implies(OnBlock(b), Or(EdgeVarsInto(b, entries)))}
    {
      if entries != {} {
        var incoming := set p | p in entries :: edgeConditions[(p, b)];
        assert incoming == EdgeVarsInto(b, entries);
        Assert(Implies(blockConditions[b], Or(incoming)));
      }
    }

    method LivePreds(b: BlockId, mappings: map<BlockId, Value>) returns (live: set<BlockId>)
      ensures live == LiveEdges(successors, b, mappings)
    {
      live := {};
      var rest := mappings.Keys;
      while rest != {}
        invariant rest <= mappings.Keys
        invariant live == set p | p in mappings.Keys - rest && Reaches(successors, p, b)
        decreases rest
      {
        var p :| p in rest;
        var reachable := IsReachable(successors, p, b);
        if reachable {
          live := live + {p};
        }
        rest := rest - {p};
      }
    }

    method TranslateEquation(b: BlockId, k: Kind)
      requires Declared() && b in blockConditions && !k.Branch? && !k.Jump? && !k.Match? && !k.Phi?
      modifies this`assertions
      ensures assertions == old(assertions) + Assertions(sorts, blocks, successors, b, k)
    {
      var definition := Definition(sorts, k);
      if definition.Some? {
        Assert(Implies(blockConditions[b], definition.value));
      }
    }

    method TranslateInstruction(b: BlockId, k: Kind) returns (verdict: Verdict)
      requires Declared() && SolverIsRight() && b in blockConditions
      requires EdgesKnown(edgeConditions.Keys, successors, b, k)
      modifies this`assertions, this`scopes, this`safetyChecks
      ensures verdict.Proved? ==> scopes == old(scopes)
      ensures verdict.Proved? ==> assertions == old(assertions) + Assertions(sorts, blocks, successors, b, k)
      ensures verdict.Proved? ==> safetyChecks == old(safetyChecks) + Checks(sorts, blocks, successors, b, k)
      ensures verdict.Proved? && StrictMatch(sorts, k) ==>
        !Satisfiable(sorts, assertions + {DefaultTest(b, k.selector, k.cases.Keys)})
      ensures verdict.Unknown? ==> GivesUp()
      ensures verdict.Violated? ==>
        Refused(sorts, old(assertions), old(assertions) + Assertions(sorts, blocks, successors, b, k), b, k)
    {
      verdict := Proved;
      hide Refused, GivesUp, Satisfiable, DefaultTest;
      if k.Branch? {
        TranslateBranch(b, k.cond, k.ifTrue, k.ifFalse);
      } else if k.Jump? {
        Assert(Iff(edgeConditions[(b, k.target)], blockConditions[b]));
      } else if k.Match? {
        verdict := TranslateMatch(b, k.selector, k.cases, k.default, k.strict);
      } else if k.Phi? {
        TranslatePhi(b, k.dest, k.mappings);
      } else {
        TranslateEquation(b, k);
      }
    }

    method TranslateBlock(block: Block) returns (verdict: Verdict)
      requires Declared() && SolverIsRight() && block.id in blockConditions
      requires BlockEdgesKnown(edgeConditions.Keys, successors, block)
      modifies this`assertions, this`scopes, this`safetyChecks
      ensures verdict.Proved? ==> scopes == old(scopes)
      ensures verdict.Proved? ==>
        assertions == old(assertions) + BlockAssertions(sorts, blocks, successors, block.id, block.insts)
      ensures verdict.Proved? ==>
        safetyChecks == old(safetyChecks) + BlockChecks(sorts, blocks, successors, block.id, block.insts)
      ensures verdict.Proved? ==> DefaultsDead(sorts, assertions, block.id, block.insts)
      ensures verdict.Unknown? ==> GivesUp()
      ensures verdict.Violated? ==> RefusedIn(sorts, old(assertions),
        old(assertions) + BlockAssertions(sorts, blocks, successors, block.id, block.insts), block.id, block.insts)
    {
      BlockNone(sorts, blocks, successors, block.id);
      hide BlockAssertions, BlockChecks, Assertions, Checks, EdgesKnown, Declared, DefaultsDead;
      for i := 0 to |block.insts|
        invariant scopes == old(scopes)
        invariant assertions == old(assertions) + BlockAssertions(sorts, blocks, successors, block.id, block.insts[..i])
        invariant safetyChecks == old(safetyChecks) + BlockChecks(sorts, blocks, successors, block.id, block.insts[..i])
        invariant DefaultsDead(sorts, assertions, block.id, block.insts[..i])
      {
        ghost var before := assertions;
        BlockStep(sorts, blocks, successors, block.id, block.insts, i);
        verdict := TranslateInstruction(block.id, block.insts[i]);
        if !verdict.Proved? {
          if verdict.Violated? {
            RefusedAt(sorts, blocks, successors, old(assertions), before, block, i);
          }
          return;
        }
        DefaultsStep(sorts, before, assertions, block.id, block.insts, i);
      }
      assert block.insts[..|block.insts|] == block.insts;
      verdict := Proved;
    }

    method TranslateNext(i: nat) returns (verdict: Verdict)
      requires Declared() && SolverIsRight() && AllEdgesKnown(blocks, KnownEdges(blocks), successors) && i < |blocks|
      requires AllDefaultsDead(sorts, assertions, blocks[..i])
      modifies this`assertions, this`scopes, this`safetyChecks
      ensures verdict.Proved? ==> scopes == old(scopes)
      ensures verdict.Proved? ==>
        assertions == old(assertions) + BlockAssertions(sorts, blocks, successors, blocks[i].id, blocks[i].insts)
      ensures verdict.Proved? ==>
        safetyChecks == old(safetyChecks) + BlockChecks(sorts, blocks, successors, blocks[i].id, blocks[i].insts)
      ensures verdict.Proved? ==> AllDefaultsDead(sorts, assertions, blocks[..i + 1])
      ensures verdict.Unknown? ==> GivesUp()
      ensures verdict.Violated? ==> RefusedIn(sorts, old(assertions),
        old(assertions) + BlockAssertions(sorts, blocks, successors, blocks[i].id, blocks[i].insts), blocks[i].id,
          blocks[i].insts)
    {
      assert blocks[i].id in blockConditions && edgeConditions.Keys == KnownEdges(blocks);
      hide BlockAssertions, BlockChecks, BlockEdgesKnown, Declared, KnownEdges, AllDefaultsDead, DefaultsDead;
      ghost var before := assertions;
      verdict := TranslateBlock(blocks[i]);
      if verdict.Proved? {
        AllDefaultsStep(sorts, before, assertions, blocks, i);
      }
    }

    method TranslateInstructions() returns (verdict: Verdict)
      requires Declared() && SolverIsRight() && AllEdgesKnown(blocks, KnownEdges(blocks), successors)
      modifies this`assertions, this`scopes, this`safetyChecks
      ensures verdict.Proved? ==> scopes == old(scopes)
      ensures verdict.Proved? ==> assertions == old(assertions) + AllAssertions(sorts, blocks, successors, blocks)
      ensures verdict.Proved? ==> safetyChecks == old(safetyChecks) + AllChecks(sorts, blocks, successors, blocks)
      ensures verdict.Proved? ==> AllDefaultsDead(sorts, assertions, blocks)
      ensures verdict.Unknown? ==> GivesUp()
      ensures verdict.Violated? ==>
        RefusedSome(sorts, old(assertions), old(assertions) + AllAssertions(sorts, blocks, successors, blocks), blocks)
    {
      AllNone(sorts, blocks, successors);
      hide AllAssertions, AllChecks, BlockAssertions, BlockChecks, AllEdgesKnown, Declared, KnownEdges, AllDefaultsDead;
      for i := 0 to |blocks|
        invariant scopes == old(scopes)
        invariant assertions == old(assertions) + AllAssertions(sorts, blocks, successors, blocks[..i])
        invariant safetyChecks == old(safetyChecks) + AllChecks(sorts, blocks, successors, blocks[..i])
        invariant AllDefaultsDead(sorts, assertions, blocks[..i])
      {
        AllStep(sorts, blocks, successors, i);
        ghost var before := assertions;
        verdict := TranslateNext(i);
        if !verdict.Proved? {
          if verdict.Violated? {
            RefusedBlock(sorts, blocks, successors, old(assertions), before, i);
          }
          return;
        }
      }
      assert blocks[..|blocks|] == blocks;
      verdict := Proved;
    }

    /** Asks about every registered check, stopping at the first that is not proved. */
    method RunDeferredChecks() returns (verdict: Verdict)
      requires SolverIsRight()
      modifies this`assertions, this`scopes
      ensures verdict.Proved? ==> assertions == old(assertions) && scopes == old(scopes)
      ensures verdict.Proved? ==> forall check | check in safetyChecks :: CheckHolds(sorts, assertions, check)
      ensures verdict.Violated? ==> exists check | check in safetyChecks :: !CheckHolds(sorts, old(assertions), check)
      ensures verdict.Unknown? ==> GivesUp()
    {
      var rest := safetyChecks;
      while rest != {}
        invariant rest <= safetyChecks && assertions == old(assertions) && scopes == old(scopes)
        invariant forall check | check in safetyChecks - rest :: CheckHolds(sorts, assertions, check)
        decreases rest
      {
        var check :| check in rest;
        verdict := CheckSafety(check);
        if !verdict.Proved? {
          return;
        }
        rest := rest - {check};
      }
      verdict := Proved;
    }

    /** The whole conversation with the solver for one function. */
    method Verify() returns (verdict: Verdict)
      requires SolverIsRight() && assertions == {}
      requires blockConditions == map[] && edgeConditions == map[] && successors == map[]
      requires LookupsSucceed(blocks)
      modifies this
      ensures Represents(successors, blocks)
      ensures verdict.Proved? ==>
        Verified(sorts, blocks, entry, successors, old(safetyChecks) + AllChecks(sorts, blocks, successors, blocks))
      ensures verdict.Violated? ==>
        Refuted(sorts, blocks, entry, successors, old(safetyChecks) + AllChecks(sorts, blocks, successors, blocks))
      ensures verdict.Unknown? ==> GivesUp()
    {
      AssertCfgConstraints();
      assert assertions == CfgAssertions(blocks, entry);
      hide AllAssertions, CfgAssertions, AllChecks, CheckHolds, AllDefaultsDead, RefusedSome, AllEdgesKnown, KnownEdges;
      verdict := TranslateInstructions();
      if verdict.Proved? {
        verdict := RunDeferredChecks();
      }
    }
  }
}
