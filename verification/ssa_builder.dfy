/** On-the-fly SSA construction: reading a source variable walks predecessors, places phis at
    joins before their operands are read, and leaves phis incomplete in unsealed blocks. */
module SsaBuilder {
  import opened IR
  import opened Cfg

  datatype Outcome = Done | Failed(variable: string)

  datatype Lookup = Found(value: Value) | UnboundVariable(variable: string)

  const ENTRY: BlockId := 0

  type Definitions = map<string, map<BlockId, Value>>

  function DefOf(defs: Definitions, x: string, b: BlockId): Option<Value> {
    if x in defs && b in defs[x] then Some(defs[x][b]) else None
  }

  function SetDef(defs: Definitions, x: string, b: BlockId, v: Value): (r: Definitions)
    ensures forall y, c: BlockId :: DefOf(r, y, c) == if y == x && c == b then Some(v) else DefOf(defs, y, c)
  {
    defs[x := (if x in defs then defs[x] else map[])[b := v]]
  }

  /** The operand map of the first phi that defines v. */
  function PhiOps(insts: seq<Kind>, v: Value): (r: Option<map<BlockId, Value>>)
    ensures r.Some? ==> Defines(insts, v)
  {
    if insts == [] then None
    else if insts[0].Phi? && insts[0].dest == v then
      assert GetDef(insts[0]) == Some(v);
      Some(insts[0].mappings)
    else
      var r := PhiOps(insts[1..], v);
      assert r.Some? ==> Defines(insts, v) by {
        if r.Some? {
          var i :| 0 <= i < |insts[1..]| && GetDef(insts[1..][i]) == Some(v);
          assert GetDef(insts[i + 1]) == Some(v);
        }
      }
      r
  }

  function NonPhis(insts: seq<Kind>): seq<Kind> {
    if insts == [] then []
    else (if insts[0].Phi? then [] else [insts[0]]) + NonPhis(insts[1..])
  }

  ghost function EdgesOf(blocks: seq<Block>): Edges {
    iset e: (BlockId, BlockId) | e.1 < |blocks| && e.0 in blocks[e.1].preds
  }

  /** The builder's state as a value. The last five fields are bookkeeping of the proof:
      `written` holds what the front end stored, `entries` what a lookup found at the start of a
      block, `owner` which variable and block a phi was placed for, and `pending` the phis whose
      operands are still being read. */
  datatype Snapshot = Snapshot(
    blocks: seq<Block>,
    count: nat,
    defs: Definitions,
    incomplete: map<BlockId, map<string, Value>>,
    sealed: set<BlockId>,
    written: map<(string, BlockId), Value>,
    entries: map<(string, BlockId), Value>,
    owner: map<Value, (string, BlockId)>,
    pending: set<Value>)

  ghost predicate IsIncomplete(s: Snapshot, x: string, c: BlockId, u: Value) {
    c in s.incomplete && x in s.incomplete[c] && s.incomplete[c][x] == u
  }

  /** u is what x holds on entry to c because c's only predecessor ends with it. */
  ghost predicate CopiesPredecessor(s: Snapshot, x: string, c: BlockId, u: Value)
    requires c < |s.blocks|
  {
    c in s.sealed && |s.blocks[c].preds| == 1 && DefOf(s.defs, x, s.blocks[c].preds[0]) == Some(u)
  }

  /** The operand map of a finished phi for x in c: what every predecessor ends with. */
  ghost predicate Complete(s: Snapshot, x: string, c: BlockId, ops: map<BlockId, Value>)
    requires c < |s.blocks|
  {
    && c in s.sealed
    && (forall p :: p in ops <==> p in s.blocks[c].preds)
    && (forall p | p in ops :: DefOf(s.defs, x, p) == Some(ops[p]))
  }

  ghost predicate IsPhiFor(s: Snapshot, x: string, c: BlockId, u: Value)
    requires c < |s.blocks|
  {
    && u in s.owner && s.owner[u] == (x, c)
    && PhiOps(s.blocks[c].insts, u).Some?
    && (|| (u in s.pending && c in s.sealed)
        || (c !in s.sealed && IsIncomplete(s, x, c, u))
        || Complete(s, x, c, PhiOps(s.blocks[c].insts, u).value))
  }

  ghost predicate EntryOk(s: Snapshot, x: string, c: BlockId)
    requires (x, c) in s.entries
  {
    var u := s.entries[(x, c)];
    && 0 < c < |s.blocks|
    && (CopiesPredecessor(s, x, c, u) || IsPhiFor(s, x, c, u))
  }

  ghost predicate BlocksOk(s: Snapshot) {
    && |s.blocks| > 0 && s.blocks[0].preds == []
    && (forall b: BlockId | b < |s.blocks| :: s.blocks[b].id == b)
    && (forall b: BlockId, p | b < |s.blocks| && p in s.blocks[b].preds :: p < |s.blocks|)
    && 0 in s.sealed
  }

  /** Values are defined in one block only, and none at or above the counter. */
  ghost predicate ValuesOk(s: Snapshot) {
    && (forall b: BlockId, v: Value | b < |s.blocks| && Defines(s.blocks[b].insts, v) :: v < s.count)
    && (forall b: BlockId, c: BlockId, v: Value | b < |s.blocks| && c < |s.blocks|
          && Defines(s.blocks[b].insts, v) && Defines(s.blocks[c].insts, v) :: b == c)
    && (forall u | u in s.owner :: s.owner[u].1 < |s.blocks| && Defines(s.blocks[s.owner[u].1].insts, u))
    && (forall u | u in s.pending :: u in s.owner && u < s.count)
  }

  ghost predicate DefsOk(s: Snapshot) {
    forall x, c: BlockId :: DefOf(s.defs, x, c) ==
      if (x, c) in s.written then Some(s.written[(x, c)])
      else if (x, c) in s.entries then Some(s.entries[(x, c)])
      else None
  }

  ghost predicate IncompleteOk(s: Snapshot) {
    forall x, c: BlockId, u: Value | IsIncomplete(s, x, c, u) :: IsPlaced(s, x, c, u)
  }

  /** u is the phi placed for x in the still unsealed block c. */
  ghost predicate IsPlaced(s: Snapshot, x: string, c: BlockId, u: Value) {
    && c !in s.sealed && c < |s.blocks| && u in s.owner && s.owner[u] == (x, c)
    && PhiOps(s.blocks[c].insts, u).Some?
  }

  // ----- the shape of the graph -----

  /** Every edge is recorded at both of its ends. */
  ghost predicate Mirrored(blocks: seq<Block>) {
    forall b, c :: Succeeds(blocks, b, c) <==> Precedes(blocks, b, c)
  }

  ghost predicate Succeeds(blocks: seq<Block>, b: BlockId, c: BlockId) {
    b < |blocks| && c in blocks[b].succs
  }

  ghost predicate Precedes(blocks: seq<Block>, b: BlockId, c: BlockId) {
    c < |blocks| && b in blocks[c].preds
  }

  ghost predicate DefinedOnce(insts: seq<Kind>) {
    forall i, j | 0 <= i < |insts| && 0 <= j < |insts| && GetDef(insts[i]).Some?
      && GetDef(insts[i]) == GetDef(insts[j]) :: i == j
  }

  ghost predicate PhisLead(insts: seq<Kind>) {
    forall i, j | 0 <= i < j < |insts| && insts[j].Phi? :: insts[i].Phi?
  }

  /** Every phi is what its variable was read as on entry to the block. */
  ghost predicate PhisOwned(insts: seq<Kind>, b: BlockId, owner: map<Value, (string, BlockId)>,
      entries: map<(string, BlockId), Value>) {
    forall k | k in insts && k.Phi? ::
      k.dest in owner && owner[k.dest].1 == b && owner[k.dest] in entries && entries[owner[k.dest]] == k.dest
  }

  ghost predicate BlockShape(insts: seq<Kind>, b: BlockId, owner: map<Value, (string, BlockId)>,
      entries: map<(string, BlockId), Value>) {
    DefinedOnce(insts) && PhisLead(insts) && PhisOwned(insts, b, owner, entries)
  }

  /** Edges agree at both ends; in every block each value is defined once and the phis, each owned by
      its variable, come first. */
  ghost predicate Shaped(blocks: seq<Block>, owner: map<Value, (string, BlockId)>, entries: map<(string, BlockId),
      Value>) {
    Mirrored(blocks) && forall b: BlockId | b < |blocks| :: BlockShape(blocks[b].insts, b, owner, entries)
  }

  lemma MirroredKept(blocks: seq<Block>, next: seq<Block>)
    requires Mirrored(blocks) && |next| == |blocks|
    requires forall b: BlockId | b < |blocks| :: next[b].preds == blocks[b].preds && next[b].succs == blocks[b].succs
    ensures Mirrored(next)
  {
    forall b, c
      ensures Succeeds(next, b, c) <==> Precedes(next, b, c)
    {
      assert Succeeds(blocks, b, c) <==> Precedes(blocks, b, c);
    }
  }

  ghost predicate Inv(s: Snapshot) {
    && BlocksOk(s) && ValuesOk(s) && DefsOk(s) && IncompleteOk(s) && Shaped(s.blocks, s.owner, s.entries)
    && (forall x, c: BlockId | (x, c) in s.entries :: EntryOk(s, x, c))
  }

  /** Lookups end: a sealed block with a single predecessor can be reached from the entry, so
      chains of such blocks do not run in circles. */
  ghost predicate ChainsReachable(s: Snapshot) {
    forall c: BlockId | c in s.sealed && c < |s.blocks| && |s.blocks[c].preds| == 1 ::
      Reachable(EdgesOf(s.blocks), ENTRY, c)
  }

  ghost function Unresolved(s: Snapshot, x: string): set<BlockId> {
    set b: BlockId | 0 <= b < |s.blocks| && DefOf(s.defs, x, b).None?
  }

  /** A backward walk from b to a sealed block without predecessors on which x is never stored. */
  ghost predicate Unbound(s: Snapshot, x: string, b: BlockId) {
    exists w :: UnboundWalk(s, x, b, w)
  }

  ghost predicate UnboundWalk(s: Snapshot, x: string, b: BlockId, w: seq<BlockId>) {
    && IsPath(EdgesOf(s.blocks), w) && w[|w| - 1] == b
    && w[0] in s.sealed && w[0] < |s.blocks| && s.blocks[w[0]].preds == []
    && (forall c | c in w :: (x, c) !in s.written)
  }

  /** What a lookup may change: it only adds phis, memoised definitions and counted values. */
  ghost predicate LookupExtends(s: Snapshot, t: Snapshot) {
    && |t.blocks| == |s.blocks| && s.count <= t.count
    && t.written == s.written && t.sealed == s.sealed
    && (forall b: BlockId | b < |s.blocks| :: BlockExtends(s, t, b))
    && (forall x, c: BlockId | DefOf(s.defs, x, c).Some? :: DefOf(t.defs, x, c) == DefOf(s.defs, x, c))
    && (forall k | k in s.entries :: k in t.entries && t.entries[k] == s.entries[k])
    && (forall u | u in s.owner :: u in t.owner && t.owner[u] == s.owner[u])
    && (forall u | u in t.pending && u < s.count :: u in s.pending)
    && (forall x, c: BlockId | (x, c) in t.entries && (x, c) !in s.entries :: NewEntryOk(t, x, c))
  }

  ghost predicate BlockExtends(s: Snapshot, t: Snapshot, b: BlockId)
    requires b < |s.blocks| == |t.blocks|
  {
    var before, after := s.blocks[b], t.blocks[b];
    && after.id == before.id && after.preds == before.preds && after.succs == before.succs
    && NonPhis(after.insts) == NonPhis(before.insts)
    && (forall v: Value | PhiOps(before.insts, v).Some? ::
          PhiOps(after.insts, v).Some? && (v !in s.pending ==> PhiOps(after.insts, v) == PhiOps(before.insts, v)))
  }

  ghost predicate NewEntryOk(t: Snapshot, x: string, c: BlockId)
    requires (x, c) in t.entries
  {
    c < |t.blocks| && (c in t.sealed && |t.blocks[c].preds| == 1 ==> CopiesPredecessor(t, x, c, t.entries[(x, c)]))
  }

  lemma LookupExtendsTransitive(s: Snapshot, t: Snapshot, u: Snapshot)
    requires Inv(s) && LookupExtends(s, t) && LookupExtends(t, u)
    ensures LookupExtends(s, u)
  {
    forall b: BlockId | b < |s.blocks|
      ensures BlockExtends(s, u, b)
    {
      assert BlockExtends(s, t, b) && BlockExtends(t, u, b);
      forall v: Value | PhiOps(s.blocks[b].insts, v).Some?
        ensures PhiOps(u.blocks[b].insts, v).Some?
        ensures v !in s.pending ==> PhiOps(u.blocks[b].insts, v) == PhiOps(s.blocks[b].insts, v)
      {
        assert Defines(s.blocks[b].insts, v);
      }
    }
    forall x, c: BlockId | (x, c) in u.entries && (x, c) !in s.entries
      ensures NewEntryOk(u, x, c)
    {
      if (x, c) in t.entries {
        assert NewEntryOk(t, x, c);
        assert c < |s.blocks| ==> BlockExtends(t, u, c);
      }
    }
  }

  lemma BlocksInRange(s: Snapshot, b: BlockId, p: BlockId)
    requires Inv(s) && b < |s.blocks| && p in s.blocks[b].preds
    ensures p < |s.blocks|
  {
  }

  lemma LookupExtendsReflexive(s: Snapshot)
    ensures LookupExtends(s, s)
  {
  }

  lemma LookupKeepsEdges(s: Snapshot, t: Snapshot)
    requires LookupExtends(s, t)
    ensures |t.blocks| == |s.blocks| && t.sealed == s.sealed
    ensures forall b: BlockId | b < |s.blocks| :: t.blocks[b].preds == s.blocks[b].preds
    ensures EdgesOf(t.blocks) == EdgesOf(s.blocks)
    ensures ChainsReachable(s) ==> ChainsReachable(t)
    ensures forall x, b: BlockId :: Unbound(t, x, b) ==> Unbound(s, x, b)
    ensures forall x :: Unresolved(t, x) <= Unresolved(s, x)
  {
    forall b: BlockId | b < |s.blocks|
      ensures t.blocks[b].preds == s.blocks[b].preds
    {
      assert BlockExtends(s, t, b);
    }
    assert EdgesOf(t.blocks) == EdgesOf(s.blocks);
    forall x, b: BlockId | Unbound(t, x, b)
      ensures Unbound(s, x, b)
    {
      var w :| UnboundWalk(t, x, b, w);
      assert UnboundWalk(s, x, b, w);
    }
  }

  // ----- placing a phi -----

  ghost function PlacedPhi(s: Snapshot, x: string, b: BlockId): Snapshot
    requires b < |s.blocks|
  {
    var block := s.blocks[b];
    Snapshot(
      s.blocks[b := block.(insts := [Phi(s.count, map[])] + block.insts)],
      s.count + 1,
      SetDef(s.defs, x, b, s.count),
      if b in s.sealed then s.incomplete
      else s.incomplete[b := (if b in s.incomplete then s.incomplete[b] else map[])[x := s.count]],
      s.sealed,
      s.written,
      s.entries[(x, b) := s.count],
      s.owner[s.count := (x, b)],
      if b in s.sealed then s.pending + {s.count} else s.pending)
  }

  lemma DefinesCons(k: Kind, insts: seq<Kind>, v: Value)
    ensures Defines([k] + insts, v) <==> GetDef(k) == Some(v) || Defines(insts, v)
  {
    var all := [k] + insts;
    if GetDef(k) == Some(v) {
      assert GetDef(all[0]) == Some(v);
    } else if Defines(insts, v) {
      var i :| 0 <= i < |insts| && GetDef(insts[i]) == Some(v);
      assert GetDef(all[i + 1]) == Some(v);
    }
  }

  lemma PlacedPhiValues(s: Snapshot, x: string, b: BlockId)
    requires Inv(s) && b < |s.blocks|
    ensures ValuesOk(PlacedPhi(s, x, b))
    ensures forall c: BlockId | c < |s.blocks| :: BlockExtends(s, PlacedPhi(s, x, b), c)
    ensures PhiOps(PlacedPhi(s, x, b).blocks[b].insts, s.count).Some?
  {
    hide Shaped, DefsOk, IncompleteOk, EntryOk;
    var t := PlacedPhi(s, x, b);
    var insts := s.blocks[b].insts;
    assert t.blocks[b].insts[1..] == insts;
    forall v: Value
      ensures Defines(t.blocks[b].insts, v) <==> v == s.count || Defines(insts, v)
    {
      DefinesCons(Phi(s.count, map[]), insts, v);
    }
  }

  lemma PlacedPhiKeepsEntry(s: Snapshot, x: string, b: BlockId, y: string, c: BlockId)
    requires b < |s.blocks| && DefOf(s.defs, x, b).None? && ValuesOk(s)
    requires (y, c) in s.entries && (y, c) != (x, b) && EntryOk(s, y, c)
    requires BlockExtends(s, PlacedPhi(s, x, b), c)
    ensures EntryOk(PlacedPhi(s, x, b), y, c)
  {
    var t := PlacedPhi(s, x, b);
    var u := s.entries[(y, c)];
    assert t.blocks[c].preds == s.blocks[c].preds;
    if CopiesPredecessor(s, y, c, u) {
      assert CopiesPredecessor(t, y, c, u);
    } else {
      assert Defines(s.blocks[c].insts, u);
      assert u < s.count;
      assert PhiOps(t.blocks[c].insts, u) == PhiOps(s.blocks[c].insts, u) by {
        if c == b {
          assert t.blocks[b].insts[1..] == s.blocks[b].insts;
        }
      }
      assert IsPhiFor(t, y, c, u);
    }
  }

  lemma PlacedPhiIncomplete(s: Snapshot, x: string, b: BlockId)
    requires b < |s.blocks| && ValuesOk(s) && IncompleteOk(s)
    requires forall c: BlockId | c < |s.blocks| :: BlockExtends(s, PlacedPhi(s, x, b), c)
    requires PhiOps(PlacedPhi(s, x, b).blocks[b].insts, s.count).Some?
    ensures IncompleteOk(PlacedPhi(s, x, b))
  {
    var t := PlacedPhi(s, x, b);
    forall y, c: BlockId, u: Value | IsIncomplete(t, y, c, u)
      ensures IsPlaced(t, y, c, u)
    {
      if (y, c) != (x, b) || b in s.sealed {
        assert IsIncomplete(s, y, c, u);
        assert BlockExtends(s, t, c);
        assert Defines(s.blocks[c].insts, u);
      }
    }
  }

  lemma PlacedPhiExtends(s: Snapshot, x: string, b: BlockId)
    requires b < |s.blocks| && ValuesOk(s) && DefsOk(s) && DefOf(s.defs, x, b).None?
    requires b in s.sealed ==> |s.blocks[b].preds| != 1
    requires forall c: BlockId | c < |s.blocks| :: BlockExtends(s, PlacedPhi(s, x, b), c)
    ensures LookupExtends(s, PlacedPhi(s, x, b))
  {
    forall u | u in s.owner
      ensures u < s.count
    {
      assert Defines(s.blocks[s.owner[u].1].insts, u);
    }
  }

  lemma PlacedPhiEntries(s: Snapshot, x: string, b: BlockId)
    requires 0 < b < |s.blocks| && ValuesOk(s) && DefOf(s.defs, x, b).None?
    requires forall y, c: BlockId | (y, c) in s.entries :: EntryOk(s, y, c)
    requires forall c: BlockId | c < |s.blocks| :: BlockExtends(s, PlacedPhi(s, x, b), c)
    requires PhiOps(PlacedPhi(s, x, b).blocks[b].insts, s.count).Some?
    ensures forall y, c: BlockId | (y, c) in PlacedPhi(s, x, b).entries :: EntryOk(PlacedPhi(s, x, b), y, c)
  {
    var t := PlacedPhi(s, x, b);
    forall y, c: BlockId | (y, c) in t.entries
      ensures EntryOk(t, y, c)
    {
      if (y, c) == (x, b) {
        assert IsPhiFor(t, x, b, s.count);
      } else {
        assert EntryOk(s, y, c);
        PlacedPhiKeepsEntry(s, x, b, y, c);
      }
    }
  }

  lemma PlacedPhiOk(s: Snapshot, x: string, b: BlockId)
    requires Inv(s) && 0 < b < |s.blocks| && DefOf(s.defs, x, b).None?
    requires b in s.sealed ==> |s.blocks[b].preds| != 1
    ensures Inv(PlacedPhi(s, x, b)) && LookupExtends(s, PlacedPhi(s, x, b))
  {
    hide Shaped, EntryOk, BlockExtends, LookupExtends, IncompleteOk, PhiOps, ValuesOk, BlocksOk, DefsOk;
    PlacedPhiFrame(s, x, b);
    PlacedPhiShaped(s, x, b);
    PlacedPhiValues(s, x, b);
    PlacedPhiExtends(s, x, b);
    PlacedPhiIncomplete(s, x, b);
    PlacedPhiEntries(s, x, b);
  }

  lemma PlacedPhiFrame(s: Snapshot, x: string, b: BlockId)
    requires BlocksOk(s) && DefsOk(s) && 0 < b < |s.blocks| && DefOf(s.defs, x, b).None?
    ensures BlocksOk(PlacedPhi(s, x, b)) && DefsOk(PlacedPhi(s, x, b))
  {
  }

  lemma PlacedPhiShaped(s: Snapshot, x: string, b: BlockId)
    requires Inv(s) && 0 < b < |s.blocks| && DefOf(s.defs, x, b).None?
    ensures var t := PlacedPhi(s, x, b); Shaped(t.blocks, t.owner, t.entries)
  {
    var t := PlacedPhi(s, x, b);
    MirroredKept(s.blocks, t.blocks);
    assert (x, b) !in s.entries;
    OwnersCounted(s);
    forall c: BlockId | c < |s.blocks|
      ensures BlockShape(t.blocks[c].insts, c, t.owner, t.entries)
    {
      assert BlockShape(s.blocks[c].insts, c, s.owner, s.entries);
      var insts := s.blocks[c].insts;
      hide Mirrored, EntryOk, IncompleteOk, BlocksOk;
      OwnedLater(insts, c, s.owner, s.entries, t.owner, t.entries);
      if c == b {
        forall i | 0 <= i < |insts|
          ensures GetDef(insts[i]) != Some(s.count)
        {
          assert GetDef(insts[i]) == Some(s.count) ==> Defines(insts, s.count);
        }
        PhiInFront(insts, b, x, s.count, t.owner, t.entries);
      }
    }
  }

  lemma OwnersCounted(s: Snapshot)
    requires ValuesOk(s)
    ensures forall u | u in s.owner :: u < s.count
  {
    forall u | u in s.owner
      ensures u < s.count
    {
      assert Defines(s.blocks[s.owner[u].1].insts, u);
    }
  }

  /** More owners and entries leave the shape of a block as it is. */
  lemma OwnedLater(insts: seq<Kind>, b: BlockId, owner: map<Value, (string, BlockId)>, entries: map<(string, BlockId),
      Value>, nextOwner: map<Value, (string, BlockId)>, nextEntries: map<(string, BlockId), Value>)
    requires BlockShape(insts, b, owner, entries)
    requires forall u | u in owner :: u in nextOwner && nextOwner[u] == owner[u]
    requires forall e | e in entries :: e in nextEntries && nextEntries[e] == entries[e]
    ensures BlockShape(insts, b, nextOwner, nextEntries)
  {
    hide DefinedOnce, PhisLead;
  }

  lemma PhiInFront(insts: seq<Kind>, b: BlockId, x: string, v: Value, owner: map<Value, (string, BlockId)>,
      entries: map<(string, BlockId), Value>)
    requires BlockShape(insts, b, owner, entries) && forall i | 0 <= i < |insts| :: GetDef(insts[i]) != Some(v)
    requires v in owner && owner[v] == (x, b) && (x, b) in entries && entries[(x, b)] == v
    ensures BlockShape([Phi(v, map[])] + insts, b, owner, entries)
  {
    var next := [Phi(v, map[])] + insts;
    assert forall i | 0 < i < |next| :: next[i] == insts[i - 1];
  }

  // ----- remembering a predecessor's value -----

  ghost function Memoised(s: Snapshot, x: string, b: BlockId, u: Value): Snapshot {
    s.(defs := SetDef(s.defs, x, b, u), entries := s.entries[(x, b) := u])
  }

  lemma MemoisedAgain(s: Snapshot, x: string, b: BlockId, v: Value)
    requires Reads(s, x, b, v) && (x, b) in s.entries && s.entries[(x, b)] == v
    ensures Memoised(s, x, b, v) == s
  {
    assert s.defs[x][b := v] == s.defs[x];
    assert SetDef(s.defs, x, b, v) == s.defs;
    assert s.entries[(x, b) := v] == s.entries;
  }

  lemma MemoisedExtends(s: Snapshot, x: string, b: BlockId, u: Value)
    requires DefsOk(s) && b < |s.blocks| && (x, b) !in s.written && CopiesPredecessor(s, x, b, u)
    requires (x, b) in s.entries ==> s.entries[(x, b)] == u
    ensures LookupExtends(s, Memoised(s, x, b, u))
  {
  }

  lemma MemoisedShaped(s: Snapshot, x: string, b: BlockId, u: Value)
    requires Shaped(s.blocks, s.owner, s.entries) && ((x, b) in s.entries ==> s.entries[(x, b)] == u)
    ensures Shaped(s.blocks, s.owner, Memoised(s, x, b, u).entries)
  {
    forall c: BlockId | c < |s.blocks|
      ensures BlockShape(s.blocks[c].insts, c, s.owner, Memoised(s, x, b, u).entries)
    {
      assert BlockShape(s.blocks[c].insts, c, s.owner, s.entries);
      OwnedLater(s.blocks[c].insts, c, s.owner, s.entries, s.owner, Memoised(s, x, b, u).entries);
    }
  }

  /** Where a block copies its only predecessor, remembering the value keeps every invariant; if the
      recursion already remembered one, it is the same. */
  lemma MemoisedOk(s: Snapshot, x: string, b: BlockId, u: Value)
    requires Inv(s) && 0 < b < |s.blocks| && (x, b) !in s.written
    requires (x, b) in s.entries ==> CopiesPredecessor(s, x, b, s.entries[(x, b)])
    requires CopiesPredecessor(s, x, b, u)
    ensures Inv(Memoised(s, x, b, u)) && LookupExtends(s, Memoised(s, x, b, u))
    ensures (x, b) in s.entries ==> s.entries[(x, b)] == u
  {
    hide Shaped, ValuesOk, BlocksOk, LookupExtends, IncompleteOk, PhiOps;
    var t := Memoised(s, x, b, u);
    MemoisedExtends(s, x, b, u);
    MemoisedFrame(s, x, b, u);
    MemoisedShaped(s, x, b, u);
    forall y, c: BlockId | (y, c) in t.entries
      ensures EntryOk(t, y, c)
    {
      if (y, c) == (x, b) {
        assert CopiesPredecessor(t, x, b, u);
      } else {
        assert EntryOk(s, y, c);
        MemoisedKeepsEntry(s, x, b, u, y, c);
      }
    }
    MemoisedIncomplete(s, x, b, u);
  }

  lemma MemoisedFrame(s: Snapshot, x: string, b: BlockId, u: Value)
    requires BlocksOk(s) && ValuesOk(s) && DefsOk(s) && (x, b) !in s.written
    ensures var t := Memoised(s, x, b, u); BlocksOk(t) && ValuesOk(t) && DefsOk(t)
  {
  }

  lemma MemoisedIncomplete(s: Snapshot, x: string, b: BlockId, u: Value)
    requires IncompleteOk(s)
    ensures IncompleteOk(Memoised(s, x, b, u))
  {
    forall y, c: BlockId, v: Value | IsIncomplete(Memoised(s, x, b, u), y, c, v)
      ensures IsPlaced(Memoised(s, x, b, u), y, c, v)
    {
      assert IsIncomplete(s, y, c, v);
    }
  }

  lemma MemoisedKeepsEntry(s: Snapshot, x: string, b: BlockId, u: Value, y: string, c: BlockId)
    requires (y, c) in s.entries && EntryOk(s, y, c)
    requires DefOf(s.defs, x, b).Some? ==> DefOf(s.defs, x, b) == Some(u)
    requires (y, c) != (x, b)
    ensures EntryOk(Memoised(s, x, b, u), y, c)
  {
  }

  // ----- filling in a phi -----

  function SetPhiOps(insts: seq<Kind>, v: Value, ops: map<BlockId, Value>): (r: seq<Kind>)
    ensures |r| == |insts|
  {
    if insts == [] then []
    else if insts[0].Phi? && insts[0].dest == v then [Phi(v, ops)] + insts[1..]
    else [insts[0]] + SetPhiOps(insts[1..], v, ops)
  }

  /** The loop over the instructions stops at the phi that SetPhiOps replaces. */
  lemma {:induction false} SetPhiOpsAt(insts: seq<Kind>, v: Value, ops: map<BlockId, Value>, i: nat)
    requires i <= |insts|
    requires forall j | 0 <= j < i :: !(insts[j].Phi? && insts[j].dest == v)
    requires i < |insts| ==> insts[i].Phi? && insts[i].dest == v
    ensures SetPhiOps(insts, v, ops) == if i < |insts| then insts[i := Phi(v, ops)] else insts
  {
    if insts != [] && i > 0 {
      SetPhiOpsAt(insts[1..], v, ops, i - 1);
      assert insts == [insts[0]] + insts[1..];
    }
  }

  lemma {:induction false} SetPhiOpsFrame(insts: seq<Kind>, v: Value, ops: map<BlockId, Value>, u: Value)
    ensures var r := SetPhiOps(insts, v, ops);
      && NonPhis(r) == NonPhis(insts)
      && (Defines(r, u) <==> Defines(insts, u))
      && PhiOps(r, u) == if u == v && PhiOps(insts, v).Some? then Some(ops) else PhiOps(insts, u)
  {
    var r := SetPhiOps(insts, v, ops);
    if insts != [] {
      assert insts == [insts[0]] + insts[1..];
      DefinesCons(insts[0], insts[1..], u);
      if insts[0].Phi? && insts[0].dest == v {
        DefinesCons(Phi(v, ops), insts[1..], u);
      } else {
        SetPhiOpsFrame(insts[1..], v, ops, u);
        DefinesCons(insts[0], SetPhiOps(insts[1..], v, ops), u);
        assert r[1..] == SetPhiOps(insts[1..], v, ops);
      }
    }
  }

  ghost function Filled(s: Snapshot, phi: Value, b: BlockId, ops: map<BlockId, Value>): Snapshot
    requires b < |s.blocks|
  {
    s.(blocks := s.blocks[b := s.blocks[b].(insts := SetPhiOps(s.blocks[b].insts, phi, ops))],
       pending := s.pending - {phi})
  }

  lemma FilledKeepsEntry(s: Snapshot, x: string, phi: Value, b: BlockId, ops: map<BlockId, Value>, y: string,
      c: BlockId)
    requires b < |s.blocks| && phi in s.owner && s.owner[phi] == (x, b) && Complete(s, x, b, ops)
    requires PhiOps(s.blocks[b].insts, phi).Some?
    requires (y, c) in s.entries && EntryOk(s, y, c)
    ensures EntryOk(Filled(s, phi, b, ops), y, c)
  {
    var t, u := Filled(s, phi, b, ops), s.entries[(y, c)];
    SetPhiOpsFrame(s.blocks[b].insts, phi, ops, u);
    assert t.blocks[c].preds == s.blocks[c].preds;
    if CopiesPredecessor(s, y, c, u) {
      assert CopiesPredecessor(t, y, c, u);
    } else if u == phi {
      assert Complete(t, x, b, ops);
      assert IsPhiFor(t, y, c, u);
    } else {
      assert PhiOps(t.blocks[c].insts, u) == PhiOps(s.blocks[c].insts, u);
      if Complete(s, y, c, PhiOps(s.blocks[c].insts, u).value) {
        assert Complete(t, y, c, PhiOps(s.blocks[c].insts, u).value);
      }
      assert IsPhiFor(t, y, c, u);
    }
  }

  lemma FilledFrame(s: Snapshot, phi: Value, b: BlockId, ops: map<BlockId, Value>)
    requires ValuesOk(s) && b < |s.blocks| && phi in s.pending
    ensures ValuesOk(Filled(s, phi, b, ops)) && LookupExtends(s, Filled(s, phi, b, ops))
  {
    var t := Filled(s, phi, b, ops);
    forall u: Value
      ensures Defines(t.blocks[b].insts, u) <==> Defines(s.blocks[b].insts, u)
      ensures PhiOps(s.blocks[b].insts, u).Some? ==>
        PhiOps(t.blocks[b].insts, u).Some?
          && (u !in s.pending ==> PhiOps(t.blocks[b].insts, u) == PhiOps(s.blocks[b].insts, u))
      ensures NonPhis(t.blocks[b].insts) == NonPhis(s.blocks[b].insts)
    {
      SetPhiOpsFrame(s.blocks[b].insts, phi, ops, u);
    }
    assert NonPhis(t.blocks[b].insts) == NonPhis(s.blocks[b].insts) by {
      SetPhiOpsFrame(s.blocks[b].insts, phi, ops, phi);
    }
    assert forall c: BlockId, u: Value | c < |s.blocks| ::
      Defines(t.blocks[c].insts, u) <==> Defines(s.blocks[c].insts, u);
  }

  lemma FilledOk(s: Snapshot, x: string, phi: Value, b: BlockId, ops: map<BlockId, Value>)
    requires Inv(s) && b < |s.blocks| && phi in s.owner && s.owner[phi] == (x, b) && phi in s.pending
    requires PhiOps(s.blocks[b].insts, phi).Some? && Complete(s, x, b, ops)
    ensures Inv(Filled(s, phi, b, ops)) && LookupExtends(s, Filled(s, phi, b, ops))
    ensures PhiOps(Filled(s, phi, b, ops).blocks[b].insts, phi) == Some(ops)
    ensures Complete(Filled(s, phi, b, ops), x, b, ops)
  {
    hide Shaped, ValuesOk, LookupExtends, IncompleteOk;
    FilledFrame(s, phi, b, ops);
    FilledIncomplete(s, phi, b, ops);
    FilledShaped(s, phi, b, ops);
    SetPhiOpsFrame(s.blocks[b].insts, phi, ops, phi);
    forall y, c: BlockId | (y, c) in s.entries
      ensures EntryOk(Filled(s, phi, b, ops), y, c)
    {
      assert EntryOk(s, y, c);
      FilledKeepsEntry(s, x, phi, b, ops, y, c);
    }
  }

  lemma FilledShaped(s: Snapshot, phi: Value, b: BlockId, ops: map<BlockId, Value>)
    requires Shaped(s.blocks, s.owner, s.entries) && b < |s.blocks|
    ensures Shaped(Filled(s, phi, b, ops).blocks, s.owner, s.entries)
  {
    MirroredKept(s.blocks, Filled(s, phi, b, ops).blocks);
    SetPhiOpsPointwise(s.blocks[b].insts, phi, ops);
    assert BlockShape(s.blocks[b].insts, b, s.owner, s.entries);
  }

  /** Replacing a phi's operands changes neither what is defined where nor where phis are. */
  lemma {:induction false} SetPhiOpsPointwise(insts: seq<Kind>, v: Value, ops: map<BlockId, Value>)
    ensures var r := SetPhiOps(insts, v, ops);
      forall i | 0 <= i < |insts| :: GetDef(r[i]) == GetDef(insts[i]) && (r[i].Phi? <==> insts[i].Phi?)
  {
    if insts != [] && !(insts[0].Phi? && insts[0].dest == v) {
      SetPhiOpsPointwise(insts[1..], v, ops);
    }
  }

  lemma FilledIncomplete(s: Snapshot, phi: Value, b: BlockId, ops: map<BlockId, Value>)
    requires IncompleteOk(s) && b < |s.blocks|
    ensures IncompleteOk(Filled(s, phi, b, ops))
  {
    var t := Filled(s, phi, b, ops);
    forall y, c: BlockId, u: Value | IsIncomplete(t, y, c, u)
      ensures IsPlaced(t, y, c, u)
    {
      assert IsIncomplete(s, y, c, u);
      SetPhiOpsFrame(s.blocks[b].insts, phi, ops, u);
    }
  }

  // ----- sealing -----

  ghost function Sealed(s: Snapshot, b: BlockId): Snapshot {
    s.(sealed := s.sealed + {b}, incomplete := s.incomplete - {b},
       pending := s.pending + (if b in s.incomplete then s.incomplete[b].Values else {}))
  }

  lemma SealedKeepsEntry(s: Snapshot, b: BlockId, y: string, c: BlockId)
    requires b < |s.blocks| && (y, c) in s.entries && EntryOk(s, y, c)
    ensures EntryOk(Sealed(s, b), y, c)
  {
  }

  lemma SealedOk(s: Snapshot, b: BlockId)
    requires Inv(s) && b < |s.blocks|
    ensures Inv(Sealed(s, b))
  {
    var t := Sealed(s, b);
    forall y, c: BlockId | (y, c) in t.entries
      ensures EntryOk(t, y, c)
    {
      assert EntryOk(s, y, c);
      SealedKeepsEntry(s, b, y, c);
    }
    forall y, c: BlockId, u: Value | IsIncomplete(t, y, c, u)
      ensures IsPlaced(t, y, c, u)
    {
      assert IsIncomplete(s, y, c, u);
    }
    forall u | u in t.pending
      ensures u in t.owner
    {
      if u !in s.pending {
        var y :| y in s.incomplete[b] && s.incomplete[b][y] == u;
        assert IsIncomplete(s, y, b, u);
      }
    }
  }

  // ----- steps of a lookup -----

  lemma UnboundHere(s: Snapshot, x: string, b: BlockId)
    requires Inv(s) && b < |s.blocks| && b in s.sealed && s.blocks[b].preds == [] && DefOf(s.defs, x, b).None?
    ensures Unbound(s, x, b)
  {
    assert UnboundWalk(s, x, b, [b]);
  }

  lemma UnboundThrough(s: Snapshot, x: string, p: BlockId, b: BlockId)
    requires Inv(s) && Unbound(s, x, p) && b < |s.blocks| && p in s.blocks[b].preds && DefOf(s.defs, x, b).None?
    ensures Unbound(s, x, b)
  {
    var w :| UnboundWalk(s, x, p, w);
    assert (w + [b])[..|w + [b]| - 1] == w;
    assert UnboundWalk(s, x, b, w + [b]);
  }

  lemma StepBack(s: Snapshot, b: BlockId)
    requires Inv(s) && ChainsReachable(s) && b < |s.blocks| && b in s.sealed && |s.blocks[b].preds| == 1
    ensures s.blocks[b].preds[0] < |s.blocks|
    ensures Depth(EdgesOf(s.blocks), ENTRY, s.blocks[b].preds[0]) < Depth(EdgesOf(s.blocks), ENTRY, b)
  {
    var p := s.blocks[b].preds[0];
    assert p in s.blocks[b].preds;
    SinglePredecessorIsCloser(EdgesOf(s.blocks), ENTRY, p, b);
  }

  /** Recording a phi before reading its operands leaves fewer blocks to resolve. */
  lemma FewerUnresolved(s: Snapshot, t: Snapshot, x: string, b: BlockId)
    requires b < |s.blocks| && DefOf(s.defs, x, b).None? && DefOf(t.defs, x, b).Some?
    requires Unresolved(t, x) <= Unresolved(s, x)
    ensures |Unresolved(t, x)| < |Unresolved(s, x)|
  {
    SmallerSet(Unresolved(t, x), Unresolved(s, x), b);
  }

  lemma SmallerSet(a: set<BlockId>, b: set<BlockId>, k: BlockId)
    requires a <= b && k in b && k !in a
    ensures |a| < |b|
  {
    CardinalityMonotone(a, b - {k});
  }

  lemma CardinalityMonotone<T>(a: set<T>, b: set<T>)
    requires a <= b
    ensures |a| <= |b|
  {
    assert b == a + (b - a);
  }

  /** Reading x at the end of b gives v: the last store in b, or else what x holds on entry to b. */
  ghost predicate Reads(s: Snapshot, x: string, b: BlockId, v: Value) {
    && DefOf(s.defs, x, b) == Some(v)
    && ((x, b) in s.written ==> s.written[(x, b)] == v)
    && ((x, b) !in s.written ==> (x, b) in s.entries && s.entries[(x, b)] == v)
  }

  lemma NotYetUsed(s: Snapshot, x: string, b: BlockId)
    requires Inv(s) && b < |s.blocks| && (b in s.sealed ==> s.blocks[b].preds != []) && DefOf(s.defs, x, b).None?
    ensures s.count !in s.pending && b != ENTRY && (x, b) !in s.written
  {
  }

  lemma PlaceStep(s: Snapshot, x: string, b: BlockId)
    requires Inv(s) && ChainsReachable(s) && b < |s.blocks| && DefOf(s.defs, x, b).None?
    requires b in s.sealed ==> |s.blocks[b].preds| > 1
    ensures var t := PlacedPhi(s, x, b);
      && Inv(t) && LookupExtends(s, t) && Reads(t, x, b, s.count)
      && ChainsReachable(t) && EdgesOf(t.blocks) == EdgesOf(s.blocks)
      && |Unresolved(t, x)| < |Unresolved(s, x)|
      && |t.blocks| == |s.blocks| && t.sealed == s.sealed
        && (if b in s.sealed then s.count in t.pending else t.pending == s.pending)
      && s.count in t.owner && t.owner[s.count] == (x, b) && PhiOps(t.blocks[b].insts, s.count).Some?
      && (x, b) in t.entries && t.entries[(x, b)] == s.count
      && t.blocks[b].preds == s.blocks[b].preds
      && t.pending - {s.count} == s.pending
      && (forall p: BlockId :: Unbound(t, x, p) ==> Unbound(s, x, p))
  {
    hide Inv, LookupExtends, ChainsReachable, Unbound, Unresolved, EdgesOf, BlockExtends;
    var t := PlacedPhi(s, x, b);
    NotYetUsed(s, x, b);
    PlacedPhiOk(s, x, b);
    LookupKeepsEdges(s, t);
    FewerUnresolved(s, t, x, b);
    PlacedPhiValues(s, x, b);
  }

  lemma CopyStep(s: Snapshot, t: Snapshot, x: string, b: BlockId, u: Value)
    requires Inv(s) && Inv(t) && LookupExtends(s, t)
    requires b < |s.blocks| && b in s.sealed && |s.blocks[b].preds| == 1 && DefOf(s.defs, x, b).None?
    requires DefOf(t.defs, x, s.blocks[b].preds[0]) == Some(u)
    ensures var m := Memoised(t, x, b, u);
      Inv(m) && LookupExtends(s, m) && Reads(m, x, b, u) && m.pending == t.pending
  {
    assert BlockExtends(s, t, b);
    assert (x, b) in t.entries ==> NewEntryOk(t, x, b);
    assert b != 0;
    MemoisedOk(t, x, b, u);
    LookupExtendsTransitive(s, t, Memoised(t, x, b, u));
  }

  lemma FillStep(s: Snapshot, t: Snapshot, x: string, phi: Value, b: BlockId, ops: map<BlockId, Value>)
    requires Inv(s) && Inv(t) && LookupExtends(s, t) && t.pending == s.pending
    requires b < |s.blocks| && b in s.sealed && phi in s.pending && phi in s.owner && s.owner[phi] == (x, b)
    requires PhiOps(s.blocks[b].insts, phi).Some?
    requires forall p :: p in ops <==> p in s.blocks[b].preds
    requires forall p | p in ops :: DefOf(t.defs, x, p) == Some(ops[p])
    ensures var f := Filled(t, phi, b, ops);
      && Inv(f) && LookupExtends(s, f) && f.pending == s.pending - {phi}
      && PhiOps(f.blocks[b].insts, phi) == Some(ops) && Complete(f, x, b, ops)
  {
    assert BlockExtends(s, t, b);
    assert Complete(t, x, b, ops);
    FilledOk(t, x, phi, b, ops);
    LookupExtendsTransitive(s, t, Filled(t, phi, b, ops));
  }

  lemma ReadsAfter(s: Snapshot, t: Snapshot, x: string, b: BlockId, v: Value)
    requires Reads(s, x, b, v) && LookupExtends(s, t)
    ensures Reads(t, x, b, v)
    ensures (x, b) in s.entries ==> (x, b) in t.entries && t.entries[(x, b)] == s.entries[(x, b)]
  {
  }

  ghost function Stored(s: Snapshot, x: string, b: BlockId, v: Value): Snapshot {
    s.(defs := SetDef(s.defs, x, b, v), written := s.written[(x, b) := v])
  }

  lemma StoredKeepsEntry(s: Snapshot, x: string, b: BlockId, v: Value, y: string, c: BlockId)
    requires (y, c) in s.entries && EntryOk(s, y, c)
    requires y == x && c in s.sealed ==> b !in s.blocks[c].preds
    ensures EntryOk(Stored(s, x, b, v), y, c)
  {
  }

  lemma StoredOk(s: Snapshot, x: string, b: BlockId, v: Value)
    requires Inv(s)
    requires forall c: BlockId | c < |s.blocks| && c in s.sealed && b in s.blocks[c].preds :: (x, c) !in s.entries
    ensures Inv(Stored(s, x, b, v)) && Reads(Stored(s, x, b, v), x, b, v)
  {
    var t := Stored(s, x, b, v);
    forall y, c: BlockId | (y, c) in t.entries
      ensures EntryOk(t, y, c)
    {
      assert EntryOk(s, y, c);
      StoredKeepsEntry(s, x, b, v, y, c);
    }
    forall y, c: BlockId, u: Value | IsIncomplete(t, y, c, u)
      ensures IsPlaced(t, y, c, u)
    {
      assert IsIncomplete(s, y, c, u);
    }
  }

  // ----- steps of the front end -----

  ghost predicate Fresh(s: Snapshot, v: Value) {
    v < s.count && v !in s.owner && forall b: BlockId | b < |s.blocks| :: !Defines(s.blocks[b].insts, v)
  }

  lemma CountedOk(s: Snapshot)
    requires Inv(s)
    ensures Inv(s.(count := s.count + 1)) && Fresh(s.(count := s.count + 1), s.count)
  {
    var t := s.(count := s.count + 1);
    forall y, c: BlockId | (y, c) in t.entries
      ensures EntryOk(t, y, c)
    {
      assert EntryOk(s, y, c);
      SameEntry(s, t, y, c);
    }
    forall y, c: BlockId, u: Value | IsIncomplete(t, y, c, u)
      ensures IsPlaced(t, y, c, u)
    {
      assert IsIncomplete(s, y, c, u);
    }
    forall u | u in s.owner
      ensures u < s.count
    {
      assert Defines(s.blocks[s.owner[u].1].insts, u);
    }
  }

  /** An entry depends only on its own block's sealing, predecessors and phis. */
  lemma SameEntry(s: Snapshot, t: Snapshot, y: string, c: BlockId)
    requires (y, c) in s.entries && EntryOk(s, y, c)
    requires t.entries == s.entries && t.defs == s.defs && t.owner == s.owner && t.pending == s.pending
    requires t.incomplete == s.incomplete && t.sealed == s.sealed && c < |t.blocks|
    requires c in s.sealed ==> t.blocks[c].preds == s.blocks[c].preds
    requires forall u: Value | PhiOps(s.blocks[c].insts, u).Some? ::
      PhiOps(t.blocks[c].insts, u) == PhiOps(s.blocks[c].insts, u)
    ensures EntryOk(t, y, c)
  {
  }

  /** Changing blocks without touching phis, sealed predecessor lists or definitions of old values. */
  lemma BlocksChangedOk(s: Snapshot, t: Snapshot)
    requires Inv(s) && t == s.(blocks := t.blocks) && BlocksOk(t) && ValuesOk(t) && |s.blocks| <= |t.blocks|
    requires Shaped(t.blocks, t.owner, t.entries)
    requires forall c: BlockId, u: Value | c < |s.blocks| && PhiOps(s.blocks[c].insts, u).Some? ::
      PhiOps(t.blocks[c].insts, u) == PhiOps(s.blocks[c].insts, u)
    requires forall x, c: BlockId | (x, c) in s.entries && c in s.sealed && c < |s.blocks| ::
      t.blocks[c].preds == s.blocks[c].preds
    ensures Inv(t)
  {
    forall y, c: BlockId | (y, c) in t.entries
      ensures EntryOk(t, y, c)
    {
      assert EntryOk(s, y, c);
      SameEntry(s, t, y, c);
    }
    forall y, c: BlockId, u: Value | IsIncomplete(t, y, c, u)
      ensures IsPlaced(t, y, c, u)
    {
      assert IsIncomplete(s, y, c, u);
    }
  }

  lemma GrownOk(s: Snapshot, b: BlockId)
    requires Inv(s) && b == |s.blocks|
    ensures Inv(s.(blocks := s.blocks + [Block(b, [], [], [])]))
  {
    hide Shaped, DefsOk, IncompleteOk, EntryOk;
    GrownShaped(s, b);
    BlocksChangedOk(s, s.(blocks := s.blocks + [Block(b, [], [], [])]));
  }

  lemma GrownMirrored(blocks: seq<Block>, b: BlockId)
    requires Mirrored(blocks)
    ensures Mirrored(blocks + [Block(b, [], [], [])])
  {
    var next := blocks + [Block(b, [], [], [])];
    forall x, y
      ensures Succeeds(next, x, y) <==> Precedes(next, x, y)
    {
      assert Succeeds(blocks, x, y) <==> Precedes(blocks, x, y);
    }
  }

  lemma GrownShaped(s: Snapshot, b: BlockId)
    requires Shaped(s.blocks, s.owner, s.entries) && b == |s.blocks|
    ensures Shaped(s.blocks + [Block(b, [], [], [])], s.owner, s.entries)
  {
    var next := s.blocks + [Block(b, [], [], [])];
    GrownMirrored(s.blocks, b);
    forall c: BlockId | c < |next|
      ensures BlockShape(next[c].insts, c, s.owner, s.entries)
    {
      assert c < b ==> BlockShape(s.blocks[c].insts, c, s.owner, s.entries);
    }
  }

  ghost function Appended(s: Snapshot, b: BlockId, k: Kind): Snapshot
    requires b < |s.blocks|
  {
    s.(blocks := s.blocks[b := s.blocks[b].(insts := s.blocks[b].insts + [k])])
  }

  lemma {:induction false} AppendFrame(insts: seq<Kind>, k: Kind, u: Value)
    requires !k.Phi?
    ensures PhiOps(insts + [k], u) == PhiOps(insts, u)
    ensures Defines(insts + [k], u) <==> Defines(insts, u) || GetDef(k) == Some(u)
  {
    if insts == [] {
      assert insts + [k] == [k];
      assert GetDef(([k])[0]) == GetDef(k);
    } else {
      AppendFrame(insts[1..], k, u);
      assert (insts + [k])[1..] == insts[1..] + [k];
      assert insts == [insts[0]] + insts[1..];
      assert insts + [k] == [insts[0]] + (insts[1..] + [k]);
      DefinesCons(insts[0], insts[1..], u);
      DefinesCons(insts[0], insts[1..] + [k], u);
    }
  }

  lemma AppendedShaped(s: Snapshot, b: BlockId, k: Kind)
    requires Shaped(s.blocks, s.owner, s.entries) && b < |s.blocks| && !k.Phi?
    requires GetDef(k).Some? ==> !Defines(s.blocks[b].insts, GetDef(k).value)
    ensures Shaped(Appended(s, b, k).blocks, s.owner, s.entries)
  {
    MirroredKept(s.blocks, Appended(s, b, k).blocks);
    assert BlockShape(s.blocks[b].insts, b, s.owner, s.entries);
    var insts := s.blocks[b].insts;
    assert forall i | 0 <= i < |insts| && GetDef(insts[i]).Some? :: Defines(insts, GetDef(insts[i]).value);
    assert forall j | j in insts + [k] :: j in insts || j == k;
  }

  lemma AppendedOk(s: Snapshot, b: BlockId, k: Kind)
    requires Inv(s) && b < |s.blocks| && !k.Phi?
    requires GetDef(k).Some? ==> Fresh(s, GetDef(k).value)
    ensures Inv(Appended(s, b, k))
  {
    hide Shaped, DefsOk, IncompleteOk, EntryOk;
    var t := Appended(s, b, k);
    forall u: Value
      ensures PhiOps(t.blocks[b].insts, u) == PhiOps(s.blocks[b].insts, u)
      ensures Defines(t.blocks[b].insts, u) <==> Defines(s.blocks[b].insts, u) || GetDef(k) == Some(u)
    {
      AppendFrame(s.blocks[b].insts, k, u);
    }
    AppendedShaped(s, b, k);
    BlocksChangedOk(s, t);
  }

  ghost function Linked(s: Snapshot, from: BlockId, to: BlockId): Snapshot
    requires from < |s.blocks| && to < |s.blocks|
  {
    var succs := s.blocks[from].succs;
    var blocks := s.blocks[from := s.blocks[from].(succs := if to in succs then succs else succs + [to])];
    var preds := blocks[to].preds;
    s.(blocks := blocks[to := blocks[to].(preds := if from in preds then preds else preds + [from])])
  }

  /** Linking changes edges only. */
  lemma LinkedShape(s: Snapshot, from: BlockId, to: BlockId)
    requires BlocksOk(s) && ValuesOk(s) && from < |s.blocks| && 0 < to < |s.blocks|
    ensures var t := Linked(s, from, to);
      && t == s.(blocks := t.blocks) && |t.blocks| == |s.blocks| && BlocksOk(t) && ValuesOk(t)
      && (forall c: BlockId | c < |s.blocks| :: t.blocks[c].insts == s.blocks[c].insts)
      && (forall c: BlockId | c < |s.blocks|
        && (c != to || from in s.blocks[to].preds) :: t.blocks[c].preds == s.blocks[c].preds)
  {
    hide Defines;
  }

  lemma LinkedMirrored(s: Snapshot, from: BlockId, to: BlockId)
    requires Mirrored(s.blocks) && from < |s.blocks| && to < |s.blocks|
    ensures Mirrored(Linked(s, from, to).blocks)
  {
    var t := Linked(s, from, to);
    forall b: BlockId, c: BlockId
      ensures Succeeds(t.blocks, b, c) <==> Precedes(t.blocks, b, c)
    {
      assert Succeeds(s.blocks, b, c) <==> Precedes(s.blocks, b, c);
      assert Succeeds(t.blocks, b, c) <==> Succeeds(s.blocks, b, c) || (b, c) == (from, to);
      assert Precedes(t.blocks, b, c) <==> Precedes(s.blocks, b, c) || (b, c) == (from, to);
    }
  }

  lemma LinkedShaped(s: Snapshot, from: BlockId, to: BlockId)
    requires Shaped(s.blocks, s.owner, s.entries) && from < |s.blocks| && to < |s.blocks|
    ensures Shaped(Linked(s, from, to).blocks, s.owner, s.entries)
  {
    LinkedMirrored(s, from, to);
    hide Mirrored;
    forall c: BlockId | c < |s.blocks|
      ensures BlockShape(Linked(s, from, to).blocks[c].insts, c, s.owner, s.entries)
    {
      assert BlockShape(s.blocks[c].insts, c, s.owner, s.entries);
    }
  }

  lemma LinkedOk(s: Snapshot, from: BlockId, to: BlockId)
    requires Inv(s) && from < |s.blocks| && 0 < to < |s.blocks|
    requires to in s.sealed && from !in s.blocks[to].preds ==> forall x :: (x, to) !in s.entries
    ensures Inv(Linked(s, from, to))
  {
    LinkedShaped(s, from, to);
    hide Shaped;
    LinkedShape(s, from, to);
    hide Linked, PhiOps, EntryOk, IncompleteOk, DefsOk;
    BlocksChangedOk(s, Linked(s, from, to));
  }

  /** Every phi in the map belongs to its variable in b and still waits for its operands. */
  ghost predicate WaitingPhis(s: Snapshot, b: BlockId, phis: map<string, Value>)
    requires b < |s.blocks|
  {
    forall x | x in phis ::
      && phis[x] in s.pending && phis[x] in s.owner && s.owner[phis[x]] == (x, b)
      && PhiOps(s.blocks[b].insts, phis[x]).Some?
  }

  lemma SealedPhis(s: Snapshot, b: BlockId, phis: map<string, Value>)
    requires Inv(s) && b < |s.blocks| && phis == if b in s.incomplete then s.incomplete[b] else map[]
    ensures WaitingPhis(Sealed(s, b), b, phis)
  {
    forall x | x in phis
      ensures IsPlaced(s, x, b, phis[x]) && phis[x] in phis.Values
    {
      assert IsIncomplete(s, x, b, phis[x]);
    }
  }

  lemma WaitingPhisAfter(s: Snapshot, t: Snapshot, b: BlockId, phis: map<string, Value>, x: string)
    requires b < |s.blocks| && LookupExtends(s, t) && WaitingPhis(s, b, phis) && x in phis
    requires s.pending == phis.Values && t.pending == s.pending - {phis[x]}
    ensures WaitingPhis(t, b, phis - {x}) && t.pending == (phis - {x}).Values
  {
    assert BlockExtends(s, t, b);
    forall y | y in phis && y != x
      ensures phis[y] != phis[x]
    {
    }
    forall v | v in t.pending
      ensures v in (phis - {x}).Values
    {
      var y :| y in phis && phis[y] == v;
      assert y in phis - {x};
    }
  }

  // ----- the builder -----

  class CFGBuilder {
    var blocks: seq<Block>
    var valueCount: nat
    var variableDefs: Definitions
    var incompletePhis: map<BlockId, map<string, Value>>
    var sealedBlocks: set<BlockId>
    ghost var written: map<(string, BlockId), Value>
    ghost var entries: map<(string, BlockId), Value>
    ghost var owner: map<Value, (string, BlockId)>
    ghost var pending: set<Value>

    ghost function State(): Snapshot
      reads this
    {
      Snapshot(blocks, valueCount, variableDefs, incompletePhis, sealedBlocks, written, entries, owner, pending)
    }

    ghost predicate Valid()
      reads this
    {
      Inv(State()) && pending == {}
    }

    constructor ()
      ensures Valid() && blocks == [Block(ENTRY, [], [], [])] && sealedBlocks == {ENTRY}
      ensures written == map[] && valueCount == 0
    {
      blocks := [Block(ENTRY, [], [], [])];
      valueCount := 0;
      variableDefs, incompletePhis := map[], map[];
      sealedBlocks := {ENTRY};
      written, entries, owner, pending := map[], map[], map[], {};
    }

    /** A store by the front end. Joins and copies that already looked x up through b would go
        stale, so the block must not have been read through. */
    method WriteVariable(x: string, b: BlockId, v: Value)
      requires Valid() && b < |blocks|
      requires forall c: BlockId | c < |blocks| && c in sealedBlocks && b in blocks[c].preds :: (x, c) !in entries
      modifies this`variableDefs, this`written
      ensures Valid() && Reads(State(), x, b, v)
      ensures State() == Stored(old(State()), x, b, v)
    {
      StoredOk(State(), x, b, v);
      ghost var s := State();
      variableDefs := SetDef(variableDefs, x, b, v);
      written := written[(x, b) := v];
      assert State() == Stored(s, x, b, v);
    }

    method NextValue() returns (v: Value)
      requires Valid()
      modifies this`valueCount
      ensures Valid() && Fresh(State(), v) && v == old(valueCount) && valueCount == v + 1
    {
      hide Inv, Fresh;
      CountedOk(State());
      ghost var s := State();
      v := valueCount;
      valueCount := valueCount + 1;
      assert State() == s.(count := s.count + 1);
    }

    method CreateBlock() returns (b: BlockId)
      requires Valid()
      modifies this`blocks
      ensures Valid() && b == |old(blocks)| && blocks == old(blocks) + [Block(b, [], [], [])]
    {
      b := |blocks|;
      GrownOk(State(), b);
      blocks := blocks + [Block(b, [], [], [])];
    }

    /** Appends an instruction other than a phi; what it defines must be a value of its own. */
    method AddInstruction(b: BlockId, k: Kind)
      requires Valid() && b < |blocks| && !k.Phi?
      requires GetDef(k).Some? ==> Fresh(State(), GetDef(k).value)
      modifies this`blocks
      ensures Valid() && State() == Appended(old(State()), b, k)
    {
      AppendedOk(State(), b, k);
      blocks := blocks[b := blocks[b].(insts := blocks[b].insts + [k])];
    }

    /** Adds an edge. Lookups that already went through the target's predecessors would miss it, so
        a sealed target must not have been read on entry, and nothing leads back to the entry block. */
    method LinkBlocks(from: BlockId, to: BlockId)
      requires Valid() && from < |blocks| && 0 < to < |blocks|
      requires to in sealedBlocks && from !in blocks[to].preds ==> forall x :: (x, to) !in entries
      modifies this`blocks
      ensures Valid() && State() == Linked(old(State()), from, to)
    {
      LinkedOk(State(), from, to);
      ghost var s := State();
      if to !in blocks[from].succs {
        blocks := blocks[from := blocks[from].(succs := blocks[from].succs + [to])];
      }
      if from !in blocks[to].preds {
        blocks := blocks[to := blocks[to].(preds := blocks[to].preds + [from])];
      }
      assert State() == Linked(s, from, to);
    }

    /** Declares that b's predecessors are all known and completes the phis waiting in it. */
    method SealBlock(b: BlockId) returns (r: Outcome)
      requires Valid() && b < |blocks| && ChainsReachable(Sealed(State(), b))
      modifies this
      ensures r.Done? ==> Valid() && LookupExtends(Sealed(old(State()), b), State())
      ensures r.Failed? ==> exists p :: p in old(blocks[b].preds) && Unbound(Sealed(old(State()), b), r.variable, p)
    {
      hide Inv, LookupExtends, ChainsReachable, Unbound;
      ghost var s := State();
      SealedOk(s, b);
      var phis := if b in incompletePhis then incompletePhis[b] else map[];
      SealedPhis(s, b, phis);
      sealedBlocks := sealedBlocks + {b};
      incompletePhis := incompletePhis - {b};
      pending := pending + phis.Values;
      assert State() == Sealed(s, b);
      r := CompletePhis(b, phis);
    }

    method CompletePhis(b: BlockId, waiting: map<string, Value>) returns (r: Outcome)
      requires Inv(State()) && ChainsReachable(State()) && b < |blocks| && b in sealedBlocks
      requires WaitingPhis(State(), b, waiting) && pending == waiting.Values
      modifies this
      ensures r.Done? ==> Inv(State()) && pending == {} && LookupExtends(old(State()), State())
      ensures r.Failed? ==> exists p :: p in old(blocks[b].preds) && Unbound(old(State()), r.variable, p)
    {
      hide Inv, LookupExtends, ChainsReachable, Unbound;
      ghost var s := State();
      LookupExtendsReflexive(s);
      var phis := waiting;
      while phis != map[]
        invariant |blocks| == |s.blocks| && Inv(State()) && LookupExtends(s, State())
        invariant WaitingPhis(State(), b, phis) && pending == phis.Values
        decreases phis.Keys
      {
        var x :| x in phis;
        ghost var t := State();
        LookupKeepsEdges(s, t);
        var filled := AddPhiOperands(x, phis[x], b);
        if filled.UnboundVariable? {
          return Failed(x);
        }
        ghost var u := State();
        LookupKeepsEdges(t, u);
        LookupExtendsTransitive(s, t, u);
        WaitingPhisAfter(t, u, b, phis, x);
        phis := phis - {x};
      }
      return Done;
    }

    method ReadVariable(x: string, b: BlockId) returns (r: Lookup)
      requires Inv(State()) && ChainsReachable(State()) && b < |blocks|
      modifies this
      ensures r.Found? ==> Inv(State()) && LookupExtends(old(State()), State()) && pending == old(pending)
      ensures r.Found? ==> Reads(State(), x, b, r.value)
      ensures r.UnboundVariable? ==> r.variable == x && Unbound(old(State()), x, b)
      decreases |Unresolved(State(), x)|, Depth(EdgesOf(blocks), ENTRY, b), 2
    {
      var known := DefOf(variableDefs, x, b);
      if known.Some? {
        return Found(known.value);
      }
      r := ReadVariableRecursive(x, b);
    }

    method ReadVariableRecursive(x: string, b: BlockId) returns (r: Lookup)
      requires Inv(State()) && ChainsReachable(State()) && b < |blocks|
      requires DefOf(variableDefs, x, b).None?
      modifies this
      ensures r.Found? ==> Inv(State()) && LookupExtends(old(State()), State()) && pending == old(pending)
      ensures r.Found? ==> Reads(State(), x, b, r.value)
      ensures r.UnboundVariable? ==> r.variable == x && Unbound(old(State()), x, b)
      decreases |Unresolved(State(), x)|, Depth(EdgesOf(blocks), ENTRY, b), 1
    {
      hide Inv, LookupExtends, ChainsReachable, PlacedPhi, Memoised, Reads, Unbound;
      ghost var s := State();
      if b !in sealedBlocks {
        PlaceStep(s, x, b);
        var v := PlacePhi(x, b);
        return Found(v);
      }
      var predecessors := blocks[b].preds;
      if |predecessors| == 0 {
        UnboundHere(s, x, b);
        return UnboundVariable(x);
      } else if |predecessors| == 1 {
        StepBack(s, b);
        r := ReadVariable(x, predecessors[0]);
        if r.UnboundVariable? {
          UnboundThrough(s, x, predecessors[0], b);
          return;
        }
        CopyStep(s, State(), x, b, r.value);
        Memoise(x, b, r.value);
      } else {
        PlaceStep(s, x, b);
        var v := PlacePhi(x, b);
        ghost var t := State();
        r := AddPhiOperands(x, v, b);
        if r.UnboundVariable? {
          ghost var p :| p in predecessors && Unbound(t, x, p);
          UnboundThrough(s, x, p, b);
          return;
        }
        LookupExtendsTransitive(s, t, State());
        ReadsAfter(t, State(), x, b, v);
        MemoisedAgain(State(), x, b, v);
        Memoise(x, b, v);
      }
    }

    /** Allocates a phi for x at the front of b and records it as what x holds there; in an unsealed
        block it waits for `SealBlock`, in a sealed one for its operands to be read. */
    method PlacePhi(x: string, b: BlockId) returns (v: Value)
      requires b < |blocks|
      modifies this
      ensures v == old(valueCount) && State() == PlacedPhi(old(State()), x, b)
    {
      v := valueCount;
      valueCount := valueCount + 1;
      if b !in sealedBlocks {
        incompletePhis := incompletePhis[b := (if b in incompletePhis then incompletePhis[b] else map[])[x := v]];
      } else {
        pending := pending + {v};
      }
      variableDefs := SetDef(variableDefs, x, b, v);
      blocks := blocks[b := blocks[b].(insts := [Phi(v, map[])] + blocks[b].insts)];
      owner, entries := owner[v := (x, b)], entries[(x, b) := v];
    }

    method Memoise(x: string, b: BlockId, v: Value)
      modifies this
      ensures State() == Memoised(old(State()), x, b, v)
    {
      variableDefs := SetDef(variableDefs, x, b, v);
      entries := entries[(x, b) := v];
    }

    /** Reads the variable at the end of every predecessor and fills in the phi. */
    method AddPhiOperands(x: string, phi: Value, b: BlockId) returns (r: Lookup)
      requires Inv(State()) && ChainsReachable(State()) && b < |blocks| && b in sealedBlocks
      requires phi in pending && phi in owner && owner[phi] == (x, b) && PhiOps(blocks[b].insts, phi).Some?
      modifies this
      ensures r.Found? ==> r.value == phi && Inv(State()) && LookupExtends(old(State()), State())
      ensures r.Found? ==> pending == old(pending) - {phi}
      ensures r.Found? ==> PhiOps(blocks[b].insts, phi).Some?
      ensures r.Found? ==> Complete(State(), x, b, PhiOps(blocks[b].insts, phi).value)
      ensures r.UnboundVariable? ==> r.variable == x
      ensures r.UnboundVariable? ==> exists p :: p in old(blocks[b].preds) && Unbound(old(State()), x, p)
      decreases |Unresolved(State(), x)| + 1, 0, 0
    {
      hide Inv, LookupExtends, ChainsReachable, PlacedPhi, Memoised, Reads, Unbound;
      ghost var s := State();
      var predecessors := blocks[b].preds;
      var operands: map<BlockId, Value> := map[];
      var i := 0;
      LookupExtendsReflexive(s);
      while i < |predecessors|
        invariant 0 <= i <= |predecessors|
        invariant Inv(State()) && LookupExtends(s, State()) && pending == s.pending
        invariant forall p :: p in operands <==> p in predecessors[..i]
        invariant forall p | p in operands :: DefOf(variableDefs, x, p) == Some(operands[p])
      {
        ghost var t := State();
        LookupKeepsEdges(s, t);
        BlocksInRange(s, b, predecessors[i]);
        CardinalityMonotone(Unresolved(t, x), Unresolved(s, x));
        var v := ReadVariable(x, predecessors[i]);
        if v.UnboundVariable? {
          return v;
        }
        LookupExtendsTransitive(s, t, State());
        operands := operands[predecessors[i] := v.value];
        assert predecessors[..i + 1] == predecessors[..i] + [predecessors[i]];
        i := i + 1;
      }
      ghost var t := State();
      assert predecessors[..i] == predecessors;
      LookupKeepsEdges(s, t);
      FillStep(s, t, x, phi, b, operands);
      FillPhi(phi, b, operands);
      return Found(phi);
    }

    /** Overwrites the operands of the first phi of b that defines `phi`. */
    method FillPhi(phi: Value, b: BlockId, ops: map<BlockId, Value>)
      requires b < |blocks|
      modifies this
      ensures State() == Filled(old(State()), phi, b, ops)
    {
      var insts := ReplacePhi(blocks[b].insts, phi, ops);
      blocks := blocks[b := blocks[b].(insts := insts)];
      pending := pending - {phi};
    }

    static method ReplacePhi(insts: seq<Kind>, phi: Value, ops: map<BlockId, Value>) returns (r: seq<Kind>)
      ensures r == SetPhiOps(insts, phi, ops)
    {
      r := insts;
      for i := 0 to |insts|
        invariant r == insts
        invariant forall j | 0 <= j < i :: !(insts[j].Phi? && insts[j].dest == phi)
      {
        if insts[i].Phi? && insts[i].dest == phi {
          r := r[i := Phi(phi, ops)];
          SetPhiOpsAt(insts, phi, ops, i);
          return;
        }
      }
      SetPhiOpsAt(insts, phi, ops, |insts|);
    }
  }
}
