/** Walks and dominance in a control-flow graph given by its set of edges. */
module Cfg {
  import opened IR

  type Edges = iset<(BlockId, BlockId)>

  ghost predicate IsPath(e: Edges, p: seq<BlockId>) {
    && |p| > 0
    && (|p| > 1 ==> (p[|p| - 2], p[|p| - 1]) in e && IsPath(e, p[..|p| - 1]))
  }

  /** p is a walk from the entry block to b; blocks may repeat on it. */
  ghost predicate Walk(e: Edges, entry: BlockId, p: seq<BlockId>, b: BlockId) {
    IsPath(e, p) && p[0] == entry && p[|p| - 1] == b
  }

  ghost predicate Reachable(e: Edges, entry: BlockId, b: BlockId) {
    exists p :: Walk(e, entry, p, b)
  }

  /** d lies on every walk from the entry to b. */
  ghost predicate Dominates(e: Edges, entry: BlockId, d: BlockId, b: BlockId) {
    forall p | Walk(e, entry, p, b) :: d in p
  }

  lemma {:induction false} PrefixIsPath(e: Edges, p: seq<BlockId>, k: nat)
    requires IsPath(e, p) && 1 <= k <= |p|
    ensures IsPath(e, p[..k])
    decreases |p|
  {
    if k == |p| {
      assert p[..k] == p;
    } else {
      PrefixIsPath(e, p[..|p| - 1], k);
      assert p[..|p| - 1][..k] == p[..k];
    }
  }

  lemma ExtendWalk(e: Edges, entry: BlockId, p: seq<BlockId>, b: BlockId, c: BlockId)
    requires Walk(e, entry, p, b) && (b, c) in e
    ensures Walk(e, entry, p + [c], c)
  {
  }

  lemma FirstOccurrence(p: seq<BlockId>, a: BlockId) returns (i: nat)
    requires a in p
    ensures i < |p| && p[i] == a && a !in p[..i]
  {
    i := 0;
    while p[i] != a
      invariant i < |p| && a !in p[..i] && a in p[i..]
      decreases |p| - i
    {
      assert p[..i + 1] == p[..i] + [p[i]];
      assert p[i..] == [p[i]] + p[i + 1..];
      i := i + 1;
    }
  }

  /** Two reachable blocks that dominate each other are the same block. */
  lemma DominanceAntisymmetric(e: Edges, entry: BlockId, a: BlockId, b: BlockId)
    requires Dominates(e, entry, a, b) && Dominates(e, entry, b, a)
    requires Reachable(e, entry, b)
    ensures a == b
  {
    var p :| Walk(e, entry, p, b);
    var i := FirstOccurrence(p, a);
    PrefixIsPath(e, p, i + 1);
    assert Walk(e, entry, p[..i + 1], a);
    if a != b {
      var j := FirstOccurrence(p[..i + 1], b);
      assert p[..i + 1][..j + 1] == p[..j + 1];
      PrefixIsPath(e, p, j + 1);
      assert Walk(e, entry, p[..j + 1], b);
      assert false;
    }
  }

  /** A strict dominator of c dominates every predecessor of c. */
  lemma DominatesPredecessor(e: Edges, entry: BlockId, d: BlockId, b: BlockId, c: BlockId)
    requires Dominates(e, entry, d, c) && d != c && (b, c) in e
    ensures Dominates(e, entry, d, b)
  {
    forall p | Walk(e, entry, p, b)
      ensures d in p
    {
      ExtendWalk(e, entry, p, b, c);
      assert d in p + [c];
    }
  }

  lemma DominanceTransitive(e: Edges, entry: BlockId, a: BlockId, b: BlockId, c: BlockId)
    requires Dominates(e, entry, a, b) && Dominates(e, entry, b, c)
    ensures Dominates(e, entry, a, c)
  {
    forall p | Walk(e, entry, p, c)
      ensures a in p
    {
      var i := FirstOccurrence(p, b);
      PrefixIsPath(e, p, i + 1);
      assert Walk(e, entry, p[..i + 1], b);
      assert a in p[..i + 1];
    }
  }

  /** The length of a shortest walk to b, zero when there is none. */
  ghost function Depth(e: Edges, entry: BlockId, b: BlockId): (n: nat)
    ensures forall p | Walk(e, entry, p, b) :: n <= |p|
    ensures Reachable(e, entry, b) ==> exists p :: Walk(e, entry, p, b) && |p| == n
  {
    if Reachable(e, entry, b) then
      var p :| Walk(e, entry, p, b);
      var q := Shortest(e, entry, b, p);
      |q|
    else 0
  }

  ghost function Shortest(e: Edges, entry: BlockId, b: BlockId, p: seq<BlockId>): (q: seq<BlockId>)
    requires Walk(e, entry, p, b)
    ensures Walk(e, entry, q, b)
    ensures forall r | Walk(e, entry, r, b) :: |q| <= |r|
    decreases |p|
  {
    if r :| Walk(e, entry, r, b) && |r| < |p| then Shortest(e, entry, b, r) else p
  }

  /** Going back over the only edge into a reachable block comes strictly closer to the entry. */
  lemma SinglePredecessorIsCloser(e: Edges, entry: BlockId, p: BlockId, c: BlockId)
    requires Reachable(e, entry, c) && c != entry
    requires forall q | (q, c) in e :: q == p
    ensures Reachable(e, entry, p) && Depth(e, entry, p) < Depth(e, entry, c)
  {
    var w :| Walk(e, entry, w, c) && |w| == Depth(e, entry, c);
    assert Walk(e, entry, w[..|w| - 1], p);
  }
}
