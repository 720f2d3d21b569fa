/** Breadth-first reachability over an edge relation, as the verifier asks it of the graph. */
module Reachability {
  import opened IR
  import opened Cfg

  type Successors = map<BlockId, seq<BlockId>>

  function Next(succs: Successors, b: BlockId): seq<BlockId> {
    if b in succs then succs[b] else []
  }

  ghost function EdgesIn(succs: Successors): Edges {
    iset e: (BlockId, BlockId) | e.1 in Next(succs, e.0)
  }

  /** Some walk, possibly of length zero, leads from a to b. */
  ghost predicate Reaches(succs: Successors, a: BlockId, b: BlockId) {
    Reachable(EdgesIn(succs), a, b)
  }

  ghost predicate Explored(succs: Successors, start: BlockId, target: BlockId, visited: set<BlockId>,
      queue: seq<BlockId>) {
    && (forall b | b in visited || b in queue :: Reaches(succs, start, b))
    && (start in visited || start in queue)
    && target !in visited
    && (forall b, c | b in visited && c in Next(succs, b) :: c in visited || c in queue)
  }

  lemma ReachStep(succs: Successors, start: BlockId, b: BlockId, c: BlockId)
    requires Reaches(succs, start, b) && c in Next(succs, b)
    ensures Reaches(succs, start, c)
  {
    var p :| Walk(EdgesIn(succs), start, p, b);
    ExtendWalk(EdgesIn(succs), start, p, b, c);
  }

  lemma {:induction false} ClosedHoldsWalks(succs: Successors, start: BlockId, visited: set<BlockId>, p: seq<BlockId>)
    requires start in visited && forall b, c | b in visited && c in Next(succs, b) :: c in visited
    requires IsPath(EdgesIn(succs), p) && p[0] == start
    ensures p[|p| - 1] in visited
    decreases |p|
  {
    if |p| > 1 {
      ClosedHoldsWalks(succs, start, visited, p[..|p| - 1]);
    }
  }

  ghost function Blocks(succs: Successors): set<BlockId> {
    set b, c | b in succs && c in succs[b] :: c
  }

  lemma ExploreSeen(succs: Successors, start: BlockId, target: BlockId, visited: set<BlockId>, b: BlockId,
      rest: seq<BlockId>)
    requires Explored(succs, start, target, visited, [b] + rest) && b in visited
    ensures Explored(succs, start, target, visited, rest)
  {
  }

  lemma ExploreNew(succs: Successors, start: BlockId, target: BlockId, visited: set<BlockId>, b: BlockId,
      rest: seq<BlockId>)
    requires Explored(succs, start, target, visited, [b] + rest) && b != target
    ensures Explored(succs, start, target, visited + {b}, rest + Next(succs, b))
  {
    assert forall c :: c in [b] + rest <==> c == b || c in rest;
    assert Reaches(succs, start, b);
    forall c | c in Next(succs, b)
      ensures Reaches(succs, start, c)
    {
      ReachStep(succs, start, b, c);
    }
  }

  /** The queue-based search answers exactly whether target can be reached from start. */
  method IsReachable(succs: Successors, start: BlockId, target: BlockId) returns (found: bool)
    ensures found <==> Reaches(succs, start, target)
  {
    var visited: set<BlockId> := {};
    var queue := [start];
    ghost var all := Blocks(succs) + {start};
    assert Walk(EdgesIn(succs), start, [start], start);
    while queue != []
      invariant Explored(succs, start, target, visited, queue)
      invariant forall b | b in queue :: b in all
      decreases all - visited, |queue|
    {
      var current := queue[0];
      var rest := queue[1..];
      assert queue == [current] + rest;
      queue := rest;
      if current == target {
        return true;
      }
      if current in visited {
        ExploreSeen(succs, start, target, visited, current, rest);
      } else {
        ExploreNew(succs, start, target, visited, current, rest);
        visited := visited + {current};
        queue := queue + Next(succs, current);
      }
    }
    found := false;
    if Reaches(succs, start, target) {
      var p :| Walk(EdgesIn(succs), start, p, target);
      ClosedHoldsWalks(succs, start, visited, p);
    }
  }
}
