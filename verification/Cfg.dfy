/** Control-flow graphs, their paths, and dominance defined by paths. */
module Cfg {

  type Block = nat

  /** `twice` holds the edges that occur more than once, as edges of a switch may. */
  datatype Graph = Graph(entry: Block, succ: map<Block, set<Block>>, twice: set<(Block, Block)>)

  predicate Edge(g: Graph, a: Block, b: Block) {
    a in g.succ && b in g.succ[a]
  }

  predicate EdgeAt(g: Graph, p: seq<Block>, i: nat)
    requires 0 < i < |p|
  {
    Edge(g, p[i - 1], p[i])
  }

  ghost predicate IsPath(g: Graph, p: seq<Block>) {
    forall i :: 0 < i < |p| ==> EdgeAt(g, p, i)
  }

  ghost predicate PathBetween(g: Graph, p: seq<Block>, a: Block, b: Block) {
    p != [] && p[0] == a && p[|p| - 1] == b && IsPath(g, p)
  }

  /** `a` lies on every path from the entry to `b`; an unreachable `b` is dominated by everything. */
  ghost predicate Dominates(g: Graph, a: Block, b: Block) {
    forall p :: PathBetween(g, p, g.entry, b) ==> a in p
  }

  /** A block from which control leaves the function. */
  predicate IsExit(g: Graph, b: Block) {
    b !in g.succ || g.succ[b] == {}
  }

  /** `a` lies on every path from `b` to an exit block. */
  ghost predicate PostDominates(g: Graph, a: Block, b: Block) {
    forall p, e :: IsExit(g, e) && PathBetween(g, p, b, e) ==> a in p
  }

  /** Two paths that share their meeting block join into one path. */
  lemma JoinPaths(g: Graph, p: seq<Block>, q: seq<Block>, a: Block, b: Block, c: Block)
    requires PathBetween(g, p, a, b) && PathBetween(g, q, b, c)
    ensures PathBetween(g, p + q[1..], a, c)
  {
    var r := p + q[1..];
    forall i | 0 < i < |r|
      ensures EdgeAt(g, r, i)
    {
      if i < |p| {
        assert EdgeAt(g, p, i);
      } else {
        assert EdgeAt(g, q, i - |p| + 1);
      }
    }
  }

  lemma SlicePath(g: Graph, p: seq<Block>, lo: nat, hi: nat)
    requires IsPath(g, p) && lo <= hi <= |p|
    ensures IsPath(g, p[lo..hi])
  {
    var r := p[lo..hi];
    forall i | 0 < i < |r|
      ensures EdgeAt(g, r, i)
    {
      assert EdgeAt(g, p, lo + i);
    }
  }
}
