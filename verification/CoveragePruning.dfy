/** Leaving out coverage callbacks in blocks whose execution other blocks give away. */
module CoveragePruning {
  import opened Cfg

  predicate HasPredecessor(g: Graph, b: Block) {
    exists a :: a in g.succ && Edge(g, a, b)
  }

  /** A block that just one edge enters. */
  predicate SinglePredecessor(g: Graph, b: Block) {
    && HasPredecessor(g, b)
    && (forall a, c :: a in g.succ && c in g.succ && Edge(g, a, b) && Edge(g, c, b) ==> a == c)
    && (forall a :: a in g.succ && Edge(g, a, b) ==> (a, b) !in g.twice)
  }

  /** A block with successors that dominates all of them. */
  ghost predicate IsFullDominator(g: Graph, b: Block) {
    !IsExit(g, b) && forall s :: Edge(g, b, s) ==> Dominates(g, b, s)
  }

  /** A block with predecessors that post-dominates all of them. */
  ghost predicate IsFullPostDominator(g: Graph, b: Block) {
    HasPredecessor(g, b) && forall a :: Edge(g, a, b) ==> PostDominates(g, b, a)
  }

  datatype CoverageType = Function | Block | EdgeCoverage

  datatype Options = Options(noPrune: bool, coverage: CoverageType)

  /** `dead` holds the blocks with nothing but an unreachable instruction, `closed` those without
      an insertion point. */
  ghost predicate ShouldInstrument(g: Graph, dead: set<Block>, closed: set<Block>, o: Options, b: Block) {
    if b in dead || b in closed then false
    else if o.noPrune || b == g.entry then true
    else if o.coverage.Function? then false
    else !IsFullDominator(g, b) && !(IsFullPostDominator(g, b) && !SinglePredecessor(g, b))
  }

  // ----- which blocks carry a callback -----

  /** The block has no successor, or some successor is reached without it. */
  ghost predicate KeptByDominance(g: Graph, b: Block) {
    || (forall s :: !Edge(g, b, s))
    || exists s, p :: Edge(g, b, s) && PathBetween(g, p, g.entry, s) && b !in p
  }

  /** No edge or a single one enters the block, or some predecessor reaches an exit without it. */
  ghost predicate KeptByPostDominance(g: Graph, b: Block) {
    || (forall a :: !Edge(g, a, b))
    || (exists a: Block :: Edge(g, a, b) && (a, b) !in g.twice && forall c :: Edge(g, c, b) ==> c == a)
    || exists a, e, p :: Edge(g, a, b) && IsExit(g, e) && PathBetween(g, p, a, e) && b !in p
  }

  lemma FullDominatorByPaths(g: Graph, b: Block)
    ensures IsFullDominator(g, b) <==> !KeptByDominance(g, b)
  {
    hide PathBetween;
    if !IsExit(g, b) {
      var s :| s in g.succ[b];
      assert Edge(g, b, s);
    }
  }

  lemma FullPostDominatorByPaths(g: Graph, b: Block)
    ensures IsFullPostDominator(g, b) && !SinglePredecessor(g, b) <==> !KeptByPostDominance(g, b)
  {
    hide PathBetween;
    hide IsExit;
  }

  /** The choice in terms of edges and paths, option by option. */
  lemma WhatIsInstrumented(g: Graph, dead: set<Block>, closed: set<Block>, o: Options, b: Block)
    ensures b in dead + closed ==> !ShouldInstrument(g, dead, closed, o, b)
    ensures b !in dead + closed && o.noPrune ==> ShouldInstrument(g, dead, closed, o, b)
    ensures b !in dead + closed && !o.noPrune && o.coverage == Function ==>
              (ShouldInstrument(g, dead, closed, o, b) <==> b == g.entry)
    ensures b !in dead + closed && !o.noPrune && o.coverage != Function ==>
              (ShouldInstrument(g, dead, closed, o, b)
               <==> b == g.entry || (KeptByDominance(g, b) && KeptByPostDominance(g, b)))
  {
    FullDominatorByPaths(g, b);
    FullPostDominatorByPaths(g, b);
  }

  /** A complete execution of the function. */
  ghost predicate IsRun(g: Graph, r: seq<Block>) {
    r != [] && PathBetween(g, r, g.entry, r[|r| - 1]) && IsExit(g, r[|r| - 1])
  }

  /** A chain of blocks with the property `p`, followed along edges to a block without it. */
  ghost predicate DownChain(g: Graph, c: seq<Block>) {
    && c != [] && IsPath(g, c) && !IsFullDominator(g, c[|c| - 1])
    && forall i :: 0 <= i < |c| - 1 ==> IsFullDominator(g, c[i])
  }

  /** A chain followed against the edges, stored in execution order, from a block that is not
      pruned as a full post-dominator (the entry never is). */
  ghost predicate UpChain(g: Graph, c: seq<Block>) {
    && c != [] && IsPath(g, c) && !PrunedUp(g, c[0])
    && forall i :: 0 < i < |c| ==> PrunedUp(g, c[i])
  }

  ghost predicate PrunedUp(g: Graph, b: Block) {
    b != g.entry && IsFullPostDominator(g, b) && !SinglePredecessor(g, b)
  }

  // ----- full dominators -----

  /** On a complete run, a block ran before every block it dominates. */
  lemma DominatorRan(g: Graph, r: seq<Block>, a: Block, b: Block)
    requires IsRun(g, r) && b in r && Dominates(g, a, b)
    ensures a in r
  {
    var i :| 0 <= i < |r| && r[i] == b;
    SlicePath(g, r, 0, i + 1);
    assert PathBetween(g, r[0..i + 1], g.entry, b);
  }

  lemma {:induction false} ChainHeadRan(g: Graph, r: seq<Block>, c: seq<Block>)
    requires IsRun(g, r) && DownChain(g, c) && c[|c| - 1] in r
    ensures c[0] in r
    decreases |c|
  {
    if |c| > 1 {
      assert EdgeAt(g, c, 1);
      var t := c[1..|c|];
      SlicePath(g, c, 1, |c|);
      assert DownChain(g, t);
      ChainHeadRan(g, r, t);
      DominatorRan(g, r, c[0], c[1]);
    }
  }

  lemma ChainFromRun(g: Graph, r: seq<Block>, i: nat) returns (c: seq<Block>)
    requires IsRun(g, r) && i < |r|
    ensures DownChain(g, c) && c[0] == r[i] && c[|c| - 1] in r
  {
    var j := i;
    while IsFullDominator(g, r[j])
      invariant i <= j < |r|
      invariant forall k :: i <= k < j ==> IsFullDominator(g, r[k])
      decreases |r| - j
    {
      j := j + 1;
    }
    c := r[i..j + 1];
    SlicePath(g, r, i, j + 1);
  }

  /** Main result on full dominators.  On every complete run a block ran exactly when some block ran
      that is no full dominator and is found from it by following successors through full dominators. */
  lemma FullDominatorsAreRecovered(g: Graph, r: seq<Block>, b: Block)
    requires IsRun(g, r)
    ensures b in r <==> exists c :: DownChain(g, c) && c[0] == b && c[|c| - 1] in r
  {
    if b in r {
      var i :| 0 <= i < |r| && r[i] == b;
      var c := ChainFromRun(g, r, i);
    }
    if c :| DownChain(g, c) && c[0] == b && c[|c| - 1] in r {
      ChainHeadRan(g, r, c);
    }
  }

  // ----- full post-dominators -----

  lemma PostDominatorRuns(g: Graph, r: seq<Block>, a: Block, b: Block)
    requires IsRun(g, r) && b in r && PostDominates(g, a, b)
    ensures a in r
  {
    var i :| 0 <= i < |r| && r[i] == b;
    SlicePath(g, r, i, |r|);
    assert PathBetween(g, r[i..|r|], b, r[|r| - 1]);
  }

  lemma {:induction false} ChainEndRan(g: Graph, r: seq<Block>, c: seq<Block>)
    requires IsRun(g, r) && UpChain(g, c) && c[0] in r
    ensures c[|c| - 1] in r
    decreases |c|
  {
    var n := |c| - 1;
    if n > 0 {
      assert EdgeAt(g, c, n);
      var t := c[0..n];
      SlicePath(g, c, 0, n);
      assert UpChain(g, t);
      ChainEndRan(g, r, t);
      PostDominatorRuns(g, r, c[n], c[n - 1]);
    }
  }

  lemma ChainToRun(g: Graph, r: seq<Block>, i: nat) returns (c: seq<Block>)
    requires IsRun(g, r) && i < |r|
    ensures UpChain(g, c) && c[|c| - 1] == r[i] && c[0] in r
  {
    var j := i;
    while PrunedUp(g, r[j])
      invariant 0 <= j <= i
      invariant forall k :: j < k <= i ==> PrunedUp(g, r[k])
      decreases j
    {
      j := j - 1;
    }
    c := r[j..i + 1];
    SlicePath(g, r, j, i + 1);
  }

  /** Main result on full post-dominators: the same statement against the direction of edges. */
  lemma FullPostDominatorsAreRecovered(g: Graph, r: seq<Block>, b: Block)
    requires IsRun(g, r)
    ensures b in r <==> exists c :: UpChain(g, c) && c[|c| - 1] == b && c[0] in r
  {
    if b in r {
      var i :| 0 <= i < |r| && r[i] == b;
      var c := ChainToRun(g, r, i);
    }
    if c :| UpChain(g, c) && c[|c| - 1] == b && c[0] in r {
      ChainEndRan(g, r, c);
    }
  }

  // ----- the two rules together -----

  ghost predicate SameCallbacks(g: Graph, dead: set<Block>, closed: set<Block>, o: Options,
                                r: seq<Block>, r': seq<Block>) {
    forall b :: ShouldInstrument(g, dead, closed, o, b) ==> (b in r <==> b in r')
  }

  /** The rules rest on each other: a block is still known from the callbacks if all its chains
      down, or all its chains up, end in blocks that carry one. */
  lemma CoverageRecovered(g: Graph, dead: set<Block>, closed: set<Block>, o: Options,
                          r: seq<Block>, r': seq<Block>, b: Block)
    requires IsRun(g, r) && IsRun(g, r') && SameCallbacks(g, dead, closed, o, r, r')
    requires || (forall c :: DownChain(g, c) && c[0] == b ==> ShouldInstrument(g, dead, closed, o, c[|c| - 1]))
             || (forall c :: UpChain(g, c) && c[|c| - 1] == b ==> ShouldInstrument(g, dead, closed, o, c[0]))
    ensures b in r <==> b in r'
  {
    FullDominatorsAreRecovered(g, r, b);
    FullDominatorsAreRecovered(g, r', b);
    FullPostDominatorsAreRecovered(g, r, b);
    FullPostDominatorsAreRecovered(g, r', b);
  }

  // ----- edge coverage -----

  /** The graph as edge coverage sees it: critical edges are split, except into blocks with nothing
      but an unreachable instruction.  Every edge starts in a block that can be reached. */
  ghost predicate IsSplit(g: Graph, dead: set<Block>) {
    && (forall a, x :: Edge(g, a, x) && x !in dead ==> OnlySuccessor(g, a, x) || OnlyPredecessor(g, a, x))
    && (forall a: Block, x: Block :: Edge(g, a, x) && x !in dead ==> (a, x) !in g.twice)
    && (forall a :: !Edge(g, a, g.entry))
    && (forall a, x :: Edge(g, a, x) ==> Reachable(g, a))
  }

  ghost predicate OnlySuccessor(g: Graph, a: Block, x: Block) {
    forall y :: Edge(g, a, y) ==> y == x
  }

  ghost predicate OnlyPredecessor(g: Graph, a: Block, x: Block) {
    forall c :: Edge(g, c, x) ==> c == a
  }

  ghost predicate Reachable(g: Graph, b: Block) {
    exists p :: PathBetween(g, p, g.entry, b)
  }

  /** Like a full dominator, but successors that no run enters do not matter. */
  ghost predicate Heads(g: Graph, dead: set<Block>, b: Block) {
    !IsExit(g, b) && forall s :: Edge(g, b, s) && s !in dead ==> Dominates(g, b, s)
  }

  /** An only successor of `a` follows `a` on every path. */
  lemma FollowsOnPath(g: Graph, p: seq<Block>, a: Block, x: Block)
    requires IsPath(g, p) && a in p && p[|p| - 1] != a && OnlySuccessor(g, a, x)
    ensures x in p
  {
    var i :| 0 <= i < |p| && p[i] == a;
    assert EdgeAt(g, p, i + 1);
  }

  lemma LastVisit(p: seq<Block>, a: Block) returns (k: nat)
    requires a in p
    ensures k < |p| && p[k] == a && a !in p[k + 1..]
  {
    k := |p| - 1;
    while p[k] != a
      invariant 0 <= k < |p| && a in p[..k + 1] && a !in p[k + 1..]
      decreases k
    {
      assert p[k..] == [p[k]] + p[k + 1..];
      assert p[..k + 1] == p[..k] + [p[k]];
      k := k - 1;
    }
  }

  /** A block that dominates `c` and has one way to it dominates that way as well. */
  lemma OnlyWayIsDominated(g: Graph, b: Block, s: Block, c: Block)
    requires Dominates(g, b, c) && Reachable(g, c) && b != c && OnlySuccessor(g, b, s)
    ensures Dominates(g, b, s)
  {
    var p :| PathBetween(g, p, g.entry, c);
    var k := LastVisit(p, b);
    assert EdgeAt(g, p, k + 1);
    var t := p[k + 1..|p|];
    SlicePath(g, p, k + 1, |p|);
    assert PathBetween(g, t, s, c);
    forall q | PathBetween(g, q, g.entry, s)
      ensures b in q
    {
      JoinPaths(g, q, t, g.entry, s, c);
      assert b in q + t[1..];
      assert b !in t && t == [t[0]] + t[1..];
    }
  }

  lemma OnlyPredecessorDominates(g: Graph, b: Block, s: Block)
    requires OnlyPredecessor(g, b, s) && s != g.entry
    ensures Dominates(g, b, s)
  {
    forall p | PathBetween(g, p, g.entry, s)
      ensures b in p
    {
      assert EdgeAt(g, p, |p| - 1);
    }
  }

  /** If a head has a successor that can be entered another way, that successor is a head too. */
  lemma HeadsPassOn(g: Graph, dead: set<Block>, a: Block, x: Block, c: Block)
    requires IsSplit(g, dead) && Heads(g, dead, a) && Edge(g, a, x) && Edge(g, c, x) && c != a && x !in dead
    ensures Heads(g, dead, x)
  {
    assert OnlySuccessor(g, a, x) && OnlySuccessor(g, c, x);
    if x != a && x != c {
      assert Dominates(g, x, c) by {
        forall p | PathBetween(g, p, g.entry, c)
          ensures x in p
        {
          assert PathBetween(g, [c, x], c, x);
          JoinPaths(g, p, [c, x], g.entry, c, x);
          assert a in p + [c, x][1..];
          FollowsOnPath(g, p, a, x);
        }
      }
      assert Reachable(g, c);
      var p :| PathBetween(g, p, g.entry, c);
      var k := LastVisit(p, x);
      assert EdgeAt(g, p, k + 1);
      forall s | Edge(g, x, s) && s !in dead
        ensures Dominates(g, x, s)
      {
        if OnlySuccessor(g, x, s) {
          OnlyWayIsDominated(g, x, s, c);
        } else {
          OnlyPredecessorDominates(g, x, s);
        }
      }
    } else {
      forall s | Edge(g, x, s)
        ensures Dominates(g, x, s)
      {
      }
    }
  }

  /** A pruned block entered from a head is a head itself: nowhere do the two rules meet. */
  ghost predicate NoBlindSpots(g: Graph, dead: set<Block>) {
    forall a, x :: Edge(g, a, x) && x !in dead && PrunedUp(g, x) && Heads(g, dead, a) ==> Heads(g, dead, x)
  }

  lemma SplitHasNoBlindSpots(g: Graph, dead: set<Block>)
    requires IsSplit(g, dead)
    ensures NoBlindSpots(g, dead)
  {
    forall a, x | Edge(g, a, x) && x !in dead && PrunedUp(g, x) && Heads(g, dead, a)
      ensures Heads(g, dead, x)
    {
      var c :| Edge(g, c, x) && c != a;
      HeadsPassOn(g, dead, a, x, c);
    }
  }

  ghost predicate Avoids(r: seq<Block>, skipped: set<Block>) {
    forall b :: b in r ==> b !in skipped
  }

  /** From r[i], no head, back to a block with a callback; if that one ran in `r'`, so did r[i]. */
  lemma {:induction false} WitnessBack(g: Graph, dead: set<Block>, closed: set<Block>, o: Options, r: seq<Block>,
                                       r': seq<Block>, i: nat) returns (z: Block)
    requires NoBlindSpots(g, dead) && IsRun(g, r) && IsRun(g, r') && Avoids(r, dead + closed)
    requires o.noPrune || !o.coverage.Function?
    requires i < |r| && !Heads(g, dead, r[i])
    ensures z in r && ShouldInstrument(g, dead, closed, o, z) && (z in r' ==> r[i] in r')
  {
    var b := r[i];
    assert b in r && !IsFullDominator(g, b);
    if ShouldInstrument(g, dead, closed, o, b) {
      z := b;
    } else {
      assert PrunedUp(g, b);
      var a := r[i - 1];
      assert EdgeAt(g, r, i);
      z := WitnessBack(g, dead, closed, o, r, r', i - 1);
      if a in r' {
        PostDominatorRuns(g, r', b, a);
      }
    }
  }

  /** From any r[i], on to the first block that is no head, and from there back. */
  lemma {:induction false} Witness(g: Graph, dead: set<Block>, closed: set<Block>, o: Options, r: seq<Block>,
                                   r': seq<Block>, i: nat) returns (z: Block)
    requires NoBlindSpots(g, dead) && IsRun(g, r) && IsRun(g, r') && Avoids(r, dead + closed)
    requires o.noPrune || !o.coverage.Function?
    requires i < |r|
    ensures z in r && ShouldInstrument(g, dead, closed, o, z) && (z in r' ==> r[i] in r')
    decreases |r| - i
  {
    if !Heads(g, dead, r[i]) {
      z := WitnessBack(g, dead, closed, o, r, r', i);
    } else {
      assert EdgeAt(g, r, i + 1) && r[i + 1] in r;
      z := Witness(g, dead, closed, o, r, r', i + 1);
      if r[i + 1] in r' {
        DominatorRan(g, r', r[i], r[i + 1]);
      }
    }
  }

  /** Main result on both rules.  Without blind spots, two complete runs with the same callbacks ran
      the same blocks, in block coverage and in edge coverage. */
  lemma CoverageIsComplete(g: Graph, dead: set<Block>, closed: set<Block>, o: Options, r: seq<Block>, r': seq<Block>)
    requires NoBlindSpots(g, dead)
    requires IsRun(g, r) && IsRun(g, r') && Avoids(r, dead + closed) && Avoids(r', dead + closed)
    requires o.noPrune || !o.coverage.Function?
    requires SameCallbacks(g, dead, closed, o, r, r')
    ensures forall b :: b in r <==> b in r'
  {
    forall b | b in r
      ensures b in r'
    {
      var i :| 0 <= i < |r| && r[i] == b;
      var z := Witness(g, dead, closed, o, r, r', i);
    }
    forall b | b in r'
      ensures b in r
    {
      var i :| 0 <= i < |r'| && r'[i] == b;
      var z := Witness(g, dead, closed, o, r', r, i);
    }
  }

  /** With all critical edges split and every predecessor reachable there are none. */
  lemma EdgeCoverageIsComplete(g: Graph, dead: set<Block>, closed: set<Block>, o: Options, r: seq<Block>,
                               r': seq<Block>)
    requires IsSplit(g, dead)
    requires IsRun(g, r) && IsRun(g, r') && Avoids(r, dead + closed) && Avoids(r', dead + closed)
    requires o.noPrune || !o.coverage.Function?
    requires SameCallbacks(g, dead, closed, o, r, r')
    ensures forall b :: b in r <==> b in r'
  {
    SplitHasNoBlindSpots(g, dead);
    CoverageIsComplete(g, dead, closed, o, r, r');
  }

  // ----- what goes wrong without -----

  /** `a` dominates `b` if some set around the entry, left through `a` only, misses `b`. */
  lemma {:induction false} CutDominates(g: Graph, cut: set<Block>, a: Block, b: Block)
    requires g.entry in cut + {a} && b !in cut
    requires forall x, y :: x in cut && Edge(g, x, y) ==> y in cut + {a}
    ensures Dominates(g, a, b)
  {
    forall p | PathBetween(g, p, g.entry, b)
      ensures a in p
    {
      var i := 0;
      while p[i] in cut
        invariant 0 <= i < |p| && p[i] in cut + {a}
        decreases |p| - i
      {
        assert i + 1 < |p| && EdgeAt(g, p, i + 1);
        i := i + 1;
      }
    }
  }

  /** `a` post-dominates `b` if some set around `b` without exits is left through `a` only. */
  lemma CutPostDominates(g: Graph, cut: set<Block>, a: Block, b: Block)
    requires b in cut + {a}
    requires forall x :: x in cut ==> !IsExit(g, x)
    requires forall x, y :: x in cut && Edge(g, x, y) ==> y in cut + {a}
    ensures PostDominates(g, a, b)
  {
    forall p, e | IsExit(g, e) && PathBetween(g, p, b, e)
      ensures a in p
    {
      var i := 0;
      while p[i] in cut
        invariant 0 <= i < |p| && p[i] in cut + {a}
        decreases |p| - i
      {
        assert i + 1 < |p| && EdgeAt(g, p, i + 1);
        i := i + 1;
      }
    }
  }

  /** The entry, two arms and a join: the join is given away by every run that gets there. */
  function Diamond(): Graph {
    Graph(0, map[0 := {1, 2}, 1 := {3}, 2 := {3}, 3 := {}], {})
  }

  lemma DiamondPaths()
    ensures PathBetween(Diamond(), [0, 2, 3], 0, 3) && PathBetween(Diamond(), [0, 1, 3], 0, 3)
    ensures PostDominates(Diamond(), 3, 1) && PostDominates(Diamond(), 3, 2)
    ensures IsExit(Diamond(), 3) && !IsExit(Diamond(), 1) && !IsExit(Diamond(), 2)
  {
    CutPostDominates(Diamond(), {1}, 3, 1);
    CutPostDominates(Diamond(), {2}, 3, 2);
  }

  /** No edge of a diamond is critical. */
  lemma DiamondIsSplit()
    ensures IsSplit(Diamond(), {})
  {
    var g := Diamond();
    forall a | a in g.succ
      ensures Reachable(g, a)
    {
      var p := if a == 0 then [0] else if a == 3 then [0, 1, 3] else [0, a];
      assert PathBetween(g, p, 0, a);
    }
    hide Reachable;
  }

  /** In a diamond the entry and the arms carry callbacks, and the join does not. */
  lemma DiamondKeepsItsArms(b: Block)
    requires b in Diamond().succ
    ensures ShouldInstrument(Diamond(), {}, {}, Options(false, Block), b) <==> b != 3
  {
    var g := Diamond();
    DiamondPaths();
    assert Edge(g, 1, 3) && Edge(g, 2, 3) && Edge(g, 0, 1) && Edge(g, 0, 2);
    hide PathBetween;
    assert !IsFullDominator(g, 1) && !IsFullDominator(g, 2);
    assert forall a :: Edge(g, a, 1) || Edge(g, a, 2) ==> a == 0;
    assert SinglePredecessor(g, 1) && SinglePredecessor(g, 2);
    assert forall a :: Edge(g, a, 3) ==> a == 1 || a == 2;
  }

  /** Two branches, each a full dominator 1 (2) of a block 3 (5) it may skip and of the full
      post-dominator 4 (6) behind it; 7 post-dominates everything. */
  function TwoBranches(): Graph {
    Graph(0, map[0 := {1, 2}, 1 := {3, 4}, 2 := {5, 6}, 3 := {4}, 5 := {6}, 4 := {7}, 6 := {7}, 7 := {}], {})
  }

  lemma LeftBranchPruned()
    ensures IsFullDominator(TwoBranches(), 1) && PrunedUp(TwoBranches(), 4)
  {
    var g := TwoBranches();
    CutDominates(g, {0, 2, 5, 6, 7}, 1, 3);
    CutDominates(g, {0, 2, 5, 6, 7}, 1, 4);
    CutPostDominates(g, {1, 3}, 4, 1);
    CutPostDominates(g, {1, 3}, 4, 3);
    assert Edge(g, 1, 4) && Edge(g, 3, 4);
  }

  lemma RightBranchPruned()
    ensures IsFullDominator(TwoBranches(), 2) && PrunedUp(TwoBranches(), 6)
  {
    var g := TwoBranches();
    CutDominates(g, {0, 1, 3, 4, 7}, 2, 5);
    CutDominates(g, {0, 1, 3, 4, 7}, 2, 6);
    CutPostDominates(g, {2, 5}, 6, 2);
    CutPostDominates(g, {2, 5}, 6, 5);
    assert Edge(g, 2, 6) && Edge(g, 5, 6);
  }

  lemma BranchRuns()
    ensures IsRun(TwoBranches(), [0, 1, 4, 7]) && IsRun(TwoBranches(), [0, 2, 6, 7])
  {
  }

  /** In block coverage, which splits no edges, the rules together lose coverage: two complete runs
      with the same callbacks, different blocks. */
  lemma TogetherTheRulesLoseCoverage(o: Options)
    requires !o.noPrune && o.coverage.Block?
    ensures var g, r, r' := TwoBranches(), [0, 1, 4, 7], [0, 2, 6, 7];
            && IsRun(g, r) && IsRun(g, r') && SameCallbacks(g, {}, {}, o, r, r')
            && 1 in r && 1 !in r'
  {
    BranchRuns();
    LeftBranchPruned();
    RightBranchPruned();
    var g, r, r' := TwoBranches(), [0, 1, 4, 7], [0, 2, 6, 7];
    forall b | ShouldInstrument(g, {}, {}, o, b)
      ensures b in r <==> b in r'
    {
      assert b != 1 && b != 4 && b != 2 && b != 6;
    }
  }

  /** Two branches 1 and 2, each into an exit block (3, 4) that an unreachable block (5, 6) enters too. */
  function DeadEntries(): Graph {
    Graph(0, map[0 := {1, 2}, 1 := {3}, 2 := {4}, 3 := {}, 4 := {}, 5 := {3}, 6 := {4}], {})
  }

  lemma BranchesPruned()
    ensures IsFullDominator(DeadEntries(), 1) && IsFullDominator(DeadEntries(), 2)
    ensures PrunedUp(DeadEntries(), 3) && PrunedUp(DeadEntries(), 4)
  {
    var g := DeadEntries();
    CutDominates(g, {0, 2, 4}, 1, 3);
    CutDominates(g, {0, 1, 3}, 2, 4);
    CutPostDominates(g, {1}, 3, 1);
    CutPostDominates(g, {5}, 3, 5);
    CutPostDominates(g, {2}, 4, 2);
    CutPostDominates(g, {6}, 4, 6);
    assert Edge(g, 1, 3) && Edge(g, 5, 3) && Edge(g, 2, 4) && Edge(g, 6, 4);
  }

  lemma Pruned(g: Graph, dead: set<Block>, closed: set<Block>, o: Options, b: Block)
    requires !o.noPrune && ShouldInstrument(g, dead, closed, o, b)
    ensures !PrunedUp(g, b) && (IsFullDominator(g, b) ==> b == g.entry)
  {
  }

  lemma DeadEntryRuns()
    ensures IsRun(DeadEntries(), [0, 1, 3]) && IsRun(DeadEntries(), [0, 2, 4])
  {
  }

  lemma DeadEntryCallbacks(o: Options)
    requires !o.noPrune
    ensures SameCallbacks(DeadEntries(), {}, {}, o, [0, 1, 3], [0, 2, 4])
  {
    BranchesPruned();
    var r, r' := [0, 1, 3], [0, 2, 4];
    assert DeadEntries().entry == 0;
    hide DeadEntries;
    forall b | ShouldInstrument(DeadEntries(), {}, {}, o, b)
      ensures b in r <==> b in r'
    {
      Pruned(DeadEntries(), {}, {}, o, b);
      hide *;
      assert b != 1 && b != 2 && b != 3 && b != 4;
    }
  }

  lemma NoDeadEntryIsCritical(a: Block, x: Block)
    requires Edge(DeadEntries(), a, x)
    ensures OnlySuccessor(DeadEntries(), a, x) || OnlyPredecessor(DeadEntries(), a, x)
  {
  }

  /** An unreachable predecessor defeats edge coverage, although no edge is critical. */
  lemma UnreachablePredecessorLosesCoverage(o: Options)
    requires !o.noPrune
    ensures var g, r, r' := DeadEntries(), [0, 1, 3], [0, 2, 4];
            && (forall a, x :: Edge(g, a, x) ==> OnlySuccessor(g, a, x) || OnlyPredecessor(g, a, x))
            && IsRun(g, r) && IsRun(g, r') && SameCallbacks(g, {}, {}, o, r, r')
            && 1 in r && 1 !in r'
  {
    DeadEntryRuns();
    DeadEntryCallbacks(o);
    hide *;
    forall a, x | Edge(DeadEntries(), a, x)
      ensures OnlySuccessor(DeadEntries(), a, x) || OnlyPredecessor(DeadEntries(), a, x)
    {
      NoDeadEntryIsCritical(a, x);
    }
  }

  /** Two branches 1 and 2, each a call that may throw to a landing pad (4, 6) before a loop (11, 3, 13
      and 12, 5, 15) whose call may throw to the same pad. */
  function LandingPads(): Graph {
    Graph(0, map[0 := {1, 2}, 1 := {11, 4}, 11 := {3}, 3 := {13, 4}, 13 := {3},
                 2 := {12, 6}, 12 := {5}, 5 := {15, 6}, 15 := {5}, 4 := {7}, 6 := {7}, 7 := {}], {})
  }

  lemma ThrowingBranchPruned()
    ensures IsFullDominator(LandingPads(), 1) && PrunedUp(LandingPads(), 4)
  {
    var g := LandingPads();
    CutDominates(g, {0, 2, 12, 5, 15, 6, 7}, 1, 11);
    CutDominates(g, {0, 2, 12, 5, 15, 6, 7}, 1, 4);
    CutPostDominates(g, {1, 11, 3, 13}, 4, 1);
    CutPostDominates(g, {1, 11, 3, 13}, 4, 3);
    assert Edge(g, 1, 4) && Edge(g, 3, 4);
  }

  lemma OtherThrowingBranchPruned()
    ensures IsFullDominator(LandingPads(), 2) && PrunedUp(LandingPads(), 6)
  {
    var g := LandingPads();
    CutDominates(g, {0, 1, 11, 3, 13, 4, 7}, 2, 12);
    CutDominates(g, {0, 1, 11, 3, 13, 4, 7}, 2, 6);
    CutPostDominates(g, {2, 12, 5, 15}, 6, 2);
    CutPostDominates(g, {2, 12, 5, 15}, 6, 5);
    assert Edge(g, 2, 6) && Edge(g, 5, 6);
  }

  lemma PrefixesReach(g: Graph, p: seq<Block>)
    requires p != [] && p[0] == g.entry && IsPath(g, p)
    ensures forall i :: 0 <= i < |p| ==> Reachable(g, p[i])
  {
    forall i | 0 <= i < |p|
      ensures Reachable(g, p[i])
    {
      SlicePath(g, p, 0, i + 1);
      assert PathBetween(g, p[0..i + 1], g.entry, p[i]);
    }
  }

  lemma LeftPathsReach()
    ensures var g := LandingPads();
            Reachable(g, 0) && Reachable(g, 1) && Reachable(g, 11) && Reachable(g, 3) && Reachable(g, 13)
  {
    var p := [0, 1, 11, 3, 13];
    PrefixesReach(LandingPads(), p);
    hide Reachable;
    assert p[0] == 0 && p[1] == 1 && p[2] == 11 && p[3] == 3 && p[4] == 13;
  }

  lemma RightPathsReach()
    ensures var g := LandingPads(); Reachable(g, 2) && Reachable(g, 12) && Reachable(g, 5) && Reachable(g, 15)
  {
    var p := [0, 2, 12, 5, 15];
    PrefixesReach(LandingPads(), p);
    hide Reachable;
    assert p[1] == 2 && p[2] == 12 && p[3] == 5 && p[4] == 15;
  }

  lemma PadsReach()
    ensures var g := LandingPads(); Reachable(g, 4) && Reachable(g, 6) && Reachable(g, 7)
  {
    var p, q := [0, 1, 4, 7], [0, 2, 6, 7];
    PrefixesReach(LandingPads(), p);
    PrefixesReach(LandingPads(), q);
    hide Reachable;
    assert p[2] == 4 && p[3] == 7 && q[2] == 6;
  }

  lemma AllReachable()
    ensures forall a :: a in LandingPads().succ ==> Reachable(LandingPads(), a)
  {
    LeftPathsReach();
    RightPathsReach();
    PadsReach();
    hide Reachable;
  }

  lemma OnlyPadEdgesAreCritical(a: Block, x: Block)
    requires Edge(LandingPads(), a, x) && x != 4 && x != 6
    ensures x != 0 && (OnlySuccessor(LandingPads(), a, x) || OnlyPredecessor(LandingPads(), a, x))
  {
  }

  lemma ThrowingRuns()
    ensures IsRun(LandingPads(), [0, 1, 4, 7]) && IsRun(LandingPads(), [0, 2, 6, 7])
  {
  }

  lemma ThrowingCallbacks(o: Options)
    requires !o.noPrune
    ensures SameCallbacks(LandingPads(), {}, {}, o, [0, 1, 4, 7], [0, 2, 6, 7])
  {
    ThrowingBranchPruned();
    OtherThrowingBranchPruned();
    var r, r' := [0, 1, 4, 7], [0, 2, 6, 7];
    assert LandingPads().entry == 0;
    hide LandingPads;
    forall b | ShouldInstrument(LandingPads(), {}, {}, o, b)
      ensures b in r <==> b in r'
    {
      Pruned(LandingPads(), {}, {}, o, b);
      hide *;
      assert b != 1 && b != 4 && b != 2 && b != 6;
    }
  }

  /** Critical edges into landing pads cannot be split, and that defeats edge coverage, although every
      block is reachable. */
  lemma LandingPadLosesCoverage(o: Options)
    requires !o.noPrune
    ensures var g, r, r' := LandingPads(), [0, 1, 4, 7], [0, 2, 6, 7];
            && (forall a, x :: Edge(g, a, x) && x != 4 && x != 6 ==> OnlySuccessor(g, a, x) || OnlyPredecessor(g, a, x))
            && (forall a :: a in g.succ ==> Reachable(g, a)) && (forall a :: !Edge(g, a, g.entry))
            && IsRun(g, r) && IsRun(g, r') && SameCallbacks(g, {}, {}, o, r, r')
            && 1 in r && 1 !in r'
  {
    AllReachable();
    ThrowingRuns();
    ThrowingCallbacks(o);
    assert forall a :: !Edge(LandingPads(), a, 0);
    assert LandingPads().entry == 0;
    hide *;
    forall a, x | Edge(LandingPads(), a, x) && x != 4 && x != 6
      ensures OnlySuccessor(LandingPads(), a, x) || OnlyPredecessor(LandingPads(), a, x)
    {
      OnlyPadEdgesAreCritical(a, x);
    }
  }
}
