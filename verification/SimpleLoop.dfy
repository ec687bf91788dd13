/** Loops with one latch and one exiting block, and how often an access in them runs. */
module SimpleLoop {
  import opened Cfg

  datatype Loop = Loop(header: Block, latch: Block, exiting: Block, body: set<Block>)

  ghost predicate InBody(l: Loop, p: seq<Block>) {
    forall i :: 0 <= i < |p| ==> p[i] in l.body
  }

  /** A walk inside the loop that meets the header at most in its first block. */
  ghost predicate OneLap(g: Graph, l: Loop, p: seq<Block>) {
    p != [] && IsPath(g, p) && InBody(l, p) && l.header !in p[1..]
  }

  /** Control enters the loop through its header only. */
  ghost predicate EnteredByHeader(g: Graph, l: Loop) {
    && (g.entry in l.body ==> g.entry == l.header)
    && (exists p :: PathBetween(g, p, g.entry, l.header))
    && (forall a, b :: Edge(g, a, b) && a !in l.body && b in l.body ==> b == l.header)
  }

  ghost predicate SingleLatch(g: Graph, l: Loop) {
    forall a :: Edge(g, a, l.header) && a in l.body ==> a == l.latch
  }

  ghost predicate SingleExiting(g: Graph, l: Loop) {
    forall a, b :: Edge(g, a, b) && a in l.body && b !in l.body ==> a == l.exiting
  }

  ghost predicate ReachesLatch(g: Graph, l: Loop, b: Block) {
    exists p :: OneLap(g, l, p) && PathBetween(g, p, b, l.latch)
  }

  /** The shape `isSimpleLoop` asks for, on top of what makes a natural loop: it is entered
      through its header only, and each of its blocks reaches the latch without the header. */
  ghost predicate IsSimple(g: Graph, l: Loop) {
    && l.header in l.body && l.latch in l.body && l.exiting in l.body
    && EnteredByHeader(g, l) && SingleLatch(g, l) && SingleExiting(g, l)
    && (forall b :: b in l.body ==> ReachesLatch(g, l, b))
  }

  /** `b` belongs to no loop nested in `l`: a cycle through it goes through the header of `l`. */
  ghost predicate Innermost(g: Graph, l: Loop, b: Block) {
    forall p :: |p| > 1 && PathBetween(g, p, b, b) && InBody(l, p) ==> l.header in p
  }

  /** One stay in the loop, from the header until control leaves from the exiting block. */
  ghost predicate IsRun(g: Graph, l: Loop, r: seq<Block>) {
    PathBetween(g, r, l.header, l.exiting) && InBody(l, r)
  }

  /** The number of times block `b` occurs in `r`. */
  function Count(r: seq<Block>, b: Block): nat {
    if r == [] then 0
    else Count(r[..|r| - 1], b) + if r[|r| - 1] == b then 1 else 0
  }

  function BackEdges(l: Loop, r: seq<Block>): int {
    Count(r, l.header) - 1
  }

  /** The iterations (numbered from 0) in which block `b` ran, in execution order. */
  function Trace(l: Loop, r: seq<Block>, b: Block): seq<int> {
    if r == [] then []
    else Trace(l, r[..|r| - 1], b) + if r[|r| - 1] == b then [BackEdges(l, r)] else []
  }

  function Upto(n: nat): (s: seq<int>)
    ensures |s| == n && forall i :: 0 <= i < n ==> s[i] == i
  {
    if n == 0 then [] else Upto(n - 1) + [n - 1]
  }

  /** The number of executions the pass takes for an access in block `b`. */
  ghost function PassCount(g: Graph, l: Loop, r: seq<Block>, b: Block): int {
    BackEdges(l, r) + if Dominates(g, b, l.exiting) then 1 else 0
  }

  // ----- one lap -----

  /** The way into the loop meets no block of the body before the header. */
  lemma Approach(g: Graph, l: Loop) returns (p: seq<Block>)
    requires EnteredByHeader(g, l)
    ensures PathBetween(g, p, g.entry, l.header)
    ensures forall i :: 0 <= i < |p| - 1 ==> p[i] !in l.body
  {
    p :| PathBetween(g, p, g.entry, l.header);
    while exists i :: 0 <= i < |p| - 1 && p[i] == l.header
      invariant PathBetween(g, p, g.entry, l.header)
      decreases |p|
    {
      var i :| 0 <= i < |p| - 1 && p[i] == l.header;
      SlicePath(g, p, 0, i + 1);
      p := p[..i + 1];
    }
    var k := 0;
    while k < |p| - 1
      invariant 0 <= k <= |p| - 1
      invariant forall i :: 0 <= i < k ==> p[i] !in l.body
    {
      assert k > 0 ==> EdgeAt(g, p, k);
      k := k + 1;
    }
  }

  /** A lap from the header to `t` meets every block of the body that dominates `t`. */
  lemma LapMeetsDominator(g: Graph, l: Loop, q: seq<Block>, b: Block, t: Block)
    requires EnteredByHeader(g, l) && b in l.body && Dominates(g, b, t)
    requires OneLap(g, l, q) && PathBetween(g, q, l.header, t)
    ensures b in q
  {
    var p := Approach(g, l);
    JoinPaths(g, p, q, g.entry, l.header, t);
    assert b in p + q[1..] && b !in p[..|p| - 1];
    assert p == p[..|p| - 1] + [q[0]];
  }

  /** A walk that meets an innermost block twice goes through the header in between. */
  lemma RevisitMeetsHeader(g: Graph, l: Loop, q: seq<Block>, b: Block, i: nat, j: nat)
    requires Innermost(g, l, b) && IsPath(g, q) && InBody(l, q)
    requires i < j < |q| && q[i] == b && q[j] == b
    ensures l.header in q[1..]
  {
    var c := q[i..j + 1];
    SlicePath(g, q, i, j + 1);
    assert PathBetween(g, c, b, b) && InBody(l, c);
    var k :| 0 <= k < |c| && c[k] == l.header;
    assert q[1..][if i + k == 0 then j - 1 else i + k - 1] == l.header;
  }

  /** An access that dominates the latch but not the exiting block does not run in a lap that
      ends in the exiting block. */
  lemma LastLapSkips(g: Graph, l: Loop, q: seq<Block>, b: Block)
    requires EnteredByHeader(g, l) && ReachesLatch(g, l, l.exiting) && l.exiting in l.body && b in l.body
            && Innermost(g, l, b)
    requires Dominates(g, b, l.latch) && !Dominates(g, b, l.exiting)
    requires OneLap(g, l, q) && PathBetween(g, q, l.header, l.exiting)
    ensures b !in q
  {
    if b in q {
      var p :| PathBetween(g, p, g.entry, l.exiting) && b !in p;
      var t :| OneLap(g, l, t) && PathBetween(g, t, l.exiting, l.latch);
      JoinPaths(g, p, t, g.entry, l.exiting, l.latch);
      assert b in p + t[1..];
      var j :| 0 <= j < |t[1..]| && t[1..][j] == b;
      var i :| 0 <= i < |q| && q[i] == b;
      if i == 0 {
        HeaderDominates(g, l, p, l.exiting);
      } else {
        CycleMeetsHeader(g, l, q, t, b, i, j + 1);
      }
    }
  }

  lemma HeaderDominates(g: Graph, l: Loop, p: seq<Block>, t: Block)
    requires EnteredByHeader(g, l) && t in l.body && PathBetween(g, p, g.entry, t)
    ensures l.header in p
  {
    if |p| > 1 {
      assert EdgeAt(g, p, |p| - 1);
      SlicePath(g, p, 0, |p| - 1);
      if p[|p| - 2] in l.body {
        HeaderDominates(g, l, p[..|p| - 1], p[|p| - 2]);
      }
    }
  }

  lemma CycleMeetsHeader(g: Graph, l: Loop, q: seq<Block>, t: seq<Block>, b: Block, i: nat, j: nat)
    requires Innermost(g, l, b) && IsPath(g, q) && IsPath(g, t) && InBody(l, q) && InBody(l, t)
    requires 0 < i < |q| && q[i] == b && 0 < j < |t| && t[j] == b && q[|q| - 1] == t[0]
    ensures l.header in q[1..] || l.header in t[1..]
  {
    var c, d := q[i..|q|], t[0..j + 1];
    SlicePath(g, q, i, |q|);
    SlicePath(g, t, 0, j + 1);
    assert PathBetween(g, c, b, t[0]) && PathBetween(g, d, t[0], b);
    JoinPaths(g, c, d, b, t[0], b);
    var e := c + d[1..];
    assert InBody(l, e);
    var k :| 0 <= k < |e| && e[k] == l.header;
    if k < |c| {
      assert q[1..][i + k - 1] == l.header;
    } else {
      assert t[1..][k - |c|] == l.header;
    }
  }

  // ----- a whole stay in the loop -----

  ghost predicate AtMostOnce(q: seq<Block>, b: Block) {
    forall i, j :: 0 <= i < j < |q| && q[i] == b ==> q[j] != b
  }

  lemma LapMeetsOnce(g: Graph, l: Loop, q: seq<Block>, b: Block)
    requires Innermost(g, l, b) && OneLap(g, l, q)
    ensures AtMostOnce(q, b)
  {
    forall i, j | 0 <= i < j < |q| && q[i] == b
      ensures q[j] != b
    {
      if q[j] == b {
        RevisitMeetsHeader(g, l, q, b, i, j);
      }
    }
  }

  /** Appending one lap appends to the trace the number of that lap if the lap met `b`. */
  lemma {:induction false} TraceOfLap(l: Loop, r: seq<Block>, q: seq<Block>, b: Block)
    requires q != [] && q[0] == l.header && l.header !in q[1..] && AtMostOnce(q, b)
    ensures Count(r + q, l.header) == Count(r, l.header) + 1
    ensures Trace(l, r + q, b) == Trace(l, r, b) + if b in q then [Count(r, l.header)] else []
    decreases |q|
  {
    var n := |q| - 1;
    var q' := q[..n];
    assert (r + q)[..|r + q| - 1] == r + q';
    if n == 0 {
      assert r + q' == r;
    } else {
      assert q'[1..] == q[1..][..n - 1];
      assert q[n] in q[1..] by {
        assert q[1..][n - 1] == q[n];
      }
      TraceOfLap(l, r, q', b);
      assert b in q <==> b in q' || b == q[n];
    }
  }

  lemma AddLap(g: Graph, l: Loop, s: seq<Block>, q: seq<Block>, b: Block)
    requires Innermost(g, l, b) && OneLap(g, l, q) && q[0] == l.header
    requires Trace(l, s, b) == Upto(Count(s, l.header))
    ensures Count(s + q, l.header) == Count(s, l.header) + 1
    ensures Trace(l, s + q, b) == Upto(Count(s, l.header) + if b in q then 1 else 0)
  {
    LapMeetsOnce(g, l, q, b);
    TraceOfLap(l, s, q, b);
  }

  lemma LastHeader(h: Block, r: seq<Block>) returns (k: nat)
    requires r != [] && r[0] == h
    ensures k < |r| && r[k] == h && h !in r[k + 1..]
  {
    k := |r| - 1;
    while r[k] != h
      invariant 0 <= k < |r| && h !in r[k + 1..]
      decreases k
    {
      assert r[k..] == [r[k]] + r[k + 1..];
      k := k - 1;
    }
  }

  /** A walk from the header is a number of complete laps followed by one lap. */
  lemma SplitLastLap(g: Graph, l: Loop, r: seq<Block>, t: Block) returns (s: seq<Block>, q: seq<Block>)
    requires SingleLatch(g, l) && PathBetween(g, r, l.header, t) && InBody(l, r)
    ensures r == s + q && OneLap(g, l, q) && PathBetween(g, q, l.header, t)
    ensures (s == [] || PathBetween(g, s, l.header, l.latch)) && InBody(l, s)
  {
    var k := LastHeader(l.header, r);
    s, q := r[0..k], r[k..|r|];
    assert OneLap(g, l, q) && PathBetween(g, q, l.header, t) by {
      SlicePath(g, r, k, |r|);
      assert q[1..] == r[k + 1..];
    }
    if k > 0 {
      assert PathBetween(g, s, l.header, l.latch) by {
        SlicePath(g, r, 0, k);
        assert EdgeAt(g, r, k);
      }
    }
  }

  /** While the loop goes round, an access that dominates the latch runs once in every lap. */
  lemma {:induction false} CompleteLaps(g: Graph, l: Loop, r: seq<Block>, b: Block)
    requires EnteredByHeader(g, l) && SingleLatch(g, l) && b in l.body && Innermost(g, l, b) && Dominates(g, b, l.latch)
    requires r == [] || PathBetween(g, r, l.header, l.latch)
    requires InBody(l, r)
    ensures Trace(l, r, b) == Upto(Count(r, l.header))
    decreases |r|
  {
    if r != [] {
      var s, q := SplitLastLap(g, l, r, l.latch);
      CompleteLaps(g, l, s, b);
      LapMeetsDominator(g, l, q, b, l.latch);
      AddLap(g, l, s, q, b);
    }
  }

  lemma LastLap(g: Graph, l: Loop, q: seq<Block>, b: Block)
    requires EnteredByHeader(g, l) && ReachesLatch(g, l, l.exiting) && l.exiting in l.body
    requires b in l.body && Innermost(g, l, b) && Dominates(g, b, l.latch)
    requires OneLap(g, l, q) && PathBetween(g, q, l.header, l.exiting)
    ensures b in q <==> Dominates(g, b, l.exiting)
  {
    if Dominates(g, b, l.exiting) {
      LapMeetsDominator(g, l, q, b, l.exiting);
    } else {
      LastLapSkips(g, l, q, b);
    }
  }

  lemma RunTrace(g: Graph, l: Loop, r: seq<Block>, b: Block)
    requires EnteredByHeader(g, l) && SingleLatch(g, l)
    requires ReachesLatch(g, l, l.exiting) && l.exiting in l.body
    requires b in l.body && Innermost(g, l, b) && Dominates(g, b, l.latch)
    requires IsRun(g, l, r)
    ensures PassCount(g, l, r, b) >= 0
    ensures Trace(l, r, b) == Upto(PassCount(g, l, r, b))
  {
    var s, q := SplitLastLap(g, l, r, l.exiting);
    CompleteLaps(g, l, s, b);
    LastLap(g, l, q, b);
    AddLap(g, l, s, q, b);
  }

  /** Main result on counts.  On every stay in a simple loop, an access that dominates the latch and
      lies in no inner loop runs once in each of the iterations 0, 1, ..., n - 1 and in no other,
      where n is the number the pass computes. */
  lemma ExecutionsAreCounted(g: Graph, l: Loop, r: seq<Block>, b: Block)
    requires IsSimple(g, l) && b in l.body && Innermost(g, l, b) && Dominates(g, b, l.latch)
    requires IsRun(g, l, r)
    ensures PassCount(g, l, r, b) == Count(r, b)
    ensures Trace(l, r, b) == Upto(Count(r, b))
  {
    assert ReachesLatch(g, l, l.exiting);
    RunTrace(g, l, r, b);
    TraceLength(l, r, b);
  }

  /** The length of the trace is the number of times the block ran. */
  lemma {:induction false} TraceLength(l: Loop, r: seq<Block>, b: Block)
    ensures |Trace(l, r, b)| == Count(r, b)
  {
    if r != [] {
      var s := r[..|r| - 1];
      TraceLength(l, s, b);
    }
  }


  // ----- the test for a simple loop and its caches -----

  /** `passed` marks an instruction inserted by another instrumentation or delegated. */
  datatype LoopInst = LoopInst(passed: bool, writes: bool, debug: bool, atomic: bool, call: bool)

  /** A loop as the loop analysis gives it, and the instructions of its blocks. */
  datatype Shape = Shape(header: Block, body: set<Block>, blocks: seq<seq<LoopInst>>)

  /** The blocks that jump back to the header. */
  function Latches(g: Graph, s: Shape): set<Block> {
    set b | b in s.body && Edge(g, b, s.header)
  }

  /** The blocks that enter the loop. */
  function Predecessors(g: Graph, s: Shape): set<Block> {
    set b | b in g.succ && b !in s.body && Edge(g, b, s.header)
  }

  /** The blocks that leave the loop. */
  function Exitings(g: Graph, s: Shape): set<Block> {
    set a | a in s.body && a in g.succ && !(g.succ[a] <= s.body)
  }

  /** The blocks left to. */
  function Exits(g: Graph, s: Shape): set<Block> {
    set a, b | a in s.body && a in g.succ && b in g.succ[a] && b !in s.body :: b
  }

  predicate Disturbs(i: LoopInst) {
    !i.passed && i.writes && !i.debug && (i.atomic || i.call)
  }

  /** A latch with two edges to the header is not counted as the only one. */
  predicate HasSimpleShape(g: Graph, s: Shape) {
    && |Predecessors(g, s)| == 1 && |Latches(g, s)| == 1 && |Exits(g, s)| == 1 && |Exitings(g, s)| == 1
    && forall b :: b in Latches(g, s) ==> (b, s.header) !in g.twice
  }

  predicate LooksSimple(g: Graph, s: Shape) {
    HasSimpleShape(g, s) && forall b, i :: b in s.blocks && i in b ==> !Disturbs(i)
  }

  /** What the loop analysis guarantees of every loop, simple or not: it is entered through its
      header, and each of its blocks reaches a latch without passing the header again. */
  ghost predicate IsNatural(g: Graph, s: Shape) {
    && s.header in s.body && EnteredByHeader(g, Loop(s.header, s.header, s.header, s.body))
    && forall b :: b in s.body ==> exists a :: a in Latches(g, s) && ReachesLatch(g, Loop(s.header, a, a, s.body), b)
  }

  lemma OneElement<T>(s: set<T>, x: T)
    requires |s| == 1 && x in s
    ensures s == {x}
  {
    assert |s - {x}| == 0;
  }

  lemma IsSingleton<T(!new)>(s: set<T>)
    ensures |s| == 1 <==> exists x :: x in s && forall y :: y in s ==> y == x
  {
    if |s| == 1 {
      var x :| x in s;
      OneElement(s, x);
    }
    if x :| x in s && forall y :: y in s ==> y == x {
      assert s == {x};
    }
  }

  lemma OneEntry(g: Graph, s: Shape)
    ensures |Predecessors(g, s)| == 1 <==>
            exists p :: p !in s.body && Edge(g, p, s.header)
                        && forall b :: b !in s.body && Edge(g, b, s.header) ==> b == p
  {
    IsSingleton(Predecessors(g, s));
    assert forall b :: b in Predecessors(g, s) <==> b !in s.body && Edge(g, b, s.header);
  }

  lemma OneLatch(g: Graph, s: Shape)
    ensures |Latches(g, s)| == 1 && (forall b :: b in Latches(g, s) ==> (b, s.header) !in g.twice) <==>
            exists p :: p in s.body && Edge(g, p, s.header) && (p, s.header) !in g.twice
                        && forall b :: b in s.body && Edge(g, b, s.header) ==> b == p
  {
    IsSingleton(Latches(g, s));
    assert forall b :: b in Latches(g, s) <==> b in s.body && Edge(g, b, s.header);
  }

  lemma LeavesOnce(g: Graph, s: Shape, p: Block, q: Block)
    requires p in s.body && q !in s.body && Edge(g, p, q)
    requires forall a, b :: a in s.body && b !in s.body && Edge(g, a, b) ==> a == p && b == q
    ensures Exitings(g, s) == {p} && Exits(g, s) == {q}
  {
    forall a | a in Exitings(g, s)
      ensures a == p
    {
      var b :| b in g.succ[a] && b !in s.body;
      assert Edge(g, a, b);
    }
    forall b | b in Exits(g, s)
      ensures b == q
    {
      var a :| a in s.body && a in g.succ && b in g.succ[a];
      assert Edge(g, a, b);
    }
  }

  lemma LeftOnce(g: Graph, s: Shape) returns (p: Block, q: Block)
    requires |Exits(g, s)| == 1 && |Exitings(g, s)| == 1
    ensures p in s.body && q !in s.body && Edge(g, p, q)
    ensures forall a, b :: a in s.body && b !in s.body && Edge(g, a, b) ==> a == p && b == q
  {
    p :| p in Exitings(g, s);
    q :| q in g.succ[p] && q !in s.body;
    OneElement(Exitings(g, s), p);
    OneElement(Exits(g, s), q);
    forall a, b | a in s.body && b !in s.body && Edge(g, a, b)
      ensures a == p && b == q
    {
      assert a in Exitings(g, s) && b in Exits(g, s);
    }
  }

  lemma OneExit(g: Graph, s: Shape)
    ensures |Exits(g, s)| == 1 && |Exitings(g, s)| == 1 <==>
            exists p, q :: p in s.body && q !in s.body && Edge(g, p, q)
                           && forall a, b :: a in s.body && b !in s.body && Edge(g, a, b) ==> a == p && b == q
  {
    hide Exits;
    hide Exitings;
    hide Edge;
    if |Exits(g, s)| == 1 && |Exitings(g, s)| == 1 {
      var p, q := LeftOnce(g, s);
    } else {
      forall p, q | p in s.body && q !in s.body && Edge(g, p, q)
        ensures !forall a, b :: a in s.body && b !in s.body && Edge(g, a, b) ==> a == p && b == q
      {
        if forall a, b :: a in s.body && b !in s.body && Edge(g, a, b) ==> a == p && b == q {
          LeavesOnce(g, s, p, q);
        }
      }
    }
  }

  /** Main result on the test, in terms of edges and instructions.  Accepted is a loop with one block
      outside and one inside, by a single edge, that lead to its header, with one source and one target of all edges
      that leave it, and with no call or atomic instruction that writes and is not passed over. */
  lemma SimpleInPlainTerms(g: Graph, s: Shape)
    ensures LooksSimple(g, s) <==>
            && (exists p :: p !in s.body && Edge(g, p, s.header)
                            && forall b :: b !in s.body && Edge(g, b, s.header) ==> b == p)
            && (exists p :: p in s.body && Edge(g, p, s.header) && (p, s.header) !in g.twice
                            && forall b :: b in s.body && Edge(g, b, s.header) ==> b == p)
            && (exists p, q :: p in s.body && q !in s.body && Edge(g, p, q)
                               && forall a, b :: a in s.body && b !in s.body && Edge(g, a, b) ==> a == p && b == q)
            && (forall k, n :: 0 <= k < |s.blocks| && 0 <= n < |s.blocks[k]| ==> var i := s.blocks[k][n];
                  !((i.call || i.atomic) && i.writes && !i.passed && !i.debug))
  {
    OneEntry(g, s);
    OneLatch(g, s);
    OneExit(g, s);
    hide Edge;
    hide Predecessors;
    hide Latches;
    hide Exits;
    hide Exitings;
    if forall b, i :: b in s.blocks && i in b ==> !Disturbs(i) {
      forall k, n | 0 <= k < |s.blocks| && 0 <= n < |s.blocks[k]|
        ensures !Disturbs(s.blocks[k][n])
      {
        assert s.blocks[k] in s.blocks && s.blocks[k][n] in s.blocks[k];
      }
    }
  }

  lemma OnlyLatch(g: Graph, s: Shape, latch: Block, exiting: Block)
    requires |Latches(g, s)| == 1 && latch in Latches(g, s)
    ensures SingleLatch(g, Loop(s.header, latch, exiting, s.body))
  {
    OneElement(Latches(g, s), latch);
    forall a | Edge(g, a, s.header) && a in s.body
      ensures a == latch
    {
      assert a in Latches(g, s);
    }
  }

  lemma OnlyExiting(g: Graph, s: Shape, latch: Block, exiting: Block)
    requires |Exitings(g, s)| == 1 && exiting in Exitings(g, s)
    ensures SingleExiting(g, Loop(s.header, latch, exiting, s.body))
  {
    OneElement(Exitings(g, s), exiting);
    forall a, b | Edge(g, a, b) && a in s.body && b !in s.body
      ensures a == exiting
    {
      assert a in Exitings(g, s);
    }
  }

  /** Laps do not depend on where the loop is left. */
  lemma SameLaps(g: Graph, l: Loop, k: Loop, b: Block)
    requires l.header == k.header && l.body == k.body && l.latch == k.latch && ReachesLatch(g, l, b)
    ensures ReachesLatch(g, k, b)
  {
    var p :| OneLap(g, l, p) && PathBetween(g, p, b, l.latch);
    hide PathBetween;
    assert OneLap(g, k, p);
  }

  lemma SameEntry(g: Graph, l: Loop, k: Loop)
    requires l.header == k.header && l.body == k.body && EnteredByHeader(g, l)
    ensures EnteredByHeader(g, k)
  {
    hide PathBetween;
    hide Edge;
  }

  /** A natural loop the test accepts is a simple loop, with the latch and the exiting block found. */
  lemma AcceptedIsSimple(g: Graph, s: Shape, latch: Block, exiting: Block)
    requires IsNatural(g, s) && LooksSimple(g, s) && latch in Latches(g, s) && exiting in Exitings(g, s)
    ensures IsSimple(g, Loop(s.header, latch, exiting, s.body))
  {
    var l := Loop(s.header, latch, exiting, s.body);
    OneElement(Latches(g, s), latch);
    OnlyLatch(g, s, latch, exiting);
    OnlyExiting(g, s, latch, exiting);
    hide EnteredByHeader;
    hide ReachesLatch;
    hide SingleLatch;
    hide SingleExiting;
    SameEntry(g, Loop(s.header, s.header, s.header, s.body), l);
    forall b | b in l.body
      ensures ReachesLatch(g, l, b)
    {
      SameLaps(g, Loop(s.header, latch, latch, s.body), l, b);
    }
  }

  method IsUndisturbed(s: Shape) returns (undisturbed: bool)
    ensures undisturbed <==> forall b, i :: b in s.blocks && i in b ==> !Disturbs(i)
  {
    for k := 0 to |s.blocks|
      invariant forall b, i :: b in s.blocks[..k] && i in b ==> !Disturbs(i)
    {
      var block := s.blocks[k];
      for n := 0 to |block|
        invariant forall i :: i in block[..n] ==> !Disturbs(i)
      {
        var inst := block[n];
        assert block[..n + 1] == block[..n] + [inst];
        if inst.passed || !inst.writes || inst.debug {
          continue;
        }
        if inst.atomic || inst.call {
          assert block in s.blocks && inst in block;
          return false;
        }
      }
      assert block[..|block|] == block;
      assert s.blocks[..k + 1] == s.blocks[..k] + [block];
    }
    assert s.blocks[..|s.blocks|] == s.blocks;
    return true;
  }

  class LoopTester {
    const g: Graph
    const shapes: map<int, Shape>
    var simpleLoops: set<int>
    var complexLoops: set<int>

    constructor (g: Graph, shapes: map<int, Shape>)
      ensures this.g == g && this.shapes == shapes && Valid() && simpleLoops == complexLoops == {}
    {
      this.g, this.shapes := g, shapes;
      simpleLoops, complexLoops := {}, {};
    }

    /** Every cached answer is the right one. */
    ghost predicate Valid()
      reads this
    {
      && (forall l :: l in simpleLoops ==> l in shapes && LooksSimple(g, shapes[l]))
      && (forall l :: l in complexLoops ==> l in shapes && !LooksSimple(g, shapes[l]))
    }

    method IsSimpleLoop(loop: int) returns (simple: bool)
      requires Valid() && loop in shapes
      modifies this
      ensures Valid() && simple == LooksSimple(g, shapes[loop])
      ensures var s := shapes[loop];
              simple <==> HasSimpleShape(g, s) && forall b, i :: b in s.blocks && i in b ==>
                                                                   i.passed || !i.writes || i.debug
                                                                   || (!i.atomic && !i.call)
      ensures simpleLoops == old(simpleLoops) + if simple then {loop} else {}
      ensures complexLoops == old(complexLoops) + if simple then {} else {loop}
    {
      if loop in simpleLoops {
        return true;
      }
      if loop in complexLoops {
        return false;
      }
      var s := shapes[loop];
      if !HasSimpleShape(g, s) {
        complexLoops := complexLoops + {loop};
        return false;
      }
      var undisturbed := IsUndisturbed(s);
      if undisturbed {
        simpleLoops := simpleLoops + {loop};
      } else {
        complexLoops := complexLoops + {loop};
      }
      return undisturbed;
    }
  }
}
