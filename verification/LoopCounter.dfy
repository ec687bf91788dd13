/** The ways the pass obtains the number of executions of a loop access. */
module LoopCounter {
  import opened Arith
  import opened Cfg
  import opened SimpleLoop

  // ----- recognising a counter that the program already has -----

  datatype Operand = PhiItself | Literal(n: int) | Unknown

  datatype IncomingValue = Constant(n: int) | Add(op0: Operand, op1: Operand) | Other

  datatype Incoming = Incoming(value: IncomingValue, from: Block)

  predicate IsBase(inc: Incoming, predecessor: Block) {
    inc.value.Constant? && (inc.value.n == 0 || inc.value.n == 1) && inc.from == predecessor
  }

  predicate IsAddOne(inc: Incoming) {
    inc.value.Add? && (inc.value == Add(PhiItself, Literal(1)) || inc.value == Add(Literal(1), PhiItself))
  }

  /** The pattern `phi [0 or 1, predecessor], [phi + 1, latch]`, in either order. */
  predicate IsCountingPattern(incs: seq<Incoming>, predecessor: Block, latch: Block) {
    && |incs| == 2
    && (exists i :: 0 <= i < 2 && IsBase(incs[i], predecessor)
                    && IsAddOne(incs[1 - i]) && incs[1 - i].from == latch)
  }

  /** The pattern written out: two bases, two orders of the addition, two orders of the edges. */
  lemma CountingPatternSpelled(incs: seq<Incoming>, predecessor: Block, latch: Block)
    ensures IsCountingPattern(incs, predecessor, latch) <==>
            exists base, plus :: base in {0, 1} && plus in {Add(PhiItself, Literal(1)), Add(Literal(1), PhiItself)}
                                 && (|| incs == [Incoming(Constant(base), predecessor), Incoming(plus, latch)]
                                     || incs == [Incoming(plus, latch), Incoming(Constant(base), predecessor)])
  {
    if IsCountingPattern(incs, predecessor, latch) {
      var i :| 0 <= i < 2 && IsBase(incs[i], predecessor) && IsAddOne(incs[1 - i]) && incs[1 - i].from == latch;
      assert incs[i] == Incoming(Constant(incs[i].value.n), predecessor);
      assert incs[1 - i] == Incoming(incs[1 - i].value, latch);
      assert incs == [incs[0], incs[1]];
    }
    if base, plus :| base in {0, 1} && plus in {Add(PhiItself, Literal(1)), Add(Literal(1), PhiItself)}
                     && (|| incs == [Incoming(Constant(base), predecessor), Incoming(plus, latch)]
                         || incs == [Incoming(plus, latch), Incoming(Constant(base), predecessor)]) {
      var i := if incs[0].value.Constant? then 0 else 1;
      assert IsBase(incs[i], predecessor) && IsAddOne(incs[1 - i]);
    }
  }

  method IsLoopCountingPhi(targetWidth: nat, width: nat, incs: seq<Incoming>, predecessor: Block, latch: Block)
    returns (counts: bool, zeroBase: bool)
    ensures counts <==> IsCountingPattern(incs, predecessor, latch) && width >= targetWidth && width >= 32
    ensures counts ==> exists i :: 0 <= i < 2 && IsBase(incs[i], predecessor) && IsAddOne(incs[1 - i])
                                   && (zeroBase <==> incs[i].value.n == 0)
  {
    counts, zeroBase := false, false;
    if |incs| != 2 || width < targetWidth || width < 32 {
      return;
    }
    var hasZeroOrOne, hasAddUp := false, false;
    for idx := 0 to 2
      invariant idx == 0 ==> !hasZeroOrOne && !hasAddUp
      invariant idx == 1 ==> (hasZeroOrOne <==> IsBase(incs[0], predecessor))
      invariant idx == 1 ==> (hasAddUp <==> IsAddOne(incs[0]) && incs[0].from == latch)
      invariant idx == 2 ==> (hasZeroOrOne <==> IsBase(incs[0], predecessor) || IsBase(incs[1], predecessor))
      invariant idx == 2 ==> (hasAddUp <==> if IsAddOne(incs[1]) then incs[1].from == latch
                                            else IsAddOne(incs[0]) && incs[0].from == latch)
      invariant idx > 0 && IsBase(incs[0], predecessor) && !(idx == 2 && IsBase(incs[1], predecessor))
                ==> (zeroBase <==> incs[0].value.n == 0)
      invariant idx == 2 && IsBase(incs[1], predecessor) ==> (zeroBase <==> incs[1].value.n == 0)
    {
      var inc := incs[idx];
      if inc.value.Constant? {
        if (inc.value.n == 1 || inc.value.n == 0) && inc.from == predecessor {
          hasZeroOrOne := true;
          zeroBase := inc.value.n == 0;
        }
      } else if inc.value.Add? {
        if (inc.value.op0 == PhiItself && inc.value.op1 == Literal(1))
          || (inc.value.op1 == PhiItself && inc.value.op0 == Literal(1))
        {
          hasAddUp := inc.from == latch;
        }
      }
    }
    assert IsAddOne(incs[1]) && hasZeroOrOne && hasAddUp ==> IsBase(incs[1 - 1], predecessor);
    assert !IsAddOne(incs[1]) && hasZeroOrOne && hasAddUp ==> IsBase(incs[0 + 1], predecessor);
    counts := hasZeroOrOne && hasAddUp;
  }

  // ----- the values of a counter along a run -----

  datatype Increment = Wrapping | Saturating

  function Next(inc: Increment, w: nat, v: int): int {
    match inc
    case Wrapping => (v + 1) % Pow2(w)
    case Saturating => if v + 1 < Pow2(w) then v + 1 else v
  }

  /** The value of a header phi at the end of `r`: `init` on entry, incremented on each back edge. */
  function PhiValue(l: Loop, r: seq<Block>, inc: Increment, w: nat, init: int): int {
    if |r| <= 1 then init
    else
      var v := PhiValue(l, r[..|r| - 1], inc, w, init);
      if r[|r| - 1] == l.header then Next(inc, w, v) else v
  }

  lemma {:induction false} PhiCounts(l: Loop, r: seq<Block>, w: nat, init: int)
    requires r != [] && r[0] == l.header && 0 <= init < Pow2(w)
    ensures BackEdges(l, r) >= 0
    ensures PhiValue(l, r, Wrapping, w, init) == (init + BackEdges(l, r)) % Pow2(w)
    ensures PhiValue(l, r, Saturating, w, init) == Min(init + BackEdges(l, r), Pow2(w) - 1)
  {
    var s := r[..|r| - 1];
    if |r| == 1 {
      ModSmall(init, Pow2(w));
    } else {
      PhiCounts(l, s, w, init);
      ModStep(init + BackEdges(l, s), 1, Pow2(w));
    }
  }

  // ----- a recognised counter counts -----

  predicate OperandIs(op: Operand, before: int, x: int) {
    match op
    case PhiItself => x == before
    case Literal(n) => x == n
    case Unknown => true
  }

  /** `v` is a value the phi may take through `inc` when it held `before`. */
  ghost predicate Yields(inc: Incoming, w: nat, before: int, v: int) {
    match inc.value
    case Constant(n) => v == n % Pow2(w)
    case Add(op0, op1) =>
      exists x, y :: OperandIs(op0, before, x) && OperandIs(op1, before, y) && v == (x + y) % Pow2(w)
    case Other => true
  }

  /** On entering the header from block `from`, a phi takes the value that comes with that edge. */
  ghost predicate Enters(incs: seq<Incoming>, w: nat, from: Block, before: int, v: int) {
    exists i :: 0 <= i < |incs| && incs[i].from == from && Yields(incs[i], w, before, v)
  }

  ghost predicate TakesValue(l: Loop, incs: seq<Incoming>, w: nat, predecessor: Block, r: seq<Block>, vals: seq<int>,
                             k: nat)
    requires k < |r| == |vals|
  {
    if k == 0 then Enters(incs, w, predecessor, 0, vals[k])
    else if r[k] == l.header then Enters(incs, w, r[k - 1], vals[k - 1], vals[k])
    else vals[k] == vals[k - 1]
  }

  /** `vals` are the values of a `w`-bit header phi along the stay `r` in the loop. */
  ghost predicate PhiAlong(l: Loop, incs: seq<Incoming>, w: nat, predecessor: Block, r: seq<Block>, vals: seq<int>) {
    |vals| == |r| && forall k :: 0 <= k < |r| ==> TakesValue(l, incs, w, predecessor, r, vals, k)
  }

  /** A phi with the pattern really counts, whatever it is called in the program. */
  lemma {:induction false} RecognisedPhiCounts(g: Graph, l: Loop, incs: seq<Incoming>, w: nat, predecessor: Block,
                                               r: seq<Block>, vals: seq<int>, i: nat)
    requires SingleLatch(g, l) && predecessor !in l.body && l.latch in l.body
    requires r != [] && IsPath(g, r) && InBody(l, r)
    requires |incs| == 2 && i < 2 && IsBase(incs[i], predecessor) && IsAddOne(incs[1 - i])
            && incs[1 - i].from == l.latch
    requires w > 0 && PhiAlong(l, incs, w, predecessor, r, vals)
    ensures vals[|r| - 1] == PhiValue(l, r, Wrapping, w, incs[i].value.n)
    decreases |r|
  {
    var n := |r| - 1;
    if n == 0 {
      assert TakesValue(l, incs, w, predecessor, r, vals, 0);
      assert forall j :: 0 <= j < |incs| && incs[j].from == predecessor ==> j == i;
      ModSmall(incs[i].value.n, Pow2(w));
    } else {
      var s, t := r[0..n], vals[..n];
      SlicePath(g, r, 0, n);
      assert s == r[..n];
      forall k | 0 <= k < n
        ensures TakesValue(l, incs, w, predecessor, s, t, k)
      {
        assert TakesValue(l, incs, w, predecessor, r, vals, k);
      }
      RecognisedPhiCounts(g, l, incs, w, predecessor, s, t, i);
      assert TakesValue(l, incs, w, predecessor, r, vals, n);
      if r[n] == l.header {
        assert EdgeAt(g, r, n);
        assert forall j :: 0 <= j < |incs| && incs[j].from == r[n - 1] ==> j == 1 - i;
      }
    }
  }

  function PhiValues(l: Loop, r: seq<Block>, w: nat, init: int): (vals: seq<int>)
    ensures |vals| == |r| && forall k :: 0 <= k < |r| ==> vals[k] == PhiValue(l, r[..k + 1], Wrapping, w, init)
  {
    seq(|r|, k requires 0 <= k < |r| => PhiValue(l, r[..k + 1], Wrapping, w, init))
  }

  /** And it does take values: on every stay there are some that its incoming edges allow. */
  lemma RecognisedPhiHasValues(g: Graph, l: Loop, incs: seq<Incoming>, w: nat, predecessor: Block, r: seq<Block>,
                               i: nat)
    requires SingleLatch(g, l) && IsPath(g, r) && InBody(l, r)
    requires |incs| == 2 && i < 2 && IsBase(incs[i], predecessor) && IsAddOne(incs[1 - i])
            && incs[1 - i].from == l.latch
    requires w > 0
    ensures PhiAlong(l, incs, w, predecessor, r, PhiValues(l, r, w, incs[i].value.n))
  {
    var init := incs[i].value.n;
    var vals := PhiValues(l, r, w, init);
    forall k | 0 <= k < |r|
      ensures TakesValue(l, incs, w, predecessor, r, vals, k)
    {
      if k == 0 {
        ModSmall(init, Pow2(w));
        assert Yields(incs[i], w, 0, vals[0]);
      } else {
        assert r[..k + 1][..k] == r[..k - 1 + 1];
        if r[k] == l.header {
          assert EdgeAt(g, r, k);
          assert OperandIs(PhiItself, vals[k - 1], vals[k - 1]) && OperandIs(Literal(1), vals[k - 1], 1);
          assert Yields(incs[1 - i], w, vals[k - 1], vals[k]);
        }
      }
    }
  }

  datatype HeaderInst = IntegerPhi(width: nat, incs: seq<Incoming>) | OtherInst

  predicate Counts(inst: HeaderInst, targetWidth: nat, predecessor: Block, latch: Block) {
    && inst.IntegerPhi? && inst.width >= targetWidth && inst.width >= 32
    && IsCountingPattern(inst.incs, predecessor, latch)
  }

  /** A phi of the program, plus `adjust`; or a new saturating phi that starts at `init`. */
  datatype Counter = NoCounter | Reused(at: nat, adjust: int) | Inserted(init: int)

  /** Takes the first counter in the header, corrected by one if it starts at the other end. */
  method GetOrInsertLoopCounter(header: seq<HeaderInst>, predecessors: nat, targetWidth: nat,
                                predecessor: Block, latch: Block, beforeExiting: bool)
    returns (c: Counter)
    ensures c.NoCounter? <==> predecessors != 2
    ensures c.Inserted? ==> (forall k :: 0 <= k < |header| ==> !Counts(header[k], targetWidth, predecessor, latch))
                            && c.init == if beforeExiting then 1 else 0
    ensures c.Reused? ==> c.at < |header| && Counts(header[c.at], targetWidth, predecessor, latch)
                          && (forall k :: 0 <= k < c.at ==> !Counts(header[k], targetWidth, predecessor, latch))
                          && forall i :: 0 <= i < 2 && IsBase(header[c.at].incs[i], predecessor)
                                ==> header[c.at].incs[i].value.n + c.adjust == if beforeExiting then 1 else 0
  {
    if predecessors != 2 {
      return NoCounter;
    }
    for k := 0 to |header|
      invariant forall j :: 0 <= j < k ==> !Counts(header[j], targetWidth, predecessor, latch)
    {
      if header[k].IntegerPhi? {
        var counts, zeroBase := IsLoopCountingPhi(targetWidth, header[k].width, header[k].incs, predecessor, latch);
        if counts {
          return Reused(k, if zeroBase && beforeExiting then 1 else if !zeroBase && !beforeExiting then -1 else 0);
        }
      }
    }
    return Inserted(if beforeExiting then 1 else 0);
  }

  // ----- the three sources of the iteration count -----

  /** `n` stands for the executions of the access: the back edges taken, plus one if the access
      comes before the exit test. */
  function Executions(l: Loop, r: seq<Block>, beforeExiting: bool): int {
    BackEdges(l, r) + if beforeExiting then 1 else 0
  }

  /** A count of `src` bits cut down to `target` bits, with 2^target for everything larger. */
  function BoundedByTarget(v: int, src: nat, target: nat): int
    requires target <= src
  {
    if src == target then v else if v >= Pow2(target) then Pow2(target) else v
  }

  /** From the backedge-taken count, an `orig`-bit expression; `ptr` is the pointer width. */
  function FromTripCount(taken: int, orig: nat, target: nat, ptr: nat, beforeExiting: bool): int {
    var c := taken % Pow2(ptr);
    var iter := if beforeExiting then (c + 1) % Pow2(ptr) else c;
    if orig > target then Min(iter, Pow2(target)) else iter
  }

  /** A computed count; an instruction that breaks its no-wrap flags gives poison. */
  datatype CountValue = Poison | Known(n: int)

  function SignedReading(v: int, w: nat): int
    requires 0 < w
  {
    if v < Pow2(w - 1) then v else v - Pow2(w)
  }

  /** Adding `d` to a `w`-bit value under the flags for no unsigned and no signed wrap. */
  function AddFlagged(v: int, d: int, w: nat): CountValue
    requires 0 < w
  {
    var s := SignedReading(v, w) + d;
    if 0 <= v + d < Pow2(w) && 0 - Pow2(w - 1) <= s < Pow2(w - 1) then Known(v + d) else Poison
  }

  /** From a phi the program already has. */
  function FromReusedPhi(l: Loop, r: seq<Block>, w: nat, zeroBase: bool, target: nat, beforeExiting: bool): CountValue
    requires 0 < w && target <= w
  {
    var v := PhiValue(l, r, Wrapping, w, if zeroBase then 0 else 1);
    var c := if zeroBase && beforeExiting then AddFlagged(v, 1, w)
             else if !zeroBase && !beforeExiting then AddFlagged(v, -1, w)
             else Known(v);
    if c.Poison? then Poison else Known(BoundedByTarget(c.n, w, target))
  }

  /** From a phi the pass adds. */
  function FromInsertedPhi(l: Loop, r: seq<Block>, target: nat, beforeExiting: bool): int {
    BoundedByTarget(PhiValue(l, r, Saturating, target, if beforeExiting then 1 else 0), target, target)
  }

  lemma TripCountIsExact(l: Loop, r: seq<Block>, orig: nat, target: nat, ptr: nat, before: bool)
    requires r != [] && r[0] == l.header && 0 <= BackEdges(l, r) < Pow2(orig)
    requires orig <= ptr && target <= ptr
    ensures FromTripCount(BackEdges(l, r), orig, target, ptr, before) == Min(Executions(l, r, before), Pow2(target))
            <==> Executions(l, r, before) < Pow2(ptr)
  {
    var c, n := BackEdges(l, r), Executions(l, r, before);
    Pow2Monotone(orig, ptr);
    Pow2Monotone(target, ptr);
    ModSmall(c, Pow2(ptr));
    if orig <= target {
      Pow2Monotone(orig, target);
    }
    if n < Pow2(ptr) {
      ModSmall(n, Pow2(ptr));
    } else {
      DivModUnique(n, Pow2(ptr), 1, 0);
    }
  }

  /** The numbers of executions at which the correction by one breaks its flags. */
  predicate CorrectionIsPoison(w: nat, zeroBase: bool, before: bool, n: int)
    requires 0 < w
  {
    var x := n % Pow2(w);
    if zeroBase && before then x == 0 || x == Pow2(w - 1)
    else if !zeroBase && !before then x == Pow2(w) - 1 || x == Pow2(w - 1) - 1
    else false
  }

  lemma ModNeighbours(n: int, m: int)
    requires 0 < m
    ensures (n - 1) % m == if n % m == 0 then m - 1 else n % m - 1
    ensures (n + 1) % m == if n % m == m - 1 then 0 else n % m + 1
  {
    var q, x := n / m, n % m;
    Remainder(n, m);
    if x == 0 {
      DivModUnique(n - 1, m, q - 1, m - 1);
    } else {
      DivModUnique(n - 1, m, q, x - 1);
    }
    if x == m - 1 {
      DivModUnique(n + 1, m, q + 1, 0);
    } else {
      DivModUnique(n + 1, m, q, x + 1);
    }
  }

  /** After the correction by one, whatever its base, a reused phi is the count modulo 2^w, or poison. */
  lemma CorrectedPhi(l: Loop, r: seq<Block>, w: nat, zeroBase: bool, target: nat, before: bool)
    requires r != [] && r[0] == l.header && 0 < w && target <= w
    ensures var n := Executions(l, r, before);
            FromReusedPhi(l, r, w, zeroBase, target, before)
            == if CorrectionIsPoison(w, zeroBase, before, n) then Poison
               else Known(BoundedByTarget(n % Pow2(w), w, target))
  {
    PhiCounts(l, r, w, if zeroBase then 0 else 1);
    ModNeighbours(Executions(l, r, before), Pow2(w));
  }

  /** A reused phi gives the capped count exactly if the correction keeps its flags and the phi does
      not wrap, or wraps to a value the cap hides. */
  lemma ReusedPhiIsExact(l: Loop, r: seq<Block>, w: nat, zeroBase: bool, target: nat, before: bool)
    requires r != [] && r[0] == l.header && 0 < w && target <= w
    ensures var n := Executions(l, r, before);
            FromReusedPhi(l, r, w, zeroBase, target, before) == Known(Min(n, Pow2(target)))
            <==> !CorrectionIsPoison(w, zeroBase, before, n)
                 && (n < Pow2(w) || (target < w && n % Pow2(w) >= Pow2(target)))
  {
    CorrectedPhi(l, r, w, zeroBase, target, before);
    PhiCounts(l, r, w, 0);
    hide FromReusedPhi;
    hide CorrectionIsPoison;
    Pow2Monotone(target, w);
    if Executions(l, r, before) < Pow2(w) {
      ModSmall(Executions(l, r, before), Pow2(w));
    }
  }

  /** A zero-based counter of `w` bits before the exit test: its correction is poison after half a
      round, for 32 bits after 2^31 executions. */
  lemma HalfwayIsPoison(l: Loop, r: seq<Block>, w: nat, target: nat)
    requires r != [] && r[0] == l.header && 0 < w && target <= w && Executions(l, r, true) == Pow2(w - 1)
    ensures FromReusedPhi(l, r, w, true, target, true) == Poison
  {
    CorrectedPhi(l, r, w, true, target, true);
    ModSmall(Pow2(w - 1), Pow2(w));
  }

  /** The inserted counter never over-counts, and loses executions from the 2^w-th on. */
  lemma InsertedPhiIsExact(l: Loop, r: seq<Block>, target: nat, before: bool)
    requires r != [] && r[0] == l.header && 0 < target
    ensures var n, c := Executions(l, r, before), FromInsertedPhi(l, r, target, before);
            && 0 <= c == Min(n, Pow2(target) - 1) <= n
            && (c == Min(n, Pow2(target)) <==> n < Pow2(target))
  {
    PhiCounts(l, r, target, if before then 1 else 0);
  }

  /** On a run with fewer than 2^target executions all three sources give that number, except that
      the correction of a reused phi may be poison. */
  lemma SourcesAgree(l: Loop, r: seq<Block>, orig: nat, ptr: nat, w: nat, zeroBase: bool, target: nat, before: bool)
    requires r != [] && r[0] == l.header && 0 <= BackEdges(l, r) < Pow2(orig)
    requires 0 < target <= w && target <= ptr && orig <= ptr
    requires Executions(l, r, before) < Pow2(target)
    ensures var n := Executions(l, r, before);
            && FromTripCount(BackEdges(l, r), orig, target, ptr, before) == n
            && FromInsertedPhi(l, r, target, before) == n
            && FromReusedPhi(l, r, w, zeroBase, target, before)
               == if CorrectionIsPoison(w, zeroBase, before, n) then Poison else Known(n)
  {
    Pow2Monotone(target, ptr);
    Pow2Monotone(target, w);
    TripCountIsExact(l, r, orig, target, ptr, before);
    CorrectedPhi(l, r, w, zeroBase, target, before);
    ReusedPhiIsExact(l, r, w, zeroBase, target, before);
    InsertedPhiIsExact(l, r, target, before);
  }
}
