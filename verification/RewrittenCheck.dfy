/** The check emitted for an access whose address was rewritten: which addresses it covers. */
module RewrittenCheck {
  import opened Arith
  import opened Cfg
  import opened SimpleLoop
  import opened LoopCounter
  import opened CombinedCheck
  import opened AddRecRewrite

  /** The access in block `b` met address `a` during the stay `r` in the loop. */
  ghost predicate Met(l: Loop, r: seq<Block>, b: Block, e: Pattern, a: int) {
    exists k: nat :: k in Trace(l, r, b) && Address(e, k) == a
  }

  /** A check of `c` executions of the rebuilt recurrence covers the addresses met, no more, no less. */
  ghost predicate Matches(l: Loop, r: seq<Block>, b: Block, e: Pattern, c: nat) {
    forall a :: Met(l, r, b, e, a) <==> RebuiltVisits(e, c, a)
  }

  /** What the theorems are about: a stay in a simple loop and an access that is not in a branch. */
  ghost predicate Stay(g: Graph, l: Loop, r: seq<Block>, b: Block) {
    IsSimple(g, l) && b in l.body && Innermost(g, l, b) && Dominates(g, b, l.latch) && IsRun(g, l, r)
  }

  lemma MetIsVisited(g: Graph, l: Loop, r: seq<Block>, b: Block, e: Pattern)
    requires Stay(g, l, r, b)
    ensures Executions(l, r, Dominates(g, b, l.exiting)) == Count(r, b)
    ensures forall a :: Met(l, r, b, e, a) <==> Visits(e, Count(r, b), a)
  {
    ExecutionsAreCounted(g, l, r, b);
    var n := Count(r, b);
    forall k: nat
      ensures k in Trace(l, r, b) <==> k < n
    {
      if k < n {
        assert Upto(n)[k] == k;
      }
    }
  }

  /** What it takes for a count of at most one round: the rewriting is exact that far, and the
      executions left out meet no new address. */
  ghost predicate CountIsRight(e: Pattern, n: nat, c: nat)
    requires Valid(e)
  {
    InnerFine(e, c) && OuterFine(e, c) && (c == Min(n, Pow2(e.w)) || ReturnsWithin(e, c))
  }

  /** Main result: whatever the source of the count, the check matches exactly if the count is right. */
  lemma CountMatches(g: Graph, l: Loop, r: seq<Block>, b: Block, e: Pattern, c: nat)
    requires Stay(g, l, r, b) && Valid(e) && c <= Min(Count(r, b), Pow2(e.w))
    ensures Matches(l, r, b, e, c) <==> CountIsRight(e, Count(r, b), c)
  {
    MetIsVisited(g, l, r, b, e);
    PrefixIsExact(e, Count(r, b), c);
  }

  /** With the number of executions capped at 2^w nothing is left out. */
  lemma CappedCountMatches(g: Graph, l: Loop, r: seq<Block>, b: Block, e: Pattern)
    requires Stay(g, l, r, b) && Valid(e)
    ensures var c := Min(Count(r, b), Pow2(e.w)); Matches(l, r, b, e, c) <==> InnerFine(e, c) && OuterFine(e, c)
  {
    CountMatches(g, l, r, b, e, Min(Count(r, b), Pow2(e.w)));
  }

  /** The count from the trip count. */
  lemma TripCountMatches(g: Graph, l: Loop, r: seq<Block>, b: Block, e: Pattern, orig: nat, ptr: nat)
    requires Stay(g, l, r, b) && Valid(e) && e.w <= ptr && orig <= ptr && BackEdges(l, r) < Pow2(orig)
    ensures var n, c := Count(r, b), FromTripCount(BackEdges(l, r), orig, e.w, ptr, Dominates(g, b, l.exiting));
            && 0 <= c <= Min(n, Pow2(e.w))
            && (c == Min(n, Pow2(e.w)) <==> n < Pow2(ptr))
            && (Matches(l, r, b, e, c) <==> CountIsRight(e, n, c))
  {
    var n, before := Count(r, b), Dominates(g, b, l.exiting);
    MetIsVisited(g, l, r, b, e);
    PhiCounts(l, r, 1, 0);
    TripCountIsExact(l, r, orig, e.w, ptr, before);
    if n >= Pow2(ptr) {
      Pow2Monotone(orig, ptr);
      ModSmall(BackEdges(l, r), Pow2(ptr));
      DivModUnique(n, Pow2(ptr), 1, 0);
    }
    CountMatches(g, l, r, b, e, FromTripCount(BackEdges(l, r), orig, e.w, ptr, before));
  }

  /** The count from a phi of the program, wrapping or not: poison, or a count of which the same holds. */
  lemma ReusedPhiMatches(g: Graph, l: Loop, r: seq<Block>, b: Block, e: Pattern, w: nat, zeroBase: bool)
    requires Stay(g, l, r, b) && Valid(e) && e.w <= w
    ensures var n, before := Count(r, b), Dominates(g, b, l.exiting);
            match FromReusedPhi(l, r, w, zeroBase, e.w, before)
            case Poison => CorrectionIsPoison(w, zeroBase, before, n)
            case Known(c) =>
              && !CorrectionIsPoison(w, zeroBase, before, n)
              && 0 <= c <= Min(n, Pow2(e.w))
              && (n < Pow2(w) ==> c == Min(n, Pow2(e.w)))
              && (Matches(l, r, b, e, c) <==> CountIsRight(e, n, c))
  {
    var n, before := Count(r, b), Dominates(g, b, l.exiting);
    MetIsVisited(g, l, r, b, e);
    CorrectedPhi(l, r, w, zeroBase, e.w, before);
    if !CorrectionIsPoison(w, zeroBase, before, n) {
      ModAtMost(n, Pow2(w));
      if n < Pow2(w) {
        ModSmall(n, Pow2(w));
      }
      Pow2Monotone(e.w, w);
      CountMatches(g, l, r, b, e, BoundedByTarget(n % Pow2(w), w, e.w));
    }
  }

  /** The counter the pass inserts stops one short of a round.  The check still matches in three cases:
      there were fewer than 2^w executions, an even step repeats itself after half a round, or the
      multiplier makes it do so. */
  lemma InsertedPhiMatches(g: Graph, l: Loop, r: seq<Block>, b: Block, e: Pattern)
    requires Stay(g, l, r, b) && Valid(e)
    ensures var c := FromInsertedPhi(l, r, e.w, Dominates(g, b, l.exiting));
            c >= 0
            && (Matches(l, r, b, e, c)
                <==> InnerFine(e, c) && OuterFine(e, c)
                     && (Count(r, b) < Pow2(e.w) || e.step % 2 == 0 || HalfRoundVanishes(e)))
  {
    var n, before := Count(r, b), Dominates(g, b, l.exiting);
    MetIsVisited(g, l, r, b, e);
    InsertedPhiIsExact(l, r, e.w, before);
    CountMatches(g, l, r, b, e, FromInsertedPhi(l, r, e.w, before));
    ReturnsBeforeLast(e);
  }

  // ----- the bytes probed -----

  /** The step of the rebuilt recurrence as the pass reads it: a signed number. */
  function SignedStep(e: Pattern): int
    requires Valid(e) && e.p > 0
  {
    AddRecRewrite.Signed(NewStep(e), e.p)
  }

  /** Bounds in the address space keep every address in it. */
  lemma AddressesInSpace(e: Pattern, constStep: bool, c: nat, i: nat)
    requires Valid(e) && e.p > 0 && i < c && InSpace(e.p, ExpandBegAndEnd(NewStart(e), SignedStep(e), constStep, c))
    ensures 0 <= NewStart(e) + i * SignedStep(e) < Pow2(e.p)
  {
    var start, s := NewStart(e), SignedStep(e);
    MulMonotone(i, c, s);
    MulMonotone(0, i, s);
    MulMonotone(i, c - 1, s);
    assert c * s == (c - 1) * s + s;
  }

  lemma ProbedIsRebuilt(e: Pattern, constStep: bool, c: nat, i: nat)
    requires Valid(e) && e.p > 0 && i < c && InSpace(e.p, ExpandBegAndEnd(NewStart(e), SignedStep(e), constStep, c))
    ensures Rebuilt(e, i) == NewStart(e) + i * SignedStep(e)
  {
    AddressesInSpace(e, constStep, c, i);
    var p, s := Pow2(e.p), SignedStep(e);
    var q := if NewStep(e) == s then 0 else 1;
    assert NewStep(e) == s + q * p;
    ScaleSum(i, s, q, p);
    ModShift(NewStart(e) + i * s, i * q, p);
    ModSmall(NewStart(e) + i * s, p);
  }

  lemma MatchingBytes(l: Loop, r: seq<Block>, b: Block, e: Pattern, constStep: bool, size: nat, c: nat, x: int)
    requires Valid(e) && e.p > 0 && Matches(l, r, b, e, c)
    requires InSpace(e.p, ExpandBegAndEnd(NewStart(e), SignedStep(e), constStep, c))
    ensures Accessed(NewStart(e), SignedStep(e), size, c, x)
            <==> exists a :: Met(l, r, b, e, a) && a <= x < a + size
  {
    if Accessed(NewStart(e), SignedStep(e), size, c, x) {
      var k :| 0 <= k < c && Covers(Access(NewStart(e), SignedStep(e), size, k), x);
      ProbedIsRebuilt(e, constStep, c, k);
      assert RebuiltVisits(e, c, Rebuilt(e, k));
      assert Met(l, r, b, e, Rebuilt(e, k));
    }
    if a :| Met(l, r, b, e, a) && a <= x < a + size {
      assert RebuiltVisits(e, c, a);
      var k: nat :| k < c && Rebuilt(e, k) == a;
      ProbedIsRebuilt(e, constStep, c, k);
      assert Covers(Access(NewStart(e), SignedStep(e), size, k), x);
    }
  }

  /** Main result in bytes: the check emitted with a matching count, its bounds computed in words,
      probes exactly the bytes the program touched, unless the step turns out to be zero. */
  method EmitRewrittenCheck(e: Pattern, constStep: bool, size: nat, c: nat, ghost l: Loop, ghost r: seq<Block>,
                            ghost b: Block)
    returns (ps: seq<Probe>)
    requires Valid(e) && e.p > 0 && size > 0 && (constStep ==> SignedStep(e) != 0) && Matches(l, r, b, e, c)
    requires InSpace(e.p, ExpandBegAndEnd(NewStart(e), SignedStep(e), constStep, c))
    ensures forall x :: Covered(ps, x)
              <==> SignedStep(e) != 0 && exists a :: Met(l, r, b, e, a) && a <= x < a + size
  {
    ps := EmittedWordCheck(e.p, NewStart(e), SignedStep(e), constStep, size, c);
    forall x
      ensures Accessed(NewStart(e), SignedStep(e), size, c, x) <==> exists a :: Met(l, r, b, e, a) && a <= x < a + size
    {
      MatchingBytes(l, r, b, e, constStep, size, c, x);
    }
  }

  /** A multiplier that is zero at run time makes the step zero: the program touches its base address,
      and nothing is probed. */
  lemma ZeroStepTouches(g: Graph, l: Loop, r: seq<Block>, b: Block)
    requires Stay(g, l, r, b) && Count(r, b) > 0
    ensures var e := Pattern(8, 16, 16, ZExt, 0, 1, 0, 1000);
            Valid(e) && SignedStep(e) == 0 && Met(l, r, b, e, 1000) && Matches(l, r, b, e, Min(Count(r, b), Pow2(8)))
  {
    var e := Pattern(8, 16, 16, ZExt, 0, 1, 0, 1000);
    SmallPowers();
    assert Valid(e) && NewStep(e) == 0 && Address(e, 0) == 1000;
    MetIsVisited(g, l, r, b, e);
    assert Visits(e, Count(r, b), 1000);
    CappedCountMatches(g, l, r, b, e);
    ModSmall(0, Pow2(16));
    assert InnerFine(e, Min(Count(r, b), Pow2(8)));
  }
}
