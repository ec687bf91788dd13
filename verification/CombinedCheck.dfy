/** The single range or periodic check that replaces the checks of all iterations. */
module CombinedCheck {
  import opened Arith
  import opened Cfg
  import opened SimpleLoop
  import opened LoopCounter

  /** The bytes [beg, end) of one check made by the runtime. */
  datatype Probe = Probe(beg: int, end: int)

  predicate Covers(p: Probe, a: int) {
    p.beg <= a < p.end
  }

  predicate Covered(ps: seq<Probe>, a: int) {
    exists p :: p in ps && Covers(p, a)
  }

  /** Execution `k` of an access of `size` bytes at address {start, +, step}. */
  function Access(start: int, step: int, size: nat, k: int): Probe {
    Probe(start + k * step, start + k * step + size)
  }

  ghost predicate Accessed(start: int, step: int, size: nat, n: int, a: int) {
    exists k :: 0 <= k < n && Covers(Access(start, step, size, k), a)
  }

  datatype Bounds = Bounds(beg: int, end: int, step: int)

  /** A negative constant step is turned round; a negative variable one is left to the runtime. */
  function ExpandBegAndEnd(start: int, step: int, constStep: bool, count: int): Bounds {
    var negative := constStep && step < 0;
    var beg := if negative then start + -step else start;
    var end := beg + step * count;
    if negative then Bounds(end, beg, -step) else Bounds(beg, end, step)
  }

  // ----- the runtime side -----

  /** A range check, as one probe. */
  method RangeCheck(beg: int, end: int) returns (ps: seq<Probe>)
    requires beg <= end
    ensures forall a :: Covered(ps, a) <==> beg <= a < end
  {
    if beg == end {
      return [];
    }
    ps := [Probe(beg, end)];
    assert Probe(beg, end) in ps;
  }

  /** The bounds of `n` accesses met in the opposite direction. */
  lemma Reversed(start: int, step: int, size: nat, n: nat, a: int)
    ensures Accessed(start, step, size, n, a) <==> Accessed(start + n * step + -step, -step, size, n, a)
  {
    var s := start + n * step + -step;
    if Accessed(start, step, size, n, a) {
      var k :| 0 <= k < n && Covers(Access(start, step, size, k), a);
      assert s + (n - 1 - k) * -step == start + k * step;
      assert Covers(Access(s, -step, size, n - 1 - k), a);
    }
    if Accessed(s, -step, size, n, a) {
      var k :| 0 <= k < n && Covers(Access(s, -step, size, k), a);
      assert start + (n - 1 - k) * step == s + k * -step;
      assert Covers(Access(start, step, size, n - 1 - k), a);
    }
  }

  /** Adjacent accesses fill a range. */
  lemma Contiguous(start: int, size: nat, n: nat, a: int)
    requires size > 0
    ensures Accessed(start, size, size, n, a) <==> start <= a < start + n * size
  {
    if Accessed(start, size, size, n, a) {
      var k :| 0 <= k < n && Covers(Access(start, size, size, k), a);
      MulMonotone(k, n, size);
      MulMonotone(0, k, size);
    }
    if start <= a < start + n * size {
      var k := BlockOf(a - start, size, n);
      assert Covers(Access(start, size, size, k), a);
    }
  }

  /** The periodic check of the runtime, given the bounds of `n` accesses: it probes exactly their
      bytes, unless the step turns out to be zero, when it probes nothing. */
  method PeriodCheck(beg: int, end: int, step: int, size: nat, ghost n: nat) returns (ps: seq<Probe>)
    requires size > 0 && end == beg + n * step
    ensures forall a :: Covered(ps, a) <==> step != 0 && Accessed(beg, step, size, n, a)
    decreases step < 0
  {
    if beg == end {
      assert n * step != 0 || n == 0 || step == 0;
      return [];
    }
    if step < 0 {
      forall a {
        Reversed(beg, step, size, n, a);
      }
      ps := PeriodCheck(end - step, beg - step, -step, size, n);
      return;
    }
    if step == size {
      forall a {
        Contiguous(beg, size, n, a);
      }
      ps := RangeCheck(beg, end);
      return;
    }
    ps := [];
    var offset := beg;
    ghost var k := 0;
    while offset < end
      invariant 0 <= k <= n && offset == beg + k * step
      invariant forall a :: Covered(ps, a) <==> Accessed(beg, step, size, k, a)
      decreases end - offset
    {
      MoreProbes(ps, beg, step, size, k);
      assert Probe(offset, offset + size) == Access(beg, step, size, k);
      ps := ps + [Probe(offset, offset + size)];
      offset := offset + step;
      k := k + 1;
    }
    assert k == n;
  }

  lemma MoreProbes(ps: seq<Probe>, beg: int, step: int, size: nat, k: nat)
    requires forall a :: Covered(ps, a) <==> Accessed(beg, step, size, k, a)
    ensures forall a :: Covered(ps + [Access(beg, step, size, k)], a) <==> Accessed(beg, step, size, k + 1, a)
  {
    var p := Access(beg, step, size, k);
    forall a
      ensures Covered(ps + [p], a) <==> Accessed(beg, step, size, k + 1, a)
    {
      if Covered(ps + [p], a) {
        var q :| q in ps + [p] && Covers(q, a);
        if q in ps {
          assert Covered(ps, a);
        }
      }
      if Accessed(beg, step, size, k + 1, a) {
        var i :| 0 <= i < k + 1 && Covers(Access(beg, step, size, i), a);
        assert i == k ==> p in ps + [p];
        assert i < k ==> Covered(ps, a);
      }
    }
  }

  // ----- the pass and the runtime together -----

  /** The same computation in words of `p` bits. */
  function ExpandWords(p: nat, start: int, step: int, constStep: bool, count: int): Bounds {
    var negative := constStep && step < 0;
    var beg := (if negative then start + -step else start) % Pow2(p);
    var end := (beg + step * count % Pow2(p)) % Pow2(p);
    if negative then Bounds(end, beg, -step) else Bounds(beg, end, step)
  }

  predicate InSpace(p: nat, b: Bounds) {
    0 <= b.beg < Pow2(p) && 0 <= b.end < Pow2(p)
  }

  /** In words the bounds are the true ones exactly when both lie in the address space. */
  lemma WordsAreBounds(p: nat, start: int, step: int, constStep: bool, count: int)
    ensures var b := ExpandBegAndEnd(start, step, constStep, count);
            ExpandWords(p, start, step, constStep, count) == b
            <==> InSpace(p, b)
  {
    var m := Pow2(p);
    var beg := if constStep && step < 0 then start + -step else start;
    ModStep(beg, step * count % m, m);
    ModStep(step * count, beg, m);
    var end := beg + step * count;
    assert (beg % m + step * count % m) % m == end % m;
    if 0 <= beg < m {
      ModSmall(beg, m);
    }
    if 0 <= end < m {
      ModSmall(end, m);
    }
  }

  /** The call emitted after the loop, given its bounds, as the runtime makes it. */
  method RunCheck(b: Bounds, isRange: bool, size: nat, ghost start: int, ghost step: int, ghost constStep: bool,
                  ghost count: nat)
    returns (ps: seq<Probe>)
    requires size > 0 && (constStep ==> step != 0) && b == ExpandBegAndEnd(start, step, constStep, count)
    requires isRange == (constStep && Abs(step) == size)
    ensures forall a :: Covered(ps, a) <==> step != 0 && Accessed(start, step, size, count, a)
  {
    forall a {
      Reversed(start, step, size, count, a);
    }
    if isRange {
      forall a {
        Contiguous(b.beg, size, count, a);
      }
      assert b.end == b.beg + count * size;
      ps := RangeCheck(b.beg, b.end);
    } else {
      ps := PeriodCheck(b.beg, b.end, b.step, size, count);
    }
  }

  /** The check emitted for an access that is taken to run `count` times. */
  method EmittedCheck(start: int, step: int, constStep: bool, size: nat, count: nat) returns (ps: seq<Probe>)
    requires size > 0 && (constStep ==> step != 0)
    ensures forall a :: Covered(ps, a) <==> step != 0 && Accessed(start, step, size, count, a)
  {
    var b := ExpandBegAndEnd(start, step, constStep, count);
    ps := RunCheck(b, constStep && Abs(step) == size, size, start, step, constStep, count);
  }

  /** The same check with its bounds computed in words of `p` bits, within the address space. */
  method EmittedWordCheck(p: nat, start: int, step: int, constStep: bool, size: nat, count: nat)
    returns (ps: seq<Probe>)
    requires size > 0 && (constStep ==> step != 0) && InSpace(p, ExpandBegAndEnd(start, step, constStep, count))
    ensures forall a :: Covered(ps, a) <==> step != 0 && Accessed(start, step, size, count, a)
  {
    WordsAreBounds(p, start, step, constStep, count);
    var b := ExpandWords(p, start, step, constStep, count);
    ps := RunCheck(b, constStep && Abs(step) == size, size, start, step, constStep, count);
  }

  /** Byte `a` is touched by the access in block `b` during the stay `r` in the loop: in iteration
      `k` the access is at start + k * step. */
  ghost predicate Touched(l: Loop, r: seq<Block>, b: Block, start: int, step: int, size: nat, a: int) {
    exists i :: 0 <= i < |Trace(l, r, b)| && Covers(Access(start, step, size, Trace(l, r, b)[i]), a)
  }

  /** Main result on ranges.  The bytes touched in a stay in a simple loop are those of as many
      executions as the pass counts. */
  lemma TouchedIsAccessed(g: Graph, l: Loop, r: seq<Block>, b: Block, start: int, step: int, size: nat, a: int)
    requires IsSimple(g, l) && b in l.body && Innermost(g, l, b) && Dominates(g, b, l.latch)
    requires IsRun(g, l, r)
    ensures Touched(l, r, b, start, step, size, a)
            <==> Accessed(start, step, size, Executions(l, r, Dominates(g, b, l.exiting)), a)
  {
    ExecutionsAreCounted(g, l, r, b);
    var n := Count(r, b);
    assert Executions(l, r, Dominates(g, b, l.exiting)) == n;
    assert forall k :: 0 <= k < n ==> Trace(l, r, b)[k] == k;
    if Accessed(start, step, size, n, a) {
      var k :| 0 <= k < n && Covers(Access(start, step, size, k), a);
      assert Trace(l, r, b)[k] == k;
    }
  }

  /** Dropping executions loses bytes: the counts 0 <= c <= n cover the same bytes only if equal. */
  lemma FewerExecutionsCoverLess(start: int, step: int, size: nat, c: nat, n: nat)
    requires step != 0 && size > 0 && c <= n
    ensures (forall a :: Accessed(start, step, size, c, a) <==> Accessed(start, step, size, n, a)) <==> c == n
  {
    if c < n {
      assert 0 <= n - 1 < n;
      var last := Access(start, step, size, n - 1);
      var a := if step > 0 then last.end - 1 else last.beg;
      assert Covers(last, a) && Accessed(start, step, size, n, a);
      forall k | 0 <= k < c
        ensures !Covers(Access(start, step, size, k), a)
      {
        MulMonotone(k, n - 1, step);
      }
      assert !Accessed(start, step, size, c, a);
    }
  }

  /** With the counter the pass inserts, the check after the loop covers the touched bytes exactly
      when the access ran fewer than 2^w times; it never covers more. */
  lemma InsertedCounterCovers(g: Graph, l: Loop, r: seq<Block>, b: Block, w: nat, start: int, step: int, size: nat)
    requires IsSimple(g, l) && b in l.body && Innermost(g, l, b) && Dominates(g, b, l.latch)
    requires IsRun(g, l, r) && w > 0 && step != 0 && size > 0
    ensures var c := FromInsertedPhi(l, r, w, Dominates(g, b, l.exiting));
            && (forall a :: Accessed(start, step, size, c, a) ==> Touched(l, r, b, start, step, size, a))
            && ((forall a :: Touched(l, r, b, start, step, size, a) <==> Accessed(start, step, size, c, a))
                <==> Count(r, b) < Pow2(w))
  {
    var before := Dominates(g, b, l.exiting);
    assert Executions(l, r, before) == Count(r, b) by {
      ExecutionsAreCounted(g, l, r, b);
    }
    forall a {
      TouchedIsAccessed(g, l, r, b, start, step, size, a);
    }
    assert r[0] == l.header;
    InsertedPhiIsExact(l, r, w, before);
    UndercountCovers(l, r, b, start, step, size, FromInsertedPhi(l, r, w, before), Count(r, b));
  }

  lemma UndercountCovers(l: Loop, r: seq<Block>, b: Block, start: int, step: int, size: nat, c: nat, n: nat)
    requires step != 0 && size > 0 && c <= n
    requires forall a :: Touched(l, r, b, start, step, size, a) <==> Accessed(start, step, size, n, a)
    ensures forall a :: Accessed(start, step, size, c, a) ==> Touched(l, r, b, start, step, size, a)
    ensures (forall a :: Touched(l, r, b, start, step, size, a) <==> Accessed(start, step, size, c, a)) <==> c == n
  {
    FewerExecutionsCoverLess(start, step, size, c, n);
    assert forall a :: Accessed(start, step, size, c, a) ==> Accessed(start, step, size, n, a);
  }
}
