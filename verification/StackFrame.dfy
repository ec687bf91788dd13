/** The shadow of a stack frame, from function entry through lifetime markers to return. */
module StackFrame {
  import opened Arith
  import opened Splices
  import opened ShadowWriter
  import AccessCheck

  const MIN_STACK_MALLOC_SIZE := 64
  const MAX_STACK_MALLOC_SIZE := 65536
  const AFTER_RETURN: Byte := 0xf5

  /** The least class whose size 64 * 2^i holds the frame. */
  method StackMallocSizeClass(size: nat) returns (i: nat)
    requires size <= 65536
    ensures size <= 64 * Pow2(i)
    ensures forall k: nat :: k < i ==> 64 * Pow2(k) < size
    ensures i <= 10
  {
    i := 0;
    var max := MIN_STACK_MALLOC_SIZE;
    while size > max
      invariant max == MIN_STACK_MALLOC_SIZE * Pow2(i)
      invariant forall k: nat :: k < i ==> MIN_STACK_MALLOC_SIZE * Pow2(k) < size
      decreases size - max
    {
      i, max := i + 1, max * 2;
    }
    TenDoublings();
  }

  lemma TenDoublings()
    ensures Pow2(10) == 1024
  {
    assert Pow2(5) == 32;
    Pow2Add(5, 5);
  }

  /** A lifetime marker for the granules [begin, end): out of scope (poison) or into it. */
  datatype Marker = Marker(begin: nat, end: nat, poison: bool)

  predicate Covers(m: Marker, g: int) {
    m.begin <= g < m.end
  }

  /** The marker of the variable of `size` bytes at `offset` in its frame. */
  function MarkerOf(offset: nat, size: nat, granularity: nat, poison: bool): Marker
    requires granularity > 0
  {
    var begin := offset / granularity;
    Marker(begin, begin + (size + granularity - 1) / granularity, poison)
  }

  /** It covers the granules that hold a byte of the variable and no others. */
  lemma MarkerCoversVariable(offset: nat, size: nat, granularity: nat, poison: bool, g: nat)
    requires granularity > 0 && offset % granularity == 0
    ensures Covers(MarkerOf(offset, size, granularity, poison), g)
            <==> exists x: nat :: offset <= x < offset + size && x / granularity == g
  {
    var m := MarkerOf(offset, size, granularity, poison);
    Remainder(offset, granularity);
    Remainder(size + granularity - 1, granularity);
    var n := (size + granularity - 1) / granularity;
    if Covers(m, g) {
      MulMonotone(m.begin, g, granularity);
      MulMonotone(g, m.end - 1, granularity);
      GranuleSum(m.begin, n, granularity);
      DivModUnique(g * granularity, granularity, g, 0);
    }
    if x: nat :| offset <= x < offset + size && x / granularity == g {
      Remainder(x, granularity);
      QuotientMonotone(offset, x, granularity);
      if m.end <= g {
        MulMonotone(m.end, g, granularity);
        GranuleSum(m.begin, n, granularity);
      }
    }
  }

  lemma GranuleSum(a: int, n: int, m: int)
    ensures (a + n) * m == a * m + n * m && (a + n - 1) * m == a * m + n * m - m
  {
  }

  /** The shadow granule `g` should have: as the last marker covering it says. */
  function Expected(afterScope: seq<Byte>, inScope: seq<Byte>, ms: seq<Marker>, g: nat): Byte
    requires g < |afterScope| == |inScope|
  {
    if ms == [] then afterScope[g]
    else
      var m := ms[|ms| - 1];
      if Covers(m, g) then (if m.poison then afterScope[g] else inScope[g])
      else Expected(afterScope, inScope, ms[..|ms| - 1], g)
  }

  /** The last marker to cover a granule decides; with none the variable is not yet in scope. */
  lemma {:induction false} LastCoveringMarker(afterScope: seq<Byte>, inScope: seq<Byte>, ms: seq<Marker>, g: nat,
                                              i: int)
    requires g < |afterScope| == |inScope| && -1 <= i < |ms|
    requires i >= 0 ==> ms[i].begin <= g < ms[i].end
    requires forall j :: i < j < |ms| ==> !(ms[j].begin <= g < ms[j].end)
    ensures Expected(afterScope, inScope, ms, g) == if i >= 0 && !ms[i].poison then inScope[g] else afterScope[g]
  {
    if i < |ms| - 1 {
      LastCoveringMarker(afterScope, inScope, ms[..|ms| - 1], g, i);
    }
  }

  // ----- variables -----

  /** The state of variable `v`, named by its granule range, after some markers. */
  function OutOfScope(ms: seq<Marker>, begin: nat, end: nat): bool {
    if ms == [] then true
    else
      var m := ms[|ms| - 1];
      if m.begin == begin && m.end == end then m.poison else OutOfScope(ms[..|ms| - 1], begin, end)
  }

  /** With disjoint variables, the granules of a variable follow its own last marker. */
  lemma {:induction false} LastMarkerDecides(afterScope: seq<Byte>, inScope: seq<Byte>, ms: seq<Marker>, begin: nat,
                                             end: nat, g: nat)
    requires begin <= g < end <= |afterScope| == |inScope|
    requires forall i :: 0 <= i < |ms| ==>
               (ms[i].begin == begin && ms[i].end == end) || ms[i].end <= begin || end <= ms[i].begin
    ensures Expected(afterScope, inScope, ms, g)
            == if OutOfScope(ms, begin, end) then afterScope[g] else inScope[g]
  {
    if ms != [] {
      LastMarkerDecides(afterScope, inScope, ms[..|ms| - 1], begin, end, g);
    }
  }

  /** A frame at `base` in shadow memory; how stores are made does not matter to its meaning. */
  class Frame {
    const memory: ShadowMemory
    const base: nat
    const granularity: nat
    const afterScope: seq<Byte>
    const inScope: seq<Byte>
    const maxInline: nat
    const largest: nat
    const little: bool
    ghost var markers: seq<Marker>

    /** What is asked of the layout: a zero mask byte is a granule that is always accessible. */
    ghost predicate WellFormed() {
      && granularity > 0 && IsStoreSize(largest)
      && |afterScope| == |inScope| && base + |afterScope| <= memory.shadow.Length
      && forall g :: 0 <= g < |afterScope| && afterScope[g] == 0 ==> inScope[g] == 0
    }

    /** The shadow of the frame. */
    function Current(): (s: seq<Byte>)
      requires base + |afterScope| <= memory.shadow.Length
      reads memory.shadow
      ensures |s| == |afterScope|
    {
      memory.shadow[base..base + |afterScope|]
    }

    /** The shadow of everything else. */
    function Elsewhere(): (seq<Byte>, seq<Byte>)
      requires base + |afterScope| <= memory.shadow.Length
      reads memory.shadow
    {
      (memory.shadow[..base], memory.shadow[base + |afterScope|..])
    }

    /** In `shown` each granule is as the last of `ms` to cover it says. */
    ghost predicate Shows(shown: seq<Byte>, ms: seq<Marker>)
      requires |afterScope| == |inScope|
    {
      |shown| == |afterScope| && forall g :: 0 <= g < |afterScope| ==> shown[g] == Expected(afterScope, inScope, ms, g)
    }

    /** The frame shows what its markers say. */
    ghost predicate Live()
      reads this, memory.shadow
    {
      WellFormed() && Shows(Current(), markers)
    }

    constructor (memory: ShadowMemory, base: nat, granularity: nat, afterScope: seq<Byte>, inScope: seq<Byte>,
                 maxInline: nat, largest: nat, little: bool)
      requires granularity > 0 && IsStoreSize(largest)
      requires |afterScope| == |inScope| && base + |afterScope| <= memory.shadow.Length
      requires forall g :: 0 <= g < |afterScope| && afterScope[g] == 0 ==> inScope[g] == 0
      ensures WellFormed() && this.memory == memory && this.base == base
      ensures this.afterScope == afterScope && this.inScope == inScope && this.granularity == granularity
    {
      this.memory, this.base, this.granularity := memory, base, granularity;
      this.afterScope, this.inScope := afterScope, inScope;
      this.maxInline, this.largest, this.little := maxInline, largest, little;
      markers := [];
    }

    method Copy(bytes: seq<Byte>, begin: nat, end: nat)
      requires WellFormed() && |bytes| == |afterScope| && begin <= end <= |afterScope|
      requires forall g :: 0 <= g < |afterScope| && afterScope[g] == 0 ==> bytes[g] == 0 == Current()[g]
      modifies memory.shadow
      ensures Current() == Splice(old(Current()), begin, bytes[begin..end])
      ensures Elsewhere() == old(Elsewhere())
    {
      ghost var c, s := Current(), memory.shadow[..];
      assert forall g :: 0 <= g < |afterScope| ==> c[g] == s[base + g];
      memory.CopyToShadow(afterScope, bytes, base, begin, end, maxInline, largest, little);
      SpliceInside(s, base, |afterScope|, begin, bytes[begin..end]);
    }

    /** Function entry, on a frame whose accessible granules are clean. */
    method Enter()
      requires WellFormed()
      requires forall g :: 0 <= g < |afterScope| && afterScope[g] == 0 ==> Current()[g] == 0
      modifies this`markers, memory.shadow
      ensures Live() && markers == [] && Elsewhere() == old(Elsewhere())
    {
      Copy(afterScope, 0, |afterScope|);
      markers := [];
    }

    /** A lifetime marker is met. */
    method Mark(m: Marker)
      requires Live() && m.begin <= m.end <= |afterScope|
      modifies this`markers, memory.shadow
      ensures Live() && markers == old(markers) + [m] && Elsewhere() == old(Elsewhere())
    {
      forall g | 0 <= g < |afterScope| && afterScope[g] == 0
        ensures Current()[g] == 0
      {
        ExpectedZero(afterScope, inScope, markers, g);
      }
      Copy(if m.poison then afterScope else inScope, m.begin, m.end);
      assert (markers + [m])[..|markers|] == markers;
      markers := markers + [m];
    }

    /** Return from a frame on the real stack. */
    method LeaveRealStack()
      requires Live()
      modifies memory.shadow
      ensures Current() == seq(|afterScope|, _ => 0) && Elsewhere() == old(Elsewhere())
    {
      forall g | 0 <= g < |afterScope| && afterScope[g] == 0
        ensures Current()[g] == 0
      {
        ExpectedZero(afterScope, inScope, markers, g);
      }
      Copy(seq(|afterScope|, _ => 0), 0, |afterScope|);
    }

    /** Return from a fake frame: small classes are poisoned inline, over the whole class. */
    method LeaveFakeStack() returns (index: nat)
      requires WellFormed() && |afterScope| * granularity <= MAX_STACK_MALLOC_SIZE
      requires base + ClassGranules(granularity, 4) <= memory.shadow.Length
      modifies memory.shadow
      ensures index <= 4 <==> |afterScope| * granularity <= MIN_STACK_MALLOC_SIZE * 16
      ensures index <= 4 ==>
        var n := ClassGranules(granularity, index);
        |afterScope| <= n && base + n <= memory.shadow.Length
        && memory.shadow[..] == Splice(old(memory.shadow[..]), base, seq(n, _ => AFTER_RETURN))
    {
      index := StackMallocSizeClass(|afterScope| * granularity);
      assert Pow2(4) == 16;
      if index <= 4 {
        Pow2Monotone(index, 4);
        GranulesOfClass(|afterScope|, granularity, index);
        var n := ClassGranules(granularity, index);
        var bytes: seq<Byte> := seq(n, _ => AFTER_RETURN);
        memory.CopyToShadow(bytes, bytes, base, 0, n, maxInline, largest, little);
        assert bytes[0..n] == bytes;
      }
    }

    /** A whole activation on the real stack: whatever markers are met, the frame shows the last one
        for each granule at every step, and is clean at the end. */
    method Activation(ms: seq<Marker>) returns (ghost shown: seq<seq<Byte>>)
      requires WellFormed()
      requires forall g :: 0 <= g < |afterScope| ==> Current()[g] == 0
      requires forall i :: 0 <= i < |ms| ==> ms[i].begin <= ms[i].end <= |afterScope|
      modifies this`markers, memory.shadow
      ensures |shown| == |ms| + 1
      ensures forall i :: 0 <= i <= |ms| ==> Shows(shown[i], ms[..i])
      ensures memory.shadow[..] == old(memory.shadow[..])
    {
      ghost var s := memory.shadow[..];
      assert s == Elsewhere().0 + Current() + Elsewhere().1;
      Enter();
      shown := [Current()];
      for i := 0 to |ms|
        invariant Live() && markers == ms[..i] && Elsewhere() == old(Elsewhere())
        invariant |shown| == i + 1 && forall j :: 0 <= j <= i ==> Shows(shown[j], ms[..j])
      {
        Mark(ms[i]);
        shown := shown + [Current()];
        assert ms[..i + 1] == ms[..i] + [ms[i]];
      }
      LeaveRealStack();
      assert memory.shadow[..] == Elsewhere().0 + Current() + Elsewhere().1;
      assert old(Current()) == Current();
    }
  }

  // ----- what the bytes mean to a check -----

  function SignedByte(b: Byte): (v: int)
    ensures -128 <= v < 128 && v % 256 == b as int
  {
    if b < 128 then b as int else b as int - 256
  }

  /** Shadow bytes as checks read them, from granule 0 on. */
  function Read(t: seq<Byte>): AccessCheck.Shadow {
    (g: int) => if 0 <= g < |t| then SignedByte(t[g]) else 0
  }

  /** After the return from a fake frame none of its bytes may be accessed, and those of a frame on
      the real stack all may. */
  lemma LeftFramesToChecks(t: seq<Byte>, base: nat, n: nat, scale: nat, a: nat)
    requires scale <= 7 && base + n <= |t| && base <= a / Pow2(scale) < base + n
    ensures t[base..base + n] == seq(n, _ => AFTER_RETURN) ==> !AccessCheck.Addressable(Read(t), scale, a)
    ensures t[base..base + n] == seq(n, _ => 0) ==> AccessCheck.Addressable(Read(t), scale, a)
  {
    var g := a / Pow2(scale);
    assert t[g] == t[base..base + n][g - base];
    assert SignedByte(AFTER_RETURN) == -11 && SignedByte(0) == 0;
  }

  lemma SpliceInside(s: seq<Byte>, base: nat, n: nat, begin: nat, bytes: seq<Byte>)
    requires base + n <= |s| && begin + |bytes| <= n
    ensures var t := Splice(s, base + begin, bytes);
            && t[base..base + n] == Splice(s[base..base + n], begin, bytes)
            && t[..base] == s[..base] && t[base + n..] == s[base + n..]
  {
  }

  /** The shadow granules of a size class. */
  function ClassGranules(granularity: nat, index: nat): nat
    requires granularity > 0
  {
    MIN_STACK_MALLOC_SIZE * Pow2(index) / granularity
  }

  /** A class has at least as many granules as a frame it holds. */
  lemma GranulesOfClass(n: nat, granularity: nat, index: nat)
    requires granularity > 0 && n * granularity <= MIN_STACK_MALLOC_SIZE * Pow2(index) && index <= 4
    ensures n <= ClassGranules(granularity, index) <= ClassGranules(granularity, 4)
  {
    Pow2Monotone(index, 4);
    QuotientMonotone(n * granularity, MIN_STACK_MALLOC_SIZE * Pow2(index), granularity);
    QuotientMonotone(MIN_STACK_MALLOC_SIZE * Pow2(index), MIN_STACK_MALLOC_SIZE * Pow2(4), granularity);
    DivModUnique(n * granularity, granularity, n, 0);
  }

  lemma {:induction false} ExpectedZero(afterScope: seq<Byte>, inScope: seq<Byte>, ms: seq<Marker>, g: nat)
    requires g < |afterScope| == |inScope| && afterScope[g] == 0 == inScope[g]
    ensures Expected(afterScope, inScope, ms, g) == 0
  {
    if ms != [] {
      ExpectedZero(afterScope, inScope, ms[..|ms| - 1], g);
    }
  }
}
