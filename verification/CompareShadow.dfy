/** The shadow of integer comparisons: a comparison is poisoned if uninitialized bits can change it. */
module CompareShadow {
  import opened Arith
  import opened Bits

  /** `x` is `a` with any values in the poisoned bits `s`. */
  predicate Filling(a: Bits, s: Bits, x: Bits) {
    |a| == |s| == |x| && forall i :: 0 <= i < |a| ==> s[i] || a[i] == x[i]
  }

  /** Two fillings of the operands compare differently. */
  ghost predicate Depends(p: Predicate, a: Bits, b: Bits, sa: Bits, sb: Bits) {
    exists a1, b1, a2, b2 :: Filling(a, sa, a1) && Filling(b, sb, b1) && Filling(a, sa, a2) && Filling(b, sb, b2)
                             && ICmp(p, a1, b1) != ICmp(p, a2, b2)
  }

  // ----- equality -----

  predicate EqualityShadow(a: Bits, b: Bits, sa: Bits, sb: Bits)
    requires |a| == |b| == |sa| == |sb|
  {
    var c, sc := Xor(a, b), Or(sa, sb);
    !IsZero(sc) && IsZero(And(Not(sc), c))
  }

  /** The filling of `a` that agrees with `b` wherever it can, with bit `k` flipped on demand. */
  function Towards(a: Bits, s: Bits, b: Bits, k: int): Bits
    requires |a| == |s| == |b|
  {
    seq(|a|, i requires 0 <= i < |a| => if s[i] then b[i] != (i == k) else a[i])
  }

  lemma EqualityIsExact(p: Predicate, a: Bits, b: Bits, sa: Bits, sb: Bits)
    requires |a| == |b| == |sa| == |sb| && p.IsEquality()
    ensures EqualityShadow(a, b, sa, sb) <==> Depends(p, a, b, sa, sb)
  {
    var c, sc := Xor(a, b), Or(sa, sb);
    var open := And(Not(sc), c);
    if EqualityShadow(a, b, sa, sb) {
      var k :| 0 <= k < |sc| && sc[k];
      var a1 := Towards(a, sa, b, -1);
      var b1 := Towards(b, sb, a1, -1);
      forall i | 0 <= i < |a|
        ensures a1[i] == b1[i]
      {
        assert !open[i];
      }
      assert a1 == b1;
      if sa[k] {
        var a2 := Towards(a, sa, b1, k);
        assert a2[k] != b1[k];
        assert ICmp(p, a1, b1) != ICmp(p, a2, b1);
      } else {
        var b2 := Towards(b, sb, a1, k);
        assert b2[k] != a1[k];
        assert ICmp(p, a1, b1) != ICmp(p, a1, b2);
      }
    } else {
      forall x, y | Filling(a, sa, x) && Filling(b, sb, y)
        ensures x == y <==> a == b
      {
        EqualityIsFixed(a, b, sa, sb, x, y);
      }
    }
  }

  lemma EqualityIsFixed(a: Bits, b: Bits, sa: Bits, sb: Bits, x: Bits, y: Bits)
    requires |a| == |b| && Filling(a, sa, x) && Filling(b, sb, y) && !EqualityShadow(a, b, sa, sb)
    ensures x == y <==> a == b
  {
    var sc := Or(sa, sb);
    if IsZero(sc) {
      forall i | 0 <= i < |a|
        ensures a[i] == x[i] && b[i] == y[i]
      {
        assert !sc[i];
      }
    } else {
      var i :| 0 <= i < |a| && And(Not(sc), Xor(a, b))[i];
      assert a[i] != b[i] && x[i] != y[i];
    }
  }

  // ----- order -----

  function OtherBits(s: Bits): Bits {
    LShr(Shl(s, 1), 1)
  }

  function LowestPossible(a: Bits, s: Bits, signed: bool): Bits
    requires |a| == |s|
  {
    if signed then
      var other := OtherBits(s);
      Or(And(a, Not(other)), Xor(s, other))
    else And(a, Not(s))
  }

  function HighestPossible(a: Bits, s: Bits, signed: bool): Bits
    requires |a| == |s|
  {
    if signed then
      var other := OtherBits(s);
      Or(And(a, Not(Xor(s, other))), other)
    else Or(a, s)
  }

  predicate RelationalShadow(p: Predicate, a: Bits, b: Bits, sa: Bits, sb: Bits)
    requires |a| == |b| == |sa| == |sb|
  {
    var signed := p.IsSigned();
    ICmp(p, LowestPossible(a, sa, signed), HighestPossible(b, sb, signed))
    != ICmp(p, HighestPossible(a, sa, signed), LowestPossible(b, sb, signed))
  }

  /** The lowest and the highest possible value are attained, and bound every filling. */
  lemma BoundsAreTight(a: Bits, s: Bits, signed: bool)
    requires |a| == |s| && (signed ==> a != [])
    ensures Filling(a, s, LowestPossible(a, s, signed)) && Filling(a, s, HighestPossible(a, s, signed))
    ensures forall x :: Filling(a, s, x) ==>
              Value(LowestPossible(a, s, signed), signed) <= Value(x, signed)
              <= Value(HighestPossible(a, s, signed), signed)
  {
    forall x | Filling(a, s, x)
      ensures Value(LowestPossible(a, s, signed), signed) <= Value(x, signed)
              <= Value(HighestPossible(a, s, signed), signed)
    {
      BoundsHold(a, s, signed, x);
    }
  }

  lemma BoundsHold(a: Bits, s: Bits, signed: bool, x: Bits)
    requires Filling(a, s, x) && (signed ==> a != [])
    ensures Value(LowestPossible(a, s, signed), signed) <= Value(x, signed)
            <= Value(HighestPossible(a, s, signed), signed)
  {
    var lo, hi := LowestPossible(a, s, signed), HighestPossible(a, s, signed);
    if signed {
      var n := |a| - 1;
      SignedTop(lo);
      SignedTop(hi);
      SignedTop(x);
      UnsignedMonotone(lo[..n], x[..n]);
      UnsignedMonotone(x[..n], hi[..n]);
    } else {
      UnsignedMonotone(lo, x);
      UnsignedMonotone(x, hi);
    }
  }

  /** Main result on order: the shadow is set exactly when two fillings compare differently. */
  lemma RelationalIsExact(p: Predicate, a: Bits, b: Bits, sa: Bits, sb: Bits)
    requires |a| == |b| == |sa| == |sb| && !p.IsEquality() && (p.IsSigned() ==> a != [])
    ensures RelationalShadow(p, a, b, sa, sb) <==> Depends(p, a, b, sa, sb)
  {
    var signed := p.IsSigned();
    BoundsAreTight(a, sa, signed);
    BoundsAreTight(b, sb, signed);
    var a0, a1 := LowestPossible(a, sa, signed), HighestPossible(a, sa, signed);
    var b0, b1 := LowestPossible(b, sb, signed), HighestPossible(b, sb, signed);
    if !RelationalShadow(p, a, b, sa, sb) {
      forall x, y | Filling(a, sa, x) && Filling(b, sb, y)
        ensures ICmp(p, x, y) == ICmp(p, a0, b1)
      {
      }
    }
  }
}
