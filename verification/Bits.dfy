/** Bit vectors of any width (bit 0 is the lowest) with the LLVM operations on them. */
module Bits {
  import opened Arith

  type Bits = seq<bool>

  function Fill(n: nat, b: bool): Bits {
    seq(n, _ => b)
  }

  function Not(a: Bits): Bits {
    seq(|a|, i requires 0 <= i < |a| => !a[i])
  }

  function And(a: Bits, b: Bits): Bits
    requires |a| == |b|
  {
    seq(|a|, i requires 0 <= i < |a| => a[i] && b[i])
  }

  function Or(a: Bits, b: Bits): Bits
    requires |a| == |b|
  {
    seq(|a|, i requires 0 <= i < |a| => a[i] || b[i])
  }

  function Xor(a: Bits, b: Bits): Bits
    requires |a| == |b|
  {
    seq(|a|, i requires 0 <= i < |a| => a[i] != b[i])
  }

  function Shl(a: Bits, n: nat): Bits {
    seq(|a|, i requires 0 <= i < |a| => if i < n then false else a[i - n])
  }

  function LShr(a: Bits, n: nat): Bits {
    seq(|a|, i requires 0 <= i < |a| => if i + n < |a| then a[i + n] else false)
  }

  function AShr(a: Bits, n: nat): Bits {
    seq(|a|, i requires 0 <= i < |a| => if i + n < |a| then a[i + n] else a[|a| - 1])
  }

  function Trunc(a: Bits, w: nat): Bits
    requires w <= |a|
  {
    a[..w]
  }

  function ZExt(a: Bits, w: nat): Bits
    requires |a| <= w
  {
    a + Fill(w - |a|, false)
  }

  function SExt(a: Bits, w: nat): Bits
    requires 0 < |a| <= w
  {
    a + Fill(w - |a|, a[|a| - 1])
  }

  predicate IsZero(a: Bits) {
    forall i :: 0 <= i < |a| ==> !a[i]
  }

  function Unsigned(a: Bits): nat {
    if a == [] then 0 else (if a[0] then 1 else 0) + 2 * Unsigned(a[1..])
  }

  function Signed(a: Bits): int {
    Unsigned(a) - if a != [] && a[|a| - 1] then Pow2(|a|) else 0
  }

  function Value(a: Bits, signed: bool): int {
    if signed then Signed(a) else Unsigned(a)
  }

  datatype Predicate = EQ | NE | UGT | UGE | ULT | ULE | SGT | SGE | SLT | SLE {
    predicate IsEquality() {
      EQ? || NE?
    }

    predicate IsSigned() {
      SGT? || SGE? || SLT? || SLE?
    }

    function Swapped(): Predicate {
      match this
      case EQ => EQ
      case NE => NE
      case UGT => ULT
      case UGE => ULE
      case ULT => UGT
      case ULE => UGE
      case SGT => SLT
      case SGE => SLE
      case SLT => SGT
      case SLE => SGE
    }
  }

  predicate ICmp(p: Predicate, a: Bits, b: Bits) {
    match p
    case EQ => a == b
    case NE => a != b
    case UGT | SGT => Value(a, p.IsSigned()) > Value(b, p.IsSigned())
    case UGE | SGE => Value(a, p.IsSigned()) >= Value(b, p.IsSigned())
    case ULT | SLT => Value(a, p.IsSigned()) < Value(b, p.IsSigned())
    case ULE | SLE => Value(a, p.IsSigned()) <= Value(b, p.IsSigned())
  }

  /** More bits, larger value. */
  lemma {:induction false} UnsignedMonotone(a: Bits, b: Bits)
    requires |a| == |b| && forall i :: 0 <= i < |a| ==> a[i] ==> b[i]
    ensures Unsigned(a) <= Unsigned(b) < Pow2(|a|)
  {
    if a != [] {
      UnsignedMonotone(a[1..], b[1..]);
    }
  }

  /** The top bit counts for 2^(n-1). */
  lemma {:induction false} UnsignedTop(a: Bits)
    requires a != []
    ensures Unsigned(a) == Unsigned(a[..|a| - 1]) + if a[|a| - 1] then Pow2(|a| - 1) else 0
  {
    if |a| > 1 {
      UnsignedTop(a[1..]);
      assert a[..|a| - 1][1..] == a[1..][..|a| - 2];
    }
  }

  /** Read with a sign, the top bit counts for -2^(n-1). */
  lemma SignedTop(a: Bits)
    requires a != []
    ensures Signed(a) == Unsigned(a[..|a| - 1]) - if a[|a| - 1] then Pow2(|a| - 1) else 0
  {
    UnsignedTop(a);
  }

  /** A vector is negative exactly if its top bit is set. */
  lemma SignedSign(a: Bits)
    requires a != []
    ensures Signed(a) < 0 <==> a[|a| - 1]
  {
    SignedTop(a);
    UnsignedMonotone(a[..|a| - 1], a[..|a| - 1]);
  }

  lemma {:induction false} ZeroIsZero(a: Bits)
    requires IsZero(a)
    ensures Unsigned(a) == 0 && Signed(a) == 0
  {
    if a != [] {
      ZeroIsZero(a[1..]);
    }
  }

  lemma {:induction false} OnesIsMinusOne(a: Bits)
    requires a != [] && forall i :: 0 <= i < |a| ==> a[i]
    ensures Signed(a) == -1
  {
    if |a| == 1 {
      assert Unsigned(a[1..]) == 0 && Pow2(0) == 1;
    } else {
      OnesIsMinusOne(a[1..]);
    }
  }

  // ----- shifts and casts as arithmetic -----

  lemma {:induction false} UnsignedSplit(a: Bits, n: nat)
    requires n <= |a|
    ensures Unsigned(a) == Unsigned(a[n..]) * Pow2(n) + Unsigned(a[..n]) && Unsigned(a[..n]) < Pow2(n)
  {
    if n == 0 {
      assert a[0..] == a && Pow2(0) == 1;
    } else {
      var high, low := Unsigned(a[n..]), Unsigned(a[1..][..n - 1]);
      UnsignedSplit(a[1..], n - 1);
      assert a[1..][n - 1..] == a[n..];
      assert Unsigned(a[1..]) == high * Pow2(n - 1) + low;
      assert Unsigned(a[..n]) == (if a[0] then 1 else 0) + 2 * low by {
        assert a[1..][..n - 1] == a[..n][1..];
      }
      Doubled(high, Pow2(n - 1), Pow2(n));
    }
  }

  lemma Doubled(x: int, p: int, q: int)
    requires q == 2 * p
    ensures x * q == 2 * (x * p)
  {
  }

  lemma {:induction false} UnsignedPad(a: Bits, k: nat)
    ensures Unsigned(a + Fill(k, false)) == Unsigned(a)
  {
    if a == [] {
      assert a + Fill(k, false) == Fill(k, false);
      ZeroIsZero(Fill(k, false));
    } else {
      UnsignedPad(a[1..], k);
      assert (a + Fill(k, false))[1..] == a[1..] + Fill(k, false);
    }
  }

  /** Repeating the sign keeps the signed value. */
  lemma {:induction false} SignedPad(a: Bits, k: nat)
    requires a != []
    ensures Signed(a + Fill(k, a[|a| - 1])) == Signed(a)
  {
    var sign := a[|a| - 1];
    if k == 0 {
      assert a + Fill(0, sign) == a;
    } else {
      SignedPad(a, k - 1);
      var b := a + Fill(k, sign);
      assert b[..|b| - 1] == a + Fill(k - 1, sign);
      SignedTop(b);
    }
  }

  lemma TruncIsModulo(a: Bits, w: nat)
    requires w <= |a|
    ensures Unsigned(Trunc(a, w)) == Unsigned(a) % Pow2(w)
  {
    UnsignedSplit(a, w);
    DivModUnique(Unsigned(a), Pow2(w), Unsigned(a[w..]), Unsigned(a[..w]));
  }

  lemma {:induction false} UnsignedRaised(a: Bits, n: nat)
    ensures Unsigned(Fill(n, false) + a) == Unsigned(a) * Pow2(n)
  {
    if n == 0 {
      assert Fill(0, false) + a == a && Pow2(0) == 1;
    } else {
      UnsignedRaised(a, n - 1);
      assert (Fill(n, false) + a)[1..] == Fill(n - 1, false) + a;
      Doubled(Unsigned(a), Pow2(n - 1), Pow2(n));
    }
  }

  lemma LowHalf(low: nat, high: nat, m: nat, k: nat)
    requires low < m && k > 0
    ensures (high * m + low) * k % (m * k) == low * k
  {
    MulAssoc(high, m, k);
    MulMonotone(low, m, k);
    assert (high * m + low) * k == high * m * k + low * k;
    DivModUnique((high * m + low) * k, m * k, high, low * k);
  }

  lemma ShlSome(a: Bits, n: nat)
    requires n < |a|
    ensures Unsigned(Shl(a, n)) == Unsigned(a) * Pow2(n) % Pow2(|a|)
  {
    var m := |a| - n;
    assert Shl(a, n) == Fill(n, false) + a[..m];
    UnsignedRaised(a[..m], n);
    UnsignedSplit(a, m);
    var low, high := Unsigned(a[..m]), Unsigned(a[m..]);
    LowHalf(low, high, Pow2(m), Pow2(n));
    Pow2Add(m, n);
    hide *;
  }

  lemma ShlAll(a: Bits, n: nat)
    requires n >= |a|
    ensures Unsigned(Shl(a, n)) == Unsigned(a) * Pow2(n) % Pow2(|a|)
  {
    ZeroIsZero(Shl(a, n));
    Pow2Add(n - |a|, |a|);
    hide *;
    MulAssoc(Unsigned(a), Pow2(n - |a|), Pow2(|a|));
    ModMultiple(Unsigned(a) * Pow2(n - |a|), Pow2(|a|));
  }

  /** A left shift multiplies, modulo 2^width. */
  lemma ShlMultiplies(a: Bits, n: nat)
    ensures Unsigned(Shl(a, n)) == Unsigned(a) * Pow2(n) % Pow2(|a|)
  {
    if n >= |a| {
      ShlAll(a, n);
    } else {
      ShlSome(a, n);
    }
  }

  lemma LShrDivides(a: Bits, n: nat)
    ensures Unsigned(LShr(a, n)) == Unsigned(a) / Pow2(n)
  {
    if n >= |a| {
      ZeroIsZero(LShr(a, n));
      UnsignedMonotone(a, a);
      Pow2Monotone(|a|, n);
      DivModUnique(Unsigned(a), Pow2(n), 0, Unsigned(a));
    } else {
      assert LShr(a, n) == a[n..] + Fill(n, false);
      UnsignedPad(a[n..], n);
      UnsignedSplit(a, n);
      DivModUnique(Unsigned(a), Pow2(n), Unsigned(a[n..]), Unsigned(a[..n]));
    }
  }

  lemma {:induction false} SignedSplit(a: Bits, n: nat)
    requires n < |a|
    ensures Signed(a) == Signed(a[n..]) * Pow2(n) + Unsigned(a[..n]) && Unsigned(a[..n]) < Pow2(n)
  {
    if n == 0 {
      assert a[0..] == a && Pow2(0) == 1;
    } else {
      var high, low := Signed(a[n..]), Unsigned(a[1..][..n - 1]);
      SignedSplit(a[1..], n - 1);
      assert a[1..][n - 1..] == a[n..];
      assert Signed(a[1..]) == high * Pow2(n - 1) + low;
      assert Signed(a) == (if a[0] then 1 else 0) + 2 * Signed(a[1..]);
      assert Unsigned(a[..n]) == (if a[0] then 1 else 0) + 2 * low by {
        assert a[1..][..n - 1] == a[..n][1..];
      }
      Doubled(high, Pow2(n - 1), Pow2(n));
    }
  }

  lemma AllSign(a: Bits, n: nat)
    requires a != [] && n >= |a|
    ensures Signed(AShr(a, n)) == Signed(a) / Pow2(n)
  {
    UnsignedMonotone(a, a);
    Pow2Monotone(|a|, n);
    SignedSign(a);
    if a[|a| - 1] {
      OnesIsMinusOne(AShr(a, n));
      DivModUnique(Signed(a), Pow2(n), -1, Signed(a) + Pow2(n));
    } else {
      ZeroIsZero(AShr(a, n));
      DivModUnique(Signed(a), Pow2(n), 0, Signed(a));
    }
  }

  /** An arithmetic right shift divides and rounds down. */
  lemma AShrDivides(a: Bits, n: nat)
    requires a != []
    ensures Signed(AShr(a, n)) == Signed(a) / Pow2(n)
  {
    if n >= |a| {
      AllSign(a, n);
    } else {
      assert AShr(a, n) == a[n..] + Fill(n, a[|a| - 1]);
      SignedPad(a[n..], n);
      SignedSplit(a, n);
      DivModUnique(Signed(a), Pow2(n), Signed(a[n..]), Unsigned(a[..n]));
    }
  }

  // ----- comparisons as arithmetic -----

  lemma {:induction false} UnsignedInjective(a: Bits, b: Bits)
    requires |a| == |b| && Unsigned(a) == Unsigned(b)
    ensures a == b
  {
    if a != [] {
      UnsignedInjective(a[1..], b[1..]);
      assert a == [a[0]] + a[1..] && b == [b[0]] + b[1..];
    }
  }

  lemma SignedInjective(a: Bits, b: Bits)
    requires |a| == |b| > 0 && Signed(a) == Signed(b)
    ensures a == b
  {
    SignedSign(a);
    SignedSign(b);
    UnsignedInjective(a, b);
  }

  /** At any width equality is that of the values, read either way, and the orders are theirs. */
  lemma {:induction false} ComparisonsAreOfValues(a: Bits, b: Bits)
    requires |a| == |b| > 0
    ensures var x, y := Unsigned(a), Unsigned(b);
            && (ICmp(EQ, a, b) <==> x == y) && (ICmp(NE, a, b) <==> x != y)
            && (ICmp(ULT, a, b) <==> x < y) && (ICmp(ULE, a, b) <==> x <= y)
            && (ICmp(UGT, a, b) <==> x > y) && (ICmp(UGE, a, b) <==> x >= y)
    ensures var x, y := Signed(a), Signed(b);
            && (ICmp(EQ, a, b) <==> x == y) && (ICmp(NE, a, b) <==> x != y)
            && (ICmp(SLT, a, b) <==> x < y) && (ICmp(SLE, a, b) <==> x <= y)
            && (ICmp(SGT, a, b) <==> x > y) && (ICmp(SGE, a, b) <==> x >= y)
  {
    if Unsigned(a) == Unsigned(b) {
      UnsignedInjective(a, b);
    }
    if Signed(a) == Signed(b) {
      SignedInjective(a, b);
    }
  }
}
