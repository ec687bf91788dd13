/** Bitwise operations on natural numbers, and how they act on blocks of bits. */
module BitOps {
  import opened Arith

  datatype Op = Xor | AndNot | Or

  function Bit(op: Op, a: int, b: int): nat {
    match op
    case Xor => if a != b then 1 else 0
    case AndNot => if a == 1 && b == 0 then 1 else 0
    case Or => if a == 1 || b == 1 then 1 else 0
  }

  /** The operation bit by bit; AndNot(a, b) is a & ~b. */
  function Apply(op: Op, a: nat, b: nat): nat
    decreases a + b
  {
    if a == 0 && b == 0 then 0 else Bit(op, a % 2, b % 2) + 2 * Apply(op, a / 2, b / 2)
  }

  /** The low `k` bits. */
  function Low(a: nat, k: nat): (r: nat)
    ensures r < Pow2(k)
  {
    a % Pow2(k)
  }

  /** The bits above. */
  function High(a: nat, k: nat): (r: nat)
  {
    Remainder(a, Pow2(k));
    MulSign(a / Pow2(k), Pow2(k));
    a / Pow2(k)
  }

  /** High and low bits are treated separately. */
  lemma {:induction false} Split(op: Op, a: nat, b: nat, k: nat)
    ensures Apply(op, a, b) == Apply(op, Low(a, k), Low(b, k)) + Pow2(k) * Apply(op, High(a, k), High(b, k))
  {
    if k > 0 {
      Halve(a, k);
      Halve(b, k);
      Split(op, a / 2, b / 2, k - 1);
      Regroup(Pow2(k - 1), Apply(op, High(a, k), High(b, k)));
    } else {
      NoBits(a);
      NoBits(b);
    }
  }

  lemma Regroup(p: nat, x: nat)
    ensures 2 * (p * x) == 2 * p * x
  {
  }

  lemma NoBits(a: nat)
    ensures Low(a, 0) == 0 && High(a, 0) == a
  {
    DivModUnique(a, 1, a, 0);
  }

  lemma Halve(a: nat, k: nat)
    requires k > 0
    ensures Low(a, k) % 2 == a % 2 && Low(a, k) / 2 == Low(a / 2, k - 1) && High(a, k) == High(a / 2, k - 1)
  {
    var p, q, r := Pow2(k - 1), High(a / 2, k - 1), Low(a / 2, k - 1);
    assert a / 2 == q * p + r;
    Regroup(p, q);
    assert a == q * (2 * p) + (2 * r + a % 2);
    DivModUnique(a, 2 * p, q, 2 * r + a % 2);
  }

  lemma {:induction false} Zero(op: Op, a: nat)
    ensures Apply(op, a, 0) == a
    ensures !op.AndNot? ==> Apply(op, 0, a) == a
  {
    if a > 0 {
      Zero(op, a / 2);
    }
  }

  lemma {:induction false} Bounded(op: Op, a: nat, b: nat, k: nat)
    requires a < Pow2(k) && b < Pow2(k)
    ensures Apply(op, a, b) < Pow2(k)
  {
    if k > 0 {
      Bounded(op, a / 2, b / 2, k - 1);
    }
  }

  /** Clearing all of the low k bits of a k-bit number. */
  lemma {:induction false} ClearAll(a: nat, k: nat)
    requires a < Pow2(k)
    ensures Apply(AndNot, a, Pow2(k) - 1) == 0
  {
    if k > 0 {
      ClearAll(a / 2, k - 1);
    }
  }
}
