/** Propagating the shadow of uninitialized bits through expressions. */
module ShadowPropagation {
  import opened Arith
  import opened Bits
  import opened CompareShadow

  datatype BitOp = AndOp | OrOp | XorOp

  datatype ShiftOp = ShlOp | LShrOp | AShrOp

  datatype CastOp = TruncOp | ZExtOp | SExtOp

  /** An expression over inputs of given widths. */
  datatype Expr =
    | Input(k: nat, width: nat)
    | Const(bits: Bits)
    | Bitwise(op: BitOp, l: Expr, r: Expr)
    | Shift(sop: ShiftOp, l: Expr, r: Expr)
    | Cast(cop: CastOp, e: Expr, to: nat)
    | Select(c: Expr, l: Expr, r: Expr)
    | Compare(p: Predicate, l: Expr, r: Expr)

  function Width(e: Expr): nat {
    match e
    case Input(_, w) => w
    case Const(bits) => |bits|
    case Bitwise(_, l, _) => Width(l)
    case Shift(_, l, _) => Width(l)
    case Cast(_, _, to) => to
    case Select(_, l, _) => Width(l)
    case Compare(_, _, _) => 1
  }

  predicate WellTyped(e: Expr) {
    match e
    case Input(_, w) => w > 0
    case Const(bits) => |bits| > 0
    case Bitwise(_, l, r) => WellTyped(l) && WellTyped(r) && Width(l) == Width(r)
    case Shift(_, l, r) => WellTyped(l) && WellTyped(r) && Width(l) == Width(r)
    case Cast(TruncOp, a, to) => WellTyped(a) && 0 < to <= Width(a)
    case Cast(_, a, to) => WellTyped(a) && 0 < Width(a) <= to
    case Select(c, l, r) => WellTyped(c) && WellTyped(l) && WellTyped(r) && Width(c) == 1 && Width(l) == Width(r)
    case Compare(_, l, r) => WellTyped(l) && WellTyped(r) && Width(l) == Width(r)
  }

  /** Bits for every input, cut or padded to the width asked for. */
  function Lookup(env: map<nat, Bits>, k: nat, w: nat): (b: Bits)
    ensures |b| == w
  {
    if k in env && |env[k]| == w then env[k] else Fill(w, false)
  }

  function DoBitwise(op: BitOp, a: Bits, b: Bits): Bits
    requires |a| == |b|
  {
    match op
    case AndOp => And(a, b)
    case OrOp => Or(a, b)
    case XorOp => Xor(a, b)
  }

  function DoShift(op: ShiftOp, a: Bits, n: nat): (r: Bits)
    ensures |r| == |a|
  {
    match op
    case ShlOp => Shl(a, n)
    case LShrOp => LShr(a, n)
    case AShrOp => AShr(a, n)
  }

  function DoCast(op: CastOp, a: Bits, to: nat): Bits
    requires 0 < |a| && (if op.TruncOp? then to <= |a| else |a| <= to)
  {
    match op
    case TruncOp => Trunc(a, to)
    case ZExtOp => ZExt(a, to)
    case SExtOp => SExt(a, to)
  }

  function Eval(e: Expr, vals: map<nat, Bits>): (v: Bits)
    requires WellTyped(e)
    ensures |v| == Width(e) > 0
  {
    match e
    case Input(k, w) => Lookup(vals, k, w)
    case Const(bits) => bits
    case Bitwise(op, l, r) => DoBitwise(op, Eval(l, vals), Eval(r, vals))
    case Shift(op, l, r) => DoShift(op, Eval(l, vals), Unsigned(Eval(r, vals)))
    case Cast(op, a, to) => DoCast(op, Eval(a, vals), to)
    case Select(c, l, r) => Chosen(Eval(c, vals)[0], Eval(l, vals), Eval(r, vals))
    case Compare(p, l, r) => [ICmp(p, Eval(l, vals), Eval(r, vals))]
  }

  /** The shifts are a product modulo 2^width and two quotients rounded down. */
  lemma ShiftsAreArithmetic(op: ShiftOp, a: Bits, n: nat)
    requires a != []
    ensures match op
            case ShlOp => Unsigned(DoShift(op, a, n)) == Unsigned(a) * Pow2(n) % Pow2(|a|)
            case LShrOp => Unsigned(DoShift(op, a, n)) == Unsigned(a) / Pow2(n)
            case AShrOp => Signed(DoShift(op, a, n)) == Signed(a) / Pow2(n)
  {
    ShlMultiplies(a, n);
    LShrDivides(a, n);
    AShrDivides(a, n);
  }

  /** A truncation takes the remainder; the extensions keep the unsigned or the signed value. */
  lemma CastsAreArithmetic(op: CastOp, a: Bits, to: nat)
    requires 0 < |a| && (if op.TruncOp? then to <= |a| else |a| <= to)
    ensures |DoCast(op, a, to)| == to
    ensures match op
            case TruncOp => Unsigned(DoCast(op, a, to)) == Unsigned(a) % Pow2(to)
            case ZExtOp => Unsigned(DoCast(op, a, to)) == Unsigned(a)
            case SExtOp => Signed(DoCast(op, a, to)) == Signed(a)
  {
    match op
    case TruncOp => TruncIsModulo(a, to);
    case ZExtOp => UnsignedPad(a, to - |a|);
    case SExtOp => SignedPad(a, to - |a|);
  }

  // ----- the shadow of one operation -----

  function BitwiseShadow(op: BitOp, v1: Bits, v2: Bits, s1: Bits, s2: Bits): Bits
    requires |v1| == |v2| == |s1| == |s2|
  {
    match op
    case AndOp => Or(Or(And(s1, s2), And(v1, s2)), And(s1, v2))
    case OrOp => Or(Or(And(s1, s2), And(Not(v1), s2)), And(s1, Not(v2)))
    case XorOp => Or(s1, s2)
  }

  function ShiftShadow(op: ShiftOp, v2: Bits, s1: Bits, s2: Bits): Bits
    requires |v2| == |s1| == |s2|
  {
    Or(DoShift(op, s1, Unsigned(v2)), Fill(|s2|, !IsZero(s2)))
  }

  function SelectShadow(c: bool, v1: Bits, v2: Bits, sc: bool, s1: Bits, s2: Bits): Bits
    requires |v1| == |v2| == |s1| == |s2|
  {
    if sc then Or(Or(Xor(v1, v2), s1), s2) else if c then s1 else s2
  }

  /** The fallback: poisoned if any operand bit is. */
  function AnyPoisoned(s1: Bits, s2: Bits): bool
    requires |s1| == |s2|
  {
    !IsZero(Or(s1, s2))
  }

  /** A sign test, x < 0 or x >= 0 in one of its forms, depends on the top bit only. */
  predicate IsSignTest(p: Predicate, constant: Bits) {
    || (IsZero(constant) && (p.SLT? || p.SGE?))
    || (IsZero(Not(constant)) && (p.SGT? || p.SLE?))
  }

  function SignedRelationalShadow(p: Predicate, l: Expr, r: Expr, s1: Bits, s2: Bits): bool
    requires |s1| == |s2| > 0
  {
    if r.Const? then
      if IsSignTest(p, r.bits) then s1[|s1| - 1] else AnyPoisoned(s1, s2)
    else if l.Const? then
      if IsSignTest(p.Swapped(), l.bits) then s2[|s2| - 1] else AnyPoisoned(s1, s2)
    else AnyPoisoned(s1, s2)
  }

  /** The options for comparisons: treat them at all, and treat order exactly. */
  datatype CompareOptions = CompareOptions(handle: bool, exact: bool)

  /** The choice between the treatments of a comparison. */
  function CompareShadowOf(o: CompareOptions, p: Predicate, l: Expr, r: Expr, v1: Bits, v2: Bits, s1: Bits,
                           s2: Bits): bool
    requires |v1| == |v2| == |s1| == |s2| > 0
  {
    if !o.handle then AnyPoisoned(s1, s2)
    else if p.IsEquality() then EqualityShadow(v1, v2, s1, s2)
    else if o.exact then RelationalShadow(p, v1, v2, s1, s2)
    else if p.IsSigned() then SignedRelationalShadow(p, l, r, s1, s2)
    else if l.Const? || r.Const? then RelationalShadow(p, v1, v2, s1, s2)
    else AnyPoisoned(s1, s2)
  }

  /** The shadow the pass computes for `e`, from the values at hand and the shadows of the inputs. */
  function Shadow(o: CompareOptions, e: Expr, vals: map<nat, Bits>, shadows: map<nat, Bits>): (s: Bits)
    requires WellTyped(e)
    ensures |s| == Width(e) > 0
  {
    hide Eval;
    match e
    case Input(k, w) => Lookup(shadows, k, w)
    case Const(bits) => Fill(|bits|, false)
    case Bitwise(op, l, r) =>
      BitwiseShadow(op, Eval(l, vals), Eval(r, vals), Shadow(o, l, vals, shadows), Shadow(o, r, vals, shadows))
    case Shift(op, l, r) =>
      ShiftShadow(op, Eval(r, vals), Shadow(o, l, vals, shadows), Shadow(o, r, vals, shadows))
    case Cast(op, a, to) => DoCast(op, Shadow(o, a, vals, shadows), to)
    case Select(c, l, r) =>
      SelectShadow(Eval(c, vals)[0], Eval(l, vals), Eval(r, vals), Shadow(o, c, vals, shadows)[0],
                   Shadow(o, l, vals, shadows), Shadow(o, r, vals, shadows))
    case Compare(p, l, r) =>
      [CompareShadowOf(o, p, l, r, Eval(l, vals), Eval(r, vals), Shadow(o, l, vals, shadows),
                       Shadow(o, r, vals, shadows))]
  }

  // ----- one operation is sound -----

  lemma BitwiseIsSound(op: BitOp, a: Bits, b: Bits, sa: Bits, sb: Bits, x: Bits, y: Bits)
    requires |a| == |b| && Filling(a, sa, x) && Filling(b, sb, y)
    ensures Filling(DoBitwise(op, a, b), BitwiseShadow(op, a, b, sa, sb), DoBitwise(op, x, y))
  {
  }

  lemma ShiftFills(op: ShiftOp, a: Bits, s: Bits, x: Bits, n: nat)
    requires Filling(a, s, x)
    ensures Filling(DoShift(op, a, n), DoShift(op, s, n), DoShift(op, x, n))
  {
  }

  lemma MorePoison(a: Bits, s: Bits, t: Bits, x: Bits)
    requires Filling(a, s, x) && |t| == |s|
    ensures Filling(a, Or(s, t), x)
  {
  }

  lemma ShiftIsSound(op: ShiftOp, a: Bits, b: Bits, sa: Bits, sb: Bits, x: Bits, y: Bits)
    requires |a| == |b| && Filling(a, sa, x) && Filling(b, sb, y)
    ensures Filling(DoShift(op, a, Unsigned(b)), ShiftShadow(op, b, sa, sb), DoShift(op, x, Unsigned(y)))
  {
    hide Unsigned;
    if IsZero(sb) {
      assert b == y;
      ShiftFills(op, a, sa, x, Unsigned(b));
      hide DoShift;
      MorePoison(DoShift(op, a, Unsigned(b)), DoShift(op, sa, Unsigned(b)), Fill(|sb|, false),
                 DoShift(op, x, Unsigned(y)));
    }
  }

  lemma SelectIsSound(c: bool, a: Bits, b: Bits, sc: bool, sa: Bits, sb: Bits, z: bool, x: Bits, y: Bits)
    requires |a| == |b| && Filling(a, sa, x) && Filling(b, sb, y) && Flag(c, sc, z)
    ensures Filling(Chosen(c, a, b), SelectShadow(c, a, b, sc, sa, sb), Chosen(z, x, y))
  {
  }

  lemma CastIsSound(op: CastOp, a: Bits, s: Bits, to: nat, x: Bits)
    requires a != [] && (if op.TruncOp? then to <= |a| else |a| <= to) && Filling(a, s, x)
    ensures Filling(DoCast(op, a, to), DoCast(op, s, to), DoCast(op, x, to))
  {
  }

  lemma SignTestIsSound(p: Predicate, a: Bits, constant: Bits, s: Bits, x: Bits)
    requires a != [] && |a| == |constant| && Filling(a, s, x) && IsSignTest(p, constant)
    requires !s[|s| - 1]
    ensures ICmp(p, a, constant) == ICmp(p, x, constant)
  {
    SignedSign(a);
    SignedSign(x);
    if p.SLT? || p.SGE? {
      ZeroIsZero(constant);
    } else {
      forall i | 0 <= i < |constant|
        ensures constant[i]
      {
        assert !Not(constant)[i];
      }
      OnesIsMinusOne(constant);
    }
  }

  lemma CompareIsSound(o: CompareOptions, p: Predicate, l: Expr, r: Expr, a: Bits, b: Bits, sa: Bits, sb: Bits,
                       x: Bits, y: Bits)
    requires |a| == |b| > 0 && Filling(a, sa, x) && Filling(b, sb, y)
    requires (l.Const? ==> l.bits == a == x) && (r.Const? ==> r.bits == b == y)
    requires !CompareShadowOf(o, p, l, r, a, b, sa, sb)
    ensures ICmp(p, a, b) == ICmp(p, x, y)
  {
    if AnyPoisoned(sa, sb) {
      if p.IsEquality() {
        EqualityIsExact(p, a, b, sa, sb);
      } else if o.exact || (!p.IsSigned() && (l.Const? || r.Const?)) {
        RelationalIsExact(p, a, b, sa, sb);
      } else if r.Const? {
        SignTestIsSound(p, a, b, sa, x);
      } else {
        SignTestIsSound(p.Swapped(), b, a, sb, y);
      }
    } else {
      forall i | 0 <= i < |a|
        ensures a[i] == x[i] && b[i] == y[i]
      {
        assert !Or(sa, sb)[i];
      }
      assert a == x && b == y;
    }
  }

  // ----- whole expressions -----

  /** The inputs may differ in their poisoned bits only. */
  ghost predicate SameInputs(vals: map<nat, Bits>, shadows: map<nat, Bits>, other: map<nat, Bits>) {
    forall k, w :: Filling(Lookup(vals, k, w), Lookup(shadows, k, w), Lookup(other, k, w))
  }

  /** No result bit with a zero shadow changes. */
  ghost predicate Sound(o: CompareOptions, e: Expr, vals: map<nat, Bits>, shadows: map<nat, Bits>,
                        other: map<nat, Bits>)
    requires WellTyped(e)
  {
    Filling(Eval(e, vals), Shadow(o, e, vals, shadows), Eval(e, other))
  }

  /** Main result on propagation.  Changing poisoned input bits never changes a result bit whose
      computed shadow is zero. */
  lemma {:induction false} PropagationIsSound(o: CompareOptions, e: Expr, vals: map<nat, Bits>,
                                              shadows: map<nat, Bits>, other: map<nat, Bits>)
    requires WellTyped(e) && SameInputs(vals, shadows, other)
    ensures Sound(o, e, vals, shadows, other)
  {
    match e
    case Input(_, _) =>
    case Const(_) =>
    case Bitwise(op, l, r) =>
      PropagationIsSound(o, l, vals, shadows, other);
      PropagationIsSound(o, r, vals, shadows, other);
      BitwiseIsSound(op, Eval(l, vals), Eval(r, vals), Shadow(o, l, vals, shadows),
                     Shadow(o, r, vals, shadows), Eval(l, other), Eval(r, other));
    case Shift(op, l, r) =>
      PropagationIsSound(o, l, vals, shadows, other);
      PropagationIsSound(o, r, vals, shadows, other);
      ShiftIsSound(op, Eval(l, vals), Eval(r, vals), Shadow(o, l, vals, shadows),
                   Shadow(o, r, vals, shadows), Eval(l, other), Eval(r, other));
    case Cast(op, a, to) =>
      PropagationIsSound(o, a, vals, shadows, other);
      CastIsSound(op, Eval(a, vals), Shadow(o, a, vals, shadows), to, Eval(a, other));
    case Select(c, l, r) =>
      PropagationIsSound(o, c, vals, shadows, other);
      PropagationIsSound(o, l, vals, shadows, other);
      PropagationIsSound(o, r, vals, shadows, other);
      SelectIsSound(Eval(c, vals)[0], Eval(l, vals), Eval(r, vals), Shadow(o, c, vals, shadows)[0],
                    Shadow(o, l, vals, shadows), Shadow(o, r, vals, shadows),
                    Eval(c, other)[0], Eval(l, other), Eval(r, other));
    case Compare(p, l, r) =>
      PropagationIsSound(o, l, vals, shadows, other);
      PropagationIsSound(o, r, vals, shadows, other);
      CompareStep(o, p, l, r, vals, shadows, other);
  }

  lemma CompareStep(o: CompareOptions, p: Predicate, l: Expr, r: Expr, vals: map<nat, Bits>, shadows: map<nat, Bits>,
                    other: map<nat, Bits>)
    requires WellTyped(Compare(p, l, r))
    requires Sound(o, l, vals, shadows, other) && Sound(o, r, vals, shadows, other)
    ensures Sound(o, Compare(p, l, r), vals, shadows, other)
  {
    if !Shadow(o, Compare(p, l, r), vals, shadows)[0] {
      CompareIsSound(o, p, l, r, Eval(l, vals), Eval(r, vals), Shadow(o, l, vals, shadows),
                     Shadow(o, r, vals, shadows), Eval(l, other), Eval(r, other));
    }
  }

  // ----- one operation is exact -----

  function SetBit(a: Bits, s: Bits, i: nat, v: bool): Bits
    requires |a| == |s| && i < |a|
  {
    if s[i] then a[i := v] else a
  }

  /** A bit of and, or, xor is marked exactly when two fillings of the operands differ in it. */
  lemma BitwiseIsExact(op: BitOp, a: Bits, b: Bits, sa: Bits, sb: Bits, i: nat)
    requires |a| == |b| == |sa| == |sb| && i < |a|
    ensures BitwiseShadow(op, a, b, sa, sb)[i]
            <==> exists x, y, x', y' :: Filling(a, sa, x) && Filling(b, sb, y) && Filling(a, sa, x')
                    && Filling(b, sb, y')
                                        && DoBitwise(op, x, y)[i] != DoBitwise(op, x', y')[i]
  {
    if BitwiseShadow(op, a, b, sa, sb)[i] {
      var x, y := SetBit(a, sa, i, true), SetBit(b, sb, i, true);
      var x' := SetBit(a, sa, i, false);
      var y' := if op.XorOp? && sa[i] then y else SetBit(b, sb, i, false);
      assert Filling(a, sa, x) && Filling(b, sb, y) && Filling(a, sa, x') && Filling(b, sb, y');
      assert DoBitwise(op, x, y)[i] != DoBitwise(op, x', y')[i];
    } else {
      forall x, y | Filling(a, sa, x) && Filling(b, sb, y)
        ensures DoBitwise(op, x, y)[i] == DoBitwise(op, a, b)[i]
      {
        BitwiseIsSound(op, a, b, sa, sb, x, y);
      }
    }
  }

  /** A condition bit `c` with shadow `sc` may be `z`. */
  predicate Flag(c: bool, sc: bool, z: bool) {
    sc || c == z
  }

  function Chosen(c: bool, a: Bits, b: Bits): Bits {
    if c then a else b
  }

  /** So is a bit of a select; a poisoned condition may go either way. */
  lemma SelectIsExact(c: bool, a: Bits, b: Bits, sc: bool, sa: Bits, sb: Bits, i: nat)
    requires |a| == |b| == |sa| == |sb| && i < |a|
    ensures SelectShadow(c, a, b, sc, sa, sb)[i]
            <==> exists z, x, y, z', x', y' ::
                   && Flag(c, sc, z) && Flag(c, sc, z')
                   && Filling(a, sa, x) && Filling(b, sb, y) && Filling(a, sa, x') && Filling(b, sb, y')
                   && Chosen(z, x, y)[i] != Chosen(z', x', y')[i]
  {
    if SelectShadow(c, a, b, sc, sa, sb)[i] {
      var x, y := SetBit(a, sa, i, true), SetBit(b, sb, i, true);
      var x', y' := SetBit(a, sa, i, false), SetBit(b, sb, i, false);
      var z := if sc then sa[i] || !sb[i] else c;
      var z' := if sc && !sa[i] && !sb[i] then false else z;
      assert Filling(a, sa, x) && Filling(b, sb, y) && Filling(a, sa, x') && Filling(b, sb, y');
      assert Flag(c, sc, z) && Flag(c, sc, z') && Chosen(z, x, y)[i] != Chosen(z', x', y')[i];
    } else {
      forall z, x, y | Flag(c, sc, z) && Filling(a, sa, x) && Filling(b, sb, y)
        ensures Chosen(z, x, y)[i] == Chosen(c, a, b)[i]
      {
        SelectIsSound(c, a, b, sc, sa, sb, z, x, y);
      }
    }
  }

  /** The bit of an operand of width `w` that a shift by `n` moves to bit `i`, or -1. */
  function Source(op: ShiftOp, w: nat, n: nat, i: nat): (j: int)
    requires i < w
    ensures -1 <= j < w
  {
    match op
    case ShlOp => if i < n then -1 else i - n
    case LShrOp => if i + n < w then i + n else -1
    case AShrOp => if i + n < w then i + n else w - 1
  }

  lemma ShiftMoves(op: ShiftOp, a: Bits, n: nat, i: nat)
    requires i < |a|
    ensures var j := Source(op, |a|, n, i); DoShift(op, a, n)[i] <==> j >= 0 && a[j]
  {
    match op
    case ShlOp =>
      assert Shl(a, n)[i] == if i < n then false else a[i - n];
    case LShrOp =>
      assert LShr(a, n)[i] == if i + n < |a| then a[i + n] else false;
    case AShrOp =>
      assert AShr(a, n)[i] == if i + n < |a| then a[i + n] else a[|a| - 1];
  }

  lemma ShiftsApart(op: ShiftOp, a: Bits, s: Bits, n: nat, i: nat)
    requires |a| == |s| && i < |a| && DoShift(op, s, n)[i]
    ensures DoShift(op, AllPoisoned(a, s, true), n)[i] != DoShift(op, AllPoisoned(a, s, false), n)[i]
  {
    hide DoShift;
    ShiftMoves(op, s, n, i);
    ShiftMoves(op, AllPoisoned(a, s, true), n, i);
    ShiftMoves(op, AllPoisoned(a, s, false), n, i);
  }

  lemma ShiftedIsExact(op: ShiftOp, a: Bits, s: Bits, n: nat, i: nat)
    requires |a| == |s| && i < |a|
    ensures DoShift(op, s, n)[i]
            <==> exists x, x' :: Filling(a, s, x) && Filling(a, s, x') && DoShift(op, x, n)[i] != DoShift(op, x', n)[i]
  {
    hide DoShift;
    if DoShift(op, s, n)[i] {
      ShiftsApart(op, a, s, n, i);
      assert Filling(a, s, AllPoisoned(a, s, true)) && Filling(a, s, AllPoisoned(a, s, false));
    } else {
      forall x | Filling(a, s, x)
        ensures DoShift(op, x, n)[i] == DoShift(op, a, n)[i]
      {
        ShiftFills(op, a, s, x, n);
      }
    }
  }

  /** The amount is not clean, or two fillings of the operand shifted by it differ in bit `i`. */
  ghost predicate ShiftDepends(op: ShiftOp, a: Bits, b: Bits, sa: Bits, sb: Bits, i: nat)
    requires |a| == |b| == |sa| == |sb| && i < |a|
  {
    || (exists k :: 0 <= k < |sb| && sb[k])
    || exists x, x' :: Filling(a, sa, x) && Filling(a, sa, x')
                       && DoShift(op, x, Unsigned(b))[i] != DoShift(op, x', Unsigned(b))[i]
  }

  /** A bit shifted by a clean amount is marked exactly when two fillings differ in it; a poisoned
      amount marks all bits. */
  lemma ShiftIsExact(op: ShiftOp, a: Bits, b: Bits, sa: Bits, sb: Bits, i: nat)
    requires |a| == |b| == |sa| == |sb| && i < |a|
    ensures ShiftShadow(op, b, sa, sb)[i] <==> ShiftDepends(op, a, b, sa, sb, i)
  {
    hide DoShift;
    ShiftedIsExact(op, a, sa, Unsigned(b), i);
    hide Filling;
  }

  /** `a` with every poisoned bit set to `v`. */
  function AllPoisoned(a: Bits, s: Bits, v: bool): Bits
    requires |a| == |s|
  {
    seq(|a|, i requires 0 <= i < |a| => if s[i] then v else a[i])
  }

  /** So is a bit of a cast. */
  lemma CastIsExact(op: CastOp, a: Bits, s: Bits, to: nat, i: nat)
    requires a != [] && |a| == |s| && (if op.TruncOp? then to <= |a| else |a| <= to) && i < to
    ensures DoCast(op, s, to)[i]
            <==> exists x, x' :: Filling(a, s, x) && Filling(a, s, x') && DoCast(op, x, to)[i] != DoCast(op, x', to)[i]
  {
    if DoCast(op, s, to)[i] {
      var x, x' := AllPoisoned(a, s, true), AllPoisoned(a, s, false);
      assert Filling(a, s, x) && Filling(a, s, x') && DoCast(op, x, to)[i] != DoCast(op, x', to)[i];
    } else {
      forall x | Filling(a, s, x)
        ensures DoCast(op, x, to)[i] == DoCast(op, a, to)[i]
      {
        CastIsSound(op, a, s, to, x);
      }
    }
  }

  // ----- every node is as exact as its operation -----

  /** Inputs are marked as given, constants not at all. */
  lemma LeavesAreGiven(o: CompareOptions, e: Expr, vals: map<nat, Bits>, shadows: map<nat, Bits>, i: nat)
    requires WellTyped(e) && i < Width(e)
    ensures e.Input? ==> (Shadow(o, e, vals, shadows)[i]
                          <==> e.k in shadows && |shadows[e.k]| == e.width && shadows[e.k][i])
    ensures e.Const? ==> !Shadow(o, e, vals, shadows)[i]
  {
    assert e.Input? ==> Shadow(o, e, vals, shadows) == Lookup(shadows, e.k, e.width);
  }

  /** A bit of and, or, xor of two expressions is marked if and only if two fillings of them give it
      different values. */
  lemma BitwiseNodeIsExact(o: CompareOptions, op: BitOp, l: Expr, r: Expr, vals: map<nat, Bits>,
                           shadows: map<nat, Bits>, i: nat)
    requires WellTyped(Bitwise(op, l, r)) && i < Width(l)
    ensures var a, b, sa, sb := Eval(l, vals), Eval(r, vals), Shadow(o, l, vals, shadows), Shadow(o, r, vals, shadows);
            Shadow(o, Bitwise(op, l, r), vals, shadows)[i]
            <==> exists x, y, x', y' ::
                   && Filling(a, sa, x) && Filling(b, sb, y) && Filling(a, sa, x') && Filling(b, sb, y')
                   && DoBitwise(op, x, y)[i] != DoBitwise(op, x', y')[i]
  {
    BitwiseIsExact(op, Eval(l, vals), Eval(r, vals), Shadow(o, l, vals, shadows), Shadow(o, r, vals, shadows), i);
  }

  /** So is a bit of a shift by a clean amount; a poisoned amount marks all bits. */
  lemma ShiftNodeIsExact(o: CompareOptions, op: ShiftOp, l: Expr, r: Expr, vals: map<nat, Bits>,
                         shadows: map<nat, Bits>, i: nat)
    requires WellTyped(Shift(op, l, r)) && i < Width(l)
    ensures Shadow(o, Shift(op, l, r), vals, shadows)[i]
            <==> ShiftDepends(op, Eval(l, vals), Eval(r, vals), Shadow(o, l, vals, shadows),
                              Shadow(o, r, vals, shadows), i)
  {
    hide ShiftDepends;
    ShiftIsExact(op, Eval(l, vals), Eval(r, vals), Shadow(o, l, vals, shadows), Shadow(o, r, vals, shadows), i);
  }

  /** So is a bit of a cast. */
  lemma CastNodeIsExact(o: CompareOptions, op: CastOp, e: Expr, to: nat, vals: map<nat, Bits>,
                        shadows: map<nat, Bits>, i: nat)
    requires WellTyped(Cast(op, e, to)) && i < to
    ensures var a, s := Eval(e, vals), Shadow(o, e, vals, shadows);
            Shadow(o, Cast(op, e, to), vals, shadows)[i]
            <==> exists x, x' :: Filling(a, s, x) && Filling(a, s, x') && DoCast(op, x, to)[i] != DoCast(op, x', to)[i]
  {
    CastIsExact(op, Eval(e, vals), Shadow(o, e, vals, shadows), to, i);
  }

  /** So is a bit of a select. */
  lemma SelectNodeIsExact(o: CompareOptions, c: Expr, l: Expr, r: Expr, vals: map<nat, Bits>,
                          shadows: map<nat, Bits>, i: nat)
    requires WellTyped(Select(c, l, r)) && i < Width(l)
    ensures var a, b, sa, sb := Eval(l, vals), Eval(r, vals), Shadow(o, l, vals, shadows), Shadow(o, r, vals, shadows);
            var f, sf := Eval(c, vals)[0], Shadow(o, c, vals, shadows)[0];
            Shadow(o, Select(c, l, r), vals, shadows)[i]
            <==> exists z, x, y, z', x', y' ::
                   && Flag(f, sf, z) && Flag(f, sf, z')
                   && Filling(a, sa, x) && Filling(b, sb, y) && Filling(a, sa, x') && Filling(b, sb, y')
                   && Chosen(z, x, y)[i] != Chosen(z', x', y')[i]
  {
    SelectIsExact(Eval(c, vals)[0], Eval(l, vals), Eval(r, vals), Shadow(o, c, vals, shadows)[0],
                  Shadow(o, l, vals, shadows), Shadow(o, r, vals, shadows), i);
  }

  /** A sign test is marked exactly when two fillings of the tested operand decide it differently. */
  lemma SignTestIsExact(p: Predicate, a: Bits, constant: Bits, s: Bits, sc: Bits)
    requires |a| == |constant| == |s| == |sc| > 0 && IsZero(sc) && IsSignTest(p, constant)
    ensures s[|s| - 1] <==> Depends(p, a, constant, s, sc)
  {
    forall y | Filling(constant, sc, y)
      ensures y == constant
    {
    }
    var top := |s| - 1;
    if s[top] {
      var x, x' := a[top := false], a[top := true];
      assert Filling(a, s, x) && Filling(a, s, x') && Filling(constant, sc, constant);
      SignDecides(p, x, constant);
      SignDecides(p, x', constant);
      assert ICmp(p, x, constant) != ICmp(p, x', constant);
    } else {
      forall x | Filling(a, s, x)
        ensures ICmp(p, x, constant) == ICmp(p, a, constant)
      {
        SignTestIsSound(p, a, constant, s, x);
      }
    }
  }

  lemma SignDecides(p: Predicate, x: Bits, constant: Bits)
    requires |x| == |constant| > 0 && IsSignTest(p, constant)
    ensures ICmp(p, x, constant) <==> (p.SLT? || p.SLE?) == x[|x| - 1]
  {
    SignedSign(x);
    if p.SLT? || p.SGE? {
      ZeroIsZero(constant);
    } else {
      forall i | 0 <= i < |constant|
        ensures constant[i]
      {
        assert !Not(constant)[i];
      }
      OnesIsMinusOne(constant);
    }
  }

  lemma DependsSwapped(p: Predicate, a: Bits, b: Bits, sa: Bits, sb: Bits)
    requires Depends(p, a, b, sa, sb)
    ensures Depends(p.Swapped(), b, a, sb, sa)
  {
    var a1, b1, a2, b2 :| Filling(a, sa, a1) && Filling(b, sb, b1) && Filling(a, sa, a2) && Filling(b, sb, b2)
                          && ICmp(p, a1, b1) != ICmp(p, a2, b2);
    hide Filling;
    assert ICmp(p, a1, b1) == ICmp(p.Swapped(), b1, a1) && ICmp(p, a2, b2) == ICmp(p.Swapped(), b2, a2);
  }

  predicate AllAre(bits: Bits, v: bool) {
    forall i :: 0 <= i < |bits| ==> bits[i] == v
  }

  /** x < 0, x >= 0, x > -1 or x <= -1 against a constant on either side. */
  predicate TestsSign(p: Predicate, l: Expr, r: Expr) {
    || (r.Const? && AllAre(r.bits, false) && (p.SLT? || p.SGE?))
    || (r.Const? && AllAre(r.bits, true) && (p.SGT? || p.SLE?))
    || (l.Const? && AllAre(l.bits, false) && (p.SGT? || p.SLE?))
    || (l.Const? && AllAre(l.bits, true) && (p.SLT? || p.SGE?))
  }

  predicate TreatedExactly(o: CompareOptions, p: Predicate, l: Expr, r: Expr) {
    && o.handle
    && (|| o.exact || p.EQ? || p.NE? || TestsSign(p, l, r)
        || ((l.Const? || r.Const?) && (p.UGT? || p.UGE? || p.ULT? || p.ULE?)))
  }

  lemma SignTreatment(p: Predicate, l: Expr, r: Expr, a: Bits, b: Bits, sa: Bits, sb: Bits)
    requires |a| == |b| == |sa| == |sb| > 0 && p.IsSigned() && TestsSign(p, l, r)
    requires (l.Const? ==> l.bits == a && IsZero(sa)) && (r.Const? ==> r.bits == b && IsZero(sb))
    ensures SignedRelationalShadow(p, l, r, sa, sb) <==> Depends(p, a, b, sa, sb)
  {
    if l.Const? && r.Const? {
      CleanCompare(CompareOptions(true, false), p, l, r, a, b, sa, sb);
    } else if r.Const? {
      SignTestIsExact(p, a, b, sa, sb);
    } else {
      SignTestIsExact(p.Swapped(), b, a, sb, sa);
      if Depends(p, a, b, sa, sb) {
        DependsSwapped(p, a, b, sa, sb);
      }
      if Depends(p.Swapped(), b, a, sb, sa) {
        DependsSwapped(p.Swapped(), b, a, sb, sa);
      }
    }
  }

  lemma SignTestSpelled(p: Predicate, constant: Bits)
    ensures IsSignTest(p, constant)
            <==> (AllAre(constant, false) && (p.SLT? || p.SGE?)) || (AllAre(constant, true) && (p.SGT? || p.SLE?))
  {
    assert IsZero(constant) <==> AllAre(constant, false);
    if AllAre(constant, true) {
      assert IsZero(Not(constant));
    }
    if IsZero(Not(constant)) {
      forall i | 0 <= i < |constant|
        ensures constant[i]
      {
        assert !Not(constant)[i];
      }
    }
  }

  lemma AnyPoisonedSpelled(s1: Bits, s2: Bits)
    requires |s1| == |s2|
    ensures AnyPoisoned(s1, s2) <==> exists k :: 0 <= k < |s1| && (s1[k] || s2[k])
  {
    if AnyPoisoned(s1, s2) {
      var k :| 0 <= k < |s1| && Or(s1, s2)[k];
      assert s1[k] || s2[k];
    }
    if k :| 0 <= k < |s1| && (s1[k] || s2[k]) {
      assert Or(s1, s2)[k];
    }
  }

  /** Two fillings compare differently or, where the treatment is not exact, some operand bit is
      poisoned. */
  ghost predicate CompareDepends(o: CompareOptions, p: Predicate, l: Expr, r: Expr, a: Bits, b: Bits, sa: Bits,
                                 sb: Bits)
    requires |sa| == |sb|
  {
    if TreatedExactly(o, p, l, r) then Depends(p, a, b, sa, sb)
    else exists k :: 0 <= k < |sa| && (sa[k] || sb[k])
  }

  /** The choice of treatment: exact for the comparisons listed, and any poisoned operand bit counts
      for all others. */
  lemma CompareIsExact(o: CompareOptions, p: Predicate, l: Expr, r: Expr, a: Bits, b: Bits, sa: Bits, sb: Bits)
    requires |a| == |b| == |sa| == |sb| > 0
    requires (l.Const? ==> l.bits == a && IsZero(sa)) && (r.Const? ==> r.bits == b && IsZero(sb))
    ensures CompareShadowOf(o, p, l, r, a, b, sa, sb) <==> CompareDepends(o, p, l, r, a, b, sa, sb)
  {
    SignTestSpelled(p, b);
    SignTestSpelled(p.Swapped(), a);
    hide IsSignTest;
    hide AllAre;
    hide AnyPoisoned;
    hide Depends;
    hide EqualityShadow;
    hide RelationalShadow;
    hide IsZero;
    if TreatedExactly(o, p, l, r) {
      if p.IsEquality() {
        EqualityIsExact(p, a, b, sa, sb);
      } else if o.exact || !p.IsSigned() {
        RelationalIsExact(p, a, b, sa, sb);
      } else {
        SignTreatment(p, l, r, a, b, sa, sb);
      }
    } else {
      AnyPoisonedSpelled(sa, sb);
    }
  }

  /** Main result on comparisons in expressions. */
  lemma CompareNodeIsExact(o: CompareOptions, p: Predicate, l: Expr, r: Expr, vals: map<nat, Bits>,
                           shadows: map<nat, Bits>)
    requires WellTyped(Compare(p, l, r))
    ensures Shadow(o, Compare(p, l, r), vals, shadows)[0]
            <==> CompareDepends(o, p, l, r, Eval(l, vals), Eval(r, vals), Shadow(o, l, vals, shadows),
                                Shadow(o, r, vals, shadows))
  {
    hide CompareDepends;
    CompareIsExact(o, p, l, r, Eval(l, vals), Eval(r, vals), Shadow(o, l, vals, shadows),
                   Shadow(o, r, vals, shadows));
  }

  /** No false reports: over initialized inputs every expression is clean. */
  lemma {:induction false} InitializedIsClean(o: CompareOptions, e: Expr, vals: map<nat, Bits>,
                                              shadows: map<nat, Bits>)
    requires WellTyped(e) && forall k, i :: k in shadows && 0 <= i < |shadows[k]| ==> !shadows[k][i]
    ensures IsZero(Shadow(o, e, vals, shadows))
  {
    hide IsZero;
    match e
    case Input(k, w) =>
      assert IsZero(Lookup(shadows, k, w)) by {
        IsZeroByBits(Lookup(shadows, k, w));
      }
    case Const(bits) =>
      IsZeroByBits(Fill(|bits|, false));
    case Bitwise(op, l, r) =>
      InitializedIsClean(o, l, vals, shadows);
      InitializedIsClean(o, r, vals, shadows);
      CleanBitwise(op, Eval(l, vals), Eval(r, vals), Shadow(o, l, vals, shadows), Shadow(o, r, vals, shadows));
    case Shift(op, l, r) =>
      InitializedIsClean(o, l, vals, shadows);
      InitializedIsClean(o, r, vals, shadows);
      CleanShift(op, Eval(r, vals), Shadow(o, l, vals, shadows), Shadow(o, r, vals, shadows));
    case Cast(op, a, to) =>
      InitializedIsClean(o, a, vals, shadows);
      CleanCast(op, Shadow(o, a, vals, shadows), to);
    case Select(c, l, r) =>
      InitializedIsClean(o, c, vals, shadows);
      InitializedIsClean(o, l, vals, shadows);
      InitializedIsClean(o, r, vals, shadows);
      IsZeroByBits(Shadow(o, c, vals, shadows));
    case Compare(p, l, r) =>
      InitializedIsClean(o, l, vals, shadows);
      InitializedIsClean(o, r, vals, shadows);
      CleanCompare(o, p, l, r, Eval(l, vals), Eval(r, vals), Shadow(o, l, vals, shadows),
                   Shadow(o, r, vals, shadows));
      IsZeroByBits(Shadow(o, e, vals, shadows));
  }

  lemma IsZeroByBits(s: Bits)
    ensures IsZero(s) <==> forall i :: 0 <= i < |s| ==> !s[i]
  {
  }

  lemma CleanBitwise(op: BitOp, a: Bits, b: Bits, sa: Bits, sb: Bits)
    requires |a| == |b| == |sa| == |sb| && IsZero(sa) && IsZero(sb)
    ensures IsZero(BitwiseShadow(op, a, b, sa, sb))
  {
  }

  lemma CleanShift(op: ShiftOp, b: Bits, sa: Bits, sb: Bits)
    requires |b| == |sa| == |sb| && IsZero(sa) && IsZero(sb)
    ensures IsZero(ShiftShadow(op, b, sa, sb))
  {
  }

  lemma CleanCast(op: CastOp, s: Bits, to: nat)
    requires s != [] && (if op.TruncOp? then to <= |s| else |s| <= to) && IsZero(s)
    ensures IsZero(DoCast(op, s, to))
  {
  }

  /** Clean operands have a single filling, so no comparison of them is marked. */
  lemma CleanCompare(o: CompareOptions, p: Predicate, l: Expr, r: Expr, a: Bits, b: Bits, sa: Bits, sb: Bits)
    requires |a| == |b| == |sa| == |sb| > 0 && IsZero(sa) && IsZero(sb)
    ensures !Depends(p, a, b, sa, sb) && !AnyPoisoned(sa, sb) && !CompareShadowOf(o, p, l, r, a, b, sa, sb)
  {
    forall x | Filling(a, sa, x)
      ensures x == a
    {
    }
    forall y | Filling(b, sb, y)
      ensures y == b
    {
    }
    if p.IsEquality() {
      EqualityIsExact(p, a, b, sa, sb);
    } else {
      RelationalIsExact(p, a, b, sa, sb);
    }
  }

  // ----- vector reductions -----

  /** Bit `n` of every field of a vector. */
  type Column = Bits

  /** Bit `n` of the reduction of a vector by or (by and), from that bit of the fields. */
  predicate Reduce(byOr: bool, column: Column) {
    if byOr then exists f :: 0 <= f < |column| && column[f] else forall f :: 0 <= f < |column| ==> column[f]
  }

  /** Clean if some field is known to decide the bit, or if no field is poisoned. */
  predicate ReduceShadow(byOr: bool, column: Column, s: Column)
    requires |column| == |s|
  {
    var undecided := Or(if byOr then Not(column) else column, s);
    Reduce(false, undecided) && Reduce(true, s)
  }

  lemma ReductionIsExact(byOr: bool, column: Column, s: Column)
    requires |column| == |s|
    ensures ReduceShadow(byOr, column, s)
            <==> exists x, y :: Filling(column, s, x) && Filling(column, s, y) && Reduce(byOr, x) != Reduce(byOr, y)
  {
    var undecided := Or(if byOr then Not(column) else column, s);
    var x := seq(|s|, f requires 0 <= f < |s| => if s[f] then true else column[f]);
    var y := seq(|s|, f requires 0 <= f < |s| => if s[f] then false else column[f]);
    assert Filling(column, s, x) && Filling(column, s, y);
    if ReduceShadow(byOr, column, s) {
      var k :| 0 <= k < |s| && s[k];
      assert x[k] && !y[k];
      assert forall f :: 0 <= f < |s| ==> undecided[f];
      forall f | 0 <= f < |s|
        ensures byOr ==> !y[f]
        ensures !byOr ==> x[f]
      {
        assert undecided[f];
      }
    } else if Reduce(true, s) {
      var k :| 0 <= k < |s| && !undecided[k];
      forall z | Filling(column, s, z)
        ensures Reduce(byOr, z) == byOr
      {
        assert z[k] == byOr;
      }
    } else {
      forall z | Filling(column, s, z)
        ensures z == column
      {
      }
    }
  }
}
