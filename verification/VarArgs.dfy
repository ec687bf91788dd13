/** The shadow of variadic arguments in the layout of the AMD64 va_list. */
module VarArgs {
  import opened ParamTls
  import opened Splices

  const GP_END := 48

  datatype ArgKind = GeneralPurpose | FloatingPoint | Memory

  /** A call argument; `fixed` ones correspond to named parameters. */
  datatype VArg = VArg(kind: ArgKind, byVal: bool, fixed: bool, shadow: seq<Byte>)

  datatype Area = Gp | Fp | Overflow

  datatype Cursors = Cursors(gp: nat, fp: nat, overflow: nat)

  /** End of the floating-point area: no SSE, no such area. */
  function FpEnd(sse: bool): nat {
    if sse then 176 else GP_END
  }

  /** Where an argument goes: registers while there are any. */
  function AreaOf(sse: bool, c: Cursors, a: VArg): Area {
    if a.byVal then Overflow
    else if a.kind.GeneralPurpose? && c.gp < GP_END then Gp
    else if a.kind.FloatingPoint? && c.fp < FpEnd(sse) then Fp
    else Overflow
  }

  function Start(c: Cursors, area: Area): nat {
    match area
    case Gp => c.gp
    case Fp => c.fp
    case Overflow => c.overflow
  }

  function Extent(a: VArg, area: Area): nat {
    match area
    case Gp => 8
    case Fp => 16
    case Overflow => AlignTo8(|a.shadow|)
  }

  /** Fixed arguments use up registers, but no space in the overflow area. */
  function Advance(sse: bool, c: Cursors, a: VArg): Cursors {
    match AreaOf(sse, c, a)
    case Gp => c.(gp := c.gp + 8)
    case Fp => c.(fp := c.fp + 16)
    case Overflow => if a.fixed then c else c.(overflow := c.overflow + AlignTo8(|a.shadow|))
  }

  function CursorsAt(sse: bool, args: seq<VArg>, n: nat): Cursors
    requires n <= |args|
  {
    if n == 0 then Cursors(0, GP_END, FpEnd(sse)) else Advance(sse, CursorsAt(sse, args, n - 1), args[n - 1])
  }

  /** Shadows of register arguments fit their slots. */
  predicate FitRegisters(args: seq<VArg>) {
    forall i :: 0 <= i < |args| && !args[i].byVal ==>
      && (args[i].kind.GeneralPurpose? ==> |args[i].shadow| <= 8)
      && (args[i].kind.FloatingPoint? ==> |args[i].shadow| <= 16)
  }

  /** The area is the first 800 of `size` bytes of memory; no register argument's shadow runs out of
      that memory, though it may run out of the area. */
  predicate Roomy(args: seq<VArg>, size: nat) {
    size >= PARAM_TLS_SIZE
    && forall i :: 0 <= i < |args| && !args[i].byVal && !args[i].kind.Memory? ==> |args[i].shadow| + 176 <= size
  }

  function SlotStart(sse: bool, args: seq<VArg>, k: nat): nat
    requires k < |args|
  {
    var c := CursorsAt(sse, args, k);
    Start(c, AreaOf(sse, c, args[k]))
  }

  function SlotExtent(sse: bool, args: seq<VArg>, k: nat): nat
    requires k < |args|
  {
    Extent(args[k], AreaOf(sse, CursorsAt(sse, args, k), args[k]))
  }

  // ----- cursors -----

  lemma {:induction false} CursorsStayInAreas(sse: bool, args: seq<VArg>, n: nat)
    requires n <= |args|
    ensures var c := CursorsAt(sse, args, n);
            && c.gp <= GP_END && c.gp % 8 == 0
            && GP_END <= c.fp <= FpEnd(sse) && c.fp % 16 == 0
            && FpEnd(sse) <= c.overflow && c.overflow % 8 == 0
  {
    if n > 0 {
      CursorsStayInAreas(sse, args, n - 1);
    }
  }

  lemma {:induction false} CursorsGrow(sse: bool, args: seq<VArg>, j: nat, k: nat)
    requires j <= k <= |args|
    ensures var c, d := CursorsAt(sse, args, j), CursorsAt(sse, args, k);
            c.gp <= d.gp && c.fp <= d.fp && c.overflow <= d.overflow
  {
    if j < k {
      CursorsGrow(sse, args, j, k - 1);
    }
  }

  /** A slot lies in its area, between the cursor before and the cursor after. */
  lemma SlotInArea(sse: bool, args: seq<VArg>, k: nat)
    requires k < |args| && !args[k].fixed
    ensures var c, d := CursorsAt(sse, args, k), CursorsAt(sse, args, k + 1);
            var at, end := SlotStart(sse, args, k), SlotStart(sse, args, k) + SlotExtent(sse, args, k);
            match AreaOf(sse, c, args[k])
            case Gp => at == c.gp && end == d.gp <= GP_END
            case Fp => GP_END <= at == c.fp && end == d.fp <= FpEnd(sse)
            case Overflow => FpEnd(sse) <= at == c.overflow && end == d.overflow
  {
    CursorsStayInAreas(sse, args, k);
    CursorsStayInAreas(sse, args, k + 1);
  }

  /** Slots of different variadic arguments do not meet. */
  lemma SlotsAreDisjoint(sse: bool, args: seq<VArg>, j: nat, k: nat)
    requires j < k < |args| && !args[j].fixed && !args[k].fixed
    ensures || SlotStart(sse, args, j) + SlotExtent(sse, args, j) <= SlotStart(sse, args, k)
            || SlotStart(sse, args, k) + SlotExtent(sse, args, k) <= SlotStart(sse, args, j)
  {
    SlotInArea(sse, args, j);
    SlotInArea(sse, args, k);
    CursorsGrow(sse, args, j + 1, k);
  }

  // ----- places, argument by argument -----

  /** How many of the first `k` arguments are of the given kind and passed by themselves; named
      parameters count. */
  function Before(args: seq<VArg>, kind: ArgKind, k: nat): nat
    requires k <= |args|
  {
    if k == 0 then 0
    else Before(args, kind, k - 1) + if !args[k - 1].byVal && args[k - 1].kind == kind then 1 else 0
  }

  /** Six general-purpose and eight vector registers. */
  predicate InRegister(sse: bool, args: seq<VArg>, k: nat)
    requires k < |args|
  {
    && !args[k].byVal
    && ((args[k].kind.GeneralPurpose? && Before(args, GeneralPurpose, k) < 6)
        || (args[k].kind.FloatingPoint? && sse && Before(args, FloatingPoint, k) < 8))
  }

  /** The bytes that the variadic ones of the first `k` arguments take on the stack. */
  function OnStack(sse: bool, args: seq<VArg>, k: nat): nat
    requires k <= |args|
  {
    if k == 0 then 0
    else OnStack(sse, args, k - 1)
         + if args[k - 1].fixed || InRegister(sse, args, k - 1) then 0 else (|args[k - 1].shadow| + 7) / 8 * 8
  }

  /** The place of argument `k` in the register save area or on the stack behind it (section 3.5.7 of
      the AMD64 System V ABI). */
  function PlaceOf(sse: bool, args: seq<VArg>, k: nat): nat
    requires k < |args|
  {
    if InRegister(sse, args, k) then
      if args[k].kind.GeneralPurpose? then 8 * Before(args, GeneralPurpose, k)
      else 48 + 16 * Before(args, FloatingPoint, k)
    else (if sse then 176 else 48) + OnStack(sse, args, k)
  }

  lemma {:induction false} CursorsInClosedForm(sse: bool, args: seq<VArg>, k: nat)
    requires k <= |args|
    ensures var c, g, f := CursorsAt(sse, args, k), Before(args, GeneralPurpose, k), Before(args, FloatingPoint, k);
            && c.gp == (if g < 6 then 8 * g else 48)
            && c.fp == 48 + (if !sse then 0 else if f < 8 then 16 * f else 128)
            && c.overflow == (if sse then 176 else 48) + OnStack(sse, args, k)
  {
    if k > 0 {
      CursorsInClosedForm(sse, args, k - 1);
    }
  }

  /** The slot the pass computes step by step is that place. */
  lemma SlotsArePlaces(sse: bool, args: seq<VArg>, k: nat)
    requires k < |args|
    ensures SlotStart(sse, args, k) == PlaceOf(sse, args, k)
  {
    CursorsInClosedForm(sse, args, k);
  }

  // ----- the caller -----

  predicate DoesNotFit(sse: bool, c: Cursors, a: VArg) {
    AreaOf(sse, c, a).Overflow? && c.overflow + AlignTo8(|a.shadow|) > PARAM_TLS_SIZE
  }

  /** Argument `k` is variadic and its shadow is stored. */
  predicate Stored(sse: bool, args: seq<VArg>, k: nat) {
    k < |args| && !args[k].fixed && !DoesNotFit(sse, CursorsAt(sse, args, k), args[k])
  }

  function SlotEnd(sse: bool, args: seq<VArg>, k: nat): nat
    requires k < |args|
  {
    SlotStart(sse, args, k) + |args[k].shadow|
  }

  /** The tail of the area from `at` on is wiped when an argument does not fit there. */
  function CleanTail(t: seq<Byte>, at: nat): (r: seq<Byte>)
    requires |t| >= PARAM_TLS_SIZE
    ensures |r| == |t|
  {
    if at >= PARAM_TLS_SIZE then t else Splice(t, at, Clean(PARAM_TLS_SIZE - at))
  }

  /** The memory after the shadow of one argument is stored. */
  function StoreOne(sse: bool, t: seq<Byte>, c: Cursors, a: VArg): (r: seq<Byte>)
    requires |t| >= PARAM_TLS_SIZE
    requires !AreaOf(sse, c, a).Overflow? ==> Start(c, AreaOf(sse, c, a)) + |a.shadow| <= |t|
    ensures |r| == |t|
  {
    if a.fixed then t
    else if DoesNotFit(sse, c, a) then CleanTail(t, c.overflow)
    else Splice(t, Start(c, AreaOf(sse, c, a)), a.shadow)
  }

  function StoreAll(sse: bool, t: seq<Byte>, args: seq<VArg>, n: nat): (r: seq<Byte>)
    requires n <= |args| && Roomy(args, |t|)
    ensures |r| == |t|
  {
    if n == 0 then t else
      CursorsStayInAreas(sse, args, n - 1);
      StoreOne(sse, StoreAll(sse, t, args, n - 1), CursorsAt(sse, args, n - 1), args[n - 1])
  }

  function OverflowSize(sse: bool, args: seq<VArg>): nat {
    CursorsStayInAreas(sse, args, |args|);
    CursorsAt(sse, args, |args|).overflow - FpEnd(sse)
  }

  // ----- when shadows stay apart -----

  /** The shadows of `j` and `k`, at their real lengths, have a byte in common. */
  predicate Meet(sse: bool, args: seq<VArg>, j: nat, k: nat)
    requires j < |args| && k < |args|
  {
    && SlotStart(sse, args, j) < SlotEnd(sse, args, k) && SlotStart(sse, args, k) < SlotEnd(sse, args, j)
    && args[j].shadow != [] && args[k].shadow != []
  }

  /** A condition on sizes: no stored shadow meets that of another variadic argument, stored or not,
      and none ends behind the area or the copy made of it. */
  predicate Separated(sse: bool, args: seq<VArg>) {
    && (forall j, k :: 0 <= j < |args| && 0 <= k < |args| && j != k && Stored(sse, args, j) && !args[k].fixed
          ==> !Meet(sse, args, j, k))
    && (forall j :: 0 <= j < |args| && Stored(sse, args, j)
          ==> SlotEnd(sse, args, j) <= PARAM_TLS_SIZE && SlotEnd(sse, args, j) <= FpEnd(sse) + OverflowSize(sse, args))
  }

  /** What the memory must hold for a variadic argument. */
  predicate InPlace(sse: bool, args: seq<VArg>, t: seq<Byte>, k: nat)
    requires |t| >= PARAM_TLS_SIZE && k < |args|
  {
    var at, end := SlotStart(sse, args, k), SlotEnd(sse, args, k);
    if Stored(sse, args, k) then end <= PARAM_TLS_SIZE && t[at..end] == args[k].shadow
    else forall x :: at <= x < PARAM_TLS_SIZE ==> t[x] == 0
  }

  lemma NotStoredRunsOut(sse: bool, args: seq<VArg>, k: nat)
    requires k < |args| && !args[k].fixed && !Stored(sse, args, k)
    ensures SlotStart(sse, args, k) == CursorsAt(sse, args, k).overflow
    ensures SlotEnd(sse, args, k) > PARAM_TLS_SIZE
  {
    CursorsStayInAreas(sse, args, k);
  }

  lemma StoreOneInPlace(sse: bool, t: seq<Byte>, args: seq<VArg>, n: nat)
    requires n < |args| && Roomy(args, |t|) && Separated(sse, args) && !args[n].fixed
    ensures var c := CursorsAt(sse, args, n);
            && (AreaOf(sse, c, args[n]).Overflow? || Start(c, AreaOf(sse, c, args[n])) + |args[n].shadow| <= |t|)
            && InPlace(sse, args, StoreOne(sse, t, c, args[n]), n)
  {
    CursorsStayInAreas(sse, args, n);
    if Stored(sse, args, n) {
      SpliceKeeps(t, SlotStart(sse, args, n), args[n].shadow, 0, 0);
    }
  }

  /** Storing an argument changes bytes of its shadow's stretch only; one that does not fit only
      clears bytes. */
  lemma StoreOneFrame(sse: bool, t: seq<Byte>, args: seq<VArg>, n: nat, x: nat)
    requires n < |args| && Roomy(args, |t|) && x < |t|
    ensures var c := CursorsAt(sse, args, n);
            && (AreaOf(sse, c, args[n]).Overflow? || Start(c, AreaOf(sse, c, args[n])) + |args[n].shadow| <= |t|)
            && (StoreOne(sse, t, c, args[n])[x] != t[x] ==>
                  && !args[n].fixed && SlotStart(sse, args, n) <= x < SlotEnd(sse, args, n)
                  && (Stored(sse, args, n) || StoreOne(sse, t, c, args[n])[x] == 0))
  {
    CursorsStayInAreas(sse, args, n);
    var c := CursorsAt(sse, args, n);
    if Stored(sse, args, n) {
      SpliceChanges(t, SlotStart(sse, args, n), args[n].shadow, x);
    } else if !args[n].fixed {
      NotStoredRunsOut(sse, args, n);
      CleanTailChanges(t, c.overflow, x);
    }
  }

  lemma SpliceChanges(t: seq<Byte>, at: nat, bytes: seq<Byte>, x: nat)
    requires at + |bytes| <= |t| && x < |t|
    ensures Splice(t, at, bytes)[x] != t[x] ==> at <= x < at + |bytes|
  {
  }

  lemma CleanTailChanges(t: seq<Byte>, at: nat, x: nat)
    requires |t| >= PARAM_TLS_SIZE && x < |t|
    ensures CleanTail(t, at)[x] != t[x] ==> at <= x < PARAM_TLS_SIZE && CleanTail(t, at)[x] == 0
  {
  }

  /** Storing argument `n` leaves the shadows of earlier arguments in place. */
  lemma StoreOneKeeps(sse: bool, t: seq<Byte>, t': seq<Byte>, args: seq<VArg>, k: nat, n: nat)
    requires |t| == |t'| >= PARAM_TLS_SIZE && k < n < |args| && Separated(sse, args)
    requires !args[k].fixed && InPlace(sse, args, t, k)
    requires forall x :: 0 <= x < |t| && t'[x] != t[x] ==>
               && !args[n].fixed && SlotStart(sse, args, n) <= x < SlotEnd(sse, args, n)
               && (Stored(sse, args, n) || t'[x] == 0)
    ensures InPlace(sse, args, t', k)
  {
    var at, end := SlotStart(sse, args, k), SlotEnd(sse, args, k);
    if Stored(sse, args, k) {
      assert !args[n].fixed ==> !Meet(sse, args, k, n);
      assert forall x :: at <= x < end ==> t'[x] == t[x];
      assert t'[at..end] == t[at..end];
    } else {
      NotStoredRunsOut(sse, args, k);
      assert Stored(sse, args, n) ==> !Meet(sse, args, n, k);
    }
  }

  lemma StepInPlace(sse: bool, t: seq<Byte>, args: seq<VArg>, n: nat, k: nat)
    requires k < n < |args| && Roomy(args, |t|) && Separated(sse, args) && !args[k].fixed && InPlace(sse, args, t, k)
    ensures var c := CursorsAt(sse, args, n);
            && (AreaOf(sse, c, args[n]).Overflow? || Start(c, AreaOf(sse, c, args[n])) + |args[n].shadow| <= |t|)
            && InPlace(sse, args, StoreOne(sse, t, c, args[n]), k)
  {
    CursorsStayInAreas(sse, args, n);
    var t' := StoreOne(sse, t, CursorsAt(sse, args, n), args[n]);
    hide *;
    forall x | 0 <= x < |t|
      ensures t'[x] != t[x] ==> !args[n].fixed && SlotStart(sse, args, n) <= x < SlotEnd(sse, args, n)
                                && (Stored(sse, args, n) || t'[x] == 0)
    {
      StoreOneFrame(sse, t, args, n, x);
    }
    StoreOneKeeps(sse, t, t', args, k, n);
  }

  /** Every variadic shadow is in place after the call site has stored them all. */
  lemma {:induction false} AllInPlace(sse: bool, t: seq<Byte>, args: seq<VArg>, n: nat, k: nat)
    requires k < n <= |args| && Roomy(args, |t|) && Separated(sse, args) && !args[k].fixed
    ensures InPlace(sse, args, StoreAll(sse, t, args, n), k)
  {
    hide InPlace;
    hide Separated;
    hide StoreOne;
    var s := StoreAll(sse, t, args, n - 1);
    if k == n - 1 {
      StoreOneInPlace(sse, s, args, k);
    } else {
      AllInPlace(sse, t, args, n - 1, k);
      StepInPlace(sse, s, args, n - 1, k);
    }
  }

  // ----- the callee -----

  /** The copy made on entry: zero-filled, then as much of the area as it can hold. */
  function Backup(sse: bool, t: seq<Byte>, overflowSize: nat): (r: seq<Byte>)
    requires |t| >= PARAM_TLS_SIZE
    ensures |r| == FpEnd(sse) + overflowSize
  {
    var copySize := FpEnd(sse) + overflowSize;
    if copySize <= PARAM_TLS_SIZE then t[..copySize] else t[..PARAM_TLS_SIZE] + Clean(copySize - PARAM_TLS_SIZE)
  }

  /** What the callee should find in its copy for a variadic argument. */
  function Found(args: seq<VArg>, sse: bool, k: nat): seq<Byte>
    requires k < |args|
  {
    if Stored(sse, args, k) then args[k].shadow else Clean(|args[k].shadow|)
  }

  predicate IsFound(sse: bool, args: seq<VArg>, copy: seq<Byte>, k: nat)
    requires k < |args|
  {
    SlotEnd(sse, args, k) <= |copy| && copy[SlotStart(sse, args, k)..SlotEnd(sse, args, k)] == Found(args, sse, k)
  }

  /** For every variadic argument the copy holds its full shadow, or is clean if it does not fit;
      whatever the thread-local area held before. */
  lemma BackupIsExact(sse: bool, t: seq<Byte>, args: seq<VArg>, k: nat)
    requires Roomy(args, |t|) && Separated(sse, args) && k < |args| && !args[k].fixed
    ensures IsFound(sse, args, Backup(sse, StoreAll(sse, t, args, |args|), OverflowSize(sse, args)), k)
  {
    var s := StoreAll(sse, t, args, |args|);
    AllInPlace(sse, t, args, |args|, k);
    EndsInBackup(sse, args, k);
    BackupReads(sse, s, OverflowSize(sse, args), SlotStart(sse, args, k), |args[k].shadow|);
  }

  lemma EndsInBackup(sse: bool, args: seq<VArg>, k: nat)
    requires Separated(sse, args) && k < |args| && !args[k].fixed
    ensures SlotEnd(sse, args, k) <= FpEnd(sse) + OverflowSize(sse, args)
  {
    if !Stored(sse, args, k) {
      SlotInArea(sse, args, k);
      CursorsGrow(sse, args, k + 1, |args|);
      CursorsStayInAreas(sse, args, |args|);
    }
  }

  lemma BackupReads(sse: bool, t: seq<Byte>, size: nat, at: nat, len: nat)
    requires |t| >= PARAM_TLS_SIZE && at + len <= FpEnd(sse) + size
    ensures at + len <= PARAM_TLS_SIZE ==> Backup(sse, t, size)[at..at + len] == t[at..at + len]
    ensures (forall x :: at <= x < PARAM_TLS_SIZE ==> t[x] == 0) ==> Backup(sse, t, size)[at..at + len] == Clean(len)
  {
    var b := Backup(sse, t, size);
    forall x | at <= x < at + len
      ensures b[x] == if x < PARAM_TLS_SIZE then t[x] else 0
    {
      if FpEnd(sse) + size <= PARAM_TLS_SIZE {
        assert b == t[..FpEnd(sse) + size];
      }
    }
    if at + len <= PARAM_TLS_SIZE {
      assert b[at..at + len] == t[at..at + len];
    }
  }

  // ----- exactly when -----

  /** Lists that differ in the contents of shadows only. */
  predicate SameShape(args: seq<VArg>, other: seq<VArg>) {
    |args| == |other| && forall i :: 0 <= i < |args| ==>
      && args[i].kind == other[i].kind && args[i].byVal == other[i].byVal && args[i].fixed == other[i].fixed
      && |args[i].shadow| == |other[i].shadow|
  }

  lemma {:induction false} SameCursors(sse: bool, args: seq<VArg>, other: seq<VArg>, n: nat)
    requires SameShape(args, other) && n <= |args|
    ensures CursorsAt(sse, args, n) == CursorsAt(sse, other, n)
  {
    if n > 0 {
      SameCursors(sse, args, other, n - 1);
    }
  }

  lemma SameSlots(sse: bool, args: seq<VArg>, other: seq<VArg>, k: nat)
    requires SameShape(args, other) && k < |args|
    ensures SlotStart(sse, args, k) == SlotStart(sse, other, k) && SlotEnd(sse, args, k) == SlotEnd(sse, other, k)
    ensures Stored(sse, args, k) == Stored(sse, other, k)
    ensures OverflowSize(sse, args) == OverflowSize(sse, other)
  {
    SameCursors(sse, args, other, k);
    SameCursors(sse, args, other, |args|);
  }

  lemma SeparatedByShape(sse: bool, args: seq<VArg>, other: seq<VArg>)
    requires SameShape(args, other) && Separated(sse, args)
    ensures Separated(sse, other)
  {
    forall k | 0 <= k < |args| {
      SameSlots(sse, args, other, k);
    }
    forall j, k | 0 <= j < |args| && 0 <= k < |args| && j != k && Stored(sse, other, j) && !other[k].fixed
      ensures !Meet(sse, other, j, k)
    {
      assert !Meet(sse, args, j, k);
    }
  }

  /** Whatever the shadows and the memory hold, the callee finds every variadic argument. */
  ghost predicate AlwaysFound(sse: bool, args: seq<VArg>) {
    forall other: seq<VArg>, t: seq<Byte>, k: nat :: SameShape(args, other) && Roomy(other, |t|) && k < |other|
            && !other[k].fixed
      ==> IsFound(sse, other, Backup(sse, StoreAll(sse, t, other, |other|), OverflowSize(sse, other)), k)
  }

  /** Poisons the shadow of argument `j` and cleans the others. */
  function OnlyPoisoned(args: seq<VArg>, j: nat): seq<VArg> {
    seq(|args|, i requires 0 <= i < |args| =>
          args[i].(shadow := seq(|args[i].shadow|, _ => if i == j then 255 else 0)))
  }

  function Largest(args: seq<VArg>): (n: nat)
    ensures Roomy(args, n)
  {
    if args == [] then PARAM_TLS_SIZE
    else
      var n, m := Largest(args[1..]), |args[0].shadow| + 176;
      assert args == [args[0]] + args[1..];
      if m > n then m else n
  }

  lemma FoundByte(sse: bool, args: seq<VArg>, copy: seq<Byte>, k: nat, x: nat, v: Byte)
    requires k < |args| && IsFound(sse, args, copy, k) && SlotStart(sse, args, k) <= x < SlotEnd(sse, args, k)
    requires forall i :: 0 <= i < |args[k].shadow| ==> Found(args, sse, k)[i] == v
    ensures x < |copy| && copy[x] == v
  {
    var at := SlotStart(sse, args, k);
    assert copy[at..SlotEnd(sse, args, k)][x - at] == copy[x];
  }

  /** The callee's copy if the shadow of `j` is poisoned and the others are clean. */
  ghost function PoisonedCopy(sse: bool, args: seq<VArg>, j: nat): (b: seq<Byte>)
    ensures |b| == FpEnd(sse) + OverflowSize(sse, OnlyPoisoned(args, j))
  {
    var other := OnlyPoisoned(args, j);
    Backup(sse, StoreAll(sse, Clean(Largest(other)), other, |other|), OverflowSize(sse, other))
  }

  lemma PoisonedIsFound(sse: bool, args: seq<VArg>, j: nat, k: nat)
    requires AlwaysFound(sse, args) && k < |args| && !args[k].fixed
    ensures IsFound(sse, OnlyPoisoned(args, j), PoisonedCopy(sse, args, j), k)
  {
    var other := OnlyPoisoned(args, j);
    var t := Clean(Largest(other));
    hide IsFound;
    hide Backup;
    assert SameShape(args, other) && Roomy(other, |t|) && !other[k].fixed;
  }

  lemma PoisonedBytes(sse: bool, args: seq<VArg>, j: nat, k: nat)
    requires k < |args| && (j == k ==> Stored(sse, args, j))
    ensures forall i :: 0 <= i < |args[k].shadow| ==>
              Found(OnlyPoisoned(args, j), sse, k)[i] == if j == k then 255 else 0
  {
    SameSlots(sse, args, OnlyPoisoned(args, j), k);
    hide Stored;
  }

  lemma PoisonedFound(sse: bool, args: seq<VArg>, j: nat, k: nat, x: nat)
    requires AlwaysFound(sse, args) && j < |args| && k < |args| && !args[k].fixed && (j == k ==> Stored(sse, args, j))
    requires SlotStart(sse, args, k) <= x < SlotEnd(sse, args, k)
    ensures x < |PoisonedCopy(sse, args, j)| && PoisonedCopy(sse, args, j)[x] == if j == k then 255 else 0
  {
    SameSlots(sse, args, OnlyPoisoned(args, j), k);
    PoisonedIsFound(sse, args, j, k);
    PoisonedBytes(sse, args, j, k);
    hide *;
    FoundByte(sse, OnlyPoisoned(args, j), PoisonedCopy(sse, args, j), k, x, if j == k then 255 else 0);
  }

  lemma NothingBehindArea(sse: bool, args: seq<VArg>, j: nat, x: nat)
    requires PARAM_TLS_SIZE <= x < |PoisonedCopy(sse, args, j)|
    ensures PoisonedCopy(sse, args, j)[x] == 0
  {
  }

  lemma MeetingShadowsClash(sse: bool, args: seq<VArg>, j: nat, k: nat)
    requires AlwaysFound(sse, args) && j < |args| && k < |args| && j != k
    requires Stored(sse, args, j) && !args[k].fixed
    ensures !Meet(sse, args, j, k)
  {
    if Meet(sse, args, j, k) {
      hide AlwaysFound;
      hide PoisonedCopy;
      var sj, sk := SlotStart(sse, args, j), SlotStart(sse, args, k);
      var x := if sj < sk then sk else sj;
      PoisonedFound(sse, args, j, j, x);
      PoisonedFound(sse, args, j, k, x);
      assert false;
    }
  }

  lemma RunningOutIsLost(sse: bool, args: seq<VArg>, j: nat)
    requires AlwaysFound(sse, args) && j < |args| && Stored(sse, args, j)
    ensures SlotEnd(sse, args, j) <= PARAM_TLS_SIZE && SlotEnd(sse, args, j) <= FpEnd(sse) + OverflowSize(sse, args)
  {
    var other, end := OnlyPoisoned(args, j), SlotEnd(sse, args, j);
    SameSlots(sse, args, other, j);
    CursorsStayInAreas(sse, args, j);
    CursorsStayInAreas(sse, args, |args|);
    assert args[j].shadow == [] ==> end <= PARAM_TLS_SIZE && end <= FpEnd(sse) + OverflowSize(sse, args) by {
      CursorsGrow(sse, args, j, |args|);
    }
    hide AlwaysFound;
    hide PoisonedCopy;
    if args[j].shadow != [] {
      var last: nat := end - 1;
      PoisonedFound(sse, args, j, j, last);
      if end > PARAM_TLS_SIZE {
        NothingBehindArea(sse, args, j, last);
        assert false;
      }
    }
  }

  /** Main result: whatever the contents, every variadic argument reaches the callee whole, or clean
      if it does not fit, if and only if the shadows are separated. */
  lemma FoundIffSeparated(sse: bool, args: seq<VArg>)
    ensures AlwaysFound(sse, args) <==> Separated(sse, args)
  {
    if Separated(sse, args) {
      forall other: seq<VArg>, t: seq<Byte>, k: nat | SameShape(args, other) && Roomy(other, |t|) && k < |other|
              && !other[k].fixed
        ensures IsFound(sse, other, Backup(sse, StoreAll(sse, t, other, |other|), OverflowSize(sse, other)), k)
      {
        SeparatedByShape(sse, args, other);
        BackupIsExact(sse, t, other, k);
      }
    }
    if AlwaysFound(sse, args) {
      hide AlwaysFound;
      forall j, k | 0 <= j < |args| && 0 <= k < |args| && j != k && Stored(sse, args, j) && !args[k].fixed
        ensures !Meet(sse, args, j, k)
      {
        MeetingShadowsClash(sse, args, j, k);
      }
      forall j | 0 <= j < |args| && Stored(sse, args, j)
        ensures SlotEnd(sse, args, j) <= PARAM_TLS_SIZE && SlotEnd(sse, args, j) <= FpEnd(sse) + OverflowSize(sse, args)
      {
        RunningOutIsLost(sse, args, j);
      }
    }
  }

  lemma FittingSlot(sse: bool, args: seq<VArg>, k: nat)
    requires FitRegisters(args) && k < |args| && !args[k].fixed
    ensures SlotEnd(sse, args, k) <= SlotStart(sse, args, k) + SlotExtent(sse, args, k)
            <= FpEnd(sse) + OverflowSize(sse, args)
    ensures Stored(sse, args, k) ==> SlotEnd(sse, args, k) <= PARAM_TLS_SIZE
  {
    SlotInArea(sse, args, k);
    CursorsGrow(sse, args, k + 1, |args|);
    CursorsStayInAreas(sse, args, |args|);
  }

  /** Arguments as the calling convention has them are separated. */
  lemma FittingRegistersAreSeparated(sse: bool, args: seq<VArg>)
    requires forall i :: 0 <= i < |args| && !args[i].byVal ==>
               && (args[i].kind.GeneralPurpose? ==> |args[i].shadow| <= 8)
               && (args[i].kind.FloatingPoint? ==> |args[i].shadow| <= 16)
    ensures Separated(sse, args)
  {
    forall j | 0 <= j < |args| && !args[j].fixed
      ensures SlotEnd(sse, args, j) <= SlotStart(sse, args, j) + SlotExtent(sse, args, j)
              <= FpEnd(sse) + OverflowSize(sse, args)
      ensures Stored(sse, args, j) ==> SlotEnd(sse, args, j) <= PARAM_TLS_SIZE
    {
      FittingSlot(sse, args, j);
    }
    hide Stored;
    hide SlotStart;
    forall j, k | 0 <= j < |args| && 0 <= k < |args| && j != k && Stored(sse, args, j) && !args[k].fixed
      ensures !Meet(sse, args, j, k)
    {
      assert !args[j].fixed by {
        StoredIsVariadic(sse, args, j);
      }
      if j < k {
        SlotsAreDisjoint(sse, args, j, k);
      } else {
        SlotsAreDisjoint(sse, args, k, j);
      }
    }
    forall j | 0 <= j < |args| && Stored(sse, args, j)
      ensures SlotEnd(sse, args, j) <= PARAM_TLS_SIZE && SlotEnd(sse, args, j) <= FpEnd(sse) + OverflowSize(sse, args)
    {
      StoredIsVariadic(sse, args, j);
    }
  }

  lemma StoredIsVariadic(sse: bool, args: seq<VArg>, j: nat)
    requires Stored(sse, args, j)
    ensures j < |args| && !args[j].fixed
  {
  }

  /** What reaches the callee, at the place the calling convention gives argument `k`. */
  predicate Arrives(sse: bool, args: seq<VArg>, copy: seq<Byte>, k: nat)
    requires k < |args|
  {
    var at, len := PlaceOf(sse, args, k), |args[k].shadow|;
    && at + len <= |copy|
    && copy[at..at + len] == if InRegister(sse, args, k) || at + (len + 7) / 8 * 8 <= 800 then args[k].shadow
                             else seq(len, _ => 0)
  }

  lemma FoundArrives(sse: bool, args: seq<VArg>, copy: seq<Byte>, k: nat)
    requires k < |args| && !args[k].fixed
    ensures IsFound(sse, args, copy, k) <==> Arrives(sse, args, copy, k)
  {
    CursorsInClosedForm(sse, args, k);
    SlotsArePlaces(sse, args, k);
  }

  // ----- the two sides -----

  /** The call site and the function entry; the thread-local area is the start of `memory`. */
  class VaArgHelper {
    const memory: array<Byte>
    var overflowSize: nat

    ghost predicate Valid() {
      memory.Length >= PARAM_TLS_SIZE
    }

    constructor (size: nat)
      requires size >= PARAM_TLS_SIZE
      ensures Valid() && fresh(memory) && memory.Length == size
    {
      memory := new Byte[size];
      overflowSize := 0;
    }

    /** One argument: where it goes, which cursor moves, and whether its shadow is stored. */
    method VisitArgument(sse: bool, a: VArg, c: Cursors) returns (next: Cursors)
      requires Valid() && (!AreaOf(sse, c, a).Overflow? ==> Start(c, AreaOf(sse, c, a)) + |a.shadow| <= memory.Length)
      modifies memory
      ensures next == Advance(sse, c, a) && memory[..] == StoreOne(sse, old(memory[..]), c, a)
    {
      var kind := a.kind;
      if !a.byVal && ((kind.GeneralPurpose? && c.gp >= GP_END) || (kind.FloatingPoint? && c.fp >= FpEnd(sse))) {
        kind := Memory;
      }
      next := c;
      var base := c.overflow;
      if a.byVal || kind.Memory? {
        if a.fixed {
          return;
        }
        next := c.(overflow := c.overflow + AlignTo8(|a.shadow|));
        if next.overflow > PARAM_TLS_SIZE {
          if base < PARAM_TLS_SIZE {
            CopyInto(memory, base, Clean(PARAM_TLS_SIZE - base));
          }
          return;
        }
      } else if kind.GeneralPurpose? {
        base := c.gp;
        next := c.(gp := c.gp + 8);
      } else {
        base := c.fp;
        next := c.(fp := c.fp + 16);
      }
      if a.fixed {
        return;
      }
      CopyInto(memory, base, a.shadow);
    }

    method VisitCallBase(sse: bool, args: seq<VArg>)
      requires Valid() && Roomy(args, memory.Length)
      modifies this, memory
      ensures memory[..] == StoreAll(sse, old(memory[..]), args, |args|) && overflowSize == OverflowSize(sse, args)
    {
      var cursors := Cursors(0, GP_END, FpEnd(sse));
      for i := 0 to |args|
        invariant cursors == CursorsAt(sse, args, i)
        invariant memory[..] == StoreAll(sse, old(memory[..]), args, i)
      {
        CursorsStayInAreas(sse, args, i);
        cursors := VisitArgument(sse, args[i], cursors);
      }
      CursorsStayInAreas(sse, args, |args|);
      overflowSize := cursors.overflow - FpEnd(sse);
    }

    method MakeBackup(sse: bool) returns (copy: array<Byte>)
      requires Valid()
      ensures fresh(copy) && copy[..] == Backup(sse, memory[..], overflowSize)
    {
      var copySize := FpEnd(sse) + overflowSize;
      copy := new Byte[copySize](_ => 0);
      var srcSize := if copySize < PARAM_TLS_SIZE then copySize else PARAM_TLS_SIZE;
      for i := 0 to srcSize
        invariant forall x :: 0 <= x < i ==> copy[x] == memory[x]
        invariant forall x :: i <= x < copySize ==> copy[x] == 0
      {
        copy[i] := memory[i];
      }
    }

    /** The two sides together: at its place the callee finds the shadow of every variadic argument
        in a register or within the first 800 bytes, and clean bytes for one that does not fit. */
    method PassVarArgs(sse: bool, args: seq<VArg>) returns (copy: array<Byte>)
      requires Valid() && Roomy(args, memory.Length)
      modifies this, memory
      ensures memory[..] == StoreAll(sse, old(memory[..]), args, |args|)
      ensures copy[..] == Backup(sse, memory[..], OverflowSize(sse, args))
      ensures overflowSize == OnStack(sse, args, |args|) && copy.Length == (if sse then 176 else 48) + overflowSize
      ensures Separated(sse, args) ==> forall k :: 0 <= k < |args| && !args[k].fixed ==> Arrives(sse, args, copy[..], k)
    {
      CursorsInClosedForm(sse, args, |args|);
      ghost var t := memory[..];
      VisitCallBase(sse, args);
      copy := MakeBackup(sse);
      if Separated(sse, args) {
        forall k | 0 <= k < |args| && !args[k].fixed
          ensures Arrives(sse, args, copy[..], k)
        {
          BackupIsExact(sse, t, args, k);
          FoundArrives(sse, args, copy[..], k);
        }
      }
    }
  }

  /** A vector of 32 bytes counts as a floating-point argument but does not fit its slot of 16: the
      next argument overwrites the second half of its shadow. */
  lemma WideVectorIsOverwritten(t: seq<Byte>)
    requires |t| >= PARAM_TLS_SIZE
    ensures var wide := VArg(FloatingPoint, false, false, seq(32, _ => 255));
            var args := [wide, VArg(FloatingPoint, false, false, Clean(16))];
            && !Separated(true, args)
            && StoreAll(true, t, args, 2)[SlotStart(true, args, 0) + 16] == 0 && wide.shadow[16] == 255
  {
    var wide := VArg(FloatingPoint, false, false, seq(32, _ => 255));
    var args := [wide, VArg(FloatingPoint, false, false, Clean(16))];
    assert CursorsAt(true, args, 1) == Cursors(0, 64, 176);
    SpliceKeeps(StoreAll(true, t, args, 1), 64, Clean(16), 0, 0);
    assert StoreAll(true, t, args, 2)[64..80][0] == 0;
    assert Stored(true, args, 0) && !args[1].fixed && Meet(true, args, 0, 1);
  }

  /** Alone it is found whole. */
  lemma LoneWideVectorIsFound(v: VArg)
    requires v.kind.FloatingPoint? && !v.byVal && !v.fixed && |v.shadow| == 32
    ensures AlwaysFound(true, [v])
  {
    assert SlotStart(true, [v], 0) == 48;
    FoundIffSeparated(true, [v]);
  }
}
