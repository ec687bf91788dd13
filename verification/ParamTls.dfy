/** Passing the shadow of call arguments through the thread-local parameter area. */
module ParamTls {
  import opened Splices

  type Byte = bv8

  const PARAM_TLS_SIZE := 800

  function AlignTo8(n: nat): (r: nat)
    ensures n <= r < n + 8 && r % 8 == 0
  {
    (n + 7) / 8 * 8
  }

  function Clean(n: nat): seq<Byte> {
    seq(n, _ => 0)
  }

  /** An argument: for a by-value pointer, `size` and `shadow` are those of the memory behind it. */
  datatype Arg = Arg(sized: bool, size: nat, byVal: bool, noUndef: bool, shadow: seq<Byte>)

  predicate ValidArgs(args: seq<Arg>) {
    forall i :: 0 <= i < |args| && args[i].sized ==> args[i].size > 0 && |args[i].shadow| == args[i].size
  }

  /** The place of argument `k` if every sized argument before it takes its aligned size. */
  function Offset(args: seq<Arg>, k: nat): nat
    requires k <= |args|
  {
    if k == 0 then 0
    else Offset(args, k - 1) + if args[k - 1].sized then AlignTo8(args[k - 1].size) else 0
  }

  predicate Fits(args: seq<Arg>, k: nat)
    requires k < |args|
  {
    Offset(args, k) + args[k].size <= PARAM_TLS_SIZE
  }

  predicate EagerlyChecked(a: Arg, eager: bool) {
    eager && !a.byVal && a.noUndef
  }

  /** The arguments whose shadow travels through the area. */
  predicate Passed(args: seq<Arg>, eager: bool, k: nat)
    requires k < |args|
  {
    args[k].sized && !EagerlyChecked(args[k], eager) && Fits(args, k)
  }

  predicate InSlot(args: seq<Arg>, k: nat, x: int)
    requires k < |args|
  {
    Offset(args, k) <= x < Offset(args, k) + args[k].size
  }

  lemma {:induction false} OffsetsGrow(args: seq<Arg>, j: nat, k: nat)
    requires j <= k <= |args|
    ensures Offset(args, j) <= Offset(args, k)
    ensures j < k && args[j].sized ==> Offset(args, j) + args[j].size <= Offset(args, k)
  {
    if j < k {
      OffsetsGrow(args, j, k - 1);
    }
  }

  /** Stopping at the first argument that does not fit skips no later one that does. */
  lemma OverflowIsFinal(args: seq<Arg>, j: nat, k: nat)
    requires ValidArgs(args) && j < k < |args| && args[j].sized && args[k].sized && !Fits(args, j)
    ensures !Fits(args, k)
  {
    OffsetsGrow(args, j, k);
  }

  lemma SlotsAreDisjoint(args: seq<Arg>, j: nat, k: nat, x: int)
    requires j < |args| && k < |args| && args[j].sized && args[k].sized
    requires InSlot(args, j, x) && InSlot(args, k, x)
    ensures j == k
  {
    if j < k {
      OffsetsGrow(args, j, k);
    } else if k < j {
      OffsetsGrow(args, k, j);
    }
  }

  // ----- the places in plain terms -----

  /** Sized arguments follow each other, each at the next multiple of 8, the first at 0. */
  lemma {:induction false} PlacesFollow(args: seq<Arg>, j: nat, k: nat)
    requires j < k <= |args| && forall i :: j < i < k ==> !args[i].sized
    ensures args[j].sized ==> Offset(args, k) % 8 == 0
    ensures args[j].sized ==> 0 <= Offset(args, k) - (Offset(args, j) + args[j].size) < 8
    ensures !args[j].sized ==> Offset(args, k) == Offset(args, j)
    ensures j == 0 ==> Offset(args, j) == 0
  {
    if j + 1 < k {
      PlacesFollow(args, j, k - 1);
    } else {
      PlacesAreWords(args, j);
    }
  }

  lemma {:induction false} PlacesAreWords(args: seq<Arg>, k: nat)
    requires k <= |args|
    ensures Offset(args, k) % 8 == 0
  {
    if k > 0 {
      PlacesAreWords(args, k - 1);
    }
  }

  /** Among sized arguments of at most 8 bytes the k-th is at 8 * k. */
  lemma {:induction false} WordsAreAt8(args: seq<Arg>, k: nat)
    requires k <= |args| && forall j :: 0 <= j < k ==> args[j].sized && 0 < args[j].size <= 8
    ensures Offset(args, k) == 8 * k
  {
    if k > 0 {
      WordsAreAt8(args, k - 1);
    }
  }

  /** What the callee must see: the shadow of the value and of the memory behind a pointer. */
  datatype Seen = Seen(value: seq<Byte>, memory: seq<Byte>)

  function Expected(args: seq<Arg>, eager: bool, propagate: bool, k: nat): Seen
    requires k < |args|
  {
    var a := args[k];
    var s := if propagate && Passed(args, eager, k) then a.shadow else Clean(a.size);
    if !a.sized then Seen([], []) else if a.byVal then Seen(Clean(8), s) else Seen(s, [])
  }

  /** What the callee sees, field by field: a shadow travels unless it ends behind byte 800 or the
      argument is checked at the call. */
  lemma SeenInPlainTerms(args: seq<Arg>, eager: bool, propagate: bool, k: nat)
    requires ValidArgs(args) && k < |args| && args[k].sized
    ensures var a, clean := args[k], seq(args[k].size, _ => 0);
            var room := propagate && Offset(args, k) + a.size <= 800;
            Expected(args, eager, propagate, k)
            == if a.byVal then Seen(seq(8, _ => 0), if room then a.shadow else clean)
               else Seen(if room && !(eager && a.noUndef) then a.shadow else clean, [])
  {
  }

  /** Of 8-byte values the first hundred travel. */
  lemma HundredWordsTravel(args: seq<Arg>, k: nat)
    requires ValidArgs(args) && k < |args|
    requires forall j :: 0 <= j < |args| ==> args[j].sized && args[j].size == 8 && !args[j].byVal
    ensures Expected(args, false, true, k) == Seen(if k < 100 then args[k].shadow else [0, 0, 0, 0, 0, 0, 0, 0], [])
  {
    WordsAreAt8(args, k);
    SeenInPlainTerms(args, false, true, k);
  }

  lemma NothingUnsized(args: seq<Arg>, eager: bool, propagate: bool, k: nat)
    requires k < |args| && !args[k].sized
    ensures Expected(args, eager, propagate, k) == Seen([], [])
  {
  }

  /** In the area `t` the shadows of the first `n` arguments are in their slots. */
  ghost predicate Holds(t: seq<Byte>, args: seq<Arg>, eager: bool, n: nat)
    requires |t| == PARAM_TLS_SIZE && n <= |args|
  {
    forall k :: 0 <= k < n && Passed(args, eager, k) ==>
      t[Offset(args, k)..Offset(args, k) + args[k].size] == args[k].shadow
  }

  /** Area `t` differs from `t0` in slots of passed arguments only. */
  ghost predicate OnlySlots(t: seq<Byte>, t0: seq<Byte>, args: seq<Arg>, eager: bool)
    requires |t| == |t0|
  {
    forall x :: 0 <= x < |t| && t[x] != t0[x] ==>
      exists k :: 0 <= k < |args| && Passed(args, eager, k) && InSlot(args, k, x)
  }

  lemma StoringHolds(t: seq<Byte>, args: seq<Arg>, eager: bool, n: nat)
    requires |t| == PARAM_TLS_SIZE && ValidArgs(args) && n < |args| && Passed(args, eager, n)
            && Holds(t, args, eager, n)
    ensures Holds(Splice(t, Offset(args, n), args[n].shadow), args, eager, n + 1)
  {
    hide Offset;
    hide Splice;
    var at, bytes := Offset(args, n), args[n].shadow;
    assert at + |bytes| <= |t|;
    hide Passed;
    SpliceKeeps(t, at, bytes, 0, 0);
    forall k | 0 <= k < n && Passed(args, eager, k)
      ensures Splice(t, at, bytes)[Offset(args, k)..Offset(args, k) + args[k].size] == args[k].shadow
    {
      OffsetsGrow(args, k, n);
      SpliceKeeps(t, at, bytes, Offset(args, k), Offset(args, k) + args[k].size);
    }
  }

  lemma StoringOnlySlots(t0: seq<Byte>, t: seq<Byte>, args: seq<Arg>, eager: bool, n: nat)
    requires |t| == PARAM_TLS_SIZE && ValidArgs(args) && n < |args| && Passed(args, eager, n)
    requires |t0| == |t| && OnlySlots(t, t0, args, eager)
    ensures OnlySlots(Splice(t, Offset(args, n), args[n].shadow), t0, args, eager)
  {
    var t' := Splice(t, Offset(args, n), args[n].shadow);
    forall x | 0 <= x < |t| && t'[x] != t0[x]
      ensures exists k :: 0 <= k < |args| && Passed(args, eager, k) && InSlot(args, k, x)
    {
      assert InSlot(args, n, x) || t'[x] == t[x];
    }
  }

  lemma NoneAfterOverflow(t: seq<Byte>, args: seq<Arg>, eager: bool, n: nat)
    requires |t| == PARAM_TLS_SIZE && ValidArgs(args) && n < |args| && args[n].sized && !Fits(args, n)
    requires Holds(t, args, eager, n)
    ensures Holds(t, args, eager, |args|)
  {
    forall k | n <= k < |args|
      ensures !Passed(args, eager, k)
    {
      if n < k && args[k].sized {
        OverflowIsFinal(args, n, k);
      }
    }
  }

  /** Copies `bytes` into the area, starting at `at`. */
  method CopyInto(tls: array<Byte>, at: nat, bytes: seq<Byte>)
    requires at + |bytes| <= tls.Length
    modifies tls
    ensures tls[..] == Splice(old(tls[..]), at, bytes)
  {
    for i := 0 to |bytes|
      invariant forall x :: 0 <= x < tls.Length ==> tls[x] == if at <= x < at + i then bytes[x - at] else old(tls[x])
    {
      tls[at + i] := bytes[i];
    }
  }

  class ParamArea {
    const tls: array<Byte>

    ghost predicate Valid() {
      tls.Length == PARAM_TLS_SIZE
    }

    constructor ()
      ensures Valid() && fresh(tls)
    {
      tls := new Byte[PARAM_TLS_SIZE];
    }

    /** The caller's side: stores shadows in argument order and stops at the first that does not fit. */
    method StoreArguments(args: seq<Arg>, eager: bool)
      requires Valid() && ValidArgs(args)
      modifies tls
      ensures Holds(tls[..], args, eager, |args|) && OnlySlots(tls[..], old(tls[..]), args, eager)
    {
      var offset := 0;
      ghost var t0 := tls[..];
      for i := 0 to |args|
        invariant offset == Offset(args, i)
        invariant Holds(tls[..], args, eager, i) && OnlySlots(tls[..], t0, args, eager)
      {
        var a := args[i];
        if !a.sized {
          continue;
        }
        if !EagerlyChecked(a, eager) {
          if offset + a.size > PARAM_TLS_SIZE {
            NoneAfterOverflow(tls[..], args, eager, i);
            return;
          }
          StoringHolds(tls[..], args, eager, i);
          StoringOnlySlots(t0, tls[..], args, eager, i);
          CopyInto(tls, offset, a.shadow);
        }
        offset := offset + AlignTo8(a.size);
      }
    }

    method FindOffset(args: seq<Arg>, n: nat) returns (offset: nat)
      requires n <= |args|
      ensures offset == Offset(args, n)
    {
      offset := 0;
      for i := 0 to n
        invariant offset == Offset(args, i)
      {
        if args[i].sized {
          offset := offset + AlignTo8(args[i].size);
        }
      }
    }

    /** The callee's side: finds the place of argument `n` and loads, or takes a clean shadow. */
    method LoadArgument(args: seq<Arg>, eager: bool, propagate: bool, n: nat) returns (seen: Seen)
      requires Valid() && ValidArgs(args) && n < |args| && args[n].sized
      requires Holds(tls[..], args, eager, |args|)
      ensures seen == Expected(args, eager, propagate, n)
    {
      var a := args[n];
      var offset := FindOffset(args, n);
      var overflow := offset + a.size > PARAM_TLS_SIZE;
      var slot := if overflow then [] else tls[..][offset..offset + a.size];
      var memory: seq<Byte> := [];
      if a.byVal {
        memory := if !propagate || overflow then Clean(a.size) else slot;
      }
      if !propagate || overflow || a.byVal || (eager && a.noUndef) {
        seen := Seen(Clean(if a.byVal then 8 else a.size), memory);
      } else {
        seen := Seen(slot, memory);
      }
    }

    /** Main result: whatever the area held before, each argument reaches the callee with its
        shadow, or clean if it was checked eagerly or does not fit. */
    method PassArguments(args: seq<Arg>, eager: bool, propagate: bool) returns (seen: seq<Seen>)
      requires Valid() && ValidArgs(args)
      modifies tls
      ensures |seen| == |args|
      ensures forall k :: 0 <= k < |args| ==> seen[k] == Expected(args, eager, propagate, k)
    {
      StoreArguments(args, eager);
      hide Holds;
      hide Expected;
      ghost var t := tls[..];
      seen := [];
      for n := 0 to |args|
        invariant |seen| == n && tls[..] == t
        invariant forall k :: 0 <= k < n ==> seen[k] == Expected(args, eager, propagate, k)
      {
        var s := Seen([], []);
        if args[n].sized {
          s := LoadArgument(args, eager, propagate, n);
        } else {
          NothingUnsized(args, eager, propagate, n);
        }
        seen := seen + [s];
      }
    }
  }
}
