/** Choosing the loads and stores that the race detector checks. */
module AccessSelection {

  /** `Passed` is inserted by another instrumentation or delegated; debug intrinsics are `Other`. */
  datatype Inst =
    | Passed
    | Atomic
    | Load(addr: int, size: nat, isVolatile: bool)
    | Store(addr: int, size: nat, isVolatile: bool)
    | Call
    | Other

  /** A function's instructions, block after block: a block stops where the next one starts.
      An address may be one not to instrument, of constant data, or of a stack object that no
      other thread can see. */
  datatype Unit = Unit(insts: seq<Inst>, ends: seq<nat>, ignored: set<int>, constants: set<int>, unshared: set<int>,
                       readsBeforeWrites: bool, distinguishVolatile: bool)

  datatype Info = Info(inst: nat, compound: bool)

  predicate IsLoad(u: Unit, a: nat) {
    a < |u.insts| && u.insts[a].Load?
  }

  predicate IsStore(u: Unit, a: nat) {
    a < |u.insts| && u.insts[a].Store?
  }

  predicate IsAccess(u: Unit, a: nat) {
    IsLoad(u, a) || IsStore(u, a)
  }

  predicate IsCall(u: Unit, a: nat) {
    a < |u.insts| && u.insts[a].Call?
  }

  function Addr(u: Unit, a: nat): int
    requires IsAccess(u, a)
  {
    u.insts[a].addr
  }

  predicate StoreTo(u: Unit, b: nat, addr: int) {
    IsStore(u, b) && Addr(u, b) == addr
  }

  predicate Shared(u: Unit, addr: int) {
    addr !in u.ignored && addr !in u.unshared
  }

  predicate AnyVolatile(u: Unit, a: nat, b: nat)
    requires IsAccess(u, a) && IsAccess(u, b)
  {
    u.distinguishVolatile && (u.insts[a].isVolatile || u.insts[b].isVolatile)
  }

  /** The check of store `b` can stand in for that of the earlier load `a`. */
  predicate Pairs(u: Unit, a: nat, b: nat) {
    && a < b && IsLoad(u, a) && StoreTo(u, b, Addr(u, a)) && Shared(u, Addr(u, a))
    && !u.readsBeforeWrites && !AnyVolatile(u, a, b)
  }

  // ----- one call-free stretch -----

  ghost predicate Ascends(u: Unit, s: seq<nat>) {
    (forall k :: 0 <= k < |s| ==> IsAccess(u, s[k])) && (forall k, l :: 0 <= k < l < |s| ==> s[k] < s[l])
  }

  /** `b` is the first store after `a` to its address, among `s`, and covers it. */
  ghost predicate CoversIn(u: Unit, s: seq<nat>, a: nat, b: nat) {
    && a in s && b in s && Pairs(u, a, b)
    && forall c :: c in s && a < c < b ==> !StoreTo(u, c, Addr(u, a))
  }

  ghost predicate IsCoveredIn(u: Unit, s: seq<nat>, a: nat) {
    exists b :: CoversIn(u, s, a, b)
  }

  ghost predicate KeptIn(u: Unit, s: seq<nat>, a: nat)
    requires IsAccess(u, a)
  {
    && Shared(u, Addr(u, a))
    && !(IsLoad(u, a) && Addr(u, a) in u.constants)
    && !IsCoveredIn(u, s, a)
  }

  /** What is kept of s[n..], from the back. */
  ghost function KeptFrom(u: Unit, s: seq<nat>, n: nat): (ps: seq<nat>)
    requires Ascends(u, s) && n <= |s|
    ensures forall k :: 0 <= k < |ps| ==> ps[k] in s[n..]
    decreases |s| - n
  {
    if n == |s| then []
    else KeptFrom(u, s, n + 1) + if KeptIn(u, s, s[n]) then [s[n]] else []
  }

  ghost predicate CompoundFrom(u: Unit, s: seq<nat>, n: nat, b: nat)
    requires n <= |s|
  {
    exists j :: n <= j < |s| && CoversIn(u, s, s[j], b)
  }

  ghost predicate Gathered(u: Unit, s: seq<nat>, n: nat, added: seq<Info>)
    requires Ascends(u, s) && n <= |s|
  {
    var ps := KeptFrom(u, s, n);
    |added| == |ps| && forall k :: 0 <= k < |ps| ==> added[k] == Info(ps[k], CompoundFrom(u, s, n, ps[k]))
  }

  lemma {:induction false} KeptFromIsExact(u: Unit, s: seq<nat>, n: nat)
    requires Ascends(u, s) && n <= |s|
    ensures forall a :: a in KeptFrom(u, s, n) <==> a in s[n..] && KeptIn(u, s, a)
    decreases |s| - n
  {
    if n < |s| {
      KeptFromIsExact(u, s, n + 1);
      assert s[n..] == [s[n]] + s[n + 1..];
    }
  }

  lemma {:induction false} KeptFromDescends(u: Unit, s: seq<nat>, n: nat, k: nat, l: nat)
    requires Ascends(u, s) && n <= |s| && k < l < |KeptFrom(u, s, n)|
    ensures KeptFrom(u, s, n)[k] > KeptFrom(u, s, n)[l]
    decreases |s| - n
  {
    if l < |KeptFrom(u, s, n + 1)| {
      KeptFromDescends(u, s, n + 1, k, l);
    } else {
      assert KeptFrom(u, s, n + 1)[k] in s[n + 1..];
    }
  }

  /** Only one store covers a load. */
  lemma CoverIsUnique(u: Unit, s: seq<nat>, a: nat, b: nat, c: nat)
    requires CoversIn(u, s, a, b) && CoversIn(u, s, a, c)
    ensures b == c
  {
  }

  lemma CompoundStep(u: Unit, s: seq<nat>, n: nat, b: nat)
    requires n < |s|
    ensures CompoundFrom(u, s, n, b) <==> CoversIn(u, s, s[n], b) || CompoundFrom(u, s, n + 1, b)
  {
  }

  lemma NotCompound(u: Unit, s: seq<nat>, n: nat)
    requires Ascends(u, s) && n < |s|
    ensures !CompoundFrom(u, s, n, s[n])
  {
  }

  lemma GatherCovered(u: Unit, s: seq<nat>, n: nat, added: seq<Info>, at: nat)
    requires Ascends(u, s) && n < |s| && Gathered(u, s, n + 1, added)
    requires at < |added| && CoversIn(u, s, s[n], added[at].inst)
    ensures Gathered(u, s, n, added[at := Info(added[at].inst, true)])
  {
    var ps := KeptFrom(u, s, n + 1);
    forall k | 0 <= k < |ps|
      ensures CompoundFrom(u, s, n, ps[k]) == (k == at || CompoundFrom(u, s, n + 1, ps[k]))
    {
      CompoundStep(u, s, n, ps[k]);
      if CoversIn(u, s, s[n], ps[k]) {
        CoverIsUnique(u, s, s[n], ps[k], ps[at]);
        if k < at {
          KeptFromDescends(u, s, n + 1, k, at);
        } else if at < k {
          KeptFromDescends(u, s, n + 1, at, k);
        }
      }
    }
    assert IsCoveredIn(u, s, s[n]);
  }

  lemma GatherOther(u: Unit, s: seq<nat>, n: nat, added: seq<Info>)
    requires Ascends(u, s) && n < |s| && Gathered(u, s, n + 1, added)
    requires !IsCoveredIn(u, s, s[n])
    ensures Gathered(u, s, n, if KeptIn(u, s, s[n]) then added + [Info(s[n], false)] else added)
  {
    hide CompoundFrom;
    hide CoversIn;
    var ps := KeptFrom(u, s, n + 1);
    forall k | 0 <= k < |ps|
      ensures CompoundFrom(u, s, n, ps[k]) == CompoundFrom(u, s, n + 1, ps[k])
    {
      CompoundStep(u, s, n, ps[k]);
    }
    NotCompound(u, s, n);
  }

  // ----- the index of the stores met -----

  /** The first store to `addr` in s[n..]. */
  ghost predicate FirstStore(u: Unit, s: seq<nat>, n: nat, addr: int, b: nat)
    requires n <= |s|
  {
    b in s[n..] && StoreTo(u, b, addr) && forall c :: c in s[n..] && c < b ==> !StoreTo(u, c, addr)
  }

  /** `targets` finds, in `all`, the first store met to each address that may be shared. */
  ghost predicate Indexes(u: Unit, s: seq<nat>, n: nat, first: nat, all: seq<Info>, targets: map<int, nat>)
    requires n <= |s|
  {
    && (forall x :: x in targets ==>
          Shared(u, x) && first <= targets[x] < |all| && FirstStore(u, s, n, x, all[targets[x]].inst))
    && (forall b :: b in s[n..] && IsStore(u, b) && Shared(u, Addr(u, b)) ==> Addr(u, b) in targets)
  }

  /** The state of the choice when s[n..] is done; all[|base|..] is what it has added. */
  ghost predicate Choosing(u: Unit, s: seq<nat>, n: nat, base: seq<Info>, all: seq<Info>, targets: map<int, nat>)
    requires Ascends(u, s) && n <= |s|
  {
    base <= all && Gathered(u, s, n, all[|base|..]) && Indexes(u, s, n, |base|, all, targets)
  }

  /** The store that covers a load, if any, is the one in the index. */
  lemma IndexedCovers(u: Unit, s: seq<nat>, n: nat, base: seq<Info>, all: seq<Info>, targets: map<int, nat>)
    requires Ascends(u, s) && n < |s| && Choosing(u, s, n + 1, base, all, targets)
    requires IsLoad(u, s[n])
    ensures Addr(u, s[n]) in targets ==> var t := targets[Addr(u, s[n])];
              |base| <= t < |all| && StoreTo(u, all[t].inst, Addr(u, s[n])) && s[n] < all[t].inst
    ensures forall c :: CoversIn(u, s, s[n], c) <==>
              Addr(u, s[n]) in targets && c == all[targets[Addr(u, s[n])]].inst && Pairs(u, s[n], c)
  {
    forall c | c in s && s[n] < c
      ensures c in s[n + 1..]
    {
    }
  }

  lemma ChooseStart(u: Unit, s: seq<nat>, all: seq<Info>)
    requires Ascends(u, s)
    ensures Choosing(u, s, |s|, all, all, map[])
  {
  }

  lemma IndexesStep(u: Unit, s: seq<nat>, n: nat, first: nat, all: seq<Info>, all': seq<Info>, targets: map<int, nat>)
    requires Ascends(u, s) && n < |s| && Indexes(u, s, n + 1, first, all, targets)
    requires |all| <= |all'| && forall k :: 0 <= k < |all| ==> all'[k].inst == all[k].inst
    requires IsLoad(u, s[n]) || !Shared(u, Addr(u, s[n]))
    ensures Indexes(u, s, n, first, all', targets)
  {
    assert s[n..] == [s[n]] + s[n + 1..];
  }

  lemma IndexesStore(u: Unit, s: seq<nat>, n: nat, first: nat, all: seq<Info>, targets: map<int, nat>)
    requires Ascends(u, s) && n < |s| && Indexes(u, s, n + 1, first, all, targets) && first <= |all|
    requires IsStore(u, s[n]) && Shared(u, Addr(u, s[n]))
    ensures Indexes(u, s, n, first, all + [Info(s[n], false)], targets[Addr(u, s[n]) := |all|])
  {
    assert s[n..] == [s[n]] + s[n + 1..];
  }

  lemma ChooseNone(u: Unit, s: seq<nat>, n: nat, base: seq<Info>, all: seq<Info>, targets: map<int, nat>)
    requires Ascends(u, s) && n < |s| && Choosing(u, s, n + 1, base, all, targets)
    requires !KeptIn(u, s, s[n]) && !IsCoveredIn(u, s, s[n])
    ensures Choosing(u, s, n, base, all, targets)
  {
    GatherOther(u, s, n, all[|base|..]);
    IndexesStep(u, s, n, |base|, all, all, targets);
  }

  lemma ChooseCovered(u: Unit, s: seq<nat>, n: nat, base: seq<Info>, all: seq<Info>, targets: map<int, nat>, at: nat)
    requires Ascends(u, s) && n < |s| && |base| <= at < |all| && Choosing(u, s, n + 1, base, all, targets)
    requires CoversIn(u, s, s[n], all[at].inst)
    ensures Choosing(u, s, n, base, all[at := Info(all[at].inst, true)], targets)
  {
    hide Gathered;
    hide Indexes;
    GatherCovered(u, s, n, all[|base|..], at - |base|);
    IndexesStep(u, s, n, |base|, all, all[at := Info(all[at].inst, true)], targets);
    assert all[at := Info(all[at].inst, true)][|base|..] == all[|base|..][at - |base| := Info(all[at].inst, true)];
  }

  lemma ChooseKept(u: Unit, s: seq<nat>, n: nat, base: seq<Info>, all: seq<Info>, targets: map<int, nat>)
    requires Ascends(u, s) && n < |s| && Choosing(u, s, n + 1, base, all, targets)
    requires KeptIn(u, s, s[n])
    ensures Choosing(u, s, n, base, all + [Info(s[n], false)],
                     if IsStore(u, s[n]) then targets[Addr(u, s[n]) := |all|] else targets)
  {
    hide Gathered;
    hide Indexes;
    GatherOther(u, s, n, all[|base|..]);
    assert (all + [Info(s[n], false)])[|base|..] == all[|base|..] + [Info(s[n], false)];
    if IsStore(u, s[n]) {
      IndexesStore(u, s, n, |base|, all, targets);
    } else {
      IndexesStep(u, s, n, |base|, all, all + [Info(s[n], false)], targets);
    }
  }

  // ----- one step of the walk, branch by branch -----

  /** The check of the store in the index can stand in for that of access `i`. */
  predicate Replaceable(u: Unit, i: nat, all: seq<Info>, targets: map<int, nat>)
    requires IsAccess(u, i)
  {
    && IsLoad(u, i) && !u.readsBeforeWrites && Addr(u, i) in targets && targets[Addr(u, i)] < |all|
    && IsAccess(u, all[targets[Addr(u, i)]].inst) && !AnyVolatile(u, i, all[targets[Addr(u, i)]].inst)
  }

  lemma IndexIsValid(u: Unit, s: seq<nat>, n: nat, base: seq<Info>, all: seq<Info>, targets: map<int, nat>, addr: int)
    requires Ascends(u, s) && n <= |s| && Choosing(u, s, n, base, all, targets) && addr in targets
    ensures targets[addr] < |all| && IsAccess(u, all[targets[addr]].inst)
  {
  }

  lemma CoveredIffReplaceable(u: Unit, s: seq<nat>, n: nat, base: seq<Info>, all: seq<Info>, targets: map<int, nat>)
    requires Ascends(u, s) && n < |s| && Choosing(u, s, n + 1, base, all, targets)
    ensures IsCoveredIn(u, s, s[n]) <==> Replaceable(u, s[n], all, targets)
  {
    if IsLoad(u, s[n]) {
      IndexedCovers(u, s, n, base, all, targets);
      if Replaceable(u, s[n], all, targets) {
        assert CoversIn(u, s, s[n], all[targets[Addr(u, s[n])]].inst);
      }
    }
  }

  lemma StepDropped(u: Unit, s: seq<nat>, n: nat, base: seq<Info>, all: seq<Info>, targets: map<int, nat>)
    requires Ascends(u, s) && n < |s| && Choosing(u, s, n + 1, base, all, targets)
    requires !Replaceable(u, s[n], all, targets) || !Shared(u, Addr(u, s[n]))
    requires !Shared(u, Addr(u, s[n])) || (IsLoad(u, s[n]) && Addr(u, s[n]) in u.constants)
    ensures Choosing(u, s, n, base, all, targets)
  {
    CoveredIffReplaceable(u, s, n, base, all, targets);
    ChooseNone(u, s, n, base, all, targets);
  }

  lemma StepReplaced(u: Unit, s: seq<nat>, n: nat, base: seq<Info>, all: seq<Info>, targets: map<int, nat>)
    requires Ascends(u, s) && n < |s| && Choosing(u, s, n + 1, base, all, targets)
    requires Replaceable(u, s[n], all, targets)
    ensures var at := targets[Addr(u, s[n])]; Choosing(u, s, n, base, all[at := Info(all[at].inst, true)], targets)
  {
    IndexedCovers(u, s, n, base, all, targets);
    CoveredIffReplaceable(u, s, n, base, all, targets);
    ChooseCovered(u, s, n, base, all, targets, targets[Addr(u, s[n])]);
  }

  lemma StepKept(u: Unit, s: seq<nat>, n: nat, base: seq<Info>, all: seq<Info>, targets: map<int, nat>)
    requires Ascends(u, s) && n < |s| && Choosing(u, s, n + 1, base, all, targets)
    requires !Replaceable(u, s[n], all, targets) && Shared(u, Addr(u, s[n]))
    requires !(IsLoad(u, s[n]) && Addr(u, s[n]) in u.constants)
    ensures Choosing(u, s, n, base, all + [Info(s[n], false)],
                     if IsStore(u, s[n]) then targets[Addr(u, s[n]) := |all|] else targets)
  {
    CoveredIffReplaceable(u, s, n, base, all, targets);
    ChooseKept(u, s, n, base, all, targets);
  }

  lemma ChooseEnd(u: Unit, s: seq<nat>, base: seq<Info>, all: seq<Info>, targets: map<int, nat>)
    requires Ascends(u, s) && Choosing(u, s, 0, base, all, targets)
    ensures base <= all && Gathered(u, s, 0, all[|base|..])
  {
  }

  // ----- the whole function -----

  ghost predicate BlocksOf(u: Unit) {
    && (forall k :: 0 <= k < |u.ends| ==> u.ends[k] <= |u.insts|)
    && (forall k, l :: 0 <= k < l < |u.ends| ==> u.ends[k] < u.ends[l])
    && (if u.ends == [] then u.insts == [] else u.ends[0] > 0 && u.ends[|u.ends| - 1] == |u.insts|)
  }

  /** `a` and `b` lie in one block with no call between them. */
  ghost predicate Together(u: Unit, a: nat, b: nat) {
    && (forall c: nat :: a <= c <= b ==> !IsCall(u, c))
    && (forall e :: e in u.ends ==> !(a < e <= b))
  }

  /** A load needs no check of its own: the check of store `b`, the next one to its address, comes
      in the same block with no call before it. */
  ghost predicate Covers(u: Unit, a: nat, b: nat) {
    Pairs(u, a, b) && Together(u, a, b) && forall c: nat :: a < c < b ==> !StoreTo(u, c, Addr(u, a))
  }

  ghost predicate Kept(u: Unit, a: nat) {
    && IsAccess(u, a) && Shared(u, Addr(u, a))
    && !(IsLoad(u, a) && Addr(u, a) in u.constants)
    && !exists b :: Covers(u, a, b)
  }

  /** `all` holds the accesses of insts[..n] that must be checked, each once and flagged if it
      stands in for a load; call-free stretches in order, each from the back. */
  ghost predicate Selected(u: Unit, n: nat, all: seq<Info>) {
    && (forall k :: 0 <= k < |all| ==> all[k].inst < n && Kept(u, all[k].inst))
    && (forall k :: 0 <= k < |all| ==> all[k].compound == exists a :: Covers(u, a, all[k].inst))
    && (forall a: nat :: a < n && Kept(u, a) ==> exists k :: 0 <= k < |all| && all[k].inst == a)
    && (forall k, l :: 0 <= k < l < |all| ==> InOrder(u, all[k].inst, all[l].inst))
  }

  ghost predicate InOrder(u: Unit, a: nat, b: nat) {
    if a < b then !Together(u, a, b) else a > b && Together(u, b, a)
  }

  /** The positions of the accesses in insts[lo..hi]. */
  function Accesses(u: Unit, lo: nat, hi: nat): (s: seq<nat>)
    requires lo <= hi <= |u.insts|
    ensures forall a :: a in s <==> lo <= a < hi && IsAccess(u, a)
    decreases hi
  {
    if lo == hi then [] else Accesses(u, lo, hi - 1) + if IsAccess(u, hi - 1) then [hi - 1] else []
  }

  lemma {:induction false} AccessesAscend(u: Unit, lo: nat, hi: nat)
    requires lo <= hi <= |u.insts|
    ensures Ascends(u, Accesses(u, lo, hi))
    decreases hi
  {
    if lo < hi {
      AccessesAscend(u, lo, hi - 1);
      var s := Accesses(u, lo, hi - 1);
      forall k | 0 <= k < |s|
        ensures s[k] < hi - 1
      {
        assert s[k] in s;
      }
    }
  }

  /** Nothing before `lo` is together with anything from `lo` on. */
  ghost predicate IsCut(u: Unit, lo: nat) {
    lo == 0 || lo in u.ends || IsCall(u, lo - 1)
  }

  /** A stretch whose accesses are chosen among at `hi`. */
  ghost predicate IsStretch(u: Unit, lo: nat, hi: nat) {
    && lo <= hi <= |u.insts| && IsCut(u, lo) && (hi in u.ends || IsCall(u, hi))
    && (forall c: nat :: lo <= c < hi ==> !IsCall(u, c))
    && (forall e :: e in u.ends ==> !(lo < e < hi))
  }

  lemma TogetherInStretch(u: Unit, lo: nat, hi: nat, a: nat, b: nat)
    requires IsStretch(u, lo, hi) && a < b && (lo <= a < hi || lo <= b < hi)
    ensures Together(u, a, b) <==> lo <= a && b < hi
  {
    if a < lo {
      assert lo in u.ends || IsCall(u, lo - 1);
    }
  }

  lemma CoversInStretch(u: Unit, lo: nat, hi: nat, a: nat, b: nat)
    requires IsStretch(u, lo, hi) && (lo <= a < hi || lo <= b < hi)
    ensures Covers(u, a, b) <==> CoversIn(u, Accesses(u, lo, hi), a, b)
  {
    if a < b {
      TogetherInStretch(u, lo, hi, a, b);
    }
  }

  /** What is chosen in a stretch is what must be checked there. */
  lemma StretchKept(u: Unit, lo: nat, hi: nat, a: nat)
    requires IsStretch(u, lo, hi) && lo <= a < hi
    ensures Kept(u, a) <==> a in Accesses(u, lo, hi) && KeptIn(u, Accesses(u, lo, hi), a)
    ensures (exists b :: Covers(u, b, a))
            <==> exists b :: b in Accesses(u, lo, hi) && CoversIn(u, Accesses(u, lo, hi), b, a)
  {
    var s := Accesses(u, lo, hi);
    forall b: nat
      ensures Covers(u, a, b) <==> CoversIn(u, s, a, b)
      ensures Covers(u, b, a) <==> CoversIn(u, s, b, a)
    {
      CoversInStretch(u, lo, hi, a, b);
      CoversInStretch(u, lo, hi, b, a);
    }
  }

  lemma StretchAdds(u: Unit, lo: nat, hi: nat, added: seq<Info>, k: nat)
    requires IsStretch(u, lo, hi) && k < |added|
    requires Ascends(u, Accesses(u, lo, hi)) && Gathered(u, Accesses(u, lo, hi), 0, added)
    ensures lo <= added[k].inst < hi && Kept(u, added[k].inst)
    ensures added[k].compound == exists a :: Covers(u, a, added[k].inst)
  {
    var s := Accesses(u, lo, hi);
    KeptFromIsExact(u, s, 0);
    assert s[0..] == s;
    assert KeptFrom(u, s, 0)[k] in KeptFrom(u, s, 0);
    StretchKept(u, lo, hi, added[k].inst);
  }

  lemma StretchMissesNone(u: Unit, lo: nat, hi: nat, added: seq<Info>, a: nat) returns (k: nat)
    requires IsStretch(u, lo, hi) && lo <= a < hi && Kept(u, a)
    requires Ascends(u, Accesses(u, lo, hi)) && Gathered(u, Accesses(u, lo, hi), 0, added)
    ensures k < |added| && added[k].inst == a
  {
    var s := Accesses(u, lo, hi);
    KeptFromIsExact(u, s, 0);
    assert s[0..] == s;
    StretchKept(u, lo, hi, a);
    var ps := KeptFrom(u, s, 0);
    k :| 0 <= k < |ps| && ps[k] == a;
  }

  lemma StretchInOrder(u: Unit, lo: nat, hi: nat, added: seq<Info>, k: nat, l: nat)
    requires IsStretch(u, lo, hi) && k < l < |added|
    requires Ascends(u, Accesses(u, lo, hi)) && Gathered(u, Accesses(u, lo, hi), 0, added)
    ensures InOrder(u, added[k].inst, added[l].inst)
  {
    StretchAdds(u, lo, hi, added, k);
    StretchAdds(u, lo, hi, added, l);
    KeptFromDescends(u, Accesses(u, lo, hi), 0, k, l);
    TogetherInStretch(u, lo, hi, added[l].inst, added[k].inst);
  }

  lemma StretchSelected(u: Unit, lo: nat, hi: nat, all: seq<Info>, added: seq<Info>)
    requires IsStretch(u, lo, hi) && Selected(u, lo, all)
    requires Ascends(u, Accesses(u, lo, hi)) && Gathered(u, Accesses(u, lo, hi), 0, added)
    ensures Selected(u, hi, all + added)
  {
    hide Gathered;
    hide Kept;
    hide Covers;
    hide Together;
    var both := all + added;
    forall k | 0 <= k < |added|
      ensures lo <= added[k].inst < hi && Kept(u, added[k].inst)
      ensures added[k].compound == exists a :: Covers(u, a, added[k].inst)
    {
      StretchAdds(u, lo, hi, added, k);
    }
    forall a: nat | a < hi && Kept(u, a)
      ensures exists k :: 0 <= k < |both| && both[k].inst == a
    {
      if a < lo {
        var k :| 0 <= k < |all| && all[k].inst == a;
        assert both[k].inst == a;
      } else {
        var k := StretchMissesNone(u, lo, hi, added, a);
        assert both[|all| + k].inst == a;
      }
    }
    forall k, l | 0 <= k < l < |both|
      ensures InOrder(u, both[k].inst, both[l].inst)
    {
      if |all| <= k {
        StretchInOrder(u, lo, hi, added, k - |all|, l - |all|);
      } else if |all| <= l {
        TogetherInStretch(u, lo, hi, both[k].inst, both[l].inst);
      }
    }
  }

  lemma StretchInBlock(u: Unit, from: nat, to: nat, lo: nat, hi: nat)
    requires from <= lo <= hi <= to <= |u.insts| && IsCut(u, lo) && (if hi == to then to in u.ends else IsCall(u, hi))
    requires forall e :: e in u.ends ==> !(from < e < to)
    requires forall c: nat :: lo <= c < hi ==> !IsCall(u, c)
    ensures IsStretch(u, lo, hi)
  {
  }

  lemma StillSelected(u: Unit, n: nat, all: seq<Info>)
    requires Selected(u, n, all) && !IsAccess(u, n)
    ensures Selected(u, n + 1, all)
  {
  }

  class Collector {
    const unit: Unit
    var local: seq<nat>
    var all: seq<Info>

    constructor (u: Unit)
      ensures unit == u && local == [] && all == []
    {
      unit := u;
      local := [];
      all := [];
    }

    /** Decides on one access, the last one of `local` not yet seen. */
    method ChooseOne(n: nat, targets: map<int, nat>, ghost base: seq<Info>) returns (newTargets: map<int, nat>)
      requires Ascends(unit, local) && n < |local| && Choosing(unit, local, n + 1, base, all, targets)
      modifies this`all
      ensures Choosing(unit, local, n, base, all, newTargets)
    {
      hide Choosing;
      var i := local[n];
      var addr := Addr(unit, i);
      newTargets := targets;
      if addr in unit.ignored {
        StepDropped(unit, local, n, base, all, targets);
        return;
      }
      if IsLoad(unit, i) {
        if !unit.readsBeforeWrites && addr in targets {
          IndexIsValid(unit, local, n + 1, base, all, targets, addr);
          var at := targets[addr];
          if !AnyVolatile(unit, i, all[at].inst) {
            StepReplaced(unit, local, n, base, all, targets);
            all := all[at := Info(all[at].inst, true)];
            return;
          }
        }
        if addr in unit.constants {
          StepDropped(unit, local, n, base, all, targets);
          return;
        }
      }
      if addr in unit.unshared {
        StepDropped(unit, local, n, base, all, targets);
        return;
      }
      StepKept(unit, local, n, base, all, targets);
      all := all + [Info(i, false)];
      if IsStore(unit, i) {
        newTargets := targets[addr := |all| - 1];
      }
    }

    /** Chooses among the accesses of a call-free stretch, walking it backwards. */
    method ChooseInstructionsToInstrument()
      requires Ascends(unit, local)
      modifies this`local, this`all
      ensures local == [] && old(all) <= all && Gathered(unit, old(local), 0, all[|old(all)|..])
    {
      ghost var base := all;
      var targets: map<int, nat> := map[];
      var n := |local|;
      ChooseStart(unit, local, all);
      hide Choosing;
      while n > 0
        invariant 0 <= n <= |local| && local == old(local)
        invariant Choosing(unit, local, n, base, all, targets)
      {
        n := n - 1;
        targets := ChooseOne(n, targets, base);
      }
      ChooseEnd(unit, local, base, all, targets);
      local := [];
    }

    /** At a call, or at the end of a block. */
    method Choose(ghost lo: nat, ghost hi: nat)
      requires IsStretch(unit, lo, hi) && local == Accesses(unit, lo, hi) && Selected(unit, lo, all)
      modifies this`local, this`all
      ensures local == [] && Selected(unit, hi, all)
    {
      AccessesAscend(unit, lo, hi);
      ghost var before := all;
      ChooseInstructionsToInstrument();
      assert all == before + all[|before|..];
      StretchSelected(unit, lo, hi, before, all[|before|..]);
    }

    /** insts[lo..i] is a stretch so far, its accesses waiting in `local`. */
    ghost predicate Collecting(from: nat, lo: nat, i: nat)
      reads this
    {
      && from <= lo <= i <= |unit.insts| && IsCut(unit, lo)
      && (forall c: nat :: lo <= c < i ==> !IsCall(unit, c))
      && local == Accesses(unit, lo, i) && Selected(unit, lo, all)
    }

    method VisitCall(i: nat, ghost from: nat, ghost to: nat, ghost lo: nat)
      requires Collecting(from, lo, i) && i < to <= |unit.insts| && IsCall(unit, i)
      requires forall e :: e in unit.ends ==> !(from < e < to)
      modifies this`local, this`all
      ensures Collecting(from, i + 1, i + 1)
    {
      StretchInBlock(unit, from, to, lo, i);
      Choose(lo, i);
      StillSelected(unit, i, all);
    }

    method VisitOther(i: nat, ghost from: nat, ghost lo: nat)
      requires Collecting(from, lo, i) && i < |unit.insts| && !IsCall(unit, i)
      modifies this`local
      ensures Collecting(from, lo, i + 1)
    {
      if IsAccess(unit, i) {
        local := local + [i];
      }
    }

    method CollectBlock(from: nat, to: nat)
      requires from <= to <= |unit.insts| && IsCut(unit, from) && to in unit.ends
      requires forall e :: e in unit.ends ==> !(from < e < to)
      requires local == [] && Selected(unit, from, all)
      modifies this`local, this`all
      ensures local == [] && Selected(unit, to, all)
    {
      ghost var lo := from;
      for i := from to to
        invariant Collecting(from, lo, i)
      {
        if IsCall(unit, i) {
          VisitCall(i, from, to, lo);
          lo := i + 1;
        } else {
          VisitOther(i, from, lo);
        }
      }
      StretchInBlock(unit, from, to, lo, to);
      Choose(lo, to);
    }

    /** Walks the function, choosing at each call and at the end of each block. */
    method CollectTargetsToInstrument()
      requires BlocksOf(unit) && local == [] && all == []
      modifies this
      ensures Selected(unit, |unit.insts|, all)
    {
      var from := 0;
      for k := 0 to |unit.ends|
        invariant 0 <= from <= |unit.insts| && IsCut(unit, from)
        invariant from == if k == 0 then 0 else unit.ends[k - 1]
        invariant local == [] && Selected(unit, from, all)
      {
        CollectBlock(from, unit.ends[k]);
        from := unit.ends[k];
      }
    }
  }

  // ----- what is left unchecked -----

  ghost predicate Checked(all: seq<Info>, a: nat, compound: bool) {
    exists k :: 0 <= k < |all| && all[k] == Info(a, compound)
  }

  ghost predicate IsChecked(all: seq<Info>, a: nat) {
    exists k :: 0 <= k < |all| && all[k].inst == a
  }

  /** Store `b` is the next one to the address of load `a`, in its block and with no call between:
      in terms of the instructions themselves. */
  ghost predicate NextStoreWithoutCall(u: Unit, a: nat, b: nat) {
    && a < b < |u.insts| && u.insts[a].Load? && u.insts[b].Store? && u.insts[b].addr == u.insts[a].addr
    && (forall c :: a < c < b ==> !u.insts[c].Call? && !(u.insts[c].Store? && u.insts[c].addr == u.insts[a].addr))
    && (forall e :: e in u.ends ==> !(a < e <= b))
  }

  /** Neither is volatile where that matters, and loads before stores need no check of their own. */
  predicate MayBeOmitted(u: Unit, a: nat, b: nat)
    requires a < |u.insts| && b < |u.insts| && u.insts[a].Load? && u.insts[b].Store?
  {
    !u.readsBeforeWrites && !(u.distinguishVolatile && (u.insts[a].isVolatile || u.insts[b].isVolatile))
  }

  lemma CoversInPlainTerms(u: Unit, a: nat, b: nat)
    ensures Covers(u, a, b) <==> NextStoreWithoutCall(u, a, b) && MayBeOmitted(u, a, b)
                                 && u.insts[a].addr !in u.ignored && u.insts[a].addr !in u.unshared
  {
    if Covers(u, a, b) {
      assert IsLoad(u, a) && IsStore(u, b);
      forall c | a < c < b
        ensures !u.insts[c].Call? && !(u.insts[c].Store? && u.insts[c].addr == u.insts[a].addr)
      {
        assert !IsCall(u, c) && !StoreTo(u, c, Addr(u, a));
      }
    }
    if NextStoreWithoutCall(u, a, b) {
      forall c: nat
        ensures a <= c <= b ==> !IsCall(u, c)
        ensures a < c < b ==> !StoreTo(u, c, Addr(u, a))
      {
      }
    }
  }

  lemma CoverIsFlagged(u: Unit, all: seq<Info>, a: nat, b: nat)
    requires Selected(u, |u.insts|, all) && Covers(u, a, b)
    ensures Checked(all, b, true)
  {
    assert Kept(u, b);
    var k :| 0 <= k < |all| && all[k].inst == b;
    assert all[k] == Info(b, true);
  }

  /** Main result on the selection, in terms of the instructions themselves.  A load or store is left
      out for one of four reasons only; the last is that the next store to the address of a load, in
      its block and with no call between, is checked and flagged for it. */
  lemma DroppedForAReason(u: Unit, all: seq<Info>, a: nat)
    requires Selected(u, |u.insts|, all) && a < |u.insts| && (u.insts[a].Load? || u.insts[a].Store?)
    ensures IsChecked(all, a) <==>
            !(|| u.insts[a].addr in u.ignored
              || u.insts[a].addr in u.unshared
              || (u.insts[a].Load? && u.insts[a].addr in u.constants)
              || exists b: nat :: NextStoreWithoutCall(u, a, b) && MayBeOmitted(u, a, b) && Checked(all, b, true))
  {
    assert IsAccess(u, a) && (IsLoad(u, a) <==> u.insts[a].Load?);
    assert IsChecked(all, a) <==> Kept(u, a);
    forall b
      ensures Covers(u, a, b) <==> NextStoreWithoutCall(u, a, b) && MayBeOmitted(u, a, b)
                                   && u.insts[a].addr !in u.ignored && u.insts[a].addr !in u.unshared
      ensures Covers(u, a, b) ==> Checked(all, b, true)
    {
      CoversInPlainTerms(u, a, b);
      if Covers(u, a, b) {
        CoverIsFlagged(u, all, a, b);
      }
    }
  }

  /** Only loads and stores are checked, each once. */
  lemma CheckedOnce(u: Unit, all: seq<Info>, k: nat, l: nat)
    requires Selected(u, |u.insts|, all) && k < |all| && l < |all| && all[k].inst == all[l].inst
    ensures k == l
    ensures var a := all[k].inst; a < |u.insts| && (u.insts[a].Load? || u.insts[a].Store?)
  {
    assert Kept(u, all[k].inst);
    assert k < l ==> InOrder(u, all[k].inst, all[l].inst);
    assert l < k ==> InOrder(u, all[l].inst, all[k].inst);
  }

  /** The flag says that a load has been left to this check. */
  lemma FlaggedForALoad(u: Unit, all: seq<Info>, k: nat)
    requires Selected(u, |u.insts|, all) && k < |all|
    ensures all[k].compound <==>
            exists a: nat :: NextStoreWithoutCall(u, a, all[k].inst) && MayBeOmitted(u, a, all[k].inst)
                        && u.insts[a].addr !in u.ignored && u.insts[a].addr !in u.unshared
  {
    forall a: nat
      ensures Covers(u, a, all[k].inst) <==>
              NextStoreWithoutCall(u, a, all[k].inst) && MayBeOmitted(u, a, all[k].inst)
              && u.insts[a].addr !in u.ignored && u.insts[a].addr !in u.unshared
    {
      CoversInPlainTerms(u, a, all[k].inst);
    }
  }

  /** A call between a load and the stores behind it keeps the load's check. */
  lemma CallKeepsTheLoad(u: Unit, all: seq<Info>, a: nat, c: nat)
    requires Selected(u, |u.insts|, all) && a < c < |u.insts| && u.insts[a].Load? && u.insts[c].Call?
    requires u.insts[a].addr !in u.ignored + u.unshared + u.constants
    requires forall b :: a < b < c ==> !(u.insts[b].Store? && u.insts[b].addr == u.insts[a].addr)
    ensures IsChecked(all, a)
  {
    DroppedForAReason(u, all, a);
  }

  /** Nothing else does: atomics, passed-over and other instructions may lie between. */
  lemma OthersDoNotKeepIt(u: Unit, all: seq<Info>, a: nat, b: nat)
    requires Selected(u, |u.insts|, all) && a < b < |u.insts| && u.insts[a].Load? && u.insts[b].Store?
    requires u.insts[b].addr == u.insts[a].addr && u.insts[a].addr !in u.ignored + u.unshared
    requires MayBeOmitted(u, a, b) && forall e :: e in u.ends ==> !(a < e <= b)
    requires forall c :: a < c < b ==> u.insts[c].Atomic? || u.insts[c].Passed? || u.insts[c].Other? || u.insts[c].Load?
    ensures !IsChecked(all, a) && Checked(all, b, true)
  {
    CoversInPlainTerms(u, a, b);
    CoverIsFlagged(u, all, a, b);
    DroppedForAReason(u, all, a);
  }

  lemma OrderIsStrict(u: Unit, a: nat, b: nat)
    requires InOrder(u, a, b)
    ensures a != b && !InOrder(u, b, a)
  {
  }

  lemma SelectedAgain(u: Unit, n: nat, all: seq<Info>, other: seq<Info>, k: nat) returns (i: nat)
    requires Selected(u, n, all) && Selected(u, n, other) && k < |other|
    ensures i < |all| && all[i] == other[k]
  {
    var y := other[k].inst;
    assert Kept(u, y);
    i :| 0 <= i < |all| && all[i].inst == y;
  }

  ghost predicate AgreeTo(all: seq<Info>, other: seq<Info>, m: nat) {
    m <= |all| && m <= |other| && forall i :: 0 <= i < m ==> all[i] == other[i]
  }

  lemma FoundBeyond(u: Unit, n: nat, all: seq<Info>, other: seq<Info>, m: nat) returns (i: nat)
    requires Selected(u, n, all) && Selected(u, n, other) && AgreeTo(all, other, m) && m < |other|
    ensures m <= i < |all| && all[i] == other[m]
    ensures m < i ==> InOrder(u, all[m].inst, other[m].inst)
  {
    i := SelectedAgain(u, n, all, other, m);
    hide InOrder;
    if i < m {
      OrderIsStrict(u, other[i].inst, other[m].inst);
    }
  }

  lemma {:induction false} SelectionAgrees(u: Unit, n: nat, all: seq<Info>, other: seq<Info>, k: nat)
    requires Selected(u, n, all) && Selected(u, n, other) && k <= |all| && k <= |other|
    ensures AgreeTo(all, other, k)
  {
    hide Selected;
    hide InOrder;
    if k > 0 {
      var m := k - 1;
      SelectionAgrees(u, n, all, other, m);
      var i := FoundBeyond(u, n, all, other, m);
      var j := FoundBeyond(u, n, other, all, m);
      if m < i && m < j {
        OrderIsStrict(u, all[m].inst, other[m].inst);
      }
    }
  }

  /** The contract of the collection leaves no choice: which accesses, which flags, which order. */
  lemma SelectionIsUnique(u: Unit, n: nat, all: seq<Info>, other: seq<Info>)
    requires Selected(u, n, all) && Selected(u, n, other)
    ensures all == other
  {
    if |all| <= |other| {
      SelectionAgrees(u, n, all, other, |all|);
      if |all| < |other| {
        var i := FoundBeyond(u, n, all, other, |all|);
      }
    } else {
      SelectionAgrees(u, n, other, all, |other|);
      var i := FoundBeyond(u, n, other, all, |other|);
    }
  }

  // ----- widths -----

  function Size(u: Unit, a: nat): nat
    requires IsAccess(u, a)
  {
    u.insts[a].size
  }

  /** An access that could take part in a race. */
  predicate Matters(u: Unit, a: nat) {
    IsAccess(u, a) && Shared(u, Addr(u, a)) && !(IsLoad(u, a) && Addr(u, a) in u.constants)
  }

  ghost predicate SameStretch(u: Unit, a: nat, c: nat) {
    if a <= c then Together(u, a, c) else Together(u, c, a)
  }

  /** An access in the same stretch to the same address, of at least the width of `a`. */
  ghost predicate AsWide(u: Unit, a: nat, c: nat)
    requires IsAccess(u, a)
  {
    SameStretch(u, a, c) && IsAccess(u, c) && Addr(u, c) == Addr(u, a) && Size(u, c) >= Size(u, a)
  }

  /** All bytes of `a` are checked where `a` stands, by its own check or another. */
  ghost predicate FullyChecked(u: Unit, all: seq<Info>, a: nat)
    requires IsAccess(u, a)
  {
    exists c :: AsWide(u, a, c) && (Checked(all, c, false) || Checked(all, c, true))
  }

  ghost predicate IsCovered(u: Unit, a: nat) {
    exists b :: Covers(u, a, b)
  }

  /** The condition on the code: beside every load that a store covers there is an access as wide,
      which is a store or a load that none covers. */
  ghost predicate WidthsFit(u: Unit) {
    forall a :: IsAccess(u, a) && IsCovered(u, a) && Addr(u, a) !in u.constants
                ==> exists c :: AsWide(u, a, c) && (IsStore(u, c) || !IsCovered(u, c))
  }

  lemma KeptIsChecked(u: Unit, all: seq<Info>, a: nat)
    requires Selected(u, |u.insts|, all) && IsAccess(u, a)
    ensures Kept(u, a) <==> Checked(all, a, false) || Checked(all, a, true)
  {
    if Kept(u, a) {
      var k :| 0 <= k < |all| && all[k].inst == a;
      assert all[k] == Info(a, all[k].compound);
    }
  }

  lemma KeptOfAddress(u: Unit, a: nat, c: nat)
    requires Matters(u, a) && IsAccess(u, c) && Addr(u, c) == Addr(u, a)
    requires IsStore(u, c) || Addr(u, a) !in u.constants
    ensures Kept(u, c) <==> IsStore(u, c) || !IsCovered(u, c)
  {
    if IsStore(u, c) {
      forall b
        ensures !Covers(u, c, b)
      {
      }
    }
  }

  /** Main result on widths.  The selection compares addresses only; no byte of an access that
      matters goes unchecked in its stretch if and only if the widths fit. */
  lemma WidthsAreKept(u: Unit, all: seq<Info>)
    requires Selected(u, |u.insts|, all)
    ensures (forall a :: Matters(u, a) ==> FullyChecked(u, all, a)) <==> WidthsFit(u)
  {
    hide Selected;
    hide Together;
    forall c | IsAccess(u, c)
      ensures Kept(u, c) <==> Checked(all, c, false) || Checked(all, c, true)
    {
      KeptIsChecked(u, all, c);
    }
    hide Checked;
    if WidthsFit(u) {
      forall a | Matters(u, a)
        ensures FullyChecked(u, all, a)
      {
        MattersIsChecked(u, all, a);
      }
    }
    if forall a :: Matters(u, a) ==> FullyChecked(u, all, a) {
      forall a | IsAccess(u, a) && IsCovered(u, a) && Addr(u, a) !in u.constants
        ensures exists c :: AsWide(u, a, c) && (IsStore(u, c) || !IsCovered(u, c))
      {
        assert Matters(u, a);
        var c :| AsWide(u, a, c) && (Checked(all, c, false) || Checked(all, c, true));
        KeptOfAddress(u, a, c);
      }
    }
  }

  lemma MattersIsChecked(u: Unit, all: seq<Info>, a: nat)
    requires Matters(u, a) && WidthsFit(u)
    requires forall c :: IsAccess(u, c) ==> (Kept(u, c) <==> Checked(all, c, false) || Checked(all, c, true))
    ensures FullyChecked(u, all, a)
  {
    hide Checked;
    if IsStore(u, a) || !IsCovered(u, a) {
      assert Kept(u, a) by {
        if IsStore(u, a) {
          KeptOfAddress(u, a, a);
        }
      }
      StandsAlone(u, all, a);
    } else {
      var c :| AsWide(u, a, c) && (IsStore(u, c) || !IsCovered(u, c));
      KeptOfAddress(u, a, c);
    }
  }

  lemma StandsAlone(u: Unit, all: seq<Info>, a: nat)
    requires IsAccess(u, a) && (Checked(all, a, false) || Checked(all, a, true))
    ensures FullyChecked(u, all, a)
  {
    assert Together(u, a, a);
    assert AsWide(u, a, a);
  }

  /** An 8-byte load before a 4-byte store to its address: the upper half goes unchecked. */
  lemma WiderLoadIsDropped(all: seq<Info>)
    requires Selected(Unit([Load(0, 8, false), Store(0, 4, false)], [2], {}, {}, {}, false, false), 2, all)
    ensures BlocksOf(Unit([Load(0, 8, false), Store(0, 4, false)], [2], {}, {}, {}, false, false))
    ensures all == [Info(1, true)]
    ensures !FullyChecked(Unit([Load(0, 8, false), Store(0, 4, false)], [2], {}, {}, {}, false, false), all, 0)
  {
    var u := Unit([Load(0, 8, false), Store(0, 4, false)], [2], {}, {}, {}, false, false);
    assert Covers(u, 0, 1);
    assert Kept(u, 1);
    assert Selected(u, 2, [Info(1, true)]) by {
      assert [Info(1, true)][0].inst == 1;
    }
    SelectionIsUnique(u, 2, all, [Info(1, true)]);
  }
}
