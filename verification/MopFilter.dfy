/** Merging the loop accesses of one basic block that use the same address. */
module MopFilter {

  /** A memory operation; `dups` are the instructions its check stands in for. */
  datatype Mop = Mop(inst: int, addr: int, size: nat, dups: seq<int>, inBranch: bool, isWrite: bool)

  predicate IsLast(mops: seq<Mop>, i: nat)
    requires i < |mops|
  {
    forall j :: i < j < |mops| ==> mops[j].addr != mops[i].addr
  }

  /** The positions from `lo` on that are the last for their address, from the back. */
  function LastDown(mops: seq<Mop>, lo: nat): (ps: seq<nat>)
    requires lo <= |mops|
    ensures forall k :: 0 <= k < |ps| ==> lo <= ps[k] < |mops|
    decreases |mops| - lo
  {
    if lo == |mops| then []
    else LastDown(mops, lo + 1) + if IsLast(mops, lo) then [lo] else []
  }

  /** The positions in [lo, p) that hold address `addr`, last first. */
  function Earlier(mops: seq<Mop>, lo: nat, p: nat, addr: int): (js: seq<nat>)
    requires lo <= p <= |mops|
    ensures forall k :: 0 <= k < |js| ==> lo <= js[k] < p && mops[js[k]].addr == addr
    decreases p - lo
  {
    if lo == p then []
    else Earlier(mops, lo + 1, p, addr) + if mops[lo].addr == addr then [lo] else []
  }

  lemma {:induction false} LastDownIsExact(mops: seq<Mop>, lo: nat)
    requires lo <= |mops|
    ensures forall p: nat :: p in LastDown(mops, lo) <==> lo <= p < |mops| && IsLast(mops, p)
    decreases |mops| - lo
  {
    if lo < |mops| {
      LastDownIsExact(mops, lo + 1);
    }
  }

  lemma {:induction false} LastDownDescends(mops: seq<Mop>, lo: nat, k: nat, l: nat)
    requires lo <= |mops| && k < l < |LastDown(mops, lo)|
    ensures LastDown(mops, lo)[k] > LastDown(mops, lo)[l]
    decreases |mops| - lo
  {
    if l < |LastDown(mops, lo + 1)| {
      LastDownDescends(mops, lo + 1, k, l);
    }
  }

  lemma LastDiffer(mops: seq<Mop>, lo: nat, k: nat, l: nat)
    requires lo <= |mops| && k < l < |LastDown(mops, lo)|
    ensures mops[LastDown(mops, lo)[k]].addr != mops[LastDown(mops, lo)[l]].addr
  {
    LastDownIsExact(mops, lo);
    LastDownDescends(mops, lo, k, l);
    assert IsLast(mops, LastDown(mops, lo)[l]);
  }

  lemma {:induction false} EarlierDescends(mops: seq<Mop>, lo: nat, p: nat, addr: int, k: nat, l: nat)
    requires lo <= p <= |mops| && k < l < |Earlier(mops, lo, p, addr)|
    ensures Earlier(mops, lo, p, addr)[k] > Earlier(mops, lo, p, addr)[l]
    decreases p - lo
  {
    if l < |Earlier(mops, lo + 1, p, addr)| {
      EarlierDescends(mops, lo + 1, p, addr, k, l);
    }
  }

  lemma {:induction false} EarlierIsExact(mops: seq<Mop>, lo: nat, p: nat, addr: int)
    requires lo <= p <= |mops|
    ensures forall j: nat :: j in Earlier(mops, lo, p, addr) <==> lo <= j < p && mops[j].addr == addr
    decreases p - lo
  {
    if lo < p {
      EarlierIsExact(mops, lo + 1, p, addr);
    }
  }

  function Insts(mops: seq<Mop>, js: seq<nat>): seq<int>
    requires forall k :: 0 <= k < |js| ==> js[k] < |mops|
  {
    seq(|js|, k requires 0 <= k < |js| => mops[js[k]].inst)
  }

  /** Operation `p`, standing in for the operations of its address from `lo` on. */
  function Kept(mops: seq<Mop>, lo: nat, p: nat): Mop
    requires lo <= p < |mops|
  {
    mops[p].(dups := mops[p].dups + Insts(mops, Earlier(mops, lo, p, mops[p].addr)))
  }

  /** The kept operations in program order. */
  function Filtered(mops: seq<Mop>): seq<Mop> {
    var ps := LastDown(mops, 0);
    seq(|ps|, k requires 0 <= k < |ps| => Kept(mops, 0, ps[|ps| - 1 - k]))
  }

  function Join(k: Mop, m: Mop): Mop {
    if k.addr == m.addr then k.(dups := k.dups + [m.inst]) else k
  }

  lemma KeptGrows(mops: seq<Mop>, lo: nat, p: nat)
    requires lo < p < |mops|
    ensures Kept(mops, lo, p) == Join(Kept(mops, lo + 1, p), mops[lo])
  {
  }

  lemma KeptAlone(mops: seq<Mop>, lo: nat)
    requires lo < |mops|
    ensures Kept(mops, lo, lo) == mops[lo]
  {
    assert mops[lo].dups + Insts(mops, []) == mops[lo].dups;
  }

  /** `reversed` holds the kept operations of mops[lo..], from the back. */
  ghost predicate Gathered(mops: seq<Mop>, lo: nat, reversed: seq<Mop>)
    requires lo <= |mops|
  {
    var ps := LastDown(mops, lo);
    |reversed| == |ps| && forall k :: 0 <= k < |ps| ==> reversed[k] == Kept(mops, lo, ps[k])
  }

  /** `seen` is the index, by address, of the operations gathered so far. */
  ghost predicate Indexes(seen: map<int, nat>, reversed: seq<Mop>) {
    && (forall a :: a in seen ==> seen[a] < |reversed| && reversed[seen[a]].addr == a)
    && (forall k :: 0 <= k < |reversed| ==> reversed[k].addr in seen)
  }

  /** Every address met is the address of a kept operation. */
  lemma AddressKept(mops: seq<Mop>, lo: nat, i: nat) returns (k: nat)
    requires lo <= i < |mops|
    ensures k < |LastDown(mops, lo)| && mops[LastDown(mops, lo)[k]].addr == mops[i].addr
    decreases |mops| - i
  {
    if IsLast(mops, i) {
      LastDownIsExact(mops, lo);
      k :| 0 <= k < |LastDown(mops, lo)| && LastDown(mops, lo)[k] == i;
    } else {
      var j :| i < j < |mops| && mops[j].addr == mops[i].addr;
      k := AddressKept(mops, lo, j);
    }
  }

  lemma GatherOld(mops: seq<Mop>, lo: nat, reversed: seq<Mop>, at: nat)
    requires lo < |mops| && Gathered(mops, lo + 1, reversed)
    requires at < |reversed| && reversed[at].addr == mops[lo].addr
    ensures Gathered(mops, lo, reversed[at := Join(reversed[at], mops[lo])])
  {
    var ps := LastDown(mops, lo + 1);
    assert mops[ps[at]].addr == mops[lo].addr;
    assert !IsLast(mops, lo);
    forall k | 0 <= k < |ps|
      ensures Kept(mops, lo, ps[k]) == reversed[at := Join(reversed[at], mops[lo])][k]
    {
      KeptGrows(mops, lo, ps[k]);
      if k < at {
        LastDiffer(mops, lo + 1, k, at);
      } else if at < k {
        LastDiffer(mops, lo + 1, at, k);
      }
    }
  }

  lemma NotMet(mops: seq<Mop>, lo: nat, reversed: seq<Mop>, seen: map<int, nat>)
    requires lo < |mops| && Gathered(mops, lo + 1, reversed) && Indexes(seen, reversed)
    requires mops[lo].addr !in seen
    ensures IsLast(mops, lo)
  {
    forall j | lo < j < |mops|
      ensures mops[j].addr != mops[lo].addr
    {
      var k := AddressKept(mops, lo + 1, j);
      assert reversed[k].addr == mops[j].addr;
    }
  }

  lemma GatherNew(mops: seq<Mop>, lo: nat, reversed: seq<Mop>)
    requires lo < |mops| && Gathered(mops, lo + 1, reversed) && IsLast(mops, lo)
    ensures Gathered(mops, lo, reversed + [mops[lo]])
  {
    var ps := LastDown(mops, lo + 1);
    forall k | 0 <= k < |ps|
      ensures Kept(mops, lo, ps[k]) == reversed[k]
    {
      KeptGrows(mops, lo, ps[k]);
    }
    KeptAlone(mops, lo);
  }

  /** The state of the filter when mops[lo..] is done. */
  ghost predicate Filtering(mops: seq<Mop>, lo: nat, reversed: seq<Mop>, seen: map<int, nat>)
    requires lo <= |mops|
  {
    Gathered(mops, lo, reversed) && Indexes(seen, reversed)
  }

  lemma FilterStart(mops: seq<Mop>)
    ensures Filtering(mops, |mops|, [], map[])
  {
  }

  lemma FilterOld(mops: seq<Mop>, lo: nat, reversed: seq<Mop>, seen: map<int, nat>)
    requires lo < |mops| && Filtering(mops, lo + 1, reversed, seen) && mops[lo].addr in seen
    ensures var at := seen[mops[lo].addr];
            at < |reversed|
            && Filtering(mops, lo, reversed[at := reversed[at].(dups := reversed[at].dups + [mops[lo].inst])], seen)
  {
    GatherOld(mops, lo, reversed, seen[mops[lo].addr]);
  }

  lemma FilterNew(mops: seq<Mop>, lo: nat, reversed: seq<Mop>, seen: map<int, nat>)
    requires lo < |mops| && Filtering(mops, lo + 1, reversed, seen) && mops[lo].addr !in seen
    ensures Filtering(mops, lo, reversed + [mops[lo]], seen[mops[lo].addr := |reversed|])
  {
    NotMet(mops, lo, reversed, seen);
    GatherNew(mops, lo, reversed);
  }

  function Backwards(s: seq<Mop>): seq<Mop> {
    seq(|s|, k requires 0 <= k < |s| => s[|s| - 1 - k])
  }

  lemma FilterEnd(mops: seq<Mop>, reversed: seq<Mop>, seen: map<int, nat>)
    requires Filtering(mops, 0, reversed, seen)
    ensures Backwards(reversed) == Filtered(mops)
  {
  }

  lemma OnlyOne(mops: seq<Mop>)
    requires |mops| == 1
    ensures Filtered(mops) == mops
  {
    assert LastDown(mops, 1) == [] && LastDown(mops, 0) == [0];
    KeptAlone(mops, 0);
  }

  class LoopMopInstrumenter {
    var candidates: seq<Mop>

    /** Walks the block backwards, keeping the last operation for each address. */
    method FilterAndAddMops(mops: seq<Mop>)
      modifies this
      ensures candidates == old(candidates) + Filtered(mops)
    {
      if mops == [] {
        return;
      }
      if |mops| == 1 {
        OnlyOne(mops);
        candidates := candidates + mops;
        return;
      }
      hide Filtering;
      hide Filtered;
      var seen: map<int, nat> := map[];
      var reversed: seq<Mop> := [];
      var n := |mops|;
      FilterStart(mops);
      while n > 0
        invariant 0 <= n <= |mops| && candidates == old(candidates)
        invariant Filtering(mops, n, reversed, seen)
      {
        n := n - 1;
        var mop := mops[n];
        if mop.addr in seen {
          FilterOld(mops, n, reversed, seen);
          var at := seen[mop.addr];
          reversed := reversed[at := reversed[at].(dups := reversed[at].dups + [mop.inst])];
        } else {
          FilterNew(mops, n, reversed, seen);
          reversed := reversed + [mop];
          seen := seen[mop.addr := |reversed| - 1];
        }
      }
      FilterEnd(mops, reversed, seen);
      candidates := candidates + Backwards(reversed);
    }
  }

  // ----- what the filter keeps -----

  /** The last operation for the address of operation `i`. */
  lemma LastFor(mops: seq<Mop>, i: nat) returns (p: nat)
    requires i < |mops|
    ensures i <= p < |mops| && mops[p].addr == mops[i].addr && IsLast(mops, p)
    decreases |mops| - i
  {
    if IsLast(mops, i) {
      p := i;
    } else {
      var j :| i < j < |mops| && mops[j].addr == mops[i].addr;
      p := LastFor(mops, j);
    }
  }

  /** Kept operations stay in program order and have different addresses. */
  lemma KeptAddressesDiffer(mops: seq<Mop>, k: nat, l: nat)
    requires k < l < |Filtered(mops)|
    ensures Filtered(mops)[k].addr != Filtered(mops)[l].addr
    ensures exists p, q :: 0 <= p < q < |mops| && Filtered(mops)[k].inst == mops[p].inst
                           && Filtered(mops)[l].inst == mops[q].inst
  {
    var ps := LastDown(mops, 0);
    var i, j := |ps| - 1 - l, |ps| - 1 - k;
    LastDownDescends(mops, 0, i, j);
    LastDiffer(mops, 0, i, j);
    assert Filtered(mops)[k] == Kept(mops, 0, ps[j]) && Filtered(mops)[l] == Kept(mops, 0, ps[i]);
  }

  /** The check of `k` finds every error that the check of `m` finds. */
  predicate Subsumes(k: Mop, m: Mop) {
    k.addr == m.addr && m.size <= k.size && (m.isWrite ==> k.isWrite)
  }

  /** Operations as collected: different instructions, none standing in for another yet. */
  predicate Collected(mops: seq<Mop>) {
    && (forall i :: 0 <= i < |mops| ==> mops[i].dups == [])
    && (forall i, j :: 0 <= i < j < |mops| ==> mops[i].inst != mops[j].inst)
  }

  /** Every operation the filter drops is listed by a kept one whose check subsumes its own. */
  ghost predicate FilterIsSound(mops: seq<Mop>) {
    forall k, m :: 0 <= k < |Filtered(mops)| && m in mops && m.inst in Filtered(mops)[k].dups
                   ==> Subsumes(Filtered(mops)[k], m)
  }

  /** For each address no access is wider than the last one, and none is a write if that is a read. */
  predicate LastIsStrongest(mops: seq<Mop>) {
    forall i, j :: 0 <= i < j < |mops| && mops[i].addr == mops[j].addr && IsLast(mops, j)
                   ==> mops[i].size <= mops[j].size && (mops[i].isWrite ==> mops[j].isWrite)
  }

  lemma InstOf(mops: seq<Mop>, js: seq<nat>, i: nat)
    requires Collected(mops) && (forall l :: 0 <= l < |js| ==> js[l] < |mops|) && i < |mops|
    ensures mops[i].inst in Insts(mops, js) <==> i in js
  {
    if i in js {
      var l :| 0 <= l < |js| && js[l] == i;
      assert Insts(mops, js)[l] == mops[i].inst;
    }
    if mops[i].inst in Insts(mops, js) {
      var l :| 0 <= l < |js| && Insts(mops, js)[l] == mops[i].inst;
      assert js[l] in js;
    }
  }

  /** The instructions listed by a kept operation are the earlier ones to its address. */
  lemma ListedAreEarlier(mops: seq<Mop>, p: nat, i: nat)
    requires Collected(mops) && p < |mops| && i < |mops|
    ensures mops[i].inst in Kept(mops, 0, p).dups <==> i < p && mops[i].addr == mops[p].addr
  {
    var js := Earlier(mops, 0, p, mops[p].addr);
    EarlierIsExact(mops, 0, p, mops[p].addr);
    assert [] + Insts(mops, js) == Insts(mops, js);
    InstOf(mops, js, i);
  }

  lemma FilteredIsKept(mops: seq<Mop>, k: nat) returns (p: nat)
    requires k < |Filtered(mops)|
    ensures p < |mops| && IsLast(mops, p) && Filtered(mops)[k] == Kept(mops, 0, p)
  {
    var ps := LastDown(mops, 0);
    p := ps[|ps| - 1 - k];
    LastDownIsExact(mops, 0);
    assert p in ps;
  }

  lemma LastIsKept(mops: seq<Mop>, j: nat) returns (k: nat)
    requires j < |mops| && IsLast(mops, j)
    ensures k < |Filtered(mops)| && Filtered(mops)[k] == Kept(mops, 0, j)
  {
    LastDownIsExact(mops, 0);
    var ps := LastDown(mops, 0);
    var l :| 0 <= l < |ps| && ps[l] == j;
    k := |ps| - 1 - l;
  }

  /** Operation `k` of the output is `m`, or lists it. */
  predicate StandsFor(k: Mop, m: Mop) {
    k.inst == m.inst || m.inst in k.dups
  }

  lemma StandsForLast(mops: seq<Mop>, l: nat, i: nat) returns (p: nat)
    requires Collected(mops) && l < |Filtered(mops)| && i < |mops| && StandsFor(Filtered(mops)[l], mops[i])
    ensures i <= p < |mops| && mops[p].addr == mops[i].addr && IsLast(mops, p) && Filtered(mops)[l] == Kept(mops, 0, p)
  {
    p := FilteredIsKept(mops, l);
    ListedAreEarlier(mops, p, i);
  }

  /** Main result on the filter.  In its output each operation occurs exactly once, either kept or
      listed, with its address. */
  lemma AccessesAreConserved(mops: seq<Mop>, i: nat) returns (k: nat)
    requires Collected(mops) && i < |mops|
    ensures k < |Filtered(mops)| && Filtered(mops)[k].addr == mops[i].addr
    ensures (Filtered(mops)[k].inst == mops[i].inst) != (mops[i].inst in Filtered(mops)[k].dups)
    ensures forall l :: 0 <= l < |Filtered(mops)| && l != k ==>
                          Filtered(mops)[l].inst != mops[i].inst && mops[i].inst !in Filtered(mops)[l].dups
  {
    var p := LastFor(mops, i);
    k := LastIsKept(mops, p);
    ListedAreEarlier(mops, p, i);
    forall l | 0 <= l < |Filtered(mops)| && StandsFor(Filtered(mops)[l], mops[i])
      ensures l == k
    {
      var q := StandsForLast(mops, l, i);
      if l < k {
        KeptAddressesDiffer(mops, l, k);
      } else if k < l {
        KeptAddressesDiffer(mops, k, l);
      }
    }
  }

  /** What an output operation lists, by position in the input. */
  lemma DupsOf(mops: seq<Mop>, k: nat) returns (p: nat, js: seq<nat>)
    requires Collected(mops) && k < |Filtered(mops)|
    ensures p < |mops| && Filtered(mops)[k].addr == mops[p].addr
    ensures js == Earlier(mops, 0, p, mops[p].addr) && Filtered(mops)[k].dups == Insts(mops, js)
  {
    p := FilteredIsKept(mops, k);
    js := Earlier(mops, 0, p, mops[p].addr);
    assert [] + Insts(mops, js) == Insts(mops, js);
  }

  /** Nothing is listed twice. */
  lemma DupsAreDistinct(mops: seq<Mop>, k: nat, a: nat, b: nat)
    requires Collected(mops) && k < |Filtered(mops)| && a < b < |Filtered(mops)[k].dups|
    ensures Filtered(mops)[k].dups[a] != Filtered(mops)[k].dups[b]
  {
    var p, js := DupsOf(mops, k);
    EarlierDescends(mops, 0, p, mops[p].addr, a, b);
    assert mops[js[b]].inst != mops[js[a]].inst;
  }

  /** Nothing is kept or listed that was not there. */
  lemma NothingInvented(mops: seq<Mop>, k: nat, inst: int)
    requires Collected(mops) && k < |Filtered(mops)|
    requires inst == Filtered(mops)[k].inst || inst in Filtered(mops)[k].dups
    ensures exists m :: m in mops && m.inst == inst && m.addr == Filtered(mops)[k].addr
  {
    var p := FilteredIsKept(mops, k);
    var q, js := DupsOf(mops, k);
    if inst in Filtered(mops)[k].dups {
      var a :| 0 <= a < |Insts(mops, js)| && Insts(mops, js)[a] == inst;
      assert mops[js[a]] in mops;
    } else {
      assert mops[p] in mops;
    }
  }

  /** The filter looks at addresses only: its output loses no error exactly when for each address the
      last access is the widest, and a write if any of them is. */
  lemma KeptChecksSubsume(mops: seq<Mop>)
    requires Collected(mops)
    ensures FilterIsSound(mops) <==> LastIsStrongest(mops)
  {
    if LastIsStrongest(mops) {
      forall k, m | 0 <= k < |Filtered(mops)| && m in mops && m.inst in Filtered(mops)[k].dups
        ensures Subsumes(Filtered(mops)[k], m)
      {
        var i :| 0 <= i < |mops| && mops[i] == m;
        var p := FilteredIsKept(mops, k);
        ListedAreEarlier(mops, p, i);
      }
    }
    if FilterIsSound(mops) {
      forall i, j | 0 <= i < j < |mops| && mops[i].addr == mops[j].addr && IsLast(mops, j)
        ensures mops[i].size <= mops[j].size && (mops[i].isWrite ==> mops[j].isWrite)
      {
        var k := LastIsKept(mops, j);
        ListedAreEarlier(mops, j, i);
        assert Subsumes(Filtered(mops)[k], mops[i]);
      }
    }
  }

  /** What optimised code looks like: one size for each address, and no read after a write to it. */
  lemma PlainBlockIsSound(mops: seq<Mop>)
    requires Collected(mops)
    requires forall i, j :: 0 <= i < j < |mops| && mops[i].addr == mops[j].addr
                            ==> mops[i].size == mops[j].size && !(mops[i].isWrite && !mops[j].isWrite)
    ensures FilterIsSound(mops)
  {
    assert LastIsStrongest(mops);
    KeptChecksSubsume(mops);
  }

  /** An 8-byte read before a 4-byte write of its first half: the upper half goes unchecked. */
  lemma WiderReadIsLost(addr: int)
    ensures var mops := [Mop(0, addr, 8, [], false, false), Mop(1, addr, 4, [], false, true)];
            Collected(mops) && !FilterIsSound(mops)
  {
    var mops := [Mop(0, addr, 8, [], false, false), Mop(1, addr, 4, [], false, true)];
    assert IsLast(mops, 1) && mops[0].addr == mops[1].addr && mops[0].size > mops[1].size;
    KeptChecksSubsume(mops);
  }
}
