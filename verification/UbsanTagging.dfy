/** Marking the instructions that belong to a UBSan check, so that other sanitizers can tell them
    from the program's own. */
module UbsanTagging {

  /** For each instruction the values it uses, or the users of its value.  Keys are instructions;
      a listed value that is not a key is a constant, an argument or the like. */
  type Chains = map<int, seq<int>>

  predicate Edge(next: Chains, i: int, j: int) {
    i in next && j in next && j in next[i]
  }

  // ----- what a walk reaches -----

  ghost predicate IsChain(next: Chains, ok: set<int>, p: seq<int>) {
    && |p| > 0
    && (forall k :: 0 <= k < |p| ==> p[k] in ok)
    && (forall k, l :: 0 <= k && l == k + 1 && l < |p| ==> Edge(next, p[k], p[l]))
  }

  ghost predicate ChainBetween(next: Chains, ok: set<int>, i: int, j: int, p: seq<int>) {
    IsChain(next, ok, p) && p[0] == i && p[|p| - 1] == j
  }

  /** Some chain of `ok` instructions leads from `i` to `j`, both included. */
  ghost predicate Leads(next: Chains, ok: set<int>, i: int, j: int) {
    exists p :: ChainBetween(next, ok, i, j, p)
  }

  ghost predicate Reached(next: Chains, ok: set<int>, starts: seq<int>, x: int) {
    exists s :: s in starts && Leads(next, ok, s, x)
  }

  /** The instructions a walk must look at: where it starts, and what its `ok` ones lead to. */
  ghost predicate Touched(next: Chains, ok: set<int>, starts: seq<int>, x: int) {
    x in starts || exists i :: Reached(next, ok, starts, i) && Edge(next, i, x)
  }

  lemma LeadsToItself(next: Chains, ok: set<int>, i: int)
    requires i in ok
    ensures Leads(next, ok, i, i)
  {
    assert ChainBetween(next, ok, i, i, [i]);
  }

  lemma LeadsOn(next: Chains, ok: set<int>, i: int, j: int, k: int)
    requires Leads(next, ok, i, j) && Edge(next, j, k) && k in ok
    ensures Leads(next, ok, i, k)
  {
    var p :| ChainBetween(next, ok, i, j, p);
    assert ChainBetween(next, ok, i, k, p + [k]);
  }

  lemma LeadsJoin(next: Chains, ok: set<int>, i: int, j: int, k: int)
    requires Leads(next, ok, i, j) && Leads(next, ok, j, k)
    ensures Leads(next, ok, i, k)
  {
    var p :| ChainBetween(next, ok, i, j, p);
    var q :| ChainBetween(next, ok, j, k, q);
    assert ChainBetween(next, ok, i, k, p + q[1..]);
  }

  lemma TouchedIsReached(next: Chains, ok: set<int>, starts: seq<int>, x: int)
    requires Touched(next, ok, starts, x) && x in ok
    ensures Reached(next, ok, starts, x)
  {
    if x in starts {
      LeadsToItself(next, ok, x);
    } else {
      var i :| Reached(next, ok, starts, i) && Edge(next, i, x);
      var s :| s in starts && Leads(next, ok, s, i);
      LeadsOn(next, ok, s, i, x);
    }
  }

  /** The chains of `back` are those of `next` read the other way. */
  ghost predicate Opposite(next: Chains, back: Chains) {
    next.Keys == back.Keys && forall i, j :: Edge(next, i, j) <==> Edge(back, j, i)
  }

  function Backwards(p: seq<int>): seq<int> {
    seq(|p|, k requires 0 <= k < |p| => p[|p| - 1 - k])
  }

  lemma LeadsBack(next: Chains, back: Chains, ok: set<int>, i: int, j: int)
    requires Opposite(next, back) && Leads(next, ok, i, j)
    ensures Leads(back, ok, j, i)
  {
    var p :| ChainBetween(next, ok, i, j, p);
    var q := Backwards(p);
    forall k, l | 0 <= k && l == k + 1 && l < |q|
      ensures Edge(back, q[k], q[l])
    {
      assert Edge(next, p[|p| - 1 - l], p[|p| - 1 - k]);
    }
    assert ChainBetween(back, ok, j, i, q);
  }

  // ----- what every step of a walk keeps -----

  ghost predicate Walking(next: Chains, ok: set<int>, starts: seq<int>, visited: set<int>, work: seq<int>) {
    && (forall s :: s in starts ==> s in visited || s in work)
    && (forall i, j :: i in visited && i in ok && Edge(next, i, j) ==> j in visited || j in work)
    && (forall i :: i in visited || i in work ==> i in next && Touched(next, ok, starts, i))
  }

  /** `pushed` is `work` with the instructions among `values` added. */
  ghost predicate Pushes(next: Chains, values: seq<int>, work: seq<int>, pushed: seq<int>) {
    forall x :: x in pushed <==> x in work || (x in values && x in next)
  }

  lemma WalkStart(next: Chains, ok: set<int>, starts: seq<int>)
    requires forall i :: i in starts ==> i in next
    ensures Walking(next, ok, starts, {}, starts)
  {
  }

  lemma WorkIsKnown(next: Chains, ok: set<int>, starts: seq<int>, visited: set<int>, work: seq<int>)
    requires Walking(next, ok, starts, visited, work) && work != []
    ensures var i := work[|work| - 1];
            i in next && (i in visited ==> Walking(next, ok, starts, visited, work[..|work| - 1]))
  {
    assert work == work[..|work| - 1] + [work[|work| - 1]];
  }

  lemma VisitKeeps(next: Chains, ok: set<int>, starts: seq<int>, visited: set<int>, work: seq<int>,
                   pushed: seq<int>)
    requires Walking(next, ok, starts, visited, work) && work != []
    requires var i := work[|work| - 1];
             if i in ok then Pushes(next, next[i], work[..|work| - 1], pushed) else pushed == work[..|work| - 1]
    ensures Walking(next, ok, starts, visited + {work[|work| - 1]}, pushed)
  {
    var i := work[|work| - 1];
    var rest := work[..|work| - 1];
    assert work == rest + [i];
    if i in ok {
      TouchedIsReached(next, ok, starts, i);
      forall x | x in pushed
        ensures Touched(next, ok, starts, x)
      {
        if x !in rest {
          assert Edge(next, i, x);
        }
      }
    }
  }

  lemma AlongChain(next: Chains, ok: set<int>, starts: seq<int>, visited: set<int>, p: seq<int>, k: nat)
    requires Walking(next, ok, starts, visited, [])
    requires IsChain(next, ok, p) && p[0] in starts && k < |p|
    ensures p[k] in visited
  {
    if k > 0 {
      AlongChain(next, ok, starts, visited, p, k - 1);
      assert Edge(next, p[k - 1], p[k]);
    }
  }

  lemma ReachedIsVisited(next: Chains, ok: set<int>, starts: seq<int>, visited: set<int>, x: int)
    requires Walking(next, ok, starts, visited, []) && Reached(next, ok, starts, x)
    ensures x in visited && x in ok
  {
    var s :| s in starts && Leads(next, ok, s, x);
    var p :| ChainBetween(next, ok, s, x, p);
    AlongChain(next, ok, starts, visited, p, |p| - 1);
  }

  /** A finished walk has visited exactly what it had to look at. */
  lemma WalkIsExact(next: Chains, ok: set<int>, starts: seq<int>, visited: set<int>)
    requires Walking(next, ok, starts, visited, [])
    ensures forall x :: x in visited <==> Touched(next, ok, starts, x)
    ensures forall x :: x in visited && x in ok <==> Reached(next, ok, starts, x)
  {
    forall x | Reached(next, ok, starts, x)
      ensures x in visited && x in ok
    {
      ReachedIsVisited(next, ok, starts, visited, x);
    }
    forall x | x in visited && x in ok
      ensures Reached(next, ok, starts, x)
    {
      TouchedIsReached(next, ok, starts, x);
    }
  }

  // ----- the pass -----

  datatype Code = Code(operands: Chains, users: Chains, noSanitize: set<int>, branches: set<int>, reports: set<int>)

  ghost predicate WellFormed(c: Code) {
    Opposite(c.operands, c.users) && c.noSanitize <= c.operands.Keys
  }

  /** `preds` has one entry for each edge into the block; the last instruction is the terminator. */
  datatype Block = Block(insts: seq<int>, preds: seq<nat>)

  ghost predicate BlocksOf(c: Code, blocks: seq<Block>) {
    forall b :: b in blocks ==>
      && b.insts != []
      && (forall i :: i in b.insts ==> i in c.operands)
      && (forall p :: p in b.preds ==> p < |blocks|)
  }

  function Terminator(b: Block): int
    requires b.insts != []
  {
    b.insts[|b.insts| - 1]
  }

  /** A block that reports a failed check and has no way in but from the check. */
  predicate IsFallback(c: Code, b: Block)
    requires b.insts != []
  {
    && Terminator(b) in c.noSanitize
    && |b.preds| == 1
    && exists i :: i in b.insts && i in c.noSanitize && i in c.reports
  }

  /** The terminator of the block that leads to fallback block `b`. */
  function CheckBranch(c: Code, blocks: seq<Block>, b: Block): (br: int)
    requires BlocksOf(c, blocks) && b in blocks && IsFallback(c, b)
    ensures br in c.operands
  {
    assert b.preds[0] in b.preds;
    Terminator(blocks[b.preds[0]])
  }

  /** The check's branch is still there, and still marked as inserted. */
  predicate IsGuarded(c: Code, blocks: seq<Block>, b: Block)
    requires BlocksOf(c, blocks) && b in blocks && IsFallback(c, b)
  {
    var br := CheckBranch(c, blocks, b);
    br in c.branches && br in c.noSanitize
  }

  predicate IsBoundary(c: Code, i: int) {
    && i in c.operands && i in c.noSanitize
    && forall j :: j in c.operands[i] && j in c.operands ==> j !in c.noSanitize
  }

  /** An instruction computed from the same boundary instruction as the branch. */
  ghost predicate BelongsToCheck(c: Code, br: int, x: int) {
    exists b :: IsBoundary(c, b) && Leads(c.operands, c.noSanitize, br, b) && Leads(c.users, c.noSanitize, b, x)
  }

  /** What the pass has to mark on account of block `b`. */
  ghost predicate MarkedFor(c: Code, blocks: seq<Block>, b: Block, x: int)
    requires BlocksOf(c, blocks) && b in blocks
  {
    IsFallback(c, b) &&
    (x in b.insts || (IsGuarded(c, blocks, b) && BelongsToCheck(c, CheckBranch(c, blocks, b), x)))
  }

  ghost predicate Distinct(s: seq<int>) {
    forall a, b :: 0 <= a < b < |s| ==> s[a] != s[b]
  }

  method PushInstructions(next: Chains, values: seq<int>, work: seq<int>) returns (pushed: seq<int>)
    ensures Pushes(next, values, work, pushed)
  {
    pushed := work;
    for k := 0 to |values|
      invariant Pushes(next, values[..k], work, pushed)
    {
      if values[k] in next {
        pushed := pushed + [values[k]];
      }
      assert values[..k + 1] == values[..k] + [values[k]];
    }
    assert values[..|values|] == values;
  }

  class Tagger {
    const code: Code
    var boundary: seq<int>
    var tagged: set<int>

    constructor (c: Code)
      ensures code == c && boundary == [] && tagged == {}
    {
      code := c;
      boundary := [];
      tagged := {};
    }

    /** CollectBoundaryInst: whether the walk goes on to the operands of `i`. */
    method CollectBoundaryInst(i: int) returns (goOn: bool)
      requires i in code.operands
      modifies this`boundary
      ensures goOn == (i in code.noSanitize)
      ensures boundary == if IsBoundary(code, i) then old(boundary) + [i] else old(boundary)
    {
      if i !in code.noSanitize {
        return false;
      }
      var operands := code.operands[i];
      for k := 0 to |operands|
        invariant boundary == old(boundary)
        invariant forall j :: j in operands[..k] && j in code.operands ==> j !in code.noSanitize
      {
        var op := operands[k];
        if op in code.operands && op in code.noSanitize {
          assert op in code.operands[i];
          return true;
        }
        assert operands[..k + 1] == operands[..k] + [op];
      }
      assert operands[..|operands|] == operands;
      boundary := boundary + [i];
      return true;
    }

    /** MarkUbsan. */
    method MarkUbsan(i: int) returns (goOn: bool)
      modifies this`tagged
      ensures goOn == (i in code.noSanitize)
      ensures tagged == if i in code.noSanitize then old(tagged) + {i} else old(tagged)
    {
      if i !in code.noSanitize {
        return false;
      }
      tagged := tagged + {i};
      return true;
    }

    /** Backward tracking.  `acted` lists the instructions acted on, in order: each once, and
        exactly those the walk must look at. */
    method WalkOverUseDefChain(br: int) returns (ghost acted: seq<int>)
      requires WellFormed(code) && br in code.operands && boundary == []
      modifies this`boundary
      ensures forall a, b :: 0 <= a < b < |boundary| ==> boundary[a] != boundary[b]
      ensures forall x :: x in boundary <==> IsBoundary(code, x) && Leads(code.operands, code.noSanitize, br, x)
      ensures forall a, b :: 0 <= a < b < |acted| ==> acted[a] != acted[b]
      ensures forall x :: x in acted <==> Touched(code.operands, code.noSanitize, [br], x)
    {
      ghost var next, ok := code.operands, code.noSanitize;
      var visited: set<int> := {};
      var work := [br];
      acted := [];
      WalkStart(next, ok, [br]);
      hide Walking;
      while work != []
        invariant Walking(next, ok, [br], visited, work)
        invariant Distinct(acted) && forall x :: x in acted <==> x in visited
        invariant Distinct(boundary) && forall x :: x in boundary <==> x in visited && IsBoundary(code, x)
        decreases next.Keys - visited, |work|
      {
        var i := work[|work| - 1];
        var rest := work[..|work| - 1];
        WorkIsKnown(next, ok, [br], visited, work);
        if i in visited {
          work := rest;
          continue;
        }
        var goOn := CollectBoundaryInst(i);
        acted := acted + [i];
        ghost var before := work;
        work := rest;
        if goOn {
          work := PushInstructions(code.operands, code.operands[i], rest);
        }
        VisitKeeps(next, ok, [br], visited, before, work);
        visited := visited + {i};
      }
      WalkIsExact(next, ok, [br], visited);
      forall x
        ensures Reached(next, ok, [br], x) <==> Leads(next, ok, br, x)
      {
        assert br in [br];
      }
    }

    /** Forward tracking. */
    method WalkOverDefUseChain() returns (ghost acted: seq<int>)
      requires WellFormed(code) && forall b :: b in boundary ==> b in code.users
      modifies this`tagged
      ensures forall x :: x in tagged <==> x in old(tagged) || Reached(code.users, code.noSanitize, boundary, x)
      ensures forall a, b :: 0 <= a < b < |acted| ==> acted[a] != acted[b]
      ensures forall x :: x in acted <==> Touched(code.users, code.noSanitize, boundary, x)
    {
      ghost var next, ok := code.users, code.noSanitize;
      var visited: set<int> := {};
      var work := boundary;
      acted := [];
      WalkStart(next, ok, boundary);
      hide Walking;
      while work != []
        invariant Walking(next, ok, boundary, visited, work)
        invariant Distinct(acted) && forall x :: x in acted <==> x in visited
        invariant forall x :: x in tagged <==> x in old(tagged) || (x in visited && x in ok)
        decreases next.Keys - visited, |work|
      {
        var i := work[|work| - 1];
        var rest := work[..|work| - 1];
        WorkIsKnown(next, ok, boundary, visited, work);
        if i in visited {
          work := rest;
          continue;
        }
        var goOn := MarkUbsan(i);
        acted := acted + [i];
        ghost var before := work;
        work := rest;
        if goOn {
          work := PushInstructions(code.users, code.users[i], rest);
        }
        VisitKeeps(next, ok, boundary, visited, before, work);
        visited := visited + {i};
      }
      WalkIsExact(next, ok, boundary, visited);
    }

    /** Marks the check that guards a fallback block. */
    method TagCheck(br: int)
      requires WellFormed(code) && br in code.operands && boundary == []
      modifies this`boundary, this`tagged
      ensures boundary == []
      ensures forall x :: x in tagged <==> x in old(tagged) || BelongsToCheck(code, br, x)
    {
      ghost var back := WalkOverUseDefChain(br);
      ghost var forth := WalkOverDefUseChain();
      forall x
        ensures Reached(code.users, code.noSanitize, boundary, x) <==> BelongsToCheck(code, br, x)
      {
      }
      boundary := [];
    }

    method TagBlock(b: Block)
      modifies this`tagged
      ensures forall x :: x in tagged <==> x in old(tagged) || x in b.insts
    {
      for k := 0 to |b.insts|
        invariant forall x :: x in tagged <==> x in old(tagged) || x in b.insts[..k]
      {
        tagged := tagged + {b.insts[k]};
        assert b.insts[..k + 1] == b.insts[..k] + [b.insts[k]];
      }
      assert b.insts[..|b.insts|] == b.insts;
    }

    method TagFallback(blocks: seq<Block>, b: Block)
      requires WellFormed(code) && BlocksOf(code, blocks) && b in blocks && boundary == []
      modifies this`boundary, this`tagged
      ensures boundary == []
      ensures forall x :: x in tagged <==> x in old(tagged) || MarkedFor(code, blocks, b, x)
    {
      if !IsFallback(code, b) {
        return;
      }
      TagBlock(b);
      if !IsGuarded(code, blocks, b) {
        return;
      }
      TagCheck(CheckBranch(code, blocks, b));
    }

    method Run(blocks: seq<Block>, hasUbsan: bool)
      requires WellFormed(code) && BlocksOf(code, blocks) && boundary == []
      modifies this`boundary, this`tagged
      ensures boundary == []
      ensures forall x :: x in tagged <==>
                x in old(tagged) || (hasUbsan && exists b :: b in blocks && MarkedFor(code, blocks, b, x))
    {
      if !hasUbsan {
        return;
      }
      for k := 0 to |blocks|
        invariant boundary == []
        invariant forall x :: x in tagged <==>
                    x in old(tagged) || exists b :: b in blocks[..k] && MarkedFor(code, blocks, b, x)
      {
        assert blocks[..k + 1] == blocks[..k] + [blocks[k]];
        TagFallback(blocks, blocks[k]);
      }
      assert blocks[..|blocks|] == blocks;
    }
  }

  // ----- what is marked -----

  /** Outside fallback blocks only inserted instructions are ever marked. */
  lemma OnlyInsertedOutside(c: Code, blocks: seq<Block>, b: Block, x: int)
    requires BlocksOf(c, blocks) && b in blocks && MarkedFor(c, blocks, b, x)
    ensures x in b.insts || x in c.noSanitize
  {
    if x !in b.insts {
      var br := CheckBranch(c, blocks, b);
      var i :| IsBoundary(c, i) && Leads(c.operands, c.noSanitize, br, i) && Leads(c.users, c.noSanitize, i, x);
      var p :| ChainBetween(c.users, c.noSanitize, i, x, p);
    }
  }

  /** Which instructions the forward walk marks: those with a chain of operands to a boundary that
      the branch depends on. */
  lemma MarkedSharesBoundary(c: Code, br: int, x: int)
    requires WellFormed(c)
    ensures BelongsToCheck(c, br, x) <==>
              exists b :: IsBoundary(c, b) && Leads(c.operands, c.noSanitize, br, b)
                      && Leads(c.operands, c.noSanitize, x, b)
  {
    forall b | Leads(c.users, c.noSanitize, b, x)
      ensures Leads(c.operands, c.noSanitize, x, b)
    {
      LeadsBack(c.users, c.operands, c.noSanitize, b, x);
    }
    forall b | Leads(c.operands, c.noSanitize, x, b)
      ensures Leads(c.users, c.noSanitize, b, x)
    {
      LeadsBack(c.operands, c.users, c.noSanitize, x, b);
    }
  }

  /** What is marked, in terms of blocks, instructions and operands: the block's own instructions and
      those that rest, like the branch before it, on an inserted instruction without inserted operand. */
  lemma MarkedInPlainTerms(c: Code, blocks: seq<Block>, b: Block, p: nat, x: int)
    requires WellFormed(c) && BlocksOf(c, blocks) && b in blocks
    requires b.preds == [p] && p < |blocks| && blocks[p].insts != []
    ensures var br := blocks[p].insts[|blocks[p].insts| - 1];
            MarkedFor(c, blocks, b, x) <==>
            && b.insts[|b.insts| - 1] in c.noSanitize
            && (exists i :: i in b.insts && i in c.noSanitize * c.reports)
            && (|| x in b.insts
                || (&& br in c.branches * c.noSanitize
                    && exists s :: s in c.operands && s in c.noSanitize
                                   && (forall j :: j in c.operands[s] && j in c.operands ==> j !in c.noSanitize)
                                   && Leads(c.operands, c.noSanitize, br, s) && Leads(c.operands, c.noSanitize, x, s)))
  {
    if IsFallback(c, b) {
      MarkedSharesBoundary(c, CheckBranch(c, blocks, b), x);
    }
  }

  /** Nothing is marked on account of a block that no edge or several edges enter. */
  lemma OneEdgeIn(c: Code, blocks: seq<Block>, b: Block, x: int)
    requires BlocksOf(c, blocks) && b in blocks && MarkedFor(c, blocks, b, x)
    ensures |b.preds| == 1
  {
  }

  /** `x` rests on a boundary instruction. */
  ghost predicate HasBoundary(c: Code, x: int) {
    exists b :: IsBoundary(c, b) && Leads(c.operands, c.noSanitize, x, b)
  }

  /** Main result on the tags.  An instruction accepted on the way back is marked on the way forth
      exactly when it rests on a boundary instruction. */
  lemma AcceptedIsMarked(c: Code, br: int, x: int)
    requires WellFormed(c) && Leads(c.operands, c.noSanitize, br, x)
    ensures BelongsToCheck(c, br, x) <==> HasBoundary(c, x)
  {
    MarkedSharesBoundary(c, br, x);
    forall b | Leads(c.operands, c.noSanitize, x, b)
      ensures Leads(c.operands, c.noSanitize, br, b)
    {
      LeadsJoin(c.operands, c.noSanitize, br, x, b);
    }
  }

  ghost predicate Acyclic(next: Chains, ok: set<int>) {
    forall i, j :: Leads(next, ok, i, j) ==> !Edge(next, j, i)
  }

  lemma ChainPart(next: Chains, ok: set<int>, p: seq<int>, k: nat)
    requires IsChain(next, ok, p) && k < |p|
    ensures Leads(next, ok, p[k], p[|p| - 1])
  {
    assert ChainBetween(next, ok, p[k], p[|p| - 1], p[k..]);
  }

  /** Follows inserted operands down from `x`; without a cycle this ends, at a boundary. */
  lemma {:induction false} DownToBoundary(c: Code, x: int, p: seq<int>)
    requires WellFormed(c) && Acyclic(c.operands, c.noSanitize)
    requires IsChain(c.operands, c.noSanitize, p) && p[0] == x
    ensures HasBoundary(c, x)
    decreases c.noSanitize - set i | i in p
  {
    var last := p[|p| - 1];
    if IsBoundary(c, last) {
      assert ChainBetween(c.operands, c.noSanitize, x, last, p);
    } else {
      var j :| j in c.operands[last] && j in c.operands && j in c.noSanitize;
      assert Edge(c.operands, last, j);
      if j in p {
        var k :| 0 <= k < |p| && p[k] == j;
        ChainPart(c.operands, c.noSanitize, p, k);
        assert false;
      }
      assert j in c.noSanitize - (set i | i in p);
      DownToBoundary(c, x, p + [j]);
    }
  }

  /** With no cycle of inserted instructions, everything accepted on the way back is marked, the
      branch included. */
  lemma AcyclicMarksAll(c: Code, br: int, x: int)
    requires WellFormed(c) && Acyclic(c.operands, c.noSanitize)
    requires Leads(c.operands, c.noSanitize, br, x)
    ensures BelongsToCheck(c, br, x)
  {
    var p :| ChainBetween(c.operands, c.noSanitize, br, x, p);
    DownToBoundary(c, x, [x]);
    AcceptedIsMarked(c, br, x);
  }

  /** A checked addition: 2 adds, 3 takes its overflow flag, 4 branches on it to the report 6, 7;
      8 takes the sum, which the program uses in 9. */
  function CheckedAddition(): Code {
    Code(map[2 := [0, 1], 3 := [2], 4 := [3], 6 := [], 7 := [], 8 := [2], 9 := [8]],
         map[2 := [3, 8], 3 := [4], 4 := [], 6 := [], 7 := [], 8 := [9], 9 := []],
         {2, 3, 4, 6, 7, 8}, {4, 7}, {6})
  }

  function CheckedAdditionBlocks(): seq<Block> {
    [Block([2, 3, 4], []), Block([6, 7], [0]), Block([8, 9], [0, 1])]
  }

  lemma AdditionEdges(i: int, j: int)
    ensures var c := CheckedAddition();
            && (Edge(c.operands, i, j) <==> (i, j) in {(3, 2), (4, 3), (8, 2), (9, 8)})
            && (Edge(c.users, j, i) <==> (i, j) in {(3, 2), (4, 3), (8, 2), (9, 8)})
  {
  }

  lemma AdditionIsWellFormed()
    ensures WellFormed(CheckedAddition()) && BlocksOf(CheckedAddition(), CheckedAdditionBlocks())
  {
    forall i, j
      ensures Edge(CheckedAddition().operands, i, j) <==> Edge(CheckedAddition().users, j, i)
    {
      AdditionEdges(i, j);
    }
    hide Edge;
  }

  lemma AdditionRests(x: int)
    requires x in {2, 3, 4, 8}
    ensures var c := CheckedAddition(); Leads(c.operands, c.noSanitize, x, 2)
  {
    var c := CheckedAddition();
    AdditionEdges(3, 2);
    AdditionEdges(4, 3);
    AdditionEdges(8, 2);
    hide Leads;
    LeadsToItself(c.operands, c.noSanitize, x);
    if x == 3 || x == 8 {
      LeadsOn(c.operands, c.noSanitize, x, x, 2);
    } else if x == 4 {
      LeadsOn(c.operands, c.noSanitize, 4, 4, 3);
      LeadsOn(c.operands, c.noSanitize, 4, 3, 2);
    }
  }

  lemma AdditionMarks(x: int)
    requires x in {2, 3, 4, 6, 7, 8} && BlocksOf(CheckedAddition(), CheckedAdditionBlocks())
    ensures MarkedFor(CheckedAddition(), CheckedAdditionBlocks(), Block([6, 7], [0]), x)
  {
    var c, blocks := CheckedAddition(), CheckedAdditionBlocks();
    var report := Block([6, 7], [0]);
    assert report == blocks[1] && 6 in report.insts && 2 in c.operands;
    AdditionIsWellFormed();
    if x in {2, 3, 4, 8} {
      AdditionRests(x);
      AdditionRests(4);
    }
    hide WellFormed;
    hide Leads;
    MarkedInPlainTerms(c, blocks, report, 0, x);
  }

  lemma AdditionMarksOnly(b: Block, x: int)
    requires BlocksOf(CheckedAddition(), CheckedAdditionBlocks()) && b in CheckedAdditionBlocks()
    requires MarkedFor(CheckedAddition(), CheckedAdditionBlocks(), b, x)
    ensures x in {2, 3, 4, 6, 7, 8}
  {
    OneEdgeIn(CheckedAddition(), CheckedAdditionBlocks(), b, x);
    OnlyInsertedOutside(CheckedAddition(), CheckedAdditionBlocks(), b, x);
    hide MarkedFor;
  }

  /** Of a checked addition the pass marks the addition, both its uses, the branch and the report,
      and not the program's use of the sum. */
  lemma CheckedAdditionIsMarked(x: int)
    ensures BlocksOf(CheckedAddition(), CheckedAdditionBlocks())
    ensures (exists b :: b in CheckedAdditionBlocks() && MarkedFor(CheckedAddition(), CheckedAdditionBlocks(), b, x))
            <==> x in {2, 3, 4, 6, 7, 8}
  {
    AdditionIsWellFormed();
    hide MarkedFor;
    if x in {2, 3, 4, 6, 7, 8} {
      AdditionMarks(x);
      assert CheckedAdditionBlocks()[1] == Block([6, 7], [0]);
    }
    forall b | b in CheckedAdditionBlocks() && MarkedFor(CheckedAddition(), CheckedAdditionBlocks(), b, x)
      ensures x in {2, 3, 4, 6, 7, 8}
    {
      AdditionMarksOnly(b, x);
    }
  }

  /** With one, not even the branch may be: branch 0 tests value 1, which uses itself. */
  lemma CycleMarksNothing() returns (c: Code)
    ensures WellFormed(c) && 0 in c.branches && 0 in c.noSanitize
    ensures !BelongsToCheck(c, 0, 0) && !BelongsToCheck(c, 0, 1)
  {
    c := Code(map[0 := [1], 1 := [1]], map[0 := [], 1 := [0, 1]], {0, 1}, {0}, {});
    assert 1 in c.operands[0] && 1 in c.operands[1];
    assert !IsBoundary(c, 0) && !IsBoundary(c, 1);
    assert forall b :: !IsBoundary(c, b);
  }
}
