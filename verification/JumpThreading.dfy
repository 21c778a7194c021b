/** Removal of basic blocks that hold nothing but a jump: their predecessors jump to the target instead. */
module JumpThreading {

  datatype Terminator =
    | NoJump
    | Jmp(target: nat)
    | CondJmp(cond: nat, trueBB: nat, falseBB: nat)
    | Ret

  /** The instructions before the jump are only named; preds lists one entry for each edge into the block. */
  datatype BBlock = BBlock(body: seq<nat>, term: Terminator, preds: seq<nat>) {
    function NumInstrs(): nat { |body| + (if term.NoJump? then 0 else 1) }
    predicate JumpOnly() { body == [] && term.Jmp? }
  }

  type Graph = seq<BBlock>

  // ---- what a graph does ----

  /** Which way a conditional jump goes may depend on everything executed before it. */
  type Oracle = (seq<nat>, nat) -> bool

  datatype Status = Running | Returned | Stuck

  datatype Observation = Observation(trace: seq<nat>, status: Status)

  function Successor(term: Terminator, trace: seq<nat>, oracle: Oracle): nat
    requires term.Jmp? || term.CondJmp?
  {
    match term
    case Jmp(t) => t
    case CondJmp(c, t, f) => if oracle(trace, c) then t else f
  }

  /** The instructions executed in n blocks from block b on. */
  function Exec(g: Graph, b: nat, trace: seq<nat>, oracle: Oracle, n: nat): Observation
    decreases n
  {
    if n == 0 then Observation(trace, Running)
    else if b >= |g| then Observation(trace, Stuck)
    else
      var tr := trace + g[b].body;
      match g[b].term
      case NoJump => Observation(tr, Stuck)
      case Ret => Observation(tr, Returned)
      case _ => Exec(g, Successor(g[b].term, tr, oracle), tr, oracle, n - 1)
  }

  /** Everything that can be observed of g from start can be observed of h, for every oracle. */
  ghost predicate Simulates(g: Graph, h: Graph, start: nat) {
    forall oracle: Oracle, n: nat :: Matched(g, h, start, oracle, n)
  }

  ghost predicate Matched(g: Graph, h: Graph, start: nat, oracle: Oracle, n: nat) {
    exists m: nat :: Exec(h, start, [], oracle, m) == Exec(g, start, [], oracle, n)
  }

  ghost predicate SameRuns(g: Graph, h: Graph, start: nat) {
    Simulates(g, h, start) && Simulates(h, g, start)
  }

  lemma SameRunsRefl(g: Graph, start: nat)
    ensures SameRuns(g, g, start)
  {
    forall oracle: Oracle, n: nat ensures Matched(g, g, start, oracle, n) {
      assert Exec(g, start, [], oracle, n) == Exec(g, start, [], oracle, n);
    }
  }

  lemma SimulatesTrans(f: Graph, g: Graph, h: Graph, start: nat)
    requires Simulates(f, g, start) && Simulates(g, h, start)
    ensures Simulates(f, h, start)
  {
    forall oracle: Oracle, n: nat ensures Matched(f, h, start, oracle, n) {
      assert Matched(f, g, start, oracle, n);
      var m: nat :| Exec(g, start, [], oracle, m) == Exec(f, start, [], oracle, n);
      assert Matched(g, h, start, oracle, m);
    }
  }

  // ---- the graph invariant ----

  function EdgeCount(term: Terminator, t: nat): nat {
    match term
    case Jmp(u) => if u == t then 1 else 0
    case CondJmp(_, u, v) => (if u == t then 1 else 0) + (if v == t then 1 else 0)
    case _ => 0
  }

  /** The predecessor lists are, as multisets, the inverse of the successor relation on the live blocks. */
  ghost predicate PredsInverse(g: Graph, live: set<nat>) {
    forall t: nat, b: nat :: t in live && t < |g| ==>
      multiset(g[t].preds)[b] == if b in live && b < |g| then EdgeCount(g[b].term, t) else 0
  }

  /** A jump of a live block leads to a live block that is not empty. */
  ghost predicate EdgeStays(g: Graph, live: set<nat>, b: nat, t: nat) {
    b in live && b < |g| && EdgeCount(g[b].term, t) > 0 ==> t in live && t < |g| && g[t].NumInstrs() > 0
  }

  ghost predicate Closed(g: Graph, live: set<nat>) {
    forall b: nat, t: nat {:trigger EdgeCount(g[b].term, t)} {:trigger EdgeStays(g, live, b, t)} ::
      EdgeStays(g, live, b, t)
  }

  /** What holds of the graph throughout the pass, whatever it does. */
  ghost predicate Sane(g: Graph, live: set<nat>, start: nat) {
    (forall b :: b in live ==> b < |g|) &&
    (forall b: nat, t: nat :: b in live && b < |g| && EdgeCount(g[b].term, t) > 0 ==> t < |g|) &&
    start in live && g[start].preds == [] && g[start].NumInstrs() > 0 && PredsInverse(g, live)
  }

  // ---- what the pass leaves alone ----

  predicate FallsThroughTo(term: Terminator, bb: nat) { term.CondJmp? && term.falseBB == bb }

  /** The pass does not remove the block: it is not only a jump, or has no predecessors, or one that
      falls through to it. */
  predicate Kept(g: Graph, b: nat)
    requires b < |g|
  {
    !g[b].JumpOnly() || g[b].preds == [] || exists p :: p in g[b].preds && p < |g| && FallsThroughTo(g[p].term, b)
  }

  /** Within n jumps from t there is a block that the pass does not remove. */
  predicate Escapes(g: Graph, t: nat, n: nat)
    decreases n
  {
    t < |g| && (Kept(g, t) || (n > 0 && Escapes(g, g[t].term.target, n - 1)))
  }

  /** The jumps from t on meet only blocks that the pass removes; so they run into a cycle. */
  ghost predicate Trapped(g: Graph, t: nat) { forall n: nat :: !Escapes(g, t, n) }

  /** Every cycle of blocks that the pass removes is cut off: its blocks have no predecessor but the one
      on the cycle. */
  ghost predicate CyclesCutOff(g: Graph, live: set<nat>) {
    forall t: nat :: t in live && t < |g| && Trapped(g, t) ==> |g[t].preds| == 1
  }

  /** Some live block jumps to a block that is gone. */
  ghost predicate Broken(g: Graph, live: set<nat>) {
    exists p: nat, t: nat :: p in live && p < |g| && EdgeCount(g[p].term, t) > 0 && t !in live
  }

  // ---- taking one block out ----

  function Retarget(term: Terminator, bb: nat, target: nat): Terminator {
    match term
    case Jmp(t) => if t == bb then Jmp(target) else term
    case CondJmp(c, t, f) => if t == bb then CondJmp(c, target, f) else term
    case _ => term
  }

  /** h is g with every predecessor of bb jumping to bb's target instead. */
  ghost predicate Threaded(g: Graph, h: Graph, bb: nat)
    requires bb < |g| && g[bb].term.Jmp?
  {
    var target := g[bb].term.target;
    |h| == |g| && target < |g| &&
    (forall b :: 0 <= b < |g| ==> h[b].body == g[b].body) &&
    (forall b :: 0 <= b < |g| ==>
      h[b].term == if b in g[bb].preds then Retarget(g[b].term, bb, target) else g[b].term) &&
    (forall b :: 0 <= b < |g| && b != target ==> h[b].preds == g[b].preds) &&
    |h[target].preds| + 1 == |g[target].preds| + |g[bb].preds| &&
    (bb in g[target].preds ==>
      multiset(h[target].preds) == multiset(g[target].preds) + multiset(g[bb].preds) - multiset{bb})
  }

  /** One step of the two graphs from a block that stays: the same block next, or bb in the old one and
      its target in the new. */
  lemma ThreadedStep(g: Graph, h: Graph, live: set<nat>, bb: nat, b: nat, tr: seq<nat>, oracle: Oracle)
    requires bb < |g| && g[bb].JumpOnly() && Threaded(g, h, bb)
    requires PredsInverse(g, live) && Closed(g, live) && bb in live && b in live && b < |g| && b != bb
    requires forall p :: p in g[bb].preds ==> p < |g| && !FallsThroughTo(g[p].term, bb)
    requires g[b].term.Jmp? || g[b].term.CondJmp?
    ensures var u := Successor(g[b].term, tr, oracle);
            u in live && u < |g| && (h[b].term.Jmp? || h[b].term.CondJmp?) &&
            Successor(h[b].term, tr, oracle) == if u == bb then g[bb].term.target else u
  {
    var u := Successor(g[b].term, tr, oracle);
    assert EdgeCount(g[b].term, u) > 0;
    assert multiset(g[bb].preds)[b] == EdgeCount(g[b].term, bb);
  }

  lemma ThreadedParts(g: Graph, h: Graph, live: set<nat>, bb: nat, b: nat)
    requires bb < |g| && g[bb].JumpOnly() && Threaded(g, h, bb) && PredsInverse(g, live) && Closed(g, live)
    requires bb in live && b < |g|
    ensures |h| == |g| && h[b].body == g[b].body && (h[b].term.Ret? <==> g[b].term.Ret?) &&
      (h[b].term.NoJump? <==> g[b].term.NoJump?)
    ensures g[bb].body == [] && g[bb].term.target in live && g[bb].term.target < |g|
  {
    assert EdgeCount(g[bb].term, g[bb].term.target) > 0;
  }

  /** Backward: what the threaded graph does, the old one does, taking the extra jump when it must. */
  lemma {:induction false} ThreadedBackward(g: Graph, h: Graph, live: set<nat>, bb: nat, b: nat, trace: seq<nat>,
                                            oracle: Oracle, n: nat)
    returns (m: nat)
    requires bb < |g| && g[bb].JumpOnly() && Threaded(g, h, bb)
    requires PredsInverse(g, live) && Closed(g, live)
    requires bb in live && b in live && b < |g| && b != bb && g[bb].term.target != bb
    requires forall p :: p in g[bb].preds ==> p < |g| && !FallsThroughTo(g[p].term, bb)
    ensures Exec(g, b, trace, oracle, m) == Exec(h, b, trace, oracle, n)
    decreases n
  {
    hide PredsInverse, Closed, Threaded, FallsThroughTo;
    m := n;
    ThreadedParts(g, h, live, bb, b);
    if n > 0 && (g[b].term.Jmp? || g[b].term.CondJmp?) {
      var tr := trace + g[b].body;
      ThreadedStep(g, h, live, bb, b, tr, oracle);
      var u := Successor(g[b].term, tr, oracle);
      if u == bb {
        var target := g[bb].term.target;
        var k := ThreadedBackward(g, h, live, bb, target, tr, oracle, n - 1);
        assert tr + g[bb].body == tr;
        assert Exec(g, bb, tr, oracle, k + 1) == Exec(g, target, tr, oracle, k);
        m := k + 2;
      } else {
        var k := ThreadedBackward(g, h, live, bb, u, tr, oracle, n - 1);
        m := k + 1;
      }
    }
  }

  /** Forward: what the old graph does, the threaded one does, with fewer steps at most. */
  lemma {:induction false} ThreadedForward(g: Graph, h: Graph, live: set<nat>, bb: nat, b: nat, trace: seq<nat>,
                                           oracle: Oracle, n: nat)
    returns (m: nat)
    requires bb < |g| && g[bb].JumpOnly() && Threaded(g, h, bb)
    requires PredsInverse(g, live) && Closed(g, live)
    requires bb in live && b in live && b < |g| && g[bb].term.target != bb
    requires forall p :: p in g[bb].preds ==> p < |g| && !FallsThroughTo(g[p].term, bb)
    ensures Exec(h, if b == bb then g[bb].term.target else b, trace, oracle, m) == Exec(g, b, trace, oracle, n)
    decreases n
  {
    hide PredsInverse, Closed, Threaded, FallsThroughTo;
    m := n;
    ThreadedParts(g, h, live, bb, b);
    if n > 0 && b == bb {
      assert trace + g[bb].body == trace;
      m := ThreadedForward(g, h, live, bb, g[bb].term.target, trace, oracle, n - 1);
    } else if n > 0 && (g[b].term.Jmp? || g[b].term.CondJmp?) {
      var tr := trace + g[b].body;
      ThreadedStep(g, h, live, bb, b, tr, oracle);
      var k := ThreadedForward(g, h, live, bb, Successor(g[b].term, tr, oracle), tr, oracle, n - 1);
      m := k + 1;
    }
  }

  lemma {:induction false} ThreadedSameRuns(g: Graph, h: Graph, live: set<nat>, bb: nat, start: nat)
    requires bb < |g| && g[bb].JumpOnly() && Threaded(g, h, bb)
    requires PredsInverse(g, live) && Closed(g, live)
    requires bb in live && start in live && start < |g| && start != bb && g[bb].term.target != bb
    requires forall p :: p in g[bb].preds ==> p < |g| && !FallsThroughTo(g[p].term, bb)
    ensures SameRuns(g, h, start)
  {
    forall oracle: Oracle, n: nat ensures Matched(g, h, start, oracle, n) {
      var m := ThreadedForward(g, h, live, bb, start, [], oracle, n);
    }
    forall oracle: Oracle, n: nat ensures Matched(h, g, start, oracle, n) {
      var m := ThreadedBackward(g, h, live, bb, start, [], oracle, n);
    }
  }

  /** Where the jumps of the other blocks lead afterwards. */
  lemma ThreadedEdges(g: Graph, h: Graph, live: set<nat>, bb: nat, b: nat, t: nat)
    requires bb < |g| && g[bb].JumpOnly() && Threaded(g, h, bb) && PredsInverse(g, live)
    requires forall p :: p in g[bb].preds ==> p < |g| && !FallsThroughTo(g[p].term, bb)
    requires bb in live && b in live && b < |g| && b != bb && (t != bb || g[bb].term.target != bb)
    ensures var target := g[bb].term.target;
      EdgeCount(h[b].term, t) ==
        if t == bb then 0
        else if t == target then EdgeCount(g[b].term, target) + EdgeCount(g[b].term, bb)
        else EdgeCount(g[b].term, t)
    ensures b in g[bb].preds <==> EdgeCount(g[b].term, bb) > 0
  {
    assert multiset(g[bb].preds)[b] == EdgeCount(g[b].term, bb);
    assert b in g[bb].preds <==> multiset(g[bb].preds)[b] > 0;
  }

  lemma ThreadedPreds(g: Graph, h: Graph, live: set<nat>, bb: nat)
    requires bb < |g| && g[bb].JumpOnly() && Threaded(g, h, bb) && PredsInverse(g, live)
    requires forall p :: p in g[bb].preds ==> p < |g| && !FallsThroughTo(g[p].term, bb)
    requires bb in live && forall b :: b in live ==> b < |g|
    ensures PredsInverse(h, live - {bb})
  {
    hide Threaded, FallsThroughTo;
    var live' := live - {bb};
    ThreadedSize(g, h, bb);
    forall t: nat, b: nat | t in live' && t < |h|
      ensures multiset(h[t].preds)[b] == if b in live' && b < |h| then EdgeCount(h[b].term, t) else 0
    {
      ThreadedPredsAt(g, h, live, bb, t, b);
    }
  }

  lemma ThreadedSize(g: Graph, h: Graph, bb: nat)
    requires bb < |g| && g[bb].term.Jmp? && Threaded(g, h, bb)
    ensures |h| == |g|
  {
  }

  lemma ThreadedPredsAt(g: Graph, h: Graph, live: set<nat>, bb: nat, t: nat, b: nat)
    requires bb < |g| && g[bb].JumpOnly() && Threaded(g, h, bb) && PredsInverse(g, live)
    requires forall p :: p in g[bb].preds ==> p < |g| && !FallsThroughTo(g[p].term, bb)
    requires bb in live && (forall b :: b in live ==> b < |g|) && t in live - {bb} && t < |h|
    ensures multiset(h[t].preds)[b] == if b in live - {bb} && b < |h| then EdgeCount(h[b].term, t) else 0
  {
    assert multiset(g[t].preds)[b] == if b in live && b < |g| then EdgeCount(g[b].term, t) else 0;
    assert multiset(g[t].preds)[bb] == EdgeCount(g[bb].term, t);
    assert multiset(g[bb].preds)[b] == if b in live && b < |g| then EdgeCount(g[b].term, bb) else 0;
    if b in live && b != bb {
      ThreadedEdges(g, h, live, bb, b, t);
    }
  }

  lemma ThreadedClosed(g: Graph, h: Graph, live: set<nat>, bb: nat)
    requires bb < |g| && g[bb].JumpOnly() && Threaded(g, h, bb) && PredsInverse(g, live) && g[bb].term.target != bb
    requires forall p :: p in g[bb].preds ==> p < |g| && !FallsThroughTo(g[p].term, bb)
    requires bb in live && Closed(g, live)
    ensures Closed(h, live - {bb})
  {
    hide PredsInverse, Threaded, FallsThroughTo, EdgeCount;
    forall b: nat, t: nat ensures EdgeStays(h, live - {bb}, b, t) {
      if b in live - {bb} && b < |h| && EdgeCount(h[b].term, t) > 0 {
        ThreadedClosedAt(g, h, live, bb, b, t);
      }
    }
  }

  lemma ThreadedClosedAt(g: Graph, h: Graph, live: set<nat>, bb: nat, b: nat, t: nat)
    requires bb < |g| && g[bb].JumpOnly() && Threaded(g, h, bb) && PredsInverse(g, live) && g[bb].term.target != bb
    requires forall p :: p in g[bb].preds ==> p < |g| && !FallsThroughTo(g[p].term, bb)
    requires bb in live && Closed(g, live) && b in live - {bb} && b < |h| && EdgeCount(h[b].term, t) > 0
    ensures t in live - {bb} && t < |h| && h[t].NumInstrs() > 0
  {
    hide PredsInverse;
    var target := g[bb].term.target;
    assert EdgeCount(g[bb].term, target) == 1;
    ThreadedEdges(g, h, live, bb, b, t);
    if t != target { assert EdgeCount(g[b].term, t) > 0; }
    assert t in live && t < |g| && g[t].NumInstrs() > 0;
    assert h[t].term.NoJump? <==> g[t].term.NoJump?;
  }

  // ---- redirecting the predecessors ----

  /** The first k predecessors jump to the target, and are listed there. */
  ghost predicate Redirected(g: Graph, h: Graph, bb: nat, target: nat, preds: seq<nat>, k: nat)
    requires k <= |preds| && target < |g|
  {
    |h| == |g| &&
    (forall b :: 0 <= b < |g| ==> h[b].body == g[b].body) &&
    (forall b :: 0 <= b < |g| ==>
      h[b].term == if b in preds[..k] then Retarget(g[b].term, bb, target) else g[b].term) &&
    (forall b :: 0 <= b < |g| && b != target ==> h[b].preds == g[b].preds) &&
    h[target].preds == g[target].preds + preds[..k]
  }

  lemma RedirectStart(g: Graph, bb: nat, target: nat, preds: seq<nat>)
    requires target < |g|
    ensures Redirected(g, g, bb, target, preds, 0)
  {
  }

  lemma RedirectStep(g: Graph, h: Graph, bb: nat, target: nat, preds: seq<nat>, k: nat)
    requires k < |preds| && target < |g| && Redirected(g, h, bb, target, preds, k)
    requires forall i, j :: 0 <= i < j < |preds| ==> preds[i] != preds[j]
    requires preds[k] < |g| && EdgeCount(g[preds[k]].term, bb) == 1 && !FallsThroughTo(g[preds[k]].term, bb)
    ensures |h| == |g| && h[preds[k]].term == g[preds[k]].term && (h[preds[k]].term.Jmp? || h[preds[k]].term.CondJmp?)
    ensures var p := preds[k];
      var h1 := h[p := h[p].(term := if h[p].term.Jmp? then Jmp(target) else h[p].term.(trueBB := target))];
      Redirected(g, h1[target := h1[target].(preds := h1[target].preds + [p])], bb, target, preds, k + 1)
  {
    var p := preds[k];
    assert p !in preds[..k] && preds[..k + 1] == preds[..k] + [p];
  }

  lemma RedirectEnd(g: Graph, h: Graph, bb: nat, target: nat, preds: seq<nat>)
    requires target < |g| && Redirected(g, h, bb, target, preds, |preds|)
    ensures |h| == |g| && (forall b :: 0 <= b < |g| ==> h[b].body == g[b].body)
    ensures forall b :: 0 <= b < |g| ==> h[b].term == if b in preds then Retarget(g[b].term, bb, target) else g[b].term
    ensures forall b :: 0 <= b < |g| && b != target ==> h[b].preds == g[b].preds
    ensures h[target].preds == g[target].preds + preds
  {
    assert preds[..|preds|] == preds;
  }

  // ---- what threading keeps ----

  /** All other live blocks are kept by the rest of the pass exactly if they were. */
  lemma KeptStays(g: Graph, h: Graph, live: set<nat>, bb: nat, start: nat, b: nat)
    requires bb < |g| && Threadable(g, live, bb, start) && Threaded(g, h, bb) && b in live - {bb} && b < |g|
    ensures |h| == |g| && (Kept(h, b) <==> Kept(g, b)) && (h[b].JumpOnly() <==> g[b].JumpOnly()) &&
      h[b].NumInstrs() == g[b].NumInstrs()
    ensures |h[b].preds| == if b == g[bb].term.target then |g[b].preds| + |g[bb].preds| - 1 else |g[b].preds|
  {
    var target := g[bb].term.target;
    forall p: nat | p < |g| ensures FallsThroughTo(h[p].term, b) <==> FallsThroughTo(g[p].term, b) {}
    if b == target {
      assert multiset(g[target].preds)[bb] == EdgeCount(g[bb].term, target) == 1;
      forall p: nat | p < |g| && FallsThroughTo(g[p].term, b) ensures p in h[b].preds <==> p in g[b].preds {
        assert p in h[b].preds <==> multiset(h[b].preds)[p] > 0;
        assert p in g[b].preds <==> multiset(g[b].preds)[p] > 0;
        assert p in g[bb].preds <==> multiset(g[bb].preds)[p] > 0;
        assert multiset(g[bb].preds)[p] == if p in live then EdgeCount(g[p].term, bb) else 0;
        assert multiset(g[b].preds)[p] == if p in live then EdgeCount(g[p].term, b) else 0;
      }
    }
  }

  /** A block the pass removes. */
  ghost predicate Threadable(g: Graph, live: set<nat>, bb: nat, start: nat)
    requires bb < |g|
  {
    Sane(g, live, start) && bb in live && g[bb].JumpOnly() && g[bb].preds != [] && bb != start &&
      g[bb].term.target != start &&
    forall p :: p in g[bb].preds ==> p < |g| && p in live && !FallsThroughTo(g[p].term, bb)
  }

  lemma RetargetEdge(term: Terminator, bb: nat, target: nat, t: nat)
    ensures EdgeCount(Retarget(term, bb, target), t) > 0 ==> t == target || EdgeCount(term, t) > 0
  {
  }

  /** The invariant of every step. */
  lemma ThreadedSane(g: Graph, h: Graph, live: set<nat>, bb: nat, start: nat)
    requires bb < |g| && Threadable(g, live, bb, start) && Threaded(g, h, bb)
    ensures Sane(h, live - {bb}, start)
  {
    ThreadedPreds(g, h, live, bb);
    assert EdgeCount(g[bb].term, g[bb].term.target) == 1;
    hide PredsInverse;
    forall b: nat, t: nat | b in live - {bb} && b < |h| && EdgeCount(h[b].term, t) > 0 ensures t < |h| {
      RetargetEdge(g[b].term, bb, g[bb].term.target, t);
    }
  }

  /** Once a jump leads to a block that is gone, one always does. */
  lemma BrokenStays(g: Graph, h: Graph, live: set<nat>, bb: nat, start: nat)
    requires bb < |g| && Threadable(g, live, bb, start) && Threaded(g, h, bb) && Broken(g, live)
    ensures Broken(h, live - {bb})
  {
    var p: nat, t: nat :| p in live && p < |g| && EdgeCount(g[p].term, t) > 0 && t !in live;
    var q := if p == bb then g[bb].preds[0] else p;
    BrokenEdge(g, h, live, bb, start, p, q, t);
    hide Threaded, Threadable, EdgeCount;
    assert q in live - {bb} && t !in live - {bb};
  }

  lemma BrokenEdge(g: Graph, h: Graph, live: set<nat>, bb: nat, start: nat, p: nat, q: nat, t: nat)
    requires bb < |g| && Threadable(g, live, bb, start) && Threaded(g, h, bb)
    requires p in live && p < |g| && EdgeCount(g[p].term, t) > 0 && t !in live
    requires q == if p == bb then g[bb].preds[0] else p
    ensures q in live - {bb} && q < |h| && EdgeCount(h[q].term, t) > 0
  {
    ThreadedSize(g, h, bb);
    if p == bb { PredHasEdge(g, live, bb, q); }
    hide PredsInverse;
    ThreadedEdges(g, h, live, bb, q, t);
  }

  lemma PredHasEdge(g: Graph, live: set<nat>, bb: nat, q: nat)
    requires PredsInverse(g, live) && bb in live && bb < |g| && q in g[bb].preds
    ensures q in live && q < |g| && EdgeCount(g[q].term, bb) > 0
  {
    assert multiset(g[bb].preds)[q] > 0;
    assert multiset(g[bb].preds)[q] == if q in live && q < |g| then EdgeCount(g[q].term, bb) else 0;
  }

  /** With all jumps inside and another target than itself, the jumps stay inside, and which blocks
      escape does not change. */
  lemma {:induction false} EscapesOn(g: Graph, h: Graph, live: set<nat>, bb: nat, start: nat, t: nat, n: nat)
    requires bb < |g| && Threadable(g, live, bb, start) && Threaded(g, h, bb) && Closed(g, live)
    requires t in live && Escapes(g, t, n) && g[bb].term.target != bb && !Kept(g, bb)
    ensures Escapes(h, if t == bb then g[bb].term.target else t, n)
    decreases n
  {
    var target := g[bb].term.target;
    if t == bb {
      assert EdgeCount(g[bb].term, target) > 0;
      EscapesOn(g, h, live, bb, start, target, n - 1);
      EscapesLonger(h, target, n - 1, n);
    } else {
      KeptStays(g, h, live, bb, start, t);
      if !Kept(g, t) {
        var u := g[t].term.target;
        assert EdgeCount(g[t].term, u) > 0;
        EscapesOn(g, h, live, bb, start, u, n - 1);
        PredIsListed(g, live, t, bb);
      }
    }
  }

  lemma PredIsListed(g: Graph, live: set<nat>, p: nat, b: nat)
    requires PredsInverse(g, live) && p in live && p < |g| && b in live && b < |g|
    ensures p in g[b].preds <==> EdgeCount(g[p].term, b) > 0
  {
    assert p in g[b].preds <==> multiset(g[b].preds)[p] > 0;
  }

  lemma {:induction false} EscapesLonger(g: Graph, t: nat, n: nat, m: nat)
    requires Escapes(g, t, n) && n <= m
    ensures Escapes(g, t, m)
    decreases n
  {
    if !Kept(g, t) { EscapesLonger(g, g[t].term.target, n - 1, m - 1); }
  }

  lemma {:induction false} EscapesBack(g: Graph, h: Graph, live: set<nat>, bb: nat, start: nat, t: nat, n: nat)
    requires bb < |g| && Threadable(g, live, bb, start) && Threaded(g, h, bb) && Closed(g, live)
    requires t in live - {bb} && Escapes(h, t, n) && g[bb].term.target != bb
    ensures Escapes(g, t, 2 * n)
    decreases n
  {
    hide Kept, Threaded, Threadable, Closed, Escapes;
    BackHere(g, h, live, bb, start, t, n);
    if !Kept(g, t) {
      var v := BackNext(g, h, live, bb, start, t, n);
      EscapesBack(g, h, live, bb, start, v, n - 1);
      BackFrom(g, h, live, bb, start, t, v, n);
    }
  }

  lemma BackHere(g: Graph, h: Graph, live: set<nat>, bb: nat, start: nat, t: nat, n: nat)
    requires bb < |g| && Threadable(g, live, bb, start) && Threaded(g, h, bb) && t in live - {bb} && Escapes(h, t, n)
    ensures t < |g| == |h| && (Kept(h, t) <==> Kept(g, t)) && (Kept(g, t) ==> Escapes(g, t, 2 * n))
  {
    ThreadedSize(g, h, bb);
    KeptStays(g, h, live, bb, start, t);
  }

  lemma BackNext(g: Graph, h: Graph, live: set<nat>, bb: nat, start: nat, t: nat, n: nat) returns (v: nat)
    requires bb < |g| && Threadable(g, live, bb, start) && Threaded(g, h, bb) && Closed(g, live) &&
      g[bb].term.target != bb
    requires t in live - {bb} && Escapes(h, t, n) && t < |g| == |h| && !Kept(g, t) && !Kept(h, t)
    ensures n > 0 && v in live - {bb} && Escapes(h, v, n - 1)
    ensures g[t].term.Jmp? && v == if g[t].term.target == bb then g[bb].term.target else g[t].term.target
  {
    assert g[bb].JumpOnly();
    NotKept(g, t);
    NextJump(g, h, live, bb, start, t);
    v := h[t].term.target;
  }

  lemma BackFrom(g: Graph, h: Graph, live: set<nat>, bb: nat, start: nat, t: nat, v: nat, n: nat)
    requires bb < |g| && Threadable(g, live, bb, start) && n > 0 && t < |g| && !Kept(g, t) && g[t].term.Jmp?
    requires v == if g[t].term.target == bb then g[bb].term.target else g[t].term.target
    requires Escapes(g, v, 2 * (n - 1))
    ensures Escapes(g, t, 2 * n)
  {
    if g[t].term.target == bb {
      assert Escapes(g, bb, 2 * n - 1);
    } else {
      EscapesLonger(g, v, 2 * n - 2, 2 * n - 1);
    }
  }

  lemma NotKept(g: Graph, b: nat)
    requires b < |g| && !Kept(g, b)
    ensures g[b].JumpOnly()
  {
  }

  /** Where a block that only jumps leads afterwards. */
  lemma NextJump(g: Graph, h: Graph, live: set<nat>, bb: nat, start: nat, t: nat)
    requires bb < |g| && Threadable(g, live, bb, start) && Threaded(g, h, bb) && Closed(g, live)
    requires t in live - {bb} && t < |g| && g[t].JumpOnly() && g[bb].term.target != bb
    ensures var u := g[t].term.target;
      var v := if u == bb then g[bb].term.target else u;
      h[t].term.Jmp? && h[t].term.target == v && v in live - {bb}
  {
    assert EdgeCount(g[bb].term, g[bb].term.target) > 0 && EdgeCount(g[t].term, g[t].term.target) > 0;
    PredIsListed(g, live, t, bb);
  }

  lemma TrappedSame(g: Graph, h: Graph, live: set<nat>, bb: nat, start: nat, t: nat)
    requires bb < |g| && Threadable(g, live, bb, start) && Threaded(g, h, bb) && Closed(g, live)
    requires t in live - {bb} && g[bb].term.target != bb && !Kept(g, bb)
    ensures Trapped(h, t) <==> Trapped(g, t)
  {
    hide Threaded, Threadable, Closed, Kept, Escapes;
    if !Trapped(g, t) {
      var n: nat :| Escapes(g, t, n);
      EscapesOn(g, h, live, bb, start, t, n);
    }
    if !Trapped(h, t) {
      var n: nat :| Escapes(h, t, n);
      EscapesBack(g, h, live, bb, start, t, n);
    }
  }

  /** A removed block is trapped exactly if its target is. */
  lemma TrappedTarget(g: Graph, bb: nat)
    requires bb < |g| && !Kept(g, bb)
    ensures Trapped(g, bb) <==> Trapped(g, g[bb].term.target)
  {
    var target := g[bb].term.target;
    if !Trapped(g, bb) {
      var n: nat :| Escapes(g, bb, n);
      assert Escapes(g, target, n - 1);
    }
    if !Trapped(g, target) {
      var n: nat :| Escapes(g, target, n);
      assert Escapes(g, bb, n + 1);
    }
  }

  /** Cycles are cut off afterwards exactly if they were. */
  lemma CutOffSame(g: Graph, h: Graph, live: set<nat>, bb: nat, start: nat)
    requires bb < |g| && Threadable(g, live, bb, start) && Threaded(g, h, bb) && Closed(g, live)
    requires g[bb].term.target != bb && !Kept(g, bb)
    ensures CyclesCutOff(h, live - {bb}) <==> CyclesCutOff(g, live)
  {
    var target := g[bb].term.target;
    assert EdgeCount(g[bb].term, target) > 0;
    PredIsListed(g, live, bb, target);
    TrappedTarget(g, bb);
    ThreadedSize(g, h, bb);
    forall t: nat | t in live - {bb} && t < |g|
      ensures Trapped(h, t) <==> Trapped(g, t)
      ensures |h[t].preds| == if t == target then |g[t].preds| + |g[bb].preds| - 1 else |g[t].preds|
    {
      TrappedSame(g, h, live, bb, start, t);
      KeptStays(g, h, live, bb, start, t);
    }
    CutOffBySize(g, h, live, bb);
  }

  lemma CutOffBySize(g: Graph, h: Graph, live: set<nat>, bb: nat)
    requires bb < |g| == |h| && g[bb].term.Jmp? && bb in live && g[bb].preds != []
    requires var target := g[bb].term.target;
      target in live - {bb} && target < |g| && g[target].preds != [] && (Trapped(g, bb) <==> Trapped(g, target)) &&
      forall t: nat :: t in live - {bb} && t < |g| ==>
        (Trapped(h, t) <==> Trapped(g, t)) &&
        |h[t].preds| == if t == target then |g[t].preds| + |g[bb].preds| - 1 else |g[t].preds|
    ensures CyclesCutOff(h, live - {bb}) <==> CyclesCutOff(g, live)
  {
    hide Trapped;
    var target := g[bb].term.target;
    if CyclesCutOff(h, live - {bb}) {
      forall t: nat | t in live && t < |g| && Trapped(g, t) ensures |g[t].preds| == 1 {
        assert t != bb ==> |h[t].preds| == 1;
        assert Trapped(g, bb) ==> |h[target].preds| == 1;
      }
    }
  }

  /** A block that jumps to itself: if nothing else jumps to it, it goes and nothing changes; else the jump to it is
      left behind. */
  lemma SelfJump(g: Graph, h: Graph, live: set<nat>, bb: nat, start: nat)
    requires bb < |g| && Threadable(g, live, bb, start) && Threaded(g, h, bb) && g[bb].term.target == bb
    requires forall i, j :: 0 <= i < j < |g[bb].preds| ==> g[bb].preds[i] != g[bb].preds[j]
    ensures |g[bb].preds| != 1 ==> Broken(h, live - {bb})
    ensures |g[bb].preds| == 1 ==> h == g && forall p: nat :: p in live - {bb} && p < |g| ==>
      EdgeCount(g[p].term, bb) == 0
  {
    var preds := g[bb].preds;
    PredIsListed(g, live, bb, bb);
    assert EdgeCount(g[bb].term, bb) == 1;
    if |preds| == 1 {
      SelfJumpAlone(g, h, live, bb, start);
    } else {
      var q := if preds[0] == bb then preds[1] else preds[0];
      assert q in preds && q != bb;
      PredIsListed(g, live, q, bb);
      assert EdgeCount(h[q].term, bb) > 0;
    }
  }

  lemma SelfJumpAlone(g: Graph, h: Graph, live: set<nat>, bb: nat, start: nat)
    requires bb < |g| && Threadable(g, live, bb, start) && Threaded(g, h, bb) && g[bb].term.target == bb
    requires bb in g[bb].preds && |g[bb].preds| == 1
    ensures h == g && forall p: nat :: p in live - {bb} && p < |g| ==> EdgeCount(g[p].term, bb) == 0
  {
    assert g[bb].preds == [bb];
    assert multiset(h[bb].preds) == multiset{bb};
    SingletonSeq(h[bb].preds, bb);
    forall p: nat | p in live - {bb} && p < |g| ensures EdgeCount(g[p].term, bb) == 0 { PredIsListed(g, live, p, bb); }
    hide Threadable, EdgeCount;
    assert forall b :: 0 <= b < |g| ==> h[b] == g[b];
  }

  lemma SingletonSeq(s: seq<nat>, x: nat)
    requires multiset(s) == multiset{x}
    ensures s == [x]
  {
    assert |s| == |multiset(s)| == 1;
    assert s[0] in multiset(s);
  }

  lemma SelfTrapped(g: Graph, bb: nat)
    requires bb < |g| && !Kept(g, bb) && g[bb].term.target == bb
    ensures Trapped(g, bb)
  {
    forall n: nat ensures !Escapes(g, bb, n) { SelfNeverEscapes(g, bb, n); }
  }

  lemma {:induction false} SelfNeverEscapes(g: Graph, bb: nat, n: nat)
    requires bb < |g| && !Kept(g, bb) && g[bb].term.target == bb
    ensures !Escapes(g, bb, n)
  {
    if n > 0 { SelfNeverEscapes(g, bb, n - 1); }
  }

  // ---- what the whole pass leaves ----

  /** From t, jumping through at most n blocks that hold nothing else, one gets to u. */
  predicate LeadsIn(g: Graph, t: nat, u: nat, n: nat)
    decreases n
  {
    t == u || (n > 0 && t < |g| && g[t].JumpOnly() && LeadsIn(g, g[t].term.target, u, n - 1))
  }

  ghost predicate Leads(g: Graph, t: nat, u: nat) { exists n: nat :: LeadsIn(g, t, u, n) }

  /** The terminator is what it was, but that it may skip blocks that only jump; a fall-through skips none. */
  ghost predicate Continues(g: Graph, was: Terminator, now: Terminator) {
    match was
    case Jmp(t) => now.Jmp? && Leads(g, t, now.target)
    case CondJmp(c, t, f) => now.CondJmp? && now.cond == c && now.falseBB == f && Leads(g, t, now.trueBB)
    case _ => now == was
  }

  /** Block by block h does what f did, but that its jumps may skip blocks that only jump. */
  ghost predicate Shortened(f: Graph, h: Graph) {
    |h| == |f| && forall b: nat :: b < |f| ==> h[b].body == f[b].body && Continues(f, f[b].term, h[b].term)
  }

  /** An empty block goes, and one that only jumps if something jumps to it and nothing falls through to it. */
  ghost predicate Goes(g: Graph, live: set<nat>, b: nat)
    requires b < |g|
  {
    g[b].NumInstrs() == 0 ||
    (g[b].JumpOnly() && (exists p: nat :: p in live && p < |g| && EdgeCount(g[p].term, b) > 0) &&
      forall p: nat :: p in live && p < |g| ==> !FallsThroughTo(g[p].term, b))
  }

  lemma {:induction false} LeadsOn(g: Graph, t: nat, u: nat, v: nat, n: nat, m: nat)
    requires LeadsIn(g, t, u, n) && LeadsIn(g, u, v, m)
    ensures LeadsIn(g, t, v, n + m)
    decreases n
  {
    if t == u { LeadsLonger(g, t, v, m, n + m); } else { LeadsOn(g, g[t].term.target, u, v, n - 1, m); }
  }

  lemma {:induction false} LeadsLonger(g: Graph, t: nat, u: nat, n: nat, m: nat)
    requires LeadsIn(g, t, u, n) && n <= m
    ensures LeadsIn(g, t, u, m)
    decreases n
  {
    if t != u { LeadsLonger(g, g[t].term.target, u, n - 1, m - 1); }
  }

  lemma LeadsBeyond(f: Graph, t: nat, bb: nat, u: nat)
    requires Leads(f, t, bb) && bb < |f| && f[bb].JumpOnly() && Leads(f, f[bb].term.target, u)
    ensures Leads(f, t, u)
  {
    var n: nat :| LeadsIn(f, t, bb, n);
    var m: nat :| LeadsIn(f, f[bb].term.target, u, m);
    assert LeadsIn(f, bb, u, m + 1);
    LeadsOn(f, t, bb, u, n, m + 1);
  }

  lemma ShortenedRefl(g: Graph)
    ensures Shortened(g, g)
  {
    forall t: nat ensures Leads(g, t, t) { assert LeadsIn(g, t, t, 0); }
  }

  /** Threading one more block. */
  lemma ShortenedOn(f: Graph, g: Graph, h: Graph, bb: nat)
    requires Shortened(f, g) && bb < |g| && g[bb].JumpOnly() && Threaded(g, h, bb)
    ensures Shortened(f, h)
  {
    hide Leads;
    forall b: nat | b < |f| ensures h[b].body == f[b].body && Continues(f, f[b].term, h[b].term) {
      assert f[bb].JumpOnly() && Continues(f, f[bb].term, g[bb].term) && Continues(f, f[b].term, g[b].term);
      if f[b].term.Jmp? && g[b].term.target == bb {
        LeadsBeyond(f, f[b].term.target, bb, g[bb].term.target);
      } else if f[b].term.CondJmp? && g[b].term.trueBB == bb {
        LeadsBeyond(f, f[b].term.trueBB, bb, g[bb].term.target);
      }
    }
  }

  /** What has become of the graph f and its live blocks: which are gone, and that the others are kept exactly if
      they were at the start. */
  ghost predicate Traced(f: Graph, all: set<nat>, h: Graph, live: set<nat>, removed: bool) {
    Shortened(f, h) && live <= all && (forall b :: b in all ==> b < |f|) &&
    (forall b :: b in live ==> (Kept(h, b) <==> Kept(f, b))) &&
    (forall b :: b in all && b !in live ==> f[b].NumInstrs() == 0 || !Kept(f, b)) &&
    (removed <==> exists b :: b in all && b !in live && !Kept(f, b))
  }

  lemma TracedStart(g: Graph, live: set<nat>, start: nat)
    requires Sane(g, live, start)
    ensures Traced(g, live, g, live, false)
  {
    ShortenedRefl(g);
  }

  lemma TracedEmpty(f: Graph, all: set<nat>, h: Graph, live: set<nat>, removed: bool, bb: nat)
    requires Traced(f, all, h, live, removed) && bb in live && bb < |h| && h[bb].NumInstrs() == 0
    ensures Traced(f, all, h, live - {bb}, removed)
  {
    hide Leads;
    assert Continues(f, f[bb].term, h[bb].term) && f[bb].NumInstrs() == 0 && Kept(f, bb);
    hide Kept, Shortened;
  }

  lemma TracedThread(f: Graph, all: set<nat>, g: Graph, h: Graph, live: set<nat>, removed: bool, bb: nat, start: nat)
    requires Traced(f, all, g, live, removed) && bb < |g| && Threadable(g, live, bb, start) && Threaded(g, h, bb) &&
      !Kept(g, bb)
    ensures Traced(f, all, h, live - {bb}, true)
  {
    hide Leads;
    assert bb in live && g[bb].JumpOnly();
    ShortenedOn(f, g, h, bb);
    hide Threaded, Threadable, Kept, Shortened;
    assert bb in all && !Kept(f, bb);
    forall b | b in live - {bb} ensures b < |f| && |h| == |f| && (Kept(h, b) <==> Kept(f, b)) {
      TracedSize(f, all, g, live, removed);
      KeptStays(g, h, live, bb, start, b);
    }
  }

  lemma TracedSize(f: Graph, all: set<nat>, h: Graph, live: set<nat>, removed: bool)
    requires Traced(f, all, h, live, removed)
    ensures |f| == |h| && forall b: nat :: b < |f| ==> f[b].NumInstrs() == h[b].NumInstrs()
  {
    forall b: nat | b < |f| ensures f[b].NumInstrs() == h[b].NumInstrs() {
      assert Continues(f, f[b].term, h[b].term);
    }
  }

  /** When all live blocks are to be kept, exactly those are left that were to be kept at the start. */
  lemma TracedEnd(f: Graph, all: set<nat>, h: Graph, live: set<nat>, removed: bool, start: nat)
    requires Sane(f, all, start) && Sane(h, live, start) && Traced(f, all, h, live, removed)
    requires forall b :: b in live ==> b < |h| && Kept(h, b) && h[b].NumInstrs() > 0
    ensures Shortened(f, h)
    ensures live == set b | b in all && !Goes(f, all, b)
    ensures forall b :: b in live ==> !Goes(h, live, b)
    ensures removed <==> exists b :: b in all && b !in live && f[b].JumpOnly()
  {
    TracedSize(f, all, h, live, removed);
    hide Shortened;
    forall b | b in all ensures Goes(f, all, b) <==> f[b].NumInstrs() == 0 || !Kept(f, b) {
      GoesIff(f, all, b, start);
    }
    forall b | b in live ensures !Goes(h, live, b) { GoesIff(h, live, b, start); }
    hide Sane, Goes;
    assert forall b :: b in all && !Kept(f, b) ==> f[b].JumpOnly() by { hide Traced; }
    assert forall b :: b in all && f[b].JumpOnly() ==> f[b].NumInstrs() > 0;
    hide Kept;
  }

  lemma GoesIff(g: Graph, live: set<nat>, b: nat, start: nat)
    requires Sane(g, live, start) && b in live
    ensures b < |g| && (Goes(g, live, b) <==> g[b].NumInstrs() == 0 || !Kept(g, b))
  {
    forall p: nat ensures p in g[b].preds <==> p in live && p < |g| && EdgeCount(g[p].term, b) > 0 {
      if p in live && p < |g| { PredIsListed(g, live, p, b); }
      if p in g[b].preds { PredHasEdge(g, live, b, p); }
    }
    hide PredsInverse, Sane;
    GoesByPreds(g, live, b);
  }

  lemma GoesByPreds(g: Graph, live: set<nat>, b: nat)
    requires b < |g| && forall p: nat :: p in g[b].preds <==> p in live && p < |g| && EdgeCount(g[p].term, b) > 0
    ensures Goes(g, live, b) <==> g[b].NumInstrs() == 0 || !Kept(g, b)
  {
    if g[b].preds != [] { assert g[b].preds[0] in g[b].preds; }
    assert forall p: nat :: p < |g| && FallsThroughTo(g[p].term, b) ==> EdgeCount(g[p].term, b) > 0;
    hide EdgeCount, FallsThroughTo;
  }

  // ---- the pass ----

  class ProcBlocks {
    var blocks: Graph
    /** The blocks of the procedure; the pass removes elements by swapping with the last one. */
    var bblocks: seq<nat>

    ghost function Live(): set<nat>
      reads this
    {
      set b | b in bblocks
    }

    ghost predicate Distinct()
      reads this
    {
      forall i, j :: 0 <= i < j < |bblocks| ==> bblocks[i] != bblocks[j]
    }

    /** Removes the i-th block of the procedure: the last one takes its place. */
    method RemoveSwap(i: nat)
      requires i < |bblocks| && Distinct()
      modifies this`bblocks
      ensures Distinct() && |bblocks| == |old(bblocks)| - 1
      ensures Live() == old(Live()) - {old(bblocks)[i]}
      ensures forall k :: 0 <= k < i ==> bblocks[k] == old(bblocks)[k]
      ensures forall k :: i <= k < |bblocks| ==> bblocks[k] in old(bblocks)[i + 1..]
    {
      var last := bblocks[|bblocks| - 1];
      ghost var before := bblocks;
      bblocks := bblocks[i := last][..|bblocks| - 1];
      forall b | b in before && b != before[i] ensures b in bblocks {
        var k :| 0 <= k < |before| && before[k] == b;
        if k == |before| - 1 { assert bblocks[i] == b; } else { assert bblocks[k] == b; }
      }
      forall b | b in bblocks ensures b in before && b != before[i] {
        var k :| 0 <= k < |bblocks| && bblocks[k] == b;
        if k == i { assert b == before[|before| - 1]; }
      }
      forall k | i <= k < |bblocks| ensures bblocks[k] in before[i + 1..] {
        var m := if k == i then |before| - 1 else k;
        assert before[i + 1..][m - i - 1] == before[m];
      }
    }

    /** A block that a conditional jump falls through to must stay. */
    method CanRemove(bb: nat) returns (r: bool)
      requires bb < |blocks| && forall p :: p in blocks[bb].preds ==> p < |blocks|
      ensures r <==> forall p :: p in blocks[bb].preds ==> !FallsThroughTo(blocks[p].term, bb)
    {
      var preds := blocks[bb].preds;
      r := true;
      var k := 0;
      assert forall i :: 0 <= i < |preds| ==> preds[i] in preds;
      while k < |preds|
        invariant 0 <= k <= |preds| && r
        invariant forall i :: 0 <= i < k ==> !FallsThroughTo(blocks[preds[i]].term, bb)
      {
        if FallsThroughTo(blocks[preds[k]].term, bb) {
          return false;
        }
        k := k + 1;
      }
    }

    /** Lets the predecessors of bb jump to target. */
    method RedirectPreds(bb: nat, target: nat)
      requires bb < |blocks| && target < |blocks|
      requires blocks[bb].term == Jmp(target)
      requires forall p :: p in blocks[bb].preds ==>
        p < |blocks| && EdgeCount(blocks[p].term, bb) == 1 && !FallsThroughTo(blocks[p].term, bb)
      requires forall i, j :: 0 <= i < j < |blocks[bb].preds| ==> blocks[bb].preds[i] != blocks[bb].preds[j]
      modifies this`blocks
      ensures |blocks| == |old(blocks)|
      ensures forall b :: 0 <= b < |blocks| ==> blocks[b].body == old(blocks)[b].body
      ensures forall b :: 0 <= b < |blocks| ==>
        blocks[b].term == if b in old(blocks)[bb].preds then Retarget(old(blocks)[b].term, bb, target)
          else old(blocks)[b].term
      ensures forall b :: 0 <= b < |blocks| && b != target ==> blocks[b].preds == old(blocks)[b].preds
      ensures blocks[target].preds == old(blocks)[target].preds + old(blocks)[bb].preds
    {
      ghost var g := blocks;
      var preds := blocks[bb].preds;
      RedirectStart(g, bb, target, preds);
      hide Redirected;
      var k := 0;
      while k < |preds|
        invariant 0 <= k <= |preds| && Redirected(g, blocks, bb, target, preds, k)
      {
        var p := preds[k];
        assert p in g[bb].preds;
        RedirectStep(g, blocks, bb, target, preds, k);
        // The predecessor jumps to bb.
        if blocks[p].term.Jmp? {
          blocks := blocks[p := blocks[p].(term := Jmp(target))];
        } else {
          blocks := blocks[p := blocks[p].(term := blocks[p].term.(trueBB := target))];
        }
        blocks := blocks[target := blocks[target].(preds := blocks[target].preds + [p])];
        k := k + 1;
      }
      RedirectEnd(g, blocks, bb, target, preds);
    }

    /** Removes the first entry for bb from target's predecessors, by swapping with the last one; without such an entry
        the first one goes. */
    method RemovePred(target: nat, bb: nat)
      requires target < |blocks| && blocks[target].preds != []
      modifies this`blocks
      ensures |blocks| == |old(blocks)|
      ensures forall b :: 0 <= b < |blocks| ==>
        blocks[b].body == old(blocks)[b].body && blocks[b].term == old(blocks)[b].term
      ensures forall b :: 0 <= b < |blocks| && b != target ==> blocks[b] == old(blocks)[b]
      ensures |blocks[target].preds| == |old(blocks)[target].preds| - 1
      ensures bb in old(blocks)[target].preds ==>
        multiset(blocks[target].preds) == multiset(old(blocks)[target].preds) - multiset{bb}
    {
      var preds := blocks[target].preds;
      var found, i := 0, 0;
      while i < |preds|
        invariant 0 <= i <= |preds| && bb !in preds[..i] && found == 0
      {
        if preds[i] == bb {
          found := i;
          break;
        }
        i := i + 1;
      }
      assert preds[..|preds|] == preds;
      var last := |preds| - 1;
      SwapRemoved(preds, found);
      blocks := blocks[target := blocks[target].(preds := preds[found := preds[last]][..last])];
    }

    /** Removes the blocks that only jump, and the empty ones: exactly those that are to go, so that none is left; and
        says whether one that only jumps has gone. The blocks that stay keep their instructions. The jumps stay inside
        the procedure exactly if every cycle of removed blocks is cut off, and then the procedure does what it did. */
    method RmDeadBBlocks(ghost start: nat) returns (removed: bool)
      requires Distinct() && Sane(blocks, Live(), start) && Closed(blocks, Live())
      modifies this
      ensures Distinct() && Sane(blocks, Live(), start) && Shortened(old(blocks), blocks)
      ensures Live() == set b | b in old(Live()) && !Goes(old(blocks), old(Live()), b)
      ensures forall b :: b in Live() ==> !Goes(blocks, Live(), b)
      ensures removed <==> exists b :: b in old(Live()) && b !in Live() && old(blocks)[b].JumpOnly()
      ensures Closed(blocks, Live()) <==> CyclesCutOff(old(blocks), old(Live()))
      ensures CyclesCutOff(old(blocks), old(Live())) ==> SameRuns(old(blocks), blocks, start)
    {
      hide Sane, Closed, SameRuns, CyclesCutOff, Broken, Kept, Traced, Shortened, Goes;
      ghost var g, all := blocks, Live();
      SameRunsRefl(blocks, start);
      TracedStart(blocks, Live(), start);
      removed := false;
      var i := |bblocks|;
      while i > 0
        invariant 0 <= i <= |bblocks| && Distinct() && Sane(blocks, Live(), start)
        invariant Progress(g, all, start) && KeptFrom(i) && Traced(g, all, blocks, Live(), removed)
      {
        i := i - 1;
        var r := TryRemove(i, start, g, all, removed);
        removed := removed || r;
      }
      ClosedNotBroken(blocks, Live());
      AllKept();
      TracedEnd(g, all, blocks, Live(), removed, start);
    }

    /** The blocks from place i on are not empty and not removed any more. */
    ghost predicate KeptFrom(i: nat)
      reads this
    {
      forall k :: i <= k < |bblocks| ==>
        bblocks[k] < |blocks| && Kept(blocks, bblocks[k]) && blocks[bblocks[k]].NumInstrs() > 0
    }

    /** How far the pass has come: all is well if it was well at the start; else it is not well yet, or
        a jump leads nowhere. */
    ghost predicate Progress(g: Graph, all: set<nat>, start: nat)
      reads this
    {
      if CyclesCutOff(g, all) then CyclesCutOff(blocks, Live()) && Closed(blocks, Live()) && SameRuns(g, blocks, start)
      else Broken(blocks, Live()) || (Closed(blocks, Live()) && !CyclesCutOff(blocks, Live()))
    }

    /** When no block is left to be removed, no block is trapped. */
    lemma AllKept()
      requires KeptFrom(0)
      ensures CyclesCutOff(blocks, Live())
      ensures forall b :: b in Live() ==> b < |blocks| && Kept(blocks, b) && blocks[b].NumInstrs() > 0
    {
      hide Kept;
      assert forall t: nat :: t in Live() && t < |blocks| ==> Escapes(blocks, t, 0);
    }

    method TryRemove(i: nat, ghost start: nat, ghost g: Graph, ghost all: set<nat>, ghost before: bool)
      returns (removed: bool)
      requires i < |bblocks| && Distinct() && Sane(blocks, Live(), start) && Progress(g, all, start) && KeptFrom(i + 1)
      requires Traced(g, all, blocks, Live(), before)
      modifies this
      ensures Distinct() && i <= |bblocks| && Sane(blocks, Live(), start)
      ensures Progress(g, all, start) && KeptFrom(i) && Traced(g, all, blocks, Live(), before || removed)
    {
      hide SameRuns, CyclesCutOff, Closed, Broken, Kept, Threadable, PredsInverse, FallsThroughTo, Traced;
      removed := false;
      var bb := bblocks[i];
      assert bb in Live();
      assert bb < |blocks|;
      hide Sane;
      if blocks[bb].NumInstrs() == 0 {
        RemoveEmpty(i, start, g, all, before);
        return;
      }
      removed := MayThread(bb, start);
      if removed {
        ThreadBlock(bb, start, g, all, i, before);
        RemoveSwap(i);
      }
    }

    /** Whether a block that is not empty is to go. */
    method MayThread(bb: nat, ghost start: nat) returns (r: bool)
      requires Sane(blocks, Live(), start) && bb in Live() && bb < |blocks| && blocks[bb].NumInstrs() > 0
      ensures r <==> !Kept(blocks, bb)
      ensures r ==> Threadable(blocks, Live(), bb, start)
    {
      hide Kept, Threadable, PredsInverse, FallsThroughTo;
      if blocks[bb].NumInstrs() > 1 || !blocks[bb].term.Jmp? || blocks[bb].preds == [] {
        KeptAnyway(blocks, bb);
        return false;
      }
      PredsOf(blocks, Live(), bb, start);
      r := CanRemove(bb);
      KeptIff(blocks, bb);
      if r { IsThreadable(blocks, Live(), bb, start); }
    }

    method RemoveEmpty(i: nat, ghost start: nat, ghost g: Graph, ghost all: set<nat>, ghost removed: bool)
      requires i < |bblocks| && Distinct() && Sane(blocks, Live(), start) && Progress(g, all, start) && KeptFrom(i + 1)
      requires bblocks[i] < |blocks| && blocks[bblocks[i]].NumInstrs() == 0 && Traced(g, all, blocks, Live(), removed)
      modifies this`bblocks
      ensures Distinct() && i <= |bblocks| && Sane(blocks, Live(), start)
      ensures Progress(g, all, start) && KeptFrom(i) && Traced(g, all, blocks, Live(), removed)
    {
      hide SameRuns, CyclesCutOff, Closed, Broken, Kept, Traced, Sane;
      var bb := bblocks[i];
      assert bb in Live();
      EmptyRemoved(blocks, Live(), bb, start);
      TracedEmpty(g, all, blocks, Live(), removed, bb);
      RemoveSwap(i);
    }

    /** Lets the edges into bb lead to its target. */
    method MoveEdges(bb: nat, ghost start: nat)
      requires bb < |blocks| && Threadable(blocks, Live(), bb, start)
      modifies this`blocks
      ensures Threaded(old(blocks), blocks, bb)
    {
      var target := blocks[bb].term.target;
      ghost var before := blocks;
      assert EdgeCount(before[bb].term, target) > 0;
      PredsOnce(before, Live(), bb);
      hide PredsInverse;
      RedirectPreds(bb, target);
      RemovePred(target, bb);
    }

    /** Makes the predecessors of a block that only jumps jump to its target. */
    method ThreadBlock(bb: nat, ghost start: nat, ghost g: Graph, ghost all: set<nat>, ghost i: nat,
                       ghost removed: bool)
      requires i < |bblocks| && bblocks[i] == bb < |blocks| && Distinct() && Threadable(blocks, Live(), bb, start) &&
        !Kept(blocks, bb)
      requires Progress(g, all, start) && KeptFrom(i + 1) && Traced(g, all, blocks, Live(), removed)
      modifies this`blocks
      ensures Sane(blocks, Live() - {bb}, start) && KeptFrom(i + 1) && Traced(g, all, blocks, Live() - {bb}, true)
      ensures if CyclesCutOff(g, all)
        then CyclesCutOff(blocks, Live() - {bb}) && Closed(blocks, Live() - {bb}) && SameRuns(g, blocks, start)
        else Broken(blocks, Live() - {bb}) || (Closed(blocks, Live() - {bb}) && !CyclesCutOff(blocks, Live() - {bb}))
    {
      hide SameRuns, CyclesCutOff, Closed, Broken, Kept, Threaded, Threadable, Sane, Traced;
      ghost var before := blocks;
      PredsDiffer(before, Live(), bb, start);
      MoveEdges(bb, start);
      ThreadedSane(before, blocks, Live(), bb, start);
      forall k | i + 1 <= k < |bblocks|
        ensures bblocks[k] < |blocks| && Kept(blocks, bblocks[k]) && blocks[bblocks[k]].NumInstrs() > 0
      {
        KeptStays(before, blocks, Live(), bb, start, bblocks[k]);
      }
      TracedThread(g, all, before, blocks, Live(), removed, bb, start);
      ThreadedProgress(g, all, before, blocks, Live(), bb, start);
    }
  }

  /** One step of the pass, well or not. */
  lemma ThreadedProgress(f: Graph, all: set<nat>, g: Graph, h: Graph, live: set<nat>, bb: nat, start: nat)
    requires bb < |g| && Threadable(g, live, bb, start) && Threaded(g, h, bb) && !Kept(g, bb)
    requires forall i, j :: 0 <= i < j < |g[bb].preds| ==> g[bb].preds[i] != g[bb].preds[j]
    requires if CyclesCutOff(f, all) then CyclesCutOff(g, live) && Closed(g, live) && SameRuns(f, g, start)
      else Broken(g, live) || (Closed(g, live) && !CyclesCutOff(g, live))
    ensures if CyclesCutOff(f, all) then CyclesCutOff(h, live - {bb}) && Closed(h, live - {bb}) && SameRuns(f, h, start)
      else Broken(h, live - {bb}) || (Closed(h, live - {bb}) && !CyclesCutOff(h, live - {bb}))
  {
    hide Threaded, Kept, SameRuns, CyclesCutOff, Closed, Broken;
    if Broken(g, live) {
      BrokenStays(g, h, live, bb, start);
      ClosedNotBroken(g, live);
    } else if g[bb].term.target != bb {
      ThreadedClosed(g, h, live, bb);
      CutOffSame(g, h, live, bb, start);
      ThreadedSameRuns(g, h, live, bb, start);
      if CyclesCutOff(f, all) { RunsThrough(f, g, h, start); }
    } else {
      SelfJump(g, h, live, bb, start);
      SelfProgress(g, live, bb);
      if |g[bb].preds| == 1 { SelfClosed(g, live, bb); }
    }
  }

  /** A block that only jumps to itself and has no other predecessor goes without a trace. */
  lemma SelfProgress(g: Graph, live: set<nat>, bb: nat)
    requires bb < |g| && !Kept(g, bb) && g[bb].term.target == bb && bb in live
    ensures CyclesCutOff(g, live) ==> |g[bb].preds| == 1 && CyclesCutOff(g, live - {bb})
    ensures |g[bb].preds| == 1 && CyclesCutOff(g, live - {bb}) ==> CyclesCutOff(g, live)
  {
    SelfTrapped(g, bb);
    hide Trapped, Kept;
  }

  lemma SelfClosed(g: Graph, live: set<nat>, bb: nat)
    requires Closed(g, live) && forall p: nat :: p in live - {bb} && p < |g| ==> EdgeCount(g[p].term, bb) == 0
    ensures Closed(g, live - {bb})
  {
    forall b: nat, t: nat ensures EdgeStays(g, live - {bb}, b, t) {
      assert EdgeStays(g, live, b, t) && (b in live - {bb} && b < |g| ==> EdgeCount(g[b].term, bb) == 0);
    }
  }

  lemma ClosedNotBroken(g: Graph, live: set<nat>)
    ensures Closed(g, live) ==> !Broken(g, live)
  {
  }

  lemma KeptAnyway(g: Graph, b: nat)
    requires b < |g| && g[b].NumInstrs() > 0
    ensures g[b].NumInstrs() > 1 || !g[b].term.Jmp? || g[b].preds == [] ==> Kept(g, b)
  {
  }

  lemma IsThreadable(g: Graph, live: set<nat>, bb: nat, start: nat)
    requires Sane(g, live, start) && bb in live && bb < |g| && g[bb].JumpOnly() && g[bb].preds != [] && bb != start
    requires g[bb].term.target != start
    requires forall p :: p in g[bb].preds ==> p < |g| && p in live && !FallsThroughTo(g[p].term, bb)
    ensures Threadable(g, live, bb, start)
  {
  }

  lemma KeptIff(g: Graph, b: nat)
    requires b < |g| && g[b].JumpOnly() && g[b].preds != [] && forall p :: p in g[b].preds ==> p < |g|
    ensures Kept(g, b) <==> !(forall p :: p in g[b].preds ==> !FallsThroughTo(g[p].term, b))
  {
  }

  lemma RunsThrough(f: Graph, g: Graph, h: Graph, start: nat)
    requires SameRuns(f, g, start) && SameRuns(g, h, start)
    ensures SameRuns(f, h, start)
  {
    SimulatesTrans(f, g, h, start);
    SimulatesTrans(h, g, f, start);
  }

  lemma PredsOf(g: Graph, live: set<nat>, bb: nat, start: nat)
    requires Sane(g, live, start) && bb in live && bb < |g| && g[bb].JumpOnly() && g[bb].preds != []
    ensures forall p :: p in g[bb].preds ==> p < |g| && p in live
    ensures bb != start && g[bb].term.target != start && g[bb].term.target < |g|
  {
    forall p | p in g[bb].preds ensures p < |g| && p in live {
      assert multiset(g[bb].preds)[p] > 0;
      assert multiset(g[bb].preds)[p] == if p in live && p < |g| then EdgeCount(g[p].term, bb) else 0;
    }
    assert EdgeCount(g[bb].term, g[bb].term.target) == 1;
    assert multiset(g[start].preds)[bb] == EdgeCount(g[bb].term, start);
  }

  lemma PredsDiffer(g: Graph, live: set<nat>, bb: nat, start: nat)
    requires bb < |g| && Threadable(g, live, bb, start)
    ensures g[bb].JumpOnly() && forall i, j :: 0 <= i < j < |g[bb].preds| ==> g[bb].preds[i] != g[bb].preds[j]
  {
    PredsOnce(g, live, bb);
  }

  lemma PredsOnce(g: Graph, live: set<nat>, bb: nat)
    requires PredsInverse(g, live) && bb in live && bb < |g|
    requires forall p :: p in g[bb].preds ==> p < |g| && !FallsThroughTo(g[p].term, bb)
    ensures forall p :: p in g[bb].preds ==> EdgeCount(g[p].term, bb) == 1
    ensures forall i, j :: 0 <= i < j < |g[bb].preds| ==> g[bb].preds[i] != g[bb].preds[j]
  {
    var preds := g[bb].preds;
    forall p | p in preds ensures multiset(preds)[p] == 1 && EdgeCount(g[p].term, bb) == 1 {
      assert multiset(preds)[p] > 0;
      assert multiset(preds)[p] == if p in live && p < |g| then EdgeCount(g[p].term, bb) else 0;
    }
    forall i, j | 0 <= i < j < |preds| ensures preds[i] != preds[j] {
      assert preds == preds[..j] + preds[j..];
      assert multiset(preds)[preds[j]] == multiset(preds[..j])[preds[j]] + multiset(preds[j..])[preds[j]];
      assert preds[j..][0] == preds[j];
      assert preds[..j][i] == preds[i];
    }
  }

  /** An empty block goes: nothing changes but that it is gone. */
  lemma EmptyRemoved(g: Graph, live: set<nat>, bb: nat, start: nat)
    requires Sane(g, live, start) && bb in live && bb < |g| && g[bb].NumInstrs() == 0
    ensures bb != start && Sane(g, live - {bb}, start)
    ensures Closed(g, live) ==> Closed(g, live - {bb})
    ensures Broken(g, live) ==> Broken(g, live - {bb})
    ensures CyclesCutOff(g, live) <==> CyclesCutOff(g, live - {bb})
  {
    assert forall t: nat :: EdgeCount(g[bb].term, t) == 0;
    assert Escapes(g, bb, 0) && !Trapped(g, bb);
    hide EdgeCount, Trapped;
    EmptySane(g, live, bb, start);
    hide PredsInverse;
    EmptyClosed(g, live, bb);
    hide Closed;
    if Broken(g, live) {
      var p: nat, t: nat :| p in live && p < |g| && EdgeCount(g[p].term, t) > 0 && t !in live;
      assert p in live - {bb} && t !in live - {bb};
    }
  }

  lemma EmptySane(g: Graph, live: set<nat>, bb: nat, start: nat)
    requires Sane(g, live, start) && bb in live && bb < |g| && g[bb].NumInstrs() == 0
    requires forall t: nat :: EdgeCount(g[bb].term, t) == 0
    ensures Sane(g, live - {bb}, start)
  {
    hide EdgeCount;
  }

  lemma EmptyClosed(g: Graph, live: set<nat>, bb: nat)
    requires bb in live && bb < |g| && g[bb].NumInstrs() == 0
    ensures Closed(g, live) ==> Closed(g, live - {bb})
  {
    if Closed(g, live) {
      forall b: nat, t: nat ensures EdgeStays(g, live - {bb}, b, t) { assert EdgeStays(g, live, b, t); }
    }
  }

  lemma SwapRemoved(s: seq<nat>, i: nat)
    requires i < |s|
    ensures multiset(s[i := s[|s| - 1]][..|s| - 1]) == multiset(s) - multiset{s[i]}
  {
    var last := |s| - 1;
    var t := s[i := s[last]];
    Replaced(s, i, s[last]);
    WithoutLast(t, last);
    Cancel(multiset(t), multiset(t[..last]), multiset(s) - multiset{s[i]}, s[last]);
  }

  lemma Cancel(m: multiset<nat>, a: multiset<nat>, b: multiset<nat>, x: nat)
    requires m == a + multiset{x} && m == b + multiset{x}
    ensures a == b
  {
    assert a == m - multiset{x} && b == m - multiset{x};
  }

  lemma Replaced(s: seq<nat>, i: nat, x: nat)
    requires i < |s|
    ensures multiset(s[i := x]) == multiset(s) - multiset{s[i]} + multiset{x}
  {
    var a, b := s[..i], s[i + 1..];
    assert s == a + [s[i]] + b && s[i := x] == a + [x] + b;
    assert multiset(a + [s[i]] + b) == multiset(a) + multiset{s[i]} + multiset(b);
    assert multiset(a + [x] + b) == multiset(a) + multiset{x} + multiset(b);
  }

  lemma WithoutLast(t: seq<nat>, last: nat)
    requires |t| == last + 1
    ensures multiset(t) == multiset(t[..last]) + multiset{t[last]}
  {
    assert t == t[..last] + [t[last]];
  }

  // ---- a loop that does nothing ----

  /** The blocks of a procedure with an endless loop and an empty body: the entry, the loop, and the block behind it. */
  const ENDLESS_LOOP: Graph := [BBlock([], Jmp(1), []), BBlock([], Jmp(1), [0, 1]), BBlock([], Ret, [])]

  /** For them the pass removes the loop's block and leaves the entry's jump to it. */
  lemma EndlessLoopNotCutOff()
    ensures Sane(ENDLESS_LOOP, {0, 1, 2}, 0) && Closed(ENDLESS_LOOP, {0, 1, 2}) &&
      !CyclesCutOff(ENDLESS_LOOP, {0, 1, 2})
  {
    hide PredsInverse, CyclesCutOff;
    EndlessLoopPreds();
    EndlessLoopTrapped();
  }

  lemma EndlessLoopPreds()
    ensures PredsInverse(ENDLESS_LOOP, {0, 1, 2})
  {
    var g := ENDLESS_LOOP;
    assert multiset([0, 1]) == multiset{0, 1};
    forall t: nat, b: nat | t < 3 ensures multiset(g[t].preds)[b] == if b < 3 then EdgeCount(g[b].term, t) else 0 {
      assert t == 1 ==> multiset(g[t].preds) == multiset{0, 1};
      assert t != 1 ==> multiset(g[t].preds)[b] == 0;
      assert b == 0 || b == 1 || b == 2 || b > 2;
    }
  }

  lemma EndlessLoopTrapped()
    ensures !CyclesCutOff(ENDLESS_LOOP, {0, 1, 2})
  {
    assert forall p :: p in [0, 1] ==> !FallsThroughTo(ENDLESS_LOOP[p].term, 1);
    SelfTrapped(ENDLESS_LOOP, 1);
    hide Trapped;
    assert |ENDLESS_LOOP[1].preds| == 2;
  }
}
