/** What the lowering of a boolean tree leaves and its consumers get, and the steps that show it: the
    waiting jumps read off the tree, the nodes that hold them, and how a jump gets lost. */
module ShortCircuitSpec {
  import opened Basics
  import opened ShortCircuitIR
  import opened ShortCircuitProof
  import opened ScJmpLists
  import opened Lowering
  import opened LostJumps

  // ---- the waiting jumps of a tree ----

  /** The results of the waiting jumps of a deferred tree, read off the tree. */
  function ScResults(e: Expr): seq<bool> {
    match e
    case Compare(_, _) => []
    case Value(_) => []
    case Not(i) => var rs := ScResults(i); seq(|rs|, k requires 0 <= k < |rs| => !rs[k])
    case And(l, r) => Kept(ScResults(l) + [false], false) + ScResults(r)
    case Or(l, r) => Kept(ScResults(l) + [true], true) + ScResults(r)
  }

  /** Whether the final compare of a deferred tree holds when the tree is true. */
  predicate FinalResult(e: Expr) {
    match e
    case Not(i) => i.Value? || !FinalResult(i)
    case And(_, _) => false
    case Or(_, _) => false
    case _ => true
  }

  predicate HasJump(e: Expr) {
    match e
    case Not(i) => HasJump(i)
    case And(_, _) => true
    case Or(_, _) => true
    case _ => false
  }

  /** Every list the loop below is run on, when the tree is lowered, has an opposite jump at its head at most. */
  predicate RemovalsAtHead(e: Expr) {
    match e
    case And(l, r) => OppositeOnlyAtHead(ScResults(l) + [false], false) && RemovalsAtHead(l) && RemovalsAtHead(r)
    case Or(l, r) => OppositeOnlyAtHead(ScResults(l) + [true], true) && RemovalsAtHead(l) && RemovalsAtHead(r)
    case Not(i) => RemovalsAtHead(i)
    case _ => true
  }

  /** For a || (b && c) || d the loop gets the results true, false, true and is to remove the second. */
  lemma RemovalsNotAtHead(a: nat, b: nat, c: nat, d: nat)
    ensures var l := Or(Compare(EQ, a), And(Compare(EQ, b), Compare(EQ, c)));
      ScResults(l) + [true] == [true, false, true] && !RemovalsAtHead(Or(l, Compare(EQ, d)))
  {
    var la, lb, lc, ld := Compare(EQ, a), Compare(EQ, b), Compare(EQ, c), Compare(EQ, d);
    assert ScResults(la) == [] && ScResults(lb) == [] && ScResults(lc) == [];
    CombinedParts(true, lb, lc);
    CombinedParts(false, la, And(lb, lc));
    CombinedParts(false, Or(la, And(lb, lc)), ld);
    KeptOne(ScResults(lb), false);
    KeptOne(ScResults(la), true);
    hide Kept, ScResults, RemovalsAtHead;
    assert [false] + [] == [false] && [true] + [false] + [true] == [true, false, true];
    assert [true, false, true][1] == false;
  }

  lemma KeptOne(rs: seq<bool>, v: bool)
    requires rs == []
    ensures Kept(rs + [v], v) == [v]
  {
    assert (rs + [v])[..0] == [];
  }

  function Leaves(e: Expr): nat {
    match e
    case And(l, r) => Leaves(l) + Leaves(r)
    case Or(l, r) => Leaves(l) + Leaves(r)
    case Not(i) => Leaves(i)
    case _ => 1
  }

  lemma {:induction false} KeptFew(rs: seq<bool>, v: bool)
    ensures |Kept(rs, v)| <= |rs|
  {
    if rs != [] { KeptFew(rs[..|rs| - 1], v); }
  }

  /** Fewer jumps wait than there are leaves. */
  lemma {:induction false} FewWait(e: Expr)
    ensures |ScResults(e)| < Leaves(e)
  {
    match e {
      case Not(i) => FewWait(i);
      case And(l, r) =>
        FewWait(l);
        FewWait(r);
        KeptFew(ScResults(l) + [false], false);
      case Or(l, r) =>
        FewWait(l);
        FewWait(r);
        KeptFew(ScResults(l) + [true], true);
      case _ =>
    }
  }

  /** A deferred comparison whose waiting jumps are the nodes s. */
  function View(nodes: seq<Node>, c: LinkedCmp, s: seq<nat>): DeferredCmp { DeferredCmp(Jmps(nodes, s), c.fin) }

  /** The tree is lowered, with its waiting jumps in a list of the nodes s, as read off the tree. */
  ghost predicate Deferral(p0: Proc, p: Proc, e: Expr, b0: nat, nodes: seq<Node>, c: LinkedCmp, s: seq<nat>,
                           last: nat) {
    Lowered(p0, p, e, b0, View(nodes, c, s), last) && IsList(nodes, c.list, s) &&
      Results(Jmps(nodes, s)) == ScResults(e)
  }

  // ---- jumps and nodes not in use any more ----

  predicate Spent(p: Proc, j: Loc) {
    HasInstr(p, j) && InstrAt(p, j).CondJmp? && InstrAt(p, j).trueBB.Some?
  }

  ghost predicate KeepsSpent(p: Proc, p': Proc) { forall j :: Spent(p, j) ==> Spent(p', j) }

  ghost predicate AllSpent(p: Proc, nodes: seq<Node>, f: seq<nat>) {
    forall n :: n in f ==> Spent(p, JmpOf(nodes, n).jmp)
  }

  /** The jumps of the nodes in use were emitted before, and not in the block that is open now. */
  ghost predicate Older(p0: Proc, b0: nat, nodes: seq<Node>, held: set<nat>) {
    forall n :: n in held ==> n < |nodes| && JmpOf(nodes, n).jmp.bb < |p0| && JmpOf(nodes, n).jmp.bb != b0
  }

  lemma SpentAdd(p: Proc, b: nat, ins: Instr)
    requires b < |p|
    ensures KeepsSpent(p, AddInstr(p, b, ins))
  {
  }

  lemma SpentAlloc(p: Proc)
    ensures KeepsSpent(p, p + [EMPTY_BLOCK])
  {
  }

  lemma SpentSetCond(p: Proc, l: Loc, c: ConditionKind)
    requires HasInstr(p, l) && InstrAt(p, l).IntCmp?
    ensures KeepsSpent(p, SetCond(p, l, c))
  {
  }

  lemma SpentCondJmp(p: Proc, b: nat, a: nat, f: nat)
    requires b < |p| && f < |p|
    ensures KeepsSpent(p, ShortCircuitIR.EmitCondJmp(p, b, a, None, f))
  {
  }

  lemma SpentPatch(p: Proc, j: Loc, to: nat)
    requires IsPending(p, j) && to < |p|
    ensures KeepsSpent(p, PatchJmp(p, j, to)) && Spent(PatchJmp(p, j, to), j)
  {
  }

  lemma StillSpent(p: Proc, p': Proc, nodes: seq<Node>, nodes': seq<Node>, f: seq<nat>)
    requires AllSpent(p, nodes, f) && KeepsSpent(p, p') && forall n :: n in f ==> JmpOf(nodes', n) == JmpOf(nodes, n)
    ensures AllSpent(p', nodes', f)
  {
    hide Spent;
  }

  lemma LastPending(p0: Proc, p: Proc, e: Expr, b0: nat, nodes: seq<Node>, s: seq<nat>, v: bool, dest: map<bool, nat>)
    requires s != [] && !Opposite(nodes, s[|s| - 1], v) && Routed(p0, p, e, b0, WithResult(Jmps(nodes, s), v), dest)
    ensures var j := JmpOf(nodes, s[|s| - 1]).jmp; IsPending(p, j) && InRegion(p, b0, |p0|, j.bb)
  {
    hide Routed, IsPending;
    WithResultHas(Jmps(nodes, s), v, |s| - 1);
    RoutedDistinct(p0, p, e, b0, WithResult(Jmps(nodes, s), v), dest);
  }

  lemma ResultsSize(sc: seq<ScJmp>)
    ensures |Results(sc)| == |sc|
  {
  }

  lemma ListSize(nodes: seq<Node>, s: seq<nat>, e: Expr)
    requires Results(Jmps(nodes, s)) == ScResults(e)
    ensures |s| < Leaves(e)
  {
    FewWait(e);
    assert |Results(Jmps(nodes, s))| == |s|;
  }

  lemma ListSizeOf(p0: Proc, p: Proc, e: Expr, b0: nat, nodes: seq<Node>, c: LinkedCmp, s: seq<nat>, last: nat)
    requires Deferral(p0, p, e, b0, nodes, c, s, last)
    ensures |s| < Leaves(e)
  {
    ListSize(nodes, s, e);
  }

  lemma ForgottenOpen(p0: Proc, b0: nat, s: Builder, held: set<nat>)
    requires Forgotten(|p0|, b0, s, held)
    ensures !Settled(p0, s.blocks, b0)
  {
    var k, j :| held <= k && Hidden(s, k, j) && (j.bb == b0 || |p0| <= j.bb);
    assert IsPending(s.blocks, j) && InRegion(s.blocks, b0, |p0|, j.bb);
  }

  lemma NotBranching(p0: Proc, p: Proc, e: Expr, hdr: nat, jmpResult: bool, jmpBB: nat, last: nat)
    requires hdr < |p0| && !Settled(p0, p, hdr)
    ensures !BranchesOn(p0, p, e, hdr, jmpResult, jmpBB, last)
  {
    hide Settled;
  }

  // ---- the repaired loop ----

  ghost predicate SameJmps(nodes0: seq<Node>, nodes: seq<Node>) { forall n :: JmpOf(nodes, n) == JmpOf(nodes0, n) }

  lemma SameJmpsOf(nodes0: seq<Node>, nodes: seq<Node>, s: seq<nat>)
    requires SameJmps(nodes0, nodes)
    ensures Jmps(nodes, s) == Jmps(nodes0, s)
  {
  }

  lemma RepairBegins(nodes: seq<Node>, l: JmpList, s: seq<nat>, held: set<nat>, v: bool)
    requires IsList(nodes, l, s)
    ensures l.first == (if s == [] then None else Some(s[0])) && LastOf(Filter(nodes, s[..0], v)) == None
    ensures SameJmps(nodes, nodes) && Untouched(nodes, nodes, held)
  {
    assert s[..0] == [];
  }

  /** Where the loop is, in the list as it is now. */
  lemma RepairHere(nodes0: seq<Node>, nodes: seq<Node>, l: JmpList, s: seq<nat>, v: bool, i: nat)
    requires i < |s| && IsList(nodes, l, Around(nodes0, s, v, i)) && SameJmps(nodes0, nodes)
    ensures s[i] < |nodes| && nodes[s[i]].next == (if i + 1 < |s| then Some(s[i + 1]) else None)
    ensures nodes[s[i]].sc == Jmps(nodes0, s)[i] == JmpOf(nodes, s[i]) &&
      (Opposite(nodes0, s[i], v) <==> nodes[s[i]].sc.result != v)
  {
    var k := |Filter(nodes0, s[..i], v)|;
    ListAt(nodes, l, Around(nodes0, s, v, i), k);
    assert JmpOf(nodes, s[i]) == JmpOf(nodes0, s[i]);
  }

  lemma AroundStep(nodes0: seq<Node>, s: seq<nat>, v: bool, i: nat)
    requires i < |s|
    ensures Opposite(nodes0, s[i], v) ==> LastOf(Filter(nodes0, s[..i + 1], v)) == LastOf(Filter(nodes0, s[..i], v))
    ensures !Opposite(nodes0, s[i], v) ==>
      LastOf(Filter(nodes0, s[..i + 1], v)) == Some(s[i]) && Around(nodes0, s, v, i + 1) == Around(nodes0, s, v, i)
  {
    AroundNext(nodes0, s, v, i);
    hide Around, Filter, Opposite;
  }

  lemma PrevInside(h: Heap, l: JmpList, a: seq<nat>, x: nat, b: seq<nat>)
    requires IsList(h.nodes, l, a + [x] + b)
    ensures LastOf(a).Some? ==> LastOf(a).value < |h.nodes|
  {
    ChainInside(h.nodes, l.first, a + [x] + b);
    if a != [] { assert (a + [x] + b)[|a| - 1] == a[|a| - 1]; }
  }

  lemma SealedOn(nodes0: seq<Node>, nodes: seq<Node>, held: set<nat>)
    requires Sealed(nodes0, held) && Untouched(nodes0, nodes, held)
    ensures Sealed(nodes, held)
  {
  }

  lemma DelSpent(p: Proc, p': Proc, nodes: seq<Node>, nodes': seq<Node>, f: seq<nat>, x: nat)
    requires AllSpent(p, nodes, f) && KeepsSpent(p, p') && SameJmps(nodes, nodes') && Spent(p', JmpOf(nodes, x).jmp)
    ensures AllSpent(p', nodes', [x] + f)
  {
    hide Spent;
  }

  lemma LeafDeferral(p0: Proc, p: Proc, e: Expr, b0: nat, nodes: seq<Node>, fin: FinalJmp, last: nat)
    requires Lowered(p0, p, e, b0, DeferredCmp([], fin), last) && ScResults(e) == []
    ensures Deferral(p0, p, e, b0, nodes, LinkedCmp(EMPTY_LIST, fin), [], last)
  {
    hide Lowered;
    assert Jmps(nodes, []) == [] && Results([]) == [];
  }

  lemma NotDeferral(p0: Proc, p: Proc, i: Expr, b0: nat, nodes: seq<Node>, nodes': seq<Node>, c: LinkedCmp,
                    s: seq<nat>, last: nat)
    requires Deferral(p0, p, i, b0, nodes, c, s, last) && IsList(nodes', c.list, s) &&
      Jmps(nodes', s) == Flipped(Jmps(nodes, s))
    ensures Deferral(p0, p, Not(i), b0, nodes', c.(fin := c.fin.(result := !c.fin.result)), s, last)
  {
    hide Lowered, IsList;
    NegateLowered(p0, p, i, b0, View(nodes, c, s), last);
    assert Negated(View(nodes, c, s)) == View(nodes', c.(fin := c.fin.(result := !c.fin.result)), s);
    assert Results(Jmps(nodes', s)) == ScResults(Not(i));
  }

  lemma CombinedParts(isAnd: bool, l: Expr, r: Expr)
    ensures RemovalsAtHead(Combined(isAnd, l, r)) <==>
      OppositeOnlyAtHead(ScResults(l) + [!isAnd], !isAnd) && RemovalsAtHead(l) && RemovalsAtHead(r)
    ensures ScResults(Combined(isAnd, l, r)) == Kept(ScResults(l) + [!isAnd], !isAnd) + ScResults(r)
  {
  }

  lemma CombinedDeferral(p0: Proc, p1: Proc, p: Proc, isAnd: bool, l: Expr, r: Expr, b0: nat, sc: seq<ScJmp>,
                         right: nat,
                         nodes: seq<Node>, c: LinkedCmp, t: seq<nat>, nodes': seq<Node>, list: JmpList, u: seq<nat>,
                           last: nat)
    requires Routed(p0, p1, l, b0, sc, map[isAnd := right]) && Results(sc) == Kept(ScResults(l) + [!isAnd], !isAnd)
    requires !p0[b0].Closed() && |p0| <= right && right + 1 == |p1| && p1[right].code == []
    requires forall k :: 0 <= k < |sc| ==> sc[k].result != isAnd
    requires Deferral(p1, p, r, right, nodes, c, t, last) && c.fin.jmp.Some?
    requires IsList(nodes', list, u) && Jmps(nodes', u) == sc + Jmps(nodes, t)
    ensures Deferral(p0, p, Combined(isAnd, l, r), b0, nodes', LinkedCmp(list, c.fin), u, last)
  {
    hide Lowered, Routed, IsList, Kept, ScResults, Combined;
    CombinedParts(isAnd, l, r);
    CombineLowered(p0, p1, p, isAnd, l, r, b0, sc, right, View(nodes, c, t), last);
    assert Results(sc + Jmps(nodes, t)) == Results(sc) + Results(Jmps(nodes, t));
  }

  lemma SpentRefl(p: Proc)
    ensures KeepsSpent(p, p)
  {
  }

  lemma SpentTrans(p: Proc, p1: Proc, p2: Proc)
    requires KeepsSpent(p, p1) && KeepsSpent(p1, p2)
    ensures KeepsSpent(p, p2)
  {
  }

  lemma SpentJmp(p: Proc, b: nat, to: nat)
    requires b < |p| && to < |p|
    ensures KeepsSpent(p, ShortCircuitIR.EmitJmp(p, b, to))
  {
  }

  lemma ArmsRouted(p0: Proc, p: Proc, e: Expr, b0: nat, list: seq<ScJmp>, bblock: nat)
    requires b0 < |p0| <= bblock && bblock + 1 == |p| && p[bblock].code == [] &&
      Routed(p0, p, e, b0, list, map[true := bblock])
    ensures Routed(p0, p + [EMPTY_BLOCK] + [EMPTY_BLOCK], e, b0, list, map[true := bblock, false := bblock + 1])
  {
    var dest, dest' := map[true := bblock], map[true := bblock, false := bblock + 1];
    var p1 := p + [EMPTY_BLOCK];
    assert Dests(dest) == {bblock} && Dests(dest') == {bblock, bblock + 1};
    AllocRouted(p0, p, e, b0, list, dest);
    RoutedDistinct(p0, p1, e, b0, list, dest);
    hide Routed;
    assert forall k :: 0 <= k < |list| ==> list[k].jmp.bb != bblock by {
      assert forall k :: 0 <= k < |list| ==> IsPending(p1, list[k].jmp);
    }
    AddDestination(p0, p1, e, b0, list, dest, false, bblock + 1);
    assert dest[false := bblock + 1] == dest';
    AllocRouted(p0, p1, e, b0, list, dest');
  }

  lemma LoadSpent(p: Proc, arm: nat, r: nat, imm: bool, last: nat)
    requires arm < |p| && last < |p|
    ensures KeepsSpent(p, EmitJmp(AddInstr(p, arm, Limm(r, imm)), arm, last))
  {
    var p1 := AddInstr(p, arm, Limm(r, imm));
    SpentAdd(p, arm, Limm(r, imm));
    SpentJmp(p1, arm, last);
    SpentTrans(p, p1, EmitJmp(p1, arm, last));
  }

  lemma LoadShape(p: Proc, arm: nat, r: nat, imm: bool, last: nat)
    requires arm < |p| && last < |p| && last != arm && p[arm].code == []
    ensures var p' := EmitJmp(AddInstr(p, arm, Limm(r, imm)), arm, last);
      |p'| == |p| && p'[arm].code == [Limm(r, imm), Jmp(last)] && NoCondJmp(p'[arm].code) &&
      (forall b :: 0 <= b < |p| && b != arm ==> p'[b].code == p[b].code) && p'[last].preds == p[last].preds + [arm]
  {
  }

  lemma LoadOutside(p: Proc, p': Proc, n0: nat, stops: set<nat>, arm: nat)
    requires |p'| == |p| && arm in stops && forall t :: t in stops ==> n0 <= t < |p| && NoCondJmp(p[t].code)
    requires NoCondJmp(p'[arm].code) && forall b :: 0 <= b < |p| && b != arm ==> p'[b].code == p[b].code
    ensures SameOutside(p, p', n0, stops)
  {
  }

  lemma ValueHasNone(e: Expr)
    requires e.Value?
    ensures ScResults(e) == []
  {
  }

  /** One more listed jump is patched, the others stay so. */
  lemma SpentOn(p0: Proc, p: Proc, p': Proc, sc: seq<ScJmp>, i: nat, v: bool)
    requires i < |sc| && KeepsSpent(p0, p) && KeepsSpent(p, p') && Spent(p', sc[i].jmp)
    requires forall k :: 0 <= k < i && sc[k].result != v ==> Spent(p, sc[k].jmp)
    ensures KeepsSpent(p0, p') && forall k :: 0 <= k < i + 1 && sc[k].result != v ==> Spent(p', sc[k].jmp)
  {
  }

  lemma OppositeHere(nodes: seq<Node>, s: seq<nat>, i: nat, v: bool, node: Node)
    requires i < |s| && s[i] < |nodes| && node == nodes[s[i]]
    ensures Jmps(nodes, s)[i] == node.sc && (Opposite(nodes, s[i], v) <==> node.sc.result != v)
  {
  }

  lemma LoopVerdict(sc: seq<ScJmp>, v: bool, ok: bool)
    requires ok <==> forall k :: 1 <= k < |sc| ==> sc[k].result == v
    ensures ok <==> OppositeOnlyAtHead(Results(sc), v)
  {
    assert forall k :: 0 <= k < |sc| ==> Results(sc)[k] == sc[k].result;
  }

  /** Taking the first free node, or a new one. */
  lemma NewSpent(p: Proc, h: Heap, l: JmpList, s: seq<nat>, sc: ScJmp, f: seq<nat>, used: set<nat>)
    requires AllSpent(p, h.nodes, f) && IsList(h.nodes, l, s) && Tidy(h, f, used + Elems(s)) && Elems(s) !! used
    ensures AllSpent(p, NewScJmp(h, l, sc).0.nodes, if f == [] then [] else f[1..])
  {
    NewKeeps(h, l, s, f, used, sc);
    NewPlaceFree(h, s, f, used);
    hide NewScJmp, Spent, IsList, Chain;
    var h' := NewScJmp(h, l, sc).0;
    forall n | n in f && f != [] && n in f[1..] ensures Spent(p, JmpOf(h'.nodes, n).jmp) {
      assert JmpOf(h'.nodes, n) == JmpOf(h.nodes, n);
    }
  }

  lemma MovSpent(p: Proc, h: Heap, dst: JmpList, src: JmpList, f: seq<nat>)
    requires AllSpent(p, h.nodes, f)
    ensures AllSpent(p, MovScJmps(h, dst, src).0.nodes, f)
  {
    hide Spent;
    assert forall n :: JmpOf(MovScJmps(h, dst, src).0.nodes, n) == JmpOf(h.nodes, n);
  }

  /** The nodes the loop has removed, and those that were free. */
  lemma RemovedSpent(p: Proc, p': Proc, nodes0: seq<Node>, nodes: seq<Node>, s: seq<nat>, f: seq<nat>, v: bool)
    requires AllSpent(p, nodes0, f) && KeepsSpent(p, p') && forall n :: JmpOf(nodes, n) == JmpOf(nodes0, n)
    requires forall k :: 0 <= k < |s| && Jmps(nodes0, s)[k].result != v ==> Spent(p', Jmps(nodes0, s)[k].jmp)
    ensures AllSpent(p', nodes, FreeSeq(nodes0, s, v, |s|) + f)
  {
    hide Spent;
    forall n | n in FreeSeq(nodes0, s, v, |s|) + f ensures Spent(p', JmpOf(nodes, n).jmp) {
      if n in FreeSeq(nodes0, s, v, |s|) {
        FreeSeqMembers(nodes0, s, v, |s|, n);
        var k :| 0 <= k < |s| && s[k] == n;
        assert Jmps(nodes0, s)[k] == JmpOf(nodes0, n);
      }
    }
  }

  lemma RoutedDistinct(p0: Proc, p: Proc, e: Expr, b0: nat, sc: seq<ScJmp>, dest: map<bool, nat>)
    requires Routed(p0, p, e, b0, sc, dest)
    ensures forall k, m :: 0 <= k < m < |sc| ==> sc[k].jmp != sc[m].jmp
    ensures forall k :: 0 <= k < |sc| ==> IsPending(p, sc[k].jmp) && InRegion(p, b0, |p0|, sc[k].jmp.bb)
  {
  }

  /** When the last node is lost, its jump is. */
  lemma LosesLast(n0: nat, s: Builder, b0: nat, nodes0: seq<Node>, list: JmpList, t: seq<nat>, f: seq<nat>,
                  held: set<nat>, open: nat)
    requires t != [] && Sealed(s.mem.nodes, held)
    requires Lost(s.mem.nodes, list.first, s.mem.freelist, t[|t| - 1], Elems(t) + Elems(f))
    requires forall n :: JmpOf(s.mem.nodes, n) == JmpOf(nodes0, n)
    requires forall k, m :: 0 <= k < m < |t| ==> Jmps(nodes0, t)[k].jmp != Jmps(nodes0, t)[m].jmp
    requires AllSpent(s.blocks, nodes0, f) && forall n :: n in held ==>
      JmpOf(nodes0, n).jmp.bb < n0 && JmpOf(nodes0, n).jmp.bb != b0
    requires var j := JmpOf(nodes0, t[|t| - 1]).jmp; IsPending(s.blocks, j) && InRegion(s.blocks, b0, n0, j.bb)
    requires open < |s.blocks| && s.blocks[open].code == []
    ensures Gone(n0, b0, s, held, open, LinkedCmp(list, NO_FINAL))
  {
    var n := t[|t| - 1];
    var j := JmpOf(nodes0, n).jmp;
    var c :| c <= Elems(t) + Elems(f) - {n} && Sealed(s.mem.nodes, c) && Leads(list.first, c) &&
      Leads(s.mem.freelist, c);
    forall m | m in c + held ensures JmpOf(nodes0, m).jmp != j { NotLast(nodes0, s.blocks, t, f, c, m); }
    LeadsWider(list.first, c, held);
    LeadsWider(s.mem.freelist, c, held);
    assert Sealed(s.mem.nodes, c + held);
    assert NotAmong(s.mem, c + held, j) by {
      forall m | m in c + held && m < |s.mem.nodes|
        ensures s.mem.nodes[m].sc.jmp != j { assert JmpOf(s.mem.nodes, m).jmp != j; }
    }
    assert Hidden(s, c + held, j) && Away(open, LinkedCmp(list, NO_FINAL), c + held, j);
  }

  lemma LeadsWider(to: Option<nat>, c: set<nat>, d: set<nat>)
    requires Leads(to, c)
    ensures Leads(to, c + d)
  {
  }

  lemma NotLast(nodes0: seq<Node>, p: Proc, t: seq<nat>, f: seq<nat>, c: set<nat>, m: nat)
    requires t != [] && c <= Elems(t) + Elems(f) - {t[|t| - 1]} && AllSpent(p, nodes0, f)
    requires forall k, m :: 0 <= k < m < |t| ==> Jmps(nodes0, t)[k].jmp != Jmps(nodes0, t)[m].jmp
    requires IsPending(p, JmpOf(nodes0, t[|t| - 1]).jmp)
    ensures m in c ==> JmpOf(nodes0, m).jmp != JmpOf(nodes0, t[|t| - 1]).jmp
  {
    if m in c && m in t {
      var k :| 0 <= k < |t| && t[k] == m;
      assert Jmps(nodes0, t)[k] == JmpOf(nodes0, m) && Jmps(nodes0, t)[|t| - 1] == JmpOf(nodes0, t[|t| - 1]);
    }
  }

  /** With the left operand lowered, the right one can be. */
  lemma RightReady(p0: Proc, p1: Proc, l: Expr, b0: nat, nodes0: seq<Node>, nodes1: seq<Node>, s: seq<nat>,
                   list: JmpList, dest: map<bool, nat>, right: nat, held: set<nat>)
    requires Routed(p0, p1, l, b0, Jmps(nodes1, s), dest) && IsList(nodes1, list, s) && Older(p0, b0, nodes0, held)
    requires Untouched(nodes0, nodes1, held) && |p0| <= right < |p1| && p1[right].code == []
    ensures Older(p1, right, nodes1, held + Elems(s)) && |p0| <= |p1|
  {
    RoutedDistinct(p0, p1, l, b0, Jmps(nodes1, s), dest);
    ChainInside(nodes1, list.first, s);
    hide Chain, Routes;
    forall n | n in Elems(s)
      ensures n < |nodes1| && JmpOf(nodes1, n).jmp.bb < |p1| && JmpOf(nodes1, n).jmp.bb != right {
      var k :| 0 <= k < |s| && s[k] == n;
      assert IsPending(p1, Jmps(nodes1, s)[k].jmp);
    }
  }

  lemma StillList(nodes0: seq<Node>, nodes1: seq<Node>, nodes2: seq<Node>, list: JmpList, s: seq<nat>, held: set<nat>)
    requires Untouched(nodes0, nodes1, held) && Untouched(nodes1, nodes2, held + Elems(s)) && IsList(nodes1, list, s)
    ensures IsList(nodes2, list, s) && Jmps(nodes2, s) == Jmps(nodes1, s) && Untouched(nodes0, nodes2, held)
  {
    ListKept(nodes1, nodes2, list, s);
  }

  lemma UntouchedOn(nodes0: seq<Node>, nodes1: seq<Node>, nodes2: seq<Node>, held: set<nat>)
    requires Untouched(nodes0, nodes1, held) && Untouched(nodes1, nodes2, held)
    ensures Untouched(nodes0, nodes2, held)
  {
  }

  lemma HeldStays(p0: Proc, b0: nat, nodes0: seq<Node>, nodes: seq<Node>, held: set<nat>)
    requires Older(p0, b0, nodes0, held) && Sealed(nodes0, held) && Untouched(nodes0, nodes, held)
    ensures Older(p0, b0, nodes, held) && Sealed(nodes, held)
  {
  }

  /** Nodes of a list that is not used any more. */
  lemma Dropped(h: Heap, f: seq<nat>, nodes0: seq<Node>, held: set<nat>, s: seq<nat>)
    requires Tidy(h, f, held + Elems(s)) && Sealed(nodes0, held) && Untouched(nodes0, h.nodes, held)
    ensures Tidy(h, f, held)
  {
  }

  // ---- what consumers of a tree get ----

  /** No jump emitted from block b0 on is left without a target, and the other blocks keep their code. */
  ghost predicate Settled(p0: Proc, p: Proc, b0: nat) {
    (forall j :: IsPending(p, j) && InRegion(p, b0, |p0|, j.bb) ==> false) &&
    (forall b: nat :: b < |p0| && b != b0 ==> b < |p| && p[b].code == p0[b].code)
  }

  /** What the consumer of a condition gets: the run from the end of hdr arrives at jmpBB exactly
      when the tree has the value jmpResult, at last otherwise, after evaluating exactly the leaves
      of short-circuit evaluation; and no jump emitted for it is left without a target. */
  ghost predicate BranchesOn(p0: Proc, p: Proc, e: Expr, hdr: nat, jmpResult: bool, jmpBB: nat, last: nat)
    requires hdr < |p0|
  {
    (forall env: Env, st: State :: ArrivesRight(p, env, st, e, hdr, |p0[hdr].code|, jmpResult, jmpBB, last)) &&
      Settled(p0, p, hdr)
  }

  ghost predicate ArrivesRight(p: Proc, env: Env, st: State, e: Expr, hdr: nat, i0: nat, jmpResult: bool, jmpBB: nat,
                               last: nat) {
    match Run(p, env, hdr, i0, st, {jmpBB, last})
    case At(t, i, s) =>
      t == (if Eval(e, env) == jmpResult then jmpBB else last) && i == 0 && s.trace == st.trace + Trace(e, env)
    case _ => false
  }

  /** Where the two values of a condition lead. */
  function CondDest(jmpResult: bool, jmpBB: nat,
                    last: nat): map<bool, nat> { map[!jmpResult := last, jmpResult := jmpBB] }

  lemma CondTarget(jmpResult: bool, jmpBB: nat, last: nat, v: bool)
    ensures v in CondDest(jmpResult, jmpBB, last) &&
      CondDest(jmpResult, jmpBB, last)[v] == if v == jmpResult then jmpBB else last
  {
  }

  lemma RoutedSettled(p0: Proc, p: Proc, e: Expr, b0: nat, dest: map<bool, nat>)
    requires Routed(p0, p, e, b0, [], dest)
    ensures Settled(p0, p, b0)
  {
  }

  lemma LoweredSettled(p0: Proc, p: Proc, e: Expr, b0: nat, d: DeferredCmp, eb: nat)
    requires Lowered(p0, p, e, b0, d, eb) && d.fin.jmp.None?
    ensures Settled(p0, p, b0)
  {
  }

  lemma PhiSettled(p0: Proc, p: Proc, b0: nat, b: nat, r: nat, args: seq<PhiArg>)
    requires Settled(p0, p, b0) && |p0| <= b < |p|
    ensures Settled(p0, AddInstr(p, b, Phi(r, args)), b0)
  {
    var p' := AddInstr(p, b, Phi(r, args));
    forall j | IsPending(p', j) && InRegion(p', b0, |p0|, j.bb) ensures false {
      assert IsPending(p, j);
    }
  }

  lemma {:induction false} RoutedBranches(p0: Proc, p: Proc, e: Expr, hdr: nat, jmpResult: bool, jmpBB: nat, last: nat)
    requires Routed(p0, p, e, hdr, [], CondDest(jmpResult, jmpBB, last))
    ensures BranchesOn(p0, p, e, hdr, jmpResult, jmpBB, last)
  {
    var dest := CondDest(jmpResult, jmpBB, last);
    assert Dests(dest) == {jmpBB, last};
    forall env: Env, st: State
      ensures ArrivesRight(p, env, st, e, hdr, |p0[hdr].code|, jmpResult, jmpBB, last)
    {
      assert RoutesAt(p, env, st, e, hdr, |p0[hdr].code|, [], dest);
    }
  }

  /** What a caller may use about a listed jump that is to be patched. */
  lemma RoutedJump(p0: Proc, p: Proc, e: Expr, b0: nat, sc: seq<ScJmp>, dest: map<bool, nat>, k: nat)
    requires Routed(p0, p, e, b0, sc, dest) && k < |sc| && sc[k].result in dest && dest[sc[k].result] < |p|
    ensures IsPending(p, sc[k].jmp) && InstrAt(p, sc[k].jmp).falseBB != dest[sc[k].result]
    ensures |PatchJmp(p, sc[k].jmp, dest[sc[k].result])| == |p|
    ensures forall b :: 0 <= b < |p| && NoCondJmp(p[b].code) ==>
      PatchJmp(p, sc[k].jmp, dest[sc[k].result])[b].code == p[b].code
    ensures forall b :: 0 <= b < |p| && b != dest[sc[k].result] ==>
      PatchJmp(p, sc[k].jmp, dest[sc[k].result])[b].preds == p[b].preds
  {
    PatchShape(p, sc[k].jmp, dest[sc[k].result]);
  }

  /** After running from the end of block b0 to the end of block last, register dst holds the value of the tree. */
  ghost predicate Holds(p0: Proc, p: Proc, e: Expr, b0: nat, last: nat, dst: nat)
    requires b0 < |p0|
  {
    forall env: Env, st: State :: HoldsAt(p, env, st, e, b0, |p0[b0].code|, last, dst)
  }

  ghost predicate HoldsAt(p: Proc, env: Env, st: State, e: Expr, b0: nat, i0: nat, last: nat, dst: nat) {
    match RunFrom(p, env, b0, i0, st, {last})
    case At(t, i, s) =>
      t == last && last < |p| &&
      var s2 := ExecCode(p[last].code, i, env, s);
      dst in s2.regs && s2.regs[dst] == Eval(e, env) && s2.trace == st.trace + Trace(e, env)
    case _ => false
  }

  /** A register cannot hold the value of a tree and of its negation. */
  lemma HoldsOne(p0: Proc, p: Proc, e: Expr, b0: nat, last: nat, dst: nat)
    requires b0 < |p0| && Holds(p0, p, e, b0, last, dst)
    ensures !Holds(p0, p, Not(e), b0, last, dst)
  {
    var env: Env := _ => Operands(0, 0);
    var st := State(map[], [], 0);
    assert HoldsAt(p, env, st, e, b0, |p0[b0].code|, last, dst);
    assert !HoldsAt(p, env, st, Not(e), b0, |p0[b0].code|, last, dst);
  }

  /** The jumps still open when those of sc without the result v have been patched as far as place i. */
  function Remaining(sc: seq<ScJmp>, i: nat, v: bool, rest: seq<ScJmp>): seq<ScJmp>
    requires i <= |sc|
  {
    WithResult(sc[..i], v) + sc[i..] + rest
  }

  lemma RemainingEnds(sc: seq<ScJmp>, v: bool, rest: seq<ScJmp>)
    ensures Remaining(sc, 0, v, rest) == sc + rest && Remaining(sc, |sc|, v, rest) == WithResult(sc, v) + rest
  {
    assert sc[..0] == [] && sc[0..] == sc && sc[..|sc|] == sc && sc[|sc|..] == [];
    assert WithResult(sc[..0], v) + sc[0..] == sc;
  }

  lemma RemainingNext(sc: seq<ScJmp>, i: nat, v: bool, rest: seq<ScJmp>)
    requires i < |sc|
    ensures var list, k, next := Remaining(sc, i, v, rest), |WithResult(sc[..i], v)|, Remaining(sc, i + 1, v, rest);
      k < |list| && list[k] == sc[i] && (sc[i].result == v ==> next == list) &&
        (sc[i].result != v ==> next == Without(list, k))
  {
    assert sc[..i + 1][..i] == sc[..i];
    assert sc[i..] == [sc[i]] + sc[i + 1..];
  }

  lemma {:induction false} WithResultNone(sc: seq<ScJmp>, v: bool)
    requires forall k :: 0 <= k < |sc| ==> sc[k].result != v
    ensures WithResult(sc, v) == []
  {
    if sc != [] { WithResultNone(sc[..|sc| - 1], v); }
  }

  lemma {:induction false} WithResultFirst(sc: seq<ScJmp>, v: bool)
    requires sc != []
    ensures WithResult(sc, v) == (if sc[0].result == v then [sc[0]] else []) + WithResult(sc[1..], v)
  {
    if |sc| > 1 {
      WithResultFirst(sc[..|sc| - 1], v);
      assert sc[..|sc| - 1][1..] == sc[1..][..|sc| - 2];
    } else {
      assert sc[..0] == [] && sc[1..] == [];
    }
  }

  lemma {:induction false} WithResultHas(sc: seq<ScJmp>, v: bool, k: nat)
    requires k < |sc| && sc[k].result == v
    ensures sc[k] in WithResult(sc, v)
  {
    if k < |sc| - 1 { WithResultHas(sc[..|sc| - 1], v, k); }
  }

  /** Those with the result v from place i on. */
  lemma OpenNext(sc: seq<ScJmp>, i: nat, v: bool)
    requires i < |sc|
    ensures var open, next := WithResult(sc[i..], v), WithResult(sc[i + 1..], v);
      if sc[i].result == v then open != [] && open[0] == sc[i] && Without(open, 0) == next else open == next
  {
    WithResultFirst(sc[i..], v);
    assert sc[i..][1..] == sc[i + 1..];
  }

  /** All from place i on. */
  function From(sc: seq<ScJmp>, i: nat): seq<ScJmp>
    requires i <= |sc|
  {
    sc[i..]
  }

  lemma FromEnds(sc: seq<ScJmp>)
    ensures From(sc, 0) == sc && From(sc, |sc|) == []
  {
  }

  lemma FromNext(sc: seq<ScJmp>, i: nat)
    requires i < |sc|
    ensures From(sc, i) != [] && From(sc, i)[0] == sc[i] && Without(From(sc, i), 0) == From(sc, i + 1)
  {
  }

  /** A jump appended last is not opposite to its own value. */
  lemma NotOppositeLast(nodes: seq<Node>, s: seq<nat>, js: seq<ScJmp>, sc: ScJmp)
    requires Jmps(nodes, s) == js + [sc]
    ensures s != [] && !Opposite(nodes, s[|s| - 1], sc.result) && Results(Jmps(nodes, s)) == Results(js) + [sc.result]
  {
    assert Jmps(nodes, s)[|s| - 1] == sc;
  }

  ghost predicate NoCondJmp(code: seq<Instr>) {
    forall k :: 0 <= k < |code| ==> !code[k].CondJmp?
  }

  /** Patching changes blocks that end in a conditional jump, and predecessors of the targets only. */
  ghost predicate PatchesOnly(p: Proc, p': Proc, targets: set<nat>) {
    |p'| == |p| &&
    (forall b: nat :: b < |p| && NoCondJmp(p[b].code) ==> p'[b].code == p[b].code) &&
    (forall b: nat :: b < |p| && b !in targets ==> p'[b].preds == p[b].preds)
  }

  lemma FinalOfTwo(sc: seq<ScJmp>, x: ScJmp)
    ensures (sc + [x])[|sc|] == x && Without(sc + [x], |sc|) == sc
  {
  }

  lemma PatchesRefl(p: Proc, targets: set<nat>)
    ensures PatchesOnly(p, p, targets)
  {
  }

  lemma PatchesTrans(p: Proc, p1: Proc, p2: Proc, targets: set<nat>, t: nat)
    requires PatchesOnly(p, p1, targets) && PatchesOnly(p1, p2, {t}) && t in targets
    ensures PatchesOnly(p, p2, targets)
  {
    hide NoCondJmp;
  }

  lemma StaysEmpty(p: Proc, p': Proc, targets: set<nat>, b: nat)
    requires PatchesOnly(p, p', targets) && b < |p|
    ensures b < |p'| && (p[b].code == [] ==> p'[b].code == [])
  {
  }

  /** Without a jump the compare's register is the result, whatever polarity the comparison has. */
  lemma {:induction false} NoJumpHolds(p0: Proc, p: Proc, e: Expr, b0: nat, d: DeferredCmp, eb: nat)
    requires Lowered(p0, p, e, b0, d, eb) && d.fin.jmp.None?
    ensures HasInstr(p, d.fin.cmp) && InstrAt(p, d.fin.cmp).IntCmp?
    ensures Holds(p0, p, if d.fin.result then e else Not(e), b0, eb, InstrAt(p, d.fin.cmp).r)
  {
    var e' := if d.fin.result then e else Not(e);
    var c := InstrAt(p, d.fin.cmp);
    forall env: Env, st: State
      ensures HoldsAt(p, env, st, e', b0, |p0[b0].code|, eb, c.r)
    {
      assert DecidesAt(p, env, st, e, b0, |p0[b0].code|, d);
      var o := RunFrom(p, env, b0, |p0[b0].code|, st, {eb});
      var code := p[eb].code;
      assert code == code[..|code| - 1] + [c];
      ExecAppend(code[..|code| - 1], c, o.at, env, o.st);
    }
  }

  /** The two ways into the block that joins them, and the register each loads. */
  ghost predicate Joins(p: Proc, t: nat, f: nat, last: nat, one: nat, zero: nat, dst: nat) {
    |p| == t + 3 && f == t + 1 && last == t + 2 &&
    p[t].code == [Limm(one, true), Jmp(last)] && p[f].code == [Limm(zero, false), Jmp(last)] &&
    p[last].code == [Phi(dst, [PhiArg(t, one), PhiArg(f, zero)])] &&
    p[last].preds == [t, f]
  }

  lemma {:induction false} JoinHolds(p0: Proc, p: Proc, p': Proc, e: Expr, b0: nat,
                                     t: nat, f: nat, last: nat, one: nat, zero: nat, dst: nat)
    requires Routed(p0, p, e, b0, [], map[true := t, false := f])
    requires |p'| == |p| && forall b :: 0 <= b < |p| && b != last ==> p'[b].code == p[b].code
    requires Joins(p', t, f, last, one, zero, dst) && |p0| <= t && PredsInverse(p) && p[last].preds == [t, f]
    ensures Holds(p0, p', e, b0, last, dst)
  {
    var dest := map[true := t, false := f];
    assert Dests(dest) == {t, f};
    assert NotEntered(p, b0, |p0|, {t, f}, last) by {
      forall b: nat | InRegion(p, b0, |p0|, b) && (b == b0 || b !in {t, f}) && p[b].Closed()
        ensures var ins := p[b].code[|p[b].code| - 1];
          ins.CondJmp? && ins.falseBB != last && ins.trueBB != Some(last)
      {
        assert b !in p[last].preds;
        assert !Edge(p, b, last);
      }
    }
    forall env: Env, st: State
      ensures HoldsAt(p', env, st, e, b0, |p0[b0].code|, last, dst)
    {
      assert RoutesAt(p, env, st, e, b0, |p0[b0].code|, [], dest);
      JoinHoldsAt(p, p', env, st, e, b0, |p0|, |p0[b0].code|, t, f, last, one, zero, dst);
    }
  }

  lemma {:induction false} JoinHoldsAt(p: Proc, p': Proc, env: Env, st: State, e: Expr, b0: nat, n0: nat, i0: nat,
                                       t: nat, f: nat, last: nat, one: nat, zero: nat, dst: nat)
    requires b0 < n0 <= t && b0 < |p| && Targets(p, b0, n0, {t, f}) && NotEntered(p, b0, n0, {t, f}, last)
    requires |p'| == |p| && forall b :: 0 <= b < |p| && b != last ==> p'[b].code == p[b].code
    requires Joins(p', t, f, last, one, zero, dst)
    requires RoutesAt(p, env, st, e, b0, i0, [], map[true := t, false := f])
    ensures HoldsAt(p', env, st, e, b0, i0, last, dst)
  {
    JoinArrives(p, p', env, st, e, b0, n0, i0, t, f, last);
    var o := Run(p, env, b0, i0, st, {t, f});
    var x, s := o.bb, o.st;
    hide Run, Targets, NotEntered, RoutesAt;
    var r, v := if x == t then one else zero, x == t;
    assert p'[x].code == [Limm(r, v), Jmp(last)];
    LoadAndJump(p', env, x, s, r, v, last);
    var s2 := s.(regs := s.regs[r := v], prev := x);
    assert RunFrom(p', env, b0, i0, st, {last}) == At(last, 0, s2);
    PhiJoin(dst, t, one, f, zero, env, s2);
  }

  /** The run arrives at the arm for the value of the tree, and goes on there in the final blocks. */
  lemma {:induction false} JoinArrives(p: Proc, p': Proc, env: Env, st: State, e: Expr, b0: nat, n0: nat, i0: nat,
                                       t: nat, f: nat, last: nat)
    requires b0 < n0 <= t && b0 < |p| && Targets(p, b0, n0, {t, f}) && NotEntered(p, b0, n0, {t, f}, last)
    requires |p'| == |p| == t + 3 && f == t + 1 && last == t + 2 && forall b :: 0 <= b < |p| && b != last ==>
      p'[b].code == p[b].code
    requires RoutesAt(p, env, st, e, b0, i0, [], map[true := t, false := f])
    ensures var o := Run(p, env, b0, i0, st, {t, f});
      o.At? && o.bb == (if Eval(e, env) then t else f) && o.st.trace == st.trace + Trace(e, env) &&
      RunFrom(p', env, b0, i0, st, {last}) == Run(p', env, o.bb, 0, o.st, {last})
  {
    JoinComposes(p, p', env, st, b0, n0, i0, t, f, last);
    hide Run, Targets, NotEntered;
    assert Dests(map[true := t, false := f]) == {t, f};
    assert RunFrom(p', env, b0, i0, st, {last}) == Run(p', env, b0, i0, st, {last});
  }

  lemma {:induction false} JoinComposes(p: Proc, p': Proc, env: Env, st: State, b0: nat, n0: nat, i0: nat, t: nat,
                                        f: nat, last: nat)
    requires b0 < n0 <= t && b0 < |p| && Targets(p, b0, n0, {t, f}) && NotEntered(p, b0, n0, {t, f}, last)
    requires |p'| == |p| == t + 3 && f == t + 1 && last == t + 2 && forall b :: 0 <= b < |p| && b != last ==>
      p'[b].code == p[b].code
    ensures var o := Run(p, env, b0, i0, st, {t, f});
      Run(p', env, b0, i0, st, {last}) == Resume(p', env, o, {last}) && (o.At? ==> o.st.prev < t)
  {
    assert {t, f} + {last} == {t, f, last};
    IgnoreStop(p, env, b0, n0, b0, i0, st, {t, f}, last);
    hide Run;
    assert Targets(p, b0, n0, {t, f, last});
    assert Agree(p, p', b0, n0, {t, f, last}, {last});
    hide Targets, Agree, NotEntered;
    ComposeRuns(p, p', env, b0, n0, b0, i0, st, {t, f, last}, {last});
    RunEnds(p, env, b0, n0, b0, i0, st, {t, f, last});
  }

  lemma LoadAndJump(p: Proc, env: Env, x: nat, s: State, r: nat, v: bool, last: nat)
    requires x < |p| && p[x].code == [Limm(r, v), Jmp(last)]
    ensures Run(p, env, x, 0, s, {last}) == At(last, 0, s.(regs := s.regs[r := v], prev := x))
  {
    var code := p[x].code;
    assert ExecCode(code, 2, env, Step(code[1], env, Step(code[0], env, s))) == Step(code[0], env, s);
    assert ExecCode(code, 1, env, Step(code[0], env, s)) == Step(code[0], env, s);
  }

  lemma PhiJoin(dst: nat, t: nat, one: nat, f: nat, zero: nat, env: Env, s: State)
    requires t != f && s.prev in {t, f}
    requires s.prev == t ==> one in s.regs && s.regs[one]
    requires s.prev == f ==> zero in s.regs && !s.regs[zero]
    ensures ExecCode([Phi(dst, [PhiArg(t, one), PhiArg(f, zero)])], 0, env, s)
         == s.(regs := s.regs[dst := s.prev == t])
  {
    var args := [PhiArg(t, one), PhiArg(f, zero)];
    assert args[1..] == [PhiArg(f, zero)];
    assert PhiValue(args, s) == (s.prev == t);
    var code := [Phi(dst, args)];
    assert ExecCode(code, 1, env, Step(code[0], env, s)) == Step(code[0], env, s);
  }

  /** The final jump of a lowered condition, patched to the consumer's block. */
  lemma {:induction false} FinalSplit(p0: Proc, p: Proc, e: Expr, b0: nat, d: DeferredCmp, eb: nat, jmpBB: nat)
    requires Lowered(p0, p, e, b0, d, eb) && d.fin.jmp.Some? && jmpBB < |p0|
    ensures IsPending(p, d.fin.jmp.value) && InstrAt(p, d.fin.jmp.value).falseBB != jmpBB
    ensures |p0| <= eb < |p| && p[eb].code == []
    ensures var p' := PatchJmp(p, d.fin.jmp.value, jmpBB);
      Routed(p0, p', e, b0, d.sc, CondDest(d.fin.result, jmpBB, eb)) &&
      |p'| == |p| && p'[eb].code == []
  {
    var list := d.sc + [ScJmp(d.fin.result, d.fin.jmp.value, d.fin.cmp)];
    var dest, dest' := map[!d.fin.result := eb], CondDest(d.fin.result, jmpBB, eb);
    SplitRouted(p0, p, e, b0, d, eb);
    FinalFacts(p0, p, e, b0, d, eb, jmpBB);
    hide Lowered, Routed, IsPending, InstrAt;
    assert Dests(dest) == {eb};
    AddDestination(p0, p, e, b0, list, dest, d.fin.result, jmpBB);
    assert dest[d.fin.result := jmpBB] == dest';
    PatchRouted(p0, p, e, b0, list, dest', |d.sc|);
    assert Without(list, |d.sc|) == d.sc;
    PatchShape(p, d.fin.jmp.value, jmpBB);
  }

  lemma FinalFacts(p0: Proc, p: Proc, e: Expr, b0: nat, d: DeferredCmp, eb: nat, jmpBB: nat)
    requires Lowered(p0, p, e, b0, d, eb) && d.fin.jmp.Some? && jmpBB < |p0|
    ensures IsPending(p, d.fin.jmp.value) && InstrAt(p, d.fin.jmp.value).falseBB == eb
    ensures b0 < |p0| <= eb < |p| && p[eb].code == [] && !p0[b0].Closed() && NotEntered(p, b0, |p0|, {eb}, jmpBB)
    ensures var list := d.sc + [ScJmp(d.fin.result, d.fin.jmp.value, d.fin.cmp)];
      forall k :: 0 <= k < |list| ==> list[k].jmp.bb != eb
  {
    hide Decides;
    var list := d.sc + [ScJmp(d.fin.result, d.fin.jmp.value, d.fin.cmp)];
    assert forall k :: 0 <= k < |list| ==> IsPending(p, list[k].jmp);
  }

  // ---- the operations step by step ----

  lemma NewPointers(h: Heap, l: JmpList, s: seq<nat>, f: seq<nat>, used: set<nat>)
    requires IsList(h.nodes, l, s) && Tidy(h, f, used + Elems(s))
    ensures h.freelist.Some? ==> h.freelist.value < |h.nodes| && h.freelist != l.last
    ensures l.last.Some? ==> l.last.value < |h.nodes|
  {
    ChainInside(h.nodes, h.freelist, f);
    ChainInside(h.nodes, l.first, s);
    LastIn(h.nodes, l, s);
    assert h.freelist.Some? ==> h.freelist.value in f;
  }

  lemma NewBySteps(h: Heap, h': Heap, l: JmpList, l': JmpList, sc: ScJmp, n: nat)
    requires n == NewPlace(h) && n <= |h.nodes| && (n == |h.nodes| ==> h.freelist.None?)
    requires l.last.Some? ==> l.last.value < |h.nodes| && l.last.value != n
    requires h'.freelist == if n < |h.nodes| then h.nodes[n].next else None
    requires |h'.nodes| == if n < |h.nodes| then |h.nodes| else n + 1
    requires h'.nodes[n] == Node(sc, None) && l' == JmpList(if l.last.Some? then l.first else Some(n), Some(n))
    requires forall m :: 0 <= m < |h.nodes| && m != n ==>
      h'.nodes[m] == if l.last == Some(m) then h.nodes[m].(next := Some(n)) else h.nodes[m]
    ensures (h', l') == NewScJmp(h, l, sc)
  {
    var nodes := NewScJmp(h, l, sc).0.nodes;
    assert |nodes| == |h'.nodes|;
    forall m | 0 <= m < |nodes| ensures nodes[m] == h'.nodes[m] {}
    assert nodes == h'.nodes;
  }

  lemma MovIntoEmpty(h: Heap, dst: JmpList, src: JmpList)
    requires dst.first.None?
    ensures MovScJmps(h, dst, src) == (h, src)
  {
  }

  lemma MovNothing(h: Heap, dst: JmpList, src: JmpList)
    requires dst.first.Some? && src.first.None?
    ensures MovScJmps(h, dst, src) == (h, dst)
  {
  }

  lemma MovBehind(h: Heap, dst: JmpList, src: JmpList, s: seq<nat>)
    requires dst.first.Some? && src.first.Some? && IsList(h.nodes, dst, s)
    ensures dst.last.Some? && dst.last.value < |h.nodes|
    ensures var last := dst.last.value;
      MovScJmps(h, dst, src) == (h.(nodes := h.nodes[last := h.nodes[last].(next := src.first)]),
        JmpList(dst.first, src.last))
  {
    ChainInside(h.nodes, dst.first, s);
  }
}
