/** The code a boolean tree becomes, block by block: each leaf ends a block with its evaluation, one compare and one
    branch, in the order they are written in, and nothing else is emitted. This holds whatever the lists hold. */
module LoweredCode {
  import opened Basics
  import opened ShortCircuitIR
  import opened ShortCircuitProof
  import opened ScJmpLists
  import opened Lowering
  import opened ShortCircuitSpec

  /** An instruction without what is filled in or inverted later. */
  datatype Kind = Evaluates(id: nat) | Compares(id: nat) | Branches | Loads(imm: bool) | Merges | Jumps(target: nat)

  function KindOf(ins: Instr): Kind {
    match ins
    case Compute(id) => Evaluates(id)
    case IntCmp(_, id, _, _) => Compares(id)
    case CondJmp(_, _, _) => Branches
    case Limm(_, imm) => Loads(imm)
    case Phi(_, _) => Merges
    case Jmp(t) => Jumps(t)
  }

  type Outline = seq<seq<Kind>>

  function Kinds(code: seq<Instr>): seq<Kind> { seq(|code|, k requires 0 <= k < |code| => KindOf(code[k])) }

  function OutlineOf(p: Proc): (o: Outline)
    ensures |o| == |p|
  {
    seq(|p|, b requires 0 <= b < |p| => Kinds(p[b].code))
  }

  /** The leaves of a tree from left to right. */
  function LeafIds(e: Expr): (ids: seq<nat>)
    ensures ids != []
  {
    match e
    case Compare(_, id) => [id]
    case Value(id) => [id]
    case And(l, r) => LeafIds(l) + LeafIds(r)
    case Or(l, r) => LeafIds(l) + LeafIds(r)
    case Not(i) => LeafIds(i)
  }

  /** What a leaf adds to the block it is evaluated in. */
  function LeafKinds(id: nat): seq<Kind> { [Evaluates(id), Compares(id), Branches] }

  /** Block b of p0 got the first leaf and one new block each of the others; the last new block is empty, and all
      other blocks are as they were. */
  ghost predicate LeafBlocks(p0: Proc, p: Proc, b: nat, ids: seq<nat>)
    requires b < |p0| && ids != []
  {
    |p| == |p0| + |ids| && p[|p| - 1].code == [] &&
    Kinds(p[b].code) == Kinds(p0[b].code) + LeafKinds(ids[0]) &&
    (forall k :: 1 <= k < |ids| ==> Kinds(p[|p0| + k - 1].code) == LeafKinds(ids[k])) &&
    (forall k :: 0 <= k < |p0| && k != b ==> Kinds(p[k].code) == Kinds(p0[k].code))
  }

  // ---- the chain of blocks ----

  function Behind(o: Outline, b: nat, ks: seq<Kind>): Outline
    requires b < |o|
  {
    o[b := o[b] + ks]
  }

  function LeafChain(o: Outline, b: nat, ids: seq<nat>): (r: (Outline, nat))
    requires b < |o|
    ensures |r.0| == |o| + |ids| && r.1 == if ids == [] then b else |r.0| - 1
    decreases |ids|
  {
    if ids == [] then (o, b) else LeafChain(Behind(o, b, LeafKinds(ids[0])) + [[]], |o|, ids[1..])
  }

  lemma {:induction false} LeafChainConcat(o: Outline, b: nat, xs: seq<nat>, ys: seq<nat>)
    requires b < |o|
    ensures var r := LeafChain(o, b, xs); LeafChain(r.0, r.1, ys) == LeafChain(o, b, xs + ys)
    decreases |xs|
  {
    if xs == [] {
      assert xs + ys == ys;
    } else {
      assert (xs + ys)[1..] == xs[1..] + ys;
      LeafChainConcat(Behind(o, b, LeafKinds(xs[0])) + [[]], |o|, xs[1..], ys);
    }
  }

  /** Every block of a chain. */
  lemma {:induction false} LeafChainAt(o: Outline, b: nat, ids: seq<nat>, k: nat)
    requires b < |o| && k < |o| + |ids|
    ensures LeafChain(o, b, ids).0[k] ==
      if k == b then o[b] + (if ids == [] then [] else LeafKinds(ids[0]))
      else if k < |o| then o[k]
      else if k == |o| + |ids| - 1 then [] else LeafKinds(ids[k - |o| + 1])
    decreases |ids|
  {
    if ids != [] {
      var o' := Behind(o, b, LeafKinds(ids[0])) + [[]];
      LeafChainAt(o', |o|, ids[1..], k);
    }
  }

  lemma LeafChainBlocks(p0: Proc, p: Proc, b: nat, ids: seq<nat>)
    requires b < |p0| && ids != [] && OutlineOf(p) == LeafChain(OutlineOf(p0), b, ids).0
    ensures LeafBlocks(p0, p, b, ids)
  {
    hide Kinds, LeafKinds, LeafChain;
    assert |p| == |OutlineOf(p)|;
    forall k: nat | k < |p| ensures Kinds(p[k].code) == LeafChainKinds(p0, b, ids, k) {
      LeafChainAt(OutlineOf(p0), b, ids, k);
    }
    NoKinds(p[|p| - 1].code);
    forall k | 1 <= k < |ids| ensures Kinds(p[|p0| + k - 1].code) == LeafKinds(ids[k]) {
      assert Kinds(p[|p0| + k - 1].code) == LeafChainKinds(p0, b, ids, |p0| + k - 1);
    }
  }

  /** The k-th block of a chain. */
  function LeafChainKinds(p0: Proc, b: nat, ids: seq<nat>, k: nat): seq<Kind>
    requires b < |p0| && ids != [] && k < |p0| + |ids|
  {
    if k == b then Kinds(p0[b].code) + LeafKinds(ids[0])
    else if k < |p0| then Kinds(p0[k].code)
    else if k == |p0| + |ids| - 1 then [] else LeafKinds(ids[k - |p0| + 1])
  }

  lemma NoKinds(code: seq<Instr>)
    ensures Kinds(code) == [] ==> code == []
  {
    assert |Kinds(code)| == |code|;
  }

  // ---- single steps ----

  /** Only block b has changed: it got the instruction ins. */
  lemma OutlineGrows(p: Proc, p': Proc, b: nat, ins: Instr)
    requires b < |p| == |p'| && p'[b].code == p[b].code + [ins]
    requires forall k :: 0 <= k < |p| && k != b ==> p'[k].code == p[k].code
    ensures OutlineOf(p') == Behind(OutlineOf(p), b, [KindOf(ins)])
  {
    assert Kinds(p[b].code + [ins]) == Kinds(p[b].code) + [KindOf(ins)];
    hide Kinds;
    forall k | 0 <= k < |p| ensures OutlineOf(p')[k] == Behind(OutlineOf(p), b, [KindOf(ins)])[k] {
      assert OutlineOf(p)[k] == Kinds(p[k].code);
    }
  }

  /** At one place there is another instruction of the same kind. */
  lemma OutlineSame(p: Proc, p': Proc, l: Loc)
    requires |p| == |p'| && HasInstr(p, l) && forall k :: 0 <= k < |p| && k != l.bb ==> p'[k].code == p[k].code
    requires |p'[l.bb].code| == |p[l.bb].code| && KindOf(p'[l.bb].code[l.at]) == KindOf(p[l.bb].code[l.at])
    requires forall k :: 0 <= k < |p[l.bb].code| && k != l.at ==> p'[l.bb].code[k] == p[l.bb].code[k]
    ensures OutlineOf(p') == OutlineOf(p)
  {
    assert Kinds(p'[l.bb].code) == Kinds(p[l.bb].code);
    hide Kinds;
  }

  lemma AddOutline(s: Builder, b: nat, ins: Instr)
    requires b < |s.blocks|
    ensures OutlineOf(Add(s, b, ins).blocks) == Behind(OutlineOf(s.blocks), b, [KindOf(ins)])
  {
    OutlineGrows(s.blocks, Add(s, b, ins).blocks, b, ins);
  }

  lemma AllocOutline(s: Builder)
    ensures OutlineOf(Alloc(s).blocks) == OutlineOf(s.blocks) + [[]]
  {
  }

  lemma AddCondJmpOutline(s: Builder, b: nat, r: nat, t: Option<nat>, f: nat)
    requires b < |s.blocks| && f < |s.blocks| && (t.Some? ==> t.value < |s.blocks|)
    ensures OutlineOf(AddCondJmp(s, b, r, t, f).blocks) == Behind(OutlineOf(s.blocks), b, [Branches])
  {
    OutlineGrows(s.blocks, AddCondJmp(s, b, r, t, f).blocks, b, CondJmp(r, t, f));
  }

  lemma AddJmpOutline(s: Builder, b: nat, to: nat)
    requires b < |s.blocks| && to < |s.blocks|
    ensures OutlineOf(AddJmp(s, b, to).blocks) == Behind(OutlineOf(s.blocks), b, [Jumps(to)])
  {
    OutlineGrows(s.blocks, AddJmp(s, b, to).blocks, b, Jmp(to));
  }

  lemma PatchOutline(s: Builder, j: Loc, to: nat)
    ensures OutlineOf(Patch(s, j, to).blocks) == OutlineOf(s.blocks)
  {
    if Patch(s, j, to) != s { OutlineSame(s.blocks, Patch(s, j, to).blocks, j); }
  }

  lemma FixPathOutline(s: Builder, fin: FinalJmp, desired: bool)
    ensures OutlineOf(FixPath(s, fin, desired).blocks) == OutlineOf(s.blocks)
  {
    if FixPath(s, fin, desired) != s { OutlineSame(s.blocks, FixPath(s, fin, desired).blocks, fin.cmp); }
  }

  lemma {:induction false} RemoveOutline(s: Builder, list: JmpList, it: Option<nat>, prev: Option<nat>, v: bool,
                                         to: nat, repaired: bool, n: nat)
    ensures OutlineOf(RemoveRounds(s, list, it, prev, v, to, repaired, n).0.blocks) == OutlineOf(s.blocks)
    decreases n
  {
    hide OutlineOf, Patch, DelScJmp;
    if AtNode(s.mem, it, n) {
      var node := s.mem.nodes[it.value];
      if node.sc.result == v {
        RemoveOutline(s, list, node.next, if repaired then it else node.next, v, to, repaired, n - 1);
      } else {
        var (h, list') := DelScJmp(s.mem, list, prev, it.value);
        PatchOutline(s, node.sc.jmp, to);
        RemoveOutline(Patch(s, node.sc.jmp, to).(mem := h), list', node.next, if repaired then prev else node.next, v,
                      to, repaired, n - 1);
      }
    }
  }

  lemma {:induction false} PatchesOutline(s: Builder, it: Option<nat>, v: bool, to: nat, n: nat)
    ensures OutlineOf(PatchRounds(s, it, v, to, n).blocks) == OutlineOf(s.blocks)
    decreases n
  {
    hide OutlineOf, Patch;
    if AtNode(s.mem, it, n) {
      var node := s.mem.nodes[it.value];
      PatchOutline(s, node.sc.jmp, to);
      PatchesOutline(if node.sc.result == v then Patch(s, node.sc.jmp, to) else s, node.next, v, to, n - 1);
    }
  }

  lemma {:induction false} CondsOutline(s: Builder, it: Option<nat>, jmpResult: bool, jmpBB: nat, last: nat, n: nat)
    ensures OutlineOf(CondRounds(s, it, jmpResult, jmpBB, last, n).blocks) == OutlineOf(s.blocks)
    decreases n
  {
    hide OutlineOf, Patch;
    if AtNode(s.mem, it, n) {
      var node := s.mem.nodes[it.value];
      var to := if node.sc.result == jmpResult then jmpBB else last;
      PatchOutline(s, node.sc.jmp, to);
      CondsOutline(Patch(s, node.sc.jmp, to), node.next, jmpResult, jmpBB, last, n - 1);
    }
  }

  // ---- trees ----

  /** The outline and the open block after a tree: all its leaves are done, or the one leaf lacks its branch, or its
      compare as well. */
  ghost predicate Emitted(o: Outline, b: nat, e: Expr, s: Builder, last: nat, er: ExprResult)
    requires b < |o|
  {
    (er.Computed? <==> e.Value?) &&
    if er.Deferred? then Tested(o, b, e, s, last, er.cmp) else OneLeafEmitted(o, b, LeafIds(e), s, last, er)
  }

  ghost predicate Tested(o: Outline, b: nat, e: Expr, s: Builder, last: nat, c: LinkedCmp)
    requires b < |o|
  {
    (c.fin.jmp.Some? <==> HasJump(e)) && last < |s.blocks| &&
    if HasJump(e) then (OutlineOf(s.blocks), last) == LeafChain(o, b, LeafIds(e))
    else OneLeafEmitted(o, b, LeafIds(e), s, last, Deferred(c))
  }

  ghost predicate OneLeafEmitted(o: Outline, b: nat, ids: seq<nat>, s: Builder, last: nat, er: ExprResult)
    requires b < |o| && ids != []
  {
    var ks := if er.Deferred? then [Evaluates(ids[0]), Compares(ids[0])] else [Evaluates(ids[0])];
    |ids| == 1 && last == b < |s.blocks| && OutlineOf(s.blocks) == Behind(o, b, ks) &&
    if er.Computed? then er.id == ids[0] else er.cmp.list == EMPTY_LIST
  }

  lemma BehindTwice(o: Outline, b: nat, xs: seq<Kind>, ys: seq<Kind>)
    requires b < |o|
    ensures Behind(Behind(o, b, xs), b, ys) == Behind(o, b, xs + ys)
  {
    assert o[b] + xs + ys == o[b] + (xs + ys);
  }

  lemma ZeroCmpOutline(s: Builder, b: nat, id: nat, result: bool)
    requires b < |s.blocks|
    ensures OutlineOf(ZeroCmp(s, b, id, result).0.blocks) == Behind(OutlineOf(s.blocks), b, [Compares(id)])
    ensures |ZeroCmp(s, b, id, result).0.blocks| == |s.blocks| && ZeroCmp(s, b, id, result).1.jmp.None?
  {
    AddOutline(s, b, IntCmp(if result then NEQ else EQ, id, true, s.nextReg));
    hide OutlineOf;
  }

  /** A leaf without its branch gets it, and a new block is open. */
  lemma OneLeaf(o: Outline, b: nat, id: nat, o': Outline)
    requires b < |o| && o' == Behind(o, b, [Evaluates(id), Compares(id)])
    ensures (Behind(o' + [[]], b, [Branches]), |o|) == LeafChain(o, b, [id])
  {
    BehindTwice(o, b, [Evaluates(id), Compares(id)], [Branches]);
    assert [Evaluates(id), Compares(id)] + [Branches] == LeafKinds(id);
    assert Behind(o' + [[]], b, [Branches]) == Behind(o', b, [Branches]) + [[]];
    var done := Behind(o, b, LeafKinds(id)) + [[]];
    assert LeafChain(done, |o|, []) == (done, |o|) && [id][1..] == [];
  }

  /** A tree as a comparison. */
  lemma AsCmpOutline(o: Outline, b: nat, e: Expr, s: Builder, last: nat, er: ExprResult, result: bool)
    requires b < |o| && Emitted(o, b, e, s, last, er)
    ensures var r := AsCmp(s, last, er, result);
      Tested(o, b, e, r.0, last, r.1)
  {
    hide OutlineOf, LeafChain, ZeroCmp;
    if er.Computed? {
      var id := LeafIds(e)[0];
      ZeroCmpOutline(s, last, er.id, result);
      BehindTwice(o, b, [Evaluates(id)], [Compares(id)]);
      assert [Evaluates(id)] + [Compares(id)] == [Evaluates(id), Compares(id)];
    }
  }

  lemma CopyJmpOutline(o: Outline, b: nat, e: Expr, s: Builder, last: nat, c: LinkedCmp, desired: bool)
    requires b < |o| && Tested(o, b, e, s, last, c)
    ensures var r := CopyJmp(s, last, c.fin, desired);
      r.2.jmp.Some? && (OutlineOf(r.0.blocks), r.1) == LeafChain(o, b, LeafIds(e)) && r.1 < |r.0.blocks|
  {
    hide LeafChain, FixPath, Alloc;
    FixPathOutline(s, c.fin, desired);
    var s1 := FixPath(s, c.fin, desired);
    assert |s1.blocks| == |OutlineOf(s1.blocks)| == |s.blocks|;
    if c.fin.jmp.None? {
      AllocOutline(s1);
      var s2 := Alloc(s1);
      assert |s2.blocks| == |OutlineOf(s2.blocks)| == |s1.blocks| + 1;
      AddCondJmpOutline(s2, last, CmpReg(s2, c.fin.cmp), None, |s1.blocks|);
      hide OutlineOf;
      var ids := LeafIds(e);
      OneLeaf(o, b, ids[0], OutlineOf(s1.blocks));
      assert ids == [ids[0]];
    }
  }

  lemma {:induction false} ExprOutline(s: Builder, b: nat, e: Expr, repaired: bool, n: nat)
    requires b < |s.blocks|
    ensures var r := LowerExpr(s, b, e, repaired, n); Emitted(OutlineOf(s.blocks), b, e, r.0, r.1, r.2)
    decreases e, 1
  {
    var o := OutlineOf(s.blocks);
    match e {
      case Value(id) => AddOutline(s, b, Compute(id));
      case Compare(cond, id) =>
        var s1 := Add(s, b, Compute(id));
        AddOutline(s, b, Compute(id));
        AddOutline(s1, b, IntCmp(cond, id, false, s1.nextReg));
        hide OutlineOf;
        BehindTwice(o, b, [Evaluates(id)], [Compares(id)]);
        assert [Evaluates(id)] + [Compares(id)] == [Evaluates(id), Compares(id)];
      case Not(i) =>
        ExprOutline(s, b, i, repaired, n);
        var r := LowerExpr(s, b, i, repaired, n);
        NotStep(s, b, i, repaired, n);
        NotOutline(o, b, i, r.0, r.1, r.2, n);
      case And(l, r) =>
        CombinedStep(s, b, true, l, r, repaired, n);
        CombinedOutline(s, b, true, l, r, repaired, n);
      case Or(l, r) =>
        CombinedStep(s, b, false, l, r, repaired, n);
        CombinedOutline(s, b, false, l, r, repaired, n);
    }
  }

  lemma NotOutline(o: Outline, b: nat, i: Expr, s: Builder, last: nat, er: ExprResult, n: nat)
    requires b < |o| && Emitted(o, b, i, s, last, er)
    ensures var r := LowerNot(s, last, er, n); Emitted(o, b, Not(i), r.0, r.1, r.2)
  {
    hide OutlineOf, LeafChain, ZeroCmp, FlipRounds;
    AsCmpOutline(o, b, i, s, last, er, false);
    assert LeafIds(Not(i)) == LeafIds(i);
  }

  lemma {:induction false} OperandOutline(s: Builder, b: nat, e: Expr, desired: bool, repaired: bool, n: nat)
    requires b < |s.blocks|
    ensures var r := LowerOperand(s, b, e, desired, repaired, n);
      r.2.fin.jmp.Some? && (OutlineOf(r.0.blocks), r.1) == LeafChain(OutlineOf(s.blocks), b, LeafIds(e)) &&
      r.1 < |r.0.blocks|
    decreases e, 2
  {
    hide OutlineOf, LeafChain, AsCmp, CopyJmp;
    ExprOutline(s, b, e, repaired, n);
    OperandStep(s, b, e, desired, repaired, n);
    var x := LowerExpr(s, b, e, repaired, n);
    AsCmpOutline(OutlineOf(s.blocks), b, e, x.0, x.1, x.2, desired);
    var y := AsCmp(x.0, x.1, x.2, desired);
    CopyJmpOutline(OutlineOf(s.blocks), b, e, y.0, x.1, y.1, desired);
  }

  lemma {:induction false} CombinedOutline(s: Builder, b: nat, isAnd: bool, l: Expr, r: Expr, repaired: bool, n: nat)
    requires b < |s.blocks|
    ensures var c := LowerShortCircuit(s, b, isAnd, l, r, repaired, n);
      Emitted(OutlineOf(s.blocks), b, Combined(isAnd, l, r), c.0, c.1, Deferred(c.2))
    decreases Combined(isAnd, l, r), 0
  {
    hide OutlineOf, LeafChain, RemoveRounds, NewScJmp, MovScJmps;
    ShortCircuitStep(s, b, isAnd, l, r, repaired, n);
    LeftStep(s, b, isAnd, l, repaired, n);
    OperandOutline(s, b, l, !isAnd, repaired, n);
    var x := LowerOperand(s, b, l, !isAnd, repaired, n);
    ListedOutline(x.0, x.1, x.2, !isAnd, repaired, n);
    var y := Listed(x.0, x.1, x.2, !isAnd, repaired, n);
    OperandOutline(y.0, x.1, r, false, repaired, n);
    LeafChainConcat(OutlineOf(s.blocks), b, LeafIds(l), LeafIds(r));
    assert LeafIds(Combined(isAnd, l, r)) == LeafIds(l) + LeafIds(r);
  }

  lemma ListedOutline(s: Builder, right: nat, c: LinkedCmp, v: bool, repaired: bool, n: nat)
    ensures OutlineOf(Listed(s, right, c, v, repaired, n).0.blocks) == OutlineOf(s.blocks)
    ensures |Listed(s, right, c, v, repaired, n).0.blocks| == |s.blocks|
  {
    hide OutlineOf, RemoveRounds, NewScJmp;
    if c.fin.jmp.Some? {
      var (h, list) := NewScJmp(s.mem, c.list, ScJmp(v, c.fin.jmp.value, c.fin.cmp));
      RemoveOutline(s.(mem := h), list, list.first, None, v, right, repaired, n);
    }
    assert |OutlineOf(Listed(s, right, c, v, repaired, n).0.blocks)| == |OutlineOf(s.blocks)|;
  }

  // ---- consumers ----

  /** A condition becomes one block for each leaf, which evaluates and tests it once, and an empty block at the end. */
  lemma CondCode(s: Builder, e: Expr, hdr: nat, jmpResult: bool, jmpBB: nat, repaired: bool, n: nat)
    requires hdr < |s.blocks| && jmpBB < |s.blocks|
    ensures var r := LowerCond(s, e, hdr, jmpResult, jmpBB, repaired, n);
      LeafBlocks(s.blocks, r.0.blocks, hdr, LeafIds(e)) && r.1 == |r.0.blocks| - 1
  {
    hide OutlineOf, LeafChain, LowerExpr, FixPath, FinalPatched, CondRounds, AsCmp, LeafBlocks;
    var o := OutlineOf(s.blocks);
    ExprOutline(s, hdr, e, repaired, n);
    var x := LowerExpr(s, hdr, e, repaired, n);
    AsCmpOutline(o, hdr, e, x.0, x.1, x.2, jmpResult);
    var y := AsCmp(x.0, x.1, x.2, jmpResult);
    var s2, fin := FixPath(y.0, y.1.fin, jmpResult), y.1.fin.(result := jmpResult);
    FixPathOutline(y.0, y.1.fin, jmpResult);
    assert |s2.blocks| == |OutlineOf(s2.blocks)| == |OutlineOf(y.0.blocks)|;
    FinalOutline(o, hdr, e, s2, x.1, y.1.(fin := fin), jmpBB);
    var z := FinalPatched(s2, x.1, fin, jmpBB);
    CondsOutline(z.0, y.1.list.first, jmpResult, jmpBB, z.1, n);
    var r := LowerCond(s, e, hdr, jmpResult, jmpBB, repaired, n);
    LeafChainBlocks(s.blocks, r.0.blocks, hdr, LeafIds(e));
    assert |r.0.blocks| == |OutlineOf(r.0.blocks)|;
  }

  lemma FinalOutline(o: Outline, b: nat, e: Expr, s: Builder, last: nat, c: LinkedCmp, jmpBB: nat)
    requires b < |o| && Tested(o, b, e, s, last, c) && jmpBB < |o|
    ensures var r := FinalPatched(s, last, c.fin, jmpBB); (OutlineOf(r.0.blocks), r.1) == LeafChain(o, b, LeafIds(e))
  {
    hide LeafChain, Patch, Alloc;
    assert |OutlineOf(s.blocks)| == |s.blocks| >= |o|;
    if c.fin.jmp.Some? {
      PatchOutline(s, c.fin.jmp.value, jmpBB);
    } else {
      AllocOutline(s);
      var s1 := Alloc(s);
      assert |s1.blocks| == |OutlineOf(s1.blocks)| == |s.blocks| + 1;
      AddCondJmpOutline(s1, last, CmpReg(s1, c.fin.cmp), Some(jmpBB), |s.blocks|);
      hide OutlineOf;
      var ids := LeafIds(e);
      OneLeaf(o, b, ids[0], OutlineOf(s.blocks));
      assert ids == [ids[0]];
    }
  }

  /** A tree as a value: after its chain of blocks the open block is the one for true, and one for false and one that
      merges them follow; a tree that is one compare gets no more code. */
  lemma BoolCode(s: Builder, b: nat, e: Expr, repaired: bool, n: nat)
    requires b < |s.blocks| && !e.Value?
    ensures HasJump(e) ==>
      var (r, c) := (LowerBool(s, b, e, repaired, n), LeafChain(OutlineOf(s.blocks), b, LeafIds(e)));
      r.1 == c.1 + 2 && OutlineOf(r.0.blocks) == WithArms(c.0, c.1)
    ensures !HasJump(e) ==>
      var (r, ids) := (LowerBool(s, b, e, repaired, n), LeafIds(e));
      r.1 == b && |ids| == 1 &&
      OutlineOf(r.0.blocks) == Behind(OutlineOf(s.blocks), b, [Evaluates(ids[0]), Compares(ids[0])])
  {
    hide OutlineOf, LeafChain, LowerExpr, Arms, FixPath, Alloc;
    ExprOutline(s, b, e, repaired, n);
    var x := LowerExpr(s, b, e, repaired, n);
    if HasJump(e) {
      var s0 := FixPath(x.0, x.2.cmp.fin, false);
      FixPathOutline(x.0, x.2.cmp.fin, false);
      AllocOutline(s0);
      AllocOutline(Alloc(s0));
      var t := x.1;
      assert |s0.blocks| == |OutlineOf(s0.blocks)| == t + 1 by { LeafChainEnd(OutlineOf(s.blocks), b, LeafIds(e)); }
      var s1 := Alloc(Alloc(s0));
      assert OutlineOf(s1.blocks) == OutlineOf(s0.blocks) + [[], []];
      assert |s1.blocks| == |OutlineOf(s1.blocks)|;
      ArmsOutline(s1, OutlineOf(s0.blocks), t, x.2.cmp.list.first, x.2.cmp.fin.jmp, n);
    }
  }

  function WithArms(o: Outline, t: nat): Outline
    requires t < |o|
  {
    Behind(o, t, [Loads(true), Jumps(t + 2)]) + [[Loads(false), Jumps(t + 2)], [Merges]]
  }

  lemma LeafChainEnd(o: Outline, b: nat, ids: seq<nat>)
    requires b < |o| && ids != []
    ensures var r := LeafChain(o, b, ids); r.1 == |r.0| - 1 && r.0[r.1] == []
  {
    LeafChainAt(o, b, ids, |o| + |ids| - 1);
  }

  lemma ArmsOutline(s: Builder, o: Outline, t: nat, first: Option<nat>, jmp: Option<Loc>, n: nat)
    requires |o| == t + 1 && OutlineOf(s.blocks) == o + [[], []]
    ensures OutlineOf(Arms(s, t, t + 1, t + 2, first, jmp, n).0.blocks) == WithArms(o, t)
  {
    hide OutlineOf, LoadConst, PatchRounds, Patch, Add;
    var s0 := PatchRounds(s, first, true, t, n);
    PatchesOutline(s, first, true, t, n);
    LoadOutline(s0, t, true, t + 2);
    var s1 := LoadConst(s0, t, true, t + 2).0;
    var s2 := if jmp.Some? then Patch(s1, jmp.value, t + 1) else s1;
    if jmp.Some? { PatchOutline(s1, jmp.value, t + 1); }
    PatchesOutline(s2, first, false, t + 1, n);
    var s3 := PatchRounds(s2, first, false, t + 1, n);
    var o1 := Behind(o, t, [Loads(true), Jumps(t + 2)]);
    assert OutlineOf(s3.blocks) == o1 + [[], []];
    LoadOutline(s3, t + 1, false, t + 2);
    var s4, zero := LoadConst(s3, t + 1, false, t + 2).0, LoadConst(s3, t + 1, false, t + 2).1;
    var ks := [Loads(false), Jumps(t + 2)];
    BehindEmpty(o1, [], ks, [[]]);
    assert o1 + [[], []] == o1 + [] + [[]] + [[]];
    assert OutlineOf(s4.blocks) == o1 + [ks] + [[]] + [];
    assert |OutlineOf(s4.blocks)| == |s4.blocks|;
    var one := LoadConst(s0, t, true, t + 2).1;
    AddOutline(s4, t + 2, Phi(s4.nextReg, [PhiArg(t, one), PhiArg(t + 1, zero)]));
    BehindEmpty(o1, [ks], [Merges], []);
    assert o1 + [ks] + [[Merges]] + [] == o1 + [ks, [Merges]];
  }

  lemma BehindEmpty(o: Outline, o1: Outline, ks: seq<Kind>, o2: Outline)
    ensures Behind(o + o1 + [[]] + o2, |o + o1|, ks) == o + o1 + [ks] + o2
  {
    assert [] + ks == ks;
  }

  lemma LoadOutline(s: Builder, arm: nat, imm: bool, last: nat)
    requires arm < |OutlineOf(s.blocks)| && last < |OutlineOf(s.blocks)|
    ensures OutlineOf(LoadConst(s, arm, imm, last).0.blocks) ==
      Behind(OutlineOf(s.blocks), arm, [Loads(imm), Jumps(last)])
  {
    hide OutlineOf, Add, AddJmp;
    var s1 := Add(s, arm, Limm(s.nextReg, imm));
    AddOutline(s, arm, Limm(s.nextReg, imm));
    assert |s1.blocks| == |OutlineOf(s1.blocks)|;
    AddJmpOutline(s1, arm, last);
    BehindTwice(OutlineOf(s.blocks), arm, [Loads(imm)], [Jumps(last)]);
    assert [Loads(imm)] + [Jumps(last)] == [Loads(imm), Jumps(last)];
  }
}
