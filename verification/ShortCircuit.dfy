/** Lowering of boolean expressions to blocks and jumps, as the procedure builder does it: jumps are
    emitted without a target, merged across sub-expressions, inverted in place and patched later. */
module ShortCircuit {
  import opened Basics
  import opened ShortCircuitIR
  import opened ShortCircuitProof
  import opened ShortCircuitGraph
  import opened ScJmpLists
  import opened Lowering
  import opened LostJumps
  import opened ShortCircuitSpec
  import opened LoweredCode

  class ProcBuilder {
    /** Whether the removal loop is taken as written, or with the predecessor kept right. */
    const repaired: bool
    var blocks: Proc
    var nextReg: nat
    /** The nodes of the lists of waiting jumps, and the freelist. */
    var mem: Heap
    ghost var free: seq<nat>

    ghost function State(): Builder
      reads this
    {
      Builder(blocks, nextReg, mem)
    }

    ghost predicate Valid()
      reads this
    {
      WellFormed(blocks, nextReg)
    }

    /** The free nodes are apart from those in use, and their jumps have been patched. */
    ghost predicate Memory(used: set<nat>)
      reads this
    {
      Tidy(mem, free, used) && AllSpent(blocks, mem.nodes, free)
    }

    /** An expression can be emitted at the end of the block while the nodes held are in use. */
    ghost predicate Ready(bblock: nat, held: set<nat>)
      reads this
    {
      Valid() && bblock < |blocks| && !blocks[bblock].Closed() && Memory(held) && Older(blocks, bblock, mem.nodes, held)
    }

    ghost predicate Holding(held: set<nat>, s: seq<nat>)
      reads this
    {
      Memory(held + Elems(s)) && Elems(s) !! held
    }

    constructor (repaired: bool)
      ensures Valid() && Memory({}) && State() == Builder([], 0, Heap([], None)) && this.repaired == repaired
    {
      this.repaired := repaired;
      blocks, nextReg, mem, free := [], 0, Heap([], None), [];
    }

    method AllocBBlock() returns (b: nat)
      requires Valid()
      modifies this`blocks, this`nextReg
      ensures Valid() && nextReg == old(nextReg)
      ensures b == |old(blocks)| && blocks == old(blocks) + [EMPTY_BLOCK]
    {
      AllocKeeps(blocks, nextReg);
      b := |blocks|;
      blocks := blocks + [EMPTY_BLOCK];
    }

    method EmitCompute(bblock: nat, id: nat)
      requires Valid() && bblock < |blocks| && !blocks[bblock].Closed()
      modifies this`blocks, this`nextReg
      ensures Valid() && nextReg == old(nextReg) + 1 && blocks == AddInstr(old(blocks), bblock, Compute(id))
    {
      AddKeeps(blocks, nextReg, bblock, Compute(id));
      blocks, nextReg := AddInstr(blocks, bblock, Compute(id)), nextReg + 1;
    }

    /** Emits a compare into a register of its own. */
    method EmitIntCmp(bblock: nat, cond: ConditionKind, id: nat, zero: bool) returns (cmp: Loc)
      requires Valid() && bblock < |blocks| && !blocks[bblock].Closed()
      modifies this`blocks, this`nextReg
      ensures Valid() && nextReg == old(nextReg) + 1 && cmp == Loc(bblock, |old(blocks)[bblock].code|)
      ensures blocks == AddInstr(old(blocks), bblock, IntCmp(cond, id, zero, old(nextReg)))
    {
      cmp := Loc(bblock, |blocks[bblock].code|);
      AddKeeps(blocks, nextReg, bblock, IntCmp(cond, id, zero, nextReg));
      blocks, nextReg := AddInstr(blocks, bblock, IntCmp(cond, id, zero, nextReg)), nextReg + 1;
    }

    /** Emits a conditional jump on the compare that ends the block. */
    method EmitCondJmp(bblock: nat, trueBB: Option<nat>, falseBB: nat) returns (jmp: Loc)
      requires Valid() && bblock < |blocks| && falseBB < |blocks| && (trueBB.Some? ==> trueBB.value < |blocks|)
      requires |blocks[bblock].code| > 0 && blocks[bblock].code[|blocks[bblock].code| - 1].IntCmp?
      requires trueBB != Some(falseBB)
      modifies this`blocks, this`nextReg
      ensures Valid() && nextReg == old(nextReg) && jmp == Loc(bblock, |old(blocks)[bblock].code|)
      ensures var code := old(blocks)[bblock].code;
        blocks == ShortCircuitIR.EmitCondJmp(old(blocks), bblock, code[|code| - 1].r, trueBB, falseBB)
    {
      jmp := Loc(bblock, |blocks[bblock].code|);
      var r := blocks[bblock].code[|blocks[bblock].code| - 1].r;
      CondJmpKeeps(blocks, nextReg, bblock, falseBB);
      if trueBB.Some? {
        var q := ShortCircuitIR.EmitCondJmp(blocks, bblock, r, None, falseBB);
        CondJmpAsPatch(blocks, bblock, r, trueBB.value, falseBB);
        assert q[bblock].code == blocks[bblock].code + [CondJmp(r, None, falseBB)];
        PatchKeeps(q, nextReg, jmp, trueBB.value);
      }
      blocks := ShortCircuitIR.EmitCondJmp(blocks, bblock, r, trueBB, falseBB);
    }

    method PatchJmpTarget(jmp: Loc, target: nat)
      requires Valid() && IsPending(blocks, jmp) && target < |blocks| && InstrAt(blocks, jmp).falseBB != target
      modifies this`blocks, this`nextReg
      ensures Valid() && nextReg == old(nextReg) && blocks == PatchJmp(old(blocks), jmp, target)
    {
      PatchKeeps(blocks, nextReg, jmp, target);
      blocks := PatchJmp(blocks, jmp, target);
    }

    /** Compares a computed value with zero. */
    method CmpToZero(bblock: nat, id: nat, cond: ConditionKind, result: bool, ghost p0: Proc) returns (fin: FinalJmp)
      requires Valid() && bblock < |p0| && !p0[bblock].Closed()
      requires blocks == AddInstr(p0, bblock, Compute(id))
      requires cond == if result then NEQ else EQ
      modifies this`blocks, this`nextReg
      ensures Valid() && fin.jmp.None? && fin.result == result
      ensures Lowered(p0, blocks, Value(id), bblock, DeferredCmp([], fin), bblock) && KeepsSpent(old(blocks), blocks)
      ensures (State(), fin) == ZeroCmp(old(State()), bblock, id, result)
    {
      assert blocks[bblock].code == p0[bblock].code + [Compute(id)];
      var cmp := EmitIntCmp(bblock, cond, id, true);
      fin := FinalJmp(result, None, cmp);
      LeafLowered(p0, bblock, Value(id), id, cond, true, old(nextReg), result);
      SpentAdd(old(blocks), bblock, IntCmp(cond, id, true, old(nextReg)));
    }

    /** Makes the jump mean the desired result, by inverting its compare in place when it does not. */
    method FixScJmpPath(fin: FinalJmp, desired: bool, ghost p0: Proc, ghost e: Expr, ghost b0: nat,
                        ghost sc: seq<ScJmp>, ghost eb: nat)
      returns (fixed: FinalJmp)
      requires Valid() && Lowered(p0, blocks, e, b0, DeferredCmp(sc, fin), eb)
      modifies this`blocks, this`nextReg
      ensures Valid() && State() == FixPath(old(State()), fin, desired) && fixed == fin.(result := desired)
      ensures Lowered(p0, blocks, e, b0, DeferredCmp(sc, fixed), eb) && KeepsSpent(old(blocks), blocks)
    {
      hide Lowered, WellFormed, SetCond, Spent;
      fixed := fin;
      if fin.result != desired {
        FlipLowered(p0, blocks, e, b0, DeferredCmp(sc, fin), eb);
        SpentSetCond(blocks, fin.cmp, OppositeCond(InstrAt(blocks, fin.cmp).cond));
        SetCondKeeps(blocks, nextReg, fin.cmp, OppositeCond(InstrAt(blocks, fin.cmp).cond));
        blocks := SetCond(blocks, fin.cmp, OppositeCond(InstrAt(blocks, fin.cmp).cond));
        fixed := fin.(result := desired);
      }
    }

    /** Fixes the jump to the desired result and emits it, without a target, if it has not been emitted. */
    method CopyScJmp(bblock: nat, src: FinalJmp, desired: bool, ghost p0: Proc, ghost e: Expr, ghost b0: nat,
                     ghost sc: seq<ScJmp>)
      returns (last: nat, dst: FinalJmp)
      requires Valid() && Lowered(p0, blocks, e, b0, DeferredCmp(sc, src), bblock)
      modifies this`blocks, this`nextReg
      ensures Valid() && dst.jmp.Some? && dst.result == desired
      ensures Lowered(p0, blocks, e, b0, DeferredCmp(sc, dst), last) && KeepsSpent(old(blocks), blocks)
      ensures (State(), last, dst) == CopyJmp(old(State()), bblock, src, desired)
    {
      hide Lowered, WellFormed, ShortCircuitIR.EmitCondJmp, Spent, FixPath;
      dst := FixScJmpPath(src, desired, p0, e, b0, sc, bblock);
      LoweredEnd(p0, blocks, e, b0, DeferredCmp(sc, dst), bblock);
      if dst.jmp.Some? {
        return bblock, dst;
      }
      JumpLowered(p0, blocks, e, b0, DeferredCmp(sc, dst), bblock);
      SpentAlloc(blocks);
      last := AllocBBlock();
      SpentCondJmp(blocks, bblock, InstrAt(blocks, dst.cmp).r, last);
      var jmp := EmitCondJmp(bblock, None, last);
      dst := dst.(jmp := Some(jmp));
    }

    // ---- lists of waiting jumps ----

    /** Appends a jump to the list. */
    method NewDeferredScJmp(list: JmpList, sc: ScJmp, ghost s: seq<nat>, ghost used: set<nat>)
      returns (list': JmpList, ghost s': seq<nat>)
      requires IsList(mem.nodes, list, s) && Holding(used, s)
      modifies this`mem, this`free
      ensures mem == NewScJmp(old(mem), list, sc).0 && list' == NewScJmp(old(mem), list, sc).1
      ensures s' == s + [NewPlace(old(mem))] && IsList(mem.nodes, list', s') &&
        Jmps(mem.nodes, s') == Jmps(old(mem.nodes), s) + [sc]
      ensures Holding(used, s') && Untouched(old(mem.nodes), mem.nodes, used)
    {
      hide IsList, Tidy, Untouched, Spent, NewScJmp, SetNext;
      NewKeeps(mem, list, s, free, used, sc);
      NewSpent(blocks, mem, list, s, sc, free, used);
      NewPointers(mem, list, s, free, used);
      ghost var h0 := mem;
      var n;
      if mem.freelist.Some? {
        n := mem.freelist.value;
        mem := mem.(freelist := mem.nodes[n].next);
      } else {
        n := |mem.nodes|;
        mem := mem.(nodes := mem.nodes + [Node(sc, None)]);
      }
      mem := mem.(nodes := mem.nodes[n := mem.nodes[n].(next := None)]);
      if list.last.Some? {
        var last := list.last.value;
        mem := mem.(nodes := mem.nodes[last := mem.nodes[last].(next := Some(n))]);
        list' := JmpList(list.first, Some(n));
      } else {
        list' := JmpList(Some(n), Some(n));
      }
      mem := mem.(nodes := mem.nodes[n := mem.nodes[n].(sc := sc)]);
      NewBySteps(h0, mem, list, list', sc, n);
      s' := s + [n];
      free := if free == [] then [] else free[1..];
    }

    /** Unlinks node n, whose predecessor in the list is said to be prev, and puts it on the freelist. */
    method DelDeferredScJmp(list: JmpList, prev: Option<nat>, n: nat) returns (list': JmpList)
      requires n < |mem.nodes| && (prev.Some? ==> prev.value < |mem.nodes|)
      modifies this`mem
      ensures mem == DelScJmp(old(mem), list, prev, n).0 && list' == DelScJmp(old(mem), list, prev, n).1
    {
      var next := mem.nodes[n].next;
      list' := list;
      if prev.Some? {
        mem := mem.(nodes := mem.nodes[prev.value := mem.nodes[prev.value].(next := next)]);
      } else {
        list' := list'.(first := next);
      }
      if list'.last == Some(n) {
        list' := list'.(last := prev);
      }
      mem := Heap(mem.nodes[n := mem.nodes[n].(next := mem.freelist)], Some(n));
    }

    /** Moves the list src to the end of dst. */
    method MovDeferredScJmpList(dst: JmpList, src: JmpList, ghost s: seq<nat>, ghost t: seq<nat>, ghost used: set<nat>)
      returns (list: JmpList)
      requires IsList(mem.nodes, dst, s) && IsList(mem.nodes, src, t) && Elems(s) !! used && Elems(t) !! used + Elems(s)
      requires Memory(used + Elems(s) + Elems(t))
      modifies this`mem
      ensures mem == MovScJmps(old(mem), dst, src).0 && list == MovScJmps(old(mem), dst, src).1
      ensures IsList(mem.nodes, list, s + t) &&
        Jmps(mem.nodes, s + t) == Jmps(old(mem.nodes), s) + Jmps(old(mem.nodes), t)
      ensures Holding(used, s + t) && Untouched(old(mem.nodes), mem.nodes, used)
    {
      hide IsList, Tidy, Spent, MovScJmps;
      MovKeeps(mem, dst, src, s, t, free, used);
      MovSpent(blocks, mem, dst, src, free);
      if dst.first.None? {
        MovIntoEmpty(mem, dst, src);
        list := src;
      } else if src.first.Some? {
        MovBehind(mem, dst, src, s);
        var last := dst.last.value;
        mem := mem.(nodes := mem.nodes[last := mem.nodes[last].(next := src.first)]);
        list := JmpList(dst.first, src.last);
      } else {
        MovNothing(mem, dst, src);
        list := dst;
      }
    }

    /** Reverses the meaning of all jumps of the list. */
    method FlipScJmps(list: JmpList, ghost s: seq<nat>, ghost used: set<nat>, ghost n: nat)
      requires IsList(mem.nodes, list, s) && Holding(used, s) && |s| <= n
      modifies this`mem
      ensures mem == FlipRounds(old(mem), list.first, n)
      ensures IsList(mem.nodes, list, s) && Holding(used, s) && Untouched(old(mem.nodes), mem.nodes, used)
      ensures Jmps(mem.nodes, s) == Flipped(Jmps(old(mem.nodes), s))
    {
      hide Tidy, AllSpent, IsList, Untouched, Flipped, FlippedTo;
      ListFirst(mem.nodes, list, s);
      ListInside(mem.nodes, list, s);
      ghost var nodes0 := mem.nodes;
      FlipStart(nodes0, s);
      var it := list.first;
      ghost var i := 0;
      while it.Some?
        invariant 0 <= i <= |s| && it == (if i < |s| then Some(s[i]) else None)
        invariant mem.freelist == old(mem.freelist) && FlippedTo(nodes0, mem.nodes, s, i)
        invariant FlipRounds(old(mem), list.first, n) == FlipRounds(mem, it, n - i)
        decreases |s| - i
      {
        ListAt(nodes0, list, s, i);
        FlipStep(nodes0, mem.nodes, s, i);
        var node := mem.nodes[it.value];
        mem := mem.(nodes := mem.nodes[it.value := node.(sc := node.sc.(result := !node.sc.result))]);
        it := node.next;
        i := i + 1;
      }
      FlipKeeps(Heap(nodes0, mem.freelist), mem, list, s, free, used);
      SpentRefl(blocks);
      StillSpent(blocks, blocks, nodes0, mem.nodes, free);
    }

    // ---- lowering ----

    /** Emits a boolean tree.  When a removal loop loses a jump the method stops and says so; what the program does
        from there on is in LowerExpr.  Its loops over lists do n rounds at most, which is enough for lists in order. */
    method EmitExpr(bblock: nat, e: Expr, ghost held: set<nat>, ghost n: nat)
      returns (ok: bool, last: nat, er: ExprResult, ghost s: seq<nat>)
      requires Ready(bblock, held) && Leaves(e) <= n
      modifies this
      ensures Valid() && (ok <==> repaired || RemovalsAtHead(e)) && (e.Value? <==> er.Computed?)
      ensures ok ==> LowerExpr(old(State()), bblock, e, repaired, n) == (State(), last, er)
      ensures e.Value? ==>
        last == bblock && er.id == e.id && s == [] && blocks == AddInstr(old(blocks), bblock, Compute(e.id))
      ensures ok && !e.Value? ==> Deferral(old(blocks), blocks, e, bblock, mem.nodes, er.cmp, s, last)
      ensures ok && !e.Value? ==> er.cmp.fin.result == FinalResult(e) && (er.cmp.fin.jmp.Some? <==> HasJump(e))
      ensures ok ==> Holding(held, s) && Untouched(old(mem.nodes), mem.nodes, held)
      ensures !ok ==> GoneExpr(|old(blocks)|, bblock, LowerExpr(old(State()), bblock, e, repaired, n), held)
      decreases e, 1
    {
      hide Lowered, WellFormed, Spent, Gone, Tidy, Kept, LowerShortCircuit, LowerNot;
      ok, last, er, s := true, bblock, Computed(0), [];
      assert held + Elems([]) == held;
      match e {
        case Value(id) =>
          SpentAdd(blocks, bblock, Compute(id));
          EmitCompute(bblock, id);
          er := Computed(id);
        case Compare(cond, id) =>
          er := EmitCompare(bblock, cond, id);
        case Not(i) =>
          ok, last, er, s := EmitNot(bblock, i, held, n);
        case And(l, r) =>
          var d;
          ok, last, d, s := EmitShortCircuitCmp(bblock, true, l, r, held, n);
          er := Deferred(d);
        case Or(l, r) =>
          var d;
          ok, last, d, s := EmitShortCircuitCmp(bblock, false, l, r, held, n);
          er := Deferred(d);
      }
    }

    /** A comparison, whose compare is emitted but not used yet. */
    method EmitCompare(bblock: nat, cond: ConditionKind, id: nat) returns (er: ExprResult)
      requires Valid() && bblock < |blocks| && !blocks[bblock].Closed()
      modifies this`blocks, this`nextReg
      ensures Valid() && KeepsSpent(old(blocks), blocks) && er.Deferred? && er.cmp.fin.result && er.cmp.fin.jmp.None?
      ensures LowerExpr(old(State()), bblock, Compare(cond, id), repaired, 0) == (State(), bblock, er)
      ensures Deferral(old(blocks), blocks, Compare(cond, id), bblock, mem.nodes, er.cmp, [], bblock)
    {
      hide Lowered, WellFormed, Spent;
      ghost var p0 := blocks;
      EmitCompute(bblock, id);
      ghost var p1 := blocks;
      assert blocks[bblock].code == p0[bblock].code + [Compute(id)];
      LeafLowered(p0, bblock, Compare(cond, id), id, cond, false, nextReg, true);
      SpentAdd(p0, bblock, Compute(id));
      SpentAdd(p1, bblock, IntCmp(cond, id, false, nextReg));
      var cmp := EmitIntCmp(bblock, cond, id, false);
      SpentTrans(p0, p1, blocks);
      er := Deferred(LinkedCmp(EMPTY_LIST, FinalJmp(true, None, cmp)));
      LeafDeferral(p0, blocks, Compare(cond, id), bblock, mem.nodes, er.cmp.fin, bblock);
    }

    /** Logical not: reverses the meaning of every jump, or compares a computed value with zero. */
    method EmitNot(bblock: nat, i: Expr, ghost held: set<nat>, ghost n: nat)
      returns (ok: bool, last: nat, er: ExprResult, ghost s: seq<nat>)
      requires Ready(bblock, held) && Leaves(i) <= n
      modifies this
      ensures Valid() && (ok <==> repaired || RemovalsAtHead(i)) && er.Deferred?
      ensures ok ==> LowerExpr(old(State()), bblock, Not(i), repaired, n) == (State(), last, er)
      ensures ok ==> Deferral(old(blocks), blocks, Not(i), bblock, mem.nodes, er.cmp, s, last)
      ensures ok ==> er.cmp.fin.result == FinalResult(Not(i)) && (er.cmp.fin.jmp.Some? <==> HasJump(Not(i)))
      ensures ok ==> Holding(held, s) && Untouched(old(mem.nodes), mem.nodes, held)
      ensures !ok ==> GoneExpr(|old(blocks)|, bblock, LowerExpr(old(State()), bblock, Not(i), repaired, n), held)
      decreases i, 2
    {
      hide Lowered, WellFormed, Spent, Gone, GoneExpr, Tidy, Kept, LowerExpr, FlipRounds, Untouched;
      ghost var s0 := State();
      NotStep(s0, bblock, i, repaired, n);
      var inner;
      ok, last, inner, s := EmitExpr(bblock, i, held, n);
      if !ok {
        er := Deferred(LinkedCmp(EMPTY_LIST, NO_FINAL));
        GoneNot(|s0.blocks|, bblock, s0, bblock, i, repaired, n, held);
        return;
      }
      if inner.Deferred? {
        ghost var nodes := mem.nodes;
        ListSize(nodes, s, i);
        FlipScJmps(inner.cmp.list, s, held, n);
        UntouchedOn(old(mem.nodes), nodes, mem.nodes, held);
        NotDeferral(old(blocks), blocks, i, bblock, nodes, mem.nodes, inner.cmp, s, last);
        er := Deferred(inner.cmp.(fin := inner.cmp.fin.(result := !inner.cmp.fin.result)));
      } else {
        var fin := CmpToZero(last, inner.id, EQ, false, old(blocks));
        NegateLowered(old(blocks), blocks, i, bblock, DeferredCmp([], fin), last);
        er := Deferred(LinkedCmp(EMPTY_LIST, fin.(result := true)));
        assert Negated(DeferredCmp([], fin)) == DeferredCmp([], er.cmp.fin);
        LeafDeferral(old(blocks), blocks, Not(i), bblock, mem.nodes, er.cmp.fin, last);
      }
    }

    /** Emits an operand of a logical and / or, with a final jump that is taken when the operand
        has the desired value. */
    method EmitOperand(bblock: nat, e: Expr, desired: bool, ghost held: set<nat>, ghost n: nat)
      returns (ok: bool, last: nat, c: LinkedCmp, ghost s: seq<nat>)
      requires Ready(bblock, held) && Leaves(e) <= n
      modifies this
      ensures Valid() && (ok <==> repaired || RemovalsAtHead(e))
      ensures ok ==> LowerOperand(old(State()), bblock, e, desired, repaired, n) == (State(), last, c)
      ensures ok ==>
        Deferral(old(blocks), blocks, e, bblock, mem.nodes, c, s, last) && c.fin.jmp.Some? && c.fin.result == desired
      ensures ok ==> Holding(held, s) && Untouched(old(mem.nodes), mem.nodes, held)
      ensures !ok ==> GoneCmp(|old(blocks)|, bblock, LowerOperand(old(State()), bblock, e, desired, repaired, n), held)
      decreases e, 2
    {
      hide Lowered, WellFormed, Spent, Gone, GoneExpr, GoneCmp, Tidy, Kept, LowerExpr, LowerOperand, CopyJmp,
        ZeroCmp, Untouched;
      ghost var s0 := State();
      OperandStep(s0, bblock, e, desired, repaired, n);
      var er;
      ok, last, er, s := EmitExpr(bblock, e, held, n);
      c := LinkedCmp(EMPTY_LIST, NO_FINAL);
      if !ok {
        GoneOperand(|s0.blocks|, bblock, s0, bblock, e, desired, repaired, n, held);
        return;
      }
      if er.Deferred? {
        c := er.cmp;
      } else {
        var zeroFin := CmpToZero(last, er.id, if desired then NEQ else EQ, desired, old(blocks));
        c := LinkedCmp(EMPTY_LIST, zeroFin);
        LeafDeferral(old(blocks), blocks, e, bblock, mem.nodes, zeroFin, last);
      }
      var fin;
      last, fin := CopyScJmp(last, c.fin, desired, old(blocks), e, bblock, Jmps(mem.nodes, s));
      c := c.(fin := fin);
    }

    /** Logical and / or. */
    method EmitShortCircuitCmp(bblock: nat, isAnd: bool, l: Expr, r: Expr, ghost held: set<nat>, ghost n: nat)
      returns (ok: bool, last: nat, d: LinkedCmp, ghost s: seq<nat>)
      requires Ready(bblock, held) && Leaves(l) + Leaves(r) <= n
      modifies this
      ensures Valid() && (ok <==> repaired || RemovalsAtHead(Combined(isAnd, l, r)))
      ensures ok ==> LowerShortCircuit(old(State()), bblock, isAnd, l, r, repaired, n) == (State(), last, d)
      ensures ok ==>
        Deferral(old(blocks), blocks, Combined(isAnd, l, r), bblock, mem.nodes, d, s, last) && !d.fin.result &&
        d.fin.jmp.Some?
      ensures ok ==> Holding(held, s) && Untouched(old(mem.nodes), mem.nodes, held)
      ensures !ok ==>
        GoneCmp(|old(blocks)|, bblock, LowerShortCircuit(old(State()), bblock, isAnd, l, r, repaired, n), held)
      decreases Combined(isAnd, l, r), 0
    {
      hide Lowered, Routed, WellFormed, Spent, AllSpent, Gone, GoneCmp, GoneList, Tidy, IsList, Kept, Untouched,
        Older, OppositeOnlyAtHead,
        ScResults, RemovalsAtHead, LowerShortCircuit, LowerLeft, LowerOperand, MovScJmps;
      ghost var s0 := State();
      CombinedParts(isAnd, l, r);
      ShortCircuitStep(s0, bblock, isAnd, l, r, repaired, n);
      var rightBB, list;
      ok, rightBB, list, s := EmitLeftOperand(bblock, isAnd, l, held, n);
      last, d := rightBB, LinkedCmp(list, NO_FINAL);
      if !ok {
        GoneRight(|s0.blocks|, bblock, s0, bblock, isAnd, l, r, repaired, n, held);
        return;
      }
      ghost var p1, nodes1 := blocks, mem.nodes;
      RightReady(old(blocks), blocks, l, bblock, old(mem.nodes), mem.nodes, s, list, map[isAnd := rightBB], rightBB,
        held);
      ghost var t;
      ok, last, d, t := EmitOperand(rightBB, r, false, held + Elems(s), n);
      if !ok {
        ListSealed(nodes1, list, s);
        GoneOuter(|s0.blocks|, bblock, |p1|, s0, bblock, isAnd, l, r, repaired, n, held, Elems(s));
        return;
      }
      StillList(old(mem.nodes), nodes1, mem.nodes, list, s, held);
      ghost var nodes2, right := mem.nodes, d;
      list := MovDeferredScJmpList(list, d.list, s, t, held);
      UntouchedOn(old(mem.nodes), nodes2, mem.nodes, held);
      CombinedDeferral(old(blocks), p1, blocks, isAnd, l, r, bblock, Jmps(nodes1, s), rightBB, nodes2, right, t,
        mem.nodes, list, s + t, last);
      d, s := LinkedCmp(list, d.fin), s + t;
    }

    /** The left operand of a logical and / or: its jumps with the short-circuit value wait in the
        list, everything else leads to the block of the right operand. */
    method EmitLeftOperand(bblock: nat, isAnd: bool, l: Expr, ghost held: set<nat>, ghost n: nat)
      returns (ok: bool, rightBB: nat, list: JmpList, ghost s: seq<nat>)
      requires Ready(bblock, held) && Leaves(l) <= n
      modifies this
      ensures Valid() && (ok <==>
        repaired || (RemovalsAtHead(l) && OppositeOnlyAtHead(ScResults(l) + [!isAnd], !isAnd)))
      ensures ok ==> LowerLeft(old(State()), bblock, isAnd, l, repaired, n) == (State(), rightBB, list)
      ensures ok ==> |old(blocks)| <= rightBB && rightBB + 1 == |blocks| && blocks[rightBB].code == []
      ensures ok ==> Routed(old(blocks), blocks, l, bblock, Jmps(mem.nodes, s), map[isAnd := rightBB])
      ensures ok ==> IsList(mem.nodes, list, s) && Results(Jmps(mem.nodes, s)) == Kept(ScResults(l) + [!isAnd], !isAnd)
      ensures ok ==> forall k :: 0 <= k < |s| ==> Jmps(mem.nodes, s)[k].result != isAnd
      ensures ok ==> Holding(held, s) && Untouched(old(mem.nodes), mem.nodes, held)
      ensures !ok ==> GoneList(|old(blocks)|, bblock, LowerLeft(old(State()), bblock, isAnd, l, repaired, n), held)
      decreases l, 3
    {
      hide Lowered, Routed, WellFormed, Spent, Gone, GoneCmp, Tidy, IsList, Kept, Untouched, OppositeOnlyAtHead,
        Opposite, Older,
        Sealed, Filter, WithResult, Chain, Results, NewScJmp, LowerLeft, LowerOperand, Listed;
      ghost var s0 := State();
      FewWait(l);
      LeftStep(s0, bblock, isAnd, l, repaired, n);
      TidySealed(mem, free, held);
      var left;
      ok, rightBB, left, s := EmitOperand(bblock, l, !isAnd, held, n);
      list := left.list;
      if !ok {
        GoneLeft(|s0.blocks|, bblock, s0, bblock, isAnd, l, repaired, n, held);
        return;
      }
      ok, list, s := ListLeft(left, !isAnd, rightBB, s, held, old(mem.nodes), old(blocks), l, bblock, n);
    }

    /** The final jump of the left operand becomes a short-circuit jump, and the opposite ones are removed. */
    method ListLeft(left: LinkedCmp, v: bool, rightBB: nat, ghost t: seq<nat>, ghost held: set<nat>,
                    ghost nodes0: seq<Node>, ghost p0: Proc, ghost l: Expr, ghost b0: nat, ghost n: nat)
      returns (ok: bool, list: JmpList, ghost s: seq<nat>)
      requires Valid() && Deferral(p0, blocks, l, b0, mem.nodes, left, t, rightBB) && left.fin.jmp.Some? &&
        left.fin.result == v
      requires Holding(held, t) && Untouched(nodes0, mem.nodes, held) && Sealed(nodes0, held) &&
        Older(p0, b0, nodes0, held)
      requires |ScResults(l)| < n
      modifies this
      ensures Valid() && (ok <==> repaired || OppositeOnlyAtHead(ScResults(l) + [v], v))
      ensures Listed(old(State()), rightBB, left, v, repaired, n) == (State(), list)
      ensures |p0| <= rightBB && rightBB + 1 == |blocks| && blocks[rightBB].code == []
      ensures ok ==> Routed(p0, blocks, l, b0, Jmps(mem.nodes, s), map[!v := rightBB])
      ensures ok ==> IsList(mem.nodes, list, s) && Results(Jmps(mem.nodes, s)) == Kept(ScResults(l) + [v], v)
      ensures ok ==> forall k :: 0 <= k < |s| ==> Jmps(mem.nodes, s)[k].result == v
      ensures ok ==> Holding(held, s) && Untouched(nodes0, mem.nodes, held)
      ensures !ok ==> Gone(|p0|, b0, State(), held, rightBB, LinkedCmp(list, NO_FINAL))
    {
      hide Lowered, Routed, WellFormed, Spent, Gone, Tidy, IsList, Kept, Untouched, OppositeOnlyAtHead, Opposite, Older,
        Sealed, Filter, WithResult, Chain, Results, NewScJmp, RemoveRounds;
      SplitRouted(p0, blocks, l, b0, View(mem.nodes, left, t), rightBB);
      LoweredEnd(p0, blocks, l, b0, View(mem.nodes, left, t), rightBB);
      ghost var nodes1, js := mem.nodes, Jmps(mem.nodes, t);
      ResultsSize(js);
      var sc := ScJmp(v, left.fin.jmp.value, left.fin.cmp);
      list, s := NewDeferredScJmp(left.list, sc, t, held);
      ghost var nodes2 := mem.nodes;
      NotOppositeLast(nodes2, s, js, sc);
      UntouchedOn(nodes0, nodes1, nodes2, held);
      HeldStays(p0, b0, nodes0, nodes2, held);
      if repaired {
        ok := true;
        list := RemoveOppositeRepaired(list, v, rightBB, s, held, p0, l, b0, n);
      } else {
        list, ok := RemoveOpposite(list, v, rightBB, s, held, p0, l, b0, n);
      }
      WithResultKept(Jmps(nodes2, s), v);
      s := Filter(nodes2, s, v);
      if ok {
        UntouchedOn(nodes0, nodes2, mem.nodes, held);
      }
    }

    /** Patches one of the waiting jumps. */
    method PatchAt(jmp: Loc, target: nat, ghost sc: seq<ScJmp>, ghost k: nat, ghost p0: Proc, ghost e: Expr,
                   ghost b0: nat, ghost dest: map<bool, nat>)
      requires Valid() && b0 < |p0| && !p0[b0].Closed() && Routed(p0, blocks, e, b0, sc, dest)
      requires k < |sc| && sc[k].jmp == jmp && sc[k].result in dest && dest[sc[k].result] == target < |blocks|
      modifies this`blocks, this`nextReg
      ensures Valid() && nextReg == old(nextReg) && |blocks| == |old(blocks)| &&
        Routed(p0, blocks, e, b0, Without(sc, k), dest)
      ensures KeepsSpent(old(blocks), blocks) && Spent(blocks, jmp)
      ensures PatchesOnly(old(blocks), blocks, {target}) && State() == Patch(old(State()), jmp, target)
    {
      hide Routed, WellFormed, PatchJmp, IsPending, InstrAt, HasInstr, NoCondJmp, KeepsSpent, Patch;
      PatchRouted(p0, blocks, e, b0, sc, dest, k);
      RoutedJump(p0, blocks, e, b0, sc, dest, k);
      SpentPatch(blocks, jmp, target);
      PatchPending(State(), jmp, target);
      PatchJmpTarget(jmp, target);
    }

    /** The loop that patches the jumps with the opposite result to the right operand and removes them.  As
        predecessor it keeps the node it goes on to, so from the second node on every node is taken for its own
        predecessor; ok says that this did no harm. */
    method RemoveOpposite(left: JmpList, v: bool, rightBB: nat, ghost s: seq<nat>, ghost held: set<nat>,
                          ghost p0: Proc, ghost l: Expr, ghost b0: nat,
                          ghost n: nat)
      returns (list: JmpList, ok: bool)
      requires Valid() && b0 < |p0| && !p0[b0].Closed() && rightBB < |blocks| && blocks[rightBB].code == [] && |s| <= n
      requires s != [] && IsList(mem.nodes, left, s) && !Opposite(mem.nodes, s[|s| - 1], v)
      requires Holding(held, s) && Sealed(mem.nodes, held) && Older(p0, b0, mem.nodes, held)
      requires Routed(p0, blocks, l, b0, Jmps(mem.nodes, s), map[!v := rightBB])
      modifies this
      ensures Valid() && nextReg == old(nextReg) && |blocks| == |old(blocks)| && blocks[rightBB].code == []
      ensures RemoveRounds(old(State()), left, left.first, None, v, rightBB, false, n) == (State(), list)
      ensures Routed(p0, blocks, l, b0, WithResult(Jmps(old(mem.nodes), s), v), map[!v := rightBB])
      ensures ok <==> OppositeOnlyAtHead(Results(Jmps(old(mem.nodes), s)), v)
      ensures ok <==> Chain(mem.nodes, list.first, Filter(old(mem.nodes), s, v))
      ensures ok ==> IsList(mem.nodes, list, Filter(old(mem.nodes), s, v))
      ensures ok ==> Jmps(mem.nodes, Filter(old(mem.nodes), s, v)) == WithResult(Jmps(old(mem.nodes), s), v)
      ensures ok ==> Holding(held, Filter(old(mem.nodes), s, v)) && Untouched(old(mem.nodes), mem.nodes, held)
      ensures !ok ==> Gone(|p0|, b0, State(), held, rightBB, LinkedCmp(list, NO_FINAL))
    {
      hide Routed, WellFormed, Spent, KeepsSpent, AllSpent, Gone, Tidy, Chain, IsList, LoopState, Filter, WithResult,
        OppositeOnlyAtHead;
      hide Untouched, Sealed, Older, Opposite, FreeHead, FreeSeq, LoopList, RemoveRounds, Results;
      ghost var h0 := mem;
      LoopBegins(h0, left, s, v);
      RoutedDistinct(p0, blocks, l, b0, Jmps(mem.nodes, s), map[!v := rightBB]);
      Apart(h0, free, held, s);
      list, ok := RemovalLoop(left, v, rightBB, s, p0, l, b0, n);
      LoopKeeps(h0.nodes, mem.nodes, s, v, h0.freelist);
      LoopResult(h0.nodes, mem.nodes, left, h0.freelist, s, free, v);
      if ok {
        RemovedWell(h0, mem, left, s, free, v, held);
        FilterJmps(h0.nodes, s, v);
        RemovedSpent(old(blocks), blocks, h0.nodes, mem.nodes, s, free, v);
        free := FreeSeq(h0.nodes, s, v, |s|) + free;
      } else {
        LoopKeepsHeld(h0.nodes, mem.nodes, s, held);
        HeldStays(p0, b0, h0.nodes, mem.nodes, held);
        StillSpent(old(blocks), blocks, h0.nodes, h0.nodes, free);
        LastPending(p0, blocks, l, b0, h0.nodes, s, v, map[!v := rightBB]);
        LosesLast(|p0|, State(), b0, h0.nodes, list, s, free, held, rightBB);
      }
    }

    method RemovalLoop(left: JmpList, v: bool, rightBB: nat, ghost s: seq<nat>, ghost p0: Proc, ghost l: Expr,
                       ghost b0: nat, ghost n: nat)
      returns (list: JmpList, ok: bool)
      requires Valid() && b0 < |p0| && !p0[b0].Closed() && rightBB < |blocks| && blocks[rightBB].code == [] && |s| <= n
      requires s != [] && IsList(mem.nodes, left, s) && !Opposite(mem.nodes, s[|s| - 1], v)
      requires Routed(p0, blocks, l, b0, Jmps(mem.nodes, s), map[!v := rightBB])
      modifies this`blocks, this`nextReg, this`mem
      ensures Valid() && nextReg == old(nextReg) && |blocks| == |old(blocks)| && blocks[rightBB].code == []
      ensures RemoveRounds(old(State()), left, left.first, None, v, rightBB, false, n) == (State(), list)
      ensures Routed(p0, blocks, l, b0, WithResult(Jmps(old(mem.nodes), s), v), map[!v := rightBB]) &&
        KeepsSpent(old(blocks), blocks)
      ensures var js := Jmps(old(mem.nodes), s);
        forall k :: 0 <= k < |s| && js[k].result != v ==> Spent(blocks, js[k].jmp)
      ensures ok <==> OppositeOnlyAtHead(Results(Jmps(old(mem.nodes), s)), v)
      ensures LoopState(old(mem.nodes), mem.nodes, s, v, |s|, old(mem.freelist))
      ensures mem.freelist == FreeHead(old(mem.nodes), s, v, |s|, old(mem.freelist)) &&
        list == LoopList(old(mem.nodes), left, s, v, |s|)
    {
      hide Routed, WellFormed, Spent, KeepsSpent, Chain, IsList, LoopState, WithResult, Remaining,
        OppositeOnlyAtHead, DelScJmp, InstrAt,
        HasInstr, Opposite, FreeHead, LoopList, Without, PatchesOnly, RemoveRounds, Patch;
      ghost var s0, h0, js, dest := State(), mem, Jmps(mem.nodes, s), map[!v := rightBB];
      LoopBegins(h0, left, s, v);
      RemainingEnds(js, v, []);
      assert js + [] == js && WithResult(js, v) + [] == WithResult(js, v);
      SpentRefl(blocks);
      var it, prev: Option<nat> := left.first, None;
      list, ok := left, true;
      ghost var i := 0;
      while it.Some?
        invariant 0 <= i <= |s| && it == (if i < |s| then Some(s[i]) else None) && prev == (if i == 0 then None else it)
        invariant Valid() && nextReg == old(nextReg) && |blocks| == |old(blocks)| && blocks[rightBB].code == []
        invariant RemoveRounds(s0, left, left.first, None, v, rightBB, false, n) ==
          RemoveRounds(State(), list, it, prev, v, rightBB, false, n - i)
        invariant Routed(p0, blocks, l, b0, Remaining(js, i, v, []), dest) && KeepsSpent(old(blocks), blocks)
        invariant forall k :: 0 <= k < i && js[k].result != v ==> Spent(blocks, js[k].jmp)
        invariant ok <==> forall k :: 1 <= k < i ==> js[k].result == v
        invariant LoopState(h0.nodes, mem.nodes, s, v, i, h0.freelist) &&
          mem.freelist == FreeHead(h0.nodes, s, v, i, h0.freelist)
        invariant list == LoopList(h0.nodes, left, s, v, i)
        decreases |s| - i
      {
        LoopHere(h0.nodes, mem.nodes, s, v, i, h0.freelist);
        LoopStep(h0.nodes, mem, left, prev, s, v, i, h0.freelist);
        RemainingNext(js, i, v, []);
        var node := mem.nodes[it.value];
        ListAt(h0.nodes, left, s, i);
        OppositeHere(h0.nodes, s, i, v, node);
        RemoveRound(State(), list, it, prev, v, rightBB, false, n - i);
        if node.sc.result != v {
          ghost var before := blocks;
          PatchAt(node.sc.jmp, rightBB, Remaining(js, i, v, []), |WithResult(js[..i], v)|, p0, l, b0, dest);
          SpentOn(old(blocks), before, blocks, js, i, v);
          StaysEmpty(before, blocks, {rightBB}, rightBB);
          list := DelDeferredScJmp(list, prev, it.value);
          ok := ok && prev.None?;
        }
        it := node.next;
        prev := it;
        i := i + 1;
      }
      RemoveRound(State(), list, it, prev, v, rightBB, false, n - i);
      LoopVerdict(js, v, ok);
    }

    /** The same loop with the predecessor advanced only past nodes that stay. */
    method RemoveOppositeRepaired(left: JmpList, v: bool, rightBB: nat, ghost s: seq<nat>, ghost held: set<nat>,
                                  ghost p0: Proc, ghost l: Expr,
                                  ghost b0: nat, ghost n: nat)
      returns (list: JmpList)
      requires Valid() && b0 < |p0| && !p0[b0].Closed() && rightBB < |blocks| && blocks[rightBB].code == [] && |s| <= n
      requires IsList(mem.nodes, left, s) && Holding(held, s) && Sealed(mem.nodes, held)
      requires Routed(p0, blocks, l, b0, Jmps(mem.nodes, s), map[!v := rightBB])
      modifies this
      ensures Valid() && nextReg == old(nextReg) && |blocks| == |old(blocks)| && blocks[rightBB].code == []
      ensures RemoveRounds(old(State()), left, left.first, None, v, rightBB, true, n) == (State(), list)
      ensures Routed(p0, blocks, l, b0, WithResult(Jmps(old(mem.nodes), s), v), map[!v := rightBB])
      ensures IsList(mem.nodes, list, Filter(old(mem.nodes), s, v))
      ensures Jmps(mem.nodes, Filter(old(mem.nodes), s, v)) == WithResult(Jmps(old(mem.nodes), s), v)
      ensures Holding(held, Filter(old(mem.nodes), s, v)) && Untouched(old(mem.nodes), mem.nodes, held)
    {
      hide Routed, WellFormed, Spent, KeepsSpent, AllSpent, Tidy, Chain, IsList, Filter, WithResult, Remaining,
        Around, LastOf;
      hide DelScJmp, Untouched, Sealed, InstrAt, HasInstr, Opposite, Without, PatchesOnly, RemoveRounds, Patch;
      ghost var s0, nodes0, js, dest := State(), mem.nodes, Jmps(mem.nodes, s), map[!v := rightBB];
      RemainingEnds(js, v, []);
      assert js + [] == js && WithResult(js, v) + [] == WithResult(js, v);
      AroundEnds(nodes0, s, v);
      RepairBegins(nodes0, left, s, held, v);
      var it, prev: Option<nat> := left.first, None;
      list := left;
      ghost var i := 0;
      while it.Some?
        invariant 0 <= i <= |s| && it == (if i < |s| then Some(s[i]) else None) &&
          prev == LastOf(Filter(nodes0, s[..i], v))
        invariant Valid() && nextReg == old(nextReg) && |blocks| == |old(blocks)| && blocks[rightBB].code == []
        invariant RemoveRounds(s0, left, left.first, None, v, rightBB, true, n) ==
          RemoveRounds(State(), list, it, prev, v, rightBB, true, n - i)
        invariant Routed(p0, blocks, l, b0, Remaining(js, i, v, []), dest)
        invariant IsList(mem.nodes, list, Around(nodes0, s, v, i)) && Holding(held, Around(nodes0, s, v, i))
        invariant SameJmps(nodes0, mem.nodes) && Untouched(nodes0, mem.nodes, held)
        decreases |s| - i
      {
        AroundStep(nodes0, s, v, i);
        RemainingNext(js, i, v, []);
        RepairHere(nodes0, mem.nodes, list, s, v, i);
        var node := mem.nodes[it.value];
        RemoveRound(State(), list, it, prev, v, rightBB, true, n - i);
        if node.sc.result != v {
          list := PatchAndDel(list, prev, it.value, rightBB, nodes0, v, s, i, held, p0, l, b0);
        } else {
          prev := it;
        }
        it := node.next;
        i := i + 1;
      }
      RemoveRound(State(), list, it, prev, v, rightBB, true, n - i);
      FilterJmps(nodes0, s, v);
      SameJmpsOf(nodes0, mem.nodes, Filter(nodes0, s, v));
    }

    /** A round of it that removes a node. */
    method PatchAndDel(list: JmpList, prev: Option<nat>, x: nat, rightBB: nat, ghost nodes0: seq<Node>,
                       ghost v: bool, ghost s: seq<nat>, ghost i: nat,
                       ghost held: set<nat>, ghost p0: Proc, ghost l: Expr, ghost b0: nat)
      returns (list': JmpList)
      requires Valid() && b0 < |p0| && !p0[b0].Closed() && rightBB < |blocks| && blocks[rightBB].code == []
      requires i < |s| && x == s[i] < |mem.nodes| && prev == LastOf(Filter(nodes0, s[..i], v)) && Opposite(nodes0, x, v)
      requires Routed(p0, blocks, l, b0, Remaining(Jmps(nodes0, s), i, v, []), map[!v := rightBB])
      requires IsList(mem.nodes, list, Around(nodes0, s, v, i)) && Holding(held, Around(nodes0, s, v, i))
      requires SameJmps(nodes0, mem.nodes) && Untouched(nodes0, mem.nodes, held) && Sealed(nodes0, held)
      modifies this
      ensures Valid() && nextReg == old(nextReg) && |blocks| == |old(blocks)| && blocks[rightBB].code == []
      ensures State().(mem := old(mem)) == Patch(old(State()), JmpOf(old(mem.nodes), x).jmp, rightBB)
      ensures (mem, list') == DelScJmp(old(mem), list, prev, x)
      ensures Routed(p0, blocks, l, b0, Remaining(Jmps(nodes0, s), i + 1, v, []), map[!v := rightBB])
      ensures IsList(mem.nodes, list', Around(nodes0, s, v, i + 1)) && Holding(held, Around(nodes0, s, v, i + 1))
      ensures SameJmps(nodes0, mem.nodes) && Untouched(nodes0, mem.nodes, held)
    {
      hide Routed, WellFormed, Spent, KeepsSpent, Tidy, Chain, IsList, Filter, WithResult, Remaining, Around;
      hide DelScJmp, Untouched, Sealed, InstrAt, HasInstr, Without, PatchesOnly, Patch;
      ghost var js, a, h0, p1 := Jmps(nodes0, s), Filter(nodes0, s[..i], v), mem, blocks;
      AroundNext(nodes0, s, v, i);
      RemainingNext(js, i, v, []);
      PatchAt(mem.nodes[x].sc.jmp, rightBB, Remaining(js, i, v, []), |WithResult(js[..i], v)|, p0, l, b0,
        map[!v := rightBB]);
      StaysEmpty(p1, blocks, {rightBB}, rightBB);
      PrevInside(h0, list, a, x, s[i + 1..]);
      SealedOn(nodes0, h0.nodes, held);
      DelKeeps(h0, list, a, x, s[i + 1..], free, held);
      list' := DelDeferredScJmp(list, prev, x);
      DelSpent(p1, blocks, h0.nodes, mem.nodes, free, x);
      free := [x] + free;
      UntouchedOn(nodes0, h0.nodes, mem.nodes, held);
    }

    method EmitLimm(bblock: nat, imm: bool) returns (r: nat)
      requires Valid() && bblock < |blocks| && !blocks[bblock].Closed()
      modifies this`blocks, this`nextReg
      ensures Valid() && r == old(nextReg) && nextReg == r + 1 && blocks == AddInstr(old(blocks), bblock, Limm(r, imm))
    {
      r := nextReg;
      AddKeeps(blocks, nextReg, bblock, Limm(r, imm));
      blocks, nextReg := AddInstr(blocks, bblock, Limm(r, imm)), nextReg + 1;
    }

    method EmitPhi(bblock: nat, args: seq<PhiArg>) returns (r: nat)
      requires Valid() && bblock < |blocks| && !blocks[bblock].Closed()
      modifies this`blocks, this`nextReg
      ensures Valid() && r == old(nextReg) && nextReg == r + 1 && blocks == AddInstr(old(blocks), bblock, Phi(r, args))
    {
      r := nextReg;
      AddKeeps(blocks, nextReg, bblock, Phi(r, args));
      blocks, nextReg := AddInstr(blocks, bblock, Phi(r, args)), nextReg + 1;
    }

    method EmitJmp(bblock: nat, target: nat)
      requires Valid() && bblock < |blocks| && !blocks[bblock].Closed() && target < |blocks|
      modifies this`blocks, this`nextReg
      ensures Valid() && nextReg == old(nextReg) && blocks == ShortCircuitIR.EmitJmp(old(blocks), bblock, target)
    {
      JmpKeeps(blocks, nextReg, bblock, target);
      blocks := ShortCircuitIR.EmitJmp(blocks, bblock, target);
    }

    /** Loads a constant in one of the two arms and jumps to the join. */
    method LoadArm(arm: nat, imm: bool, last: nat, ghost p0: Proc, ghost e: Expr, ghost b0: nat,
                   ghost sc: seq<ScJmp>, ghost dest: map<bool, nat>)
      returns (r: nat)
      requires Valid() && Routed(p0, blocks, e, b0, sc, dest) && arm in Dests(dest)
      requires forall t :: t in Dests(dest) ==> |p0| <= t < |blocks| && NoCondJmp(blocks[t].code)
      requires arm < |blocks| && blocks[arm].code == [] && last < |blocks| && last != arm
      modifies this`blocks, this`nextReg
      ensures Valid() && Routed(p0, blocks, e, b0, sc, dest) && KeepsSpent(old(blocks), blocks)
      ensures |blocks| == |old(blocks)| && blocks[arm].code == [Limm(r, imm), Jmp(last)] && NoCondJmp(blocks[arm].code)
      ensures forall b :: 0 <= b < |blocks| && b != arm ==> blocks[b].code == old(blocks)[b].code
      ensures blocks[last].preds == old(blocks)[last].preds + [arm]
      ensures (State(), r) == LoadConst(old(State()), arm, imm, last)
    {
      hide Routed, WellFormed, NoCondJmp, KeepsSpent;
      r := EmitLimm(arm, imm);
      ghost var p1 := blocks;
      EmitJmp(arm, last);
      LoadSpent(old(blocks), arm, r, imm, last);
      LoadShape(old(blocks), arm, r, imm, last);
      hide AddInstr, ShortCircuitIR.EmitJmp;
      LoadOutside(old(blocks), blocks, |p0|, Dests(dest), arm);
      StopCodeRouted(p0, old(blocks), blocks, e, b0, sc, dest);
    }

    /** Patches the jumps of the list whose result is v to the block for v. */
    method PatchWithResult(list: JmpList, v: bool, target: nat, ghost s: seq<nat>, ghost n: nat,
                           ghost rest: seq<ScJmp>, ghost p0: Proc, ghost e: Expr, ghost b0: nat,
                           ghost dest: map<bool, nat>)
      requires Valid() && b0 < |p0| && !p0[b0].Closed() && v in dest && dest[v] == target && target < |blocks|
      requires |s| <= n && IsList(mem.nodes, list, s) && Routed(p0, blocks, e, b0, Jmps(mem.nodes, s) + rest, dest)
      modifies this`blocks, this`nextReg
      ensures Valid() && Routed(p0, blocks, e, b0, WithResult(Jmps(mem.nodes, s), !v) + rest, dest)
      ensures KeepsSpent(old(blocks), blocks) && PatchesOnly(old(blocks), blocks, Dests(dest))
      ensures State() == PatchRounds(old(State()), list.first, v, target, n)
    {
      hide Routed, WellFormed, WithResult, Remaining, PatchesOnly, Spent, KeepsSpent, IsList, PatchRounds, Patch;
      ListFirst(mem.nodes, list, s);
      ghost var s0 := State();
      ghost var js, i := Jmps(mem.nodes, s), 0;
      RemainingEnds(js, !v, rest);
      SpentRefl(blocks);
      PatchesRefl(blocks, Dests(dest));
      var it := list.first;
      while it.Some?
        invariant 0 <= i <= |s| && it == (if i < |s| then Some(s[i]) else None)
        invariant Valid() && |blocks| == |old(blocks)| && KeepsSpent(old(blocks), blocks)
        invariant Routed(p0, blocks, e, b0, Remaining(js, i, !v, rest), dest)
        invariant PatchesOnly(old(blocks), blocks, Dests(dest))
        invariant PatchRounds(s0, list.first, v, target, n) == PatchRounds(State(), it, v, target, n - i)
        decreases |s| - i
      {
        RemainingNext(js, i, !v, rest);
        ListAt(mem.nodes, list, s, i);
        var node := mem.nodes[it.value];
        PatchRound(State(), it, v, target, n - i);
        if node.sc.result == v {
          ghost var before := blocks;
          PatchAt(node.sc.jmp, target, Remaining(js, i, !v, rest), |WithResult(js[..i], !v)|, p0, e, b0, dest);
          SpentTrans(old(blocks), before, blocks);
          PatchesTrans(old(blocks), before, blocks, Dests(dest), target);
        }
        it := node.next;
        i := i + 1;
      }
      PatchRound(State(), it, v, target, n - i);
    }

    /** The second time, only the jumps whose result is v still wait. */
    method PatchRemaining(list: JmpList, v: bool, target: nat, ghost s: seq<nat>, ghost n: nat, ghost p0: Proc,
                          ghost e: Expr, ghost b0: nat, ghost dest: map<bool, nat>)
      requires Valid() && b0 < |p0| && !p0[b0].Closed() && v in dest && dest[v] == target && target < |blocks|
      requires |s| <= n && IsList(mem.nodes, list, s) &&
        Routed(p0, blocks, e, b0, WithResult(Jmps(mem.nodes, s), v), dest)
      modifies this`blocks, this`nextReg
      ensures Valid() && Routed(p0, blocks, e, b0, [], dest)
      ensures KeepsSpent(old(blocks), blocks) && PatchesOnly(old(blocks), blocks, Dests(dest))
      ensures State() == PatchRounds(old(State()), list.first, v, target, n)
    {
      hide Routed, WellFormed, WithResult, Without, PatchesOnly, Spent, KeepsSpent, IsList, PatchRounds, Patch;
      ListFirst(mem.nodes, list, s);
      ghost var s0 := State();
      ghost var js, i := Jmps(mem.nodes, s), 0;
      assert js[0..] == js;
      SpentRefl(blocks);
      PatchesRefl(blocks, Dests(dest));
      var it := list.first;
      while it.Some?
        invariant 0 <= i <= |s| && it == (if i < |s| then Some(s[i]) else None)
        invariant Valid() && |blocks| == |old(blocks)| && KeepsSpent(old(blocks), blocks)
        invariant Routed(p0, blocks, e, b0, WithResult(js[i..], v), dest)
        invariant PatchesOnly(old(blocks), blocks, Dests(dest))
        invariant PatchRounds(s0, list.first, v, target, n) == PatchRounds(State(), it, v, target, n - i)
        decreases |s| - i
      {
        OpenNext(js, i, v);
        ListAt(mem.nodes, list, s, i);
        var node := mem.nodes[it.value];
        PatchRound(State(), it, v, target, n - i);
        if node.sc.result == v {
          ghost var before, open := blocks, WithResult(js[i..], v);
          PatchAt(node.sc.jmp, target, open, 0, p0, e, b0, dest);
          SpentTrans(old(blocks), before, blocks);
          PatchesTrans(old(blocks), before, blocks, Dests(dest), target);
        }
        it := node.next;
        i := i + 1;
      }
      PatchRound(State(), it, v, target, n - i);
      assert js[i..] == [];
      WithResultNone([], v);
    }

    /** The false arm and the join, after the true arm, which is where the final jump falls through. */
    method AllocArms(bblock: nat, ghost list: seq<ScJmp>, ghost p0: Proc, ghost e: Expr, ghost b0: nat)
      returns (f: nat, last: nat)
      requires Valid() && b0 < |p0| <= bblock && bblock + 1 == |blocks| && blocks[bblock].code == []
      requires Routed(p0, blocks, e, b0, list, map[true := bblock])
      modifies this`blocks, this`nextReg
      ensures Valid() && f == bblock + 1 && last == bblock + 2
      ensures blocks == old(blocks) + [EMPTY_BLOCK, EMPTY_BLOCK]
      ensures Routed(p0, blocks, e, b0, list, map[true := bblock, false := f]) && KeepsSpent(old(blocks), blocks)
      ensures State() == Alloc(Alloc(old(State())))
    {
      hide Routed;
      ArmsRouted(p0, blocks, e, b0, list, bblock);
      SpentAlloc(blocks);
      f := AllocBBlock();
      ghost var p1 := blocks;
      SpentAlloc(blocks);
      last := AllocBBlock();
      SpentTrans(old(blocks), p1, blocks);
      assert blocks == old(blocks) + [EMPTY_BLOCK, EMPTY_BLOCK];
    }

    /** Turns a deferred comparison into a register.  Without any jump the register of the compare itself
        is the result; otherwise the jumps lead to a block that loads one and a block that loads zero. */
    method ExecuteDeferredCmp(bblock: nat, def: LinkedCmp, ghost s: seq<nat>, ghost n: nat, ghost p0: Proc,
                              ghost e: Expr, ghost b0: nat)
      returns (last: nat, dst: nat)
      requires |s| <= n && Valid() && Deferral(p0, blocks, e, b0, mem.nodes, def, s, bblock)
      modifies this`blocks, this`nextReg
      ensures Valid() && last < |blocks| && !blocks[last].Closed()
      ensures Holds(p0, blocks, if def.fin.jmp.None? && !def.fin.result then Not(e) else e, b0, last, dst)
      ensures Settled(p0, blocks, b0) && KeepsSpent(old(blocks), blocks)
      ensures (State(), last, dst) == Execute(old(State()), bblock, def, n)
    {
      hide Lowered, Routed, WellFormed, PatchJmp, IsPending, Holds, Chain, Settled, Spent, KeepsSpent, FixPath, Arms;
      ghost var sc := Jmps(mem.nodes, s);
      ChainInside(mem.nodes, def.list.first, s);
      LoweredEnd(p0, blocks, e, b0, DeferredCmp(sc, def.fin), bblock);
      if def.list.first.None? && def.fin.jmp.None? {
        NoJumpHolds(p0, blocks, e, b0, DeferredCmp(sc, def.fin), bblock);
        LoweredSettled(p0, blocks, e, b0, DeferredCmp(sc, def.fin), bblock);
        SpentRefl(blocks);
        last, dst := bblock, InstrAt(blocks, def.fin.cmp).r;
        return;
      }
      var fin := FixScJmpPath(def.fin, false, p0, e, b0, sc, bblock);
      ghost var p1 := blocks;
      LoweredEnd(p0, blocks, e, b0, DeferredCmp(sc, fin), bblock);
      SplitRouted(p0, blocks, e, b0, DeferredCmp(sc, fin), bblock);
      var t, f := bblock, 0;
      f, last := AllocArms(t, sc + [ScJmp(false, fin.jmp.value, fin.cmp)], p0, e, b0);
      SpentTrans(old(blocks), p1, blocks);
      ghost var p2 := blocks;
      dst := PatchArms(t, f, last, def.list, fin, s, n, p0, e, b0);
      SpentTrans(old(blocks), p2, blocks);
    }

    /** The two arms and the join. */
    method PatchArms(t: nat, f: nat, last: nat, list: JmpList, fin: FinalJmp, ghost s: seq<nat>, ghost n: nat,
                     ghost p0: Proc,
                     ghost e: Expr, ghost b0: nat)
      returns (dst: nat)
      requires Valid() && b0 < |p0| <= t && f == t + 1 && last == t + 2 && |blocks| == t + 3 && !p0[b0].Closed()
      requires blocks[t].code == [] && blocks[f] == EMPTY_BLOCK && blocks[last] == EMPTY_BLOCK && fin.jmp.Some?
      requires |s| <= n && IsList(mem.nodes, list, s)
      requires Routed(p0, blocks, e, b0, Jmps(mem.nodes, s) + [ScJmp(false, fin.jmp.value, fin.cmp)],
        map[true := t, false := f])
      modifies this`blocks, this`nextReg
      ensures Valid() && last < |blocks| && !blocks[last].Closed()
      ensures Holds(p0, blocks, e, b0, last, dst) && Settled(p0, blocks, b0) && KeepsSpent(old(blocks), blocks)
      ensures (State(), dst) == Arms(old(State()), t, f, last, list.first, fin.jmp, n)
    {
      hide Routed, Holds, ComparesFeedOneJump, PredsInverse, Settled, Spent, KeepsSpent, IsList, PatchRounds, Patch,
        LoadConst;
      var one := TrueArm(t, f, last, list, s, n, [ScJmp(false, fin.jmp.value, fin.cmp)], p0, e, b0);
      ghost var p1 := blocks;
      var zero := FalseArm(t, f, last, list, fin, s, n, one, p0, e, b0);
      SpentTrans(old(blocks), p1, blocks);
      ghost var p := blocks;
      dst := EmitPhi(last, [PhiArg(t, one), PhiArg(f, zero)]);
      SpentAdd(p, last, Phi(dst, [PhiArg(t, one), PhiArg(f, zero)]));
      SpentTrans(old(blocks), p, blocks);
      assert PredsInverse(p);
      JoinHolds(p0, p, blocks, e, b0, t, f, last, one, zero, dst);
      RoutedSettled(p0, p, e, b0, map[true := t, false := f]);
      PhiSettled(p0, p, b0, last, dst, [PhiArg(t, one), PhiArg(f, zero)]);
    }

    method TrueArm(t: nat, f: nat, last: nat, list: JmpList, ghost s: seq<nat>, ghost n: nat, ghost rest: seq<ScJmp>,
                   ghost p0: Proc,
                   ghost e: Expr, ghost b0: nat)
      returns (one: nat)
      requires Valid() && b0 < |p0| <= t && f == t + 1 && last == t + 2 && |blocks| == t + 3 && !p0[b0].Closed()
      requires blocks[t].code == [] && blocks[f].code == [] && blocks[last] == EMPTY_BLOCK
      requires |s| <= n && IsList(mem.nodes, list, s)
      requires Routed(p0, blocks, e, b0, Jmps(mem.nodes, s) + rest, map[true := t, false := f])
      modifies this`blocks, this`nextReg
      ensures Valid() && |blocks| == t + 3 && KeepsSpent(old(blocks), blocks)
      ensures Routed(p0, blocks, e, b0, WithResult(Jmps(mem.nodes, s), false) + rest, map[true := t, false := f])
      ensures blocks[t].code == [Limm(one, true), Jmp(last)] && blocks[f].code == [] && blocks[last] == BBlock([], [t])
      ensures (State(), one) == LoadConst(PatchRounds(old(State()), list.first, true, t, n), t, true, last)
    {
      hide Routed, Valid, Spent, KeepsSpent, IsList, PatchRounds, LoadConst;
      ghost var dest := map[true := t, false := f];
      assert Dests(dest) == {t, f};
      PatchWithResult(list, true, t, s, n, rest, p0, e, b0, dest);
      ghost var p1 := blocks;
      one := LoadArm(t, true, last, p0, e, b0, WithResult(Jmps(mem.nodes, s), false) + rest, dest);
      SpentTrans(old(blocks), p1, blocks);
    }

    method FalseArm(t: nat, f: nat, last: nat, list: JmpList, fin: FinalJmp, ghost s: seq<nat>, ghost n: nat,
                    ghost one: nat,
                    ghost p0: Proc, ghost e: Expr, ghost b0: nat)
      returns (zero: nat)
      requires Valid() && b0 < |p0| <= t && f == t + 1 && last == t + 2 && |blocks| == t + 3 && !p0[b0].Closed() &&
        fin.jmp.Some?
      requires blocks[t].code == [Limm(one, true), Jmp(last)] && blocks[f].code == [] && blocks[last] == BBlock([], [t])
      requires |s| <= n && IsList(mem.nodes, list, s)
      requires Routed(p0, blocks, e, b0, WithResult(Jmps(mem.nodes, s), false) + [ScJmp(false, fin.jmp.value, fin.cmp)],
                      map[true := t, false := f])
      modifies this`blocks, this`nextReg
      ensures Valid() && |blocks| == t + 3 && KeepsSpent(old(blocks), blocks)
      ensures Routed(p0, blocks, e, b0, [], map[true := t, false := f])
      ensures blocks[t].code == [Limm(one, true), Jmp(last)] && blocks[f].code == [Limm(zero, false), Jmp(last)]
      ensures blocks[last] == BBlock([], [t, f])
      ensures (State(), zero) == LoadConst(PatchRounds(Patch(old(State()), fin.jmp.value, f), list.first, false, f,
        n), f, false, last)
    {
      hide Routed, Valid, Spent, KeepsSpent, IsList, PatchRounds, LoadConst, Patch, WithResult;
      ghost var dest, waiting := map[true := t, false := f], WithResult(Jmps(mem.nodes, s), false);
      assert Dests(dest) == {t, f};
      FinalOfTwo(waiting, ScJmp(false, fin.jmp.value, fin.cmp));
      PatchAt(fin.jmp.value, f, waiting + [ScJmp(false, fin.jmp.value, fin.cmp)], |waiting|, p0, e, b0, dest);
      ghost var p1 := blocks;
      PatchRemaining(list, false, f, s, n, p0, e, b0, dest);
      SpentTrans(old(blocks), p1, blocks);
      ghost var p2 := blocks;
      zero := LoadArm(f, false, last, p0, e, b0, [], dest);
      SpentTrans(old(blocks), p2, blocks);
    }

    /** A deferred tree as a value: right exactly when it has a jump or its compare has positive polarity.
        When a removal loop loses a jump, that jump has no target in the end. */
    method EmitBoolValue(bblock: nat, e: Expr, ghost held: set<nat>, ghost n: nat)
      returns (ok: bool, last: nat, dst: nat)
      requires Ready(bblock, held) && !e.Value? && Leaves(e) <= n
      modifies this
      ensures Valid() && (ok <==> repaired || RemovalsAtHead(e))
      ensures ok ==> LowerBool(old(State()), bblock, e, repaired, n) == (State(), last, dst)
      ensures ok ==> last < |blocks| && !blocks[last].Closed()
      ensures ok ==> (Holds(old(blocks), blocks, e, bblock, last, dst) <==> HasJump(e) || FinalResult(e))
      ensures ok && !HasJump(e) && !FinalResult(e) ==> Holds(old(blocks), blocks, Not(e), bblock, last, dst)
      ensures ok ==> Memory(held) && Untouched(old(mem.nodes), mem.nodes, held)
      ensures ok <==> Settled(old(blocks), LowerBool(old(State()), bblock, e, repaired, n).0.blocks, bblock)
      ensures !ok ==> Forgotten(|old(blocks)|, bblock, LowerBool(old(State()), bblock, e, repaired, n).0, held)
    {
      hide WellFormed, Holds, GoneExpr, Forgotten, Settled, Tidy, Spent, Untouched, Deferral, RemovalsAtHead,
        Execute, LowerExpr;
      TidySealed(mem, free, held);
      ghost var s0 := State();
      var end, er;
      ghost var s;
      ok, end, er, s := EmitExpr(bblock, e, held, n);
      last, dst := end, 0;
      if !ok {
        GoneBool(|s0.blocks|, bblock, s0, bblock, e, repaired, n, held);
        ForgottenOpen(s0.blocks, bblock, LowerBool(s0, bblock, e, repaired, n).0, held);
        return;
      }
      ghost var p1 := blocks;
      ListSizeOf(old(blocks), blocks, e, bblock, mem.nodes, er.cmp, s, end);
      last, dst := ExecuteDeferredCmp(end, er.cmp, s, n, old(blocks), e, bblock);
      StillSpent(p1, blocks, mem.nodes, mem.nodes, free);
      Dropped(mem, free, old(mem.nodes), held, s);
      if !HasJump(e) && !FinalResult(e) {
        if Holds(old(blocks), blocks, e, bblock, last, dst) {
          HoldsOne(old(blocks), blocks, e, bblock, last, dst);
        }
      }
    }

    /** Branches on a condition: to jmpBB when it has the value jmpResult, else to the returned block, which is empty.
        Every leaf ends a block, hdr or a new one, with its one evaluation, compare and branch.
        When a removal loop loses a jump, that jump has no target in the end. */
    method ProcessCfgCond(e: Expr, hdr: nat, jmpResult: bool, jmpBB: nat, ghost held: set<nat>, ghost n: nat)
      returns (ok: bool, last: nat)
      requires Ready(hdr, held) && jmpBB < |blocks| && Leaves(e) <= n
      modifies this
      ensures Valid() && (ok <==> repaired || RemovalsAtHead(e))
      ensures ok ==> LowerCond(old(State()), e, hdr, jmpResult, jmpBB, repaired, n) == (State(), last)
      ensures ok ==> last < |blocks| && !blocks[last].Closed() && last >= |old(blocks)|
      ensures ok ==> Memory(held) && Untouched(old(mem.nodes), mem.nodes, held)
      ensures var r := LowerCond(old(State()), e, hdr, jmpResult, jmpBB, repaired, n);
        LeafBlocks(old(blocks), r.0.blocks, hdr, LeafIds(e)) && r.1 == |r.0.blocks| - 1 &&
        (ok <==> BranchesOn(old(blocks), r.0.blocks, e, hdr, jmpResult, jmpBB, r.1)) &&
        (!ok ==> Forgotten(|old(blocks)|, hdr, r.0, held))
    {
      hide Lowered, Routed, WellFormed, BranchesOn, GoneExpr, Forgotten, Tidy, Spent, KeepsSpent, AllSpent,
        Untouched, IsList, RemovalsAtHead,
        ScResults, Older, LowerExpr, CondEnd, LeafBlocks;
      TidySealed(mem, free, held);
      CondCode(State(), e, hdr, jmpResult, jmpBB, repaired, n);
      ghost var s0 := State();
      ghost var s;
      var curr, er;
      ok, curr, er, s := EmitExpr(hdr, e, held, n);
      last := curr;
      if !ok {
        GoneCond(|s0.blocks|, hdr, s0, e, hdr, jmpResult, jmpBB, repaired, n, held);
        ghost var r := LowerCond(s0, e, hdr, jmpResult, jmpBB, repaired, n);
        ForgottenOpen(s0.blocks, hdr, r.0, held);
        NotBranching(s0.blocks, r.0.blocks, e, hdr, jmpResult, jmpBB, r.1);
        return;
      }
      ghost var p1, nodes1 := blocks, mem.nodes;
      last := EndCond(curr, er, jmpResult, jmpBB, s, old(blocks), e, hdr, n);
      StillSpent(p1, blocks, nodes1, mem.nodes, free);
      Dropped(mem, free, old(mem.nodes), held, s);
    }

    /** The end of it: the final jump, and the waiting ones. */
    method EndCond(curr: nat, er: ExprResult, jmpResult: bool, jmpBB: nat, ghost s: seq<nat>, ghost p0: Proc,
                   ghost e: Expr, ghost hdr: nat, ghost n: nat)
      returns (last: nat)
      requires Valid() && hdr < |p0| && !p0[hdr].Closed() && jmpBB < |p0| && (e.Value? <==> er.Computed?) &&
        Leaves(e) <= n
      requires e.Value? ==> curr == hdr && er.id == e.id && s == [] && blocks == AddInstr(p0, hdr, Compute(e.id))
      requires !e.Value? ==> Deferral(p0, blocks, e, hdr, mem.nodes, er.cmp, s, curr)
      modifies this`blocks, this`nextReg
      ensures Valid() && |p0| <= last < |blocks| && blocks[last].code == []
      ensures BranchesOn(p0, blocks, e, hdr, jmpResult, jmpBB, last) && KeepsSpent(old(blocks), blocks)
      ensures (State(), last) == CondEnd(old(State()), curr, er, jmpResult, jmpBB, n)
    {
      hide Lowered, Routed, WellFormed, BranchesOn, Spent, KeepsSpent, IsList, ScResults, Results, AsCmp, FixPath,
        FinalPatched, CondRounds;
      ghost var p1 := blocks;
      var cmp := ComputedCmp(curr, er, jmpResult, s, p0, e, hdr);
      ListSizeOf(p0, blocks, e, hdr, mem.nodes, cmp, s, curr);
      last := PatchFinal(curr, cmp.fin, jmpResult, jmpBB, p0, e, hdr, Jmps(mem.nodes, s), p1);
      PatchScJmps(cmp.list, jmpResult, jmpBB, last, s, n, p0, e, hdr, p1);
    }

    /** The condition as a deferred comparison with the wanted result. */
    method ComputedCmp(curr: nat, er: ExprResult, jmpResult: bool, ghost s: seq<nat>, ghost p0: Proc, ghost e: Expr,
                       ghost hdr: nat)
      returns (cmp: LinkedCmp)
      requires Valid() && hdr < |p0| && !p0[hdr].Closed() && (e.Value? <==> er.Computed?)
      requires e.Value? ==> curr == hdr && er.id == e.id && s == [] && blocks == AddInstr(p0, hdr, Compute(e.id))
      requires !e.Value? ==> Deferral(p0, blocks, e, hdr, mem.nodes, er.cmp, s, curr)
      modifies this`blocks, this`nextReg
      ensures Valid() && Deferral(p0, blocks, e, hdr, mem.nodes, cmp, s, curr) && cmp.fin.result == jmpResult
      ensures KeepsSpent(old(blocks), blocks)
      ensures var (s1, c) := AsCmp(old(State()), curr, er, jmpResult);
        State() == FixPath(s1, c.fin, jmpResult) && cmp == c.(fin := c.fin.(result := jmpResult))
    {
      hide Lowered, WellFormed, IsList, KeepsSpent, Results, ScResults;
      if er.Deferred? {
        var fin := FixScJmpPath(er.cmp.fin, jmpResult, p0, e, hdr, Jmps(mem.nodes, s), curr);
        cmp := er.cmp.(fin := fin);
      } else {
        var fin := CmpToZero(curr, er.id, if jmpResult then NEQ else EQ, jmpResult, p0);
        ValueHasNone(e);
        LeafDeferral(p0, blocks, e, hdr, mem.nodes, fin, curr);
        cmp := LinkedCmp(EMPTY_LIST, fin);
      }
    }

    /** Patches the final jump, or creates it. */
    method PatchFinal(curr: nat, fin: FinalJmp, jmpResult: bool, jmpBB: nat, ghost p0: Proc, ghost e: Expr,
                      ghost hdr: nat, ghost sc: seq<ScJmp>, ghost p1: Proc)
      returns (last: nat)
      requires Valid() && jmpBB < |p0| && fin.result == jmpResult &&
        Lowered(p0, blocks, e, hdr, DeferredCmp(sc, fin), curr)
      requires KeepsSpent(p1, blocks)
      modifies this`blocks, this`nextReg
      ensures Valid() && hdr < |p0| && !p0[hdr].Closed() && |p0| <= last < |blocks| && blocks[last].code == [] &&
        jmpBB < |blocks|
      ensures Routed(p0, blocks, e, hdr, sc, CondDest(jmpResult, jmpBB, last)) && KeepsSpent(p1, blocks)
      ensures (State(), last) == FinalPatched(old(State()), curr, fin, jmpBB)
    {
      hide Lowered, Routed, WellFormed, PatchJmp, IsPending, Spent, KeepsSpent;
      ghost var d, before := DeferredCmp(sc, fin), blocks;
      LoweredEnd(p0, blocks, e, hdr, d, curr);
      if fin.jmp.Some? {
        last := curr;
        FinalSplit(p0, blocks, e, hdr, d, last, jmpBB);
        SpentPatch(blocks, fin.jmp.value, jmpBB);
        PatchPending(State(), fin.jmp.value, jmpBB);
        PatchJmpTarget(fin.jmp.value, jmpBB);
      } else {
        JumpLowered(p0, blocks, e, hdr, d, curr);
        ghost var r := InstrAt(blocks, fin.cmp).r;
        SpentAlloc(blocks);
        last := AllocBBlock();
        SpentTrans(p1, before, blocks);
        before := blocks;
        CondJmpAsPatch(blocks, curr, r, jmpBB, last);
        SpentCondJmp(blocks, curr, r, last);
        ghost var open := ShortCircuitIR.EmitCondJmp(blocks, curr, r, None, last);
        ghost var jmp := Loc(curr, |blocks[curr].code|);
        FinalSplit(p0, open, e, hdr, DeferredCmp(sc, fin.(jmp := Some(jmp))), last, jmpBB);
        SpentPatch(open, jmp, jmpBB);
        SpentTrans(before, open, PatchJmp(open, jmp, jmpBB));
        CmpRegKept(old(State()), fin.cmp, r);
        var emitted := EmitCondJmp(curr, Some(jmpBB), last);
      }
      SpentTrans(p1, before, blocks);
    }

    /** Patches the short-circuit jumps of a condition: to jmpBB or to last, by their results. */
    method PatchScJmps(list: JmpList, jmpResult: bool, jmpBB: nat, last: nat, ghost s: seq<nat>, ghost n: nat,
                       ghost p0: Proc, ghost e: Expr, ghost hdr: nat, ghost p1: Proc)
      requires Valid() && hdr < |p0| && !p0[hdr].Closed() && |p0| <= last < |blocks| && blocks[last].code == [] &&
        jmpBB < |blocks|
      requires |s| <= n && IsList(mem.nodes, list, s) && KeepsSpent(p1, blocks)
      requires Routed(p0, blocks, e, hdr, Jmps(mem.nodes, s), CondDest(jmpResult, jmpBB, last))
      modifies this`blocks, this`nextReg
      ensures Valid() && last < |blocks| && blocks[last].code == [] && KeepsSpent(p1, blocks)
      ensures BranchesOn(p0, blocks, e, hdr, jmpResult, jmpBB, last)
      ensures State() == CondRounds(old(State()), list.first, jmpResult, jmpBB, last, n)
    {
      hide Routed, WellFormed, BranchesOn, IsList, Spent, KeepsSpent, PatchesOnly, Without, CondDest, From,
        CondRounds, Patch;
      ghost var dest := CondDest(jmpResult, jmpBB, last);
      ListFirst(mem.nodes, list, s);
      ghost var s0 := State();
      ghost var js, i := Jmps(mem.nodes, s), 0;
      FromEnds(js);
      var it := list.first;
      while it.Some?
        invariant 0 <= i <= |s| && it == (if i < |s| then Some(s[i]) else None)
        invariant Valid() && last < |blocks| && blocks[last].code == [] && jmpBB < |blocks| && KeepsSpent(p1, blocks)
        invariant Routed(p0, blocks, e, hdr, From(js, i), dest)
        invariant CondRounds(s0, list.first, jmpResult, jmpBB, last, n) ==
          CondRounds(State(), it, jmpResult, jmpBB, last, n - i)
        decreases |s| - i
      {
        ListAt(mem.nodes, list, s, i);
        var node := mem.nodes[it.value];
        var target := if node.sc.result == jmpResult then jmpBB else last;
        FromNext(js, i);
        CondRound(State(), it, jmpResult, jmpBB, last, n - i);
        CondTarget(jmpResult, jmpBB, last, node.sc.result);
        ghost var before := blocks;
        PatchAt(node.sc.jmp, target, From(js, i), 0, p0, e, hdr, dest);
        SpentTrans(p1, before, blocks);
        StaysEmpty(before, blocks, {target}, last);
        StaysEmpty(before, blocks, {target}, jmpBB);
        it := node.next;
        i := i + 1;
      }
      CondRound(State(), it, jmpResult, jmpBB, last, n - i);
      RoutedBranches(p0, blocks, e, hdr, jmpResult, jmpBB, last);
    }
  }
}
