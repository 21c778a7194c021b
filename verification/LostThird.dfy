/** The lowering of a || (b && c) || d from two empty blocks, step by step to its end: one jump is left without a
    target, and another goes to the wrong block. */
module LostThird {
  import opened Basics
  import opened ShortCircuitIR
  import opened ShortCircuitProof
  import opened ScJmpLists
  import opened Lowering

  const START := Builder([EMPTY_BLOCK, EMPTY_BLOCK], 0, Heap([], None))

  function Leaf(id: nat): Expr { Compare(EQ, id) }

  /** A block that evaluates a leaf, compares and jumps; r is the first of its two registers. */
  function Test(id: nat, cond: ConditionKind, r: nat, t: Option<nat>, f: nat, preds: seq<nat>): BBlock {
    BBlock([Compute(id), IntCmp(cond, id, false, r + 1), CondJmp(r + 1, t, f)], preds)
  }

  /** A block that evaluates a leaf and compares. */
  function Compared(id: nat, cond: ConditionKind, r: nat, preds: seq<nat>): BBlock {
    BBlock([Compute(id), IntCmp(cond, id, false, r + 1)], preds)
  }

  function With(s: Builder, b: nat, block: BBlock, r: nat): Builder
    requires b < |s.blocks|
  {
    Builder(s.blocks[b := block], r, s.mem)
  }

  lemma LeafExpr(s: Builder, b: nat, id: nat, n: nat)
    requires b < |s.blocks| && s.blocks[b].code == []
    ensures LowerExpr(s, b, Leaf(id), false, n) ==
      (With(s, b, Compared(id, EQ, s.nextReg, s.blocks[b].preds), s.nextReg + 2), b,
       Deferred(LinkedCmp(EMPTY_LIST, FinalJmp(true, None, Loc(b, 1)))))
  {
    var r, preds := s.nextReg, s.blocks[b].preds;
    var s1 := Add(s, b, Compute(id));
    assert s1.blocks == s.blocks[b := BBlock([Compute(id)], preds)] by { assert [] + [Compute(id)] == [Compute(id)]; }
    var s2 := Add(s1, b, IntCmp(EQ, id, false, r + 1));
    assert s2.blocks == s.blocks[b := Compared(id, EQ, r, preds)] by {
      assert [Compute(id)] + [IntCmp(EQ, id, false, r + 1)] == [Compute(id), IntCmp(EQ, id, false, r + 1)];
    }
  }

  lemma LeafFixed(s: Builder, b: nat, id: nat, r: nat, preds: seq<nat>, desired: bool)
    requires b < |s.blocks| && s.blocks[b] == Compared(id, EQ, r, preds)
    ensures FixPath(s, FinalJmp(true, None, Loc(b, 1)), desired) ==
      With(s, b, Compared(id, if desired then EQ else NEQ, r, preds), s.nextReg)
  {
    var p := FixPath(s, FinalJmp(true, None, Loc(b, 1)), desired).blocks;
    assert s.blocks[b].code[1 := IntCmp(NEQ, id, false, r + 1)] == Compared(id, NEQ, r, preds).code;
    assert p == s.blocks[b := Compared(id, if desired then EQ else NEQ, r, preds)];
  }

  /** A leaf at the end of an empty block, with a jump that is taken on the desired value. */
  lemma LeafOperand(s: Builder, b: nat, id: nat, desired: bool, n: nat)
    requires b < |s.blocks| && s.blocks[b].code == []
    ensures var block := Test(id, if desired then EQ else NEQ, s.nextReg, None, |s.blocks|, s.blocks[b].preds);
      LowerOperand(s, b, Leaf(id), desired, false, n) ==
        (Builder(s.blocks[b := block] + [BBlock([], [b])], s.nextReg + 2, s.mem), |s.blocks|,
         LinkedCmp(EMPTY_LIST, FinalJmp(desired, Some(Loc(b, 2)), Loc(b, 1))))
  {
    OperandStep(s, b, Leaf(id), desired, false, n);
    LeafExpr(s, b, id, n);
    var r, preds, cond, f := s.nextReg, s.blocks[b].preds, if desired then EQ else NEQ, |s.blocks|;
    var s2 := With(s, b, Compared(id, EQ, r, preds), r + 2);
    LeafFixed(s2, b, id, r, preds, desired);
    hide LowerExpr, LowerOperand, FixPath;
    var s3 := With(s2, b, Compared(id, cond, r, preds), r + 2);
    LeafJump(s3, b, id, cond, r, preds);
    assert s3.blocks[b := Test(id, cond, r, None, f, preds)] == s.blocks[b := Test(id, cond, r, None, f, preds)];
  }

  lemma LeafJump(s: Builder, b: nat, id: nat, cond: ConditionKind, r: nat, preds: seq<nat>)
    requires b < |s.blocks| && s.blocks[b] == Compared(id, cond, r, preds)
    ensures var f := |s.blocks|;
      CmpReg(Alloc(s), Loc(b, 1)) == r + 1 && End(Alloc(s), b) == Loc(b, 2) &&
      AddCondJmp(Alloc(s), b, r + 1, None, f) ==
        Builder(s.blocks[b := Test(id, cond, r, None, f, preds)] + [BBlock([], [b])], s.nextReg, s.mem)
  {
    var f := |s.blocks|;
    var p := AddCondJmp(Alloc(s), b, r + 1, None, f).blocks;
    assert s.blocks[b].code + [CondJmp(r + 1, None, f)] == Test(id, cond, r, None, f, preds).code;
    assert EMPTY_BLOCK.preds + [b] == [b];
    assert forall k :: 0 <= k < f && k != b ==> p[k] == s.blocks[k];
    assert p[b] == Test(id, cond, r, None, f, preds) && p[f] == BBlock([], [b]);
    assert p == s.blocks[b := Test(id, cond, r, None, f, preds)] + [BBlock([], [b])];
  }

  // ---- the tree ----

  /** The nodes of the three waiting jumps. */
  function Waiting(at: nat, result: bool, next: Option<nat>): Node { Node(ScJmp(result, Loc(at, 2), Loc(at, 1)), next) }

  function AfterA(a: nat): Builder {
    Builder([Test(a, EQ, 0, None, 2, []), EMPTY_BLOCK, BBlock([], [0])], 2, Heap([Waiting(0, true, None)], None))
  }

  function AfterB(a: nat, b: nat): Builder {
    Builder([Test(a, EQ, 0, None, 2, []), EMPTY_BLOCK, Test(b, NEQ, 2, None, 3, [0]), BBlock([], [2])], 4,
            Heap([Waiting(0, true, None), Waiting(2, false, None)], None))
  }

  function AfterC(a: nat, b: nat, c: nat): Builder {
    Builder([Test(a, EQ, 0, None, 2, []), EMPTY_BLOCK, Test(b, NEQ, 2, None, 3, [0]), Test(c, NEQ, 4, None, 4, [2]),
      BBlock([], [3])], 6,
            Heap([Waiting(0, true, None), Waiting(2, false, None)], None))
  }

  /** The list of the left operand leads from the jump of a to that of b and ends; the jump of c is its last node. */
  function Spoilt(a: nat, b: nat, c: nat): Builder {
    Builder([Test(a, EQ, 0, None, 2, []), EMPTY_BLOCK, Test(b, NEQ, 2, Some(4), 3, [0]), Test(c, EQ, 4, None, 4, [2]),
      BBlock([], [3, 2])], 6,
            Heap([Waiting(0, true, Some(1)), Waiting(2, false, None), Waiting(3, true, None)], Some(1)))
  }

  function AfterD(a: nat, b: nat, c: nat, d: nat): Builder {
    Builder([Test(a, EQ, 0, None, 2, []), EMPTY_BLOCK, Test(b, NEQ, 2, Some(4), 3, [0]), Test(c, EQ, 4, None, 4, [2]),
             Test(d, NEQ, 6, None, 5, [3, 2]), BBlock([], [4])], 8,
            Heap([Waiting(0, true, Some(1)), Waiting(2, false, None), Waiting(3, true, None)], Some(1)))
  }

  function Finished(a: nat, b: nat, c: nat, d: nat): Proc {
    [Test(a, EQ, 0, Some(1), 2, []), BBlock([], [4, 0]), Test(b, NEQ, 2, Some(5), 3, [0]), Test(c, EQ, 4, None, 4, [2]),
     Test(d, EQ, 6, Some(1), 5, [3, 2]), BBlock([], [4, 2])]
  }

  lemma NewInEmpty(h: Heap, sc: ScJmp)
    requires h.freelist.None?
    ensures NewScJmp(h, EMPTY_LIST, sc) ==
      (Heap(h.nodes + [Node(sc, None)], None), JmpList(Some(|h.nodes|), Some(|h.nodes|)))
  {
  }

  lemma LeftOfA(a: nat)
    ensures LowerLeft(START, 0, false, Leaf(a), false, 4) == (AfterA(a), 2, JmpList(Some(0), Some(0)))
  {
    LeftStep(START, 0, false, Leaf(a), false, 4);
    LeafOperand(START, 0, a, true, 4);
    hide LowerLeft, LowerOperand;
    var s := LowerOperand(START, 0, Leaf(a), true, false, 4).0;
    assert s.blocks == AfterA(a).blocks;
    NewInEmpty(START.mem, ScJmp(true, Loc(0, 2), Loc(0, 1)));
    assert START.mem.nodes + [Waiting(0, true, None)] == AfterA(a).mem.nodes;
    assert RemoveRounds(AfterA(a), JmpList(Some(0), Some(0)), None, None, true, 2, false, 3) ==
      (AfterA(a), JmpList(Some(0), Some(0)));
  }

  lemma LeftOfB(a: nat, b: nat)
    ensures LowerLeft(AfterA(a), 2, true, Leaf(b), false, 4) == (AfterB(a, b), 3, JmpList(Some(1), Some(1)))
  {
    LeftStep(AfterA(a), 2, true, Leaf(b), false, 4);
    LeafOperand(AfterA(a), 2, b, false, 4);
    hide LowerLeft, LowerOperand;
    var s := LowerOperand(AfterA(a), 2, Leaf(b), false, false, 4).0;
    assert s.blocks == AfterB(a, b).blocks;
    NewInEmpty(AfterA(a).mem, ScJmp(false, Loc(2, 2), Loc(2, 1)));
    assert AfterA(a).mem.nodes + [Waiting(2, false, None)] == AfterB(a, b).mem.nodes;
    assert RemoveRounds(AfterB(a, b), JmpList(Some(1), Some(1)), None, None, false, 3, false, 3) ==
      (AfterB(a, b), JmpList(Some(1), Some(1)));
  }

  /** b && c: the jump of b waits, and that of c is the final one. */
  lemma Inner(a: nat, b: nat, c: nat)
    ensures LowerExpr(AfterA(a), 2, And(Leaf(b), Leaf(c)), false, 4) ==
      (AfterC(a, b, c), 4, Deferred(LinkedCmp(JmpList(Some(1), Some(1)), FinalJmp(false, Some(Loc(3, 2)), Loc(3, 1)))))
  {
    CombinedStep(AfterA(a), 2, true, Leaf(b), Leaf(c), false, 4);
    ShortCircuitStep(AfterA(a), 2, true, Leaf(b), Leaf(c), false, 4);
    LeftOfB(a, b);
    LeafOperand(AfterB(a, b), 3, c, false, 4);
    hide LowerExpr, LowerLeft, LowerOperand, LowerShortCircuit;
    assert LowerOperand(AfterB(a, b), 3, Leaf(c), false, false, 4).0.blocks == AfterC(a, b, c).blocks;
  }

  /** a || (b && c), before its jumps are looked through: both jumps wait, and that of c is the final one. */
  lemma Outer(a: nat, b: nat, c: nat)
    ensures LowerExpr(START, 0, Or(Leaf(a), And(Leaf(b), Leaf(c))), false, 4) ==
      (AfterC(a, b, c).(mem := Heap([Waiting(0, true, Some(1)), Waiting(2, false, None)], None)), 4,
       Deferred(LinkedCmp(JmpList(Some(0), Some(1)), FinalJmp(false, Some(Loc(3, 2)), Loc(3, 1)))))
  {
    var bc := And(Leaf(b), Leaf(c));
    CombinedStep(START, 0, false, Leaf(a), bc, false, 4);
    ShortCircuitStep(START, 0, false, Leaf(a), bc, false, 4);
    LeftOfA(a);
    OperandStep(AfterA(a), 2, bc, false, false, 4);
    Inner(a, b, c);
    hide LowerExpr, LowerLeft, LowerOperand, LowerShortCircuit;
    assert MovScJmps(AfterC(a, b, c).mem, JmpList(Some(0), Some(0)), JmpList(Some(1), Some(1))).0.nodes ==
      [Waiting(0, true, Some(1)), Waiting(2, false, None)];
  }

  /** The removal loop is to take the jump of b out of the list, and loses that of c. */
  lemma LeftSpoilt(a: nat, b: nat, c: nat)
    ensures LowerLeft(START, 0, false, Or(Leaf(a), And(Leaf(b), Leaf(c))), false, 4) ==
      (Spoilt(a, b, c), 4, JmpList(Some(0), Some(2)))
  {
    var l := Or(Leaf(a), And(Leaf(b), Leaf(c)));
    LeftStep(START, 0, false, l, false, 4);
    OperandStep(START, 0, l, true, false, 4);
    Outer(a, b, c);
    hide LowerExpr, LowerLeft, LowerOperand;
    var s1 := AfterC(a, b, c).(mem := Heap([Waiting(0, true, Some(1)), Waiting(2, false, None)], None));
    var fin := FinalJmp(false, Some(Loc(3, 2)), Loc(3, 1));
    CFixed(a, b, c, s1.mem);
    ThreeListed(a, b, c);
  }

  /** After a || (b && c) with its final jump inverted to be taken on true. */
  function Inverted(a: nat, b: nat, c: nat, h: Heap): Builder {
    Builder([Test(a, EQ, 0, None, 2, []), EMPTY_BLOCK, Test(b, NEQ, 2, None, 3, [0]), Test(c, EQ, 4, None, 4, [2]),
      BBlock([], [3])], 6, h)
  }

  lemma CFixed(a: nat, b: nat, c: nat, h: Heap)
    ensures FixPath(AfterC(a, b, c).(mem := h), FinalJmp(false, Some(Loc(3, 2)), Loc(3, 1)), true) ==
      Inverted(a, b, c, h)
  {
    var s := AfterC(a, b, c);
    assert s.blocks[3].code[1 := IntCmp(EQ, c, false, 5)] == Test(c, EQ, 4, None, 4, [2]).code;
    assert SetCond(s.blocks, Loc(3, 1), EQ) == Inverted(a, b, c, h).blocks;
  }

  lemma ThreeListed(a: nat, b: nat, c: nat)
    ensures var h := Heap([Waiting(0, true, Some(1)), Waiting(2, false, None)], None);
      Listed(Inverted(a, b, c, h), 4, LinkedCmp(JmpList(Some(0), Some(1)),
        FinalJmp(true, Some(Loc(3, 2)), Loc(3, 1))), true, false, 4) ==
        (Spoilt(a, b, c), JmpList(Some(0), Some(2)))
  {
    var h := Heap([Waiting(0, true, Some(1)), Waiting(2, false, None)], None);
    var h1 := Heap([Waiting(0, true, Some(1)), Waiting(2, false, Some(2)), Waiting(3, true, None)], None);
    var list := JmpList(Some(0), Some(2));
    assert NewScJmp(h, JmpList(Some(0), Some(1)), ScJmp(true, Loc(3, 2), Loc(3, 1))) == (h1, list) by {
      assert SetNext(h.nodes + [Waiting(3, true, None)], Some(1), Some(2)) == h1.nodes;
    }
    var s := Inverted(a, b, c, h1);
    RemoveRound(s, list, Some(0), None, true, 4, false, 4);
    RemoveRound(s, list, Some(1), Some(1), true, 4, false, 3);
    RemoveRound(Spoilt(a, b, c), list, Some(2), Some(2), true, 4, false, 2);
    RemoveRound(Spoilt(a, b, c), list, None, None, true, 4, false, 1);
    hide RemoveRounds;
    assert DelScJmp(h1, list, Some(1), 1) == (Spoilt(a, b, c).mem, list) by {
      assert SetNext(SetNext(h1.nodes, Some(1), Some(2)), Some(1), None) == Spoilt(a, b, c).mem.nodes;
    }
    PatchB(a, b, c, h1);
  }

  lemma PatchB(a: nat, b: nat, c: nat, h: Heap)
    ensures Patch(Inverted(a, b, c, h), Loc(2, 2), 4) == Spoilt(a, b, c).(mem := h)
  {
    var s := Inverted(a, b, c, h);
    assert s.blocks[2].code[2 := CondJmp(3, Some(4), 3)] == Test(b, NEQ, 2, Some(4), 3, [0]).code;
    assert PatchJmp(s.blocks, Loc(2, 2), 4) == Spoilt(a, b, c).blocks by { assert [3] + [2] == [3, 2]; }
  }

  function Tree(a: nat, b: nat, c: nat, d: nat): Expr { Or(Or(Leaf(a), And(Leaf(b), Leaf(c))), Leaf(d)) }

  lemma WholeTree(a: nat, b: nat, c: nat, d: nat)
    ensures LowerExpr(START, 0, Tree(a, b, c, d), false, 4) ==
      (AfterD(a, b, c, d), 5, Deferred(LinkedCmp(JmpList(Some(0), Some(2)),
        FinalJmp(false, Some(Loc(4, 2)), Loc(4, 1)))))
  {
    var l := Or(Leaf(a), And(Leaf(b), Leaf(c)));
    CombinedStep(START, 0, false, l, Leaf(d), false, 4);
    ShortCircuitStep(START, 0, false, l, Leaf(d), false, 4);
    LeftSpoilt(a, b, c);
    LeafOperand(Spoilt(a, b, c), 4, d, false, 4);
    hide LowerExpr, LowerLeft, LowerOperand, LowerShortCircuit;
    assert LowerOperand(Spoilt(a, b, c), 4, Leaf(d), false, false, 4).0.blocks == AfterD(a, b, c, d).blocks;
  }

  /** The consumer follows the list from the jump of a to that of b, which it patches once more, and never comes to
      that of c. */
  lemma ThirdStaysOpen(a: nat, b: nat, c: nat, d: nat)
    ensures var (s, last) := LowerCond(START, Tree(a, b, c, d), 0, true, 1, false, 4);
      last == 5 && s.blocks == Finished(a, b, c, d) && IsPending(s.blocks, Loc(3, 2))
  {
    WholeTree(a, b, c, d);
    hide LowerExpr;
    var s, list := AfterD(a, b, c, d), JmpList(Some(0), Some(2));
    var s1 := DFixed(a, b, c, d);
    var s2 := s1.(blocks := s1.blocks[0 := Test(a, EQ, 0, Some(1), 2, [])][1 := BBlock([], [4, 0])]);
    CondRound(s1, Some(0), true, 1, 5, 4);
    CondRound(s2, Some(1), true, 1, 5, 3);
    CondRound(s2.(blocks := Finished(a, b, c, d)), None, true, 1, 5, 2);
    hide CondRounds;
    assert Patch(s1, Loc(0, 2), 1) == s2 by {
      assert s1.blocks[0].code[2 := CondJmp(1, Some(1), 2)] == Test(a, EQ, 0, Some(1), 2, []).code &&
        [4] + [0] == [4, 0];
    }
    assert Patch(s2, Loc(2, 2), 5) == s2.(blocks := Finished(a, b, c, d)) by {
      assert s2.blocks[2].code[2 := CondJmp(3, Some(5), 3)] == Test(b, NEQ, 2, Some(5), 3, [0]).code &&
        [4] + [2] == [4, 2];
      assert PatchJmp(s2.blocks, Loc(2, 2), 5) == Finished(a, b, c, d);
    }
  }

  /** The final jump, of d, is inverted to be taken on true and patched. */
  lemma DFixed(a: nat, b: nat, c: nat, d: nat) returns (s: Builder)
    ensures var fin := FinalJmp(false, Some(Loc(4, 2)), Loc(4, 1));
      FinalPatched(FixPath(AfterD(a, b, c, d), fin, true), 5, fin.(result := true), 1) == (s, 5)
    ensures s.mem == AfterD(a, b, c, d).mem && s.blocks ==
      [Test(a, EQ, 0, None, 2, []), BBlock([], [4]), Test(b, NEQ, 2, Some(4), 3, [0]), Test(c, EQ, 4, None, 4, [2]),
       Test(d, EQ, 6, Some(1), 5, [3, 2]), BBlock([], [4])]
  {
    var s0 := AfterD(a, b, c, d);
    var s1 := FixPath(s0, FinalJmp(false, Some(Loc(4, 2)), Loc(4, 1)), true);
    assert s0.blocks[4].code[1 := IntCmp(EQ, d, false, 7)] == Test(d, EQ, 6, None, 5, [3, 2]).code;
    assert s1.blocks == s0.blocks[4 := Test(d, EQ, 6, None, 5, [3, 2])];
    s := Patch(s1, Loc(4, 2), 1);
    assert s1.blocks[4].code[2 := CondJmp(7, Some(1), 5)] == Test(d, EQ, 6, Some(1), 5, [3, 2]).code;
    assert EMPTY_BLOCK.preds + [4] == [4];
    assert s.blocks == s1.blocks[4 := Test(d, EQ, 6, Some(1), 5, [3, 2])][1 := BBlock([], [4])];
  }

  /** A run at a block that tests a leaf: it evaluates the leaf, and falls through if the compare fails. */
  lemma TestFalls(p: Proc, x: nat, id: nat, cond: ConditionKind, r: nat, t: Option<nat>, f: nat, preds: seq<nat>,
                  env: Env,
                  st: State, stop: set<nat>)
    returns (st': State)
    requires x < |p| && p[x] == Test(id, cond, r, t, f, preds) && x < f && f !in stop && !CmpValue(cond, id, false, env)
    ensures st'.trace == st.trace + [id] && Run(p, env, x, 0, st, stop) == Run(p, env, f, 0, st', stop)
  {
    var s := TestExec(id, cond, r, t, f, preds, env, st);
    st' := s.(prev := x);
  }

  /** Otherwise it takes the jump, if that has a target. */
  lemma TestJumps(p: Proc, x: nat, id: nat, cond: ConditionKind, r: nat, t: Option<nat>, f: nat, preds: seq<nat>,
                  env: Env,
                  st: State, stop: set<nat>)
    requires x < |p| && p[x] == Test(id, cond, r, t, f, preds) && CmpValue(cond, id, false, env) &&
      (t.Some? ==> t.value in stop)
    ensures var o := Run(p, env, x, 0, st, stop);
      if t.Some? then o.At? && o.bb == t.value && o.st.trace == st.trace + [id] else o.Exit? && o.jmp == Loc(x, 2)
  {
    var s := TestExec(id, cond, r, t, f, preds, env, st);
  }

  lemma TestExec(id: nat, cond: ConditionKind, r: nat, t: Option<nat>, f: nat, preds: seq<nat>, env: Env, st: State)
    returns (s: State)
    ensures s == ExecCode(Test(id, cond, r, t, f, preds).code, 0, env, st) && s.trace == st.trace + [id]
    ensures r + 1 in s.regs && s.regs[r + 1] == CmpValue(cond, id, false, env)
  {
    hide CmpValue;
    var code := Test(id, cond, r, t, f, preds).code;
    var st1 := st.(trace := st.trace + [id]);
    s := st1.(regs := st1.regs[r + 1 := CmpValue(cond, id, false, env)]);
    assert Step(code[0], env, st) == st1 && Step(code[1], env, st1) == s && Step(code[2], env, s) == s;
    assert ExecCode(code, 3, env, s) == s;
    assert ExecCode(code, 2, env, s) == ExecCode(code, 3, env, s);
    assert ExecCode(code, 1, env, st1) == ExecCode(code, 2, env, s);
  }

  lemma Opposites(id: nat, env: Env)
    ensures CmpValue(EQ, id, false, env) <==> Eval(Leaf(id), env)
    ensures CmpValue(NEQ, id, false, env) <==> !Eval(Leaf(id), env)
  {
  }

  /** When a fails, and b and c hold, the run takes the jump that has no target. */
  lemma RunsNowhere(a: nat, b: nat, c: nat, d: nat, env: Env, st: State)
    requires !Eval(Leaf(a), env) && Eval(Leaf(b), env) && Eval(Leaf(c), env)
    ensures var o := Run(Finished(a, b, c, d), env, 0, 0, st, {1, 5}); o.Exit? && o.jmp == Loc(3, 2)
  {
    var p := Finished(a, b, c, d);
    Opposites(a, env);
    Opposites(b, env);
    Opposites(c, env);
    hide Run, Test, CmpValue, Eval;
    var st1 := TestFalls(p, 0, a, EQ, 0, Some(1), 2, [], env, st, {1, 5});
    var st2 := TestFalls(p, 2, b, NEQ, 2, Some(5), 3, [0], env, st1, {1, 5});
    TestJumps(p, 3, c, EQ, 4, None, 4, [2], env, st2, {1, 5});
  }

  /** When a and b fail, d is not evaluated, and the run arrives where it should only if d fails too. */
  lemma LastIsSkipped(a: nat, b: nat, c: nat, d: nat, env: Env, st: State)
    requires !Eval(Leaf(a), env) && !Eval(Leaf(b), env)
    ensures var o := Run(Finished(a, b, c, d), env, 0, 0, st, {1, 5});
      o.At? && o.bb == 5 && o.st.trace == st.trace + [a] + [b]
    ensures Eval(Tree(a, b, c, d), env) == Eval(Leaf(d), env)
  {
    var p := Finished(a, b, c, d);
    Opposites(a, env);
    Opposites(b, env);
    hide Run, Test, CmpValue;
    assert !Eval(And(Leaf(b), Leaf(c)), env);
    assert !Eval(Or(Leaf(a), And(Leaf(b), Leaf(c))), env);
    var st1 := TestFalls(p, 0, a, EQ, 0, Some(1), 2, [], env, st, {1, 5});
    TestJumps(p, 2, b, NEQ, 2, Some(5), 3, [0], env, st1, {1, 5});
  }
}
