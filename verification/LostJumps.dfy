/** What can still happen to a jump whose node no list leads to: nothing. */
module LostJumps {
  import opened Basics
  import opened ShortCircuitIR
  import opened ShortCircuitProof
  import opened ScJmpLists
  import opened Lowering

  ghost predicate Leads(to: Option<nat>, c: set<nat>) { to.Some? ==> to.value in c }

  /** The jump j has no target. The links of the nodes in c and the freelist stay in c, and no node of c
      has the jump. */
  ghost predicate Hidden(s: Builder, c: set<nat>, j: Loc) {
    IsPending(s.blocks, j) && Sealed(s.mem.nodes, c) && Leads(s.mem.freelist, c) && NotAmong(s.mem, c, j)
  }

  ghost predicate NotAmong(h: Heap, c: set<nat>, j: Loc) {
    forall n :: n in c && n < |h.nodes| ==> h.nodes[n].sc.jmp != j
  }

  /** Neither the list of the comparison nor its final jump leads to j, and j is not in the block where
      code is added. */
  ghost predicate Away(b: nat, c: LinkedCmp, k: set<nat>, j: Loc) {
    b != j.bb && Leads(c.list.first, k) && c.fin.jmp != Some(j)
  }

  /** A jump emitted from block b0 on has got lost: it has no target, and nothing leads to it, neither from the nodes
      held, nor from the freelist, nor from the comparison. */
  ghost predicate Gone(n0: nat, b0: nat, s: Builder, held: set<nat>, b: nat, c: LinkedCmp) {
    exists k, j :: held <= k && Hidden(s, k, j) && Away(b, c, k, j) && (j.bb == b0 || n0 <= j.bb)
  }

  // ---- single instructions ----

  lemma HiddenAdd(s: Builder, c: set<nat>, j: Loc, b: nat, ins: Instr)
    requires Hidden(s, c, j) && b != j.bb
    ensures Hidden(Add(s, b, ins), c, j)
  {
  }

  lemma HiddenAlloc(s: Builder, c: set<nat>, j: Loc)
    requires Hidden(s, c, j)
    ensures Hidden(Alloc(s), c, j) && j.bb < |s.blocks|
  {
  }

  lemma HiddenCondJmp(s: Builder, c: set<nat>, j: Loc, b: nat, r: nat, t: Option<nat>, f: nat)
    requires Hidden(s, c, j) && b != j.bb
    ensures Hidden(AddCondJmp(s, b, r, t, f), c, j)
  {
  }

  lemma HiddenJmp(s: Builder, c: set<nat>, j: Loc, b: nat, to: nat)
    requires Hidden(s, c, j) && b != j.bb
    ensures Hidden(AddJmp(s, b, to), c, j)
  {
  }

  lemma HiddenPatch(s: Builder, c: set<nat>, j: Loc, i: Loc, to: nat)
    requires Hidden(s, c, j) && i != j
    ensures Hidden(Patch(s, i, to), c, j) && |Patch(s, i, to).blocks| == |s.blocks|
  {
  }

  lemma HiddenFix(s: Builder, c: set<nat>, j: Loc, fin: FinalJmp, desired: bool)
    requires Hidden(s, c, j)
    ensures Hidden(FixPath(s, fin, desired), c, j) && |FixPath(s, fin, desired).blocks| == |s.blocks|
  {
  }

  lemma HiddenCopy(s: Builder, c: set<nat>, j: Loc, b: nat, src: FinalJmp, desired: bool)
    requires Hidden(s, c, j) && b != j.bb && src.jmp != Some(j)
    ensures var (s', last, dst) := CopyJmp(s, b, src, desired); Hidden(s', c, j) && last != j.bb && dst.jmp != Some(j)
  {
    HiddenFix(s, c, j, src, desired);
    var s1 := FixPath(s, src, desired);
    HiddenAlloc(s1, c, j);
    HiddenCondJmp(Alloc(s1), c, j, b, CmpReg(Alloc(s1), src.cmp), None, |s1.blocks|);
  }

  lemma HiddenAsCmp(s: Builder, c: set<nat>, j: Loc, b: nat, er: ExprResult, result: bool)
    requires Hidden(s, c, j) && (if er.Deferred? then Away(b, er.cmp, c, j) else b != j.bb)
    ensures var (s', cmp) := AsCmp(s, b, er, result); Hidden(s', c, j) && Away(b, cmp, c, j)
  {
    if er.Computed? { HiddenAdd(s, c, j, b, IntCmp(if result then NEQ else EQ, er.id, true, s.nextReg)); }
  }

  // ---- lists ----

  lemma HiddenNew(s: Builder, c: set<nat>, j: Loc, l: JmpList, sc: ScJmp)
    requires Hidden(s, c, j) && Leads(l.first, c) && sc.jmp != j
    ensures var (h, list), k := NewScJmp(s.mem, l, sc), c + {NewPlace(s.mem)};
      Hidden(s.(mem := h), k, j) && Leads(list.first, k)
  {
    var n := NewPlace(s.mem);
    var h := NewScJmp(s.mem, l, sc).0;
    assert |h.nodes| == if n < |s.mem.nodes| then |s.mem.nodes| else |s.mem.nodes| + 1;
    forall m | m in c + {n} ensures m < |h.nodes| && Leads(h.nodes[m].next, c + {n}) && h.nodes[m].sc.jmp != j {
      assert m != n ==> h.nodes[m].sc == s.mem.nodes[m].sc;
      assert l.last != Some(m) ==> h.nodes[m].next == if m == n then None else s.mem.nodes[m].next;
    }
  }

  lemma HiddenMov(s: Builder, c: set<nat>, j: Loc, dst: JmpList, src: JmpList)
    requires Hidden(s, c, j) && Leads(dst.first, c) && Leads(src.first, c)
    ensures var (h, list) := MovScJmps(s.mem, dst, src); Hidden(s.(mem := h), c, j) && Leads(list.first, c)
  {
    assert forall m :: 0 <= m < |s.mem.nodes| ==> MovScJmps(s.mem, dst, src).0.nodes[m].sc == s.mem.nodes[m].sc;
  }

  lemma HiddenDel(s: Builder, c: set<nat>, j: Loc, l: JmpList, prev: Option<nat>, n: nat)
    requires Hidden(s, c, j) && Leads(l.first, c) && n in c && n < |s.mem.nodes|
    ensures var (h, list) := DelScJmp(s.mem, l, prev, n); Hidden(s.(mem := h), c, j) && Leads(list.first, c)
  {
    assert forall m :: 0 <= m < |s.mem.nodes| ==> DelScJmp(s.mem, l, prev, n).0.nodes[m].sc == s.mem.nodes[m].sc;
  }

  lemma {:induction false} HiddenFlip(s: Builder, c: set<nat>, j: Loc, it: Option<nat>, n: nat)
    requires Hidden(s, c, j) && Leads(it, c)
    ensures Hidden(s.(mem := FlipRounds(s.mem, it, n)), c, j)
    decreases n
  {
    if AtNode(s.mem, it, n) {
      var node := s.mem.nodes[it.value];
      HiddenFlip(s.(mem := s.mem.(nodes := s.mem.nodes[it.value := FlippedNode(node)])), c, j, node.next, n - 1);
    }
  }

  lemma {:induction false} HiddenRemove(s: Builder, c: set<nat>, j: Loc, list: JmpList, it: Option<nat>,
                                        prev: Option<nat>,
                                        v: bool, to: nat, repaired: bool, n: nat)
    requires Hidden(s, c, j) && Leads(list.first, c) && Leads(it, c)
    ensures var (s', list') := RemoveRounds(s, list, it, prev, v, to, repaired, n);
      Hidden(s', c, j) && Leads(list'.first, c) && |s'.blocks| == |s.blocks|
    decreases n
  {
    if AtNode(s.mem, it, n) {
      var node := s.mem.nodes[it.value];
      if node.sc.result == v {
        HiddenRemove(s, c, j, list, node.next, if repaired then it else node.next, v, to, repaired, n - 1);
      } else {
        HiddenPatch(s, c, j, node.sc.jmp, to);
        HiddenDel(Patch(s, node.sc.jmp, to), c, j, list, prev, it.value);
        var (h, list') := DelScJmp(s.mem, list, prev, it.value);
        HiddenRemove(Patch(s, node.sc.jmp, to).(mem := h), c, j, list', node.next, if repaired then prev else node.next,
                     v, to, repaired, n - 1);
      }
    }
  }

  lemma {:induction false} HiddenPatches(s: Builder, c: set<nat>, j: Loc, it: Option<nat>, v: bool, to: nat, n: nat)
    requires Hidden(s, c, j) && Leads(it, c)
    ensures Hidden(PatchRounds(s, it, v, to, n), c, j) && |PatchRounds(s, it, v, to, n).blocks| == |s.blocks|
    decreases n
  {
    if AtNode(s.mem, it, n) {
      var node := s.mem.nodes[it.value];
      HiddenPatch(s, c, j, node.sc.jmp, to);
      HiddenPatches(if node.sc.result == v then Patch(s, node.sc.jmp, to) else s, c, j, node.next, v, to, n - 1);
    }
  }

  /** The consumer's loop. */
  lemma {:induction false} HiddenConds(s: Builder, c: set<nat>, j: Loc, it: Option<nat>, jmpResult: bool, jmpBB: nat,
                                       last: nat, n: nat)
    requires Hidden(s, c, j) && Leads(it, c)
    ensures Hidden(CondRounds(s, it, jmpResult, jmpBB, last, n), c, j)
    decreases n
  {
    if AtNode(s.mem, it, n) {
      var node := s.mem.nodes[it.value];
      var to := if node.sc.result == jmpResult then jmpBB else last;
      HiddenPatch(s, c, j, node.sc.jmp, to);
      HiddenConds(Patch(s, node.sc.jmp, to), c, j, node.next, jmpResult, jmpBB, last, n - 1);
    }
  }

  // ---- trees ----

  /** Whatever tree is lowered in another block, a hidden jump stays hidden. */
  lemma {:induction false} HiddenExpr(s: Builder, c: set<nat>, j: Loc, b: nat, e: Expr, repaired: bool, n: nat)
    returns (k: set<nat>)
    requires Hidden(s, c, j) && b != j.bb
    ensures var (s', last, er) := LowerExpr(s, b, e, repaired, n);
      c <= k && Hidden(s', k, j) && last != j.bb && (er.Deferred? ==> Away(last, er.cmp, k, j))
    decreases e, 1
  {
    hide Hidden, Add, Sealed;
    k := c;
    match e {
      case Value(id) => HiddenAdd(s, c, j, b, Compute(id));
      case Compare(cond, id) =>
        HiddenAdd(s, c, j, b, Compute(id));
        var s1 := Add(s, b, Compute(id));
        HiddenAdd(s1, c, j, b, IntCmp(cond, id, false, s1.nextReg));
      case Not(i) =>
        k := HiddenExpr(s, c, j, b, i, repaired, n);
        var (s1, last, er) := LowerExpr(s, b, i, repaired, n);
        HiddenNot(s1, k, j, last, er, n);
      case And(l, r) => k := HiddenShortCircuit(s, c, j, b, true, l, r, repaired, n);
      case Or(l, r) => k := HiddenShortCircuit(s, c, j, b, false, l, r, repaired, n);
    }
  }

  lemma HiddenNot(s: Builder, c: set<nat>, j: Loc, b: nat, er: ExprResult, n: nat)
    requires Hidden(s, c, j) && (if er.Deferred? then Away(b, er.cmp, c, j) else b != j.bb)
    ensures var (s', last, er') := LowerNot(s, b, er, n); Hidden(s', c, j) && er'.Deferred? && Away(last, er'.cmp, c, j)
  {
    hide Hidden;
    if er.Deferred? {
      HiddenFlip(s, c, j, er.cmp.list.first, n);
    } else {
      HiddenAdd(s, c, j, b, IntCmp(EQ, er.id, true, s.nextReg));
    }
  }

  lemma {:induction false} HiddenOperand(s: Builder, c: set<nat>, j: Loc, b: nat, e: Expr, desired: bool,
                                         repaired: bool, n: nat)
    returns (k: set<nat>)
    requires Hidden(s, c, j) && b != j.bb
    ensures var (s', last, cmp) := LowerOperand(s, b, e, desired, repaired, n);
      c <= k && Hidden(s', k, j) && Away(last, cmp, k, j)
    decreases e, 2
  {
    k := HiddenExpr(s, c, j, b, e, repaired, n);
    OperandAway(s, k, j, b, e, desired, repaired, n);
  }

  lemma OperandAway(s: Builder, k: set<nat>, j: Loc, b: nat, e: Expr, desired: bool, repaired: bool, n: nat)
    requires var (s1, b1, er) := LowerExpr(s, b, e, repaired, n);
      Hidden(s1, k, j) && b1 != j.bb && (er.Deferred? ==> Away(b1, er.cmp, k, j))
    ensures var (s', last, cmp) := LowerOperand(s, b, e, desired, repaired, n);
      Hidden(s', k, j) && Away(last, cmp, k, j)
  {
    hide Hidden, LowerExpr, AsCmp, CopyJmp;
    var (s1, b1, er) := LowerExpr(s, b, e, repaired, n);
    HiddenAsCmp(s1, k, j, b1, er, desired);
    var (s2, cmp) := AsCmp(s1, b1, er, desired);
    HiddenCopy(s2, k, j, b1, cmp.fin, desired);
  }

  lemma HiddenListed(s: Builder, c: set<nat>, j: Loc, right: nat, cmp: LinkedCmp, v: bool, repaired: bool, n: nat)
    returns (k: set<nat>)
    requires Hidden(s, c, j) && Away(right, cmp, c, j)
    ensures var (s', list) := Listed(s, right, cmp, v, repaired, n); c <= k && Hidden(s', k, j) && Leads(list.first, k)
  {
    hide Hidden, NewScJmp, RemoveRounds;
    k := c;
    if cmp.fin.jmp.Some? {
      var sc := ScJmp(v, cmp.fin.jmp.value, cmp.fin.cmp);
      HiddenNew(s, c, j, cmp.list, sc);
      k := c + {NewPlace(s.mem)};
      var (h, list) := NewScJmp(s.mem, cmp.list, sc);
      HiddenRemove(s.(mem := h), k, j, list, list.first, None, v, right, repaired, n);
    }
  }

  lemma {:induction false} HiddenLeft(s: Builder, c: set<nat>, j: Loc, b: nat, isAnd: bool, l: Expr, repaired: bool,
                                      n: nat)
    returns (k: set<nat>)
    requires Hidden(s, c, j) && b != j.bb
    ensures var (s', right, list) := LowerLeft(s, b, isAnd, l, repaired, n);
      c <= k && Hidden(s', k, j) && right != j.bb && Leads(list.first, k)
    decreases l, 3
  {
    hide Hidden, LowerOperand, Listed;
    k := HiddenOperand(s, c, j, b, l, !isAnd, repaired, n);
    var (s1, right, cmp) := LowerOperand(s, b, l, !isAnd, repaired, n);
    k := HiddenListed(s1, k, j, right, cmp, !isAnd, repaired, n);
  }

  lemma {:induction false} HiddenShortCircuit(s: Builder, c: set<nat>, j: Loc, b: nat, isAnd: bool, l: Expr, r: Expr,
                                              repaired: bool, n: nat)
    returns (k: set<nat>)
    requires Hidden(s, c, j) && b != j.bb
    ensures var (s', last, cmp) := LowerShortCircuit(s, b, isAnd, l, r, repaired, n);
      c <= k && Hidden(s', k, j) && Away(last, cmp, k, j)
    decreases Combined(isAnd, l, r), 0
  {
    hide Hidden, LowerLeft, LowerOperand, MovScJmps;
    k := HiddenLeft(s, c, j, b, isAnd, l, repaired, n);
    var (s1, right, list) := LowerLeft(s, b, isAnd, l, repaired, n);
    k := HiddenRight(s1, k, j, right, list, r, repaired, n);
  }

  /** Lowering the right operand, and joining the lists. */
  lemma {:induction false} HiddenRight(s: Builder, c: set<nat>, j: Loc, right: nat, list: JmpList, r: Expr,
                                       repaired: bool, n: nat)
    returns (k: set<nat>)
    requires Hidden(s, c, j) && right != j.bb && Leads(list.first, c)
    ensures var (s2, last, cmp) := LowerOperand(s, right, r, false, repaired, n);
      var (h, list') := MovScJmps(s2.mem, list, cmp.list);
      c <= k && Hidden(s2.(mem := h), k, j) && Away(last, LinkedCmp(list', cmp.fin), k, j)
    decreases r, 3
  {
    hide Hidden, LowerOperand, MovScJmps;
    k := HiddenOperand(s, c, j, right, r, false, repaired, n);
    var (s2, last, cmp) := LowerOperand(s, right, r, false, repaired, n);
    HiddenMov(s2, k, j, list, cmp.list);
  }

  // ---- consumers ----

  /** The end of a condition does not patch a hidden jump. */
  lemma HiddenCondEnd(s: Builder, c: set<nat>, j: Loc, curr: nat, er: ExprResult, jmpResult: bool, jmpBB: nat, n: nat)
    requires Hidden(s, c, j) && er.Deferred? && Away(curr, er.cmp, c, j)
    ensures Hidden(CondEnd(s, curr, er, jmpResult, jmpBB, n).0, c, j)
  {
    hide Hidden, FixPath, Patch, Alloc, AddCondJmp, CondRounds;
    var fin := er.cmp.fin;
    HiddenFix(s, c, j, fin, jmpResult);
    var s2 := FixPath(s, fin, jmpResult);
    HiddenAlloc(s2, c, j);
    HiddenCondJmp(Alloc(s2), c, j, curr, CmpReg(Alloc(s2), fin.cmp), Some(jmpBB), |s2.blocks|);
    if fin.jmp.Some? { HiddenPatch(s2, c, j, fin.jmp.value, jmpBB); }
    var (s3, last) := FinalPatched(s2, curr, fin.(result := jmpResult), jmpBB);
    HiddenConds(s3, c, j, er.cmp.list.first, jmpResult, jmpBB, last, n);
  }

  /** Nor does turning the tree into a value. */
  lemma HiddenExecute(s: Builder, c: set<nat>, j: Loc, b: nat, cmp: LinkedCmp, n: nat)
    requires Hidden(s, c, j) && Away(b, cmp, c, j)
    ensures Hidden(Execute(s, b, cmp, n).0, c, j)
  {
    hide Hidden, FixPath, Alloc, Arms;
    var s0 := FixPath(s, cmp.fin, false);
    HiddenFix(s, c, j, cmp.fin, false);
    HiddenAlloc(s0, c, j);
    HiddenAlloc(Alloc(s0), c, j);
    HiddenArms(Alloc(Alloc(s0)), c, j, b, |s.blocks|, |s.blocks| + 1, cmp.list.first, cmp.fin.jmp, n);
  }

  lemma HiddenArms(s: Builder, c: set<nat>, j: Loc, t: nat, f: nat, last: nat, first: Option<nat>, jmp: Option<Loc>,
                   n: nat)
    requires Hidden(s, c, j) && t != j.bb && f != j.bb && last != j.bb && Leads(first, c) && jmp != Some(j)
    ensures Hidden(Arms(s, t, f, last, first, jmp, n).0, c, j)
  {
    hide Hidden, Patch, PatchRounds, LoadConst, Add;
    var p := PatchRounds(s, first, true, t, n);
    HiddenPatches(s, c, j, first, true, t, n);
    HiddenLoad(p, c, j, t, true, last);
    var s1 := LoadConst(p, t, true, last).0;
    if jmp.Some? { HiddenPatch(s1, c, j, jmp.value, f); }
    var s2 := if jmp.Some? then Patch(s1, jmp.value, f) else s1;
    var q := PatchRounds(s2, first, false, f, n);
    HiddenPatches(s2, c, j, first, false, f, n);
    HiddenLoad(q, c, j, f, false, last);
    var (s3, zero) := LoadConst(q, f, false, last);
    HiddenAdd(s3, c, j, last, Phi(s3.nextReg, [PhiArg(t, LoadConst(p, t, true, last).1), PhiArg(f, zero)]));
  }

  lemma HiddenLoad(s: Builder, c: set<nat>, j: Loc, arm: nat, imm: bool, last: nat)
    requires Hidden(s, c, j) && arm != j.bb
    ensures Hidden(LoadConst(s, arm, imm, last).0, c, j)
  {
    HiddenAdd(s, c, j, arm, Limm(s.nextReg, imm));
    HiddenJmp(Add(s, arm, Limm(s.nextReg, imm)), c, j, arm, last);
  }

  // ---- a jump that has got lost stays lost ----

  ghost predicate GoneExpr(n0: nat, b0: nat, r: (Builder, nat, ExprResult), held: set<nat>) {
    r.2.Deferred? && Gone(n0, b0, r.0, held, r.1, r.2.cmp)
  }

  ghost predicate GoneCmp(n0: nat, b0: nat, r: (Builder, nat, LinkedCmp), held: set<nat>) {
    Gone(n0, b0, r.0, held, r.1, r.2)
  }

  ghost predicate GoneList(n0: nat, b0: nat, r: (Builder, nat, JmpList), held: set<nat>) {
    Gone(n0, b0, r.0, held, r.1, LinkedCmp(r.2, NO_FINAL))
  }

  /** A jump emitted from block b0 on has no target, and neither the nodes held nor free ones lead to it. */
  ghost predicate Forgotten(n0: nat, b0: nat, s: Builder, held: set<nat>) {
    exists k, j :: held <= k && Hidden(s, k, j) && (j.bb == b0 || n0 <= j.bb)
  }

  lemma GoneNot(n0: nat, b0: nat, s: Builder, b: nat, i: Expr, repaired: bool, n: nat, held: set<nat>)
    requires GoneExpr(n0, b0, LowerExpr(s, b, i, repaired, n), held)
    ensures GoneExpr(n0, b0, LowerExpr(s, b, Not(i), repaired, n), held)
  {
    hide Hidden, Away, LowerExpr, LowerNot;
    NotStep(s, b, i, repaired, n);
    var r := LowerExpr(s, b, i, repaired, n);
    var k, j :| held <= k && Hidden(r.0, k, j) && Away(r.1, r.2.cmp, k, j) && (j.bb == b0 || n0 <= j.bb);
    HiddenNot(r.0, k, j, r.1, r.2, n);
  }

  lemma GoneOperand(n0: nat, b0: nat, s: Builder, b: nat, e: Expr, desired: bool, repaired: bool, n: nat,
                    held: set<nat>)
    requires GoneExpr(n0, b0, LowerExpr(s, b, e, repaired, n), held)
    ensures GoneCmp(n0, b0, LowerOperand(s, b, e, desired, repaired, n), held)
  {
    var r := LowerExpr(s, b, e, repaired, n);
    var k, j :| held <= k && Hidden(r.0, k, j) && Away(r.1, r.2.cmp, k, j) && (j.bb == b0 || n0 <= j.bb);
    hide Hidden, LowerExpr, LowerOperand;
    OperandAway(s, k, j, b, e, desired, repaired, n);
  }

  lemma GoneLeft(n0: nat, b0: nat, s: Builder, b: nat, isAnd: bool, l: Expr, repaired: bool, n: nat, held: set<nat>)
    requires GoneCmp(n0, b0, LowerOperand(s, b, l, !isAnd, repaired, n), held)
    ensures GoneList(n0, b0, LowerLeft(s, b, isAnd, l, repaired, n), held)
  {
    hide Hidden, LowerOperand, LowerLeft, Listed;
    LeftStep(s, b, isAnd, l, repaired, n);
    var r := LowerOperand(s, b, l, !isAnd, repaired, n);
    var c, j :| held <= c && Hidden(r.0, c, j) && Away(r.1, r.2, c, j) && (j.bb == b0 || n0 <= j.bb);
    var k := HiddenListed(r.0, c, j, r.1, r.2, !isAnd, repaired, n);
  }

  lemma GoneRight(n0: nat, b0: nat, s: Builder, b: nat, isAnd: bool, l: Expr, r: Expr, repaired: bool, n: nat,
                  held: set<nat>)
    requires GoneList(n0, b0, LowerLeft(s, b, isAnd, l, repaired, n), held)
    ensures GoneCmp(n0, b0, LowerShortCircuit(s, b, isAnd, l, r, repaired, n), held)
  {
    hide Hidden, LowerOperand, LowerLeft, LowerShortCircuit, MovScJmps;
    ShortCircuitStep(s, b, isAnd, l, r, repaired, n);
    var x := LowerLeft(s, b, isAnd, l, repaired, n);
    var c, j :| held <= c && Hidden(x.0, c, j) && Away(x.1, LinkedCmp(x.2, NO_FINAL), c, j) &&
      (j.bb == b0 || n0 <= j.bb);
    var k := HiddenRight(x.0, c, j, x.1, x.2, r, repaired, n);
  }

  /** What is lost in the right operand is lost for the whole, whose left operand's list is in use meanwhile. */
  lemma GoneOuter(n0: nat, b0: nat, n1: nat, s: Builder, b: nat, isAnd: bool, l: Expr, r: Expr, repaired: bool, n: nat,
                  held: set<nat>, used: set<nat>)
    requires var x := LowerLeft(s, b, isAnd, l, repaired, n);
      Leads(x.2.first, used) && n0 <= x.1 && n0 <= n1 &&
        GoneCmp(n1, x.1, LowerOperand(x.0, x.1, r, false, repaired, n), held + used)
    ensures GoneCmp(n0, b0, LowerShortCircuit(s, b, isAnd, l, r, repaired, n), held)
  {
    hide Hidden, LowerOperand, LowerLeft, LowerShortCircuit, MovScJmps;
    ShortCircuitStep(s, b, isAnd, l, r, repaired, n);
    var x := LowerLeft(s, b, isAnd, l, repaired, n);
    var y := LowerOperand(x.0, x.1, r, false, repaired, n);
    var k, j :| held + used <= k && Hidden(y.0, k, j) && Away(y.1, y.2, k, j) && (j.bb == x.1 || n1 <= j.bb);
    HiddenMov(y.0, k, j, x.2, y.2.list);
  }

  /** The consumers leave it without a target. */
  lemma GoneCond(n0: nat, b0: nat, s: Builder, e: Expr, hdr: nat, jmpResult: bool, jmpBB: nat, repaired: bool,
                 n: nat, held: set<nat>)
    requires GoneExpr(n0, b0, LowerExpr(s, hdr, e, repaired, n), held)
    ensures Forgotten(n0, b0, LowerCond(s, e, hdr, jmpResult, jmpBB, repaired, n).0, held)
  {
    hide Hidden, LowerExpr, CondEnd;
    var r := LowerExpr(s, hdr, e, repaired, n);
    var k, j :| held <= k && Hidden(r.0, k, j) && Away(r.1, r.2.cmp, k, j) && (j.bb == b0 || n0 <= j.bb);
    HiddenCondEnd(r.0, k, j, r.1, r.2, jmpResult, jmpBB, n);
  }

  lemma GoneBool(n0: nat, b0: nat, s: Builder, b: nat, e: Expr, repaired: bool, n: nat, held: set<nat>)
    requires GoneExpr(n0, b0, LowerExpr(s, b, e, repaired, n), held)
    ensures Forgotten(n0, b0, LowerBool(s, b, e, repaired, n).0, held)
  {
    hide Hidden, LowerExpr, Execute;
    var r := LowerExpr(s, b, e, repaired, n);
    var k, j :| held <= k && Hidden(r.0, k, j) && Away(r.1, r.2.cmp, k, j) && (j.bb == b0 || n0 <= j.bb);
    HiddenExecute(r.0, k, j, r.1, r.2.cmp, n);
  }

  /** No tree that is lowered later, in any open block, gives it one. */
  lemma ForgottenStays(n0: nat, b0: nat, s: Builder, held: set<nat>, b: nat, e: Expr, repaired: bool, n: nat)
    requires Forgotten(n0, b0, s, held) && b < |s.blocks| && !s.blocks[b].Closed()
    ensures Forgotten(n0, b0, LowerExpr(s, b, e, repaired, n).0, held)
  {
    var c, j :| held <= c && Hidden(s, c, j) && (j.bb == b0 || n0 <= j.bb);
    assert b != j.bb;
    hide Hidden;
    var k := HiddenExpr(s, c, j, b, e, repaired, n);
  }
}
