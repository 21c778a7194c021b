/** The lowering of boolean trees as the program does it, as functions of the builder's state.  They are total: they
    say what happens to any blocks and nodes, in order or not.  A loop over a list does at most n rounds; a list that
    a removal has spoilt may be followed for ever. */
module Lowering {
  import opened Basics
  import opened ShortCircuitIR
  import opened ShortCircuitProof
  import opened ScJmpLists

  /** A deferred comparison as the builder passes it on: the list of its waiting jumps, and the final one. */
  datatype LinkedCmp = LinkedCmp(list: JmpList, fin: FinalJmp)

  /** The result of emitting an expression: a computed value, or a comparison not yet turned into one. */
  datatype ExprResult = Computed(id: nat) | Deferred(cmp: LinkedCmp)

  const NO_FINAL := FinalJmp(false, None, Loc(0, 0))

  datatype Builder = Builder(blocks: Proc, nextReg: nat, mem: Heap)

  // ---- single instructions ----

  function End(s: Builder, b: nat): Loc { Loc(b, if b < |s.blocks| then |s.blocks[b].code| else 0) }

  /** An instruction that takes the next register. */
  function Add(s: Builder, b: nat, ins: Instr): Builder {
    if b < |s.blocks| then s.(blocks := AddInstr(s.blocks, b, ins), nextReg := s.nextReg + 1) else s
  }

  function Alloc(s: Builder): Builder { s.(blocks := s.blocks + [EMPTY_BLOCK]) }

  function AddCondJmp(s: Builder, b: nat, r: nat, t: Option<nat>, f: nat): Builder {
    if b < |s.blocks| && f < |s.blocks| && (t.Some? ==> t.value < |s.blocks|)
    then s.(blocks := EmitCondJmp(s.blocks, b, r, t, f)) else s
  }

  function AddJmp(s: Builder, b: nat, to: nat): Builder {
    if b < |s.blocks| && to < |s.blocks| then s.(blocks := EmitJmp(s.blocks, b, to)) else s
  }

  function Patch(s: Builder, j: Loc, to: nat): Builder {
    if HasInstr(s.blocks, j) && InstrAt(s.blocks, j).CondJmp? && to < |s.blocks|
    then s.(blocks := PatchJmp(s.blocks, j, to)) else s
  }

  function CmpReg(s: Builder, cmp: Loc): nat {
    if HasInstr(s.blocks, cmp) && InstrAt(s.blocks, cmp).IntCmp? then InstrAt(s.blocks, cmp).r else 0
  }

  // ---- final jumps ----

  function ZeroCmp(s: Builder, b: nat, id: nat, result: bool): (Builder, FinalJmp) {
    (Add(s, b, IntCmp(if result then NEQ else EQ, id, true, s.nextReg)), FinalJmp(result, None, End(s, b)))
  }

  function FixPath(s: Builder, fin: FinalJmp, desired: bool): Builder {
    if fin.result != desired && HasInstr(s.blocks, fin.cmp) && InstrAt(s.blocks, fin.cmp).IntCmp?
    then s.(blocks := SetCond(s.blocks, fin.cmp, OppositeCond(InstrAt(s.blocks, fin.cmp).cond))) else s
  }

  function CopyJmp(s: Builder, b: nat, src: FinalJmp, desired: bool): (Builder, nat, FinalJmp) {
    var s1, dst := FixPath(s, src, desired), src.(result := desired);
    if dst.jmp.Some? then (s1, b, dst)
    else
      var s2, last := Alloc(s1), |s1.blocks|;
      (AddCondJmp(s2, b, CmpReg(s2, dst.cmp), None, last), last, dst.(jmp := Some(End(s2, b))))
  }

  // ---- loops over lists ----

  predicate AtNode(h: Heap, it: Option<nat>, n: nat) { n > 0 && it.Some? && it.value < |h.nodes| }

  function FlipRounds(h: Heap, it: Option<nat>, n: nat): Heap
    decreases n
  {
    if !AtNode(h, it, n) then h else
    var node := h.nodes[it.value];
    FlipRounds(h.(nodes := h.nodes[it.value := FlippedNode(node)]), node.next, n - 1)
  }

  /** The removal loop. Repaired, it advances the predecessor past nodes that stay only; as written, to
      the next node. */
  function RemoveRounds(s: Builder, list: JmpList, it: Option<nat>, prev: Option<nat>, v: bool, to: nat,
                        repaired: bool, n: nat):
    (Builder, JmpList)
    decreases n
  {
    if !AtNode(s.mem, it, n) then (s, list) else
    var node := s.mem.nodes[it.value];
    if node.sc.result == v then
      RemoveRounds(s, list, node.next, if repaired then it else node.next, v, to, repaired, n - 1)
    else
      var (h, list') := DelScJmp(s.mem, list, prev, it.value);
      RemoveRounds(Patch(s, node.sc.jmp, to).(mem := h), list', node.next, if repaired then prev else node.next,
                   v, to, repaired, n - 1)
  }

  /** Patches the jumps with the result v. */
  function PatchRounds(s: Builder, it: Option<nat>, v: bool, to: nat, n: nat): Builder
    decreases n
  {
    if !AtNode(s.mem, it, n) then s else
    var node := s.mem.nodes[it.value];
    PatchRounds(if node.sc.result == v then Patch(s, node.sc.jmp, to) else s, node.next, v, to, n - 1)
  }

  /** Patches every jump by its result. */
  function CondRounds(s: Builder, it: Option<nat>, jmpResult: bool, jmpBB: nat, last: nat, n: nat): Builder
    decreases n
  {
    if !AtNode(s.mem, it, n) then s else
    var node := s.mem.nodes[it.value];
    CondRounds(Patch(s, node.sc.jmp, if node.sc.result == jmpResult then jmpBB else last), node.next, jmpResult,
      jmpBB, last, n - 1)
  }

  // ---- trees ----

  function LowerExpr(s: Builder, b: nat, e: Expr, repaired: bool, n: nat): (Builder, nat, ExprResult)
    decreases e, 1
  {
    match e
    case Value(id) => (Add(s, b, Compute(id)), b, Computed(id))
    case Compare(cond, id) =>
      var s1 := Add(s, b, Compute(id));
      (Add(s1, b, IntCmp(cond, id, false, s1.nextReg)), b,
        Deferred(LinkedCmp(EMPTY_LIST, FinalJmp(true, None, End(s1, b)))))
    case Not(i) =>
      var (s1, last, er) := LowerExpr(s, b, i, repaired, n);
      LowerNot(s1, last, er, n)
    case And(l, r) =>
      var (s1, last, c) := LowerShortCircuit(s, b, true, l, r, repaired, n);
      (s1, last, Deferred(c))
    case Or(l, r) =>
      var (s1, last, c) := LowerShortCircuit(s, b, false, l, r, repaired, n);
      (s1, last, Deferred(c))
  }

  function LowerNot(s: Builder, b: nat, er: ExprResult, n: nat): (Builder, nat, ExprResult) {
    if er.Deferred? then
      (s.(mem := FlipRounds(s.mem, er.cmp.list.first, n)), b,
        Deferred(er.cmp.(fin := er.cmp.fin.(result := !er.cmp.fin.result))))
    else
      var (s1, fin) := ZeroCmp(s, b, er.id, false);
      (s1, b, Deferred(LinkedCmp(EMPTY_LIST, fin.(result := true))))
  }

  /** A computed value as a comparison with zero. */
  function AsCmp(s: Builder, b: nat, er: ExprResult, result: bool): (Builder, LinkedCmp) {
    if er.Deferred? then (s, er.cmp)
    else var (s1, fin) := ZeroCmp(s, b, er.id, result); (s1, LinkedCmp(EMPTY_LIST, fin))
  }

  function LowerOperand(s: Builder, b: nat, e: Expr, desired: bool, repaired: bool, n: nat): (Builder, nat, LinkedCmp)
    decreases e, 2
  {
    var (s1, b1, er) := LowerExpr(s, b, e, repaired, n);
    var (s2, c) := AsCmp(s1, b1, er, desired);
    var (s3, last, fin) := CopyJmp(s2, b1, c.fin, desired);
    (s3, last, c.(fin := fin))
  }

  /** The left operand's final jump joins the list, and the jumps with the opposite value leave it. */
  function LowerLeft(s: Builder, b: nat, isAnd: bool, l: Expr, repaired: bool, n: nat): (Builder, nat, JmpList)
    decreases l, 3
  {
    var (s1, right, c) := LowerOperand(s, b, l, !isAnd, repaired, n);
    var (s2, list) := Listed(s1, right, c, !isAnd, repaired, n);
    (s2, right, list)
  }

  function Listed(s: Builder, right: nat, c: LinkedCmp, v: bool, repaired: bool, n: nat): (Builder, JmpList) {
    if c.fin.jmp.None? then (s, c.list) else
    var (h, list) := NewScJmp(s.mem, c.list, ScJmp(v, c.fin.jmp.value, c.fin.cmp));
    RemoveRounds(s.(mem := h), list, list.first, None, v, right, repaired, n)
  }

  function LowerShortCircuit(s: Builder, b: nat, isAnd: bool, l: Expr, r: Expr, repaired: bool, n: nat): (Builder,
                             nat, LinkedCmp)
    decreases Combined(isAnd, l, r), 0
  {
    var (s1, right, list) := LowerLeft(s, b, isAnd, l, repaired, n);
    var (s2, last, c) := LowerOperand(s1, right, r, false, repaired, n);
    var (h, list') := MovScJmps(s2.mem, list, c.list);
    (s2.(mem := h), last, LinkedCmp(list', c.fin))
  }

  // ---- consumers ----

  /** A condition: a branch to jmpBB when it has the value jmpResult. */
  function LowerCond(s: Builder, e: Expr, hdr: nat, jmpResult: bool, jmpBB: nat, repaired: bool, n: nat): (Builder,
                     nat) {
    var (s1, curr, er) := LowerExpr(s, hdr, e, repaired, n);
    CondEnd(s1, curr, er, jmpResult, jmpBB, n)
  }

  function CondEnd(s: Builder, curr: nat, er: ExprResult, jmpResult: bool, jmpBB: nat, n: nat): (Builder, nat) {
    var (s1, c) := AsCmp(s, curr, er, jmpResult);
    var s2 := FixPath(s1, c.fin, jmpResult);
    var (s3, last) := FinalPatched(s2, curr, c.fin.(result := jmpResult), jmpBB);
    (CondRounds(s3, c.list.first, jmpResult, jmpBB, last, n), last)
  }

  function FinalPatched(s: Builder, curr: nat, fin: FinalJmp, jmpBB: nat): (Builder, nat) {
    if fin.jmp.Some? then (Patch(s, fin.jmp.value, jmpBB), curr)
    else var s1 := Alloc(s); (AddCondJmp(s1, curr, CmpReg(s1, fin.cmp), Some(jmpBB), |s.blocks|), |s.blocks|)
  }

  /** A deferred tree as a value in a register. */
  function LowerBool(s: Builder, b: nat, e: Expr, repaired: bool, n: nat): (Builder, nat, nat) {
    var (s1, end, er) := LowerExpr(s, b, e, repaired, n);
    if er.Deferred? then Execute(s1, end, er.cmp, n) else (s1, end, 0)
  }

  function Execute(s: Builder, b: nat, c: LinkedCmp, n: nat): (Builder, nat, nat) {
    if c.list.first.None? && c.fin.jmp.None? then (s, b, CmpReg(s, c.fin.cmp)) else
    var s1 := Alloc(Alloc(FixPath(s, c.fin, false)));
    var f, last := |s.blocks|, |s.blocks| + 1;
    var (s2, dst) := Arms(s1, b, f, last, c.list.first, c.fin.jmp, n);
    (s2, last, dst)
  }

  function Arms(s: Builder, t: nat, f: nat, last: nat, first: Option<nat>, jmp: Option<Loc>, n: nat): (Builder, nat) {
    var (s1, one) := LoadConst(PatchRounds(s, first, true, t, n), t, true, last);
    var s2 := if jmp.Some? then Patch(s1, jmp.value, f) else s1;
    var (s3, zero) := LoadConst(PatchRounds(s2, first, false, f, n), f, false, last);
    (Add(s3, last, Phi(s3.nextReg, [PhiArg(t, one), PhiArg(f, zero)])), s3.nextReg)
  }

  function LoadConst(s: Builder, arm: nat, imm: bool, last: nat): (Builder, nat) {
    (AddJmp(Add(s, arm, Limm(s.nextReg, imm)), arm, last), s.nextReg)
  }

  // ---- one step of each ----

  lemma NotStep(s: Builder, b: nat, i: Expr, repaired: bool, n: nat)
    ensures var r := LowerExpr(s, b, i, repaired, n); LowerExpr(s, b, Not(i), repaired, n) == LowerNot(r.0, r.1, r.2, n)
  {
  }

  lemma CombinedStep(s: Builder, b: nat, isAnd: bool, l: Expr, r: Expr, repaired: bool, n: nat)
    ensures var c := LowerShortCircuit(s, b, isAnd, l, r, repaired, n);
      LowerExpr(s, b, Combined(isAnd, l, r), repaired, n) == (c.0, c.1, Deferred(c.2))
  {
  }

  lemma OperandStep(s: Builder, b: nat, e: Expr, desired: bool, repaired: bool, n: nat)
    ensures var x := LowerExpr(s, b, e, repaired, n);
      var y := AsCmp(x.0, x.1, x.2, desired);
      var z := CopyJmp(y.0, x.1, y.1.fin, desired);
      LowerOperand(s, b, e, desired, repaired, n) == (z.0, z.1, y.1.(fin := z.2))
  {
  }

  lemma LeftStep(s: Builder, b: nat, isAnd: bool, l: Expr, repaired: bool, n: nat)
    ensures var x := LowerOperand(s, b, l, !isAnd, repaired, n);
      var y := Listed(x.0, x.1, x.2, !isAnd, repaired, n);
      LowerLeft(s, b, isAnd, l, repaired, n) == (y.0, x.1, y.1)
  {
  }

  lemma ShortCircuitStep(s: Builder, b: nat, isAnd: bool, l: Expr, r: Expr, repaired: bool, n: nat)
    ensures var x := LowerLeft(s, b, isAnd, l, repaired, n);
      var y := LowerOperand(x.0, x.1, r, false, repaired, n);
      var z := MovScJmps(y.0.mem, x.2, y.2.list);
      LowerShortCircuit(s, b, isAnd, l, r, repaired, n) == (y.0.(mem := z.0), y.1, LinkedCmp(z.1, y.2.fin))
  {
  }

  lemma RemoveRound(s: Builder, list: JmpList, it: Option<nat>, prev: Option<nat>, v: bool, to: nat, repaired: bool,
                    n: int)
    requires n >= 0 && (it.Some? ==> n > 0 && it.value < |s.mem.nodes|)
    ensures it.None? ==> RemoveRounds(s, list, it, prev, v, to, repaired, n) == (s, list)
    ensures it.Some? ==>
      var node := s.mem.nodes[it.value];
      var (h, list') := DelScJmp(s.mem, list, prev, it.value);
      RemoveRounds(s, list, it, prev, v, to, repaired, n) ==
        if node.sc.result == v then RemoveRounds(s, list, node.next, if repaired then it
          else node.next, v, to, repaired, n - 1)
        else RemoveRounds(Patch(s, node.sc.jmp, to).(mem := h), list', node.next, if repaired then prev else node.next,
                          v, to, repaired, n - 1)
  {
    hide DelScJmp, Patch;
  }

  lemma PatchRound(s: Builder, it: Option<nat>, v: bool, to: nat, n: int)
    requires n >= 0 && (it.Some? ==> n > 0 && it.value < |s.mem.nodes|)
    ensures it.None? ==> PatchRounds(s, it, v, to, n) == s
    ensures it.Some? ==>
      var node := s.mem.nodes[it.value];
      PatchRounds(s, it, v, to, n) ==
        PatchRounds(if node.sc.result == v then Patch(s, node.sc.jmp, to) else s, node.next, v, to, n - 1)
  {
    hide Patch;
  }

  lemma CondRound(s: Builder, it: Option<nat>, jmpResult: bool, jmpBB: nat, last: nat, n: int)
    requires n >= 0 && (it.Some? ==> n > 0 && it.value < |s.mem.nodes|)
    ensures it.None? ==> CondRounds(s, it, jmpResult, jmpBB, last, n) == s
    ensures it.Some? ==>
      var node := s.mem.nodes[it.value];
      CondRounds(s, it, jmpResult, jmpBB, last, n) ==
        CondRounds(Patch(s, node.sc.jmp, if node.sc.result == jmpResult then jmpBB else last), node.next, jmpResult,
          jmpBB, last, n - 1)
  {
    hide Patch;
  }

  lemma PatchPending(s: Builder, j: Loc, to: nat)
    requires IsPending(s.blocks, j) && to < |s.blocks|
    ensures Patch(s, j, to) == s.(blocks := PatchJmp(s.blocks, j, to))
  {
  }

  lemma CmpRegKept(s: Builder, cmp: Loc, r: nat)
    requires HasInstr(s.blocks, cmp) && InstrAt(s.blocks, cmp).IntCmp? && InstrAt(s.blocks, cmp).r == r
    ensures CmpReg(Alloc(s), cmp) == r
  {
  }
}
