/** The part of the intermediate representation that boolean lowering touches: basic blocks of
    compares and jumps, the operations of the procedure builder on them, and what running them means. */
module ShortCircuitIR {
  import opened Basics

  /** Integer conditions, in the order of the table of opposites. */
  datatype ConditionKind = U_LT | S_LT | U_LTEQ | S_LTEQ | U_GT | S_GT | U_GTEQ | S_GTEQ | EQ | NEQ

  function OppositeCond(c: ConditionKind): ConditionKind {
    match c
    case U_LT => U_GTEQ
    case S_LT => S_GTEQ
    case U_LTEQ => U_GT
    case S_LTEQ => S_GT
    case U_GT => U_LTEQ
    case S_GT => S_LTEQ
    case U_GTEQ => U_LT
    case S_GTEQ => S_LT
    case EQ => NEQ
    case NEQ => EQ
  }

  /** The two's complement reading of a 64-bit word. */
  function Signed(w: Word): int {
    if w < TWO63 then w else w - TWO64
  }

  predicate CondHolds(c: ConditionKind, a: Word, b: Word) {
    match c
    case U_LT => a < b
    case S_LT => Signed(a) < Signed(b)
    case U_LTEQ => a <= b
    case S_LTEQ => Signed(a) <= Signed(b)
    case U_GT => a > b
    case S_GT => Signed(a) > Signed(b)
    case U_GTEQ => a >= b
    case S_GTEQ => Signed(a) >= Signed(b)
    case EQ => a == b
    case NEQ => a != b
  }

  /** What the operands of a leaf evaluate to; the leaf is named by a number. */
  datatype Operands = Operands(a: Word, b: Word)
  type Env = nat -> Operands

  /** An instruction inside a procedure, addressed by its block and its place in the block.
      Instructions are only ever appended, so an address stays good. */
  datatype Loc = Loc(bb: nat, at: nat)

  datatype PhiArg = PhiArg(bb: nat, reg: nat)

  /** Compute stands for the code that evaluates the operands of a leaf.
      IntCmp compares them (or the first of them with zero) into register r. */
  datatype Instr =
    | Compute(id: nat)
    | IntCmp(cond: ConditionKind, id: nat, zero: bool, r: nat)
    | Limm(r: nat, imm: bool)
    | Phi(r: nat, args: seq<PhiArg>)
    | CondJmp(a: nat, trueBB: Option<nat>, falseBB: nat)
    | Jmp(target: nat)
  {
    predicate IsTerminator() { CondJmp? || Jmp? }
  }

  datatype BBlock = BBlock(code: seq<Instr>, preds: seq<nat>) {
    predicate Closed() { |code| > 0 && code[|code| - 1].IsTerminator() }
  }

  const EMPTY_BLOCK := BBlock([], [])

  type Proc = seq<BBlock>

  // ---- builder operations on values ----

  predicate HasInstr(p: Proc, l: Loc) { l.bb < |p| && l.at < |p[l.bb].code| }

  function InstrAt(p: Proc, l: Loc): Instr
    requires HasInstr(p, l)
  {
    p[l.bb].code[l.at]
  }

  function AddInstr(p: Proc, b: nat, ins: Instr): Proc
    requires b < |p|
  {
    p[b := p[b].(code := p[b].code + [ins])]
  }

  function SetInstr(p: Proc, l: Loc, ins: Instr): Proc
    requires HasInstr(p, l)
  {
    p[l.bb := p[l.bb].(code := p[l.bb].code[l.at := ins])]
  }

  function Connect(p: Proc, from: nat, to: nat): Proc
    requires to < |p|
  {
    p[to := p[to].(preds := p[to].preds + [from])]
  }

  predicate IsPending(p: Proc, l: Loc) {
    HasInstr(p, l) && InstrAt(p, l).CondJmp? && InstrAt(p, l).trueBB.None? && l.at + 1 == |p[l.bb].code|
  }

  /** Patching a conditional jump sets its true path and records the predecessor. */
  function PatchJmp(p: Proc, l: Loc, to: nat): Proc
    requires HasInstr(p, l) && InstrAt(p, l).CondJmp? && to < |p|
  {
    Connect(SetInstr(p, l, InstrAt(p, l).(trueBB := Some(to))), l.bb, to)
  }

  function EmitCondJmp(p: Proc, b: nat, a: nat, trueBB: Option<nat>, falseBB: nat): Proc
    requires b < |p| && falseBB < |p| && (trueBB.Some? ==> trueBB.value < |p|)
  {
    var q := AddInstr(p, b, CondJmp(a, trueBB, falseBB));
    var q' := if trueBB.Some? then Connect(q, b, trueBB.value) else q;
    Connect(q', b, falseBB)
  }

  function EmitJmp(p: Proc, b: nat, target: nat): Proc
    requires b < |p| && target < |p|
  {
    Connect(AddInstr(p, b, Jmp(target)), b, target)
  }

  function SetCond(p: Proc, l: Loc, c: ConditionKind): Proc
    requires HasInstr(p, l) && InstrAt(p, l).IntCmp?
  {
    SetInstr(p, l, InstrAt(p, l).(cond := c))
  }

  // ---- running blocks ----

  /** Registers, the leaves evaluated so far, and the block control came from. */
  datatype State = State(regs: map<nat, bool>, trace: seq<nat>, prev: nat)

  predicate CmpValue(c: ConditionKind, id: nat, zero: bool, env: Env) {
    CondHolds(c, env(id).a, if zero then 0 else env(id).b)
  }

  function PhiValue(args: seq<PhiArg>, st: State): bool {
    if args == [] then false
    else if args[0].bb == st.prev && args[0].reg in st.regs then st.regs[args[0].reg]
    else PhiValue(args[1..], st)
  }

  function Step(ins: Instr, env: Env, st: State): State {
    match ins
    case Compute(id) => st.(trace := st.trace + [id])
    case IntCmp(c, id, zero, r) => st.(regs := st.regs[r := CmpValue(c, id, zero, env)])
    case Limm(r, imm) => st.(regs := st.regs[r := imm])
    case Phi(r, args) => st.(regs := st.regs[r := PhiValue(args, st)])
    case CondJmp(_, _, _) => st
    case Jmp(_) => st
  }

  /** Runs the straight-line code from instruction i to the end of the block. */
  function ExecCode(code: seq<Instr>, i: nat, env: Env, st: State): State
    decreases |code| - i
  {
    if i >= |code| then st else ExecCode(code, i + 1, env, Step(code[i], env, st))
  }

  /** How a run ends: on arrival at a block of the stop set, by taking a jump that has no target yet,
      at the end of a block that has no jump yet, or nowhere. */
  datatype Outcome =
    | At(bb: nat, at: nat, st: State)
    | Exit(jmp: Loc, st: State)
    | Open(bb: nat, st: State)
    | Wild

  /** Runs block b from instruction i and follows jumps to higher-numbered blocks until a stop. */
  function Run(p: Proc, env: Env, b: nat, i: nat, st: State, stop: set<nat>): Outcome
    decreases |p| - b
  {
    if b >= |p| then Wild else
    var code := p[b].code;
    var s := ExecCode(code, i, env, st).(prev := b);
    if !p[b].Closed() then Open(b, s)
    else match code[|code| - 1]
      case CondJmp(a, t, f) =>
        if a !in s.regs then Wild
        else if !s.regs[a] then (if f in stop then At(f, 0, s) else if b < f then Run(p, env, f, 0, s, stop) else Wild)
        else if t.None? then Exit(Loc(b, |code| - 1), s)
        else if t.value in stop then At(t.value, 0, s)
        else if b < t.value then Run(p, env, t.value, 0, s, stop)
        else Wild
      case Jmp(t) =>
        if t in stop then At(t, 0, s) else if b < t then Run(p, env, t, 0, s, stop) else Wild
      case _ => Wild
  }

  /** Like Run, but stops at once when the first block is already a stop. */
  function RunFrom(p: Proc, env: Env, b: nat, i: nat, st: State, stop: set<nat>): Outcome {
    if b in stop then At(b, i, st) else Run(p, env, b, i, st, stop)
  }

  // ---- the control-flow graph ----

  predicate Edge(p: Proc, b: nat, t: nat)
    requires b < |p|
  {
    p[b].Closed() &&
    match p[b].code[|p[b].code| - 1]
    case CondJmp(_, tt, f) => tt == Some(t) || f == t
    case Jmp(u) => u == t
    case _ => false
  }

  ghost predicate NoDup(s: seq<nat>) {
    forall i, j :: 0 <= i < j < |s| ==> s[i] != s[j]
  }

  /** Predecessor lists are exactly the inverse of the jump targets, with no block listed twice. */
  ghost predicate PredsInverse(p: Proc) {
    (forall t: nat :: t < |p| ==> NoDup(p[t].preds) && forall b :: b in p[t].preds ==> b < |p|) &&
    (forall t: nat, b: nat :: t < |p| && b < |p| ==> (b in p[t].preds <==> Edge(p, b, t))) &&
    (forall t: nat, b: nat :: b < |p| && Edge(p, b, t) ==> t < |p|)
  }

  /** Every conditional jump reads the register of the compare right before it; compares have
      registers of their own.  So the register of a compare feeds at most one jump. */
  ghost predicate ComparesFeedOneJump(p: Proc, nextReg: nat) {
    (forall l :: HasInstr(p, l) && InstrAt(p, l).CondJmp? ==>
      l.at > 0 && InstrAt(p, Loc(l.bb, l.at - 1)).IntCmp? && InstrAt(p, Loc(l.bb, l.at - 1)).r == InstrAt(p, l).a) &&
    (forall l :: HasInstr(p, l) && InstrAt(p, l).IntCmp? ==> InstrAt(p, l).r < nextReg) &&
    (forall l, m :: HasInstr(p, l) && HasInstr(p, m) && InstrAt(p, l).IntCmp? && InstrAt(p, m).IntCmp? && l != m ==>
      InstrAt(p, l).r != InstrAt(p, m).r)
  }

  // ---- facts about straight-line code ----

  /** Inverting a condition by the table complements it, for every pair of operands. */
  lemma OppositeComplements(c: ConditionKind, a: Word, b: Word)
    ensures CondHolds(OppositeCond(c), a, b) <==> !CondHolds(c, a, b)
    ensures OppositeCond(OppositeCond(c)) == c
  {
  }

  function Events(code: seq<Instr>, i: nat): seq<nat>
    decreases |code| - i
  {
    if i >= |code| then []
    else (if code[i].Compute? then [code[i].id] else []) + Events(code, i + 1)
  }

  lemma StepTrace(ins: Instr, env: Env, st: State)
    ensures Step(ins, env, st).trace == st.trace + (if ins.Compute? then [ins.id] else [])
  {
  }

  lemma {:induction false} ExecTrace(code: seq<Instr>, i: nat, env: Env, st: State)
    ensures ExecCode(code, i, env, st).trace == st.trace + Events(code, i)
    decreases |code| - i
  {
    if i < |code| {
      StepTrace(code[i], env, st);
      hide Step;
      ExecTrace(code, i + 1, env, Step(code[i], env, st));
      var e := if code[i].Compute? then [code[i].id] else [];
      assert st.trace + (e + Events(code, i + 1)) == st.trace + e + Events(code, i + 1);
    }
  }

  lemma {:induction false} EventsAppend(code: seq<Instr>, ins: Instr, i: nat)
    requires i <= |code|
    ensures Events(code + [ins], i) == Events(code, i) + (if ins.Compute? then [ins.id] else [])
    decreases |code| - i
  {
    if i < |code| {
      EventsAppend(code, ins, i + 1);
    } else {
      assert Events(code + [ins], i + 1) == [];
    }
  }

  lemma {:induction false} ExecAppend(code: seq<Instr>, ins: Instr, i: nat, env: Env, st: State)
    requires i <= |code|
    ensures ExecCode(code + [ins], i, env, st) == Step(ins, env, ExecCode(code, i, env, st))
    decreases |code| - i
  {
    if i < |code| {
      assert (code + [ins])[i] == code[i];
      ExecAppend(code, ins, i + 1, env, Step(code[i], env, st));
    } else {
      assert ExecCode(code + [ins], i + 1, env, Step(ins, env, st)) == Step(ins, env, st);
    }
  }
}
