/** Boolean trees, what lowering one must establish, and the steps that establish it. */
module ShortCircuitProof {
  import opened Basics
  import opened ShortCircuitIR

  /** A boolean tree.  A Compare becomes a deferred compare; a Value is any other computation,
      which is compared with zero when a jump needs it. */
  datatype Expr =
    | Compare(cond: ConditionKind, id: nat)
    | Value(id: nat)
    | And(left: Expr, right: Expr)
    | Or(left: Expr, right: Expr)
    | Not(inner: Expr)

  predicate Eval(e: Expr, env: Env) {
    match e
    case Compare(c, id) => CmpValue(c, id, false, env)
    case Value(id) => env(id).a != 0
    case And(l, r) => Eval(l, env) && Eval(r, env)
    case Or(l, r) => Eval(l, env) || Eval(r, env)
    case Not(i) => !Eval(i, env)
  }

  /** The leaves that short-circuit evaluation evaluates, in order. */
  function Trace(e: Expr, env: Env): seq<nat> {
    match e
    case Compare(_, id) => [id]
    case Value(id) => [id]
    case And(l, r) => Trace(l, env) + (if Eval(l, env) then Trace(r, env) else [])
    case Or(l, r) => Trace(l, env) + (if Eval(l, env) then [] else Trace(r, env))
    case Not(i) => Trace(i, env)
  }

  /** A short-circuit jump that waits for its target: taken means the tree evaluates to result. */
  datatype ScJmp = ScJmp(result: bool, jmp: Loc, cmp: Loc)

  /** The last compare of a deferred comparison, and its jump once that has been emitted. */
  datatype FinalJmp = FinalJmp(result: bool, jmp: Option<Loc>, cmp: Loc)

  datatype DeferredCmp = DeferredCmp(sc: seq<ScJmp>, fin: FinalJmp)

  // ---- the region of blocks that lowering at block b0 adds to ----

  predicate InRegion(p: Proc, b0: nat, n0: nat, b: nat) {
    b < |p| && (b == b0 || n0 <= b)
  }

  ghost predicate Frame(p0: Proc, p: Proc, b0: nat) {
    b0 < |p0| <= |p| && p0[b0].code <= p[b0].code &&
    forall b :: 0 <= b < |p0| && b != b0 ==> p[b].code == p0[b].code
  }

  predicate GoesForward(p: Proc, n0: nat, b: nat, t: nat, stops: set<nat>) {
    t in stops || (n0 <= t < |p| && b < t)
  }

  ghost predicate Targets(p: Proc, b0: nat, n0: nat, stops: set<nat>) {
    forall b: nat :: InRegion(p, b0, n0, b) && (b == b0 || b !in stops) && p[b].Closed() ==>
      var ins := p[b].code[|p[b].code| - 1];
      ins.CondJmp? && GoesForward(p, n0, b, ins.falseBB, stops) &&
      (ins.trueBB.Some? ==> GoesForward(p, n0, b, ins.trueBB.value, stops))
  }

  ghost predicate ListOK(p: Proc, b0: nat, n0: nat, sc: seq<ScJmp>) {
    (forall k :: 0 <= k < |sc| ==> IsPending(p, sc[k].jmp) && InRegion(p, b0, n0, sc[k].jmp.bb)) &&
    (forall k, m :: 0 <= k < m < |sc| ==> sc[k].jmp != sc[m].jmp)
  }

  ghost predicate InList(sc: seq<ScJmp>, j: Loc, result: bool) {
    exists k :: 0 <= k < |sc| && sc[k].jmp == j && sc[k].result == result
  }

  ghost predicate FinalOK(p: Proc, b0: nat, n0: nat, i0: nat, fin: FinalJmp, eb: nat) {
    InRegion(p, b0, n0, fin.cmp.bb) && HasInstr(p, fin.cmp) && InstrAt(p, fin.cmp).IntCmp? &&
    (fin.cmp.bb == b0 ==> i0 <= fin.cmp.at) &&
    match fin.jmp
    case None => fin.cmp.bb == eb && fin.cmp.at + 1 == |p[eb].code|
    case Some(j) =>
      j == Loc(fin.cmp.bb, fin.cmp.at + 1) && IsPending(p, j) && InstrAt(p, j).a == InstrAt(p, fin.cmp).r &&
      InstrAt(p, j).falseBB == eb && n0 <= eb && eb + 1 == |p| && fin.cmp.bb < eb && p[eb].code == []
  }

  /** Every jump of the region that still lacks a target is in the given list (or is the final jump). */
  ghost predicate NoneForgotten(p: Proc, b0: nat, n0: nat, sc: seq<ScJmp>, fin: Option<Loc>) {
    forall j :: IsPending(p, j) && InRegion(p, b0, n0, j.bb) ==>
      fin == Some(j) || exists k :: 0 <= k < |sc| && sc[k].jmp == j
  }

  /** Running the region from its start either takes a listed jump whose result is the value of the
      tree, or arrives at the final compare, which then holds exactly when the tree has its result. */
  ghost predicate DecidesAt(p: Proc, env: Env, st: State, e: Expr, b0: nat, i0: nat, d: DeferredCmp) {
    match RunFrom(p, env, b0, i0, st, {d.fin.cmp.bb})
    case At(t, i, s) =>
      t == d.fin.cmp.bb && t < |p| && i <= d.fin.cmp.at && HasInstr(p, d.fin.cmp) && InstrAt(p, d.fin.cmp).IntCmp? &&
      ExecCode(p[t].code, i, env, s).trace == st.trace + Trace(e, env) &&
      var c := InstrAt(p, d.fin.cmp);
      (CmpValue(c.cond, c.id, c.zero, env) <==> Eval(e, env) == d.fin.result)
    case Exit(j, s) => s.trace == st.trace + Trace(e, env) && InList(d.sc, j, Eval(e, env))
    case _ => false
  }

  ghost predicate Decides(p: Proc, e: Expr, b0: nat, i0: nat, d: DeferredCmp) {
    forall env: Env, st: State :: DecidesAt(p, env, st, e, b0, i0, d)
  }

  ghost predicate EnteredOnlyFrom(p: Proc, b0: nat, n0: nat, eb: nat, from: nat) {
    forall b: nat :: InRegion(p, b0, n0, b) && p[b].Closed() && b != from ==>
      var ins := p[b].code[|p[b].code| - 1];
      ins.CondJmp? && ins.falseBB != eb && ins.trueBB != Some(eb)
  }

  /** The part of Lowered that speaks of the blocks and lists, not of runs. */
  ghost predicate LoweredShape(p0: Proc, p: Proc, b0: nat, d: DeferredCmp, eb: nat) {
    Frame(p0, p, b0) && !p0[b0].Closed() &&
    Targets(p, b0, |p0|, {}) && ListOK(p, b0, |p0|, d.sc) &&
    FinalOK(p, b0, |p0|, |p0[b0].code|, d.fin, eb) &&
    InRegion(p, b0, |p0|, eb) && !p[eb].Closed() &&
    (d.fin.jmp.None? ==> d.sc == []) &&
    (d.fin.jmp.Some? ==>
      (forall k :: 0 <= k < |d.sc| ==> d.sc[k].jmp != d.fin.jmp.value) &&
        EnteredOnlyFrom(p, b0, |p0|, eb, d.fin.cmp.bb)) &&
    NoneForgotten(p, b0, |p0|, d.sc, d.fin.jmp)
  }

  /** Lowering tree e at the end of block b0 of p0 gave p, the deferred comparison d and the open block eb. */
  ghost predicate Lowered(p0: Proc, p: Proc, e: Expr, b0: nat, d: DeferredCmp, eb: nat) {
    LoweredShape(p0, p, b0, d, eb) && Decides(p, e, b0, |p0[b0].code|, d)
  }

  function Dests(dest: map<bool, nat>): set<nat> {
    (if true in dest then {dest[true]} else {}) + (if false in dest then {dest[false]} else {})
  }

  /** Running the region from its start arrives at the block dest gives for the value of the tree,
      or takes a listed jump whose result is that value. */
  ghost predicate RoutesAt(p: Proc, env: Env, st: State, e: Expr, b0: nat, i0: nat, sc: seq<ScJmp>, dest: map<bool,
                           nat>) {
    match Run(p, env, b0, i0, st, Dests(dest))
    case At(t, i, s) =>
      s.trace == st.trace + Trace(e, env) && i == 0 && s.prev < |p| &&
      Eval(e, env) in dest && dest[Eval(e, env)] == t
    case Exit(j, s) => s.trace == st.trace + Trace(e, env) && s.prev == j.bb && InList(sc, j, Eval(e, env))
    case _ => false
  }

  ghost predicate RoutedShape(p0: Proc, p: Proc, b0: nat, sc: seq<ScJmp>, dest: map<bool, nat>) {
    Frame(p0, p, b0) && Targets(p, b0, |p0|, Dests(dest)) && ListOK(p, b0, |p0|, sc) &&
    (forall k :: 0 <= k < |sc| && sc[k].result in dest ==> InstrAt(p, sc[k].jmp).falseBB != dest[sc[k].result]) &&
    NoneForgotten(p, b0, |p0|, sc, None)
  }

  ghost predicate Routes(p: Proc, e: Expr, b0: nat, i0: nat, sc: seq<ScJmp>, dest: map<bool, nat>) {
    forall env: Env, st: State :: RoutesAt(p, env, st, e, b0, i0, sc, dest)
  }

  ghost predicate Routed(p0: Proc, p: Proc, e: Expr, b0: nat, sc: seq<ScJmp>, dest: map<bool, nat>) {
    RoutedShape(p0, p, b0, sc, dest) && Routes(p, e, b0, |p0[b0].code|, sc, dest)
  }

  // ---- composing runs ----

  /** The same code, except that a jump without a target may have got one. */
  ghost predicate SameCode(c: seq<Instr>, c': seq<Instr>) {
    |c| == |c'| &&
    forall k :: 0 <= k < |c| ==>
      c[k] == c'[k] || (c[k].CondJmp? && c'[k].CondJmp? && c[k].trueBB.None? && c'[k] == c[k].(trueBB := c'[k].trueBB))
  }

  ghost predicate Agree(p: Proc, p': Proc, b0: nat, n0: nat, stop: set<nat>, stop': set<nat>) {
    forall x: nat :: InRegion(p, b0, n0, x) && (x == b0 || x !in stop) ==>
      x < |p'| && SameCode(p[x].code, p'[x].code) && (x == b0 || x !in stop')
  }

  lemma {:induction false} ExecSame(c: seq<Instr>, c': seq<Instr>, i: nat, env: Env, st: State)
    requires SameCode(c, c')
    ensures ExecCode(c, i, env, st) == ExecCode(c', i, env, st)
    decreases |c| - i
  {
    if i < |c| {
      assert Step(c[i], env, st) == Step(c'[i], env, st);
      ExecSame(c, c', i + 1, env, Step(c[i], env, st));
    }
  }

  /** What a run of p amounts to in p', where its stops may be passed and its exits may have targets. */
  function Resume(p': Proc, env: Env, o: Outcome, stop': set<nat>): Outcome {
    match o
    case At(t, i, s) =>
      if t in stop' then o else if s.prev < t then Run(p', env, t, i, s, stop') else Wild
    case Exit(j, s) =>
      if HasInstr(p', j) && InstrAt(p', j).CondJmp? && InstrAt(p', j).trueBB.Some? then
        var t := InstrAt(p', j).trueBB.value;
        if t in stop' then At(t, 0, s) else if j.bb < t then Run(p', env, t, 0, s, stop') else Wild
      else o
    case _ => o
  }

  lemma {:induction false} ComposeRuns(p: Proc, p': Proc, env: Env, b0: nat, n0: nat, b: nat, i: nat, st: State,
                                       stop: set<nat>, stop': set<nat>)
    requires InRegion(p, b0, n0, b) && (b == b0 || b !in stop) && b0 < n0
    requires Targets(p, b0, n0, stop)
    requires Agree(p, p', b0, n0, stop, stop')
    ensures Run(p', env, b, i, st, stop') == Resume(p', env, Run(p, env, b, i, st, stop), stop')
    decreases |p| - b
  {
    RegionStep(p, p', b0, n0, b, stop, stop');
    ExecSame(p[b].code, p'[b].code, i, env, st);
    hide ExecCode, SameCode, Targets, Agree;
    var code := p[b].code;
    var s := ExecCode(code, i, env, st).(prev := b);
    if p[b].Closed() {
      var ins := code[|code| - 1];
      if ins.a in s.regs {
        if !s.regs[ins.a] {
          if ins.falseBB !in stop {
            ComposeRuns(p, p', env, b0, n0, ins.falseBB, 0, s, stop, stop');
          }
        } else if ins.trueBB.Some? && ins.trueBB.value !in stop {
          ComposeRuns(p, p', env, b0, n0, ins.trueBB.value, 0, s, stop, stop');
        }
      }
    }
  }

  /** The end of a block of the region, in both graphs, and where it leads. */
  lemma RegionStep(p: Proc, p': Proc, b0: nat, n0: nat, b: nat, stop: set<nat>, stop': set<nat>)
    requires InRegion(p, b0, n0, b) && (b == b0 || b !in stop) && b0 < n0 && Targets(p, b0, n0, stop) &&
      Agree(p, p', b0, n0, stop, stop')
    ensures b < |p'| && SameCode(p[b].code, p'[b].code) && |p'[b].code| == |p[b].code| &&
      (p'[b].Closed() <==> p[b].Closed())
    ensures b == b0 || b !in stop'
    ensures p[b].Closed() ==>
      var c, c' := p[b].code[|p[b].code| - 1], p'[b].code[|p[b].code| - 1];
      c.CondJmp? && c'.CondJmp? && c' == c.(trueBB := c'.trueBB) && (c.trueBB.Some? ==> c' == c) &&
      (c.falseBB !in stop ==> InRegion(p, b0, n0, c.falseBB) && b < c.falseBB) &&
      (c.trueBB.Some? && c.trueBB.value !in stop ==> InRegion(p, b0, n0, c.trueBB.value) && b < c.trueBB.value)
  {
    SameEnd(p[b], p'[b]);
  }

  lemma SameEnd(b: BBlock, b': BBlock)
    requires SameCode(b.code, b'.code)
    ensures |b'.code| == |b.code| && (b'.Closed() <==> b.Closed())
    ensures b.Closed() && b.code[|b.code| - 1].CondJmp? ==>
      var c, c' := b.code[|b.code| - 1], b'.code[|b.code| - 1];
      c' == c || (c'.CondJmp? && c.trueBB.None? && c' == c.(trueBB := c'.trueBB))
  {
  }

  /** Facts every run of a region has: where it can stop, and what it leaves behind. */
  lemma {:induction false} RunEnds(p: Proc, env: Env, b0: nat, n0: nat, b: nat, i: nat, st: State, stop: set<nat>)
    requires InRegion(p, b0, n0, b) && b0 < n0 && (b == b0 || b !in stop)
    requires Targets(p, b0, n0, stop)
    ensures match Run(p, env, b, i, st, stop)
      case At(t, k, s) => t in stop && k == 0 && InRegion(p, b0, n0, s.prev) && p[s.prev].Closed() &&
        (s.prev == b0 || s.prev !in stop)
      case Exit(j, s) => IsPending(p, j) && InRegion(p, b0, n0, j.bb) && s.prev == j.bb
      case _ => true
    decreases |p| - b
  {
    var code := p[b].code;
    var s := ExecCode(code, i, env, st).(prev := b);
    if p[b].Closed() {
      var ins := code[|code| - 1];
      if ins.a in s.regs {
        if !s.regs[ins.a] {
          if ins.falseBB !in stop { RunEnds(p, env, b0, n0, ins.falseBB, 0, s, stop); }
        } else if ins.trueBB.Some? && ins.trueBB.value !in stop {
          RunEnds(p, env, b0, n0, ins.trueBB.value, 0, s, stop);
        }
      }
    }
  }

  // ---- the steps of lowering ----

  /** A leaf: evaluate the operands, then compare, with the condition that makes the compare say `result`. */
  lemma {:induction false} LeafLowered(p0: Proc, b0: nat, e: Expr, id: nat, cond: ConditionKind, zero: bool, r: nat,
                                       result: bool)
    requires b0 < |p0| && !p0[b0].Closed()
    requires e.Compare? || e.Value?
    requires e.id == id
    requires forall env: Env :: CmpValue(cond, id, zero, env) <==> Eval(e, env) == result
    ensures var p := AddInstr(AddInstr(p0, b0, Compute(id)), b0, IntCmp(cond, id, zero, r));
      Lowered(p0, p, e, b0, DeferredCmp([], FinalJmp(result, None, Loc(b0, |p0[b0].code| + 1))), b0)
  {
    var p1 := AddInstr(p0, b0, Compute(id));
    var p := AddInstr(p1, b0, IntCmp(cond, id, zero, r));
    var i0 := |p0[b0].code|;
    var d := DeferredCmp([], FinalJmp(result, None, Loc(b0, i0 + 1)));
    forall env: Env, st: State
      ensures DecidesAt(p, env, st, e, b0, i0, d)
    {
      assert ExecCode(p0[b0].code, i0, env, st) == st;
      ExecAppend(p0[b0].code, Compute(id), i0, env, st);
      ExecAppend(p1[b0].code, IntCmp(cond, id, zero, r), i0, env, st);
    }
  }

  /** Inverting the final compare in place, together with its result, keeps what was established. */
  lemma {:induction false} FlipLowered(p0: Proc, p: Proc, e: Expr, b0: nat, d: DeferredCmp, eb: nat)
    requires Lowered(p0, p, e, b0, d, eb)
    ensures HasInstr(p, d.fin.cmp) && InstrAt(p, d.fin.cmp).IntCmp?
    ensures var p' := SetCond(p, d.fin.cmp, OppositeCond(InstrAt(p, d.fin.cmp).cond));
      Lowered(p0, p', e, b0, d.(fin := d.fin.(result := !d.fin.result)), eb)
  {
    var c' := OppositeCond(InstrAt(p, d.fin.cmp).cond);
    var p' := SetCond(p, d.fin.cmp, c');
    var d' := d.(fin := d.fin.(result := !d.fin.result));
    FlipLoweredShape(p0, p, b0, d, eb, c');
    forall env: Env, st: State
      ensures DecidesAt(p', env, st, e, b0, |p0[b0].code|, d')
    {
      assert DecidesAt(p, env, st, e, b0, |p0[b0].code|, d);
      FlipDecides(p0, p, env, st, e, b0, d, eb);
    }
  }

  lemma FlipLoweredShape(p0: Proc, p: Proc, b0: nat, d: DeferredCmp, eb: nat, c: ConditionKind)
    requires LoweredShape(p0, p, b0, d, eb)
    ensures LoweredShape(p0, SetCond(p, d.fin.cmp, c), b0, d.(fin := d.fin.(result := !d.fin.result)), eb)
  {
    FlipShape(p, d.fin.cmp, c);
    var p' := SetCond(p, d.fin.cmp, c);
    assert forall b: nat :: b < |p| && p[b].Closed() ==>
      p'[b].code[|p'[b].code| - 1] == p[b].code[|p[b].code| - 1];
    assert Frame(p0, p', b0);
    hide SetCond, SetInstr;
    assert Targets(p', b0, |p0|, {});
  }

  lemma FlipShape(p: Proc, l: Loc, c: ConditionKind)
    requires HasInstr(p, l) && InstrAt(p, l).IntCmp?
    ensures var p' := SetCond(p, l, c);
      |p'| == |p| &&
      (forall b :: 0 <= b < |p| ==> |p'[b].code| == |p[b].code| && (p'[b].Closed() <==> p[b].Closed())) &&
      (forall m :: HasInstr(p', m) <==> HasInstr(p, m)) &&
      (forall m :: HasInstr(p, m) ==> InstrAt(p', m) == if m == l then InstrAt(p, m).(cond := c) else InstrAt(p, m)) &&
      (forall m :: IsPending(p', m) <==> IsPending(p, m))
  {
  }

  /** Up to the block of the final compare nothing changes. */
  lemma {:induction false} FlipRuns(p: Proc, env: Env, st: State, b0: nat, n0: nat, i0: nat, cmp: Loc, c: Instr)
    requires b0 < n0 && b0 < |p| && Targets(p, b0, n0, {}) && HasInstr(p, cmp) && InstrAt(p, cmp) == c && c.IntCmp?
    ensures var p' := SetCond(p, cmp, OppositeCond(c.cond));
      RunFrom(p', env, b0, i0, st, {cmp.bb}) == RunFrom(p, env, b0, i0, st, {cmp.bb})
  {
    var p' := SetCond(p, cmp, OppositeCond(c.cond));
    if cmp.bb != b0 {
      assert Targets(p, b0, n0, {cmp.bb});
      ComposeRuns(p, p', env, b0, n0, b0, i0, st, {cmp.bb}, {cmp.bb});
      RunEnds(p, env, b0, n0, b0, i0, st, {cmp.bb});
    }
  }

  lemma {:induction false} FlipDecides(p0: Proc, p: Proc, env: Env, st: State, e: Expr, b0: nat, d: DeferredCmp,
                                       eb: nat)
    requires b0 < |p0| && b0 < |p| && Targets(p, b0, |p0|, {})
    requires FinalOK(p, b0, |p0|, |p0[b0].code|, d.fin, eb)
    requires DecidesAt(p, env, st, e, b0, |p0[b0].code|, d)
    ensures var p' := SetCond(p, d.fin.cmp, OppositeCond(InstrAt(p, d.fin.cmp).cond));
      DecidesAt(p', env, st, e, b0, |p0[b0].code|, d.(fin := d.fin.(result := !d.fin.result)))
  {
    var c := InstrAt(p, d.fin.cmp);
    var p' := SetCond(p, d.fin.cmp, OppositeCond(c.cond));
    var D, i0 := d.fin.cmp.bb, |p0[b0].code|;
    FlipRuns(p, env, st, b0, |p0|, i0, d.fin.cmp, c);
    hide Targets, Run, RunFrom, ExecCode, IsPending;
    var o := RunFrom(p, env, b0, i0, st, {D});
    if o.At? {
      ExecTrace(p[D].code, o.at, env, o.st);
      ExecTrace(p'[D].code, o.at, env, o.st);
      EventsSet(p[D].code, d.fin.cmp.at, InstrAt(p', d.fin.cmp), o.at);
      OppositeComplements(c.cond, env(c.id).a, if c.zero then 0 else env(c.id).b);
    }
  }

  lemma {:induction false} EventsSet(code: seq<Instr>, at: nat, ins: Instr, i: nat)
    requires at < |code| && !code[at].Compute? && !ins.Compute?
    ensures Events(code[at := ins], i) == Events(code, i)
    decreases |code| - i
  {
    if i < |code| {
      EventsSet(code, at, ins, i + 1);
    }
  }

  /** Giving the final compare its jump: taken to a target still unknown, falling through to a new block. */
  lemma {:induction false} JumpLowered(p0: Proc, p: Proc, e: Expr, b0: nat, d: DeferredCmp, eb: nat)
    requires Lowered(p0, p, e, b0, d, eb) && d.fin.jmp.None?
    ensures HasInstr(p, d.fin.cmp) && InstrAt(p, d.fin.cmp).IntCmp?
    ensures |p[eb].code| > 0 && p[eb].code[|p[eb].code| - 1] == InstrAt(p, d.fin.cmp)
    ensures var p' := EmitCondJmp(p + [EMPTY_BLOCK], eb, InstrAt(p, d.fin.cmp).r, None, |p|);
      Lowered(p0, p', e, b0, d.(fin := d.fin.(jmp := Some(Loc(eb, |p[eb].code|)))), |p|)
  {
    var r := InstrAt(p, d.fin.cmp).r;
    var p' := EmitCondJmp(p + [EMPTY_BLOCK], eb, r, None, |p|);
    var d' := d.(fin := d.fin.(jmp := Some(Loc(eb, |p[eb].code|))));
    JumpLoweredShape(p0, p, b0, d, eb, r);
    forall env: Env, st: State
      ensures DecidesAt(p', env, st, e, b0, |p0[b0].code|, d')
    {
      assert DecidesAt(p, env, st, e, b0, |p0[b0].code|, d);
      JumpDecides(p0, p, env, st, e, b0, d, eb, r);
    }
  }

  lemma JumpLoweredShape(p0: Proc, p: Proc, b0: nat, d: DeferredCmp, eb: nat, r: nat)
    requires LoweredShape(p0, p, b0, d, eb) && d.fin.jmp.None? && InstrAt(p, d.fin.cmp).r == r
    ensures LoweredShape(p0, EmitCondJmp(p + [EMPTY_BLOCK], eb, r, None, |p|), b0,
                         d.(fin := d.fin.(jmp := Some(Loc(eb, |p[eb].code|)))), |p|)
  {
    var p' := EmitCondJmp(p + [EMPTY_BLOCK], eb, r, None, |p|);
    JumpTargets(p, b0, |p0|, eb, r);
    JumpNone(p, b0, |p0|, d, eb, r);
    JumpFinal(p, b0, |p0|, |p0[b0].code|, d.fin, eb, r);
    JumpFrame(p0, p, b0, eb, r);
    hide EmitCondJmp, Targets, FinalOK, EnteredOnlyFrom, NoneForgotten, Frame;
  }

  lemma JumpFrame(p0: Proc, p: Proc, b0: nat, eb: nat, r: nat)
    requires Frame(p0, p, b0) && eb < |p| && !p[eb].Closed() && (eb == b0 || |p0| <= eb)
    ensures Frame(p0, EmitCondJmp(p + [EMPTY_BLOCK], eb, r, None, |p|), b0)
  {
    JumpShape(p, eb, r);
    hide EmitCondJmp, IsPending;
  }

  lemma JumpTargets(p: Proc, b0: nat, n0: nat, eb: nat, r: nat)
    requires Targets(p, b0, n0, {}) && eb < |p| && !p[eb].Closed() && n0 <= |p| && (eb == b0 || n0 <= eb)
    ensures Targets(EmitCondJmp(p + [EMPTY_BLOCK], eb, r, None, |p|), b0, n0, {})
    ensures EnteredOnlyFrom(EmitCondJmp(p + [EMPTY_BLOCK], eb, r, None, |p|), b0, n0, |p|, eb)
  {
    JumpShape(p, eb, r);
    var p' := EmitCondJmp(p + [EMPTY_BLOCK], eb, r, None, |p|);
    hide EmitCondJmp, IsPending, HasInstr, InstrAt;
    forall b: nat | InRegion(p', b0, n0, b) && p'[b].Closed() ensures b == eb || (b < |p| && p'[b].code == p[b].code) {}
  }

  lemma JumpNone(p: Proc, b0: nat, n0: nat, d: DeferredCmp, eb: nat, r: nat)
    requires NoneForgotten(p, b0, n0, d.sc, d.fin.jmp) && d.fin.jmp.None? && d.sc == [] && eb < |p| && !p[eb].Closed()
    ensures NoneForgotten(EmitCondJmp(p + [EMPTY_BLOCK], eb, r, None, |p|), b0, n0, [], Some(Loc(eb, |p[eb].code|)))
  {
    JumpShape(p, eb, r);
    hide EmitCondJmp;
    var p' := EmitCondJmp(p + [EMPTY_BLOCK], eb, r, None, |p|);
    assert forall j :: IsPending(p, j) ==> !InRegion(p, b0, n0, j.bb);
    assert forall j :: IsPending(p', j) && InRegion(p', b0, n0, j.bb) ==> j == Loc(eb, |p[eb].code|);
  }

  lemma JumpFinal(p: Proc, b0: nat, n0: nat, i0: nat, fin: FinalJmp, eb: nat, r: nat)
    requires FinalOK(p, b0, n0, i0, fin, eb) && fin.jmp.None? && n0 <= |p| && InstrAt(p, fin.cmp).r == r
    requires !p[eb].Closed()
    ensures FinalOK(EmitCondJmp(p + [EMPTY_BLOCK], eb, r, None, |p|), b0, n0, i0,
      fin.(jmp := Some(Loc(eb, |p[eb].code|))), |p|)
  {
    JumpShape(p, eb, r);
    hide EmitCondJmp;
    var p' := EmitCondJmp(p + [EMPTY_BLOCK], eb, r, None, |p|);
    assert InstrAt(p', Loc(eb, |p[eb].code|)) == CondJmp(r, None, |p|);
  }

  lemma {:induction false} JumpDecides(p0: Proc, p: Proc, env: Env, st: State, e: Expr, b0: nat, d: DeferredCmp,
                                       eb: nat, r: nat)
    requires b0 < |p0| && b0 < |p| && eb < |p| && !p[eb].Closed() && Targets(p, b0, |p0|, {})
    requires d.fin.cmp.bb == eb && (eb == b0 || eb >= |p0|) && |p0[b0].code| <= |p[b0].code|
    requires DecidesAt(p, env, st, e, b0, |p0[b0].code|, d)
    ensures DecidesAt(EmitCondJmp(p + [EMPTY_BLOCK], eb, r, None, |p|), env, st, e, b0, |p0[b0].code|,
                      d.(fin := d.fin.(jmp := Some(Loc(eb, |p[eb].code|)))))
  {
    var p' := EmitCondJmp(p + [EMPTY_BLOCK], eb, r, None, |p|);
    var i0 := |p0[b0].code|;
    JumpShape(p, eb, r);
    if eb != b0 {
      assert Targets(p, b0, |p0|, {eb});
      ComposeRuns(p, p', env, b0, |p0|, b0, i0, st, {eb}, {eb});
      RunEnds(p, env, b0, |p0|, b0, i0, st, {eb});
    }
    var o := RunFrom(p, env, b0, i0, st, {eb});
    assert RunFrom(p', env, b0, i0, st, {eb}) == o;
    if o.At? {
      ExecAppend(p[eb].code, CondJmp(r, None, |p|), o.at, env, o.st);
    }
  }

  lemma JumpShape(p: Proc, eb: nat, r: nat)
    requires eb < |p| && !p[eb].Closed()
    ensures var p' := EmitCondJmp(p + [EMPTY_BLOCK], eb, r, None, |p|);
      |p'| == |p| + 1 && p'[|p|].code == [] &&
      p'[eb].code == p[eb].code + [CondJmp(r, None, |p|)] &&
      (forall b :: 0 <= b < |p| && b != eb ==> p'[b].code == p[b].code) &&
      (forall m :: HasInstr(p, m) ==> HasInstr(p', m) && InstrAt(p', m) == InstrAt(p, m)) &&
      (forall m :: IsPending(p', m) <==> IsPending(p, m) || m == Loc(eb, |p[eb].code|))
  {
    var p' := EmitCondJmp(p + [EMPTY_BLOCK], eb, r, None, |p|);
    assert p'[eb].code == p[eb].code + [CondJmp(r, None, |p|)];
  }

  /** What a caller may use about the end block of a lowered tree. */
  lemma LoweredEnd(p0: Proc, p: Proc, e: Expr, b0: nat, d: DeferredCmp, eb: nat)
    requires Lowered(p0, p, e, b0, d, eb)
    ensures b0 < |p0| <= |p| && eb < |p| && !p[eb].Closed() && !p0[b0].Closed()
    ensures d.fin.jmp.Some? ==> |p0| <= eb && eb + 1 == |p| && p[eb].code == []
    ensures d.fin.jmp.None? ==> d.sc == []
  {
  }

  function Negated(d: DeferredCmp): DeferredCmp {
    DeferredCmp(seq(|d.sc|, k requires 0 <= k < |d.sc| => d.sc[k].(result := !d.sc[k].result)),
                d.fin.(result := !d.fin.result))
  }

  /** Logical not emits nothing: it only reverses what the jumps mean. */
  lemma {:induction false} NegateLowered(p0: Proc, p: Proc, e: Expr, b0: nat, d: DeferredCmp, eb: nat)
    requires Lowered(p0, p, e, b0, d, eb)
    ensures Lowered(p0, p, Not(e), b0, Negated(d), eb)
  {
    NegateShape(p0, p, b0, d, eb);
    forall env: Env, st: State
      ensures DecidesAt(p, env, st, Not(e), b0, |p0[b0].code|, Negated(d))
    {
      assert DecidesAt(p, env, st, e, b0, |p0[b0].code|, d);
      NegateDecides(p, env, st, e, b0, |p0[b0].code|, d);
    }
  }

  lemma NegateDecides(p: Proc, env: Env, st: State, e: Expr, b0: nat, i0: nat, d: DeferredCmp)
    requires DecidesAt(p, env, st, e, b0, i0, d)
    ensures DecidesAt(p, env, st, Not(e), b0, i0, Negated(d))
  {
    var o := RunFrom(p, env, b0, i0, st, {d.fin.cmp.bb});
    if o.Exit? {
      var k :| 0 <= k < |d.sc| && d.sc[k].jmp == o.jmp && d.sc[k].result == Eval(e, env);
      assert Negated(d).sc[k].jmp == o.jmp && Negated(d).sc[k].result == Eval(Not(e), env);
    }
  }

  lemma NegateShape(p0: Proc, p: Proc, b0: nat, d: DeferredCmp, eb: nat)
    requires LoweredShape(p0, p, b0, d, eb)
    ensures LoweredShape(p0, p, b0, Negated(d), eb)
  {
    var sc' := Negated(d).sc;
    assert forall k :: 0 <= k < |d.sc| ==> sc'[k].jmp == d.sc[k].jmp;
    forall j | IsPending(p, j) && InRegion(p, b0, |p0|, j.bb) && d.fin.jmp != Some(j)
      ensures exists k :: 0 <= k < |sc'| && sc'[k].jmp == j
    {
      var k :| 0 <= k < |d.sc| && d.sc[k].jmp == j;
      assert sc'[k].jmp == j;
    }
  }

  /** With its final jump in the list, a lowered tree leaves by the list or falls through to eb. */
  lemma {:induction false} SplitRouted(p0: Proc, p: Proc, e: Expr, b0: nat, d: DeferredCmp, eb: nat)
    requires Lowered(p0, p, e, b0, d, eb) && d.fin.jmp.Some?
    ensures Routed(p0, p, e, b0, d.sc + [ScJmp(d.fin.result, d.fin.jmp.value, d.fin.cmp)], map[!d.fin.result := eb])
  {
    SplitShape(p0, p, b0, d, eb);
    var sc, dest := d.sc + [ScJmp(d.fin.result, d.fin.jmp.value, d.fin.cmp)], map[!d.fin.result := eb];
    forall env: Env, st: State
      ensures RoutesAt(p, env, st, e, b0, |p0[b0].code|, sc, dest)
    {
      assert DecidesAt(p, env, st, e, b0, |p0[b0].code|, d);
      SplitRoutesAt(p0, p, env, st, e, b0, d, eb);
    }
  }

  lemma SplitShape(p0: Proc, p: Proc, b0: nat, d: DeferredCmp, eb: nat)
    requires LoweredShape(p0, p, b0, d, eb) && d.fin.jmp.Some?
    ensures RoutedShape(p0, p, b0, d.sc + [ScJmp(d.fin.result, d.fin.jmp.value, d.fin.cmp)], map[!d.fin.result := eb])
  {
    var sc := d.sc + [ScJmp(d.fin.result, d.fin.jmp.value, d.fin.cmp)];
    assert sc[|d.sc|].jmp == d.fin.jmp.value;
    assert forall k :: 0 <= k < |d.sc| ==> sc[k] == d.sc[k];
    SplitNone(p, b0, |p0|, d, sc);
    hide NoneForgotten, EnteredOnlyFrom;
    assert Dests(map[!d.fin.result := eb]) == {eb};
  }

  lemma SplitNone(p: Proc, b0: nat, n0: nat, d: DeferredCmp, sc: seq<ScJmp>)
    requires NoneForgotten(p, b0, n0, d.sc, d.fin.jmp) && d.fin.jmp.Some? && |sc| == |d.sc| + 1
    requires sc[|d.sc|].jmp == d.fin.jmp.value && forall k :: 0 <= k < |d.sc| ==> sc[k] == d.sc[k]
    ensures NoneForgotten(p, b0, n0, sc, None)
  {
    forall j | IsPending(p, j) && InRegion(p, b0, n0, j.bb)
      ensures exists k :: 0 <= k < |sc| && sc[k].jmp == j
    {
      if d.fin.jmp == Some(j) {
        assert sc[|d.sc|].jmp == j;
      } else {
        var k :| 0 <= k < |d.sc| && d.sc[k].jmp == j;
        assert sc[k].jmp == j;
      }
    }
  }

  /** The run up to the final compare never passes the end block, so it is the same run when it stops there too. */
  lemma {:induction false} StopAlsoAtEnd(p: Proc, env: Env, b0: nat, n0: nat, b: nat, i: nat, st: State, D: nat,
                                         eb: nat)
    requires InRegion(p, b0, n0, b) && b != D && b0 < n0
    requires Targets(p, b0, n0, {}) && EnteredOnlyFrom(p, b0, n0, eb, D) && D < |p| && D < eb
    ensures Run(p, env, b, i, st, {eb}) ==
      match Run(p, env, b, i, st, {D})
      case At(t, k, s) => Run(p, env, t, k, s, {eb})
      case o => o
    decreases |p| - b
  {
    var s := ExecCode(p[b].code, i, env, st).(prev := b);
    if p[b].Closed() {
      var ins := p[b].code[|p[b].code| - 1];
      if ins.a in s.regs {
        if !s.regs[ins.a] {
          if ins.falseBB != D { StopAlsoAtEnd(p, env, b0, n0, ins.falseBB, 0, s, D, eb); }
        } else if ins.trueBB.Some? && ins.trueBB.value != D {
          StopAlsoAtEnd(p, env, b0, n0, ins.trueBB.value, 0, s, D, eb);
        }
      }
    }
  }

  /** At the final compare and jump: taken exactly when the compare holds. */
  lemma {:induction false} FinalStep(p: Proc, env: Env, b0: nat, n0: nat, i0: nat, fin: FinalJmp, eb: nat, i: nat,
                                     st: State)
    requires FinalOK(p, b0, n0, i0, fin, eb) && fin.jmp.Some? && i <= fin.cmp.at
    ensures var c := InstrAt(p, fin.cmp);
      var s := ExecCode(p[fin.cmp.bb].code, i, env, st).(prev := fin.cmp.bb);
      Run(p, env, fin.cmp.bb, i, st, {eb}) ==
        if CmpValue(c.cond, c.id, c.zero, env) then Exit(fin.jmp.value, s) else At(eb, 0, s)
  {
    var D := fin.cmp.bb;
    var code := p[D].code;
    var k := fin.cmp.at;
    assert code == code[..k] + [code[k]] + [code[k + 1]];
    ExecAppend(code[..k], code[k], i, env, st);
    ExecAppend(code[..k] + [code[k]], code[k + 1], i, env, st);
  }

  lemma {:induction false} SplitRoutesAt(p0: Proc, p: Proc, env: Env, st: State, e: Expr, b0: nat, d: DeferredCmp,
                                         eb: nat)
    requires LoweredShape(p0, p, b0, d, eb) && d.fin.jmp.Some?
    requires DecidesAt(p, env, st, e, b0, |p0[b0].code|, d)
    ensures RoutesAt(p, env, st, e, b0, |p0[b0].code|, d.sc + [ScJmp(d.fin.result, d.fin.jmp.value, d.fin.cmp)],
                     map[!d.fin.result := eb])
  {
    var sc := d.sc + [ScJmp(d.fin.result, d.fin.jmp.value, d.fin.cmp)];
    var D, i0 := d.fin.cmp.bb, |p0[b0].code|;
    var o := RunFrom(p, env, b0, i0, st, {D});
    SplitRun(p0, p, env, st, b0, d, eb);
    hide Run, RunFrom, LoweredShape, CmpValue;
    assert Dests(map[!d.fin.result := eb]) == {eb};
    if o.At? {
      FinalStep(p, env, b0, |p0|, i0, d.fin, eb, o.at, o.st);
      assert sc[|d.sc|].jmp == d.fin.jmp.value;
    } else {
      var k :| 0 <= k < |d.sc| && d.sc[k].jmp == o.jmp && d.sc[k].result == Eval(e, env);
      assert sc[k].jmp == o.jmp && sc[k].result == Eval(e, env);
    }
  }

  /** The run that stops at the end block goes on from where the one that stops at the final compare does. */
  lemma {:induction false} SplitRun(p0: Proc, p: Proc, env: Env, st: State, b0: nat, d: DeferredCmp, eb: nat)
    requires LoweredShape(p0, p, b0, d, eb) && d.fin.jmp.Some?
    ensures var o := RunFrom(p, env, b0, |p0[b0].code|, st, {d.fin.cmp.bb});
      Run(p, env, b0, |p0[b0].code|, st, {eb}) == (if o.At? then Run(p, env, o.bb, o.at, o.st, {eb}) else o) &&
      (o.Exit? ==> o.st.prev == o.jmp.bb)
    ensures FinalOK(p, b0, |p0|, |p0[b0].code|, d.fin, eb) && d.fin.cmp.bb < |p|
  {
    var D, i0 := d.fin.cmp.bb, |p0[b0].code|;
    if D != b0 {
      StopAlsoAtEnd(p, env, b0, |p0|, b0, i0, st, D, eb);
      assert Targets(p, b0, |p0|, {D});
      RunEnds(p, env, b0, |p0|, b0, i0, st, {D});
    }
  }

  /** The list without its k-th jump. */
  function Without(sc: seq<ScJmp>, k: nat): seq<ScJmp>
    requires k < |sc|
  {
    sc[..k] + sc[k + 1..]
  }

  lemma PatchShape(p: Proc, j: Loc, to: nat)
    requires IsPending(p, j) && to < |p|
    ensures var p' := PatchJmp(p, j, to);
      |p'| == |p| &&
      (forall b :: 0 <= b < |p| ==> SameCode(p[b].code, p'[b].code) && (p'[b].Closed() <==> p[b].Closed())) &&
      (forall b :: 0 <= b < |p| && b != j.bb ==> p'[b].code == p[b].code) &&
      (forall m :: HasInstr(p', m) <==> HasInstr(p, m)) &&
      (forall m :: HasInstr(p, m) ==>
        InstrAt(p', m) == if m == j then InstrAt(p, m).(trueBB := Some(to)) else InstrAt(p, m)) &&
      (forall m :: IsPending(p', m) <==> IsPending(p, m) && m != j)
  {
    var p1 := SetInstr(p, j, InstrAt(p, j).(trueBB := Some(to)));
    var p' := PatchJmp(p, j, to);
    assert forall b :: 0 <= b < |p| ==> p'[b].code == p1[b].code;
  }

  /** Patching a listed jump to the block its result goes to, and dropping it from the list. */
  lemma {:induction false} PatchRouted(p0: Proc, p: Proc, e: Expr, b0: nat, sc: seq<ScJmp>, dest: map<bool, nat>,
                                       k: nat)
    requires Routed(p0, p, e, b0, sc, dest) && k < |sc| && sc[k].result in dest && dest[sc[k].result] < |p|
    requires !p0[b0].Closed()
    ensures Routed(p0, PatchJmp(p, sc[k].jmp, dest[sc[k].result]), e, b0, Without(sc, k), dest)
  {
    PatchRoutedShape(p0, p, b0, sc, dest, k);
    forall env: Env, st: State
      ensures RoutesAt(PatchJmp(p, sc[k].jmp, dest[sc[k].result]), env, st, e, b0, |p0[b0].code|, Without(sc, k), dest)
    {
      assert RoutesAt(p, env, st, e, b0, |p0[b0].code|, sc, dest);
      PatchRoutesAt(p0, p, env, st, e, b0, sc, dest, k);
    }
  }

  lemma PatchRoutedShape(p0: Proc, p: Proc, b0: nat, sc: seq<ScJmp>, dest: map<bool, nat>, k: nat)
    requires RoutedShape(p0, p, b0, sc, dest) && k < |sc| && sc[k].result in dest && dest[sc[k].result] < |p|
    requires !p0[b0].Closed()
    ensures RoutedShape(p0, PatchJmp(p, sc[k].jmp, dest[sc[k].result]), b0, Without(sc, k), dest)
  {
    PatchKeepsList(p0, p, b0, sc, k, dest[sc[k].result]);
    PatchKeepsFrame(p0, p, b0, sc[k].jmp, dest[sc[k].result]);
    PatchKeepsTargets(p, b0, |p0|, Dests(dest), sc[k].jmp, dest[sc[k].result]);
    PatchKeepsFalse(p, sc, k, dest[sc[k].result], dest);
  }

  lemma PatchKeepsFalse(p: Proc, sc: seq<ScJmp>, k: nat, to: nat, dest: map<bool, nat>)
    requires forall i :: 0 <= i < |sc| ==>
      IsPending(p, sc[i].jmp) && (sc[i].result in dest ==> InstrAt(p, sc[i].jmp).falseBB != dest[sc[i].result])
    requires k < |sc| && to < |p|
    ensures IsPending(p, sc[k].jmp)
    ensures var p', sc' := PatchJmp(p, sc[k].jmp, to), Without(sc, k);
      forall i :: 0 <= i < |sc'| && sc'[i].result in dest ==>
        HasInstr(p', sc'[i].jmp) && InstrAt(p', sc'[i].jmp).CondJmp? &&
          InstrAt(p', sc'[i].jmp).falseBB != dest[sc'[i].result]
  {
    PatchShape(p, sc[k].jmp, to);
    var sc' := Without(sc, k);
    forall i | 0 <= i < |sc'| ensures sc'[i] == sc[if i < k then i else i + 1] {}
  }

  lemma {:induction false} PatchRoutesAt(p0: Proc, p: Proc, env: Env, st: State, e: Expr, b0: nat, sc: seq<ScJmp>,
                                         dest: map<bool, nat>, k: nat)
    requires b0 < |p0| && b0 < |p| && Targets(p, b0, |p0|, Dests(dest)) && ListOK(p, b0, |p0|, sc)
    requires k < |sc| && sc[k].result in dest && dest[sc[k].result] < |p|
    requires RoutesAt(p, env, st, e, b0, |p0[b0].code|, sc, dest)
    ensures RoutesAt(PatchJmp(p, sc[k].jmp, dest[sc[k].result]), env, st, e, b0, |p0[b0].code|, Without(sc, k), dest)
  {
    var j, to := sc[k].jmp, dest[sc[k].result];
    var p' := PatchJmp(p, j, to);
    PatchShape(p, j, to);
    ComposeRuns(p, p', env, b0, |p0|, b0, |p0[b0].code|, st, Dests(dest), Dests(dest));
    RunEnds(p, env, b0, |p0|, b0, |p0[b0].code|, st, Dests(dest));
    var o := Run(p, env, b0, |p0[b0].code|, st, Dests(dest));
    hide Run, PatchJmp, Targets;
    if o.Exit? && o.jmp != j {
      InWithout(sc, k, o.jmp, Eval(e, env));
    }
  }

  lemma {:induction false} PatchKeepsList(p0: Proc, p: Proc, b0: nat, sc: seq<ScJmp>, k: nat, to: nat)
    requires ListOK(p, b0, |p0|, sc) && NoneForgotten(p, b0, |p0|, sc, None) && k < |sc| && to < |p|
    ensures var p' := PatchJmp(p, sc[k].jmp, to);
      ListOK(p', b0, |p0|, Without(sc, k)) && NoneForgotten(p', b0, |p0|, Without(sc, k), None)
  {
    var sc' := Without(sc, k);
    var p' := PatchJmp(p, sc[k].jmp, to);
    PatchShape(p, sc[k].jmp, to);
    assert forall i :: 0 <= i < |sc'| ==> sc'[i] == sc[if i < k then i else i + 1];
    hide PatchJmp;
    forall m | IsPending(p', m) && InRegion(p', b0, |p0|, m.bb)
      ensures exists i :: 0 <= i < |sc'| && sc'[i].jmp == m
    {
      var i :| 0 <= i < |sc| && sc[i].jmp == m;
      InWithout(sc, k, m, sc[i].result);
    }
  }

  lemma PatchKeepsFrame(p0: Proc, p: Proc, b0: nat, j: Loc, to: nat)
    requires Frame(p0, p, b0) && !p0[b0].Closed() && IsPending(p, j) && to < |p| && InRegion(p, b0, |p0|, j.bb)
    ensures Frame(p0, PatchJmp(p, j, to), b0)
  {
    PatchShape(p, j, to);
  }

  lemma PatchKeepsTargets(p: Proc, b0: nat, n0: nat, stops: set<nat>, j: Loc, to: nat)
    requires Targets(p, b0, n0, stops) && IsPending(p, j) && to < |p| && to in stops
    ensures Targets(PatchJmp(p, j, to), b0, n0, stops)
  {
    PatchShape(p, j, to);
    var p' := PatchJmp(p, j, to);
    forall b: nat | InRegion(p', b0, n0, b) && (b == b0 || b !in stops) && p'[b].Closed()
      ensures var ins := p'[b].code[|p'[b].code| - 1];
        ins.CondJmp? && GoesForward(p', n0, b, ins.falseBB, stops) &&
        (ins.trueBB.Some? ==> GoesForward(p', n0, b, ins.trueBB.value, stops))
    {
      assert p[b].Closed();
      assert InstrAt(p', Loc(b, |p[b].code| - 1)) == p'[b].code[|p'[b].code| - 1];
    }
  }

  lemma InWithout(sc: seq<ScJmp>, k: nat, j: Loc, result: bool)
    requires k < |sc| && InList(sc, j, result) && sc[k].jmp != j
    ensures InList(Without(sc, k), j, result)
  {
    var i :| 0 <= i < |sc| && sc[i].jmp == j && sc[i].result == result;
    var i' := if i < k then i else i - 1;
    assert Without(sc, k)[i'] == sc[i];
  }

  /** No jump of the region goes to the block. */
  ghost predicate NotEntered(p: Proc, b0: nat, n0: nat, stops: set<nat>, t: nat) {
    forall b: nat :: InRegion(p, b0, n0, b) && (b == b0 || b !in stops) && p[b].Closed() ==>
      var ins := p[b].code[|p[b].code| - 1];
      ins.CondJmp? && ins.falseBB != t && ins.trueBB != Some(t)
  }

  /** A block that no jump goes to may be a stop as well. */
  lemma {:induction false} IgnoreStop(p: Proc, env: Env, b0: nat, n0: nat, b: nat, i: nat, st: State, stop: set<nat>,
                                      t: nat)
    requires InRegion(p, b0, n0, b) && b0 < n0 && (b == b0 || b !in stop)
    requires Targets(p, b0, n0, stop) && NotEntered(p, b0, n0, stop, t)
    ensures Run(p, env, b, i, st, stop + {t}) == Run(p, env, b, i, st, stop)
    decreases |p| - b
  {
    var s := ExecCode(p[b].code, i, env, st).(prev := b);
    if p[b].Closed() {
      var ins := p[b].code[|p[b].code| - 1];
      if ins.a in s.regs {
        if !s.regs[ins.a] {
          if ins.falseBB !in stop { IgnoreStop(p, env, b0, n0, ins.falseBB, 0, s, stop, t); }
        } else if ins.trueBB.Some? && ins.trueBB.value !in stop {
          IgnoreStop(p, env, b0, n0, ins.trueBB.value, 0, s, stop, t);
        }
      }
    }
  }

  /** A further destination, which no jump goes to yet. */
  lemma {:induction false} AddDestination(p0: Proc, p: Proc, e: Expr, b0: nat, sc: seq<ScJmp>, dest: map<bool, nat>,
                                          v: bool, to: nat)
    requires Routed(p0, p, e, b0, sc, dest) && v !in dest && to !in Dests(dest)
    requires NotEntered(p, b0, |p0|, Dests(dest), to)
    requires forall k :: 0 <= k < |sc| ==> sc[k].jmp.bb == b0 || sc[k].jmp.bb !in Dests(dest)
    ensures Routed(p0, p, e, b0, sc, dest[v := to])
  {
    var dest' := dest[v := to];
    assert Dests(dest') == Dests(dest) + {to};
    forall env: Env, st: State
      ensures RoutesAt(p, env, st, e, b0, |p0[b0].code|, sc, dest')
    {
      assert RoutesAt(p, env, st, e, b0, |p0[b0].code|, sc, dest);
      IgnoreStop(p, env, b0, |p0|, b0, |p0[b0].code|, st, Dests(dest), to);
    }
    forall k | 0 <= k < |sc| && sc[k].result in dest'
      ensures InstrAt(p, sc[k].jmp).falseBB != dest'[sc[k].result]
    {
      assert p[sc[k].jmp.bb].Closed();
    }
  }

  /** A new block that nothing goes to changes nothing. */
  lemma {:induction false} AllocRouted(p0: Proc, p: Proc, e: Expr, b0: nat, sc: seq<ScJmp>, dest: map<bool, nat>)
    requires Routed(p0, p, e, b0, sc, dest) && forall t :: t in Dests(dest) ==> t < |p|
    ensures Routed(p0, p + [EMPTY_BLOCK], e, b0, sc, dest)
    ensures NotEntered(p + [EMPTY_BLOCK], b0, |p0|, Dests(dest), |p|)
  {
    var p' := p + [EMPTY_BLOCK];
    AllocShape(p0, p, b0, sc, dest);
    forall env: Env, st: State
      ensures RoutesAt(p', env, st, e, b0, |p0[b0].code|, sc, dest)
    {
      assert RoutesAt(p, env, st, e, b0, |p0[b0].code|, sc, dest);
      AllocRuns(p, env, b0, |p0|, |p0[b0].code|, st, Dests(dest));
    }
  }

  lemma AllocShape(p0: Proc, p: Proc, b0: nat, sc: seq<ScJmp>, dest: map<bool, nat>)
    requires RoutedShape(p0, p, b0, sc, dest) && forall t :: t in Dests(dest) ==> t < |p|
    ensures RoutedShape(p0, p + [EMPTY_BLOCK], b0, sc, dest)
    ensures NotEntered(p + [EMPTY_BLOCK], b0, |p0|, Dests(dest), |p|)
  {
    var p' := p + [EMPTY_BLOCK];
    AllocTargets(p, b0, |p0|, Dests(dest));
    assert forall m :: IsPending(p', m) <==> IsPending(p, m);
    assert forall m :: HasInstr(p, m) ==> HasInstr(p', m) && InstrAt(p', m) == InstrAt(p, m);
    hide Targets, NotEntered, IsPending, InstrAt;
  }

  lemma AllocTargets(p: Proc, b0: nat, n0: nat, stops: set<nat>)
    requires Targets(p, b0, n0, stops) && n0 <= |p| && forall t :: t in stops ==> t < |p|
    ensures Targets(p + [EMPTY_BLOCK], b0, n0, stops) && NotEntered(p + [EMPTY_BLOCK], b0, n0, stops, |p|)
  {
    var p' := p + [EMPTY_BLOCK];
    assert forall b :: 0 <= b < |p| ==> p'[b] == p[b];
    assert !p'[|p|].Closed();
  }

  lemma AllocRuns(p: Proc, env: Env, b0: nat, n0: nat, i0: nat, st: State, stop: set<nat>)
    requires b0 < |p| && b0 < n0 && Targets(p, b0, n0, stop)
    ensures match Run(p, env, b0, i0, st, stop)
      case At(t, k, s) => Run(p + [EMPTY_BLOCK], env, b0, i0, st, stop) == At(t, k, s)
      case Exit(j, s) => Run(p + [EMPTY_BLOCK], env, b0, i0, st, stop) == Exit(j, s)
      case _ => true
  {
    var p' := p + [EMPTY_BLOCK];
    ComposeRuns(p, p', env, b0, n0, b0, i0, st, stop, stop);
    RunEnds(p, env, b0, n0, b0, i0, st, stop);
    var o := Run(p, env, b0, i0, st, stop);
    if o.Exit? {
      assert InstrAt(p', o.jmp) == InstrAt(p, o.jmp);
    }
  }

  /** Code appended to the destination blocks does not matter to how they are reached. */
  lemma {:induction false} StopCodeRouted(p0: Proc, p: Proc, p': Proc, e: Expr, b0: nat, sc: seq<ScJmp>,
                                          dest: map<bool, nat>)
    requires Routed(p0, p, e, b0, sc, dest) && SameOutside(p, p', |p0|, Dests(dest))
    ensures Routed(p0, p', e, b0, sc, dest)
  {
    StopCodeShape(p0, p, p', b0, sc, dest);
    forall env: Env, st: State
      ensures RoutesAt(p', env, st, e, b0, |p0[b0].code|, sc, dest)
    {
      assert RoutesAt(p, env, st, e, b0, |p0[b0].code|, sc, dest);
      StopCodeRuns(p, p', env, b0, |p0|, |p0[b0].code|, st, Dests(dest));
    }
  }

  /** The same blocks but for code without waiting jumps at the end of the new blocks in stops. */
  ghost predicate SameOutside(p: Proc, p': Proc, n0: nat, stops: set<nat>) {
    |p'| == |p| &&
    (forall t :: t in stops ==> n0 <= t < |p|) &&
    (forall b :: 0 <= b < |p| && b !in stops ==> p'[b].code == p[b].code) &&
    (forall m: Loc :: m.bb in stops ==> !IsPending(p', m) && !IsPending(p, m))
  }

  lemma StopCodeShape(p0: Proc, p: Proc, p': Proc, b0: nat, sc: seq<ScJmp>, dest: map<bool, nat>)
    requires RoutedShape(p0, p, b0, sc, dest) && SameOutside(p, p', |p0|, Dests(dest))
    ensures RoutedShape(p0, p', b0, sc, dest)
  {
    assert forall m :: IsPending(p', m) <==> IsPending(p, m);
    assert forall m :: IsPending(p, m) ==> InstrAt(p', m) == InstrAt(p, m);
  }

  lemma {:induction false} StopCodeRuns(p: Proc, p': Proc, env: Env, b0: nat, n0: nat, i0: nat, st: State,
                                        stop: set<nat>)
    requires b0 < |p| && b0 < n0 && Targets(p, b0, n0, stop) && SameOutside(p, p', n0, stop)
    ensures match Run(p, env, b0, i0, st, stop)
      case At(t, k, s) => Run(p', env, b0, i0, st, stop) == At(t, k, s)
      case Exit(j, s) => Run(p', env, b0, i0, st, stop) == Exit(j, s)
      case _ => true
  {
    ComposeRuns(p, p', env, b0, n0, b0, i0, st, stop, stop);
    RunEnds(p, env, b0, n0, b0, i0, st, stop);
    var o := Run(p, env, b0, i0, st, stop);
    if o.Exit? {
      assert InstrAt(p', o.jmp) == InstrAt(p, o.jmp);
    }
  }

  function Combined(isAnd: bool, l: Expr, r: Expr): Expr { if isAnd then And(l, r) else Or(l, r) }

  /** The right operand is lowered where the left one falls through; the left jumps that remain
      all say the short-circuit value. */
  lemma {:induction false} CombineLowered(p0: Proc, p1: Proc, p2: Proc, isAnd: bool, l: Expr, r: Expr, b0: nat,
                                          sc: seq<ScJmp>, right: nat, d: DeferredCmp, eb: nat)
    requires Routed(p0, p1, l, b0, sc, map[isAnd := right])
    requires !p0[b0].Closed() && |p0| <= right && right + 1 == |p1| && p1[right].code == []
    requires forall k :: 0 <= k < |sc| ==> sc[k].result != isAnd
    requires Lowered(p1, p2, r, right, d, eb)
    requires d.fin.jmp.Some?
    ensures Lowered(p0, p2, Combined(isAnd, l, r), b0, d.(sc := sc + d.sc), eb)
  {
    CombineShape(p0, p1, p2, isAnd, b0, sc, right, d, eb);
    assert Dests(map[isAnd := right]) == {right};
    CombineDecidesAll(p0, p1, p2, isAnd, l, r, b0, sc, right, d);
  }

  lemma CombineDecidesAll(p0: Proc, p1: Proc, p2: Proc, isAnd: bool, l: Expr, r: Expr,
                          b0: nat, sc: seq<ScJmp>, right: nat, d: DeferredCmp)
    requires b0 < |p0| <= right && right + 1 == |p1| && b0 < |p1| && Targets(p1, b0, |p0|, {right}) &&
      p1[right].code == []
    requires Frame(p1, p2, right) && InRegion(p2, right, |p1|, d.fin.cmp.bb)
    requires Routes(p1, l, b0, |p0[b0].code|, sc, map[isAnd := right])
    requires forall k :: 0 <= k < |sc| ==> sc[k].result != isAnd
    requires Decides(p2, r, right, 0, d)
    ensures Decides(p2, Combined(isAnd, l, r), b0, |p0[b0].code|, d.(sc := sc + d.sc))
  {
    var d', e := d.(sc := sc + d.sc), Combined(isAnd, l, r);
    forall env: Env, st: State
      ensures DecidesAt(p2, env, st, e, b0, |p0[b0].code|, d')
    {
      assert RoutesAt(p1, env, st, l, b0, |p0[b0].code|, sc, map[isAnd := right]);
      var i0, D := |p0[b0].code|, d.fin.cmp.bb;
      var o := Run(p1, env, b0, i0, st, {right});
      ThroughRight(p1, p2, env, b0, |p0|, i0, st, right, D);
      assert Dests(map[isAnd := right]) == {right};
      if o.At? {
        assert DecidesAt(p2, env, o.st, r, right, 0, d);
        CombineDecidesRight(p2, env, st, o.st, isAnd, l, r, b0, i0, sc, right, d);
      } else {
        CombineDecidesLeft(p2, env, st, isAnd, l, r, b0, i0, sc, d, o);
      }
    }
  }

  lemma CombineDecidesRight(p2: Proc, env: Env, st: State, s: State, isAnd: bool, l: Expr, r: Expr,
                            b0: nat, i0: nat, sc: seq<ScJmp>, right: nat, d: DeferredCmp)
    requires RunFrom(p2, env, b0, i0, st, {d.fin.cmp.bb}) == RunFrom(p2, env, right, 0, s, {d.fin.cmp.bb})
    requires s.trace == st.trace + Trace(l, env) && Eval(l, env) == isAnd
    requires DecidesAt(p2, env, s, r, right, 0, d)
    ensures DecidesAt(p2, env, st, Combined(isAnd, l, r), b0, i0, d.(sc := sc + d.sc))
  {
    hide Run, RunFrom, ExecCode, CmpValue;
    var o2 := RunFrom(p2, env, right, 0, s, {d.fin.cmp.bb});
    var e := Combined(isAnd, l, r);
    CombineTrace(env, st.trace, s.trace, isAnd, l, r);
    hide Trace, Eval, Combined, InList;
    if o2.Exit? {
      InListRight(sc, d.sc, o2.jmp, Eval(e, env));
    }
  }

  lemma CombineTrace(env: Env, t: seq<nat>, u: seq<nat>, isAnd: bool, l: Expr, r: Expr)
    requires Eval(l, env) == isAnd && u == t + Trace(l, env)
    ensures var e := Combined(isAnd, l, r); t + Trace(e, env) == u + Trace(r, env) && (Eval(e, env) <==> Eval(r, env))
  {
  }

  lemma CombineDecidesLeft(p2: Proc, env: Env, st: State, isAnd: bool, l: Expr, r: Expr,
                           b0: nat, i0: nat, sc: seq<ScJmp>, d: DeferredCmp, o: Outcome)
    requires RunFrom(p2, env, b0, i0, st, {d.fin.cmp.bb}) == o
    requires o.Exit? && o.st.trace == st.trace + Trace(l, env) && InList(sc, o.jmp, Eval(l, env))
    requires forall k :: 0 <= k < |sc| ==> sc[k].result != isAnd
    ensures DecidesAt(p2, env, st, Combined(isAnd, l, r), b0, i0, d.(sc := sc + d.sc))
  {
    var e := Combined(isAnd, l, r);
    assert st.trace + Trace(e, env) == st.trace + Trace(l, env);
    InListLeft(sc, d.sc, o.jmp, Eval(e, env));
  }

  /** Blocks below the right operand's are not touched by lowering it, so runs of them carry over. */
  lemma {:induction false} ThroughRight(p1: Proc, p2: Proc, env: Env, b0: nat, n0: nat, i0: nat, st: State,
                                        right: nat, D: nat)
    requires b0 < n0 <= right && right + 1 == |p1| && b0 < |p1| && Targets(p1, b0, n0, {right}) && p1[right].code == []
    requires Frame(p1, p2, right) && InRegion(p2, right, |p1|, D)
    ensures RunFrom(p2, env, b0, i0, st, {D}) ==
      match Run(p1, env, b0, i0, st, {right})
      case At(t, _, s) => RunFrom(p2, env, right, 0, s, {D})
      case o => o
  {
    ComposeRuns(p1, p2, env, b0, n0, b0, i0, st, {right}, {D});
    RunEnds(p1, env, b0, n0, b0, i0, st, {right});
    var o := Run(p1, env, b0, i0, st, {right});
    if o.Exit? {
      assert InstrAt(p2, o.jmp) == InstrAt(p1, o.jmp);
    }
  }

  lemma InListRight(s: seq<ScJmp>, t: seq<ScJmp>, j: Loc, result: bool)
    requires InList(t, j, result)
    ensures InList(s + t, j, result)
  {
    var k :| 0 <= k < |t| && t[k].jmp == j && t[k].result == result;
    assert (s + t)[|s| + k] == t[k];
  }

  lemma InListLeft(s: seq<ScJmp>, t: seq<ScJmp>, j: Loc, result: bool)
    requires InList(s, j, result)
    ensures InList(s + t, j, result)
  {
    var k :| 0 <= k < |s| && s[k].jmp == j && s[k].result == result;
    assert (s + t)[k] == s[k];
  }

  lemma CombineShape(p0: Proc, p1: Proc, p2: Proc, isAnd: bool, b0: nat,
                     sc: seq<ScJmp>, right: nat, d: DeferredCmp, eb: nat)
    requires RoutedShape(p0, p1, b0, sc, map[isAnd := right])
    requires !p0[b0].Closed() && |p0| <= right && right + 1 == |p1| && p1[right].code == []
    requires LoweredShape(p1, p2, right, d, eb)
    requires d.fin.jmp.Some?
    ensures LoweredShape(p0, p2, b0, d.(sc := sc + d.sc), eb)
  {
    assert Dests(map[isAnd := right]) == {right};
    CombineTargets(p1, p2, b0, |p0|, right, eb, d.fin.cmp.bb);
    CombineLists(p1, p2, b0, |p0|, right, sc, d.sc, d.fin.jmp);
  }

  lemma CombineTargets(p1: Proc, p2: Proc, b0: nat, n0: nat, right: nat, eb: nat, D: nat)
    requires b0 < n0 <= right && right + 1 == |p1| && p1[right].code == []
    requires Frame(p1, p2, right) && Targets(p1, b0, n0, {right}) && Targets(p2, right, |p1|, {})
    requires |p1| <= eb && EnteredOnlyFrom(p2, right, |p1|, eb, D)
    ensures Targets(p2, b0, n0, {}) && EnteredOnlyFrom(p2, b0, n0, eb, D)
  {
    forall b: nat | InRegion(p2, b0, n0, b) && p2[b].Closed()
      ensures var ins := p2[b].code[|p2[b].code| - 1];
        ins.CondJmp? && GoesForward(p2, n0, b, ins.falseBB, {}) &&
        (ins.trueBB.Some? ==> GoesForward(p2, n0, b, ins.trueBB.value, {})) &&
        (b != D ==> ins.falseBB != eb && ins.trueBB != Some(eb))
    {
      if InRegion(p2, right, |p1|, b) {
      } else {
        assert InRegion(p1, b0, n0, b) && p1[b].code == p2[b].code;
        assert p1[b].Closed();
      }
    }
  }

  lemma CombineLists(p1: Proc, p2: Proc, b0: nat, n0: nat, right: nat, sl: seq<ScJmp>, sr: seq<ScJmp>, fin: Option<Loc>)
    requires b0 < n0 <= right && right + 1 == |p1| && p1[right].code == []
    requires Frame(p1, p2, right)
    requires ListOK(p1, b0, n0, sl) && NoneForgotten(p1, b0, n0, sl, None)
    requires ListOK(p2, right, |p1|, sr) && NoneForgotten(p2, right, |p1|, sr, fin)
    requires fin.Some? ==> InRegion(p2, right, |p1|, fin.value.bb) && forall k :: 0 <= k < |sr| ==>
      sr[k].jmp != fin.value
    ensures ListOK(p2, b0, n0, sl + sr) && NoneForgotten(p2, b0, n0, sl + sr, fin)
    ensures fin.Some? ==> forall k :: 0 <= k < |sl + sr| ==> (sl + sr)[k].jmp != fin.value
  {
    var sc' := sl + sr;
    forall k | 0 <= k < |sl|
      ensures sc'[k] == sl[k] && IsPending(p2, sl[k].jmp) && sl[k].jmp.bb < right
    {
      assert IsPending(p1, sl[k].jmp);
    }
    assert forall k :: |sl| <= k < |sc'| ==> sc'[k] == sr[k - |sl|] && right <= sc'[k].jmp.bb;
    CombineNone(p1, p2, b0, n0, right, sl, sr, fin);
    hide NoneForgotten, Frame;
  }

  lemma CombineNone(p1: Proc, p2: Proc, b0: nat, n0: nat, right: nat, sl: seq<ScJmp>, sr: seq<ScJmp>, fin: Option<Loc>)
    requires b0 < n0 <= right && right + 1 == |p1| && Frame(p1, p2, right)
    requires NoneForgotten(p1, b0, n0, sl, None) && NoneForgotten(p2, right, |p1|, sr, fin)
    ensures NoneForgotten(p2, b0, n0, sl + sr, fin)
  {
    var sc' := sl + sr;
    forall j | IsPending(p2, j) && InRegion(p2, b0, n0, j.bb) && fin != Some(j)
      ensures exists k :: 0 <= k < |sc'| && sc'[k].jmp == j
    {
      if InRegion(p2, right, |p1|, j.bb) {
        var k :| 0 <= k < |sr| && sr[k].jmp == j;
        assert sc'[|sl| + k].jmp == j;
      } else {
        assert IsPending(p1, j);
        var k :| 0 <= k < |sl| && sl[k].jmp == j;
        assert sc'[k].jmp == j;
      }
    }
  }
}
