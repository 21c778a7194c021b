/** Each builder operation keeps the two graph invariants: predecessor lists are the inverse of the
    jump targets, and a compare feeds one jump. */
module ShortCircuitGraph {
  import opened Basics
  import opened ShortCircuitIR

  ghost predicate WellFormed(p: Proc, nextReg: nat) {
    PredsInverse(p) && ComparesFeedOneJump(p, nextReg)
  }

  lemma AllocKeeps(p: Proc, nextReg: nat)
    requires WellFormed(p, nextReg)
    ensures WellFormed(p + [EMPTY_BLOCK], nextReg)
  {
    var p' := p + [EMPTY_BLOCK];
    assert forall b: nat, t: nat :: b < |p| ==> (Edge(p', b, t) <==> Edge(p, b, t));
    assert forall l :: HasInstr(p', l) ==> HasInstr(p, l) && InstrAt(p', l) == InstrAt(p, l);
  }

  /** Straight-line code; a register it writes is the next one. */
  lemma AddKeeps(p: Proc, nextReg: nat, b: nat, ins: Instr)
    requires WellFormed(p, nextReg) && b < |p| && !p[b].Closed()
    requires !ins.IsTerminator() && (ins.IntCmp? ==> ins.r == nextReg)
    ensures WellFormed(AddInstr(p, b, ins), nextReg + 1)
  {
    AddKeepsPreds(p, b, ins);
    AddKeepsRegs(p, nextReg, b, ins);
  }

  lemma AddKeepsPreds(p: Proc, b: nat, ins: Instr)
    requires PredsInverse(p) && b < |p| && !p[b].Closed() && !ins.IsTerminator()
    ensures PredsInverse(AddInstr(p, b, ins))
  {
    var p' := AddInstr(p, b, ins);
    assert forall c: nat, t: nat :: c < |p| ==> (Edge(p', c, t) <==> Edge(p, c, t));
  }

  lemma AddKeepsRegs(p: Proc, nextReg: nat, b: nat, ins: Instr)
    requires ComparesFeedOneJump(p, nextReg) && b < |p| && !p[b].Closed()
    requires !ins.IsTerminator() && (ins.IntCmp? ==> ins.r == nextReg)
    ensures ComparesFeedOneJump(AddInstr(p, b, ins), nextReg + 1)
  {
    var p' := AddInstr(p, b, ins);
    var last := Loc(b, |p[b].code|);
    assert forall l :: HasInstr(p', l) <==> HasInstr(p, l) || l == last;
    assert forall l :: HasInstr(p, l) ==> InstrAt(p', l) == InstrAt(p, l);
    assert InstrAt(p', last) == ins;
  }

  lemma SetCondKeeps(p: Proc, nextReg: nat, l: Loc, c: ConditionKind)
    requires WellFormed(p, nextReg) && HasInstr(p, l) && InstrAt(p, l).IntCmp?
    ensures WellFormed(SetCond(p, l, c), nextReg)
  {
    SetCondKeepsPreds(p, l, c);
    SetCondKeepsRegs(p, nextReg, l, c);
  }

  lemma SetCondKeepsPreds(p: Proc, l: Loc, c: ConditionKind)
    requires PredsInverse(p) && HasInstr(p, l) && InstrAt(p, l).IntCmp?
    ensures PredsInverse(SetCond(p, l, c))
  {
    var p' := SetCond(p, l, c);
    forall b: nat, t: nat | b < |p| ensures Edge(p', b, t) <==> Edge(p, b, t) {
      if b == l.bb { assert p'[b].code == p[b].code[l.at := InstrAt(p, l).(cond := c)]; }
    }
  }

  lemma SetCondKeepsRegs(p: Proc, nextReg: nat, l: Loc, c: ConditionKind)
    requires ComparesFeedOneJump(p, nextReg) && HasInstr(p, l) && InstrAt(p, l).IntCmp?
    ensures ComparesFeedOneJump(SetCond(p, l, c), nextReg)
  {
    var p' := SetCond(p, l, c);
    assert forall m :: HasInstr(p', m) <==> HasInstr(p, m);
    assert forall m :: HasInstr(p, m) ==> SameRegs(InstrAt(p, m), InstrAt(p', m));
    RegsKept(p, p', nextReg);
  }

  /** The instructions are of one kind, and work on the same registers. */
  predicate SameRegs(i: Instr, j: Instr) {
    i.CondJmp? == j.CondJmp? && i.IntCmp? == j.IntCmp? && (i.CondJmp? ==> i.a == j.a) && (i.IntCmp? ==> i.r == j.r)
  }

  lemma RegsKept(p: Proc, p': Proc, nextReg: nat)
    requires ComparesFeedOneJump(p, nextReg)
    requires forall m :: HasInstr(p', m) <==> HasInstr(p, m)
    requires forall m :: HasInstr(p, m) ==> SameRegs(InstrAt(p, m), InstrAt(p', m))
    ensures ComparesFeedOneJump(p', nextReg)
  {
    hide InstrAt;
  }

  lemma ConnectPreds(p: Proc, p1: Proc, from: nat, to: nat)
    requires PredsInverse(p) && to < |p| && from < |p| && |p1| == |p|
    requires forall b :: 0 <= b < |p| ==> p1[b].preds == p[b].preds
    requires forall b: nat, t: nat :: b < |p| ==> (Edge(p1, b, t) <==> Edge(p, b, t) || (b == from && t == to))
    requires !Edge(p, from, to)
    ensures PredsInverse(Connect(p1, from, to))
  {
    var p' := Connect(p1, from, to);
    assert forall b: nat, t: nat :: b < |p| ==> (Edge(p', b, t) <==> Edge(p1, b, t));
    assert forall t: nat :: t < |p| && t != to ==> p'[t].preds == p[t].preds;
    assert p'[to].preds == p[to].preds + [from];
  }

  lemma PatchKeeps(p: Proc, nextReg: nat, l: Loc, to: nat)
    requires WellFormed(p, nextReg) && IsPending(p, l) && to < |p| && InstrAt(p, l).falseBB != to
    ensures WellFormed(PatchJmp(p, l, to), nextReg)
  {
    PatchKeepsPreds(p, l, to);
    PatchKeepsRegs(p, nextReg, l, to);
  }

  lemma PatchKeepsPreds(p: Proc, l: Loc, to: nat)
    requires PredsInverse(p) && IsPending(p, l) && to < |p| && InstrAt(p, l).falseBB != to
    ensures PredsInverse(PatchJmp(p, l, to))
  {
    var ins := InstrAt(p, l).(trueBB := Some(to));
    var p1 := SetInstr(p, l, ins);
    forall b: nat, t: nat | b < |p|
      ensures Edge(p1, b, t) <==> Edge(p, b, t) || (b == l.bb && t == to)
    {
      if b == l.bb {
        assert p1[b].code[|p1[b].code| - 1] == ins;
      }
    }
    assert !Edge(p, l.bb, to);
    ConnectPreds(p, p1, l.bb, to);
  }

  lemma PatchKeepsRegs(p: Proc, nextReg: nat, l: Loc, to: nat)
    requires ComparesFeedOneJump(p, nextReg) && IsPending(p, l) && to < |p|
    ensures ComparesFeedOneJump(PatchJmp(p, l, to), nextReg)
  {
    var p', ins := PatchJmp(p, l, to), InstrAt(p, l).(trueBB := Some(to));
    assert forall m :: HasInstr(p', m) <==> HasInstr(p, m);
    assert forall m :: HasInstr(p, m) ==> InstrAt(p', m) == if m == l then ins else InstrAt(p, m);
    assert forall m :: HasInstr(p, m) ==> SameRegs(InstrAt(p, m), InstrAt(p', m));
    RegsKept(p, p', nextReg);
  }

  lemma CondJmpKeeps(p: Proc, nextReg: nat, b: nat, falseBB: nat)
    requires WellFormed(p, nextReg) && b < |p| && falseBB < |p| && !p[b].Closed()
    requires |p[b].code| > 0 && p[b].code[|p[b].code| - 1].IntCmp?
    ensures WellFormed(EmitCondJmp(p, b, p[b].code[|p[b].code| - 1].r, None, falseBB), nextReg)
  {
    CondJmpKeepsPreds(p, b, p[b].code[|p[b].code| - 1].r, falseBB);
    CondJmpKeepsRegs(p, nextReg, b, falseBB);
  }

  lemma CondJmpKeepsPreds(p: Proc, b: nat, r: nat, falseBB: nat)
    requires PredsInverse(p) && b < |p| && falseBB < |p| && !p[b].Closed()
    ensures PredsInverse(EmitCondJmp(p, b, r, None, falseBB))
  {
    var ins := CondJmp(r, None, falseBB);
    var p1 := AddInstr(p, b, ins);
    forall c: nat, t: nat | c < |p|
      ensures Edge(p1, c, t) <==> Edge(p, c, t) || (c == b && t == falseBB)
    {
      if c == b { assert p1[b].code[|p1[b].code| - 1] == ins; }
    }
    ConnectPreds(p, p1, b, falseBB);
  }

  lemma CondJmpKeepsRegs(p: Proc, nextReg: nat, b: nat, falseBB: nat)
    requires ComparesFeedOneJump(p, nextReg) && b < |p| && falseBB < |p| && !p[b].Closed()
    requires |p[b].code| > 0 && p[b].code[|p[b].code| - 1].IntCmp?
    ensures ComparesFeedOneJump(EmitCondJmp(p, b, p[b].code[|p[b].code| - 1].r, None, falseBB), nextReg)
  {
    var ins := CondJmp(p[b].code[|p[b].code| - 1].r, None, falseBB);
    var p' := EmitCondJmp(p, b, ins.a, None, falseBB);
    var last := Loc(b, |p[b].code|);
    assert p'[b].code == p[b].code + [ins] && forall c :: 0 <= c < |p| && c != b ==> p'[c].code == p[c].code;
    hide EmitCondJmp;
    assert forall l :: HasInstr(p', l) <==> HasInstr(p, l) || l == last;
    assert forall l :: HasInstr(p, l) ==> InstrAt(p', l) == InstrAt(p, l);
    RegsPlus(p, p', nextReg, last);
  }

  /** One more conditional jump, right behind the compare it reads. */
  lemma RegsPlus(p: Proc, p': Proc, nextReg: nat, last: Loc)
    requires ComparesFeedOneJump(p, nextReg)
    requires forall l :: HasInstr(p', l) <==> HasInstr(p, l) || l == last
    requires forall l :: HasInstr(p, l) ==> InstrAt(p', l) == InstrAt(p, l)
    requires HasInstr(p', last) && InstrAt(p', last).CondJmp? && last.at > 0 && HasInstr(p, Loc(last.bb, last.at - 1))
    requires InstrAt(p, Loc(last.bb, last.at - 1)).IntCmp? &&
      InstrAt(p, Loc(last.bb, last.at - 1)).r == InstrAt(p', last).a
    ensures ComparesFeedOneJump(p', nextReg)
  {
    hide InstrAt;
  }

  lemma JmpKeeps(p: Proc, nextReg: nat, b: nat, target: nat)
    requires WellFormed(p, nextReg) && b < |p| && target < |p| && !p[b].Closed()
    ensures WellFormed(EmitJmp(p, b, target), nextReg)
  {
    var p1 := AddInstr(p, b, Jmp(target));
    var p' := EmitJmp(p, b, target);
    forall c: nat, t: nat | c < |p|
      ensures Edge(p1, c, t) <==> Edge(p, c, t) || (c == b && t == target)
    {
      if c == b { assert p1[b].code[|p1[b].code| - 1] == Jmp(target); }
    }
    ConnectPreds(p, p1, b, target);
    var last := Loc(b, |p[b].code|);
    assert forall l :: HasInstr(p', l) <==> HasInstr(p, l) || l == last;
    assert forall l :: HasInstr(p, l) ==> InstrAt(p', l) == InstrAt(p, l);
    assert InstrAt(p', last) == Jmp(target);
  }

  /** Emitting a jump with both targets is emitting it without the first and patching it at once. */
  lemma CondJmpAsPatch(p: Proc, b: nat, a: nat, trueBB: nat, falseBB: nat)
    requires b < |p| && trueBB < |p| && falseBB < |p| && trueBB != falseBB
    ensures IsPending(EmitCondJmp(p, b, a, None, falseBB), Loc(b, |p[b].code|))
    ensures EmitCondJmp(p, b, a, Some(trueBB), falseBB)
         == PatchJmp(EmitCondJmp(p, b, a, None, falseBB), Loc(b, |p[b].code|), trueBB)
  {
    var q := EmitCondJmp(p, b, a, None, falseBB);
    var l := Loc(b, |p[b].code|);
    var x := EmitCondJmp(p, b, a, Some(trueBB), falseBB);
    var y := PatchJmp(q, l, trueBB);
    assert q[b].code[..|p[b].code|] == p[b].code;
    forall c | 0 <= c < |p| ensures x[c].code == y[c].code && x[c].preds == y[c].preds {
      assert x[c].code == y[c].code;
    }
    assert forall c :: 0 <= c < |p| ==> x[c] == y[c];
  }
}
