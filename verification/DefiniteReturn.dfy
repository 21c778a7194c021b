/** The flags the resolver propagates to decide whether a procedure can fall off its end, and the
    executions of statements they speak about. */
module DefiniteReturn {
  import opened Basics

  /** Statements.  What type checking an expression or declaration reports is a parameter (ok). */
  datatype Stmt =
    | NoOp
    | StaticAssert(ok: bool)
    | Simple(ok: bool)
    | VarDecl(ok: bool)
    | Return(hasExpr: bool, ok: bool)
    | Break
    | Continue
    | If(condOk: bool, thn: Stmt, els: Option<Stmt>)
    | While(condOk: bool, body: Stmt)
    | DoWhile(condOk: bool, body: Stmt)
    | For(init: Option<Stmt>, hasCond: bool, condOk: bool, next: Option<Stmt>, body: Stmt)
    | Block(stmts: seq<Stmt>)
    | Switch(exprOk: bool, cases: seq<Case>, casesOk: bool, hasDefault: bool)

  /** A switch case; ok is the check of its start and end expressions. */
  datatype Case = Case(ok: bool, stmts: seq<Stmt>)

  // ---- executions ----

  datatype Outcome = Normal | Broke | Continued | Returned(withValue: bool)

  /** The outcomes of the executions of s in which no loop goes around more than n times.
      Conditions and switch values may turn out any way. */
  ghost function Outcomes(s: Stmt, n: nat): set<Outcome>
    decreases s, 1, n
  {
    match s
    case Return(v, _) => {Returned(v)}
    case Break => {Broke}
    case Continue => {Continued}
    case If(_, t, e) => Outcomes(t, n) + (if e.Some? then Outcomes(e.value, n) else {Normal})
    case While(_, b) => LoopOutcomes(Outcomes(b, n), {Normal}, true, n)
    case DoWhile(_, b) => AfterBody(Outcomes(b, n), {Normal} + LoopOutcomes(Outcomes(b, n), {Normal}, true, n))
    case For(i, c, _, x, b) =>
      var loop := LoopOutcomes(Outcomes(b, n), if x.Some? then Outcomes(x.value, n) else {Normal}, c, n);
      if i.Some? then Then(Outcomes(i.value, n), loop) else loop
    case Block(ss) => SeqOutcomes(ss, n)
    case Switch(_, cs, _, d) => CaseOutcomes(cs, n) + (if d then {} else {Normal})
    case _ => {Normal}
  }

  /** One statement after another: the second runs only when the first completes normally. */
  ghost function Then(first: set<Outcome>, second: set<Outcome>): set<Outcome> {
    (first - {Normal}) + (if Normal in first then second else {})
  }

  /** What a loop body leads to, when going on leads to again. */
  ghost function AfterBody(body: set<Outcome>, again: set<Outcome>): set<Outcome> {
    (body - {Normal, Broke, Continued}) + (if Broke in body then {Normal} else {}) +
    (if Normal in body || Continued in body then again else {})
  }

  /** A loop from its condition on; the next statement runs after a body that goes on. */
  ghost function LoopOutcomes(body: set<Outcome>, next: set<Outcome>, hasCond: bool, n: nat): set<Outcome> {
    (if hasCond then {Normal} else {}) +
    (if n == 0 then {} else AfterBody(body, Then(next, LoopOutcomes(body, next, hasCond, n - 1))))
  }

  ghost function SeqOutcomes(ss: seq<Stmt>, n: nat): set<Outcome>
    decreases ss, 0, n
  {
    if ss == [] then {Normal} else Then(Outcomes(ss[0], n), SeqOutcomes(ss[1..], n))
  }

  ghost function CaseOutcomes(cs: seq<Case>, n: nat): set<Outcome>
    decreases cs, 0, n
  {
    if cs == [] then {} else SeqOutcomes(cs[0].stmts, n) + CaseOutcomes(cs[1..], n)
  }

  // ---- the resolver's flags ----

  datatype Flags = Flags(success: bool, rets: bool, exits: bool)

  const FAIL := Flags(false, false, false)
  const SUCCESS := Flags(true, false, false)

  function Only(ok: bool): Flags { if ok then SUCCESS else FAIL }

  function Both(a: Flags, b: Flags): Flags {
    Flags(a.success && b.success, a.rets && b.rets, a.exits && b.exits)
  }

  /** The flags of a statement, where isVoid is the procedure's return type and brk and noDecl are the
      flags passed down: break and continue are allowed, declarations are not. */
  function FlagsOf(s: Stmt, isVoid: bool, brk: bool, noDecl: bool): Flags
    decreases s, 1
  {
    match s
    case NoOp => SUCCESS
    case StaticAssert(ok) => Only(ok)
    case Simple(ok) => Only(ok)
    case VarDecl(ok) => Only(ok && !noDecl)
    case Return(v, ok) => Flags(v != isVoid && (v ==> ok), true, false)
    case Break => if brk then Flags(true, false, true) else FAIL
    case Continue => if brk then Flags(true, false, true) else FAIL
    case If(ok, t, e) =>
      var r := FlagsOf(t, isVoid, brk, true);
      if !ok || !r.success then FAIL
      else if e.Some? then Both(r, FlagsOf(e.value, isVoid, brk, true))
      else SUCCESS
    case While(ok, b) => Only(ok && FlagsOf(b, isVoid, true, true).success)
    case DoWhile(ok, b) =>
      if !ok then FAIL
      else
        var r := FlagsOf(b, isVoid, true, true);
        Flags(r.success && !r.rets && !r.exits, r.rets, r.exits)
    case For(i, c, ok, x, b) =>
      Only((i.Some? ==> FlagsOf(i.value, isVoid, false, noDecl).success) && (c ==> ok) &&
           FlagsOf(b, isVoid, true, true).success && (x.Some? ==> FlagsOf(x.value, isVoid, false, noDecl).success))
    case Block(ss) => BlockFlags(ss, isVoid, brk, false)
    case Switch(ok, cs, csOk, d) =>
      if !ok || cs == [] || !csOk || !CasesSucceed(cs, isVoid, brk, noDecl) then FAIL
      else Flags(true, d && AllCasesReturn(cs, isVoid, brk, noDecl), d && AllCasesExit(cs, isVoid, brk, noDecl))
  }

  /** A block: a statement after one that returns or exits the loop is an error. */
  function BlockFlags(ss: seq<Stmt>, isVoid: bool, brk: bool, noDecl: bool): Flags
    decreases ss, 0
  {
    if ss == [] then SUCCESS
    else
      var r := FlagsOf(ss[0], isVoid, brk, noDecl);
      if !r.success || |ss| == 1 then r
      else if r.rets || r.exits then r.(success := false)
      else BlockFlags(ss[1..], isVoid, brk, noDecl)
  }

  predicate CasesSucceed(cs: seq<Case>, isVoid: bool, brk: bool, noDecl: bool)
    decreases cs, 0
  {
    cs == [] || (cs[0].ok && BlockFlags(cs[0].stmts, isVoid, brk, noDecl).success &&
      CasesSucceed(cs[1..], isVoid, brk, noDecl))
  }

  predicate AllCasesReturn(cs: seq<Case>, isVoid: bool, brk: bool, noDecl: bool)
    decreases cs, 0
  {
    cs == [] || (BlockFlags(cs[0].stmts, isVoid, brk, noDecl).rets && AllCasesReturn(cs[1..], isVoid, brk, noDecl))
  }

  predicate AllCasesExit(cs: seq<Case>, isVoid: bool, brk: bool, noDecl: bool)
    decreases cs, 0
  {
    cs == [] || (BlockFlags(cs[0].stmts, isVoid, brk, noDecl).exits && AllCasesExit(cs[1..], isVoid, brk, noDecl))
  }

  // ---- what is accepted ----

  /** A statement and where it stands: in a procedure of what result type, inside a loop that it may leave or not,
      and where a declaration may not stand or may. */
  datatype Place = Place(stmt: Stmt, isVoid: bool, brk: bool, noDecl: bool)

  /** Written as a statement that always returns: a return, or a block, branch or exhaustive switch of such. */
  predicate AlwaysReturns(s: Stmt) {
    match s
    case Return(_, _) => true
    case If(_, t, e) => e.Some? && AlwaysReturns(t) && AlwaysReturns(e.value)
    case Block(ss) => exists k :: 0 <= k < |ss| && AlwaysReturns(ss[k])
    case Switch(_, cs, _, d) =>
      d && forall c | c in cs :: exists k :: 0 <= k < |c.stmts| && AlwaysReturns(c.stmts[k])
    case _ => false
  }

  /** Written as a statement that always breaks or continues, in the same way. */
  predicate AlwaysExits(s: Stmt) {
    match s
    case Break => true
    case Continue => true
    case If(_, t, e) => e.Some? && AlwaysExits(t) && AlwaysExits(e.value)
    case Block(ss) => exists k :: 0 <= k < |ss| && AlwaysExits(ss[k])
    case Switch(_, cs, _, d) =>
      d && forall c | c in cs :: exists k :: 0 <= k < |c.stmts| && AlwaysExits(c.stmts[k])
    case _ => false
  }

  predicate AlwaysLeaves(s: Stmt) { AlwaysReturns(s) || AlwaysExits(s) }

  /** Some statement follows one that always leaves. */
  predicate HasUnreachable(ss: seq<Stmt>) { exists k :: 0 <= k < |ss| - 1 && AlwaysLeaves(ss[k]) }

  /** The statements a statement is made of, each where it stands. */
  function Parts(p: Place): seq<Place> {
    match p.stmt
    case If(_, t, e) =>
      [p.(stmt := t, noDecl := true)] + (if e.Some? then [p.(stmt := e.value, noDecl := true)] else [])
    case While(_, b) => [p.(stmt := b, brk := true, noDecl := true)]
    case DoWhile(_, b) => [p.(stmt := b, brk := true, noDecl := true)]
    case For(i, _, _, x, b) =>
      (if i.Some? then [p.(stmt := i.value, brk := false)] else []) +
      (if x.Some? then [p.(stmt := x.value, brk := false)] else []) + [p.(stmt := b, brk := true, noDecl := true)]
    case Block(ss) => Each(ss, p.(noDecl := false))
    case Switch(_, cs, _, _) => EachCase(cs, p)
    case _ => []
  }

  function Each(ss: seq<Stmt>, p: Place): seq<Place> {
    seq(|ss|, k requires 0 <= k < |ss| => p.(stmt := ss[k]))
  }

  function EachCase(cs: seq<Case>, p: Place): seq<Place> {
    if cs == [] then [] else Each(cs[0].stmts, p) + EachCase(cs[1..], p)
  }

  /** What is wrong with a statement by itself: something in it does not resolve, it may not stand where it stands, a
      statement directly in it can never execute, the condition of a do-while cannot, or a switch has no case. */
  predicate Wrong(p: Place) {
    match p.stmt
    case NoOp => false
    case StaticAssert(ok) => !ok
    case Simple(ok) => !ok
    case VarDecl(ok) => !ok || p.noDecl
    case Return(v, ok) => v == p.isVoid || (v && !ok)
    case Break => !p.brk
    case Continue => !p.brk
    case If(ok, _, _) => !ok
    case While(ok, _) => !ok
    case DoWhile(ok, b) => !ok || AlwaysLeaves(b)
    case For(_, c, ok, _, _) => c && !ok
    case Block(ss) => HasUnreachable(ss)
    case Switch(ok, cs, csOk, _) =>
      !ok || cs == [] || !csOk || exists c :: c in cs && (!c.ok || HasUnreachable(c.stmts))
  }

  /** The statement found in p by taking, at each number, that part. */
  predicate FoundIn(p: Place, path: seq<nat>, q: Place)
    decreases |path|
  {
    if path == [] then q == p else path[0] < |Parts(p)| && FoundIn(Parts(p)[path[0]], path[1..], q)
  }

  /** No statement in p, at any depth, is wrong. */
  ghost predicate NothingWrong(p: Place) {
    forall path: seq<nat>, q: Place :: FoundIn(p, path, q) ==> !Wrong(q)
  }

  function PlaceFlags(p: Place): Flags { FlagsOf(p.stmt, p.isVoid, p.brk, p.noDecl) }

  /** Accepted if and only if nothing is wrong; and then reported to return, or to exit the loop, exactly if
      written so. */
  ghost predicate AsWritten(r: Flags, p: Place) {
    (r.success <==> NothingWrong(p)) &&
    (r.success ==> (r.rets <==> AlwaysReturns(p.stmt)) && (r.exits <==> AlwaysExits(p.stmt)))
  }

  lemma {:induction false} AcceptedIff(p: Place)
    ensures AsWritten(PlaceFlags(p), p)
    decreases p.stmt
  {
    forall k | 0 <= k < |Parts(p)| ensures AsWritten(PlaceFlags(Parts(p)[k]), Parts(p)[k]) {
      PartsSmaller(p, k);
      AcceptedIff(Parts(p)[k]);
    }
    hide NothingWrong;
    OneLevel(p);
    hide PlaceFlags, Wrong, AlwaysReturns, AlwaysExits, Parts;
    NothingWrongStep(p);
  }

  /** The reports about an accepted statement are as it is written. */
  predicate Told(q: Place) {
    PlaceFlags(q).success ==>
      (PlaceFlags(q).rets <==> AlwaysReturns(q.stmt)) && (PlaceFlags(q).exits <==> AlwaysExits(q.stmt))
  }

  lemma PartsSmaller(p: Place, k: nat)
    requires k < |Parts(p)|
    ensures Parts(p)[k].stmt < p.stmt
  {
    if p.stmt.Switch? {
      var i, j := CaseOf(p.stmt.cases, p, k);
      assert p.stmt.cases[i].stmts[j] < p.stmt;
    }
  }

  /** The k-th part of a switch stands in one of its cases. */
  lemma {:induction false} CaseOf(cs: seq<Case>, p: Place, k: nat) returns (i: nat, j: nat)
    requires k < |EachCase(cs, p)|
    ensures i < |cs| && j < |cs[i].stmts| && EachCase(cs, p)[k] == p.(stmt := cs[i].stmts[j])
  {
    if k < |cs[0].stmts| {
      i, j := 0, k;
    } else {
      i, j := CaseOf(cs[1..], p, k - |cs[0].stmts|);
      i := i + 1;
    }
  }

  lemma NothingWrongStep(p: Place)
    ensures NothingWrong(p) <==> !Wrong(p) && forall k :: 0 <= k < |Parts(p)| ==> NothingWrong(Parts(p)[k])
  {
    hide Wrong, Parts;
    if NothingWrong(p) {
      assert FoundIn(p, [], p);
      forall k, path: seq<nat>, q: Place | 0 <= k < |Parts(p)| && FoundIn(Parts(p)[k], path, q) ensures !Wrong(q) {
        assert ([k] + path)[1..] == path;
        assert FoundIn(p, [k] + path, q);
      }
    } else {
      var path: seq<nat>, q: Place :| FoundIn(p, path, q) && Wrong(q);
      if path != [] { assert FoundIn(Parts(p)[path[0]], path[1..], q); }
    }
  }

  predicate AllTold(ps: seq<Place>) { forall k :: 0 <= k < |ps| ==> Told(ps[k]) }

  predicate AllAccepted(ps: seq<Place>) { forall k :: 0 <= k < |ps| ==> PlaceFlags(ps[k]).success }

  lemma AllParts(ps: seq<Place>, qs: seq<Place>)
    ensures AllTold(ps + qs) ==> AllTold(ps) && AllTold(qs)
    ensures AllAccepted(ps + qs) <==> AllAccepted(ps) && AllAccepted(qs)
  {
    hide Told, PlaceFlags;
    assert forall k :: 0 <= k < |ps| ==> (ps + qs)[k] == ps[k];
    assert forall k :: 0 <= k < |qs| ==> (ps + qs)[|ps| + k] == qs[k];
  }

  /** A statement is accepted exactly if it is not wrong by itself and its parts are accepted. */
  lemma OneLevel(p: Place)
    requires AllTold(Parts(p))
    ensures PlaceFlags(p).success <==> !Wrong(p) && AllAccepted(Parts(p))
    ensures Told(p)
  {
    match p.stmt {
      case Block(ss) =>
        hide HasUnreachable;
        BlockLevel(ss, p.(noDecl := false));
      case Switch(_, _, _, _) => SwitchLevel(p);
      case For(_, _, _, _, _) => ForLevel(p);
      case If(_, _, _) => IfLevel(p);
      case While(_, _) => LoopLevel(p);
      case DoWhile(_, _) => LoopLevel(p);
      case _ => hide HasUnreachable;
    }
  }

  lemma LoopLevel(p: Place)
    requires (p.stmt.While? || p.stmt.DoWhile?) && AllTold(Parts(p))
    ensures PlaceFlags(p).success <==> !Wrong(p) && AllAccepted(Parts(p))
    ensures Told(p)
  {
    hide HasUnreachable;
    assert Parts(p)[0] == p.(stmt := p.stmt.body, brk := true, noDecl := true);
  }

  lemma IfLevel(p: Place)
    requires p.stmt.If? && AllTold(Parts(p))
    ensures PlaceFlags(p).success <==> !Wrong(p) && AllAccepted(Parts(p))
    ensures Told(p)
  {
    assert Parts(p)[0] == p.(stmt := p.stmt.thn, noDecl := true);
    if p.stmt.els.Some? { assert Parts(p)[1] == p.(stmt := p.stmt.els.value, noDecl := true); }
  }

  lemma ForLevel(p: Place)
    requires p.stmt.For?
    ensures PlaceFlags(p).success <==> !Wrong(p) && AllAccepted(Parts(p))
    ensures Told(p)
  {
    var s := p.stmt;
    assert Parts(p)[|Parts(p)| - 1] == p.(stmt := s.body, brk := true, noDecl := true);
    if s.init.Some? { assert Parts(p)[0] == p.(stmt := s.init.value, brk := false); }
    if s.next.Some? { assert Parts(p)[|Parts(p)| - 2] == p.(stmt := s.next.value, brk := false); }
  }

  lemma SwitchLevel(p: Place)
    requires p.stmt.Switch? && AllTold(Parts(p))
    ensures PlaceFlags(p).success <==> !Wrong(p) && AllAccepted(Parts(p))
    ensures Told(p)
  {
    hide HasUnreachable;
    CasesLevel(p.stmt.cases, p);
    hide AllAccepted, AllTold;
  }

  predicate SomeReturns(ss: seq<Stmt>) { exists k :: 0 <= k < |ss| && AlwaysReturns(ss[k]) }

  predicate SomeExits(ss: seq<Stmt>) { exists k :: 0 <= k < |ss| && AlwaysExits(ss[k]) }

  lemma {:induction false} BlockLevel(ss: seq<Stmt>, p: Place)
    requires AllTold(Each(ss, p))
    ensures var r := BlockFlags(ss, p.isVoid, p.brk, p.noDecl);
      (r.success <==> !HasUnreachable(ss) && AllAccepted(Each(ss, p))) &&
      (r.success ==> (r.rets <==> SomeReturns(ss)) && (r.exits <==> SomeExits(ss)))
  {
    if ss != [] {
      var rest := ss[1..];
      assert Each(ss, p) == [p.(stmt := ss[0])] + Each(rest, p);
      AllParts([p.(stmt := ss[0])], Each(rest, p));
      BlockLevel(rest, p);
      assert AllTold([p.(stmt := ss[0])]) ==> Told([p.(stmt := ss[0])][0]);
      assert Told(p.(stmt := ss[0]));
      assert AllAccepted([p.(stmt := ss[0])]) <==> PlaceFlags([p.(stmt := ss[0])][0]).success;
      hide AllTold, AllAccepted;
      FirstOrLater(ss);
      if rest == [] { hide HasUnreachable, SomeReturns, SomeExits; }
    }
  }

  lemma FirstOrLater(ss: seq<Stmt>)
    requires ss != []
    ensures SomeReturns(ss) <==> AlwaysReturns(ss[0]) || SomeReturns(ss[1..])
    ensures SomeExits(ss) <==> AlwaysExits(ss[0]) || SomeExits(ss[1..])
    ensures HasUnreachable(ss) <==> |ss| > 1 && (AlwaysLeaves(ss[0]) || HasUnreachable(ss[1..]))
    ensures |ss| == 1 ==> !SomeReturns(ss[1..]) && !SomeExits(ss[1..])
  {
    hide AlwaysReturns, AlwaysExits, AlwaysLeaves;
    assert forall k :: 1 <= k < |ss| ==> ss[1..][k - 1] == ss[k];
  }

  predicate CasesRight(cs: seq<Case>) { forall c :: c in cs ==> c.ok && !HasUnreachable(c.stmts) }

  predicate AllSomeReturn(cs: seq<Case>) { forall c :: c in cs ==> SomeReturns(c.stmts) }

  predicate AllSomeExit(cs: seq<Case>) { forall c :: c in cs ==> SomeExits(c.stmts) }

  lemma {:induction false} CasesLevel(cs: seq<Case>, p: Place)
    requires AllTold(EachCase(cs, p))
    ensures CasesSucceed(cs, p.isVoid, p.brk, p.noDecl) <==> CasesRight(cs) && AllAccepted(EachCase(cs, p))
    ensures CasesSucceed(cs, p.isVoid, p.brk, p.noDecl) ==>
      (AllCasesReturn(cs, p.isVoid, p.brk, p.noDecl) <==> AllSomeReturn(cs)) &&
      (AllCasesExit(cs, p.isVoid, p.brk, p.noDecl) <==> AllSomeExit(cs))
  {
    if cs != [] {
      AllParts(Each(cs[0].stmts, p), EachCase(cs[1..], p));
      CasesLevel(cs[1..], p);
      BlockLevel(cs[0].stmts, p);
      FirstCase(cs);
      hide AllTold, AllAccepted, CasesRight, AllSomeReturn, AllSomeExit;
    }
  }

  lemma FirstCase(cs: seq<Case>)
    requires cs != []
    ensures CasesRight(cs) <==> cs[0].ok && !HasUnreachable(cs[0].stmts) && CasesRight(cs[1..])
    ensures AllSomeReturn(cs) <==> SomeReturns(cs[0].stmts) && AllSomeReturn(cs[1..])
    ensures AllSomeExit(cs) <==> SomeExits(cs[0].stmts) && AllSomeExit(cs[1..])
  {
    hide HasUnreachable, SomeReturns, SomeExits;
    assert cs == [cs[0]] + cs[1..];
  }

  // ---- soundness ----

  /** What an accepted statement's flags promise of its outcomes. */
  ghost predicate Promised(r: Flags, isVoid: bool, brk: bool, os: set<Outcome>) {
    (r.rets || r.exits ==> Normal !in os) &&
    (!brk ==> Broke !in os && Continued !in os) &&
    Returned(isVoid) !in os
  }

  lemma {:induction false} LoopSound(body: set<Outcome>, next: set<Outcome>, hasCond: bool, n: nat, isVoid: bool)
    requires Returned(isVoid) !in body && Returned(isVoid) !in next && Broke !in next && Continued !in next
    ensures var os := LoopOutcomes(body, next, hasCond, n);
      Broke !in os && Continued !in os && Returned(isVoid) !in os
    decreases n
  {
    if n > 0 { LoopSound(body, next, hasCond, n - 1, isVoid); }
  }

  /** If the resolver accepts a statement and reports that it returns or exits the loop, no execution of it
      completes normally; without permission none breaks or continues; and returns have a value exactly in
      procedures that return one. */
  lemma {:induction false} FlagsSound(s: Stmt, isVoid: bool, brk: bool, noDecl: bool, n: nat)
    requires FlagsOf(s, isVoid, brk, noDecl).success
    ensures Promised(FlagsOf(s, isVoid, brk, noDecl), isVoid, brk, Outcomes(s, n))
    decreases s, 1
  {
    match s {
      case If(_, t, e) =>
        FlagsSound(t, isVoid, brk, true, n);
        if e.Some? { FlagsSound(e.value, isVoid, brk, true, n); }
      case While(_, b) =>
        FlagsSound(b, isVoid, true, true, n);
        LoopSound(Outcomes(b, n), {Normal}, true, n, isVoid);
      case DoWhile(_, b) =>
        FlagsSound(b, isVoid, true, true, n);
        LoopSound(Outcomes(b, n), {Normal}, true, n, isVoid);
      case For(i, c, _, x, b) =>
        FlagsSound(b, isVoid, true, true, n);
        if x.Some? { FlagsSound(x.value, isVoid, false, noDecl, n); }
        LoopSound(Outcomes(b, n), if x.Some? then Outcomes(x.value, n) else {Normal}, c, n, isVoid);
        if i.Some? { FlagsSound(i.value, isVoid, false, noDecl, n); }
      case Block(ss) => BlockSound(ss, isVoid, brk, false, n);
      case Switch(_, cs, _, d) => CasesSound(cs, isVoid, brk, noDecl, n);
      case _ =>
    }
  }

  lemma {:induction false} BlockSound(ss: seq<Stmt>, isVoid: bool, brk: bool, noDecl: bool, n: nat)
    requires BlockFlags(ss, isVoid, brk, noDecl).success
    ensures Promised(BlockFlags(ss, isVoid, brk, noDecl), isVoid, brk, SeqOutcomes(ss, n))
    decreases ss, 0
  {
    if ss != [] {
      FlagsSound(ss[0], isVoid, brk, noDecl, n);
      if |ss| > 1 {
        BlockSound(ss[1..], isVoid, brk, noDecl, n);
      } else {
        assert SeqOutcomes(ss[1..], n) == {Normal};
      }
    }
  }

  lemma {:induction false} CasesSound(cs: seq<Case>, isVoid: bool, brk: bool, noDecl: bool, n: nat)
    requires CasesSucceed(cs, isVoid, brk, noDecl)
    ensures Promised(Flags(true, AllCasesReturn(cs, isVoid, brk, noDecl), AllCasesExit(cs, isVoid, brk, noDecl)),
                     isVoid, brk, CaseOutcomes(cs, n))
    decreases cs, 0
  {
    if cs != [] {
      BlockSound(cs[0].stmts, isVoid, brk, noDecl, n);
      CasesSound(cs[1..], isVoid, brk, noDecl, n);
    }
  }

  // ---- how statements can end ----

  /** What the parser lets stand in the head of a for loop: a declaration or an expression statement. */
  predicate InLoopHead(s: Option<Stmt>) {
    s.Some? ==> s.value.Simple? || s.value.VarDecl?
  }

  /** Every for loop has a head as the parser makes it. */
  predicate Parsed(s: Stmt)
    decreases s, 1
  {
    match s
    case If(_, t, e) => Parsed(t) && (e.Some? ==> Parsed(e.value))
    case While(_, b) => Parsed(b)
    case DoWhile(_, b) => Parsed(b)
    case For(i, _, _, x, b) => Parsed(b) && InLoopHead(i) && InLoopHead(x)
    case Block(ss) => AllParsed(ss)
    case Switch(_, cs, _, _) => CasesParsed(cs)
    case _ => true
  }

  predicate AllParsed(ss: seq<Stmt>)
    decreases ss, 0
  {
    ss == [] || (Parsed(ss[0]) && AllParsed(ss[1..]))
  }

  predicate CasesParsed(cs: seq<Case>)
    decreases cs, 0
  {
    cs == [] || (AllParsed(cs[0].stmts) && CasesParsed(cs[1..]))
  }

  /** Can the statement end in the way o: normally, by a break, or by a continue? Read off its syntax. */
  predicate CanEnd(s: Stmt, o: Outcome)
    decreases s, 1
  {
    match s
    case Return(v, _) => false
    case Break => o == Broke
    case Continue => o == Continued
    case If(_, t, e) => CanEnd(t, o) || if e.Some? then CanEnd(e.value, o) else o == Normal
    case While(_, _) => o == Normal
    case DoWhile(_, b) => o == Normal && (CanEnd(b, Broke) || CanEnd(b, Normal) || CanEnd(b, Continued))
    case For(_, c, _, _, b) => o == Normal && (c || CanEnd(b, Broke))
    case Block(ss) => SeqCanEnd(ss, o)
    case Switch(_, cs, _, d) => SomeCaseCanEnd(cs, o) || (!d && o == Normal)
    case _ => o == Normal
  }

  predicate SeqCanEnd(ss: seq<Stmt>, o: Outcome)
    decreases ss, 0
  {
    if ss == [] then o == Normal
    else (o != Normal && CanEnd(ss[0], o)) || (CanEnd(ss[0], Normal) && SeqCanEnd(ss[1..], o))
  }

  predicate SomeCaseCanEnd(cs: seq<Case>, o: Outcome)
    decreases cs, 0
  {
    cs != [] && (SeqCanEnd(cs[0].stmts, o) || SomeCaseCanEnd(cs[1..], o))
  }

  /** A loop completes if its condition can fail or its body can break, and in no other way. */
  lemma {:induction false} LoopEnds(body: set<Outcome>, hasCond: bool, n: nat)
    ensures var os := LoopOutcomes(body, {Normal}, hasCond, n);
      (Normal in os <==> hasCond || (n > 0 && Broke in body)) && Broke !in os && Continued !in os
    decreases n
  {
    if n > 0 { LoopEnds(body, hasCond, n - 1); }
  }

  /** The syntax tells exactly how a statement can end without returning. */
  lemma {:induction false} CanEndExact(s: Stmt, n: nat, o: Outcome)
    requires Parsed(s) && !o.Returned?
    ensures o in Outcomes(s, n) ==> CanEnd(s, o)
    ensures n >= 1 && CanEnd(s, o) ==> o in Outcomes(s, n)
    decreases s, 1
  {
    match s {
      case If(_, t, e) =>
        CanEndExact(t, n, o);
        if e.Some? { CanEndExact(e.value, n, o); }
      case While(_, b) => LoopEnds(Outcomes(b, n), true, n);
      case DoWhile(_, b) =>
        LoopEnds(Outcomes(b, n), true, n);
        CanEndExact(b, n, Normal);
        CanEndExact(b, n, Broke);
        CanEndExact(b, n, Continued);
      case For(i, c, _, x, b) =>
        LoopEnds(Outcomes(b, n), c, n);
        CanEndExact(b, n, Broke);
        HeadEnds(i, n);
        HeadEnds(x, n);
      case Block(ss) => SeqCanEndExact(ss, n, o);
      case Switch(_, cs, _, _) => CasesCanEndExact(cs, n, o);
      case _ =>
    }
  }

  lemma HeadEnds(s: Option<Stmt>, n: nat)
    requires InLoopHead(s)
    ensures s.Some? ==> Outcomes(s.value, n) == {Normal}
  {
  }

  lemma {:induction false} SeqCanEndExact(ss: seq<Stmt>, n: nat, o: Outcome)
    requires AllParsed(ss) && !o.Returned?
    ensures o in SeqOutcomes(ss, n) ==> SeqCanEnd(ss, o)
    ensures n >= 1 && SeqCanEnd(ss, o) ==> o in SeqOutcomes(ss, n)
    decreases ss, 0
  {
    if ss != [] {
      CanEndExact(ss[0], n, o);
      CanEndExact(ss[0], n, Normal);
      SeqCanEndExact(ss[1..], n, o);
    }
  }

  lemma {:induction false} CasesCanEndExact(cs: seq<Case>, n: nat, o: Outcome)
    requires CasesParsed(cs) && !o.Returned?
    ensures o in CaseOutcomes(cs, n) ==> SomeCaseCanEnd(cs, o)
    ensures n >= 1 && SomeCaseCanEnd(cs, o) ==> o in CaseOutcomes(cs, n)
    decreases cs, 0
  {
    if cs != [] {
      SeqCanEndExact(cs[0].stmts, n, o);
      CasesCanEndExact(cs[1..], n, o);
    }
  }

  // ---- exactness ----

  /** Every for loop has a condition or a body that can break. */
  predicate LoopsCanEnd(s: Stmt)
    decreases s, 1
  {
    match s
    case If(_, t, e) => LoopsCanEnd(t) && (e.Some? ==> LoopsCanEnd(e.value))
    case While(_, b) => LoopsCanEnd(b)
    case DoWhile(_, b) => LoopsCanEnd(b)
    case For(_, c, _, _, b) => (c || CanEnd(b, Broke)) && LoopsCanEnd(b)
    case Block(ss) => AllLoopsCanEnd(ss)
    case Switch(_, cs, _, _) => CasesLoopsCanEnd(cs)
    case _ => true
  }

  predicate AllLoopsCanEnd(ss: seq<Stmt>)
    decreases ss, 0
  {
    ss == [] || (LoopsCanEnd(ss[0]) && AllLoopsCanEnd(ss[1..]))
  }

  predicate CasesLoopsCanEnd(cs: seq<Case>)
    decreases cs, 0
  {
    cs == [] || (AllLoopsCanEnd(cs[0].stmts) && CasesLoopsCanEnd(cs[1..]))
  }

  /** Some execution ends otherwise than by returning. */
  ghost predicate MayNotReturn(os: set<Outcome>) {
    Normal in os || Broke in os || Continued in os
  }

  /** Where the resolver does not report a return, some execution does not return. */
  lemma {:induction false} FlagsExact(s: Stmt, isVoid: bool, brk: bool, noDecl: bool, n: nat)
    requires FlagsOf(s, isVoid, brk, noDecl).success && Parsed(s) && LoopsCanEnd(s) && n >= 1
    ensures !FlagsOf(s, isVoid, brk, noDecl).rets ==> MayNotReturn(Outcomes(s, n))
    decreases s, 1
  {
    match s {
      case If(_, t, e) =>
        FlagsExact(t, isVoid, brk, true, n);
        if e.Some? { FlagsExact(e.value, isVoid, brk, true, n); }
      case DoWhile(_, b) => FlagsExact(b, isVoid, true, true, n);
      case For(_, _, _, _, _) => CanEndExact(s, n, Normal);
      case Block(ss) => BlockExact(ss, isVoid, brk, false, n);
      case Switch(_, cs, _, d) => CasesExact(cs, isVoid, brk, noDecl, n);
      case _ =>
    }
  }

  lemma {:induction false} BlockExact(ss: seq<Stmt>, isVoid: bool, brk: bool, noDecl: bool, n: nat)
    requires BlockFlags(ss, isVoid, brk, noDecl).success && AllParsed(ss) && AllLoopsCanEnd(ss) && n >= 1
    ensures !BlockFlags(ss, isVoid, brk, noDecl).rets ==> MayNotReturn(SeqOutcomes(ss, n))
    decreases ss, 0
  {
    if ss != [] {
      FlagsExact(ss[0], isVoid, brk, noDecl, n);
      if |ss| > 1 {
        BlockExact(ss[1..], isVoid, brk, noDecl, n);
      } else {
        assert SeqOutcomes(ss[1..], n) == {Normal};
      }
    }
  }

  lemma {:induction false} CasesExact(cs: seq<Case>, isVoid: bool, brk: bool, noDecl: bool, n: nat)
    requires CasesSucceed(cs, isVoid, brk, noDecl) && CasesParsed(cs) && CasesLoopsCanEnd(cs) && n >= 1
    ensures !AllCasesReturn(cs, isVoid, brk, noDecl) ==> MayNotReturn(CaseOutcomes(cs, n))
    decreases cs, 0
  {
    if cs != [] {
      BlockExact(cs[0].stmts, isVoid, brk, noDecl, n);
      CasesExact(cs[1..], isVoid, brk, noDecl, n);
    }
  }

  // ---- the resolver's loops ----

  /** Resolves the statements of a block in order, collecting flags until one fails or one too many follows. */
  method ResolveBlockBody(stmts: seq<Stmt>, isVoid: bool, brk: bool, noDecl: bool) returns (r: Flags)
    ensures r == BlockFlags(stmts, isVoid, brk, noDecl)
    decreases stmts, 0
  {
    r := SUCCESS;
    var i := 0;
    while i < |stmts|
      invariant 0 <= i <= |stmts| && r.success
      invariant if r.rets || r.exits then i > 0 &&
        BlockFlags(stmts, isVoid, brk, noDecl) == (if i == |stmts| then r else r.(success := false))
                else BlockFlags(stmts, isVoid, brk, noDecl) == BlockFlags(stmts[i..], isVoid, brk, noDecl)
    {
      if r.rets {
        return r.(success := false);
      }
      if r.exits {
        return r.(success := false);
      }
      var c := ResolveStmt(stmts[i], isVoid, brk, noDecl);
      assert stmts[i..][1..] == stmts[i + 1..];
      r := Flags(r.success, c.rets || r.rets, c.exits || r.exits);
      if !c.success {
        return r.(success := false);
      }
      i := i + 1;
    }
    assert stmts[|stmts|..] == [];
  }

  /** Resolves the cases of a switch; the flags of the switch are those all cases share. */
  method ResolveSwitch(exprOk: bool, cases: seq<Case>, casesOk: bool, hasDefault: bool, isVoid: bool, brk: bool,
                       noDecl: bool)
    returns (r: Flags)
    ensures r == FlagsOf(Switch(exprOk, cases, casesOk, hasDefault), isVoid, brk, noDecl)
    decreases cases, 1
  {
    if !exprOk || |cases| == 0 {
      return FAIL;
    }
    var anyCaseNoReturn, anyCaseNoLoopExit := false, false;
    var i := 0;
    assert cases[0..] == cases;
    while i < |cases|
      invariant 0 <= i <= |cases|
      invariant CasesSucceed(cases, isVoid, brk, noDecl) == CasesSucceed(cases[i..], isVoid, brk, noDecl)
      invariant AllCasesReturn(cases, isVoid, brk, noDecl) ==
        (!anyCaseNoReturn && AllCasesReturn(cases[i..], isVoid, brk, noDecl))
      invariant AllCasesExit(cases, isVoid, brk, noDecl) ==
        (!anyCaseNoLoopExit && AllCasesExit(cases[i..], isVoid, brk, noDecl))
    {
      assert cases[i..][0] == cases[i] && cases[i..][1..] == cases[i + 1..];
      if !cases[i].ok {
        return FAIL;
      }
      var c := ResolveBlockBody(cases[i].stmts, isVoid, brk, noDecl);
      if !c.rets {
        anyCaseNoReturn := true;
      }
      if !c.exits {
        anyCaseNoLoopExit := true;
      }
      if !c.success {
        return FAIL;
      }
      i := i + 1;
    }
    assert cases[|cases|..] == [];
    if !casesOk {
      return FAIL;
    }
    r := Flags(true, hasDefault && !anyCaseNoReturn, hasDefault && !anyCaseNoLoopExit);
  }

  /** Resolves a statement: accepts it if and only if nothing in it is wrong. */
  method ResolveStmt(s: Stmt, isVoid: bool, brk: bool, noDecl: bool) returns (r: Flags)
    ensures r == FlagsOf(s, isVoid, brk, noDecl)
    ensures AsWritten(r, Place(s, isVoid, brk, noDecl))
    decreases s, 2
  {
    hide AsWritten;
    AcceptedIff(Place(s, isVoid, brk, noDecl));
    match s {
      case NoOp => r := SUCCESS;
      case StaticAssert(ok) => r := Only(ok);
      case Simple(ok) => r := Only(ok);
      case VarDecl(ok) =>
        if noDecl { return FAIL; }
        r := Only(ok);
      case Return(hasExpr, ok) =>
        r := Flags(false, true, false);
        if !hasExpr && !isVoid { return; }
        if hasExpr && isVoid { return; }
        if hasExpr && !ok { return; }
        r := r.(success := true);
      case Break => r := if brk then Flags(true, false, true) else FAIL;
      case Continue => r := if brk then Flags(true, false, true) else FAIL;
      case If(condOk, thn, els) =>
        if !condOk { return FAIL; }
        r := ResolveStmt(thn, isVoid, brk, true);
        if !r.success { return FAIL; }
        if els.Some? {
          var e := ResolveStmt(els.value, isVoid, brk, true);
          r := Both(r, e);
        } else {
          r := Flags(r.success, false, false);
        }
      case While(condOk, body) =>
        if !condOk { return FAIL; }
        r := ResolveStmt(body, isVoid, true, true);
        r := Flags(r.success, false, false);
      case DoWhile(condOk, body) =>
        if !condOk { return FAIL; }
        r := ResolveStmt(body, isVoid, true, true);
        if r.rets { r := r.(success := false); }
        if r.exits { r := r.(success := false); }
      case For(init, hasCond, condOk, next, body) =>
        r := SUCCESS;
        if init.Some? {
          var c := ResolveStmt(init.value, isVoid, false, noDecl);
          r := Both(r, c);
          if !r.success { return FAIL; }
        }
        if hasCond && !condOk { return FAIL; }
        var b := ResolveStmt(body, isVoid, true, true);
        r := Both(r, b);
        if !r.success { return FAIL; }
        if next.Some? {
          var c := ResolveStmt(next.value, isVoid, false, noDecl);
          r := Both(r, c);
        }
        r := Flags(r.success, false, false);
      case Block(stmts) => r := ResolveBlockBody(stmts, isVoid, brk, false);
      case Switch(exprOk, cases, casesOk, hasDefault) =>
        r := ResolveSwitch(exprOk, cases, casesOk, hasDefault, isVoid, brk, noDecl);
    }
  }

  // ---- procedures ----

  /** A procedure body is accepted when it resolves without break or continue allowed, and returns on all
      paths if it must return a value. */
  function ProcAccepted(body: seq<Stmt>, isVoid: bool): bool {
    var r := BlockFlags(body, isVoid, false, false);
    r.success && (isVoid || r.rets)
  }

  ghost predicate MayFallOff(body: seq<Stmt>) {
    exists n: nat :: Normal in SeqOutcomes(body, n)
  }

  /** Resolves a procedure's body; `rets` is what is kept for the code generator. */
  method ResolveProcBody(body: seq<Stmt>, isVoid: bool) returns (success: bool, rets: bool)
    ensures success == ProcAccepted(body, isVoid)
    ensures success <==>
      NothingWrong(Place(Block(body), isVoid, false, false)) && (isVoid || AlwaysReturns(Block(body)))
    ensures success ==> (rets <==> AlwaysReturns(Block(body)))
    ensures success && !isVoid ==> forall n: nat, o :: o in SeqOutcomes(body, n) ==> o == Returned(true)
    ensures success && AllParsed(body) && AllLoopsCanEnd(body) ==> (rets <==> !MayFallOff(body))
  {
    AcceptedIff(Place(Block(body), isVoid, false, false));
    hide NothingWrong, AlwaysReturns;
    var r := ResolveBlockBody(body, isVoid, false, false);
    rets := r.rets;
    success := r.success && (isVoid || rets);
    if success {
      forall n: nat, o | !isVoid && o in SeqOutcomes(body, n) ensures o == Returned(true) {
        NeverFallsOff(body, n, o);
      }
      if AllParsed(body) && AllLoopsCanEnd(body) { ReturnsIff(body, isVoid); }
    }
  }

  /** An accepted procedure that returns a value never falls off its end: every execution that ends
      returns a value. */
  lemma NeverFallsOff(body: seq<Stmt>, n: nat, o: Outcome)
    requires ProcAccepted(body, false) && o in SeqOutcomes(body, n)
    ensures o == Returned(true)
  {
    BlockSound(body, false, false, false, n);
  }

  /** The flag kept for an accepted procedure says exactly whether it can fall off its end. */
  lemma ReturnsIff(body: seq<Stmt>, isVoid: bool)
    requires ProcAccepted(body, isVoid) && AllParsed(body) && AllLoopsCanEnd(body)
    ensures BlockFlags(body, isVoid, false, false).rets <==> !MayFallOff(body)
  {
    forall n: nat ensures BlockFlags(body, isVoid, false, false).rets ==> Normal !in SeqOutcomes(body, n) {
      BlockSound(body, isVoid, false, false, n);
    }
    BlockSound(body, isVoid, false, false, 1);
    BlockExact(body, isVoid, false, false, 1);
    if !BlockFlags(body, isVoid, false, false).rets {
      assert Normal in SeqOutcomes(body, 1);
    }
  }

  /** Whether a body can fall off its end can be read off it. */
  lemma FallsOffIff(body: seq<Stmt>)
    requires AllParsed(body)
    ensures MayFallOff(body) <==> SeqCanEnd(body, Normal)
  {
    forall n: nat
      ensures Normal in SeqOutcomes(body, n) ==> SeqCanEnd(body, Normal) { SeqCanEndExact(body, n, Normal); }
    SeqCanEndExact(body, 1, Normal);
    if SeqCanEnd(body, Normal) { assert Normal in SeqOutcomes(body, 1); }
  }

  /** The flag of any accepted body is exact if and only if it is set, or the body can fall off its end. */
  lemma ReturnsExactIff(body: seq<Stmt>, isVoid: bool)
    requires ProcAccepted(body, isVoid) && AllParsed(body)
    ensures (BlockFlags(body, isVoid, false, false).rets <==> !MayFallOff(body)) <==>
      BlockFlags(body, isVoid, false, false).rets || SeqCanEnd(body, Normal)
  {
    FallsOffIff(body);
    forall n: nat ensures BlockFlags(body, isVoid, false, false).rets ==> Normal !in SeqOutcomes(body, n) {
      BlockSound(body, isVoid, false, false, n);
    }
  }

  /** The report about a for loop is exact if and only if the loop has a condition or its body can break. */
  lemma ForExactIff(s: Stmt, isVoid: bool, brk: bool, noDecl: bool, n: nat)
    requires s.For? && Parsed(s) && FlagsOf(s, isVoid, brk, noDecl).success && n >= 1
    ensures (FlagsOf(s, isVoid, brk, noDecl).rets <==> !MayNotReturn(Outcomes(s, n))) <==>
      s.hasCond || CanEnd(s.body, Broke)
  {
    CanEndExact(s, n, Normal);
    CanEndExact(s, n, Broke);
    CanEndExact(s, n, Continued);
  }

  /** Without a condition a loop that always returns is not reported to return, though nothing follows it. */
  lemma EndlessLoopNotReported(n: nat)
    ensures var s := For(None, false, true, None, Return(true, true));
      FlagsOf(s, false, false, false) == SUCCESS && Normal !in Outcomes(s, n)
  {
  }
}
