/** Parsing a program from its main file: a depth-first walk of the files it imports. */
module ImportGraph {
  import opened Basics

  /** An import statement: the file its path leads to, if any, and whether its symbols can be brought in. */
  datatype Import = Import(path: Option<nat>, symbolsOk: bool)

  /** A file: whether its own code and declarations are accepted, its imports, and whether its exports are accepted. */
  datatype File = File(codeOk: bool, imports: seq<Import>, exportsOk: bool)

  // ---- the import graph ----

  predicate Edge(fs: map<nat, File>, p: nat, q: nat) {
    p in fs && exists i :: 0 <= i < |fs[p].imports| && fs[p].imports[i].path == Some(q)
  }

  /** Nothing but a cycle can be wrong with this file. */
  predicate Sound(fs: map<nat, File>, p: nat) {
    p in fs && fs[p].codeOk && fs[p].exportsOk &&
    forall i :: 0 <= i < |fs[p].imports| ==> fs[p].imports[i].path.Some? && fs[p].imports[i].symbolsOk
  }

  /** A chain of imports that starts at the main file. */
  predicate Walk(fs: map<nat, File>, main: nat, w: seq<nat>) {
    w != [] && w[0] == main && forall i :: 0 < i < |w| ==> Edge(fs, w[i - 1], w[i])
  }

  predicate NoRepeats(w: seq<nat>) { forall i, j :: 0 <= i < j < |w| ==> w[i] != w[j] }

  ghost predicate Reachable(fs: map<nat, File>, main: nat, p: nat) {
    exists w :: Walk(fs, main, w) && w[|w| - 1] == p
  }

  /** The program is well formed: every file in reach is sound, and no chain of imports meets a file twice. */
  ghost predicate Acyclic(fs: map<nat, File>, main: nat) {
    forall w :: Walk(fs, main, w) ==> Sound(fs, w[|w| - 1]) && NoRepeats(w)
  }

  /** A chain that goes on from w and ends in a file that is not sound, or meets a file twice. */
  ghost predicate Bad(fs: map<nat, File>, main: nat, w: seq<nat>) {
    exists v :: w <= v && Walk(fs, main, v) && (!Sound(fs, v[|v| - 1]) || !NoRepeats(v))
  }

  /** Imports stand before the files that import them. */
  ghost predicate ImportsFirst(fs: map<nat, File>, finished: seq<nat>) {
    forall i, q :: 0 <= i < |finished| && Edge(fs, finished[i], q) ==> q in finished[..i]
  }

  // ---- the state of the walk ----

  /**
    * Between two calls: mods tells of every file seen whether it is still being parsed, those on the stack are, and the
    * others are finished.
    */
  ghost predicate State(fs: map<nat, File>, main: nat, mods: map<nat, bool>, parsed: seq<nat>, finished: seq<nat>,
                        stack: seq<nat>) {
    NoRepeats(stack) && (forall p :: p in stack <==> p in mods && mods[p]) &&
    NoRepeats(finished) && (forall p :: p in finished <==> p in mods && !mods[p]) &&
    NoRepeats(parsed) && (forall p :: p in parsed <==> p in mods) &&
    ImportsFirst(fs, finished) && (forall p :: p in finished ==> Sound(fs, p)) &&
    (forall p :: p in mods ==> Reachable(fs, main, p))
  }

  lemma DistinctPush(w: seq<nat>, p: nat)
    requires NoRepeats(w)
    ensures NoRepeats(w + [p]) <==> p !in w
  {
    if p in w {
      var i :| 0 <= i < |w| && w[i] == p;
      assert (w + [p])[i] == (w + [p])[|w|];
    }
  }

  /** A file that was not seen before is taken up. */
  lemma Begin(fs: map<nat, File>, main: nat, mods: map<nat, bool>, parsed: seq<nat>, finished: seq<nat>,
              stack: seq<nat>, p: nat)
    requires State(fs, main, mods, parsed, finished, stack) && p !in mods && Walk(fs, main, stack + [p])
    ensures State(fs, main, mods[p := true], parsed + [p], finished, stack + [p])
  {
    hide Walk, Sound, Edge, NoRepeats;
    DistinctPush(stack, p);
    DistinctPush(parsed, p);
    var w := stack + [p];
    assert w[|w| - 1] == p;
  }

  /** All imports of the file on top of the stack are finished, and so is the file. */
  lemma End(fs: map<nat, File>, main: nat, mods: map<nat, bool>, parsed: seq<nat>, finished: seq<nat>,
            stack: seq<nat>, p: nat)
    requires State(fs, main, mods, parsed, finished, stack + [p]) && Sound(fs, p)
    requires forall q :: Edge(fs, p, q) ==> q in finished
    ensures State(fs, main, mods[p := false], parsed, finished + [p], stack)
  {
    hide Sound, Edge, Reachable;
    assert (stack + [p])[|stack|] == p;
    DistinctPush(finished, p);
    assert NoRepeats(stack) && p !in stack by {
      assert forall i :: 0 <= i < |stack| ==> (stack + [p])[i] == stack[i];
    }
    assert ImportsFirst(fs, finished + [p]) by {
      var f := finished + [p];
      forall i, q | 0 <= i < |f| && Edge(fs, f[i], q) ensures q in f[..i] {
        assert f[..i] == finished[..i];
        assert i == |finished| ==> f[..i] == finished;
      }
    }
    hide ImportsFirst, NoRepeats;
    assert forall q :: q in stack + [p] <==> q in stack || q == p;
  }

  /** Finished files import only finished ones, so no chain leaves them. */
  lemma {:induction false} StaysFinished(fs: map<nat, File>, main: nat, finished: seq<nat>, w: seq<nat>, n: nat)
    requires ImportsFirst(fs, finished) && main in finished && Walk(fs, main, w) && n < |w|
    ensures w[n] in finished
  {
    if n > 0 {
      StaysFinished(fs, main, finished, w, n - 1);
      var i :| 0 <= i < |finished| && finished[i] == w[n - 1];
      assert Edge(fs, finished[i], w[n]);
      assert w[n] in finished[..i];
    }
  }

  /** Along a chain the places in the finishing order go down. */
  lemma {:induction false} PlacesFall(fs: map<nat, File>, main: nat, finished: seq<nat>, w: seq<nat>, a: nat, b: nat,
                                      i: nat)
    requires ImportsFirst(fs, finished) && Walk(fs, main, w) && a < b < |w|
    requires i < |finished| && finished[i] == w[a]
    ensures w[b] in finished[..i]
    decreases b
  {
    if b == a + 1 {
      assert Edge(fs, finished[i], w[b]);
    } else {
      PlacesFall(fs, main, finished, w, a, b - 1, i);
      var j :| 0 <= j < i && finished[j] == w[b - 1];
      assert Edge(fs, finished[j], w[b]);
      assert finished[..j] <= finished[..i];
    }
  }

  /** A finished main file means a well-formed program. */
  lemma FinishedMeansAcyclic(fs: map<nat, File>, main: nat, finished: seq<nat>)
    requires ImportsFirst(fs, finished) && NoRepeats(finished) && main in finished
    requires forall p :: p in finished ==> Sound(fs, p)
    ensures Acyclic(fs, main) && forall p :: Reachable(fs, main, p) ==> p in finished
  {
    forall w | Walk(fs, main, w) ensures Sound(fs, w[|w| - 1]) && NoRepeats(w) && w[|w| - 1] in finished {
      StaysFinished(fs, main, finished, w, |w| - 1);
      forall a, b | 0 <= a < b < |w| ensures w[a] != w[b] {
        StaysFinished(fs, main, finished, w, a);
        var i :| 0 <= i < |finished| && finished[i] == w[a];
        PlacesFall(fs, main, finished, w, a, b, i);
      }
    }
  }

  lemma BadIsNotAcyclic(fs: map<nat, File>, main: nat, w: seq<nat>)
    requires Bad(fs, main, w)
    ensures !Acyclic(fs, main)
  {
  }

  lemma BadPrefix(fs: map<nat, File>, main: nat, w: seq<nat>, q: nat)
    requires Bad(fs, main, w + [q])
    ensures Bad(fs, main, w)
  {
    var v :| w + [q] <= v && Walk(fs, main, v) && (!Sound(fs, v[|v| - 1]) || !NoRepeats(v));
    assert w <= v;
  }

  lemma BadHere(fs: map<nat, File>, main: nat, w: seq<nat>)
    requires Walk(fs, main, w) && (!Sound(fs, w[|w| - 1]) || !NoRepeats(w))
    ensures Bad(fs, main, w)
  {
    assert w <= w;
  }

  predicate Imported(imp: Import, finished: seq<nat>) {
    imp.path.Some? && imp.symbolsOk && imp.path.value in finished
  }

  /** What a call that succeeds leaves as it was: the files it found being parsed or finished, and
      the finishing order. */
  predicate Grew(m0: map<nat, bool>, m1: map<nat, bool>, f0: seq<nat>, f1: seq<nat>) {
    (forall q :: q in m0 ==> q in m1 && m1[q] == m0[q]) && f0 <= f1
  }

  lemma GrewTwice(m0: map<nat, bool>, m1: map<nat, bool>, m2: map<nat, bool>, f0: seq<nat>, f1: seq<nat>, f2: seq<nat>)
    requires Grew(m0, m1, f0, f1) && Grew(m1, m2, f1, f2)
    ensures Grew(m0, m2, f0, f2)
  {
  }

  /** The module itself, begun before and finished afterwards. */
  lemma GrewDone(m0: map<nat, bool>, m1: map<nat, bool>, f0: seq<nat>, f1: seq<nat>, p: nat)
    requires p !in m0 && Grew(m0[p := true], m1, f0, f1)
    ensures Grew(m0, m1[p := false], f0, f1 + [p])
  {
  }

  lemma GrewNot(m: map<nat, bool>, f: seq<nat>)
    ensures Grew(m, m, f, f)
  {
  }

  predicate ImportedUpTo(imports: seq<Import>, n: nat, finished: seq<nat>) {
    n <= |imports| && forall j :: 0 <= j < n ==> Imported(imports[j], finished)
  }

  lemma NoneImported(imports: seq<Import>, finished: seq<nat>)
    ensures ImportedUpTo(imports, 0, finished)
  {
  }

  lemma OneMoreImported(imports: seq<Import>, i: nat, m0: map<nat, bool>, m1: map<nat, bool>, f0: seq<nat>,
                        f1: seq<nat>)
    requires i < |imports| && ImportedUpTo(imports, i, f0) && Grew(m0, m1, f0, f1) && Imported(imports[i], f1)
    ensures ImportedUpTo(imports, i + 1, f1)
  {
    assert forall p :: p in f0 ==> p in f1;
  }

  lemma AllImported(fs: map<nat, File>, p: nat, finished: seq<nat>)
    requires p in fs && ImportedUpTo(fs[p].imports, |fs[p].imports|, finished)
    ensures fs[p].codeOk && fs[p].exportsOk ==> Sound(fs, p)
    ensures forall q :: Edge(fs, p, q) ==> q in finished
  {
  }

  lemma NotSound(fs: map<nat, File>, p: nat)
    requires p !in fs || !fs[p].codeOk || !fs[p].exportsOk
    ensures !Sound(fs, p)
  {
  }

  lemma CycleIsBad(fs: map<nat, File>, main: nat, w: seq<nat>, q: nat)
    requires Walk(fs, main, w + [q]) && q in w
    ensures Bad(fs, main, w)
  {
    hide Walk, Bad, Sound;
    var i :| 0 <= i < |w| && w[i] == q;
    assert (w + [q])[i] == (w + [q])[|w|];
    BadHere(fs, main, w + [q]);
    BadPrefix(fs, main, w, q);
  }

  // ---- the compiler ----

  class Compiler {
    const files: map<nat, File>
    const main: nat
    /** The module of each file seen so far: is it being parsed? */
    var mods: map<nat, bool>
    /** The files in the order in which parsing began, and in the order in which it ended. */
    ghost var parsed: seq<nat>
    ghost var finished: seq<nat>

    constructor (files: map<nat, File>, main: nat)
      ensures this.files == files && this.main == main && mods == map[] && parsed == [] && finished == []
    {
      this.files, this.main, mods, parsed, finished := files, main, map[], [], [];
    }

    ghost predicate Ready(stack: seq<nat>)
      reads this
    {
      State(files, main, mods, parsed, finished, stack)
    }

    /** How many files were not seen yet. */
    ghost function Unseen(): nat
      reads this
    {
      |files.Keys - mods.Keys|
    }

    /** Finds the module of a file, or parses the file. */
    method ParseImportModule(q: nat, ghost stack: seq<nat>) returns (ok: bool)
      requires Ready(stack) && Walk(files, main, stack + [q])
      modifies this
      ensures ok ==>
        Ready(stack) && Grew(old(mods), mods, old(finished), finished) && q in mods &&
        if mods[q] then q in stack else q in finished
      ensures !ok ==> Bad(files, main, stack + [q])
      decreases Unseen(), 1
    {
      ok := true;
      if q !in mods {
        ok := ParseModule(q, stack);
      }
    }

    /** Processes one import statement of the file on top of the stack. */
    method ParseImport(p: nat, i: nat, ghost here: seq<nat>) returns (ok: bool)
      requires Ready(here) && Walk(files, main, here) && here[|here| - 1] == p
      requires p in files && i < |files[p].imports|
      modifies this
      ensures ok ==>
        Ready(here) && Grew(old(mods), mods, old(finished), finished) && Imported(files[p].imports[i], finished)
      ensures !ok ==> Bad(files, main, here)
      decreases Unseen(), 2
    {
      hide Bad, State, Walk;
      var imp := files[p].imports[i];
      if imp.path.None? {
        BadHere(files, main, here);
        return false;
      }
      var q := imp.path.value;
      WalkPush(files, main, here, q);
      ok := ParseImportModule(q, here);
      if !ok {
        BadPrefix(files, main, here, q);
      } else if mods[q] {
        CycleIsBad(files, main, here, q);
        return false;
      } else if !imp.symbolsOk {
        BadHere(files, main, here);
        return false;
      }
    }

    /** Processes the import statements of the file on top of the stack, one after the other. */
    method ParseImports(p: nat, ghost here: seq<nat>) returns (ok: bool)
      requires Ready(here) && Walk(files, main, here) && here[|here| - 1] == p && p in files
      modifies this
      ensures ok ==>
        Ready(here) && Grew(old(mods), mods, old(finished), finished) &&
        (files[p].codeOk && files[p].exportsOk ==> Sound(files, p))
      ensures ok ==> forall q :: Edge(files, p, q) ==> q in finished
      ensures !ok ==> Bad(files, main, here)
      decreases Unseen(), 3
    {
      hide Bad, State, Walk, Sound, Edge, Imported, ImportedUpTo, Grew, NoRepeats, Reachable, ImportsFirst, Acyclic;
      ghost var m0, f0 := mods, finished;
      GrewNot(m0, f0);
      NoneImported(files[p].imports, finished);
      var i := 0;
      while i < |files[p].imports|
        invariant 0 <= i <= |files[p].imports| && Ready(here) && Grew(m0, mods, f0, finished)
        invariant ImportedUpTo(files[p].imports, i, finished)
      {
        ghost var m1, f1 := mods, finished;
        NoMoreUnseen(files.Keys, m0, m1, f0, f1);
        ok := ParseImport(p, i, here);
        if !ok {
          return false;
        }
        GrewTwice(m0, m1, mods, f0, f1, finished);
        OneMoreImported(files[p].imports, i, m1, mods, f1, finished);
        i := i + 1;
      }
      AllImported(files, p, finished);
      return true;
    }

    /** Parses a file, then its imports. */
    method ParseModule(p: nat, ghost stack: seq<nat>) returns (ok: bool)
      requires Ready(stack) && p !in mods && Walk(files, main, stack + [p])
      modifies this
      ensures ok ==> Ready(stack) && Grew(old(mods), mods, old(finished), finished) && p in finished
      ensures !ok ==> Bad(files, main, stack + [p])
      decreases Unseen(), 0
    {
      hide Bad, State, Walk, Sound, Edge, Imported, Grew, NoRepeats, Reachable, ImportsFirst, Acyclic;
      ghost var here := stack + [p];
      ghost var before := mods;
      assert here[|here| - 1] == p;
      Begin(files, main, mods, parsed, finished, stack, p);
      mods := mods[p := true];
      parsed := parsed + [p];
      if p !in files || !files[p].codeOk {
        NotSound(files, p);
        BadHere(files, main, here);
        return false;
      }
      SeenOneMore(files.Keys, before, p, true);
      ok := ParseImports(p, here);
      if !ok {
        return false;
      }
      if !files[p].exportsOk {
        NotSound(files, p);
        BadHere(files, main, here);
        return false;
      }
      GrewDone(before, mods, old(finished), finished, p);
      End(files, main, mods, parsed, finished, stack, p);
      mods := mods[p := false];
      finished := finished + [p];
      return true;
    }

    /** Parsing from the main file succeeds exactly when the program is well formed; each file in
        reach is parsed once. */
    method ParseProgram() returns (ok: bool)
      requires mods == map[] && parsed == [] && finished == []
      modifies this
      ensures ok <==> Acyclic(files, main)
      ensures ok ==> NoRepeats(parsed) && NoRepeats(finished) && ImportsFirst(files, finished)
      ensures ok ==>
        forall p :: (p in parsed <==> Reachable(files, main, p)) && (p in finished <==> Reachable(files, main, p))
    {
      ok := ParseImportModule(main, []);
      if ok {
        FinishedMeansAcyclic(files, main, finished);
      } else {
        BadIsNotAcyclic(files, main, [main]);
      }
    }
  }

  lemma WalkPush(fs: map<nat, File>, main: nat, w: seq<nat>, q: nat)
    requires Walk(fs, main, w) && Edge(fs, w[|w| - 1], q)
    ensures Walk(fs, main, w + [q])
  {
  }

  lemma SeenOneMore(all: set<nat>, mods: map<nat, bool>, p: nat, v: bool)
    requires p in all && p !in mods
    ensures |all - mods[p := v].Keys| < |all - mods.Keys|
  {
    assert all - mods[p := v].Keys == (all - mods.Keys) - {p};
  }

  lemma NoMoreUnseen(all: set<nat>, before: map<nat, bool>, mods: map<nat, bool>, f0: seq<nat>, f1: seq<nat>)
    requires Grew(before, mods, f0, f1)
    ensures |all - mods.Keys| <= |all - before.Keys|
  {
    SubsetSize(all - mods.Keys, all - before.Keys);
  }
}
