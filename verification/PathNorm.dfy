/** File paths: normalising in place, joining, and resolving against a directory. */
module PathNorm {

  const SEP: char := '/'
  const NUL: char := '\0'

  // ---- what a path means ----

  /** The length of the first component. */
  function FirstLen(s: string): (k: nat)
    ensures k <= |s| && SEP !in s[..k] && (k < |s| ==> s[k] == SEP)
  {
    if s == [] || s[0] == SEP then 0 else
      var k := FirstLen(s[1..]);
      assert s[..k + 1] == [s[0]] + s[1..][..k];
      k + 1
  }

  /** The components between the separators. */
  function Split(s: string): (cs: seq<string>)
    ensures cs != []
    decreases |s|
  {
    var k := FirstLen(s);
    if k == |s| then [s] else [s[..k]] + Split(s[k + 1..])
  }

  predicate IsAbs(s: string) { s != [] && s[0] == SEP }

  /** The component stack after one more component. */
  function Step(abs: bool, stack: seq<string>, c: string): seq<string> {
    if c == "" || c == "." then stack
    else if c != ".." then stack + [c]
    else if stack != [] && stack[|stack| - 1] != ".." then stack[..|stack| - 1]
    else if abs then stack
    else stack + [c]
  }

  function Fold(abs: bool, stack: seq<string>, cs: seq<string>): seq<string>
    decreases |cs|
  {
    if cs == [] then stack else Fold(abs, Step(abs, stack, cs[0]), cs[1..])
  }

  function Resolve(s: string): seq<string> { Fold(IsAbs(s), [], Split(s)) }

  function Join(stack: seq<string>): string {
    if stack == [] then ""
    else if |stack| == 1 then stack[0]
    else stack[0] + [SEP] + Join(stack[1..])
  }

  function Render(abs: bool, stack: seq<string>): string {
    var r := (if abs then [SEP] else "") + Join(stack);
    if r == "" then "." else r
  }

  /** The normal form of a path: resolve its components, and write them again. */
  function Norm(s: string): string { Render(IsAbs(s), Resolve(s)) }

  predicate Name(c: string) { c != "" && c != "." && SEP !in c }

  /** Only names, and parents only in front, and never in an absolute path. */
  predicate Normal(abs: bool, stack: seq<string>) {
    (forall i :: 0 <= i < |stack| ==> Name(stack[i])) &&
    (forall i :: 0 <= i < |stack| && stack[i] == ".." ==> !abs && forall j :: 0 <= j < i ==> stack[j] == "..")
  }

  // ---- laws of the normal form ----

  lemma StepNormal(abs: bool, stack: seq<string>, c: string)
    requires Normal(abs, stack) && SEP !in c
    ensures Normal(abs, Step(abs, stack, c))
  {
  }

  lemma {:induction false} FoldNormal(abs: bool, stack: seq<string>, cs: seq<string>)
    requires Normal(abs, stack) && forall i :: 0 <= i < |cs| ==> SEP !in cs[i]
    ensures Normal(abs, Fold(abs, stack, cs))
    decreases |cs|
  {
    if cs != [] {
      StepNormal(abs, stack, cs[0]);
      FoldNormal(abs, Step(abs, stack, cs[0]), cs[1..]);
    }
  }

  lemma {:induction false} SplitHasNoSep(s: string)
    ensures forall i :: 0 <= i < |Split(s)| ==> SEP !in Split(s)[i]
    decreases |s|
  {
    var k := FirstLen(s);
    if k == |s| { assert s == s[..k]; } else { SplitHasNoSep(s[k + 1..]); }
  }

  /** What a path resolves to is normal. */
  lemma ResolveNormal(s: string)
    ensures Normal(IsAbs(s), Resolve(s))
  {
    SplitHasNoSep(s);
    FoldNormal(IsAbs(s), [], Split(s));
  }

  lemma FirstLenIs(s: string, k: nat)
    requires k <= |s| && SEP !in s[..k] && (k < |s| ==> s[k] == SEP)
    ensures FirstLen(s) == k
  {
    var j := FirstLen(s);
    assert forall i :: 0 <= i < k ==> s[i] == s[..k][i] != SEP;
    assert forall i :: 0 <= i < j ==> s[i] == s[..j][i] != SEP;
  }

  lemma SplitAt(c: string, rest: string)
    requires SEP !in c
    ensures Split(c) == [c] && Split(c + [SEP] + rest) == [c] + Split(rest)
  {
    var s := c + [SEP] + rest;
    assert s[..|c|] == c && s[|c| + 1..] == rest;
    FirstLenIs(s, |c|);
    assert c[..|c|] == c;
    FirstLenIs(c, |c|);
  }

  /** Splitting undoes joining. */
  lemma {:induction false} SplitJoin(stack: seq<string>)
    requires stack != [] && forall i :: 0 <= i < |stack| ==> SEP !in stack[i]
    ensures Split(Join(stack)) == stack
  {
    if |stack| == 1 {
      SplitAt(stack[0], "");
    } else {
      SplitJoin(stack[1..]);
      SplitAt(stack[0], Join(stack[1..]));
    }
  }

  /** Nothing is left to resolve in a normal stack. */
  lemma {:induction false} FoldOfNormal(abs: bool, stack: seq<string>, cs: seq<string>)
    requires Normal(abs, stack + cs)
    ensures Fold(abs, stack, cs) == stack + cs
    decreases |cs|
  {
    if cs == [] {
      assert stack + cs == stack;
    } else {
      var c := cs[0];
      assert (stack + cs)[|stack|] == c && Name(c);
      if c == ".." && stack != [] {
        assert (stack + cs)[|stack| - 1] == "..";
      }
      assert Step(abs, stack, c) == stack + [c];
      assert stack + [c] + cs[1..] == stack + cs;
      FoldOfNormal(abs, stack + [c], cs[1..]);
    }
  }

  lemma JoinStart(stack: seq<string>)
    requires stack != [] && Name(stack[0])
    ensures Join(stack) != "" && Join(stack)[0] == stack[0][0] != SEP
  {
  }

  /** A normal form resolves to the stack it was written from. */
  lemma ResolveRender(abs: bool, stack: seq<string>)
    requires Normal(abs, stack)
    ensures IsAbs(Render(abs, stack)) == abs && Resolve(Render(abs, stack)) == stack
  {
    var s := Render(abs, stack);
    FoldOfNormal(abs, [], stack);
    assert [] + stack == stack;
    if stack == [] {
      SplitAt("", "");
      SplitAt(".", "");
      assert abs ==> s == "" + [SEP] + "" && Split(s) == ["", ""];
      assert !abs ==> Split(s) == ["."];
      assert Fold(abs, [], [""]) == [] && Fold(abs, [], ["", ""]) == Fold(abs, [], ["", ""][1..]);
    } else {
      JoinStart(stack);
      SplitJoin(stack);
      SplitAt("", Join(stack));
      if abs {
        assert s == "" + [SEP] + Join(stack) && Split(s) == [""] + stack;
        assert Fold(abs, [], [""] + stack) == Fold(abs, [], ([""] + stack)[1..]);
        assert ([""] + stack)[1..] == stack;
      } else {
        assert s == Join(stack);
      }
    }
  }

  /** Normalising twice is normalising once; what is left resolves as before, with parents only in front. */
  lemma NormIdempotent(s: string)
    ensures Norm(Norm(s)) == Norm(s) && IsAbs(Norm(s)) == IsAbs(s) && Resolve(Norm(s)) == Resolve(s)
    ensures Normal(IsAbs(s), Resolve(Norm(s)))
  {
    ResolveNormal(s);
    ResolveRender(IsAbs(s), Resolve(s));
  }

  /** The text of a normal form: its components with one separator between them, one in front of an absolute path and
      none behind; a lone separator for the root, and a dot for where a relative path starts. */
  lemma NormText(s: string)
    ensures Resolve(s) != [] ==> Split(Norm(s)) == (if IsAbs(s) then [""] else []) + Resolve(s)
    ensures Resolve(s) == [] ==> Norm(s) == if IsAbs(s) then "/" else "."
    ensures |Norm(s)| > 1 ==> Norm(s)[|Norm(s)| - 1] != SEP
  {
    ResolveNormal(s);
    hide Resolve, Split, Join, Normal, Render, IsAbs;
    RenderText(IsAbs(s), Resolve(s));
  }

  lemma RenderText(abs: bool, stack: seq<string>)
    requires Normal(abs, stack)
    ensures var s := Render(abs, stack);
      (stack != [] ==> Split(s) == (if abs then [""] else []) + stack) &&
      (stack == [] ==> s == if abs then "/" else ".") && (|s| > 1 ==> s[|s| - 1] != SEP)
  {
    hide *;
    if stack == [] {
      RenderNone(abs);
    } else {
      NormalNames(abs, stack);
      SplitJoin(stack);
      JoinLast(stack);
      RenderIs(abs, stack);
      if abs {
        SplitAt("", Join(stack));
      } else {
        assert [] + stack == stack;
      }
    }
  }

  lemma RenderNone(abs: bool)
    ensures Render(abs, []) == if abs then "/" else "."
  {
  }

  lemma NormalNames(abs: bool, stack: seq<string>)
    requires Normal(abs, stack)
    ensures forall i :: 0 <= i < |stack| ==> Name(stack[i]) && SEP !in stack[i]
  {
  }

  lemma RenderIs(abs: bool, stack: seq<string>)
    requires Join(stack) != ""
    ensures Render(abs, stack) == if abs then "" + [SEP] + Join(stack) else Join(stack)
  {
    hide Join;
    assert "" + Join(stack) == Join(stack);
    assert "" + [SEP] == [SEP];
  }

  /** Two paths have one normal form exactly when both are absolute or both relative, and they resolve alike. */
  lemma NormEqual(s: string, t: string)
    ensures Norm(s) == Norm(t) <==> IsAbs(s) == IsAbs(t) && Resolve(s) == Resolve(t)
  {
    NormIdempotent(s);
    NormIdempotent(t);
  }

  // ---- resolving from left to right ----

  lemma {:induction false} FoldAppend(abs: bool, stack: seq<string>, cs: seq<string>, ds: seq<string>)
    ensures Fold(abs, stack, cs + ds) == Fold(abs, Fold(abs, stack, cs), ds)
    decreases |cs|
  {
    if cs == [] {
      assert cs + ds == ds;
    } else {
      assert (cs + ds)[1..] == cs[1..] + ds && (cs + ds)[0] == cs[0];
      FoldAppend(abs, Step(abs, stack, cs[0]), cs[1..], ds);
    }
  }

  lemma {:induction false} SplitAppend(s: string, t: string)
    ensures Split(s + [SEP] + t) == Split(s) + Split(t)
    decreases |s|
  {
    hide Split, FirstLen;
    var k := FirstLen(s);
    if k == |s| {
      assert s == s[..k];
      SplitAt(s, t);
    } else {
      var rest := s[k + 1..];
      SplitAppend(rest, t);
      SplitAt(s[..k], rest);
      SplitAt(s[..k], rest + [SEP] + t);
      assert s == s[..k] + [SEP] + rest;
      assert s + [SEP] + t == s[..k] + [SEP] + (rest + [SEP] + t);
      assert [s[..k]] + Split(rest) + Split(t) == [s[..k]] + (Split(rest) + Split(t));
    }
  }

  lemma FoldOne(abs: bool, stack: seq<string>, c: string)
    ensures Fold(abs, stack, [c]) == Step(abs, stack, c)
  {
    assert [c][1..] == [];
    assert Fold(abs, Step(abs, stack, c), []) == Step(abs, stack, c);
  }

  lemma FoldFirst(abs: bool, stack: seq<string>, c: string, cs: seq<string>)
    ensures Fold(abs, stack, [c] + cs) == Fold(abs, Step(abs, stack, c), cs)
  {
    FoldAppend(abs, stack, [c], cs);
    FoldOne(abs, stack, c);
  }

  /** The rest of the fold after the component in front. */
  lemma TakeComponent(abs: bool, stack: seq<string>, s: string, k: nat)
    requires k <= |s| && SEP !in s[..k] && (k < |s| ==> s[k] == SEP)
    ensures Fold(abs, stack, Split(s)) == Fold(abs, Step(abs, stack, s[..k]), Split(s[k..]))
  {
    hide Split, FirstLen, Fold;
    var stack' := Step(abs, stack, s[..k]);
    assert Step(abs, stack', "") == stack';
    hide Step;
    SplitAt("", if k < |s| then s[k + 1..] else "");
    if k == |s| {
      assert s == s[..k] && s[k..] == "";
      SplitAt(s, "");
      FoldOne(abs, stack, s);
      FoldOne(abs, stack', "");
    } else {
      var rest := s[k + 1..];
      assert s == s[..k] + [SEP] + rest && s[k..] == "" + [SEP] + rest;
      SplitAt(s[..k], rest);
      FoldFirst(abs, stack, s[..k], Split(rest));
      FoldFirst(abs, stack', "", Split(rest));
    }
  }

  lemma SkipSep(abs: bool, stack: seq<string>, s: string)
    requires IsAbs(s)
    ensures Fold(abs, stack, Split(s)) == Fold(abs, stack, Split(s[1..]))
  {
    hide Split, FirstLen, Fold;
    assert s == "" + [SEP] + s[1..];
    SplitAt("", s[1..]);
    FoldFirst(abs, stack, "", Split(s[1..]));
  }

  lemma FoldEnd(abs: bool, stack: seq<string>)
    ensures Fold(abs, stack, Split("")) == stack
  {
    SplitAt("", "");
    FoldOne(abs, stack, "");
  }

  // ---- the output while it is written ----

  /** The components, each with a separator behind it. */
  function Written(stack: seq<string>): string {
    if stack == [] then "" else Written(stack[..|stack| - 1]) + stack[|stack| - 1] + [SEP]
  }

  function Text(abs: bool, stack: seq<string>): string { (if abs then [SEP] else "") + Written(stack) }

  lemma WrittenPush(stack: seq<string>, c: string)
    ensures Written(stack + [c]) == Written(stack) + c + [SEP]
  {
    assert (stack + [c])[..|stack|] == stack;
  }

  lemma {:induction false} WrittenFirst(stack: seq<string>)
    requires stack != []
    ensures Written(stack) == stack[0] + [SEP] + Written(stack[1..])
  {
    var n := |stack| - 1;
    if n == 0 {
      assert stack[..0] == [] && stack[1..] == [];
      assert Written(stack[..0]) == "";
    } else {
      WrittenFirst(stack[..n]);
      WrittenLast(stack);
      WrittenLast(stack[1..]);
      hide Written;
      assert stack[..n][1..] == stack[1..][..n - 1] && stack[1..][n - 1] == stack[n];
    }
  }

  lemma WrittenLast(stack: seq<string>)
    requires stack != []
    ensures Written(stack) == Written(stack[..|stack| - 1]) + stack[|stack| - 1] + [SEP]
  {
  }

  lemma {:induction false} WrittenJoin(stack: seq<string>)
    requires stack != []
    ensures Written(stack) == Join(stack) + [SEP]
  {
    WrittenFirst(stack);
    if |stack| > 1 { WrittenJoin(stack[1..]); }
  }

  lemma JoinLast(stack: seq<string>)
    requires stack != [] && Name(stack[|stack| - 1])
    ensures Join(stack) != "" && Join(stack)[|Join(stack)| - 1] != SEP
  {
    WrittenJoin(stack);
    var n := |stack| - 1;
    assert Written(stack) == Written(stack[..n]) + stack[n] + [SEP];
    assert Join(stack) == Written(stack)[..|Written(stack)| - 1];
    assert Join(stack) == Written(stack[..n]) + stack[n];
  }

  /** Where each name of the stack starts in the output; the parents in front are not listed. */
  ghost predicate Starts(comps: seq<nat>, abs: bool, stack: seq<string>) {
    |comps| <= |stack| &&
    var m := |stack| - |comps|;
    (forall i :: 0 <= i < |stack| ==> (stack[i] == ".." <==> i < m)) &&
    (forall j :: 0 <= j < |comps| ==> comps[j] == |Text(abs, stack[..m + j])|)
  }

  /** The first out bytes of b are the written stack; at the end of the input the last separator may be missing. */
  ghost predicate Output(s: string, b: string, inp: nat, out: nat, stack: seq<string>)
    requires out <= |b|
  {
    Text(IsAbs(s), stack) == b[..out] || (inp == |s| && stack != [] && Text(IsAbs(s), stack) == b[..out] + [SEP])
  }

  /** The input from inp on is still in the buffer, with its NUL. */
  ghost predicate Unread(s: string, b: string, inp: nat) {
    inp <= |s| < |b| && forall i :: inp <= i <= |s| ==> b[i] == (s + [NUL])[i]
  }

  /** Halfway through: reading at inp, writing at out, with the components so far on the stack. */
  ghost predicate At(s: string, b: string, inp: nat, out: nat, comps: seq<nat>, stack: seq<string>) {
    Unread(s, b, inp) &&
    Fold(IsAbs(s), stack, Split(s[inp..])) == Resolve(s) && Normal(IsAbs(s), stack) &&
    (out <= inp || (out == inp + 1 && inp < |s| && s[inp] == SEP)) &&
    Output(s, b, inp, out, stack) && (inp < |s| ==> Starts(comps, IsAbs(s), stack))
  }

  lemma AtStart(s: string, b: string)
    requires Unread(s, b, 0)
    ensures var a := if IsAbs(s) then 1 else 0; At(s, b, a, a, [], [])
  {
    assert s[0..] == s;
    if IsAbs(s) { SkipSep(true, [], s); assert b[..1] == [SEP]; }
  }

  lemma AtSep(s: string, b: string, inp: nat, out: nat, comps: seq<nat>, stack: seq<string>)
    requires At(s, b, inp, out, comps, stack) && inp < |s| && s[inp] == SEP
    ensures At(s, b, inp + 1, out, comps, stack)
  {
    hide Fold, Split, Resolve, Normal, Starts;
    assert s[inp..][1..] == s[inp + 1..];
    SkipSep(IsAbs(s), stack, s[inp..]);
  }

  /** The component that ends at k has been read. */
  lemma AfterComponent(s: string, inp: nat, k: nat, stack: seq<string>)
    requires inp <= k <= |s| && SEP !in s[inp..k] && (k < |s| ==> s[k] == SEP)
    requires Fold(IsAbs(s), stack, Split(s[inp..])) == Resolve(s)
    ensures Fold(IsAbs(s), Step(IsAbs(s), stack, s[inp..k]), Split(s[k..])) == Resolve(s)
  {
    hide Fold, Split, Resolve, Step;
    assert s[inp..][..k - inp] == s[inp..k] && s[inp..][k - inp..] == s[k..];
    TakeComponent(IsAbs(s), stack, s[inp..], k - inp);
  }

  lemma AtDot(s: string, b: string, inp: nat, out: nat, comps: seq<nat>, stack: seq<string>)
    requires At(s, b, inp, out, comps, stack) && inp < |s| && s[inp] == '.' && (inp + 1 < |s| ==> s[inp + 1] == SEP)
    ensures At(s, b, inp + 1, out, comps, stack)
  {
    hide Fold, Split, Resolve, Normal, Starts, Text;
    assert s[inp..inp + 1] == "." && Step(IsAbs(s), stack, ".") == stack;
    hide Step;
    AfterComponent(s, inp, inp + 1, stack);
  }

  predicate ParentAt(s: string, inp: nat) {
    inp + 1 < |s| && s[inp] == '.' && s[inp + 1] == '.' && (inp + 2 < |s| ==> s[inp + 2] == SEP)
  }

  lemma AfterParent(s: string, b: string, inp: nat, out: nat, comps: seq<nat>, stack: seq<string>)
    requires At(s, b, inp, out, comps, stack) && ParentAt(s, inp)
    ensures var abs := IsAbs(s);
            var stack' := Step(abs, stack, "..");
            Fold(abs, stack', Split(s[inp + 2..])) == Resolve(s) && Normal(abs, stack')
  {
    hide Fold, Split, Resolve, Starts, Normal, Step;
    assert s[inp..inp + 2] == "..";
    AfterComponent(s, inp, inp + 2, stack);
    StepNormal(IsAbs(s), stack, "..");
  }

  lemma TextPush(abs: bool, stack: seq<string>, c: string)
    ensures Text(abs, stack + [c]) == Text(abs, stack) + c + [SEP]
  {
    WrittenPush(stack, c);
  }

  /** A parent takes back the last name. */
  lemma AtParentPop(s: string, b: string, inp: nat, out: nat, comps: seq<nat>, stack: seq<string>)
    requires At(s, b, inp, out, comps, stack) && ParentAt(s, inp) && comps != []
    ensures stack != [] && comps[|comps| - 1] <= out <= |b| &&
      At(s, b, inp + 2, comps[|comps| - 1], comps[..|comps| - 1], stack[..|stack| - 1])
  {
    AfterParent(s, b, inp, out, comps, stack);
    hide Fold, Split, Resolve, Normal, Starts, Output, Text;
    StartsPop(comps, IsAbs(s), stack);
    OutputPop(s, b, inp, out, stack);
  }

  lemma OutputPop(s: string, b: string, inp: nat, out: nat, stack: seq<string>)
    requires out <= |b| && Output(s, b, inp, out, stack) && stack != []
    ensures var t := stack[..|stack| - 1];
      |Text(IsAbs(s), t)| <= out && Output(s, b, inp + 2, |Text(IsAbs(s), t)|, t)
  {
    var n := |stack| - 1;
    TextPush(IsAbs(s), stack[..n], stack[n]);
    assert stack[..n] + [stack[n]] == stack;
    var t := Text(IsAbs(s), stack[..n]);
    assert t + stack[n] + [SEP] == t + (stack[n] + [SEP]);
    hide Text;
    PrefixOf(t, stack[n] + [SEP], b, out);
  }

  lemma PrefixOf(t: string, c: string, b: string, out: nat)
    requires out <= |b| && (b[..out] == t + c || b[..out] + [SEP] == t + c) && c != []
    ensures |t| <= out && b[..|t|] == t
  {
    assert |t + c| == |t| + |c|;
    assert b[..|t|] == b[..out][..|t|];
    assert (t + c)[..|t|] == t;
    assert (b[..out] + [SEP])[..|t|] == b[..out][..|t|];
  }

  lemma StartsPop(comps: seq<nat>, abs: bool, stack: seq<string>)
    requires Starts(comps, abs, stack) && comps != []
    ensures stack != [] && stack[|stack| - 1] != ".." && comps[|comps| - 1] == |Text(abs, stack[..|stack| - 1])|
    ensures Starts(comps[..|comps| - 1], abs, stack[..|stack| - 1])
  {
    hide Text;
    var stack', comps' := stack[..|stack| - 1], comps[..|comps| - 1];
    forall j | 0 <= j < |comps'| ensures comps'[j] == |Text(abs, stack'[..|stack'| - |comps'| + j])| {
      assert stack'[..|stack'| - |comps'| + j] == stack[..|stack| - |comps| + j];
    }
  }

  /** Nothing is above the root. */
  lemma AtParentRoot(s: string, b: string, inp: nat, out: nat, stack: seq<string>)
    requires At(s, b, inp, out, [], stack) && ParentAt(s, inp) && IsAbs(s)
    ensures At(s, b, inp + 2, out, [], stack)
  {
    AfterParent(s, b, inp, out, [], stack);
    assert Step(true, stack, "..") == stack;
    hide Fold, Split, Resolve, Normal;
  }

  /** Parents of a relative path that go above its start are written. */
  lemma AtParentUp(s: string, b: string, b': string, inp: nat, out: nat, out': nat, stack: seq<string>)
    requires At(s, b, inp, out, [], stack) && ParentAt(s, inp) && !IsAbs(s)
    requires Unread(s, b', inp + 2) && out' <= |b'| && (out' <= inp + 2 || (out' == inp + 3 && inp + 2 < |s|))
    requires b'[..out'] == b[..out] + ".." + [SEP] || (inp + 2 == |s| && b'[..out'] == b[..out] + "..")
    ensures At(s, b', inp + 2, out', [], stack + [".."])
  {
    AfterParent(s, b, inp, out, [], stack);
    hide Fold, Split, Resolve, Normal, Output, Text;
    assert Step(false, stack, "..") == stack + [".."];
    OutputUp(s, b, b', inp, out, out', stack);
  }

  lemma OutputUp(s: string, b: string, b': string, inp: nat, out: nat, out': nat, stack: seq<string>)
    requires out <= |b| && inp < |s| && Output(s, b, inp, out, stack) && out' <= |b'| && !IsAbs(s)
    requires b'[..out'] == b[..out] + ".." + [SEP] || (inp + 2 == |s| && b'[..out'] == b[..out] + "..")
    ensures Output(s, b', inp + 2, out', stack + [".."])
  {
    TextPush(false, stack, "..");
    hide Text;
  }

  /** A name is copied and pushed; at the end of the input it may be empty, and then nothing is. */
  lemma AtName(s: string, b: string, b': string, inp: nat, out: nat, k: nat, comps: seq<nat>, stack: seq<string>)
    requires At(s, b, inp, out, comps, stack) && inp <= k <= |s| && SEP !in s[inp..k] && (k < |s| ==> s[k] == SEP)
    requires s[inp..k] != "." && s[inp..k] != ".." && (k == inp ==> inp == |s|)
    requires var end := if k < |s| then 1 else 0;
             Unread(s, b', k + end) && out + (k - inp) + end <= |b'| &&
             b'[..out + (k - inp) + end] == b[..out] + s[inp..k] + if k < |s| then [SEP] else ""
    ensures var end := if k < |s| then 1 else 0;
            At(s, b', k + end, out + (k - inp) + end, comps + [out], if k == inp then stack else stack + [s[inp..k]])
  {
    hide *;
    if k < |s| {
      AtNameSep(s, b, b', inp, out, k, comps, stack);
    } else if k > inp {
      AtNameLast(s, b, b', inp, out, comps, stack);
    } else {
      AtNameEmpty(s, b, b', out, comps, stack);
    }
  }

  lemma AtNameEmpty(s: string, b: string, b': string, out: nat, comps: seq<nat>, stack: seq<string>)
    requires At(s, b, |s|, out, comps, stack) && Unread(s, b', |s|) && out <= |b'| && b'[..out] == b[..out] + "" + ""
    ensures At(s, b', |s|, out, comps + [out], stack)
  {
    hide Fold, Split, Resolve, Normal, Starts, Text;
    assert b'[..out] == b[..out];
  }

  lemma AtNameLast(s: string, b: string, b': string, inp: nat, out: nat, comps: seq<nat>, stack: seq<string>)
    requires At(s, b, inp, out, comps, stack) && inp < |s|
    requires SEP !in s[inp..|s|] && s[inp..|s|] != "." && s[inp..|s|] != ".." && Unread(s, b', |s|)
    requires out + (|s| - inp) <= |b'| && b'[..out + (|s| - inp)] == b[..out] + s[inp..|s|] + ""
    ensures At(s, b', |s|, out + (|s| - inp), comps + [out], stack + [s[inp..|s|]])
  {
    hide Fold, Split, Resolve, Normal, Starts, Text;
    AfterName(s, inp, |s|, stack);
    TextPush(IsAbs(s), stack, s[inp..|s|]);
    assert Text(IsAbs(s), stack) == b[..out];
    assert b'[..out + (|s| - inp)] + [SEP] == b[..out] + s[inp..|s|] + [SEP];
  }

  lemma AfterName(s: string, inp: nat, k: nat, stack: seq<string>)
    requires inp <= k <= |s| && SEP !in s[inp..k] && (k < |s| ==> s[k] == SEP) && s[inp..k] != "." && s[inp..k] != ".."
    requires Fold(IsAbs(s), stack, Split(s[inp..])) == Resolve(s) && Normal(IsAbs(s), stack)
    ensures var stack' := if k == inp then stack else stack + [s[inp..k]];
            Fold(IsAbs(s), stack', Split(s[k..])) == Resolve(s) && Normal(IsAbs(s), stack')
  {
    hide Fold, Split, Resolve, Normal;
    AfterComponent(s, inp, k, stack);
    StepNormal(IsAbs(s), stack, s[inp..k]);
    assert k == inp <==> s[inp..k] == "";
  }

  lemma AtNameSep(s: string, b: string, b': string, inp: nat, out: nat, k: nat, comps: seq<nat>, stack: seq<string>)
    requires At(s, b, inp, out, comps, stack) && inp <= k < |s| && s[k] == SEP && k != inp
    requires SEP !in s[inp..k] && s[inp..k] != "." && s[inp..k] != ".." && Unread(s, b', k + 1)
    requires out + (k - inp) + 1 <= |b'| && b'[..out + (k - inp) + 1] == b[..out] + s[inp..k] + [SEP]
    ensures At(s, b', k + 1, out + (k - inp) + 1, comps + [out], stack + [s[inp..k]])
  {
    hide Fold, Split, Resolve, Normal, Starts, Text, Unread;
    var abs, c := IsAbs(s), s[inp..k];
    AfterName(s, inp, k, stack);
    assert s[k..][1..] == s[k + 1..];
    SkipSep(abs, stack + [c], s[k..]);
    TextPush(abs, stack, c);
    StartsPush(comps, abs, stack, c);
    InOrder(s, inp, k);
  }

  lemma InOrder(s: string, inp: nat, k: nat)
    requires inp < k <= |s| && SEP !in s[inp..k]
    ensures s[inp] != SEP
  {
    assert s[inp] == s[inp..k][0];
  }

  lemma StartsPush(comps: seq<nat>, abs: bool, stack: seq<string>, c: string)
    requires Starts(comps, abs, stack) && c != ".."
    ensures Starts(comps + [|Text(abs, stack)|], abs, stack + [c])
  {
    hide Text;
    var comps', stack' := comps + [|Text(abs, stack)|], stack + [c];
    forall j | 0 <= j < |comps'| ensures comps'[j] == |Text(abs, stack'[..|stack'| - |comps'| + j])| {
      assert stack'[..|stack'| - |comps'| + j] == stack[..|stack| - |comps| + j];
      assert j == |comps| ==> stack[..|stack| - |comps| + j] == stack;
    }
  }

  /** What is left to do at the end: an empty path is the current directory, and a last separator goes. */
  lemma AtEnd(s: string, b: string, out: nat, comps: seq<nat>, stack: seq<string>)
    requires At(s, b, |s|, out, comps, stack)
    ensures out == 0 ==> Norm(s) == "."
    ensures out > 0 ==> Norm(s) == if out > 1 && b[out - 1] == SEP then b[..out - 1] else b[..out]
  {
    hide Fold, Split, Normal;
    assert s[|s|..] == "";
    FoldEnd(IsAbs(s), stack);
    assert stack == Resolve(s);
    hide Resolve;
    if stack != [] { AtEndLast(s, b[..out], IsAbs(s), stack); }
  }

  lemma AtEndLast(s: string, o: string, abs: bool, stack: seq<string>)
    requires abs == IsAbs(s) && stack == Resolve(s) && stack != [] && Normal(abs, stack)
    requires Text(abs, stack) == o || Text(abs, stack) == o + [SEP]
    ensures o != "" && Norm(s) == if |o| > 1 && o[|o| - 1] == SEP then o[..|o| - 1] else o
  {
    hide Resolve;
    JoinLast(stack);
    WrittenJoin(stack);
    hide Written, Join, Normal;
    var r := (if abs then [SEP] else "") + Join(stack);
    assert Text(abs, stack) == r + [SEP] && Norm(s) == r && r[|r| - 1] == Join(stack)[|Join(stack)| - 1];
    if Text(abs, stack) == o {
      assert o[..|o| - 1] == r;
    } else {
      assert (o + [SEP])[..|o|] == (r + [SEP])[..|r|];
    }
  }

  lemma ReadAt(s: string, b: string, inp: nat, out: nat, comps: seq<nat>, stack: seq<string>)
    requires At(s, b, inp, out, comps, stack)
    ensures Unread(s, b, inp) && out <= |b|
  {
  }

  /** The write position is not past the read position, but for a separator that is skipped next. */
  lemma AtOrder(s: string, b: string, inp: nat, out: nat, comps: seq<nat>, stack: seq<string>)
    requires At(s, b, inp, out, comps, stack) && (inp < |s| ==> s[inp] != SEP)
    ensures out <= inp <= |s|
  {
  }

  lemma ParentHere(s: string, inp: nat)
    requires inp + 1 < |s| && s[inp] == '.' && s[inp + 1] == '.' && (inp + 2 < |s| ==> s[inp + 2] == SEP)
    ensures ParentAt(s, inp)
  {
  }

  lemma NotDots(s: string, inp: nat, k: nat)
    requires inp <= k <= |s| && SEP !in s[inp..k] && (k < |s| ==> s[k] == SEP)
    requires inp + 1 < |s| ==> !(s[inp] == '.' && s[inp + 1] == '.' && (inp + 2 < |s| ==> s[inp + 2] == SEP))
    requires inp < |s| ==> !(s[inp] == '.' && (inp + 1 < |s| ==> s[inp + 1] == SEP))
    requires inp < |s| ==> s[inp] != SEP
    ensures s[inp..k] != "." && s[inp..k] != ".." && (k == inp ==> inp == |s|)
  {
    assert forall i :: 0 <= i < k - inp ==> s[inp..k][i] == s[inp + i];
  }

  // ---- the path object ----

  class Path {
    var str: array<char>
    /** The length of the string with its NUL. */
    var size: nat

    ghost predicate Valid()
      reads this, str
    {
      0 < size <= str.Length && str[size - 1] == NUL && NUL !in str[..size - 1]
    }

    function Contents(): string
      requires 0 < size <= str.Length
      reads this, str
    {
      str[..size - 1]
    }

    /** Makes room for cap bytes. */
    method Reserve(cap: nat)
      requires Valid()
      modifies this
      ensures Valid() && Contents() == old(Contents()) && size == old(size) && str.Length >= cap
      ensures fresh(str) || str == old(str)
    {
      if str.Length < cap {
        var bigger := new char[cap];
        forall i | 0 <= i < size { bigger[i] := str[i]; }
        assert bigger[..size - 1] == str[..size - 1];
        str := bigger;
      }
    }

    /** Copies one component, byte by byte, and the separator behind it. */
    method CopyComponent(ghost s: string, inp0: nat, out0: nat) returns (inp: nat, out: nat, ghost k: nat)
      requires NUL !in s && Unread(s, str[..], inp0) && out0 <= inp0
      modifies str
      ensures inp0 <= k <= |s| && SEP !in s[inp0..k] && (k < |s| ==> s[k] == SEP)
      ensures var end := if k < |s| then 1 else 0; inp == k + end && out == out0 + (k - inp0) + end
      ensures Unread(s, str[..], inp) && out <= inp
      ensures str[..out] == old(str[..out0]) + s[inp0..k] + if k < |s| then [SEP] else ""
    {
      inp, out := inp0, out0;
      while str[inp] != NUL && str[inp] != SEP
        invariant inp0 <= inp <= |s| && out == out0 + (inp - inp0) && Unread(s, str[..], inp)
        invariant SEP !in s[inp0..inp]
        invariant str[..out] == old(str[..out0]) + s[inp0..inp]
        decreases |s| - inp
      {
        assert str[..][inp] == s[inp];
        assert s[inp0..inp + 1] == s[inp0..inp] + [s[inp]];
        str[out] := str[inp];
        assert str[..out + 1] == str[..out] + [s[inp]];
        inp, out := inp + 1, out + 1;
      }
      k := inp;
      assert str[..][inp] == (s + [NUL])[inp];
      if str[inp] == SEP {
        str[out] := SEP;
        assert str[..out + 1] == str[..out] + [SEP];
        inp, out := inp + 1, out + 1;
      }
    }


    /** Writes a parent at out, where the input has one at inp. */
    method WriteParent(ghost s: string, inp: nat, out0: nat, ghost stack: seq<string>) returns (out: nat)
      requires Midway(s, false, inp, out0, [], stack) && ParentAt(s, inp)
      modifies str
      ensures Midway(s, false, inp + 2, out, [], stack + [".."])
    {
      hide At, IsAbs;
      ghost var b := str[..];
      ReadAt(s, b, inp, out0, [], stack);
      AtOrder(s, b, inp, out0, [], stack);
      out := out0;
      if out != inp {
        str[out] := '.';
        str[out + 1] := '.';
        str[out + 2] := SEP;
        out := out + 3;
        assert str[..out] == b[..out0] + ".." + [SEP];
      } else {
        out := out + 2 + if str[inp + 2] != NUL then 1 else 0;
        assert str[inp + 2] == (s + [NUL])[inp + 2];
        assert str[..out0 + 2] == b[..out0] + "..";
        assert inp + 2 < |s| ==> str[..out0 + 3] == b[..out0] + ".." + [SEP];
      }
      assert Unread(s, str[..], inp + 2);
      AtParentUp(s, b, str[..], inp, out0, out, stack);
    }

    ghost predicate Midway(s: string, isAbs: bool, inp: nat, out: nat, comps: seq<nat>, stack: seq<string>)
      reads this, str
    {
      NUL !in s && size == |s| + 1 <= str.Length && isAbs == IsAbs(s) && At(s, str[..], inp, out, comps, stack) &&
      out <= str.Length && NUL !in str[..out]
    }

    /** Skips the separators in front of a component. */
    method SkipSeparators(ghost s: string, inp0: nat, ghost out: nat, ghost comps: seq<nat>, ghost stack: seq<string>)
      returns (inp: nat)
      requires NUL !in s && size == |s| + 1 <= str.Length && At(s, str[..], inp0, out, comps, stack)
      ensures inp0 <= inp <= |s| && At(s, str[..], inp, out, comps, stack) && (inp < |s| ==> s[inp] != SEP)
    {
      hide At;
      ReadAt(s, str[..], inp0, out, comps, stack);
      inp := inp0;
      while str[inp] == SEP
        invariant inp0 <= inp <= |s| && At(s, str[..], inp, out, comps, stack)
        decreases |s| - inp
      {
        AtSep(s, str[..], inp, out, comps, stack);
        inp := inp + 1;
      }
    }

    /** One round of the loop: separators, then a component. */
    method StepOver(ghost s: string, isAbs: bool, inp0: nat, out0: nat, comps0: seq<nat>, ghost stack0: seq<string>)
      returns (inp: nat, out: nat, comps: seq<nat>, ghost stack: seq<string>)
      requires Midway(s, isAbs, inp0, out0, comps0, stack0) && inp0 < |s|
      modifies str
      ensures Midway(s, isAbs, inp, out, comps, stack) && inp0 < inp
    {
      hide At, ParentAt;
      out, comps, stack := out0, comps0, stack0;
      inp := SkipSeparators(s, inp0, out, comps, stack);
      ReadAt(s, str[..], inp, out, comps, stack);
      AtOrder(s, str[..], inp, out, comps, stack);
      if str[inp] == '.' && (str[inp + 1] == SEP || str[inp + 1] == NUL) {
        AtDot(s, str[..], inp, out, comps, stack);
        inp := inp + 1;
      } else if str[inp] == '.' && str[inp + 1] == '.' && (str[inp + 2] == SEP || str[inp + 2] == NUL) {
        ParentHere(s, inp);
        if comps != [] {
          AtParentPop(s, str[..], inp, out, comps, stack);
          out, comps, stack := comps[|comps| - 1], comps[..|comps| - 1], stack[..|stack| - 1];
        } else if !isAbs {
          out := WriteParent(s, inp, out, stack);
          stack := stack + [".."];
        } else {
          AtParentRoot(s, str[..], inp, out, stack);
        }
        inp := inp + 2;
      } else {
        ghost var b, k := str[..], inp;
        var inp', out';
        inp', out', k := CopyComponent(s, inp, out);
        NotDots(s, inp, k);
        assert forall c :: c in s[inp..k] ==> c in s;
        AtName(s, b, str[..], inp, out, k, comps, stack);
        comps, stack := comps + [out], if k == inp then stack else stack + [s[inp..k]];
        inp, out := inp', out';
      }
    }

    method Normalize()
      requires Valid()
      modifies this, str
      ensures Valid() && Contents() == Norm(old(Contents())) && (fresh(str) || str == old(str))
    {
      ghost var s := Contents();
      Reserve(2);
      assert Unread(s, str[..], 0);
      AtStart(s, str[..]);
      hide At, Norm;
      var isAbs := size > 1 && str[0] == SEP;
      var out: nat := if isAbs then 1 else 0;
      var comps: seq<nat>, inp: nat := [], out;
      ghost var stack: seq<string> := [];
      ReadAt(s, str[..], inp, out, comps, stack);
      ghost var arr := str;
      while str[inp] != NUL
        invariant str == arr && Midway(s, isAbs, inp, out, comps, stack) && inp <= |s|
        invariant str[inp] == (s + [NUL])[inp]
        decreases |s| - inp
      {
        inp, out, comps, stack := StepOver(s, isAbs, inp, out, comps, stack);
        ReadAt(s, str[..], inp, out, comps, stack);
      }
      AtOrder(s, str[..], inp, out, comps, stack);
      AtEnd(s, str[..], out, comps, stack);
      Finish(s, out);
    }

    /** Ends the output: a dot for nothing, no separator at the end but the root's, and the NUL. */
    method Finish(ghost s: string, out0: nat)
      requires NUL !in s && |s| < str.Length && 2 <= str.Length && out0 <= |s| && NUL !in str[..out0]
      requires out0 == 0 ==> Norm(s) == "."
      requires out0 > 0 ==> Norm(s) == if out0 > 1 && str[out0 - 1] == SEP then str[..out0 - 1] else str[..out0]
      modifies this, str
      ensures str == old(str) && Valid() && Contents() == Norm(s)
    {
      hide Norm;
      var out := out0;
      if out == 0 {
        str[out] := '.';
        out := out + 1;
      } else if out > 1 && str[out - 1] == SEP {
        out := out - 1;
      }
      ghost var b := str[..out];
      str[out] := NUL;
      out := out + 1;
      size := out;
      assert str[..size - 1] == b;
    }

    /** Replaces the path. */
    method Set(b: string)
      requires Valid() && NUL !in b
      modifies this, str
      ensures Valid() && Contents() == b && (fresh(str) || str == old(str))
    {
      Reserve(|b| + 1);
      size := |b| + 1;
      var i := 0;
      ghost var arr := str;
      while i < |b|
        invariant 0 <= i <= |b| < str.Length && size == |b| + 1 && str[..i] == b[..i]
        invariant str == arr
      {
        str[i] := b[i];
        i := i + 1;
      }
      str[|b|] := NUL;
      assert str[..size - 1] == b;
    }

    /** Appends b as further components; bLen may count its NUL. */
    method Append(b: string, bLen: nat)
      requires Valid() && NUL !in b && (bLen == |b| || (bLen == |b| + 1 && Contents() != "" && !IsAbs(b)))
      modifies this, str
      ensures Valid() && (fresh(str) || str == old(str))
      ensures Contents() == if bLen == 0 then old(Contents()) else Joined(old(Contents()), b)
    {
      var aLen := size - 1;
      if bLen == 0 {
        return;
      }
      if aLen == 0 || (|b| > 0 && b[0] == SEP) {
        Set(b);
        return;
      }
      ghost var a := Contents();
      Reserve(aLen + bLen + 2);
      var d := aLen;
      ghost var mid := a;
      if str[aLen - 1] != SEP {
        str[d] := SEP;
        d := d + 1;
        mid := a + [SEP];
      }
      assert str[..d] == mid;
      assert Joined(a, b) == mid + b;
      Copy(b, d, mid);
    }

    /** Copies a string to the end, with its NUL. */
    method Copy(b: string, d0: nat, ghost mid: string)
      requires NUL !in b && NUL !in mid && d0 + |b| < str.Length && str[..d0] == mid
      modifies this, str
      ensures str == old(str) && Valid() && Contents() == mid + b
    {
      var i, d := 0, d0;
      ghost var arr := str;
      while i < |b|
        invariant 0 <= i <= |b| && d == d0 + i && str == arr
        invariant str[..d] == mid + b[..i]
      {
        str[d] := b[i];
        assert str[..d + 1] == str[..d] + [b[i]];
        i, d := i + 1, d + 1;
      }
      assert b[..i] == b;
      str[d] := NUL;
      size := d + 1;
      assert str[..size - 1] == mid + b;
    }

    /** Makes the path absolute: what it resolves to from the directory cwd, in normal form. */
    method MakeAbsolute(cwd: string)
      requires Valid() && IsAbs(cwd) && NUL !in cwd
      modifies this, str
      ensures Valid() && (fresh(str) || str == old(str))
      ensures Contents() == Absolute(cwd, old(Contents()))
    {
      ghost var p := Contents();
      if size > 1 && str[0] == SEP {
        Normalize();
      } else {
        var n := size;
        var tmp := Contents();
        Set(cwd);
        Append(tmp, n);
        Normalize();
        JoinedResolves(cwd, p);
      }
    }
  }

  // ---- joining and resolving against a directory ----

  function Joined(a: string, b: string): string {
    if a == "" || IsAbs(b) then b
    else if a[|a| - 1] == SEP then a + b
    else a + [SEP] + b
  }

  /** A relative path resolves from where the directory does. */
  function Absolute(cwd: string, p: string): string {
    if IsAbs(p) then Norm(p) else Render(true, Fold(true, Resolve(cwd), Split(p)))
  }

  /** An absolute path replaces what it is joined onto, and any path an empty one. Otherwise the join, absolute or not,
      resolves from where the first path does; it is the one behind the other, with one separator between them. */
  lemma JoinedRight(a: string, b: string)
    ensures var j := Joined(a, b);
      if a == "" || IsAbs(b) then j == b else
        Resolve(j) == Fold(IsAbs(a), Resolve(a), Split(b)) && IsAbs(j) == IsAbs(a) &&
        a <= j && |j| > |b| && j[|j| - |b|..] == b && j[|j| - |b| - 1] == SEP &&
        |j| == |a| + |b| + (if a[|a| - 1] == SEP then 0 else 1)
  {
    hide Split, Fold;
    if a != "" && !IsAbs(b) {
      var n := |a| - 1;
      if a[n] == SEP {
        var c := a[..n];
        assert a == c + [SEP] + "" && Joined(a, b) == c + [SEP] + b;
        SplitAppend(c, "");
        SplitAppend(c, b);
        FoldAppend(IsAbs(a), [], Split(c), Split(""));
        FoldAppend(IsAbs(a), [], Split(c), Split(b));
        FoldEnd(IsAbs(a), Fold(IsAbs(a), [], Split(c)));
      } else {
        SplitAppend(a, b);
        FoldAppend(IsAbs(a), [], Split(a), Split(b));
      }
    }
  }

  function Under(a: string, c: string): string { a + [SEP] + c }

  /** What one more component does to a path: nothing for none and for a dot, a name goes deeper, and two dots undo the
      name, stay at the root, and are kept where a relative path leads above its start. */
  lemma OneMoreComponent(a: string, c: string)
    requires a != "" && SEP !in c
    ensures c == "" || c == "." ==> Resolve(Under(a, c)) == Resolve(a)
    ensures Name(c) && c != ".." ==>
      Resolve(Under(a, c)) == Resolve(a) + [c] && Resolve(Under(Under(a, c), "..")) == Resolve(a)
    ensures Resolve(a) == [] || Resolve(a)[|Resolve(a)| - 1] == ".." ==>
      Resolve(Under(a, "..")) == if IsAbs(a) then [] else Resolve(a) + [".."]
  {
    OneComponent(a, c);
    OneComponent(a, "..");
    OneComponent(Under(a, c), "..");
    ResolveNormal(a);
    hide Resolve;
    assert (Resolve(a) + [c])[..|Resolve(a)|] == Resolve(a);
  }

  lemma OneComponent(a: string, c: string)
    requires a != "" && SEP !in c
    ensures Resolve(Under(a, c)) == Step(IsAbs(a), Resolve(a), c) && IsAbs(Under(a, c)) == IsAbs(a)
    ensures Under(a, c) != ""
  {
    hide Split, Fold, Step;
    SplitAppend(a, c);
    SplitAt(c, "");
    FoldAppend(IsAbs(a), [], Split(a), [c]);
    FoldOne(IsAbs(a), Resolve(a), c);
  }

  lemma JoinedResolves(cwd: string, p: string)
    requires IsAbs(cwd) && !IsAbs(p)
    ensures Norm(Joined(cwd, p)) == Absolute(cwd, p)
  {
    JoinedRight(cwd, p);
  }

  /** An absolute path is in normal form, and making it absolute again from anywhere changes nothing. */
  lemma AbsoluteIsNormal(cwd: string, cwd': string, p: string)
    requires IsAbs(cwd)
    ensures var q := Absolute(cwd, p); IsAbs(q) && Norm(q) == q && Absolute(cwd', q) == q
  {
    hide Split, Fold, Resolve;
    if IsAbs(p) {
      NormIdempotent(p);
    } else {
      ResolveNormal(cwd);
      SplitHasNoSep(p);
      FoldNormal(true, Resolve(cwd), Split(p));
      ResolveRender(true, Fold(true, Resolve(cwd), Split(p)));
    }
  }
}
