/** Choosing the case of a switch: by binary search when the value is known at compile time, by
    subtraction, one unsigned comparison and a table of 32-bit ranges at run time. */
module SwitchDispatch {
  import opened Basics
  import opened SwitchCases

  /** Case idx is the one for the key; the number of cases stands for the default. */
  ghost predicate Chosen(infos: seq<CaseInfo>, key: int, idx: nat) {
    idx <= |infos| &&
    (forall k :: 0 <= k < |infos| && k != idx ==> !infos[k].Contains(key)) &&
    (idx < |infos| ==> infos[idx].Contains(key))
  }

  lemma ChosenOnce(infos: seq<CaseInfo>, key: int, i: nat, j: nat)
    requires Chosen(infos, key, i) && Chosen(infos, key, j)
    ensures i == j
  {
    if i < |infos| { assert infos[i].Contains(key); }
    if j < |infos| { assert infos[j].Contains(key); }
  }

  /** What the resolver has accepted: sorted, disjoint ranges of one sign. */
  ghost predicate Accepted(infos: seq<CaseInfo>, isSigned: bool) {
    Ranges(infos, isSigned) && SortedBetween(infos, 0, |infos| - 1) && PairwiseDisjoint(infos)
  }

  lemma InOrder(infos: seq<CaseInfo>, isSigned: bool)
    requires Accepted(infos, isSigned)
    ensures forall i, j :: 0 <= i < j < |infos| ==> infos[i].Hi() < infos[j].Lo()
  {
    forall i, j | 0 <= i < j < |infos| ensures infos[i].Hi() < infos[j].Lo() {
      assert Disjoint(infos[i], infos[j]) && infos[i].Lo() <= infos[j].Lo();
    }
  }

  /** Compile time: binary search over the sorted ranges. */
  method FindCase(infos: seq<CaseInfo>, isSigned: bool, val: Word) returns (target: nat)
    requires Accepted(infos, isSigned)
    ensures Chosen(infos, Key(isSigned, val), target)
  {
    InOrder(infos, isSigned);
    var lo, hi := 0, |infos| - 1;
    while lo <= hi
      invariant 0 <= lo <= hi + 1 <= |infos|
      invariant forall k :: 0 <= k < lo ==> infos[k].Hi() < Key(isSigned, val)
      invariant forall k :: hi < k < |infos| ==> Key(isSigned, val) < infos[k].Lo()
      decreases hi - lo
    {
      var mid := lo + (hi - lo) / 2;
      assert infos[mid].isSigned == isSigned;
      if Key(isSigned, val) >= Key(isSigned, infos[mid].start) && Key(isSigned, val) <= Key(isSigned, infos[mid].end) {
        return mid;
      }
      if Key(isSigned, val) < Key(isSigned, infos[mid].start) {
        hi := mid - 1;
      } else {
        lo := mid + 1;
      }
    }
    target := |infos|;
  }

  /** A normalized range of the table. */
  datatype CaseRange = CaseRange(start: nat, end: nat)

  /** The run-time form: the value to subtract, the largest normalized value, and the table. */
  datatype Dispatch = Dispatch(sub: Word, max: Word, ranges: seq<CaseRange>)

  /** 64-bit subtraction, which wraps. */
  function Minus(a: Word, b: Word): Word { (a - b) % TWO64 }

  method BuildDispatch(infos: seq<CaseInfo>) returns (d: Dispatch)
    requires |infos| > 0
    ensures d == DispatchOf(infos)
  {
    var minVal := infos[0].start;
    var maxVal := infos[|infos| - 1].end;
    var ranges := [];
    var i := 0;
    while i < |infos|
      invariant 0 <= i <= |infos| && ranges == DispatchOf(infos).ranges[..i]
    {
      ranges := ranges + [CaseRange(Minus(infos[i].start, minVal) % TWO32, Minus(infos[i].end, minVal) % TWO32)];
      i := i + 1;
    }
    if minVal != 0 {
      maxVal := Minus(maxVal, minVal);
    }
    d := Dispatch(minVal, maxVal, ranges);
  }

  function DispatchOf(infos: seq<CaseInfo>): Dispatch
    requires |infos| > 0
  {
    var minVal := infos[0].start;
    Dispatch(minVal, Minus(infos[|infos| - 1].end, minVal),
             seq(|infos|, i requires 0 <= i < |infos| =>
               CaseRange(Minus(infos[i].start, minVal) % TWO32, Minus(infos[i].end, minVal) % TWO32)))
  }

  /** The table jump: the first range that holds the value, else the last target. */
  function TableTarget(ranges: seq<CaseRange>, val: nat): (t: nat)
    ensures t <= |ranges|
    ensures forall k :: 0 <= k < t ==> !(ranges[k].start <= val <= ranges[k].end)
    ensures t < |ranges| ==> ranges[t].start <= val <= ranges[t].end
  {
    if ranges == [] then 0
    else if ranges[0].start <= val <= ranges[0].end then 0
    else 1 + TableTarget(ranges[1..], val)
  }

  /** Running the emitted code: subtract, compare unsigned, then the table. */
  function RunDispatch(d: Dispatch, val: Word): nat {
    var v := if d.sub != 0 then Minus(val, d.sub) else val;
    if v > d.max then |d.ranges| else TableTarget(d.ranges, v)
  }

  function Span(infos: seq<CaseInfo>): int
    requires |infos| > 0
  {
    infos[|infos| - 1].Hi() - infos[0].Lo()
  }

  /** Subtraction normalizes: keys at or above the least case keep their distance, keys below it wrap
      to something past every case. */
  lemma MinusKeys(isSigned: bool, a: Word, b: Word, c: Word)
    requires Key(isSigned, b) <= Key(isSigned, c)
    ensures Key(isSigned, a) >= Key(isSigned, b) ==> Minus(a, b) == Key(isSigned, a) - Key(isSigned, b)
    ensures Key(isSigned, a) < Key(isSigned, b) ==> Minus(a, b) > Key(isSigned, c) - Key(isSigned, b)
  {
    var x := Key(isSigned, a) - Key(isSigned, b);
    assert a - b == x || a - b == x + TWO64 || a - b == x - TWO64;
    if x >= 0 {
      assert (a - b) % TWO64 == x;
    } else {
      assert (a - b) % TWO64 == x + TWO64;
    }
  }

  /** The normalized table of accepted cases with a span below 2^32 holds the exact distances. */
  lemma RangeExact(infos: seq<CaseInfo>, isSigned: bool, k: nat)
    requires k < |infos| && Accepted(infos, isSigned) && Span(infos) < TWO32
    ensures DispatchOf(infos).ranges[k] == CaseRange(infos[k].Lo() - infos[0].Lo(), infos[k].Hi() - infos[0].Lo())
  {
    InOrder(infos, isSigned);
    Distances(infos, isSigned, k);
    hide Minus, Key;
    assert infos[0].Lo() <= infos[k].Lo() <= infos[k].Hi() <= infos[|infos| - 1].Hi();
  }

  /** Without truncation the table holds the distances of the cases from the least one. */
  lemma Distances(infos: seq<CaseInfo>, isSigned: bool, k: nat)
    requires k < |infos| && Accepted(infos, isSigned)
    ensures Minus(infos[k].start, infos[0].start) == infos[k].Lo() - infos[0].Lo()
    ensures Minus(infos[k].end, infos[0].start) == infos[k].Hi() - infos[0].Lo()
  {
    InOrder(infos, isSigned);
    assert infos[0].isSigned == isSigned && infos[k].isSigned == isSigned;
    assert infos[0].Lo() <= infos[k].Lo() <= infos[k].Hi();
    MinusKeys(isSigned, infos[k].start, infos[0].start, infos[0].start);
    MinusKeys(isSigned, infos[k].end, infos[0].start, infos[0].start);
  }

  /** In any case the table has one range for each case, with the distances from the least case modulo 2^32. */
  lemma RangesTruncated(infos: seq<CaseInfo>, isSigned: bool)
    requires |infos| > 0 && Accepted(infos, isSigned)
    ensures var d := DispatchOf(infos);
      |d.ranges| == |infos| && d.max == Span(infos) && Key(isSigned, d.sub) == infos[0].Lo() &&
      forall k :: 0 <= k < |infos| ==>
        d.ranges[k] == CaseRange((infos[k].Lo() - infos[0].Lo()) % TWO32, (infos[k].Hi() - infos[0].Lo()) % TWO32)
  {
    forall k | 0 <= k < |infos|
      ensures Minus(infos[k].start, infos[0].start) == infos[k].Lo() - infos[0].Lo() &&
        Minus(infos[k].end, infos[0].start) == infos[k].Hi() - infos[0].Lo() { Distances(infos, isSigned, k); }
    hide Minus, Key;
  }

  /** With a span below 2^32 the run-time form chooses the right case for every value. */
  lemma DispatchRight(infos: seq<CaseInfo>, isSigned: bool, val: Word)
    requires |infos| > 0 && Accepted(infos, isSigned) && Span(infos) < TWO32
    ensures Chosen(infos, Key(isSigned, val), RunDispatch(DispatchOf(infos), val))
  {
    var d := DispatchOf(infos);
    var key, base := Key(isSigned, val), infos[0].Lo();
    Normalized(infos, isSigned, val);
    forall k | 0 <= k < |infos|
      ensures infos[k].Contains(key) <==> base <= key && d.ranges[k].start <= key - base <= d.ranges[k].end {
      RangeExact(infos, isSigned, k);
    }
    InOrder(infos, isSigned);
    hide Key, Minus, CaseInfo.Lo, CaseInfo.Hi;
    var t := RunDispatch(d, val);
    if t < |infos| {
      assert infos[t].Contains(key);
      forall k | 0 <= k < |infos| && k != t ensures !infos[k].Contains(key) {}
    }
  }

  /** The subtraction gives the distance from the least case, or something past every case. */
  lemma Normalized(infos: seq<CaseInfo>, isSigned: bool, val: Word)
    requires |infos| > 0 && Accepted(infos, isSigned) && Span(infos) < TWO32
    ensures var d := DispatchOf(infos);
            var v := if d.sub != 0 then Minus(val, d.sub) else val;
            var key, base := Key(isSigned, val), infos[0].Lo();
            d.max == Span(infos) && (key >= base ==> v == key - base) && (key < base ==> v > d.max)
  {
    var n := |infos| - 1;
    assert infos[0].isSigned == isSigned && infos[n].isSigned == isSigned;
    InOrder(infos, isSigned);
    assert infos[0].Lo() <= infos[n].Hi();
    assert Minus(val, 0) == val;
    MinusKeys(isSigned, val, infos[0].start, infos[n].end);
    MinusKeys(isSigned, infos[n].end, infos[0].start, infos[n].end);
  }

  /** The two forms agree on every value exactly when the span fits 32 bits. */
  lemma DispatchRightIff(infos: seq<CaseInfo>, isSigned: bool)
    requires |infos| > 0 && Accepted(infos, isSigned)
    ensures (forall val: Word :: Chosen(infos, Key(isSigned, val), RunDispatch(DispatchOf(infos), val))) <==>
      Span(infos) < TWO32
  {
    if Span(infos) < TWO32 {
      forall val: Word ensures Chosen(infos, Key(isSigned, val), RunDispatch(DispatchOf(infos), val)) {
        DispatchRight(infos, isSigned, val);
      }
    } else {
      var n := |infos| - 1;
      var val := infos[n].end;
      assert infos[0].isSigned == isSigned && infos[n].isSigned == isSigned;
      MinusKeys(isSigned, val, infos[0].start, val);
      assert Minus(val, 0) == val;
      var d := DispatchOf(infos);
      assert forall k :: 0 <= k < |d.ranges| ==> d.ranges[k].end < TWO32;
      assert RunDispatch(d, val) == |infos|;
      assert infos[n].Contains(Key(isSigned, val));
      assert !Chosen(infos, Key(isSigned, val), RunDispatch(d, val));
    }
  }

  /** From the cases as written to the case that runs: sort, reject overlaps, then both ways of choosing
      give the one case that contains the value, or the default. */
  method ChooseCase(cases: array<CaseInfo>, isSigned: bool, val: Word)
    returns (ok: bool, compileTime: nat, runTime: nat)
    requires Ranges(cases[..], isSigned) && cases.Length > 0
    modifies cases
    ensures ok <==> PairwiseDisjoint(old(cases[..]))
    ensures multiset(cases[..]) == multiset(old(cases[..]))
    ensures ok ==> Chosen(cases[..], Key(isSigned, val), compileTime)
    ensures ok && Span(cases[..]) < TWO32 ==> runTime == compileTime
  {
    compileTime, runTime := 0, 0;
    ok := AcceptCases(cases, isSigned);
    if ok {
      var infos := cases[..];
      compileTime := FindCase(infos, isSigned, val);
      var d := BuildDispatch(infos);
      runTime := RunDispatch(d, val);
      if Span(infos) < TWO32 {
        DispatchRight(infos, isSigned, val);
        ChosenOnce(infos, Key(isSigned, val), compileTime, runTime);
      }
    }
  }
}
