/** The cases of a switch statement: sorting them in place and rejecting overlaps. */
module SwitchCases {
  import opened Basics

  /** What a word counts as in comparisons. */
  function Key(isSigned: bool, w: Word): int {
    if isSigned && w >= TWO63 then w - TWO64 else w
  }

  /** For a signed switch a word counts as the number that it is the two's complement of; else as itself. */
  lemma KeyRight(x: int)
    requires -(TWO63 as int) <= x < TWO63
    ensures Key(true, x % TWO64) == x && forall w: Word :: Key(false, w) == w
  {
  }

  datatype CaseInfo = CaseInfo(start: Word, end: Word, isSigned: bool, index: nat) {
    function Lo(): int { Key(isSigned, start) }
    function Hi(): int { Key(isSigned, end) }
    predicate Contains(k: int) { Lo() <= k <= Hi() }
  }

  predicate Disjoint(a: CaseInfo, b: CaseInfo) { a.Hi() < b.Lo() || b.Hi() < a.Lo() }

  ghost predicate SortedBetween(s: seq<CaseInfo>, lo: int, hi: int)
    requires 0 <= lo <= hi + 1 <= |s|
  {
    forall i, j :: lo <= i < j <= hi ==> s[i].Lo() <= s[j].Lo()
  }

  ghost predicate PairwiseDisjoint(s: seq<CaseInfo>) {
    forall i, j :: 0 <= i < j < |s| ==> Disjoint(s[i], s[j])
  }

  /** All cases have the sign of the switch, and a start not past the end. */
  ghost predicate Ranges(s: seq<CaseInfo>, isSigned: bool) {
    forall k :: 0 <= k < |s| ==> s[k].isSigned == isSigned && s[k].Lo() <= s[k].Hi()
  }

  method SwapCase(cases: array<CaseInfo>, i: nat, j: nat)
    requires i < cases.Length && j < cases.Length
    modifies cases
    ensures cases[i] == old(cases[j]) && cases[j] == old(cases[i])
    ensures forall k :: 0 <= k < cases.Length && k != i && k != j ==> cases[k] == old(cases[k])
    ensures multiset(cases[..]) == multiset(old(cases[..]))
  {
    var tmp := cases[i];
    cases[i] := cases[j];
    cases[j] := tmp;
  }

  /** The elements of [lo, hi] have the sign, and starts between a and b. */
  ghost predicate Within(cases: array<CaseInfo>, lo: int, hi: int, isSigned: bool, a: int, b: int)
    reads cases
  {
    forall k :: 0 <= k < cases.Length && lo <= k <= hi ==> cases[k].isSigned == isSigned && a <= cases[k].Lo() <= b
  }

  /** Partitions [lo, hi] around its middle element. */
  method PartitionCases(cases: array<CaseInfo>, lo: nat, hi: nat, ghost isSigned: bool, ghost a: int, ghost b: int)
    returns (i: nat)
    requires lo < hi < cases.Length && Within(cases, lo, hi, isSigned, a, b)
    modifies cases
    ensures lo <= i <= hi
    ensures multiset(cases[..]) == multiset(old(cases[..]))
    ensures forall k :: 0 <= k < cases.Length && (k < lo || hi < k) ==> cases[k] == old(cases[k])
    ensures cases[i].isSigned == isSigned && a <= cases[i].Lo() <= b
    ensures Within(cases, lo, i - 1, isSigned, a, cases[i].Lo())
    ensures Within(cases, i + 1, hi, isSigned, cases[i].Lo(), b)
  {
    var mid := lo + (hi - lo) / 2;
    SwapCase(cases, mid, hi);
    i := MoveSmaller(cases, lo, hi, isSigned, a, b);
    SwapCase(cases, hi, i);
  }

  /** Moves the elements of [lo, hi) that start no later than the pivot, which is at hi, to the front. */
  method MoveSmaller(cases: array<CaseInfo>, lo: nat, hi: nat, ghost isSigned: bool, ghost a: int, ghost b: int)
    returns (i: nat)
    requires lo < hi < cases.Length && Within(cases, lo, hi, isSigned, a, b)
    modifies cases
    ensures lo <= i <= hi && cases[hi] == old(cases[hi])
    ensures multiset(cases[..]) == multiset(old(cases[..]))
    ensures forall k :: 0 <= k < cases.Length && (k < lo || hi < k) ==> cases[k] == old(cases[k])
    ensures Within(cases, lo, hi, isSigned, a, b)
    ensures Within(cases, lo, i - 1, isSigned, a, cases[hi].Lo())
    ensures Within(cases, i, hi, isSigned, cases[hi].Lo(), b)
  {
    hide Key, CaseInfo.Lo;
    ghost var before := multiset(cases[..]);
    var pivot := cases[hi];
    i := lo;
    var j := lo;
    while j < hi
      invariant lo <= i <= j <= hi && cases[hi] == pivot
      invariant multiset(cases[..]) == before
      invariant forall k :: 0 <= k < cases.Length && (k < lo || hi < k) ==> cases[k] == old(cases[k])
      invariant Within(cases, lo, hi, isSigned, a, b)
      invariant forall k :: lo <= k < i ==> cases[k].Lo() <= pivot.Lo()
      invariant forall k :: i <= k < j ==> cases[k].Lo() > pivot.Lo()
    {
      var c := cases[j];
      StartsNoLater(c, pivot);
      if Key(pivot.isSigned, c.start) <= Key(pivot.isSigned, pivot.start) {
        SwapCase(cases, j, i);
        i := i + 1;
      }
      j := j + 1;
    }
  }

  lemma StartsNoLater(c: CaseInfo, d: CaseInfo)
    requires c.isSigned == d.isSigned
    ensures c.Lo() <= d.Lo() <==> Key(d.isSigned, c.start) <= Key(d.isSigned, d.start)
  {
  }

  /** Quicksort of [lo, hi] by start. */
  method QsortCases(cases: array<CaseInfo>, lo: int, hi: int, ghost isSigned: bool, ghost a: int, ghost b: int)
    requires 0 <= lo <= hi + 1 <= cases.Length && Within(cases, lo, hi, isSigned, a, b)
    modifies cases
    ensures multiset(cases[..]) == multiset(old(cases[..]))
    ensures forall k :: 0 <= k < cases.Length && (k < lo || hi < k) ==> cases[k] == old(cases[k])
    ensures Within(cases, lo, hi, isSigned, a, b)
    ensures forall i, j :: lo <= i < j <= hi ==> cases[i].Lo() <= cases[j].Lo()
    decreases hi - lo
  {
    if lo < 0 || lo >= hi {
      return;
    }
    var pivot: int := PartitionCases(cases, lo, hi, isSigned, a, b);
    ghost var p := cases[pivot];
    QsortCases(cases, lo, pivot - 1, isSigned, a, p.Lo());
    QsortCases(cases, pivot + 1, hi, isSigned, p.Lo(), b);
    assert cases[pivot] == p;
    SortedJoin(cases, lo, pivot, hi, isSigned, a, b);
  }

  /** Sorted parts on either side of an element that separates them. */
  lemma SortedJoin(cases: array<CaseInfo>, lo: int, pivot: int, hi: int, isSigned: bool, a: int, b: int)
    requires 0 <= lo <= pivot <= hi < cases.Length
    requires cases[pivot].isSigned == isSigned && a <= cases[pivot].Lo() <= b
    requires Within(cases, lo, pivot - 1, isSigned, a, cases[pivot].Lo()) &&
      Within(cases, pivot + 1, hi, isSigned, cases[pivot].Lo(), b)
    requires forall i, j :: lo <= i < j <= pivot - 1 ==> cases[i].Lo() <= cases[j].Lo()
    requires forall i, j :: pivot + 1 <= i < j <= hi ==> cases[i].Lo() <= cases[j].Lo()
    ensures Within(cases, lo, hi, isSigned, a, b)
    ensures forall i, j :: lo <= i < j <= hi ==> cases[i].Lo() <= cases[j].Lo()
  {
    hide Key, CaseInfo.Lo;
  }

  /** Scans sorted cases for overlaps, against the case with the largest end so far. */
  method CheckOverlaps(cases: array<CaseInfo>, ghost isSigned: bool) returns (ok: bool)
    requires Ranges(cases[..], isSigned) && SortedBetween(cases[..], 0, cases.Length - 1)
    ensures ok <==> PairwiseDisjoint(cases[..])
  {
    ok := true;
    if cases.Length > 0 {
      var prev := 0;
      var i := 1;
      ghost var s := cases[..];
      while i < cases.Length
        invariant 0 <= prev < i <= cases.Length
        invariant forall j, k :: 0 <= j < k < i ==> Disjoint(s[j], s[k])
        invariant forall k :: 0 <= k < i ==> s[k].Hi() <= s[prev].Hi()
      {
        assert s[i].isSigned == isSigned && s[prev].isSigned == isSigned;
        if Key(cases[i].isSigned, cases[i].start) <= Key(cases[i].isSigned, cases[prev].end) {
          assert !Disjoint(s[prev], s[i]);
          return false;
        }
        if Key(cases[i].isSigned, cases[i].end) > Key(cases[i].isSigned, cases[prev].end) {
          prev := i;
        }
        i := i + 1;
      }
    }
  }

  /** Whether cases overlap does not depend on their order. */
  lemma {:induction false} DisjointPermuted(s: seq<CaseInfo>, t: seq<CaseInfo>)
    requires multiset(s) == multiset(t) && PairwiseDisjoint(s)
    requires forall k :: 0 <= k < |s| ==> s[k].Lo() <= s[k].Hi()
    ensures PairwiseDisjoint(t)
  {
    forall i, j | 0 <= i < j < |t| ensures Disjoint(t[i], t[j]) {
      if t[i] == t[j] {
        TwiceIn(t, i, j);
        var k, l := TwoIndices(s, t[i]);
        assert false;
      } else {
        assert t[i] in multiset(t) && t[j] in multiset(t);
        assert t[i] in s && t[j] in s;
        var k :| 0 <= k < |s| && s[k] == t[i];
        var l :| 0 <= l < |s| && s[l] == t[j];
      }
    }
  }

  lemma TwiceIn(t: seq<CaseInfo>, i: nat, j: nat)
    requires i < j < |t| && t[i] == t[j]
    ensures multiset(t)[t[i]] >= 2
  {
    assert t == t[..j] + t[j..];
    assert t[..j][i] == t[i] && t[j..][0] == t[j];
    assert multiset(t)[t[i]] == multiset(t[..j])[t[i]] + multiset(t[j..])[t[i]];
  }

  lemma {:induction false} TwoIndices(s: seq<CaseInfo>, x: CaseInfo) returns (k: nat, l: nat)
    requires multiset(s)[x] >= 2
    ensures k < l < |s| && s[k] == x && s[l] == x
  {
    var i :| 0 <= i < |s| && s[i] == x;
    var rest := s[..i] + s[i + 1..];
    assert s == s[..i] + [x] + s[i + 1..];
    assert multiset(s) == multiset(rest) + multiset{x};
    assert x in rest;
    var j :| 0 <= j < |rest| && rest[j] == x;
    if j < i { k, l := j, i; } else { k, l := i, j + 1; }
  }

  /** Sorts the cases and accepts them exactly when no two of them overlap. */
  method AcceptCases(cases: array<CaseInfo>, isSigned: bool) returns (ok: bool)
    requires Ranges(cases[..], isSigned)
    modifies cases
    ensures multiset(cases[..]) == multiset(old(cases[..])) && SortedBetween(cases[..], 0, cases.Length - 1)
    ensures Ranges(cases[..], isSigned)
    ensures ok <==> PairwiseDisjoint(old(cases[..]))
    ensures ok <==> PairwiseDisjoint(cases[..])
  {
    ghost var s := cases[..];
    QsortCases(cases, 0, cases.Length - 1, isSigned, -TWO63, TWO64);
    ghost var t := cases[..];
    forall k | 0 <= k < |t| ensures t[k].isSigned == isSigned && t[k].Lo() <= t[k].Hi() {
      assert t[k] in multiset(t);
      assert t[k] in s;
    }
    ok := CheckOverlaps(cases, isSigned);
    if PairwiseDisjoint(s) { DisjointPermuted(s, t); }
    if PairwiseDisjoint(t) { DisjointPermuted(t, s); }
  }
}
