/** Interning through the hash map: chains of objects whose hashes collide, new ones put in front. */
module Interning {
  import opened HashMap

  /** An interned object; next is the object that collided before it (its number plus one, or zero). */
  datatype Node<T> = Node(item: T, next: nat)

  /** Object i is in the chain that starts at pointer p. */
  ghost predicate InChain<T>(nodes: seq<Node<T>>, p: nat, i: nat)
    decreases p
  {
    0 < p <= |nodes| && (p == i + 1 || (nodes[p - 1].next < p && InChain(nodes, nodes[p - 1].next, i)))
  }

  /** Two requests that the table takes for the same: equal hashes, and equal by its comparison. */
  predicate Matches<T>(keyOf: T -> nat, same: (T, T) -> bool, x: T, y: T) {
    keyOf(x) == keyOf(y) && same(x, y)
  }

  ghost predicate Equivalence<T(!new)>(same: (T, T) -> bool) {
    (forall x :: same(x, x)) && (forall x, y :: same(x, y) ==> same(y, x)) &&
    (forall x, y, z :: same(x, y) && same(y, z) ==> same(x, z))
  }

  /** All objects of a chain have the hash k. */
  ghost predicate AllHash<T>(nodes: seq<Node<T>>, p: nat, keyOf: T -> nat, k: nat) {
    forall i: nat :: InChain(nodes, p, i) ==> i < |nodes| && keyOf(nodes[i].item) == k
  }

  /** Every object is found under its hash, and pointers lead to earlier objects. */
  ghost predicate Chained<T>(nodes: seq<Node<T>>, heads: map<nat, nat>, keyOf: T -> nat) {
    (forall k :: k in heads ==> 0 < heads[k] <= |nodes|) &&
    (forall k :: k in heads ==> AllHash(nodes, heads[k], keyOf, k)) &&
    (forall i :: 0 <= i < |nodes| ==> nodes[i].next <= i) &&
    (forall i :: 0 <= i < |nodes| ==> keyOf(nodes[i].item) in heads && InChain(nodes, heads[keyOf(nodes[i].item)], i))
  }

  /** No two objects match. */
  ghost predicate Unique<T>(nodes: seq<Node<T>>, keyOf: T -> nat, same: (T, T) -> bool) {
    forall i, j :: 0 <= i < j < |nodes| ==> !Matches(keyOf, same, nodes[i].item, nodes[j].item)
  }

  ghost predicate Canonical<T>(nodes: seq<Node<T>>, heads: map<nat, nat>, keyOf: T -> nat, same: (T, T) -> bool) {
    Chained(nodes, heads, keyOf) && Unique(nodes, keyOf, same)
  }

  lemma {:induction false} InChainGrows<T>(nodes: seq<Node<T>>, node: Node<T>, p: nat, i: nat)
    requires InChain(nodes, p, i)
    ensures InChain(nodes + [node], p, i)
    decreases p
  {
    if p != i + 1 { InChainGrows(nodes, node, nodes[p - 1].next, i); }
  }

  lemma {:induction false} InChainShrinks<T>(nodes: seq<Node<T>>, node: Node<T>, p: nat, i: nat)
    requires InChain(nodes + [node], p, i) && p <= |nodes|
    ensures InChain(nodes, p, i)
    decreases p
  {
    if p != i + 1 {
      assert (nodes + [node])[p - 1] == nodes[p - 1];
      InChainShrinks(nodes, node, nodes[p - 1].next, i);
    }
  }

  lemma {:induction false} InChainBound<T>(nodes: seq<Node<T>>, p: nat, i: nat)
    requires InChain(nodes, p, i)
    ensures i < p <= |nodes|
    decreases p
  {
    if p != i + 1 { InChainBound(nodes, nodes[p - 1].next, i); }
  }

  function HeadOf(heads: map<nat, nat>, k: nat): nat { if k in heads then heads[k] else 0 }

  /** A new object in front of its chain. */
  lemma {:induction false} AddChained<T>(nodes: seq<Node<T>>, heads: map<nat, nat>, keyOf: T -> nat, x: T)
    requires Chained(nodes, heads, keyOf)
    ensures Chained(nodes + [Node(x, HeadOf(heads, keyOf(x)))], heads[keyOf(x) := |nodes| + 1], keyOf)
  {
    var k0 := keyOf(x);
    var node := Node(x, HeadOf(heads, k0));
    var nodes', heads' := nodes + [node], heads[k0 := |nodes| + 1];
    assert nodes'[|nodes|] == node;
    forall i | 0 <= i < |nodes'|
      ensures keyOf(nodes'[i].item) in heads' && InChain(nodes', heads'[keyOf(nodes'[i].item)], i)
    {
      if i < |nodes| {
        assert nodes'[i] == nodes[i];
        InChainGrows(nodes, node, heads[keyOf(nodes[i].item)], i);
      }
    }
    forall k | k in heads' ensures AllHash(nodes', heads'[k], keyOf, k) {
      if k == k0 {
        if k0 in heads { AllHashGrows(nodes, node, heads[k0], keyOf, k); }
        assert forall i: nat :: InChain(nodes', |nodes| + 1, i) ==> i == |nodes| || InChain(nodes', node.next, i);
      } else {
        AllHashGrows(nodes, node, heads[k], keyOf, k);
      }
    }
    assert forall i :: 0 <= i < |nodes'| ==> nodes'[i].next <= i;
  }

  lemma AllHashGrows<T>(nodes: seq<Node<T>>, node: Node<T>, p: nat, keyOf: T -> nat, k: nat)
    requires AllHash(nodes, p, keyOf, k) && p <= |nodes|
    ensures AllHash(nodes + [node], p, keyOf, k)
  {
    forall i: nat | InChain(nodes + [node], p, i) ensures i < |nodes| && keyOf((nodes + [node])[i].item) == k {
      InChainShrinks(nodes, node, p, i);
    }
  }

  lemma AddUnique<T>(nodes: seq<Node<T>>, keyOf: T -> nat, same: (T, T) -> bool, node: Node<T>)
    requires Unique(nodes, keyOf, same)
    requires forall i :: 0 <= i < |nodes| ==> !Matches(keyOf, same, nodes[i].item, node.item)
    ensures Unique(nodes + [node], keyOf, same)
  {
    hide Matches;
  }

  /** A table that held no match stays canonical with the new object in it. */
  lemma AddKeeps<T>(nodes: seq<Node<T>>, heads: map<nat, nat>, keyOf: T -> nat, same: (T, T) -> bool, x: T)
    requires Canonical(nodes, heads, keyOf, same) && NoMatch(nodes, HeadOf(heads, keyOf(x)), same, x)
    ensures Canonical(nodes + [Node(x, HeadOf(heads, keyOf(x)))], heads[keyOf(x) := |nodes| + 1], keyOf, same)
  {
    AddChained(nodes, heads, keyOf, x);
    AddUnique(nodes, keyOf, same, Node(x, HeadOf(heads, keyOf(x))));
  }

  /** No object of the chain from p is the same as x. */
  ghost predicate NoMatch<T>(nodes: seq<Node<T>>, p: nat, same: (T, T) -> bool, x: T) {
    forall i :: 0 <= i < |nodes| && InChain(nodes, p, i) ==> !same(nodes[i].item, x)
  }

  /** What is left of the search after one node that is not the same. */
  lemma WalkOn<T>(nodes: seq<Node<T>>, p: nat, same: (T, T) -> bool, x: T)
    requires 0 < p <= |nodes| && nodes[p - 1].next < p && !same(nodes[p - 1].item, x)
    ensures NoMatch(nodes, p, same, x) <==> NoMatch(nodes, nodes[p - 1].next, same, x)
  {
    var q := nodes[p - 1].next;
    assert forall i: nat :: InChain(nodes, p, i) <==> p == i + 1 || InChain(nodes, q, i);
  }

  lemma EndOfChain<T>(nodes: seq<Node<T>>, same: (T, T) -> bool, x: T)
    ensures NoMatch(nodes, 0, same, x)
  {
  }

  lemma ChainStarts<T>(nodes: seq<Node<T>>, heads: map<nat, nat>, keyOf: T -> nat, same: (T, T) -> bool, k: nat)
    requires Canonical(nodes, heads, keyOf, same)
    ensures OnChain(nodes, HeadOf(heads, k), HeadOf(heads, k))
  {
    if k in heads { assert InChain(nodes, heads[k], heads[k] - 1); }
  }

  /** Where the walk of a chain is: an object with the right hash. */
  lemma OnChainObject<T>(nodes: seq<Node<T>>, heads: map<nat, nat>, keyOf: T -> nat, same: (T, T) -> bool, k: nat,
                         q: nat)
    requires Canonical(nodes, heads, keyOf, same) && k in heads && OnChain(nodes, heads[k], q) && q > 0
    ensures q <= |nodes| && keyOf(nodes[q - 1].item) == k && nodes[q - 1].next < q
    ensures OnChain(nodes, heads[k], nodes[q - 1].next)
  {
    InChainBound(nodes, heads[k], q - 1);
    assert keyOf(nodes[q - 1].item) == k;
    OnChainStep(nodes, heads[k], q);
  }

  lemma SelfMatch<T(!new)>(keyOf: T -> nat, same: (T, T) -> bool, x: T)
    requires Equivalence(same)
    ensures Matches(keyOf, same, x, x)
  {
  }

  /** The walk from p comes to q. */
  ghost predicate OnChain<T>(nodes: seq<Node<T>>, p: nat, q: nat) {
    q == 0 || InChain(nodes, p, q - 1)
  }

  lemma {:induction false} OnChainStep<T>(nodes: seq<Node<T>>, p: nat, q: nat)
    requires 0 < q <= |nodes| && InChain(nodes, p, q - 1) && nodes[q - 1].next < q
    ensures OnChain(nodes, p, nodes[q - 1].next)
    decreases p
  {
    var r := nodes[q - 1].next;
    if p == q {
      if r > 0 { assert InChain(nodes, r, r - 1); }
    } else {
      OnChainStep(nodes, nodes[p - 1].next, q);
    }
  }

  class InternTable<T(!new)> {
    const map_: HMap
    var nodes: seq<Node<T>>
    const keyOf: T -> nat
    const same: (T, T) -> bool

    ghost predicate Valid()
      reads this, map_, map_.entries
    {
      map_.Valid() && Canonical(nodes, map_.contents, keyOf, same)
    }

    constructor (capLog2: nat, keyOf: T -> nat, same: (T, T) -> bool, hash: nat -> nat)
      ensures Valid() && fresh(map_) && fresh(map_.entries) && nodes == []
      ensures this.keyOf == keyOf && this.same == same
    {
      map_ := new HMap(capLog2, hash);
      nodes := [];
      this.keyOf, this.same := keyOf, same;
    }

    /** Walks the chain in case of collision. */
    method FindObject(x: T, ghost key: nat, intern: nat) returns (found: nat)
      requires Canonical(nodes, map_.contents, keyOf, same) && key == keyOf(x) && intern == HeadOf(map_.contents, key)
      ensures found <= |nodes| && (if found == 0 then NoMatch(nodes, intern, same, x)
        else Matches(keyOf, same, nodes[found - 1].item, x))
    {
      hide Canonical, NoMatch, OnChain;
      ChainStarts(nodes, map_.contents, keyOf, same, key);
      found := intern;
      while found != 0
        invariant OnChain(nodes, intern, found) && (found > 0 ==> key in map_.contents)
        invariant NoMatch(nodes, intern, same, x) <==> NoMatch(nodes, found, same, x)
        decreases found
      {
        OnChainObject(nodes, map_.contents, keyOf, same, key, found);
        if same(nodes[found - 1].item, x) {
          return;
        }
        WalkOn(nodes, found, same, x);
        found := nodes[found - 1].next;
      }
      EndOfChain(nodes, same, x);
    }

    /** Returns the object for x: the one that matches, or a new one. */
    method Intern(x: T) returns (obj: nat)
      requires Valid() && Equivalence(same) && keyOf(x) != NULL_KEY
      modifies this, map_, map_.entries
      ensures Valid() && (fresh(map_.entries) || map_.entries == old(map_.entries))
      ensures obj < |nodes| && Matches(keyOf, same, nodes[obj].item, x)
      ensures old(nodes) <= nodes && |nodes| <= |old(nodes)| + 1
      ensures |nodes| > |old(nodes)| ==> obj == |old(nodes)| && nodes[obj].item == x
    {
      hide Canonical, Chained, Unique, Equivalence, NoMatch, OnChain;
      var key := keyOf(x);
      var pval := map_.Get(key);
      var intern: nat := match pval { case None => 0 case Some(p) => p };
      assert intern == HeadOf(map_.contents, key);
      ChainStarts(nodes, map_.contents, keyOf, same, key);
      var found := FindObject(x, key, intern);
      if found != 0 {
        return found - 1;
      }
      AddKeeps(nodes, map_.contents, keyOf, same, x);
      SelfMatch(keyOf, same, x);
      nodes := nodes + [Node(x, intern)];
      obj := |nodes| - 1;
      var slot := map_.Put(key, obj + 1);
    }

    /** Any sequence of requests: two of them get the same object exactly when they match. */
    method InternAll(xs: seq<T>) returns (objs: seq<nat>)
      requires Valid() && Equivalence(same) && forall i :: 0 <= i < |xs| ==> keyOf(xs[i]) != NULL_KEY
      modifies this, map_, map_.entries
      ensures Valid() && |objs| == |xs|
      ensures forall i, j :: 0 <= i < |xs| && 0 <= j < |xs| ==>
        (objs[i] == objs[j] <==> Matches(keyOf, same, xs[i], xs[j]))
    {
      hide Canonical, Equivalence, Matches;
      objs := [];
      var k := 0;
      while k < |xs|
        invariant 0 <= k <= |xs| && |objs| == k && Valid()
        invariant fresh(map_.entries) || map_.entries == old(map_.entries)
        invariant forall i :: 0 <= i < k ==> objs[i] < |nodes| && Matches(keyOf, same, nodes[objs[i]].item, xs[i])
      {
        ghost var before := nodes;
        var obj := Intern(xs[k]);
        assert forall i :: 0 <= i < |before| ==> nodes[i] == before[i];
        objs := objs + [obj];
        k := k + 1;
      }
      forall i, j | 0 <= i < |xs| && 0 <= j < |xs| ensures objs[i] == objs[j] <==> Matches(keyOf, same, xs[i], xs[j]) {
        OneObjectEach(nodes, map_.contents, keyOf, same, objs[i], objs[j], xs[i], xs[j]);
      }
    }
  }

  lemma MatchesThrough<T(!new)>(keyOf: T -> nat, same: (T, T) -> bool, p: T, x: T, y: T, q: T)
    requires Equivalence(same) && Matches(keyOf, same, p, x) && Matches(keyOf, same, q, y)
    ensures Matches(keyOf, same, x, y) ==> Matches(keyOf, same, p, q) && Matches(keyOf, same, q, p)
  {
    if same(x, y) {
      assert same(p, y) && same(y, q) && same(p, q) && same(q, p);
    }
  }

  /** In a canonical table two requests have one object exactly when they match. */
  lemma OneObjectEach<T(!new)>(nodes: seq<Node<T>>, heads: map<nat, nat>, keyOf: T -> nat, same: (T, T) -> bool,
                        a: nat, b: nat, x: T, y: T)
    requires Canonical(nodes, heads, keyOf, same) && Equivalence(same) && a < |nodes| && b < |nodes|
    requires Matches(keyOf, same, nodes[a].item, x) && Matches(keyOf, same, nodes[b].item, y)
    ensures a == b <==> Matches(keyOf, same, x, y)
  {
    var p, q := nodes[a].item, nodes[b].item;
    assert a == b ==> same(x, p) && same(p, y);
    MatchesThrough(keyOf, same, p, x, y, q);
    assert a < b ==> !Matches(keyOf, same, p, q);
    assert b < a ==> !Matches(keyOf, same, q, p);
  }

  // ---- what the tables of the compiler intern ----

  /** An array type by its element type and length. */
  datatype ArrayType = ArrayType(base: nat, len: nat)
  datatype ProcType = ProcType(params: seq<nat>, ret: nat, isVariadic: bool)
  /** An anonymous struct or union by the type and name of each field; structs and unions have tables of their own. */
  datatype AggregateType = AggregateType(fields: seq<(nat, nat)>)

  /** The comparison of procedure types, parameter by parameter. */
  method SameProc(t: ProcType, params: seq<nat>, ret: nat, isVariadic: bool) returns (r: bool)
    ensures r <==> t == ProcType(params, ret, isVariadic)
  {
    r := false;
    if t.isVariadic == isVariadic && |t.params| == |params| && t.ret == ret {
      var i := 0;
      while i < |params|
        invariant 0 <= i <= |params| && t.params[..i] == params[..i]
      {
        if t.params[i] != params[i] {
          return false;
        }
        i := i + 1;
      }
      assert t.params == t.params[..i] && params == params[..i];
      r := true;
    }
  }

  /** The comparison of aggregates, field by field. */
  method SameAggregate(t: AggregateType, fields: seq<(nat, nat)>) returns (r: bool)
    ensures r <==> t == AggregateType(fields)
  {
    r := false;
    if |t.fields| == |fields| {
      var i := 0;
      while i < |fields|
        invariant 0 <= i <= |fields| && t.fields[..i] == fields[..i]
      {
        if fields[i].0 != t.fields[i].0 || fields[i].1 != t.fields[i].1 {
          return false;
        }
        i := i + 1;
      }
      assert t.fields == t.fields[..i] && fields == fields[..i];
      r := true;
    }
  }

  /** When the comparison is equality, requests get one object exactly when they are equal, whatever the hash is. */
  lemma EqualRequests<T(!new)>(keyOf: T -> nat, same: (T, T) -> bool)
    requires forall x, y :: same(x, y) <==> x == y
    ensures Equivalence(same) && forall x, y :: Matches(keyOf, same, x, y) <==> x == y
  {
  }

  // ---- identifiers ----

  /** The bytes of a string up to its first NUL. */
  function UpToNul(s: seq<nat>): seq<nat> {
    if s == [] || s[0] == 0 then [] else [s[0]] + UpToNul(s[1..])
  }

  /** The bytes that may be looked at: num of them, or all when the string ends before. */
  function Front(s: seq<nat>, num: nat): seq<nat> { if num <= |s| then s[..num] else s }

  /** Compares at most num bytes, and stops at a NUL; a string that is shorter has one. */
  method CstrNcmp(a: seq<nat>, b: seq<nat>, num: nat) returns (equal: bool)
    requires (num <= |a| || 0 in a) && (num <= |b| || 0 in b)
    ensures equal <==> UpToNul(Front(a, num)) == UpToNul(Front(b, num))
  {
    if num == 0 {
      return true;
    }
    hide UpToNul, SameFrom, NulFrom;
    var i, left := 0, num - 1;
    ghost var s, t := Front(a, num), Front(b, num);
    SameFromStart(s, t);
    if num > |a| { NulStart(s); }
    if num > |b| { NulStart(t); }
    while a[i] == b[i] && a[i] != 0 && b[i] != 0 && left > 0
      invariant 0 <= i < num && i + left == num - 1 && i < |s| && i < |t|
      invariant (num <= |a| || NulFrom(s, i)) && (num <= |b| || NulFrom(t, i))
      invariant SameFrom(s, t, 0) <==> SameFrom(s, t, i)
      decreases left
    {
      SameFromNext(s, t, i);
      NulNext(s, i);
      NulNext(t, i);
      i, left := i + 1, left - 1;
    }
    equal := a[i] == b[i];
    SameFromNext(s, t, i);
    NulNext(s, i);
    NulNext(t, i);
  }

  /** A NUL is still to come. */
  predicate NulFrom(s: seq<nat>, i: nat) { exists k :: i <= k < |s| && s[k] == 0 }

  lemma NulStart(s: seq<nat>)
    requires 0 in s
    ensures NulFrom(s, 0)
  {
  }

  lemma NulNext(s: seq<nat>, i: nat)
    requires i < |s|
    ensures NulFrom(s, i) && s[i] != 0 ==> i + 1 < |s| && NulFrom(s, i + 1)
  {
  }

  ghost predicate SameFrom(s: seq<nat>, t: seq<nat>, i: nat) {
    i <= |s| && i <= |t| && UpToNul(s[i..]) == UpToNul(t[i..])
  }

  lemma SameFromStart(s: seq<nat>, t: seq<nat>)
    ensures SameFrom(s, t, 0) <==> UpToNul(s) == UpToNul(t)
  {
    assert s[0..] == s && t[0..] == t;
  }

  lemma SameFromNext(s: seq<nat>, t: seq<nat>, i: nat)
    requires i < |s| && i < |t|
    ensures SameFrom(s, t, i) <==> s[i] == t[i] && (s[i] != 0 ==> SameFrom(s, t, i + 1))
    ensures i + 1 == |s| == |t| ==> SameFrom(s, t, i + 1)
  {
    var s', t' := s[i..], t[i..];
    assert s'[1..] == s[i + 1..] && t'[1..] == t[i + 1..];
    if s[i] != 0 && t[i] != 0 {
      assert UpToNul(s')[1..] == UpToNul(s'[1..]) && UpToNul(t')[1..] == UpToNul(t'[1..]);
    }
  }

  /** How two identifiers are compared. */
  predicate SameIdent(a: seq<nat>, b: seq<nat>) {
    |a| == |b| && UpToNul(a) == UpToNul(b)
  }

  lemma {:induction false} UpToNulAll(s: seq<nat>)
    ensures UpToNul(s) == s <==> 0 !in s
  {
    if s != [] {
      UpToNulAll(s[1..]);
      if s[0] != 0 { assert s == [s[0]] + s[1..]; }
    }
  }

  /** For strings without NUL bytes the comparison is equality. */
  lemma SameIdentIsEquality(a: seq<nat>, b: seq<nat>)
    requires 0 !in a && 0 !in b
    ensures SameIdent(a, b) <==> a == b
  {
    UpToNulAll(a);
    UpToNulAll(b);
  }

  /** Identifiers without NUL bytes get one object exactly when they are equal, whatever the hash is. */
  lemma IdentRequests(keyOf: seq<nat> -> nat, a: seq<nat>, b: seq<nat>)
    requires 0 !in a && 0 !in b
    ensures Equivalence(SameIdent) && (Matches(keyOf, SameIdent, a, b) <==> a == b)
  {
    SameIdentIsEquality(a, b);
  }

  /** Past a NUL byte it is not. */
  lemma SameIdentPastNul(x: nat, y: nat)
    requires x != y
    ensures SameIdent([0, x], [0, y]) && [0, x] != [0, y]
  {
  }
}
