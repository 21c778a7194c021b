/** The linked lists of short-circuit jumps: their nodes and freelist as the procedure builder keeps them,
    the operations on them, and what the loop that removes opposite jumps leaves of a list. */
module ScJmpLists {
  import opened Basics
  import opened ShortCircuitIR
  import opened ShortCircuitProof

  datatype Node = Node(sc: ScJmp, next: Option<nat>)

  /** The memory of the nodes; a pointer to a node is its place. */
  datatype Heap = Heap(nodes: seq<Node>, freelist: Option<nat>)

  datatype JmpList = JmpList(first: Option<nat>, last: Option<nat>)

  const EMPTY_LIST := JmpList(None, None)

  // ---- the operations ----

  function SetNext(nodes: seq<Node>, n: Option<nat>, next: Option<nat>): seq<Node> {
    if n.Some? && n.value < |nodes| then nodes[n.value := nodes[n.value].(next := next)] else nodes
  }

  /** A new node is the first free one, if there is any. */
  function NewPlace(h: Heap): nat {
    if h.freelist.Some? then h.freelist.value else |h.nodes|
  }

  /** Appends a jump to a list. */
  function NewScJmp(h: Heap, l: JmpList, sc: ScJmp): (Heap, JmpList) {
    var n := NewPlace(h);
    var taken := n < |h.nodes|;
    var nodes := if taken then h.nodes[n := Node(sc, None)] else h.nodes + [Node(sc, None)];
    (Heap(SetNext(nodes, l.last, Some(n)), if taken then h.nodes[n].next else None),
     JmpList(if l.last.Some? then l.first else Some(n), Some(n)))
  }

  /** Unlinks node n, whose predecessor in the list is said to be prev, and puts it on the freelist. */
  function DelScJmp(h: Heap, l: JmpList, prev: Option<nat>, n: nat): (Heap, JmpList)
    requires n < |h.nodes|
  {
    var next := h.nodes[n].next;
    var nodes := SetNext(h.nodes, prev, next);
    (Heap(SetNext(nodes, Some(n), h.freelist), Some(n)),
     JmpList(if prev.Some? then l.first else next, if l.last == Some(n) then prev else l.last))
  }

  /** Moves the list src to the end of the list dst. */
  function MovScJmps(h: Heap, dst: JmpList, src: JmpList): (Heap, JmpList) {
    if dst.first.None? then (h, src)
    else if src.first.Some? then (h.(nodes := SetNext(h.nodes, dst.last, src.first)), JmpList(dst.first, src.last))
    else (h, dst)
  }

  // ---- what a list holds ----

  /** The nodes reached from head along next are exactly s. */
  ghost predicate Chain(nodes: seq<Node>, head: Option<nat>, s: seq<nat>)
    decreases s
  {
    if s == [] then head == None
    else head == Some(s[0]) && s[0] < |nodes| && Chain(nodes, nodes[s[0]].next, s[1..])
  }

  ghost predicate Distinct(s: seq<nat>) {
    forall i, j :: 0 <= i < j < |s| ==> s[i] != s[j]
  }

  ghost function Elems(s: seq<nat>): set<nat> { set n | n in s }

  function JmpOf(nodes: seq<Node>, n: nat): ScJmp {
    if n < |nodes| then nodes[n].sc else ScJmp(false, Loc(0, 0), Loc(0, 0))
  }

  /** The jumps of the nodes s, in order. */
  function Jmps(nodes: seq<Node>, s: seq<nat>): seq<ScJmp> {
    seq(|s|, k requires 0 <= k < |s| => JmpOf(nodes, s[k]))
  }

  ghost predicate IsList(nodes: seq<Node>, l: JmpList, s: seq<nat>) {
    Chain(nodes, l.first, s) && Distinct(s) && l.last == if s == [] then None else Some(s[|s| - 1])
  }

  /** The links of the nodes in c stay in c. */
  ghost predicate Sealed(nodes: seq<Node>, c: set<nat>) {
    forall n :: n in c ==> n < |nodes| && (nodes[n].next.Some? ==> nodes[n].next.value in c)
  }

  /** The freelist is f, and apart from the nodes in use. */
  ghost predicate Tidy(h: Heap, f: seq<nat>, used: set<nat>) {
    Chain(h.nodes, h.freelist, f) && Distinct(f) && (forall n :: n in f ==> n !in used) && Sealed(h.nodes, used)
  }

  ghost predicate Untouched(nodes: seq<Node>, nodes': seq<Node>, c: set<nat>) {
    |nodes| <= |nodes'| && forall n :: n in c && n < |nodes| ==> nodes'[n] == nodes[n]
  }

  lemma {:induction false} ChainAt(nodes: seq<Node>, head: Option<nat>, s: seq<nat>, k: nat)
    requires Chain(nodes, head, s) && k < |s|
    ensures Linked(nodes, s, k, None) && head == Some(s[0])
    decreases s
  {
    if k > 0 {
      ChainAt(nodes, nodes[s[0]].next, s[1..], k - 1);
    } else if |s| > 1 {
      assert Chain(nodes, nodes[s[0]].next, s[1..]) && s[1..] != [];
    }
  }

  /** The k-th node leads to the next one, and the last node to tail. */
  ghost predicate Linked(nodes: seq<Node>, s: seq<nat>, k: nat, tail: Option<nat>) {
    k < |s| && s[k] < |nodes| && nodes[s[k]].next == if k + 1 < |s| then Some(s[k + 1]) else tail
  }

  ghost predicate Links(nodes: seq<Node>, s: seq<nat>, tail: Option<nat>) {
    forall k: nat :: k < |s| ==> Linked(nodes, s, k, tail)
  }

  lemma {:induction false} ChainLinks(nodes: seq<Node>, head: Option<nat>, s: seq<nat>)
    requires Chain(nodes, head, s)
    ensures Links(nodes, s, None)
  {
    forall k: nat | k < |s| ensures Linked(nodes, s, k, None) { ChainAt(nodes, head, s, k); }
  }

  lemma {:induction false} ChainInside(nodes: seq<Node>, head: Option<nat>, s: seq<nat>)
    requires Chain(nodes, head, s)
    ensures forall k :: 0 <= k < |s| ==> s[k] < |nodes|
    ensures head == if s == [] then None else Some(s[0])
  {
    forall k | 0 <= k < |s| ensures s[k] < |nodes| { ChainAt(nodes, head, s, k); }
  }

  lemma ListFirst(nodes: seq<Node>, l: JmpList, s: seq<nat>)
    requires IsList(nodes, l, s)
    ensures Distinct(s) && l.first == if s == [] then None else Some(s[0])
  {
  }

  lemma ListInside(nodes: seq<Node>, l: JmpList, s: seq<nat>)
    requires IsList(nodes, l, s)
    ensures forall k :: 0 <= k < |s| ==> s[k] < |nodes|
  {
    ChainInside(nodes, l.first, s);
  }

  lemma ListAt(nodes: seq<Node>, l: JmpList, s: seq<nat>, k: nat)
    requires IsList(nodes, l, s) && k < |s|
    ensures s[k] < |nodes| && nodes[s[k]].next == (if k + 1 < |s| then Some(s[k + 1]) else None)
    ensures Jmps(nodes, s)[k] == nodes[s[k]].sc
  {
    ChainAt(nodes, l.first, s, k);
  }

  /** A chain built from links: s, with its last link to the head of the chain t. */
  lemma {:induction false} ChainFromLinks(nodes: seq<Node>, s: seq<nat>, t: seq<nat>, tail: Option<nat>)
    requires Chain(nodes, tail, t) && Links(nodes, s, tail)
    ensures Chain(nodes, if s == [] then tail else Some(s[0]), s + t)
    decreases s
  {
    if s == [] {
      assert s + t == t;
    } else {
      assert Linked(nodes, s, 0, tail);
      assert (s + t)[1..] == s[1..] + t;
      forall k: nat | k < |s[1..]| ensures Linked(nodes, s[1..], k, tail) { assert Linked(nodes, s, k + 1, tail); }
      ChainFromLinks(nodes, s[1..], t, tail);
    }
  }

  lemma {:induction false} ChainKept(nodes: seq<Node>, nodes': seq<Node>, head: Option<nat>, s: seq<nat>)
    requires Chain(nodes, head, s) && Untouched(nodes, nodes', Elems(s))
    ensures Chain(nodes', head, s)
    decreases s
  {
    if s != [] { ChainKept(nodes, nodes', nodes[s[0]].next, s[1..]); }
  }

  lemma ListKept(nodes: seq<Node>, nodes': seq<Node>, l: JmpList, s: seq<nat>)
    requires IsList(nodes, l, s) && Untouched(nodes, nodes', Elems(s))
    ensures IsList(nodes', l, s) && Jmps(nodes', s) == Jmps(nodes, s)
  {
    ChainKept(nodes, nodes', l.first, s);
    ChainInside(nodes, l.first, s);
  }

  lemma ChainSealed(nodes: seq<Node>, head: Option<nat>, s: seq<nat>)
    requires Chain(nodes, head, s)
    ensures Sealed(nodes, Elems(s)) && (head.Some? ==> head.value in Elems(s))
  {
    ChainInside(nodes, head, s);
    forall n | n in Elems(s) ensures n < |nodes| && (nodes[n].next.Some? ==> nodes[n].next.value in Elems(s)) {
      var k :| 0 <= k < |s| && s[k] == n;
      ChainAt(nodes, head, s, k);
    }
  }

  /** Appending a node keeps the list, the freelist and everything else in use. */
  lemma NewKeeps(h: Heap, l: JmpList, s: seq<nat>, f: seq<nat>, used: set<nat>, sc: ScJmp)
    requires IsList(h.nodes, l, s) && Tidy(h, f, used + Elems(s)) && Elems(s) !! used
    ensures var n, h', l' := NewPlace(h), NewScJmp(h, l, sc).0, NewScJmp(h, l, sc).1;
      IsList(h'.nodes, l', s + [n]) && Jmps(h'.nodes, s + [n]) == Jmps(h.nodes, s) + [sc] &&
      Tidy(h', if f == [] then [] else f[1..], used + Elems(s + [n])) && Elems(s + [n]) !! used &&
      Untouched(h.nodes, h'.nodes, used) &&
      forall m :: m in f && m != n ==> m < |h.nodes| <= |h'.nodes| && h'.nodes[m] == h.nodes[m]
  {
    hide Chain, Untouched, Sealed;
    var n, h', l' := NewPlace(h), NewScJmp(h, l, sc).0, NewScJmp(h, l, sc).1;
    ChainInside(h.nodes, h.freelist, f);
    ChainInside(h.nodes, l.first, s);
    NewPlaceFree(h, s, f, used);
    NewLinks(h, l, s, n, sc);
    var f' := if f == [] then [] else f[1..];
    NewTidy(h, h', l, s, f, used, n, sc);
  }

  lemma NewPlaceFree(h: Heap, s: seq<nat>, f: seq<nat>, used: set<nat>)
    requires Tidy(h, f, used + Elems(s))
    ensures NewPlace(h) !in used + Elems(s)
    ensures f == [] ==> NewPlace(h) == |h.nodes|
    ensures f != [] ==> NewPlace(h) == f[0] < |h.nodes|
  {
    ChainInside(h.nodes, h.freelist, f);
  }

  lemma NewLinks(h: Heap, l: JmpList, s: seq<nat>, n: nat, sc: ScJmp)
    requires IsList(h.nodes, l, s) && n == NewPlace(h) && n !in s && n <= |h.nodes|
    ensures var h', l' := NewScJmp(h, l, sc).0, NewScJmp(h, l, sc).1;
      IsList(h'.nodes, l', s + [n]) && Jmps(h'.nodes, s + [n]) == Jmps(h.nodes, s) + [sc]
  {
    var h', l' := NewScJmp(h, l, sc).0, NewScJmp(h, l, sc).1;
    ChainLinks(h.nodes, l.first, s);
    ChainInside(h.nodes, l.first, s);
    var t := s + [n];
    forall k: nat | k < |t| ensures Linked(h'.nodes, t, k, None) {
      if k < |s| { assert Linked(h.nodes, s, k, None); }
    }
    forall k: nat | k < |t| ensures JmpOf(h'.nodes, t[k]) == (Jmps(h.nodes, s) + [sc])[k] {
      if k < |s| { assert t[k] == s[k]; }
    }
    ChainFromLinks(h'.nodes, t, [], None);
    assert t + [] == t;
  }

  lemma NewTidy(h: Heap, h': Heap, l: JmpList, s: seq<nat>, f: seq<nat>, used: set<nat>, n: nat, sc: ScJmp)
    requires IsList(h.nodes, l, s) && Tidy(h, f, used + Elems(s)) && Elems(s) !! used
    requires n == NewPlace(h) && h' == NewScJmp(h, l, sc).0 && IsList(h'.nodes, NewScJmp(h, l, sc).1, s + [n])
    requires n !in used + Elems(s) && (f == [] ==> n == |h.nodes|) && (f != [] ==> n == f[0] < |h.nodes|)
    ensures Tidy(h', if f == [] then [] else f[1..], used + Elems(s + [n])) && Elems(s + [n]) !! used
    ensures Untouched(h.nodes, h'.nodes, used)
    ensures forall m :: m in f && m != n ==> m < |h.nodes| <= |h'.nodes| && h'.nodes[m] == h.nodes[m]
  {
    var f' := if f == [] then [] else f[1..];
    ListSealed(h'.nodes, NewScJmp(h, l, sc).1, s + [n]);
    NewFrame(h, l, s, n, sc);
    ChainInside(h.nodes, h.freelist, f);
    hide NewScJmp, NewPlace, IsList, Chain, Distinct, Sealed;
    ElemsSnoc(s, n);
    Popped(h, h', f, used + Elems(s), n);
    NewUntouched(h.nodes, h'.nodes, f, used, s, n);
    UsedSealed(h.nodes, h'.nodes, used, Elems(s), Elems(s + [n]));
    hide Untouched;
  }

  lemma ElemsSnoc(s: seq<nat>, n: nat)
    ensures Elems(s + [n]) == Elems(s) + {n}
  {
  }

  lemma NewUntouched(nodes: seq<Node>, nodes': seq<Node>, f: seq<nat>, used: set<nat>, s: seq<nat>, n: nat)
    requires |nodes| <= |nodes'| && n !in used + Elems(s) && Elems(s) !! used
    requires forall m :: m in f ==> m < |nodes| && m !in used + Elems(s)
    requires forall m :: 0 <= m < |nodes| && m != n && m !in s ==> nodes'[m] == nodes[m]
    ensures Untouched(nodes, nodes', used)
    ensures forall m :: m in f && m != n ==> m < |nodes| <= |nodes'| && nodes'[m] == nodes[m]
  {
    assert forall m :: m in s ==> m in Elems(s);
  }

  lemma NewFrame(h: Heap, l: JmpList, s: seq<nat>, n: nat, sc: ScJmp)
    requires IsList(h.nodes, l, s) && n == NewPlace(h)
    ensures var h' := NewScJmp(h, l, sc).0;
      |h.nodes| <= |h'.nodes| && h'.freelist == (if n < |h.nodes| then h.nodes[n].next else None) &&
      forall m :: 0 <= m < |h.nodes| && m != n && m !in s ==> h'.nodes[m] == h.nodes[m]
  {
    LastIn(h.nodes, l, s);
  }

  /** The freelist without its first node. */
  lemma Popped(h: Heap, h': Heap, f: seq<nat>, used: set<nat>, n: nat)
    requires Tidy(h, f, used) && n !in used && |h.nodes| <= |h'.nodes|
    requires f != [] ==> n == f[0] < |h.nodes|
    requires h'.freelist == if f == [] then None else h.nodes[f[0]].next
    requires forall m :: 0 <= m < |h.nodes| && m != n && m !in used ==> h'.nodes[m] == h.nodes[m]
    ensures var f' := if f == [] then [] else f[1..];
      Chain(h'.nodes, h'.freelist, f') && Distinct(f') && forall m :: m in f' ==> m !in used + {n}
  {
    var f' := if f == [] then [] else f[1..];
    assert forall m :: m in f' ==> m in f && m != n;
    assert Chain(h.nodes, h'.freelist, f');
    ChainKept(h.nodes, h'.nodes, h'.freelist, f');
  }

  lemma LastIn(nodes: seq<Node>, l: JmpList, s: seq<nat>)
    requires IsList(nodes, l, s)
    ensures l.last.Some? ==> l.last.value in s
  {
  }

  lemma ListSealed(nodes: seq<Node>, l: JmpList, s: seq<nat>)
    requires IsList(nodes, l, s)
    ensures Sealed(nodes, Elems(s)) && (l.first.Some? ==> l.first.value in Elems(s))
  {
    ChainSealed(nodes, l.first, s);
  }

  /** Links of untouched nodes lead to untouched nodes or to the list, before and after. */
  lemma UsedSealed(nodes: seq<Node>, nodes': seq<Node>, used: set<nat>, c: set<nat>, c': set<nat>)
    requires Sealed(nodes, used + c) && Sealed(nodes', c') && c <= c' && Untouched(nodes, nodes', used)
    ensures Sealed(nodes', used + c')
  {
  }

  /** Moving a list to the end of another. */
  lemma MovKeeps(h: Heap, dst: JmpList, src: JmpList, s: seq<nat>, t: seq<nat>, f: seq<nat>, used: set<nat>)
    requires IsList(h.nodes, dst, s) && IsList(h.nodes, src, t) && Tidy(h, f, used + Elems(s) + Elems(t))
    requires Elems(s) !! used && Elems(t) !! used + Elems(s)
    ensures var h', l' := MovScJmps(h, dst, src).0, MovScJmps(h, dst, src).1;
      IsList(h'.nodes, l', s + t) && Jmps(h'.nodes, s + t) == Jmps(h.nodes, s) + Jmps(h.nodes, t) &&
      Tidy(h', f, used + Elems(s + t)) && Elems(s + t) !! used && Untouched(h.nodes, h'.nodes, used + Elems(f))
  {
    hide Chain, Sealed;
    var h', l' := MovScJmps(h, dst, src).0, MovScJmps(h, dst, src).1;
    ChainInside(h.nodes, dst.first, s);
    ChainInside(h.nodes, src.first, t);
    MovLinks(h, dst, src, s, t);
    assert Elems(s + t) == Elems(s) + Elems(t);
    assert forall n :: 0 <= n < |h.nodes| && n !in s ==> h'.nodes[n] == h.nodes[n];
    ChainKept(h.nodes, h'.nodes, h.freelist, f);
    ListSealed(h'.nodes, l', s + t);
    assert used + Elems(s) + Elems(t) == used + Elems(s + t);
    UsedSealed(h.nodes, h'.nodes, used, Elems(s + t), Elems(s + t));
  }

  lemma MovLinks(h: Heap, dst: JmpList, src: JmpList, s: seq<nat>, t: seq<nat>)
    requires IsList(h.nodes, dst, s) && IsList(h.nodes, src, t) && Elems(t) !! Elems(s)
    ensures var h', l' := MovScJmps(h, dst, src).0, MovScJmps(h, dst, src).1;
      IsList(h'.nodes, l', s + t) && Jmps(h'.nodes, s + t) == Jmps(h.nodes, s) + Jmps(h.nodes, t)
  {
    ChainInside(h.nodes, dst.first, s);
    ChainInside(h.nodes, src.first, t);
    hide Chain, Distinct;
    if s == [] {
      assert s + t == t;
    } else if t == [] {
      assert s + t == s;
    } else {
      MovJoins(h, dst, src, s, t);
      DistinctJoin(s, t);
    }
  }

  lemma MovJoins(h: Heap, dst: JmpList, src: JmpList, s: seq<nat>, t: seq<nat>)
    requires s != [] && t != [] && IsList(h.nodes, dst, s) && Elems(t) !! Elems(s) && Chain(h.nodes, src.first, t)
    ensures var nodes := SetNext(h.nodes, dst.last, src.first);
      Chain(nodes, dst.first, s + t) && Jmps(nodes, s + t) == Jmps(h.nodes, s) + Jmps(h.nodes, t)
  {
    var nodes, n := SetNext(h.nodes, dst.last, src.first), s[|s| - 1];
    ChainLinks(h.nodes, dst.first, s);
    ChainInside(h.nodes, dst.first, s);
    assert n in Elems(s);
    LinkedTo(h.nodes, nodes, s, src.first);
    ChainKept(h.nodes, nodes, src.first, t);
    hide Chain, Distinct, SetNext;
    ChainFromLinks(nodes, s, t, src.first);
    assert forall k :: 0 <= k < |s + t| ==> JmpOf(nodes, (s + t)[k]) == JmpOf(h.nodes, (s + t)[k]);
    assert Jmps(nodes, s + t) == Jmps(h.nodes, s + t);
    assert Jmps(h.nodes, s + t) == Jmps(h.nodes, s) + Jmps(h.nodes, t);
  }

  /** The last link of a list set to another place. */
  lemma LinkedTo(nodes: seq<Node>, nodes': seq<Node>, s: seq<nat>, to: Option<nat>)
    requires s != [] && Distinct(s) && nodes' == SetNext(nodes, Some(s[|s| - 1]), to)
    requires Links(nodes, s, None)
    ensures Links(nodes', s, to)
    ensures |nodes'| == |nodes| && forall m :: 0 <= m < |nodes| ==> nodes'[m].sc == nodes[m].sc
    ensures forall m :: 0 <= m < |nodes| && m != s[|s| - 1] ==> nodes'[m] == nodes[m]
  {
    var n := s[|s| - 1];
    assert Linked(nodes, s, |s| - 1, None);
    forall k: nat | k < |s| ensures Linked(nodes', s, k, to) {
      assert Linked(nodes, s, k, None);
      assert k < |s| - 1 ==> s[k] != n;
    }
  }

  lemma DistinctJoin(s: seq<nat>, t: seq<nat>)
    requires Distinct(s) && Distinct(t) && Elems(t) !! Elems(s)
    ensures Distinct(s + t)
  {
    var u := s + t;
    forall i, j | 0 <= i < j < |u| ensures u[i] != u[j] {
      if i < |s| <= j { assert u[i] in Elems(s) && u[j] in Elems(t); }
    }
  }

  // ---- the jumps with one value ----

  function Results(sc: seq<ScJmp>): seq<bool> {
    seq(|sc|, k requires 0 <= k < |sc| => sc[k].result)
  }

  /** The elements equal to v, in order. */
  function Kept(rs: seq<bool>, v: bool): seq<bool> {
    if rs == [] then [] else Kept(rs[..|rs| - 1], v) + (if rs[|rs| - 1] == v then [v] else [])
  }

  /** The jumps of the list with the given result, in order. */
  function WithResult(sc: seq<ScJmp>, v: bool): (r: seq<ScJmp>)
    ensures forall k :: 0 <= k < |r| ==> r[k].result == v
  {
    if sc == [] then []
    else WithResult(sc[..|sc| - 1], v) + (if sc[|sc| - 1].result == v then [sc[|sc| - 1]] else [])
  }

  predicate Opposite(nodes: seq<Node>, n: nat, v: bool) {
    JmpOf(nodes, n).result != v
  }

  /** The nodes of the list with the value v, in order. */
  function Filter(nodes: seq<Node>, s: seq<nat>, v: bool): seq<nat> {
    if s == [] then []
    else Filter(nodes, s[..|s| - 1], v) + (if Opposite(nodes, s[|s| - 1], v) then [] else [s[|s| - 1]])
  }

  /** Only the first jump of the list has the opposite value, if any. */
  predicate OppositeOnlyAtHead(rs: seq<bool>, v: bool) {
    forall k :: 1 <= k < |rs| ==> rs[k] == v
  }

  lemma {:induction false} WithResultKept(sc: seq<ScJmp>, v: bool)
    ensures Results(WithResult(sc, v)) == Kept(Results(sc), v)
  {
    if sc != [] {
      WithResultKept(sc[..|sc| - 1], v);
      assert Results(sc)[..|sc| - 1] == Results(sc[..|sc| - 1]);
    }
  }

  lemma {:induction false} FilterJmps(nodes: seq<Node>, s: seq<nat>, v: bool)
    ensures Jmps(nodes, Filter(nodes, s, v)) == WithResult(Jmps(nodes, s), v)
  {
    if s != [] {
      FilterJmps(nodes, s[..|s| - 1], v);
      assert Jmps(nodes, s)[..|s| - 1] == Jmps(nodes, s[..|s| - 1]);
    }
  }

  lemma {:induction false} FilterAll(nodes: seq<Node>, s: seq<nat>, v: bool)
    requires forall k :: 0 <= k < |s| ==> !Opposite(nodes, s[k], v)
    ensures Filter(nodes, s, v) == s
  {
    if s != [] { FilterAll(nodes, s[..|s| - 1], v); }
  }

  /** With an opposite jump at the head at most, the filter drops the head or nothing. */
  lemma {:induction false} FilterHead(nodes: seq<Node>, s: seq<nat>, v: bool)
    requires s != [] && forall k :: 1 <= k < |s| ==> !Opposite(nodes, s[k], v)
    ensures Filter(nodes, s, v) == if Opposite(nodes, s[0], v) then s[1..] else s
  {
    var r, n := s[..|s| - 1], s[|s| - 1];
    FilterLast(nodes, s, v);
    hide Filter, Opposite;
    BodyAndLast(s);
    if |s| > 1 { FilterHead(nodes, r, v); }
  }

  lemma BodyAndLast(s: seq<nat>)
    requires s != []
    ensures var r, n := s[..|s| - 1], s[|s| - 1];
      r + [n] == s && (if |s| > 1 then r[1..] + [n] == s[1..] && r[0] == s[0] else s[1..] == [] && [n] == s)
  {
  }

  lemma FilterLast(nodes: seq<Node>, s: seq<nat>, v: bool)
    requires s != []
    ensures Filter(nodes, s, v) == Filter(nodes, s[..|s| - 1], v) +
      (if Opposite(nodes, s[|s| - 1], v) then [] else [s[|s| - 1]])
    ensures |s| == 1 ==> Filter(nodes, s[..|s| - 1], v) == []
  {
  }

  // ---- the removal loop ----

  /** The head of the freelist once the loop has passed i nodes. */
  function FreeHead(nodes: seq<Node>, s: seq<nat>, v: bool, i: nat, free: Option<nat>): Option<nat>
    requires i <= |s|
  {
    if i == 0 then free
    else if Opposite(nodes, s[i - 1], v) then Some(s[i - 1])
    else FreeHead(nodes, s, v, i - 1, free)
  }

  /** The nodes the loop has put on the freelist, last one first. */
  function FreeSeq(nodes: seq<Node>, s: seq<nat>, v: bool, i: nat): seq<nat>
    requires i <= |s|
  {
    if i == 0 then []
    else (if Opposite(nodes, s[i - 1], v) then [s[i - 1]] else []) + FreeSeq(nodes, s, v, i - 1)
  }

  /** The k-th node of the list after the loop has passed i nodes. */
  function Passed(nodes0: seq<Node>, s: seq<nat>, v: bool, i: nat, free0: Option<nat>, k: nat): Node
    requires k < |s| && s[k] < |nodes0|
  {
    if k < i && Opposite(nodes0, s[k], v) then nodes0[s[k]].(next := FreeHead(nodes0, s, v, k, free0)) else nodes0[s[k]]
  }

  /** What the loop has done to the nodes after passing i of them. */
  ghost predicate LoopState(nodes0: seq<Node>, nodes: seq<Node>, s: seq<nat>, v: bool, i: nat, free0: Option<nat>)
    requires i <= |s|
  {
    |nodes| == |nodes0| &&
    (forall n :: 0 <= n < |nodes| && n !in s ==> nodes[n] == nodes0[n]) &&
    (forall k :: 0 <= k < |s| ==> s[k] < |nodes|) &&
    (forall k :: 0 <= k < |s| ==> nodes[s[k]] == Passed(nodes0, s, v, i, free0, k))
  }

  lemma LoopHere(nodes0: seq<Node>, nodes: seq<Node>, s: seq<nat>, v: bool, i: nat, free0: Option<nat>)
    requires i < |s| && LoopState(nodes0, nodes, s, v, i, free0)
    ensures s[i] < |nodes| == |nodes0| && nodes[s[i]] == nodes0[s[i]]
  {
    assert nodes[s[i]] == Passed(nodes0, s, v, i, free0, i);
  }

  lemma {:induction false} FreeSeqMembers(nodes: seq<Node>, s: seq<nat>, v: bool, i: nat, n: nat)
    requires i <= |s| && n in FreeSeq(nodes, s, v, i)
    ensures n in s && Opposite(nodes, n, v)
  {
    if !Opposite(nodes, s[i - 1], v) || n != s[i - 1] {
      FreeSeqMembers(nodes, s, v, i - 1, n);
    }
  }

  /** The freelist after the loop, from where it was after i nodes. */
  lemma {:induction false} FreeChain(nodes0: seq<Node>, nodes: seq<Node>, s: seq<nat>, f: seq<nat>, v: bool, i: nat,
                                     free0: Option<nat>)
    requires i <= |s| && LoopState(nodes0, nodes, s, v, |s|, free0)
    requires Chain(nodes0, free0, f) && Elems(s) !! Elems(f)
    ensures Chain(nodes, FreeHead(nodes0, s, v, i, free0), FreeSeq(nodes0, s, v, i) + f)
  {
    if i == 0 {
      FreeStart(nodes0, nodes, s, f, v, free0);
      assert [] + f == f;
    } else {
      FreeChain(nodes0, nodes, s, f, v, i - 1, free0);
      FreeNext(nodes0, nodes, s, f, v, i, free0);
    }
  }

  lemma FreeStart(nodes0: seq<Node>, nodes: seq<Node>, s: seq<nat>, f: seq<nat>, v: bool, free0: Option<nat>)
    requires LoopState(nodes0, nodes, s, v, |s|, free0) && Chain(nodes0, free0, f) && Elems(s) !! Elems(f)
    ensures Chain(nodes, free0, f)
  {
    ChainInside(nodes0, free0, f);
    assert forall n :: n in Elems(f) ==> n !in Elems(s);
    ChainKept(nodes0, nodes, free0, f);
  }

  lemma FreeNext(nodes0: seq<Node>, nodes: seq<Node>, s: seq<nat>, f: seq<nat>, v: bool, i: nat, free0: Option<nat>)
    requires 0 < i <= |s| && LoopState(nodes0, nodes, s, v, |s|, free0)
    requires Chain(nodes, FreeHead(nodes0, s, v, i - 1, free0), FreeSeq(nodes0, s, v, i - 1) + f)
    ensures Chain(nodes, FreeHead(nodes0, s, v, i, free0), FreeSeq(nodes0, s, v, i) + f)
  {
    var n, rest := s[i - 1], FreeSeq(nodes0, s, v, i - 1) + f;
    assert nodes[n] == Passed(nodes0, s, v, |s|, free0, i - 1);
    hide LoopState, Opposite;
    if Opposite(nodes0, n, v) {
      assert FreeSeq(nodes0, s, v, i) + f == [n] + rest;
      assert ([n] + rest)[1..] == rest;
    } else {
      assert FreeSeq(nodes0, s, v, i) + f == rest;
    }
  }

  /** A node that neither the list nor the freelist leads to: their links stay among other nodes of all. */
  ghost predicate Lost(nodes: seq<Node>, first: Option<nat>, freelist: Option<nat>, n: nat, all: set<nat>) {
    exists c :: c <= all - {n} && Sealed(nodes, c) && (first.Some? ==> first.value in c) &&
      (freelist.Some? ==> freelist.value in c)
  }

  /** A node of a list is not lost. */
  lemma {:induction false} ListedNotLost(nodes: seq<Node>, first: Option<nat>, freelist: Option<nat>, s: seq<nat>,
                                         n: nat, all: set<nat>)
    requires Chain(nodes, first, s) && n in s
    ensures !Lost(nodes, first, freelist, n, all)
  {
    if Lost(nodes, first, freelist, n, all) {
      var c :| c <= all - {n} && Sealed(nodes, c) && (first.Some? ==> first.value in c);
      InSealed(nodes, first, s, c, n);
    }
  }

  lemma {:induction false} InSealed(nodes: seq<Node>, head: Option<nat>, s: seq<nat>, c: set<nat>, n: nat)
    requires Chain(nodes, head, s) && Sealed(nodes, c) && (head.Some? ==> head.value in c) && n in s
    ensures n in c
    decreases s
  {
    if s[0] != n { InSealed(nodes, nodes[s[0]].next, s[1..], c, n); }
  }

  /** What the loop leaves: the filtered list exactly if no jump past the head is opposite, and otherwise the last
      node is lost. */
  lemma {:induction false} LoopResult(nodes0: seq<Node>, nodes: seq<Node>, l: JmpList, free0: Option<nat>,
                                      s: seq<nat>, f: seq<nat>, v: bool)
    requires s != [] && IsList(nodes0, l, s) && Chain(nodes0, free0, f) && Elems(s) !! Elems(f)
    requires !Opposite(nodes0, s[|s| - 1], v)
    requires LoopState(nodes0, nodes, s, v, |s|, free0)
    ensures var first := LoopList(nodes0, l, s, v, |s|).first;
      var freelist := FreeHead(nodes0, s, v, |s|, free0);
      (Chain(nodes, first, Filter(nodes0, s, v)) <==> OppositeOnlyAtHead(Results(Jmps(nodes0, s)), v)) &&
      (!OppositeOnlyAtHead(Results(Jmps(nodes0, s)), v) ==>
        Lost(nodes, first, freelist, s[|s| - 1], Elems(s) + Elems(f)))
  {
    ChainLinks(nodes0, l.first, s);
    ChainInside(nodes0, l.first, s);
    hide Chain, Lost, LoopState;
    if OppositeOnlyAtHead(Results(Jmps(nodes0, s)), v) {
      HeadRemoved(nodes0, nodes, s, v, free0);
    } else {
      var m := FirstOpposite(nodes0, s, v);
      LostAfter(nodes0, nodes, s, f, v, free0, m);
      FilterHas(nodes0, s, v, s[|s| - 1]);
      var first := LoopList(nodes0, l, s, v, |s|).first;
      if Chain(nodes, first, Filter(nodes0, s, v)) {
        ListedNotLost(nodes, first, FreeHead(nodes0, s, v, |s|, free0), Filter(nodes0, s, v), s[|s| - 1],
          Elems(s) + Elems(f));
      }
    }
  }

  lemma OnlyHead(nodes: seq<Node>, s: seq<nat>, v: bool)
    requires OppositeOnlyAtHead(Results(Jmps(nodes, s)), v)
    ensures forall k :: 1 <= k < |s| ==> !Opposite(nodes, s[k], v)
  {
    forall k | 1 <= k < |s| ensures !Opposite(nodes, s[k], v) { assert Results(Jmps(nodes, s))[k] == v; }
  }

  lemma HeadRemoved(nodes0: seq<Node>, nodes: seq<Node>, s: seq<nat>, v: bool, free0: Option<nat>)
    requires s != [] && OppositeOnlyAtHead(Results(Jmps(nodes0, s)), v) && !Opposite(nodes0, s[|s| - 1], v)
    requires Links(nodes0, s, None)
    requires LoopState(nodes0, nodes, s, v, |s|, free0)
    ensures Chain(nodes, if Opposite(nodes0, s[0], v) then nodes0[s[0]].next else Some(s[0]), Filter(nodes0, s, v))
  {
    var a := if Opposite(nodes0, s[0], v) then 1 else 0;
    var t := s[a..];
    OnlyHead(nodes0, s, v);
    FilterHead(nodes0, s, v);
    hide Chain, Filter, Opposite, Distinct;
    assert Linked(nodes0, s, 0, None);
    forall k: nat | k < |t| ensures Linked(nodes, t, k, None) {
      assert Linked(nodes0, s, a + k, None);
      assert nodes[s[a + k]] == Passed(nodes0, s, v, |s|, free0, a + k);
    }
    ChainFromLinks(nodes, t, [], None);
    assert t + [] == t;
  }

  lemma {:induction false} FilterHas(nodes: seq<Node>, s: seq<nat>, v: bool, n: nat)
    requires n in s && !Opposite(nodes, n, v)
    ensures n in Filter(nodes, s, v)
  {
    if s[|s| - 1] != n { FilterHas(nodes, s[..|s| - 1], v, n); }
  }

  /** The first opposite node past the head. */
  lemma {:induction false} FirstOpposite(nodes: seq<Node>, s: seq<nat>, v: bool) returns (m: nat)
    requires !OppositeOnlyAtHead(Results(Jmps(nodes, s)), v)
    ensures 1 <= m < |s| && Opposite(nodes, s[m], v)
    ensures forall k :: 1 <= k < m ==> !Opposite(nodes, s[k], v)
  {
    m := 1;
    var w :| 1 <= w < |s| && Results(Jmps(nodes, s))[w] != v;
    while !Opposite(nodes, s[m], v)
      invariant 1 <= m <= w
      invariant forall k :: 1 <= k < m ==> !Opposite(nodes, s[k], v)
      decreases w - m
    {
      m := m + 1;
    }
  }

  /** Once the node m past the head is removed, the list runs from it into the freelist. */
  lemma {:induction false} LostAfter(nodes0: seq<Node>, nodes: seq<Node>, s: seq<nat>, f: seq<nat>, v: bool,
                                     free0: Option<nat>, m: nat)
    requires s != [] && Chain(nodes0, free0, f) && Elems(s) !! Elems(f) && Distinct(s)
    requires LoopState(nodes0, nodes, s, v, |s|, free0)
    requires !Opposite(nodes0, s[|s| - 1], v)
    requires Links(nodes0, s, None)
    requires 1 <= m < |s| && Opposite(nodes0, s[m], v) && forall k :: 1 <= k < m ==> !Opposite(nodes0, s[k], v)
    ensures Lost(nodes, if Opposite(nodes0, s[0], v) then nodes0[s[0]].next else Some(s[0]),
                 FreeHead(nodes0, s, v, |s|, free0), s[|s| - 1], Elems(s) + Elems(f))
  {
    hide FreeHead, FreeSeq, LoopState, Chain, Lost;
    var a := if Opposite(nodes0, s[0], v) then 1 else 0;
    var n, all := s[|s| - 1], Elems(s) + Elems(f);
    assert Linked(nodes0, s, 0, None);
    BrokenChain(nodes0, nodes, s, f, v, free0, a, m);
    FreeChain(nodes0, nodes, s, f, v, |s|, free0);
    Freed(nodes0, s, f, v, |s|);
    Freed(nodes0, s, f, v, m);
    var broken, freed := s[a..m + 1] + (FreeSeq(nodes0, s, v, m) + f), FreeSeq(nodes0, s, v, |s|) + f;
    assert n !in s[a..m + 1];
    assert Elems(broken) <= all - {n};
    ChainSealed(nodes, Some(s[a]), broken);
    ChainSealed(nodes, FreeHead(nodes0, s, v, |s|, free0), freed);
    LostBy(nodes, Some(s[a]), FreeHead(nodes0, s, v, |s|, free0), n, all, Elems(broken), Elems(freed));
  }

  lemma LostBy(nodes: seq<Node>, first: Option<nat>, freelist: Option<nat>, n: nat, all: set<nat>, c: set<nat>,
               d: set<nat>)
    requires c <= all - {n} && d <= all - {n} && Sealed(nodes, c) && Sealed(nodes, d)
    requires (first.Some? ==> first.value in c) && (freelist.Some? ==> freelist.value in d)
    ensures Lost(nodes, first, freelist, n, all)
  {
    assert Sealed(nodes, c + d);
  }

  lemma Freed(nodes0: seq<Node>, s: seq<nat>, f: seq<nat>, v: bool, i: nat)
    requires i <= |s| && s != [] && Elems(s) !! Elems(f) && !Opposite(nodes0, s[|s| - 1], v)
    ensures Elems(FreeSeq(nodes0, s, v, i) + f) <= Elems(s) + Elems(f) - {s[|s| - 1]}
  {
    forall x | x in FreeSeq(nodes0, s, v, i) + f ensures x in Elems(s) + Elems(f) - {s[|s| - 1]} {
      if x in FreeSeq(nodes0, s, v, i) { FreeSeqMembers(nodes0, s, v, i, x); }
        else { assert x in Elems(f) && s[|s| - 1] in Elems(s); }
    }
  }

  /** The links from the first to the removed node m; that one leads into the freelist. */
  lemma LinkAfter(nodes0: seq<Node>, nodes: seq<Node>, s: seq<nat>, v: bool, free0: Option<nat>, k: nat, m: nat)
    requires k <= m < |s| && LoopState(nodes0, nodes, s, v, |s|, free0) && Linked(nodes0, s, k, None)
    requires Opposite(nodes0, s[m], v) && (k < m ==> !Opposite(nodes0, s[k], v))
    ensures s[k] < |nodes| && nodes[s[k]].next == if k == m then FreeHead(nodes0, s, v, m, free0) else Some(s[k + 1])
  {
    hide FreeHead;
    assert nodes[s[k]] == Passed(nodes0, s, v, |s|, free0, k);
  }

  lemma {:induction false} BrokenChain(nodes0: seq<Node>, nodes: seq<Node>, s: seq<nat>, f: seq<nat>, v: bool,
                                       free0: Option<nat>, a: nat, m: nat)
    requires Chain(nodes0, free0, f) && Elems(s) !! Elems(f)
    requires LoopState(nodes0, nodes, s, v, |s|, free0)
    requires Links(nodes0, s, None)
    requires 1 <= m < |s| && Opposite(nodes0, s[m], v) && forall k :: 1 <= k < m ==> !Opposite(nodes0, s[k], v)
    requires a == if Opposite(nodes0, s[0], v) then 1 else 0
    ensures Chain(nodes, Some(s[a]), s[a..m + 1] + (FreeSeq(nodes0, s, v, m) + f))
  {
    var front := s[a..m + 1];
    var tail := FreeHead(nodes0, s, v, m, free0);
    FreeChain(nodes0, nodes, s, f, v, m, free0);
    hide FreeHead, FreeSeq, Chain, LoopState;
    forall k: nat | k < |front| ensures Linked(nodes, front, k, tail) {
      assert Linked(nodes0, s, a + k, None);
      LinkAfter(nodes0, nodes, s, v, free0, a + k, m);
    }
    ChainFromLinks(nodes, front, FreeSeq(nodes0, s, v, m) + f, tail);
  }

  // ---- the loop round by round, and its end ----

  /** The list variable once the loop has passed i nodes. */
  function LoopList(nodes0: seq<Node>, left: JmpList, s: seq<nat>, v: bool, i: nat): JmpList {
    if i > 0 && s != [] && s[0] < |nodes0| &&
      Opposite(nodes0, s[0], v) then JmpList(nodes0[s[0]].next, left.last) else left
  }

  lemma LoopBegins(h0: Heap, left: JmpList, s: seq<nat>, v: bool)
    requires s != [] && IsList(h0.nodes, left, s)
    ensures left.first == Some(s[0]) && left.last == Some(s[|s| - 1]) && Distinct(s)
    ensures LoopState(h0.nodes, h0.nodes, s, v, 0, h0.freelist) &&
      h0.freelist == FreeHead(h0.nodes, s, v, 0, h0.freelist)
    ensures LoopList(h0.nodes, left, s, v, 0) == left
  {
    ChainInside(h0.nodes, left.first, s);
  }

  /** One round: an opposite node, whose predecessor is taken to be itself or nothing, is unlinked. */
  lemma LoopStep(nodes0: seq<Node>, h: Heap, left: JmpList, prev: Option<nat>, s: seq<nat>, v: bool, i: nat,
                 free0: Option<nat>)
    requires i < |s| && Distinct(s) && LoopState(nodes0, h.nodes, s, v, i, free0) &&
      h.freelist == FreeHead(nodes0, s, v, i, free0)
    requires left.last == Some(s[|s| - 1]) && !Opposite(nodes0, s[|s| - 1], v) &&
      prev == if i == 0 then None else Some(s[i])
    ensures s[i] < |h.nodes|
    ensures var (h', list) := if Opposite(nodes0, s[i], v) then DelScJmp(h, LoopList(nodes0, left, s, v, i), prev, s[i])
                              else (h, LoopList(nodes0, left, s, v, i));
      LoopState(nodes0, h'.nodes, s, v, i + 1, free0) && h'.freelist == FreeHead(nodes0, s, v, i + 1, free0) &&
      list == LoopList(nodes0, left, s, v, i + 1)
  {
    LoopHere(nodes0, h.nodes, s, v, i, free0);
    var h' := if Opposite(nodes0, s[i], v) then DelScJmp(h, LoopList(nodes0, left, s, v, i), prev, s[i]).0 else h;
    forall k | 0 <= k < |s| ensures h'.nodes[s[k]] == Passed(nodes0, s, v, i + 1, free0, k) {
      assert h.nodes[s[k]] == Passed(nodes0, s, v, i, free0, k);
      if k != i { assert s[k] != s[i]; }
    }
  }

  lemma {:induction false} FreeSeqHead(nodes: seq<Node>, s: seq<nat>, v: bool, i: nat)
    requires 0 < i <= |s| && forall k :: 1 <= k < |s| ==> !Opposite(nodes, s[k], v)
    ensures FreeSeq(nodes, s, v, i) == if Opposite(nodes, s[0], v) then [s[0]] else []
  {
    if i > 1 { FreeSeqHead(nodes, s, v, i - 1); } else { assert FreeSeq(nodes, s, v, 0) == []; }
  }

  /** When no jump past the head is opposite, the loop leaves a list and the freelist in order. */
  lemma RemovedWell(h0: Heap, h: Heap, left: JmpList, s: seq<nat>, f: seq<nat>, v: bool, used: set<nat>)
    requires s != [] && IsList(h0.nodes, left, s) && Tidy(h0, f, used + Elems(s)) && Elems(s) !! used &&
      Sealed(h0.nodes, used)
    requires OppositeOnlyAtHead(Results(Jmps(h0.nodes, s)), v) && !Opposite(h0.nodes, s[|s| - 1], v)
    requires LoopState(h0.nodes, h.nodes, s, v, |s|, h0.freelist) &&
      h.freelist == FreeHead(h0.nodes, s, v, |s|, h0.freelist)
    ensures var t, list := Filter(h0.nodes, s, v), LoopList(h0.nodes, left, s, v, |s|);
      IsList(h.nodes, list, t) && Jmps(h.nodes, t) == Jmps(h0.nodes, t) &&
        Tidy(h, FreeSeq(h0.nodes, s, v, |s|) + f, used + Elems(t)) &&
      Elems(t) !! used && Untouched(h0.nodes, h.nodes, used)
  {
    var t, list := Filter(h0.nodes, s, v), LoopList(h0.nodes, left, s, v, |s|);
    OnlyHead(h0.nodes, s, v);
    RemovedList(h0.nodes, h.nodes, left, s, v, h0.freelist);
    LoopKeeps(h0.nodes, h.nodes, s, v, h0.freelist);
    Apart(h0, f, used, s);
    FreeChain(h0.nodes, h.nodes, s, f, v, |s|, h0.freelist);
    FreeSeqHead(h0.nodes, s, v, |s|);
    LoopKeepsHeld(h0.nodes, h.nodes, s, used);
    hide *;
    ListSealed(h.nodes, list, t);
    FreedApart(h.nodes, s, f, FreeSeq(h0.nodes, s, v, |s|), t, used);
    TidyJoin(h0.nodes, h, FreeSeq(h0.nodes, s, v, |s|) + f, used, Elems(t));
  }

  lemma TidyJoin(nodes0: seq<Node>, h: Heap, f: seq<nat>, used: set<nat>, c: set<nat>)
    requires Chain(h.nodes, h.freelist, f) && Distinct(f) && (forall n :: n in f ==> n !in used + c)
    requires Sealed(nodes0, used) && Untouched(nodes0, h.nodes, used) && Sealed(h.nodes, c)
    ensures Tidy(h, f, used + c)
  {
    hide Chain, Distinct;
  }

  lemma FreedApart(nodes: seq<Node>, s: seq<nat>, f: seq<nat>, freed: seq<nat>, t: seq<nat>, used: set<nat>)
    requires s != [] && (freed == [] || freed == [s[0]]) && (freed != [] ==> s[0] !in t) && Elems(t) <= Elems(s)
    requires Distinct(f) && Elems(s) !! used && Elems(s) !! Elems(f) && forall n :: n in f ==> n !in used
    ensures Distinct(freed + f) && (forall n :: n in freed + f ==> n !in used + Elems(t)) && Elems(t) !! used
  {
    assert s[0] in Elems(s);
    assert forall n :: n in f ==> n in Elems(f);
  }

  lemma RemovedList(nodes0: seq<Node>, nodes: seq<Node>, left: JmpList, s: seq<nat>, v: bool, free0: Option<nat>)
    requires s != [] && IsList(nodes0, left, s) && LoopState(nodes0, nodes, s, v, |s|, free0)
    requires OppositeOnlyAtHead(Results(Jmps(nodes0, s)), v) && !Opposite(nodes0, s[|s| - 1], v)
    ensures var t := Filter(nodes0, s, v);
      IsList(nodes, LoopList(nodes0, left, s, v, |s|), t) && Jmps(nodes, t) == Jmps(nodes0, t) &&
      Elems(t) <= Elems(s) && (Opposite(nodes0, s[0], v) ==> s[0] !in t)
  {
    hide LoopState, Filter, OppositeOnlyAtHead, Results, Opposite, Chain;
    ChainLinks(nodes0, left.first, s);
    ChainInside(nodes0, left.first, s);
    OnlyHead(nodes0, s, v);
    FilterHead(nodes0, s, v);
    HeadRemoved(nodes0, nodes, s, v, free0);
    LoopKeeps(nodes0, nodes, s, v, free0);
    Behead(s);
  }

  lemma Behead(s: seq<nat>)
    requires s != [] && Distinct(s)
    ensures Distinct(s[1..]) && Elems(s[1..]) <= Elems(s) && s[0] !in s[1..]
  {
  }

  lemma TidySealed(h: Heap, f: seq<nat>, used: set<nat>)
    requires Tidy(h, f, used)
    ensures Sealed(h.nodes, used)
  {
  }

  lemma Apart(h: Heap, f: seq<nat>, used: set<nat>, s: seq<nat>)
    requires Tidy(h, f, used + Elems(s)) && Elems(s) !! used
    ensures Elems(s) !! Elems(f) && Distinct(f) && Chain(h.nodes, h.freelist, f)
    ensures forall n :: n in f ==> n !in used && n !in s && n < |h.nodes|
    ensures forall n :: n in s ==> n !in used
  {
    ChainInside(h.nodes, h.freelist, f);
    assert forall n :: n in s ==> n in Elems(s);
  }

  /** The loop does not change jumps, nor nodes that are not in the list. */
  lemma LoopKeeps(nodes0: seq<Node>, nodes: seq<Node>, s: seq<nat>, v: bool, free0: Option<nat>)
    requires LoopState(nodes0, nodes, s, v, |s|, free0)
    ensures |nodes| == |nodes0| && forall n :: JmpOf(nodes, n) == JmpOf(nodes0, n)
    ensures forall n :: 0 <= n < |nodes| && n !in s ==> nodes[n] == nodes0[n]
  {
    forall n: nat ensures JmpOf(nodes, n) == JmpOf(nodes0, n) {
      if n in s {
        var k :| 0 <= k < |s| && s[k] == n;
        assert nodes[s[k]] == Passed(nodes0, s, v, |s|, free0, k);
      }
    }
  }

  lemma LoopKeepsHeld(nodes0: seq<Node>, nodes: seq<Node>, s: seq<nat>, held: set<nat>)
    requires |nodes| == |nodes0| && Elems(s) !! held && forall n :: 0 <= n < |nodes| && n !in s ==>
      nodes[n] == nodes0[n]
    ensures Untouched(nodes0, nodes, held)
  {
    assert forall n :: n in s ==> n in Elems(s);
  }

  /** Three waiting jumps for true, false and true, when those for false are to go: the third is lost. */
  lemma ThirdLost(nodes0: seq<Node>, nodes: seq<Node>, l: JmpList, free0: Option<nat>, s: seq<nat>, f: seq<nat>)
    requires IsList(nodes0, l, s) && Chain(nodes0, free0, f) && Elems(s) !! Elems(f)
    requires Results(Jmps(nodes0, s)) == [true, false, true] && LoopState(nodes0, nodes, s, true, |s|, free0)
    ensures |s| == 3 && Filter(nodes0, s, true) == [s[0], s[2]] && !Chain(nodes, Some(s[0]), [s[0], s[2]])
    ensures Lost(nodes, Some(s[0]), FreeHead(nodes0, s, true, 3, free0), s[2], Elems(s) + Elems(f))
  {
    var rs := Results(Jmps(nodes0, s));
    assert |s| == |rs| == 3 && rs[0] && !rs[1] && rs[2];
    assert !Opposite(nodes0, s[0], true) && Opposite(nodes0, s[1], true) && !Opposite(nodes0, s[2], true);
    LoopResult(nodes0, nodes, l, free0, s, f, true);
    hide Lost, Chain, LoopState, FreeHead;
    assert s[..2][..1] == s[..1] && s[..1][..0] == [];
    assert Filter(nodes0, s[..1], true) == [s[0]];
    assert Filter(nodes0, s[..2], true) == [s[0]];
  }

  /** The other direction of a jump. */
  function FlippedNode(n: Node): Node { n.(sc := n.sc.(result := !n.sc.result)) }

  function Flipped(sc: seq<ScJmp>): seq<ScJmp> {
    seq(|sc|, k requires 0 <= k < |sc| => sc[k].(result := !sc[k].result))
  }

  /** The first i nodes of the list are flipped, nothing else has changed. */
  ghost predicate FlippedTo(nodes0: seq<Node>, nodes: seq<Node>, s: seq<nat>, i: nat) {
    |nodes| == |nodes0| &&
    (forall k :: 0 <= k < |s| ==>
      s[k] < |nodes0| && nodes[s[k]] == if k < i then FlippedNode(nodes0[s[k]]) else nodes0[s[k]]) &&
    (forall n :: 0 <= n < |nodes0| && n !in s ==> nodes[n] == nodes0[n])
  }

  lemma FlipStart(nodes: seq<Node>, s: seq<nat>)
    requires forall k :: 0 <= k < |s| ==> s[k] < |nodes|
    ensures FlippedTo(nodes, nodes, s, 0)
  {
  }

  lemma FlipStep(nodes0: seq<Node>, nodes: seq<Node>, s: seq<nat>, i: nat)
    requires i < |s| && Distinct(s) && FlippedTo(nodes0, nodes, s, i)
    ensures s[i] < |nodes| == |nodes0| && nodes[s[i]] == nodes0[s[i]]
    ensures FlippedTo(nodes0, nodes[s[i] := FlippedNode(nodes[s[i]])], s, i + 1)
  {
  }

  lemma FlipKeeps(h0: Heap, h: Heap, l: JmpList, s: seq<nat>, f: seq<nat>, used: set<nat>)
    requires IsList(h0.nodes, l, s) && Tidy(h0, f, used + Elems(s)) && Elems(s) !! used
    requires h.freelist == h0.freelist && FlippedTo(h0.nodes, h.nodes, s, |s|)
    ensures IsList(h.nodes, l, s) && Tidy(h, f, used + Elems(s)) && Untouched(h0.nodes, h.nodes, used)
    ensures Jmps(h.nodes, s) == Flipped(Jmps(h0.nodes, s)) && forall n :: n in f ==>
      JmpOf(h.nodes, n) == JmpOf(h0.nodes, n)
  {
    Apart(h0, f, used, s);
    ChainLinks(h0.nodes, l.first, s);
    ChainInside(h0.nodes, l.first, s);
    forall k: nat | k < |s| ensures Linked(h.nodes, s, k, None) { assert Linked(h0.nodes, s, k, None); }
    ChainFromLinks(h.nodes, s, [], None);
    assert s + [] == s;
    ChainKept(h0.nodes, h.nodes, h0.freelist, f);
    ListSealed(h.nodes, l, s);
    UsedSealed(h0.nodes, h.nodes, used, Elems(s), Elems(s));
  }

  // ---- the removal with the right predecessor ----

  /** The nodes of a list around the place i of s, when those before it have been filtered. */
  function Around(nodes0: seq<Node>, s: seq<nat>, v: bool, i: nat): seq<nat>
    requires i <= |s|
  {
    Filter(nodes0, s[..i], v) + s[i..]
  }

  lemma AroundEnds(nodes0: seq<Node>, s: seq<nat>, v: bool)
    ensures Around(nodes0, s, v, 0) == s && Around(nodes0, s, v, |s|) == Filter(nodes0, s, v)
  {
    assert s[..0] == [] && s[0..] == s && s[..|s|] == s && s[|s|..] == [];
  }

  lemma AroundNext(nodes0: seq<Node>, s: seq<nat>, v: bool, i: nat)
    requires i < |s|
    ensures var a := Filter(nodes0, s[..i], v);
      Around(nodes0, s, v, i) == a + [s[i]] + s[i + 1..] &&
      Filter(nodes0, s[..i + 1], v) == (if Opposite(nodes0, s[i], v) then a else a + [s[i]]) &&
      Around(nodes0, s, v, i + 1) == if Opposite(nodes0, s[i], v) then a + s[i + 1..] else Around(nodes0, s, v, i)
  {
    var a := Filter(nodes0, s[..i], v);
    FilterLast(nodes0, s[..i + 1], v);
    hide Filter, Opposite;
    assert s[..i + 1][..i] == s[..i];
    assert s[i..] == [s[i]] + s[i + 1..];
  }

  function LastOf(s: seq<nat>): Option<nat> { if s == [] then None else Some(s[|s| - 1]) }

  /** Unlinking a node with its predecessor keeps the list, the freelist and everything else in use. */
  lemma DelKeeps(h: Heap, l: JmpList, a: seq<nat>, x: nat, b: seq<nat>, f: seq<nat>, used: set<nat>)
    requires IsList(h.nodes, l, a + [x] + b) && Tidy(h, f, used + Elems(a + [x] + b)) && Elems(a + [x] + b) !! used
    requires Sealed(h.nodes, used)
    ensures x < |h.nodes|
    ensures var (h', l') := DelScJmp(h, l, LastOf(a), x);
      IsList(h'.nodes, l', a + b) && Tidy(h', [x] + f, used + Elems(a + b)) && Elems(a + b) !! used &&
      Untouched(h.nodes, h'.nodes, used) && forall n :: JmpOf(h'.nodes, n) == JmpOf(h.nodes, n)
  {
    var s := a + [x] + b;
    assert s[|a|] == x && x in Elems(s);
    ChainInside(h.nodes, l.first, s);
    var (h', l') := DelScJmp(h, l, LastOf(a), x);
    Apart(h, f, used, s);
    Unlinked(h, l, a, x, b);
    DelFrame(h, l, a, x);
    hide DelScJmp, Chain, IsList;
    Parted(a, x, b, used);
    ListSealed(h'.nodes, l', a + b);
    assert forall n :: n in f ==> n != x && n !in a && n !in b by { assert forall n :: n in a || n in b ==> n in s; }
    DelFree(h, h', f, x, a);
    TidyJoin(h.nodes, h', [x] + f, used, Elems(a + b));
  }

  lemma Parted(a: seq<nat>, x: nat, b: seq<nat>, used: set<nat>)
    requires Distinct(a + [x] + b) && Elems(a + [x] + b) !! used
    ensures Distinct(a + b) && x !in a + b && x !in used && Elems(a + b) !! used && forall n :: n in a ==> n !in used
  {
    var s := a + [x] + b;
    assert s[|a|] == x;
    assert forall k :: 0 <= k < |a| ==> s[k] == a[k];
    assert forall k :: 0 <= k < |b| ==> s[|a| + 1 + k] == b[k];
    assert forall n :: n in a || n in b ==> n in Elems(s);
    assert x in Elems(s);
  }

  /** Only the node itself and its predecessor change, and only their links. */
  lemma DelFrame(h: Heap, l: JmpList, a: seq<nat>, x: nat)
    requires x < |h.nodes|
    ensures var h' := DelScJmp(h, l, LastOf(a), x).0;
      |h'.nodes| == |h.nodes| && h'.freelist == Some(x) && h'.nodes[x].next == h.freelist &&
      (forall n :: JmpOf(h'.nodes, n) == JmpOf(h.nodes, n)) &&
      forall m :: 0 <= m < |h.nodes| && m != x && m !in a ==> h'.nodes[m] == h.nodes[m]
  {
  }

  lemma DelFree(h: Heap, h': Heap, f: seq<nat>, x: nat, a: seq<nat>)
    requires Chain(h.nodes, h.freelist, f) && Distinct(f) && x < |h.nodes| == |h'.nodes|
    requires h'.freelist == Some(x) && h'.nodes[x].next == h.freelist
    requires forall m :: 0 <= m < |h.nodes| && m != x && m !in a ==> h'.nodes[m] == h.nodes[m]
    requires forall n :: n in f ==> n != x && n !in a
    ensures Chain(h'.nodes, h'.freelist, [x] + f) && Distinct([x] + f)
  {
    ChainInside(h.nodes, h.freelist, f);
    assert Untouched(h.nodes, h'.nodes, Elems(f));
    ChainKept(h.nodes, h'.nodes, h.freelist, f);
    assert ([x] + f)[1..] == f;
    DistinctJoin([x], f);
  }

  lemma Unlinked(h: Heap, l: JmpList, a: seq<nat>, x: nat, b: seq<nat>)
    requires IsList(h.nodes, l, a + [x] + b) && x < |h.nodes|
    ensures var (h', l') := DelScJmp(h, l, LastOf(a), x); IsList(h'.nodes, l', a + b)
  {
    var s := a + [x] + b;
    var (h', l') := DelScJmp(h, l, LastOf(a), x);
    var next := h.nodes[x].next;
    ChainLinks(h.nodes, l.first, s);
    ChainInside(h.nodes, l.first, s);
    Parted(a, x, b, {});
    Suffix(h.nodes, s, |a| + 1, b);
    assert Linked(h.nodes, s, |a|, None) && s[|a|] == x;
    hide Chain, Distinct;
    assert next == if b == [] then None else Some(b[0]) by { assert b != [] ==> s[|a| + 1] == b[0]; }
    ApartAfter(a, x, b);
    DelFrame(h, l, a, x);
    assert Untouched(h.nodes, h'.nodes, Elems(b));
    ChainKept(h.nodes, h'.nodes, next, b);
    LinkedAround(h.nodes, h'.nodes, a, x, b, next);
    ChainFromLinks(h'.nodes, a, b, next);
  }

  lemma ApartAfter(a: seq<nat>, x: nat, b: seq<nat>)
    requires Distinct(a + [x] + b)
    ensures forall n :: n in b ==> n != x && n !in a
  {
    var s := a + [x] + b;
    assert s[|a|] == x;
    forall k, m | 0 <= k < |b| && 0 <= m < |a| ensures b[k] != a[m] { assert s[|a| + 1 + k] == b[k] && s[m] == a[m]; }
    forall k | 0 <= k < |b| ensures b[k] != x { assert s[|a| + 1 + k] == b[k]; }
  }

  lemma Suffix(nodes: seq<Node>, s: seq<nat>, i: nat, b: seq<nat>)
    requires Links(nodes, s, None) && i <= |s| && b == s[i..]
    ensures Chain(nodes, if b == [] then None else Some(b[0]), b)
  {
    forall k: nat | k < |b| ensures Linked(nodes, b, k, None) { assert Linked(nodes, s, i + k, None); }
    ChainFromLinks(nodes, b, [], None);
    assert b + [] == b;
  }

  lemma LinkedAround(nodes: seq<Node>, nodes': seq<Node>, a: seq<nat>, x: nat, b: seq<nat>, next: Option<nat>)
    requires Links(nodes, a + [x] + b, None) && Distinct(a + [x] + b) && x < |nodes| && next == nodes[x].next
    requires exists free :: nodes' == SetNext(SetNext(nodes, LastOf(a), next), Some(x), free)
    ensures Links(nodes', a, next)
  {
    var s := a + [x] + b;
    assert s[|a|] == x;
    forall k: nat | k < |a| ensures Linked(nodes', a, k, next) {
      assert Linked(nodes, s, k, None) && s[k] == a[k] && s[k] != x;
      assert k + 1 < |a| ==>
        s[k + 1] == a[k + 1] && a[k] != a[|a| - 1] by { assert k + 1 < |a| ==> s[|a| - 1] == a[|a| - 1]; }
    }
  }
}
