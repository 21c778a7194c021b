/** A hash table from nonzero words to words: open addressing, linear probing, power-of-two capacity. */
module HashMap {
  import opened Basics

  /** A slot; key zero marks an empty one. */
  datatype Entry = Entry(key: nat, value: nat)

  const NULL_KEY: nat := 0
  const EMPTY_ENTRY := Entry(NULL_KEY, 0)

  // ---- masking ----

  predicate IsPow2(n: nat) {
    n == 1 || (n > 0 && n % 2 == 0 && IsPow2(n / 2))
  }

  /** Bitwise and of naturals. */
  function BitAnd(x: nat, y: nat): nat {
    if x == 0 || y == 0 then 0 else 2 * BitAnd(x / 2, y / 2) + (x % 2) * (y % 2)
  }

  /** Masking with one less than a power of two is the remainder. */
  lemma {:induction false} MaskIsMod(x: nat, cap: nat)
    requires IsPow2(cap)
    ensures BitAnd(x, cap - 1) == x % cap
  {
    MaskIsRest(x, cap);
  }

  function Rest(x: nat, n: nat): nat
    requires n > 0
  {
    x % n
  }

  lemma {:induction false} MaskIsRest(x: nat, cap: nat)
    requires IsPow2(cap)
    ensures BitAnd(x, cap - 1) == Rest(x, cap)
  {
    hide Rest, IsPow2, BitAnd;
    if cap == 1 {
      RestOfOne(x);
    } else {
      var half := cap / 2;
      Halved(cap);
      MaskStep(x, half);
      RestDouble(x, half);
      if x > 0 { MaskIsRest(x / 2, half); }
    }
  }

  lemma RestOfOne(x: nat)
    ensures BitAnd(x, 0) == Rest(x, 1)
  {
  }

  lemma RestDouble(x: nat, half: nat)
    requires half > 0
    ensures Rest(x, 2 * half) == if x == 0 then 0 else 2 * Rest(x / 2, half) + x % 2
  {
    ModDouble(x, half);
  }

  lemma Halved(cap: nat)
    requires IsPow2(cap) && cap != 1
    ensures cap > 1 && cap == 2 * (cap / 2) && cap / 2 > 0 && IsPow2(cap / 2)
  {
  }

  lemma MaskStep(x: nat, half: nat)
    requires half > 0
    ensures BitAnd(x, 2 * half - 1) == if x == 0 then 0 else 2 * BitAnd(x / 2, half - 1) + x % 2
  {
    assert (2 * half - 1) / 2 == half - 1 && (2 * half - 1) % 2 == 1;
  }

  lemma ModDouble(x: nat, half: nat)
    requires half > 0
    ensures x % (2 * half) == 2 * (x / 2 % half) + x % 2
  {
    var q, r := x / 2 / half, x / 2 % half;
    assert x / 2 == q * half + r;
    assert x == 2 * (q * half + r) + x % 2;
    assert x == q * (2 * half) + (2 * r + x % 2);
    ModUnique(x, 2 * half, q, 2 * r + x % 2);
  }

  lemma ModUnique(x: nat, m: nat, q: nat, r: nat)
    requires m > 0 && x == q * m + r && r < m
    ensures x % m == r
  {
    var q' := x / m;
    assert x == q' * m + x % m;
    assert (q - q') * m == q * m - q' * m;
    SmallMultiple(q - q', m);
  }

  lemma SmallMultiple(d: int, m: nat)
    requires m > 0 && d * m < m && d * m > 0 - m
    ensures d == 0
  {
  }

  /** The slot after i, around the end of the table. */
  function Next(i: nat, cap: nat): (n: nat)
    requires i < cap
    ensures n < cap
  {
    if i + 1 == cap then 0 else i + 1
  }

  lemma NextIsMasked(i: nat, cap: nat)
    requires i < cap && IsPow2(cap)
    ensures BitAnd(i + 1, cap - 1) == Next(i, cap)
  {
    hide IsPow2;
    MaskIsMod(i + 1, cap);
    if i + 1 == cap { ModUnique(cap, cap, 1, 0); } else { ModUnique(i + 1, cap, 0, i + 1); }
  }

  // ---- tables as sequences of slots ----

  /** How many steps of probing lead from slot h to slot i. */
  function Dist(h: nat, i: nat, cap: nat): nat
    requires h < cap && i < cap
  {
    if i >= h then i - h else i + cap - h
  }

  function Home(hash: nat -> nat, key: nat, cap: nat): (h: nat)
    requires cap > 0
    ensures h < cap
  {
    hash(key) % cap
  }

  ghost predicate Distinct(e: seq<Entry>) {
    forall i, j :: 0 <= i < |e| && 0 <= j < |e| && e[i].key != NULL_KEY && e[i].key == e[j].key ==> i == j
  }

  /** No key occurs twice, and every slot on the way from a key's home to the key is taken. */
  ghost predicate Probed(e: seq<Entry>, hash: nat -> nat) {
    |e| > 0 &&
    Distinct(e) &&
    (forall i, j :: 0 <= i < |e| && 0 <= j < |e| && e[i].key != NULL_KEY && Before(e, hash, i, j) ==>
      e[j].key != NULL_KEY)
  }

  /** Slot j is on the way from the home of the key in slot i to slot i. */
  predicate Before(e: seq<Entry>, hash: nat -> nat, i: nat, j: nat)
    requires i < |e| && j < |e|
  {
    var h := Home(hash, e[i].key, |e|);
    Dist(h, j, |e|) < Dist(h, i, |e|)
  }

  /** The table holds exactly the pairs of m. */
  ghost predicate Holds(e: seq<Entry>, m: map<nat, nat>) {
    NULL_KEY !in m &&
    (forall i :: 0 <= i < |e| && e[i].key != NULL_KEY ==> e[i].key in m && m[e[i].key] == e[i].value) &&
    (forall k :: k in m ==> exists i :: 0 <= i < |e| && e[i].key == k)
  }

  lemma {:induction false} KeysCounted(e: seq<Entry>, n: nat)
    requires n <= |e|
    requires forall i :: 0 <= i < n ==> e[i].key != NULL_KEY
    requires forall i, j :: 0 <= i < j < n ==> e[i].key != e[j].key
    ensures |set i | 0 <= i < n :: e[i].key| == n
  {
    if n > 0 {
      KeysCounted(e, n - 1);
      var s := set i | 0 <= i < n - 1 :: e[i].key;
      assert (set i | 0 <= i < n :: e[i].key) == s + {e[n - 1].key};
      assert e[n - 1].key !in s;
    }
  }

  /** A table with fewer keys than slots has an empty slot. */
  lemma HasEmpty(e: seq<Entry>, hash: nat -> nat, m: map<nat, nat>)
    requires Probed(e, hash) && Holds(e, m) && |m| < |e|
    ensures exists i :: 0 <= i < |e| && e[i].key == NULL_KEY
  {
    if forall i :: 0 <= i < |e| ==> e[i].key != NULL_KEY {
      KeysCounted(e, |e|);
      var s := set i | 0 <= i < |e| :: e[i].key;
      assert s <= m.Keys;
      SubsetSize(s, m.Keys);
    }
  }

  /** The probe from slot h has passed the slots nearer than i: none is empty, none holds the key. */
  ghost predicate Passed(e: seq<Entry>, h: nat, i: nat, key: nat)
    requires h < |e| && i < |e|
  {
    forall j :: 0 <= j < |e| && Dist(h, j, |e|) < Dist(h, i, |e|) ==> e[j].key != NULL_KEY && e[j].key != key
  }

  /** An empty slot ends the probe: the key is not in the table. */
  lemma NotFound(e: seq<Entry>, hash: nat -> nat, m: map<nat, nat>, key: nat, i: nat)
    requires Probed(e, hash) && Holds(e, m) && i < |e| && key != NULL_KEY
    requires Passed(e, Home(hash, key, |e|), i, key) && e[i].key == NULL_KEY
    ensures key !in m && forall k :: 0 <= k < |e| ==> e[k].key != key
  {
    hide Home;
    forall k | 0 <= k < |e| ensures e[k].key != key {
      var h := Home(hash, key, |e|);
      if Dist(h, k, |e|) == Dist(h, i, |e|) {
        assert k == i;
      } else if Dist(h, k, |e|) > Dist(h, i, |e|) {
        assert e[k].key == key ==> Before(e, hash, k, i);
      }
    }
  }

  lemma Found(e: seq<Entry>, m: map<nat, nat>, i: nat)
    requires Holds(e, m) && i < |e| && e[i].key != NULL_KEY
    ensures e[i].key in m && m[e[i].key] == e[i].value
  {
  }

  /** Going on to the next slot; the probe cannot come around, since some slot is empty. */
  lemma PassOn(e: seq<Entry>, h: nat, i: nat, key: nat)
    requires h < |e| && i < |e| && Passed(e, h, i, key) && e[i].key != NULL_KEY && e[i].key != key
    requires exists k :: 0 <= k < |e| && e[k].key == NULL_KEY
    ensures Dist(h, i, |e|) + 1 < |e|
    ensures Dist(h, Next(i, |e|), |e|) == Dist(h, i, |e|) + 1
    ensures Passed(e, h, Next(i, |e|), key)
  {
    var k :| 0 <= k < |e| && e[k].key == NULL_KEY;
    assert Dist(h, k, |e|) > Dist(h, i, |e|);
    var n := Next(i, |e|);
    forall j | 0 <= j < |e| && Dist(h, j, |e|) < Dist(h, n, |e|) ensures e[j].key != NULL_KEY && e[j].key != key {
      if Dist(h, j, |e|) == Dist(h, i, |e|) { assert j == i; }
    }
  }

  /** Putting a key in the slot its probe found. */
  lemma PutKeeps(e: seq<Entry>, hash: nat -> nat, m: map<nat, nat>, key: nat, value: nat, i: nat)
    requires Probed(e, hash) && Holds(e, m) && i < |e| && key != NULL_KEY
    requires Passed(e, Home(hash, key, |e|), i, key) && (e[i].key == NULL_KEY || e[i].key == key)
    ensures Probed(e[i := Entry(key, value)], hash) && Holds(e[i := Entry(key, value)], m[key := value])
    ensures e[i].key == key <==> key in m
  {
    hide Home;
    if e[i].key == NULL_KEY { NotFound(e, hash, m, key, i); }
    PutProbed(e, hash, key, value, i);
    PutHolds(e, m, key, value, i);
  }

  lemma PutHolds(e: seq<Entry>, m: map<nat, nat>, key: nat, value: nat, i: nat)
    requires Holds(e, m) && i < |e| && key != NULL_KEY
    requires forall j :: 0 <= j < |e| && j != i ==> e[j].key != key
    requires e[i].key == NULL_KEY || e[i].key == key
    ensures Holds(e[i := Entry(key, value)], m[key := value])
  {
    var e' := e[i := Entry(key, value)];
    var m' := m[key := value];
    forall k | k in m' ensures exists j :: 0 <= j < |e'| && e'[j].key == k {
      if k == key {
        assert e'[i].key == key;
      } else {
        var j :| 0 <= j < |e| && e[j].key == k;
        assert e'[j].key == k;
      }
    }
  }

  lemma PutProbed(e: seq<Entry>, hash: nat -> nat, key: nat, value: nat, i: nat)
    requires Probed(e, hash) && i < |e| && key != NULL_KEY
    requires Passed(e, Home(hash, key, |e|), i, key) && (e[i].key == NULL_KEY || e[i].key == key)
    requires e[i].key == NULL_KEY ==> forall j :: 0 <= j < |e| ==> e[j].key != key
    ensures Probed(e[i := Entry(key, value)], hash)
    ensures forall j :: 0 <= j < |e| && j != i ==> e[j].key != key
  {
    hide Home;
    var e' := e[i := Entry(key, value)];
    forall x, y | 0 <= x < |e'| && 0 <= y < |e'| && e'[x].key != NULL_KEY && Before(e', hash, x, y)
      ensures e'[y].key != NULL_KEY
    {
      if x != i { assert Before(e, hash, x, y); }
    }
  }

  /** The probe starts at the masked hash, having passed nothing. */
  lemma ProbeStart(e: seq<Entry>, hash: nat -> nat, key: nat)
    requires |e| > 0 && IsPow2(|e|)
    ensures BitAnd(hash(key), |e| - 1) == Home(hash, key, |e|)
    ensures Passed(e, Home(hash, key, |e|), Home(hash, key, |e|), key)
  {
    MaskIsMod(hash(key), |e|);
  }

  class HMap {
    var entries: array<Entry>
    var cap: nat
    var len: nat
    var mask: nat
    const hash: nat -> nat
    /** The mathematical map the table stands for. */
    ghost var contents: map<nat, nat>

    ghost predicate Valid()
      reads this, entries
    {
      entries.Length == cap && cap > 0 && IsPow2(cap) && mask == cap - 1 &&
      len == |contents| && 10 * len < 6 * cap &&
      Probed(entries[..], hash) && Holds(entries[..], contents)
    }

    /** A new map with 2^capLog2 slots. */
    constructor (capLog2: nat, hash: nat -> nat)
      ensures Valid() && fresh(entries) && contents == map[] && this.hash == hash
    {
      this.hash := hash;
      var c := Shift(capLog2);
      cap, mask, len := c, c - 1, 0;
      entries := new Entry[c](_ => EMPTY_ENTRY);
      contents := map[];
    }

    /** Moves every entry to a table of the given capacity, if it is larger; the puts it makes never expand again. */
    method Expand(newCap: nat)
      requires Valid() && IsPow2(newCap)
      modifies this, entries
      ensures Valid() && contents == old(contents)
      ensures if newCap <= old(cap) then entries == old(entries) && cap == old(cap) else fresh(entries) && cap == newCap
      decreases 1, 0
    {
      if newCap <= cap {
        return;
      }
      Pow2Gap(cap, newCap);
      hide Probed, Holds, IsPow2, Moved;
      var oldEntries, oldCap := entries, cap;
      ghost var e, m := entries[..], contents;
      ProbedDistinct(e, hash);
      entries := new Entry[newCap](_ => EMPTY_ENTRY);
      cap, len, mask := newCap, 0, newCap - 1;
      contents := map[];
      EmptyTable(entries[..], hash);
      MovedNone(e, m);
      MoveEntries(oldEntries, e, m);
      MovedAll(e, m);
    }

    method MoveEntries(oldEntries: array<Entry>, ghost e: seq<Entry>, ghost m: map<nat, nat>)
      requires Valid() && oldEntries != entries && oldEntries[..] == e && Distinct(e) && Holds(e, m)
      requires contents == Moved(e, m, 0) && cap >= 2 * |e| && 10 * |m| < 6 * |e|
      modifies this, entries
      ensures Valid() && entries == old(entries) && cap == old(cap) && contents == Moved(e, m, |e|)
      decreases 0, 2
    {
      hide Probed, Holds, IsPow2, Moved, Distinct;
      var i := 0;
      while i < oldEntries.Length
        invariant 0 <= i <= |e| && oldEntries[..] == e && entries == old(entries)
        invariant Valid() && cap >= 2 * |e|
        invariant contents == Moved(e, m, i)
      {
        var entry := oldEntries[i];
        MovedNext(e, m, i);
        if entry.key > 0 {
          var slot := Put(entry.key, entry.value);
        }
        i := i + 1;
      }
    }

    /** Associates the key with the value and returns the slot. */
    method Put(key: nat, value: nat) returns (slot: nat)
      requires Valid() && key != NULL_KEY
      modifies this, entries
      ensures Valid() && contents == old(contents)[key := value]
      ensures fresh(entries) || entries == old(entries)
      ensures if 10 * (old(len) + 1) < 6 * old(cap) then entries == old(entries) && cap == old(cap)
        else cap == 2 * old(cap)
      ensures slot < entries.Length && entries[slot] == Entry(key, value)
      decreases if 10 * (len + 1) >= 6 * cap then 1 else 0, 1
    {
      hide Probed, Holds, IsPow2, Passed;
      // Expand at 60%.
      if 10 * (len + 1) >= 6 * cap {
        DoublePow2(cap);
        Expand(cap * 2);
      }
      slot := Probe(key);
      ghost var e := entries[..];
      PutKeeps(e, hash, contents, key, value, slot);
      if entries[slot].key == NULL_KEY {
        len := len + 1;
      }
      entries[slot] := Entry(key, value);
      assert entries[..] == e[slot := Entry(key, value)];
      contents := contents[key := value];
    }

    /** The slot that holds the key, or the empty slot that ends its probe. */
    method Probe(key: nat) returns (i: nat)
      requires Valid() && key != NULL_KEY
      ensures i < entries.Length && (entries[i].key == NULL_KEY || entries[i].key == key)
      ensures Passed(entries[..], Home(hash, key, cap), i, key)
    {
      hide Probed, Holds, BitAnd, Home, IsPow2, Passed, Next, Dist;
      ghost var e := entries[..];
      HasEmpty(e, hash, contents);
      ProbeStart(e, hash, key);
      i := BitAnd(hash(key), mask);
      while entries[i].key != NULL_KEY && entries[i].key != key
        invariant i < cap && Passed(e, Home(hash, key, cap), i, key)
        decreases cap - Dist(Home(hash, key, cap), i, cap)
      {
        PassOn(e, Home(hash, key, cap), i, key);
        NextIsMasked(i, cap);
        i := BitAnd(i + 1, mask);
      }
    }

    /** Looks the key up. */
    method Get(key: nat) returns (r: Option<nat>)
      requires Valid() && key != NULL_KEY
      ensures r == if key in contents then Some(contents[key]) else None
    {
      hide Probed, Holds, BitAnd, Home, IsPow2, Passed, Next, Dist;
      ghost var e := entries[..];
      HasEmpty(e, hash, contents);
      ProbeStart(e, hash, key);
      var i: nat := BitAnd(hash(key), mask);
      while true
        invariant i < cap && Passed(e, Home(hash, key, cap), i, key)
        decreases cap - Dist(Home(hash, key, cap), i, cap)
      {
        if entries[i].key == key {
          Found(e, contents, i);
          return Some(entries[i].value);
        }
        if entries[i].key == NULL_KEY {
          NotFound(e, hash, contents, key, i);
          return None;
        }
        PassOn(e, Home(hash, key, cap), i, key);
        NextIsMasked(i, cap);
        i := BitAnd(i + 1, mask);
      }
    }
  }

  function Shift(n: nat): (r: nat)
    ensures r > 0 && IsPow2(r)
  {
    if n == 0 then 1 else 2 * Shift(n - 1)
  }

  /** The pairs of m whose keys are in the first i slots. */
  ghost function Moved(e: seq<Entry>, m: map<nat, nat>, i: nat): map<nat, nat>
    requires i <= |e|
  {
    map k | k in m && (exists j :: 0 <= j < i && e[j].key == k) :: m[k]
  }

  lemma ProbedDistinct(e: seq<Entry>, hash: nat -> nat)
    requires Probed(e, hash)
    ensures Distinct(e)
  {
  }

  lemma EmptyTable(e: seq<Entry>, hash: nat -> nat)
    requires |e| > 0 && forall i :: 0 <= i < |e| ==> e[i] == EMPTY_ENTRY
    ensures Probed(e, hash) && Holds(e, map[])
  {
  }

  /** The next power of two is the double. */
  lemma {:induction false} Pow2Gap(a: nat, b: nat)
    requires IsPow2(a) && IsPow2(b) && a < b
    ensures 2 * a <= b
  {
    if a > 1 { Pow2Gap(a / 2, b / 2); }
  }

  lemma DoublePow2(n: nat)
    requires IsPow2(n)
    ensures IsPow2(2 * n)
  {
  }

  lemma MovedNone(e: seq<Entry>, m: map<nat, nat>)
    ensures Moved(e, m, 0) == map[]
  {
  }

  lemma MovedNext(e: seq<Entry>, m: map<nat, nat>, i: nat)
    requires i < |e| && Distinct(e) && Holds(e, m)
    ensures Moved(e, m, i + 1) == if e[i].key > 0 then Moved(e, m, i)[e[i].key := e[i].value] else Moved(e, m, i)
    ensures e[i].key > 0 ==> e[i].key !in Moved(e, m, i) && |Moved(e, m, i)| < |m|
  {
    var a, b := Moved(e, m, i), Moved(e, m, i + 1);
    var key := e[i].key;
    MovedKeys(e, m, i);
    MovedValues(e, m, i);
    MovedValues(e, m, i + 1);
    if key > 0 {
      MapAdd(a, b, key, e[i].value);
      SubsetSize(a.Keys, m.Keys - {key});
    } else {
      MapSame(a, b);
    }
  }

  lemma MapAdd(a: map<nat, nat>, b: map<nat, nat>, key: nat, value: nat)
    requires b.Keys == a.Keys + {key} && key !in a && b[key] == value
    requires forall k :: k in a ==> b[k] == a[k]
    ensures b == a[key := value]
  {
  }

  lemma MapSame(a: map<nat, nat>, b: map<nat, nat>)
    requires b.Keys == a.Keys && forall k :: k in a ==> b[k] == a[k]
    ensures b == a
  {
  }

  lemma MovedValues(e: seq<Entry>, m: map<nat, nat>, i: nat)
    requires i <= |e|
    ensures forall k :: k in Moved(e, m, i) ==> k in m && Moved(e, m, i)[k] == m[k]
  {
  }

  lemma MovedKeys(e: seq<Entry>, m: map<nat, nat>, i: nat)
    requires i < |e| && Distinct(e) && Holds(e, m)
    ensures Moved(e, m, i).Keys <= m.Keys
    ensures forall k :: k in m ==> (k in Moved(e, m, i + 1) <==> k in Moved(e, m, i) || k == e[i].key)
    ensures e[i].key !in Moved(e, m, i)
    ensures e[i].key > 0 ==>
      e[i].key in m && m[e[i].key] == e[i].value && Moved(e, m, i + 1).Keys == Moved(e, m, i).Keys + {e[i].key}
    ensures e[i].key == 0 ==> Moved(e, m, i + 1).Keys == Moved(e, m, i).Keys
  {
    forall k | k in m ensures k in Moved(e, m, i + 1) <==> k in Moved(e, m, i) || k == e[i].key {
      if k in Moved(e, m, i + 1) {
        var j :| 0 <= j < i + 1 && e[j].key == k;
      }
    }
  }

  lemma MovedAll(e: seq<Entry>, m: map<nat, nat>)
    requires Holds(e, m)
    ensures Moved(e, m, |e|) == m
  {
  }
}
