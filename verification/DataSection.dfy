/** Writing the initial values of global variables into the data section. */
module DataSection {
  import opened Basics
  import opened DataLayout
  import opened HashMap

  /** What a pointer is initialised with: a symbol or a string literal, and a displacement. */
  datatype Address = Address(isSymbol: bool, id: nat, disp: int)

  datatype Const =
    | Unset(typ: Type)
    | Imm(typ: Type, value: nat)
    | AddressOf(typ: Type, addr: Address)
    | ProcOf(typ: Type, sym: nat)
    | StrLit(typ: Type, str: seq<nat>)
    | FloatLit(typ: Type, bits: nat, size: nat)
    | ArrayInit(typ: Type, inits: seq<ElemInit>)
    | StructInit(typ: Type, fieldInits: seq<Option<Const>>)
    | UnionInit(typ: Type, index: nat, fieldInit: Option<Const>)

  datatype ElemInit = ElemInit(index: nat, init: Const)

  /** A place in the section that the linker fills in. */
  datatype Reloc = Reloc(addr: Address, usageOff: nat)

  const PTR_SIZE: nat := 8

  /** The resolver accepts the initialiser for its type. */
  ghost predicate WellTyped(c: Const) {
    WellFormed(c.typ) &&
    match c
    case Unset(_) => true
    case Imm(t, _) => t.Scalar?
    case AddressOf(t, _) => t.Scalar? && t.size == PTR_SIZE
    case ProcOf(t, _) => t.Scalar? && t.size == PTR_SIZE
    case StrLit(t, str) => t.size == |str| + 1
    case FloatLit(t, _, size) => t.Scalar? && t.size == size
    case ArrayInit(t, inits) =>
      t.ArrayType? && forall k :: 0 <= k < |inits| ==>
        inits[k].index < t.len && inits[k].init.typ == t.base && WellTyped(inits[k].init)
    case StructInit(t, fs) =>
      t.StructType? && |fs| == |t.fields| &&
      forall i :: 0 <= i < |fs| && fs[i].Some? ==> fs[i].value.typ == t.fields[i].typ && WellTyped(fs[i].value)
    case UnionInit(t, index, f) =>
      t.UnionType? && index < |t.fields| && (f.Some? ==> f.value.typ == t.fields[index].typ && WellTyped(f.value))
  }

  // ---- what the bytes must be ----

  /** The n lowest bytes of v, lowest first. */
  function LittleEndian(v: nat, n: nat): (b: seq<nat>)
    ensures |b| == n
  {
    if n == 0 then [] else [v % 256] + LittleEndian(v / 256, n - 1)
  }

  function ValueOf(b: seq<nat>): nat { if b == [] then 0 else b[0] + 256 * ValueOf(b[1..]) }

  function Pow256(n: nat): (r: nat)
    ensures r > 0
  {
    if n == 0 then 1 else 256 * Pow256(n - 1)
  }

  /** The bytes are those of the value: below 256, and reading them back gives the value, cut to the size. */
  lemma {:induction false} LittleEndianReadsBack(v: nat, n: nat)
    ensures forall i :: 0 <= i < n ==> LittleEndian(v, n)[i] < 256
    ensures ValueOf(LittleEndian(v, n)) < Pow256(n) && exists q: nat :: v == q * Pow256(n) + ValueOf(LittleEndian(v, n))
  {
    if n == 0 {
      assert v == v * Pow256(0) + 0;
    } else {
      LittleEndianReadsBack(v / 256, n - 1);
      var low := ValueOf(LittleEndian(v / 256, n - 1));
      var q: nat :| v / 256 == q * Pow256(n - 1) + low;
      assert LittleEndian(v, n)[1..] == LittleEndian(v / 256, n - 1);
      assert 256 * (q * Pow256(n - 1)) == q * Pow256(n);
      assert v == q * Pow256(n) + ValueOf(LittleEndian(v, n));
    }
  }

  /** Byte i is the i-th digit of the value to the base 256: the lowest is first. */
  lemma {:induction false} LittleEndianAt(v: nat, n: nat, i: nat)
    requires i < n
    ensures LittleEndian(v, n)[i] == v / Pow256(i) % 256
  {
    if i > 0 {
      LittleEndianAt(v / 256, n - 1, i - 1);
      DivideTwice(v, Pow256(i - 1));
    }
  }

  lemma DivideTwice(v: nat, b: nat)
    requires b > 0
    ensures v / 256 / b == v / (256 * b)
  {
    var q := v / 256 / b;
    var r := v / 256 - q * b;
    assert v == 256 * (q * b + r) + v % 256 && 0 <= r <= b - 1;
    assert 256 * (q * b + r) == q * (256 * b) + 256 * r;
    var s := 256 * r + v % 256;
    assert v == q * (256 * b) + s && 0 <= s < 256 * b;
    assert (v / (256 * b) - q) * (256 * b) == v / (256 * b) * (256 * b) - q * (256 * b);
    HashMap.SmallMultiple(v / (256 * b) - q, 256 * b);
  }

  predicate Zeros(b: seq<nat>) { forall i :: 0 <= i < |b| ==> b[i] == 0 }

  /** The n bytes at off, if they are all there. */
  function Slice(b: seq<nat>, off: nat, n: nat): seq<nat> { if off + n <= |b| then b[off..off + n] else [] }

  /** The last of the first n initialisers that is for element i. */
  function LastFor(inits: seq<ElemInit>, n: nat, i: nat): (r: Option<nat>)
    requires n <= |inits|
    ensures r.None? <==> forall k :: 0 <= k < n ==> inits[k].index != i
    ensures r.Some? ==> r.value < n && inits[r.value].index == i && forall k :: r.value < k < n ==> inits[k].index != i
  {
    if n == 0 then None else if inits[n - 1].index == i then Some(n - 1) else LastFor(inits, n - 1, i)
  }

  /** Byte j belongs to one of the first n fields. */
  predicate InField(fields: seq<Field>, n: nat, j: nat)
    requires n <= |fields|
  {
    exists i :: 0 <= i < n && fields[i].offset <= j < fields[i].End()
  }

  /** The bytes of an initialised object: each member's at the place the layout gives it, all others zero. */
  ghost predicate Image(c: Const, b: seq<nat>) {
    |b| == c.typ.size &&
    match c
    case Unset(_) => Zeros(b)
    case Imm(t, value) => b == LittleEndian(value, t.size)
    case AddressOf(_, _) => Zeros(b)
    case ProcOf(_, _) => Zeros(b)
    case StrLit(_, str) => b == str + [0]
    case FloatLit(t, bits, _) => b == LittleEndian(bits, t.size)
    case ArrayInit(t, inits) =>
      t.ArrayType? &&
      forall i: nat :: i < t.len ==>
        var e, last := Slice(b, ElemOff(i, t.base.size), t.base.size), LastFor(inits, |inits|, i);
        (last.Some? ==> Image(inits[last.value].init, e)) && (last.None? ==> Zeros(e))
    case StructInit(t, fs) =>
      t.StructType? && |fs| == |t.fields| &&
      (forall i :: 0 <= i < |fs| ==>
        var e := Slice(b, t.fields[i].offset, t.fields[i].typ.size);
        (fs[i].Some? ==> Image(fs[i].value, e)) && (fs[i].None? ==> Zeros(e))) &&
      (forall j :: 0 <= j < |b| && !InField(t.fields, |t.fields|, j) ==> b[j] == 0)
    case UnionInit(t, index, f) =>
      t.UnionType? && index < |t.fields| &&
      (f.None? ==> Zeros(b)) &&
      (f.Some? ==>
        t.fields[index].typ.size <= |b| && Image(f.value, b[..t.fields[index].typ.size]) &&
        Zeros(b[t.fields[index].typ.size..]))
  }

  // ---- where the relocations must be ----

  /** The relocations of an object at base. */
  function Relocs(c: Const, base: nat): seq<Reloc>
    decreases c, 2, 0
  {
    match c
    case AddressOf(_, addr) => [Reloc(addr, base)]
    case ProcOf(_, sym) => [Reloc(Address(true, sym, 0), base)]
    case ArrayInit(t, _) => if t.ArrayType? then ElemRelocs(c, t.len, base) else []
    case StructInit(t, fs) => if t.StructType? && |fs| == |t.fields| then FieldRelocs(c, |fs|, base) else []
    case UnionInit(_, _, f) => if f.Some? then Relocs(f.value, base) else []
    case _ => []
  }

  /** Those of element n. */
  function ElemReloc(c: Const, n: nat, base: nat): seq<Reloc>
    requires c.ArrayInit? && c.typ.ArrayType?
    decreases c, 0, 0
  {
    var last := LastFor(c.inits, |c.inits|, n);
    if last.Some? then Relocs(c.inits[last.value].init, base + ElemOff(n, c.typ.base.size)) else []
  }

  /** Those of the first n elements. */
  function ElemRelocs(c: Const, n: nat, base: nat): seq<Reloc>
    requires c.ArrayInit? && c.typ.ArrayType?
    decreases c, 1, n
  {
    if n == 0 then [] else ElemRelocs(c, n - 1, base) + ElemReloc(c, n - 1, base)
  }

  /** Those of field n. */
  function FieldReloc(c: Const, n: nat, base: nat): seq<Reloc>
    requires c.StructInit? && c.typ.StructType? && n < |c.fieldInits| == |c.typ.fields|
    decreases c, 0, 0
  {
    if c.fieldInits[n].Some? then Relocs(c.fieldInits[n].value, base + c.typ.fields[n].offset) else []
  }

  /** Those of the first n fields. */
  function FieldRelocs(c: Const, n: nat, base: nat): seq<Reloc>
    requires c.StructInit? && c.typ.StructType? && n <= |c.fieldInits| == |c.typ.fields|
    decreases c, 1, n
  {
    if n == 0 then [] else FieldRelocs(c, n - 1, base) + FieldReloc(c, n - 1, base)
  }

  /** Relocations in ascending order, a pointer apart from each other, between lo and hi. */
  predicate Spread(rs: seq<Reloc>, lo: nat, hi: nat) {
    (forall k :: 0 <= k < |rs| ==> lo <= rs[k].usageOff && rs[k].usageOff + PTR_SIZE <= hi) &&
    forall j, k :: 0 <= j < k < |rs| ==> rs[j].usageOff + PTR_SIZE <= rs[k].usageOff
  }

  lemma SpreadAppend(a: seq<Reloc>, b: seq<Reloc>, lo: nat, mid: nat, mid': nat, hi: nat)
    requires lo <= mid <= mid' <= hi && Spread(a, lo, mid) && Spread(b, mid', hi)
    ensures Spread(a + b, lo, hi)
  {
  }

  /** The relocations of an object are inside it, in order, and none overlaps another. */
  lemma {:induction false} RelocsSpread(c: Const, base: nat)
    requires WellTyped(c)
    ensures Spread(Relocs(c, base), base, base + c.typ.size)
    decreases c, 2, 0
  {
    hide WellFormed, Spread, ElemRelocs, FieldRelocs;
    match c
    case AddressOf(_, addr) => OneSpread(Reloc(addr, base));
    case ProcOf(_, sym) => OneSpread(Reloc(Address(true, sym, 0), base));
    case ArrayInit(t, _) =>
      ArraySize(c);
      ElemsSpread(c, t.len, base);
    case StructInit(t, fs) =>
      StructEnd(c);
      FieldsSpread(c, |fs|, base);
      SpreadWiden(FieldRelocs(c, |fs|, base), base, base + t.fields[|fs| - 1].End(), base + t.size);
    case UnionInit(t, i, f) =>
      if f.Some? {
        UnionField(c);
        RelocsSpread(f.value, base);
        SpreadWiden(Relocs(f.value, base), base, base + f.value.typ.size, base + t.size);
      } else {
        NoneSpread(base, base + t.size);
      }
    case _ => NoneSpread(base, base + c.typ.size);
  }

  lemma NoneSpread(lo: nat, hi: nat)
    ensures Spread([], lo, hi)
  {
  }

  lemma OneSpread(r: Reloc)
    ensures Spread([r], r.usageOff, r.usageOff + PTR_SIZE)
  {
  }

  lemma SpreadWiden(rs: seq<Reloc>, lo: nat, mid: nat, hi: nat)
    requires Spread(rs, lo, mid) && mid <= hi
    ensures Spread(rs, lo, hi)
  {
  }

  lemma ArraySize(c: Const)
    requires c.ArrayInit? && WellTyped(c)
    ensures c.typ.size == ElemOff(c.typ.len, c.typ.base.size)
  {
  }

  lemma {:induction false} ElemSpread(c: Const, n: nat, base: nat)
    requires c.ArrayInit? && WellTyped(c) && n < c.typ.len
    ensures var off := base + ElemOff(n, c.typ.base.size); Spread(ElemReloc(c, n, base), off, off + c.typ.base.size)
    decreases c, 0, 0
  {
    hide WellFormed, ElemOff;
    var last := LastFor(c.inits, |c.inits|, n);
    if last.Some? {
      var init := c.inits[last.value].init;
      RelocsSpread(init, base + ElemOff(n, c.typ.base.size));
    }
  }

  lemma {:induction false} ElemsSpread(c: Const, n: nat, base: nat)
    requires c.ArrayInit? && WellTyped(c) && n <= c.typ.len
    ensures Spread(ElemRelocs(c, n, base), base, base + ElemOff(n, c.typ.base.size))
    decreases c, 1, n
  {
    if n > 0 {
      var m, size := n - 1, c.typ.base.size;
      ElemsSpread(c, m, base);
      ElemSpread(c, m, base);
      NextElem(m, size);
      hide Relocs, WellFormed, WellTyped, ElemOff, ElemReloc, Spread;
      var mid := base + ElemOff(m, size);
      SpreadAppend(ElemRelocs(c, m, base), ElemReloc(c, m, base), base, mid, mid, mid + size);
    }
  }

  lemma {:induction false} FieldSpread(c: Const, n: nat, base: nat)
    requires c.StructInit? && WellTyped(c) && n < |c.fieldInits|
    ensures var f := c.typ.fields[n]; Spread(FieldReloc(c, n, base), base + f.offset, base + f.End())
    decreases c, 0, 0
  {
    hide WellFormed;
    if c.fieldInits[n].Some? { RelocsSpread(c.fieldInits[n].value, base + c.typ.fields[n].offset); }
  }

  lemma {:induction false} FieldsSpread(c: Const, n: nat, base: nat)
    requires c.StructInit? && WellTyped(c) && n <= |c.fieldInits|
    ensures Spread(FieldRelocs(c, n, base), base, base + if n == 0 then 0 else c.typ.fields[n - 1].End())
    decreases c, 1, n
  {
    if n > 0 {
      FieldsSpread(c, n - 1, base);
      FieldSpread(c, n - 1, base);
      StructField(c, n - 1);
      StructTyped(c);
      hide Relocs, WellFormed, WellTyped, FieldReloc, Spread;
      var f := c.typ.fields[n - 1];
      var prev := base + if n == 1 then 0 else c.typ.fields[n - 2].End();
      SpreadAppend(FieldRelocs(c, n - 1, base), FieldReloc(c, n - 1, base), base, prev, base + f.offset,
        base + f.End());
    }
  }

  // ---- which relocations there are ----

  /** What the initialiser c says about one member: of several for an element the last. */
  function Inner(c: Const, s: Step): Option<Const> {
    match c
    case ArrayInit(_, inits) => if s.ToElem? then Pick(c, LastFor(inits, |inits|, s.i)) else None
    case StructInit(_, fs) => if s.ToField? && s.i < |fs| then fs[s.i] else None
    case UnionInit(_, index, f) => if s == ToField(index) then f else None
    case _ => None
  }

  /** The initialiser of the member a path leads to. */
  function InitAt(c: Const, path: seq<Step>): Option<Const>
    decreases |path|
  {
    if path == [] then Some(c)
    else var inner := Inner(c, path[0]); if inner.Some? then InitAt(inner.value, path[1..]) else None
  }

  /** What a pointer is initialised to point to; a procedure stands for its symbol. */
  function Target(c: Const): Option<Address> {
    match c
    case AddressOf(_, addr) => Some(addr)
    case ProcOf(_, sym) => Some(Address(true, sym, 0))
    case _ => None
  }

  /** The path leads to a pointer in the object at base, and r is the relocation for it. */
  predicate Pointing(c: Const, base: nat, r: Reloc, path: seq<Step>) {
    IsPath(c.typ, path) && InitAt(c, path).Some? && Target(InitAt(c, path).value) == Some(r.addr) &&
    r.usageOff == base + Locate(c.typ, path).offset
  }

  /** An object has exactly the relocations of the pointers in it that are initialised with an address. */
  lemma RelocsIff(c: Const, base: nat, r: Reloc)
    requires WellTyped(c)
    ensures r in Relocs(c, base) <==> exists path :: Pointing(c, base, r, path)
  {
    hide WellTyped, Relocs, Pointing;
    if r in Relocs(c, base) { var path := PathOf(c, base, r); }
    forall path | Pointing(c, base, r, path) ensures r in Relocs(c, base) { RelocOf(c, base, r, path); }
  }

  /** A relocation of a member is one of the whole, and back. */
  lemma PointingStep(c: Const, s: Step, base: nat, r: Reloc, path: seq<Step>)
    requires CanStep(c.typ, s) && Inner(c, s).Some? && Inner(c, s).value.typ == Member(c.typ, s).typ
    ensures Pointing(c, base, r, [s] + path) <==>
      Pointing(Inner(c, s).value, base + Member(c.typ, s).offset, r, path)
  {
    assert ([s] + path)[1..] == path;
  }

  lemma InnerTyped(c: Const, s: Step)
    requires WellTyped(c) && CanStep(c.typ, s) && Inner(c, s).Some?
    ensures WellTyped(Inner(c, s).value) && Inner(c, s).value.typ == Member(c.typ, s).typ
    ensures Inner(c, s).value < c
  {
    hide WellFormed;
  }

  lemma {:induction false} ElemRelocsHas(c: Const, n: nat, base: nat, r: Reloc)
    requires c.ArrayInit? && c.typ.ArrayType?
    ensures r in ElemRelocs(c, n, base) <==> exists i: nat :: i < n && r in ElemReloc(c, i, base)
    decreases n
  {
    if n > 0 {
      ElemRelocsHas(c, n - 1, base, r);
      assert ElemRelocs(c, n, base) == ElemRelocs(c, n - 1, base) + ElemReloc(c, n - 1, base);
      hide ElemReloc;
    }
  }

  lemma {:induction false} FieldRelocsHas(c: Const, n: nat, base: nat, r: Reloc)
    requires c.StructInit? && c.typ.StructType? && n <= |c.fieldInits| == |c.typ.fields|
    ensures r in FieldRelocs(c, n, base) <==> exists i: nat :: i < n && r in FieldReloc(c, i, base)
    decreases n
  {
    if n > 0 {
      FieldRelocsHas(c, n - 1, base, r);
      assert FieldRelocs(c, n, base) == FieldRelocs(c, n - 1, base) + FieldReloc(c, n - 1, base);
      hide FieldReloc;
    }
  }

  /** The relocations of an object that is no pointer are those of its members. */
  lemma RelocsByStep(c: Const, base: nat, r: Reloc)
    requires WellTyped(c) && Target(c).None?
    ensures r in Relocs(c, base) <==> exists s :: ByStep(c, base, r, s)
  {
    hide WellTyped;
    match c
    case ArrayInit(_, _) => ElemsByStep(c, base, r);
    case StructInit(_, _) => FieldsByStep(c, base, r);
    case UnionInit(_, _, _) => UnionByStep(c, base, r);
    case _ =>
  }

  lemma UnionByStep(c: Const, base: nat, r: Reloc)
    requires c.UnionInit? && WellTyped(c)
    ensures r in Relocs(c, base) <==> exists s :: ByStep(c, base, r, s)
  {
    assert r in Relocs(c, base) <==> ByStep(c, base, r, ToField(c.index)) by { UnionField(c); }
  }

  lemma ElemsByStep(c: Const, base: nat, r: Reloc)
    requires c.ArrayInit? && WellTyped(c)
    ensures r in Relocs(c, base) <==> exists s :: ByStep(c, base, r, s)
  {
    ArrayTyped(c);
    ElemRelocsHas(c, c.typ.len, base, r);
    assert Relocs(c, base) == ElemRelocs(c, c.typ.len, base);
    hide WellTyped, ElemReloc, ElemRelocs, Relocs, ByStep;
    if r in Relocs(c, base) {
      var i: nat :| i < c.typ.len && r in ElemReloc(c, i, base);
      ElemByStep(c, base, r, ToElem(i));
    }
    forall s | ByStep(c, base, r, s) ensures r in Relocs(c, base) {
      ElemByStep(c, base, r, s);
      assert r in ElemReloc(c, s.i, base);
    }
  }

  lemma ArrayTyped(c: Const)
    requires c.ArrayInit? && WellTyped(c)
    ensures c.typ.ArrayType?
  {
  }

  lemma ElemByStep(c: Const, base: nat, r: Reloc, s: Step)
    requires c.ArrayInit? && c.typ.ArrayType?
    ensures ByStep(c, base, r, s) ==> s == ToElem(s.i) && s.i < c.typ.len
    ensures s.ToElem? && s.i < c.typ.len ==> (r in ElemReloc(c, s.i, base) <==> ByStep(c, base, r, s))
  {
    hide ElemOff;
  }

  lemma FieldsByStep(c: Const, base: nat, r: Reloc)
    requires c.StructInit? && WellTyped(c)
    ensures r in Relocs(c, base) <==> exists s :: ByStep(c, base, r, s)
  {
    StructTyped(c);
    FieldRelocsHas(c, |c.fieldInits|, base, r);
    assert Relocs(c, base) == FieldRelocs(c, |c.fieldInits|, base);
    hide WellTyped, FieldReloc, FieldRelocs, Relocs, ByStep;
    if r in Relocs(c, base) {
      var i: nat :| i < |c.fieldInits| && r in FieldReloc(c, i, base);
      FieldByStep(c, base, r, ToField(i));
    }
    forall s | ByStep(c, base, r, s) ensures r in Relocs(c, base) {
      FieldByStep(c, base, r, s);
      assert r in FieldReloc(c, s.i, base);
    }
  }

  lemma FieldByStep(c: Const, base: nat, r: Reloc, s: Step)
    requires c.StructInit? && c.typ.StructType? && |c.fieldInits| == |c.typ.fields|
    ensures ByStep(c, base, r, s) ==> s == ToField(s.i) && s.i < |c.fieldInits|
    ensures s.ToField? && s.i < |c.fieldInits| ==> (r in FieldReloc(c, s.i, base) <==> ByStep(c, base, r, s))
  {
  }

  ghost predicate ByStep(c: Const, base: nat, r: Reloc, s: Step) {
    CanStep(c.typ, s) && Inner(c, s).Some? && r in Relocs(Inner(c, s).value, base + Member(c.typ, s).offset)
  }

  lemma {:induction false} PathOf(c: Const, base: nat, r: Reloc) returns (path: seq<Step>)
    requires WellTyped(c) && r in Relocs(c, base)
    ensures Pointing(c, base, r, path)
    decreases c
  {
    hide WellTyped;
    if Target(c).Some? {
      path := [];
    } else {
      RelocsByStep(c, base, r);
      hide Relocs, CanStep, Pointing, Inner, Member, Target, IsPath, InitAt, Locate;
      var s :| ByStep(c, base, r, s);
      InnerTyped(c, s);
      var rest := PathOf(Inner(c, s).value, base + Member(c.typ, s).offset, r);
      PointingStep(c, s, base, r, rest);
      path := [s] + rest;
    }
  }

  lemma {:induction false} RelocOf(c: Const, base: nat, r: Reloc, path: seq<Step>)
    requires WellTyped(c) && Pointing(c, base, r, path)
    ensures r in Relocs(c, base)
    decreases |path|
  {
    if path != [] {
      var s := path[0];
      assert path == [s] + path[1..];
      InnerTyped(c, s);
      PointingStep(c, s, base, r, path[1..]);
      RelocOf(Inner(c, s).value, base + Member(c.typ, s).offset, r, path[1..]);
      assert ByStep(c, base, r, s);
      assert Target(c).None?;
      RelocsByStep(c, base, r);
    }
  }

  // ---- the pieces while they are written ----

  /** Element i has its bytes: those of the last initialiser for it, or zeros. */
  ghost predicate ElemDone(c: Const, e: seq<nat>, i: nat)
    requires c.ArrayInit?
  {
    var last := LastFor(c.inits, |c.inits|, i);
    if last.Some? then Image(c.inits[last.value].init, e) else Zeros(e)
  }

  /** The first n elements are written. */
  ghost predicate ElemsDone(c: Const, b: seq<nat>, n: nat)
    requires c.ArrayInit? && c.typ.ArrayType?
  {
    |b| == ElemOff(n, c.typ.base.size) &&
    forall i: nat :: i < n ==> ElemDone(c, Slice(b, ElemOff(i, c.typ.base.size), c.typ.base.size), i)
  }

  lemma SliceKept(b: seq<nat>, e: seq<nat>, off: nat, n: nat)
    requires off + n <= |b|
    ensures Slice(b + e, off, n) == Slice(b, off, n)
  {
  }

  /** One more element. */
  lemma ElemsStep(c: Const, b: seq<nat>, n: nat, e: seq<nat>)
    requires c.ArrayInit? && c.typ.ArrayType? && ElemsDone(c, b, n) && |e| == c.typ.base.size && ElemDone(c, e, n)
    ensures ElemsDone(c, b + e, n + 1)
  {
    var size := c.typ.base.size;
    NextElem(n, size);
    hide ElemDone, ElemOff;
    assert Slice(b + e, ElemOff(n, size), size) == e;
    forall i: nat | i < n + 1 ensures ElemDone(c, Slice(b + e, ElemOff(i, size), size), i) {
      if i < n {
        ElemBefore(i, n, size);
        SliceKept(b, e, ElemOff(i, size), size);
      }
    }
  }

  lemma ElemsAll(c: Const, b: seq<nat>)
    requires c.ArrayInit? && WellTyped(c) && ElemsDone(c, b, c.typ.len)
    ensures Image(c, b)
  {
  }

  /** The first n fields are written, with the padding between them. */
  ghost predicate FieldsDone(c: Const, b: seq<nat>, n: nat)
    requires c.StructInit? && c.typ.StructType? && |c.fieldInits| == |c.typ.fields| && n <= |c.fieldInits|
  {
    (forall i :: 0 <= i < n ==> c.typ.fields[i].End() <= |b|) &&
    (forall i :: 0 <= i < n ==> MemberDone(c, Slice(b, c.typ.fields[i].offset, c.typ.fields[i].typ.size), i)) &&
    (forall j :: 0 <= j < |b| && !InField(c.typ.fields, n, j) ==> b[j] == 0)
  }

  /** The first byte behind the first n fields. */
  function FieldEnd(c: Const, n: nat): nat
    requires c.StructInit? && c.typ.StructType? && n <= |c.typ.fields|
  {
    if n == 0 then 0 else c.typ.fields[n - 1].End()
  }

  ghost predicate MemberDone(c: Const, b: seq<nat>, i: nat)
    requires c.StructInit? && i < |c.fieldInits|
  {
    if c.fieldInits[i].Some? then Image(c.fieldInits[i].value, b) else Zeros(b)
  }

  lemma PaddingStep(c: Const, b: seq<nat>, n: nat, z: seq<nat>)
    requires c.StructInit? && c.typ.StructType? && |c.fieldInits| == |c.typ.fields| && n <= |c.fieldInits|
    requires FieldsDone(c, b, n) && Zeros(z)
    ensures FieldsDone(c, b + z, n)
  {
    hide MemberDone;
    forall i | 0 <= i < n ensures MemberDone(c, Slice(b + z, c.typ.fields[i].offset, c.typ.fields[i].typ.size), i) {
      SliceKept(b, z, c.typ.fields[i].offset, c.typ.fields[i].typ.size);
    }
  }

  lemma FieldStep(c: Const, b: seq<nat>, n: nat, e: seq<nat>)
    requires c.StructInit? && c.typ.StructType? && |c.fieldInits| == |c.typ.fields| && n < |c.fieldInits|
    requires FieldsDone(c, b, n) && |b| == c.typ.fields[n].offset && |e| == c.typ.fields[n].typ.size &&
      MemberDone(c, e, n)
    ensures FieldsDone(c, b + e, n + 1)
  {
    hide MemberDone;
    var fields := c.typ.fields;
    assert Slice(b + e, fields[n].offset, fields[n].typ.size) == e;
    forall i | 0 <= i < n + 1 ensures MemberDone(c, Slice(b + e, fields[i].offset, fields[i].typ.size), i) {
      if i < n { SliceKept(b, e, fields[i].offset, fields[i].typ.size); }
    }
    forall j | 0 <= j < |b + e| && !InField(fields, n + 1, j) ensures (b + e)[j] == 0 {
      assert !(fields[n].offset <= j < fields[n].End());
      assert !InField(fields, n, j);
    }
  }

  lemma FieldsAll(c: Const, b: seq<nat>)
    requires c.StructInit? && WellTyped(c) && FieldsDone(c, b, |c.fieldInits|) && |b| == c.typ.size
    ensures Image(c, b)
  {
    hide WellFormed;
    forall i | 0 <= i < |c.fieldInits|
      ensures MemberDone(c, Slice(b, c.typ.fields[i].offset, c.typ.fields[i].typ.size), i) {}
  }

  // ---- the section ----

  lemma Padded(buf0: seq<nat>, z: seq<nat>, mid: seq<nat>, buf: seq<nat>)
    requires mid == buf0 + z && mid <= buf
    ensures buf0 <= buf && |mid| == |buf0| + |z| && buf[|buf0|..|mid|] == z
  {
    assert buf[..|mid|] == mid;
  }

  class Section {
    var buf: seq<nat>
    var relocs: seq<Reloc>

    constructor ()
      ensures buf == [] && relocs == []
    {
      buf, relocs := [], [];
    }

    method FillZeros(size: nat) returns (ghost z: seq<nat>)
      modifies `buf
      ensures |z| == size && Zeros(z) && buf == old(buf) + z
    {
      z := [];
      var i := 0;
      while i < size
        invariant i == |z| <= size && Zeros(z) && buf == old(buf) + z
      {
        buf := buf + [0];
        z := z + [0];
        i := i + 1;
      }
    }

    /** Writes the low bytes of a value, lowest first. */
    method SerializeInt(value: nat, size: nat)
      modifies `buf
      ensures buf == old(buf) + LittleEndian(value, size)
    {
      var elemVal := value;
      var i := 0;
      ghost var done: seq<nat> := [];
      while i < size
        invariant i == |done| <= size && buf == old(buf) + done
        invariant LittleEndian(value, size) == done + LittleEndian(elemVal, size - i)
      {
        buf := buf + [elemVal % 256];
        done := done + [elemVal % 256];
        elemVal := elemVal / 256;
        i := i + 1;
      }
    }

    /** Writes the bytes and the terminating zero of a string. */
    method SerializeStr(str: seq<nat>)
      modifies `buf
      ensures buf == old(buf) + (str + [0])
    {
      var i := 0;
      while i < |str|
        invariant 0 <= i <= |str| && buf == old(buf) + str[..i]
      {
        buf := buf + [str[i]];
        i := i + 1;
      }
      assert str[..i] == str;
      buf := buf + [0];
    }

    /** What a serialiser appends: the image of the object, and its relocations where the layout puts them. */
    ghost predicate Appended(c: Const, buf0: seq<nat>, relocs0: seq<Reloc>)
      reads this
    {
      buf0 <= buf && Image(c, buf[|buf0|..]) && relocs == relocs0 + Relocs(c, |buf0|)
    }

    /** Writes element n of an array: its initialiser, or zeros. */
    method SerializeElem(c: Const, n: nat, init: Option<Const>, ghost base: nat) returns (ghost e: seq<nat>)
      requires c.ArrayInit? && WellTyped(c) && n < c.typ.len && init == Pick(c, LastFor(c.inits, |c.inits|, n))
      requires |buf| == base + ElemOff(n, c.typ.base.size)
      modifies this
      ensures buf == old(buf) + e && |e| == c.typ.base.size && ElemDone(c, e, n)
      ensures relocs == old(relocs) + ElemReloc(c, n, base)
      decreases c, 0, 0
    {
      if init.Some? {
        assert init.value == c.inits[LastFor(c.inits, |c.inits|, n).value].init;
        Serialize(init.value);
        e := buf[|old(buf)|..];
      } else {
        e := FillZeros(c.typ.base.size);
      }
    }

    /** Writes the padding in front of field i, and the field: its initialiser, or zeros. */
    method SerializeField(c: Const, i: nat, offset: nat, ghost img: seq<nat>, ghost buf0: seq<nat>,
                          ghost relocs0: seq<Reloc>)
      returns (ghost img': seq<nat>)
      requires c.StructInit? && WellTyped(c) && i < |c.typ.fields| && FieldsDone(c, img, i) && |img| == offset
      requires offset == FieldEnd(c, i) && buf == buf0 + img && relocs == relocs0 + FieldRelocs(c, i, |buf0|)
      modifies this
      ensures FieldsDone(c, img', i + 1) && |img'| == FieldEnd(c, i + 1)
      ensures buf == buf0 + img' && relocs == relocs0 + FieldRelocs(c, i + 1, |buf0|)
      decreases c, 0, 0
    {
      hide Image, FieldsDone, WellFormed;
      StructField(c, i);
      ghost var z := FillZeros(c.typ.fields[i].offset - offset);
      PaddingStep(c, img, i, z);
      ghost var e;
      if c.fieldInits[i].Some? {
        Serialize(c.fieldInits[i].value);
        e := buf[|buf0 + img + z|..];
        ImageSize(c.fieldInits[i].value, e);
      } else {
        e := FillZeros(c.typ.fields[i].typ.size);
      }
      FieldStep(c, img + z, i, e);
      img' := img + z + e;
      assert relocs == relocs0 + FieldRelocs(c, i, |buf0|) + FieldReloc(c, i, |buf0|);
    }

    /** The last initialiser of every element. */
    method InitVals(c: Const) returns (initVals: array<Option<Const>>)
      requires c.ArrayInit? && WellTyped(c)
      ensures fresh(initVals) && initVals.Length == c.typ.len
      ensures forall n: nat :: n < c.typ.len ==> initVals[n] == Pick(c, LastFor(c.inits, |c.inits|, n))
    {
      initVals := new Option<Const>[c.typ.len](_ => None);
      var i := 0;
      while i < |c.inits|
        invariant 0 <= i <= |c.inits|
        invariant forall n: nat :: n < c.typ.len ==> initVals[n] == Pick(c, LastFor(c.inits, i, n))
        modifies initVals
      {
        initVals[c.inits[i].index] := Some(c.inits[i].init);
        i := i + 1;
      }
    }

    method SerializeArray(c: Const)
      requires c.ArrayInit? && WellTyped(c)
      modifies this
      ensures Appended(c, old(buf), old(relocs))
      decreases c, 0, 1
    {
      hide Image, WellFormed, ElemDone, ElemReloc, LastFor, Pick;
      NoElems(c);
      hide ElemsDone, ElemOff;
      var numElems := c.typ.len;
      var initVals := InitVals(c);
      ghost var vals := initVals[..];
      ghost var img: seq<nat> := [];
      var n := 0;
      while n < numElems
        invariant initVals[..] == vals
        invariant 0 <= n <= numElems && buf == old(buf) + img && ElemsDone(c, img, n)
        invariant |img| == ElemOff(n, c.typ.base.size)
        invariant relocs == old(relocs) + ElemRelocs(c, n, |old(buf)|)
      {
        assert initVals[n] == vals[n];
        ghost var e := SerializeElem(c, n, initVals[n], |old(buf)|);
        ElemsStep(c, img, n, e);
        NextElem(n, c.typ.base.size);
        img := img + e;
        n := n + 1;
      }
      ElemsAll(c, img);
      assert buf[|old(buf)|..] == img;
    }

    method SerializeStruct(c: Const)
      requires c.StructInit? && WellTyped(c)
      modifies this
      ensures Appended(c, old(buf), old(relocs))
      decreases c, 0, 2
    {
      hide Image, WellFormed, FieldsDone, FieldRelocs;
      ghost var img := SerializeFields(c);
      StructEnd(c);
      var offset := c.typ.fields[|c.typ.fields| - 1].End();
      ghost var z := FillZeros(c.typ.size - offset);
      PaddingStep(c, img, |c.fieldInits|, z);
      FieldsAll(c, img + z);
      assert buf[|old(buf)|..] == img + z;
    }

    /** The fields of a struct, with the padding between them. */
    method SerializeFields(c: Const) returns (ghost img: seq<nat>)
      requires c.StructInit? && WellTyped(c)
      modifies this
      ensures buf == old(buf) + img && FieldsDone(c, img, |c.fieldInits|)
      ensures |img| == FieldEnd(c, |c.fieldInits|)
      ensures relocs == old(relocs) + FieldRelocs(c, |c.fieldInits|, |old(buf)|)
      decreases c, 0, 1
    {
      NoFields(c);
      StructTyped(c);
      hide Image, WellFormed, WellTyped, FieldsDone, FieldReloc;
      var offset: nat := 0;
      img := [];
      var i := 0;
      while i < |c.typ.fields|
        invariant 0 <= i <= |c.typ.fields| && buf == old(buf) + img && |img| == offset && FieldsDone(c, img, i)
        invariant offset == FieldEnd(c, i)
        invariant relocs == old(relocs) + FieldRelocs(c, i, |old(buf)|)
      {
        img := SerializeField(c, i, offset, img, old(buf), old(relocs));
        offset := c.typ.fields[i].End();
        i := i + 1;
      }
    }

    method SerializeUnion(c: Const)
      requires c.UnionInit? && WellTyped(c)
      modifies this
      ensures Appended(c, old(buf), old(relocs))
      decreases c, 0, 1
    {
      if c.fieldInit.Some? {
        Serialize(c.fieldInit.value);
        ghost var e := buf[|old(buf)|..];
        UnionField(c);
        ghost var z := FillZeros(c.typ.size - c.typ.fields[c.index].typ.size);
        assert buf[|old(buf)|..] == e + z;
        assert (e + z)[..|e|] == e && (e + z)[|e|..] == z;
      } else {
        ghost var z := FillZeros(c.typ.size);
      }
    }

    /** Writes an initialised object at the end of the section. */
    method Serialize(c: Const)
      requires WellTyped(c)
      modifies this
      ensures Appended(c, old(buf), old(relocs))
      decreases c, 1, 0
    {
      match c {
        case Unset(t) => ghost var z := FillZeros(t.size);
        case Imm(t, value) => SerializeInt(value, t.size);
        case AddressOf(t, addr) =>
          relocs := relocs + [Reloc(addr, |buf|)];
          ghost var z := FillZeros(t.size);
        case ProcOf(t, sym) =>
          relocs := relocs + [Reloc(Address(true, sym, 0), |buf|)];
          ghost var z := FillZeros(t.size);
        case StrLit(t, str) => SerializeStr(str);
        case FloatLit(t, bits, size) => SerializeInt(bits, size);
        case ArrayInit(_, _) => SerializeArray(c);
        case StructInit(_, _) => SerializeStruct(c);
        case UnionInit(_, _, _) => SerializeUnion(c);
      }
    }

    /** Writes one variable at the next aligned place. */
    method AddDataItem(c: Const) returns (off: nat)
      requires WellTyped(c)
      modifies this
      ensures |old(buf)| <= off < |old(buf)| + c.typ.align && IsMultiple(off, c.typ.align)
      ensures old(buf) <= buf && |buf| == off + c.typ.size && Image(c, buf[off..])
      ensures Zeros(buf[|old(buf)|..off]) && relocs == old(relocs) + Relocs(c, off)
    {
      hide IsMultiple, WellFormed, WellTyped, Image, Relocs, Zeros, AlignUp;
      ImageFits(c);
      AlignUpRight(|buf|, c.typ.align);
      off := AlignUp(|buf|, c.typ.align);
      ghost var z := FillZeros(off - |buf|);
      ghost var mid, relocs0 := buf, relocs;
      Serialize(c);
      Padded(old(buf), z, mid, buf);
      assert Image(c, buf[off..]) && relocs == relocs0 + Relocs(c, off);
      ImageSize(c, buf[off..]);
    }

    /** Writes the variables one after the other, and records where each one is; the first one sets the section's
        alignment. */
    method InitDataSection(vars: seq<Var>) returns (varOffs: array<nat>, align: nat)
      requires buf == [] && relocs == [] && forall i :: 0 <= i < |vars| ==> WellTyped(vars[i].init)
      requires forall i :: 0 <= i < |vars| ==> vars[i].index < |vars|
      requires forall i, j :: 0 <= i < j < |vars| ==> vars[i].index != vars[j].index
      modifies this
      ensures varOffs.Length == |vars| && Laid(vars, OffsetsOf(vars, varOffs[..]), buf, |vars|)
      ensures relocs == VarRelocs(vars, OffsetsOf(vars, varOffs[..]), |vars|)
      ensures vars != [] ==> align == vars[0].init.typ.align
    {
      hide Image, WellFormed, PlacedAfter, Positions, Images, Zeros;
      NoneLaid(vars);
      varOffs := new nat[|vars|];
      align := 0;
      if |vars| == 0 {
        return;
      }
      align := vars[0].init.typ.align;
      ghost var offs: seq<nat> := [];
      var i := 0;
      while i < |vars|
        invariant 0 <= i == |offs| <= |vars| && Laid(vars, offs, buf, i) && fresh(varOffs)
        invariant forall j :: 0 <= j < i ==> varOffs[vars[j].index] == offs[j]
        invariant relocs == VarRelocs(vars, offs, i)
      {
        ghost var buf0, offs0 := buf, offs;
        var offset := AddDataItem(vars[i].init);
        offs := offs + [offset];
        NextPlaced(vars[i].init.typ, offset, |buf0|);
        LaidStep(vars, offs0, buf0, i, offset, buf);
        VarRelocsKept(vars, offs0, offs, i);
        varOffs[vars[i].index] := offset;
        i := i + 1;
      }
      assert OffsetsOf(vars, varOffs[..]) == offs;
    }
  }

  // ---- the variables of the section ----

  /** A global variable: its number, and its initial value. */
  datatype Var = Var(index: nat, init: Const)

  /** The offsets in the order of the variables. */
  function OffsetsOf(vars: seq<Var>, varOffs: seq<nat>): (offs: seq<nat>)
    requires forall i :: 0 <= i < |vars| ==> vars[i].index < |varOffs|
    ensures |offs| == |vars|
  {
    seq(|vars|, i requires 0 <= i < |vars| => varOffs[vars[i].index])
  }

  /** Variable i is aligned, and behind the one before with the least padding. */
  predicate LaidAt(vars: seq<Var>, offs: seq<nat>, i: nat)
    requires i < |vars| && i < |offs|
  {
    PlacedAfter(Field(vars[i].init.typ, offs[i]), LaidEnd(vars, offs, i))
  }

  /** The first byte behind the first n variables. */
  function LaidEnd(vars: seq<Var>, offs: seq<nat>, n: nat): nat
    requires n <= |vars| && n <= |offs|
  {
    if n == 0 then 0 else offs[n - 1] + vars[n - 1].init.typ.size
  }

  predicate Positions(vars: seq<Var>, offs: seq<nat>, len: nat, n: nat) {
    n <= |vars| && n <= |offs| && len == LaidEnd(vars, offs, n) &&
    forall i :: 0 <= i < n ==> LaidAt(vars, offs, i) && LaidEnd(vars, offs, i + 1) <= len
  }

  ghost predicate Images(vars: seq<Var>, offs: seq<nat>, buf: seq<nat>, n: nat) {
    n <= |vars| && n <= |offs| &&
    forall i :: 0 <= i < n ==> Image(vars[i].init, Slice(buf, offs[i], vars[i].init.typ.size))
  }

  /** The first n variables are placed so, each with its image. */
  ghost predicate Laid(vars: seq<Var>, offs: seq<nat>, buf: seq<nat>, n: nat) {
    Positions(vars, offs, |buf|, n) && Images(vars, offs, buf, n)
  }

  function VarRelocs(vars: seq<Var>, offs: seq<nat>, n: nat): seq<Reloc>
    requires n <= |vars| && n <= |offs|
  {
    if n == 0 then [] else VarRelocs(vars, offs, n - 1) + Relocs(vars[n - 1].init, offs[n - 1])
  }

  lemma {:induction false} VarRelocsKept(vars: seq<Var>, offs: seq<nat>, offs': seq<nat>, n: nat)
    requires n <= |vars| && n <= |offs| && offs <= offs'
    ensures VarRelocs(vars, offs', n) == VarRelocs(vars, offs, n)
  {
    if n > 0 { VarRelocsKept(vars, offs, offs', n - 1); }
  }

  /** The section has exactly the relocations of the initialised pointers of its variables. */
  lemma {:induction false} VarRelocsIff(vars: seq<Var>, offs: seq<nat>, n: nat, r: Reloc)
    requires n <= |vars| && n <= |offs| && forall i :: 0 <= i < n ==> WellTyped(vars[i].init)
    ensures r in VarRelocs(vars, offs, n) <==> exists i: nat, path :: i < n && Pointing(vars[i].init, offs[i], r, path)
  {
    hide WellTyped, Pointing, Relocs;
    if n > 0 {
      VarRelocsIff(vars, offs, n - 1, r);
      RelocsIff(vars[n - 1].init, offs[n - 1], r);
    }
  }

  /** They are in ascending order, and none overlaps another. */
  lemma {:induction false} VarRelocsSpread(vars: seq<Var>, offs: seq<nat>, len: nat, n: nat)
    requires n <= |vars| && n <= |offs| && Positions(vars, offs, len, |vars|)
    requires forall i :: 0 <= i < n ==> WellTyped(vars[i].init)
    ensures Spread(VarRelocs(vars, offs, n), 0, LaidEnd(vars, offs, n))
  {
    hide WellTyped, Spread, Relocs, IsMultiple;
    if n == 0 {
      NoneSpread(0, 0);
    } else {
      VarRelocsSpread(vars, offs, len, n - 1);
      RelocsSpread(vars[n - 1].init, offs[n - 1]);
      assert LaidAt(vars, offs, n - 1);
      SpreadAppend(VarRelocs(vars, offs, n - 1), Relocs(vars[n - 1].init, offs[n - 1]), 0,
        LaidEnd(vars, offs, n - 1), offs[n - 1], LaidEnd(vars, offs, n));
    }
  }

  lemma NoneLaid(vars: seq<Var>)
    ensures Laid(vars, [], [], 0)
  {
  }

  lemma NextPlaced(t: Type, off: nat, len: nat)
    requires len <= off < len + t.align && IsMultiple(off, t.align)
    ensures PlacedAfter(Field(t, off), len)
  {
  }

  lemma LaidStep(vars: seq<Var>, offs: seq<nat>, buf: seq<nat>, n: nat, off: nat, buf': seq<nat>)
    requires Laid(vars, offs, buf, n) && |offs| == n < |vars| && buf <= buf'
    requires PlacedAfter(Field(vars[n].init.typ, off), |buf|) && |buf'| == off + vars[n].init.typ.size &&
      Image(vars[n].init, buf'[off..])
    ensures Laid(vars, offs + [off], buf', n + 1)
  {
    PositionsStep(vars, offs, |buf|, n, off, |buf'|);
    ImagesStep(vars, offs, buf, n, off, buf');
  }

  lemma ImagesStep(vars: seq<Var>, offs: seq<nat>, buf: seq<nat>, n: nat, off: nat, buf': seq<nat>)
    requires Laid(vars, offs, buf, n) && |offs| == n < |vars| && buf <= buf'
    requires |buf'| == off + vars[n].init.typ.size && Image(vars[n].init, buf'[off..])
    ensures Images(vars, offs + [off], buf', n + 1)
  {
    hide Image, LaidAt;
    var offs' := offs + [off];
    assert Slice(buf', off, vars[n].init.typ.size) == buf'[off..];
    forall i | 0 <= i < n ensures Image(vars[i].init, Slice(buf', offs'[i], vars[i].init.typ.size)) {
      assert LaidAt(vars, offs, i) && LaidEnd(vars, offs, i + 1) <= |buf|;
      SlicePrefix(buf, buf', offs[i], vars[i].init.typ.size);
    }
  }

  lemma PositionsStep(vars: seq<Var>, offs: seq<nat>, len: nat, n: nat, off: nat, len': nat)
    requires Positions(vars, offs, len, n) && |offs| == n < |vars| && len <= len'
    requires PlacedAfter(Field(vars[n].init.typ, off), len) && len' == off + vars[n].init.typ.size
    ensures Positions(vars, offs + [off], len', n + 1)
  {
    var offs' := offs + [off];
    assert LaidAt(vars, offs', n) && LaidEnd(vars, offs', n + 1) == len' by {
      assert LaidEnd(vars, offs', n) == LaidEnd(vars, offs, n);
    }
    forall i | 0 <= i < n ensures LaidAt(vars, offs', i) && LaidEnd(vars, offs', i + 1) <= len {
      LaidKept(vars, offs, off, i);
    }
  }

  lemma LaidKept(vars: seq<Var>, offs: seq<nat>, off: nat, i: nat)
    requires i < |vars| && i < |offs|
    ensures LaidAt(vars, offs + [off], i) <==> LaidAt(vars, offs, i)
    ensures LaidEnd(vars, offs + [off], i + 1) == LaidEnd(vars, offs, i + 1)
  {
    hide PlacedAfter;
  }

  lemma SlicePrefix(b: seq<nat>, b': seq<nat>, off: nat, n: nat)
    requires b <= b' && off + n <= |b|
    ensures Slice(b', off, n) == Slice(b, off, n)
  {
  }

  /** No two variables share a byte. */
  lemma {:induction false} VarsApart(vars: seq<Var>, offs: seq<nat>, len: nat, i: nat, j: nat)
    requires Positions(vars, offs, len, |vars|) && i < j < |vars|
    ensures offs[i] + vars[i].init.typ.size <= offs[j]
    decreases j
  {
    hide IsMultiple;
    assert LaidAt(vars, offs, j);
    if i < j - 1 { VarsApart(vars, offs, len, i, j - 1); }
  }

  /** Every variable is aligned in a section that is loaded at start. */
  ghost predicate AlignedAt(vars: seq<Var>, offs: seq<nat>, start: nat) {
    |vars| <= |offs| && forall i :: 0 <= i < |vars| ==> IsMultiple(start + offs[i], vars[i].init.typ.align)
  }

  /**
    * The section is loaded at a multiple of the first variable's alignment; every variable is then aligned wherever
    that is,
    * exactly when no variable is aligned more strictly than the first.
    */
  lemma SectionAligned(vars: seq<Var>, offs: seq<nat>, len: nat)
    requires vars != [] && Positions(vars, offs, len, |vars|) && forall i :: 0 <= i < |vars| ==>
      WellFormed(vars[i].init.typ)
    ensures var align := vars[0].init.typ.align;
            (forall start: nat :: IsMultiple(start, align) ==> AlignedAt(vars, offs, start))
              <==> (forall i :: 0 <= i < |vars| ==> vars[i].init.typ.align <= align)
  {
    hide IsMultiple, WellFormed, Positions, AlignedAt;
    var align := vars[0].init.typ.align;
    if forall i :: 0 <= i < |vars| ==> vars[i].init.typ.align <= align {
      forall start: nat | IsMultiple(start, align) ensures AlignedAt(vars, offs, start) {
        FirstIsStrictest(vars, offs, len, start);
      }
    } else {
      var i :| 0 <= i < |vars| && vars[i].init.typ.align > align;
      StricterIsMisaligned(vars, offs, len, i);
    }
  }

  lemma FirstIsStrictest(vars: seq<Var>, offs: seq<nat>, len: nat, start: nat)
    requires vars != [] && Positions(vars, offs, len, |vars|) && IsMultiple(start, vars[0].init.typ.align)
    requires forall i :: 0 <= i < |vars| ==>
      WellFormed(vars[i].init.typ) && vars[i].init.typ.align <= vars[0].init.typ.align
    ensures AlignedAt(vars, offs, start)
  {
    hide IsMultiple, WellFormed;
    forall i | 0 <= i < |vars| ensures IsMultiple(start + offs[i], vars[i].init.typ.align) {
      assert LaidAt(vars, offs, i);
      FormedPositive(vars[0].init.typ);
      FormedPositive(vars[i].init.typ);
      Pow2Divides(vars[i].init.typ.align, vars[0].init.typ.align);
      DividesThrough(start, vars[0].init.typ.align, vars[i].init.typ.align);
      SumDivides(start, offs[i], vars[i].init.typ.align);
    }
  }

  lemma StricterIsMisaligned(vars: seq<Var>, offs: seq<nat>, len: nat, i: nat)
    requires vars != [] && Positions(vars, offs, len, |vars|) && i < |vars| && WellFormed(vars[0].init.typ)
    requires vars[i].init.typ.align > vars[0].init.typ.align
    ensures var align := vars[0].init.typ.align; IsMultiple(align, align) && !AlignedAt(vars, offs, align)
  {
    hide IsMultiple, WellFormed;
    var align := vars[0].init.typ.align;
    FormedPositive(vars[0].init.typ);
    assert LaidAt(vars, offs, i);
    SelfDivides(align);
    NotMultiple(align, offs[i], vars[i].init.typ.align);
  }

  lemma NotMultiple(x: nat, y: nat, a: nat)
    requires 0 < x < a && IsMultiple(y, a)
    ensures !IsMultiple(x + y, a)
  {
    var q := y / a;
    assert x + y == q * a + x;
    ModUnique(x + y, a, q, x);
  }

  function Pick(c: Const, last: Option<nat>): Option<Const>
    requires c.ArrayInit? && (last.Some? ==> last.value < |c.inits|)
  {
    if last.Some? then Some(c.inits[last.value].init) else None
  }

  lemma NoElems(c: Const)
    requires c.ArrayInit? && c.typ.ArrayType?
    ensures ElemsDone(c, [], 0)
  {
  }

  lemma NoFields(c: Const)
    requires c.StructInit? && c.typ.StructType? && |c.fieldInits| == |c.typ.fields|
    ensures FieldsDone(c, [], 0)
  {
  }

  lemma StructField(c: Const, i: nat)
    requires c.StructInit? && WellTyped(c) && i < |c.typ.fields|
    ensures (if i == 0 then 0 else c.typ.fields[i - 1].End()) <= c.typ.fields[i].offset
    ensures c.fieldInits[i].Some? ==>
      WellTyped(c.fieldInits[i].value) && c.fieldInits[i].value.typ == c.typ.fields[i].typ
  {
    assert Placed(c.typ.fields, i);
  }

  lemma StructTyped(c: Const)
    requires c.StructInit? && WellTyped(c)
    ensures c.typ.StructType? && |c.fieldInits| == |c.typ.fields|
  {
  }

  lemma StructEnd(c: Const)
    requires c.StructInit? && WellTyped(c)
    ensures c.typ.fields != [] && c.typ.fields[|c.typ.fields| - 1].End() <= c.typ.size
  {
  }

  lemma ImageFits(c: Const)
    requires WellTyped(c)
    ensures IsPow2(c.typ.align) && c.typ.align > 0
  {
  }

  lemma ImageSize(c: Const, b: seq<nat>)
    requires Image(c, b)
    ensures |b| == c.typ.size
  {
  }

  lemma UnionField(c: Const)
    requires c.UnionInit? && WellTyped(c)
    ensures c.typ.fields[c.index].typ.size <= c.typ.size
  {
  }
}
