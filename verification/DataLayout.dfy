/** Sizes, alignments and field offsets of types. */
module DataLayout {
  import HashMap

  /** A type with the layout it was completed with. */
  datatype Type =
    | Scalar(size: nat, align: nat)
    | ArrayType(size: nat, align: nat, base: Type, len: nat)
    | StructType(size: nat, align: nat, fields: seq<Field>)
    | UnionType(size: nat, align: nat, fields: seq<Field>)

  datatype Field = Field(typ: Type, offset: nat) {
    /** The first byte behind the field. */
    function End(): nat { offset + typ.size }
  }

  // ---- alignment ----

  /** The rounding of an address, written with masks. */
  function AlignUp(p: nat, a: nat): (r: int)
    requires a > 0
  {
    p + a - 1 - HashMap.BitAnd(p + a - 1, a - 1)
  }

  predicate IsMultiple(x: nat, a: nat) { a > 0 && x % a == 0 }

  /** The rounding gives the first aligned address at or after p. */
  lemma AlignUpRight(p: nat, a: nat)
    requires HashMap.IsPow2(a) && a > 0
    ensures p <= AlignUp(p, a) < p + a && IsMultiple(AlignUp(p, a), a)
  {
    assert a > 0;
    hide HashMap.IsPow2;
    HashMap.MaskIsMod(p + a - 1, a);
    RoundDown(p + a - 1, a);
  }

  lemma RoundDown(x: nat, a: nat)
    requires a > 0
    ensures x - a < x - x % a <= x && IsMultiple(x - x % a, a)
  {
    var q := x / a;
    assert x == q * a + x % a;
    HashMap.ModUnique(q * a, a, q, 0);
  }

  lemma {:induction false} Pow2Divides(a: nat, b: nat)
    requires HashMap.IsPow2(a) && HashMap.IsPow2(b) && a <= b
    ensures IsMultiple(b, a)
  {
    if a > 1 {
      Pow2Divides(a / 2, b / 2);
      HashMap.ModDouble(b, a / 2);
    }
  }

  lemma DividesThrough(x: nat, b: nat, a: nat)
    requires IsMultiple(x, b) && IsMultiple(b, a)
    ensures IsMultiple(x, a)
  {
    var q, r := x / b, b / a;
    assert x == q * b && b == r * a;
    assert q * (r * a) == (q * r) * a;
    HashMap.ModUnique(x, a, q * r, 0);
  }

  lemma SumDivides(x: nat, y: nat, a: nat)
    requires IsMultiple(x, a) && IsMultiple(y, a)
    ensures IsMultiple(x + y, a)
  {
    var q, r := x / a, y / a;
    assert x == q * a && y == r * a;
    assert (q + r) * a == q * a + r * a;
    HashMap.ModUnique(x + y, a, q + r, 0);
  }

  lemma MultipleDivides(i: nat, x: nat, a: nat)
    requires IsMultiple(x, a)
    ensures IsMultiple(i * x, a)
  {
    var q := x / a;
    assert x == q * a;
    assert i * (q * a) == (i * q) * a;
    HashMap.ModUnique(i * x, a, i * q, 0);
  }

  lemma SelfDivides(a: nat)
    requires a > 0
    ensures IsMultiple(a, a)
  {
  }

  lemma ZeroDivides(a: nat)
    requires a > 0
    ensures IsMultiple(0, a)
  {
  }

  /** Two multiples of a that lie in one stretch of length a are equal. */
  lemma SameMultiple(x: nat, y: nat, a: nat, lo: nat)
    requires IsMultiple(x, a) && IsMultiple(y, a) && lo <= x < lo + a && lo <= y < lo + a
    ensures x == y
  {
    var q, r := x / a, y / a;
    assert x == q * a && y == r * a;
    assert (q - r) * a == q * a - r * a;
    HashMap.SmallMultiple(q - r, a);
  }

  // ---- the layouts ----

  /** The strictest alignment of the fields. */
  ghost predicate MaxAlign(fields: seq<Field>, align: nat) {
    (forall i :: 0 <= i < |fields| ==> fields[i].typ.align <= align) &&
    exists i :: 0 <= i < |fields| && fields[i].typ.align == align
  }

  /** A field lies at the first aligned place at or after prev. */
  predicate PlacedAfter(f: Field, prev: nat) {
    prev <= f.offset < prev + f.typ.align && IsMultiple(f.offset, f.typ.align)
  }

  /** Field i lies so behind the field before it, or behind the start. */
  predicate Placed(fields: seq<Field>, i: nat)
    requires i < |fields|
  {
    PlacedAfter(fields[i], if i == 0 then 0 else fields[i - 1].End())
  }

  /** Each field at the first aligned place behind the one before, and no more padding at the end than
      alignment asks for. */
  ghost predicate StructLayout(fields: seq<Field>, size: nat, align: nat)
  {
    fields != [] && MaxAlign(fields, align) &&
    (forall i :: 0 <= i < |fields| ==> Placed(fields, i)) &&
    fields[|fields| - 1].End() <= size < fields[|fields| - 1].End() + align && IsMultiple(size, align)
  }

  /** All fields at the start, and the smallest aligned size that holds each of them. */
  ghost predicate UnionLayout(fields: seq<Field>, size: nat, align: nat)
  {
    fields != [] && MaxAlign(fields, align) && IsMultiple(size, align) &&
    (forall i :: 0 <= i < |fields| ==> fields[i].offset == 0 && fields[i].typ.size <= size) &&
    exists i :: 0 <= i < |fields| && size < fields[i].typ.size + align
  }

  /** Where element i of an array starts. */
  function ElemOff(i: nat, size: nat): nat { i * size }

  lemma ElemAligned(i: nat, size: nat, align: nat)
    requires IsMultiple(size, align)
    ensures IsMultiple(ElemOff(i, size), align)
  {
    MultipleDivides(i, size, align);
  }

  lemma NextElem(i: nat, size: nat)
    ensures ElemOff(i + 1, size) == ElemOff(i, size) + size
  {
  }

  /** Elements with smaller indices are in front. */
  lemma ElemBefore(i: nat, n: nat, size: nat)
    requires i < n
    ensures ElemOff(i, size) + size <= ElemOff(n, size)
  {
    Multiply(i + 1, n, size);
    NextElem(i, size);
  }

  /** Laid out by the rules, at every level. */
  ghost predicate WellFormed(t: Type) {
    HashMap.IsPow2(t.align) && t.align > 0 && t.size > 0 &&
    match t
    case Scalar(size, align) => size == align
    case ArrayType(size, align, base, len) => WellFormed(base) && len > 0 && size == ElemOff(len, base.size) &&
      align == base.align
    case StructType(size, align, fields) =>
      (forall i :: 0 <= i < |fields| ==> WellFormed(fields[i].typ)) && StructLayout(fields, size, align)
    case UnionType(size, align, fields) =>
      (forall i :: 0 <= i < |fields| ==> WellFormed(fields[i].typ)) && UnionLayout(fields, size, align)
  }

  /** The fields have these types. */
  predicate Typed(fields: seq<Field>, types: seq<Type>) {
    |fields| == |types| && forall i :: 0 <= i < |types| ==> fields[i].typ == types[i]
  }

  // ---- completing a type ----

  /** Lays out a struct. */
  method CompleteStruct(types: seq<Type>) returns (t: Type)
    requires types != [] && forall i :: 0 <= i < |types| ==> WellFormed(types[i])
    ensures t.StructType? && Typed(t.fields, types) && StructLayout(t.fields, t.size, t.align) && WellFormed(t)
  {
    hide WellFormed, IsMultiple, MaxOf;
    forall i | 0 <= i < |types| ensures Positive(types[i]) { FormedPositive(types[i]); }
    MaxOfNone();
    var size: nat, align: nat := 0, 0;
    var fields := new Field[|types|](i requires 0 <= i < |types| => Field(types[i], 0));
    var i := 0;
    while i < |types|
      invariant 0 <= i <= |types| && Typed(fields[..], types)
      invariant size == if i == 0 then 0 else fields[i - 1].End()
      invariant forall j :: 0 <= j < i ==> Placed(fields[..], j)
      invariant types[..0] == [] && align == MaxOf(types[..i])
    {
      assert Positive(types[i]);
      AlignUpRight(size, types[i].align);
      ghost var before := fields[..];
      size := AlignUp(size, types[i].align);
      fields[i] := Field(types[i], size);
      PlaceNext(before, i, fields[..], types);
      size := size + types[i].size;
      MaxOfStep(types, i);
      if types[i].align > align {
        align := types[i].align;
      }
      i := i + 1;
    }
    assert types[..i] == types;
    ghost var end := size;
    MaxOfIsMax(types);
    TypedMaxAlign(fields[..], types, align);
    AlignUpRight(size, align);
    size := AlignUp(size, align);
    t := StructType(size, align, fields[..]);
    EndStruct(t, types, end);
  }

  /** The fields are placed, and the size is rounded up. */
  lemma EndStruct(t: Type, types: seq<Type>, end: nat)
    requires t.StructType? && types != [] && Typed(t.fields, types) && MaxAlign(t.fields, t.align)
    requires forall i :: 0 <= i < |types| ==> WellFormed(types[i]) && Positive(types[i])
    requires forall i :: 0 <= i < |types| ==> Placed(t.fields, i)
    requires HashMap.IsPow2(t.align) && t.align > 0 && end == t.fields[|types| - 1].End() <= t.size < end + t.align &&
      IsMultiple(t.size, t.align)
    ensures StructLayout(t.fields, t.size, t.align) && WellFormed(t)
  {
    hide WellFormed, IsMultiple, Placed, MaxAlign;
    assert Positive(types[|types| - 1]);
    FormStruct(t, types);
  }

  /** Lays out a union. */
  method CompleteUnion(types: seq<Type>) returns (t: Type)
    requires types != [] && forall i :: 0 <= i < |types| ==> WellFormed(types[i])
    ensures t.UnionType? && Typed(t.fields, types) && UnionLayout(t.fields, t.size, t.align) && WellFormed(t)
  {
    hide WellFormed, IsMultiple, MaxOf;
    forall i | 0 <= i < |types| ensures Positive(types[i]) { FormedPositive(types[i]); }
    MaxOfNone();
    var size: nat, align: nat := 0, 0;
    var fields := new Field[|types|](i requires 0 <= i < |types| => Field(types[i], 0));
    var i := 0;
    while i < |types|
      invariant 0 <= i <= |types| && Typed(fields[..], types)
      invariant forall j :: 0 <= j < |types| ==> fields[j].offset == 0
      invariant LargestOf(types, i, size)
      invariant types[..0] == [] && align == MaxOf(types[..i])
    {
      fields[i] := Field(types[i], 0);
      MaxOfStep(types, i);
      if types[i].align > align {
        align := types[i].align;
      }
      assert Positive(types[i]);
      LargestStep(types, i, size);
      if types[i].size > size {
        size := types[i].size;
      }
      i := i + 1;
    }
    assert types[..i] == types;
    MaxOfIsMax(types);
    TypedMaxAlign(fields[..], types, align);
    var largest: nat :| largest < |types| && types[largest].size == size;
    AlignUpRight(size, align);
    size := AlignUp(size, align);
    assert size < fields[..][largest].typ.size + align;
    t := UnionType(size, align, fields[..]);
    assert UnionLayout(fields[..], size, align);
    FormUnion(t, types);
  }

  lemma PlaceNext(before: seq<Field>, i: nat, after: seq<Field>, types: seq<Type>)
    requires i < |before| == |after| && after == before[i := after[i]] && Typed(before, types) &&
      after[i].typ == types[i]
    requires forall j :: 0 <= j < i ==> Placed(before, j)
    requires PlacedAfter(after[i], if i == 0 then 0 else before[i - 1].End())
    ensures Typed(after, types) && forall j :: 0 <= j <= i ==> Placed(after, j)
  {
    hide IsMultiple;
    forall j | 0 <= j < i ensures Placed(after, j) { assert Placed(before, j); }
  }

  predicate Positive(t: Type) { HashMap.IsPow2(t.align) && t.align > 0 && t.size > 0 }

  lemma FormedPositive(t: Type)
    requires WellFormed(t)
    ensures Positive(t)
  {
  }

  /** The size is that of the largest of the first n types. */
  predicate LargestOf(types: seq<Type>, n: nat, size: nat) {
    n <= |types| && (forall j :: 0 <= j < n ==> types[j].size <= size) &&
    if n == 0 then size == 0 else exists j :: 0 <= j < n && types[j].size == size
  }

  lemma LargestStep(types: seq<Type>, n: nat, size: nat)
    requires n < |types| && LargestOf(types, n, size) && types[n].size > 0
    ensures LargestOf(types, n + 1, if types[n].size > size then types[n].size else size)
  {
  }

  function MaxOf(types: seq<Type>): nat {
    if types == [] then 0 else
      var m := MaxOf(types[..|types| - 1]);
      var a := types[|types| - 1].align;
      if a > m then a else m
  }

  lemma MaxOfNone()
    ensures MaxOf([]) == 0
  {
  }

  lemma MaxOfStep(types: seq<Type>, i: nat)
    requires i < |types|
    ensures MaxOf(types[..i + 1]) == if types[i].align > MaxOf(types[..i]) then types[i].align else MaxOf(types[..i])
  {
    assert types[..i + 1][..i] == types[..i];
  }

  lemma {:induction false} MaxOfIsMax(types: seq<Type>)
    ensures forall i :: 0 <= i < |types| ==> types[i].align <= MaxOf(types)
    ensures types != [] && (forall i :: 0 <= i < |types| ==> Positive(types[i])) ==> HasAlign(types, MaxOf(types))
  {
    if types != [] {
      var n := |types| - 1;
      assert n == 0 ==> types[..n] == [];
      MaxOfIsMax(types[..n]);
      forall i | 0 <= i < |types| ensures types[i].align <= MaxOf(types) {
        if i < n { assert types[..n][i] == types[i]; }
      }
      if MaxOf(types) != types[n].align && (forall i :: 0 <= i < |types| ==> Positive(types[i])) {
        assert forall i :: 0 <= i < n ==> types[..n][i] == types[i];
        assert Positive(types[n]) && MaxOf([]) == 0;
        var i :| 0 <= i < n && types[..n][i].align == MaxOf(types[..n]);
        assert types[i].align == MaxOf(types);
      }
    }
  }

  predicate HasAlign(types: seq<Type>, align: nat) { exists i :: 0 <= i < |types| && types[i].align == align }

  lemma TypedMaxAlign(fields: seq<Field>, types: seq<Type>, align: nat)
    requires Typed(fields, types) && HasAlign(types, align)
    requires forall i :: 0 <= i < |types| ==> types[i].align <= align && Positive(types[i])
    ensures MaxAlign(fields, align) && HashMap.IsPow2(align) && align > 0
  {
    var i :| 0 <= i < |types| && types[i].align == align;
    assert fields[i].typ.align == align;
  }

  lemma FormStruct(t: Type, types: seq<Type>)
    requires t.StructType? && Typed(t.fields, types) && forall i :: 0 <= i < |types| ==>
      WellFormed(types[i]) && Positive(types[i])
    requires HashMap.IsPow2(t.align) && t.align > 0 && t.size > 0 && StructLayout(t.fields, t.size, t.align)
    ensures WellFormed(t)
  {
  }

  lemma FormUnion(t: Type, types: seq<Type>)
    requires t.UnionType? && Typed(t.fields, types) && forall i :: 0 <= i < |types| ==>
      WellFormed(types[i]) && Positive(types[i])
    requires HashMap.IsPow2(t.align) && t.align > 0 && t.size > 0 && UnionLayout(t.fields, t.size, t.align)
    ensures WellFormed(t)
  {
  }

  // ---- what the layouts guarantee ----

  /** The rules leave no choice: two layouts of the same field types are equal. */
  lemma {:induction false} OffsetsUnique(f: seq<Field>, g: seq<Field>, types: seq<Type>, n: nat)
    requires Typed(f, types) && Typed(g, types) && (forall i :: 0 <= i < |types| ==> Positive(types[i])) && n < |types|
    requires forall i :: 0 <= i < |f| ==> Placed(f, i)
    requires forall i :: 0 <= i < |g| ==> Placed(g, i)
    ensures f[n] == g[n]
  {
    hide IsMultiple, Positive;
    if n > 0 { OffsetsUnique(f, g, types, n - 1); }
    assert Placed(f, n) && Placed(g, n);
    SameMultiple(f[n].offset, g[n].offset, types[n].align, if n == 0 then 0 else f[n - 1].End());
  }

  lemma StructUnique(t: Type, u: Type, types: seq<Type>)
    requires t.StructType? && u.StructType? && WellFormed(t) && WellFormed(u) && Typed(t.fields, types) &&
      Typed(u.fields, types)
    ensures t == u
  {
    forall i | 0 <= i < |types| ensures Positive(types[i]) { assert WellFormed(t.fields[i].typ); }
    forall i | 0 <= i < |types| ensures t.fields[i] == u.fields[i] { OffsetsUnique(t.fields, u.fields, types, i); }
    var i :| 0 <= i < |types| && t.fields[i].typ.align == t.align;
    var j :| 0 <= j < |types| && u.fields[j].typ.align == u.align;
    assert t.align == u.align by { assert u.fields[i].typ.align <= u.align && t.fields[j].typ.align <= t.align; }
    SameMultiple(t.size, u.size, t.align, t.fields[|types| - 1].End());
  }

  /** Fields of the same types in the same order, each aligned and behind the one before, with any padding. */
  predicate Arranged(t: Type, g: seq<Field>)
    requires t.StructType?
  {
    |g| == |t.fields| && (forall i :: 0 <= i < |g| ==> g[i].typ == t.fields[i].typ) &&
    (forall i :: 0 <= i < |g| ==> IsMultiple(g[i].offset, g[i].typ.align)) &&
    forall i :: 0 < i < |g| ==> g[i - 1].End() <= g[i].offset
  }

  /** No such arrangement has a field further to the front, or a smaller size. */
  lemma StructSmallest(t: Type, g: seq<Field>, size: nat)
    requires t.StructType? && WellFormed(t) && Arranged(t, g)
    requires IsMultiple(size, t.align) && g[|g| - 1].End() <= size
    ensures (forall i :: 0 <= i < |g| ==> t.fields[i].offset <= g[i].offset) && t.size <= size
  {
    hide IsMultiple;
    forall i | 0 <= i < |g| ensures t.fields[i].offset <= g[i].offset { OffsetSmallest(t, g, i); }
    var end := t.fields[|g| - 1].End();
    FirstMultiple(t.size, size, t.align, end);
  }

  lemma {:induction false} OffsetSmallest(t: Type, g: seq<Field>, n: nat)
    requires t.StructType? && WellFormed(t) && Arranged(t, g) && n < |g|
    ensures t.fields[n].offset <= g[n].offset
  {
    hide IsMultiple;
    assert Placed(t.fields, n);
    if n > 0 { OffsetSmallest(t, g, n - 1); }
    FirstMultiple(t.fields[n].offset, g[n].offset, t.fields[n].typ.align, if n == 0 then 0 else t.fields[n - 1].End());
  }

  lemma FirstMultiple(x: nat, y: nat, a: nat, lo: nat)
    requires IsMultiple(x, a) && IsMultiple(y, a) && lo <= x < lo + a && lo <= y
    ensures x <= y
  {
    if y < x { SameMultiple(x, y, a, lo); }
  }

  /** No smaller aligned size holds every field of a union. */
  lemma UnionSmallest(t: Type, size: nat)
    requires t.UnionType? && WellFormed(t)
    requires IsMultiple(size, t.align) && forall i :: 0 <= i < |t.fields| ==> t.fields[i].typ.size <= size
    ensures t.size <= size
  {
    hide IsMultiple;
    var i :| 0 <= i < |t.fields| && t.size < t.fields[i].typ.size + t.align;
    FirstMultiple(t.size, size, t.align, t.fields[i].typ.size);
  }

  /** The fields of a struct follow each other without overlap, all inside it. */
  lemma {:induction false} FieldsApart(t: Type, i: nat, j: nat)
    requires t.StructType? && WellFormed(t) && i < j < |t.fields|
    ensures t.fields[i].End() <= t.fields[j].offset
    decreases j
  {
    assert Placed(t.fields, j);
    if i < j - 1 { FieldsApart(t, i, j - 1); }
  }

  /** A field is inside its type, and its offset fits the alignment of both. */
  lemma FieldInside(t: Type, i: nat)
    requires (t.StructType? || t.UnionType?) && WellFormed(t) && i < |t.fields|
    ensures var f := t.fields[i]; WellFormed(f.typ) && f.End() <= t.size && IsMultiple(f.offset, f.typ.align)
    ensures t.fields[i].typ.align <= t.align
  {
    assert WellFormed(t.fields[i].typ) && t.fields[i].typ.align > 0;
    hide HashMap.IsPow2, IsMultiple;
    if t.StructType? {
      assert Placed(t.fields, i);
      if i < |t.fields| - 1 { FieldsApart(t, i, |t.fields| - 1); }
    } else {
      ZeroDivides(t.fields[i].typ.align);
    }
  }

  // ---- nested members ----

  /** A step to a member: a field, or an element. */
  datatype Step = ToField(i: nat) | ToElem(i: nat)

  predicate CanStep(t: Type, s: Step) {
    match t
    case Scalar(_, _) => false
    case ArrayType(_, _, _, len) => s.ToElem? && s.i < len
    case StructType(_, _, fields) => s.ToField? && s.i < |fields|
    case UnionType(_, _, fields) => s.ToField? && s.i < |fields|
  }

  /** The member one step leads to, with its offset. */
  function Member(t: Type, s: Step): Field
    requires CanStep(t, s)
  {
    if t.ArrayType? then Field(t.base, ElemOff(s.i, t.base.size)) else t.fields[s.i]
  }

  predicate IsPath(t: Type, path: seq<Step>)
    decreases |path|
  {
    path == [] || (CanStep(t, path[0]) && IsPath(Member(t, path[0]).typ, path[1..]))
  }

  /** The member a path leads to, with its offset from the start of the whole. */
  function Locate(t: Type, path: seq<Step>): Field
    requires IsPath(t, path)
    decreases |path|
  {
    if path == [] then Field(t, 0) else
      var m := Member(t, path[0]);
      var f := Locate(m.typ, path[1..]);
      Field(f.typ, m.offset + f.offset)
  }

  lemma MemberInside(t: Type, s: Step)
    requires WellFormed(t) && CanStep(t, s)
    ensures var m := Member(t, s); WellFormed(m.typ) && m.End() <= t.size && IsMultiple(m.offset, m.typ.align)
    ensures IsMultiple(t.align, Member(t, s).typ.align)
  {
    var m := Member(t, s);
    if t.ArrayType? {
      ElemBefore(s.i, t.len, t.base.size);
      SizeAligned(t.base);
      ElemAligned(s.i, t.base.size, t.base.align);
    } else {
      FieldInside(t, s.i);
    }
    Pow2Divides(m.typ.align, t.align);
  }

  lemma Multiply(a: nat, b: nat, c: nat)
    requires a <= b
    ensures a * c <= b * c
  {
  }

  lemma {:induction false} SizeAligned(t: Type)
    requires WellFormed(t)
    ensures IsMultiple(t.size, t.align)
  {
    hide HashMap.IsPow2, IsMultiple, Placed, MaxAlign;
    SelfDivides(t.align);
    if t.ArrayType? {
      SizeAligned(t.base);
      ElemAligned(t.len, t.base.size, t.base.align);
    }
  }

  /** Every member at any depth is inside the whole, at an offset that fits its alignment. */
  lemma {:induction false} NestedAligned(t: Type, path: seq<Step>)
    requires WellFormed(t) && IsPath(t, path)
    ensures var f := Locate(t, path); WellFormed(f.typ) && f.End() <= t.size && IsMultiple(f.offset, f.typ.align)
    ensures IsMultiple(t.align, Locate(t, path).typ.align) && IsMultiple(t.size, t.align)
    decreases |path|
  {
    SizeAligned(t);
    if path != [] {
      var m := Member(t, path[0]);
      MemberInside(t, path[0]);
      NestedAligned(m.typ, path[1..]);
      var f := Locate(m.typ, path[1..]);
      DividesThrough(m.offset, m.typ.align, f.typ.align);
      SumDivides(m.offset, f.offset, f.typ.align);
      DividesThrough(t.align, m.typ.align, f.typ.align);
    }
  }

  /** Two paths that part in a struct or an array, at any depth. */
  predicate Parting(t: Type, p: seq<Step>, q: seq<Step>)
    requires IsPath(t, p) && IsPath(t, q)
    decreases |p|
  {
    p != [] && q != [] &&
    if p[0] == q[0] then Parting(Member(t, p[0]).typ, p[1..], q[1..]) else !t.UnionType?
  }

  predicate Apart(f: Field, g: Field) { f.End() <= g.offset || g.End() <= f.offset }

  lemma MembersApart(t: Type, s: Step, r: Step)
    requires WellFormed(t) && !t.UnionType? && CanStep(t, s) && CanStep(t, r) && s != r
    ensures Apart(Member(t, s), Member(t, r))
  {
    var lo, hi := if s.i < r.i then s.i else r.i, if s.i < r.i then r.i else s.i;
    if t.ArrayType? {
      ElemBefore(lo, hi, t.base.size);
    } else {
      FieldsApart(t, lo, hi);
    }
  }

  /** Members on such paths share no byte. */
  lemma {:induction false} NestedApart(t: Type, p: seq<Step>, q: seq<Step>)
    requires WellFormed(t) && IsPath(t, p) && IsPath(t, q) && Parting(t, p, q)
    ensures Apart(Locate(t, p), Locate(t, q))
    decreases |p|
  {
    var m, n := Member(t, p[0]), Member(t, q[0]);
    MemberInside(t, p[0]);
    MemberInside(t, q[0]);
    if p[0] == q[0] {
      NestedApart(m.typ, p[1..], q[1..]);
    } else {
      MembersApart(t, p[0], q[0]);
      NestedAligned(m.typ, p[1..]);
      NestedAligned(n.typ, q[1..]);
    }
  }
}
