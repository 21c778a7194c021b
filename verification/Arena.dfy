/** The arena allocator: blocks on a stack, allocations one behind the other, and snapshots that can be restored. */
module Arena {
  import HashMap
  import DataLayout

  /** A block of memory; a footer stands behind its end. */
  datatype Block = Block(start: nat, end: nat)

  datatype Range = Range(start: nat, size: nat) {
    function End(): nat { start + size }
  }

  const FOOTER_SIZE: nat := 24

  /** An arena: its blocks, the place of the next and of the last allocation, and the allocations that are live. */
  datatype State = State(blocks: seq<Block>, at: nat, pat: nat, live: seq<Range>)

  /** What a snapshot remembers. */
  datatype Saved = Saved(buffer: nat, at: nat, pat: nat)

  predicate BlocksApart(a: Block, b: Block) { a.end + FOOTER_SIZE <= b.start || b.end + FOOTER_SIZE <= a.start }

  predicate RangesApart(a: Range, b: Range) { a.End() <= b.start || b.End() <= a.start }

  predicate Inside(r: Range, b: Block) { b.start <= r.start && r.End() <= b.end }

  /** A live allocation is in a block, and below the place of the next one if that is the current block. */
  predicate Held(s: State, r: Range) {
    exists i :: 0 <= i < |s.blocks| && Inside(r, s.blocks[i]) && (i == |s.blocks| - 1 ==> r.End() <= s.at)
  }

  predicate BlocksFormed(s: State) {
    s.blocks != [] &&
    (forall i :: 0 <= i < |s.blocks| ==> 0 < s.blocks[i].start <= s.blocks[i].end) &&
    (forall i, j :: 0 <= i < j < |s.blocks| ==> BlocksApart(s.blocks[i], s.blocks[j]))
  }

  function Current(s: State): Block
    requires s.blocks != []
  {
    s.blocks[|s.blocks| - 1]
  }

  predicate LiveFormed(s: State)
  {
    (forall k :: 0 <= k < |s.live| ==> Held(s, s.live[k])) &&
    (forall j, k :: 0 <= j < k < |s.live| ==> RangesApart(s.live[j], s.live[k]))
  }

  /** Without the last allocation, the others are held below it. */
  predicate Poppable(s: State)
    requires s.blocks != []
  {
    Current(s).start <= s.pat && forall k :: 0 <= k < |s.live| - 1 ==> Held(s.(at := s.pat), s.live[k])
  }

  predicate Formed(s: State) {
    BlocksFormed(s) && Current(s).start <= s.at <= Current(s).end && LiveFormed(s) &&
    (s.pat != 0 ==>
      s.live != [] && s.live[|s.live| - 1].start == s.pat && s.live[|s.live| - 1].End() == s.at && Poppable(s))
  }

  /** The arena has grown since: the blocks and the allocations of s are still there, under newer ones. */
  predicate Extends(s: State, t: State) {
    s.blocks != [] && s.blocks <= t.blocks && s.live <= t.live &&
    (s.blocks == t.blocks ==> s.at <= t.at && forall k :: |s.live| <= k < |t.live| ==> s.at <= t.live[k].start)
  }

  lemma ExtendsThrough(s: State, t: State, u: State)
    requires Extends(s, t) && Extends(t, u)
    ensures Extends(s, u)
  {
  }

  lemma ExtendsItself(s: State)
    requires Formed(s)
    ensures Extends(s, s)
  {
  }

  lemma FormedCurrent(s: State)
    requires Formed(s)
    ensures s.blocks != [] && 0 < Current(s).start <= s.at <= Current(s).end
  {
  }

  /** The size of a new block. */
  function GrownSize(b: Block, size: nat, align: nat): nat
    requires b.start <= b.end
  {
    2 * if b.end - b.start < size + align then size + align else b.end - b.start
  }

  /** From the first aligned place on there is room in the current block. */
  ghost predicate Fits(s: State, size: nat, align: nat)
    requires s.blocks != []
  {
    exists p: nat :: DataLayout.IsMultiple(p, align) && s.at <= p < s.at + align && p + size <= Current(s).end
  }

  lemma FitsIff(s: State, size: nat, align: nat, p: nat)
    requires s.blocks != [] && align > 0 && DataLayout.IsMultiple(p, align) && s.at <= p < s.at + align
    ensures Fits(s, size, align) <==> p + size <= Current(s).end
  {
    hide DataLayout.IsMultiple;
    forall q: nat | DataLayout.IsMultiple(q, align) && s.at <= q < s.at + align ensures q == p {
      DataLayout.SameMultiple(p, q, align, s.at);
    }
  }

  class Allocator {
    var blocks: seq<Block>
    var at: nat
    var pat: nat
    ghost var live: seq<Range>

    ghost function Value(): State
      reads this
    {
      State(blocks, at, pat, live)
    }

    /** Makes an arena with one block, for which malloc gave a place. */
    constructor (initSize: nat, place: nat)
      requires place > 0
      ensures Formed(Value()) && live == []
    {
      blocks, at, pat, live := [Block(place, place + initSize)], place, 0, [];
    }

    /** Pushes a block at a place that malloc gave, away from the blocks there are. */
    method AllocMemBlock(blockSize: nat, place: nat)
      requires Formed(Value()) && place > 0
      requires forall i :: 0 <= i < |blocks| ==> BlocksApart(blocks[i], Block(place, place + blockSize))
      modifies this
      ensures Formed(Value()) && Extends(old(Value()), Value()) && live == old(live)
      ensures blocks == old(blocks) + [Block(place, place + blockSize)] && at == place && pat == 0
    {
      ghost var before := Value();
      blocks := blocks + [Block(place, place + blockSize)];
      at := place;
      pat := 0;
      forall k | 0 <= k < |live| ensures Held(Value(), live[k]) {
        var i :| 0 <= i < |before.blocks| && Inside(live[k], before.blocks[i]);
        assert blocks[i] == before.blocks[i];
      }
    }

    /** Allocates: aligned, inside a block, and apart from everything live; at the first aligned place of the current
        block if that has room, else of a new block. Fails only if malloc does, and changes nothing then. */
    method MemAllocate(size: nat, align: nat, place: nat) returns (memory: nat)
      requires Formed(Value()) && HashMap.IsPow2(align) && align > 0
      requires var grown := GrownSize(Current(Value()), size, align);
               place != 0 ==> forall i :: 0 <= i < |blocks| ==> BlocksApart(blocks[i], Block(place, place + grown))
      modifies this
      ensures Formed(Value()) && Extends(old(Value()), Value())
      ensures memory == 0 ==> Value() == old(Value()) && place == 0 && !Fits(old(Value()), size, align)
      ensures memory != 0 ==> at == memory + size && pat == memory
      ensures Fits(old(Value()), size, align) ==> blocks == old(blocks) && old(at) <= memory < old(at) + align
      ensures memory != 0 && !Fits(old(Value()), size, align) ==>
        blocks == old(blocks) + [Block(place, place + GrownSize(Current(old(Value())), size, align))] &&
        place <= memory < place + align
      ensures memory != 0 ==> live == old(live) + [Range(memory, size)] && DataLayout.IsMultiple(memory, align)
      ensures memory != 0 ==> forall k :: 0 <= k < |old(live)| ==> RangesApart(old(live)[k], Range(memory, size))
    {
      hide Formed, Extends, Fits, HashMap.IsPow2, DataLayout.IsMultiple, DataLayout.AlignUp;
      ghost var before := Value();
      FormedCurrent(before);
      DataLayout.AlignUpRight(at, align);
      var alignedAt := DataLayout.AlignUp(at, align);
      FitsIff(before, size, align, alignedAt);
      var newAt := alignedAt + size;
      var b := blocks[|blocks| - 1];
      if newAt > b.end {
        var blockSize := b.end - b.start;
        var worstSize := size + align;
        if blockSize < worstSize {
          blockSize := worstSize;
        }
        blockSize := blockSize * 2;
        if place == 0 {
          ExtendsItself(before);
          return 0;
        }
        AllocMemBlock(blockSize, place);
        DataLayout.AlignUpRight(at, align);
        alignedAt := DataLayout.AlignUp(at, align);
        newAt := alignedAt + size;
      } else {
        ExtendsItself(before);
      }
      ghost var mid := Value();
      memory := alignedAt;
      pat := alignedAt;
      at := newAt;
      live := live + [Range(memory, size)];
      PushKeeps(mid, Range(memory, size));
      ExtendsThrough(before, mid, Value());
    }

    /** Undoes the last allocation, if it is this one and still can be; otherwise does nothing. */
    method MemFree(ptr: nat)
      requires Formed(Value())
      modifies this
      ensures Formed(Value())
      ensures ptr == 0 || ptr != old(pat) ==> Value() == old(Value())
      ensures ptr != 0 && ptr == old(pat) ==> Value() == State(old(blocks), ptr, 0, old(live[..|live| - 1]))
      ensures forall s :: Extends(s, old(Value())) && (s.live == old(live) ==> ptr != old(pat)) && Formed(s) ==>
        Extends(s, Value())
    {
      if pat != 0 && ptr == pat {
        ghost var before := Value();
        at := pat;
        pat := 0;
        live := live[..|live| - 1];
        PopKeeps(before);
      }
    }

    method GetState() returns (saved: Saved)
      requires Formed(Value())
      ensures saved == SavedOf(Value())
    {
      saved := Saved(blocks[|blocks| - 1].start, at, pat);
    }

    /** Pops the blocks pushed since a snapshot: the arena is as it was, and what was allocated since is gone. */
    method RestoreState(saved: Saved, ghost snap: State)
      requires Formed(Value()) && Formed(snap) && Extends(snap, Value()) && saved == SavedOf(snap)
      modifies this
      ensures Value() == snap && Formed(Value())
    {
      while blocks[|blocks| - 1].start != saved.buffer
        invariant BlocksFormed(Value()) && snap.blocks <= blocks
        decreases |blocks|
      {
        blocks := blocks[..|blocks| - 1];
      }
      StartsDiffer(Value());
      at := saved.at;
      pat := saved.pat;
      live := snap.live;
    }
  }

  function SavedOf(s: State): Saved
    requires s.blocks != []
  {
    Saved(Current(s).start, s.at, s.pat)
  }

  lemma StartsDiffer(s: State)
    requires BlocksFormed(s)
    ensures forall i, j :: 0 <= i < j < |s.blocks| ==> s.blocks[i].start != s.blocks[j].start
  {
    forall i, j | 0 <= i < j < |s.blocks| ensures s.blocks[i].start != s.blocks[j].start {
      assert BlocksApart(s.blocks[i], s.blocks[j]);
    }
  }

  /** What is held below a new range stays held, and apart from it. */
  lemma HeldApart(s: State, r: Range, x: Range)
    requires BlocksFormed(s) && Held(s, x) && r.start > 0 && s.at <= r.start && r.End() <= Current(s).end &&
      Current(s).start <= s.at
    ensures var t := State(s.blocks, r.End(), r.start, s.live + [r]);
      Held(t, x) && Held(t.(at := t.pat), x) && RangesApart(x, r)
  {
    var t := State(s.blocks, r.End(), r.start, s.live + [r]);
    var i :| 0 <= i < |s.blocks| && Inside(x, s.blocks[i]) && (i == |s.blocks| - 1 ==> x.End() <= s.at);
    assert i < |s.blocks| - 1 ==> BlocksApart(s.blocks[i], Current(s));
    assert Inside(x, t.blocks[i]);
  }

  lemma PushKeeps(s: State, r: Range)
    requires Formed(s) && r.start > 0 && s.at <= r.start && r.End() <= Current(s).end
    ensures var t := State(s.blocks, r.End(), r.start, s.live + [r]);
            Formed(t) && Extends(s, t) && forall k :: 0 <= k < |s.live| ==> RangesApart(s.live[k], r)
  {
    var t := State(s.blocks, r.End(), r.start, s.live + [r]);
    forall k | 0 <= k < |s.live|
      ensures Held(t, s.live[k]) && Held(t.(at := t.pat), s.live[k]) && RangesApart(s.live[k], r) {
      HeldApart(s, r, s.live[k]);
    }
    assert Inside(r, t.blocks[|t.blocks| - 1]) && Held(t, r);
    hide Held;
  }

  lemma PopKeeps(s: State)
    requires Formed(s) && s.pat != 0
    ensures var t := State(s.blocks, s.pat, 0, s.live[..|s.live| - 1]);
            Formed(t) && forall u :: Extends(u, s) && u.live != s.live && Formed(u) ==> Extends(u, t)
  {
    var t := State(s.blocks, s.pat, 0, s.live[..|s.live| - 1]);
    assert t.blocks == s.blocks;
    forall k | 0 <= k < |t.live| ensures Held(t, t.live[k]) {
      assert Held(s.(at := s.pat), s.live[k]);
      SameHeld(s.(at := s.pat), t, s.live[k]);
    }
    hide Held;
  }

  lemma SameHeld(s: State, t: State, r: Range)
    requires s.blocks == t.blocks && s.at == t.at && Held(s, r)
    ensures Held(t, r)
  {
  }
}
