/** The arena allocator (src/mem_arena.c), with eight-byte pointers and 64-bit sizes. Offsets count from a block's mem_start. */
module Arena {
  import opened Options

  const SIZE_MAX := 0xFFFF_FFFF_FFFF_FFFF
  const ALIGNMENT := 8

  /** PTR_ALIGN, in 64-bit arithmetic. */
  function Aligned(x: nat): (r: nat)
    requires x <= SIZE_MAX
    ensures r % ALIGNMENT == 0 && r <= SIZE_MAX
  {
    if x % ALIGNMENT != 0 then (x + ALIGNMENT) % (SIZE_MAX + 1) / ALIGNMENT * ALIGNMENT else x
  }

  /** Aligning gives the least sufficient multiple of eight exactly while the sum does not wrap; beyond that it gives zero. */
  lemma AlignedCovers(x: nat)
    requires x <= SIZE_MAX
    ensures x <= Aligned(x) <==> x <= SIZE_MAX - 7
    ensures x <= SIZE_MAX - 7 ==> Aligned(x) < x + ALIGNMENT
    ensures x > SIZE_MAX - 7 ==> Aligned(x) == 0
  {
  }

  /** `struct mem_arena_block`: `id` is its address, `prev` is None for a null mem_prev. */
  datatype Block = Block(id: nat, prev: Option<nat>, ptr: nat, end: nat)

  /** A range handed out: `size` bytes at offset `off` of block number `block`, the oldest block being number 0. */
  datatype Range = Range(block: nat, off: nat, size: nat)

  predicate Apart(a: Range, b: Range)
  {
    a.block != b.block || a.off + a.size <= b.off || b.off + b.size <= a.off
  }

  datatype Request = AllocCalled(size: nat) | RollbackCalled | ResetCalled | CleanupCalled

  /** What an arena holds: its blocks, the ranges handed out, and the number of the next block. */
  datatype State = State(blocks: seq<Block>, live: seq<Range>, nextId: nat)

  /** The head block has room for the bytes: the end itself is never handed out. */
  predicate Fits(blocks: seq<Block>, bytes: nat)
  {
    blocks != [] && blocks[|blocks| - 1].ptr + bytes < blocks[|blocks| - 1].end
  }

  function Next(blockSize: nat, s: State, q: Request): State
    requires blockSize <= SIZE_MAX
  {
    var n := |s.blocks| - 1;
    match q {
      case AllocCalled(size) =>
        if size > SIZE_MAX || Aligned(size) > blockSize / 2 then
          s
        else if Fits(s.blocks, Aligned(size)) then
          var h := s.blocks[n];
          State(s.blocks[n := h.(prev := Some(h.ptr), ptr := h.ptr + Aligned(size))], s.live + [Range(n, h.ptr, Aligned(size))], s.nextId)
        else
          var h := Block(s.nextId, Some(0), Aligned(size), Aligned(blockSize));
          State(s.blocks + [h], s.live + [Range(n + 1, 0, Aligned(size))], s.nextId + 1)
      case RollbackCalled =>
        if s.blocks != [] && s.blocks[n].prev.Some? && s.live != [] then
          State(s.blocks[n := s.blocks[n].(ptr := s.blocks[n].prev.value, prev := None)], s.live[..|s.live| - 1], s.nextId)
        else
          s
      case ResetCalled =>
        State(if s.blocks == [] then [] else [s.blocks[n].(prev := None, ptr := 0)], [], s.nextId)
      case CleanupCalled =>
        State([], [], s.nextId)
    }
  }

  /** The state a sequence of calls leads to from an empty arena. */
  function Served(blockSize: nat, requests: seq<Request>): State
    requires blockSize <= SIZE_MAX
  {
    if requests == [] then State([], [], 0)
    else Next(blockSize, Served(blockSize, requests[..|requests| - 1]), requests[|requests| - 1])
  }

  class MemArena {
    const blockSize: nat
    /** The list of blocks, the head last. */
    var blocks: seq<Block>
    /** The blocks the system has given out and not got back, and all it ever gave. */
    ghost var heap: set<nat>
    var nextId: nat
    /** The ranges handed out since the last reset and not rolled back, oldest first. */
    ghost var live: seq<Range>

    ghost function Current(): State
      reads this`blocks, this`live, this`nextId
    {
      State(blocks, live, nextId)
    }

    ghost predicate BlockOk(i: int)
      requires 0 <= i < |blocks|
      reads this`blocks
    {
      blocks[i].ptr % ALIGNMENT == 0 && blocks[i].ptr < blocks[i].end && blockSize <= blocks[i].end
    }

    /** A live range is aligned and inside the used part of its block. */
    ghost predicate Inside(i: int)
      requires 0 <= i < |live|
      reads this`blocks, this`live
    {
      var a := live[i];
      a.block < |blocks| && a.off % ALIGNMENT == 0 && a.size % ALIGNMENT == 0 && a.off + a.size <= blocks[a.block].ptr
    }

    /** The live ranges of a block follow each other. */
    ghost predicate Ranged()
      reads this`blocks, this`live
    {
      && (forall i {:trigger Inside(i)} :: 0 <= i < |live| ==> Inside(i))
      && (forall i, j {:trigger live[i], live[j]} :: 0 <= i < j < |live| && live[i].block == live[j].block ==> live[i].off + live[i].size <= live[j].off)
    }

    /** What mem_prev of the head remembers is the start of the latest range. */
    ghost predicate Remembers()
      reads this`blocks, this`live
    {
      blocks != [] && blocks[|blocks| - 1].prev.Some? ==>
        var h := blocks[|blocks| - 1];
        live != [] && h.prev.value <= h.ptr && live[|live| - 1] == Range(|blocks| - 1, h.prev.value, h.ptr - h.prev.value)
    }

    ghost predicate Owns()
      reads this`blocks, this`heap, this`nextId
    {
      && (forall i {:trigger blocks[i]} :: 0 <= i < |blocks| ==> blocks[i].id in heap && blocks[i].id < nextId)
      && (forall i, j :: 0 <= i < j < |blocks| ==> blocks[i].id != blocks[j].id)
      && (forall id {:trigger id in heap} :: id in heap ==> exists i {:trigger blocks[i]} :: 0 <= i < |blocks| && blocks[i].id == id)
    }

    ghost predicate Valid()
      reads this
    {
      && 1 <= blockSize <= SIZE_MAX - 64
      && (forall i {:trigger BlockOk(i)} :: 0 <= i < |blocks| ==> BlockOk(i))
      && Ranged() && Remembers() && Owns()
    }

    /** MEM_ARENA_INIT */
    constructor (blockSize: nat)
      requires 1 <= blockSize <= SIZE_MAX - 64
      ensures Valid() && this.blockSize == blockSize && heap == {}
      ensures Current() == State([], [], 0)
    {
      this.blockSize := blockSize;
      blocks, heap, nextId, live := [], {}, 0, [];
    }

    /** Moving the cursors of a block does not touch its ownership. */
    twostate lemma OwnsKept()
      requires old(Owns()) && heap == old(heap) && nextId == old(nextId) && |blocks| == |old(blocks)|
      requires forall i {:trigger blocks[i]} :: 0 <= i < |blocks| ==> blocks[i].id == old(blocks)[i].id
      ensures Owns()
    {
      forall id | id in heap ensures exists i {:trigger blocks[i]} :: 0 <= i < |blocks| && blocks[i].id == id {
        var i :| 0 <= i < |blocks| && old(blocks)[i].id == id;
        assert blocks[i].id == id;
      }
    }

    /** mem_arena_block_create, linked in as the new head. */
    method Grow()
      requires Valid()
      modifies this`blocks, this`heap, this`nextId
      ensures Valid() && blocks == old(blocks) + [Block(old(nextId), None, 0, Aligned(blockSize))]
      ensures live == old(live) && nextId == old(nextId) + 1
    {
      AlignedCovers(blockSize);
      var n := |blocks|;
      blocks := blocks + [Block(nextId, None, 0, Aligned(blockSize))];
      heap := heap + {nextId};
      nextId := nextId + 1;
      forall i | 0 <= i < |blocks| ensures BlockOk(i) {
        assert i < n ==> old(i < |blocks| && BlockOk(i));
      }
      forall i | 0 <= i < |live| ensures Inside(i) {
        assert old(Inside(i));
      }
      forall id | id in heap ensures exists i {:trigger blocks[i]} :: 0 <= i < |blocks| && blocks[i].id == id {
        if id in old(heap) {
          var i :| 0 <= i < n && old(blocks)[i].id == id;
          assert blocks[i].id == id;
        } else {
          assert blocks[n].id == id;
        }
      }
    }

    /** The range at the cursor of the head, which has room for it, comes behind all live ones of its block. */
    twostate lemma BumpedRanges(new n: nat, new size: nat)
      requires old(Valid()) && n + 1 == |old(blocks)| && size % ALIGNMENT == 0
      requires heap == old(heap) && nextId == old(nextId) && |blocks| == n + 1 && blocks[..n] == old(blocks)[..n]
      requires blocks[n] == old(blocks)[n].(prev := Some(old(blocks)[n].ptr), ptr := old(blocks)[n].ptr + size)
      requires live == old(live) + [Range(n, old(blocks)[n].ptr, size)]
      ensures Ranged() && Owns()
    {
      assert forall i {:trigger blocks[i]} :: 0 <= i < n ==> blocks[i] == blocks[..n][i] == old(blocks)[..n][i];
      OwnsKept();
      hide Owns, Remembers;
      assert old(BlockOk(n));
      forall i | 0 <= i < |live| ensures Inside(i) {
        assert i < |live| - 1 ==> old(i < |live| && Inside(i));
      }
      forall i, j {:trigger live[i], live[j]} | 0 <= i < j < |live| && live[i].block == live[j].block ensures live[i].off + live[i].size <= live[j].off {
        assert old(Inside(i));
      }
    }

    /** mem_arena_block_alloc, on the head. */
    method Bump(size: nat) returns (ptr: Option<nat>)
      requires Valid() && blocks != [] && size % ALIGNMENT == 0
      modifies this`blocks, this`live
      ensures Valid()
      ensures ptr == if old(blocks[|blocks| - 1].ptr) + size < old(blocks[|blocks| - 1].end) then Some(old(blocks[|blocks| - 1].ptr)) else None
      ensures ptr.None? ==> unchanged(this)
      ensures ptr.Some? ==> |blocks| == |old(blocks)| && live == old(live) + [Range(|blocks| - 1, ptr.value, size)]
      ensures ptr.Some? ==> blocks == old(blocks)[|blocks| - 1 := old(blocks)[|blocks| - 1].(prev := ptr, ptr := ptr.value + size)]
    {
      var n := |blocks| - 1;
      var h := blocks[n];
      assert BlockOk(n);
      if h.ptr + size >= h.end {
        return None;
      }
      blocks := blocks[n := h.(prev := Some(h.ptr), ptr := h.ptr + size)];
      live := live + [Range(n, h.ptr, size)];
      ptr := Some(h.ptr);
      forall i | 0 <= i < |blocks| ensures BlockOk(i) {
        assert old(BlockOk(i));
      }
      BumpedRanges(n, size);
    }

    /** A new head block serves the request. The source's assertion that it does is the one here. */
    method GrowAndBump(bytes: nat) returns (ptr: Option<nat>)
      requires Valid() && bytes % ALIGNMENT == 0 && bytes < Aligned(blockSize)
      modifies this`blocks, this`heap, this`nextId, this`live
      ensures Valid() && ptr == Some(0) && nextId == old(nextId) + 1
      ensures live == old(live) + [Range(|old(blocks)|, 0, bytes)]
      ensures blocks == old(blocks) + [Block(old(nextId), Some(0), bytes, Aligned(blockSize))]
    {
      hide Valid, Aligned;
      Grow();
      ptr := Bump(bytes);
      assert ptr.Some?;
    }

    /** The head serves a request while it has room; otherwise a new block does. */
    twostate predicate ServedBy(bytes: nat, r: Range)
      requires blockSize <= SIZE_MAX
      reads this
    {
      && r.size == bytes && live == old(live) + [r]
      && (old(Fits(blocks, bytes)) ==>
            && r.block == |old(blocks)| - 1 && r.off == old(blocks[|blocks| - 1].ptr) && nextId == old(nextId) && heap == old(heap)
            && blocks == old(blocks)[|old(blocks)| - 1 := old(blocks[|blocks| - 1]).(prev := Some(r.off), ptr := r.off + bytes)])
      && (!old(Fits(blocks, bytes)) ==>
            && r.block == |old(blocks)| && r.off == 0 && nextId == old(nextId) + 1
            && blocks == old(blocks) + [Block(old(nextId), Some(0), bytes, Aligned(blockSize))])
    }

    /** mem_arena_alloc: null for more than half a block, otherwise a new range behind all live ones of its block. */
    method Alloc(size: nat) returns (r: Option<Range>)
      requires Valid() && size <= SIZE_MAX
      modifies this`blocks, this`heap, this`nextId, this`live
      ensures Valid()
      ensures r.None? <==> Aligned(size) > blockSize / 2
      ensures r.None? ==> unchanged(this)
      ensures r.Some? ==> ServedBy(Aligned(size), r.value)
      ensures r.Some? && old(blocks) != [] && old(blocks[|blocks| - 1].ptr) + Aligned(size) < old(blocks[|blocks| - 1].end) ==>
        r.value == Range(|old(blocks)| - 1, old(blocks[|blocks| - 1].ptr), Aligned(size)) && |blocks| == |old(blocks)|
      ensures r.Some? && (old(blocks) == [] || old(blocks[|blocks| - 1].ptr) + Aligned(size) >= old(blocks[|blocks| - 1].end)) ==>
        r.value == Range(|old(blocks)|, 0, Aligned(size)) && |blocks| == |old(blocks)| + 1
    {
      assert 1 <= blockSize <= SIZE_MAX - 64;
      hide Valid, Aligned;
      var bytes := Aligned(size);
      if bytes > blockSize / 2 {
        return None;
      }
      AlignedCovers(blockSize);
      assert bytes < Aligned(blockSize);
      if blocks == [] {
        Grow();
      }
      var ptr := Bump(bytes);
      if ptr.None? {
        ptr := GrowAndBump(bytes);
      }
      r := Some(Range(|blocks| - 1, ptr.value, bytes));
    }

    /** mem_arena_rollback: the latest range goes and the cursor is back at its start, unless there is none to undo since
        the last undo, reset or new block. */
    method Rollback()
      requires Valid()
      modifies this`blocks, this`live
      ensures Valid()
      ensures old(blocks) != [] && old(blocks[|blocks| - 1].prev).Some? ==> old(live) != [] && live == old(live)[..|old(live)| - 1]
      ensures old(blocks) != [] && old(blocks[|blocks| - 1].prev).Some? ==>
        blocks == old(blocks)[|old(blocks)| - 1 := old(blocks[|blocks| - 1]).(ptr := old(blocks[|blocks| - 1].prev).value, prev := None)]
      ensures old(blocks) == [] || old(blocks[|blocks| - 1].prev).None? ==> unchanged(this)
      ensures blocks != [] ==> blocks[|blocks| - 1].prev.None?
      ensures Current() == Next(blockSize, old(Current()), RollbackCalled)
    {
      if blocks != [] && blocks[|blocks| - 1].prev.Some? {
        var n := |blocks| - 1;
        var h := blocks[n];
        assert BlockOk(n) && Inside(|live| - 1);
        blocks := blocks[n := h.(ptr := h.prev.value, prev := None)];
        live := live[..|live| - 1];
        forall i | 0 <= i < |blocks| ensures BlockOk(i) {
          assert old(BlockOk(i));
        }
        forall i | 0 <= i < |live| ensures Inside(i) {
          assert old(Inside(i));
          assert old(live)[i] == live[i] && old(live)[|live|] == Range(n, h.prev.value, h.ptr - h.prev.value);
        }
        OwnsKept();
      }
    }
  
    /** kpl_free of a block: it has to be one that the system has not got back yet. */
    method FreeBlock(k: nat)
      requires k < |blocks| && Owns()
      modifies this`blocks, this`heap
      ensures Owns() && blocks == old(blocks)[..k] + old(blocks)[k + 1..]
    {
      var id := blocks[k].id;
      assert id in heap;
      ghost var before := blocks;
      blocks := blocks[..k] + blocks[k + 1..];
      heap := heap - {id};
      assert forall i :: 0 <= i < |blocks| ==> blocks[i] == before[if i < k then i else i + 1];
      forall x | x in heap ensures exists i {:trigger blocks[i]} :: 0 <= i < |blocks| && blocks[i].id == x {
        var i :| 0 <= i < |before| && before[i].id == x;
        assert blocks[if i < k then i else i - 1].id == x;
      }
    }

    /** mem_arena_cleanup: every block goes back to the system. */
    method Cleanup()
      requires Valid()
      modifies this`blocks, this`heap, this`live
      ensures Valid() && blocks == [] && heap == {} && live == []
      ensures Current() == Next(blockSize, old(Current()), CleanupCalled)
    {
      live := [];
      while blocks != []
        invariant Owns() && live == []
        decreases |blocks|
      {
        FreeBlock(|blocks| - 1);
      }
    }

    /** mem_arena_reset: one empty block is kept, if there was any, and no range stays live. */
    method Reset()
      requires Valid()
      modifies this`blocks, this`heap, this`live
      ensures Valid() && live == []
      ensures Current() == Next(blockSize, old(Current()), ResetCalled)
      ensures old(blocks) == [] ==> blocks == []
      ensures old(blocks) != [] ==> blocks == [old(blocks[|blocks| - 1]).(prev := None, ptr := 0)] && heap == {old(blocks[|blocks| - 1]).id}
    {
      live := [];
      if blocks == [] {
        return;
      }
      var h := blocks[|blocks| - 1];
      assert BlockOk(|blocks| - 1);
      while |blocks| > 1
        invariant Owns() && live == [] && |blocks| >= 1 && blocks[|blocks| - 1] == h
        decreases |blocks|
      {
        FreeBlock(|blocks| - 2);
      }
      blocks := [h.(prev := None, ptr := 0)];
      assert BlockOk(0);
      assert forall id :: id in heap ==> id == h.id;
    }

    /** An allocation and its undoing. */
    method TryOut(size: nat) returns (r: Option<Range>)
      requires Valid() && size <= SIZE_MAX
      modifies this`blocks, this`heap, this`nextId, this`live
      ensures Valid() && live == old(live)
      ensures r.None? <==> Aligned(size) > blockSize / 2
      ensures r.None? ==> Current() == old(Current())
      ensures r.Some? ==> forall i :: 0 <= i < |live| ==> Apart(live[i], r.value)
      ensures r.Some? && old(Fits(blocks, Aligned(size))) ==> blocks == old(blocks)[|old(blocks)| - 1 := old(blocks[|blocks| - 1]).(prev := None)]
      ensures r.Some? && !old(Fits(blocks, Aligned(size))) ==> blocks == old(blocks) + [Block(old(nextId), None, 0, Aligned(blockSize))]
    {
      assert blockSize <= SIZE_MAX;
      hide Valid, Aligned;
      r := Alloc(size);
      if r.Some? {
        forall i | 0 <= i < |old(live)| ensures Apart(old(live)[i], r.value) {
          LiveRangesApart(this, i, |old(live)|);
          assert live[i] == old(live)[i];
        }
        Rollback();
      }
    }

    method Serve(q: Request)
      requires Valid()
      modifies this`blocks, this`heap, this`nextId, this`live
      ensures Valid() && Current() == Next(blockSize, old(Current()), q)
    {
      assert blockSize <= SIZE_MAX;
      hide Valid, Aligned;
      match q {
        case AllocCalled(size) =>
          if size <= SIZE_MAX {
            var r := Alloc(size);
          }
        case RollbackCalled => Rollback();
        case ResetCalled => Reset();
        case CleanupCalled => Cleanup();
      }
    }
  }

  // ----- what holds at any time -----

  /** Live ranges do not overlap, are aligned, and lie inside their blocks. */
  lemma LiveRangesApart(m: MemArena, i: int, j: int)
    requires m.Valid() && 0 <= i < j < |m.live|
    ensures Apart(m.live[i], m.live[j])
    ensures m.live[i].off % ALIGNMENT == 0 && m.live[i].block < |m.blocks| && m.live[i].off + m.live[i].size < m.blocks[m.live[i].block].end
  {
    assert m.Inside(i);
    assert m.BlockOk(m.live[i].block);
  }

  /** The assertion about fresh blocks: a block made for the arena serves every request that passed the size test
      exactly when the block size is not zero. */
  lemma FreshBlockServes(blockSize: nat)
    requires blockSize <= SIZE_MAX - 7
    ensures (forall size: nat {:trigger Aligned(size)} :: size <= SIZE_MAX && Aligned(size) <= blockSize / 2 ==> Aligned(size) < Aligned(blockSize)) <==> blockSize >= 1
  {
    AlignedCovers(blockSize);
    if blockSize == 0 {
      assert Aligned(0) == 0;
    }
  }

  /** Any sequence of calls keeps the arena in order and leads to the state computed by `Served`. A further allocation
      stays apart from everything live, and undoing it leaves exactly what was live before, with the cursor where it was.
      What remains of it is that nothing can be undone any more, and the new block, empty, if it needed one. */
  method Run(blockSize: nat, requests: seq<Request>, size: nat) returns (m: MemArena, r: Option<Range>)
    requires 1 <= blockSize <= SIZE_MAX - 64 && size <= SIZE_MAX
    ensures fresh(m) && m.Valid()
    ensures r.None? <==> Aligned(size) > blockSize / 2
    ensures r.None? ==> m.Current() == Served(blockSize, requests)
    ensures r.Some? ==> forall i :: 0 <= i < |m.live| ==> Apart(m.live[i], r.value)
    ensures m.live == Served(blockSize, requests).live
    ensures r.Some? ==> var b := Served(blockSize, requests).blocks;
      m.blocks == if Fits(b, Aligned(size)) then b[|b| - 1 := b[|b| - 1].(prev := None)]
                  else b + [Block(Served(blockSize, requests).nextId, None, 0, Aligned(blockSize))]
  {
    m := new MemArena(blockSize);
    for k := 0 to |requests|
      invariant fresh(m) && m.Valid() && m.blockSize == blockSize
      invariant m.Current() == Served(blockSize, requests[..k])
    {
      m.Serve(requests[k]);
      assert requests[..k + 1][..k] == requests[..k];
    }
    assert requests[..|requests|] == requests;
    hide MemArena.Valid, Next, Aligned;
    r := m.TryOut(size);
  }
}
