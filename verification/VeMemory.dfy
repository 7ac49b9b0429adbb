/** `ve_malloc`, `ve_free` and `ve_virt2phys` of src/ve.c over their linked list of chunks. Each
    method is proved to do exactly what the functions of Allocator say of whole lists. */
module VeMemory {
  import opened CTypes
  import opened ChunkList
  import Allocator

  class MemChunk {
    const physAddr: uint32
    var size: nat
    var virtAddr: uint32
    var next: MemChunk?

    constructor (physAddr: uint32, size: nat, virtAddr: uint32, next: MemChunk?)
      ensures this.physAddr == physAddr && this.size == size && this.virtAddr == virtAddr && this.next == next
    {
      this.physAddr, this.size, this.virtAddr, this.next := physAddr, size, virtAddr, next;
    }

    function AsChunk(): Chunk
      reads this
    {
      Chunk(physAddr, size, virtAddr)
    }
  }

  // ---------- Stretches of the list ----------

  /** Following `next` from `from` passes through `nodes` and arrives at `to`. */
  ghost predicate Segment(nodes: seq<MemChunk>, from: MemChunk?, to: MemChunk?)
    reads nodes
  {
    if nodes == [] then from == to else from == nodes[0] && Segment(nodes[1..], nodes[0].next, to)
  }

  ghost function ChunksOf(nodes: seq<MemChunk>): (cs: seq<Chunk>)
    reads nodes
    ensures |cs| == |nodes|
  {
    if nodes == [] then [] else [nodes[0].AsChunk()] + ChunksOf(nodes[1..])
  }

  lemma {:induction false} SegmentConcat(a: seq<MemChunk>, b: seq<MemChunk>,
                                         from: MemChunk?, mid: MemChunk?, to: MemChunk?)
    requires Segment(a, from, mid) && Segment(b, mid, to)
    ensures Segment(a + b, from, to) && ChunksOf(a + b) == ChunksOf(a) + ChunksOf(b)
  {
    if a == [] {
      assert a + b == b;
    } else {
      assert (a + b)[1..] == a[1..] + b;
      SegmentConcat(a[1..], b, a[0].next, mid, to);
    }
  }

  lemma Append(nodes: seq<MemChunk>, from: MemChunk?, c: MemChunk)
    requires Segment(nodes, from, c)
    ensures Segment(nodes + [c], from, c.next) && ChunksOf(nodes + [c]) == ChunksOf(nodes) + [c.AsChunk()]
  {
    assert ChunksOf([c]) == [c.AsChunk()];
    SegmentConcat(nodes, [c], from, c, c.next);
  }

  lemma Prepend(c: MemChunk, nodes: seq<MemChunk>)
    requires Segment(nodes, c.next, null)
    ensures Segment([c] + nodes, c, null) && ChunksOf([c] + nodes) == [c.AsChunk()] + ChunksOf(nodes)
  {
    assert ([c] + nodes)[1..] == nodes;
  }

  lemma Uncons(nodes: seq<MemChunk>, c: MemChunk?)
    requires Segment(nodes, c, null)
    ensures c == null <==> nodes == []
    ensures c != null ==> nodes[0] == c && Segment(nodes[1..], c.next, null) && nodes == [c] + nodes[1..]
    ensures c != null ==> ChunksOf(nodes) == [c.AsChunk()] + ChunksOf(nodes[1..])
  {
  }

  lemma Nothing(c: MemChunk?)
    ensures Segment([], c, c) && ChunksOf([]) == []
  {
  }

  /** Chunks that tile a range from `lo` on have increasing addresses. */
  lemma {:induction false} AddressesAbove(nodes: seq<MemChunk>, lo: nat)
    requires Tiles(ChunksOf(nodes), lo)
    ensures forall n | n in nodes :: n.physAddr >= lo
    ensures nodes != [] ==> nodes[0].physAddr == lo && forall n | n in nodes[1..] :: n.physAddr > lo
  {
    if nodes == [] {
    } else {
      assert ChunksOf(nodes)[1..] == ChunksOf(nodes[1..]);
      AddressesAbove(nodes[1..], lo + nodes[0].size);
      assert nodes == [nodes[0]] + nodes[1..];
    }
  }

  lemma {:induction false} AddressesBelow(nodes: seq<MemChunk>, lo: nat)
    requires Tiles(ChunksOf(nodes), lo)
    ensures forall n | n in nodes :: n.physAddr < lo + Total(ChunksOf(nodes))
  {
    if nodes == [] {
    } else {
      assert ChunksOf(nodes)[1..] == ChunksOf(nodes[1..]);
      AddressesBelow(nodes[1..], lo + nodes[0].size);
      assert nodes == [nodes[0]] + nodes[1..];
    }
  }

  // ---------- Allocation ----------

  lemma BestFitStep(cs: seq<Chunk>, c: Chunk, size: int)
    ensures BestFit(cs + [c], size) ==
            if Fits(c, size) && (BestFit(cs, size) == None || c.size < cs[BestFit(cs, size).value].size) then Some(|cs|)
            else BestFit(cs, size)
  {
    assert (cs + [c])[..|cs|] == cs;
  }

  /** After an exact fit nothing later in the list is better. */
  lemma {:induction false} ExactFitStops(cs: seq<Chunk>, rest: seq<Chunk>, size: int)
    requires BestFit(cs, size).Some? && cs[BestFit(cs, size).value].size <= size
    ensures BestFit(cs + rest, size) == BestFit(cs, size)
  {
    if rest == [] {
      assert cs + rest == cs;
    } else {
      var n := |rest| - 1;
      assert cs + rest == (cs + rest[..n]) + [rest[n]];
      BestFitStep(cs + rest[..n], rest[n], size);
      ExactFitStops(cs, rest[..n], size);
    }
  }

  /** The search of `ve_malloc`: the chunk it settles on, and the list before and after it. */
  method FindBest(first: MemChunk, size: int, ghost nodes: seq<MemChunk>)
    returns (best: MemChunk?, ghost pre: seq<MemChunk>, ghost post: seq<MemChunk>)
    requires Segment(nodes, first, null)
    ensures best == null <==> BestFit(ChunksOf(nodes), size) == None
    ensures best != null ==>
              && BestFit(ChunksOf(nodes), size) == Some(|pre|) && nodes == pre + [best] + post
              && Segment(pre, first, best) && Segment(post, best.next, null)
  {
    hide Segment, ChunksOf, BestFit;
    best, pre, post := null, [], [];
    var c: MemChunk? := first;
    ghost var done: seq<MemChunk>, rest: seq<MemChunk> := [], nodes;
    Nothing(first);
    NoBestFit(size);
    while c != null
      invariant nodes == done + rest && Segment(done, first, c) && Segment(rest, c, null)
      invariant best == null <==> BestFit(ChunksOf(done), size) == None
      invariant best != null ==>
                  && BestFit(ChunksOf(done), size) == Some(|pre|) && nodes == pre + [best] + post && |pre| < |done|
                  && Segment(pre, first, best) && Segment(post, best.next, null)
                  && ChunksOf(done)[|pre|] == best.AsChunk()
      decreases |rest|
    {
      Uncons(rest, c);
      Append(done, first, c);
      BestFitStep(ChunksOf(done), c.AsChunk(), size);
      if c.virtAddr == 0 && c.size >= size {
        if best == null || c.size < best.size {
          best, pre, post := c, done, rest[1..];
        }
        if c.size == size {
          SegmentConcat(done + [c], rest[1..], first, c.next, null);
          ExactFitStops(ChunksOf(done + [c]), ChunksOf(rest[1..]), size);
          assert nodes == done + [c] + rest[1..];
          return;
        }
      }
      done, rest := done + [c], rest[1..];
      c := c.next;
    }
    Uncons(rest, c);
    assert nodes == done;
  }

  lemma NoBestFit(size: int)
    ensures BestFit([], size) == None
  {
  }

  lemma PlaceAt(a: seq<Chunk>, c: Chunk, b: seq<Chunk>, size: nat, virt: nat)
    requires size <= c.size
    ensures Place(a + [c] + b, |a|, size, virt) == a + PlaceIn(c, size, virt) + b
  {
    var cs := a + [c] + b;
    assert cs[..|a|] == a && cs[|a| + 1..] == b;
  }

  /** The end of `ve_malloc`: `best` becomes the allocation, and what is left a new chunk after it. */
  method TakeChunk(best: MemChunk, size: nat, mapped: uint32, first: MemChunk,
                   ghost pre: seq<MemChunk>, ghost post: seq<MemChunk>)
    returns (ghost after: seq<MemChunk>)
    requires Segment(pre, first, best) && Segment(post, best.next, null) && best !in pre && best !in post
    requires size <= best.size && best.physAddr + best.size <= WRAP
    modifies best
    ensures Segment(after, first, null) && forall n | n in after :: n == best || n in pre || n in post || fresh(n)
    ensures ChunksOf(after) == old(ChunksOf(pre)) + PlaceIn(old(best.AsChunk()), size, mapped) + old(ChunksOf(post))
  {
    hide Segment, ChunksOf;
    var leftSize := best.size - size;
    ghost var tail := post;
    best.virtAddr := mapped;
    best.size := size;
    if leftSize > 0 {
      var c := new MemChunk(best.physAddr + size, leftSize, 0, best.next);
      best.next := c;
      Prepend(c, post);
      tail := [c] + post;
    }
    Prepend(best, tail);
    SegmentConcat(pre, [best] + tail, first, best, null);
    after := pre + ([best] + tail);
    assert [best.AsChunk()] + ChunksOf(tail) == PlaceIn(old(best.AsChunk()), size, mapped) + old(ChunksOf(post));
  }

  // ---------- Release ----------

  lemma CoalescedAbsorbs(c: Chunk, d: Chunk, rest: seq<Chunk>)
    requires IsFree(c) && IsFree(d)
    ensures Coalesced([c, d] + rest) == Coalesced([c.(size := c.size + d.size)] + rest)
  {
    assert ([c, d] + rest)[2..] == rest;
  }

  lemma CoalescedPasses(c: Chunk, rest: seq<Chunk>)
    requires rest == [] || !IsFree(c) || !IsFree(rest[0])
    ensures Coalesced([c] + rest) == [c] + Coalesced(rest)
  {
    assert ([c] + rest)[1..] == rest;
  }

  lemma TilesAbsorb(c: Chunk, d: Chunk, rest: seq<Chunk>, lo: nat)
    requires Tiles([c, d] + rest, lo)
    ensures Tiles([c.(size := c.size + d.size)] + rest, lo)
  {
    assert ([c, d] + rest)[1..] == [d] + rest && ([d] + rest)[1..] == rest;
    assert ([c.(size := c.size + d.size)] + rest)[1..] == rest;
  }

  /** The inner loop of `ve_free`: c absorbs the free chunks that follow it. `rest` is what comes after c. */
  method AbsorbFree(c: MemChunk, ghost rest: seq<MemChunk>, ghost lo: nat) returns (ghost left: seq<MemChunk>)
    requires Segment(rest, c.next, null) && c !in rest && c.virtAddr == 0
    requires Tiles([c.AsChunk()] + ChunksOf(rest), lo)
    modifies c
    ensures Segment(left, c.next, null) && c !in left && |left| <= |rest| && forall n | n in left :: n in rest
    ensures Tiles([c.AsChunk()] + ChunksOf(left), lo)
    ensures Coalesced([c.AsChunk()] + ChunksOf(left)) == Coalesced(old([c.AsChunk()] + ChunksOf(rest)))
    ensures c.virtAddr == 0 && (left == [] || !IsFree(ChunksOf(left)[0]))
  {
    hide Coalesced, Tiles, Segment, ChunksOf;
    left := rest;
    while c.next != null && c.next.virtAddr == 0
      invariant Segment(left, c.next, null) && c !in left && |left| <= |rest| && c.virtAddr == 0
      invariant forall n | n in left :: n in rest
      invariant Tiles([c.AsChunk()] + ChunksOf(left), lo)
      invariant Coalesced([c.AsChunk()] + ChunksOf(left)) == Coalesced(old([c.AsChunk()] + ChunksOf(rest)))
      decreases |left|
    {
      var n := c.next;
      Uncons(left, n);
      ghost var was, more := c.AsChunk(), ChunksOf(left[1..]);
      assert [was] + ChunksOf(left) == [was, n.AsChunk()] + more;
      CoalescedAbsorbs(was, n.AsChunk(), more);
      TilesAbsorb(was, n.AsChunk(), more, lo);
      left := left[1..];
      c.size := c.size + n.size;
      c.next := n.next;
      assert ChunksOf(left) == more;
    }
    Uncons(left, c.next);
  }

  /** The outer loop of `ve_free`. */
  method Coalesce(first: MemChunk, ghost nodes: seq<MemChunk>, ghost lo: nat) returns (ghost after: seq<MemChunk>)
    requires Segment(nodes, first, null) && Tiles(ChunksOf(nodes), lo)
    modifies nodes
    ensures Segment(after, first, null) && ChunksOf(after) == Coalesced(old(ChunksOf(nodes)))
    ensures forall n | n in after :: n in nodes
  {
    hide Coalesced, Tiles, Segment, ChunksOf;
    ghost var result := Coalesced(ChunksOf(nodes));
    var c: MemChunk? := first;
    ghost var rest: seq<MemChunk>, hi: nat := nodes, lo;
    after := [];
    Nothing(first);
    while c != null
      invariant Segment(after, first, c) && Segment(rest, c, null)
      invariant Tiles(ChunksOf(rest), hi) && forall n | n in after :: n.physAddr < hi
      invariant forall n | n in after :: n in nodes
      invariant forall n | n in rest :: n in nodes
      invariant result == ChunksOf(after) + Coalesced(ChunksOf(rest))
      decreases |rest|
    {
      Uncons(rest, c);
      assert c in rest;
      AddressesAbove(rest, hi);
      ghost var left := rest[1..];
      if c.virtAddr == 0 {
        ghost var done := ChunksOf(after);
        left := AbsorbFree(c, left, hi);
        assert ChunksOf(after) == done;
      }
      Uncons(left, c.next);
      CoalescedPasses(c.AsChunk(), ChunksOf(left));
      TilesTail(c.AsChunk(), ChunksOf(left), hi);
      Append(after, first, c);
      after, rest, hi := after + [c], left, hi + c.size;
      c := c.next;
    }
    Uncons(rest, c);
    Nothing(c);
    CoalescedNone();
  }

  lemma TilesTail(c: Chunk, rest: seq<Chunk>, lo: nat)
    requires Tiles([c] + rest, lo)
    ensures c.phys == lo && c.size > 0 && Tiles(rest, lo + c.size)
  {
    assert ([c] + rest)[1..] == rest;
  }

  lemma CoalescedNone()
    ensures Coalesced([]) == []
  {
  }

  lemma ReleasedStep(c: Chunk, rest: seq<Chunk>, ptr: nat)
    ensures Released([c] + rest, ptr) == if c.virt == ptr then [c.(virt := 0)] + rest else [c] + Released(rest, ptr)
    ensures Allocator.SizeAt([c] + rest, ptr) == if c.virt == ptr then c.size else Allocator.SizeAt(rest, ptr)
  {
    assert ([c] + rest)[1..] == rest;
  }

  /** The search of `ve_free`: the first chunk at `ptr`, if there is one, and the list around it. */
  method FindAt(first: MemChunk, ptr: uint32, ghost nodes: seq<MemChunk>, ghost lo: nat)
    returns (c: MemChunk?, ghost done: seq<MemChunk>, ghost rest: seq<MemChunk>)
    requires Segment(nodes, first, null) && Tiles(ChunksOf(nodes), lo)
    ensures nodes == done + rest && Segment(done, first, c) && Segment(rest, c, null)
    ensures c != null ==> c.virtAddr == ptr && c !in done && c !in rest[1..]
    ensures Released(ChunksOf(nodes), ptr) == ChunksOf(done) + Released(ChunksOf(rest), ptr)
    ensures Allocator.SizeAt(ChunksOf(nodes), ptr) == Allocator.SizeAt(ChunksOf(rest), ptr)
  {
    hide Released, Tiles, Allocator.SizeAt, Segment, ChunksOf;
    ghost var cs, hi: nat := ChunksOf(nodes), lo;
    c, done, rest := first, [], nodes;
    Nothing(first);
    while c != null && c.virtAddr != ptr
      invariant nodes == done + rest && Segment(done, first, c) && Segment(rest, c, null)
      invariant Tiles(ChunksOf(rest), hi) && forall n | n in done :: n.physAddr < hi
      invariant Released(cs, ptr) == ChunksOf(done) + Released(ChunksOf(rest), ptr)
      invariant Allocator.SizeAt(cs, ptr) == Allocator.SizeAt(ChunksOf(rest), ptr)
      decreases |rest|
    {
      Uncons(rest, c);
      ReleasedStep(c.AsChunk(), ChunksOf(rest[1..]), ptr);
      TilesTail(c.AsChunk(), ChunksOf(rest[1..]), hi);
      Append(done, first, c);
      done, rest, hi := done + [c], rest[1..], hi + c.size;
      c := c.next;
    }
    Uncons(rest, c);
    AddressesAbove(rest, hi);
  }

  /** The first loop of `ve_free`; `size` is what it hands to `munmap`, 0 if nothing is found. */
  method Release(first: MemChunk, ptr: uint32, ghost nodes: seq<MemChunk>, ghost lo: nat) returns (size: nat)
    requires Segment(nodes, first, null) && Tiles(ChunksOf(nodes), lo)
    modifies nodes
    ensures Segment(nodes, first, null) && ChunksOf(nodes) == Released(old(ChunksOf(nodes)), ptr)
    ensures size == Allocator.SizeAt(old(ChunksOf(nodes)), ptr)
  {
    hide Released, Tiles, Allocator.SizeAt, Segment, ChunksOf;
    var c, done, rest := FindAt(first, ptr, nodes, lo);
    Uncons(rest, c);
    Nothing(c);
    if c == null {
      NothingReleased(ptr);
      assert nodes == done;
      return 0;
    }
    ReleasedStep(c.AsChunk(), ChunksOf(rest[1..]), ptr);
    assert nodes[|done|] == c;
    size := MarkFree(c, first, done, rest[1..]);
    assert nodes == done + ([c] + rest[1..]);
  }

  /** The chunk found by `ve_free` is marked free. */
  method MarkFree(c: MemChunk, first: MemChunk, ghost pre: seq<MemChunk>, ghost post: seq<MemChunk>) returns (size: nat)
    requires Segment(pre, first, c) && Segment(post, c.next, null) && c !in pre && c !in post
    modifies c
    ensures Segment(pre + ([c] + post), first, null) && size == c.size
    ensures ChunksOf(pre + ([c] + post)) == old(ChunksOf(pre)) + ([old(c.AsChunk()).(virt := 0)] + old(ChunksOf(post)))
    ensures size == old(c.size)
  {
    hide Segment, ChunksOf;
    size := c.size;
    c.virtAddr := 0;
    Prepend(c, post);
    SegmentConcat(pre, [c] + post, first, c, null);
  }

  lemma NothingReleased(ptr: nat)
    ensures Released([], ptr) == [] && Allocator.SizeAt([], ptr) == 0
  {
  }

  // ---------- The allocator ----------

  class Memory {
    var isOpen: bool
    const firstMemchunk: MemChunk
    ghost var nodes: seq<MemChunk>
    ghost var mmu: map<nat, nat>
    ghost const base: nat
    ghost const total: nat

    ghost function View(): Allocator.Memory
      reads this, nodes
    {
      Allocator.Memory(ChunksOf(nodes), mmu)
    }

    ghost predicate Valid()
      reads this, nodes
    {
      Segment(nodes, firstMemchunk, null) && Allocator.Valid(View(), base, total)
    }

    /** `ve_open`: one free chunk over the range the kernel reserved. */
    constructor VeOpen(reservedMem: uint32, reservedMemSize: nat)
      requires 0 < reservedMemSize <= INT_MAX && reservedMem + reservedMemSize <= WRAP
      ensures Valid() && isOpen && fresh(nodes)
      ensures View() == Allocator.InitialMemory(reservedMem, reservedMemSize)
      ensures View() == Allocator.Memory([Chunk(reservedMem, reservedMemSize, 0)], map[])
      ensures base == reservedMem && total == reservedMemSize
    {
      isOpen := true;
      var first := new MemChunk(reservedMem, reservedMemSize, 0, null);
      firstMemchunk := first;
      nodes := [first];
      mmu := map[];
      base, total := reservedMem, reservedMemSize;
      new;
      Allocator.InitialIsValid(reservedMem, reservedMemSize);
      assert ChunksOf(nodes) == [Chunk(reservedMem, reservedMemSize, 0)];
    }

    /** What is left of `ve_malloc` once the chunk is chosen and mapped. */
    method Install(best: MemChunk, size: nat, mapped: uint32, ghost pre: seq<MemChunk>, ghost post: seq<MemChunk>)
      requires Segment(pre, firstMemchunk, best) && Segment(post, best.next, null) && best !in pre && best !in post
      requires nodes == pre + [best] + post && ChunksOf(nodes) == ChunksOf(pre) + [best.AsChunk()] + ChunksOf(post)
      requires size <= best.size && best.physAddr + best.size <= WRAP
      modifies this`nodes, this`mmu, best
      ensures Segment(nodes, firstMemchunk, null) && forall n | n in nodes :: n in old(nodes) || fresh(n)
      ensures ChunksOf(nodes) == Place(old(ChunksOf(nodes)), |pre|, size, mapped)
      ensures mmu == old(mmu) + Allocator.Mapping(Chunk(best.physAddr, size, mapped))
    {
      hide Place, Allocator.Mapping, Segment, ChunksOf, PlaceIn;
      PlaceAt(ChunksOf(pre), best.AsChunk(), ChunksOf(post), size, mapped);
      ghost var after := TakeChunk(best, size, mapped, firstMemchunk, pre, post);
      nodes, mmu := after, mmu + Allocator.Mapping(Chunk(best.physAddr, size, mapped));
    }

    /** `ve_malloc`; `mapped` is what `mmap` returns if it is called, 0 for a failure. */
    method VeMalloc(size: int32, mapped: uint32) returns (addr: uint32)
      requires Valid()
      requires Allocator.MmapMayReturn(View(), size, mapped)
      modifies this, nodes
      ensures Valid() && isOpen == old(isOpen) && forall n | n in nodes :: n in old(nodes) || fresh(n)
      ensures !isOpen ==> addr == 0 && View() == old(View())
      ensures isOpen ==> (View(), addr as nat) == Allocator.Malloc(old(View()), size, mapped)
    {
      if !isOpen {
        return 0;
      }
      hide Allocator.Valid, Place, Allocator.Mapping, Allocator.Malloc, Allocator.MmapMayReturn;
      hide Segment, ChunksOf, BestFit, PageRounded;
      var best, pre, post := FindBest(firstMemchunk, PageRounded(size), nodes);
      MallocIs(View(), size, mapped);
      Allocator.MallocAddsOne(View(), base, total, size, mapped);
      if best == null || mapped == 0 {
        return 0;
      }
      SplitTiles(nodes, pre, best, post, firstMemchunk, View(), base, total);
      assert nodes[|pre|] == best;
      Install(best, PageRounded(size), mapped, pre, post);
      return mapped;
    }

    /** The two loops of `ve_free`, and its `munmap` between them. */
    method ReleaseAndCoalesce(ptr: uint32)
      requires ptr != 0 && Segment(nodes, firstMemchunk, null) && Tiles(ChunksOf(nodes), base)
      modifies this`nodes, this`mmu, nodes
      ensures Segment(nodes, firstMemchunk, null) && forall n | n in nodes :: n in old(nodes)
      ensures View() == Allocator.Free(old(View()), ptr)
    {
      hide Allocator.Range, Tiles, Segment, ChunksOf, Coalesced, Released, Allocator.Free, Allocator.SizeAt, Total;
      FreeIs(View(), ptr);
      ReleasedTiles(ChunksOf(nodes), ptr, base);
      var size := Release(firstMemchunk, ptr, nodes, base);
      ghost var after := Coalesce(firstMemchunk, nodes, base);
      nodes, mmu := after, mmu - Allocator.Range(Chunk(0, size, ptr));
    }

    /** `ve_free`. */
    method VeFree(ptr: uint32)
      requires Valid()
      modifies this, nodes
      ensures Valid() && isOpen == old(isOpen) && forall n | n in nodes :: n in old(nodes)
      ensures View() == if isOpen then Allocator.Free(old(View()), ptr) else old(View())
    {
      if !isOpen || ptr == 0 {
        return;
      }
      hide Allocator.Valid, Tiles, Segment, ChunksOf, Allocator.Free;
      ValidTiles(View(), base, total);
      Allocator.FreeRemovesOne(View(), base, total, ptr);
      ReleaseAndCoalesce(ptr);
    }

    /** `ve_virt2phys`: the physical address the page tables give, 0 for an address never mapped. */
    method VeVirt2Phys(ptr: uint32) returns (addr: nat)
      requires Valid()
      ensures addr == if isOpen && ptr in mmu then mmu[ptr] else 0
    {
      if !isOpen {
        return 0;
      }
      Allocator.TranslatesLikeMmu(View(), base, total, ptr);
      ValidTiles(View(), base, total);
      hide Allocator.Valid, Tiles, Segment, ChunksOf;
      addr := 0;
      var c: MemChunk? := firstMemchunk;
      ghost var rest: seq<MemChunk>, lo: nat := nodes, base;
      while c != null
        invariant Segment(rest, c, null) && Tiles(ChunksOf(rest), lo)
        invariant addr == 0 && Translated(ChunksOf(nodes), ptr) == Translated(ChunksOf(rest), ptr)
        decreases |rest|
      {
        Uncons(rest, c);
        assert ChunksOf(rest)[1..] == ChunksOf(rest[1..]);
        TilesTail(c.AsChunk(), ChunksOf(rest[1..]), lo);
        if c.virtAddr != 0 {
          if c.virtAddr == ptr {
            return c.physAddr;
          } else if ptr > c.virtAddr && ptr < c.virtAddr + c.size {
            return c.physAddr + (ptr - c.virtAddr);
          }
        }
        rest, lo := rest[1..], lo + c.size;
        c := c.next;
      }
      Uncons(rest, c);
      Nothing(c);
    }
  }

  lemma MallocIs(m: Allocator.Memory, size: int32, mapped: nat)
    requires Allocator.MmapMayReturn(m, size, mapped)
    ensures mapped == 0 || BestFit(m.chunks, PageRounded(size)) == None ==> Allocator.Malloc(m, size, mapped) == (m, 0)
    ensures mapped != 0 ==> 0 < PageRounded(size)
    ensures mapped != 0 && BestFit(m.chunks, PageRounded(size)).Some? ==>
              var k := BestFit(m.chunks, PageRounded(size)).value;
              && PageRounded(size) <= m.chunks[k].size
              && Allocator.Malloc(m, size, mapped) ==
                 (Allocator.Memory(Place(m.chunks, k, PageRounded(size), mapped),
                                   m.mmu + Allocator.Mapping(Chunk(m.chunks[k].phys, PageRounded(size), mapped))),
                  mapped)
  {
    BestFitIsBest(m.chunks, PageRounded(size));
  }

  lemma FreeIs(m: Allocator.Memory, ptr: nat)
    requires ptr != 0
    ensures Allocator.Free(m, ptr) ==
            Allocator.Memory(Coalesced(Released(m.chunks, ptr)),
                             m.mmu - Allocator.Range(Chunk(0, Allocator.SizeAt(m.chunks, ptr), ptr)))
  {
  }

  lemma ValidTiles(m: Allocator.Memory, base: nat, total: nat)
    requires Allocator.Valid(m, base, total)
    ensures Tiles(m.chunks, base) && base + Total(m.chunks) <= WRAP
  {
  }

  /** The chunk in the middle of a valid list stands nowhere else in it, and ends in 32 bits. */
  lemma SplitTiles(nodes: seq<MemChunk>, pre: seq<MemChunk>, c: MemChunk, post: seq<MemChunk>, first: MemChunk,
                   m: Allocator.Memory, base: nat, total: nat)
    requires Allocator.Valid(m, base, total) && m.chunks == ChunksOf(nodes) && nodes == pre + [c] + post
    requires Segment(pre, first, c) && Segment(post, c.next, null)
    ensures c !in pre && c !in post && c.physAddr + c.size <= WRAP
    ensures ChunksOf(nodes) == ChunksOf(pre) + [c.AsChunk()] + ChunksOf(post)
  {
    hide Tiles, Segment, ChunksOf;
    assert nodes == pre + ([c] + post);
    Prepend(c, post);
    SegmentConcat(pre, [c] + post, first, c, null);
    TilesConcat(ChunksOf(pre), ChunksOf([c] + post), base);
    TotalOfConcat(ChunksOf(pre), ChunksOf([c] + post));
    TotalOfConcat([c.AsChunk()], ChunksOf(post));
    AddressesBelow(pre, base);
    AddressesAbove([c] + post, base + Total(ChunksOf(pre)));
    assert ([c] + post)[1..] == post;
  }
}
