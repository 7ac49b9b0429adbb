/** Whole runs of the allocator of src/ve.c: the chunk list together with the page tables its
    `mmap` and `munmap` calls fill and clear, kept here byte by byte as a map from virtual to
    physical addresses. The outcome of each `mmap` is an input. */
module Allocator {
  import opened CTypes
  import opened ChunkList

  datatype Memory = Memory(chunks: seq<Chunk>, mmu: map<nat, nat>)

  function InitialMemory(base: nat, total: nat): Memory {
    Memory([Chunk(base, total, 0)], map[])
  }

  predicate Covers(c: Chunk, x: nat) {
    c.virt <= x < c.virt + c.size
  }

  /** The page table entries `mmap` makes for a chunk, byte by byte. */
  function Mapping(c: Chunk): map<nat, nat> {
    map x: nat | c.virt <= x < c.virt + c.size && Covers(c, x) :: c.phys + (x - c.virt)
  }

  /** The addresses `munmap` clears. */
  function Range(c: Chunk): set<nat> {
    set x: nat | c.virt <= x < c.virt + c.size && Covers(c, x)
  }

  /** What `mmap` may return for a request of `size` bytes: 0 for a failure, which is certain when
      the rounded size is not positive, or the start of an unused range. */
  predicate MmapMayReturn(m: Memory, size: int32, mapped: nat) {
    mapped != 0 ==>
      && PageRounded(size) > 0
      && mapped + PageRounded(size) < WRAP
      && forall c | c in Live(m.chunks) :: Apart(c, Chunk(0, PageRounded(size), mapped))
  }

  /** `ve_malloc` on an open device: the new memory, and the returned pointer. */
  function Malloc(m: Memory, size: int32, mapped: nat): (Memory, nat)
    requires MmapMayReturn(m, size, mapped)
  {
    match BestFit(m.chunks, PageRounded(size))
    case None => (m, 0)
    case Some(k) =>
      if mapped == 0 then (m, 0)
      else
        BestFitIsBest(m.chunks, PageRounded(size));
        (Memory(Place(m.chunks, k, PageRounded(size), mapped),
                m.mmu + Mapping(Chunk(m.chunks[k].phys, PageRounded(size), mapped))), mapped)
  }

  /** The size `ve_free` hands to `munmap`: that of the first chunk at `ptr`. */
  function SizeAt(cs: seq<Chunk>, ptr: nat): nat {
    if cs == [] then 0 else if cs[0].virt == ptr then cs[0].size else SizeAt(cs[1..], ptr)
  }

  /** `ve_free` on an open device. */
  function Free(m: Memory, ptr: nat): Memory {
    if ptr == 0 then m
    else Memory(Coalesced(Released(m.chunks, ptr)),
                m.mmu - Range(Chunk(0, SizeAt(m.chunks, ptr), ptr)))
  }

  /** The page tables map exactly the bytes of the live allocations, each to its chunk's bytes. */
  ghost predicate Mirrors(mmu: map<nat, nat>, live: set<Chunk>) {
    && (forall c, x: nat | c in live && Covers(c, x) :: x in mmu && mmu[x] == c.phys + (x - c.virt))
    && (forall x | x in mmu :: exists c :: c in live && Covers(c, x))
  }

  ghost predicate Valid(m: Memory, base: nat, total: nat) {
    WellFormed(m.chunks, base, total) && Mirrors(m.mmu, Live(m.chunks))
  }

  // ---------- Each operation ----------

  /** The allocation a successful `ve_malloc` makes: the head of a smallest sufficient chunk. */
  function Allocated(m: Memory, size: int32, p: nat): Chunk
    requires PageRounded(size) > 0 && BestFit(m.chunks, PageRounded(size)).Some?
  {
    Chunk(m.chunks[BestFit(m.chunks, PageRounded(size)).value].phys, PageRounded(size), p)
  }

  lemma PlaceKeepsWellFormed(cs: seq<Chunk>, base: nat, total: nat, k: nat, size: nat, virt: nat)
    requires WellFormed(cs, base, total) && k < |cs| && Fits(cs[k], size) && size > 0 && virt != 0
    requires virt + size < WRAP && forall c | c in Live(cs) :: Apart(c, Chunk(0, size, virt))
    ensures WellFormed(Place(cs, k, size, virt), base, total)
    ensures Live(Place(cs, k, size, virt)) == Live(cs) + {Chunk(cs[k].phys, size, virt)}
  {
    PlaceTiles(cs, k, size, virt, base);
    PlaceSeparates(cs, k, size, virt);
    PlaceLive(cs, k, size, virt);
  }

  /** `ve_malloc` either changes nothing and returns null, or adds exactly one allocation. */
  lemma MallocAddsOne(m: Memory, base: nat, total: nat, size: int32, mapped: nat)
    requires Valid(m, base, total) && MmapMayReturn(m, size, mapped)
    ensures var (t, p) := Malloc(m, size, mapped);
            && Valid(t, base, total)
            && (p == 0 <==> mapped == 0 || BestFit(m.chunks, PageRounded(size)) == None)
            && (p == 0 ==> t == m)
            && (p != 0 ==> p == mapped && Live(t.chunks) == Live(m.chunks) + {Allocated(m, size, p)})
  {
    hide WellFormed, Mirrors;
    var n := PageRounded(size);
    BestFitIsBest(m.chunks, n);
    if mapped != 0 && BestFit(m.chunks, n).Some? {
      var k := BestFit(m.chunks, n).value;
      PlaceKeepsWellFormed(m.chunks, base, total, k, n, mapped);
      MirrorsMapped(m.mmu, Live(m.chunks), Chunk(m.chunks[k].phys, n, mapped));
    }
  }

  /** A successful `ve_malloc` in full: the first of the smallest free chunks with room for the
      request in whole pages becomes the allocation, what is left of it a free chunk behind it, and
      the bytes at the returned address are those at its start. */
  lemma MallocResult(m: Memory, size: int32, mapped: nat) returns (k: nat)
    requires MmapMayReturn(m, size, mapped) && Malloc(m, size, mapped).1 != 0
    ensures var (t, p) := Malloc(m, size, mapped);
            var cs, n := m.chunks, (size + 4095) / 4096 * 4096;
            && p == mapped && 0 < n && k < |cs| && cs[k].virt == 0 && n <= cs[k].size
            && (forall j | 0 <= j < |cs| && cs[j].virt == 0 && n <= cs[j].size ::
                  cs[k].size <= cs[j].size && (j < k ==> cs[k].size < cs[j].size))
            && t.chunks == cs[..k] + [Chunk(cs[k].phys, n, p)]
                           + (if n < cs[k].size then [Chunk(cs[k].phys + n, cs[k].size - n, 0)] else []) + cs[k + 1..]
            && (forall x: nat | p <= x < p + n :: x in t.mmu && t.mmu[x] == cs[k].phys + (x - p))
            && (forall x: nat | x < p || p + n <= x :: x in t.mmu <==> x in m.mmu)
            && (forall x: nat | (x < p || p + n <= x) && x in m.mmu :: t.mmu[x] == m.mmu[x])
  {
    WholePages(size);
    hide PageRounded, Mapping;
    var n := PageRounded(size);
    BestFitIsBest(m.chunks, n);
    k := BestFit(m.chunks, n).value;
    MappingIs(m.mmu, Chunk(m.chunks[k].phys, n, mapped));
  }

  lemma WholePages(size: int32)
    ensures PageRounded(size) > 0 ==> PageRounded(size) == (size + 4095) / 4096 * 4096
  {
    PageRoundedIs(size);
    if size < 0 {
      assert PageRounded(size) <= 0;
    }
  }

  /** Mapping a chunk sets its own addresses and no others. */
  lemma MappingIs(mmu: map<nat, nat>, d: Chunk)
    ensures var t := mmu + Mapping(d);
            && (forall x: nat | d.virt <= x < d.virt + d.size :: x in t && t[x] == d.phys + (x - d.virt))
            && (forall x: nat | x < d.virt || d.virt + d.size <= x :: x in t <==> x in mmu)
            && (forall x: nat | (x < d.virt || d.virt + d.size <= x) && x in mmu :: t[x] == mmu[x])
  {
    var t := mmu + Mapping(d);
    forall x: nat | d.virt <= x < d.virt + d.size ensures x in t && t[x] == d.phys + (x - d.virt) {
      assert Covers(d, x);
      assert x in Mapping(d);
    }
  }

  lemma MirrorsMapped(mmu: map<nat, nat>, live: set<Chunk>, d: Chunk)
    requires Mirrors(mmu, live) && forall c | c in live :: Apart(c, d)
    ensures Mirrors(mmu + Mapping(d), live + {d})
  {
    var next := mmu + Mapping(d);
    forall x | x in next ensures exists c :: c in live + {d} && Covers(c, x) {
      if Covers(d, x) {
      } else {
        var c :| c in live && Covers(c, x);
        assert c in live + {d};
      }
    }
  }

  lemma MirrorsUnmapped(mmu: map<nat, nat>, live: set<Chunk>, d: Chunk)
    requires Mirrors(mmu, live) && VirtuallyApart(live) && d in live
    ensures Mirrors(mmu - Range(d), live - {d})
  {
    hide Range;
    var next := mmu - Range(d);
    forall c, x: nat | c in live - {d} && Covers(c, x) ensures x in next && next[x] == c.phys + (x - c.virt) {
      assert Apart(c, d);
      InRange(d, x);
    }
    forall x | x in next ensures exists c :: c in live - {d} && Covers(c, x) {
      InRange(d, x);
      var c :| c in live && Covers(c, x);
      assert c in live - {d};
    }
  }

  lemma InRange(c: Chunk, x: nat)
    ensures x in Range(c) <==> Covers(c, x)
  {
  }

  lemma {:induction false} SizeOfLive(cs: seq<Chunk>, lo: nat, c: Chunk)
    requires Tiles(cs, lo) && VirtuallyApart(Live(cs)) && c in Live(cs)
    ensures SizeAt(cs, c.virt) == c.size
  {
    LiveOfTail(cs, lo);
    var i :| 0 <= i < |cs| && cs[i] == c;
    TileAt(cs, lo, i);
    TileAt(cs, lo, 0);
    if cs[0].virt == c.virt {
      assert cs[0] in Live(cs);
      assert cs[0] == c;
    } else {
      SizeOfLive(cs[1..], lo + cs[0].size, c);
    }
  }

  lemma FreeAllocation(m: Memory, base: nat, total: nat, c: Chunk)
    requires Valid(m, base, total) && c in Live(m.chunks)
    ensures Valid(Free(m, c.virt), base, total)
    ensures Live(Free(m, c.virt).chunks) == Live(m.chunks) - {c}
  {
    var cs, rs := m.chunks, Released(m.chunks, c.virt);
    ReleasedTiles(cs, c.virt, base);
    ReleasedLive(cs, c.virt, base, c);
    CoalescedTiles(rs, base);
    CoalescedSeparates(rs);
    CoalescedLive(rs);
    SizeOfLive(cs, base, c);
    MirrorsUnmapped(m.mmu, Live(cs), c);
    SameRange(c);
  }

  lemma SameRange(c: Chunk)
    ensures Range(Chunk(0, c.size, c.virt)) == Range(c)
  {
  }

  /** Freeing the null pointer, or any other pointer that is no allocation's start, does nothing. */
  lemma FreeUnknown(m: Memory, base: nat, total: nat, ptr: nat)
    requires Valid(m, base, total) && forall c | c in Live(m.chunks) :: c.virt != ptr
    ensures Free(m, ptr) == m
  {
    if ptr != 0 {
      assert forall c | c in m.chunks :: c.virt != ptr;
      ReleasedUnknown(m.chunks, ptr);
      CoalescedTiles(m.chunks, base);
      CoalescedSeparates(m.chunks);
      CoalescedLive(m.chunks);
      Canonical(Coalesced(m.chunks), m.chunks, base);
      NoSizeAt(m.chunks, ptr);
      EmptyRange(m.mmu, ptr);
    }
  }

  /** `ve_free` of an allocation takes exactly it away; of anything else, nothing. */
  lemma FreeRemovesOne(m: Memory, base: nat, total: nat, ptr: nat)
    requires Valid(m, base, total)
    ensures Valid(Free(m, ptr), base, total)
    ensures Live(Free(m, ptr).chunks) == set c | c in Live(m.chunks) && c.virt != ptr
    ensures (forall c | c in Live(m.chunks) :: c.virt != ptr) ==> Free(m, ptr) == m
  {
    hide Free, Mirrors;
    if c :| c in Live(m.chunks) && c.virt == ptr {
      FreeAllocation(m, base, total, c);
      OnlyOneAt(m.chunks, base, c);
    } else {
      FreeUnknown(m, base, total, ptr);
    }
  }

  lemma {:induction false} NoSizeAt(cs: seq<Chunk>, ptr: nat)
    requires forall c | c in cs :: c.virt != ptr
    ensures SizeAt(cs, ptr) == 0
  {
    if cs == [] {
    } else {
      assert forall c | c in cs[1..] :: c in cs;
      NoSizeAt(cs[1..], ptr);
    }
  }

  lemma EmptyRange(mmu: map<nat, nat>, ptr: nat)
    ensures mmu - Range(Chunk(0, 0, ptr)) == mmu
  {
  }

  lemma OnlyOneAt(cs: seq<Chunk>, lo: nat, c: Chunk)
    requires Tiles(cs, lo) && VirtuallyApart(Live(cs)) && c in Live(cs)
    ensures Live(cs) - {c} == set d | d in Live(cs) && d.virt != c.virt
  {
    forall d | d in Live(cs) && d.virt == c.virt ensures d == c {
      var i :| 0 <= i < |cs| && cs[i] == c;
      TileAt(cs, lo, i);
      var j :| 0 <= j < |cs| && cs[j] == d;
      TileAt(cs, lo, j);
    }
  }

  /** Freeing what was just allocated restores the very same chunks and page tables, whether or
      not a chunk was split. */
  lemma FreeUndoesMalloc(m: Memory, base: nat, total: nat, size: int32, mapped: nat)
    requires Valid(m, base, total) && MmapMayReturn(m, size, mapped)
    ensures var (t, p) := Malloc(m, size, mapped); Free(t, p) == m
  {
    hide Free, Malloc, Mirrors;
    var (t, p) := Malloc(m, size, mapped);
    MallocAddsOne(m, base, total, size, mapped);
    NoneAt(m, base, size, mapped);
    FreeRemovesOne(t, base, total, p);
    assert Live(Free(t, p).chunks) == Live(m.chunks);
    Canonical(Free(t, p).chunks, m.chunks, base);
    SameMirror(Free(t, p).mmu, m.mmu, Live(m.chunks));
  }

  /** No allocation starts where `mmap` found an unused range. */
  lemma NoneAt(m: Memory, base: nat, size: int32, mapped: nat)
    requires Tiles(m.chunks, base) && MmapMayReturn(m, size, mapped)
    ensures forall c | c in Live(m.chunks) :: c.virt != mapped
  {
    forall c | c in Live(m.chunks) ensures c.virt != mapped {
      var i :| 0 <= i < |m.chunks| && m.chunks[i] == c;
      TileAt(m.chunks, base, i);
    }
  }

  lemma SameMirror(a: map<nat, nat>, b: map<nat, nat>, live: set<Chunk>)
    requires Mirrors(a, live) && Mirrors(b, live)
    ensures a == b
  {
    forall x | x in a ensures x in b && a[x] == b[x] {
      var c :| c in live && Covers(c, x);
    }
    forall x | x in b ensures x in a {
      var c :| c in live && Covers(c, x);
    }
    assert a.Keys == b.Keys;
  }

  // ---------- Completeness ----------

  /** A byte of the reserved range that no allocation owns. */
  ghost predicate FreeByte(live: set<Chunk>, base: nat, total: nat, a: nat) {
    base <= a < base + total && forall c | c in live :: !(c.phys <= a < c.phys + c.size)
  }

  ghost predicate FreeRun(live: set<Chunk>, base: nat, total: nat, a: nat, n: int) {
    forall b: nat | a <= b < a + n :: FreeByte(live, base, total, b)
  }

  /** Every byte of the range is in one of the chunks. */
  lemma {:induction false} ByteIsInAChunk(cs: seq<Chunk>, lo: nat, a: nat) returns (i: nat)
    requires Tiles(cs, lo) && lo <= a < lo + Total(cs)
    ensures i < |cs| && cs[i].phys <= a < cs[i].phys + cs[i].size
  {
    if a < lo + cs[0].size {
      i := 0;
    } else {
      i := ByteIsInAChunk(cs[1..], lo + cs[0].size, a);
      i := i + 1;
    }
  }

  lemma FreeChunkIsFreeRun(cs: seq<Chunk>, lo: nat, i: nat, n: int)
    requires Tiles(cs, lo) && i < |cs| && Fits(cs[i], n)
    ensures FreeRun(Live(cs), lo, Total(cs), cs[i].phys, n)
  {
    TileAt(cs, lo, i);
    forall b: nat | cs[i].phys <= b < cs[i].phys + n ensures FreeByte(Live(cs), lo, Total(cs), b) {
      forall c | c in Live(cs) ensures !(c.phys <= b < c.phys + c.size) {
        var j :| 0 <= j < |cs| && cs[j] == c;
        if i < j {
          TilesAreOrdered(cs, lo, i, j);
        } else if j < i {
          TilesAreOrdered(cs, lo, j, i);
        }
      }
    }
  }

  /** A run of free bytes never leaves the chunk it starts in: the next one is not free. */
  lemma FreeRunIsInOneChunk(cs: seq<Chunk>, lo: nat, a: nat, n: nat)
    requires Tiles(cs, lo) && NoFreeNeighbours(cs) && n > 0 && FreeRun(Live(cs), lo, Total(cs), a, n)
    ensures exists i :: 0 <= i < |cs| && Fits(cs[i], n)
  {
    assert FreeByte(Live(cs), lo, Total(cs), a);
    var i := ByteIsInAChunk(cs, lo, a);
    TileAt(cs, lo, i);
    assert cs[i] in cs;
    var end := cs[i].phys + cs[i].size;
    if end < a + n {
      assert FreeByte(Live(cs), lo, Total(cs), end);
      assert cs[i + 1] in cs;
      TileAt(cs, lo, i + 1);
    }
    assert Fits(cs[i], n);
  }

  ghost predicate HasFreeRun(m: Memory, base: nat, total: nat, n: int) {
    exists a: nat :: FreeRun(Live(m.chunks), base, total, a, n)
  }

  /** On an open device, with an `mmap` that succeeds, `ve_malloc` fails exactly when the reserved
      range holds no run of free bytes as long as the rounded request. */
  lemma MallocFailsIff(m: Memory, base: nat, total: nat, size: int32, mapped: nat)
    requires Valid(m, base, total) && MmapMayReturn(m, size, mapped) && mapped != 0
    ensures Malloc(m, size, mapped).1 == 0 <==> !HasFreeRun(m, base, total, PageRounded(size))
  {
    var cs, n := m.chunks, PageRounded(size);
    BestFitIsBest(cs, n);
    if BestFit(cs, n).Some? {
      FreeChunkIsFreeRun(cs, base, BestFit(cs, n).value, n);
    }
    if HasFreeRun(m, base, total, n) {
      var a: nat :| FreeRun(Live(cs), base, total, a, n);
      FreeRunIsInOneChunk(cs, base, a, n);
    }
  }

  // ---------- Translation ----------

  /** `ve_virt2phys` agrees with the page tables on every address, 0 standing for no mapping. */
  lemma TranslatesLikeMmu(m: Memory, base: nat, total: nat, x: nat)
    requires Valid(m, base, total)
    ensures Translated(m.chunks, x) == if x in m.mmu then m.mmu[x] else 0
  {
    TranslatedIs(m.chunks, x);
    if x in m.mmu {
      var c :| c in Live(m.chunks) && Covers(c, x);
    }
  }

  lemma {:induction false} TranslatedIs(cs: seq<Chunk>, x: nat)
    ensures (exists c :: c in Live(cs) && Covers(c, x) && Translated(cs, x) == c.phys + (x - c.virt))
         || (Translated(cs, x) == 0 && forall c | c in Live(cs) :: !Covers(c, x))
  {
    if cs == [] {
    } else {
      if !IsFree(cs[0]) && Covers(cs[0], x) {
        assert cs[0] in Live(cs);
      } else {
        TranslatedIs(cs[1..], x);
        assert cs == [cs[0]] + cs[1..];
        LiveOfConcat([cs[0]], cs[1..]);
      }
    }
  }

  /** Inside an allocation, translation is the physical base plus the offset. */
  lemma TranslatesOffsets(m: Memory, base: nat, total: nat, c: Chunk, o: nat)
    requires Valid(m, base, total) && c in Live(m.chunks) && o < c.size
    ensures Translated(m.chunks, c.virt + o) == c.phys + o
    ensures base <= c.phys + o < base + total
  {
    assert Covers(c, c.virt + o);
    TranslatesLikeMmu(m, base, total, c.virt + o);
    var i :| 0 <= i < |m.chunks| && m.chunks[i] == c;
    TileAt(m.chunks, base, i);
  }

  /** No two live bytes share a physical address. */
  lemma TranslationIsInjective(m: Memory, base: nat, total: nat, x: nat, y: nat)
    requires Valid(m, base, total) && x in m.mmu && y in m.mmu && x != y
    ensures Translated(m.chunks, x) != Translated(m.chunks, y)
  {
    var cs := m.chunks;
    TranslatesLikeMmu(m, base, total, x);
    TranslatesLikeMmu(m, base, total, y);
    var c :| c in Live(cs) && Covers(c, x);
    var d :| d in Live(cs) && Covers(d, y);
    var i :| 0 <= i < |cs| && cs[i] == c;
    var j :| 0 <= j < |cs| && cs[j] == d;
    if i < j {
      TilesAreOrdered(cs, base, i, j);
    } else if j < i {
      TilesAreOrdered(cs, base, j, i);
    }
  }

  // ---------- Whole runs ----------

  datatype Op = CallMalloc(size: int32, mapped: nat) | CallFree(ptr: nat)

  predicate Possible(m: Memory, op: Op) {
    op.CallMalloc? ==> MmapMayReturn(m, op.size, op.mapped)
  }

  function Do(m: Memory, op: Op): Memory
    requires Possible(m, op)
  {
    match op
    case CallMalloc(size, mapped) => Malloc(m, size, mapped).0
    case CallFree(ptr) => Free(m, ptr)
  }

  ghost predicate IsRun(base: nat, total: nat, run: seq<Memory>, ops: seq<Op>) {
    && |run| == |ops| + 1
    && run[0] == InitialMemory(base, total)
    && forall i | 0 <= i < |ops| :: Possible(run[i], ops[i]) && run[i + 1] == Do(run[i], ops[i])
  }

  lemma InitialIsValid(base: nat, total: nat)
    requires 0 < total <= INT_MAX && base + total <= WRAP
    ensures Valid(InitialMemory(base, total), base, total)
  {
    var cs := InitialMemory(base, total).chunks;
    assert Live(cs) == {};
    assert cs[1..] == [];
    assert Tiles(cs[1..], base + total) && Total(cs[1..]) == 0;
    assert Total(cs) == total;
    assert Mirrors(map[], {});
  }

  /** After any sequence of allocations and frees the chunks tile the reserved range, no two free
      ones touch, and the page tables mirror the allocations. */
  lemma {:induction false} RunStaysValid(base: nat, total: nat, run: seq<Memory>, ops: seq<Op>, i: nat)
    requires 0 < total <= INT_MAX && base + total <= WRAP
    requires IsRun(base, total, run, ops) && i < |run|
    ensures Valid(run[i], base, total)
  {
    if i == 0 {
      InitialIsValid(base, total);
    } else {
      RunStaysValid(base, total, run, ops, i - 1);
      OpKeepsValid(run[i - 1], base, total, ops[i - 1]);
    }
  }

  lemma OpKeepsValid(m: Memory, base: nat, total: nat, op: Op)
    requires Valid(m, base, total) && Possible(m, op)
    ensures Valid(Do(m, op), base, total)
  {
    hide Valid;
    match op {
      case CallMalloc(size, mapped) => MallocAddsOne(m, base, total, size, mapped);
      case CallFree(ptr) => FreeRemovesOne(m, base, total, ptr);
    }
  }

  function FreeEach(m: Memory, ptrs: seq<nat>): Memory
    decreases |ptrs|
  {
    if ptrs == [] then m else FreeEach(Free(m, ptrs[0]), ptrs[1..])
  }

  /** Freeing every allocation, in any order and with any other pointers in between, leaves the
      one initial chunk and no mapping. */
  lemma {:induction false} FreeingAllRestores(m: Memory, base: nat, total: nat, ptrs: seq<nat>)
    requires Valid(m, base, total) && forall c | c in Live(m.chunks) :: c.virt in ptrs
    ensures FreeEach(m, ptrs) == InitialMemory(base, total)
    decreases |ptrs|
  {
    if ptrs == [] {
      assert Live(m.chunks) == {} == Live([Chunk(base, total, 0)]);
      Canonical(m.chunks, [Chunk(base, total, 0)], base);
      SameMirror(m.mmu, map[], {});
    } else {
      FreeRemovesOne(m, base, total, ptrs[0]);
      assert ptrs == [ptrs[0]] + ptrs[1..];
      FreeingAllRestores(Free(m, ptrs[0]), base, total, ptrs[1..]);
    }
  }
}
