/** The memory allocator of src/ve.c on values: a list of chunks that tiles the reserved physical
    range, best-fit allocation with a split, and release with coalescing. */
module ChunkList {
  import opened CTypes
  import Bits

  /** A `memchunk_t`; `virt` 0 is the null pointer, which marks a free chunk. */
  datatype Chunk = Chunk(phys: nat, size: nat, virt: nat)

  predicate IsFree(c: Chunk) {
    c.virt == 0
  }

  /** `(size + PAGE_SIZE - 1) & ~(PAGE_SIZE - 1)` on an `int`: two's complement is rounded down. */
  function PageRounded(size: int32): int {
    AsInt32(size + PAGE_SIZE - 1) / PAGE_SIZE * PAGE_SIZE
  }

  /** Sizes that do not overflow are rounded up to whole pages, and for these this is the masking
      bit by bit; the others come out negative. */
  lemma PageRoundedIs(size: int32)
    ensures 0 <= size <= INT_MAX - PAGE_SIZE + 1 ==>
              && size <= PageRounded(size) < size + PAGE_SIZE && PageRounded(size) % PAGE_SIZE == 0
              && PageRounded(size) == Bits.AndNot(size + PAGE_SIZE - 1, PAGE_SIZE - 1)
    ensures size > INT_MAX - PAGE_SIZE + 1 ==> PageRounded(size) < 0
  {
    hide Bits.AndNot, AsInt32;
    AsInt32Is(size + PAGE_SIZE - 1);
    if 0 <= size <= INT_MAX - PAGE_SIZE + 1 {
      Bits.ClearsLow5And12(size + PAGE_SIZE - 1);
    }
  }

  lemma AsInt32Is(x: int)
    ensures 0 <= x <= INT_MAX ==> AsInt32(x) == x
    ensures INT_MAX < x < WRAP ==> AsInt32(x) == x - WRAP
  {
  }

  function Total(cs: seq<Chunk>): nat {
    if cs == [] then 0 else cs[0].size + Total(cs[1..])
  }

  // ---------- What the allocator does ----------

  predicate Fits(c: Chunk, size: int) {
    IsFree(c) && c.size >= size
  }

  /** The chunk the search of `ve_malloc` settles on: a smallest sufficient free chunk, the first of them. */
  function BestFit(cs: seq<Chunk>, size: int): (r: Option<nat>)
    ensures r.Some? ==> r.value < |cs|
  {
    if cs == [] then None
    else
      var n := |cs| - 1;
      var before := BestFit(cs[..n], size);
      if Fits(cs[n], size) && (before == None || cs[n].size < cs[before.value].size) then Some(n) else before
  }

  /** Chunk k becomes an allocation of `size` bytes at `virt`; what is left over stays free behind it. */
  function Place(cs: seq<Chunk>, k: nat, size: nat, virt: nat): seq<Chunk>
    requires k < |cs| && size <= cs[k].size
  {
    cs[..k] + PlaceIn(cs[k], size, virt) + cs[k + 1..]
  }

  function PlaceIn(c: Chunk, size: nat, virt: nat): seq<Chunk>
    requires size <= c.size
  {
    if size == c.size then [c.(virt := virt)]
    else [Chunk(c.phys, size, virt), Chunk(c.phys + size, c.size - size, 0)]
  }

  /** The first chunk at `ptr` becomes free. */
  function Released(cs: seq<Chunk>, ptr: nat): seq<Chunk> {
    if cs == [] then []
    else if cs[0].virt == ptr then [cs[0].(virt := 0)] + cs[1..]
    else [cs[0]] + Released(cs[1..], ptr)
  }

  /** Every free chunk absorbs the free chunks that follow it. */
  function Coalesced(cs: seq<Chunk>): seq<Chunk>
    decreases |cs|
  {
    if |cs| <= 1 then cs
    else if IsFree(cs[0]) && IsFree(cs[1]) then Coalesced([cs[0].(size := cs[0].size + cs[1].size)] + cs[2..])
    else [cs[0]] + Coalesced(cs[1..])
  }

  /** The physical address the list gives for a virtual one, 0 if none does. */
  function Translated(cs: seq<Chunk>, ptr: nat): nat {
    if cs == [] then 0
    else if !IsFree(cs[0]) && cs[0].virt <= ptr < cs[0].virt + cs[0].size then cs[0].phys + (ptr - cs[0].virt)
    else Translated(cs[1..], ptr)
  }

  // ---------- What its lists look like ----------

  /** The chunks lie one after the other from `lo` on, none of them empty. */
  predicate Tiles(cs: seq<Chunk>, lo: nat) {
    cs == [] || (cs[0].phys == lo && cs[0].size > 0 && Tiles(cs[1..], lo + cs[0].size))
  }

  predicate NoFreeNeighbours(cs: seq<Chunk>) {
    forall i | 0 <= i < |cs| - 1 :: !IsFree(cs[i]) || !IsFree(cs[i + 1])
  }

  /** The allocations of a list. */
  function Live(cs: seq<Chunk>): set<Chunk> {
    set c | c in cs && !IsFree(c)
  }

  predicate Apart(c: Chunk, d: Chunk) {
    c.virt + c.size <= d.virt || d.virt + d.size <= c.virt
  }

  /** Allocations are at disjoint virtual ranges, none reaching the end of the address space. */
  predicate VirtuallyApart(live: set<Chunk>) {
    && (forall c | c in live :: c.virt + c.size < WRAP)
    && (forall c, d | c in live && d in live && c != d :: Apart(c, d))
  }

  /** What every list of the allocator satisfies, over the reserved range [base, base + total). */
  predicate WellFormed(cs: seq<Chunk>, base: nat, total: nat) {
    && cs != [] && Tiles(cs, base) && Total(cs) == total
    && NoFreeNeighbours(cs)
    && VirtuallyApart(Live(cs))
    && base + total <= WRAP && total <= INT_MAX
  }

  // ---------- Tiling ----------

  lemma {:induction false} TotalOfConcat(a: seq<Chunk>, b: seq<Chunk>)
    ensures Total(a + b) == Total(a) + Total(b)
  {
    if a == [] {
      assert a + b == b;
    } else {
      assert (a + b)[1..] == a[1..] + b;
      TotalOfConcat(a[1..], b);
    }
  }

  lemma {:induction false} TilesConcat(a: seq<Chunk>, b: seq<Chunk>, lo: nat)
    ensures Tiles(a + b, lo) <==> Tiles(a, lo) && Tiles(b, lo + Total(a))
  {
    if a == [] {
      assert a + b == b;
    } else {
      assert (a + b)[1..] == a[1..] + b;
      TilesConcat(a[1..], b, lo + a[0].size);
    }
  }

  /** Where chunk i of a tiling lies. */
  lemma {:induction false} TileAt(cs: seq<Chunk>, lo: nat, i: nat)
    requires Tiles(cs, lo) && i < |cs|
    ensures cs[i].size > 0 && lo <= cs[i].phys && cs[i].phys + cs[i].size <= lo + Total(cs)
    ensures i > 0 ==> lo + cs[0].size <= cs[i].phys
    ensures i + 1 < |cs| ==> cs[i + 1].phys == cs[i].phys + cs[i].size
    ensures i + 1 == |cs| ==> cs[i].phys + cs[i].size == lo + Total(cs)
  {
    if i > 0 {
      TileAt(cs[1..], lo + cs[0].size, i - 1);
    } else if |cs| == 1 {
      assert Total(cs[1..]) == 0;
    }
  }

  lemma TotalIsPositive(cs: seq<Chunk>, lo: nat)
    requires Tiles(cs, lo)
    ensures cs != [] ==> Total(cs) > 0
  {
  }

  lemma {:induction false} TilesAreOrdered(cs: seq<Chunk>, lo: nat, i: nat, j: nat)
    requires Tiles(cs, lo) && i < j < |cs|
    ensures cs[i].phys + cs[i].size <= cs[j].phys
  {
    if i == 0 {
      TileAt(cs, lo, j);
    } else {
      TilesAreOrdered(cs[1..], lo + cs[0].size, i - 1, j - 1);
    }
  }

  // ---------- The live allocations determine the list ----------

  lemma LiveOfTail(cs: seq<Chunk>, lo: nat)
    requires Tiles(cs, lo) && cs != []
    ensures Live(cs[1..]) == Live(cs) - {cs[0]}
    ensures forall c | c in Live(cs[1..]) :: lo + cs[0].size <= c.phys
  {
    forall c | c in cs[1..] ensures c.phys >= lo + cs[0].size && c != cs[0] {
      var i :| 0 <= i < |cs[1..]| && cs[1..][i] == c;
      TileAt(cs, lo, i + 1);
    }
  }

  /** What follows a free head: the end of the range, or an allocation. */
  lemma AfterFreeHead(cs: seq<Chunk>, lo: nat)
    requires cs != [] && Tiles(cs, lo) && NoFreeNeighbours(cs) && IsFree(cs[0])
    ensures |cs| == 1 ==> Total(cs) == cs[0].size
    ensures |cs| > 1 ==> cs[0].size < Total(cs) && cs[1] in Live(cs) && cs[1].phys == lo + cs[0].size
  {
    if |cs| == 1 {
      assert Total(cs[1..]) == 0;
    } else {
      TotalIsPositive(cs[1..], lo + cs[0].size);
      assert cs[1] == cs[1..][0];
      assert !IsFree(cs[0]) || !IsFree(cs[0 + 1]);
    }
  }

  /** The head of a tiling is told by the allocations: it is the one at `lo`, or a free chunk up
      to the next allocation. */
  lemma SameHead(a: seq<Chunk>, b: seq<Chunk>, lo: nat)
    requires a != [] && b != [] && Tiles(a, lo) && Tiles(b, lo) && Total(a) == Total(b)
    requires NoFreeNeighbours(a) && NoFreeNeighbours(b) && Live(a) == Live(b)
    requires a[0].size <= b[0].size
    ensures a[0] == b[0]
  {
    LiveOfTail(a, lo);
    LiveOfTail(b, lo);
    if !IsFree(a[0]) {
      assert a[0] in Live(b);
    } else if !IsFree(b[0]) {
      assert b[0] in Live(a);
    } else {
      AfterFreeHead(a, lo);
      AfterFreeHead(b, lo);
      assert |a| > 1 ==> a[1] in Live(b[1..]);
    }
  }

  /** Two lists over the same range with the same allocations are the same list. */
  lemma {:induction false} Canonical(a: seq<Chunk>, b: seq<Chunk>, lo: nat)
    requires Tiles(a, lo) && Tiles(b, lo) && Total(a) == Total(b)
    requires NoFreeNeighbours(a) && NoFreeNeighbours(b) && Live(a) == Live(b)
    ensures a == b
  {
    TotalIsPositive(a, lo);
    TotalIsPositive(b, lo);
    if a == [] {
    } else {
      if a[0].size <= b[0].size {
        SameHead(a, b, lo);
      } else {
        SameHead(b, a, lo);
      }
      LiveOfTail(a, lo);
      LiveOfTail(b, lo);
      Canonical(a[1..], b[1..], lo + a[0].size);
      assert a == [a[0]] + a[1..] && b == [b[0]] + b[1..];
    }
  }

  // ---------- Best fit ----------

  predicate IsBestFit(cs: seq<Chunk>, size: int, k: nat) {
    && k < |cs| && Fits(cs[k], size)
    && forall j | 0 <= j < |cs| && Fits(cs[j], size) :: cs[k].size <= cs[j].size && (j < k ==> cs[k].size < cs[j].size)
  }

  /** The search fails exactly when no free chunk is large enough, and otherwise takes the first
      of the smallest that are. */
  lemma {:induction false} BestFitIsBest(cs: seq<Chunk>, size: int)
    ensures BestFit(cs, size) == None <==> forall j | 0 <= j < |cs| :: !Fits(cs[j], size)
    ensures forall k | BestFit(cs, size) == Some(k) :: IsBestFit(cs, size, k)
  {
    if cs == [] {
    } else {
      var n := |cs| - 1;
      BestFitIsBest(cs[..n], size);
      assert forall j | 0 <= j < n :: cs[..n][j] == cs[j];
    }
  }

  // ---------- Allocation ----------

  lemma Splice(cs: seq<Chunk>, k: nat)
    requires k < |cs|
    ensures cs == cs[..k] + [cs[k]] + cs[k + 1..]
  {
  }

  lemma PlaceTiles(cs: seq<Chunk>, k: nat, size: nat, virt: nat, lo: nat)
    requires Tiles(cs, lo) && k < |cs| && 0 < size <= cs[k].size
    ensures Tiles(Place(cs, k, size, virt), lo) && Total(Place(cs, k, size, virt)) == Total(cs)
  {
    var a, b, c := cs[..k], cs[k + 1..], PlaceIn(cs[k], size, virt);
    Splice(cs, k);
    TilesConcat(a + [cs[k]], b, lo);
    TilesConcat(a, [cs[k]], lo);
    TilesConcat(a + c, b, lo);
    TilesConcat(a, c, lo);
    TotalOfConcat(a + [cs[k]], b);
    TotalOfConcat(a, [cs[k]]);
    TotalOfConcat(a + c, b);
    TotalOfConcat(a, c);
    assert Tiles(c, lo + Total(a)) && Total(c) == cs[k].size by {
      if size < cs[k].size {
        assert c[1..] == [Chunk(cs[k].phys + size, cs[k].size - size, 0)];
      }
    }
    assert Total([cs[k]]) == cs[k].size;
  }

  lemma PlaceSeparates(cs: seq<Chunk>, k: nat, size: nat, virt: nat)
    requires NoFreeNeighbours(cs) && k < |cs| && IsFree(cs[k]) && size <= cs[k].size && virt != 0
    ensures NoFreeNeighbours(Place(cs, k, size, virt))
  {
    var r := Place(cs, k, size, virt);
    var n := |r| - |cs|;
    forall i | 0 <= i < |r| - 1 ensures !IsFree(r[i]) || !IsFree(r[i + 1]) {
      if i + 1 < k {
        assert r[i] == cs[i] && r[i + 1] == cs[i + 1];
      } else if i + 1 == k || i == k {
        assert r[k].virt == virt;
      } else {
        assert r[i + 1] == cs[i + 1 - n];
        assert i > k + n ==> r[i] == cs[i - n];
        assert i == k + n ==> !IsFree(cs[k]) || !IsFree(cs[k + 1]);
      }
    }
  }

  /** An allocation adds itself to the live set and changes nothing else in it. */
  lemma PlaceLive(cs: seq<Chunk>, k: nat, size: nat, virt: nat)
    requires k < |cs| && IsFree(cs[k]) && size <= cs[k].size && virt != 0
    ensures Live(Place(cs, k, size, virt)) == Live(cs) + {Chunk(cs[k].phys, size, virt)}
  {
    Splice(cs, k);
    var a, b, c := cs[..k], cs[k + 1..], PlaceIn(cs[k], size, virt);
    assert Live(c) == {Chunk(cs[k].phys, size, virt)};
    LiveOfConcat(a + c, b);
    LiveOfConcat(a, c);
    LiveOfConcat(a + [cs[k]], b);
    LiveOfConcat(a, [cs[k]]);
  }

  lemma LiveOfConcat(a: seq<Chunk>, b: seq<Chunk>)
    ensures Live(a + b) == Live(a) + Live(b)
  {
  }

  // ---------- Release ----------

  /** Freeing a pointer that is no allocation's start frees nothing. */
  lemma {:induction false} ReleasedUnknown(cs: seq<Chunk>, ptr: nat)
    requires forall c | c in cs :: c.virt != ptr
    ensures Released(cs, ptr) == cs
  {
    if cs == [] {
    } else {
      assert forall c | c in cs[1..] :: c in cs;
      ReleasedUnknown(cs[1..], ptr);
    }
  }

  lemma {:induction false} ReleasedTiles(cs: seq<Chunk>, ptr: nat, lo: nat)
    requires Tiles(cs, lo)
    ensures Tiles(Released(cs, ptr), lo) && Total(Released(cs, ptr)) == Total(cs)
    ensures |Released(cs, ptr)| == |cs|
  {
    if cs == [] || cs[0].virt == ptr {
    } else {
      ReleasedTiles(cs[1..], ptr, lo + cs[0].size);
    }
  }

  /** Freeing an allocation takes it, and nothing else, out of the live set. */
  lemma {:induction false} ReleasedLive(cs: seq<Chunk>, ptr: nat, lo: nat, c: Chunk)
    requires Tiles(cs, lo) && VirtuallyApart(Live(cs)) && ptr != 0 && c in Live(cs) && c.virt == ptr
    ensures Live(Released(cs, ptr)) == Live(cs) - {c}
  {
    LiveOfTail(cs, lo);
    var i :| 0 <= i < |cs| && cs[i] == c;
    TileAt(cs, lo, i);
    TileAt(cs, lo, 0);
    assert cs == [cs[0]] + cs[1..];
    LiveOfConcat([cs[0]], cs[1..]);
    if cs[0].virt == ptr {
      assert cs[0] == c;
      LiveOfConcat([cs[0].(virt := 0)], cs[1..]);
    } else {
      ReleasedLive(cs[1..], ptr, lo + cs[0].size, c);
      LiveOfConcat([cs[0]], Released(cs[1..], ptr));
    }
  }

  lemma {:induction false} CoalescedTiles(cs: seq<Chunk>, lo: nat)
    requires Tiles(cs, lo)
    ensures Tiles(Coalesced(cs), lo) && Total(Coalesced(cs)) == Total(cs)
    decreases |cs|
  {
    if |cs| <= 1 {
    } else {
      if IsFree(cs[0]) && IsFree(cs[1]) {
        var merged := [cs[0].(size := cs[0].size + cs[1].size)] + cs[2..];
        assert merged[1..] == cs[2..] == cs[1..][1..];
        CoalescedTiles(merged, lo);
      } else {
        CoalescedTiles(cs[1..], lo + cs[0].size);
      }
    }
  }

  lemma {:induction false} CoalescedLive(cs: seq<Chunk>)
    ensures Live(Coalesced(cs)) == Live(cs)
    decreases |cs|
  {
    if |cs| <= 1 {
    } else {
      if IsFree(cs[0]) && IsFree(cs[1]) {
        var merged := [cs[0].(size := cs[0].size + cs[1].size)] + cs[2..];
        CoalescedLive(merged);
        assert cs == [cs[0], cs[1]] + cs[2..];
      } else {
        CoalescedLive(cs[1..]);
        assert cs == [cs[0]] + cs[1..];
        LiveOfConcat([cs[0]], cs[1..]);
        LiveOfConcat([cs[0]], Coalesced(cs[1..]));
      }
    }
  }

  lemma {:induction false} CoalescedSeparates(cs: seq<Chunk>)
    ensures NoFreeNeighbours(Coalesced(cs))
    ensures cs != [] ==> Coalesced(cs) != [] && Coalesced(cs)[0].virt == cs[0].virt
    decreases |cs|
  {
    if |cs| <= 1 {
    } else {
      if IsFree(cs[0]) && IsFree(cs[1]) {
        CoalescedSeparates([cs[0].(size := cs[0].size + cs[1].size)] + cs[2..]);
      } else {
        CoalescedSeparates(cs[1..]);
        SeparateCons(cs[0], Coalesced(cs[1..]));
      }
    }
  }

  lemma SeparateCons(c: Chunk, rest: seq<Chunk>)
    requires NoFreeNeighbours(rest) && rest != [] && (!IsFree(c) || !IsFree(rest[0]))
    ensures NoFreeNeighbours([c] + rest)
  {
    var cs := [c] + rest;
    forall i | 0 <= i < |cs| - 1 ensures !IsFree(cs[i]) || !IsFree(cs[i + 1]) {
      if i > 0 {
        assert cs[i] == rest[i - 1] && cs[i + 1] == rest[i - 1 + 1];
      }
    }
  }
}
