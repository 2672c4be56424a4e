/**
 The heap as the kernel runs it: regions updated in place, a first-fit scan over their tails, and
 a new region when nothing fits.
 */
module KernelHeap {
  import opened HeapRegion
  import opened HeapMemory

  // ---------------------------------------------------------------- sizes of new regions

  /** What alloc asks create_region for when nothing fits: the next multiple of the alignment
      above the request and the bookkeeping, even if those are a multiple already. */
  function RegionSize(n: nat, alignment: nat): (r: nat)
    requires alignment > 0
    ensures r % alignment == 0
    ensures n + NEW_REGION_SIZE < r <= n + NEW_REGION_SIZE + alignment
  {
    var q := (n + NEW_REGION_SIZE) / alignment;
    NextMultiple(n + NEW_REGION_SIZE, alignment);
    (q + 1) * alignment
  }

  lemma NextMultiple(x: nat, a: nat)
    requires a > 0
    ensures (x / a + 1) * a == x - x % a + a
    ensures (x / a + 1) * a % a == 0
  {
    assert x == x / a * a + x % a;
    assert (x / a + 1) * a == x / a * a + a;
    MultipleMod(x / a + 1, a);
  }

  lemma MultipleMod(k: nat, a: nat)
    requires a > 0
    ensures k * a % a == 0
  {
    DivMod(k * a, a);
    var q, r := k * a / a, k * a % a;
    if k > q {
      assert k * a == q * a + (k - q) * a;
      AtLeast(k - q, a);
    } else if k < q {
      assert q * a == k * a + (q - k) * a;
      AtLeast(q - k, a);
    }
  }

  lemma DivMod(x: nat, a: nat)
    requires a > 0
    ensures x == x / a * a + x % a && 0 <= x % a < a
  {
  }

  lemma AtLeast(k: nat, a: nat)
    requires k > 0
    ensures k * a >= a
  {
    assert k * a == a + (k - 1) * a;
    MulNonnegative(k - 1, a);
  }

  lemma MulNonnegative(k: nat, a: nat)
    ensures k * a >= 0
  {
  }

  /** A region made for the request holds it: the rounding leaves more than the cost of a slot. */
  predicate RetryWorks(n: nat, alignment: nat)
    requires alignment > 0
  {
    (n + NEW_REGION_SIZE) % alignment + SLOT_COST < alignment
  }

  /** The region made for a request has a tail of the request and the bytes gained by rounding, so
      it can hold the request exactly when those exceed the cost of one more chunk. */
  lemma RetryFits(base: int, n: nat, alignment: nat)
    requires alignment > 0 && n + SLOT_COST < 0x8000_0000
    ensures NewRegion(base, RegionSize(n, alignment)).chunks[2].size == n + alignment - (n + NEW_REGION_SIZE) % alignment
    ensures Fits(NewRegion(base, RegionSize(n, alignment)), n) <==> (n + NEW_REGION_SIZE) % alignment + SLOT_COST < alignment
  {
    NextMultiple(n + NEW_REGION_SIZE, alignment);
  }

  /** The regions that further calls of create_region add for the same request. */
  function Retried(bases: seq<int>, n: nat, alignment: nat): (rs: seq<Region>)
    requires alignment > 0
    ensures |rs| == |bases|
  {
    seq(|bases|, i requires 0 <= i < |bases| => NewRegion(bases[i], RegionSize(n, alignment)))
  }

  ghost predicate NoneFits(rs: seq<Region>, n: nat) {
    forall i :: 0 <= i < |rs| ==> rs[i].chunks != [] && !Fits(rs[i], n)
  }

  /** A request that finds no room in a heap is met by adding regions, as often as one likes,
      exactly when the spare bytes of the first one suffice. */
  lemma RetryNever(rs: seq<Region>, bases: seq<int>, n: nat, alignment: nat)
    requires alignment > 0 && n + SLOT_COST < 0x8000_0000 && NoneFits(rs, n)
    ensures NoneFits(rs + Retried(bases, n, alignment), n) <==> bases == [] || !RetryWorks(n, alignment)
  {
    hide Fits, RegionSize;
    var qs := Retried(bases, n, alignment);
    forall i | 0 <= i < |bases|
      ensures qs[i].chunks != [] && (Fits(qs[i], n) <==> RetryWorks(n, alignment))
    {
      RetryFits(bases[i], n, alignment);
    }
    if bases != [] { assert (rs + qs)[|rs|] == qs[0]; }
  }

  /** One byte too few: with 4096-byte alignment no number of new regions meets a request of 3941
      bytes, so alloc calls itself for ever. */
  lemma RetryFails(rs: seq<Region>, bases: seq<int>)
    requires NoneFits(rs, 3941)
    ensures NoneFits(rs + Retried(bases, 3941, 4096), 3941)
  {
    RetryNever(rs, bases, 3941, 4096);
  }

  // ---------------------------------------------------------------- lists of regions

  datatype Outcome = Placed(ptr: int) | Repeats | Missing

  ghost predicate Apart(r: Region, q: Region) {
    r.base + r.allocSize <= q.base || q.base + q.allocSize <= r.base
  }

  /** The regions are apart and each is sound. */
  ghost predicate AllSound(rs: seq<Region>) {
    && (forall i, j :: 0 <= i < j < |rs| ==> Apart(rs[i], rs[j]))
    && (forall i :: 0 <= i < |rs| ==> Sound(rs[i]) && |rs[i].chunks| >= 3 && rs[i].allocSize < 0x8000_0000)
  }

  /** A region that passes the size test of alloc has room for the block. */
  ghost predicate RoomWhereFits(rs: seq<Region>, n: nat) {
    forall i :: 0 <= i < |rs| ==> rs[i].chunks != [] && (Fits(rs[i], n) ==> Room(rs[i], n))
  }

  /** In tiled regions this is always so. */
  lemma TiledHasRoom(rs: seq<Region>, n: nat)
    requires AllSound(rs) && AllTiled(rs) && n + SLOT_COST < 0x8000_0000
    ensures RoomWhereFits(rs, n)
  {
    hide Sound, Tiled, Fits, Room;
    forall i | 0 <= i < |rs| ensures rs[i].chunks != [] && (Fits(rs[i], n) ==> Room(rs[i], n)) {
      TailFitsInt(rs[i]);
      if Fits(rs[i], n) { TiledRoom(rs[i], n); }
    }
  }

  lemma NewRegionRoom(base: int, n: nat, alignment: nat)
    requires alignment > 0 && n + SLOT_COST < 0x8000_0000 && RegionSize(n, alignment) < 0x8000_0000
    ensures var r := NewRegion(base, RegionSize(n, alignment)); Fits(r, n) ==> Room(r, n)
  {
    var r := NewRegion(base, RegionSize(n, alignment));
    NewRegionTiled(base, RegionSize(n, alignment));
    if Fits(r, n) { TiledRoom(r, n); }
  }

  ghost predicate AllTiled(rs: seq<Region>) {
    forall i :: 0 <= i < |rs| ==> Tiled(rs[i])
  }

  /** Chunk `j` of region `i` starts at `ptr`. */
  ghost predicate Starts(rs: seq<Region>, i: nat, j: nat, ptr: int) {
    i < |rs| && j < |rs[i].chunks| && rs[i].chunks[j].addr == ptr
  }

  /** The live block of `n` bytes at `ptr` is the last before the tail. */
  ghost predicate IsNewest(r: Region, ptr: int, n: nat) {
    var j := |r.chunks| - 2;
    Live(r, j) && r.chunks[j] == Chunk(ptr, n, RESERVED)
  }

  lemma UpdateSound(rs: seq<Region>, i: nat, r: Region)
    requires AllSound(rs) && i < |rs| && r.base == rs[i].base && r.allocSize == rs[i].allocSize
    requires Sound(r)
    ensures AllSound(rs[i := r])
  {
    hide Sound;
    SoundEnds(r);
  }

  lemma AppendSound(rs: seq<Region>, r: Region)
    requires AllSound(rs) && Sound(r) && r.allocSize < 0x8000_0000
    requires forall i :: 0 <= i < |rs| ==> Apart(rs[i], r)
    ensures AllSound(rs + [r])
  {
    hide Sound;
    SoundEnds(r);
  }

  lemma CullUpdate(rs: seq<Region>, i: nat, j: nat)
    requires AllSound(rs) && i < |rs| && Live(rs[i], j)
    ensures var t := rs[i := CullChunk(rs[i], j, false)];
      AllSound(t) && (AllTiled(rs) ==> (AllTiled(t) <==> !TwoSided(rs[i], j)))
  {
    hide Sound, Tiled, CullChunk, TwoSided;
    var r := rs[i];
    SoundEnds(r);
    CullSound(r, j, false);
    CullFrame(r, j, false);
    UpdateSound(rs, i, CullChunk(r, j, false));
    var t := rs[i := CullChunk(r, j, false)];
    if AllTiled(rs) {
      CullTiled(r, j, false);
      assert t[i] == CullChunk(r, j, false) && forall k :: 0 <= k < |rs| && k != i ==> t[k] == rs[k];
    }
  }

  /** An address identifies region and chunk. */
  lemma SameChunk(rs: seq<Region>, i: nat, j: nat, k: nat, m: nat, ptr: int)
    requires AllSound(rs) && Starts(rs, i, j, ptr) && Starts(rs, k, m, ptr)
    ensures i == k && j == m
  {
    OnlyOne(rs[i], j, rs[k], m, i == k);
  }

  // ---------------------------------------------------------------- the heap

  /** A heap_t and its user regions; `view` is what the regions hold. */
  class Heap {
    const alignment: nat
    var regions: seq<RegionBlock>
    ghost var view: seq<Region>
    /** Bytes of the payloads. */
    var mem: map<int, int>

    constructor (alignment: nat, first: RegionBlock, ghost r: Region)
      requires alignment > 0 && first.Shows(r) && Sound(r) && r.allocSize < 0x8000_0000
      ensures this.alignment == alignment && regions == [first] && view == [r] && Valid()
    {
      this.alignment, regions, mem := alignment, [first], map[];
      view := [r];
    }

    ghost function Slots(): set<array<int>>
      reads this
    {
      set r | r in regions :: r.slots
    }

    /** The regions share no memory and hold the chunk lists of `view`. */
    ghost predicate Tied()
      reads this, regions, Slots()
    {
      && |view| == |regions|
      && (forall i, j :: 0 <= i < j < |regions| ==> regions[i] != regions[j] && regions[i].slots != regions[j].slots)
      && (forall i :: 0 <= i < |regions| ==> regions[i].Shows(view[i]))
    }

    ghost predicate Valid()
      reads this, regions, Slots()
    {
      alignment > 0 && Tied() && AllSound(view)
    }

    /** The scan of alloc. */
    method FirstFit(n: nat) returns (i: nat)
      requires Valid()
      ensures i <= |view|
      ensures forall k :: 0 <= k < i ==> !Fits(view[k], n)
      ensures i < |view| ==> Fits(view[i], n)
    {
      hide Sound, Holds;
      i := 0;
      while i < |regions|
        invariant 0 <= i <= |regions|
        invariant forall k :: 0 <= k < i ==> !Fits(view[k], n)
      {
        var c := regions[i].Get(regions[i].nChunks - 1, view[i]);
        if c.size > IntOf(n + CHUNK_INFO_SIZE + CHUNK_ARR) && c.flag == UNALLOCATED { return; }
        i := i + 1;
      }
    }

    /** Carve the block out of region `i`; all others stay as they are. */
    method Place(i: nat, n: nat) returns (ptr: int)
      requires Valid() && i < |view| && Fits(view[i], n) && Room(view[i], n) && n + SLOT_COST < 0x8000_0000
      modifies this`view, regions[i], regions[i].slots
      ensures Valid() && (old(AllTiled(view)) ==> AllTiled(view))
      ensures view == old(view)[i := Carve(old(view)[i], n)]
      ensures IsNewest(view[i], ptr, n)
    {
      hide Sound, Tiled, Carve, Fits, Room, RegionBlock.Shows;
      ghost var r := view[i];
      SoundEnds(r);
      if Tiled(r) {
        TailFitsInt(r);
        CarveTiled(r, n);
      }
      CarveSound(r, n);
      CarveFrame(r, n);
      CarveBlock(r, n);
      UpdateSound(view, i, Carve(r, n));
      ptr := regions[i].Take(n, r);
      view := view[i := Carve(r, n)];
    }

    /** create_region */
    method AddRegion(n: nat, newBase: int)
      requires Valid() && RegionSize(n, alignment) < 0x8000_0000
      requires forall i :: 0 <= i < |view| ==> Apart(view[i], NewRegion(newBase, RegionSize(n, alignment)))
      modifies this`regions, this`view
      ensures Valid() && (old(AllTiled(view)) ==> AllTiled(view))
      ensures view == old(view) + [NewRegion(newBase, RegionSize(n, alignment))]
      ensures |regions| == |old(regions)| + 1 && regions[..|old(regions)|] == old(regions)
      ensures fresh(regions[|old(regions)|]) && fresh(regions[|old(regions)|].slots)
    {
      hide Sound, Tiled, RegionSize, NewRegion, RegionBlock.Shows;
      var size := RegionSize(n, alignment);
        NewRegionSound(newBase, size);
      NewRegionTiled(newBase, size);
      NewRegionFrame(newBase, size);
      AppendSound(view, NewRegion(newBase, size));
      var r := new RegionBlock(newBase, size);
      regions := regions + [r];
      view := view + [NewRegion(newBase, size)];
    }

    /** alloc, with the pages the reservation gives for a new region at `newBase`. `Repeats`
        stands for a retry that again finds no room. */
    method Alloc(n: nat, newBase: int) returns (out: Outcome, ghost at: nat)
      requires Valid() && RoomWhereFits(view, n) && n + SLOT_COST < 0x8000_0000 && RegionSize(n, alignment) < 0x8000_0000
      requires forall i :: 0 <= i < |view| ==> Apart(view[i], NewRegion(newBase, RegionSize(n, alignment)))
      modifies this`regions, this`view, regions, Slots()
      ensures Valid() && (old(AllTiled(view)) ==> AllTiled(view))
      ensures out.Placed? <==> (exists k :: 0 <= k < |old(view)| && Fits(old(view)[k], n)) || (n + NEW_REGION_SIZE) % alignment + SLOT_COST < alignment
      ensures at <= |old(view)| && (at < |old(view)| ==> out.Placed? && Fits(old(view)[at], n))
      ensures forall k :: 0 <= k < at ==> !Fits(old(view)[k], n)
      ensures !out.Missing? && view == AfterAlloc(old(view), at, n, newBase, alignment, out.Placed?)
      ensures out.Placed? ==> IsNewest(view[at], out.ptr, n)
      ensures |old(regions)| <= |regions| && regions[..|old(regions)|] == old(regions)
      ensures forall k :: |old(regions)| <= k < |regions| ==> fresh(regions[k]) && fresh(regions[k].slots)
    {
      hide Sound, Tiled, Carve, RegionSize, NewRegion, RegionBlock.Shows, Fits;
      var i := FirstFit(n);
      at := i;
      if i == |regions| {
        AddRegion(n, newBase);
        RetryFits(newBase, n, alignment);
        NewRegionRoom(newBase, n, alignment);
        i := FirstFit(n);
        if i == |regions| { return Repeats, at; }
      }
      var ptr := Place(i, n);
      return Placed(ptr), at;
    }

    /** The nested scan of cull and change. */
    method Find(ptr: int) returns (found: bool, i: nat, j: nat)
      requires Valid()
      ensures found ==> Starts(view, i, j, ptr)
      ensures !found ==> forall k: nat, m: nat :: !Starts(view, k, m, ptr)
    {
      hide Sound, Holds;
      found, i, j := false, 0, 0;
      while i < |regions|
        invariant 0 <= i <= |regions|
        invariant forall k: nat, m: nat :: k < i ==> !Starts(view, k, m, ptr)
      {
        j := 0;
        var count := regions[i].nChunks;
        assert count == |view[i].chunks|;
        while j < count
          invariant 0 <= j <= count
          invariant forall m: nat :: m < j ==> !Starts(view, i, m, ptr)
        {
          var c := regions[i].Get(j, view[i]);
          if c.addr == ptr { return true, i, j; }
          j := j + 1;
        }
        i := i + 1;
      }
    }

    /** cull, as written: the accounting survives every call; the tiling survives exactly when the
        block does not lie between two open chunks. */
    method Cull(ptr: int, ghost gi: nat, ghost gj: nat)
      requires Valid() && Starts(view, gi, gj, ptr) && Live(view[gi], gj)
      modifies this`view, regions, Slots()
      ensures Valid() && view == old(view)[gi := CullChunk(old(view)[gi], gj, false)]
      ensures old(AllTiled(view)) ==> (AllTiled(view) <==> !old(TwoSided(view[gi], gj)))
    {
      hide Sound, Tiled, CullChunk, RegionBlock.Shows, TwoSided, AllTiled;
      var found, i, j := Find(ptr);
      SameChunk(view, gi, gj, i, j, ptr);
      CullUpdate(view, i, j);
      ReleaseIn(i, j);
    }

    /** The chunk found is culled; the other regions stay as they are. */
    method ReleaseIn(i: nat, j: nat)
      requires Valid() && i < |view| && Live(view[i], j)
      modifies this`view, regions[i], regions[i].slots
      ensures Valid() && view == old(view)[i := CullChunk(old(view)[i], j, false)]
    {
      hide Sound, Tiled, CullChunk, RegionBlock.Shows, TwoSided;
      ghost var r := view[i];
      CullUpdate(view, i, j);
      regions[i].Release(j, r);
      view := view[i := CullChunk(r, j, false)];
    }

    /** memcpy between payloads that do not overlap. */
    method CopyBytes(dst: int, src: int, n: nat)
      requires Valid() && (dst + n <= src || src + n <= dst)
      modifies this`mem
      ensures Valid() && Copied(old(mem), mem, dst, src, n)
    {
      hide AllSound, AllTiled, RegionBlock.Shows;
      ghost var m0 := mem;
      var k := 0;
      while k < n
        invariant 0 <= k <= n
        invariant Valid() && Copied(m0, mem, dst, src, k)
      {
        assert ByteAt(mem, src + k) == ByteAt(m0, src + k);
        ghost var m1 := mem;
        mem := mem[dst + k := ByteAt(mem, src + k)];
        assert forall a :: a != dst + k ==> ByteAt(mem, a) == ByteAt(m1, a);
        k := k + 1;
      }
    }

    /**
     change: allocate, copy the smaller of the two sizes, cull the old block; NULL for an unknown
     address. The new block is live and starts with the old contents; no other byte changes.
     */
    method Change(ptr: int, n: nat, newBase: int, ghost gi: nat, ghost gj: nat)
      returns (out: Outcome, ghost at: nat)
      requires Valid() && RoomWhereFits(view, n) && n + SLOT_COST < 0x8000_0000 && RegionSize(n, alignment) < 0x8000_0000
      requires forall i :: 0 <= i < |view| ==> Apart(view[i], NewRegion(newBase, RegionSize(n, alignment)))
      requires (Starts(view, gi, gj, ptr) && Live(view[gi], gj)) || forall i: nat, j: nat :: !Starts(view, i, j, ptr)
      modifies this`regions, this`view, this`mem, regions, Slots()
      ensures Valid()
      ensures out.Missing? <==> !old(Starts(view, gi, gj, ptr))
      ensures out.Missing? ==> view == old(view)
      ensures !out.Placed? ==> mem == old(mem)
      ensures out.Placed? ==>
        var size := old(view)[gi].chunks[gj].size;
        Copied(old(mem), mem, out.ptr, ptr, if n > size then size else n)
      ensures out.Placed? ==>
        && gi < |old(view)| && at <= |old(view)|
        && var mid := AfterAlloc(old(view), at, n, newBase, alignment, true);
          && Live(mid[gi], gj) && view == mid[gi := CullChunk(mid[gi], gj, false)]
          && (old(AllTiled(view)) ==> (AllTiled(view) <==> !TwoSided(mid[gi], gj)))
          && |view[at].chunks| >= 3 && Chunk(out.ptr, n, RESERVED) in Blocks(view[at])
    {
      hide Sound, Tiled, Carve, RegionSize, NewRegion, CullChunk, Fits, RegionBlock.Shows, Blocks, TwoSided, Copied;
      var found, i, j := Find(ptr);
      if !found {
        assert !Starts(view, gi, gj, ptr);
        return Missing, 0;
      }
      SameChunk(view, gi, gj, i, j, ptr);
      out, at := AllocAndCopy(ptr, n, newBase, i, j);
      if out.Repeats? { return; }
      NewestListed(view, at, out.ptr, n, i, j);
      Cull(ptr, i, j);
    }

    /** The new block of change, with the contents of the old one. */
    method AllocAndCopy(ptr: int, n: nat, newBase: int, i: nat, j: nat) returns (out: Outcome, ghost at: nat)
      requires Valid() && RoomWhereFits(view, n) && n + SLOT_COST < 0x8000_0000 && RegionSize(n, alignment) < 0x8000_0000
      requires forall k :: 0 <= k < |view| ==> Apart(view[k], NewRegion(newBase, RegionSize(n, alignment)))
      requires Starts(view, i, j, ptr) && Live(view[i], j)
      modifies this`regions, this`view, this`mem, regions, Slots()
      ensures Valid() && (old(AllTiled(view)) ==> AllTiled(view))
      ensures !out.Missing? && at <= |old(view)| && (at < |old(view)| ==> out.Placed?)
      ensures view == AfterAlloc(old(view), at, n, newBase, alignment, out.Placed?)
      ensures out.Repeats? ==> mem == old(mem)
      ensures out.Placed? ==>
        var size := old(view)[i].chunks[j].size;
        && Copied(old(mem), mem, out.ptr, ptr, if n > size then size else n) && IsNewest(view[at], out.ptr, n)
        && Starts(view, i, j, ptr) && Live(view[i], j) && out.ptr != ptr
      ensures |old(regions)| <= |regions| && regions[..|old(regions)|] == old(regions)
      ensures forall k :: |old(regions)| <= k < |regions| ==> fresh(regions[k]) && fresh(regions[k].slots)
    {
      hide Sound, Tiled, Carve, RegionSize, NewRegion, Fits, RegionBlock.Shows, Copied;
      ghost var c := view[i].chunks[j];
      CarveKeeps(view[i], n, j);
      out, at := Alloc(n, newBase);
      if out.Repeats? { return; }
      assert view[i].chunks[j] == c && Live(view[i], j);
      var c1 := regions[i].Get(j, view[i]);
      ChunkSize(view[i], j);
      var copied := if n > c1.size then c1.size else n;
      NewestApart(view, at, out.ptr, n, i, j);
      CopyBytes(out.ptr, ptr, copied);
    }
  }

  function ByteAt(m: map<int, int>, a: int): int { if a in m then m[a] else 0 }

  function CopiedFrom(a: int, dst: int, src: int, n: int): int { if dst <= a < dst + n then a - dst + src else a }

  /** The `n` bytes from `src` on are now also at `dst`, and no other byte changed. */
  ghost predicate Copied(m: map<int, int>, m': map<int, int>, dst: int, src: int, n: int) {
    forall a :: ByteAt(m', a) == ByteAt(m, CopiedFrom(a, dst, src, n))
  }

  lemma CopiedMeans(m: map<int, int>, m': map<int, int>, dst: int, src: int, n: int, a: int)
    requires Copied(m, m', dst, src, n)
    ensures 0 <= a < n ==> ByteAt(m', dst + a) == ByteAt(m, src + a)
    ensures !(dst <= a < dst + n) ==> ByteAt(m', a) == ByteAt(m, a)
  {
    assert ByteAt(m', dst + a) == ByteAt(m, CopiedFrom(dst + a, dst, src, n));
    assert ByteAt(m', a) == ByteAt(m, CopiedFrom(a, dst, src, n));
  }

  /** The regions after alloc: the block carved out of region `at`, which may be a new one. */
  ghost function AfterAlloc(rs: seq<Region>, at: nat, n: nat, newBase: int, alignment: nat, placed: bool): (t: seq<Region>)
    requires at <= |rs| && alignment > 0 && (at < |rs| ==> placed && |rs[at].chunks| >= 2)
    ensures |rs| <= |t| && at < |t| && (forall k :: 0 <= k < |rs| && k != at ==> t[k] == rs[k])
  {
    if at < |rs| then rs[at := Carve(rs[at], n)]
    else
      var r := NewRegion(newBase, RegionSize(n, alignment));
      rs + [if placed then Carve(r, n) else r]
  }

  lemma NewRegionFrame(base: int, size: int)
    ensures NewRegion(base, size).base == base && NewRegion(base, size).allocSize == size
    ensures |NewRegion(base, size).chunks| == 3
  {
  }

  /** Culling another block keeps the newest one live. */
  lemma NewestListed(rs: seq<Region>, at: nat, ptr: int, n: nat, i: nat, j: nat)
    requires AllSound(rs) && at < |rs| && IsNewest(rs[at], ptr, n)
    requires i < |rs| && Live(rs[i], j) && rs[i].chunks[j].addr != ptr
    ensures Chunk(ptr, n, RESERVED) in Blocks(rs[at])
    ensures |CullChunk(rs[i], j, false).chunks| >= 3
    ensures i == at ==> Chunk(ptr, n, RESERVED) in Blocks(CullChunk(rs[i], j, false))
  {
    hide Blocks, CullChunk, Reserved, Sound;
    LiveListed(rs[at], |rs[at].chunks| - 2);
    SoundEnds(rs[i]);
    CullBlocks(rs[i], j, false);
  }

  lemma NewestApart(rs: seq<Region>, at: nat, ptr: int, n: nat, i: nat, j: nat)
    requires AllSound(rs) && at < |rs| && IsNewest(rs[at], ptr, n)
    requires i < |rs| && Live(rs[i], j) && (i == at ==> j + 2 < |rs[i].chunks|)
    ensures var c := rs[i].chunks[j];
      c.addr + c.size <= ptr - CHUNK_INFO_SIZE || ptr + n <= c.addr - CHUNK_INFO_SIZE
  {
    hide Sound;
    if i == at {
      SoundApart(rs[i], j, |rs[at].chunks| - 2);
    } else {
      InsideRegion(rs[i], j);
      InsideRegion(rs[at], |rs[at].chunks| - 2);
    }
  }

  lemma ChunkSize(r: Region, j: nat)
    requires Sound(r) && Live(r, j)
    ensures r.chunks[j].size >= 0
  {
    SoundApart(r, j, |r.chunks| - 1);
  }

  /** Carving leaves the live blocks where they are. */
  lemma CarveKeeps(r: Region, n: nat, j: nat)
    requires Live(r, j)
    ensures var q := Carve(r, n); Live(q, j) && q.chunks[j] == r.chunks[j] && |q.chunks| == |r.chunks| + 1
  {
  }

  lemma CarveBlock(r: Region, n: nat)
    requires |r.chunks| >= 3
    ensures var r', j := Carve(r, n), |r.chunks| - 1;
      && Live(r', j) && r'.chunks[j] == Chunk(Last(r.chunks).addr, n, RESERVED)
      && r'.base == r.base && r'.allocSize == r.allocSize && |r'.chunks| == |r.chunks| + 1
  {
  }

  /** Header and live payload of a chunk lie inside its region, below the chunk array. */
  lemma InsideRegion(r: Region, k: nat)
    requires Sound(r) && k < |r.chunks|
    ensures var c := r.chunks[k];
      && r.base <= c.addr - CHUNK_INFO_SIZE && c.addr < r.base + r.allocSize
      && (!c.Open() ==> c.size >= 0 && c.addr + c.size <= r.base + r.allocSize)
      && (k > 0 ==> c.addr < r.chunks[0].addr)
  {
    var m := |r.chunks| - 1;
    SoundApart(r, 1, m);
    if 0 < k < m { SoundApart(r, k, m); }
    if 1 < k { SoundApart(r, 1, k); }
  }

  /** Addresses identify chunks, across all regions. */
  lemma OnlyOne(q: Region, gj: nat, r: Region, j: nat, same: bool)
    requires Sound(q) && Sound(r) && (if same then q == r else Apart(q, r) || Apart(r, q))
    requires gj < |q.chunks| && j < |r.chunks| && q.chunks[gj].addr == r.chunks[j].addr
    ensures same && gj == j
  {
    hide Sound;
    InsideRegion(q, gj);
    InsideRegion(r, j);
    if same && 0 < gj < j { SoundApart(r, gj, j); }
    if same && 0 < j < gj { SoundApart(r, j, gj); }
  }

  /** No two chunks of a valid heap share a byte: headers, payloads and chunk arrays alike. */
  lemma ChunksDisjoint(q: Region, k: nat, r: Region, j: nat, same: bool)
    requires Tiled(q) && Tiled(r) && (if same then q == r && k != j else Apart(q, r))
    requires k < |q.chunks| && j < |r.chunks|
    ensures q.chunks[k].addr + q.chunks[k].size <= r.chunks[j].addr - CHUNK_INFO_SIZE
         || r.chunks[j].addr + r.chunks[j].size <= q.chunks[k].addr - CHUNK_INFO_SIZE
  {
    ChunkInside(q, k);
    ChunkInside(r, j);
    if same && 0 < k < j { TiledOrder(r, k, j); }
    if same && 0 < j < k { TiledOrder(r, j, k); }
  }

  lemma ChunkInside(r: Region, k: nat)
    requires Tiled(r) && k < |r.chunks|
    ensures r.base <= r.chunks[k].addr - CHUNK_INFO_SIZE && r.chunks[k].addr + r.chunks[k].size <= r.base + r.allocSize
    ensures k > 0 ==> r.chunks[k].addr + r.chunks[k].size <= r.chunks[0].addr - CHUNK_INFO_SIZE
  {
    if k <= 1 { TiledOrder(r, 1, 2); } else { TiledOrder(r, 1, k); }
  }
}
