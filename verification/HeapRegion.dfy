/**
 A heap region: chunks tile the region from its base, and the array of chunk pointers, whose own
 chunk has index 0, grows down from its end. This module holds what alloc and cull compute and
 what they keep.
 */
module HeapRegion {

  /** sizeof(smart_ptr), sizeof(smart_ptr *) and sizeof(region_t) with 8-byte pointers. */
  const CHUNK_INFO_SIZE := 24
  const CHUNK_ARR := 8
  const REGION_INFO_SIZE := 32
  const SLOT_COST := CHUNK_INFO_SIZE + CHUNK_ARR
  const NEW_REGION_SIZE := REGION_INFO_SIZE + 3 * CHUNK_INFO_SIZE + 3 * CHUNK_ARR

  datatype Flag = UNALLOCATED | RESERVED | CULLED

  /** A smart_ptr; its header of CHUNK_INFO_SIZE bytes ends where `addr` begins. */
  datatype Chunk = Chunk(addr: int, size: int, flag: Flag) {
    /** Not reserved: `!F_CHECK(c)` or `c->flag == CULLED`. */
    predicate Open() { flag != RESERVED }
  }

  datatype Region = Region(base: int, allocSize: int, usedSize: int, chunks: seq<Chunk>)

  function IntOf(x: nat): int {
    var y := x % 0x1_0000_0000;
    if y < 0x8000_0000 then y else y - 0x1_0000_0000
  }

  // ---------------------------------------------------------------- what the code computes

  /** The region create and create_region set up: chunk array, region info, one free chunk. */
  function NewRegion(base: int, size: int): Region {
    Region(base, size, NEW_REGION_SIZE,
           [Chunk(base + size - 3 * CHUNK_ARR, 3 * CHUNK_ARR, RESERVED),
            Chunk(base + CHUNK_INFO_SIZE, REGION_INFO_SIZE, RESERVED),
            Chunk(base + CHUNK_INFO_SIZE + REGION_INFO_SIZE + CHUNK_INFO_SIZE, size - NEW_REGION_SIZE, UNALLOCATED)])
  }

  function Last(s: seq<Chunk>): Chunk
    requires s != []
  {
    s[|s| - 1]
  }

  /** alloc's test of a region: the needed size is truncated to int before the comparison. */
  predicate Fits(r: Region, n: nat)
    requires r.chunks != []
  {
    Last(r.chunks).size > IntOf(n + SLOT_COST) && Last(r.chunks).flag == UNALLOCATED
  }

  /** Carve `n` bytes off the tail. */
  function Carve(r: Region, n: nat): Region
    requires |r.chunks| >= 2
  {
    var m, tail := |r.chunks|, Last(r.chunks);
    r.(usedSize := r.usedSize + n + SLOT_COST,
       chunks := [Chunk(r.chunks[0].addr - CHUNK_ARR, (m + 1) * CHUNK_ARR, RESERVED)] + r.chunks[1..m - 1]
                 + [Chunk(tail.addr, n, RESERVED),
                    Chunk(tail.addr + n + CHUNK_INFO_SIZE, tail.size - (n + SLOT_COST), UNALLOCATED)])
  }

  function GrowLast(s: seq<Chunk>): seq<Chunk>
    requires s != []
  {
    s[|s| - 1 := Last(s).(size := Last(s).size + CHUNK_ARR)]
  }

  /** Merge chunks `k` and `k + 1` into one at `addr`: one slot leaves the chunk array, and the
      tail gains its bytes. */
  function MergeAt(r: Region, k: nat, addr: int): Region
    requires 1 <= k && k + 1 < |r.chunks|
  {
    var x, y := r.chunks[k], r.chunks[k + 1];
    var arr := Chunk(r.chunks[0].addr + CHUNK_ARR, r.chunks[0].size - CHUNK_ARR, RESERVED);
    var merged := Chunk(addr, x.size + CHUNK_INFO_SIZE + y.size, UNALLOCATED);
    r.(chunks := GrowLast([arr] + r.chunks[1..k] + [merged] + r.chunks[k + 2..]))
  }

  function MarkCulled(r: Region, j: nat): Region
    requires j < |r.chunks|
  {
    r.(usedSize := r.usedSize - (r.chunks[j].size + SLOT_COST),
       chunks := r.chunks[j := r.chunks[j].(flag := CULLED)])
  }

  /** cull of chunk `j`. When both neighbours are open the source gives the second merge the
      freed pointer as its address, although the first merge has already moved the chunk's start
      down; with `intended` it is given the merged chunk's own address. */
  function CullChunk(r: Region, j: nat, intended: bool): Region
    requires 2 <= j && j + 1 < |r.chunks|
  {
    var ptr := r.chunks[j].addr;
    var r1 := MarkCulled(r, j);
    if r1.chunks[j - 1].Open() then
      var r2 := MergeAt(r1, j - 1, r1.chunks[j - 1].addr);
      if r2.chunks[j].Open() then MergeAt(r2, j - 1, if intended then r2.chunks[j - 1].addr else ptr) else r2
    else if r1.chunks[j + 1].Open() then MergeAt(r1, j, ptr)
    else r1
  }

  // ---------------------------------------------------------------- tiling

  /** Bytes taken by a run of chunks, headers included. */
  ghost function Span(s: seq<Chunk>): int {
    if s == [] then 0 else CHUNK_INFO_SIZE + s[0].size + Span(s[1..])
  }

  /** Headers and payloads follow one another from `start` without gap or overlap. */
  ghost predicate Chain(s: seq<Chunk>, start: int) {
    s != [] ==>
      && s[0].size >= 0 && s[0].addr == start + CHUNK_INFO_SIZE
      && Chain(s[1..], start + CHUNK_INFO_SIZE + s[0].size)
  }

  /** Chunks, then the chunk array's header, then the array, fill `[base, base + allocSize)`. */
  ghost predicate Tiled(r: Region) {
    && |r.chunks| >= 3
    && Chain(r.chunks[1..], r.base)
    && r.base + Span(r.chunks[1..]) + CHUNK_INFO_SIZE == r.chunks[0].addr
    && r.chunks[0].size == |r.chunks| * CHUNK_ARR
    && r.chunks[0].addr + r.chunks[0].size == r.base + r.allocSize
  }

  lemma {:induction false} ChainConcat(a: seq<Chunk>, b: seq<Chunk>, start: int)
    ensures Span(a + b) == Span(a) + Span(b)
    ensures Chain(a + b, start) <==> Chain(a, start) && Chain(b, start + Span(a))
  {
    if a == [] {
      assert a + b == b;
    } else {
      assert (a + b)[1..] == a[1..] + b;
      ChainConcat(a[1..], b, start + CHUNK_INFO_SIZE + a[0].size);
    }
  }

  /** Payloads never overlap another chunk's header or payload, nor the chunk array. */
  lemma {:induction false} ChainOrder(s: seq<Chunk>, start: int, i: nat, j: nat)
    requires Chain(s, start) && i < j < |s|
    ensures s[i].size >= 0 && s[j].size >= 0
    ensures start + CHUNK_INFO_SIZE <= s[i].addr
    ensures s[i].addr + s[i].size <= s[j].addr - CHUNK_INFO_SIZE
    ensures s[j].addr + s[j].size <= start + Span(s)
  {
    ChainConcat(s[..i], s[i..], start);
    assert s == s[..i] + s[i..];
    ChainConcat(s[i..j], s[j..], start + Span(s[..i]));
    assert s[i..] == s[i..j] + s[j..];
    SpanNonnegative(s[..i], start);
    ChainConcat([s[i]], s[i + 1..j], start + Span(s[..i]));
    assert s[i..j] == [s[i]] + s[i + 1..j];
    SpanNonnegative(s[i + 1..j], start + Span(s[..i]) + CHUNK_INFO_SIZE + s[i].size);
    SpanNonnegative(s[j + 1..], s[j].addr + s[j].size);
    assert s[j..] == [s[j]] + s[j + 1..];
  }

  lemma {:induction false} SpanNonnegative(s: seq<Chunk>, start: int)
    requires Chain(s, start)
    ensures Span(s) >= 0
  {
    if s != [] { SpanNonnegative(s[1..], start + CHUNK_INFO_SIZE + s[0].size); }
  }

  /** Every byte of the chain belongs to some chunk. */
  lemma {:induction false} ChainCovers(s: seq<Chunk>, start: int, x: int) returns (k: nat)
    requires Chain(s, start) && start <= x < start + Span(s)
    ensures k < |s| && s[k].addr - CHUNK_INFO_SIZE <= x < s[k].addr + s[k].size
  {
    if x < start + CHUNK_INFO_SIZE + s[0].size {
      k := 0;
    } else {
      k := ChainCovers(s[1..], start + CHUNK_INFO_SIZE + s[0].size, x);
      k := k + 1;
    }
  }

  lemma {:induction false} ChainGrowLast(s: seq<Chunk>, start: int)
    requires s != []
    ensures Span(GrowLast(s)) == Span(s) + CHUNK_ARR
    ensures Chain(s, start) ==> Chain(GrowLast(s), start)
    ensures Chain(GrowLast(s), start) && Last(s).size >= 0 ==> Chain(s, start)
  {
    var m := |s| - 1;
    var g := Last(s).(size := Last(s).size + CHUNK_ARR);
    assert s == s[..m] + [Last(s)] && GrowLast(s) == s[..m] + [g];
    ChainConcat(s[..m], [Last(s)], start);
    ChainConcat(s[..m], [g], start);
  }

  lemma PairChain(x: Chunk, y: Chunk, start: int)
    ensures Span([x, y]) == 2 * CHUNK_INFO_SIZE + x.size + y.size
    ensures Chain([x, y], start) <==>
      && x.size >= 0 && x.addr == start + CHUNK_INFO_SIZE
      && y.size >= 0 && y.addr == x.addr + x.size + CHUNK_INFO_SIZE
  {
    assert [x, y] == [x] + [y];
    ChainConcat([x], [y], start);
  }

  lemma NewRegionTiled(base: int, size: int)
    requires size >= NEW_REGION_SIZE
    ensures Tiled(NewRegion(base, size))
  {
    var c := NewRegion(base, size).chunks;
    assert c[1..] == [c[1], c[2]];
    PairChain(c[1], c[2], base);
  }

  /** Carving keeps the tiling exactly when the truncated size was not truncated. */
  lemma CarveTiled(r: Region, n: nat)
    requires Tiled(r) && Fits(r, n) && n < 0x1_0000_0000 && Last(r.chunks).size < 0x8000_0000
    ensures Tiled(Carve(r, n)) <==> n + SLOT_COST < 0x8000_0000
  {
    var m, tail, c := |r.chunks|, Last(r.chunks), Carve(r, n).chunks;
    var pre := r.chunks[1..m - 1];
    var cut := [c[m - 1], c[m]];
    assert r.chunks[1..] == pre + [tail];
    assert c[1..] == pre + cut;
    ChainConcat(pre, [tail], r.base);
    ChainConcat(pre, cut, r.base);
    PairChain(c[m - 1], c[m], r.base + Span(pre));
  }

  /** The chunk list after a merge. */
  lemma MergeList(r: Region, k: nat, addr: int)
    requires 1 <= k && k + 1 < |r.chunks|
    ensures var c, pre, post := MergeAt(r, k, addr).chunks, r.chunks[1..k], r.chunks[k + 2..];
      var x, y := r.chunks[k], r.chunks[k + 1];
      var z := Chunk(addr, x.size + CHUNK_INFO_SIZE + y.size, UNALLOCATED);
      && |c| == |r.chunks| - 1 && c[1..] == GrowLast(pre + ([z] + post))
      && c[0].addr == r.chunks[0].addr + CHUNK_ARR
      && c[0].size == r.chunks[0].size - CHUNK_ARR
      && r.chunks[1..] == pre + ([x, y] + post)
  {
    var pre, post := r.chunks[1..k], r.chunks[k + 2..];
    var z := Chunk(addr, r.chunks[k].size + CHUNK_INFO_SIZE + r.chunks[k + 1].size, UNALLOCATED);
    var arr := Chunk(r.chunks[0].addr + CHUNK_ARR, r.chunks[0].size - CHUNK_ARR, RESERVED);
    assert [arr] + pre + [z] + post == [arr] + (pre + ([z] + post));
  }

  /** Joining two neighbours keeps a chain exactly when the result starts where the left did. */
  lemma MergeChain(pre: seq<Chunk>, x: Chunk, y: Chunk, z: Chunk, post: seq<Chunk>, start: int)
    requires Chain(pre + ([x, y] + post), start) && z.size == x.size + CHUNK_INFO_SIZE + y.size
    ensures Span(pre + ([z] + post)) == Span(pre + ([x, y] + post))
    ensures Chain(pre + ([z] + post), start) <==> z.addr == x.addr
    ensures Last(pre + ([z] + post)).size >= 0
  {
    var mid := start + Span(pre);
    ChainConcat(pre, [x, y] + post, start);
    ChainConcat(pre, [z] + post, start);
    PairChain(x, y, mid);
    ChainConcat([x, y], post, mid);
    ChainConcat([z], post, mid);
    if post != [] {
      assert Last(pre + ([z] + post)) == Last(post);
      LastSize(post, mid + Span([x, y]));
    }
  }

  lemma LastSize(s: seq<Chunk>, start: int)
    requires Chain(s, start) && s != []
    ensures Last(s).size >= 0
  {
    var m := |s| - 1;
    assert s == s[..m] + [Last(s)];
    ChainConcat(s[..m], [Last(s)], start);
  }

  /** A merge keeps the tiling exactly when it is given the left chunk's address. */
  lemma MergeTiled(r: Region, k: nat, addr: int)
    requires Tiled(r) && 1 <= k && k + 1 < |r.chunks| && |r.chunks| > 3
    ensures Tiled(MergeAt(r, k, addr)) <==> addr == r.chunks[k].addr
  {
    hide Chain, Span, MergeAt, GrowLast;
    MergeList(r, k, addr);
    var x, y, pre, post := r.chunks[k], r.chunks[k + 1], r.chunks[1..k], r.chunks[k + 2..];
    var z := Chunk(addr, x.size + CHUNK_INFO_SIZE + y.size, UNALLOCATED);
    MergeChain(pre, x, y, z, post, r.base);
    ChainGrowLast(pre + ([z] + post), r.base);
    MergeFrame(r, k, addr);
  }

  lemma MergeFrame(r: Region, k: nat, addr: int)
    requires 1 <= k && k + 1 < |r.chunks|
    ensures MergeAt(r, k, addr).base == r.base && MergeAt(r, k, addr).allocSize == r.allocSize
    ensures MergeAt(r, k, addr).usedSize == r.usedSize
  {
  }

  lemma MarkTiled(r: Region, j: nat)
    requires Tiled(r) && 1 <= j < |r.chunks|
    ensures Tiled(MarkCulled(r, j))
  {
    hide Chain, Span;
    var c, x := MarkCulled(r, j).chunks, r.chunks[j].(flag := CULLED);
    var pre, post := r.chunks[1..j], r.chunks[j + 1..];
    assert r.chunks[1..] == pre + ([r.chunks[j]] + post);
    assert c[1..] == pre + ([x] + post);
    SameExtent(pre, r.chunks[j], x, post, r.base);
  }

  /** A chain depends on addresses and sizes only. */
  lemma SameExtent(pre: seq<Chunk>, x: Chunk, y: Chunk, post: seq<Chunk>, start: int)
    requires x.addr == y.addr && x.size == y.size
    ensures Span(pre + ([x] + post)) == Span(pre + ([y] + post))
    ensures Chain(pre + ([x] + post), start) <==> Chain(pre + ([y] + post), start)
  {
    ChainConcat(pre, [x] + post, start);
    ChainConcat(pre, [y] + post, start);
    ChainConcat([x], post, start + Span(pre));
    ChainConcat([y], post, start + Span(pre));
  }

  /** A live user block: reserved, and neither bookkeeping nor the tail. */
  ghost predicate Live(r: Region, j: int) {
    2 <= j && j + 1 < |r.chunks| && r.chunks[j].flag == RESERVED
  }

  /** Both neighbours of chunk `j` are open. */
  ghost predicate TwoSided(r: Region, j: nat)
    requires Live(r, j)
  {
    r.chunks[j - 1].Open() && r.chunks[j + 1].Open()
  }

  /** cull as written keeps the tiling exactly when the block has a reserved neighbour; with the
      intended address it always does. */
  lemma CullTiled(r: Region, j: nat, intended: bool)
    requires Tiled(r) && Live(r, j) && r.chunks[1].flag == RESERVED
    ensures Tiled(CullChunk(r, j, intended)) <==> intended || !TwoSided(r, j)
  {
    hide Chain, Span;
    var r1 := MarkCulled(r, j);
    MarkTiled(r, j);
    if r1.chunks[j - 1].Open() {
      var r2 := MergeAt(r1, j - 1, r1.chunks[j - 1].addr);
      MergeTiled(r1, j - 1, r1.chunks[j - 1].addr);
      MergeLocal(r1, j - 1, r1.chunks[j - 1].addr);
      if r2.chunks[j].Open() {
        var ptr := r.chunks[j].addr;
        assert r2.chunks[j - 1].addr != ptr by { TiledOrder(r1, j - 1, j); }
        MergeTiled(r2, j - 1, if intended then r2.chunks[j - 1].addr else ptr);
      }
    } else if r1.chunks[j + 1].Open() {
      MergeTiled(r1, j, r.chunks[j].addr);
    }
  }

  /** Entries of a merged chunk list. */
  lemma MergeLocal(r: Region, k: nat, addr: int)
    requires 1 <= k && k + 1 < |r.chunks|
    ensures var c := MergeAt(r, k, addr).chunks;
      && |c| == |r.chunks| - 1
      && (forall i :: 1 <= i < k ==> c[i] == r.chunks[i])
      && c[k].addr == addr && c[k].flag == UNALLOCATED
      && (forall i :: k < i < |c| ==> c[i].addr == r.chunks[i + 1].addr && c[i].flag == r.chunks[i + 1].flag)
  {
  }

  /** In a tiled region two chunks are disjoint, and both end before the chunk array's header. */
  lemma TiledOrder(r: Region, i: nat, j: nat)
    requires Tiled(r) && 1 <= i < j < |r.chunks|
    ensures r.chunks[i].size >= 0 && r.chunks[j].size >= 0
    ensures r.base + CHUNK_INFO_SIZE <= r.chunks[i].addr
    ensures r.chunks[i].addr + r.chunks[i].size <= r.chunks[j].addr - CHUNK_INFO_SIZE
    ensures r.chunks[j].addr + r.chunks[j].size <= r.chunks[0].addr - CHUNK_INFO_SIZE
  {
    var s := r.chunks[1..];
    assert s[i - 1] == r.chunks[i] && s[j - 1] == r.chunks[j];
    ChainOrder(s, r.base, i - 1, j - 1);
  }

  /** Every byte of a tiled region belongs to a chunk, the array's header or the array. */
  lemma TiledCovers(r: Region, x: int) returns (k: nat)
    requires Tiled(r) && r.base <= x < r.base + r.allocSize
    ensures k < |r.chunks| && r.chunks[k].addr - CHUNK_INFO_SIZE <= x < r.chunks[k].addr + r.chunks[k].size
  {
    var s := r.chunks[1..];
    if x < r.base + Span(s) {
      k := ChainCovers(s, r.base, x);
      k := k + 1;
    } else {
      k := 0;
    }
  }

  // ---------------------------------------------------------------- sizes and flags

  /** Bytes charged for live blocks. */
  ghost function LiveCost(s: seq<Chunk>): int {
    if s == [] then 0 else (if s[0].Open() then 0 else s[0].size + SLOT_COST) + LiveCost(s[1..])
  }

  /** Payload and slot of every open chunk. */
  ghost function OpenCost(s: seq<Chunk>): int {
    if s == [] then 0 else (if s[0].Open() then s[0].size + SLOT_COST else 0) + OpenCost(s[1..])
  }

  ghost predicate NoOpenPair(s: seq<Chunk>) {
    forall i :: 0 <= i && i + 1 < |s| ==> !s[i].Open() || !s[i + 1].Open()
  }

  /** From `x` to the next header: the payload of a reserved chunk lies in between. */
  ghost predicate Gap(x: Chunk, y: Chunk) {
    (x.Open() || x.size >= 0) && x.addr + (if x.Open() then 0 else x.size) + CHUNK_INFO_SIZE <= y.addr
  }

  /** Headers are disjoint and keep clear of live payloads, up to the header of the chunk array. */
  ghost predicate Guarded(r: Region) {
    && |r.chunks| >= 3
    && r.chunks[1].addr == r.base + CHUNK_INFO_SIZE
    && (forall i :: 1 <= i && i + 1 < |r.chunks| ==> Gap(r.chunks[i], r.chunks[i + 1]))
    && Last(r.chunks).addr + CHUNK_INFO_SIZE <= r.chunks[0].addr
  }

  /** The bookkeeping chunks are in place and the sizes add up. The tail's slot is not charged. */
  ghost predicate Balanced(r: Region) {
    && Guarded(r)
    && r.chunks[0].flag == RESERVED && r.chunks[1].flag == RESERVED
    && Last(r.chunks).flag == UNALLOCATED
    && r.chunks[0].size == |r.chunks| * CHUNK_ARR
    && r.chunks[0].addr + r.chunks[0].size == r.base + r.allocSize
    && r.usedSize == NEW_REGION_SIZE + LiveCost(r.chunks[2..])
    && r.usedSize + OpenCost(r.chunks[2..]) - SLOT_COST == r.allocSize
  }

  /** What cull always keeps, two-sided merges included, and alloc keeps when there is room. */
  ghost predicate Sound(r: Region) {
    Balanced(r) && NoOpenPair(r.chunks[1..])
  }

  /** The block, its slot and the next header fit below the header of the chunk array. */
  predicate Room(r: Region, n: nat)
    requires r.chunks != []
  {
    Last(r.chunks).addr + n + 2 * CHUNK_INFO_SIZE + CHUNK_ARR <= r.chunks[0].addr
  }

  /** In a tiled region the size test of alloc leaves room exactly when the size is not truncated. */
  lemma TiledRoom(r: Region, n: nat)
    requires Tiled(r) && Fits(r, n) && n < 0x1_0000_0000 && Last(r.chunks).size < 0x8000_0000
    ensures Room(r, n) <==> n + SLOT_COST < 0x8000_0000
  {
    var s := r.chunks[1..];
    ChainEnd(s, r.base);
  }

  lemma {:induction false} ChainEnd(s: seq<Chunk>, start: int)
    requires Chain(s, start) && s != []
    ensures Last(s).addr + Last(s).size == start + Span(s)
  {
    if |s| > 1 { ChainEnd(s[1..], start + CHUNK_INFO_SIZE + s[0].size); }
  }

  lemma {:induction false} GuardOrder(r: Region, i: nat, j: nat)
    requires Guarded(r) && 1 <= i < j < |r.chunks|
    ensures Gap(r.chunks[i], r.chunks[j])
    decreases j - i
  {
    assert Gap(r.chunks[i], r.chunks[i + 1]);
    if i + 1 < j { GuardOrder(r, i + 1, j); }
  }

  /** Even where the tiling is lost, live payloads, headers and the chunk array stay disjoint. */
  lemma SoundApart(r: Region, i: nat, j: nat)
    requires Sound(r) && 1 <= i < j < |r.chunks|
    ensures var x, y := r.chunks[i], r.chunks[j];
      && r.base + CHUNK_INFO_SIZE <= x.addr && (x.Open() || x.size >= 0)
      && x.addr + (if x.Open() then 0 else x.size) <= y.addr - CHUNK_INFO_SIZE
      && y.addr + (if y.Open() then 0 else y.size) <= r.chunks[0].addr - CHUNK_INFO_SIZE
  {
    GuardOrder(r, i, j);
    if i > 1 { GuardOrder(r, 1, i); }
    if j < |r.chunks| - 1 { GuardOrder(r, j, |r.chunks| - 1); }
  }

  lemma {:induction false} CostConcat(a: seq<Chunk>, b: seq<Chunk>)
    ensures LiveCost(a + b) == LiveCost(a) + LiveCost(b)
    ensures OpenCost(a + b) == OpenCost(a) + OpenCost(b)
  {
    if a == [] {
      assert a + b == b;
    } else {
      assert (a + b)[1..] == a[1..] + b;
      CostConcat(a[1..], b);
    }
  }

  lemma SingleCost(x: Chunk)
    ensures LiveCost([x]) == if x.Open() then 0 else x.size + SLOT_COST
    ensures OpenCost([x]) == if x.Open() then x.size + SLOT_COST else 0
  {
  }

  lemma PairCost(x: Chunk, y: Chunk)
    ensures LiveCost([x, y]) == LiveCost([x]) + LiveCost([y]) && OpenCost([x, y]) == OpenCost([x]) + OpenCost([y])
  {
    assert [x, y] == [x] + [y];
    CostConcat([x], [y]);
  }

  lemma NewRegionSound(base: int, size: int)
    requires size >= NEW_REGION_SIZE
    ensures Sound(NewRegion(base, size))
  {
    var c := NewRegion(base, size).chunks;
    assert c[2..] == [c[2]];
  }

  /** Carving keeps the accounting and the guarded layout exactly when there is room. */
  lemma CarveSound(r: Region, n: nat)
    requires Sound(r) && Fits(r, n)
    ensures Sound(Carve(r, n)) <==> Room(r, n)
  {
    var m, tail, c := |r.chunks|, Last(r.chunks), Carve(r, n).chunks;
    var pre := r.chunks[2..m - 1];
    assert r.chunks[2..] == pre + [tail];
    assert c[2..] == pre + [c[m - 1], c[m]];
    CostConcat(pre, [tail]);
    CostConcat(pre, [c[m - 1], c[m]]);
    PairCost(c[m - 1], c[m]);
    CarveShape(r, n);
  }

  lemma CarveShape(r: Region, n: nat)
    requires Sound(r) && Fits(r, n)
    ensures NoOpenPair(Carve(r, n).chunks[1..])
    ensures Guarded(Carve(r, n)) <==> Room(r, n)
  {
    var m, c := |r.chunks|, Carve(r, n).chunks;
    var s, s' := r.chunks[1..], c[1..];
    assert forall i :: 0 <= i < m - 2 ==> s'[i] == s[i];
    assert forall i :: 1 <= i < m - 1 ==> c[i] == r.chunks[i];
    assert Gap(r.chunks[m - 2], r.chunks[m - 1]);
    assert c[m - 1].addr == r.chunks[m - 1].addr && c[m - 1].flag == RESERVED;
  }

  /** What one merge of two open chunks keeps. */
  lemma MergeCosts(r: Region, k: nat, addr: int)
    requires 2 <= k && k + 1 < |r.chunks| && r.chunks[k].Open() && r.chunks[k + 1].Open()
    requires Last(r.chunks).flag == UNALLOCATED
    ensures var r' := MergeAt(r, k, addr);
      && LiveCost(r'.chunks[2..]) == LiveCost(r.chunks[2..])
      && OpenCost(r'.chunks[2..]) == OpenCost(r.chunks[2..])
      && Last(r'.chunks).flag == UNALLOCATED && r'.chunks[1] == r.chunks[1]
      && r'.chunks[0] == Chunk(r.chunks[0].addr + CHUNK_ARR, r.chunks[0].size - CHUNK_ARR, RESERVED)
  {
    hide MergeAt, LiveCost, OpenCost;
    var x, y := r.chunks[k], r.chunks[k + 1];
    var z := Chunk(addr, x.size + CHUNK_INFO_SIZE + y.size, UNALLOCATED);
    var pre, post := r.chunks[2..k], r.chunks[k + 2..];
    SingleCost(x);
    SingleCost(y);
    SingleCost(z);
    assert r.chunks[2..] == pre + ([x, y] + post);
    CostConcat(pre, [x, y] + post);
    CostConcat([x, y], post);
    PairCost(x, y);
    var s := pre + ([z] + post);
    CostConcat(pre, [z] + post);
    CostConcat([z], post);
    MergeSplit(r, k, addr);
    GrowCost(s);
  }

  lemma MergeSplit(r: Region, k: nat, addr: int)
    requires 2 <= k && k + 1 < |r.chunks| && Last(r.chunks).flag == UNALLOCATED
    ensures var c := MergeAt(r, k, addr).chunks;
      var z := Chunk(addr, r.chunks[k].size + CHUNK_INFO_SIZE + r.chunks[k + 1].size, UNALLOCATED);
      var s := r.chunks[2..k] + ([z] + r.chunks[k + 2..]);
      && c[2..] == GrowLast(s) && Last(s).Open() && Last(c).flag == UNALLOCATED
      && c[1] == r.chunks[1]
      && c[0] == Chunk(r.chunks[0].addr + CHUNK_ARR, r.chunks[0].size - CHUNK_ARR, RESERVED)
  {
    var z := Chunk(addr, r.chunks[k].size + CHUNK_INFO_SIZE + r.chunks[k + 1].size, UNALLOCATED);
    var arr := Chunk(r.chunks[0].addr + CHUNK_ARR, r.chunks[0].size - CHUNK_ARR, RESERVED);
    var post := r.chunks[k + 2..];
    var whole := [arr] + r.chunks[1..k] + [z] + post;
    var s := r.chunks[2..k] + ([z] + post);
    assert whole == [arr, r.chunks[1]] + s;
    if post != [] { assert Last(s) == Last(r.chunks); }
  }

  lemma GrowCost(s: seq<Chunk>)
    requires s != [] && Last(s).Open()
    ensures LiveCost(GrowLast(s)) == LiveCost(s) && OpenCost(GrowLast(s)) == OpenCost(s) + CHUNK_ARR
  {
    var m := |s| - 1;
    var g := Last(s).(size := Last(s).size + CHUNK_ARR);
    assert s == s[..m] + [Last(s)] && GrowLast(s) == s[..m] + [g];
    CostConcat(s[..m], [Last(s)]);
    CostConcat(s[..m], [g]);
  }

  lemma MarkCosts(r: Region, j: nat)
    requires Live(r, j)
    ensures var r' := MarkCulled(r, j);
      && LiveCost(r'.chunks[2..]) == LiveCost(r.chunks[2..]) - (r.chunks[j].size + SLOT_COST)
      && OpenCost(r'.chunks[2..]) == OpenCost(r.chunks[2..]) + (r.chunks[j].size + SLOT_COST)
  {
    var x := r.chunks[j].(flag := CULLED);
    var pre, post := r.chunks[2..j], r.chunks[j + 1..];
    assert r.chunks[2..] == pre + ([r.chunks[j]] + post);
    assert MarkCulled(r, j).chunks[2..] == pre + ([x] + post);
    CostConcat(pre, [r.chunks[j]] + post);
    CostConcat(pre, [x] + post);
    CostConcat([r.chunks[j]], post);
    CostConcat([x], post);
  }

  lemma MarkBalanced(r: Region, j: nat)
    requires Balanced(r) && Live(r, j)
    ensures Balanced(MarkCulled(r, j))
  {
    hide LiveCost, OpenCost;
    MarkCosts(r, j);
    var c, c' := r.chunks, MarkCulled(r, j).chunks;
    forall i | 1 <= i && i + 1 < |c'| ensures Gap(c'[i], c'[i + 1]) {
      assert Gap(c[i], c[i + 1]);
    }
  }

  lemma MergeBalanced(r: Region, k: nat, addr: int)
    requires Balanced(r) && 2 <= k && k + 1 < |r.chunks| && r.chunks[k].Open() && r.chunks[k + 1].Open()
    requires r.chunks[k].addr <= addr <= r.chunks[k + 1].addr
    ensures Balanced(MergeAt(r, k, addr))
  {
    hide LiveCost, OpenCost, Guarded, MergeAt;
    assert |r.chunks| >= 3 by { GuardedSize(r); }
    MergeFrame(r, k, addr);
    MergeCosts(r, k, addr);
    MergeLocal(r, k, addr);
    MergeGuarded(r, k, addr);
  }

  lemma GuardedSize(r: Region)
    requires Guarded(r)
    ensures |r.chunks| >= 3
  {
  }

  lemma MergeGuarded(r: Region, k: nat, addr: int)
    requires Guarded(r) && 2 <= k && k + 1 < |r.chunks| && r.chunks[k].Open() && r.chunks[k + 1].Open()
    requires r.chunks[k].addr <= addr <= r.chunks[k + 1].addr
    ensures Guarded(MergeAt(r, k, addr))
  {
    hide MergeAt;
    MergeFrame(r, k, addr);
    MergeLocal(r, k, addr);
    MergeSizes(r, k, addr);
    var c, c' := r.chunks, MergeAt(r, k, addr).chunks;
    forall i | 1 <= i && i + 1 < |c'| ensures Gap(c'[i], c'[i + 1]) {
      if i < k {
        assert Gap(c[i], c[i + 1]);
      } else {
        assert Gap(c[i + 1], c[i + 2]);
      }
    }
  }

  /** A merge changes the size of the merged chunk and of the tail only. */
  lemma MergeSizes(r: Region, k: nat, addr: int)
    requires 1 <= k && k + 1 < |r.chunks|
    ensures var c := MergeAt(r, k, addr).chunks;
      && |c| == |r.chunks| - 1 && c[0].addr == r.chunks[0].addr + CHUNK_ARR
      && forall i :: k < i < |c| - 1 ==> c[i] == r.chunks[i + 1]
  {
  }

  /** No two open neighbours, by index in the whole chunk list. */
  ghost predicate FlagRule(r: Region) {
    forall i :: 1 <= i && i + 1 < |r.chunks| ==> !r.chunks[i].Open() || !r.chunks[i + 1].Open()
  }

  lemma CullRightSound(r: Region, j: nat)
    requires Balanced(r) && FlagRule(r) && Live(r, j) && !r.chunks[j - 1].Open() && r.chunks[j + 1].Open()
    ensures var r' := MergeAt(MarkCulled(r, j), j, r.chunks[j].addr); Balanced(r') && FlagRule(r')
  {
    hide LiveCost, OpenCost, MergeAt;
    var r1, ptr := MarkCulled(r, j), r.chunks[j].addr;
    MarkBalanced(r, j);
    GuardPair(r1, j);
    MergeBalanced(r1, j, ptr);
    MergeLocal(r1, j, ptr);
  }

  lemma CullLeftSound(r: Region, j: nat)
    requires Balanced(r) && FlagRule(r) && Live(r, j) && r.chunks[j - 1].Open()
    ensures var r2 := MergeAt(MarkCulled(r, j), j - 1, r.chunks[j - 1].addr);
      && Balanced(r2) && |r2.chunks| == |r.chunks| - 1
      && r2.chunks[j - 1].flag == UNALLOCATED && r2.chunks[j - 1].addr == r.chunks[j - 1].addr < r.chunks[j].addr
      && r2.chunks[j].addr == r.chunks[j + 1].addr > r.chunks[j].addr && r2.chunks[j].flag == r.chunks[j + 1].flag
      && (forall i :: 1 <= i && i + 1 < |r2.chunks| && i != j - 1 ==> !r2.chunks[i].Open() || !r2.chunks[i + 1].Open())
      && (r2.chunks[j].Open() && j + 1 < |r2.chunks| ==> !r2.chunks[j + 1].Open())
  {
    hide LiveCost, OpenCost, MergeAt;
    var r1, a := MarkCulled(r, j), r.chunks[j - 1].addr;
    MarkBalanced(r, j);
    GuardPair(r1, j - 1);
    GuardPair(r1, j);
    MergeBalanced(r1, j - 1, a);
    MergeLocal(r1, j - 1, a);
  }

  lemma CullBothSound(r2: Region, k: nat, addr: int)
    requires Balanced(r2) && 2 <= k && k + 1 < |r2.chunks| && r2.chunks[k].Open() && r2.chunks[k + 1].Open()
    requires r2.chunks[k].addr <= addr <= r2.chunks[k + 1].addr
    requires forall i :: 1 <= i && i + 1 < |r2.chunks| && i != k ==> !r2.chunks[i].Open() || !r2.chunks[i + 1].Open()
    ensures Balanced(MergeAt(r2, k, addr)) && FlagRule(MergeAt(r2, k, addr))
  {
    hide LiveCost, OpenCost, MergeAt;
    MergeBalanced(r2, k, addr);
    MergeLocal(r2, k, addr);
  }

  /** cull keeps the accounting and leaves no two open neighbours, as written or as intended. */
  lemma CullSound(r: Region, j: nat, intended: bool)
    requires Sound(r) && Live(r, j)
    ensures Sound(CullChunk(r, j, intended))
  {
    hide Balanced, MergeAt;
    FlagsOf(r);
    assert r.chunks[1].flag == RESERVED by { BalancedEnds(r); }
    if r.chunks[j - 1].Open() {
      var r2 := MergeAt(MarkCulled(r, j), j - 1, r.chunks[j - 1].addr);
      CullLeftSound(r, j);
      if r2.chunks[j].Open() {
        CullBothSound(r2, j - 1, if intended then r2.chunks[j - 1].addr else r.chunks[j].addr);
      }
    } else if r.chunks[j + 1].Open() {
      CullRightSound(r, j);
    } else {
      MarkBalanced(r, j);
    }
    var r' := CullChunk(r, j, intended);
    BalancedEnds(r');
    RuleOf(r');
  }

  lemma BalancedEnds(r: Region)
    requires Balanced(r)
    ensures |r.chunks| >= 3 && r.chunks[1].flag == RESERVED
  {
  }

  lemma FlagsOf(r: Region)
    requires |r.chunks| >= 1 && NoOpenPair(r.chunks[1..])
    ensures FlagRule(r)
  {
    var s := r.chunks[1..];
    forall i | 1 <= i && i + 1 < |r.chunks| ensures !r.chunks[i].Open() || !r.chunks[i + 1].Open() {
      assert s[i - 1] == r.chunks[i] && s[i - 1 + 1] == r.chunks[i + 1];
    }
  }

  lemma RuleOf(r: Region)
    requires |r.chunks| >= 3 && FlagRule(r)
    ensures NoOpenPair(r.chunks[1..])
  {
    var s := r.chunks[1..];
    assert forall i :: 0 <= i < |s| ==> s[i] == r.chunks[i + 1];
  }

  lemma GuardPair(r: Region, k: nat)
    requires Guarded(r) && 1 <= k && k + 1 < |r.chunks|
    ensures r.chunks[k].addr < r.chunks[k + 1].addr
  {
    assert Gap(r.chunks[k], r.chunks[k + 1]);
  }

  // ---------------------------------------------------------------- live blocks

  /** The reserved chunks among `s`, in order. */
  ghost function Reserved(s: seq<Chunk>): seq<Chunk> {
    if s == [] then [] else (if s[0].Open() then [] else [s[0]]) + Reserved(s[1..])
  }

  /** The live blocks of a region, in address order. */
  ghost function Blocks(r: Region): seq<Chunk>
    requires |r.chunks| >= 3
  {
    Reserved(r.chunks[2..])
  }

  lemma {:induction false} ReservedConcat(a: seq<Chunk>, b: seq<Chunk>)
    ensures Reserved(a + b) == Reserved(a) + Reserved(b)
  {
    if a == [] {
      assert a + b == b;
    } else {
      assert (a + b)[1..] == a[1..] + b;
      ReservedConcat(a[1..], b);
    }
  }

  lemma ReservedOne(x: Chunk)
    ensures Reserved([x]) == if x.Open() then [] else [x]
  {
  }

  /** One chunk among others. */
  lemma ReservedAmong(a: seq<Chunk>, x: Chunk, b: seq<Chunk>)
    ensures x.Open() ==> Reserved(a + ([x] + b)) == Reserved(a) + Reserved(b)
    ensures !x.Open() ==> Reserved(a + ([x] + b)) == Reserved(a) + [x] + Reserved(b)
  {
    hide Reserved;
    ReservedConcat(a, [x] + b);
    ReservedConcat([x], b);
    ReservedOne(x);
    assert [] + Reserved(b) == Reserved(b);
    assert Reserved(a) + ([x] + Reserved(b)) == Reserved(a) + [x] + Reserved(b);
  }

  lemma GrowReserved(s: seq<Chunk>)
    requires s != [] && Last(s).Open()
    ensures Reserved(GrowLast(s)) == Reserved(s)
  {
    var a, x, y := s[..|s| - 1], Last(s), Last(GrowLast(s));
    assert s == a + [x] && GrowLast(s) == a + [y];
    ReservedConcat(a, [x]);
    ReservedConcat(a, [y]);
  }

  /** Every live block is listed. */
  lemma LiveListed(r: Region, j: nat)
    requires Live(r, j)
    ensures r.chunks[j] in Blocks(r)
  {
    hide Reserved;
    assert r.chunks[2..] == r.chunks[2..j] + ([r.chunks[j]] + r.chunks[j + 1..]);
    ReservedAmong(r.chunks[2..j], r.chunks[j], r.chunks[j + 1..]);
  }

  /** Carving adds the new block after all others. */
  lemma CarveBlocks(r: Region, n: nat)
    requires |r.chunks| >= 3 && Last(r.chunks).Open()
    ensures |Carve(r, n).chunks| >= 3
    ensures Blocks(Carve(r, n)) == Blocks(r) + [Chunk(Last(r.chunks).addr, n, RESERVED)]
  {
    var m, tail := |r.chunks|, Last(r.chunks);
    var a := r.chunks[2..m - 1];
    var x, y := Chunk(tail.addr, n, RESERVED), Last(Carve(r, n).chunks);
    assert r.chunks[2..] == a + [tail];
    assert Carve(r, n).chunks[2..] == a + ([x] + [y]);
    ReservedConcat(a, [tail]);
    ReservedConcat(a, [x] + [y]);
    ReservedConcat([x], [y]);
  }

  /** Merging open chunks moves no block. */
  lemma MergeBlocks(r: Region, k: nat, addr: int)
    requires 2 <= k && k + 1 < |r.chunks| && r.chunks[k].Open() && r.chunks[k + 1].Open()
    requires Last(r.chunks).flag == UNALLOCATED
    ensures |MergeAt(r, k, addr).chunks| >= 3
    ensures Blocks(MergeAt(r, k, addr)) == Blocks(r)
    ensures Last(MergeAt(r, k, addr).chunks).flag == UNALLOCATED
  {
    hide MergeAt, Reserved, GrowLast;
    MergeLocal(r, k, addr);
    MergeSplit(r, k, addr);
    var x, y := r.chunks[k], r.chunks[k + 1];
    var z := Chunk(addr, x.size + CHUNK_INFO_SIZE + y.size, UNALLOCATED);
    var a, b := r.chunks[2..k], r.chunks[k + 2..];
    GrowReserved(a + ([z] + b));
    ReservedAmong(a, z, b);
    OpenPair(a, x, y, b);
    assert r.chunks[2..] == a + ([x] + ([y] + b));
  }

  lemma OpenPair(a: seq<Chunk>, x: Chunk, y: Chunk, b: seq<Chunk>)
    requires x.Open() && y.Open()
    ensures Reserved(a + ([x] + ([y] + b))) == Reserved(a) + Reserved(b)
  {
    hide Reserved;
    ReservedAmong(a, x, [y] + b);
    ReservedAmong([], y, b);
    assert [] + ([y] + b) == [y] + b;
    NoReserved();
  }

  lemma NoReserved()
    ensures Reserved([]) == []
  {
  }

  /** Culling removes exactly the block's entry from the live blocks, as written or as intended. */
  lemma CullBlocks(r: Region, j: nat, intended: bool)
    requires Live(r, j) && r.chunks[1].flag == RESERVED && Last(r.chunks).flag == UNALLOCATED
    ensures |CullChunk(r, j, intended).chunks| >= 3
    ensures Blocks(r) == Reserved(r.chunks[2..j]) + [r.chunks[j]] + Reserved(r.chunks[j + 1..])
    ensures Blocks(CullChunk(r, j, intended)) == Reserved(r.chunks[2..j]) + Reserved(r.chunks[j + 1..])
  {
    hide MergeAt, Reserved;
    var a, x, b := r.chunks[2..j], r.chunks[j], r.chunks[j + 1..];
    var r1, y := MarkCulled(r, j), x.(flag := CULLED);
    assert r.chunks[2..] == a + ([x] + b);
    assert r1.chunks[2..] == a + ([y] + b);
    ReservedAmong(a, x, b);
    ReservedAmong(a, y, b);
    if r1.chunks[j - 1].Open() {
      var r2 := MergeAt(r1, j - 1, r1.chunks[j - 1].addr);
      MergeLocal(r1, j - 1, r1.chunks[j - 1].addr);
      MergeBlocks(r1, j - 1, r1.chunks[j - 1].addr);
      if r2.chunks[j].Open() {
        MergeBlocks(r2, j - 1, if intended then r2.chunks[j - 1].addr else x.addr);
      }
    } else if r1.chunks[j + 1].Open() {
      MergeBlocks(r1, j, x.addr);
    }
  }

  // ---------------------------------------------------------------- runs

  datatype Op = Alloc(n: nat) | Cull(j: nat)

  /** The operation concerns this region: the request fits, or the block is live. */
  ghost predicate Enabled(r: Region, op: Op) {
    |r.chunks| >= 3 && match op case Alloc(n) => Fits(r, n) case Cull(j) => Live(r, j)
  }

  ghost function Apply(r: Region, op: Op, intended: bool): Region
    requires Enabled(r, op)
  {
    match op case Alloc(n) => Carve(r, n) case Cull(j) => CullChunk(r, j, intended)
  }

  /** The region after the given operations, or nothing if one of them is not enabled. */
  ghost predicate Runs(r: Region, ops: seq<Op>, intended: bool, r': Region)
    decreases ops
  {
    if ops == [] then r' == r
    else Enabled(r, ops[0]) && Runs(Apply(r, ops[0], intended), ops[1..], intended, r')
  }

  /** Every request finds room below the header of the chunk array. */
  ghost predicate Roomy(r: Region, ops: seq<Op>, intended: bool)
    decreases ops
  {
    ops != [] && Enabled(r, ops[0]) ==>
      && (ops[0].Alloc? ==> Room(r, ops[0].n))
      && Roomy(Apply(r, ops[0], intended), ops[1..], intended)
  }

  /** Over any run in which requests find room, sizes, flags and the guarded layout stay sound. */
  lemma {:induction false} RunSound(r: Region, ops: seq<Op>, intended: bool, r': Region)
    requires Sound(r) && Runs(r, ops, intended, r') && Roomy(r, ops, intended)
    ensures Sound(r') && r'.base == r.base && r'.allocSize == r.allocSize
    decreases ops
  {
    hide Sound, Carve, CullChunk, Room, Fits;
    if ops != [] {
      match ops[0] {
        case Alloc(n) => CarveSound(r, n); CarveFrame(r, n);
        case Cull(j) => CullSound(r, j, intended); CullFrame(r, j, intended);
      }
      RunSound(Apply(r, ops[0], intended), ops[1..], intended, r');
    }
  }

  lemma CarveFrame(r: Region, n: nat)
    requires |r.chunks| >= 2
    ensures Carve(r, n).base == r.base && Carve(r, n).allocSize == r.allocSize
  {
  }

  lemma CullFrame(r: Region, j: nat, intended: bool)
    requires Live(r, j)
    ensures CullChunk(r, j, intended).base == r.base && CullChunk(r, j, intended).allocSize == r.allocSize
  {
  }

  /** Requests are not truncated, and no culled block has two open neighbours unless merges use
      the intended address. */
  ghost predicate Clean(r: Region, ops: seq<Op>, intended: bool)
    decreases ops
  {
    ops != [] && Enabled(r, ops[0]) ==>
      && (match ops[0]
          case Alloc(n) => n + SLOT_COST < 0x8000_0000
          case Cull(j) => intended || !TwoSided(r, j))
      && Clean(Apply(r, ops[0], intended), ops[1..], intended)
  }

  /** Over any clean run the chunks tile the region, and so every request finds room. */
  lemma {:induction false} RunTiled(r: Region, ops: seq<Op>, intended: bool, r': Region)
    requires Sound(r) && Tiled(r) && r.allocSize < 0x8000_0000
    requires Runs(r, ops, intended, r') && Clean(r, ops, intended)
    ensures Tiled(r') && Roomy(r, ops, intended)
    decreases ops
  {
    hide Sound, Tiled, Carve, CullChunk, Room, Fits;
    if ops != [] {
      match ops[0] {
        case Alloc(n) =>
          TailFitsInt(r);
          TiledRoom(r, n);
          CarveTiled(r, n);
          CarveSound(r, n);
          CarveFrame(r, n);
        case Cull(j) =>
          SoundEnds(r);
          CullTiled(r, j, intended);
          CullSound(r, j, intended);
          CullFrame(r, j, intended);
      }
      RunTiled(Apply(r, ops[0], intended), ops[1..], intended, r');
    }
  }

  lemma SoundEnds(r: Region)
    requires Sound(r)
    ensures |r.chunks| >= 3 && r.chunks[1].flag == RESERVED && Last(r.chunks).flag == UNALLOCATED
  {
  }

  lemma TailFitsInt(r: Region)
    requires Tiled(r) && r.allocSize < 0x8000_0000
    ensures Last(r.chunks).size < 0x8000_0000
  {
    TiledOrder(r, 1, |r.chunks| - 1);
  }

  ghost predicate NoLiveBlock(r: Region) {
    forall j :: !Live(r, j)
  }

  /** Once every block has been culled, in whatever order, three chunks and the original free
      size are left, even as written. */
  lemma AllCulled(base: int, size: int, ops: seq<Op>, intended: bool, r: Region)
    requires size >= NEW_REGION_SIZE && Runs(NewRegion(base, size), ops, intended, r) && NoLiveBlock(r)
    requires Roomy(NewRegion(base, size), ops, intended)
    ensures |r.chunks| == 3 && r.usedSize == NEW_REGION_SIZE && r.chunks[2].size == size - NEW_REGION_SIZE
  {
    NewRegionSound(base, size);
    RunSound(NewRegion(base, size), ops, intended, r);
    FlagsOf(r);
    var m := |r.chunks| - 2;
    assert !Live(r, m);
    assert !r.chunks[m].Open();
    assert r.chunks[2..] == [r.chunks[2]];
    SingleCost(r.chunks[2]);
  }

  /** With the intended address the region is then exactly as created. */
  lemma AllCulledRestores(base: int, size: int, ops: seq<Op>, r: Region)
    requires NEW_REGION_SIZE <= size < 0x8000_0000 && Runs(NewRegion(base, size), ops, true, r) && NoLiveBlock(r)
    requires Clean(NewRegion(base, size), ops, true)
    ensures r == NewRegion(base, size)
  {
    var r0 := NewRegion(base, size);
    NewRegionSound(base, size);
    NewRegionTiled(base, size);
    RunTiled(r0, ops, true, r);
    AllCulled(base, size, ops, true, r);
    RunSound(r0, ops, true, r);
    assert r.chunks[1..] == [r.chunks[1], r.chunks[2]];
    PairChain(r.chunks[1], r.chunks[2], base);
    assert r.chunks == [r.chunks[0], r.chunks[1], r.chunks[2]];
  }

  // A region of 4096 bytes: two blocks are allocated, then culled in the same order.

  ghost function Demo(step: nat): Region
    requires step <= 4
  {
    var info, a := Chunk(24, 32, RESERVED), Chunk(80, 100, RESERVED);
    var b, tail := Chunk(204, 50, RESERVED), Chunk(278, 3754, UNALLOCATED);
    if step == 0 then Region(0, 4096, 128, [Chunk(4072, 24, RESERVED), info, Chunk(80, 3968, UNALLOCATED)])
    else if step == 1 then Region(0, 4096, 260, [Chunk(4064, 32, RESERVED), info, a, Chunk(204, 3836, UNALLOCATED)])
    else if step == 2 then Region(0, 4096, 342, [Chunk(4056, 40, RESERVED), info, a, b, tail])
    else if step == 3 then Region(0, 4096, 210, [Chunk(4056, 40, RESERVED), info, a.(flag := CULLED), b, tail])
    else Region(0, 4096, 128, [Chunk(4072, 24, RESERVED), info, Chunk(204, 3968, UNALLOCATED)])
  }

  lemma DemoAllocs()
    ensures NewRegion(0, 4096) == Demo(0)
    ensures Fits(Demo(0), 100) && Carve(Demo(0), 100) == Demo(1)
    ensures Fits(Demo(1), 50) && Carve(Demo(1), 50) == Demo(2)
  {
    assert Carve(Demo(0), 100).chunks == Demo(1).chunks;
    assert Carve(Demo(1), 50).chunks == Demo(2).chunks;
  }

  lemma DemoCulls()
    ensures Live(Demo(2), 2) && CullChunk(Demo(2), 2, false) == Demo(3)
    ensures Live(Demo(3), 3) && CullChunk(Demo(3), 3, false) == Demo(4)
  {
    assert CullChunk(Demo(2), 2, false).chunks == Demo(3).chunks;
    var m := Region(0, 4096, 128, [Chunk(4064, 32, RESERVED), Chunk(24, 32, RESERVED), Chunk(80, 174, UNALLOCATED),
                                   Chunk(278, 3762, UNALLOCATED)]);
    assert MergeAt(MarkCulled(Demo(3), 3), 2, 80).chunks == m.chunks;
    assert MergeAt(m, 2, 204).chunks == Demo(4).chunks;
  }

  /** As written, culling a block between two open chunks breaks the tiling: here the tail comes
      to reach past the end of the region. */
  lemma TwoSidedBreaks() returns (ops: seq<Op>, r: Region)
    ensures ops == [Alloc(100), Alloc(50), Cull(2), Cull(3)] && r == Demo(4)
    ensures Runs(NewRegion(0, 4096), ops, false, r) && NoLiveBlock(r) && !Tiled(r)
    ensures |r.chunks| == 3 && Last(r.chunks).addr + Last(r.chunks).size > r.base + r.allocSize
  {
    DemoAllocs();
    DemoCulls();
    r := Demo(4);
    assert |r.chunks| == 3 && Last(r.chunks).addr + Last(r.chunks).size > r.base + r.allocSize;
    hide Carve, CullChunk, Demo, NewRegion;
    RunStep(Demo(3), Cull(3), [], r);
    RunStep(Demo(2), Cull(2), [Cull(3)], r);
    RunStep(Demo(1), Alloc(50), [Cull(2), Cull(3)], r);
    RunStep(Demo(0), Alloc(100), [Alloc(50), Cull(2), Cull(3)], r);
    ops := [Alloc(100)] + ([Alloc(50)] + ([Cull(2)] + [Cull(3)]));
    assert [Cull(3)] == [Cull(3)] + [] && [Cull(2), Cull(3)] == [Cull(2)] + [Cull(3)];
    assert [Alloc(50), Cull(2), Cull(3)] == [Alloc(50)] + ([Cull(2)] + [Cull(3)]);
    TwoSidedTail(r);
  }

  lemma RunStep(r: Region, op: Op, ops: seq<Op>, r': Region)
    requires Enabled(r, op) && Runs(Apply(r, op, false), ops, false, r')
    ensures Runs(r, [op] + ops, false, r')
  {
    assert ([op] + ops)[1..] == ops;
  }

  lemma TwoSidedTail(r: Region)
    requires |r.chunks| >= 3 && Last(r.chunks).addr + Last(r.chunks).size > r.base + r.allocSize
    ensures !Tiled(r)
  {
    if Tiled(r) { TiledOrder(r, 1, |r.chunks| - 1); }
  }

  /**
   The room is needed: after the run of TwoSidedBreaks, a request of 3850 bytes passes the size
   test, and the header of the new tail (bytes 4054 to 4077) lies over the header of the chunk
   array, which ends at 4064, and over the array's first slot.
   */
  lemma RoomNeeded() returns (r: Region)
    ensures Runs(NewRegion(0, 4096), [Alloc(100), Alloc(50), Cull(2), Cull(3)], false, r) && Sound(r)
    ensures Fits(r, 3850) && !Room(r, 3850) && !Sound(Carve(r, 3850))
    ensures var c := Carve(r, 3850).chunks;
      Last(c).addr - CHUNK_INFO_SIZE == 4054 && c[0].addr == 4064 && Last(c).addr == 4078
  {
    hide Sound, Runs;
    var ops;
    ops, r := TwoSidedBreaks();
    DemoSound();
    CarveSound(r, 3850);
  }

  lemma DemoSound()
    ensures Sound(Demo(4))
  {
    var r := Demo(4);
    assert r.chunks[2..] == [r.chunks[2]];
    SingleCost(r.chunks[2]);
  }
}
