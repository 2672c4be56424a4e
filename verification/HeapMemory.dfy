/**
 A region as it lies in memory: headers at addresses, and the array of pointers to them that grows
 down from the region's end. Writing over part of a header destroys it.
 */
module HeapMemory {
  import opened HeapRegion

  // ---------------------------------------------------------------- headers

  /** Headers by the address of their first byte. */
  type Headers = map<int, Chunk>

  function HeaderOf(c: Chunk): int { c.addr - CHUNK_INFO_SIZE }

  predicate Clear(h: int, lo: int, hi: int) { h + CHUNK_INFO_SIZE <= lo || hi <= h }

  /** What is left after other bytes were stored in `[lo, hi)`. */
  function Clobber(heads: Headers, lo: int, hi: int): Headers {
    map h | h in heads && Clear(h, lo, hi) :: heads[h]
  }

  function Write(heads: Headers, c: Chunk): Headers {
    Clobber(heads, HeaderOf(c), c.addr)[HeaderOf(c) := c]
  }

  /** The pointers `ps` lead to intact headers, each in front of its chunk, that spell the list `c`. */
  ghost predicate Holds(heads: Headers, ps: seq<int>, c: seq<Chunk>) {
    |ps| == |c| && forall i :: 0 <= i < |c| ==> ps[i] in heads && heads[ps[i]] == c[i] && HeaderOf(c[i]) == ps[i]
  }

  // ---------------------------------------------------------------- the writes of alloc

  function CarvedSlots(ps: seq<int>, arr: int, free: int): seq<int>
    requires |ps| >= 2
  {
    [arr] + ps[1..] + [free]
  }

  /** Slots stored down to `a`, then the three headers. */
  function CarvedHeads(heads: Headers, a: int, end: int, arr: Chunk, user: Chunk, free: Chunk): Headers {
    Write(Write(Write(Clobber(heads, a, end), arr), user), free)
  }

  /** Where there is room, no write of alloc hits a header that is still needed. */
  lemma CarveHolds(heads: Headers, ps: seq<int>, r: Region, n: nat)
    requires Sound(r) && Room(r, n) && Holds(heads, ps, r.chunks)
    ensures var c := Carve(r, n).chunks;
      var m := |r.chunks|;
      Holds(CarvedHeads(heads, c[0].addr, r.base + r.allocSize, c[0], c[m - 1], c[m]),
            CarvedSlots(ps, HeaderOf(c[0]), HeaderOf(c[m])), c)
  {
    hide Sound;
    SoundEnds(r);
    var m, c := |r.chunks|, Carve(r, n).chunks;
    var ps' := CarvedSlots(ps, HeaderOf(c[0]), HeaderOf(c[m]));
    var heads' := CarvedHeads(heads, c[0].addr, r.base + r.allocSize, c[0], c[m - 1], c[m]);
    forall i | 0 <= i <= m ensures ps'[i] in heads' && heads'[ps'[i]] == c[i] && HeaderOf(c[i]) == ps'[i] {
      if 1 <= i < m - 1 {
        SoundApart(r, i, m - 1);
        assert ps'[i] == ps[i] && c[i] == r.chunks[i];
      } else {
        SoundApart(r, 1, m - 1);
      }
    }
  }

  // ---------------------------------------------------------------- the writes of one merge

  /** One slot gone, and the first one and the one of the merged chunk set. */
  function MergedSlots(ps: seq<int>, k: nat, arr: int, free: int): seq<int>
    requires 1 <= k && k + 1 < |ps|
  {
    [arr] + ps[1..k] + [free] + ps[k + 2..]
  }

  function GrowHead(heads: Headers, h: int): Headers
    requires h in heads
  {
    heads[h := heads[h].(size := heads[h].size + CHUNK_ARR)]
  }

  /** No write of a merge hits a header that is still needed, wherever in the two chunks it starts. */
  lemma MergeHolds(heads: Headers, ps: seq<int>, r: Region, k: nat, addr: int)
    requires Guarded(r) && 1 <= k && k + 1 < |r.chunks| && Holds(heads, ps, r.chunks)
    requires r.chunks[k].addr <= addr <= r.chunks[k + 1].addr
    ensures var x, y, a := r.chunks[k], r.chunks[k + 1], r.chunks[0];
      var free := Chunk(addr, x.size + CHUNK_INFO_SIZE + y.size, UNALLOCATED);
      var arr := Chunk(a.addr + CHUNK_ARR, a.size - CHUNK_ARR, RESERVED);
      var ps' := MergedSlots(ps, k, HeaderOf(arr), HeaderOf(free));
      var heads' := Write(Write(heads, free), arr);
      var last := ps'[|ps'| - 1];
      last in heads' && Holds(GrowHead(heads', last), ps', MergeAt(r, k, addr).chunks)
  {
    hide Guarded, Write, Holds, GrowHead;
    HoldsSize(heads, ps, r.chunks);
    var x, y, a := r.chunks[k], r.chunks[k + 1], r.chunks[0];
    var free := Chunk(addr, x.size + CHUNK_INFO_SIZE + y.size, UNALLOCATED);
    var arr := Chunk(a.addr + CHUNK_ARR, a.size - CHUNK_ARR, RESERVED);
    var ps' := MergedSlots(ps, k, HeaderOf(arr), HeaderOf(free));
    var heads' := Write(Write(heads, free), arr);
    var d := [arr] + r.chunks[1..k] + [free] + r.chunks[k + 2..];
    MergeWrites(heads, ps, r, k, addr, free, arr);
    HoldsSize(heads', ps', d);
    assert MergeAt(r, k, addr).chunks == GrowLast(d);
    forall i | 0 <= i < |d| - 1 ensures ps'[i] != ps'[|d| - 1] {
      DistinctHeads(r, k, addr, i);
      HeldAt(heads', ps', d, i);
      HeldAt(heads', ps', d, |d| - 1);
    }
    GrowHolds(heads', ps', d);
  }

  lemma HoldsSize(heads: Headers, ps: seq<int>, c: seq<Chunk>)
    requires Holds(heads, ps, c)
    ensures |ps| == |c|
  {
  }

  lemma GrowHolds(heads: Headers, ps: seq<int>, d: seq<Chunk>)
    requires Holds(heads, ps, d) && d != [] && forall i :: 0 <= i < |d| - 1 ==> ps[i] != ps[|d| - 1]
    ensures ps[|ps| - 1] in heads && Holds(GrowHead(heads, ps[|ps| - 1]), ps, GrowLast(d))
  {
  }

  lemma DistinctHeads(r: Region, k: nat, addr: int, i: nat)
    requires Guarded(r) && 1 <= k && k + 1 < |r.chunks| && r.chunks[k].addr <= addr <= r.chunks[k + 1].addr
    requires i < |r.chunks| - 2
    ensures var arr, z := r.chunks[0].(addr := r.chunks[0].addr + CHUNK_ARR), r.chunks[k].(addr := addr);
      var d := [arr] + r.chunks[1..k] + [z] + r.chunks[k + 2..];
      d[i].addr != d[|d| - 1].addr
  {
    GuardPair(r, k);
    TailBelow(r, k);
    var m := |r.chunks| - 1;
    if 1 <= i < k { GuardOrder(r, i, k); if k + 1 < m { GuardOrder(r, i, m); } }
    if i == k && k + 1 < m { GuardOrder(r, k + 1, m); }
    if i > k { GuardOrder(r, i + 1, m); }
  }

  lemma TailBelow(r: Region, k: nat)
    requires Guarded(r) && 1 <= k < |r.chunks|
    ensures r.chunks[k].addr + CHUNK_INFO_SIZE <= r.chunks[0].addr
  {
    if k < |r.chunks| - 1 { GuardOrder(r, k, |r.chunks| - 1); }
  }

  lemma MergeWrites(heads: Headers, ps: seq<int>, r: Region, k: nat, addr: int, free: Chunk, arr: Chunk)
    requires Guarded(r) && 1 <= k && k + 1 < |r.chunks| && Holds(heads, ps, r.chunks)
    requires r.chunks[k].addr <= addr <= r.chunks[k + 1].addr && free.addr == addr
    requires arr.addr == r.chunks[0].addr + CHUNK_ARR
    ensures Holds(Write(Write(heads, free), arr), MergedSlots(ps, k, HeaderOf(arr), HeaderOf(free)),
                  [arr] + r.chunks[1..k] + [free] + r.chunks[k + 2..])
  {
    hide Guarded;
    var c := [arr] + r.chunks[1..k] + [free] + r.chunks[k + 2..];
    var ps' := MergedSlots(ps, k, HeaderOf(arr), HeaderOf(free));
    var heads' := Write(Write(heads, free), arr);
    TailBelow(r, k);
    TailBelow(r, k + 1);
    forall i | 0 <= i < |c| ensures ps'[i] in heads' && heads'[ps'[i]] == c[i] && HeaderOf(c[i]) == ps'[i] {
      if 1 <= i < k {
        GuardOrder(r, i, k);
        TailBelow(r, i);
      } else if k < i {
        GuardOrder(r, k + 1, i + 1);
        TailBelow(r, i + 1);
      }
    }
  }

  // ---------------------------------------------------------------- the chunk-pointer array

  ghost function Without<T>(s: seq<T>, j: nat): seq<T>
    requires j < |s|
  {
    s[..j] + s[j + 1..]
  }

  /** memmove of the first `j` slots one slot up, after which the array starts one slot later:
      exactly entry `j` is gone. */
  method DropSlot<T>(mem: array<T>, b: nat, j: nat)
    requires b + j < mem.Length
    modifies mem
    ensures mem[b + 1..] == old(Without(mem[b..], j))
    ensures mem[..b] == old(mem[..b])
  {
    var k := j;
    while k > 0
      invariant 0 <= k <= j
      invariant forall i :: 0 <= i < mem.Length && !(b + k < i <= b + j) ==> mem[i] == old(mem[i])
      invariant forall i :: b + k < i <= b + j ==> mem[i] == old(mem[i - 1])
    {
      mem[b + k] := mem[b + k - 1];
      k := k - 1;
    }
  }

  /** memmove of the `m` slots one slot down: the array gains a last slot. */
  method AddSlot<T>(mem: array<T>, b: nat, m: nat)
    requires 0 < b && b + m <= mem.Length
    modifies mem
    ensures mem[b - 1..b - 1 + m] == old(mem[b..b + m])
    ensures mem[..b - 1] == old(mem[..b - 1]) && mem[b + m..] == old(mem[b + m..])
  {
    var k := 0;
    while k < m
      invariant 0 <= k <= m
      invariant forall i :: 0 <= i < mem.Length && !(b - 1 <= i < b - 1 + k) ==> mem[i] == old(mem[i])
      invariant forall i :: b - 1 <= i < b - 1 + k ==> mem[i] == old(mem[i + 1])
    {
      mem[b - 1 + k] := mem[b + k];
      k := k + 1;
    }
  }

  // ---------------------------------------------------------------- one region

  /** A region_t with the memory it manages. `slots` is the memory that the chunk-pointer array may
      take, up to the end of the region; the array starts at index `first`. */
  class RegionBlock {
    var base: int
    var allocSize: int
    var usedSize: int
    var nChunks: nat
    const slots: array<int>
    var first: nat
    var heads: Headers

    /** Memory holds the region `r`. */
    ghost predicate Shows(r: Region)
      reads this, slots
    {
      && base == r.base && allocSize == r.allocSize && usedSize == r.usedSize && nChunks == |r.chunks|
      && first + nChunks == slots.Length && slots.Length == allocSize / CHUNK_ARR
      && Holds(heads, slots[first..], r.chunks)
    }

    /** The user region part of create and create_region. */
    constructor (base: int, size: nat)
      requires size >= NEW_REGION_SIZE
      ensures Shows(NewRegion(base, size)) && fresh(slots)
    {
      var arr := Chunk(base + size - 3 * CHUNK_ARR, 3 * CHUNK_ARR, RESERVED);
      var info := Chunk(base + CHUNK_INFO_SIZE, REGION_INFO_SIZE, RESERVED);
      var used := REGION_INFO_SIZE + 3 * CHUNK_INFO_SIZE + 3 * CHUNK_ARR;
      var free := Chunk(info.addr + REGION_INFO_SIZE + CHUNK_INFO_SIZE, size - used, UNALLOCATED);
      this.base, allocSize, usedSize, nChunks := base, size, used, 3;
      slots := new int[size / CHUNK_ARR];
      first := size / CHUNK_ARR - 3;
      heads := Write(Write(Write(map[], arr), info), free);
      new;
      slots[first] := HeaderOf(arr);
      slots[first + 1] := HeaderOf(info);
      slots[first + 2] := HeaderOf(free);
      assert slots[first..] == [HeaderOf(arr), HeaderOf(info), HeaderOf(free)];
    }

    /** `chunks[i]` as the code reads it. */
    method Get(i: nat, ghost r: Region) returns (c: Chunk)
      requires Shows(r) && i < |r.chunks|
      ensures c == r.chunks[i]
    {
      c := heads[slots[first + i]];
    }

    /** alloc's work on the chosen region. */
    method Take(n: nat, ghost r: Region) returns (ptr: int)
      requires Shows(r) && Sound(r) && Room(r, n)
      modifies this, slots
      ensures Shows(Carve(r, n)) && ptr == Last(r.chunks).addr
    {
      hide Sound, Room, Holds, Write, Clobber;
      ghost var ps := slots[first..];
      SoundEnds(r);
      SlotLeft(r, n);
      CarveHolds(heads, ps, r, n);
      var m := nChunks;
      var c0 := Get(0, r);
      var tail := Get(m - 1, r);
      var newChunk := Chunk(c0.addr - CHUNK_ARR, (m + 1) * CHUNK_ARR, RESERVED);
      var user := Chunk(tail.addr, n, RESERVED);
      var newFree := Chunk(tail.addr + n + CHUNK_INFO_SIZE, tail.size - (n + CHUNK_INFO_SIZE + CHUNK_ARR), UNALLOCATED);
      assert HeaderOf(user) == ps[m - 1] by { HeldAt(heads, ps, r.chunks, m - 1); }
      GainSlot(HeaderOf(newChunk), HeaderOf(user), HeaderOf(newFree));
      heads := Clobber(heads, newChunk.addr, base + allocSize);
      heads := Write(heads, newChunk);
      heads := Write(heads, user);
      heads := Write(heads, newFree);
      ptr := user.addr;
      usedSize := usedSize + (n + CHUNK_INFO_SIZE + CHUNK_ARR);
    }

    /** One merge of cull: chunks `k` and `k + 1` become one at `addr`. The slot that goes is `d`. */
    method Merge(k: nat, addr: int, d: nat, ghost r: Region)
      requires Shows(r) && Guarded(r) && 1 <= k && k + 1 < |r.chunks| && k <= d <= k + 1
      requires r.chunks[k].addr <= addr <= r.chunks[k + 1].addr
      modifies this`nChunks, this`first, this`heads, slots
      ensures Shows(MergeAt(r, k, addr))
    {
      hide Guarded, Holds, Write, MergeAt;
      MergeHolds(heads, slots[first..], r, k, addr);
      MergeFrame(r, k, addr);
      MergeLocal(r, k, addr);
      var c0 := Get(0, r);
      var x := Get(k, r);
      var y := Get(k + 1, r);
      var newFree := Chunk(addr, x.size + CHUNK_INFO_SIZE + y.size, UNALLOCATED);
      var newChunk := Chunk(c0.addr + CHUNK_ARR, c0.size - CHUNK_ARR, RESERVED);
      LoseSlot(k, d, HeaderOf(newChunk), HeaderOf(newFree));
      heads := Write(heads, newFree);
      heads := Write(heads, newChunk);
      heads := GrowHead(heads, slots[slots.Length - 1]);
    }

    /** `chunks[j]->flag = CULLED`, and the block's bytes leave the used ones. */
    method Free(j: nat, ghost r: Region)
      requires Shows(r) && Guarded(r) && 1 <= j < |r.chunks|
      modifies this`heads, this`usedSize
      ensures Shows(MarkCulled(r, j))
    {
      hide Holds, Guarded;
      FlagHolds(heads, slots[first..], r, j);
      HeldAt(heads, slots[first..], r.chunks, j);
      var h := slots[first + j];
      usedSize := usedSize - (heads[h].size + CHUNK_INFO_SIZE + CHUNK_ARR);
      heads := heads[h := heads[h].(flag := CULLED)];
    }

    /** cull's work on the block found at index `j`, as written. */
    method Release(j: nat, ghost r: Region)
      requires Shows(r) && Sound(r) && Live(r, j)
      modifies this, slots
      ensures Shows(CullChunk(r, j, false))
    {
      hide Balanced, MergeAt, RegionBlock.Shows;
      FlagsOf(r) by { SoundEnds(r); }
      MarkBalanced(r, j);
      BalancedGuard(r, j);
      var c := Get(j, r);
      Free(j, r);
      ghost var r1 := MarkCulled(r, j);
      var left := Get(j - 1, r1);
      if left.flag != RESERVED {
        ghost var r2 := MergeAt(r1, j - 1, left.addr);
        assert j >= 3 by { SoundEnds(r); }
        CullLeftSound(r, j);
        BalancedGuard(r1, j - 1);
        Merge(j - 1, left.addr, j, r1);
        var right := Get(j, r2);
        if right.flag != RESERVED {
          BalancedGuard(r2, j - 1);
          Merge(j - 1, c.addr, j - 1, r2);
        }
      } else {
        var right := Get(j + 1, r1);
        if right.flag != RESERVED {
          BalancedGuard(r1, j);
          Merge(j, c.addr, j, r1);
        }
      }
    }

    /** The array loses slot `d` and starts one slot later; two entries are set. */
    method LoseSlot(k: nat, d: nat, arr: int, free: int)
      requires first + nChunks == slots.Length && 1 <= k && k + 1 < nChunks && k <= d <= k + 1
      modifies this`nChunks, this`first, slots
      ensures nChunks == old(nChunks) - 1 && first == old(first) + 1
      ensures slots[first..] == MergedSlots(old(slots[first..]), k, arr, free)
    {
      ghost var ps := slots[first..];
      DropSlot(slots, first, d);
      nChunks, first := nChunks - 1, first + 1;
      ghost var qs := slots[first..];
      assert qs == ps[..d] + ps[d + 1..];
      slots[first] := arr;
      slots[first + k] := free;
      assert slots[first..] == qs[0 := arr][k := free];
      LoseSlotSpec(ps, k, d, arr, free);
    }

    /** The array moves down by one slot; its first and its last two entries are set. */
    method GainSlot(arr: int, user: int, free: int)
      requires 0 < first && first + nChunks == slots.Length && nChunks >= 3
      requires slots[slots.Length - 1] == user
      modifies this`nChunks, this`first, slots
      ensures nChunks == old(nChunks) + 1 && first == old(first) - 1
      ensures slots[first..] == CarvedSlots(old(slots[first..]), arr, free)
    {
      var m := nChunks;
      ghost var ps := slots[first..];
      assert ps == slots[first..first + m] && ps[m - 1] == user;
      AddSlot(slots, first, m);
      nChunks, first := m + 1, first - 1;
      ghost var qs := slots[first..];
      assert qs == slots[first..first + m] + slots[first + m..];
      slots[first] := arr;
      slots[first + m - 1] := user;
      slots[first + m] := free;
      assert slots[first..] == qs[0 := arr][m - 1 := user][m := free];
      GainSlotSpec(ps, qs, arr, user, free);
    }
  }

  lemma GainSlotSpec(ps: seq<int>, qs: seq<int>, arr: int, user: int, free: int)
    requires |ps| >= 2 && |qs| == |ps| + 1 && qs[..|ps|] == ps && ps[|ps| - 1] == user
    ensures qs[0 := arr][|ps| - 1 := user][|ps| := free] == CarvedSlots(ps, arr, free)
  {
    forall i | 0 <= i < |ps| ensures qs[i] == ps[i] {
      assert qs[i] == qs[..|ps|][i];
    }
  }

  lemma LoseSlotSpec(ps: seq<int>, k: nat, d: nat, arr: int, free: int)
    requires 1 <= k && k + 1 < |ps| && k <= d <= k + 1
    ensures (ps[..d] + ps[d + 1..])[0 := arr][k := free] == MergedSlots(ps, k, arr, free)
  {
  }

  lemma FlagHolds(heads: Headers, ps: seq<int>, r: Region, j: nat)
    requires Guarded(r) && Holds(heads, ps, r.chunks) && 1 <= j < |r.chunks|
    ensures ps[j] in heads
    ensures Holds(heads[ps[j] := heads[ps[j]].(flag := CULLED)], ps, MarkCulled(r, j).chunks)
  {
    forall i | 0 <= i < |ps| && i != j ensures ps[i] != ps[j] {
      if i == 0 {
        TailBelow(r, j);
      } else if i < j {
        GuardOrder(r, i, j);
      } else {
        GuardOrder(r, j, i);
      }
    }
  }

  lemma HeldAt(heads: Headers, ps: seq<int>, c: seq<Chunk>, i: nat)
    requires Holds(heads, ps, c) && i < |c|
    ensures HeaderOf(c[i]) == ps[i] && ps[i] in heads && heads[ps[i]] == c[i]
  {
  }

  lemma BalancedGuard(r: Region, k: nat)
    requires Balanced(r) && 1 <= k && k + 1 < |r.chunks|
    ensures Guarded(r) && r.chunks[k].addr < r.chunks[k + 1].addr
  {
    GuardPair(r, k);
  }

  /** A slot is left in front of the array when there is room. */
  lemma SlotLeft(r: Region, n: nat)
    requires Sound(r) && Room(r, n)
    ensures |r.chunks| < r.allocSize / CHUNK_ARR
  {
    SoundApart(r, 1, |r.chunks| - 1);
  }
}
