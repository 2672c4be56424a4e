/**
 Page reservation: a bitmap of 4096-byte pages, searched first-fit in one of two zones.
 */
module PageMap {
  import opened Bitmap

  const CHUNK_SIZE := 4096
  const KERNEL_RESERVED := 16 * 1024 * 1024
  const KERNEL_CHUNKS := 4096
  const WORDS := 24576
  const LIMIT := 786432
  const ULONG_MAX := 0xFFFF_FFFF_FFFF_FFFF

  datatype Kind = MEM_K | MEM_U | Other

  // ---------------------------------------------------------------- maps as sequences of flags

  /** `s` with the `n` flags from `first` on set to `v`. */
  ghost function Mark(s: seq<bool>, first: nat, n: nat, v: bool): (t: seq<bool>)
    requires first + n <= |s|
    ensures |t| == |s|
  {
    s[..first] + seq(n, i => v) + s[first + n..]
  }

  ghost predicate FreeRun(s: seq<bool>, i: nat, n: nat) {
    i + n <= |s| && forall k :: i <= k < i + n ==> !s[k]
  }

  /** Where find_free may stop. The strict bound never uses a zone's last page. */
  ghost predicate Usable(s: seq<bool>, i: nat, n: nat, start: nat, end: nat) {
    start <= i < end && FreeRun(s, i, n) && i + n < end
  }

  ghost predicate NoRun(s: seq<bool>, n: nat, start: nat, end: nat) {
    forall i: nat :: !Usable(s, i, n, start, end)
  }

  /** One of the `n` pages from `i` on is used. */
  ghost predicate Blocked(s: seq<bool>, i: int, n: nat) {
    exists k :: 0 <= i <= k < i + n <= |s| && s[k]
  }

  /** `first` starts the lowest run of `n` free pages that ends before the last page of `[start, end)`. */
  ghost predicate LowestRun(s: seq<bool>, first: nat, n: nat, start: nat, end: nat) {
    && start <= first && first + n < end <= |s| && (forall k :: first <= k < first + n ==> !s[k])
    && (forall i :: start <= i < first ==> Blocked(s, i, n))
  }

  /** No run of `n` pages that ends before the last page of `[start, end)` is free. */
  ghost predicate Full(s: seq<bool>, n: nat, start: nat, end: nat) {
    forall i :: start <= i && i + n < end ==> Blocked(s, i, n)
  }

  lemma UsableExact(s: seq<bool>, i: nat, n: nat, start: nat, end: nat)
    requires end <= |s| && n > 0
    ensures Usable(s, i, n, start, end) <==> start <= i && i + n < end && !Blocked(s, i, n)
  {
  }

  lemma FullExact(s: seq<bool>, n: nat, start: nat, end: nat)
    requires end <= |s| && n > 0
    ensures NoRun(s, n, start, end) <==> Full(s, n, start, end)
  {
    hide Usable, Blocked;
    if NoRun(s, n, start, end) {
      forall i | start <= i && i + n < end ensures Blocked(s, i, n) { UsableExact(s, i, n, start, end); }
    }
    if Full(s, n, start, end) {
      forall i: nat ensures !Usable(s, i, n, start, end) { UsableExact(s, i, n, start, end); }
    }
  }

  lemma LowestExact(s: seq<bool>, r: nat, n: nat, start: nat, end: nat)
    requires end <= |s| && n > 0 && Usable(s, r, n, start, end)
    requires forall i :: 0 <= i < r ==> !Usable(s, i, n, start, end)
    ensures LowestRun(s, r, n, start, end)
  {
    forall i | start <= i < r ensures Blocked(s, i, n) { UsableExact(s, i, n, start, end); }
  }

  ghost function FreeCount(s: seq<bool>, n: nat): nat
    requires n <= |s|
  {
    if n == 0 then 0 else FreeCount(s, n - 1) + if s[n - 1] then 0 else 1
  }

  lemma {:induction false} FreeCountBound(s: seq<bool>, n: nat)
    requires n <= |s|
    ensures FreeCount(s, n) <= n
  {
    if n > 0 { FreeCountBound(s, n - 1); }
  }

  /** The number of free pages below `n`. */
  lemma {:induction false} FreeCountIsSize(s: seq<bool>, n: nat)
    requires n <= |s|
    ensures FreeCount(s, n) == |(set i | 0 <= i < n && !s[i])|
  {
    if n > 0 {
      FreeCountIsSize(s, n - 1);
      var a, b := set i | 0 <= i < n - 1 && !s[i], set i | 0 <= i < n && !s[i];
      assert b == if s[n - 1] then a else a + {n - 1};
    }
  }

  lemma {:induction false} FreeCountSame(s: seq<bool>, t: seq<bool>, n: nat)
    requires n <= |s| && n <= |t| && forall k :: 0 <= k < n ==> s[k] == t[k]
    ensures FreeCount(s, n) == FreeCount(t, n)
  {
    if n > 0 { FreeCountSame(s, t, n - 1); }
  }

  /** Marking a free run takes exactly its pages from the free ones. */
  lemma {:induction false} FreeCountMark(s: seq<bool>, first: nat, n: nat, m: nat)
    requires FreeRun(s, first, n) && first + n <= m <= |s|
    ensures FreeCount(Mark(s, first, n, true), m) + n == FreeCount(s, m)
  {
    var t := Mark(s, first, n, true);
    if m == 0 {
    } else if m == first + n {
      if n == 0 {
        assert t == s;
      } else {
        FreeCountMark(s, first, n - 1, m - 1);
        FreeCountSame(t, Mark(s, first, n - 1, true), m - 1);
      }
    } else {
      FreeCountMark(s, first, n, m - 1);
    }
  }

  lemma MarkAt(s: seq<bool>, first: nat, n: nat, v: bool)
    requires first + n <= |s|
    ensures forall k :: 0 <= k < |s| ==> Mark(s, first, n, v)[k] == if first <= k < first + n then v else s[k]
  {
  }

  lemma MarkBack(s: seq<bool>, first: nat, n: nat)
    requires FreeRun(s, first, n)
    ensures Mark(Mark(s, first, n, true), first, n, false) == s
  {
  }

  lemma FreeCountUnmark(s: seq<bool>, first: nat, n: nat, m: nat)
    requires first + n <= m <= |s| && forall k :: first <= k < first + n ==> s[k]
    ensures FreeCount(Mark(s, first, n, false), m) == FreeCount(s, m) + n
  {
    var t := Mark(s, first, n, false);
    FreeCountMark(t, first, n, m);
    assert Mark(t, first, n, true) == s;
  }

  // ---------------------------------------------------------------- the map

  /** A reservation that has not been relinquished. */
  datatype Run = Run(first: nat, n: nat, kind: Kind)

  ghost predicate Holds(r: Run, k: int) { r.first <= k < r.first + r.n }

  ghost predicate Disjoint(r: Run, q: Run) { r.first + r.n <= q.first || q.first + q.n <= r.first }

  datatype Result = Reserved(addr: int) | Nothing | WildMark(addr: int)

  class Pages {
    const words: array<Word>
    const offset: int
    var maxChunk: nat
    ghost var kernel: nat
    ghost var runs: set<Run>

    constructor (offset: int)
      ensures fresh(words) && words.Length == WORDS && maxChunk == 0 && this.offset == offset
      ensures forall w :: 0 <= w < WORDS ==> words[w] == ZERO
      ensures kernel == 0 && runs == {}
    {
      this.offset, maxChunk, kernel, runs := offset, 0, 0, {};
      words := new Word[WORDS](i => ZERO);
    }

    predicate UsedAt(i: nat)
      reads words
      requires words.Length == WORDS && i < LIMIT
    {
      Test(words[i / BITS], i % BITS)
    }

    ghost function Flags(): (s: seq<bool>)
      reads words
      requires words.Length == WORDS
      ensures |s| == LIMIT && forall i :: 0 <= i < LIMIT ==> s[i] == UsedAt(i)
    {
      seq(LIMIT, i requires 0 <= i < LIMIT reads words requires words.Length == WORDS => UsedAt(i))
    }

    method MarkOne(i: nat, v: bool)
      requires words.Length == WORDS && i < LIMIT
      modifies words
      ensures Flags() == old(Flags())[i := v]
    {
      ghost var s := Flags();
      var w := words[i / BITS];
      words[i / BITS] := if v then SetBit(w, i % BITS) else ClearBit(w, i % BITS);
      forall k | 0 <= k < LIMIT ensures UsedAt(k) == if k == i then v else s[k] {
        SetTests(w, i % BITS, k % BITS);
        ClearTests(w, i % BITS, k % BITS);
      }
    }

    method MarkRun(first: nat, n: nat, v: bool)
      requires words.Length == WORDS && first + n <= LIMIT
      modifies words
      ensures Flags() == Mark(old(Flags()), first, n, v)
    {
      ghost var s := Flags();
      var i := 0;
      while i < n
        invariant 0 <= i <= n
        invariant forall k :: 0 <= k < LIMIT ==> Flags()[k] == if first <= k < first + i then v else s[k]
      {
        MarkOne(first + i, v);
        i := i + 1;
      }
    }

    /** The map is exactly the kernel's pages and the outstanding runs; the runs are disjoint and
        lie in their zones. */
    ghost predicate Valid()
      reads this, words
    {
      && words.Length == WORDS && kernel <= KERNEL_CHUNKS && maxChunk <= LIMIT / 3
      && (forall k :: 0 <= k < LIMIT ==> (UsedAt(k) <==> k < kernel || exists r :: r in runs && Holds(r, k)))
      && (forall r :: r in runs ==> kernel <= r.first && r.n > 0 && InZone(r))
      && (forall r, q :: r in runs && q in runs && r != q ==> Disjoint(r, q))
    }

    ghost predicate InZone(r: Run)
      reads this
    {
      match r.kind
      case MEM_K => r.first + r.n < KERNEL_CHUNKS
      case MEM_U => KERNEL_CHUNKS <= r.first && r.first + r.n < maxChunk
      case Other => false
    }

    /** mem_init on a fresh map; false is -E_NOMEM. As in the source, the first loop clears one
        word, not one bit, per kernel page. */
    method Init(memoryTotal: nat, memoryKernel: nat, available: nat) returns (ok: bool)
      requires words.Length == WORDS && (forall w :: 0 <= w < WORDS ==> words[w] == ZERO)
      requires runs == {} && kernel == 0 && maxChunk == 0 && available <= 1024 * 1024 * 1024
      modifies this, words
      ensures ok <==> memoryTotal <= available && memoryKernel <= KERNEL_RESERVED
      ensures Valid() && runs == {}
      ensures ok ==> maxChunk == memoryTotal / CHUNK_SIZE && kernel == memoryKernel / CHUNK_SIZE
    {
      forall k | 0 <= k < LIMIT ensures !UsedAt(k) { ZeroTests(k % BITS); }
      if memoryTotal > available { return false; }
      if memoryKernel > KERNEL_RESERVED { return false; }
      maxChunk := memoryTotal / CHUNK_SIZE;
      var i := 0;
      while i < memoryKernel / CHUNK_SIZE
        invariant 0 <= i <= memoryKernel / CHUNK_SIZE
        invariant forall w :: 0 <= w < WORDS ==> words[w] == ZERO
        modifies words
      {
        words[i] := ZERO;
        i := i + 1;
      }
      forall k | 0 <= k < LIMIT ensures !UsedAt(k) { ZeroTests(k % BITS); }
      ghost var s := Flags();
      MarkRun(0, memoryKernel / CHUNK_SIZE, true);
      kernel := memoryKernel / CHUNK_SIZE;
      assert forall k :: 0 <= k < LIMIT ==> (Flags()[k] <==> k < kernel);
      return true;
    }

    /** find_free: the lowest usable run, or (unsigned long)-1 when there is none. */
    method FindFree(n: nat, start: nat, end: nat) returns (r: nat)
      requires words.Length == WORDS && end + n <= LIMIT && n > 0
      ensures r == ULONG_MAX || Usable(Flags(), r, n, start, end)
      ensures r != ULONG_MAX ==> forall i :: 0 <= i < r ==> !Usable(Flags(), i, n, start, end)
      ensures r == ULONG_MAX ==> NoRun(Flags(), n, start, end)
    {
      ghost var s := Flags();
      var i := start;
      while i < end
        invariant start <= i && (i <= end || i == start)
        invariant forall m: nat :: m < i ==> !Usable(s, m, n, start, end)
      {
        var used := UsedAt(i);
        if !used {
          var j := 0;
          while j < n
            invariant 0 <= j <= n
            invariant forall k :: i <= k < i + j ==> !s[k]
          {
            if UsedAt(i + j) { break; }
            j := j + 1;
          }
          if j == n && i + j < end { return i; }
          assert j < n ==> s[i + j];
        }
        i := i + 1;
      }
      return ULONG_MAX;
    }

    /** sum_free, in bytes. */
    method SumFree() returns (total: int)
      requires words.Length == WORDS && maxChunk <= LIMIT / 3
      ensures 0 <= total == FreeCount(Flags(), maxChunk) * CHUNK_SIZE < 0x8000_0000
    {
      var count, i := 0, 0;
      while i < maxChunk
        invariant 0 <= i <= maxChunk && count == FreeCount(Flags(), i)
      {
        if !UsedAt(i) { count := count + 1; }
        i := i + 1;
      }
      FreeCountBound(Flags(), maxChunk);
      return count * CHUNK_SIZE;
    }

    lemma SizesOf()
      requires Valid()
      ensures words.Length == WORDS && maxChunk <= LIMIT / 3
    {
    }

    /** Mark a free run of the right zone. */
    method Claim(first: nat, n: nat, ghost run: Run)
      requires Valid() && run.first == first && run.n == n > 0 && FreeRun(Flags(), first, n) && InZone(run)
      modifies this`runs, words
      ensures Valid() && run !in old(runs) && runs == old(runs) + {run}
      ensures Flags() == Mark(old(Flags()), first, n, true)
      ensures first + n <= maxChunk ==> FreeCount(Flags(), maxChunk) + n == old(FreeCount(Flags(), maxChunk))
    {
      hide Test, FreeCount, Mark;
      ghost var s := Flags();
      RunIsNew(run);
      if first + n <= maxChunk { FreeCountMark(s, first, n, maxChunk); }
      MarkAt(s, first, n, true);
      MarkRun(first, n, true);
      runs := runs + {run};
      forall k | 0 <= k < LIMIT ensures UsedAt(k) <==> k < kernel || exists r :: r in runs && Holds(r, k) {
        assert Flags()[k] == UsedAt(k);
        if Holds(run, k) {
          assert UsedAt(k);
        } else {
          assert UsedAt(k) == s[k];
          if exists r :: r in old(runs) && Holds(r, k) {
            var r :| r in old(runs) && Holds(r, k);
            assert r in runs;
          }
        }
      }
    }

    /** The marks of reserve when find_free returned (unsigned long)-1: the first is stored outside
        the map, and the others wrap around to the pages from 0 on. */
    method MarkWrapped(n: nat)
      requires words.Length == WORDS && 0 < n <= LIMIT
      modifies words
      ensures Flags() == Mark(old(Flags()), 0, n - 1, true)
    {
      ghost var s := Flags();
      var i := 0;
      while i < n
        invariant 0 <= i <= n
        invariant forall k :: 0 <= k < LIMIT ==> Flags()[k] == (k < i - 1 || s[k])
      {
        var page := (ULONG_MAX + i) % (ULONG_MAX + 1);
        assert i > 0 ==> page == i - 1;
        if page < LIMIT { MarkOne(page, true); }
        i := i + 1;
      }
    }

    /** The wrapped marks leave the map as the reservations describe it exactly when they hit pages
        that were used already. */
    twostate lemma WrappedValid(n: nat)
      requires old(Valid()) && words.Length == WORDS && 0 < n <= LIMIT
      requires maxChunk == old(maxChunk) && kernel == old(kernel) && runs == old(runs)
      requires Flags() == Mark(old(Flags()), 0, n - 1, true)
      ensures Valid() <==> forall k :: 0 <= k < n - 1 ==> old(Flags())[k]
    {
      MarkAt(old(Flags()), 0, n - 1, true);
      forall k | 0 <= k < LIMIT ensures UsedAt(k) <==> k < n - 1 || old(UsedAt(k)) {
        assert Flags()[k] == UsedAt(k) && old(Flags())[k] == old(UsedAt(k));
      }
      if Valid() {
        forall k | 0 <= k < n - 1 ensures old(Flags())[k] {
          assert UsedAt(k);
        }
      }
      if forall k :: 0 <= k < n - 1 ==> old(Flags())[k] {
        forall k | 0 <= k < LIMIT ensures UsedAt(k) <==> k < kernel || exists r :: r in runs && Holds(r, k) {
          assert k < n - 1 ==> old(Flags())[k];
          assert UsedAt(k) == old(UsedAt(k));
        }
        assert forall r: Run :: InZone(r) == old(InZone(r));
      }
    }

    /** reserve. The test `first_chunk < 0` on an unsigned value is never true, so with no usable run
        the code goes on to mark pages from (unsigned long)-1 on: WildMark. */
    method Reserve(n0: nat, kind: Kind) returns (r: Result, ghost run: Run)
      requires Valid() && KERNEL_CHUNKS + n0 < LIMIT && maxChunk + n0 < LIMIT
      modifies this`runs, words
      ensures run.n == (if n0 == 0 then 1 else n0) && run.kind == kind
      ensures r.Nothing? <==> kind == Other
      ensures kind == MEM_K ==> (r.WildMark? <==> Full(old(Flags()), run.n, 0, KERNEL_RESERVED / CHUNK_SIZE))
      ensures kind == MEM_U ==> (r.WildMark? <==> Full(old(Flags()), run.n, KERNEL_RESERVED / CHUNK_SIZE, maxChunk))
      ensures !r.Reserved? ==> runs == old(runs)
      ensures r.Nothing? ==> Flags() == old(Flags()) && Valid()
      ensures r.WildMark? ==>
        && r.addr == offset - CHUNK_SIZE
        && Flags() == Mark(old(Flags()), 0, run.n - 1, true)
        && (Valid() <==> forall k :: 0 <= k < run.n - 1 ==> old(Flags())[k])
      ensures r.Reserved? ==>
        && Valid()
        && r.addr == run.first * CHUNK_SIZE + offset
        && run !in old(runs) && runs == old(runs) + {run}
        && run.first + run.n <= LIMIT && Flags() == Mark(old(Flags()), run.first, run.n, true)
        && (kind == MEM_K ==> LowestRun(old(Flags()), run.first, run.n, 0, KERNEL_RESERVED / CHUNK_SIZE))
        && (kind == MEM_U ==> LowestRun(old(Flags()), run.first, run.n, KERNEL_RESERVED / CHUNK_SIZE, maxChunk))
      ensures r.Reserved? && run.first + run.n <= maxChunk ==>
        FreeCount(Flags(), maxChunk) + run.n == old(FreeCount(Flags(), maxChunk))
    {
      hide Test, FreeCount, Mark, Valid, LowestRun, Full;
      var n := if n0 == 0 then 1 else n0;
      SizesOf();
      run := Run(0, n, kind);
      if kind == Other { return Nothing, run; }
      var start, end;
      if kind == MEM_K {
        start, end := 0, KERNEL_RESERVED / CHUNK_SIZE;
      } else {
        start, end := KERNEL_RESERVED / CHUNK_SIZE, maxChunk;
      }
      FullExact(Flags(), n, start, end);
      var first := FindFree(n, start, end);
      if first == ULONG_MAX {
        assert NoRun(Flags(), n, start, end);
        MarkWrapped(n);
        WrappedValid(n);
        return WildMark(offset - CHUNK_SIZE), run;
      }
      LowestExact(Flags(), first, n, start, end);
      run := Run(first, n, kind);
      Claim(first, n, run);
      return Reserved(first * CHUNK_SIZE + offset), run;
    }

    lemma RunIsNew(run: Run)
      requires Valid() && run.n > 0 && FreeRun(Flags(), run.first, run.n)
      ensures run !in runs && kernel <= run.first && forall q :: q in runs ==> Disjoint(run, q)
    {
      assert !Flags()[run.first] && !UsedAt(run.first);
      forall q | q in runs ensures Disjoint(run, q) {
        var k := if run.first < q.first then q.first else run.first;
        assert k < LIMIT && Holds(q, k) ==> UsedAt(k);
        assert k < LIMIT ==> Flags()[k] == UsedAt(k);
      }
    }

    lemma RunIsUsed(run: Run)
      requires Valid() && run in runs
      ensures run.first + run.n <= LIMIT && forall k :: run.first <= k < run.first + run.n ==> Flags()[k]
    {
      forall k | run.first <= k < run.first + run.n ensures k < LIMIT && Flags()[k] {
        assert Holds(run, k);
      }
    }

    /** relinquish of an outstanding run: its pages are free again, all others as they were. */
    method Relinquish(start: int, n: nat, ghost run: Run)
      requires Valid() && run in runs && start == run.first * CHUNK_SIZE + offset && n == run.n
      modifies this`runs, words
      ensures Valid() && runs == old(runs) - {run}
      ensures Flags() == Mark(old(Flags()), run.first, run.n, false)
      ensures run.first + run.n <= maxChunk ==>
        FreeCount(Flags(), maxChunk) == old(FreeCount(Flags(), maxChunk)) + run.n
    {
      hide Test, FreeCount, Mark;
      var first := (start - offset) / CHUNK_SIZE;
      ghost var s := Flags();
      RunIsUsed(run);
      if first + n <= maxChunk { FreeCountUnmark(s, first, n, maxChunk); }
      MarkAt(s, first, n, false);
      MarkRun(first, n, false);
      runs := runs - {run};
      forall k | 0 <= k < LIMIT ensures UsedAt(k) <==> k < kernel || exists r :: r in runs && Holds(r, k) {
        assert Flags()[k] == UsedAt(k);
        if Holds(run, k) {
          assert !UsedAt(k);
          assert forall r :: r in runs ==> Disjoint(r, run);
        } else {
          assert UsedAt(k) == s[k];
          if exists r :: r in old(runs) && Holds(r, k) {
            var r :| r in old(runs) && Holds(r, k);
            assert r in runs;
          }
        }
      }
    }
  }
}
