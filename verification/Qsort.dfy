/**
 quicksort: non-recursive, median of three, explicit stack of pending partitions, and a final
 insertion pass whose inner scan has no lower bound check.
 */
module Qsort {
  import opened Elements

  type Cmp = (Elem, Elem) -> int

  const MAX_THRESH := 4
  /** CHAR_BIT * sizeof (size_t), with the 32-bit size_t of this kernel. */
  const STACK_SIZE := 32
  const SIZE_MAX_ELEMS := 0x1_0000_0000

  /** `x` may stand before `y`: the comparison does not put `y` strictly first. */
  ghost predicate Le(cmp: Cmp, x: Elem, y: Elem) { cmp(y, x) >= 0 }

  /** What the comparison function must be on the elements present: total and transitive. */
  ghost predicate TotalPreorder(cmp: Cmp, s: seq<Elem>) {
    && (forall x, y :: x in s && y in s ==> Le(cmp, x, y) || Le(cmp, y, x))
    && (forall x, y, z :: x in s && y in s && z in s && Le(cmp, x, y) && Le(cmp, y, z) ==> Le(cmp, x, z))
  }

  ghost predicate Sorted(cmp: Cmp, v: seq<Elem>) {
    forall i, j :: 0 <= i < j < |v| ==> Le(cmp, v[i], v[j])
  }

  // ---------------------------------------------------------------- offsets in size_t

  /** `size * i`, computed in 32 bits. */
  function Offset32(i: nat, size: nat): nat { Base(i, size) % SIZE_MAX_ELEMS }

  /** `max_thresh`, computed in 32 bits. */
  function Thresh32(size: nat): nat { MAX_THRESH * size % SIZE_MAX_ELEMS }

  /** `thresh` as an offset: where the search for the sentinel stops. */
  function SentinelEnd(n: nat, size: nat): nat
    requires n > 0
  {
    if Offset32(n - 1, size) < Thresh32(size) then Offset32(n - 1, size) else Thresh32(size)
  }

  /** The last element's offset does not wrap; in a short array the threshold, if it wraps, stays beyond it. */
  predicate Fits32(n: nat, size: nat) {
    n == 0 || (Base(n - 1, size) < SIZE_MAX_ELEMS && (n > MAX_THRESH || Base(n - 1, size) <= Thresh32(size)))
  }

  lemma OffsetExact(i: nat, size: nat)
    ensures Offset32(i, size) == Base(i, size) <==> Base(i, size) < SIZE_MAX_ELEMS
  {
  }

  lemma BaseMono(i: nat, j: nat, size: nat)
    requires size > 0
    ensures Base(i, size) <= Base(j, size) <==> i <= j
  {
    if i < j { BaseOrder(i, j, size); }
    if j < i { BaseOrder(j, i, size); }
  }

  /** In a longer array the threshold does not wrap. */
  lemma ThreshExact(n: nat, size: nat)
    requires n > MAX_THRESH && size > 0 && Base(n - 1, size) < SIZE_MAX_ELEMS
    ensures Thresh32(size) == Base(MAX_THRESH, size)
  {
    BaseMono(MAX_THRESH, n - 1, size);
  }

  ghost predicate Reached(n: nat, size: nat, run: nat)
    requires n > 0
  {
    Base(run, size) <= SentinelEnd(n, size)
  }

  function LastFront(n: nat): nat
    requires n > 0
  {
    if n - 1 < MAX_THRESH then n - 1 else MAX_THRESH
  }

  /** The end pointer is right and the search for the sentinel looks at exactly the first
      MAX_THRESH + 1 elements, or all of fewer, exactly when the sizes fit. */
  lemma SentinelExact(n: nat, size: nat)
    requires n > 0 && size > 0
    ensures Offset32(n - 1, size) == Base(n - 1, size) && (forall run: nat :: Reached(n, size, run) <==> run <= LastFront(n))
      <==> Fits32(n, size)
  {
    OffsetExact(n - 1, size);
    if Fits32(n, size) {
      if n > MAX_THRESH { ThreshExact(n, size); BaseMono(MAX_THRESH, n - 1, size); }
      forall run: nat ensures Reached(n, size, run) <==> run <= LastFront(n) {
        BaseMono(run, LastFront(n), size);
      }
    } else if Base(n - 1, size) < SIZE_MAX_ELEMS {
      assert !Reached(n, size, n - 1);
    }
  }

  /** Three elements of 2^30 bytes: the threshold wraps to 0 and no sentinel is looked for. */
  lemma ThresholdWraps()
    ensures Offset32(2, 0x4000_0000) == Base(2, 0x4000_0000) && !Fits32(3, 0x4000_0000)
    ensures SentinelEnd(3, 0x4000_0000) == 0 && forall run: nat :: run > 0 ==> !Reached(3, 0x4000_0000, run)
  {
    forall run: nat | run > 0 ensures !Reached(3, 0x4000_0000, run) {
      BaseMono(1, run, 0x4000_0000);
    }
  }

  /** The comparison of a part's width with the threshold, in 32 bits. */
  lemma SmallExact(d: nat, size: nat, n: nat)
    requires n > MAX_THRESH && size > 0 && Fits32(n, size) && d < n
    ensures Offset32(d, size) <= Thresh32(size) <==> d <= MAX_THRESH
  {
    ThreshExact(n, size);
    BaseMono(d, n - 1, size);
    BaseMono(d, MAX_THRESH, size);
    OffsetExact(d, size);
  }

  lemma LastOffset(n: nat, size: nat)
    requires n > 0 && size > 0 && Fits32(n, size)
    ensures Offset32(n - 1, size) == Base(n - 1, size) && Offset32(n - 1, size) / size == n - 1
  {
    OffsetExact(n - 1, size);
    QuotientOf(n - 1, size);
  }

  lemma {:induction false} QuotientOf(i: nat, size: nat)
    requires size > 0
    ensures Base(i, size) / size == i
  {
    if i > 0 {
      QuotientOf(i - 1, size);
      assert Base(i, size) == Base(i - 1, size) + size;
      assert (Base(i - 1, size) + size) / size == Base(i - 1, size) / size + 1;
    }
  }

  // ---------------------------------------------------------------- permutations

  /** `w` is `v` with the elements of `[lo, hi]` rearranged. */
  ghost predicate Within(v: seq<Elem>, w: seq<Elem>, lo: int, hi: int) {
    && |w| == |v| && multiset(w) == multiset(v)
    && forall k :: 0 <= k < |v| && (k < lo || k > hi) ==> w[k] == v[k]
  }

  lemma SwappedWithin(v: seq<Elem>, i: nat, j: nat, lo: nat, hi: nat)
    requires lo <= i <= hi && lo <= j <= hi && hi < |v|
    ensures Within(v, Swapped(v, i, j), lo, hi)
  {
  }

  lemma WithinTrans(u: seq<Elem>, v: seq<Elem>, w: seq<Elem>, lo: int, hi: int)
    requires Within(u, v, lo, hi) && Within(v, w, lo, hi)
    ensures Within(u, w, lo, hi)
  {
  }

  lemma Cancel<T>(a: multiset<T>, x: multiset<T>, y: multiset<T>, c: multiset<T>)
    requires a + x + c == a + y + c
    ensures x == y
  {
    assert x == a + x + c - a - c;
  }

  /** Every element found in the rearranged part was there before. */
  lemma WithinFrom(v: seq<Elem>, w: seq<Elem>, lo: nat, hi: nat, k: nat) returns (j: nat)
    requires Within(v, w, lo, hi) && lo <= k <= hi < |v|
    ensures lo <= j <= hi && v[j] == w[k]
  {
    var vm, wm := v[lo..hi + 1], w[lo..hi + 1];
    var a, c := v[..lo], v[hi + 1..];
    assert v == a + vm + c;
    assert w == a + wm + c by { assert w[..lo] == a && w[hi + 1..] == c; }
    assert multiset(a) + multiset(vm) + multiset(c) == multiset(a) + multiset(wm) + multiset(c);
    Cancel(multiset(a), multiset(vm), multiset(wm), multiset(c));
    assert wm[k - lo] in multiset(wm);
    assert w[k] in vm;
    var i :| 0 <= i < |vm| && vm[i] == w[k];
    j := lo + i;
  }

  // ---------------------------------------------------------------- partition

  /** `p` separates: everything below `left` is at most `p`, everything above `right` at least. */
  ghost predicate Around(cmp: Cmp, v: seq<Elem>, p: Elem, lo: int, hi: int, left: int, right: int)
    requires 0 <= lo <= hi < |v|
  {
    && (forall k :: lo <= k <= hi && k < left ==> Le(cmp, v[k], p))
    && (forall k :: lo <= k <= hi && right < k ==> Le(cmp, p, v[k]))
  }

  method Less(a: array<Byte>, size: nat, n: nat, cmp: Cmp, i: nat, j: nat) returns (r: bool)
    requires a.Length == Base(n, size) && i < n && j < n
    ensures r == !Le(cmp, View(a[..], size, n)[j], View(a[..], size, n)[i])
  {
    BaseOrder(i, n, size);
    BaseOrder(j, n, size);
    r := cmp(a[Base(i, size)..Base(i, size) + size], a[Base(j, size)..Base(j, size) + size]) < 0;
    assert Element(a[..], size, n, i) == a[Base(i, size)..Base(i, size) + size];
    assert Element(a[..], size, n, j) == a[Base(j, size)..Base(j, size) + size];
  }

  /** Exchange elements `i` and `j` if `i` must come first. */
  method OrderPair(a: array<Byte>, size: nat, n: nat, cmp: Cmp, i: nat, j: nat, ghost lo: nat, ghost hi: nat)
    returns (swapped: bool)
    requires a.Length == Base(n, size) && size > 0 && TotalPreorder(cmp, View(a[..], size, n))
    requires lo <= i <= hi && lo <= j <= hi < n
    modifies a
    ensures var v0, v := old(View(a[..], size, n)), View(a[..], size, n);
      && Within(v0, v, lo, hi) && v == (if swapped then Swapped(v0, i, j) else v0)
      && swapped == !Le(cmp, v0[j], v0[i])
      && Le(cmp, v[j], v[i])
  {
    hide Base, Element, View, TotalPreorder;
    ghost var v0 := View(a[..], size, n);
    Totality(cmp, v0, v0[i], v0[j]);
    swapped := Less(a, size, n, cmp, i, j);
    if swapped {
      Swap(a, size, n, i, j);
      SwappedWithin(v0, i, j, lo, hi);
    }
  }

  /** Order the first, middle and last element, leaving the median in the middle. */
  method MedianOfThree(a: array<Byte>, size: nat, n: nat, cmp: Cmp, lo: nat, mid: nat, hi: nat)
    requires a.Length == Base(n, size) && size > 0 && lo < mid < hi < n && TotalPreorder(cmp, View(a[..], size, n))
    modifies a
    ensures var v := View(a[..], size, n);
      && Within(old(View(a[..], size, n)), v, lo, hi)
      && Le(cmp, v[lo], v[mid]) && Le(cmp, v[mid], v[hi])
  {
    hide Base, Element, View, TotalPreorder, Within;
    ghost var v0 := View(a[..], size, n);
    var _ := OrderPair(a, size, n, cmp, mid, lo, lo, hi);
    ghost var v1 := View(a[..], size, n);
    PreorderWithin(cmp, v0, v1, lo, hi);
    var h := OrderPair(a, size, n, cmp, hi, mid, lo, hi);
    ghost var v2 := View(a[..], size, n);
    WithinTrans(v0, v1, v2, lo, hi);
    PreorderWithin(cmp, v0, v2, lo, hi);
    if h {
      var _ := OrderPair(a, size, n, cmp, mid, lo, lo, hi);
      WithinTrans(v0, v2, View(a[..], size, n), lo, hi);
    }
  }

  lemma Totality(cmp: Cmp, s: seq<Elem>, x: Elem, y: Elem)
    requires TotalPreorder(cmp, s) && x in s && y in s
    ensures Le(cmp, x, y) || Le(cmp, y, x)
  {
  }

  lemma Transitivity(cmp: Cmp, s: seq<Elem>, x: Elem, y: Elem, z: Elem)
    requires TotalPreorder(cmp, s) && x in s && y in s && z in s
    ensures Le(cmp, x, y) && Le(cmp, y, z) ==> Le(cmp, x, z)
  {
  }

  /** Rearranging keeps the elements present, hence the demand on the comparison. */
  lemma PreorderWithin(cmp: Cmp, v: seq<Elem>, w: seq<Elem>, lo: int, hi: int)
    requires Within(v, w, lo, hi)
    ensures TotalPreorder(cmp, v) == TotalPreorder(cmp, w)
  {
    SameElements(v, w);
  }

  lemma SameElements(v: seq<Elem>, w: seq<Elem>)
    requires multiset(v) == multiset(w)
    ensures forall x :: x in v <==> x in w
  {
    forall x ensures x in v <==> x in w {
      assert x in v <==> x in multiset(v);
      assert x in w <==> x in multiset(w);
    }
  }

  /** The inner scans stop by themselves: the ends of the range hold sentinels. */
  method ScanUp(a: array<Byte>, size: nat, n: nat, cmp: Cmp, mid: nat, left0: nat, ghost lo: nat, hi: nat)
    returns (left: nat)
    requires a.Length == Base(n, size) && TotalPreorder(cmp, View(a[..], size, n))
    requires lo <= left0 <= hi < n && mid < n
    requires var v := View(a[..], size, n);
      Le(cmp, v[mid], v[hi]) && forall k :: lo <= k < left0 ==> Le(cmp, v[k], v[mid])
    ensures left0 <= left <= hi
    ensures var v := View(a[..], size, n);
      Le(cmp, v[mid], v[left]) && forall k :: lo <= k < left ==> Le(cmp, v[k], v[mid])
  {
    hide Base, Element, View, TotalPreorder;
    ghost var v := View(a[..], size, n);
    left := left0;
    while true
      invariant left0 <= left <= hi
      invariant forall k :: lo <= k < left ==> Le(cmp, v[k], v[mid])
      decreases hi - left
    {
      Totality(cmp, v, v[left], v[mid]);
      var l := Less(a, size, n, cmp, left, mid);
      if !l { break; }
      left := left + 1;
    }
  }

  method ScanDown(a: array<Byte>, size: nat, n: nat, cmp: Cmp, mid: nat, right0: nat, lo: nat, ghost hi: nat)
    returns (right: nat)
    requires a.Length == Base(n, size) && TotalPreorder(cmp, View(a[..], size, n))
    requires lo <= right0 <= hi < n && mid < n
    requires var v := View(a[..], size, n);
      Le(cmp, v[lo], v[mid]) && forall k :: right0 < k <= hi ==> Le(cmp, v[mid], v[k])
    ensures lo <= right <= right0
    ensures var v := View(a[..], size, n);
      Le(cmp, v[right], v[mid]) && forall k :: right < k <= hi ==> Le(cmp, v[mid], v[k])
  {
    hide Base, Element, View, TotalPreorder;
    ghost var v := View(a[..], size, n);
    right := right0;
    while true
      invariant lo <= right <= right0
      invariant forall k :: right < k <= hi ==> Le(cmp, v[mid], v[k])
      decreases right
    {
      Totality(cmp, v, v[right], v[mid]);
      var l := Less(a, size, n, cmp, mid, right);
      if !l { break; }
      right := right - 1;
    }
  }

  /** What the partition loop keeps: the pivot value `p` stays at `mid`. */
  ghost predicate Splitting(cmp: Cmp, v0: seq<Elem>, v: seq<Elem>, p: Elem, mid: int,
                            lo: int, hi: int, left: int, right: int)
  {
    && 0 <= lo < left && left <= hi + 1 && lo <= right + 1 && right < hi && hi < |v|
    && lo <= mid <= hi && v[mid] == p
    && Within(v0, v, lo, hi) && Around(cmp, v, p, lo, hi, left, right)
    && Le(cmp, v[lo], p) && Le(cmp, p, v[hi])
  }

  lemma ExchangeKeeps(cmp: Cmp, v0: seq<Elem>, v: seq<Elem>, p: Elem, mid: nat, lo: nat, hi: nat, left: nat, right: nat)
    requires Splitting(cmp, v0, v, p, mid, lo, hi, left, right) && left < right
    requires Le(cmp, p, v[left]) && Le(cmp, v[right], p)
    ensures var mid' := if mid == left then right else if mid == right then left else mid;
      Splitting(cmp, v0, Swapped(v, left, right), p, mid', lo, hi, left + 1, right - 1)
  {
    SwappedWithin(v, left, right, lo, hi);
    WithinTrans(v0, v, Swapped(v, left, right), lo, hi);
  }

  /** One round of the main loop: everything up to `right` goes before everything from `left`. */
  method Partition(a: array<Byte>, size: nat, n: nat, cmp: Cmp, lo: nat, hi: nat)
    returns (left: nat, right: nat, ghost p: Elem)
    requires a.Length == Base(n, size) && size > 0 && TotalPreorder(cmp, View(a[..], size, n))
    requires lo + MAX_THRESH <= hi < n
    modifies a
    ensures lo <= right < left <= hi && right < hi && lo < left
    ensures Within(old(View(a[..], size, n)), View(a[..], size, n), lo, hi)
    ensures p in View(a[..], size, n) && Around(cmp, View(a[..], size, n), p, lo, hi, left, right)
  {
    hide Base, Element, View, TotalPreorder, Within, Swapped, Le;
    ghost var v0 := View(a[..], size, n);
    var mid := lo + (hi - lo) / 2;
    MedianOfThree(a, size, n, cmp, lo, mid, hi);
    p := View(a[..], size, n)[mid];
    left, right := lo + 1, hi - 1;
    while true
      invariant Splitting(cmp, v0, View(a[..], size, n), p, mid, lo, hi, left, right) && left <= right
      decreases right - left
    {
      ghost var v := View(a[..], size, n);
      PreorderWithin(cmp, v0, v, lo, hi);
      left := ScanUp(a, size, n, cmp, mid, left, lo, hi);
      right := ScanDown(a, size, n, cmp, mid, right, lo, hi);
      if left < right {
        ExchangeKeeps(cmp, v0, v, p, mid, lo, hi, left, right);
        Swap(a, size, n, left, right);
        if mid == left { mid := right; } else if mid == right { mid := left; }
        left, right := left + 1, right - 1;
      } else if left == right {
        left, right := left + 1, right - 1;
        break;
      }
      if left > right { break; }
    }
  }

  // ---------------------------------------------------------------- pending ranges

  datatype Range = Range(lo: int, hi: int)

  ghost predicate Inside(r: Range, v: seq<Elem>) { 0 <= r.lo <= r.hi < |v| }

  /** What is left of the range goes before it, what is right of it after. */
  ghost predicate Separated(cmp: Cmp, v: seq<Elem>, r: Range)
    requires Inside(r, v)
  {
    && (forall i, k :: 0 <= i < r.lo <= k <= r.hi ==> Le(cmp, v[i], v[k]))
    && (forall k, j :: r.lo <= k <= r.hi < j < |v| ==> Le(cmp, v[k], v[j]))
  }

  ghost predicate Apart(r: Range, q: Range) { r.hi < q.lo || q.hi < r.lo }

  ghost predicate Covered(ps: seq<Range>, i: int, j: int) {
    exists k :: 0 <= k < |ps| && ps[k].lo <= i && j <= ps[k].hi
  }

  /** Positions further apart than a small partition are in order, unless both are still in one
      pending range. */
  ghost predicate FarOrdered(cmp: Cmp, v: seq<Elem>, ps: seq<Range>) {
    forall i, j :: 0 <= i < j < |v| && i + MAX_THRESH < j ==> Le(cmp, v[i], v[j]) || Covered(ps, i, j)
  }

  ghost predicate Pending(cmp: Cmp, v: seq<Elem>, ps: seq<Range>) {
    && (forall k :: 0 <= k < |ps| ==> Inside(ps[k], v) && Separated(cmp, v, ps[k]))
    && (forall k, m :: 0 <= k < m < |ps| ==> Apart(ps[k], ps[m]))
    && FarOrdered(cmp, v, ps)
  }

  /** A partition result: `w` is `v` rearranged in `r` around the pivot value `p`. */
  ghost predicate Parted(cmp: Cmp, v: seq<Elem>, w: seq<Elem>, r: Range, left: int, right: int, p: Elem) {
    && TotalPreorder(cmp, w) && p in w
    && Inside(r, v) && r.lo <= right < left <= r.hi && Within(v, w, r.lo, r.hi)
    && Around(cmp, w, p, r.lo, r.hi, left, right)
  }

  lemma OutsideKeeps(cmp: Cmp, v: seq<Elem>, w: seq<Elem>, r: Range, left: int, right: int, p: Elem, q: Range)
    requires Parted(cmp, v, w, r, left, right, p)
    requires Inside(q, v) && Separated(cmp, v, q) && Apart(q, r)
    ensures Separated(cmp, w, q)
  {
    forall i, k | 0 <= i < q.lo <= k <= q.hi ensures Le(cmp, w[i], w[k]) {
      if r.lo <= i <= r.hi { var i' := WithinFrom(v, w, r.lo, r.hi, i); }
    }
    forall k, j | q.lo <= k <= q.hi < j < |v| ensures Le(cmp, w[k], w[j]) {
      if r.lo <= j <= r.hi { var j' := WithinFrom(v, w, r.lo, r.hi, j); }
    }
  }

  lemma CrossPivot(cmp: Cmp, v: seq<Elem>, w: seq<Elem>, r: Range, left: int, right: int, p: Elem, i: int, j: int)
    requires Parted(cmp, v, w, r, left, right, p)
    requires r.lo <= i < left && right < j <= r.hi
    ensures Le(cmp, w[i], w[j])
  {
    Transitivity(cmp, w, w[i], p, w[j]);
  }

  lemma AcrossRange(cmp: Cmp, v: seq<Elem>, w: seq<Elem>, r: Range, left: int, right: int, p: Elem, i: int, j: int)
    requires Parted(cmp, v, w, r, left, right, p) && Separated(cmp, v, r)
    requires 0 <= i < j < |v|
    requires (i < r.lo <= j <= r.hi) || (r.lo <= i <= r.hi < j)
    ensures Le(cmp, w[i], w[j])
  {
    if i < r.lo {
      var j' := WithinFrom(v, w, r.lo, r.hi, j);
    } else {
      var i' := WithinFrom(v, w, r.lo, r.hi, i);
    }
  }

  lemma PartsSeparated(cmp: Cmp, v: seq<Elem>, w: seq<Elem>, r: Range, left: int, right: int, p: Elem)
    requires Parted(cmp, v, w, r, left, right, p) && Separated(cmp, v, r)
    ensures Separated(cmp, w, Range(r.lo, right)) && Separated(cmp, w, Range(left, r.hi))
  {
    forall i, j | 0 <= i < j < |w| && ((i < r.lo <= j <= r.hi) || (r.lo <= i <= r.hi < j)) ensures Le(cmp, w[i], w[j]) {
      AcrossRange(cmp, v, w, r, left, right, p, i, j);
    }
    forall i, j | r.lo <= i < left && right < j <= r.hi ensures Le(cmp, w[i], w[j]) {
      CrossPivot(cmp, v, w, r, left, right, p, i, j);
    }
  }

  lemma PartsFar(cmp: Cmp, v: seq<Elem>, w: seq<Elem>, ps: seq<Range>, r: Range, left: int, right: int, p: Elem)
    requires Parted(cmp, v, w, r, left, right, p) && Separated(cmp, v, r)
    requires FarOrdered(cmp, v, ps + [r])
    ensures FarOrdered(cmp, w, ps + [Range(r.lo, right), Range(left, r.hi)])
  {
    var ps' := ps + [Range(r.lo, right), Range(left, r.hi)];
    forall i, j | 0 <= i < j < |w| && i + MAX_THRESH < j ensures Le(cmp, w[i], w[j]) || Covered(ps', i, j) {
      if (i < r.lo <= j <= r.hi) || (r.lo <= i <= r.hi < j) {
        AcrossRange(cmp, v, w, r, left, right, p, i, j);
      } else if r.lo <= i && j <= r.hi {
        if i < left && right < j {
          CrossPivot(cmp, v, w, r, left, right, p, i, j);
        } else if j <= right {
          assert ps'[|ps|] == Range(r.lo, right);
        } else {
          assert ps'[|ps| + 1] == Range(left, r.hi);
        }
      } else if Covered(ps + [r], i, j) {
        var k :| 0 <= k < |ps + [r]| && (ps + [r])[k].lo <= i && j <= (ps + [r])[k].hi;
        assert ps'[k] == ps[k];
      }
    }
  }

  /** Partitioning a pending range leaves its two parts pending. */
  lemma PartitionKeeps(cmp: Cmp, v: seq<Elem>, w: seq<Elem>, ps: seq<Range>, r: Range, left: int, right: int, p: Elem)
    requires Parted(cmp, v, w, r, left, right, p) && Pending(cmp, v, ps + [r])
    ensures Pending(cmp, w, ps + [Range(r.lo, right), Range(left, r.hi)])
  {
    var ps0, ps' := ps + [r], ps + [Range(r.lo, right), Range(left, r.hi)];
    assert ps0[|ps|] == r;
    PartsSeparated(cmp, v, w, r, left, right, p);
    PartsFar(cmp, v, w, ps, r, left, right, p);
    forall k | 0 <= k < |ps'| ensures Inside(ps'[k], w) && Separated(cmp, w, ps'[k]) {
      if k < |ps| {
        assert ps0[k] == ps[k];
        OutsideKeeps(cmp, v, w, r, left, right, p, ps[k]);
      }
    }
    forall k, m | 0 <= k < m < |ps'| ensures Apart(ps'[k], ps'[m]) {
      if k < |ps| {
        assert ps0[k] == ps[k] && Apart(ps0[k], ps0[|ps|]);
        if m < |ps| { assert ps0[m] == ps[m]; }
      }
    }
  }

  /** A small range needs no further work here. */
  lemma DropSmall(cmp: Cmp, v: seq<Elem>, ps: seq<Range>, r: Range)
    requires Pending(cmp, v, ps + [r]) && r.hi - r.lo <= MAX_THRESH
    ensures Pending(cmp, v, ps)
  {
    var ps0 := ps + [r];
    assert forall k :: 0 <= k < |ps| ==> ps0[k] == ps[k];
    forall i, j | 0 <= i < j < |v| && i + MAX_THRESH < j ensures Le(cmp, v[i], v[j]) || Covered(ps, i, j) {
      if Covered(ps0, i, j) {
        var k :| 0 <= k < |ps0| && ps0[k].lo <= i && j <= ps0[k].hi;
        assert k < |ps|;
      }
    }
  }

  lemma SwapLast(cmp: Cmp, v: seq<Elem>, ps: seq<Range>, r: Range, q: Range)
    requires Pending(cmp, v, ps + [r, q])
    ensures Pending(cmp, v, ps + [q, r])
  {
    var ps0, ps1 := ps + [r, q], ps + [q, r];
    var n := |ps|;
    assert ps0[n] == r && ps0[n + 1] == q;
    assert forall k :: 0 <= k < n ==> ps0[k] == ps[k] && ps1[k] == ps[k];
    forall k, m | 0 <= k < m < |ps1| ensures Apart(ps1[k], ps1[m]) {
      if k < n && m >= n { assert Apart(ps0[k], ps0[n]) && Apart(ps0[k], ps0[n + 1]); }
      else if k >= n { assert Apart(ps0[n], ps0[n + 1]); }
      else { assert Apart(ps0[k], ps0[m]); }
    }
    forall i, j | 0 <= i < j < |v| && i + MAX_THRESH < j ensures Le(cmp, v[i], v[j]) || Covered(ps1, i, j) {
      if Covered(ps0, i, j) {
        var k :| 0 <= k < |ps0| && ps0[k].lo <= i && j <= ps0[k].hi;
        var m := if k < n then k else if k == n then n + 1 else n;
        assert ps1[m] == ps0[k];
      }
    }
  }

  // ---------------------------------------------------------------- the explicit stack

  ghost function Pow2(d: nat): nat { if d == 0 then 1 else 2 * Pow2(d - 1) }

  ghost function Count(r: Range): int { r.hi - r.lo + 1 }

  ghost function Work(ps: seq<Range>): int {
    if ps == [] then 0 else Work(ps[..|ps| - 1]) + Count(ps[|ps| - 1]) - 1
  }

  /** Each stacked range is at most half of the one below it, so level `k` holds at most
      `n / 2^k` elements. */
  ghost predicate Halving(ps: seq<Range>, n: nat) {
    forall k :: 0 <= k < |ps| ==> MAX_THRESH <= Count(ps[k]) - 1 && Count(ps[k]) * Pow2(k) <= n
  }

  lemma {:induction false} Pow2Mono(d: nat, e: nat)
    requires d <= e
    ensures Pow2(d) <= Pow2(e)
  {
    if d < e { Pow2Mono(d, e - 1); }
  }

  /** So few ranges are ever pending that the stack of STACK_SIZE entries cannot overflow. */
  lemma StackBound(ps: seq<Range>, n: nat)
    requires Halving(ps, n) && n < SIZE_MAX_ELEMS
    ensures |ps| <= 30
  {
    if ps != [] {
      var k := |ps| - 1;
      MulMono(5, Count(ps[k]), Pow2(k));
      Pow2Large(k);
    }
  }

  lemma Pow2Large(k: nat)
    ensures k >= 30 ==> 5 * Pow2(k) >= SIZE_MAX_ELEMS
  {
    Pow2Of30();
    if k >= 30 { Pow2Mono(30, k); }
  }

  lemma Pow2Of30()
    ensures Pow2(30) == 0x4000_0000
  {
    assert Pow2(10) == 1024;
    Pow2Add(10, 20);
    Pow2Add(10, 10);
  }

  lemma {:induction false} Pow2Add(d: nat, e: nat)
    ensures Pow2(d + e) == Pow2(d) * Pow2(e)
  {
    if d > 0 {
      Pow2Add(d - 1, e);
      assert Pow2(d + e) == 2 * Pow2(d - 1 + e);
    }
  }

  lemma HalvingReplace(ps: seq<Range>, r: Range, q: Range, n: nat)
    requires Halving(ps + [r], n) && MAX_THRESH <= Count(q) - 1 && Count(q) <= Count(r)
    ensures Halving(ps + [q], n)
  {
    var ps0 := ps + [r];
    assert ps0[|ps|] == r;
    assert forall k :: 0 <= k < |ps| ==> ps0[k] == ps[k];
    MulMono(Count(q), Count(r), Pow2(|ps|));
  }

  lemma HalvingPush(ps: seq<Range>, r: Range, big: Range, small: Range, n: nat)
    requires Halving(ps + [r], n) && MAX_THRESH <= Count(big) - 1 && MAX_THRESH <= Count(small) - 1
    requires Count(big) <= Count(r) && 2 * Count(small) <= Count(r)
    ensures Halving(ps + [big, small], n)
  {
    HalvingReplace(ps, r, big, n);
    var ps1, ps2 := ps + [big], ps + [big, small];
    assert forall k :: 0 <= k <= |ps| ==> ps2[k] == ps1[k];
    assert (ps + [r])[|ps|] == r;
    var c, d := Count(small), Pow2(|ps|);
    assert c * (2 * d) == (2 * c) * d;
    MulMono(2 * c, Count(r), d);
  }

  lemma WorkSnoc(ps: seq<Range>, r: Range)
    ensures Work(ps + [r]) == Work(ps) + Count(r) - 1
  {
    assert (ps + [r])[..|ps|] == ps;
  }

  lemma FirstRange(cmp: Cmp, v: seq<Elem>, n: nat)
    requires |v| == n > MAX_THRESH
    ensures Pending(cmp, v, [Range(0, n - 1)]) && Halving([Range(0, n - 1)], n)
    ensures Within(v, v, 0, n - 1)
  {
    var ps := [Range(0, n - 1)];
    forall i, j | 0 <= i < j < |v| ensures Covered(ps, i, j) {
      assert ps[0].lo <= i && j <= ps[0].hi;
    }
    assert Pow2(0) == 1;
  }

  lemma WithinGrow(v0: seq<Elem>, v: seq<Elem>, w: seq<Elem>, lo: nat, hi: nat)
    requires |v0| == |v| && Within(v0, v, 0, |v| - 1) && Within(v, w, lo, hi)
    ensures Within(v0, w, 0, |v| - 1)
  {
  }

  lemma DropLeft(cmp: Cmp, v: seq<Elem>, ps: seq<Range>, r: Range, q: Range)
    requires Pending(cmp, v, ps + [r, q]) && r.hi - r.lo <= MAX_THRESH
    ensures Pending(cmp, v, ps + [q])
  {
    SwapLast(cmp, v, ps, r, q);
    assert ps + [q, r] == ps + [q] + [r];
    DropSmall(cmp, v, ps + [q], r);
  }

  lemma DropRight(cmp: Cmp, v: seq<Elem>, ps: seq<Range>, r: Range, q: Range)
    requires Pending(cmp, v, ps + [r, q]) && q.hi - q.lo <= MAX_THRESH
    ensures Pending(cmp, v, ps + [r])
  {
    assert ps + [r, q] == ps + [r] + [q];
    DropSmall(cmp, v, ps + [r], q);
  }

  lemma PopFacts(cmp: Cmp, v: seq<Elem>, ps: seq<Range>, r: Range, n: nat)
    requires Pending(cmp, v, ps) && Halving(ps + [r], n) && ps != []
    ensures var last, rest := ps[|ps| - 1], ps[..|ps| - 1];
      && ps == rest + [last] && Halving(rest + [last], n)
      && 0 <= last.lo && last.lo + MAX_THRESH <= last.hi < |v|
      && 0 <= Work(rest + [last]) < Work(ps + [r])
  {
    hide Pending, Halving, Work;
    WorkSnoc(ps, r);
    var last, rest := ps[|ps| - 1], ps[..|ps| - 1];
    assert ps == rest + [last];
    HalvingPrefix(ps, r, n);
    WorkNonnegative(ps, n);
    LastRange(cmp, v, ps, n);
  }

  lemma LastRange(cmp: Cmp, v: seq<Elem>, ps: seq<Range>, n: nat)
    requires Pending(cmp, v, ps) && Halving(ps, n) && ps != []
    ensures var last := ps[|ps| - 1]; 0 <= last.lo && last.lo + MAX_THRESH <= last.hi < |v|
  {
    hide Separated, FarOrdered, Pow2;
    assert Inside(ps[|ps| - 1], v);
  }

  lemma HalvingPrefix(ps: seq<Range>, r: Range, n: nat)
    requires Halving(ps + [r], n)
    ensures Halving(ps, n) && Count(r) > MAX_THRESH
  {
    assert forall k :: 0 <= k < |ps| ==> (ps + [r])[k] == ps[k];
    assert (ps + [r])[|ps|] == r;
  }

  lemma {:induction false} WorkNonnegative(ps: seq<Range>, n: nat)
    requires Halving(ps, n)
    ensures Work(ps) >= 0
  {
    if ps != [] {
      var rest := ps[..|ps| - 1];
      assert ps == rest + [ps[|ps| - 1]];
      HalvingPrefix(rest, ps[|ps| - 1], n);
      WorkNonnegative(rest, n);
    }
  }

  lemma ReplaceFacts(ps: seq<Range>, r: Range, q: Range, n: nat)
    requires Halving(ps + [r], n) && MAX_THRESH <= Count(q) - 1 && Count(q) < Count(r)
    ensures Halving(ps + [q], n) && 0 <= Work(ps + [q]) < Work(ps + [r])
  {
    HalvingReplace(ps, r, q, n);
    WorkNonnegative(ps + [q], n);
    WorkSnoc(ps, q);
    WorkSnoc(ps, r);
  }

  lemma PushFacts(ps: seq<Range>, r: Range, big: Range, small: Range, n: nat)
    requires Halving(ps + [r], n) && n < SIZE_MAX_ELEMS
    requires MAX_THRESH <= Count(big) - 1 && MAX_THRESH <= Count(small) - 1
    requires Count(small) <= Count(big) && Count(small) + Count(big) <= Count(r)
    ensures Halving(ps + [big, small], n) && |ps| + 2 <= 30
    ensures 0 <= Work(ps + [big, small]) < Work(ps + [r])
  {
    HalvingPush(ps, r, big, small, n);
    WorkNonnegative(ps + [big, small], n);
    StackBound(ps + [big, small], n);
    WorkSnoc(ps, r);
    WorkSnoc(ps, big);
    WorkSnoc(ps + [big], small);
    assert ps + [big, small] == ps + [big] + [small];
  }

  /** State of the main loop: `ps` is the stack above its sentinel entry. */
  ghost predicate LoopState(cmp: Cmp, v: seq<Elem>, n: nat, st: seq<Range>, top: int, lo: int, hi: int, ps: seq<Range>) {
    && 0 <= top <= |st| == STACK_SIZE && n == |v|
    && if top == 0 then FarOrdered(cmp, v, [])
       else st[1..top] == ps && 0 <= lo && lo + MAX_THRESH <= hi < n
            && Pending(cmp, v, ps + [Range(lo, hi)]) && Halving(ps + [Range(lo, hi)], n)
  }

  /** Widths of all pending ranges. */
  ghost function Left(top: int, lo: int, hi: int, ps: seq<Range>): int {
    if top == 0 then 0 else 1 + Work(ps + [Range(lo, hi)])
  }

  lemma PendingFar(cmp: Cmp, v: seq<Elem>, ps: seq<Range>)
    requires Pending(cmp, v, ps)
    ensures FarOrdered(cmp, v, ps)
  {
  }

  /** Choose the next range: drop small parts, push the larger of two large ones. */
  method NextRange(stack: array<Range>, top0: nat, lo0: nat, hi0: nat, left: nat, right: nat, size: nat,
                   ghost cmp: Cmp, ghost v: seq<Elem>, ghost n: nat, ghost ps0: seq<Range>)
    returns (top: nat, lo: int, hi: int, ghost ps: seq<Range>)
    requires 0 < top0 <= stack.Length == STACK_SIZE && stack[1..top0] == ps0
    requires n > MAX_THRESH && size > 0 && Fits32(n, size)
    requires |v| == n < SIZE_MAX_ELEMS && lo0 <= right < left <= hi0 < n && lo0 < left && right < hi0
    requires Pending(cmp, v, ps0 + [Range(lo0, right), Range(left, hi0)])
    requires Halving(ps0 + [Range(lo0, hi0)], n)
    modifies stack
    ensures LoopState(cmp, v, n, stack[..], top, lo, hi, ps)
    ensures 0 <= Left(top, lo, hi, ps) < Left(top0, lo0, hi0, ps0)
  {
    hide Pending, Halving, Work, FarOrdered, Offset32, Thresh32, Fits32;
    SmallExact(right - lo0, size, n);
    SmallExact(hi0 - left, size, n);
    ghost var r, rl, rr := Range(lo0, hi0), Range(lo0, right), Range(left, hi0);
    top, lo, hi, ps := top0, lo0, hi0, ps0;
    if Offset32(right - lo0, size) <= Thresh32(size) {
      DropLeft(cmp, v, ps, rl, rr);
      if Offset32(hi0 - left, size) <= Thresh32(size) {
        DropSmall(cmp, v, ps, rr);
        WorkNonnegative(ps + [r], n);
        top := top - 1;
        lo, hi := stack[top].lo, stack[top].hi;
        if top > 0 {
          PopFacts(cmp, v, ps, r, n);
          ps := ps[..|ps| - 1];
        } else {
          PendingFar(cmp, v, ps);
        }
      } else {
        lo := left;
        ReplaceFacts(ps, r, rr, n);
      }
    } else if Offset32(hi0 - left, size) <= Thresh32(size) {
      DropRight(cmp, v, ps, rl, rr);
      hi := right;
      ReplaceFacts(ps, r, rl, n);
    } else if right - lo > hi - left {
      PushFacts(ps, r, rl, rr, n);
      assert ps + [rl, rr] == ps + [rl] + [rr];
      stack[top] := Range(lo, right);
      top := top + 1;
      ps := ps + [rl];
      lo := left;
    } else {
      PushFacts(ps, r, rr, rl, n);
      SwapLast(cmp, v, ps, rl, rr);
      assert ps + [rr, rl] == ps + [rr] + [rl];
      stack[top] := Range(left, hi);
      top := top + 1;
      ps := ps + [rr];
      hi := right;
    }
  }

  /** The quicksort phase: afterwards positions more than MAX_THRESH apart are in order. */
  method SortFar(a: array<Byte>, size: nat, n: nat, cmp: Cmp)
    requires a.Length == Base(n, size) && size > 0 && TotalPreorder(cmp, View(a[..], size, n))
    requires MAX_THRESH < n < SIZE_MAX_ELEMS && Fits32(n, size)
    modifies a
    ensures Within(old(View(a[..], size, n)), View(a[..], size, n), 0, n - 1)
    ensures FarOrdered(cmp, View(a[..], size, n), [])
  {
    hide Base, Element, View, TotalPreorder, Within, Pending, Halving, Work, Around, FarOrdered, Offset32, Fits32;
    ghost var v0 := View(a[..], size, n);
    LastOffset(n, size);
    var lo, hi := 0, Offset32(n - 1, size) / size;
    var stack := new Range[STACK_SIZE];
    stack[0] := Range(0, 0);
    var top := 1;
    ghost var ps: seq<Range> := [];
    FirstRange(cmp, v0, n);
    assert ps + [Range(lo, hi)] == [Range(0, n - 1)];
    while top > 0
      invariant fresh(stack) && Within(v0, View(a[..], size, n), 0, n - 1)
      invariant LoopState(cmp, View(a[..], size, n), n, stack[..], top, lo, hi, ps)
      decreases Left(top, lo, hi, ps)
    {
      ghost var v := View(a[..], size, n);
      PreorderWithin(cmp, v0, v, 0, n - 1);
      var left, right, p := Partition(a, size, n, cmp, lo, hi);
      ghost var w := View(a[..], size, n);
      WithinGrow(v0, v, w, lo, hi);
      PreorderWithin(cmp, v0, w, 0, n - 1);
      PartitionKeeps(cmp, v, w, ps, Range(lo, hi), left, right, p);
      top, lo, hi, ps := NextRange(stack, top, lo, hi, left, right, size, cmp, w, n, ps);
    }
  }

  // ---------------------------------------------------------------- insertion pass

  ghost predicate MinAt(cmp: Cmp, v: seq<Elem>, m: int, end: int)
    requires 0 <= m < |v| && end <= |v|
  {
    forall k :: 0 <= k < end ==> Le(cmp, v[m], v[k])
  }

  /** The smallest of the first `MAX_THRESH + 1` elements goes to the front. */
  method PlaceSentinel(a: array<Byte>, size: nat, n: nat, cmp: Cmp)
    requires a.Length == Base(n, size) && size > 0 && n > 0 && TotalPreorder(cmp, View(a[..], size, n))
    requires Fits32(n, size) && FarOrdered(cmp, View(a[..], size, n), [])
    modifies a
    ensures Within(old(View(a[..], size, n)), View(a[..], size, n), 0, n - 1)
    ensures MinAt(cmp, View(a[..], size, n), 0, n)
  {
    hide Base, Element, View, TotalPreorder, Within, FarOrdered, SentinelEnd, Fits32, Offset32;
    ghost var v := View(a[..], size, n);
    SentinelExact(n, size);
    var end := SentinelEnd(n, size);
    ghost var thresh := LastFront(n);
    assert forall k: nat :: Reached(n, size, k) <==> k <= thresh;
    var tmp, run := 0, 1;
    Totality(cmp, v, v[0], v[0]);
    while Base(run, size) <= end
      invariant 0 <= tmp < run <= thresh + 1 && v == View(a[..], size, n)
      invariant MinAt(cmp, v, tmp, run)
      decreases thresh + 1 - run
    {
      assert Reached(n, size, run);
      var l := Less(a, size, n, cmp, run, tmp);
      if l {
        NewMin(cmp, v, tmp, run);
        tmp := run;
      }
      run := run + 1;
    }
    assert !Reached(n, size, run);
    FrontMin(cmp, v, tmp, thresh + 1);
    if tmp != 0 {
      Swap(a, size, n, tmp, 0);
      SwappedWithin(v, tmp, 0, 0, n - 1);
    } else {
      WithinGrowSelf(v);
    }
  }

  lemma WithinGrowSelf(v: seq<Elem>)
    ensures Within(v, v, 0, |v| - 1)
  {
  }

  lemma NewMin(cmp: Cmp, v: seq<Elem>, tmp: nat, run: nat)
    requires TotalPreorder(cmp, v) && tmp < run < |v|
    requires MinAt(cmp, v, tmp, run) && !Le(cmp, v[tmp], v[run])
    ensures MinAt(cmp, v, run, run + 1)
  {
    Totality(cmp, v, v[tmp], v[run]);
    Totality(cmp, v, v[run], v[run]);
    forall k | 0 <= k < run ensures Le(cmp, v[run], v[k]) {
      Transitivity(cmp, v, v[run], v[tmp], v[k]);
    }
  }

  /** With far positions in order, the minimum of the first slots is the minimum of all. */
  lemma FrontMin(cmp: Cmp, v: seq<Elem>, m: nat, end: nat)
    requires TotalPreorder(cmp, v) && FarOrdered(cmp, v, [])
    requires m < end <= |v| && (end == |v| || end == MAX_THRESH + 1) && MinAt(cmp, v, m, end)
    ensures MinAt(cmp, v, m, |v|)
    ensures MinAt(cmp, Swapped(v, m, 0), 0, |v|)
  {
    forall k | 0 <= k < |v| ensures Le(cmp, v[m], v[k]) {
      if k >= end {
        assert !Covered([], 0, k);
        assert Le(cmp, v[0], v[k]);
        Transitivity(cmp, v, v[m], v[0], v[k]);
      }
    }
  }

  ghost predicate SortedTo(cmp: Cmp, v: seq<Elem>, end: int)
    requires end <= |v|
  {
    forall i, j :: 0 <= i < j < end ==> Le(cmp, v[i], v[j])
  }

  /** Where element `run` belongs. The scan has no lower bound: the sentinel in front stops it. */
  method FindPlace(a: array<Byte>, size: nat, n: nat, cmp: Cmp, run: nat) returns (tmp: nat)
    requires a.Length == Base(n, size) && 0 < run < n
    requires MinAt(cmp, View(a[..], size, n), 0, n)
    ensures 0 < tmp <= run
    ensures var v := View(a[..], size, n);
      Le(cmp, v[tmp - 1], v[run]) && forall k :: tmp <= k < run ==> !Le(cmp, v[k], v[run])
  {
    hide Base, Element, View;
    ghost var v := View(a[..], size, n);
    tmp := run - 1;
    while true
      invariant 0 <= tmp < run
      invariant forall k :: tmp < k < run ==> !Le(cmp, v[k], v[run])
      decreases tmp
    {
      var l := Less(a, size, n, cmp, run, tmp);
      if !l { break; }
      tmp := tmp - 1;
    }
    tmp := tmp + 1;
  }

  /** Insert each element among its predecessors. */
  method InsertionPass(a: array<Byte>, size: nat, n: nat, cmp: Cmp)
    requires a.Length == Base(n, size) && size > 0 && n > 0 && TotalPreorder(cmp, View(a[..], size, n))
    requires Fits32(n, size) && MinAt(cmp, View(a[..], size, n), 0, n)
    modifies a
    ensures Within(old(View(a[..], size, n)), View(a[..], size, n), 0, n - 1)
    ensures Sorted(cmp, View(a[..], size, n))
  {
    hide Base, Element, View, TotalPreorder, Within, Rotated, Le, Offset32, Fits32;
    ghost var v0 := View(a[..], size, n);
    WithinGrowSelf(v0);
    LastOffset(n, size);
    var end := Offset32(n - 1, size);
    var run := 1;
    while true
      invariant 1 <= run <= n
      invariant Within(v0, View(a[..], size, n), 0, n - 1)
      invariant MinAt(cmp, View(a[..], size, n), 0, n)
      invariant SortedTo(cmp, View(a[..], size, n), if run < n then run + 1 else n)
      decreases n - run
    {
      run := run + 1;
      BaseMono(run, n - 1, size);
      if !(Base(run, size) <= end) { break; }
      ghost var v := View(a[..], size, n);
      var tmp := FindPlace(a, size, n, cmp, run);
      PreorderWithin(cmp, v0, v, 0, n - 1);
      InsertKeeps(cmp, v, tmp, run);
      WithinTrans(v0, v, Rotated(v, tmp, run), 0, n - 1);
      if tmp != run {
        Rotate(a, size, n, tmp, run);
      }
    }
  }

  lemma RotatedAt(v: seq<Elem>, tmp: nat, run: nat)
    requires tmp <= run < |v|
    ensures forall k :: 0 <= k < |v| && (k < tmp || k > run) ==> Rotated(v, tmp, run)[k] == v[k]
    ensures Rotated(v, tmp, run)[tmp] == v[run]
    ensures forall k :: tmp < k <= run ==> Rotated(v, tmp, run)[k] == v[k - 1]
  {
  }

  lemma RotatedWithin(v: seq<Elem>, tmp: nat, run: nat)
    requires tmp <= run < |v|
    ensures Within(v, Rotated(v, tmp, run), 0, |v| - 1)
  {
    var a, m, x, c := v[..tmp], v[tmp..run], [v[run]], v[run + 1..];
    assert v == a + (m + x) + c;
    assert Rotated(v, tmp, run) == a + (x + m) + c;
    assert multiset(m + x) == multiset(x + m);
    SamePieces(a, m + x, x + m, c);
  }

  lemma SamePieces(a: seq<Elem>, p: seq<Elem>, q: seq<Elem>, c: seq<Elem>)
    requires multiset(p) == multiset(q)
    ensures multiset(a + p + c) == multiset(a + q + c)
  {
  }

  lemma InsertKeeps(cmp: Cmp, v: seq<Elem>, tmp: nat, run: nat)
    requires TotalPreorder(cmp, v) && 0 < tmp <= run < |v|
    requires MinAt(cmp, v, 0, |v|) && SortedTo(cmp, v, run)
    requires Le(cmp, v[tmp - 1], v[run]) && forall k :: tmp <= k < run ==> !Le(cmp, v[k], v[run])
    ensures Within(v, Rotated(v, tmp, run), 0, |v| - 1)
    ensures MinAt(cmp, Rotated(v, tmp, run), 0, |v|)
    ensures SortedTo(cmp, Rotated(v, tmp, run), run + 1)
    ensures tmp == run ==> Rotated(v, tmp, run) == v
  {
    hide Le, TotalPreorder, Rotated, Within;
    RotatedWithin(v, tmp, run);
    RotatedAt(v, tmp, run);
    var w := Rotated(v, tmp, run);
    forall i, j | 0 <= i < j < run + 1 ensures Le(cmp, w[i], w[j]) {
      if j == tmp {
        if i < tmp - 1 { Transitivity(cmp, v, v[i], v[tmp - 1], v[run]); }
      } else if i == tmp {
        Totality(cmp, v, v[j - 1], v[run]);
      }
    }
  }

  /** quicksort: the buffer's elements are sorted and are the same elements. */
  method Quicksort(a: array<Byte>, n: nat, size: nat, cmp: Cmp)
    requires a.Length == Base(n, size) && size > 0 && n < SIZE_MAX_ELEMS && Fits32(n, size)
    requires TotalPreorder(cmp, View(a[..], size, n))
    modifies a
    ensures forall i, j :: 0 <= i < j < n ==> cmp(View(a[..], size, n)[j], View(a[..], size, n)[i]) >= 0
    ensures Sorted(cmp, View(a[..], size, n))
    ensures multiset(View(a[..], size, n)) == old(multiset(View(a[..], size, n)))
  {
    hide Base, Element, View, TotalPreorder, Fits32;
    if n == 0 { return; }
    ghost var v0 := View(a[..], size, n);
    if n > MAX_THRESH {
      SortFar(a, size, n, cmp);
      PreorderWithin(cmp, v0, View(a[..], size, n), 0, n - 1);
    }
    ghost var v1 := View(a[..], size, n);
    PlaceSentinel(a, size, n, cmp);
    PreorderWithin(cmp, v1, View(a[..], size, n), 0, n - 1);
    InsertionPass(a, size, n, cmp);
  }
}
