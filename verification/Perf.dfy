/**
 bsearch, and its client: a table of performance events hashed by name, sorted with quicksort
 and queried by hash.
 */
module Perf {
  import opened Elements
  import opened Qsort

  // ---------------------------------------------------------------- bsearch

  const SIZE_T := 0x1_0000_0000

  /** The midpoint as computed in 32-bit size_t arithmetic. */
  function Midpoint(l: nat, u: nat): nat { (l + u) % SIZE_T / 2 }

  /** It lies in the interval exactly when the sum does not wrap. */
  lemma MidpointExact(l: nat, u: nat)
    requires l < u < SIZE_T
    ensures l <= Midpoint(l, u) < u <==> l + u < SIZE_T
    ensures l + u < SIZE_T ==> 2 * (Midpoint(l, u) - l) <= u - l && 2 * (u - (Midpoint(l, u) + 1)) <= u - l
  {
    if l + u >= SIZE_T {
      assert (l + u) % SIZE_T == l + u - SIZE_T;
    }
  }

  /** Going through the elements, the key first compares greater, then equal, then less. */
  ghost predicate Bracketed(cmp: Cmp, key: Elem, v: seq<Elem>) {
    && (forall i, j :: 0 <= i < j < |v| && cmp(key, v[i]) < 0 ==> cmp(key, v[j]) < 0)
    && (forall i, j :: 0 <= i < j < |v| && cmp(key, v[j]) > 0 ==> cmp(key, v[i]) > 0)
  }

  /** Neither a midpoint nor the offset of an element wraps. */
  predicate Searchable(n: nat, size: nat) {
    n <= 0x8000_0000 && (n == 0 || Base(n - 1, size) < SIZE_T)
  }

  ghost predicate MidpointsInside(n: nat) { forall l, u :: 0 <= l < u <= n ==> l <= Midpoint(l, u) < u }

  ghost predicate OffsetsExact(n: nat, size: nat) { forall i :: 0 <= i < n ==> Offset32(i, size) == Base(i, size) }

  /** Every interval gets a midpoint inside it and every element its own offset exactly when
      the table is searchable. */
  lemma SearchExact(n: nat, size: nat)
    requires n < SIZE_T
    ensures MidpointsInside(n) && OffsetsExact(n, size) <==> Searchable(n, size)
  {
    forall l: nat, u: nat | l < u <= n ensures l <= Midpoint(l, u) < u <==> l + u < SIZE_T { MidpointExact(l, u); }
    forall i | 0 <= i < n ensures Offset32(i, size) == Base(i, size) <==> Base(i, size) < SIZE_T { OffsetExact(i, size); }
    if Searchable(n, size) {
      forall i | 0 <= i < n ensures Base(i, size) < SIZE_T {
        if i < n - 1 { BaseOrder(i, n - 1, size); }
      }
    } else if n > 0x8000_0000 {
      assert n - 1 + n >= SIZE_T;
      assert !(n - 1 <= Midpoint(n - 1, n) < n);
    } else {
      assert Offset32(n - 1, size) != Base(n - 1, size);
    }
  }

  /** With entries of 16 bytes the offset of entry 2^28 is 0. */
  lemma OffsetWraps()
    ensures Offset32(0x1000_0000, 16) == 0 && !Searchable(0x2000_0000, 16)
  {
  }

  /** bsearch; the index of a matching element, or -1 for NULL. */
  method Bsearch(key: Elem, a: array<Byte>, n: nat, size: nat, cmp: Cmp) returns (r: int)
    requires a.Length == Base(n, size) && Searchable(n, size)
    requires Bracketed(cmp, key, View(a[..], size, n))
    ensures -1 <= r < n
    ensures r >= 0 ==> cmp(key, View(a[..], size, n)[r]) == 0
    ensures r == -1 ==> forall i :: 0 <= i < n ==> cmp(key, View(a[..], size, n)[i]) != 0
  {
    hide Base, Element, View, Midpoint, Offset32;
    ghost var v := View(a[..], size, n);
    SearchExact(n, size);
    var l, u := 0, n;
    while l < u
      invariant 0 <= l <= u <= n
      invariant forall i :: 0 <= i < l ==> cmp(key, v[i]) > 0
      invariant forall i :: u <= i < n ==> cmp(key, v[i]) < 0
    {
      var idx := Midpoint(l, u);
      var c := CompareAt(key, a, n, size, cmp, idx);
      if c < 0 { u := idx; }
      else if c > 0 { l := idx + 1; }
      else { return idx; }
    }
    return -1;
  }

  method CompareAt(key: Elem, a: array<Byte>, n: nat, size: nat, cmp: Cmp, i: nat) returns (c: int)
    requires a.Length == Base(n, size) && i < n && Offset32(i, size) == Base(i, size)
    ensures c == cmp(key, View(a[..], size, n)[i])
  {
    BaseOrder(i, n, size);
    var p := Offset32(i, size);
    c := cmp(key, a[p..p + size]);
    assert Element(a[..], size, n, i) == a[Base(i, size)..Base(i, size) + size];
  }

  // ---------------------------------------------------------------- the hash

  const INT_MAX := 0x7FFF_FFFF
  const ULONG := 0x1_0000_0000_0000_0000

  /** The bytes of a C string, without its terminator. */
  type CString = s: seq<Byte> | 0 !in s witness []

  /** The hash as a polynomial in 33, without any wrap-around. */
  function Poly(s: seq<Byte>): nat {
    if s == [] then 5381 else 33 * Poly(s[..|s| - 1]) + s[|s| - 1] as nat
  }

  function NameHash(s: seq<Byte>): (h: nat)
    ensures h < INT_MAX
  {
    Folded(Poly(s) % ULONG)
  }

  function Folded(x: nat): (h: nat)
    ensures h < INT_MAX
  {
    x % INT_MAX
  }

  function Pow33(k: nat): nat { if k == 0 then 1 else 33 * Pow33(k - 1) }

  /** The sum of `s[i] * 33^(|s| - 1 - i)`. */
  function ByteSum(s: seq<Byte>): nat {
    if s == [] then 0 else s[0] as nat * Pow33(|s| - 1) + ByteSum(s[1..])
  }

  lemma {:induction false} ByteSumSnoc(s: seq<Byte>, c: Byte)
    ensures ByteSum(s + [c]) == 33 * ByteSum(s) + c as nat
  {
    if s == [] {
      assert s + [c] == [c];
      assert [c][1..] == [];
    } else {
      assert (s + [c])[1..] == s[1..] + [c] && (s + [c])[0] == s[0];
      ByteSumSnoc(s[1..], c);
      var x, p := s[0] as nat, Pow33(|s| - 1);
      assert Pow33(|s|) == 33 * p;
      assert x * (33 * p) == 33 * (x * p);
    }
  }

  /** The polynomial, coefficient by coefficient. */
  lemma {:induction false} PolyClosed(s: seq<Byte>)
    ensures Poly(s) == 5381 * Pow33(|s|) + ByteSum(s)
  {
    if s != [] {
      var m := |s| - 1;
      PolyClosed(s[..m]);
      assert s == s[..m] + [s[m]];
      ByteSumSnoc(s[..m], s[m]);
    }
  }

  /**
   Names that differ in their last byte only have different hashes, except when the running value
   wraps at 64 bits between the two and the bytes differ by 4: 2^64 is 4 modulo INT_MAX.
   */
  lemma LastByteExact(p: seq<Byte>, a: Byte, b: Byte)
    requires a < b
    ensures var x := 33 * Poly(p) % ULONG;
      NameHash(p + [a]) == NameHash(p + [b]) <==> x + a as nat < ULONG <= x + b as nat && b as int - a as int == 4
  {
    hide Poly, NameHash, Folded;
    HashSnoc(p, a);
    HashSnoc(p, b);
    LastByteMod(33 * Poly(p) % ULONG, a as nat, b as nat);
  }

  lemma HashSnoc(p: seq<Byte>, c: Byte)
    ensures NameHash(p + [c]) == Folded((33 * Poly(p) % ULONG + c as nat) % ULONG)
  {
    hide Poly, Folded;
    PolySnoc(p, c);
    AddMod(33 * Poly(p), c as nat);
  }

  lemma PolySnoc(p: seq<Byte>, c: Byte)
    ensures Poly(p + [c]) == 33 * Poly(p) + c as nat
  {
    assert (p + [c])[..|p|] == p;
  }

  lemma AddMod(y: nat, c: nat)
    ensures (y + c) % ULONG == (y % ULONG + c) % ULONG
  {
    assert y == y / ULONG * ULONG + y % ULONG;
    ModShift(y % ULONG + c, y / ULONG);
    assert y % ULONG + c + y / ULONG * ULONG == y + c;
  }

  lemma LastByteMod(x: nat, a: nat, b: nat)
    requires x < ULONG && a < b < 256
    ensures Folded((x + a) % ULONG) == Folded((x + b) % ULONG) <==> x + a < ULONG <= x + b && b - a == 4
  {
    if x + b < ULONG {
      NearMod(x + a, b - a);
    } else if x + a >= ULONG {
      assert (x + a) % ULONG == x + a - ULONG && (x + b) % ULONG == x + b - ULONG;
      NearMod(x + a - ULONG, b - a);
    } else {
      var y := x + b - ULONG;
      assert (x + b) % ULONG == y && y < 256;
      assert x + a == y + 4 - (b - a) + 8589934596 * INT_MAX;
      if b - a <= 4 {
        BigMod(y + 4 - (b - a), 8589934596);
      } else {
        assert x + a == y + 4 - (b - a) + INT_MAX + 8589934595 * INT_MAX;
        BigMod(y + 4 - (b - a) + INT_MAX, 8589934595);
      }
    }
  }

  /** Numbers less than 256 apart are different modulo INT_MAX. */
  lemma NearMod(x: nat, d: nat)
    requires 0 < d < 256
    ensures x % INT_MAX != (x + d) % INT_MAX
  {
  }

  lemma BigMod(x: nat, k: nat)
    ensures (x + k * INT_MAX) % INT_MAX == x % INT_MAX
  {
  }

  /** perf_hash: the running value wraps at 64 bits, with the same result. */
  method PerfHash(s: CString) returns (h: nat)
    ensures h == NameHash(s)
    ensures h == (5381 * Pow33(|s|) + ByteSum(s)) % ULONG % INT_MAX
  {
    PolyClosed(s);
    var val := 5381;
    var i := 0;
    while i < |s|
      invariant 0 <= i <= |s| && val == Poly(s[..i]) % ULONG
    {
      var c := s[i] as nat;
      assert s[..i + 1][..i] == s[..i];
      WrapStep(Poly(s[..i]), c);
      val := (val * 32 % ULONG + val + c) % ULONG;
      i := i + 1;
    }
    assert s[..i] == s;
    h := val % INT_MAX;
  }

  lemma WrapStep(x: nat, c: nat)
    ensures ((x % ULONG) * 32 % ULONG + x % ULONG + c) % ULONG == (33 * x + c) % ULONG
  {
    var q, y := x / ULONG, x % ULONG;
    assert x == q * ULONG + y;
    var z := y * 32;
    assert z == (z / ULONG) * ULONG + z % ULONG;
    ModShift(z % ULONG + y + c, z / ULONG + 33 * q);
    assert z % ULONG + y + c + (z / ULONG + 33 * q) * ULONG == 33 * x + c;
  }

  lemma {:induction false} ModShift(x: nat, k: nat)
    ensures (x + k * ULONG) % ULONG == x % ULONG
  {
    if k > 0 { ModShift(x, k - 1); assert x + k * ULONG == (x + (k - 1) * ULONG) + ULONG; }
  }

  // ---------------------------------------------------------------- the event table

  /** A perf_event_t: name pointer in bytes 0-7, number in 8-9, hash in 12-15, little-endian. */
  const EVENT_SIZE := 16
  const MAX_EVENTS := 0x1000_0000

  /** The largest tables whose offsets do not wrap. */
  lemma TableFits(n: nat)
    ensures n <= MAX_EVENTS <==> Fits32(n, EVENT_SIZE)
    ensures n <= MAX_EVENTS <==> Searchable(n, EVENT_SIZE)
  {
  }

  function HashField(e: Elem): nat
    requires |e| == EVENT_SIZE
  {
    e[12] as nat + 0x100 * e[13] as nat + 0x1_0000 * e[14] as nat + 0x100_0000 * e[15] as nat
  }

  function NameField(e: Elem): seq<Byte>
    requires |e| == EVENT_SIZE
  {
    e[..8]
  }

  function HashByte(h: nat, k: nat): Byte
    requires h < SIZE_T && k < 4
  {
    (if k == 0 then h % 0x100 else if k == 1 then h / 0x100 % 0x100
     else if k == 2 then h / 0x100 / 0x100 % 0x100 else h / 0x100 / 0x100 / 0x100) as Byte
  }

  function WithHash(e: Elem, h: nat): (r: Elem)
    requires |e| == EVENT_SIZE && h < SIZE_T
    ensures |r| == EVENT_SIZE
  {
    e[12 := HashByte(h, 0)][13 := HashByte(h, 1)][14 := HashByte(h, 2)][15 := HashByte(h, 3)]
  }

  lemma HashRoundTrip(e: Elem, h: nat)
    requires |e| == EVENT_SIZE && h < SIZE_T
    ensures HashField(WithHash(e, h)) == h && NameField(WithHash(e, h)) == NameField(e)
    ensures WithHash(e, h)[..12] == e[..12]
    ensures var r := WithHash(e, h);
      r[12] as nat + 0x100 * r[13] as nat + 0x1_0000 * r[14] as nat + 0x100_0000 * r[15] as nat == h
  {
    var q1 := h / 0x100;
    var q2 := q1 / 0x100;
    var q3 := q2 / 0x100;
    assert h == 0x100 * q1 + h % 0x100 && q1 == 0x100 * q2 + q1 % 0x100 && q2 == 0x100 * q3 + q2 % 0x100;
    var r := WithHash(e, h);
    assert r[12] as nat == h % 0x100 && r[13] as nat == q1 % 0x100 && r[14] as nat == q2 % 0x100 && r[15] as nat == q3;
  }

  /** perf_cmp: the 32-bit difference of the hashes, read as a signed int. */
  function PerfCmp(x: Elem, y: Elem): int {
    if |x| == EVENT_SIZE && |y| == EVENT_SIZE then
      var d := (HashField(x) - HashField(y)) % SIZE_T;
      if d < 0x8000_0000 then d else d - SIZE_T
    else 0
  }

  /** With hashes below INT_MAX the difference never wraps. */
  lemma PerfCmpExact(x: Elem, y: Elem)
    requires |x| == EVENT_SIZE && |y| == EVENT_SIZE && HashField(x) < INT_MAX && HashField(y) < INT_MAX
    ensures PerfCmp(x, y) == HashField(x) - HashField(y)
  {
  }

  /** Without the bound the comparison is not even transitive. */
  lemma PerfCmpNeedsBound() returns (x: Elem, y: Elem, z: Elem)
    ensures |x| == |y| == |z| == EVENT_SIZE
    ensures Le(PerfCmp, x, y) && Le(PerfCmp, y, z) && !Le(PerfCmp, x, z)
  {
    var e := seq(EVENT_SIZE, i => 0 as Byte);
    x, y, z := e, e[15 := 0x60], e[15 := 0xC0];
    assert HashField(x) == 0 && HashField(y) == 0x6000_0000 && HashField(z) == 0xC000_0000;
  }

  /** The memory behind a name pointer. */
  type Names = seq<Byte> -> CString

  function Hashed(e: Elem, names: Names): (r: Elem)
    requires |e| == EVENT_SIZE
    ensures |r| == EVENT_SIZE
  {
    WithHash(e, NameHash(names(NameField(e))))
  }

  ghost predicate AllHashed(v: seq<Elem>, names: Names) {
    forall i :: 0 <= i < |v| ==> |v[i]| == EVENT_SIZE && HashField(v[i]) == NameHash(names(NameField(v[i])))
  }

  /** A table that init_events has prepared. */
  ghost predicate Initialised(v: seq<Elem>, names: Names) {
    AllHashed(v, names) && forall i, j :: 0 <= i < j < |v| ==> HashField(v[i]) <= HashField(v[j])
  }

  ghost function HashAll(v: seq<Elem>, names: Names): (w: seq<Elem>)
    requires forall i :: 0 <= i < |v| ==> |v[i]| == EVENT_SIZE
    ensures |w| == |v|
  {
    seq(|v|, i requires 0 <= i < |v| => Hashed(v[i], names))
  }

  method StoreHash(a: array<Byte>, n: nat, i: nat, h: nat)
    requires a.Length == Base(n, EVENT_SIZE) && i < n && h < SIZE_T
    modifies a
    ensures View(a[..], EVENT_SIZE, n) == old(View(a[..], EVENT_SIZE, n)[i := WithHash(View(a[..], EVENT_SIZE, n)[i], h)])
  {
    hide Base, Element, View, HashByte;
    ghost var v := View(a[..], EVENT_SIZE, n);
    SetByte(a, EVENT_SIZE, n, i, 12, HashByte(h, 0));
    SetByte(a, EVENT_SIZE, n, i, 13, HashByte(h, 1));
    SetByte(a, EVENT_SIZE, n, i, 14, HashByte(h, 2));
    SetByte(a, EVENT_SIZE, n, i, 15, HashByte(h, 3));
  }

  method ReadName(a: array<Byte>, n: nat, i: nat) returns (p: seq<Byte>)
    requires a.Length == Base(n, EVENT_SIZE) && i < n
    ensures p == NameField(View(a[..], EVENT_SIZE, n)[i])
  {
    BaseOrder(i, n, EVENT_SIZE);
    p := a[Base(i, EVENT_SIZE)..Base(i, EVENT_SIZE) + 8];
    assert Element(a[..], EVENT_SIZE, n, i)[..8] == p;
  }

  /** The hashing loop of init_events. */
  method HashEvents(a: array<Byte>, n: nat, names: Names)
    requires a.Length == Base(n, EVENT_SIZE)
    modifies a
    ensures View(a[..], EVENT_SIZE, n) == HashAll(old(View(a[..], EVENT_SIZE, n)), names)
  {
    hide Base, Element, View, WithHash, HashField, NameField, NameHash;
    ghost var v0 := View(a[..], EVENT_SIZE, n);
    ghost var v := v0;
    var i := 0;
    while i < n
      invariant 0 <= i <= n && v == View(a[..], EVENT_SIZE, n)
      invariant forall k :: 0 <= k < i ==> v[k] == Hashed(v0[k], names)
      invariant forall k :: i <= k < n ==> v[k] == v0[k]
    {
      var p := ReadName(a, n, i);
      var h := PerfHash(names(p));
      StoreHash(a, n, i, h);
      v := v[i := Hashed(v0[i], names)];
      i := i + 1;
    }
  }

  /** init_events: hash every entry, then sort by hash. */
  method InitEvents(a: array<Byte>, n: nat, names: Names)
    requires a.Length == Base(n, EVENT_SIZE) && n <= MAX_EVENTS
    modifies a
    ensures Initialised(View(a[..], EVENT_SIZE, n), names)
    ensures multiset(View(a[..], EVENT_SIZE, n)) == multiset(HashAll(old(View(a[..], EVENT_SIZE, n)), names))
  {
    hide Base, Element, View, HashAll, PerfCmp, Sorted;
    ghost var v0 := View(a[..], EVENT_SIZE, n);
    HashEvents(a, n, names);
    ghost var w := View(a[..], EVENT_SIZE, n);
    HashAllHashed(v0, names);
    HashedPreorder(w, names);
    TableFits(n);
    Quicksort(a, n, EVENT_SIZE, PerfCmp);
    SortedTable(w, View(a[..], EVENT_SIZE, n), names);
  }

  /** Hashing changes the hash field of each entry and nothing else. */
  lemma HashAllKeeps(v: seq<Elem>, names: Names, i: nat)
    requires (forall k :: 0 <= k < |v| ==> |v[k]| == EVENT_SIZE) && i < |v|
    ensures var e := HashAll(v, names)[i];
      |e| == EVENT_SIZE && e[..12] == v[i][..12] && HashField(e) == NameHash(names(v[i][..8]))
  {
    hide WithHash, HashField, NameHash;
    HashRoundTrip(v[i], NameHash(names(NameField(v[i]))));
  }

  lemma HashAllHashed(v: seq<Elem>, names: Names)
    requires forall i :: 0 <= i < |v| ==> |v[i]| == EVENT_SIZE
    ensures AllHashed(HashAll(v, names), names)
  {
    hide WithHash, HashField, NameField, NameHash;
    var w := HashAll(v, names);
    forall i | 0 <= i < |w| ensures |w[i]| == EVENT_SIZE && HashField(w[i]) == NameHash(names(NameField(w[i]))) {
      HashRoundTrip(v[i], NameHash(names(NameField(v[i]))));
    }
  }

  lemma LeByHash(x: Elem, y: Elem)
    requires |x| == EVENT_SIZE && |y| == EVENT_SIZE && HashField(x) < INT_MAX && HashField(y) < INT_MAX
    ensures Le(PerfCmp, x, y) <==> HashField(x) <= HashField(y)
  {
    PerfCmpExact(y, x);
  }

  lemma HashedPreorder(w: seq<Elem>, names: Names)
    requires AllHashed(w, names)
    ensures TotalPreorder(PerfCmp, w)
  {
    hide HashField, NameField, NameHash, PerfCmp, Le;
    forall x, y | x in w && y in w ensures Le(PerfCmp, x, y) <==> HashField(x) <= HashField(y) { LeByHash(x, y); }
  }

  lemma SortedTable(w: seq<Elem>, v: seq<Elem>, names: Names)
    requires AllHashed(w, names) && multiset(v) == multiset(w) && Sorted(PerfCmp, v)
    ensures Initialised(v, names)
  {
    hide HashField, NameField, NameHash, PerfCmp, Le;
    SameElements(v, w);
    assert forall i :: 0 <= i < |v| ==> v[i] in w;
    forall i, j | 0 <= i < j < |v| ensures HashField(v[i]) <= HashField(v[j]) { LeByHash(v[i], v[j]); }
  }

  /** perf_lookup: an entry exactly when some entry has the name's hash. */
  method PerfLookup(name: CString, a: array<Byte>, n: nat, ghost names: Names) returns (r: int)
    requires a.Length == Base(n, EVENT_SIZE) && n <= MAX_EVENTS
    requires Initialised(View(a[..], EVENT_SIZE, n), names)
    ensures -1 <= r < n
    ensures r >= 0 ==> HashField(View(a[..], EVENT_SIZE, n)[r]) == NameHash(name)
    ensures r == -1 <==> forall i :: 0 <= i < n ==>
      NameHash(names(NameField(View(a[..], EVENT_SIZE, n)[i]))) != NameHash(name)
  {
    hide Base, Element, View, WithHash, HashField, NameField, NameHash, PerfCmp;
    var h := PerfHash(name);
    var zero := seq(EVENT_SIZE, i => 0 as Byte);
    HashRoundTrip(zero, h);
    var key := WithHash(zero, h);
    ghost var v := View(a[..], EVENT_SIZE, n);
    forall i | 0 <= i < n ensures PerfCmp(key, v[i]) == h - HashField(v[i]) { PerfCmpExact(key, v[i]); }
    TableFits(n);
    r := Bsearch(key, a, n, EVENT_SIZE, PerfCmp);
  }
}
