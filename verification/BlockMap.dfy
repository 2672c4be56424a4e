/**
 The block map of an ext2 inode: twelve direct blocks, then one single, one double and one triple
 indirect block. A disk block is seen as its 32-bit words; reading and replacing the entry of a
 file block are given here as functions of the inode's slots and of the disk, and related.
 */
module BlockMap {

  /** Pointers in an indirect block, for the 4096 bytes that one disk read fetches. */
  const P: nat := 1024
  const SLOTS: nat := 15
  const NO_BLOCK: nat := 0xFFFF_FFFF

  /** The first block number of each indirect range, and of none. */
  const SINGLE: nat := 12
  const DOUBLE: nat := 12 + 1024
  const TRIPLE: nat := 12 + 1024 + 1024 * 1024
  const CAP: nat := 12 + 1024 + 1024 * 1024 + 1024 * 1024 * 1024

  type Block = b: seq<nat> | |b| == P witness seq(P, i => 0)

  function Empty(): Block { seq(P, i => 0) }

  type Disk = map<nat, Block>

  function Read(disk: Disk, n: nat): Block { if n in disk then disk[n] else Empty() }

  /** Pointer `i` of indirect block `ptr`. */
  function Kid(disk: Disk, ptr: nat, i: nat): nat
    requires i < P
  {
    Read(disk, ptr)[i]
  }

  // ---------------------------------------------------------------- index paths

  /** An inode slot and the indices to follow from there. */
  datatype Path = Path(slot: nat, steps: seq<nat>)

  /** The path get_disk_block_number follows. */
  function PathOf(ib: nat): Path
    requires ib < CAP
  {
    if ib < SINGLE then Path(ib, [])
    else if ib < DOUBLE then Path(12, [ib - SINGLE])
    else if ib < TRIPLE then Path(13, [(ib - DOUBLE) / P, (ib - DOUBLE) % P])
    else
      var c := ib - TRIPLE;
      Path(14, [c / (P * P), c % (P * P) / P, c % (P * P) % P])
  }

  predicate InRange(q: seq<nat>) { forall i :: 0 <= i < |q| ==> q[i] < P }

  /** The paths the layout has. */
  predicate IsPath(p: Path) {
    InRange(p.steps) && |p.steps| <= 3
    && if p.steps == [] then p.slot < 12 else p.slot == 11 + |p.steps|
  }

  /** The steps read as a number in base P. */
  function Offset(q: seq<nat>): nat {
    if q == [] then 0 else Offset(q[..|q| - 1]) * P + q[|q| - 1]
  }

  function BlockOf(p: Path): nat {
    match |p.steps|
    case 0 => p.slot
    case 1 => SINGLE + Offset(p.steps)
    case 2 => DOUBLE + Offset(p.steps)
    case _ => TRIPLE + Offset(p.steps)
  }

  lemma Offset1(q: seq<nat>)
    requires |q| == 1
    ensures Offset(q) == q[0]
  {
    assert Offset(q[..0]) == 0;
  }

  lemma Offset2(q: seq<nat>)
    requires |q| == 2
    ensures Offset(q) == q[0] * P + q[1]
  {
    Offset1(q[..1]);
  }

  lemma Offset3(q: seq<nat>)
    requires |q| == 3
    ensures Offset(q) == q[0] * (P * P) + q[1] * P + q[2]
  {
    Offset2(q[..2]);
  }

  lemma TwoDigits(b: nat)
    requires b < P * P
    ensures b / P < P && b % P < P && b / P * P + b % P == b
  {
  }

  lemma ThreeDigits(c: nat)
    requires c < P * P * P
    ensures c / (P * P) < P && c % (P * P) / P < P && c % (P * P) % P < P
    ensures c / (P * P) * (P * P) + c % (P * P) / P * P + c % (P * P) % P == c
  {
    TwoDigits(c % (P * P));
  }

  /** Every block number has a path of the layout, and no two have the same. */
  lemma PathRoundTrip(ib: nat)
    requires ib < CAP
    ensures IsPath(PathOf(ib)) && BlockOf(PathOf(ib)) == ib
  {
    hide Offset;
    var q := PathOf(ib).steps;
    if |q| == 1 {
      Offset1(q);
    } else if |q| == 2 {
      Offset2(q);
      TwoDigits(ib - DOUBLE);
    } else if |q| == 3 {
      Offset3(q);
      ThreeDigits(ib - TRIPLE);
    }
  }

  lemma DigitsOfTwo(x: nat, y: nat)
    requires x < P && y < P
    ensures x * P + y < P * P && (x * P + y) / P == x && (x * P + y) % P == y
  {
  }

  lemma DigitsOfThree(x: nat, y: nat, z: nat)
    requires x < P && y < P && z < P
    ensures x * (P * P) + (y * P + z) < P * P * P
    ensures (x * (P * P) + (y * P + z)) / (P * P) == x
    ensures (x * (P * P) + (y * P + z)) % (P * P) == y * P + z
  {
  }

  /** Every path of the layout belongs to a block number. */
  lemma BlockRoundTrip(p: Path)
    requires IsPath(p)
    ensures BlockOf(p) < CAP && PathOf(BlockOf(p)) == p
  {
    hide Offset;
    var q := p.steps;
    if q == [] {
    } else if |q| == 1 {
      Offset1(q);
      assert q == [q[0]];
    } else if |q| == 2 {
      Offset2(q);
      DigitsOfTwo(q[0], q[1]);
      assert q == [q[0], q[1]];
    } else {
      Offset3(q);
      DigitsOfThree(q[0], q[1], q[2]);
      DigitsOfTwo(q[1], q[2]);
      assert q == [q[0], q[1], q[2]];
    }
  }

  // ---------------------------------------------------------------- lookup

  function Walk(disk: Disk, ptr: nat, q: seq<nat>): nat
    requires InRange(q)
    decreases |q|
  {
    if q == [] then ptr else Walk(disk, Kid(disk, ptr, q[0]), q[1..])
  }

  datatype Store = Store(disk: Disk, free: seq<nat>)

  /** An inode's block slots, the disk, and the blocks the allocator hands out next. */
  datatype Fs = Fs(blocks: seq<nat>, store: Store)

  function DiskBlock(blocks: seq<nat>, disk: Disk, ib: nat): nat
    requires |blocks| == SLOTS
  {
    if ib >= CAP then 0
    else
      PathRoundTrip(ib);
      Walk(disk, blocks[PathOf(ib).slot], PathOf(ib).steps)
  }

  // ---------------------------------------------------------------- replacement

  /** The path set_disk_block_number follows: each range test also admits the next range's first block. */
  function SetPath(ib: nat): Path
    requires ib <= CAP
  {
    if ib <= SINGLE then Path(ib, [])
    else if ib <= DOUBLE then Path(12, [ib - SINGLE])
    else if ib <= TRIPLE then Path(13, [(ib - DOUBLE) / P, (ib - DOUBLE) % P])
    else
      var c := ib - TRIPLE;
      Path(14, [c / (P * P), c % (P * P) / P, c % (P * P) % P])
  }

  predicate RangeStart(ib: nat) { ib == SINGLE || ib == DOUBLE || ib == TRIPLE }

  /** The two paths differ exactly at the first block of each indirect range. */
  lemma SetPathExact(ib: nat)
    requires ib < CAP
    ensures SetPath(ib) == PathOf(ib) <==> !RangeStart(ib)
  {
  }

  /** Word `i` of a buffer that holds `b` followed by `junk`. */
  function WordAt(b: Block, i: nat, junk: nat): nat { if i < P then b[i] else junk }

  /** What is left of a store to word `i` once the first P words are written back. */
  function Put(b: Block, i: nat, v: nat): Block { if i < P then b[i := v] else b }

  function Next(free: seq<nat>): nat { if free == [] then NO_BLOCK else free[0] }

  function Rest(free: seq<nat>): seq<nat> { if free == [] then [] else free[1..] }

  /** The block under word `i` of block `cur`, allocated when that word is 0. */
  function Child(s: Store, cur: nat, i: nat, junk: nat): (Store, nat) {
    var b := Read(s.disk, cur);
    var n := Next(s.free);
    if WordAt(b, i, junk) != 0 then (s, WordAt(b, i, junk))
    else if n == 0 then (Store(s.disk, Rest(s.free)), 0)
    else (Store(s.disk[cur := Put(b, i, n)], Rest(s.free)), n)
  }

  function Fill(s: Store, cur: nat, q: seq<nat>, d: nat, junk: nat): Store
    requires q != []
    decreases |q|
  {
    if |q| == 1 then s.(disk := s.disk[cur := Put(Read(s.disk, cur), q[0], d)])
    else
      var (t, c) := Child(s, cur, q[0], junk);
      Fill(t, c, q[1..], d, junk)
  }

  /** Slot `k` filled from the allocator when it is 0. */
  function Rooted(fs: Fs, k: nat): (r: Fs)
    requires k < |fs.blocks|
    ensures |r.blocks| == |fs.blocks|
  {
    if fs.blocks[k] != 0 then fs
    else
      Fs(fs.blocks[k := Next(fs.store.free)], Store(fs.store.disk, Rest(fs.store.free)))
  }

  function SetBlock(fs: Fs, ib: nat, d: nat, junk: nat): (r: Fs)
    requires |fs.blocks| == SLOTS
    ensures |r.blocks| == SLOTS
  {
    if ib > CAP then fs
    else
      var p := SetPath(ib);
      if p.steps == [] then fs.(blocks := fs.blocks[p.slot := d])
      else
        var r := Rooted(fs, p.slot);
        r.(store := Fill(r.store, r.blocks[p.slot], p.steps, d, junk))
  }

  // ---------------------------------------------------------------- trees of indirect blocks

  /** The end of a path, or 0 when a pointer on it is 0. */
  function Reach(disk: Disk, ptr: nat, q: seq<nat>): nat
    requires InRange(q)
    decreases |q|
  {
    if ptr == 0 || q == [] then ptr else Reach(disk, Kid(disk, ptr, q[0]), q[1..])
  }

  lemma {:induction false} ReachIsWalk(disk: Disk, ptr: nat, q: seq<nat>)
    requires InRange(q) && Reach(disk, ptr, q) != 0
    ensures Walk(disk, ptr, q) == Reach(disk, ptr, q)
    decreases |q|
  {
    if q != [] { ReachIsWalk(disk, Kid(disk, ptr, q[0]), q[1..]); }
  }

  /** `n` is one of the indirect blocks of the tree of depth `k` under `ptr`. */
  ghost predicate Owns(disk: Disk, ptr: nat, k: nat, n: nat)
    decreases k
  {
    ptr != 0 && k > 0
    && (n == ptr || exists i :: 0 <= i < P && Owns(disk, Kid(disk, ptr, i), k - 1, n))
  }

  ghost predicate Apart(disk: Disk, p: nat, j: nat, q: nat, k: nat) {
    forall n :: !(Owns(disk, p, j, n) && Owns(disk, q, k, n))
  }

  /** The indirect blocks under `ptr` are all distinct. */
  ghost predicate TreeOk(disk: Disk, ptr: nat, k: nat)
    decreases k
  {
    ptr != 0 && k > 0 ==>
      (forall i :: 0 <= i < P ==> TreeOk(disk, Kid(disk, ptr, i), k - 1) && !Owns(disk, Kid(disk, ptr, i), k - 1, ptr))
      && forall i, j :: 0 <= i < j < P ==> Apart(disk, Kid(disk, ptr, i), k - 1, Kid(disk, ptr, j), k - 1)
  }

  /** Two disks agree on the indirect blocks of a tree. */
  ghost predicate SameOn(disk: Disk, disk': Disk, ptr: nat, k: nat) {
    forall n :: Owns(disk, ptr, k, n) ==> Read(disk', n) == Read(disk, n)
  }

  lemma SameKids(disk: Disk, disk': Disk, ptr: nat, k: nat, i: nat)
    requires SameOn(disk, disk', ptr, k) && ptr != 0 && k > 0 && i < P
    ensures Kid(disk', ptr, i) == Kid(disk, ptr, i)
    ensures SameOn(disk, disk', Kid(disk, ptr, i), k - 1)
  {
    assert Owns(disk, ptr, k, ptr);
  }

  lemma {:induction false} OwnsFrame(disk: Disk, disk': Disk, ptr: nat, k: nat, n: nat)
    requires SameOn(disk, disk', ptr, k)
    ensures Owns(disk', ptr, k, n) <==> Owns(disk, ptr, k, n)
    decreases k
  {
    if ptr != 0 && k > 0 {
      forall i | 0 <= i < P
        ensures Kid(disk', ptr, i) == Kid(disk, ptr, i)
        ensures Owns(disk', Kid(disk, ptr, i), k - 1, n) <==> Owns(disk, Kid(disk, ptr, i), k - 1, n)
      {
        SameKids(disk, disk', ptr, k, i);
        OwnsFrame(disk, disk', Kid(disk, ptr, i), k - 1, n);
      }
    }
  }

  lemma ApartFrame(disk: Disk, disk': Disk, p: nat, j: nat, q: nat, k: nat)
    requires SameOn(disk, disk', p, j) && SameOn(disk, disk', q, k) && Apart(disk, p, j, q, k)
    ensures Apart(disk', p, j, q, k)
  {
    forall n ensures !(Owns(disk', p, j, n) && Owns(disk', q, k, n)) {
      OwnsFrame(disk, disk', p, j, n);
      OwnsFrame(disk, disk', q, k, n);
    }
  }

  /** A tree depends on its own indirect blocks only. */
  lemma {:induction false} TreeFrame(disk: Disk, disk': Disk, ptr: nat, k: nat)
    requires SameOn(disk, disk', ptr, k) && TreeOk(disk, ptr, k)
    ensures TreeOk(disk', ptr, k)
    decreases k
  {
    hide Owns, SameOn, Apart, Kid;
    if ptr != 0 && k > 0 {
      forall i | 0 <= i < P
        ensures Kid(disk', ptr, i) == Kid(disk, ptr, i)
        ensures TreeOk(disk', Kid(disk, ptr, i), k - 1)
        ensures !Owns(disk', Kid(disk, ptr, i), k - 1, ptr)
      {
        SameKids(disk, disk', ptr, k, i);
        TreeFrame(disk, disk', Kid(disk, ptr, i), k - 1);
        OwnsFrame(disk, disk', Kid(disk, ptr, i), k - 1, ptr);
      }
      forall i, j | 0 <= i < j < P
        ensures Apart(disk', Kid(disk, ptr, i), k - 1, Kid(disk, ptr, j), k - 1)
      {
        SameKids(disk, disk', ptr, k, i);
        SameKids(disk, disk', ptr, k, j);
        ApartFrame(disk, disk', Kid(disk, ptr, i), k - 1, Kid(disk, ptr, j), k - 1);
      }
    }
  }

  lemma {:induction false} ReachFrame(disk: Disk, disk': Disk, ptr: nat, k: nat, q: seq<nat>)
    requires SameOn(disk, disk', ptr, k) && InRange(q) && |q| <= k
    ensures Reach(disk', ptr, q) == Reach(disk, ptr, q)
    decreases k
  {
    if ptr != 0 && q != [] {
      SameKids(disk, disk', ptr, k, q[0]);
      ReachFrame(disk, disk', Kid(disk, ptr, q[0]), k - 1, q[1..]);
    }
  }

  // ---------------------------------------------------------------- replacing one entry

  /** Blocks that may be handed out: distinct, nonzero, cleared, and not in the tree under `ptr`. */
  ghost predicate Fresh(s: Store) {
    (forall i :: 0 <= i < |s.free| ==> s.free[i] != 0 && Read(s.disk, s.free[i]) == Empty())
    && forall i, j :: 0 <= i < j < |s.free| ==> s.free[i] != s.free[j]
  }

  ghost predicate Unowned(s: Store, ptr: nat, k: nat) {
    forall n :: n in s.free ==> !Owns(s.disk, ptr, k, n)
  }

  /** `t` is `s` with the tree under `cur` changed, and grown at most by blocks taken from the free list. */
  ghost predicate Grown(s: Store, t: Store, cur: nat, k: nat) {
    TreeOk(t.disk, cur, k)
    && (forall n :: Owns(t.disk, cur, k, n) ==> Owns(s.disk, cur, k, n) || Taken(s, t, n))
    && (forall n :: Read(t.disk, n) == Read(s.disk, n) || Owns(s.disk, cur, k, n) || Taken(s, t, n))
    && |t.free| <= |s.free| && t.free == s.free[|s.free| - |t.free|..]
  }

  predicate Taken(s: Store, t: Store, n: nat) { n in s.free && n !in t.free }

  lemma GrownFresh(s: Store, t: Store, cur: nat, k: nat)
    requires Grown(s, t, cur, k) && Fresh(s) && Unowned(s, cur, k)
    ensures Fresh(t) && Unowned(t, cur, k) && TreeOk(t.disk, cur, k)
  {
    hide Owns, TreeOk, Read;
    forall i | 0 <= i < |t.free|
      ensures t.free[i] != 0 && Read(t.disk, t.free[i]) == Empty()
    {
      assert t.free[i] == s.free[|s.free| - |t.free| + i];
      assert t.free[i] in t.free && t.free[i] in s.free;
    }
    forall n | n in t.free ensures !Owns(t.disk, cur, k, n) {
      assert n in s.free;
    }
  }

  lemma GrownTwice(s: Store, t: Store, u: Store, cur: nat, k: nat)
    requires Grown(s, t, cur, k) && Grown(t, u, cur, k)
    ensures Grown(s, u, cur, k)
  {
    hide Owns, TreeOk, Read;
    assert forall n :: n in u.free ==> n in t.free;
    assert forall n :: n in t.free ==> n in s.free;
  }

  /** Only what hangs at entry `i` of `cur` differs, and that takes no block from the rest. */
  ghost predicate OneKid(disk: Disk, disk': Disk, cur: nat, k: nat, i: nat)
    requires k > 0 && i < P
  {
    (forall j :: 0 <= j < P && j != i ==>
      Kid(disk', cur, j) == Kid(disk, cur, j) && SameOn(disk, disk', Kid(disk, cur, j), k - 1))
    && TreeOk(disk', Kid(disk', cur, i), k - 1)
    && (forall n :: Owns(disk', Kid(disk', cur, i), k - 1, n) ==>
      Owns(disk, Kid(disk, cur, i), k - 1, n) || !Owns(disk, cur, k, n))
  }

  lemma KidOwned(disk: Disk, cur: nat, k: nat, i: nat, n: nat)
    requires cur != 0 && k > 0 && i < P && Owns(disk, Kid(disk, cur, i), k - 1, n)
    ensures Owns(disk, cur, k, n)
  {
  }

  lemma KidApart(disk: Disk, cur: nat, k: nat, i: nat, j: nat, n: nat)
    requires TreeOk(disk, cur, k) && cur != 0 && k > 0 && i < P && j < P && i != j
    requires Owns(disk, Kid(disk, cur, i), k - 1, n)
    ensures !Owns(disk, Kid(disk, cur, j), k - 1, n)
  {
    hide Owns;
    if i < j {
      assert Apart(disk, Kid(disk, cur, i), k - 1, Kid(disk, cur, j), k - 1);
    } else {
      assert Apart(disk, Kid(disk, cur, j), k - 1, Kid(disk, cur, i), k - 1);
    }
  }

  lemma OneKidApart(disk: Disk, disk': Disk, cur: nat, k: nat, i: nat, j: nat)
    requires TreeOk(disk, cur, k) && cur != 0 && k > 0 && i < P && OneKid(disk, disk', cur, k, i)
    requires j < P && j != i
    ensures Apart(disk', Kid(disk', cur, i), k - 1, Kid(disk', cur, j), k - 1)
    ensures Apart(disk', Kid(disk', cur, j), k - 1, Kid(disk', cur, i), k - 1)
  {
    hide Owns, Kid, TreeOk, SameOn;
    var p, h: nat := Kid(disk', cur, i), k - 1;
    forall n | Owns(disk', p, h, n)
      ensures !Owns(disk', Kid(disk', cur, j), k - 1, n)
    {
      OwnsFrame(disk, disk', Kid(disk, cur, j), k - 1, n);
      if Owns(disk, Kid(disk, cur, j), k - 1, n) {
        KidOwned(disk, cur, k, j, n);
        KidApart(disk, cur, k, j, i, n);
      }
    }
  }

  lemma OneKidTree(disk: Disk, disk': Disk, cur: nat, k: nat, i: nat)
    requires TreeOk(disk, cur, k) && cur != 0 && k > 0 && i < P && OneKid(disk, disk', cur, k, i)
    ensures TreeOk(disk', cur, k)
  {
    hide Owns, Kid, SameOn, Apart;
    forall j | 0 <= j < P
      ensures TreeOk(disk', Kid(disk', cur, j), k - 1) && !Owns(disk', Kid(disk', cur, j), k - 1, cur)
    {
      if j != i {
        TreeFrame(disk, disk', Kid(disk, cur, j), k - 1);
        OwnsFrame(disk, disk', Kid(disk, cur, j), k - 1, cur);
      } else {
        assert Owns(disk, cur, k, cur) by { OwnsItself(disk, cur, k); }
      }
    }
    forall j, l | 0 <= j < l < P
      ensures Apart(disk', Kid(disk', cur, j), k - 1, Kid(disk', cur, l), k - 1)
    {
      if j == i {
        OneKidApart(disk, disk', cur, k, i, l);
      } else if l == i {
        OneKidApart(disk, disk', cur, k, i, j);
      } else {
        ApartFrame(disk, disk', Kid(disk, cur, j), k - 1, Kid(disk, cur, l), k - 1);
      }
    }
  }

  lemma OwnsItself(disk: Disk, cur: nat, k: nat)
    requires cur != 0 && k > 0
    ensures Owns(disk, cur, k, cur)
  {
  }

  lemma OneKidOwns(disk: Disk, disk': Disk, cur: nat, k: nat, i: nat, n: nat)
    requires cur != 0 && k > 0 && i < P && OneKid(disk, disk', cur, k, i)
    requires Owns(disk', cur, k, n)
    ensures Owns(disk, cur, k, n) || Owns(disk', Kid(disk', cur, i), k - 1, n)
  {
    if n != cur {
      var j :| 0 <= j < P && Owns(disk', Kid(disk', cur, j), k - 1, n);
      if j != i {
        OwnsFrame(disk, disk', Kid(disk, cur, j), k - 1, n);
      }
    }
  }

  lemma OneKidReach(disk: Disk, disk': Disk, cur: nat, k: nat, i: nat, q: seq<nat>)
    requires cur != 0 && k > 0 && i < P && OneKid(disk, disk', cur, k, i)
    requires InRange(q) && 0 < |q| <= k && q[0] != i
    ensures Reach(disk', cur, q) == Reach(disk, cur, q)
  {
    ReachFrame(disk, disk', Kid(disk, cur, q[0]), k - 1, q[1..]);
  }

  /** A block write at `cur` that changes entry `i` only. */
  lemma PutOneKid(disk: Disk, cur: nat, k: nat, i: nat, v: nat, disk': Disk)
    requires TreeOk(disk, cur, k) && cur != 0 && k > 0 && i < P
    requires disk' == disk[cur := Put(Read(disk, cur), i, v)]
    requires TreeOk(disk', v, k - 1)
    requires forall n :: Owns(disk', v, k - 1, n) ==> !Owns(disk, cur, k, n)
    ensures OneKid(disk, disk', cur, k, i) && Kid(disk', cur, i) == v
  {
    hide Owns, Apart;
    assert forall n :: n != cur ==> Read(disk', n) == Read(disk, n);
  }

  /** The state after Child, which leaves a nonzero pointer at entry `i`. */
  lemma ChildGrown(s: Store, cur: nat, k: nat, i: nat, junk: nat)
    requires TreeOk(s.disk, cur, k) && cur != 0 && k > 1 && i < P
    requires Fresh(s) && Unowned(s, cur, k) && |s.free| > 0
    ensures var (t, c) := Child(s, cur, i, junk);
      Grown(s, t, cur, k) && c != 0 && Kid(t.disk, cur, i) == c && |t.free| >= |s.free| - 1
    ensures var (t, c) := Child(s, cur, i, junk);
      forall q :: InRange(q) && |q| == k && Reach(s.disk, cur, q) != 0 ==> Reach(t.disk, cur, q) == Reach(s.disk, cur, q)
  {
    hide Owns, TreeOk, Apart, Reach;
    var (t, c) := Child(s, cur, i, junk);
    if Kid(s.disk, cur, i) == 0 {
      assert c in s.free && c !in t.free;
      OwnsItself(s.disk, cur, k);
      EmptyTree(t.disk, c, k - 1);
      PutOneKid(s.disk, cur, k, i, c, t.disk);
      OneKidTree(s.disk, t.disk, cur, k, i);
      forall n | Owns(t.disk, cur, k, n) ensures Owns(s.disk, cur, k, n) || Taken(s, t, n) {
        OneKidOwns(s.disk, t.disk, cur, k, i, n);
      }
      forall q | InRange(q) && |q| == k && Reach(s.disk, cur, q) != 0
        ensures Reach(t.disk, cur, q) == Reach(s.disk, cur, q)
      {
        if q[0] == i {
          ReachZero(s.disk, cur, q);
        } else {
          OneKidReach(s.disk, t.disk, cur, k, i, q);
        }
      }
    }
  }

  lemma ReachZero(disk: Disk, cur: nat, q: seq<nat>)
    requires InRange(q) && q != [] && Kid(disk, cur, q[0]) == 0
    ensures Reach(disk, cur, q) == 0
  {
  }

  lemma NoTree(disk: Disk, k: nat)
    ensures TreeOk(disk, 0, k) && Apart(disk, 0, k, 0, k)
    ensures forall m :: !Owns(disk, 0, k, m)
  {
  }

  /** A cleared block is a tree of itself alone. */
  lemma EmptyTree(disk: Disk, n: nat, k: nat)
    requires n != 0 && Read(disk, n) == Empty()
    ensures TreeOk(disk, n, k)
    ensures forall m :: Owns(disk, n, k, m) ==> m == n
  {
    if k > 0 {
      NoTree(disk, k - 1);
      assert forall i :: 0 <= i < P ==> Kid(disk, n, i) == 0;
    }
  }

  /** What Fill does to the tree it works in. */
  lemma {:induction false} FillGrown(s: Store, cur: nat, q: seq<nat>, d: nat, junk: nat)
    requires InRange(q) && q != [] && cur != 0 && TreeOk(s.disk, cur, |q|)
    requires Fresh(s) && Unowned(s, cur, |q|) && |s.free| >= |q| - 1
    ensures var t := Fill(s, cur, q, d, junk);
      Grown(s, t, cur, |q|) && Walk(t.disk, cur, q) == d && OthersKept(s.disk, t.disk, cur, q)
    decreases |q|
  {
    hide Owns, TreeOk, Apart, Reach, Read, Fresh, Unowned, Grown, Walk, Child;
    var u := Fill(s, cur, q, d, junk);
    var k, i := |q|, q[0];
    if k == 1 {
      LeafFill(s, cur, q, d, junk);
    } else {
      var (t, c) := Child(s, cur, i, junk);
      ChildGrown(s, cur, k, i, junk);
      GrownFresh(s, t, cur, k);
      KidOk(t, cur, k, i);
      FillGrown(t, c, q[1..], d, junk);
      KidGrown(t, u, cur, k, i);
      KidOthers(t, u, cur, q);
      GrownTwice(s, t, u, cur, k);
    }
  }

  /** A mapped path other than `q` ends where it did. */
  ghost predicate OthersKept(s: Disk, t: Disk, cur: nat, q: seq<nat>) {
    forall p: seq<nat> :: InRange(p) && |p| == |q| && p != q && Reach(s, cur, p) != 0 ==> Reach(t, cur, p) == Reach(s, cur, p)
  }

  lemma LeafFill(s: Store, cur: nat, q: seq<nat>, d: nat, junk: nat)
    requires InRange(q) && |q| == 1 && cur != 0 && TreeOk(s.disk, cur, 1)
    ensures var t := Fill(s, cur, q, d, junk);
      Grown(s, t, cur, 1) && Walk(t.disk, cur, q) == d && OthersKept(s.disk, t.disk, cur, q)
  {
    var t := Fill(s, cur, q, d, junk);
    PutOneKid(s.disk, cur, 1, q[0], d, t.disk);
    OneKidTree(s.disk, t.disk, cur, 1, q[0]);
    OwnsItself(s.disk, cur, 1);
    forall p: seq<nat> | InRange(p) && |p| == 1 && p != q
      ensures Reach(t.disk, cur, p) == Reach(s.disk, cur, p)
    {
      assert p == [p[0]] && q == [q[0]];
      OneKidReach(s.disk, t.disk, cur, 1, q[0], p);
    }
  }

  lemma KidOk(s: Store, cur: nat, k: nat, i: nat)
    requires TreeOk(s.disk, cur, k) && cur != 0 && k > 0 && i < P && Unowned(s, cur, k)
    ensures TreeOk(s.disk, Kid(s.disk, cur, i), k - 1) && Unowned(s, Kid(s.disk, cur, i), k - 1)
  {
    hide Apart;
  }

  lemma KidChanged(t: Store, u: Store, cur: nat, k: nat, i: nat)
    requires cur != 0 && k > 0 && i < P && TreeOk(t.disk, cur, k) && Unowned(t, cur, k)
    requires Grown(t, u, Kid(t.disk, cur, i), k - 1)
    ensures Read(u.disk, cur) == Read(t.disk, cur)
    ensures OneKid(t.disk, u.disk, cur, k, i)
  {
    hide Owns, Apart, Read;
    OwnsItself(t.disk, cur, k);
    assert TreeOk(t.disk, Kid(t.disk, cur, i), k - 1) && !Owns(t.disk, Kid(t.disk, cur, i), k - 1, cur);
    assert Read(u.disk, cur) == Read(t.disk, cur);
    forall j | 0 <= j < P && j != i
      ensures Kid(u.disk, cur, j) == Kid(t.disk, cur, j) && SameOn(t.disk, u.disk, Kid(t.disk, cur, j), k - 1)
    {
      var c, h: nat := Kid(t.disk, cur, j), k - 1;
      forall n | Owns(t.disk, c, h, n) ensures Read(u.disk, n) == Read(t.disk, n) {
        KidOwned(t.disk, cur, k, j, n);
        KidApart(t.disk, cur, k, j, i, n);
      }
    }
  }

  /** A tree grows with one of its subtrees. */
  lemma KidGrown(t: Store, u: Store, cur: nat, k: nat, i: nat)
    requires cur != 0 && k > 0 && i < P && TreeOk(t.disk, cur, k) && Unowned(t, cur, k)
    requires Grown(t, u, Kid(t.disk, cur, i), k - 1)
    ensures Grown(t, u, cur, k)
  {
    hide Owns, Apart, TreeOk, SameOn;
    KidChanged(t, u, cur, k, i);
    OneKidTree(t.disk, u.disk, cur, k, i);
    forall n | Owns(u.disk, cur, k, n) ensures Owns(t.disk, cur, k, n) || Taken(t, u, n) {
      OneKidOwns(t.disk, u.disk, cur, k, i, n);
      if Owns(t.disk, Kid(t.disk, cur, i), k - 1, n) { KidOwned(t.disk, cur, k, i, n); }
    }
    forall n ensures Read(u.disk, n) == Read(t.disk, n) || Owns(t.disk, cur, k, n) || Taken(t, u, n) {
      if Owns(t.disk, Kid(t.disk, cur, i), k - 1, n) { KidOwned(t.disk, cur, k, i, n); }
    }
  }

  lemma KidOthers(t: Store, u: Store, cur: nat, q: seq<nat>)
    requires cur != 0 && q != [] && InRange(q) && TreeOk(t.disk, cur, |q|) && Unowned(t, cur, |q|)
    requires Grown(t, u, Kid(t.disk, cur, q[0]), |q| - 1)
    requires OthersKept(t.disk, u.disk, Kid(t.disk, cur, q[0]), q[1..])
    ensures OthersKept(t.disk, u.disk, cur, q)
    ensures Walk(u.disk, cur, q) == Walk(u.disk, Kid(t.disk, cur, q[0]), q[1..])
  {
    hide Owns, Apart, TreeOk, SameOn, Grown;
    var k, i := |q|, q[0];
    KidChanged(t, u, cur, k, i);
    forall p: seq<nat> | InRange(p) && |p| == |q| && p != q && Reach(t.disk, cur, p) != 0
      ensures Reach(u.disk, cur, p) == Reach(t.disk, cur, p)
    {
      if p[0] == i {
        assert p == [p[0]] + p[1..] && q == [q[0]] + q[1..];
        assert p[1..] != q[1..];
      } else {
        OneKidReach(t.disk, u.disk, cur, k, i, p);
      }
    }
  }

  // ---------------------------------------------------------------- the whole inode

  /** Depth of the tree at slot `k`. */
  function Depth(k: nat): nat
    requires k < SLOTS
  {
    if k < 12 then 0 else k - 11
  }

  /** `n` is an indirect block of the inode. */
  ghost predicate Indirect(fs: Fs, n: nat)
    requires |fs.blocks| == SLOTS
  {
    exists k :: 0 <= k < SLOTS && Owns(fs.store.disk, fs.blocks[k], Depth(k), n)
  }

  /** All indirect blocks are distinct, and the allocator hands out fresh cleared blocks. */
  ghost predicate Sound(fs: Fs) {
    |fs.blocks| == SLOTS && Fresh(fs.store)
    && (forall k :: 0 <= k < SLOTS ==> TreeOk(fs.store.disk, fs.blocks[k], Depth(k)) && Unowned(fs.store, fs.blocks[k], Depth(k)))
    && (forall k, l :: 0 <= k < l < SLOTS ==> Apart(fs.store.disk, fs.blocks[k], Depth(k), fs.blocks[l], Depth(l)))
  }

  /** Block `ib` has an entry: no pointer on its path, nor the entry itself, is 0. */
  ghost predicate Mapped(fs: Fs, ib: nat)
    requires |fs.blocks| == SLOTS
  {
    ib < CAP
    && (PathRoundTrip(ib); Reach(fs.store.disk, fs.blocks[PathOf(ib).slot], PathOf(ib).steps) != 0)
  }

  function Lookup(fs: Fs, ib: nat): nat
    requires |fs.blocks| == SLOTS
  {
    DiskBlock(fs.blocks, fs.store.disk, ib)
  }

  ghost predicate OwnedOrTaken(fs: Fs, r: Fs, k: nat, n: nat)
    requires k < SLOTS && |fs.blocks| == SLOTS
  {
    Owns(fs.store.disk, fs.blocks[k], Depth(k), n) || Taken(fs.store, r.store, n)
  }

  /** Slot `k` and its tree change; the other slots and the blocks outside the tree do not. */
  ghost predicate OneSlot(fs: Fs, r: Fs, k: nat)
    requires k < SLOTS
  {
    |fs.blocks| == SLOTS && |r.blocks| == SLOTS
    && (forall l :: 0 <= l < SLOTS && l != k ==> r.blocks[l] == fs.blocks[l])
    && TreeOk(r.store.disk, r.blocks[k], Depth(k))
    && (forall n :: Owns(r.store.disk, r.blocks[k], Depth(k), n) ==> OwnedOrTaken(fs, r, k, n))
    && (forall n :: Read(r.store.disk, n) == Read(fs.store.disk, n) || OwnedOrTaken(fs, r, k, n))
    && |r.store.free| <= |fs.store.free|
    && r.store.free == fs.store.free[|fs.store.free| - |r.store.free|..]
  }

  lemma SlotApart(fs: Fs, k: nat, l: nat, n: nat)
    requires Sound(fs) && k < SLOTS && l < SLOTS && k != l
    requires Owns(fs.store.disk, fs.blocks[k], Depth(k), n)
    ensures !Owns(fs.store.disk, fs.blocks[l], Depth(l), n) && n !in fs.store.free
  {
    hide Owns, TreeOk;
    if k < l {
      assert Apart(fs.store.disk, fs.blocks[k], Depth(k), fs.blocks[l], Depth(l));
    } else {
      assert Apart(fs.store.disk, fs.blocks[l], Depth(l), fs.blocks[k], Depth(k));
    }
  }

  lemma OtherSlotSame(fs: Fs, r: Fs, k: nat, l: nat)
    requires Sound(fs) && k < SLOTS && OneSlot(fs, r, k) && l < SLOTS && l != k
    ensures SameOn(fs.store.disk, r.store.disk, fs.blocks[l], Depth(l))
  {
    hide Owns, TreeOk, Sound;
    forall n | Owns(fs.store.disk, fs.blocks[l], Depth(l), n)
      ensures Read(r.store.disk, n) == Read(fs.store.disk, n)
    {
      SlotApart(fs, l, k, n);
    }
  }

  lemma OneSlotApart(fs: Fs, r: Fs, k: nat, l: nat, n: nat)
    requires Sound(fs) && k < SLOTS && OneSlot(fs, r, k) && l < SLOTS && l != k
    requires Owns(r.store.disk, r.blocks[k], Depth(k), n)
    ensures !Owns(r.store.disk, r.blocks[l], Depth(l), n)
  {
    hide Owns, TreeOk, Sound, Apart;
    OtherSlotSame(fs, r, k, l);
    OwnsFrame(fs.store.disk, r.store.disk, fs.blocks[l], Depth(l), n);
    if Owns(fs.store.disk, fs.blocks[l], Depth(l), n) {
      SlotApart(fs, l, k, n);
    }
  }

  lemma OneSlotFresh(fs: Fs, r: Fs, k: nat)
    requires Sound(fs) && k < SLOTS && OneSlot(fs, r, k)
    ensures Fresh(r.store)
  {
    hide Owns, TreeOk, Apart, Read;
    var f, g := fs.store.free, r.store.free;
    assert Unowned(fs.store, fs.blocks[k], Depth(k));
    forall i | 0 <= i < |g| ensures g[i] != 0 && Read(r.store.disk, g[i]) == Empty() {
      assert g[i] == f[|f| - |g| + i];
      assert g[i] in g && g[i] in f;
    }
  }

  lemma OneSlotTree(fs: Fs, r: Fs, k: nat, l: nat)
    requires Sound(fs) && k < SLOTS && OneSlot(fs, r, k) && l < SLOTS
    ensures TreeOk(r.store.disk, r.blocks[l], Depth(l))
    ensures Unowned(r.store, r.blocks[l], Depth(l))
  {
    hide Owns, TreeOk, Apart, SameOn;
    if l != k {
      OtherSlotSame(fs, r, k, l);
      TreeFrame(fs.store.disk, r.store.disk, fs.blocks[l], Depth(l));
    }
    forall n | n in r.store.free ensures !Owns(r.store.disk, r.blocks[l], Depth(l), n) {
      assert n in fs.store.free;
      if l != k {
        OwnsFrame(fs.store.disk, r.store.disk, fs.blocks[l], Depth(l), n);
      }
    }
  }

  /** Changing one slot's tree in this way keeps the inode sound. */
  lemma OneSlotSound(fs: Fs, r: Fs, k: nat)
    requires Sound(fs) && k < SLOTS && OneSlot(fs, r, k)
    ensures Sound(r)
  {
    hide Owns, TreeOk, Unowned, SameOn, OneSlot, Fresh;
    assert |r.blocks| == SLOTS by { OneSlotSize(fs, r, k); }
    OneSlotFresh(fs, r, k);
    forall l | 0 <= l < SLOTS
      ensures TreeOk(r.store.disk, r.blocks[l], Depth(l)) && Unowned(r.store, r.blocks[l], Depth(l))
    {
      OneSlotTree(fs, r, k, l);
    }
    forall l, m | 0 <= l < m < SLOTS
      ensures Apart(r.store.disk, r.blocks[l], Depth(l), r.blocks[m], Depth(m))
    {
      SlotsApart(fs, r, k, l, m);
    }
  }

  lemma OneSlotSize(fs: Fs, r: Fs, k: nat)
    requires k < SLOTS && OneSlot(fs, r, k)
    ensures |r.blocks| == SLOTS
  {
  }

  lemma SlotsApart(fs: Fs, r: Fs, k: nat, l: nat, m: nat)
    requires Sound(fs) && k < SLOTS && OneSlot(fs, r, k) && l < m < SLOTS
    ensures Apart(r.store.disk, r.blocks[l], Depth(l), r.blocks[m], Depth(m))
  {
    hide Owns, TreeOk, SameOn;
    if l != k && m != k {
      OtherSlotSame(fs, r, k, l);
      OtherSlotSame(fs, r, k, m);
      ApartFrame(fs.store.disk, r.store.disk, fs.blocks[l], Depth(l), fs.blocks[m], Depth(m));
    } else {
      var o := if l == k then m else l;
      forall n | Owns(r.store.disk, r.blocks[k], Depth(k), n) ensures !Owns(r.store.disk, r.blocks[o], Depth(o), n) {
        OneSlotApart(fs, r, k, o, n);
      }
    }
  }

  // ---------------------------------------------------------------- set, then get

  ghost predicate OthersOfSlot(fs: Fs, r: Fs, p: Path)
    requires IsPath(p) && |fs.blocks| == SLOTS && |r.blocks| == SLOTS
  {
    forall q: seq<nat> :: InRange(q) && |q| == |p.steps| && q != p.steps && Reach(fs.store.disk, fs.blocks[p.slot], q) != 0 ==>
      Reach(r.store.disk, r.blocks[p.slot], q) == Reach(fs.store.disk, fs.blocks[p.slot], q)
  }

  lemma RootedSlot(fs: Fs, k: nat)
    requires Sound(fs) && 12 <= k < SLOTS && |fs.store.free| > 0
    ensures var r := Rooted(fs, k);
      OneSlot(fs, r, k) && r.blocks[k] != 0 && Fresh(r.store) && Unowned(r.store, r.blocks[k], Depth(k))
  {
    hide Owns, TreeOk, Apart;
    var r := Rooted(fs, k);
    if fs.blocks[k] == 0 {
      assert fs.store.free[0] in fs.store.free && fs.store.free[0] !in r.store.free;
      EmptyTree(fs.store.disk, fs.store.free[0], Depth(k));
    }
  }

  lemma GrownSlot(fs: Fs, r: Fs, t: Store, k: nat)
    requires k < SLOTS && OneSlot(fs, r, k) && Grown(r.store, t, r.blocks[k], Depth(k))
    ensures OneSlot(fs, r.(store := t), k)
  {
    hide Owns, TreeOk, Read;
    assert forall n :: n in t.free ==> n in r.store.free;
    assert forall n :: n in r.store.free ==> n in fs.store.free;
  }

  /** Away from the range starts, set changes one slot's tree, and in it the entry of `ib` only. */
  lemma SetOneSlot(fs: Fs, ib: nat, d: nat, junk: nat)
    requires Sound(fs) && |fs.store.free| >= 3 && ib < CAP && !RangeStart(ib)
    ensures IsPath(PathOf(ib))
    ensures var r, p := SetBlock(fs, ib, d, junk), PathOf(ib);
      OneSlot(fs, r, p.slot) && Walk(r.store.disk, r.blocks[p.slot], p.steps) == d && OthersOfSlot(fs, r, p)
  {
    hide Owns, TreeOk, Apart, Read, Fresh, Unowned, Grown, Fill, PathOf, SetPath;
    PathRoundTrip(ib);
    SetPathExact(ib);
    var r, p := SetBlock(fs, ib, d, junk), PathOf(ib);
    if p.steps == [] {
      DirectSlot(fs, p.slot, d);
    } else {
      var t := Rooted(fs, p.slot);
      RootedSlot(fs, p.slot);
      FillGrown(t.store, t.blocks[p.slot], p.steps, d, junk);
      GrownSlot(fs, t, r.store, p.slot);
    }
  }

  lemma DirectSlot(fs: Fs, k: nat, d: nat)
    requires |fs.blocks| == SLOTS && k < 12
    ensures OneSlot(fs, fs.(blocks := fs.blocks[k := d]), k)
  {
  }

  /**
   Away from the range starts, set followed by get yields the new disk block; every other mapped
   file block keeps its own, the inode stays sound, and no block is written that was neither an
   indirect block nor free.
   */
  lemma SetThenGet(fs: Fs, ib: nat, d: nat, junk: nat)
    requires Sound(fs) && |fs.store.free| >= 3 && ib < CAP && !RangeStart(ib)
    ensures var r := SetBlock(fs, ib, d, junk);
      Sound(r) && Lookup(r, ib) == d
    ensures var r := SetBlock(fs, ib, d, junk);
      forall jb :: jb != ib && Mapped(fs, jb) ==> Mapped(r, jb) && Lookup(r, jb) == Lookup(fs, jb)
    ensures var r := SetBlock(fs, ib, d, junk);
      forall n :: !Indirect(fs, n) && n !in fs.store.free ==> Read(r.store.disk, n) == Read(fs.store.disk, n)
  {
    hide Owns, TreeOk, Sound, SetBlock, Walk, Reach, PathOf, Read;
    SetOneSlot(fs, ib, d, junk);
    var r, p := SetBlock(fs, ib, d, junk), PathOf(ib);
    OneSlotSound(fs, r, p.slot);
    forall jb | jb != ib && Mapped(fs, jb)
      ensures Mapped(r, jb) && Lookup(r, jb) == Lookup(fs, jb)
    {
      OtherKept(fs, r, ib, jb);
    }
  }

  lemma OtherKept(fs: Fs, r: Fs, ib: nat, jb: nat)
    requires Sound(fs) && ib < CAP && jb != ib && Mapped(fs, jb)
    requires IsPath(PathOf(ib)) && OneSlot(fs, r, PathOf(ib).slot) && OthersOfSlot(fs, r, PathOf(ib))
    ensures Mapped(r, jb) && Lookup(r, jb) == Lookup(fs, jb)
  {
    hide Owns, TreeOk, Sound, Walk, Reach, PathOf, Read, Offset, SameOn;
    PathRoundTrip(ib);
    PathRoundTrip(jb);
    var p, q := PathOf(ib), PathOf(jb);
    if p.slot == q.slot {
      assert p.steps != q.steps;
    } else {
      OtherSlotSame(fs, r, p.slot, q.slot);
      ReachFrame(fs.store.disk, r.store.disk, fs.blocks[q.slot], Depth(q.slot), q.steps);
    }
    ReachIsWalk(fs.store.disk, fs.blocks[q.slot], q.steps);
    ReachIsWalk(r.store.disk, r.blocks[q.slot], q.steps);
  }

  /** Beyond the last range set does nothing, and get gives 0. */
  lemma BeyondRanges(fs: Fs, ib: nat, d: nat, junk: nat)
    requires |fs.blocks| == SLOTS && ib >= CAP
    ensures ib > CAP ==> SetBlock(fs, ib, d, junk) == fs
    ensures Lookup(fs, ib) == 0
  {
  }

  // ---------------------------------------------------------------- the range starts

  /** Set at the first single indirect block replaces the indirect block itself. */
  lemma SetAtSingle(fs: Fs, d: nat, junk: nat)
    requires |fs.blocks| == SLOTS
    ensures var r := SetBlock(fs, SINGLE, d, junk);
      r.blocks[12] == d && Lookup(r, SINGLE) == Read(fs.store.disk, d)[0]
  {
    assert PathOf(SINGLE) == Path(12, [0]);
    assert Walk(fs.store.disk, d, [0]) == Kid(fs.store.disk, d, 0);
  }

  lemma {:induction false} WalkSame(disk: Disk, disk': Disk, ptr: nat, q: seq<nat>)
    requires InRange(q) && forall n :: Read(disk', n) == Read(disk, n)
    ensures Walk(disk', ptr, q) == Walk(disk, ptr, q)
    decreases |q|
  {
    if q != [] { WalkSame(disk, disk', Kid(disk, ptr, q[0]), q[1..]); }
  }

  /** Set at the first double indirect block stores past the end of a block and changes no block. */
  lemma SetAtDouble(fs: Fs, d: nat, junk: nat)
    requires |fs.blocks| == SLOTS
    ensures var r := SetBlock(fs, DOUBLE, d, junk);
      Lookup(r, DOUBLE) == Lookup(fs, DOUBLE) && forall n :: Read(r.store.disk, n) == Read(fs.store.disk, n)
  {
    var r := SetBlock(fs, DOUBLE, d, junk);
    assert SetPath(DOUBLE) == Path(12, [P]);
    assert PathOf(DOUBLE).slot == 13;
    PathRoundTrip(DOUBLE);
    WalkSame(fs.store.disk, r.store.disk, fs.blocks[13], PathOf(DOUBLE).steps);
  }

  lemma TripleFill(s: Store, cur: nat, d: nat, junk: nat)
    ensures var (t, c) := Child(s, cur, P, junk);
      Fill(s, cur, [P, 0], d, junk) == Store(t.disk[c := Read(t.disk, c)[0 := d]], t.free)
    ensures forall n :: Read(Child(s, cur, P, junk).0.disk, n) == Read(s.disk, n)
  {
    var (t, c) := Child(s, cur, P, junk);
    assert [P, 0][1..] == [0];
    assert Fill(t, c, [0], d, junk) == Store(t.disk[c := Put(Read(t.disk, c), 0, d)], t.free);
  }

  /**
   Set at the first triple indirect block follows the word beyond a block. Scratch memory that
   holds a number there has that block overwritten; scratch memory that holds 0 there takes a
   block from the allocator, and the entry keeps its value.
   */
  lemma SetAtTriple(fs: Fs, d: nat, junk: nat)
    requires |fs.blocks| == SLOTS
    ensures junk != 0 ==> SetBlock(fs, TRIPLE, d, junk).store.disk == fs.store.disk[junk := Read(fs.store.disk, junk)[0 := d]]
    ensures junk == 0 && Sound(fs) && |fs.store.free| >= 2 && Mapped(fs, TRIPLE) ==>
      Lookup(SetBlock(fs, TRIPLE, d, junk), TRIPLE) == Lookup(fs, TRIPLE)
  {
    hide Owns, TreeOk, Apart, Walk, Reach, Fill;
    var r := SetBlock(fs, TRIPLE, d, junk);
    var t := Rooted(fs, 13);
    assert SetPath(TRIPLE) == Path(13, [P, 0]);
    TripleFill(t.store, t.blocks[13], d, junk);
    if junk == 0 && Sound(fs) && |fs.store.free| >= 2 && Mapped(fs, TRIPLE) {
      PathRoundTrip(TRIPLE);
      var q := PathOf(TRIPLE).steps;
      var c := Next(t.store.free);
      assert c in fs.store.free;
      assert forall n :: n != c ==> Read(r.store.disk, n) == Read(fs.store.disk, n);
      ReachFrame(fs.store.disk, r.store.disk, fs.blocks[14], 3, q);
      ReachIsWalk(fs.store.disk, fs.blocks[14], q);
      ReachIsWalk(r.store.disk, r.blocks[14], q);
    }
  }

  /** The first entry of a block once `d` is stored as the first entry of block `junk`. */
  function Hop(disk: Disk, x: nat, d: nat, junk: nat): nat {
    if x == junk then d else Kid(disk, x, 0)
  }

  /** With a number in the scratch memory, get at the first triple indirect block takes three hops. */
  lemma TripleJunk(fs: Fs, d: nat, junk: nat)
    requires |fs.blocks| == SLOTS && junk != 0
    ensures var disk, p := fs.store.disk, fs.blocks[14];
      Lookup(SetBlock(fs, TRIPLE, d, junk), TRIPLE)
      == Hop(disk, Hop(disk, Hop(disk, p, d, junk), d, junk), d, junk)
  {
    hide Fill, Walk, InRange;
    var disk, r := fs.store.disk, SetBlock(fs, TRIPLE, d, junk);
    var t := Rooted(fs, 13);
    assert SetPath(TRIPLE) == Path(13, [P, 0]);
    TripleFill(t.store, t.blocks[13], d, junk);
    assert r.store.disk == disk[junk := Read(disk, junk)[0 := d]];
    assert forall x: nat :: Kid(r.store.disk, x, 0) == Hop(disk, x, d, junk);
    PathRoundTrip(TRIPLE);
    assert PathOf(TRIPLE) == Path(14, [0, 0, 0]);
    WalkThree(r.store.disk, r.blocks[14]);
  }

  lemma WalkThree(disk: Disk, p: nat)
    ensures InRange([0, 0, 0])
    ensures Walk(disk, p, [0, 0, 0]) == Kid(disk, Kid(disk, Kid(disk, p, 0), 0), 0)
  {
    var a := Kid(disk, p, 0);
    var b := Kid(disk, a, 0);
    assert [0, 0, 0][1..] == [0, 0] && [0, 0][1..] == [0] && [0][1..] == [];
    assert Walk(disk, b, [0]) == Kid(disk, b, 0);
    assert Walk(disk, a, [0, 0]) == Walk(disk, b, [0]);
  }

  /** Whether replacing the entry of the first triple indirect block has effect: it does when the
      scratch memory happens to name the block that holds the entry, and otherwise only if the
      changed hops end in `d`. */
  predicate TripleEffective(fs: Fs, d: nat, junk: nat)
    requires |fs.blocks| == SLOTS
  {
    var disk, p1 := fs.store.disk, fs.blocks[14];
    var p2 := Kid(disk, p1, 0);
    var p3 := Kid(disk, p2, 0);
    if junk == 0 then Lookup(fs, TRIPLE) == d
    else if junk == p3 then true
    else if junk == p2 then Hop(disk, d, d, junk) == d
    else if junk == p1 then Hop(disk, Hop(disk, d, d, junk), d, junk) == d
    else Lookup(fs, TRIPLE) == d
  }

  lemma TripleExact(fs: Fs, d: nat, junk: nat)
    requires Sound(fs) && |fs.store.free| >= 3 && Mapped(fs, TRIPLE)
    ensures Lookup(SetBlock(fs, TRIPLE, d, junk), TRIPLE) == d <==> TripleEffective(fs, d, junk)
  {
    hide SetBlock, Read, Apart, Walk;
    var disk, p1 := fs.store.disk, fs.blocks[14];
    if junk == 0 {
      SetAtTriple(fs, d, 0);
    } else {
      TripleJunk(fs, d, junk);
      WalkThree(disk, p1);
      PathRoundTrip(TRIPLE);
      assert PathOf(TRIPLE) == Path(14, [0, 0, 0]);
      TripleDistinct(fs);
    }
  }

  /** The three indirect blocks on the path are distinct. */
  lemma TripleDistinct(fs: Fs)
    requires Sound(fs) && Mapped(fs, TRIPLE)
    ensures var p1 := fs.blocks[14];
      var p2 := Kid(fs.store.disk, p1, 0);
      var p3 := Kid(fs.store.disk, p2, 0);
      p1 != p2 && p1 != p3 && p2 != p3
  {
    hide Apart, Read, Unowned, Fresh;
    var disk, p1 := fs.store.disk, fs.blocks[14];
    var p2 := Kid(disk, p1, 0);
    var p3 := Kid(disk, p2, 0);
    PathRoundTrip(TRIPLE);
    assert PathOf(TRIPLE) == Path(14, [0, 0, 0]);
    assert [0, 0, 0][1..] == [0, 0] && [0, 0][1..] == [0];
    assert p1 != 0 && p2 != 0 && p3 != 0;
    assert TreeOk(disk, p1, 3);
    assert TreeOk(disk, p2, 2) && !Owns(disk, p2, 2, p1);
    assert !Owns(disk, p3, 1, p2);
    OwnsItself(disk, p2, 2);
    OwnsItself(disk, p3, 1);
    KidOwned(disk, p2, 2, 0, p3);
  }

  /** Not a range start, or a range start that comes to read as `d` all the same. */
  predicate Effective(fs: Fs, ib: nat, d: nat, junk: nat)
    requires |fs.blocks| == SLOTS
  {
    RangeStart(ib) ==>
      if ib == SINGLE then Read(fs.store.disk, d)[0] == d
      else if ib == DOUBLE then Lookup(fs, ib) == d
      else TripleEffective(fs, d, junk)
  }

  /** Exactly when replacing a mapped entry takes effect, whatever the scratch memory holds. */
  lemma SetTakesEffect(fs: Fs, ib: nat, d: nat, junk: nat)
    requires Sound(fs) && |fs.store.free| >= 3 && Mapped(fs, ib)
    ensures Lookup(SetBlock(fs, ib, d, junk), ib) == d <==> Effective(fs, ib, d, junk)
  {
    hide Lookup, SetBlock, Read, Owns, TreeOk, Apart, Walk, Reach, TripleEffective;
    if !RangeStart(ib) {
      SetThenGet(fs, ib, d, junk);
    } else if ib == SINGLE {
      SetAtSingle(fs, d, junk);
    } else if ib == DOUBLE {
      SetAtDouble(fs, d, junk);
    } else {
      TripleExact(fs, d, junk);
    }
  }

  /** An inode without blocks. */
  function Blank(): Fs { Fs(seq(SLOTS, i => 0), Store(map[], [1, 2, 3])) }

  /** For each range start there is a sound inode on which set has no effect on get. */
  lemma RangeStartLost(ib: nat)
    requires RangeStart(ib)
    ensures Sound(Blank()) && |Blank().store.free| == 3
    ensures Lookup(SetBlock(Blank(), ib, 7, 0), ib) != 7
  {
    var fs := Blank();
    BlankSound();
    SetAtSingle(fs, 7, 0);
    SetAtDouble(fs, 7, 0);
    if ib == DOUBLE {
      BlankLookup(fs, map[], DOUBLE);
    } else if ib == TRIPLE {
      var r := SetBlock(fs, TRIPLE, 7, 0);
      TripleFill(Rooted(fs, 13).store, 1, 7, 0);
      assert SetPath(TRIPLE) == Path(13, [P, 0]);
      BlankLookup(r, r.store.disk, TRIPLE);
    }
  }

  lemma BlankSound()
    ensures Sound(Blank())
  {
  }

  /** Block 0 is read through a slot that is 0. */
  lemma BlankLookup(fs: Fs, disk: Disk, ib: nat)
    requires |fs.blocks| == SLOTS && fs.store.disk == disk && Read(disk, 0) == Empty()
    requires ib == DOUBLE || ib == TRIPLE
    requires fs.blocks[PathOf(ib).slot] == 0
    ensures Lookup(fs, ib) == 0
  {
    PathRoundTrip(ib);
    ZeroWalk(disk, PathOf(ib).steps);
  }

  lemma {:induction false} ZeroWalk(disk: Disk, q: seq<nat>)
    requires Read(disk, 0) == Empty() && InRange(q)
    ensures Walk(disk, 0, q) == 0
    decreases |q|
  {
    if q != [] { ZeroWalk(disk, q[1..]); }
  }
}
