/**
 The ext2 inode operations that use the block map, written as the driver runs them: through a
 scratch buffer, one disk block at a time.
 */
module Ext2 {
  import opened BlockMap
  import opened Elements

  const BLOCK_SIZE: nat := 4096
  const U32: nat := 0x1_0000_0000

  /** A value stored into a C int. */
  function Int32(x: int): int {
    var w := x % U32;
    if w < 0x8000_0000 then w else w - U32
  }

  /** Byte `j` of a block, least significant byte of each word first. */
  function ByteAt(b: Block, j: nat): Byte
    requires j < BLOCK_SIZE
  {
    var w := b[j / 4];
    match j % 4
    case 0 => (w % 256) as Byte
    case 1 => (w / 0x100 % 256) as Byte
    case 2 => (w / 0x1_0000 % 256) as Byte
    case _ => (w / 0x100_0000 % 256) as Byte
  }

  /** A word is its four bytes, least significant first. */
  lemma WordBytes(b: Block, i: nat)
    requires i < P && b[i] < U32
    ensures b[i] == ByteAt(b, 4 * i) as int + 0x100 * ByteAt(b, 4 * i + 1) as int
      + 0x1_0000 * ByteAt(b, 4 * i + 2) as int + 0x100_0000 * ByteAt(b, 4 * i + 3) as int
  {
    var w := b[i];
    assert (4 * i + 1) / 4 == i && (4 * i + 2) / 4 == i && (4 * i + 3) / 4 == i;
    assert w / 0x1_0000 == w / 0x100 / 0x100 && w / 0x100_0000 == w / 0x1_0000 / 0x100;
    assert w / 0x100_0000 % 256 == w / 0x100_0000;
  }

  function Bytes(b: Block): (r: seq<Byte>)
    ensures |r| == BLOCK_SIZE && forall j :: 0 <= j < BLOCK_SIZE ==> r[j] == ByteAt(b, j)
  {
    seq(BLOCK_SIZE, j requires 0 <= j < BLOCK_SIZE => ByteAt(b, j))
  }

  /** Byte `k` of the file the inode describes. */
  function FileByte(blocks: seq<nat>, disk: Disk, k: nat): Byte
    requires |blocks| == SLOTS
  {
    ByteAt(Read(disk, DiskBlock(blocks, disk, k / BLOCK_SIZE)), k % BLOCK_SIZE)
  }

  function FileBytes(blocks: seq<nat>, disk: Disk, from: nat, to: nat): (r: seq<Byte>)
    requires |blocks| == SLOTS && from <= to
    ensures |r| == to - from
  {
    seq(to - from, i requires 0 <= i < to - from => FileByte(blocks, disk, from + i))
  }

  /** Byte by byte: block, and offset in the block. */
  lemma FileBytesAt(blocks: seq<nat>, disk: Disk, from: nat, to: nat, i: nat)
    requires |blocks| == SLOTS && from <= to && i < to - from
    ensures FileBytes(blocks, disk, from, to)[i]
      == ByteAt(Read(disk, DiskBlock(blocks, disk, (from + i) / 4096)), (from + i) % 4096)
  {
    hide Read, DiskBlock, ByteAt;
    assert FileBytes(blocks, disk, from, to)[i] == FileByte(blocks, disk, from + i);
  }

  function Min(a: nat, b: nat): nat { if a <= b then a else b }

  /** The device, and the blocks that ext2_alloc_block hands out, in order. */
  class Device {
    var disk: Disk
    var free: seq<nat>

    constructor (d: Disk, f: seq<nat>)
      ensures disk == d && free == f
    {
      disk, free := d, f;
    }

    /** Fetches a block into the first words of a buffer. */
    method ReadDiskBlock(n: nat, tmp: array<nat>)
      requires tmp.Length == BLOCK_SIZE
      modifies tmp
      ensures tmp[..P] == Read(disk, n) && tmp[P..] == old(tmp[P..])
    {
      var b := Read(disk, n);
      forall i | 0 <= i < P { tmp[i] := b[i]; }
    }

    method WriteDiskBlock(n: nat, tmp: array<nat>)
      requires tmp.Length == BLOCK_SIZE
      modifies this`disk
      ensures disk == old(disk)[n := tmp[..P]]
    {
      disk := disk[n := tmp[..P]];
    }

    method AllocBlock() returns (n: nat)
      modifies this`free
      ensures n == Next(old(free)) && free == Rest(old(free))
      ensures old(free) == [] ==> n == 0xFFFF_FFFF && free == []
      ensures old(free) != [] ==> n == old(free)[0] && free == old(free)[1..]
    {
      n := Next(free);
      free := Rest(free);
    }
  }

  class Inode {
    const blocks: array<nat>
    var size: nat

    ghost predicate Valid() reads this { blocks.Length == SLOTS && size < U32 }

    constructor (n: nat)
      requires n < U32
      ensures Valid() && size == n && fresh(blocks) && forall i :: 0 <= i < SLOTS ==> blocks[i] == 0
    {
      blocks := new nat[SLOTS](i => 0);
      size := n;
    }
  }

  ghost function State(inode: Inode, dev: Device): Fs
    reads inode.blocks, dev
  {
    Fs(inode.blocks[..], Store(dev.disk, dev.free))
  }

  /** get_disk_block_number: with signed remainders of the block number, which do not wrap here. */
  method GetDiskBlockNumber(inode: Inode, dev: Device, ib: nat) returns (ret: nat)
    requires inode.Valid() && ib < 0x8000_0000 + 12
    ensures ret == DiskBlock(inode.blocks[..], dev.disk, ib)
  {
    hide Int32, DiskBlock, Read;
    var tmp := new nat[BLOCK_SIZE];
    ret := 0;
    var a := Int32(ib - 12);
    Int32Same(ib - 12);
    if a < 0 {
      Direct(inode.blocks[..], dev.disk, ib);
      return inode.blocks[ib];
    }
    var b := Int32(a - P);
    Int32Same(a - P);
    if b < 0 {
      ret := Fetch(dev, tmp, inode.blocks[12], a);
      Single(inode.blocks[..], dev.disk, a);
      return;
    }
    var c := Int32(b - P * P);
    Int32Same(b - P * P);
    if c < 0 {
      var i, j := b / P, b - b / P * P;
      Double(inode.blocks[..], dev.disk, b);
      ret := Fetch(dev, tmp, inode.blocks[13], i);
      ret := Fetch(dev, tmp, ret, j);
      return;
    }
    var d := Int32(c - P * P * P);
    Int32Same(c - P * P * P);
    if d < 0 {
      var e := c / (P * P);
      var f := (c - e * P * P) / P;
      var g := c - e * P * P - f * P;
      Triple(inode.blocks[..], dev.disk, c);
      ret := Fetch(dev, tmp, inode.blocks[14], e);
      ret := Fetch(dev, tmp, ret, f);
      ret := Fetch(dev, tmp, ret, g);
    } else {
      Beyond(inode.blocks[..], dev.disk, ib);
    }
  }

  /** Word `i` of block `n`, by way of the scratch buffer. */
  method Fetch(dev: Device, tmp: array<nat>, n: nat, i: nat) returns (w: nat)
    requires tmp.Length == BLOCK_SIZE && i < P
    modifies tmp
    ensures w == Read(dev.disk, n)[i]
  {
    dev.ReadDiskBlock(n, tmp);
    w := tmp[i];
  }

  lemma Int32Same(x: int)
    requires -0x8000_0000 <= x < 0x8000_0000
    ensures Int32(x) == x
  {
  }

  lemma Direct(blocks: seq<nat>, disk: Disk, ib: nat)
    requires |blocks| == SLOTS && ib < SINGLE
    ensures DiskBlock(blocks, disk, ib) == blocks[ib]
  {
  }

  lemma Single(blocks: seq<nat>, disk: Disk, a: nat)
    requires |blocks| == SLOTS && a < P
    ensures DiskBlock(blocks, disk, SINGLE + a) == Read(disk, blocks[12])[a]
  {
    OneStep(disk, blocks[12], a);
  }

  lemma Double(blocks: seq<nat>, disk: Disk, b: nat)
    requires |blocks| == SLOTS && b < P * P
    ensures b / P < P && 0 <= b - b / P * P < P
    ensures DiskBlock(blocks, disk, DOUBLE + b) == Read(disk, Read(disk, blocks[13])[b / P])[b - b / P * P]
  {
    hide Walk;
    TwoDigits(b);
    TwoSteps(disk, blocks[13], b / P, b % P);
  }

  lemma Triple(blocks: seq<nat>, disk: Disk, c: nat)
    requires |blocks| == SLOTS && c < P * P * P
    ensures var e := c / (P * P);
      var f := (c - e * P * P) / P;
      var g := c - e * P * P - f * P;
      e < P && 0 <= f < P && 0 <= g < P
      && DiskBlock(blocks, disk, TRIPLE + c) == Read(disk, Read(disk, Read(disk, blocks[14])[e])[f])[g]
  {
    hide Walk, Read;
    ThreeDigits(c);
    ThreeSteps(disk, blocks[14], c / (P * P), c % (P * P) / P, c % (P * P) % P);
  }

  lemma Beyond(blocks: seq<nat>, disk: Disk, ib: nat)
    requires |blocks| == SLOTS && ib >= CAP
    ensures DiskBlock(blocks, disk, ib) == 0
  {
  }

  lemma OneStep(disk: Disk, ptr: nat, i: nat)
    requires i < P
    ensures Walk(disk, ptr, [i]) == Kid(disk, ptr, i)
  {
  }

  lemma TwoSteps(disk: Disk, ptr: nat, i: nat, j: nat)
    requires i < P && j < P
    ensures Walk(disk, ptr, [i, j]) == Kid(disk, Kid(disk, ptr, i), j)
  {
    assert [i, j][1..] == [j];
    OneStep(disk, Kid(disk, ptr, i), j);
  }

  lemma ThreeSteps(disk: Disk, ptr: nat, i: nat, j: nat, k: nat)
    requires i < P && j < P && k < P
    ensures Walk(disk, ptr, [i, j, k]) == Kid(disk, Kid(disk, Kid(disk, ptr, i), j), k)
  {
    assert [i, j, k][1..] == [j, k];
    TwoSteps(disk, Kid(disk, ptr, i), j, k);
  }

  // ---------------------------------------------------------------- set_disk_block_number

  /**
   alloc_inode_metadata_block: fills slot `k` of the inode, or word `k` of the scratch buffer that
   holds block `holder`, when it is 0. A filled buffer is written back.
   */
  method AllocMetadataBlock(slots: array<nat>, k: nat, dev: Device, buffer: bool, holder: nat)
    requires k < slots.Length && (buffer ==> slots.Length == BLOCK_SIZE)
    modifies slots, dev
    ensures old(slots[k]) != 0 ==> slots[..] == old(slots[..]) && dev.disk == old(dev.disk) && dev.free == old(dev.free)
    ensures old(slots[k]) == 0 ==> slots[..] == old(slots[..])[k := Next(old(dev.free))] && dev.free == Rest(old(dev.free))
    ensures old(slots[k]) == 0 ==>
      dev.disk == if buffer && slots[k] != 0 then old(dev.disk)[holder := slots[..P]] else old(dev.disk)
  {
    if slots[k] == 0 {
      var n := dev.AllocBlock();
      if n == 0 { return; }
      slots[k] := n;
      if buffer { dev.WriteDiskBlock(holder, slots); }
    }
  }

  /** Block `holder` is fetched and word `i` of it followed, once it is allocated. */
  method Descend(dev: Device, tmp: array<nat>, holder: nat, i: nat) returns (c: nat)
    requires tmp.Length == BLOCK_SIZE && i <= P
    modifies tmp, dev
    ensures (Store(dev.disk, dev.free), c) == Child(old(Store(dev.disk, dev.free)), holder, i, old(tmp[P]))
    ensures i < P ==> tmp[P] == old(tmp[P])
  {
    hide Read;
    dev.ReadDiskBlock(holder, tmp);
    assert tmp[P] == old(tmp[P..])[0];
    ghost var v := tmp[..];
    assert v[..P] == Read(dev.disk, holder);
    AllocMetadataBlock(tmp, i, dev, true, holder);
    assert i < P ==> v[i := tmp[i]][..P] == v[..P][i := tmp[i]];
    assert i == P ==> v[i := tmp[i]][..P] == v[..P];
    c := tmp[i];
  }

  /** Block `cur` is fetched, word `i` of it replaced, and the block written back. */
  method StoreWord(dev: Device, tmp: array<nat>, cur: nat, i: nat, d: nat)
    requires tmp.Length == BLOCK_SIZE && i <= P
    modifies tmp, dev`disk
    ensures dev.disk == old(dev.disk)[cur := Put(Read(old(dev.disk), cur), i, d)]
  {
    dev.ReadDiskBlock(cur, tmp);
    tmp[i] := d;
    assert tmp[..P] == Put(Read(old(dev.disk), cur), i, d);
    dev.WriteDiskBlock(cur, tmp);
  }

  lemma {:induction false} FillInRange(s: Store, cur: nat, q: seq<nat>, d: nat, junk: nat, junk': nat)
    requires InRange(q) && q != []
    ensures Fill(s, cur, q, d, junk) == Fill(s, cur, q, d, junk')
    decreases |q|
  {
    if |q| > 1 {
      var (t, c) := Child(s, cur, q[0], junk);
      FillInRange(t, c, q[1..], d, junk, junk');
    }
  }

  /** set_disk_block_number, with the scratch buffer it takes from the heap. */
  method SetDiskBlockNumber(inode: Inode, dev: Device, ib: nat, d: nat, tmp: array<nat>)
    requires inode.Valid() && ib < 0x8000_0000
    requires tmp.Length == BLOCK_SIZE
    modifies inode.blocks, dev, tmp
    ensures State(inode, dev) == SetBlock(old(State(inode, dev)), ib, d, old(tmp[P]))
  {
    hide Int32, Fill, Child, Put, Next, Rest, Read;
    ghost var junk := tmp[P];
    ghost var fs := State(inode, dev);
    var a := Int32(ib - 12);
    Int32Same(ib - 12);
    if a <= 0 {
      inode.blocks[ib] := d;
      return;
    }
    var b := Int32(a - P);
    Int32Same(a - P);
    if b <= 0 {
      Root(inode, dev, 12);
      StoreWord(dev, tmp, inode.blocks[12], a, d);
      FillOne(Rooted(fs, 12).store, inode.blocks[12], a, d, junk);
      return;
    }
    var c := Int32(b - P * P);
    Int32Same(b - P * P);
    if c <= 0 {
      SetDouble(inode, dev, b, d, tmp);
      return;
    }
    var e := Int32(c - P * P * P);
    Int32Same(c - P * P * P);
    if e <= 0 {
      SetTriple(inode, dev, c, d, tmp);
    }
  }

  method Root(inode: Inode, dev: Device, k: nat)
    requires inode.Valid() && 12 <= k < SLOTS
    modifies inode.blocks, dev
    ensures State(inode, dev) == Rooted(old(State(inode, dev)), k)
  {
    AllocMetadataBlock(inode.blocks, k, dev, false, 0);
  }

  lemma FillOne(s: Store, cur: nat, i: nat, d: nat, junk: nat)
    ensures Fill(s, cur, [i], d, junk) == Store(s.disk[cur := Put(Read(s.disk, cur), i, d)], s.free)
  {
  }

  lemma FillMore(s: Store, cur: nat, i: nat, q: seq<nat>, d: nat, junk: nat)
    requires q != []
    ensures var (t, c) := Child(s, cur, i, junk);
      Fill(s, cur, [i] + q, d, junk) == Fill(t, c, q, d, junk)
  {
    assert ([i] + q)[1..] == q;
  }

  method SetDouble(inode: Inode, dev: Device, b: nat, d: nat, tmp: array<nat>)
    requires inode.Valid() && b <= P * P && tmp.Length == BLOCK_SIZE
    modifies inode.blocks, dev, tmp
    ensures var r, j := Rooted(old(State(inode, dev)), 13), old(tmp[P]);
      State(inode, dev) == r.(store := Fill(r.store, r.blocks[13], [b / P, b % P], d, j))
  {
    hide Fill, Child, Put, Next, Rest, Read;
    ghost var junk := tmp[P];
    ghost var fs := State(inode, dev);
    var i, j := b / P, b - b / P * P;
    Root(inode, dev, 13);
    var root := inode.blocks[13];
    ghost var r := State(inode, dev);
    var c := Descend(dev, tmp, root, i);
    ghost var t := Store(dev.disk, dev.free);
    StoreWord(dev, tmp, c, j, d);
    FillOne(t, c, j, d, junk);
    FillMore(r.store, root, i, [j], d, junk);
    assert [i] + [j] == [b / P, b % P];
  }

  method SetTriple(inode: Inode, dev: Device, c: nat, d: nat, tmp: array<nat>)
    requires inode.Valid() && c <= P * P * P && tmp.Length == BLOCK_SIZE
    modifies inode.blocks, dev, tmp
    ensures var r, j := Rooted(old(State(inode, dev)), 14), old(tmp[P]);
      State(inode, dev)
      == r.(store := Fill(r.store, r.blocks[14], [c / (P * P), c % (P * P) / P, c % (P * P) % P], d, j))
  {
    hide Fill, Child, Put, Next, Rest, Read;
    ghost var junk := tmp[P];
    var e := c / (P * P);
    var f := (c - e * P * P) / P;
    var g := c - e * P * P - f * P;
    TripleIndices(c);
    Root(inode, dev, 14);
    var root := inode.blocks[14];
    ghost var r := State(inode, dev);
    var x := Descend(dev, tmp, root, e);
    ghost var t, junk' := Store(dev.disk, dev.free), tmp[P];
    var y := Descend(dev, tmp, x, f);
    ghost var u := Store(dev.disk, dev.free);
    StoreWord(dev, tmp, y, g, d);
    FillOne(u, y, g, d, junk');
    FillMore(t, x, f, [g], d, junk');
    FillInRange(t, x, [f] + [g], d, junk, junk');
    FillMore(r.store, root, e, [f] + [g], d, junk);
    assert [e] + ([f] + [g]) == [c / (P * P), c % (P * P) / P, c % (P * P) % P];
  }

  lemma TripleIndices(c: nat)
    requires c <= P * P * P
    ensures var e := c / (P * P);
      var f := (c - e * P * P) / P;
      var g := c - e * P * P - f * P;
      e <= P && 0 <= f < P && 0 <= g < P && f == c % (P * P) / P && g == c % (P * P) % P
  {
    if c < P * P * P { ThreeDigits(c); }
  }

  // ---------------------------------------------------------------- reading a file

  /** read_inode_block: a buffer with the bytes of file block `ib`. */
  method ReadInodeBlock(inode: Inode, dev: Device, ib: nat) returns (buf: array<Byte>)
    requires inode.Valid() && ib < 0x8000_0000
    ensures fresh(buf) && buf[..] == Bytes(Read(dev.disk, DiskBlock(inode.blocks[..], dev.disk, ib)))
  {
    var n := GetDiskBlockNumber(inode, dev, ib);
    var b := Bytes(Read(dev.disk, n));
    buf := new Byte[BLOCK_SIZE](i requires 0 <= i < BLOCK_SIZE => b[i]);
    assert buf[..] == b;
  }

  /** memcpy of `n` bytes from offset `left` of `src` to offset `at` of `dst`. */
  method Copy(dst: array<Byte>, at: nat, src: array<Byte>, left: nat, n: nat)
    requires dst != src && at + n <= dst.Length && left + n <= src.Length
    modifies dst
    ensures dst[..] == old(dst[..at]) + src[left..left + n] + old(dst[at + n..])
  {
    forall i | 0 <= i < n { dst[at + i] := src[left + i]; }
  }

  /** Two states of a buffer agree from `k` on. */
  ghost predicate Untouched(s: seq<Byte>, t: seq<Byte>, k: nat) {
    |s| == |t| && forall i :: k <= i < |s| ==> t[i] == s[i]
  }

  /** Fetches file block `i` and copies `len` bytes of it behind the `cur` bytes read so far. */
  method Append(inode: Inode, dev: Device, i: nat, left: nat, len: nat, buf: array<Byte>, ghost offset: nat, cur: nat)
    requires inode.Valid() && i < 0x8000_0000 && left + len <= BLOCK_SIZE
    requires cur + len <= buf.Length && i * BLOCK_SIZE + left == offset + cur
    requires buf[..cur] == FileBytes(inode.blocks[..], dev.disk, offset, offset + cur)
    modifies buf
    ensures buf[..cur + len] == FileBytes(inode.blocks[..], dev.disk, offset, offset + cur + len)
    ensures Untouched(old(buf[..]), buf[..], cur + len)
  {
    hide FileBytes, Bytes, DiskBlock, Read;
    var block := ReadInodeBlock(inode, dev, i);
    ghost var b := block[..];
    assert block[left..left + len] == b[left..left + len];
    Copy(buf, cur, block, left, len);
    Gather(inode.blocks[..], dev.disk, offset, cur, i, left, len);
    assert buf[..cur + len] == buf[..][..cur + len] == old(buf[..cur]) + b[left..left + len];
  }

  /**
   read_inode_filedata: block by block into `buf`. On the last block `end_size - 1` wraps when the
   end is block-aligned, and the copied length wraps back to 0.
   */
  method ReadInodeFiledata(inode: Inode, dev: Device, offset: nat, size: nat, buf: array<Byte>) returns (n: nat)
    requires inode.Valid() && offset <= inode.size && offset + size < U32
    requires buf.Length >= Min(offset + size, inode.size) - offset
    modifies buf
    ensures n == if offset + size <= inode.size then size else inode.size - offset
    ensures buf[..n] == FileBytes(inode.blocks[..], dev.disk, offset, offset + n)
    ensures buf[n..] == old(buf[n..])
  {
    hide FileBytes, Bytes, DiskBlock, Read, EndOffset, Min;
    var end := EndOffset(offset, size, inode.size);
    EndInFile(offset, size, inode.size);
    GatherBlocks(inode, dev, offset, end, buf);
    n := (end - offset) % U32;
    assert buf[n..] == old(buf[n..]);
  }

  /** The block loop of read_inode_filedata, from `offset` up to `end`. */
  method GatherBlocks(inode: Inode, dev: Device, offset: nat, end: nat, buf: array<Byte>)
    requires inode.Valid() && offset <= end < U32 && end - offset <= buf.Length
    modifies buf
    ensures buf[..end - offset] == FileBytes(inode.blocks[..], dev.disk, offset, end)
    ensures Untouched(old(buf[..]), buf[..], end - offset)
  {
    hide FileBytes, Bytes, DiskBlock, Read, Cut;
    var startBlock, endBlock := offset / BLOCK_SIZE, end / BLOCK_SIZE;
    var startOff, endSize := offset % BLOCK_SIZE, end - endBlock * BLOCK_SIZE;
    var i, cur := startBlock, 0;
    CutEnds(offset, end);
    while i <= endBlock
      invariant startBlock <= i <= endBlock + 1
      invariant 0 <= cur == Cut(i, offset, end) - offset <= end - offset
      invariant buf[..cur] == FileBytes(inode.blocks[..], dev.disk, offset, offset + cur)
      invariant Untouched(old(buf[..]), buf[..], cur)
    {
      var left, right := 0, BLOCK_SIZE - 1;
      if i == startBlock { left := startOff; }
      if i == endBlock { right := (endSize - 1) % U32; }
      var len := (right - left + 1) % U32;
      Piece(i, offset, end);
      Append(inode, dev, i, left, len, buf, offset, cur);
      cur := cur + len;
      i := i + 1;
    }
  }

  /** `end_offset`, in 32-bit arithmetic. */
  function EndOffset(offset: nat, size: nat, fileSize: nat): nat {
    if fileSize >= (offset + size) % U32 then (offset + size) % U32 else fileSize
  }

  lemma EndInFile(offset: nat, size: nat, fileSize: nat)
    requires offset <= fileSize < U32 && offset + size < U32
    ensures offset <= EndOffset(offset, size, fileSize) == Min(offset + size, fileSize) < U32
    ensures EndOffset(offset, size, fileSize) == if offset + size <= fileSize then offset + size else fileSize
    ensures (EndOffset(offset, size, fileSize) - offset) % U32 == EndOffset(offset, size, fileSize) - offset
  {
  }

  /** How many bytes of the file lie in `[offset, offset + size)`. */
  function Available(offset: nat, size: nat, fileSize: nat): nat {
    if offset < Min(offset + size, fileSize) then Min(offset + size, fileSize) - offset else 0
  }

  /** The length a read returns is right exactly when it starts in the file and its end does not wrap. */
  lemma ReadLengthExact(offset: nat, size: nat, fileSize: nat)
    requires offset < U32 && size < U32 && fileSize < U32
    ensures (EndOffset(offset, size, fileSize) - offset) % U32 == Available(offset, size, fileSize)
      <==> offset <= fileSize && offset + size < U32
  {
    var w := offset + size;
    if w >= U32 {
      assert w % U32 == w - U32;
      if offset <= fileSize {
        assert (w - U32 - offset) % U32 == size;
      } else {
        var e := EndOffset(offset, size, fileSize);
        assert (e - offset) % U32 == e - offset + U32;
      }
    } else if offset > fileSize {
      assert (fileSize - offset) % U32 == fileSize - offset + U32;
    }
  }

  /** Where block `i` starts, kept between the two ends of a read. */
  function Cut(i: nat, offset: nat, end: nat): nat {
    if i * BLOCK_SIZE <= offset then offset else Min(i * BLOCK_SIZE, end)
  }

  lemma CutEnds(offset: nat, end: nat)
    requires offset <= end
    ensures Cut(offset / BLOCK_SIZE, offset, end) == offset
    ensures Cut(end / BLOCK_SIZE + 1, offset, end) == end
  {
  }

  /** The piece of block `i` that a read takes runs between two cuts. */
  lemma Piece(i: nat, offset: nat, end: nat)
    requires offset <= end < U32 && offset / BLOCK_SIZE <= i <= end / BLOCK_SIZE
    ensures var left := if i == offset / BLOCK_SIZE then offset % BLOCK_SIZE else 0;
      var right := if i == end / BLOCK_SIZE then (end - i * BLOCK_SIZE - 1) % U32 else BLOCK_SIZE - 1;
      var len := (right - left + 1) % U32;
      left + len <= BLOCK_SIZE && i * BLOCK_SIZE + left == Cut(i, offset, end)
      && Cut(i, offset, end) + len == Cut(i + 1, offset, end) <= end
  {
  }

  /** Bytes of block `i` extend what is read so far. */
  lemma Gather(blocks: seq<nat>, disk: Disk, offset: nat, cur: nat, i: nat, left: nat, len: nat)
    requires |blocks| == SLOTS && left + len <= BLOCK_SIZE && i * BLOCK_SIZE + left == offset + cur
    ensures FileBytes(blocks, disk, offset, offset + cur) + Bytes(Read(disk, DiskBlock(blocks, disk, i)))[left..left + len]
      == FileBytes(blocks, disk, offset, offset + cur + len)
  {
    hide Read, DiskBlock, ByteAt;
    var all := FileBytes(blocks, disk, offset, offset + cur + len);
    var b := Read(disk, DiskBlock(blocks, disk, i));
    forall m: nat | cur <= m < cur + len ensures all[m] == Bytes(b)[left + m - cur] {
      Place(i, left + (m - cur));
      assert offset + m == i * BLOCK_SIZE + (left + (m - cur));
      assert all[m] == FileByte(blocks, disk, offset + m);
    }
    assert all[..cur] == FileBytes(blocks, disk, offset, offset + cur);
    assert all[cur..] == Bytes(b)[left..left + len];
  }

  lemma Place(i: nat, j: nat)
    requires j < BLOCK_SIZE
    ensures (i * BLOCK_SIZE + j) / BLOCK_SIZE == i && (i * BLOCK_SIZE + j) % BLOCK_SIZE == j
  {
  }

  // ---------------------------------------------------------------- set, seen through the file

  /** No file block shares its disk block with the map, or with the blocks still to be handed out. */
  ghost predicate DataApart(fs: Fs, jb: nat)
    requires |fs.blocks| == SLOTS
  {
    !Indirect(fs, Lookup(fs, jb)) && Lookup(fs, jb) !in fs.store.free
  }

  /**
   Away from the range starts, set replaces the bytes of file block `ib` by those of disk block
   `d`, and no other mapped byte of the file changes.
   */
  lemma SetKeepsFile(fs: Fs, ib: nat, d: nat, junk: nat, k: nat)
    requires Sound(fs) && |fs.store.free| >= 3 && ib < CAP && !RangeStart(ib)
    requires !Indirect(fs, d) && d !in fs.store.free
    requires k / BLOCK_SIZE == ib || (Mapped(fs, k / BLOCK_SIZE) && DataApart(fs, k / BLOCK_SIZE))
    ensures var r := SetBlock(fs, ib, d, junk);
      FileByte(r.blocks, r.store.disk, k)
      == if k / BLOCK_SIZE == ib then ByteAt(Read(fs.store.disk, d), k % BLOCK_SIZE) else FileByte(fs.blocks, fs.store.disk, k)
  {
    hide Owns, TreeOk, Apart, DiskBlock, Read, ByteAt, SetBlock, Mapped, Indirect;
    SetThenGet(fs, ib, d, junk);
  }
}
