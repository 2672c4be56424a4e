/**
 The SD card's CRC7: a table of 256 entries, one lookup per byte. The reference is schoolbook
 long division of bit strings by x^7 + x^3 + 1.
 */
module Crc7 {

  /** One bit: multiply by x, reduce. Values are polynomials of degree below 7. */
  function Times(w: bv8): bv8 {
    var t := w << 1;
    if t & 0x80 != 0 then t ^ 0x89 else t
  }

  function Reduce(w: bv8): bv8 {
    if w & 0x80 != 0 then w ^ 0x89 else w
  }

  function Times7(w: bv8): bv8 {
    Times(Times(Times(Times(Times(Times(Times(w)))))))
  }

  // ---------------------------------------------------------------- long division

  const ZEROS: seq<bool> := [false, false, false, false, false, false, false]

  /** Subtract the generator's lower seven coefficients. */
  ghost function MinusG(w: seq<bool>): (r: seq<bool>)
    requires |w| == 7
    ensures |r| == 7
  {
    [w[0], w[1], w[2], !w[3], w[4], w[5], !w[6]]
  }

  /** The remainder of the bit string `p` (most significant bit first): while more than seven bits
      are left, a leading 1 is cancelled against x^7 + x^3 + 1. */
  ghost function Divide(p: seq<bool>): (r: seq<bool>)
    requires |p| >= 7
    ensures |r| == 7
    decreases |p|
  {
    if |p| == 7 then p
    else Divide(if p[0] then MinusG(p[1..8]) + p[8..] else p[1..])
  }

  function Bit(b: bool, k: bv8): bv8 { if b then k else 0 }

  /** Seven coefficients as a value. */
  function Join(a: bool, b: bool, c: bool, d: bool, e: bool, f: bool, g: bool): bv8 {
    Bit(a, 64) | Bit(b, 32) | Bit(c, 16) | Bit(d, 8) | Bit(e, 4) | Bit(f, 2) | Bit(g, 1)
  }

  ghost function Val(w: seq<bool>): bv8
    requires |w| == 7
  {
    Join(w[0], w[1], w[2], w[3], w[4], w[5], w[6])
  }

  /** Remainder bit by bit. */
  ghost function Horner(r: bv8, p: seq<bool>): bv8
    decreases |p|
  {
    if p == [] then r else Horner(Add(Times(r), Bit(p[0], 1)), p[1..])
  }

  lemma ShiftZero(b: bool, c: bool, d: bool, e: bool, f: bool, g: bool, h: bool)
    ensures Add(Times(Join(false, b, c, d, e, f, g)), Bit(h, 1)) == Join(b, c, d, e, f, g, h)
  {
  }

  lemma ShiftOne(b: bool, c: bool, d: bool, e: bool, f: bool, g: bool, h: bool)
    ensures Add(Times(Join(true, b, c, d, e, f, g)), Bit(h, 1)) == Join(b, c, d, !e, f, g, !h)
  {
  }

  lemma WindowStep(w: seq<bool>, b: bool)
    requires |w| == 7
    ensures var next := w[1..] + [b];
      Add(Times(Val(w)), Bit(b, 1)) == Val(if w[0] then MinusG(next) else next)
  {
    hide Join, Times, Add, Bit;
    ShiftZero(w[1], w[2], w[3], w[4], w[5], w[6], b);
    ShiftOne(w[1], w[2], w[3], w[4], w[5], w[6], b);
  }

  lemma {:induction false} DivideIsHorner(w: seq<bool>, p: seq<bool>)
    requires |w| == 7
    ensures Val(Divide(w + p)) == Horner(Val(w), p)
    decreases |p|
  {
    if p == [] {
      assert w + p == w;
    } else {
      var next := w[1..] + [p[0]];
      var w' := if w[0] then MinusG(next) else next;
      WindowStep(w, p[0]);
      assert (w + p)[1..8] == next && (w + p)[8..] == p[1..];
      assert (w + p)[1..] == next + p[1..];
      DivideIsHorner(w', p[1..]);
    }
  }

  lemma ValZero()
    ensures Val(ZEROS) == 0
  {
  }

  lemma {:induction false} LeadingZeros(p: seq<bool>, k: nat)
    requires |p| >= 7 && k <= 7
    ensures Divide(ZEROS[..k] + p) == Divide(p)
  {
    if k == 0 {
      assert ZEROS[..0] + p == p;
    } else {
      assert (ZEROS[..k] + p)[1..] == ZEROS[..k - 1] + p;
      LeadingZeros(p, k - 1);
    }
  }

  /** The bit string's remainder. */
  lemma RemainderIsHorner(p: seq<bool>)
    requires |p| >= 7
    ensures Val(Divide(p)) == Horner(0, p)
  {
    LeadingZeros(p, 7);
    assert ZEROS[..7] == ZEROS;
    DivideIsHorner(ZEROS, p);
    ValZero();
  }

  // ---------------------------------------------------------------- one byte at a time

  ghost function Bits(b: bv8): (p: seq<bool>)
    ensures |p| == 8
  {
    [b & 128 != 0, b & 64 != 0, b & 32 != 0, b & 16 != 0, b & 8 != 0, b & 4 != 0, b & 2 != 0, b & 1 != 0]
  }

  ghost function MessageBits(m: seq<bv8>): seq<bool> {
    if m == [] then [] else MessageBits(m[..|m| - 1]) + Bits(m[|m| - 1])
  }

  /** The bits of a byte make up the byte, the first counting most. */
  lemma BitsValue(b: bv8)
    ensures var p := Bits(b);
      Bit(p[0], 128) | Bit(p[1], 64) | Bit(p[2], 32) | Bit(p[3], 16) | Bit(p[4], 8) | Bit(p[5], 4) | Bit(p[6], 2) | Bit(p[7], 1) == b
  {
  }

  /** Bit `j` of byte `i` of the message is its bit `8 * i + j`. */
  lemma {:induction false} MessageBitsAt(m: seq<bv8>, i: nat, j: nat)
    requires i < |m| && j < 8
    ensures |MessageBits(m)| == 8 * |m| && MessageBits(m)[8 * i + j] == Bits(m[i])[j]
    decreases |m|
  {
    hide Bits;
    var k := |m| - 1;
    if k > 0 { MessageBitsAt(m[..k], if i < k then i else 0, j); }
  }

  ghost function TimesN(w: bv8, n: nat): bv8
    decreases n
  {
    if n == 0 then w else TimesN(Times(w), n - 1)
  }

  // Addition of polynomials, and degree below 7, named so that proofs need not look at bits.

  ghost function Add(a: bv8, b: bv8): bv8 { a ^ b }

  ghost predicate Low(a: bv8) { a < 128 }

  lemma AddAssoc(a: bv8, b: bv8, c: bv8)
    ensures Add(Add(a, b), c) == Add(a, Add(b, c))
  {
  }

  lemma AddZero(a: bv8)
    ensures Add(0, a) == a && Low(0) && Times(0) == 0
  {
  }

  lemma AddLow(a: bv8, b: bv8)
    requires Low(a) && Low(b)
    ensures Low(Add(a, b))
  {
  }

  lemma TimesLow(a: bv8)
    requires Low(a)
    ensures Low(Times(a))
  {
  }

  lemma TimesLinear(u: bv8, v: bv8)
    requires Low(u) && Low(v)
    ensures Times(Add(u, v)) == Add(Times(u), Times(v))
  {
    hide Times, Reduce, Add;
    ReduceShift(u);
    ReduceShift(v);
    ReduceShift(Add(u, v));
    ReduceAdd(u << 1, v << 1);
    AddShift(u, v);
  }

  lemma AddShift(u: bv8, v: bv8)
    ensures Add(u, v) << 1 == Add(u << 1, v << 1)
  {
  }

  lemma {:induction false} TimesNLow(u: bv8, n: nat)
    requires Low(u)
    ensures Low(TimesN(u, n))
    decreases n
  {
    hide Times, Low;
    TimesLow(u);
    if n > 0 { TimesNLow(Times(u), n - 1); }
  }

  lemma {:induction false} TimesNLinear(u: bv8, v: bv8, n: nat)
    requires Low(u) && Low(v)
    ensures TimesN(Add(u, v), n) == Add(TimesN(u, n), TimesN(v, n))
    decreases n
  {
    hide Times, Low, Add;
    TimesLinear(u, v);
    TimesLow(u);
    TimesLow(v);
    if n > 0 { TimesNLinear(Times(u), Times(v), n - 1); }
  }

  lemma {:induction false} TimesNSplit(w: bv8, m: nat, n: nat)
    ensures TimesN(TimesN(w, m), n) == TimesN(w, m + n)
    decreases m
  {
    hide Times;
    if m > 0 { TimesNSplit(Times(w), m - 1, n); }
  }

  lemma {:induction false} HornerConcat(r: bv8, p: seq<bool>, q: seq<bool>)
    ensures Horner(r, p + q) == Horner(Horner(r, p), q)
    decreases |p|
  {
    if p == [] {
      assert p + q == q;
    } else {
      assert (p + q)[1..] == p[1..] + q;
      HornerConcat(Add(Times(r), Bit(p[0], 1)), p[1..], q);
    }
  }

  lemma BitLow(b: bool)
    ensures Low(Bit(b, 1))
  {
  }

  /** The start value and the bits contribute independently. */
  lemma {:induction false} HornerSplit(r: bv8, p: seq<bool>)
    requires Low(r)
    ensures Low(Horner(r, p)) && Horner(r, p) == Add(TimesN(r, |p|), Horner(0, p))
    decreases |p|
  {
    hide Times, Low, Add, Bit;
    AddZero(0);
    if p == [] {
      AddComm(r, 0);
      AddZero(r);
    } else {
      var b := Bit(p[0], 1);
      BitLow(p[0]);
      TimesLow(r);
      AddLow(Times(r), b);
      AddZero(b);
      HornerSplit(Add(Times(r), b), p[1..]);
      HornerSplit(b, p[1..]);
      TimesNLinear(Times(r), b, |p| - 1);
      AddAssoc(TimesN(Times(r), |p| - 1), TimesN(b, |p| - 1), Horner(0, p[1..]));
    }
  }

  lemma AddComm(a: bv8, b: bv8)
    ensures Add(a, b) == Add(b, a)
  {
  }

  /** Unrolled: the eight bits of a byte, from zero. */
  lemma ByteRemainder(b: bv8)
    ensures Horner(0, Bits(b)) == Reduce(b)
  {
    var p := Bits(b);
    UnrollEight(p);
    Prefix7(b);
  }

  ghost function Fold8(p: seq<bool>): bv8
    requires |p| == 8
  {
    Add(Times(Join(p[0], p[1], p[2], p[3], p[4], p[5], p[6])), Bit(p[7], 1))
  }

  lemma UnrollEight(p: seq<bool>)
    requires |p| == 8
    ensures Horner(0, p) == Fold8(p)
  {
    hide Join, Times, Add, Bit;
    var w := p[..7];
    DivideIsHorner(ZEROS, w);
    ValZero();
    LeadingZeros(w, 7);
    assert ZEROS[..7] == ZEROS;
    assert Horner(0, w) == Val(w);
    HornerConcat(0, w, [p[7]]);
    assert w + [p[7]] == p;
    assert [p[7]][1..] == [];
  }

  lemma Prefix7(b: bv8)
    ensures Fold8(Bits(b)) == Reduce(b)
  {
    hide Join, Times, Reduce, Add, Bit;
    HighBits(b);
    LastBit(b);
    ShiftBack(b);
  }

  lemma HighBits(b: bv8)
    ensures Join(b & 128 != 0, b & 64 != 0, b & 32 != 0, b & 16 != 0, b & 8 != 0, b & 4 != 0, b & 2 != 0) == b >> 1
  {
  }

  lemma LastBit(b: bv8)
    ensures Bit(b & 1 != 0, 1) == b & 1
  {
  }

  lemma ShiftBack(b: bv8)
    ensures Add(Times(b >> 1), b & 1) == Reduce(b)
  {
  }

  predicate Top(u: bv8) { u & 0x80 != 0 }

  lemma ReduceAdd(u: bv8, v: bv8)
    ensures Reduce(Add(u, v)) == Add(Reduce(u), Reduce(v))
  {
    hide Add, Top;
    ReduceCases(u);
    ReduceCases(v);
    ReduceCases(Add(u, v));
    if Top(u) && Top(v) {
      BothTop(u, v);
    } else if Top(u) {
      LeftTop(u, v);
    } else if Top(v) {
      LeftTop(v, u);
      AddComm(u, v);
      AddComm(u, v ^ 0x89);
    } else {
      NoTop(u, v);
    }
  }

  lemma ReduceCases(u: bv8)
    ensures Reduce(u) == if Top(u) then u ^ 0x89 else u
  {
  }

  lemma BothTop(u: bv8, v: bv8)
    requires Top(u) && Top(v)
    ensures !Top(Add(u, v)) && Add(u ^ 0x89, v ^ 0x89) == Add(u, v)
  {
  }

  lemma LeftTop(u: bv8, v: bv8)
    requires Top(u) && !Top(v)
    ensures Top(Add(u, v)) && Add(u ^ 0x89, v) == Add(u, v) ^ 0x89
  {
  }

  lemma NoTop(u: bv8, v: bv8)
    requires !Top(u) && !Top(v)
    ensures !Top(Add(u, v))
  {
  }

  lemma ReduceShift(d: bv8)
    ensures Reduce(d << 1) == Times(d) && Low(Reduce(d))
  {
  }

  lemma Times7IsN(w: bv8)
    ensures Times7(w) == TimesN(w, 7)
  {
    hide Times;
    var w1 := Times(w);
    var w2 := Times(w1);
    var w3 := Times(w2);
    var w4 := Times(w3);
    var w5 := Times(w4);
    var w6 := Times(w5);
    assert TimesN(w6, 1) == Times(w6);
    assert TimesN(w5, 2) == TimesN(w6, 1);
    assert TimesN(w4, 3) == TimesN(w5, 2);
    assert TimesN(w3, 4) == TimesN(w4, 3);
    assert TimesN(w2, 5) == TimesN(w3, 4);
    assert TimesN(w1, 6) == TimesN(w2, 5);
  }

  /** One table step: from `a x^7` to `(a x^8 + b) x^7`. */
  lemma TableStep(a: bv8, b: bv8)
    requires Low(a)
    ensures Low(Horner(a, Bits(b)))
    ensures Times7(Reduce(Add(Times7(a) << 1, b))) == Times7(Horner(a, Bits(b)))
  {
    hide Times, Times7, Reduce, Horner, Bits, TimesN, Add, Low;
    var d, e := Times7(a), Reduce(b);
    Times7IsN(a);
    TimesNLow(a, 7);
    ReduceAdd(d << 1, b);
    ReduceShift(d);
    ReduceShift(b);
    TimesLow(d);
    HornerSplit(a, Bits(b));
    ByteRemainder(b);
    Times7IsN(Add(Times(d), e));
    Times7IsN(Horner(a, Bits(b)));
    TimesNLinear(Times(d), e, 7);
    TimesNLow(a, 8);
    TimesNLinear(TimesN(a, 8), e, 7);
    TimesNOne(d);
    TimesNSplit(a, 7, 8);
    TimesNSplit(a, 8, 7);
  }

  lemma TimesNOne(d: bv8)
    ensures TimesN(Times(d), 7) == TimesN(d, 8)
  {
  }

  // ---------------------------------------------------------------- the code

  /** Entry `i` of a finished table is `i x^7` reduced. */
  ghost predicate TableReady(t: seq<bv8>) {
    |t| == 256 && forall i :: 0 <= i < 256 ==> t[i] == Times7(Reduce(i as bv8))
  }

  lemma BackAgain(x: bv8)
    ensures 0 <= x as int < 256 && (x as int) as bv8 == x
  {
  }

  /** The inner loop of make_crc_table: seven reducing shifts of one entry. */
  method ShiftEntry(table: array<bv8>, i: nat)
    requires i < table.Length
    modifies table
    ensures table[i] == Times7(old(table[i]))
    ensures forall k :: 0 <= k < table.Length && k != i ==> table[k] == old(table[k])
  {
    hide Times7, TimesN;
    ghost var w := table[i];
    var j := 1;
    NoShift(w);
    while j < 8
      invariant 1 <= j <= 8 && table[i] == TimesN(w, j - 1)
      invariant forall k :: 0 <= k < table.Length && k != i ==> table[k] == old(table[k])
    {
      OneShift(w, j - 1);
      table[i] := table[i] << 1;
      if table[i] & 0x80 != 0 { table[i] := table[i] ^ 0x89; }
      j := j + 1;
    }
    Times7IsN(w);
  }

  lemma NoShift(w: bv8)
    ensures TimesN(w, 0) == w
  {
  }

  lemma OneShift(w: bv8, n: nat)
    ensures TimesN(w, n + 1) == Times(TimesN(w, n))
  {
    hide Times;
    TimesNSplit(w, n, 1);
    assert TimesN(TimesN(w, n), 1) == Times(TimesN(w, n));
  }

  /** make_crc_table */
  method MakeTable(table: array<bv8>)
    requires table.Length == 256
    modifies table
    ensures TableReady(table[..])
  {
    hide Times7;
    var i := 0;
    while i < 256
      invariant 0 <= i <= 256
      invariant forall k :: 0 <= k < i ==> table[k] == Times7(Reduce(k as bv8))
    {
      table[i] := if (i as bv8) & 0x80 != 0 then (i as bv8) ^ 0x89 else i as bv8;
      ShiftEntry(table, i);
      i := i + 1;
    }
  }

  /** crc7: the remainder of M(x) x^7, shifted left, with the end bit set. */
  method Crc(table: array<bv8>, m: seq<bv8>) returns (crc: bv8)
    requires table.Length == 256 && TableReady(table[..])
    ensures crc == (Val(Divide(MessageBits(m) + ZEROS)) << 1) | 1
  {
    hide Times7, Reduce, Horner, Divide, Val, Bits, Index, Low;
    crc := 0;
    ghost var a: bv8 := 0;
    var i := 0;
    ZeroStart();
    while i < |m|
      invariant 0 <= i <= |m| && Low(a) && a == Horner(0, MessageBits(m[..i])) && crc == Times7(a)
    {
      TableStep(a, m[i]);
      assert m[..i + 1][..i] == m[..i];
      HornerConcat(0, MessageBits(m[..i]), Bits(m[i]));
      Times7Low(a);
      IndexInTable(crc, m[i]);
      var index := Index(crc, m[i]);
      assert index < 256;
      crc := table[index as int];
      a := Horner(a, Bits(m[i]));
      i := i + 1;
    }
    assert m[..i] == m;
    RemainderIsHorner(MessageBits(m) + ZEROS);
    HornerConcat(0, MessageBits(m), ZEROS);
    SevenZeros(a);
    crc := (crc << 1) | 1;
  }

  /** `(crc << 1) ^ input[i]` as the code computes it, without dropping the bits above the eighth. */
  function Index(crc: bv8, b: bv8): bv32 { (crc as bv32 << 1) ^ b as bv32 }

  /** The index stays in the table exactly when the running value has no eighth bit. */
  lemma IndexExact(crc: bv8, b: bv8)
    ensures Index(crc, b) < 256 <==> Low(crc)
  {
  }

  lemma IndexInTable(crc: bv8, b: bv8)
    requires Low(crc)
    ensures Index(crc, b) < 256 && Index(crc, b) as int < 256
    ensures (Index(crc, b) as int) as bv8 == Add(crc << 1, b)
  {
    hide Index;
    IndexExact(crc, b);
    IndexNarrow(crc, b);
    Widened((crc << 1) ^ b);
    BackAgain((crc << 1) ^ b);
  }

  lemma IndexNarrow(crc: bv8, b: bv8)
    requires Low(crc)
    ensures Index(crc, b) == ((crc << 1) ^ b) as bv32
  {
  }

  lemma Widened(x: bv8)
    ensures (x as bv32) as int == x as int
  {
  }

  lemma Times7Low(a: bv8)
    requires Low(a)
    ensures Low(Times7(a))
  {
    hide Times7, TimesN, Low;
    Times7IsN(a);
    TimesNLow(a, 7);
  }

  lemma ZeroStart()
    ensures Horner(0, MessageBits([])) == 0 && Times7(0) == 0 && Low(0)
  {
  }

  lemma SevenZeros(a: bv8)
    requires Low(a)
    ensures Horner(a, ZEROS) == Times7(a)
  {
    hide Times, Add;
    HornerSplit(a, ZEROS);
    RemainderIsHorner(ZEROS);
    ValZero();
    AddZero(TimesN(a, 7));
    AddComm(0, TimesN(a, 7));
    Times7IsN(a);
  }

  lemma ZeroByte(a: bv8)
    requires Low(a)
    ensures Horner(a, Bits(0)) == Times(Times7(a))
  {
    hide Times, Times7, Add, Low, Horner, Bits;
    HornerSplit(a, Bits(0));
    ByteRemainder(0);
    AddComm(TimesN(a, 8), 0);
    AddZero(TimesN(a, 8));
    Times7IsN(a);
    OneShift(a, 7);
  }

  /** Appending a byte to a message. */
  lemma NextByte(m: seq<bv8>, b: bv8)
    ensures Horner(0, MessageBits(m + [b])) == Horner(Horner(0, MessageBits(m)), Bits(b))
  {
    hide Horner, Bits;
    assert (m + [b])[..|m|] == m;
    HornerConcat(0, MessageBits(m), Bits(b));
  }

  lemma KnownSteps()
    ensures Times(Times7(0x40)) == 0x41 && Times(Times7(0x41)) == 0x53
    ensures Times(Times7(0x53)) == 0x45 && Times(Times7(0x45)) == 0x1B && Times7(0x1B) == 0x4A
    ensures Low(0x40) && Low(0x41) && Low(0x53) && Low(0x45) && Low(0x1B) && Reduce(0x40) == 0x40
  {
  }

  lemma KnownRemainder()
    ensures Horner(0, MessageBits([0x40, 0, 0, 0, 0])) == 0x1B
  {
    hide Times, Times7, Horner, Bits, Reduce, MessageBits, Low;
    KnownSteps();
    assert Horner(0, MessageBits([0x40])) == 0x40 by {
      ZeroStart();
      NextByte([], 0x40);
      assert [] + [0x40 as bv8] == [0x40];
      ByteRemainder(0x40);
    }
    NextByte([0x40], 0);
    ZeroByte(0x40);
    NextByte([0x40, 0], 0);
    ZeroByte(0x41);
    NextByte([0x40, 0, 0], 0);
    ZeroByte(0x53);
    NextByte([0x40, 0, 0, 0], 0);
    ZeroByte(0x45);
    assert [0x40 as bv8] + [0] == [0x40, 0] && [0x40 as bv8, 0] + [0] == [0x40, 0, 0];
    assert [0x40 as bv8, 0, 0] + [0] == [0x40, 0, 0, 0] && [0x40 as bv8, 0, 0, 0] + [0] == [0x40, 0, 0, 0, 0];
  }

  /** The command GO_IDLE_STATE, 40 00 00 00 00, ends in 95. */
  lemma KnownCommand()
    ensures (Val(Divide(MessageBits([0x40, 0, 0, 0, 0]) + ZEROS)) << 1) | 1 == 0x95
  {
    hide Times, Times7, Horner, Divide, Bits, Val, MessageBits, Low;
    var m: seq<bv8> := [0x40, 0, 0, 0, 0];
    RemainderIsHorner(MessageBits(m) + ZEROS);
    HornerConcat(0, MessageBits(m), ZEROS);
    KnownRemainder();
    KnownSteps();
    SevenZeros(0x1B);
  }

  function LowByte(x: bv32): bv8 { (x & 0xFF) as bv8 }

  function Pack(a: bv8, b: bv8, c: bv8, d: bv8): bv32 {
    (a as bv32 << 24) | (b as bv32 << 16) | (c as bv32 << 8) | (d as bv32)
  }

  lemma LowByteWide(x: bv32)
    ensures LowByte(x) as bv32 == x & 0xFF
  {
  }

  lemma JoinOctets(arg: bv32)
    ensures (((arg >> 24) & 0xFF) << 24) | (((arg >> 16) & 0xFF) << 16) | (((arg >> 8) & 0xFF) << 8) | (arg & 0xFF) == arg
  {
  }

  lemma PackOctets(arg: bv32)
    ensures Pack(LowByte(arg >> 24), LowByte(arg >> 16), LowByte(arg >> 8), LowByte(arg >> 0)) == arg
  {
    hide LowByte;
    LowByteWide(arg >> 24);
    LowByteWide(arg >> 16);
    LowByteWide(arg >> 8);
    LowByteWide(arg >> 0);
    JoinOctets(arg);
  }

  /** make_cmd: start bits and index, the argument most significant byte first, and the CRC of
      those five bytes. */
  method MakeCmd(cmd: array<bv8>, table: array<bv8>, idx: bv8, arg: bv32)
    requires cmd.Length == 6 && cmd != table
    requires table.Length == 256 && TableReady(table[..])
    modifies cmd
    ensures cmd[0] == 0x40 | idx && Pack(cmd[1], cmd[2], cmd[3], cmd[4]) == arg
    ensures cmd[1] as bv32 == (arg >> 24) & 0xFF && cmd[2] as bv32 == (arg >> 16) & 0xFF
    ensures cmd[3] as bv32 == (arg >> 8) & 0xFF && cmd[4] as bv32 == arg & 0xFF
    ensures cmd[5] == (Val(Divide(MessageBits(cmd[..5]) + ZEROS)) << 1) | 1
  {
    hide LowByte, Pack, Val, Divide, MessageBits, TableReady;
    forall k | 0 <= k < 6 { cmd[k] := 0; }
    cmd[0] := 0x40 | idx;
    cmd[1] := LowByte(arg >> 24);
    cmd[2] := LowByte(arg >> 16);
    cmd[3] := LowByte(arg >> 8);
    assert arg >> 0 == arg;
    cmd[4] := LowByte(arg >> 0);
    PackOctets(arg);
    LowByteWide(arg >> 24);
    LowByteWide(arg >> 16);
    LowByteWide(arg >> 8);
    LowByteWide(arg);
    assert table[..] == old(table[..]);
    ghost var m := cmd[..5];
    var c := Crc(table, cmd[..5]);
    cmd[5] := c;
    assert cmd[..5] == m;
  }
}
