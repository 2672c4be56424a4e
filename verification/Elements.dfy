/**
 A byte buffer seen as an array of equally sized elements, and the bytewise operations of the
 sorting code: SWAP and the rotation of the insertion pass. A `char *` that points at element
 `i` of the buffer is written as the index `i`.
 */
module Elements {

  newtype Byte = x: int | 0 <= x < 256

  type Elem = seq<Byte>

  /** Where element `i` starts. */
  function Base(i: nat, size: nat): nat { i * size }

  lemma BaseOrder(i: nat, j: nat, size: nat)
    requires i < j
    ensures Base(i, size) + size <= Base(j, size)
  {
    MulMono(i + 1, j, size);
  }

  lemma MulMono(a: nat, b: nat, c: nat)
    requires a <= b
    ensures a * c <= b * c
  {
  }

  /** Element `i` of a buffer of `n`. */
  ghost function Element(m: seq<Byte>, size: nat, n: nat, i: nat): (e: Elem)
    requires |m| == Base(n, size) && i < n
    ensures |e| == size
  {
    BaseOrder(i, n, size);
    m[Base(i, size)..Base(i, size) + size]
  }

  ghost function View(m: seq<Byte>, size: nat, n: nat): (v: seq<Elem>)
    requires |m| == Base(n, size)
    ensures |v| == n
    ensures forall i :: 0 <= i < n ==> v[i] == Element(m, size, n, i)
  {
    seq(n, i requires 0 <= i < n => Element(m, size, n, i))
  }

  /** Byte `b` of element `i` is byte `i * size + b` of the buffer. */
  lemma ViewAt(m: seq<Byte>, size: nat, n: nat, i: nat, b: nat)
    requires |m| == n * size && i < n && b < size
    ensures |m| == Base(n, size) && i * size + b < |m|
    ensures View(m, size, n)[i][b] == m[i * size + b]
  {
    BaseOrder(i, n, size);
  }

  /** The elements of a buffer are written one byte at a time. */
  lemma ElementSet(m: seq<Byte>, size: nat, n: nat, i: nat, b: nat, c: Byte, j: nat)
    requires |m| == Base(n, size) && i < n && b < size && j < n
    ensures Base(i, size) + b < |m|
    ensures Element(m[Base(i, size) + b := c], size, n, j)
         == if j == i then Element(m, size, n, i)[b := c] else Element(m, size, n, j)
  {
    hide Base;
    BaseOrder(i, n, size);
    BaseOrder(j, n, size);
    if i < j { BaseOrder(i, j, size); }
    if j < i { BaseOrder(j, i, size); }
  }

  method GetByte(a: array<Byte>, size: nat, n: nat, i: nat, b: nat) returns (c: Byte)
    requires a.Length == Base(n, size) && i < n && b < size
    ensures c == View(a[..], size, n)[i][b]
  {
    hide Base;
    BaseOrder(i, n, size);
    c := a[Base(i, size) + b];
    assert c == Element(a[..], size, n, i)[b];
  }

  method SetByte(a: array<Byte>, size: nat, n: nat, i: nat, b: nat, c: Byte)
    requires a.Length == Base(n, size) && i < n && b < size
    modifies a
    ensures View(a[..], size, n) == old(View(a[..], size, n)[i := View(a[..], size, n)[i][b := c]])
  {
    hide Base, Element;
    BaseOrder(i, n, size);
    ghost var m := a[..];
    a[Base(i, size) + b] := c;
    assert a[..] == m[Base(i, size) + b := c];
    forall j | 0 <= j < n ensures Element(a[..], size, n, j)
         == if j == i then Element(m, size, n, i)[b := c] else Element(m, size, n, j)
    {
      ElementSet(m, size, n, i, b, c, j);
    }
  }

  ghost function Swapped<T>(v: seq<T>, i: nat, j: nat): (r: seq<T>)
    requires i < |v| && j < |v|
    ensures |r| == |v|
  {
    v[i := v[j]][j := v[i]]
  }

  /** Elements `i` and `j` with their first `b` bytes exchanged. */
  ghost function Mixed(v: seq<Elem>, i: nat, j: nat, b: nat, size: nat): seq<Elem>
    requires i < |v| && j < |v| && |v[i]| == size && |v[j]| == size && b <= size
  {
    v[i := v[j][..b] + v[i][b..]][j := v[i][..b] + v[j][b..]]
  }

  lemma MixedEnds(v: seq<Elem>, i: nat, j: nat, size: nat)
    requires i < |v| && j < |v| && |v[i]| == size && |v[j]| == size
    ensures Mixed(v, i, j, 0, size) == v && Mixed(v, i, j, size, size) == Swapped(v, i, j)
  {
    assert v[j][..0] + v[i][0..] == v[i] && v[i][..0] + v[j][0..] == v[j];
    assert v[j][..size] + v[i][size..] == v[j] && v[i][..size] + v[j][size..] == v[i];
  }

  lemma MixedStep(v: seq<Elem>, i: nat, j: nat, b: nat, size: nat)
    requires i < |v| && j < |v| && |v[i]| == size && |v[j]| == size && b < size
    ensures var u := Mixed(v, i, j, b, size);
      var x, y := u[i][b], u[j][b];
      var u1 := u[i := u[i][b := y]];
      u1[j := u1[j][b := x]] == Mixed(v, i, j, b + 1, size)
  {
    var u := Mixed(v, i, j, b, size);
    var x, y := u[i][b], u[j][b];
    var u1 := u[i := u[i][b := y]];
    var u2 := u1[j := u1[j][b := x]];
    assert u2[j] == v[i][..b + 1] + v[j][b + 1..];
    assert u2[i] == v[j][..b + 1] + v[i][b + 1..];
  }

  /** SWAP, byte after byte. */
  method Swap(a: array<Byte>, size: nat, n: nat, i: nat, j: nat)
    requires a.Length == Base(n, size) && i < n && j < n && size > 0
    modifies a
    ensures View(a[..], size, n) == old(Swapped(View(a[..], size, n), i, j))
  {
    hide Base, Element, View, Mixed;
    ghost var v := View(a[..], size, n);
    MixedEnds(v, i, j, size);
    var b := 0;
    while b < size
      invariant 0 <= b <= size
      invariant View(a[..], size, n) == Mixed(v, i, j, b, size)
    {
      MixedStep(v, i, j, b, size);
      var tmp := GetByte(a, size, n, i, b);
      var other := GetByte(a, size, n, j, b);
      SetByte(a, size, n, i, b, other);
      SetByte(a, size, n, j, b, tmp);
      b := b + 1;
    }
  }

  /** Element `run` moves down to `tmp`; those in between move up by one. */
  ghost function Rotated<T>(v: seq<T>, tmp: nat, run: nat): (r: seq<T>)
    requires tmp <= run < |v|
    ensures |r| == |v|
  {
    v[..tmp] + [v[run]] + v[tmp..run] + v[run + 1..]
  }

  /** Byte `b` of each element. */
  method RotateLane(a: array<Byte>, size: nat, n: nat, tmp: nat, run: nat, b: nat)
    requires a.Length == Base(n, size) && tmp <= run < n && b < size
    modifies a
    ensures forall i :: 0 <= i < n ==>
      View(a[..], size, n)[i] == old(View(a[..], size, n)[i][b := Rotated(View(a[..], size, n), tmp, run)[i][b]])
  {
    hide Base, Element, View;
    ghost var u := View(a[..], size, n);
    ghost var v := u;
    var c := GetByte(a, size, n, run, b);
    var hi := run;
    while hi > tmp
      invariant tmp <= hi <= run && v == View(a[..], size, n)
      invariant forall i :: 0 <= i < n && (i <= hi || run < i) ==> v[i] == u[i]
      invariant forall i :: hi < i <= run ==> v[i] == u[i][b := u[i - 1][b]]
    {
      var lo := hi - 1;
      var x := GetByte(a, size, n, lo, b);
      SetByte(a, size, n, hi, b, x);
      v := v[hi := u[hi][b := u[lo][b]]];
      hi := lo;
    }
    SetByte(a, size, n, hi, b, c);
    ghost var w := Rotated(u, tmp, run);
    forall i | 0 <= i < n ensures View(a[..], size, n)[i] == u[i][b := w[i][b]] {
      assert w[i] == if i < tmp || i > run then u[i] else if i == tmp then u[run] else u[i - 1];
    }
  }

  ghost function Blend(x: Elem, y: Elem, b: nat): (z: Elem)
    requires |x| == |y| && b <= |x|
    ensures |z| == |x|
    ensures b == |x| ==> z == x
    ensures b == 0 ==> z == y
  {
    x[..b] + y[b..]
  }

  lemma BlendStep(x: Elem, y: Elem, b: nat)
    requires |x| == |y| && b < |x|
    ensures Blend(x, y, b + 1)[b := y[b]] == Blend(x, y, b)
  {
  }

  lemma RotatedSizes(v: seq<Elem>, tmp: nat, run: nat, size: nat)
    requires tmp <= run < |v| && forall k :: 0 <= k < |v| ==> |v[k]| == size
    ensures forall k :: 0 <= k < |v| ==> |Rotated(v, tmp, run)[k]| == size
  {
  }

  lemma RotatedByte(u: seq<Elem>, v: seq<Elem>, w: seq<Elem>, tmp: nat, run: nat, b: nat, i: nat, size: nat)
    requires |u| == |v| == |w| && tmp <= run < |v| && i < |v| && b < size && w == Rotated(v, tmp, run)
    requires forall k :: 0 <= k < |v| ==> |v[k]| == size && |w[k]| == size && u[k] == Blend(v[k], w[k], b + 1)
    ensures |Rotated(u, tmp, run)[i]| == size && Rotated(u, tmp, run)[i][b] == w[i][b]
  {
    var k := if i < tmp || i > run then i else if i == tmp then run else i - 1;
    assert w[i] == v[k] && Rotated(u, tmp, run)[i] == u[k];
  }

  /** The insertion pass's bytewise rotation. */
  method Rotate(a: array<Byte>, size: nat, n: nat, tmp: nat, run: nat)
    requires a.Length == Base(n, size) && tmp <= run < n
    modifies a
    ensures View(a[..], size, n) == old(Rotated(View(a[..], size, n), tmp, run))
  {
    hide Base, Element, View, Blend, Rotated;
    ghost var v := View(a[..], size, n);
    RotatedSizes(v, tmp, run, size);
    ghost var w := Rotated(v, tmp, run);
    var trav := size;
    while trav > 0
      invariant 0 <= trav <= size
      invariant forall i :: 0 <= i < n ==> View(a[..], size, n)[i] == Blend(v[i], w[i], trav)
    {
      trav := trav - 1;
      ghost var u := View(a[..], size, n);
      RotateLane(a, size, n, tmp, run, trav);
      forall i | 0 <= i < n ensures View(a[..], size, n)[i] == Blend(v[i], w[i], trav) {
        assert Rotated(u, tmp, run)[i][trav] == w[i][trav] by { RotatedByte(u, v, w, tmp, run, trav, i, size); }
        BlendStep(v[i], w[i], trav);
      }
    }
    assert forall i :: 0 <= i < n ==> View(a[..], size, n)[i] == w[i];
  }
}
