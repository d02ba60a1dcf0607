/** Little-endian integer fields over byte sequences, and the C integer
    conversions the demuxer relies on. The host is little-endian, so a struct
    field cast from a byte buffer reads its bytes least-significant first. */
module Bytes {

  /** An octet of the input. */
  newtype byte = b: int | 0 <= b < 256

  /** 256^n: the number of distinct values of an n-byte field. */
  function Pow256(n: nat): (r: nat)
    ensures r >= 1
  {
    if n == 0 then 1 else 256 * Pow256(n - 1)
  }

  /** Half of 256^n for n >= 1: the bound of the signed range of an n-byte field. */
  function HalfRange(n: nat): (h: nat)
    requires n >= 1
    ensures 2 * h == Pow256(n)
  {
    128 * Pow256(n - 1)
  }

  lemma Pow256Values()
    ensures Pow256(2) == 0x1_0000
    ensures Pow256(4) == 0x1_0000_0000
    ensures Pow256(8) == 0x1_0000_0000_0000_0000
  {
    assert Pow256(1) == 0x100;
    assert Pow256(2) == 0x1_0000;
    assert Pow256(3) == 0x100_0000;
    assert Pow256(4) == 0x1_0000_0000;
    assert Pow256(5) == 0x100_0000_0000;
    assert Pow256(6) == 0x1_0000_0000_0000;
    assert Pow256(7) == 0x100_0000_0000_0000;
  }

  /** The unsigned value of a byte string read least-significant byte first. */
  function LE(s: seq<byte>): (v: nat)
    ensures v < Pow256(|s|)
  {
    if |s| == 0 then 0 else s[0] as int + 256 * LE(s[1..])
  }

  /** The n-byte little-endian encoding of v. */
  function ToLE(v: nat, n: nat): (s: seq<byte>)
    requires v < Pow256(n)
    ensures |s| == n
    ensures LE(s) == v
  {
    if n == 0 then [] else
      DivMod256(v, Pow256(n - 1));
      var b := (v % 256) as byte;
      var t := ToLE(v / 256, n - 1);
      assert ([b] + t)[1..] == t;
      [b] + t
  }

  lemma DivMod256(v: nat, p: nat)
    requires v < 256 * p
    ensures v / 256 < p
  {
  }

  /** Encoding is also a left inverse: every byte string is the encoding of its value. */
  lemma {:induction false} ToLEOfLE(s: seq<byte>)
    ensures ToLE(LE(s), |s|) == s
  {
    if |s| > 0 {
      var v := LE(s);
      var w := LE(s[1..]);
      assert v == s[0] as int + 256 * w;
      assert v % 256 == s[0] as int && v / 256 == w;
      ToLEOfLE(s[1..]);
      assert ToLE(v, |s|) == [(v % 256) as byte] + ToLE(v / 256, |s| - 1);
    }
  }

  /** The two's-complement reading of an n-byte unsigned value: the C
      conversion of an unsigned field to the signed type of the same width. */
  function ToSigned(u: nat, n: nat): (i: int)
    requires n >= 1 && u < Pow256(n)
    ensures -(HalfRange(n) as int) <= i < HalfRange(n)
    ensures i == u || i == u - Pow256(n)
  {
    if u < HalfRange(n) then u else u - Pow256(n)
  }

  /** The n-byte unsigned value whose two's-complement reading is i. */
  function ToUnsigned(i: int, n: nat): (u: nat)
    requires n >= 1 && -(HalfRange(n) as int) <= i < HalfRange(n)
    ensures u < Pow256(n)
    ensures ToSigned(u, n) == i
  {
    if i >= 0 then i else i + Pow256(n)
  }

  /** The byte at position i of an input, or 0 past its end: the host's
      single-byte read returns 0 once the input is exhausted. */
  function ByteAt(data: seq<byte>, i: nat): byte
  {
    if i < |data| then data[i] else 0
  }

  /** The n bytes starting at p, zero-filled past the end of the input. */
  function Window(data: seq<byte>, p: nat, n: nat): (w: seq<byte>)
    ensures |w| == n
    ensures forall k :: 0 <= k < n ==> w[k] == ByteAt(data, p + k)
    ensures p + n <= |data| ==> w == data[p..p + n]
  {
    seq(n, k requires 0 <= k < n => ByteAt(data, p + k))
  }

  function U16At(data: seq<byte>, p: nat): nat
  {
    LE(Window(data, p, 2))
  }

  function U32At(data: seq<byte>, p: nat): nat
  {
    LE(Window(data, p, 4))
  }

  function I32At(data: seq<byte>, p: nat): int
  {
    ToSigned(LE(Window(data, p, 4)), 4)
  }

  function I64At(data: seq<byte>, p: nat): int
  {
    ToSigned(LE(Window(data, p, 8)), 8)
  }

  /** A window read inside a piece placed at p returns the matching part of the piece. */
  lemma WindowOfPlaced(data: seq<byte>, p: nat, piece: seq<byte>, i: nat, n: nat)
    requires p + |piece| <= |data| && data[p..p + |piece|] == piece
    requires i + n <= |piece|
    ensures Window(data, p + i, n) == piece[i..i + n]
  {
    var w := Window(data, p + i, n);
    forall k | 0 <= k < n
      ensures w[k] == piece[i..i + n][k]
    {
      assert data[p + i + k] == data[p..p + |piece|][i + k];
    }
  }

  /** A slice of a piece placed at p is the matching slice of the input. */
  lemma SliceOfPlaced<T>(data: seq<T>, p: nat, piece: seq<T>, i: nat, j: nat)
    requires p + |piece| <= |data| && data[p..p + |piece|] == piece
    requires i <= j <= |piece|
    ensures data[p + i..p + j] == piece[i..j]
  {
    forall k | 0 <= k < j - i
      ensures data[p + i..p + j][k] == piece[i..j][k]
    {
      assert data[p + i + k] == data[p..p + |piece|][i + k];
    }
  }

  /** The cursor after skipping n bytes from c: reads past the end of the
      input do not advance the cursor beyond it. */
  function Skip(data: seq<byte>, c: nat, n: nat): (c': nat)
    requires c <= |data|
    ensures c <= c' <= |data|
    ensures c' == c + n || c' == |data|
    ensures c + n <= |data| ==> c' == c + n
  {
    if c + n <= |data| then c + n else |data|
  }

  /** The value of x converted to a 32-bit C int: reduced modulo 2^32 into the
      signed range, as GCC converts out-of-range integers. */
  function WrapInt32(x: int): (r: int)
    ensures -0x8000_0000 <= r < 0x8000_0000
    ensures (x - r) % 0x1_0000_0000 == 0
    ensures -0x8000_0000 <= x < 0x8000_0000 ==> r == x
  {
    var m := x % 0x1_0000_0000;
    if m < 0x8000_0000 then m else m - 0x1_0000_0000
  }

  /** C integer division, which truncates toward zero (Dafny's is Euclidean). */
  function TruncDiv(a: int, d: int): (q: int)
    requires d > 0
    ensures a >= 0 ==> q >= 0 && q * d <= a < q * d + d
    ensures a < 0 ==> q <= 0 && q * d - d < a <= q * d
  {
    var m := if a >= 0 then a else -a;
    var k := m / d;
    assert m == d * k + m % d && 0 <= m % d < d;
    assert k * d <= m < k * d + d;
    if a >= 0 then k
    else
      assert (-k) * d == -(k * d);
      -k
  }
}
