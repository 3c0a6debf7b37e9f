/** Bytes, exclusive or, fixed-width integers, and the plain byte array that the streams refine. */
module Bytes {
  type byte = x: int | 0 <= x < 256

  const TWO_32: nat := 0x1_0000_0000
  const TWO_64: nat := 0x1_0000_0000_0000_0000

  // ---------------------------------------------------------------- division

  lemma QuotientIs(n: nat, d: nat, q: nat, rest: nat)
    requires rest < d && n == d * q + rest
    ensures n / d == q
  {
    var p := n / d;
    assert n == d * p + n % d;
    assert p < q ==> d * (p + 1) <= d * q;
    assert p > q ==> d * (q + 1) <= d * p;
  }

  lemma DivideTwice(n: nat, d: nat, k: nat)
    requires d > 0 && k > 0
    ensures d * k > 0 && n / d / k == n / (d * k)
  {
    QuotientOfQuotient(n, d, k, n / d, n % d, n / d / k, n / d % k);
  }

  lemma QuotientOfQuotient(n: nat, d: nat, k: nat, x: nat, m: nat, q: nat, rest: nat)
    requires rest < k && m < d && n == d * x + m && x == k * q + rest
    ensures d * k > 0 && n / (d * k) == q
  {
    Spread(d, k, q, rest, m);
    QuotientIs(n, d * k, q, d * rest + m);
  }

  lemma Spread(d: nat, k: nat, q: nat, rest: nat, m: nat)
    requires rest < k && m < d
    ensures d * k > 0 && d * (k * q + rest) + m == (d * k) * q + (d * rest + m) && d * rest + m < d * k
  {
    assert d * (rest + 1) <= d * k;
  }

  // ---------------------------------------------------------------- exclusive or

  function TwoTo(k: nat): (r: nat)
    ensures r > 0
  {
    if k == 0 then 1 else 2 * TwoTo(k - 1)
  }

  /** Exclusive or of the low k bits. */
  function XorBits(a: nat, b: nat, k: nat): (r: nat)
    ensures r < TwoTo(k)
  {
    if k == 0 then 0
    else (if a % 2 == b % 2 then 0 else 1) + 2 * XorBits(a / 2, b / 2, k - 1)
  }

  function XorByte(a: byte, b: byte): byte {
    assert TwoTo(8) == 256;
    XorBits(a, b, 8)
  }

  lemma {:induction false} XorBitsCancels(a: nat, b: nat, k: nat)
    requires a < TwoTo(k)
    ensures XorBits(XorBits(a, b, k), b, k) == a
  {
    if k > 0 {
      XorBitsCancels(a / 2, b / 2, k - 1);
      var inner := XorBits(a / 2, b / 2, k - 1);
      assert XorBits(a, b, k) / 2 == inner;
    }
  }

  /** The j-th bit of a number. */
  ghost function Bit(n: nat, j: nat): nat {
    n / TwoTo(j) % 2
  }

  lemma {:induction false} XorBitsAt(a: nat, b: nat, k: nat, j: nat)
    requires j < k
    ensures Bit(XorBits(a, b, k), j) == (Bit(a, j) + Bit(b, j)) % 2
  {
    hide Bit, TwoTo;
    LowBit(a);
    LowBit(b);
    LowBit(XorBits(a, b, k));
    if j > 0 {
      XorBitsAt(a / 2, b / 2, k - 1, j - 1);
      assert XorBits(a, b, k) / 2 == XorBits(a / 2, b / 2, k - 1);
      HigherBit(XorBits(a, b, k), j);
      HigherBit(a, j);
      HigherBit(b, j);
    }
  }

  lemma LowBit(n: nat)
    ensures Bit(n, 0) == n % 2
  {
  }

  lemma HigherBit(n: nat, j: nat)
    requires j > 0
    ensures Bit(n, j) == Bit(n / 2, j - 1)
  {
    DivideTwice(n, 2, TwoTo(j - 1));
  }

  /** Every bit of the exclusive or of two bytes is the sum of theirs. */
  lemma XorByteBits(a: byte, b: byte, j: nat)
    requires j < 8
    ensures Bit(XorByte(a, b), j) == (Bit(a, j) + Bit(b, j)) % 2
  {
    XorBitsAt(a, b, 8, j);
  }

  function Xor(a: seq<byte>, b: seq<byte>): (r: seq<byte>)
    requires |a| == |b|
    ensures |r| == |a|
  {
    seq(|a|, i requires 0 <= i < |a| => XorByte(a[i], b[i]))
  }

  lemma XorCancels(a: seq<byte>, b: seq<byte>)
    requires |a| == |b|
    ensures Xor(Xor(a, b), b) == a
  {
    forall i | 0 <= i < |a| ensures Xor(Xor(a, b), b)[i] == a[i] {
      assert TwoTo(8) == 256;
      XorBitsCancels(a[i], b[i], 8);
    }
  }

  // ---------------------------------------------------------------- integers

  /** n as `width` bytes, least significant first: the object representation on a little-endian machine. */
  function LittleEndian(n: nat, width: nat): (r: seq<byte>)
    ensures |r| == width
  {
    if width == 0 then [] else [n % 256] + LittleEndian(n / 256, width - 1)
  }

  /** Each byte of a fixed-width number is a digit of it. */
  lemma {:induction false} LittleEndianDigit(n: nat, width: nat, i: nat)
    requires i < width
    ensures LittleEndian(n, width)[i] == n / Pow256(i) % 256
  {
    if i > 0 {
      LittleEndianDigit(n / 256, width - 1, i - 1);
      DivideTwice(n, 256, Pow256(i - 1));
    }
  }

  function FromLittleEndian(s: seq<byte>): nat {
    if s == [] then 0 else s[0] + 256 * FromLittleEndian(s[1..])
  }

  function Pow256(k: nat): (r: nat)
    ensures r > 0
  {
    if k == 0 then 1 else 256 * Pow256(k - 1)
  }

  lemma {:induction false} LittleEndianRoundTrip(n: nat, width: nat)
    requires n < Pow256(width)
    ensures FromLittleEndian(LittleEndian(n, width)) == n
  {
    if width > 0 {
      LittleEndianRoundTrip(n / 256, width - 1);
      assert LittleEndian(n, width)[1..] == LittleEndian(n / 256, width - 1);
    }
  }

  // ---------------------------------------------------------------- plain byte arrays

  function Min(a: int, b: int): int {
    if a <= b then a else b
  }

  function Max(a: int, b: int): int {
    if a >= b then a else b
  }

  function Zeros(n: nat): (r: seq<byte>)
    ensures |r| == n
    ensures forall i :: 0 <= i < n ==> r[i] == 0
  {
    seq(n, i => 0)
  }

  /** c, grown with zeros up to n bytes when it is shorter. */
  function ZeroExtend(c: seq<byte>, n: nat): (r: seq<byte>)
    ensures |r| == Max(|c|, n)
    ensures r[..|c|] == c
  {
    if n > |c| then c + Zeros(n - |c|) else c
  }

  /** c cut or grown with zeros to n bytes. */
  function Resize(c: seq<byte>, n: nat): (r: seq<byte>)
    ensures |r| == n
  {
    ZeroExtend(c, n)[..n]
  }

  /** c with d laid over it from position off on. */
  function Splice(c: seq<byte>, off: nat, d: seq<byte>): (r: seq<byte>)
    requires off <= |c|
    ensures |r| == Max(|c|, off + |d|)
  {
    c[..off] + d + (if off + |d| < |c| then c[off + |d|..] else [])
  }

  /** What a write at any offset does to a plain byte array: a gap before `off` becomes zeros. */
  function ArrayWrite(c: seq<byte>, off: nat, d: seq<byte>): (r: seq<byte>)
    ensures |r| == Max(|c|, off + |d|)
  {
    Splice(ZeroExtend(c, off), off, d)
  }

  /** What a read at any offset returns from a plain byte array. */
  function ArrayRead(c: seq<byte>, off: nat, n: nat): (r: seq<byte>)
    ensures |r| <= n
  {
    if off >= |c| then [] else c[off..Min(off + n, |c|)]
  }

  /** The bytes after a write: the new ones, the old ones around them, and zeros where there was nothing. */
  lemma ArrayWriteAt(c: seq<byte>, off: nat, d: seq<byte>, i: nat)
    requires i < |ArrayWrite(c, off, d)|
    ensures |ArrayWrite(c, off, d)| == if |c| > off + |d| then |c| else off + |d|
    ensures ArrayWrite(c, off, d)[i]
         == if off <= i < off + |d| then d[i - off] else if i < |c| then c[i] else 0
  {
    SpliceAt(ZeroExtend(c, off), off, d, i);
  }

  /** A read returns the bytes from its offset on, as many as there are. */
  lemma ArrayReadAt(c: seq<byte>, off: nat, n: nat, i: nat)
    ensures |ArrayRead(c, off, n)| == if off + n <= |c| then n else if off <= |c| then |c| - off else 0
    ensures i < |ArrayRead(c, off, n)| ==> off + i < |c| && ArrayRead(c, off, n)[i] == c[off + i]
  {
  }

  lemma ResizeAt(c: seq<byte>, n: nat, i: nat)
    requires i < n
    ensures Resize(c, n)[i] == if i < |c| then c[i] else 0
  {
  }

  lemma SpliceAt(c: seq<byte>, off: nat, d: seq<byte>, i: nat)
    requires off <= |c| && i < Max(|c|, off + |d|)
    ensures Splice(c, off, d)[i] == if off <= i < off + |d| then d[i - off] else c[i]
  {
  }

  lemma SpliceNothing(c: seq<byte>, off: nat, d: seq<byte>)
    requires off <= |c|
    ensures Splice(c, off, d[..0]) == c
  {
  }

  /** Two adjacent writes are one write. */
  lemma SpliceJoins(c: seq<byte>, off: nat, d: seq<byte>, k: nat)
    requires off <= |c| && k <= |d|
    ensures Splice(Splice(c, off, d[..k]), off + k, d[k..]) == Splice(c, off, d)
  {
    var l, r := Splice(Splice(c, off, d[..k]), off + k, d[k..]), Splice(c, off, d);
    assert |l| == |r|;
    forall i | 0 <= i < |l| ensures l[i] == r[i] {
      SpliceAt(c, off, d, i);
      SpliceAt(Splice(c, off, d[..k]), off + k, d[k..], i);
    }
  }

  lemma SliceOfSlice(s: seq<byte>, i: nat, j: nat, k: nat, l: nat)
    requires i <= j <= |s| && k <= l <= j - i
    ensures s[i..j][k..l] == s[i + k..i + l]
  {
    var a, b := s[i..j][k..l], s[i + k..i + l];
    forall m | 0 <= m < |a| ensures a[m] == b[m] {
      assert a[m] == s[i..j][k + m];
    }
  }
}
