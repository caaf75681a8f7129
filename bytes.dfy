/**
 * Byte buffers as the job handles them: `Buffer.BlockCopy` splices,
 * fixed-width big-endian integers and byte-order reversal.
 */
module Bytes {

  type byte = x: int | 0 <= x < 256

  /** 256 to the power n: the number of values n bytes can hold. */
  function Pow256(n: nat): (r: nat)
    ensures r >= 1
  {
    if n == 0 then 1 else 256 * Pow256(n - 1)
  }

  function Zeros(n: nat): (z: seq<byte>)
    ensures |z| == n && forall i :: 0 <= i < n ==> z[i] == 0
  {
    seq(n, _ => 0)
  }

  /**
   * `dst` with `src` written over `dst[off .. off + |src|]`: the value a
   * `Buffer.BlockCopy` into `dst` at offset `off` leaves behind.
   */
  function Splice(dst: seq<byte>, off: nat, src: seq<byte>): (r: seq<byte>)
    requires off + |src| <= |dst|
    ensures |r| == |dst|
    ensures forall i :: 0 <= i < |src| ==> r[off + i] == src[i]
    ensures forall i :: 0 <= i < |dst| && !(off <= i < off + |src|) ==> r[i] == dst[i]
  {
    dst[..off] + src + dst[off + |src|..]
  }

  /** Copying a whole buffer over one of the same length gives the copy. */
  lemma SpliceWhole(dst: seq<byte>, src: seq<byte>)
    requires |dst| == |src|
    ensures Splice(dst, 0, src) == src
  {
    assert dst[..0] + src + dst[|src|..] == src;
  }

  /**
   * `Buffer.BlockCopy(src, srcOffset, dst, dstOffset, count)`: copies `count`
   * bytes one by one and leaves the rest of `dst` as it was.
   */
  method BlockCopy(src: seq<byte>, srcOffset: nat, dst: array<byte>, dstOffset: nat, count: nat)
    requires srcOffset + count <= |src|
    requires dstOffset + count <= dst.Length
    modifies dst
    ensures dst[..] == Splice(old(dst[..]), dstOffset, src[srcOffset..srcOffset + count])
  {
    var i := 0;
    while i < count
      invariant 0 <= i <= count
      invariant forall k :: dstOffset <= k < dstOffset + i ==> dst[k] == src[srcOffset + (k - dstOffset)]
      invariant forall k :: 0 <= k < dst.Length && !(dstOffset <= k < dstOffset + i) ==> dst[k] == old(dst[k])
    {
      dst[dstOffset + i] := src[srcOffset + i];
      i := i + 1;
    }
    ghost var piece := src[srcOffset..srcOffset + count];
    ghost var expected := Splice(old(dst[..]), dstOffset, piece);
    forall k | 0 <= k < dst.Length
      ensures dst[k] == expected[k]
    {
      if dstOffset <= k < dstOffset + count {
        assert expected[dstOffset + (k - dstOffset)] == piece[k - dstOffset];
      }
    }
    assert dst[..] == expected;
  }

  function Reverse<T>(s: seq<T>): (r: seq<T>)
    ensures |r| == |s|
    ensures forall i :: 0 <= i < |s| ==> r[i] == s[|s| - 1 - i]
  {
    if s == [] then [] else Reverse(s[1..]) + [s[0]]
  }

  lemma ReverseReverse<T>(s: seq<T>)
    ensures Reverse(Reverse(s)) == s
  {
    var r := Reverse(Reverse(s));
    assert |r| == |s|;
    forall i | 0 <= i < |s| ensures r[i] == s[i] {
      assert r[i] == Reverse(s)[|s| - 1 - i];
    }
  }

  /** The low `width` bytes of `n`, most significant first. */
  function BigEndian(n: nat, width: nat): (r: seq<byte>)
    ensures |r| == width
  {
    if width == 0 then [] else BigEndian(n / 256, width - 1) + [n % 256]
  }

  /** The number whose big-endian bytes are `bs`. */
  function FromBigEndian(bs: seq<byte>): (n: nat)
    ensures n < Pow256(|bs|)
  {
    if bs == [] then 0
    else
      var high := FromBigEndian(bs[..|bs| - 1]);
      assert high * 256 <= (Pow256(|bs| - 1) - 1) * 256;
      high * 256 + bs[|bs| - 1]
  }

  /** Decoding the big-endian bytes of a number that fits gives it back. */
  lemma {:induction false} BigEndianRoundTrip(n: nat, width: nat)
    requires n < Pow256(width)
    ensures FromBigEndian(BigEndian(n, width)) == n
  {
    if width > 0 {
      var bs := BigEndian(n, width);
      assert bs[..width - 1] == BigEndian(n / 256, width - 1);
      BigEndianRoundTrip(n / 256, width - 1);
    }
  }

  /** Encoding a decoded byte string at its own width gives the bytes back. */
  lemma {:induction false} FromBigEndianRoundTrip(bs: seq<byte>)
    ensures BigEndian(FromBigEndian(bs), |bs|) == bs
  {
    if bs != [] {
      var init := bs[..|bs| - 1];
      var n := FromBigEndian(bs);
      assert n == FromBigEndian(init) * 256 + bs[|bs| - 1];
      assert n / 256 == FromBigEndian(init) && n % 256 == bs[|bs| - 1];
      FromBigEndianRoundTrip(init);
      assert bs == init + [bs[|bs| - 1]];
    }
  }

  /** A number that fits in `width` bytes, written wider, gains only leading zeros. */
  lemma {:induction false} BigEndianPadded(n: nat, width: nat, extra: nat)
    requires n < Pow256(width)
    ensures BigEndian(n, width + extra) == Zeros(extra) + BigEndian(n, width)
  {
    if width == 0 {
      BigEndianOfZero(extra);
    } else {
      BigEndianPadded(n / 256, width - 1, extra);
      assert BigEndian(n, width + extra) == BigEndian(n / 256, width - 1 + extra) + [n % 256];
    }
  }

  lemma {:induction false} BigEndianOfZero(width: nat)
    ensures BigEndian(0, width) == Zeros(width)
  {
    if width > 0 {
      BigEndianOfZero(width - 1);
    }
  }

  /** The first of the `width` big-endian bytes of `n` is the low byte of `n / 256^(width - 1)`. */
  lemma {:induction false} BigEndianHead(n: nat, width: nat)
    requires width >= 1
    ensures BigEndian(n, width)[0] == (n / Pow256(width - 1)) % 256
  {
    if width > 1 {
      BigEndianHead(n / 256, width - 1);
      assert BigEndian(n, width)[0] == BigEndian(n / 256, width - 1)[0];
      DivDiv(n, 256, Pow256(width - 2));
    }
  }

  /** The first `a` of the `a + b` big-endian bytes of a number that fits read back as its top part. */
  lemma {:induction false} BigEndianTop(n: nat, a: nat, b: nat)
    requires n < Pow256(a + b)
    ensures FromBigEndian(BigEndian(n, a + b)[..a]) == n / Pow256(b)
  {
    if b == 0 {
      assert BigEndian(n, a + b)[..a] == BigEndian(n, a);
      BigEndianRoundTrip(n, a);
    } else {
      assert BigEndian(n, a + b)[..a] == BigEndian(n / 256, a + (b - 1))[..a];
      assert Pow256(a + b) == 256 * Pow256(a + (b - 1));
      DivBelow(n, 256, Pow256(a + (b - 1)));
      BigEndianTop(n / 256, a, b - 1);
      DivDiv(n, 256, Pow256(b - 1));
    }
  }

  lemma DivBelow(n: nat, d: nat, k: nat)
    requires d > 0 && n < d * k
    ensures n / d < k
  {
    if n / d >= k {
      MulMono(d, k, n / d);
      assert false;
    }
  }

  lemma DivAbove(n: nat, d: nat, k: nat)
    requires d > 0 && d * k <= n
    ensures n / d >= k
  {
    if n / d < k {
      MulMono(d, n / d + 1, k);
      assert false;
    }
  }

  lemma DivMono(a: nat, b: nat, p: nat)
    requires a <= b && p > 0
    ensures a / p <= b / p
  {
    if a / p > b / p {
      MulMono(p, b / p + 1, a / p);
      assert false;
    }
  }

  lemma MulMono(p: nat, a: nat, b: nat)
    requires a <= b
    ensures a * p <= b * p
  {
    assert b * p - a * p == (b - a) * p;
  }

  lemma DivDiv(n: nat, x: nat, y: nat)
    requires x > 0 && y > 0
    ensures n / x / y == n / (x * y)
  {
    var q1, r1 := n / x, n % x;
    var q2, r2 := q1 / y, q1 % y;
    Recombine(n, x, y, q1, r1, q2, r2);
    MulBelow(x, y, r2);
    DivUnique(n, x * y, q2, x * r2 + r1);
  }

  lemma Recombine(n: nat, x: nat, y: nat, q1: nat, r1: nat, q2: nat, r2: nat)
    requires n == x * q1 + r1 && q1 == y * q2 + r2
    ensures n == (x * y) * q2 + (x * r2 + r1)
  {
    MulSplit(x, y, q2, r2);
  }

  lemma MulSplit(x: nat, y: nat, q: nat, r: nat)
    ensures x * (y * q + r) == (x * y) * q + x * r
  {
  }

  lemma MulBelow(x: nat, y: nat, r: nat)
    requires r < y
    ensures x * r <= x * y - x
  {
    assert x * y - x * r == x * (y - r);
    MulAtLeast(x, y - r);
  }

  lemma {:induction false} MulAtLeast(d: nat, k: nat)
    requires k >= 1
    ensures d * k >= d
  {
    if k > 1 {
      MulAtLeast(d, k - 1);
      assert d * k == d * (k - 1) + d;
    }
  }

  lemma DivUnique(n: nat, d: nat, q: nat, r: nat)
    requires d > 0 && 0 <= r < d && n == d * q + r
    ensures n / d == q
  {
    var q0, r0 := n / d, n % d;
    assert d * q0 + r0 == d * q + r;
    if q > q0 {
      assert d * (q - q0) == r0 - r;
      MulAtLeast(d, q - q0);
      assert false;
    } else if q0 > q {
      assert d * (q0 - q) == r - r0;
      MulAtLeast(d, q0 - q);
      assert false;
    }
  }

  lemma Pow256Add(a: nat, b: nat)
    ensures Pow256(a + b) == Pow256(a) * Pow256(b)
  {
    if a > 0 {
      Pow256Add(a - 1, b);
    }
  }
}
