/**
 * Difficulty arithmetic as the job performs it with BouncyCastle's
 * `BigInteger`: the constant Diff1, truncating division, two's complement
 * byte arrays in both directions, `LongValue`, and the compact target.
 */
module Difficulty {
  import opened Bytes

  /** `MoneroConstants.Diff1`: the largest 256-bit value, 2^256 - 1. */
  const Diff1: nat := Pow256(32) - 1

  const TwoPow63: int := 0x8000_0000_0000_0000

  function Abs(x: int): nat {
    if x < 0 then -x else x
  }

  /**
   * `BigInteger.Divide` of a non-negative dividend (the job only divides
   * Diff1): the quotient is rounded toward zero, so the remainder is
   * non-negative and smaller than the divisor's magnitude.
   */
  function TruncDiv(a: nat, b: int): (q: int)
    requires b != 0
    ensures 0 <= a - q * b < Abs(b)
  {
    if b > 0 then a / b
    else
      var m := a / -b;
      assert a - (-m) * b == a - m * -b;
      -m
  }

  /** `LongValue`: the low 64 bits, read as a signed 64-bit integer. */
  function ToInt64(x: int): (r: int)
    ensures -TwoPow63 <= r < TwoPow63
    ensures (x - r) % (2 * TwoPow63) == 0
  {
    var m := 2 * TwoPow63;
    var r := (x + TwoPow63) % m - TwoPow63;
    assert x - r == m * ((x + TwoPow63) / m);
    MultipleMod(m, (x + TwoPow63) / m);
    r
  }

  lemma MultipleMod(m: nat, k: int)
    requires m > 0
    ensures (m * k) % m == 0
  {
    DivUniqueInt(m * k, m, k, 0);
  }

  lemma DivUniqueInt(n: int, d: nat, q: int, r: nat)
    requires d > 0 && r < d && n == d * q + r
    ensures n % d == r
  {
    var q0, r0 := n / d, n % d;
    assert d * q0 + r0 == d * q + r;
    if q > q0 {
      assert d * (q - q0) == r0 - r;
      MulAtLeast(d, q - q0);
      assert false;
    } else if q0 > q {
      assert d * (q0 - q) == r - r0;
      MulAtLeast(d, q0 - q);
      assert false;
    }
  }

  /** A value that already fits in a signed 64-bit integer is kept by `LongValue`. */
  lemma ToInt64Fits(x: int)
    requires -TwoPow63 <= x < TwoPow63
    ensures ToInt64(x) == x
  {
    DivUniqueInt(x + TwoPow63, 2 * TwoPow63, 0, x + TwoPow63);
  }

  /** `new BigInteger(bytes)`: the bytes read big-endian as a two's complement number. */
  function SignedValue(bs: seq<byte>): (v: int)
    requires |bs| > 0
    ensures v == FromBigEndian(bs) || v == FromBigEndian(bs) - Pow256(|bs|)
    ensures v < 0 <==> bs[0] >= 128
  {
    if bs[0] >= 128 then FromBigEndian(bs) - Pow256(|bs|) else FromBigEndian(bs)
  }

  /** The leading byte of a big-endian string weighs 256^(length - 1). */
  lemma {:induction false} LeadingByte(bs: seq<byte>)
    requires |bs| > 0
    ensures FromBigEndian(bs) == bs[0] * Pow256(|bs| - 1) + FromBigEndian(bs[1..])
  {
    var n := |bs|;
    if n > 1 {
      var init, tail := bs[..n - 1], bs[1..];
      LeadingByte(init);
      assert init[1..] == tail[..n - 2];
      var x := FromBigEndian(init[1..]);
      assert FromBigEndian(init) == bs[0] * Pow256(n - 2) + x;
      assert FromBigEndian(tail) == x * 256 + bs[n - 1];
      Distribute(bs[0], Pow256(n - 2), x);
    }
  }

  lemma Distribute(b: nat, p: nat, x: nat)
    ensures (b * p + x) * 256 == b * (256 * p) + x * 256
  {
  }

  /** Number of bytes of BouncyCastle's `ToByteArray` for a non-negative value: room for a sign bit. */
  function SignedLen(q: nat): (n: nat)
    ensures n >= 1
  {
    if q < 128 then 1 else 1 + SignedLen(q / 256)
  }

  /** `ToByteArray` of a non-negative value: its shortest big-endian two's complement bytes. */
  function ToByteArray(q: nat): (bs: seq<byte>)
    ensures |bs| == SignedLen(q)
  {
    BigEndian(q, SignedLen(q))
  }

  /** `ToByteArray` takes at most n bytes exactly when the value is below 2^(8n - 1). */
  lemma {:induction false} SignedLenBound(q: nat, n: nat)
    requires n >= 1
    ensures SignedLen(q) <= n <==> q < 128 * Pow256(n - 1)
  {
    if q >= 128 && n > 1 {
      SignedLenBound(q / 256, n - 1);
      assert 128 * Pow256(n - 1) == 256 * (128 * Pow256(n - 2));
    }
  }

  /** Reading `ToByteArray(q)` back with the byte-array constructor gives q. */
  lemma ToByteArrayRoundTrip(q: nat)
    ensures SignedValue(ToByteArray(q)) == q
  {
    var n := SignedLen(q);
    SignedLenBound(q, n);
    SignedLenFits(q, n);
    LeadingByteBelow(q, n);
    BigEndianRoundTrip(q, n);
  }

  lemma SignedLenFits(q: nat, n: nat)
    requires n >= 1 && q < 128 * Pow256(n - 1)
    ensures q < Pow256(n)
  {
    assert Pow256(n) == 256 * Pow256(n - 1);
  }

  /** Below 2^(8n - 1), the first of the n big-endian bytes has its top bit clear. */
  lemma LeadingByteBelow(q: nat, n: nat)
    requires n >= 1 && q < 128 * Pow256(n - 1)
    ensures BigEndian(q, n)[0] < 128
  {
    BigEndianHead(q, n);
    DivBelow(q, Pow256(n - 1), 128);
  }

  lemma DivAtMost(n: nat, d: nat)
    requires d >= 1
    ensures n / d <= n
  {
    if n / d > 0 {
      MulAtLeast(n / d, d);
    }
  }

  lemma Diff1Split()
    ensures Diff1 == 256 * Pow256(31) - 1
  {
  }

  /**
   * The quotient `Diff1 / floor(difficulty)` fits the 32-byte target buffer
   * exactly when the truncated difficulty is at least 2.
   */
  lemma {:induction false} TargetFits(f: int)
    requires f >= 1
    ensures |ToByteArray(Diff1 / f)| <= 32 <==> f >= 2
  {
    var p, q := Pow256(31), Diff1 / f;
    assert Diff1 == 256 * p - 1 by {
      Diff1Split();
    }
    assert q < 128 * p <==> f >= 2 by {
      QuotientBelowHalf(Diff1, p, f);
    }
    SignedLenBound(q, 32);
  }

  lemma {:induction false} QuotientBelowHalf(d: nat, p: nat, f: int)
    requires p >= 1 && d == 256 * p - 1 && f >= 1
    ensures d / f < 128 * p <==> f >= 2
  {
    if f >= 2 {
      MulMono(128 * p, 2, f);
      DivBelow(d, f, 128 * p);
    }
  }

  /** Right-aligning `ToByteArray(q)` in a zeroed buffer of w bytes gives the w-byte big-endian q. */
  lemma PaddedToByteArray(q: nat, w: nat)
    requires |ToByteArray(q)| <= w
    ensures Zeros(w - |ToByteArray(q)|) + ToByteArray(q) == BigEndian(q, w)
  {
    var n := SignedLen(q);
    SignedLenBound(q, n);
    assert Pow256(n) == 256 * Pow256(n - 1);
    BigEndianPadded(q, n, w - n);
  }

  /** The 4 target bytes `EncodeTarget` hex-encodes. */
  function TargetBytes(difficulty: real): (t: seq<byte>)
    requires 2 <= difficulty.Floor
    ensures |t| == 4
  {
    Reverse(BigEndian(Diff1 / difficulty.Floor, 32)[..4])
  }

  /**
   * Read little-endian, the compact target is the top 32 bits of the
   * 256-bit target `Diff1 / floor(difficulty)`.
   */
  lemma {:induction false} TargetIsTopWord(difficulty: real)
    requires 2 <= difficulty.Floor
    ensures FromBigEndian(Reverse(TargetBytes(difficulty))) == (Diff1 / difficulty.Floor) / Pow256(28)
  {
    var q := Diff1 / difficulty.Floor;
    assert q < Pow256(32) by {
      DivAtMost(Diff1, difficulty.Floor);
    }
    TopWord(q);
  }

  lemma {:induction false} TopWord(q: nat)
    requires q < Pow256(32)
    ensures FromBigEndian(Reverse(Reverse(BigEndian(q, 32)[..4]))) == q / Pow256(28)
  {
    ReverseReverse(BigEndian(q, 32)[..4]);
    BigEndianTop(q, 4, 28);
  }

  /**
   * The compact target is zero exactly when floor(difficulty) reaches 2^32:
   * the quotient then falls below 2^224 and its top four bytes are zero.
   */
  lemma TargetZeroExactly(difficulty: real)
    requires 2 <= difficulty.Floor
    ensures TargetBytes(difficulty) == Zeros(4) <==> difficulty.Floor >= Pow256(4)
  {
    var t := TargetBytes(difficulty);
    TargetIsTopWord(difficulty);
    assert Diff1 == Pow256(4) * Pow256(28) - 1 by {
      Pow256Add(4, 28);
    }
    TopWordZero(Diff1, difficulty.Floor, Pow256(4), Pow256(28));
    assert FromBigEndian(Reverse(t)) == 0 <==> t == Zeros(4) by {
      ZeroWord(t);
    }
  }

  /** With n = a * b - 1, the top word (n / f) / b is zero exactly when f >= a. */
  lemma TopWordZero(n: nat, f: nat, a: nat, b: nat)
    requires a >= 1 && b >= 1 && f >= 1 && n == a * b - 1
    ensures (n / f) / b == 0 <==> f >= a
  {
    if f >= a {
      MulMono(b, a, f);
      DivBelow(n, f, b);
    } else {
      MulMono(b, f, a - 1);
      DivAbove(n, f, b);
      DivAbove(n / f, b, 1);
    }
  }

  /** Four bytes read back to front are zero exactly when every byte is. */
  lemma ZeroWord(t: seq<byte>)
    requires |t| == 4
    ensures FromBigEndian(Reverse(t)) == 0 <==> t == Zeros(4)
  {
    var r := Reverse(t);
    BigEndianOfZero(4);
    if FromBigEndian(r) == 0 {
      FromBigEndianRoundTrip(r);
      assert t == Reverse(r) by {
        ReverseReverse(t);
      }
    }
    if t == Zeros(4) {
      assert r == BigEndian(0, 4);
      BigEndianRoundTrip(0, 4);
    }
  }

  /**
   * The target and the share check agree: a hash whose top word, its last
   * four bytes read little-endian, lies below the target word reaches at
   * least floor(difficulty), as long as its quotient fits 64 bits.
   */
  lemma TargetAgreesWithHashDifficulty(difficulty: real, hash: seq<byte>)
    requires 2 <= difficulty.Floor
    requires |hash| == 32 && hash[31] < 128
    requires FromBigEndian(Reverse(hash[28..])) < FromBigEndian(Reverse(TargetBytes(difficulty)))
    requires FromBigEndian(Reverse(hash)) > 0
    requires Diff1 / FromBigEndian(Reverse(hash)) < TwoPow63
    ensures HashDifficulty(hash) >= difficulty.Floor
  {
    var f, v := difficulty.Floor, FromBigEndian(Reverse(hash));
    assert FromBigEndian(Reverse(hash[28..])) == v / Pow256(28) by {
      HashTopWord(hash);
    }
    TargetIsTopWord(difficulty);
    HashDifficultyUnsigned(hash);
    BelowTopWord(Diff1, f, v, Pow256(28));
  }

  /** The last four bytes of a hash, read little-endian, are the top word of its unsigned value. */
  lemma HashTopWord(hash: seq<byte>)
    requires |hash| == 32
    ensures FromBigEndian(Reverse(hash[28..])) == FromBigEndian(Reverse(hash)) / Pow256(28)
  {
    var r := Reverse(hash);
    var v := FromBigEndian(r);
    assert Reverse(hash[28..]) == r[..4];
    FromBigEndianRoundTrip(r);
    BigEndianTop(v, 4, 28);
  }

  /** A value whose top word is below that of n / f divides n at least f times. */
  lemma BelowTopWord(n: nat, f: nat, v: nat, p: nat)
    requires f >= 1 && v >= 1 && p >= 1
    requires v / p < (n / f) / p
    ensures n / v >= f
  {
    if v > n / f {
      DivMono(n / f, v, p);
      assert false;
    }
    MulMono(f, v, n / f);
    DivAbove(n, v, f);
  }

  /** The value of a 32-byte hash: its bytes reversed, read as a signed number. */
  function HashValue(hash: seq<byte>): (v: int)
    requires |hash| == 32
    ensures v < 0 <==> hash[31] >= 128
  {
    SignedValue(Reverse(hash))
  }

  /** `Diff1.Divide(new BigInteger(hash reversed)).LongValue`: the difficulty a hash achieves. */
  function HashDifficulty(hash: seq<byte>): (d: int)
    requires |hash| == 32 && HashValue(hash) != 0
    ensures -TwoPow63 <= d < TwoPow63
  {
    ToInt64(TruncDiv(Diff1, HashValue(hash)))
  }

  /**
   * With the top bit of its last byte clear, a hash is read as the unsigned
   * little-endian number it stores, and a quotient that fits in 64 bits is
   * the exact difficulty `floor(Diff1 / value)`.
   */
  lemma HashDifficultyUnsigned(hash: seq<byte>)
    requires |hash| == 32 && hash[31] < 128
    requires FromBigEndian(Reverse(hash)) > 0
    requires Diff1 / FromBigEndian(Reverse(hash)) < TwoPow63
    ensures HashValue(hash) == FromBigEndian(Reverse(hash))
    ensures HashDifficulty(hash) == Diff1 / FromBigEndian(Reverse(hash))
  {
    var v := FromBigEndian(Reverse(hash));
    var q := TruncDiv(Diff1, v);
    assert q == Diff1 / v;
    ToInt64Fits(q);
  }

  /**
   * With the top bit of its last byte set, a hash is read as a negative
   * number and the 256-bit quotient is negative.
   */
  lemma {:induction false} HashQuotientNegative(hash: seq<byte>)
    requires |hash| == 32 && hash[31] >= 128
    ensures TruncDiv(Diff1, HashValue(hash)) <= -1
  {
    NegativeSigned(Reverse(hash));
    NegativeQuotient(Diff1, HashValue(hash));
  }

  /** Bytes with the top bit of the first set read as a negative number of magnitude below 256^n. */
  lemma {:induction false} NegativeSigned(bs: seq<byte>)
    requires |bs| > 0 && bs[0] >= 128
    ensures SignedValue(bs) < 0 && -SignedValue(bs) <= Pow256(|bs|) - 1
  {
    LeadingByte(bs);
    MulAtLeast(Pow256(|bs| - 1), bs[0]);
  }

  /** `LongValue` is the only signed 64-bit value congruent to x modulo 2^64. */
  lemma ToInt64Unique(x: int, r: int)
    requires -TwoPow63 <= r < TwoPow63
    requires (x - r) % (2 * TwoPow63) == 0
    ensures ToInt64(x) == r
  {
    var m := 2 * TwoPow63;
    var r2 := ToInt64(x);
    var a, b := (x - r) / m, (x - r2) / m;
    assert x - r == m * a && x - r2 == m * b;
    assert r2 - r == m * (a - b);
    if a > b {
      MulAtLeast(m, a - b);
      assert false;
    } else if b > a {
      assert r - r2 == m * (b - a);
      MulAtLeast(m, b - a);
      assert false;
    }
  }

  /** n bytes 0xFF read big-endian: 256^n - 1. */
  lemma {:induction false} AllOnesValue(n: nat)
    ensures FromBigEndian(seq(n, _ => 255)) == Pow256(n) - 1
  {
    if n > 0 {
      var bs := seq(n, _ => 255);
      assert bs[..n - 1] == seq(n - 1, _ => 255);
      AllOnesValue(n - 1);
    }
  }

  /**
   * A hash with the top bit of its last byte set is not refused for its
   * sign: the all-0xFF hash reads as -1, the 256-bit quotient is -Diff1,
   * and its low 64 bits read as the difficulty 1.
   */
  lemma AllOnesHashDifficulty()
    ensures var h := seq(32, _ => 255);
      && h[31] >= 128
      && HashValue(h) == -1
      && HashDifficulty(h) == 1
  {
    AllOnesHashValue();
    TruncDivByMinusOne(Diff1);
    AllOnesLow64(TruncDiv(Diff1, -1), 32);
  }

  lemma AllOnesHashValue()
    ensures HashValue(seq(32, _ => 255)) == -1
  {
    var h: seq<byte> := seq(32, _ => 255);
    assert Reverse(h) == h;
    AllOnesValue(32);
  }

  lemma TruncDivByMinusOne(a: nat)
    ensures TruncDiv(a, -1) == 0 - a
  {
  }

  /** For every width of at least 8 bytes, 1 - 256^n keeps 1 in its low 64 bits. */
  lemma AllOnesLow64(x: int, n: nat)
    requires n >= 8 && x == 1 - Pow256(n)
    ensures ToInt64(x) == 1
  {
    Pow256Split(n);
    Low64OfOneMinus(x, Pow256(n - 8));
  }

  /** 1 minus a multiple of 2^64 keeps 1 in its low 64 bits. */
  lemma Low64OfOneMinus(x: int, k: int)
    requires x == 1 - 2 * TwoPow63 * k
    ensures ToInt64(x) == 1
  {
    var m := 2 * TwoPow63;
    assert x - 1 == m * -k;
    MultipleMod(m, -k);
    ToInt64Unique(x, 1);
  }

  /** For every width of at least 8 bytes, 256^n - 1 reads as -1 in its low 64 bits. */
  lemma FullWidthLow64(x: int, n: nat)
    requires n >= 8 && x == Pow256(n) - 1
    ensures ToInt64(x) == -1
  {
    Pow256Split(n);
    Low64OfMinusOne(x, Pow256(n - 8));
  }

  /** A multiple of 2^64 minus 1 reads as -1 in its low 64 bits. */
  lemma Low64OfMinusOne(x: int, k: int)
    requires x == 2 * TwoPow63 * k - 1
    ensures ToInt64(x) == -1
  {
    var m := 2 * TwoPow63;
    assert x + 1 == m * k;
    MultipleMod(m, k);
    ToInt64Unique(x, -1);
  }

  /** 256^n is a multiple of 2^64 once n is at least 8. */
  lemma Pow256Split(n: nat)
    requires n >= 8
    ensures Pow256(n) == 2 * TwoPow63 * Pow256(n - 8)
  {
    Pow256Add(8, n - 8);
    Pow256Eight();
  }

  lemma Pow256Eight()
    ensures Pow256(8) == 2 * TwoPow63
  {
  }

  /**
   * The best hashes wrap: the hash reading as 1 divides Diff1 into a
   * quotient far wider than 64 bits, whose low 64 bits read as -1.
   */
  lemma BestHashWraps()
    ensures var h := [1] + Zeros(31);
      && HashValue(h) == 1
      && TruncDiv(Diff1, HashValue(h)) >= 2 * TwoPow63
      && HashDifficulty(h) == -1
  {
    BestHashValue();
    assert TruncDiv(Diff1, 1) == Diff1;
    FullWidthLow64(Diff1, 32);
    FullWidthWide(Diff1, 32);
  }

  /** For every width of at least 9 bytes, 256^n - 1 does not fit 64 bits. */
  lemma FullWidthWide(x: int, n: nat)
    requires n >= 9 && x == Pow256(n) - 1
    ensures x >= 2 * TwoPow63
  {
    var k := Pow256(n - 8);
    Pow256Split(n);
    assert k >= 2 by {
      assert k == 256 * Pow256(n - 9);
    }
    MulMono(2 * TwoPow63, 2, k);
  }

  lemma BestHashValue()
    ensures HashValue([1] + Zeros(31)) == 1
  {
    var r := Reverse([1] + Zeros(31));
    assert r == Zeros(31) + [1];
    assert r[..31] == Zeros(31) == BigEndian(0, 31) by {
      BigEndianOfZero(31);
    }
    BigEndianRoundTrip(0, 31);
  }

  /** Dividing by a negative number no larger in magnitude than the dividend gives at most -1. */
  lemma NegativeQuotient(d: nat, v: int)
    requires v < 0 && -v <= d
    ensures TruncDiv(d, v) <= -1
  {
    DivAtLeastOne(d, -v);
  }

  lemma DivAtLeastOne(n: nat, d: nat)
    requires 1 <= d <= n
    ensures n / d >= 1
  {
    if n / d == 0 {
      assert false;
    }
  }
}
