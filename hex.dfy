/**
 * Hexadecimal text for byte strings: `ToHexString` writes two lower-case
 * digits per byte, `HexToByteArray` reads two digits of either case per byte.
 */
module Hex {
  import opened Bytes

  predicate IsLowerHexDigit(c: char) {
    '0' <= c <= '9' || 'a' <= c <= 'f'
  }

  predicate IsHexDigit(c: char) {
    IsLowerHexDigit(c) || 'A' <= c <= 'F'
  }

  /** Text that `HexToByteArray` accepts: an even number of hex digits. */
  predicate IsHex(s: string) {
    |s| % 2 == 0 && forall i :: 0 <= i < |s| ==> IsHexDigit(s[i])
  }

  predicate IsLowerHex(s: string) {
    |s| % 2 == 0 && forall i :: 0 <= i < |s| ==> IsLowerHexDigit(s[i])
  }

  function DigitChar(d: nat): (c: char)
    requires d < 16
    ensures IsLowerHexDigit(c)
  {
    if d < 10 then (48 + d) as char else (87 + d) as char
  }

  function DigitValue(c: char): (d: nat)
    requires IsHexDigit(c)
    ensures d < 16
  {
    if '0' <= c <= '9' then c as int - 48
    else if 'a' <= c <= 'f' then c as int - 87
    else c as int - 55
  }

  lemma DigitRoundTrip(d: nat)
    requires d < 16
    ensures DigitValue(DigitChar(d)) == d
  {
  }

  lemma LowerDigitRoundTrip(c: char)
    requires IsLowerHexDigit(c)
    ensures DigitChar(DigitValue(c)) == c
  {
  }

  /** `ToHexString`: each byte as two lower-case digits, high nibble first. */
  function ToHex(bs: seq<byte>): (s: string)
    ensures IsLowerHex(s) && IsHex(s) && |s| == 2 * |bs|
  {
    if bs == [] then ""
    else [DigitChar(bs[0] / 16), DigitChar(bs[0] % 16)] + ToHex(bs[1..])
  }

  /** `HexToByteArray`: each pair of digits as one byte. */
  function HexToBytes(s: string): (bs: seq<byte>)
    requires IsHex(s)
    ensures 2 * |bs| == |s|
  {
    if s == [] then []
    else
      assert IsHexDigit(s[0]) && IsHexDigit(s[1]);
      [DigitValue(s[0]) * 16 + DigitValue(s[1])] + HexToBytes(s[2..])
  }

  /** Reading back the hex text of a byte string gives the byte string. */
  lemma {:induction false} HexRoundTrip(bs: seq<byte>)
    ensures HexToBytes(ToHex(bs)) == bs
  {
    if bs != [] {
      var s := ToHex(bs);
      assert s[2..] == ToHex(bs[1..]);
      DigitRoundTrip(bs[0] / 16);
      DigitRoundTrip(bs[0] % 16);
      HexRoundTrip(bs[1..]);
    }
  }

  /** Lower-case hex text is the hex text of the bytes it encodes. */
  lemma {:induction false} LowerHexRoundTrip(s: string)
    requires IsLowerHex(s)
    ensures ToHex(HexToBytes(s)) == s
  {
    if s != [] {
      assert IsLowerHexDigit(s[0]) && IsLowerHexDigit(s[1]);
      var b := DigitValue(s[0]) * 16 + DigitValue(s[1]);
      assert b / 16 == DigitValue(s[0]) && b % 16 == DigitValue(s[1]);
      LowerDigitRoundTrip(s[0]);
      LowerDigitRoundTrip(s[1]);
      assert IsLowerHex(s[2..]) by {
        assert forall i :: 0 <= i < |s[2..]| ==> s[2..][i] == s[i + 2];
      }
      LowerHexRoundTrip(s[2..]);
      var bs := HexToBytes(s);
      assert bs[0] == b && bs[1..] == HexToBytes(s[2..]);
      assert ToHex(bs) == [s[0], s[1]] + s[2..];
    }
  }

  /** Two byte strings have the same hex text only when they are equal. */
  lemma ToHexInjective(a: seq<byte>, b: seq<byte>)
    ensures ToHex(a) == ToHex(b) <==> a == b
  {
    HexRoundTrip(a);
    HexRoundTrip(b);
  }
}
