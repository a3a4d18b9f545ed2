/**
 * The digest's rendering in `hashJSON`:
 * `hashArray.map(b => b.toString(16).padStart(2, '0')).join('')`.
 */
module Hex {
  import opened Bytes
  import opened Wrappers

  const Digits: string := "0123456789abcdef"

  function HexDigit(n: nat): char
    requires n < 16
  {
    Digits[n]
  }

  predicate IsLowerHex(s: string) {
    forall i :: 0 <= i < |s| ==> s[i] in Digits
  }

  /** `n.toString(16)`: base 16, lower case, no leading zeros. */
  function ToString16(n: nat): string
    decreases n
  {
    if n < 16 then [HexDigit(n)] else ToString16(n / 16) + [HexDigit(n % 16)]
  }

  /** `s.padStart(width, c)` */
  function PadStart(s: string, width: nat, c: char): string {
    if |s| >= width then s else seq(width - |s|, _ => c) + s
  }

  /** One byte as exactly two lower-case hex digits, the high one first, zero-padded. */
  function ByteToHex(b: byte): (r: string)
    ensures r == [HexDigit(b / 16), HexDigit(b % 16)]
  {
    assert b < 16 ==> ToString16(b) == [HexDigit(b)];
    assert b >= 16 ==> ToString16(b) == ToString16(b / 16) + [HexDigit(b % 16)];
    PadStart(ToString16(b), 2, '0')
  }

  /** The bytes rendered in order, two digits each, with no separator. */
  function Encode(bs: seq<byte>): (r: string)
    ensures |r| == 2 * |bs|
  {
    if bs == [] then "" else ByteToHex(bs[0]) + Encode(bs[1..])
  }

  /** The first byte's two digits, then the rendering of the rest. */
  lemma EncodeCons(bs: seq<byte>)
    requires bs != []
    ensures Encode(bs)[0] == HexDigit(bs[0] / 16) && Encode(bs)[1] == HexDigit(bs[0] % 16)
    ensures Encode(bs)[2..] == Encode(bs[1..])
  {
    assert Encode(bs) == ByteToHex(bs[0]) + Encode(bs[1..]);
  }

  /** Byte `i` becomes digits `2i` (high nibble) and `2i + 1` (low nibble). */
  lemma {:induction false} EncodeDigitAt(bs: seq<byte>, i: nat)
    requires i < |bs|
    ensures Encode(bs)[2 * i] == HexDigit(bs[i] / 16) && Encode(bs)[2 * i + 1] == HexDigit(bs[i] % 16)
    decreases i
  {
    var h, t := ByteToHex(bs[0]), Encode(bs[1..]);
    assert Encode(bs) == h + t;
    if i > 0 {
      var j := i - 1;
      EncodeDigitAt(bs[1..], j);
      assert bs[1..][j] == bs[i];
      assert Encode(bs)[2 * j + 2] == t[2 * j] && Encode(bs)[2 * j + 3] == t[2 * j + 1];
    }
  }

  /** Every byte becomes its two digits at its own place. */
  lemma EncodeDigits(bs: seq<byte>)
    ensures forall i :: 0 <= i < |bs| ==>
      Encode(bs)[2 * i] == HexDigit(bs[i] / 16) && Encode(bs)[2 * i + 1] == HexDigit(bs[i] % 16)
  {
    forall i | 0 <= i < |bs|
      ensures Encode(bs)[2 * i] == HexDigit(bs[i] / 16) && Encode(bs)[2 * i + 1] == HexDigit(bs[i] % 16)
    {
      EncodeDigitAt(bs, i);
    }
  }

  /** Only lower-case hex digits occur in a rendering. */
  lemma {:induction false} EncodeIsLowerHex(bs: seq<byte>)
    ensures IsLowerHex(Encode(bs))
  {
    if bs != [] {
      var r, hi, lo := Encode(bs), bs[0] / 16, bs[0] % 16;
      EncodeCons(bs);
      EncodeIsLowerHex(bs[1..]);
      assert r[0] == Digits[hi] && r[1] == Digits[lo];
      forall k | 2 <= k < |r|
        ensures r[k] in Digits
      {
        assert r[k] == r[2..][k - 2];
      }
    }
  }

  /** The value of a lower-case hex digit. */
  function DigitValue(c: char): Option<nat> {
    if '0' <= c <= '9' then Some(c as int - '0' as int)
    else if 'a' <= c <= 'f' then Some(c as int - 'a' as int + 10)
    else None
  }

  /** Reads a hex rendering back into bytes; fails on odd length or a non-digit. */
  function Decode(s: string): Option<seq<byte>>
    decreases |s|
  {
    if s == [] then Some([])
    else if |s| == 1 then None
    else
      match (DigitValue(s[0]), DigitValue(s[1]), Decode(s[2..]))
      case (Some(hi), Some(lo), Some(rest)) =>
        if hi < 16 && lo < 16 then Some([hi * 16 + lo] + rest) else None
      case _ => None
  }

  lemma DigitValueOf(n: nat)
    requires n < 16
    ensures DigitValue(HexDigit(n)) == Some(n)
  {
  }

  /** Two digits in front of a rendering that reads back add one byte in front. */
  lemma DecodePair(hi: nat, lo: nat, t: string, rest: seq<byte>)
    requires hi < 16 && lo < 16
    requires Decode(t) == Some(rest)
    ensures Decode([HexDigit(hi), HexDigit(lo)] + t) == Some([(hi * 16 + lo) as byte] + rest)
  {
    var s := [HexDigit(hi), HexDigit(lo)] + t;
    assert s[0] == HexDigit(hi) && s[1] == HexDigit(lo) && s[2..] == t;
    DigitValueOf(hi);
    DigitValueOf(lo);
  }

  /** Reading back a rendering gives the bytes that were rendered. */
  lemma {:induction false} DecodeEncode(bs: seq<byte>)
    ensures Decode(Encode(bs)) == Some(bs)
  {
    if bs != [] {
      var b := bs[0];
      var hi, lo := b as nat / 16, b as nat % 16;
      assert Encode(bs) == [HexDigit(hi), HexDigit(lo)] + Encode(bs[1..]);
      DecodeEncode(bs[1..]);
      DecodePair(hi, lo, Encode(bs[1..]), bs[1..]);
      assert (hi * 16 + lo) as byte == b;
      assert [b] + bs[1..] == bs;
    }
  }

  /** Distinct byte strings render as distinct hex strings. */
  lemma EncodeInjective(a: seq<byte>, b: seq<byte>)
    requires Encode(a) == Encode(b)
    ensures a == b
  {
    DecodeEncode(a);
    DecodeEncode(b);
  }
}
