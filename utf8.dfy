/**
 * `new TextEncoder().encode(text)`: the UTF-8 encoding of the text's code
 * points, with the decoder that undoes it.
 */
module Utf8 {
  import opened Bytes
  import opened Wrappers

  /** One code point as one to four bytes, six payload bits per continuation byte. */
  function EncodeChar(c: char): (r: seq<byte>)
    ensures 1 <= |r| <= 4
    ensures (c as int < 0x80) <==> |r| == 1
  {
    var n := c as int;
    if n < 0x80 then [n]
    else if n < 0x800 then [0xC0 + n / 64, 0x80 + n % 64]
    else if n < 0x1_0000 then [0xE0 + n / 64 / 64, 0x80 + n / 64 % 64, 0x80 + n % 64]
    else [0xF0 + n / 64 / 64 / 64, 0x80 + n / 64 / 64 % 64, 0x80 + n / 64 % 64, 0x80 + n % 64]
  }

  function Encode(s: string): (r: seq<byte>)
    ensures |s| <= |r| <= 4 * |s|
  {
    if s == [] then [] else EncodeChar(s[0]) + Encode(s[1..])
  }

  predicate IsContinuation(b: byte) {
    0x80 <= b < 0xC0
  }

  /** The Unicode scalar values: the code points a Dafny `char` can hold. */
  predicate IsScalar(n: int) {
    (0 <= n < 0xD800) || (0xE000 <= n < 0x11_0000)
  }

  /** The first code point of `bs` and the number of bytes it takes, if `bs` starts with one. */
  function DecodeFirst(bs: seq<byte>): (r: Option<(char, nat)>)
    requires bs != []
    ensures r.Some? ==> 1 <= r.value.1 <= |bs|
  {
    var b0: int := bs[0];
    if b0 < 0x80 then Some((b0 as char, 1))
    else if 0xC0 <= b0 < 0xE0 && |bs| >= 2 && IsContinuation(bs[1]) then
      var n: int := (b0 - 0xC0) * 64 + (bs[1] - 0x80);
      if IsScalar(n) then Some((n as char, 2)) else None
    else if 0xE0 <= b0 < 0xF0 && |bs| >= 3 && IsContinuation(bs[1]) && IsContinuation(bs[2]) then
      var n: int := ((b0 - 0xE0) * 64 + (bs[1] - 0x80)) * 64 + (bs[2] - 0x80);
      if IsScalar(n) then Some((n as char, 3)) else None
    else if 0xF0 <= b0 < 0xF8 && |bs| >= 4 && IsContinuation(bs[1]) && IsContinuation(bs[2]) && IsContinuation(bs[3]) then
      var n: int := (((b0 - 0xF0) * 64 + (bs[1] - 0x80)) * 64 + (bs[2] - 0x80)) * 64 + (bs[3] - 0x80);
      if IsScalar(n) then Some((n as char, 4)) else None
    else None
  }

  /**
   * The decoder that inverts `Encode`, failing where no code point can be
   * read. Unlike a fatal `TextDecoder` it accepts overlong forms.
   */
  function Decode(bs: seq<byte>): Option<string>
    decreases |bs|
  {
    if bs == [] then Some([])
    else match DecodeFirst(bs)
      case None => None
      case Some((c, k)) =>
        match Decode(bs[k..])
        case None => None
        case Some(rest) => Some([c] + rest)
  }

  lemma DecodeFirstEncodeChar(c: char, rest: seq<byte>)
    ensures DecodeFirst(EncodeChar(c) + rest) == Some((c, |EncodeChar(c)|))
  {
    var n := c as int;
    var bs := EncodeChar(c) + rest;
    if n < 0x80 {
    } else if n < 0x800 {
      assert bs[0] == 0xC0 + n / 64 && bs[1] == 0x80 + n % 64;
    } else if n < 0x1_0000 {
      assert bs[0] == 0xE0 + n / 64 / 64 && bs[1] == 0x80 + n / 64 % 64 && bs[2] == 0x80 + n % 64;
    } else {
      assert bs[0] == 0xF0 + n / 64 / 64 / 64 && bs[1] == 0x80 + n / 64 / 64 % 64;
      assert bs[2] == 0x80 + n / 64 % 64 && bs[3] == 0x80 + n % 64;
    }
  }

  /** Decoding an encoding gives back the text. */
  lemma {:induction false} DecodeEncode(s: string)
    ensures Decode(Encode(s)) == Some(s)
  {
    if s != [] {
      var e := EncodeChar(s[0]);
      var bs := Encode(s);
      DecodeFirstEncodeChar(s[0], Encode(s[1..]));
      assert bs[|e|..] == Encode(s[1..]);
      DecodeEncode(s[1..]);
      assert [s[0]] + s[1..] == s;
    }
  }

  /** Distinct texts have distinct encodings. */
  lemma EncodeInjective(s: string, t: string)
    requires Encode(s) == Encode(t)
    ensures s == t
  {
    DecodeEncode(s);
    DecodeEncode(t);
  }

  /** ASCII text encodes one byte per character, the byte being the character's code. */
  lemma {:induction false} AsciiOneBytePerChar(s: string)
    requires forall i :: 0 <= i < |s| ==> s[i] as int < 0x80
    ensures |Encode(s)| == |s|
    ensures forall i :: 0 <= i < |s| ==> Encode(s)[i] == s[i] as int
  {
    if s != [] {
      AsciiOneBytePerChar(s[1..]);
    }
  }
}
