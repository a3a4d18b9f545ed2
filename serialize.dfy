/**
 * `JSON.stringify(value)` with no indentation: the text `hashJSON` encodes
 * and hashes. Numbers are written as their token; strings are quoted with
 * the escapes of the ECMAScript `QuoteJSONString` operation.
 */
module Serialize {
  import opened JsonValue
  import opened Wrappers
  import Hex

  /** One character inside a JSON string literal. */
  function EscapeChar(c: char): string {
    if c == '"' then "\\\""
    else if c == '\\' then "\\\\"
    else if c == '\U{0008}' then "\\b"
    else if c == '\t' then "\\t"
    else if c == '\n' then "\\n"
    else if c == '\U{000C}' then "\\f"
    else if c == '\r' then "\\r"
    else if c < ' ' then "\\u00" + [Hex.HexDigit(c as int / 16), Hex.HexDigit(c as int % 16)]
    else [c]
  }

  function Escape(s: string): string {
    if s == [] then "" else EscapeChar(s[0]) + Escape(s[1..])
  }

  /** A string as a JSON string literal. */
  function Quote(s: string): string {
    "\"" + Escape(s) + "\""
  }

  /** `parts.join(',')` */
  function Join(parts: seq<string>): string {
    if parts == [] then ""
    else if |parts| == 1 then parts[0]
    else parts[0] + "," + Join(parts[1..])
  }

  function Serialize(v: Json): string
    decreases v
  {
    match v
    case Null => "null"
    case Bool(b) => if b then "true" else "false"
    case Num(t) => t
    case Str(s) => Quote(s)
    case Arr(es) =>
      "[" + Join(seq(|es|, i requires 0 <= i < |es| => Serialize(es[i]))) + "]"
    case Obj(fs) =>
      "{" + Join(seq(|fs|, i requires 0 <= i < |fs| => Quote(fs[i].0) + ":" + Serialize(fs[i].1))) + "}"
  }

  /** The character a two-character escape `\e` stands for. */
  function UnescapeShort(e: char): Option<char> {
    if e == '"' then Some('"')
    else if e == '\\' then Some('\\')
    else if e == '/' then Some('/')
    else if e == 'b' then Some('\U{0008}')
    else if e == 't' then Some('\t')
    else if e == 'n' then Some('\n')
    else if e == 'f' then Some('\U{000C}')
    else if e == 'r' then Some('\r')
    else None
  }

  /** The code point written by four hex digits, when it is a character. */
  function HexQuad(t: string): Option<char>
    requires |t| == 4
  {
    match (Hex.DigitValue(t[0]), Hex.DigitValue(t[1]), Hex.DigitValue(t[2]), Hex.DigitValue(t[3]))
    case (Some(a), Some(b), Some(c), Some(d)) =>
      var n := ((a * 16 + b) * 16 + c) * 16 + d;
      if n < 0xD800 || (0xE000 <= n < 0x11_0000) then Some(n as char) else None
    case _ => None
  }

  /**
   * Reads the body of a JSON string literal, the opening quote already
   * consumed: the characters it stands for, and the text after the closing quote.
   */
  function ReadString(t: string): Option<(string, string)>
    decreases |t|
  {
    if t == [] then None
    else if t[0] == '"' then Some(("", t[1..]))
    else if t[0] == '\\' then
      if |t| >= 6 && t[1] == 'u' then
        match HexQuad(t[2..6])
        case None => None
        case Some(c) => Prepend(c, ReadString(t[6..]))
      else if |t| >= 2 then
        match UnescapeShort(t[1])
        case None => None
        case Some(c) => Prepend(c, ReadString(t[2..]))
      else None
    else Prepend(t[0], ReadString(t[1..]))
  }

  function Prepend(c: char, r: Option<(string, string)>): Option<(string, string)> {
    match r
    case None => None
    case Some((s, rest)) => Some(([c] + s, rest))
  }

  lemma ReadEscapeChar(c: char, more: string)
    ensures ReadString(EscapeChar(c) + more) == Prepend(c, ReadString(more))
  {
    var t := EscapeChar(c) + more;
    if c < ' ' && c != '\U{0008}' && c != '\t' && c != '\n' && c != '\U{000C}' && c != '\r' {
      var hi, lo := c as int / 16, c as int % 16;
      assert t[2..6] == ['0', '0', Hex.HexDigit(hi), Hex.HexDigit(lo)];
      Hex.DigitValueOf(hi);
      Hex.DigitValueOf(lo);
      assert t[6..] == more;
    } else if c == '"' || c == '\\' || c == '\U{0008}' || c == '\t' || c == '\n' || c == '\U{000C}' || c == '\r' {
      assert t[2..] == more;
    } else {
      assert t[1..] == more;
    }
  }

  /**
   * Quoting can be undone: reading an escaped string followed by the closing
   * quote gives back the string and stops right after that quote.
   */
  lemma {:induction false} ReadEscaped(s: string, rest: string)
    ensures ReadString(Escape(s) + "\"" + rest) == Some((s, rest))
  {
    if s == [] {
      assert Escape(s) + "\"" + rest == "\"" + rest;
    } else {
      assert Escape(s) + "\"" + rest == EscapeChar(s[0]) + (Escape(s[1..]) + "\"" + rest);
      ReadEscapeChar(s[0], Escape(s[1..]) + "\"" + rest);
      ReadEscaped(s[1..], rest);
      assert [s[0]] + s[1..] == s;
    }
  }

  /** Distinct strings have distinct literals, even with text following them. */
  lemma QuoteInjective(s: string, t: string, a: string, b: string)
    requires Quote(s) + a == Quote(t) + b
    ensures s == t && a == b
  {
    var x, y := Escape(s) + "\"" + a, Escape(t) + "\"" + b;
    assert Quote(s) + a == "\"" + x;
    assert Quote(t) + b == "\"" + y;
    assert x == (Quote(s) + a)[1..];
    assert x == y;
    ReadEscaped(s, a);
    ReadEscaped(t, b);
  }

  /** The members of an object whose values are strings, each written `"key":"value"`. */
  function StringMembers(ks: seq<string>, vs: seq<string>): seq<string>
    requires |ks| == |vs|
  {
    seq(|ks|, i requires 0 <= i < |ks| => Quote(ks[i]) + ":" + Quote(vs[i]))
  }

  /** What follows the first part of a non-empty join. */
  function JoinTail(parts: seq<string>): string
    requires parts != []
  {
    if |parts| == 1 then "" else "," + Join(parts[1..])
  }

  lemma JoinFirst(parts: seq<string>)
    requires parts != []
    ensures Join(parts) == parts[0] + JoinTail(parts)
  {
  }

  lemma CancelPrefix(p: string, x: string, y: string)
    requires p + x == p + y
    ensures x == y
  {
    assert x == (p + x)[|p|..];
    assert y == (p + y)[|p|..];
  }

  /** One `"key":"value"` member followed by the rest determines its value and the rest. */
  lemma PeelStringMember(k: string, v: string, w: string, a: string, b: string)
    requires Quote(k) + ":" + Quote(v) + a == Quote(k) + ":" + Quote(w) + b
    ensures v == w && a == b
  {
    var pre := Quote(k) + ":";
    assert Quote(k) + ":" + Quote(v) + a == pre + (Quote(v) + a);
    assert Quote(k) + ":" + Quote(w) + b == pre + (Quote(w) + b);
    CancelPrefix(pre, Quote(v) + a, Quote(w) + b);
    QuoteInjective(v, w, a, b);
  }

  /** The first member text, and the member texts after it. */
  lemma StringMembersCons(ks: seq<string>, vs: seq<string>)
    requires |ks| == |vs| > 0
    ensures StringMembers(ks, vs)[0] == Quote(ks[0]) + ":" + Quote(vs[0])
    ensures StringMembers(ks, vs)[1..] == StringMembers(ks[1..], vs[1..])
  {
  }

  /** Equal joins of member texts start with the same value and go on alike. */
  lemma MembersHead(ks: seq<string>, vs: seq<string>, ws: seq<string>)
    requires |ks| == |vs| == |ws| > 0
    requires Join(StringMembers(ks, vs)) == Join(StringMembers(ks, ws))
    ensures vs[0] == ws[0]
    ensures JoinTail(StringMembers(ks, vs)) == JoinTail(StringMembers(ks, ws))
  {
    var a, b := StringMembers(ks, vs), StringMembers(ks, ws);
    StringMembersCons(ks, vs);
    StringMembersCons(ks, ws);
    JoinFirst(a);
    JoinFirst(b);
    PeelStringMember(ks[0], vs[0], ws[0], JoinTail(a), JoinTail(b));
  }

  /** What follows the first member, with the comma removed. */
  lemma MembersRest(ks: seq<string>, vs: seq<string>, ws: seq<string>)
    requires |ks| == |vs| == |ws| > 1
    requires JoinTail(StringMembers(ks, vs)) == JoinTail(StringMembers(ks, ws))
    ensures Join(StringMembers(ks[1..], vs[1..])) == Join(StringMembers(ks[1..], ws[1..]))
  {
    StringMembersCons(ks, vs);
    StringMembersCons(ks, ws);
    CancelPrefix(",", Join(StringMembers(ks[1..], vs[1..])), Join(StringMembers(ks[1..], ws[1..])));
  }

  /** The text of an object with string values and given keys determines the values. */
  lemma {:induction false} StringMembersInjective(ks: seq<string>, vs: seq<string>, ws: seq<string>)
    requires |ks| == |vs| == |ws|
    requires Join(StringMembers(ks, vs)) == Join(StringMembers(ks, ws))
    ensures vs == ws
  {
    if |ks| > 0 {
      MembersHead(ks, vs, ws);
      if |ks| > 1 {
        MembersRest(ks, vs, ws);
        StringMembersInjective(ks[1..], vs[1..], ws[1..]);
        forall i | 1 <= i < |vs|
          ensures vs[i] == ws[i]
        {
          assert vs[i] == vs[1..][i - 1] && ws[i] == ws[1..][i - 1];
        }
      }
    }
  }

  lemma SerializeStringObject(ks: seq<string>, vs: seq<string>)
    requires |ks| == |vs|
    ensures Serialize(Obj(StringPairs(ks, vs))) == "{" + Join(StringMembers(ks, vs)) + "}"
  {
    var fs := StringPairs(ks, vs);
    assert seq(|fs|, i requires 0 <= i < |fs| => Quote(fs[i].0) + ":" + Serialize(fs[i].1)) == StringMembers(ks, vs);
  }

  /** Two objects with the same keys in the same order and string values serialise alike only if the values agree. */
  lemma StringObjectInjective(ks: seq<string>, vs: seq<string>, ws: seq<string>)
    requires |ks| == |vs| == |ws|
    requires Serialize(Obj(StringPairs(ks, vs))) == Serialize(Obj(StringPairs(ks, ws)))
    ensures vs == ws
  {
    SerializeStringObject(ks, vs);
    SerializeStringObject(ks, ws);
    var j1, j2 := Join(StringMembers(ks, vs)), Join(StringMembers(ks, ws));
    assert "{" + j1 + "}" == "{" + (j1 + "}");
    assert "{" + j2 + "}" == "{" + (j2 + "}");
    CancelPrefix("{", j1 + "}", j2 + "}");
    assert j1 == (j1 + "}")[..|j1|];
    assert j2 == (j2 + "}")[..|j2|];
    StringMembersInjective(ks, vs, ws);
  }
}
