/** UTF-8 (section 3 of RFC 3629): the bytes of a text, and reading them back. */
module Utf8 {

  type byte = x: int | 0 <= x < 256

  /** The bytes of one character; a Dafny char is a Unicode scalar value. */
  function EncodeChar(c: char): (r: seq<byte>)
    ensures 1 <= |r| <= 4
    ensures (c as int) < 0x80 ==> r == [c as int]
    ensures (c as int) >= 0x80 ==> |r| >= 2 && forall i :: 0 <= i < |r| ==> r[i] >= 0x80
  {
    var v := c as int;
    if v < 0x80 then [v]
    else if v < 0x800 then [0xC0 + v / 64, 0x80 + v % 64]
    else if v < 0x10000 then [0xE0 + v / 4096, 0x80 + v / 64 % 64, 0x80 + v % 64]
    else [0xF0 + v / 262144, 0x80 + v / 4096 % 64, 0x80 + v / 64 % 64, 0x80 + v % 64]
  }

  function Encode(s: string): seq<byte> {
    if s == "" then [] else EncodeChar(s[0]) + Encode(s[1..])
  }

  /** How many bytes a character takes, told by its first byte. */
  function LeadLength(lead: byte): nat {
    if lead < 0x80 then 1 else if lead < 0xE0 then 2 else if lead < 0xF0 then 3 else 4
  }

  /** The scalar value at the head of a byte sequence that is long enough. */
  function HeadValue(b: seq<byte>): int
    requires b != [] && |b| >= LeadLength(b[0])
  {
    match LeadLength(b[0])
    case 1 => b[0]
    case 2 => (b[0] as int - 0xC0) * 64 + (b[1] as int - 0x80)
    case 3 => (b[0] as int - 0xE0) * 4096 + (b[1] as int - 0x80) * 64 + (b[2] as int - 0x80)
    case _ => (b[0] as int - 0xF0) * 262144 + (b[1] as int - 0x80) * 4096 + (b[2] as int - 0x80) * 64 + (b[3] as int - 0x80)
  }

  lemma HeadOfEncoded(c: char, rest: seq<byte>)
    ensures var b := EncodeChar(c) + rest;
      b[0] == EncodeChar(c)[0] && LeadLength(b[0]) == |EncodeChar(c)| && HeadValue(b) == c as int
  {
    var v := c as int;
    assert v < 0x110000;
    if v >= 0x10000 {
      assert v / 4096 == v / 262144 * 64 + v / 4096 % 64;
      assert v / 64 == v / 4096 * 64 + v / 64 % 64;
    } else if v >= 0x800 {
      assert v / 64 == v / 4096 * 64 + v / 64 % 64;
    }
  }

  /** No two texts have the same bytes. */
  lemma {:induction false} EncodeIsInjective(s: string, t: string)
    requires Encode(s) == Encode(t)
    ensures s == t
  {
    if s != "" && t != "" {
      HeadOfEncoded(s[0], Encode(s[1..]));
      HeadOfEncoded(t[0], Encode(t[1..]));
      var b := Encode(s);
      assert b[|EncodeChar(s[0])|..] == Encode(s[1..]);
      assert b[|EncodeChar(t[0])|..] == Encode(t[1..]);
      EncodeIsInjective(s[1..], t[1..]);
      assert s == [s[0]] + s[1..] && t == [t[0]] + t[1..];
    }
  }

  lemma {:induction false} EncodeConcat(s: string, t: string)
    ensures Encode(s + t) == Encode(s) + Encode(t)
  {
    hide EncodeChar;
    if s == "" {
      assert s + t == t;
      assert [] + Encode(t) == Encode(t);
    } else {
      EncodeConcat(s[1..], t);
      assert (s + t)[1..] == s[1..] + t;
      assert EncodeChar(s[0]) + (Encode(s[1..]) + Encode(t)) == (EncodeChar(s[0]) + Encode(s[1..])) + Encode(t);
    }
  }

  /** A text without U+0000 has no zero byte. */
  lemma {:induction false} NoNulByte(s: string)
    requires '\0' !in s
    ensures 0 !in Encode(s)
  {
    if s != "" {
      NoNulByte(s[1..]);
      assert s[0] != '\0';
    }
  }
}
