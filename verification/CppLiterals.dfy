/** What a C++ compiler reads in string literals (sections 5.13.3 and 5.13.5 of C++20):
    simple, octal and hexadecimal escapes, and the joining of adjacent literals. */
module CppLiterals {
  import opened Utf8

  datatype Option<+T> = None | Some(value: T)

  const NEWLINE: char := '\n'

  type Bytes = Option<seq<byte>>

  function Both(a: Bytes, b: Bytes): Bytes {
    if a.None? || b.None? then None else Some(a.value + b.value)
  }

  lemma BothAssociates(a: Bytes, b: Bytes, c: Bytes)
    ensures Both(Both(a, b), c) == Both(a, Both(b, c))
  {
    if a.Some? && b.Some? && c.Some? {
      assert (a.value + b.value) + c.value == a.value + (b.value + c.value);
    }
  }

  lemma BothUnit(a: Bytes)
    ensures Both(Some([]), a) == a && Both(a, Some([])) == a
  {
    if a.Some? {
      assert [] + a.value == a.value && a.value + [] == a.value;
    }
  }

  predicate IsHex(c: char) {
    '0' <= c <= '9' || 'a' <= c <= 'f' || 'A' <= c <= 'F'
  }

  function HexValue(c: char): (r: nat)
    requires IsHex(c)
    ensures r < 16
  {
    if c <= '9' then c as int - '0' as int
    else if c <= 'F' then c as int - 'A' as int + 10
    else c as int - 'a' as int + 10
  }

  predicate IsOctal(c: char) {
    '0' <= c <= '7'
  }

  function OctalValue(c: char): (r: nat)
    requires IsOctal(c)
    ensures r < 8
  {
    c as int - '0' as int
  }

  /** Length of the longest run of hexadecimal digits at the head. */
  function HexRun(s: string): (n: nat)
    ensures n <= |s|
    ensures forall i :: 0 <= i < n ==> IsHex(s[i])
    ensures n < |s| ==> !IsHex(s[n])
  {
    if s == "" || !IsHex(s[0]) then 0 else 1 + HexRun(s[1..])
  }

  function HexNumber(s: string): nat
    requires forall i :: 0 <= i < |s| ==> IsHex(s[i])
  {
    if s == "" then 0 else 16 * HexNumber(s[..|s| - 1]) + HexValue(s[|s| - 1])
  }

  /** At most three octal digits. */
  function OctalRun(s: string): (n: nat)
    ensures n <= |s| && n <= 3
    ensures forall i :: 0 <= i < n ==> IsOctal(s[i])
  {
    if s == "" || !IsOctal(s[0]) then 0
    else if |s| == 1 || !IsOctal(s[1]) then 1
    else if |s| == 2 || !IsOctal(s[2]) then 2
    else 3
  }

  function OctalNumber(s: string): nat
    requires forall i :: 0 <= i < |s| ==> IsOctal(s[i])
  {
    if s == "" then 0 else 8 * OctalNumber(s[..|s| - 1]) + OctalValue(s[|s| - 1])
  }

  /** The simple escapes. */
  function SimpleEscape(c: char): Option<byte> {
    if c == 'n' then Some(10) else if c == 't' then Some(9) else if c == 'r' then Some(13)
    else if c == '"' then Some(34) else if c == '\\' then Some(92) else if c == '\'' then Some(39)
    else if c == '?' then Some(63) else if c == 'a' then Some(7) else if c == 'b' then Some(8)
    else if c == 'f' then Some(12) else if c == 'v' then Some(11)
    else None
  }

  function Single(v: nat): Bytes {
    if v < 256 then Some([v]) else None
  }

  /** The bytes of what stands between the quotes; None is a literal the compiler refuses:
      a stray quote or newline, or a bad escape. */
  function Decode(s: string): Bytes
    decreases |s|
  {
    if s == "" then Some([])
    else if s[0] == '"' || s[0] == NEWLINE then None
    else if s[0] != '\\' then Both(Some(EncodeChar(s[0])), Decode(s[1..]))
    else if |s| == 1 then None
    else if SimpleEscape(s[1]).Some? then Both(Some([SimpleEscape(s[1]).value]), Decode(s[2..]))
    else if s[1] == 'x' then
      var n := HexRun(s[2..]);
      if n == 0 then None else Both(Single(HexNumber(s[2..2 + n])), Decode(s[2 + n..]))
    else if IsOctal(s[1]) then
      var n := OctalRun(s[1..]);
      Both(Single(OctalNumber(s[1..1 + n])), Decode(s[1 + n..]))
    else None
  }

  /** Adjacent literals are joined after their escapes are read. */
  function DecodeAll(lines: seq<string>): Bytes {
    if lines == [] then Some([]) else Both(Decode(lines[0]), DecodeAll(lines[1..]))
  }

  lemma {:induction false} DecodeAllConcat(a: seq<string>, b: seq<string>)
    ensures DecodeAll(a + b) == Both(DecodeAll(a), DecodeAll(b))
  {
    if a == [] {
      assert a + b == b;
      BothUnit(DecodeAll(b));
    } else {
      DecodeAllConcat(a[1..], b);
      assert (a + b)[1..] == a[1..] + b;
      BothAssociates(Decode(a[0]), DecodeAll(a[1..]), DecodeAll(b));
    }
  }

  lemma DecodeOne(line: string)
    ensures DecodeAll([line]) == Decode(line)
  {
    assert [line][1..] == [];
    BothUnit(Decode(line));
  }

  // ---------------------------------------------------------------------------------------
  // Plain tokens.
  // ---------------------------------------------------------------------------------------

  predicate IsPlain(c: char) {
    c != '"' && c != NEWLINE && c != '\\'
  }

  predicate IsPair(s: string) {
    |s| >= 2 && s[0] == '\\' && SimpleEscape(s[1]).Some?
  }

  /** Whole plain tokens: characters that stand for themselves and two-character escapes. */
  predicate Open(s: string)
    decreases |s|
  {
    s == "" || (IsPair(s) && Open(s[2..])) || (IsPlain(s[0]) && Open(s[1..]))
  }

  /** What follows whole plain tokens is read on its own. */
  lemma {:induction false} DecodeAfterOpen(s: string, t: string)
    requires Open(s)
    ensures Decode(s).Some? && Decode(s + t) == Both(Decode(s), Decode(t))
    decreases |s|
  {
    if s == "" {
      assert s + t == t;
      BothUnit(Decode(t));
    } else if s[0] == '\\' {
      assert (s + t)[2..] == s[2..] + t;
      DecodeAfterOpen(s[2..], t);
      BothAssociates(Some([SimpleEscape(s[1]).value]), Decode(s[2..]), Decode(t));
    } else {
      assert (s + t)[1..] == s[1..] + t;
      DecodeAfterOpen(s[1..], t);
      BothAssociates(Some(EncodeChar(s[0])), Decode(s[1..]), Decode(t));
    }
  }

  lemma {:induction false} OpenConcat(s: string, t: string)
    requires Open(s) && Open(t)
    ensures Open(s + t)
    decreases |s|
  {
    if s == "" {
      assert s + t == t;
    } else if s[0] == '\\' {
      assert (s + t)[2..] == s[2..] + t;
      OpenConcat(s[2..], t);
    } else {
      assert (s + t)[1..] == s[1..] + t;
      OpenConcat(s[1..], t);
    }
  }

  lemma PlainDecodes(c: char)
    requires IsPlain(c)
    ensures Open([c]) && Decode([c]) == Some(EncodeChar(c))
  {
    assert [c][1..] == "";
    BothUnit(Some(EncodeChar(c)));
  }

  lemma PairDecodes(c: char)
    requires SimpleEscape(c).Some?
    ensures Open(['\\', c]) && Decode(['\\', c]) == Some([SimpleEscape(c).value])
  {
    assert ['\\', c][2..] == "";
    BothUnit(Some([SimpleEscape(c).value]));
  }

  lemma HexPairDecodes(a: char, b: char)
    requires IsHex(a) && IsHex(b)
    ensures Decode(['\\', 'x', a, b]) == Some([16 * HexValue(a) + HexValue(b)])
  {
    var s := ['\\', 'x', a, b];
    assert s[2..] == [a, b] && [a, b][1..] == [b] && [b][1..] == "";
    assert HexRun([b]) == 1 + HexRun("");
    assert HexRun([a, b]) == 2;
    assert [a, b][..1] == [a] && [a][..0] == "";
    assert HexNumber([a]) == HexValue(a);
    assert s[2..2 + 2] == [a, b] && s[2 + 2..] == "";
    BothUnit(Single(HexNumber([a, b])));
  }

  lemma NulDecodes()
    ensures Decode("\\0") == Some([0])
  {
    var s := "\\0";
    assert s[1..] == "0" && s[2..] == "";
    assert OctalRun("0") == 1;
    assert s[1..1 + 1] == "0" && "0"[..0] == "";
    assert OctalNumber("") == 0 && OctalNumber("0") == 0;
    BothUnit(Some([0]));
  }
}
