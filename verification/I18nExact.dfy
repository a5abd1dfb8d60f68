/** Printing any text at all: no cut repairs what a backslash has changed (scripts/gen_i18n.py,
    _append_string_data_entry), so the printed lines are right exactly under both conditions. */
module I18nExact {
  import opened Utf8
  import opened CppLiterals
  import opened I18nEscape
  import opened I18nWrap

  // ---------------------------------------------------------------------------------------
  // What the lines of one segment can be read as, wherever they are cut.
  // ---------------------------------------------------------------------------------------

  predicate IsHexTail(s: string) {
    |s| == 4 && s[0] == '\\' && s[1] == 'x'
  }

  /** What a segment may end in, after whole plain tokens. */
  predicate IsTail(s: string) {
    s == "" || s == "\\0" || IsHexTail(s)
  }

  /** A hexadecimal escape is read whole, or as one digit and a character. */
  predicate HexReads(a: char, b: char, e: seq<byte>) {
    IsHex(a) && ((IsHex(b) && e == [16 * HexValue(a) + HexValue(b)]) || (IsPlain(b) && e == [HexValue(a)] + EncodeChar(b)))
  }

  predicate TailReads(tail: string, e: seq<byte>)
    requires IsTail(tail)
  {
    if tail == "" then e == [] else if tail == "\\0" then e == [0] else HexReads(tail[2], tail[3], e)
  }

  lemma OneCharDecodes(b: char)
    ensures Decode([b]) == if IsPlain(b) then Some(EncodeChar(b)) else None
  {
    if IsPlain(b) {
      PlainDecodes(b);
    }
  }

  lemma OneDigitDecodes(a: char)
    ensures Decode(['\\', 'x', a]) == if IsHex(a) then Some([HexValue(a)]) else None
  {
    var s := ['\\', 'x', a];
    assert s[2..] == [a] && [a][1..] == "";
    if IsHex(a) {
      BrokenEscapes(a);
    }
  }

  lemma HexTailDecodes(a: char, b: char)
    ensures var d := Decode(['\\', 'x', a, b]); d.Some? ==> HexReads(a, b, d.value)
  {
    var s := ['\\', 'x', a, b];
    assert s[2..] == [a, b] && [a, b][1..] == [b] && [b][1..] == "";
    OneCharDecodes(b);
    if IsHex(a) && IsHex(b) {
      HexPairDecodes(a, b);
    } else if IsHex(a) {
      assert HexRun([b]) == 0 && HexRun([a, b]) == 1;
      assert s[2..2 + 1] == [a] && s[2 + 1..] == [b];
      assert [a][..0] == "" && HexNumber([a]) == HexValue(a);
    }
  }

  lemma TailDecodes(tail: string)
    requires IsTail(tail)
    ensures Decode(tail).Some? ==> TailReads(tail, Decode(tail).value)
  {
    if tail == "\\0" {
      NulDecodes();
    } else if tail != "" {
      assert tail == ['\\', 'x', tail[2], tail[3]];
      HexTailDecodes(tail[2], tail[3]);
    }
  }

  /** A cut inside plain tokens falls between two of them, or leaves a backslash at the end. */
  lemma {:induction false} CutOpen(o: string, k: nat)
    requires Open(o) && k <= |o|
    ensures (Open(o[..k]) && Open(o[k..])) || Decode(o[..k]) == None
    decreases |o|
  {
    if k == 0 {
      assert o[..0] == "" && o[0..] == o;
    } else {
      var d := if o[0] == '\\' then 2 else 1;
      if k == 1 && d == 2 {
        assert o[..1] == "\\";
      } else {
        CutOpen(o[d..], k - d);
        SliceAfter(o, d, k);
        assert o[..k][0] == o[0];
      }
    }
  }

  lemma CutTailRefused(tail: string, k: nat)
    requires IsTail(tail) && 0 < k < |tail|
    ensures if k < 3 then Decode(tail[..k]) == None
      else IsHexTail(tail) && Decode(tail[..k]) == if IsHex(tail[2]) then Some([HexValue(tail[2])]) else None
  {
    BrokenEscapes('0');
    if k == 1 {
      assert tail[..1] == "\\";
    } else if k == 2 {
      assert tail[..2] == "\\x";
    } else {
      assert tail[..3] == ['\\', 'x', tail[2]];
      OneDigitDecodes(tail[2]);
    }
  }

  lemma RemainderCut(s: string)
    requires |s| > MAX_CONTENT_LEN
    ensures DecodeAll(Remainder(s)) == Both(Decode(s[..CutPoint(s)]), DecodeAll(Remainder(s[CutPoint(s)..])))
  {
    var r := Remainder(s);
    assert r[0] == s[..CutPoint(s)] && r[1..] == Remainder(s[CutPoint(s)..]);
  }

  lemma RemainderShort(s: string)
    requires |s| <= MAX_CONTENT_LEN
    ensures DecodeAll(Remainder(s)) == Decode(s)
  {
    DecodeOne(s);
  }

  lemma WholeReads(o: string, tail: string) returns (e: seq<byte>)
    requires Open(o) && IsTail(tail) && Decode(o + tail).Some?
    ensures Decode(o).Some? && Decode(o + tail).value == Decode(o).value + e && TailReads(tail, e)
  {
    DecodeAfterOpen(o, tail);
    TailDecodes(tail);
    e := Decode(tail).value;
  }

  /** For every segment and wherever it is cut: lines that are not refused read as the plain
      tokens and a reading of the tail. */
  lemma {:induction false} SegmentReads(o: string, tail: string, w: seq<byte>) returns (e: seq<byte>)
    requires Open(o) && IsTail(tail) && DecodeAll(Remainder(o + tail)) == Some(w)
    ensures Decode(o).Some? && w == Decode(o).value + e && TailReads(tail, e)
    decreases |o| + |tail|
  {
    hide Open, Remainder, Decode, DecodeAll, CutPoint, TailReads;
    var s := o + tail;
    if |s| <= MAX_CONTENT_LEN {
      RemainderShort(s);
      e := WholeReads(o, tail);
    } else {
      RemainderCut(s);
      var cut := CutPoint(s);
      if cut <= |o| {
        assert s[..cut] == o[..cut] && s[cut..] == o[cut..] + tail;
        CutOpen(o, cut);
        var rest := DecodeAll(Remainder(s[cut..])).value;
        e := SegmentReads(o[cut..], tail, rest);
        DecodeAfterOpen(o[..cut], o[cut..]);
        assert o[..cut] + o[cut..] == o;
        assert w == Decode(o[..cut]).value + (Decode(o[cut..]).value + e);
      } else {
        e := SegmentCutInTail(o, tail, cut, w);
      }
    }
  }

  lemma SegmentCutInTail(o: string, tail: string, cut: nat, w: seq<byte>) returns (e: seq<byte>)
    requires Open(o) && IsTail(tail) && |o| < cut <= |o + tail|
    requires Both(Decode((o + tail)[..cut]), DecodeAll(Remainder((o + tail)[cut..]))) == Some(w)
    ensures Decode(o).Some? && w == Decode(o).value + e && TailReads(tail, e)
  {
    hide Open, Decode, DecodeAll, Remainder;
    var s, k := o + tail, cut - |o|;
    assert s[..cut] == o + tail[..k] && s[cut..] == tail[k..];
    DecodeAfterOpen(o, tail[..k]);
    RemainderShort(tail[k..]);
    if k == |tail| {
      assert tail[..k] == tail && tail[k..] == "";
      NothingDecodes();
      e := WholeReads(o, tail);
      assert w == Decode(s).value + [];
    } else {
      CutTailRefused(tail, k);
      assert tail[k..] == [tail[3]];
      OneCharDecodes(tail[3]);
      e := [HexValue(tail[2])] + EncodeChar(tail[3]);
      assert w == (Decode(o).value + [HexValue(tail[2])]) + EncodeChar(tail[3]);
    }
  }

  lemma NothingDecodes()
    ensures Decode("") == Some([])
  {
  }

  // ---------------------------------------------------------------------------------------
  // What the lines of a whole entry can be read as.
  // ---------------------------------------------------------------------------------------

  /** The first byte of a character outside ASCII, read as one digit and a character. */
  function SplitChar(c: char): (r: seq<byte>)
    requires c as int >= 0x80
    ensures r != [] && 12 <= r[0] <= 15
  {
    var b := EncodeChar(c);
    LeadByte(c);
    [b[0] / 16, UpperHex(b[0] % 16) as int] + b[1..]
  }

  lemma LeadByte(c: char)
    requires c as int >= 0x80
    ensures 0xC0 <= EncodeChar(c)[0]
  {
  }

  /** d is one of the readings of the segments of s and the separator. */
  predicate ReadsAs(s: string, d: seq<byte>)
    decreases |s|
  {
    if s == "" then d == [0]
    else if s == "\\" then d == [92, 48]
    else if s[0] == '\\' then
      if Copied(s[1]) then d != [] && d[0] == SimpleEscape(s[1]).value && ReadsAs(s[2..], d[1..])
      else if s[1] == 'x' && |s| > 3 then
        exists n :: 0 <= n <= |d| && HexReads(s[2], s[3], d[..n]) && ReadsAs(s[4..], d[n..])
      else d != [] && d[0] == 92 && ReadsAs(s[1..], d[1..])
    else if s[0] as int < 128 then d != [] && d[0] == s[0] as int && ReadsAs(s[1..], d[1..])
    else
      var whole, split := EncodeChar(s[0]), SplitChar(s[0]);
      (whole <= d && ReadsAs(s[1..], d[|whole|..])) || (split <= d && ReadsAs(s[1..], d[|split|..]))
  }

  lemma {:induction false} FormatConcat(a: seq<string>, b: seq<string>)
    ensures Format(a + b) == Format(a) + Format(b)
  {
    if a == [] {
      assert a + b == b;
    } else {
      assert (a + b)[1..] == a[1..] + b;
      FormatConcat(a[1..], b);
    }
  }

  lemma FormatDecodes(first: string, rest: seq<string>)
    ensures DecodeAll(Format([first] + rest)) == Both(DecodeAll(Remainder(first)), DecodeAll(Format(rest)))
  {
    assert ([first] + rest)[1..] == rest;
    DecodeAllConcat(Wrap(first), Format(rest));
    if |first| <= MAX_CONTENT_LEN {
      DecodeOne(first);
      RemainderShort(first);
    }
  }

  lemma {:induction false} ShortSegments(bytes: seq<byte>, rest: seq<string>)
    ensures DecodeAll(Format(HexEscapes(bytes) + rest)) == Both(Some(bytes), DecodeAll(Format(rest)))
  {
    hide Format, DecodeAll, Decode, Remainder;
    if bytes == [] {
      assert HexEscapes(bytes) + rest == rest;
      BothUnit(DecodeAll(Format(rest)));
    } else {
      ShortSegments(bytes[1..], rest);
      assert HexEscapes(bytes) + rest == [HexEscape(bytes[0])] + (HexEscapes(bytes[1..]) + rest);
      FormatDecodes(HexEscape(bytes[0]), HexEscapes(bytes[1..]) + rest);
      HexEscapeDecodes(bytes[0]);
      RemainderShort(HexEscape(bytes[0]));
      BothAssociates(Some([bytes[0]]), Some(bytes[1..]), DecodeAll(Format(rest)));
      assert [bytes[0]] + bytes[1..] == bytes;
    }
  }

  /** The bytes of the lines for the rest of a text, with `current` in the segment under way. */
  function LinesRead(s: string, current: string): Bytes {
    DecodeAll(Format(WithNul(EscapeFrom(s, current))))
  }

  lemma LastReads(o: string, tail: string, D: seq<byte>) returns (e: seq<byte>)
    requires Open(o) && IsTail(tail) && DecodeAll(Format([o + tail])) == Some(D)
    ensures Decode(o).Some? && D == Decode(o).value + e && TailReads(tail, e)
  {
    hide Open, TailReads;
    FormatDecodes(o + tail, []);
    assert [o + tail] + [] == [o + tail];
    assert DecodeAll(Format([])) == Some([]);
    BothUnit(DecodeAll(Remainder(o + tail)));
    e := SegmentReads(o, tail, D);
  }

  lemma ClosedReads(current: string, tail: string, rest: seq<string>, D: seq<byte>) returns (e: seq<byte>, D': seq<byte>)
    requires Open(current) && IsTail(tail) && rest != []
    requires DecodeAll(Format(WithNul([current + tail] + rest))) == Some(D)
    ensures Decode(current).Some? && TailReads(tail, e)
    ensures DecodeAll(Format(WithNul(rest))) == Some(D') && D == Decode(current).value + (e + D')
  {
    hide Open, TailReads, WithNul, Decode, DecodeAll, Remainder, Format, IsTail;
    WithNulTail([current + tail], rest);
    FormatDecodes(current + tail, WithNul(rest));
    var w := DecodeAll(Remainder(current + tail)).value;
    D' := DecodeAll(Format(WithNul(rest))).value;
    e := SegmentReads(current, tail, w);
    assert (Decode(current).value + e) + D' == Decode(current).value + (e + D');
  }

  lemma HexesShape(bytes: seq<byte>)
    requires bytes != []
    ensures var hexes := HexEscapes(bytes);
      hexes[0] == HexEscape(bytes[0]) && IsTail(hexes[0]) && hexes[1..] == HexEscapes(bytes[1..])
  {
    assert IsHexTail(HexEscape(bytes[0]));
    hide HexEscape;
    assert HexEscapes(bytes)[1..] == HexEscapes(bytes[1..]);
  }

  lemma FirstThenRest(current: string, segments: seq<string>, rest: seq<string>)
    requires segments != []
    ensures IntoFirst(current, segments) + rest == [current + segments[0]] + (segments[1..] + rest)
  {
  }

  lemma LaterBytesRead(bytes: seq<byte>, rest: seq<string>, D: seq<byte>) returns (D': seq<byte>)
    requires rest != [] && DecodeAll(Format(WithNul(HexEscapes(bytes) + rest))) == Some(D)
    ensures DecodeAll(Format(WithNul(rest))) == Some(D') && D == bytes + D'
  {
    hide WithNul, DecodeAll, Format, HexEscapes;
    WithNulTail(HexEscapes(bytes), rest);
    ShortSegments(bytes, WithNul(rest));
    D' := DecodeAll(Format(WithNul(rest))).value;
  }

  lemma BytesRead(current: string, c: char, rest: seq<string>, D: seq<byte>) returns (e: seq<byte>, D': seq<byte>)
    requires Open(current) && c as int >= 0x80 && rest != []
    requires DecodeAll(Format(WithNul(IntoFirst(current, HexEscapes(EncodeChar(c))) + rest))) == Some(D)
    ensures Decode(current).Some? && (e == EncodeChar(c) || e == SplitChar(c))
    ensures DecodeAll(Format(WithNul(rest))) == Some(D') && D == Decode(current).value + (e + D')
  {
    hide Open, WithNul, EncodeChar, Decode, DecodeAll, Format, HexEscape, HexEscapes, IsTail, TailReads, IntoFirst, SplitChar;
    var bytes := EncodeChar(c);
    var hexes := HexEscapes(bytes);
    HexesShape(bytes);
    FirstThenRest(current, hexes, rest);
    var first, D1 := ClosedReads(current, hexes[0], hexes[1..] + rest, D);
    D' := LaterBytesRead(bytes[1..], rest, D1);
    e := first + bytes[1..];
    Associates(first, bytes[1..], D');
    FirstByteReads(c, first);
  }

  lemma Associates(a: seq<byte>, b: seq<byte>, c: seq<byte>)
    ensures a + (b + c) == (a + b) + c
  {
  }

  lemma FirstByteReads(c: char, first: seq<byte>)
    requires c as int >= 0x80 && TailReads(HexEscape(EncodeChar(c)[0]), first)
    ensures var e := first + EncodeChar(c)[1..]; e == EncodeChar(c) || e == SplitChar(c)
  {
    var b := EncodeChar(c)[0];
    var digit := UpperHex(b % 16);
    assert EncodeChar(digit) == [digit as int];
    assert HexReads(UpperHex(b / 16), digit, first);
    hide EncodeChar;
    assert EncodeChar(c) == [b] + EncodeChar(c)[1..];
  }

  lemma NextRead(current: string, token: string, v: byte, D: seq<byte>, d: seq<byte>)
    requires Open(current) && Open(token) && Decode(token) == Some([v])
    requires Decode(current + token).Some? && D == Decode(current + token).value + d
    ensures Decode(current).Some? && D == Decode(current).value + ([v] + d)
  {
    DecodeAfterOpen(current, token);
    assert (Decode(current).value + [v]) + d == Decode(current).value + ([v] + d);
  }

  lemma Peeled(v: byte, d: seq<byte>)
    ensures ([v] + d)[0] == v && ([v] + d)[1..] == d
  {
  }

  /** Lines that are not refused read as the segment under way and a reading of the rest. */
  lemma {:induction false} EscapeReads(s: string, current: string, D: seq<byte>) returns (d: seq<byte>)
    requires Open(current) && NEWLINE !in s && LinesRead(s, current) == Some(D)
    ensures Decode(current).Some? && D == Decode(current).value + d && ReadsAs(s, d)
    decreases |s|
  {
    hide Decode, DecodeAll, WithNul, Open, Format, HexReads, TailReads, EncodeChar, SplitChar;
    if s == "" {
      OneSegment(current);
      d := LastReads(current, "\\0", D);
      NulTail(d);
    } else if s == "\\" {
      d := LoneReads(current, D);
    } else if s[0] == '\\' {
      if Copied(s[1]) {
        var v := SimpleEscape(s[1]).value;
        PairDecodes(s[1]);
        assert s[..2] == ['\\', s[1]];
        OpenConcat(current, s[..2]);
        var rest := EscapeReads(s[2..], current + s[..2], D);
        NextRead(current, s[..2], v, D, rest);
        Peeled(v, rest);
        d := [v] + rest;
      } else if s[1] == 'x' && |s| > 3 {
        var e, D' := ClosedReads(current, s[..4], EscapeFrom(s[4..], ""), D);
        EmptyIsOpen();
        NothingDecodes();
        var rest := EscapeReads(s[4..], "", D');
        d := e + D';
        HexTailReads(s, e);
        assert rest == D' && d[..|e|] == e && d[|e|..] == rest;
      } else {
        PairDecodes('\\');
        OpenConcat(current, "\\\\");
        var rest := EscapeReads(s[1..], current + "\\\\", D);
        NextRead(current, "\\\\", 92, D, rest);
        Peeled(92, rest);
        d := [92] + rest;
      }
    } else if s[0] == '"' {
      PairDecodes('"');
      OpenConcat(current, "\\\"");
      var rest := EscapeReads(s[1..], current + "\\\"", D);
      NextRead(current, "\\\"", 34, D, rest);
      Peeled(34, rest);
      d := [34] + rest;
    } else if s[0] as int < 128 {
      PlainDecodes(s[0]);
      assert s[..1] == [s[0]];
      AsciiIsOneByte(s[0]);
      OpenConcat(current, s[..1]);
      var rest := EscapeReads(s[1..], current + s[..1], D);
      NextRead(current, s[..1], s[0] as int, D, rest);
      Peeled(s[0] as int, rest);
      d := [s[0] as int] + rest;
    } else {
      var e, D' := BytesRead(current, s[0], EscapeFrom(s[1..], ""), D);
      EmptyIsOpen();
      NothingDecodes();
      var rest := EscapeReads(s[1..], "", D');
      d := e + D';
      assert rest == D' && e <= d && d[|e|..] == rest;
    }
  }

  lemma AsciiIsOneByte(c: char)
    requires c as int < 128
    ensures EncodeChar(c) == [c as int]
  {
  }

  lemma OneSegment(current: string)
    ensures WithNul([current]) == [current + "\\0"]
  {
  }

  lemma NulTail(e: seq<byte>)
    requires TailReads("\\0", e)
    ensures e == [0]
  {
  }

  lemma HexTailReads(s: string, e: seq<byte>)
    requires |s| > 3 && s[0] == '\\' && s[1] == 'x' && IsTail(s[..4]) && TailReads(s[..4], e)
    ensures HexReads(s[2], s[3], e)
  {
  }

  lemma LoneReads(current: string, D: seq<byte>) returns (d: seq<byte>)
    requires Open(current) && LinesRead("\\", current) == Some(D)
    ensures Decode(current).Some? && D == Decode(current).value + d && d == [92, 48]
  {
    var pair := ['\\', '\\'];
    var o := current + (pair + ['0']);
    var s := "\\";
    assert s[1..] == "" && s[..1] == s;
    assert EscapeFrom(s, current) == EscapeFrom("", current + s);
    OneSegment(current + "\\");
    assert (current + "\\") + "\\0" == o;
    PairDecodes('\\');
    PlainDecodes('0');
    AsciiIsOneByte('0');
    OpenConcat(pair, ['0']);
    OpenConcat(current, pair + ['0']);
    DecodeAfterOpen(pair, ['0']);
    DecodeAfterOpen(current, pair + ['0']);
    hide Decode, Open, WithNul, Format, DecodeAll;
    assert o + "" == o;
    var e := LastReads(o, "", D);
    assert [92] + [48] == [92, 48];
    d := [92, 48];
    assert D == Decode(o).value + [];
  }

  // ---------------------------------------------------------------------------------------
  // A reading as tokens: what bytes each part of the text owes, and what it was read as.
  // ---------------------------------------------------------------------------------------

  datatype Token = Token(due: seq<byte>, read: seq<byte>)

  function Due(ts: seq<Token>): seq<byte> {
    if ts == [] then [] else ts[0].due + Due(ts[1..])
  }

  function Read(ts: seq<Token>): seq<byte> {
    if ts == [] then [] else ts[0].read + Read(ts[1..])
  }

  lemma {:induction false} TokensConcat(a: seq<Token>, b: seq<Token>)
    ensures Due(a + b) == Due(a) + Due(b) && Read(a + b) == Read(a) + Read(b)
  {
    if a == [] {
      assert a + b == b;
    } else {
      assert (a + b)[1..] == a[1..] + b;
      TokensConcat(a[1..], b);
    }
  }

  /** The bytes that can be owed by a text with escapes in it: all written in ASCII, none of them
      a digit's value but the newline and the separator. */
  predicate Owed(b: byte) {
    b == 0 || b == 10 || b == 34 || 48 <= b <= 57 || 65 <= b <= 70 || b == 92 || 97 <= b <= 102
    || b == 110 || b == 114 || b == 116 || b == 120
  }

  predicate AllOwed(q: seq<byte>) {
    forall i :: 0 <= i < |q| ==> Owed(q[i])
  }

  /** A character, or the separator, as itself. */
  predicate Exact(t: Token) {
    t.due == t.read && t.due != [] && (|t.due| == 1 || t.due[0] >= 0x80)
  }

  /** An escape read as fewer bytes than its characters have. */
  predicate Loses(t: Token) {
    && 1 <= |t.read| < |t.due| && AllOwed(t.due) && t.due[0] == 92
    && (t.read == [92] && t.due != [92, 92] ==> |t.due| >= 3)
    && (|t.read| > 1 ==> t.read[0] != 92)
  }

  /** A backslash and a byte that is read as another: a newline, or the separator. */
  predicate Swaps(t: Token) {
    && |t.due| == 2 && |t.read| == 2 && AllOwed(t.due) && t.due[0] == 92 && t.read[0] == 92
    && t.read[1] != t.due[1] && t.read[1] != 92
  }

  /** A character outside ASCII whose first escape is cut. */
  predicate Splits(t: Token) {
    t.read != [] && 12 <= t.read[0] <= 15 && t.due != [] && t.due[0] >= 0x80
  }

  /** An escape of the text, read as one digit and the character after it. */
  predicate Strays(t: Token) {
    && |t.read| >= 2 && t.read[0] < 16 && |t.due| >= 4 && t.due[0] == 92 && AllOwed(t.due[..3])
    && (t.read[1] >= 0x80 || (|t.due| == 4 && |t.read| == 2 && t.due[3] == t.read[1]))
  }

  predicate Readable(t: Token) {
    Exact(t) || Loses(t) || Swaps(t) || Splits(t) || Strays(t)
  }

  predicate AllReadable(ts: seq<Token>) {
    forall i :: 0 <= i < |ts| ==> Readable(ts[i])
  }

  predicate AllExact(ts: seq<Token>) {
    forall i :: 0 <= i < |ts| ==> Exact(ts[i])
  }

  lemma {:induction false} ExactReadsDue(ts: seq<Token>)
    requires AllExact(ts)
    ensures Read(ts) == Due(ts)
  {
    if ts != [] {
      ExactReadsDue(ts[1..]);
    }
  }

  /** The last token is a separator, or takes one in. */
  predicate EndsText(ts: seq<Token>) {
    ts != [] && var due := ts[|ts| - 1].due; due != [] && due[|due| - 1] == 0
  }

  // ---------------------------------------------------------------------------------------
  // No reading catches up once it has fallen behind.
  // ---------------------------------------------------------------------------------------

  /** d begins with x, or is x without its last byte, which no lookup may miss. */
  predicate Serves(d: seq<byte>, x: seq<byte>) {
    x <= d || (x != [] && d == x[..|x| - 1])
  }

  lemma ServesAt(d: seq<byte>, x: seq<byte>, i: nat)
    requires Serves(d, x) && i < |d| && i < |x|
    ensures d[i] == x[i]
  {
  }

  /** n bytes of what was owed and is now due are read. */
  lemma Advance(read: seq<byte>, d: seq<byte>, q: seq<byte>, x: seq<byte>)
    requires Serves(read + d, q + x) && |read| <= |q|
    ensures read == q[..|read|] && Serves(d, q[|read|..] + x)
  {
    var n := |read|;
    assert (q + x)[n..] == q[n..] + x && (read + d)[n..] == d;
    forall i | 0 <= i < n ensures read[i] == q[i] {
      ServesAt(read + d, q + x, i);
      assert (read + d)[i] == read[i] && (q + x)[i] == q[i];
    }
    if q + x <= read + d {
      assert q[n..] + x <= d;
    } else {
      assert d == (q + x)[n..|q + x| - 1];
    }
  }

  /** Enough is owed that the end of the text cannot make up for it. */
  predicate Behind(q: seq<byte>, ts: seq<Token>) {
    AllOwed(q) && (|q| >= 2 || (q == [92] && EndsText(ts)))
  }

  /** One token does not let the reading catch up. */
  lemma StaysBehind(q: seq<byte>, t: Token, d: seq<byte>, x: seq<byte>, ts: seq<Token>)
    requires Behind(q, [t] + ts) && Readable(t) && Serves(t.read + d, q + (t.due + x))
    ensures |t.read| <= |q + t.due| && Behind((q + t.due)[|t.read|..], ts)
  {
    var whole, right := t.read + d, q + t.due;
    assert right + x == q + (t.due + x);
    ServesAt(whole, right + x, 0);
    assert whole[0] == t.read[0] && (right + x)[0] == q[0] && Owed(q[0]);
    if |t.read| > 1 {
      ServesAt(whole, right + x, 1);
      assert whole[1] == t.read[1] && (right + x)[1] == right[1];
    }
    assert AllOwed(t.due[..]) ==> AllOwed(right);
  }

  /** Whatever tokens follow, a reading that is behind serves no text. */
  lemma {:induction false} NeverCatchesUp(q: seq<byte>, ts: seq<Token>)
    requires AllReadable(ts) && Behind(q, ts)
    ensures !Serves(Read(ts), q + Due(ts))
    decreases |ts|
  {
    hide Readable;
    if ts != [] && Serves(Read(ts), q + Due(ts)) {
      var t, rest := ts[0], ts[1..];
      assert ts == [t] + rest;
      StaysBehind(q, t, Read(rest), Due(rest), rest);
      assert q + Due(ts) == (q + t.due) + Due(rest);
      Advance(t.read, Read(rest), q + t.due, Due(rest));
      NeverCatchesUp((q + t.due)[|t.read|..], rest);
    }
  }

  /** A reading that serves a text whose last token takes in the separator reads each token as
      itself. */
  lemma {:induction false} ServingIsExact(ts: seq<Token>)
    requires AllReadable(ts) && EndsText(ts) && Serves(Read(ts), Due(ts))
    ensures AllExact(ts)
  {
    hide Readable, Exact;
    var t, rest := ts[0], ts[1..];
    assert ts == [t] + rest;
    FirstToken(t, Read(rest), Due(rest), rest);
    if Exact(t) {
      assert Serves(t.read + Read(rest), t.due + Due(rest));
      Advance(t.read, Read(rest), t.due, Due(rest));
      if rest != [] {
        ServingIsExact(rest);
      }
    } else {
      Advance(t.read, Read(rest), t.due, Due(rest));
      NeverCatchesUp(t.due[|t.read|..], rest);
    }
  }

  /** The first token is read as itself, or the reading falls behind. */
  lemma FirstToken(t: Token, d: seq<byte>, x: seq<byte>, ts: seq<Token>)
    requires Readable(t) && EndsText([t] + ts) && Serves(t.read + d, t.due + x)
    ensures if Exact(t) then |t.read| == |t.due| else |t.read| <= |t.due| && Behind(t.due[|t.read|..], ts)
  {
    var whole, right := t.read + d, t.due + x;
    ServesAt(whole, right, 0);
    assert whole[0] == t.read[0] && right[0] == t.due[0];
    if |t.read| > 1 && |t.due| > 1 {
      ServesAt(whole, right, 1);
      assert whole[1] == t.read[1] && right[1] == t.due[1];
    }
  }

  // ---------------------------------------------------------------------------------------
  // The tokens of a printed entry.
  // ---------------------------------------------------------------------------------------

  lemma ReadsAscii(t: string, d: seq<byte>)
    requires t != "" && t[0] != '\\' && t[0] as int < 128 && ReadsAs(ReplaceNewlines(t), d)
    ensures d != [] && d[0] == t[0] as int && ReadsAs(ReplaceNewlines(t[1..]), d[1..])
  {
    ReplaceHead(t);
  }

  lemma ReadsOther(t: string, d: seq<byte>) returns (e: seq<byte>)
    requires t != "" && t[0] as int >= 128 && ReadsAs(ReplaceNewlines(t), d)
    ensures (e == EncodeChar(t[0]) || e == SplitChar(t[0])) && e <= d && ReadsAs(ReplaceNewlines(t[1..]), d[|e|..])
  {
    ReplaceHead(t);
    var whole := EncodeChar(t[0]);
    e := if whole <= d && ReadsAs(ReplaceNewlines(t[1..]), d[|whole|..]) then whole else SplitChar(t[0]);
  }

  lemma ReadsCopied(t: string, d: seq<byte>)
    requires |t| > 1 && t[0] == '\\' && Copied(t[1]) && ReadsAs(ReplaceNewlines(t), d)
    ensures d != [] && d[0] == SimpleEscape(t[1]).value && ReadsAs(ReplaceNewlines(t[2..]), d[1..])
  {
    ReplaceTwo(t);
  }

  lemma ReadsKept(t: string, d: seq<byte>)
    requires t != "" && t[0] == '\\' && HarmlessBackslash(t) && ReadsAs(ReplaceNewlines(t), d)
    ensures d != [] && d[0] == 92 && ReadsAs(ReplaceNewlines(t[1..]), d[1..])
  {
    ReplaceTwo(t);
    ReplaceHead(t);
  }

  lemma ReadsNewline(t: string, d: seq<byte>)
    requires |t| > 1 && t[0] == '\\' && t[1] == NEWLINE && ReadsAs(ReplaceNewlines(t), d)
    ensures |d| >= 2 && d[0] == 92 && d[1] == 110 && ReadsAs(ReplaceNewlines(t[2..]), d[2..])
  {
    ReplaceTwo(t);
    var r := ReplaceNewlines(t);
    assert r[2..][1..] == r[3..] && r[2..][0] == 'n' && d[1..][1..] == d[2..];
  }

  lemma ReadsHex(t: string, d: seq<byte>) returns (n: nat)
    requires |t| > 1 && t[0] == '\\' && t[1] == 'x' && |ReplaceNewlines(t)| > 3 && ReadsAs(ReplaceNewlines(t), d)
    ensures |t| >= 4 && n <= |d| && HexReads(t[2], t[3], d[..n]) && ReadsAs(ReplaceNewlines(t[4..]), d[n..])
  {
    var r := ReplaceNewlines(t);
    ReplaceTwo(t);
    var k :| 0 <= k <= |d| && HexReads(r[2], r[3], d[..k]) && ReadsAs(r[4..], d[k..]);
    n := k;
    hide ReadsAs;
    FourOwnCharacters(t);
    assert r[..4][2] == t[..4][2] && r[..4][3] == t[..4][3];
  }

  lemma CopiedIsOwed(c: char)
    requires Copied(c)
    ensures EncodeChar(c) == [c as int] && Owed(c as int)
  {
  }

  lemma HexIsOwed(c: char)
    requires IsHex(c)
    ensures EncodeChar(c) == [c as int] && Owed(c as int)
  {
  }

  lemma NothingReads(d: seq<byte>)
    requires ReadsAs(ReplaceNewlines(""), d)
    ensures d == [0]
  {
  }

  lemma LoneIsSwapped(d: seq<byte>)
    requires ReadsAs(ReplaceNewlines("\\"), d)
    ensures d == [92, 48]
  {
    ReplaceHead("\\");
    assert ReplaceNewlines("\\") == "\\";
  }

  lemma EncodedHexTail(t: string)
    requires |t| >= 4 && t[0] == '\\' && t[1] == 'x' && IsHex(t[2])
    ensures Encode(t) == [92, 120, t[2] as int] + EncodeChar(t[3]) + Encode(t[4..])
  {
    hide Encode, EncodeChar;
    EncodedHexHead(t);
    EncodedDigitTail(t[2..]);
    assert t[2..][2..] == t[4..] && t[2..][0] == t[2] && t[2..][1] == t[3];
    Associates([92, 120], [t[2] as int], EncodeChar(t[3]));
    Associates([92, 120], [t[2] as int] + EncodeChar(t[3]), Encode(t[4..]));
    assert [92, 120] + [t[2] as int] == [92, 120, t[2] as int];
  }

  lemma EncodedHexHead(t: string)
    requires |t| >= 4 && t[0] == '\\' && t[1] == 'x'
    ensures Encode(t) == [92, 120] + Encode(t[2..])
  {
    AsciiIsOneByte('\\');
    AsciiIsOneByte('x');
    hide Encode, EncodeChar;
    SplitEncode(t, 2);
    EncodedPair(t[0], t[1]);
    assert t[..2] == [t[0], t[1]];
  }

  lemma EncodedDigitTail(u: string)
    requires |u| >= 2 && IsHex(u[0])
    ensures Encode(u) == [u[0] as int] + EncodeChar(u[1]) + Encode(u[2..])
  {
    HexIsOwed(u[0]);
    hide Encode, EncodeChar;
    SplitEncode(u, 2);
    EncodedPair(u[0], u[1]);
    assert u[..2] == [u[0], u[1]];
  }

  /** The tokens say how d reads t and its separator. */
  predicate TokensFor(ts: seq<Token>, t: string, d: seq<byte>) {
    && Due(ts) == Encode(t) + [0] && Read(ts) == d
    && AllReadable(ts) && EndsText(ts) && (AllExact(ts) ==> Harmless(t))
  }

  lemma TokenBefore(token: Token, ts: seq<Token>, rest: string, t: string, d: seq<byte>)
    requires Readable(token) && |token.read| <= |d| && token.read == d[..|token.read|]
    requires Encode(t) == token.due + Encode(rest) && TokensFor(ts, rest, d[|token.read|..])
    requires Exact(token) && Harmless(rest) ==> Harmless(t)
    ensures TokensFor([token] + ts, t, d)
  {
    hide Readable, Exact, Encode, Harmless;
    var all := [token] + ts;
    assert all[0] == token && all[1..] == ts;
    assert d == token.read + d[|token.read|..];
    assert token.due + Encode(rest) + [0] == token.due + (Encode(rest) + [0]);
    assert AllExact(all) ==> Exact(token) && AllExact(ts) by {
      assert forall i :: 0 <= i < |ts| ==> all[i + 1] == ts[i];
    }
  }

  lemma OnlyToken(token: Token, t: string, d: seq<byte>)
    requires Readable(token) && token.due == Encode(t) + [0] && token.read == d && (Exact(token) ==> Harmless(t))
    ensures TokensFor([token], t, d)
  {
    hide Readable, Exact, Encode, Harmless;
    var ts := [token];
    assert ts[1..] == [] && Due([]) == [] && Read([]) == [];
    assert Due(ts) == token.due + [] && Read(ts) == token.read + [];
    assert ts[|ts| - 1].due == Encode(t) + [0];
    assert AllExact(ts) ==> Exact(ts[0]);
  }

  lemma LoneBytes()
    ensures Encode("\\") == [92]
  {
    AsciiIsOneByte('\\');
    assert "\\"[1..] == "";
  }

  lemma CharacterToken(c: char, e: seq<byte>)
    requires if c as int < 128 then e == [c as int] else e == EncodeChar(c) || e == SplitChar(c)
    ensures Readable(Token(EncodeChar(c), e)) && e != []
  {
    AsciiOrHigh(c);
  }

  lemma AsciiOrHigh(c: char)
    ensures if c as int < 128 then EncodeChar(c) == [c as int] else EncodeChar(c) != [] && EncodeChar(c)[0] >= 128
  {
  }

  lemma CopiedToken(c: char)
    requires Copied(c)
    ensures EncodeChar(c) == [c as int]
    ensures var token := Token([92, c as int], [SimpleEscape(c).value]); Readable(token) && !Exact(token)
  {
    CopiedIsOwed(c);
  }

  /** A hexadecimal escape of the text, read whole or as one digit and a character. */
  lemma HexToken(a: char, b: char, e: seq<byte>)
    requires HexReads(a, b, e)
    ensures var token := Token([92, 120, a as int] + EncodeChar(b), e); Readable(token) && !Exact(token)
  {
    var due := [92, 120, a as int] + EncodeChar(b);
    HexIsOwed(a);
    AsciiOrHigh(b);
    assert due[..3] == [92, 120, a as int] && due[3] == EncodeChar(b)[0];
    if IsHex(b) && |e| == 1 {
      HexIsOwed(b);
      assert Loses(Token(due, e));
    } else {
      assert e[1] == EncodeChar(b)[0];
      assert Strays(Token(due, e));
    }
  }

  /** Whatever the lines of a text are read as, it is a sequence of these tokens. */
  lemma {:induction false} TokensOf(t: string, d: seq<byte>) returns (ts: seq<Token>)
    requires ReadsAs(ReplaceNewlines(t), d)
    ensures TokensFor(ts, t, d)
    decreases |t|
  {
    hide ReadsAs, ReplaceNewlines, EncodeChar, HexReads, TokensFor, HarmlessBackslash, SplitChar;
    if t == "" || t == "\\" {
      ts := LastToken(t, d);
    } else if t[0] != '\\' || HarmlessBackslash(t) {
      var e := FirstRead(t, d);
      var rest := TokensOf(t[1..], d[|e|..]);
      TokenBefore(Token(EncodeChar(t[0]), e), rest, t[1..], t, d);
      ts := [Token(EncodeChar(t[0]), e)] + rest;
    } else {
      var token, n := EscapeToken(t, d);
      var rest := TokensOf(t[n..], d[|token.read|..]);
      TokenBefore(token, rest, t[n..], t, d);
      ts := [token] + rest;
    }
  }

  lemma LastToken(t: string, d: seq<byte>) returns (ts: seq<Token>)
    requires (t == "" || t == "\\") && ReadsAs(ReplaceNewlines(t), d)
    ensures TokensFor(ts, t, d)
  {
    hide ReadsAs, ReplaceNewlines, TokensFor;
    if t == "" {
      NothingReads(d);
      ts := [Token([0], [0])];
    } else {
      LoneIsSwapped(d);
      LoneBytes();
      ts := [Token([92, 0], [92, 48])];
      assert Swaps(ts[0]);
    }
    OnlyToken(ts[0], t, d);
  }

  lemma FirstRead(t: string, d: seq<byte>) returns (e: seq<byte>)
    requires t != "" && (t[0] != '\\' || HarmlessBackslash(t)) && ReadsAs(ReplaceNewlines(t), d)
    ensures e <= d && ReadsAs(ReplaceNewlines(t[1..]), d[|e|..]) && Readable(Token(EncodeChar(t[0]), e))
  {
    hide ReadsAs, ReplaceNewlines, EncodeChar, SplitChar, HarmlessBackslash, Readable;
    if t[0] as int >= 128 {
      e := ReadsOther(t, d);
    } else {
      if t[0] == '\\' {
        ReadsKept(t, d);
      } else {
        ReadsAscii(t, d);
      }
      e := [t[0] as int];
    }
    CharacterToken(t[0], e);
  }

  lemma NewlineToken()
    ensures var token := Token([92, 10], [92, 110]); Readable(token) && !Exact(token)
  {
    assert Swaps(Token([92, 10], [92, 110]));
  }

  /** A harmful backslash and what it takes with it. */
  lemma EscapeToken(t: string, d: seq<byte>) returns (token: Token, n: nat)
    requires |t| > 1 && t[0] == '\\' && !HarmlessBackslash(t) && ReadsAs(ReplaceNewlines(t), d)
    ensures 0 < n <= |t| && Encode(t) == token.due + Encode(t[n..])
    ensures token.read <= d && ReadsAs(ReplaceNewlines(t[n..]), d[|token.read|..])
    ensures Readable(token) && !Exact(token)
  {
    hide ReadsAs, ReplaceNewlines, Encode, EncodeChar, Readable, Exact;
    PairBytes(t);
    if t[1] == NEWLINE {
      ReadsNewline(t, d);
      AsciiIsOneByte(NEWLINE);
      token, n := Token([92, 10], [92, 110]), 2;
      Associates([92], [10], Encode(t[2..]));
      NewlineToken();
    } else if Copied(t[1]) {
      ReadsCopied(t, d);
      CopiedToken(t[1]);
      token, n := Token([92, t[1] as int], [SimpleEscape(t[1]).value]), 2;
      Associates([92], [t[1] as int], Encode(t[2..]));
    } else {
      var k := ReadsHex(t, d);
      EncodedHexTail(t);
      HexToken(t[2], t[3], d[..k]);
      token, n := Token([92, 120, t[2] as int] + EncodeChar(t[3]), d[..k]), 4;
    }
  }

  // ---------------------------------------------------------------------------------------
  // Every printed text.
  // ---------------------------------------------------------------------------------------

  /** The lines of any text, when they are not refused, read as tokens of it. */
  lemma EntryTokens(text: string, D: seq<byte>) returns (ts: seq<Token>)
    requires DecodeAll(EntryLines(text)) == Some(D)
    ensures TokensFor(ts, text, D)
  {
    NewlinesAreGone(text);
    EmptyIsOpen();
    NothingDecodes();
    assert EscapeFrom("", "") == [""];
    assert LinesRead(ReplaceNewlines(text), "") == Some(D);
    var d := EscapeReads(ReplaceNewlines(text), "", D);
    assert d == D;
    ts := TokensOf(text, d);
  }

  /**
   * For every text at all: the printed lines read back as its UTF-8 bytes and one NUL exactly when
   * every backslash in it is harmless and no cut falls inside an escape.
   */
  lemma PrintedEntryRoundTrips(text: string)
    ensures DecodeAll(EntryLines(text)) == Some(Encode(text) + [0]) <==>
            Harmless(text) && AllWrapSafe(WithNul(Escape(text)))
  {
    if Harmless(text) {
      HarmlessEntryRoundTrips(text);
    } else if DecodeAll(EntryLines(text)) == Some(Encode(text) + [0]) {
      var ts := EntryTokens(text, Encode(text) + [0]);
      ServingIsExact(ts);
    }
  }
}
