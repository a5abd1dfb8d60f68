/** Turning a translation into C++ string-literal segments (scripts/gen_i18n.py, escape_cpp_string
    and _append_string_data_entry), and what a compiler reads back from them. */
module I18nEscape {
  import opened Utf8
  import opened CppLiterals

  // ---------------------------------------------------------------------------------------
  // The segments.
  // ---------------------------------------------------------------------------------------

  /** Each newline becomes a backslash and an n, before anything else is looked at. */
  function ReplaceNewlines(s: string): string {
    if s == "" then "" else (if s[0] == NEWLINE then "\\n" else [s[0]]) + ReplaceNewlines(s[1..])
  }

  /** Escapes already in the text that are passed on as they are. */
  predicate Copied(c: char) {
    c == 'n' || c == 't' || c == 'r' || c == '"' || c == '\\'
  }

  function UpperHex(n: nat): (c: char)
    requires n < 16
    ensures IsHex(c) && HexValue(c) == n
  {
    if n < 10 then '0' + (n as char) else 'A' + ((n - 10) as char)
  }

  function HexEscape(b: byte): string {
    ['\\', 'x', UpperHex(b / 16), UpperHex(b % 16)]
  }

  function HexEscapes(bytes: seq<byte>): (r: seq<string>)
    ensures |r| == |bytes|
  {
    seq(|bytes|, i requires 0 <= i < |bytes| => HexEscape(bytes[i]))
  }

  function IntoFirst(current: string, segments: seq<string>): (r: seq<string>)
    requires segments != []
    ensures |r| == |segments|
  {
    [current + segments[0]] + segments[1..]
  }

  /** The segments of the rest of a text, with `current` in the segment under way. */
  function EscapeFrom(s: string, current: string): (r: seq<string>)
    ensures r != []
    decreases |s|
  {
    if s == "" then [current]
    else if s[0] == '\\' && |s| > 1 then
      if Copied(s[1]) then EscapeFrom(s[2..], current + s[..2])
      else if s[1] == 'x' && |s| > 3 then [current + s[..4]] + EscapeFrom(s[4..], "")
      else EscapeFrom(s[1..], current + "\\\\")
    else if s[0] == '"' then EscapeFrom(s[1..], current + "\\\"")
    else if s[0] as int < 128 then EscapeFrom(s[1..], current + s[..1])
    else IntoFirst(current, HexEscapes(EncodeChar(s[0]))) + EscapeFrom(s[1..], "")
  }

  function Escape(s: string): (r: seq<string>)
    ensures r != []
  {
    if s == "" then [""] else EscapeFrom(ReplaceNewlines(s), "")
  }

  lemma Peel(s: string, i: nat, step: nat)
    requires i + step <= |s|
    ensures s[i..][step..] == s[i + step..] && s[i..][..step] == s[i..i + step]
  {
  }

  lemma Regroup(a: seq<string>, b: seq<string>, c: seq<string>)
    ensures (a + b) + c == a + (b + c)
  {
  }

  method EscapeCppString(text: string) returns (segments: seq<string>)
    ensures segments == Escape(text)
  {
    if text == "" {
      return [""];
    }
    var s := ReplaceNewlines(text);
    segments := [];
    var current := "";
    var i := 0;
    assert s[0..] == s;
    while i < |s|
      invariant 0 <= i <= |s|
      invariant segments + EscapeFrom(s[i..], current) == EscapeFrom(s, "")
    {
      var ch := s[i];
      Peel(s, i, 1);
      if ch == '\\' && i + 1 < |s| {
        var nxt := s[i + 1];
        Peel(s, i, 2);
        if Copied(nxt) {
          assert s[i..i + 2] == [ch, nxt];
          current := current + [ch, nxt];
          i := i + 2;
        } else if nxt == 'x' && i + 3 < |s| {
          Peel(s, i, 4);
          current := current + s[i..i + 4];
          Regroup(segments, [current], EscapeFrom(s[i + 4..], ""));
          segments := segments + [current];
          current := "";
          i := i + 4;
        } else {
          current := current + "\\\\";
          i := i + 1;
        }
      } else if ch == '"' {
        current := current + "\\\"";
        i := i + 1;
      } else if ch as int < 128 {
        assert s[i..i + 1] == [ch];
        current := current + [ch];
        i := i + 1;
      } else {
        Regroup(segments, IntoFirst(current, HexEscapes(EncodeChar(ch))), EscapeFrom(s[i + 1..], ""));
        segments, current := EmitBytes(segments, current, EncodeChar(ch));
        i := i + 1;
      }
    }
    segments := segments + [current];
  }

  /** The byte loop: one escape per byte, each closing its segment. */
  method EmitBytes(segments: seq<string>, current: string, bytes: seq<byte>) returns (segments': seq<string>, current': string)
    requires bytes != []
    ensures segments' == segments + IntoFirst(current, HexEscapes(bytes)) && current' == ""
  {
    segments', current' := segments, current;
    ghost var all := IntoFirst(current, HexEscapes(bytes));
    for k := 0 to |bytes|
      invariant current' == if k == 0 then current else ""
      invariant segments' == segments + all[..k]
    {
      assert all[..k + 1] == all[..k] + [all[k]];
      assert all[k] == (if k == 0 then current else "") + HexEscape(bytes[k]);
      current' := current' + HexEscape(bytes[k]);
      segments' := segments' + [current'];
      current' := "";
    }
    assert all[..|bytes|] == all;
  }

  /** The separator goes onto the last segment. */
  function WithNul(segments: seq<string>): (r: seq<string>)
    requires segments != []
    ensures r != []
  {
    segments[..|segments| - 1] + [segments[|segments| - 1] + "\\0"]
  }

  // ---------------------------------------------------------------------------------------
  // What the segments mean.
  // ---------------------------------------------------------------------------------------

  /** The bytes read back from the segments of s and the separator. */
  function Meaning(s: string): Bytes
    decreases |s|
  {
    if s == "" then Some([0])
    else if s == "\\" then Some([92, 48])
    else if s[0] == '\\' then
      if Copied(s[1]) then Both(Some([SimpleEscape(s[1]).value]), Meaning(s[2..]))
      else if s[1] == 'x' && |s| > 3 then Both(Decode(s[..4]), Meaning(s[4..]))
      else Both(Some([92]), Meaning(s[1..]))
    else Both(Some(EncodeChar(s[0])), Meaning(s[1..]))
  }

  lemma HexEscapeDecodes(b: byte)
    ensures Decode(HexEscape(b)) == Some([b])
  {
    HexPairDecodes(UpperHex(b / 16), UpperHex(b % 16));
  }

  lemma {:induction false} HexEscapesDecode(bytes: seq<byte>)
    ensures DecodeAll(HexEscapes(bytes)) == Some(bytes)
  {
    if bytes != [] {
      HexEscapeDecodes(bytes[0]);
      HexEscapesDecode(bytes[1..]);
      hide Decode, HexEscape;
      assert HexEscapes(bytes)[1..] == HexEscapes(bytes[1..]);
      assert bytes == [bytes[0]] + bytes[1..];
    }
  }

  lemma WithNulTail(first: seq<string>, rest: seq<string>)
    requires rest != []
    ensures WithNul(first + rest) == first + WithNul(rest)
  {
    assert (first + rest)[..|first + rest| - 1] == first + rest[..|rest| - 1];
  }

  /** One more token in the segment under way. */
  lemma PushToken(current: string, token: string, rest: Bytes)
    requires Open(current) && Open(token)
    ensures Open(current + token)
    ensures Both(Decode(current + token), rest) == Both(Decode(current), Both(Decode(token), rest))
  {
    OpenConcat(current, token);
    DecodeAfterOpen(current, token);
    BothAssociates(Decode(current), Decode(token), rest);
  }

  lemma LastSegment(current: string)
    requires Open(current)
    ensures DecodeAll(WithNul([current])) == Both(Decode(current), Some([0]))
  {
    NulDecodes();
    DecodeAfterOpen(current, "\\0");
    assert WithNul([current]) == [current + "\\0"];
    DecodeOne(current + "\\0");
  }

  /** A backslash that ends the text swallows the separator's own. */
  lemma LastBackslash(current: string)
    requires Open(current)
    ensures DecodeAll(WithNul([current + "\\"])) == Both(Decode(current), Some([92, 48]))
  {
    var pair := ['\\', '\\'];
    PairDecodes('\\');
    PlainDecodes('0');
    DecodeAfterOpen(pair, ['0']);
    assert EncodeChar('0') == [48];
    assert [92] + [48] == [92, 48];
    DecodeAfterOpen(current, pair + ['0']);
    assert (current + "\\") + "\\0" == current + (pair + ['0']);
    assert WithNul([current + "\\"]) == [current + (pair + ['0'])];
    DecodeOne(current + (pair + ['0']));
  }

  /** A hexadecimal escape closes its segment. */
  lemma ClosedSegment(current: string, escape: string, rest: seq<string>)
    requires Open(current) && rest != []
    ensures DecodeAll(WithNul([current + escape] + rest)) == Both(Decode(current), Both(Decode(escape), DecodeAll(WithNul(rest))))
  {
    WithNulTail([current + escape], rest);
    DecodeAfterOpen(current, escape);
    DecodeAllConcat([current + escape], WithNul(rest));
    DecodeOne(current + escape);
    BothAssociates(Decode(current), Decode(escape), DecodeAll(WithNul(rest)));
  }

  lemma BytesSegments(current: string, bytes: seq<byte>, rest: seq<string>)
    requires Open(current) && bytes != [] && rest != []
    ensures DecodeAll(WithNul(IntoFirst(current, HexEscapes(bytes)) + rest)) == Both(Decode(current), Both(Some(bytes), DecodeAll(WithNul(rest))))
  {
    hide Decode, Open, WithNul;
    var hexes := HexEscapes(bytes);
    var tail := DecodeAll(WithNul(rest));
    HexEscapesDecode(bytes);
    assert IntoFirst(current, hexes) + rest == [current + hexes[0]] + (hexes[1..] + rest);
    ClosedSegment(current, hexes[0], hexes[1..] + rest);
    WithNulTail(hexes[1..], rest);
    DecodeAllConcat(hexes[1..], WithNul(rest));
    BothAssociates(Decode(hexes[0]), DecodeAll(hexes[1..]), tail);
  }

  /** The segments, joined and read by a compiler, give the meaning of the text. */
  lemma {:induction false} EscapeMeans(s: string, current: string)
    requires Open(current) && NEWLINE !in s
    ensures DecodeAll(WithNul(EscapeFrom(s, current))) == Both(Decode(current), Meaning(s))
    decreases |s|, 0
  {
    hide Decode, DecodeAll, WithNul, Open;
    if s == "" {
      LastSegment(current);
    } else if s == "\\" {
      assert EscapeFrom(s[1..], current + s[..1]) == [current + s[..1]];
      assert s[..1] == "\\";
      LastBackslash(current);
    } else if s[0] == '\\' {
      if Copied(s[1]) {
        PairDecodes(s[1]);
        assert s[..2] == ['\\', s[1]];
        PushToken(current, s[..2], Meaning(s[2..]));
        EscapeMeans(s[2..], current + s[..2]);
      } else if s[1] == 'x' && |s| > 3 {
        EscapeMeansAfterHex(s[4..]);
        ClosedSegment(current, s[..4], EscapeFrom(s[4..], ""));
      } else {
        PairDecodes('\\');
        PushToken(current, "\\\\", Meaning(s[1..]));
        EscapeMeans(s[1..], current + "\\\\");
      }
    } else if s[0] == '"' {
      PairDecodes('"');
      PushToken(current, "\\\"", Meaning(s[1..]));
      EscapeMeans(s[1..], current + "\\\"");
    } else if s[0] as int < 128 {
      PlainDecodes(s[0]);
      assert s[..1] == [s[0]];
      PushToken(current, s[..1], Meaning(s[1..]));
      EscapeMeans(s[1..], current + s[..1]);
    } else {
      EscapeMeansAfterHex(s[1..]);
      BytesSegments(current, EncodeChar(s[0]), EscapeFrom(s[1..], ""));
    }
  }

  /** A new segment begins after an escape. */
  lemma {:induction false} EscapeMeansAfterHex(s: string)
    requires NEWLINE !in s
    ensures DecodeAll(WithNul(EscapeFrom(s, ""))) == Meaning(s)
    decreases |s|, 1
  {
    EscapeMeans(s, "");
    BothUnit(Meaning(s));
  }

  lemma {:induction false} NewlinesAreGone(s: string)
    ensures NEWLINE !in ReplaceNewlines(s)
    ensures s != "" ==> |ReplaceNewlines(s)| >= |s|
  {
    if s != "" {
      NewlinesAreGone(s[1..]);
    }
  }

  /** For every text: what the compiler reads from its entry. */
  lemma EntryMeans(text: string)
    ensures DecodeAll(WithNul(Escape(text))) == Meaning(ReplaceNewlines(text))
  {
    NewlinesAreGone(text);
    EscapeMeansAfterHex(ReplaceNewlines(text));
    assert EscapeFrom("", "") == [""];
  }

  // ---------------------------------------------------------------------------------------
  // Which texts come through.
  // ---------------------------------------------------------------------------------------

  /** No backslash ends the text or is followed by what would be taken for an escape. */
  predicate Harmless(t: string) {
    t == "" || ((t[0] == '\\' ==> HarmlessBackslash(t)) && Harmless(t[1..]))
  }

  predicate HarmlessBackslash(t: string)
    requires t != ""
  {
    |t| > 1 && t[1] != NEWLINE && !Copied(t[1]) && (t[1] == 'x' ==> |ReplaceNewlines(t)| <= 3)
  }

  lemma {:induction false} BackslashFreeIsHarmless(t: string)
    requires '\\' !in t
    ensures Harmless(t)
  {
    if t != "" {
      BackslashFreeIsHarmless(t[1..]);
    }
  }

  lemma ReplaceHead(t: string)
    requires t != ""
    ensures var r := ReplaceNewlines(t);
      if t[0] == NEWLINE then |r| >= 2 && r[0] == '\\' && r[1] == 'n' && r[2..] == ReplaceNewlines(t[1..])
      else r != "" && r[0] == t[0] && r[1..] == ReplaceNewlines(t[1..])
  {
  }

  lemma ReplaceTwo(t: string)
    requires |t| >= 2 && t[0] != NEWLINE
    ensures var r := ReplaceNewlines(t);
      if t[1] == NEWLINE then |r| >= 3 && r[0] == t[0] && r[1] == '\\' && r[2] == 'n' && r[3..] == ReplaceNewlines(t[2..])
      else |r| >= 2 && r[0] == t[0] && r[1] == t[1] && r[2..] == ReplaceNewlines(t[2..])
  {
    ReplaceHead(t);
    ReplaceHead(t[1..]);
    var r := ReplaceNewlines(t);
    assert t[1..][1..] == t[2..] && r[1..][1..] == r[2..];
    if t[1] == NEWLINE {
      assert r[1..][2..] == r[3..] && r[1..][1] == 'n';
    }
  }

  lemma MeaningOfPlain(t: string)
    requires t != "" && t[0] != '\\'
    ensures Meaning(ReplaceNewlines(t)) == Both(Some(EncodeChar(t[0])), Meaning(ReplaceNewlines(t[1..])))
  {
    ReplaceHead(t);
    assert EncodeChar(NEWLINE) == [10];
  }

  lemma MeaningOfCopied(t: string)
    requires |t| > 1 && t[0] == '\\' && Copied(t[1])
    ensures Meaning(ReplaceNewlines(t)) == Both(Some([SimpleEscape(t[1]).value]), Meaning(ReplaceNewlines(t[2..])))
  {
    ReplaceTwo(t);
  }

  lemma MeaningOfKept(t: string)
    requires t != "" && t[0] == '\\' && HarmlessBackslash(t)
    ensures Meaning(ReplaceNewlines(t)) == Both(Some([92]), Meaning(ReplaceNewlines(t[1..])))
  {
    ReplaceTwo(t);
    ReplaceHead(t);
  }

  /** A backslash before a newline takes the newline's backslash, and an n is left. */
  lemma BackslashNewline(t: string)
    requires |t| >= 2 && t[0] == '\\' && t[1] == NEWLINE
    ensures var u := "n" + t[2..];
      Meaning(ReplaceNewlines(t)) == Both(Some([92]), Meaning(ReplaceNewlines(u)))
      && Meaning(ReplaceNewlines(u)) == Both(Some([110]), Meaning(ReplaceNewlines(t[2..])))
      && |Encode(t)| == 1 + |Encode(u)|
  {
    var u := "n" + t[2..];
    ReplaceTwo(t);
    ReplaceHead(u);
    MeaningOfPlain(u);
    assert u[1..] == t[2..];
    var r := ReplaceNewlines(t);
    assert r[2..] == [r[2]] + r[3..];
    assert ReplaceNewlines(u) == ['n'] + ReplaceNewlines(t[2..]);
    assert EncodeChar('n') == [110];
    SplitEncode(t, 2);
    EncodedPair(t[0], t[1]);
    assert t[..2] == [t[0], t[1]];
  }

  lemma EncodedPair(a: char, b: char)
    ensures Encode([a, b]) == EncodeChar(a) + EncodeChar(b)
  {
    assert [a, b][1..] == [b] && [b][1..] == "";
    assert Encode([b]) == EncodeChar(b) + Encode("");
    assert Encode([a, b]) == EncodeChar(a) + Encode([b]);
  }

  /** Characters of the replaced text that belong to no newline stand for themselves. */
  lemma FourOwnCharacters(t: string)
    requires |t| >= 2 && t[0] == '\\' && t[1] == 'x' && |ReplaceNewlines(t)| > 3
    requires ReplaceNewlines(t)[2] != '\\' && ReplaceNewlines(t)[3] != '\\'
    ensures |t| >= 4 && ReplaceNewlines(t)[..4] == t[..4] && ReplaceNewlines(t)[4..] == ReplaceNewlines(t[4..])
  {
    var r := ReplaceNewlines(t);
    ReplaceTwo(t);
    var u := t[2..];
    assert |ReplaceNewlines(u)| > 1;
    assert u != "";
    ReplaceHead(u);
    assert r[2..][1..] == r[3..];
    assert u[0] != NEWLINE;
    assert ReplaceNewlines(u[1..]) != "";
    assert u[1..] != "";
    assert u[1..][0] == u[1];
    ReplaceHead(u[1..]);
    assert r[3..][0] == r[3];
    assert u[1] != NEWLINE;
    ReplaceTwo(u);
    assert r[2..][2..] == r[4..] && u[2..] == t[4..];
    assert u[0] == r[2] && u[1] == r[3];
  }

  /** A copied hexadecimal escape gives fewer bytes than its four characters. */
  lemma MeaningOfHex(t: string)
    requires |t| > 1 && t[0] == '\\' && t[1] == 'x' && |ReplaceNewlines(t)| > 3
    ensures var m := Meaning(ReplaceNewlines(t));
      m.Some? ==> |t| >= 4 && Meaning(ReplaceNewlines(t[4..])).Some?
                  && |m.value| + 2 <= |Encode(t[..4])| + |Meaning(ReplaceNewlines(t[4..])).value|
  {
    var r := ReplaceNewlines(t);
    ReplaceTwo(t);
    assert Meaning(r) == Both(Decode(r[..4]), Meaning(r[4..]));
    hide Meaning, ReplaceNewlines;
    if Decode(r[..4]).Some? {
      assert r[..4] == ['\\', 'x', r[2], r[3]];
      ShortHex(r[2], r[3]);
      hide Decode;
      FourOwnCharacters(t);
      EncodedFour(t[..4]);
    }
  }

  lemma ShortHex(a: char, b: char)
    requires Decode(['\\', 'x', a, b]).Some?
    ensures a != '\\' && b != '\\' && b != NEWLINE && |Decode(['\\', 'x', a, b]).value| <= 1 + |EncodeChar(b)|
  {
    var s := ['\\', 'x', a, b];
    assert s[2..] == [a, b] && [a, b][1..] == [b] && [b][1..] == "";
    assert IsHex(a);
    if IsHex(b) {
      HexPairDecodes(a, b);
    } else {
      assert HexRun([b]) == 0 && HexRun([a, b]) == 1;
      assert s[2 + 1..] == [b];
      assert Decode([b]).Some? && |Decode(s).value| == 1 + |Decode([b]).value|;
      assert IsPlain(b);
      PlainDecodes(b);
    }
  }

  lemma EncodedFour(e: string)
    requires |e| == 4
    ensures |Encode(e)| >= 3 + |EncodeChar(e[3])|
  {
    EncodeConcat(e[..3], e[3..]);
    assert e == e[..3] + e[3..];
    assert e[3..] == [e[3]] && [e[3]][1..] == "";
    AtLeastOneByteEach(e[..3]);
  }

  lemma {:induction false} AtLeastOneByteEach(s: string)
    ensures |Encode(s)| >= |s|
  {
    if s != "" {
      AtLeastOneByteEach(s[1..]);
    }
  }

  /** Reading an entry back never gives more bytes than were put in. */
  lemma {:induction false} MeaningIsNoLonger(t: string)
    ensures var m := Meaning(ReplaceNewlines(t)); m.Some? ==> |m.value| <= |Encode(t)| + 1
    decreases |t|
  {
    if t == "\\" {
      assert ReplaceNewlines(t) == "\\" by { ReplaceHead(t); }
    } else if t != "" {
      hide Decode, Meaning, ReplaceNewlines;
      if t[0] != '\\' {
        MeaningOfPlain(t);
        MeaningIsNoLonger(t[1..]);
      } else if t[1] == NEWLINE {
        BackslashNewline(t);
        MeaningIsNoLonger("n" + t[2..]);
      } else if Copied(t[1]) {
        MeaningOfCopied(t);
        MeaningIsNoLonger(t[2..]);
        PairBytes(t);
      } else if HarmlessBackslash(t) {
        MeaningOfKept(t);
        MeaningIsNoLonger(t[1..]);
      } else {
        MeaningOfHex(t);
        if |t| >= 4 {
          MeaningIsNoLonger(t[4..]);
          SplitEncode(t, 4);
        }
      }
    }
  }

  lemma SplitEncode(t: string, k: nat)
    requires k <= |t|
    ensures Encode(t) == Encode(t[..k]) + Encode(t[k..])
  {
    hide Encode;
    EncodeConcat(t[..k], t[k..]);
    assert t == t[..k] + t[k..];
  }

  lemma PairBytes(t: string)
    requires |t| >= 2 && t[0] == '\\'
    ensures Encode(t) == [92] + (EncodeChar(t[1]) + Encode(t[2..]))
  {
    assert t[1..][1..] == t[2..];
    assert EncodeChar(t[0]) == [92];
  }

  lemma SamePrefix(p: seq<byte>, a: Bytes, b: seq<byte>)
    ensures Both(Some(p), a) == Some(p + b) <==> a == Some(b)
  {
    if a.Some? && p + a.value == p + b {
      assert (p + a.value)[|p|..] == a.value && (p + b)[|p|..] == b;
    }
  }

  /** For every text: its entry reads back as its own bytes and one NUL exactly when every
      backslash in it is harmless. */
  lemma {:induction false} MeansItselfExactly(t: string)
    ensures Meaning(ReplaceNewlines(t)) == Some(Encode(t) + [0]) <==> Harmless(t)
    decreases |t|
  {
    if t == "" {
      assert [] + [0] == [0];
    } else if t == "\\" {
      assert ReplaceNewlines(t) == "\\" by { ReplaceHead(t); }
      assert (Encode(t) + [0])[1] == 0;
    } else {
      var rest := Encode(t[1..]) + [0];
      assert Encode(t) + [0] == EncodeChar(t[0]) + rest;
      hide Decode, Meaning, ReplaceNewlines, Encode;
      MeansItselfExactly(t[1..]);
      if t[0] != '\\' {
        MeaningOfPlain(t);
        SamePrefix(EncodeChar(t[0]), Meaning(ReplaceNewlines(t[1..])), rest);
      } else if HarmlessBackslash(t) {
        MeaningOfKept(t);
        assert EncodeChar(t[0]) == [92];
        SamePrefix([92], Meaning(ReplaceNewlines(t[1..])), rest);
      } else {
        HarmfulDiffers(t);
      }
    }
  }

  /** A backslash that is taken for an escape changes the bytes. */
  lemma HarmfulDiffers(t: string)
    requires |t| > 1 && t[0] == '\\' && !HarmlessBackslash(t)
    ensures Meaning(ReplaceNewlines(t)) != Some(Encode(t) + [0])
  {
    hide Decode, Meaning, ReplaceNewlines, Encode;
    PairBytes(t);
    if t[1] == NEWLINE {
      BackslashNewline(t);
      assert Meaning(ReplaceNewlines(t)).Some? ==> Meaning(ReplaceNewlines(t)).value[1] == 110;
      assert (Encode(t) + [0])[1] == 10;
    } else if Copied(t[1]) {
      MeaningOfCopied(t);
      MeaningIsNoLonger(t[2..]);
      assert (Encode(t) + [0])[0] == 92;
      assert Meaning(ReplaceNewlines(t)).Some? ==> Meaning(ReplaceNewlines(t)).value[0] == SimpleEscape(t[1]).value;
    } else {
      MeaningOfHex(t);
      if |t| >= 4 {
        MeaningIsNoLonger(t[4..]);
        SplitEncode(t, 4);
      }
    }
  }

  /** For every text: the segments of its entry, joined and read by a C++ compiler, are its
      UTF-8 bytes and one NUL exactly when every backslash in it is harmless. */
  lemma EntryRoundTrips(text: string)
    ensures DecodeAll(WithNul(Escape(text))) == Some(Encode(text) + [0]) <==> Harmless(text)
  {
    EntryMeans(text);
    MeansItselfExactly(text);
  }

  /** A backslash and an n in a text come out as one newline byte. */
  lemma BackslashIsReinterpreted()
    ensures DecodeAll(WithNul(Escape("\\n"))) == Some([10, 0])
    ensures Encode("\\n") + [0] == [92, 110, 0]
  {
    EntryMeans("\\n");
    MeaningOfCopied("\\n");
    assert "\\n"[2..] == "";
    assert [10] + [0] == [10, 0];
    EncodedPair('\\', 'n');
  }
}
