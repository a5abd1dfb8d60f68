/** Wrapping long literal segments over several lines (scripts/gen_i18n.py,
    format_cpp_string_literal), and when the joined lines still mean the same bytes. */
module I18nWrap {
  import opened Utf8
  import opened CppLiterals
  import opened I18nEscape

  const MAX_CONTENT_LEN := 113

  // ---------------------------------------------------------------------------------------
  // The lines.
  // ---------------------------------------------------------------------------------------

  function StepOver(s: string, i: nat): nat
    requires i < |s|
  {
    if s[i] == '\\' then i + 2 else i + 1
  }

  /** The last space met when stepping from i, whole escapes at a time, up to the limit. */
  function LastSpace(s: string, i: nat, best: int): int
    decreases MAX_CONTENT_LEN + 1 - i
  {
    if i <= MAX_CONTENT_LEN && i < |s| then LastSpace(s, StepOver(s, i), if s[i] == ' ' then i else best) else best
  }

  lemma {:induction false} LastSpaceIsSeen(s: string, i: nat, best: int)
    ensures var r := LastSpace(s, i, best); r == best || (i <= r <= MAX_CONTENT_LEN && r < |s| && s[r] == ' ')
    decreases MAX_CONTENT_LEN + 1 - i
  {
    if i <= MAX_CONTENT_LEN && i < |s| {
      LastSpaceIsSeen(s, StepOver(s, i), if s[i] == ' ' then i else best);
    }
  }

  /** Where an over-long segment is cut. */
  function CutPoint(s: string): (cut: nat)
    requires |s| > MAX_CONTENT_LEN
    ensures 0 < cut <= MAX_CONTENT_LEN + 1 && cut <= |s|
  {
    LastSpaceIsSeen(s, 0, -1);
    var space := LastSpace(s, 0, -1);
    if space != -1 then space + 1
    else if s[MAX_CONTENT_LEN - 1] == '\\' then MAX_CONTENT_LEN - 1
    else MAX_CONTENT_LEN
  }

  /** The lines of what remains of an over-long segment. */
  function Remainder(s: string): seq<string>
    decreases |s|
  {
    if |s| > MAX_CONTENT_LEN then [s[..CutPoint(s)]] + Remainder(s[CutPoint(s)..])
    else if s == "" then []
    else [s]
  }

  function Wrap(segment: string): seq<string> {
    if |segment| <= MAX_CONTENT_LEN then [segment] else Remainder(segment)
  }

  function Format(segments: seq<string>): seq<string> {
    if segments == [] then [] else Wrap(segments[0]) + Format(segments[1..])
  }

  method FindCut(current: string) returns (cut: nat)
    requires |current| > MAX_CONTENT_LEN
    ensures cut == CutPoint(current)
  {
    var lastSpace := -1;
    var idx := 0;
    while idx <= MAX_CONTENT_LEN && idx < |current|
      invariant -1 <= lastSpace <= MAX_CONTENT_LEN
      invariant LastSpace(current, idx, lastSpace) == LastSpace(current, 0, -1)
      decreases MAX_CONTENT_LEN + 1 - idx
    {
      if current[idx] == ' ' {
        lastSpace := idx;
      }
      if current[idx] == '\\' {
        idx := idx + 2;
      } else {
        idx := idx + 1;
      }
    }
    if lastSpace != -1 {
      cut := lastSpace + 1;
    } else {
      cut := MAX_CONTENT_LEN;
      if current[cut - 1] == '\\' {
        cut := cut - 1;
      }
    }
  }

  method FormatCppStringLiteral(segments: seq<string>) returns (lines: seq<string>)
    ensures lines == Format(segments)
  {
    lines := [];
    assert segments[0..] == segments;
    for k := 0 to |segments|
      invariant lines + Format(segments[k..]) == Format(segments)
    {
      var seg := segments[k];
      ghost var before := lines;
      assert segments[k..][0] == seg && segments[k..][1..] == segments[k + 1..];
      if |seg| <= MAX_CONTENT_LEN {
        lines := lines + [seg];
      } else {
        var current := seg;
        while |current| > MAX_CONTENT_LEN
          invariant lines + Remainder(current) == before + Remainder(seg)
          decreases |current|
        {
          var cut := FindCut(current);
          Regroup(lines, [current[..cut]], Remainder(current[cut..]));
          lines := lines + [current[..cut]];
          current := current[cut..];
        }
        if current != "" {
          lines := lines + [current];
        }
        assert lines == before + Remainder(seg);
      }
      Regroup(before, Wrap(seg), Format(segments[k + 1..]));
    }
  }

  // ---------------------------------------------------------------------------------------
  // Wrapping keeps the characters.
  // ---------------------------------------------------------------------------------------

  function Joined(lines: seq<string>): string {
    if lines == [] then "" else lines[0] + Joined(lines[1..])
  }

  lemma {:induction false} RemainderKeepsCharacters(s: string)
    ensures Joined(Remainder(s)) == s
    ensures forall i :: 0 <= i < |Remainder(s)| ==> 0 < |Remainder(s)[i]| <= MAX_CONTENT_LEN + 1
    decreases |s|
  {
    if |s| > MAX_CONTENT_LEN {
      RemainderKeepsCharacters(s[CutPoint(s)..]);
      assert s == s[..CutPoint(s)] + s[CutPoint(s)..];
    } else if s != "" {
      assert [s][1..] == [] && s + "" == s;
    }
  }

  lemma {:induction false} JoinedConcat(a: seq<string>, b: seq<string>)
    ensures Joined(a + b) == Joined(a) + Joined(b)
  {
    if a == [] {
      assert a + b == b;
    } else {
      assert (a + b)[1..] == a[1..] + b;
      JoinedConcat(a[1..], b);
    }
  }

  /** For every list of segments: the lines put end to end are the segments put end to end,
      and no line is longer than the limit and one space. */
  lemma {:induction false} WrappingKeepsCharacters(segments: seq<string>)
    ensures Joined(Format(segments)) == Joined(segments)
    ensures forall i :: 0 <= i < |Format(segments)| ==> |Format(segments)[i]| <= MAX_CONTENT_LEN + 1
  {
    if segments != [] {
      var seg := segments[0];
      WrappingKeepsCharacters(segments[1..]);
      RemainderKeepsCharacters(seg);
      JoinedConcat(Wrap(seg), Format(segments[1..]));
      assert [seg][1..] == [] && seg + "" == seg;
    }
  }

  // ---------------------------------------------------------------------------------------
  // Segments as tokens.
  // ---------------------------------------------------------------------------------------

  predicate IsHexEscape(s: string) {
    |s| == 4 && s[0] == '\\' && s[1] == 'x' && IsHex(s[2]) && IsHex(s[3])
  }

  /** Plain tokens, and at the end perhaps one hexadecimal escape or the separator. */
  predicate Segment(s: string)
    decreases |s|
  {
    s == "" || s == "\\0" || IsHexEscape(s) || (IsPair(s) && Segment(s[2..])) || (IsPlain(s[0]) && Segment(s[1..]))
  }

  /** k is the end of a plain token, or the beginning. */
  predicate Boundary(s: string, k: nat)
    decreases |s|
  {
    k == 0 || (k >= 2 && IsPair(s) && Boundary(s[2..], k - 2)) || (s != "" && IsPlain(s[0]) && Boundary(s[1..], k - 1))
  }

  lemma SliceAfter(s: string, d: nat, k: nat)
    requires d <= k <= |s|
    ensures s[..k][d..] == s[d..][..k - d] && s[d..][k - d..] == s[k..]
  {
  }

  lemma {:induction false} SplitAtBoundary(s: string, k: nat)
    requires Segment(s) && Boundary(s, k)
    ensures k <= |s| && Open(s[..k]) && Segment(s[k..])
    decreases |s|
  {
    if k == 0 {
      assert s[..0] == "" && s[0..] == s;
    } else {
      var d := if IsPair(s) then 2 else 1;
      assert Segment(s[d..]) && Boundary(s[d..], k - d);
      SplitAtBoundary(s[d..], k - d);
      hide Segment, Boundary;
      SliceAfter(s, d, k);
      assert s[..k][0] == s[0];
    }
  }

  lemma {:induction false} SegmentDecodes(s: string)
    requires Segment(s)
    ensures Decode(s).Some?
    decreases |s|
  {
    if s == "" {
    } else if s == "\\0" {
      NulDecodes();
    } else if IsHexEscape(s) {
      HexPairDecodes(s[2], s[3]);
      assert s == ['\\', 'x', s[2], s[3]];
    } else if IsPair(s) {
      SegmentDecodes(s[2..]);
    } else {
      SegmentDecodes(s[1..]);
    }
  }

  /** The tail that k is in the middle of, when k is not the end of a token. */
  lemma {:induction false} Straddle(s: string, k: nat)
    requires Segment(s) && k < |s|
    ensures Boundary(s, k)
         || (k >= 1 && Boundary(s, k - 1) && s[k - 1] == '\\')
         || (|s| >= 4 && |s| - 4 <= k && Boundary(s, |s| - 4) && IsHexEscape(s[|s| - 4..]))
    decreases |s|
  {
    if k == 0 || s == "\\0" {
    } else if IsHexEscape(s) {
      assert s[0..] == s;
    } else if IsPair(s) {
      if k >= 2 {
        Straddle(s[2..], k - 2);
        if |s| >= 6 {
          assert s[2..][|s| - 2 - 4..] == s[|s| - 4..];
        }
      }
    } else {
      Straddle(s[1..], k - 1);
      if |s| >= 5 {
        assert s[1..][|s| - 1 - 4..] == s[|s| - 4..];
      }
    }
  }

  lemma {:induction false} NextToken(s: string, i: nat)
    requires Segment(s) && Boundary(s, i) && i < |s|
    ensures (IsPlain(s[i]) && Boundary(s, i + 1))
         || (s[i] == '\\' && i + 2 <= |s| && s[i + 1] != ' ' && (Boundary(s, i + 2) || OnlyHexFrom(s, i + 2)))
    decreases |s|
  {
    if i == 0 {
    } else if IsPair(s) {
      NextToken(s[2..], i - 2);
      OnlyHexShift(s, 2, i);
    } else {
      NextToken(s[1..], i - 1);
      OnlyHexShift(s, 1, i + 1);
    }
  }

  predicate OnlyHexFrom(s: string, i: nat) {
    forall j :: i <= j < |s| ==> IsHex(s[j])
  }

  lemma OnlyHexShift(s: string, d: nat, i: nat)
    requires d <= |s|
    ensures OnlyHexFrom(s[d..], i) ==> OnlyHexFrom(s, i + d)
  {
    if OnlyHexFrom(s[d..], i) {
      forall j | i + d <= j < |s| ensures IsHex(s[j]) {
        assert s[j] == s[d..][j - d];
      }
    }
  }

  /** A backslash just before a boundary is the second of an escaped pair. */
  lemma {:induction false} BackslashBeforeBoundary(s: string, k: nat)
    requires Segment(s) && Boundary(s, k) && 1 <= k <= |s| && s[k - 1] == '\\'
    ensures k >= 2 && Boundary(s, k - 2) && s[k - 2] == '\\'
    decreases |s|
  {
    if IsPair(s) {
      if k > 2 {
        BackslashBeforeBoundary(s[2..], k - 2);
      }
    } else if k > 1 {
      BackslashBeforeBoundary(s[1..], k - 1);
    }
  }

  /** The scan steps token by token, so it misses no space and stops on no half of an escape. */
  lemma {:induction false} ScanFindsSpaces(s: string, i: nat, best: int)
    requires Segment(s) && best < i && (Boundary(s, i) || OnlyHexFrom(s, i))
    ensures var r := LastSpace(s, i, best);
      if r == best then forall j :: i <= j <= MAX_CONTENT_LEN && j < |s| ==> s[j] != ' '
      else 0 <= r < |s| && r <= MAX_CONTENT_LEN && s[r] == ' ' && Boundary(s, r + 1)
    decreases MAX_CONTENT_LEN + 1 - i
  {
    if i <= MAX_CONTENT_LEN && i < |s| {
      var best' := if s[i] == ' ' then i else best;
      if Boundary(s, i) {
        NextToken(s, i);
      }
      LastSpaceIsSeen(s, StepOver(s, i), best');
      ScanFindsSpaces(s, StepOver(s, i), best');
    }
  }

  // ---------------------------------------------------------------------------------------
  // Cuts that keep the meaning, and cuts that do not.
  // ---------------------------------------------------------------------------------------

  /** The second backslash of an escaped one is the last character before the limit. */
  predicate SplitsBackslash(s: string) {
    |s| > MAX_CONTENT_LEN && s[MAX_CONTENT_LEN - 1] == '\\' && Boundary(s, MAX_CONTENT_LEN)
  }

  /** The segment ends in a hexadecimal escape one or two characters past the limit. */
  predicate SplitsHex(s: string) {
    MAX_CONTENT_LEN < |s| <= MAX_CONTENT_LEN + 2 && Boundary(s, |s| - 4) && IsHexEscape(s[|s| - 4..])
  }

  predicate SafeCut(s: string)
    requires |s| > MAX_CONTENT_LEN
  {
    ' ' in s[..MAX_CONTENT_LEN + 1] || (!SplitsBackslash(s) && !SplitsHex(s))
  }

  predicate WrapSafe(s: string)
    decreases |s|
  {
    |s| <= MAX_CONTENT_LEN || (SafeCut(s) && WrapSafe(s[CutPoint(s)..]))
  }

  lemma SpaceDecidesCut(s: string)
    requires Segment(s) && |s| > MAX_CONTENT_LEN
    ensures if ' ' in s[..MAX_CONTENT_LEN + 1] then Boundary(s, CutPoint(s))
      else CutPoint(s) == if s[MAX_CONTENT_LEN - 1] == '\\' then MAX_CONTENT_LEN - 1 else MAX_CONTENT_LEN
  {
    ScanFindsSpaces(s, 0, -1);
    LastSpaceIsSeen(s, 0, -1);
    var r := LastSpace(s, 0, -1);
    if r != -1 {
      assert s[..MAX_CONTENT_LEN + 1][r] == ' ';
    }
  }

  lemma SafeCutIsBoundary(s: string)
    requires Segment(s) && |s| > MAX_CONTENT_LEN && SafeCut(s)
    ensures Boundary(s, CutPoint(s))
  {
    SpaceDecidesCut(s);
    if ' ' !in s[..MAX_CONTENT_LEN + 1] {
      Straddle(s, MAX_CONTENT_LEN);
      if |s| >= 4 && Boundary(s, |s| - 4) && IsHexEscape(s[|s| - 4..]) && |s| > MAX_CONTENT_LEN + 2 && |s| - 4 <= MAX_CONTENT_LEN {
        assert s[|s| - 4..][0] == s[|s| - 4];
      }
    }
  }

  lemma BrokenEscapes(a: char)
    requires IsHex(a)
    ensures Decode("\\") == None && Decode("\\x") == None && Decode(['\\', 'x', a]) == Some([HexValue(a)])
  {
    assert "\\x"[2..] == "";
    var s := ['\\', 'x', a];
    assert s[2..] == [a] && [a][1..] == "";
    assert HexRun([a]) == 1 + HexRun("");
    assert s[2..2 + 1] == [a] && s[2 + 1..] == "";
    assert [a][..0] == "";
    assert HexNumber([a]) == HexValue(a);
    BothUnit(Some([HexValue(a)]));
  }

  /** Refused by the compiler, or longer than it should be. */
  predicate Worse(a: Bytes, b: Bytes) {
    b.Some? && (a.None? || |a.value| > |b.value|)
  }

  lemma CutDecodes(s: string, k: nat, cut: nat)
    requires Segment(s) && Boundary(s, k) && k <= cut <= |s|
    ensures k <= |s| && Decode(s[..cut]) == Both(Decode(s[..k]), Decode(s[k..cut])) && Decode(s[..k]).Some?
    ensures Decode(s) == Both(Decode(s[..k]), Decode(s[k..]))
  {
    hide Decode, Segment, Boundary, Open;
    SplitAtBoundary(s, k);
    DecodeAfterOpen(s[..k], s[k..cut]);
    DecodeAfterOpen(s[..k], s[k..]);
    assert s[..k] + s[k..cut] == s[..cut] && s[..k] + s[k..] == s;
  }

  lemma UnsafeCutIsWorse(s: string)
    requires Segment(s) && |s| > MAX_CONTENT_LEN && !SafeCut(s)
    ensures Worse(DecodeAll(Remainder(s)), Decode(s))
  {
    SpaceDecidesCut(s);
    if SplitsBackslash(s) {
      BackslashSplitIsWorse(s);
    } else {
      HexSplitIsWorse(s);
    }
  }

  lemma BackslashSplitIsWorse(s: string)
    requires Segment(s) && SplitsBackslash(s) && CutPoint(s) == MAX_CONTENT_LEN - 1
    ensures Worse(DecodeAll(Remainder(s)), Decode(s))
  {
    hide Decode, Segment, Boundary;
    SegmentDecodes(s);
    BackslashBeforeBoundary(s, MAX_CONTENT_LEN);
    BrokenEscapes('0');
    var cut := CutPoint(s);
    CutDecodes(s, MAX_CONTENT_LEN - 2, cut);
    assert s[MAX_CONTENT_LEN - 2..cut] == "\\";
    assert Remainder(s)[0] == s[..cut] && Remainder(s)[1..] == Remainder(s[cut..]);
  }

  lemma HexSplitIsWorse(s: string)
    requires Segment(s) && SplitsHex(s) && CutPoint(s) == if s[MAX_CONTENT_LEN - 1] == '\\' then MAX_CONTENT_LEN - 1 else MAX_CONTENT_LEN
    ensures Worse(DecodeAll(Remainder(s)), Decode(s))
  {
    hide Decode, Segment, Boundary;
    var k := |s| - 4;
    var e := s[k..];
    assert e == ['\\', 'x', e[2], e[3]] && s[MAX_CONTENT_LEN - 1] == e[MAX_CONTENT_LEN - 1 - k];
    var cut := CutPoint(s);
    assert cut == MAX_CONTENT_LEN;
    HexPairDecodes(e[2], e[3]);
    BrokenEscapes(e[2]);
    CutDecodes(s, k, cut);
    assert Remainder(s)[0] == s[..cut] && Remainder(s)[1..] == Remainder(s[cut..]);
    if |s| == MAX_CONTENT_LEN + 2 {
      assert s[k..cut] == "\\x";
    } else {
      assert s[k..cut] == ['\\', 'x', e[2]] && s[cut..] == [e[3]];
      PlainDecodes(e[3]);
      DecodeOne([e[3]]);
      assert Remainder([e[3]]) == [[e[3]]];
    }
  }

  /** For every segment: wrapping keeps its bytes when every cut is safe, and otherwise the
      lines are refused or carry more bytes. */
  lemma {:induction false} RemainderMeans(s: string)
    requires Segment(s)
    ensures if WrapSafe(s) then DecodeAll(Remainder(s)) == Decode(s) else Worse(DecodeAll(Remainder(s)), Decode(s))
    decreases |s|
  {
    if |s| <= MAX_CONTENT_LEN {
      DecodeOne(s);
    } else if SafeCut(s) {
      var cut := CutPoint(s);
      SafeCutIsBoundary(s);
      SplitAtBoundary(s, cut);
      CutDecodes(s, cut, cut);
      RemainderMeans(s[cut..]);
      assert Remainder(s)[0] == s[..cut] && Remainder(s)[1..] == Remainder(s[cut..]);
      SegmentDecodes(s);
    } else {
      UnsafeCutIsWorse(s);
    }
  }

  predicate AllSegments(segments: seq<string>) {
    segments == [] || (Segment(segments[0]) && AllSegments(segments[1..]))
  }

  predicate AllWrapSafe(segments: seq<string>) {
    segments == [] || (WrapSafe(segments[0]) && AllWrapSafe(segments[1..]))
  }

  lemma {:induction false} FormatMeans(segments: seq<string>)
    requires AllSegments(segments)
    ensures DecodeAll(segments).Some?
    ensures if AllWrapSafe(segments) then DecodeAll(Format(segments)) == DecodeAll(segments)
      else Worse(DecodeAll(Format(segments)), DecodeAll(segments))
  {
    if segments != [] {
      var seg := segments[0];
      FormatMeans(segments[1..]);
      SegmentDecodes(seg);
      RemainderMeans(seg);
      DecodeOne(seg);
      DecodeAllConcat(Wrap(seg), Format(segments[1..]));
    }
  }

  /** For every list of segments: the wrapped lines mean the same bytes exactly when no cut
      falls inside an escape. */
  lemma WrappingKeepsMeaningExactly(segments: seq<string>)
    requires AllSegments(segments)
    ensures DecodeAll(Format(segments)) == DecodeAll(segments) <==> AllWrapSafe(segments)
  {
    FormatMeans(segments);
  }

  // ---------------------------------------------------------------------------------------
  // Whole entries.
  // ---------------------------------------------------------------------------------------

  /** No backslash ends the text, and what looks like a hexadecimal escape is one. */
  predicate Tame(s: string)
    decreases |s|
  {
    s == "" ||
    if s[0] != '\\' then Tame(s[1..])
    else if |s| == 1 then false
    else if Copied(s[1]) then Tame(s[2..])
    else if s[1] == 'x' && |s| > 3 then IsHexEscape(s[..4]) && Tame(s[4..])
    else Tame(s[1..])
  }

  lemma {:induction false} HarmlessIsTame(t: string)
    requires Harmless(t)
    ensures Tame(ReplaceNewlines(t))
  {
    if t != "" {
      HarmlessIsTame(t[1..]);
      ReplaceHead(t);
      if t[0] == '\\' {
        ReplaceTwo(t);
      }
    }
  }

  lemma {:induction false} OpenThenTail(current: string, tail: string)
    requires Open(current) && Segment(tail)
    ensures Segment(current + tail)
    decreases |current|
  {
    if current == "" {
      assert current + tail == tail;
    } else if IsPair(current) {
      assert (current + tail)[2..] == current[2..] + tail;
      OpenThenTail(current[2..], tail);
    } else {
      assert (current + tail)[1..] == current[1..] + tail;
      OpenThenTail(current[1..], tail);
    }
  }

  lemma {:induction false} AllSegmentsConcat(a: seq<string>, b: seq<string>)
    requires AllSegments(a) && AllSegments(b)
    ensures AllSegments(a + b)
  {
    if a == [] {
      assert a + b == b;
    } else {
      assert (a + b)[1..] == a[1..] + b;
      AllSegmentsConcat(a[1..], b);
    }
  }

  lemma {:induction false} HexEscapesAreSegments(bytes: seq<byte>)
    ensures AllSegments(HexEscapes(bytes))
  {
    if bytes != [] {
      HexEscapesAreSegments(bytes[1..]);
      assert HexEscapes(bytes)[1..] == HexEscapes(bytes[1..]);
      assert IsHexEscape(HexEscape(bytes[0]));
    }
  }

  lemma BytesAreSegments(current: string, bytes: seq<byte>)
    requires Open(current) && bytes != []
    ensures AllSegments(IntoFirst(current, HexEscapes(bytes)))
  {
    var hexes := HexEscapes(bytes);
    HexEscapesAreSegments(bytes);
    OpenThenTail(current, hexes[0]);
    assert IntoFirst(current, hexes)[1..] == hexes[1..];
  }

  lemma {:induction false} EscapeGivesSegments(s: string, current: string)
    requires Open(current) && Tame(s) && NEWLINE !in s
    ensures AllSegments(WithNul(EscapeFrom(s, current)))
    decreases |s|
  {
    hide Segment, Open, Decode, WithNul;
    if s == "" {
      OpenThenTail(current, "\\0") by { SegmentNul(); }
      SingleSegment(current);
    } else if s[0] == '\\' {
      if Copied(s[1]) {
        PairDecodes(s[1]);
        assert s[..2] == ['\\', s[1]];
        OpenConcat(current, s[..2]);
        EscapeGivesSegments(s[2..], current + s[..2]);
      } else if s[1] == 'x' && |s| > 3 {
        HexTail(s[..4]);
        OpenThenTail(current, s[..4]);
        EmptyIsOpen();
        EscapeGivesSegments(s[4..], "");
        WithNulTail([current + s[..4]], EscapeFrom(s[4..], ""));
        AllSegmentsConcat([current + s[..4]], WithNul(EscapeFrom(s[4..], "")));
      } else {
        PairDecodes('\\');
        OpenConcat(current, "\\\\");
        EscapeGivesSegments(s[1..], current + "\\\\");
      }
    } else if s[0] == '"' {
      PairDecodes('"');
      OpenConcat(current, "\\\"");
      EscapeGivesSegments(s[1..], current + "\\\"");
    } else if s[0] as int < 128 {
      PlainDecodes(s[0]);
      assert s[..1] == [s[0]];
      OpenConcat(current, s[..1]);
      EscapeGivesSegments(s[1..], current + s[..1]);
    } else {
      EmptyIsOpen();
      EscapeGivesSegments(s[1..], "");
      BytesAreSegments(current, EncodeChar(s[0]));
      WithNulTail(IntoFirst(current, HexEscapes(EncodeChar(s[0]))), EscapeFrom(s[1..], ""));
      AllSegmentsConcat(IntoFirst(current, HexEscapes(EncodeChar(s[0]))), WithNul(EscapeFrom(s[1..], "")));
    }
  }

  lemma SegmentNul()
    ensures Segment("\\0")
  {
  }

  lemma EmptyIsOpen()
    ensures Open("")
  {
  }

  lemma HexTail(s: string)
    requires IsHexEscape(s)
    ensures Segment(s)
  {
  }

  lemma SingleSegment(current: string)
    requires Segment(current + "\\0")
    ensures AllSegments(WithNul([current]))
  {
    assert WithNul([current]) == [current + "\\0"];
  }

  /** The content of the lines printed for a text and its separator. */
  function EntryLines(text: string): seq<string> {
    Format(WithNul(Escape(text)))
  }

  method AppendStringDataEntry(lines: seq<string>, text: string) returns (lines': seq<string>)
    ensures lines' == lines + EntryLines(text)
  {
    var segments := EscapeCppString(text);
    var last := segments[|segments| - 1];
    assert "" + "\\0" == "\\0";
    if last != "" {
      segments := segments[..|segments| - 1] + [last + "\\0"];
    } else {
      segments := segments[..|segments| - 1] + ["\\0"];
    }
    var formatted := FormatCppStringLiteral(segments);
    lines' := lines + formatted;
  }

  /** For every text whose backslashes are harmless: the printed lines read back as its UTF-8
      bytes and one NUL exactly when no cut falls inside an escape. */
  lemma HarmlessEntryRoundTrips(text: string)
    requires Harmless(text)
    ensures DecodeAll(EntryLines(text)) == Some(Encode(text) + [0]) <==> AllWrapSafe(WithNul(Escape(text)))
  {
    EntryRoundTrips(text);
    HarmlessIsTame(text);
    NewlinesAreGone(text);
    EscapeGivesSegments(ReplaceNewlines(text), "");
    assert EscapeFrom("", "") == [""];
    WrappingKeepsMeaningExactly(WithNul(Escape(text)));
  }

  /** Every remainder too long for a line has a space among its first 114 characters. */
  predicate SpacedOut(s: string)
    decreases |s|
  {
    |s| <= MAX_CONTENT_LEN || (' ' in s[..MAX_CONTENT_LEN + 1] && SpacedOut(s[CutPoint(s)..]))
  }

  predicate AllSpacedOut(segments: seq<string>) {
    segments == [] || (SpacedOut(segments[0]) && AllSpacedOut(segments[1..]))
  }

  lemma {:induction false} SpacedOutIsSafe(s: string)
    requires SpacedOut(s)
    ensures WrapSafe(s)
    decreases |s|
  {
    if |s| > MAX_CONTENT_LEN {
      SpacedOutIsSafe(s[CutPoint(s)..]);
    }
  }

  lemma {:induction false} AllSpacedOutAreSafe(segments: seq<string>)
    requires AllSpacedOut(segments)
    ensures AllWrapSafe(segments)
  {
    if segments != [] {
      SpacedOutIsSafe(segments[0]);
      AllSpacedOutAreSafe(segments[1..]);
    }
  }

  /** A backslash-free text whose long remainders have spaces is printed without loss. */
  lemma SpacedTextRoundTrips(text: string)
    requires '\\' !in text && AllSpacedOut(WithNul(Escape(text)))
    ensures DecodeAll(EntryLines(text)) == Some(Encode(text) + [0])
  {
    BackslashFreeIsHarmless(text);
    AllSpacedOutAreSafe(WithNul(Escape(text)));
    HarmlessEntryRoundTrips(text);
  }

  /** In a text without spaces the first letter outside ASCII, at position 110, is cut apart. */
  lemma ForcedCutSplitsHex(text: string)
    requires |text| == MAX_CONTENT_LEN - 2 && text[|text| - 1] as int >= 0x80
    requires forall i :: 0 <= i < |text| - 1 ==> IsPlain(text[i]) && text[i] != ' ' && text[i] as int < 128
    ensures Harmless(text) && DecodeAll(EntryLines(text)) != Some(Encode(text) + [0])
  {
    hide WrapSafe, Escape, Decode, DecodeAll, Format, Harmless, Encode, EncodeChar;
    BackslashFreeIsHarmless(text);
    HarmlessEntryRoundTrips(text);
    var hex := HexEscapes(EncodeChar(text[|text| - 1]))[0];
    FirstSegment(text);
    UnsafeFirstSegment(text[..|text| - 1], hex);
    assert WithNul(Escape(text))[0] == Escape(text)[0];
  }

  lemma FirstSegment(text: string)
    requires text != "" && text[|text| - 1] as int >= 0x80
    requires forall i :: 0 <= i < |text| - 1 ==> IsPlain(text[i]) && text[i] as int < 128
    ensures |Escape(text)| > 1
    ensures Escape(text)[0] == text[..|text| - 1] + HexEscapes(EncodeChar(text[|text| - 1]))[0]
  {
    var head, last := text[..|text| - 1], text[|text| - 1];
    assert text == head + [last] && "" + head == head;
    NoNewlineNoChange(text);
    AsciiStaysInSegment(head, [last], "");
    assert [last][1..] == "";
  }

  lemma UnsafeFirstSegment(head: string, hex: string)
    requires |head| == MAX_CONTENT_LEN - 3 && IsHexEscape(hex)
    requires forall i :: 0 <= i < |head| ==> IsPlain(head[i]) && head[i] != ' '
    ensures !WrapSafe(head + hex)
  {
    var first := head + hex;
    PlainPrefix(head, hex);
    assert first[..MAX_CONTENT_LEN + 1] == first;
    assert first[|first| - 4..] == hex;
  }

  lemma {:induction false} AsciiStaysInSegment(head: string, rest: string, current: string)
    requires forall i :: 0 <= i < |head| ==> IsPlain(head[i]) && head[i] as int < 128
    ensures EscapeFrom(head + rest, current) == EscapeFrom(rest, current + head)
  {
    if head == "" {
      assert head + rest == rest && current + head == current;
    } else {
      AsciiStaysInSegment(head[1..], rest, current + head[..1]);
      assert (head + rest)[1..] == head[1..] + rest && (head + rest)[..1] == head[..1];
      assert (current + head[..1]) + head[1..] == current + head;
    }
  }

  lemma {:induction false} NoNewlineNoChange(s: string)
    requires NEWLINE !in s
    ensures ReplaceNewlines(s) == s
  {
    if s != "" {
      NoNewlineNoChange(s[1..]);
    }
  }

  lemma {:induction false} PlainPrefix(head: string, tail: string)
    requires forall i :: 0 <= i < |head| ==> IsPlain(head[i])
    ensures Boundary(head + tail, |head|)
  {
    if head != "" {
      PlainPrefix(head[1..], tail);
      assert (head + tail)[1..] == head[1..] + tail;
    }
  }
}
