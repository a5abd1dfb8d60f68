/** Glyph lookup, ligatures and text measurement (lib/EpdFont/EpdFont.cpp, EpdFontData.h). */
module EpdFont {

  datatype Option<+T> = None | Some(value: T)

  datatype Glyph = Glyph(width: nat, height: nat, advanceX: nat, left: int, top: int)

  datatype Interval = Interval(first: nat, last: nat, offset: nat)

  datatype KernClassEntry = KernClassEntry(codepoint: nat, classId: nat)

  /** pair is left codepoint << 16 | right codepoint. */
  datatype LigaturePair = LigaturePair(pair: nat, ligatureCp: nat)

  /** The font tables; onMiss answers for glyphs loaded on demand, None for all without a handler. */
  datatype Font = Font(
    glyph: seq<Glyph>, intervals: seq<Interval>, onMiss: nat -> Option<Glyph>,
    kernLeft: seq<KernClassEntry>, kernRight: seq<KernClassEntry>, kernMatrix: seq<int>, kernRightCount: nat,
    ligatures: seq<LigaturePair>)

  const REPLACEMENT_GLYPH := 0xFFFD

  // ---------------------------------------------------------------------------------------
  // Table lookups.
  // ---------------------------------------------------------------------------------------

  predicate IntervalsSorted(f: Font) {
    && (forall i, j :: 0 <= i < j < |f.intervals| ==> f.intervals[i].last < f.intervals[j].first)
    && (forall i :: 0 <= i < |f.intervals| ==>
          f.intervals[i].first <= f.intervals[i].last &&
          f.intervals[i].offset + (f.intervals[i].last - f.intervals[i].first) < |f.glyph|)
  }

  predicate ClassesSorted(entries: seq<KernClassEntry>) {
    forall i, j :: 0 <= i < j < |entries| ==> entries[i].codepoint < entries[j].codepoint
  }

  predicate LigaturesSorted(pairs: seq<LigaturePair>) {
    forall i, j :: 0 <= i < j < |pairs| ==> pairs[i].pair < pairs[j].pair
  }

  /** Every pair of classes has its cell. */
  predicate MatrixCovers(f: Font) {
    f.kernMatrix != [] ==>
      forall l, r :: 0 <= l < |f.kernLeft| && 0 <= r < |f.kernRight| && f.kernLeft[l].classId > 0 && f.kernRight[r].classId > 0 ==>
        0 <= (f.kernLeft[l].classId - 1) * f.kernRightCount + (f.kernRight[r].classId - 1) < |f.kernMatrix|
  }

  ghost predicate Valid(f: Font) {
    IntervalsSorted(f) && ClassesSorted(f.kernLeft) && ClassesSorted(f.kernRight) && MatrixCovers(f) && LigaturesSorted(f.ligatures)
  }

  /** std::upper_bound on `first`: how many intervals start at or before cp. */
  function UpperBound(intervals: seq<Interval>, cp: nat): (i: nat)
    ensures i <= |intervals|
    ensures forall k :: 0 <= k < i ==> intervals[k].first <= cp
    ensures i < |intervals| ==> cp < intervals[i].first
  {
    if intervals == [] || cp < intervals[0].first then 0
    else
      var i := UpperBound(intervals[1..], cp);
      assert forall k :: 1 <= k < |intervals| ==> intervals[k] == intervals[1..][k - 1];
      i + 1
  }

  function GetGlyph(f: Font, cp: nat): Option<Glyph>
    requires IntervalsSorted(f)
    decreases if cp == REPLACEMENT_GLYPH then 0 else 1
  {
    var it := UpperBound(f.intervals, cp);
    if it != 0 && cp <= f.intervals[it - 1].last then
      Some(f.glyph[f.intervals[it - 1].offset + (cp - f.intervals[it - 1].first)])
    else if f.onMiss(cp).Some? then f.onMiss(cp)
    else if cp != REPLACEMENT_GLYPH then GetGlyph(f, REPLACEMENT_GLYPH)
    else None
  }

  /** The interval search finds the one interval that holds cp, exactly when there is one. */
  lemma GlyphOfInterval(f: Font, cp: nat)
    requires IntervalsSorted(f)
    ensures forall i :: 0 <= i < |f.intervals| && f.intervals[i].first <= cp <= f.intervals[i].last ==>
      GetGlyph(f, cp) == Some(f.glyph[f.intervals[i].offset + (cp - f.intervals[i].first)])
    ensures (forall i :: 0 <= i < |f.intervals| ==> !(f.intervals[i].first <= cp <= f.intervals[i].last)) ==>
      GetGlyph(f, cp) == if f.onMiss(cp).Some? then f.onMiss(cp)
                         else if cp == REPLACEMENT_GLYPH then None
                         else GetGlyph(f, REPLACEMENT_GLYPH)
  {
    var it := UpperBound(f.intervals, cp);
    forall i | 0 <= i < |f.intervals| && f.intervals[i].first <= cp <= f.intervals[i].last
      ensures i == it - 1
    {
      IntervalsApart(f, i, it - 1);
      IntervalsApart(f, it, i);
    }
  }

  lemma IntervalsApart(f: Font, i: int, j: int)
    requires IntervalsSorted(f)
    ensures 0 <= i < j < |f.intervals| ==> f.intervals[i].last < f.intervals[j].first
  {
  }

  /** std::lower_bound and the equality check after it. */
  function KernClass(entries: seq<KernClassEntry>, cp: nat): nat {
    if entries == [] || cp > 0xFFFF || cp < entries[0].codepoint then 0
    else if entries[0].codepoint == cp then entries[0].classId
    else KernClass(entries[1..], cp)
  }

  lemma {:induction false} KernClassFinds(entries: seq<KernClassEntry>, cp: nat)
    ensures KernClass(entries, cp) != 0 ==> KernClassEntry(cp, KernClass(entries, cp)) in entries
  {
    if KernClass(entries, cp) != 0 && entries[0].codepoint != cp {
      KernClassFinds(entries[1..], cp);
    }
  }

  /** In a sorted table the search is exact: a listed codepoint gets its class, any other class 0. */
  lemma {:induction false} KernClassIsListed(entries: seq<KernClassEntry>, cp: nat)
    requires ClassesSorted(entries) && cp <= 0xFFFF
    ensures forall i :: 0 <= i < |entries| && entries[i].codepoint == cp ==> KernClass(entries, cp) == entries[i].classId
    ensures (forall i :: 0 <= i < |entries| ==> entries[i].codepoint != cp) ==> KernClass(entries, cp) == 0
  {
    if entries != [] && entries[0].codepoint < cp {
      KernClassIsListed(entries[1..], cp);
      assert forall i :: 1 <= i < |entries| ==> entries[i] == entries[1..][i - 1];
    }
  }

  predicate IsCjkBreakable(cp: nat) {
    || 0x1100 <= cp <= 0x11FF || 0x3000 <= cp <= 0x303F || 0x3040 <= cp <= 0x309F || 0x30A0 <= cp <= 0x30FF
    || 0x3130 <= cp <= 0x318F || 0x3400 <= cp <= 0x4DBF || 0x4E00 <= cp <= 0x9FFF || 0xAC00 <= cp <= 0xD7AF
    || 0xD7B0 <= cp <= 0xD7FF || 0xF900 <= cp <= 0xFAFF || 0xFE30 <= cp <= 0xFE4F || 0xFF01 <= cp <= 0xFF60
    || 0xFF65 <= cp <= 0xFFEF || 0x20000 <= cp <= 0x2A6DF || 0x2A700 <= cp <= 0x2B73F
  }

  function GetKerning(f: Font, left: nat, right: nat): int
    requires MatrixCovers(f)
  {
    if IsCjkBreakable(left) || IsCjkBreakable(right) || f.kernMatrix == [] then 0
    else
      var lc, rc := KernClass(f.kernLeft, left), KernClass(f.kernRight, right);
      if lc == 0 || rc == 0 then 0
      else
        KernClassFinds(f.kernLeft, left);
        KernClassFinds(f.kernRight, right);
        f.kernMatrix[(lc - 1) * f.kernRightCount + (rc - 1)]
  }

  function LookupLigature(pairs: seq<LigaturePair>, key: nat): nat {
    if pairs == [] || key < pairs[0].pair then 0
    else if pairs[0].pair == key then pairs[0].ligatureCp
    else LookupLigature(pairs[1..], key)
  }

  function GetLigature(f: Font, left: nat, right: nat): nat {
    if left > 0xFFFF || right > 0xFFFF then 0 else LookupLigature(f.ligatures, left * 0x10000 + right)
  }

  lemma {:induction false} LookupFinds(pairs: seq<LigaturePair>, key: nat)
    requires LigaturesSorted(pairs)
    ensures forall i :: 0 <= i < |pairs| && pairs[i].pair == key ==> LookupLigature(pairs, key) == pairs[i].ligatureCp
    ensures (forall i :: 0 <= i < |pairs| ==> pairs[i].pair != key) ==> LookupLigature(pairs, key) == 0
  {
    if pairs != [] && pairs[0].pair < key {
      LookupFinds(pairs[1..], key);
      assert forall i :: 1 <= i < |pairs| ==> pairs[i] == pairs[1..][i - 1];
    }
  }

  /** The packed key loses nothing: a ligature is found for a pair exactly when the table lists it. */
  lemma LigatureOfPair(f: Font, left: nat, right: nat, l: nat, r: nat, cp: nat)
    requires LigaturesSorted(f.ligatures) && l <= 0xFFFF && r <= 0xFFFF && cp != 0
    requires left <= 0xFFFF && right <= 0xFFFF
    ensures GetLigature(f, l, r) == cp <==> LigaturePair(l * 0x10000 + r, cp) in f.ligatures
    ensures left * 0x10000 + right == l * 0x10000 + r <==> left == l && right == r
  {
    LookupFinds(f.ligatures, l * 0x10000 + r);
  }

  // ---------------------------------------------------------------------------------------
  // Ligatures.
  // ---------------------------------------------------------------------------------------

  /** cp and the codepoints `used` after it merge, pair by pair, into result. */
  predicate MergesTo(f: Font, cp: nat, used: seq<nat>, result: nat)
    decreases |used|
  {
    if used == [] then result == cp
    else GetLigature(f, cp, used[0]) != 0 && MergesTo(f, GetLigature(f, cp, used[0]), used[1..], result)
  }

  /** No further pair ligates: the text is over or its next codepoint does not join. */
  predicate Stops(f: Font, cp: nat, rest: seq<nat>) {
    rest == [] || GetLigature(f, cp, rest[0]) == 0
  }

  /** How many codepoints the greedy loop takes, and the codepoint it ends with. */
  function Ligated(f: Font, cp: nat, text: seq<nat>): (r: (nat, nat))
    ensures r.1 <= |text|
    decreases |text|
  {
    if Stops(f, cp, text) then (cp, 0)
    else
      var (c, n) := Ligated(f, GetLigature(f, cp, text[0]), text[1..]);
      (c, n + 1)
  }

  lemma {:induction false} LigatedMerges(f: Font, cp: nat, text: seq<nat>)
    ensures var (c, n) := Ligated(f, cp, text); MergesTo(f, cp, text[..n], c) && Stops(f, c, text[n..])
    decreases |text|
  {
    if !Stops(f, cp, text) {
      var lig := GetLigature(f, cp, text[0]);
      LigatedMerges(f, lig, text[1..]);
      var (c, n) := Ligated(f, lig, text[1..]);
      assert text[..n + 1][1..] == text[1..][..n];
      assert text[n + 1..] == text[1..][n..];
    }
  }

  /** Merging and stopping fix the outcome: the loop consumes exactly what it merged, once. */
  lemma {:induction false} LigatedIsUnique(f: Font, cp: nat, text: seq<nat>, c: nat, n: nat)
    requires n <= |text| && MergesTo(f, cp, text[..n], c) && Stops(f, c, text[n..])
    ensures Ligated(f, cp, text) == (c, n)
    decreases |text|
  {
    if n > 0 {
      assert text[..n][1..] == text[1..][..n - 1];
      assert text[1..][n - 1..] == text[n..];
      LigatedIsUnique(f, GetLigature(f, cp, text[0]), text[1..], c, n - 1);
    }
  }

  method ApplyLigatures(f: Font, cp: nat, text: seq<nat>, pos: nat) returns (c: nat, pos': nat)
    requires pos <= |text|
    ensures pos <= pos' <= |text|
    ensures (c, pos' - pos) == Ligated(f, cp, text[pos..])
  {
    c, pos' := cp, pos;
    LigatedMerges(f, cp, text[pos..]);
    if f.ligatures == [] {
      return;
    }
    while pos' < |text|
      invariant pos <= pos' <= |text|
      invariant var (d, n) := Ligated(f, c, text[pos'..]); Ligated(f, cp, text[pos..]) == (d, n + pos' - pos)
    {
      var lig := GetLigature(f, c, text[pos']);
      assert text[pos'..][1..] == text[pos' + 1..];
      if lig == 0 {
        return;
      }
      c := lig;
      pos' := pos' + 1;
    }
  }

  // ---------------------------------------------------------------------------------------
  // Fixed point and combining marks.
  // ---------------------------------------------------------------------------------------

  /** (fp + 8) >> 4: round to the nearest pixel, halves up. */
  function ToPixel(fp: int): int {
    (fp + 8) / 16
  }

  predicate IsCombiningMark(cp: nat) {
    0x0300 <= cp <= 0x036F || 0x1DC0 <= cp <= 0x1DFF || 0x20D0 <= cp <= 0x20FF || 0xFE20 <= cp <= 0xFE2F
  }

  datatype Anchor = CenterRaised | CenterNative | RightNative | LeftNative

  function AnchorFor(cp: nat): Anchor {
    match cp
    case 0x05BC => CenterNative
    case 0x05BA => CenterNative
    case 0x05C1 => RightNative
    case 0x05B9 => LeftNative
    case 0x05C2 => LeftNative
    case _ => CenterRaised
  }

  function AnchorShift(anchor: Anchor, baseWidth: nat, markWidth: nat): int {
    match anchor
    case LeftNative => 0
    case RightNative => baseWidth - markWidth
    case _ => baseWidth / 2 - markWidth / 2
  }

  function AnchorOver(anchor: Anchor, cursor: int, baseLeft: int, baseWidth: nat, markLeft: int, markWidth: nat): int {
    cursor + baseLeft + AnchorShift(anchor, baseWidth, markWidth) - markLeft
  }

  function RaiseAboveBase(anchor: Anchor, markTop: int, markHeight: nat, baseTop: int): int {
    if anchor != CenterRaised || markTop - markHeight <= 0 then 0
    else
      var gap := markTop - markHeight - baseTop;
      if gap < 1 then 1 - gap else 0
  }

  // ---------------------------------------------------------------------------------------
  // Layout: what is placed where.
  // ---------------------------------------------------------------------------------------

  /** The loop's state: the last base glyph and the advance still to be spent. */
  datatype Pen = Pen(x: int, left: int, width: nat, top: int, advance: int, prevCp: nat)

  /** A base without any glyph leaves a gap: the pending advance is spent, nothing is drawn. */
  datatype Item = Base(x: int, y: int, cp: nat, glyph: Glyph) | Mark(x: int, y: int, glyph: Glyph) | Gap(x: int)

  function Start(x: int): Pen {
    Pen(x, 0, 0, 0, 0, 0)
  }

  /** One turn of the loop: the codepoints it takes, the pen after it, and what it placed. */
  datatype Turn = Turn(taken: nat, pen: Pen, items: seq<Item>)

  function TakeTurn(f: Font, pen: Pen, text: seq<nat>, startY: int): (t: Turn)
    requires Valid(f) && text != []
    ensures 1 <= t.taken <= |text| && |t.items| <= 1
  {
    if IsCombiningMark(text[0]) then
      var g := GetGlyph(f, text[0]);
      if g.None? then Turn(1, pen, [])
      else
        var a := AnchorFor(text[0]);
        var x := AnchorOver(a, pen.x, pen.left, pen.width, g.value.left, g.value.width);
        Turn(1, pen, [Mark(x, startY - RaiseAboveBase(a, g.value.top, g.value.height, pen.top), g.value)])
    else
      var (cp, n) := Ligated(f, text[0], text[1..]);
      var g := GetGlyph(f, cp);
      if g.None? then
        var x := pen.x + ToPixel(pen.advance);
        Turn(n + 1, Start(x), [Gap(x)])
      else
        var x := pen.x + if pen.prevCp != 0 then ToPixel(pen.advance + GetKerning(f, pen.prevCp, cp)) else 0;
        Turn(n + 1, Pen(x, g.value.left, g.value.width, g.value.top, g.value.advanceX, cp), [Base(x, startY, cp, g.value)])
  }

  function Layout(f: Font, pen: Pen, text: seq<nat>, startY: int): seq<Item>
    requires Valid(f)
    decreases |text|
  {
    if text == [] then []
    else
      var t := TakeTurn(f, pen, text, startY);
      t.items + Layout(f, t.pen, text[t.taken..], startY)
  }

  datatype Box = Box(minX: int, minY: int, maxX: int, maxY: int)

  function Min(a: int, b: int): int {
    if b < a then b else a
  }

  function Max(a: int, b: int): int {
    if b > a then b else a
  }

  function BoxOf(i: Item): Box
    requires !i.Gap?
  {
    Box(i.x + i.glyph.left, i.y + i.glyph.top - i.glyph.height, i.x + i.glyph.left + i.glyph.width, i.y + i.glyph.top)
  }

  function GrowBy(b: Box, i: Item): Box {
    if i.Gap? then b
    else
      var box := BoxOf(i);
      Box(Min(b.minX, box.minX), Min(b.minY, box.minY), Max(b.maxX, box.maxX), Max(b.maxY, box.maxY))
  }

  function Grow(b: Box, items: seq<Item>): Box
    decreases |items|
  {
    if items == [] then b
    else Grow(GrowBy(b, items[0]), items[1..])
  }

  /** One turn: the next base with its ligatures, or the next mark, placed and measured. */
  method MeasureNext(f: Font, text: seq<nat>, pos: nat, pen: Pen, box: Box, startY: int)
    returns (pos': nat, pen': Pen, box': Box)
    requires Valid(f) && pos < |text|
    ensures var t := TakeTurn(f, pen, text[pos..], startY);
      pos' == pos + t.taken && pen' == t.pen && box' == Grow(box, t.items)
  {
    hide Ligated, Stops, GetGlyph, GetKerning, AnchorFor, AnchorOver, RaiseAboveBase;
    assert text[pos..][1..] == text[pos + 1..];
    assert forall i: Item :: Grow(box, [i]) == GrowBy(box, i);
    pen', box' := pen, box;
    var cp := text[pos];
    pos' := pos + 1;
    var isCombining := IsCombiningMark(cp);
    if !isCombining {
      cp, pos' := ApplyLigatures(f, cp, text, pos');
    }
    var g := GetGlyph(f, cp);
    if g.None? {
      if !isCombining {
        pen' := Pen(pen.x + ToPixel(pen.advance), 0, 0, 0, 0, 0);
      }
      return;
    }
    var glyph := g.value;
    var anchor := AnchorFor(cp);
    var raiseBy := if isCombining then RaiseAboveBase(anchor, glyph.top, glyph.height, pen.top) else 0;
    if !isCombining && pen.prevCp != 0 {
      pen' := pen.(x := pen.x + ToPixel(pen.advance + GetKerning(f, pen.prevCp, cp)));
    }
    var x := if isCombining then AnchorOver(anchor, pen.x, pen.left, pen.width, glyph.left, glyph.width) else pen'.x;
    var y := startY - raiseBy;
    box' := Box(Min(box.minX, x + glyph.left), Min(box.minY, y + glyph.top - glyph.height),
                Max(box.maxX, x + glyph.left + glyph.width), Max(box.maxY, y + glyph.top));
    if !isCombining {
      pen' := Pen(pen'.x, glyph.left, glyph.width, glyph.top, glyph.advanceX, cp);
    }
  }

  lemma {:induction false} GrowConcat(b: Box, s: seq<Item>, t: seq<Item>)
    ensures Grow(b, s + t) == Grow(Grow(b, s), t)
    decreases |s|
  {
    if s == [] {
      assert s + t == t;
    } else {
      assert (s + t)[1..] == s[1..] + t;
      GrowConcat(GrowBy(b, s[0]), s[1..], t);
    }
  }

  method GetTextBounds(f: Font, text: seq<nat>, startX: int, startY: int)
    returns (minX: int, minY: int, maxX: int, maxY: int)
    requires Valid(f) && forall i :: 0 <= i < |text| ==> text[i] != 0
    ensures Box(minX, minY, maxX, maxY) ==
            Grow(Box(startX, startY, startX, startY), Layout(f, Start(startX), text, startY))
  {
    hide TakeTurn;
    var box := Box(startX, startY, startX, startY);
    var pen, pos := Start(startX), 0;
    ghost var whole := Grow(box, Layout(f, pen, text, startY));
    assert text[0..] == text;
    while pos < |text|
      invariant 0 <= pos <= |text|
      invariant Grow(box, Layout(f, pen, text[pos..], startY)) == whole
    {
      ghost var t := TakeTurn(f, pen, text[pos..], startY);
      GrowConcat(box, t.items, Layout(f, t.pen, text[pos..][t.taken..], startY));
      assert text[pos..][t.taken..] == text[pos + t.taken..];
      pos, pen, box := MeasureNext(f, text, pos, pen, box, startY);
    }
    return box.minX, box.minY, box.maxX, box.maxY;
  }

  // ---------------------------------------------------------------------------------------
  // What the measured box means.
  // ---------------------------------------------------------------------------------------

  predicate Encloses(b: Box, i: Item) {
    i.Gap? || (b.minX <= BoxOf(i).minX && b.minY <= BoxOf(i).minY && BoxOf(i).maxX <= b.maxX && BoxOf(i).maxY <= b.maxY)
  }

  /** The box grown over the items holds the start and every glyph, and no side is further out
      than the start or some glyph asks for. */
  lemma {:induction false} GrowIsTight(b: Box, items: seq<Item>)
    ensures var g := Grow(b, items);
      && g.minX <= b.minX && g.minY <= b.minY && b.maxX <= g.maxX && b.maxY <= g.maxY
      && (forall i :: 0 <= i < |items| ==> Encloses(g, items[i]))
      && (g.minX == b.minX || exists i :: 0 <= i < |items| && !items[i].Gap? && g.minX == BoxOf(items[i]).minX)
      && (g.minY == b.minY || exists i :: 0 <= i < |items| && !items[i].Gap? && g.minY == BoxOf(items[i]).minY)
      && (g.maxX == b.maxX || exists i :: 0 <= i < |items| && !items[i].Gap? && g.maxX == BoxOf(items[i]).maxX)
      && (g.maxY == b.maxY || exists i :: 0 <= i < |items| && !items[i].Gap? && g.maxY == BoxOf(items[i]).maxY)
    decreases |items|
  {
    if items != [] {
      GrowIsTight(GrowBy(b, items[0]), items[1..]);
      assert forall i :: 1 <= i < |items| ==> items[i] == items[1..][i - 1];
      assert items[0] == items[0];
    }
  }

  function MovePen(p: Pen, dx: int): Pen {
    p.(x := p.x + dx)
  }

  function MoveItem(i: Item, dx: int, dy: int): Item {
    match i
    case Base(x, y, cp, g) => Base(x + dx, y + dy, cp, g)
    case Mark(x, y, g) => Mark(x + dx, y + dy, g)
    case Gap(x) => Gap(x + dx)
  }

  function MoveItems(items: seq<Item>, dx: int, dy: int): seq<Item> {
    seq(|items|, k requires 0 <= k < |items| => MoveItem(items[k], dx, dy))
  }

  /** Laying out from another start point places the same glyphs, moved. */
  lemma {:induction false} LayoutMoves(f: Font, pen: Pen, text: seq<nat>, startY: int, dx: int, dy: int)
    requires Valid(f)
    ensures Layout(f, MovePen(pen, dx), text, startY + dy) == MoveItems(Layout(f, pen, text, startY), dx, dy)
    decreases |text|
  {
    if text != [] {
      TurnMoves(f, pen, text, startY, dx, dy);
      hide TakeTurn, MoveItems, MovePen;
      var t := TakeTurn(f, pen, text, startY);
      LayoutMoves(f, t.pen, text[t.taken..], startY, dx, dy);
      MoveConcat(t.items, Layout(f, t.pen, text[t.taken..], startY), dx, dy);
    } else {
      assert Layout(f, pen, text, startY) == [];
    }
  }

  lemma MoveConcat(s: seq<Item>, t: seq<Item>, dx: int, dy: int)
    ensures MoveItems(s + t, dx, dy) == MoveItems(s, dx, dy) + MoveItems(t, dx, dy)
  {
  }

  lemma TurnMoves(f: Font, pen: Pen, text: seq<nat>, startY: int, dx: int, dy: int)
    requires Valid(f) && text != []
    ensures var t := TakeTurn(f, pen, text, startY);
      TakeTurn(f, MovePen(pen, dx), text, startY + dy) == Turn(t.taken, MovePen(t.pen, dx), MoveItems(t.items, dx, dy))
  {
    hide Ligated, GetGlyph, GetKerning;
  }

  function MoveBox(b: Box, dx: int, dy: int): Box {
    Box(b.minX + dx, b.minY + dy, b.maxX + dx, b.maxY + dy)
  }

  lemma {:induction false} GrowMoves(b: Box, items: seq<Item>, dx: int, dy: int)
    ensures Grow(MoveBox(b, dx, dy), MoveItems(items, dx, dy)) == MoveBox(Grow(b, items), dx, dy)
    decreases |items|
  {
    if items != [] {
      GrowMoves(GrowBy(b, items[0]), items[1..], dx, dy);
      assert MoveItems(items, dx, dy)[1..] == MoveItems(items[1..], dx, dy);
    }
  }

  /** The measured box moves with the start point. */
  lemma BoundsMove(f: Font, text: seq<nat>, x: int, y: int, dx: int, dy: int)
    requires Valid(f)
    ensures Grow(Box(x + dx, y + dy, x + dx, y + dy), Layout(f, Start(x + dx), text, y + dy))
            == MoveBox(Grow(Box(x, y, x, y), Layout(f, Start(x), text, y)), dx, dy)
  {
    hide Layout, Grow;
    LayoutMoves(f, Start(x), text, y, dx, dy);
    GrowMoves(Box(x, y, x, y), Layout(f, Start(x), text, y), dx, dy);
  }

  // ---------------------------------------------------------------------------------------
  // Spacing and rounding.
  // ---------------------------------------------------------------------------------------

  /** What the step to an item rests on: the base before it, or nothing. */
  datatype Prev = NoBase | After(cp: nat, advance: int)

  function PrevOf(pen: Pen): Prev {
    if pen.prevCp == 0 then NoBase else After(pen.prevCp, pen.advance)
  }

  function NextPrev(prev: Prev, i: Item): Prev {
    match i
    case Base(_, _, cp, g) => After(cp, g.advanceX)
    case Mark(_, _, _) => prev
    case Gap(_) => NoBase
  }

  /** The exact 12.4 step to an item: advance of the base before it plus the kerning of the pair. */
  function ExactStep(f: Font, prev: Prev, i: Item): int
    requires MatrixCovers(f)
  {
    match i
    case Base(_, _, cp, _) => if prev.After? then prev.advance + GetKerning(f, prev.cp, cp) else 0
    case Mark(_, _, _) => 0
    case Gap(_) => if prev.After? then prev.advance else 0
  }

  function ExactSum(f: Font, prev: Prev, items: seq<Item>): int
    requires MatrixCovers(f)
    decreases |items|
  {
    if items == [] then 0
    else ExactStep(f, prev, items[0]) + ExactSum(f, NextPrev(prev, items[0]), items[1..])
  }

  /** How many of the items were reached by a rounded step. */
  function Steps(prev: Prev, items: seq<Item>): nat
    decreases |items|
  {
    if items == [] then 0
    else (if prev.After? && !items[0].Mark? then 1 else 0) + Steps(NextPrev(prev, items[0]), items[1..])
  }

  /** A pen between turns has no pending advance without a base. */
  predicate PenFits(pen: Pen) {
    pen.prevCp == 0 ==> pen.advance == 0
  }

  predicate RealText(text: seq<nat>) {
    forall i :: 0 <= i < |text| ==> text[i] != 0
  }

  lemma {:induction false} LigatedIsReal(f: Font, cp: nat, text: seq<nat>)
    requires cp != 0
    ensures Ligated(f, cp, text).0 != 0
    decreases |text|
  {
    if !Stops(f, cp, text) {
      LigatedIsReal(f, GetLigature(f, cp, text[0]), text[1..]);
    }
  }

  lemma TurnStep(f: Font, pen: Pen, text: seq<nat>, startY: int)
    requires Valid(f) && text != [] && RealText(text) && PenFits(pen)
    ensures var t := TakeTurn(f, pen, text, startY); var prev := PrevOf(pen);
      && PenFits(t.pen)
      && (t.items == [] || t.items[0].Mark? ==> t.pen == pen)
      && (t.items != [] ==>
            && PrevOf(t.pen) == NextPrev(prev, t.items[0])
            && (!t.items[0].Mark? ==>
                  t.items[0].x == t.pen.x ==
                  pen.x + if prev.After? then ToPixel(ExactStep(f, prev, t.items[0])) else 0)
            && (t.items[0].Base? ==> GetGlyph(f, t.items[0].cp) == Some(t.items[0].glyph)))
  {
    if !IsCombiningMark(text[0]) {
      LigatedIsReal(f, text[0], text[1..]);
    }
    hide Ligated, GetGlyph, GetKerning;
  }

  lemma RoundingError(fp: int)
    ensures -8 <= 16 * ToPixel(fp) - fp <= 8
  {
  }

  function Abs(a: int): nat {
    if a < 0 then -a else a
  }

  /** One item in front adds its own step to the exact sum and to the count. */
  lemma SumsInFront(f: Font, prev: Prev, i: Item, rest: seq<Item>)
    requires MatrixCovers(f)
    ensures ExactSum(f, prev, [i] + rest) == ExactStep(f, prev, i) + ExactSum(f, NextPrev(prev, i), rest)
    ensures Steps(prev, [i] + rest) == (if prev.After? && !i.Mark? then 1 else 0) + Steps(NextPrev(prev, i), rest)
  {
    assert ([i] + rest)[1..] == rest;
  }

  /** Each item that is not a mark stands one rounded step after the one before it. */
  predicate Chain(f: Font, prev: Prev, x: int, items: seq<Item>)
    requires Valid(f)
    decreases |items|
  {
    items == [] ||
    var i := items[0];
    if i.Mark? then Chain(f, prev, x, items[1..])
    else
      && i.x == x + (if prev.After? then ToPixel(ExactStep(f, prev, i)) else 0)
      && (i.Base? ==> GetGlyph(f, i.cp) == Some(i.glyph))
      && Chain(f, NextPrev(prev, i), i.x, items[1..])
  }

  lemma {:induction false} LayoutIsChain(f: Font, pen: Pen, text: seq<nat>, startY: int)
    requires Valid(f) && RealText(text) && PenFits(pen)
    ensures Chain(f, PrevOf(pen), pen.x, Layout(f, pen, text, startY))
    decreases |text|
  {
    if text != [] {
      TurnStep(f, pen, text, startY);
      hide TakeTurn, Valid, ExactStep, PrevOf, NextPrev;
      var t := TakeTurn(f, pen, text, startY);
      LayoutIsChain(f, t.pen, text[t.taken..], startY);
      var rest := Layout(f, t.pen, text[t.taken..], startY);
      assert (t.items + rest)[|t.items|..] == rest;
      assert t.items == [] ==> t.items + rest == rest;
    }
  }

  lemma {:induction false} ChainRounding(f: Font, prev: Prev, x: int, items: seq<Item>, j: nat)
    requires Valid(f) && Chain(f, prev, x, items) && j < |items| && !items[j].Mark?
    ensures Abs(16 * (items[j].x - x) - ExactSum(f, prev, items[..j + 1])) <= 8 * Steps(prev, items[..j + 1])
    decreases |items|
  {
    var i := items[0];
    RoundingError(ExactStep(f, prev, i));
    hide ExactStep, ToPixel;
    assert items[..j + 1] == [i] + items[1..][..j];
    SumsInFront(f, prev, i, items[1..][..j]);
    if j == 0 {
      assert items[1..][..0] == [];
    } else {
      ChainRounding(f, NextPrev(prev, i), if i.Mark? then x else i.x, items[1..], j - 1);
    }
  }

  /** After n rounded steps the cursor is within n/2 pixels of the exact fixed-point sum. */
  lemma RoundingStaysSmall(f: Font, text: seq<nat>, startX: int, startY: int, j: nat)
    requires Valid(f) && RealText(text)
    requires j < |Layout(f, Start(startX), text, startY)| && !Layout(f, Start(startX), text, startY)[j].Mark?
    ensures var items := Layout(f, Start(startX), text, startY)[..j + 1];
      Abs(16 * (items[j].x - startX) - ExactSum(f, NoBase, items)) <= 8 * Steps(NoBase, items)
  {
    hide Chain, Layout, ExactSum, Steps;
    LayoutIsChain(f, Start(startX), text, startY);
    ChainRounding(f, NoBase, startX, Layout(f, Start(startX), text, startY), j);
  }

  predicate MarksBetween(items: seq<Item>, i: int, j: int)
    requires 0 <= i && j <= |items|
  {
    forall k :: i <= k < j ==> items[k].Mark?
  }

  lemma MarksBetweenTail(items: seq<Item>, i: int, j: int)
    requires 1 <= i && j <= |items| && MarksBetween(items, i, j) && items != []
    ensures MarksBetween(items[1..], i - 1, j - 1)
  {
  }

  /** The step from one base to the next is a function of the two codepoints. */
  function PairStep(f: Font, left: nat, right: nat): int
    requires Valid(f) && GetGlyph(f, left).Some?
  {
    ToPixel(GetGlyph(f, left).value.advanceX + GetKerning(f, left, right))
  }

  lemma {:induction false} FirstInChain(f: Font, prev: Prev, x: int, items: seq<Item>, j: nat)
    requires Valid(f) && Chain(f, prev, x, items) && prev.After?
    requires j < |items| && MarksBetween(items, 0, j) && items[j].Base?
    ensures items[j].x == x + ToPixel(prev.advance + GetKerning(f, prev.cp, items[j].cp))
    decreases j
  {
    hide Valid, GetKerning, GetGlyph, ToPixel;
    if j > 0 {
      assert items[0].Mark?;
      assert MarksBetween(items, 1, j);
      MarksBetweenTail(items, 1, j);
      FirstInChain(f, prev, x, items[1..], j - 1);
    }
  }

  lemma {:induction false} ChainSpacing(f: Font, prev: Prev, x: int, items: seq<Item>, i: nat, j: nat)
    requires Valid(f) && Chain(f, prev, x, items)
    requires i < j < |items| && items[i].Base? && items[j].Base? && MarksBetween(items, i + 1, j)
    ensures GetGlyph(f, items[i].cp).Some? && items[j].x - items[i].x == PairStep(f, items[i].cp, items[j].cp)
    decreases i
  {
    var first := items[0];
    MarksBetweenTail(items, i + 1, j);
    if i > 0 {
      ChainSpacing(f, if first.Mark? then prev else NextPrev(prev, first), if first.Mark? then x else first.x,
                   items[1..], i - 1, j - 1);
    } else {
      FirstInChain(f, NextPrev(prev, first), first.x, items[1..], j - 1);
    }
  }

  /** Wherever they stand on a line, the same two adjacent bases are the same distance apart. */
  lemma SpacingIsPerPair(f: Font, text: seq<nat>, startX: int, startY: int, i: nat, j: nat)
    requires Valid(f) && RealText(text)
    requires var items := Layout(f, Start(startX), text, startY);
      i < j < |items| && items[i].Base? && items[j].Base? && MarksBetween(items, i + 1, j)
    ensures var items := Layout(f, Start(startX), text, startY);
      GetGlyph(f, items[i].cp).Some? && items[j].x - items[i].x == PairStep(f, items[i].cp, items[j].cp)
  {
    LayoutIsChain(f, Start(startX), text, startY);
    ChainSpacing(f, NoBase, startX, Layout(f, Start(startX), text, startY), i, j);
  }

  /** The Hebrew placements of anchorFor never apply here: no such point is a combining mark
      for the measuring loop, so every mark it places is centred and raised. */
  lemma MarksAreRaised(cp: nat)
    requires IsCombiningMark(cp)
    ensures AnchorFor(cp) == CenterRaised
  {
  }
}
