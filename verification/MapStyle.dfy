/** Road widths and the deduplicated table of style variants (scripts/gen_mapstyle.py). */
module MapStyle {
  import opened StyleVariants
  import opened ModeMasks

  const CLASS_SLOTS := 32
  const MAX_WIDTH := 255

  /** Round half up; None for what is no non-negative number. */
  function RoundPx(j: Json): Option<nat> {
    match j
    case Int(i) => if i < 0 then None else Some(i)
    case Real(r) => if r < 0.0 then None else Some((r + 0.5).Floor)
    case _ => None
  }

  function AtLeastOne(w: nat): nat {
    if w < 1 then 1 else w
  }

  /**
   * The rest of what a visible rule is checked for at a width: casing, dashes, marks, ticks and
   * tone. It can stop the build and never changes a width.
   */
  type RuleCheck = (Json, nat) -> bool

  /** The width a visible rule gives its classes. */
  function RuleWidth(rule: Json, defaultWidth: nat): Option<nat>
    requires rule.Obj?
  {
    if "width" in rule.fields then RoundPx(rule.fields["width"]) else Some(defaultWidth)
  }

  /** road_widths can read a rule, and every class it shows gets a width that fits a byte. */
  predicate WidthReads(rule: Json, defaultWidth: nat, check: RuleCheck) {
    && RuleClasses(rule).Some? && Hidden(rule).Some?
    && (!Hidden(rule).value && RuleClasses(rule).value != [] ==>
          var w := RuleWidth(rule, defaultWidth);
          w.Some? && AtLeastOne(w.value) <= MAX_WIDTH && check(rule, AtLeastOne(w.value)))
  }

  predicate NamesClass(rule: Json, id: nat) {
    RuleClasses(rule).Some? && id in Ids(RuleClasses(rule).value)
  }

  /** What a rule that names a class sets its width to. */
  function WidthFrom(rule: Json, defaultWidth: nat): nat {
    if Hidden(rule) == Some(true) || !rule.Obj? || RuleWidth(rule, defaultWidth).None? then 0
    else AtLeastOne(RuleWidth(rule, defaultWidth).value)
  }

  /** The reference: the last rule that names a class decides its width. */
  function WidthOf(rules: seq<Json>, id: nat, defaultWidth: nat): nat {
    if rules == [] then AtLeastOne(defaultWidth)
    else if NamesClass(rules[|rules| - 1], id) then WidthFrom(rules[|rules| - 1], defaultWidth)
    else WidthOf(rules[..|rules| - 1], id, defaultWidth)
  }

  /** The width slots: a reserved slot is never drawn. */
  function Widths(rules: seq<Json>, defaultWidth: nat): (r: seq<nat>)
    ensures |r| == CLASS_SLOTS
    ensures forall id :: 0 <= id < CLASS_SLOTS ==> r[id] == if id < CLASS_COUNT then WidthOf(rules, id, defaultWidth) else 0
  {
    seq(CLASS_SLOTS, id requires 0 <= id < CLASS_SLOTS => if id < CLASS_COUNT then WidthOf(rules, id, defaultWidth) else 0)
  }

  function DefaultWidth(roads: Json): Option<nat> {
    var w := GetPath(GetOr(roads, "default", EMPTY), "width", Int(1));
    if w.None? then None else RoundPx(w.value)
  }

  predicate AllZero(widths: seq<nat>) {
    forall i :: 0 <= i < |widths| ==> widths[i] == 0
  }

  /** road_widths: None is a build that stops. */
  function RoadWidths(style: Json, check: RuleCheck): Option<seq<nat>> {
    var roads := RoadsOr(style, Null);
    if roads.None? || !roads.value.Obj? then None
    else if !Enabled(roads.value) then Some(seq(CLASS_SLOTS, _ => 0))
    else
      var rules, dw := RulesOf(roads.value).value, DefaultWidth(roads.value);
      if dw.None? || !rules.List? || exists i :: 0 <= i < |rules.items| && !WidthReads(rules.items[i], dw.value, check) then None
      else if AllZero(Widths(rules.items, dw.value)) then None
      else Some(Widths(rules.items, dw.value))
  }

  // ---------------------------------------------------------------------------------------
  // The code.
  // ---------------------------------------------------------------------------------------

  /** One rule: the loop over its classes. */
  method ApplyRule(widths: array<nat>, rule: Json, defaultWidth: nat, check: RuleCheck) returns (ok: bool)
    requires widths.Length == CLASS_SLOTS
    modifies widths
    ensures ok <==> WidthReads(rule, defaultWidth, check)
    ensures ok ==> forall id :: 0 <= id < CLASS_SLOTS ==>
      widths[id] == if NamesClass(rule, id) then WidthFrom(rule, defaultWidth) else old(widths[id])
  {
    var classes := RuleClasses(rule);
    if classes.None? || !rule.Obj? {
      return false;
    }
    var names := classes.value;
    for k := 0 to |names|
      invariant k > 0 && Hidden(rule) == Some(false) ==> WidthReads(rule, defaultWidth, check)
      invariant forall id :: 0 <= id < CLASS_SLOTS ==>
        widths[id] == if id in Ids(names[..k]) then WidthFrom(rule, defaultWidth) else old(widths[id])
    {
      IdsAppend(names, k);
      var id := ClassId(names[k]);
      if Hidden(rule).value {
        widths[id] := 0;
      } else {
        var w := RuleWidth(rule, defaultWidth);
        if w.None? {
          return false;
        }
        var width := AtLeastOne(w.value);
        if width > MAX_WIDTH {
          return false;
        }
        widths[id] := width;
        if !check(rule, width) {
          return false;
        }
      }
    }
    assert names[..|names|] == names;
    return true;
  }

  method ComputeRoadWidths(style: Json, check: RuleCheck) returns (r: Option<seq<nat>>)
    ensures r == RoadWidths(style, check)
  {
    hide WidthReads, NamesClass, WidthFrom, DefaultWidth, Enabled;
    var roads := RoadsOr(style, Null);
    if roads.None? || !roads.value.Obj? {
      return None;
    }
    var widths := new nat[CLASS_SLOTS](i => 0);
    if !Enabled(roads.value) {
      assert widths[..] == seq(CLASS_SLOTS, _ => 0);
      return Some(widths[..]);
    }
    var dw := DefaultWidth(roads.value);
    if dw.None? {
      return None;
    }
    for id := 0 to CLASS_COUNT
      invariant forall k :: 0 <= k < CLASS_SLOTS ==> widths[k] == if k < id then AtLeastOne(dw.value) else 0
    {
      widths[id] := AtLeastOne(dw.value);
    }
    var rules := RulesOf(roads.value).value;
    if !rules.List? {
      return None;
    }
    var items := rules.items;
    for i := 0 to |items|
      invariant forall k :: 0 <= k < i ==> WidthReads(items[k], dw.value, check)
      invariant forall id :: 0 <= id < CLASS_SLOTS ==>
        widths[id] == if id < CLASS_COUNT then WidthOf(items[..i], id, dw.value) else 0
    {
      assert items[..i + 1][..i] == items[..i];
      NamesOnlyClasses(items[i]);
      var ok := ApplyRule(widths, items[i], dw.value, check);
      if !ok {
        return None;
      }
    }
    assert items[..|items|] == items;
    assert widths[..] == Widths(items, dw.value);
    var drawn := false;
    for id := 0 to CLASS_SLOTS
      invariant drawn <==> exists k :: 0 <= k < id && widths[k] != 0
    {
      if widths[id] != 0 {
        drawn := true;
      }
    }
    return if drawn then Some(widths[..]) else None;
  }

  lemma NamesOnlyClasses(rule: Json)
    ensures forall id: nat :: NamesClass(rule, id) ==> id < CLASS_COUNT
  {
  }

  // ---------------------------------------------------------------------------------------
  // The read mask and the drawn widths.
  // ---------------------------------------------------------------------------------------

  /** The last rule that names a class, or -1. */
  function LastNaming(rules: seq<Json>, id: nat): (j: int)
    ensures -1 <= j < |rules|
  {
    if rules == [] then -1
    else if NamesClass(rules[|rules| - 1], id) then |rules| - 1
    else LastNaming(rules[..|rules| - 1], id)
  }

  lemma {:induction false} LastNamingIsLast(rules: seq<Json>, id: nat)
    ensures var j := LastNaming(rules, id);
      (j >= 0 ==> NamesClass(rules[j], id)) && forall k :: j < k < |rules| ==> !NamesClass(rules[k], id)
  {
    hide NamesClass;
    if rules != [] && !NamesClass(rules[|rules| - 1], id) {
      LastNamingIsLast(rules[..|rules| - 1], id);
      assert forall k :: 0 <= k < |rules| - 1 ==> rules[..|rules| - 1][k] == rules[k];
    }
  }

  predicate SomeRuleHides(rules: seq<Json>, id: nat) {
    exists i :: 0 <= i < |rules| && Hides(rules[i], id)
  }

  /** A class some rule hides, though the last rule that names it shows it. */
  predicate HiddenThenShown(rules: seq<Json>, id: nat) {
    SomeRuleHides(rules, id) && LastNaming(rules, id) >= 0 && !Hides(rules[LastNaming(rules, id)], id)
  }

  lemma {:induction false} LastNamingDecides(rules: seq<Json>, id: nat, dw: nat)
    ensures WidthOf(rules, id, dw) ==
            if LastNaming(rules, id) < 0 then AtLeastOne(dw) else WidthFrom(rules[LastNaming(rules, id)], dw)
  {
    hide NamesClass, WidthFrom;
    if rules != [] && !NamesClass(rules[|rules| - 1], id) {
      LastNamingDecides(rules[..|rules| - 1], id, dw);
    }
  }

  /** A rule that names a class gives it width 0 exactly when it hides it. */
  lemma RuleHidesByZero(rule: Json, id: nat, dw: nat, check: RuleCheck)
    requires WidthReads(rule, dw, check)
    ensures Hides(rule, id) ==> NamesClass(rule, id)
    ensures NamesClass(rule, id) ==> (WidthFrom(rule, dw) == 0 <==> Hides(rule, id))
  {
  }

  /** Per class: a mask bit means a width, and the two differ exactly for a hidden-then-shown class. */
  lemma BitMeansWidth(rules: seq<Json>, id: nat, dw: nat, check: RuleCheck)
    requires id < CLASS_COUNT && forall i :: 0 <= i < |rules| ==> WidthReads(rules[i], dw, check)
    ensures id in Unhidden(rules) ==> WidthOf(rules, id, dw) > 0
    ensures (id in Unhidden(rules)) == (WidthOf(rules, id, dw) > 0) <==> !HiddenThenShown(rules, id)
  {
    hide Hides, NamesClass, WidthFrom, WidthReads, WidthOf;
    LastNamingDecides(rules, id, dw);
    LastNamingIsLast(rules, id);
    assert IsClass(id) && (id in Unhidden(rules) <==> !SomeRuleHides(rules, id));
    forall i | 0 <= i < |rules|
      ensures Hides(rules[i], id) ==> NamesClass(rules[i], id)
      ensures NamesClass(rules[i], id) ==> (WidthFrom(rules[i], dw) == 0 <==> Hides(rules[i], id))
    {
      RuleHidesByZero(rules[i], id, dw, check);
    }
  }

  /** The two generators agree on a resolved style: what the mask lets through is drawn. */
  lemma MaskMeansDrawn(style: Json, check: RuleCheck, id: nat)
    requires DrawnMask(style).Some? && RoadWidths(style, check).Some?
    requires id in DrawnMask(style).value
    ensures id < CLASS_COUNT && RoadWidths(style, check).value[id] > 0
  {
    hide Unhidden, Widths, WidthReads, MaskReads;
    var roads := RoadsOr(style, Null).value;
    assert RoadsOr(style, EMPTY) == Some(roads);
    assert id in AllClasses() by {
      DrawnIsClass(style);
    }
    BitMeansWidth(RulesOf(roads).value.items, id, DefaultWidth(roads).value, check);
  }

  lemma DrawnIsClass(style: Json)
    requires DrawnMask(style).Some?
    ensures DrawnMask(style).value <= AllClasses()
  {
  }

  /**
   * The mask is the set of drawn classes exactly when the roads layer is off or no class is
   * hidden by one rule and shown again by the last rule that names it.
   */
  lemma MaskIsDrawnExactly(style: Json, check: RuleCheck)
    requires DrawnMask(style).Some? && RoadWidths(style, check).Some?
    ensures var widths := RoadWidths(style, check).value; var roads := RoadsOr(style, Null).value;
      (forall id: nat :: id < CLASS_COUNT ==> (id in DrawnMask(style).value <==> widths[id] > 0)) <==>
      (!Enabled(roads) || forall id: nat :: id < CLASS_COUNT ==> !HiddenThenShown(RulesOf(roads).value.items, id))
  {
    hide Unhidden, HiddenThenShown, WidthReads, MaskReads, WidthOf;
    var roads := RoadsOr(style, Null).value;
    assert RoadsOr(style, EMPTY) == Some(roads);
    if Enabled(roads) {
      var rules, dw := RulesOf(roads).value.items, DefaultWidth(roads).value;
      forall id: nat | id < CLASS_COUNT
        ensures (id in Unhidden(rules)) == (WidthOf(rules, id, dw) > 0) <==> !HiddenThenShown(rules, id)
      {
        BitMeansWidth(rules, id, dw, check);
      }
    }
  }

  function MatchClass(name: string): Json {
    Obj(map["class" := List([Str(name)])])
  }

  function ShowRule(name: string): Json {
    Obj(map["match" := MatchClass(name)])
  }

  function HideRule(name: string): Json {
    Obj(map["match" := MatchClass(name), "hidden" := Bool(true)])
  }

  /** A style that hides a class and then shows it again. */
  function HideThenShow(name: string): Json {
    Obj(map["layers" := Obj(map["roads" := Obj(map["rules" := List([HideRule(name), ShowRule(name)])])])])
  }

  lemma OneClass(name: string)
    requires KnownClass(name)
    ensures ClassList(Some(List([Str(name)]))) == Some([name]) && Ids([name]) == {ClassId(name)}
  {
    hide KnownClass, ClassId;
    assert ClassList(Some(List([Str(name)]))).value == [name];
    assert [name][..0] == [];
  }

  lemma ClassesOfRule(rule: Json, name: string)
    requires KnownClass(name) && rule.Obj? && "match" in rule.fields && rule.fields["match"] == MatchClass(name)
    ensures RuleClasses(rule) == Some([name])
  {
    OneClass(name);
    hide KnownClass, ClassList, Ids;
    assert GetOr(rule, "match", EMPTY) == Some(MatchClass(name));
    assert GetOr(MatchClass(name), "class", List([])) == Some(List([Str(name)]));
  }

  lemma RulesHide(name: string)
    ensures Hidden(HideRule(name)) == Some(true) && Hidden(ShowRule(name)) == Some(false)
  {
    hide MatchClass;
  }

  lemma HideAndShow(name: string)
    requires KnownClass(name)
    ensures RuleClasses(HideRule(name)) == Some([name]) && RuleClasses(ShowRule(name)) == Some([name])
    ensures Hidden(HideRule(name)) == Some(true) && Hidden(ShowRule(name)) == Some(false)
  {
    RulesHide(name);
    hide KnownClass, RuleClasses, Hidden, MatchClass;
    ClassesOfRule(HideRule(name), name);
    ClassesOfRule(ShowRule(name), name);
  }

  lemma HideThenShowRoads(name: string)
    ensures var roads := Obj(map["rules" := List([HideRule(name), ShowRule(name)])]);
      && RoadsOr(HideThenShow(name), Null) == Some(roads) && RoadsOr(HideThenShow(name), EMPTY) == Some(roads)
      && Enabled(roads) && DefaultWidth(roads) == Some(1) && RulesOf(roads) == Some(List([HideRule(name), ShowRule(name)]))
  {
    hide HideRule, ShowRule;
  }

  /** The two rules, by what matters of them. */
  lemma ShownLast(first: Json, second: Json, id: nat)
    requires Hides(first, id) && NamesClass(second, id) && Hidden(second) == Some(false)
    requires second.Obj? && "width" !in second.fields
    ensures WidthOf([first, second], id, 1) == 1 && id !in Unhidden([first, second])
  {
    hide RuleClasses, Hidden, Ids, AllClasses;
    var rules := [first, second];
    assert Hides(rules[0], id) && rules[1] == second;
  }

  lemma RuleOnClass(rule: Json, name: string, hides: bool, check: RuleCheck)
    requires KnownClass(name) && RuleClasses(rule) == Some([name]) && Hidden(rule) == Some(hides)
    requires rule.Obj? && "width" !in rule.fields && (!hides ==> check(rule, 1))
    ensures NamesClass(rule, ClassId(name)) && Hides(rule, ClassId(name)) == hides
    ensures MaskReads(rule) && WidthReads(rule, 1, check)
  {
    OneClass(name);
    hide KnownClass, ClassId, RuleClasses, Hidden, Ids;
  }

  lemma RulesAreObjects(name: string)
    ensures HideRule(name).Obj? && ShowRule(name).Obj?
    ensures "width" !in HideRule(name).fields && "width" !in ShowRule(name).fields
  {
    hide MatchClass;
  }

  lemma MaskOfRules(style: Json, roads: Json, rules: seq<Json>)
    requires RoadsOr(style, EMPTY) == Some(roads) && roads.Obj? && Enabled(roads) && RulesOf(roads) == Some(List(rules))
    requires forall i :: 0 <= i < |rules| ==> MaskReads(rules[i])
    ensures DrawnMask(style) == Some(Unhidden(rules))
  {
    hide RoadsOr, Enabled, RulesOf, MaskReads, Unhidden;
  }

  lemma WidthsOfRules(style: Json, roads: Json, rules: seq<Json>, dw: nat, check: RuleCheck, id: nat)
    requires RoadsOr(style, Null) == Some(roads) && roads.Obj? && Enabled(roads) && RulesOf(roads) == Some(List(rules))
    requires DefaultWidth(roads) == Some(dw) && forall i :: 0 <= i < |rules| ==> WidthReads(rules[i], dw, check)
    requires id < CLASS_COUNT && WidthOf(rules, id, dw) > 0
    ensures RoadWidths(style, check) == Some(Widths(rules, dw))
  {
    hide RoadsOr, Enabled, RulesOf, WidthReads, DefaultWidth, WidthOf;
    assert Widths(rules, dw)[id] != 0;
  }

  /** For every class: both readers accept the style that hides it and then shows it again; the
      mask leaves the class out, and it is drawn. */
  lemma MaskCanMissDrawn(name: string, check: RuleCheck) returns (mask: set<nat>, widths: seq<nat>)
    requires KnownClass(name) && check(ShowRule(name), 1)
    ensures DrawnMask(HideThenShow(name)) == Some(mask) && RoadWidths(HideThenShow(name), check) == Some(widths)
    ensures ClassId(name) !in mask && |widths| == CLASS_SLOTS && widths[ClassId(name)] > 0
  {
    hide KnownClass, ClassId, Hides, NamesClass, Hidden, HideThenShow, HideRule, ShowRule, RoadsOr, Enabled, DefaultWidth, RulesOf,
         WidthOf, Unhidden, MaskReads, WidthReads, DrawnMask, RoadWidths, RuleClasses;
    HideThenShowRoads(name);
    HideAndShow(name);
    RulesAreObjects(name);
    RuleOnClass(HideRule(name), name, true, check);
    RuleOnClass(ShowRule(name), name, false, check);
    ShownLast(HideRule(name), ShowRule(name), ClassId(name));
    var rules := [HideRule(name), ShowRule(name)];
    var roads := Obj(map["rules" := List(rules)]);
    MaskOfRules(HideThenShow(name), roads, rules);
    WidthsOfRules(HideThenShow(name), roads, rules, 1, check, ClassId(name));
    mask, widths := Unhidden(rules), Widths(rules, 1);
  }

  // ---------------------------------------------------------------------------------------
  // The generated text, which is also the key of the deduplication.
  // ---------------------------------------------------------------------------------------

  function Digit(n: nat): char
    requires n < 10
  {
    '0' + (n as char)
  }

  function Decimal(n: nat): string {
    if n < 10 then [Digit(n)] else Decimal(n / 10) + [Digit(n % 10)]
  }

  /** The text of a style: the fixed head, one line per width slot, and the rest of the struct. */
  datatype Bundle = Bundle(widths: seq<nat>, rest: string)

  const HEAD := "{\n    // Road width per MapClassId. 0 = not drawn.\n    .roadWidthPx =\n    {\n"

  function ClassComment(id: nat): string {
    "  // " + Decimal(id) + " " + (if id < CLASS_COUNT then CLASS_NAMES[id] else "(reserved)") + "\n"
  }

  /** The width lines from slot `from` on. */
  function WidthLines(widths: seq<nat>, from: nat): string
    requires from <= |widths|
    decreases |widths| - from
  {
    if from == |widths| then ""
    else "        " + (Decimal(widths[from]) + ("," + (ClassComment(from) + WidthLines(widths, from + 1))))
  }

  function Literal(b: Bundle): string {
    HEAD + (WidthLines(b.widths, 0) + b.rest)
  }

  predicate IsDigits(s: string) {
    forall i :: 0 <= i < |s| ==> '0' <= s[i] <= '9'
  }

  lemma {:induction false} DecimalIsDigits(n: nat)
    ensures IsDigits(Decimal(n)) && Decimal(n) != ""
  {
    if n >= 10 {
      DecimalIsDigits(n / 10);
    }
  }

  function Value(s: string): int {
    if s == "" then 0 else 10 * Value(s[..|s| - 1]) + (s[|s| - 1] as int - '0' as int)
  }

  lemma {:induction false} DecimalValue(n: nat)
    ensures Value(Decimal(n)) == n
  {
    if n >= 10 {
      DecimalValue(n / 10);
      assert Decimal(n)[..|Decimal(n)| - 1] == Decimal(n / 10);
    } else {
      assert Decimal(n)[..0] == "";
    }
  }

  lemma CharOfLine(a: string, s: string, k: nat)
    ensures k < |a| ==> (a + ("," + s))[k] == a[k]
    ensures k == |a| ==> (a + ("," + s))[k] == ','
  {
  }

  /** Digits up to the first comma can be read back. */
  lemma DigitsThenComma(a: string, b: string, s: string, t: string)
    requires IsDigits(a) && IsDigits(b) && a + ("," + s) == b + ("," + t)
    ensures a == b && s == t
  {
    var x, y := a + ("," + s), b + ("," + t);
    CharOfLine(a, s, |b|);
    CharOfLine(b, t, |a|);
    CharOfLine(a, s, |a|);
    CharOfLine(b, t, |b|);
    assert |a| == |b|;
    assert x[..|a|] == a && y[..|b|] == b && x[|a| + 1..] == s && y[|b| + 1..] == t;
  }

  lemma SamePrefix(p: string, s: string, t: string)
    requires p + s == p + t
    ensures s == t
  {
    assert (p + s)[|p|..] == s && (p + t)[|p|..] == t;
  }

  lemma {:induction false} LinesTellWidths(a: seq<nat>, b: seq<nat>, from: nat, s: string, t: string)
    requires |a| == |b| && from <= |a|
    requires WidthLines(a, from) + s == WidthLines(b, from) + t
    ensures a[from..] == b[from..] && s == t
    decreases |a| - from
  {
    hide ClassComment, Decimal;
    if from == |a| {
      assert "" + s == s && "" + t == t;
    } else {
      var x, y := Decimal(a[from]), Decimal(b[from]);
      var c := ClassComment(from);
      var u, v := WidthLines(a, from + 1), WidthLines(b, from + 1);
      OneLine(x, c, u, s);
      OneLine(y, c, v, t);
      SamePrefix("        ", x + ("," + (c + (u + s))), y + ("," + (c + (v + t))));
      DecimalIsDigits(a[from]);
      DecimalIsDigits(b[from]);
      DigitsThenComma(x, y, c + (u + s), c + (v + t));
      SamePrefix(c, u + s, v + t);
      LinesTellWidths(a, b, from + 1, s, t);
      DecimalValue(a[from]);
      DecimalValue(b[from]);
      assert a[from..] == [a[from]] + a[from + 1..] && b[from..] == [b[from]] + b[from + 1..];
    }
  }

  lemma OneLine(x: string, c: string, u: string, s: string)
    ensures ("        " + (x + ("," + (c + u)))) + s == "        " + (x + ("," + (c + (u + s))))
  {
    var p := "        ";
    assert (c + u) + s == c + (u + s);
    assert ("," + (c + u)) + s == "," + (c + (u + s));
    assert (x + ("," + (c + u))) + s == x + ("," + (c + (u + s)));
  }

  /** Equal texts carry equal widths, so sharing a slot cannot change what is drawn. */
  lemma TextTellsWidths(a: Bundle, b: Bundle)
    requires |a.widths| == |b.widths| && Literal(a) == Literal(b)
    ensures a == b
  {
    hide WidthLines;
    SamePrefix(HEAD, WidthLines(a.widths, 0) + a.rest, WidthLines(b.widths, 0) + b.rest);
    LinesTellWidths(a.widths, b.widths, 0, a.rest, b.rest);
    assert a.widths[0..] == a.widths && b.widths[0..] == b.widths;
  }

  // ---------------------------------------------------------------------------------------
  // The variant table.
  // ---------------------------------------------------------------------------------------

  /** What the other layers compile to: the rest of the text, or a build that stops. */
  type RestOf = Json -> Option<string>

  function Compile(style: Json, check: RuleCheck, rest: RestOf): Option<Bundle> {
    var widths := RoadWidths(style, check);
    if widths.None? || rest(style).None? then None else Some(Bundle(widths.value, rest(style).value))
  }

  /** The bundle of one mode and rung. */
  function BundleAt(style: Json, at: Place, check: RuleCheck, rest: RestOf): Option<Bundle> {
    var resolved := Resolve(style, at);
    if resolved.None? then None else Compile(resolved.value, check, rest)
  }

  datatype Variant = Variant(bundle: Bundle, users: seq<Place>)

  function PlaceOf(m: nat, s: nat): Place
    requires m < |MODE_ORDER|
  {
    Place(MODE_ORDER[m], s)
  }

  /** The slot of a place holds the bundle of that place, and lists it among its users. */
  predicate Serves(variants: seq<Variant>, slot: nat, style: Json, at: Place, check: RuleCheck, rest: RestOf) {
    slot < |variants| && BundleAt(style, at, check, rest) == Some(variants[slot].bundle) && at in variants[slot].users
  }

  /** No two variants have the same text, and each has a user that needs it. */
  predicate Distinct(variants: seq<Variant>, style: Json, check: RuleCheck, rest: RestOf) {
    && (forall i, j :: 0 <= i < j < |variants| ==> Literal(variants[i].bundle) != Literal(variants[j].bundle))
    && (forall i :: 0 <= i < |variants| ==> |variants[i].bundle.widths| == CLASS_SLOTS && variants[i].users != [])
  }

  /** by_text: the slot of every text in the table, and of no other. */
  predicate Keyed(byText: map<string, nat>, variants: seq<Variant>) {
    && (forall t :: t in byText ==> byText[t] < |variants| && Literal(variants[byText[t]].bundle) == t)
    && (forall i :: 0 <= i < |variants| ==> Literal(variants[i].bundle) in byText && byText[Literal(variants[i].bundle)] == i)
  }

  /** One turn of the loop: look the text up, add a slot if it is new, note the user. */
  method PlaceVariant(variants: seq<Variant>, byText: map<string, nat>, bundle: Bundle, at: Place)
    returns (variants': seq<Variant>, byText': map<string, nat>, slot: nat)
    requires Keyed(byText, variants) && |bundle.widths| == CLASS_SLOTS
    requires WellSized(variants)
    ensures Keyed(byText', variants') && WellSized(variants') && Extends(variants, variants')
    ensures |variants| <= |variants'| <= |variants| + 1 && slot < |variants'|
    ensures variants'[slot].bundle == bundle && at in variants'[slot].users
  {
    hide Literal;
    var text := Literal(bundle);
    variants', byText' := variants, byText;
    if text in byText {
      slot := byText[text];
      TextTellsWidths(variants[slot].bundle, bundle);
    } else {
      slot := |variants|;
      byText' := byText'[text := slot];
      variants' := variants' + [Variant(bundle, [])];
    }
    variants' := variants'[slot := variants'[slot].(users := variants'[slot].users + [at])];
  }

  /** The table of variants and the index of the 21 places into it. */
  datatype Table = Table(variants: seq<Variant>, index: seq<seq<nat>>)

  predicate RowServes(variants: seq<Variant>, m: nat, row: seq<nat>, style: Json, check: RuleCheck, rest: RestOf)
    requires m < |MODE_ORDER|
  {
    forall s :: 0 <= s < |row| ==> Serves(variants, row[s], style, PlaceOf(m, s), check, rest)
  }

  /** Adding a slot or a user keeps every place that is served served. */
  predicate Extends(variants: seq<Variant>, variants': seq<Variant>) {
    |variants| <= |variants'| && forall i :: 0 <= i < |variants| ==>
      variants'[i].bundle == variants[i].bundle && forall u :: u in variants[i].users ==> u in variants'[i].users
  }

  lemma ServesStill(variants: seq<Variant>, variants': seq<Variant>, m: nat, row: seq<nat>,
                    style: Json, check: RuleCheck, rest: RestOf)
    requires m < |MODE_ORDER| && Extends(variants, variants') && RowServes(variants, m, row, style, check, rest)
    ensures RowServes(variants', m, row, style, check, rest)
  {
    hide BundleAt;
    forall s | 0 <= s < |row|
      ensures Serves(variants', row[s], style, PlaceOf(m, s), check, rest)
    {
      assert Serves(variants, row[s], style, PlaceOf(m, s), check, rest);
    }
  }

  predicate WellSized(variants: seq<Variant>) {
    forall i :: 0 <= i < |variants| ==> |variants[i].bundle.widths| == CLASS_SLOTS && variants[i].users != []
  }

  /** The loops of main: every place gets a slot with its own bundle, and no text has two slots. */
  method BuildTable(style: Json, check: RuleCheck, rest: RestOf) returns (t: Option<Table>)
    ensures t.None? ==>
      exists m, s :: 0 <= m < |MODE_ORDER| && 0 <= s < ZOOM_STEPS && BundleAt(style, PlaceOf(m, s), check, rest).None?
    ensures t.Some? ==>
      && |t.value.variants| <= |MODE_ORDER| * ZOOM_STEPS
      && Distinct(t.value.variants, style, check, rest)
      && |t.value.index| == |MODE_ORDER|
      && forall m :: 0 <= m < |MODE_ORDER| ==>
           |t.value.index[m]| == ZOOM_STEPS && RowServes(t.value.variants, m, t.value.index[m], style, check, rest)
  {
    hide BundleAt, Serves, Literal, Extends, RowServes, Keyed, WellSized;
    var variants: seq<Variant> := [];
    var byText: map<string, nat> := map[];
    var index: seq<seq<nat>> := [];
    EmptyTable(byText);
    for m := 0 to |MODE_ORDER|
      invariant Keyed(byText, variants) && WellSized(variants) && |variants| <= m * ZOOM_STEPS && |index| == m
      invariant forall k :: 0 <= k < m ==>
        |index[k]| == ZOOM_STEPS && RowServes(variants, k, index[k], style, check, rest)
    {
      var row: seq<nat> := [];
      EmptyRow(variants, m, style, check, rest);
      for s := 0 to ZOOM_STEPS
        invariant Keyed(byText, variants) && WellSized(variants) && |variants| <= m * ZOOM_STEPS + s && |row| == s
        invariant RowServes(variants, m, row, style, check, rest)
        invariant forall k :: 0 <= k < m ==>
          |index[k]| == ZOOM_STEPS && RowServes(variants, k, index[k], style, check, rest)
      {
        var bundle := ComputeBundle(style, m, s, check, rest);
        if bundle.None? {
          return None;
        }
        ghost var before := variants;
        var slot;
        variants, byText, slot := PlaceVariant(variants, byText, bundle.value, PlaceOf(m, s));
        forall k | 0 <= k < m
          ensures RowServes(variants, k, index[k], style, check, rest)
        {
          ServesStill(before, variants, k, index[k], style, check, rest);
        }
        ServesStill(before, variants, m, row, style, check, rest);
        RowGrows(variants, m, row, slot, style, check, rest);
        row := row + [slot];
      }
      index := index + [row];
    }
    KeyedIsDistinct(byText, variants, style, check, rest);
    return Some(Table(variants, index));
  }

  /** Resolve and compile one place. */
  method ComputeBundle(style: Json, m: nat, s: nat, check: RuleCheck, rest: RestOf) returns (b: Option<Bundle>)
    requires m < |MODE_ORDER| && s < ZOOM_STEPS
    ensures b == BundleAt(style, PlaceOf(m, s), check, rest)
    ensures b.Some? ==> |b.value.widths| == CLASS_SLOTS
  {
    hide RoadWidths, Walk;
    assert LegalPlace(PlaceOf(m, s));
    var resolved := WalkNode(style, Some(PlaceOf(m, s)), true);
    if resolved.None? {
      return None;
    }
    var widths := ComputeRoadWidths(resolved.value, check);
    if widths.None? || rest(resolved.value).None? {
      return None;
    }
    WidthSlots(resolved.value, check);
    return Some(Bundle(widths.value, rest(resolved.value).value));
  }

  lemma WidthSlots(style: Json, check: RuleCheck)
    ensures RoadWidths(style, check).Some? ==> |RoadWidths(style, check).value| == CLASS_SLOTS
  {
  }

  lemma EmptyTable(byText: map<string, nat>)
    requires byText == map[]
    ensures Keyed(byText, []) && WellSized([])
  {
  }

  lemma EmptyRow(variants: seq<Variant>, m: nat, style: Json, check: RuleCheck, rest: RestOf)
    requires m < |MODE_ORDER|
    ensures RowServes(variants, m, [], style, check, rest)
  {
  }

  lemma RowGrows(variants: seq<Variant>, m: nat, row: seq<nat>, slot: nat, style: Json, check: RuleCheck, rest: RestOf)
    requires m < |MODE_ORDER| && RowServes(variants, m, row, style, check, rest)
    requires slot < |variants| && PlaceOf(m, |row|) in variants[slot].users
    requires BundleAt(style, PlaceOf(m, |row|), check, rest) == Some(variants[slot].bundle)
    ensures RowServes(variants, m, row + [slot], style, check, rest)
  {
    hide BundleAt;
  }

  lemma KeyedIsDistinct(byText: map<string, nat>, variants: seq<Variant>, style: Json, check: RuleCheck, rest: RestOf)
    requires Keyed(byText, variants) && WellSized(variants)
    ensures Distinct(variants, style, check, rest)
  {
    hide Literal;
  }

  /**
   * Main result: across the two generators. Where a place has a read mask and a slot serves it,
   * every class the mask lets through has a width in the style of that slot.
   */
  lemma ReadMeansDrawn(style: Json, at: Place, variants: seq<Variant>, slot: nat, check: RuleCheck, rest: RestOf, id: nat)
    requires Serves(variants, slot, style, at, check, rest)
    requires ReadMask(style, at).Some? && id in ReadMask(style, at).value
    ensures id < CLASS_COUNT && |variants[slot].bundle.widths| == CLASS_SLOTS
    ensures variants[slot].bundle.widths[id] > 0
  {
    hide RoadWidths, DrawnMask, Walk;
    var resolved := Resolve(style, at).value;
    WidthSlots(resolved, check);
    MaskMeansDrawn(resolved, check, id);
  }

  // ---------------------------------------------------------------------------------------
  // The marker anchor.
  // ---------------------------------------------------------------------------------------

  const MAX_ANCHOR := 32767

  /** One coordinate of the anchor, 0 when it is not given; None is a build that stops. */
  function Pixel(field: Option<Json>): Option<nat> {
    var px := if field.Some? then RoundPx(field.value) else Some(0);
    if px.Some? && px.value <= MAX_ANCHOR then px else None
  }

  function FieldIn(block: Option<Json>, key: string): Option<Json> {
    if block.Some? && block.value.Obj? then Lookup(block.value.fields, key) else None
  }

  /** marker_anchor of a device block. */
  function AnchorOf(device: Option<Json>): Option<(nat, nat)> {
    if device.None? || !device.value.Obj? then None
    else
      var x, y := Pixel(FieldIn(device, "marker_x_px")), Pixel(FieldIn(device, "marker_y_px"));
      if x.None? || y.None? then None else Some((x.value, y.value))
  }

  /** marker_anchor: None is a build that stops. */
  function MarkerAnchor(style: Json): Option<(nat, nat)> {
    AnchorOf(FieldIn(Some(style), "device"))
  }

  /** The device block is an object after the patches: the last one that names it gives one. */
  predicate StaysObject(device: Option<Json>, patches: seq<Json>) {
    if patches == [] then device.Some? && device.value.Obj?
    else
      var last := patches[|patches| - 1];
      if Names(last, "device") then last.fields["device"].Obj? else StaysObject(device, patches[..|patches| - 1])
  }

  /** What the patches leave in one field of the device block, told on the field alone. */
  function DeviceField(device: Option<Json>, patches: seq<Json>, key: string): Option<Json> {
    if patches == [] then FieldIn(device, key)
    else
      var before, last := DeviceField(device, patches[..|patches| - 1], key), patches[|patches| - 1];
      if !Names(last, "device") then before
      else if !last.fields["device"].Obj? then None
      else if key in last.fields["device"].fields then Some(MergeValue(before, last.fields["device"].fields[key]))
      else before
  }

  lemma MergedField(prior: Option<Json>, value: Json, key: string)
    requires value.Obj? && key !in SELECTOR_KEYS
    ensures FieldIn(Some(MergeValue(prior, value)), key) ==
            if key in value.fields then Some(MergeValue(FieldIn(prior, key), value.fields[key])) else FieldIn(prior, key)
  {
  }

  lemma {:induction false} DeviceFieldIsLeft(device: Option<Json>, patches: seq<Json>, key: string)
    requires key !in SELECTOR_KEYS
    ensures var d := FieldUnder(device, patches, "device");
      && FieldIn(d, key) == DeviceField(device, patches, key)
      && (StaysObject(device, patches) <==> d.Some? && d.value.Obj?)
  {
    if patches != [] {
      var before, last := patches[..|patches| - 1], patches[|patches| - 1];
      DeviceFieldIsLeft(device, before, key);
      if Names(last, "device") && last.fields["device"].Obj? {
        MergedField(FieldUnder(device, before, "device"), last.fields["device"], key);
      }
    }
  }

  /**
   * The check that the anchor never varies: for every style whose base has an anchor, the anchor
   * of a place is the base's exactly when what the root's matching patches leave is an object
   * whose two fields round to the same pixels.
   */
  lemma AnchorIsBase(fields: map<string, Json>, at: Place)
    requires LegalPlace(at) && WellFormed(Obj(fields), true)
    requires Base(Obj(fields)).Some? && MarkerAnchor(Base(Obj(fields)).value).Some?
    ensures Resolve(Obj(fields), at).Some?
    ensures var device, patches := FieldIn(Base(Obj(fields)), "device"), Patches(fields, Some(at));
      MarkerAnchor(Resolve(Obj(fields), at).value) == MarkerAnchor(Base(Obj(fields)).value) <==>
      && StaysObject(device, patches)
      && Pixel(DeviceField(device, patches, "marker_x_px")) == Pixel(FieldIn(device, "marker_x_px"))
      && Pixel(DeviceField(device, patches, "marker_y_px")) == Pixel(FieldIn(device, "marker_y_px"))
  {
    hide Resolve, Base, FieldUnder, Names, DeviceField, StaysObject, Pixel;
    DeviceIsBase(fields, at);
    var device, patches := FieldIn(Base(Obj(fields)), "device"), Patches(fields, Some(at));
    DeviceFieldIsLeft(device, patches, "marker_x_px");
    DeviceFieldIsLeft(device, patches, "marker_y_px");
  }

  /** Patches that do not name the block leave the anchor alone. */
  lemma UnpatchedAnchor(fields: map<string, Json>, at: Place)
    requires LegalPlace(at) && WellFormed(Obj(fields), true)
    requires forall j :: 0 <= j < |Patches(fields, Some(at))| ==> !Names(Patches(fields, Some(at))[j], "device")
    ensures Resolve(Obj(fields), at).Some? && Base(Obj(fields)).Some?
    ensures MarkerAnchor(Resolve(Obj(fields), at).value) == MarkerAnchor(Base(Obj(fields)).value)
  {
    hide Resolve, Base, Patches, Names, WellFormed;
    DeviceIsBase(fields, at);
    var r, b := Resolve(Obj(fields), at).value.fields, Base(Obj(fields)).value.fields;
    assert Lookup(r, "device") == Lookup(b, "device");
  }

  /** A root entry on `device` that moves the anchor, in a style both places compile. */
  lemma RootPatchMovesAnchor(at: Place)
    requires LegalPlace(at)
    ensures var r, b := Resolve(Obj(PatchedDevice()), at), Base(Obj(PatchedDevice()));
      r.Some? && b.Some? && MarkerAnchor(b.value) == Some((100, 200)) && MarkerAnchor(r.value) == Some((150, 200))
  {
    RootPatchReachesDevice(at);
    DeviceAnchors();
    hide Resolve, Base, AnchorOf;
  }

  lemma DeviceAnchors()
    ensures AnchorOf(Some(DEVICE)) == Some((100, 200)) && AnchorOf(Some(MOVED_DEVICE)) == Some((150, 200))
  {
  }
}
