/** The read masks of the tile source (scripts/gen_mode_masks.py). A mask is the set of its bits. */
module ModeMasks {
  import opened StyleVariants

  /** The class enum of the tile format: a class's id is its place in the list. */
  const CLASS_NAMES: seq<string> := [
    "unknown", "motorway", "trunk", "primary", "secondary", "tertiary", "unclassified", "residential",
    "living_street", "service", "pedestrian", "track", "bridleway", "cycleway", "footway", "path", "steps",
    "construction", "ferry", "railway", "aerialway"]
  const CLASS_COUNT := 21

  function Index(names: seq<string>, name: string): (i: nat)
    requires name in names
    ensures i < |names| && names[i] == name
  {
    if names[0] == name then 0 else 1 + Index(names[1..], name)
  }

  predicate KnownClass(name: string) {
    name in CLASS_NAMES
  }

  function ClassId(name: string): (id: nat)
    requires KnownClass(name)
    ensures id < CLASS_COUNT
  {
    Index(CLASS_NAMES, name)
  }

  predicate IsClass(id: nat) {
    id < CLASS_COUNT
  }

  function AllClasses(): set<nat> {
    set id: nat | 0 <= id < CLASS_COUNT && IsClass(id)
  }

  // ---------------------------------------------------------------------------------------
  // Reading a resolved style.
  // ---------------------------------------------------------------------------------------

  /** dict.get with a default; None stands for the exception of a value that is no dict. */
  function GetOr(j: Json, key: string, default_: Json): Option<Json> {
    if j.Obj? then Some(if key in j.fields then j.fields[key] else default_) else None
  }

  function GetPath(j: Option<Json>, key: string, default_: Json): Option<Json> {
    if j.None? then None else GetOr(j.value, key, default_)
  }

  const EMPTY := Obj(map[])

  /** Python's truth value. */
  predicate Truthy(j: Json) {
    match j
    case Null => false
    case Bool(b) => b
    case Int(i) => i != 0
    case Real(r) => r != 0.0
    case Str(s) => s != ""
    case List(items) => items != []
    case Obj(fields) => fields != map[]
  }

  function Hidden(rule: Json): Option<bool> {
    if rule.Obj? then Some("hidden" in rule.fields && Truthy(rule.fields["hidden"])) else None
  }

  /** The class list of a rule: None when it cannot be read as known class names. */
  function RuleClasses(rule: Json): (r: Option<seq<string>>)
    ensures r.Some? ==> forall i :: 0 <= i < |r.value| ==> KnownClass(r.value[i])
  {
    ClassList(GetPath(GetOr(rule, "match", EMPTY), "class", List([])))
  }

  /** A list of known class names. */
  function ClassList(j: Option<Json>): (r: Option<seq<string>>)
    ensures r.Some? ==> forall i :: 0 <= i < |r.value| ==> KnownClass(r.value[i])
  {
    if j.Some? && j.value.List? && forall i :: 0 <= i < |j.value.items| ==> j.value.items[i].Str? && KnownClass(j.value.items[i].s)
    then Some(seq(|j.value.items|, i requires 0 <= i < |j.value.items| && j.value.items[i].Str? => j.value.items[i].s))
    else None
  }

  function Ids(names: seq<string>): (r: set<nat>)
    requires forall i :: 0 <= i < |names| ==> KnownClass(names[i])
    ensures r <= AllClasses()
  {
    if names == [] then {} else Ids(names[..|names| - 1]) + {ClassId(names[|names| - 1])}
  }

  // ---------------------------------------------------------------------------------------
  // What a mask means.
  // ---------------------------------------------------------------------------------------

  /** A rule that hides a class. */
  predicate Hides(rule: Json, id: nat) {
    Hidden(rule) == Some(true) && RuleClasses(rule).Some? && id in Ids(RuleClasses(rule).value)
  }

  /** drawn_mask can read a rule: it is a dict, and its classes are known if it hides them. */
  predicate MaskReads(rule: Json) {
    Hidden(rule).Some? && (Hidden(rule).value ==> RuleClasses(rule).Some?)
  }

  /** layers.roads, as each of the two readers asks for it. */
  function RoadsOr(style: Json, default_: Json): Option<Json> {
    GetPath(GetOr(style, "layers", EMPTY), "roads", default_)
  }

  function RulesOf(roads: Json): Option<Json> {
    GetOr(roads, "rules", List([]))
  }

  predicate Enabled(roads: Json)
    requires roads.Obj?
  {
    "enabled" in roads.fields ==> Truthy(roads.fields["enabled"])
  }

  /** The classes no rule hides. */
  function Unhidden(rules: seq<Json>): set<nat> {
    set id | id in AllClasses() && forall i :: 0 <= i < |rules| ==> !Hides(rules[i], id)
  }

  /** drawn_mask: None is a build that stops. */
  function DrawnMask(style: Json): Option<set<nat>> {
    var roads := RoadsOr(style, EMPTY);
    if roads.None? || !roads.value.Obj? then None
    else if !Enabled(roads.value) then Some({})
    else
      var rules := RulesOf(roads.value);
      if rules.value.List? && forall i :: 0 <= i < |rules.value.items| ==> MaskReads(rules.value.items[i])
      then Some(Unhidden(rules.value.items)) else None
  }

  function ModeClasses(style: Json, mode: string): Option<seq<string>> {
    ClassList(GetPath(GetPath(GetOr(style, "modes", EMPTY), mode, EMPTY), "classes", List([])))
  }

  /** The classes a mode asks for; none at all stops the build. */
  function ModeMask(style: Json, mode: string): Option<set<nat>> {
    var classes := ModeClasses(style, mode);
    if classes.None? || Ids(classes.value) == {} then None else Some(Ids(classes.value))
  }

  predicate MasksCompute(style: Json) {
    forall i :: 0 <= i < |MODE_ORDER| ==> ModeMask(style, MODE_ORDER[i]).Some?
  }

  /** What the tile reader lets through at a place. */
  function ReadMask(style: Json, at: Place): Option<set<nat>> {
    var resolved := Resolve(style, at);
    if resolved.None? || !MasksCompute(resolved.value) || at.mode !in MODE_ORDER || DrawnMask(resolved.value).None? then None
    else
      var mask := ModeMask(resolved.value, at.mode).value * DrawnMask(resolved.value).value;
      if mask == {} then None else Some(mask)
  }

  // ---------------------------------------------------------------------------------------
  // The code.
  // ---------------------------------------------------------------------------------------

  method ComputeMasks(style: Json) returns (masks: Option<map<string, set<nat>>>)
    ensures masks.Some? <==> MasksCompute(style)
    ensures masks.Some? ==> forall i :: 0 <= i < |MODE_ORDER| ==>
      MODE_ORDER[i] in masks.value && ModeMask(style, MODE_ORDER[i]) == Some(masks.value[MODE_ORDER[i]])
  {
    hide ModeMask;
    var result: map<string, set<nat>> := map[];
    for m := 0 to |MODE_ORDER|
      invariant forall i :: 0 <= i < m ==>
        MODE_ORDER[i] in result && ModeMask(style, MODE_ORDER[i]) == Some(result[MODE_ORDER[i]])
    {
      var mask := ComputeModeMask(style, MODE_ORDER[m]);
      if mask.None? {
        return None;
      }
      result := result[MODE_ORDER[m] := mask.value];
    }
    return Some(result);
  }

  method ComputeModeMask(style: Json, mode: string) returns (r: Option<set<nat>>)
    ensures r == ModeMask(style, mode)
  {
    var classes := ModeClasses(style, mode);
    if classes.None? {
      return None;
    }
    var mask: set<nat> := {};
    for k := 0 to |classes.value|
      invariant mask == Ids(classes.value[..k])
    {
      IdsAppend(classes.value, k);
      mask := mask + {ClassId(classes.value[k])};
    }
    assert classes.value[..|classes.value|] == classes.value;
    return if mask == {} then None else Some(mask);
  }

  lemma IdsAppend(names: seq<string>, k: nat)
    requires k < |names| && forall i :: 0 <= i < |names| ==> KnownClass(names[i])
    ensures Ids(names[..k + 1]) == Ids(names[..k]) + {ClassId(names[k])}
  {
    assert names[..k + 1][..k] == names[..k];
  }

  method ComputeDrawnMask(style: Json) returns (drawn: Option<set<nat>>)
    ensures drawn == DrawnMask(style)
  {
    var roads := RoadsOr(style, EMPTY);
    if roads.None? || !roads.value.Obj? {
      return None;
    }
    if !Enabled(roads.value) {
      return Some({});
    }
    var mask := AllClasses();
    var rules := RulesOf(roads.value);
    if !rules.value.List? {
      return None;
    }
    hide RoadsOr, Enabled;
    drawn := ClearHidden(mask, rules.value.items);
  }

  /** The loop over the rules: every class a rule hides is cleared, and none is set again. */
  method ClearHidden(all: set<nat>, rules: seq<Json>) returns (r: Option<set<nat>>)
    requires all == AllClasses()
    ensures r.Some? <==> forall k :: 0 <= k < |rules| ==> MaskReads(rules[k])
    ensures r.Some? ==> r.value == Unhidden(rules)
  {
    hide RuleClasses, Hidden, AllClasses, Ids, Unhidden;
    NothingUnhides();
    var mask := all;
    for i := 0 to |rules|
      invariant forall k :: 0 <= k < i ==> MaskReads(rules[k])
      invariant mask == Unhidden(rules[..i])
    {
      assert rules[..i + 1] == rules[..i] + [rules[i]];
      UnhiddenAppend(rules[..i], rules[i]);
      var hidden := Hidden(rules[i]);
      if hidden.None? {
        assert !MaskReads(rules[i]);
        return None;
      }
      if hidden.value {
        var names := RuleClasses(rules[i]);
        if names.None? {
          assert !MaskReads(rules[i]);
          return None;
        }
        mask := mask - Ids(names.value);
      }
    }
    assert rules[..|rules|] == rules;
    return Some(mask);
  }

  lemma NothingUnhides()
    ensures Unhidden([]) == AllClasses()
  {
  }

  lemma UnhiddenAppend(rules: seq<Json>, rule: Json)
    ensures Unhidden(rules + [rule]) ==
            if Hidden(rule) == Some(true) && RuleClasses(rule).Some? then Unhidden(rules) - Ids(RuleClasses(rule).value)
            else Unhidden(rules)
  {
    hide RuleClasses, Hidden, AllClasses, Ids;
    var all := rules + [rule];
    assert forall i :: 0 <= i < |rules| ==> all[i] == rules[i];
    assert all[|rules|] == rule;
  }

  /** A row of the table: the masks of one mode, rung by rung. */
  predicate IsRow(style: Json, m: nat, row: seq<set<nat>>)
    requires m < |MODE_ORDER|
  {
    |row| == ZOOM_STEPS && forall s :: 0 <= s < ZOOM_STEPS ==> ReadMask(style, Place(MODE_ORDER[m], s)) == Some(row[s])
  }

  /** compute_table: the mask of every mode and rung, or a build that stops. */
  method ComputeTable(style: Json) returns (table: Option<seq<seq<set<nat>>>>)
    ensures table.None? ==>
      exists m, s :: 0 <= m < |MODE_ORDER| && 0 <= s < ZOOM_STEPS && ReadMask(style, Place(MODE_ORDER[m], s)).None?
    ensures table.Some? ==>
      |table.value| == |MODE_ORDER| && forall m :: 0 <= m < |MODE_ORDER| ==> IsRow(style, m, table.value[m])
  {
    hide ReadMask;
    var rows: seq<seq<set<nat>>> := [];
    for m := 0 to |MODE_ORDER|
      invariant |rows| == m
      invariant forall k :: 0 <= k < m ==> IsRow(style, k, rows[k])
    {
      var row: seq<set<nat>> := [];
      for s := 0 to ZOOM_STEPS
        invariant |row| == s
        invariant forall k :: 0 <= k < s ==> ReadMask(style, Place(MODE_ORDER[m], k)) == Some(row[k])
      {
        var mask := ComputeReadMask(style, m, s);
        if mask.None? {
          return None;
        }
        row := row + [mask.value];
      }
      rows := rows + [row];
    }
    return Some(rows);
  }

  /** One cell of the table. */
  method ComputeReadMask(style: Json, m: nat, step: nat) returns (mask: Option<set<nat>>)
    requires m < |MODE_ORDER| && step < ZOOM_STEPS
    ensures mask == ReadMask(style, Place(MODE_ORDER[m], step))
  {
    hide MasksCompute, DrawnMask, ModeMask, Walk;
    var at := Place(MODE_ORDER[m], step);
    assert LegalPlace(at);
    var resolved := WalkNode(style, Some(at), true);
    if resolved.None? {
      return None;
    }
    var masks := ComputeMasks(resolved.value);
    if masks.None? {
      return None;
    }
    var drawn := ComputeDrawnMask(resolved.value);
    if drawn.None? {
      return None;
    }
    var both := masks.value[MODE_ORDER[m]] * drawn.value;
    return if both == {} then None else Some(both);
  }
}
