/** Resolving `when` blocks per travel mode and zoom rung (scripts/mapstyle_variants.py). */
module StyleVariants {

  datatype Option<+T> = None | Some(value: T)

  /** A style tree. Objects are maps: nothing below depends on the order of their keys. */
  datatype Json =
    | Null
    | Bool(b: bool)
    | Int(i: int)
    | Real(r: real)
    | Str(s: string)
    | List(items: seq<Json>)
    | Obj(fields: map<string, Json>)

  const MODE_ORDER: seq<string> := ["ride", "hike", "tourist"]
  const ZOOM_STEPS := 7
  const SELECTOR_KEYS: set<string> := {"modes", "steps"}

  /** The travel mode and rung a style is resolved for. */
  datatype Place = Place(mode: string, step: int)

  // ---------------------------------------------------------------------------------------
  // Entries.
  // ---------------------------------------------------------------------------------------

  /** A selector that is there; null counts as not there. */
  function Selector(e: map<string, Json>, key: string): Option<Json> {
    if key in e && e[key] != Null then Some(e[key]) else None
  }

  predicate IsModeName(j: Json) {
    j.Str? && j.s in MODE_ORDER
  }

  predicate IsRung(j: Json) {
    j.Int? && 0 <= j.i < ZOOM_STEPS
  }

  /** _check_entry raises nothing. */
  predicate GoodEntry(entry: Json) {
    entry.Obj? &&
    var e := entry.fields;
    var modes, steps := Selector(e, "modes"), Selector(e, "steps");
    && (modes.Some? ==> modes.value.List? && forall i :: 0 <= i < |modes.value.items| ==> IsModeName(modes.value.items[i]))
    && (steps.Some? ==> steps.value.List? && forall i :: 0 <= i < |steps.value.items| ==> IsRung(steps.value.items[i]))
    && "mode" !in e && "step" !in e && "match" !in e && "when" !in e
    && e.Keys - SELECTOR_KEYS != {}
  }

  predicate Matches(entry: Json, at: Place)
    requires GoodEntry(entry)
  {
    var modes, steps := Selector(entry.fields, "modes"), Selector(entry.fields, "steps");
    (modes.Some? ==> Str(at.mode) in modes.value.items) && (steps.Some? ==> Int(at.step) in steps.value.items)
  }

  // ---------------------------------------------------------------------------------------
  // Merging a patch.
  // ---------------------------------------------------------------------------------------

  /** The value of a patched field: objects merge into objects, anything else replaces. */
  function MergeValue(prior: Option<Json>, value: Json): Json
    decreases value, 1
  {
    if value.Obj? && prior.Some? && prior.value.Obj? then Obj(Merge(prior.value.fields, value)) else value
  }

  function Lookup(m: map<string, Json>, key: string): Option<Json> {
    if key in m then Some(m[key]) else None
  }

  function Merge(target: map<string, Json>, patch: Json): map<string, Json>
    requires patch.Obj?
    decreases patch, 0
  {
    map key | key in target.Keys + (patch.fields.Keys - SELECTOR_KEYS) ::
      if key in patch.fields && key !in SELECTOR_KEYS then MergeValue(Lookup(target, key), patch.fields[key])
      else target[key]
  }

  function Selecting(entries: seq<Json>, at: Option<Place>): seq<Json>
    requires forall i :: 0 <= i < |entries| ==> GoodEntry(entries[i])
  {
    if entries == [] || at.None? then []
    else
      var before := Selecting(entries[..|entries| - 1], at);
      var last := entries[|entries| - 1];
      if Matches(last, at.value) then before + [last] else before
  }

  /** Entries apply in order. */
  function ApplyAll(out: map<string, Json>, patches: seq<Json>): map<string, Json>
    requires forall i :: 0 <= i < |patches| ==> patches[i].Obj?
  {
    if patches == [] then out
    else Merge(ApplyAll(out, patches[..|patches| - 1]), patches[|patches| - 1])
  }

  // ---------------------------------------------------------------------------------------
  // The walk.
  // ---------------------------------------------------------------------------------------

  predicate ChildAllowed(allowed: bool, key: string) {
    allowed && key != "device"
  }

  /** The `when` list of an object, if it has one. */
  function WhenOf(fields: map<string, Json>): Option<Json> {
    Selector(fields, "when")
  }

  predicate GoodWhen(fields: map<string, Json>, allowed: bool) {
    var when := WhenOf(fields);
    when.Some? ==> allowed && when.value.List? && forall i :: 0 <= i < |when.value.items| ==> GoodEntry(when.value.items[i])
  }

  /** The entries of an object that apply at a place; none for base(). */
  function Patches(fields: map<string, Json>, at: Option<Place>): (r: seq<Json>)
    requires GoodWhen(fields, true)
  {
    if WhenOf(fields).None? then [] else Selecting(WhenOf(fields).value.items, at)
  }

  /** Every child of an object, or item of a list, walks through. */
  predicate ChildrenWalk(node: Json, at: Option<Place>, allowed: bool)
    decreases node, 0
  {
    match node
    case List(items) => forall i :: 0 <= i < |items| ==> Walk(items[i], at, allowed).Some?
    case Obj(fields) =>
      forall key :: key in fields && key != "when" ==> Walk(fields[key], at, ChildAllowed(allowed, key)).Some?
    case _ => true
  }

  function WalkedItems(node: Json, at: Option<Place>, allowed: bool): seq<Json>
    requires node.List? && ChildrenWalk(node, at, allowed)
    decreases node, 1
  {
    seq(|node.items|, i requires 0 <= i < |node.items| => Walk(node.items[i], at, allowed).value)
  }

  function WalkedFields(node: Json, at: Option<Place>, allowed: bool): map<string, Json>
    requires node.Obj? && ChildrenWalk(node, at, allowed)
    decreases node, 1
  {
    map key | key in node.fields && key != "when" :: Walk(node.fields[key], at, ChildAllowed(allowed, key)).value
  }

  /** _walk, with None for a VariantError; at None is base(). */
  function Walk(node: Json, at: Option<Place>, allowed: bool): Option<Json>
    decreases node, 2
  {
    if !ChildrenWalk(node, at, allowed) then None
    else
      match node
      case List(items) => Some(List(WalkedItems(node, at, allowed)))
      case Obj(fields) =>
        if !GoodWhen(fields, allowed) then None
        else
          SelectedAreObjects(fields, at, allowed);
          Some(Obj(ApplyAll(WalkedFields(node, at, allowed), Patches(fields, at))))
      case _ => Some(node)
  }

  lemma {:induction false} SelectedAreGood(entries: seq<Json>, at: Option<Place>)
    requires forall i :: 0 <= i < |entries| ==> GoodEntry(entries[i])
    ensures forall e :: e in Selecting(entries, at) ==> GoodEntry(e) && e in entries && at.Some? && Matches(e, at.value)
  {
    if entries != [] && at.Some? {
      SelectedAreGood(entries[..|entries| - 1], at);
    }
  }

  lemma SelectedAreObjects(fields: map<string, Json>, at: Option<Place>, allowed: bool)
    requires GoodWhen(fields, allowed)
    ensures forall i :: 0 <= i < |Patches(fields, at)| ==> Patches(fields, at)[i].Obj?
  {
    if WhenOf(fields).Some? {
      SelectedAreGood(WhenOf(fields).value.items, at);
      forall i | 0 <= i < |Patches(fields, at)|
        ensures Patches(fields, at)[i].Obj?
      {
        assert Patches(fields, at)[i] in Patches(fields, at);
      }
    }
  }

  predicate LegalPlace(at: Place) {
    at.mode in MODE_ORDER && 0 <= at.step < ZOOM_STEPS
  }

  function Resolve(style: Json, at: Place): Option<Json> {
    if LegalPlace(at) then Walk(style, Some(at), true) else None
  }

  function Base(style: Json): Option<Json> {
    Walk(style, None, true)
  }

  // ---------------------------------------------------------------------------------------
  // When the build fails.
  // ---------------------------------------------------------------------------------------

  /** Every `when` of the tree, reached without going into one, is legal where it stands. */
  predicate WellFormed(node: Json, allowed: bool)
    decreases node
  {
    match node
    case List(items) => forall i :: 0 <= i < |items| ==> WellFormed(items[i], allowed)
    case Obj(fields) =>
      && GoodWhen(fields, allowed)
      && forall key :: key in fields && key != "when" ==> WellFormed(fields[key], ChildAllowed(allowed, key))
    case _ => true
  }

  lemma {:induction false} WalkSucceeds(node: Json, at: Option<Place>, allowed: bool)
    ensures Walk(node, at, allowed).Some? <==> WellFormed(node, allowed)
    decreases node
  {
    match node
    case List(items) =>
      forall i | 0 <= i < |items| {
        WalkSucceeds(items[i], at, allowed);
      }
    case Obj(fields) =>
      forall key | key in fields && key != "when" {
        WalkSucceeds(fields[key], at, ChildAllowed(allowed, key));
      }
    case _ =>
  }

  /** A malformed `when` fails the build at every mode and rung or at none: exactly with base(). */
  lemma ResolveFailsWithBase(style: Json, at: Place)
    requires LegalPlace(at)
    ensures Resolve(style, at).None? <==> Base(style).None?
  {
    WalkSucceeds(style, Some(at), true);
    WalkSucceeds(style, None, true);
  }

  // ---------------------------------------------------------------------------------------
  // What resolving leaves alone.
  // ---------------------------------------------------------------------------------------

  predicate NoWhen(node: Json)
    decreases node
  {
    match node
    case List(items) => forall i :: 0 <= i < |items| ==> NoWhen(items[i])
    case Obj(fields) => "when" !in fields && forall key :: key in fields ==> NoWhen(fields[key])
    case _ => true
  }

  /** A plain style resolves to itself, whatever it is resolved for. */
  lemma {:induction false} PlainStyleIsFixed(node: Json, at: Option<Place>, allowed: bool)
    requires NoWhen(node)
    ensures Walk(node, at, allowed) == Some(node)
    decreases node
  {
    match node
    case List(items) =>
      forall i | 0 <= i < |items| {
        PlainStyleIsFixed(items[i], at, allowed);
      }
      assert WalkedItems(node, at, allowed) == items;
    case Obj(fields) =>
      forall key | key in fields {
        PlainStyleIsFixed(fields[key], at, ChildAllowed(allowed, key));
      }
      assert WalkedFields(node, at, allowed) == fields;
    case _ =>
  }

  /** No entry anywhere in the tree matches the place. */
  predicate NothingMatches(node: Json, at: Place)
    decreases node
  {
    match node
    case List(items) => forall i :: 0 <= i < |items| ==> NothingMatches(items[i], at)
    case Obj(fields) =>
      && (WhenOf(fields).Some? && WhenOf(fields).value.List? ==>
            forall i :: 0 <= i < |WhenOf(fields).value.items| ==>
              var e := WhenOf(fields).value.items[i]; GoodEntry(e) ==> !Matches(e, at))
      && forall key :: key in fields && key != "when" ==> NothingMatches(fields[key], at)
    case _ => true
  }

  lemma {:induction false} NothingSelected(entries: seq<Json>, at: Place)
    requires forall i :: 0 <= i < |entries| ==> GoodEntry(entries[i]) && !Matches(entries[i], at)
    ensures Selecting(entries, Some(at)) == []
  {
    if entries != [] {
      NothingSelected(entries[..|entries| - 1], at);
    }
  }

  /** Where no entry matches, resolving gives base(). */
  lemma {:induction false} UnmatchedIsBase(node: Json, at: Place, allowed: bool)
    requires NothingMatches(node, at)
    ensures Walk(node, Some(at), allowed) == Walk(node, None, allowed)
    decreases node
  {
    match node
    case List(items) =>
      forall i | 0 <= i < |items| {
        UnmatchedIsBase(items[i], at, allowed);
      }
      SameItems(node, Some(at), None, allowed);
    case Obj(fields) =>
      forall key | key in fields && key != "when" {
        UnmatchedIsBase(fields[key], at, ChildAllowed(allowed, key));
      }
      if GoodWhen(fields, allowed) {
        if WhenOf(fields).Some? {
          NothingSelected(WhenOf(fields).value.items, at);
          assert Selecting(WhenOf(fields).value.items, None) == [];
        }
        SameChildren(node, Some(at), None, allowed);
      }
    case _ =>
  }

  lemma SameItems(node: Json, a: Option<Place>, b: Option<Place>, allowed: bool)
    requires node.List?
    requires forall i :: 0 <= i < |node.items| ==> Walk(node.items[i], a, allowed) == Walk(node.items[i], b, allowed)
    ensures Walk(node, a, allowed) == Walk(node, b, allowed)
  {
    if ChildrenWalk(node, a, allowed) {
      assert WalkedItems(node, a, allowed) == WalkedItems(node, b, allowed);
    }
  }

  /** Objects whose children resolve alike and whose patches are alike resolve alike. */
  lemma SameChildren(node: Json, a: Option<Place>, b: Option<Place>, allowed: bool)
    requires node.Obj? && GoodWhen(node.fields, allowed) && Patches(node.fields, a) == Patches(node.fields, b)
    requires forall key :: key in node.fields && key != "when" ==>
      Walk(node.fields[key], a, ChildAllowed(allowed, key)) == Walk(node.fields[key], b, ChildAllowed(allowed, key))
    ensures Walk(node, a, allowed) == Walk(node, b, allowed)
  {
    hide ApplyAll, GoodWhen, Patches, ChildAllowed;
    if ChildrenWalk(node, a, allowed) {
      assert WalkedFields(node, a, allowed) == WalkedFields(node, b, allowed);
    }
  }

  /** Where `when` is banned, the place makes no difference. */
  lemma {:induction false} BannedIsInvariant(node: Json, at: Option<Place>)
    ensures Walk(node, at, false) == Walk(node, None, false)
    decreases node
  {
    match node
    case List(items) =>
      forall i | 0 <= i < |items| {
        BannedIsInvariant(items[i], at);
      }
      SameItems(node, at, None, false);
    case Obj(fields) =>
      forall key | key in fields && key != "when" {
        BannedIsInvariant(fields[key], at);
      }
      if GoodWhen(fields, false) {
        SameChildren(node, at, None, false);
      }
    case _ =>
  }

  // ---------------------------------------------------------------------------------------
  // What a patched field ends up as.
  // ---------------------------------------------------------------------------------------

  predicate Names(patch: Json, key: string) {
    patch.Obj? && key in patch.fields && key !in SELECTOR_KEYS
  }

  /** The value of one field under patches in order. */
  function FieldUnder(start: Option<Json>, patches: seq<Json>, key: string): Option<Json> {
    if patches == [] then start
    else
      var before, last := FieldUnder(start, patches[..|patches| - 1], key), patches[|patches| - 1];
      if Names(last, key) then Some(MergeValue(before, last.fields[key])) else before
  }

  lemma {:induction false} FieldOfApplied(out: map<string, Json>, patches: seq<Json>, key: string)
    requires forall i :: 0 <= i < |patches| ==> patches[i].Obj?
    ensures Lookup(ApplyAll(out, patches), key) == FieldUnder(Lookup(out, key), patches, key)
  {
    if patches != [] {
      FieldOfApplied(out, patches[..|patches| - 1], key);
    }
  }

  /** A field is what the patches of its object make of its own resolved value, one by one. */
  lemma ResolvedField(fields: map<string, Json>, at: Option<Place>, allowed: bool, key: string)
    requires WellFormed(Obj(fields), allowed)
    ensures var r := Walk(Obj(fields), at, allowed);
      r.Some? && r.value.Obj? &&
      Lookup(r.value.fields, key) ==
        FieldUnder(if key in fields && key != "when" then Walk(fields[key], at, ChildAllowed(allowed, key)) else None,
                   Patches(fields, at), key)
  {
    WalkSucceeds(Obj(fields), at, allowed);
    if key in fields && key != "when" {
      WalkSucceeds(fields[key], at, ChildAllowed(allowed, key));
    }
    SelectedAreObjects(fields, at, allowed);
    FieldOfApplied(WalkedFields(Obj(fields), at, allowed), Patches(fields, at), key);
  }

  /** The last patch that names a field decides it, when it gives a plain value. */
  lemma {:induction false} LastScalarWins(start: Option<Json>, patches: seq<Json>, key: string, i: nat)
    requires i < |patches| && Names(patches[i], key) && !patches[i].fields[key].Obj?
    requires forall j :: i < j < |patches| ==> !Names(patches[j], key)
    ensures FieldUnder(start, patches, key) == Some(patches[i].fields[key])
  {
    if i < |patches| - 1 {
      LastScalarWins(start, patches[..|patches| - 1], key, i);
    }
  }

  lemma {:induction false} UnnamedIsKept(start: Option<Json>, patches: seq<Json>, key: string)
    requires forall j :: 0 <= j < |patches| ==> !Names(patches[j], key)
    ensures FieldUnder(start, patches, key) == start
  {
    if patches != [] {
      UnnamedIsKept(start, patches[..|patches| - 1], key);
    }
  }

  /**
   * The resolved field of an object, told by its matching entries: the value of the last one that
   * names it if that is a plain value, the field's own resolved value if none does.
   */
  lemma PatchedField(fields: map<string, Json>, at: Place, allowed: bool, key: string, i: int)
    requires WellFormed(Obj(fields), allowed)
    requires -1 <= i < |Patches(fields, Some(at))|
    requires i >= 0 ==> Names(Patches(fields, Some(at))[i], key) && !Patches(fields, Some(at))[i].fields[key].Obj?
    requires forall j :: i < j < |Patches(fields, Some(at))| ==> !Names(Patches(fields, Some(at))[j], key)
    ensures var r := Walk(Obj(fields), Some(at), allowed);
      r.Some? && r.value.Obj? &&
      Lookup(r.value.fields, key) ==
        if i >= 0 then Some(Patches(fields, Some(at))[i].fields[key])
        else if key in fields && key != "when" then Walk(fields[key], Some(at), ChildAllowed(allowed, key))
        else None
  {
    ResolvedField(fields, Some(at), allowed, key);
    var start := if key in fields && key != "when" then Walk(fields[key], Some(at), ChildAllowed(allowed, key)) else None;
    if i >= 0 {
      LastScalarWins(start, Patches(fields, Some(at)), key, i);
    } else {
      UnnamedIsKept(start, Patches(fields, Some(at)), key);
    }
  }

  /** `device` is the base's at every mode and rung, up to the root's own patches that name it. */
  lemma DeviceIsBase(fields: map<string, Json>, at: Place)
    requires LegalPlace(at) && WellFormed(Obj(fields), true)
    ensures var r, b := Resolve(Obj(fields), at), Base(Obj(fields));
      && r.Some? && b.Some? && r.value.Obj? && b.value.Obj?
      && Lookup(r.value.fields, "device") ==
           FieldUnder(Lookup(b.value.fields, "device"), Patches(fields, Some(at)), "device")
      && ((forall j :: 0 <= j < |Patches(fields, Some(at))| ==> !Names(Patches(fields, Some(at))[j], "device")) ==>
            Lookup(r.value.fields, "device") == Lookup(b.value.fields, "device"))
  {
    ResolvedField(fields, Some(at), true, "device");
    ResolvedField(fields, None, true, "device");
    NoPatchesInBase(fields);
    if "device" in fields {
      BannedIsInvariant(fields["device"], Some(at));
    }
    var b := Base(Obj(fields));
    if forall j :: 0 <= j < |Patches(fields, Some(at))| ==> !Names(Patches(fields, Some(at))[j], "device") {
      UnnamedIsKept(Lookup(b.value.fields, "device"), Patches(fields, Some(at)), "device");
    }
  }

  lemma NoPatchesInBase(fields: map<string, Json>)
    requires GoodWhen(fields, true)
    ensures Patches(fields, None) == []
  {
  }

  const DEVICE := Obj(map["marker_x_px" := Int(100), "marker_y_px" := Int(200)])
  const DEVICE_PATCH := Obj(map["marker_x_px" := Int(150)])
  const MOVED_DEVICE := Obj(map["marker_x_px" := Int(150), "marker_y_px" := Int(200)])

  /** A style with a device object, and a root entry that patches one field of it everywhere. */
  function PatchedDevice(): map<string, Json> {
    map["device" := DEVICE, "when" := List([Obj(map["device" := DEVICE_PATCH])])]
  }

  lemma PatchedDeviceEntry(at: Place)
    ensures GoodWhen(PatchedDevice(), true) && Patches(PatchedDevice(), Some(at)) == [Obj(map["device" := DEVICE_PATCH])]
  {
    var entry := Obj(map["device" := DEVICE_PATCH]);
    assert "device" in entry.fields.Keys - SELECTOR_KEYS;
    assert GoodEntry(entry);
    OneEntry(entry, at);
  }

  lemma DeviceIsPlain()
    ensures NoWhen(DEVICE) && WellFormed(DEVICE, false)
  {
  }

  lemma DeviceMoves()
    ensures MergeValue(Some(DEVICE), DEVICE_PATCH) == MOVED_DEVICE
  {
    assert Merge(DEVICE.fields, DEVICE_PATCH) == MOVED_DEVICE.fields;
  }

  lemma PatchedDeviceWellFormed(at: Place)
    ensures WellFormed(Obj(PatchedDevice()), true)
  {
    PatchedDeviceEntry(at);
    DeviceIsPlain();
    hide GoodWhen;
  }

  /** The ban covers `when` blocks under `device`, not a root entry that patches it. */
  lemma RootPatchReachesDevice(at: Place)
    requires LegalPlace(at)
    ensures var r, b := Resolve(Obj(PatchedDevice()), at), Base(Obj(PatchedDevice()));
      && b.Some? && b.value.Obj? && r.Some? && r.value.Obj?
      && Lookup(b.value.fields, "device") == Some(DEVICE) && Lookup(r.value.fields, "device") == Some(MOVED_DEVICE)
  {
    hide Walk, WellFormed, GoodEntry, GoodWhen, Patches, MergeValue, NoWhen;
    PatchedDeviceEntry(at);
    PatchedDeviceWellFormed(at);
    DeviceIsPlain();
    PlainStyleIsFixed(DEVICE, None, false);
    PatchedOnce(DEVICE, Obj(map["device" := DEVICE_PATCH]), "device");
    DeviceMoves();
    DeviceIsBase(PatchedDevice(), at);
    PatchedInBase(PatchedDevice(), "device");
  }

  lemma PatchedOnce(start: Json, entry: Json, key: string)
    requires Names(entry, key)
    ensures FieldUnder(Some(start), [entry], key) == Some(MergeValue(Some(start), entry.fields[key]))
  {
    assert [entry][..0] == [];
  }

  /** In base() a field of the root is its own resolved value. */
  lemma PatchedInBase(fields: map<string, Json>, key: string)
    requires WellFormed(Obj(fields), true) && key in fields && key != "when"
    ensures var b := Base(Obj(fields));
      b.Some? && b.value.Obj? && Lookup(b.value.fields, key) == Walk(fields[key], None, ChildAllowed(true, key))
  {
    ResolvedField(fields, None, true, key);
    NoPatchesInBase(fields);
  }

  lemma OneEntry(entry: Json, at: Place)
    requires GoodEntry(entry) && Selector(entry.fields, "modes").None? && Selector(entry.fields, "steps").None?
    ensures Selecting([entry], Some(at)) == [entry]
  {
    assert [entry][..0] == [];
    assert Selecting([], Some(at)) == [];
  }

  // ---------------------------------------------------------------------------------------
  // Where the parts of a resolved style come from.
  // ---------------------------------------------------------------------------------------

  /** One step into a tree. */
  datatype PathStep = Field(name: string) | Item(index: nat)

  /** There is something at a path. */
  predicate Present(j: Json, path: seq<PathStep>)
    decreases |path|
  {
    path == [] ||
    match path[0]
    case Field(name) => j.Obj? && name in j.fields && Present(j.fields[name], path[1..])
    case Item(index) => j.List? && index < |j.items| && Present(j.items[index], path[1..])
  }

  predicate PresentIn(j: Option<Json>, path: seq<PathStep>) {
    j.Some? && Present(j.value, path)
  }

  /** A patch value that leaves what is at a path as it was: it does not name it, nor replace
      anything on the way to it. */
  predicate Leaves(value: Json, path: seq<PathStep>)
    decreases |path|
  {
    path != [] && path[0].Field? && value.Obj?
    && (path[0].name in value.fields && path[0].name !in SELECTOR_KEYS ==> Leaves(value.fields[path[0].name], path[1..]))
  }

  /** A patch value that brings something to a path, over what stood there. Merging an object into
      an object drops its `modes` and `steps`; a copied value keeps them. */
  predicate Brings(value: Json, prior: Option<Json>, path: seq<PathStep>)
    decreases |path|
  {
    path == [] ||
    if value.Obj? && prior.Some? && prior.value.Obj? then
      path[0].Field? && path[0].name in value.fields && path[0].name !in SELECTOR_KEYS
      && Brings(value.fields[path[0].name], Lookup(prior.value.fields, path[0].name), path[1..])
    else Present(value, path)
  }

  lemma {:induction false} MergedPresent(prior: Option<Json>, value: Json, path: seq<PathStep>)
    ensures Present(MergeValue(prior, value), path) <==>
            Brings(value, prior, path) || (PresentIn(prior, path) && Leaves(value, path))
    decreases |path|
  {
    if path != [] && path[0].Field? && value.Obj? && prior.Some? && prior.value.Obj? {
      var name := path[0].name;
      if name in value.fields && name !in SELECTOR_KEYS {
        MergedPresent(Lookup(prior.value.fields, name), value.fields[name], path[1..]);
      }
    }
  }

  /** Patch m of a field, or the field's own value for -1, brings something to a path. */
  predicate Source(start: Option<Json>, patches: seq<Json>, key: string, path: seq<PathStep>, m: int)
    requires -1 <= m < |patches|
  {
    if m < 0 then PresentIn(start, path)
    else Names(patches[m], key) && Brings(patches[m].fields[key], FieldUnder(start, patches[..m], key), path)
  }

  /** No patch after m touches the path. */
  predicate LeftAfter(patches: seq<Json>, key: string, path: seq<PathStep>, m: int)
    requires -1 <= m < |patches|
  {
    forall l :: m < l < |patches| && Names(patches[l], key) ==> Leaves(patches[l].fields[key], path)
  }

  /** Something is at a path of a patched field exactly when some patch, or the field itself,
      brought it and no later patch touched the path. */
  lemma {:induction false} FieldPresent(start: Option<Json>, patches: seq<Json>, key: string, path: seq<PathStep>)
    ensures PresentIn(FieldUnder(start, patches, key), path) <==>
            exists m :: -1 <= m < |patches| && Source(start, patches, key, path, m) && LeftAfter(patches, key, path, m)
  {
    if patches == [] {
      assert LeftAfter(patches, key, path, -1);
    } else {
      var n := |patches| - 1;
      var before, last := patches[..n], patches[n];
      FieldPresent(start, before, key, path);
      var prior := FieldUnder(start, before, key);
      if Names(last, key) {
        MergedPresent(prior, last.fields[key], path);
      }
      var leaves := Names(last, key) ==> Leaves(last.fields[key], path);
      hide Leaves, Brings, MergeValue, Names;
      forall m | -1 <= m < n
        ensures Source(start, patches, key, path, m) <==> Source(start, before, key, path, m)
        ensures LeftAfter(patches, key, path, m) <==> LeftAfter(before, key, path, m) && leaves
      {
        SourceBefore(start, patches, key, path, m);
        LeftBefore(patches, key, path, m);
      }
      assert LeftAfter(patches, key, path, n);
    }
  }

  lemma SourceBefore(start: Option<Json>, patches: seq<Json>, key: string, path: seq<PathStep>, m: int)
    requires patches != [] && -1 <= m < |patches| - 1
    ensures Source(start, patches, key, path, m) <==> Source(start, patches[..|patches| - 1], key, path, m)
  {
    if m >= 0 {
      assert patches[..|patches| - 1][..m] == patches[..m];
    }
  }

  lemma LeftBefore(patches: seq<Json>, key: string, path: seq<PathStep>, m: int)
    requires patches != [] && -1 <= m < |patches| - 1
    ensures var last := patches[|patches| - 1];
      LeftAfter(patches, key, path, m) <==>
      LeftAfter(patches[..|patches| - 1], key, path, m) && (Names(last, key) ==> Leaves(last.fields[key], path))
  {
    var n := |patches| - 1;
    assert forall l :: 0 <= l < n ==> patches[..n][l] == patches[l];
  }

  /** The resolved value of a field before its object's own patches. */
  function OwnField(fields: map<string, Json>, at: Option<Place>, allowed: bool, key: string): Option<Json> {
    if key in fields && key != "when" then Walk(fields[key], at, ChildAllowed(allowed, key)) else None
  }

  /** Told on the style itself: some matching entry, or the tree, brings something to a path of the
      resolved style, and no later matching entry touches the path. */
  predicate Comes(node: Json, at: Option<Place>, allowed: bool, path: seq<PathStep>)
    requires WellFormed(node, allowed)
    decreases |path|
  {
    path == [] ||
    match path[0]
    case Item(index) => node.List? && index < |node.items| && Comes(node.items[index], at, allowed, path[1..])
    case Field(key) =>
      node.Obj? &&
      var patches := Patches(node.fields, at);
      exists m :: -1 <= m < |patches| && LeftAfter(patches, key, path[1..], m) &&
        if m < 0 then key in node.fields && key != "when" && Comes(node.fields[key], at, ChildAllowed(allowed, key), path[1..])
        else Source(OwnField(node.fields, at, allowed, key), patches, key, path[1..], m)
  }

  /** For every style, place and path: something is there in the resolved style exactly when it
      comes from the tree or a matching entry and survives the entries after. */
  lemma {:induction false} ResolvedPresent(node: Json, at: Option<Place>, allowed: bool, path: seq<PathStep>)
    requires WellFormed(node, allowed)
    ensures PresentIn(Walk(node, at, allowed), path) <==> Comes(node, at, allowed, path)
    decreases |path|
  {
    WalkSucceeds(node, at, allowed);
    if path != [] {
      match path[0]
      case Item(index) =>
        WalkedKind(node, at, allowed);
        if node.List? && index < |node.items| {
          ResolvedPresent(node.items[index], at, allowed, path[1..]);
        }
      case Field(key) =>
        WalkedKind(node, at, allowed);
        if node.Obj? {
          ResolvedField(node.fields, at, allowed, key);
          if key in node.fields && key != "when" {
            ResolvedPresent(node.fields[key], at, ChildAllowed(allowed, key), path[1..]);
          }
          hide Walk, WellFormed, Patches, FieldUnder, LeftAfter, Names, Brings;
          FieldPresent(OwnField(node.fields, at, allowed, key), Patches(node.fields, at), key, path[1..]);
        }
    }
  }

  lemma WalkedKind(node: Json, at: Option<Place>, allowed: bool)
    requires WellFormed(node, allowed)
    ensures var r := Walk(node, at, allowed);
      && r.Some? && (node.List? <==> r.value.List?) && (node.Obj? <==> r.value.Obj?)
      && (node.List? ==> |r.value.items| == |node.items|)
      && (node.List? ==> forall i :: 0 <= i < |node.items| ==> Walk(node.items[i], at, allowed) == Some(r.value.items[i]))
  {
    WalkSucceeds(node, at, allowed);
  }

  predicate EndsInWhen(path: seq<PathStep>) {
    path != [] && path[|path| - 1] == Field("when")
  }

  lemma {:induction false} PlainHasNoWhen(j: Json, path: seq<PathStep>)
    requires NoWhen(j) && EndsInWhen(path)
    ensures !Present(j, path)
    decreases |path|
  {
    if |path| > 1 {
      match path[0]
      case Field(name) =>
        if j.Obj? && name in j.fields {
          PlainHasNoWhen(j.fields[name], path[1..]);
        }
      case Item(index) =>
        if j.List? && index < |j.items| {
          PlainHasNoWhen(j.items[index], path[1..]);
        }
    }
  }

  lemma {:induction false} WhenIsSomewhere(j: Json) returns (path: seq<PathStep>)
    requires !NoWhen(j)
    ensures EndsInWhen(path) && Present(j, path)
    decreases j
  {
    match j
    case List(items) =>
      var i :| 0 <= i < |items| && !NoWhen(items[i]);
      var rest := WhenIsSomewhere(items[i]);
      path := [Item(i)] + rest;
    case Obj(fields) =>
      if "when" in fields {
        path := [Field("when")];
      } else {
        var key :| key in fields && !NoWhen(fields[key]);
        var rest := WhenIsSomewhere(fields[key]);
        path := [Field(key)] + rest;
      }
  }

  /**
   * For every style that resolves, at every place: the resolved style is a plain one exactly when
   * no `when` comes to any path of it, that is when every `when` inside the patch value of a
   * matching entry is dropped by a merge or covered by a later matching entry.
   */
  lemma ResolvedIsPlain(node: Json, at: Option<Place>, allowed: bool)
    requires WellFormed(node, allowed)
    ensures Walk(node, at, allowed).Some?
    ensures NoWhen(Walk(node, at, allowed).value) <==> forall path :: EndsInWhen(path) ==> !Comes(node, at, allowed, path)
  {
    WalkSucceeds(node, at, allowed);
    hide Walk, WellFormed, Comes;
    var r := Walk(node, at, allowed).value;
    if NoWhen(r) {
      forall path | EndsInWhen(path)
        ensures !Comes(node, at, allowed, path)
      {
        PlainHasNoWhen(r, path);
        ResolvedPresent(node, at, allowed, path);
      }
    } else {
      var path := WhenIsSomewhere(r);
      ResolvedPresent(node, at, allowed, path);
    }
  }

  /** The tree itself brings no `when`: what comes to one was brought by a matching entry. */
  lemma {:induction false} WhenComesFromEntry(node: Json, at: Option<Place>, allowed: bool, path: seq<PathStep>)
    requires WellFormed(node, allowed) && EndsInWhen(path) && Comes(node, at, allowed, path)
    ensures at.Some? && !PatchesClean(node, at.value)
    decreases |path|
  {
    match path[0]
    case Item(index) =>
      WhenComesFromEntry(node.items[index], at, allowed, path[1..]);
    case Field(key) =>
      var patches := Patches(node.fields, at);
      var m :| -1 <= m < |patches| && LeftAfter(patches, key, path[1..], m) &&
        if m < 0 then key in node.fields && key != "when" && Comes(node.fields[key], at, ChildAllowed(allowed, key), path[1..])
        else Source(OwnField(node.fields, at, allowed, key), patches, key, path[1..], m);
      if m < 0 {
        WhenComesFromEntry(node.fields[key], at, ChildAllowed(allowed, key), path[1..]);
      } else {
        PatchIsSelected(node.fields, at, allowed, m);
        BroughtIsPresent(patches[m].fields[key], FieldUnder(OwnField(node.fields, at, allowed, key), patches[..m], key), path[1..]);
        assert key != "when" && path[1..] != [];
        if NoWhen(patches[m].fields[key]) {
          PlainHasNoWhen(patches[m].fields[key], path[1..]);
        }
      }
  }

  lemma PatchIsSelected(fields: map<string, Json>, at: Option<Place>, allowed: bool, m: int)
    requires GoodWhen(fields, allowed) && 0 <= m < |Patches(fields, at)|
    ensures var e := Patches(fields, at)[m];
      WhenOf(fields).Some? && e in WhenOf(fields).value.items && GoodEntry(e) && at.Some? && Matches(e, at.value)
  {
    SelectedAreGood(WhenOf(fields).value.items, at);
    assert Patches(fields, at)[m] in Patches(fields, at);
  }

  lemma {:induction false} BroughtIsPresent(value: Json, prior: Option<Json>, path: seq<PathStep>)
    requires Brings(value, prior, path)
    ensures Present(value, path)
    decreases |path|
  {
    if path != [] && value.Obj? && prior.Some? && prior.value.Obj? {
      BroughtIsPresent(value.fields[path[0].name], Lookup(prior.value.fields, path[0].name), path[1..]);
    }
  }

  predicate CleanFields(fields: map<string, Json>) {
    "when" !in fields && forall key :: key in fields ==> NoWhen(fields[key])
  }

  predicate CleanWhenMatching(entry: Json, at: Place) {
    GoodEntry(entry) && Matches(entry, at) ==> CleanFields(entry.fields)
  }

  /** No entry that matches the place carries a `when` inside a patch value. */
  predicate PatchesClean(node: Json, at: Place)
    decreases node
  {
    match node
    case List(items) => forall i :: 0 <= i < |items| ==> PatchesClean(items[i], at)
    case Obj(fields) =>
      && (WhenOf(fields).Some? && WhenOf(fields).value.List? ==>
            forall e :: e in WhenOf(fields).value.items ==> CleanWhenMatching(e, at))
      && forall key :: key in fields && key != "when" ==> PatchesClean(fields[key], at)
    case _ => true
  }

  /** Where the matching patches are clean the resolved style is plain, and resolving it again, for
      any place, changes nothing. */
  lemma ResolveIsIdempotent(style: Json, at: Place, again: Place)
    requires PatchesClean(style, at) && Resolve(style, at).Some? && LegalPlace(again)
    ensures NoWhen(Resolve(style, at).value)
    ensures Resolve(Resolve(style, at).value, again) == Resolve(style, at)
  {
    hide Walk, WellFormed, Comes, PatchesClean, NoWhen;
    WalkSucceeds(style, Some(at), true);
    ResolvedIsPlain(style, Some(at), true);
    forall path | EndsInWhen(path)
      ensures !Comes(style, Some(at), true, path)
    {
      if Comes(style, Some(at), true, path) {
        WhenComesFromEntry(style, Some(at), true, path);
      }
    }
    PlainStyleIsFixed(Resolve(style, at).value, Some(again), true);
  }

  /** Patch values are copied unwalked: a `when` inside one, of a list or of an object, survives
      resolving if the merge keeps it and no later matching entry touches it. */
  lemma NestedWhenSurvives(fields: map<string, Json>, at: Place, key: string, path: seq<PathStep>, m: nat)
    requires WellFormed(Obj(fields), true) && LegalPlace(at) && m < |Patches(fields, Some(at))|
    requires EndsInWhen(path)
    requires Source(OwnField(fields, Some(at), true, key), Patches(fields, Some(at)), key, path, m)
    requires LeftAfter(Patches(fields, Some(at)), key, path, m)
    ensures Resolve(Obj(fields), at).Some? && !NoWhen(Resolve(Obj(fields), at).value)
  {
    var whole := [Field(key)] + path;
    assert whole[1..] == path;
    assert Comes(Obj(fields), Some(at), true, whole);
    ResolvedIsPlain(Obj(fields), Some(at), true);
  }

  /** The plain case: an object patch with a `when` of its own, last to name its field. */
  lemma ObjectPatchKeepsWhen(fields: map<string, Json>, at: Place, key: string, m: nat)
    requires WellFormed(Obj(fields), true) && LegalPlace(at) && m < |Patches(fields, Some(at))|
    requires var e := Patches(fields, Some(at))[m]; Names(e, key) && e.fields[key].Obj? && "when" in e.fields[key].fields
    requires forall l :: m < l < |Patches(fields, Some(at))| ==> !Names(Patches(fields, Some(at))[l], key)
    ensures Resolve(Obj(fields), at).Some? && !NoWhen(Resolve(Obj(fields), at).value)
  {
    hide Walk, NoWhen;
    var patches := Patches(fields, Some(at));
    var path := [Field("when")];
    assert path[1..] == [];
    var prior := FieldUnder(OwnField(fields, Some(at), true, key), patches[..m], key);
    assert Brings(patches[m].fields[key], prior, path);
    NestedWhenSurvives(fields, at, key, path, m);
  }

  // ---------------------------------------------------------------------------------------
  // The code: dictionaries filled and patched in place.
  // ---------------------------------------------------------------------------------------

  /** _merge: the keys of the patch, in whatever order the dictionary yields them. */
  method MergeInto(target: map<string, Json>, patch: Json) returns (out: map<string, Json>)
    requires patch.Obj?
    ensures out == Merge(target, patch)
    decreases patch
  {
    out := target;
    var keys := patch.fields.Keys;
    while keys != {}
      invariant keys <= patch.fields.Keys
      invariant forall key :: Lookup(out, key) == Lookup(if key in keys then target else Merge(target, patch), key)
      decreases keys
    {
      var key :| key in keys;
      keys := keys - {key};
      if key in SELECTOR_KEYS {
        continue;
      }
      var value := patch.fields[key];
      if value.Obj? && key in out && out[key].Obj? {
        assert Lookup(out, key) == Lookup(target, key);
        var merged := MergeInto(out[key].fields, value);
        out := out[key := Obj(merged)];
      } else {
        assert Lookup(out, key) == Lookup(target, key);
        out := out[key := value];
      }
    }
    SameLookups(out, Merge(target, patch));
  }

  lemma SameLookups(a: map<string, Json>, b: map<string, Json>)
    requires forall key :: Lookup(a, key) == Lookup(b, key)
    ensures a == b
  {
    forall key
      ensures key in a <==> key in b
      ensures key in a ==> a[key] == b[key]
    {
      assert Lookup(a, key) == Lookup(b, key);
    }
  }

  /** The `when` loop of _walk: every entry is checked, the matching ones are merged in order. */
  method ApplyEntries(start: map<string, Json>, entries: seq<Json>, at: Option<Place>) returns (r: Option<map<string, Json>>)
    ensures r.Some? <==> forall i :: 0 <= i < |entries| ==> GoodEntry(entries[i])
    ensures r.Some? ==>
      (forall i :: 0 <= i < |Selecting(entries, at)| ==> Selecting(entries, at)[i].Obj?) &&
      r.value == ApplyAll(start, Selecting(entries, at))
  {
    var out := start;
    for i := 0 to |entries|
      invariant forall k :: 0 <= k < i ==> GoodEntry(entries[k])
      invariant forall k :: 0 <= k < |Selecting(entries[..i], at)| ==> Selecting(entries[..i], at)[k].Obj?
      invariant out == ApplyAll(start, Selecting(entries[..i], at))
    {
      if !GoodEntry(entries[i]) {
        return None;
      }
      assert entries[..i + 1][..i] == entries[..i];
      if at.Some? && Matches(entries[i], at.value) {
        var before := Selecting(entries[..i], at);
        assert Selecting(entries[..i + 1], at) == before + [entries[i]];
        assert (before + [entries[i]])[..|before|] == before;
        out := MergeInto(out, entries[i]);
      }
    }
    assert entries[..|entries|] == entries;
    return Some(out);
  }

  /** _walk. */
  method WalkNode(node: Json, at: Option<Place>, allowed: bool) returns (r: Option<Json>)
    ensures r == Walk(node, at, allowed)
    decreases node
  {
    match node {
      case List(items) =>
        var walked := [];
        for i := 0 to |items|
          invariant |walked| == i
          invariant forall k :: 0 <= k < i ==> Walk(items[k], at, allowed) == Some(walked[k])
        {
          var item := WalkNode(items[i], at, allowed);
          if item.None? {
            return None;
          }
          walked := walked + [item.value];
        }
        assert walked == WalkedItems(node, at, allowed);
        return Some(List(walked));
      case Obj(fields) =>
        var out: map<string, Json> := map[];
        var keys := fields.Keys - {"when"};
        while keys != {}
          invariant keys <= fields.Keys - {"when"}
          invariant out.Keys == fields.Keys - {"when"} - keys
          invariant forall key :: key in out ==> Walk(fields[key], at, ChildAllowed(allowed, key)) == Some(out[key])
          decreases keys
        {
          var key :| key in keys;
          keys := keys - {key};
          var child := WalkNode(fields[key], at, allowed && key != "device");
          if child.None? {
            return None;
          }
          out := out[key := child.value];
        }
        assert out == WalkedFields(node, at, allowed);
        if "when" !in fields || fields["when"] == Null {
          return Some(Obj(out));
        }
        if !allowed || !fields["when"].List? {
          return None;
        }
        var patched := ApplyEntries(out, fields["when"].items, at);
        if patched.None? {
          return None;
        }
        return Some(Obj(patched.value));
      case _ =>
        return Some(node);
    }
  }
}
