/** Moving the card's root directory (src/CardRootMigration.h, src/CardRootMigration.cpp). */
module CardRootMigration {

  type FileId = nat

  datatype Root = NoDir | Dir(files: set<FileId>)

  /** The two roots on the card: /trailink and /explorink. */
  datatype Card = Card(legacy: Root, current: Root)

  /**
   * What becomes of one storage operation. A rename creates the destination and only then hands
   * it the source's data, so it can fail, or the power can go, with an empty destination left.
   */
  datatype Fate = Works | Fails | FailsHalf | Dies | DiesHalf | DiesDone

  predicate Deadly(fate: Fate) {
    fate == Dies || fate == DiesHalf || fate == DiesDone
  }

  datatype Action = Nothing | MoveDirectory | Refuse

  function Decide(legacyExists: bool, newExists: bool): Action {
    if !legacyExists then Nothing else if !newExists then MoveDirectory else Refuse
  }

  predicate CanRename(c: Card) {
    c.legacy.Dir? && c.current.NoDir?
  }

  function Renamed(c: Card, fate: Fate): Card {
    if !CanRename(c) then c
    else if fate == Works || fate == DiesDone then Card(NoDir, c.legacy)
    else if fate == FailsHalf || fate == DiesHalf then c.(current := Dir({}))
    else c
  }

  /** rmdir of the new root: only ever an empty one. */
  predicate CanRemove(c: Card) {
    c.current == Dir({})
  }

  function Removed(c: Card, fate: Fate): Card {
    if CanRemove(c) && (fate == Works || fate == DiesDone) then c.(current := NoDir) else c
  }

  /** What the card does to one boot: whether it is ready, which of the three exists answers are
      wrong, and the fates of the operations the boot may come to. */
  datatype Boot = Boot(ready: bool, legacyWrong: bool, newWrong: bool, rescueWrong: bool,
                       firstRmdir: Fate, rename: Fate, rescueRmdir: Fate, secondRename: Fate)

  /** The answer of exists, which may be wrong. */
  function Seen(root: Root, wrong: bool): bool {
    root.Dir? != wrong
  }

  function Moved(c: Card, b: Boot): Card {
    var c1 := Renamed(c, b.rename);
    if Deadly(b.rename) || (CanRename(c) && b.rename == Works) || !Seen(c1.current, b.rescueWrong) then c1
    else
      var c2 := Removed(c1, b.rescueRmdir);
      if Deadly(b.rescueRmdir) || !CanRemove(c1) || b.rescueRmdir != Works then c2
      else Renamed(c2, b.secondRename)
  }

  function Booted(c: Card, b: Boot): Card {
    if !b.ready then c
    else
      match Decide(Seen(c.legacy, b.legacyWrong), Seen(c.current, b.newWrong))
      case Nothing => c
      case MoveDirectory => Moved(c, b)
      case Refuse =>
        var c1 := Removed(c, b.firstRmdir);
        if CanRemove(c) && b.firstRmdir == Works then Moved(c1, b) else c1
  }

  // ---------------------------------------------------------------------------------------
  // The code, over a card whose operations meet their fates.
  // ---------------------------------------------------------------------------------------

  class Storage {
    var legacy: Root
    var current: Root
    var powered: bool

    function Value(): Card
      reads this
    {
      Card(legacy, current)
    }

    constructor (c: Card)
      ensures Value() == c && powered
    {
      legacy, current, powered := c.legacy, c.current, true;
    }

    method Rename(fate: Fate) returns (ok: bool)
      requires powered
      modifies this
      ensures Value() == Renamed(old(Value()), fate)
      ensures powered == !Deadly(fate)
      ensures ok == (CanRename(old(Value())) && fate == Works)
    {
      powered := !Deadly(fate);
      ok := false;
      if legacy.Dir? && current.NoDir? {
        match fate {
          case Works => legacy, current, ok := NoDir, legacy, true;
          case DiesDone => legacy, current := NoDir, legacy;
          case FailsHalf => current := Dir({});
          case DiesHalf => current := Dir({});
          case Fails =>
          case Dies =>
        }
      }
    }

    method Rmdir(fate: Fate) returns (ok: bool)
      requires powered
      modifies this
      ensures Value() == Removed(old(Value()), fate)
      ensures powered == !Deadly(fate)
      ensures ok == (CanRemove(old(Value())) && fate == Works)
    {
      powered := !Deadly(fate);
      ok := false;
      if current == Dir({}) && (fate == Works || fate == DiesDone) {
        current := NoDir;
        ok := fate == Works;
      }
    }

    method TryMove(b: Boot) returns (ok: bool)
      requires powered
      modifies this
      ensures Value() == Moved(old(Value()), b)
      ensures ok ==> powered && legacy.NoDir?
    {
      var renamed := Rename(b.rename);
      if !powered {
        return false;
      }
      if renamed {
        return true;
      }
      if Seen(current, b.rescueWrong) {
        var removed := Rmdir(b.rescueRmdir);
        if !powered {
          return false;
        }
        if removed {
          renamed := Rename(b.secondRename);
          return renamed && powered;
        }
      }
      return false;
    }

    method MigrateCardRootDir(b: Boot)
      requires powered
      modifies this
      ensures Value() == Booted(old(Value()), b)
    {
      if !b.ready {
        return;
      }
      var action := Decide(Seen(legacy, b.legacyWrong), Seen(current, b.newWrong));
      match action {
        case Nothing => return;
        case MoveDirectory =>
          var _ := TryMove(b);
        case Refuse =>
          var removed := Rmdir(b.firstRmdir);
          if powered && removed {
            var _ := TryMove(b);
          }
      }
    }
  }

  // ---------------------------------------------------------------------------------------
  // Runs of boots and of writes by the rest of the firmware.
  // ---------------------------------------------------------------------------------------

  /** A foreign write creates the new root when it is missing: no subsystem knows of the move. */
  datatype Event = BootEvent(boot: Boot) | ForeignWrite(file: FileId)

  function Step(c: Card, e: Event): Card {
    match e
    case BootEvent(b) => Booted(c, b)
    case ForeignWrite(file) => c.(current := Dir((if c.current.Dir? then c.current.files else {}) + {file}))
  }

  function Run(c: Card, events: seq<Event>): Card {
    if events == [] then c else Step(Run(c, events[..|events| - 1]), events[|events| - 1])
  }

  function Written(events: seq<Event>): set<FileId> {
    set e | e in events && e.ForeignWrite? :: e.file
  }

  /** Nothing moved: the legacy root is whole, the new one is missing or holds foreign files only. */
  predicate Waiting(c: Card, history: set<FileId>, foreign: set<FileId>) {
    c.legacy == Dir(history) && (c.current == Dir(foreign) || (c.current == NoDir && foreign == {}))
  }

  /** All moved: the legacy contents are under the new root, with the foreign files. */
  predicate Migrated(c: Card, history: set<FileId>, foreign: set<FileId>) {
    c.legacy == NoDir && c.current == Dir(history + foreign)
  }

  /** There was nothing to move and nothing is left: an empty new root was cleared away. */
  predicate Vanished(c: Card, history: set<FileId>, foreign: set<FileId>) {
    c == Card(NoDir, NoDir) && history == {} && foreign == {}
  }

  predicate Whole(c: Card, history: set<FileId>, foreign: set<FileId>) {
    Waiting(c, history, foreign) || Migrated(c, history, foreign) || Vanished(c, history, foreign)
  }

  predicate Done(fate: Fate) {
    fate == Works || fate == DiesDone
  }

  /** An empty new root that is in the way is seen, removed, and the move made after all. */
  predicate RescueGoesThrough(b: Boot) {
    !b.rescueWrong && b.rescueRmdir == Works && Done(b.secondRename)
  }

  /** The move with no new root in the way: at once, or after a half-done rename. */
  predicate MoveGoesThrough(b: Boot) {
    Done(b.rename) || (b.rename == FailsHalf && RescueGoesThrough(b))
  }

  /** The first look at an empty new root: cleared before the move, or overlooked and cleared by
      the move itself. */
  predicate EmptyRootGoes(b: Boot) {
    if b.newWrong then !Deadly(b.rename) && RescueGoesThrough(b) else b.firstRmdir == Works && MoveGoesThrough(b)
  }

  /** An empty new root is removed though there is nothing to move. */
  predicate EmptyRootIsCleared(b: Boot) {
    if b.newWrong then !Deadly(b.rename) && !b.rescueWrong && Done(b.rescueRmdir) else Done(b.firstRmdir)
  }

  /**
   * One boot, whatever its exists answers. It migrates a waiting card exactly when the card is
   * ready, the legacy root is seen, no foreign file is under the new root, and the move goes
   * through; where nothing waits, it changes something exactly when a legacy root is seen that is
   * not there and an empty new root is cleared for it.
   */
  lemma BootOutcome(c: Card, b: Boot, history: set<FileId>, foreign: set<FileId>)
    requires Whole(c, history, foreign)
    ensures Whole(Booted(c, b), history, foreign)
    ensures Waiting(c, history, foreign) ==>
              (Migrated(Booted(c, b), history, foreign) <==>
               b.ready && !b.legacyWrong && foreign == {}
               && if c.current.Dir? then EmptyRootGoes(b) else !b.newWrong && MoveGoesThrough(b))
    ensures !Waiting(c, history, foreign) ==>
              (Booted(c, b) != c <==> b.ready && b.legacyWrong && c.current == Dir({}) && EmptyRootIsCleared(b))
    ensures !Waiting(c, history, foreign) ==> !Waiting(Booted(c, b), history, foreign)
  {
  }

  /** With both roots there and the new one not empty, the migration changes nothing. */
  lemma ConflictIsLeftAlone(c: Card, b: Boot)
    requires c.legacy.Dir? && c.current.Dir? && c.current.files != {}
    ensures Booted(c, b) == c
  {
  }

  lemma WrittenStep(events: seq<Event>)
    requires events != []
    ensures var last := events[|events| - 1];
      Written(events) == Written(events[..|events| - 1]) + if last.ForeignWrite? then {last.file} else {}
  {
    assert events == events[..|events| - 1] + [events[|events| - 1]];
  }

  /**
   * Main result: over every run of boots, crashes, half-done renames and foreign writes, the
   * legacy contents stay whole under one root and every foreign file is still there.
   */
  lemma {:induction false} RunStaysWhole(c: Card, events: seq<Event>, history: set<FileId>, foreign: set<FileId>)
    requires Whole(c, history, foreign)
    ensures Whole(Run(c, events), history, foreign + Written(events))
  {
    if events == [] {
      assert foreign + {} == foreign;
    } else {
      var before := events[..|events| - 1];
      RunStaysWhole(c, before, history, foreign);
      WrittenStep(events);
      match events[|events| - 1]
      case BootEvent(b) =>
        assert foreign + Written(events) == foreign + Written(before);
        BootOutcome(Run(c, before), b, history, foreign + Written(before));
      case ForeignWrite(file) =>
        assert foreign + Written(events) == foreign + Written(before) + {file};
        assert history + (foreign + Written(before)) + {file} == history + (foreign + Written(before) + {file});
    }
  }

  predicate AllWork(b: Boot) {
    && b.ready && !b.legacyWrong && !b.newWrong && !b.rescueWrong
    && b.firstRmdir == Works && b.rename == Works && b.rescueRmdir == Works && b.secondRename == Works
  }

  /** Without a foreign write, one boot whose operations succeed is enough, whatever came before
      and comes after; an empty history may vanish. */
  lemma {:induction false} OneGoodBootIsEnough(c: Card, events: seq<Event>, i: nat, history: set<FileId>)
    requires Whole(c, history, {})
    requires forall k :: 0 <= k < |events| ==> events[k].BootEvent?
    requires i < |events| && AllWork(events[i].boot)
    ensures Migrated(Run(c, events), history, {}) || Vanished(Run(c, events), history, {})
  {
    var before, last := events[..|events| - 1], events[|events| - 1];
    assert Written(before) == {};
    assert {} + Written(before) == {};
    RunStaysWhole(c, before, history, {});
    BootOutcome(Run(c, before), last.boot, history, {});
    if i < |events| - 1 {
      OneGoodBootIsEnough(c, before, i, history);
    }
  }

  /** A foreign write before the move strands the history for good: no later boot moves it. */
  lemma {:induction false} StrandedForGood(c: Card, events: seq<Event>, history: set<FileId>, foreign: set<FileId>)
    requires Waiting(c, history, foreign) && foreign != {}
    ensures Waiting(Run(c, events), history, foreign + Written(events))
  {
    if events == [] {
      assert foreign + {} == foreign;
    } else {
      var before := events[..|events| - 1];
      StrandedForGood(c, before, history, foreign);
      WrittenStep(events);
      match events[|events| - 1]
      case BootEvent(b) =>
        assert foreign + Written(events) == foreign + Written(before);
        ConflictIsLeftAlone(Run(c, before), b);
      case ForeignWrite(file) =>
        assert foreign + Written(events) == foreign + Written(before) + {file};
    }
  }
}
