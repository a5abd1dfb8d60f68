/** The per-frame pumps of src/MappedInputManager.cpp, on the 32-bit wrapping clock of the board. */
module MappedInputManager {
  import HomeKey
  import HintTouch

  const UINT32 := 0x1_0000_0000
  const HALF := 0x8000_0000
  const WINDOW_MS := HomeKey.WINDOW_MS
  const REFRACTORY_MS := HomeKey.REFRACTORY_MS

  type KeyFrame = HomeKey.Frame

  /** homeTapPendingSince, homeRefractoryUntil and homeTapConsumedSinceDown; 0 means none. */
  datatype Stamps = Stamps(pendingSince: nat, refractoryUntil: nat, tapConsumed: bool)

  const BOOT := Stamps(0, 0, false)

  /** homeConfirmResolved, homeDoubleTapResolved and homeLongResolved. */
  datatype Flags = Flags(confirm: bool, doubleTap: bool, long: bool)

  const NO_FLAGS := Flags(false, false, false)

  /** Inside the refractory window by the signed 32-bit difference. */
  predicate Ignores(c: Stamps, now: nat) {
    c.refractoryUntil != 0 && (now - c.refractoryUntil) % UINT32 >= HALF
  }

  /** The double-tap window of the waiting tap is over, by the unsigned 32-bit difference. */
  predicate WindowOver(c: Stamps, now: nat) {
    c.pendingSince != 0 && (now - c.pendingSince) % UINT32 >= WINDOW_MS
  }

  function Pumped(c: Stamps, f: KeyFrame): (Stamps, Flags) {
    var now := f.t % UINT32;
    var until := (now + REFRACTORY_MS) % UINT32;
    var consumed := c.tapConsumed && !f.pressed;
    if !f.doubleTapBoard then
      (Stamps(0, c.refractoryUntil, consumed), NO_FLAGS.(long := f.longPressed))
    else if f.longPressed then
      if consumed then (Stamps(0, c.refractoryUntil, consumed), NO_FLAGS)
      else (Stamps(0, until, consumed), NO_FLAGS.(long := true))
    else if f.tapped then
      if Ignores(c, now) then (Stamps(0, c.refractoryUntil, true), NO_FLAGS)
      else if c.pendingSince != 0 then (Stamps(0, until, true), NO_FLAGS.(doubleTap := true))
      else (Stamps(if now == 0 then 1 else now, c.refractoryUntil, true), NO_FLAGS)
    else if WindowOver(c, now) then
      (Stamps(0, until, consumed), NO_FLAGS.(confirm := !f.locked))
    else
      (c.(tapConsumed := consumed), NO_FLAGS)
  }

  // ---------------------------------------------------------------------------------------
  // The code.
  // ---------------------------------------------------------------------------------------

  class Manager {
    var hintPumpedSeq: nat
    var hintDownButton: nat
    var hintPressedButton: nat
    var hintReleasedButton: nat
    var homeTapPendingSince: nat
    var homeConfirmResolved: bool
    var homeDoubleTapResolved: bool
    var homeLongResolved: bool
    var homeRefractoryUntil: nat
    var homeTapConsumedSinceDown: bool

    function Home(): Stamps
      reads this
    {
      Stamps(homeTapPendingSince, homeRefractoryUntil, homeTapConsumedSinceDown)
    }

    function Resolved(): Flags
      reads this
    {
      Flags(homeConfirmResolved, homeDoubleTapResolved, homeLongResolved)
    }

    function Hints(): HintTouch.Buttons
      reads this
    {
      HintTouch.Buttons(hintDownButton, hintPressedButton, hintReleasedButton)
    }

    constructor ()
      ensures Home() == BOOT && Resolved() == NO_FLAGS && Hints() == HintTouch.START
      ensures hintPumpedSeq == 0xFFFF_FFFF
    {
      hintPumpedSeq := 0xFFFF_FFFF;
      hintDownButton, hintPressedButton, hintReleasedButton := HintTouch.NO_BUTTON, HintTouch.NO_BUTTON, HintTouch.NO_BUTTON;
      homeTapPendingSince, homeRefractoryUntil, homeTapConsumedSinceDown := 0, 0, false;
      homeConfirmResolved, homeDoubleTapResolved, homeLongResolved := false, false, false;
    }

    method PumpHomeKey(f: KeyFrame)
      modifies `homeTapPendingSince, `homeRefractoryUntil, `homeTapConsumedSinceDown,
               `homeConfirmResolved, `homeDoubleTapResolved, `homeLongResolved
      ensures (Home(), Resolved()) == Pumped(old(Home()), f)
    {
      homeConfirmResolved := false;
      homeDoubleTapResolved := false;
      homeLongResolved := false;
      var now := f.t % UINT32;
      if f.pressed {
        homeTapConsumedSinceDown := false;
      }
      if !f.doubleTapBoard {
        homeTapPendingSince := 0;
        homeLongResolved := f.longPressed;
        return;
      }
      if f.longPressed {
        homeTapPendingSince := 0;
        if !homeTapConsumedSinceDown {
          homeLongResolved := true;
          homeRefractoryUntil := (now + REFRACTORY_MS) % UINT32;
        }
        return;
      }
      if f.tapped {
        homeTapConsumedSinceDown := true;
        if homeRefractoryUntil != 0 && (now - homeRefractoryUntil) % UINT32 >= HALF {
          homeTapPendingSince := 0;
          return;
        }
        if homeTapPendingSince != 0 {
          homeTapPendingSince := 0;
          homeDoubleTapResolved := true;
          homeRefractoryUntil := (now + REFRACTORY_MS) % UINT32;
        } else {
          homeTapPendingSince := now;
          if homeTapPendingSince == 0 {
            homeTapPendingSince := 1;
          }
        }
        return;
      }
      if homeTapPendingSince != 0 && (now - homeTapPendingSince) % UINT32 >= WINDOW_MS {
        homeTapPendingSince := 0;
        homeConfirmResolved := !f.locked;
        homeRefractoryUntil := (now + REFRACTORY_MS) % UINT32;
      }
    }

    method PumpHintTouch(f: HintTouch.Frame)
      requires HintTouch.RealBoxes(f)
      modifies `hintDownButton, `hintPressedButton, `hintReleasedButton
      ensures Hints() == HintTouch.Step(old(Hints()), f)
    {
      hintPressedButton := HintTouch.NO_BUTTON;
      hintReleasedButton := HintTouch.NO_BUTTON;
      if !f.live {
        hintDownButton := HintTouch.NO_BUTTON;
        return;
      }
      if f.down.OnBox? {
        hintDownButton := f.down.button;
        hintPressedButton := f.down.button;
      }
      if !f.tap.NoTouch? {
        if f.tap.OnBox? && f.tap.button == hintDownButton {
          hintReleasedButton := f.tap.button;
        }
        hintDownButton := HintTouch.NO_BUTTON;
      } else if hintDownButton != HintTouch.NO_BUTTON {
        if f.held.NoTouch? {
          hintDownButton := HintTouch.NO_BUTTON;
        } else if !f.held.OnBox? || f.held.button != hintDownButton {
          hintDownButton := HintTouch.NO_BUTTON;
        }
      }
    }

    /** Both pumps, once per frame number however many queries an activity makes. */
    method EnsureHintTouchPumped(frameSeq: nat, touch: HintTouch.Frame, key: KeyFrame)
      requires HintTouch.RealBoxes(touch)
      modifies this
      ensures hintPumpedSeq == frameSeq
      ensures if frameSeq == old(hintPumpedSeq)
              then Hints() == old(Hints()) && Home() == old(Home()) && Resolved() == old(Resolved())
              else Hints() == HintTouch.Step(old(Hints()), touch) && (Home(), Resolved()) == Pumped(old(Home()), key)
    {
      if frameSeq == hintPumpedSeq {
        return;
      }
      hintPumpedSeq := frameSeq;
      PumpHintTouch(touch);
      PumpHomeKey(key);
    }
  }

  // ---------------------------------------------------------------------------------------
  // Runs of the code, and what its three fields say of the frames before.
  // ---------------------------------------------------------------------------------------

  /** At most one outcome a frame, and none of them a selection on a locked panel. */
  lemma OneOutcomePerFrame(c: Stamps, f: KeyFrame)
    ensures var r := Pumped(c, f).1;
      !(r.confirm && r.doubleTap) && !(r.confirm && r.long) && !(r.doubleTap && r.long) && (r.confirm ==> !f.locked)
  {
  }

  function FlagsOf(o: HomeKey.Outcome): Flags {
    match o
    case Confirm => NO_FLAGS.(confirm := true)
    case DoubleTap => NO_FLAGS.(doubleTap := true)
    case Hold => NO_FLAGS.(long := true)
    case _ => NO_FLAGS
  }

  /** What the code makes of a frame; a suppressed single tap shows in no flag. */
  function CodeOutcome(c: Stamps, f: KeyFrame): (o: HomeKey.Outcome)
    ensures Pumped(c, f).1 == FlagsOf(o)
  {
    var r := Pumped(c, f).1;
    if r.confirm then HomeKey.Confirm
    else if r.doubleTap then HomeKey.DoubleTap
    else if r.long then HomeKey.Hold
    else if HomeKey.IsIdle(f) && WindowOver(c, f.t % UINT32) then HomeKey.SuppressedConfirm
    else HomeKey.Nothing
  }

  function Run(frames: seq<KeyFrame>): Stamps {
    if frames == [] then BOOT else Pumped(Run(frames[..|frames| - 1]), frames[|frames| - 1]).0
  }

  function StampsBefore(frames: seq<KeyFrame>, j: nat): Stamps
    requires j <= |frames|
  {
    Run(frames[..j])
  }

  function CodeOutcomeAt(frames: seq<KeyFrame>, j: nat): HomeKey.Outcome
    requires j < |frames|
  {
    CodeOutcome(StampsBefore(frames, j), frames[j])
  }

  lemma StampsNext(frames: seq<KeyFrame>, j: nat)
    requires j < |frames|
    ensures StampsBefore(frames, j + 1) == Pumped(StampsBefore(frames, j), frames[j]).0
  {
    assert frames[..j + 1][..j] == frames[..j];
  }

  /** A frame that starts the refractory time. */
  predicate GestureAt(frames: seq<KeyFrame>, k: nat)
    requires k < |frames|
  {
    frames[k].doubleTapBoard && CodeOutcomeAt(frames, k) != HomeKey.Nothing
  }

  /** The last gesture before frame j. */
  function LastGesture(frames: seq<KeyFrame>, j: nat): (r: HomeKey.Option<nat>)
    requires j <= |frames|
    ensures r.Some? ==> r.value < j && GestureAt(frames, r.value)
    ensures forall k :: (if r.Some? then r.value + 1 else 0) <= k < j ==> !GestureAt(frames, k)
  {
    if j == 0 then HomeKey.None
    else if GestureAt(frames, j - 1) then HomeKey.Some(j - 1)
    else LastGesture(frames, j - 1)
  }

  /** The end of the refractory time of frame k, on the unbounded clock. */
  function Until(frames: seq<KeyFrame>, k: nat): nat
    requires k < |frames|
  {
    frames[k].t + REFRACTORY_MS
  }

  /** A tap the code takes for the tail of the last gesture: its end is stored as no 0, and lies
      ahead by the signed 32-bit difference. */
  predicate IgnoredAt(frames: seq<KeyFrame>, j: nat)
    requires j < |frames|
  {
    var g := LastGesture(frames, j);
    HomeKey.IsTap(frames[j]) && g.Some? && Until(frames, g.value) % UINT32 != 0
    && (frames[j].t - Until(frames, g.value)) % UINT32 >= HALF
  }

  predicate TakenAt(frames: seq<KeyFrame>, i: nat)
    requires i < |frames|
  {
    HomeKey.IsTap(frames[i]) && !IgnoredAt(frames, i)
  }

  /** What is stored for a tap at t: 0 would mean "no tap waiting". */
  function TapStamp(t: nat): nat {
    if t % UINT32 == 0 then t + 1 else t
  }

  /** The tap of frame i waits at frame j in the code. */
  predicate WaitsAt(frames: seq<KeyFrame>, i: nat, j: nat)
    requires i < j <= |frames|
  {
    && TakenAt(frames, i) && CodeOutcomeAt(frames, i) == HomeKey.Nothing
    && forall k :: i < k < j ==> HomeKey.IsIdle(frames[k]) && (frames[k].t - TapStamp(frames[i].t)) % UINT32 < WINDOW_MS
  }

  predicate RefractoryFits(frames: seq<KeyFrame>, j: nat)
    requires j <= |frames|
  {
    var g := LastGesture(frames, j);
    StampsBefore(frames, j).refractoryUntil == if g.Some? then Until(frames, g.value) % UINT32 else 0
  }

  ghost predicate StampsFit(frames: seq<KeyFrame>, j: nat)
    requires j <= |frames|
  {
    var c := StampsBefore(frames, j);
    && RefractoryFits(frames, j)
    && (forall i :: 0 <= i < j && WaitsAt(frames, i, j) ==> c.pendingSince == TapStamp(frames[i].t) % UINT32)
    && (c.pendingSince != 0 ==> exists i :: 0 <= i < j && WaitsAt(frames, i, j))
  }

  lemma WrappedDifference(a: nat, b: nat)
    ensures (a % UINT32 - b % UINT32) % UINT32 == (a - b) % UINT32
  {
    var q := a / UINT32 - b / UINT32;
    var r := a % UINT32 - b % UINT32;
    assert a - b == UINT32 * q + r;
  }

  lemma WrappedSum(t: nat)
    ensures (t % UINT32 + REFRACTORY_MS) % UINT32 == (t + REFRACTORY_MS) % UINT32
  {
  }

  lemma StampIsSet(t: nat)
    ensures TapStamp(t) % UINT32 == (if t % UINT32 == 0 then 1 else t % UINT32)
  {
  }

  /** A frame writes the refractory stamp exactly when it is a gesture. */
  lemma GestureWritesStamp(c: Stamps, f: KeyFrame)
    ensures Pumped(c, f).0.refractoryUntil ==
            if f.doubleTapBoard && CodeOutcome(c, f) != HomeKey.Nothing then (f.t + REFRACTORY_MS) % UINT32 else c.refractoryUntil
  {
    WrappedSum(f.t);
  }

  lemma IgnoresIsIgnored(frames: seq<KeyFrame>, j: nat)
    requires j < |frames| && StampsFit(frames, j) && HomeKey.IsTap(frames[j])
    ensures Ignores(StampsBefore(frames, j), frames[j].t % UINT32) <==> IgnoredAt(frames, j)
  {
    var g := LastGesture(frames, j);
    if g.Some? {
      WrappedDifference(frames[j].t, Until(frames, g.value));
    }
  }

  lemma WaitsAtNext(frames: seq<KeyFrame>, i: nat, j: nat)
    requires i < j < |frames|
    ensures WaitsAt(frames, i, j + 1) <==>
            WaitsAt(frames, i, j) && HomeKey.IsIdle(frames[j]) && (frames[j].t - TapStamp(frames[i].t)) % UINT32 < WINDOW_MS
  {
  }

  lemma WaitsAtFirst(frames: seq<KeyFrame>, j: nat)
    requires j < |frames|
    ensures WaitsAt(frames, j, j + 1) <==> TakenAt(frames, j) && CodeOutcomeAt(frames, j) == HomeKey.Nothing
  {
  }

  /** What becomes of the waiting tap in one frame. */
  lemma PendingNext(c: Stamps, f: KeyFrame)
    ensures var c' := Pumped(c, f).0; var now := f.t % UINT32;
      c'.pendingSince ==
        if HomeKey.IsTap(f) && !Ignores(c, now) && CodeOutcome(c, f) == HomeKey.Nothing then TapStamp(f.t) % UINT32
        else if HomeKey.IsIdle(f) && !WindowOver(c, now) then c.pendingSince
        else 0
  {
    StampIsSet(f.t);
  }

  lemma GestureAtNext(frames: seq<KeyFrame>, j: nat)
    requires j < |frames|
    ensures StampsBefore(frames, j + 1).refractoryUntil ==
            if GestureAt(frames, j) then Until(frames, j) % UINT32 else StampsBefore(frames, j).refractoryUntil
  {
    StampsNext(frames, j);
    GestureWritesStamp(StampsBefore(frames, j), frames[j]);
  }

  lemma RefractoryFitsNext(frames: seq<KeyFrame>, j: nat)
    requires j < |frames| && RefractoryFits(frames, j)
    ensures RefractoryFits(frames, j + 1)
  {
    hide StampsBefore, GestureAt;
    GestureAtNext(frames, j);
  }

  lemma WaitStep(frames: seq<KeyFrame>, i: nat, j: nat)
    requires i < j < |frames| && StampsFit(frames, j)
    ensures WaitsAt(frames, i, j + 1) <==>
            WaitsAt(frames, i, j) && HomeKey.IsIdle(frames[j]) && !WindowOver(StampsBefore(frames, j), frames[j].t % UINT32)
  {
    WaitsAtNext(frames, i, j);
    hide StampsBefore, WaitsAt, RefractoryFits;
    WrappedDifference(frames[j].t, TapStamp(frames[i].t));
    StampIsSet(frames[i].t);
  }

  lemma NewWait(frames: seq<KeyFrame>, j: nat)
    requires j < |frames| && StampsFit(frames, j)
    ensures WaitsAt(frames, j, j + 1) <==>
            HomeKey.IsTap(frames[j]) && !Ignores(StampsBefore(frames, j), frames[j].t % UINT32)
            && CodeOutcomeAt(frames, j) == HomeKey.Nothing
  {
    WaitsAtFirst(frames, j);
    hide WaitsAt, StampsBefore, IgnoredAt;
    if HomeKey.IsTap(frames[j]) {
      IgnoresIsIgnored(frames, j);
    }
  }

  predicate KeepsWaiting(frames: seq<KeyFrame>, j: nat)
    requires j < |frames|
  {
    HomeKey.IsIdle(frames[j]) && !WindowOver(StampsBefore(frames, j), frames[j].t % UINT32)
  }

  predicate StartsWaiting(frames: seq<KeyFrame>, j: nat)
    requires j < |frames|
  {
    HomeKey.IsTap(frames[j]) && !Ignores(StampsBefore(frames, j), frames[j].t % UINT32)
    && CodeOutcomeAt(frames, j) == HomeKey.Nothing
  }

  /** The waiting tap, frame by frame, and the stamp it has. */
  lemma WaitsNext(frames: seq<KeyFrame>, j: nat)
    requires j < |frames| && StampsFit(frames, j)
    ensures WaitsAt(frames, j, j + 1) <==> StartsWaiting(frames, j)
    ensures forall i :: 0 <= i < j ==> (WaitsAt(frames, i, j + 1) <==> WaitsAt(frames, i, j) && KeepsWaiting(frames, j))
    ensures !(KeepsWaiting(frames, j) && StartsWaiting(frames, j))
    ensures StampsBefore(frames, j + 1).pendingSince ==
            if StartsWaiting(frames, j) then TapStamp(frames[j].t) % UINT32
            else if KeepsWaiting(frames, j) then StampsBefore(frames, j).pendingSince
            else 0
  {
    StampsNext(frames, j);
    PendingNext(StampsBefore(frames, j), frames[j]);
    hide WaitsAt, StampsFit, StampsBefore, Pumped, CodeOutcome, Ignores, WindowOver, TapStamp;
    NewWait(frames, j);
    forall i | 0 <= i < j
      ensures WaitsAt(frames, i, j + 1) <==> WaitsAt(frames, i, j) && KeepsWaiting(frames, j)
    {
      WaitStep(frames, i, j);
    }
  }

  lemma StampsFitNext(frames: seq<KeyFrame>, j: nat)
    requires j < |frames| && StampsFit(frames, j)
    ensures StampsFit(frames, j + 1)
  {
    RefractoryFitsNext(frames, j);
    WaitsNext(frames, j);
    hide RefractoryFits, WaitsAt, StampsBefore, TapStamp, KeepsWaiting, StartsWaiting;
    if StampsBefore(frames, j + 1).pendingSince != 0 {
      if StartsWaiting(frames, j) {
        assert WaitsAt(frames, j, j + 1);
      } else {
        var i :| 0 <= i < j && WaitsAt(frames, i, j);
        assert WaitsAt(frames, i, j + 1);
      }
    }
  }

  /** In every run, whatever its clock does, the fields are told by the history. */
  lemma {:induction false} StampsAlwaysFit(frames: seq<KeyFrame>, j: nat)
    requires j <= |frames|
    ensures StampsFit(frames, j)
  {
    if j > 0 {
      StampsAlwaysFit(frames, j - 1);
      StampsFitNext(frames, j - 1);
    }
  }

  lemma {:induction false} ConsumedAgrees(frames: seq<KeyFrame>, j: nat)
    requires j <= |frames|
    ensures StampsBefore(frames, j).tapConsumed == HomeKey.Before(frames, j).tapConsumed
  {
    if j > 0 {
      ConsumedAgrees(frames, j - 1);
      StampsNext(frames, j - 1);
      HomeKey.BeforeNext(frames, j - 1);
    }
  }

  lemma OutcomeCases(c: Stamps, f: KeyFrame)
    ensures var o, now := CodeOutcome(c, f), f.t % UINT32;
      && (o == HomeKey.Confirm || o == HomeKey.SuppressedConfirm <==> HomeKey.IsIdle(f) && WindowOver(c, now))
      && (o == HomeKey.Confirm ==> !f.locked) && (o == HomeKey.SuppressedConfirm ==> f.locked)
      && (o == HomeKey.DoubleTap <==> HomeKey.IsTap(f) && !Ignores(c, now) && c.pendingSince != 0)
      && (o == HomeKey.Hold <==> f.longPressed && (f.doubleTapBoard ==> !(c.tapConsumed && !f.pressed)))
  {
  }

  lemma PendingMeansWait(frames: seq<KeyFrame>, j: nat)
    requires j <= |frames|
    ensures Waiting(frames, j) == 1 <==> exists i :: 0 <= i < j && WaitsAt(frames, i, j)
  {
    StampsAlwaysFit(frames, j);
    hide StampsBefore, WaitsAt;
    forall i | 0 <= i < j && WaitsAt(frames, i, j)
      ensures StampsBefore(frames, j).pendingSince != 0
    {
      StampIsSet(frames[i].t);
    }
  }

  lemma WindowOfWait(frames: seq<KeyFrame>, i: nat, j: nat)
    requires i < j < |frames| && WaitsAt(frames, i, j)
    ensures WindowOver(StampsBefore(frames, j), frames[j].t % UINT32) <==> (frames[j].t - TapStamp(frames[i].t)) % UINT32 >= WINDOW_MS
  {
    StampsAlwaysFit(frames, j);
    hide StampsBefore, WaitsAt;
    WrappedDifference(frames[j].t, TapStamp(frames[i].t));
    StampIsSet(frames[i].t);
  }

  /** For every run of the code: each outcome, told by the frames before it. */
  lemma CodeReports(frames: seq<KeyFrame>, j: nat)
    requires j < |frames|
    ensures var o, f := CodeOutcomeAt(frames, j), frames[j];
      && (o == HomeKey.Confirm || o == HomeKey.SuppressedConfirm <==>
            HomeKey.IsIdle(f) &&
            exists i :: 0 <= i < j && WaitsAt(frames, i, j) && (f.t - TapStamp(frames[i].t)) % UINT32 >= WINDOW_MS)
      && (o == HomeKey.Confirm ==> !f.locked) && (o == HomeKey.SuppressedConfirm ==> f.locked)
      && (o == HomeKey.DoubleTap <==> TakenAt(frames, j) && exists i :: 0 <= i < j && WaitsAt(frames, i, j))
      && (o == HomeKey.Hold <==> f.longPressed && (f.doubleTapBoard ==> !HomeKey.TapSincePress(frames, j)))
  {
    hide StampsBefore, WaitsAt, IgnoredAt, HomeKey.TapSincePress, CodeOutcome, Ignores, StampsFit;
    var c, f := StampsBefore(frames, j), frames[j];
    OutcomeCases(c, f);
    PendingMeansWait(frames, j);
    ConsumedAgrees(frames, j);
    HomeKey.ConsumedMeansTap(frames, j);
    if HomeKey.IsTap(f) {
      StampsAlwaysFit(frames, j);
      IgnoresIsIgnored(frames, j);
    }
    forall i | 0 <= i < j && WaitsAt(frames, i, j)
      ensures WindowOver(c, f.t % UINT32) <==> (f.t - TapStamp(frames[i].t)) % UINT32 >= WINDOW_MS
    {
      WindowOfWait(frames, i, j);
    }
  }

  // ---------------------------------------------------------------------------------------
  // Spacing.
  // ---------------------------------------------------------------------------------------

  lemma IdleInWindowIsNoGesture(frames: seq<KeyFrame>, i: nat, k: nat)
    requires i < k < |frames| && WaitsAt(frames, i, k + 1)
    ensures !GestureAt(frames, k)
  {
    WaitsAtNext(frames, i, k);
    hide WaitsAt, StampsBefore, CodeOutcome, WindowOver;
    WindowOfWait(frames, i, k);
    OutcomeCases(StampsBefore(frames, k), frames[k]);
  }

  lemma {:induction false} NoGestureWhileWaiting(frames: seq<KeyFrame>, i: nat, j: nat)
    requires i < j <= |frames| && WaitsAt(frames, i, j)
    ensures LastGesture(frames, j) == LastGesture(frames, i)
    decreases j
  {
    hide WaitsAt, GestureAt;
    if j > i + 1 {
      WaitsBefore(frames, i, j - 1);
      IdleInWindowIsNoGesture(frames, i, j - 1);
      NoGestureWhileWaiting(frames, i, j - 1);
    } else {
      TapIsNoGesture(frames, i);
    }
  }

  lemma WaitsBefore(frames: seq<KeyFrame>, i: nat, j: nat)
    requires i < j < |frames| && WaitsAt(frames, i, j + 1)
    ensures WaitsAt(frames, i, j)
  {
  }

  lemma TapIsNoGesture(frames: seq<KeyFrame>, i: nat)
    requires i < |frames| && WaitsAt(frames, i, i + 1)
    ensures !GestureAt(frames, i)
  {
  }

  /** A tap that is taken, on a clock that does not go back, has the refractory time behind it. */
  lemma TakenIsPastRefractory(frames: seq<KeyFrame>, i: nat, k: nat)
    requires HomeKey.Monotone(frames) && i < |frames| && TakenAt(frames, i)
    requires LastGesture(frames, i) == HomeKey.Some(k) && Until(frames, k) % UINT32 != 0
    ensures frames[i].t >= Until(frames, k)
  {
  }

  /**
   * In every run a confirm, a suppressed confirm or a double tap is at least the refractory time
   * after every gesture before it, when the stamp of the last of them is not 0; on any gaps.
   */
  lemma CodeOutcomesAreSpaced(frames: seq<KeyFrame>, k: nat, j: nat)
    requires HomeKey.Monotone(frames) && k < j < |frames| && GestureAt(frames, k)
    requires var g := LastGesture(frames, j); g.Some? ==> Until(frames, g.value) % UINT32 != 0
    requires var o := CodeOutcomeAt(frames, j);
      o == HomeKey.Confirm || o == HomeKey.SuppressedConfirm || o == HomeKey.DoubleTap
    ensures frames[j].t >= frames[k].t + REFRACTORY_MS
  {
    CodeReports(frames, j);
    hide CodeOutcomeAt, GestureAt, WaitsAt;
    var i :| 0 <= i < j && WaitsAt(frames, i, j);
    NoGestureWhileWaiting(frames, i, j);
    var g := LastGesture(frames, j).value;
    TakenAtWaits(frames, i, j);
    TakenIsPastRefractory(frames, i, g);
    assert frames[k].t <= frames[g].t && frames[i].t <= frames[j].t;
  }

  lemma TakenAtWaits(frames: seq<KeyFrame>, i: nat, j: nat)
    requires i < j <= |frames| && WaitsAt(frames, i, j)
    ensures TakenAt(frames, i)
  {
  }

  // ---------------------------------------------------------------------------------------
  // What becomes of every tap the code takes.
  // ---------------------------------------------------------------------------------------

  function Waiting(frames: seq<KeyFrame>, n: nat): nat
    requires n <= |frames|
  {
    if StampsBefore(frames, n).pendingSince != 0 then 1 else 0
  }

  function TakenTaps(frames: seq<KeyFrame>, j: nat): nat
    requires j < |frames|
  {
    if TakenAt(frames, j) then 1 else 0
  }

  function SpentTaps(frames: seq<KeyFrame>, j: nat): nat
    requires j < |frames|
  {
    match CodeOutcomeAt(frames, j)
    case Confirm => 1
    case SuppressedConfirm => 1
    case DoubleTap => 2
    case _ => 0
  }

  /** One waited, and a hold or a board without the gesture came. */
  function CancelledTaps(frames: seq<KeyFrame>, j: nat): nat
    requires j < |frames|
  {
    if Waiting(frames, j) == 1 && (!frames[j].doubleTapBoard || frames[j].longPressed) then 1 else 0
  }

  /** One waited, and a tap that is ignored wiped it out. */
  function LostTaps(frames: seq<KeyFrame>, j: nat): nat
    requires j < |frames|
  {
    if Waiting(frames, j) == 1 && IgnoredAt(frames, j) then 1 else 0
  }

  lemma TapsInFrame(frames: seq<KeyFrame>, j: nat)
    requires j < |frames|
    ensures Waiting(frames, j) + TakenTaps(frames, j)
            == SpentTaps(frames, j) + CancelledTaps(frames, j) + LostTaps(frames, j) + Waiting(frames, j + 1)
  {
    StampsAlwaysFit(frames, j);
    StampsNext(frames, j);
    PendingNext(StampsBefore(frames, j), frames[j]);
    StampIsSet(frames[j].t);
    if HomeKey.IsTap(frames[j]) {
      IgnoresIsIgnored(frames, j);
    }
    hide IgnoredAt, StampsBefore, StampsFit, Ignores;
  }

  /**
   * Over every run of the 32-bit code, whatever its clock does: the taps it takes are those spent
   * by outcomes, those cancelled, those lost, and the waiting one.
   */
  lemma {:induction false} TapsAreAccountedFor(frames: seq<KeyFrame>, n: nat)
    requires n <= |frames|
    ensures HomeKey.Count(frames, n, TakenTaps) ==
            HomeKey.Count(frames, n, SpentTaps) + HomeKey.Count(frames, n, CancelledTaps)
            + HomeKey.Count(frames, n, LostTaps) + Waiting(frames, n)
  {
    hide TakenTaps, SpentTaps, CancelledTaps, LostTaps;
    if n > 0 {
      TapsAreAccountedFor(frames, n - 1);
      TapsInFrame(frames, n - 1);
    } else {
      assert frames[..0] == [];
    }
  }

  /** Two taps on either side of a half turn of the clock after the last gesture. */
  predicate Straddles(frames: seq<KeyFrame>, i: nat, j: nat)
    requires i < j < |frames|
  {
    var g := LastGesture(frames, j);
    && HomeKey.IsTap(frames[j]) && g.Some? && Until(frames, g.value) % UINT32 != 0
    && (frames[i].t - Until(frames, g.value)) % UINT32 < HALF
    && (frames[j].t - Until(frames, g.value)) % UINT32 >= HALF
  }

  lemma StraddlesIsIgnored(frames: seq<KeyFrame>, i: nat, j: nat)
    requires i < j < |frames| && WaitsAt(frames, i, j)
    ensures IgnoredAt(frames, j) <==> Straddles(frames, i, j)
  {
    NoGestureWhileWaiting(frames, i, j);
    TakenAtWaits(frames, i, j);
    hide WaitsAt, GestureAt;
  }

  /** A tap is lost in frame j exactly when one waits and frame j's tap lies past the half turn. */
  lemma LostExactly(frames: seq<KeyFrame>, j: nat)
    requires j < |frames|
    ensures LostTaps(frames, j) == 1 <==> exists i :: 0 <= i < j && WaitsAt(frames, i, j) && Straddles(frames, i, j)
  {
    hide WaitsAt, IgnoredAt, Straddles, Waiting;
    PendingMeansWait(frames, j);
    forall i | 0 <= i < j && WaitsAt(frames, i, j)
      ensures IgnoredAt(frames, j) <==> Straddles(frames, i, j)
    {
      StraddlesIsIgnored(frames, i, j);
    }
  }

  /** For every run: no tap is lost exactly when no waiting tap and the next straddle a half turn. */
  lemma {:induction false} NoTapLostExactly(frames: seq<KeyFrame>, n: nat)
    requires n <= |frames|
    ensures HomeKey.Count(frames, n, LostTaps) == 0 <==>
            forall i, j :: 0 <= i < j < n && WaitsAt(frames, i, j) ==> !Straddles(frames, i, j)
  {
    hide LostTaps, WaitsAt, Straddles;
    if n > 0 {
      NoTapLostExactly(frames, n - 1);
      LostExactly(frames, n - 1);
      LostIsOne(frames, n - 1);
    }
  }

  lemma LostIsOne(frames: seq<KeyFrame>, j: nat)
    requires j < |frames|
    ensures LostTaps(frames, j) <= 1
  {
  }

  /** The tap of frame j comes within half a turn of the last gesture's end, if there was one. */
  predicate ComesEarly(frames: seq<KeyFrame>, j: nat)
    requires j < |frames|
  {
    var g := LastGesture(frames, j);
    HomeKey.IsTap(frames[j]) && g.Some? ==> frames[j].t < Until(frames, g.value) + HALF
  }

  lemma EarlyIsKept(frames: seq<KeyFrame>, i: nat, j: nat)
    requires HomeKey.Monotone(frames) && i < j < |frames| && WaitsAt(frames, i, j) && ComesEarly(frames, j)
    ensures !Straddles(frames, i, j)
  {
    NoGestureWhileWaiting(frames, i, j);
    TakenAtWaits(frames, i, j);
    hide WaitsAt, GestureAt, TakenAt;
    assert frames[i].t <= frames[j].t;
    if Straddles(frames, i, j) {
      TakenIsPastRefractory(frames, i, LastGesture(frames, j).value);
    }
  }

  /** Taps within half a turn of the last gesture's end are enough. */
  lemma EarlyTapsAreKept(frames: seq<KeyFrame>)
    requires HomeKey.Monotone(frames)
    requires forall j :: 0 <= j < |frames| ==> ComesEarly(frames, j)
    ensures HomeKey.Count(frames, |frames|, LostTaps) == 0
  {
    hide WaitsAt, Straddles, ComesEarly, HomeKey.Monotone, LostTaps;
    NoTapLostExactly(frames, |frames|);
    forall i, j | 0 <= i < j < |frames| && WaitsAt(frames, i, j)
      ensures !Straddles(frames, i, j)
    {
      EarlyIsKept(frames, i, j);
    }
  }

  // ---------------------------------------------------------------------------------------
  // The wrapping stamps refine the recogniser on an unbounded clock.
  // ---------------------------------------------------------------------------------------

  predicate Refines(c: Stamps, s: HomeKey.Ideal) {
    && c.tapConsumed == s.tapConsumed
    && c.pendingSince == (if s.pending.None? then 0 else s.pending.value % UINT32)
    && c.refractoryUntil == (if s.resolvedAt.None? then 0 else (s.resolvedAt.value + REFRACTORY_MS) % UINT32)
    && (s.pending.Some? ==> c.pendingSince != 0)
    && (s.resolvedAt.Some? ==> c.refractoryUntil != 0)
  }

  /** No stamp that this frame writes lands on the value that means "none". */
  predicate WritesNoZero(s: HomeKey.Ideal, f: KeyFrame) {
    var (s', o) := HomeKey.Step(s, f);
    && (f.doubleTapBoard && o != HomeKey.Nothing ==> (f.t + REFRACTORY_MS) % UINT32 != 0)
    && (HomeKey.IsTap(f) && s'.pending.Some? ==> f.t % UINT32 != 0)
  }

  /** The frame comes after what is stored, and less than a turn of the clock after a waiting tap. */
  predicate InTime(s: HomeKey.Ideal, f: KeyFrame) {
    && (s.pending.Some? ==> s.pending.value <= f.t < s.pending.value + UINT32)
    && (s.resolvedAt.Some? ==> s.resolvedAt.value <= f.t)
  }

  /** A tap after the refractory time that the signed difference takes for one inside it. */
  predicate LateTap(s: HomeKey.Ideal, f: KeyFrame) {
    HomeKey.IsTap(f) && s.resolvedAt.Some? && f.t >= s.resolvedAt.value + REFRACTORY_MS
    && (f.t - (s.resolvedAt.value + REFRACTORY_MS)) % UINT32 >= HALF
  }

  lemma IgnoresRefines(c: Stamps, s: HomeKey.Ideal, f: KeyFrame)
    requires Refines(c, s) && InTime(s, f) && HomeKey.IsTap(f)
    ensures Ignores(c, f.t % UINT32) == (HomeKey.InRefractory(s, f.t) || LateTap(s, f))
  {
    if s.resolvedAt.Some? {
      WrappedDifference(f.t, s.resolvedAt.value + REFRACTORY_MS);
    }
  }

  lemma WindowRefines(c: Stamps, s: HomeKey.Ideal, f: KeyFrame)
    requires Refines(c, s) && InTime(s, f)
    ensures WindowOver(c, f.t % UINT32) == (s.pending.Some? && f.t - s.pending.value >= WINDOW_MS)
  {
    if s.pending.Some? {
      WrappedDifference(f.t, s.pending.value);
    }
  }

  /** One step of the code is one step of the recogniser exactly when the frame is no late tap and
      writes no stamp that lands on 0. */
  lemma StepRefines(c: Stamps, s: HomeKey.Ideal, f: KeyFrame)
    requires Refines(c, s) && InTime(s, f)
    ensures var (s', o) := HomeKey.Step(s, f);
      Refines(Pumped(c, f).0, s') && CodeOutcome(c, f) == o <==> !LateTap(s, f) && WritesNoZero(s, f)
  {
    WrappedSum(f.t);
    if HomeKey.IsTap(f) {
      IgnoresRefines(c, s, f);
      LateIsNotRefractory(s, f);
    } else {
      assert !LateTap(s, f);
    }
    WindowRefines(c, s, f);
    hide Ignores, WindowOver, HomeKey.InRefractory, InTime, LateTap;
  }

  lemma LateIsNotRefractory(s: HomeKey.Ideal, f: KeyFrame)
    ensures LateTap(s, f) ==> !HomeKey.InRefractory(s, f.t)
  {
  }

  /** Clock gaps below 2^31 ms. */
  predicate SmallGaps(frames: seq<KeyFrame>) {
    forall k :: 0 < k < |frames| ==> frames[k].t < frames[k - 1].t + HALF
  }

  predicate StampsNeverZero(frames: seq<KeyFrame>) {
    forall j :: 0 <= j < |frames| ==> WritesNoZero(HomeKey.Before(frames, j), frames[j])
  }

  predicate LateTapAt(frames: seq<KeyFrame>, j: nat)
    requires j < |frames|
  {
    LateTap(HomeKey.Before(frames, j), frames[j])
  }

  /** Frame j is no late tap and writes no stamp that lands on 0. */
  predicate FitsClock(frames: seq<KeyFrame>, j: nat)
    requires j < |frames|
  {
    !LateTapAt(frames, j) && WritesNoZero(HomeKey.Before(frames, j), frames[j])
  }

  /** The code makes of frame j what the recogniser does, and remembers what it does. */
  predicate FaithfulAt(frames: seq<KeyFrame>, j: nat)
    requires j < |frames|
  {
    CodeOutcomeAt(frames, j) == HomeKey.OutcomeAt(frames, j)
    && Refines(StampsBefore(frames, j + 1), HomeKey.Before(frames, j + 1))
  }

  /** Small gaps are enough for the waiting tap: its window cannot be missed. */
  lemma GapsAreEnough(frames: seq<KeyFrame>, j: nat)
    requires HomeKey.Monotone(frames) && SmallGaps(frames) && j < |frames|
    ensures InTime(HomeKey.Before(frames, j), frames[j])
  {
    HomeKey.StateAlwaysFits(frames, j);
    hide HomeKey.Before;
    var s := HomeKey.Before(frames, j);
    if s.pending.Some? {
      var i :| 0 <= i < j && HomeKey.Waits(frames, i, j) && frames[i].t == s.pending.value;
      assert j - 1 > i ==> frames[j - 1].t - frames[i].t < WINDOW_MS;
    }
  }

  lemma FrameRefines(frames: seq<KeyFrame>, j: nat)
    requires HomeKey.Monotone(frames) && SmallGaps(frames) && j < |frames|
    requires Refines(StampsBefore(frames, j), HomeKey.Before(frames, j))
    ensures FaithfulAt(frames, j) <==> FitsClock(frames, j)
  {
    hide Refines, InTime, LateTap, WritesNoZero, SmallGaps, HomeKey.Monotone, HomeKey.Before, StampsBefore, Pumped, HomeKey.Step;
    GapsAreEnough(frames, j);
    StampsNext(frames, j);
    HomeKey.BeforeNext(frames, j);
    StepRefines(StampsBefore(frames, j), HomeKey.Before(frames, j), frames[j]);
  }

  /**
   * Main result: over every run with gaps below 2^31 ms, the code does frame by frame what the
   * recogniser on a true clock does, exactly when no tap is late and no stamp written lands on 0.
   */
  lemma {:induction false} RunRefines(frames: seq<KeyFrame>, n: nat)
    requires HomeKey.Monotone(frames) && SmallGaps(frames) && n <= |frames|
    ensures (forall j :: 0 <= j < n ==> FaithfulAt(frames, j)) <==> (forall j :: 0 <= j < n ==> FitsClock(frames, j))
  {
    if n > 0 {
      RunRefines(frames, n - 1);
      if forall j :: 0 <= j < n - 1 ==> FaithfulAt(frames, j) {
        RefinesBefore(frames, n - 1);
        FrameRefines(frames, n - 1);
      }
    }
  }

  lemma RefinesBefore(frames: seq<KeyFrame>, j: nat)
    requires j < |frames| && (j > 0 ==> FaithfulAt(frames, j - 1))
    ensures Refines(StampsBefore(frames, j), HomeKey.Before(frames, j))
  {
    if j == 0 {
      assert frames[..0] == [];
    }
  }

  /** So the reported flags are told by the true clock: which taps, when, on which panel. */
  lemma CodeReportsGestures(frames: seq<KeyFrame>, j: nat)
    requires HomeKey.Monotone(frames) && SmallGaps(frames) && j < |frames|
    requires forall k :: 0 <= k <= j ==> FitsClock(frames, k)
    ensures var flags := FlagsOf(CodeOutcomeAt(frames, j));
      && (flags.confirm <==>
            !frames[j].locked && HomeKey.IsIdle(frames[j]) &&
            exists i :: 0 <= i < j && HomeKey.Waits(frames, i, j) && frames[j].t - frames[i].t >= WINDOW_MS)
      && (flags.doubleTap <==>
            HomeKey.IsTap(frames[j]) && exists i :: 0 <= i < j && HomeKey.Waits(frames, i, j))
      && (flags.long <==>
            frames[j].longPressed && (frames[j].doubleTapBoard ==> !HomeKey.TapSincePress(frames, j)))
  {
    RunRefines(frames, j + 1);
    assert FaithfulAt(frames, j);
    hide FaithfulAt, FitsClock, SmallGaps, HomeKey.Waits, HomeKey.TapSincePress, CodeOutcomeAt;
    assert CodeOutcomeAt(frames, j) == HomeKey.OutcomeAt(frames, j) by { FaithfulMeans(frames, j); }
    HomeKey.SingleTapResolves(frames, j);
    HomeKey.DoubleTapResolves(frames, j);
    if frames[j].doubleTapBoard {
      HomeKey.HoldResolves(frames, j);
    }
  }

  lemma FaithfulMeans(frames: seq<KeyFrame>, j: nat)
    requires j < |frames| && FaithfulAt(frames, j)
    ensures CodeOutcomeAt(frames, j) == HomeKey.OutcomeAt(frames, j)
  {
  }

  // ---------------------------------------------------------------------------------------
  // Exactly where the wrap shows.
  // ---------------------------------------------------------------------------------------

  /** A hold, a long rest, and two taps 100 ms apart on either side of a half turn after it. */
  function LateRun(): seq<KeyFrame> {
    [HomeKey.Frame(1000, true, true, false, true, false), IdleFrame(1_000_000_000), IdleFrame(HALF + 1300),
     TapFrame(HALF + 1499), TapFrame(HALF + 1599)]
  }

  lemma LateRunStamps()
    ensures var fs := LateRun();
      && StampsBefore(fs, 0) == StampsBefore([], 0) == BOOT
      && StampsBefore(fs, 3) == Stamps(0, 1500, false) && StampsBefore(fs, 4) == Stamps(HALF + 1499, 1500, true)
  {
    var fs := LateRun();
    assert fs[..0] == [] && [][..0] == fs[..0];
    StampsNext(fs, 0);
    StampsNext(fs, 1);
    StampsNext(fs, 2);
    StampsNext(fs, 3);
    hide StampsBefore;
    assert StampsBefore(fs, 1) == Stamps(0, 1500, false);
    assert StampsBefore(fs, 2) == Stamps(0, 1500, false);
  }

  lemma LateRunIdeal()
    ensures var fs := LateRun(); var s := HomeKey.Ideal(HomeKey.None, HomeKey.Some(1000), false);
      && HomeKey.Before(fs, 0) == HomeKey.START && HomeKey.Before(fs, 1) == s && HomeKey.Before(fs, 2) == s
      && HomeKey.Before(fs, 3) == s
      && HomeKey.Before(fs, 4) == HomeKey.Ideal(HomeKey.Some(HALF + 1499), HomeKey.Some(1000), true)
  {
    var fs := LateRun();
    assert fs[..0] == [];
    HomeKey.BeforeNext(fs, 0);
    HomeKey.BeforeNext(fs, 1);
    HomeKey.BeforeNext(fs, 2);
    HomeKey.BeforeNext(fs, 3);
    hide HomeKey.Before;
  }

  lemma LateRunIsLegal()
    ensures HomeKey.Monotone(LateRun()) && SmallGaps(LateRun()) && StampsNeverZero(LateRun())
  {
    LateRunIdeal();
    hide HomeKey.Before;
  }

  lemma LateRunEnds()
    ensures var c, s, f := Stamps(HALF + 1499, 1500, true), HomeKey.Ideal(HomeKey.Some(HALF + 1499), HomeKey.Some(1000), true), TapFrame(HALF + 1599);
      && |LateRun()| == 5 && LateRun()[4] == f
      && Ignores(c, f.t % UINT32) && CodeOutcome(c, f) == HomeKey.Nothing && Pumped(c, f).0.pendingSince == 0
      && HomeKey.Step(s, f).1 == HomeKey.DoubleTap
  {
  }

  /** In that run the gaps are small and no stamp is 0, yet the first tap is lost and the second is
      ignored, where the recogniser on a true clock reports a double tap. */
  lemma LateTapIsLost()
    ensures var fs := LateRun();
      && HomeKey.Monotone(fs) && SmallGaps(fs) && StampsNeverZero(fs)
      && Waiting(fs, 4) == 1 && LostTaps(fs, 4) == 1 && Waiting(fs, 5) == 0
      && CodeOutcomeAt(fs, 4) == HomeKey.Nothing && HomeKey.OutcomeAt(fs, 4) == HomeKey.DoubleTap
  {
    LateRunIsLegal();
    LateRunStamps();
    LateRunIdeal();
    LateRunEnds();
    hide HomeKey.Monotone, SmallGaps, StampsNeverZero, StampsBefore, HomeKey.Before, IgnoredAt, StampsFit, LateRun,
         Ignores, CodeOutcome, Pumped, HomeKey.Step;
    var fs := LateRun();
    StampsAlwaysFit(fs, 4);
    IgnoresIsIgnored(fs, 4);
    StampsNext(fs, 4);
  }

  /**
   * A tap e ms after a gesture resolved at T. It is ignored for the refractory time, as meant,
   * and again from half a clock turn later on; and never when the stamp of the gesture is 0.
   */
  lemma IgnoredExactly(c: Stamps, T: nat, e: nat)
    requires c.refractoryUntil == (T + REFRACTORY_MS) % UINT32
    ensures Ignores(c, (T + e) % UINT32) <==> (T + REFRACTORY_MS) % UINT32 != 0 && (e - REFRACTORY_MS) % UINT32 >= HALF
    ensures e < REFRACTORY_MS + HALF ==>
              (Ignores(c, (T + e) % UINT32) <==> (T + REFRACTORY_MS) % UINT32 != 0 && e < REFRACTORY_MS)
  {
    WrappedDifference(T + e, T + REFRACTORY_MS);
  }

  function TapFrame(t: nat): KeyFrame {
    HomeKey.Frame(t, false, false, true, true, false)
  }

  function IdleFrame(t: nat): KeyFrame {
    HomeKey.Frame(t, false, false, false, true, false)
  }

  /** Two taps inside the refractory time of a gesture resolve again exactly when its stamp is 0. */
  lemma SpacingLostExactly(c: Stamps, T: nat, t1: nat, t2: nat)
    requires c.refractoryUntil == (T + REFRACTORY_MS) % UINT32 && c.pendingSince == 0
    requires T <= t1 <= t2 < T + REFRACTORY_MS
    ensures Pumped(Pumped(c, TapFrame(t1)).0, TapFrame(t2)).1.doubleTap <==> (T + REFRACTORY_MS) % UINT32 == 0
  {
    IgnoredExactly(c, T, t1 - T);
    IgnoredExactly(Pumped(c, TapFrame(t1)).0, T, t2 - T);
  }

  lemma TapStarts(c: Stamps, t: nat)
    requires c.pendingSince == 0 && !Ignores(c, t % UINT32)
    ensures Pumped(c, TapFrame(t)).0 == Stamps(TapStamp(t) % UINT32, c.refractoryUntil, true)
  {
    StampIsSet(t);
  }

  /** A tap confirms before its window is over exactly when clock reading 0 is stored as 1 and the
      next frame falls into the same millisecond. */
  lemma EarlyConfirmExactly(c: Stamps, t: nat, e: nat)
    requires c.pendingSince == 0 && !Ignores(c, t % UINT32) && e < WINDOW_MS
    ensures Pumped(Pumped(c, TapFrame(t)).0, IdleFrame(t + e)).1.confirm <==> t % UINT32 == 0 && e == 0
  {
    TapStarts(c, t);
    hide Ignores;
    WrappedDifference(t + e, TapStamp(t));
    StampIsSet(t);
    OutcomeCases(Pumped(c, TapFrame(t)).0, IdleFrame(t + e));
  }
}
