/** The home key's gestures: the recogniser of src/MappedInputManager.cpp on an unbounded clock. */
module HomeKey {

  const WINDOW_MS := 500
  const REFRACTORY_MS := 500

  datatype Option<+T> = None | Some(value: T)

  /** What the key and the policy report in one frame. */
  datatype Frame = Frame(t: nat, pressed: bool, longPressed: bool, tapped: bool, doubleTapBoard: bool, locked: bool)

  /** SuppressedConfirm is a single tap that resolves on a locked panel: nothing is reported. */
  datatype Outcome = Nothing | Confirm | SuppressedConfirm | DoubleTap | Hold

  /** The waiting tap, the last resolved gesture, and whether the current press was made a tap. */
  datatype Ideal = Ideal(pending: Option<nat>, resolvedAt: Option<nat>, tapConsumed: bool)

  const START := Ideal(None, None, false)

  predicate InRefractory(s: Ideal, t: nat) {
    s.resolvedAt.Some? && t < s.resolvedAt.value + REFRACTORY_MS
  }

  function Step(s: Ideal, f: Frame): (Ideal, Outcome) {
    var consumed := s.tapConsumed && !f.pressed;
    if !f.doubleTapBoard then
      (Ideal(None, s.resolvedAt, consumed), if f.longPressed then Hold else Nothing)
    else if f.longPressed then
      if consumed then (Ideal(None, s.resolvedAt, consumed), Nothing)
      else (Ideal(None, Some(f.t), consumed), Hold)
    else if f.tapped then
      if InRefractory(s, f.t) then (Ideal(None, s.resolvedAt, true), Nothing)
      else if s.pending.Some? then (Ideal(None, Some(f.t), true), DoubleTap)
      else (Ideal(Some(f.t), s.resolvedAt, true), Nothing)
    else if s.pending.Some? && f.t - s.pending.value >= WINDOW_MS then
      (Ideal(None, Some(f.t), consumed), if f.locked then SuppressedConfirm else Confirm)
    else
      (s.(tapConsumed := consumed), Nothing)
  }

  function Run(frames: seq<Frame>): Ideal {
    if frames == [] then START else Step(Run(frames[..|frames| - 1]), frames[|frames| - 1]).0
  }

  /** State before frame j, and what frame j reports. */
  function Before(frames: seq<Frame>, j: nat): Ideal
    requires j <= |frames|
  {
    Run(frames[..j])
  }

  function OutcomeAt(frames: seq<Frame>, j: nat): Outcome
    requires j < |frames|
  {
    Step(Before(frames, j), frames[j]).1
  }

  lemma BeforeNext(frames: seq<Frame>, j: nat)
    requires j < |frames|
    ensures Before(frames, j + 1) == Step(Before(frames, j), frames[j]).0
  {
    assert frames[..j + 1][..j] == frames[..j];
  }

  /** The clock does not go back. */
  predicate Monotone(frames: seq<Frame>) {
    forall i, j :: 0 <= i <= j < |frames| ==> frames[i].t <= frames[j].t
  }

  // ---------------------------------------------------------------------------------------
  // What the recogniser promises, stated on the history alone.
  // ---------------------------------------------------------------------------------------

  /** A tap that reaches the double-tap logic: a board with the gesture, and no hold this frame. */
  predicate IsTap(f: Frame) {
    f.doubleTapBoard && !f.longPressed && f.tapped
  }

  predicate IsIdle(f: Frame) {
    f.doubleTapBoard && !f.longPressed && !f.tapped
  }

  /** A gesture that starts the refractory time: any outcome on a double-tap board. */
  predicate Resolves(frames: seq<Frame>, k: nat)
    requires k < |frames|
  {
    frames[k].doubleTapBoard && OutcomeAt(frames, k) != Nothing
  }

  /** A tap counts unless a gesture was resolved less than the refractory time before it. */
  predicate Accepted(frames: seq<Frame>, i: nat)
    requires i < |frames|
  {
    IsTap(frames[i]) && forall k :: 0 <= k < i && Resolves(frames, k) ==> frames[i].t >= frames[k].t + REFRACTORY_MS
  }

  /** The tap of frame i waits at frame j: it was accepted, was not a second tap, and since then
      every frame was idle and inside the window. */
  predicate Waits(frames: seq<Frame>, i: nat, j: nat)
    requires i < j <= |frames|
  {
    && Accepted(frames, i) && OutcomeAt(frames, i) == Nothing
    && forall k :: i < k < j ==> IsIdle(frames[k]) && frames[k].t - frames[i].t < WINDOW_MS
  }

  /** What the state before frame j says of the frames before j. */
  ghost predicate StateFits(frames: seq<Frame>, j: nat)
    requires j <= |frames|
  {
    var s := Before(frames, j);
    && (forall k :: 0 <= k < j && Resolves(frames, k) ==> s.resolvedAt.Some? && frames[k].t <= s.resolvedAt.value)
    && (s.resolvedAt.Some? ==> exists k :: 0 <= k < j && Resolves(frames, k) && frames[k].t == s.resolvedAt.value)
    && (forall i :: 0 <= i < j && Waits(frames, i, j) ==> s.pending == Some(frames[i].t))
    && (s.pending.Some? ==> exists i :: 0 <= i < j && Waits(frames, i, j) && frames[i].t == s.pending.value)
    && (s.pending.Some? && s.resolvedAt.Some? ==> s.pending.value >= s.resolvedAt.value + REFRACTORY_MS)
  }

  lemma AcceptedIsNotRefractory(frames: seq<Frame>, j: nat)
    requires j < |frames| && StateFits(frames, j) && IsTap(frames[j])
    ensures Accepted(frames, j) <==> !InRefractory(Before(frames, j), frames[j].t)
  {
    var s := Before(frames, j);
    if s.resolvedAt.Some? {
      var k :| 0 <= k < j && Resolves(frames, k) && frames[k].t == s.resolvedAt.value;
    }
  }

  lemma WaitsStep(frames: seq<Frame>, i: nat, j: nat)
    requires i < j < |frames|
    ensures Waits(frames, i, j + 1) <==>
            Waits(frames, i, j) && IsIdle(frames[j]) && frames[j].t - frames[i].t < WINDOW_MS
  {
  }

  lemma WaitsFirst(frames: seq<Frame>, j: nat)
    requires j < |frames|
    ensures Waits(frames, j, j + 1) <==> Accepted(frames, j) && OutcomeAt(frames, j) == Nothing
  {
  }

  lemma ResolvedNext(frames: seq<Frame>, j: nat)
    requires j < |frames|
    ensures Before(frames, j + 1).resolvedAt == if Resolves(frames, j) then Some(frames[j].t) else Before(frames, j).resolvedAt
  {
    BeforeNext(frames, j);
  }

  lemma ResolvedStep(frames: seq<Frame>, j: nat)
    requires j < |frames| && Monotone(frames) && StateFits(frames, j)
    ensures var s' := Before(frames, j + 1);
      && (forall k :: 0 <= k < j + 1 && Resolves(frames, k) ==> s'.resolvedAt.Some? && frames[k].t <= s'.resolvedAt.value)
      && (s'.resolvedAt.Some? ==> exists k :: 0 <= k < j + 1 && Resolves(frames, k) && frames[k].t == s'.resolvedAt.value)
      && s'.resolvedAt == if Resolves(frames, j) then Some(frames[j].t) else Before(frames, j).resolvedAt
  {
    hide Before, Resolves;
    ResolvedNext(frames, j);
    var s := Before(frames, j);
    if !Resolves(frames, j) && s.resolvedAt.Some? {
      var k :| 0 <= k < j && Resolves(frames, k) && frames[k].t == s.resolvedAt.value;
    }
  }

  lemma PendingStep(frames: seq<Frame>, j: nat)
    requires j < |frames| && Monotone(frames) && StateFits(frames, j)
    ensures var s' := Before(frames, j + 1);
      && (forall i :: 0 <= i < j + 1 && Waits(frames, i, j + 1) ==> s'.pending == Some(frames[i].t))
      && (s'.pending.Some? ==> exists i :: 0 <= i < j + 1 && Waits(frames, i, j + 1) && frames[i].t == s'.pending.value)
  {
    BeforeNext(frames, j);
    var s, s', f := Before(frames, j), Before(frames, j + 1), frames[j];
    if IsTap(f) {
      AcceptedIsNotRefractory(frames, j);
    }
    WaitsFirst(frames, j);
    forall i | 0 <= i < j + 1 && Waits(frames, i, j + 1)
      ensures s'.pending == Some(frames[i].t)
    {
      if i < j {
        WaitsStep(frames, i, j);
      }
    }
    if s'.pending.Some? {
      if IsTap(f) {
        assert Waits(frames, j, j + 1);
      } else {
        var i :| 0 <= i < j && Waits(frames, i, j) && frames[i].t == s.pending.value;
        WaitsStep(frames, i, j);
        assert Waits(frames, i, j + 1);
      }
    }
  }

  lemma OrderStep(frames: seq<Frame>, j: nat)
    requires j < |frames| && Monotone(frames) && StateFits(frames, j)
    ensures var s' := Before(frames, j + 1);
      s'.pending.Some? && s'.resolvedAt.Some? ==> s'.pending.value >= s'.resolvedAt.value + REFRACTORY_MS
  {
    hide Waits, Resolves;
    BeforeNext(frames, j);
  }

  lemma {:induction false} StateAlwaysFits(frames: seq<Frame>, j: nat)
    requires Monotone(frames) && j <= |frames|
    ensures StateFits(frames, j)
  {
    hide Resolves, Waits, Monotone;
    if j > 0 {
      StateAlwaysFits(frames, j - 1);
      ResolvedStep(frames, j - 1);
      PendingStep(frames, j - 1);
      OrderStep(frames, j - 1);
    }
  }

  /**
   * A single tap resolves at a frame exactly when one waits there and the frame is the first
   * idle one with the window over; it selects unless the panel is locked.
   */
  lemma SingleTapResolves(frames: seq<Frame>, j: nat)
    requires Monotone(frames) && j < |frames|
    ensures (OutcomeAt(frames, j) == Confirm || OutcomeAt(frames, j) == SuppressedConfirm) <==>
            IsIdle(frames[j]) && exists i :: 0 <= i < j && Waits(frames, i, j) && frames[j].t - frames[i].t >= WINDOW_MS
    ensures OutcomeAt(frames, j) == Confirm ==> !frames[j].locked
    ensures OutcomeAt(frames, j) == SuppressedConfirm ==> frames[j].locked
  {
    StateAlwaysFits(frames, j);
    var s := Before(frames, j);
    if s.pending.Some? {
      var i :| 0 <= i < j && Waits(frames, i, j) && frames[i].t == s.pending.value;
    }
  }

  /** A double tap is an accepted tap while another one waits, and nothing else. */
  lemma DoubleTapResolves(frames: seq<Frame>, j: nat)
    requires Monotone(frames) && j < |frames|
    ensures OutcomeAt(frames, j) == DoubleTap <==>
            IsTap(frames[j]) && exists i :: 0 <= i < j && Waits(frames, i, j)
  {
    StateAlwaysFits(frames, j);
    var s := Before(frames, j);
    if s.pending.Some? {
      var i :| 0 <= i < j && Waits(frames, i, j) && frames[i].t == s.pending.value;
      assert frames[j].t >= frames[i].t;
    }
  }

  /** Whether the press the key is in at frame j was already made a tap. */
  ghost predicate TapSincePress(frames: seq<Frame>, j: nat)
    requires j < |frames|
  {
    exists k :: 0 <= k < j && IsTap(frames[k]) && NoPress(frames, k + 1, j)
  }

  predicate NoPress(frames: seq<Frame>, from: nat, j: nat)
    requires j < |frames|
  {
    forall m :: from <= m <= j ==> !frames[m].pressed
  }

  lemma {:induction false} ConsumedMeansTap(frames: seq<Frame>, j: nat)
    requires j < |frames|
    ensures (Before(frames, j).tapConsumed && !frames[j].pressed) <==> TapSincePress(frames, j)
  {
    if j > 0 {
      ConsumedMeansTap(frames, j - 1);
      BeforeNext(frames, j - 1);
      if TapSincePress(frames, j - 1) && !frames[j].pressed {
        var k :| 0 <= k < j - 1 && IsTap(frames[k]) && NoPress(frames, k + 1, j - 1);
        assert NoPress(frames, k + 1, j);
      }
      if IsTap(frames[j - 1]) && !frames[j].pressed {
        assert NoPress(frames, j - 1 + 1, j);
      }
      if TapSincePress(frames, j) {
        var k :| 0 <= k < j && IsTap(frames[k]) && NoPress(frames, k + 1, j);
        if k < j - 1 {
          assert NoPress(frames, k + 1, j - 1);
        }
      }
    }
  }

  /** On a double-tap board a hold is believed exactly when no tap was made of its press. */
  lemma HoldResolves(frames: seq<Frame>, j: nat)
    requires j < |frames| && frames[j].doubleTapBoard
    ensures OutcomeAt(frames, j) == Hold <==> frames[j].longPressed && !TapSincePress(frames, j)
  {
    ConsumedMeansTap(frames, j);
  }

  /** After any gesture the next tap outcome is at least the refractory time away. */
  lemma TapOutcomesAreSpaced(frames: seq<Frame>, k: nat, j: nat)
    requires Monotone(frames) && k < j < |frames| && Resolves(frames, k)
    requires OutcomeAt(frames, j) == Confirm || OutcomeAt(frames, j) == SuppressedConfirm || OutcomeAt(frames, j) == DoubleTap
    ensures frames[j].t >= frames[k].t + REFRACTORY_MS
  {
    StateAlwaysFits(frames, j);
    SingleTapResolves(frames, j);
    DoubleTapResolves(frames, j);
    var s := Before(frames, j);
    var i :| 0 <= i < j && Waits(frames, i, j) && s.pending == Some(frames[i].t);
    assert frames[j].t >= frames[i].t >= frames[k].t + REFRACTORY_MS;
  }

  // ---------------------------------------------------------------------------------------
  // Every accepted tap is spent once.
  // ---------------------------------------------------------------------------------------

  function Count(frames: seq<Frame>, n: nat, weight: (seq<Frame>, nat) --> nat): nat
    requires n <= |frames| && forall j: nat :: j < |frames| ==> weight.requires(frames, j)
  {
    if n == 0 then 0 else Count(frames, n - 1, weight) + weight(frames, n - 1)
  }

  function AcceptedAt(frames: seq<Frame>, j: nat): nat
    requires j < |frames|
  {
    if Accepted(frames, j) then 1 else 0
  }

  /** Taps spent by a frame: one by a single tap, suppressed or not, two by a double tap. */
  function SpentAt(frames: seq<Frame>, j: nat): nat
    requires j < |frames|
  {
    match OutcomeAt(frames, j)
    case Confirm => 1
    case SuppressedConfirm => 1
    case DoubleTap => 2
    case _ => 0
  }

  /** Taps cancelled by a frame: one waited, and a hold or a board without the gesture came. */
  function CancelledAt(frames: seq<Frame>, j: nat): nat
    requires j < |frames|
  {
    if Before(frames, j).pending.Some? && (!frames[j].doubleTapBoard || frames[j].longPressed) then 1 else 0
  }

  lemma TapBalance(frames: seq<Frame>, j: nat)
    requires Monotone(frames) && j < |frames|
    ensures (if Before(frames, j).pending.Some? then 1 else 0) + AcceptedAt(frames, j)
            == SpentAt(frames, j) + CancelledAt(frames, j) + (if Before(frames, j + 1).pending.Some? then 1 else 0)
  {
    hide Accepted, Waits;
    StateAlwaysFits(frames, j);
    BeforeNext(frames, j);
    if IsTap(frames[j]) {
      AcceptedIsNotRefractory(frames, j);
    } else {
      NotATap(frames, j);
    }
    var s := Before(frames, j);
    if s.pending.Some? {
      PendingIsPast(frames, j);
    }
  }

  lemma NotATap(frames: seq<Frame>, j: nat)
    requires j < |frames| && !IsTap(frames[j])
    ensures !Accepted(frames, j)
  {
  }

  lemma PendingIsPast(frames: seq<Frame>, j: nat)
    requires Monotone(frames) && j < |frames| && StateFits(frames, j) && Before(frames, j).pending.Some?
    ensures frames[j].t >= Before(frames, j).pending.value
    ensures !InRefractory(Before(frames, j), frames[j].t)
  {
    var s := Before(frames, j);
    var i :| 0 <= i < j && Waits(frames, i, j) && frames[i].t == s.pending.value;
    assert frames[j].t >= frames[i].t;
  }

  /** Over every run: accepted taps are the spent ones, the cancelled ones and the waiting one. */
  lemma {:induction false} TapsAreSpentOnce(frames: seq<Frame>, n: nat)
    requires Monotone(frames) && n <= |frames|
    ensures Count(frames, n, AcceptedAt) ==
            Count(frames, n, SpentAt) + Count(frames, n, CancelledAt) + (if Before(frames, n).pending.Some? then 1 else 0)
  {
    if n > 0 {
      TapsAreSpentOnce(frames, n - 1);
      TapBalance(frames, n - 1);
    }
  }
}
