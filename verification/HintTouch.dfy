/** The hint-box press tracker of src/MappedInputManager.cpp: which box a finger presses. */
module HintTouch {

  const NO_BUTTON := 0xFF

  /** Where a touch event of the frame landed: none this frame, on no box, or on a box. */
  datatype Touch = NoTouch | OffBoxes | OnBox(button: nat)

  /** live: the hint boxes are the touch policy in force. held: the finger still on the glass. */
  datatype Frame = Frame(live: bool, down: Touch, tap: Touch, held: Touch)

  datatype Buttons = Buttons(down: nat, pressed: nat, released: nat)

  const START := Buttons(NO_BUTTON, NO_BUTTON, NO_BUTTON)

  /** A box index is never the code's "none". */
  predicate RealBoxes(f: Frame) {
    f.down != OnBox(NO_BUTTON) && f.tap != OnBox(NO_BUTTON) && f.held != OnBox(NO_BUTTON)
  }

  function Step(s: Buttons, f: Frame): Buttons {
    if !f.live then START
    else
      var pressed := if f.down.OnBox? then f.down.button else NO_BUTTON;
      var down := if f.down.OnBox? then f.down.button else s.down;
      if !f.tap.NoTouch? then
        Buttons(NO_BUTTON, pressed, if f.tap.OnBox? && f.tap.button == down then down else NO_BUTTON)
      else
        Buttons(if down != NO_BUTTON && f.held == OnBox(down) then down else NO_BUTTON, pressed, NO_BUTTON)
  }

  function Run(frames: seq<Frame>): Buttons {
    if frames == [] then START else Step(Run(frames[..|frames| - 1]), frames[|frames| - 1])
  }

  function After(frames: seq<Frame>, j: nat): Buttons
    requires j < |frames|
  {
    Run(frames[..j + 1])
  }

  lemma AfterNext(frames: seq<Frame>, j: nat)
    requires j < |frames|
    ensures After(frames, j) == Step(Run(frames[..j]), frames[j])
  {
    assert frames[..j + 1][..j] == frames[..j];
  }

  /** A press of box b landed in frame i and no later press came up to frame j. */
  predicate LastPress(frames: seq<Frame>, i: nat, j: nat, b: nat)
    requires i <= j < |frames|
  {
    && frames[i].live && frames[i].down == OnBox(b)
    && forall k :: i < k <= j ==> !frames[k].down.OnBox?
  }

  /** From frame i to the frame before j the finger stayed on box b without a tap. */
  predicate StaysOn(frames: seq<Frame>, i: nat, j: nat, b: nat)
    requires i <= j <= |frames|
  {
    forall k :: i <= k < j ==> frames[k].live && frames[k].tap.NoTouch? && frames[k].held == OnBox(b)
  }

  /** The press of box b that started in frame i is still on when frame j begins. */
  predicate Holds(frames: seq<Frame>, i: nat, j: nat, b: nat)
    requires i <= j < |frames|
  {
    LastPress(frames, i, j, b) && StaysOn(frames, i, j, b)
  }

  lemma HoldsStep(frames: seq<Frame>, i: nat, j: nat, b: nat)
    requires i < j < |frames|
    ensures Holds(frames, i, j, b) <==>
            Holds(frames, i, j - 1, b) && !frames[j].down.OnBox? &&
            frames[j - 1].live && frames[j - 1].tap.NoTouch? && frames[j - 1].held == OnBox(b)
  {
  }

  /** The box a finger is down on when frame j has taken its own press into account. */
  function DownDuring(frames: seq<Frame>, j: nat): nat
    requires j < |frames|
  {
    if frames[j].live && frames[j].down.OnBox? then frames[j].down.button else Run(frames[..j]).down
  }

  lemma {:induction false} DownMeansHeld(frames: seq<Frame>, j: nat, b: nat)
    requires j < |frames| && b != NO_BUTTON && forall k :: 0 <= k < |frames| ==> RealBoxes(frames[k])
    requires frames[j].live
    ensures DownDuring(frames, j) == b <==> exists i :: 0 <= i <= j && Holds(frames, i, j, b)
  {
    if frames[j].down.OnBox? {
      if frames[j].down.button == b {
        assert Holds(frames, j, j, b);
      }
    } else {
      if j > 0 {
        AfterNext(frames, j - 1);
        assert Run(frames[..j]) == Step(Run(frames[..j - 1]), frames[j - 1]);
        if frames[j - 1].live {
          DownMeansHeld(frames, j - 1, b);
          if DownDuring(frames, j) == b {
            var i :| 0 <= i <= j - 1 && Holds(frames, i, j - 1, b);
            HoldsStep(frames, i, j, b);
          }
        }
      }
      if exists i :: 0 <= i <= j && Holds(frames, i, j, b) {
        var i :| 0 <= i <= j && Holds(frames, i, j, b);
        assert i != j;
        HoldsStep(frames, i, j, b);
      }
    }
  }

  /**
   * A release of box b is reported in a frame exactly when the frame taps b and a press of b is
   * still on: pressed on b, never off it since, not tapped before. So a press gives at most one
   * release, and only on the box it started on.
   */
  lemma ReleaseClosesPress(frames: seq<Frame>, j: nat, b: nat)
    requires j < |frames| && b != NO_BUTTON && forall k :: 0 <= k < |frames| ==> RealBoxes(frames[k])
    ensures After(frames, j).released == b <==>
            frames[j].live && frames[j].tap == OnBox(b) && exists i :: 0 <= i <= j && Holds(frames, i, j, b)
  {
    AfterNext(frames, j);
    if frames[j].live {
      DownMeansHeld(frames, j, b);
    }
  }

  /** Two releases never answer one press. */
  lemma OneReleasePerPress(frames: seq<Frame>, i: nat, j: nat, k: nat, b: nat, c: nat)
    requires i <= j < k < |frames|
    requires frames[j].tap == OnBox(b) && Holds(frames, i, j, b)
    ensures !Holds(frames, i, k, c)
  {
    StaysOnAt(frames, i, k, c, j);
  }

  lemma StaysOnAt(frames: seq<Frame>, i: nat, k: nat, c: nat, j: nat)
    requires i <= j < k <= |frames|
    ensures StaysOn(frames, i, k, c) ==> frames[j].live && frames[j].tap.NoTouch?
  {
  }

  /** While the finger stays on its box the button reads as down, and it stops at the first frame
      the finger is elsewhere. */
  lemma DownWhileOnBox(frames: seq<Frame>, j: nat, b: nat)
    requires j < |frames| && b != NO_BUTTON && forall k :: 0 <= k < |frames| ==> RealBoxes(frames[k])
    ensures After(frames, j).down == b <==>
            exists i :: 0 <= i <= j && Holds(frames, i, j, b) && StaysOn(frames, i, j + 1, b)
  {
    AfterNext(frames, j);
    if frames[j].live {
      DownMeansHeld(frames, j, b);
      if After(frames, j).down == b {
        var i :| 0 <= i <= j && Holds(frames, i, j, b);
        assert StaysOn(frames, i, j + 1, b);
      }
    } else {
      forall i | 0 <= i <= j && Holds(frames, i, j, b)
        ensures !StaysOn(frames, i, j + 1, b)
      {
        StaysOnAt(frames, i, j + 1, b, j);
      }
    }
  }
}
