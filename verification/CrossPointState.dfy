/** The ring of recently shown sleep images (src/CrossPointState.cpp, src/CrossPointState.h). */
module CrossPointState {

  const UINT8_MAX := 255

  datatype Option<+T> = None | Some(value: T)

  /** The saved document, as far as the ring reads it; absent numbers arrive as 0. */
  datatype Doc = Doc(recentSleepImages: Option<seq<nat>>, recentSleepPos: nat, recentSleepFill: nat,
                     lastSleepImage: Option<nat>)

  function Min(a: int, b: int): int {
    if a < b then a else b
  }

  /** The ring slot of the value pushed i pushes ago. */
  function Slot(pos: nat, capacity: nat, i: nat): nat
    requires pos < capacity && i < capacity
  {
    (pos + capacity - 1 - i) % capacity
  }

  /** The remembered values, newest first. */
  function Window(images: seq<nat>, pos: nat, fill: nat): (r: seq<nat>)
    requires pos < |images| && fill <= |images|
    ensures |r| == fill
  {
    seq(fill, i requires 0 <= i < fill => images[Slot(pos, |images|, i)])
  }

  function Pushed(window: seq<nat>, idx: nat, capacity: nat): seq<nat> {
    ([idx] + window)[..Min(|window| + 1, capacity)]
  }

  lemma PushMovesWindow(images: seq<nat>, pos: nat, fill: nat, idx: nat)
    requires pos < |images| && fill <= |images|
    ensures var n := |images|;
      Window(images[pos := idx], (pos + 1) % n, Min(fill + 1, n)) == Pushed(Window(images, pos, fill), idx, n)
  {
    var n := |images|;
    var p := (pos + 1) % n;
    forall i | 0 <= i < n
      ensures Slot(p, n, i) == if i == 0 then pos else Slot(pos, n, i - 1)
      ensures i > 0 ==> Slot(p, n, i) != pos
    {
      SlotStep(pos, n, i);
    }
  }

  lemma SlotStep(pos: nat, n: nat, i: nat)
    requires pos < n && i < n
    ensures Slot((pos + 1) % n, n, i) == if i == 0 then pos else Slot(pos, n, i - 1)
    ensures i > 0 ==> Slot((pos + 1) % n, n, i) != pos
  {
    NextPos(pos, n);
    SlotValue(pos, n, i);
    SlotValue((pos + 1) % n, n, i);
    if i > 0 {
      SlotValue(pos, n, i - 1);
    }
    hide Slot;
  }

  lemma NextPos(pos: nat, n: nat)
    requires pos < n
    ensures (pos + 1) % n == if pos + 1 < n then pos + 1 else 0
  {
  }

  lemma ModOnce(v: nat, n: nat)
    requires n > 0 && v < 2 * n
    ensures v % n == if v < n then v else v - n
  {
  }

  lemma SlotValue(pos: nat, n: nat, i: nat)
    requires pos < n && i < n
    ensures Slot(pos, n, i) == if i < pos then pos - 1 - i else pos + n - 1 - i
  {
    ModOnce(pos + n - 1 - i, n);
  }

  class SleepRing {
    const images: array<nat>
    var pos: nat
    var fill: nat

    predicate Valid()
      reads this
    {
      0 < images.Length <= UINT8_MAX && pos < images.Length && fill <= images.Length
    }

    function Recent(): seq<nat>
      requires Valid()
      reads this, images
    {
      Window(images[..], pos, fill)
    }

    constructor (capacity: nat)
      requires 0 < capacity <= UINT8_MAX
      ensures Valid() && images.Length == capacity && fresh(images) && Recent() == []
    {
      images := new nat[capacity](i => 0);
      pos, fill := 0, 0;
    }

    method IsRecentSleep(idx: nat, checkCount: nat) returns (r: bool)
      requires Valid()
      ensures r <==> idx in Recent()[..Min(checkCount, fill)]
    {
      var effectiveCount := Min(checkCount, fill);
      for i := 0 to effectiveCount
        invariant idx !in Recent()[..i]
      {
        var slot := (pos + images.Length - 1 - i) % images.Length;
        assert images[slot] == Recent()[i];
        assert Recent()[..i + 1] == Recent()[..i] + [Recent()[i]];
        if images[slot] == idx {
          assert Recent()[..effectiveCount][i] == idx;
          return true;
        }
      }
      return false;
    }

    method PushRecentSleep(idx: nat)
      requires Valid()
      modifies this, images
      ensures Valid() && Recent() == Pushed(old(Recent()), idx, images.Length)
    {
      PushMovesWindow(images[..], pos, fill, idx);
      images[pos] := idx;
      pos := (pos + 1) % images.Length;
      if fill < images.Length {
        fill := fill + 1;
      }
    }

    /** Loading the document again, at this capacity, would leave everything remembered. */
    method ToJson() returns (doc: Doc)
      requires Valid()
      ensures Loaded(doc, images.Length) == Recent()
      ensures doc.recentSleepImages == Some(images[..]) && doc.lastSleepImage == None
    {
      SaveLoadKeepsRecent(images[..], pos, fill);
      return Doc(Some(images[..]), pos, fill, None);
    }

    /** Any document leaves a valid ring; what it remembers is told by Loaded. */
    method FromJson(doc: Doc)
      requires Valid()
      modifies this, images
      ensures Valid() && Recent() == Loaded(doc, images.Length)
    {
      var n := images.Length;
      for i := 0 to n
        invariant forall k :: 0 <= k < i ==> images[k] == 0
        invariant Valid()
      {
        images[i] := 0;
      }
      var saved := if doc.recentSleepImages.None? then [] else doc.recentSleepImages.value;
      var actualCount := Min(|saved|, n);
      for i := 0 to actualCount
        invariant forall k :: 0 <= k < i ==> images[k] == saved[k]
        invariant forall k :: i <= k < n ==> images[k] == 0
        invariant Valid()
      {
        images[i] := saved[i];
      }
      assert images[..] == Slots(doc, n);
      pos := doc.recentSleepPos;
      if pos >= n {
        pos := if actualCount > 0 then pos % n else 0;
      }
      fill := Min(doc.recentSleepFill, actualCount);
      if fill == 0 && doc.lastSleepImage.Some? {
        if doc.lastSleepImage.value != UINT8_MAX {
          PushRecentSleep(doc.lastSleepImage.value);
        }
      }
    }
  }

  /** The slots a document fills: its values, then zeros, cut at the capacity. */
  function Slots(doc: Doc, capacity: nat): (r: seq<nat>)
    ensures |r| == capacity
  {
    var saved := if doc.recentSleepImages.None? then [] else doc.recentSleepImages.value;
    seq(capacity, i requires 0 <= i < capacity => if i < |saved| then saved[i] else 0)
  }

  function SavedCount(doc: Doc, capacity: nat): nat {
    if doc.recentSleepImages.None? then 0 else Min(|doc.recentSleepImages.value|, capacity)
  }

  /** What a loaded document makes recent, with the old single image as the only fallback. */
  function Loaded(doc: Doc, capacity: nat): seq<nat>
    requires capacity > 0
  {
    var pos := if doc.recentSleepPos < capacity then doc.recentSleepPos
               else if SavedCount(doc, capacity) > 0 then doc.recentSleepPos % capacity else 0;
    var w := Window(Slots(doc, capacity), pos, Min(doc.recentSleepFill, SavedCount(doc, capacity)));
    if w == [] && doc.lastSleepImage.Some? && doc.lastSleepImage.value != UINT8_MAX
    then [doc.lastSleepImage.value] else w
  }

  /** Saving and loading with one capacity keeps what is recent. */
  lemma SaveLoadKeepsRecent(images: seq<nat>, pos: nat, fill: nat)
    requires pos < |images| && fill <= |images|
    ensures Loaded(Doc(Some(images), pos, fill, None), |images|) == Window(images, pos, fill)
  {
    assert Slots(Doc(Some(images), pos, fill, None), |images|) == images;
  }

  // ---------------------------------------------------------------------------------------
  // Whole histories.
  // ---------------------------------------------------------------------------------------

  function PushAll(window: seq<nat>, pushes: seq<nat>, capacity: nat): seq<nat> {
    if pushes == [] then window
    else Pushed(PushAll(window, pushes[..|pushes| - 1], capacity), pushes[|pushes| - 1], capacity)
  }

  /** The last n values, newest first. */
  function Latest(pushes: seq<nat>, n: nat): seq<nat>
    requires n <= |pushes|
  {
    seq(n, i requires 0 <= i < n => pushes[|pushes| - 1 - i])
  }

  lemma PushLatest(pushes: seq<nat>, n: nat, capacity: nat)
    requires pushes != [] && n == Min(|pushes| - 1, capacity)
    ensures Pushed(Latest(pushes[..|pushes| - 1], n), pushes[|pushes| - 1], capacity)
            == Latest(pushes, Min(|pushes|, capacity))
  {
    var before := pushes[..|pushes| - 1];
    forall i | 0 <= i < n
      ensures Latest(before, n)[i] == pushes[|pushes| - 2 - i]
    {
    }
  }

  /** From an empty ring, the window is the last min(capacity, pushes) values. */
  lemma {:induction false} WindowIsHistory(pushes: seq<nat>, capacity: nat)
    ensures PushAll([], pushes, capacity) == Latest(pushes, Min(|pushes|, capacity))
  {
    if pushes != [] {
      hide Pushed, Latest;
      WindowIsHistory(pushes[..|pushes| - 1], capacity);
      PushLatest(pushes, Min(|pushes| - 1, capacity), capacity);
    } else {
      assert Latest([], 0) == [];
    }
  }

  /** idx is among the last n pushes. */
  predicate AmongLast(pushes: seq<nat>, n: int, idx: nat)
    requires 0 <= n <= |pushes|
  {
    idx in pushes[|pushes| - n..]
  }

  lemma LatestHolds(pushes: seq<nat>, n: nat, m: nat, idx: nat)
    requires m <= n <= |pushes|
    ensures idx in Latest(pushes, n)[..m] <==> AmongLast(pushes, m, idx)
  {
    var w, tail := Latest(pushes, n)[..m], pushes[|pushes| - m..];
    assert |w| == |tail| == m;
    assert forall i :: 0 <= i < m ==> w[i] == tail[m - 1 - i];
    assert forall i :: 0 <= i < m ==> tail[i] == w[m - 1 - i];
  }

  /** So a value is recent exactly when it is among the last min(k, capacity, pushes) of them. */
  lemma RecentIsAmongLast(pushes: seq<nat>, capacity: nat, idx: nat, k: nat)
    ensures var w := PushAll([], pushes, capacity);
      && |w| == Min(|pushes|, capacity)
      && (idx in w[..Min(k, |w|)] <==> AmongLast(pushes, Min(k, Min(capacity, |pushes|)), idx))
  {
    WindowIsHistory(pushes, capacity);
    LatestHolds(pushes, Min(|pushes|, capacity), Min(k, Min(capacity, |pushes|)), idx);
  }
}
