/** The injected button presses of the debug console (src/DebugInput.cpp). */
module DebugInput {

  const BUTTON_COUNT := 7
  const QUEUE_SIZE := 8
  const NO_BUTTON := 0xFF
  const UINT32 := 0x1_0000_0000
  const NO_FRAME := 0xFFFF_FFFF

  datatype Press = Press(button: nat, holdMs: nat)

  datatype Phase = Idle | Down | Released

  datatype Query = AskPressed | AskReleased | AskDown

  /** The namespace variables, the ring queue as the sequence of presses it holds. */
  datatype State = State(
    pending: seq<Press>, phase: Phase, heldButton: nat, pressedEdge: bool, releasedEdge: bool,
    downAtMs: nat, requestedHoldMs: nat, heldSoFarMs: nat, lastFrameSeq: nat)

  const RESET := State([], Idle, NO_BUTTON, false, false, 0, 0, 0, NO_FRAME)

  predicate Accepts(s: State, button: nat) {
    button < BUTTON_COUNT && |s.pending| < QUEUE_SIZE
  }

  function Queued(s: State, button: nat, holdMs: nat): State {
    if Accepts(s, button) then s.(pending := s.pending + [Press(button, holdMs)]) else s
  }

  /** Unsigned 32-bit difference of two clock readings. */
  function Elapsed(now: nat, since: nat): nat {
    (now - since) % UINT32
  }

  function Pumped(s: State, frameSeq: nat, nowMs: nat): State {
    if frameSeq == s.lastFrameSeq then s
    else
      var f := s.(lastFrameSeq := frameSeq, pressedEdge := false, releasedEdge := false);
      match s.phase
      case Released =>
        f.(phase := Idle, heldButton := NO_BUTTON, heldSoFarMs := 0)
      case Down =>
        var held := Elapsed(nowMs, s.downAtMs);
        if held >= s.requestedHoldMs then f.(heldSoFarMs := held, releasedEdge := true, phase := Released)
        else f.(heldSoFarMs := held)
      case Idle =>
        if s.pending == [] then f
        else f.(pending := s.pending[1..], heldButton := s.pending[0].button,
                requestedHoldMs := s.pending[0].holdMs, downAtMs := nowMs, heldSoFarMs := 0,
                pressedEdge := true, phase := Down)
  }

  predicate AnyEdgeOf(s: State, query: Query) {
    match query
    case AskPressed => s.pressedEdge
    case AskReleased => s.releasedEdge
    case AskDown => s.phase == Down
  }

  // ---------------------------------------------------------------------------------------
  // The code: a ring of eight slots and a handful of flags.
  // ---------------------------------------------------------------------------------------

  /** The presses a ring holds, oldest first. */
  function RingContents(slots: seq<Press>, head: nat, count: nat): seq<Press>
    requires |slots| == QUEUE_SIZE
  {
    seq(count, i => slots[(head + i) % QUEUE_SIZE])
  }

  lemma RingPush(slots: seq<Press>, head: nat, count: nat, p: Press)
    requires |slots| == QUEUE_SIZE && head < QUEUE_SIZE && count < QUEUE_SIZE
    ensures RingContents(slots[(head + count) % QUEUE_SIZE := p], head, count + 1)
            == RingContents(slots, head, count) + [p]
  {
  }

  lemma RingPop(slots: seq<Press>, head: nat, count: nat)
    requires |slots| == QUEUE_SIZE && head < QUEUE_SIZE && 0 < count <= QUEUE_SIZE
    ensures RingContents(slots, head, count)[0] == slots[head]
    ensures RingContents(slots, (head + 1) % QUEUE_SIZE, count - 1) == RingContents(slots, head, count)[1..]
  {
  }

  class Injector {
    const pendingQueue: array<Press>
    var queueHead: nat
    var queueCount: nat
    var phase: Phase
    var heldButton: nat
    var pressedEdge: bool
    var releasedEdge: bool
    var downAtMs: nat
    var requestedHoldMs: nat
    var heldSoFarMs: nat
    var lastFrameSeq: nat

    predicate Valid()
      reads this
    {
      pendingQueue.Length == QUEUE_SIZE && queueHead < QUEUE_SIZE && queueCount <= QUEUE_SIZE
    }

    function Pending(): seq<Press>
      requires Valid()
      reads this, pendingQueue
    {
      RingContents(pendingQueue[..], queueHead, queueCount)
    }

    function Abs(): State
      requires Valid()
      reads this, pendingQueue
    {
      State(Pending(), phase, heldButton, pressedEdge, releasedEdge,
            downAtMs, requestedHoldMs, heldSoFarMs, lastFrameSeq)
    }

    constructor ()
      ensures Valid() && fresh(pendingQueue) && Abs() == RESET
    {
      pendingQueue := new Press[QUEUE_SIZE](i => Press(0, 0));
      queueHead, queueCount, phase, heldButton := 0, 0, Idle, NO_BUTTON;
      pressedEdge, releasedEdge := false, false;
      downAtMs, requestedHoldMs, heldSoFarMs, lastFrameSeq := 0, 0, 0, NO_FRAME;
    }

    method Reset()
      requires Valid()
      modifies this
      ensures Valid() && Abs() == RESET
    {
      queueHead, queueCount, phase, heldButton := 0, 0, Idle, NO_BUTTON;
      pressedEdge, releasedEdge := false, false;
      downAtMs, requestedHoldMs, heldSoFarMs, lastFrameSeq := 0, 0, 0, NO_FRAME;
    }

    method Queue(hwButton: nat, holdMs: nat) returns (ok: bool)
      requires Valid()
      modifies this, pendingQueue
      ensures Valid()
      ensures ok == Accepts(old(Abs()), hwButton)
      ensures Abs() == Queued(old(Abs()), hwButton, holdMs)
    {
      if hwButton >= BUTTON_COUNT {
        return false;
      }
      if queueCount >= QUEUE_SIZE {
        return false;
      }
      RingPush(pendingQueue[..], queueHead, queueCount, Press(hwButton, holdMs));
      pendingQueue[(queueHead + queueCount) % QUEUE_SIZE] := Press(hwButton, holdMs);
      queueCount := queueCount + 1;
      return true;
    }

    method Pump(frameSeq: nat, nowMs: nat)
      requires Valid()
      modifies this
      ensures Valid() && Abs() == Pumped(old(Abs()), frameSeq, nowMs)
    {
      hide Elapsed, RingContents;
      if frameSeq == lastFrameSeq {
        return;
      }
      lastFrameSeq := frameSeq;
      pressedEdge := false;
      releasedEdge := false;
      match phase {
        case Released =>
          phase := Idle;
          heldButton := NO_BUTTON;
          heldSoFarMs := 0;
          return;
        case Down =>
          heldSoFarMs := Elapsed(nowMs, downAtMs);
          if heldSoFarMs >= requestedHoldMs {
            releasedEdge := true;
            phase := Released;
          }
          return;
        case Idle =>
          StartNext(nowMs);
      }
    }

    /** The tail of the pump: from idle, take the next press off the queue, if there is one. */
    method StartNext(nowMs: nat)
      requires Valid() && phase == Idle && !pressedEdge && !releasedEdge
      modifies `queueHead, `queueCount, `heldButton, `requestedHoldMs, `downAtMs, `heldSoFarMs, `pressedEdge, `phase
      ensures Valid()
      ensures var pending := old(Pending());
        if pending == [] then Abs() == old(Abs())
        else Abs() == old(Abs()).(pending := pending[1..], heldButton := pending[0].button,
                                  requestedHoldMs := pending[0].holdMs, downAtMs := nowMs, heldSoFarMs := 0,
                                  pressedEdge := true, phase := Down)
    {
      assert |Pending()| == queueCount;
      if queueCount == 0 {
        return;
      }
      RingPop(pendingQueue[..], queueHead, queueCount);
      hide RingContents;
      var next := pendingQueue[queueHead];
      queueHead := (queueHead + 1) % QUEUE_SIZE;
      queueCount := queueCount - 1;
      heldButton := next.button;
      requestedHoldMs := next.holdMs;
      downAtMs := nowMs;
      heldSoFarMs := 0;
      pressedEdge := true;
      phase := Down;
    }

    method AnyEdge(query: Query) returns (r: bool)
      requires Valid()
      ensures r == AnyEdgeOf(Abs(), query)
    {
      match query {
        case AskPressed => return pressedEdge;
        case AskReleased => return releasedEdge;
        case AskDown => return phase == Down;
      }
    }

    method Button(hwButton: nat, query: Query) returns (r: bool)
      requires Valid()
      ensures r == (hwButton == heldButton && AnyEdgeOf(Abs(), query))
    {
      if hwButton != heldButton {
        return false;
      }
      r := AnyEdge(query);
    }

    /** While a press owns the frame the held time is answered for it. */
    method Active() returns (r: bool)
      requires Valid()
      ensures r == (AnyEdgeOf(Abs(), AskDown) || AnyEdgeOf(Abs(), AskReleased))
    {
      return phase == Down || releasedEdge;
    }
  }

  // ---------------------------------------------------------------------------------------
  // Runs: every interleaving of queue calls and input frames, from the reset state.
  // ---------------------------------------------------------------------------------------

  datatype Event = QueueCall(button: nat, holdMs: nat) | PumpCall(frameSeq: nat, nowMs: nat)

  /** What an activity can see of one frame. */
  datatype Edge = NoEdge | SawPress(press: Press) | SawRelease(press: Press, heldMs: nat)

  datatype Frame = Frame(edge: Edge, nowMs: nat)

  function EdgeOf(s: State): Edge {
    if s.pressedEdge then SawPress(Press(s.heldButton, s.requestedHoldMs))
    else if s.releasedEdge then SawRelease(Press(s.heldButton, s.requestedHoldMs), s.heldSoFarMs)
    else NoEdge
  }

  /** State, the frames seen and the presses accepted so far. */
  datatype Log = Log(state: State, frames: seq<Frame>, accepted: seq<Press>)

  function Step(log: Log, e: Event): Log {
    match e
    case QueueCall(button, holdMs) =>
      Log(Queued(log.state, button, holdMs), log.frames,
          if Accepts(log.state, button) then log.accepted + [Press(button, holdMs)] else log.accepted)
    case PumpCall(frameSeq, nowMs) =>
      var s := Pumped(log.state, frameSeq, nowMs);
      if frameSeq == log.state.lastFrameSeq then log.(state := s)
      else log.(state := s, frames := log.frames + [Frame(EdgeOf(s), nowMs)])
  }

  function Run(events: seq<Event>): Log {
    if events == [] then Log(RESET, [], [])
    else Step(Run(events[..|events| - 1]), events[|events| - 1])
  }

  /** The presses that became visible, in order. */
  function Started(frames: seq<Frame>): seq<Press> {
    if frames == [] then []
    else
      var before := Started(frames[..|frames| - 1]);
      var edge := frames[|frames| - 1].edge;
      if edge.SawPress? then before + [edge.press] else before
  }

  predicate Quiet(frames: seq<Frame>, i: int, j: int)
    requires 0 <= i && j <= |frames|
  {
    forall k :: i <= k < j ==> frames[k].edge.NoEdge?
  }

  /** Two frames with edges and none between them. */
  predicate Neighbours(frames: seq<Frame>, i: int, j: int)
    requires 0 <= i < j < |frames|
  {
    !frames[i].edge.NoEdge? && !frames[j].edge.NoEdge? && Quiet(frames, i + 1, j)
  }

  /** Frame j has the first edge after the edge of frame i, and the two fit together. */
  predicate EdgesFit(frames: seq<Frame>, i: int, j: int)
    requires 0 <= i < j < |frames|
  {
    match frames[i].edge
    case NoEdge => true
    case SawPress(p) =>
      && frames[j].edge.SawRelease? && frames[j].edge.press == p
      && HeldUntil(frames, i, j, p)
      && frames[j].edge.heldMs == Elapsed(frames[j].nowMs, frames[i].nowMs) >= p.holdMs
    case SawRelease(_, _) =>
      frames[j].edge.SawPress? && j >= i + 2
  }

  /** Every frame strictly between i and j came before the requested hold was over. */
  predicate HeldUntil(frames: seq<Frame>, i: int, j: int, p: Press)
    requires 0 <= i < |frames| && j <= |frames|
  {
    forall k :: i < k < j ==> Elapsed(frames[k].nowMs, frames[i].nowMs) < p.holdMs
  }

  /** The first edge is a press, and neighbouring edges fit together. */
  predicate Alternates(frames: seq<Frame>) {
    && (forall j :: 0 <= j < |frames| && !frames[j].edge.NoEdge? && Quiet(frames, 0, j) ==> frames[j].edge.SawPress?)
    && (forall i, j :: 0 <= i < j < |frames| && Neighbours(frames, i, j) ==> EdgesFit(frames, i, j))
  }

  /** The frame of the last edge, or -1. */
  function LastEdge(frames: seq<Frame>): (r: int)
    ensures -1 <= r < |frames|
    ensures r >= 0 ==> !frames[r].edge.NoEdge?
    ensures Quiet(frames, r + 1, |frames|)
  {
    if frames == [] then -1
    else if !frames[|frames| - 1].edge.NoEdge? then |frames| - 1
    else LastEdge(frames[..|frames| - 1])
  }

  /** What the phase remembers of the frames. */
  predicate PhaseFits(s: State, frames: seq<Frame>) {
    var l := LastEdge(frames);
    match s.phase
    case Idle => l >= 0 ==> frames[l].edge.SawRelease? && l < |frames| - 1
    case Down =>
      && l >= 0 && frames[l].edge == SawPress(Press(s.heldButton, s.requestedHoldMs))
      && frames[l].nowMs == s.downAtMs && HeldUntil(frames, l, |frames|, frames[l].edge.press)
    case Released => l >= 0 && l == |frames| - 1 && frames[l].edge.SawRelease?
  }

  predicate Consistent(log: Log) {
    && Started(log.frames) + log.state.pending == log.accepted
    && PhaseFits(log.state, log.frames)
    && Alternates(log.frames)
  }

  lemma AppendFrame(frames: seq<Frame>, f: Frame)
    ensures LastEdge(frames + [f]) == if f.edge.NoEdge? then LastEdge(frames) else |frames|
    ensures Started(frames + [f]) == if f.edge.SawPress? then Started(frames) + [f.edge.press] else Started(frames)
  {
    assert (frames + [f])[..|frames|] == frames;
  }

  /** Appending a frame keeps the alternation when its edge fits the last one. */
  lemma AppendAlternates(frames: seq<Frame>, f: Frame)
    requires Alternates(frames)
    requires !f.edge.NoEdge? ==>
      var l := LastEdge(frames);
      if l < 0 then f.edge.SawPress? else EdgesFit(frames + [f], l, |frames|)
    ensures Alternates(frames + [f])
  {
    var all, n := frames + [f], |frames|;
    assert forall k :: 0 <= k < n ==> all[k] == frames[k];
    hide EdgesFit;
    forall j | 0 <= j < |all| && !all[j].edge.NoEdge? && Quiet(all, 0, j)
      ensures all[j].edge.SawPress?
    {
      QuietPrefix(frames, f, 0, j);
      if j == n {
        LastEdgeIsLast(frames, -1);
      }
    }
    forall i, j | 0 <= i < j < |all| && Neighbours(all, i, j)
      ensures EdgesFit(all, i, j)
    {
      QuietPrefix(frames, f, i + 1, j);
      if j < n {
        assert Neighbours(frames, i, j);
        EdgesFitPrefix(frames, f, i, j);
      } else {
        LastEdgeIsLast(frames, i);
      }
    }
  }

  lemma QuietPrefix(frames: seq<Frame>, f: Frame, i: int, j: int)
    requires 0 <= i && j <= |frames|
    ensures Quiet(frames + [f], i, j) == Quiet(frames, i, j)
  {
    assert forall k :: 0 <= k < |frames| ==> (frames + [f])[k] == frames[k];
  }

  lemma LastEdgeIsLast(frames: seq<Frame>, i: int)
    requires -1 <= i < |frames| && Quiet(frames, i + 1, |frames|)
    requires i >= 0 ==> !frames[i].edge.NoEdge?
    ensures LastEdge(frames) == i
  {
  }

  lemma HeldUntilPrefix(frames: seq<Frame>, f: Frame, i: int, j: int, p: Press)
    requires 0 <= i < |frames| && j <= |frames|
    ensures HeldUntil(frames + [f], i, j, p) == HeldUntil(frames, i, j, p)
  {
    assert forall k :: 0 <= k < |frames| ==> (frames + [f])[k] == frames[k];
  }

  lemma EdgesFitPrefix(frames: seq<Frame>, f: Frame, i: int, j: int)
    requires 0 <= i < j < |frames|
    ensures EdgesFit(frames + [f], i, j) == EdgesFit(frames, i, j)
  {
    if frames[i].edge.SawPress? {
      HeldUntilPrefix(frames, f, i, j, frames[i].edge.press);
    }
  }

  lemma FrameConsistent(log: Log, frameSeq: nat, nowMs: nat)
    requires Consistent(log) && frameSeq != log.state.lastFrameSeq
    ensures Consistent(Step(log, PumpCall(frameSeq, nowMs)))
  {
    hide Alternates, Elapsed, HeldUntil, Started, LastEdge;
    var s := Pumped(log.state, frameSeq, nowMs);
    var f := Frame(EdgeOf(s), nowMs);
    AppendFrame(log.frames, f);
    var l := LastEdge(log.frames);
    if log.state.phase == Down {
      HeldUntilPrefix(log.frames, f, l, |log.frames|, log.frames[l].edge.press);
      HeldUntilNext(log.frames, f, l, log.frames[l].edge.press);
    } else if s.phase == Down {
      HeldUntilStart(log.frames + [f], f.edge.press);
    }
    AppendAlternates(log.frames, f);
  }

  lemma HeldUntilNext(frames: seq<Frame>, f: Frame, i: int, p: Press)
    requires 0 <= i < |frames|
    ensures HeldUntil(frames + [f], i, |frames| + 1, p) <==>
            HeldUntil(frames + [f], i, |frames|, p) && Elapsed(f.nowMs, frames[i].nowMs) < p.holdMs
  {
    assert (frames + [f])[|frames|] == f && (frames + [f])[i] == frames[i];
  }

  lemma HeldUntilStart(frames: seq<Frame>, p: Press)
    requires frames != []
    ensures HeldUntil(frames, |frames| - 1, |frames|, p)
  {
  }

  lemma {:induction false} RunConsistent(events: seq<Event>)
    ensures Consistent(Run(events))
  {
    if events != [] {
      var before := events[..|events| - 1];
      RunConsistent(before);
      match events[|events| - 1]
      case QueueCall(button, holdMs) =>
      case PumpCall(frameSeq, nowMs) =>
        if frameSeq != Run(before).state.lastFrameSeq {
          FrameConsistent(Run(before), frameSeq, nowMs);
        }
    }
  }

  /** Started presses, then the queue, are the accepted presses, in order, in every run. */
  lemma {:induction false} AcceptedInOrder(events: seq<Event>)
    ensures var log := Run(events); Started(log.frames) + log.state.pending == log.accepted
  {
    RunConsistent(events);
  }

  /** Presses and releases alternate, paired, timed and one idle frame apart, in every run. */
  lemma EdgesAlternate(events: seq<Event>)
    ensures Alternates(Run(events).frames)
  {
    RunConsistent(events);
  }

  /** The edge flags are those of the last frame. */
  predicate EdgesTold(log: Log) {
    var last := |log.frames| - 1;
    && (log.state.pressedEdge <==> last >= 0 && log.frames[last].edge.SawPress?)
    && (log.state.releasedEdge <==> last >= 0 && log.frames[last].edge.SawRelease?)
  }

  lemma EdgesToldNext(log: Log, e: Event)
    requires EdgesTold(log)
    ensures EdgesTold(Step(log, e))
  {
    hide Elapsed;
  }

  lemma {:induction false} EdgesAlwaysTold(events: seq<Event>)
    ensures EdgesTold(Run(events))
  {
    if events != [] {
      EdgesAlwaysTold(events[..|events| - 1]);
      EdgesToldNext(Run(events[..|events| - 1]), events[|events| - 1]);
    }
  }

  /** What the queries answer between two frames is what the last frame showed, in every run. */
  lemma QueriesTellFrames(events: seq<Event>)
    ensures var log := Run(events); var last := |log.frames| - 1;
      && (AnyEdgeOf(log.state, AskPressed) <==> last >= 0 && log.frames[last].edge.SawPress?)
      && (AnyEdgeOf(log.state, AskReleased) <==> last >= 0 && log.frames[last].edge.SawRelease?)
      && (AnyEdgeOf(log.state, AskDown) <==> LastEdge(log.frames) >= 0 && log.frames[LastEdge(log.frames)].edge.SawPress?)
  {
    hide Run, LastEdge, Alternates, Started, HeldUntil;
    RunConsistent(events);
    EdgesAlwaysTold(events);
  }

  // ---------------------------------------------------------------------------------------
  // How long n presses take.
  // ---------------------------------------------------------------------------------------

  function Max(a: int, b: int): int {
    if a < b then b else a
  }

  /** Frames that the queued presses may take: for each a press, its hold and an idle frame. */
  function FramesFor(pending: seq<Press>): nat {
    if pending == [] then 0 else Max(1, pending[0].holdMs) + 2 + FramesFor(pending[1..])
  }

  /** Frames left, with the clock at `now` (unwrapped) and the current press down since `down`. */
  function FramesLeft(s: State, down: int, now: int): int {
    FramesFor(s.pending) +
    match s.phase
    case Idle => 0
    case Down => Max(1, s.requestedHoldMs - (now - down)) + 1
    case Released => 1
  }

  /** The unwrapped clock of the frames of a run, and fresh frame numbers. */
  datatype Tick = Tick(frameSeq: nat, now: nat)

  function Pumps(s: State, ticks: seq<Tick>): State {
    if ticks == [] then s
    else Pumped(Pumps(s, ticks[..|ticks| - 1]), ticks[|ticks| - 1].frameSeq, ticks[|ticks| - 1].now % UINT32)
  }

  /** Frame numbers differ from one frame to the next, and the clock moves by 1 ms to maxGap. */
  predicate Ticking(lastSeq: nat, start: nat, ticks: seq<Tick>, maxGap: nat) {
    forall i :: 0 <= i < |ticks| ==> TickFollows(lastSeq, start, ticks, i, maxGap)
  }

  predicate TickFollows(lastSeq: nat, start: nat, ticks: seq<Tick>, i: int, maxGap: nat)
    requires 0 <= i < |ticks|
  {
    && ticks[i].frameSeq != (if i == 0 then lastSeq else ticks[i - 1].frameSeq)
    && 1 <= ticks[i].now - (if i == 0 then start else ticks[i - 1].now) <= maxGap
  }

  /** A hold so short that no gap can carry the 32-bit difference past it unseen. */
  predicate HoldFits(holdMs: nat, maxGap: nat) {
    holdMs == 0 || holdMs + maxGap <= UINT32
  }

  predicate HoldsFit(pending: seq<Press>, maxGap: nat) {
    forall p :: p in pending ==> HoldFits(p.holdMs, maxGap)
  }

  lemma WrappedElapsed(now: nat, down: nat)
    requires down <= now < down + UINT32
    ensures Elapsed(now % UINT32, down % UINT32) == now - down
  {
    var q := now / UINT32 - down / UINT32;
    var d := now % UINT32 - down % UINT32;
    assert now - down == UINT32 * q + d;
    assert q == 0 || q == 1;
    assert d < 0 ==> d + UINT32 == now - down && 0 <= now - down < UINT32;
  }

  /** The state fits an unwrapped clock at which its press went down. */
  predicate ClockFits(s: State, down: nat, now: nat, maxGap: nat) {
    && HoldsFit(s.pending, maxGap)
    && (s.phase == Down ==>
          down <= now && s.downAtMs == down % UINT32 && HoldFits(s.requestedHoldMs, maxGap) &&
          (now == down || now - down < s.requestedHoldMs))
  }

  /** One frame uses up one of the frames left. */
  lemma FrameIsProgress(s: State, down: nat, now: nat, tick: Tick, maxGap: nat) returns (down': nat)
    requires ClockFits(s, down, now, maxGap)
    requires tick.frameSeq != s.lastFrameSeq && 1 <= tick.now - now <= maxGap
    ensures var s' := Pumped(s, tick.frameSeq, tick.now % UINT32);
      && ClockFits(s', down', tick.now, maxGap)
      && s'.lastFrameSeq == tick.frameSeq
      && (FramesLeft(s', down', tick.now) < FramesLeft(s, down, now) || FramesLeft(s', down', tick.now) == 0)
  {
    down' := down;
    match s.phase
    case Idle =>
      down' := tick.now;
    case Down =>
      if tick.now - down < UINT32 {
        WrappedElapsed(tick.now, down);
      }
    case Released =>
  }

  /** A run of frames keeps the clock fit and uses up the frames left, one each, down to none. */
  lemma {:induction false} PumpsProgress(s: State, down: nat, now: nat, ticks: seq<Tick>, maxGap: nat)
    returns (down': nat, now': nat)
    requires ClockFits(s, down, now, maxGap)
    requires Ticking(s.lastFrameSeq, now, ticks, maxGap)
    ensures ClockFits(Pumps(s, ticks), down', now', maxGap)
    ensures ticks == [] ==> now' == now && down' == down
    ensures ticks != [] ==> now' == ticks[|ticks| - 1].now && Pumps(s, ticks).lastFrameSeq == ticks[|ticks| - 1].frameSeq
    ensures 0 <= FramesLeft(Pumps(s, ticks), down', now') <= Max(0, FramesLeft(s, down, now) - |ticks|)
  {
    if ticks == [] {
      down', now' := down, now;
    } else {
      var before, last := ticks[..|ticks| - 1], ticks[|ticks| - 1];
      forall i | 0 <= i < |before|
        ensures TickFollows(s.lastFrameSeq, now, before, i, maxGap)
      {
        assert TickFollows(s.lastFrameSeq, now, ticks, i, maxGap);
      }
      var d, n := PumpsProgress(s, down, now, before, maxGap);
      assert TickFollows(s.lastFrameSeq, now, ticks, |before|, maxGap);
      down' := FrameIsProgress(Pumps(s, before), d, n, last, maxGap);
      now' := last.now;
    }
  }

  predicate Finished(s: State) {
    s.phase == Idle && s.pending == []
  }

  /** Queued presses whose holds fit are over after the frames they may take. */
  lemma FittingPressesFinish(s: State, now: nat, ticks: seq<Tick>, maxGap: nat)
    requires s.phase == Idle && HoldsFit(s.pending, maxGap)
    requires Ticking(s.lastFrameSeq, now, ticks, maxGap)
    requires |ticks| >= FramesFor(s.pending)
    ensures Finished(Pumps(s, ticks))
  {
    var d, n := PumpsProgress(s, 0, now, ticks, maxGap);
  }

  // A slow clock, one millisecond a frame, uses up no more than one of the frames left each.

  function LastNow(now: nat, ticks: seq<Tick>): nat {
    if ticks == [] then now else ticks[|ticks| - 1].now
  }

  function NextSeq(last: nat): nat {
    if last == 0 then 1 else 0
  }

  lemma {:induction false} PumpsConcat(s: State, a: seq<Tick>, b: seq<Tick>)
    ensures Pumps(s, a + b) == Pumps(Pumps(s, a), b)
  {
    if b == [] {
      assert a + b == a;
    } else {
      assert (a + b)[..|a + b| - 1] == a + b[..|b| - 1];
      PumpsConcat(s, a, b[..|b| - 1]);
    }
  }

  lemma PumpsOne(s: State, tick: Tick)
    ensures Pumps(s, [tick]) == Pumped(s, tick.frameSeq, tick.now % UINT32)
  {
    assert [tick][..0] == [];
  }

  lemma TickingConcat(lastSeq: nat, now: nat, a: seq<Tick>, b: seq<Tick>, maxGap: nat)
    requires Ticking(lastSeq, now, a, maxGap)
    requires Ticking(if a == [] then lastSeq else a[|a| - 1].frameSeq, LastNow(now, a), b, maxGap)
    ensures Ticking(lastSeq, now, a + b, maxGap) && LastNow(now, a + b) == LastNow(LastNow(now, a), b)
  {
    var all := a + b;
    forall i | 0 <= i < |all|
      ensures TickFollows(lastSeq, now, all, i, maxGap)
    {
      if i < |a| {
        assert TickFollows(lastSeq, now, a, i, maxGap);
      } else {
        assert TickFollows(if a == [] then lastSeq else a[|a| - 1].frameSeq, LastNow(now, a), b, i - |a|, maxGap);
      }
    }
  }

  lemma {:induction false} LastSeqOfPumps(s: State, ticks: seq<Tick>)
    ensures Pumps(s, ticks).lastFrameSeq == if ticks == [] then s.lastFrameSeq else ticks[|ticks| - 1].frameSeq
  {
  }

  /** One more frame, `gap` ms later. */
  lemma OneMore(s: State, now: nat, ticks: seq<Tick>, gap: nat, maxGap: nat) returns (ticks': seq<Tick>)
    requires Ticking(s.lastFrameSeq, now, ticks, maxGap) && 1 <= gap <= maxGap
    ensures Ticking(s.lastFrameSeq, now, ticks', maxGap)
    ensures |ticks'| == |ticks| + 1 && LastNow(now, ticks') == LastNow(now, ticks) + gap
    ensures var e := Pumps(s, ticks);
      Pumps(s, ticks') == Pumped(e, NextSeq(e.lastFrameSeq), (LastNow(now, ticks) + gap) % UINT32)
  {
    var e := Pumps(s, ticks);
    LastSeqOfPumps(s, ticks);
    var tick := Tick(NextSeq(e.lastFrameSeq), LastNow(now, ticks) + gap);
    ticks' := ticks + [tick];
    assert TickFollows(e.lastFrameSeq, LastNow(now, ticks), [tick], 0, maxGap);
    TickingConcat(s.lastFrameSeq, now, ticks, [tick], maxGap);
    PumpsConcat(s, ticks, [tick]);
    PumpsOne(e, tick);
  }

  /** On the slow clock a press stays down until its hold is over. */
  lemma {:induction false} HoldsDown(s: State, now: nat, ticks: seq<Tick>, n: nat, maxGap: nat) returns (ticks': seq<Tick>)
    requires Ticking(s.lastFrameSeq, now, ticks, maxGap) && maxGap >= 1
    requires var e := Pumps(s, ticks);
      e.phase == Down && e.downAtMs == LastNow(now, ticks) % UINT32 && n < Max(1, e.requestedHoldMs) && e.requestedHoldMs < UINT32
    ensures Ticking(s.lastFrameSeq, now, ticks', maxGap)
    ensures |ticks'| == |ticks| + n && LastNow(now, ticks') == LastNow(now, ticks) + n
    ensures var e, e' := Pumps(s, ticks), Pumps(s, ticks');
      e'.phase == Down && e'.pending == e.pending && e'.downAtMs == e.downAtMs && e'.requestedHoldMs == e.requestedHoldMs
  {
    hide Pumps, Ticking, Elapsed;
    ticks' := ticks;
    if n > 0 {
      var before := HoldsDown(s, now, ticks, n - 1, maxGap);
      ticks' := OneMore(s, now, before, 1, maxGap);
      WrappedElapsed(LastNow(now, ticks) + n, LastNow(now, ticks));
    }
  }

  /** From idle, the slow clock takes a press through exactly the frames it may take. */
  lemma SlowPress(s: State, now: nat, ticks: seq<Tick>, maxGap: nat) returns (ticks': seq<Tick>)
    requires Ticking(s.lastFrameSeq, now, ticks, maxGap) && maxGap >= 1
    requires var e := Pumps(s, ticks); e.phase == Idle && e.pending != [] && e.pending[0].holdMs < UINT32
    ensures Ticking(s.lastFrameSeq, now, ticks', maxGap)
    ensures var e, e' := Pumps(s, ticks), Pumps(s, ticks');
      e'.phase == Idle && e'.pending == e.pending[1..] && |ticks'| == |ticks| + Max(1, e.pending[0].holdMs) + 2
  {
    hide Pumps, Ticking, Elapsed;
    var h := Pumps(s, ticks).pending[0].holdMs;
    var down := OneMore(s, now, ticks, 1, maxGap);
    var held := HoldsDown(s, now, down, Max(1, h) - 1, maxGap);
    var released := OneMore(s, now, held, 1, maxGap);
    WrappedElapsed(LastNow(now, down) + Max(1, h), LastNow(now, down));
    ticks' := OneMore(s, now, released, 1, maxGap);
  }

  lemma {:induction false} FramesForTail(pending: seq<Press>, m: nat)
    requires m < |pending|
    ensures FramesFor(pending[..m + 1]) == FramesFor(pending[..m]) + Max(1, pending[m].holdMs) + 2
    ensures FramesFor(pending) == FramesFor(pending[..m]) + FramesFor(pending[m..])
  {
    if m == 0 {
      assert pending[..1][1..] == [] && pending[0..] == pending && pending[..0] == [];
    } else {
      FramesForTail(pending[1..], m - 1);
      assert pending[..m + 1][1..] == pending[1..][..m] && pending[..m][1..] == pending[1..][..m - 1];
      assert pending[1..][m - 1..] == pending[m..];
    }
  }

  /** The slow clock reaches the m-th press in exactly the frames of the presses before it. */
  lemma {:induction false} SlowPresses(s: State, now: nat, m: nat, maxGap: nat) returns (ticks: seq<Tick>)
    requires s.phase == Idle && m <= |s.pending| && maxGap >= 1
    requires forall p :: p in s.pending ==> p.holdMs < UINT32
    ensures Ticking(s.lastFrameSeq, now, ticks, maxGap) && |ticks| == FramesFor(s.pending[..m])
    ensures Pumps(s, ticks).phase == Idle && Pumps(s, ticks).pending == s.pending[m..]
  {
    if m == 0 {
      ticks := [];
    } else {
      var before := SlowPresses(s, now, m - 1, maxGap);
      FramesForTail(s.pending, m - 1);
      assert s.pending[m - 1..][0] in s.pending;
      ticks := SlowPress(s, now, before, maxGap);
      assert s.pending[m - 1..][1..] == s.pending[m..];
    }
  }

  /** A frame 1 ms later uses up at most one of the frames left. */
  lemma SlowFrame(s: State, down: nat, now: nat, frameSeq: nat) returns (down': nat)
    requires ClockFits(s, down, now, 1) && frameSeq != s.lastFrameSeq
    ensures var s' := Pumped(s, frameSeq, (now + 1) % UINT32);
      |s'.pending| <= |s.pending| && ClockFits(s', down', now + 1, 1) && FramesLeft(s', down', now + 1) >= FramesLeft(s, down, now) - 1
  {
    down' := if s.phase == Idle then now + 1 else down;
    if s.phase == Down {
      if now + 1 - down < UINT32 {
        WrappedElapsed(now + 1, down);
      }
    }
  }

  lemma {:induction false} SlowFrames(s: State, now: nat, ticks: seq<Tick>, down: nat, n: nat, maxGap: nat)
    returns (ticks': seq<Tick>, down': nat)
    requires Ticking(s.lastFrameSeq, now, ticks, maxGap) && maxGap >= 1
    requires ClockFits(Pumps(s, ticks), down, LastNow(now, ticks), 1)
    ensures Ticking(s.lastFrameSeq, now, ticks', maxGap) && |ticks'| == |ticks| + n
    ensures ClockFits(Pumps(s, ticks'), down', LastNow(now, ticks'), 1)
    ensures |Pumps(s, ticks').pending| <= |Pumps(s, ticks).pending|
    ensures FramesLeft(Pumps(s, ticks'), down', LastNow(now, ticks')) >= FramesLeft(Pumps(s, ticks), down, LastNow(now, ticks)) - n
  {
    hide Pumps, Pumped, Ticking, ClockFits, FramesLeft;
    ticks', down' := ticks, down;
    if n > 0 {
      var before, d := SlowFrames(s, now, ticks, down, n - 1, maxGap);
      ticks' := OneMore(s, now, before, 1, maxGap);
      var e := Pumps(s, before);
      down' := SlowFrame(e, d, LastNow(now, before), NextSeq(e.lastFrameSeq));
    }
  }

  /** The press whose hold does not fit: a gap carries it past the wrap, and it stays down. */
  lemma MissedRelease(s: State, now: nat, ticks: seq<Tick>, maxGap: nat) returns (ticks': seq<Tick>, down: nat)
    requires Ticking(s.lastFrameSeq, now, ticks, maxGap)
    requires var e := Pumps(s, ticks);
      && e.phase == Idle && e.pending != [] && !HoldFits(e.pending[0].holdMs, maxGap)
      && forall p :: p in e.pending ==> p.holdMs < UINT32
    ensures Ticking(s.lastFrameSeq, now, ticks', maxGap)
    ensures var e, e' := Pumps(s, ticks), Pumps(s, ticks');
      && |ticks'| == |ticks| + e.pending[0].holdMs + 1 && e'.pending == e.pending[1..]
      && ClockFits(e', down, LastNow(now, ticks'), 1)
      && FramesLeft(e', down, LastNow(now, ticks')) >= 2 + FramesFor(e.pending[1..])
  {
    hide Pumps, Ticking, Elapsed;
    var e := Pumps(s, ticks);
    var h := e.pending[0].holdMs;
    var gap := if maxGap < UINT32 then maxGap else UINT32;
    var pressed := OneMore(s, now, ticks, 1, maxGap);
    var at := LastNow(now, pressed);
    var held := HoldsDown(s, now, pressed, h - 1, maxGap);
    ticks' := OneMore(s, now, held, gap, maxGap);
    down := at + UINT32;
    StepsOverWrap(at, h, gap);
    assert Pumps(s, ticks').pending == e.pending[1..];
    assert forall p :: p in e.pending[1..] ==> p in e.pending;
  }

  lemma StepsOverWrap(down: nat, h: nat, gap: nat)
    requires 1 <= h < UINT32 && gap <= UINT32 && h + gap > UINT32
    ensures Elapsed((down + h - 1 + gap) % UINT32, down % UINT32) == h - 1 + gap - UINT32 < h
    ensures (down + UINT32) % UINT32 == down % UINT32
  {
    WrappedElapsed(down + (h - 1 + gap - UINT32), down);
    assert (down + h - 1 + gap) % UINT32 == (down + (h - 1 + gap - UINT32)) % UINT32;
  }

  /** With a press that does not fit, some run of frames is long enough and leaves presses unfinished. */
  lemma MisfitIsNotFinished(s: State, now: nat, m: nat, maxGap: nat) returns (ticks: seq<Tick>)
    requires s.phase == Idle && m < |s.pending| && !HoldFits(s.pending[m].holdMs, maxGap)
    requires forall p :: p in s.pending ==> p.holdMs < UINT32
    ensures Ticking(s.lastFrameSeq, now, ticks, maxGap) && |ticks| == FramesFor(s.pending) && !Finished(Pumps(s, ticks))
    ensures m == |s.pending| - 1 ==> Pumps(s, ticks).phase != Idle
  {
    assert s.pending[m] in s.pending;
    var before := SlowPresses(s, now, m, maxGap);
    FramesForTail(s.pending, m);
    var rest := s.pending[m..];
    assert rest[0] == s.pending[m] && forall p :: p in rest ==> p in s.pending;
    var missed, down := MissedRelease(s, now, before, maxGap);
    var last;
    ticks, last := SlowFrames(s, now, missed, down, 1 + FramesFor(rest[1..]), maxGap);
  }

  ghost predicate AlwaysFinishes(s: State, maxGap: nat) {
    forall now: nat, ticks: seq<Tick> ::
      Ticking(s.lastFrameSeq, now, ticks, maxGap) && |ticks| >= FramesFor(s.pending) ==> Finished(Pumps(s, ticks))
  }

  /**
   * For every queue and every bound on the frame gaps: n presses are over within the frames they
   * may take, on every clock that keeps the bound, exactly when every hold fits the bound.
   */
  lemma PressesFinish(s: State, maxGap: nat)
    requires s.phase == Idle && forall p :: p in s.pending ==> p.holdMs < UINT32
    ensures AlwaysFinishes(s, maxGap) <==> HoldsFit(s.pending, maxGap)
  {
    if HoldsFit(s.pending, maxGap) {
      forall now: nat, ticks: seq<Tick> | Ticking(s.lastFrameSeq, now, ticks, maxGap) && |ticks| >= FramesFor(s.pending)
        ensures Finished(Pumps(s, ticks))
      {
        FittingPressesFinish(s, now, ticks, maxGap);
      }
    } else {
      var m :| 0 <= m < |s.pending| && !HoldFits(s.pending[m].holdMs, maxGap);
      var ticks := MisfitIsNotFinished(s, 0, m, maxGap);
    }
  }

  /** From the reset state: one press whose hold does not fit, and frames that leave it unfinished. */
  lemma LongHoldCanBeMissed(button: nat, holdMs: nat, maxGap: nat) returns (ticks: seq<Tick>)
    requires button < BUTTON_COUNT && 1 <= holdMs < UINT32 && holdMs + maxGap > UINT32
    ensures Ticking(NO_FRAME, 0, ticks, maxGap) && |ticks| == holdMs + 2
    ensures Pumps(Queued(RESET, button, holdMs), ticks).phase != Idle
  {
    var s := Queued(RESET, button, holdMs);
    assert s.pending == [Press(button, holdMs)] && s.pending[1..] == [];
    ticks := MisfitIsNotFinished(s, 0, 0, maxGap);
  }

  const MAX_CONSOLE_HOLD_MS := 10000

  /** The debug console queues no hold above ten seconds, so its presses finish on any clock whose
      frames come less than 49 days apart. */
  lemma ConsolePressesFinish(s: State, maxGap: nat)
    requires s.phase == Idle && forall p :: p in s.pending ==> p.holdMs <= MAX_CONSOLE_HOLD_MS
    requires maxGap <= UINT32 - MAX_CONSOLE_HOLD_MS
    ensures AlwaysFinishes(s, maxGap)
  {
    PressesFinish(s, maxGap);
  }
}
