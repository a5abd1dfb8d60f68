/** The loop-gap recorder and the run-length rows of src/DebugTouchLog.cpp. */
module DebugTouchLog {

  const UINT32 := 0x1_0000_0000
  const WORST_GAPS := 10
  const BUCKETS := 11
  const BUCKET_EDGES: seq<nat> := [2000, 5000, 10000, 20000, 50000, 100000, 200000, 500000, 1000000, 2000000]

  /** One recorded gap: its length, and the clock when it was seen. */
  datatype Gap = Gap(us: nat, atMs: nat)

  const NO_GAP := Gap(0, 0)

  // ---------------------------------------------------------------------------------------
  // The reference: the history of gaps since the last report.
  // ---------------------------------------------------------------------------------------

  /** The bucket of a gap: the first edge it does not pass, or the open one at the end. */
  function BucketOf(us: nat): (b: nat)
    ensures b < BUCKETS
    ensures b < BUCKETS - 1 ==> us <= BUCKET_EDGES[b]
    ensures forall i :: 0 <= i < b ==> us > BUCKET_EDGES[i]
  {
    FirstEdge(us, 0)
  }

  function FirstEdge(us: nat, from: nat): (b: nat)
    requires from <= BUCKETS - 1
    ensures from <= b <= BUCKETS - 1
    ensures b < BUCKETS - 1 ==> us <= BUCKET_EDGES[b]
    ensures forall i :: from <= i < b ==> us > BUCKET_EDGES[i]
    decreases BUCKETS - from
  {
    if from == BUCKETS - 1 || us <= BUCKET_EDGES[from] then from else FirstEdge(us, from + 1)
  }

  function InBucket(history: seq<Gap>, b: nat): nat {
    if history == [] then 0
    else InBucket(history[1..], b) + if BucketOf(history[0].us) == b then 1 else 0
  }

  function SumTo(history: seq<Gap>, n: nat): nat {
    if n == 0 then 0 else SumTo(history, n - 1) + InBucket(history, n - 1)
  }

  lemma {:induction false} SumStep(history: seq<Gap>, n: nat)
    requires history != []
    ensures SumTo(history, n) == SumTo(history[1..], n) + if BucketOf(history[0].us) < n then 1 else 0
  {
    if n > 0 {
      SumStep(history, n - 1);
    }
  }

  /** Every gap is in one bucket: the counts add up to the total. */
  lemma {:induction false} BucketsAddUp(history: seq<Gap>)
    ensures SumTo(history, BUCKETS) == |history|
  {
    if history == [] {
      EmptySum(BUCKETS);
    } else {
      BucketsAddUp(history[1..]);
      SumStep(history, BUCKETS);
    }
  }

  lemma {:induction false} EmptySum(n: nat)
    ensures SumTo([], n) == 0
  {
    if n > 0 {
      EmptySum(n - 1);
    }
  }

  lemma {:induction false} InBucketAppend(history: seq<Gap>, g: Gap, b: nat)
    ensures InBucket(history + [g], b) == InBucket(history, b) + if BucketOf(g.us) == b then 1 else 0
  {
    if history == [] {
      assert history + [g] == [g];
    } else {
      assert (history + [g])[1..] == history[1..] + [g];
      InBucketAppend(history[1..], g, b);
    }
  }

  lemma InBucketAppends(history: seq<Gap>, g: Gap)
    ensures forall b: nat :: InBucket(history + [g], b) == InBucket(history, b) + if BucketOf(g.us) == b then 1 else 0
  {
    forall b: nat {
      InBucketAppend(history, g, b);
    }
  }

  predicate Descending(s: seq<Gap>) {
    forall i, j :: 0 <= i < j < |s| ==> s[i].us >= s[j].us
  }

  /** Insert behind all gaps at least as long. */
  function Insert(s: seq<Gap>, g: Gap): (r: seq<Gap>)
    ensures |r| == |s| + 1
  {
    if s == [] || s[0].us < g.us then [g] + s else [s[0]] + Insert(s[1..], g)
  }

  /** The gaps that took any time, longest first, the earlier first among equals. */
  function Ranked(history: seq<Gap>): seq<Gap> {
    if history == [] then []
    else
      var before, g := Ranked(history[..|history| - 1]), history[|history| - 1];
      if g.us == 0 then before else Insert(before, g)
  }

  /** The ten longest, filled up with nothing. */
  function TopTen(history: seq<Gap>): (r: seq<Gap>)
    ensures |r| == WORST_GAPS
  {
    Padded(Ranked(history))
  }

  predicate Positive(history: seq<Gap>) {
    forall g :: g in history ==> g.us > 0
  }

  function Nonzero(history: seq<Gap>): seq<Gap> {
    if history == [] then []
    else
      var before, g := Nonzero(history[..|history| - 1]), history[|history| - 1];
      if g.us == 0 then before else before + [g]
  }

  lemma {:induction false} InsertFacts(s: seq<Gap>, g: Gap)
    requires Descending(s)
    ensures Descending(Insert(s, g)) && multiset(Insert(s, g)) == multiset(s) + multiset{g}
    ensures |Insert(s, g)| == |s| + 1
  {
    if s == [] || s[0].us < g.us {
      assert [g] + s == Insert(s, g);
    } else {
      InsertFacts(s[1..], g);
      assert s == [s[0]] + s[1..];
      var t := Insert(s[1..], g);
      forall j | 0 <= j < |t|
        ensures s[0].us >= t[j].us
      {
        assert t[j] in multiset(t);
      }
    }
  }

  /** The ranking is a descending permutation of the gaps that took any time. */
  lemma {:induction false} RankedFacts(history: seq<Gap>)
    ensures Descending(Ranked(history)) && multiset(Ranked(history)) == multiset(Nonzero(history))
    ensures Positive(Ranked(history))
  {
    if history != [] {
      var before, g := history[..|history| - 1], history[|history| - 1];
      RankedFacts(before);
      if g.us != 0 {
        InsertFacts(Ranked(before), g);
        assert forall h :: h in Ranked(history) <==> h in multiset(Ranked(history));
        assert forall h :: h in Ranked(before) <==> h in multiset(Ranked(before));
      }
    }
  }

  /** Where a gap goes: behind the first p. */
  predicate GoesTo(s: seq<Gap>, g: Gap, p: nat) {
    p <= |s| && (forall i :: 0 <= i < p ==> s[i].us >= g.us) && (p < |s| ==> s[p].us < g.us)
  }

  lemma GoesBehind(s: seq<Gap>, g: Gap, p: nat)
    requires Descending(s) && p < |s| && s[p].us < g.us && (p > 0 ==> s[p - 1].us >= g.us)
    ensures GoesTo(s, g, p)
  {
  }

  lemma {:induction false} InsertAt(s: seq<Gap>, g: Gap, p: nat)
    requires GoesTo(s, g, p)
    ensures Insert(s, g) == s[..p] + [g] + s[p..]
  {
    if p == 0 {
      assert s[..0] == [] && s[0..] == s;
    } else {
      assert s[0].us >= g.us && GoesTo(s[1..], g, p - 1);
      InsertAt(s[1..], g, p - 1);
      assert [s[0]] + s[1..][..p - 1] == s[..p] && s[1..][p - 1..] == s[p..];
    }
  }

  lemma {:induction false} FindPlace(s: seq<Gap>, g: Gap) returns (p: nat)
    ensures GoesTo(s, g, p)
  {
    p := 0;
    if s != [] && s[0].us >= g.us {
      p := FindPlace(s[1..], g);
      p := p + 1;
    }
  }

  /** A new gap changes the ten as inserting it among them and dropping the eleventh does. */
  lemma TopTenStep(history: seq<Gap>, g: Gap)
    ensures TopTen(history + [g]) ==
            if g.us <= TopTen(history)[WORST_GAPS - 1].us then TopTen(history)
            else Insert(TopTen(history), g)[..WORST_GAPS]
  {
    assert (history + [g])[..|history|] == history;
    RankedFacts(history);
    hide Insert;
    var r, t := Ranked(history), TopTen(history);
    if g.us != 0 {
      var p := FindPlace(r, g);
      InsertAt(r, g, p);
      ShiftedTop(r, g, p);
      if p < WORST_GAPS {
        InsertAt(t, g, p);
      }
    }
  }

  function Padded(r: seq<Gap>): (t: seq<Gap>)
    ensures |t| == WORST_GAPS
    ensures forall i :: 0 <= i < WORST_GAPS ==> t[i] == if i < |r| then r[i] else NO_GAP
  {
    (r + seq(WORST_GAPS, _ => NO_GAP))[..WORST_GAPS]
  }

  lemma ShiftedTop(r: seq<Gap>, g: Gap, p: nat)
    requires Descending(r) && g.us > 0 && GoesTo(r, g, p)
    ensures var t := Padded(r); var u := Padded(r[..p] + [g] + r[p..]);
      if p < WORST_GAPS then GoesTo(t, g, p) && u == (t[..p] + [g] + t[p..])[..WORST_GAPS] && t[WORST_GAPS - 1].us < g.us
      else u == t && g.us <= t[WORST_GAPS - 1].us
  {
    var t := Padded(r);
    var s := r[..p] + [g] + r[p..];
    assert forall i :: 0 <= i < |s| ==> s[i] == if i < p then r[i] else if i == p then g else r[i - 1];
    if p < WORST_GAPS {
      var v := t[..p] + [g] + t[p..];
      assert forall i :: 0 <= i < |v| ==> v[i] == if i < p then t[i] else if i == p then g else t[i - 1];
      assert Padded(s) == v[..WORST_GAPS];
    } else {
      assert Padded(s) == t;
    }
  }

  // ---------------------------------------------------------------------------------------
  // The code.
  // ---------------------------------------------------------------------------------------

  class GapRecorder {
    const gapCount: array<nat>
    const worstUs: array<nat>
    const worstAtMs: array<nat>
    var gapTotal: nat
    var lastUpdateUs: nat
    /** Every gap since the last report. */
    ghost var history: seq<Gap>

    ghost predicate Shape()
      reads this
    {
      && gapCount.Length == BUCKETS && worstUs.Length == WORST_GAPS && worstAtMs.Length == WORST_GAPS
      && gapCount != worstUs && gapCount != worstAtMs && worstUs != worstAtMs
    }

    function Worst(): (r: seq<Gap>)
      requires worstUs.Length == WORST_GAPS && worstAtMs.Length == WORST_GAPS
      reads worstUs, worstAtMs
      ensures |r| == WORST_GAPS
    {
      Zip(worstUs[..], worstAtMs[..])
    }

    ghost predicate Valid()
      reads this, gapCount, worstUs, worstAtMs
    {
      && Shape()
      && gapTotal == |history| % UINT32
      && (forall b :: 0 <= b < BUCKETS ==> gapCount[b] == InBucket(history, b) % UINT32)
      && Worst() == TopTen(history)
    }

    constructor ()
      ensures Valid() && history == [] && lastUpdateUs == 0
      ensures fresh(gapCount) && fresh(worstUs) && fresh(worstAtMs)
    {
      gapCount := new nat[BUCKETS](i => 0);
      worstUs := new nat[WORST_GAPS](i => 0);
      worstAtMs := new nat[WORST_GAPS](i => 0);
      gapTotal, lastUpdateUs, history := 0, 0, [];
    }

    /** The shifting loop: the slots with shorter gaps move down by one, and the last is lost. */
    method MakeRoom(gap: nat) returns (at: nat)
      requires Shape() && worstUs[WORST_GAPS - 1] < gap
      modifies worstUs, worstAtMs
      ensures at < WORST_GAPS && old(worstUs[at]) < gap
      ensures at > 0 ==> old(worstUs[at - 1]) >= gap
      ensures forall i :: 0 <= i < at ==> worstUs[i] == old(worstUs[i]) && worstAtMs[i] == old(worstAtMs[i])
      ensures forall i :: at < i < WORST_GAPS ==> worstUs[i] == old(worstUs[i - 1]) && worstAtMs[i] == old(worstAtMs[i - 1])
    {
      at := WORST_GAPS - 1;
      while at > 0 && worstUs[at - 1] < gap
        invariant at < WORST_GAPS && old(worstUs[at]) < gap
        invariant forall i :: 0 <= i <= at ==> worstUs[i] == old(worstUs[i]) && worstAtMs[i] == old(worstAtMs[i])
        invariant forall i :: at < i < WORST_GAPS ==> worstUs[i] == old(worstUs[i - 1]) && worstAtMs[i] == old(worstAtMs[i - 1])
      {
        worstUs[at] := worstUs[at - 1];
        worstAtMs[at] := worstAtMs[at - 1];
        at := at - 1;
      }
    }

    /** The ten slots: the new gap goes behind all gaps at least as long. */
    method InsertWorst(gap: nat, atMs: nat)
      requires Shape() && Descending(Worst()) && Worst()[WORST_GAPS - 1].us < gap
      modifies worstUs, worstAtMs
      ensures Worst() == Insert(old(Worst()), Gap(gap, atMs))[..WORST_GAPS]
    {
      hide Insert;
      ghost var before := Worst();
      var at := MakeRoom(gap);
      GoesBehind(before, Gap(gap, atMs), at);
      worstUs[at] := gap;
      worstAtMs[at] := atMs;
      InsertShifts(before, Gap(gap, atMs), at, Worst());
    }

    /** The bucket loop and its count. */
    method CountGap(gap: nat)
      requires gapCount.Length == BUCKETS
      modifies gapCount
      ensures forall b :: 0 <= b < BUCKETS ==>
        gapCount[b] == if b == BucketOf(gap) then (old(gapCount[b]) + 1) % UINT32 else old(gapCount[b])
    {
      var bucket := BUCKETS - 1;
      for i := 0 to BUCKETS - 1
        invariant bucket == BUCKETS - 1
        invariant forall k :: 0 <= k < i ==> gap > BUCKET_EDGES[k]
      {
        if gap <= BUCKET_EDGES[i] {
          bucket := i;
          break;
        }
      }
      assert bucket == BucketOf(gap);
      gapCount[bucket] := (gapCount[bucket] + 1) % UINT32;
    }

    method NoteUpdate(nowUs: nat, nowMs: nat)
      requires Valid()
      modifies this, gapCount, worstUs, worstAtMs
      ensures Valid() && lastUpdateUs == nowUs
      ensures history == if old(lastUpdateUs) == 0 then old(history)
                         else old(history) + [Gap((nowUs - old(lastUpdateUs)) % UINT32, nowMs)]
    {
      hide InBucket, TopTen, Insert, BucketOf;
      var previous := lastUpdateUs;
      lastUpdateUs := nowUs;
      if previous == 0 {
        return;
      }
      var gap := (nowUs - previous) % UINT32;
      ghost var g := Gap(gap, nowMs);
      gapTotal := (gapTotal + 1) % UINT32;
      CountGap(gap);
      TopTenStep(history, g);
      InBucketAppends(history, g);
      if gap > worstUs[WORST_GAPS - 1] {
        TopTenDescends(history);
        InsertWorst(gap, nowMs);
      }
      history := history + [g];
    }

    /** The reset at the end of a report. */
    method ReportGaps()
      requires Valid()
      modifies this, gapCount, worstUs, worstAtMs
      ensures Valid() && history == [] && lastUpdateUs == 0
    {
      for i := 0 to BUCKETS
        invariant forall k :: 0 <= k < i ==> gapCount[k] == 0
      {
        gapCount[i] := 0;
      }
      for i := 0 to WORST_GAPS
        invariant forall k :: 0 <= k < i ==> worstUs[k] == 0 && worstAtMs[k] == 0
        invariant forall k :: 0 <= k < BUCKETS ==> gapCount[k] == 0
      {
        worstUs[i] := 0;
        worstAtMs[i] := 0;
      }
      gapTotal := 0;
      lastUpdateUs := 0;
      history := [];
    }
  }

  /** Ten slots in which the tail moved down by one are the insertion, cut at ten. */
  lemma InsertShifts(s: seq<Gap>, g: Gap, p: nat, r: seq<Gap>)
    requires |s| == |r| == WORST_GAPS && p < WORST_GAPS && GoesTo(s, g, p)
    requires (forall i {:trigger r[i]} :: 0 <= i < p ==> r[i] == s[i]) && r[p] == g
    requires forall i {:trigger r[i]} :: p < i < WORST_GAPS ==> r[i] == s[i - 1]
    ensures r == Insert(s, g)[..WORST_GAPS]
  {
    InsertAt(s, g, p);
    hide Insert, GoesTo;
    var v := s[..p] + [g] + s[p..];
    forall i | 0 <= i < WORST_GAPS
      ensures r[i] == v[i]
    {
      SplicedAt(s, g, p, i);
    }
    assert r == v[..WORST_GAPS];
  }

  lemma SplicedAt(s: seq<Gap>, g: Gap, p: nat, i: nat)
    requires p <= |s| && i <= |s|
    ensures (s[..p] + [g] + s[p..])[i] == if i < p then s[i] else if i == p then g else s[i - 1]
  {
  }

  function Zip(us: seq<nat>, at: seq<nat>): (r: seq<Gap>)
    requires |us| == |at|
    ensures |r| == |us|
  {
    seq(|us|, i requires 0 <= i < |us| => Gap(us[i], at[i]))
  }

  lemma TopTenDescends(history: seq<Gap>)
    ensures Descending(TopTen(history))
  {
    RankedFacts(history);
  }

  // ---------------------------------------------------------------------------------------
  // Run-length rows of a capture.
  // ---------------------------------------------------------------------------------------

  const NO_COORD := 0xFFFF

  datatype Sample = Sample(us: nat, status: nat, intLevel: nat, x: nat, y: nat)

  datatype Row = Row(us: nat, status: nat, intLevel: nat, repeats: nat, x: int, y: int)

  function State(s: Sample): (nat, nat) {
    (s.status, s.intLevel)
  }

  function RowState(r: Row): (nat, nat) {
    (r.status, r.intLevel)
  }

  function States(samples: seq<Sample>): seq<(nat, nat)> {
    seq(|samples|, i requires 0 <= i < |samples| => State(samples[i]))
  }

  function Coord(v: nat): int {
    if v == NO_COORD then -1 else v
  }

  /** The row of a run that starts at a sample. */
  function RowOf(s: Sample, repeats: nat): Row {
    Row(s.us, s.status, s.intLevel, repeats, Coord(s.x), Coord(s.y))
  }

  /** What a reader of the rows reconstructs. */
  function Decode(rows: seq<Row>): seq<(nat, nat)> {
    if rows == [] then []
    else Decode(rows[..|rows| - 1]) + seq(rows[|rows| - 1].repeats, _ => RowState(rows[|rows| - 1]))
  }

  function Repeats(rows: seq<Row>): nat {
    if rows == [] then 0 else Repeats(rows[..|rows| - 1]) + rows[|rows| - 1].repeats
  }

  /** Adjacent rows differ and no row is empty: the rows are as few as they can be. */
  predicate Minimal(rows: seq<Row>) {
    && (forall i :: 0 <= i < |rows| ==> rows[i].repeats > 0)
    && (forall i :: 0 < i < |rows| ==> RowState(rows[i - 1]) != RowState(rows[i]))
  }

  /** Each row starts where the rows before it end, with that sample's stamp and place. */
  predicate RowsStart(rows: seq<Row>, samples: seq<Sample>) {
    forall i :: 0 <= i < |rows| ==>
      var at := Repeats(rows[..i]); at < |samples| && rows[i] == RowOf(samples[at], rows[i].repeats)
  }

  lemma AppendRow(rows: seq<Row>, r: Row)
    ensures Decode(rows + [r]) == Decode(rows) + seq(r.repeats, _ => RowState(r))
    ensures Repeats(rows + [r]) == Repeats(rows) + r.repeats
    ensures (rows + [r])[..|rows|] == rows
  {
    assert (rows + [r])[..|rows|] == rows;
  }

  /** The rows are the encoding of the first n samples, and sample n starts a new run. */
  predicate Encodes(rows: seq<Row>, samples: seq<Sample>, n: nat) {
    && n <= |samples|
    && Decode(rows) == States(samples)[..n] && Repeats(rows) == n
    && Minimal(rows) && RowsStart(rows, samples)
    && (rows != [] && n < |samples| ==> RowState(rows[|rows| - 1]) != State(samples[n]))
  }

  lemma RunAppended(rows: seq<Row>, samples: seq<Sample>, n: nat, m: nat)
    requires Encodes(rows, samples, n) && n < m <= |samples|
    requires forall k :: n <= k < m ==> State(samples[k]) == State(samples[n])
    requires m < |samples| ==> State(samples[m]) != State(samples[n])
    ensures Encodes(rows + [RowOf(samples[n], m - n)], samples, m)
  {
    var row := RowOf(samples[n], m - n);
    AppendRow(rows, row);
    assert States(samples)[..m] == States(samples)[..n] + seq(m - n, _ => RowState(row));
    hide Decode, Repeats, States, RowOf;
    StartsAppended(rows, samples, row);
    MinimalAppended(rows, row);
  }

  lemma StartsAppended(rows: seq<Row>, samples: seq<Sample>, row: Row)
    requires RowsStart(rows, samples) && Repeats(rows) < |samples|
    requires row == RowOf(samples[Repeats(rows)], row.repeats)
    ensures RowsStart(rows + [row], samples)
  {
    hide RowOf, Repeats;
    var all := rows + [row];
    forall i | 0 <= i < |all|
      ensures Repeats(all[..i]) < |samples| && all[i] == RowOf(samples[Repeats(all[..i])], all[i].repeats)
    {
      if i < |rows| {
        assert all[..i] == rows[..i];
      } else {
        assert all[..i] == rows;
      }
    }
  }

  lemma MinimalAppended(rows: seq<Row>, row: Row)
    requires Minimal(rows) && row.repeats > 0
    requires rows != [] ==> RowState(rows[|rows| - 1]) != RowState(row)
    ensures Minimal(rows + [row])
  {
  }

  method EncodeRuns(samples: seq<Sample>) returns (rows: seq<Row>)
    ensures Decode(rows) == States(samples)
    ensures Minimal(rows) && Repeats(rows) == |samples| && RowsStart(rows, samples)
  {
    rows := [];
    var runStart, runCount := 0, 1;
    var i := 1;
    assert Encodes(rows, samples, 0);
    hide Encodes, State, RowOf;
    while i <= |samples|
      invariant i == runStart + runCount && runCount > 0 && 0 <= runStart <= |samples|
      invariant Encodes(rows, samples, runStart)
      invariant runStart < |samples| ==> i <= |samples|
      invariant forall k :: runStart <= k < i && k < |samples| ==> State(samples[k]) == State(samples[runStart])
    {
      var same := i < |samples| && State(samples[i]) == State(samples[runStart]);
      if same {
        runCount := runCount + 1;
      } else {
        RunAppended(rows, samples, runStart, i);
        rows := rows + [RowOf(samples[runStart], runCount)];
        runStart := i;
        runCount := 1;
      }
      i := i + 1;
    }
    AllEncoded(rows, samples);
  }

  lemma AllEncoded(rows: seq<Row>, samples: seq<Sample>)
    requires Encodes(rows, samples, |samples|)
    ensures Decode(rows) == States(samples)
    ensures Minimal(rows) && Repeats(rows) == |samples| && RowsStart(rows, samples)
  {
    assert States(samples)[..|samples|] == States(samples);
  }

  // The encoding is the only minimal one.

  datatype Span = Span(state: (nat, nat), count: nat)

  /** The maximal runs of a sequence of states. */
  function Spans(states: seq<(nat, nat)>): seq<Span> {
    if states == [] then [] else Lengthened(Spans(states[..|states| - 1]), states[|states| - 1])
  }

  /** One more state: the last run grows, or a new one begins. */
  function Lengthened(spans: seq<Span>, s: (nat, nat)): seq<Span> {
    if spans != [] && spans[|spans| - 1].state == s
    then spans[..|spans| - 1] + [Span(s, spans[|spans| - 1].count + 1)]
    else spans + [Span(s, 1)]
  }

  function SpansOfRows(rows: seq<Row>): seq<Span> {
    seq(|rows|, i requires 0 <= i < |rows| => Span(RowState(rows[i]), rows[i].repeats))
  }

  lemma SpansSnoc(states: seq<(nat, nat)>, s: (nat, nat))
    ensures Spans(states + [s]) == Lengthened(Spans(states), s)
  {
    hide Lengthened;
    assert (states + [s])[..|states|] == states;
  }

  lemma {:induction false} SpansAppend(states: seq<(nat, nat)>, s: (nat, nat), n: nat)
    requires n > 0
    requires Spans(states) != [] ==> Spans(states)[|Spans(states)| - 1].state != s
    ensures Spans(states + seq(n, _ => s)) == Spans(states) + [Span(s, n)]
  {
    hide Spans;
    var shorter := states + seq(n - 1, _ => s);
    assert states + seq(n, _ => s) == shorter + [s];
    SpansSnoc(shorter, s);
    if n > 1 {
      SpansAppend(states, s, n - 1);
    } else {
      assert shorter == states;
    }
  }

  /** Minimal rows are the maximal runs of what they decode to, so no two of them differ. */
  lemma {:induction false} EncodingIsUnique(rows: seq<Row>)
    requires Minimal(rows)
    ensures SpansOfRows(rows) == Spans(Decode(rows))
  {
    if rows != [] {
      var before, last := rows[..|rows| - 1], rows[|rows| - 1];
      hide Spans, Lengthened;
      EncodingIsUnique(before);
      SpansAppend(Decode(before), RowState(last), last.repeats);
      assert SpansOfRows(rows) == SpansOfRows(before) + [Span(RowState(last), last.repeats)];
    }
  }
}
