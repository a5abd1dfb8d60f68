/** The bounded list of missing tiles and its copy on the card (src/MissingTilesStore.cpp). */
module MissingTilesStore {
  import opened MissingTilePriority

  const MAX_ENTRIES := 200
  const REFUSAL_BASE_MS := 90 * 1000
  const REFUSAL_MAX_MS := 60 * 60 * 1000
  const HALF := 0x8000_0000

  // ---------------------------------------------------------------------------------------
  // The refusal schedule.
  // ---------------------------------------------------------------------------------------

  function Pow2(k: nat): nat {
    if k == 0 then 1 else 2 * Pow2(k - 1)
  }

  function Min(a: int, b: int): int {
    if a < b then a else b
  }

  /** base doubled per refusal after the first, capped; nothing for no refusal at all. */
  function Delay(base: nat, cap: nat, refusals: nat): nat {
    if refusals == 0 then 0 else Min(base * Pow2(refusals - 1), cap)
  }

  /** The cap is odd and one doubling would land just under it: the loop stops a step early. */
  predicate JustUnderOddCap(base: nat, cap: nat, refusals: nat) {
    cap % 2 == 1 && refusals >= 2 && base * Pow2(refusals - 1) == cap - 1
  }

  lemma DoublingGrows(base: nat, j: nat, k: nat)
    requires j <= k
    ensures base * Pow2(j) <= base * Pow2(k)
    decreases k
  {
    if j < k {
      DoublingGrows(base, j, k - 1);
      DoublingOnce(base, k - 1);
    }
  }

  lemma DoublingOnce(base: nat, k: nat)
    ensures base * Pow2(k + 1) == 2 * (base * Pow2(k))
  {
  }

  /** The loop, for any schedule: a value is doubled only below half the cap, so none can overflow. */
  method RefusalDelayMs(base: nat, cap: nat, refusals: nat) returns (d: nat)
    requires base < UINT32 && cap < UINT32
    ensures d <= cap
    ensures d == Delay(base, cap, refusals) <==> !JustUnderOddCap(base, cap, refusals)
    ensures JustUnderOddCap(base, cap, refusals) ==> d == cap
  {
    if refusals == 0 {
      return 0;
    }
    var delay := base;
    assert base * Pow2(0) == base;
    hide Pow2;
    for i := 1 to refusals
      invariant delay == base * Pow2(i - 1) && (delay <= cap || i == 1)
      invariant i >= 2 ==> base * Pow2(i - 2) < cap / 2
    {
      if delay >= cap / 2 {
        EarlyStop(base, cap, refusals, i);
        return cap;
      }
      DoublingOnce(base, i - 1);
      delay := delay * 2;
    }
    if refusals >= 2 {
      DoublingOnce(base, refusals - 2);
      assert !JustUnderOddCap(base, cap, refusals);
    }
    return if delay > cap then cap else delay;
  }

  lemma EarlyStop(base: nat, cap: nat, refusals: nat, i: nat)
    requires 1 <= i < refusals && cap / 2 <= base * Pow2(i - 1)
    ensures cap == Delay(base, cap, refusals) <==> !JustUnderOddCap(base, cap, refusals)
  {
    hide Pow2;
    DoublingOnce(base, i - 1);
    DoublingGrows(base, i, refusals - 1);
    DoublingGrows(base, i - 1, i);
    if i < refusals - 1 {
      DoublingOnce(base, i);
      DoublingGrows(base, i + 1, refusals - 1);
      if cap == 1 && base * Pow2(i - 1) == 0 {
        ZeroStaysZero(base, i - 1, refusals - 1);
      }
    }
  }

  lemma ZeroStaysZero(base: nat, j: nat, k: nat)
    requires base * Pow2(j) == 0
    ensures base * Pow2(k) == 0
  {
    DoublingGrows(base, 0, j);
    assert base * Pow2(0) == base;
  }

  /** The schedule of the source: its even cap meets the closed form at every refusal count. */
  function RefusalDelay(refusals: nat): (d: nat)
    ensures d <= REFUSAL_MAX_MS
    ensures !JustUnderOddCap(REFUSAL_BASE_MS, REFUSAL_MAX_MS, refusals)
  {
    Delay(REFUSAL_BASE_MS, REFUSAL_MAX_MS, refusals)
  }

  /** 90 s, 3, 6, 12, 24 and 48 minutes, and an hour from the seventh refusal on. */
  lemma ScheduleInMinutes(refusals: nat)
    requires refusals >= 7
    ensures RefusalDelay(1) == 90_000 && RefusalDelay(2) == 3 * 60_000 && RefusalDelay(3) == 6 * 60_000
    ensures RefusalDelay(4) == 12 * 60_000 && RefusalDelay(5) == 24 * 60_000 && RefusalDelay(6) == 48 * 60_000
    ensures RefusalDelay(refusals) == 60 * 60_000
  {
    assert Pow2(0) == 1 && Pow2(1) == 2 && Pow2(2) == 4 && Pow2(3) == 8 && Pow2(4) == 16 && Pow2(5) == 32;
    assert Pow2(6) == 64;
    DoublingGrows(REFUSAL_BASE_MS, 6, refusals - 1);
  }

  /** static_cast<int32_t>(now - retryAt) < 0. */
  predicate SignedBefore(now: nat, retryAt: nat) {
    (now - retryAt) % UINT32 >= HALF
  }

  function RetryStamp(nowMs: nat, delay: nat): nat {
    var stamp := (nowMs + delay) % UINT32;
    if stamp == 0 then 1 else stamp
  }

  predicate StandsRefused(retryAt: nat, nowMs: nat) {
    retryAt != 0 && SignedBefore(nowMs, retryAt)
  }

  /**
   * A refusal at time t with delay d, asked about e milliseconds later on a clock that wraps at
   * 2^32: refused exactly while the delay runs (one millisecond longer when the stamp would be
   * 0), and that holds until half a clock turn after its end.
   */
  lemma RefusedWhileDelayRuns(t: nat, d: nat, e: nat)
    requires 0 < d < HALF
    ensures var d' := if (t + d) % UINT32 == 0 then d + 1 else d;
      && (StandsRefused(RetryStamp(t % UINT32, d), (t + e) % UINT32) <==> (e - d') % UINT32 >= HALF)
      && (e < d' + HALF ==> (StandsRefused(RetryStamp(t % UINT32, d), (t + e) % UINT32) <==> e < d'))
  {
    var d' := if (t + d) % UINT32 == 0 then d + 1 else d;
    var stamp := RetryStamp(t % UINT32, d);
    assert (t % UINT32 + d) % UINT32 == (t + d) % UINT32;
    assert stamp == (t + d') % UINT32 by {
      if (t + d) % UINT32 == 0 {
        NextAfterMultiple(t + d);
      }
    }
    SubtractWrapped(t + e, t + d');
    SignOfDifference(e - d');
  }

  lemma SignOfDifference(x: int)
    ensures -HALF <= x < HALF ==> (x % UINT32 >= HALF <==> x < 0)
  {
  }

  lemma NextAfterMultiple(a: nat)
    requires a % UINT32 == 0
    ensures (a + 1) % UINT32 == 1
  {
  }

  lemma SubtractWrapped(a: int, b: int)
    ensures (a % UINT32 - b % UINT32) % UINT32 == (a - b) % UINT32
  {
    var q := a / UINT32 - b / UINT32;
    var r := a % UINT32 - b % UINT32;
    assert a - b == UINT32 * q + r;
  }

  // ---------------------------------------------------------------------------------------
  // The list as a value.
  // ---------------------------------------------------------------------------------------

  /** What is written to the card for a tile: neither refusals nor stamps. */
  datatype Entry = Entry(z: nat, col: nat, row: nat, count: nat)

  datatype CardFile = Absent | Unreadable | File(tiles: seq<Entry>)

  datatype Store = Store(hits: seq<Hit>, dirty: bool, loaded: bool)

  const FRESH := Store([], false, false)

  /** The first entry of a tile, or -1. */
  function Find(hits: seq<Hit>, k: Key): (i: int)
    ensures -1 <= i < |hits|
    ensures i >= 0 ==> KeyOf(hits[i]) == k
    ensures forall j :: 0 <= j < (if i < 0 then |hits| else i) ==> KeyOf(hits[j]) != k
  {
    if hits == [] then -1
    else if KeyOf(hits[0]) == k then 0
    else
      var i := Find(hits[1..], k);
      assert forall j :: 1 <= j < |hits| ==> hits[j] == hits[1..][j - 1];
      if i < 0 then -1 else i + 1
  }

  /** std::min_element by count: the first of the least. */
  function MinCount(hits: seq<Hit>): (i: int)
    requires hits != []
    ensures 0 <= i < |hits|
    ensures forall j :: 0 <= j < |hits| ==> hits[i].count <= hits[j].count
    ensures forall j :: 0 <= j < i ==> hits[i].count < hits[j].count
  {
    if |hits| == 1 then 0
    else
      var i := MinCount(hits[..|hits| - 1]);
      assert forall j :: 0 <= j < |hits| - 1 ==> hits[j] == hits[..|hits| - 1][j];
      if hits[|hits| - 1].count < hits[i].count then |hits| - 1 else i
  }

  function NewHit(k: Key): Hit {
    Hit(k.z, 0, 0, k.col, k.row, 1)
  }

  function Recorded(s: Store, k: Key): Store {
    var i := Find(s.hits, k);
    if i >= 0 then s.(hits := s.hits[i := s.hits[i].(count := (s.hits[i].count + 1) % UINT32)])
    else if |s.hits| >= MAX_ENTRIES then s.(hits := s.hits[MinCount(s.hits) := NewHit(k)], dirty := true)
    else s.(hits := s.hits + [NewHit(k)], dirty := true)
  }

  function Forgotten(s: Store, k: Key): Store {
    var i := Find(s.hits, k);
    if i < 0 then s else s.(hits := s.hits[..i] + s.hits[i + 1..], dirty := true)
  }

  function Refuse(h: Hit, nowMs: nat): Hit {
    var n := if h.refusals < 255 then h.refusals + 1 else h.refusals;
    h.(refusals := n, retryAtMs := RetryStamp(nowMs, RefusalDelay(n)))
  }

  function Refused(s: Store, k: Key, nowMs: nat): Store {
    var i := Find(s.hits, k);
    if i < 0 then s else s.(hits := s.hits[i := Refuse(s.hits[i], nowMs)])
  }

  function ToEntry(h: Hit): Entry {
    Entry(h.z, h.col, h.row, h.count)
  }

  function FromEntry(e: Entry): Hit {
    Hit(e.z, 0, 0, e.col, e.row, e.count)
  }

  function Persisted(hits: seq<Hit>): seq<Entry> {
    seq(|hits|, i requires 0 <= i < |hits| => ToEntry(hits[i]))
  }

  function Restored(tiles: seq<Entry>): seq<Hit> {
    seq(Min(|tiles|, MAX_ENTRIES), i requires 0 <= i < |tiles| => FromEntry(tiles[i]))
  }

  function LoadedFrom(s: Store, tiles: seq<Entry>): Store {
    Store(Restored(tiles), s.dirty, true)
  }

  /** A write that fails may leave the file as it was, unparsable, or written after all. */
  datatype WriteOutcome = Written | FailedUntouched | FailedTorn | FailedButWritten

  function CardAfterWrite(before: CardFile, tiles: seq<Entry>, outcome: WriteOutcome): CardFile {
    match outcome
    case Written => File(tiles)
    case FailedUntouched => before
    case FailedTorn => Unreadable
    case FailedButWritten => File(tiles)
  }

  predicate RefusesToSave(s: Store) {
    s.dirty && !s.loaded && s.hits == []
  }

  function Flushed(s: Store, card: CardFile, outcome: WriteOutcome): (Store, CardFile) {
    if !s.dirty || RefusesToSave(s) then (s, card)
    else (s.(dirty := s.dirty && outcome != Written), CardAfterWrite(card, Persisted(s.hits), outcome))
  }

  // ---------------------------------------------------------------------------------------
  // The code.
  // ---------------------------------------------------------------------------------------

  class Card {
    var content: CardFile

    constructor (content: CardFile)
      ensures this.content == content
    {
      this.content := content;
    }

    method Write(tiles: seq<Entry>, outcome: WriteOutcome) returns (ok: bool)
      modifies this
      ensures content == CardAfterWrite(old(content), tiles, outcome)
      ensures ok == (outcome == Written)
    {
      match outcome {
        case Written => content := File(tiles);
        case FailedUntouched =>
        case FailedTorn => content := Unreadable;
        case FailedButWritten => content := File(tiles);
      }
      return outcome == Written;
    }
  }

  class MissingTilesStore {
    var hits: seq<Hit>
    var dirty: bool
    var loaded: bool

    function Value(): Store
      reads this
    {
      Store(hits, dirty, loaded)
    }

    constructor ()
      ensures Value() == FRESH
    {
      hits, dirty, loaded := [], false, false;
    }

    method ToJson() returns (tiles: seq<Entry>)
      ensures tiles == Persisted(hits)
    {
      tiles := [];
      for i := 0 to |hits|
        invariant tiles == Persisted(hits)[..i]
      {
        tiles := tiles + [ToEntry(hits[i])];
      }
    }

    method FromJson(tiles: seq<Entry>)
      modifies this
      ensures Value() == LoadedFrom(old(Value()), tiles)
    {
      loaded := true;
      hits := [];
      var i := 0;
      while i < |tiles|
        invariant 0 <= i <= |tiles| && i <= MAX_ENTRIES
        invariant hits == Restored(tiles)[..i] && loaded && dirty == old(dirty)
      {
        if |hits| >= MAX_ENTRIES {
          break;
        }
        hits := hits + [FromEntry(tiles[i])];
        i := i + 1;
      }
    }

    method LoadFromFile(card: Card, readOk: bool) returns (ok: bool)
      modifies this
      ensures ok == (card.content.File? && readOk)
      ensures Value() == if ok then LoadedFrom(old(Value()), card.content.tiles) else old(Value())
    {
      if !card.content.File? || !readOk {
        return false;
      }
      FromJson(card.content.tiles);
      return true;
    }

    method Record(k: Key)
      modifies this
      ensures Value() == Recorded(old(Value()), k)
    {
      var it := Find(hits, k);
      if it >= 0 {
        hits := hits[it := hits[it].(count := (hits[it].count + 1) % UINT32)];
        return;
      }
      if |hits| >= MAX_ENTRIES {
        var worst := MinCount(hits);
        hits := hits[worst := NewHit(k)];
        dirty := true;
        return;
      }
      hits := hits + [NewHit(k)];
      dirty := true;
    }

    method MarkRefused(k: Key, nowMs: nat) returns (known: bool)
      requires nowMs < UINT32
      modifies this
      ensures known == (Find(old(hits), k) >= 0)
      ensures Value() == Refused(old(Value()), k, nowMs)
    {
      var it := Find(hits, k);
      if it < 0 {
        return false;
      }
      var h := hits[it];
      if h.refusals < 255 {
        h := h.(refusals := h.refusals + 1);
      }
      var delay := RefusalDelayMs(REFUSAL_BASE_MS, REFUSAL_MAX_MS, h.refusals);
      assert delay == RefusalDelay(h.refusals);
      h := h.(retryAtMs := (nowMs + delay) % UINT32);
      if h.retryAtMs == 0 {
        h := h.(retryAtMs := 1);
      }
      hits := hits[it := h];
      return true;
    }

    method IsRefused(k: Key, nowMs: nat) returns (r: bool)
      ensures r <==> Find(hits, k) >= 0 && StandsRefused(hits[Find(hits, k)].retryAtMs, nowMs)
    {
      var it := Find(hits, k);
      if it < 0 || hits[it].retryAtMs == 0 {
        return false;
      }
      return (nowMs - hits[it].retryAtMs) % UINT32 >= HALF;
    }

    method Forget(k: Key) returns (known: bool)
      modifies this
      ensures known == (Find(old(hits), k) >= 0)
      ensures Value() == Forgotten(old(Value()), k)
    {
      var it := Find(hits, k);
      if it < 0 {
        return false;
      }
      hits := hits[..it] + hits[it + 1..];
      dirty := true;
      return true;
    }

    /** std::sort may leave any sorted permutation; which one is fixed exactly when nothing ties. */
    method SortByFetchPriority(anchor: TierAnchor)
      modifies this
      ensures IsSortOf(hits, old(hits), anchor) && dirty == old(dirty) && loaded == old(loaded)
    {
      SortExists(hits, anchor);
      var sorted :| IsSortOf(sorted, hits, anchor);
      hits := sorted;
    }

    method FlushIfDirty(card: Card, outcome: WriteOutcome) returns (ok: bool)
      modifies this, card
      ensures (Value(), card.content) == Flushed(old(Value()), old(card.content), outcome)
      ensures ok <==> !old(dirty) || (!RefusesToSave(old(Value())) && outcome == Written)
    {
      if !dirty {
        return true;
      }
      if !loaded && hits == [] {
        return false;
      }
      var tiles := ToJson();
      var saved := card.Write(tiles, outcome);
      if !saved {
        return false;
      }
      dirty := false;
      return true;
    }
  }

  // ---------------------------------------------------------------------------------------
  // Single operations.
  // ---------------------------------------------------------------------------------------

  /** On a full list a new tile takes the place of the first least-hit entry and of nothing else. */
  lemma EvictsLeastHit(s: Store, k: Key)
    requires |s.hits| >= MAX_ENTRIES && forall h :: h in s.hits ==> KeyOf(h) != k
    ensures var r := Recorded(s, k).hits; var i := MinCount(s.hits);
      && |r| == |s.hits| && KeyOf(r[i]) == k && r[i].count == 1
      && (forall j :: 0 <= j < |r| && j != i ==> r[j] == s.hits[j])
      && (forall j :: 0 <= j < |r| ==> s.hits[i].count <= s.hits[j].count)
  {
  }

  function Keys(hits: seq<Hit>): set<Key> {
    set h | h in hits :: KeyOf(h)
  }

  function EntryKey(e: Entry): Key {
    Key(e.z, e.col, e.row)
  }

  /** The tiles a file lists; a file that is not there lists none. */
  function CardKeys(card: CardFile): set<Key> {
    if card.File? then set e | e in card.tiles :: EntryKey(e) else {}
  }

  /** The tiles a load takes over: those of the part that fits. */
  function LoadedKeys(card: CardFile): set<Key> {
    if card.File? then Keys(Restored(card.tiles)) else {}
  }

  /** A file whose loaded part has no tile twice. */
  predicate GoodFile(card: CardFile) {
    card.File? ==> UniqueKeys(Restored(card.tiles))
  }

  /** A load cuts nothing off: every tile past the bound repeats one before it. */
  predicate NothingCut(card: CardFile) {
    card.File? ==> forall i :: MAX_ENTRIES <= i < |card.tiles| ==> RepeatsEarly(card.tiles, i)
  }

  predicate RepeatsEarly(tiles: seq<Entry>, i: int)
    requires 0 <= i < |tiles|
  {
    exists j :: 0 <= j < |tiles| && j < MAX_ENTRIES && EntryKey(tiles[j]) == EntryKey(tiles[i])
  }

  lemma RecordKeepsUnique(s: Store, k: Key)
    requires UniqueKeys(s.hits)
    ensures UniqueKeys(Recorded(s, k).hits)
    ensures |s.hits| <= MAX_ENTRIES ==> |Recorded(s, k).hits| <= MAX_ENTRIES
    ensures !Recorded(s, k).dirty ==> Keys(Recorded(s, k).hits) == Keys(s.hits)
  {
    var i := Find(s.hits, k);
    if i >= 0 {
      ReplaceSameKey(s.hits, i, s.hits[i].(count := (s.hits[i].count + 1) % UINT32));
    }
  }

  lemma ReplaceSameKey(hits: seq<Hit>, i: int, h: Hit)
    requires UniqueKeys(hits) && 0 <= i < |hits| && KeyOf(h) == KeyOf(hits[i])
    ensures UniqueKeys(hits[i := h]) && Keys(hits[i := h]) == Keys(hits)
  {
    forall k | k in Keys(hits)
      ensures k in Keys(hits[i := h])
    {
      var j :| 0 <= j < |hits| && KeyOf(hits[j]) == k;
      assert KeyOf(hits[i := h][j]) == k;
    }
    forall k | k in Keys(hits[i := h])
      ensures k in Keys(hits)
    {
      var j :| 0 <= j < |hits| && KeyOf(hits[i := h][j]) == k;
      assert KeyOf(hits[j]) == k;
    }
  }

  lemma PermutationKeepsKeys(p: seq<Hit>, s: seq<Hit>)
    requires multiset(p) == multiset(s) && UniqueKeys(s)
    ensures UniqueKeys(p) && Keys(p) == Keys(s) && |p| == |s|
  {
    assert |p| == |multiset(p)| && |s| == |multiset(s)|;
    assert forall h :: h in p <==> h in multiset(p);
    assert forall h :: h in s <==> h in multiset(s);
    assert Keys(p) == Keys(s);
    forall i, j | 0 <= i < j < |p|
      ensures KeyOf(p[i]) != KeyOf(p[j])
    {
      if KeyOf(p[i]) == KeyOf(p[j]) {
        assert p[i] in s && p[j] in s;
        assert p[i] == p[j];
        TwiceInSeq(p, i, j);
        OnceInSeq(s, p[i]);
        assert false;
      }
    }
  }

  lemma TwiceInSeq(p: seq<Hit>, i: int, j: int)
    requires 0 <= i < j < |p| && p[i] == p[j]
    ensures multiset(p)[p[i]] >= 2
  {
    assert p == p[..j] + [p[j]] + p[j + 1..];
    assert p[i] in p[..j];
  }

  lemma {:induction false} OnceInSeq(s: seq<Hit>, h: Hit)
    requires UniqueKeys(s)
    ensures multiset(s)[h] <= 1
  {
    if s != [] {
      assert s == [s[0]] + s[1..];
      OnceInSeq(s[1..], h);
      if s[0] == h {
        assert h !in s[1..];
      }
    }
  }

  lemma RestoredPersisted(hits: seq<Hit>)
    requires |hits| <= MAX_ENTRIES
    ensures |Restored(Persisted(hits))| == |hits|
    ensures UniqueKeys(hits) ==> UniqueKeys(Restored(Persisted(hits)))
    ensures LoadedKeys(File(Persisted(hits))) == Keys(hits)
  {
    var r := Restored(Persisted(hits));
    assert forall i :: 0 <= i < |hits| ==> KeyOf(r[i]) == KeyOf(hits[i]);
    forall k | k in Keys(hits)
      ensures k in Keys(r)
    {
      var i :| 0 <= i < |hits| && KeyOf(hits[i]) == k;
      assert r[i] in r;
    }
    forall k | k in Keys(r)
      ensures k in Keys(hits)
    {
      var i :| 0 <= i < |r| && KeyOf(r[i]) == k;
      assert hits[i] in hits;
    }
  }

  lemma KeyRestored(tiles: seq<Entry>, k: Key)
    ensures k in Keys(Restored(tiles)) <==> exists j :: 0 <= j < |tiles| && j < MAX_ENTRIES && EntryKey(tiles[j]) == k
  {
    var r := Restored(tiles);
    assert forall j :: 0 <= j < |r| ==> KeyOf(r[j]) == EntryKey(tiles[j]);
    if k in Keys(r) {
      var j :| 0 <= j < |r| && KeyOf(r[j]) == k;
    }
    if j :| 0 <= j < |tiles| && j < MAX_ENTRIES && EntryKey(tiles[j]) == k {
      assert r[j] in r;
    }
  }

  /** What a load takes over is what the card lists exactly when nothing is cut off. */
  lemma LoadedAllExactly(card: CardFile)
    ensures LoadedKeys(card) == CardKeys(card) <==> NothingCut(card)
  {
    hide Keys, Restored;
    if card.File? {
      var tiles := card.tiles;
      forall k
        ensures k in LoadedKeys(card) <==> exists j :: 0 <= j < |tiles| && j < MAX_ENTRIES && EntryKey(tiles[j]) == k
      {
        KeyRestored(tiles, k);
      }
      forall k | k in LoadedKeys(card)
        ensures k in CardKeys(card)
      {
        var j :| 0 <= j < |tiles| && j < MAX_ENTRIES && EntryKey(tiles[j]) == k;
        assert tiles[j] in tiles;
      }
      if NothingCut(card) {
        forall k | k in CardKeys(card)
          ensures k in LoadedKeys(card)
        {
          var i :| 0 <= i < |tiles| && EntryKey(tiles[i]) == k;
          assert i >= MAX_ENTRIES ==> RepeatsEarly(tiles, i);
        }
      } else {
        var i :| MAX_ENTRIES <= i < |tiles| && !RepeatsEarly(tiles, i);
        assert tiles[i] in tiles;
        assert EntryKey(tiles[i]) in CardKeys(card) && EntryKey(tiles[i]) !in LoadedKeys(card);
      }
    }
  }

  // ---------------------------------------------------------------------------------------
  // Runs.
  // ---------------------------------------------------------------------------------------

  datatype Event =
    | Reboot
    | Load(readOk: bool)
    | Record(k: Key)
    | Forget(k: Key)
    | MarkRefused(k: Key, nowMs: nat)
    | Sort(anchor: TierAnchor, chosen: seq<Hit>)
    | Flush(outcome: WriteOutcome)

  /** `synced`: since the last boot the file was absent then, or read, or written. */
  datatype World = World(store: Store, card: CardFile, synced: bool)

  function Boot(card: CardFile): World {
    World(FRESH, card, card == Absent)
  }

  /** A Sort event is one std::sort may perform: its `chosen` is a sorted permutation. */
  ghost predicate Possible(w: World, e: Event) {
    e.Sort? ==> IsSortOf(e.chosen, w.store.hits, e.anchor)
  }

  ghost function Step(w: World, e: Event): World {
    match e
    case Reboot => Boot(w.card)
    case Load(readOk) =>
      if w.card.File? && readOk then w.(store := LoadedFrom(w.store, w.card.tiles), synced := true) else w
    case Record(k) => w.(store := Recorded(w.store, k))
    case Forget(k) => w.(store := Forgotten(w.store, k))
    case MarkRefused(k, nowMs) => w.(store := Refused(w.store, k, nowMs))
    case Sort(anchor, chosen) => w.(store := w.store.(hits := chosen))
    case Flush(outcome) =>
      var (s, c) := Flushed(w.store, w.card, outcome);
      World(s, c, w.synced || (w.store.dirty && !s.dirty))
  }

  ghost predicate IsRun(worlds: seq<World>, events: seq<Event>) {
    && |worlds| == |events| + 1
    && forall i :: 0 <= i < |events| ==> Possible(worlds[i], events[i]) && worlds[i + 1] == Step(worlds[i], events[i])
  }

  predicate Consistent(w: World) {
    && UniqueKeys(w.store.hits) && |w.store.hits| <= MAX_ENTRIES
    && GoodFile(w.card)
    && (w.synced && !w.store.dirty ==> w.card != Unreadable && Keys(w.store.hits) == LoadedKeys(w.card))
  }

  lemma ForgetKeepsUnique(s: Store, k: Key)
    requires UniqueKeys(s.hits)
    ensures UniqueKeys(Forgotten(s, k).hits) && |Forgotten(s, k).hits| <= |s.hits|
  {
  }

  lemma StepKeepsConsistent(w: World, e: Event)
    requires Consistent(w) && Possible(w, e)
    ensures Consistent(Step(w, e))
  {
    hide UniqueKeys, Find, MinCount, Keys, Restored, Persisted, RetryStamp, Ordered;
    match e
    case Reboot =>
      FreshIsEmpty();
    case Load(readOk) =>
      if w.card.File? {
        RestoredSize(w.card.tiles);
      }
    case Record(k) =>
      RecordKeepsUnique(w.store, k);
    case Forget(k) =>
      ForgetKeepsUnique(w.store, k);
    case MarkRefused(k, nowMs) =>
      var i := Find(w.store.hits, k);
      if i >= 0 {
        ReplaceSameKey(w.store.hits, i, Refuse(w.store.hits[i], nowMs));
      }
    case Sort(anchor, chosen) =>
      PermutationKeepsKeys(chosen, w.store.hits);
    case Flush(outcome) =>
      RestoredPersisted(w.store.hits);
      PersistedSize(w.store.hits);
  }

  lemma FreshIsEmpty()
    ensures Keys([]) == {} && UniqueKeys([])
  {
  }

  lemma RestoredSize(tiles: seq<Entry>)
    ensures |Restored(tiles)| <= MAX_ENTRIES
  {
  }

  lemma PersistedSize(hits: seq<Hit>)
    ensures |Persisted(hits)| == |hits|
  {
  }

  /**
   * Main result: in every run from a boot on a file whose loaded part has no tile twice, across
   * reboots and failing reads and writes, keys stay unique, the bound holds, and a clean synced
   * store lists what a load of the card would.
   */
  lemma {:induction false} RunKeepsConsistent(worlds: seq<World>, events: seq<Event>, i: nat)
    requires IsRun(worlds, events) && i < |worlds|
    requires worlds[0] == Boot(worlds[0].card) && GoodFile(worlds[0].card)
    ensures Consistent(worlds[i])
  {
    if i == 0 {
      FreshIsEmpty();
    } else {
      RunKeepsConsistent(worlds, events, i - 1);
      StepKeepsConsistent(worlds[i - 1], events[i - 1]);
    }
  }

  lemma StepCutsNothing(w: World, e: Event)
    requires Consistent(w) && Possible(w, e) && NothingCut(w.card)
    ensures NothingCut(Step(w, e).card)
  {
    hide UniqueKeys, Find, MinCount, Keys, Restored, Persisted, RetryStamp, Ordered, RepeatsEarly;
    if e.Flush? {
      PersistedSize(w.store.hits);
    }
  }

  /** A clean synced store that lists other tiles than the card does. */
  ghost predicate Disagrees(w: World) {
    w.synced && !w.store.dirty && Keys(w.store.hits) != CardKeys(w.card)
  }

  lemma {:induction false} RunAgrees(worlds: seq<World>, events: seq<Event>, i: nat)
    requires IsRun(worlds, events) && i < |worlds|
    requires worlds[0] == Boot(worlds[0].card) && GoodFile(worlds[0].card) && NothingCut(worlds[0].card)
    ensures NothingCut(worlds[i].card) && !Disagrees(worlds[i])
  {
    hide NothingCut, LoadedKeys, CardKeys, Keys;
    RunKeepsConsistent(worlds, events, i);
    if i > 0 {
      RunKeepsConsistent(worlds, events, i - 1);
      RunAgrees(worlds, events, i - 1);
      StepCutsNothing(worlds[i - 1], events[i - 1]);
    }
    LoadedAllExactly(worlds[i].card);
  }

  ghost predicate SomeRunDisagrees(card: CardFile) {
    exists worlds: seq<World>, events: seq<Event>, i: nat ::
      IsRun(worlds, events) && i < |worlds| && worlds[0] == Boot(card) && Disagrees(worlds[i])
  }

  /**
   * For every file whose loaded part has no tile twice: in every run a clean synced store lists
   * the tiles of the card, exactly when every tile of the file past the 200th repeats one of the
   * first 200.
   */
  lemma RunsAgreeExactly(card: CardFile)
    requires GoodFile(card)
    ensures !SomeRunDisagrees(card) <==> NothingCut(card)
  {
    if NothingCut(card) {
      forall worlds: seq<World>, events: seq<Event>, i: nat | IsRun(worlds, events) && i < |worlds| && worlds[0] == Boot(card)
        ensures !Disagrees(worlds[i])
      {
        RunAgrees(worlds, events, i);
      }
    } else {
      LoadedAllExactly(card);
      var worlds, events := [Boot(card), Step(Boot(card), Load(true))], [Load(true)];
      assert IsRun(worlds, events);
      hide NothingCut, LoadedKeys, CardKeys, Keys, Restored;
      assert Keys(worlds[1].store.hits) == LoadedKeys(card) by { LoadTakesKeys(card); }
      assert Disagrees(worlds[1]);
    }
  }

  lemma LoadTakesKeys(card: CardFile)
    requires card.File?
    ensures Keys(Step(Boot(card), Load(true)).store.hits) == LoadedKeys(card)
  {
  }

  /** Since the last boot the file was neither absent, nor read, nor written: then nothing was
      loaded, and a list that is not empty is dirty. */
  lemma {:induction false} UnsyncedIsEmpty(worlds: seq<World>, events: seq<Event>, i: nat)
    requires IsRun(worlds, events) && i < |worlds| && worlds[0] == Boot(worlds[0].card)
    ensures !worlds[i].synced ==> !worlds[i].store.loaded && (!worlds[i].store.dirty ==> worlds[i].store.hits == [])
  {
    hide Find, MinCount, Restored, Persisted, RetryStamp;
    if i > 0 {
      UnsyncedIsEmpty(worlds, events, i - 1);
      if events[i - 1].Sort? {
        EmptySort(events[i - 1].chosen, worlds[i - 1].store.hits, events[i - 1].anchor);
      }
    }
  }

  lemma EmptySort(chosen: seq<Hit>, hits: seq<Hit>, anchor: TierAnchor)
    requires IsSortOf(chosen, hits, anchor)
    ensures hits == [] ==> chosen == []
  {
    assert |chosen| == |multiset(chosen)| && |hits| == |multiset(hits)|;
  }

  predicate ListsNothing(card: CardFile) {
    card.File? ==> card.tiles == []
  }

  lemma NothingListed(card: CardFile)
    ensures ListsNothing(card) <==> CardKeys(card) == {}
  {
    if card.File? && card.tiles != [] {
      assert card.tiles[0] in card.tiles;
      assert EntryKey(card.tiles[0]) in CardKeys(card);
    }
  }

  /**
   * In every world of every run, whether a clean list has the tiles of the card: a synced one
   * exactly when a load of the card would cut nothing off, any other exactly when the card lists
   * nothing.
   */
  lemma CleanAgreesExactly(worlds: seq<World>, events: seq<Event>, i: nat)
    requires IsRun(worlds, events) && i < |worlds|
    requires worlds[0] == Boot(worlds[0].card) && GoodFile(worlds[0].card) && !worlds[i].store.dirty
    ensures var w := worlds[i];
      Keys(w.store.hits) == CardKeys(w.card) <==> if w.synced then NothingCut(w.card) else ListsNothing(w.card)
  {
    hide NothingCut, LoadedKeys, CardKeys, Keys;
    RunKeepsConsistent(worlds, events, i);
    UnsyncedIsEmpty(worlds, events, i);
    LoadedAllExactly(worlds[i].card);
    NothingListed(worlds[i].card);
    FreshIsEmpty();
  }

  lemma PersistedLists(hits: seq<Hit>)
    ensures CardKeys(File(Persisted(hits))) == Keys(hits)
  {
    var t := Persisted(hits);
    assert forall i :: 0 <= i < |hits| ==> EntryKey(t[i]) == KeyOf(hits[i]);
    forall k | k in Keys(hits)
      ensures k in CardKeys(File(t))
    {
      var i :| 0 <= i < |hits| && KeyOf(hits[i]) == k;
      assert t[i] in t;
    }
    forall k | k in CardKeys(File(t))
      ensures k in Keys(hits)
    {
      var i :| 0 <= i < |t| && EntryKey(t[i]) == k;
      assert hits[i] in hits;
    }
  }

  /**
   * In every world of every run, whether a flush whose write succeeds leaves the card with the
   * tiles of the list: a dirty list is written unless it is empty and the file was not read, and
   * then only a card that lists nothing agrees; CleanAgreesExactly decides about a clean one.
   */
  lemma GoodFlushListsExactly(worlds: seq<World>, events: seq<Event>, i: nat)
    requires IsRun(worlds, events) && i < |worlds|
    requires worlds[0] == Boot(worlds[0].card) && GoodFile(worlds[0].card)
    ensures var w, w' := worlds[i], Step(worlds[i], Flush(Written));
      w'.store.hits == w.store.hits &&
      (Keys(w'.store.hits) == CardKeys(w'.card) <==>
         if w.store.dirty then RefusesToSave(w.store) ==> ListsNothing(w.card)
         else if w.synced then NothingCut(w.card) else ListsNothing(w.card))
  {
    hide NothingCut, LoadedKeys, CardKeys, Keys, Persisted, ListsNothing;
    var w := worlds[i];
    if !w.store.dirty {
      CleanAgreesExactly(worlds, events, i);
    } else {
      PersistedLists(w.store.hits);
      NothingListed(w.card);
      FreshIsEmpty();
    }
  }

  /** A tile that is recorded, saved, forgotten and flushed again on a card without a file: both
      writes would succeed, yet the second is refused, and after a reboot the tile is back. */
  lemma ForgottenTileComesBack(k: Key) returns (worlds: seq<World>, events: seq<Event>)
    ensures events == [Record(k), Flush(Written), Forget(k), Flush(Written), Reboot, Load(true)]
    ensures IsRun(worlds, events) && worlds[0] == Boot(Absent)
    ensures worlds[4].store.hits == [] && worlds[4].store.dirty && worlds[4].card == File([Entry(k.z, k.col, k.row, 1)])
    ensures |worlds[6].store.hits| == 1 && KeyOf(worlds[6].store.hits[0]) == k
  {
    events := [Record(k), Flush(Written), Forget(k), Flush(Written), Reboot, Load(true)];
    var w0 := Boot(Absent);
    var w1 := World(Store([NewHit(k)], true, false), Absent, true);
    var file := File([Entry(k.z, k.col, k.row, 1)]);
    var w2 := World(Store([NewHit(k)], false, false), file, true);
    var w3 := World(Store([], true, false), file, true);
    var w5 := Boot(file);
    OneTile(k);
    assert Step(w0, events[0]) == w1;
    assert Step(w1, events[1]) == w2;
    assert Step(w2, events[2]) == w3;
    assert Step(w3, events[3]) == w3;
    worlds := [w0, w1, w2, w3, w3, w5, Step(w5, Load(true))];
  }

  lemma OneTile(k: Key)
    ensures Find([], k) == -1 && Find([NewHit(k)], k) == 0
    ensures Persisted([NewHit(k)]) == [Entry(k.z, k.col, k.row, 1)]
    ensures Restored([Entry(k.z, k.col, k.row, 1)]) == [NewHit(k)]
  {
    assert KeyOf(NewHit(k)) == k;
  }

  /** fromJson does not deduplicate: keys stay unique exactly when the loaded part had no tile twice. */
  lemma LoadKeepsDuplicates(s: Store, tiles: seq<Entry>)
    ensures UniqueKeys(LoadedFrom(s, tiles).hits) <==>
            forall i, j :: 0 <= i < j < |tiles| && j < MAX_ENTRIES ==> EntryKey(tiles[i]) != EntryKey(tiles[j])
  {
    var r := Restored(tiles);
    assert forall i :: 0 <= i < |r| ==> KeyOf(r[i]) == EntryKey(tiles[i]);
  }

  /** A boot in which the file was never read does not turn it into an empty list. */
  lemma {:induction false} UnreadFileIsNotEmptied(worlds: seq<World>, events: seq<Event>, i: nat)
    requires IsRun(worlds, events) && i < |worlds|
    requires worlds[0] == Boot(worlds[0].card)
    requires forall j :: 0 <= j < |events| ==> events[j] != Reboot
    requires !worlds[i].store.loaded
    ensures worlds[i].card == File([]) ==> worlds[0].card == File([])
  {
    if i > 0 {
      assert !worlds[i - 1].store.loaded;
      UnreadFileIsNotEmptied(worlds, events, i - 1);
      PersistedSize(worlds[i - 1].store.hits);
    }
  }

  /** Only a flush of a dirty list changes the card, and an unread empty one changes nothing. */
  lemma CardChangesOnlyByFlush(w: World, e: Event)
    requires Possible(w, e) && Step(w, e).card != w.card
    ensures e.Flush? && w.store.dirty && (w.store.loaded || w.store.hits != [])
  {
  }
}
