/** The fetch order of missing tiles (src/MissingTilePriority.h). */
module MissingTilePriority {

  const UINT32 := 0x1_0000_0000

  /** One missing tile (src/MissingTilesStore.h). */
  datatype Hit = Hit(z: nat, refusals: nat, retryAtMs: nat, col: nat, row: nat, count: nat)

  datatype Key = Key(z: nat, col: nat, row: nat)

  function KeyOf(h: Hit): Key {
    Key(h.z, h.col, h.row)
  }

  /** Regional first, overview second, detail third, any other zoom last. */
  function TierRank(z: nat): (r: nat)
    ensures r < 4
    ensures (r == 0 <==> z == 12) && (r == 1 <==> z == 11) && (r == 2 <==> z == 13)
  {
    match z
    case 12 => 0
    case 11 => 1
    case 13 => 2
    case _ => 3
  }

  /** The rider's square in each tier, when there is a fix. */
  datatype Anchor = Anchor(valid: bool, col: seq<nat>, row: seq<nat>)

  type TierAnchor = a: Anchor | |a.col| == 4 && |a.row| == 4 witness Anchor(false, [0, 0, 0, 0], [0, 0, 0, 0])

  function AbsDiff(a: nat, b: nat): nat {
    if a > b then a - b else b - a
  }

  /** Manhattan distance in uint32 arithmetic. */
  function Distance(t: Hit, anchor: TierAnchor): nat {
    (AbsDiff(t.col, anchor.col[TierRank(t.z)]) + AbsDiff(t.row, anchor.row[TierRank(t.z)])) % UINT32
  }

  predicate FetchBefore(a: Hit, b: Hit, anchor: TierAnchor) {
    if TierRank(a.z) != TierRank(b.z) then TierRank(a.z) < TierRank(b.z)
    else if anchor.valid && Distance(a, anchor) != Distance(b, anchor) then Distance(a, anchor) < Distance(b, anchor)
    else if a.count != b.count then a.count > b.count
    else if a.col != b.col then a.col < b.col
    else a.row < b.row
  }

  /** Neither tile comes first. */
  predicate Tied(a: Hit, b: Hit, anchor: TierAnchor) {
    !FetchBefore(a, b, anchor) && !FetchBefore(b, a, anchor)
  }

  /** What std::sort asks of its comparator. */
  lemma StrictWeakOrder(a: Hit, b: Hit, c: Hit, anchor: TierAnchor)
    ensures !FetchBefore(a, a, anchor)
    ensures !(FetchBefore(a, b, anchor) && FetchBefore(b, a, anchor))
    ensures FetchBefore(a, b, anchor) && FetchBefore(b, c, anchor) ==> FetchBefore(a, c, anchor)
    ensures Tied(a, b, anchor) && Tied(b, c, anchor) ==> Tied(a, c, anchor)
  {
    hide Distance, TierRank;
  }

  /** Exactly when two different tiles tie: off the three tiers, at one place, equally often hit. */
  lemma TiesAreOffTier(a: Hit, b: Hit, anchor: TierAnchor)
    requires KeyOf(a) != KeyOf(b)
    ensures Tied(a, b, anchor) <==>
            TierRank(a.z) == 3 && TierRank(b.z) == 3 && a.col == b.col && a.row == b.row && a.count == b.count
  {
    if a.col == b.col && a.row == b.row && TierRank(a.z) == TierRank(b.z) {
      assert Distance(a, anchor) == Distance(b, anchor);
    }
  }

  // ---------------------------------------------------------------------------------------
  // Sorting.
  // ---------------------------------------------------------------------------------------

  predicate Ordered(s: seq<Hit>, anchor: TierAnchor) {
    forall i, j :: 0 <= i < j < |s| ==> !FetchBefore(s[j], s[i], anchor)
  }

  /** A result std::sort may leave. */
  predicate IsSortOf(r: seq<Hit>, s: seq<Hit>, anchor: TierAnchor) {
    multiset(r) == multiset(s) && Ordered(r, anchor)
  }

  function Insert(h: Hit, s: seq<Hit>, anchor: TierAnchor): seq<Hit> {
    if s == [] then [h]
    else if FetchBefore(s[0], h, anchor) then [s[0]] + Insert(h, s[1..], anchor)
    else [h] + s
  }

  function InsertionSort(s: seq<Hit>, anchor: TierAnchor): seq<Hit> {
    if s == [] then [] else Insert(s[0], InsertionSort(s[1..], anchor), anchor)
  }

  lemma {:induction false} InsertOrders(h: Hit, s: seq<Hit>, anchor: TierAnchor)
    requires Ordered(s, anchor)
    ensures multiset(Insert(h, s, anchor)) == multiset([h]) + multiset(s)
    ensures Ordered(Insert(h, s, anchor), anchor)
  {
    hide FetchBefore;
    if s == [] {
    } else if FetchBefore(s[0], h, anchor) {
      InsertOrders(h, s[1..], anchor);
      var t := Insert(h, s[1..], anchor);
      assert s == [s[0]] + s[1..];
      forall j | 0 <= j < |t|
        ensures !FetchBefore(t[j], s[0], anchor)
      {
        assert t[j] in multiset(t);
        assert t[j] == h || t[j] in s[1..];
        StrictWeakOrder(s[0], h, s[0], anchor);
      }
    } else {
      forall j | 0 <= j < |s|
        ensures !FetchBefore(s[j], h, anchor)
      {
        StrictWeakOrder(s[j], h, s[0], anchor);
        StrictWeakOrder(h, s[0], s[j], anchor);
        StrictWeakOrder(s[0], s[j], h, anchor);
        StrictWeakOrder(s[j], s[0], h, anchor);
      }
    }
  }

  /** There is always a sorted permutation, so std::sort has something to return. */
  lemma {:induction false} SortExists(s: seq<Hit>, anchor: TierAnchor)
    ensures IsSortOf(InsertionSort(s, anchor), s, anchor)
  {
    if s != [] {
      SortExists(s[1..], anchor);
      InsertOrders(s[0], InsertionSort(s[1..], anchor), anchor);
      assert s == [s[0]] + s[1..];
    }
  }

  /** No two different entries tie. */
  predicate NoTies(s: seq<Hit>, anchor: TierAnchor) {
    forall a, b :: a in s && b in s && a != b ==> !Tied(a, b, anchor)
  }

  /** No entry of an ordered list comes before its head. */
  lemma HeadIsFirst(p: seq<Hit>, a: Hit, anchor: TierAnchor)
    requires Ordered(p, anchor) && a in p
    ensures !FetchBefore(a, p[0], anchor)
  {
    StrictWeakOrder(a, a, a, anchor);
  }

  lemma HeadsTie(p: seq<Hit>, q: seq<Hit>, anchor: TierAnchor)
    requires multiset(p) == multiset(q) && Ordered(p, anchor) && Ordered(q, anchor) && p != []
    ensures q != [] && q[0] in p && p[0] in q && Tied(p[0], q[0], anchor)
  {
    hide FetchBefore;
    assert |p| == |multiset(p)| && |q| == |multiset(q)|;
    assert p[0] in multiset(p) && q[0] in multiset(q);
    HeadIsFirst(p, q[0], anchor);
    HeadIsFirst(q, p[0], anchor);
  }

  lemma Tail(p: seq<Hit>, anchor: TierAnchor)
    requires p != [] && Ordered(p, anchor)
    ensures p == [p[0]] + p[1..]
    ensures multiset(p[1..]) == multiset(p) - multiset{p[0]}
    ensures Ordered(p[1..], anchor)
    ensures NoTies(p, anchor) ==> NoTies(p[1..], anchor)
  {
    hide FetchBefore, Tied;
    assert p == [p[0]] + p[1..];
  }

  lemma {:induction false} SortedOnce(p: seq<Hit>, q: seq<Hit>, anchor: TierAnchor)
    requires multiset(p) == multiset(q) && Ordered(p, anchor) && Ordered(q, anchor) && NoTies(p, anchor)
    ensures p == q
  {
    if p == [] {
      assert |multiset(q)| == 0;
    } else {
      HeadsTie(p, q, anchor);
      assert p[0] in p && p[0] == q[0];
      hide FetchBefore, Tied, Ordered, NoTies;
      Tail(p, anchor);
      Tail(q, anchor);
      SortedOnce(p[1..], q[1..], anchor);
    }
  }

  lemma {:induction false} SwapKeepsMultiset(s: seq<Hit>, i: int, j: int)
    requires 0 <= i < j < |s|
    ensures multiset(s[i := s[j]][j := s[i]]) == multiset(s)
  {
  }

  /** Tied tiles compare alike with any third. */
  lemma TieTransfers(a: Hit, b: Hit, c: Hit, anchor: TierAnchor)
    requires Tied(a, b, anchor)
    ensures FetchBefore(c, a, anchor) == FetchBefore(c, b, anchor)
    ensures FetchBefore(a, c, anchor) == FetchBefore(b, c, anchor)
  {
    hide Distance, TierRank;
  }

  /** Two tied entries of a sorted list may change places. */
  lemma TiedEntriesSwap(s: seq<Hit>, i: int, j: int, anchor: TierAnchor)
    requires Ordered(s, anchor) && 0 <= i < j < |s| && Tied(s[i], s[j], anchor)
    ensures IsSortOf(s[i := s[j]][j := s[i]], s, anchor)
  {
    hide FetchBefore;
    SwapKeepsMultiset(s, i, j);
    var t := s[i := s[j]][j := s[i]];
    forall k, l | 0 <= k < l < |t|
      ensures !FetchBefore(t[l], t[k], anchor)
    {
      TieTransfers(s[i], s[j], s[k], anchor);
      TieTransfers(s[i], s[j], s[l], anchor);
    }
  }

  /**
   * The order a listing has, whatever permutation the list was in before: std::sort leaves one
   * and the same sequence exactly when no two different entries tie.
   */
  lemma OrderIsDetermined(s: seq<Hit>, anchor: TierAnchor)
    ensures (forall p, q :: IsSortOf(p, s, anchor) && IsSortOf(q, s, anchor) ==> p == q) <==> NoTies(s, anchor)
  {
    hide FetchBefore, Tied;
    if NoTies(s, anchor) {
      forall p, q | IsSortOf(p, s, anchor) && IsSortOf(q, s, anchor)
        ensures p == q
      {
        assert forall a :: a in p <==> a in multiset(s);
        SortedOnce(p, q, anchor);
      }
    } else {
      var a, b :| a in s && b in s && a != b && Tied(a, b, anchor);
      var p, q := TwoOrders(s, a, b, anchor);
    }
  }

  lemma TwoOrders(s: seq<Hit>, a: Hit, b: Hit, anchor: TierAnchor) returns (p: seq<Hit>, q: seq<Hit>)
    requires a in s && b in s && a != b && Tied(a, b, anchor)
    ensures IsSortOf(p, s, anchor) && IsSortOf(q, s, anchor) && p != q
  {
    hide FetchBefore, Tied, Ordered;
    p := InsertionSort(s, anchor);
    SortExists(s, anchor);
    assert a in multiset(p) && b in multiset(p);
    var i :| 0 <= i < |p| && p[i] == a;
    var j :| 0 <= j < |p| && p[j] == b;
    TieIsSymmetric(a, b, anchor);
    var k, l := if i < j then i else j, if i < j then j else i;
    TiedEntriesSwap(p, k, l, anchor);
    q := p[k := p[l]][l := p[k]];
    assert q[k] != p[k];
  }

  lemma TieIsSymmetric(a: Hit, b: Hit, anchor: TierAnchor)
    ensures Tied(a, b, anchor) == Tied(b, a, anchor)
  {
  }

  predicate UniqueKeys(s: seq<Hit>) {
    forall i, j :: 0 <= i < j < |s| ==> KeyOf(s[i]) != KeyOf(s[j])
  }

  /** On the three tiers of the map, unique keys are enough: the header's "total order". */
  lemma TotalOnTheTiers(s: seq<Hit>, anchor: TierAnchor)
    requires UniqueKeys(s) && forall h :: h in s ==> h.z == 11 || h.z == 12 || h.z == 13
    ensures forall p, q :: IsSortOf(p, s, anchor) && IsSortOf(q, s, anchor) ==> p == q
  {
    hide FetchBefore, Tied;
    forall a, b | a in s && b in s && a != b
      ensures !Tied(a, b, anchor)
    {
      var i :| 0 <= i < |s| && s[i] == a;
      var j :| 0 <= j < |s| && s[j] == b;
      assert KeyOf(a) != KeyOf(b);
      TiesAreOffTier(a, b, anchor);
    }
    OrderIsDetermined(s, anchor);
  }

  /** Off the tiers the header's "the order is total" fails: z itself is never compared. */
  lemma NotTotalOffTheTiers(anchor: TierAnchor)
    ensures var a, b := Hit(9, 0, 0, 1, 1, 1), Hit(10, 0, 0, 1, 1, 1);
      UniqueKeys([a, b]) && IsSortOf([a, b], [a, b], anchor) && IsSortOf([b, a], [a, b], anchor)
  {
    var a: Hit := Hit(9, 0, 0, 1, 1, 1);
    var b: Hit := Hit(10, 0, 0, 1, 1, 1);
    TiesAreOffTier(a, b, anchor);
    var p: seq<Hit>, q: seq<Hit> := [a, b], [b, a];
    assert multiset(p) == multiset(q);
  }
}
