/** Raster algorithms behind the pin icons (scripts/gen_pin_icons.py). */
module PinIcons {

  type Grid = seq<seq<bool>>

  /** A non-empty rectangle of pixels: what the rasteriser hands over. */
  predicate IsGrid(g: Grid) {
    |g| > 0 && |g[0]| > 0 && forall y :: 0 <= y < |g| ==> |g[y]| == |g[0]|
  }

  predicate SameShape(a: Grid, b: Grid) {
    IsGrid(a) && IsGrid(b) && |a| == |b| && |a[0]| == |b[0]|
  }

  datatype Cell = Cell(x: int, y: int)

  predicate InGrid(g: Grid, c: Cell)
    requires IsGrid(g)
  {
    0 <= c.y < |g| && 0 <= c.x < |g[0]|
  }

  predicate Set(g: Grid, c: Cell)
    requires IsGrid(g) && InGrid(g, c)
  {
    g[c.y][c.x]
  }

  predicate Free(g: Grid, c: Cell)
    requires IsGrid(g)
  {
    InGrid(g, c) && !Set(g, c)
  }

  predicate OnBorder(g: Grid, c: Cell)
    requires IsGrid(g)
  {
    InGrid(g, c) && (c.x == 0 || c.y == 0 || c.x == |g[0]| - 1 || c.y == |g| - 1)
  }

  predicate Adjacent(a: Cell, b: Cell) {
    || (a.y == b.y && (b.x == a.x + 1 || b.x == a.x - 1))
    || (a.x == b.x && (b.y == a.y + 1 || b.y == a.y - 1))
  }

  ghost predicate Subset(a: Grid, b: Grid)
    requires SameShape(a, b)
  {
    forall c :: InGrid(a, c) && Set(a, c) ==> Set(b, c)
  }

  function AllCells(g: Grid): set<Cell>
    requires IsGrid(g)
  {
    set x, y | 0 <= x < |g[0]| && 0 <= y < |g| :: Cell(x, y)
  }

  // ---------------------------------------------------------------------------------------
  // The reference: a cell is outside when a path of free cells joins it to the border.
  // ---------------------------------------------------------------------------------------

  ghost predicate IsPath(g: Grid, p: seq<Cell>)
    requires IsGrid(g)
  {
    && |p| > 0 && OnBorder(g, p[0])
    && (forall i :: 0 <= i < |p| ==> Free(g, p[i]))
    && (forall i :: 0 <= i < |p| - 1 ==> Adjacent(p[i], p[i + 1]))
  }

  ghost predicate Outside(g: Grid, c: Cell)
    requires IsGrid(g)
  {
    exists p :: IsPath(g, p) && p[|p| - 1] == c
  }

  ghost function Silhouette(ink: Grid): (r: Grid)
    requires IsGrid(ink)
    ensures SameShape(ink, r)
    ensures forall c :: InGrid(ink, c) ==> (Set(r, c) <==> !Outside(ink, c))
  {
    seq(|ink|, y => seq(|ink[0]|, x => !Outside(ink, Cell(x, y))))
  }

  lemma OutsideBorder(g: Grid, c: Cell)
    requires IsGrid(g) && Free(g, c) && OnBorder(g, c)
    ensures Outside(g, c)
  {
    assert IsPath(g, [c]);
  }

  lemma OutsideStep(g: Grid, c: Cell, d: Cell)
    requires IsGrid(g) && Outside(g, c) && Free(g, d) && Adjacent(c, d)
    ensures Outside(g, d)
  {
    var p :| IsPath(g, p) && p[|p| - 1] == c;
    assert IsPath(g, p + [d]);
  }

  lemma OutsideIsFree(g: Grid, c: Cell)
    requires IsGrid(g) && Outside(g, c)
    ensures Free(g, c)
  {
  }

  /** Every cell of a path is outside, not only its last. */
  lemma OutsideAlongPath(g: Grid, p: seq<Cell>, i: nat)
    requires IsGrid(g) && IsPath(g, p) && i < |p|
    ensures Outside(g, p[i])
  {
    assert IsPath(g, p[..i + 1]);
  }

  /** A set that holds the free border and is closed under free neighbours holds the outside. */
  lemma {:induction false} ClosedHoldsPath(g: Grid, s: set<Cell>, p: seq<Cell>)
    requires IsGrid(g) && IsPath(g, p)
    requires forall c :: Free(g, c) && OnBorder(g, c) ==> c in s
    requires forall c, d :: c in s && Free(g, d) && Adjacent(c, d) ==> d in s
    ensures p[|p| - 1] in s
  {
    if |p| > 1 {
      var q := p[..|p| - 1];
      assert IsPath(g, q);
      ClosedHoldsPath(g, s, q);
      assert Adjacent(q[|q| - 1], p[|p| - 1]);
    }
  }

  // ---------------------------------------------------------------------------------------
  // Closure laws of the reference.
  // ---------------------------------------------------------------------------------------

  lemma SilhouetteExtensive(ink: Grid)
    requires IsGrid(ink)
    ensures Subset(ink, Silhouette(ink))
  {
    forall c | InGrid(ink, c) && Set(ink, c)
      ensures Set(Silhouette(ink), c)
    {
      if Outside(ink, c) {
        OutsideIsFree(ink, c);
      }
    }
  }

  lemma LessInkMoreOutside(a: Grid, b: Grid, c: Cell)
    requires SameShape(a, b) && Subset(a, b) && Outside(b, c)
    ensures Outside(a, c)
  {
    var p :| IsPath(b, p) && p[|p| - 1] == c;
    forall i | 0 <= i < |p|
      ensures Free(a, p[i])
    {
      assert Free(b, p[i]);
    }
    assert IsPath(a, p);
  }

  lemma SilhouetteMonotone(a: Grid, b: Grid)
    requires SameShape(a, b) && Subset(a, b)
    ensures Subset(Silhouette(a), Silhouette(b))
  {
    hide Outside, Silhouette;
    forall c | InGrid(a, c) && Set(Silhouette(a), c)
      ensures Set(Silhouette(b), c)
    {
      if Outside(b, c) {
        LessInkMoreOutside(a, b, c);
      }
    }
  }

  lemma SilhouetteIdempotent(ink: Grid)
    requires IsGrid(ink)
    ensures Silhouette(Silhouette(ink)) == Silhouette(ink)
  {
    var s := Silhouette(ink);
    forall c | InGrid(ink, c)
      ensures Outside(s, c) <==> Outside(ink, c)
    {
      if Outside(ink, c) {
        var p :| IsPath(ink, p) && p[|p| - 1] == c;
        forall i | 0 <= i < |p|
          ensures Free(s, p[i])
        {
          OutsideAlongPath(ink, p, i);
        }
        assert IsPath(s, p);
      }
      if Outside(s, c) {
        OutsideIsFree(s, c);
      }
    }
    SameCells(Silhouette(s), s);
  }

  lemma SameCells(a: Grid, b: Grid)
    requires SameShape(a, b)
    requires forall c :: InGrid(a, c) ==> Set(a, c) == Set(b, c)
    ensures a == b
  {
    forall y | 0 <= y < |a|
      ensures a[y] == b[y]
    {
      forall x | 0 <= x < |a[0]|
        ensures a[y][x] == b[y][x]
      {
        assert Set(a, Cell(x, y)) == Set(b, Cell(x, y));
      }
    }
  }

  // ---------------------------------------------------------------------------------------
  // The flood fill.
  // ---------------------------------------------------------------------------------------

  /** The `outside` grid of the flood holds exactly the cells of a set. */
  ghost predicate Holds(g: Grid, outside: array2<bool>, marked: set<Cell>)
    requires IsGrid(g)
    reads outside
  {
    && outside.Length0 == |g| && outside.Length1 == |g[0]|
    && marked <= AllCells(g)
    && forall c {:trigger c in marked} :: InGrid(g, c) ==> (outside[c.y, c.x] <==> c in marked)
  }

  /** What the flood knows: everything marked is outside and everything queued is marked. */
  ghost predicate Sound(g: Grid, outside: array2<bool>, marked: set<Cell>, queue: seq<Cell>)
    requires IsGrid(g)
    reads outside
  {
    && Holds(g, outside, marked)
    && (forall c :: c in marked ==> Outside(g, c))
    && (forall c :: c in queue ==> c in marked)
  }

  /** A marked cell that left the queue has all its free neighbours marked. */
  ghost predicate Settled(g: Grid, marked: set<Cell>, queue: seq<Cell>)
    requires IsGrid(g)
  {
    forall c, d :: c in marked && c !in queue && Free(g, d) && Adjacent(c, d) ==> d in marked
  }

  /** The guarded mark-and-append that the source writes out at each of its three places. */
  method MarkOutside(ink: Grid, outside: array2<bool>, c: Cell, ghost marked: set<Cell>, queue: seq<Cell>)
    returns (ghost marked': set<Cell>, queue': seq<Cell>)
    requires IsGrid(ink) && Sound(ink, outside, marked, queue)
    requires Free(ink, c) ==> Outside(ink, c)
    modifies outside
    ensures Sound(ink, outside, marked', queue')
    ensures Free(ink, c) && c !in marked ==> marked' == marked + {c} && queue' == queue + [c]
    ensures !Free(ink, c) || c in marked ==> marked' == marked && queue' == queue
    ensures marked' <= AllCells(ink)
  {
    marked', queue' := marked, queue;
    if 0 <= c.x < |ink[0]| && 0 <= c.y < |ink| && !ink[c.y][c.x] && !outside[c.y, c.x] {
      assert InGrid(ink, c) && c !in marked;
      outside[c.y, c.x] := true;
      marked', queue' := marked + {c}, queue + [c];
    }
  }

  lemma NothingMarked(g: Grid, outside: array2<bool>)
    requires IsGrid(g) && Holds(g, outside, {})
    ensures Sound(g, outside, {}, [])
  {
  }

  /** The two border loops: every free border cell ends up marked and queued, and nothing else. */
  method SeedBorder(ink: Grid, outside: array2<bool>) returns (ghost marked: set<Cell>, queue: seq<Cell>)
    requires IsGrid(ink) && Holds(ink, outside, {})
    modifies outside
    ensures Sound(ink, outside, marked, queue)
    ensures forall c :: Free(ink, c) && OnBorder(ink, c) ==> c in marked
    ensures forall c :: c in marked ==> c in queue
    ensures marked <= AllCells(ink)
  {
    hide Outside, Sound;
    var h, w := |ink|, |ink[0]|;
    NothingMarked(ink, outside);
    marked, queue := {}, [];
    for x := 0 to w
      invariant Sound(ink, outside, marked, queue)
      invariant marked <= AllCells(ink) && forall c :: c in marked ==> c in queue
      invariant forall c :: Free(ink, c) && c.x < x && (c.y == 0 || c.y == h - 1) ==> c in marked
    {
      var top, bottom := Cell(x, 0), Cell(x, h - 1);
      BorderCells(ink, top, bottom);
      marked, queue := MarkOutside(ink, outside, top, marked, queue);
      marked, queue := MarkOutside(ink, outside, bottom, marked, queue);
    }
    for y := 0 to h
      invariant Sound(ink, outside, marked, queue)
      invariant marked <= AllCells(ink) && forall c :: c in marked ==> c in queue
      invariant forall c :: Free(ink, c) && (c.y == 0 || c.y == h - 1) ==> c in marked
      invariant forall c :: Free(ink, c) && c.y < y && (c.x == 0 || c.x == w - 1) ==> c in marked
    {
      var left, right := Cell(0, y), Cell(w - 1, y);
      BorderCells(ink, left, right);
      marked, queue := MarkOutside(ink, outside, left, marked, queue);
      marked, queue := MarkOutside(ink, outside, right, marked, queue);
    }
  }

  lemma BorderCells(g: Grid, a: Cell, b: Cell)
    requires IsGrid(g) && OnBorder(g, a) && OnBorder(g, b)
    ensures Free(g, a) ==> Outside(g, a)
    ensures Free(g, b) ==> Outside(g, b)
  {
    if Free(g, a) {
      OutsideBorder(g, a);
    }
    if Free(g, b) {
      OutsideBorder(g, b);
    }
  }

  const DIRECTIONS: seq<(int, int)> := [(1, 0), (-1, 0), (0, 1), (0, -1)]

  function Neighbour(c: Cell, k: int): Cell
    requires 0 <= k < 4
  {
    Cell(c.x + DIRECTIONS[k].0, c.y + DIRECTIONS[k].1)
  }

  lemma NeighbourIsAdjacent(c: Cell, k: int)
    requires 0 <= k < 4
    ensures Adjacent(c, Neighbour(c, k))
  {
  }

  lemma DirectionOf(c: Cell, d: Cell) returns (k: int)
    requires Adjacent(c, d)
    ensures 0 <= k < 4 && d == Neighbour(c, k)
  {
    k := if d.x == c.x + 1 then 0 else if d.x == c.x - 1 then 1 else if d.y == c.y + 1 then 2 else 3;
  }

  /** One queue entry: its four neighbours. */
  method VisitNeighbours(ink: Grid, outside: array2<bool>, c: Cell, ghost marked: set<Cell>, queue: seq<Cell>)
    returns (ghost marked': set<Cell>, queue': seq<Cell>)
    requires IsGrid(ink) && Sound(ink, outside, marked, queue) && c in marked
    requires Settled(ink, marked, [c] + queue) && marked <= AllCells(ink)
    modifies outside
    ensures Sound(ink, outside, marked', queue') && marked <= marked' <= AllCells(ink)
    ensures Settled(ink, marked', queue')
    ensures marked' == marked ==> queue' == queue
  {
    assert Outside(ink, c);
    hide Outside, Sound, Free, Adjacent, AllCells, Neighbour;
    marked', queue' := marked, queue;
    for k := 0 to 4
      invariant Sound(ink, outside, marked', queue') && marked <= marked' <= AllCells(ink)
      invariant forall d :: d in [c] + queue ==> d in [c] + queue'
      invariant forall d :: d in marked' && d !in marked ==> d in queue'
      invariant forall i :: 0 <= i < k ==>
        Free(ink, Neighbour(c, i)) ==> Neighbour(c, i) in marked'
      invariant marked' == marked ==> queue' == queue
    {
      var n := Neighbour(c, k);
      NeighbourIsAdjacent(c, k);
      if Free(ink, n) {
        OutsideStep(ink, c, n);
      }
      marked', queue' := MarkOutside(ink, outside, n, marked', queue');
    }
    forall d | Free(ink, d) && Adjacent(c, d)
      ensures d in marked'
    {
      var i := DirectionOf(c, d);
      assert d == Neighbour(c, i);
    }
  }

  /** Seed and drain: when the queue is empty the marked cells are the outside, all of it. */
  method Flood(ink: Grid, outside: array2<bool>) returns (ghost marked: set<Cell>)
    requires IsGrid(ink) && Holds(ink, outside, {})
    modifies outside
    ensures Holds(ink, outside, marked)
    ensures forall c :: Outside(ink, c) <==> c in marked
  {
    hide Outside, Free;
    var queue: seq<Cell>;
    marked, queue := SeedBorder(ink, outside);
    while queue != []
      invariant Sound(ink, outside, marked, queue) && marked <= AllCells(ink)
      invariant forall c :: Free(ink, c) && OnBorder(ink, c) ==> c in marked
      invariant Settled(ink, marked, queue)
      decreases AllCells(ink) - marked, |queue|
    {
      var c := queue[0];
      assert queue == [c] + queue[1..];
      ghost var before := marked;
      queue := queue[1..];
      marked, queue := VisitNeighbours(ink, outside, c, marked, queue);
      assert marked != before ==> AllCells(ink) - marked < AllCells(ink) - before;
    }
    MarkedIsOutside(ink, marked);
  }

  /** The whole fill: the result is the reference, for every grid. */
  method FillSilhouette(ink: Grid) returns (r: Grid)
    requires IsGrid(ink)
    ensures r == Silhouette(ink)
  {
    var h, w := |ink|, |ink[0]|;
    var outside := new bool[h, w]((y, x) => false);
    ghost var marked := Flood(ink, outside);
    assert forall c :: Free(ink, c) ==> c in AllCells(ink);
    assert forall y, x :: 0 <= y < h && 0 <= x < w ==> (outside[y, x] <==> Cell(x, y) in marked);
    r := seq(h, y requires 0 <= y < h reads outside =>
      seq(w, x requires 0 <= x < w reads outside => ink[y][x] || !outside[y, x]));
    forall c | InGrid(ink, c)
      ensures Set(r, c) == Set(Silhouette(ink), c)
    {
      if Outside(ink, c) {
        OutsideIsFree(ink, c);
      }
    }
    SameCells(r, Silhouette(ink));
  }

  lemma MarkedIsOutside(g: Grid, marked: set<Cell>)
    requires IsGrid(g)
    requires forall c :: c in marked ==> Outside(g, c)
    requires forall c :: Free(g, c) && OnBorder(g, c) ==> c in marked
    requires Settled(g, marked, [])
    ensures forall c :: Outside(g, c) <==> c in marked
  {
    forall c | Outside(g, c)
      ensures c in marked
    {
      var p :| IsPath(g, p) && p[|p| - 1] == c;
      ClosedHoldsPath(g, marked, p);
    }
  }

  // ---------------------------------------------------------------------------------------
  // Dilation.
  // ---------------------------------------------------------------------------------------

  predicate Within(a: Cell, b: Cell, r: int) {
    -r <= a.x - b.x <= r && -r <= a.y - b.y <= r
  }

  ghost predicate Near(g: Grid, c: Cell, r: int)
    requires IsGrid(g)
  {
    exists d :: InGrid(g, d) && Set(g, d) && Within(c, d, r)
  }

  /** Every cell within Chebyshev distance r of a set cell; no change for r <= 0. */
  ghost function Dilation(g: Grid, r: int): (out: Grid)
    requires IsGrid(g)
    ensures SameShape(g, out)
    ensures r > 0 ==> forall c :: InGrid(g, c) ==> (Set(out, c) <==> Near(g, c, r))
  {
    if r <= 0 then g else seq(|g|, y => seq(|g[0]|, x => Near(g, Cell(x, y), r)))
  }

  lemma DilationIsNear(g: Grid, r: nat, c: Cell)
    requires IsGrid(g) && InGrid(g, c)
    ensures Set(Dilation(g, r), c) <==> Near(g, c, r)
  {
    if r == 0 && Set(g, c) {
      assert Within(c, c, 0);
    }
  }

  /** The cell of the segment from d towards c that is at most r away from d. */
  function Toward(d: Cell, c: Cell, r: int): Cell {
    Cell(d.x + Clamp(c.x - d.x, r), d.y + Clamp(c.y - d.y, r))
  }

  function Clamp(v: int, r: int): int {
    if v < -r then -r else if v > r then r else v
  }

  lemma NearInTwoSteps(g: Grid, c: Cell, a: nat, b: nat)
    requires IsGrid(g) && InGrid(g, c)
    ensures Near(g, c, a + b) <==> Near(Dilation(g, a), c, b)
  {
    var e := Dilation(g, a);
    if Near(g, c, a + b) {
      var d :| InGrid(g, d) && Set(g, d) && Within(c, d, a + b);
      var m := Toward(d, c, a);
      assert Within(m, d, a) && Within(c, m, b) && InGrid(g, m);
      DilationIsNear(g, a, m);
    }
    if Near(e, c, b) {
      var m :| InGrid(e, m) && Set(e, m) && Within(c, m, b);
      DilationIsNear(g, a, m);
      var d :| InGrid(g, d) && Set(g, d) && Within(m, d, a);
      assert Within(c, d, a + b);
    }
  }

  /** Growing by a and then by b is growing by a + b: nothing is lost at the edge of the grid. */
  lemma DilationAdds(g: Grid, a: nat, b: nat)
    requires IsGrid(g)
    ensures Dilation(Dilation(g, a), b) == Dilation(g, a + b)
  {
    hide Dilation;
    var e := Dilation(g, a);
    forall c | InGrid(g, c)
      ensures Set(Dilation(e, b), c) == Set(Dilation(g, a + b), c)
    {
      DilationIsNear(g, a + b, c);
      DilationIsNear(e, b, c);
      NearInTwoSteps(g, c, a, b);
    }
    SameCells(Dilation(e, b), Dilation(g, a + b));
  }

  /** Near a set cell that comes before row y, column x in reading order. */
  ghost predicate NearBefore(g: Grid, c: Cell, r: int, y: int, x: int)
    requires IsGrid(g)
  {
    exists d :: InGrid(g, d) && Set(g, d) && Within(c, d, r) && (d.y < y || (d.y == y && d.x < x))
  }

  ghost predicate Shows(g: Grid, out: array2<bool>, r: int, y: int, x: int)
    requires IsGrid(g)
    reads out
  {
    && out.Length0 == |g| && out.Length1 == |g[0]|
    && forall c {:trigger InGrid(g, c)} :: InGrid(g, c) ==> (out[c.y, c.x] <==> NearBefore(g, c, r, y, x))
  }

  /** The two inner loops of the dilation: a square of side 2r + 1, clipped to the grid. */
  method Stamp(out: array2<bool>, y: int, x: int, r: int)
    requires r >= 0
    modifies out
    ensures forall i, j :: 0 <= i < out.Length0 && 0 <= j < out.Length1 ==>
      (out[i, j] <==> old(out[i, j]) || Within(Cell(j, i), Cell(x, y), r))
  {
    for dy := -r to r + 1
      invariant forall i, j :: 0 <= i < out.Length0 && 0 <= j < out.Length1 ==>
        (out[i, j] <==> old(out[i, j]) || (-r <= j - x <= r && -r <= i - y < dy))
    {
      for dx := -r to r + 1
        invariant forall i, j :: 0 <= i < out.Length0 && 0 <= j < out.Length1 ==>
          (out[i, j] <==> old(out[i, j]) || (-r <= j - x <= r && -r <= i - y < dy)
                          || (i - y == dy && -r <= j - x < dx))
      {
        if 0 <= y + dy < out.Length0 && 0 <= x + dx < out.Length1 {
          out[y + dy, x + dx] := true;
        }
      }
    }
  }

  lemma NearBeforeStep(g: Grid, c: Cell, r: int, y: int, x: int)
    requires IsGrid(g) && InGrid(g, Cell(x, y))
    ensures NearBefore(g, c, r, y, x + 1)
            <==> NearBefore(g, c, r, y, x) || (Set(g, Cell(x, y)) && Within(c, Cell(x, y), r))
  {
    if NearBefore(g, c, r, y, x + 1) {
      var d :| InGrid(g, d) && Set(g, d) && Within(c, d, r) && (d.y < y || (d.y == y && d.x < x + 1));
      if d.y == y && d.x == x {
        assert d == Cell(x, y);
      }
    }
    if NearBefore(g, c, r, y, x) {
      var d :| InGrid(g, d) && Set(g, d) && Within(c, d, r) && (d.y < y || (d.y == y && d.x < x));
    }
  }

  lemma NearBeforeSteps(g: Grid, r: int, y: int, x: int)
    requires IsGrid(g) && InGrid(g, Cell(x, y))
    ensures forall c :: NearBefore(g, c, r, y, x + 1) <==>
                        NearBefore(g, c, r, y, x) || (Set(g, Cell(x, y)) && Within(c, Cell(x, y), r))
  {
    forall c {
      NearBeforeStep(g, c, r, y, x);
    }
  }

  lemma NearBeforeRow(g: Grid, c: Cell, r: int, y: int)
    requires IsGrid(g)
    ensures NearBefore(g, c, r, y, |g[0]|) <==> NearBefore(g, c, r, y + 1, 0)
    ensures NearBefore(g, c, r, |g|, 0) <==> Near(g, c, r)
    ensures !NearBefore(g, c, r, 0, 0)
  {
  }

  method DilateInto(g: Grid, radius: int, out: array2<bool>)
    requires IsGrid(g) && radius > 0
    requires Shows(g, out, radius, 0, 0)
    modifies out
    ensures Shows(g, out, radius, |g|, 0)
  {
    hide NearBefore, Within;
    for y := 0 to |g|
      invariant Shows(g, out, radius, y, 0)
    {
      for x := 0 to |g[0]|
        invariant Shows(g, out, radius, y, x)
      {
        NearBeforeSteps(g, radius, y, x);
        if g[y][x] {
          Stamp(out, y, x, radius);
        }
      }
      forall c {
        NearBeforeRow(g, c, radius, y);
      }
    }
  }

  method Dilate(g: Grid, radius: int) returns (r: Grid)
    requires IsGrid(g)
    ensures r == Dilation(g, radius)
  {
    if radius <= 0 {
      return g;
    }
    hide NearBefore, Near;
    var h, w := |g|, |g[0]|;
    var out := new bool[h, w]((y, x) => false);
    forall c {
      NearBeforeRow(g, c, radius, 0);
    }
    DilateInto(g, radius, out);
    r := seq(h, y requires 0 <= y < h reads out => seq(w, x requires 0 <= x < w reads out => out[y, x]));
    forall c | InGrid(g, c)
      ensures Set(r, c) == Set(Dilation(g, radius), c)
    {
      NearBeforeRow(g, c, radius, 0);
    }
    SameCells(r, Dilation(g, radius));
  }

  // ---------------------------------------------------------------------------------------
  // The head: the widest enclosed run of the upper half.
  // ---------------------------------------------------------------------------------------

  datatype Head = NoInterior | Head(cx: int, cy: int, radius: int)

  predicate Interior(ink: Grid, mask: Grid, x: int, y: int)
    requires SameShape(ink, mask) && 0 <= y < |ink|
  {
    0 <= x < |ink[0]| && mask[y][x] && !ink[y][x]
  }

  /** `len` interior pixels in a row, from column x0 of row y of the upper half. */
  predicate IsRun(ink: Grid, mask: Grid, x0: int, y: int, len: int)
    requires SameShape(ink, mask)
  {
    && len > 0 && 0 <= y < |ink| / 2 + 1 && 0 <= y < |ink|
    && forall x :: x0 <= x < x0 + len ==> Interior(ink, mask, x, y)
  }

  predicate InOrder(x: int, y: int, x': int, y': int) {
    y < y' || (y == y' && x <= x')
  }

  /** No run of the upper half is longer, and none as long comes earlier in reading order. */
  ghost predicate WidestRun(ink: Grid, mask: Grid, x0: int, y: int, len: int)
    requires SameShape(ink, mask)
  {
    && IsRun(ink, mask, x0, y, len)
    && (forall x1, y1, l :: IsRun(ink, mask, x1, y1, l) ==> l <= len && (l == len ==> InOrder(x0, y, x1, y1)))
  }

  /** The same, among the runs that end at or before column x of row y, or lie in earlier rows. */
  ghost predicate WidestSoFar(ink: Grid, mask: Grid, len: int, x0: int, y0: int, x: int, y: int)
    requires SameShape(ink, mask)
  {
    && len >= 0
    && (len > 0 ==> IsRun(ink, mask, x0, y0, len) && InOrder(x0, y0, x, y))
    && (forall x1, y1, l :: IsRun(ink, mask, x1, y1, l) && (y1 < y || (y1 == y && x1 + l <= x)) ==>
          l <= len && (l == len ==> InOrder(x0, y0, x1, y1)))
  }

  method HeadCircle(ink: Grid, mask: Grid) returns (r: Head)
    requires SameShape(ink, mask)
    ensures r.NoInterior? <==> !exists x, y :: IsRun(ink, mask, x, y, 1)
    ensures r.Head? ==> exists x0, len ::
      WidestRun(ink, mask, x0, r.cy, len) && r.cx == x0 + len / 2 && r.radius == len / 2
  {
    var h, w := |ink|, |ink[0]|;
    var length, cx, cy := 0, 0, 0;
    ghost var x0 := 0;
    RunsFit(ink, mask);
    for y := 0 to h / 2 + 1
      invariant WidestSoFar(ink, mask, length, x0, cy, 0, y)
      invariant length > 0 ==> cx == x0 + length / 2
    {
      var run := 0;
      for x := 0 to w + 1
        invariant 0 <= run <= x && (x == w + 1 ==> run == 0)
        invariant forall k :: x - run <= k < x ==> Interior(ink, mask, k, y)
        invariant 0 < x - run <= w ==> !Interior(ink, mask, x - run - 1, y)
        invariant WidestSoFar(ink, mask, length, x0, cy, x - run, y)
        invariant length > 0 ==> cx == x0 + length / 2
      {
        if x < w && mask[y][x] && !ink[y][x] {
          run := run + 1;
        } else {
          RunEnds(ink, mask, length, x0, cy, x, y, run);
          if run > length {
            length, cx, cy := run, x - run + run / 2, y;
            x0 := x - run;
          }
          run := 0;
        }
      }
      RowEnds(ink, mask, length, x0, cy, y);
    }
    if length == 0 {
      return NoInterior;
    }
    assert WidestRun(ink, mask, x0, cy, length);
    assert IsRun(ink, mask, x0, cy, 1);
    return Head(cx, cy, length / 2);
  }

  lemma RunHolds(ink: Grid, mask: Grid, x1: int, y1: int, l: int, k: int)
    requires SameShape(ink, mask) && IsRun(ink, mask, x1, y1, l)
    ensures x1 <= k < x1 + l ==> Interior(ink, mask, k, y1)
  {
  }

  lemma RunEnds(ink: Grid, mask: Grid, length: int, x0: int, y0: int, x: int, y: int, run: int)
    requires SameShape(ink, mask) && 0 <= y < |ink| / 2 + 1 && y < |ink| && 0 <= run <= x <= |ink[0]|
    requires WidestSoFar(ink, mask, length, x0, y0, x - run, y)
    requires forall k :: x - run <= k < x ==> Interior(ink, mask, k, y)
    requires 0 < x - run ==> !Interior(ink, mask, x - run - 1, y)
    requires !Interior(ink, mask, x, y)
    ensures if run > length then WidestSoFar(ink, mask, run, x - run, y, x + 1, y)
            else WidestSoFar(ink, mask, length, x0, y0, x + 1, y)
  {
    forall x1, y1, l | IsRun(ink, mask, x1, y1, l) && y1 == y && x1 + l <= x + 1
      ensures x1 + l <= x - run || (x - run <= x1 && x1 + l <= x)
    {
      assert Interior(ink, mask, x1 + l - 1, y) && Interior(ink, mask, x1, y);
      RunHolds(ink, mask, x1, y1, l, x);
      RunHolds(ink, mask, x1, y1, l, x - run - 1);
    }
  }

  lemma RowEnds(ink: Grid, mask: Grid, length: int, x0: int, y0: int, y: int)
    requires SameShape(ink, mask) && 0 <= y < |ink|
    requires WidestSoFar(ink, mask, length, x0, y0, |ink[0]| + 1, y)
    ensures WidestSoFar(ink, mask, length, x0, y0, 0, y + 1)
  {
    RunsFit(ink, mask);
  }

  lemma RunsFit(ink: Grid, mask: Grid)
    requires SameShape(ink, mask)
    ensures forall x1, y1, l :: IsRun(ink, mask, x1, y1, l) ==> 0 <= x1 && x1 + l <= |ink[0]|
  {
    forall x1, y1, l | IsRun(ink, mask, x1, y1, l)
      ensures 0 <= x1 && x1 + l <= |ink[0]|
    {
      assert Interior(ink, mask, x1, y1) && Interior(ink, mask, x1 + l - 1, y1);
    }
  }

  // ---------------------------------------------------------------------------------------
  // Bit packing.
  // ---------------------------------------------------------------------------------------

  /** MSB first: bit k of a byte, counted from the left. */
  function Mask(k: int): bv8
    requires 0 <= k < 8
  {
    (1 as bv8) << (7 - k)
  }

  function RowBytes(w: nat): nat {
    (w + 7) / 8
  }

  /** Where byte k of row y sits in the packed bytes. */
  function Slot(y: int, rowBytes: int, k: int): int {
    y * rowBytes + k
  }

  lemma SlotNextRow(y: int, rowBytes: int)
    ensures Slot(y, rowBytes, rowBytes) == Slot(y + 1, rowBytes, 0) && Slot(0, rowBytes, 0) == 0
    ensures forall k :: Slot(y, rowBytes, k) == Slot(y, rowBytes, 0) + k
  {
  }

  /** What an icon reader sees at column x of row y: drawn when the bit is clear. */
  predicate Drawn(bytes: seq<bv8>, rowBytes: nat, x: nat, y: nat)
    requires 0 <= Slot(y, rowBytes, x / 8) < |bytes|
  {
    bytes[Slot(y, rowBytes, x / 8)] & Mask(x % 8) == 0
  }

  /** Byte b of a row: eight pixels, those past the end of the row undrawn. */
  predicate ByteShows(byte: bv8, row: seq<bool>, b: nat) {
    forall k :: 0 <= k < 8 ==> (byte & Mask(k) == 0 <==> b * 8 + k < |row| && row[b * 8 + k])
  }

  lemma MasksAreDistinct(b: bv8, j: int, k: int)
    requires 0 <= j < 8 && 0 <= k < 8
    ensures (b | Mask(k)) & Mask(j) == (if j == k then Mask(k) else b & Mask(j))
    ensures Mask(k) != 0
  {
    MaskTable();
  }

  lemma MaskTable()
    ensures Mask(0) == 128 && Mask(1) == 64 && Mask(2) == 32 && Mask(3) == 16
    ensures Mask(4) == 8 && Mask(5) == 4 && Mask(6) == 2 && Mask(7) == 1
  {
  }

  method PackByte(row: seq<bool>, b: nat) returns (byte: bv8)
    ensures ByteShows(byte, row, b)
  {
    hide Mask;
    byte := 0;
    for bit := 0 to 8
      invariant forall k :: 0 <= k < bit ==> (byte & Mask(k) == 0 <==> b * 8 + k < |row| && row[b * 8 + k])
      invariant forall k :: bit <= k < 8 ==> byte & Mask(k) == 0
    {
      var x := b * 8 + bit;
      if !(x < |row| && row[x]) {
        forall k | 0 <= k < 8 {
          MasksAreDistinct(byte, k, bit);
        }
        byte := byte | Mask(bit);
      }
    }
  }

  /** Reading the packed bytes gives the grid back, and the padding of each row is undrawn. */
  method Pack(g: Grid) returns (out: seq<bv8>)
    requires IsGrid(g)
    ensures |out| == |g| * RowBytes(|g[0]|)
    ensures forall y, x :: 0 <= y < |g| && 0 <= x < 8 * RowBytes(|g[0]|) ==>
      0 <= Slot(y, RowBytes(|g[0]|), x / 8) < |out| &&
      (Drawn(out, RowBytes(|g[0]|), x, y) <==> x < |g[0]| && g[y][x])
  {
    var rowBytes := RowBytes(|g[0]|);
    assert forall y :: Slot(y, rowBytes, 0) == y * rowBytes;
    hide Slot, ByteShows, Mask;
    out := [];
    SlotNextRow(0, rowBytes);
    for y := 0 to |g|
      invariant |out| == Slot(y, rowBytes, 0)
      invariant forall i, k :: 0 <= i < y && 0 <= k < rowBytes ==>
        0 <= Slot(i, rowBytes, k) < |out| && ByteShows(out[Slot(i, rowBytes, k)], g[i], k)
    {
      SlotNextRow(y, rowBytes);
      for b := 0 to rowBytes
        invariant |out| == Slot(y, rowBytes, b)
        invariant forall i, k :: 0 <= i < y && 0 <= k < rowBytes ==>
          0 <= Slot(i, rowBytes, k) < |out| && ByteShows(out[Slot(i, rowBytes, k)], g[i], k)
        invariant forall k :: 0 <= k < b ==>
          0 <= Slot(y, rowBytes, k) < |out| && ByteShows(out[Slot(y, rowBytes, k)], g[y], k)
      {
        var byte := PackByte(g[y], b);
        out := out + [byte];
      }
    }
    forall y, x | 0 <= y < |g| && 0 <= x < 8 * rowBytes
      ensures 0 <= Slot(y, rowBytes, x / 8) < |out|
      ensures Drawn(out, rowBytes, x, y) <==> x < |g[0]| && g[y][x]
    {
      ByteRead(out[Slot(y, rowBytes, x / 8)], g[y], x);
    }
  }

  lemma ByteRead(byte: bv8, row: seq<bool>, x: nat)
    requires ByteShows(byte, row, x / 8)
    ensures byte & Mask(x % 8) == 0 <==> x < |row| && row[x]
  {
    hide Mask;
    assert x / 8 * 8 + x % 8 == x;
  }
}
