/**
  Grids stored row by row, and the bounding box of their occupied cells.
  A cell is occupied when it differs from `empty`.
 */
module Grid {

  // ---------------------------------------------------------------------------
  // Rows and columns
  // ---------------------------------------------------------------------------

  /** The position of column `x` of row `y`, counting `w` cells for every row above. */
  function Index(w: nat, x: int, y: int): int
    decreases y
  {
    if y <= 0 then x else w + Index(w, x, y - 1)
  }

  lemma {:induction false} IndexIs(w: nat, x: int, y: nat)
    ensures Index(w, x, y) == y * w + x
  {
    if y > 0 {
      IndexIs(w, x, y - 1);
    }
  }

  lemma {:induction false} IndexBetween(w: nat, x: int, y: nat, rows: nat)
    requires 0 <= x < w
    ensures 0 <= Index(w, x, y)
    ensures Index(w, x, y) < Index(w, 0, rows) <==> y < rows
  {
    if y > 0 && rows > 0 {
      IndexBetween(w, x, y - 1, rows - 1);
    } else if y > 0 {
      IndexBetween(w, x, y - 1, 0);
    } else if rows > 0 {
      IndexIs(w, 0, rows);
      assert rows * w >= w;
    }
  }

  lemma {:induction false} IndexInjective(w: nat, x: int, y: nat, x': int, y': nat)
    requires 0 <= x < w && 0 <= x' < w
    ensures Index(w, x, y) == Index(w, x', y') ==> x == x' && y == y'
  {
    if y > 0 && y' > 0 {
      IndexInjective(w, x, y - 1, x', y' - 1);
    } else if y > 0 {
      IndexBetween(w, x, y - 1, 0);
    } else if y' > 0 {
      IndexBetween(w, x', y' - 1, 0);
    }
  }

  /** A grid as the infinite plane of its cells, on which the statements below are made. */
  type Plane<!T> = (int, int) -> T

  /** The first `n` cells of the list laid out in rows of `w`; everything else is empty. */
  function PlaneOf<T>(cells: seq<T>, w: nat, n: nat, empty: T): Plane<T>
    requires n <= |cells|
  {
    (x, y) => if 0 <= x < w && 0 <= y && 0 <= Index(w, x, y) < n then cells[Index(w, x, y)] else empty
  }

  /** `h` is `g` with `cell` put at (`x`, `y`). */
  ghost predicate Put<T(!new)>(g: Plane<T>, h: Plane<T>, x: int, y: int, cell: T) {
    forall cx, cy :: h(cx, cy) == if cx == x && cy == y then cell else g(cx, cy)
  }

  ghost predicate SamePlane<T(!new)>(g: Plane<T>, h: Plane<T>) {
    forall x, y :: h(x, y) == g(x, y)
  }

  lemma PlaneSnoc<T(!new)>(cells: seq<T>, w: nat, n: nat, empty: T, x: nat, y: nat)
    requires n < |cells| && x < w && Index(w, x, y) == n
    ensures Put(PlaneOf(cells, w, n, empty), PlaneOf(cells, w, n + 1, empty), x, y, cells[n])
    ensures PlaneOf(cells, w, n, empty)(x, y) == empty
  {
    forall cx: int, cy: int
      ensures 0 <= cx < w && 0 <= cy && Index(w, cx, cy) == n ==> cx == x && cy == y
    {
      if 0 <= cx < w && 0 <= cy {
        IndexInjective(w, cx, cy, x, y);
      }
    }
  }

  // ---------------------------------------------------------------------------
  // Full rows
  // ---------------------------------------------------------------------------

  lemma RemainderIs(n: nat, w: nat, q: nat, r: nat)
    requires w > 0 && n == q * w + r && r < w
    ensures n % w == r
  {
    var d := n / w - q;
    assert n == n / w * w + n % w;
    assert d * w == r - n % w;
    assert d > 0 ==> d * w >= w;
    assert d < 0 ==> d * w <= -1 * w;
  }

  /** How many cells the last row lacks. */
  function Missing(n: nat, w: nat): (m: nat)
    requires w > 0
    ensures m < w
    ensures m == 0 <==> n % w == 0
  {
    if n % w == 0 then 0 else w - n % w
  }

  lemma DivMod(n: nat, w: nat) returns (q: nat, r: nat)
    requires w > 0
    ensures q == n / w && r == n % w && r < w && n == q * w + r
  {
    q, r := n / w, n % w;
  }

  lemma NextRemainder(n: nat, w: nat)
    requires w > 0
    ensures (n + 1) % w == if n % w + 1 == w then 0 else n % w + 1
  {
    var q, r := DivMod(n, w);
    if r + 1 == w {
      assert n + 1 == (q + 1) * w;
      RemainderIs(n + 1, w, q + 1, 0);
    } else {
      RemainderIs(n + 1, w, q, r + 1);
    }
  }

  lemma MissingDrops(n: nat, w: nat)
    requires w > 0 && n % w != 0
    ensures Missing(n + 1, w) == Missing(n, w) - 1
    ensures Index(w, n % w, n / w) == n
  {
    NextRemainder(n, w);
    var q, r := DivMod(n, w);
    IndexIs(w, r, q);
  }

  lemma PlaneOfAppend<T(!new)>(cells: seq<T>, w: nat, empty: T, cell: T)
    ensures SamePlane(PlaneOf(cells, w, |cells|, empty), PlaneOf(cells + [cell], w, |cells|, empty))
  {
  }

  lemma AppendEmpty<T(!new)>(cells: seq<T>, w: nat, empty: T)
    requires w > 0 && |cells| % w != 0
    ensures SamePlane(PlaneOf(cells, w, |cells|, empty), PlaneOf(cells + [empty], w, |cells| + 1, empty))
  {
    MissingDrops(|cells|, w);
    PlaneOfAppend(cells, w, empty, empty);
    PlaneSnoc(cells + [empty], w, |cells|, empty, |cells| % w, |cells| / w);
  }

  /** Filling up the last row with empty cells changes no cell. */
  method PadRows<T(!new)>(cells: seq<T>, w: nat, empty: T) returns (padded: seq<T>)
    requires w > 0
    ensures |padded| % w == 0
    ensures SamePlane(PlaneOf(cells, w, |cells|, empty), PlaneOf(padded, w, |padded|, empty))
  {
    padded := cells;
    while |padded| % w != 0
      invariant SamePlane(PlaneOf(cells, w, |cells|, empty), PlaneOf(padded, w, |padded|, empty))
      decreases Missing(|padded|, w)
    {
      MissingDrops(|padded|, w);
      AppendEmpty(padded, w, empty);
      padded := padded + [empty];
    }
  }

  // ---------------------------------------------------------------------------
  // Bounding boxes
  // ---------------------------------------------------------------------------

  datatype Bounds = Bounds(minX: nat, maxX: nat, minY: nat, maxY: nat) {
    predicate Contains(x: int, y: int) {
      minX <= x <= maxX && minY <= y <= maxY
    }

    predicate Offset(x: int, y: int) {
      0 <= x <= maxX - minX && 0 <= y <= maxY - minY
    }
  }

  /** The least box around all items: it holds every one of them, and each side touches one. */
  ghost predicate IsBounds<T(!new)>(g: Plane<T>, empty: T, b: Bounds) {
    && (forall x, y {:trigger g(x, y)} :: g(x, y) != empty ==> b.Contains(x, y))
    && (exists y :: g(b.minX, y) != empty)
    && (exists y :: g(b.maxX, y) != empty)
    && (exists x :: g(x, b.minY) != empty)
    && (exists x :: g(x, b.maxY) != empty)
  }

  ghost predicate AllEmpty<T(!new)>(g: Plane<T>, empty: T) {
    forall x, y :: g(x, y) == empty
  }

  lemma BoundsUnique<T(!new)>(g: Plane<T>, empty: T, b: Bounds, c: Bounds)
    requires IsBounds(g, empty, b) && IsBounds(g, empty, c)
    ensures b == c
  {
  }

  lemma BoundsOrdered<T(!new)>(g: Plane<T>, empty: T, b: Bounds)
    requires IsBounds(g, empty, b)
    ensures b.minX <= b.maxX && b.minY <= b.maxY
  {
    var y :| g(b.minX, y) != empty;
  }

  lemma SamePlaneSameBounds<T(!new)>(g: Plane<T>, h: Plane<T>, empty: T, b: Bounds)
    requires SamePlane(g, h)
    ensures IsBounds(g, empty, b) <==> IsBounds(h, empty, b)
    ensures AllEmpty(g, empty) <==> AllEmpty(h, empty)
  {
  }

  /** The box of a grid with one more item. */
  function Extend(b: Bounds, x: nat, y: nat): Bounds {
    Bounds(if x < b.minX then x else b.minX, if x > b.maxX then x else b.maxX,
           if y < b.minY then y else b.minY, if y > b.maxY then y else b.maxY)
  }

  lemma BoundsFirst<T(!new)>(g: Plane<T>, h: Plane<T>, empty: T, x: nat, y: nat, cell: T)
    requires Put(g, h, x, y, cell) && cell != empty && AllEmpty(g, empty)
    ensures IsBounds(h, empty, Bounds(x, x, y, y))
  {
    assert h(x, y) != empty;
  }

  lemma BoundsExtend<T(!new)>(g: Plane<T>, h: Plane<T>, empty: T, x: nat, y: nat, cell: T, b: Bounds)
    requires Put(g, h, x, y, cell) && cell != empty && IsBounds(g, empty, b)
    ensures IsBounds(h, empty, Extend(b, x, y))
  {
    assert h(x, y) != empty;
    var y1 :| g(b.minX, y1) != empty;
    var y2 :| g(b.maxX, y2) != empty;
    var x1 :| g(x1, b.minY) != empty;
    var x2 :| g(x2, b.maxY) != empty;
    assert h(b.minX, y1) != empty && h(b.maxX, y2) != empty && h(x1, b.minY) != empty && h(x2, b.maxY) != empty;
  }

  /** State of the walk after `n` cells. */
  ghost predicate BoundsSoFar<T(!new)>(cells: seq<T>, w: nat, n: nat, empty: T, success: bool, b: Bounds)
    requires n <= |cells|
  {
    var g := PlaneOf(cells, w, n, empty);
    if success then IsBounds(g, empty, b) else AllEmpty(g, empty)
  }

  lemma BoundsStep<T(!new)>(cells: seq<T>, w: nat, n: nat, empty: T, success: bool, b: Bounds, x: nat, y: nat)
    requires n < |cells| && x < w && Index(w, x, y) == n
    requires BoundsSoFar(cells, w, n, empty, success, b)
    ensures cells[n] == empty ==> BoundsSoFar(cells, w, n + 1, empty, success, b)
    ensures cells[n] != empty && !success ==> BoundsSoFar(cells, w, n + 1, empty, true, Bounds(x, x, y, y))
    ensures cells[n] != empty && success ==> BoundsSoFar(cells, w, n + 1, empty, true, Extend(b, x, y))
  {
    var g, h := PlaneOf(cells, w, n, empty), PlaneOf(cells, w, n + 1, empty);
    PlaneSnoc(cells, w, n, empty, x, y);
    if cells[n] == empty {
      SamePlaneSameBounds(g, h, empty, b);
    } else if !success {
      BoundsFirst(g, h, empty, x, y, cells[n]);
    } else {
      BoundsExtend(g, h, empty, x, y, cells[n], b);
    }
  }

  lemma IndexNext(w: nat, x: nat, y: nat)
    ensures Index(w, x + 1, y) == Index(w, x, y) + 1
    ensures x + 1 == w ==> Index(w, 0, y + 1) == Index(w, x, y) + 1
  {
    IndexIs(w, x, y);
    IndexIs(w, x + 1, y);
    IndexIs(w, 0, y + 1);
  }

  /** One cell of the walk. */
  method Widen<T(==,!new)>(cells: seq<T>, w: nat, i: nat, empty: T, success: bool, b: Bounds, x: nat, y: nat)
    returns (success': bool, b': Bounds)
    requires i < |cells| && x < w && Index(w, x, y) == i && BoundsSoFar(cells, w, i, empty, success, b)
    ensures BoundsSoFar(cells, w, i + 1, empty, success', b')
  {
    BoundsStep(cells, w, i, empty, success, b, x, y);
    success', b' := success, b;
    if cells[i] != empty {
      b' := if success then Extend(b, x, y) else Bounds(x, x, y, y);
      success' := true;
    }
  }

  /** The walk over the cells that widens the box; fails on a grid without items. */
  method GetBounds<T(==,!new)>(cells: seq<T>, w: nat, empty: T) returns (success: bool, b: Bounds)
    requires w > 0
    ensures success ==> IsBounds(PlaneOf(cells, w, |cells|, empty), empty, b)
    ensures !success ==> AllEmpty(PlaneOf(cells, w, |cells|, empty), empty)
  {
    success := false;
    b := Bounds(0, 0, 0, 0);
    var x: nat, y: nat := 0, 0;
    for i := 0 to |cells|
      invariant x < w && Index(w, x, y) == i
      invariant BoundsSoFar(cells, w, i, empty, success, b)
    {
      success, b := Widen(cells, w, i, empty, success, b, x, y);
      IndexNext(w, x, y);
      x := x + 1;
      if x == w {
        x, y := 0, y + 1;
      }
    }
  }

  /** Of a number of full rows, a row that has one cell has all. */
  lemma InFullRows(w: nat, rows: nat, x: nat, y: nat, xx: nat, yy: nat)
    requires x < w && xx < w && y <= yy && Index(w, xx, yy) < Index(w, 0, rows)
    ensures 0 <= Index(w, x, y) < Index(w, 0, rows)
  {
    IndexBetween(w, xx, yy, rows);
    IndexBetween(w, x, y, rows);
  }

  lemma FullRows(n: nat, w: nat) returns (rows: nat)
    requires w > 0 && n % w == 0
    ensures n == Index(w, 0, rows)
  {
    rows := n / w;
    IndexIs(w, 0, rows);
  }

  /** A point of a bounding box is no further than some occupied cells. */
  lemma BoxCorner<T(!new)>(cells: seq<T>, w: nat, empty: T, b: Bounds, x: int, y: int) returns (xx: nat, yy: nat)
    requires IsBounds(PlaneOf(cells, w, |cells|, empty), empty, b) && b.Contains(x, y)
    ensures 0 <= x < w && xx < w && 0 <= y <= yy && Index(w, xx, yy) < |cells|
  {
    var g := PlaneOf(cells, w, |cells|, empty);
    var ly :| g(b.minX, ly) != empty;
    var lx :| g(lx, b.minY) != empty;
    var hy :| g(b.maxX, hy) != empty;
    var hx :| g(hx, b.maxY) != empty;
    xx, yy := hx, b.maxY;
  }

  /** All cells of a bounding box lie inside a grid with full rows. */
  lemma BoxInGrid<T(!new)>(cells: seq<T>, w: nat, empty: T, b: Bounds, x: int, y: int)
    requires w > 0 && |cells| % w == 0 && IsBounds(PlaneOf(cells, w, |cells|, empty), empty, b) && b.Contains(x, y)
    ensures 0 <= y * w + x < |cells|
    ensures PlaneOf(cells, w, |cells|, empty)(x, y) == cells[y * w + x]
  {
    var rows := FullRows(|cells|, w);
    var xx, yy := BoxCorner(cells, w, empty, b, x, y);
    InFullRows(w, rows, x, y, xx, yy);
    IndexIs(w, x, y);
  }

  // ---------------------------------------------------------------------------
  // Comparing boxes
  // ---------------------------------------------------------------------------

  /** Which cells of a pattern accept which cells of a grid. */
  type Accepts<!T> = (T, T) -> bool

  /** At offset (`x`, `y`) inside the two boxes, the cell is accepted by the cell of the pattern. */
  ghost predicate CellsMatch<T(!new)>(ok: Accepts<T>, g: Plane<T>, b: Bounds, h: Plane<T>, c: Bounds, x: int, y: int) {
    ok(g(b.minX + x, b.minY + y), h(c.minX + x, c.minY + y))
  }

  /** All cells of the box that come before offset (`x`, `y`) row by row are accepted. */
  ghost predicate MatchedUpTo<T(!new)>(ok: Accepts<T>, g: Plane<T>, b: Bounds, h: Plane<T>, c: Bounds, x: int, y: int) {
    forall cx, cy {:trigger CellsMatch(ok, g, b, h, c, cx, cy)} ::
      b.Offset(cx, cy) && (cy < y || (cy == y && cx < x)) ==> CellsMatch(ok, g, b, h, c, cx, cy)
  }

  ghost predicate AllMatch<T(!new)>(ok: Accepts<T>, g: Plane<T>, b: Bounds, h: Plane<T>, c: Bounds) {
    forall x, y {:trigger CellsMatch(ok, g, b, h, c, x, y)} :: b.Offset(x, y) ==> CellsMatch(ok, g, b, h, c, x, y)
  }

  lemma MatchedNext<T(!new)>(ok: Accepts<T>, g: Plane<T>, b: Bounds, h: Plane<T>, c: Bounds, x: int, y: int)
    requires MatchedUpTo(ok, g, b, h, c, x, y) && CellsMatch(ok, g, b, h, c, x, y)
    ensures MatchedUpTo(ok, g, b, h, c, x + 1, y)
  {
  }

  lemma MatchedRow<T(!new)>(ok: Accepts<T>, g: Plane<T>, b: Bounds, h: Plane<T>, c: Bounds, x: int, y: int)
    requires MatchedUpTo(ok, g, b, h, c, x, y) && x > b.maxX - b.minX
    ensures MatchedUpTo(ok, g, b, h, c, 0, y + 1)
  {
  }

  lemma MatchedAll<T(!new)>(ok: Accepts<T>, g: Plane<T>, b: Bounds, h: Plane<T>, c: Bounds, y: int)
    requires MatchedUpTo(ok, g, b, h, c, 0, y) && y > b.maxY - b.minY
    ensures AllMatch(ok, g, b, h, c)
  {
  }

  predicate SameSize(b: Bounds, c: Bounds) {
    b.maxX - b.minX == c.maxX - c.minX && b.maxY - b.minY == c.maxY - c.minY
  }

  /** Inside boxes of equal size, every cell is accepted by the pattern cell at the same place. */
  ghost predicate BoxesMatch<T(!new)>(ok: Accepts<T>, g: Plane<T>, b: Bounds, h: Plane<T>, c: Bounds) {
    SameSize(b, c) && AllMatch(ok, g, b, h, c)
  }

  ghost predicate PlanesMatch<T(!new)>(ok: Accepts<T>, empty: T, g: Plane<T>, h: Plane<T>) {
    exists b, c :: IsBounds(g, empty, b) && IsBounds(h, empty, c) && BoxesMatch(ok, g, b, h, c)
  }

  lemma PlanesMatchByBoxes<T(!new)>(ok: Accepts<T>, empty: T, g: Plane<T>, b: Bounds, h: Plane<T>, c: Bounds)
    requires IsBounds(g, empty, b) && IsBounds(h, empty, c)
    ensures PlanesMatch(ok, empty, g, h) <==> BoxesMatch(ok, g, b, h, c)
  {
    if PlanesMatch(ok, empty, g, h) {
      var b', c' :| IsBounds(g, empty, b') && IsBounds(h, empty, c') && BoxesMatch(ok, g, b', h, c');
      BoundsUnique(g, empty, b, b');
      BoundsUnique(h, empty, c, c');
    }
  }

  lemma SamePlaneSameBoxes<T(!new)>(ok: Accepts<T>, g: Plane<T>, g': Plane<T>, b: Bounds, h: Plane<T>, h': Plane<T>,
                                    c: Bounds)
    requires SamePlane(g, g') && SamePlane(h, h')
    ensures BoxesMatch(ok, g, b, h, c) <==> BoxesMatch(ok, g', b, h', c)
  {
    assert forall x, y :: CellsMatch(ok, g, b, h, c, x, y) <==> CellsMatch(ok, g', b, h', c, x, y);
  }

  /** The two list elements that stand for a pair of corresponding cells. */
  lemma CellsMatchIs<T(!new)>(ok: Accepts<T>, g: Plane<T>, b: Bounds, h: Plane<T>, c: Bounds, x: int, y: int, s: T,
                              t: T)
    requires s == g(b.minX + x, b.minY + y) && t == h(c.minX + x, c.minY + y)
    ensures CellsMatch(ok, g, b, h, c, x, y) == ok(s, t)
  {
  }

  // ---------------------------------------------------------------------------
  // Independence of the position
  // ---------------------------------------------------------------------------

  /** `h` is `g` with everything moved by (`dx`, `dy`). */
  ghost predicate Translated<T(!new)>(g: Plane<T>, h: Plane<T>, dx: int, dy: int) {
    forall x, y {:trigger MovedCell(g, h, x, y, dx, dy)} :: MovedCell(g, h, x, y, dx, dy)
  }

  ghost predicate MovedCell<T(!new)>(g: Plane<T>, h: Plane<T>, x: int, y: int, dx: int, dy: int) {
    h(x + dx, y + dy) == g(x, y)
  }

  ghost predicate MovedBox(b: Bounds, c: Bounds, dx: int, dy: int) {
    c.minX == b.minX + dx && c.maxX == b.maxX + dx && c.minY == b.minY + dy && c.maxY == b.maxY + dy
  }

  lemma TranslatedBounds<T(!new)>(g: Plane<T>, empty: T, b: Bounds, h: Plane<T>, dx: int, dy: int) returns (c: Bounds)
    requires Translated(g, h, dx, dy) && IsBounds(g, empty, b)
    requires forall x, y :: h(x, y) != empty ==> x >= 0 && y >= 0
    ensures IsBounds(h, empty, c) && MovedBox(b, c, dx, dy)
  {
    BoundsOrdered(g, empty, b);
    var y1 :| g(b.minX, y1) != empty;
    var y2 :| g(b.maxX, y2) != empty;
    var x1 :| g(x1, b.minY) != empty;
    var x2 :| g(x2, b.maxY) != empty;
    assert MovedCell(g, h, b.minX, y1, dx, dy) && MovedCell(g, h, b.maxX, y2, dx, dy);
    assert MovedCell(g, h, x1, b.minY, dx, dy) && MovedCell(g, h, x2, b.maxY, dx, dy);
    forall x, y | h(x, y) != empty
      ensures b.Contains(x - dx, y - dy)
    {
      assert MovedCell(g, h, x - dx, y - dy, dx, dy);
    }
    c := Bounds(b.minX + dx, b.maxX + dx, b.minY + dy, b.maxY + dy);
  }

  lemma TranslatedBoxes<T(!new)>(ok: Accepts<T>, g: Plane<T>, b: Bounds, h: Plane<T>, c: Bounds, dx: int, dy: int,
                           pattern: Plane<T>, p: Bounds)
    requires Translated(g, h, dx, dy) && MovedBox(b, c, dx, dy) && BoxesMatch(ok, g, b, pattern, p)
    ensures BoxesMatch(ok, h, c, pattern, p)
  {
    forall x, y | c.Offset(x, y)
      ensures CellsMatch(ok, h, c, pattern, p, x, y)
    {
      assert MovedCell(g, h, b.minX + x, b.minY + y, dx, dy);
      assert CellsMatch(ok, g, b, pattern, p, x, y);
    }
  }

  lemma TranslatedMatch<T(!new)>(ok: Accepts<T>, empty: T, g: Plane<T>, h: Plane<T>, dx: int, dy: int,
                                 pattern: Plane<T>)
    requires Translated(g, h, dx, dy) && PlanesMatch(ok, empty, g, pattern)
    requires forall x, y :: h(x, y) != empty ==> x >= 0 && y >= 0
    ensures PlanesMatch(ok, empty, h, pattern)
  {
    var b, p :| IsBounds(g, empty, b) && IsBounds(pattern, empty, p) && BoxesMatch(ok, g, b, pattern, p);
    var c := TranslatedBounds(g, empty, b, h, dx, dy);
    TranslatedBoxes(ok, g, b, h, c, dx, dy, pattern, p);
  }

  lemma PlaneInQuadrant<T(!new)>(cells: seq<T>, w: nat, n: nat, empty: T)
    requires n <= |cells|
    ensures forall x, y :: PlaneOf(cells, w, n, empty)(x, y) != empty ==> x >= 0 && y >= 0
  {
  }

  lemma TranslatedBack<T(!new)>(g: Plane<T>, h: Plane<T>, dx: int, dy: int)
    requires Translated(g, h, dx, dy)
    ensures Translated(h, g, -dx, -dy)
  {
    var ex, ey := -dx, -dy;
    forall x, y
      ensures MovedCell(h, g, x, y, ex, ey)
    {
      assert MovedCell(g, h, x - dx, y - dy, dx, dy);
    }
  }

  lemma TranslationInvariant<T(!new)>(ok: Accepts<T>, empty: T, g: Plane<T>, h: Plane<T>, dx: int, dy: int,
                                      pattern: Plane<T>)
    requires Translated(g, h, dx, dy)
    requires forall x, y :: g(x, y) != empty ==> x >= 0 && y >= 0
    requires forall x, y :: h(x, y) != empty ==> x >= 0 && y >= 0
    ensures PlanesMatch(ok, empty, g, pattern) <==> PlanesMatch(ok, empty, h, pattern)
  {
    if PlanesMatch(ok, empty, g, pattern) {
      TranslatedMatch(ok, empty, g, h, dx, dy, pattern);
    } else if PlanesMatch(ok, empty, h, pattern) {
      TranslatedBack(g, h, dx, dy);
      TranslatedMatch(ok, empty, h, g, -dx, -dy, pattern);
    }
  }
}
