/** Matching boxes hold equally many cells of each kind. */
module GridCount {
  import opened Grid

  /** Sets related injectively: every `i` has a partner `j`, and no `j` has two. */
  lemma {:induction false} PartnersSize(s: set<int>, t: set<int>, partner: (int, int) -> bool)
    requires forall i :: i in s ==> exists j :: j in t && partner(i, j)
    requires forall i, i', j :: partner(i, j) && partner(i', j) ==> i == i'
    ensures |s| <= |t|
  {
    if forall i :: i !in s {
      assert s == {};
    } else {
      var i :| i in s;
      var j :| j in t && partner(i, j);
      forall i' | i' in s - {i}
        ensures exists j' :: j' in t - {j} && partner(i', j')
      {
        var j' :| j' in t && partner(i', j');
        assert j' in t - {j};
      }
      PartnersSize(s - {i}, t - {j}, partner);
    }
  }

  /** The positions of the cells of a kind. */
  ghost function Where<T>(cells: seq<T>, p: T -> bool): set<int> {
    set i | 0 <= i < |cells| && p(cells[i])
  }

  /** The place of position `i` in rows of `w`. */
  lemma Locate<T(!new)>(cells: seq<T>, w: nat, empty: T, b: Bounds, i: nat) returns (x: nat, y: nat)
    requires i < |cells| && cells[i] != empty && IsBounds(PlaneOf(cells, w, |cells|, empty), empty, b)
    ensures x < w && b.Contains(x, y) && Index(w, x, y) == i
    ensures PlaneOf(cells, w, |cells|, empty)(x, y) == cells[i]
  {
    var g := PlaneOf(cells, w, |cells|, empty);
    assert w > 0 by {
      var yy :| g(b.minX, yy) != empty;
    }
    var q, r := DivMod(i, w);
    x, y := r, q;
    IndexIs(w, x, y);
    assert g(x, y) == cells[i];
  }

  /** Positions `i` and `j` are at the same offset inside the two boxes. */
  ghost predicate Linked(w: nat, b: Bounds, w': nat, c: Bounds, i: int, j: int) {
    exists x: nat, y: nat ::
      && Index(w, x, y) == i && b.minX <= x < w && b.minY <= y
      && c.minX + (x - b.minX) < w' && Index(w', c.minX + (x - b.minX), c.minY + (y - b.minY)) == j
  }

  lemma LinkedInjective(w: nat, b: Bounds, w': nat, c: Bounds, i: int, i': int, j: int)
    requires Linked(w, b, w', c, i, j) && Linked(w, b, w', c, i', j)
    ensures i == i'
  {
    var x: nat, y: nat :| Index(w, x, y) == i && b.minX <= x < w && b.minY <= y &&
      c.minX + (x - b.minX) < w' && Index(w', c.minX + (x - b.minX), c.minY + (y - b.minY)) == j;
    var u: nat, v: nat :| Index(w, u, v) == i' && b.minX <= u < w && b.minY <= v &&
      c.minX + (u - b.minX) < w' && Index(w', c.minX + (u - b.minX), c.minY + (v - b.minY)) == j;
    IndexInjective(w', c.minX + (x - b.minX), c.minY + (y - b.minY), c.minX + (u - b.minX), c.minY + (v - b.minY));
  }

  /** The partner of one cell of kind `p`. */
  lemma LinkCell<T(!new)>(ok: Accepts<T>, empty: T, cells: seq<T>, w: nat, b: Bounds, other: seq<T>, w': nat, c: Bounds,
                          i: nat) returns (j: nat)
    requires IsBounds(PlaneOf(cells, w, |cells|, empty), empty, b)
    requires SameSize(b, c) && i < |cells| && cells[i] != empty
    requires AllMatch(ok, PlaneOf(cells, w, |cells|, empty), b, PlaneOf(other, w', |other|, empty), c)
    requires forall t :: ok(cells[i], t) ==> t != empty
    ensures Linked(w, b, w', c, i, j) && j < |other| && ok(cells[i], other[j])
  {
    var g, h := PlaneOf(cells, w, |cells|, empty), PlaneOf(other, w', |other|, empty);
    var x, y := Locate(cells, w, empty, b, i);
    assert CellsMatch(ok, g, b, h, c, x - b.minX, y - b.minY);
    var x', y' := c.minX + (x - b.minX), c.minY + (y - b.minY);
    assert b.minX + (x - b.minX) == x && b.minY + (y - b.minY) == y;
    assert h(x', y') != empty;
    j := Index(w', x', y');
  }

  /**
    If every cell of kind `p` meets a cell of kind `q`, and no empty cell is of
    kind `p` or `q`, then there are at least as many of the latter.
   */
  lemma CountTransfer<T(!new)>(ok: Accepts<T>, empty: T, cells: seq<T>, w: nat, b: Bounds, other: seq<T>, w': nat,
                               c: Bounds, p: T -> bool, q: T -> bool)
    requires IsBounds(PlaneOf(cells, w, |cells|, empty), empty, b)
    requires SameSize(b, c) && !p(empty) && !q(empty)
    requires AllMatch(ok, PlaneOf(cells, w, |cells|, empty), b, PlaneOf(other, w', |other|, empty), c)
    requires forall s, t :: p(s) && ok(s, t) ==> q(t)
    ensures |Where(cells, p)| <= |Where(other, q)|
  {
    forall i | i in Where(cells, p)
      ensures exists j :: j in Where(other, q) && Linked(w, b, w', c, i, j)
    {
      var j := LinkCell(ok, empty, cells, w, b, other, w', c, i);
      assert j in Where(other, q);
    }
    forall i, i', j | Linked(w, b, w', c, i, j) && Linked(w, b, w', c, i', j)
      ensures i == i'
    {
      LinkedInjective(w, b, w', c, i, i', j);
    }
    PartnersSize(Where(cells, p), Where(other, q), (i, j) => Linked(w, b, w', c, i, j));
  }
}
