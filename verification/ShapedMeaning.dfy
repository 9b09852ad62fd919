/** What it means for a shaped recipe to match, without boxes: it can be laid over the input so that all cells fit. */
module ShapedMeaning {
  import opened Items
  import opened Grid
  import opened Shaped
  import Recipes

  /** Moved by (`dx`, `dy`), every cell of the pattern accepts the cell of the grid it comes to lie on. */
  ghost predicate FitsOver(idef: ItemDefs, g: Plane<string>, h: Plane<string>, dx: int, dy: int) {
    forall x, y {:trigger Covers(idef, g, h, x, y, dx, dy)} :: Covers(idef, g, h, x, y, dx, dy)
  }

  ghost predicate Covers(idef: ItemDefs, g: Plane<string>, h: Plane<string>, x: int, y: int, dx: int, dy: int) {
    Matches(idef, g(x, y), h(x + dx, y + dy))
  }

  ghost predicate Blank(g: Plane<string>) {
    forall x, y :: g(x, y) == ""
  }

  /** A plane that holds something has a box around it. */
  lemma {:induction false} BoxExists(cells: seq<string>, w: nat, n: nat) returns (success: bool, b: Bounds)
    requires w > 0 && n <= |cells|
    ensures BoundsSoFar(cells, w, n, "", success, b)
  {
    if n == 0 {
      success, b := false, Bounds(0, 0, 0, 0);
    } else {
      success, b := BoxExists(cells, w, n - 1);
      var y, x := DivMod(n - 1, w);
      IndexIs(w, x, y);
      BoundsStep(cells, w, n - 1, "", success, b, x, y);
      if cells[n - 1] != "" {
        b := if success then Extend(b, x, y) else Bounds(x, x, y, y);
        success := true;
      }
    }
  }

  lemma PlaneHasBox(names: seq<string>, w: nat) returns (b: Bounds)
    requires !Blank(NamePlane(names, w))
    ensures IsBounds(NamePlane(names, w), "", b)
  {
    var success;
    success, b := BoxExists(names, w, |names|);
  }

  /** Boxes that match lie over each other. */
  lemma BoxesFitOver(idef: ItemDefs, g: Plane<string>, b: Bounds, h: Plane<string>, c: Bounds)
    requires IsBounds(g, "", b) && IsBounds(h, "", c) && BoxesMatch(AcceptsOf(idef), g, b, h, c)
    ensures FitsOver(idef, g, h, c.minX - b.minX, c.minY - b.minY)
  {
    var dx, dy := c.minX - b.minX, c.minY - b.minY;
    forall x, y
      ensures Covers(idef, g, h, x, y, dx, dy)
    {
      if b.Contains(x, y) {
        assert CellsMatch(AcceptsOf(idef), g, b, h, c, x - b.minX, y - b.minY);
      } else {
        assert g(x, y) == "" && h(x + dx, y + dy) == "";
      }
    }
  }

  lemma OccupiedTogether(idef: ItemDefs, g: Plane<string>, h: Plane<string>, x: int, y: int, dx: int, dy: int)
    requires Recipes.EmptyUngrouped(idef) && FitsOver(idef, g, h, dx, dy)
    ensures g(x, y) == "" <==> h(x + dx, y + dy) == ""
  {
    assert Covers(idef, g, h, x, y, dx, dy);
    Recipes.EmptyMatches(idef, g(x, y), h(x + dx, y + dy));
  }

  /** What lies over each other has boxes that match. */
  lemma FitsOverBoxes(idef: ItemDefs, g: Plane<string>, b: Bounds, h: Plane<string>, dx: int, dy: int)
    returns (c: Bounds)
    requires Recipes.EmptyUngrouped(idef) && FitsOver(idef, g, h, dx, dy) && IsBounds(g, "", b)
    requires forall x, y :: h(x, y) != "" ==> x >= 0 && y >= 0
    ensures IsBounds(h, "", c) && BoxesMatch(AcceptsOf(idef), g, b, h, c)
  {
    BoundsOrdered(g, "", b);
    var y1 :| g(b.minX, y1) != "";
    var y2 :| g(b.maxX, y2) != "";
    var x1 :| g(x1, b.minY) != "";
    var x2 :| g(x2, b.maxY) != "";
    OccupiedTogether(idef, g, h, b.minX, y1, dx, dy);
    OccupiedTogether(idef, g, h, b.maxX, y2, dx, dy);
    OccupiedTogether(idef, g, h, x1, b.minY, dx, dy);
    OccupiedTogether(idef, g, h, x2, b.maxY, dx, dy);
    c := Bounds(b.minX + dx, b.maxX + dx, b.minY + dy, b.maxY + dy);
    forall x, y | h(x, y) != ""
      ensures c.Contains(x, y)
    {
      OccupiedTogether(idef, g, h, x - dx, y - dy, dx, dy);
    }
    forall x, y | b.Offset(x, y)
      ensures CellsMatch(AcceptsOf(idef), g, b, h, c, x, y)
    {
      assert Covers(idef, g, h, b.minX + x, b.minY + y, dx, dy);
    }
  }

  /**
    With the hand in no group, a shaped recipe matches exactly if the input is
    not blank and the recipe can be laid over it so that every cell fits.
   */
  lemma MatchIsOverlay(idef: ItemDefs, inp: seq<string>, iw: nat, rec: seq<string>, rw: nat)
    requires Recipes.EmptyUngrouped(idef)
    ensures GridsMatch(idef, inp, iw, rec, rw) <==>
            && !Blank(NamePlane(inp, iw))
            && exists dx, dy :: FitsOver(idef, NamePlane(inp, iw), NamePlane(rec, rw), dx, dy)
  {
    var g, h := NamePlane(inp, iw), NamePlane(rec, rw);
    if GridsMatch(idef, inp, iw, rec, rw) {
      var b, c :| IsBounds(g, "", b) && IsBounds(h, "", c) && BoxesMatch(AcceptsOf(idef), g, b, h, c);
      BoxesFitOver(idef, g, b, h, c);
      assert exists y :: g(b.minX, y) != "";
    }
    if !Blank(g) && exists dx, dy :: FitsOver(idef, g, h, dx, dy) {
      var dx, dy :| FitsOver(idef, g, h, dx, dy);
      var b := PlaneHasBox(inp, iw);
      PlaneInQuadrant(rec, rw, |rec|, "");
      var c := FitsOverBoxes(idef, g, b, h, dx, dy);
    }
  }
}
