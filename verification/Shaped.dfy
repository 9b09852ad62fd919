/**
  Shaped recipes: input and recipe, each trimmed to the bounding box of its
  items, must have the same size and agree cell by cell.
 */
module Shaped {
  import opened Items
  import opened Grid

  ghost function AcceptsOf(idef: ItemDefs): Accepts<string> {
    (inp, rec) => Matches(idef, inp, rec)
  }

  ghost function NamePlane(names: seq<string>, w: nat): Plane<string> {
    PlaneOf(names, w, |names|, "")
  }

  ghost predicate GridsMatch(idef: ItemDefs, inp: seq<string>, iw: nat, rec: seq<string>, rw: nat) {
    PlanesMatch(AcceptsOf(idef), "", NamePlane(inp, iw), NamePlane(rec, rw))
  }

  /** What it means for an input to satisfy a shaped recipe with the given slot names and width. */
  ghost predicate Satisfies(idef: ItemDefs, input: CraftInput, recipe: seq<string>, width: nat) {
    input.method_ == Normal && GridsMatch(idef, input.Names(), input.width, recipe, width)
  }

  /** The name at offset (`x`, `y`) inside the bounding box of a grid. */
  method CellAt(cells: seq<string>, w: nat, b: Bounds, x: nat, y: nat) returns (name: string)
    requires w > 0 && |cells| % w == 0 && IsBounds(NamePlane(cells, w), "", b) && b.Offset(x, y)
    ensures name == NamePlane(cells, w)(b.minX + x, b.minY + y)
  {
    BoxInGrid(cells, w, "", b, b.minX + x, b.minY + y);
    name := cells[(b.minY + y) * w + (b.minX + x)];
  }

  /** One comparison, at offset (`x`, `y`) inside two boxes of the same size. */
  method CheckCell(idef: ItemDefs, inp: seq<string>, iw: nat, bi: Bounds, rec: seq<string>, rw: nat, br: Bounds,
                   x: nat, y: nat) returns (accepted: bool)
    requires iw > 0 && |inp| % iw == 0 && IsBounds(NamePlane(inp, iw), "", bi)
    requires rw > 0 && |rec| % rw == 0 && IsBounds(NamePlane(rec, rw), "", br)
    requires bi.Offset(x, y) && br.Offset(x, y)
    ensures accepted <==> CellsMatch(AcceptsOf(idef), NamePlane(inp, iw), bi, NamePlane(rec, rw), br, x, y)
  {
    var item := CellAt(inp, iw, bi, x, y);
    var slot := CellAt(rec, rw, br, x, y);
    CellsMatchIs(AcceptsOf(idef), NamePlane(inp, iw), bi, NamePlane(rec, rw), br, x, y, item, slot);
    accepted := ItemMatchesRecipe(idef, item, slot);
  }

  /** The double loop over the cells of two boxes, leaving at the first refusal. */
  method CheckBoxes(idef: ItemDefs, inp: seq<string>, iw: nat, bi: Bounds, rec: seq<string>, rw: nat, br: Bounds)
    returns (r: bool)
    requires iw > 0 && |inp| % iw == 0 && IsBounds(NamePlane(inp, iw), "", bi)
    requires rw > 0 && |rec| % rw == 0 && IsBounds(NamePlane(rec, rw), "", br)
    ensures r <==> BoxesMatch(AcceptsOf(idef), NamePlane(inp, iw), bi, NamePlane(rec, rw), br)
  {
    if !SameSize(bi, br) {
      return false;
    }
    ghost var ok, g, h := AcceptsOf(idef), NamePlane(inp, iw), NamePlane(rec, rw);
    BoundsOrdered(g, "", bi);
    var w, height := bi.maxX - bi.minX + 1, bi.maxY - bi.minY + 1;
    for y := 0 to height
      invariant MatchedUpTo(ok, g, bi, h, br, 0, y)
    {
      for x := 0 to w
        invariant MatchedUpTo(ok, g, bi, h, br, x, y)
      {
        var accepted := CheckCell(idef, inp, iw, bi, rec, rw, br, x, y);
        if !accepted {
          return false;
        }
        MatchedNext(ok, g, bi, h, br, x, y);
      }
      MatchedRow(ok, g, bi, h, br, w, y);
    }
    MatchedAll(ok, g, bi, h, br, height);
    return true;
  }

  method Check(idef: ItemDefs, input: CraftInput, recipe: seq<string>, width: nat) returns (r: bool)
    ensures r <==> Satisfies(idef, input, recipe, width)
  {
    if input.method_ != Normal {
      return false;
    }
    var names := input.Names();
    ghost var g, h := NamePlane(names, input.width), NamePlane(recipe, width);
    if input.width == 0 {
      assert AllEmpty(g, "");
      return false;
    }
    var inp := PadRows(names, input.width, "");
    var found, bi := GetBounds(inp, input.width, "");
    SamePlaneSameBounds(g, NamePlane(inp, input.width), "", bi);
    if !found {
      return false;
    }
    if width == 0 {
      assert AllEmpty(h, "");
      return false;
    }
    var rec := PadRows(recipe, width, "");
    var recFound, br := GetBounds(rec, width, "");
    SamePlaneSameBounds(h, NamePlane(rec, width), "", br);
    if !recFound {
      return false;
    }
    r := CheckBoxes(idef, inp, input.width, bi, rec, width, br);
    PlanesMatchByBoxes(AcceptsOf(idef), "", g, bi, h, br);
    SamePlaneSameBoxes(AcceptsOf(idef), g, NamePlane(inp, input.width), bi, h, NamePlane(rec, width), br);
  }

  /** Where the items lie in the crafting grid, and how large that grid is, does not matter. */
  lemma PositionIndependent(idef: ItemDefs, inp: seq<string>, iw: nat, moved: seq<string>, mw: nat, dx: int, dy: int,
                            rec: seq<string>, rw: nat)
    requires Translated(NamePlane(inp, iw), NamePlane(moved, mw), dx, dy)
    ensures GridsMatch(idef, inp, iw, rec, rw) <==> GridsMatch(idef, moved, mw, rec, rw)
  {
    var ok, g, h, pattern := AcceptsOf(idef), NamePlane(inp, iw), NamePlane(moved, mw), NamePlane(rec, rw);
    PlaneInQuadrant(inp, iw, |inp|, "");
    PlaneInQuadrant(moved, mw, |moved|, "");
    TranslationInvariant(ok, "", g, h, dx, dy, pattern);
  }
}
