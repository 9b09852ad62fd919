/**
  The five kinds of crafting definitions: when a definition applies to an
  input, how it ranks, and the hash that decides where it is looked up.
 */
module Recipes {
  import opened Options
  import opened Names
  import opened Items
  import Grid
  import GridCount
  import Shaped
  import Shapeless

  datatype Recipe =
    | ShapedRecipe(output: string, width: nat, slots: seq<string>)
    | ShapelessRecipe(output: string, slots: seq<string>)
    | ToolRepair(wearBonus: int)
    | CookingRecipe(output: string, slot: string, time: real)
    | FuelRecipe(slot: string, time: real)

  datatype CraftOutput = CraftOutput(item: string, time: real)

  /**
    What the definitions ask of their surroundings: the items, which of them
    are tools, the item string of a stack, and the string hash.
   */
  datatype CrateDef = CrateDef(idef: ItemDefs, tools: set<string>, itemString: ItemStack -> string,
                               hash: string -> nat) {
    predicate IsTool(name: string) {
      idef.IsKnown(name) && idef.GetAlias(name) in tools
    }

    /** A result is crafted only if the item it names exists. */
    predicate OutputKnown(out: CraftOutput) {
      idef.IsKnown(idef.nameOf(out.item))
    }
  }

  // ---------------------------------------------------------------------------
  // Priorities and hash layers
  // ---------------------------------------------------------------------------

  const PRIORITY_NO_RECIPE: nat := 0
  const PRIORITY_TOOLREPAIR: nat := 1
  const PRIORITY_SHAPELESS_AND_GROUPS: nat := 2
  const PRIORITY_SHAPELESS: nat := 3
  const PRIORITY_SHAPED_AND_GROUPS: nat := 4
  const PRIORITY_SHAPED: nat := 5

  /**
    The priority is fixed at construction, from the slot strings as given. A
    fuel looks at its resolved slot name, which is still empty at that moment,
    so it never counts as a group recipe.
   */
  function Priority(r: Recipe): nat {
    match r
    case ShapedRecipe(_, _, slots) => if HasGroupItem(slots) then PRIORITY_SHAPED_AND_GROUPS else PRIORITY_SHAPED
    case ShapelessRecipe(_, slots) => if HasGroupItem(slots) then PRIORITY_SHAPELESS_AND_GROUPS else PRIORITY_SHAPELESS
    case ToolRepair(_) => PRIORITY_TOOLREPAIR
    case CookingRecipe(_, slot, _) => if IsGroupRecipe(slot) then PRIORITY_SHAPELESS_AND_GROUPS else PRIORITY_SHAPELESS
    case FuelRecipe(_, _) => if IsGroupRecipe("") then PRIORITY_SHAPELESS_AND_GROUPS else PRIORITY_SHAPELESS
  }

  /** The search layers, in the order in which they are tried. */
  const ITEM_NAMES: nat := 0
  const COUNT: nat := 1
  const UNHASHED: nat := 2

  /** The slot names that hashing keeps. */
  function SlotNames(idef: ItemDefs, r: Recipe): seq<string> {
    match r
    case ShapedRecipe(_, _, slots) => idef.NamesOf(slots)
    case ShapelessRecipe(_, slots) => Sort(idef.NamesOf(slots))
    case ToolRepair(_) => []
    case CookingRecipe(_, slot, _) => [idef.nameOf(slot)]
    case FuelRecipe(slot, _) => [idef.nameOf(slot)]
  }

  function HashType(idef: ItemDefs, r: Recipe): (type_: nat)
    ensures type_ < UNHASHED
  {
    if r.ToolRepair? || HasGroupItem(SlotNames(idef, r)) then COUNT else ITEM_NAMES
  }

  function Join(names: seq<string>): string {
    if names == [] then "" else if |names| == 1 then names[0] else names[0] + "\n" + Join(names[1..])
  }

  /** The hash of the occupied places of a sorted list of names. */
  function GridHash(crate: CrateDef, type_: nat, names: seq<string>): nat {
    if type_ == ITEM_NAMES then crate.hash(Join(Filter(IsItem, names)))
    else if type_ == COUNT then |Filter(IsItem, names)|
    else 0
  }

  /** The hash of a definition whose slot names are `names`, in the layer `type_`. */
  function HashOf(crate: CrateDef, r: Recipe, names: seq<string>, type_: nat): nat {
    match r
    case ShapedRecipe(_, _, _) => GridHash(crate, type_, Sort(names))
    case ShapelessRecipe(_, _) => GridHash(crate, type_, names)
    case ToolRepair(_) => 2
    case CookingRecipe(_, _, _) => if type_ == ITEM_NAMES && |names| > 0 then crate.hash(names[0]) else 1
    case FuelRecipe(_, _) => if type_ == ITEM_NAMES && |names| > 0 then crate.hash(names[0]) else 1
  }

  function RecipeHash(crate: CrateDef, r: Recipe): nat {
    HashOf(crate, r, SlotNames(crate.idef, r), HashType(crate.idef, r))
  }

  function InputHash(crate: CrateDef, input: CraftInput, type_: nat): nat {
    GridHash(crate, type_, Sort(input.Names()))
  }

  // ---------------------------------------------------------------------------
  // When a definition applies
  // ---------------------------------------------------------------------------

  function NonEmptyStacks(items: seq<ItemStack>): (r: seq<ItemStack>)
    ensures |r| <= |items|
  {
    if items == [] then []
    else if items[0].count != 0 then [items[0]] + NonEmptyStacks(items[1..])
    else NonEmptyStacks(items[1..])
  }

  /** Two single tools of the same kind merge into one; wear counts upwards to 65536. */
  function Repaired(crate: CrateDef, a: ItemStack, b: ItemStack, wearBonus: int): Option<ItemStack> {
    if a.count != 1 || b.count != 1 || a.name != b.name || !crate.IsTool(a.name)
      || crate.idef.Rating(a.name, "disable_repair") == 1
    then None
    else
      var uses := (65536 - a.wear as int) + (65536 - b.wear as int);
      var wear := 65536 - uses + wearBonus;
      if wear >= 65536 then None else Some(a.(wear := if wear < 0 then 0 else wear))
  }

  function RepairResult(crate: CrateDef, input: CraftInput, wearBonus: int): Option<ItemStack> {
    var stacks := NonEmptyStacks(input.items);
    if |stacks| == 2 then Repaired(crate, stacks[0], stacks[1], wearBonus) else None
  }

  ghost predicate SingleMatch(idef: ItemDefs, names: seq<string>, slot: string) {
    var items := Filter(IsItem, names);
    |items| == 1 && Matches(idef, items[0], slot)
  }

  ghost predicate Applies(crate: CrateDef, r: Recipe, input: CraftInput) {
    match r
    case ShapedRecipe(_, width, slots) => Shaped.Satisfies(crate.idef, input, crate.idef.NamesOf(slots), width)
    case ShapelessRecipe(_, slots) => Shapeless.Satisfies(crate.idef, input, crate.idef.NamesOf(slots))
    case ToolRepair(wearBonus) => input.method_ == Normal && RepairResult(crate, input, wearBonus).Some?
    case CookingRecipe(_, slot, _) => input.method_ == Cooking &&
        SingleMatch(crate.idef, input.Names(), crate.idef.nameOf(slot))
    case FuelRecipe(slot, _) => input.method_ == Fuel && SingleMatch(crate.idef, input.Names(), crate.idef.nameOf(slot))
  }

  function Output(crate: CrateDef, r: Recipe, input: CraftInput): CraftOutput {
    match r
    case ShapedRecipe(output, _, _) => CraftOutput(output, 0.0)
    case ShapelessRecipe(output, _) => CraftOutput(output, 0.0)
    case ToolRepair(wearBonus) =>
      (match RepairResult(crate, input, wearBonus)
       case Some(stack) => CraftOutput(crate.itemString(stack), 0.0)
       case None => CraftOutput("", 0.0))
    case CookingRecipe(output, _, time) => CraftOutput(output, time)
    case FuelRecipe(_, time) => CraftOutput("", time)
  }

  /** The definition applies and its result exists. */
  ghost predicate Crafts(crate: CrateDef, r: Recipe, input: CraftInput) {
    Applies(crate, r, input) && crate.OutputKnown(Output(crate, r, input))
  }

  // ---------------------------------------------------------------------------
  // A definition that applies has the hash of the input
  // ---------------------------------------------------------------------------

  /** No group slot accepts an empty place: the item with the empty name, the hand, is in no group. */
  ghost predicate EmptyUngrouped(idef: ItemDefs) {
    forall rec :: IsGroupRecipe(rec) ==> !Matches(idef, "", rec)
  }

  lemma HandWithoutGroups(idef: ItemDefs)
    requires idef.IsKnown("") ==> forall group :: idef.Rating("", group) == 0
    ensures EmptyUngrouped(idef)
  {
    forall rec | IsGroupRecipe(rec)
      ensures !Matches(idef, "", rec)
    {
      if idef.IsKnown("") {
        var wanted := GroupList(rec[6..]);
        assert idef.Rating("", wanted[0]) == 0;
      }
    }
  }

  /** Under that condition, a slot is empty exactly when what it accepts is. */
  lemma EmptyMatches(idef: ItemDefs, inp: string, rec: string)
    requires EmptyUngrouped(idef) && Matches(idef, inp, rec)
    ensures inp == "" <==> rec == ""
  {
    assert !IsGroupRecipe("");
  }

  lemma SameItemsSameSorted(a: seq<string>, b: seq<string>)
    requires multiset(Filter(IsItem, a)) == multiset(Filter(IsItem, b))
    ensures Filter(IsItem, Sort(a)) == Filter(IsItem, Sort(b))
  {
    SortedFilter(a);
    SortedFilter(b);
    SortedIsUnique(Filter(IsItem, Sort(a)), Filter(IsItem, Sort(b)));
  }

  lemma SortedFilter(a: seq<string>)
    ensures Sorted(Filter(IsItem, Sort(a)))
    ensures multiset(Filter(IsItem, Sort(a))) == multiset(Filter(IsItem, a))
    ensures |Filter(IsItem, Sort(a))| == |Filter(IsItem, a)|
  {
    FilterKeepsSorted(IsItem, Sort(a));
    FilterMultiset(IsItem, Sort(a));
    FilterMultiset(IsItem, a);
    var f, g := Filter(IsItem, Sort(a)), Filter(IsItem, a);
    assert multiset(f) == multiset(g);
    assert |f| == |multiset(f)| && |g| == |multiset(g)|;
  }

  // -- shaped ------------------------------------------------------------------

  lemma {:induction false} WhereIsFilter(names: seq<string>, p: string -> bool)
    ensures |GridCount.Where(names, p)| == |Filter(p, names)|
  {
    if names == [] {
      assert GridCount.Where(names, p) == {};
    } else {
      var tail := names[1..];
      WhereIsFilter(tail, p);
      var shifted := set i | i in GridCount.Where(tail, p) :: i + 1;
      ShiftSize(GridCount.Where(tail, p));
      assert GridCount.Where(names, p) == shifted + if p(names[0]) then {0} else {} by {
        forall i
          ensures i in GridCount.Where(names, p) <==> i in shifted || (i == 0 && p(names[0]))
        {
          if i in GridCount.Where(names, p) && i > 0 {
            assert i - 1 in GridCount.Where(tail, p);
          }
        }
      }
    }
  }

  lemma {:induction false} ShiftSize(s: set<int>)
    ensures |set i | i in s :: i + 1| == |s|
  {
    if forall i :: i !in s {
      assert s == {};
    } else {
      var i :| i in s;
      ShiftSize(s - {i});
      var all, rest := set j | j in s :: j + 1, set j | j in s - {i} :: j + 1;
      forall y | y in all
        ensures y in rest + {i + 1}
      {
        var j :| j in s && y == j + 1;
        assert j == i || j in s - {i};
      }
      assert all == rest + {i + 1};
    }
  }

  lemma TurnedBoxes(ok: Grid.Accepts<string>, back: Grid.Accepts<string>, g: Grid.Plane<string>, b: Grid.Bounds,
                    h: Grid.Plane<string>, c: Grid.Bounds)
    requires Grid.BoxesMatch(ok, g, b, h, c) && forall s, t :: back(t, s) == ok(s, t)
    ensures Grid.BoxesMatch(back, h, c, g, b)
  {
    forall x, y | c.Offset(x, y)
      ensures Grid.CellsMatch(back, h, c, g, b, x, y)
    {
      assert Grid.CellsMatch(ok, g, b, h, c, x, y);
    }
  }

  /** Boxes that match both ways hold equally many of what acceptance keeps. */
  lemma BoxesSameCount(ok: Grid.Accepts<string>, back: Grid.Accepts<string>, inp: seq<string>, iw: nat, b: Grid.Bounds,
                       rec: seq<string>, rw: nat, c: Grid.Bounds, p: string -> bool)
    requires Grid.IsBounds(Shaped.NamePlane(inp, iw), "", b) && Grid.IsBounds(Shaped.NamePlane(rec, rw), "", c)
    requires Grid.BoxesMatch(ok, Shaped.NamePlane(inp, iw), b, Shaped.NamePlane(rec, rw), c)
    requires Grid.BoxesMatch(back, Shaped.NamePlane(rec, rw), c, Shaped.NamePlane(inp, iw), b)
    requires !p("") && forall s, t :: p(s) && (ok(s, t) || back(s, t)) ==> p(t)
    ensures |Filter(p, inp)| == |Filter(p, rec)|
  {
    GridCount.CountTransfer(ok, "", inp, iw, b, rec, rw, c, p, p);
    GridCount.CountTransfer(back, "", rec, rw, c, inp, iw, b, p, p);
    WhereIsFilter(inp, p);
    WhereIsFilter(rec, p);
  }

  lemma ShapedTransfer(idef: ItemDefs, inp: seq<string>, iw: nat, rec: seq<string>, rw: nat, p: string -> bool)
    requires Shaped.GridsMatch(idef, inp, iw, rec, rw) && !p("")
    requires forall s, t :: Matches(idef, s, t) ==> (p(s) <==> p(t))
    ensures |Filter(p, inp)| == |Filter(p, rec)|
  {
    var ok := Shaped.AcceptsOf(idef);
    var g, h := Shaped.NamePlane(inp, iw), Shaped.NamePlane(rec, rw);
    var b, c :| Grid.IsBounds(g, "", b) && Grid.IsBounds(h, "", c) && Grid.BoxesMatch(ok, g, b, h, c);
    var back: Grid.Accepts<string> := (s, t) => ok(t, s);
    TurnedBoxes(ok, back, g, b, h, c);
    BoxesSameCount(ok, back, inp, iw, b, rec, rw, c, p);
  }

  lemma ShapedSameCount(idef: ItemDefs, inp: seq<string>, iw: nat, rec: seq<string>, rw: nat)
    requires EmptyUngrouped(idef) && Shaped.GridsMatch(idef, inp, iw, rec, rw)
    ensures |Filter(IsItem, inp)| == |Filter(IsItem, rec)|
  {
    forall s, t | Matches(idef, s, t)
      ensures IsItem(s) <==> IsItem(t)
    {
      EmptyMatches(idef, s, t);
    }
    ShapedTransfer(idef, inp, iw, rec, rw, IsItem);
  }

  /** All shaped slots ask for exact names: then the grids hold the same items. */
  lemma ShapedSameItems(idef: ItemDefs, inp: seq<string>, iw: nat, rec: seq<string>, rw: nat)
    requires Shaped.GridsMatch(idef, inp, iw, rec, rw) && !HasGroupItem(rec)
    ensures multiset(Filter(IsItem, inp)) == multiset(Filter(IsItem, rec))
  {
    forall x: string
      ensures multiset(Filter(IsItem, inp))[x] == multiset(Filter(IsItem, rec))[x]
    {
      FilterMultiset(IsItem, inp);
      FilterMultiset(IsItem, rec);
      if IsItem(x) {
        ShapedSameMultiplicity(idef, inp, iw, rec, rw, x);
      }
    }
  }

  lemma CountOf(names: seq<string>, x: string)
    ensures |Filter(y => y == x, names)| == multiset(names)[x]
  {
    FilterMultiset(y => y == x, names);
    var f := Filter(y => y == x, names);
    assert multiset(f) == multiset{}[x := multiset(names)[x]];
    assert |f| == |multiset(f)|;
  }

  lemma ShapedSameMultiplicity(idef: ItemDefs, inp: seq<string>, iw: nat, rec: seq<string>, rw: nat, x: string)
    requires Shaped.GridsMatch(idef, inp, iw, rec, rw) && !HasGroupItem(rec) && IsItem(x)
    ensures multiset(inp)[x] == multiset(rec)[x]
  {
    CountOf(inp, x);
    CountOf(rec, x);
    ShapedTransferPlain(idef, inp, iw, rec, rw, y => y == x);
  }

  const SAME: Grid.Accepts<string> := (s, t) => s == t

  /** Where a plane names no groups, the matching boxes hold equal names. */
  lemma PlainBoxes(idef: ItemDefs, g: Grid.Plane<string>, b: Grid.Bounds, h: Grid.Plane<string>, c: Grid.Bounds)
    requires Grid.BoxesMatch(Shaped.AcceptsOf(idef), g, b, h, c) && forall x, y :: IsPlainRecipe(h(x, y))
    ensures Grid.BoxesMatch(SAME, g, b, h, c) && Grid.BoxesMatch(SAME, h, c, g, b)
  {
    forall x, y | b.Offset(x, y)
      ensures Grid.CellsMatch(SAME, g, b, h, c, x, y) && Grid.CellsMatch(SAME, h, c, g, b, x, y)
    {
      var s, t := g(b.minX + x, b.minY + y), h(c.minX + x, c.minY + y);
      assert Grid.CellsMatch(Shaped.AcceptsOf(idef), g, b, h, c, x, y);
      PlainMatches(idef, s, t);
      Grid.CellsMatchIs(SAME, g, b, h, c, x, y, s, t);
      Grid.CellsMatchIs(SAME, h, c, g, b, x, y, t, s);
    }
  }

  lemma PlainPlane(rec: seq<string>, rw: nat)
    requires !HasGroupItem(rec)
    ensures forall x, y :: IsPlainRecipe(Shaped.NamePlane(rec, rw)(x, y))
  {
  }

  /** As `ShapedTransfer`, for recipes without groups, where accepting means being equal. */
  lemma ShapedTransferPlain(idef: ItemDefs, inp: seq<string>, iw: nat, rec: seq<string>, rw: nat, p: string -> bool)
    requires Shaped.GridsMatch(idef, inp, iw, rec, rw) && !HasGroupItem(rec) && !p("")
    ensures |Filter(p, inp)| == |Filter(p, rec)|
  {
    var g, h := Shaped.NamePlane(inp, iw), Shaped.NamePlane(rec, rw);
    var b, c :| Grid.IsBounds(g, "", b) && Grid.IsBounds(h, "", c) &&
        Grid.BoxesMatch(Shaped.AcceptsOf(idef), g, b, h, c);
    PlainPlane(rec, rw);
    PlainBoxes(idef, g, b, h, c);
    BoxesSameCount(SAME, SAME, inp, iw, b, rec, rw, c, p);
  }

  lemma ShapedHashByNames(crate: CrateDef, inp: seq<string>, iw: nat, rec: seq<string>, rw: nat)
    requires Shaped.GridsMatch(crate.idef, inp, iw, rec, rw) && !HasGroupItem(rec)
    ensures GridHash(crate, ITEM_NAMES, Sort(inp)) == GridHash(crate, ITEM_NAMES, Sort(rec))
  {
    ShapedSameItems(crate.idef, inp, iw, rec, rw);
    SameItemsSameSorted(inp, rec);
  }

  lemma ShapedHashByCount(crate: CrateDef, inp: seq<string>, iw: nat, rec: seq<string>, rw: nat)
    requires EmptyUngrouped(crate.idef) && Shaped.GridsMatch(crate.idef, inp, iw, rec, rw)
    ensures GridHash(crate, COUNT, Sort(inp)) == GridHash(crate, COUNT, Sort(rec))
  {
    ShapedSameCount(crate.idef, inp, iw, rec, rw);
    SortedFilter(inp);
    SortedFilter(rec);
  }

  lemma ShapedGridHash(crate: CrateDef, inp: seq<string>, iw: nat, rec: seq<string>, rw: nat)
    requires EmptyUngrouped(crate.idef) && Shaped.GridsMatch(crate.idef, inp, iw, rec, rw)
    ensures var type_ := if HasGroupItem(rec) then COUNT else ITEM_NAMES;
            GridHash(crate, type_, Sort(inp)) == GridHash(crate, type_, Sort(rec))
  {
    if HasGroupItem(rec) {
      ShapedHashByCount(crate, inp, iw, rec, rw);
    } else {
      ShapedHashByNames(crate, inp, iw, rec, rw);
    }
  }

  lemma ShapedHash(crate: CrateDef, r: Recipe, input: CraftInput)
    requires r.ShapedRecipe? && EmptyUngrouped(crate.idef) && Applies(crate, r, input)
    ensures InputHash(crate, input, HashType(crate.idef, r)) == RecipeHash(crate, r)
  {
    ShapedGridHash(crate, input.Names(), input.width, crate.idef.NamesOf(r.slots), r.width);
  }

  // -- shapeless ---------------------------------------------------------------

  lemma AssignableSlots(idef: ItemDefs, items: seq<string>, slots: seq<string>)
    requires Shapeless.Assignable(idef, items, slots)
    requires forall i :: 0 <= i < |items| ==> items[i] != ""
    ensures |items| == |slots|
    ensures "" !in slots
    ensures !HasGroupItem(slots) ==> multiset(items) == multiset(slots)
  {
    Shapeless.AssignableIsPairable(idef, items, slots);
    var a, t :| Shapeless.Rearranges(idef, items, slots, a, t);
    assert |items| == |multiset(items)| && |slots| == |multiset(slots)| && |a| == |multiset(a)| && |t| == |multiset(t)|;
    forall i | 0 <= i < |t|
      ensures t[i] != ""
    {
      assert a[i] in multiset(items) && Matches(idef, a[i], t[i]);
    }
    assert "" !in multiset(t);
    if !HasGroupItem(slots) {
      forall i | 0 <= i < |t|
        ensures IsPlainRecipe(t[i])
      {
        assert t[i] in multiset(slots);
      }
      Shapeless.AlignedPlain(idef, a, t);
    }
  }

  lemma ItemsAreNamed(names: seq<string>)
    ensures forall i :: 0 <= i < |Filter(IsItem, names)| ==> Filter(IsItem, names)[i] != ""
  {
    FilterMultiset(IsItem, names);
    forall i | 0 <= i < |Filter(IsItem, names)|
      ensures Filter(IsItem, names)[i] != ""
    {
      assert Filter(IsItem, names)[i] in multiset(Filter(IsItem, names));
    }
  }

  lemma {:induction false} FilterAll(p: string -> bool, names: seq<string>)
    requires forall i :: 0 <= i < |names| ==> p(names[i])
    ensures Filter(p, names) == names
  {
    if names != [] {
      FilterAll(p, names[1..]);
    }
  }

  lemma ShapelessHash(crate: CrateDef, r: Recipe, input: CraftInput)
    requires r.ShapelessRecipe? && Applies(crate, r, input)
    ensures InputHash(crate, input, HashType(crate.idef, r)) == RecipeHash(crate, r)
  {
    var inp, slots := input.Names(), crate.idef.NamesOf(r.slots);
    var items := Filter(IsItem, inp);
    ItemsAreNamed(inp);
    AssignableSlots(crate.idef, items, slots);
    FilterAll(IsItem, slots);
    SortedFilter(inp);
    SortedFilter(slots);
    SortKeepsGroups(slots);
    if !HasGroupItem(slots) {
      SameItemsSameSorted(inp, slots);
    }
  }

  lemma SortKeepsGroups(slots: seq<string>)
    ensures HasGroupItem(Sort(slots)) <==> HasGroupItem(slots)
  {
    if HasGroupItem(slots) {
      var i :| 0 <= i < |slots| && IsGroupRecipe(slots[i]);
      assert slots[i] in multiset(Sort(slots));
    }
    if HasGroupItem(Sort(slots)) {
      var i :| 0 <= i < |Sort(slots)| && IsGroupRecipe(Sort(slots)[i]);
      assert Sort(slots)[i] in multiset(slots);
    }
  }

  // -- the others --------------------------------------------------------------

  lemma SingleHash(crate: CrateDef, input: CraftInput, name: string)
    requires SingleMatch(crate.idef, input.Names(), name)
    ensures InputHash(crate, input, COUNT) == 1
    ensures IsPlainRecipe(name) ==> InputHash(crate, input, ITEM_NAMES) == crate.hash(name)
  {
    var inp := input.Names();
    SortedFilter(inp);
    var f, items := Filter(IsItem, Sort(inp)), Filter(IsItem, inp);
    assert f == [f[0]] && items == [items[0]];
    assert f[0] in multiset(items);
    if IsPlainRecipe(name) {
      PlainMatches(crate.idef, items[0], name);
    }
  }

  lemma {:induction false} StacksAreItems(items: seq<ItemStack>, names: seq<string>)
    requires |names| == |items| && forall i :: 0 <= i < |items| ==> names[i] == items[i].name
    requires forall i :: 0 <= i < |items| ==> (items[i].name == "" <==> items[i].count == 0)
    ensures |NonEmptyStacks(items)| == |Filter(IsItem, names)|
  {
    if items != [] {
      StacksAreItems(items[1..], names[1..]);
    }
  }

  /**
    Looking a definition up by the hash of the input cannot miss it: a
    definition that applies is filed under that hash, in its own layer.
   */
  lemma AppliesImpliesHash(crate: CrateDef, r: Recipe, input: CraftInput)
    requires EmptyUngrouped(crate.idef) && CleanStacks(input) && Applies(crate, r, input)
    ensures InputHash(crate, input, HashType(crate.idef, r)) == RecipeHash(crate, r)
  {
    match r
    case ShapedRecipe(_, _, _) => ShapedHash(crate, r, input);
    case ShapelessRecipe(_, _) => ShapelessHash(crate, r, input);
    case ToolRepair(_) =>
      StacksAreItems(input.items, input.Names());
      SortedFilter(input.Names());
    case CookingRecipe(_, slot, _) => SingleHash(crate, input, crate.idef.nameOf(slot));
    case FuelRecipe(slot, _) => SingleHash(crate, input, crate.idef.nameOf(slot));
  }

  /** The condition is the exact one: otherwise some shaped recipe accepts a grid with fewer items than slots. */
  lemma EmptyUngroupedIsExact(idef: ItemDefs)
    ensures EmptyUngrouped(idef) <==>
            forall inp, iw, rec, rw :: Shaped.GridsMatch(idef, inp, iw, rec, rw) ==>
              |Filter(IsItem, inp)| == |Filter(IsItem, rec)|
  {
    if EmptyUngrouped(idef) {
      forall inp, iw, rec, rw | Shaped.GridsMatch(idef, inp, iw, rec, rw)
        ensures |Filter(IsItem, inp)| == |Filter(IsItem, rec)|
      {
        ShapedSameCount(idef, inp, iw, rec, rw);
      }
    } else {
      var rec :| IsGroupRecipe(rec) && Matches(idef, "", rec);
      var inp, slots := GroupedHandMismatch(idef, rec);
    }
  }

  lemma GroupedHandMismatch(idef: ItemDefs, rec: string) returns (inp: seq<string>, slots: seq<string>)
    requires IsGroupRecipe(rec) && Matches(idef, "", rec)
    ensures Shaped.GridsMatch(idef, inp, 3, slots, 3)
    ensures |Filter(IsItem, inp)| != |Filter(IsItem, slots)|
  {
    inp, slots := ["a", "", "a"], ["a", rec, "a"];
    RowsMatch(idef, inp, slots);
    FilterThree(inp);
    FilterThree(slots);
  }

  /** Every group string is what some slot string denotes. */
  ghost predicate GroupsReached(idef: ItemDefs) {
    forall rec :: IsGroupRecipe(rec) ==> exists s :: idef.nameOf(s) == rec
  }

  /** A stack of one item for a name, nothing for the empty name. */
  function StackOf(name: string): ItemStack {
    ItemStack(name, if name == "" then 0 else 1, 0, map[])
  }

  /** A shaped recipe with a group is filed under the number of its slots, and looked up under that of the items. */
  lemma GroupedShapedHash(crate: CrateDef, r: Recipe, names: seq<string>, input: CraftInput, inp: seq<string>)
    requires r.ShapedRecipe? && names == crate.idef.NamesOf(r.slots) && HasGroupItem(names) && inp == input.Names()
    requires input.method_ == Normal && Shaped.GridsMatch(crate.idef, inp, input.width, names, r.width)
    ensures Applies(crate, r, input)
    ensures RecipeHash(crate, r) == GridHash(crate, COUNT, Sort(names))
    ensures InputHash(crate, input, HashType(crate.idef, r)) == GridHash(crate, COUNT, Sort(inp))
  {
  }

  /** If the hand is in the group `rec`, the recipe of that group between two items applies without anything in it. */
  lemma HandHidesRecipe(crate: CrateDef, rec: string, slot: string, item: string, itemSlot: string)
    returns (r: Recipe, input: CraftInput)
    requires IsGroupRecipe(rec) && Matches(crate.idef, "", rec) && crate.idef.nameOf(slot) == rec
    requires IsItem(item) && crate.idef.nameOf(itemSlot) == item
    ensures r == ShapedRecipe("", 3, [itemSlot, slot, itemSlot])
    ensures input == CraftInput(Normal, 3, [StackOf(item), StackOf(""), StackOf(item)])
    ensures CleanStacks(input) && Applies(crate, r, input)
    ensures InputHash(crate, input, HashType(crate.idef, r)) != RecipeHash(crate, r)
  {
    r := ShapedRecipe("", 3, [itemSlot, slot, itemSlot]);
    input := CraftInput(Normal, 3, [StackOf(item), StackOf(""), StackOf(item)]);
    var names, inp := RowNames(crate, r, input, rec, slot, item, itemSlot);
    HandRow(crate, r, names, input, inp);
  }

  lemma HandRow(crate: CrateDef, r: Recipe, names: seq<string>, input: CraftInput, inp: seq<string>)
    requires r.ShapedRecipe? && r.width == 3 && names == crate.idef.NamesOf(r.slots) && HasGroupItem(names)
    requires input.method_ == Normal && input.width == 3 && inp == input.Names()
    requires |names| == |inp| == 3 && inp[0] == names[0] != "" && inp[1] == "" != names[1] && inp[2] == names[2] != ""
    requires Matches(crate.idef, inp[1], names[1])
    ensures Applies(crate, r, input) && InputHash(crate, input, HashType(crate.idef, r)) != RecipeHash(crate, r)
  {
    RowsMatch(crate.idef, inp, names);
    HandHash(crate, inp, names);
    GroupedShapedHash(crate, r, names, input, inp);
  }

  lemma RowNames(crate: CrateDef, r: Recipe, input: CraftInput, rec: string, slot: string, item: string,
                 itemSlot: string)
    returns (names: seq<string>, inp: seq<string>)
    requires r == ShapedRecipe("", 3, [itemSlot, slot, itemSlot]) && IsGroupRecipe(rec)
    requires input == CraftInput(Normal, 3, [StackOf(item), StackOf(""), StackOf(item)])
    requires crate.idef.nameOf(slot) == rec && crate.idef.nameOf(itemSlot) == item && IsItem(item)
    ensures names == crate.idef.NamesOf(r.slots) && inp == input.Names() && HasGroupItem(names)
    ensures |names| == |inp| == 3 && names[0] == item && names[1] == rec && names[2] == item
    ensures inp[0] == item && inp[1] == "" && inp[2] == item && CleanStacks(input)
  {
    names, inp := crate.idef.NamesOf(r.slots), input.Names();
    assert names[1] == rec;
  }

  lemma HandHash(crate: CrateDef, inp: seq<string>, names: seq<string>)
    requires |inp| == |names| == 3 && inp[0] != "" && inp[1] == "" && inp[2] != ""
    requires names[0] != "" && names[1] != "" && names[2] != ""
    ensures GridHash(crate, COUNT, Sort(inp)) == 2 && GridHash(crate, COUNT, Sort(names)) == 3
  {
    FilterThree(inp);
    FilterThree(names);
    SortedFilter(inp);
    SortedFilter(names);
  }

  /** The index hides no recipe from an input it applies to, exactly if the hand is in no group. */
  lemma NothingHiddenIff(crate: CrateDef)
    requires GroupsReached(crate.idef)
    ensures EmptyUngrouped(crate.idef) <==>
            forall r, input :: CleanStacks(input) && Applies(crate, r, input) ==>
              InputHash(crate, input, HashType(crate.idef, r)) == RecipeHash(crate, r)
  {
    if EmptyUngrouped(crate.idef) {
      forall r, input | CleanStacks(input) && Applies(crate, r, input)
        ensures InputHash(crate, input, HashType(crate.idef, r)) == RecipeHash(crate, r)
      {
        AppliesImpliesHash(crate, r, input);
      }
    } else {
      var rec :| IsGroupRecipe(rec) && Matches(crate.idef, "", rec);
      var slot :| crate.idef.nameOf(slot) == rec;
      var r, input := HandHidesRecipe(crate, rec, slot, rec, slot);
    }
  }

  lemma RowsMatch(idef: ItemDefs, inp: seq<string>, slots: seq<string>)
    requires |inp| == |slots| == 3
    requires inp[0] == slots[0] != "" && inp[2] == slots[2] != "" && Matches(idef, inp[1], slots[1])
    ensures Shaped.GridsMatch(idef, inp, 3, slots, 3)
  {
    var b := Grid.Bounds(0, 2, 0, 0);
    var ok, g, h := Shaped.AcceptsOf(idef), Shaped.NamePlane(inp, 3), Shaped.NamePlane(slots, 3);
    RowBounds(inp);
    RowBounds(slots);
    RowsAllMatch(idef, inp, slots);
    Grid.PlanesMatchByBoxes(ok, "", g, b, h, b);
  }

  lemma RowsAllMatch(idef: ItemDefs, inp: seq<string>, slots: seq<string>)
    requires |inp| == |slots| == 3
    requires forall x :: 0 <= x < 3 ==> Matches(idef, inp[x], slots[x])
    ensures var b := Grid.Bounds(0, 2, 0, 0);
            Grid.AllMatch(Shaped.AcceptsOf(idef), Shaped.NamePlane(inp, 3), b, Shaped.NamePlane(slots, 3), b)
  {
    var b := Grid.Bounds(0, 2, 0, 0);
    var ok, g, h := Shaped.AcceptsOf(idef), Shaped.NamePlane(inp, 3), Shaped.NamePlane(slots, 3);
    forall x, y | b.Offset(x, y)
      ensures Grid.CellsMatch(ok, g, b, h, b, x, y)
    {
      RowCellsMatch(idef, inp, slots, x);
    }
  }

  lemma RowCellsMatch(idef: ItemDefs, inp: seq<string>, slots: seq<string>, x: nat)
    requires |inp| == |slots| == 3 && x < 3 && Matches(idef, inp[x], slots[x])
    ensures var b := Grid.Bounds(0, 2, 0, 0);
            Grid.CellsMatch(Shaped.AcceptsOf(idef), Shaped.NamePlane(inp, 3), b, Shaped.NamePlane(slots, 3), b, x, 0)
  {
    RowCell(inp, x);
    RowCell(slots, x);
  }

  lemma RowCell(names: seq<string>, x: nat)
    requires |names| == 3 && x < 3
    ensures Shaped.NamePlane(names, 3)(x, 0) == names[x]
  {
  }

  lemma RowBounds(names: seq<string>)
    requires |names| == 3 && names[0] != "" && names[2] != ""
    ensures Grid.IsBounds(Shaped.NamePlane(names, 3), "", Grid.Bounds(0, 2, 0, 0))
  {
    var g := Shaped.NamePlane(names, 3);
    RowCell(names, 0);
    RowCell(names, 2);
    assert Grid.Index(3, 0, 1) == 3;
    forall x, y | g(x, y) != ""
      ensures 0 <= x <= 2 && y == 0
    {
      Grid.IndexBetween(3, x, y, 1);
    }
  }

  lemma FilterThree(names: seq<string>)
    requires |names| == 3 && names[0] != "" && names[2] != ""
    ensures |Filter(IsItem, names)| == if names[1] == "" then 2 else 3
  {
    var tail := names[1..];
    var last := tail[1..];
    assert last == [names[2]] && |Filter(IsItem, last)| == 1;
    assert tail[0] == names[1] && |Filter(IsItem, tail)| == if names[1] == "" then 1 else 2;
  }
}
