/**
  Which kind of definition is crafted, stated by the kinds themselves: what
  outranks what, which crafting method each kind answers to, and what it gives.
 */
module CraftRanks {
  import opened Names
  import opened Items
  import opened Recipes
  import opened Scan
  import opened CraftManager
  import Shaped
  import Shapeless

  // ---------------------------------------------------------------------------
  // Ranks
  // ---------------------------------------------------------------------------

  predicate ShapedByName(r: Recipe) {
    r.ShapedRecipe? && !HasGroupItem(r.slots)
  }

  /** Given by exact names, but for fuels, which count as such in any case. */
  predicate UnshapedByName(r: Recipe) {
    match r
    case ShapelessRecipe(_, slots) => !HasGroupItem(slots)
    case CookingRecipe(_, slot, _) => !IsGroupRecipe(slot)
    case FuelRecipe(_, _) => true
    case _ => false
  }

  /** Shaped by names comes first, then any shaped recipe, then an unshaped one by names; a repair is last. */
  predicate Outranks(r: Recipe, s: Recipe) {
    || (ShapedByName(r) && !ShapedByName(s))
    || (r.ShapedRecipe? && !s.ShapedRecipe?)
    || (UnshapedByName(r) && !s.ShapedRecipe? && !UnshapedByName(s))
    || (!r.ToolRepair? && s.ToolRepair?)
  }

  lemma OutranksIs(r: Recipe, s: Recipe)
    ensures Outranks(r, s) <==> Priority(r) > Priority(s)
  {
    assert !IsGroupRecipe("");
  }

  /** Definitions found under exact names come before those found by number, and the waiting ones are last. */
  predicate UnderNames(idef: ItemDefs, rs: seq<Recipe>, hashed: nat, k: nat)
    requires k < |rs|
  {
    k < hashed && !rs[k].ToolRepair? && !HasGroupItem(SlotNames(idef, rs[k]))
  }

  predicate Sooner(idef: ItemDefs, rs: seq<Recipe>, hashed: nat, k: nat, j: nat)
    requires k < |rs| && j < |rs|
  {
    || (UnderNames(idef, rs, hashed, k) && !UnderNames(idef, rs, hashed, j))
    || (k < hashed && j >= hashed)
    || (k > j && UnderNames(idef, rs, hashed, k) == UnderNames(idef, rs, hashed, j) && (k < hashed || j >= hashed))
  }

  lemma BeatsIs(crate: CrateDef, rs: seq<Recipe>, hashed: nat, k: nat, j: nat)
    requires k < |rs| && j < |rs|
    ensures Beats(KeysOf(crate, rs, hashed), PrioritiesOf(rs), k, j) <==>
            Outranks(rs[k], rs[j]) || (!Outranks(rs[j], rs[k]) && Sooner(crate.idef, rs, hashed, k, j))
  {
    OutranksIs(rs[k], rs[j]);
    OutranksIs(rs[j], rs[k]);
    var keys := KeysOf(crate, rs, hashed);
    assert keys[k] == KeyAt(crate, rs, hashed, k) && keys[j] == KeyAt(crate, rs, hashed, j);
  }

  /** The search picks the candidate that no other outranks, of equals the one found sooner. */
  lemma WinnerIs(crate: CrateDef, rs: seq<Recipe>, hashed: nat, input: CraftInput, k: nat)
    ensures Winner(crate, rs, hashed, input, k) <==>
            && Candidate(crate, rs, hashed, input, k)
            && forall j: nat :: Candidate(crate, rs, hashed, input, j) && j != k ==>
                 Outranks(rs[k], rs[j]) || (!Outranks(rs[j], rs[k]) && Sooner(crate.idef, rs, hashed, k, j))
  {
    if Candidate(crate, rs, hashed, input, k) {
      forall j: nat | Candidate(crate, rs, hashed, input, j)
        ensures Beats(KeysOf(crate, rs, hashed), PrioritiesOf(rs), k, j) <==>
                Outranks(rs[k], rs[j]) || (!Outranks(rs[j], rs[k]) && Sooner(crate.idef, rs, hashed, k, j))
      {
        BeatsIs(crate, rs, hashed, k, j);
      }
    }
  }

  /** Rank by rank: each kind wins over all that follow. */
  lemma KindsInOrder(crate: CrateDef, rs: seq<Recipe>, hashed: nat, input: CraftInput, k: nat, j: nat)
    requires Winner(crate, rs, hashed, input, k) && Candidate(crate, rs, hashed, input, j)
    ensures ShapedByName(rs[j]) ==> ShapedByName(rs[k])
    ensures rs[j].ShapedRecipe? ==> rs[k].ShapedRecipe?
    ensures UnshapedByName(rs[j]) ==> rs[k].ShapedRecipe? || UnshapedByName(rs[k])
    ensures !rs[j].ToolRepair? ==> !rs[k].ToolRepair?
  {
    WinnerIs(crate, rs, hashed, input, k);
    assert j == k || !Outranks(rs[j], rs[k]);
  }

  // ---------------------------------------------------------------------------
  // What a definition needs and gives
  // ---------------------------------------------------------------------------

  /** Cooking and fuel recipes answer to their own methods only, all others to the normal one only. */
  lemma CraftNeeds(crate: CrateDef, r: Recipe, input: CraftInput)
    requires Crafts(crate, r, input)
    ensures r.CookingRecipe? <==> input.method_ == Cooking
    ensures r.FuelRecipe? <==> input.method_ == Fuel
  {
  }

  /** The item and the time: that of the recipe, none for a fuel, no time for what is not cooked or burnt. */
  lemma CraftGives(crate: CrateDef, r: Recipe, input: CraftInput)
    requires Crafts(crate, r, input)
    ensures var out := Output(crate, r, input);
            && (r.ShapedRecipe? || r.ShapelessRecipe? || r.CookingRecipe? ==> out.item == r.output)
            && (r.FuelRecipe? ==> out.item == "")
            && (r.CookingRecipe? || r.FuelRecipe? ==> out.time == r.time)
            && (input.method_ == Normal ==> out.time == 0.0)
            && crate.idef.IsKnown(crate.idef.nameOf(out.item))
  {
  }

  /** Just one place of the input is occupied, and the slot accepts what is there. */
  ghost predicate OnlyAt(idef: ItemDefs, names: seq<string>, slot: string, i: nat) {
    && i < |names| && names[i] != "" && Matches(idef, names[i], slot)
    && forall j :: 0 <= j < |names| && j != i ==> names[j] == ""
  }

  lemma {:induction false} NoneLeft(names: seq<string>)
    ensures Filter(IsItem, names) == [] <==> forall j :: 0 <= j < |names| ==> names[j] == ""
  {
    if names != [] {
      NoneLeft(names[1..]);
      assert names == [names[0]] + names[1..];
    }
  }

  /** Cooking and burning take exactly one item. */
  lemma {:induction false} SingleIs(idef: ItemDefs, names: seq<string>, slot: string)
    ensures SingleMatch(idef, names, slot) <==> exists i: nat :: OnlyAt(idef, names, slot, i)
  {
    if names != [] {
      var rest := names[1..];
      if names[0] == "" {
        SingleIs(idef, rest, slot);
        if i: nat :| OnlyAt(idef, rest, slot, i) {
          assert OnlyAt(idef, names, slot, i + 1);
        }
        if i: nat :| OnlyAt(idef, names, slot, i) {
          assert OnlyAt(idef, rest, slot, i - 1);
        }
      } else {
        NoneLeft(rest);
        if SingleMatch(idef, names, slot) {
          assert OnlyAt(idef, names, slot, 0);
        }
        if i: nat :| OnlyAt(idef, names, slot, i) {
          assert i == 0;
          assert forall j :: 0 <= j < |rest| ==> rest[j] == names[j + 1];
        }
      }
    }
  }

  // ---------------------------------------------------------------------------
  // Tool repair
  // ---------------------------------------------------------------------------

  /** How often a tool can still be used. */
  function Uses(tool: ItemStack): int {
    65536 - tool.wear
  }

  /** Two tools can be merged if they are single and of one repairable kind. */
  predicate Repairable(crate: CrateDef, a: ItemStack, b: ItemStack) {
    && a.count == 1 && b.count == 1 && a.name == b.name && crate.idef.IsKnown(a.name)
    && crate.idef.GetAlias(a.name) in crate.tools && crate.idef.Rating(a.name, "disable_repair") != 1
  }

  /**
    The merged tool has the uses of both, less the wear that repairing adds,
    but no more than a new tool; if none would be left there is no repair.
    Nothing else about the first tool changes.
   */
  lemma RepairIs(crate: CrateDef, a: ItemStack, b: ItemStack, wearBonus: int)
    ensures var left := Uses(a) + Uses(b) - wearBonus;
            var r := Repaired(crate, a, b, wearBonus);
            && (r.Some? <==> Repairable(crate, a, b) && left > 0)
            && (r.Some? ==> Uses(r.value) == (if left > 65536 then 65536 else left) && r.value.(wear := a.wear) == a)
  {
  }

  /** A repair takes exactly two stacks, and gives the string of what they merge into. */
  lemma RepairTakesTwo(crate: CrateDef, wearBonus: int, input: CraftInput)
    requires Crafts(crate, ToolRepair(wearBonus), input)
    ensures exists i, j :: TwoAt(input.items, i, j) &&
              var r := Repaired(crate, input.items[i], input.items[j], wearBonus);
              r.Some? && Output(crate, ToolRepair(wearBonus), input) == CraftOutput(crate.itemString(r.value), 0.0)
  {
    var i, j := NonEmptyTwo(input.items);
  }

  ghost predicate TwoAt(items: seq<ItemStack>, i: int, j: int) {
    && 0 <= i < j < |items| && items[i].count != 0 && items[j].count != 0
    && forall k :: 0 <= k < |items| && k != i && k != j ==> items[k].count == 0
  }

  lemma {:induction false} NonEmptyNone(items: seq<ItemStack>)
    requires NonEmptyStacks(items) == []
    ensures forall k :: 0 <= k < |items| ==> items[k].count == 0
  {
    if items != [] {
      NonEmptyNone(items[1..]);
      assert items == [items[0]] + items[1..];
    }
  }

  lemma {:induction false} NonEmptyOne(items: seq<ItemStack>) returns (j: nat)
    requires |NonEmptyStacks(items)| == 1
    ensures j < |items| && NonEmptyStacks(items) == [items[j]] && items[j].count != 0
    ensures forall k :: 0 <= k < |items| && k != j ==> items[k].count == 0
  {
    if items[0].count != 0 {
      j := 0;
      NonEmptyNone(items[1..]);
      assert items == [items[0]] + items[1..];
    } else {
      var j' := NonEmptyOne(items[1..]);
      j := j' + 1;
      assert items == [items[0]] + items[1..];
    }
  }

  lemma {:induction false} NonEmptyTwo(items: seq<ItemStack>) returns (i: nat, j: nat)
    requires |NonEmptyStacks(items)| == 2
    ensures TwoAt(items, i, j) && NonEmptyStacks(items) == [items[i], items[j]]
  {
    assert items == [items[0]] + items[1..];
    if items[0].count != 0 {
      var j' := NonEmptyOne(items[1..]);
      i, j := 0, j' + 1;
    } else {
      var i', j' := NonEmptyTwo(items[1..]);
      i, j := i' + 1, j' + 1;
    }
  }

  lemma {:induction false} AllEmptyGiveNone(items: seq<ItemStack>)
    requires forall k :: 0 <= k < |items| ==> items[k].count == 0
    ensures NonEmptyStacks(items) == []
  {
    if items != [] {
      AllEmptyGiveNone(items[1..]);
    }
  }

  lemma {:induction false} OneGivesOne(items: seq<ItemStack>, j: nat)
    requires j < |items| && items[j].count != 0 && forall k :: 0 <= k < |items| && k != j ==> items[k].count == 0
    ensures NonEmptyStacks(items) == [items[j]]
  {
    if j == 0 {
      AllEmptyGiveNone(items[1..]);
    } else {
      OneGivesOne(items[1..], j - 1);
    }
  }

  lemma {:induction false} TwoGiveTwo(items: seq<ItemStack>, i: nat, j: nat)
    requires TwoAt(items, i, j)
    ensures NonEmptyStacks(items) == [items[i], items[j]]
  {
    if i == 0 {
      OneGivesOne(items[1..], j - 1);
    } else {
      TwoGiveTwo(items[1..], i - 1, j - 1);
    }
  }

  // ---------------------------------------------------------------------------
  // What each kind takes
  // ---------------------------------------------------------------------------

  ghost predicate Mergeable(crate: CrateDef, wearBonus: int, items: seq<ItemStack>, i: int, j: int) {
    && TwoAt(items, i, j) && Repairable(crate, items[i], items[j])
    && Uses(items[i]) + Uses(items[j]) > wearBonus
  }

  lemma RepairApplies(crate: CrateDef, wearBonus: int, items: seq<ItemStack>)
    ensures RepairResult(crate, CraftInput(Normal, 0, items), wearBonus).Some? <==>
            exists i, j :: Mergeable(crate, wearBonus, items, i, j)
  {
    if RepairResult(crate, CraftInput(Normal, 0, items), wearBonus).Some? {
      var i, j := NonEmptyTwo(items);
      RepairIs(crate, items[i], items[j], wearBonus);
      assert Mergeable(crate, wearBonus, items, i, j);
    }
    if i, j :| Mergeable(crate, wearBonus, items, i, j) {
      TwoGiveTwo(items, i, j);
      RepairIs(crate, items[i], items[j], wearBonus);
    }
  }

  /**
    Exactly when each kind of definition applies: shaped and shapeless by their
    grids and assignments, a repair to two tools that merge, cooking and burning
    to one item alone.
   */
  lemma AppliesIs(crate: CrateDef, r: Recipe, input: CraftInput)
    ensures Applies(crate, r, input) <==>
            match r
            case ShapedRecipe(_, width, slots) =>
              input.method_ == Normal &&
              Shaped.GridsMatch(crate.idef, input.Names(), input.width, crate.idef.NamesOf(slots), width)
            case ShapelessRecipe(_, slots) =>
              && input.method_ == Normal && |Filter(IsGroupRecipe, crate.idef.NamesOf(slots))| <= 30000
              && Shapeless.Assignable(crate.idef, Filter(IsItem, input.Names()), crate.idef.NamesOf(slots))
            case ToolRepair(wearBonus) =>
              input.method_ == Normal && exists i, j :: Mergeable(crate, wearBonus, input.items, i, j)
            case CookingRecipe(_, slot, _) =>
              input.method_ == Cooking && exists i: nat :: OnlyAt(crate.idef, input.Names(), crate.idef.nameOf(slot), i)
            case FuelRecipe(slot, _) =>
              input.method_ == Fuel && exists i: nat :: OnlyAt(crate.idef, input.Names(), crate.idef.nameOf(slot), i)
  {
    match r
    case ShapedRecipe(_, _, _) =>
    case ShapelessRecipe(_, slots) => Shapeless.SatisfiesUpToLimit(crate.idef, input, crate.idef.NamesOf(slots));
    case ToolRepair(wearBonus) => RepairApplies(crate, wearBonus, input.items);
    case CookingRecipe(_, slot, _) => SingleIs(crate.idef, input.Names(), crate.idef.nameOf(slot));
    case FuelRecipe(slot, _) => SingleIs(crate.idef, input.Names(), crate.idef.nameOf(slot));
  }
}
