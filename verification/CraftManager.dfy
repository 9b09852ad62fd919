/**
  The crafting definition manager. Definitions wait in an unhashed layer until
  all items are known, then move to hash-indexed layers; a craft looks only at
  the definitions filed under the hash of the input. Proved here: the layered
  search finds what a plain scan over all registered definitions would find.
 */
module CraftManager {
  import opened Names
  import opened Items
  import opened Recipes
  import opened Filing
  import opened Scan
  import Shaped
  import Shapeless

  // ---------------------------------------------------------------------------
  // The choice among all registered definitions, as a statement about recipes
  // ---------------------------------------------------------------------------

  /** Where a definition is filed once hashed, and where it waits until then. */
  function KeyOf(crate: CrateDef, r: Recipe): Key {
    Key(HashType(crate.idef, r), RecipeHash(crate, r))
  }

  const WAITING: Key := Key(UNHASHED, 0)

  /** The key of the `k`-th registered definition when the first `hashed` have been moved. */
  function KeyAt(crate: CrateDef, rs: seq<Recipe>, hashed: nat, k: nat): Key
    requires k < |rs|
  {
    if k < hashed then KeyOf(crate, rs[k]) else WAITING
  }

  ghost function KeysOf(crate: CrateDef, rs: seq<Recipe>, hashed: nat): (keys: seq<Key>)
    ensures |keys| == |rs|
    ensures forall k :: 0 <= k < |rs| ==> keys[k] == KeyAt(crate, rs, hashed, k)
  {
    seq(|rs|, k requires 0 <= k < |rs| => KeyAt(crate, rs, hashed, k))
  }

  ghost function PrioritiesOf(rs: seq<Recipe>): (prios: seq<nat>)
    ensures |prios| == |rs|
    ensures forall k :: 0 <= k < |rs| ==> prios[k] == Priority(rs[k]) > PRIORITY_NO_RECIPE
  {
    seq(|rs|, k requires 0 <= k < |rs| => Priority(rs[k]))
  }

  /** The definition crafts from the input, and the search gets to see it. */
  ghost predicate Candidate(crate: CrateDef, rs: seq<Recipe>, hashed: nat, input: CraftInput, k: nat) {
    && k < |rs|
    && Crafts(crate, rs[k], input)
    && KeyAt(crate, rs, hashed, k).hash == InputHash(crate, input, KeyAt(crate, rs, hashed, k).layer)
  }

  ghost function Candidates(crate: CrateDef, rs: seq<Recipe>, hashed: nat, input: CraftInput): (cand: set<nat>)
    ensures forall k: nat :: k in cand <==> Candidate(crate, rs, hashed, input, k)
  {
    set k: nat | 0 <= k < |rs| && Candidate(crate, rs, hashed, input, k)
  }

  /** The candidate of highest priority; among equals, that of the earlier layer, then the last registered. */
  ghost predicate Winner(crate: CrateDef, rs: seq<Recipe>, hashed: nat, input: CraftInput, k: nat) {
    WinnerAmong(KeysOf(crate, rs, hashed), PrioritiesOf(rs), Candidates(crate, rs, hashed, input), k)
  }

  /** The reference: scan everything, keep the highest priority, and of equals the last registered. */
  ghost predicate LinearWinner(crate: CrateDef, rs: seq<Recipe>, input: CraftInput, k: nat) {
    && k < |rs| && Crafts(crate, rs[k], input)
    && forall j: nat :: j < |rs| && Crafts(crate, rs[j], input) && j != k ==>
         Priority(rs[k]) > Priority(rs[j]) || (Priority(rs[k]) == Priority(rs[j]) && k > j)
  }

  /** With the hand in no group, the search sees every definition that crafts. */
  lemma EveryCraftIsCandidate(crate: CrateDef, rs: seq<Recipe>, hashed: nat, input: CraftInput, k: nat)
    requires EmptyUngrouped(crate.idef) && CleanStacks(input) && k < |rs|
    ensures Candidate(crate, rs, hashed, input, k) <==> Crafts(crate, rs[k], input)
  {
    if Crafts(crate, rs[k], input) {
      AppliesImpliesHash(crate, rs[k], input);
    }
  }

  /**
    The layered search and the linear scan succeed together and agree on the
    priority; they pick the same definition exactly when the two picks are
    filed in the same layer.
   */
  lemma LayeredAgreesWithLinear(crate: CrateDef, rs: seq<Recipe>, hashed: nat, input: CraftInput, k: nat, l: nat)
    requires EmptyUngrouped(crate.idef) && CleanStacks(input)
    requires Winner(crate, rs, hashed, input, k) && LinearWinner(crate, rs, input, l)
    ensures Priority(rs[k]) == Priority(rs[l])
    ensures k == l <==> KeyAt(crate, rs, hashed, k).layer == KeyAt(crate, rs, hashed, l).layer
  {
    EveryCraftIsCandidate(crate, rs, hashed, input, k);
    EveryCraftIsCandidate(crate, rs, hashed, input, l);
    if k != l {
      assert Beats(KeysOf(crate, rs, hashed), PrioritiesOf(rs), k, l);
    }
  }

  /** A definition whose priority tells its layer. */
  ghost predicate PriorityFitsLayer(idef: ItemDefs, r: Recipe) {
    HashType(idef, r) == if Priority(r) in {PRIORITY_SHAPELESS, PRIORITY_SHAPED} then ITEM_NAMES else COUNT
  }

  /**
    That holds whenever parsing a slot string neither adds nor removes the
    group prefix, except for fuels burning a whole group.
   */
  lemma PriorityFitsUnlessGroupFuel(idef: ItemDefs, r: Recipe)
    requires forall s :: IsGroupRecipe(idef.nameOf(s)) <==> IsGroupRecipe(s)
    ensures PriorityFitsLayer(idef, r) <==> !(r.FuelRecipe? && IsGroupRecipe(r.slot))
  {
    match r
    case ShapedRecipe(_, _, slots) => NamesKeepGroups(idef, slots);
    case ShapelessRecipe(_, slots) =>
      NamesKeepGroups(idef, slots);
      SortKeepsGroups(idef.NamesOf(slots));
    case ToolRepair(_) =>
    case CookingRecipe(_, slot, _) => NamesKeepGroups(idef, [slot]);
    case FuelRecipe(slot, _) => NamesKeepGroups(idef, [slot]);
  }

  lemma NamesKeepGroups(idef: ItemDefs, slots: seq<string>)
    requires forall s :: IsGroupRecipe(idef.nameOf(s)) <==> IsGroupRecipe(s)
    ensures HasGroupItem(idef.NamesOf(slots)) <==> HasGroupItem(slots)
    ensures |slots| == 1 ==> idef.NamesOf(slots) == [idef.nameOf(slots[0])]
  {
    var names := idef.NamesOf(slots);
    forall i | 0 <= i < |slots|
      ensures IsGroupRecipe(names[i]) <==> IsGroupRecipe(slots[i])
    {
    }
    if HasGroupItem(slots) {
      var i :| 0 <= i < |slots| && IsGroupRecipe(slots[i]);
      assert IsGroupRecipe(names[i]);
    }
  }

  /** With all definitions hashed and no group fuels, the layered search is the linear scan. */
  lemma LayeredIsLinear(crate: CrateDef, rs: seq<Recipe>, input: CraftInput, k: nat)
    requires EmptyUngrouped(crate.idef) && CleanStacks(input)
    requires forall j :: 0 <= j < |rs| ==> PriorityFitsLayer(crate.idef, rs[j])
    ensures Winner(crate, rs, |rs|, input, k) <==> LinearWinner(crate, rs, input, k)
  {
    forall j: nat | j < |rs|
      ensures Candidate(crate, rs, |rs|, input, j) <==> Crafts(crate, rs[j], input)
    {
      EveryCraftIsCandidate(crate, rs, |rs|, input, j);
    }
    if k < |rs| {
      forall j: nat | j < |rs|
        ensures Beats(KeysOf(crate, rs, |rs|), PrioritiesOf(rs), k, j) <==>
                Priority(rs[k]) > Priority(rs[j]) || (Priority(rs[k]) == Priority(rs[j]) && k > j)
      {
        assert PriorityFitsLayer(crate.idef, rs[k]) && PriorityFitsLayer(crate.idef, rs[j]);
      }
    }
  }

  /** The layered search picks the winner of the scan exactly if no rival of its priority lies in an earlier layer. */
  lemma LinearWinsUnlessEarlierLayer(crate: CrateDef, rs: seq<Recipe>, hashed: nat, input: CraftInput, l: nat)
    requires EmptyUngrouped(crate.idef) && CleanStacks(input) && LinearWinner(crate, rs, input, l)
    ensures Winner(crate, rs, hashed, input, l) <==>
            forall j: nat :: j < |rs| && Crafts(crate, rs[j], input) && Priority(rs[j]) == Priority(rs[l]) ==>
              KeyAt(crate, rs, hashed, l).layer <= KeyAt(crate, rs, hashed, j).layer
  {
    forall j: nat | j < |rs|
      ensures Candidate(crate, rs, hashed, input, j) <==> Crafts(crate, rs[j], input)
    {
      EveryCraftIsCandidate(crate, rs, hashed, input, j);
    }
    forall j: nat | j < |rs| && j != l && Crafts(crate, rs[j], input)
      ensures Beats(KeysOf(crate, rs, hashed), PrioritiesOf(rs), l, j) <==>
              (Priority(rs[j]) == Priority(rs[l]) ==>
                 KeyAt(crate, rs, hashed, l).layer <= KeyAt(crate, rs, hashed, j).layer)
    {
    }
  }

  /** The definition crafts from the input as a fuel given by its exact name. */
  ghost predicate ExactFuel(crate: CrateDef, r: Recipe, input: CraftInput) {
    r.FuelRecipe? && !IsGroupRecipe(r.slot) && Crafts(crate, r, input)
  }

  /** Of two definitions of one priority that craft from an input, only an exact fuel is filed before a group fuel. */
  lemma EarlierRival(crate: CrateDef, r: Recipe, rival: Recipe, input: CraftInput)
    requires forall s :: IsGroupRecipe(crate.idef.nameOf(s)) <==> IsGroupRecipe(s)
    requires Crafts(crate, r, input) && Crafts(crate, rival, input) && Priority(rival) == Priority(r)
    ensures HashType(crate.idef, r) > HashType(crate.idef, rival) <==>
            r.FuelRecipe? && IsGroupRecipe(r.slot) && ExactFuel(crate, rival, input)
  {
    PriorityFitsUnlessGroupFuel(crate.idef, r);
    PriorityFitsUnlessGroupFuel(crate.idef, rival);
  }

  /**
    Once all definitions are hashed, the layered search picks the winner of the
    scan unless that winner burns a whole group and some fuel burns the same
    input by name.
   */
  lemma LayeredMissesOnlyGroupFuels(crate: CrateDef, rs: seq<Recipe>, input: CraftInput, l: nat)
    requires EmptyUngrouped(crate.idef) && CleanStacks(input) && LinearWinner(crate, rs, input, l)
    requires forall s :: IsGroupRecipe(crate.idef.nameOf(s)) <==> IsGroupRecipe(s)
    ensures Winner(crate, rs, |rs|, input, l) <==>
            !(rs[l].FuelRecipe? && IsGroupRecipe(rs[l].slot) &&
              exists j: nat :: j < |rs| && ExactFuel(crate, rs[j], input))
  {
    LinearWinsUnlessEarlierLayer(crate, rs, |rs|, input, l);
    forall j: nat | j < |rs| && Crafts(crate, rs[j], input) && Priority(rs[j]) == Priority(rs[l])
      ensures KeyAt(crate, rs, |rs|, l).layer > KeyAt(crate, rs, |rs|, j).layer <==>
              rs[l].FuelRecipe? && IsGroupRecipe(rs[l].slot) && ExactFuel(crate, rs[j], input)
    {
      EarlierRival(crate, rs[l], rs[j], input);
    }
  }

  /** Among definitions of one priority, a group fuel registered last still loses to an earlier exact one. */
  lemma GroupFuelLosesTie(crate: CrateDef, name: string, group: string, t: real, t': real, input: CraftInput)
    requires EmptyUngrouped(crate.idef) && CleanStacks(input)
    requires IsPlainRecipe(name) && IsGroupRecipe(group) && (forall s :: crate.idef.nameOf(s) == s)
    requires crate.idef.IsKnown("")
    requires input.method_ == Fuel && Filter(IsItem, input.Names()) == [name] && Matches(crate.idef, name, group)
    ensures var rs := [FuelRecipe(name, t), FuelRecipe(group, t')];
            LinearWinner(crate, rs, input, 1) && Winner(crate, rs, 2, input, 0)
  {
    var rs := [FuelRecipe(name, t), FuelRecipe(group, t')];
    assert SlotNames(crate.idef, rs[0]) == [name] && SlotNames(crate.idef, rs[1]) == [group];
    assert Crafts(crate, rs[0], input) && Crafts(crate, rs[1], input);
    EveryCraftIsCandidate(crate, rs, 2, input, 0);
    EveryCraftIsCandidate(crate, rs, 2, input, 1);
    assert HashType(crate.idef, rs[0]) == ITEM_NAMES;
    assert [group][0] == group;
    assert HashType(crate.idef, rs[1]) == COUNT;
  }

  // ---------------------------------------------------------------------------
  // A definition
  // ---------------------------------------------------------------------------

  class CraftDefinition {
    const recipe: Recipe
    var hashInited: bool
    var hashType: nat
    var recipeNames: seq<string>

    ghost predicate Valid(crate: CrateDef)
      reads this
    {
      hashInited ==> hashType == HashType(crate.idef, recipe) && recipeNames == SlotNames(crate.idef, recipe)
    }

    constructor (recipe: Recipe)
      ensures this.recipe == recipe && !hashInited
    {
      this.recipe := recipe;
      hashInited := false;
      hashType := UNHASHED;
      recipeNames := [];
    }

    method InitHash(crate: CrateDef)
      requires Valid(crate)
      modifies this
      ensures Valid(crate) && hashInited
    {
      if hashInited {
        return;
      }
      hashInited := true;
      recipeNames := SlotNames(crate.idef, recipe);
      if recipe.ToolRepair? || HasGroupItem(recipeNames) {
        hashType := COUNT;
      } else {
        hashType := ITEM_NAMES;
      }
    }

    function GetHash(crate: CrateDef): (h: nat)
      requires hashInited && Valid(crate)
      reads this
      ensures h == RecipeHash(crate, recipe)
    {
      HashOf(crate, recipe, recipeNames, hashType)
    }

    /** Hashed definitions use the names they kept, others resolve them again. */
    method Check(crate: CrateDef, input: CraftInput) returns (r: bool)
      requires Valid(crate)
      ensures r <==> Applies(crate, recipe, input)
    {
      match recipe {
        case ShapedRecipe(_, width, slots) =>
          var names := if hashInited then recipeNames else crate.idef.NamesOf(slots);
          r := Shaped.Check(crate.idef, input, names, width);
        case ShapelessRecipe(_, slots) =>
          var names := if hashInited then recipeNames else Sort(crate.idef.NamesOf(slots));
          Shapeless.OrderIndependent(crate.idef, input, names, input, crate.idef.NamesOf(slots));
          r := Shapeless.Check(crate.idef, input, names);
        case ToolRepair(wearBonus) =>
          r := input.method_ == Normal && RepairResult(crate, input, wearBonus).Some?;
        case CookingRecipe(_, slot, _) =>
          r := CheckSingle(crate.idef, input, Cooking, slot);
        case FuelRecipe(slot, _) =>
          r := CheckSingle(crate.idef, input, Fuel, slot);
      }
    }
  }

  method CheckSingle(idef: ItemDefs, input: CraftInput, method_: CraftMethod, slot: string) returns (r: bool)
    ensures r <==> input.method_ == method_ && SingleMatch(idef, input.Names(), idef.nameOf(slot))
  {
    if input.method_ != method_ {
      return false;
    }
    var items := Filter(IsItem, input.Names());
    if |items| != 1 {
      return false;
    }
    r := ItemMatchesRecipe(idef, items[0], idef.nameOf(slot));
  }

  // ---------------------------------------------------------------------------
  // The manager
  // ---------------------------------------------------------------------------

  ghost function RecipesOf(defs: seq<CraftDefinition>): (rs: seq<Recipe>)
    ensures |rs| == |defs|
    ensures forall k :: 0 <= k < |defs| ==> rs[k] == defs[k].recipe
  {
    seq(|defs|, k requires 0 <= k < |defs| => defs[k].recipe)
  }

  ghost predicate Picks(bucket: seq<CraftDefinition>, defs: seq<CraftDefinition>, ks: seq<nat>) {
    |bucket| == |ks| && forall i :: 0 <= i < |ks| ==> ks[i] < |defs| && bucket[i] == defs[ks[i]]
  }

  type Layers = seq<map<nat, seq<CraftDefinition>>>

  /** A missing key is an empty bucket. */
  function Bucket(layers: Layers, layer: nat, h: nat): seq<CraftDefinition>
    requires layer < |layers|
  {
    if h in layers[layer] then layers[layer][h] else []
  }

  // -- buckets -----------------------------------------------------------------

  /** In the layers below `top`, every bucket holds the definitions filed under its key, in order. */
  ghost predicate BucketsFiled(layers: Layers, top: nat, defs: seq<CraftDefinition>, keys: seq<Key>) {
    && |layers| == UNHASHED + 1 && top <= |layers|
    && forall layer, h {:trigger Bucket(layers, layer, h)} :: 0 <= layer < top && 0 <= h ==>
         Picks(Bucket(layers, layer, h), defs, FiledAt(keys, Key(layer, h)))
  }

  function Push(layers: Layers, layer: nat, h: nat, def: CraftDefinition): (r: Layers)
    requires layer < |layers|
    ensures |r| == |layers|
    ensures forall l, g {:trigger Bucket(r, l, g)} :: 0 <= l < |layers| && 0 <= g ==>
              Bucket(r, l, g) == if l == layer && g == h then Bucket(layers, l, g) + [def] else Bucket(layers, l, g)
  {
    var buckets: map<nat, seq<CraftDefinition>> := layers[layer][h := Bucket(layers, layer, h) + [def]];
    layers[layer := buckets]
  }

  /** Pushing files the next definition; `more` is the whole list it comes from. */
  lemma PushFiles(layers: Layers, top: nat, defs: seq<CraftDefinition>, keys: seq<Key>, key: Key,
                  more: seq<CraftDefinition>)
    requires BucketsFiled(layers, top, defs, keys) && key.layer < top
    requires |keys| < |more| && defs <= more && |keys| <= |defs|
    ensures BucketsFiled(Push(layers, key.layer, key.hash, more[|keys|]), top, more, keys + [key])
  {
    var layers' := Push(layers, key.layer, key.hash, more[|keys|]);
    forall layer: nat, h: nat | layer < top
      ensures Picks(Bucket(layers', layer, h), more, FiledAt(keys + [key], Key(layer, h)))
    {
      FiledSnoc(keys, key, Key(layer, h));
      var ks := FiledAt(keys, Key(layer, h));
      assert Picks(Bucket(layers, layer, h), defs, ks);
      PicksMore(Bucket(layers, layer, h), defs, ks, more, |keys|);
    }
  }

  /** Files the next definition. */
  method File(layers: Layers, layer: nat, h: nat, def: CraftDefinition, ghost top: nat,
              ghost defs: seq<CraftDefinition>, ghost keys: seq<Key>, ghost more: seq<CraftDefinition>)
    returns (layers': Layers)
    requires BucketsFiled(layers, top, defs, keys) && layer < top
    requires |keys| < |more| && defs <= more && |keys| <= |defs| && def == more[|keys|]
    ensures BucketsFiled(layers', top, more, keys + [Key(layer, h)])
  {
    PushFiles(layers, top, defs, keys, Key(layer, h), more);
    layers' := Push(layers, layer, h, def);
  }

  lemma PicksMore(bucket: seq<CraftDefinition>, defs: seq<CraftDefinition>, ks: seq<nat>, more: seq<CraftDefinition>,
                  k: nat)
    requires Picks(bucket, defs, ks) && defs <= more && k < |more|
    ensures Picks(bucket, more, ks) && Picks(bucket + [more[k]], more, ks + [k])
  {
  }

  /** The waiting definitions are exactly the contents of the unhashed layer. */
  lemma WaitingBucket(layers: Layers, defs: seq<CraftDefinition>, moved: seq<Key>, waiting: nat)
    requires |moved| + waiting == |defs| && (forall k :: 0 <= k < |moved| ==> moved[k].layer < UNHASHED)
    requires BucketsFiled(layers, UNHASHED + 1, defs, moved + Repeat(WAITING, waiting))
    ensures Bucket(layers, UNHASHED, 0) == defs[|moved|..]
    ensures BucketsFiled(layers, UNHASHED, defs, moved)
  {
    FiledRepeat(moved, WAITING, waiting, WAITING);
    FiledNone(moved, WAITING);
    assert Picks(Bucket(layers, UNHASHED, 0), defs, FiledAt(moved + Repeat(WAITING, waiting), WAITING));
    forall layer: nat, h: nat | layer < UNHASHED
      ensures Picks(Bucket(layers, layer, h), defs, FiledAt(moved, Key(layer, h)))
    {
      FiledRepeat(moved, WAITING, waiting, Key(layer, h));
      assert Picks(Bucket(layers, layer, h), defs, FiledAt(moved + Repeat(WAITING, waiting), Key(layer, h)));
    }
  }

  lemma ClearUnhashed(layers: Layers, defs: seq<CraftDefinition>, keys: seq<Key>)
    requires BucketsFiled(layers, UNHASHED, defs, keys) && forall k :: 0 <= k < |keys| ==> keys[k].layer < UNHASHED
    ensures BucketsFiled(layers[UNHASHED := map[]], UNHASHED + 1, defs, keys)
  {
    var layers' := layers[UNHASHED := map[]];
    forall layer: nat, h: nat | layer <= UNHASHED
      ensures Picks(Bucket(layers', layer, h), defs, FiledAt(keys, Key(layer, h)))
    {
      if layer == UNHASHED {
        FiledNone(keys, Key(layer, h));
      } else {
        assert Picks(Bucket(layers, layer, h), defs, FiledAt(keys, Key(layer, h)));
      }
    }
  }

  /** All definitions are consistent and the first `m` have been hashed. */
  ghost predicate Hashed(crate: CrateDef, defs: seq<CraftDefinition>, m: nat)
    requires m <= |defs|
    reads defs
  {
    && (forall k :: 0 <= k < |defs| ==> defs[k].Valid(crate))
    && (forall k :: 0 <= k < m ==> defs[k].hashInited)
  }

  /** `keys` are the keys of the first definitions. */
  ghost predicate KeysRight(crate: CrateDef, defs: seq<CraftDefinition>, keys: seq<Key>) {
    |keys| <= |defs| && forall k {:trigger keys[k]} :: 0 <= k < |keys| ==> keys[k] == KeyOf(crate, defs[k].recipe)
  }

  lemma KeysSplit(crate: CrateDef, defs: seq<CraftDefinition>, hashed: nat) returns (moved: seq<Key>)
    requires hashed <= |defs|
    ensures |moved| == hashed && KeysRight(crate, defs, moved)
    ensures forall k :: 0 <= k < |moved| ==> moved[k].layer < UNHASHED
    ensures KeysOf(crate, RecipesOf(defs), hashed) == moved + Repeat(WAITING, |defs| - hashed)
  {
    moved := KeysOf(crate, RecipesOf(defs), hashed)[..hashed];
  }

  lemma KeysComplete(crate: CrateDef, defs: seq<CraftDefinition>, keys: seq<Key>)
    requires KeysRight(crate, defs, keys) && |keys| == |defs|
    ensures KeysOf(crate, RecipesOf(defs), |defs|) == keys
    ensures forall k :: 0 <= k < |keys| ==> keys[k].layer < UNHASHED
  {
  }

  lemma KeysAppend(crate: CrateDef, defs: seq<CraftDefinition>, def: CraftDefinition, hashed: nat)
    requires hashed <= |defs|
    ensures KeysOf(crate, RecipesOf(defs + [def]), hashed) == KeysOf(crate, RecipesOf(defs), hashed) + [WAITING]
  {
  }

  /** The priority is compared before the definition is checked, and the result is looked up last. */
  method TryDefinition(crate: CrateDef, input: CraftInput, def: CraftDefinition, bestPriority: nat)
    returns (better: bool, out: CraftOutput)
    requires def.Valid(crate)
    ensures better <==> Priority(def.recipe) > bestPriority && Crafts(crate, def.recipe, input)
    ensures out == Output(crate, def.recipe, input)
  {
    out := Output(crate, def.recipe, input);
    better := false;
    if Priority(def.recipe) > bestPriority {
      var applies := def.Check(crate, input);
      better := applies && crate.OutputKnown(out);
    }
  }

  method TryEntry(crate: CrateDef, input: CraftInput, def: CraftDefinition, ghost rs: seq<Recipe>, ghost hashed: nat,
                  ghost layer: nat, ghost h: nat, ghost ks: seq<nat>, ghost i: nat,
                  bestPriority: nat, best: CraftOutput, ghost held: Held)
    returns (bestPriority': nat, best': CraftOutput, ghost held': Held)
    requires h == InputHash(crate, input, layer)
    requires ks == FiledAt(KeysOf(crate, rs, hashed), Key(layer, h)) && 0 < i <= |ks|
    requires def.Valid(crate) && def.recipe == rs[ks[i - 1]]
    requires Holding(crate, rs, hashed, input, layer, BoundAt(ks, i, |rs|), held, bestPriority, best)
    ensures Holding(crate, rs, hashed, input, layer, BoundAt(ks, i - 1, |rs|), held', bestPriority', best')
  {
    HoldingStep(crate, rs, hashed, input, layer, h, ks, i, held, bestPriority, best);
    var better, out := TryDefinition(crate, input, def, bestPriority);
    if better {
      bestPriority', best', held' := Priority(def.recipe), out, Entry(ks[i - 1]);
    } else {
      bestPriority', best', held' := bestPriority, best, held;
    }
  }

  /** One bucket, from its newest definition to its oldest, keeping what ranks strictly higher. */
  method ScanEntries(crate: CrateDef, input: CraftInput, bucket: seq<CraftDefinition>, ghost rs: seq<Recipe>,
                     ghost hashed: nat, ghost layer: nat, ghost h: nat, ghost ks: seq<nat>,
                     bestPriority: nat, best: CraftOutput, ghost held: Held)
    returns (bestPriority': nat, best': CraftOutput, ghost held': Held)
    requires h == InputHash(crate, input, layer) && ks == FiledAt(KeysOf(crate, rs, hashed), Key(layer, h))
    requires |bucket| == |ks| && forall i :: 0 <= i < |ks| ==> bucket[i].Valid(crate) && bucket[i].recipe == rs[ks[i]]
    requires Holding(crate, rs, hashed, input, layer, |rs|, held, bestPriority, best)
    ensures Holding(crate, rs, hashed, input, layer + 1, |rs|, held', bestPriority', best')
  {
    bestPriority', best', held' := bestPriority, best, held;
    var i := |bucket|;
    while i > 0
      invariant 0 <= i <= |bucket|
      invariant Holding(crate, rs, hashed, input, layer, BoundAt(ks, i, |rs|), held', bestPriority', best')
    {
      bestPriority', best', held' :=
        TryEntry(crate, input, bucket[i - 1], rs, hashed, layer, h, ks, i, bestPriority', best', held');
      i := i - 1;
    }
    HoldingLayerDone(crate, rs, hashed, input, layer, h, ks, held', bestPriority', best');
  }

  method HashOne(crate: CrateDef, ghost defs: seq<CraftDefinition>, ghost m: nat, def: CraftDefinition)
    returns (h: nat)
    requires m < |defs| && def == defs[m] && Hashed(crate, defs, m)
    modifies def
    ensures Hashed(crate, defs, m + 1) && Key(def.hashType, h) == KeyOf(crate, def.recipe)
  {
    def.InitHash(crate);
    h := def.GetHash(crate);
  }

  lemma KeysRightNext(crate: CrateDef, defs: seq<CraftDefinition>, keys: seq<Key>, key: Key)
    requires KeysRight(crate, defs, keys) && |keys| < |defs| && key == KeyOf(crate, defs[|keys|].recipe)
    ensures KeysRight(crate, defs, keys + [key])
  {
  }

  /** Hashes the next waiting definition and files it. */
  method FileNext(crate: CrateDef, layers: Layers, def: CraftDefinition, ghost defs: seq<CraftDefinition>,
                  ghost keys: seq<Key>) returns (layers': Layers, ghost keys': seq<Key>)
    requires |keys| < |defs| && def == defs[|keys|]
    requires Hashed(crate, defs, |keys|) && KeysRight(crate, defs, keys)
    requires BucketsFiled(layers, UNHASHED, defs, keys)
    modifies def
    ensures |keys'| == |keys| + 1 && Hashed(crate, defs, |keys'|) && KeysRight(crate, defs, keys')
    ensures BucketsFiled(layers', UNHASHED, defs, keys')
  {
    var h := HashOne(crate, defs, |keys|, def);
    keys' := keys + [Key(def.hashType, h)];
    layers' := File(layers, def.hashType, h, def, UNHASHED, defs, keys, defs);
    KeysRightNext(crate, defs, keys, Key(def.hashType, h));
  }

  class CraftDefManager {
    var layers: Layers
    ghost var registered: seq<CraftDefinition>
    ghost var hashed: nat

    ghost predicate Valid(crate: CrateDef)
      reads this, registered
    {
      && hashed <= |registered|
      && BucketsFiled(layers, UNHASHED + 1, registered, KeysOf(crate, RecipesOf(registered), hashed))
      && Hashed(crate, registered, hashed)
    }

    constructor (ghost crate: CrateDef)
      ensures Valid(crate) && registered == []
    {
      layers := [map[], map[], map[]];
      registered := [];
      hashed := 0;
    }

    method RegisterCraft(crate: CrateDef, def: CraftDefinition)
      requires Valid(crate) && def.Valid(crate)
      modifies this
      ensures Valid(crate)
      ensures registered == old(registered) + [def] && hashed == old(hashed)
    {
      KeysAppend(crate, registered, def, hashed);
      layers := File(layers, UNHASHED, 0, def, UNHASHED + 1, registered,
                     KeysOf(crate, RecipesOf(registered), hashed), registered + [def]);
      registered := registered + [def];
    }

    /** Moves every waiting definition into the layer and under the hash of its own. */
    method InitHashes(crate: CrateDef)
      requires Valid(crate)
      modifies this, registered
      ensures Valid(crate)
      ensures registered == old(registered) && hashed == |registered|
    {
      ghost var defs := registered;
      var unhashed := Bucket(layers, UNHASHED, 0);
      ghost var keys := KeysSplit(crate, defs, hashed);
      WaitingBucket(layers, defs, keys, |defs| - hashed);
      for i := 0 to |unhashed|
        invariant registered == defs && hashed == old(hashed) && |unhashed| == |defs| - hashed
        invariant |keys| == hashed + i && KeysRight(crate, defs, keys)
        invariant BucketsFiled(layers, UNHASHED, defs, keys) && Hashed(crate, defs, hashed + i)
      {
        layers, keys := FileNext(crate, layers, unhashed[i], defs, keys);
      }
      KeysComplete(crate, defs, keys);
      ClearUnhashed(layers, defs, keys);
      layers := layers[UNHASHED := map[]];
      hashed := |registered|;
    }

    method ScanBucket(crate: CrateDef, input: CraftInput, layer: nat, h: nat, bestPriority: nat, best: CraftOutput,
                      ghost held: Held)
      returns (bestPriority': nat, best': CraftOutput, ghost held': Held)
      requires Valid(crate) && layer <= UNHASHED && h == InputHash(crate, input, layer)
      requires Holding(crate, RecipesOf(registered), hashed, input, layer, |registered|, held, bestPriority, best)
      ensures Holding(crate, RecipesOf(registered), hashed, input, layer + 1, |registered|, held', bestPriority', best')
    {
      ghost var rs := RecipesOf(registered);
      ghost var ks := FiledAt(KeysOf(crate, rs, hashed), Key(layer, h));
      assert Picks(Bucket(layers, layer, h), registered, ks);
      bestPriority', best', held' :=
        ScanEntries(crate, input, Bucket(layers, layer, h), rs, hashed, layer, h, ks, bestPriority, best, held);
    }

    method GetCraftResult(crate: CrateDef, input: CraftInput)
      returns (found: bool, output: CraftOutput, ghost winner: nat)
      requires Valid(crate)
      ensures found ==>
                && !input.Empty()
                && Winner(crate, RecipesOf(registered), hashed, input, winner)
                && output == Output(crate, RecipesOf(registered)[winner], input)
      ensures !found ==>
                input.Empty() || forall k: nat :: !Candidate(crate, RecipesOf(registered), hashed, input, k)
    {
      output := CraftOutput("", 0.0);
      winner := 0;
      if input.Empty() {
        return false, output, winner;
      }
      var names := Sort(input.Names());
      ghost var rs := RecipesOf(registered);
      var priority := PRIORITY_NO_RECIPE;
      ghost var held := Nothing;
      HoldingStart(crate, rs, hashed, input, output);
      for layer := 0 to UNHASHED + 1
        invariant Holding(crate, rs, hashed, input, layer, |rs|, held, priority, output)
      {
        var h := GridHash(crate, layer, names);
        priority, output, held := ScanBucket(crate, input, layer, h, priority, output, held);
      }
      HoldingEnd(crate, rs, hashed, input, held, priority, output);
      found := priority != PRIORITY_NO_RECIPE;
      winner := if held.Entry? then held.index else 0;
    }
  }

  /** State of the search: the priority and output at hand are those of the best candidate seen. */
  ghost predicate Holding(crate: CrateDef, rs: seq<Recipe>, hashed: nat, input: CraftInput, layer: nat, bound: nat,
                          held: Held, priority: nat, output: CraftOutput)
  {
    && Holds(KeysOf(crate, rs, hashed), PrioritiesOf(rs), Candidates(crate, rs, hashed, input), layer, bound, held)
    && (held.Nothing? ==> priority == PRIORITY_NO_RECIPE)
    && (held.Entry? ==> priority == Priority(rs[held.index]) && output == Output(crate, rs[held.index], input))
  }

  lemma HoldingStart(crate: CrateDef, rs: seq<Recipe>, hashed: nat, input: CraftInput, output: CraftOutput)
    ensures Holding(crate, rs, hashed, input, 0, |rs|, Nothing, PRIORITY_NO_RECIPE, output)
  {
  }

  lemma CandidatesByKey(crate: CrateDef, rs: seq<Recipe>, hashed: nat, input: CraftInput, layer: nat, h: nat)
    requires h == InputHash(crate, input, layer)
    ensures var keys := KeysOf(crate, rs, hashed);
            forall j :: j in Candidates(crate, rs, hashed, input) && keys[j].layer == layer ==> keys[j].hash == h
  {
  }

  lemma HoldingStep(crate: CrateDef, rs: seq<Recipe>, hashed: nat, input: CraftInput, layer: nat, h: nat, ks: seq<nat>,
                    i: nat, held: Held, priority: nat, output: CraftOutput)
    requires h == InputHash(crate, input, layer)
    requires ks == FiledAt(KeysOf(crate, rs, hashed), Key(layer, h)) && 0 < i <= |ks|
    requires Holding(crate, rs, hashed, input, layer, BoundAt(ks, i, |rs|), held, priority, output)
    ensures var k := ks[i - 1];
            if Priority(rs[k]) > priority && Crafts(crate, rs[k], input)
            then Holding(crate, rs, hashed, input, layer, k, Entry(k), Priority(rs[k]), Output(crate, rs[k], input))
            else Holding(crate, rs, hashed, input, layer, k, held, priority, output)
  {
    var keys, prios := KeysOf(crate, rs, hashed), PrioritiesOf(rs);
    CandidatesByKey(crate, rs, hashed, input, layer, h);
    ScanStep(keys, prios, Candidates(crate, rs, hashed, input), layer, h, ks, i, held);
    FiledAtIs(keys, Key(layer, h));
    assert keys[ks[i - 1]] == Key(layer, h);
  }

  lemma HoldingLayerDone(crate: CrateDef, rs: seq<Recipe>, hashed: nat, input: CraftInput, layer: nat, h: nat,
                         ks: seq<nat>, held: Held, priority: nat, output: CraftOutput)
    requires h == InputHash(crate, input, layer)
    requires ks == FiledAt(KeysOf(crate, rs, hashed), Key(layer, h))
    requires Holding(crate, rs, hashed, input, layer, BoundAt(ks, 0, |rs|), held, priority, output)
    ensures Holding(crate, rs, hashed, input, layer + 1, |rs|, held, priority, output)
  {
    CandidatesByKey(crate, rs, hashed, input, layer, h);
    ScanLayerDone(KeysOf(crate, rs, hashed), PrioritiesOf(rs), Candidates(crate, rs, hashed, input), layer, h, ks,
                  held);
  }

  lemma HoldingEnd(crate: CrateDef, rs: seq<Recipe>, hashed: nat, input: CraftInput, held: Held, priority: nat,
                   output: CraftOutput)
    requires Holding(crate, rs, hashed, input, UNHASHED + 1, |rs|, held, priority, output)
    ensures held.Entry? ==> Winner(crate, rs, hashed, input, held.index) && priority > PRIORITY_NO_RECIPE
    ensures held.Nothing? ==> forall k: nat :: !Candidate(crate, rs, hashed, input, k)
  {
    var keys := KeysOf(crate, rs, hashed);
    var top, n := UNHASHED + 1, |rs|;
    forall j: nat | j < |keys|
      ensures Scanned(keys, top, n, j)
    {
      assert KeyAt(crate, rs, hashed, j).layer <= UNHASHED;
    }
    forall k: nat | Candidate(crate, rs, hashed, input, k)
      ensures k in Candidates(crate, rs, hashed, input)
    {
    }
  }
}
