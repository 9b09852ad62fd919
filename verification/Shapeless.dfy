/**
  Shapeless recipes: the input satisfies the recipe when its items can be
  assigned to the recipe slots one to one. The check first cancels the slots
  that ask for an exact name and leaves only the group slots to the matcher.
 */
module Shapeless {
  import opened Names
  import opened Items
  import opened Numbers
  import opened Permutations
  import HopcroftKarp

  // ---------------------------------------------------------------------------
  // One-to-one assignments
  // ---------------------------------------------------------------------------

  /** `p` sends every input to a slot of its own that accepts it, and leaves no slot over. */
  ghost predicate Assigns(idef: ItemDefs, inputs: seq<string>, slots: seq<string>, p: seq<nat>) {
    && |p| == |inputs| == |slots|
    && (forall i :: 0 <= i < |p| ==> p[i] < |slots| && Matches(idef, inputs[i], slots[p[i]]))
    && (forall i, j :: 0 <= i < j < |p| ==> p[i] != p[j])
  }

  ghost predicate Assignable(idef: ItemDefs, inputs: seq<string>, slots: seq<string>) {
    exists p :: Assigns(idef, inputs, slots, p)
  }

  /** Position by position, each input is accepted by the slot beside it. */
  ghost predicate Aligned(idef: ItemDefs, a: seq<string>, r: seq<string>) {
    |a| == |r| && forall i :: 0 <= i < |a| ==> Matches(idef, a[i], r[i])
  }

  ghost predicate Rearranges(idef: ItemDefs, inputs: seq<string>, slots: seq<string>, a: seq<string>, r: seq<string>) {
    multiset(a) == multiset(inputs) && multiset(r) == multiset(slots) && Aligned(idef, a, r)
  }

  /** Inputs and slots can be laid side by side; only their multisets matter. */
  ghost predicate Pairable(idef: ItemDefs, inputs: seq<string>, slots: seq<string>) {
    exists a, r :: Rearranges(idef, inputs, slots, a, r)
  }

  lemma AssignableIsPairable(idef: ItemDefs, inputs: seq<string>, slots: seq<string>)
    ensures Assignable(idef, inputs, slots) <==> Pairable(idef, inputs, slots)
  {
    if Assignable(idef, inputs, slots) {
      var p :| Assigns(idef, inputs, slots, p);
      SelectAll(slots, p);
      assert Rearranges(idef, inputs, slots, inputs, Select(slots, p));
    }
    if Pairable(idef, inputs, slots) {
      var a, r :| Rearranges(idef, inputs, slots, a, r);
      var pa := FindRearrangement(a, inputs);
      var pr := FindRearrangement(slots, r);
      var p: seq<nat> := seq(|inputs|, i requires 0 <= i < |inputs| => pr[pa[i]]);
      forall i | 0 <= i < |p|
        ensures p[i] < |slots| && Matches(idef, inputs[i], slots[p[i]])
      {
        assert Select(a, pa)[i] == inputs[i] && Select(slots, pr)[pa[i]] == r[pa[i]];
      }
      forall i, j | 0 <= i < j < |p|
        ensures p[i] != p[j]
      {
        assert pa[i] != pa[j];
      }
      assert Assigns(idef, inputs, slots, p);
    }
  }

  // ---------------------------------------------------------------------------
  // The prefilter
  // ---------------------------------------------------------------------------

  lemma AlignedPlain(idef: ItemDefs, a: seq<string>, plain: seq<string>)
    requires Aligned(idef, a, plain)
    requires forall i :: 0 <= i < |plain| ==> IsPlainRecipe(plain[i])
    ensures a == plain
  {
    forall i | 0 <= i < |a|
      ensures a[i] == plain[i]
    {
      PlainMatches(idef, a[i], plain[i]);
    }
  }

  /**
    Cancelling the exact-name slots against equal inputs never changes the
    answer: an assignment exists if and only if every exact-name slot finds its
    own name among the inputs, and what remains can be assigned to the rest.
   */
  lemma PrefilterIsExact(idef: ItemDefs, inputs: seq<string>, slots: seq<string>,
                         plain: seq<string>, grouped: seq<string>, rest: seq<string>)
    requires multiset(slots) == multiset(plain) + multiset(grouped)
    requires forall i :: 0 <= i < |plain| ==> IsPlainRecipe(plain[i])
    requires multiset(rest) == multiset(inputs) - multiset(plain)
    ensures Assignable(idef, inputs, slots) <==>
            multiset(plain) <= multiset(inputs) && Assignable(idef, rest, grouped)
  {
    AssignableIsPairable(idef, inputs, slots);
    AssignableIsPairable(idef, rest, grouped);
    if Pairable(idef, inputs, slots) {
      PrefilterSound(idef, inputs, slots, plain, grouped, rest);
    }
    if multiset(plain) <= multiset(inputs) && Pairable(idef, rest, grouped) {
      var a, r :| Rearranges(idef, rest, grouped, a, r);
      JoinAligned(idef, plain, a, r);
      assert multiset(plain + a) == multiset(inputs) && multiset(plain + r) == multiset(slots);
      assert Rearranges(idef, inputs, slots, plain + a, plain + r);
    }
  }

  lemma PrefilterSound(idef: ItemDefs, inputs: seq<string>, slots: seq<string>,
                       plain: seq<string>, grouped: seq<string>, rest: seq<string>)
    requires multiset(slots) == multiset(plain) + multiset(grouped)
    requires forall i :: 0 <= i < |plain| ==> IsPlainRecipe(plain[i])
    requires multiset(rest) == multiset(inputs) - multiset(plain)
    requires Pairable(idef, inputs, slots)
    ensures multiset(plain) <= multiset(inputs) && Pairable(idef, rest, grouped)
  {
    var a, r :| Rearranges(idef, inputs, slots, a, r);
    assert multiset(plain + grouped) == multiset(r);
    var p := FindRearrangement(r, plain + grouped);
    var b := Select(a, p);
    SelectAll(a, p);
    SelectKeepsAligned(idef, a, r, p);
    var b1, b2 := SplitAligned(idef, b, plain, grouped);
    AlignedPlain(idef, b1, plain);
    assert multiset(b) == multiset(plain) + multiset(b2);
    assert multiset(rest) == multiset(b2);
    assert Rearranges(idef, rest, grouped, b2, grouped);
  }

  lemma SelectKeepsAligned(idef: ItemDefs, a: seq<string>, r: seq<string>, p: seq<nat>)
    requires Aligned(idef, a, r) && Injection(p, |a|)
    ensures Aligned(idef, Select(a, p), Select(r, p))
  {
  }

  lemma SplitAligned(idef: ItemDefs, b: seq<string>, left: seq<string>, right: seq<string>)
    returns (b1: seq<string>, b2: seq<string>)
    requires Aligned(idef, b, left + right)
    ensures b == b1 + b2 && Aligned(idef, b1, left) && Aligned(idef, b2, right)
  {
    var k := |left|;
    b1, b2 := b[..k], b[k..];
    assert forall i :: 0 <= i < |left| ==> (left + right)[i] == left[i];
    assert forall i :: 0 <= i < |right| ==> (left + right)[k + i] == right[i];
  }

  lemma JoinAligned(idef: ItemDefs, plain: seq<string>, a: seq<string>, r: seq<string>)
    requires Aligned(idef, a, r)
    ensures Aligned(idef, plain + a, plain + r)
  {
  }

  // ---------------------------------------------------------------------------
  // The check
  // ---------------------------------------------------------------------------

  /** What it means for an input to satisfy a shapeless recipe with the given slot names. */
  ghost predicate Satisfies(idef: ItemDefs, input: CraftInput, slots: seq<string>) {
    && input.method_ == Normal
    && Assignable(idef, Filter(IsItem, input.Names()), slots)
    && |Filter(IsGroupRecipe, slots)| <= HopcroftKarp.SHAPELESS_GROUPS_MAX
  }

  /** Up to thirty thousand group slots, that is all that is asked for. */
  lemma SatisfiesUpToLimit(idef: ItemDefs, input: CraftInput, slots: seq<string>)
    ensures Satisfies(idef, input, slots) <==>
            && input.method_ == Normal && |Filter(IsGroupRecipe, slots)| <= 30000
            && Assignable(idef, Filter(IsItem, input.Names()), slots)
  {
  }

  /** Edge lists: `g[i]` are the group slots that accept the `i`-th remaining input. */
  ghost predicate IsMatchGraph(idef: ItemDefs, inputs: seq<string>, slots: seq<string>, g: HopcroftKarp.Graph) {
    && |g| == |inputs| == |slots|
    && HopcroftKarp.WellFormed(g)
    && forall i, j :: 0 <= i < |g| && 0 <= j < |g| ==> (j in g[i] <==> Matches(idef, inputs[i], slots[j]))
  }

  method BuildGraph(idef: ItemDefs, inputs: seq<string>, slots: seq<string>) returns (g: HopcroftKarp.Graph)
    requires |inputs| == |slots| <= HopcroftKarp.SHAPELESS_GROUPS_MAX
    ensures IsMatchGraph(idef, inputs, slots, g)
  {
    g := [];
    for i := 0 to |inputs|
      invariant |g| == i
      invariant forall u, k :: 0 <= u < i && 0 <= k < |g[u]| ==> g[u][k] < |inputs|
      invariant forall u, j :: 0 <= u < i && 0 <= j < |inputs| ==> (j in g[u] <==> Matches(idef, inputs[u], slots[j]))
    {
      var neighbours: seq<u16> := [];
      for j := 0 to |slots|
        invariant forall k :: 0 <= k < |neighbours| ==> neighbours[k] < j
        invariant forall x :: 0 <= x < j ==> (x in neighbours <==> Matches(idef, inputs[i], slots[x]))
      {
        var ok := ItemMatchesRecipe(idef, inputs[i], slots[j]);
        if ok {
          neighbours := neighbours + [j];
        }
      }
      g := g + [neighbours];
    }
  }

  lemma GraphMatchingIsAssignment(idef: ItemDefs, inputs: seq<string>, slots: seq<string>, g: HopcroftKarp.Graph)
    requires IsMatchGraph(idef, inputs, slots, g)
    ensures HopcroftKarp.HasPerfectMatching(g) <==> Assignable(idef, inputs, slots)
  {
    if HopcroftKarp.HasPerfectMatching(g) {
      var m: seq<u16> :| HopcroftKarp.IsPerfectMatching(g, m);
      var p: seq<nat> := seq(|m|, i requires 0 <= i < |m| => m[i]);
      assert Assigns(idef, inputs, slots, p);
    }
    if Assignable(idef, inputs, slots) {
      var p: seq<nat> :| Assigns(idef, inputs, slots, p);
      var m: seq<u16> := seq(|p|, i requires 0 <= i < |p| => p[i]);
      assert HopcroftKarp.IsPerfectMatching(g, m);
    }
  }

  /** The check proper; the slot names come sorted, either kept from hashing or sorted for the occasion. */
  method Check(idef: ItemDefs, input: CraftInput, slots: seq<string>) returns (r: bool)
    requires Sorted(slots)
    ensures r <==> Satisfies(idef, input, slots)
  {
    if input.method_ != Normal {
      return false;
    }
    var items := Filter(IsItem, input.Names());
    if |items| != |slots| {
      return false;
    }
    var sortedItems := Sort(items);
    var plain := Filter(IsPlainRecipe, slots);
    var grouped := Filter(IsGroupRecipe, slots);
    FilterKeepsSorted(IsPlainRecipe, slots);
    var rest := SetDifference(sortedItems, plain);
    SplitSlots(slots, plain, grouped);
    PrefilterIsExact(idef, items, slots, plain, grouped, rest);
    SizesAfterCancelling(items, slots, plain, grouped, rest);
    if |items| - |rest| != |plain| {
      return false;
    }
    assert |grouped| == |rest|;
    if |grouped| > HopcroftKarp.SHAPELESS_GROUPS_MAX {
      return false;
    }
    var g := BuildGraph(idef, rest, grouped);
    GraphMatchingIsAssignment(idef, rest, grouped, g);
    r := HopcroftKarp.CanMatchAll(g);
  }

  /** The order of the slots, and of the items in the crafting grid, does not matter. */
  lemma OrderIndependent(idef: ItemDefs, input: CraftInput, slots: seq<string>, input': CraftInput, slots': seq<string>)
    requires input'.method_ == input.method_ && multiset(input'.Names()) == multiset(input.Names())
    requires multiset(slots) == multiset(slots')
    ensures Satisfies(idef, input, slots) <==> Satisfies(idef, input', slots')
  {
    var items, items' := Filter(IsItem, input.Names()), Filter(IsItem, input'.Names());
    FilterMultiset(IsItem, input.Names());
    FilterMultiset(IsItem, input'.Names());
    assert multiset(items) == multiset(items');
    AssignableIsPairable(idef, items, slots);
    AssignableIsPairable(idef, items', slots');
    SamePairable(idef, items, slots, items', slots');
    SameGroupCount(slots, slots');
  }

  lemma SamePairable(idef: ItemDefs, a: seq<string>, r: seq<string>, a': seq<string>, r': seq<string>)
    requires multiset(a) == multiset(a') && multiset(r) == multiset(r')
    ensures Pairable(idef, a, r) <==> Pairable(idef, a', r')
  {
    if Pairable(idef, a, r) {
      var x, y :| Rearranges(idef, a, r, x, y);
      assert Rearranges(idef, a', r', x, y);
    }
    if Pairable(idef, a', r') {
      var x, y :| Rearranges(idef, a', r', x, y);
      assert Rearranges(idef, a, r, x, y);
    }
  }

  lemma SameGroupCount(s: seq<string>, t: seq<string>)
    requires multiset(s) == multiset(t)
    ensures |Filter(IsGroupRecipe, s)| == |Filter(IsGroupRecipe, t)|
  {
    FilterMultiset(IsGroupRecipe, s);
    FilterMultiset(IsGroupRecipe, t);
    var f, g := Filter(IsGroupRecipe, s), Filter(IsGroupRecipe, t);
    assert multiset(f) == multiset(g);
    assert |f| == |multiset(f)| && |g| == |multiset(g)|;
  }

  lemma SplitSlots(slots: seq<string>, plain: seq<string>, grouped: seq<string>)
    requires plain == Filter(IsPlainRecipe, slots) && grouped == Filter(IsGroupRecipe, slots)
    ensures multiset(slots) == multiset(plain) + multiset(grouped)
    ensures forall i :: 0 <= i < |plain| ==> IsPlainRecipe(plain[i])
  {
    FilterMultiset(IsPlainRecipe, slots);
    FilterMultiset(IsGroupRecipe, slots);
    forall i | 0 <= i < |plain|
      ensures IsPlainRecipe(plain[i])
    {
      assert plain[i] in multiset(plain);
    }
  }

  /** The size test tells whether all exact-name slots were cancelled, and then the sides are level. */
  lemma SizesAfterCancelling(items: seq<string>, slots: seq<string>, plain: seq<string>, grouped: seq<string>,
                             rest: seq<string>)
    requires |items| == |slots|
    requires multiset(slots) == multiset(plain) + multiset(grouped)
    requires multiset(rest) == multiset(items) - multiset(plain)
    ensures |items| - |rest| == |plain| <==> multiset(plain) <= multiset(items)
    ensures |items| - |rest| == |plain| ==> |rest| == |grouped|
  {
    var common := multiset(items) * multiset(plain);
    assert multiset(items) == multiset(rest) + common;
    assert multiset(plain) == common + (multiset(plain) - common);
    assert |items| == |multiset(items)| && |rest| == |multiset(rest)| && |plain| == |multiset(plain)|;
    assert |slots| == |multiset(slots)| && |grouped| == |multiset(grouped)|;
    if |common| == |plain| {
      assert multiset(plain) - common == multiset{};
    }
  }
}
