/**
  Item stacks: merging and taking, and the sums over lists of stacks in which
  the conservation laws of inventories are stated.
 */
module Stacks {
  import opened Numbers
  import opened Items

  const EMPTY: ItemStack := ItemStack("", 0, 0, map[])

  /** How many items of a name fit on one stack. */
  type StackMax = string -> u16

  predicate Empty(s: ItemStack) {
    s.count == 0
  }

  function Remove(s: ItemStack, n: u16): ItemStack
    requires n <= s.count
  {
    if n == s.count then EMPTY else s.(count := s.count - n)
  }

  function FreeSpace(max: StackMax, s: ItemStack): (n: u16)
    ensures s.count <= max(s.name) ==> s.count as int + n == max(s.name)
  {
    if s.count >= max(s.name) then 0 else max(s.name) - s.count
  }

  predicate SameKind(s: ItemStack, t: ItemStack) {
    s.name == t.name && s.metadata == t.metadata
  }

  /** Adds what fits of `x` onto `s`; the result is the new stack and what is left over. */
  function AddTo(max: StackMax, s: ItemStack, x: ItemStack): (ItemStack, ItemStack) {
    if Empty(x) then (s, x)
    else if Empty(s) then (x, EMPTY)
    else if !SameKind(s, x) then (s, x)
    else if x.count <= FreeSpace(max, s) then (s.(count := s.count + x.count), EMPTY)
    else
      var n := FreeSpace(max, s);
      (s.(count := s.count + n), Remove(x, n))
  }

  /** Would all of `x` fit, and what would be left over? */
  function Fits(max: StackMax, s: ItemStack, x: ItemStack): (bool, ItemStack) {
    var rest :=
      if Empty(x) then x
      else if Empty(s) then EMPTY
      else if !SameKind(s, x) then x
      else if x.count <= FreeSpace(max, s) then EMPTY
      else Remove(x, FreeSpace(max, s));
    (Empty(rest), rest)
  }

  /** Takes up to `n` items; the result is what remains and what was taken. */
  function Take(s: ItemStack, n: u32): (ItemStack, ItemStack) {
    if n == 0 || s.count == 0 then (s, EMPTY)
    else if n >= s.count then (EMPTY, s)
    else (Remove(s, n), s.(count := n))
  }

  // ---------------------------------------------------------------------------
  // Counting
  // ---------------------------------------------------------------------------

  /** A class of stacks, such as all stacks of a name and metadata. */
  type Kind = ItemStack -> bool

  function Weight(k: Kind, s: ItemStack): nat {
    if k(s) then s.count else 0
  }

  /** How many items of a kind a list holds. */
  function Total(k: Kind, items: seq<ItemStack>): nat {
    if items == [] then 0 else Total(k, items[..|items| - 1]) + Weight(k, items[|items| - 1])
  }

  /** A kind that looks at name and metadata only. */
  ghost predicate ByNameAndMeta(k: Kind) {
    forall s, t :: SameKind(s, t) ==> k(s) == k(t)
  }

  lemma {:induction false} TotalUpdate(k: Kind, items: seq<ItemStack>, i: nat, s: ItemStack)
    requires i < |items|
    ensures Total(k, items[i := s]) + Weight(k, items[i]) == Total(k, items) + Weight(k, s)
  {
    var n := |items| - 1;
    if i == n {
      assert items[i := s][..n] == items[..n];
    } else {
      assert items[i := s][..n] == items[..n][i := s];
      TotalUpdate(k, items[..n], i, s);
    }
  }

  /** Merging keeps the number of items of every kind. */
  lemma AddToConserves(max: StackMax, s: ItemStack, x: ItemStack, k: Kind)
    requires ByNameAndMeta(k)
    ensures var (s', rest) := AddTo(max, s, x); Weight(k, s') + Weight(k, rest) == Weight(k, s) + Weight(k, x)
  {
    var (s', rest) := AddTo(max, s, x);
    if !Empty(x) && !Empty(s) && SameKind(s, x) {
      assert SameKind(s', s);
      assert Empty(rest) || SameKind(rest, x);
    }
  }

  lemma TakeConserves(s: ItemStack, n: u32, k: Kind)
    requires ByNameAndMeta(k)
    ensures var (rest, taken) := Take(s, n);
            && Weight(k, rest) + Weight(k, taken) == Weight(k, s)
            && taken.count == (if n <= s.count then n else s.count)
            && rest.count as int + taken.count == s.count
            && (!Empty(taken) ==> SameKind(taken, s))
            && (!Empty(rest) ==> SameKind(rest, s))
  {
    var (rest, taken) := Take(s, n);
    if !Empty(taken) && !Empty(rest) {
      assert SameKind(rest, s) && SameKind(taken, s);
    }
  }

  /** The leftover is a smaller stack of the same kind, and `Fits` foretells it. */
  lemma LeftoverShape(max: StackMax, s: ItemStack, x: ItemStack)
    ensures var (_, rest) := AddTo(max, s, x);
            rest.count <= x.count && (!Empty(rest) ==> rest == x.(count := rest.count)) &&
                Fits(max, s, x) == (Empty(rest), rest)
  {
  }
}
