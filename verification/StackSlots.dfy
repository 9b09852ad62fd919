/** What the operations of an inventory list do to each single slot. */
module StackSlots {
  import opened Numbers
  import opened Items
  import opened Stacks
  import opened StackLists

  // ---------------------------------------------------------------------------
  // Adding
  // ---------------------------------------------------------------------------

  /** How many more items of `x` the slot can hold, if it holds some already. */
  function Space(max: StackMax, slot: ItemStack, x: ItemStack): nat {
    if slot.count != 0 && slot.name == x.name && slot.metadata == x.metadata && slot.count < max(slot.name)
    then max(slot.name) - slot.count
    else 0
  }

  /** The space of the slots from `k` up to `i`. */
  function SpaceBetween(max: StackMax, items: seq<ItemStack>, x: ItemStack, k: nat, i: nat): nat
    requires k <= i <= |items|
    decreases i - k
  {
    if k == i then 0 else Space(max, items[k], x) + SpaceBetween(max, items, x, k + 1, i)
  }

  /** What is left of `n` after `m` have been taken away. */
  function Beyond(n: nat, m: nat): nat {
    if n > m then n - m else 0
  }

  lemma AddToIs(max: StackMax, slot: ItemStack, x: ItemStack)
    requires slot.count != 0
    ensures var (s, rest) := AddTo(max, slot, x);
            var n := Min(Space(max, slot, x), x.count);
            && s == slot.(count := slot.count + n) && rest.count == x.count - n
            && (rest.count != 0 ==> rest == x.(count := rest.count))
  {
  }

  lemma {:induction false} PassKeepsBefore(max: StackMax, items: seq<ItemStack>, x: ItemStack, k: nat, empties: bool,
                                           i: nat)
    requires i < k <= |items|
    ensures Pass(max, items, x, k, empties).0[i] == items[i]
    decreases |items| - k
  {
    if k == |items| || Empty(x) {
    } else if Empty(items[k]) != empties {
      PassKeepsBefore(max, items, x, k + 1, empties, i);
    } else {
      var (s, rest) := AddTo(max, items[k], x);
      PassKeepsBefore(max, items[k := s], rest, k + 1, empties, i);
    }
  }

  lemma {:induction false} SameSpace(max: StackMax, items: seq<ItemStack>, other: seq<ItemStack>, x: ItemStack,
                                     y: ItemStack, k: nat, i: nat)
    requires k <= i <= |items| == |other| && (forall j :: k <= j < i ==> items[j] == other[j])
    requires x.name == y.name && x.metadata == y.metadata
    ensures SpaceBetween(max, items, x, k, i) == SpaceBetween(max, other, y, k, i)
    decreases i - k
  {
    if k < i {
      SameSpace(max, items, other, x, y, k + 1, i);
    }
  }

  /** The pass over the occupied slots fills each with what those before it have left over. */
  lemma {:induction false} OccupiedGains(max: StackMax, items: seq<ItemStack>, x: ItemStack, k: nat, i: nat)
    requires k <= i < |items|
    ensures var n := Min(Space(max, items[i], x), Beyond(x.count, SpaceBetween(max, items, x, k, i)));
            items[i].count + n < 0x1_0000 &&
            Pass(max, items, x, k, false).0[i] == items[i].(count := items[i].count + n)
    decreases i - k
  {
    if Empty(x) {
    } else if Empty(items[k]) {
      if k < i {
        OccupiedGains(max, items, x, k + 1, i);
      } else {
        PassKeepsBefore(max, items, x, k + 1, false, i);
      }
    } else {
      var (s, rest) := AddTo(max, items[k], x);
      AddToIs(max, items[k], x);
      var items' := items[k := s];
      if k < i {
        OccupiedGains(max, items', rest, k + 1, i);
        if rest.count != 0 {
          SameSpace(max, items, items', x, rest, k + 1, i);
        }
      } else {
        PassKeepsBefore(max, items', rest, k + 1, false, i);
      }
    }
  }

  /** The pass over the empty slots puts everything into the first of them. */
  lemma {:induction false} FirstEmptyGains(max: StackMax, items: seq<ItemStack>, x: ItemStack, k: nat, i: nat)
    requires k <= i < |items| && x.count != 0
    ensures Pass(max, items, x, k, true).0[i] ==
            if items[i].count == 0 && forall j :: k <= j < i ==> items[j].count != 0 then x else items[i]
    decreases i - k
  {
    if !Empty(items[k]) {
      if k < i {
        FirstEmptyGains(max, items, x, k + 1, i);
      } else {
        PassKeepsBefore(max, items, x, k + 1, true, i);
      }
    } else {
      assert AddTo(max, items[k], x) == (x, EMPTY);
      PassDone(max, items[k := x], EMPTY, k + 1);
    }
  }

  lemma PassDone(max: StackMax, items: seq<ItemStack>, x: ItemStack, k: nat)
    requires k <= |items| && x.count == 0
    ensures Pass(max, items, x, k, true) == (items, x)
  {
  }

  /**
    Slot by slot: an occupied one gains what it has space for, of what the
    occupied ones before it leave; what they all leave goes to the first empty
    slot.
   */
  lemma AddedAt(max: StackMax, items: seq<ItemStack>, x: ItemStack, i: nat)
    requires i < |items|
    ensures var left := Beyond(x.count, SpaceBetween(max, items, x, 0, |items|));
            var n := Min(Space(max, items[i], x), Beyond(x.count, SpaceBetween(max, items, x, 0, i)));
            items[i].count + n < 0x1_0000 && left < 0x1_0000 &&
            AddAll(max, items, x).0[i] ==
            if items[i].count != 0 then items[i].(count := items[i].count + n)
            else if left > 0 && forall j :: 0 <= j < i ==> items[j].count != 0 then x.(count := left)
            else items[i]
  {
    OccupiedGains(max, items, x, 0, i);
    OccupiedPass(max, items, x, 0);
    FreeIsSpace(max, items, x, 0);
    if x.count != 0 {
      var (first, rest) := Pass(max, items, x, 0, false);
      if rest.count != 0 {
        OccupiedRest(max, items, x, 0);
        FirstEmptyGains(max, first, rest, 0, i);
      }
    }
  }

  lemma {:induction false} FreeIsSpace(max: StackMax, items: seq<ItemStack>, x: ItemStack, k: nat)
    requires k <= |items|
    ensures FreeFrom(max, items, x, k) == SpaceBetween(max, items, x, k, |items|)
    decreases |items| - k
  {
    if k < |items| {
      FreeIsSpace(max, items, x, k + 1);
    }
  }

  lemma {:induction false} OccupiedRest(max: StackMax, items: seq<ItemStack>, x: ItemStack, k: nat)
    requires k <= |items|
    ensures var rest := Pass(max, items, x, k, false).1; rest.count != 0 ==> rest == x.(count := rest.count)
    decreases |items| - k
  {
    if k == |items| || Empty(x) {
    } else if Empty(items[k]) {
      OccupiedRest(max, items, x, k + 1);
    } else {
      var (s, rest) := AddTo(max, items[k], x);
      AddToIs(max, items[k], x);
      OccupiedRest(max, items[k := s], rest, k + 1);
    }
  }

  // ---------------------------------------------------------------------------
  // Removing
  // ---------------------------------------------------------------------------

  /** The stack, or what is left of it. */
  predicate PartOf(s: ItemStack, whole: ItemStack) {
    s == whole || s == EMPTY || (s.count < whole.count && s == whole.(count := s.count))
  }

  /** Items go from the end of the list: a slot is touched only when all later ones of the kind are used up. */
  lemma {:induction false} RemovedFromTheEnd(items: seq<ItemStack>, k: Kind, n: nat, count: u16)
    requires n <= |items|
    ensures var r := RemoveBefore(items, k, n, count);
            && (forall i :: 0 <= i < |items| ==> PartOf(r[i], items[i]))
            && (forall i :: n <= i < |items| ==> r[i] == items[i])
            && (forall i, j :: 0 <= i < j < n && k(items[j]) && r[i] != items[i] ==> r[j].count == 0)
    decreases n
  {
    if n > 0 {
      if !k(items[n - 1]) {
        RemovedFromTheEnd(items, k, n - 1, count);
      } else {
        var (rest, taken) := Take(items[n - 1], count);
        if taken.count != count {
          var items' := items[n - 1 := rest];
          RemovedFromTheEnd(items', k, n - 1, count - taken.count);
          var r := RemoveBefore(items', k, n - 1, count - taken.count);
          assert r[n - 1] == rest && rest.count == 0;
          forall i, j | 0 <= i < j < n && k(items[j]) && r[i] != items[i]
            ensures r[j].count == 0
          {
            assert j == n - 1 || items'[j] == items[j];
          }
        }
      }
    }
  }

  // ---------------------------------------------------------------------------
  // Moving between two slots
  // ---------------------------------------------------------------------------

  /** How many of `asked` items of the source go onto the destination. */
  function Onto(max: StackMax, src: ItemStack, dst: ItemStack, asked: nat): nat {
    if dst.count == 0 then asked else Min(asked, Space(max, dst, src))
  }

  /** All items of the source, or as many as are asked for. */
  function Asked(src: ItemStack, count: nat): nat {
    if count == 0 then src.count else Min(count, src.count)
  }

  /**
    A move takes what is asked for as far as it fits; if nothing fits at all, the
    two stacks stay, or change places if that is wanted.
   */
  lemma MoveIs(max: StackMax, src: ItemStack, dst: ItemStack, count: u32, swapIfNeeded: bool)
    requires src.count != 0
    ensures var n := Onto(max, src, dst, Asked(src, count));
            var m := Move(max, Slot(src), Slot(dst), count, swapIfNeeded);
            && m.src.Slot? && m.dst.Slot? && m.swapped == (n == 0 && swapIfNeeded)
            && (m.swapped ==> m.src.stack == dst && m.dst.stack == src && m.moved == src)
            && (!m.swapped ==>
                  && m.moved.count == n && m.src.stack.count == src.count - n
                  && (n == 0 ==> m.dst.stack == dst && m.src.stack == src)
                  && (m.src.stack.count != 0 ==> m.src.stack == src.(count := src.count - n))
                  && (n != 0 ==> m.moved == src.(count := n) && dst.count + n < 0x1_0000 &&
                                 m.dst.stack == (if dst.count == 0 then src else dst).(count := dst.count + n)))
  {
    MoveGuards(max, Slot(src), Slot(dst), count);
    TakeConserves(src, if count == 0 then src.count else count, s => true);
    var (src1, x) := TakeSlot(Slot(src), count);
    if dst.count != 0 {
      AddToIs(max, dst, x);
    }
  }
}
