/**
  What the operations of an inventory list compute, on plain lists of stacks,
  and the laws they obey.
 */
module StackLists {
  import opened Numbers
  import opened Items
  import opened Stacks

  // ---------------------------------------------------------------------------
  // Adding
  // ---------------------------------------------------------------------------

  /** One pass over the slots from `k` on: over the occupied ones, or over the empty ones. */
  function Pass(max: StackMax, items: seq<ItemStack>, x: ItemStack, k: nat,
                empties: bool): (r: (seq<ItemStack>, ItemStack))
    requires k <= |items|
    ensures |r.0| == |items|
    decreases |items| - k
  {
    if k == |items| || Empty(x) then (items, x)
    else if Empty(items[k]) != empties then Pass(max, items, x, k + 1, empties)
    else
      var (s, rest) := AddTo(max, items[k], x);
      Pass(max, items[k := s], rest, k + 1, empties)
  }

  /** Fills up matching stacks first, then empty slots; the result is the new list and what is left over. */
  function AddAll(max: StackMax, items: seq<ItemStack>, x: ItemStack): (r: (seq<ItemStack>, ItemStack))
    ensures |r.0| == |items|
  {
    if Empty(x) then (items, x)
    else
      var (first, rest) := Pass(max, items, x, 0, false);
      if Empty(rest) then (first, rest) else Pass(max, first, rest, 0, true)
  }

  lemma {:induction false} PassConserves(max: StackMax, items: seq<ItemStack>, x: ItemStack, k: nat, empties: bool,
                                         kind: Kind)
    requires k <= |items| && ByNameAndMeta(kind)
    ensures var (items', rest) := Pass(max, items, x, k, empties);
            Total(kind, items') + Weight(kind, rest) == Total(kind, items) + Weight(kind, x)
    decreases |items| - k
  {
    if k == |items| || Empty(x) {
    } else if Empty(items[k]) != empties {
      PassConserves(max, items, x, k + 1, empties, kind);
    } else {
      var (s, rest) := AddTo(max, items[k], x);
      AddToConserves(max, items[k], x, kind);
      TotalUpdate(kind, items, k, s);
      PassConserves(max, items[k := s], rest, k + 1, empties, kind);
    }
  }

  /** Nothing is created or lost by adding, for any class of items told by name and metadata. */
  lemma AddAllConserves(max: StackMax, items: seq<ItemStack>, x: ItemStack, kind: Kind)
    requires ByNameAndMeta(kind)
    ensures var (items', rest) := AddAll(max, items, x);
            Total(kind, items') + Weight(kind, rest) == Total(kind, items) + Weight(kind, x)
  {
    if !Empty(x) {
      var (first, rest) := Pass(max, items, x, 0, false);
      PassConserves(max, items, x, 0, false, kind);
      if !Empty(rest) {
        PassConserves(max, first, rest, 0, true, kind);
      }
    }
  }

  // ---------------------------------------------------------------------------
  // Room
  // ---------------------------------------------------------------------------

  /** The walk that asks each slot in turn for what the previous ones left over. */
  function RoomFrom(max: StackMax, items: seq<ItemStack>, x: ItemStack, k: nat): bool
    requires k <= |items|
    decreases |items| - k
  {
    if k == |items| then false
    else
      var (fits, rest) := Fits(max, items[k], x);
      fits || RoomFrom(max, items, rest, k + 1)
  }

  /** Free space for `x` on the matching stacks from slot `k` on. */
  function FreeFrom(max: StackMax, items: seq<ItemStack>, x: ItemStack, k: nat): nat
    requires k <= |items|
    decreases |items| - k
  {
    if k == |items| then 0
    else (if !Empty(items[k]) && SameKind(items[k], x) then FreeSpace(max, items[k]) else 0) +
         FreeFrom(max, items, x, k + 1)
  }

  predicate EmptySlotFrom(items: seq<ItemStack>, k: nat)
    requires k <= |items|
  {
    exists i :: k <= i < |items| && Empty(items[i])
  }

  /** There is room exactly when a slot is empty or the matching stacks have enough space. */
  lemma {:induction false} RoomIs(max: StackMax, items: seq<ItemStack>, x: ItemStack, k: nat)
    requires k <= |items| && !Empty(x)
    ensures RoomFrom(max, items, x, k) <==> EmptySlotFrom(items, k) || FreeFrom(max, items, x, k) >= x.count
    decreases |items| - k
  {
    if k < |items| {
      var (fits, rest) := Fits(max, items[k], x);
      if !fits {
        FreeSameKind(max, items, x, rest, k + 1);
        RoomIs(max, items, rest, k + 1);
      }
    }
  }

  lemma {:induction false} FreeSameKind(max: StackMax, items: seq<ItemStack>, x: ItemStack, y: ItemStack, k: nat)
    requires k <= |items| && SameKind(x, y)
    ensures FreeFrom(max, items, x, k) == FreeFrom(max, items, y, k)
    decreases |items| - k
  {
    if k < |items| {
      FreeSameKind(max, items, x, y, k + 1);
    }
  }

  /** Slots before `k` play no part. */
  lemma {:induction false} FreeSuffix(max: StackMax, items: seq<ItemStack>, other: seq<ItemStack>, x: ItemStack, k: nat)
    requires k <= |items| == |other| && items[k..] == other[k..]
    ensures FreeFrom(max, items, x, k) == FreeFrom(max, other, x, k)
    decreases |items| - k
  {
    if k < |items| {
      assert items[k] == items[k..][0] && other[k] == other[k..][0];
      assert items[k + 1..] == items[k..][1..] && other[k + 1..] == other[k..][1..];
      FreeSuffix(max, items, other, x, k + 1);
    }
  }

  /** The first pass leaves over what the matching stacks have no space for. */
  lemma {:induction false} OccupiedPass(max: StackMax, items: seq<ItemStack>, x: ItemStack, k: nat)
    requires k <= |items|
    ensures var (items', rest) := Pass(max, items, x, k, false);
            && rest.count == (if FreeFrom(max, items, x, k) >= x.count then 0 else x.count - FreeFrom(max, items, x, k))
            && (!Empty(rest) ==> SameKind(rest, x))
            && (forall i :: 0 <= i < |items| ==> (Empty(items'[i]) <==> Empty(items[i])))
    decreases |items| - k
  {
    if k == |items| || Empty(x) {
    } else if Empty(items[k]) {
      OccupiedPass(max, items, x, k + 1);
    } else {
      var (s, rest) := AddTo(max, items[k], x);
      LeftoverShape(max, items[k], x);
      var items' := items[k := s];
      OccupiedPass(max, items', rest, k + 1);
      assert items'[k + 1..] == items[k + 1..];
      FreeSuffix(max, items', items, x, k + 1);
      if !Empty(rest) {
        FreeSameKind(max, items', x, rest, k + 1);
      }
    }
  }

  /** The second pass puts everything into the first empty slot. */
  lemma {:induction false} EmptyPass(max: StackMax, items: seq<ItemStack>, x: ItemStack, k: nat)
    requires k <= |items| && !Empty(x)
    ensures var (items', rest) := Pass(max, items, x, k, true);
            (Empty(rest) <==> EmptySlotFrom(items, k)) && (!Empty(rest) ==> rest == x && items' == items)
    decreases |items| - k
  {
    if k < |items| {
      if !Empty(items[k]) {
        EmptyPass(max, items, x, k + 1);
      }
    }
  }

  /** An empty slot takes everything; else what exceeds the space on the matching stacks is left over. */
  lemma LeftoverIs(max: StackMax, items: seq<ItemStack>, x: ItemStack)
    ensures var (items', rest) := AddAll(max, items, x);
            rest.count == if EmptySlotFrom(items, 0) || FreeFrom(max, items, x, 0) >= x.count then 0
                          else x.count - FreeFrom(max, items, x, 0)
  {
    if !Empty(x) {
      var (first, rest) := Pass(max, items, x, 0, false);
      OccupiedPass(max, items, x, 0);
      if !Empty(rest) {
        EmptyPass(max, first, rest, 0);
      }
    }
  }

  /**
    The room test foretells whether adding leaves nothing over, although adding
    goes over the slots twice and the test only once. The one exception is the
    empty stack and a list without slots.
   */
  lemma RoomIffNothingLeft(max: StackMax, items: seq<ItemStack>, x: ItemStack)
    ensures RoomFrom(max, items, x, 0) <==> Empty(AddAll(max, items, x).1) && !(Empty(x) && items == [])
  {
    LeftoverIs(max, items, x);
    if !Empty(x) {
      RoomIs(max, items, x, 0);
    }
  }

  // ---------------------------------------------------------------------------
  // Contents
  // ---------------------------------------------------------------------------

  /** The stacks that a request for `item` refers to. */
  function Requested(item: ItemStack, matchMeta: bool): Kind {
    (s: ItemStack) => s.name == item.name && (!matchMeta || s.metadata == item.metadata)
  }

  /** The walk from the last slot to the first that counts down what is missing. */
  function ContainsBefore(items: seq<ItemStack>, k: Kind, n: nat, count: nat): bool
    requires n <= |items|
    decreases n
  {
    if n == 0 || count == 0 then count == 0
    else if !k(items[n - 1]) then ContainsBefore(items, k, n - 1, count)
    else if items[n - 1].count >= count then true
    else ContainsBefore(items, k, n - 1, count - items[n - 1].count)
  }

  lemma {:induction false} ContainsIffEnough(items: seq<ItemStack>, k: Kind, n: nat, count: nat)
    requires n <= |items|
    ensures ContainsBefore(items, k, n, count) <==> Total(k, items[..n]) >= count
    decreases n
  {
    if n > 0 {
      assert items[..n][..n - 1] == items[..n - 1];
      ContainsIffEnough(items, k, n - 1, count);
      if k(items[n - 1]) && items[n - 1].count < count {
        ContainsIffEnough(items, k, n - 1, count - items[n - 1].count);
      }
    }
  }

  /** Takes `count` items of a kind from the slots before `n`, last slot first. */
  function RemoveBefore(items: seq<ItemStack>, k: Kind, n: nat, count: u16): (r: seq<ItemStack>)
    requires n <= |items|
    ensures |r| == |items|
    decreases n
  {
    if n == 0 then items
    else if !k(items[n - 1]) then RemoveBefore(items, k, n - 1, count)
    else
      var (rest, taken) := Take(items[n - 1], count);
      var items' := items[n - 1 := rest];
      if taken.count == count then items' else RemoveBefore(items', k, n - 1, count - taken.count)
  }

  function Min(a: nat, b: nat): nat {
    if a <= b then a else b
  }

  /** What one slot gives is missing from the list, and the slots before it are as they were. */
  lemma SlotGives(items: seq<ItemStack>, k: Kind, n: nat, rest: ItemStack, taken: nat, items': seq<ItemStack>)
    requires 0 < n <= |items| && Weight(k, rest) + taken == Weight(k, items[n - 1])
    requires items' == items[n - 1 := rest]
    ensures Total(k, items') + taken == Total(k, items)
    ensures Total(k, items'[..n - 1]) == Total(k, items[..n - 1])
    ensures Total(k, items[..n]) == Total(k, items[..n - 1]) + Weight(k, items[n - 1])
  {
    TotalUpdate(k, items, n - 1, rest);
    assert items[..n][..n - 1] == items[..n - 1];
    assert items'[..n - 1] == items[..n - 1];
  }

  /** Removing takes exactly the smaller of what is asked for and what is there. */
  lemma {:induction false} RemoveTakesMin(items: seq<ItemStack>, k: Kind, n: nat, count: u16)
    requires n <= |items| && ByNameAndMeta(k)
    ensures Total(k, RemoveBefore(items, k, n, count)) + Min(count, Total(k, items[..n])) == Total(k, items)
    decreases n
  {
    if n > 0 {
      var s := items[n - 1];
      if !k(s) {
        SlotGives(items, k, n, s, 0, items);
        RemoveTakesMin(items, k, n - 1, count);
      } else {
        var (rest, taken) := Take(s, count);
        var items' := items[n - 1 := rest];
        TakenWeight(s, count, k);
        SlotGives(items, k, n, rest, taken.count, items');
        if taken.count != count {
          RemoveTakesMin(items', k, n - 1, count - taken.count);
        }
      }
    }
  }

  /** Removing touches no stack of another kind. */
  lemma {:induction false} RemoveKeepsOthers(items: seq<ItemStack>, k: Kind, n: nat, count: u16)
    requires n <= |items|
    ensures forall i :: 0 <= i < |items| && !k(items[i]) ==> RemoveBefore(items, k, n, count)[i] == items[i]
    decreases n
  {
    if n > 0 {
      if !k(items[n - 1]) {
        RemoveKeepsOthers(items, k, n - 1, count);
      } else {
        var (rest, taken) := Take(items[n - 1], count);
        if taken.count != count {
          RemoveKeepsOthers(items[n - 1 := rest], k, n - 1, count - taken.count);
        }
      }
    }
  }

  lemma TakenWeight(s: ItemStack, n: u32, k: Kind)
    requires ByNameAndMeta(k) && k(s)
    ensures var (rest, taken) := Take(s, n); Weight(k, rest) + taken.count == s.count
  {
    TakeConserves(s, n, k);
  }

  // ---------------------------------------------------------------------------
  // Moving between two slots
  // ---------------------------------------------------------------------------

  /** A slot that may lie outside its list. */
  datatype Slot = NoSlot | Slot(stack: ItemStack)

  function SlotAt(items: seq<ItemStack>, i: nat): Slot {
    if i < |items| then Slot(items[i]) else NoSlot
  }

  function PutAt(items: seq<ItemStack>, i: nat, s: Slot): (r: seq<ItemStack>)
    ensures |r| == |items|
  {
    if i < |items| && s.Slot? then items[i := s.stack] else items
  }

  /** Takes `count` items, or everything if `count` is 0. */
  function TakeSlot(src: Slot, count: u32): (Slot, ItemStack) {
    match src
    case NoSlot => (NoSlot, EMPTY)
    case Slot(s) =>
      if count == 0 then (Slot(EMPTY), s)
      else var (rest, taken) := Take(s, count); (Slot(rest), taken)
  }

  function AddSlot(max: StackMax, dst: Slot, x: ItemStack): (Slot, ItemStack) {
    match dst
    case NoSlot => (NoSlot, x)
    case Slot(s) => var (s', rest) := AddTo(max, s, x); (Slot(s'), rest)
  }

  datatype Moved = Moved(src: Slot, dst: Slot, moved: ItemStack, swapped: bool)

  /**
    A move between two different slots: what fits is moved, the rest goes back,
    and if nothing at all could be moved the two stacks may change places.
   */
  function Move(max: StackMax, src: Slot, dst: Slot, count: u32, swapIfNeeded: bool): Moved {
    var (src1, x) := TakeSlot(src, count);
    var (dst1, rest) := AddSlot(max, dst, x);
    if Empty(rest) || src1.NoSlot? || rest.count as int + src1.stack.count >= 0x1_0000 || rest.count > x.count
    then Moved(src1, dst1, x, false)
    else
      var back := rest.(count := rest.count + src1.stack.count);
      var moved := Remove(x, rest.count);
      if !(Empty(moved) && swapIfNeeded) then Moved(Slot(back), dst1, moved, false)
      else if dst1.NoSlot? then Moved(Slot(back), NoSlot, back, true)
      else Moved(Slot(dst1.stack), Slot(back), back, true)
  }

  /** The guards in `Move` that no input reaches: leftovers come from the source and fit back onto it. */
  lemma MoveGuards(max: StackMax, src: Slot, dst: Slot, count: u32)
    ensures var (src1, x) := TakeSlot(src, count);
            var (_, rest) := AddSlot(max, dst, x);
            !Empty(rest) ==>
              && src1.Slot? && rest.count <= x.count && rest.count as int + src1.stack.count < 0x1_0000
              && (!Empty(src1.stack) ==> SameKind(src1.stack, x)) && rest == x.(count := rest.count)
  {
    var (src1, x) := TakeSlot(src, count);
    if dst.Slot? {
      LeftoverShape(max, dst.stack, x);
    }
    if src.Slot? && count > 0 {
      TakeConserves(src.stack, count, s => true);
    }
  }

  function SlotWeight(k: Kind, s: Slot): nat {
    if s.Slot? then Weight(k, s.stack) else 0
  }

  /** Moving, merging and swapping lose and create nothing. */
  lemma MoveConserves(max: StackMax, src: Slot, dst: Slot, count: u32, swapIfNeeded: bool, k: Kind)
    requires ByNameAndMeta(k)
    ensures var m := Move(max, src, dst, count, swapIfNeeded);
            SlotWeight(k, m.src) + SlotWeight(k, m.dst) == SlotWeight(k, src) + SlotWeight(k, dst)
  {
    MoveGuards(max, src, dst, count);
    var (src1, x) := TakeSlot(src, count);
    var (dst1, rest) := AddSlot(max, dst, x);
    if src.Slot? && count > 0 {
      TakeConserves(src.stack, count, k);
    }
    if dst.Slot? {
      AddToConserves(max, dst.stack, x, k);
    }
    if !Empty(rest) {
      var back := rest.(count := rest.count + src1.stack.count);
      assert SameKind(back, x);
      if dst1.Slot? && dst.Slot? && rest.count == x.count {
        assert Weight(k, dst1.stack) == Weight(k, dst.stack);
      }
    }
  }

  // ---------------------------------------------------------------------------
  // Moving into a whole list
  // ---------------------------------------------------------------------------

  /** A pass never empties a slot, never changes the kind of an occupied one, and accounts for every item added. */
  lemma {:induction false} PassSlot(max: StackMax, items: seq<ItemStack>, x: ItemStack, k: nat, empties: bool, i: nat)
    requires k <= |items| && i < |items|
    ensures var (items', rest) := Pass(max, items, x, k, empties);
            && items'[i].count as int + rest.count <= items[i].count as int + x.count
            && (!Empty(items[i]) ==> !Empty(items'[i]) && SameKind(items'[i], items[i]))
            && (!Empty(rest) ==> SameKind(rest, x))
    decreases |items| - k
  {
    if k == |items| || Empty(x) {
    } else if Empty(items[k]) != empties {
      PassSlot(max, items, x, k + 1, empties, i);
    } else {
      var (s, rest) := AddTo(max, items[k], x);
      LeftoverShape(max, items[k], x);
      PassSlot(max, items[k := s], rest, k + 1, empties, i);
    }
  }

  lemma AddAllSlot(max: StackMax, items: seq<ItemStack>, x: ItemStack, i: nat)
    requires i < |items|
    ensures var (items', rest) := AddAll(max, items, x);
            && items'[i].count as int + rest.count <= items[i].count as int + x.count
            && (!Empty(items[i]) ==> !Empty(items'[i]) && SameKind(items'[i], items[i]))
            && (!Empty(rest) ==> SameKind(rest, x) && !Empty(items[i]))
  {
    if !Empty(x) {
      var (first, rest) := Pass(max, items, x, 0, false);
      PassSlot(max, items, x, 0, false, i);
      LeftoverIs(max, items, x);
      if !Empty(rest) {
        PassSlot(max, first, rest, 0, true, i);
      }
    }
  }

  lemma AddAllRest(max: StackMax, items: seq<ItemStack>, x: ItemStack)
    ensures var (items', rest) := AddAll(max, items, x);
            rest.count <= x.count && (!Empty(rest) ==> SameKind(rest, x))
  {
    if !Empty(x) {
      var (first, rest) := Pass(max, items, x, 0, false);
      OccupiedPass(max, items, x, 0);
      if !Empty(rest) {
        EmptyPass(max, first, rest, 0);
      }
    }
  }
}
