/** An inventory list: the operations that update its slots and its dirty flag in place. */
module InventoryLists {
  import opened Numbers
  import opened Items
  import opened Stacks
  import opened StackLists
  import SyncFormat

  class InventoryList {
    var name: string
    var items: seq<ItemStack>
    var width: u32
    var dirty: bool
    const max: StackMax

    constructor (name: string, size: u32, max: StackMax)
      ensures this.name == name && this.max == max && width == 0 && dirty
      ensures items == seq(size, _ => EMPTY)
    {
      this.name := name;
      this.max := max;
      items := seq(size, _ => EMPTY);
      width := 0;
      dirty := true;
    }

    function View(): SyncFormat.ListView
      reads `name, `width, `items
    {
      SyncFormat.ListView(name, width, items)
    }

    /** Nothing that a copy would have to carry has changed without the list being marked. */
    twostate predicate Marked()
      reads this
    {
      (old(dirty) ==> dirty) && (View() != old(View()) ==> dirty)
    }

    method Serialize() returns (lines: seq<SyncFormat.Line>)
      ensures lines == SyncFormat.WriteList(View())
    {
      lines := [SyncFormat.WidthLine(width)];
      for i := 0 to |items|
        invariant lines == [SyncFormat.WidthLine(width)] + SyncFormat.SlotLines(items)[..i]
      {
        lines := lines + [if Empty(items[i]) then SyncFormat.EmptyLine else SyncFormat.ItemLine(items[i])];
      }
      lines := lines + [SyncFormat.EndListLine];
    }

    /** Reads the lines of one list and returns those behind it. */
    method DeSerialize(lines: seq<SyncFormat.Line>) returns (rest: SyncFormat.Result<seq<SyncFormat.Line>>)
      modifies `items, `width, `dirty
      ensures dirty
      ensures SyncFormat.ReadList(old(items), lines) ==
              if rest.Ok? then SyncFormat.Ok(SyncFormat.ListRead(items, width, rest.value))
                  else SyncFormat.SerializationError
    {
      dirty := true;
      width := 0;
      ghost var result := SyncFormat.ReadList(items, lines);
      var n := 0;
      var left := lines;
      while left != []
        invariant SyncFormat.ReadSlots(items, n, width, left) == result
        invariant dirty
        decreases |left|
      {
        var line := left[0];
        left := left[1..];
        match line
        case EndListLine =>
          items := SyncFormat.ClearFrom(items, n);
          return SyncFormat.Ok(left);
        case WidthLine(w) =>
          width := w;
        case ItemLine(s) =>
          if n >= |items| {
            return SyncFormat.SerializationError;
          }
          items := items[n := s];
          n := n + 1;
        case EmptyLine =>
          if n >= |items| {
            return SyncFormat.SerializationError;
          }
          items := items[n := EMPTY];
          n := n + 1;
        case KeepLine =>
          n := n + 1;
        case _ =>
      }
      return SyncFormat.SerializationError;
    }

    method ClearItems()
      modifies `items, `dirty
      ensures items == seq(|old(items)|, _ => EMPTY) && dirty
      ensures Marked()
    {
      items := seq(|items|, _ => EMPTY);
      dirty := true;
    }

    /** Cuts off slots or appends empty ones. */
    method SetSize(size: u32)
      modifies `items, `dirty
      ensures |items| == size
      ensures forall i :: 0 <= i < size ==> items[i] == if i < |old(items)| then old(items)[i] else EMPTY
      ensures dirty == (old(dirty) || size != |old(items)|)
      ensures Marked()
    {
      if size == |items| {
        return;
      }
      var before := items;
      items := seq(size, i requires 0 <= i < size => if i < |before| then before[i] else EMPTY);
      dirty := true;
    }

    method SetWidth(width: u32)
      modifies `width, `dirty
      ensures this.width == width && dirty
      ensures Marked()
    {
      this.width := width;
      dirty := true;
    }

    method ChangeItem(i: nat, newItem: ItemStack) returns (oldItem: ItemStack)
      modifies `items, `dirty
      ensures items == PutAt(old(items), i, Slot(newItem))
      ensures oldItem == if i < |items| then old(items)[i] else newItem
      ensures dirty == (old(dirty) || items != old(items))
      ensures Marked()
    {
      if i >= |items| {
        return newItem;
      }
      oldItem := items[i];
      if oldItem != newItem {
        items := items[i := newItem];
        dirty := true;
        assert items[i] != old(items)[i];
      } else {
        assert items == items[i := newItem];
      }
    }

    method DeleteItem(i: nat)
      requires i < |items|
      modifies `items, `dirty
      ensures items == old(items)[i := EMPTY] && dirty
      ensures Marked()
    {
      items := items[i := EMPTY];
      dirty := true;
    }

    method AddItemAt(i: nat, newItem: ItemStack) returns (leftover: ItemStack)
      modifies `items, `dirty
      ensures (SlotAt(items, i), leftover) == AddSlot(max, SlotAt(old(items), i), newItem)
      ensures items == PutAt(old(items), i, SlotAt(items, i))
      ensures dirty == (old(dirty) || leftover != newItem)
      ensures leftover == newItem ==> items == old(items)
      ensures Marked()
    {
      if i >= |items| {
        return newItem;
      }
      var (s, rest) := AddTo(max, items[i], newItem);
      AddToIdle(max, items[i], newItem);
      items := items[i := s];
      leftover := rest;
      if leftover != newItem {
        dirty := true;
      } else {
        assert items == old(items);
      }
    }

    /** One pass of adding, in the order of the slots, until everything is stored. */
    method AddPass(newItem: ItemStack, empties: bool) returns (leftover: ItemStack)
      modifies `items, `dirty
      ensures (items, leftover) == Pass(max, old(items), newItem, 0, empties)
      ensures dirty == (old(dirty) || leftover != newItem)
      ensures leftover == newItem ==> items == old(items)
      ensures Marked()
    {
      leftover := newItem;
      ghost var result := Pass(max, items, newItem, 0, empties);
      var i := 0;
      while i < |items| && !Empty(leftover)
        invariant 0 <= i <= |items| && |items| == |old(items)|
        invariant Pass(max, items, leftover, i, empties) == result
        invariant dirty == (old(dirty) || leftover != newItem)
        invariant leftover == newItem ==> items == old(items)
        invariant leftover.count <= newItem.count && (leftover.count == newItem.count ==> leftover == newItem)
      {
        if Empty(items[i]) == empties {
          LeftoverShape(max, items[i], leftover);
          leftover := AddItemAt(i, leftover);
        }
        i := i + 1;
      }
    }

    /** Fills up occupied slots first, then empty ones. */
    method AddItem(newItem: ItemStack) returns (leftover: ItemStack)
      modifies `items, `dirty
      ensures (items, leftover) == AddAll(max, old(items), newItem)
      ensures dirty == (old(dirty) || leftover != newItem)
      ensures leftover == newItem ==> items == old(items)
      ensures Marked()
    {
      if Empty(newItem) {
        return newItem;
      }
      leftover := AddPass(newItem, false);
      if Empty(leftover) {
        return;
      }
      PassShrinks(max, old(items), newItem, 0, false);
      PassShrinks(max, items, leftover, 0, true);
      leftover := AddPass(leftover, true);
    }

    method RoomForItem(item: ItemStack) returns (r: bool)
      ensures r <==> RoomFrom(max, items, item, 0)
      ensures r <==> Empty(AddAll(max, items, item).1) && !(Empty(item) && items == [])
    {
      RoomIffNothingLeft(max, items, item);
      var rest := item;
      for i := 0 to |items|
        invariant RoomFrom(max, items, item, 0) <==> RoomFrom(max, items, rest, i)
      {
        var (fits, leftover) := Fits(max, items[i], rest);
        if fits {
          return true;
        }
        rest := leftover;
      }
      return false;
    }

    method ContainsItem(item: ItemStack, matchMeta: bool) returns (r: bool)
      ensures r <==> Total(Requested(item, matchMeta), items) >= item.count
    {
      var k := Requested(item, matchMeta);
      var count: int := item.count;
      if count == 0 {
        return true;
      }
      assert items[..|items|] == items;
      ContainsIffEnough(items, k, |items|, count);
      var n := |items|;
      while n > 0
        invariant 0 <= n <= |items| && count > 0
        invariant ContainsBefore(items, k, n, count) <==> ContainsBefore(items, k, |items|, item.count)
      {
        n := n - 1;
        if k(items[n]) {
          if items[n].count >= count {
            return true;
          }
          count := count - items[n].count;
        }
      }
      return false;
    }

    /** Takes items from the last slot backwards; stacks of different metadata merge into an oversized one. */
    method RemoveBackwards(item: ItemStack, k: Kind) returns (removed: ItemStack)
      requires ByNameAndMeta(k)
      modifies `items
      ensures items == RemoveBefore(old(items), k, |old(items)|, item.count)
      ensures removed.count == Min(item.count, Total(k, old(items)))
      ensures Empty(removed) ==> items == old(items)
      ensures Drawn(k, removed)
    {
      removed := EMPTY;
      ghost var before := items;
      RemovingStarts(items, k, item.count);
      var n: nat := |items|;
      while n > 0
        invariant Removing(before, items, k, n, item.count, removed.count)
        invariant Drawn(k, removed) && (Empty(removed) ==> items == before)
      {
        n := n - 1;
        if k(items[n]) {
          items, removed := RemoveFrom(max, items, n, item, k, removed, before);
          if removed.count == item.count {
            break;
          }
        } else {
          RemovingSkips(before, items, k, n + 1, item.count, removed.count);
        }
      }
      if removed.count < item.count {
        RemovingEnds(before, items, k, item.count, removed.count);
      }
    }

    method RemoveItem(item: ItemStack, matchMeta: bool) returns (removed: ItemStack)
      modifies `items, `dirty
      ensures items == RemoveBefore(old(items), Requested(item, matchMeta), |old(items)|, item.count)
      ensures removed.count == Min(item.count, Total(Requested(item, matchMeta), old(items)))
      ensures !Empty(removed) ==> removed.name == item.name && (matchMeta ==> removed.metadata == item.metadata)
      ensures dirty == (old(dirty) || !Empty(removed))
      ensures Marked()
    {
      removed := RemoveBackwards(item, Requested(item, matchMeta));
      if !Empty(removed) {
        dirty := true;
      }
    }

    method TakeItem(i: nat, count: u32) returns (taken: ItemStack)
      modifies `items, `dirty
      ensures i >= |old(items)| ==> items == old(items) && taken == EMPTY
      ensures i < |old(items)| ==> (items, taken) == (old(items)[i := Take(old(items)[i], count).0],
                                                      Take(old(items)[i], count).1)
      ensures dirty == (old(dirty) || !Empty(taken))
      ensures Empty(taken) ==> items == old(items)
      ensures Marked()
    {
      if i >= |items| {
        return EMPTY;
      }
      var (rest, t) := Take(items[i], count);
      items := items[i := rest];
      taken := t;
      if !Empty(taken) {
        dirty := true;
      } else {
        assert items == old(items);
      }
    }

    /** Takes `count` items from a slot, or everything if `count` is 0. */
    method TakeForMove(i: nat, count: u32) returns (x: ItemStack)
      modifies `items, `dirty
      ensures (SlotAt(items, i), x) == TakeSlot(SlotAt(old(items), i), count)
      ensures items == PutAt(old(items), i, SlotAt(items, i))
      ensures Marked()
    {
      if count == 0 {
        x := ChangeItem(i, EMPTY);
      } else {
        x := TakeItem(i, count);
      }
    }

    /** Exchanges the stacks of two different slots; a missing destination slot hands the stack back. */
    method SwapWith(i: nat, dest: InventoryList, destI: nat) returns (moved: ItemStack)
      requires i < |items| && (this != dest || i != destI)
      modifies `items, `dirty, dest`items, dest`dirty
      ensures moved == old(items)[i]
      ensures var back := if destI < |old(dest.items)| then old(dest.items)[destI] else moved;
              && (this != dest ==>
                    items == old(items)[i := back] && dest.items == PutAt(old(dest.items), destI, Slot(moved)))
              && (this == dest ==> items == PutAt(old(items)[i := back], destI, Slot(moved)))
      ensures Marked() && dest.Marked()
    {
      moved := ChangeItem(i, EMPTY);
      var item2 := dest.ChangeItem(destI, moved);
      var _ := ChangeItem(i, item2);
    }

    method MoveItem(i: nat, dest: InventoryList, destI: nat, count: u32, swapIfNeeded: bool)
      returns (moved: ItemStack, didSwap: bool)
      modifies `items, `dirty, dest`items, dest`dirty
      ensures this == dest && i == destI ==> items == old(items) && moved == EMPTY && !didSwap
      ensures this != dest || i != destI ==>
                var m := Move(dest.max, SlotAt(old(items), i), SlotAt(old(dest.items), destI), count, swapIfNeeded);
                && moved == m.moved && didSwap == m.swapped
                && (this != dest ==>
                      items == PutAt(old(items), i, m.src) && dest.items == PutAt(old(dest.items), destI, m.dst))
                && (this == dest ==> items == PutAt(PutAt(old(items), i, m.src), destI, m.dst))
      ensures Marked() && dest.Marked()
    {
      didSwap := false;
      if this == dest && i == destI {
        return EMPTY, false;
      }
      ghost var src, dst := SlotAt(items, i), SlotAt(dest.items, destI);
      MoveGuards(dest.max, src, dst, count);
      moved := TakeForMove(i, count);
      var leftover := dest.AddItemAt(destI, moved);
      if !Empty(leftover) {
        moved := Remove(moved, leftover.count);
        leftover := leftover.(count := leftover.count + items[i].count);
        var _ := ChangeItem(i, leftover);
        if Empty(moved) && swapIfNeeded {
          didSwap := true;
          moved := SwapWith(i, dest, destI);
        }
      }
    }

    /** Moves items to wherever the other list takes them; what does not fit goes back on the source stack. */
    method MoveItemSomewhere(i: nat, dest: InventoryList, count: u32)
      modifies `items, `dirty, dest`items, dest`dirty
      ensures (items, dest.items) == Somewhere(dest.max, old(items), old(dest.items), i, count, this == dest)
      ensures Marked() && dest.Marked()
    {
      ghost var items0, dest0 := items, dest.items;
      var x := TakeForMove(i, count);
      if Empty(x) {
        return;
      }
      var leftover := dest.AddItem(x);
      if !Empty(leftover) {
        SomewhereFits(dest.max, items0, dest0, i, count, this == dest);
        leftover := leftover.(count := leftover.count + items[i].count);
        var _ := ChangeItem(i, leftover);
      }
    }
  }

  lemma PutAtTotal(items: seq<ItemStack>, i: nat, s: Slot, k: Kind)
    requires i < |items| ==> s.Slot?
    requires i >= |items| ==> s.NoSlot?
    ensures Total(k, PutAt(items, i, s)) + SlotWeight(k, SlotAt(items, i)) == Total(k, items) + SlotWeight(k, s)
  {
    if i < |items| {
      TotalUpdate(k, items, i, s.stack);
    }
  }

  /** A move keeps a missing slot missing. */
  lemma MoveShape(max: StackMax, src: Slot, dst: Slot, count: u32, swapIfNeeded: bool)
    ensures var m := Move(max, src, dst, count, swapIfNeeded); m.src.Slot? == src.Slot? && m.dst.Slot? == dst.Slot?
  {
    MoveGuards(max, src, dst, count);
  }

  /** Moving between two slots, present or missing, of one list or of two, keeps the number of items of every kind. */
  lemma MoveItemConserves(max: StackMax, items: seq<ItemStack>, dest: seq<ItemStack>, i: nat, destI: nat, count: u32,
                          swapIfNeeded: bool, same: bool, k: Kind)
    requires ByNameAndMeta(k) && (same ==> items == dest && i != destI)
    ensures var m := Move(max, SlotAt(items, i), SlotAt(dest, destI), count, swapIfNeeded);
            if same then Total(k, PutAt(PutAt(items, i, m.src), destI, m.dst)) == Total(k, items)
            else Total(k, PutAt(items, i, m.src)) + Total(k, PutAt(dest, destI, m.dst)) == Total(k, items) + Total(k,
                dest)
  {
    var m := Move(max, SlotAt(items, i), SlotAt(dest, destI), count, swapIfNeeded);
    MoveConserves(max, SlotAt(items, i), SlotAt(dest, destI), count, swapIfNeeded, k);
    MoveShape(max, SlotAt(items, i), SlotAt(dest, destI), count, swapIfNeeded);
    PutAtTotal(items, i, m.src, k);
    PutAtTotal(if same then PutAt(items, i, m.src) else dest, destI, m.dst, k);
  }

  /** Puts a leftover back onto slot `i`. */
  function PutBack(items: seq<ItemStack>, dest: seq<ItemStack>, i: nat, rest: ItemStack, same: bool)
    : (r: (seq<ItemStack>, seq<ItemStack>))
    requires same ==> items == dest
  {
    if Empty(rest) || i >= |items| || rest.count as int + items[i].count >= 0x1_0000 then (items, dest)
    else
      var items' := items[i := rest.(count := rest.count + items[i].count)];
      (items', if same then items' else dest)
  }

  /** The lists after moving somewhere; `same` tells that source and destination are one list. */
  ghost function Somewhere(max: StackMax, items: seq<ItemStack>, dest: seq<ItemStack>, i: nat, count: u32, same: bool)
    : (r: (seq<ItemStack>, seq<ItemStack>))
    requires same ==> items == dest
  {
    var (src1, x) := TakeSlot(SlotAt(items, i), count);
    var items1 := PutAt(items, i, src1);
    var dest1 := if same then items1 else dest;
    if Empty(x) then (items1, dest1)
    else
      var (dest2, rest) := AddAll(max, dest1, x);
      PutBack(if same then dest2 else items1, dest2, i, rest, same)
  }

  /** The leftover always fits back onto the source stack, which is still of its kind. */
  lemma SomewhereFits(max: StackMax, items: seq<ItemStack>, dest: seq<ItemStack>, i: nat, count: u32, same: bool)
    requires same ==> items == dest
    ensures var (src1, x) := TakeSlot(SlotAt(items, i), count);
            var items1 := PutAt(items, i, src1);
            var (dest2, rest) := AddAll(max, if same then items1 else dest, x);
            var items2 := if same then dest2 else items1;
            !Empty(x) && !Empty(rest) ==>
              && i < |items2| && rest.count as int + items2[i].count < 0x1_0000 && SameKind(rest, x)
              && (!Empty(items2[i]) ==> SameKind(items2[i], x))
  {
    var (src1, x) := TakeSlot(SlotAt(items, i), count);
    var items1 := PutAt(items, i, src1);
    var dest1 := if same then items1 else dest;
    var (dest2, rest) := AddAll(max, dest1, x);
    if !Empty(x) && !Empty(rest) {
      if count > 0 {
        TakeConserves(items[i], count, s => true);
      }
      AddAllRest(max, dest1, x);
      if same {
        AddAllSlot(max, dest1, x, i);
      }
    }
  }

  /** The leftover fits back onto slot `i`, which is empty or of its kind. */
  ghost predicate FitsBack(items: seq<ItemStack>, i: nat, x: ItemStack, rest: ItemStack) {
    !Empty(rest) ==>
      && i < |items| && rest.count as int + items[i].count < 0x1_0000 && SameKind(rest, x)
      && (!Empty(items[i]) ==> SameKind(items[i], x))
  }

  /**
    Moving somewhere takes what is asked for, or all there is, off its slot and
    adds it to the destination; what does not fit goes back onto the slot,
    whatever its size. No other slot of the source list changes, and an empty or
    missing slot does nothing.
   */
  lemma SomewhereIs(max: StackMax, items: seq<ItemStack>, dest: seq<ItemStack>, i: nat, count: u32, same: bool)
    requires same ==> items == dest
    ensures var (items', dest') := Somewhere(max, items, dest, i, count, same);
            if i >= |items| then items' == items && dest' == dest
            else if items[i].count == 0 then
              items'[i].count == 0 && items'[i := items[i]] == items && dest' == if same then items' else dest
            else
              var n := if count == 0 || count > items[i].count then items[i].count else count;
              var kept := if n == items[i].count then EMPTY else items[i].(count := items[i].count - n);
              var taken := items[i := kept];
              var (added, rest) := AddAll(max, if same then taken else dest, items[i].(count := n));
              var slot := if same then added[i] else kept;
              && slot.count as int + rest.count < 0x1_0000
              && items' == (if same then added else taken)[i :=
                   if rest.count == 0 then slot else rest.(count := slot.count + rest.count)]
              && dest' == if same then items' else added
  {
    SomewhereFits(max, items, dest, i, count, same);
  }

  lemma PutBackTotals(items: seq<ItemStack>, dest: seq<ItemStack>, i: nat, x: ItemStack, rest: ItemStack, same: bool,
                      k: Kind)
    requires (same ==> items == dest) && ByNameAndMeta(k) && FitsBack(items, i, x, rest)
    ensures var (items', dest') := PutBack(items, dest, i, rest, same);
            && Total(k, items') == Total(k, items) + Weight(k, rest)
            && dest' == if same then items' else dest
  {
    if !Empty(rest) {
      PutBackConserves(items, i, x, rest, k);
    }
  }

  /** What a call does to the source total is undone by what it does to the destination total. */
  lemma SomewhereConserves(max: StackMax, items: seq<ItemStack>, dest: seq<ItemStack>, i: nat, count: u32, same: bool,
                           k: Kind)
    requires (same ==> items == dest) && ByNameAndMeta(k)
    ensures var (items', dest') := Somewhere(max, items, dest, i, count, same);
            if same then Total(k, items') == Total(k, items)
            else Total(k, items') + Total(k, dest') == Total(k, items) + Total(k, dest)
  {
    var (src1, x) := TakeSlot(SlotAt(items, i), count);
    TakeSlotConserves(items, i, count, k);
    if !Empty(x) {
      var items1 := PutAt(items, i, src1);
      var dest1 := if same then items1 else dest;
      var (dest2, rest) := AddAll(max, dest1, x);
      AddAllConserves(max, dest1, x, k);
      SomewhereFits(max, items, dest, i, count, same);
      PutBackTotals(if same then dest2 else items1, dest2, i, x, rest, same, k);
    }
  }

  lemma TakeSlotConserves(items: seq<ItemStack>, i: nat, count: u32, k: Kind)
    requires ByNameAndMeta(k)
    ensures var (src1, x) := TakeSlot(SlotAt(items, i), count);
            Total(k, PutAt(items, i, src1)) + Weight(k, x) == Total(k, items)
  {
    var (src1, x) := TakeSlot(SlotAt(items, i), count);
    if i < |items| {
      TotalUpdate(k, items, i, src1.stack);
      if count > 0 {
        TakeConserves(items[i], count, k);
      }
    }
  }

  lemma PutBackConserves(items: seq<ItemStack>, i: nat, x: ItemStack, rest: ItemStack, k: Kind)
    requires ByNameAndMeta(k) && i < |items| && rest.count as int + items[i].count < 0x1_0000
    requires SameKind(rest, x) && (!Empty(items[i]) ==> SameKind(items[i], x))
    ensures Total(k, items[i := rest.(count := rest.count + items[i].count)]) == Total(k, items) + Weight(k, rest)
  {
    var back := rest.(count := rest.count + items[i].count);
    assert SameKind(back, rest);
    assert !Empty(items[i]) ==> SameKind(items[i], rest);
    TotalUpdate(k, items, i, back);
  }

  lemma AddToIdle(max: StackMax, s: ItemStack, x: ItemStack)
    ensures var (s', rest) := AddTo(max, s, x); rest == x ==> s' == s
  {
  }

  /** A pass leaves over a smaller stack, or the very same one. */
  lemma {:induction false} PassShrinks(max: StackMax, items: seq<ItemStack>, x: ItemStack, k: nat, empties: bool)
    requires k <= |items|
    ensures var (items', rest) := Pass(max, items, x, k, empties);
            rest.count <= x.count && (rest.count == x.count ==> rest == x)
    decreases |items| - k
  {
    if k == |items| || Empty(x) {
    } else if Empty(items[k]) != empties {
      PassShrinks(max, items, x, k + 1, empties);
    } else {
      var (s, rest) := AddTo(max, items[k], x);
      LeftoverShape(max, items[k], x);
      PassShrinks(max, items[k := s], rest, k + 1, empties);
    }
  }

  /** State of removing: `got` of `want` items are taken, the slots before `n` still untouched. */
  ghost predicate Removing(before: seq<ItemStack>, items: seq<ItemStack>, k: Kind, n: nat, want: u16, got: u16) {
    && n <= |items| == |before| && got <= want
    && RemoveBefore(items, k, n, want - got) == RemoveBefore(before, k, |before|, want)
    && got as int + Min(want - got, Total(k, items[..n])) == Min(want, Total(k, before))
  }

  lemma RemovingStarts(items: seq<ItemStack>, k: Kind, want: u16)
    ensures Removing(items, items, k, |items|, want, 0)
  {
    assert items[..|items|] == items;
  }

  lemma RemovingSkips(before: seq<ItemStack>, items: seq<ItemStack>, k: Kind, n: nat, want: u16, got: u16)
    requires 0 < n && Removing(before, items, k, n, want, got) && !k(items[n - 1])
    ensures Removing(before, items, k, n - 1, want, got)
  {
    assert items[..n][..n - 1] == items[..n - 1];
  }

  lemma RemovingEnds(before: seq<ItemStack>, items: seq<ItemStack>, k: Kind, want: u16, got: u16)
    requires Removing(before, items, k, 0, want, got)
    ensures items == RemoveBefore(before, k, |before|, want) && got == Min(want, Total(k, before))
  {
  }

  /** Taking what is missing from a slot of the kind either completes the request or empties the slot. */
  lemma RemovingTakes(before: seq<ItemStack>, items: seq<ItemStack>, k: Kind, n: nat, want: u16, got: u16,
                      items': seq<ItemStack>, taken: ItemStack, got': u16)
    requires n < |items| && Removing(before, items, k, n + 1, want, got) && ByNameAndMeta(k) && k(items[n])
    requires taken == Take(items[n], want - got).1 && items' == items[n := Take(items[n], want - got).0]
    requires got' == got + taken.count
    ensures got' <= want
    ensures got' < want ==> Removing(before, items', k, n, want, got')
    ensures got' == want ==> items' == RemoveBefore(before, k, |before|, want) && want == Min(want, Total(k, before))
  {
    assert items[..n + 1][..n] == items[..n];
    assert items'[..n] == items[..n];
  }

  /** Empty, or taken from a stack of the kind. */
  ghost predicate Drawn(k: Kind, removed: ItemStack) {
    Empty(removed) || exists s :: k(s) && SameKind(removed, s)
  }

  /** Takes what is still missing from slot `n`, a stack of the requested kind. */
  method RemoveFrom(max: StackMax, items: seq<ItemStack>, n: nat, item: ItemStack, k: Kind, removed: ItemStack,
                    ghost before: seq<ItemStack>)
    returns (items': seq<ItemStack>, removed': ItemStack)
    requires n < |items| && k(items[n]) && ByNameAndMeta(k) && Drawn(k, removed)
    requires Removing(before, items, k, n + 1, item.count, removed.count)
    ensures removed.count <= removed'.count <= item.count && Drawn(k, removed')
    ensures removed'.count < item.count ==> Removing(before, items', k, n, item.count, removed'.count)
    ensures removed'.count == item.count ==>
              items' == RemoveBefore(before, k, |before|, item.count) && item.count == Min(item.count, Total(k, before))
    ensures Empty(removed') ==> items' == items
  {
    var (rest, taken) := Take(items[n], item.count - removed.count);
    TakeShape(items[n], item.count - removed.count, rest, taken);
    items' := items[n := rest];
    removed' := MergeRemoved(max, removed, taken);
    RemovingTakes(before, items, k, n, item.count, removed.count, items', taken, removed'.count);
    DrawnOn(k, items[n], removed, taken, removed');
  }

  lemma TakeShape(s: ItemStack, n: u32, rest: ItemStack, taken: ItemStack)
    requires (rest, taken) == Take(s, n)
    ensures taken.count <= n && (Empty(taken) ==> rest == s)
    ensures !Empty(taken) ==> SameKind(taken, s)
  {
  }

  lemma DrawnOn(k: Kind, s: ItemStack, removed: ItemStack, taken: ItemStack, removed': ItemStack)
    requires k(s) && Drawn(k, removed) && (!Empty(taken) ==> SameKind(taken, s))
    requires removed'.count as int == removed.count as int + taken.count
    requires !Empty(removed) ==> SameKind(removed', removed)
    requires Empty(removed) && !Empty(taken) ==> SameKind(removed', taken)
    ensures Drawn(k, removed')
  {
    if !Empty(removed) {
      var t :| k(t) && SameKind(removed, t);
      assert SameKind(removed', t);
    } else if !Empty(taken) {
      assert SameKind(removed', s);
    }
  }

  /** Everything taken goes onto the removed stack, which may become oversized. */
  method MergeRemoved(max: StackMax, removed: ItemStack, taken: ItemStack) returns (removed': ItemStack)
    requires removed.count as int + taken.count < 0x1_0000
    ensures removed'.count == removed.count + taken.count
    ensures !Empty(removed) ==> SameKind(removed', removed)
    ensures Empty(removed) && !Empty(taken) ==> SameKind(removed', taken)
  {
    var (merged, leftover) := AddTo(max, removed, taken);
    MergedCount(max, removed, taken);
    removed' := merged.(count := merged.count + leftover.count);
  }

  /** Merging with the leftover added back counts every item. */
  lemma MergedCount(max: StackMax, removed: ItemStack, taken: ItemStack)
    requires removed.count as int + taken.count < 0x1_0000
    ensures var (merged, leftover) := AddTo(max, removed, taken);
            && merged.count as int + leftover.count == removed.count as int + taken.count
            && (!Empty(removed) ==> SameKind(merged, removed))
            && (Empty(removed) && !Empty(taken) ==> SameKind(merged, taken))
  {
  }
}
