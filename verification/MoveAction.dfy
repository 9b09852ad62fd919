/** Applying a move action to two inventory lists, which may be one and the same. */
module MoveActions {
  import opened Numbers
  import opened Items
  import opened Stacks
  import opened StackLists
  import opened InventoryLists
  import opened MovePlan

  function FirstEmpty(items: seq<ItemStack>, i: nat): (j: nat)
    requires i <= |items|
    ensures i <= j <= |items| && (j < |items| ==> Empty(items[j]))
    ensures forall k :: i <= k < j ==> !Empty(items[k])
    decreases |items| - i
  {
    if i == |items| || Empty(items[i]) then i else FirstEmpty(items, i + 1)
  }

  /** The stack an infinite source displaced goes to the first empty slot, if there is one. */
  function Spill(items: seq<ItemStack>, s: ItemStack): (r: seq<ItemStack>)
    ensures |r| == |items|
  {
    var j := FirstEmpty(items, 0);
    if j < |items| then items[j := s] else items
  }

  datatype Lists = Lists(from: seq<ItemStack>, to: seq<ItemStack>)

  function PutFrom(l: Lists, same: bool, i: nat, s: ItemStack): Lists
    requires i < |l.from| && (same ==> l.from == l.to)
  {
    if same then Lists(l.from[i := s], l.from[i := s]) else Lists(l.from[i := s], l.to)
  }

  function PutTo(l: Lists, same: bool, i: nat, s: ItemStack): Lists
    requires i < |l.to| && (same ==> l.from == l.to)
  {
    if same then Lists(l.to[i := s], l.to[i := s]) else Lists(l.from, l.to[i := s])
  }

  /** Both lists after the move proper, with the displaced stack of an infinite source put away. */
  function SpillLists(l: Lists, same: bool, i: nat, j: nat, e: Effect): (r: Lists)
    requires i < |l.from| && j < |l.to| && (same ==> l.from == l.to)
    requires e.move.src.Slot? && e.move.dst.Slot?
    ensures |r.from| == |l.from| && |r.to| == |l.to| && (same ==> r.from == r.to)
  {
    var l1 := PutTo(PutFrom(l, same, i, e.move.src.stack), same, j, e.move.dst.stack);
    if !e.spill then l1
    else
      var spilled := Spill(l1.to, l.to[j]);
      if same then Lists(spilled, spilled) else Lists(l1.from, spilled)
  }

  /** Both lists after a planned move. */
  function CarryLists(l: Lists, same: bool, i: nat, j: nat, e: Effect): (r: Lists)
    requires i < |l.from| && j < |l.to| && (same ==> l.from == l.to)
    requires e.move.src.Slot? && e.move.dst.Slot?
    ensures |r.from| == |l.from| && |r.to| == |l.to| && (same ==> r.from == r.to)
  {
    PutTo(PutFrom(SpillLists(l, same, i, j, e), same, i, e.src), same, j, e.dst)
  }

  /** The result of one application to fixed slots: the lists and the reported count of moved items. */
  datatype Applied = Applied(lists: Lists, moveCount: nat, asserted: bool)

  predicate Addressed(l: Lists, same: bool, i: int, j: int) {
    0 <= i < |l.from| && 0 <= j < |l.to| && !(same && i == j)
  }

  function ApplyTo(max: StackMax, l: Lists, same: bool, i: int, j: int, count: u16, caused: bool, sameInventory: bool,
                   a: Answers, stale: nat): (r: Applied)
    requires ValidAnswers(a) && (same ==> l.from == l.to)
    ensures |r.lists.from| == |l.from| && |r.lists.to| == |l.to| && (same ==> r.lists.from == r.lists.to)
  {
    if !Addressed(l, same, i, j) then Applied(l, stale, true)
    else
      var src, dst := l.from[i], l.to[j];
      match PlanMove(max, src, dst, count, caused, sameInventory, a)
      case Stale => Applied(l, stale, true)
      case Nothing => Applied(l, 0, true)
      case Go(n, v) =>
        PlannedMove(max, src, dst, count, caused, sameInventory, a);
        var e := Carry(max, src, dst, n, v, caused);
        Applied(CarryLists(l, same, i, j, e), e.move.moved.count, e.move.swapped == v.allowSwap)
  }

  /** For a finite move the two list totals together do not change, in any class of items told by name and metadata. */
  lemma ApplyConserves(max: StackMax, l: Lists, same: bool, i: int, j: int, count: u16, caused: bool,
                       sameInventory: bool,
                       a: Answers, stale: nat, k: Kind)
    requires ValidAnswers(a) && NoInfinite(a) && (same ==> l.from == l.to) && ByNameAndMeta(k)
    ensures var r := ApplyTo(max, l, same, i, j, count, caused, sameInventory, a, stale).lists;
            if same then Total(k, r.from) == Total(k, l.from)
            else Total(k, r.from) + Total(k, r.to) == Total(k, l.from) + Total(k, l.to)
  {
    if Addressed(l, same, i, j) {
      var p := PlanMove(max, l.from[i], l.to[j], count, caused, sameInventory, a);
      if p.Go? {
        PlannedMove(max, l.from[i], l.to[j], count, caused, sameInventory, a);
        FiniteMoveConserves(max, l.from[i], l.to[j], count, caused, sameInventory, a, k);
        var e := Carry(max, l.from[i], l.to[j], p.n, p.verdict, caused);
        FiniteCarry(l, same, i, j, e);
        TotalUpdate(k, l.from, i, e.src);
        if same {
          TotalUpdate(k, l.from[i := e.src], j, e.dst);
        } else {
          TotalUpdate(k, l.to, j, e.dst);
        }
      }
    }
  }

  lemma FiniteCarry(l: Lists, same: bool, i: nat, j: nat, e: Effect)
    requires Addressed(l, same, i, j) && (same ==> l.from == l.to) && !e.spill
    requires e.move.src.Slot? && e.move.dst.Slot?
    ensures CarryLists(l, same, i, j, e) == PutTo(PutFrom(l, same, i, e.src), same, j, e.dst)
  {
    var l1 := PutTo(PutFrom(l, same, i, e.move.src.stack), same, j, e.move.dst.stack);
    if same {
      assert l1.from[i := e.src][j := e.dst] == l.from[i := e.src][j := e.dst];
    } else {
      assert l1.from[i := e.src] == l.from[i := e.src];
      assert l1.to[j := e.dst] == l.to[j := e.dst];
    }
  }

  /** The program's assertion about swaps never fails, whatever the callbacks answer. */
  lemma ApplyAsserts(max: StackMax, l: Lists, same: bool, i: int, j: int, count: u16, caused: bool, sameInventory: bool,
                     a: Answers, stale: nat)
    requires ValidAnswers(a) && (same ==> l.from == l.to)
    ensures ApplyTo(max, l, same, i, j, count, caused, sameInventory, a, stale).asserted
  {
    if Addressed(l, same, i, j) {
      SwapAssertionHolds(max, l.from[i], l.to[j], count, caused, sameInventory, a);
    }
  }

  /** If exactly one side is infinite, its slot ends as it began. */
  lemma ApplyKeepsInfiniteSlot(max: StackMax, l: Lists, same: bool, i: int, j: int, count: u16, caused: bool,
                               sameInventory: bool, a: Answers, stale: nat)
    requires ValidAnswers(a) && (same ==> l.from == l.to) && Addressed(l, same, i, j)
    ensures var p := PlanMove(max, l.from[i], l.to[j], count, caused, sameInventory, a);
            var r := ApplyTo(max, l, same, i, j, count, caused, sameInventory, a, stale).lists;
            p.Go? ==>
              && (p.verdict.srcCan == -1 && p.verdict.dstCan != -1 ==> r.from[i] == l.from[i])
              && (p.verdict.srcCan != -1 && p.verdict.dstCan == -1 ==> r.to[j] == l.to[j])
  {
    PlannedMove(max, l.from[i], l.to[j], count, caused, sameInventory, a);
    InfiniteSideKeepsSlot(max, l.from[i], l.to[j], count, caused, sameInventory, a);
  }

  lemma SpilledSlots(l: Lists, same: bool, i: nat, j: nat, e: Effect)
    requires Addressed(l, same, i, j) && (same ==> l.from == l.to)
    requires e.move.src.Slot? && e.move.dst.Slot?
    ensures var r := SpillLists(l, same, i, j, e);
            && (!e.spill ==> r.from[i] == e.move.src.stack && r.to[j] == e.move.dst.stack)
            && (!Empty(e.move.dst.stack) ==> r.to[j] == e.move.dst.stack)
  {
  }

  // ---------------------------------------------------------------------------
  // Moving somewhere: one application per destination slot
  // ---------------------------------------------------------------------------

  /** What the callbacks answer at the successive applications. */
  type Oracle = nat -> Answers

  ghost predicate ValidOracle(o: Oracle) {
    forall n :: ValidAnswers(o(n))
  }

  /** `asserted`: no assertion of the program has failed; with assertions off it carries on, and `count` wraps. */
  datatype Walk = Walk(lists: Lists, count: u16, moveCount: nat, calls: nat, asserted: bool)

  ghost function WalkSlot(max: StackMax, same: bool, sameInventory: bool, i: int, o: Oracle, w: Walk,
                          j: nat): (w': Walk)
    requires ValidOracle(o) && (same ==> w.lists.from == w.lists.to)
    ensures |w'.lists.from| == |w.lists.from| && |w'.lists.to| == |w.lists.to|
    ensures same ==> w'.lists.from == w'.lists.to
  {
    var r := ApplyTo(max, w.lists, same, i, j, w.count, true, sameInventory, o(w.calls), w.moveCount);
    Walk(r.lists, (w.count - r.moveCount) % 0x1_0000, r.moveCount, w.calls + 1,
         w.asserted && r.asserted && r.moveCount <= w.count)
  }

  /** One walk over the destination slots from `j` on: the occupied ones, or the empty ones. */
  ghost function WalkFrom(max: StackMax, same: bool, sameInventory: bool, i: int, o: Oracle, w: Walk, j: nat,
                          empties: bool)
    : (w': Walk)
    requires ValidOracle(o) && (same ==> w.lists.from == w.lists.to) && j <= |w.lists.to|
    ensures |w'.lists.from| == |w.lists.from| && |w'.lists.to| == |w.lists.to|
    ensures same ==> w'.lists.from == w'.lists.to
    decreases |w.lists.to| - j
  {
    if j == |w.lists.to| || w.count == 0 then w
    else
      var next := if Empty(w.lists.to[j]) == empties then WalkSlot(max, same, sameInventory, i, o, w, j) else w;
      WalkFrom(max, same, sameInventory, i, o, next, j + 1, empties)
  }

  ghost function WalkAll(max: StackMax, same: bool, sameInventory: bool, i: int, o: Oracle, w: Walk): Walk
    requires ValidOracle(o) && (same ==> w.lists.from == w.lists.to)
  {
    WalkFrom(max, same, sameInventory, i, o, WalkFrom(max, same, sameInventory, i, o, w, 0, false), 0, true)
  }

  ghost function BothTotals(k: Kind, l: Lists, same: bool): nat {
    if same then Total(k, l.from) else Total(k, l.from) + Total(k, l.to)
  }

  lemma {:induction false} WalkConserves(max: StackMax, same: bool, sameInventory: bool, i: int, o: Oracle, w: Walk,
                                         j: nat, empties: bool, k: Kind)
    requires ValidOracle(o) && (same ==> w.lists.from == w.lists.to) && j <= |w.lists.to|
    requires ByNameAndMeta(k) && forall n :: NoInfinite(o(n))
    ensures BothTotals(k, WalkFrom(max, same, sameInventory, i, o, w, j, empties).lists, same) == BothTotals(k,
        w.lists, same)
    decreases |w.lists.to| - j
  {
    if j < |w.lists.to| && w.count != 0 {
      var next := w;
      if Empty(w.lists.to[j]) == empties {
        ApplyConserves(max, w.lists, same, i, j, w.count, true, sameInventory, o(w.calls), w.moveCount, k);
        next := WalkSlot(max, same, sameInventory, i, o, w, j);
      }
      WalkConserves(max, same, sameInventory, i, o, next, j + 1, empties, k);
    }
  }

  /** Moving a stack somewhere loses and creates nothing, even where a count is subtracted wrongly. */
  lemma SomewhereKeepsTotals(max: StackMax, same: bool, sameInventory: bool, i: int, o: Oracle, w: Walk, k: Kind)
    requires ValidOracle(o) && (same ==> w.lists.from == w.lists.to)
    requires ByNameAndMeta(k) && forall n :: NoInfinite(o(n))
    ensures BothTotals(k, WalkAll(max, same, sameInventory, i, o, w).lists, same) == BothTotals(k, w.lists, same)
  {
    WalkConserves(max, same, sameInventory, i, o, w, 0, false, k);
    WalkConserves(max, same, sameInventory, i, o, WalkFrom(max, same, sameInventory, i, o, w, 0, false), 0, true, k);
  }

  /**
    The program asserts at each slot that no more was moved than remains to be
    moved. The application leaves the count of the previous slot standing when
    the source has run empty, or when the destination is the source itself; the
    assertion fails exactly when that stale count is larger than what remains.
   */
  lemma CountAssertion(max: StackMax, same: bool, sameInventory: bool, i: int, o: Oracle, w: Walk, j: nat)
    requires ValidOracle(o) && (same ==> w.lists.from == w.lists.to) && w.asserted && w.count > 0
    ensures WalkSlot(max, same, sameInventory, i, o, w, j).asserted <==>
            (Addressed(w.lists, same, i, j) && !Empty(w.lists.from[i])) || w.moveCount <= w.count
  {
    ApplyAsserts(max, w.lists, same, i, j, w.count, true, sameInventory, o(w.calls), w.moveCount);
    if Addressed(w.lists, same, i, j) {
      FiniteSourceLoses(max, w.lists.from[i], w.lists.to[j], w.count, true, sameInventory, o(w.calls));
      PlannedMove(max, w.lists.from[i], w.lists.to[j], w.count, true, sameInventory, o(w.calls));
    }
  }

  ghost predicate EnoughLeft(w: Walk, i: int) {
    0 <= i < |w.lists.from| && w.count <= w.lists.from[i].count
  }

  /** An application caused by moving somewhere: what becomes of the lists, and the reported count. */
  lemma CausedApply(max: StackMax, l: Lists, same: bool, i: int, j: int, count: u16, sameInventory: bool, a: Answers,
                    stale: nat)
    returns (src: ItemStack, dst: ItemStack, moved: nat)
    requires ValidAnswers(a) && (same ==> l.from == l.to) && Addressed(l, same, i, j)
    requires 0 < count && !Empty(l.from[i])
    ensures var r := ApplyTo(max, l, same, i, j, count, true, sameInventory, a, stale);
            r.lists == PutTo(PutFrom(l, same, i, src), same, j, dst) && r.moveCount == moved
    ensures moved <= count && (src.count == l.from[i].count - moved || src == l.from[i])
    ensures Empty(src) || SameKind(src, l.from[i])
    ensures Empty(dst) ==> Empty(l.to[j])
    ensures NoInfinite(a) ==> src.count == l.from[i].count - moved
  {
    FiniteSourceLoses(max, l.from[i], l.to[j], count, true, sameInventory, a);
    PlannedMove(max, l.from[i], l.to[j], count, true, sameInventory, a);
    var p := PlanMove(max, l.from[i], l.to[j], count, true, sameInventory, a);
    if p.Go? {
      var e := Carry(max, l.from[i], l.to[j], p.n, p.verdict, true);
      FiniteCarry(l, same, i, j, e);
      TakeConserves(l.from[i], p.n, s => true);
      src, dst, moved := e.src, e.dst, e.move.moved.count;
    } else {
      PutSame(l, same, i, j);
      src, dst, moved := l.from[i], l.to[j], 0;
    }
  }

  lemma PutSame(l: Lists, same: bool, i: nat, j: nat)
    requires Addressed(l, same, i, j) && (same ==> l.from == l.to)
    ensures PutTo(PutFrom(l, same, i, l.from[i]), same, j, l.to[j]) == l
  {
  }

  /** Asking another slot for no more than the source holds keeps it so, and the assertion holds. */
  lemma WalkSlotAsserts(max: StackMax, same: bool, sameInventory: bool, i: int, o: Oracle, w: Walk, j: nat)
    requires ValidOracle(o) && EnoughLeft(w, i) && w.asserted && w.count > 0 && j < |w.lists.to|
    requires (same ==> w.lists.from == w.lists.to) && !(same && i == j)
    ensures var w' := WalkSlot(max, same, sameInventory, i, o, w, j); EnoughLeft(w', i) && w'.asserted
  {
    CountAssertion(max, same, sameInventory, i, o, w, j);
    var src, dst, moved := CausedApply(max, w.lists, same, i, j, w.count, sameInventory, o(w.calls), w.moveCount);
  }

  lemma {:induction false} WalkAsserts(max: StackMax, sameInventory: bool, i: int, o: Oracle, w: Walk, j: nat,
                                       empties: bool)
    requires ValidOracle(o) && j <= |w.lists.to| && EnoughLeft(w, i) && w.asserted
    ensures var w' := WalkFrom(max, false, sameInventory, i, o, w, j, empties); EnoughLeft(w', i) && w'.asserted
    decreases |w.lists.to| - j
  {
    if j < |w.lists.to| && w.count != 0 {
      var next := w;
      if Empty(w.lists.to[j]) == empties {
        WalkSlotAsserts(max, false, sameInventory, i, o, w, j);
        next := WalkSlot(max, false, sameInventory, i, o, w, j);
      }
      WalkAsserts(max, sameInventory, i, o, next, j + 1, empties);
    }
  }

  /** Between different lists, a request for no more than the source holds runs without a failing assertion. */
  lemma SomewhereAsserts(max: StackMax, sameInventory: bool, i: int, o: Oracle, w: Walk)
    requires ValidOracle(o) && EnoughLeft(w, i) && w.asserted
    ensures WalkAll(max, false, sameInventory, i, o, w).asserted
  {
    WalkAsserts(max, sameInventory, i, o, w, 0, false);
    WalkAsserts(max, sameInventory, i, o, WalkFrom(max, false, sameInventory, i, o, w, 0, false), 0, true);
  }

  /** Eight items asked of a stack of five, two empty slots to go to: the second slot trips the assertion. */
  lemma AskingTooMuchTrips(max: StackMax, item: ItemStack, o: Oracle)
    requires item.count == 5 && ValidOracle(o) && forall n :: o(n) == Answers(0xffff, 0xffff, 0xffff, 0xffff)
    ensures !WalkAll(max, false, false, 0, o, Walk(Lists([item], [EMPTY, EMPTY]), 8, 0, 0, true)).asserted
  {
    var w := Walk(Lists([item], [EMPTY, EMPTY]), 8, 0, 0, true);
    var w1 := WalkFrom(max, false, false, 0, o, w, 0, false);
    assert w1 == w by {
      assert WalkFrom(max, false, false, 0, o, w, 2, false) == w;
      assert WalkFrom(max, false, false, 0, o, w, 1, false) == w;
    }
    var w2 := WalkSlot(max, false, false, 0, o, w, 0);
    FirstOfTwo(max, item, o);
    var w3 := WalkSlot(max, false, false, 0, o, w2, 1);
    CountAssertion(max, false, false, 0, o, w2, 1);
    assert WalkFrom(max, false, false, 0, o, w2, 1, true) == WalkFrom(max, false, false, 0, o, w3, 2, true) == w3;
  }

  lemma FirstOfTwo(max: StackMax, item: ItemStack, o: Oracle)
    requires item.count == 5 && ValidOracle(o) && forall n :: o(n) == Answers(0xffff, 0xffff, 0xffff, 0xffff)
    ensures WalkSlot(max, false, false, 0, o, Walk(Lists([item], [EMPTY, EMPTY]), 8, 0, 0, true), 0) ==
            Walk(Lists([EMPTY], [item, EMPTY]), 3, 5, 1, true)
  {
    var l := Lists([item], [EMPTY, EMPTY]);
    var a := o(0);
    var p := PlanMove(max, item, EMPTY, 8, true, false, a);
    assert p == Go(5, Verdict(false, 0xffff, 0xffff));
    PlannedMove(max, item, EMPTY, 8, true, false, a);
    var e := Carry(max, item, EMPTY, 5, p.verdict, true);
    assert e.src == EMPTY && e.dst == item && !e.spill;
    FiniteCarry(l, false, 0, 0, e);
  }

  class IMoveAction {
    var count: u16
    var moveSomewhere: bool
    var causedByMoveSomewhere: bool
    var fromI: int
    var toI: int
    var moveCount: u32

    constructor (count: u16, somewhere: bool, fromI: int, toI: int)
      ensures this.count == count && moveSomewhere == somewhere && !causedByMoveSomewhere && moveCount == 0
      ensures this.fromI == fromI && this.toI == toI
    {
      this.count, moveSomewhere, causedByMoveSomewhere := count, somewhere, false;
      this.fromI, this.toI, moveCount := fromI, toI, 0;
    }

    /** The displaced stack of an infinite source: the first empty slot takes it. */
    method PutSomewhere(to: InventoryList, s: ItemStack)
      modifies to`items, to`dirty
      ensures to.items == Spill(old(to.items), s)
    {
      var before := to.items;
      for i := 0 to |before|
        invariant to.items == before && FirstEmpty(before, 0) == FirstEmpty(before, i)
      {
        if Empty(to.items[i]) {
          var _ := to.ChangeItem(i, s);
          return;
        }
      }
    }

    /** Puts the slot of an infinite source back. */
    method ResetFrom(from: InventoryList, to: InventoryList, v: Verdict, src: ItemStack, didSwap: bool)
      requires 0 <= fromI < |from.items| && 0 <= toI < |to.items| && (from != to || fromI != toI)
      modifies from`items, from`dirty
      ensures Lists(from.items, to.items) ==
              var l := Lists(old(from.items), old(to.items));
              PutFrom(l, from == to, fromI, if v.srcCan == -1 && (moveCount > 0 || didSwap) then src else l.from[fromI])
    {
      if v.srcCan == -1 && (moveCount > 0 || didSwap) {
        var _ := from.ChangeItem(fromI, src);
      }
    }

    /** Puts the slot of an infinite destination back; after a swap the source pays its count. */
    method ResetTo(from: InventoryList, to: InventoryList, v: Verdict, src: ItemStack, dst: ItemStack, didSwap: bool)
      requires 0 <= fromI < |from.items| && 0 <= toI < |to.items| && (from != to || fromI != toI)
      modifies from`items, from`dirty, to`items, to`dirty
      ensures Lists(from.items, to.items) ==
              var same := from == to;
              var l := Lists(old(from.items), old(to.items));
              var src' := if v.dstCan == -1 && didSwap then Take(src, moveCount).0 else l.from[fromI];
              PutTo(PutFrom(l, same, fromI, src'), same, toI, if v.dstCan == -1 then dst else l.to[toI])
    {
      if v.dstCan == -1 {
        var _ := to.ChangeItem(toI, dst);
        if didSwap {
          var _ := from.ChangeItem(fromI, src);
          var _ := from.TakeItem(fromI, moveCount);
        }
      }
    }

    /** Puts the slots of infinite sides back; after a swap into an infinite side the source pays its count. */
    method ResetSides(from: InventoryList, to: InventoryList, v: Verdict, src: ItemStack, dst: ItemStack, didSwap: bool)
      requires 0 <= fromI < |from.items| && 0 <= toI < |to.items| && (from != to || fromI != toI)
      modifies from`items, from`dirty, to`items, to`dirty
      ensures Lists(from.items, to.items) ==
              var same := from == to;
              var l := Lists(old(from.items), old(to.items));
              var src1 := if v.srcCan == -1 && (moveCount > 0 || didSwap) then src else l.from[fromI];
              var src2 := if v.dstCan == -1 && didSwap then Take(src, moveCount).0 else src1;
              PutTo(PutFrom(l, same, fromI, src2), same, toI, if v.dstCan == -1 then dst else l.to[toI])
    {
      ResetFrom(from, to, v, src, didSwap);
      ResetTo(from, to, v, src, dst, didSwap);
    }

    method MoveAndSpill(from: InventoryList, to: InventoryList, n: u16, v: Verdict) returns (didSwap: bool)
      requires Addressed(Lists(from.items, to.items), from == to, fromI, toI) && 0 < n <= from.items[fromI].count
      requires var m := Move(to.max, Slot(from.items[fromI]), Slot(to.items[toI]), n, v.allowSwap);
               m.src.Slot? && m.dst.Slot?
      modifies `moveCount, from`items, from`dirty, to`items, to`dirty
      ensures var l := Lists(old(from.items), old(to.items));
              var e := Carry(to.max, l.from[fromI], l.to[toI], n, v, causedByMoveSomewhere);
              && Lists(from.items, to.items) == SpillLists(l, from == to, fromI, toI, e)
              && moveCount == e.move.moved.count && didSwap == e.move.swapped
    {
      var src, dst := from.items[fromI], to.items[toI];
      var moved;
      moved, didSwap := from.MoveItem(fromI, to, toI, n, v.allowSwap);
      moveCount := moved.count;
      if v.srcCan == -1 && !causedByMoveSomewhere && src.name != dst.name {
        PutSomewhere(to, dst);
      }
    }

    /** Carries out a plan: the move proper, the displaced stack, the infinite sides. */
    method CarryOut(from: InventoryList, to: InventoryList, n: u16, v: Verdict) returns (didSwap: bool)
      requires Addressed(Lists(from.items, to.items), from == to, fromI, toI) && 0 < n <= from.items[fromI].count
      requires var m := Move(to.max, Slot(from.items[fromI]), Slot(to.items[toI]), n, v.allowSwap);
               m.src.Slot? && m.dst.Slot? && m.moved.count > 0
      modifies `moveCount, from`items, from`dirty, to`items, to`dirty
      ensures var l := Lists(old(from.items), old(to.items));
              var e := Carry(to.max, l.from[fromI], l.to[toI], n, v, causedByMoveSomewhere);
              && Lists(from.items, to.items) == CarryLists(l, from == to, fromI, toI, e)
              && moveCount == e.move.moved.count && didSwap == e.move.swapped
    {
      var src, dst := from.items[fromI], to.items[toI];
      ghost var l := Lists(from.items, to.items);
      didSwap := MoveAndSpill(from, to, n, v);
      SpilledSlots(l, from == to, fromI, toI, Carry(to.max, src, dst, n, v, causedByMoveSomewhere));
      ResetSides(from, to, v, src, dst, didSwap);
    }

    /** The move between two given slots. */
    method ApplyPlain(from: InventoryList, to: InventoryList, sameInventory: bool, a: Answers) returns (asserted: bool)
      requires ValidAnswers(a)
      modifies `moveCount, from`items, from`dirty, to`items, to`dirty
      ensures Applied(Lists(from.items, to.items), moveCount, asserted) ==
              ApplyTo(to.max, Lists(old(from.items), old(to.items)), from == to, fromI, toI, count,
                      causedByMoveSomewhere, sameInventory, a, old(moveCount))
    {
      asserted := true;
      if fromI < 0 || fromI >= |from.items| || toI < 0 || toI >= |to.items| {
        return;
      }
      if from == to && fromI == toI {
        return;
      }
      var plan := PlanMove(to.max, from.items[fromI], to.items[toI], count, causedByMoveSomewhere, sameInventory, a);
      match plan
      case Stale => return;
      case Nothing =>
        moveCount := 0;
        return;
      case Go(n, v) =>
        PlannedMove(to.max, from.items[fromI], to.items[toI], count, causedByMoveSomewhere, sameInventory, a);
        var didSwap := CarryOut(from, to, n, v);
        asserted := v.allowSwap == didSwap;
    }

    /** One application towards slot `j`; the count of what is left to move is kept in 16 bits. */
    method AddToSlot(from: InventoryList, to: InventoryList, sameInventory: bool, j: nat, a: Answers, ghost o: Oracle,
                     ghost w: Walk)
      returns (asserted: bool)
      requires ValidOracle(o) && a == o(w.calls) && causedByMoveSomewhere
      requires w.lists == Lists(from.items, to.items) && w.count == count && w.moveCount == moveCount
      modifies `moveCount, `toI, `count, from`items, from`dirty, to`items, to`dirty
      ensures var w' := WalkSlot(to.max, from == to, sameInventory, fromI, o, w, j);
              && w'.lists == Lists(from.items, to.items) && w'.count == count && w'.moveCount == moveCount
              && w'.asserted == (w.asserted && asserted)
    {
      toI := j;
      asserted := ApplyPlain(from, to, sameInventory, a);
      asserted := asserted && moveCount <= count;
      count := (count - moveCount as int) % 0x1_0000;
    }

    /** Tries every occupied slot of the destination, then every empty one, and restores the request. */
    method ApplySomewhere(from: InventoryList, to: InventoryList, sameInventory: bool, o: Oracle)
      returns (asserted: bool)
      requires ValidOracle(o) && moveSomewhere
      modifies this, from`items, from`dirty, to`items, to`dirty
      ensures var w := WalkAll(to.max, from == to, sameInventory, fromI, o,
                               Walk(Lists(old(from.items), old(to.items)), old(count), old(moveCount), 0, true));
              w.lists == Lists(from.items, to.items) && w.asserted == asserted
      ensures count == old(count) && toI == old(toI) && fromI == old(fromI) && moveSomewhere && !causedByMoveSomewhere
    {
      var oldToI, oldCount := toI, count;
      causedByMoveSomewhere, moveSomewhere := true, false;
      var calls := 0;
      ghost var w := Walk(Lists(from.items, to.items), count, moveCount, 0, true);
      asserted, calls, w := WalkSlots(from, to, sameInventory, o, false, true, calls, w);
      asserted, calls, w := WalkSlots(from, to, sameInventory, o, true, asserted, calls, w);
      toI, count := oldToI, oldCount;
      causedByMoveSomewhere, moveSomewhere := false, true;
    }

    method WalkSlots(from: InventoryList, to: InventoryList, sameInventory: bool, o: Oracle, empties: bool,
                     asserted: bool, calls: nat, ghost w: Walk)
      returns (asserted': bool, calls': nat, ghost w': Walk)
      requires ValidOracle(o) && causedByMoveSomewhere
      requires w == Walk(Lists(from.items, to.items), count, moveCount, calls, asserted)
      modifies `moveCount, `toI, `count, from`items, from`dirty, to`items, to`dirty
      ensures w' == WalkFrom(to.max, from == to, sameInventory, fromI, o, w, 0, empties)
      ensures w' == Walk(Lists(from.items, to.items), count, moveCount, calls', asserted')
    {
      asserted', calls', w' := asserted, calls, w;
      var j := 0;
      while j < |to.items| && count > 0
        invariant 0 <= j <= |to.items| && |to.items| == |old(to.items)|
        invariant w' == Walk(Lists(from.items, to.items), count, moveCount, calls', asserted')
        invariant WalkFrom(to.max, from == to, sameInventory, fromI, o, w', j, empties) ==
                  WalkFrom(to.max, from == to, sameInventory, fromI, o, w, 0, empties)
      {
        if Empty(to.items[j]) == empties {
          var ok := AddToSlot(from, to, sameInventory, j, o(calls'), o, w');
          asserted', calls', w' := asserted' && ok, calls' + 1,
              WalkSlot(to.max, from == to, sameInventory, fromI, o, w', j);
        }
        j := j + 1;
      }
    }
  }
}
