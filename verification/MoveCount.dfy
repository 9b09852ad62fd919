/**
  When the program's assertion about the count of moved items holds while a
  stack is moved somewhere within one list. The walk also comes to the source
  slot itself, where nothing is moved but the count of the slot before it is
  subtracted once more.
 */
module MoveCounts {
  import opened Numbers
  import opened Items
  import opened Stacks
  import opened MovePlan
  import opened MoveActions

  /** What an occupied slot takes of an endless supply, as far as the callbacks allow. */
  function Accepts(max: StackMax, item: ItemStack, slot: ItemStack, sameInventory: bool, a: Answers): nat
    requires ValidAnswers(a)
  {
    var room := if SameKind(slot, item) then FreeSpace(max, slot) else 0;
    Limit(Limit(room, a.take), if sameInventory then a.take else a.put)
  }

  /** What the occupied slots before some slot take together, and the last of them alone. */
  datatype Taken = Taken(total: nat, last: nat, visits: nat)

  function TakenBefore(max: StackMax, item: ItemStack, items: seq<ItemStack>, sameInventory: bool, o: Oracle,
                       stale: nat, n: nat): Taken
    requires n <= |items| && ValidOracle(o)
  {
    if n == 0 then Taken(0, stale, 0)
    else
      var before := TakenBefore(max, item, items, sameInventory, o, stale, n - 1);
      if Empty(items[n - 1]) then before
      else
        var amount := Accepts(max, item, items[n - 1], sameInventory, o(before.visits));
        Taken(before.total + amount, amount, before.visits + 1)
  }

  function Least(a: nat, b: nat): nat {
    if a < b then a else b
  }

  /** A move caused by moving somewhere takes what the slot accepts, or what is left to move, or what there is. */
  lemma PlanAmount(max: StackMax, src: ItemStack, dst: ItemStack, count: u16, sameInventory: bool, a: Answers)
    requires ValidAnswers(a) && 0 < count && !Empty(src) && !Empty(dst)
    ensures var p := PlanMove(max, src, dst, count, true, sameInventory, a);
            var amount := Least(Accepts(max, src, dst, sameInventory, a), Least(count, src.count));
            if amount == 0 then p == Nothing else p.Go? && p.n == amount && !p.verdict.allowSwap
  {
  }

  lemma OccupiedCounts(max: StackMax, same: bool, sameInventory: bool, i: int, o: Oracle, w: Walk, j: nat)
    requires ValidOracle(o) && (same ==> w.lists.from == w.lists.to) && w.count > 0
    requires Addressed(w.lists, same, i, j) && !Empty(w.lists.to[j]) && !Empty(w.lists.from[i])
    ensures var w' := WalkSlot(max, same, sameInventory, i, o, w, j);
            var src := w.lists.from[i];
            var amount := Least(Accepts(max, src, w.lists.to[j], sameInventory, o(w.calls)), Least(w.count, src.count));
            w'.moveCount == amount && w'.count == w.count - amount && w'.calls == w.calls + 1
  {
    var src, dst := w.lists.from[i], w.lists.to[j];
    PlanAmount(max, src, dst, w.count, sameInventory, o(w.calls));
    FiniteSourceLoses(max, src, dst, w.count, true, sameInventory, o(w.calls));
  }

  /** Only the two slots of an application change, and what remains of the source stack is of its kind. */
  lemma OthersKept(max: StackMax, same: bool, sameInventory: bool, i: int, o: Oracle, w: Walk, j: nat)
    requires ValidOracle(o) && (same ==> w.lists.from == w.lists.to) && Addressed(w.lists, same, i, j)
    requires w.count > 0 && !Empty(w.lists.from[i])
    ensures var w' := WalkSlot(max, same, sameInventory, i, o, w, j);
            && (forall k :: 0 <= k < |w.lists.to| && k != i && k != j ==> w'.lists.to[k] == w.lists.to[k])
            && (Empty(w'.lists.from[i]) || SameKind(w'.lists.from[i], w.lists.from[i]))
  {
    var src, dst, moved := CausedApply(max, w.lists, same, i, j, w.count, sameInventory, o(w.calls), w.moveCount);
  }

  /** Moving to an occupied slot: the source stack keeps at least what is left to move, and no third slot changes. */
  lemma OccupiedSlot(max: StackMax, same: bool, sameInventory: bool, i: int, o: Oracle, w: Walk, j: nat)
    requires ValidOracle(o) && (same ==> w.lists.from == w.lists.to) && EnoughLeft(w, i) && w.count > 0
    requires Addressed(w.lists, same, i, j) && !Empty(w.lists.to[j]) && w.asserted
    ensures var w' := WalkSlot(max, same, sameInventory, i, o, w, j);
            var src := w.lists.from[i];
            var amount := Least(Accepts(max, src, w.lists.to[j], sameInventory, o(w.calls)), w.count);
            && w'.moveCount == amount && w'.count == w.count - amount && w'.calls == w.calls + 1
            && w'.asserted && EnoughLeft(w', i) && (w'.count > 0 ==> SameKind(w'.lists.from[i], src))
            && (forall k :: 0 <= k < |w.lists.to| && k != i && k != j ==> w'.lists.to[k] == w.lists.to[k])
  {
    OccupiedCounts(max, same, sameInventory, i, o, w, j);
    OthersKept(max, same, sameInventory, i, o, w, j);
    WalkSlotAsserts(max, same, sameInventory, i, o, w, j);
  }

  /** How far a walk within one list has come before slot `n`, when no slot behind it has been reached. */
  ghost predicate Reached(max: StackMax, items: seq<ItemStack>, sameInventory: bool, i: nat, o: Oracle, count: u16,
                          stale: nat,
                          n: nat, w: Walk)
    requires i < |items| && n <= |items| && ValidOracle(o)
  {
    var taken := TakenBefore(max, items[i], items, sameInventory, o, stale, n);
    && w.asserted && w.lists.from == w.lists.to && |w.lists.to| == |items| && EnoughLeft(w, i)
    && (w.count == 0 <==> taken.total >= count)
    && (w.count > 0 ==>
          && w.count == count - taken.total && w.moveCount == taken.last && w.calls == taken.visits
          && SameKind(w.lists.from[i], items[i]))
    && forall k :: n <= k < |items| && k != i ==> w.lists.to[k] == items[k]
  }

  /** One slot before the source. */
  lemma ReachedNext(max: StackMax, items: seq<ItemStack>, sameInventory: bool, i: nat, o: Oracle, count: u16,
                    stale: nat,
                    n: nat, w: Walk)
    returns (w': Walk)
    requires n < i < |items| && ValidOracle(o)
    requires Reached(max, items, sameInventory, i, o, count, stale, n, w)
    ensures Reached(max, items, sameInventory, i, o, count, stale, n + 1, w')
    ensures WalkFrom(max, true, sameInventory, i, o, w, n, false) == WalkFrom(max, true, sameInventory, i, o, w',
                                                                              n + 1, false)
  {
    w' := w;
    if w.count > 0 && !Empty(items[n]) {
      OccupiedSlot(max, true, sameInventory, i, o, w, n);
      w' := WalkSlot(max, true, sameInventory, i, o, w, n);
    }
  }

  lemma {:induction false} ReachedSource(max: StackMax, items: seq<ItemStack>, sameInventory: bool, i: nat, o: Oracle,
                                         count: u16, stale: nat, n: nat, w0: Walk)
    returns (w: Walk)
    requires n <= i < |items| && ValidOracle(o) && count <= items[i].count
    requires w0 == Walk(Lists(items, items), count, stale, 0, true)
    ensures Reached(max, items, sameInventory, i, o, count, stale, n, w)
    ensures WalkFrom(max, true, sameInventory, i, o, w0, 0, false) == WalkFrom(max, true, sameInventory, i, o, w, n,
                                                                               false)
  {
    if n == 0 {
      w := w0;
    } else {
      w := ReachedSource(max, items, sameInventory, i, o, count, stale, n - 1, w0);
      w := ReachedNext(max, items, sameInventory, i, o, count, stale, n - 1, w);
    }
  }

  /** A failed assertion is never forgotten. */
  lemma {:induction false} FailureStays(max: StackMax, same: bool, sameInventory: bool, i: int, o: Oracle, w: Walk,
                                        j: nat, empties: bool)
    requires ValidOracle(o) && (same ==> w.lists.from == w.lists.to) && j <= |w.lists.to| && !w.asserted
    ensures !WalkFrom(max, same, sameInventory, i, o, w, j, empties).asserted
    decreases |w.lists.to| - j
  {
    if j < |w.lists.to| && w.count != 0 {
      var next := if Empty(w.lists.to[j]) == empties then WalkSlot(max, same, sameInventory, i, o, w, j) else w;
      FailureStays(max, same, sameInventory, i, o, next, j + 1, empties);
    }
  }

  /** Behind the source slot, and among the empty slots, nothing fails. */
  lemma {:induction false} BehindSource(max: StackMax, sameInventory: bool, i: nat, o: Oracle, w: Walk, j: nat,
                                        empties: bool)
    requires ValidOracle(o) && w.lists.from == w.lists.to && j <= |w.lists.to| && EnoughLeft(w, i) && w.asserted
    requires j > i || empties
    ensures var w' := WalkFrom(max, true, sameInventory, i, o, w, j, empties);
            w'.lists.from == w'.lists.to && EnoughLeft(w', i) && w'.asserted
    decreases |w.lists.to| - j
  {
    if j < |w.lists.to| && w.count != 0 {
      var next := w;
      if Empty(w.lists.to[j]) == empties {
        WalkSlotAsserts(max, true, sameInventory, i, o, w, j);
        next := WalkSlot(max, true, sameInventory, i, o, w, j);
      }
      BehindSource(max, sameInventory, i, o, next, j + 1, empties);
    }
  }

  /** At the source slot itself the count of the slot before it is subtracted again. */
  lemma AtSource(max: StackMax, sameInventory: bool, i: nat, o: Oracle, w: Walk)
    requires ValidOracle(o) && w.lists.from == w.lists.to && EnoughLeft(w, i) && w.asserted && w.count > 0
    ensures WalkFrom(max, true, sameInventory, i, o, WalkFrom(max, true, sameInventory, i, o, w, i, false), 0,
                     true).asserted <==>
            w.moveCount <= w.count
  {
    var next := WalkSlot(max, true, sameInventory, i, o, w, i);
    var first := WalkFrom(max, true, sameInventory, i, o, next, i + 1, false);
    if w.moveCount <= w.count {
      BehindSource(max, sameInventory, i, o, next, i + 1, false);
      BehindSource(max, sameInventory, i, o, first, 0, true);
    } else {
      FailureStays(max, true, sameInventory, i, o, next, i + 1, false);
      FailureStays(max, true, sameInventory, i, o, first, 0, true);
    }
  }

  /**
    Asked to move no more of a stack than there is within its own list, the
    program fails its assertion exactly if the occupied slots before the source
    leave something to move, and less than the last of them took.
   */
  lemma SameListAsserts(max: StackMax, items: seq<ItemStack>, sameInventory: bool, i: nat, o: Oracle, count: u16,
                        stale: nat)
    requires i < |items| && ValidOracle(o) && count <= items[i].count
    ensures var taken := TakenBefore(max, items[i], items, sameInventory, o, stale, i);
            WalkAll(max, true, sameInventory, i, o, Walk(Lists(items, items), count, stale, 0, true)).asserted <==>
            !(taken.total < count < taken.total + taken.last)
  {
    var w := ReachedSource(max, items, sameInventory, i, o, count, stale, i,
                           Walk(Lists(items, items), count, stale, 0, true));
    if w.count == 0 {
      assert WalkFrom(max, true, sameInventory, i, o, w, i, false) == w;
      assert WalkFrom(max, true, sameInventory, i, o, w, 0, true) == w;
    } else {
      AtSource(max, sameInventory, i, o, w);
    }
  }

  /** Stacks of 93 and 10 that may grow to 99: moving the ten somewhere in their list moves six and then fails. */
  lemma MovingWithinAListTrips(max: StackMax, items: seq<ItemStack>, o: Oracle)
    requires |items| == 2 && items[0].count == 93 && items[1].count == 10 && SameKind(items[0], items[1])
    requires max(items[0].name) == 99 && ValidOracle(o) && o(0) == Answers(0xffff, 0xffff, 0xffff, 0xffff)
    ensures !WalkAll(max, true, true, 1, o, Walk(Lists(items, items), 10, 0, 0, true)).asserted
  {
    SameListAsserts(max, items, true, 1, o, 10, 0);
    assert TakenBefore(max, items[1], items, true, o, 0, 0) == Taken(0, 0, 0);
    assert TakenBefore(max, items[1], items, true, o, 0, 1) == Taken(6, 6, 1);
  }
}
