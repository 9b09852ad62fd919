/**
  Which requests to move a stack somewhere in another list keep the program's
  assertion about the count of moved items, whatever that list holds and
  whatever the callbacks allow.
 */
module MoveRequests {
  import opened Numbers
  import opened Items
  import opened Stacks
  import opened MovePlan
  import opened MoveActions
  import opened MoveCounts

  ghost predicate FiniteOracle(o: Oracle) {
    ValidOracle(o) && forall n :: NoInfinite(o(n))
  }

  /** Steps of `m` lead from `n` down to exactly 0. */
  predicate Multiple(n: nat, m: nat)
    requires m > 0
  {
    n == 0 || (m <= n && Multiple(n - m, m))
  }

  ghost predicate MultipleOfAll(n: nat, most: nat) {
    forall m :: 1 <= m <= most ==> Multiple(n, m)
  }

  /** No more is asked than there is, or the excess is a multiple of every possible last amount. */
  ghost predicate SafeRequest(held: nat, count: nat) {
    count <= held || MultipleOfAll(count - held, held)
  }

  lemma SlotOfSource(max: StackMax, same: bool, sameInventory: bool, i: nat, o: Oracle, w: Walk, j: nat)
    requires FiniteOracle(o) && Addressed(w.lists, same, i, j) && (same ==> w.lists.from == w.lists.to)
    requires w.count > 0 && !Empty(w.lists.from[i])
    ensures var w' := WalkSlot(max, same, sameInventory, i, o, w, j);
            && w'.moveCount <= w.count && w'.count == w.count - w'.moveCount && w'.asserted == w.asserted
            && w'.lists.from[i].count == w.lists.from[i].count - w'.moveCount
  {
    ApplyAsserts(max, w.lists, same, i, j, w.count, true, sameInventory, o(w.calls), w.moveCount);
    var src, dst, moved := CausedApply(max, w.lists, same, i, j, w.count, sameInventory, o(w.calls), w.moveCount);
  }

  /** Once the source is empty, its last amount is subtracted again at every slot. */
  lemma SlotOfNothing(max: StackMax, same: bool, sameInventory: bool, i: nat, o: Oracle, w: Walk, j: nat)
    requires ValidOracle(o) && i < |w.lists.from| && j < |w.lists.to| && Empty(w.lists.from[i])
    requires same ==> w.lists.from == w.lists.to
    ensures WalkSlot(max, same, sameInventory, i, o, w, j) ==
            Walk(w.lists, (w.count - w.moveCount) % 0x1_0000, w.moveCount, w.calls + 1, w.asserted &&
                 w.moveCount <= w.count)
  {
  }

  /** While the source lasts, the excess is still to come; then what is left is a multiple of the last amount. */
  ghost predicate Balanced(w: Walk, i: nat, held: nat, excess: nat) {
    && w.asserted && i < |w.lists.from| && w.lists.from[i].count <= held
    && (w.count > 0 && !Empty(w.lists.from[i]) ==> w.count - w.lists.from[i].count == excess)
    && (w.count > 0 && Empty(w.lists.from[i]) ==> w.moveCount == 0 || Multiple(w.count, w.moveCount))
  }

  lemma SlotBalanced(max: StackMax, same: bool, sameInventory: bool, i: nat, o: Oracle, w: Walk, j: nat, held: nat,
                     excess: nat)
    requires FiniteOracle(o) && j < |w.lists.to| && w.count > 0 && Balanced(w, i, held, excess)
    requires same ==> w.lists.from == w.lists.to && (i != j || Empty(w.lists.from[i]))
    requires MultipleOfAll(excess, held)
    ensures Balanced(WalkSlot(max, same, sameInventory, i, o, w, j), i, held, excess)
    ensures Empty(w.lists.from[i]) ==> Empty(WalkSlot(max, same, sameInventory, i, o, w, j).lists.from[i])
  {
    if Empty(w.lists.from[i]) {
      SlotOfNothing(max, same, sameInventory, i, o, w, j);
    } else {
      SlotOfSource(max, same, sameInventory, i, o, w, j);
    }
  }

  /** Within one list, this is about the slots behind the source, the empty slots, and walks with an empty source. */
  lemma {:induction false} WalkBalanced(max: StackMax, same: bool, sameInventory: bool, i: nat, o: Oracle, w: Walk,
                                        j: nat, empties: bool, held: nat, excess: nat)
    requires FiniteOracle(o) && j <= |w.lists.to| && Balanced(w, i, held, excess)
    requires same ==> w.lists.from == w.lists.to && (empties || i < j || Empty(w.lists.from[i]))
    requires MultipleOfAll(excess, held)
    ensures Balanced(WalkFrom(max, same, sameInventory, i, o, w, j, empties), i, held, excess)
    decreases |w.lists.to| - j
  {
    if j < |w.lists.to| && w.count != 0 {
      var next := w;
      if Empty(w.lists.to[j]) == empties {
        SlotBalanced(max, same, sameInventory, i, o, w, j, held, excess);
        next := WalkSlot(max, same, sameInventory, i, o, w, j);
      }
      WalkBalanced(max, same, sameInventory, i, o, next, j + 1, empties, held, excess);
    }
  }

  ghost predicate AssertsFor(max: StackMax, sameInventory: bool, i: nat, from: seq<ItemStack>, count: u16,
                             to: seq<ItemStack>, o: Oracle) {
    FiniteOracle(o) ==> WalkAll(max, false, sameInventory, i, o, Walk(Lists(from, to), count, 0, 0, true)).asserted
  }

  lemma SafeAsserts(max: StackMax, sameInventory: bool, i: nat, from: seq<ItemStack>, count: u16,
                    to: seq<ItemStack>, o: Oracle)
    requires i < |from| && SafeRequest(from[i].count, count)
    ensures AssertsFor(max, sameInventory, i, from, count, to, o)
  {
    if FiniteOracle(o) {
      var w := Walk(Lists(from, to), count, 0, 0, true);
      var held: nat := from[i].count;
      if count <= held {
        SomewhereAsserts(max, sameInventory, i, o, w);
      } else {
        WalkBalanced(max, false, sameInventory, i, o, w, 0, false, held, count - held);
        WalkBalanced(max, false, sameInventory, i, o, WalkFrom(max, false, sameInventory, i, o, w, 0, false), 0, true,
                     held, count - held);
      }
    }
  }

  // ---------------------------------------------------------------------------
  // A destination and callbacks that trip any other request
  // ---------------------------------------------------------------------------

  function Vacant(n: nat): seq<ItemStack> {
    seq(n, _ => EMPTY)
  }

  function Allow(amount: nat): Answers {
    Answers(amount, amount, amount, amount)
  }

  /** Allows one amount at first, and another ever after. */
  function Allowing(first: nat, later: nat): Oracle {
    n => Allow(if n == 0 then first else later)
  }

  /** From slot `j` on, the list is empty. */
  ghost predicate VacantFrom(w: Walk, j: nat) {
    j <= |w.lists.to| && forall k :: j <= k < |w.lists.to| ==> Empty(w.lists.to[k])
  }

  /** An empty slot takes what the callbacks allow. */
  lemma PlanVacant(max: StackMax, src: ItemStack, dst: ItemStack, count: u16, sameInventory: bool, amount: nat)
    requires Empty(dst) && amount <= src.count < count
    ensures var p := PlanMove(max, src, dst, count, true, sameInventory, Allow(amount));
            if amount == 0 then p.Nothing? || src.count == 0 else p.Go? && p.n == amount && !p.verdict.allowSwap
  {
  }

  lemma VacantCounts(max: StackMax, same: bool, sameInventory: bool, i: nat, o: Oracle, w: Walk, j: nat, amount: nat)
    requires ValidOracle(o) && o(w.calls) == Allow(amount) && (same ==> w.lists.from == w.lists.to)
    requires Addressed(w.lists, same, i, j) && amount <= w.lists.from[i].count < w.count
    requires Empty(w.lists.to[j]) && !Empty(w.lists.from[i])
    ensures WalkSlot(max, same, sameInventory, i, o, w, j).moveCount == amount
    ensures WalkSlot(max, same, sameInventory, i, o, w, j).count == w.count - amount
    ensures WalkSlot(max, same, sameInventory, i, o, w, j).calls == w.calls + 1
  {
    PlanVacant(max, w.lists.from[i], w.lists.to[j], w.count, sameInventory, amount);
    FiniteSourceLoses(max, w.lists.from[i], w.lists.to[j], w.count, true, sameInventory, o(w.calls));
  }

  lemma SlotOfVacant(max: StackMax, same: bool, sameInventory: bool, i: nat, o: Oracle, w: Walk, j: nat, amount: nat)
    requires ValidOracle(o) && o(w.calls) == Allow(amount) && (same ==> w.lists.from == w.lists.to && i < j)
    requires i < |w.lists.from| && amount <= w.lists.from[i].count < w.count
    requires j < |w.lists.to| && VacantFrom(w, j) && !Empty(w.lists.from[i])
    ensures var w' := WalkSlot(max, same, sameInventory, i, o, w, j);
            && w'.moveCount == amount && w'.count == w.count - amount && w'.calls == w.calls + 1
            && w'.lists.from[i].count == w.lists.from[i].count - amount && VacantFrom(w', j + 1)
  {
    VacantCounts(max, same, sameInventory, i, o, w, j, amount);
    var src, dst, moved := CausedApply(max, w.lists, same, i, j, w.count, sameInventory, o(w.calls), w.moveCount);
    OthersKept(max, same, sameInventory, i, o, w, j);
  }

  /** With the source empty and vacant slots enough, what is not a multiple of the last amount runs out unevenly. */
  lemma {:induction false} StaleFails(max: StackMax, same: bool, sameInventory: bool, i: nat, o: Oracle, w: Walk,
                                      j: nat)
    requires ValidOracle(o) && i < |w.lists.from| && Empty(w.lists.from[i]) && VacantFrom(w, j)
    requires same ==> w.lists.from == w.lists.to
    requires 0 < w.moveCount && !Multiple(w.count, w.moveCount) && |w.lists.to| - j >= w.count
    ensures !WalkFrom(max, same, sameInventory, i, o, w, j, true).asserted
    decreases w.count
  {
    var next := WalkSlot(max, same, sameInventory, i, o, w, j);
    SlotOfNothing(max, same, sameInventory, i, o, w, j);
    if w.moveCount <= w.count {
      StaleFails(max, same, sameInventory, i, o, next, j + 1);
    } else {
      FailureStays(max, same, sameInventory, i, o, next, j + 1, true);
    }
  }

  lemma {:induction false} NothingOccupied(max: StackMax, same: bool, sameInventory: bool, i: nat, o: Oracle, w: Walk,
                                           j: nat)
    requires ValidOracle(o) && VacantFrom(w, j) && (same ==> w.lists.from == w.lists.to)
    ensures WalkFrom(max, same, sameInventory, i, o, w, j, false) == w
    decreases |w.lists.to| - j
  {
    if j < |w.lists.to| {
      NothingOccupied(max, same, sameInventory, i, o, w, j + 1);
    }
  }

  /** The walk over the empty slots, with the source holding `left` and `excess` more still to move, is at slot `j`. */
  ghost predicate AtVacant(w: Walk, same: bool, i: nat, j: nat, left: nat, excess: nat) {
    && i < |w.lists.from| && w.lists.from[i].count == left && w.count == left + excess && 0 < excess
    && (same ==> w.lists.from == w.lists.to && i < j) && VacantFrom(w, j)
  }

  lemma OneTakes(max: StackMax, same: bool, sameInventory: bool, i: nat, o: Oracle, w: Walk, j: nat, left: nat,
                 amount: nat, excess: nat)
    returns (w': Walk)
    requires ValidOracle(o) && AtVacant(w, same, i, j, left, excess) && j < |w.lists.to| && amount <= left && 0 < left
    requires o(w.calls) == Allow(amount)
    ensures |w'.lists.to| == |w.lists.to|
    ensures AtVacant(w', same, i, j + 1, left - amount, excess) && w'.moveCount == amount && w'.calls == w.calls + 1
    ensures !WalkFrom(max, same, sameInventory, i, o, w', j + 1, true).asserted ==>
              !WalkFrom(max, same, sameInventory, i, o, w, j, true).asserted
  {
    SlotOfVacant(max, same, sameInventory, i, o, w, j, amount);
    w' := WalkSlot(max, same, sameInventory, i, o, w, j);
  }

  /** Two vacant slots take all there is, the second the amount `m`. */
  lemma EmptiedInTwo(max: StackMax, same: bool, sameInventory: bool, i: nat, o: Oracle, w: Walk, j: nat, left: nat,
                     m: nat, excess: nat)
    requires ValidOracle(o) && 1 <= m <= left && AtVacant(w, same, i, j, left, excess) && !Multiple(excess, m)
    requires o(w.calls) == Allow(left - m) && o(w.calls + 1) == Allow(m) && |w.lists.to| - j >= excess + 2
    ensures !WalkFrom(max, same, sameInventory, i, o, w, j, true).asserted
  {
    var w1 := OneTakes(max, same, sameInventory, i, o, w, j, left, left - m, excess);
    var w2 := OneTakes(max, same, sameInventory, i, o, w1, j + 1, m, m, excess);
    StaleFails(max, same, sameInventory, i, o, w2, j + 2);
  }

  lemma OtherRequestsTrip(max: StackMax, sameInventory: bool, i: nat, from: seq<ItemStack>, count: u16, m: nat)
    requires i < |from| && 1 <= m <= from[i].count < count && !Multiple(count - from[i].count, m)
    ensures !AssertsFor(max, sameInventory, i, from, count, Vacant(count + 1), Allowing(from[i].count - m, m))
  {
    var o := Allowing(from[i].count - m, m);
    var w := Walk(Lists(from, Vacant(count + 1)), count, 0, 0, true);
    assert o(0) == Allow(from[i].count - m) && o(1) == Allow(m);
    NothingOccupied(max, false, sameInventory, i, o, w, 0);
    EmptiedInTwo(max, false, sameInventory, i, o, w, 0, from[i].count, m, count - from[i].count);
  }

  /**
    A request can be made of any other list and under any callbacks exactly if
    it asks for no more than there is, or for an excess that every amount from
    one to the whole stack divides.
   */
  lemma RequestSafeIff(max: StackMax, sameInventory: bool, i: nat, from: seq<ItemStack>, count: u16)
    requires i < |from|
    ensures (forall to, o :: AssertsFor(max, sameInventory, i, from, count, to, o)) <==>
            SafeRequest(from[i].count, count)
  {
    if SafeRequest(from[i].count, count) {
      forall to, o
        ensures AssertsFor(max, sameInventory, i, from, count, to, o)
      {
        SafeAsserts(max, sameInventory, i, from, count, to, o);
      }
    } else {
      var m :| 1 <= m <= from[i].count && !Multiple(count - from[i].count, m);
      OtherRequestsTrip(max, sameInventory, i, from, count, m);
    }
  }
}
