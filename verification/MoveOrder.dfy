/** In which order moving somewhere fills the slots, and where a displaced stack goes. */
module MoveOrder {
  import opened Numbers
  import opened Items
  import opened Stacks
  import opened MovePlan
  import opened MoveActions

  /** Both slots after `n` items went from one to the other, or the stacks changed places; no other slot changes. */
  ghost predicate Exchanged(l: Lists, r: Lists, i: nat, j: nat, n: nat, swap: bool)
    requires i < |l.from| == |r.from| && j < |l.to| == |r.to|
  {
    var src, dst := l.from[i], l.to[j];
    && (if swap then r.from[i] == dst && r.to[j] == src
        else && r.from[i].count == src.count - n && r.to[j].count == dst.count + n
             && (r.from[i].count > 0 ==> r.from[i] == src.(count := r.from[i].count))
             && r.to[j] == (if dst.count == 0 then src else dst).(count := r.to[j].count))
  }

  ghost predicate OthersStay(l: Lists, r: Lists, i: nat, j: nat, same: bool)
    requires |l.from| == |r.from| && |l.to| == |r.to|
  {
    && (forall k :: 0 <= k < |l.from| && k != i && !(same && k == j) ==> r.from[k] == l.from[k])
    && (forall k :: 0 <= k < |l.to| && k != j && !(same && k == i) ==> r.to[k] == l.to[k])
  }

  /**
    A finite move on lists: slots that are missing, empty or one and the same
    leave everything as it is, the reported count included; a move that is not
    allowed reports 0.
   */
  lemma AppliedIs(max: StackMax, l: Lists, same: bool, i: int, j: int, count: u16, caused: bool, sameInventory: bool,
                  a: Answers, stale: nat)
    requires ValidAnswers(a) && NoInfinite(a) && (same ==> l.from == l.to)
    ensures var r := ApplyTo(max, l, same, i, j, count, caused, sameInventory, a, stale);
            if i < 0 || i >= |l.from| || j < 0 || j >= |l.to| || (same && i == j) || l.from[i].count == 0
            then r.lists == l && r.moveCount == stale
            else
              match PlanMove(max, l.from[i], l.to[j], count, caused, sameInventory, a)
              case Stale => false
              case Nothing => r.lists == l && r.moveCount == 0
              case Go(n, v) =>
                && r.moveCount == (if v.allowSwap then l.from[i].count else n)
                && Exchanged(l, r.lists, i, j, n, v.allowSwap) && OthersStay(l, r.lists, i, j, same)
  {
    if Addressed(l, same, i, j) && l.from[i].count != 0 {
      var src, dst := l.from[i], l.to[j];
      var p := PlanMove(max, src, dst, count, caused, sameInventory, a);
      if p.Go? {
        PlannedMove(max, src, dst, count, caused, sameInventory, a);
        FiniteEffect(max, src, dst, count, caused, sameInventory, a);
        NothingSpills(max, src, dst, count, caused, sameInventory, a);
        FiniteCarry(l, same, i, j, Carry(max, src, dst, p.n, p.verdict, caused));
      }
    }
  }

  lemma NothingSpills(max: StackMax, src: ItemStack, dst: ItemStack, count: u16, caused: bool, sameInventory: bool,
                      a: Answers)
    requires ValidAnswers(a) && NoInfinite(a)
    ensures var p := PlanMove(max, src, dst, count, caused, sameInventory, a);
            p.Go? ==> !Carry(max, src, dst, p.n, p.verdict, caused).spill
  {
  }

  /** An application touches no slot but its own two, and never empties its destination. */
  lemma SlotsTouched(max: StackMax, same: bool, sameInventory: bool, i: int, o: Oracle, w: Walk, j: nat, k: nat)
    requires ValidOracle(o) && (same ==> w.lists.from == w.lists.to) && w.count > 0
    requires j < |w.lists.to| && k < |w.lists.to| && (same ==> k != i)
    ensures var w' := WalkSlot(max, same, sameInventory, i, o, w, j);
            (k != j ==> w'.lists.to[k] == w.lists.to[k]) && (Empty(w'.lists.to[k]) ==> Empty(w.lists.to[k]))
  {
    if Addressed(w.lists, same, i, j) && !Empty(w.lists.from[i]) {
      var src, dst, moved := CausedApply(max, w.lists, same, i, j, w.count, sameInventory, o(w.calls), w.moveCount);
    } else {
      assert WalkSlot(max, same, sameInventory, i, o, w, j).lists == w.lists;
    }
  }

  /** A walk over the occupied slots leaves the empty ones alone, and the other way round. */
  lemma {:induction false} WalkLeavesOthers(max: StackMax, same: bool, sameInventory: bool, i: int, o: Oracle, w: Walk,
                                            j: nat, empties: bool, k: nat)
    requires ValidOracle(o) && (same ==> w.lists.from == w.lists.to) && j <= |w.lists.to| && k < |w.lists.to|
    requires same ==> k != i
    ensures var r := WalkFrom(max, same, sameInventory, i, o, w, j, empties);
            && (k < j || Empty(w.lists.to[k]) != empties ==> r.lists.to[k] == w.lists.to[k])
            && (Empty(r.lists.to[k]) ==> Empty(w.lists.to[k]))
    decreases |w.lists.to| - j
  {
    if j < |w.lists.to| && w.count != 0 {
      var next := w;
      if Empty(w.lists.to[j]) == empties {
        SlotsTouched(max, same, sameInventory, i, o, w, j, k);
        next := WalkSlot(max, same, sameInventory, i, o, w, j);
      }
      WalkLeavesOthers(max, same, sameInventory, i, o, next, j + 1, empties, k);
    }
  }

  /**
    Moving somewhere fills the occupied slots first: half-way there, every slot
    that was empty still is. If something remains to be moved then, only slots
    that are empty at that point take it; if not, nothing happens any more.
   */
  lemma OccupiedFirst(max: StackMax, same: bool, sameInventory: bool, i: int, o: Oracle, w: Walk, k: nat)
    requires ValidOracle(o) && (same ==> w.lists.from == w.lists.to) && k < |w.lists.to| && (same ==> k != i)
    ensures var half := WalkFrom(max, same, sameInventory, i, o, w, 0, false);
            var r := WalkAll(max, same, sameInventory, i, o, w);
            && (half.count == 0 ==> r == half)
            && if w.lists.to[k].count == 0 then half.lists.to[k] == w.lists.to[k]
               else half.lists.to[k].count != 0 && r.lists.to[k] == half.lists.to[k]
  {
    var half := WalkFrom(max, same, sameInventory, i, o, w, 0, false);
    WalkLeavesOthers(max, same, sameInventory, i, o, w, 0, false, k);
    WalkLeavesOthers(max, same, sameInventory, i, o, half, 0, true, k);
  }

  /** A displaced stack goes to the first empty slot; if there is none it is lost. No other slot changes. */
  lemma SpillIs(items: seq<ItemStack>, s: ItemStack, k: nat)
    requires k < |items|
    ensures Spill(items, s)[k] ==
            if items[k].count == 0 && forall i :: 0 <= i < k ==> items[i].count != 0 then s else items[k]
  {
    var j := FirstEmpty(items, 0);
    if j < k {
      assert items[j].count == 0;
    }
  }
}
