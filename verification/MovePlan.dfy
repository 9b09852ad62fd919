/**
  What an inventory move action does to the two slots it names, once the
  callbacks of both sides have given their limits. A limit of -1 makes that
  side infinite: its slot is put back as it was.
 */
module MovePlan {
  import opened Numbers
  import opened Items
  import opened Stacks
  import opened StackLists

  /** The callbacks' answers for the move, and for the move back that a swap needs. */
  datatype Answers = Answers(take: int, put: int, swapTake: int, swapPut: int)

  ghost predicate ValidAnswers(a: Answers) {
    a.take >= -1 && a.put >= -1 && a.swapTake >= -1 && a.swapPut >= -1
  }

  predicate Grants(limit: int, n: nat) {
    limit == -1 || limit >= n
  }

  datatype Verdict = Verdict(allowSwap: bool, srcCan: int, dstCan: int)

  /**
    Asks the callbacks. Inside one inventory a single callback answers for both
    sides; a swap is asked for a second time in the other direction, and if it
    was needed but is refused, nothing may move.
   */
  function Ask(sameInventory: bool, n: nat, dstCount: nat, needSwap: bool, a: Answers): Verdict {
    if sameInventory then
      var first := needSwap && Grants(a.take, n);
      var allow := first && Grants(a.swapTake, dstCount);
      if needSwap && !allow then Verdict(false, 0, 0)
      else Verdict(allow, a.take, if first then a.swapTake else a.take)
    else
      var first := needSwap && Grants(a.take, n) && Grants(a.put, n);
      var allow := first && Grants(a.swapPut, dstCount) && Grants(a.swapTake, dstCount);
      if needSwap && !allow then Verdict(false, 0, 0) else Verdict(allow, a.take, a.put)
  }

  function Limit(n: nat, can: int): nat
    requires can >= -1
  {
    if can != -1 && can < n then can else n
  }

  /** `Stale`: left without setting the count of moved items. `Nothing`: set to 0. */
  datatype Plan = Stale | Nothing | Go(n: nat, verdict: Verdict)

  function PlanMove(max: StackMax, src: ItemStack, dst: ItemStack, count: u16, caused: bool, sameInventory: bool,
                    a: Answers): (p: Plan)
    requires ValidAnswers(a)
    ensures p.Go? ==> 0 < p.n <= src.count && p.verdict.srcCan >= -1 && p.verdict.dstCan >= -1
  {
    var item := if 0 < count < src.count then src.(count := count) else src;
    if Empty(item) then Stale
    else
      var (fits, rest) := Fits(max, dst, item);
      var needSwap := !fits && rest.count == item.count && !caused;
      var wanted: nat := if rest.count <= item.count then item.count - rest.count else 0;
      if caused && wanted == 0 then Nothing
      else
        var asked: nat := if needSwap then src.count else wanted;
        var v := Ask(sameInventory, asked, dst.count, needSwap, a);
        var n := Limit(Limit(asked, v.srcCan), v.dstCan);
        var n' := if n > src.count then src.count as nat else n;
        if n' == 0 then Nothing else Go(n', v)
  }

  /** The two slots after the move proper and after infinite sides have been reset. */
  datatype Effect = Effect(move: Moved, src: ItemStack, dst: ItemStack, spill: bool)

  function Carry(max: StackMax, src: ItemStack, dst: ItemStack, n: nat, v: Verdict, caused: bool): Effect
    requires n <= src.count
  {
    var m := Move(max, Slot(src), Slot(dst), n, v.allowSwap);
    var src1 := if v.srcCan == -1 && (m.moved.count > 0 || m.swapped) then src
        else (if m.src.Slot? then m.src.stack else src);
    var dst1 := if v.dstCan == -1 then dst else (if m.dst.Slot? then m.dst.stack else dst);
    var src2 := if v.dstCan == -1 && m.swapped then Take(src, m.moved.count).0 else src1;
    Effect(m, src2, dst1, v.srcCan == -1 && !caused && src.name != dst.name)
  }

  // ---------------------------------------------------------------------------
  // What holds of every planned move
  // ---------------------------------------------------------------------------

  lemma AskSwap(sameInventory: bool, n: nat, dstCount: nat, needSwap: bool, a: Answers)
    requires ValidAnswers(a)
    ensures var v := Ask(sameInventory, n, dstCount, needSwap, a);
            && (v.allowSwap ==> needSwap)
            && (needSwap && !v.allowSwap ==> v.srcCan == v.dstCan == 0)
  {
  }

  /** A destination that fits nothing of a stack fits nothing of a part of it; else what fits, fits entirely. */
  lemma FitsPart(max: StackMax, dst: ItemStack, item: ItemStack, part: ItemStack)
    requires !Empty(item) && !Empty(part) && SameKind(item, part)
    ensures var (fits, rest) := Fits(max, dst, item);
            var (_, left) := AddTo(max, dst, part);
            && rest.count <= item.count
            && (!fits && rest.count == item.count ==> left == part)
            && (part.count <= item.count - rest.count ==> Empty(left))
  {
  }

  /** A planned move either swaps, when nothing could be added, or moves exactly `n` items with nothing left over. */
  lemma PlannedMove(max: StackMax, src: ItemStack, dst: ItemStack, count: u16, caused: bool, sameInventory: bool,
                    a: Answers)
    requires ValidAnswers(a)
    ensures var p := PlanMove(max, src, dst, count, caused, sameInventory, a);
            p.Go? ==>
              var m := Move(max, Slot(src), Slot(dst), p.n, p.verdict.allowSwap);
              && m.src.Slot? && m.dst.Slot?
              && m.swapped == p.verdict.allowSwap
              && (m.swapped ==> !caused && m.src == Slot(dst) && m.dst == Slot(src) && m.moved == src)
              && (!m.swapped ==>
                    m.moved == src.(count := p.n) && m.src.stack == Take(src, p.n).0
                    && m.dst.stack == AddTo(max, dst, m.moved).0 && Empty(AddTo(max, dst, m.moved).1))
  {
    var p := PlanMove(max, src, dst, count, caused, sameInventory, a);
    if p.Go? {
      var item := if 0 < count < src.count then src.(count := count) else src;
      var (fits, rest) := Fits(max, dst, item);
      var needSwap := !fits && rest.count == item.count && !caused;
      var asked: nat := if needSwap then src.count else item.count - rest.count;
      AskSwap(sameInventory, asked, dst.count, needSwap, a);
      FitsPart(max, dst, item, src.(count := p.n));
      MoveGuards(max, Slot(src), Slot(dst), p.n);
    }
  }

  /** The program asserts that a swap happened exactly when one was allowed; it always is so. */
  lemma SwapAssertionHolds(max: StackMax, src: ItemStack, dst: ItemStack, count: u16, caused: bool,
                           sameInventory: bool, a: Answers)
    requires ValidAnswers(a)
    ensures var p := PlanMove(max, src, dst, count, caused, sameInventory, a);
            p.Go? ==> Carry(max, src, dst, p.n, p.verdict, caused).move.swapped == p.verdict.allowSwap
  {
    PlannedMove(max, src, dst, count, caused, sameInventory, a);
  }

  ghost predicate NoInfinite(a: Answers) {
    a.take != -1 && a.put != -1 && a.swapTake != -1
  }

  /** Without infinite sides the two slots keep their items between them. */
  lemma FiniteMoveConserves(max: StackMax, src: ItemStack, dst: ItemStack, count: u16, caused: bool,
                            sameInventory: bool,
                            a: Answers, k: Kind)
    requires ValidAnswers(a) && NoInfinite(a) && ByNameAndMeta(k)
    ensures var p := PlanMove(max, src, dst, count, caused, sameInventory, a);
            p.Go? ==>
              var e := Carry(max, src, dst, p.n, p.verdict, caused);
              !e.spill && Weight(k, e.src) + Weight(k, e.dst) == Weight(k, src) + Weight(k, dst)
  {
    PlannedMove(max, src, dst, count, caused, sameInventory, a);
    var p := PlanMove(max, src, dst, count, caused, sameInventory, a);
    if p.Go? {
      MoveConserves(max, Slot(src), Slot(dst), p.n, p.verdict.allowSwap, k);
    }
  }

  /** If exactly one side is infinite, its slot ends as it began. */
  lemma InfiniteSideKeepsSlot(max: StackMax, src: ItemStack, dst: ItemStack, count: u16, caused: bool,
                              sameInventory: bool, a: Answers)
    requires ValidAnswers(a)
    ensures var p := PlanMove(max, src, dst, count, caused, sameInventory, a);
            p.Go? ==>
              var e := Carry(max, src, dst, p.n, p.verdict, caused);
              && (p.verdict.srcCan == -1 && p.verdict.dstCan != -1 ==> e.src == src)
              && (p.verdict.srcCan != -1 && p.verdict.dstCan == -1 ==> e.dst == dst)
  {
    PlannedMove(max, src, dst, count, caused, sameInventory, a);
  }

  /** A finite source loses exactly what is reported as moved, unless it is swapped. */
  lemma FiniteSourceLoses(max: StackMax, src: ItemStack, dst: ItemStack, count: u16, caused: bool, sameInventory: bool,
                          a: Answers)
    requires ValidAnswers(a)
    ensures var p := PlanMove(max, src, dst, count, caused, sameInventory, a);
            p.Go? ==>
              var e := Carry(max, src, dst, p.n, p.verdict, caused);
              && (!e.move.swapped ==> e.move.moved.count == p.n)
              && (!e.move.swapped && p.verdict.srcCan != -1 ==> e.src.count == src.count - p.n)
              && (!e.move.swapped && p.verdict.srcCan == -1 ==> e.src == src)
              && (0 < count ==> !e.move.swapped ==> p.n <= count)
  {
    PlannedMove(max, src, dst, count, caused, sameInventory, a);
    var p := PlanMove(max, src, dst, count, caused, sameInventory, a);
    if p.Go? {
      TakeConserves(src, p.n, s => true);
    }
  }

  // ---------------------------------------------------------------------------
  // How much a move between two given slots moves
  // ---------------------------------------------------------------------------

  /** How many of `asked` items of the source go onto the destination. */
  function FitsOnto(max: StackMax, src: ItemStack, dst: ItemStack, asked: nat): nat {
    if dst.count == 0 then asked
    else if dst.name == src.name && dst.metadata == src.metadata && dst.count < max(dst.name)
    then Min(asked, max(dst.name) - dst.count)
    else 0
  }

  /** A callback that answers -1 allows any number. */
  function Allowed(answer: int, n: nat): nat
    requires answer >= -1
  {
    if answer == -1 then n else Min(answer, n)
  }

  lemma FitsIsOnto(max: StackMax, src: ItemStack, dst: ItemStack, item: ItemStack)
    requires !Empty(item) && SameKind(item, src)
    ensures var (fits, rest) := Fits(max, dst, item);
            && rest.count as int == item.count - FitsOnto(max, src, dst, item.count)
            && (fits <==> FitsOnto(max, src, dst, item.count) == item.count)
  {
  }

  /**
    If something fits, the number moved is the least of what is asked for, what
    fits and what either side allows; inside one inventory one callback answers
    for both sides.
   */
  lemma PlainAmount(max: StackMax, src: ItemStack, dst: ItemStack, count: u16, sameInventory: bool, a: Answers)
    requires ValidAnswers(a) && !Empty(src)
    requires FitsOnto(max, src, dst, if count == 0 then src.count else Min(count, src.count)) > 0
    ensures var asked := if count == 0 then src.count else Min(count, src.count);
            var onto := FitsOnto(max, src, dst, asked);
            var n := if sameInventory then Allowed(a.take, onto) else Allowed(a.put, Allowed(a.take, onto));
            var p := PlanMove(max, src, dst, count, false, sameInventory, a);
            if n == 0 then p == Nothing
            else p == Go(n, Verdict(false, a.take, if sameInventory then a.take else a.put))
  {
    FitsIsOnto(max, src, dst, if 0 < count < src.count then src.(count := count) else src);
  }

  /** All that is needed for two stacks that cannot be merged to change places. */
  predicate SwapGranted(src: ItemStack, dst: ItemStack, sameInventory: bool, a: Answers) {
    && (a.take == -1 || a.take >= src.count) && (a.swapTake == -1 || a.swapTake >= dst.count)
    && (sameInventory || ((a.put == -1 || a.put >= src.count) && (a.swapPut == -1 || a.swapPut >= dst.count)))
  }

  /** If nothing fits, the stacks change places exactly if the callbacks allow all of both, and else nothing happens. */
  lemma PlainSwap(max: StackMax, src: ItemStack, dst: ItemStack, count: u16, sameInventory: bool, a: Answers)
    requires ValidAnswers(a) && !Empty(src)
    requires FitsOnto(max, src, dst, if count == 0 then src.count else Min(count, src.count)) == 0
    ensures var p := PlanMove(max, src, dst, count, false, sameInventory, a);
            if SwapGranted(src, dst, sameInventory, a) then p.Go? && p.verdict.allowSwap else p == Nothing
  {
    FitsIsOnto(max, src, dst, if 0 < count < src.count then src.(count := count) else src);
  }

  /** What the two slots hold after a finite move: `n` items fewer and more, or each what the other had. */
  lemma FiniteEffect(max: StackMax, src: ItemStack, dst: ItemStack, count: u16, caused: bool, sameInventory: bool,
                     a: Answers)
    requires ValidAnswers(a) && NoInfinite(a)
    ensures var p := PlanMove(max, src, dst, count, caused, sameInventory, a);
            p.Go? ==>
              var e := Carry(max, src, dst, p.n, p.verdict, caused);
              if p.verdict.allowSwap then e.src == dst && e.dst == src
              else && e.src.count == src.count - p.n && e.dst.count == dst.count + p.n
                   && (e.src.count > 0 ==> e.src == src.(count := e.src.count))
                   && e.dst == (if dst.count == 0 then src else dst).(count := e.dst.count)
  {
    PlannedMove(max, src, dst, count, caused, sameInventory, a);
  }

  /**
    With one infinite side the other pays or gains as if both were finite; of
    two infinite sides that swap, the source ends empty. A stack is displaced
    exactly by another kind from an infinite source.
   */
  lemma InfiniteEffect(max: StackMax, src: ItemStack, dst: ItemStack, count: u16, caused: bool, sameInventory: bool,
                       a: Answers)
    requires ValidAnswers(a)
    ensures var p := PlanMove(max, src, dst, count, caused, sameInventory, a);
            p.Go? ==>
              var e, v := Carry(max, src, dst, p.n, p.verdict, caused), p.verdict;
              && (v.srcCan == -1 && v.dstCan != -1 ==>
                    e.src == src &&
                    if v.allowSwap then e.dst == src
                    else e.dst.count == dst.count + p.n
                         && e.dst == (if dst.count == 0 then src else dst).(count := e.dst.count))
              && (v.srcCan != -1 && v.dstCan == -1 ==>
                    e.dst == dst && e.src.count == src.count - p.n
                    && (e.src.count > 0 ==> e.src == src.(count := e.src.count)))
              && (v.srcCan == -1 && v.dstCan == -1 ==> e.dst == dst && e.src == if v.allowSwap then EMPTY else src)
              && (e.spill <==> v.srcCan == -1 && !caused && src.name != dst.name)
  {
    PlannedMove(max, src, dst, count, caused, sameInventory, a);
  }
}
