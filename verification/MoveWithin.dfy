/**
  Which requests to move a stack somewhere within its own list keep the
  program's assertion about the count of moved items, whatever else the list
  holds and whatever the callbacks allow.
 */
module MoveWithin {
  import opened Numbers
  import opened Items
  import opened Stacks
  import opened MovePlan
  import opened MoveActions
  import opened MoveCounts
  import opened MoveRequests

  /**
    `i` slots stand before the source, and a stack grows to `most`. Asked for no
    more than is held, these slots must not be able to leave something, but less
    than the last of them took. Asked for more, the excess must be a multiple of
    every amount from one to the whole stack, and these slots must not be able
    to take one item of three or more.
   */
  ghost predicate SafeWithin(i: nat, most: nat, held: nat, count: nat) {
    if count <= held then i == 0 || count <= 2 || most <= 2 || (i + 1) * (most - 1) <= count
    else MultipleOfAll(count - held, held) && (i == 0 || held <= 2 || most <= 1)
  }

  ghost predicate AssertsWithin(max: StackMax, sameInventory: bool, i: nat, count: u16, items: seq<ItemStack>,
                                o: Oracle) {
    FiniteOracle(o) ==> WalkAll(max, true, sameInventory, i, o, Walk(Lists(items, items), count, 0, 0, true)).asserted
  }

  /** What an occupied slot can take at most. */
  function Room(most: nat): nat {
    if most == 0 then 0 else most - 1
  }

  // ---------------------------------------------------------------------------
  // Safe requests for no more than is held
  // ---------------------------------------------------------------------------

  lemma AcceptsLittle(max: StackMax, item: ItemStack, slot: ItemStack, sameInventory: bool, a: Answers)
    requires ValidAnswers(a) && NoInfinite(a) && !Empty(slot)
    ensures Accepts(max, item, slot, sameInventory, a) <= Room(max(item.name))
  {
  }

  lemma {:induction false} TakenLittle(max: StackMax, item: ItemStack, items: seq<ItemStack>, sameInventory: bool,
                                       o: Oracle, n: nat)
    requires n <= |items| && FiniteOracle(o)
    ensures var t := TakenBefore(max, item, items, sameInventory, o, 0, n);
            t.last <= t.total && t.last <= Room(max(item.name)) && t.total <= n * Room(max(item.name))
  {
    if n > 0 {
      TakenLittle(max, item, items, sameInventory, o, n - 1);
      var before := TakenBefore(max, item, items, sameInventory, o, 0, n - 1);
      Grows(n - 1, Room(max(item.name)));
      if !Empty(items[n - 1]) {
        AcceptsLittle(max, item, items[n - 1], sameInventory, o(before.visits));
      }
    }
  }

  lemma Grows(n: nat, r: nat)
    ensures (n + 1) * r == n * r + r
  {
  }

  lemma HeldAsserts(max: StackMax, sameInventory: bool, i: nat, count: u16, items: seq<ItemStack>, o: Oracle)
    requires i < |items| && FiniteOracle(o) && count <= items[i].count
    requires SafeWithin(i, max(items[i].name), items[i].count, count)
    ensures AssertsWithin(max, sameInventory, i, count, items, o)
  {
    var r := Room(max(items[i].name));
    TakenLittle(max, items[i], items, sameInventory, o, i);
    Grows(i, r);
    SameListAsserts(max, items, sameInventory, i, o, count, 0);
  }

  // ---------------------------------------------------------------------------
  // Safe requests for more than is held
  // ---------------------------------------------------------------------------

  /** Before the source slot is reached: the last amount is part of what the source has lost. */
  ghost predicate BeforeSource(w: Walk, i: nat, most: nat, name: string, held: nat, excess: nat) {
    && Balanced(w, i, held, excess) && w.lists.from == w.lists.to
    && w.moveCount + w.lists.from[i].count <= held
    && (most <= 1 ==> w.moveCount == 0)
    && (!Empty(w.lists.from[i]) ==> w.lists.from[i].name == name)
  }

  lemma NextBeforeSource(max: StackMax, sameInventory: bool, i: nat, o: Oracle, w: Walk, j: nat, name: string,
                         held: nat, excess: nat)
    requires FiniteOracle(o) && BeforeSource(w, i, max(name), name, held, excess) && MultipleOfAll(excess, held)
    requires j < i && w.count > 0 && !Empty(w.lists.to[j])
    ensures BeforeSource(WalkSlot(max, true, sameInventory, i, o, w, j), i, max(name), name, held, excess)
  {
    SlotBalanced(max, true, sameInventory, i, o, w, j, held, excess);
    if Empty(w.lists.from[i]) {
      SlotOfNothing(max, true, sameInventory, i, o, w, j);
    } else {
      SlotOfSource(max, true, sameInventory, i, o, w, j);
      OccupiedCounts(max, true, sameInventory, i, o, w, j);
      AcceptsLittle(max, w.lists.from[i], w.lists.to[j], sameInventory, o(w.calls));
      OthersKept(max, true, sameInventory, i, o, w, j);
    }
  }

  lemma {:induction false} ReachSource(max: StackMax, sameInventory: bool, i: nat, o: Oracle, w: Walk, j: nat,
                                       name: string, held: nat, excess: nat)
    returns (w': Walk)
    requires FiniteOracle(o) && BeforeSource(w, i, max(name), name, held, excess) && MultipleOfAll(excess, held)
    requires j <= i
    ensures BeforeSource(w', i, max(name), name, held, excess)
    ensures j == i ==> w' == w
    ensures WalkFrom(max, true, sameInventory, i, o, w, j, false) == WalkFrom(max, true, sameInventory, i, o, w', i,
                                                                              false)
    decreases i - j
  {
    w' := w;
    if j < i {
      if w.count > 0 && !Empty(w.lists.to[j]) {
        NextBeforeSource(max, sameInventory, i, o, w, j, name, held, excess);
        w' := WalkSlot(max, true, sameInventory, i, o, w, j);
      }
      w' := ReachSource(max, sameInventory, i, o, w', j + 1, name, held, excess);
    }
  }

  lemma SourceItself(max: StackMax, sameInventory: bool, i: nat, o: Oracle, w: Walk)
    requires ValidOracle(o) && w.lists.from == w.lists.to
    ensures WalkSlot(max, true, sameInventory, i, o, w, i) ==
            Walk(w.lists, (w.count - w.moveCount) % 0x1_0000, w.moveCount, w.calls + 1,
                 w.asserted && w.moveCount <= w.count)
  {
  }

  lemma {:induction false} MultipleOfOne(n: nat)
    ensures Multiple(n, 1)
  {
    if n > 0 {
      MultipleOfOne(n - 1);
    }
  }

  /** At the source itself an amount of at most one is subtracted again, and that one only if one item is left. */
  lemma PastSource(max: StackMax, sameInventory: bool, i: nat, o: Oracle, w: Walk, name: string, held: nat, excess: nat)
    returns (held': nat, excess': nat, w': Walk)
    requires FiniteOracle(o) && BeforeSource(w, i, max(name), name, held, excess) && MultipleOfAll(excess, held)
    requires 0 < excess && w.count > 0 && !Empty(w.lists.from[i])
    requires w.moveCount == 0 || held <= 2
    ensures w' == WalkSlot(max, true, sameInventory, i, o, w, i)
    ensures Balanced(w', i, held', excess') && MultipleOfAll(excess', held')
  {
    SourceItself(max, sameInventory, i, o, w);
    w' := WalkSlot(max, true, sameInventory, i, o, w, i);
    held', excess' := w.lists.from[i].count, excess - w.moveCount;
    if w.moveCount != 0 {
      MultipleOfOne(excess');
    }
  }

  lemma RestAsserts(max: StackMax, sameInventory: bool, i: nat, o: Oracle, w: Walk, j: nat, held: nat, excess: nat)
    requires FiniteOracle(o) && Balanced(w, i, held, excess) && MultipleOfAll(excess, held)
    requires w.lists.from == w.lists.to && j <= |w.lists.to| && (i < j || Empty(w.lists.from[i]))
    ensures WalkFrom(max, true, sameInventory, i, o, WalkFrom(max, true, sameInventory, i, o, w, j, false), 0,
                     true).asserted
  {
    WalkBalanced(max, true, sameInventory, i, o, w, j, false, held, excess);
    WalkBalanced(max, true, sameInventory, i, o, WalkFrom(max, true, sameInventory, i, o, w, j, false), 0, true, held,
                 excess);
  }

  lemma AskedAsserts(max: StackMax, sameInventory: bool, i: nat, count: u16, items: seq<ItemStack>, o: Oracle)
    requires i < |items| && FiniteOracle(o) && count > items[i].count
    requires SafeWithin(i, max(items[i].name), items[i].count, count)
    ensures AssertsWithin(max, sameInventory, i, count, items, o)
  {
    var name, held: nat, excess: nat := items[i].name, items[i].count, count - items[i].count;
    var w0 := Walk(Lists(items, items), count, 0, 0, true);
    var w := ReachSource(max, sameInventory, i, o, w0, 0, name, held, excess);
    if w.count == 0 {
      assert WalkFrom(max, true, sameInventory, i, o, w, i, false) == w;
      assert WalkFrom(max, true, sameInventory, i, o, w, 0, true) == w;
    } else if Empty(w.lists.from[i]) {
      RestAsserts(max, sameInventory, i, o, w, i, held, excess);
    } else {
      var held', excess', w' := PastSource(max, sameInventory, i, o, w, name, held, excess);
      RestAsserts(max, sameInventory, i, o, w', i + 1, held', excess');
    }
  }

  // ---------------------------------------------------------------------------
  // Slots before the source that take given amounts
  // ---------------------------------------------------------------------------

  /** A stack that can take `room` more. */
  function Roomy(item: ItemStack, most: u16, room: nat): ItemStack
    requires room <= Room(most)
  {
    item.(count := if most == 0 then 1 else most - room)
  }

  /** What the slots before the source are to take, slot by slot. */
  ghost predicate Fitting(rooms: seq<nat>, most: nat) {
    forall n :: 0 <= n < |rooms| ==> rooms[n] <= Room(most)
  }

  function Sum(rooms: seq<nat>): nat {
    if rooms == [] then 0 else Sum(rooms[..|rooms| - 1]) + rooms[|rooms| - 1]
  }

  function LastOf(rooms: seq<nat>): nat {
    if rooms == [] then 0 else rooms[|rooms| - 1]
  }

  /** Before the source are slots with the given room for it, and behind it there are vacant slots. */
  ghost predicate Laid(items: seq<ItemStack>, item: ItemStack, most: u16, rooms: seq<nat>) {
    var i := |rooms|;
    && Fitting(rooms, most) && i < |items| && items[i] == item
    && (forall n :: 0 <= n < i ==> items[n] == Roomy(item, most, rooms[n]))
    && forall n :: i < n < |items| ==> Empty(items[n])
  }

  ghost function Front(item: ItemStack, most: u16, rooms: seq<nat>): (front: seq<ItemStack>)
    requires Fitting(rooms, most)
    ensures |front| == |rooms| && forall n :: 0 <= n < |rooms| ==> front[n] == Roomy(item, most, rooms[n])
  {
    seq(|rooms|, n requires 0 <= n < |rooms| => Roomy(item, most, rooms[n]))
  }

  lemma LayOut(item: ItemStack, most: u16, rooms: seq<nat>, vacant: nat) returns (items: seq<ItemStack>)
    requires Fitting(rooms, most)
    ensures |items| == |rooms| + 1 + vacant && Laid(items, item, most, rooms)
  {
    var front, back := Front(item, most, rooms), Vacant(vacant);
    items := front + [item] + back;
    Joined(front, item, back);
  }

  lemma Joined<T>(front: seq<T>, x: T, back: seq<T>)
    ensures var all := front + [x] + back;
            && |all| == |front| + 1 + |back| && all[|front|] == x
            && (forall n :: 0 <= n < |front| ==> all[n] == front[n])
            && forall n :: |front| < n < |all| ==> all[n] == back[n - |front| - 1]
  {
  }

  /** Nothing is refused before call `n`. */
  ghost predicate Unrefused(o: Oracle, n: nat) {
    FiniteOracle(o) && forall k :: 0 <= k < n ==> o(k) == Allow(0xffff)
  }

  lemma AcceptsRoom(max: StackMax, item: ItemStack, sameInventory: bool, room: nat)
    requires room <= Room(max(item.name))
    ensures Accepts(max, item, Roomy(item, max(item.name), room), sameInventory, Allow(0xffff)) == room
    ensures !Empty(Roomy(item, max(item.name), room))
  {
  }

  lemma {:induction false} LaidTaken(max: StackMax, items: seq<ItemStack>, sameInventory: bool, i: nat, o: Oracle,
                                     rooms: seq<nat>, n: nat)
    requires i == |rooms| < |items| && Laid(items, items[i], max(items[i].name), rooms) && Unrefused(o, i) && n <= i
    ensures TakenBefore(max, items[i], items, sameInventory, o, 0, n) == Taken(Sum(rooms[..n]), LastOf(rooms[..n]), n)
  {
    if n > 0 {
      LaidTaken(max, items, sameInventory, i, o, rooms, n - 1);
      AcceptsRoom(max, items[i], sameInventory, rooms[n - 1]);
      assert rooms[..n][..n - 1] == rooms[..n - 1];
    }
  }

  // ---------------------------------------------------------------------------
  // Requests for no more than is held that trip
  // ---------------------------------------------------------------------------

  /** `n` amounts of at most `room` that make up `total`, if so many can. */
  function Fill(total: nat, room: nat, n: nat): (rooms: seq<nat>)
    ensures |rooms| == n && forall k :: 0 <= k < n ==> rooms[k] <= room
  {
    if n == 0 then [] else Fill(total - Least(total, room), room, n - 1) + [Least(total, room)]
  }

  lemma SumPush(rooms: seq<nat>, room: nat)
    ensures Sum(rooms + [room]) == Sum(rooms) + room
  {
    assert (rooms + [room])[..|rooms|] == rooms;
  }

  lemma FillLeft(total: nat, room: nat, n: nat)
    requires 0 < n && total <= n * room
    ensures total - Least(total, room) <= (n - 1) * room
  {
    Grows(n - 1, room);
  }

  lemma {:induction false} FillSum(total: nat, room: nat, n: nat)
    requires total <= n * room
    ensures Sum(Fill(total, room, n)) == total
  {
    if n > 0 {
      FillLeft(total, room, n);
      FillSum(total - Least(total, room), room, n - 1);
      SumPush(Fill(total - Least(total, room), room, n - 1), Least(total, room));
    }
  }

  /** The largest last amount, and the most that can be taken without taking all. */
  lemma Leftover(i: nat, most: nat, count: nat) returns (total: nat, last: nat)
    requires 0 < i && 2 < most && 2 < count && count < (i + 1) * (most - 1)
    ensures last <= total <= (i - 1) * Room(most) + last && last <= Room(most)
    ensures total < count < total + last
  {
    var r := Room(most);
    Grows(i, r);
    Grows(i - 1, r);
    last := Least(r, count - 1);
    total := Least(i * r, count - 1);
  }

  /** Amounts before the source that leave less to move than the last of them. */
  lemma Awkward(i: nat, most: nat, count: nat) returns (rooms: seq<nat>)
    requires 0 < i && 2 < most && 2 < count && count < (i + 1) * (most - 1)
    ensures |rooms| == i && Fitting(rooms, most) && Sum(rooms) < count < Sum(rooms) + LastOf(rooms)
  {
    var total, last := Leftover(i, most, count);
    var rest := Fill(total - last, Room(most), i - 1);
    FillSum(total - last, Room(most), i - 1);
    rooms := rest + [last];
    SumPush(rest, last);
  }

  lemma HeldTrips(max: StackMax, sameInventory: bool, i: nat, item: ItemStack, count: u16)
    returns (items: seq<ItemStack>, o: Oracle)
    requires count <= item.count && !SafeWithin(i, max(item.name), item.count, count)
    ensures i < |items| && items[i] == item && !AssertsWithin(max, sameInventory, i, count, items, o)
  {
    var rooms := Awkward(i, max(item.name), count);
    items := LayOut(item, max(item.name), rooms, 0);
    o := _ => Allow(0xffff);
    LaidTaken(max, items, sameInventory, i, o, rooms, i);
    assert rooms[..i] == rooms;
    SameListAsserts(max, items, sameInventory, i, o, count, 0);
  }

  // ---------------------------------------------------------------------------
  // Requests for more than is held that trip
  // ---------------------------------------------------------------------------

  /** The walk over the occupied slots has come to slot `n`, before the source, and all asked for is still there. */
  ghost predicate AtSlot(w: Walk, items: seq<ItemStack>, i: nat, count: u16, n: nat, taken: Taken) {
    && n <= i < |items| && |w.lists.to| == |items| && w.lists.from == w.lists.to && w.asserted
    && taken.total < items[i].count < count
    && w.count == count - taken.total && w.lists.from[i].count == items[i].count - taken.total
    && w.moveCount == taken.last && w.calls == taken.visits
    && SameKind(w.lists.from[i], items[i])
    && (forall k :: n <= k < |items| && k != i ==> w.lists.to[k] == items[k])
    && (forall k :: 0 <= k < n ==> !Empty(w.lists.to[k]))
  }

  lemma DestinationStays(max: StackMax, sameInventory: bool, i: nat, o: Oracle, w: Walk, j: nat)
    requires ValidOracle(o) && w.lists.from == w.lists.to && Addressed(w.lists, true, i, j)
    requires w.count > 0 && !Empty(w.lists.from[i]) && !Empty(w.lists.to[j])
    ensures !Empty(WalkSlot(max, true, sameInventory, i, o, w, j).lists.to[j])
  {
    var src, dst, moved := CausedApply(max, w.lists, true, i, j, w.count, sameInventory, o(w.calls), w.moveCount);
  }

  lemma SameKindAccepts(max: StackMax, x: ItemStack, y: ItemStack, slot: ItemStack, sameInventory: bool, a: Answers)
    requires ValidAnswers(a) && SameKind(x, y)
    ensures Accepts(max, x, slot, sameInventory, a) == Accepts(max, y, slot, sameInventory, a)
  {
  }

  lemma NextSlot(max: StackMax, items: seq<ItemStack>, sameInventory: bool, i: nat, o: Oracle, count: u16, n: nat,
                 w: Walk, amount: nat, taken: Taken)
    requires FiniteOracle(o) && n < i && AtSlot(w, items, i, count, n, taken) && !Empty(items[n])
    requires amount == Accepts(max, items[i], items[n], sameInventory, o(w.calls))
    requires taken.total + amount < items[i].count
    ensures AtSlot(WalkSlot(max, true, sameInventory, i, o, w, n), items, i, count, n + 1,
                   Taken(taken.total + amount, amount, taken.visits + 1))
  {
    SameKindAccepts(max, w.lists.from[i], items[i], items[n], sameInventory, o(w.calls));
    OccupiedCounts(max, true, sameInventory, i, o, w, n);
    SlotOfSource(max, true, sameInventory, i, o, w, n);
    OthersKept(max, true, sameInventory, i, o, w, n);
    DestinationStays(max, sameInventory, i, o, w, n);
  }

  /** The slots before the source take what they can, as long as something is left. */
  lemma {:induction false} LaidReaches(max: StackMax, items: seq<ItemStack>, sameInventory: bool, i: nat, o: Oracle,
                                       count: u16, rooms: seq<nat>, n: nat, w0: Walk)
    returns (w: Walk)
    requires i == |rooms| < |items| && Laid(items, items[i], max(items[i].name), rooms) && Unrefused(o, i) && n <= i
    requires w0 == Walk(Lists(items, items), count, 0, 0, true)
    requires Sum(rooms[..n]) < items[i].count < count
    ensures AtSlot(w, items, i, count, n, Taken(Sum(rooms[..n]), LastOf(rooms[..n]), n))
    ensures WalkFrom(max, true, sameInventory, i, o, w0, 0, false) == WalkFrom(max, true, sameInventory, i, o, w, n,
                                                                               false)
  {
    if n == 0 {
      w := w0;
    } else {
      assert rooms[..n][..n - 1] == rooms[..n - 1];
      var before := LaidReaches(max, items, sameInventory, i, o, count, rooms, n - 1, w0);
      AcceptsRoom(max, items[i], sameInventory, rooms[n - 1]);
      NextSlot(max, items, sameInventory, i, o, count, n - 1, before, rooms[n - 1],
               Taken(Sum(rooms[..n - 1]), LastOf(rooms[..n - 1]), n - 1));
      w := WalkSlot(max, true, sameInventory, i, o, before, n - 1);
    }
  }

  /** The slots that are occupied are passed over by the walk over the empty ones. */
  lemma {:induction false} PassOver(max: StackMax, sameInventory: bool, i: nat, o: Oracle, w: Walk, j: nat, n: nat)
    requires ValidOracle(o) && w.lists.from == w.lists.to && j <= n <= |w.lists.to|
    requires forall k :: j <= k < n ==> !Empty(w.lists.to[k])
    ensures WalkFrom(max, true, sameInventory, i, o, w, j, true) == WalkFrom(max, true, sameInventory, i, o, w, n, true)
    decreases n - j
  {
    if j < n {
      PassOver(max, sameInventory, i, o, w, j + 1, n);
    }
  }

  /** Allows everything before call `n`, then one amount and another ever after. */
  function AllowingFrom(n: nat, first: nat, later: nat): Oracle {
    k => Allow(if k < n then 0xffff else if k == n then first else later)
  }

  lemma AllowingIs(n: nat, first: nat, later: nat) returns (o: Oracle)
    ensures FiniteOracle(o) && (forall k :: 0 <= k < n ==> o(k) == Allow(0xffff))
    ensures o(n) == Allow(first) && o(n + 1) == Allow(later)
  {
    o := AllowingFrom(n, first, later);
    forall k: nat
      ensures ValidAnswers(o(k)) && NoInfinite(o(k))
    {
      assert o(k) == Allow(if k < n then 0xffff else if k == n then first else later);
    }
  }

  /** At the source itself the last amount is subtracted again, and the occupied slots are done. */
  lemma PassSourceSlot(max: StackMax, items: seq<ItemStack>, sameInventory: bool, i: nat, o: Oracle, count: u16,
                       w: Walk, taken: Taken, left: nat, excess: nat)
    returns (w': Walk)
    requires ValidOracle(o) && AtSlot(w, items, i, count, i, taken) && 0 < excess
    requires left == items[i].count - taken.total && count - taken.total - taken.last == left + excess
    requires forall n :: i < n < |items| ==> Empty(items[n])
    ensures AtVacant(w', true, i, i + 1, left, excess) && |w'.lists.to| == |items| && w'.calls == taken.visits + 1
    ensures forall k :: 0 <= k <= i ==> !Empty(w'.lists.to[k])
    ensures WalkFrom(max, true, sameInventory, i, o, w, i, false) == w'
  {
    SourceItself(max, sameInventory, i, o, w);
    w' := WalkSlot(max, true, sameInventory, i, o, w, i);
    NothingOccupied(max, true, sameInventory, i, o, w', i + 1);
  }

  /** Past the source, the last amount is missing from the excess, and two vacant slots take the rest. */
  lemma TripsBehindSource(max: StackMax, items: seq<ItemStack>, sameInventory: bool, i: nat, o: Oracle, count: u16,
                          w: Walk, taken: Taken, left: nat, m: nat, excess: nat)
    requires ValidOracle(o) && AtSlot(w, items, i, count, i, taken) && 0 < excess
    requires left == items[i].count - taken.total && count - taken.total - taken.last == left + excess
    requires 1 <= m <= left && !Multiple(excess, m)
    requires o(taken.visits + 1) == Allow(left - m) && o(taken.visits + 2) == Allow(m)
    requires |items| >= i + 3 + excess && forall n :: i < n < |items| ==> Empty(items[n])
    ensures !WalkFrom(max, true, sameInventory, i, o, WalkFrom(max, true, sameInventory, i, o, w, i, false), 0,
                      true).asserted
  {
    var w' := PassSourceSlot(max, items, sameInventory, i, o, count, w, taken, left, excess);
    PassOver(max, sameInventory, i, o, w', 0, i + 1);
    EmptiedInTwo(max, true, sameInventory, i, o, w', i + 1, left, m, excess);
  }

  /** What the slots before the source take, the last of them once more, and the amount that empties the source. */
  lemma AskedTripsBy(max: StackMax, sameInventory: bool, i: nat, item: ItemStack, count: u16, rooms: seq<nat>, m: nat,
                     excess: nat)
    returns (items: seq<ItemStack>, o: Oracle)
    requires |rooms| == i && Fitting(rooms, max(item.name)) && Sum(rooms) + m <= item.count < count && 1 <= m
    requires count == item.count + LastOf(rooms) + excess && 0 < excess && !Multiple(excess, m)
    ensures i < |items| && items[i] == item && !AssertsWithin(max, sameInventory, i, count, items, o)
  {
    var left: nat := item.count - Sum(rooms);
    items := LayOut(item, max(item.name), rooms, excess + 2);
    o := AllowingIs(i + 1, left - m, m);
    assert rooms[..i] == rooms;
    var w := LaidReaches(max, items, sameInventory, i, o, count, rooms, i,
                         Walk(Lists(items, items), count, 0, 0, true));
    TripsBehindSource(max, items, sameInventory, i, o, count, w, Taken(Sum(rooms), LastOf(rooms), i), left, m, excess);
  }

  lemma {:induction false} MultipleOfTwo(n: nat)
    ensures Multiple(n, 2) <==> n % 2 == 0
  {
    if n >= 2 {
      MultipleOfTwo(n - 2);
    }
  }

  lemma NoneTaken(i: nat) returns (rooms: seq<nat>)
    ensures |rooms| == i && Fitting(rooms, 0) && Sum(rooms) == 0 && LastOf(rooms) == 0
  {
    FillSum(0, 0, i);
    rooms := Fill(0, 0, i);
  }

  lemma OneTaken(i: nat) returns (rooms: seq<nat>)
    requires 0 < i
    ensures |rooms| == i && Fitting(rooms, 2) && Sum(rooms) == 1 && LastOf(rooms) == 1
  {
    var none := NoneTaken(i - 1);
    SumPush(none, 1);
    rooms := none + [1];
  }

  /** The excess less one is odd. */
  lemma OddWithoutOne(excess: nat, held: nat)
    requires 0 < excess && 2 <= held && MultipleOfAll(excess, held)
    ensures 1 < excess && !Multiple(excess - 1, 2)
  {
    assert Multiple(excess, 2);
    MultipleOfTwo(excess);
    MultipleOfTwo(excess - 1);
  }

  lemma AskedTrips(max: StackMax, sameInventory: bool, i: nat, item: ItemStack, count: u16)
    returns (items: seq<ItemStack>, o: Oracle)
    requires item.count < count && !SafeWithin(i, max(item.name), item.count, count)
    ensures i < |items| && items[i] == item && !AssertsWithin(max, sameInventory, i, count, items, o)
  {
    var excess: nat := count - item.count;
    if MultipleOfAll(excess, item.count) {
      var rooms := OneTaken(i);
      OddWithoutOne(excess, item.count);
      items, o := AskedTripsBy(max, sameInventory, i, item, count, rooms, 2, excess - 1);
    } else {
      var m: nat :| 1 <= m <= item.count && !Multiple(excess, m);
      var rooms := NoneTaken(i);
      items, o := AskedTripsBy(max, sameInventory, i, item, count, rooms, m, excess);
    }
  }

  /**
    A request to move a stack somewhere within its own list can be made whatever
    else is in that list and under any callbacks exactly if it is safe in the
    sense above, which depends on four numbers only.
   */
  lemma RequestWithinSafeIff(max: StackMax, sameInventory: bool, i: nat, item: ItemStack, count: u16)
    ensures (forall items, o :: i < |items| && items[i] == item ==>
               AssertsWithin(max, sameInventory, i, count, items, o)) <==>
            SafeWithin(i, max(item.name), item.count, count)
  {
    if SafeWithin(i, max(item.name), item.count, count) {
      forall items: seq<ItemStack>, o: Oracle | i < |items| && items[i] == item
        ensures AssertsWithin(max, sameInventory, i, count, items, o)
      {
        if FiniteOracle(o) {
          if count <= item.count {
            HeldAsserts(max, sameInventory, i, count, items, o);
          } else {
            AskedAsserts(max, sameInventory, i, count, items, o);
          }
        }
      }
    } else if count <= item.count {
      var items, o := HeldTrips(max, sameInventory, i, item, count);
    } else {
      var items, o := AskedTrips(max, sameInventory, i, item, count);
    }
  }
}
