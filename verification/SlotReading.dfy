/**
  What reading the lines of one list means, line by line: each slot line
  fills the slot that as many slot lines come before, whatever stands between.
 */
module SlotReading {
  import opened Numbers
  import opened Items
  import opened Stacks
  import opened SyncFormat

  ghost predicate FirstEnd(lines: seq<Line>, e: nat) {
    && e < |lines| && lines[e] == EndListLine
    && forall i :: 0 <= i < e ==> lines[i] != EndListLine
  }

  predicate IsSlot(l: Line) {
    l.ItemLine? || l.EmptyLine? || l.KeepLine?
  }

  /** How many of the first lines are about a slot. */
  function SlotsBefore(lines: seq<Line>, i: nat): nat
    requires i <= |lines|
  {
    if i == 0 then 0 else SlotsBefore(lines, i - 1) + if IsSlot(lines[i - 1]) then 1 else 0
  }

  /** The last width among the first lines. */
  function LastWidth(lines: seq<Line>, i: nat, width: u32): u32
    requires i <= |lines|
  {
    if i == 0 then width
    else if lines[i - 1].WidthLine? then lines[i - 1].width
    else LastWidth(lines, i - 1, width)
  }

  /** A line that gives a slot its content needs that slot; keeping needs none. */
  predicate Fits(size: nat, slot: nat, l: Line) {
    l.ItemLine? || l.EmptyLine? ==> slot < size
  }

  ghost predicate Placed(items: seq<ItemStack>, r: seq<ItemStack>, slot: nat, l: Line)
    requires |r| == |items|
  {
    match l
    case ItemLine(stack) => slot < |r| && r[slot] == stack
    case EmptyLine => slot < |r| && r[slot] == EMPTY
    case KeepLine => slot < |r| ==> r[slot] == items[slot]
    case _ => true
  }

  ghost predicate AllFit(size: nat, n: nat, lines: seq<Line>, e: nat)
    requires e <= |lines|
  {
    forall i :: 0 <= i < e ==> Fits(size, n + SlotsBefore(lines, i), lines[i])
  }

  ghost predicate AllPlaced(items: seq<ItemStack>, n: nat, lines: seq<Line>, e: nat, r: seq<ItemStack>)
    requires e <= |lines| && |r| == |items|
  {
    forall i :: 0 <= i < e ==> Placed(items, r, n + SlotsBefore(lines, i), lines[i])
  }

  /** The slots in front are left, those of the lines hold what the lines say, and those behind are cleared. */
  ghost predicate Filled(items: seq<ItemStack>, n: nat, lines: seq<Line>, e: nat, r: seq<ItemStack>)
    requires e <= |lines| && |r| == |items|
  {
    && (forall k :: 0 <= k < n && k < |r| ==> r[k] == items[k])
    && AllPlaced(items, n, lines, e, r)
    && (forall k :: n + SlotsBefore(lines, e) <= k < |r| ==> r[k] == EMPTY)
  }

  lemma {:induction false} SlotsBeforeTail(lines: seq<Line>, rest: seq<Line>, i: nat)
    requires lines != [] && rest == lines[1..] && i <= |rest|
    ensures SlotsBefore(lines, i + 1) == SlotsBefore(rest, i) + if IsSlot(lines[0]) then 1 else 0
  {
    if i == 0 {
      assert SlotsBefore(lines, 0) == 0;
    } else {
      SlotsBeforeTail(lines, rest, i - 1);
    }
  }

  lemma {:induction false} LastWidthTail(lines: seq<Line>, rest: seq<Line>, i: nat, width: u32)
    requires lines != [] && rest == lines[1..] && i <= |rest|
    ensures LastWidth(lines, i + 1, width) ==
            LastWidth(rest, i, if lines[0].WidthLine? then lines[0].width else width)
  {
    if i == 0 {
      assert LastWidth(lines, 0, width) == width;
    } else {
      LastWidthTail(lines, rest, i - 1, width);
    }
  }

  lemma FitTail(size: nat, n: nat, lines: seq<Line>, rest: seq<Line>, e: nat, n': nat)
    requires lines != [] && rest == lines[1..] && e <= |rest| && n' == SlotAfter(n, lines[0])
    ensures AllFit(size, n, lines, e + 1) <==> Fits(size, n, lines[0]) && AllFit(size, n', rest, e)
  {
    forall i | 0 <= i < e
      ensures n + SlotsBefore(lines, i + 1) == n' + SlotsBefore(rest, i) && lines[i + 1] == rest[i]
    {
      SlotsBeforeTail(lines, rest, i);
    }
    assert SlotsBefore(lines, 0) == 0;
    if Fits(size, n, lines[0]) && AllFit(size, n', rest, e) {
      forall i | 0 <= i < e + 1 ensures Fits(size, n + SlotsBefore(lines, i), lines[i]) {
        if i > 0 {
          assert Fits(size, n' + SlotsBefore(rest, i - 1), rest[i - 1]);
        }
      }
    }
    if AllFit(size, n, lines, e + 1) {
      assert Fits(size, n + SlotsBefore(lines, 0), lines[0]);
      forall i | 0 <= i < e ensures Fits(size, n' + SlotsBefore(rest, i), rest[i]) {
        assert Fits(size, n + SlotsBefore(lines, i + 1), lines[i + 1]);
      }
    }
  }

  function AfterLine(items: seq<ItemStack>, n: nat, l: Line): (r: seq<ItemStack>)
    requires Fits(|items|, n, l)
    ensures |r| == |items| && Placed(items, r, n, l)
    ensures forall k :: 0 <= k < |items| && k != n ==> r[k] == items[k]
    ensures !IsSlot(l) ==> r == items
  {
    match l
    case ItemLine(stack) => items[n := stack]
    case EmptyLine => items[n := EMPTY]
    case _ => items
  }

  function SlotAfter(n: nat, l: Line): nat {
    n + if IsSlot(l) then 1 else 0
  }

  lemma ReadsLine(items: seq<ItemStack>, n: nat, width: u32, lines: seq<Line>)
    requires lines != [] && lines[0] != EndListLine
    ensures Fits(|items|, n, lines[0]) ==>
              ReadSlots(items, n, width, lines) ==
              ReadSlots(AfterLine(items, n, lines[0]), SlotAfter(n, lines[0]),
                        if lines[0].WidthLine? then lines[0].width else width, lines[1..])
    ensures !Fits(|items|, n, lines[0]) ==> ReadSlots(items, n, width, lines).SerializationError?
  {
  }

  /** A line behind the first says the same of what was there before the first. */
  lemma PlacedBehind(items: seq<ItemStack>, items': seq<ItemStack>, n: nat, slot: nat, r: seq<ItemStack>, l: Line)
    requires |r| == |items| == |items'| && Placed(items', r, slot, l)
    requires slot > n || items' == items
    requires forall k :: 0 <= k < |items| && k != n ==> items'[k] == items[k]
    ensures Placed(items, r, slot, l)
  {
  }

  lemma FirstPlaced(items: seq<ItemStack>, items': seq<ItemStack>, n: nat, n': nat, r: seq<ItemStack>, l: Line)
    requires |r| == |items| == |items'| && Placed(items, items', n, l) && n' == SlotAfter(n, l)
    requires forall k :: 0 <= k < n' && k < |r| ==> r[k] == items'[k]
    ensures Placed(items, r, n, l)
  {
  }

  lemma PlacedOf(items: seq<ItemStack>, n: nat, lines: seq<Line>, e: nat, r: seq<ItemStack>, i: nat) returns (slot: nat)
    requires i < e <= |lines| && |r| == |items| && AllPlaced(items, n, lines, e, r)
    ensures slot == n + SlotsBefore(lines, i) && Placed(items, r, slot, lines[i])
  {
    slot := n + SlotsBefore(lines, i);
  }

  lemma SlotNext(n: nat, lines: seq<Line>, rest: seq<Line>, i: nat) returns (slot: nat)
    requires lines != [] && rest == lines[1..] && i <= |rest|
    ensures slot == n + SlotsBefore(lines, i + 1) == SlotAfter(n, lines[0]) + SlotsBefore(rest, i)
  {
    slot := n + SlotsBefore(lines, i + 1);
    SlotsBeforeTail(lines, rest, i);
  }

  lemma PlacedNext(items: seq<ItemStack>, items': seq<ItemStack>, n: nat, n': nat, lines: seq<Line>, rest: seq<Line>,
                   e: nat, r: seq<ItemStack>, i: nat)
    requires lines != [] && rest == lines[1..] && i < e <= |rest| && |r| == |items| == |items'|
    requires AllPlaced(items', n', rest, e, r) && n' == SlotAfter(n, lines[0]) && (n' > n || items' == items)
    requires forall k :: 0 <= k < |items| && k != n ==> items'[k] == items[k]
    ensures Placed(items, r, n + SlotsBefore(lines, i + 1), lines[i + 1])
  {
    var slot := SlotNext(n, lines, rest, i);
    var same := PlacedOf(items', n', rest, e, r, i);
    PlacedBehind(items, items', n, slot, r, lines[i + 1]);
  }

  lemma AllPlacedTail(items: seq<ItemStack>, items': seq<ItemStack>, n: nat, n': nat, lines: seq<Line>, rest: seq<Line>,
                      e: nat, r: seq<ItemStack>)
    requires lines != [] && rest == lines[1..] && e <= |rest| && |r| == |items| == |items'|
    requires Placed(items, r, n, lines[0]) && AllPlaced(items', n', rest, e, r) && n' == SlotAfter(n, lines[0])
    requires n' > n || items' == items
    requires forall k :: 0 <= k < |items| && k != n ==> items'[k] == items[k]
    ensures AllPlaced(items, n, lines, e + 1, r)
  {
    forall i | 0 <= i < e + 1 ensures Placed(items, r, n + SlotsBefore(lines, i), lines[i]) {
      if i == 0 {
        assert SlotsBefore(lines, 0) == 0;
      } else {
        PlacedNext(items, items', n, n', lines, rest, e, r, i - 1);
      }
    }
  }

  /** Reading the first line and then the rest fills the slots as reading all the lines does. */
  lemma FillTail(items: seq<ItemStack>, n: nat, lines: seq<Line>, rest: seq<Line>, e: nat, r: seq<ItemStack>)
    requires lines != [] && rest == lines[1..] && e <= |rest| && |r| == |items| && Fits(|items|, n, lines[0])
    requires Filled(AfterLine(items, n, lines[0]), SlotAfter(n, lines[0]), rest, e, r)
    ensures Filled(items, n, lines, e + 1, r)
  {
    var items', n' := AfterLine(items, n, lines[0]), SlotAfter(n, lines[0]);
    FirstPlaced(items, items', n, n', r, lines[0]);
    AllPlacedTail(items, items', n, n', lines, rest, e, r);
    SlotsBeforeTail(lines, rest, e);
  }

  lemma {:induction false} ReadSlotsIs(items: seq<ItemStack>, n: nat, width: u32, lines: seq<Line>, e: nat)
    requires FirstEnd(lines, e)
    ensures ReadSlots(items, n, width, lines).Ok? <==> AllFit(|items|, n, lines, e)
    ensures var read := ReadSlots(items, n, width, lines);
            read.Ok? ==>
              && read.value.rest == lines[e + 1..] && read.value.width == LastWidth(lines, e, width)
              && Filled(items, n, lines, e, read.value.items)
    decreases e
  {
    if e == 0 {
      assert SlotsBefore(lines, 0) == 0;
    } else {
      var rest := lines[1..];
      ReadsLine(items, n, width, lines);
      FitTail(|items|, n, lines, rest, e - 1, SlotAfter(n, lines[0]));
      if Fits(|items|, n, lines[0]) {
        var width' := if lines[0].WidthLine? then lines[0].width else width;
        LastWidthTail(lines, rest, e - 1, width);
        assert FirstEnd(rest, e - 1) && rest[e..] == lines[e + 1..];
        ReadSlotsIs(AfterLine(items, n, lines[0]), SlotAfter(n, lines[0]), width', rest, e - 1);
        var read := ReadSlots(items, n, width, lines);
        if read.Ok? {
          FillTail(items, n, lines, rest, e - 1, read.value.items);
        }
      }
    }
  }

  /**
    Reading a list goes as far as its first end line. It fails exactly if some
    line has content for a slot the list does not have. Otherwise every slot
    holds what its line says, those behind the last line are empty, and the
    width is the last one given or 0.
   */
  lemma ReadListIs(items: seq<ItemStack>, lines: seq<Line>, e: nat)
    requires FirstEnd(lines, e)
    ensures ReadList(items, lines).Ok? <==>
            forall i :: 0 <= i < e && (lines[i].ItemLine? || lines[i].EmptyLine?) ==> SlotsBefore(lines, i) < |items|
    ensures ReadList(items, lines).Ok? ==>
              var read := ReadList(items, lines).value;
              && read.rest == lines[e + 1..] && |read.items| == |items|
              && (forall i :: 0 <= i < e ==> Placed(items, read.items, SlotsBefore(lines, i), lines[i]))
              && (forall k :: SlotsBefore(lines, e) <= k < |items| ==> read.items[k] == EMPTY)
              && (forall w :: 0 <= w < e && lines[w].WidthLine? && (forall i :: w < i < e ==> !lines[i].WidthLine?) ==>
                    read.width == lines[w].width)
              && ((forall w :: 0 <= w < e ==> !lines[w].WidthLine?) ==> read.width == 0)
  {
    ReadSlotsIs(items, 0, 0, lines, e);
    if forall i :: 0 <= i < e && (lines[i].ItemLine? || lines[i].EmptyLine?) ==> SlotsBefore(lines, i) < |items| {
      forall i | 0 <= i < e ensures Fits(|items|, 0 + SlotsBefore(lines, i), lines[i]) {
      }
      assert AllFit(|items|, 0, lines, e);
    }
    if AllFit(|items|, 0, lines, e) {
      forall i | 0 <= i < e ensures Fits(|items|, SlotsBefore(lines, i), lines[i]) {
        assert Fits(|items|, 0 + SlotsBefore(lines, i), lines[i]);
      }
    }
    if ReadList(items, lines).Ok? {
      var read := ReadList(items, lines).value;
      forall i | 0 <= i < e ensures Placed(items, read.items, SlotsBefore(lines, i), lines[i]) {
        assert Placed(items, read.items, 0 + SlotsBefore(lines, i), lines[i]);
      }
      forall w | 0 <= w < e && lines[w].WidthLine? && (forall i :: w < i < e ==> !lines[i].WidthLine?)
        ensures read.width == lines[w].width
      {
        LastWidthIs(lines, w, e);
      }
      if forall w :: 0 <= w < e ==> !lines[w].WidthLine? {
        NoWidth(lines, e);
      }
    }
  }

  lemma {:induction false} LastWidthIs(lines: seq<Line>, w: nat, e: nat)
    requires w < e <= |lines| && lines[w].WidthLine? && forall i :: w < i < e ==> !lines[i].WidthLine?
    ensures LastWidth(lines, e, 0) == lines[w].width
  {
    if w + 1 < e {
      LastWidthIs(lines, w, e - 1);
    }
  }

  lemma {:induction false} NoWidth(lines: seq<Line>, e: nat)
    requires e <= |lines| && forall i :: 0 <= i < e ==> !lines[i].WidthLine?
    ensures LastWidth(lines, e, 0) == 0
  {
    if e > 0 {
      NoWidth(lines, e - 1);
    }
  }

  /** Without an end line there is no list. */
  lemma {:induction false} UnendedFails(items: seq<ItemStack>, n: nat, width: u32, lines: seq<Line>)
    requires forall i :: 0 <= i < |lines| ==> lines[i] != EndListLine
    ensures ReadSlots(items, n, width, lines).SerializationError?
    decreases |lines|
  {
    if lines != [] {
      ReadsLine(items, n, width, lines);
      if Fits(|items|, n, lines[0]) {
        UnendedFails(AfterLine(items, n, lines[0]), SlotAfter(n, lines[0]),
                     if lines[0].WidthLine? then lines[0].width else width, lines[1..]);
      }
    }
  }
}
