/** An inventory: named lists that are written out and read back in place. */
module Inventories {
  import opened Numbers
  import opened Items
  import opened Stacks
  import opened SyncFormat
  import opened InventoryLists

  ghost function EntriesOf(lists: seq<InventoryList>): (entries: seq<Tracked>)
    reads lists
    ensures |entries| == |lists|
    ensures forall i :: 0 <= i < |lists| ==> entries[i] == Tracked(lists[i].View(), lists[i].dirty)
  {
    seq(|lists|, i requires 0 <= i < |lists| reads lists => Tracked(lists[i].View(), lists[i].dirty))
  }

  ghost function ViewsOf(lists: seq<InventoryList>): (views: seq<ListView>)
    reads lists
    ensures |views| == |lists| && forall i :: 0 <= i < |lists| ==> views[i] == lists[i].View()
    ensures views == Views(EntriesOf(lists))
  {
    Views(EntriesOf(lists))
  }

  function Empties(size: u32): seq<ItemStack> {
    seq(size, _ => EMPTY)
  }

  /** What adding a list does: a list of that name is resized and cleared, a name with a space is refused. */
  ghost function AddListStep(entries: seq<Tracked>, name: string, size: u32): seq<Tracked> {
    var i := IndexOf(Views(entries), name);
    if i < |entries| then Apply(entries, Change(i, entries[i].view.(items := Empties(size))))
    else if ' ' in name then entries
    else Apply(entries, Add(ListView(name, 0, Empties(size))))
  }

  class Inventory {
    var lists: seq<InventoryList>
    var dirty: bool
    const max: StackMax

    /** No two lists share a name, so none is held twice. */
    ghost predicate Valid()
      reads this, lists
    {
      DistinctNames(Contents())
    }

    ghost function Contents(): seq<ListView>
      reads this, lists
    {
      ViewsOf(lists)
    }

    ghost function Entries(): seq<Tracked>
      reads this, lists
    {
      EntriesOf(lists)
    }

    ghost predicate Modified()
      reads this, lists
    {
      dirty || exists i :: 0 <= i < |lists| && lists[i].dirty
    }

    constructor (max: StackMax)
      ensures Valid() && lists == [] && dirty && this.max == max
    {
      this.max := max;
      lists := [];
      dirty := true;
    }

    method CheckModified() returns (modified: bool)
      ensures modified <==> Modified()
    {
      if dirty {
        return true;
      }
      for i := 0 to |lists|
        invariant forall j :: 0 <= j < i ==> !lists[j].dirty
      {
        if lists[i].dirty {
          return true;
        }
      }
      return false;
    }

    /** Called after a copy was sent: everything counts as handled. */
    method SetHandled()
      requires Valid()
      modifies this`dirty, lists
      ensures Valid() && !Modified() && Contents() == old(Contents())
    {
      dirty := false;
      for i := 0 to |lists|
        invariant forall j :: 0 <= j < |lists| ==> lists[j].View() == old(lists[j].View())
        invariant forall j :: 0 <= j < i ==> !lists[j].dirty
        invariant lists == old(lists) && !dirty
      {
        assert forall j :: 0 <= j < i ==> Contents()[j].name != Contents()[i].name;
        lists[i].dirty := false;
      }
      assert Contents() == old(Contents());
    }

    method GetListIndex(name: string) returns (i: nat)
      ensures i == IndexOf(Contents(), name)
    {
      ghost var views := Contents();
      IndexOfIsFirst(views, name);
      i := 0;
      while i < |lists|
        invariant i <= |lists| == |views|
        invariant forall j :: 0 <= j < i ==> views[j].name != name
      {
        if lists[i].name == name {
          return;
        }
        i := i + 1;
      }
    }

    method ResetList(i: nat, size: u32)
      requires Valid() && i < |lists|
      modifies lists[i]
      ensures Entries() == Apply(old(Entries()), Change(i, old(Entries())[i].view.(items := Empties(size))))
    {
      ghost var entries := Entries();
      lists[i].SetSize(size);
      lists[i].ClearItems();
      assert lists[i].items == Empties(size);
      forall j | 0 <= j < |lists| && j != i
        ensures Entries()[j] == entries[j]
      {
        assert Views(entries)[j].name != Views(entries)[i].name;
      }
    }

    method AppendList(name: string, size: u32) returns (list: InventoryList)
      modifies `lists
      ensures fresh(list) && lists == old(lists) + [list] && list.name == name
      ensures Entries() == Apply(old(Entries()), Add(ListView(name, 0, Empties(size))))
    {
      ghost var entries := Entries();
      list := new InventoryList(name, size, max);
      assert list.items == Empties(size);
      lists := lists + [list];
    }

    method ResetOrAppend(name: string, size: u32) returns (list: InventoryList?)
      requires Valid()
      modifies `lists, lists
      ensures Entries() == AddListStep(old(Entries()), name, size)
      ensures list == null <==> ' ' in name && IndexOf(old(Contents()), name) == |old(lists)|
      ensures list != null ==> list in lists && (list in old(lists) || fresh(list))
      ensures forall other :: other in lists ==> other in old(lists) || fresh(other)
    {
      var i := GetListIndex(name);
      if i < |lists| {
        list := lists[i];
        ResetList(i, size);
      } else if ' ' in name {
        list := null;
      } else {
        list := AppendList(name, size);
      }
    }

    method AddList(name: string, size: u32) returns (list: InventoryList?)
      requires Valid()
      modifies this, lists
      ensures Valid() && dirty && Entries() == AddListStep(old(Entries()), name, size)
      ensures list == null <==> ' ' in name && IndexOf(old(Contents()), name) == |old(lists)|
      ensures list != null ==> list in lists && (list in old(lists) || fresh(list))
      ensures forall other :: other in lists ==> other in old(lists) || fresh(other)
    {
      StepKeepsNamesDistinct(Entries(), name, size);
      dirty := true;
      list := ResetOrAppend(name, size);
    }

    method DeleteList(name: string) returns (found: bool)
      requires Valid()
      modifies this
      ensures found == (IndexOf(old(Contents()), name) < |old(lists)|)
      ensures Entries() == Apply(old(Entries()), Delete(IndexOf(old(Contents()), name)))
      ensures Valid() && (found ==> dirty)
      ensures forall list :: list in lists ==> list in old(lists)
    {
      ghost var entries := Entries();
      var i := GetListIndex(name);
      DeleteKeepsNamesDistinct(entries, i);
      if i == |lists| {
        return false;
      }
      dirty := true;
      lists := lists[..i] + lists[i + 1..];
      assert Entries() == Apply(entries, Delete(i));
      return true;
    }

    method Serialize(incremental: bool) returns (lines: seq<Line>)
      requires forall t :: t in Entries() ==> Writable(t.view)
      ensures lines == WriteLists(Entries(), incremental)
    {
      ghost var entries := Entries();
      lines := [];
      for i := 0 to |lists|
        invariant lines + WriteLists(entries[i..], incremental) == WriteLists(entries, incremental)
      {
        WriteListsStep(lines, entries, i, incremental);
        if !incremental || lists[i].dirty {
          var body := lists[i].Serialize();
          lines := lines + ([ListLine(lists[i].name, |lists[i].items|)] + body);
        } else {
          lines := lines + [KeepListLine(lists[i].name)];
        }
      }
      lines := lines + [EndInventoryLine];
    }

    method ReadIntoList(i: nat, size: u32, lines: seq<Line>) returns (rest: Result<seq<Line>>)
      requires Valid() && i < |lists|
      modifies lists[i]
      ensures Valid()
      ensures match ReadList(Resize(old(Contents())[i].items, size), lines)
              case SerializationError => rest.SerializationError?
              case Ok(read) =>
                && rest == Ok(read.rest) && lists[i].dirty
                && Contents() == old(Contents())[i := ListView(old(Contents())[i].name, read.width, read.items)]
    {
      ghost var views := Contents();
      lists[i].SetSize(size);
      assert lists[i].items == Resize(views[i].items, size);
      rest := lists[i].DeSerialize(lines);
      forall j | 0 <= j < |lists| && j != i
        ensures Contents()[j] == views[j]
      {
        assert views[j].name != views[i].name;
      }
      assert Contents()[i].name == views[i].name;
    }

    /** A list that cannot be read is not added. */
    method ReadNewList(name: string, size: u32, lines: seq<Line>) returns (rest: Result<seq<Line>>, list: InventoryList)
      modifies `lists
      ensures fresh(list)
      ensures match ReadList(Resize([], size), lines)
              case SerializationError => rest.SerializationError? && lists == old(lists)
              case Ok(read) =>
                && rest == Ok(read.rest) && list.dirty && lists == old(lists) + [list]
                && Contents() == old(Contents()) + [ListView(name, read.width, read.items)]
    {
      list := new InventoryList(name, size, max);
      assert list.items == Resize([], size);
      rest := list.DeSerialize(lines);
      if rest.Ok? {
        lists := lists + [list];
      }
    }

    /** Reads one list that was sent in full, into the list of that name or a new one. */
    method ReadFullList(name: string, size: u32, lines: seq<Line>)
      returns (rest: Result<seq<Line>>, list: InventoryList)
      requires Valid()
      modifies this, lists
      ensures Valid() && dirty == old(dirty)
      ensures lists == if IndexOf(old(Contents()), name) < |old(lists)| || rest.SerializationError? then old(lists)
              else old(lists) + [list]
      ensures |lists| > |old(lists)| ==> fresh(list)
      ensures var i := IndexOf(old(Contents()), name);
              var items := if i < |old(lists)| then Resize(old(Contents())[i].items, size) else Resize([], size);
              match ReadList(items, lines)
              case SerializationError => rest.SerializationError?
              case Ok(read) =>
                && rest == Ok(read.rest) && list.dirty
                && i < |lists| && lists[i] == list
                && Contents() == Receive(old(Contents()), ListView(name, read.width, read.items))
    {
      var i := GetListIndex(name);
      if i == |lists| {
        rest, list := ReadNewList(name, size, lines);
      } else {
        list := lists[i];
        rest := ReadIntoList(i, size, lines);
      }
    }

    /** Drops the lists that were not sent. */
    method RemoveOthers(newLists: seq<InventoryList>, ghost sent: set<nat>)
      requires Sent(lists, newLists, sent)
      modifies `lists, `dirty
      ensures lists == KeepOnly(old(lists), sent, |old(lists)|)
      ensures Contents() == KeepOnly(old(Contents()), sent, |old(lists)|)
      ensures old(dirty) ==> dirty
      ensures lists != old(lists) ==> dirty
    {
      var kept, dropped := KeepSent(lists, newLists, sent);
      KeepOnlyViews(lists, sent, |lists|);
      dirty := dirty || dropped;
      lists := kept;
      assert ViewsOf(kept) == old(ViewsOf(kept));
    }

    /** In the middle of reading: what is left to read leads to `result`. */
    ghost predicate MidRead(newLists: seq<InventoryList>, sent: set<nat>, left: seq<Line>,
                            result: Result<seq<ListView>>)
      reads this, lists
    {
      && Valid() && DistinctLists(lists) && Sent(lists, newLists, sent)
      && ReadLists(Contents(), sent, left) == result
    }

    method ReadSentList(name: string, size: u32, left: seq<Line>, newLists: seq<InventoryList>,
                        ghost sent: set<nat>, ghost result: Result<seq<ListView>>)
      returns (rest: Result<seq<Line>>, list: InventoryList, ghost sent': set<nat>)
      requires left != [] && left[0] == ListLine(name, size) && MidRead(newLists, sent, left, result)
      modifies this, lists
      ensures lists == old(lists) || (lists == old(lists) + [list] && fresh(list))
      ensures Valid()
      ensures rest.SerializationError? ==> result.SerializationError?
      ensures rest.Ok? ==> |rest.value| < |left| && MidRead(newLists + [list], sent', rest.value, result)
    {
      ghost var i := IndexOf(Contents(), name);
      ghost var before := lists;
      rest, list := ReadFullList(name, size, left[1..]);
      sent' := sent + {i};
      if rest.Ok? {
        ViewsApart(lists);
        SentGrows(before, lists, newLists, sent, i);
      }
    }

    method KeepSentList(name: string, left: seq<Line>, newLists: seq<InventoryList>,
                        ghost sent: set<nat>, ghost result: Result<seq<ListView>>)
      returns (newLists': seq<InventoryList>, ghost sent': set<nat>)
      requires left != [] && left[0] == KeepListLine(name) && MidRead(newLists, sent, left, result)
      ensures MidRead(newLists', sent', left[1..], result)
    {
      var i := GetListIndex(name);
      newLists', sent' := newLists, sent;
      if i < |lists| {
        newLists', sent' := newLists + [lists[i]], sent + {i};
        SentGrows(lists, lists, newLists, sent, i);
      }
    }

    method FinishRead(newLists: seq<InventoryList>, ghost sent: set<nat>, ghost left: seq<Line>,
                      ghost result: Result<seq<ListView>>)
      requires left != [] && left[0] == EndInventoryLine && MidRead(newLists, sent, left, result)
      modifies this
      ensures Valid() && result == Ok(Contents())
      ensures forall list :: list in lists ==> list in old(lists)
    {
      KeepOnlyViews(lists, sent, |lists|);
      SentNamesApart(Contents(), sent);
      RemoveOthers(newLists, sent);
    }

    /** A line that belongs to no list is ignored. */
    lemma SkipLine(newLists: seq<InventoryList>, sent: set<nat>, left: seq<Line>, result: Result<seq<ListView>>)
      requires left != [] && !left[0].EndInventoryLine? && !left[0].ListLine? && !left[0].KeepListLine?
      requires MidRead(newLists, sent, left, result)
      ensures MidRead(newLists, sent, left[1..], result)
    {
    }

    /** Reads a whole inventory or the changes of one; lists that were not sent disappear. */
    method DeSerialize(lines: seq<Line>) returns (ok: bool)
      requires Valid()
      modifies this, lists
      ensures Valid()
      ensures ok == Read(old(Contents()), lines).Ok?
      ensures ok ==> Contents() == Read(old(Contents()), lines).value
      ensures forall list :: list in lists ==> list in old(lists) || fresh(list)
    {
      ghost var result := Read(Contents(), lines);
      ghost var sent: set<nat> := {};
      var newLists: seq<InventoryList> := [];
      var left := lines;
      ViewsApart(lists);
      while left != []
        invariant MidRead(newLists, sent, left, result)
        invariant old(lists) <= lists && forall x :: |old(lists)| <= x < |lists| ==> fresh(lists[x])
        decreases |left|
      {
        match left[0]
        case EndInventoryLine =>
          FinishRead(newLists, sent, left, result);
          return true;
        case ListLine(name, size) =>
          var rest, list;
          rest, list, sent := ReadSentList(name, size, left, newLists, sent, result);
          if rest.SerializationError? {
            return false;
          }
          newLists := newLists + [list];
          left := rest.value;
        case KeepListLine(name) =>
          newLists, sent := KeepSentList(name, left, newLists, sent, result);
          left := left[1..];
        case _ =>
          SkipLine(newLists, sent, left, result);
          left := left[1..];
      }
      return false;
    }
  }

  lemma ViewsApart(lists: seq<InventoryList>)
    requires DistinctNames(ViewsOf(lists))
    ensures DistinctLists(lists)
  {
    var views := ViewsOf(lists);
    forall x, y | 0 <= x < y < |lists|
      ensures lists[x] != lists[y]
    {
      assert views[x].name != views[y].name;
    }
  }

  lemma SentGrows(before: seq<InventoryList>, lists: seq<InventoryList>,
                  newLists: seq<InventoryList>, sent: set<nat>, i: nat)
    requires Sent(before, newLists, sent) && before <= lists && |lists| <= |before| + 1
    requires i < |lists| && (|before| < |lists| ==> i == |before|)
    requires DistinctLists(lists)
    ensures Sent(lists, newLists + [lists[i]], sent + {i})
  {
  }

  lemma SentNamesApart(views: seq<ListView>, sent: set<nat>)
    requires DistinctNames(views)
    ensures DistinctNames(KeepOnly(views, sent, |views|))
  {
    KeepOnlyIs(views, sent, |views|);
  }

  lemma {:induction false} KeepOnlyViews(lists: seq<InventoryList>, sent: set<nat>, n: nat)
    requires n <= |lists|
    ensures ViewsOf(KeepOnly(lists, sent, n)) == KeepOnly(ViewsOf(lists), sent, n)
    ensures forall list :: list in KeepOnly(lists, sent, n) ==> list in lists
  {
    if n > 0 {
      KeepOnlyViews(lists, sent, n - 1);
    }
  }

  ghost predicate DistinctLists(lists: seq<InventoryList>) {
    forall x, y :: 0 <= x < y < |lists| ==> lists[x] != lists[y]
  }

  /** The lists recorded as sent are those at the positions `sent`. */
  ghost predicate Sent(lists: seq<InventoryList>, newLists: seq<InventoryList>, sent: set<nat>) {
    forall x: nat :: x < |lists| ==> (lists[x] in newLists <==> x in sent)
  }

  /** The lists that were sent, and whether others were dropped. */
  method KeepSent(lists: seq<InventoryList>, newLists: seq<InventoryList>, ghost sent: set<nat>)
    returns (kept: seq<InventoryList>, dropped: bool)
    requires Sent(lists, newLists, sent)
    ensures kept == KeepOnly(lists, sent, |lists|) && (kept == lists || dropped)
  {
    kept, dropped := [], false;
    for i := 0 to |lists|
      invariant kept == KeepOnly(lists, sent, i) && (kept == lists[..i] || dropped)
    {
      if lists[i] in newLists {
        kept := kept + [lists[i]];
      } else {
        dropped := true;
      }
    }
  }

  lemma {:induction false} DeleteKeepsNamesDistinct(entries: seq<Tracked>, i: nat)
    requires DistinctNames(Views(entries))
    ensures DistinctNames(Views(Apply(entries, Delete(i))))
  {
    var views, after := Views(entries), Views(Apply(entries, Delete(i)));
    forall x, y | 0 <= x < y < |after|
      ensures after[x].name != after[y].name
    {
      var x' := if x < i then x else x + 1;
      var y' := if y < i then y else y + 1;
      assert i < |entries| ==> after[x] == views[x'] && after[y] == views[y'];
    }
  }

  lemma {:induction false} StepKeepsNamesDistinct(entries: seq<Tracked>, name: string, size: u32)
    requires DistinctNames(Views(entries))
    ensures DistinctNames(Views(AddListStep(entries, name, size)))
  {
    var views := Views(entries);
    IndexOfIsFirst(views, name);
  }

  lemma WriteListsStep(lines: seq<Line>, entries: seq<Tracked>, i: nat, incremental: bool)
    requires forall t :: t in entries ==> Writable(t.view)
    requires i < |entries|
    ensures lines + WriteLists(entries[i..], incremental) ==
            lines + WriteEntry(entries[i], incremental) + WriteLists(entries[i + 1..], incremental)
  {
    assert entries[i] in entries;
    assert entries[i..][1..] == entries[i + 1..];
  }

  lemma {:induction false} IndexOfIsFirst(views: seq<ListView>, name: string)
    ensures forall i ::
              0 <= i < |views| && views[i].name == name && (forall j :: 0 <= j < i ==> views[j].name != name) ==>
                IndexOf(views, name) == i
    ensures (forall j :: 0 <= j < |views| ==> views[j].name != name) ==> IndexOf(views, name) == |views|
  {
  }
}
