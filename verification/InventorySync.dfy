/**
  A server's inventory and the copy of it that a client holds: whatever calls
  change the server's lists, sending only the marked lists brings the client's
  copy up to date.
 */
module InventorySync {
  import opened Numbers
  import opened Items
  import opened SyncFormat
  import opened InventoryLists
  import opened Inventories

  /** The calls that change a list. */
  datatype Edit =
    | ChangeItem(i: nat, item: ItemStack)
    | DeleteItem(i: nat)
    | AddItem(item: ItemStack)
    | AddItemAt(i: nat, item: ItemStack)
    | TakeItem(i: nat, count: u32)
    | RemoveItem(item: ItemStack, matchMeta: bool)
    | SetSize(size: u32)
    | SetWidth(width: u32)
    | ClearItems

  /** The calls that change an inventory; lists are given by their positions. */
  datatype Call =
    | EditList(list: nat, edit: Edit)
    | MoveItem(list: nat, i: nat, dest: nat, destI: nat, count: u32, swapIfNeeded: bool)
    | MoveItemSomewhere(list: nat, i: nat, dest: nat, count: u32)
    | AddList(name: string, size: u32)
    | DeleteList(name: string)

  method Edited(list: InventoryList, edit: Edit)
    requires Writable(list.View())
    modifies list
    ensures list.Marked() && list.name == old(list.name) && Writable(list.View())
  {
    match edit
    case ChangeItem(i, item) => var _ := list.ChangeItem(i, item);
    case DeleteItem(i) =>
      if i < |list.items| {
        list.DeleteItem(i);
      }
    case AddItem(item) => var _ := list.AddItem(item);
    case AddItemAt(i, item) => var _ := list.AddItemAt(i, item);
    case TakeItem(i, count) => var _ := list.TakeItem(i, count);
    case RemoveItem(item, matchMeta) => var _ := list.RemoveItem(item, matchMeta);
    case SetSize(size) => list.SetSize(size);
    case SetWidth(width) => list.SetWidth(width);
    case ClearItems => list.ClearItems();
  }

  // ---------------------------------------------------------------------------
  // Calls are runs of steps
  // ---------------------------------------------------------------------------

  ghost predicate AllWritable(entries: seq<Tracked>) {
    forall i :: 0 <= i < |entries| ==> Writable(entries[i].view)
  }

  /** Every entry of the list is as before or marked. */
  ghost predicate SameOrMarked(before: seq<Tracked>, after: seq<Tracked>) {
    |after| == |before| && forall i :: 0 <= i < |after| ==> after[i] == before[i] || after[i].dirty
  }

  lemma {:induction false} RunAppend(entries: seq<Tracked>, steps: seq<Step>, more: seq<Step>)
    ensures Run(entries, steps + more) == Run(Run(entries, steps), more)
    decreases |steps|
  {
    if steps == [] {
      assert steps + more == more;
    } else {
      assert (steps + more)[1..] == steps[1..] + more;
      RunAppend(Apply(entries, steps[0]), steps[1..], more);
    }
  }

  lemma RunOne(entries: seq<Tracked>, step: Step)
    ensures Run(entries, [step]) == Apply(entries, step)
  {
    assert Run(Apply(entries, step), []) == Apply(entries, step);
  }

  function Mix(before: seq<Tracked>, after: seq<Tracked>, n: nat): seq<Tracked>
    requires n <= |before| == |after|
  {
    after[..n] + before[n..]
  }

  lemma MixNext(before: seq<Tracked>, after: seq<Tracked>, n: nat)
    requires n < |before| == |after|
    ensures after[n] == before[n] ==> Mix(before, after, n + 1) == Mix(before, after, n)
    ensures after[n].dirty ==> Mix(before, after, n + 1) == Apply(Mix(before, after, n), Change(n, after[n].view))
  {
  }

  /** Marked changes are a run of changes. */
  lemma {:induction false} MarkedIsRun(before: seq<Tracked>, after: seq<Tracked>, n: nat) returns (steps: seq<Step>)
    requires SameOrMarked(before, after) && n <= |before|
    ensures Run(before, steps) == Mix(before, after, n)
  {
    if n == 0 {
      steps := [];
      assert Mix(before, after, 0) == before;
    } else {
      steps := MarkedIsRun(before, after, n - 1);
      MixNext(before, after, n - 1);
      if after[n - 1] != before[n - 1] {
        var step := Change(n - 1, after[n - 1].view);
        RunAppend(before, steps, [step]);
        RunOne(Mix(before, after, n - 1), step);
        steps := steps + [step];
      }
    }
  }

  /** A call that marks the lists it changes is a run of changes to the entries. */
  twostate lemma MarkedListsAreRun(lists: seq<InventoryList>) returns (steps: seq<Step>)
    requires forall i :: 0 <= i < |lists| ==> lists[i].Marked()
    ensures Run(old(EntriesOf(lists)), steps) == EntriesOf(lists)
  {
    var before, after := old(EntriesOf(lists)), EntriesOf(lists);
    forall i | 0 <= i < |lists|
      ensures after[i] == before[i] || after[i].dirty
    {
      assert lists[i].Marked();
    }
    steps := MarkedIsRun(before, after, |before|);
    assert Mix(before, after, |before|) == after;
  }

  // ---------------------------------------------------------------------------
  // Calls on an inventory
  // ---------------------------------------------------------------------------

  /** The lists are marked where they changed and keep their names and sizes in bounds. */
  twostate predicate Touched(lists: seq<InventoryList>)
    reads lists
  {
    forall i :: 0 <= i < |lists| ==>
      lists[i].Marked() && lists[i].name == old(lists[i].name) && Writable(lists[i].View())
  }

  twostate lemma TouchedIsRun(inv: Inventory) returns (steps: seq<Step>)
    requires inv.lists == old(inv.lists) && Touched(inv.lists) && old(inv.Valid())
    ensures inv.Entries() == Run(old(inv.Entries()), steps)
    ensures inv.Valid() && AllWritable(inv.Entries())
  {
    steps := MarkedListsAreRun(inv.lists);
    var before, after := old(inv.Contents()), inv.Contents();
    forall i, j | 0 <= i < j < |after|
      ensures after[i].name != after[j].name
    {
      assert before[i].name != before[j].name;
    }
  }

  method PerformEdit(inv: Inventory, list: nat, edit: Edit)
    requires inv.Valid() && AllWritable(inv.Entries())
    modifies inv.lists
    ensures Touched(inv.lists)
  {
    ViewsApart(inv.lists);
    forall i | 0 <= i < |inv.lists|
      ensures Writable(inv.lists[i].View())
    {
      assert Writable(inv.Entries()[i].view);
    }
    if list < |inv.lists| {
      Edited(inv.lists[list], edit);
    }
  }

  method PerformMove(inv: Inventory, list: nat, i: nat, dest: nat, destI: nat, count: u32, swapIfNeeded: bool)
    requires inv.Valid() && AllWritable(inv.Entries())
    modifies inv.lists
    ensures Touched(inv.lists)
  {
    forall i | 0 <= i < |inv.lists|
      ensures Writable(inv.lists[i].View())
    {
      assert Writable(inv.Entries()[i].view);
    }
    if list < |inv.lists| && dest < |inv.lists| {
      var _, _ := inv.lists[list].MoveItem(i, inv.lists[dest], destI, count, swapIfNeeded);
    }
  }

  method PerformMoveSomewhere(inv: Inventory, list: nat, i: nat, dest: nat, count: u32)
    requires inv.Valid() && AllWritable(inv.Entries())
    modifies inv.lists
    ensures Touched(inv.lists)
  {
    forall i | 0 <= i < |inv.lists|
      ensures Writable(inv.lists[i].View())
    {
      assert Writable(inv.Entries()[i].view);
    }
    if list < |inv.lists| && dest < |inv.lists| {
      inv.lists[list].MoveItemSomewhere(i, inv.lists[dest], count);
    }
  }

  /** The inventory holds lists it held before, and new ones. */
  twostate predicate OldOrFresh(inv: Inventory)
    reads inv
  {
    forall i :: 0 <= i < |inv.lists| ==> inv.lists[i] in old(inv.lists) || fresh(inv.lists[i])
  }

  /** Any call is a run of steps on the entries. */
  method Perform(inv: Inventory, call: Call) returns (ghost steps: seq<Step>)
    requires inv.Valid() && AllWritable(inv.Entries())
    modifies inv, inv.lists
    ensures inv.Entries() == Run(old(inv.Entries()), steps)
    ensures inv.Valid() && AllWritable(inv.Entries())
    ensures OldOrFresh(inv)
  {
    match call
    case EditList(list, edit) =>
      PerformEdit(inv, list, edit);
      steps := TouchedIsRun(inv);
    case MoveItem(list, i, dest, destI, count, swapIfNeeded) =>
      PerformMove(inv, list, i, dest, destI, count, swapIfNeeded);
      steps := TouchedIsRun(inv);
    case MoveItemSomewhere(list, i, dest, count) =>
      PerformMoveSomewhere(inv, list, i, dest, count);
      steps := TouchedIsRun(inv);
    case AddList(name, size) =>
      steps := AddListIsRun(inv.Entries(), name, size);
      var _ := inv.AddList(name, size);
    case DeleteList(name) =>
      RunOne(inv.Entries(), Delete(IndexOf(inv.Contents(), name)));
      steps := [Delete(IndexOf(inv.Contents(), name))];
      var _ := inv.DeleteList(name);
  }

  lemma AddListIsRun(entries: seq<Tracked>, name: string, size: u32) returns (steps: seq<Step>)
    requires AllWritable(entries)
    ensures AddListStep(entries, name, size) == Run(entries, steps)
    ensures AllWritable(AddListStep(entries, name, size))
  {
    var i := IndexOf(Views(entries), name);
    if i == |entries| && ' ' in name {
      return [];
    }
    var step := if i < |entries| then Change(i, entries[i].view.(items := Empties(size)))
        else Add(ListView(name, 0, Empties(size)));
    RunOne(entries, step);
    steps := [step];
  }

  // ---------------------------------------------------------------------------
  // Sessions
  // ---------------------------------------------------------------------------

  /** The two inventories have no list in common. */
  ghost predicate Apart(server: Inventory, client: Inventory)
    reads server, client
  {
    server != client && forall i, j :: 0 <= i < |server.lists| && 0 <= j < |client.lists| ==>
        server.lists[i] != client.lists[j]
  }

  /** Both are well formed and share nothing, and the client knows what the server takes it to know. */
  ghost predicate InTouch(server: Inventory, client: Inventory)
    reads server, client, server.lists, client.lists
  {
    && Apart(server, client) && server.Valid() && client.Valid() && AllWritable(server.Entries())
    && InStep(server.Entries(), client.Contents())
  }

  method PerformApart(server: Inventory, client: Inventory, call: Call) returns (ghost steps: seq<Step>)
    requires Apart(server, client) && server.Valid() && AllWritable(server.Entries())
    modifies server, server.lists
    ensures server.Entries() == Run(old(server.Entries()), steps)
    ensures Apart(server, client) && server.Valid() && AllWritable(server.Entries())
    ensures client.lists == old(client.lists) && client.Contents() == old(client.Contents())
    ensures OldOrFresh(server)
  {
    steps := Perform(server, call);
  }

  /** One call on the server's side. */
  method ServerCall(server: Inventory, client: Inventory, call: Call)
    requires InTouch(server, client)
    modifies server, server.lists
    ensures InTouch(server, client)
    ensures client.lists == old(client.lists) && client.Contents() == old(client.Contents())
    ensures OldOrFresh(server)
  {
    ghost var entries, copy := server.Entries(), client.Contents();
    ghost var steps := PerformApart(server, client, call);
    RunKeepsInStep(entries, copy, steps);
  }

  method ReceiveApart(server: Inventory, client: Inventory, lines: seq<Line>) returns (ok: bool)
    requires Apart(server, client) && client.Valid()
    modifies client, client.lists
    ensures Apart(server, client) && client.Valid() && OldOrFresh(client)
    ensures server.lists == old(server.lists) && server.Entries() == old(server.Entries())
    ensures ok == Read(old(client.Contents()), lines).Ok?
    ensures ok ==> client.Contents() == Read(old(client.Contents()), lines).value
  {
    ok := client.DeSerialize(lines);
    forall i, j | 0 <= i < |server.lists| && 0 <= j < |client.lists|
      ensures server.lists[i] != client.lists[j]
    {
      assert client.lists[j] in client.lists;
    }
  }

  method HandledApart(server: Inventory, client: Inventory)
    requires Apart(server, client) && server.Valid()
    modifies server`dirty, server.lists
    ensures Apart(server, client) && server.Valid() && !server.Modified()
    ensures server.lists == old(server.lists) && server.Contents() == old(server.Contents())
    ensures client.lists == old(client.lists) && client.Contents() == old(client.Contents())
  {
    server.SetHandled();
  }

  method SendApart(server: Inventory, client: Inventory, incremental: bool) returns (ok: bool)
    requires Apart(server, client) && client.Valid() && AllWritable(server.Entries())
    modifies client, client.lists
    ensures Apart(server, client) && client.Valid() && OldOrFresh(client)
    ensures server.lists == old(server.lists) && server.Entries() == old(server.Entries())
    ensures ok == Read(old(client.Contents()), WriteLists(server.Entries(), incremental)).Ok?
    ensures ok ==> client.Contents() == Read(old(client.Contents()), WriteLists(server.Entries(), incremental)).value
  {
    forall t | t in server.Entries()
      ensures Writable(t.view)
    {
    }
    var lines := server.Serialize(incremental);
    ok := ReceiveApart(server, client, lines);
  }

  /** Sends the inventory, in full or only what is marked; afterwards nothing is marked. */
  method SendInventory(server: Inventory, client: Inventory, incremental: bool) returns (ok: bool)
    requires Apart(server, client) && server.Valid() && client.Valid() && AllWritable(server.Entries())
    requires incremental ==> InStep(server.Entries(), client.Contents())
    modifies server`dirty, server.lists, client, client.lists
    ensures ok && Agree(server.Contents(), client.Contents()) && InTouch(server, client)
    ensures server.Contents() == old(server.Contents()) && !server.Modified()
    ensures server.lists == old(server.lists) && OldOrFresh(client)
  {
    ghost var entries := server.Entries();
    SyncAgrees(entries, client.Contents(), incremental);
    ok := SendApart(server, client, incremental);
    HandledApart(server, client);
    SameViewsWritable(entries, server.Entries());
    AgreeIsInStep(server.Entries(), client.Contents());
  }

  lemma SyncAgrees(entries: seq<Tracked>, copy: seq<ListView>, incremental: bool)
    requires DistinctNames(Views(entries)) && AllWritable(entries) && (incremental ==> InStep(entries, copy))
    ensures var r := Read(copy, WriteLists(entries, incremental)); r.Ok? && Agree(Views(entries), r.value)
  {
    DistinctAreSame(Views(entries));
    if incremental {
      IncrementalSyncAgrees(entries, copy);
    } else {
      FullSyncAgrees(entries, copy);
    }
  }

  lemma SameViewsWritable(before: seq<Tracked>, after: seq<Tracked>)
    requires Views(before) == Views(after) && AllWritable(before)
    ensures AllWritable(after)
  {
    forall i | 0 <= i < |after|
      ensures Writable(after[i].view)
    {
      assert Views(before)[i] == Views(after)[i];
    }
  }

  lemma AgreeIsInStep(sender: seq<Tracked>, receiver: seq<ListView>)
    requires Agree(Views(sender), receiver)
    ensures InStep(sender, receiver)
  {
    forall i | 0 <= i < |sender|
      ensures HoldsList(receiver, sender[i].view)
    {
      assert HoldsList(receiver, Views(sender)[i]);
    }
  }

  /**
    Whatever is called on the server's inventory, sending the marked lists
    brings the client's copy up to date, and they are in touch for the next
    round.
   */
  method Session(server: Inventory, client: Inventory, calls: seq<Call>) returns (ok: bool)
    requires InTouch(server, client)
    modifies server, server.lists, client, client.lists
    ensures ok && Agree(server.Contents(), client.Contents()) && InTouch(server, client)
    ensures OldOrFresh(server)
    ensures OldOrFresh(client)
  {
    for k := 0 to |calls|
      invariant InTouch(server, client) && client.lists == old(client.lists)
      invariant OldOrFresh(server)
    {
      ServerCall(server, client, calls[k]);
    }
    ok := SendInventory(server, client, true);
  }
}
