/**
  The inventory format, line by line: writing an inventory in full or only
  where it is marked dirty, and reading it into another inventory.
 */
module SyncFormat {
  import opened Numbers
  import opened Items
  import opened Stacks

  datatype Line =
    | ListLine(name: string, size: u32)
    | KeepListLine(name: string)
    | WidthLine(width: u32)
    | ItemLine(stack: ItemStack)
    | EmptyLine
    | KeepLine
    | EndListLine
    | EndInventoryLine

  /** What two inventories can agree on about a list. */
  datatype ListView = ListView(name: string, width: u32, items: seq<ItemStack>)

  datatype Tracked = Tracked(view: ListView, dirty: bool)

  datatype Result<+T> = Ok(value: T) | SerializationError

  // ---------------------------------------------------------------------------
  // Writing
  // ---------------------------------------------------------------------------

  function SlotLine(s: ItemStack): Line {
    if Empty(s) then EmptyLine else ItemLine(s)
  }

  function SlotLines(items: seq<ItemStack>): (lines: seq<Line>)
    ensures |lines| == |items| && forall i :: 0 <= i < |items| ==> lines[i] == SlotLine(items[i])
  {
    seq(|items|, i requires 0 <= i < |items| => SlotLine(items[i]))
  }

  function WriteList(v: ListView): seq<Line> {
    [WidthLine(v.width)] + SlotLines(v.items) + [EndListLine]
  }

  ghost predicate Writable(v: ListView) {
    |v.items| < 0x1_0000_0000
  }

  function WriteEntry(t: Tracked, incremental: bool): seq<Line>
    requires Writable(t.view)
  {
    if !incremental || t.dirty then [ListLine(t.view.name, |t.view.items|)] + WriteList(t.view)
    else [KeepListLine(t.view.name)]
  }

  function WriteLists(lists: seq<Tracked>, incremental: bool): seq<Line>
    requires forall i :: 0 <= i < |lists| ==> Writable(lists[i].view)
  {
    if lists == [] then [EndInventoryLine]
    else WriteEntry(lists[0], incremental) + WriteLists(lists[1..], incremental)
  }

  // ---------------------------------------------------------------------------
  // Reading
  // ---------------------------------------------------------------------------

  /** The state of reading one list: the slots so far, the next slot, the width, the lines not yet read. */
  datatype ListRead = ListRead(items: seq<ItemStack>, width: u32, rest: seq<Line>)

  function ClearFrom(items: seq<ItemStack>, n: nat): (r: seq<ItemStack>)
    ensures |r| == |items|
    ensures forall i :: 0 <= i < |items| ==> r[i] == if i < n then items[i] else EMPTY
  {
    seq(|items|, i requires 0 <= i < |items| => if i < n then items[i] else EMPTY)
  }

  /** Reads slots until the end line; slots not mentioned are cleared, slots too many are an error. */
  function ReadSlots(items: seq<ItemStack>, n: nat, width: u32, lines: seq<Line>): (r: Result<ListRead>)
    ensures r.Ok? ==> |r.value.items| == |items| && |r.value.rest| < |lines|
    decreases |lines|
  {
    if lines == [] then SerializationError
    else
      var rest := lines[1..];
      match lines[0]
      case EndListLine => Ok(ListRead(ClearFrom(items, n), width, rest))
      case WidthLine(w) => ReadSlots(items, n, w, rest)
      case ItemLine(s) => if n >= |items| then SerializationError else ReadSlots(items[n := s], n + 1, width, rest)
      case EmptyLine => if n >= |items| then SerializationError else ReadSlots(items[n := EMPTY], n + 1, width, rest)
      case KeepLine => ReadSlots(items, n + 1, width, rest)
      case _ => ReadSlots(items, n, width, rest)
  }

  function ReadList(items: seq<ItemStack>, lines: seq<Line>): (r: Result<ListRead>)
    ensures r.Ok? ==> |r.value.items| == |items| && |r.value.rest| < |lines|
  {
    ReadSlots(items, 0, 0, lines)
  }

  function Resize(items: seq<ItemStack>, size: u32): (r: seq<ItemStack>)
    ensures |r| == size
    ensures forall i :: 0 <= i < size ==> r[i] == if i < |items| then items[i] else EMPTY
  {
    seq(size, i requires 0 <= i < size => if i < |items| then items[i] else EMPTY)
  }

  /** The first list of a name, or the number of lists if there is none. */
  function IndexOf(lists: seq<ListView>, name: string): (i: nat)
    ensures i <= |lists| && (i < |lists| ==> lists[i].name == name)
    ensures forall j :: 0 <= j < i ==> lists[j].name != name
  {
    if lists == [] || lists[0].name == name then 0 else 1 + IndexOf(lists[1..], name)
  }

  /** The lists that were sent, in their order. */
  function KeepOnly<T>(lists: seq<T>, sent: set<nat>, n: nat): seq<T>
    requires n <= |lists|
  {
    if n == 0 then []
    else KeepOnly(lists, sent, n - 1) + if n - 1 in sent then [lists[n - 1]] else []
  }

  function ReadLists(lists: seq<ListView>, sent: set<nat>, lines: seq<Line>): Result<seq<ListView>>
    decreases |lines|
  {
    if lines == [] then SerializationError
    else
      var rest := lines[1..];
      match lines[0]
      case EndInventoryLine => Ok(KeepOnly(lists, sent, |lists|))
      case ListLine(name, size) =>
        var i := IndexOf(lists, name);
        var items := if i < |lists| then Resize(lists[i].items, size) else Resize([], size);
        (match ReadList(items, rest)
         case SerializationError => SerializationError
         case Ok(read) =>
           var v := ListView(name, read.width, read.items);
           ReadLists(if i < |lists| then lists[i := v] else lists + [v], sent + {i}, read.rest))
      case KeepListLine(name) =>
        var i := IndexOf(lists, name);
        ReadLists(lists, if i < |lists| then sent + {i} else sent, rest)
      case _ => ReadLists(lists, sent, rest)
  }

  function Read(lists: seq<ListView>, lines: seq<Line>): Result<seq<ListView>> {
    ReadLists(lists, {}, lines)
  }

  // ---------------------------------------------------------------------------
  // A list survives the trip
  // ---------------------------------------------------------------------------

  /** Empty stacks travel as empty lines, whatever else they carry. */
  function Normal(s: ItemStack): ItemStack {
    if Empty(s) then EMPTY else s
  }

  function NormalItems(items: seq<ItemStack>): (r: seq<ItemStack>)
    ensures |r| == |items|
    ensures forall i :: 0 <= i < |items| ==> r[i] == Normal(items[i])
  {
    seq(|items|, i requires 0 <= i < |items| => Normal(items[i]))
  }

  function NormalView(v: ListView): ListView {
    v.(items := NormalItems(v.items))
  }

  lemma {:induction false} SlotsRoundTrip(items: seq<ItemStack>, source: seq<ItemStack>, n: nat, width: u32,
                                          rest: seq<Line>)
    requires |items| == |source| && n <= |source|
    requires forall i :: 0 <= i < n ==> items[i] == Normal(source[i])
    ensures ReadSlots(items, n, width, SlotLines(source)[n..] + [EndListLine] + rest) ==
            Ok(ListRead(NormalItems(source), width, rest))
    decreases |source| - n
  {
    var lines := SlotLines(source)[n..] + [EndListLine] + rest;
    if n == |source| {
      assert lines == [EndListLine] + rest;
      assert lines[1..] == rest;
      assert ClearFrom(items, n) == NormalItems(source);
    } else {
      assert lines[0] == SlotLine(source[n]);
      assert lines[1..] == SlotLines(source)[n + 1..] + [EndListLine] + rest;
      SlotsRoundTrip(items[n := Normal(source[n])], source, n + 1, width, rest);
    }
  }

  lemma {:induction false} ListRoundTrip(items: seq<ItemStack>, v: ListView, rest: seq<Line>)
    requires |items| == |v.items|
    ensures ReadList(items, WriteList(v) + rest) == Ok(ListRead(NormalView(v).items, v.width, rest))
  {
    var lines := WriteList(v) + rest;
    assert lines[0] == WidthLine(v.width);
    assert lines[1..] == SlotLines(v.items)[0..] + [EndListLine] + rest;
    SlotsRoundTrip(items, v.items, 0, v.width, rest);
  }

  // ---------------------------------------------------------------------------
  // Agreement
  // ---------------------------------------------------------------------------

  ghost predicate DistinctNames(views: seq<ListView>) {
    forall i, j :: 0 <= i < j < |views| ==> views[i].name != views[j].name
  }

  /** Lists of one name are the same as far as they travel; in particular, names may be distinct. */
  ghost predicate SameIfNamed(views: seq<ListView>) {
    forall i, j :: 0 <= i < |views| && 0 <= j < |views| && views[i].name == views[j].name ==>
      NormalView(views[i]) == NormalView(views[j])
  }

  lemma DistinctAreSame(views: seq<ListView>)
    requires DistinctNames(views)
    ensures SameIfNamed(views)
  {
    forall i, j | 0 <= i < |views| && 0 <= j < |views| && views[i].name == views[j].name
      ensures i == j
    {
      IndexOfDistinct(views, i);
      IndexOfDistinct(views, j);
    }
  }

  function Views(lists: seq<Tracked>): (views: seq<ListView>)
    ensures |views| == |lists| && forall i :: 0 <= i < |lists| ==> views[i] == lists[i].view
  {
    seq(|lists|, i requires 0 <= i < |lists| => lists[i].view)
  }

  /** The receiver holds a list under the name, and it is the same list. */
  ghost predicate HoldsList(lists: seq<ListView>, v: ListView) {
    var i := IndexOf(lists, v.name);
    i < |lists| && NormalView(lists[i]) == NormalView(v)
  }

  /** Every clean list of the sender is still known to the receiver. */
  ghost predicate InStep(sender: seq<Tracked>, receiver: seq<ListView>) {
    forall i :: 0 <= i < |sender| && !sender[i].dirty ==> HoldsList(receiver, sender[i].view)
  }

  ghost predicate NamedIn(views: seq<ListView>, name: string) {
    exists i :: 0 <= i < |views| && views[i].name == name
  }

  /** The same lists by name, with the same sizes, widths and items, in whatever order. */
  ghost predicate Agree(sender: seq<ListView>, receiver: seq<ListView>) {
    && DistinctNames(receiver)
    && (forall i :: 0 <= i < |sender| ==> HoldsList(receiver, sender[i]))
    && (forall j :: 0 <= j < |receiver| ==> NamedIn(sender, receiver[j].name))
  }

  lemma {:induction false} IndexOfUpdate(lists: seq<ListView>, i: nat, v: ListView, name: string)
    requires i < |lists| && lists[i].name == v.name
    ensures IndexOf(lists[i := v], name) == IndexOf(lists, name)
  {
    if lists[0].name != name && i > 0 {
      assert lists[i := v][1..] == lists[1..][i - 1 := v];
      IndexOfUpdate(lists[1..], i - 1, v, name);
    } else if lists[0].name != name {
      assert lists[i := v][1..] == lists[1..];
    }
  }

  lemma {:induction false} IndexOfAppend(lists: seq<ListView>, v: ListView, name: string)
    ensures IndexOf(lists + [v], name) ==
            if IndexOf(lists, name) < |lists| then IndexOf(lists, name)
            else if v.name == name then |lists| else |lists| + 1
  {
    if lists != [] {
      assert (lists + [v])[1..] == lists[1..] + [v];
      IndexOfAppend(lists[1..], v, name);
    }
  }

  /** In a list of distinct names, the first of a name is the one. */
  lemma {:induction false} IndexOfDistinct(lists: seq<ListView>, i: nat)
    requires DistinctNames(lists) && i < |lists|
    ensures IndexOf(lists, lists[i].name) == i
  {
    if i > 0 {
      IndexOfDistinct(lists[1..], i - 1);
    }
  }

  ghost predicate NamesApart(lists: seq<ListView>, sent: set<nat>) {
    forall x: nat, y: nat :: x in sent && y in sent && x < y < |lists| ==> lists[x].name != lists[y].name
  }

  ghost predicate FromSent(lists: seq<ListView>, sent: set<nat>, n: nat, v: ListView) {
    exists x: nat :: x in sent && x < n <= |lists| && lists[x] == v
  }

  lemma {:induction false} KeepOnlyIs(lists: seq<ListView>, sent: set<nat>, n: nat)
    requires n <= |lists| && NamesApart(lists, sent)
    ensures var r := KeepOnly(lists, sent, n);
            && (forall j :: 0 <= j < |r| ==> FromSent(lists, sent, n, r[j]))
            && (forall x: nat :: x in sent && x < n ==> lists[x] in r)
            && DistinctNames(r)
  {
    if n > 0 {
      KeepOnlyIs(lists, sent, n - 1);
      var r := KeepOnly(lists, sent, n - 1);
      forall j | 0 <= j < |r|
        ensures FromSent(lists, sent, n, r[j])
        ensures n - 1 in sent ==> r[j].name != lists[n - 1].name
      {
        assert FromSent(lists, sent, n - 1, r[j]);
        var x: nat :| x in sent && x < n - 1 && lists[x] == r[j];
      }
    }
  }

  /** After `k` lists of the sender have been read. */
  ghost predicate Reading(sender: seq<Tracked>, k: nat, incremental: bool, lists: seq<ListView>, sent: set<nat>) {
    && k <= |sender| && SameIfNamed(Views(sender))
    && (forall i :: 0 <= i < k ==> HoldsList(lists, sender[i].view) && IndexOf(lists, sender[i].view.name) in sent)
    && (forall i :: k <= i < |sender| && incremental && !sender[i].dirty ==> HoldsList(lists, sender[i].view))
    && (forall x :: x in sent ==> SentBy(sender, k, lists, x))
  }

  /** Position `x` of the receiver holds one of the first `k` lists of the sender. */
  ghost predicate SentBy(sender: seq<Tracked>, k: nat, lists: seq<ListView>, x: nat) {
    exists i :: 0 <= i < k <= |sender| && x == IndexOf(lists, sender[i].view.name)
  }

  /** What reading one full list does to the receiver. */
  function Receive(lists: seq<ListView>, v: ListView): seq<ListView> {
    var i := IndexOf(lists, v.name);
    if i < |lists| then lists[i := v] else lists + [v]
  }

  lemma {:induction false} ReceiveKeepsOthers(lists: seq<ListView>, v: ListView, w: ListView)
    requires v.name != w.name
    ensures HoldsList(lists, w) ==> HoldsList(Receive(lists, v), w)
    ensures HoldsList(lists, w) ==> IndexOf(Receive(lists, v), w.name) == IndexOf(lists, w.name)
  {
    var i := IndexOf(lists, v.name);
    if i < |lists| {
      IndexOfUpdate(lists, i, v, w.name);
    } else {
      IndexOfAppend(lists, v, w.name);
    }
  }

  lemma {:induction false} ReceiveHolds(lists: seq<ListView>, v: ListView)
    ensures HoldsList(Receive(lists, NormalView(v)), v)
    ensures IndexOf(Receive(lists, NormalView(v)), v.name) == IndexOf(lists, v.name)
  {
    var n := NormalView(v);
    var i := IndexOf(lists, v.name);
    if i < |lists| {
      IndexOfUpdate(lists, i, n, v.name);
    } else {
      IndexOfAppend(lists, n, v.name);
    }
    assert NormalItems(n.items) == n.items;
  }

  lemma {:induction false} ReadingFull(sender: seq<Tracked>, k: nat, incremental: bool, lists: seq<ListView>,
                                       sent: set<nat>)
    requires Reading(sender, k, incremental, lists, sent) && k < |sender|
    ensures var v := sender[k].view;
            Reading(sender, k + 1, incremental, Receive(lists, NormalView(v)), sent + {IndexOf(lists, v.name)})
  {
    var v := sender[k].view;
    var lists' := Receive(lists, NormalView(v));
    ReceiveHolds(lists, v);
    forall i | 0 <= i < |sender| && i != k
      ensures StillHolds(lists, lists', sender[i].view)
    {
      if sender[i].view.name == v.name {
        assert Views(sender)[i].name == Views(sender)[k].name;
      } else {
        ReceiveKeepsOthers(lists, NormalView(v), sender[i].view);
      }
    }
    forall x | x in sent + {IndexOf(lists, v.name)}
      ensures SentBy(sender, k + 1, lists', x)
    {
      if x != IndexOf(lists, v.name) {
        assert SentBy(sender, k, lists, x);
        var i :| 0 <= i < k && x == IndexOf(lists, sender[i].view.name);
        assert StillHolds(lists, lists', sender[i].view);
      }
    }
  }

  ghost predicate StillHolds(lists: seq<ListView>, lists': seq<ListView>, v: ListView) {
    HoldsList(lists, v) ==> HoldsList(lists', v) && IndexOf(lists', v.name) == IndexOf(lists, v.name)
  }

  lemma {:induction false} ReadingKeep(sender: seq<Tracked>, k: nat, lists: seq<ListView>, sent: set<nat>)
    requires Reading(sender, k, true, lists, sent) && k < |sender| && !sender[k].dirty
    ensures Reading(sender, k + 1, true, lists, sent + {IndexOf(lists, sender[k].view.name)})
    ensures IndexOf(lists, sender[k].view.name) < |lists|
  {
    var sent' := sent + {IndexOf(lists, sender[k].view.name)};
    forall x | x in sent'
      ensures SentBy(sender, k + 1, lists, x)
    {
      if x != IndexOf(lists, sender[k].view.name) {
        assert SentBy(sender, k, lists, x);
        var i :| 0 <= i < k && x == IndexOf(lists, sender[i].view.name);
      }
    }
  }

  lemma {:induction false} SentApart(sender: seq<Tracked>, incremental: bool, lists: seq<ListView>, sent: set<nat>)
    requires Reading(sender, |sender|, incremental, lists, sent)
    ensures NamesApart(lists, sent)
  {
    forall x: nat, y: nat | x in sent && y in sent && x < y < |lists|
      ensures lists[x].name != lists[y].name
    {
      assert SentBy(sender, |sender|, lists, x) && SentBy(sender, |sender|, lists, y);
      var i :| 0 <= i < |sender| && x == IndexOf(lists, sender[i].view.name);
      var j :| 0 <= j < |sender| && y == IndexOf(lists, sender[j].view.name);
    }
  }

  lemma {:induction false} KeptHolds(lists: seq<ListView>, sent: set<nat>, v: ListView)
    requires NamesApart(lists, sent) && HoldsList(lists, v) && IndexOf(lists, v.name) in sent
    ensures HoldsList(KeepOnly(lists, sent, |lists|), v)
  {
    var r := KeepOnly(lists, sent, |lists|);
    KeepOnlyIs(lists, sent, |lists|);
    var x := IndexOf(lists, v.name);
    assert lists[x] in r;
    var j :| 0 <= j < |r| && r[j] == lists[x];
    IndexOfDistinct(r, j);
  }

  lemma {:induction false} KeptWasSent(sender: seq<Tracked>, incremental: bool, lists: seq<ListView>, sent: set<nat>,
                                       v: ListView)
    requires Reading(sender, |sender|, incremental, lists, sent) && FromSent(lists, sent, |lists|, v)
    ensures NamedIn(Views(sender), v.name)
  {
    var x: nat :| x in sent && x < |lists| && lists[x] == v;
    assert SentBy(sender, |sender|, lists, x);
    var i :| 0 <= i < |sender| && x == IndexOf(lists, sender[i].view.name);
    assert Views(sender)[i].name == v.name;
  }

  lemma {:induction false} ReadingEnds(sender: seq<Tracked>, incremental: bool, lists: seq<ListView>, sent: set<nat>)
    requires Reading(sender, |sender|, incremental, lists, sent)
    ensures Agree(Views(sender), KeepOnly(lists, sent, |lists|))
  {
    var r := KeepOnly(lists, sent, |lists|);
    SentApart(sender, incremental, lists, sent);
    KeepOnlyIs(lists, sent, |lists|);
    forall i | 0 <= i < |sender|
      ensures HoldsList(r, Views(sender)[i])
    {
      KeptHolds(lists, sent, sender[i].view);
    }
    forall j | 0 <= j < |r|
      ensures NamedIn(Views(sender), r[j].name)
    {
      KeptWasSent(sender, incremental, lists, sent, r[j]);
    }
  }

  lemma {:induction false} ReadFullEntry(lists: seq<ListView>, sent: set<nat>, v: ListView, more: seq<Line>)
    requires Writable(v)
    ensures ReadLists(lists, sent, [ListLine(v.name, |v.items|)] + WriteList(v) + more) ==
            ReadLists(Receive(lists, NormalView(v)), sent + {IndexOf(lists, v.name)}, more)
  {
    var lines := [ListLine(v.name, |v.items|)] + WriteList(v) + more;
    assert lines[1..] == WriteList(v) + more;
    var i := IndexOf(lists, v.name);
    ListRoundTrip(if i < |lists| then Resize(lists[i].items, |v.items|) else Resize([], |v.items|), v, more);
  }

  lemma {:induction false} ReadKeepEntry(lists: seq<ListView>, sent: set<nat>, name: string, more: seq<Line>)
    requires IndexOf(lists, name) < |lists|
    ensures ReadLists(lists, sent, [KeepListLine(name)] + more) == ReadLists(lists, sent + {IndexOf(lists, name)}, more)
  {
    assert ([KeepListLine(name)] + more)[1..] == more;
  }

  lemma WriteListsHead(sender: seq<Tracked>, k: nat, incremental: bool)
    requires k < |sender| && forall i :: 0 <= i < |sender| ==> Writable(sender[i].view)
    ensures WriteLists(sender[k..], incremental) ==
            WriteEntry(sender[k], incremental) + WriteLists(sender[k + 1..], incremental)
  {
    assert sender[k..][1..] == sender[k + 1..];
  }

  /** Reading one entry leads to the same result as reading what follows it. */
  lemma ReadsEntry(sender: seq<Tracked>, k: nat, incremental: bool, lists: seq<ListView>, sent: set<nat>,
                   more: seq<Line>) returns (lists': seq<ListView>, sent': set<nat>)
    requires k < |sender| && Writable(sender[k].view) && Reading(sender, k, incremental, lists, sent)
    ensures Reading(sender, k + 1, incremental, lists', sent')
    ensures ReadLists(lists, sent, WriteEntry(sender[k], incremental) + more) == ReadLists(lists', sent', more)
  {
    var v := sender[k].view;
    sent' := sent + {IndexOf(lists, v.name)};
    if !incremental || sender[k].dirty {
      lists' := Receive(lists, NormalView(v));
      ReadFullEntry(lists, sent, v, more);
      ReadingFull(sender, k, incremental, lists, sent);
    } else {
      lists' := lists;
      ReadingKeep(sender, k, lists, sent);
      ReadKeepEntry(lists, sent, v.name, more);
    }
  }

  lemma {:induction false} ReadsBack(sender: seq<Tracked>, k: nat, incremental: bool, lists: seq<ListView>,
                                     sent: set<nat>)
    requires forall i :: 0 <= i < |sender| ==> Writable(sender[i].view)
    requires Reading(sender, k, incremental, lists, sent)
    ensures ReadLists(lists, sent, WriteLists(sender[k..], incremental)).Ok?
    ensures Agree(Views(sender), ReadLists(lists, sent, WriteLists(sender[k..], incremental)).value)
    decreases |sender| - k
  {
    if k == |sender| {
      ReadingEnds(sender, incremental, lists, sent);
    } else {
      WriteListsHead(sender, k, incremental);
      var lists', sent' := ReadsEntry(sender, k, incremental, lists, sent, WriteLists(sender[k + 1..], incremental));
      ReadsBack(sender, k + 1, incremental, lists', sent');
    }
  }

  // ---------------------------------------------------------------------------
  // Main results
  // ---------------------------------------------------------------------------

  /** No receiver agrees with a sender whose lists of one name differ: the first list of the name receives them all. */
  lemma AgreeOnlyIfSame(sender: seq<ListView>, receiver: seq<ListView>)
    requires Agree(sender, receiver)
    ensures SameIfNamed(sender)
  {
    forall i, j | 0 <= i < |sender| && 0 <= j < |sender| && sender[i].name == sender[j].name
      ensures NormalView(sender[i]) == NormalView(sender[j])
    {
      assert HoldsList(receiver, sender[i]) && HoldsList(receiver, sender[j]);
    }
  }

  /** A full copy makes any receiver agree, exactly if lists of one name are the same. */
  lemma {:induction false} FullSyncAgrees(sender: seq<Tracked>, receiver: seq<ListView>)
    requires forall i :: 0 <= i < |sender| ==> Writable(sender[i].view)
    ensures var r := Read(receiver, WriteLists(sender, false));
            r.Ok? && Agree(Views(sender), r.value) <==> SameIfNamed(Views(sender))
  {
    var r := Read(receiver, WriteLists(sender, false));
    if SameIfNamed(Views(sender)) {
      assert sender[0..] == sender;
      assert Reading(sender, 0, false, receiver, {});
      ReadsBack(sender, 0, false, receiver, {});
    }
    if r.Ok? && Agree(Views(sender), r.value) {
      AgreeOnlyIfSame(Views(sender), r.value);
    }
  }

  /** An incremental copy makes a receiver agree that is in step with the clean lists, under the same condition. */
  lemma {:induction false} IncrementalSyncAgrees(sender: seq<Tracked>, receiver: seq<ListView>)
    requires InStep(sender, receiver) && forall i :: 0 <= i < |sender| ==> Writable(sender[i].view)
    ensures var r := Read(receiver, WriteLists(sender, true));
            r.Ok? && Agree(Views(sender), r.value) <==> SameIfNamed(Views(sender))
  {
    var r := Read(receiver, WriteLists(sender, true));
    if SameIfNamed(Views(sender)) {
      assert sender[0..] == sender;
      assert Reading(sender, 0, true, receiver, {});
      ReadsBack(sender, 0, true, receiver, {});
    }
    if r.Ok? && Agree(Views(sender), r.value) {
      AgreeOnlyIfSame(Views(sender), r.value);
    }
  }

  /** One change to the sender between two copies; every mutator of a list marks the list it changes. */
  datatype Step =
    | Change(i: nat, view: ListView)
    | Add(view: ListView)
    | Delete(i: nat)

  function Apply(sender: seq<Tracked>, step: Step): seq<Tracked> {
    match step
    case Change(i, view) => if i < |sender| then sender[i := Tracked(view, true)] else sender
    case Add(view) => sender + [Tracked(view, true)]
    case Delete(i) => if i < |sender| then sender[..i] + sender[i + 1..] else sender
  }

  function Run(sender: seq<Tracked>, steps: seq<Step>): seq<Tracked>
    decreases |steps|
  {
    if steps == [] then sender else Run(Apply(sender, steps[0]), steps[1..])
  }

  lemma {:induction false} StepKeepsInStep(sender: seq<Tracked>, receiver: seq<ListView>, step: Step)
    requires InStep(sender, receiver)
    ensures InStep(Apply(sender, step), receiver)
  {
  }

  lemma {:induction false} RunKeepsInStep(sender: seq<Tracked>, receiver: seq<ListView>, steps: seq<Step>)
    requires InStep(sender, receiver)
    ensures InStep(Run(sender, steps), receiver)
    decreases |steps|
  {
    if steps != [] {
      StepKeepsInStep(sender, receiver, steps[0]);
      RunKeepsInStep(Apply(sender, steps[0]), receiver, steps[1..]);
    }
  }

  /**
    Incremental copying is exact over whole runs: a receiver that agreed at the
    last copy agrees again after any changes and one incremental copy, exactly
    if the sender's lists of one name are then the same.
   */
  lemma {:induction false} SyncAfterRun(sender: seq<Tracked>, receiver: seq<ListView>, steps: seq<Step>)
    requires Agree(Views(sender), receiver)
    requires forall i :: 0 <= i < |Run(sender, steps)| ==> Writable(Run(sender, steps)[i].view)
    ensures var now := Run(sender, steps);
            var r := Read(receiver, WriteLists(now, true));
            r.Ok? && Agree(Views(now), r.value) <==> SameIfNamed(Views(now))
  {
    forall i | 0 <= i < |sender|
      ensures HoldsList(receiver, sender[i].view)
    {
      assert HoldsList(receiver, Views(sender)[i]);
    }
    RunKeepsInStep(sender, receiver, steps);
    IncrementalSyncAgrees(Run(sender, steps), receiver);
  }
}
