# Verification of the engine's algorithmic core

A Dafny 4.11 model of the parts of the engine in which a wrong branch or an
off-by-one error is hardest to see: the crafting system with its matching
algorithm, the compiler for gettext plural formulas, inventories with their
move actions and their incremental network format, the emerge queue, node
timers, the node data of map blocks on disk, the chat window, path strings,
fractal noise maps, and the unloading of map blocks.
`dafny verify dfyconfig.toml` checks everything.

One module stands for one component, in the form the program gives it: objects
with fields that methods update are classes, algorithms on arrays keep their
arrays and loops, the parser stays recursive. Every method is proved against a
specification that is stated apart from it, and the main results are about that
specification. Where a method and its specification compute with the same
function, further lemmas say what that function means without it. Integer widths are subset types (`Numbers.u8`, `u16`, `u32`), so
that assignments also prove that nothing wraps around; where the program relies
on wrap-around it is written out.

| module | component |
|---|---|
| `HopcroftKarp`, `Shapeless` | bipartite matching and shapeless recipes |
| `Grid`, `GridCount`, `Shaped`, `ShapedMeaning` | shaped recipes on trimmed grids, and laid over the input |
| `Names`, `Permutations`, `Items`, `Recipes` | sorting, item names and groups, recipes and their hashes |
| `Filing`, `Scan`, `CraftManager`, `CraftRanks` | the hash-indexed search for a recipe, and which kinds of recipe win over which |
| `PluralForm`, `PluralMeaning`, `PluralGrammar`, `PluralRest`, `PluralShape` | the plural formula compiler, what the operators and numbers mean, the grammar it implements, and what it makes of any other text |
| `Stacks`, `StackLists`, `StackSlots`, `InventoryLists` | item stacks, the operations of an inventory list, and what they do slot by slot |
| `MovePlan`, `MoveActions`, `MoveCounts`, `MoveOrder`, `MoveRequests`, `MoveWithin` | the inventory move action, to a slot or somewhere in a list |
| `SyncFormat`, `SlotReading`, `Inventories`, `InventorySync` | writing and reading inventories, in full or by what has changed |
| `Emerge`, `EmergeManagers` | the emerge queue as a state machine, and the object that implements it |
| `NodeTimers` | the timers of a block |
| `NodeBulk`, `NodeIds`, `MapBlocks` | the node data of a block: storage, name-id mapping, loading |
| `ChatLayout`, `ChatWrapping`, `ChatBuffers` | line breaking, where lines begin and end, and the scrolling chat buffer |
| `Paths` | removing relative components, and the prefix test |
| `NoiseField`, `NoiseMeaning`, `NoiseLattice`, `NoiseMaps`, `NoiseSums`, `NoiseBuffers`, `Noises` | pointwise noise, what it is between the corners of a cell, and the noise maps that must equal it |
| `MapUnloading` | aging, saving and unloading blocks |

`Numbers`, `Options` and `Positions` hold the shared types.

## Model

| member | source | states |
|---|---|---|
| HopcroftKarp.CanMatchAll | src/craftdef.cpp:494-592 | Returns true exactly if every left node can be given a neighbour of its own, and false exactly if some set of left nodes has fewer neighbours than members; it terminates, and no 16-bit value wraps. |
| HopcroftKarp.Bfs | src/craftdef.cpp:511-543 | Leaves the shortest alternating distances of a search from the free nodes, or, if the dummy node is out of reach, a set of nodes closed under them. |
| HopcroftKarp.Dfs | src/craftdef.cpp:545-570 | A successful walk matches one more node, keeps the matching consistent and touches only deeper layers; a failed walk changes no pair, strikes out its start and strikes out only nodes from which no walk gets on. |
| HopcroftKarp.ViolatorExcludesMatching | src/craftdef.cpp:494-592 | On any graph: where a Hall violator exists there is no perfect matching; the other half of Hall's theorem is in the contract of `HopcroftKarp.CanMatchAll`. |
| HopcroftKarp.FruitlessPhase | src/craftdef.cpp:578-592 | If no walk of a phase succeeds, the layering never reached the dummy, so the outer loop cannot spin without progress. |
| HopcroftKarp.ExhaustedGivesHallViolator | src/craftdef.cpp:578-592 | An exhausted search with a free node exhibits a set of nodes with too few neighbours. |
| Shapeless.Check | src/craftdef.cpp:594-669 | True exactly if the items can be assigned to the slots one to one, each slot accepting its item; the cancelling of exact names before matching loses nothing. |
| Shapeless.PrefilterIsExact | src/craftdef.cpp:625-643 | Cancelling equal exact names and matching only the rest against the group slots decides the same question as matching everything. |
| Shapeless.OrderIndependent | src/craftdef.cpp:594-669 | The answer does not depend on the order of the items or of the slots. |
| Shapeless.GraphMatchingIsAssignment | src/craftdef.cpp:654-668 | A perfect matching of the graph that is built is an assignment of items to slots, and the other way round. |
| Grid.GetBounds | src/craftdef.cpp:143-174 | Finds the least box around the occupied cells, or that there are none. |
| Grid.PadRows | src/craftdef.cpp:359-360 | Padding to full rows changes no cell of the plane. |
| Shaped.Check | src/craftdef.cpp:351-415 | True exactly if both grids, each cut to the box around its items, have the same size and agree cell by cell. |
| Shaped.PositionIndependent | src/craftdef.cpp:351-415 | Moving the items about in the grid, or changing its width, never changes the answer. |
| ShapedMeaning.MatchIsOverlay | src/craftdef.cpp:351-415 | With the hand in no group: a shaped recipe matches exactly if the input is not blank and the recipe can be laid over it so that every cell fits; no bounding box is mentioned. |
| Items.ItemMatchesRecipe | src/craftdef.cpp:69-95 | True exactly if the names are equal or the item is known and has a nonzero rating in every group of the comma-separated list. |
| Items.GroupSlotMatches | src/craftdef.cpp:69-95 | A slot written as `group:` and names with commas between them accepts an item exactly if it is written the same, or is known and rated other than 0 in every one of those groups. |
| Names.SetDifference | src/craftdef.cpp:633-639 | The merge walk over sorted names yields exactly the multiset difference. |
| Recipes.AppliesImpliesHash | src/craftdef.cpp:40-66 | A recipe that applies has the hash of the input in its own layer, if the hand is in no group: the index hides no recipe that would match. |
| Recipes.EmptyUngroupedIsExact | src/craftdef.cpp:40-95 | Matching shaped grids always hold equally many items exactly if no group slot accepts the empty name. |
| Recipes.HandHidesRecipe | src/craftdef.cpp:40-95 | If the hand is in a group, the shaped recipe of an item, that group and the item again applies to the two items with an empty cell between them, and its hash is another than that of the input. |
| Recipes.NothingHiddenIff | src/craftdef.cpp:40-95 | Where every group string is denoted by some slot string: each recipe that applies to an input has its hash, exactly if the hand is in no group. |
| CraftManager.EveryCraftIsCandidate | src/craftdef.cpp:1041-1103 | If no group slot accepts the empty name, the search sees a definition exactly if it crafts from the input. |
| CraftManager.LayeredAgreesWithLinear | src/craftdef.cpp:1041-1103 | The hashed search and a scan of all definitions pick equal priorities, and the same definition exactly if both picks lie in one layer. |
| CraftManager.LayeredIsLinear | src/craftdef.cpp:1041-1103 | Where priorities tell layers apart, the hashed search picks exactly what a scan of all definitions picks. |
| CraftManager.PriorityFitsUnlessGroupFuel | src/craftdef.cpp:884-1012 | The priority of a definition tells its layer exactly if it is not a fuel given by a group. |
| CraftManager.LinearWinsUnlessEarlierLayer | src/craftdef.cpp:1041-1103 | The hashed search picks the winner of the scan exactly if no rival of equal priority lies in an earlier layer, however many definitions are hashed. |
| CraftManager.LayeredMissesOnlyGroupFuels | src/craftdef.cpp:1041-1103 | With all definitions hashed, the hashed search misses the winner of the scan exactly if that winner burns a group and some fuel burns the same input by name. |
| CraftManager.GroupFuelLosesTie | src/craftdef.cpp:926-936 | A concrete pair of fuels for which the search and the scan differ. |
| CraftManager.CraftDefinition.Check | src/craftdef.cpp:351-415 | Hashed or not, a definition of any kind accepts exactly the inputs its recipe applies to. |
| CraftManager.CraftDefManager.RegisterCraft | src/craftdef.cpp:1199-1209 | Appends the definition to the registered ones and keeps every bucket exactly the definitions filed under its key, in order. |
| CraftManager.CraftDefManager.InitHashes | src/craftdef.cpp:1223-1238 | Moves every waiting definition to the layer and hash of its own, keeps the registered list and its order, and keeps the buckets exact. |
| CraftManager.CraftDefManager.GetCraftResult | src/craftdef.cpp:1041-1103 | Finds the winner among the definitions the search can see, and nothing only if there is none; which definition wins is said by `CraftRanks.WinnerIs` and `CraftRanks.KindsInOrder`. |
| CraftRanks.WinnerIs | src/craftdef.cpp:1041-1103 | Said of the recipes themselves, without priorities: the winner is the candidate that no other outranks by its kind, of equals one found under exact names before one found by number and those not yet hashed, and then the last registered. |
| CraftRanks.KindsInOrder | src/craftdef.h:118-133 | If a candidate is shaped without groups, so is the winner; failing that, the same in turn for shaped with groups, for unshaped by name and by group; a tool repair wins only if nothing else is a candidate. |
| CraftRanks.AppliesIs | src/craftdef.cpp:351-960 | Exactly when each kind of definition applies: the method, and for shaped and shapeless ones matching grids and a one-to-one assignment with at most thirty thousand group slots, for a repair two tools that merge, for cooking and burning one item alone that the slot accepts. |
| CraftRanks.CraftNeeds | src/craftdef.cpp:840-960 | Cooking and fuel recipes answer to their own method only, and all others to the normal one only. |
| CraftRanks.CraftGives | src/craftdef.cpp:866-972 | What is crafted: the output of the recipe, nothing for a fuel, and a time only for what is cooked or burnt; the item is known. |
| CraftRanks.SingleIs | src/craftdef.cpp:840-864 | Cooking and burning take an input with exactly one occupied place, whose item the slot accepts. |
| CraftRanks.RepairIs | src/craftdef.cpp:727-754 | Two tools merge exactly if they are single, of one repairable kind, and some use would be left; the merged tool has the uses of both less the added wear, but no more than a new tool, and is else the first. |
| CraftRanks.RepairTakesTwo | src/craftdef.cpp:761-796 | A repair takes an input with exactly two occupied places and gives the string of what they merge into. |
| PluralForm.ParseLtrLoop | src/gettext_plural_form.cpp:77-91 | The reducing loop yields the left-associative fold of the recursive parser. |
| PluralMeaning.ApplyMeans | src/gettext_plural_form.cpp:128-175 | Each operator means what it should, as a relation that has just one result: comparisons and logic give 1 exactly where the stated relation holds and else 0, sums, differences and products are congruent modulo 2 to the 64, quotient and rest satisfy the division law, and are 0 for a divisor of 0. |
| PluralMeaning.DecimalIsPlaceValue | src/gettext_plural_form.cpp:93-104 | Reading a numeral digit by digit gives the sum of its digits times their powers of ten. |
| PluralMeaning.SignedNumeral | src/gettext_plural_form.cpp:100-103 | A numeral may have a sign: a minus wraps the number around, unless it is too large, and then it is the largest. |
| PluralMeaning.NoNumeral | src/gettext_plural_form.cpp:100-103 | Where no digit follows, with or without a sign, nothing is read and the value is 0. |
| PluralGrammar.ParseIsCorrect | src/gettext_plural_form.cpp:93-206 | Every formula of the C grammar, with any blanks between its tokens, parses completely, and the compiled function computes the value of its syntax tree for every number, where operators and numerals have the values of `PluralMeaning`. |
| PluralGrammar.PrintParses | src/gettext_plural_form.cpp:195-206 | Any expression can be written so that parsing it gives its value back. |
| PluralGrammar.TextDeterminesMeaning | src/gettext_plural_form.cpp:195-206 | The grammar is unambiguous in meaning: two trees with one text have one value. |
| PluralGrammar.MissingAlternative | src/gettext_plural_form.cpp:178-193 | A conditional without its last part is accepted; calling it raises exactly if its condition is false. |
| PluralShape.TernaryCompiles | src/gettext_plural_form.cpp:93-193 | For every text, the function compiled is that of the tree the text is read as, pieces that are missing included, with the same rest. |
| PluralShape.AcceptedRaisesIff | src/gettext_plural_form.cpp:93-206 | Every text: it is accepted exactly if its tree is there and uses it up, and then calling the function raises exactly for the numbers for which evaluating the tree comes to a missing piece, and else gives the value of the tree. |
| PluralShape.CompleteNeverRaises | src/gettext_plural_form.cpp:93-206 | A function compiled from a text whose tree lacks no piece never raises. |
| PluralShape.MissingMiddle | src/gettext_plural_form.cpp:106-193 | A conditional whose middle part is an unclosed parenthesis is accepted; calling it raises exactly if its condition is true. |
| PluralRest.TernaryRest | src/gettext_plural_form.cpp:178-206 | What the parser leaves unread of a trimmed formula is the end of the formula. |
| Stacks.AddToConserves | src/inventory.cpp:373-408 | Merging two stacks keeps the number of items of every kind. |
| StackLists.RoomIffNothingLeft | src/inventory.cpp:735-746 | There is room exactly if adding would leave nothing over, except for an empty stack and a list without slots. |
| StackLists.LeftoverIs | src/inventory.cpp:672-709 | What adding leaves over is nothing if some slot is empty, and else exactly as many as exceed the free space of the occupied slots. |
| StackLists.AddAllConserves | src/inventory.cpp:672-709 | Adding to a list keeps the number of items of every kind, counting the leftover. |
| StackLists.RemoveTakesMin | src/inventory.cpp:767-785 | Removing takes exactly the lesser of what is asked and what is there. |
| StackLists.RemoveKeepsOthers | src/inventory.cpp:767-785 | Removing touches no stack of another kind. |
| StackLists.ContainsIffEnough | src/inventory.cpp:748-765 | The backward countdown succeeds exactly if the list holds at least the requested number. |
| StackLists.MoveConserves | src/inventory.cpp:821-862 | Moving between two slots, with merging, returning and swapping, keeps the number of items of every kind. |
| StackSlots.AddedAt | src/inventory.cpp:672-733 | Slot by slot: an occupied slot gains what it has space for, of what the occupied ones before it leave; what all of them leave goes to the first empty slot. |
| StackSlots.RemovedFromTheEnd | src/inventory.cpp:767-785 | Each slot keeps its stack or a part of it, and one is touched only if all later ones of the kind are used up. |
| StackSlots.MoveIs | src/inventory.cpp:821-862 | What both slots hold and what was moved: as many as are asked for and fit; if nothing fits, the stacks stay, or change places if that is wanted. |
| InventoryLists.MoveItemConserves | src/inventory.cpp:821-862 | The same for the totals of the lists: one list or two, slots present or missing. |
| InventoryLists.SomewhereConserves | src/inventory.cpp:798-819 | Moving to wherever there is room keeps the totals, also when source and destination are one list. |
| InventoryLists.SomewhereIs | src/inventory.cpp:798-819 | The lists after moving somewhere: what is asked for, or all there is, leaves its slot and is added to the destination, what does not fit goes back onto the slot, and no other slot of the source changes; an empty or missing slot does nothing. |
| InventoryLists.SomewhereFits | src/inventory.cpp:798-819 | The leftover always fits back onto the source stack, which is still of its kind. |
| InventoryLists.InventoryList.AddItem | src/inventory.cpp:672-709 | The new slots and the leftover are those of filling occupied slots first and then empty ones; the list is marked exactly if something was stored. |
| InventoryLists.InventoryList.RemoveItem | src/inventory.cpp:767-785 | Takes from the last slot backwards; returns the right number; the list is marked if it changed. |
| InventoryLists.InventoryList.RoomForItem | src/inventory.cpp:735-746 | True exactly if adding the stack would leave nothing over, but for an empty stack and no slots. |
| InventoryLists.InventoryList.ContainsItem | src/inventory.cpp:748-765 | True exactly if the slots of the kind hold at least the number asked. |
| InventoryLists.InventoryList.MoveItem | src/inventory.cpp:821-862 | Both lists, or the one list, after a move; a move of a slot onto itself does nothing; both are marked where they changed. |
| InventoryLists.InventoryList.MoveItemSomewhere | src/inventory.cpp:798-819 | Both lists, or the one list, after moving somewhere; both are marked where they changed. |
| InventoryLists.InventoryList.DeSerialize | src/inventory.cpp:557-611 | The slots and the width read from the lines of one list, kept and empty slots included, or the error. |
| MovePlan.PlannedMove | src/inventorymanager.cpp:353-475 | A planned move either swaps, when nothing could be added, or moves exactly the planned number with nothing left over. |
| MovePlan.PlainAmount | src/inventorymanager.cpp:353-475 | If something fits, a move to a slot plans the least of what is asked for, what fits, and what either side allows, where inside one inventory one callback answers for both sides; and no swap. |
| MovePlan.PlainSwap | src/inventorymanager.cpp:365-444 | If nothing fits, it plans a swap exactly if the callbacks allow all of both stacks in both directions, and else nothing. |
| MovePlan.FiniteEffect | src/inventorymanager.cpp:470-510 | Without infinite sides the slots end with the planned number fewer and more, or each with what the other had. |
| MovePlan.InfiniteEffect | src/inventorymanager.cpp:479-510 | With one infinite side the other pays or gains as if both were finite; of two that swap, the source ends empty; a stack is displaced exactly by one of another name from an infinite source. |
| MoveOrder.AppliedIs | src/inventorymanager.cpp:325-510 | A finite move on lists: missing, empty or equal slots leave everything as it is, and the count stale; a move that is not allowed reports 0; else both slots exchange the planned number, or swap, and no other slot changes. |
| MoveOrder.SpillIs | src/inventorymanager.cpp:479-500 | A displaced stack goes to the first empty slot, and to none if there is none. |
| MoveOrder.OccupiedFirst | src/inventorymanager.cpp:285-323 | Moving somewhere fills the occupied slots first: until then every empty slot stays as it was, and from then on every other; with nothing left to move the empty ones are not reached. |
| MoveActions.ApplyConserves | src/inventorymanager.cpp:232-616 | Without infinite sides the lists keep the number of items of every kind, whatever the callbacks allow. |
| MoveActions.ApplyKeepsInfiniteSlot | src/inventorymanager.cpp:479-510 | If exactly one side is infinite, its slot ends as it began. |
| MoveActions.ApplyAsserts | src/inventorymanager.cpp:477-477 | The assertion that a swap happens exactly when it was allowed never fails. |
| MoveActions.SomewhereKeepsTotals | src/inventorymanager.cpp:270-323 | Moving somewhere, slot by slot, keeps the number of items of every kind, even where counts are subtracted wrongly. |
| MoveActions.CountAssertion | src/inventorymanager.cpp:288-311 | At each slot, the assertion on the moved count fails exactly if nothing could be applied there and the stale count of the slot before exceeds what remains. |
| MoveActions.SomewhereAsserts | src/inventorymanager.cpp:270-323 | Towards another list, a request for no more than the source holds never fails the assertion. |
| MoveActions.AskingTooMuchTrips | src/inventorymanager.cpp:270-323 | Eight items asked of a stack of five, towards two empty slots, fail the assertion. |
| MoveCounts.SameListAsserts | src/inventorymanager.cpp:270-323 | Within one list, for every list and all callbacks, a request for no more than the source holds fails the assertion exactly if the occupied slots before the source leave something to move and less than the last of them took. |
| MoveCounts.MovingWithinAListTrips | src/inventorymanager.cpp:270-323 | Stacks of 93 and 10 with a maximum of 99: moving the ten somewhere in their own list fails the assertion. |
| MoveRequests.RequestSafeIff | src/inventorymanager.cpp:270-323 | Towards other lists and with finite callbacks, a request never fails the assertion exactly if it asks for no more than there is, or for an excess that every number from one to the whole stack divides. |
| MoveWithin.RequestWithinSafeIff | src/inventorymanager.cpp:270-323 | Within one list and with finite callbacks, whatever number is asked for: a request never fails the assertion, whatever else the list holds, exactly if a condition on the number asked, the number held, the maximum of a stack and the number of slots before the source is met. |
| MoveActions.IMoveAction.ApplyPlain | src/inventorymanager.cpp:325-616 | The lists, the reported count and the outcome of the assertion are those of the specified application, also when an early return leaves the count stale. |
| MoveActions.IMoveAction.ApplySomewhere | src/inventorymanager.cpp:270-323 | Walks the occupied slots and then the empty ones as specified, and restores the request. |
| SyncFormat.FullSyncAgrees | src/inventory.cpp:937-1023 | Reading a full copy makes any receiver agree with the sender, exactly if lists of one name are the same to the format, as they are when names are distinct. |
| SyncFormat.IncrementalSyncAgrees | src/inventory.cpp:937-1023 | Reading the marked lists makes a receiver agree that still knows the others, under the same exact condition. |
| SyncFormat.SyncAfterRun | src/inventory.cpp:937-1023 | A receiver that agreed once agrees again after any run of changes and one incremental copy, exactly if lists of one name are then the same to the format. |
| SyncFormat.AgreeOnlyIfSame | src/inventory.cpp:952-1023 | No receiver at all agrees with a sender whose lists of one name differ. |
| SlotReading.ReadListIs | src/inventory.cpp:557-611 | For all lines: reading a list goes as far as its first end line and fails exactly if a line has content for a slot the list does not have; else every slot holds what its line says, kept ones what they held, those behind the last line nothing, and the width is the last one given or 0. |
| SlotReading.UnendedFails | src/inventory.cpp:601-610 | Without an end line it fails. |
| Inventories.Inventory.Serialize | src/inventory.cpp:937-950 | Writes exactly the lines of the lists, in full or only what is marked. |
| Inventories.Inventory.DeSerialize | src/inventory.cpp:952-1023 | Reads in place what the specified reader reads, keeps the names distinct, and drops lists that were not sent. |
| Inventories.Inventory.AddList | src/inventory.cpp:1025-1049 | Resets the list of that name or appends one, refuses a new name with a space, and keeps the names distinct. |
| Inventories.Inventory.SetHandled | src/inventory.h:323-331 | Nothing counts as modified any more, and no content changes. |
| InventorySync.Perform | src/inventory.cpp:499-862 | Every call on an inventory, from changing a slot to moving between lists, is a run of marked changes of its entries. |
| InventorySync.SendInventory | src/server.cpp:1846-1875 | Sending in full, or only the marked lists to a client in step, leaves both inventories in agreement and nothing marked. |
| InventorySync.Session | src/server.cpp:1846-1875 | After any calls on the server's inventory and one incremental copy, the client's object holds the same lists, and both are ready for the next round. |
| Emerge.AcceptedRunsExactlyOnce | src/emerge.cpp:291-434 | In any run without exceptions, when a block inside the map is neither queued nor worked on, each accepted callback has run exactly as often as it was accepted. |
| Emerge.NeverRunsTwice | src/emerge.cpp:494-527 | In any run, with exceptions, cancelling and several threads, no callback runs more often than it was accepted. |
| Emerge.RunConserves | src/emerge.cpp:291-542 | In every reachable state an accepted callback is queued, in hand, run or lost, once. |
| Emerge.OnlyOutsideIsLost | src/emerge.cpp:671-790 | Without exceptions only callbacks of blocks outside the map are lost. |
| Emerge.RunWithinLimits | src/emerge.cpp:367-391 | Without forced requests the limits on the queue hold in every reachable state, in all and for each peer. |
| Emerge.AcceptsTheWelcome | src/emerge.cpp:367-391 | A request is refused exactly if it is not forced and either the queue is full or as many blocks as its peer may have are already its own: the limit for generating or for loading only by its flag, half of the queue for the server. |
| Emerge.EnqueueIs | src/emerge.cpp:291-411 | A refused request changes no block and no queue; an accepted one for a waiting block adds its flags and its callback to those of the block and moves nothing; any other makes a block of its peer with just its flags and callback, at the end of a shortest queue. |
| Emerge.OutsideIs | src/mapblock.h:590-599 | A block lies outside exactly if, on some axis, it is more than the limit of the map away from the middle. |
| EmergeManagers.EmergeManager.PushBlockEmergeData | src/emerge.cpp:367-411 | Accepts exactly the requests that `Emerge.Welcome` describes by the waiting blocks, refuses the others, and merges or adds what it accepts, with the counts of the peers. |
| EmergeManagers.EmergeManager.PopBlockEmerge | src/emerge.cpp:529-542 | Takes the front of a queue and its data, as specified. |
| EmergeManagers.EmergeManager.GetOptimalThread | src/emerge.cpp:437-455 | The first thread with the shortest queue. |
| NodeTimers.NodeTimerList.Step | src/nodetimer.cpp:112-134 | Against the plain map of timers: exactly the due timers fire, each once, in the order of their trigger times, with their overshoot, and the others age, exactly if no due timer is overlooked by the early return; if one is, all only age. |
| NodeTimers.InsertedBehindEqual | src/nodetimer.h:79-86 | Timers for one moment keep the order in which they were inserted. |
| NodeTimers.NodeTimerList.Set | src/nodetimer.h:88-91 | Exactly the timer of the position is replaced, and the next trigger time stays right unless the new one is due at the reserved time. |
| NodeTimers.NodeTimerList.Get | src/nodetimer.h:52-59 | The elapsed time is reconstructed from the trigger time, or there is no timer. |
| NodeTimers.NodeTimerList.Remove | src/nodetimer.h:61-77 | Exactly the timer of the position is gone, and a next trigger time that was the least one is so again. |
| NodeTimers.NodeTimerList.Insert | src/nodetimer.h:79-86 | Exactly one timer is added at a position that has none; the next trigger time stays the least one exactly if no first timer is due at the reserved time before the new one. |
| NodeTimers.InsertTracksLeast | src/nodetimer.h:79-86 | Inserting keeps the next trigger time the least exactly if no first timer is due at the reserved time before the new one. |
| NodeTimers.StepOverlooks | src/nodetimer.cpp:112-118 | The early return is right exactly if the first timer is not due at the reserved time, or that time has not come. |
| NodeTimers.OverdueIsOverlooked | src/nodetimer.cpp:112-118 | A timer inserted into a new list with one second more than its timeout elapsed is due after any step, and does not fire. |
| NodeBulk.BulkRoundTrip | src/mapnode.cpp:577-664 | Writing nodes to bytes and reading them back is the identity. |
| NodeBulk.BulkLayout | src/mapnode.cpp:577-664 | The layout of the bytes: all contents with the higher byte first, then all first and all second parameters. |
| NodeIds.GetBlockNodeIdMapping | src/mapblock.cpp:336-361 | Renumbers the nodes by the order in which contents are first seen and returns the names under those numbers. |
| NodeIds.FirstSeenInOrder | src/mapblock.cpp:336-361 | A content has a lower number than another exactly if its first node comes before the first node of the other. |
| NodeIds.CorrectBlockNodeIds | src/mapblock.cpp:366-401 | Gives every node the id of its name, succeeding exactly if every local id can be resolved. |
| MapBlocks.BlockSurvivesDisk | src/mapblock.cpp:403-661 | Whatever ids the names have when a block is loaded, each node comes back as itself under the id of its name; loading fails exactly if some name cannot be resolved. |
| MapBlocks.SameIdsSameBlock | src/mapblock.cpp:403-661 | Where the ids have not changed, loading gives back the very same nodes. |
| MapBlocks.SingleIdDecides | src/mapblock.cpp:654-660 | If one id is listed, the loaded block is air exactly if the last name listed for it has the id of air. |
| MapBlocks.DistinctIdsSuffice | src/nameidmapping.h:28-33 | With distinct ids in the list, the air flag is right. |
| MapBlocks.RepeatedIdFakesAir | src/mapblock.cpp:654-660 | A list with a repeated id for which a block without air counts as air. |
| MapBlocks.MapBlock.DeSerializeNodes | src/mapblock.cpp:517-661 | The nodes after loading, the error exactly where it is due, and the exact condition under which the air flag is right. |
| MapBlocks.MapBlock.SerializeNodes | src/mapblock.cpp:403-480 | Leaves the block unchanged and writes it as if it were not compressed to a single node. |
| MapBlocks.MapBlock.TryShrinkNodes | src/mapblock.cpp:268-292 | Compresses exactly the uniform blocks of a server, and no node changes. |
| MapBlocks.MapBlock.SetNode | src/mapblock.h:243-256 | Exactly one node changes, also where one node stands for all. |
| MapBlocks.IndexOrder | src/mapblock.h:243-256 | Nodes lie in lines along x, which make up planes along y, which make up the block along z. |
| MapBlocks.MapBlock.ActuallyUpdateIsAir | src/mapblock.cpp:301-321 | The flag is set exactly if every node is air. |
| ChatLayout.FormatIsFaithful | src/chat.cpp:221-417 | The lines of a message carry exactly its decorated name and its text, stay within the columns, and only the first is marked first; there are none exactly if the window is too narrow for the name. |
| ChatWrapping.LinesHang | src/chat.cpp:248-264 | Every line after the first begins behind the decorated name if that takes no more than half the columns, else at column 2, and at 0 without a name; there are no lines exactly if the window ends before that column, and just the first line is marked first. |
| ChatWrapping.MessageWraps | src/chat.cpp:323-406 | From the end of the name on, each line holds as much of the text as there is room for, cut behind a space if there is more text and a space to cut at, and the lines together hold all of it. |
| ChatBuffers.FormatChatLine | src/chat.cpp:221-417 | The fragment queues of the program produce exactly the specified layout, of which `ChatWrapping.LinesHang` and `ChatWrapping.MessageWraps` say where its lines begin and end. |
| ChatBuffers.ThreeColumnsSuffice | src/chat.cpp:248-264 | From three columns on every clean name is shown. |
| ChatBuffers.NarrowWindowsHideNames | src/chat.cpp:248-264 | In one or two columns a message with a name has no line at all. |
| ChatBuffers.DroppingKeepsInSync | src/chat.cpp:87-107 | Dropping as many groups of lines as messages leaves the lines of the remaining messages exactly if every dropped message had lines, or no remaining one has. |
| ChatBuffers.GroupsAreMessages | src/chat.cpp:94-104 | Dropping groups of lines drops messages that have lines, and no others. |
| ChatBuffers.ChatBuffer.AddLine | src/chat.cpp:39-59 | The oldest messages give way, a view at the bottom stays there, and the exact condition under which the lines stay those of the kept messages. |
| ChatBuffers.ChatBuffer.DeleteOldest | src/chat.cpp:87-119 | Drops the oldest messages and as many groups of lines, keeps the view on its lines or at the bottom, and stays in step with the messages exactly if none of the dropped ones was hidden or all that remain are. |
| ChatBuffers.ChatBuffer.DeleteByAge | src/chat.cpp:121-127 | Drops exactly the leading messages that are too old. |
| ChatBuffers.ChatBuffer.Reformat | src/chat.cpp:134-188 | With new columns the lines are those of the messages; a view at the bottom stays there, and otherwise goes to the next message if the columns changed, and to the top if they did not, so that it then stays exactly if it already was where the top of the new window is. |
| ChatBuffers.ChatBuffer.Clear | src/chat.cpp:61-67 | Everything is gone, and the view is in range exactly if the window has no rows. |
| ChatBuffers.EndsOfView | src/chat.cpp:419-442 | At the bottom the last line is in the last row; at the top the first line is in the first row, unless all lines fit, where both are one. |
| ChatBuffers.ClampIsNearest | src/chat.cpp:204-217 | A scroll position out of range goes to the nearest one in range, and one in range stays. |
| Paths.RemoveRelativePathComponents | src/filesys.cpp:792-843 | The names left are those that a stack of directories leaves, the result is empty if the stack underflows, and a path without dots only loses trailing delimiters. |
| Paths.FromRightIsStack | src/filesys.cpp:792-843 | Scanning from the right with a counter of parent steps gives what the stack gives. |
| Paths.JoinedComponents | src/filesys.cpp:792-843 | Names written with a slash before each are the components found. |
| Paths.DotsTakeBack | src/filesys.cpp:792-843 | A dot changes nothing, a name followed by two dots is as if neither were there, and two dots with nothing to take back fail. |
| Paths.PathStartsWith | src/filesys.cpp:673-732 | True exactly if the names of the prefix begin those of the path and both or neither begin at a delimiter; an empty prefix only fits an empty path. |
| NoiseField.ValueInCell2D | src/noise.cpp:240-255 | The floor that is one too low at negative integers still gives the value of the right cell. |
| NoiseField.ValueInCell3D | src/noise.cpp:258-283 | The same in three dimensions. |
| NoiseMeaning.EaseIsSymmetric | src/noise.h:236-239 | The easing treats both ends alike: at t and at 1 - t it adds up to 1. |
| NoiseMeaning.EaseIsFlat | src/noise.h:236-239 | It leaves 0 to third order and stays between 0 and 1. |
| NoiseMeaning.EaseRises | src/noise.h:236-239 | It never falls between 0 and 1. |
| NoiseMeaning.EasedIsWeight | src/noise.h:236-239 | Its value is 10 t^3 - 15 t^4 + 6 t^5, and without easing it is t. |
| NoiseMeaning.NoiseIsMean2D | src/noise.cpp:200-255 | The value at a point is the mean of the four corners of its cell by the weights of its distances, eased or not, and no easing or interpolating function is mentioned. |
| NoiseMeaning.NoiseIsMean3D | src/noise.cpp:222-283 | The same for the eight corners. |
| NoiseMeaning.NoiseWithinCorners2D | src/noise.cpp:240-255 | It lies between the least and the greatest of the four. |
| NoiseMeaning.NoiseWithinCorners3D | src/noise.cpp:258-283 | And of the eight. |
| NoiseField.NoiseFractal2D | src/noise.cpp:314-338 | The loop sums the octaves, with the powers of persistence and lacunarity; what an octave is between lattice points is said by `NoiseMeaning`. |
| NoiseField.NoiseFractal3D | src/noise.cpp:340-365 | The same in three dimensions. |
| NoiseMeaning.OctavesNest2D | src/noise.cpp:314-338 | Octaves are nested: the sum is the field itself and, weakened by the persistence, the sum of the others at a place scaled by the lacunarity under the next seed. |
| NoiseMeaning.OctavesNest3D | src/noise.cpp:340-365 | The same in three dimensions. |
| NoiseMaps.ValueMap2D | src/noise.cpp:496-554 | Stepping through the lattice with reused corners gives, at every point, the interpolated value of the point. |
| NoiseMaps.ValueMap3D | src/noise.cpp:558-646 | The same in three dimensions. |
| NoiseBuffers.EveryStartFits | src/noise.cpp:508-520 | Along an axis, a number of points suffices for every start exactly if it is at least the rounded length plus two. |
| NoiseBuffers.BufferCovers | src/noise.cpp:441-473 | In terms of the finest spacing of the lattice: an axis is accepted exactly if the spacing is at least one node and the map no longer than a thousand million of them, and then just three points more are kept than it takes to cover the map. |
| NoiseBuffers.FinestOctave | src/noise.cpp:443-446 | For a lacunarity above one that spacing is that of the last octave, and no other octave is finer. |
| NoiseBuffers.EnoughFromOne | src/noise.cpp:441-481 | With a lacunarity of at least one, the buffer holds every octave of a flat map from every start, and of a map in three dimensions if it has more than one layer. |
| NoiseBuffers.EnoughFromOne3D | src/noise.cpp:441-481 | With a lacunarity of at least one, it holds every octave of a map in three dimensions exactly if there is more than one layer. |
| NoiseBuffers.NeverBelowZero | src/noise.cpp:441-481 | With a negative lacunarity and negative spreads, which are accepted, it never does. |
| NoiseBuffers.EnoughBelowOne2D | src/noise.cpp:441-481 | With a positive lacunarity below one, it does for a flat map exactly if the spreads are at least one and the first octave fits. |
| NoiseBuffers.EnoughBelowOne3D | src/noise.cpp:441-481 | The same in three dimensions. |
| NoiseBuffers.LowLacunarityOverruns | src/noise.cpp:441-481 | Accepted parameters for which the buffer is too small. |
| Noises.Noise.ResizeNoiseBuf | src/noise.cpp:441-481 | Refuses exactly the parameters that the estimates exclude, of either sign, and otherwise allocates the estimated size. |
| Noises.Noise.NoiseMap2D | src/noise.cpp:649-683 | Every cell has the pointwise sum at its own place, with the persistence of the cell; without a persistence map, and where offset and scale are applied exactly, it is the value of the pointwise fractal noise. What that value is inside a cell is said by `NoiseMeaning.NoiseIsMean2D`. |
| Noises.Noise.NoiseMap3D | src/noise.cpp:686-721 | The same in three dimensions. |
| Noises.FinishedIsClose | src/noise.cpp:676-682 | Applied or skipped, offset and scale are missed by no more than the tolerance. |
| MapUnloading.Map.TimerUpdateUnlimited | src/map.cpp:286-347 | Exactly which blocks are written, unloaded and left, and which sectors go. |
| MapUnloading.Map.TimerUpdateLimited | src/map.cpp:348-407 | Exactly which blocks are written and unloaded when a number of them may stay. |
| MapUnloading.LimitKept | src/map.cpp:348-399 | If saving succeeds, the unreferenced blocks that stay are within the limit, and none is older than the timeout. |
| MapUnloading.UnloadedIs | src/map.cpp:286-347 | Without a limit, which block is unloaded and which is written, in terms of its use, its age, its changes and the save; blocks only age otherwise. |
| MapUnloading.LimitedIs | src/map.cpp:348-399 | With a limit: of the blocks within the timeout as many as the limit allows are left alone, the most recently used ones, and every other block is unloaded exactly if it is unused and was written, if it has changes and may be. |
| MapUnloading.SectorsAreColumns | src/map.cpp:286-347 | The blocks above and below each other share a sector, and no others. |
| MapUnloading.LostBlocks | src/map.cpp:303-347 | A block vanishes without being written or reported exactly if its writing failed and its whole sector had expired. |
| MapUnloading.SavedIsSafe | src/map.cpp:303-347 | If every write succeeds, no block is lost. |
| MapUnloading.Map.GetSectorNoGenerateNoLock | src/map.cpp:68-87 | The one-entry cache never changes the answer. |

## Findings

Where a property one would expect does not hold of the code, the code is
modelled as it is, an input is given, and the exact condition is proved.

| expected | fails for | holds exactly if |
|---|---|---|
| The craft search picks the last registered recipe of the highest priority. A fuel takes its priority before its slot is stored, so a group fuel ranks with exact ones but lies in a later layer. | `CraftManager.GroupFuelLosesTie` | `CraftManager.LayeredMissesOnlyGroupFuels`: the winner is no group fuel, or no fuel names the input |
| The hash index hides no recipe. | `Recipes.HandHidesRecipe`: the hand is in the group of a shaped recipe | `Recipes.NothingHiddenIff`: the hand is in no group |
| A plural formula that is accepted can be evaluated. | `PluralGrammar.MissingAlternative`: `n?1:` for zero; `PluralShape.MissingMiddle`: `n?(:1` for one | `PluralShape.AcceptedRaisesIff`: evaluating the tree of the text comes to no missing piece |
| There is room for a stack exactly if adding it leaves nothing over. | an empty stack and a list without slots | `StackLists.RoomIffNothingLeft` |
| While a stack is moved somewhere, no more is moved than remains. | `MoveActions.AskingTooMuchTrips`, `MoveCounts.MovingWithinAListTrips` | `MoveRequests.RequestSafeIff` towards other lists, `MoveWithin.RequestWithinSafeIff` within one, `MoveActions.CountAssertion` for each slot |
| The next trigger time is the least one. Minus one stands for "none" but is also a time, which an overdue timer can reach. | `NodeTimers.OverdueIsOverlooked`: a timer overdue by one when the clock starts | the contracts of `NodeTimers.NodeTimerList.Insert` and `NodeTimers.NodeTimerList.Step`: `NodeTimers.InsertTracksLeast`, `NodeTimers.StepOverlooks` |
| A loaded block that counts as air is air. | `MapBlocks.RepeatedIdFakesAir`: an id listed as air and as stone | the contract of `MapBlocks.MapBlock.DeSerializeNodes` with `MapBlocks.SingleIdDecides` |
| Every chat message has a line. | `ChatBuffers.NarrowWindowsHideNames` | `ChatLayout.FormatIsFaithful`; `ChatBuffers.ThreeColumnsSuffice` |
| The chat lines stay those of the kept messages. In one or two columns, dropping a message with a name drops the lines of the next one. | the messages of `ChatBuffers.NarrowWindowsHideNames`, when the first is dropped | `ChatBuffers.DroppingKeepsInSync` |
| The view of the chat stays in range when it is cleared. | any window with rows | the contract of `ChatBuffers.ChatBuffer.Clear` |
| Changing only the number of rows keeps the view where it is. | a view that is not at the bottom goes to the top | the contract of `ChatBuffers.ChatBuffer.Reformat`: it is at the bottom, or already where the top of the new window is |
| Noise buffers that are accepted are large enough. | `NoiseBuffers.LowLacunarityOverruns`: lacunarity one half | from lacunarity one on, always for flat maps (`NoiseBuffers.EnoughFromOne`) and for more than one layer in three dimensions (`NoiseBuffers.EnoughFromOne3D`); between zero and one, `NoiseBuffers.EnoughBelowOne2D` and `NoiseBuffers.EnoughBelowOne3D`; below zero never (`NoiseBuffers.NeverBelowZero`) |
| A block that is not written is not dropped. | a failed write in a sector that expired as a whole | `MapUnloading.LostBlocks` |

## Left out

- MoveRequests.RequestSafeIff: quantifies over callbacks that give finite limits; infinite sides are covered by `MoveActions.CountAssertion`.
- MoveWithin.RequestWithinSafeIff: the same.
- Noises.Noise.NoiseMap2D: asks for a buffer that is large enough, since with a smaller one the program writes behind it; `NoiseBuffers` says exactly when that is.
- Noises.Noise.NoiseMap3D: the same.
- NodeTimers.NodeTimerList.Insert: asks for a free position, as the program does.
- Crafting: decrementing the input and replacements, clearing recipes, the index by output, item strings and aliases behind the function from slot strings to names, the string hash, which is a parameter, and wear as a float, which is rounded to an integer.
- Plural formulas: wide-character blanks of other locales, and integer types other than 64 bits.
- Inventories: the text of item lines and of header lines, names with blanks or line breaks, renaming and locking lists, script callbacks other than their limits, rollback and reporting, and drop and craft actions.
- Move actions: list sizes beyond 16-bit signed indices, and lists that callbacks delete in the middle of a walk.
- Emerge: generation itself, which is one step, wrap-around of the 32-bit counters, and threads stopping and starting. An exception in a thread is a step that loses the callbacks in hand.
- Node timers: 32-bit and 64-bit rounding, times are reals; writing timers to disk.
- Map blocks: formats before version 24, content widths of one byte, compression, metadata, objects, modification flags, and the order in which the name list is written.
- Chat: colours, links, the prompt and its completion.
- Paths: Windows delimiters and case, and everything that asks the file system.
- Noise: rounding of floats, the lattice noise itself, which is a parameter, a lacunarity of zero, and the caching of the persistence buffer between calls.
- Map: sectors hold their blocks in one map instead of one map each; generation and drawing.
