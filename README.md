# GVZork game engine in Dafny

This project models the engine of GVZork, a text adventure set on a college
campus. The player walks between nine rooms, picks up and drops food, talks to
and meets NPCs, buys from two vendors and steals from everyone else. The goal
is to feed an Elf in the Woods 500 calories.

The model follows the C++ sources file by file:

- `item.dfy` (module `Items`) covers `Item.cpp`. The validating constructor
  becomes a `Result`-returning function over a validity predicate. The default
  item is also modelled.
- `npc.dfy` (module `Npcs`) covers `NPC.cpp` as a class. `GetCurrentMessage`
  moves the `messageNum` cursor in place. Pure `NextCursor`, `CursorAfter` and
  `Dialogue` functions specify the cursor, and the cyclic law is proved about
  them.
- `location.dfy` (module `Locations`) covers `Location.cpp` as a class whose
  `items`, `npcs` and `neighbors` fields are updated in place.
  - Exits map a direction label to an arena index.
  - Rendering (`operator<<`) is a pure, read-only function `Render`. It returns
    what is shown: the NPC names or "alone", the items or "no items", and one
    line per exit, in `std::map` key order, with fog of war.
- `world.dfy` (module `World`) covers the constants in `create_world`: the room
  order, the exit table, Campus Security at index 6, and the five-item shop
  stock. `CreateWorld` builds the nine rooms and writes every exit.
- `commands.dfy` (module `Commands`) covers the verb table in `setup_commands`
  (17 verbs over 11 handlers). It also models the line split in `play`
  (`boost::split` on single spaces) and the re-join with single spaces that
  the handlers taking a target perform.
- `game.dfy` (module `Game`) holds the `Game` class with the player state and
  the world arena.
  - Every verb handler is a method whose `ensures` ties the new state to pure
    specification functions:
    - `Extract`: the take/give index scan.
    - `Heist`: the steal walk.
    - `Sales` and `BuyVerdict`: buying.
    - `Deliveries`: what giving does to the rooms.
  - Lemmas about these functions state the game's rules.
  - `Execute` runs one command line through the verb table. `Play` is the
    command loop.
- `findings.dfy` (module `Findings`) holds two handler fragments as written next to the
  corrected versions that the rest of the model uses (see "## Findings").

The random source (`random_location`) becomes a parameter `random: nat -> nat`.
The k-th draw of one command is `random(k)`, and each draw must lie in `[0, 9)`.
`Play` receives one such function per command line. The player's start room is
a constructor parameter.

Some consequences of the code worth spelling out:

- Every configured exit has an opposite exit back (`World.ExitsReversible`).
- Draw 1 is a caught draw (`Game.cpp:574`), so the 10-coin reward branch can
  never run (`Game.TheftRewards`).
- An inedible item given in the Woods stays in the Woods (`Game.cpp:443-447`).
  Only edible items are popped off the room again.
- `take`, `give`, `talk`, `meet`, `buy` and `steal` act on every NPC or item of
  the target name that their loop reaches, not only the first.
  - In `take` and `give`, the scan erases and then still moves on by one, so the
    item that slid into the erased slot is skipped (`Game.ExtractSkipsNeighbour`).
  - The single-match behaviour is stated separately (`Game.ScanOnce`,
    `Game.NamedOnce`, `Game.HeistOnce`, `Game.BuyOne`).

## Model

| member | source | states |
|---|---|---|
| `Items.NewItem` | Item.cpp:25-53 | construction succeeds iff name and description are non-empty, 0 ≤ calories ≤ 1000 and 0 ≤ weight ≤ 500; the first failed check (name, description, calories, weight) names the error; the two cast checks never fire; on success the fields are the arguments |
| `Items.DefaultItem` | Item.cpp:17-22 | the default item ("N/A", "N/A", 0, 0) skips validation yet passes it |
| `Items.RangeEndsInclusive` | Item.cpp:33-41 | calories 0 and 1000 and weight 0 and 500 are accepted; -1, 1001, -1 lb and 501 lb are refused with the range error |
| `Items.SumWeightsNonNegative` | Item.cpp:40-42 | an inventory of validated items weighs at least 0 |
| `Npcs.NPC.Default` | NPC.cpp:7-14 | the default NPC has exactly its two stock lines, cursor 0 and is not robbed |
| `Npcs.NPC.Create` | NPC.cpp:17-31 | an empty name, then an empty description, is refused; otherwise the NPC has the given name and description, no lines, cursor 0 and is not robbed |
| `Npcs.NPC.GetCurrentMessage` | NPC.cpp:34-41 | needs at least one line; returns the line under the cursor as it was before the call; the cursor stays in range and moves one on, or wraps to 0 after the last line |
| `Npcs.NPC.AddMessage` | NPC.cpp:44-46 | appends one line at the back; cursor, earlier lines and robbed flag unchanged |
| `Npcs.NPC.Copy` | Location.cpp:52-54 | the copy that `add_npc` stores by value has the original's name, description, lines, cursor and robbed flag, and is valid |
| `Npcs.NextCursor` | NPC.cpp:37-39 | the next cursor is in range and equals (cursor + 1) mod the number of lines |
| `Npcs.FullCycle` | NPC.cpp:34-41 | from cursor 0, as many reads as there are lines return every line in order and bring the cursor back to 0 |
| `Npcs.DialogueRotation` | NPC.cpp:34-41 | a full round of reads from any cursor returns the lines rotated to start at that cursor |
| `Npcs.CursorAfterPeriod` | NPC.cpp:37-39 | a full round of reads from any cursor returns to it |
| `Npcs.DialogueSplit` | NPC.cpp:34-41 | the lines of j + k reads are those of j reads followed by those of k more |
| `Locations.Location.Default` | Location.cpp:23-27 | the default room is "The Void", unvisited, with no items, NPCs or exits |
| `Locations.Location.constructor` | Location.cpp:30-34 | a new room is unvisited and has no items, no NPCs and no exits |
| `Locations.Location.AddLocation` | Location.cpp:37-49 | an empty direction, then a direction already present, is refused and changes nothing; otherwise exactly one new key maps to the target |
| `Locations.Location.AddNpc` | Location.cpp:52-54 | a copy of the NPC is appended at the back; earlier NPCs and the items are unchanged |
| `Locations.Location.AddItem` | Location.cpp:57-59 | the item is appended at the back; earlier items and the NPCs are unchanged |
| `Locations.Render` | Location.cpp:68-100 | rendering reads only; "alone" exactly when there are no NPCs, "no items" exactly when there are no items, otherwise those lists; one exit line per direction |
| `Locations.ExitTo` | Location.cpp:92-96 | an exit shows "Unknown" exactly when its target is unvisited, otherwise the target's name |
| `Locations.FogOfWar` | Location.cpp:90-97 | every rendered exit hides its target's name exactly when the target was not visited |
| `Locations.ExitLinesSorted` | Location.cpp:90 | the exit lines list every direction once, in increasing string order, as `std::map` iterates |
| `Locations.SortedKeys` | Location.cpp:90 | the key order is a strictly increasing listing of exactly the map's keys |
| `Locations.LexLess` | Location.cpp:90 | `std::string`'s `<`, the order `std::map` keeps its keys in: the first differing character decides and a proper prefix comes first; a definition without a contract of its own, whose order properties are the three lemmas below |
| `Locations.LexLessIrreflexive` | Location.cpp:90 | no string comes before itself |
| `Locations.LexLessTransitive` | Location.cpp:90 | the key order is transitive |
| `Locations.LexLessTotal` | Location.cpp:90 | of two different strings one comes before the other, so the order is a strict total order |
| `World.RoomNames` | Game.cpp:219-227 | nine rooms; index 0 is the Woods and index 6 is Campus Security |
| `World.Exits` | Game.cpp:231-248 | every exit leads to another room inside the arena |
| `World.ExitsReversible` | Game.cpp:231-248 | every configured exit has an opposite exit leading back |
| `World.CampusSecurityReachable` | Game.cpp:232-246 | Mackinac Hall, the library and the parking lot lead to Campus Security, which has three exits |
| `World.ShopStock` | Game.cpp:206-215 | the stock holds five valid, edible items in the order they are sold |
| `World.ShopStockCalories` | Game.cpp:206-210 | the whole stock is worth 285 calories |
| `World.CreateWorld` | Game.cpp:217-250 | nine fresh, distinct, unvisited rooms in arena order, with the configured exits; the world is well formed: every exit stays inside the arena and no NPC object stands twice in a room or in two rooms |
| `World.WellFormedKept` | Location.cpp:52-54 | since `add_npc` stores its own copy, a room's NPCs belong to that room alone; a well-formed world stays well formed through any change that keeps the rooms' NPC lists and exits and the NPCs' lines and cursors |
| `Commands.Lookup` | Game.cpp:314-319 | a verb selects a handler exactly when the table has it; otherwise it is an invalid command |
| `Commands.LookupVerbs` | Game.cpp:260-276 | a verb selects a handler exactly when it is one of that handler's verbs or synonyms |
| `Commands.ExactVerbs` | Game.cpp:314 | verbs match exactly: no case folding or trimming |
| `Commands.Split` | Game.cpp:308 | the words hold no spaces; a line without spaces is one word |
| `Commands.JoinSplit` | Game.cpp:308-311 | joining the split words with single spaces gives the line back |
| `Commands.SplitJoin` | Game.cpp:353 | splitting joined space-free words gives them back |
| `Commands.ParseRest` | Game.cpp:307-311 | the verb is the text before the first space and the target is exactly the rest of the line |
| `Commands.SelectionsAt` | Game.cpp:307-316 | entry k of a session's selections is the table entry for the first word of line k |
| `Game.Extract` | Game.cpp:396-406 | a scan keeps or collects every item, and collects only items of that name |
| `Game.ScanOut` | Game.cpp:396-406 | the index loop that erases matches and still moves on computes `Extract` |
| `Game.ExtractNone` | Game.cpp:396-409 | with no item of that name nothing is collected and the list is unchanged |
| `Game.ExtractFinds` | Game.cpp:396-409 | the scan collects something exactly when some item has the name |
| `Game.ExtractUnique` | Game.cpp:396-406 | with the name occurring once, exactly that item is collected and the others keep their order |
| `Game.ExtractPermutes` | Game.cpp:396-406 | kept and collected items together are a permutation of the list |
| `Game.ExtractWeighs` | Game.cpp:399-403 | kept and collected weights add up to the list's weight |
| `Game.ExtractSkipsNeighbour` | Game.cpp:403-405 | of two adjacent matches, only the first is collected |
| `Game.ScanOnce` | Game.cpp:396-403 | with the name occurring once, exactly that item and exactly its weight leave the list |
| `Game.TakeGiveRoundTrip` | Game.cpp:396-429 | taking a uniquely named item from room `loc` and giving it back there, when `loc` is not the Woods, restores the inventory and its weight; by `Deliveries` the gift makes exactly one drop, into `loc`, and changes nothing else; the room then holds the same multiset of items, the returned one at the back |
| `Game.TakeGiveLists` | Game.cpp:396-426 | with the name unique in the room and absent from the inventory, the take moves exactly that item to the back of the inventory and the give removes exactly it again, leaving the inventory as before |
| `Game.GiveBack` | Game.cpp:424-429 | the first gift of a `give` outside the Woods lands in the player's room as its only drop, and nothing else changes |
| `Game.IsVendor` | Game.cpp:562 | the NPCs that sell and cannot be robbed are exactly those named "Vending machine" and "Employee"; a definition without a contract of its own, whose consequences are `Game.BuyVerdict` and `Game.HeistRefusals` |
| `Game.Descriptions` | Game.cpp:376-381 | meet shows one description for each NPC of that name in the room |
| `Game.Replies` | Game.cpp:357-362 | talk gets one line for each NPC of that name in the room |
| `Game.NamedOnce` | Game.cpp:357-382 | with one NPC of that name, meet shows its description and talk returns its current line |
| `Game.Caught` | Game.cpp:574 | the draws that get the thief caught are 0, 1, 2, 5 and 7; a definition without a contract of its own, whose consequences are `Game.CaughtOdds` and `Game.HeistOnce` |
| `Game.Reward` | Game.cpp:586-599 | an uncaught theft pays 5, 10 or 15 coins |
| `Game.TheftRewards` | Game.cpp:586-599 | an uncaught draw never pays 10; 3 and 8 pay 15; 4 and 6 pay 5 |
| `Game.CaughtOdds` | Game.cpp:573-574 | five of the nine possible draws get the thief caught |
| `Game.Sales` | Game.cpp:517-545 | one purchase per vendor of that name, until stock or coins run out, never spending more than the coins |
| `Game.SalesAffordable` | Game.cpp:530-535 | buying never takes the coins below zero |
| `Game.BuyVerdict` | Game.cpp:517-549 | no such NPC, then a non-vendor, then empty stock, then too few coins, decide the outcome in that order: with a vendor present, the run is `Bought` iff every vendor sold, `SoldOut` iff the stock ran out first, and `TooPoor` iff neither did |
| `Game.BuyOne` | Game.cpp:525-543 | one vendor, stock left and at least 25 coins buy exactly the front item |
| `Game.Heist` | Game.cpp:559-602 | a steal tries the room's NPCs of that name in list order from index i; it stops inside the list, never before i, and never gains a negative amount (its other promises are `Game.HeistFacts`) |
| `Game.HeistFacts` | Game.cpp:559-605 | a steal gains a multiple of 5 coins; it finds no victim exactly when no NPC has the name; vendors and the Elf end it with no gain; every NPC it passed was unrobbed |
| `Game.HeistRefusals` | Game.cpp:562-571 | the vendor check precedes the Elf check, and both precede any draw |
| `Game.HeistOnce` | Game.cpp:573-599 | for the only NPC of that name: caught exactly on draws 0, 1, 2, 5 and 7, before the robbed check; else nothing from an NPC robbed before; else the draw's reward |
| `Game.GiveStep` | Game.cpp:424-447 | one gift never raises the calories needed, never restarts a stopped game, and adds at most one item to the current room |
| `Game.Deliveries` | Game.cpp:421-451 | the gifts are handed over one after another in inventory order, each by `GiveStep`, and the player always ends in a room of the world (its other promises are `Game.DeliveriesFacts`) |
| `Game.DeliveriesFacts` | Game.cpp:421-451 | a run of gifts only lowers the calories needed, only adds drops and marks, and adds at most one drop per gift, each of a given item |
| `Game.GiveEdible` | Game.cpp:429-442 | an edible gift in the Woods lowers the calories needed by exactly its calories, stops the game iff the result is ≤ 0, and leaves no item behind |
| `Game.GiveInedible` | Game.cpp:443-447 | an inedible gift in the Woods stays there, marks the Woods visited and moves the player to the drawn room |
| `Game.GiveElsewhere` | Game.cpp:424 | outside the Woods a gift joins the back of the room's items and nothing else changes |
| `Game.Sell` | Game.cpp:517-549 | the buying loop ends as `BuyVerdict` says and buys the front of the stock, as many items as `Sales` says |
| `Game.Chat` | Game.cpp:357-363 | every NPC of that name says its current line in room order and moves its cursor; the other NPCs keep theirs |
| `Game.Rob` | Game.cpp:559-602 | the steal loop ends as `Heist` says, and exactly the NPCs it robbed become robbed |
| `Game.TalkIn` | Game.cpp:357-363 | talking in room r returns `Replies` as they were before the call; exactly the NPCs of that name there move their cursor one on (`NextCursor`), the others keep theirs; the world stays well formed |
| `Game.StealIn` | Game.cpp:559-602 | stealing in room r ends as `Heist` says over that room's NPCs, and exactly the NPCs it robbed become robbed; no room's items and no cursor there change; only room r can become visited, and only when the thief is caught; the world stays well formed |
| `Game.AddDrop` | Game.cpp:424 | the given item joins the back of room `at`'s items, and the rooms stay in step with the drops so far, now ending with this one |
| `Game.PopDrop` | Game.cpp:442 | the Elf's meal is popped off the back of room `at`'s items, and the rooms are back in step with the drops before it |
| `Game.MarkRoom` | Game.cpp:445 | room `at` becomes visited and joins the marked rooms; no room's items change |
| `Game.GiveOne` | Game.cpp:422-447 | one pass of the giving loop changes the location, calories, progress, drops and marks exactly as `GiveStep` describes, and the rooms stay in step with them |
| `Game.Deliver` | Game.cpp:421-451 | the giving loop leaves the rooms, flags, location, calories and progress that `Deliveries` describes |
| `Game.DeliverIn` | Game.cpp:421-451 | `Deliver` inside a well-formed world, which stays well formed |
| `Game.Game.constructor` | Game.cpp:27-39 | a new game has no items, weight 0, 0 coins, the full stock, 500 calories to go, is in progress, and starts in the drawn room |
| `Game.Game.Quit` | Game.cpp:344-347 | quitting stops the game and changes nothing else (`QuitDone`) |
| `Game.Game.Meet` | Game.cpp:370-386 | meet returns the descriptions of the NPCs of that name, none exactly when there is no such NPC, and changes nothing |
| `Game.Game.Talk` | Game.cpp:350-367 | talk returns the current lines of the NPCs of that name and advances only their cursors; no player field, room, robbed flag or other cursor changes (`TalkDone`) |
| `Game.Game.Take` | Game.cpp:389-410 | the scanned items leave the room and join the back of the inventory, the weight keeps matching the inventory, and the reply says whether anything matched; no other room, visited flag, NPC here or other player field changes (`TakeDone`) |
| `Game.Game.Go` | Game.cpp:458-489 | the room is marked visited first; a load over 30 refuses travel whatever the direction; otherwise a known direction moves the player to its target and an unknown one leaves them in place; no room's items, no NPC here and no other player field change (`GoDone`) |
| `Game.Game.Buy` | Game.cpp:511-550 | the outcome is `BuyVerdict`; each purchase costs exactly 25 coins and moves the front of the stock to the back of the inventory with its weight; nothing else changes (`BuyDone`) |
| `Game.Game.Settle` | Game.cpp:534-543 | paying for the goods: they join the back of the inventory with their weight, the price leaves the coins, and the stock becomes what is left; no other player field changes |
| `Game.Game.Steal` | Game.cpp:554-606 | the outcome, coins and robbed flags are those of `Heist`; robbing the Elf stops the game; getting caught marks the room visited and moves the player to Campus Security; otherwise the player stays; no room's items, no cursor here and no other visited flag change (`StealDone`) |
| `Game.Game.Reckon` | Game.cpp:566-598 | the player's half of a theft: the gain joins the coins, striking the Elf stops the game and getting caught moves the player to Campus Security; no other player field changes |
| `Game.Game.Surrender` | Game.cpp:421-427 | the scanned items leave the inventory and exactly their weight is taken off |
| `Game.Game.HandOver` | Game.cpp:421-451 | each given item is handed over in turn: location, calories, progress, the rooms' items and visited flags are those `Deliveries` describes; the inventory, coins and stock are unchanged |
| `Game.Game.Give` | Game.cpp:415-455 | the reply says whether anything matched; the scanned items leave the inventory with their weight and are handed over as `Deliveries` describes; coins, stock and the NPCs here are unchanged (`GiveDone`) |
| `Game.Game.ActInRoom` | Game.cpp:314-316 | talk, meet, take and go each answer with their own reply and make exactly their own state change (`TalkDone`, `TakeDone`, `GoDone`); meet changes nothing |
| `Game.Game.ActOnGoods` | Game.cpp:314-316 | give, buy, steal and quit each answer with their own reply and make exactly their own state change (`GiveDone`, `BuyDone`, `StealDone`, `QuitDone`); in a running game the reply marks the end of the game exactly when the game stopped |
| `Game.Game.Report` | Game.cpp:314-318 | an unknown verb, help, inventory and look each answer with their own reply; the inventory reply carries the items, coins and weight the player holds |
| `Game.Game.Execute` | Game.cpp:307-319 | the first word picks the handler through the table; an unknown verb, help, inventory and look change nothing: no player field, no room's items or visited flag, no cursor or robbed flag of the NPCs here; in a running game the reply marks the end of the game exactly when the game stopped; each handler's reply is as specified above; and the state change is exactly the one the reply's handler promises (`Effect`: `TakeDone`, `GoDone`, `TalkDone`, `BuyDone`, `StealDone`, `GiveDone`, `QuitDone`, and `Unchanged` for meet) |
| `Game.Game.Play` | Game.cpp:294-321 | the loop answers line k through the handler `Selections` gives for line k (the handler tag only; the state change of each line is stated by `Game.Game.Step`) and runs nothing once the game has stopped: no reply but the last is a quit, a winning gift or a theft from the Elf; if the game stops during the loop, the last reply is the one that stopped it; and it stops early only when the game stopped |
| `Game.Game.Step` | Game.cpp:299-319 | one pass of the loop in a running game answers line i through the handler that line selects, and the reply is a quit, a winning gift or a theft from the Elf exactly when the game has stopped after it; the state change is the one `Effect` ties to that reply, for line i's target and draws; only the NPCs of the current room can change a cursor or robbed flag, so every NPC elsewhere keeps both |
| `Findings.GiveWeightAsWritten` | Game.cpp:426-427 | as written, `give` takes off the weight of the next item (the result is the weight minus `items[i + 1].weight`, which equals the intended result only when the two items weigh the same), or reads past the end exactly when the given item was last |
| `Findings.GiveWeightDrifts` | Game.cpp:426-427 | as written, the weight stops matching the inventory whenever the next item weighs differently |
| `Findings.GiveWeightCorrected` | Game.cpp:421-427 | subtracting the given item's own weight keeps the weight equal to the inventory's |
| `Findings.GoAsWritten` | Game.cpp:469-488 | as written, an unknown direction moves the player to room 0 whenever the unset flag reads true |
| `Findings.GoStraysIntoWoods` | Game.cpp:469-488 | from any room except the Woods, an unknown direction can land the player in the Woods |

## Findings

| source | as written | input that shows it | evidently intended | confidence | as-written member | corrected member |
|---|---|---|---|---|---|---|
| Game.cpp:426-427 | the item is erased, then `items[i].weight` is subtracted, which is the weight of the item after it (or a read past the end) | inventory [Soda (3), Steak (4)], `give Soda`: weight becomes 3 while the Steak weighs 4 | subtract the given item's weight | high (not executed) | `Findings.GiveWeightDrifts` | `Game.Game.Surrender` |
| Game.cpp:469-488 | `validTarget` is never initialised, so an unknown direction may be treated as valid, and `indexNum` is still 0 | `go Up` in Mackinac Hall with the flag reading true: the player lands in the Woods | an unknown direction leaves the player in place | medium (not executed; depends on an indeterminate value) | `Findings.GoAsWritten` | `Game.Game.Go` |

## Left out

- Console I/O: prompts, every printed message, `getline`, `show_help`'s timestamp and key listing, `show_items` and `look` printing, and `main.cpp`. Handlers return a `Reply` tag with the data they would print.
- Random generation (`random_device`, `mt19937`): draws are parameters, each required to be in `[0, 9)`.
- Items.NewItem: weights are whole numbers. The source's `float` weights and the truncation in `weight += item.weight` into an `int` are not modelled. The fractional configured weights (Leaves 3.5, Berries 2.5, the energy drink) are out of scope. So is a NaN weight: it passes the range check at Item.cpp:40 and then fails `weight != (float)weight` at Item.cpp:44, so the C++ can throw "Weight must be a float."; the model has no NaN, and there that check never fires.
- Item and NPC stream operators (number formatting) are not modelled beyond what `Locations.Render` lists.
- The populated world (room descriptions, room items, NPCs and their dialogue) is configuration. `World.CreateWorld` builds the rooms and exits from given descriptions, and `Game.Game.constructor` accepts any well-formed world.
- `reference_wrapper` neighbours and the address comparison in `go` (Game.cpp:476-480) are replaced by arena indices. So is the dangling reference that `add_location` stores to its by-value parameter; `Locations.Location.AddLocation` stores the target's index instead.
- `Location::get_neighbors` only returns a copy of the map and is not modelled separately.
- The draws of one command are `random(0)`, `random(1)`, … of one caller-supplied function. Seeding and the uniform distribution are not modelled.
