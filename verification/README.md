# Verified model of the game server's stateful core

This is a Dafny model of the parts of the server whose code keeps a state exact by small steps: the stack of things on
a tile, the walk cache of a creature, the lists of thinking creatures, trades, coins, market offers, and the three ways
in which trees of items and nodes are written down and read back.  Each module follows one part of the source, with the
same branches, constants and machine widths, and proves what the part is for.

| module | models |
|---|---|
| `OtbLoader` | the node files: an explicit stack of open nodes over escaped bytes, against a recursive grammar |
| `ItemForest` | a player's items as rows of parent and own ids, written breadth first and rebuilt |
| `ItemStream` | the byte stream of an item, its attributes and all it holds |
| `WalkCache` | the window of walkable squares that slides with a creature |
| `Tile` | the things on a tile, their numbers, and the flags cached about them |
| `ItemMoves` | adding, removing and moving items on tiles, on top of `Tile` |
| `Coins` | paying in coins and making change |
| `Market`, `MarketItems`, `Deals` | market offers as money held in trust, the goods of an offer, and both together |
| `Trade` | the trade between two players |
| `CreatureChecks` | the lists of creatures that think, and the walk over one of them |
| `Basics`, `Wrappers` | bytes and their places, sequences without doubles, division; the option type |

Code that changes objects is modelled by classes whose methods are proved against a specification on values; the
theorems are about the specification.  Checks that have to do with the network, scripts, the map or permissions are
boolean arguments, chance is an argument, and so is the time.

## Where the code does not do what it seems to be for

* A step to the south-east or south-west spoils the walk cache: the distance between the two rows is taken without its
  sign, so the wrong rows are shifted (`WalkCache.SafeIff`, `WalkCache.SlipShows`).
* So does an item that is changed or removed if its types neither block nor are ground but it kept creatures out all
  the same, such as a hole that closes or a teleport that goes: the handlers look only at the block flags and the
  ground, the map also at floor changes and teleports.  Nor is any handler told when the creature itself comes to be
  let in elsewhere (`WalkCache.HarmlessIff`, `WalkCache.MissShows`).
* A payment that may use the bank can charge it although the coins suffice, because what is owed is not set to zero at
  the breaks of the loop (`Coins.PaidExactly`, `Coins.ChargedTwice`).
* The worth of the crystal coins is computed in 32 bits: from 4,294,970,000 on the coins made are almost never worth
  the amount (`Coins.MadeWorthExactly`, `Coins.FirstWrap`).
* The charge for a market offer, and the payment for an accepted one, are products of 32 bits; an offer to buy that
  wraps holds more than was charged for it (`Market.WrapMakesMoney`, `Market.OfferMakesMoneyIff`, `Market.CheapOffer`).
* Refunds of expired offers use rows that the database thread has read before: an offer that is partly accepted in
  between is refunded in full, and money is made (`Market.RunMakesMoneyIff`, `Market.DeliveredAndRefunded`).
* A node file whose root has neither properties nor children is refused for its size, though it is well formed
  (`OtbLoader.RoundTrip`, `OtbLoader.BareRootRefused`).
* An item does not come back from saving as it was when it has no charges left but its type has some, when it has
  charges that its type does not count in, when it has an owner, a corpse owner, a door id or a unique id, or a string
  that is too long; `ItemStream.Storable` lists all (`ItemStream.StorableIff`, `ItemStream.MarksAreLost`,
  `ItemStream.UsedUpIsRenewed`).
* A creature goes without its turn when another is taken out of the list while a newcomer is in it already: the
  newcomer takes the free place, and the last of those still to come falls behind the end
  (`CreatureChecks.GoesWithoutIff`, `CreatureChecks.ThirdGoesWithout`).
* A part of a stack that is always on top or lies as ground cannot be taken: the whole stack goes
  (`ItemMoves.TakenAsAsked`, `ItemMoves.GroundVanishes`).
* A magic field that is added where one lies that cannot be replaced is destroyed, and the addition is reported as done
  (`ItemMoves.InternalAddItem`, `ItemMoves.FieldVanishes`).
* A container of the ware that a sale empties can be sold itself from then on (`MarketItems.EmptiedBagIsGoods`).

## Model

| member | source | states |
|---|---|---|
| `OtbLoader.DocumentIsFinish` | src/io/fileloader.cpp:57-104 | a document is read as a whole by the recursive grammar exactly as by what the stack of open nodes still has to see: start mark, type, then the loop down to an empty stack |
| `OtbLoader.FinishOpensChild` | src/io/fileloader.cpp:68-82 | a start mark ends the properties of the node on top if it has no child yet, and the rest is read as one more node of the grammar under it |
| `OtbLoader.FinishClosesTop` | src/io/fileloader.cpp:83-90 | an end mark closes the node on top, whose properties end there only if it has no child, and hangs it under the next |
| `OtbLoader.StepKeepsOutcome` | src/io/fileloader.cpp:66-101 | each turn of the loop leaves the final outcome of the parse what it was, for every stack |
| `OtbLoader.ParsesIffBracketed` | src/io/fileloader.cpp:55-107 | the parse succeeds exactly on well-bracketed input: escapes hide the next byte, every start has its end, and nothing but quiet bytes follows the root |
| `OtbLoader.UnescapeEscape` | src/io/fileloader.cpp:115-122 | dropping the unescaped escape marks gives back any properties that were written escaped, also those full of marks |
| `OtbLoader.ParseEncoded` | src/io/fileloader.cpp:66-101 | the grammar reads a written node, wherever it stands, as the tree of its own positions, and ends right behind it |
| `OtbLoader.DecodeLocated` | src/io/fileloader.cpp:109-124 | from those positions the node read back has the type, the properties and the children that were written, in order |
| `OtbLoader.ParsedNodeDecodes` | src/io/fileloader.cpp:55-124 | every node that parses has well-placed properties, so that its properties can be read |
| `OtbLoader.BareEncoding` | src/io/fileloader.cpp:32-38 | the only written node of at most three bytes is one without properties and children |
| `OtbLoader.RoundTrip` | src/io/fileloader.cpp:32-124 | a written document is accepted if and only if its root is not bare, and then gives back the node tree that was written |
| `OtbLoader.BareRootRefused` | src/io/fileloader.cpp:32-38 | a file of a bare root is refused |
| `OtbLoader.NodeOnDisk` | src/io/fileloader.h:44-53 | a node is written as the byte 0xFE, its type, its properties with 0xFD before each of 0xFD, 0xFE and 0xFF, its children, and the byte 0xFF |
| `OtbLoader.Loader.Load` | src/io/fileloader.cpp:32-45 | the constructor refuses, with an exception, exactly the contents of at most seven bytes and those of a foreign identifier |
| `OtbLoader.Loader.GetProps` | src/io/fileloader.cpp:109-124 | false exactly for an empty range, and otherwise the unescaped bytes of the range |
| `OtbLoader.Loader.OpenChild` | src/io/fileloader.cpp:68-82 | one start mark on the objects: the new node is on the stack and its ancestors stay valid |
| `OtbLoader.Loader.CloseTop` | src/io/fileloader.cpp:83-90 | one end mark on the objects, or the exception for an empty stack |
| `OtbLoader.Loader.ParseByte` | src/io/fileloader.cpp:66-101 | one turn of the loop on the objects follows the same turn on values |
| `OtbLoader.Loader.ParseTree` | src/io/fileloader.cpp:55-107 | the loop over the bytes succeeds exactly when the grammar does, and the node objects then spell out its tree |
| `ItemForest.BreadthFirst` | src/io/iologindata.cpp:774-855 | the roots come first, in their order, and behind them the parent ids never fall: one container after another in the order in which they were written |
| `ItemForest.RowIds` | src/io/iologindata.cpp:774-855 | the k-th row has sid 101 + k, and its parent id is a slot below 100 or the sid of an earlier row, that of the container in which its item lies |
| `ItemForest.BfsParents` | src/io/iologindata.cpp:815-855 | what is written later lies in a container that was queued, or in one that was written before it |
| `ItemForest.BfsNumbers` | src/io/iologindata.cpp:815-855 | rows of the queue are numbered without gaps from where the roots left off |
| `ItemForest.QueueShrinks` | src/io/iologindata.cpp:815-855 | each round of the queue leaves less to write, so that the loop ends |
| `ItemForest.BfsGrows` | src/io/iologindata.cpp:815-855 | of any rest of the queue, the rows written for it grow back to the trees that were queued, once all rows are in the table |
| `ItemForest.TableAgrees` | src/io/iologindata.cpp:1320-1344 | loading the rows in any order gives the same table, without the items whose types are gone |
| `ItemForest.LastRowCounts` | src/io/iologindata.cpp:1320-1344 | a sid is in the table exactly if some row of it has a living type, and with the last such row |
| `ItemForest.RoundTrip` | src/io/iologindata.cpp:565-610 | for rows in any order, growing each slot from the table gives the forest that was flattened, same shape and order, less what vanishes with missing item types |
| `ItemForest.PruneIsIdentity` | src/io/iologindata.cpp:1334-1342 | nothing vanishes when no type is missing and containers are still containers |
| `ItemForest.SaveRoots` | src/io/iologindata.cpp:777-813 | the loop over the roots writes the head rows and queues the containers among them |
| `ItemForest.SaveContainer` | src/io/iologindata.cpp:821-854 | the loop over one container writes its rows and queues its containers |
| `ItemForest.SaveNext` | src/io/iologindata.cpp:815-855 | one round of the queue follows the same round on values |
| `ItemForest.SaveItems` | src/io/iologindata.cpp:765-857 | the rows written from the item objects are the breadth-first flattening of the forest they spell out |
| `ItemForest.Item.InternalAddThing` | src/items/containers/container.cpp:766-776 | an item is put in front of what the container holds |
| `ItemForest.LoadItems` | src/io/iologindata.cpp:1320-1344 | each row becomes a new object under its sid, the last row of an sid counting, except for missing types |
| `ItemForest.Rebuild` | src/io/iologindata.cpp:573-609 | for any rows, walking the sids downwards puts exactly the rows of each parent into its slot or container, in ascending order of sid |
| `ItemForest.LoadForest` | src/io/iologindata.cpp:565-609 | from the rows of a forest, in any order, slots and containers hold exactly the trees of the forest again |
| `WalkCache.Creature.UpdateOffset` | src/creatures/creature.cpp:314-319 | exactly the cell at the offset is written, and none outside the window |
| `WalkCache.Creature.UpdateTileCache` | src/creatures/creature.cpp:321-329 | exactly the cell of that square is written, if it is on the floor and in the window |
| `WalkCache.Creature.UpdateMapCache` | src/creatures/creature.cpp:298-312 | the whole window is what the map says, at 16-bit coordinates |
| `WalkCache.Creature.ShiftRowsSouth` | src/creatures/creature.cpp:503-506 | every row moves one down in place |
| `WalkCache.Creature.ShiftRowsNorth` | src/creatures/creature.cpp:514-517 | every row moves one up in place |
| `WalkCache.Creature.ShiftColumnsWest` | src/creatures/creature.cpp:538-542 | in the rows of the range every cell takes its eastern neighbour |
| `WalkCache.Creature.ShiftColumnsEast` | src/creatures/creature.cpp:561-565 | in the rows of the range every cell takes its western neighbour |
| `WalkCache.Creature.OnOwnMove` | src/creatures/creature.cpp:495-576 | after the creature's own move each cell is what the shifts and lookups of that direction make of it, or the whole window is looked up |
| `WalkCache.Creature.OnOtherMove` | src/creatures/creature.cpp:577-588 | another creature's move writes the two squares concerned and no other |
| `WalkCache.Creature.OnUpdateTileItem` | src/creatures/creature.cpp:369-381 | the square is looked up again exactly when one of the two types is solid or blocks the path, and otherwise no cell changes |
| `WalkCache.AskAfterUpdate` | src/creatures/creature.cpp:369-381 | asked right after an update on a watched square, the cache answers what the map says if one of the two types blocks, and what it answered before if not |
| `WalkCache.AskAfterRemoval` | src/creatures/creature.cpp:383-394 | the same after a removal, with a type that blocks or is ground |
| `WalkCache.Creature.OnRemoveTileItem` | src/creatures/creature.cpp:383-394 | a removed item is noticed exactly when its type blocks or is ground |
| `WalkCache.Creature.GetWalkCache` | src/creatures/creature.cpp:331-360 | the answer is 1 for the own square, the cell inside the window, 0 on another floor and 2 outside |
| `WalkCache.FreshAnswers` | src/creatures/creature.cpp:331-360 | a cache that agrees with the map outside its centre answers every question about the window as the map would |
| `WalkCache.StepKeepsFresh` | src/creatures/creature.cpp:500-574 | a step to one of the four sides or northwards aslant keeps the cache in agreement with the map |
| `WalkCache.SouthernDiagonalKeepsFreshIff` | src/creatures/creature.cpp:526-572 | a step to the south-east or south-west keeps it so if and only if the squares of the first and last row happen to look alike |
| `WalkCache.SafeIff` | src/creatures/creature.cpp:530-557 | a unit step keeps every cache in agreement with every map if and only if it is not a southern diagonal |
| `WalkCache.SlipShows` | src/game/movement/position.h:69-71 | as the distance is never negative, for every southern diagonal there is a map and a cache that goes wrong |
| `WalkCache.EventKeepsFreshIff` | src/creatures/creature.cpp:362-589 | any event leaves a cache that agreed with the map in agreement with the map as it is then, if and only if it is no southern diagonal that does harm and changes no watched square unnoticed by the handlers |
| `WalkCache.UnnoticedKeepsFreshIff` | src/creatures/creature.cpp:369-394 | of what the handlers let pass: exactly if no square in the window but the own one has opened or closed |
| `WalkCache.HarmlessIff` | src/creatures/creature.cpp:362-589 | an event is harmless for every cache and every map exactly if it is no southern diagonal, no update or removal of an item on a watched square whose types neither block nor are ground, and nothing that no handler is told of |
| `WalkCache.MissShows` | src/creatures/creature.cpp:369-394 | for every such update or removal there is a map and a cache that goes wrong: the square opens, and the cache still answers that it is closed |
| `WalkCache.EventKeepsFresh` | src/creatures/creature.cpp:362-589 | the flag of a run says exactly whether the event has spoilt a cache that was in agreement |
| `WalkCache.RunStaysFresh` | src/creatures/creature.cpp:362-589 | after every run of steps, teleports, moves of others, tile changes and changes of the creature itself the cache agrees with the map, as long as it has not been spoilt since the last full lookup |
| `WalkCache.Handle` | src/creatures/creature.cpp:362-589 | the handlers of the object do to its cache what the event does to the value |
| `WalkCache.Run` | src/creatures/creature.cpp:331-360 | a creature that appears, lives through any events and is then asked about any square answers what the map says of it by then, unless its cache was spoilt since the last full lookup |
| `Tile.Tile.HasProperty` | src/items/tile.cpp:45-59 | true exactly when some item on the tile has the property |
| `Tile.Tile.HasPropertyBeside` | src/items/tile.cpp:61-78 | true exactly when some item other than the given one has it |
| `Tile.Tile.SetTileFlags` | src/items/tile.cpp:1553-1609 | the flags of the item's properties are added, and no other |
| `Tile.Tile.ResetTileFlags` | src/items/tile.cpp:1611-1640 | a flag goes exactly when the item has the property and no other item does |
| `Tile.SetKeepsExact` | src/items/tile.cpp:1553-1609 | exact flags stay exact when an item comes and its flags are set |
| `Tile.ResetKeepsExact` | src/items/tile.cpp:1611-1640 | exact flags stay exact when an item goes and its flags are reset |
| `Tile.ReplaceKeepsExact` | src/items/tile.cpp:1064-1075 | they also do when the items have been exchanged before the flags are looked at |
| `Tile.Remainder` | src/items/tile.cpp:1144-1146 | the pieces left of a stack: the difference while enough are there, none when more are asked for |
| `Tile.SlotBefore` | src/items/tile.cpp:932-949 | an item that is always on top goes before the first of at least its order |
| `Tile.SlotBehind` | src/items/tile.cpp:1531-1543 | when loaded it goes behind the last of at most its order |
| `Tile.Tile.ThingsDistinct` | src/items/tile.h:198-204 | no thing has two numbers |
| `Tile.Tile.IndexOfFinds` | src/items/tile.cpp:1173-1223 | the thing with the number of a thing is that thing |
| `Tile.Tile.IndexInvertsThings` | src/items/tile.cpp:1173-1223 | on a tile split as it should be, every number from 0 to the count of things is the number of its thing |
| `Tile.Tile.LayoutFinds` | src/items/tile.cpp:1187-1223 | on such a tile every item of the vector is found where its type says |
| `Tile.Tile.GetThing` | src/items/tile.cpp:1360-1390 | the thing with that number over ground, top items, creatures and down items, or none |
| `Tile.Tile.GetThingIndex` | src/items/tile.cpp:1173-1223 | the number of the thing, or -1 exactly when it is not where it is looked for |
| `Tile.Tile.GetStackposOfItem` | src/items/tile.cpp:1282-1330 | the number of the item less the unseen creatures in front of it if that is below 10, and otherwise -1 |
| `Tile.Tile.AddThing` | src/items/tile.cpp:877-983 | the new stack, which the rows below state by numbers, and creatures, with what makes room for a ground, a splash or a field; flags stay exact, the split and the order are kept, and so are the single splash and field |
| `Tile.Tile.DownLies` | src/items/tile.cpp:977-980 | a new item that is not always on top gets the number right behind the creatures, so that it lies on top of the down items, and all other things keep their sequence |
| `Tile.Tile.FieldLies` | src/items/tile.cpp:953-980 | so does a magic field, and the first one that was there, if it can be replaced, is gone, all others in their sequence |
| `Tile.Tile.FieldStays` | src/items/tile.cpp:966-972 | if it cannot be replaced, the tile stays as it was |
| `Tile.Tile.TopLies` | src/items/tile.cpp:932-951 | an item that is always on top gets its number right before the first top item of at least its order, and all others keep their sequence |
| `Tile.Tile.SplashLies` | src/items/tile.cpp:915-951 | so does a splash, and the first splash that was on top is gone |
| `Tile.Tile.GroundLies` | src/items/tile.cpp:899-914 | a ground gets the number 0, in the place of the old one or before all other things |
| `Tile.Tile.LoadedLies` | src/items/tile.cpp:1517-1547 | a loaded item gets its number behind the top items of at most its order or right behind the creatures, all others keep their sequence, and a ground is only taken where there is none |
| `Tile.Tile.RemovedLies` | src/items/tile.cpp:1119-1164 | what is taken out leaves all other things in their sequence; a part of a stack of down items leaves all numbers as they are |
| `Tile.Tile.FlagsMean` | src/items/tile.cpp:1553-1609 | exact flags say of the types of the items on the tile which of them are solid, block the path, are fields or cannot be moved |
| `Tile.Tile.InternalAddThing` | src/items/tile.cpp:1502-1551 | the same for a thing that is loaded, which replaces nothing |
| `Tile.Tile.RemoveThing` | src/items/tile.cpp:1078-1165 | the new stack, creatures and piece count; flags, split, order, single splash and field are kept |
| `Tile.Tile.UpdateThing` | src/items/tile.cpp:985-1004 | only the item's type and count change, if it is found, and flags stay exact; split and order are kept exactly if its slot takes the new type |
| `Tile.Tile.ReplaceThing` | src/items/tile.cpp:1006-1076 | exactly the thing with that number is exchanged, unless it is a creature or not there; flags stay exact |
| `Tile.Tile.AddedKeepsShape` | src/items/tile.cpp:896-981 | adding an item keeps the split, the order, and at most one top splash and one magic field |
| `Tile.Tile.LoadedKeepsShape` | src/items/tile.cpp:1524-1548 | loading an item keeps the split and the order |
| `Tile.Tile.RemovedKeepsShape` | src/items/tile.cpp:1120-1163 | removing an item keeps all four |
| `Tile.OneChangedIff` | src/items/tile.cpp:985-1062 | if one item of a well-shaped vector changes its type or is exchanged, the vector stays split and sorted exactly if the slot takes the new layer and order |
| `Tile.Tile.ReplacedKeepsShapeIff` | src/items/tile.cpp:1036-1062 | replacing keeps the split and the order exactly if the new item is of the same layer and its order fits between those of its neighbours |
| `Tile.Tile.Run` | src/items/tile.cpp:877-1165 | after any run of additions, loadings, removals, updates and replacements each of the five cached flags is set exactly when an item with the property is there; runs in which what is updated and replaced fits its slot keep the split and the order |
| `ItemMoves.SumInsert` | src/items/tile.cpp:936-979 | an item put anywhere into a vector adds its pieces to the count of its kind, which is its type and what is set on it, and to no other |
| `ItemMoves.SumErase` | src/items/tile.cpp:1137-1162 | an item taken out takes its pieces from the count of its kind and from no other |
| `ItemMoves.AddedCount` | src/items/tile.cpp:891-981 | addThing adds the pieces of the item and releases those of one item at most: the ground, splash or magic field whose place it takes, or itself where a magic field stays |
| `ItemMoves.Put` | src/items/tile.cpp:877-983 | below the limit of queryAdd that is so on the tile itself, so that no item is dropped for want of room |
| `ItemMoves.Resize` | src/items/tile.cpp:985-1004 | an update of a stack changes the count of its kind by the difference |
| `ItemMoves.Take` | src/items/tile.cpp:1078-1163 | the pieces asked for go from a stack among the down items, and all of anything else |
| `ItemMoves.PlainEvictsNothing` | src/items/tile.cpp:891-981 | nothing is released for an item of a type that is no ground, and no splash or magic field in its layer |
| `ItemMoves.InternalAddItem` | src/game/game.cpp:1825-1897 | pieces on the tile afterwards, plus the remainder, plus those of the item that is released are pieces before plus those added, for every type with every set of attributes; the new stack, the one item that grew and by how much, which item is released, and how big the remainder is, are said of the tile before the call; stacks stay between 1 and 100 |
| `ItemMoves.RoomIs` | src/game/game.cpp:1857-1862 | there is room in another stack exactly if it is of the same type with the same attributes, and then what is missing to 100 |
| `ItemMoves.AttributesKeepApart` | src/items/item.cpp:225-257 | ten pieces with an attribute are laid beside a stack of twenty without |
| `ItemMoves.TopDownIs` | src/items/tile.cpp:317-323 | the item that a new stack may fill up is the down item with the number right behind the creatures |
| `ItemMoves.FillUp` | src/game/game.cpp:1857-1889 | the equal stack on top is filled up first; what is then left over is put down beside it or, if the second round is refused, is the remainder |
| `ItemMoves.AddRest` | src/game/game.cpp:1865-1882 | the second round splits nothing |
| `ItemMoves.FieldVanishes` | src/items/tile.cpp:955-973 | a magic field added where one lies that cannot be replaced: success is reported, and no piece has been added |
| `ItemMoves.InternalRemoveItem` | src/game/game.cpp:1909-1956 | it goes through exactly when queryRemove allows it, and then exactly the pieces that are taken are gone |
| `ItemMoves.TakenAsAsked` | src/items/tile.cpp:1119-1163 | of a stack exactly the pieces asked for are taken, if and only if it is not a part of one that is always on top or lies as ground: that goes as a whole |
| `ItemMoves.GroundVanishes` | src/items/tile.cpp:1098-1107 | one is asked for of a stack of two that lies as ground: both are gone |
| `ItemMoves.InternalMoveItem` | src/game/game.cpp:1603-1768 | it goes through exactly under the stated conditions; the pieces on either tile change by those taken, put down and released, and which item that is, is said of the tiles before the call; the new stacks and the one item that grew are stated; both tiles together keep the pieces of every type with every set of attributes if and only if nobody's place is taken and not a part was asked for of a stack that goes as a whole |
| `ItemMoves.NothingLostIff` | src/game/game.cpp:1714-1748 | what is put down makes up, for every kind, for what is taken and released only if they are the same pieces and nothing is released |
| `ItemMoves.Drop` | src/game/game.cpp:1719-1748 | what is moved fills up the stack on top and then makes a new one, together exactly the pieces moved; only the new one can take another item's place |
| `Coins.TotalWorthAppend` | src/items/item.cpp:2409-2424 | the worth of coins is the sum over the stacks |
| `Coins.SmallChangeWorth` | src/game/game.cpp:2128-2147 | the worth of the platinum and gold stacks that are made for any rest, with the 16-bit and 8-bit counts |
| `Coins.MadeWorthExactly` | src/game/game.cpp:2107-2148 | the coins made are worth the amount if and only if the 32-bit product of the crystals does not wrap, or wraps in the one harmless way |
| `Coins.FirstWrap` | src/game/game.cpp:2113-2114 | 4294970000 is the least amount of which the coins made are not worth it |
| `Coins.MadeStacks` | src/game/game.cpp:2113-2147 | for those amounts stacks are of 1 to 100 coins, with one stack of fewer than 100 platinum and one of fewer than 100 gold |
| `Coins.CoinsNeeded` | src/game/game.cpp:2088-2093 | the coins taken from the broken stack are no more than it has, and the change is less than one of them |
| `Coins.MoneyMapLists` | src/game/game.cpp:2033-2071 | the map lists every stack that is worth something once, cheapest first, and the sum of its worths is the money counted |
| `Coins.EqualWorthInOrder` | src/game/game.cpp:2033-2071 | stacks of one worth are listed in the order in which the purse yields them |
| `Coins.Residual` | src/game/game.cpp:2083-2098 | what is still owed when the walk ends is never zero, and the shortfall when the coins do not suffice |
| `Coins.ResidualReachesABreak` | src/game/game.cpp:2083-2098 | when the coins suffice the walk ends at a break, owing the price less the cheaper stacks before it |
| `Coins.PaidExactly` | src/game/game.cpp:2083-2102 | a payment takes at least the price and at most twice, and exactly the price unless the coins suffice and the bank can pay what the walk still owes |
| `Coins.ChargedTwice` | src/game/game.cpp:2083-2102 | ten gold coins and ten in the bank: a price of ten takes all of them |
| `Coins.Purse.AddMoney` | src/game/game.cpp:2107-2148 | the stacks of the amount are made in order, each put into the purse or on the floor, and all coins together gain their worth |
| `Coins.Purse.BreakStack` | src/game/game.cpp:2088-2093 | change and removal together lower all coins by exactly what was owed; of the stack as many coins go as cover it, and no other stack goes |
| `Coins.Purse.TakeCoins` | src/game/game.cpp:2083-2098 | the coins fall by exactly the price if they suffice, and are all gone otherwise; the cheaper stacks go whole, of the next one as many coins as cover what is owed, and no other stack changes |
| `Coins.Purse.RemoveMoney` | src/game/game.cpp:2025-2105 | it fails, changing nothing, exactly when money is short; otherwise coins and bank change as stated, for use with and without the bank, and the stacks that go, break and stay are named |
| `Market.Fee` | src/game/game.cpp:7432-7434 | the one per cent between its bounds: at least 20 and at most 100000 |
| `Market.Lookup` | src/io/iomarket.cpp:223-229 | the first row that was created at that time and whose id has the counter in its low 16 bits, or none exactly if no row is |
| `Market.TakenIs` | src/io/iomarket.cpp:260-272 | the row loses what was taken, or goes if nothing is left; all others stay as they are, in their order |
| `Market.EscrowTaken` | src/io/iomarket.cpp:260-272 | an accepted part takes its price from what open offers hold |
| `Market.WrapMakesMoney` | src/game/game.cpp:7486-7492 | the charge for an offer to buy falls short of what it will hold exactly when the 32-bit product wraps, and so does what an acceptance pays out |
| `Market.OfferMakesMoneyIff` | src/game/game.cpp:7486-7492 | a new offer to buy makes money for its owner exactly if it holds more than the charge and what the bank is charged on top, which takes a product that wraps |
| `Market.CheapOffer` | src/game/game.cpp:7486-7487 | 64 pieces at 2^26 each: the product is 0, and the offer holds 2^32 |
| `Market.Market.RemoveMoney` | src/game/game.cpp:2025-2105 | any payment that the purse of coins allows |
| `Market.Market.CreateOffer` | src/game/game.cpp:7377-7512 | created exactly under the stated conditions; the new row, the account, the floor and the change of all money |
| `Market.Market.CancelOffer` | src/game/game.cpp:7514-7587 | the row that goes is one of that time and counter and of this owner, whose bank gets what an offer to buy still holds; all money stays the same |
| `Market.Market.AcceptOffer` | src/game/game.cpp:7589-7837 | accepted exactly under the stated conditions; the row that changes is one of that time and counter; rows, accounts and the exact change of all money for either kind of offer |
| `Market.Market.ProcessExpiredOffers` | src/io/iomarket.cpp:120-192 | the rows' offers go, each refund reaches its owner once, and all money changes by the excess of the refunds |
| `Market.RemainingNotNamed` | src/io/iomarket.cpp:126-129 | exactly the offers that no row names remain |
| `Market.RefundedIsDue` | src/io/iomarket.cpp:181-190 | of each account the refunds raise the bank by what the rows of its owner held when they were read, for each offer that is still there once, and change nothing else |
| `Market.ExcessIffTouched` | src/io/iomarket.cpp:120-192 | refunds by rows that were read earlier make money exactly when one of their offers to buy was partly accepted since |
| `Market.StaleRefund` | src/io/iomarket.cpp:181-190 | an offer for ten of which five have been delivered since its row was read is refunded in full |
| `Market.CurrentRowsBreakEven` | src/io/iomarket.cpp:181-190 | rows that are what the table says are refunded with what their offers held |
| `Market.SnapshotExpired` | src/io/iomarket.cpp:194-200 | the rows that the query reads are what the table says |
| `Market.SnapshotTaken` | src/io/iomarket.cpp:260-272 | rows that wait stay true, but for the amount, while parts of offers are accepted or offers go |
| `Market.SnapshotRemaining` | src/io/iomarket.cpp:120-192 | so they do while the refunds of others are made |
| `Market.StepMakesMoneyIff` | src/io/iomarket.cpp:120-200 | any step makes money exactly if it refunds a row that is out of date |
| `Market.RunMakesMoneyIff` | src/io/iomarket.cpp:120-200 | a run without such a refund never makes money, and one without new offers makes some exactly if there was such a refund |
| `Market.Market.Run` | src/game/game.cpp:7377-7837 | over any run of requests in which no new offer to buy wraps, with queries of the database thread and refunds at any time in between: the books follow each other as stated, and money is made exactly by refunds that are out of date |
| `Market.DeliveredAndRefunded` | src/io/iomarket.cpp:120-200 | two players with 2000 between them: an offer of 1000 is read as expired, half delivered and then refunded in full, and they have 2480 |
| `MarketItems.WalkFindsAll` | src/game/game.cpp:8268-8307 | the search over nested containers comes past every item that can be sold exactly once |
| `MarketItems.GoodsIff` | src/game/game.cpp:8278-8297 | the goods are exactly what lies, at any depth, in the containers, has the ware id, may be sold, and if it is a container has its type's size and is empty |
| `MarketItems.WalkByLevels` | src/game/game.cpp:8274-8283 | the search goes level by level: what lies in the containers at hand, then what lies in those inside them |
| `MarketItems.InOrder` | src/game/game.cpp:8278-8299 | within one container goods are found, and containers queued, in the order in which they lie there |
| `MarketItems.GetMarketItemList` | src/game/game.cpp:8268-8307 | the shortest start of the search that is enough, the last found first, or nothing exactly if there is not enough; the 16-bit counter never wraps |
| `MarketItems.MinusStock` | src/game/game.cpp:7668-7683 | taking pieces of a good lowers what can be sold by exactly as many, unless it empties a container of the ware, which can then be sold itself |
| `MarketItems.MinusPieces` | src/game/game.cpp:7668-7683 | it takes exactly those pieces from the depot, and none of any other ware, whatever the ware is |
| `MarketItems.RemoveStacks` | src/game/game.cpp:7668-7678 | exactly the amount is taken, front first, all of each stack but the last that is needed; the depot has as many pieces fewer of the ware and as many as before of any other, and all that is no good of the ware stays as it was |
| `MarketItems.RemoveSingles` | src/game/game.cpp:7679-7683 | so it is when every item of the list is removed as a whole |
| `MarketItems.Sell` | src/game/game.cpp:7663-7683 | for amounts from 1 to 64000 the search finds enough exactly if the depot has enough, what it finds can be taken, and then exactly the amount leaves the depot and nothing else changes |
| `MarketItems.EmptiedBagIsGoods` | src/game/game.cpp:8279-8284 | a bag in a bag, both of the ware: when the inner one is sold, the outer one is empty and the stock is what it was |
| `MarketItems.SinglesAreExact` | src/game/game.cpp:7679-7683 | of goods that come one by one the list has exactly the amount |
| `MarketItems.DeliverStacks` | src/game/game.cpp:7696-7706 | exactly the amount is made, in full stacks of 100 and one that may be smaller |
| `MarketItems.DeliverSingles` | src/game/game.cpp:7708-7725 | the amount in single items |
| `Deals.Deliver` | src/game/game.cpp:7589-7837 | an accepted offer to buy as a whole, done exactly under the stated conditions: the depot loses and the inbox gains exactly the pieces that are paid for, or nothing happens |
| `Trade.StartIs` | src/game/game.cpp:3961-3992 | the item goes on offer in the seat of the player, who has offered now; a partner who was in no trade is asked for his, any other keeps his seat, and no other seat changes |
| `Trade.CloseIs` | src/game/game.cpp:4192-4234 | both seats are emptied, both items go off the list, and no other seat or item changes; nothing changes in a trade that is being carried out |
| `Trade.AcceptIs` | src/game/game.cpp:3994-4024 | a player who has been asked or has offered, and is reachable, has agreed afterwards, and nothing else changes; if his partner has agreed before, both seats are empty and what they offered is off the list |
| `Trade.ExchangesIff` | src/game/game.cpp:4026-4083 | the items change hands exactly if he who agrees last has offered, so has his partner, who has agreed before, and nothing stands in the way |
| `Trade.BothAgree` | src/game/game.cpp:3994-4093 | two who have offered agree one after the other, with nothing in the way: the first agreement is kept, the second carries the trade out, and both seats are empty |
| `Trade.CloseKeeps` | src/game/game.cpp:4192-4234 | closing keeps partnership symmetric and the list exact, and empties both seats unless the trade is being carried out |
| `Trade.StartKeeps` | src/game/game.cpp:3961-3992 | so does starting or answering an offer |
| `Trade.AgreeKeeps` | src/game/game.cpp:4001-4015 | so does agreeing |
| `Trade.BeginKeeps` | src/game/game.cpp:4026-4039 | so does the beginning of a transfer, with both items off the list |
| `Trade.FinishKeeps` | src/game/game.cpp:4083-4091 | so does the end of a transfer |
| `Trade.CloseAllSpares` | src/game/game.cpp:4194-4197 | whatever is closed meanwhile, a trade that is being carried out stays as it is |
| `Trade.AcceptIsQuiet` | src/game/game.cpp:3994-4093 | after an agreement no trade is half carried out, and nothing new is on offer |
| `Trade.Game.AlreadyTraded` | src/game/game.cpp:3912-3946 | true exactly when the item is on offer, inside an item on offer, or has one inside |
| `Trade.Game.PlayerRequestTrade` | src/game/game.cpp:3842-3959 | an offer starts exactly under the stated conditions, and no item on offer is inside another |
| `Trade.Game.InternalStartTrade` | src/game/game.cpp:3961-3992 | it starts exactly when neither is in another trade, and then both seats and the list are as stated |
| `Trade.Game.PlayerAcceptTrade` | src/game/game.cpp:3994-4093 | the new seats and list, and the trade is reported as done exactly when both items are offered and nothing stands in the way of either move |
| `Trade.Game.InternalCloseTrade` | src/game/game.cpp:4192-4234 | both seats are emptied and their items leave the list with their references, unless the trade is being carried out |
| `Trade.Game.Run` | src/game/game.cpp:3842-4234 | over any run of requests partners are each other's, the list is exact, each item on it has its one reference and none is inside another |
| `CreatureChecks.EntriesUpdate` | src/game/game.cpp:5280-5282 | changing one list changes the entries of all lists by the difference |
| `CreatureChecks.SwapRemovedEntries` | src/game/game.cpp:5310-5315 | moving the last element into the gap removes exactly that entry |
| `CreatureChecks.Game.AddCreatureCheck` | src/game/game.cpp:5271-5283 | the creature is active and, if it was in no list, at the end of one |
| `CreatureChecks.Game.RemoveCreatureCheck` | src/game/game.cpp:5285-5290 | a creature in a list is only marked |
| `CreatureChecks.SortedTake` | src/game/game.cpp:5310-5315 | one swap-remove: nobody listed is lost, and someone is left behind the end by it exactly if a newcomer takes the place while another is still to come |
| `CreatureChecks.GoesWithoutIff` | src/game/game.cpp:5298-5317 | of those listed at the start someone gets no turn and is not taken out if and only if some turn of the walk takes out a creature while a newcomer is in the list and another creature is still to come |
| `CreatureChecks.ThirdGoesWithout` | src/game/game.cpp:5310-5315 | of three, the first enters a newcomer and the second is marked: the newcomer takes its place and the third goes without |
| `CreatureChecks.LastCallCounts` | src/game/game.cpp:5271-5290 | of the calls made while a creature thinks the last one about a creature counts: it is to think on, or to stop if it is listed by then |
| `CreatureChecks.Game.OnThink` | src/game/game.cpp:5300-5308 | after the calls exactly those are listed that were or were added, each marked as its calls say, and this list has only grown at its end |
| `CreatureChecks.Game.CheckCreatures` | src/game/game.cpp:5292-5320 | the walk ends; those that thought are the front of the list, each once; the places it came past are a walk as above, so that it says exactly when someone goes without; with none coming in, the list is exactly those that thought; whoever a thinking creature adds is listed afterwards, unless he was taken out |
| `CreatureChecks.Game.FlaggedIffListedOnce` | src/creatures/creature.h:590-591 | a creature is flagged exactly when it is at one place of one list |
| `CreatureChecks.Game.Run` | src/game/game.cpp:5271-5320 | flags, lists and references agree after any interleaving of additions, removals and walks |
| `ItemStream.LowestFirst` | src/io/fileloader.h:164-168 | the k-th byte of a number is its digit of 256 to the k |
| `ItemStream.StringOnDisk` | src/io/fileloader.h:170-179 | a string is its length in two bytes, lowest first, and its characters, or two zeros if it is longer than 65535 |
| `ItemStream.CustomOnDisk` | src/items/item.h:333-336 | a custom attribute is a byte from 1 to 4 and the string, the eight bytes of a number, or a byte |
| `ItemStream.AttributesOnDisk` | src/items/item.cpp:768-912 | the codes stand in one fixed order, each with its value or not at all |
| `ItemStream.NumberOnDisk` | src/items/item.cpp:840-906 | of ten fields the code, the width, and that it is written exactly if the field is set |
| `ItemStream.LineOnDisk` | src/items/item.cpp:790-888 | of seven strings the code, and that it is written exactly if it is set; text, writer and description not if they are empty |
| `ItemStream.SmallOnDisk` | src/items/item.cpp:771-788 | sub type, charges and action id: when they are written, and their bytes |
| `ItemStream.TimesOnDisk` | src/items/item.cpp:796-823 | date, duration and decay state: when they are written, and their bytes |
| `ItemStream.TableOnDisk` | src/items/item.cpp:890-901 | the custom attributes: their number in eight bytes, and each |
| `ItemStream.ReadOnly` | src/items/item.cpp:414-747 | the codes that are only read, where they go or how many bytes they skip, and those that break the stream |
| `ItemStream.ItemOnDisk` | src/io/iomapserialize.cpp:216-234 | an item is its id in two bytes, its attributes, for a container the code 23, the number of its items in four bytes and these, and a zero |
| `ItemStream.TopIsLast` | src/io/iomapserialize.cpp:225-230 | what lies on top of a container is written last |
| `ItemStream.NumberOfBytes` | src/io/fileloader.h:102-111 | a number that fits its width is read back from its bytes |
| `ItemStream.ReadWrittenString` | src/io/fileloader.h:113-130 | a string that is not too long is read back, and reading ends behind it |
| `ItemStream.ReadWrittenCustom` | src/items/item.h:333-388 | a custom attribute that is not blank is read back |
| `ItemStream.ReadWrittenValue` | src/items/item.cpp:414-747 | each value is read back as far as its width carries it |
| `ItemStream.AttributesComeBack` | src/items/item.cpp:749-912 | reading what serializeAttr wrote goes on right behind it, with the attributes reloaded |
| `ItemStream.LoadUndoesSave` | src/io/iomapserialize.cpp:115-164 | loading a saved item, wherever it stands, gives the item with its contents in order and consumes exactly its bytes |
| `ItemStream.BackIsReloaded` | src/items/item.cpp:414-912 | what comes back in each field, by its one code |
| `ItemStream.StorableIff` | src/items/item.cpp:414-912 | a field comes back if and only if its content is storable for the type |
| `ItemStream.AttributesRestoredIff` | src/items/item.cpp:414-912 | all attributes come back if and only if every field is storable |
| `ItemStream.CustomBackIff` | src/items/item.h:333-388 | custom attributes come back if and only if their keys are in lower case, each once, and no string is too long |
| `ItemStream.MarksAreLost` | src/items/item.cpp:768-912 | owner, corpse owner, door id and unique id of any item do not come back |
| `ItemStream.UsedUpIsRenewed` | src/items/item.cpp:775-779 | an item of a type with five charges that has none left comes back with five |
| `ItemStream.RoundTrip` | src/io/iomapserialize.cpp:115-234 | for any nested item and any suffix: the item comes back, running decay pending, if and only if every field in it is storable, and the suffix is left unread in any case |
| `ItemStream.PropWriteStream.Write` | src/io/fileloader.h:164-168 | the bytes of the number are appended, lowest first |
| `ItemStream.PropWriteStream.WriteString` | src/io/fileloader.h:170-179 | length and characters are appended, of a string that is too long only a zero length |
| `ItemStream.PropStream.Read` | src/io/fileloader.h:102-111 | the number at the cursor, which moves on, or nothing |
| `ItemStream.PropStream.ReadChars` | src/io/fileloader.h:113-130 | the string at the cursor, or nothing |
| `ItemStream.PropStream.Unserialize` | src/items/item.h:338-388 | the custom attribute at the cursor, or nothing |
| `ItemStream.SerializeAttr` | src/items/item.cpp:768-912 | the codes and values of the attributes are appended, in order |
| `ItemStream.SaveItem` | src/io/iomapserialize.cpp:216-234 | id, attributes, contents from the last to the first, and the end mark are appended |
| `ItemStream.ReadAttr` | src/items/item.cpp:414-747 | one attribute is read and applied, or the contents of a container begin, or the stream is broken |
| `ItemStream.UnserializeAttr` | src/items/item.cpp:749-761 | the loop over the codes ends as the specification of the attributes says |
| `ItemStream.LoadItem` | src/io/iomapserialize.cpp:133-164 | the item read is put in front of what its parent holds, or the stream is broken |
| `ItemStream.LoadContainer` | src/io/iomapserialize.cpp:115-131 | the contents are read, the last written first, and the end mark behind them |

## Left out

* Databases, network messages, scripts, effects, spectators and logs; rows, offers and hooks are values or arguments.
* Combat, speed, regeneration, path finding, houses, beds, doors, mailboxes, teleports, trash holders and store coins.
* `Tile`: the flags for floor changes, teleports, beds, depots, mailboxes, trash holders and hangable things, which are
  reset without a look at other items; parents and reference counts; numbers of things beyond 31 bits.
* `Tile`: sub types other than the piece count, and that an object keeps its class when its type is changed.
* `ItemMoves`: exchange of hangable items, destinations on other floors, browse fields, quivers and containers.
* `ItemMoves`: custom attributes, which `Item::equals` compares by the address of their table (src/items/item.cpp:225-257);
  what is set on an item is one set here, and items are equal if their sets are.
* `ItemForest`: open containers and loot containers, the reward chest, the store inbox, inventory slots that are
  taken, failing queries, and ids beyond 31 bits.
* `ItemStream`: fixed items that are found on the tile again, `startDecaying`, the registry of unique ids, and the
  attributes of depots, doors, beds and teleports, which are skipped as the base class skips them.
* `ItemStream`: items are values, so that aliasing of item objects is not captured; custom attributes are a list in
  the order in which the map yields them, and that of a rebuilt map is the order of insertion.
* `WalkCache`: what `Tile::queryAdd` asks about a creature is not taken apart; a `World` is the set of squares where it
  says yes, other creatures and the state of the creature itself included, and may change with every event.
* `Coins`: coins that merge into stacks of the purse when change is given; by `Coins.CoinsNeeded` the change is of
  smaller coins than the broken stack, so that it never merges into that one.
* `Coins`: items that cannot be removed, and a payer that is not there.
* `Market`: the fee is the value of a floating-point product and is left open; an offer to sell is created whether or
  not the goods were found.
* `MarketItems`: a depot is a tree of values, and a removal yields the next one, so that aliasing is not captured.
* `Trade`: items are not moved; that the second item may fail to move after the first has moved is not modelled.
* `Trade`: what an offered container holds does not change while it is offered.
* `CreatureChecks`: references to creatures other than those of the lists.
- Coins.Purse.AddMoney: every stack lands whole in the purse or on the floor; coins that merge there, and those that are lost when the floor has a thousand items, are not modelled.
- Market.Market.AcceptOffer: `goods` is an argument; `Deals.Deliver` ties it to the depot for offers to buy, and of the goods of an offer to sell nothing is said.
- Deals.Deliver: the inbox takes all that is put into it.
- Trade.Game.PlayerAcceptTrade: whether either item could be moved is an argument, and no item changes its place.
- WalkCache.StepKeepsFresh: states nothing about squares whose coordinates would be below 0 or above 65535, for which the window wraps.
- ItemStream.RoundTrip: supposes that no custom attribute is blank, for which the rest of the stream could not be read; src/lua/scripts/luascript.cpp:7542-7557 sets only the other kinds.
* `ItemStream`: the marks of items as loot to be tracked and as loaded from the map, which are no attributes.
