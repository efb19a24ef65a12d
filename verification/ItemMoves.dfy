/**
 Putting items on tiles, taking them off, and moving them from tile to tile (`Game::internalAddItem`,
 `internalRemoveItem` and `internalMoveItem` in src/game/game.cpp, `Tile::queryAdd`, `queryMaxCount` and `queryRemove`
 in src/items/tile.cpp), on tiles that lead nowhere else.

 Whatever is split or merged on the way, pieces are not made, every stack stays between 1 and 100, and pieces are lost
 in two ways only: an item takes the place of another (or is dropped, where a magic field stays), or a part is taken
 off a stack that is always on top or lies as ground, which is then removed as a whole.
 */
module ItemMoves {
  import opened Basics
  import Tile

  const MAX_STACK := 100
  const MAX_TILE_ITEMS := 0x3E8

  // ----- Counting ------------------------------------------------------------------------------

  /** What makes two items equal: the item type, by its id, and what is set on the items. */
  datatype Kind = Kind(id: nat, attributes: set<nat>)

  function KindOf(x: Tile.Item): Kind
    reads x`itemType
  {
    Kind(x.itemType.id, x.attributes)
  }

  /** So many pieces of a kind. */
  datatype Pile = Pile(kind: Kind, pieces: nat)

  function PileOf(x: Tile.Item): Pile
    reads x`itemType, x`count
  {
    Pile(KindOf(x), if x.itemType.stackable then x.count else 1)
  }

  function Piles(items: seq<Tile.Item>): (r: seq<Pile>)
    reads items`itemType, items`count
    ensures |r| == |items| && forall k | 0 <= k < |items| :: r[k] == PileOf(items[k])
  {
    if items == [] then [] else [PileOf(items[0])] + Piles(items[1..])
  }

  function Sum(piles: seq<Pile>, kind: Kind): nat {
    if piles == [] then 0 else (if piles[0].kind == kind then piles[0].pieces else 0) + Sum(piles[1..], kind)
  }

  /** How many pieces of that kind are among the items. */
  function CountIn(items: seq<Tile.Item>, kind: Kind): nat
    reads items`itemType, items`count
  {
    Sum(Piles(items), kind)
  }

  /** The pieces of a pile, if it is of that kind. */
  function Of(pile: Pile, kind: Kind): nat {
    if pile.kind == kind then pile.pieces else 0
  }

  lemma {:induction false} SumSplit(a: seq<Pile>, b: seq<Pile>, kind: Kind)
    ensures Sum(a + b, kind) == Sum(a, kind) + Sum(b, kind)
    decreases a
  {
    if a == [] {
      assert a + b == b;
    } else {
      assert (a + b)[1..] == a[1..] + b;
      SumSplit(a[1..], b, kind);
    }
  }

  lemma {:induction false} SumOne(pile: Pile, kind: Kind)
    ensures Sum([pile], kind) == Of(pile, kind)
  {
    assert Sum([], kind) == 0;
  }

  lemma {:induction false} SumInsert(piles: seq<Pile>, k: nat, pile: Pile, kind: Kind)
    requires k <= |piles|
    ensures Sum(Tile.Insert(piles, k, pile), kind) == Sum(piles, kind) + Of(pile, kind)
  {
    SumSplit(piles[..k] + [pile], piles[k..], kind);
    SumSplit(piles[..k], [pile], kind);
    SumSplit(piles[..k], piles[k..], kind);
    SumOne(pile, kind);
    assert piles == piles[..k] + piles[k..];
  }

  lemma {:induction false} SumErase(piles: seq<Pile>, k: nat, kind: Kind)
    requires k < |piles|
    ensures Sum(Erase(piles, k), kind) == Sum(piles, kind) - Of(piles[k], kind)
  {
    SumInsert(Erase(piles, k), k, piles[k], kind);
    assert Tile.Insert(Erase(piles, k), k, piles[k]) == piles;
  }

  lemma {:induction false} SumUpdate(piles: seq<Pile>, k: nat, pile: Pile, kind: Kind)
    requires k < |piles|
    ensures Sum(piles[k := pile], kind) == Sum(piles, kind) - Of(piles[k], kind) + Of(pile, kind)
  {
    SumErase(piles, k, kind);
    SumErase(piles[k := pile], k, kind);
    assert Erase(piles[k := pile], k) == Erase(piles, k);
  }

  lemma {:induction false} CountInsert(items: seq<Tile.Item>, k: nat, x: Tile.Item, kind: Kind)
    requires k <= |items|
    ensures CountIn(Tile.Insert(items, k, x), kind) == CountIn(items, kind) + Of(PileOf(x), kind)
  {
    SumInsert(Piles(items), k, PileOf(x), kind);
    assert Piles(Tile.Insert(items, k, x)) == Tile.Insert(Piles(items), k, PileOf(x));
  }

  lemma {:induction false} CountErase(items: seq<Tile.Item>, k: nat, kind: Kind)
    requires k < |items|
    ensures CountIn(Erase(items, k), kind) == CountIn(items, kind) - Of(PileOf(items[k]), kind)
  {
    SumErase(Piles(items), k, kind);
    assert Piles(Erase(items, k)) == Erase(Piles(items), k);
  }

  // ----- The pieces on a tile ------------------------------------------------------------------

  /** The pieces of one item, if there is one and it is of that kind. */
  function PiecesOf(x: Tile.Item?, kind: Kind): nat
    reads (if x == null then {} else {x})`itemType, (if x == null then {} else {x})`count
  {
    if x == null then 0 else Of(PileOf(x), kind)
  }

  /** How many pieces of that kind are in the items and the ground of a tile. */
  function CountStack(s: Tile.Stack, kind: Kind): nat
    reads s.items`itemType, s.items`count
    reads (if s.ground == null then {} else {s.ground})`itemType, (if s.ground == null then {} else {s.ground})`count
  {
    CountIn(s.items, kind) + PiecesOf(s.ground, kind)
  }

  ghost function CountOn(tile: Tile.Tile, kind: Kind): nat
    reads tile`ground, tile`items, tile`downItemCount, tile.All()`itemType, tile.All()`count
  {
    CountStack(tile.Now(), kind)
  }

  /** `Item::equals`, for items that are not the same object. */
  predicate Equals(x: Tile.Item, y: Tile.Item)
    reads x`itemType, y`itemType
  {
    x.itemType == y.itemType && x.attributes == y.attributes
  }

  predicate Stack(x: Tile.Item)
    reads x`itemType, x`count
  {
    x.itemType.stackable ==> 1 <= x.count <= MAX_STACK
  }

  ghost predicate Stacked(items: set<Tile.Item>)
    reads items`itemType, items`count
  {
    forall x | x in items :: Stack(x)
  }

  ghost predicate Sound(tile: Tile.Tile)
    reads tile, tile.All()`itemType, tile.All()`count
  {
    tile.Valid() && tile.Layout() && Stacked(tile.All())
  }

  /** What `addThing` releases: the ground, splash or magic field whose place the item takes, or the item itself if
      there is a magic field that stays. */
  function Evicted(s: Tile.Stack, item: Tile.Item): (x: Tile.Item?)
    requires s.down <= |s.items|
    reads s.items`itemType, item`itemType
    ensures x != null ==> x == item || x == s.ground || x in s.items
  {
    var t := item.itemType;
    if t.isGroundTile then s.ground
    else if t.alwaysOnTop then
      var k := if t.isSplash then Tile.FirstSplash(s.items, s.down) else |s.items|;
      if k < |s.items| then s.items[k] else null
    else
      var k := if t.isMagicField then Tile.FirstField(s.items, 0, s.down) else s.down;
      if k == s.down then null
      else if s.items[k].itemType.canBeReplaced then s.items[k] else item
  }

  /** Two stacks of one type evict the same: no stack is a magic field. */
  lemma {:induction false} StacksEvictAlike(s: Tile.Stack, x: Tile.Item, y: Tile.Item)
    requires s.down <= |s.items| && x.itemType == y.itemType && x.itemType.stackable
    ensures Evicted(s, x) == Evicted(s, y)
  {
  }

  lemma {:induction false} AddedCount(tile: Tile.Tile, item: Tile.Item, kind: Kind)
    requires tile.Valid() && tile.Layout() && |tile.items| < MAX_TILE_ITEMS
    ensures CountStack(tile.Added(item), kind) + PiecesOf(Evicted(tile.Now(), item), kind)
         == CountStack(tile.Now(), kind) + Of(PileOf(item), kind)
  {
    hide CountIn, PileOf, Of, Distinct, Tile.Insert, Erase;
    var items, down, t := tile.items, tile.downItemCount, item.itemType;
    if t.isGroundTile {
    } else if t.alwaysOnTop {
      var k := if t.isSplash then Tile.FirstSplash(items, down) else |items|;
      var rest := if k < |items| then Erase(items, k) else items;
      if k < |items| {
        CountErase(items, k, kind);
      }
      CountInsert(rest, Tile.SlotBefore(rest, down, t.alwaysOnTopOrder), item, kind);
    } else {
      var k := if t.isMagicField then Tile.FirstField(items, 0, down) else down;
      if k < down {
        CountErase(items, k, kind);
        CountFront(Erase(items, k), item, kind);
      } else {
        CountFront(items, item, kind);
      }
    }
  }

  lemma {:induction false} CountFront(items: seq<Tile.Item>, x: Tile.Item, kind: Kind)
    ensures CountIn([x] + items, kind) == CountIn(items, kind) + Of(PileOf(x), kind)
  {
    CountInsert(items, 0, x, kind);
    assert Tile.Insert(items, 0, x) == [x] + items;
  }

  lemma {:induction false} RemovedCount(tile: Tile.Tile, item: Tile.Item, count: nat, kind: Kind)
    requires tile.Valid() && tile.Layout() && item in tile.All() && !tile.Partial(item, count)
    ensures CountStack(tile.Removed(item, count), kind) + Of(PileOf(item), kind) == CountStack(tile.Now(), kind)
  {
    if item != tile.ground {
      var k :| 0 <= k < |tile.items| && tile.items[k] == item;
      hide CountIn, PileOf, Of, Distinct, Erase, Tile.LayoutOf;
      tile.LayoutFinds(k);
      tile.PlaceOf(k);
      CountErase(tile.items, k, kind);
    }
  }

  // ----- On one tile ---------------------------------------------------------------------------

  /** getTopDownItem, the item that a tile's queryDestination points out. */
  function TopDownItem(tile: Tile.Tile): (x: Tile.Item?)
    requires tile.downItemCount <= |tile.items|
    reads tile
    ensures x != null ==> x in tile.items
  {
    if tile.downItemCount == 0 then null else tile.items[0]
  }

  /** addThing of an item on a tile with room. */
  method Put(tile: Tile.Tile, item: Tile.Item) returns (ghost evicted: Tile.Item?)
    requires Sound(tile) && |tile.items| < MAX_TILE_ITEMS && tile.Absent(Tile.ItemThing(item)) && Stack(item)
    modifies tile, tile.items`count
    ensures Sound(tile) && evicted == old(Evicted(tile.Now(), item)) && tile.Now() == old(tile.Added(item))
    ensures forall kind :: CountOn(tile, kind) + PiecesOf(evicted, kind)
                        == old(CountOn(tile, kind)) + Of(PileOf(item), kind)
    ensures tile.All() <= old(tile.All()) + {item} && (evicted != null ==> PileOf(evicted).pieces >= 1)
    ensures forall x | x in old(tile.All()) :: x.count == old(x.count)
    ensures old(tile.FlagsExact()) ==> tile.FlagsExact()
  {
    hide Tile.Exact, Tile.LayoutOf, Distinct, Tile.Tile.Added, Tile.Tile.Single, Tile.Tile.FlagsExact, Piles, Sum,
      PileOf, Of, Evicted;
    ghost var all, after := tile.All(), tile.Added(item);
    ghost var piles := Piles(after.items);
    evicted := Evicted(tile.Now(), item);
    if evicted != null {
      HasPieces(evicted);
    }
    AddedCounts(tile, item);
    tile.OnlyNamed(item, 0);
    tile.AddThing(Tile.ItemThing(item));
    assert tile.Now() == after;
    assert forall x | x in all :: PileOf(x) == old(PileOf(x));
    assert Piles(after.items) == piles by {
      assert forall k | 0 <= k < |piles| :: after.items[k] == item || after.items[k] in all;
    }
  }

  lemma {:induction false} AddedCounts(tile: Tile.Tile, item: Tile.Item)
    requires tile.Valid() && tile.Layout() && |tile.items| < MAX_TILE_ITEMS
    ensures forall kind :: CountStack(tile.Added(item), kind) + PiecesOf(Evicted(tile.Now(), item), kind)
                        == CountOn(tile, kind) + Of(PileOf(item), kind)
  {
    forall kind
      ensures CountStack(tile.Added(item), kind) + PiecesOf(Evicted(tile.Now(), item), kind)
           == CountOn(tile, kind) + Of(PileOf(item), kind)
    {
      AddedCount(tile, item, kind);
    }
  }

  lemma {:induction false} HasPieces(x: Tile.Item)
    requires Stack(x)
    ensures PileOf(x).pieces >= 1
  {
  }

  /** updateThing with the item's own type: a stack grows or shrinks. */
  method Resize(tile: Tile.Tile, item: Tile.Item, count: nat)
    requires Sound(tile) && item in tile.items && item.itemType.stackable && 1 <= count <= MAX_STACK
    modifies tile`flags, item`itemType, item`count
    ensures Sound(tile) && item.itemType == old(item.itemType) && item.count == count
    ensures forall kind :: CountOn(tile, kind) + Of(old(PileOf(item)), kind)
                        == old(CountOn(tile, kind)) + Of(PileOf(item), kind)
    ensures old(tile.FlagsExact()) ==> tile.FlagsExact()
  {
    hide Piles, Sum, Of, Tile.LayoutOf, Tile.Tile.FlagsExact, Tile.Tile.Findable, Tile.Tile.SlotOf, Tile.Tile.SlotTakes;
    ghost var k :| 0 <= k < |tile.items| && tile.items[k] == item;
    ghost var piles, one, items, all := Piles(tile.items), PileOf(item), tile.items, tile.All();
    Tile.OnlyThere(items, k);
    tile.LayoutFinds(k);
    tile.UpdateThing(Tile.ItemThing(item), item.itemType, count);
    assert tile.All() == all && tile.items == items;
    assert forall x | x in items :: x.itemType == old(x.itemType);
    assert tile.Layout();
    assert forall i | 0 <= i < |items| && i != k :: piles[i] == PileOf(items[i]);
    NowPiles(items, k, piles);
    forall kind
      ensures CountIn(tile.items, kind) + Of(one, kind) == Sum(piles, kind) + Of(PileOf(item), kind)
    {
      SumUpdate(piles, k, PileOf(item), kind);
    }
  }

  /** The piles of a vector in which one item has changed. */
  lemma {:induction false} NowPiles(items: seq<Tile.Item>, k: nat, piles: seq<Pile>)
    requires k < |items| == |piles| && Distinct(items)
    requires forall i | 0 <= i < |items| && i != k :: piles[i] == PileOf(items[i])
    ensures Piles(items) == piles[k := PileOf(items[k])]
  {
  }

  /** What `removeThing` takes away: the pieces asked for of a stack among the down items, all of anything else. */
  ghost function Taken(tile: Tile.Tile, item: Tile.Item, count: nat): nat
    reads tile`ground, item`itemType, item`count
  {
    if tile.Partial(item, count) then count else PileOf(item).pieces
  }

  /** removeThing of all of an item. */
  method TakeWhole(tile: Tile.Tile, item: Tile.Item, count: nat)
    requires Sound(tile) && item in tile.All() && !tile.Partial(item, count)
    modifies tile, item`count
    ensures Sound(tile) && item.count == old(item.count) && tile.Now() == old(tile.Removed(item, count))
    ensures forall kind :: CountOn(tile, kind) + Of(PileOf(item), kind) == old(CountOn(tile, kind))
    ensures tile.All() == old(tile.All()) - {item} && |tile.items| <= |old(tile.items)|
    ensures tile.ground == null || tile.ground == old(tile.ground)
    ensures old(tile.FlagsExact()) ==> tile.FlagsExact()
  {
    hide PileOf, CountIn, Of, Stack, Erase, Tile.Remainder, Tile.Tile.Layout, Tile.Tile.Single,
      Tile.Tile.FlagsExact, Tile.Tile.Removed, Tile.Tile.Partial;
    ghost var all, after := tile.All(), tile.Removed(item, count);
    forall kind
      ensures CountStack(after, kind) + Of(PileOf(item), kind) == CountOn(tile, kind)
    {
      RemovedCount(tile, item, count, kind);
    }
    RemovedAll(tile, item, count);
    tile.OnlyNamed(item, count);
    tile.RemoveThing(Tile.ItemThing(item), count);
    assert tile.Now() == after;
    assert forall x | x in all :: PileOf(x) == old(PileOf(x));
    assert forall kind :: CountStack(after, kind) == old(CountStack(after, kind));
  }

  lemma {:induction false} RemovedAll(tile: Tile.Tile, item: Tile.Item, count: nat)
    requires tile.Valid() && tile.Layout() && item in tile.All() && !tile.Partial(item, count)
    ensures var r := tile.Removed(item, count);
            && (if r.ground == null then {} else {r.ground}) + (set x | x in r.items) == tile.All() - {item}
            && |r.items| <= |tile.items|
  {
    if item != tile.ground {
      var k :| 0 <= k < |tile.items| && tile.items[k] == item;
      hide Erase, Tile.LayoutOf;
      tile.LayoutFinds(k);
      tile.PlaceOf(k);
      Tile.EraseKeeps(tile.items, k);
    }
  }

  /** removeThing of some pieces of a stack among the down items, but not all. */
  method TakePart(tile: Tile.Tile, item: Tile.Item, count: nat)
    requires Sound(tile) && item in tile.All() && tile.Partial(item, count) && 1 <= count < item.count
    modifies tile, item`count
    ensures Sound(tile) && tile.Now() == old(tile.Now())
    ensures item.count == old(item.count) - count
    ensures forall kind :: CountOn(tile, kind) + Of(Pile(KindOf(item), count), kind) == old(CountOn(tile, kind))
    ensures old(tile.FlagsExact()) ==> tile.FlagsExact()
  {
    hide Piles, Sum, Erase, Tile.Remainder, Tile.Tile.Layout, Tile.Tile.Single, Tile.Tile.FlagsExact,
      Tile.LayoutOf;
    ghost var k :| 0 <= k < |tile.items| && tile.items[k] == item;
    ghost var piles, one, items := Piles(tile.items), PileOf(item), tile.items;
    assert Distinct(items);
    assert forall i | 0 <= i < |items| && i != k :: items[i] != item;
    assert one == Pile(KindOf(item), item.count);
    tile.LayoutFinds(k);
    tile.RemoveThing(Tile.ItemThing(item), count);
    assert tile.items == items && tile.ground == old(tile.ground);
    assert item.count == old(item.count) - count;
    assert forall i | 0 <= i < |items| && i != k :: piles[i] == PileOf(items[i]);
    NowPiles(items, k, piles);
    forall kind
      ensures CountIn(tile.items, kind) + Of(Pile(KindOf(item), count), kind) == Sum(piles, kind)
    {
      SumUpdate(piles, k, PileOf(item), kind);
      assert piles[k] == one;
    }
  }

  /** removeThing of `count` pieces of an item, or of all of it. */
  method Take(tile: Tile.Tile, item: Tile.Item, count: nat)
    requires Sound(tile) && item in tile.All() && (item.itemType.stackable ==> 1 <= count <= item.count)
    modifies tile, item`count
    ensures Sound(tile) && |tile.items| <= |old(tile.items)| && tile.Now() == old(tile.Removed(item, count))
    ensures tile.ground == null || tile.ground == old(tile.ground)
    ensures forall kind :: CountOn(tile, kind) + Of(Pile(KindOf(item), old(Taken(tile, item, count))), kind)
                        == old(CountOn(tile, kind))
    ensures tile.All() == if old(tile.Partial(item, count)) then old(tile.All()) else old(tile.All()) - {item}
    ensures item.count == if old(tile.Partial(item, count)) then old(item.count) - count else old(item.count)
    ensures old(tile.FlagsExact()) ==> tile.FlagsExact()
  {
    hide CountOn, Of, Sound, Stack, Stacked, Tile.Tile.FlagsExact, Tile.Tile.All;
    SoundStack(tile, item);
    if tile.Partial(item, count) {
      TakePart(tile, item, count);
    } else {
      TakeWhole(tile, item, count);
    }
  }

  lemma {:induction false} SoundSplit(tile: Tile.Tile)
    requires Sound(tile)
    ensures tile.downItemCount <= |tile.items|
  {
  }

  lemma {:induction false} SoundStack(tile: Tile.Tile, item: Tile.Item)
    requires Sound(tile) && item in tile.All()
    ensures Stack(item)
  {
  }

  // ----- The operations ------------------------------------------------------------------------

  /** `Tile::queryAdd` for an item; `allowed` stands for what else may forbid it. */
  predicate QueryAdd(tile: Tile.Tile, allowed: bool)
    reads tile
  {
    |tile.items| < MAX_TILE_ITEMS && allowed
  }

  /** An item of a type that is no ground, and no splash or magic field in its own layer, takes nobody's place. */
  lemma {:induction false} PlainEvictsNothing(s: Tile.Stack, item: Tile.Item)
    requires s.down <= |s.items| && !item.itemType.isGroundTile
    requires !(if item.itemType.alwaysOnTop then item.itemType.isSplash else item.itemType.isMagicField)
    ensures Evicted(s, item) == null
  {
  }

  /** How many pieces the stack on top can take up. */
  function Room(item: Tile.Item, toItem: Tile.Item?): nat
    reads item`itemType, (if toItem == null then {} else {toItem})`itemType
    reads (if toItem == null then {} else {toItem})`count
  {
    if toItem != null && item.itemType.stackable && Equals(item, toItem) && toItem.count <= MAX_STACK
    then MAX_STACK - toItem.count else 0
  }

  /** The pieces for which a second round is needed: what the stack on top does not take up once it has taken some. */
  function Left(item: Tile.Item, toItem: Tile.Item?): nat
    reads item`itemType, item`count, (if toItem == null then {} else {toItem})`itemType
    reads (if toItem == null then {} else {toItem})`count
  {
    var room := Room(item, toItem);
    if 0 < room < item.count then item.count - room else 0
  }

  /** An equal stack of up to a hundred takes up what fits; any other item takes up nothing. */
  lemma {:induction false} RoomIs(item: Tile.Item, toItem: Tile.Item?)
    ensures Room(item, toItem)
         == if toItem != null && item.itemType.stackable && item.itemType == toItem.itemType
               && item.attributes == toItem.attributes && toItem.count <= 100
            then 100 - toItem.count else 0
  {
  }

  /** Ten coins with an attribute are laid beside twenty without: attributes keep stacks apart. */
  lemma {:induction false} AttributesKeepApart(tile: Tile.Tile, item: Tile.Item)
    requires 0 < tile.downItemCount <= |tile.items| && tile.items[0].itemType == item.itemType
    requires tile.items[0].attributes == {} && item.attributes == {1}
    requires item.itemType.stackable && tile.items[0].count == 20 && item.count == 10
    ensures PutsDown(tile, item, false) && PutsDown(tile, item, true) && Lands(item, TopDownItem(tile), 10)
  {
    assert 1 in item.attributes;
  }

  /** The item on top is the one with the number right behind the creatures. */
  lemma {:induction false} TopDownIs(tile: Tile.Tile)
    requires tile.Valid()
    ensures TopDownItem(tile) == null <==> tile.downItemCount == 0
    ensures tile.downItemCount > 0 ==>
              var k := (if tile.ground == null then 0 else 1) + |tile.items| - tile.downItemCount + |tile.creatures|;
              k < |tile.Things()| && tile.Things()[k] == Tile.ItemThing(TopDownItem(tile))
  {
    if tile.downItemCount > 0 {
      hide Distinct;
      tile.DownAt(0);
    }
  }

  /** Whether pieces are put down beside the stack on top, the second round being allowed if there is need of one. */
  predicate PutsDown(tile: Tile.Tile, item: Tile.Item, again: bool)
    requires tile.downItemCount <= |tile.items|
    reads tile, tile.items`itemType, tile.items`count, item`itemType, item`count
  {
    var room := Room(item, TopDownItem(tile));
    item.itemType.stackable ==> item.count > room && (room == 0 || again)
  }

  /**
   An item that comes from nowhere.  A stack fills up the stack on top first; what is left of it is put on the tile by
   a second round, which `again` may forbid, and is then the remainder.
   */
  method InternalAddItem(tile: Tile.Tile, item: Tile.Item, allowed: bool, again: bool)
    returns (added: bool, remainder: nat, ghost landed: Tile.Item?, ghost evicted: Tile.Item?)
    requires Sound(tile) && tile.Absent(Tile.ItemThing(item)) && Stack(item)
    modifies tile, tile.items`itemType, tile.items`count
    ensures Sound(tile) && item.count == old(item.count)
    ensures added == (|old(tile.items)| < 1000 && allowed)
    ensures !added ==> remainder == 0 && evicted == null
    ensures if added && old(PutsDown(tile, item, again)) then
              && landed != null && IsPart(landed, item, item.count - old(Room(item, TopDownItem(tile))))
              && (old(Room(item, TopDownItem(tile))) == 0 ==> landed == item)
              && tile.Now() == Tile.AddedTo(old(tile.Now()), landed)
            else landed == null && tile.Now() == old(tile.Now())
    ensures forall x | x in old(tile.All()) ::
              x.itemType == old(x.itemType)
              && x.count == old(x.count) + if added && x == old(TopDownItem(tile))
                                           then Min(item.count, old(Room(item, TopDownItem(tile)))) else 0
    ensures remainder == if added && !again then old(Left(item, TopDownItem(tile))) else 0
    ensures evicted == if added && old(PutsDown(tile, item, again)) then old(Evicted(tile.Now(), item)) else null
    ensures forall kind :: CountOn(tile, kind) + PiecesOf(evicted, kind) + Of(Pile(KindOf(item), remainder), kind)
                        == old(CountOn(tile, kind)) + if added then Of(PileOf(item), kind) else 0
    ensures old(tile.FlagsExact()) ==> tile.FlagsExact()
    decreases if item.itemType.stackable then item.count else 0, 2
  {
    hide CountOn, Of, Equals, Sound, Evicted, PutsDown, Left, Room, Tile.AddedTo, Tile.Tile.Layout,
      Tile.Tile.FlagsExact, Tile.Tile.Valid;
    SoundSplit(tile);
    remainder, landed, evicted := 0, null, null;
    added := QueryAdd(tile, allowed);
    NoPieces(KindOf(item));
    if !added {
      return;
    }
    var toItem := TopDownItem(tile);
    var equal := toItem != null && Equals(item, toItem);
    if item.itemType.stackable && equal {
      remainder, landed, evicted := FillUp(tile, item, toItem, again);
    } else {
      landed := item;
      NoRoom(tile, item, again);
      evicted := Put(tile, item);
    }
  }

  /** Where the item on top is no equal stack, all is put down. */
  lemma {:induction false} NoRoom(tile: Tile.Tile, item: Tile.Item, again: bool)
    requires tile.downItemCount <= |tile.items| && Stack(item)
    requires !item.itemType.stackable || TopDownItem(tile) == null || !Equals(item, TopDownItem(tile))
    ensures Room(item, TopDownItem(tile)) == 0 && Left(item, TopDownItem(tile)) == 0 && PutsDown(tile, item, again)
  {
  }

  /** Some pieces of the item, or all of it, as an item of the same type with the same attributes. */
  ghost predicate IsPart(x: Tile.Item, item: Tile.Item, count: int)
    reads x`itemType, x`count, item`itemType
  {
    x.itemType == item.itemType && x.attributes == item.attributes && x.count == count
  }

  function Min(a: nat, b: nat): nat {
    if a < b then a else b
  }

  lemma {:induction false} PiecesAdd(kind: Kind, m: nat, n: nat)
    ensures forall other :: Of(Pile(kind, m + n), other) == Of(Pile(kind, m), other) + Of(Pile(kind, n), other)
  {
  }

  lemma {:induction false} NoPieces(kind: Kind)
    ensures forall other :: Of(Pile(kind, 0), other) == 0
  {
  }

  /** The case of a stack that is added to an equal one. */
  method FillUp(tile: Tile.Tile, item: Tile.Item, toItem: Tile.Item, again: bool)
    returns (remainder: nat, ghost landed: Tile.Item?, ghost evicted: Tile.Item?)
    requires Sound(tile) && tile.Absent(Tile.ItemThing(item))
    requires item.itemType.stackable && 1 <= item.count <= MAX_STACK && |tile.items| < MAX_TILE_ITEMS
    requires 0 < tile.downItemCount <= |tile.items| && toItem == tile.items[0] && Equals(item, toItem)
    modifies tile, tile.items`itemType, tile.items`count
    ensures Sound(tile) && item.count == old(item.count)
    ensures remainder == if !again then old(Left(item, toItem)) else 0
    ensures evicted == if old(PutsDown(tile, item, again)) then old(Evicted(tile.Now(), item)) else null
    ensures forall kind :: CountOn(tile, kind) + PiecesOf(evicted, kind) + Of(Pile(KindOf(item), remainder), kind)
                        == old(CountOn(tile, kind)) + Of(Pile(KindOf(item), item.count), kind)
    ensures if old(PutsDown(tile, item, again)) then
              && landed != null && IsPart(landed, item, item.count - old(Room(item, toItem)))
              && (old(Room(item, toItem)) == 0 ==> landed == item)
              && tile.Now() == Tile.AddedTo(old(tile.Now()), landed)
            else landed == null && tile.Now() == old(tile.Now())
    ensures forall x | x in old(tile.All()) ::
              x.itemType == old(x.itemType)
              && x.count == old(x.count) + if x == toItem then Min(item.count, old(Room(item, toItem))) else 0
    ensures old(tile.FlagsExact()) ==> tile.FlagsExact()
    decreases item.count, 1
  {
    hide CountOn, Of, Stacked, Evicted, Tile.AddedTo, Tile.Exact, Tile.Tile.Valid, Tile.Tile.Layout;
    remainder, landed, evicted := 0, null, null;
    NoPieces(KindOf(item));
    assert toItem.itemType == item.itemType && toItem in tile.All();
    SoundStack(tile, toItem);
    var m := item.count;
    var n := if MAX_STACK - toItem.count < m then MAX_STACK - toItem.count else m;
    PiecesAdd(KindOf(item), toItem.count, n);
    PiecesAdd(KindOf(item), n, m - n);
    Resize(tile, toItem, toItem.count + n);
    if m - n > 0 {
      SoundSplit(tile);
      remainder, landed, evicted := AddRest(tile, item, m - n, again);
    }
  }

  /** What the stack on top, which is full now, has not taken up. */
  method AddRest(tile: Tile.Tile, item: Tile.Item, count: nat, again: bool)
    returns (remainder: nat, ghost landed: Tile.Item?, ghost evicted: Tile.Item?)
    requires Sound(tile) && tile.Absent(Tile.ItemThing(item)) && |tile.items| < MAX_TILE_ITEMS
    requires item.itemType.stackable && 1 <= count <= item.count <= MAX_STACK
    requires tile.downItemCount <= |tile.items| && Room(item, TopDownItem(tile)) == 0
    modifies tile, tile.items`itemType, tile.items`count
    ensures Sound(tile) && item.count == old(item.count)
    ensures remainder == if count == item.count || again then 0 else count
    ensures evicted == if count == item.count || again then old(Evicted(tile.Now(), item)) else null
    ensures forall kind :: CountOn(tile, kind) + PiecesOf(evicted, kind) + Of(Pile(KindOf(item), remainder), kind)
                        == old(CountOn(tile, kind)) + Of(Pile(KindOf(item), count), kind)
    ensures if count == item.count || again then
              && landed != null && IsPart(landed, item, count) && (count == item.count ==> landed == item)
              && tile.Now() == Tile.AddedTo(old(tile.Now()), landed)
            else landed == null && tile.Now() == old(tile.Now())
    ensures forall x | x in old(tile.All()) :: x.itemType == old(x.itemType) && x.count == old(x.count)
    ensures old(tile.FlagsExact()) ==> tile.FlagsExact()
    decreases item.count, 0
  {
    hide CountOn, Of, Stacked, Evicted, Tile.AddedTo, Tile.Exact, Tile.Tile.Valid, Tile.Tile.Layout;
    remainder := 0;
    NoPieces(KindOf(item));
    ghost var exact := tile.FlagsExact();
    if item.count != count {
      var remainderItem := new Tile.Item(item.itemType, count, item.attributes);
      assert exact ==> tile.FlagsExact();
      StacksEvictAlike(tile.Now(), remainderItem, item);
      var done, lost;
      done, lost, landed, evicted := InternalAddItem(tile, remainderItem, again, false);
      if !done {
        remainder := count;
      }
    } else {
      landed := item;
      evicted := Put(tile, item);
    }
  }

  /** `Tile::queryRemove`, of an item that is on the tile; `allowed` is for items that must stay where they are. */
  predicate QueryRemove(item: Tile.Item, count: nat, allowed: bool)
    reads item`itemType, item`count
  {
    count != 0 && !(item.itemType.stackable && count > item.count) && allowed
  }

  /** `count` pieces of an item vanish; -1 stands for all of them. */
  method InternalRemoveItem(tile: Tile.Tile, item: Tile.Item, count: int, allowed: bool) returns (removed: bool)
    requires Sound(tile) && item in tile.All() && count >= -1
    modifies tile, item`count
    ensures Sound(tile)
    ensures removed <==> allowed && (count == -1 ==> old(item.count) != 0)
                         && (count != -1 ==> count != 0 && !(item.itemType.stackable && count > old(item.count)))
    ensures !removed ==> tile.Now() == old(tile.Now()) && item.count == old(item.count)
    ensures forall kind ::
              CountOn(tile, kind)
              + (if removed then Of(Pile(KindOf(item),
                                         old(Taken(tile, item, if count == -1 then item.count else count))), kind)
                 else 0)
              == old(CountOn(tile, kind))
    ensures old(tile.FlagsExact()) ==> tile.FlagsExact()
  {
    hide CountOn, Of, Sound, Taken, Tile.Tile.FlagsExact, Tile.Tile.All;
    var pieces := if count == -1 then item.count else count;
    removed := QueryRemove(item, pieces, allowed);
    if removed {
      Take(tile, item, pieces);
    }
  }

  /** Of a stack exactly the pieces asked for vanish, if and only if not a part of one is taken that is always on top
      or lies as ground. */
  lemma {:induction false} TakenAsAsked(tile: Tile.Tile, item: Tile.Item, count: nat)
    requires item.itemType.stackable && 1 <= count <= item.count
    ensures Taken(tile, item, count) == count <==>
              count == item.count || (item != tile.ground && !item.itemType.alwaysOnTop)
    ensures Taken(tile, item, count) >= count
  {
  }

  /** How many pieces a move that goes through puts on the tile where it goes. */
  function Moved(item: Tile.Item, count: nat): nat
    reads item`itemType
  {
    if item.itemType.stackable then count else 1
  }

  /** Whether anything is put down beside the stack on top, when `m` pieces of the item are moved. */
  predicate Lands(item: Tile.Item, toItem: Tile.Item?, m: nat)
    reads item`itemType, (if toItem == null then {} else {toItem})`itemType
    reads (if toItem == null then {} else {toItem})`count
  {
    item.itemType.stackable ==> m > Room(item, toItem)
  }

  /** The second half of a move of `m` pieces: onto the stack on top, if it is equal, and the rest beside it. */
  method Drop(dest: Tile.Tile, item: Tile.Item, toItem: Tile.Item?, m: nat) 
    returns (ghost landed: Tile.Item?, ghost evicted: Tile.Item?)
    requires Sound(dest) && |dest.items| < MAX_TILE_ITEMS && (toItem != null ==> toItem in dest.items)
    requires item.itemType.stackable && 1 <= m <= MAX_STACK
    modifies dest, dest.items`itemType, dest.items`count
    ensures Sound(dest) && (evicted != null ==> PileOf(evicted).pieces >= 1)
    ensures evicted == if m > old(Room(item, toItem)) then old(Evicted(dest.Now(), item)) else null
    ensures forall kind :: CountOn(dest, kind) + PiecesOf(evicted, kind)
                        == old(CountOn(dest, kind)) + Of(Pile(old(KindOf(item)), m), kind)
    ensures if m > old(Room(item, toItem)) then
              && landed != null && fresh(landed) && IsPart(landed, item, m - old(Room(item, toItem)))
              && dest.Now() == Tile.AddedTo(old(dest.Now()), landed)
            else landed == null && dest.Now() == old(dest.Now())
    ensures forall x | x in old(dest.All()) ::
              x.itemType == old(x.itemType)
              && x.count == old(x.count) + if x == toItem then Min(m, old(Room(item, toItem))) else 0
    ensures item.itemType == old(item.itemType)
    ensures old(dest.FlagsExact()) ==> dest.FlagsExact()
  {
    hide CountOn, Of, Stacked, Evicted, Tile.AddedTo, Tile.Exact, Tile.Tile.Valid, Tile.Tile.Layout;
    landed, evicted := null, null;
    ghost var kind := KindOf(item);
    var n := 0;
    NoPieces(kind);
    if toItem != null && Equals(item, toItem) {
      assert toItem in dest.All();
      SoundStack(dest, toItem);
      n := if MAX_STACK - toItem.count < m then MAX_STACK - toItem.count else m;
      PiecesAdd(kind, toItem.count, n);
      Resize(dest, toItem, toItem.count + n);
    }
    PiecesAdd(kind, n, m - n);
    if m - n > 0 {
      SoundSplit(dest);
      landed, evicted := PutClone(dest, item, m - n);
    }
  }

  /** A new stack of the kind of the item. */
  method PutClone(dest: Tile.Tile, item: Tile.Item, count: nat) 
    returns (ghost landed: Tile.Item, ghost evicted: Tile.Item?)
    requires Sound(dest) && |dest.items| < MAX_TILE_ITEMS && dest.downItemCount <= |dest.items|
    requires item.itemType.stackable && 1 <= count <= MAX_STACK
    modifies dest, dest.items`count
    ensures Sound(dest) && (evicted != null ==> PileOf(evicted).pieces >= 1)
    ensures evicted == old(Evicted(dest.Now(), item))
    ensures forall kind :: CountOn(dest, kind) + PiecesOf(evicted, kind)
                        == old(CountOn(dest, kind)) + Of(Pile(old(KindOf(item)), count), kind)
    ensures fresh(landed) && IsPart(landed, item, count) && dest.Now() == Tile.AddedTo(old(dest.Now()), landed)
    ensures forall x | x in old(dest.All()) :: x.count == old(x.count)
    ensures old(dest.FlagsExact()) ==> dest.FlagsExact()
  {
    hide CountOn, Of, Stacked, Evicted, Tile.AddedTo, Tile.Exact, Tile.Tile.Valid, Tile.Tile.Layout;
    ghost var exact := dest.FlagsExact();
    var moveItem := new Tile.Item(item.itemType, count, item.attributes);
    assert exact ==> dest.FlagsExact();
    StacksEvictAlike(dest.Now(), moveItem, item);
    landed := moveItem;
    evicted := Put(dest, moveItem);
  }

  /** How many pieces of that kind are on two tiles together, or on the one that both are. */
  ghost function Total(from: Tile.Tile, dest: Tile.Tile, kind: Kind): nat
    reads from`ground, from`items, from`downItemCount, from.All()`itemType, from.All()`count
    reads dest`ground, dest`items, dest`downItemCount, dest.All()`itemType, dest.All()`count
  {
    if from == dest then CountOn(from, kind) else CountOn(from, kind) + CountOn(dest, kind)
  }

  /**
   An item, or `count` pieces of a stack, goes from one tile to another, or to the top of its own.  The stack on top of
   the destination is filled up first, and the rest put down as a stack of its own.
   */
  method InternalMoveItem(from: Tile.Tile, dest: Tile.Tile, item: Tile.Item, count: nat, allowed: bool, free: bool)
    returns (ok: bool, ghost moved: bool, ghost landed: Tile.Item?, ghost evicted: Tile.Item?)
    requires Sound(from) && Sound(dest) && (from == dest || from.All() !! dest.All()) && item in from.All()
    modifies from, dest, item`count, from.All()`itemType, from.All()`count, dest.items`itemType, dest.items`count
    ensures Sound(from) && Sound(dest)
    ensures moved <==> old(TopDownItem(dest)) != item && |old(dest.items)| < 1000 && allowed && free
                       && (old(item.itemType).stackable ==> 0 < count <= old(item.count))
    ensures ok <==> moved || old(TopDownItem(dest)) == item
    ensures evicted == if moved && old(Lands(item, TopDownItem(dest), count))
                       then old(Evicted(if from == dest then dest.Removed(item, count) else dest.Now(), item)) else null
    ensures evicted != null ==> PileOf(evicted).pieces >= 1
    ensures from == dest ==> forall kind ::
              CountOn(dest, kind) + PiecesOf(evicted, kind)
              + (if moved then Of(Pile(old(KindOf(item)), old(Taken(from, item, count))), kind) else 0)
              == old(CountOn(dest, kind))
                 + if moved then Of(Pile(old(KindOf(item)), old(Moved(item, count))), kind) else 0
    ensures from != dest ==> forall kind ::
              && CountOn(from, kind)
                 + (if moved then Of(Pile(old(KindOf(item)), old(Taken(from, item, count))), kind) else 0)
                 == old(CountOn(from, kind))
              && CountOn(dest, kind) + PiecesOf(evicted, kind)
                 == old(CountOn(dest, kind))
                    + if moved then Of(Pile(old(KindOf(item)), old(Moved(item, count))), kind) else 0
    ensures (forall kind :: Total(from, dest, kind) == old(Total(from, dest, kind)))
       <==> !moved
            || old((!Lands(item, TopDownItem(dest), count)
                    || Evicted(if from == dest then dest.Removed(item, count) else dest.Now(), item) == null)
                   && Taken(from, item, count) == Moved(item, count))
    ensures !moved ==> landed == null && from.Now() == old(from.Now()) && dest.Now() == old(dest.Now())
    ensures moved && from != dest ==> from.Now() == old(from.Removed(item, count))
    ensures var before := if moved && from == dest then old(dest.Removed(item, count)) else old(dest.Now());
            if moved && old(Lands(item, TopDownItem(dest), count)) then
              && landed != null && dest.Now() == Tile.AddedTo(before, landed)
              && landed.itemType == old(item.itemType) && landed.attributes == item.attributes
              && landed.count == (if landed.itemType.stackable then count - old(Room(item, TopDownItem(dest)))
                                  else old(item.count))
              && (!landed.itemType.stackable ==> landed == item)
            else landed == null && dest.Now() == before
    ensures forall x | x in old(dest.All()) && x != item ::
              x.itemType == old(x.itemType)
              && x.count == old(x.count) + if moved && x == old(TopDownItem(dest)) && old(item.itemType).stackable
                                           then Min(count, old(Room(item, TopDownItem(dest)))) else 0
    ensures old(from.FlagsExact() && dest.FlagsExact()) ==> from.FlagsExact() && dest.FlagsExact()
  {
    hide CountOn, Of, Stack, Stacked, Taken, TopDownItem, Room, Evicted, Distinct, Tile.Tile.Layout,
      Tile.Tile.FlagsExact, Tile.Tile.Removed, Tile.AddedTo;
    evicted, landed, moved := null, null, false;
    assert dest.downItemCount <= |dest.items|;
    var toItem := TopDownItem(dest);
    if item == toItem {
      return true, moved, null, evicted;
    }
    ok := false;
    if !QueryAdd(dest, allowed) {
      return;
    }
    var maxQueryCount := if count < 1 then 1 else count;
    var m := if !item.itemType.stackable || maxQueryCount < count then maxQueryCount else count;
    if !QueryRemove(item, m, free) {
      return;
    }
    ok, moved := true, true;
    SingleTaken(from, item, m, count);
    TakenCoversMoved(from, item, count);
    ghost var kind, taken, put := KindOf(item), Taken(from, item, count), Moved(item, count);
    if from == dest {
      landed, evicted := CarryWithin(dest, item, toItem, m, dest.All());
    } else {
      landed, evicted := CarryAcross(from, dest, item, toItem, m);
    }
    NothingLostIff(kind, taken, put, evicted);
    assert forall other :: Total(from, dest, other) + (PiecesOf(evicted, other) + Of(Pile(kind, taken), other))
                        == old(Total(from, dest, other)) + Of(Pile(kind, put), other);
  }

  /** Of what is no stack, all is taken whatever the count. */
  lemma {:induction false} SingleTaken(tile: Tile.Tile, item: Tile.Item, m: nat, count: nat)
    requires tile.Valid() && (item.itemType.stackable ==> m == count)
    ensures Taken(tile, item, m) == Taken(tile, item, count) && Moved(item, m) == Moved(item, count)
    ensures tile.Removed(item, m) == tile.Removed(item, count)
  {
  }

  /** What is put down makes up for what is taken and evicted, of every kind, only if nothing is evicted and no more
      taken than put down. */
  lemma {:induction false} NothingLostIff(kind: Kind, taken: nat, put: nat, evicted: Tile.Item?)
    requires taken >= put && (evicted != null ==> PileOf(evicted).pieces >= 1)
    ensures (forall other :: PiecesOf(evicted, other) + Of(Pile(kind, taken), other) == Of(Pile(kind, put), other))
       <==> evicted == null && taken == put
  {
    assert PiecesOf(evicted, kind) + Of(Pile(kind, taken), kind) >= taken;
    if evicted != null {
      var other := PileOf(evicted).kind;
      assert PiecesOf(evicted, other) + Of(Pile(kind, taken), other) > Of(Pile(kind, put), other);
    }
  }

  lemma {:induction false} TakenCoversMoved(tile: Tile.Tile, item: Tile.Item, count: nat)
    requires item.itemType.stackable ==> count <= item.count
    ensures Taken(tile, item, count) >= Moved(item, count)
  {
  }

  /** The move itself, on one tile. */
  method CarryWithin(dest: Tile.Tile, item: Tile.Item, toItem: Tile.Item?, m: nat, ghost pool: set<Tile.Item>)
    returns (ghost landed: Tile.Item?, ghost evicted: Tile.Item?)
    requires Sound(dest) && |dest.items| < MAX_TILE_ITEMS && item in dest.All()
    requires item.itemType.stackable ==> 1 <= m <= item.count
    requires toItem != null ==> toItem in dest.items && toItem != item
    requires dest.All() <= pool
    modifies dest, pool`itemType, pool`count
    ensures Sound(dest) && (evicted != null ==> PileOf(evicted).pieces >= 1) && item.itemType == old(item.itemType)
    ensures evicted == if old(Lands(item, toItem, m)) then old(Evicted(dest.Removed(item, m), item)) else null
    ensures forall kind :: CountOn(dest, kind) + PiecesOf(evicted, kind)
                         + Of(Pile(old(KindOf(item)), old(Taken(dest, item, m))), kind)
                      == old(CountOn(dest, kind)) + Of(Pile(old(KindOf(item)), old(Moved(item, m))), kind)
    ensures if old(Lands(item, toItem, m)) then
              && landed != null && dest.Now() == Tile.AddedTo(old(dest.Removed(item, m)), landed)
              && IsPart(landed, item, if item.itemType.stackable then m - old(Room(item, toItem)) else old(item.count))
              && (!item.itemType.stackable ==> landed == item)
            else landed == null && dest.Now() == old(dest.Removed(item, m))
    ensures forall x | x in old(dest.All()) && x != item ::
              x.itemType == old(x.itemType)
              && x.count == old(x.count) + if x == toItem && item.itemType.stackable
                                           then Min(m, old(Room(item, toItem))) else 0
    ensures old(dest.FlagsExact()) ==> dest.FlagsExact()
  {
    hide CountOn, Stacked, Taken, Evicted, Room, Distinct, Tile.Tile.Layout, Tile.Tile.FlagsExact,
      Tile.Tile.Removed, Tile.AddedTo;
    ghost var after, room := dest.Removed(item, m), Room(item, toItem);
    ghost var evicts := Evicted(after, item);
    SoundStack(dest, item);
    assert toItem != null ==> toItem in dest.All() && toItem != dest.ground;
    Take(dest, item, m);
    assert forall x | x in dest.items :: x in dest.All();
    assert toItem != null ==> toItem in dest.items;
    assert Evicted(dest.Now(), item) == evicts && Room(item, toItem) == room;
    if item.itemType.stackable {
      landed, evicted := Drop(dest, item, toItem, m);
    } else {
      assert item !in dest.All();
      landed := item;
      evicted := Put(dest, item);
    }
  }

  /** The move itself, from one tile to another. */
  method CarryAcross(from: Tile.Tile, dest: Tile.Tile, item: Tile.Item, toItem: Tile.Item?, m: nat)
    returns (ghost landed: Tile.Item?, ghost evicted: Tile.Item?)
    requires Sound(from) && Sound(dest) && from != dest && from.All() !! dest.All()
    requires |dest.items| < MAX_TILE_ITEMS && item in from.All()
    requires item.itemType.stackable ==> 1 <= m <= item.count
    requires toItem != null ==> toItem in dest.items
    modifies from, dest, item`count, dest.items`itemType, dest.items`count
    ensures Sound(from) && Sound(dest) && (evicted != null ==> PileOf(evicted).pieces >= 1)
    ensures evicted == if old(Lands(item, toItem, m)) then old(Evicted(dest.Now(), item)) else null
    ensures forall kind :: CountOn(from, kind) + Of(Pile(KindOf(item), old(Taken(from, item, m))), kind)
                        == old(CountOn(from, kind))
    ensures forall kind :: CountOn(dest, kind) + PiecesOf(evicted, kind)
                        == old(CountOn(dest, kind)) + Of(Pile(KindOf(item), Moved(item, m)), kind)
    ensures if old(Lands(item, toItem, m)) then
              && landed != null && dest.Now() == Tile.AddedTo(old(dest.Now()), landed)
              && IsPart(landed, item, if item.itemType.stackable then m - old(Room(item, toItem)) else old(item.count))
              && (!item.itemType.stackable ==> landed == item)
            else landed == null && dest.Now() == old(dest.Now())
    ensures from.Now() == old(from.Removed(item, m))
    ensures forall x | x in old(dest.All()) ::
              x.itemType == old(x.itemType)
              && x.count == old(x.count) + if x == toItem && item.itemType.stackable
                                           then Min(m, old(Room(item, toItem))) else 0
    ensures old(from.FlagsExact() && dest.FlagsExact()) ==> from.FlagsExact() && dest.FlagsExact()
  {
    hide CountOn, Of, Taken, Evicted, Room, Sound, Stack, Tile.AddedTo, Tile.Tile.FlagsExact, Tile.Tile.Partial,
      Tile.Tile.Removed;
    SoundStack(from, item);
    TakeOff(from, dest, item, m);
    landed, evicted := PutDown(from, dest, item, toItem, m);
  }

  /** What is taken off one tile does not touch the other. */
  method TakeOff(from: Tile.Tile, dest: Tile.Tile, item: Tile.Item, m: nat)
    requires Sound(from) && Sound(dest) && from != dest && from.All() !! dest.All() && item in from.All()
    requires item.itemType.stackable ==> 1 <= m <= item.count
    modifies from, item`count
    ensures Sound(from) && Sound(dest) && from.All() <= old(from.All())
    ensures item in from.All() ==> item.itemType.stackable
    ensures from.Now() == old(from.Removed(item, m)) && (!item.itemType.stackable ==> item.count == old(item.count))
    ensures forall kind :: CountOn(from, kind) + Of(Pile(KindOf(item), old(Taken(from, item, m))), kind)
                        == old(CountOn(from, kind))
    ensures forall kind :: CountOn(dest, kind) == old(CountOn(dest, kind))
    ensures old(from.FlagsExact() && dest.FlagsExact()) ==> from.FlagsExact() && dest.FlagsExact()
  {
    hide CountOn, Of, Taken, Tile.Exact, Tile.Tile.Valid, Tile.Tile.Layout;
    ghost var all := dest.All();
    Take(from, item, m);
    assert dest.All() == all && from.All() !! all;
    assert Sound(dest);
    assert old(dest.FlagsExact()) ==> dest.FlagsExact();
  }

  /** What is put down on one tile does not touch the other. */
  method PutDown(from: Tile.Tile, dest: Tile.Tile, item: Tile.Item, toItem: Tile.Item?, m: nat)
    returns (ghost landed: Tile.Item?, ghost evicted: Tile.Item?)
    requires Sound(from) && Sound(dest) && from != dest && from.All() !! dest.All()
    requires |dest.items| < MAX_TILE_ITEMS && item !in dest.All()
    requires if item.itemType.stackable then 1 <= m <= MAX_STACK else item !in from.All()
    requires toItem != null ==> toItem in dest.items
    modifies dest, dest.items`itemType, dest.items`count
    ensures Sound(from) && Sound(dest) && (evicted != null ==> PileOf(evicted).pieces >= 1)
    ensures evicted == if old(Lands(item, toItem, m)) then old(Evicted(dest.Now(), item)) else null
    ensures forall kind :: CountOn(from, kind) == old(CountOn(from, kind))
    ensures forall kind :: CountOn(dest, kind) + PiecesOf(evicted, kind)
                        == old(CountOn(dest, kind)) + Of(Pile(KindOf(item), Moved(item, m)), kind)
    ensures if old(Lands(item, toItem, m)) then
              && landed != null && dest.Now() == Tile.AddedTo(old(dest.Now()), landed)
              && IsPart(landed, item, if item.itemType.stackable then m - old(Room(item, toItem)) else old(item.count))
              && (!item.itemType.stackable ==> landed == item)
            else landed == null && dest.Now() == old(dest.Now())
    ensures from.Now() == old(from.Now()) && forall x | x in old(from.All()) ::
              x.itemType == old(x.itemType) && x.count == old(x.count)
    ensures forall x | x in old(dest.All()) ::
              x.itemType == old(x.itemType)
              && x.count == old(x.count) + if x == toItem && item.itemType.stackable
                                           then Min(m, old(Room(item, toItem))) else 0
    ensures old(from.FlagsExact() && dest.FlagsExact()) ==> from.FlagsExact() && dest.FlagsExact()
  {
    hide CountOn, Sound, Evicted, Room, Tile.Exact, Tile.AddedTo;
    ghost var all, items := from.All(), dest.items;
    assert all !! (set x | x in items);
    if item.itemType.stackable {
      landed, evicted := Drop(dest, item, toItem, m);
    } else {
      landed := item;
      evicted := Put(dest, item);
    }
    assert from.All() == all;
    assert forall x | x in all :: x.itemType == old(x.itemType) && x.count == old(x.count);
    assert forall k | 0 <= k < |from.items| :: from.items[k] in all;
    assert forall kind :: CountOn(from, kind) == old(CountOn(from, kind));
    assert Sound(from);
    assert forall x | x in all :: x.itemType == old(x.itemType) && x.uniqueId == old(x.uniqueId);
    assert old(from.FlagsExact()) ==> from.FlagsExact();
  }

  // ----- Pieces that are lost ------------------------------------------------------------------

  /** A magic field is added where one lies that cannot be replaced: the call reports success, and the field is gone. */
  method FieldVanishes(tile: Tile.Tile, wall: Tile.Item, field: Tile.Item) returns (added: bool)
    requires Sound(tile) && tile.Now() == Tile.Stack(null, [wall], 1) && tile.Absent(Tile.ItemThing(field))
    requires wall.itemType.isMagicField && !wall.itemType.canBeReplaced
    requires field.itemType.isMagicField && !field.itemType.isGroundTile && !field.itemType.alwaysOnTop
    modifies tile, tile.items`itemType, tile.items`count
    ensures added && forall kind :: CountOn(tile, kind) == old(CountOn(tile, kind))
  {
    hide CountOn, Of, PileOf, Sound, Tile.Tile.FlagsExact, Tile.Tile.All;
    assert Evicted(tile.Now(), field) == field;
    NoPieces(KindOf(field));
    var remainder;
    ghost var landed, evicted;
    added, remainder, landed, evicted := InternalAddItem(tile, field, true, true);
  }

  /** One is asked for of a stack of two that lies as ground: both are gone. */
  method GroundVanishes(tile: Tile.Tile, ground: Tile.Item) returns (removed: bool)
    requires Sound(tile) && tile.Now() == Tile.Stack(ground, [], 0) && ground.itemType.stackable && ground.count == 2
    modifies tile, ground`count
    ensures removed && old(CountOn(tile, KindOf(ground))) == 2 && CountOn(tile, KindOf(ground)) == 0
  {
    TwoOnGround(tile, ground);
    hide CountOn, Of, PileOf, Sound, Taken, Tile.Tile.FlagsExact;
    removed := InternalRemoveItem(tile, ground, 1, true);
  }

  lemma {:induction false} TwoOnGround(tile: Tile.Tile, ground: Tile.Item)
    requires tile.Now() == Tile.Stack(ground, [], 0) && ground.itemType.stackable && ground.count == 2
    ensures Taken(tile, ground, 1) == 2 && CountOn(tile, KindOf(ground)) == 2
    ensures Of(Pile(KindOf(ground), 2), KindOf(ground)) == 2
  {
  }
}
