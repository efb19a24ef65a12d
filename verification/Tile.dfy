/**
 The stack of things on a map tile and what is cached about it (src/items/tile.cpp, src/items/tile.h).

 `items` is one vector split by `downItemCount`: first the down items, newest in front, then the items that
 are always on top, sorted by their order.  A ground slot and the creatures stand beside it.  `flags` caches
 which item properties occur on the tile; it is kept up to date step by step and never recomputed.
 */
module Tile {
  import opened Basics
  import opened Wrappers

  const MAX_ITEMS := 0xFFFF

  /** The item properties that the tile caches a flag for. */
  datatype Property =
    | BlockSolid
    | ImmovableBlockSolid
    | BlockPath
    | NoFieldBlockPath
    | ImmovableNoFieldBlockPath
    | ImmovableBlockPath          // reset like the others, but set nowhere

  /** The part of an item type that the tile looks at. */
  datatype TypeRow = TypeRow(
    id: nat, isGroundTile: bool, alwaysOnTop: bool, alwaysOnTopOrder: nat, isSplash: bool, isMagicField: bool,
    canBeReplaced: bool, stackable: bool, moveable: bool, blockSolid: bool, blockPathFind: bool)

  /** In the item table no magic field is stackable. */
  type ItemType = t: TypeRow | t.isMagicField ==> !t.stackable
    witness TypeRow(0, false, false, 0, false, false, false, false, false, false, false)

  class Creature {
  }

  class Item {
    var itemType: ItemType
    var count: nat
    var uniqueId: bool
    /** What else is set on the item, as far as it tells two items of one type apart. */
    const attributes: set<nat>

    constructor (itemType: ItemType, count: nat, attributes: set<nat>)
      ensures this.itemType == itemType && this.count == count && this.attributes == attributes && !uniqueId
    {
      this.itemType, this.count, this.attributes, uniqueId := itemType, count, attributes, false;
    }

    predicate HasProperty(prop: Property)
      reads `itemType, `uniqueId
    {
      match prop
      case BlockSolid => itemType.blockSolid
      case ImmovableBlockSolid => itemType.blockSolid && (!itemType.moveable || uniqueId)
      case BlockPath => itemType.blockPathFind
      case NoFieldBlockPath => !itemType.isMagicField && itemType.blockPathFind
      case ImmovableNoFieldBlockPath =>
        !itemType.isMagicField && itemType.blockPathFind && (!itemType.moveable || uniqueId)
      case ImmovableBlockPath => itemType.blockPathFind && (!itemType.moveable || uniqueId)
    }
  }

  datatype Thing = ItemThing(item: Item) | CreatureThing(creature: Creature)

  // ----- Positions in a vector -----------------------------------------------------------------

  function Insert<T>(s: seq<T>, i: nat, x: T): (r: seq<T>)
    requires i <= |s|
    ensures |r| == |s| + 1
    ensures forall y | y in r :: y == x || y in s
  {
    s[..i] + [x] + s[i..]
  }

  lemma {:induction false} InsertKeeps<T>(s: seq<T>, i: nat, x: T)
    requires i <= |s| && Distinct(s) && x !in s
    ensures Distinct(Insert(s, i, x))
    ensures x in Insert(s, i, x)
    ensures forall y | y in s :: y in Insert(s, i, x)
  {
    var t := Insert(s, i, x);
    assert t[i] == x;
    forall y | y in s
      ensures y in t
    {
      var k :| 0 <= k < |s| && s[k] == y;
      assert t[if k < i then k else k + 1] == y;
    }
    assert forall k | 0 <= k < |t| :: t[k] == if k < i then s[k] else if k == i then x else s[k - 1];
  }

  lemma {:induction false} EraseKeeps<T>(s: seq<T>, i: nat)
    requires i < |s| && Distinct(s)
    ensures Distinct(Erase(s, i))
    ensures s[i] !in Erase(s, i)
    ensures forall y | y in s :: y == s[i] || y in Erase(s, i)
  {
    var t := Erase(s, i);
    assert forall k | 0 <= k < |t| :: t[k] == s[if k < i then k else k + 1];
    forall y | y in s
      ensures y == s[i] || y in t
    {
      var k :| 0 <= k < |s| && s[k] == y;
      if k != i {
        assert t[if k < i then k else k - 1] == y;
      }
    }
  }

  lemma {:induction false} WithoutErases(s: seq<Creature>, k: nat)
    requires k < |s| && s[k] !in s[..k]
    ensures Without(s, s[k]) == Erase(s, k)
    decreases |s|
  {
    if k != 0 {
      assert s[0] == s[..k][0];
      assert s[..k] == [s[0]] + s[1..][..k - 1];
      WithoutErases(s[1..], k - 1);
      assert s[k + 1..] == s[1..][k..];
    }
  }

  lemma {:induction false} WithoutAbsent(s: seq<Creature>, x: Creature)
    requires x !in s
    ensures Without(s, x) == s
    decreases |s|
  {
    if s != [] {
      WithoutAbsent(s[1..], x);
    }
  }

  // ----- Where the loops over the vector stop --------------------------------------------------

  /** Where `addThing` puts an item that is always on top: before the first of at least its order. */
  function SlotBefore(items: seq<Item>, from: nat, order: nat): (i: nat)
    requires from <= |items|
    reads items`itemType
    ensures from <= i <= |items|
    ensures forall k | from <= k < i :: items[k].itemType.alwaysOnTopOrder < order
    ensures i < |items| ==> order <= items[i].itemType.alwaysOnTopOrder
    decreases |items| - from
  {
    if from == |items| || order <= items[from].itemType.alwaysOnTopOrder then from
    else SlotBefore(items, from + 1, order)
  }

  /** Where `internalAddThing` puts it: behind the last of at most its order. */
  function SlotBehind(items: seq<Item>, from: nat, order: nat): (i: nat)
    requires from <= |items|
    reads items`itemType
    ensures from <= i <= |items|
    ensures forall k | from <= k < i :: items[k].itemType.alwaysOnTopOrder <= order
    ensures i < |items| ==> order < items[i].itemType.alwaysOnTopOrder
    decreases |items| - from
  {
    if from == |items| || order < items[from].itemType.alwaysOnTopOrder then from
    else SlotBehind(items, from + 1, order)
  }

  /** The first splash in `items[from..]`, or the end. */
  function FirstSplash(items: seq<Item>, from: nat): (i: nat)
    requires from <= |items|
    reads items`itemType
    ensures from <= i <= |items|
    ensures forall k | from <= k < i :: !items[k].itemType.isSplash
    ensures i < |items| ==> items[i].itemType.isSplash
    decreases |items| - from
  {
    if from == |items| || items[from].itemType.isSplash then from else FirstSplash(items, from + 1)
  }

  /** The first magic field in `items[from..end]`, or `end`. */
  function FirstField(items: seq<Item>, from: nat, end: nat): (i: nat)
    requires from <= end <= |items|
    reads items`itemType
    ensures from <= i <= end
    ensures forall k | from <= k < i :: !items[k].itemType.isMagicField
    ensures i < end ==> items[i].itemType.isMagicField
    decreases end - from
  {
    if from == end || items[from].itemType.isMagicField then from else FirstField(items, from + 1, end)
  }

  // ----- Well-shaped vectors -------------------------------------------------------------------

  /** The split of the vector and the order of its upper part. */
  ghost predicate LayoutOf(items: seq<Item>, down: nat)
    reads items`itemType
  {
    && down <= |items|
    && (forall i | 0 <= i < down :: !items[i].itemType.alwaysOnTop)
    && (forall i | down <= i < |items| :: items[i].itemType.alwaysOnTop)
    && forall i, j | down <= i < j < |items| ::
         items[i].itemType.alwaysOnTopOrder <= items[j].itemType.alwaysOnTopOrder
  }

  /** Layer and order of an item. */
  datatype Layer = Layer(top: bool, order: nat)

  function LayerOf(t: ItemType): Layer {
    Layer(t.alwaysOnTop, t.alwaysOnTopOrder)
  }

  function Layers(items: seq<Item>): (r: seq<Layer>)
    reads items`itemType
    ensures |r| == |items| && forall k | 0 <= k < |items| :: r[k] == LayerOf(items[k].itemType)
  {
    if items == [] then [] else [LayerOf(items[0].itemType)] + Layers(items[1..])
  }

  /** The slot `k` of a well-shaped vector can take the layer: it is that of the slot, and the order lies between those
      of the neighbours. */
  predicate Takes(layers: seq<Layer>, down: nat, k: nat, x: Layer)
    requires k < |layers|
  {
    && (x.top <==> down <= k)
    && (down < k ==> layers[k - 1].order <= x.order)
    && (down <= k < |layers| - 1 ==> x.order <= layers[k + 1].order)
  }

  /** Well-shaped, by the layers. */
  ghost predicate Shaped(layers: seq<Layer>, down: nat) {
    && down <= |layers|
    && (forall i | 0 <= i < down :: !layers[i].top)
    && (forall i | down <= i < |layers| :: layers[i].top)
    && forall i, j | down <= i < j < |layers| :: layers[i].order <= layers[j].order
  }

  lemma {:induction false} LayoutLayers(items: seq<Item>, down: nat)
    ensures LayoutOf(items, down) <==> Shaped(Layers(items), down)
  {
    var layers := Layers(items);
    if Shaped(layers, down) {
      forall i, j | down <= i < j < |items|
        ensures items[i].itemType.alwaysOnTopOrder <= items[j].itemType.alwaysOnTopOrder
      {
        assert layers[i].order <= layers[j].order;
      }
      assert forall i | 0 <= i < |items| :: items[i].itemType.alwaysOnTop == layers[i].top;
    }
  }

  /** If one item of a well-shaped vector changes or is exchanged, the vector stays well-shaped exactly if its slot
      takes the new layer. */
  lemma {:induction false} OneChangedIff(layers: seq<Layer>, down: nat, k: nat, x: Layer)
    requires Shaped(layers, down) && k < |layers|
    ensures Shaped(layers[k := x], down) <==> Takes(layers, down, k, x)
  {
    var now := layers[k := x];
    assert now[k] == x;
    if Takes(layers, down, k, x) {
      forall i, j | down <= i < j < |now| ensures now[i].order <= now[j].order {
        assert layers[i].order <= layers[j].order;
        if i == k {
          assert layers[k + 1].order <= layers[j].order || j == k + 1;
        } else if j == k {
          assert layers[i].order <= layers[k - 1].order || i == k - 1;
        }
      }
    } else {
      assert k > 0 ==> now[k - 1] == layers[k - 1];
      assert k < |now| - 1 ==> now[k + 1] == layers[k + 1];
    }
  }

  lemma {:induction false} OnlyThere(items: seq<Item>, k: nat)
    requires Distinct(items) && k < |items|
    ensures forall i | 0 <= i < |items| && i != k :: items[i] != items[k]
  {
  }

  /** The first place of the item, or the end. */
  function IndexIn(items: seq<Item>, x: Item): (k: nat)
    ensures k <= |items| && (k < |items| ==> items[k] == x) && (k == |items| <==> x !in items)
  {
    if items == [] then 0 else if items[0] == x then 0 else 1 + IndexIn(items[1..], x)
  }

  /** At most one splash above the split. */
  ghost predicate OneSplash(items: seq<Item>, down: nat)
    reads items`itemType
  {
    forall i, j | down <= i < j < |items| :: !(items[i].itemType.isSplash && items[j].itemType.isSplash)
  }

  /** At most one magic field below the split. */
  ghost predicate OneField(items: seq<Item>, down: nat)
    reads items`itemType
  {
    forall i, j | 0 <= i < j < down <= |items| :: !(items[i].itemType.isMagicField && items[j].itemType.isMagicField)
  }

  ghost predicate Fits(items: seq<Item>, down: nat, i: nat, x: Item)
    requires down <= i <= |items|
    reads items`itemType, x`itemType
  {
    && x.itemType.alwaysOnTop
    && (forall k | down <= k < i :: items[k].itemType.alwaysOnTopOrder <= x.itemType.alwaysOnTopOrder)
    && forall k | i <= k < |items| :: x.itemType.alwaysOnTopOrder <= items[k].itemType.alwaysOnTopOrder
  }

  lemma {:induction false} SlotFits(items: seq<Item>, down: nat, i: nat, x: Item)
    requires LayoutOf(items, down) && down <= i <= |items| && x.itemType.alwaysOnTop
    requires forall k | down <= k < i :: items[k].itemType.alwaysOnTopOrder <= x.itemType.alwaysOnTopOrder
    requires i < |items| ==> x.itemType.alwaysOnTopOrder <= items[i].itemType.alwaysOnTopOrder
    ensures Fits(items, down, i, x)
  {
  }

  lemma {:induction false} InsertTopLayout(items: seq<Item>, down: nat, i: nat, x: Item)
    requires LayoutOf(items, down) && down <= i <= |items| && Fits(items, down, i, x)
    ensures LayoutOf(Insert(items, i, x), down)
  {
    var t := Insert(items, i, x);
    assert forall k | 0 <= k < |t| :: t[k] == if k < i then items[k] else if k == i then x else items[k - 1];
  }

  ghost predicate NoSplash(items: seq<Item>, down: nat)
    reads items`itemType
  {
    forall k | down <= k < |items| :: !items[k].itemType.isSplash
  }

  lemma {:induction false} InsertTopSingle(items: seq<Item>, down: nat, i: nat, x: Item)
    requires down <= i <= |items|
    ensures OneField(items, down) ==> OneField(Insert(items, i, x), down)
    ensures (if x.itemType.isSplash then NoSplash(items, down) else OneSplash(items, down)) ==>
              OneSplash(Insert(items, i, x), down)
  {
    var t := Insert(items, i, x);
    assert forall k | 0 <= k < |t| :: t[k] == if k < i then items[k] else if k == i then x else items[k - 1];
  }

  ghost predicate NoField(items: seq<Item>, down: nat)
    requires down <= |items|
    reads items`itemType
  {
    forall k | 0 <= k < down :: !items[k].itemType.isMagicField
  }

  lemma {:induction false} PushDownSingle(items: seq<Item>, down: nat, x: Item)
    requires down <= |items|
    ensures OneSplash(items, down) ==> OneSplash([x] + items, down + 1)
    ensures (if x.itemType.isMagicField then NoField(items, down) else OneField(items, down)) ==>
              OneField([x] + items, down + 1)
  {
    var t := [x] + items;
    assert forall k | 0 < k < |t| :: t[k] == items[k - 1];
  }

  /** With the only magic field gone, none is left. */
  lemma {:induction false} FieldGone(items: seq<Item>, down: nat, i: nat)
    requires i < down <= |items| && items[i].itemType.isMagicField && OneField(items, down)
    ensures NoField(Erase(items, i), down - 1)
  {
    var t := Erase(items, i);
    assert forall k | 0 <= k < |t| :: t[k] == items[if k < i then k else k + 1];
  }

  lemma {:induction false} PushDownLayout(items: seq<Item>, down: nat, x: Item)
    requires LayoutOf(items, down) && !x.itemType.alwaysOnTop
    ensures LayoutOf([x] + items, down + 1)
  {
    var t := [x] + items;
    assert forall k | 0 < k < |t| :: t[k] == items[k - 1];
  }

  lemma {:induction false} EraseLayout(items: seq<Item>, down: nat, i: nat)
    requires LayoutOf(items, down) && i < |items|
    ensures LayoutOf(Erase(items, i), if i < down then down - 1 else down)
    ensures OneSplash(items, down) ==> OneSplash(Erase(items, i), if i < down then down - 1 else down)
    ensures OneField(items, down) ==> OneField(Erase(items, i), if i < down then down - 1 else down)
  {
    var t := Erase(items, i);
    assert forall k | 0 <= k < |t| :: t[k] == items[if k < i then k else k + 1];
  }

  // ----- Properties of a set of items ----------------------------------------------------------

  ghost predicate OccursIn(all: set<Item>, prop: Property)
    reads all`itemType, all`uniqueId
  {
    exists x | x in all :: x.HasProperty(prop)
  }

  /** The flags are those of the properties that occur. */
  ghost predicate Exact(flags: set<Property>, all: set<Item>)
    reads all`itemType, all`uniqueId
  {
    forall prop: Property :: prop in flags <==> prop != ImmovableBlockPath && OccursIn(all, prop)
  }

  /** What setTileFlags makes of the flags. */
  ghost predicate SetFor(before: set<Property>, item: Item, after: set<Property>)
    reads item`itemType, item`uniqueId
  {
    forall prop: Property ::
      prop in after <==> prop in before || (prop != ImmovableBlockPath && item.HasProperty(prop))
  }

  /** What resetTileFlags makes of the flags. */
  ghost predicate ResetFor(before: set<Property>, item: Item, all: set<Item>, after: set<Property>)
    reads item`itemType, item`uniqueId, all`itemType, all`uniqueId
  {
    forall prop: Property ::
      prop in after <==> prop in before && (item.HasProperty(prop) ==> OccursIn(all - {item}, prop))
  }

  /** The properties that `item` has and no other of them. */
  ghost function Only(item: Item, all: set<Item>): set<Property>
    reads item`itemType, item`uniqueId, all`itemType, all`uniqueId
  {
    set prop: Property | item.HasProperty(prop) && !OccursIn(all - {item}, prop)
  }

  lemma {:induction false} SetKeepsExact(before: set<Property>, all: set<Item>, item: Item, after: set<Property>)
    requires Exact(before, all) && SetFor(before, item, after)
    ensures Exact(after, all + {item})
  {
    forall prop: Property
      ensures prop in after <==> prop != ImmovableBlockPath && OccursIn(all + {item}, prop)
    {
      assert item.HasProperty(prop) ==> OccursIn(all + {item}, prop) by {
        assert item in all + {item};
      }
      if OccursIn(all, prop) {
        var x :| x in all && x.HasProperty(prop);
        assert x in all + {item};
      }
    }
  }

  lemma {:induction false} ResetKeepsExact(before: set<Property>, all: set<Item>, item: Item, after: set<Property>)
    requires item in all && Exact(before, all) && ResetFor(before, item, all, after)
    ensures Exact(after, all - {item})
  {
    forall prop: Property
      ensures prop in after <==> prop != ImmovableBlockPath && OccursIn(all - {item}, prop)
    {
      if OccursIn(all, prop) {
        var x :| x in all && x.HasProperty(prop);
        assert x != item ==> x in all - {item};
      }
    }
  }

  /** The old item has left the stack and the new one is in it before the flags of either are looked at. */
  lemma {:induction false} ReplaceKeepsExact(
      before: set<Property>, all: set<Item>, oldItem: Item, item: Item, between: set<Property>, after: set<Property>)
    requires oldItem in all && item !in all && Exact(before, all)
    requires ResetFor(before, oldItem, all - {oldItem} + {item}, between) && SetFor(between, item, after)
    ensures Exact(after, all - {oldItem} + {item})
  {
    var now := all - {oldItem} + {item};
    forall prop: Property
      ensures prop in after <==> prop != ImmovableBlockPath && OccursIn(now, prop)
    {
      assert item in now;
      if OccursIn(all, prop) {
        var x :| x in all && x.HasProperty(prop);
        assert x != oldItem ==> x in now;
      }
    }
  }

  // ----- The tile ------------------------------------------------------------------------------

  /** What the rest of the server asks of a tile. */
  datatype Operation =
    | Add(thing: Thing)
    | Load(thing: Thing)
    | Remove(thing: Thing, count: nat)
    | Update(thing: Thing, itemType: ItemType, count: nat)
    | Replace(index: nat, item: Item)
  {
    /** The item that the operation names. */
    function Mentioned(): set<Item> {
      match this
      case Replace(_, item) => {item}
      case _ => if thing.ItemThing? then {thing.item} else {}
    }
  }

  /** The item part of a tile. */
  datatype Stack = Stack(ground: Item?, items: seq<Item>, down: nat)

  /** The vector less its first splash above the split. */
  function SplashGone(items: seq<Item>, down: nat): (r: seq<Item>)
    requires down <= |items|
    reads items`itemType
    ensures down <= |r| <= |items|
    ensures forall x | x in r :: x in items
  {
    var splash := FirstSplash(items, down);
    if splash < |items| && items[splash].itemType.alwaysOnTop then
      Erase(items, splash)
    else
      items
  }

  /** What `addThing` makes of a stack. */
  function AddedTo(s: Stack, item: Item): (r: Stack)
    requires s.down <= |s.items|
    reads s.items`itemType, item`itemType
    ensures r.down <= |r.items|
  {
    var items, down := s.items, s.down;
    if |items| >= MAX_ITEMS then s
    else if item.itemType.isGroundTile then s.(ground := item)
    else if item.itemType.alwaysOnTop then
      var rest := if item.itemType.isSplash then SplashGone(items, down) else items;
      s.(items := Insert(rest, SlotBefore(rest, down, item.itemType.alwaysOnTopOrder), item))
    else
      var field := if item.itemType.isMagicField then FirstField(items, 0, down) else down;
      if field == down then s.(items := [item] + items, down := down + 1)
      else if !items[field].itemType.canBeReplaced then s
      else if items[field].itemType.alwaysOnTop then s.(items := [item] + items, down := down + 1)
      else s.(items := [item] + Erase(items, field))
  }

  function ItemThings(s: seq<Item>): (r: seq<Thing>)
    ensures |r| == |s| && forall i | 0 <= i < |s| :: r[i] == ItemThing(s[i])
  {
    if s == [] then [] else [ItemThing(s[0])] + ItemThings(s[1..])
  }

  function CreatureThings(s: seq<Creature>): (r: seq<Thing>)
    ensures |r| == |s| && forall i | 0 <= i < |s| :: r[i] == CreatureThing(s[i])
  {
    if s == [] then [] else [CreatureThing(s[0])] + CreatureThings(s[1..])
  }

  /** The things of a tile in the order of their numbers: ground, top items, creatures, down items. */
  function ThingsOf(stack: Stack, creatures: seq<Creature>): (r: seq<Thing>)
    requires stack.down <= |stack.items|
    ensures |r| == (if stack.ground == null then 0 else 1) + |stack.items| + |creatures|
  {
    (if stack.ground == null then [] else [ItemThing(stack.ground)]) + ItemThings(stack.items[stack.down..])
    + CreatureThings(creatures) + ItemThings(stack.items[..stack.down])
  }

  /** An item put into the upper part of the vector, by numbers. */
  lemma {:induction false} ThingsInsertTop(s: Stack, creatures: seq<Creature>, k: nat, x: Item)
    requires s.down <= k <= |s.items|
    ensures ThingsOf(s.(items := Insert(s.items, k, x)), creatures)
         == Insert(ThingsOf(s, creatures), (if s.ground == null then 0 else 1) + k - s.down, ItemThing(x))
  {
    var tops, j := s.items[s.down..], k - s.down;
    var r := Insert(s.items, k, x);
    assert r[s.down..] == Insert(tops, j, x) && r[..s.down] == s.items[..s.down];
    hide Insert, ThingsOf;
    ItemThingsInsert(tops, j, x);
    InsertWithin(if s.ground == null then [] else [ItemThing(s.ground)], ItemThings(tops), j, ItemThing(x),
                 CreatureThings(creatures) + ItemThings(s.items[..s.down]));
    AroundTops(s, creatures);
    AroundTops(s.(items := r), creatures);
  }

  lemma {:induction false} ItemThingsInsert(s: seq<Item>, i: nat, x: Item)
    requires i <= |s|
    ensures ItemThings(Insert(s, i, x)) == Insert(ItemThings(s), i, ItemThing(x))
  {
  }

  lemma {:induction false} ItemThingsErase(s: seq<Item>, i: nat)
    requires i < |s|
    ensures ItemThings(Erase(s, i)) == Erase(ItemThings(s), i)
  {
  }

  /** An item put in front of the vector, by numbers: right behind the creatures. */
  lemma {:induction false} ThingsPushDown(s: Stack, creatures: seq<Creature>, x: Item)
    requires s.down <= |s.items|
    ensures ThingsOf(s.(items := [x] + s.items, down := s.down + 1), creatures)
         == Insert(ThingsOf(s, creatures),
                   (if s.ground == null then 0 else 1) + |s.items| - s.down + |creatures|, ItemThing(x))
  {
    var r := [x] + s.items;
    assert r[s.down + 1..] == s.items[s.down..] && r[..s.down + 1] == [x] + s.items[..s.down];
    hide ThingsOf, Insert;
    ItemThingsPush(s.items[..s.down], x);
    PushBehind(BeforeDowns(s, creatures), ItemThings(s.items[..s.down]), ItemThing(x));
    AroundDowns(s, creatures);
    AroundDowns(s.(items := r, down := s.down + 1), creatures);
  }

  lemma {:induction false} ItemThingsPush(s: seq<Item>, x: Item)
    ensures ItemThings([x] + s) == [ItemThing(x)] + ItemThings(s)
  {
    assert ([x] + s)[1..] == s;
  }

  lemma {:induction false} PushBehind<T>(a: seq<T>, b: seq<T>, x: T)
    ensures a + ([x] + b) == Insert(a + b, |a|, x)
  {
    assert (a + b)[..|a|] == a && (a + b)[|a|..] == b;
  }

  /** An item taken out of the upper part, by numbers. */
  lemma {:induction false} ThingsEraseTop(s: Stack, creatures: seq<Creature>, k: nat)
    requires s.down <= k < |s.items|
    ensures ThingsOf(s.(items := Erase(s.items, k)), creatures)
         == Erase(ThingsOf(s, creatures), (if s.ground == null then 0 else 1) + k - s.down)
  {
    var tops, j := s.items[s.down..], k - s.down;
    var r := Erase(s.items, k);
    assert r[s.down..] == Erase(tops, j) && r[..s.down] == s.items[..s.down];
    hide Erase, ThingsOf;
    ItemThingsErase(tops, j);
    EraseWithin(if s.ground == null then [] else [ItemThing(s.ground)], ItemThings(tops), j,
                CreatureThings(creatures) + ItemThings(s.items[..s.down]));
    AroundTops(s, creatures);
    AroundTops(s.(items := r), creatures);
  }

  /** An item taken out of the lower part, by numbers. */
  lemma {:induction false} ThingsEraseDown(s: Stack, creatures: seq<Creature>, k: nat)
    requires k < s.down <= |s.items|
    ensures ThingsOf(s.(items := Erase(s.items, k), down := s.down - 1), creatures)
         == Erase(ThingsOf(s, creatures),
                  (if s.ground == null then 0 else 1) + |s.items| - s.down + |creatures| + k)
  {
    hide Erase, ThingsOf, ItemThings, CreatureThings;
    var down := s.items[..s.down];
    var r := Erase(s.items, k);
    SlicesAfterErase(s.items, s.down, k);
    ItemThingsErase(down, k);
    EraseBehind(BeforeDowns(s, creatures), ItemThings(down), k);
    AroundDowns(s, creatures);
    AroundDowns(s.(items := r, down := s.down - 1), creatures);
  }

  lemma {:induction false} SlicesAfterErase(items: seq<Item>, down: nat, k: nat)
    requires k < down <= |items|
    ensures Erase(items, k)[down - 1..] == items[down..]
    ensures Erase(items, k)[..down - 1] == Erase(items[..down], k)
  {
  }

  /** What is numbered before the down items. */
  function BeforeDowns(s: Stack, creatures: seq<Creature>): (r: seq<Thing>)
    requires s.down <= |s.items|
    ensures |r| == (if s.ground == null then 0 else 1) + |s.items| - s.down + |creatures|
  {
    (if s.ground == null then [] else [ItemThing(s.ground)]) + ItemThings(s.items[s.down..]) + CreatureThings(creatures)
  }

  lemma {:induction false} AroundDowns(s: Stack, creatures: seq<Creature>)
    requires s.down <= |s.items|
    ensures ThingsOf(s, creatures) == BeforeDowns(s, creatures) + ItemThings(s.items[..s.down])
  {
  }

  lemma {:induction false} EraseBehind<T>(a: seq<T>, b: seq<T>, j: nat)
    requires j < |b|
    ensures a + Erase(b, j) == Erase(a + b, |a| + j)
  {
  }

  /** One item taken out of the lower part and another put in front. */
  lemma {:induction false} ThingsSwapDown(s: Stack, creatures: seq<Creature>, f: nat, x: Item)
    requires f < s.down <= |s.items|
    ensures var behind := (if s.ground == null then 0 else 1) + |s.items| - s.down + |creatures|;
            ThingsOf(s.(items := [x] + Erase(s.items, f)), creatures)
            == Insert(Erase(ThingsOf(s, creatures), behind + f), behind, ItemThing(x))
  {
    hide ThingsOf, Insert, Erase;
    var rest := s.(items := Erase(s.items, f), down := s.down - 1);
    ThingsEraseDown(s, creatures, f);
    ThingsPushDown(rest, creatures, x);
    assert rest.(items := [x] + rest.items, down := rest.down + 1) == s.(items := [x] + Erase(s.items, f));
  }

  lemma {:induction false} EraseWithin<T>(a: seq<T>, b: seq<T>, j: nat, c: seq<T>)
    requires j < |b|
    ensures a + Erase(b, j) + c == Erase(a + b + c, |a| + j)
  {
  }

  lemma {:induction false} AroundTops(s: Stack, creatures: seq<Creature>)
    requires s.down <= |s.items|
    ensures ThingsOf(s, creatures)
         == (if s.ground == null then [] else [ItemThing(s.ground)]) + ItemThings(s.items[s.down..])
            + (CreatureThings(creatures) + ItemThings(s.items[..s.down]))
  {
  }

  lemma {:induction false} InsertWithin<T>(a: seq<T>, b: seq<T>, j: nat, x: T, c: seq<T>)
    requires j <= |b|
    ensures a + Insert(b, j, x) + c == Insert(a + b + c, |a| + j, x)
  {
  }

  lemma {:induction false} ReplacedGround(stack: Stack, creatures: seq<Creature>, x: Item)
    requires stack.down <= |stack.items| && stack.ground != null
    ensures ThingsOf(stack.(ground := x), creatures) == ThingsOf(stack, creatures)[0 := ItemThing(x)]
  {
  }

  lemma {:induction false} ReplacedTop(stack: Stack, creatures: seq<Creature>, k: nat, x: Item)
    requires stack.down <= k < |stack.items|
    ensures var index := (if stack.ground == null then 0 else 1) + k - stack.down;
            ThingsOf(stack.(items := stack.items[k := x]), creatures)
            == ThingsOf(stack, creatures)[index := ItemThing(x)]
  {
    var tops, j := stack.items[stack.down..], k - stack.down;
    var items := stack.items[k := x];
    assert items[..stack.down] == stack.items[..stack.down] && items[stack.down..] == tops[j := x];
    hide ThingsOf;
    assert ItemThings(tops[j := x]) == ItemThings(tops)[j := ItemThing(x)];
    UpdateWithin(if stack.ground == null then [] else [ItemThing(stack.ground)], ItemThings(tops), j, ItemThing(x),
                 CreatureThings(creatures) + ItemThings(stack.items[..stack.down]));
    AroundTops(stack, creatures);
    AroundTops(stack.(items := items), creatures);
  }

  lemma {:induction false} UpdateWithin<T>(a: seq<T>, b: seq<T>, j: nat, x: T, c: seq<T>)
    requires j < |b|
    ensures a + b[j := x] + c == (a + b + c)[|a| + j := x]
  {
  }

  lemma {:induction false} ReplacedDown(stack: Stack, creatures: seq<Creature>, k: nat, x: Item)
    requires k < stack.down <= |stack.items|
    ensures var index := (if stack.ground == null then 0 else 1) + |stack.items| - stack.down + |creatures| + k;
            ThingsOf(stack.(items := stack.items[k := x]), creatures)
            == ThingsOf(stack, creatures)[index := ItemThing(x)]
  {
    var down := stack.items[..stack.down];
    var items := stack.items[k := x];
    assert items[stack.down..] == stack.items[stack.down..] && items[..stack.down] == down[k := x];
    hide ThingsOf;
    assert ItemThings(down[k := x]) == ItemThings(down)[k := ItemThing(x)];
    UpdateWithin(BeforeDowns(stack, creatures), ItemThings(down), k, ItemThing(x), []);
    AroundDowns(stack, creatures);
    AroundDowns(stack.(items := items), creatures);
  }

  /** How many of the creatures the onlooker does not see. */
  function Unseen(s: seq<Creature>, seen: set<Creature>): (n: nat)
    ensures n <= |s|
  {
    if s == [] then 0 else (if s[0] in seen then 0 else 1) + Unseen(s[1..], seen)
  }

  lemma {:induction false} UnseenIs(s: seq<Creature>, seen: set<Creature>)
    requires Distinct(s)
    ensures Unseen(s, seen) == |set c | c in s && c !in seen|
    decreases s
  {
    var all := set c | c in s && c !in seen;
    if s == [] {
      assert all == {};
    } else {
      var rest := set c | c in s[1..] && c !in seen;
      UnseenIs(s[1..], seen);
      assert s[0] !in s[1..];
      assert all == if s[0] in seen then rest else rest + {s[0]};
    }
  }

  lemma {:induction false} UnseenStep(s: seq<Creature>, k: nat, seen: set<Creature>)
    requires k < |s|
    ensures Unseen(s[..k + 1], seen) == Unseen(s[..k], seen) + if s[k] in seen then 0 else 1
    decreases k
  {
    if k == 0 {
      assert s[..1] == [s[0]] && s[..1][1..] == [];
    } else {
      assert s[..k + 1][1..] == s[1..][..k] && s[..k][1..] == s[1..][..k - 1];
      UnseenStep(s[1..], k - 1, seen);
    }
  }

  lemma {:induction false} UnseenPrefix(s: seq<Creature>, k: nat, seen: set<Creature>)
    requires k <= |s|
    ensures Unseen(s, seen) <= Unseen(s[..k], seen) + |s| - k
    decreases |s| - k
  {
    if k == |s| {
      assert s[..k] == s;
    } else {
      UnseenStep(s, k, seen);
      UnseenPrefix(s, k + 1, seen);
    }
  }

  /** A stack of `had` items less `count`: the subtraction is done on 32 bits and read as signed. */
  function Remainder(had: nat, count: nat): (r: nat)
    ensures count <= had < 0x100 ==> r == had - count
    ensures had < count <= 0x8000_0000 ==> r == 0
  {
    var difference := (had - count) % 0x1_0000_0000;
    if difference < 0x8000_0000 then difference % 0x100 else 0
  }

  class Tile {
    var ground: Item?
    var items: seq<Item>
    var downItemCount: nat
    var creatures: seq<Creature>
    var flags: set<Property>

    constructor ()
      ensures Now() == Stack(null, [], 0) && creatures == [] && flags == {}
      ensures Valid() && Layout() && FlagsExact() && Single()
    {
      ground, items, downItemCount, creatures, flags := null, [], 0, [], {};
      new;
      assert All() == {};
    }

    function Now(): Stack
      reads `ground, `items, `downItemCount
    {
      Stack(ground, items, downItemCount)
    }

    /** All items on the tile. */
    ghost function All(): set<Item>
      reads `ground, `items
    {
      (if ground == null then {} else {ground}) + (set x | x in items)
    }

    /** No thing is on the tile twice. */
    ghost predicate Valid()
      reads `ground, `items, `downItemCount, `creatures
    {
      && downItemCount <= |items| <= MAX_ITEMS
      && Distinct(items)
      && Distinct(creatures)
      && (ground != null ==> ground !in items)
    }

    ghost predicate Layout()
      reads `items, `downItemCount, items`itemType
    {
      LayoutOf(items, downItemCount)
    }

    ghost predicate Single()
      reads `items, `downItemCount, items`itemType
    {
      OneSplash(items, downItemCount) && OneField(items, downItemCount)
    }

    ghost predicate FlagsExact()
      reads `ground, `items, `flags, All()`itemType, All()`uniqueId
    {
      Exact(flags, All())
    }

    /** What the cached flags say about the types of the items on the tile. */
    lemma {:induction false} FlagsMean()
      requires FlagsExact()
      ensures BlockSolid in flags <==> exists x | x in All() :: x.itemType.blockSolid
      ensures ImmovableBlockSolid in flags
         <==> exists x | x in All() :: x.itemType.blockSolid && (!x.itemType.moveable || x.uniqueId)
      ensures BlockPath in flags <==> exists x | x in All() :: x.itemType.blockPathFind
      ensures NoFieldBlockPath in flags
         <==> exists x | x in All() :: x.itemType.blockPathFind && !x.itemType.isMagicField
      ensures ImmovableNoFieldBlockPath in flags
         <==> exists x | x in All() :: x.itemType.blockPathFind && !x.itemType.isMagicField
                                       && (!x.itemType.moveable || x.uniqueId)
      ensures ImmovableBlockPath !in flags
    {
      hide All;
      assert forall prop: Property :: prop in flags <==> prop != ImmovableBlockPath && OccursIn(All(), prop);
    }

    predicate Absent(thing: Thing)
      reads `ground, `items, `creatures
    {
      match thing
      case ItemThing(x) => x != ground && x !in items
      case CreatureThing(c) => c !in creatures
    }

    // ----- Properties and flags ----------------------------------------------------------------

    method HasProperty(prop: Property) returns (r: bool)
      ensures r <==> OccursIn(All(), prop)
    {
      if ground != null && ground.HasProperty(prop) {
        assert ground in All();
        return true;
      }
      for k := 0 to |items|
        invariant forall i | 0 <= i < k :: !items[i].HasProperty(prop)
      {
        if items[k].HasProperty(prop) {
          assert items[k] in All();
          return true;
        }
      }
      return false;
    }

    method HasPropertyBeside(exclude: Item, prop: Property) returns (r: bool)
      ensures r <==> OccursIn(All() - {exclude}, prop)
    {
      if ground != null && exclude != ground && ground.HasProperty(prop) {
        assert ground in All() - {exclude};
        return true;
      }
      for k := 0 to |items|
        invariant forall i | 0 <= i < k :: items[i] == exclude || !items[i].HasProperty(prop)
      {
        if items[k] != exclude && items[k].HasProperty(prop) {
          assert items[k] in All() - {exclude};
          return true;
        }
      }
      return false;
    }

    method SetTileFlags(item: Item)
      modifies `flags
      ensures SetFor(old(flags), item, flags)
    {
      if item.HasProperty(ImmovableBlockSolid) {
        flags := flags + {ImmovableBlockSolid};
      }
      if item.HasProperty(BlockPath) {
        flags := flags + {BlockPath};
      }
      if item.HasProperty(NoFieldBlockPath) {
        flags := flags + {NoFieldBlockPath};
      }
      if item.HasProperty(ImmovableNoFieldBlockPath) {
        flags := flags + {ImmovableNoFieldBlockPath};
      }
      if item.HasProperty(BlockSolid) {
        flags := flags + {BlockSolid};
      }
    }

    /** One flag of resetTileFlags. */
    method ResetFlag(item: Item, prop: Property)
      modifies `flags
      ensures flags == if prop in Only(item, All()) then old(flags) - {prop} else old(flags)
    {
      if item.HasProperty(prop) {
        var beside := HasPropertyBeside(item, prop);
        if !beside {
          flags := flags - {prop};
        }
      }
    }

    method ResetTileFlags(item: Item)
      modifies `flags
      ensures ResetFor(old(flags), item, All(), flags)
    {
      ResetEachFlag(item);
    }

    method ResetEachFlag(item: Item)
      modifies `flags
      ensures flags == old(flags) - Only(item, All())
    {
      hide Only;
      ghost var all := All();
      ghost var stale := Only(item, all);
      ResetFlag(item, BlockSolid);
      ResetFlag(item, ImmovableBlockSolid);
      ResetFlag(item, BlockPath);
      ResetFlag(item, NoFieldBlockPath);
      ResetFlag(item, ImmovableBlockPath);
      ResetFlag(item, ImmovableNoFieldBlockPath);
      assert All() == all;
      assert Only(item, all) == stale;
      forall prop: Property
        ensures prop in flags <==> prop in old(flags) && prop !in stale
      {
        match prop {
          case BlockSolid =>
          case ImmovableBlockSolid =>
          case BlockPath =>
          case NoFieldBlockPath =>
          case ImmovableBlockPath =>
          case ImmovableNoFieldBlockPath =>
        }
      }
    }

    // ----- Numbering ---------------------------------------------------------------------------

    /** The things on the tile in the order of their numbers. */
    ghost function Things(): (r: seq<Thing>)
      requires Valid()
      reads `ground, `items, `downItemCount, `creatures
      ensures |r| == (if ground == null then 0 else 1) + |items| + |creatures|
    {
      ThingsOf(Now(), creatures)
    }

    /** The thing with the number `index`, region by region. */
    lemma {:induction false} ThingsAt(index: nat)
      requires Valid() && index < |Things()|
      ensures var first := if ground == null then 0 else 1;
              var top := first + |items| - downItemCount;
              var down := top + |creatures|;
              && (ground != null && index == 0 ==> Things()[index] == ItemThing(ground))
              && (first <= index < top ==> Things()[index] == ItemThing(items[downItemCount + index - first]))
              && (top <= index < down ==> Things()[index] == CreatureThing(creatures[index - top]))
              && (down <= index ==> Things()[index] == ItemThing(items[index - down]))
    {
    }

    lemma {:induction false} TopAt(k: nat)
      requires Valid() && downItemCount <= k < |items|
      ensures Things()[(if ground == null then 0 else 1) + k - downItemCount] == ItemThing(items[k])
    {
      hide ThingsOf, Distinct;
      ThingsAt((if ground == null then 0 else 1) + k - downItemCount);
    }

    lemma {:induction false} CreatureAt(k: nat)
      requires Valid() && k < |creatures|
      ensures Things()[(if ground == null then 0 else 1) + |items| - downItemCount + k] == CreatureThing(creatures[k])
    {
      hide ThingsOf, Distinct;
      ThingsAt((if ground == null then 0 else 1) + |items| - downItemCount + k);
    }

    lemma {:induction false} DownAt(k: nat)
      requires Valid() && k < downItemCount
      ensures Things()[(if ground == null then 0 else 1) + |items| - downItemCount + |creatures| + k]
           == ItemThing(items[k])
    {
      hide ThingsOf, Distinct;
      ThingsAt((if ground == null then 0 else 1) + |items| - downItemCount + |creatures| + k);
    }

    lemma {:induction false} ThingsDistinct()
      requires Valid()
      ensures Distinct(Things())
    {
      hide ThingsOf;
      forall i, j | 0 <= i < j < |Things()|
        ensures Things()[i] != Things()[j]
      {
        ThingsAt(i);
        ThingsAt(j);
      }
    }

    /** Where getThingIndex looks for the thing, it is. */
    ghost predicate Findable(thing: Thing)
      requires downItemCount <= |items|
      reads `ground, `items, `downItemCount, `creatures, (if thing.ItemThing? then {thing.item} else {})`itemType
    {
      match thing
      case ItemThing(x) =>
        x == ground || if x.itemType.alwaysOnTop then x in items[downItemCount..] else x in items[..downItemCount]
      case CreatureThing(c) => c in creatures
    }

    /** The position in `items` or `creatures` at which getThingIndex meets the thing, unless it is the ground. */
    ghost function Place(thing: Thing): (k: nat)
      requires Valid() && Findable(thing)
      reads `ground, `items, `downItemCount, `creatures, (if thing.ItemThing? then {thing.item} else {})`itemType
      ensures match thing
              case CreatureThing(c) => k < |creatures| && creatures[k] == c
              case ItemThing(x) =>
                x == ground
                || (k < |items| && items[k] == x && (x.itemType.alwaysOnTop <==> downItemCount <= k))
    {
      match thing
      case CreatureThing(c) =>
        var k :| 0 <= k < |creatures| && creatures[k] == c;
        k
      case ItemThing(x) =>
        if x == ground then 0
        else if x.itemType.alwaysOnTop then
          var k :| 0 <= k < |items| - downItemCount && items[downItemCount..][k] == x;
          downItemCount + k
        else
          var k :| 0 <= k < downItemCount && items[..downItemCount][k] == x;
          k
    }

    lemma {:induction false} LayoutFinds(k: nat)
      requires Valid() && Layout() && k < |items|
      ensures Findable(ItemThing(items[k]))
    {
      PlaceOf(k);
    }

    lemma {:induction false} PlaceOf(k: nat)
      requires Valid() && k < |items|
      ensures Findable(ItemThing(items[k])) <==> (items[k].itemType.alwaysOnTop <==> downItemCount <= k)
      ensures Findable(ItemThing(items[k])) ==> Place(ItemThing(items[k])) == k
    {
      assert downItemCount <= k ==> items[downItemCount..][k - downItemCount] == items[k];
      assert k < downItemCount ==> items[..downItemCount][k] == items[k];
    }

    /** The number of a thing that can be found. */
    ghost function IndexOf(thing: Thing): nat
      requires Valid() && Findable(thing)
      reads `ground, `items, `downItemCount, `creatures, (if thing.ItemThing? then {thing.item} else {})`itemType
    {
      var first := if ground == null then 0 else 1;
      if thing.CreatureThing? then first + |items| - downItemCount + Place(thing)
      else if thing.item == ground then 0
      else if thing.item.itemType.alwaysOnTop then first + Place(thing) - downItemCount
      else first + |items| - downItemCount + |creatures| + Place(thing)
    }

    lemma {:induction false} IndexOfFinds(thing: Thing)
      requires Valid() && Findable(thing)
      ensures IndexOf(thing) < |Things()| && Things()[IndexOf(thing)] == thing
    {
      hide ThingsOf, Distinct, Place;
      var place := Place(thing);
      if thing.CreatureThing? {
        CreatureAt(place);
      } else if thing.item == ground {
        ThingsAt(0);
      } else if thing.item.itemType.alwaysOnTop {
        TopAt(place);
      } else {
        DownAt(place);
      }
    }

    /** On a tile whose items are split as they should be, everything that is there is found at its number. */
    lemma {:induction false} IndexInvertsThings(index: nat)
      requires Valid() && Layout() && index < |Things()|
      ensures Findable(Things()[index]) && IndexOf(Things()[index]) == index
    {
      hide ThingsOf;
      ThingsAt(index);
      ThingsDistinct();
      var thing := Things()[index];
      if Findable(thing) {
        IndexOfFinds(thing);
      }
      if thing.ItemThing? && thing.item != ground {
        var k :| 0 <= k < |items| && items[k] == thing.item;
        if k < downItemCount {
          assert items[..downItemCount][k] == thing.item;
        } else {
          assert items[downItemCount..][k - downItemCount] == thing.item;
        }
      }
    }

    method GetThing(index: nat) returns (r: Option<Thing>)
      requires Valid()
      ensures r == if index < |Things()| then Some(Things()[index]) else None
    {
      hide ThingsOf;
      if index < |Things()| {
        ThingsAt(index);
      }
      var n: int := index;
      if ground != null {
        if n == 0 {
          return Some(ItemThing(ground));
        }
        n := n - 1;
      }
      var topItemSize := |items| - downItemCount;
      if n < topItemSize {
        return Some(ItemThing(items[downItemCount + n]));
      }
      n := n - topItemSize;
      if n < |creatures| {
        return Some(CreatureThing(creatures[n]));
      }
      n := n - |creatures|;
      if n < downItemCount {
        return Some(ItemThing(items[n]));
      }
      return None;
    }

    method GetThingIndex(thing: Thing) returns (r: int)
      requires Valid()
      ensures r == if Findable(thing) then IndexOf(thing) else -1
      ensures r != -1 ==> r < |Things()| && Things()[r] == thing
    {
      hide ThingsOf;
      if Findable(thing) {
        IndexOfFinds(thing);
      }
      ghost var found := Findable(thing);
      ghost var place := if found then Place(thing) else 0;
      var n: int := -1;
      if ground != null {
        if thing == ItemThing(ground) {
          return 0;
        }
        n := n + 1;
      }
      if thing.ItemThing? && thing.item.itemType.alwaysOnTop {
        for k := downItemCount to |items|
          invariant n == (if ground == null then -1 else 0) + k - downItemCount
          invariant found ==> k <= place
        {
          n := n + 1;
          if items[k] == thing.item {
            assert items[downItemCount..][k - downItemCount] == thing.item;
            return n;
          }
        }
      } else {
        n := n + (|items| - downItemCount);
      }
      if thing.CreatureThing? {
        for k := 0 to |creatures|
          invariant n == (if ground == null then -1 else 0) + |items| - downItemCount + k
          invariant found ==> k <= place
        {
          n := n + 1;
          if creatures[k] == thing.creature {
            return n;
          }
        }
      } else {
        n := n + |creatures|;
      }
      if thing.ItemThing? && !thing.item.itemType.alwaysOnTop {
        for k := 0 to downItemCount
          invariant n == (if ground == null then -1 else 0) + |items| - downItemCount + |creatures| + k
          invariant found ==> k <= place
        {
          n := n + 1;
          if items[k] == thing.item {
            assert items[..downItemCount][k] == thing.item;
            return n;
          }
        }
      }
      return -1;
    }

    /** The number an onlooker's client gives the item: numbers from 10 on do not exist there. */
    method GetStackposOfItem(seen: set<Creature>, item: Item) returns (r: int)
      requires Valid()
      ensures Findable(ItemThing(item)) ==>
                var unseen := set c | c in creatures && c !in seen;
                var n := IndexOf(ItemThing(item)) - if item == ground || item.itemType.alwaysOnTop then 0 else |unseen|;
                r == if n < 10 then n else -1
      ensures !Findable(ItemThing(item)) ==> r == -1
    {
      hide ThingsOf;
      ghost var found := Findable(ItemThing(item));
      ghost var place := if found then Place(ItemThing(item)) else 0;
      var first: int := if ground == null then 0 else 1;
      var n: int := first;
      if ground == item {
        return 0;
      }
      if item.itemType.alwaysOnTop {
        for k := downItemCount to |items|
          invariant n == first + k - downItemCount < 10
          invariant found ==> k <= place
        {
          if items[k] == item {
            assert items[downItemCount..][k - downItemCount] == item;
            return n;
          }
          n := n + 1;
          if n == 10 {
            return -1;
          }
        }
      } else {
        UnseenIs(creatures, seen);
        r := StackposOfDownItem(seen, item, n);
        return;
      }
      return -1;
    }

    /** The second half of getStackposOfItem, for an item below the creatures. */
    method StackposOfDownItem(seen: set<Creature>, item: Item, first: int) returns (r: int)
      requires Valid() && item != ground && !item.itemType.alwaysOnTop
      requires first == if ground == null then 0 else 1
      ensures Findable(ItemThing(item)) ==>
                var n := IndexOf(ItemThing(item)) - Unseen(creatures, seen);
                r == if n < 10 then n else -1
      ensures !Findable(ItemThing(item)) ==> r == -1
    {
      hide ThingsOf;
      ghost var found := Findable(ItemThing(item));
      ghost var place := if found then Place(ItemThing(item)) else 0;
      var n := first + (|items| - downItemCount);
      if n >= 10 {
        return -1;
      }
      for k := 0 to |creatures|
        invariant n == first + |items| - downItemCount + k - Unseen(creatures[..k], seen) < 10
      {
        UnseenStep(creatures, k, seen);
        if creatures[k] in seen {
          n := n + 1;
          if n >= 10 {
            UnseenPrefix(creatures, k + 1, seen);
            return -1;
          }
        }
      }
      assert creatures[..|creatures|] == creatures;
      for k := 0 to downItemCount
        invariant n == first + |items| - downItemCount + |creatures| + k - Unseen(creatures, seen) < 10
        invariant found ==> k <= place
      {
        if items[k] == item {
          assert items[..downItemCount][k] == item;
          return n;
        }
        n := n + 1;
        if n >= 10 {
          return -1;
        }
      }
      return -1;
    }

    // ----- Adding and removing -----------------------------------------------------------------

    /** The stack after `addThing(item)`. */
    ghost function Added(item: Item): (r: Stack)
      requires Valid()
      reads `ground, `items, `downItemCount, `creatures, items`itemType, item`itemType
      ensures r.down <= |r.items|
    {
      AddedTo(Now(), item)
    }

    /** The stack after `internalAddThing(item)`. */
    ghost function Loaded(item: Item): Stack
      requires Valid()
      reads `ground, `items, `downItemCount, `creatures, items`itemType, item`itemType
    {
      if item.itemType.isGroundTile then (if ground == null then Now().(ground := item) else Now())
      else if |items| == MAX_ITEMS then Now()
      else if item.itemType.alwaysOnTop then
        Now().(items := Insert(items, SlotBehind(items, downItemCount, item.itemType.alwaysOnTopOrder), item))
      else Now().(items := [item] + items, down := downItemCount + 1)
    }

    predicate Partial(item: Item, count: nat)
      reads `ground, item`itemType, item`count
    {
      item != ground && !item.itemType.alwaysOnTop && item.itemType.stackable && count != item.count
    }

    /** The stack after `removeThing(item, count)`. */
    ghost function Removed(item: Item, count: nat): (r: Stack)
      requires Valid()
      ensures r.down <= |r.items|
      reads `ground, `items, `downItemCount, `creatures, item`itemType, item`count
    {
      if !Findable(ItemThing(item)) || Partial(item, count) then Now()
      else if item == ground then Now().(ground := null)
      else
        var k := Place(ItemThing(item));
        Now().(items := Erase(items, k), down := if k < downItemCount then downItemCount - 1 else downItemCount)
    }

    /** The first position of the item, as std::find searches it. */
    method Find(item: Item, from: nat, end: nat) returns (k: nat)
      requires from <= end <= |items|
      ensures from <= k <= end
      ensures k < end ==> items[k] == item
      ensures k == end ==> item !in items[from..end]
    {
      k := from;
      while k < end && items[k] != item
        invariant from <= k <= end
        invariant item !in items[from..k]
      {
        k := k + 1;
      }
    }

    method RemoveCreature(creature: Creature)
      requires Valid()
      modifies `creatures
      ensures Valid()
      ensures creatures == old(Without(creatures, creature))
    {
      var k := 0;
      while k < |creatures| && creatures[k] != creature
        invariant k <= |creatures|
        invariant creature !in creatures[..k]
      {
        k := k + 1;
      }
      if k < |creatures| {
        WithoutErases(creatures, k);
        EraseKeeps(creatures, k);
        creatures := Erase(creatures, k);
      } else {
        assert creatures[..k] == creatures;
        WithoutAbsent(creatures, creature);
      }
    }

    /** What the removal of an item has in common: the cell is out of the stack and its flags follow. */
    method TakeOut(item: Item, k: nat)
      requires Valid() && k < |items| && items[k] == item
      modifies `items, `downItemCount, `flags
      ensures Valid()
      ensures items == old(Erase(items, k))
      ensures downItemCount == old(if k < downItemCount then downItemCount - 1 else downItemCount)
      ensures old(FlagsExact()) ==> FlagsExact()
    {
      ghost var before, all := flags, All();
      EraseKeeps(items, k);
      items := Erase(items, k);
      if k < downItemCount {
        downItemCount := downItemCount - 1;
      }
      assert All() == all - {item};
      ResetTileFlags(item);
      assert All() - {item} == all - {item};
      if Exact(before, all) {
        ResetKeepsExact(before, all, item, flags);
      }
    }

    method TakeGround()
      requires Valid() && ground != null
      modifies `ground, `flags
      ensures Valid() && ground == null
      ensures old(FlagsExact()) ==> FlagsExact()
    {
      ghost var before, all, item := flags, All(), ground;
      var oldGround := ground;
      ground := null;
      assert All() == all - {item};
      ResetTileFlags(oldGround);
      assert All() - {item} == all - {item};
      if Exact(before, all) {
        ResetKeepsExact(before, all, item, flags);
      }
    }

    method RemoveItem(item: Item, count: nat)
      requires Valid()
      modifies `ground, `items, `downItemCount, `flags, item`count
      ensures Valid()
      ensures Now() == old(Removed(item, count))
      ensures item.count == if old(Findable(ItemThing(item)) && Partial(item, count))
                            then Remainder(old(item.count), count) else old(item.count)
      ensures old(FlagsExact()) ==> FlagsExact()
    {
      hide IndexOf, Exact, Erase, Remainder, ThingsOf, Distinct, Place;
      var index := GetThingIndex(ItemThing(item));
      if index == -1 {
        return;
      }
      if item == ground {
        TakeGround();
      } else if item.itemType.alwaysOnTop {
        var k := Find(item, downItemCount, |items|);
        assert items[downItemCount..|items|] == items[downItemCount..];
        PlaceOf(k);
        TakeOut(item, k);
      } else {
        var k := Find(item, 0, downItemCount);
        assert items[0..downItemCount] == items[..downItemCount];
        PlaceOf(k);
        if item.itemType.stackable && count != item.count {
          LowerCount(item, count);
        } else {
          TakeOut(item, k);
        }
      }
    }

    method LowerCount(item: Item, count: nat)
      modifies item`count
      ensures item.count == Remainder(old(item.count), count)
      ensures old(FlagsExact()) ==> FlagsExact()
    {
      item.count := Remainder(item.count, count);
      assert forall x, prop | x in All() :: x.HasProperty(prop) == old(x.HasProperty(prop));
    }

    /** What every addition has in common: `item` is in the stack and its flags are set. */
    method OnAddTileItem(item: Item, ghost before: set<Property>, ghost all: set<Item>)
      requires All() == all + {item} && flags == before
      modifies `flags
      ensures Exact(before, all) ==> FlagsExact()
    {
      SetTileFlags(item);
      if Exact(before, all) {
        SetKeepsExact(before, all, item, flags);
      }
    }

    method PushFront(item: Item)
      requires Valid() && |items| < MAX_ITEMS && Absent(ItemThing(item))
      modifies `items, `downItemCount, `flags
      ensures Valid()
      ensures Now() == old(Now().(items := [item] + items, down := downItemCount + 1))
      ensures old(FlagsExact()) ==> FlagsExact()
    {
      ghost var before, all := flags, All();
      items := [item] + items;
      downItemCount := downItemCount + 1;
      assert All() == all + {item};
      OnAddTileItem(item, before, all);
    }

    method InsertTop(item: Item, k: nat)
      requires Valid() && downItemCount <= k <= |items| < MAX_ITEMS && Absent(ItemThing(item))
      modifies `items, `flags
      ensures Valid()
      ensures items == Insert(old(items), k, item)
      ensures old(FlagsExact()) ==> FlagsExact()
    {
      ghost var before, all := flags, All();
      InsertKeeps(items, k, item);
      items := Insert(items, k, item);
      assert All() == all + {item};
      OnAddTileItem(item, before, all);
    }

    /** The new item in place of `old`, which has already left the stack: its flags go, those of the new one come. */
    method OnReplaceTileItem(oldItem: Item, item: Item, ghost before: set<Property>, ghost all: set<Item>)
      requires oldItem in all && item !in all && All() == all - {oldItem} + {item} && flags == before
      modifies `flags
      ensures Exact(before, all) ==> FlagsExact()
    {
      ResetTileFlags(oldItem);
      ghost var between := flags;
      SetTileFlags(item);
      if Exact(before, all) {
        ReplaceKeepsExact(before, all, oldItem, item, between, flags);
      }
    }

    method AddGround(item: Item)
      requires Valid() && Absent(ItemThing(item))
      modifies `ground, `flags
      ensures Valid() && ground == item
      ensures old(FlagsExact()) ==> FlagsExact()
    {
      ghost var before, all := flags, All();
      if ground == null {
        ground := item;
        assert All() == all + {item};
        OnAddTileItem(item, before, all);
      } else {
        var oldGround := ground;
        ground := item;
        assert All() == all - {oldGround} + {item};
        OnReplaceTileItem(oldGround, item, before, all);
      }
    }

    method AddTop(item: Item)
      requires Valid() && |items| < MAX_ITEMS && Absent(ItemThing(item))
      requires !item.itemType.isGroundTile && item.itemType.alwaysOnTop
      modifies `ground, `items, `downItemCount, `flags, items`count
      ensures Valid() && creatures == old(creatures) && Now() == old(Added(item))
      ensures forall x | x in old(items) :: x.count == old(x.count)
      ensures old(FlagsExact()) ==> FlagsExact()
    {
      hide Exact, Insert, Erase, SlotBefore, SplashGone, Distinct, OccursIn, ThingsOf, Unseen, FirstField;
      if item.itemType.isSplash {
        RemoveOldSplash();
      }
      ghost var rest := items;
      assert SlotBefore(rest, downItemCount, item.itemType.alwaysOnTopOrder)
          == old(SlotBefore(rest, downItemCount, item.itemType.alwaysOnTopOrder));
      var k := FindSlotBefore(item.itemType.alwaysOnTopOrder);
      InsertTop(item, k);
    }

    method FindSlotBefore(order: nat) returns (k: nat)
      requires downItemCount <= |items|
      ensures k == SlotBefore(items, downItemCount, order)
    {
      k := downItemCount;
      while k < |items| && items[k].itemType.alwaysOnTopOrder < order
        invariant downItemCount <= k <= |items|
        invariant SlotBefore(items, downItemCount, order) == SlotBefore(items, k, order)
      {
        k := k + 1;
      }
    }

    method RemoveOldSplash()
      requires Valid()
      modifies `ground, `items, `downItemCount, `flags, items`count
      ensures Valid() && creatures == old(creatures)
      ensures forall x | x in old(items) :: x.count == old(x.count)
      ensures Now() == old(Now().(items := SplashGone(items, downItemCount)))
      ensures old(FlagsExact()) ==> FlagsExact()
    {
      hide Exact, Erase, IndexOf, Place, Things, Distinct;
      var k := downItemCount;
      while k < |items| && !items[k].itemType.isSplash
        invariant downItemCount <= k <= |items|
        invariant FirstSplash(items, downItemCount) == FirstSplash(items, k)
      {
        k := k + 1;
      }
      if k < |items| {
        PlaceOf(k);
        var splash := items[k];
        EraseKeeps(items, k);
        RemoveItem(splash, 1);
      }
    }

    method AddDown(item: Item)
      requires Valid() && |items| < MAX_ITEMS && Absent(ItemThing(item))
      requires !item.itemType.isGroundTile && !item.itemType.alwaysOnTop
      modifies `ground, `items, `downItemCount, `flags, items`count
      ensures Valid() && creatures == old(creatures) && Now() == old(Added(item))
      ensures forall x | x in old(items) :: x.count == old(x.count)
      ensures old(FlagsExact()) ==> FlagsExact()
    {
      hide Exact, Erase, IndexOf, Place, Things, Distinct, OccursIn, SplashGone, FirstField;
      if item.itemType.isMagicField {
        var k := FindField();
        if k < downItemCount {
          PlaceOf(k);
          EraseKeeps(items, k);
          var oldField := items[k];
          if oldField.itemType.canBeReplaced {
            RemoveItem(oldField, 1);
          } else {
            return;
          }
        }
      }
      PushFront(item);
    }

    method FindField() returns (k: nat)
      requires downItemCount <= |items|
      ensures k == FirstField(items, 0, downItemCount)
    {
      k := 0;
      while k < downItemCount && !items[k].itemType.isMagicField
        invariant k <= downItemCount
        invariant FirstField(items, 0, downItemCount) == FirstField(items, k, downItemCount)
      {
        k := k + 1;
      }
    }

    method AddThing(thing: Thing)
      requires Valid() && Absent(thing)
      modifies `ground, `items, `downItemCount, `creatures, `flags, items`count
      ensures Valid()
      ensures creatures == if thing.CreatureThing? then [thing.creature] + old(creatures) else old(creatures)
      ensures Now() == if thing.CreatureThing? then old(Now()) else old(Added(thing.item))
      ensures forall x | x in old(items) :: x.count == old(x.count)
      ensures old(FlagsExact()) ==> FlagsExact()
      ensures old(Layout()) ==> Layout()
      ensures old(Layout() && Single()) ==> Single()
    {
      hide Exact, Added, LayoutOf, OneSplash, OneField;
      match thing {
        case CreatureThing(creature) =>
          creatures := [creature] + creatures;
        case ItemThing(item) =>
          ghost var after, shaped := Added(item), Layout();
          if shaped {
            AddedKeepsShape(item);
          }
          AddItem(item);
          assert shaped ==> old(LayoutOf(after.items, after.down));
          assert Now() == after && (shaped ==> LayoutOf(after.items, after.down));
      }
    }

    method AddItem(item: Item)
      requires Valid() && Absent(ItemThing(item))
      modifies `ground, `items, `downItemCount, `flags, items`count
      ensures Valid()
      ensures Now() == old(Added(item))
      ensures forall x | x in old(items) :: x.count == old(x.count)
      ensures old(FlagsExact()) ==> FlagsExact()
    {
      hide Exact, SplashGone, FirstField, SlotBefore, Insert, Erase;
      if |items| >= MAX_ITEMS {
        return;
      }
      if item.itemType.isGroundTile {
        AddGround(item);
      } else if item.itemType.alwaysOnTop {
        AddTop(item);
      } else {
        AddDown(item);
      }
    }

    method InternalAddThing(thing: Thing)
      requires Valid() && Absent(thing)
      modifies `ground, `items, `downItemCount, `creatures, `flags
      ensures Valid()
      ensures creatures == if thing.CreatureThing? then [thing.creature] + old(creatures) else old(creatures)
      ensures Now() == if thing.CreatureThing? then old(Now()) else old(Loaded(thing.item))
      ensures old(FlagsExact()) ==> FlagsExact()
      ensures old(Layout()) ==> Layout()
    {
      hide Exact, Loaded, LayoutOf;
      match thing {
        case CreatureThing(creature) =>
          creatures := [creature] + creatures;
        case ItemThing(item) =>
          ghost var after, shaped := Loaded(item), Layout();
          if shaped {
            LoadedKeepsShape(item);
          }
          InternalAddItem(item);
          assert shaped ==> old(LayoutOf(after.items, after.down));
          assert Now() == after && (shaped ==> LayoutOf(after.items, after.down));
      }
    }

    method InternalAddItem(item: Item)
      requires Valid() && Absent(ItemThing(item))
      modifies `ground, `items, `downItemCount, `flags
      ensures Valid()
      ensures Now() == old(Loaded(item))
      ensures old(FlagsExact()) ==> FlagsExact()
    {
      hide Exact, Insert;
      if item.itemType.isGroundTile {
        if ground == null {
          AddGround(item);
        }
        return;
      }
      if |items| >= MAX_ITEMS {
        return;
      }
      if item.itemType.alwaysOnTop {
        var k := FindSlotBehind(item.itemType.alwaysOnTopOrder);
        InsertTop(item, k);
      } else {
        PushFront(item);
      }
    }

    method FindSlotBehind(order: nat) returns (k: nat)
      requires downItemCount <= |items|
      ensures k == SlotBehind(items, downItemCount, order)
    {
      k := downItemCount;
      while k < |items| && items[k].itemType.alwaysOnTopOrder <= order
        invariant downItemCount <= k <= |items|
        invariant SlotBehind(items, downItemCount, order) == SlotBehind(items, k, order)
      {
        k := k + 1;
      }
    }

    // ----- Changing in place -------------------------------------------------------------------

    /** The slot `k` can take an item of the type. */
    predicate SlotTakes(k: nat, t: ItemType)
      requires k < |items|
      reads `items, `downItemCount, items`itemType
    {
      Takes(Layers(items), downItemCount, k, LayerOf(t))
    }

    /** The slot of an item, if it is in the vector: the one that an update concerns. */
    function SlotOf(thing: Thing): (k: Option<nat>)
      reads `ground, `items
      ensures k.Some? ==> k.value < |items|
    {
      if thing.ItemThing? && thing.item in items then Some(IndexIn(items, thing.item)) else None
    }

    /** The slot of the thing with a number, if it is in the vector: the one that a replacement concerns. */
    function SlotAt(index: nat): (k: Option<nat>)
      requires downItemCount <= |items|
      reads `ground, `items, `downItemCount, `creatures
      ensures k.Some? ==> k.value < |items|
    {
      var pos: int := if ground == null then index else index - 1;
      var tops := |items| - downItemCount;
      var down := pos - tops - |creatures|;
      if 0 <= pos < tops then Some(downItemCount + pos)
      else if 0 <= down < downItemCount && pos >= tops then Some(down)
      else None
    }

    method UpdateThing(thing: Thing, itemType: ItemType, count: nat)
      requires Valid()
      modifies `flags, (if thing.ItemThing? then {thing.item} else {})`itemType
      modifies (if thing.ItemThing? then {thing.item} else {})`count
      ensures thing.ItemThing? && old(Findable(thing)) ==> thing.item.itemType == itemType && thing.item.count == count
      ensures thing.ItemThing? && !old(Findable(thing)) ==>
                thing.item.itemType == old(thing.item.itemType) && thing.item.count == old(thing.item.count)
      ensures thing.CreatureThing? ==> flags == old(flags)
      ensures old(FlagsExact()) ==> FlagsExact()
      ensures old(Layout()) ==>
                (Layout() <==> old(match SlotOf(thing) case None => true case Some(k) => SlotTakes(k, itemType)))
    {
      hide IndexOf, Exact, Things, OccursIn, Distinct, LayoutOf, Takes, Layers, Shaped;
      ghost var slot, layers := SlotOf(thing), Layers(items);
      if slot.Some? && Layout() {
        LayoutFinds(slot.value);
        LayoutLayers(items, downItemCount);
      }
      var index := GetThingIndex(thing);
      if index == -1 || thing.CreatureThing? {
        return;
      }
      UpdateItem(thing.item, itemType, count);
      if old(Layout()) {
        if slot.Some? {
          OnlyThere(items, slot.value);
          assert Layers(items) == layers[slot.value := LayerOf(itemType)];
          LayoutLayers(items, downItemCount);
          OneChangedIff(layers, downItemCount, slot.value, LayerOf(itemType));
        } else {
          assert forall x | x in items :: x != thing.item;
        }
      }
    }

    method UpdateItem(item: Item, itemType: ItemType, count: nat)
      requires item in All()
      modifies `flags, item`itemType, item`count
      ensures item.itemType == itemType && item.count == count
      ensures old(FlagsExact()) ==> FlagsExact()
    {
      hide OccursIn, SetFor, ResetFor, Exact;
      ghost var before, all, exact := flags, All(), FlagsExact();
      ResetTileFlags(item);
      if exact {
        ResetKeepsExact(before, all, item, flags);
      }
      ghost var between := flags;
      item.itemType, item.count := itemType, count;
      SetTileFlags(item);
      if exact {
        assert Exact(between, all - {item});
        SetKeepsExact(between, all - {item}, item, flags);
        assert all - {item} + {item} == all;
      }
    }

    method ReplaceThing(index: nat, item: Item)
      requires Valid() && Absent(ItemThing(item))
      modifies `ground, `items, `flags
      ensures Valid()
      ensures Things() == old(if index < |Things()| && Things()[index].ItemThing?
                              then Things()[index := ItemThing(item)] else Things())
      ensures All() <= old(All()) + {item}
      ensures old(FlagsExact()) ==> FlagsExact()
      ensures items == match old(SlotAt(index)) case None => old(items) case Some(k) => old(items)[k := item]
      ensures downItemCount == old(downItemCount)
    {
      hide ThingsOf, Exact, OccursIn, Distinct;
      if index < |Things()| {
        ThingsAt(index);
      }
      ghost var stack := Now();
      var pos: int := index;
      if ground != null {
        if pos == 0 {
          ReplacedGround(stack, creatures, item);
          AddGround(item);
          return;
        }
        pos := pos - 1;
      }
      var topItemSize := |items| - downItemCount;
      if pos < topItemSize {
        ReplacedTop(stack, creatures, downItemCount + pos, item);
        ReplaceAt(downItemCount + pos, item);
        return;
      }
      pos := pos - topItemSize;
      if pos < |creatures| {
        return;
      }
      pos := pos - |creatures|;
      if pos < downItemCount {
        ReplacedDown(stack, creatures, pos, item);
        ReplaceAt(pos, item);
      }
    }

    static lemma {:induction false} ExchangedItems(was: seq<Item>, now: seq<Item>, k: nat, item: Item)
      requires k < |was| && Distinct(was) && item !in was && now == was[k := item]
      ensures Distinct(now)
      ensures (set x | x in now) == (set x | x in was) - {was[k]} + {item}
    {
      forall x | x in was && x != was[k]
        ensures x in now
      {
        var i :| 0 <= i < |was| && was[i] == x;
        assert now[i] == x;
      }
      assert now[k] == item;
    }

    method ReplaceAt(k: nat, item: Item)
      requires Valid() && k < |items| && Absent(ItemThing(item))
      modifies `items, `flags
      ensures Valid()
      ensures items == old(items)[k := item]
      ensures old(FlagsExact()) ==> FlagsExact()
    {
      ghost var before, all, was := flags, All(), items;
      hide Exact;
      var oldItem := items[k];
      items := Erase(items, k);
      items := Insert(items, k, item);
      assert items == was[k := item];
      ExchangedItems(was, items, k, item);
      hide Distinct;
      OnReplaceTileItem(oldItem, item, before, all);
    }

    // ----- Shape -------------------------------------------------------------------------------

    lemma {:induction false} SplashGoneKeeps()
      requires Valid() && Layout()
      ensures LayoutOf(SplashGone(items, downItemCount), downItemCount)
      ensures OneSplash(items, downItemCount) ==>
                NoSplash(SplashGone(items, downItemCount), downItemCount)
      ensures OneField(items, downItemCount) ==> OneField(SplashGone(items, downItemCount), downItemCount)
    {
      hide FirstSplash, Distinct;
      var splash := FirstSplash(items, downItemCount);
      if splash < |items| {
        EraseLayout(items, downItemCount, splash);
        var r := Erase(items, splash);
        assert forall k | 0 <= k < |r| :: r[k] == items[if k < splash then k else k + 1];
      }
    }

    lemma {:induction false} AddedTopKeeps(item: Item)
      requires Valid() && Layout() && item.itemType.alwaysOnTop
      ensures var rest := if item.itemType.isSplash then SplashGone(items, downItemCount) else items;
              var r := Insert(rest, SlotBefore(rest, downItemCount, item.itemType.alwaysOnTopOrder), item);
              && LayoutOf(r, downItemCount)
              && (Single() ==> OneSplash(r, downItemCount) && OneField(r, downItemCount))
    {
      var order := item.itemType.alwaysOnTopOrder;
      if item.itemType.isSplash {
        SplashGoneKeeps();
      }
      var rest := if item.itemType.isSplash then SplashGone(items, downItemCount) else items;
      hide SplashGone, LayoutOf, OneSplash, OneField, NoSplash, Insert, Fits;
      var k := SlotBefore(rest, downItemCount, order);
      SlotFits(rest, downItemCount, k, item);
      InsertTopLayout(rest, downItemCount, k, item);
      InsertTopSingle(rest, downItemCount, k, item);
    }

    lemma {:induction false} AddedDownKeeps(item: Item)
      requires Valid() && Layout() && |items| < MAX_ITEMS
      requires !item.itemType.isGroundTile && !item.itemType.alwaysOnTop
      ensures var r := Added(item);
              && LayoutOf(r.items, r.down)
              && (Single() ==> OneSplash(r.items, r.down) && OneField(r.items, r.down))
    {
      hide Distinct, Erase, OneSplash, OneField, SplashGone, SlotBefore, Insert, LayoutOf, FirstField, ThingsOf;
      LayoutIs();
      PushDownLayout(items, downItemCount, item);
      PushDownSingle(items, downItemCount, item);
      var field := FirstField(items, 0, downItemCount);
      if item.itemType.isMagicField && field < downItemCount {
        EraseLayout(items, downItemCount, field);
        var rest := Erase(items, field);
        PushDownLayout(rest, downItemCount - 1, item);
        PushDownSingle(rest, downItemCount - 1, item);
        if OneField(items, downItemCount) {
          FieldGone(items, downItemCount, field);
        }
        LowerIsDown(items, downItemCount, field);
      }
    }

    static lemma {:induction false} LowerIsDown(items: seq<Item>, down: nat, k: nat)
      requires LayoutOf(items, down) && k < down
      ensures !items[k].itemType.alwaysOnTop
    {
    }

    /** `addThing` keeps the split, the order, and at most one top splash and one magic field. */
    lemma {:induction false} AddedKeepsShape(item: Item)
      requires Valid() && Layout()
      ensures var r := Added(item);
              && LayoutOf(r.items, r.down)
              && (Single() ==> OneSplash(r.items, r.down) && OneField(r.items, r.down))
    {
      hide LayoutOf, OneSplash, OneField, SplashGone, SlotBefore, Insert, Erase;
      if |items| < MAX_ITEMS && !item.itemType.isGroundTile {
        if item.itemType.alwaysOnTop {
          AddedTopKeeps(item);
        } else {
          AddedDownKeeps(item);
        }
      }
    }

    lemma {:induction false} LoadedKeepsShape(item: Item)
      requires Valid() && Layout()
      ensures var r := Loaded(item); LayoutOf(r.items, r.down)
    {
      hide LayoutOf, Insert, Fits, Distinct;
      var order := item.itemType.alwaysOnTopOrder;
      if item.itemType.alwaysOnTop {
        var k := SlotBehind(items, downItemCount, order);
        SlotFits(items, downItemCount, k, item);
        InsertTopLayout(items, downItemCount, k, item);
      } else {
        PushDownLayout(items, downItemCount, item);
      }
    }

    lemma {:induction false} RemovedKeepsShape(item: Item, count: nat)
      requires Valid() && Layout()
      ensures var r := Removed(item, count);
              && LayoutOf(r.items, r.down)
              && (Single() ==> OneSplash(r.items, r.down) && OneField(r.items, r.down))
    {
      hide LayoutOf, OneSplash, OneField, Erase, Distinct, Place;
      if Findable(ItemThing(item)) && item != ground {
        assert LayoutOf(items, downItemCount);
        EraseLayout(items, downItemCount, Place(ItemThing(item)));
      }
    }

    method RemoveThing(thing: Thing, count: nat)
      requires Valid()
      modifies `ground, `items, `downItemCount, `creatures, `flags
      modifies (if thing.ItemThing? then {thing.item} else {})`count
      ensures Valid()
      ensures thing.CreatureThing? ==> Now() == old(Now()) && flags == old(flags)
      ensures thing.CreatureThing? ==> creatures == old(Without(creatures, thing.creature))
      ensures thing.ItemThing? ==> creatures == old(creatures) && Now() == old(Removed(thing.item, count))
      ensures thing.ItemThing? ==>
                thing.item.count == if old(Findable(thing) && Partial(thing.item, count))
                                    then Remainder(old(thing.item.count), count) else old(thing.item.count)
      ensures old(FlagsExact()) ==> FlagsExact()
      ensures old(Layout()) ==> Layout()
      ensures old(Layout() && Single()) ==> Single()
    {
      hide Exact, Removed, LayoutOf, OneSplash, OneField, Partial, Findable;
      match thing {
        case CreatureThing(creature) =>
          RemoveCreature(creature);
        case ItemThing(item) =>
          ghost var after, shaped := Removed(item, count), Layout();
          if shaped {
            RemovedKeepsShape(item, count);
          }
          RemoveItem(item, count);
          assert shaped ==> old(LayoutOf(after.items, after.down));
          assert Now() == after && (shaped ==> LayoutOf(after.items, after.down));
      }
    }

    /** No operation brings in an item that it does not name. */
    lemma {:induction false} OnlyNamed(item: Item, count: nat)
      requires Valid()
      ensures forall x | x in Added(item).items :: x == item || x in items
      ensures forall x | x in Loaded(item).items :: x == item || x in items
      ensures forall x | x in Removed(item, count).items :: x in items
      ensures Added(item).ground == ground || Added(item).ground == item
      ensures Loaded(item).ground == ground || Loaded(item).ground == item
      ensures Removed(item, count).ground == ground || Removed(item, count).ground == null
    {
      hide SlotBefore, SlotBehind, FirstField, SplashGone, Place, Distinct, Insert, Erase;
    }

    /** An item can take the place of another exactly if it is of the same layer and its order fits between those of
        its neighbours. */
    lemma {:induction false} ReplacedKeepsShapeIff(k: nat, item: Item)
      requires Layout() && k < |items|
      ensures LayoutOf(items[k := item], downItemCount) <==> SlotTakes(k, item.itemType)
    {
      hide LayoutOf, Takes, Shaped;
      var r := items[k := item];
      LayoutLayers(items, downItemCount);
      LayoutLayers(r, downItemCount);
      assert Layers(r) == Layers(items)[k := LayerOf(item.itemType)];
      OneChangedIff(Layers(items), downItemCount, k, LayerOf(item.itemType));
    }

    // ----- Where things come to lie ------------------------------------------------------------

    /** On a full tile nothing is added. */
    lemma {:induction false} FullStays(item: Item)
      requires Valid() && |items| >= 65535
      ensures Added(item) == Now() && (!item.itemType.isGroundTile ==> Loaded(item) == Now())
    {
    }

    /** A ground takes the place of the old one, or comes before everything. */
    lemma {:induction false} GroundLies(item: Item)
      requires Valid() && |items| < 65535 && item.itemType.isGroundTile
      ensures ThingsOf(Added(item), creatures)
           == if ground == null then [ItemThing(item)] + Things() else Things()[0 := ItemThing(item)]
    {
    }

    /** What `addThing` does to the stack, case by case. */
    lemma {:induction false} AddedDown(item: Item)
      requires Valid() && |items| < 65535 && !item.itemType.isGroundTile && !item.itemType.alwaysOnTop
      requires !item.itemType.isMagicField || FirstField(items, 0, downItemCount) == downItemCount
      ensures Added(item) == Stack(ground, [item] + items, downItemCount + 1)
    {
      hide Distinct, FirstField, Insert, SlotBefore, SplashGone;
    }

    lemma {:induction false} AddedField(item: Item)
      requires Valid() && |items| < 65535 && !item.itemType.isGroundTile && !item.itemType.alwaysOnTop
      requires item.itemType.isMagicField
      ensures var f := FirstField(items, 0, downItemCount);
              f < downItemCount && items[f].itemType.canBeReplaced && !items[f].itemType.alwaysOnTop ==>
                Added(item) == Stack(ground, [item] + Erase(items, f), downItemCount)
    {
      hide Distinct, FirstField, Insert, SlotBefore, SplashGone, Erase;
    }

    lemma {:induction false} AddedTop(item: Item)
      requires Valid() && |items| < 65535 && !item.itemType.isGroundTile && item.itemType.alwaysOnTop
      ensures var rest := if item.itemType.isSplash then SplashGone(items, downItemCount) else items;
              var k := SlotBefore(rest, downItemCount, item.itemType.alwaysOnTopOrder);
              Added(item) == Stack(ground, Insert(rest, k, item), downItemCount)
    {
      hide Distinct, FirstField, Insert, SlotBefore, SplashGone, Erase;
    }

    lemma {:induction false} NumbersNow()
      requires Valid()
      ensures ThingsOf(Now(), creatures) == Things()
    {
    }

    lemma {:induction false} NumbersAreThings()
      requires Valid()
      ensures Things() == ThingsOf(Stack(ground, items, downItemCount), creatures)
    {
    }

    /** The slot in a sorted upper part parts the smaller orders from the others. */
    lemma {:induction false} SlotParts(items: seq<Item>, down: nat, order: nat)
      requires LayoutOf(items, down)
      ensures var k := SlotBefore(items, down, order);
              forall j | down <= j < |items| :: items[j].itemType.alwaysOnTopOrder < order <==> j < k
      ensures var k := SlotBehind(items, down, order);
              forall j | down <= j < |items| :: items[j].itemType.alwaysOnTopOrder <= order <==> j < k
    {
      hide SlotBefore, SlotBehind;
    }

    lemma {:induction false} NoSplashGone(items: seq<Item>, down: nat)
      requires down <= |items| && forall k | down <= k < |items| :: !items[k].itemType.isSplash
      ensures SplashGone(items, down) == items
    {
    }

    /** An item that is not always on top comes right behind the creatures, on top of all other such items. */
    lemma {:induction false} DownLies(item: Item)
      requires Valid() && |items| < 65535 && !item.itemType.isGroundTile && !item.itemType.alwaysOnTop
      requires !item.itemType.isMagicField || forall k | 0 <= k < downItemCount :: !items[k].itemType.isMagicField
      ensures ThingsOf(Added(item), creatures)
           == Insert(Things(), (if ground == null then 0 else 1) + |items| - downItemCount + |creatures|,
                     ItemThing(item))
    {
      hide Added, AddedTo, Things, ThingsOf, Insert, Erase, Distinct, LayoutOf;
      if item.itemType.isMagicField {
        NoFieldFound();
      }
      AddedDown(item);
      NumbersAreThings();
      ThingsPushDown(Stack(ground, items, downItemCount), creatures, item);
    }

    lemma {:induction false} NoFieldFound()
      requires downItemCount <= |items| && forall k | 0 <= k < downItemCount :: !items[k].itemType.isMagicField
      ensures FirstField(items, 0, downItemCount) == downItemCount
    {
    }

    /** So does a magic field, and the first one that was there is gone if it can be replaced... */
    lemma {:induction false} FieldLies(item: Item, f: nat)
      requires Valid() && Layout() && |items| < 65535
      requires !item.itemType.isGroundTile && !item.itemType.alwaysOnTop && item.itemType.isMagicField
      requires f < downItemCount && items[f].itemType.isMagicField && items[f].itemType.canBeReplaced
      requires forall k | 0 <= k < f :: !items[k].itemType.isMagicField
      ensures var behind := (if ground == null then 0 else 1) + |items| - downItemCount + |creatures|;
              ThingsOf(Added(item), creatures) == Insert(Erase(Things(), behind + f), behind, ItemThing(item))
    {
      hide *;
      Split();
      DownIsNotTop(f);
      FieldIsFirst(f);
      AddedField(item);
      NumbersAreThings();
      ThingsSwapDown(Stack(ground, items, downItemCount), creatures, f, item);
    }

    lemma {:induction false} DownIsNotTop(f: nat)
      requires Layout() && f < downItemCount
      ensures f < |items| && !items[f].itemType.alwaysOnTop
    {
    }

    /** ...and otherwise nothing changes. */
    lemma {:induction false} FieldStays(item: Item, f: nat)
      requires Valid() && !item.itemType.isGroundTile && !item.itemType.alwaysOnTop && item.itemType.isMagicField
      requires f < downItemCount && items[f].itemType.isMagicField && !items[f].itemType.canBeReplaced
      requires forall k | 0 <= k < f :: !items[k].itemType.isMagicField
      ensures ThingsOf(Added(item), creatures) == Things()
    {
      FieldIsFirst(f);
    }

    lemma {:induction false} FieldIsFirst(f: nat)
      requires downItemCount <= |items| && f < downItemCount && items[f].itemType.isMagicField
      requires forall k | 0 <= k < f :: !items[k].itemType.isMagicField
      ensures FirstField(items, 0, downItemCount) == f
    {
    }

    /** An item that is always on top comes before the first top item of at least its order. */
    lemma {:induction false} TopLies(item: Item) returns (t: nat)
      requires Valid() && Layout() && |items| < 65535 && !item.itemType.isGroundTile && item.itemType.alwaysOnTop
      requires !item.itemType.isSplash || forall k | downItemCount <= k < |items| :: !items[k].itemType.isSplash
      ensures t <= |items| - downItemCount
      ensures ThingsOf(Added(item), creatures)
           == Insert(Things(), (if ground == null then 0 else 1) + t, ItemThing(item))
      ensures forall k | downItemCount <= k < |items| ::
                items[k].itemType.alwaysOnTopOrder < item.itemType.alwaysOnTopOrder <==> k < downItemCount + t
    {
      hide Added, AddedTo, Things, ThingsOf, Insert, Erase, Distinct, LayoutOf;
      var k := SlotBefore(items, downItemCount, item.itemType.alwaysOnTopOrder);
      t := k - downItemCount;
      SlotParts(items, downItemCount, item.itemType.alwaysOnTopOrder);
      if item.itemType.isSplash {
        NoSplashGone(items, downItemCount);
      }
      AddedTop(item);
      NumbersAreThings();
      ThingsInsertTop(Stack(ground, items, downItemCount), creatures, k, item);
    }

    /** So does a splash, and the first one that was there is gone. */
    lemma {:induction false} SplashLies(item: Item, s: nat) returns (before: seq<Thing>, t: nat)
      requires Valid() && Layout() && |items| < 65535
      requires !item.itemType.isGroundTile && item.itemType.alwaysOnTop && item.itemType.isSplash
      requires downItemCount <= s < |items| && items[s].itemType.isSplash
      requires forall k | downItemCount <= k < s :: !items[k].itemType.isSplash
      ensures (if ground == null then 0 else 1) + s - downItemCount < |Things()|
              && before == Erase(Things(), (if ground == null then 0 else 1) + s - downItemCount)
      ensures (if ground == null then 0 else 1) + t <= |before| && t < |items| - downItemCount
              && ThingsOf(Added(item), creatures)
                 == Insert(before, (if ground == null then 0 else 1) + t, ItemThing(item))
      ensures forall k | downItemCount <= k < |items| && k != s ::
                items[k].itemType.alwaysOnTopOrder < item.itemType.alwaysOnTopOrder
                <==> (if k < s then k else k - 1) < downItemCount + t
    {
      hide *;
      Split();
      LayoutIs();
      OldSplash(s);
      var rest := Erase(items, s);
      EraseLayout(items, downItemCount, s);
      var k := SlotBefore(rest, downItemCount, item.itemType.alwaysOnTopOrder);
      t := k - downItemCount;
      SlotParts(rest, downItemCount, item.itemType.alwaysOnTopOrder);
      AddedTop(item);
      NumbersAreThings();
      ThingsEraseTop(Stack(ground, items, downItemCount), creatures, s);
      before := ThingsOf(Stack(ground, rest, downItemCount), creatures);
      ThingsInsertTop(Stack(ground, rest, downItemCount), creatures, k, item);
      forall j | downItemCount <= j < |items| && j != s
        ensures items[j].itemType.alwaysOnTopOrder < item.itemType.alwaysOnTopOrder
           <==> (if j < s then j else j - 1) < downItemCount + t
      {
        assert rest[if j < s then j else j - 1] == items[j];
      }
    }

    lemma {:induction false} LayoutIs()
      requires Layout()
      ensures LayoutOf(items, downItemCount)
    {
    }

    lemma {:induction false} OldSplash(s: nat)
      requires Layout() && downItemCount <= s < |items| && items[s].itemType.isSplash
      requires forall k | downItemCount <= k < s :: !items[k].itemType.isSplash
      ensures SplashGone(items, downItemCount) == Erase(items, s)
    {
      assert FirstSplash(items, downItemCount) == s;
    }

    lemma {:induction false} LoadedIs(item: Item)
      requires Valid() && |items| < 65535
      ensures Loaded(item)
           == if item.itemType.isGroundTile then (if ground == null then Stack(item, items, downItemCount) else Now())
              else if item.itemType.alwaysOnTop then
                Stack(ground, Insert(items, SlotBehind(items, downItemCount, item.itemType.alwaysOnTopOrder), item),
                      downItemCount)
              else Stack(ground, [item] + items, downItemCount + 1)
    {
      hide Distinct, Insert, SlotBehind;
    }

    lemma {:induction false} NewGround(item: Item)
      requires Valid() && ground == null
      ensures ThingsOf(Stack(item, items, downItemCount), creatures) == [ItemThing(item)] + Things()
    {
      hide Distinct;
    }

    /** A thing that is loaded: a ground only where there is none, an item that is always on top behind the last of at
        most its order, any other right behind the creatures. */
    lemma {:induction false} LoadedLies(item: Item) returns (t: nat)
      requires Valid() && Layout() && |items| < 65535
      ensures t <= |items| - downItemCount
      ensures var first := if ground == null then 0 else 1;
              ThingsOf(Loaded(item), creatures)
              == if item.itemType.isGroundTile then (if ground == null then [ItemThing(item)] + Things() else Things())
                 else if item.itemType.alwaysOnTop then Insert(Things(), first + t, ItemThing(item))
                 else Insert(Things(), first + |items| - downItemCount + |creatures|, ItemThing(item))
      ensures forall k | downItemCount <= k < |items| ::
                items[k].itemType.alwaysOnTopOrder <= item.itemType.alwaysOnTopOrder <==> k < downItemCount + t
    {
      hide Loaded, Things, ThingsOf, Insert, Distinct, LayoutOf;
      var k := SlotBehind(items, downItemCount, item.itemType.alwaysOnTopOrder);
      t := k - downItemCount;
      SlotParts(items, downItemCount, item.itemType.alwaysOnTopOrder);
      LoadedIs(item);
      NumbersAreThings();
      if item.itemType.isGroundTile {
        if ground == null {
          NewGround(item);
        }
      } else if item.itemType.alwaysOnTop {
        ThingsInsertTop(Stack(ground, items, downItemCount), creatures, k, item);
      } else {
        ThingsPushDown(Stack(ground, items, downItemCount), creatures, item);
      }
    }

    lemma {:induction false} NoGround()
      requires Valid() && ground != null
      ensures ThingsOf(Stack(null, items, downItemCount), creatures) == Erase(Things(), 0)
    {
      hide Distinct;
      var rest := ItemThings(items[downItemCount..]) + CreatureThings(creatures) + ItemThings(items[..downItemCount]);
      assert Things() == [ItemThing(ground)] + rest;
      assert ThingsOf(Stack(null, items, downItemCount), creatures) == rest;
    }

    lemma {:induction false} RemovedIs(item: Item, count: nat)
      requires Valid() && Findable(ItemThing(item)) && item != ground
      ensures var k := Place(ItemThing(item));
              && k < |items| && (downItemCount <= k <==> item.itemType.alwaysOnTop)
              && Removed(item, count)
                 == (if Partial(item, count) then Now()
                     else
                       Stack(ground, Erase(items, k), if k < downItemCount then downItemCount - 1 else downItemCount))
              && IndexOf(ItemThing(item))
                 == (if ground == null then 0 else 1)
                    + if k < downItemCount then |items| - downItemCount + |creatures| + k else k - downItemCount
    {
      hide Place, Erase, Distinct;
    }

    /** A thing that is removed leaves the place with its number; nothing moves when only pieces of a stack go. */
    lemma {:induction false} RemovedLies(item: Item, count: nat)
      requires Valid() && Findable(ItemThing(item))
      ensures ThingsOf(Removed(item, count), creatures)
           == if item != ground && !item.itemType.alwaysOnTop && item.itemType.stackable && count != item.count
              then Things()
              else Erase(Things(), IndexOf(ItemThing(item)))
    {
      hide Removed, IndexOf, Place, Findable, Things, ThingsOf, Erase, Distinct;
      if item == ground {
        GroundRemoved(count);
      } else {
        ItemRemoved(item, count);
      }
    }

    lemma {:induction false} GroundRemoved(count: nat)
      requires Valid() && ground != null
      ensures Findable(ItemThing(ground)) && IndexOf(ItemThing(ground)) == 0
      ensures ThingsOf(Removed(ground, count), creatures) == Erase(Things(), 0)
    {
      hide Things, ThingsOf, Erase, Distinct, Place;
      NoGround();
    }

    lemma {:induction false} ItemRemoved(item: Item, count: nat)
      requires Valid() && Findable(ItemThing(item)) && item != ground
      ensures ThingsOf(Removed(item, count), creatures)
           == if Partial(item, count) then Things() else Erase(Things(), IndexOf(ItemThing(item)))
    {
      hide *;
      Split();
      RemovedIs(item, count);
      NumbersAreThings();
      NumbersNow();
      ErasedLies(Place(ItemThing(item)));
    }

    lemma {:induction false} ErasedLies(k: nat)
      requires Valid() && k < |items|
      ensures var first := if ground == null then 0 else 1;
              ThingsOf(Stack(ground, Erase(items, k), if k < downItemCount then downItemCount - 1 else downItemCount),
                       creatures)
              == Erase(Things(), first + if k < downItemCount then |items| - downItemCount + |creatures| + k
                                         else k - downItemCount)
    {
      hide Things, ThingsOf, Erase, Distinct;
      NumbersAreThings();
      if k < downItemCount {
        ThingsEraseDown(Stack(ground, items, downItemCount), creatures, k);
      } else {
        ThingsEraseTop(Stack(ground, items, downItemCount), creatures, k);
      }
    }

    // ----- Runs --------------------------------------------------------------------------------

    /** A thing that is added or swapped in must not be on the tile already. */
    predicate Legal(op: Operation)
      reads `ground, `items, `creatures
    {
      match op
      case Add(thing) => Absent(thing)
      case Load(thing) => Absent(thing)
      case Replace(_, item) => Absent(ItemThing(item))
      case _ => true
    }

    /** An update or replacement leaves the vector split and sorted; the other operations always do. */
    predicate Fitting(op: Operation)
      requires downItemCount <= |items|
      reads `ground, `items, `downItemCount, `creatures, items`itemType, op.Mentioned()`itemType
    {
      match op
      case Update(thing, itemType, _) =>
        (match SlotOf(thing) case None => true case Some(k) => SlotTakes(k, itemType))
      case Replace(index, item) =>
        (match SlotAt(index) case None => true case Some(k) => SlotTakes(k, item.itemType))
      case _ => true
    }

    method Apply(op: Operation)
      requires Valid() && FlagsExact() && Legal(op)
      modifies this, items, op.Mentioned()
      ensures Valid() && FlagsExact()
      ensures All() <= old(All()) + op.Mentioned()
      ensures old(Layout()) ==> (Layout() <==> old(Fitting(op)))
      ensures old(Layout() && Single()) && (op.Add? || op.Remove?) ==> Single()
    {
      hide Exact, LayoutOf, OneSplash, OneField, Distinct, Things, Findable, Place, Partial, OccursIn, Without,
        Remainder, Added, Loaded, Removed, SlotTakes, SlotOf, SlotAt;
      if !op.Replace? && op.thing.ItemThing? {
        OnlyNamed(op.thing.item, if op.Remove? then op.count else 0);
      }
      match op
      case Add(thing) =>
        AddThing(thing);
      case Load(thing) =>
        InternalAddThing(thing);
      case Remove(thing, count) =>
        RemoveThing(thing, count);
      case Update(thing, itemType, count) =>
        UpdateThing(thing, itemType, count);
      case Replace(index, item) =>
        ghost var slot := SlotAt(index);
        if slot.Some? && Layout() {
          ReplacedKeepsShapeIff(slot.value, item);
        }
        ReplaceThing(index, item);
    }

    lemma {:induction false} Split()
      requires Valid()
      ensures downItemCount <= |items|
    {
    }

    /** Whatever sequence of operations a tile goes through, its flags stay exact; and it stays split and sorted in runs
        in which all that is updated or replaced fits, which `shapedOnly` says. */
    method Run(ops: seq<Operation>, shapedOnly: bool, ghost pool: set<Item>)
      requires Valid() && FlagsExact() && All() <= pool
      requires forall op | op in ops :: op.Mentioned() <= pool
      modifies this, pool
      ensures Valid() && FlagsExact()
      ensures old(Layout()) && (forall op | op in ops :: !op.Update? && !op.Replace?) ==> Layout()
      ensures old(Layout()) && shapedOnly ==> Layout()
      ensures old(Layout() && Single()) && (forall op | op in ops :: op.Add? || op.Remove?) ==> Single()
    {
      hide OneSplash, OneField, Operation.Mentioned, Valid, Layout, FlagsExact, Legal, SlotTakes, SlotOf, SlotAt;
      for k := 0 to |ops|
        invariant Valid() && FlagsExact() && All() <= pool
        invariant old(Layout()) && (forall op | op in ops :: !op.Update? && !op.Replace?) ==> Layout()
        invariant old(Layout()) && shapedOnly ==> Layout()
        invariant old(Layout() && Single()) && (forall op | op in ops :: op.Add? || op.Remove?) ==> Layout() && Single()
      {
        Split();
        if Legal(ops[k]) && (!shapedOnly || Fitting(ops[k])) {
          assert forall x | x in items :: x in pool;
          Apply(ops[k]);
        }
      }
    }
  }
}
