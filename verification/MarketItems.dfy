/**
 The goods of a market offer (`Game::getMarketItemList` in src/game/game.cpp, and the loops that take goods out of a
 depot and deliver them in `playerAcceptMarketOffer`).
 */
module MarketItems {

  const MAX_STACK := 100
  const MAX_AMOUNT := 64000

  /**
   An item of a depot: which object it is, how many pieces, which ware, and whether it may be sold as it is.
   `isContainer` says that it can hold something, `intact` that it is a container of its type's own size.
   */
  datatype Item = Item(name: nat, count: nat, wareId: nat, sellable: bool,
                       isContainer: bool, intact: bool, items: seq<Item>)
  {
    predicate Holding() {
      isContainer && items != []
    }

    predicate Suitable(ware: nat) {
      wareId == ware && (isContainer ==> intact) && sellable
    }
  }

  // ----- What a depot holds --------------------------------------------------------------------

  /** The pieces of the ware that can be sold, at any depth. */
  function Stock(items: seq<Item>, ware: nat): nat
    decreases items
  {
    if items == [] then 0
    else
      var item := items[0];
      (if item.Holding() then Stock(item.items, ware) else if item.Suitable(ware) then item.count else 0)
      + Stock(items[1..], ware)
  }

  /** The same items themselves. */
  function Goods(items: seq<Item>, ware: nat): multiset<Item>
    decreases items
  {
    if items == [] then multiset{}
    else
      var item := items[0];
      (if item.Holding() then Goods(item.items, ware)
       else if item.Suitable(ware) then multiset{item} else multiset{})
      + Goods(items[1..], ware)
  }

  /** It is one of the items or lies, at any depth, in a container among them. */
  ghost predicate LiesIn(x: Item, items: seq<Item>)
    decreases items
  {
    exists i | 0 <= i < |items| :: items[i] == x || (items[i].isContainer && LiesIn(x, items[i].items))
  }

  lemma {:induction false} LiesInFirst(x: Item, items: seq<Item>)
    requires items != []
    ensures LiesIn(x, items)
       <==> items[0] == x || (items[0].isContainer && LiesIn(x, items[0].items)) || LiesIn(x, items[1..])
  {
    var rest := items[1..];
    assert forall i | 0 <= i < |rest| :: rest[i] == items[i + 1];
    assert forall i | 0 < i < |items| :: items[i] == rest[i - 1];
  }

  /** The goods are what has the ware id, may be sold, and if it is a container has its type's size and is empty. */
  lemma {:induction false} GoodsIff(items: seq<Item>, ware: nat, x: Item)
    ensures x in Goods(items, ware)
       <==> LiesIn(x, items) && x.wareId == ware && x.sellable && (x.isContainer ==> x.intact && x.items == [])
    decreases items
  {
    if items != [] {
      var item := items[0];
      LiesInFirst(x, items);
      GoodsIff(items[1..], ware, x);
      if item.isContainer {
        GoodsIff(item.items, ware, x);
      }
    }
  }

  /** No stack at any depth has more than 100 pieces. */
  ghost predicate SmallStacks(items: seq<Item>)
    decreases items
  {
    forall i | 0 <= i < |items| :: items[i].count <= MAX_STACK && SmallStacks(items[i].items)
  }

  function Total(items: seq<Item>): nat {
    if items == [] then 0 else items[0].count + Total(items[1..])
  }

  lemma {:induction false} TotalAppend(a: seq<Item>, b: seq<Item>)
    ensures Total(a + b) == Total(a) + Total(b)
    decreases a
  {
    if a == [] {
      assert a + b == b;
    } else {
      assert (a + b)[1..] == a[1..] + b;
      TotalAppend(a[1..], b);
    }
  }

  // ----- The order of the search ---------------------------------------------------------------

  /** Of the items in one container, those that can be sold as they are. */
  function Shelf(items: seq<Item>, ware: nat): (r: seq<Item>)
    ensures forall x | x in r :: x in items && x.Suitable(ware)
  {
    if items == [] then []
    else (if !items[0].Holding() && items[0].Suitable(ware) then [items[0]] else []) + Shelf(items[1..], ware)
  }

  /** Of the items in one container, those that must be searched in turn. */
  function Inner(items: seq<Item>): (r: seq<Item>)
    ensures forall x | x in r :: x in items
  {
    if items == [] then []
    else (if items[0].Holding() then [items[0]] else []) + Inner(items[1..])
  }

  function Size(items: seq<Item>): nat
    decreases items
  {
    if items == [] then 0 else 1 + Size(items[0].items) + Size(items[1..])
  }

  function Weight(queue: seq<Item>): nat {
    if queue == [] then 0 else 1 + Size(queue[0].items) + Weight(queue[1..])
  }

  lemma {:induction false} WeightAppend(a: seq<Item>, b: seq<Item>)
    ensures Weight(a + b) == Weight(a) + Weight(b)
    decreases a
  {
    if a == [] {
      assert a + b == b;
    } else {
      assert (a + b)[1..] == a[1..] + b;
      WeightAppend(a[1..], b);
    }
  }

  lemma {:induction false} InnerWeighsLess(items: seq<Item>)
    ensures Weight(Inner(items)) <= Size(items)
    decreases items
  {
    if items != [] {
      InnerWeighsLess(items[1..]);
      var first := if items[0].Holding() then [items[0]] else [];
      WeightAppend(first, Inner(items[1..]));
      assert Weight([]) == 0;
    }
  }

  /** The goods in the order of the search: container by container, those inside after those beside. */
  function Walk(queue: seq<Item>, ware: nat): seq<Item>
    decreases Weight(queue)
  {
    if queue == [] then []
    else
      InnerWeighsLess(queue[0].items);
      WeightAppend(queue[1..], Inner(queue[0].items));
      Shelf(queue[0].items, ware) + Walk(queue[1..] + Inner(queue[0].items), ware)
  }

  function StockOf(queue: seq<Item>, ware: nat): nat {
    if queue == [] then 0 else Stock(queue[0].items, ware) + StockOf(queue[1..], ware)
  }

  function GoodsOf(queue: seq<Item>, ware: nat): multiset<Item> {
    if queue == [] then multiset{} else Goods(queue[0].items, ware) + GoodsOf(queue[1..], ware)
  }

  lemma {:induction false} StockOfAppend(a: seq<Item>, b: seq<Item>, ware: nat)
    ensures StockOf(a + b, ware) == StockOf(a, ware) + StockOf(b, ware)
    ensures GoodsOf(a + b, ware) == GoodsOf(a, ware) + GoodsOf(b, ware)
    decreases a
  {
    if a == [] {
      assert a + b == b;
    } else {
      assert (a + b)[1..] == a[1..] + b;
      StockOfAppend(a[1..], b, ware);
    }
  }

  /** What one item adds to those that come after it in its container. */
  lemma {:induction false} FirstHas(item: Item, rest: seq<Item>, ware: nat)
    ensures Stock([item] + rest, ware) == Stock([item], ware) + Stock(rest, ware)
    ensures Goods([item] + rest, ware) == Goods([item], ware) + Goods(rest, ware)
  {
    assert ([item] + rest)[1..] == rest && [item][1..] == [];
    hide Item.Holding, Item.Suitable;
  }

  lemma {:induction false} FirstStands(item: Item, rest: seq<Item>, ware: nat)
    ensures Shelf([item] + rest, ware) == Shelf([item], ware) + Shelf(rest, ware)
    ensures Inner([item] + rest) == Inner([item]) + Inner(rest)
  {
    assert ([item] + rest)[1..] == rest && [item][1..] == [];
    hide Item.Holding, Item.Suitable;
  }

  lemma {:induction false} ShelfOfOne(item: Item, ware: nat)
    ensures Shelf([item], ware) == if !item.Holding() && item.Suitable(ware) then [item] else []
    ensures Inner([item]) == if item.Holding() then [item] else []
  {
    assert [item][1..] == [];
  }

  lemma {:induction false} OneAlone(item: Item, ware: nat)
    ensures Stock([item], ware) == Total(Shelf([item], ware)) + StockOf(Inner([item]), ware)
    ensures Goods([item], ware) == multiset(Shelf([item], ware)) + GoodsOf(Inner([item]), ware)
  {
    assert [item][1..] == [];
    ShelfOfOne(item, ware);
  }

  lemma {:induction false} ShelfAndInner(items: seq<Item>, ware: nat)
    ensures Stock(items, ware) == Total(Shelf(items, ware)) + StockOf(Inner(items), ware)
    ensures Goods(items, ware) == multiset(Shelf(items, ware)) + GoodsOf(Inner(items), ware)
    decreases items
  {
    if items != [] {
      hide *;
      var item, rest := items[0], items[1..];
      assert items == [item] + rest;
      ShelfAndInner(rest, ware);
      FirstHas(item, rest, ware);
      FirstStands(item, rest, ware);
      OneAlone(item, ware);
      TotalAppend(Shelf([item], ware), Shelf(rest, ware));
      StockOfAppend(Inner([item]), Inner(rest), ware);
    }
  }

  /** The search comes past every item that can be sold, once. */
  lemma {:induction false} WalkFindsAll(queue: seq<Item>, ware: nat)
    ensures Total(Walk(queue, ware)) == StockOf(queue, ware)
    ensures multiset(Walk(queue, ware)) == GoodsOf(queue, ware)
    decreases Weight(queue)
  {
    if queue != [] {
      var items := queue[0].items;
      InnerWeighsLess(items);
      WeightAppend(queue[1..], Inner(items));
      WalkFindsAll(queue[1..] + Inner(items), ware);
      StockOfAppend(queue[1..], Inner(items), ware);
      ShelfAndInner(items, ware);
      TotalAppend(Shelf(items, ware), Walk(queue[1..] + Inner(items), ware));
    }
  }

  function Shelves(queue: seq<Item>, ware: nat): seq<Item> {
    if queue == [] then [] else Shelf(queue[0].items, ware) + Shelves(queue[1..], ware)
  }

  function Inners(queue: seq<Item>): seq<Item> {
    if queue == [] then [] else Inner(queue[0].items) + Inners(queue[1..])
  }

  lemma {:induction false} WalkStarts(first: Item, rest: seq<Item>, ware: nat)
    ensures Walk([first] + rest, ware) == Shelf(first.items, ware) + Walk(rest + Inner(first.items), ware)
    ensures Shelves([first] + rest, ware) == Shelf(first.items, ware) + Shelves(rest, ware)
    ensures Inners([first] + rest) == Inner(first.items) + Inners(rest)
  {
    hide Shelf, Inner;
    assert ([first] + rest)[1..] == rest;
  }

  /** The search goes level by level: what lies in the containers at hand, then what lies in those inside them. */
  lemma {:induction false} WalkByLevels(queue: seq<Item>, later: seq<Item>, ware: nat)
    ensures Walk(queue + later, ware) == Shelves(queue, ware) + Walk(later + Inners(queue), ware)
    decreases queue
  {
    if queue == [] {
      assert queue + later == later && later + [] == later;
    } else {
      var first, rest := queue[0], queue[1..];
      assert queue == [first] + rest && queue + later == [first] + (rest + later);
      hide *;
      WalkStarts(first, rest + later, ware);
      WalkStarts(first, rest, ware);
      Regroup(rest, later, Inner(first.items));
      WalkByLevels(rest, later + Inner(first.items), ware);
      Regroup(later, Inner(first.items), Inners(rest));
      Regroup(Shelf(first.items, ware), Shelves(rest, ware), Walk(later + Inners(queue), ware));
    }
  }

  function Picked(items: seq<Item>, ware: nat, inner: bool): seq<Item> {
    if inner then Inner(items) else Shelf(items, ware)
  }

  lemma {:induction false} PickedFirst(item: Item, rest: seq<Item>, ware: nat, inner: bool)
    ensures Picked([item] + rest, ware, inner)
         == (if item.Holding() == inner && (inner || item.Suitable(ware)) then [item] else [])
            + Picked(rest, ware, inner)
  {
    hide Shelf, Inner, Item.Holding, Item.Suitable;
    FirstStands(item, rest, ware);
    ShelfOfOne(item, ware);
  }

  /** Within one container the goods are found in the order in which they lie there, and so are the containers. */
  lemma {:induction false} InOrder(items: seq<Item>, ware: nat, inner: bool, i: nat, j: nat) returns (p: nat, q: nat)
    requires i < j < |items| && items[i].Holding() == items[j].Holding() == inner
    requires !inner ==> items[i].Suitable(ware) && items[j].Suitable(ware)
    ensures var r := if inner then Inner(items) else Shelf(items, ware);
            p < q < |r| && r[p] == items[i] && r[q] == items[j]
  {
    hide Shelf, Inner, Item.Holding, Item.Suitable;
    p, q := PickedInOrder(items, ware, inner, i, j);
  }

  lemma {:induction false} PickedInOrder(items: seq<Item>, ware: nat, inner: bool, i: nat, j: nat)
    returns (p: nat, q: nat)
    requires i < j < |items| && items[i].Holding() == items[j].Holding() == inner
    requires !inner ==> items[i].Suitable(ware) && items[j].Suitable(ware)
    ensures p < q < |Picked(items, ware, inner)|
    ensures Picked(items, ware, inner)[p] == items[i] && Picked(items, ware, inner)[q] == items[j]
    decreases items
  {
    hide *;
    var item, rest := items[0], items[1..];
    assert items == [item] + rest;
    PickedFirst(item, rest, ware, inner);
    if i == 0 {
      q := Found(rest, ware, inner, j - 1);
      p, q := 0, q + 1;
      return;
    }
    p, q := PickedInOrder(rest, ware, inner, i - 1, j - 1);
    if item.Holding() == inner && (inner || item.Suitable(ware)) {
      p, q := p + 1, q + 1;
    }
  }

  lemma {:induction false} Found(items: seq<Item>, ware: nat, inner: bool, j: nat) returns (q: nat)
    requires j < |items| && items[j].Holding() == inner && (inner || items[j].Suitable(ware))
    ensures q < |Picked(items, ware, inner)| && Picked(items, ware, inner)[q] == items[j]
    decreases items
  {
    var item, rest := items[0], items[1..];
    assert items == [item] + rest;
    PickedFirst(item, rest, ware, inner);
    hide *;
    if j == 0 {
      q := 0;
    } else {
      q := Found(rest, ware, inner, j - 1);
      q := q + if item.Holding() == inner && (inner || item.Suitable(ware)) then 1 else 0;
    }
  }

  // ----- The search ----------------------------------------------------------------------------

  function Reversed(s: seq<Item>): seq<Item> {
    if s == [] then [] else Reversed(s[1..]) + [s[0]]
  }

  lemma {:induction false} ReversedPush(s: seq<Item>, x: Item)
    ensures Reversed(s + [x]) == [x] + Reversed(s)
    decreases s
  {
    if s == [] {
      assert s + [x] == [x];
      assert [x][1..] == [];
    } else {
      assert (s + [x])[1..] == s[1..] + [x];
      ReversedPush(s[1..], x);
    }
  }

  lemma {:induction false} ReversedAt(s: seq<Item>, k: nat)
    requires k < |s|
    ensures |Reversed(s)| == |s| && Reversed(s)[k] == s[|s| - 1 - k]
    decreases s
  {
    if |s| > 1 {
      ReversedAt(s[1..], if k < |s| - 1 then k else 0);
    } else {
      assert Reversed(s[1..]) == [];
    }
  }

  lemma {:induction false} ReversedTotal(s: seq<Item>)
    ensures Total(Reversed(s)) == Total(s) && |Reversed(s)| == |s|
    ensures forall x | x in Reversed(s) :: x in s
    decreases s
  {
    if s != [] {
      ReversedTotal(s[1..]);
      TotalAppend(Reversed(s[1..]), [s[0]]);
      assert Total([s[0]]) == s[0].count + Total([]);
    }
  }

  lemma {:induction false} TotalOfPrefix(s: seq<Item>, k: nat)
    requires k <= |s|
    ensures Total(s[..k]) <= Total(s)
  {
    TotalAppend(s[..k], s[k..]);
    assert s[..k] + s[k..] == s;
  }

  /** The first `n` are enough, and no fewer are. */
  ghost predicate Reaches(order: seq<Item>, n: nat, need: nat) {
    && 0 < n <= |order| && Total(order[..n]) >= need
    && forall k | 0 < k < n :: Total(order[..k]) < need
  }

  /** So far the search has come past `done`, and they are not enough. */
  ghost predicate Searched(order: seq<Item>, done: seq<Item>, rest: seq<Item>, need: nat) {
    && order == done + rest
    && (done == [] || Total(done) < need)
  }

  lemma {:induction false} SearchedMore(order: seq<Item>, done: seq<Item>, x: Item, rest: seq<Item>, need: nat)
    requires Searched(order, done, [x] + rest, need)
    ensures Total(done + [x]) == Total(done) + x.count
    ensures if Total(done) + x.count >= need then Reaches(order, |done| + 1, need) && order[..|done| + 1] == done + [x]
            else Searched(order, done + [x], rest, need)
  {
    TotalAppend(done, [x]);
    assert Total([x]) == x.count + Total([]);
    assert order == done + [x] + rest;
    assert order[..|done| + 1] == done + [x];
    forall k | 0 < k < |done| + 1
      ensures Total(order[..k]) < need
    {
      assert order[..k] == done[..k];
      TotalOfPrefix(done, k);
    }
  }

  /**
   The first goods of the search that are enough, the last found first, or nothing if there are not enough.  With
   amounts up to 64000 and stacks up to 100 the 16-bit counter never wraps.
   */
  method GetMarketItemList(ware: nat, sufficientCount: nat, depotLocker: Item) returns (itemList: seq<Item>)
    requires sufficientCount <= MAX_AMOUNT && SmallStacks(depotLocker.items)
    ensures var order := Walk([depotLocker], ware);
            && (itemList != [] ==>
                  exists n | 0 < n <= |order| ::
                    && Reaches(order, n, sufficientCount) && itemList == Reversed(order[..n])
                    && |itemList| == n && forall k | 0 <= k < n :: itemList[k] == order[n - 1 - k])
            && (itemList == [] <==> order == [] || Stock(depotLocker.items, ware) < sufficientCount)
  {
    hide *;
    ghost var order := Walk([depotLocker], ware);
    WalkFindsAll([depotLocker], ware);
    OneContainer(depotLocker, ware);
    SearchStart(order, sufficientCount);
    itemList := [];
    var count: nat := 0;
    var containers := [depotLocker];
    ghost var done: seq<Item> := [];
    while containers != []
      invariant Searched(order, done, Walk(containers, ware), sufficientCount)
      invariant itemList == Reversed(done) && count == Total(done)
      invariant forall x | x in containers :: SmallStacks(x.items)
      decreases Weight(containers)
    {
      var items := containers[0].items;
      NextContainer(containers, ware);
      var enough;
      enough, itemList, count, containers, done :=
        SearchContainer(ware, sufficientCount, items, containers[1..], itemList, count, order, done);
      if enough {
        ReachedIsEnough(order, done, sufficientCount);
        return;
      }
    }
    NothingLeft(order, done, ware, sufficientCount);
    return [];
  }

  lemma {:induction false} SearchStart(order: seq<Item>, need: nat)
    ensures Searched(order, [], order, need) && Reversed([]) == [] && Total([]) == 0
  {
    assert [] + order == order;
  }

  lemma {:induction false} NextContainer(containers: seq<Item>, ware: nat)
    requires containers != []
    ensures var items := containers[0].items;
            && Walk(containers, ware) == Shelf(items, ware) + Walk(containers[1..] + Inner(items), ware)
            && Weight(containers[1..] + Inner(items)) < Weight(containers)
  {
    hide Shelf, Inner, Size;
    InnerWeighsLess(containers[0].items);
    WeightAppend(containers[1..], Inner(containers[0].items));
  }

  lemma {:induction false} ReachedIsEnough(order: seq<Item>, done: seq<Item>, need: nat)
    requires Reaches(order, |done|, need) && done == order[..|done|]
    ensures 0 < |done| <= |order| && |Reversed(done)| == |done| && Total(order) >= need
    ensures forall k | 0 <= k < |done| :: Reversed(done)[k] == order[|done| - 1 - k]
  {
    ReversedTotal(done);
    forall k | 0 <= k < |done|
      ensures Reversed(done)[k] == order[|done| - 1 - k]
    {
      ReversedAt(done, k);
    }
    TotalOfPrefix(order, |done|);
  }

  lemma {:induction false} NothingLeft(order: seq<Item>, done: seq<Item>, ware: nat, need: nat)
    requires Searched(order, done, Walk([], ware), need)
    ensures order == [] || Total(order) < need
  {
    assert Walk([], ware) == [];
    assert order == done;
  }

  /** The items of one container; `rest` are the containers still to be searched. */
  method SearchContainer(ware: nat, sufficientCount: nat, items: seq<Item>, rest: seq<Item>, found: seq<Item>,
                         counted: nat, ghost order: seq<Item>, ghost before: seq<Item>)
    returns (enough: bool, itemList: seq<Item>, count: nat, containers: seq<Item>, ghost done: seq<Item>)
    requires sufficientCount <= MAX_AMOUNT && SmallStacks(items) && forall x | x in rest :: SmallStacks(x.items)
    requires Searched(order, before, Shelf(items, ware) + Walk(rest + Inner(items), ware), sufficientCount)
    requires found == Reversed(before) && counted == Total(before)
    ensures itemList == Reversed(done) && count == Total(done)
    ensures enough ==> Reaches(order, |done|, sufficientCount) && done == order[..|done|]
    ensures !enough ==> containers == rest + Inner(items)
                        && Searched(order, done, Walk(containers, ware), sufficientCount)
                        && forall x | x in containers :: SmallStacks(x.items)
  {
    hide Item.Holding, Item.Suitable, Shelf, Inner, Walk, Reversed, Reaches, Total, Stock, Goods, LiesIn, Size, Weight;
    enough, itemList, count, containers, done := false, found, counted, rest, before;
    SearchStart(order, sufficientCount);
    var i: nat := 0;
    assert items[0..] == items;
    while i < |items|
      invariant i <= |items|
      invariant Searched(order, done, Shelf(items[i..], ware) + Walk(containers + Inner(items[i..]), ware),
                         sufficientCount)
      invariant containers + Inner(items[i..]) == rest + Inner(items)
      invariant itemList == Reversed(done) && count == Total(done)
      invariant forall x | x in containers :: SmallStacks(x.items)
    {
      var item := items[i];
      assert item.count <= MAX_STACK && SmallStacks(item.items);
      SearchStep(items, i, ware, containers, Walk(containers + Inner(items[i + 1..]), ware));
      if item.Holding() {
        containers := containers + [item];
      } else if item.Suitable(ware) {
        ghost var later := Shelf(items[i + 1..], ware) + Walk(containers + Inner(items[i + 1..]), ware);
        SearchedMore(order, done, item, later, sufficientCount);
        assert count < MAX_AMOUNT || count == 0;
        ReversedPush(done, item);
        itemList, done := [item] + itemList, done + [item];
        count := (count + item.count) % 0x1_0000;
        assert count == Total(done);
        if count >= sufficientCount {
          enough := true;
          return;
        }
      }
      i := i + 1;
    }
    SearchEnd(items, ware, containers);
  }

  /** What one item of a container adds to the search. */
  lemma {:induction false} SearchStep(items: seq<Item>, i: nat, ware: nat, containers: seq<Item>, later: seq<Item>)
    requires i < |items|
    ensures var item, here, next := items[i], items[i..], items[i + 1..];
            if item.Holding() then
              Shelf(here, ware) == Shelf(next, ware) && containers + Inner(here) == (containers + [item]) + Inner(next)
            else
              Inner(here) == Inner(next)
              && Shelf(here, ware) + later
                 == if item.Suitable(ware) then [item] + (Shelf(next, ware) + later) else Shelf(next, ware) + later
  {
    var item, here, next := items[i], items[i..], items[i + 1..];
    hide *;
    assert here == [item] + next;
    FirstStands(item, next, ware);
    ShelfOfOne(item, ware);
    Regroup(Shelf([item], ware), Shelf(next, ware), later);
    Regroup(containers, Inner([item]), Inner(next));
    assert [] + Shelf(next, ware) == Shelf(next, ware) && [] + Inner(next) == Inner(next);
  }

  lemma {:induction false} Regroup(a: seq<Item>, b: seq<Item>, c: seq<Item>)
    ensures a + b + c == a + (b + c)
  {
  }

  lemma {:induction false} SearchEnd(items: seq<Item>, ware: nat, containers: seq<Item>)
    ensures containers + Inner(items[|items|..]) == containers
    ensures Shelf(items[|items|..], ware) + Walk(containers, ware) == Walk(containers, ware)
  {
    hide Walk;
    assert items[|items|..] == [];
  }

  // ----- Taking and delivering -----------------------------------------------------------------

  function Sum(s: seq<nat>): nat {
    if s == [] then 0 else s[0] + Sum(s[1..])
  }

  lemma {:induction false} SumPush(s: seq<nat>, n: nat)
    ensures Sum(s + [n]) == Sum(s) + n
    decreases s
  {
    if s == [] {
      assert s + [n] == [n];
      assert [n][1..] == [];
    } else {
      assert (s + [n])[1..] == s[1..] + [n];
      SumPush(s[1..], n);
    }
  }

  /** The pieces of a ware in the depot, at any depth, whether they can be sold as they are or not. */
  function Pieces(items: seq<Item>, ware: nat): nat
    decreases items
  {
    if items == [] then 0
    else
      var item := items[0];
      (if item.wareId == ware then item.count else 0)
      + (if item.Holding() then Pieces(item.items, ware) else 0)
      + Pieces(items[1..], ware)
  }

  /** All objects in the depot. */
  function Names(items: seq<Item>): multiset<nat>
    decreases items
  {
    if items == [] then multiset{}
    else
      multiset{items[0].name} + (if items[0].Holding() then Names(items[0].items) else multiset{}) + Names(items[1..])
  }

  ghost predicate NoneTwice(items: seq<Item>) {
    forall name :: Names(items)[name] <= 1
  }

  /** internalRemoveItem: pieces of one object, or all of it. */
  function Minus(items: seq<Item>, name: nat, n: nat): seq<Item>
    decreases items
  {
    if items == [] then []
    else
      var item := items[0];
      (if item.name == name then (if n < item.count then [item.(count := item.count - n)] else [])
       else if item.Holding() then [item.(items := Minus(item.items, name, n))]
       else [item])
      + Minus(items[1..], name, n)
  }

  /** The depot without some objects, at any depth. */
  function Without(items: seq<Item>, names: set<nat>): seq<Item>
    decreases items
  {
    if items == [] then []
    else
      var item := items[0];
      (if item.name in names then []
       else if item.Holding() then [item.(items := Without(item.items, names))]
       else [item])
      + Without(items[1..], names)
  }

  /** No container is itself of the ware; one that is could be sold as soon as it is empty. */
  ghost predicate NoContainer(items: seq<Item>, ware: nat)
    decreases items
  {
    forall i | 0 <= i < |items| ::
      (items[i].isContainer ==> items[i].wareId != ware) && NoContainer(items[i].items, ware)
  }

  lemma {:induction false} MinusAbsent(items: seq<Item>, name: nat, n: nat)
    requires name !in Names(items)
    ensures Minus(items, name, n) == items
    decreases items
  {
    if items != [] {
      MinusAbsent(items[1..], name, n);
      if items[0].Holding() {
        MinusAbsent(items[0].items, name, n);
      }
    }
  }

  lemma {:induction false} NamesCons(item: Item, rest: seq<Item>)
    ensures Names([item] + rest)
         == multiset{item.name} + (if item.Holding() then Names(item.items) else multiset{}) + Names(rest)
  {
    assert ([item] + rest)[1..] == rest;
  }

  lemma {:induction false} StockCons(item: Item, rest: seq<Item>, ware: nat)
    ensures Stock([item] + rest, ware)
         == (if item.Holding() then Stock(item.items, ware) else if item.Suitable(ware) then item.count else 0)
            + Stock(rest, ware)
  {
    assert ([item] + rest)[1..] == rest;
  }

  lemma {:induction false} GoodsCons(item: Item, rest: seq<Item>, ware: nat)
    ensures Goods([item] + rest, ware)
         == (if item.Holding() then Goods(item.items, ware)
             else if item.Suitable(ware) then multiset{item} else multiset{}) + Goods(rest, ware)
  {
    assert ([item] + rest)[1..] == rest;
  }

  lemma {:induction false} WithoutCons(item: Item, rest: seq<Item>, names: set<nat>)
    ensures Without([item] + rest, names)
         == (if item.name in names then []
             else if item.Holding() then [item.(items := Without(item.items, names))]
             else [item]) + Without(rest, names)
  {
    assert ([item] + rest)[1..] == rest;
  }

  /** What is left of one item. */
  function Left(item: Item, name: nat, n: nat): seq<Item> {
    if item.name == name then (if n < item.count then [item.(count := item.count - n)] else [])
    else if item.Holding() then [item.(items := Minus(item.items, name, n))]
    else [item]
  }

  lemma {:induction false} MinusCons(item: Item, rest: seq<Item>, name: nat, n: nat)
    ensures Minus([item] + rest, name, n) == Left(item, name, n) + Minus(rest, name, n)
  {
    assert ([item] + rest)[1..] == rest;
  }

  lemma {:induction false} MinusNames(items: seq<Item>, name: nat, n: nat)
    ensures Names(Minus(items, name, n)) <= Names(items)
    decreases items
  {
    if items != [] {
      var item, rest := items[0], items[1..];
      var rest' := Minus(rest, name, n);
      assert items == [item] + rest;
      MinusCons(item, rest, name, n);
      NamesCons(item, rest);
      MinusNames(rest, name, n);
      if item.Holding() {
        MinusNames(item.items, name, n);
      }
      hide Names, Minus;
      if item.name == name && n >= item.count {
        assert [] + rest' == rest';
      } else {
        NamesCons(Left(item, name, n)[0], rest');
      }
    }
  }

  lemma {:induction false} MinusNoContainer(items: seq<Item>, name: nat, n: nat, ware: nat)
    requires NoContainer(items, ware)
    ensures NoContainer(Minus(items, name, n), ware)
    decreases items
  {
    if items != [] {
      var item, rest := items[0], Minus(items[1..], name, n);
      MinusNoContainer(items[1..], name, n, ware);
      MinusNoContainer(item.items, name, n, ware);
    }
  }

  /** A good has one of the names of the depot, and two of a name would need it twice. */
  lemma {:induction false} GoodsNamed(items: seq<Item>, ware: nat, x: Item, y: Item)
    ensures x.name == y.name ==>
              Goods(items, ware)[x] + (if x == y then 0 else Goods(items, ware)[y]) <= Names(items)[x.name]
    decreases items
  {
    if items != [] {
      var item, rest := items[0], items[1..];
      assert items == [item] + rest;
      GoodsCons(item, rest, ware);
      NamesCons(item, rest);
      GoodsNamed(rest, ware, x, y);
      if item.Holding() {
        GoodsNamed(item.items, ware, x, y);
      }
      hide Goods, Names;
    }
  }

  lemma {:induction false} GoodNamed(items: seq<Item>, ware: nat, x: Item)
    requires x in Goods(items, ware)
    ensures x.name in Names(items)
  {
    GoodsNamed(items, ware, x, x);
  }

  /** In a depot without doubles the parts have none and share none. */
  lemma {:induction false} NoneTwiceParts(items: seq<Item>)
    requires items != [] && NoneTwice(items)
    ensures NoneTwice(items[1..]) && (items[0].Holding() ==> NoneTwice(items[0].items))
    ensures items[0].name !in Names(items[1..])
    ensures items[0].Holding() ==>
              items[0].name !in Names(items[0].items)
              && forall name | name in Names(items[0].items) :: name !in Names(items[1..])
  {
    var all, rest := Names(items), Names(items[1..]);
    assert forall name :: all[name] <= 1;
    assert forall name :: rest[name] <= all[name];
    assert all[items[0].name] >= 1 + rest[items[0].name];
    if items[0].Holding() {
      var inner := Names(items[0].items);
      assert forall name :: inner[name] + rest[name] <= all[name];
      assert all[items[0].name] >= 1 + inner[items[0].name];
    }
  }

  /** The first item is the good of its name. */
  lemma {:induction false} OnlyGood(items: seq<Item>, ware: nat, x: Item)
    requires items != [] && NoneTwice(items) && x in Goods(items, ware) && items[0].name == x.name
    ensures items[0] == x && !x.Holding() && x.Suitable(ware)
  {
    NoneTwiceParts(items);
    if items[0].Holding() && x in Goods(items[0].items, ware) {
      GoodNamed(items[0].items, ware, x);
    }
    if x in Goods(items[1..], ware) {
      GoodNamed(items[1..], ware, x);
    }
  }

  lemma {:induction false} PiecesCons(item: Item, rest: seq<Item>, ware: nat)
    ensures Pieces([item] + rest, ware)
         == (if item.wareId == ware then item.count else 0)
            + (if item.Holding() then Pieces(item.items, ware) else 0) + Pieces(rest, ware)
    ensures Pieces([], ware) == 0
  {
    assert ([item] + rest)[1..] == rest;
  }

  /** Taking pieces of a good takes exactly those from the depot, and none of any other ware. */
  lemma {:induction false} MinusPieces(items: seq<Item>, ware: nat, x: Item, n: nat, other: nat)
    requires NoneTwice(items) && x in Goods(items, ware) && n <= x.count
    ensures Pieces(Minus(items, x.name, n), other) == Pieces(items, other) - if other == ware then n else 0
    decreases items
  {
    var item, rest := items[0], items[1..];
    var rest' := Minus(rest, x.name, n);
    assert items == [item] + rest;
    MinusCons(item, rest, x.name, n);
    PiecesCons(item, rest, other);
    InGoods(item, rest, ware, x);
    NoneTwiceParts(items);
    assert [] + rest' == rest';
    hide Pieces, Goods, Minus, Names, NoneTwice;
    if item.name == x.name {
      OnlyGood(items, ware, x);
      MinusAbsent(rest, x.name, n);
      if n < item.count {
        PiecesCons(Left(item, x.name, n)[0], rest', other);
      }
    } else {
      PiecesCons(Left(item, x.name, n)[0], rest', other);
      if item.Holding() && x in Goods(item.items, ware) {
        GoodNamed(item.items, ware, x);
        MinusAbsent(rest, x.name, n);
        MinusPieces(item.items, ware, x, n, other);
      } else {
        GoodNamed(rest, ware, x);
        if item.Holding() {
          MinusAbsent(item.items, x.name, n);
        }
        MinusPieces(rest, ware, x, n, other);
      }
    }
  }

  lemma {:induction false} NotEmpty(items: seq<Item>, ware: nat, x: Item)
    requires x in Goods(items, ware)
    ensures items != [] && Stock([], ware) == 0
  {
  }

  lemma {:induction false} NoContainerParts(items: seq<Item>, ware: nat)
    requires items != []
    ensures NoContainer(items, ware) ==> NoContainer(items[1..], ware) && NoContainer(items[0].items, ware)
                                         && (items[0].isContainer ==> items[0].wareId != ware)
  {
  }

  /** Taking pieces of a good lowers the stock by as many; it leaves more only if it empties a container of the ware. */
  lemma {:induction false} MinusStock(items: seq<Item>, ware: nat, x: Item, n: nat)
    requires NoneTwice(items) && x in Goods(items, ware) && n <= x.count
    ensures Stock(Minus(items, x.name, n), ware) >= Stock(items, ware) - n
    ensures NoContainer(items, ware) ==> Stock(Minus(items, x.name, n), ware) == Stock(items, ware) - n
    decreases items
  {
    hide Stock, Goods, Minus, Names, NoneTwice, NoContainer;
    NotEmpty(items, ware, x);
    var item, rest := items[0], items[1..];
    var rest' := Minus(rest, x.name, n);
    assert items == [item] + rest;
    MinusCons(item, rest, x.name, n);
    StockCons(item, rest, ware);
    GoodsCons(item, rest, ware);
    NoneTwiceParts(items);
    NoContainerParts(items, ware);
    assert [] + rest' == rest';
    if item.name == x.name {
      OnlyGood(items, ware, x);
      MinusAbsent(rest, x.name, n);
      if n < item.count {
        StockCons(Left(item, x.name, n)[0], rest', ware);
      }
    } else {
      StockCons(Left(item, x.name, n)[0], rest', ware);
      if item.Holding() && x in Goods(item.items, ware) {
        GoodNamed(item.items, ware, x);
        MinusAbsent(rest, x.name, n);
        MinusStock(item.items, ware, x, n);
      } else {
        GoodNamed(rest, ware, x);
        if item.Holding() {
          MinusAbsent(item.items, x.name, n);
        }
        MinusStock(rest, ware, x, n);
      }
    }
  }

  lemma {:induction false} InGoods(item: Item, rest: seq<Item>, ware: nat, x: Item)
    ensures x in Goods([item] + rest, ware)
       <==> (if item.Holding() then x in Goods(item.items, ware) else item.Suitable(ware) && x == item)
            || x in Goods(rest, ware)
    ensures x !in Goods([], ware)
  {
    GoodsCons(item, rest, ware);
  }

  lemma {:induction false} MinusKeepsGood(items: seq<Item>, ware: nat, x: Item, n: nat, y: Item)
    requires NoneTwice(items) && x in Goods(items, ware) && y in Goods(items, ware) && y.name != x.name
    ensures y in Goods(Minus(items, x.name, n), ware)
    decreases items
  {
    var item, rest := items[0], items[1..];
    var rest' := Minus(rest, x.name, n);
    assert items == [item] + rest;
    MinusCons(item, rest, x.name, n);
    InGoods(item, rest, ware, x);
    InGoods(item, rest, ware, y);
    NoneTwiceParts(items);
    assert [] + rest' == rest';
    hide Goods, Minus, Names, NoneTwice;
    if item.name == x.name {
      OnlyGood(items, ware, x);
      MinusAbsent(rest, x.name, n);
      if n < item.count {
        InGoods(Left(item, x.name, n)[0], rest', ware, y);
      }
    } else {
      InGoods(Left(item, x.name, n)[0], rest', ware, y);
      if item.Holding() && x in Goods(item.items, ware) {
        GoodNamed(item.items, ware, x);
        MinusAbsent(rest, x.name, n);
        if y in Goods(item.items, ware) {
          MinusKeepsGood(item.items, ware, x, n, y);
        }
      } else {
        GoodNamed(rest, ware, x);
        if item.Holding() {
          MinusAbsent(item.items, x.name, n);
        }
        if y in Goods(rest, ware) {
          MinusKeepsGood(rest, ware, x, n, y);
        }
      }
    }
  }

  lemma {:induction false} MinusWithout(items: seq<Item>, name: nat, n: nat, names: set<nat>)
    requires name in names
    ensures Without(Minus(items, name, n), names) == Without(items, names)
    decreases items
  {
    if items != [] {
      var item, rest := items[0], items[1..];
      var rest' := Minus(rest, name, n);
      assert items == [item] + rest;
      MinusCons(item, rest, name, n);
      WithoutCons(item, rest, names);
      MinusWithout(rest, name, n, names);
      if item.Holding() {
        MinusWithout(item.items, name, n, names);
      }
      assert [] + rest' == rest' && Without([], names) == [];
      hide Minus, Without;
      if item.name != name || n < item.count {
        WithoutCons(Left(item, name, n)[0], rest', names);
      } else {
        assert [] + Without(rest, names) == Without(rest, names);
      }
    }
  }

  /** Different goods of the depot. */
  ghost predicate AllGoods(list: seq<Item>, items: seq<Item>, ware: nat) {
    && (forall i | 0 <= i < |list| :: list[i] in Goods(items, ware))
    && forall i, j | 0 <= i < j < |list| :: list[i].name != list[j].name
  }

  ghost function GoodNames(items: seq<Item>, ware: nat): set<nat> {
    set x | x in Goods(items, ware) :: x.name
  }

  /** Exactly `n` pieces of the ware are gone and none of any other, and all that is no good of the ware is as it was.
      What can be sold is less by as many, unless a container of the ware was emptied and can now be sold as well. */
  ghost predicate Sold(items: seq<Item>, left: seq<Item>, ware: nat, n: nat) {
    && (forall other :: Pieces(left, other) == Pieces(items, other) - if other == ware then n else 0)
    && Stock(left, ware) >= Stock(items, ware) - n
    && (NoContainer(items, ware) ==> NoContainer(left, ware) && Stock(left, ware) == Stock(items, ware) - n)
    && Without(left, GoodNames(items, ware)) == Without(items, GoodNames(items, ware))
  }

  /** One more of the list goes. */
  lemma {:induction false} SoldMore(items: seq<Item>, left: seq<Item>, ware: nat, n: nat, list: seq<Item>, k: nat)
    requires Sold(items, left, ware, n) && NoneTwice(left) && list != []
    requires AllGoods(list, left, ware) && list[0].name in GoodNames(items, ware) && k <= list[0].count
    ensures var left' := Minus(left, list[0].name, k);
            Sold(items, left', ware, n + k) && NoneTwice(left') && AllGoods(list[1..], left', ware)
  {
    hide Minus, Goods, Stock, Names, GoodNames, NoContainer, Pieces, LiesIn;
    var x := list[0];
    var left' := Minus(left, x.name, k);
    MinusStock(left, ware, x, k);
    forall other ensures Pieces(left', other) == Pieces(left, other) - if other == ware then k else 0 {
      MinusPieces(left, ware, x, k, other);
    }
    MinusWithout(left, x.name, k, GoodNames(items, ware));
    MinusNames(left, x.name, k);
    if NoContainer(items, ware) {
      MinusNoContainer(left, x.name, k, ware);
    }
    assert NoneTwice(left') by {
      assert forall name :: Names(left')[name] <= Names(left)[name];
    }
    forall i | 0 <= i < |list[1..]| ensures list[1..][i] in Goods(left', ware) {
      MinusKeepsGood(left, ware, x, k, list[i + 1]);
    }
  }

  lemma {:induction false} TwoPlaces(s: seq<Item>, i: nat, j: nat)
    requires i < j < |s|
    ensures multiset(s)[s[i]] + (if s[i] == s[j] then 0 else multiset(s)[s[j]]) >= 2
  {
    assert s == s[..j] + s[j..] && s[i] in s[..j] && s[j] in s[j..];
    assert multiset(s) == multiset(s[..j]) + multiset(s[j..]);
    assert s[i] in multiset(s[..j]) && s[j] in multiset(s[j..]);
  }

  /** Different places of the search hold different objects. */
  lemma {:induction false} SearchIsGoods(order: seq<Item>, items: seq<Item>, ware: nat)
    requires NoneTwice(items) && multiset(order) == Goods(items, ware)
    ensures AllGoods(order, items, ware)
  {
    forall i | 0 <= i < |order| ensures order[i] in Goods(items, ware) {
      assert order[i] in multiset(order);
    }
    forall i, j | 0 <= i < j < |order| ensures order[i].name != order[j].name {
      TwoPlaces(order, i, j);
      GoodsNamed(items, ware, order[i], order[j]);
      assert Names(items)[order[i].name] <= 1;
    }
  }

  lemma {:induction false} ReversedIsGoods(found: seq<Item>, items: seq<Item>, ware: nat)
    requires AllGoods(found, items, ware)
    ensures AllGoods(Reversed(found), items, ware)
    decreases found
  {
    if found != [] {
      ReversedIsGoods(found[1..], items, ware);
      ReversedTotal(found[1..]);
      var r := Reversed(found[1..]);
      forall i | 0 <= i < |r| ensures r[i].name != found[0].name {
        assert r[i] in found[1..];
      }
    }
  }

  /** What is found is enough, and consists of different goods. */
  lemma {:induction false} FoundIsGoods(order: seq<Item>, n: nat, items: seq<Item>, ware: nat, amount: nat)
    requires AllGoods(order, items, ware) && Reaches(order, n, amount)
    ensures AllGoods(Reversed(order[..n]), items, ware) && Total(Reversed(order[..n])) >= amount
  {
    ReversedIsGoods(order[..n], items, ware);
    ReversedTotal(order[..n]);
  }

  /** The depot with so many pieces of each of the first items of the list taken. */
  function Lowered(items: seq<Item>, list: seq<Item>, removed: seq<nat>): seq<Item>
    requires |removed| <= |list|
  {
    if removed == [] then items
    else
      var n := |removed| - 1;
      Minus(Lowered(items, list, removed[..n]), list[n].name, removed[n])
  }

  lemma {:induction false} LoweredMore(items: seq<Item>, list: seq<Item>, removed: seq<nat>, n: nat)
    requires |removed| < |list|
    ensures Lowered(items, list, removed + [n]) == Minus(Lowered(items, list, removed), list[|removed|].name, n)
  {
    assert (removed + [n])[..|removed|] == removed;
  }

  /** Of the stacks of the list, front first, exactly the amount is taken: all of each but the last that is needed. */
  method RemoveStacks(itemList: seq<Item>, amount: nat, items: seq<Item>, ghost ware: nat)
    returns (removed: seq<nat>, left: seq<Item>)
    requires amount <= Total(itemList) && NoneTwice(items) && AllGoods(itemList, items, ware)
    ensures |removed| <= |itemList| && Sum(removed) == amount
    ensures forall i | 0 <= i < |removed| ::
              removed[i] <= itemList[i].count && (i < |removed| - 1 ==> removed[i] == itemList[i].count)
    ensures left == Lowered(items, itemList, removed)
    ensures Sold(items, left, ware, amount)
  {
    hide Stock, Goods, Pieces, Names, NoneTwice, Minus, Without, NoContainer, Sold, AllGoods, GoodNames;
    removed, left := [], items;
    assert Lowered(items, itemList, []) == items;
    hide Lowered;
    var tmpAmount: nat := amount;
    var i: nat := 0;
    assert itemList[0..] == itemList;
    assert Sum(removed) == 0;
    NothingSold(items, itemList, ware);
    while i < |itemList|
      invariant i == |removed| <= |itemList| && Sum(removed) + tmpAmount == amount
      invariant tmpAmount <= Total(itemList[i..])
      invariant forall k | 0 <= k < i :: removed[k] == itemList[k].count
      invariant left == Lowered(items, itemList, removed)
      invariant Sold(items, left, ware, amount - tmpAmount) && NoneTwice(left) && AllGoods(itemList[i..], left, ware)
    {
      var removeCount := if tmpAmount < itemList[i].count then tmpAmount else itemList[i].count;
      tmpAmount := tmpAmount - removeCount;
      SumPush(removed, removeCount);
      LoweredMore(items, itemList, removed, removeCount);
      removed := removed + [removeCount];
      assert Total(itemList[i..]) == itemList[i].count + Total(itemList[i + 1..]) by {
        assert itemList[i..][1..] == itemList[i + 1..];
      }
      SoldMore(items, left, ware, amount - tmpAmount - removeCount, itemList[i..], removeCount);
      left := Minus(left, itemList[i].name, removeCount);
      i := i + 1;
      if tmpAmount == 0 {
        break;
      }
    }
    if i == |itemList| {
      assert Total(itemList[i..]) == 0;
    }
  }

  lemma {:induction false} NothingSold(items: seq<Item>, list: seq<Item>, ware: nat)
    requires AllGoods(list, items, ware)
    ensures Sold(items, items, ware, 0)
    ensures forall x | x in list :: x.name in GoodNames(items, ware)
  {
    assert forall x | x in list :: x in Goods(items, ware);
  }

  /** Each item of the list is removed. */
  method RemoveSingles(itemList: seq<Item>, items: seq<Item>, ghost ware: nat) returns (left: seq<Item>)
    requires NoneTwice(items) && AllGoods(itemList, items, ware)
    ensures Sold(items, left, ware, Total(itemList))
  {
    hide Stock, Goods, Pieces, Names, NoneTwice, Minus, Without, NoContainer, Sold, AllGoods, GoodNames;
    left := items;
    assert itemList[0..] == itemList;
    NothingSold(items, itemList, ware);
    for i := 0 to |itemList|
      invariant Total(itemList[i..]) <= Total(itemList)
      invariant Sold(items, left, ware, Total(itemList) - Total(itemList[i..]))
      invariant NoneTwice(left) && AllGoods(itemList[i..], left, ware)
    {
      assert Total(itemList[i..]) == itemList[i].count + Total(itemList[i + 1..]) by {
        assert itemList[i..][1..] == itemList[i + 1..];
      }
      SoldMore(items, left, ware, Total(itemList) - Total(itemList[i..]), itemList[i..], itemList[i].count);
      left := Minus(left, itemList[i].name, itemList[i].count);
    }
    assert Total(itemList[|itemList|..]) == 0;
  }

  /** The goods of an accepted offer leave the depot: exactly the amount, or nothing if there is not enough. */
  method Sell(depotLocker: Item, ware: nat, amount: nat, stackable: bool) returns (done: bool, left: Item)
    requires 1 <= amount <= MAX_AMOUNT && SmallStacks(depotLocker.items) && NoneTwice(depotLocker.items)
    requires !stackable ==> forall x | x in Goods(depotLocker.items, ware) :: x.count == 1
    ensures done <==> Stock(depotLocker.items, ware) >= amount
    ensures left == depotLocker.(items := left.items)
    ensures if done then Sold(depotLocker.items, left.items, ware, amount) else left == depotLocker
  {
    hide Stock, Goods, Names, NoneTwice, Walk, Sold, AllGoods, Reversed, Reaches, Total;
    var items := depotLocker.items;
    left := depotLocker;
    ghost var order := Walk([depotLocker], ware);
    SearchOfDepot(depotLocker, ware);
    NotEnoughInNothing(order, amount);
    var itemList := GetMarketItemList(ware, amount, depotLocker);
    done := itemList != [];
    if done {
      ghost var n :| 0 < n <= |order| && Reaches(order, n, amount) && itemList == Reversed(order[..n]);
      FoundIsGoods(order, n, items, ware, amount);
      var rest;
      if stackable {
        var removed;
        removed, rest := RemoveStacks(itemList, amount, items, ware);
      } else {
        assert forall x | x in order :: x.count == 1 by {
          assert forall x | x in order :: x in multiset(order);
        }
        SinglesAreExact(order, n, amount);
        rest := RemoveSingles(itemList, items, ware);
      }
      left := depotLocker.(items := rest);
    }
  }

  lemma {:induction false} SearchOfDepot(depotLocker: Item, ware: nat)
    requires NoneTwice(depotLocker.items)
    ensures var order := Walk([depotLocker], ware);
            && Total(order) == Stock(depotLocker.items, ware)
            && multiset(order) == Goods(depotLocker.items, ware) && AllGoods(order, depotLocker.items, ware)
  {
    WalkFindsAll([depotLocker], ware);
    OneContainer(depotLocker, ware);
    hide Walk, Total, Stock, StockOf, Goods, GoodsOf, NoneTwice, AllGoods;
    SearchIsGoods(Walk([depotLocker], ware), depotLocker.items, ware);
  }

  lemma {:induction false} OneContainer(depotLocker: Item, ware: nat)
    ensures StockOf([depotLocker], ware) == Stock(depotLocker.items, ware)
    ensures GoodsOf([depotLocker], ware) == Goods(depotLocker.items, ware)
  {
    hide Stock, Goods;
    assert StockOf([], ware) == 0 && GoodsOf([], ware) == multiset{};
  }

  lemma {:induction false} NotEnoughInNothing(order: seq<Item>, amount: nat)
    requires amount > 0
    ensures order == [] ==> Total(order) < amount
  {
  }

  /** A bag of bags: once the inner one is sold, the outer one is empty and can be sold as well. */
  lemma {:induction false} EmptiedBagIsGoods()
    ensures var inner := Item(2, 1, 1, true, true, true, []);
            var outer := Item(1, 1, 1, true, true, true, [inner]);
            && Stock([outer], 1) == 1 && Minus([outer], 2, 1) == [outer.(items := [])]
            && Stock(Minus([outer], 2, 1), 1) == 1 && Pieces([outer], 1) == 2
  {
    var inner := Item(2, 1, 1, true, true, true, []);
    assert Stock([inner], 1) == 1;
    assert Minus([inner], 2, 1) == [];
  }

  /** Goods that come one by one are all removed, and they are exactly as many as were asked for. */
  lemma {:induction false} SinglesAreExact(order: seq<Item>, n: nat, need: nat)
    requires Reaches(order, n, need) && need > 0 && forall x | x in order :: x.count == 1
    ensures n == need && |Reversed(order[..n])| == need && Total(Reversed(order[..n])) == need
  {
    TotalOfSingles(order[..n]);
    ReversedTotal(order[..n]);
    if n > 1 {
      TotalOfSingles(order[..n - 1]);
    }
  }

  lemma {:induction false} TotalOfSingles(s: seq<Item>)
    requires forall x | x in s :: x.count == 1
    ensures Total(s) == |s|
    decreases s
  {
    if s != [] {
      TotalOfSingles(s[1..]);
    }
  }

  /** The amount in single items. */
  method DeliverSingles(amount: nat) returns (stacks: seq<nat>)
    ensures Sum(stacks) == amount
    ensures |stacks| == amount && forall i | 0 <= i < |stacks| :: stacks[i] == 1
  {
    stacks := [];
    for i := 0 to amount
      invariant Sum(stacks) == i == |stacks| && forall k | 0 <= k < |stacks| :: stacks[k] == 1
    {
      SumPush(stacks, 1);
      stacks := stacks + [1];
    }
  }

  /** The amount in full stacks and one that may be smaller. */
  method DeliverStacks(amount: nat) returns (stacks: seq<nat>)
    ensures Sum(stacks) == amount
    ensures forall i | 0 <= i < |stacks| :: 1 <= stacks[i] <= MAX_STACK && (i < |stacks| - 1 ==> stacks[i] == MAX_STACK)
  {
    stacks := [];
    var tmpAmount: nat := amount;
    while tmpAmount > 0
      invariant Sum(stacks) + tmpAmount == amount
      invariant forall i | 0 <= i < |stacks| :: 1 <= stacks[i] <= MAX_STACK
      invariant forall i | 0 <= i < |stacks| - 1 :: stacks[i] == MAX_STACK
      invariant tmpAmount > 0 && stacks != [] ==> stacks[|stacks| - 1] == MAX_STACK
    {
      var stackCount := if tmpAmount < MAX_STACK then tmpAmount else MAX_STACK;
      SumPush(stacks, stackCount);
      stacks := stacks + [stackCount];
      tmpAmount := tmpAmount - stackCount;
    }
  }
}
