/**
 An accepted offer to buy as a whole (`Game::playerAcceptMarketOffer` in src/game/game.cpp): the money of `Market` and
 the goods of `MarketItems` together.
 */
module Deals {
  import opened Wrappers
  import Market
  import MarketItems

  /**
   Player `p` delivers to an offer to buy.  His depot loses, and the buyer's inbox gains, exactly the pieces for which
   he is paid; or nothing happens at all.
   */
  method Deliver(m: Market.Market, p: nat, created: int, counter: nat, amount: nat, ready: bool,
                 depot: MarketItems.Item, ware: nat, stackable: bool)
    returns (done: bool, left: MarketItems.Item, inbox: seq<nat>)
    requires m.Valid() && p < |m.accounts|
    requires MarketItems.SmallStacks(depot.items) && MarketItems.NoneTwice(depot.items)
    requires !stackable ==> forall x | x in MarketItems.Goods(depot.items, ware) :: x.count == 1
    modifies m`accounts, m`floor, m`offers
    ensures m.Valid() && |m.accounts| == |old(m.accounts)|
    ensures var k := Market.Lookup(old(m.offers), 0, created, counter);
            && (done <==> ready && k.Some?
                          && old(m.offers)[k.value].action.Buy? && old(m.offers)[k.value].owner != p
                          && 1 <= amount <= old(m.offers)[k.value].amount
                          && MarketItems.Stock(depot.items, ware) >= amount)
            && (done ==>
                  && m.offers == Market.Taken(old(m.offers), k.value, amount)
                  && m.accounts
                     == Market.Credit(old(m.accounts), p, Market.Product32(old(m.offers)[k.value].price, amount))
                  && MarketItems.Sold(depot.items, left.items, ware, amount))
    ensures left == depot.(items := left.items)
    ensures MarketItems.Pieces(left.items, ware) + MarketItems.Sum(inbox) == MarketItems.Pieces(depot.items, ware)
    ensures done ==> MarketItems.Sum(inbox) == amount
    ensures done ==> forall i | 0 <= i < |inbox| :: 1 <= inbox[i] <= MarketItems.MAX_STACK
    ensures !done ==> left == depot && inbox == [] && m.offers == old(m.offers) && m.accounts == old(m.accounts)
  {
    hide Market.Lookup, Market.Taken, Market.Credit, Market.Product32, Market.Escrow, Market.Funds;
    done, left, inbox := false, depot, [];
    if amount == 0 || !ready {
      return;
    }
    var found := Market.Lookup(m.offers, 0, created, counter);
    if found.None? {
      return;
    }
    var offer := m.offers[found.value];
    if amount > offer.amount || offer.action.Sell? || offer.owner == p {
      return;
    }
    var sold: bool;
    sold, left := MarketItems.Sell(depot, ware, amount, stackable);
    if !sold {
      return;
    }
    done := m.AcceptOffer(p, created, counter, amount, ready, sold);
    if stackable {
      inbox := MarketItems.DeliverStacks(amount);
    } else {
      inbox := MarketItems.DeliverSingles(amount);
    }
  }
}
