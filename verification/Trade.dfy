/**
 The trade between two players (`playerRequestTrade`, `internalStartTrade`, `playerAcceptTrade` and
 `internalCloseTrade` in src/game/game.cpp).

 `tradeItems` lists the items on offer, each with the player who offers it and an extra reference for as long as it
 is listed.  Checks that have to do with places, scripts and room for items are arguments of the requests.
 */
module Trade {

  datatype TradeState = NoTrade | Initiated | Accepted | Acknowledged | Transferring

  class Item {
    const isContainer: bool
    /** References that are held for trades. */
    var references: nat

    constructor (isContainer: bool)
      ensures this.isContainer == isContainer && references == 0
    {
      this.isContainer, references := isContainer, 0;
    }
  }

  class Player {
    var tradePartner: Player?
    var tradeItem: Item?
    var tradeState: TradeState

    constructor ()
      ensures Seat() == EMPTY
    {
      tradePartner, tradeItem, tradeState := null, null, NoTrade;
    }

    function Seat(): Seat
      reads `tradePartner, `tradeItem, `tradeState
    {
      Side(tradePartner, tradeItem, tradeState)
    }
  }

  /** One player's side of a trade. */
  datatype Seat = Side(partner: Player?, item: Item?, state: TradeState)
  {
    /** What is offered in a trade that is not being carried out. */
    function Offer(): set<Item> {
      if item == null || state == Transferring then {} else {item}
    }
  }

  function Optional(item: Item?): set<Item> {
    if item == null then {} else {item}
  }

  const EMPTY := Side(null, null, NoTrade)

  /** What a player can ask for. */
  datatype Request =
    | Ask(player: Player, partner: Player, item: Item, ready: bool, allowed: bool)
    | Agree(player: Player, answers: Answers, kicked: seq<Player>)
    | Cancel(player: Player)

  /** What the places, scripts and cylinders say when a trade is to be carried out. */
  datatype Answers = Answers(reachable: bool, scripted: bool, fits1: bool, fits2: bool, leaves1: bool, leaves2: bool,
                             moves1: bool)

  // ----- The protocol --------------------------------------------------------------------------

  /** All that the trades of a server consist of. */
  datatype Table = Table(seats: map<Player, Seat>, listed: map<Item, Player>)
  {
    /** The two sides of a trade fit together. */
    ghost predicate Paired(p: Player)
      requires p in seats
    {
      var s := seats[p];
      && (s.partner == null <==> s.state == NoTrade)
      && (s.state == NoTrade || s.state == Acknowledged ==> s.item == null)
      && (s.state == Initiated ==> s.item != null)
      && (s.partner != null ==>
            && s.partner in seats && s.partner != p && seats[s.partner].partner == p
            && var t := seats[s.partner];
               && (s.state == Transferring <==> t.state == Transferring)
               && (s.state == Acknowledged ==> t.item != null && t.state in {Initiated, Accepted})
               && (s.state == Accepted && s.item == null ==> t.item != null))
    }

    /** The listed items are exactly those on offer, each under the one player who offers it. */
    ghost predicate Listed() {
      && (forall i | i in listed :: listed[i] in seats && i in seats[listed[i]].Offer())
      && forall p, i | p in seats && i in seats[p].Offer() :: i in listed && listed[i] == p
    }

    ghost predicate Valid() {
      (forall p | p in seats :: Paired(p)) && Listed()
    }

    /** No trade is agreed on by both or being carried out, as between any two requests. */
    ghost predicate Quiet() {
      && (forall p | p in seats :: seats[p].state != Transferring)
      && forall p | p in seats && seats[p].partner != null && seats[p].partner in seats ::
           !(seats[p].state == Accepted && seats[seats[p].partner].state == Accepted)
    }

    /** No item on offer is inside another. */
    ghost predicate NoNesting(holds: set<(Item, Item)>) {
      forall i, j | i in listed && j in listed :: (i, j) !in holds
    }

    function OfferOf(p: Player?): set<Item> {
      if p == null || p !in seats then {} else seats[p].Offer()
    }

    /** The trade of `p` is over; one that is being carried out is left alone. */
    function Close(p: Player): Table
      requires p in seats
    {
      var q := seats[p].partner;
      if seats[p].state == Transferring || (q != null && q in seats && seats[q].state == Transferring) then this
      else Without(p, q)
    }

    /** One seat empty and its offer off the list. */
    function Cleared(p: Player): Table {
      Table(seats[p := EMPTY], listed - OfferOf(p))
    }

    /** Both seats empty and their offers off the list. */
    function Without(p: Player, q: Player?): Table
    {
      Table(if q == null then seats[p := EMPTY] else seats[p := EMPTY][q := EMPTY],
            listed - OfferOf(p) - OfferOf(q))
    }

    function CloseAll(kicked: seq<Player>): Table
      requires forall k | k in kicked :: k in seats
      decreases kicked
    {
      if kicked == [] then this
      else
        assert kicked[0] in kicked;
        Close(kicked[0]).CloseAll(kicked[1..])
    }

    ghost predicate CanStart(p: Player, q: Player)
      requires p in seats && q in seats
    {
      && (seats[p].state == NoTrade || (seats[p].state == Acknowledged && seats[p].partner == q))
      && (seats[q].state == NoTrade || seats[q].partner == p)
    }

    function Start(p: Player, q: Player, item: Item): Table
      requires p in seats && q in seats
    {
      Table(
        seats[p := Side(q, item, Initiated)]
             [q := if seats[q].state == NoTrade then Side(p, seats[q].item, Acknowledged) else seats[q]],
        listed[item := p])
    }

    /** `p` agrees; if his partner had agreed before him, the trade is carried out or called off, and is over. */
    function Accept(p: Player, answers: Answers, kicked: seq<Player>): Table
      requires p in seats && forall k | k in kicked :: k in seats
    {
      var q := seats[p].partner;
      if seats[p].state !in {Acknowledged, Initiated} || q == null || q !in seats || !answers.reachable then this
      else if seats[q].state != Accepted then Agree(p)
      else if !answers.scripted then Agree(p).Close(p)
      else Agree(p).Begin(p, q).CloseAll(kicked).Without(p, q)
    }

    /** The items change hands: both are offered, the partner had agreed, and nothing stands in the way. */
    ghost predicate Exchanges(p: Player, answers: Answers)
      requires p in seats
    {
      var q := seats[p].partner;
      && seats[p].state == Initiated && q != null && q in seats
      && seats[q].state == Accepted && seats[q].item != null
      && answers.reachable && answers.scripted && answers.fits1 && answers.fits2 && answers.leaves1
      && answers.leaves2 && answers.moves1
    }

    /** `p` agrees. */
    function Agree(p: Player): Table
      requires p in seats
    {
      this.(seats := seats[p := seats[p].(state := Accepted)])
    }

    /** Both agree: their items leave the list and nothing may close the trade any more. */
    function Begin(p: Player, q: Player): Table
      requires p in seats && q in seats
    {
      Table(seats[p := seats[p].(state := Transferring)][q := seats[q].(state := Transferring)],
            listed - OfferOf(p) - OfferOf(q))
    }
  }

  /** A trade that is being carried out cannot be closed, whatever happens to others. */
  lemma {:induction false} CloseAllSpares(t: Table, kicked: seq<Player>, p: Player, q: Player)
    requires t.Valid() && p in t.seats && t.seats[p].partner == q && t.seats[p].state == Transferring
    requires forall k | k in kicked :: k in t.seats
    ensures var u := t.CloseAll(kicked);
            u.Valid() && u.seats.Keys == t.seats.Keys && u.seats[p] == t.seats[p] && u.seats[q] == t.seats[q]
    decreases kicked
  {
    assert t.Paired(p);
    if kicked != [] {
      assert kicked[0] in kicked;
      assert t.Paired(kicked[0]);
      CloseKeeps(t, kicked[0]);
      CloseAllSpares(t.Close(kicked[0]), kicked[1..], p, q);
    }
  }

  lemma {:induction false} ClearedTwice(t: Table, p: Player, q: Player)
    requires p != q
    ensures t.Cleared(p).Cleared(q) == t.Without(p, q)
  {
    assert t.Cleared(p).OfferOf(q) == t.OfferOf(q);
  }

  /** The list stays exact when two sides stop offering and their items are struck off. */
  lemma {:induction false} StrikeKeepsListed(t: Table, seats: map<Player, Seat>, p: Player, q: Player?)
    requires t.Listed() && p in t.seats && (q != null ==> q in t.seats) && seats.Keys == t.seats.Keys
    requires seats[p].Offer() == {} && (q != null ==> seats[q].Offer() == {})
    requires forall r | r in seats && r != p && r != q :: seats[r].Offer() == t.seats[r].Offer()
    ensures Table(seats, t.listed - t.OfferOf(p) - t.OfferOf(q)).Listed()
  {
    var u := Table(seats, t.listed - t.OfferOf(p) - t.OfferOf(q));
    forall r, i | r in u.seats && i in u.seats[r].Offer()
      ensures i in u.listed && u.listed[i] == r
    {
      assert r != p && r != q && i in t.seats[r].Offer();
      assert t.listed[i] == r && i !in t.OfferOf(p) && i !in t.OfferOf(q);
    }
  }

  lemma {:induction false} CloseKeeps(t: Table, p: Player)
    requires t.Valid() && p in t.seats
    ensures t.Close(p).Valid() && t.Close(p).seats.Keys == t.seats.Keys
    ensures t.Close(p).listed.Keys <= t.listed.Keys
    ensures t.seats[p].state != Transferring ==>
              && t.Close(p).seats[p] == EMPTY
              && (t.seats[p].partner != null ==> t.Close(p).seats[t.seats[p].partner] == EMPTY)
  {
    hide Table.Listed;
    assert t.Paired(p);
    var q, u := t.seats[p].partner, t.Close(p);
    if t.seats[p].state != Transferring {
      StrikeKeepsListed(t, u.seats, p, q);
    }
    forall r | r in u.seats
      ensures u.Paired(r)
    {
      assert t.Paired(r);
    }
  }

  lemma {:induction false} StartKeeps(t: Table, p: Player, q: Player, item: Item)
    requires t.Valid() && p in t.seats && q in t.seats && p != q && t.CanStart(p, q) && item !in t.listed
    ensures t.Start(p, q, item).Valid() && t.Start(p, q, item).seats.Keys == t.seats.Keys
  {
    assert t.Paired(p) && t.Paired(q);
    var u := t.Start(p, q, item);
    forall r | r in u.seats
      ensures u.Paired(r)
    {
      assert t.Paired(r);
    }
  }

  lemma {:induction false} AgreeKeeps(t: Table, p: Player)
    requires t.Valid() && p in t.seats && t.seats[p].state in {Acknowledged, Initiated}
    ensures t.Agree(p).Valid()
  {
    assert t.Paired(p);
    var u := t.Agree(p);
    assert forall r | r in u.seats :: u.seats[r].Offer() == t.seats[r].Offer();
    forall r | r in u.seats
      ensures u.Paired(r)
    {
      assert t.Paired(r);
    }
  }

  lemma {:induction false} BeginKeeps(t: Table, p: Player)
    requires t.Valid() && p in t.seats && t.seats[p].state == Accepted
    requires t.seats[t.seats[p].partner].state == Accepted
    ensures t.Begin(p, t.seats[p].partner).Valid()
  {
    hide Table.Listed;
    assert t.Paired(p) && t.Paired(t.seats[p].partner);
    var q, u := t.seats[p].partner, t.Begin(p, t.seats[p].partner);
    StrikeKeepsListed(t, u.seats, p, q);
    forall r | r in u.seats
      ensures u.Paired(r)
    {
      assert t.Paired(r);
    }
  }

  lemma {:induction false} FinishKeeps(t: Table, p: Player)
    requires t.Valid() && p in t.seats && t.seats[p].state == Transferring
    ensures t.Without(p, t.seats[p].partner).Valid()
    ensures t.Without(p, t.seats[p].partner).listed == t.listed
  {
    hide Table.Listed;
    assert t.Paired(p) && t.Paired(t.seats[p].partner);
    var q, u := t.seats[p].partner, t.Without(p, t.seats[p].partner);
    StrikeKeepsListed(t, u.seats, p, q);
    forall r | r in u.seats
      ensures u.Paired(r)
    {
      assert t.Paired(r);
    }
  }

  // ----- Between requests ----------------------------------------------------------------------

  /** `Quiet`, for all but two players. */
  ghost predicate QuietBut(t: Table, p: Player, q: Player) {
    forall r | r in t.seats && r != p && r != q ::
      && t.seats[r].state != Transferring
      && (t.seats[r].partner != null && t.seats[r].partner in t.seats ==>
            !(t.seats[r].state == Accepted && t.seats[t.seats[r].partner].state == Accepted))
  }

  lemma {:induction false} CloseStaysQuiet(t: Table, k: Player, p: Player, q: Player)
    requires t.Valid() && QuietBut(t, p, q) && k in t.seats
    ensures QuietBut(t.Close(k), p, q)
  {
    assert t.Paired(k);
  }

  lemma {:induction false} CloseAllStaysQuiet(t: Table, kicked: seq<Player>, p: Player, q: Player)
    requires t.Valid() && QuietBut(t, p, q) && forall k | k in kicked :: k in t.seats
    ensures QuietBut(t.CloseAll(kicked), p, q) && t.CloseAll(kicked).listed.Keys <= t.listed.Keys
    decreases kicked
  {
    if kicked != [] {
      assert kicked[0] in kicked;
      CloseKeeps(t, kicked[0]);
      CloseStaysQuiet(t, kicked[0], p, q);
      CloseAllStaysQuiet(t.Close(kicked[0]), kicked[1..], p, q);
    }
  }

  /** After every request the server is quiet again, and no new item is on offer but the one asked for. */
  lemma {:induction false} AcceptIsQuiet(t: Table, p: Player, answers: Answers, kicked: seq<Player>)
    requires t.Valid() && t.Quiet() && p in t.seats && forall k | k in kicked :: k in t.seats
    ensures t.Accept(p, answers, kicked).Quiet() && t.Accept(p, answers, kicked).listed.Keys <= t.listed.Keys
  {
    assert t.Paired(p);
    var q := t.seats[p].partner;
    if t.seats[p].state in {Acknowledged, Initiated} && answers.reachable && t.seats[q].state == Accepted {
      assert t.Paired(q);
      AgreeKeeps(t, p);
      var u := t.Agree(p);
      assert QuietBut(u, p, q);
      if answers.scripted {
        BeginKeeps(u, p);
        var v := u.Begin(p, q);
        assert QuietBut(v, p, q);
        CloseAllSpares(v, kicked, p, q);
        CloseAllStaysQuiet(v, kicked, p, q);
        EmptyPairIsQuiet(v.CloseAll(kicked), p, q);
      } else {
        CloseKeeps(u, p);
        EmptyPairIsQuiet(u, p, q);
      }
    }
  }

  lemma {:induction false} EmptyPairIsQuiet(t: Table, p: Player, q: Player)
    requires QuietBut(t, p, q)
    ensures t.Without(p, q).Quiet()
  {
  }

  lemma {:induction false} CloseIsQuiet(t: Table, p: Player)
    requires t.Valid() && t.Quiet() && p in t.seats
    ensures t.Close(p).Quiet()
  {
    assert t.Paired(p);
  }

  lemma {:induction false} StartIsQuiet(t: Table, p: Player, q: Player, item: Item)
    requires t.Valid() && t.Quiet() && p in t.seats && q in t.seats && p != q && t.CanStart(p, q)
    ensures t.Start(p, q, item).Quiet()
  {
    assert t.Paired(p) && t.Paired(q);
    var u := t.Start(p, q, item);
    forall r | r in u.seats && u.seats[r].partner != null && u.seats[r].partner in u.seats
      ensures !(u.seats[r].state == Accepted && u.seats[u.seats[r].partner].state == Accepted)
    {
      assert t.Paired(r);
    }
  }

  // ----- What the requests come to -------------------------------------------------------------

  /** An offer or counter-offer: the player's own side, the side of a partner who was not in a trade, and the list. */
  lemma {:induction false} StartIs(t: Table, p: Player, q: Player, item: Item)
    requires p in t.seats && q in t.seats && p != q
    ensures var u := t.Start(p, q, item);
            && u.seats.Keys == t.seats.Keys && u.listed == t.listed[item := p]
            && u.seats[p].partner == q && u.seats[p].item == item && u.seats[p].state == Initiated
            && (t.seats[q].state == NoTrade ==>
                  u.seats[q].partner == p && u.seats[q].item == t.seats[q].item && u.seats[q].state == Acknowledged)
            && (t.seats[q].state != NoTrade ==> u.seats[q] == t.seats[q])
            && forall r | r in t.seats && r != p && r != q :: u.seats[r] == t.seats[r]
  {
  }

  /** A cancellation empties both sides, unless the trade is being carried out, and leaves all others alone. */
  lemma {:induction false} CloseIs(t: Table, p: Player)
    requires t.Valid() && p in t.seats
    ensures var u, q := t.Close(p), t.seats[p].partner;
            if t.seats[p].state == Transferring then u == t
            else
              && u.seats.Keys == t.seats.Keys
              && (forall r | r in t.seats ::
                    if r == p || r == q then u.seats[r] == Side(null, null, NoTrade) else u.seats[r] == t.seats[r])
              && forall i :: i in u.listed <==> i in t.listed && t.listed[i] != p && t.listed[i] != q
  {
    assert t.Paired(p);
    var u, q := t.Close(p), t.seats[p].partner;
    if t.seats[p].state != Transferring {
      CloseKeeps(t, p);
      assert q != null ==> t.seats[q].state != Transferring;
      forall i
        ensures i in u.listed <==> i in t.listed && t.listed[i] != p && t.listed[i] != q
      {
        assert i in t.listed ==> i in t.seats[t.listed[i]].Offer();
      }
    }
  }

  /** Several cancellations: those named and their partners are out, all others are left alone. */
  lemma {:induction false} CloseAllIs(t: Table, kicked: seq<Player>)
    requires t.Valid() && forall k | k in kicked :: k in t.seats
    ensures var u := t.CloseAll(kicked);
            && u.Valid() && u.seats.Keys == t.seats.Keys
            && forall r | r in t.seats ::
                 u.seats[r] == if t.seats[r].state != Transferring
                                  && (r in kicked || (t.seats[r].partner != null && t.seats[r].partner in kicked))
                               then Side(null, null, NoTrade) else t.seats[r]
    decreases kicked
  {
    hide Table.Valid, Table.Listed;
    AllPaired(t);
    if kicked != [] {
      var k, rest := kicked[0], kicked[1..];
      assert k in kicked && forall r | r in rest :: r in kicked;
      CloseKeeps(t, k);
      CloseIs(t, k);
      CloseAllIs(t.Close(k), rest);
      var u := t.Close(k);
      forall r | r in t.seats
        ensures t.CloseAll(kicked).seats[r]
             == if t.seats[r].state != Transferring
                   && (r in kicked || (t.seats[r].partner != null && t.seats[r].partner in kicked))
                then Side(null, null, NoTrade) else t.seats[r]
      {
        assert t.Paired(r) && t.Paired(k);
        assert forall x | x in kicked :: x == k || x in rest;
        assert u.seats[r] == t.seats[r] || (u.seats[r] == Side(null, null, NoTrade) && t.seats[r].state != Transferring
                                            && (r == k || t.seats[r].partner == k));
      }
    }
  }

  lemma {:induction false} AllPaired(t: Table)
    requires t.Valid()
    ensures forall p | p in t.seats :: t.Paired(p)
  {
  }

  /**
   An agreement.  It counts only in a trade that is open for the player, and with a partner in reach; then it is
   recorded, if the partner has not agreed yet, and otherwise it ends the trade: both sides are empty, what they
   offered is off the list, and so are those whose trades are closed meanwhile.
   */
  lemma {:induction false} AcceptIs(t: Table, p: Player, answers: Answers, kicked: seq<Player>)
    requires t.Valid() && t.Quiet() && p in t.seats && forall k | k in kicked :: k in t.seats
    ensures var u, q := t.Accept(p, answers, kicked), t.seats[p].partner;
            && u.seats.Keys == t.seats.Keys
            && if (t.seats[p].state != Initiated && t.seats[p].state != Acknowledged) || !answers.reachable then u == t
               else if t.seats[q].state != Accepted then
                 && u.listed == t.listed
                 && u.seats[p] == Side(q, t.seats[p].item, Accepted)
                 && forall r | r in t.seats && r != p :: u.seats[r] == t.seats[r]
               else
                 && u.seats[p] == Side(null, null, NoTrade) && u.seats[q] == Side(null, null, NoTrade)
                 && (forall i | i in u.listed :: i in t.listed && t.listed[i] != p && t.listed[i] != q)
                 && forall r | r in t.seats && r != p && r != q ::
                      u.seats[r]
                      == if answers.scripted
                            && (r in kicked || (t.seats[r].partner != null && t.seats[r].partner in kicked))
                         then Side(null, null, NoTrade) else t.seats[r]
  {
    hide Table.Listed;
    assert t.Paired(p);
    var q := t.seats[p].partner;
    if (t.seats[p].state == Initiated || t.seats[p].state == Acknowledged) && answers.reachable
       && t.seats[q].state == Accepted {
      assert t.Paired(q);
      AgreeKeeps(t, p);
      if answers.scripted {
        CarriedOutIs(t, p, kicked);
      } else {
        CloseIs(t.Agree(p), p);
      }
    }
  }

  lemma {:induction false} CarriedOutIs(t: Table, p: Player, kicked: seq<Player>)
    requires t.Valid() && t.Agree.requires(p) && t.Agree(p).Valid() && t.seats[p].partner in t.seats
    requires t.seats[p].partner != p
    requires t.Agree(p).seats[t.seats[p].partner].state == Accepted && forall k | k in kicked :: k in t.seats
    requires forall r | r in t.seats :: t.seats[r].state != Transferring
    ensures var q := t.seats[p].partner;
            var u := t.Agree(p).Begin(p, q).CloseAll(kicked).Without(p, q);
            && u.seats.Keys == t.seats.Keys
            && u.seats[p] == Side(null, null, NoTrade) && u.seats[q] == Side(null, null, NoTrade)
            && (forall i | i in u.listed :: i in t.listed && t.listed[i] != p && t.listed[i] != q)
            && forall r | r in t.seats && r != p && r != q ::
                 u.seats[r] == if r in kicked || (t.seats[r].partner != null && t.seats[r].partner in kicked)
                               then Side(null, null, NoTrade) else t.seats[r]
  {
    hide Table.Valid, Table.Listed, Table.Paired, Table.CloseAll;
    var q, a := t.seats[p].partner, t.Agree(p);
    var b := a.Begin(p, q);
    BeginKeeps(a, p);
    CloseAllIs(b, kicked);
    var c := b.CloseAll(kicked);
    CloseAllSpares(b, kicked, p, q);
    FinishKeeps(c, p);
    StillListed(t, c, p, q);
  }

  /** What is listed after a trade was listed before, by players who had no part in it. */
  lemma {:induction false} StillListed(t: Table, c: Table, p: Player, q: Player)
    requires t.Valid() && p in t.seats && q in t.seats && p in c.seats && q in c.seats
    requires c.Without(p, q).Valid() && c.Without(p, q).listed == c.listed
    requires forall r | r in c.Without(p, q).seats && r != p && r != q ::
               r in t.seats && (c.seats[r] == t.seats[r] || c.seats[r] == Side(null, null, NoTrade))
    ensures forall i | i in c.listed :: i in t.listed && t.listed[i] != p && t.listed[i] != q
  {
    hide Table.Paired;
    var u := c.Without(p, q);
    assert u.Listed() && t.Listed();
    hide Table.Valid, Table.Without;
    forall i | i in u.listed
      ensures i in t.listed && t.listed[i] != p && t.listed[i] != q
    {
      var r := u.listed[i];
      assert i in u.seats[r].Offer() && r != p && r != q;
      assert i in t.seats[r].Offer();
    }
  }

  /** The items change hands if the one who agrees last has offered, as his partner has, and nothing stands in the
      way. */
  lemma {:induction false} ExchangesIff(t: Table, p: Player, answers: Answers)
    requires t.Valid() && p in t.seats
    ensures t.Exchanges(p, answers)
       <==> t.seats[p].state == Initiated && t.seats[t.seats[p].partner].state == Accepted
            && t.seats[t.seats[p].partner].item != null && answers == Answers(true, true, true, true, true, true, true)
  {
    assert t.Paired(p);
  }

  /** Two who have offered agree, one after the other, with nothing in the way: the first agreement is kept until the
      second, which carries the trade out. */
  lemma {:induction false} BothAgree(t: Table, p: Player, q: Player, answers: Answers)
    requires t.Valid() && t.Quiet() && p in t.seats && t.seats[p].partner == q
    requires t.seats[p].state == Initiated && t.seats[q].state == Initiated
    requires answers == Answers(true, true, true, true, true, true, true)
    ensures var u := t.Accept(p, answers, []);
            && !t.Exchanges(p, answers)
            && u.Valid() && u.Quiet() && u.seats[p] == Side(q, t.seats[p].item, Accepted) && u.seats[q] == t.seats[q]
            && u.Exchanges(q, answers)
            && var v := u.Accept(q, answers, []);
               v.seats[p] == Side(null, null, NoTrade) && v.seats[q] == Side(null, null, NoTrade)
  {
    assert t.Paired(p) && t.Paired(q);
    AcceptIs(t, p, answers, []);
    AgreeKeeps(t, p);
    AcceptIsQuiet(t, p, answers, []);
    AcceptIs(t.Accept(p, answers, []), q, answers, []);
  }

  // ----- The players and items -----------------------------------------------------------------

  class Game {
    var players: set<Player>
    var items: set<Item>
    /** Which item is, at any depth, in which container; trades do not change it. */
    const holds: set<(Item, Item)>
    var tradeItems: map<Item, Player>

    constructor (players: set<Player>, items: set<Item>, holds: set<(Item, Item)>)
      requires forall p | p in players :: p.Seat() == EMPTY
      requires forall i | i in items :: i.references == 0
      requires forall h | h in holds :: h.0.isContainer && h.0 != h.1
      ensures Valid() && Now().Quiet() && Now().NoNesting(holds)
      ensures this.players == players && this.items == items && this.holds == holds
    {
      this.players, this.items, this.holds, tradeItems := players, items, holds, map[];
    }

    ghost function Now(): Table
      reads `players, `tradeItems, players`tradePartner, players`tradeItem, players`tradeState
    {
      Table(map p | p in players :: p.Seat(), tradeItems)
    }

    /** Each listed item has its one reference, and no other item has any. */
    ghost predicate Counted()
      reads `items, `tradeItems, items`references
    {
      && tradeItems.Keys <= items
      && forall i | i in items :: i.references == if i in tradeItems then 1 else 0
    }

    ghost predicate Valid()
      reads `players, `items, `tradeItems, players`tradePartner, players`tradeItem, players`tradeState, items`references
    {
      Now().Valid() && Counted() && forall h | h in holds :: h.0.isContainer && h.0 != h.1
    }

    /** If the item is on the list, it leaves it, and its reference is dropped. */
    method Unlist(item: Item?)
      requires Counted()
      modifies `tradeItems, items`references
      ensures Counted() && Now() == old(Now()).(listed := old(Now()).listed - Optional(item))
    {
      if item != null && item in tradeItems {
        item.references := item.references - 1;
        tradeItems := tradeItems - {item};
      }
      assert Now().seats == old(Now()).seats;
    }

    method List(p: Player, item: Item)
      requires Counted() && item in items && item !in tradeItems
      modifies `tradeItems, item`references
      ensures Counted() && Now() == old(Now()).(listed := old(Now()).listed[item := p])
    {
      item.references := item.references + 1;
      tradeItems := tradeItems[item := p];
      assert Now().seats == old(Now()).seats;
    }

    lemma {:induction false} SeatOf(p: Player)
      requires p in players
      ensures Now().seats.Keys == players && Now().seats[p] == p.Seat()
    {
    }

    method SetSeat(p: Player, seat: Seat)
      requires p in players
      modifies p`tradePartner, p`tradeItem, p`tradeState
      ensures p.Seat() == seat && Now() == old(Now()).(seats := old(Now()).seats[p := seat])
    {
      p.tradePartner, p.tradeItem, p.tradeState := seat.partner, seat.item, seat.state;
      assert Now().seats == old(Now()).seats[p := seat];
    }

    /** One side of a trade is put back to the start, and its item leaves the list. */
    method Clear(p: Player)
      requires Counted() && p in players && p.tradeState != Transferring
      modifies `tradeItems, p`tradePartner, p`tradeItem, p`tradeState, items`references
      ensures Counted() && Now() == old(Now()).Cleared(p)
    {
      hide Now, Counted;
      SeatOf(p);
      Unlist(p.tradeItem);
      SetSeat(p, EMPTY);
    }

    method InternalCloseTrade(p: Player)
      requires Valid() && p in players
      modifies `tradeItems, players`tradePartner, players`tradeItem, players`tradeState, items`references
      ensures Valid() && Now() == old(Now()).Close(p)
    {
      ghost var t := Now();
      var q := p.tradePartner;
      CloseKeeps(t, p);
      assert t.Paired(p);
      assert t.seats[p] == p.Seat() && (q != null ==> t.seats[q] == q.Seat());
      hide Now, Table.Valid, Table.Paired, Table.Listed, Counted;
      if (q != null && q.tradeState == Transferring) || p.tradeState == Transferring {
        return;
      }
      Clear(p);
      if q != null {
        Clear(q);
        ClearedTwice(t, p, q);
      } else {
        assert t.Cleared(p) == t.Without(p, null);
      }
    }

    method InternalStartTrade(p: Player, q: Player, item: Item) returns (started: bool)
      requires Valid() && p in players && q in players && p != q && item in items && item !in tradeItems
      modifies `tradeItems, players`tradePartner, players`tradeItem, players`tradeState, items`references
      ensures Valid() && started == old(Now().CanStart(p, q))
      ensures started <==> (old(p.tradeState) == NoTrade
                            || (old(p.tradeState) == Acknowledged && old(p.tradePartner) == q))
                           && (old(q.tradeState) == NoTrade || old(q.tradePartner) == p)
      ensures Now() == if started then old(Now()).Start(p, q, item) else old(Now())
    {
      ghost var t := Now();
      SeatOf(p);
      SeatOf(q);
      hide Now;
      if p.tradeState != NoTrade && !(p.tradeState == Acknowledged && p.tradePartner == q) {
        return false;
      } else if q.tradeState != NoTrade && q.tradePartner != p {
        return false;
      }
      StartKeeps(t, p, q, item);
      hide Table.Valid, Table.Paired, Table.Listed, Counted;
      Open(p, q, item);
      started := true;
    }

    method Open(p: Player, q: Player, item: Item)
      requires Counted() && p in players && q in players && p != q && item in items && item !in tradeItems
      modifies `tradeItems, players`tradePartner, players`tradeItem, players`tradeState, items`references
      ensures Counted() && Now() == old(Now()).Start(p, q, item)
    {
      SeatOf(p);
      SeatOf(q);
      hide Now, Counted;
      List(p, item);
      SetSeat(p, Side(q, item, Initiated));
      if q.tradeState == NoTrade {
        SetSeat(q, Side(p, q.tradeItem, Acknowledged));
      }
    }

    /** The item is on offer itself, or inside an item on offer, or has one inside. */
    ghost predicate Conflicts(item: Item)
      reads `tradeItems
    {
      exists i | i in tradeItems :: i == item || (item, i) in holds || (i, item) in holds
    }

    /** The scan of the items on offer; only a container can hold anything. */
    method AlreadyTraded(item: Item) returns (r: bool)
      requires Valid()
      ensures r <==> Conflicts(item)
    {
      var rest := tradeItems.Keys;
      while rest != {}
        invariant rest <= tradeItems.Keys
        invariant forall i | i in tradeItems && i !in rest :: i != item && (item, i) !in holds && (i, item) !in holds
        decreases |rest|
      {
        var i :| i in rest;
        if item == i {
          return true;
        }
        if item.isContainer && (item, i) in holds {
          return true;
        }
        if i.isContainer && (i, item) in holds {
          return true;
        }
        rest := rest - {i};
      }
      return false;
    }

    /** `ready` stands for what is checked before the items on offer are looked at, `allowed` for what comes after. */
    method PlayerRequestTrade(p: Player, q: Player, item: Item, ready: bool, allowed: bool) returns (started: bool)
      requires Valid() && p in players && q in players && item in items && Now().NoNesting(holds)
      modifies `tradeItems, players`tradePartner, players`tradeItem, players`tradeState, items`references
      ensures Valid() && Now().NoNesting(holds)
      ensures started <==> p != q && ready && allowed && !old(Conflicts(item)) && old(Now().CanStart(p, q))
      ensures Now() == if started then old(Now()).Start(p, q, item) else old(Now())
    {
      started := false;
      if p == q || !ready {
        return;
      }
      var traded := AlreadyTraded(item);
      if traded || !allowed {
        return;
      }
      hide Table.Valid;
      started := InternalStartTrade(p, q, item);
    }

    /** What happens to others while a trade is carried out: the trades of some players are closed. */
    method CloseEach(kicked: seq<Player>)
      requires Valid() && forall k | k in kicked :: k in players
      modifies `tradeItems, players`tradePartner, players`tradeItem, players`tradeState, items`references
      ensures Valid() && Now() == old(Now()).CloseAll(kicked)
    {
      hide Valid, Table.Close;
      ghost var t := Now();
      assert Now().seats.Keys == players;
      for i := 0 to |kicked|
        invariant Valid() && Now().seats.Keys == players
        invariant Now().CloseAll(kicked[i..]) == t.CloseAll(kicked)
      {
        assert kicked[i..][0] == kicked[i] && kicked[i..][1..] == kicked[i + 1..];
        assert kicked[i] in kicked;
        InternalCloseTrade(kicked[i]);
        SeatOf(kicked[i]);
      }
      assert kicked[|kicked|..] == [];
    }

    /** The exchange of the two items: whether it can be done, and whether the first item moves. */
    method Exchange(item1: Item?, item2: Item?, answers: Answers) returns (done: bool)
      ensures done <==> item1 != null && item2 != null && answers.fits1 && answers.fits2 && answers.leaves1
                        && answers.leaves2 && answers.moves1
    {
      done := false;
      var ret1, ret2 := item1 != null && answers.fits1, item2 != null && answers.fits2;
      if ret1 && ret2 {
        ret1, ret2 := answers.leaves1, answers.leaves2;
        if ret1 && ret2 {
          if answers.moves1 {
            done := true;
          }
        }
      }
    }

    method BeginTransfer(p: Player, q: Player)
      requires Counted() && p in players && q in players && p != q
      requires p.tradeState == Accepted && q.tradeState == Accepted
      modifies `tradeItems, players`tradePartner, players`tradeItem, players`tradeState, items`references
      ensures Counted() && Now() == old(Now()).Begin(p, q)
    {
      hide Now, Counted;
      ghost var t := Now();
      SeatOf(p);
      SeatOf(q);
      SetSeat(p, p.Seat().(state := Transferring));
      SetSeat(q, q.Seat().(state := Transferring));
      Unlist(p.tradeItem);
      Unlist(q.tradeItem);
    }

    /** Both seats are emptied; what was offered has left the list before. */
    method EndTransfer(p: Player, q: Player)
      requires Counted() && p in players && q in players
      requires p.tradeState == Transferring && q.tradeState == Transferring
      modifies players`tradePartner, players`tradeItem, players`tradeState
      ensures Counted() && Now() == old(Now()).Without(p, q)
    {
      hide Now, Counted;
      ghost var t := Now();
      SeatOf(p);
      SeatOf(q);
      assert t.OfferOf(p) == {} && t.OfferOf(q) == {};
      SetSeat(p, EMPTY);
      SetSeat(q, EMPTY);
    }

    /** From the agreement to the last of what it causes. */
    method Transfer(p: Player, q: Player, kicked: seq<Player>)
      requires Valid() && p in players && q in players && p.tradePartner == q
      requires p.tradeState == Accepted && q.tradeState == Accepted
      requires forall k | k in kicked :: k in players
      modifies `tradeItems, players`tradePartner, players`tradeItem, players`tradeState, items`references
      ensures Valid() && Now() == old(Now()).Begin(p, q).CloseAll(kicked)
      ensures p.tradeState == Transferring && q.tradeState == Transferring && p.tradePartner == q
    {
      ghost var t := Now();
      assert t.Paired(p) && t.seats[p] == p.Seat() && t.seats[q] == q.Seat();
      BeginKeeps(t, p);
      CloseAllSpares(t.Begin(p, q), kicked, p, q);
      hide Now, Table.Valid, Table.Paired, Table.Listed, Counted, Table.CloseAll;
      BeginTransfer(p, q);
      CloseEach(kicked);
      SeatOf(p);
      SeatOf(q);
    }

    /** Both have agreed: the items leave the list, change hands if they can, and the trade is over either way. */
    method CarryOut(p: Player, q: Player, answers: Answers, kicked: seq<Player>) returns (done: bool)
      requires Valid() && p in players && q in players && p.tradePartner == q
      requires p.tradeState == Accepted && q.tradeState == Accepted
      requires forall k | k in kicked :: k in players
      modifies `tradeItems, players`tradePartner, players`tradeItem, players`tradeState, items`references
      ensures Valid() && Now() == old(Now()).Begin(p, q).CloseAll(kicked).Without(p, q)
      ensures done <==> old(p.tradeItem) != null && old(q.tradeItem) != null && answers.fits1 && answers.fits2
                        && answers.leaves1 && answers.leaves2 && answers.moves1
    {
      hide Now, Table.Valid, Table.Paired, Table.Listed, Counted, Table.CloseAll, Table.Without, Table.Begin;
      var item1, item2 := p.tradeItem, q.tradeItem;
      Transfer(p, q, kicked);
      done := Exchange(item1, item2, answers);
      SeatOf(p);
      FinishKeeps(Now(), p);
      EndTransfer(p, q);
    }

    method PlayerAcceptTrade(p: Player, answers: Answers, kicked: seq<Player>) returns (done: bool)
      requires Valid() && Now().Quiet() && p in players && forall k | k in kicked :: k in players
      modifies `tradeItems, players`tradePartner, players`tradeItem, players`tradeState, items`references
      ensures Valid() && Now() == old(Now()).Accept(p, answers, kicked)
      ensures done <==> old(Now()).Exchanges(p, answers)
    {
      ghost var t := Now();
      assert t.Paired(p) && t.seats[p] == p.Seat();
      done := false;
      if !(p.tradeState == Acknowledged || p.tradeState == Initiated) {
        return;
      }
      var q := p.tradePartner;
      if q == null {
        return;
      }
      assert t.seats[q] == q.Seat();
      if !answers.reachable {
        return;
      }
      AgreeKeeps(t, p);
      hide Now, Table.Valid, Table.Paired, Table.Listed, Counted;
      SetSeat(p, p.Seat().(state := Accepted));
      assert Now() == t.Agree(p);
      if q.tradeState == Accepted {
        if !answers.scripted {
          InternalCloseTrade(p);
          return;
        }
        done := CarryOut(p, q, answers, kicked);
      }
    }

    // ----- Runs --------------------------------------------------------------------------------

    ghost predicate Known(request: Request)
      reads `players, `items
    {
      match request
      case Ask(p, q, item, _, _) => p in players && q in players && item in items
      case Agree(p, _, kicked) => p in players && forall k | k in kicked :: k in players
      case Cancel(p) => p in players
    }

    /**
     Whatever the players ask, in whatever order: partners are partners of each other, the list is exact, each item
     on it has its one reference, and none is inside another.
     */
    method Run(requests: seq<Request>)
      requires Valid() && Now().Quiet() && Now().NoNesting(holds)
      requires forall r | r in requests :: Known(r)
      modifies `tradeItems, players`tradePartner, players`tradeItem, players`tradeState, items`references
      ensures Valid() && Now().Quiet() && Now().NoNesting(holds)
    {
      for i := 0 to |requests|
        invariant Valid() && Now().Quiet() && Now().NoNesting(holds)
      {
        assert Known(requests[i]);
        Serve(requests[i]);
      }
    }

    method Serve(request: Request)
      requires Valid() && Now().Quiet() && Now().NoNesting(holds) && Known(request)
      modifies `tradeItems, players`tradePartner, players`tradeItem, players`tradeState, items`references
      ensures Valid() && Now().Quiet() && Now().NoNesting(holds)
    {
      ghost var t := Now();
      hide Now, Table.Valid, Table.Paired, Table.Listed, Table.Quiet, Counted, Table.Accept, Table.Close, Table.Start;
      match request
      case Ask(p, q, item, ready, allowed) =>
        SeatOf(p);
        SeatOf(q);
        var started := PlayerRequestTrade(p, q, item, ready, allowed);
        if started {
          StartIsQuiet(t, p, q, item);
        }
      case Agree(p, answers, kicked) =>
        SeatOf(p);
        AcceptIsQuiet(t, p, answers, kicked);
        var done := PlayerAcceptTrade(p, answers, kicked);
      case Cancel(p) =>
        SeatOf(p);
        CloseKeeps(t, p);
        CloseIsQuiet(t, p);
        InternalCloseTrade(p);
    }
  }
}
