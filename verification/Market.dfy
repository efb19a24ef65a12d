/**
 Market offers as money held in trust (`playerCreateMarketOffer`, `playerCancelMarketOffer` and
 `playerAcceptMarketOffer` in src/game/game.cpp; the offer table of src/io/iomarket.cpp).

 An open offer to buy holds its price times its amount.  What the four operations do to all the money there is -
 coins carried, coins on the floor, bank balances and what open offers hold - is stated exactly, with the 32-bit
 product that create and accept use.
 */
module Market {
  import opened Basics
  import opened Wrappers
  import opened Coins

  const MAX_AMOUNT := 64000
  const MAX_PRICE := 999_999_999

  datatype Action = Buy | Sell

  /** A row of the table market_offers; owners are players by number. */
  datatype Offer = Offer(id: nat, owner: nat, action: Action, amount: nat, price: nat, created: int)

  /** The product of a 32-bit price and a 16-bit amount, as the source computes it. */
  function Product32(price: nat, amount: nat): nat {
    (price * amount) % TWO_32
  }

  /** The fee for an offer; `calcFee` is the one per cent of its worth, computed in floating point. */
  function Fee(calcFee: nat): (fee: nat)
    ensures 20 <= fee <= 100000
    ensures 20 <= calcFee <= 100000 ==> fee == calcFee
    ensures calcFee < 20 ==> fee == 20
    ensures 100000 < calcFee < TWO_32 ==> fee == 100000
  {
    var wrapped := calcFee % TWO_32;
    var minFee := if wrapped < 100000 then wrapped else 100000;
    if minFee < 20 then 20 else minFee
  }

  // ----- Money ---------------------------------------------------------------------------------

  /** What an open offer holds. */
  function Held(offer: Offer): nat {
    if offer.action.Buy? then offer.price * offer.amount else 0
  }

  lemma {:induction false} HeldIs(row: Offer)
    ensures Held(row) == if row.action.Buy? then row.price * row.amount else 0
  {
  }

  function Escrow(offers: seq<Offer>): nat {
    if offers == [] then 0 else Held(offers[0]) + Escrow(offers[1..])
  }

  function Funds(accounts: seq<Account>): nat {
    if accounts == [] then 0 else accounts[0].cash + accounts[0].bank + Funds(accounts[1..])
  }

  lemma {:induction false} EscrowSplit(a: seq<Offer>, b: seq<Offer>)
    ensures Escrow(a + b) == Escrow(a) + Escrow(b)
    decreases a
  {
    if a == [] {
      assert a + b == b;
    } else {
      assert (a + b)[1..] == a[1..] + b;
      EscrowSplit(a[1..], b);
    }
  }

  lemma {:induction false} EscrowPush(offers: seq<Offer>, offer: Offer)
    ensures Escrow(offers + [offer]) == Escrow(offers) + Held(offer)
  {
    EscrowSplit(offers, [offer]);
    assert Escrow([offer]) == Held(offer) + Escrow([]);
  }

  lemma {:induction false} FundsUpdate(accounts: seq<Account>, p: nat, account: Account)
    requires p < |accounts|
    ensures Funds(accounts[p := account])
         == Funds(accounts) - accounts[p].cash - accounts[p].bank + account.cash + account.bank
    decreases accounts
  {
    if p == 0 {
      assert accounts[p := account][1..] == accounts[1..];
    } else {
      assert accounts[p := account][1..] == accounts[1..][p - 1 := account];
      FundsUpdate(accounts[1..], p - 1, account);
    }
  }

  // ----- The table of offers -------------------------------------------------------------------

  /** The first row from `i` on that was created at that time and whose id ends in the counter. */
  function Lookup(offers: seq<Offer>, i: nat, created: int, counter: nat): (k: Option<nat>)
    requires i <= |offers|
    ensures k.Some? ==>
              i <= k.value < |offers| && offers[k.value].created == created && offers[k.value].id % 65536 == counter
    ensures forall j | i <= j < (if k.Some? then k.value else |offers|) ::
              offers[j].created != created || offers[j].id % 65536 != counter
    decreases |offers| - i
  {
    if i == |offers| then None
    else if offers[i].created == created && offers[i].id % 0x1_0000 == counter then Some(i)
    else Lookup(offers, i + 1, created, counter)
  }

  /** The row with the id. */
  function FindId(offers: seq<Offer>, id: nat): (k: Option<nat>)
    ensures k.Some? ==> k.value < |offers| && offers[k.value].id == id
    ensures k.None? ==> forall j | 0 <= j < |offers| :: offers[j].id != id
    decreases offers
  {
    if offers == [] then None
    else if offers[|offers| - 1].id == id then Some(|offers| - 1)
    else FindId(offers[..|offers| - 1], id)
  }

  /** Part of the offer at `k` is taken; a row with nothing left goes. */
  function Taken(offers: seq<Offer>, k: nat, amount: nat): seq<Offer>
    requires k < |offers| && amount <= offers[k].amount
  {
    if amount == offers[k].amount then Erase(offers, k)
    else offers[k := offers[k].(amount := offers[k].amount - amount)]
  }

  /** All other rows stay as they are, in their order, and the row itself keeps all but what was taken. */
  lemma {:induction false} TakenIs(offers: seq<Offer>, k: nat, amount: nat)
    requires k < |offers| && amount <= offers[k].amount
    ensures var r, rest := Taken(offers, k, amount), offers[k].amount - amount;
            if rest == 0 then
              |r| == |offers| - 1 && forall j | 0 <= j < |r| :: r[j] == offers[if j < k then j else j + 1]
            else
              |r| == |offers| && r[k].amount == rest && r[k] == offers[k].(amount := rest)
              && forall j | 0 <= j < |r| && j != k :: r[j] == offers[j]
  {
  }

  lemma {:induction false} EscrowDeleted(offers: seq<Offer>, k: nat)
    requires k < |offers|
    ensures Escrow(Erase(offers, k)) == Escrow(offers) - Held(offers[k])
  {
    EscrowSplit(offers[..k], offers[k + 1..]);
    EscrowSplit(offers[..k], offers[k..]);
    assert offers == offers[..k] + offers[k..];
    assert offers[k..][1..] == offers[k + 1..];
  }

  lemma {:induction false} PartAndRest(price: nat, part: nat, whole: nat)
    requires part <= whole
    ensures price * (whole - part) == price * whole - price * part >= 0
  {
  }

  lemma {:induction false} EscrowTaken(offers: seq<Offer>, k: nat, amount: nat)
    requires k < |offers| && amount <= offers[k].amount
    ensures Escrow(Taken(offers, k, amount))
         == Escrow(offers) - if offers[k].action.Buy? then offers[k].price * amount else 0
  {
    hide Escrow;
    EscrowDeleted(offers, k);
    PartAndRest(offers[k].price, amount, offers[k].amount);
    if amount < offers[k].amount {
      var less := Taken(offers, k, amount);
      EscrowDeleted(less, k);
      assert Erase(less, k) == Erase(offers, k);
    }
  }

  // ----- Rows of expired offers ----------------------------------------------------------------

  /** What refunding the rows adds to all money: the refunds less what the deleted offers held. */
  function Excess(rows: seq<Offer>, offers: seq<Offer>): int
    decreases rows
  {
    if rows == [] then 0 else
      match FindId(offers, rows[0].id)
      case None => Excess(rows[1..], offers)
      case Some(k) => Held(rows[0]) - Held(offers[k]) + Excess(rows[1..], Erase(offers, k))
  }

  /** The table without the rows' offers. */
  function Remaining(rows: seq<Offer>, offers: seq<Offer>): seq<Offer>
    decreases rows
  {
    if rows == [] then offers else
      match FindId(offers, rows[0].id)
      case None => Remaining(rows[1..], offers)
      case Some(k) => Remaining(rows[1..], Erase(offers, k))
  }

  function Credit(accounts: seq<Account>, p: nat, money: nat): (r: seq<Account>)
    requires p < |accounts|
    ensures |r| == |accounts| && forall j | 0 <= j < |r| && j != p :: r[j] == accounts[j]
    ensures r[p].bank == accounts[p].bank + money && r[p].cash == accounts[p].cash
  {
    accounts[p := accounts[p].(bank := accounts[p].bank + money)]
  }

  /** The accounts with each row's refund, if its offer is still there. */
  function Refunded(rows: seq<Offer>, offers: seq<Offer>, accounts: seq<Account>): seq<Account>
    requires forall i | 0 <= i < |rows| :: rows[i].owner < |accounts|
    decreases rows
  {
    if rows == [] then accounts else
      match FindId(offers, rows[0].id)
      case None => Refunded(rows[1..], offers, accounts)
      case Some(k) =>
        Refunded(rows[1..], Erase(offers, k),
                 if rows[0].action.Buy? then Credit(accounts, rows[0].owner, Held(rows[0])) else accounts)
  }

  /** Exactly the offers that no row names remain. */
  lemma {:induction false} RemainingNotNamed(rows: seq<Offer>, offers: seq<Offer>, o: Offer)
    requires DistinctIds(offers)
    ensures o in Remaining(rows, offers) <==> o in offers && forall i | 0 <= i < |rows| :: rows[i].id != o.id
    decreases rows
  {
    if rows != [] {
      var rest := rows[1..];
      assert forall i | 0 < i < |rows| :: rows[i] == rest[i - 1];
      match FindId(offers, rows[0].id) {
        case None =>
          RemainingNotNamed(rest, offers, o);
        case Some(k) =>
          RemainingNotNamed(rest, Erase(offers, k), o);
          OthersStay(offers, k, o);
      }
    }
  }

  lemma {:induction false} OthersStay(offers: seq<Offer>, k: nat, o: Offer)
    requires k < |offers| && DistinctIds(offers)
    ensures o in Erase(offers, k) <==> o in offers && o.id != offers[k].id
  {
    if o in offers && o.id != offers[k].id {
      var j :| 0 <= j < |offers| && offers[j] == o;
      assert Erase(offers, k)[if j < k then j else j - 1] == o;
    }
  }

  ghost predicate DistinctIds(offers: seq<Offer>) {
    forall i, j | 0 <= i < j < |offers| :: offers[i].id != offers[j].id
  }

  /** The rows were read when the table had, of each offer that is still there, at least what is left of it now. */
  ghost predicate Snapshot(rows: seq<Offer>, offers: seq<Offer>) {
    forall i, k | 0 <= i < |rows| && 0 <= k < |offers| && rows[i].id == offers[k].id ::
      offers[k].amount <= rows[i].amount && offers[k] == rows[i].(amount := offers[k].amount)
  }

  /** No earlier row has the id. */
  ghost predicate First(rows: seq<Offer>, i: nat)
    requires i < |rows|
  {
    forall j | 0 <= j < i :: rows[j].id != rows[i].id
  }

  /** No offer to buy among the rows has been partly accepted since; of rows with one id the first counts. */
  ghost predicate Untouched(rows: seq<Offer>, offers: seq<Offer>) {
    forall i, k | 0 <= i < |rows| && 0 <= k < |offers| && rows[i].id == offers[k].id && offers[k].action.Buy? ::
      First(rows, i) ==> offers[k].amount == rows[i].amount
  }

  /** Refunds by rows read earlier make money exactly when an offer was partly accepted in between. */
  lemma {:induction false} ExcessIffTouched(rows: seq<Offer>, offers: seq<Offer>)
    requires Snapshot(rows, offers) && DistinctIds(offers)
    requires forall i | 0 <= i < |rows| :: rows[i].price > 0
    ensures Excess(rows, offers) >= 0
    ensures Excess(rows, offers) == 0 <==> Untouched(rows, offers)
    decreases rows
  {
    if rows != [] {
      var rest := rows[1..];
      FirstRest(rows);
      match FindId(offers, rows[0].id) {
        case None =>
          ExcessIffTouched(rest, offers);
          UntouchedRest(rows, offers);
        case Some(k) =>
          var fewer := Erase(offers, k);
          ExcessIffTouched(rest, fewer);
          HeldDiffers(rows[0], offers[k]);
          UntouchedOne(rows, offers, k);
      }
    }
  }

  lemma {:induction false} FirstRest(rows: seq<Offer>)
    requires rows != []
    ensures First(rows, 0)
    ensures forall i | 0 < i < |rows| ::
              First(rows, i) <==> First(rows[1..], i - 1) && rows[i].id != rows[0].id
  {
    var rest := rows[1..];
    forall i | 0 < i < |rows|
      ensures First(rows, i) <==> First(rest, i - 1) && rows[i].id != rows[0].id
    {
      assert forall j | 0 < j < |rows| :: rows[j] == rest[j - 1];
      if First(rows, i) {
        forall j | 0 <= j < i - 1 ensures rest[j].id != rest[i - 1].id {
          assert rest[j] == rows[j + 1];
        }
      }
    }
  }

  /** An offer for ten pieces of which five have been delivered since the row was read: the five are refunded again. */
  lemma {:induction false} StaleRefund(offer: Offer)
    requires offer.action.Buy? && offer.amount == 5 && offer.price == 100
    ensures Excess([offer.(amount := 10)], [offer]) == 500
  {
    var row := offer.(amount := 10);
    assert [row][1..] == [];
    assert Excess([], Erase([offer], 0)) == 0;
  }

  lemma {:induction false} HeldDiffers(row: Offer, offer: Offer)
    requires row.price > 0 && offer.amount <= row.amount && offer == row.(amount := offer.amount)
    ensures Held(row) >= Held(offer)
    ensures Held(row) == Held(offer) <==> (offer.action.Buy? ==> offer.amount == row.amount)
  {
    assert row.price * row.amount == row.price * offer.amount + row.price * (row.amount - offer.amount);
    if row.amount > offer.amount {
      assert row.price * (row.amount - offer.amount) >= 1;
    }
  }

  lemma {:induction false} UntouchedRest(rows: seq<Offer>, offers: seq<Offer>)
    requires rows != [] && forall k | 0 <= k < |offers| :: offers[k].id != rows[0].id
    ensures Untouched(rows, offers) <==> Untouched(rows[1..], offers)
  {
    FirstRest(rows);
    hide First;
    assert forall i | 0 < i < |rows| :: rows[i] == rows[1..][i - 1];
  }

  lemma {:induction false} UntouchedOne(rows: seq<Offer>, offers: seq<Offer>, k: nat)
    requires rows != [] && k < |offers| && rows[0].id == offers[k].id && DistinctIds(offers)
    ensures Untouched(rows, offers)
       <==> Untouched(rows[1..], Erase(offers, k)) && (offers[k].action.Buy? ==> offers[k].amount == rows[0].amount)
  {
    var rest, fewer := rows[1..], Erase(offers, k);
    FirstRest(rows);
    hide First;
    if Untouched(rest, fewer) && (offers[k].action.Buy? ==> offers[k].amount == rows[0].amount) {
      forall i, j | 0 <= i < |rows| && 0 <= j < |offers| && rows[i].id == offers[j].id && offers[j].action.Buy?
                    && First(rows, i)
        ensures offers[j].amount == rows[i].amount
      {
        if i > 0 {
          assert rest[i - 1] == rows[i] && fewer[if j < k then j else j - 1] == offers[j];
        }
      }
    }
    if Untouched(rows, offers) {
      forall i, j | 0 <= i < |rest| && 0 <= j < |fewer| && rest[i].id == fewer[j].id && fewer[j].action.Buy?
                    && First(rest, i)
        ensures fewer[j].amount == rest[i].amount
      {
        assert rest[i] == rows[i + 1] && fewer[j] == offers[if j < k then j else j + 1];
      }
    }
  }

  // ----- Rows that wait while the table changes ------------------------------------------------

  lemma {:induction false} SnapshotExpired(offers: seq<Offer>, bound: int)
    requires DistinctIds(offers)
    ensures Snapshot(Expired(offers, bound), offers)
  {
    var rows := Expired(offers, bound);
    forall i, k | 0 <= i < |rows| && 0 <= k < |offers| && rows[i].id == offers[k].id
      ensures offers[k] == rows[i]
    {
      assert rows[i] in rows;
      var j :| 0 <= j < |offers| && offers[j] == rows[i];
    }
  }

  lemma {:induction false} SnapshotPush(rows: seq<Offer>, offers: seq<Offer>, o: Offer)
    requires Snapshot(rows, offers) && forall i | 0 <= i < |rows| :: rows[i].id != o.id
    ensures Snapshot(rows, offers + [o])
  {
  }

  lemma {:induction false} SnapshotTaken(rows: seq<Offer>, offers: seq<Offer>, k: nat, amount: nat)
    requires Snapshot(rows, offers) && k < |offers| && amount <= offers[k].amount
    ensures Snapshot(rows, Taken(offers, k, amount))
  {
  }

  lemma {:induction false} SnapshotRemaining(rows: seq<Offer>, done: seq<Offer>, offers: seq<Offer>)
    requires Snapshot(rows, offers)
    ensures Snapshot(rows, Remaining(done, offers))
    decreases done
  {
    if done != [] {
      match FindId(offers, done[0].id) {
        case None =>
          SnapshotRemaining(rows, done[1..], offers);
        case Some(k) =>
          SnapshotTaken(rows, offers, k, offers[k].amount);
          SnapshotRemaining(rows, done[1..], Erase(offers, k));
      }
    }
  }

  // ----- Refunds, owner by owner ---------------------------------------------------------------

  /** What the rows are to bring the owner: what each of his held when it was read, for every id at most once. */
  function Due(rows: seq<Offer>, ids: set<nat>, p: nat): nat
    decreases rows
  {
    if rows == [] then 0
    else (if rows[0].id in ids && rows[0].owner == p then Held(rows[0]) else 0) + Due(rows[1..], ids - {rows[0].id}, p)
  }

  function Ids(offers: seq<Offer>): set<nat> {
    set o | o in offers :: o.id
  }

  lemma {:induction false} DeletedIds(offers: seq<Offer>, k: nat)
    requires k < |offers| && DistinctIds(offers)
    ensures Ids(Erase(offers, k)) == Ids(offers) - {offers[k].id} && DistinctIds(Erase(offers, k))
  {
    forall id
      ensures id in Ids(Erase(offers, k)) <==> id in Ids(offers) && id != offers[k].id
    {
      if o :| o in offers && o.id == id && id != offers[k].id {
        OthersStay(offers, k, o);
      }
      if o :| o in Erase(offers, k) && o.id == id {
        OthersStay(offers, k, o);
      }
    }
  }

  /** Of each account the refunds raise the bank by what is due to its owner, and change nothing else. */
  lemma {:induction false} RefundedIsDue(rows: seq<Offer>, offers: seq<Offer>, accounts: seq<Account>, p: nat)
    requires DistinctIds(offers) && p < |accounts| && forall i | 0 <= i < |rows| :: rows[i].owner < |accounts|
    ensures |Refunded(rows, offers, accounts)| == |accounts|
    ensures Refunded(rows, offers, accounts)[p]
         == accounts[p].(bank := accounts[p].bank + Due(rows, Ids(offers), p))
    decreases rows
  {
    hide Held, Ids;
    if rows != [] {
      var rest := rows[1..];
      assert forall i | 0 <= i < |rest| :: rest[i] == rows[i + 1];
      assert rows[0].owner < |accounts|;
      match FindId(offers, rows[0].id) {
        case None =>
          NotAnId(offers, rows[0].id);
          assert Ids(offers) - {rows[0].id} == Ids(offers);
          RefundedIsDue(rest, offers, accounts, p);
        case Some(k) =>
          NotAnId(offers, rows[0].id);
          DeletedIds(offers, k);
          NothingHeld(rows[0]);
          RefundedIsDue(rest, Erase(offers, k),
                        if rows[0].action.Buy? then Credit(accounts, rows[0].owner, Held(rows[0])) else accounts, p);
      }
    }
  }

  lemma {:induction false} NothingHeld(offer: Offer)
    ensures offer.action.Sell? ==> Held(offer) == 0
  {
  }

  lemma {:induction false} NotAnId(offers: seq<Offer>, id: nat)
    ensures id in Ids(offers) <==> FindId(offers, id).Some?
  {
    match FindId(offers, id) {
      case None =>
        forall o | o in offers ensures o.id != id {
          var j :| 0 <= j < |offers| && offers[j] == o;
        }
      case Some(k) =>
        assert offers[k] in offers;
    }
  }

  // ----- The market ----------------------------------------------------------------------------

  /**
   What players ask of the market, where `ready` and `goods` are the checks that do not concern money, and what the
   database thread and the refunds do in between.  A query can come between any two changes of the table; as each
   request changes it at one place, and refunds can be split anywhere, those are the moments between requests.
   */
  datatype Request =
    | Create(player: nat, action: Action, amount: nat, price: nat, calcFee: nat, ready: bool, now: int)
    | Accept(player: nat, created: int, counter: nat, amount: nat, ready: bool, goods: bool)
    | Cancel(player: nat, created: int, counter: nat, ready: bool, known: bool)
    | Query(bound: int)         // the database thread reads the offers that have expired
    | Refunds(n: nat)           // the next rows that were read are refunded
  {
    /** The 32-bit product of a new offer to buy wraps. */
    predicate Wide() {
      Create? && action.Buy? && price * amount >= TWO_32
    }
  }

  lemma {:induction false} PartFits(price: nat, part: nat, whole: nat)
    requires part <= whole && price * whole < TWO_32
    ensures Product32(price, part) == price * part
  {
    PartAndRest(price, part, whole);
  }

  /**
   The 32-bit product is where money can be made or lost: the charge for a new offer to buy falls short of what the
   offer will hold exactly when the product wraps, and so does what an accepted offer pays out.
   */
  lemma {:induction false} WrapMakesMoney(price: nat, amount: nat, calcFee: nat)
    ensures Product32(price, amount) + Fee(calcFee) < price * amount <==> price * amount >= TWO_32
    ensures Product32(price, amount) < price * amount <==> price * amount >= TWO_32
    ensures Product32(price, amount) <= price * amount
  {
    var product := price * amount;
    var wraps := product / TWO_32;
    assert product == wraps * TWO_32 + product % TWO_32;
  }

  /** Sixty-four pieces at 2^26 each cost nothing but the fee. */
  lemma {:induction false} CheapOffer(id: nat, owner: nat, created: int)
    ensures var offer := Offer(id, owner, Buy, 64, 0x400_0000, created);
            Product32(offer.price, offer.amount) == 0 && Held(offer) == TWO_32
  {
  }

  /**
   All that the owner of a new offer to buy has, on him, on the floor and in the offer, is more than before exactly if
   the offer holds more than he pays: the charge, and what the bank is charged although the coins suffice.
   */
  lemma {:induction false} OfferMakesMoneyIff(before: Account, after: Account, dropped: nat, due: nat,
                                              price: nat, amount: nat, calcFee: nat)
    requires var charge := Product32(price, amount) + Fee(calcFee);
             charge <= before.cash + before.bank && Charged(before, after, dropped, due, charge, true)
    ensures var charge := Product32(price, amount) + Fee(calcFee);
            && (after.cash + after.bank + dropped + price * amount > before.cash + before.bank
                <==> price * amount > charge + if before.cash >= charge && before.bank >= due then due else 0)
            && (price * amount > charge ==> price * amount >= TWO_32)
  {
    WrapMakesMoney(price, amount, calcFee);
  }

  /** No offer to buy holds more than 32 bits can count. */
  ghost predicate Fits(offers: seq<Offer>) {
    forall o | o in offers && o.action.Buy? :: o.price * o.amount < TWO_32
  }

  lemma {:induction false} OneFits(offers: seq<Offer>, k: nat)
    requires k < |offers| && Fits(offers) && offers[k].action.Buy?
    ensures offers[k].price * offers[k].amount < TWO_32
  {
    assert offers[k] in offers;
  }

  lemma {:induction false} TakenFits(offers: seq<Offer>, k: nat, amount: nat)
    requires k < |offers| && amount <= offers[k].amount && Fits(offers)
    ensures Fits(Taken(offers, k, amount))
  {
    var o := offers[k];
    PartAndRest(o.price, amount, o.amount);
    forall x | x in Taken(offers, k, amount) && x.action.Buy?
      ensures x.price * x.amount < TWO_32
    {
      if amount == o.amount {
        var j :| 0 <= j < |offers| - 1 && Erase(offers, k)[j] == x;
        assert x in offers;
      } else {
        assert x in offers || x == o.(amount := o.amount - amount);
        assert o in offers;
      }
    }
  }

  /** Rows that are what the table says are refunded with what their offers held. */
  lemma {:induction false} CurrentRowsBreakEven(rows: seq<Offer>, offers: seq<Offer>)
    requires forall i, k | 0 <= i < |rows| && 0 <= k < |offers| && rows[i].id == offers[k].id :: rows[i] == offers[k]
    ensures Excess(rows, offers) == 0
    decreases rows
  {
    if rows != [] {
      match FindId(offers, rows[0].id) {
        case None =>
          CurrentRowsBreakEven(rows[1..], offers);
        case Some(k) =>
          CurrentRowsBreakEven(rows[1..], Erase(offers, k));
      }
    }
  }

  function Expired(offers: seq<Offer>, bound: int): (rows: seq<Offer>)
    ensures forall o :: o in rows <==> o in offers && o.created <= bound
  {
    if offers == [] then []
    else (if offers[0].created <= bound then [offers[0]] else []) + Expired(offers[1..], bound)
  }

  // ----- Runs, as the books show them ----------------------------------------------------------

  /** The table of offers, the rows that were read and wait for their refund, and all the money there is. */
  datatype Books = Books(offers: seq<Offer>, pending: seq<Offer>, wealth: nat)

  function Next(pending: seq<Offer>, n: nat): seq<Offer> {
    if n <= |pending| then pending[..n] else pending
  }

  function Later(pending: seq<Offer>, n: nat): seq<Offer> {
    if n <= |pending| then pending[n..] else []
  }

  /** What a request makes of the books, as far as money goes. */
  ghost predicate Follows(b: Books, request: Request, b': Books) {
    match request
    case Create(_, _, _, _, _, _, _) =>
      b'.pending == b.pending && b'.wealth <= b.wealth && b.offers <= b'.offers && |b'.offers| <= |b.offers| + 1
    case Query(bound) => b' == b.(pending := b.pending + Expired(b.offers, bound))
    case Refunds(n) =>
      && b'.offers == Remaining(Next(b.pending, n), b.offers) && b'.pending == Later(b.pending, n)
      && b'.wealth == b.wealth + Excess(Next(b.pending, n), b.offers)
    case _ => b'.pending == b.pending && b'.wealth == b.wealth
  }

  /** The rows that wait were true when they were read, and their ids have not been given again. */
  ghost predicate Steady(b: Books) {
    && Snapshot(b.pending, b.offers) && DistinctIds(b.offers)
    && forall i | 0 <= i < |b.pending| :: b.pending[i].price > 0
  }

  /** A refund by a row that is out of date: of the offer some pieces have been delivered since. */
  ghost predicate Stale(b: Books, request: Request) {
    request.Refunds? && !Untouched(Next(b.pending, request.n), b.offers)
  }

  ghost predicate IsRun(path: seq<Books>, requests: seq<Request>) {
    && |path| == |requests| + 1
    && (forall i | 0 <= i < |path| :: Steady(path[i]))
    && forall i | 0 <= i < |requests| :: Follows(path[i], requests[i], path[i + 1])
  }

  lemma {:induction false} StepMakesMoneyIff(b: Books, request: Request, b': Books)
    requires Steady(b) && Follows(b, request, b')
    ensures b'.wealth > b.wealth <==> Stale(b, request)
    ensures !request.Create? ==> b'.wealth >= b.wealth
  {
    if request.Refunds? {
      var rows := Next(b.pending, request.n);
      assert forall i | 0 <= i < |rows| :: rows[i] == b.pending[i];
      ExcessIffTouched(rows, b.offers);
    }
  }

  /** Money is made in a run exactly by stale refunds: without one there is never more, and where nothing is newly
      offered, there is more at the end exactly if there was one. */
  lemma {:induction false} RunMakesMoneyIff(path: seq<Books>, requests: seq<Request>)
    requires IsRun(path, requests)
    ensures var n := |requests|;
            var stale := exists i :: 0 <= i < n && Stale(path[i], requests[i]);
            && (!stale ==> path[n].wealth <= path[0].wealth)
            && ((forall i | 0 <= i < n :: !requests[i].Create?) ==>
                  path[n].wealth >= path[0].wealth && (path[n].wealth > path[0].wealth <==> stale))
    decreases |requests|
  {
    hide Stale, Steady, Follows;
    var n := |requests|;
    if n > 0 {
      var p, r := path[..n], requests[..n - 1];
      ShorterRun(path, requests);
      RunMakesMoneyIff(p, r);
      StepMakesMoneyIff(path[n - 1], requests[n - 1], path[n]);
      hide IsRun;
      if i :| 0 <= i < n && Stale(path[i], requests[i]) {
        assert i < n - 1 ==> Stale(p[i], r[i]);
      }
      if i :| 0 <= i < n - 1 && Stale(p[i], r[i]) {
        assert Stale(path[i], requests[i]);
      }
    }
  }

  lemma {:induction false} ShorterRun(path: seq<Books>, requests: seq<Request>)
    requires IsRun(path, requests) && requests != []
    ensures var n := |requests|;
            && IsRun(path[..n], requests[..n - 1])
            && Steady(path[n - 1]) && Follows(path[n - 1], requests[n - 1], path[n])
  {
    hide Steady, Follows;
    var n := |requests|;
    forall i | 0 <= i < n - 1 ensures Follows(path[..n][i], requests[..n - 1][i], path[..n][i + 1]) {
      assert Follows(path[i], requests[i], path[i + 1]);
    }
  }

  class Market {
    var accounts: seq<Account>
    var floor: nat
    var offers: seq<Offer>
    var nextId: nat
    /** Rows that the database thread has read and whose refunds have not come up yet. */
    var pending: seq<Offer>

    constructor (accounts: seq<Account>)
      ensures Valid() && Waiting() && this.accounts == accounts && offers == [] && pending == [] && floor == 0
      ensures nextId == 1
    {
      this.accounts, floor, offers, nextId, pending := accounts, 0, [], 1, [];
    }

    /** Ids are given in ascending order, so that they identify the rows. */
    ghost predicate Valid()
      reads `accounts, `offers, `nextId
    {
      && (forall i, j | 0 <= i < j < |offers| :: offers[i].id < offers[j].id)
      && forall i | 0 <= i < |offers| ::
           && offers[i].id < nextId && offers[i].owner < |accounts|
           && 1 <= offers[i].amount <= MAX_AMOUNT && 1 <= offers[i].price <= MAX_PRICE
    }

    /** The rows that wait were true when they were read, and their ids are not given again. */
    ghost predicate Waiting()
      reads `accounts, `offers, `nextId, `pending
    {
      && Snapshot(pending, offers)
      && forall i | 0 <= i < |pending| ::
           pending[i].id < nextId && pending[i].owner < |accounts| && pending[i].price > 0
    }

    ghost function Now(): Books
      reads `accounts, `floor, `offers, `pending
    {
      Books(offers, pending, Wealth())
    }

    /** All money: carried, banked, on the floor, and held by open offers. */
    ghost function Wealth(): nat
      reads `accounts, `floor, `offers
    {
      Funds(accounts) + floor + Escrow(offers)
    }

    method AddToBank(p: nat, money: nat)
      requires p < |accounts|
      modifies `accounts
      ensures accounts == Credit(old(accounts), p, money)
      ensures Funds(accounts) == old(Funds(accounts)) + money
    {
      var account := accounts[p].(bank := accounts[p].bank + money);
      FundsUpdate(accounts, p, account);
      accounts := accounts[p := account];
    }

    /** Any payment that `Coins.Purse.RemoveMoney` allows, from an account that can pay. */
    method RemoveMoney(p: nat, money: nat, useBalance: bool) returns (ghost due: nat, ghost dropped: nat)
      requires p < |accounts| && money > 0
      requires money <= accounts[p].cash + if useBalance then accounts[p].bank else 0
      modifies `accounts, `floor
      ensures |accounts| == |old(accounts)| && accounts == old(accounts)[p := accounts[p]]
      ensures Charged(old(accounts[p]), accounts[p], dropped, due, money, useBalance)
      ensures floor == old(floor) + dropped
      ensures Funds(accounts) + floor == old(Funds(accounts) + floor)
                - (if old(accounts[p].cash) >= money then money else old(accounts[p].cash))
                - (if useBalance && old(accounts[p].bank) >= due then due else 0)
    {
      var before := accounts[p];
      var asked, lost: nat;
      if before.cash < money {
        asked, lost := money - before.cash, 0;
      } else {
        asked, lost :| 0 < asked <= money && lost <= before.cash - money;
      }
      var after := Account(
        if before.cash < money then 0 else before.cash - money - lost,
        if useBalance && before.bank >= asked then before.bank - asked else before.bank);
      FundsUpdate(accounts, p, after);
      accounts, floor := accounts[p := after], floor + lost;
      due, dropped := asked, lost;
    }

    /**
     A new offer.  With the price of the offer go a fee and, as the coins may suffice and the bank be charged all the
     same, up to as much again.
     */
    method CreateOffer(p: nat, action: Action, amount: nat, price: nat, calcFee: nat, ready: bool, now: int)
      returns (created: bool, ghost due: nat)
      requires Valid() && p < |accounts|
      modifies `accounts, `floor, `offers, `nextId
      ensures Valid() && |accounts| == |old(accounts)|
      ensures var charge := Fee(calcFee) + if action.Buy? then Product32(price, amount) else 0;
              && (created <==> 1 <= amount <= 64000 && 1 <= price <= 999_999_999 && ready
                               && charge <= old(accounts[p].cash + accounts[p].bank))
              && (created ==>
                    && (exists dropped :: Charged(old(accounts[p]), accounts[p], dropped, due, charge, true)
                                          && floor == old(floor) + dropped)
                    && Wealth() == old(Wealth()) + (if action.Buy? then price * amount else 0)
                         - (if old(accounts[p].cash) >= charge then charge else old(accounts[p].cash))
                         - (if old(accounts[p].bank) >= due then due else 0))
      ensures created ==> accounts == old(accounts)[p := accounts[p]]
      ensures created ==> offers == old(offers) + [Offer(old(nextId), p, action, amount, price, now)]
      ensures nextId == if created then old(nextId) + 1 else old(nextId)
      ensures !created ==> accounts == old(accounts) && floor == old(floor) && offers == old(offers)
    {
      due := 0;
      if amount == 0 || amount > MAX_AMOUNT {
        return false, 0;
      }
      if price == 0 || price > MAX_PRICE {
        return false, 0;
      }
      if !ready {
        return false, 0;
      }
      hide Funds, Escrow, Fee, Product32, Charged;
      var fee := Fee(calcFee);
      var charge := if action.Sell? then fee else Product32(price, amount) + fee;
      if charge > accounts[p].cash + accounts[p].bank {
        return false, 0;
      }
      ghost var dropped;
      due, dropped := RemoveMoney(p, charge, true);
      var offer := Offer(nextId, p, action, amount, price, now);
      EscrowPush(offers, offer);
      offers := offers + [offer];
      nextId := nextId + 1;
      created := true;
      assert charge == Fee(calcFee) + if action.Buy? then Product32(price, amount) else 0;
      assert Charged(old(accounts[p]), accounts[p], dropped, due,
                     Fee(calcFee) + if action.Buy? then Product32(price, amount) else 0, true);
    }

    /** The owner takes his offer back; what an offer to buy still holds goes to his bank. */
    method CancelOffer(p: nat, created: int, counter: nat, ready: bool, known: bool) returns (done: bool)
      requires Valid() && p < |accounts|
      modifies `accounts, `offers
      ensures Valid() && Wealth() == old(Wealth()) && |accounts| == |old(accounts)|
      ensures var k := Lookup(old(offers), 0, created, counter);
              && (done <==> ready && k.Some? && old(offers)[k.value].owner == p
                            && (old(offers)[k.value].action.Buy? || known))
              && (done ==> offers == Erase(old(offers), k.value)
                           && accounts == Credit(old(accounts), p, Held(old(offers)[k.value])))
      ensures !done ==> offers == old(offers) && accounts == old(accounts)
      ensures done ==> exists k :: 0 <= k < |old(offers)| && old(offers)[k].created == created
                                   && old(offers)[k].id % 65536 == counter && old(offers)[k].owner == p
                                   && offers == Erase(old(offers), k)
    {
      if !ready {
        return false;
      }
      hide Funds, Escrow, Credit, Lookup, Held, Erase;
      var found := Lookup(offers, 0, created, counter);
      if found.None? {
        return false;
      }
      var offer := offers[found.value];
      if offer.owner != p {
        return false;
      }
      HeldIs(offer);
      if offer.action.Buy? {
        AddToBank(p, offer.price * offer.amount);
      } else if !known {
        return false;
      }
      EscrowDeleted(offers, found.value);
      offers := Erase(offers, found.value);
      done := true;
    }

    /** Whether the offer can be accepted as far as goods and money go. */
    ghost predicate CanSettle(p: nat, o: Offer, amount: nat, goods: bool)
      requires p < |accounts|
      reads `accounts
    {
      && o.owner != p
      && if o.action.Buy? then goods else Product32(o.price, amount) <= accounts[p].bank + accounts[p].cash
    }

    /** The money for `amount` pieces changes hands: from the offer to the acceptor, or from him to the owner's bank. */
    method Settle(p: nat, o: Offer, amount: nat, goods: bool) returns (done: bool)
      requires p < |accounts| && o.owner < |accounts|
      modifies `accounts, `floor
      ensures |accounts| == |old(accounts)| && (done <==> old(CanSettle(p, o, amount, goods)))
      ensures done && o.action.Buy? ==>
                accounts == Credit(old(accounts), p, Product32(o.price, amount)) && floor == old(floor)
      ensures done && o.action.Sell? ==>
                && accounts == Credit(old(accounts)[p := accounts[p]], o.owner, Product32(o.price, amount))
                && accounts[p].bank == if old(accounts[p].bank) >= Product32(o.price, amount)
                                       then old(accounts[p].bank) - Product32(o.price, amount) else 0
      ensures done ==> Funds(accounts) + floor - old(Funds(accounts) + floor)
                       == if o.action.Buy? then Product32(o.price, amount) else 0
      ensures !done ==> accounts == old(accounts) && floor == old(floor)
    {
      var totalPrice := Product32(o.price, amount);
      if o.action.Buy? {
        if p == o.owner || !goods {
          return false;
        }
        AddToBank(p, totalPrice);
      } else {
        if p == o.owner {
          return false;
        }
        if totalPrice > accounts[p].bank + accounts[p].cash {
          return false;
        }
        Pay(p, totalPrice);
        AddToBank(o.owner, totalPrice);
      }
      done := true;
    }

    /** The other side of an offer: goods for the money it holds, or money for the goods. */
    method AcceptOffer(p: nat, created: int, counter: nat, amount: nat, ready: bool, goods: bool) returns (done: bool)
      requires Valid() && p < |accounts|
      modifies `accounts, `floor, `offers
      ensures Valid() && |accounts| == |old(accounts)|
      ensures var k := Lookup(old(offers), 0, created, counter);
              && (done <==> ready && k.Some? && 1 <= amount <= old(offers)[k.value].amount
                            && old(offers)[k.value].owner != p
                            && if old(offers)[k.value].action.Buy? then goods
                               else Product32(old(offers)[k.value].price, amount)
                                    <= old(accounts[p].bank) + old(accounts[p].cash))
              && (done ==>
                    var o := old(offers)[k.value];
                    && offers == Taken(old(offers), k.value, amount)
                    && (o.action.Buy? ==>
                          && accounts == Credit(old(accounts), p, Product32(o.price, amount)) && floor == old(floor)
                          && Wealth() == old(Wealth()) - o.price * amount + Product32(o.price, amount))
                    && (o.action.Sell? ==>
                          && accounts == Credit(old(accounts)[p := accounts[p]], o.owner, Product32(o.price, amount))
                          && accounts[p].bank == (if old(accounts[p].bank) >= Product32(o.price, amount)
                                                  then old(accounts[p].bank) - Product32(o.price, amount) else 0)
                          && Wealth() == old(Wealth())))
      ensures !done ==> offers == old(offers) && accounts == old(accounts) && floor == old(floor)
      ensures done ==> exists k :: 0 <= k < |old(offers)| && old(offers)[k].created == created
                                   && old(offers)[k].id % 65536 == counter && 1 <= amount <= old(offers)[k].amount
                                   && offers == Taken(old(offers), k, amount)
    {
      if amount == 0 || amount > MAX_AMOUNT {
        return false;
      }
      if !ready {
        return false;
      }
      var found := Lookup(offers, 0, created, counter);
      if found.None? {
        return false;
      }
      var offer := offers[found.value];
      if amount > offer.amount {
        return false;
      }
      hide Product32, Credit, Funds, Escrow, Lookup;
      done := Settle(p, offer, amount, goods);
      if done {
        EscrowTaken(offers, found.value, amount);
        offers := Taken(offers, found.value, amount);
      }
    }

    /** The bank pays what it can, the coins the rest. */
    method Pay(p: nat, money: nat)
      requires p < |accounts| && money <= accounts[p].bank + accounts[p].cash
      modifies `accounts, `floor
      ensures |accounts| == |old(accounts)| && accounts == old(accounts)[p := accounts[p]]
      ensures accounts[p].bank == if old(accounts[p].bank) >= money then old(accounts[p].bank) - money else 0
      ensures Funds(accounts) + floor == old(Funds(accounts) + floor) - money
    {
      var account := accounts[p];
      if money <= account.bank {
        FundsUpdate(accounts, p, account.(bank := account.bank - money));
        accounts := accounts[p := account.(bank := account.bank - money)];
      } else {
        FundsUpdate(accounts, p, account.(bank := 0));
        accounts := accounts[p := account.(bank := 0)];
        ghost var due, dropped := RemoveMoney(p, money - account.bank, false);
      }
    }

    /** The refunds for rows that a query found expired; the rows may be older than the table. */
    method ProcessExpiredOffers(rows: seq<Offer>)
      requires Valid() && forall i | 0 <= i < |rows| :: rows[i].owner < |accounts|
      modifies `accounts, `offers
      ensures Valid() && |accounts| == |old(accounts)|
      ensures offers == Remaining(rows, old(offers)) && accounts == Refunded(rows, old(offers), old(accounts))
      ensures Wealth() == old(Wealth()) + Excess(rows, old(offers))
    {
      hide Escrow, Funds, Erase, Credit, Held;
      for i := 0 to |rows|
        invariant Valid() && |accounts| == |old(accounts)|
        invariant Remaining(rows[i..], offers) == Remaining(rows, old(offers))
        invariant Refunded(rows[i..], offers, accounts) == Refunded(rows, old(offers), old(accounts))
        invariant Wealth() + Excess(rows[i..], offers) == old(Wealth()) + Excess(rows, old(offers))
      {
        assert rows[i..][1..] == rows[i + 1..];
        assert rows[i..][0] == rows[i];
        ghost var before, money := offers, accounts;
        Refund(rows[i]);
        assert Remaining(rows[i..], before) == Remaining(rows[i + 1..], offers);
        assert Refunded(rows[i..], before, money) == Refunded(rows[i + 1..], offers, accounts);
        assert Excess(rows[i..], before)
            == Excess(rows[i + 1..], offers) + match FindId(before, rows[i].id)
                                               case None => 0
                                               case Some(k) => Held(rows[i]) - Held(before[k]);
      }
      assert rows[|rows|..] == [];
    }

    /** moveOfferToHistory, and if the row was still there the refund. */
    method Refund(row: Offer)
      requires Valid() && row.owner < |accounts|
      modifies `accounts, `offers
      ensures Valid() && |accounts| == |old(accounts)|
      ensures match FindId(old(offers), row.id)
              case None => offers == old(offers) && accounts == old(accounts) && Wealth() == old(Wealth())
              case Some(k) =>
                && offers == Erase(old(offers), k)
                && accounts == (if row.action.Buy? then Credit(old(accounts), row.owner, Held(row)) else old(accounts))
                && Wealth() == old(Wealth()) + Held(row) - Held(old(offers)[k])
    {
      hide Funds, Escrow, Credit, FindId, Held;
      HeldIs(row);
      var found := FindId(offers, row.id);
      if found.None? {
        return;
      }
      EscrowDeleted(offers, found.value);
      offers := Erase(offers, found.value);
      if row.action.Buy? {
        AddToBank(row.owner, row.price * row.amount);
      }
    }

    // ----- Runs --------------------------------------------------------------------------------

    /** A request, a query of the database thread, or refunds by rows that were read earlier. */
    method Serve(request: Request)
      requires Valid() && Waiting() && Fits(offers) && !request.Wide()
      modifies this
      ensures Valid() && Waiting() && Fits(offers) && |accounts| == |old(accounts)|
      ensures Follows(old(Now()), request, Now())
    {
      hide Excess, Funds, Escrow, Remaining, Refunded, Credit, Lookup, Charged, Held, CanSettle, Snapshot, Fits;
      match request
      case Create(p, action, amount, price, calcFee, ready, now) =>
        if p < |accounts| {
          ServeCreate(p, action, amount, price, calcFee, ready, now);
        }
      case Accept(p, created, counter, amount, ready, goods) =>
        if p < |accounts| {
          ServeAccept(p, created, counter, amount, ready, goods);
        }
      case Cancel(p, created, counter, ready, known) =>
        if p < |accounts| {
          ServeCancel(p, created, counter, ready, known);
        }
      case Query(bound) =>
        ServeQuery(bound);
      case Refunds(n) =>
        ServeRefunds(n);
    }

    method ServeCreate(p: nat, action: Action, amount: nat, price: nat, calcFee: nat, ready: bool, now: int)
      requires Valid() && Waiting() && Fits(offers) && p < |accounts| && (action.Buy? ==> price * amount < TWO_32)
      modifies `accounts, `floor, `offers, `nextId
      ensures Valid() && Waiting() && Fits(offers) && |accounts| == |old(accounts)| && Wealth() <= old(Wealth())
      ensures old(offers) <= offers && |offers| <= |old(offers)| + 1
    {
      ghost var before := offers;
      var created, due := CreateOffer(p, action, amount, price, calcFee, ready, now);
      if created {
        SnapshotPush(pending, before, offers[|before|]);
      }
    }

    method ServeAccept(p: nat, created: int, counter: nat, amount: nat, ready: bool, goods: bool)
      requires Valid() && Waiting() && Fits(offers) && p < |accounts|
      modifies `accounts, `floor, `offers
      ensures Valid() && Waiting() && |accounts| == |old(accounts)| && Fits(offers) && Wealth() == old(Wealth())
    {
      hide Snapshot, Funds, Escrow, Credit, Lookup, Product32, Fits, Taken;
      ghost var before := offers;
      ghost var k := Lookup(offers, 0, created, counter);
      var done := AcceptOffer(p, created, counter, amount, ready, goods);
      if done {
        ghost var o := before[k.value];
        TakenFits(before, k.value, amount);
        SnapshotTaken(pending, before, k.value, amount);
        if o.action.Buy? {
          OneFits(before, k.value);
          PartFits(o.price, amount, o.amount);
        }
      }
    }

    method ServeCancel(p: nat, created: int, counter: nat, ready: bool, known: bool)
      requires Valid() && Waiting() && Fits(offers) && p < |accounts|
      modifies `accounts, `offers
      ensures Valid() && Waiting() && |accounts| == |old(accounts)| && Fits(offers) && Wealth() == old(Wealth())
    {
      hide Snapshot, Funds, Escrow, Credit, Lookup, Held, Fits;
      ghost var before := offers;
      ghost var k := Lookup(offers, 0, created, counter);
      var done := CancelOffer(p, created, counter, ready, known);
      if done {
        TakenFits(before, k.value, before[k.value].amount);
        SnapshotTaken(pending, before, k.value, before[k.value].amount);
      }
    }

    /** The query reads the table; its rows wait until the main thread comes to the refunds. */
    method ServeQuery(bound: int)
      requires Valid() && Waiting()
      modifies `pending
      ensures Waiting() && pending == old(pending) + Expired(offers, bound)
    {
      var rows := Expired(offers, bound);
      SnapshotExpired(offers, bound);
      forall i | 0 <= i < |rows|
        ensures rows[i].id < nextId && rows[i].owner < |accounts| && rows[i].price > 0
      {
        assert rows[i] in rows;
        var j :| 0 <= j < |offers| && offers[j] == rows[i];
      }
      pending := pending + rows;
    }

    method ServeRefunds(n: nat)
      requires Valid() && Waiting() && Fits(offers)
      modifies `accounts, `offers, `pending
      ensures Valid() && Waiting() && Fits(offers) && |accounts| == |old(accounts)|
      ensures offers == Remaining(Next(old(pending), n), old(offers)) && pending == Later(old(pending), n)
      ensures Wealth() == old(Wealth()) + Excess(Next(old(pending), n), old(offers))
      ensures accounts == Refunded(Next(old(pending), n), old(offers), old(accounts))
    {
      hide Excess, Remaining, Refunded, Escrow, Funds, FindId;
      ghost var before := offers;
      var rows := Next(pending, n);
      pending := Later(pending, n);
      assert forall i | 0 <= i < |pending| :: pending[i] == old(pending)[i + n];
      SnapshotRemaining(pending, rows, offers);
      ProcessExpiredOffers(rows);
      forall o | o in offers
        ensures o in before
      {
        RemainingNotNamed(rows, before, o);
      }
    }

    /**
     Any run of requests whose offers to buy fit 32 bits, with queries and refunds at any time in between.  Money is
     made exactly by refunds whose rows are out of date: without one all the money there is can only shrink, and
     without new offers it stays what it was.
     */
    method Run(requests: seq<Request>) returns (ghost path: seq<Books>)
      requires Valid() && Waiting() && Fits(offers)
      requires forall r | r in requests :: !r.Wide()
      modifies this
      ensures Valid() && Waiting() && Fits(offers)
      ensures IsRun(path, requests) && path[0] == old(Now()) && path[|requests|] == Now()
      ensures var stale := exists i :: 0 <= i < |requests| && Stale(path[i], requests[i]);
              && (!stale ==> Wealth() <= old(Wealth()))
              && ((forall r | r in requests :: !r.Create?) ==>
                    Wealth() >= old(Wealth()) && (Wealth() > old(Wealth()) <==> stale))
    {
      hide Follows, Steady, Snapshot, Fits;
      path := [Now()];
      IsSteady();
      for k := 0 to |requests|
        invariant Valid() && Waiting() && Fits(offers)
        invariant |path| == k + 1 && path[0] == old(Now()) && path[k] == Now()
        invariant forall i | 0 <= i <= k :: Steady(path[i])
        invariant forall i | 0 <= i < k :: Follows(path[i], requests[i], path[i + 1])
      {
        Serve(requests[k]);
        IsSteady();
        path := path + [Now()];
      }
      RunMakesMoneyIff(path, requests);
    }

    lemma {:induction false} IsSteady()
      requires Valid() && Waiting()
      ensures Steady(Now())
    {
    }
  }

  lemma {:induction false} ReadAndFound(offer: Offer)
    ensures Expired([offer], offer.created) == [offer]
    ensures Lookup([offer], 0, offer.created, offer.id % 0x1_0000) == Some(0)
  {
    assert [offer][1..] == [];
  }

  lemma {:induction false} RefundedWhole(offer: Offer, accounts: seq<Account>)
    requires offer.action.Buy? && offer.owner < |accounts|
    ensures var rest := offer.(amount := 5);
            && Remaining([offer], [rest]) == []
            && Refunded([offer], [rest], accounts) == Credit(accounts, offer.owner, Held(offer))
  {
    var rest := offer.(amount := 5);
    assert FindId([rest], offer.id) == Some(0) && Erase([rest], 0) == [] && [offer][1..] == [];
  }

  lemma {:induction false} NumbersOfTen()
    ensures Fee(0) == 20 && Product32(100, 10) == 1000 && Product32(100, 5) == 500
    ensures forall offer: Offer | offer.action.Buy? && offer.amount == 10 && offer.price == 100 :: Held(offer) == 1000
    ensures forall a: Account, b: Account :: Funds([a, b]) == a.cash + a.bank + b.cash + b.bank
    ensures Escrow([]) == 0
    ensures forall after, dropped, due | Charged(Account(0, 2000), after, dropped, due, 1020, true) ::
              after == Account(0, 980) && dropped == 0
  {
    forall a: Account, b: Account
      ensures Funds([a, b]) == a.cash + a.bank + b.cash + b.bank
    {
      assert [a, b][1..] == [b] && [b][1..] == [];
      assert Funds([b]) == b.cash + b.bank + Funds([]);
    }
  }

  lemma {:induction false} TwoAccounts(a: Account, b: Account, money: nat)
    ensures Credit([a, b], 0, money) == [a.(bank := a.bank + money), b]
    ensures Credit([a, b], 1, money) == [a, b.(bank := b.bank + money)]
  {
  }

  lemma {:induction false} HalfTaken(offer: Offer)
    requires offer.amount == 10
    ensures Taken([offer], 0, 5) == [offer.(amount := 5)]
  {
  }

  lemma {:induction false} StillWaits(offer: Offer)
    ensures Snapshot([offer], [offer.(amount := 5)]) <== offer.amount >= 5
    ensures offer.price * 5 < TWO_32 ==> Fits([offer.(amount := 5)])
  {
  }

  method OfferTen() returns (m: Market)
    ensures fresh(m) && m.Valid() && m.Waiting() && m.pending == [] && m.floor == 0
    ensures m.offers == [Offer(1, 0, Buy, 10, 100, 7)] && m.accounts == [Account(0, 980), Account(0, 0)]
  {
    hide Charged, Fee, Product32, Held, Funds, Escrow;
    NumbersOfTen();
    m := new Market([Account(0, 2000), Account(0, 0)]);
    var created, due := m.CreateOffer(0, Buy, 10, 100, 0, true, 7);
    assert created;
  }

  /** Read, and then half delivered. */
  method DeliverFive(m: Market)
    requires m.Valid() && m.Waiting() && m.pending == [] && m.floor == 0
    requires m.offers == [Offer(1, 0, Buy, 10, 100, 7)] && m.accounts == [Account(0, 980), Account(0, 0)]
    modifies m
    ensures m.Valid() && m.Waiting() && m.pending == [Offer(1, 0, Buy, 10, 100, 7)] && m.floor == 0
    ensures m.offers == [Offer(1, 0, Buy, 5, 100, 7)] && m.accounts == [Account(0, 980), Account(0, 500)]
  {
    hide Product32, Held, Funds, Escrow, Lookup, Expired, Snapshot, Credit, Erase, Taken, Market.Valid;
    NumbersOfTen();
    ghost var offer := Offer(1, 0, Buy, 10, 100, 7);
    assert Taken([offer], 0, 5) == [offer.(amount := 5)] by { HalfTaken(offer); }
    TwoAccounts(Account(0, 980), Account(0, 0), 500);
    ReadAndFound(offer);
    m.ServeQuery(7);
    assert m.pending == [offer];
    var done := m.AcceptOffer(1, 7, 1, 5, true, true);
    assert done && m.offers == [offer.(amount := 5)];
    StillWaits(offer);
  }

  /**
   Two players with 2000 between them.  The first offers 1000 for ten pieces, with a fee of 20; the offer expires and
   is read; before its refund comes up the second delivers five pieces for 500; then all 1000 are refunded.
   */
  method DeliveredAndRefunded() returns (m: Market)
    ensures fresh(m) && m.Valid() && m.offers == [] && m.accounts == [Account(0, 1980), Account(0, 500)]
    ensures m.Wealth() == 2480
  {
    hide Held, Funds, Escrow, Remaining, Refunded, Excess, Snapshot, Fits, Credit;
    m := OfferTen();
    DeliverFive(m);
    ghost var offer := Offer(1, 0, Buy, 10, 100, 7);
    StillWaits(offer);
    RefundedWhole(offer, m.accounts);
    NumbersOfTen();
    assert Next(m.pending, 1) == [offer];
    TwoAccounts(Account(0, 980), Account(0, 500), 1000);
    m.ServeRefunds(1);
  }
}
