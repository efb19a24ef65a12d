/**
 Paying in coins and making change (`Game::removeMoney` and `Game::addMoney` in src/game/game.cpp, `Item::getWorth`
 and `Item::CreateItem` in src/items/item.cpp).

 A purse is everything the payer carries, in the order in which his inventory and then his containers yield it.
 Coins that do not fit are dropped on his tile, the `floor`.
 */
module Coins {
  import opened Basics

  const TWO_32 := 0x1_0000_0000

  datatype Kind = Gold | Platinum | Crystal

  function UnitWorth(kind: Kind): (w: nat)
    ensures w == 1 || w == 100 || w == 10000
  {
    match kind
    case Gold => 1
    case Platinum => 100
    case Crystal => 10000
  }

  /** So many coins of a kind. */
  datatype Coin = Coin(kind: Kind, count: nat)

  /** The stack size that CreateItem gives: a 16-bit parameter, 0 read as 1, kept in 8 bits. */
  function Created(requested: nat): (count: nat)
    ensures 1 <= requested <= 255 ==> count == requested
    ensures count <= 255
  {
    var n := requested % 0x1_0000;
    (if n == 0 then 1 else n) % 0x100
  }

  // ----- What addMoney makes -------------------------------------------------------------------

  function TotalWorth(coins: seq<Coin>): nat {
    if coins == [] then 0 else UnitWorth(coins[0].kind) * coins[0].count + TotalWorth(coins[1..])
  }

  lemma {:induction false} TotalWorthAppend(a: seq<Coin>, b: seq<Coin>)
    ensures TotalWorth(a + b) == TotalWorth(a) + TotalWorth(b)
    decreases a
  {
    if a == [] {
      assert a + b == b;
    } else {
      assert (a + b)[1..] == a[1..] + b;
      TotalWorthAppend(a[1..], b);
    }
  }

  /** Stacks of at most 100 crystal coins. */
  function Crystals(n: nat): (coins: seq<Coin>)
    ensures TotalWorth(coins) == 10000 * n
    ensures forall c | c in coins :: c.kind == Crystal && 1 <= c.count <= 100
  {
    if n == 0 then [] else
      var count := if n < 100 then n else 100;
      [Coin(Crystal, count)] + Crystals(n - count)
  }

  /** The number of crystal coins is a 32-bit word, and so is the product that is taken off the money. */
  function CrystalCount(money: nat): nat {
    (money / 10000) % TWO_32
  }

  function AfterCrystals(money: nat): nat {
    assert (money / 10000) % TWO_32 <= money / 10000;
    money - (CrystalCount(money) * 10000) % TWO_32
  }

  /** At most one stack of platinum and one of gold, for what the crystals leave over. */
  function SmallChange(money: nat): seq<Coin> {
    var platinum := (money / 100) % 0x1_0000;
    var rest := money - platinum * 100;
    (if platinum != 0 then [Coin(Platinum, Created(platinum))] else [])
    + (if rest != 0 then [Coin(Gold, Created(rest))] else [])
  }

  function Made(money: nat): seq<Coin> {
    Crystals(CrystalCount(money)) + SmallChange(AfterCrystals(money))
  }

  /** The amounts for which the coins made are worth the amount. */
  predicate Exact(money: nat) {
    var rest := money % 10000;
    var wraps := (money - rest) / TWO_32;
    money < 10000 * TWO_32 && (wraps == 0 || (wraps % 25 == 0 && rest % 100 != 0))
  }

  lemma {:induction false} OneStackWorth(kind: Kind, count: nat)
    ensures TotalWorth([Coin(kind, count)])
         == count * match kind case Gold => 1 case Platinum => 100 case Crystal => 10000
  {
    assert TotalWorth([]) == 0;
  }

  /** The low bits of the two stack sizes, for `money == 100 * p + d`. */
  lemma {:induction false} LowBits(money: nat, p: nat, d: nat)
    requires money == 100 * p + d && d < 100
    ensures (p % 0x1_0000) % 0x100 == p % 0x100
    ensures (money - (p % 0x1_0000) * 100) % 0x1_0000 == d
    ensures money - (p % 0x1_0000) * 100 == 0 <==> d == 0 && p < 0x1_0000
  {
    var q, platinum := p / 0x1_0000, p % 0x1_0000;
    assert p == q * 0x1_0000 + platinum;
    assert money - platinum * 100 == (100 * q) * 0x1_0000 + d;
    Divides(money - platinum * 100, 0x1_0000, 100 * q, d);
    var h, l := platinum / 0x100, platinum % 0x100;
    assert p == (0x100 * q + h) * 0x100 + l;
    Divides(p, 0x100, 0x100 * q + h, l);
  }

  lemma {:induction false} SmallChangeWorth(money: nat)
    ensures var p := money / 100;
            var last := if money % 100 != 0 then money % 100 else if p < 0x1_0000 then 0 else 1;
            TotalWorth(SmallChange(money)) == 100 * (p % 0x100) + last
  {
    hide Created, TotalWorth;
    LowBits(money, money / 100, money % 100);
    var platinum := (money / 100) % 0x1_0000;
    var rest := money - platinum * 100;
    var silver := if platinum != 0 then [Coin(Platinum, Created(platinum))] else [];
    var copper := if rest != 0 then [Coin(Gold, Created(rest))] else [];
    assert SmallChange(money) == silver + copper;
    TotalWorthAppend(silver, copper);
    CreatedPlatinum(platinum);
    CreatedGold(rest, money % 100);
  }

  lemma {:induction false} CreatedPlatinum(platinum: nat)
    requires platinum < 0x1_0000
    ensures TotalWorth(if platinum != 0 then [Coin(Platinum, Created(platinum))] else []) == 100 * (platinum % 0x100)
  {
    OneStackWorth(Platinum, Created(platinum));
    Divides(platinum, 0x1_0000, 0, platinum);
  }

  lemma {:induction false} CreatedGold(rest: nat, d: nat)
    requires rest % 0x1_0000 == d < 100
    ensures TotalWorth(if rest != 0 then [Coin(Gold, Created(rest))] else [])
         == if rest == 0 then 0 else if d == 0 then 1 else d
  {
    OneStackWorth(Gold, Created(rest));
  }

  /** What the wrapped product leaves over, when it wraps `k` times. */
  lemma {:induction false} SmallChangeAfterWraps(rest: nat, k: nat)
    requires rest < 10000
    ensures TotalWorth(SmallChange(rest + k * TWO_32)) == rest <==> k == 0 || (k % 25 == 0 && rest % 100 != 0)
  {
    hide SmallChange, TotalWorth;
    var m := rest + k * TWO_32;
    SmallChangeWorth(m);
    if k % 25 == 0 {
      WholeWraps(rest, k, m);
    } else {
      BrokenWraps(rest, k, m);
    }
  }

  lemma {:induction false} WholeWraps(rest: nat, k: nat, m: nat)
    requires rest < 10000 && k % 25 == 0 && m == rest + k * TWO_32
    ensures m % 100 == rest % 100 && m / 100 % 0x100 == rest / 100
    ensures m / 100 < 0x1_0000 <==> k == 0
  {
    var a, high, low := k / 25, rest / 100, rest % 100;
    assert m == (high + a * 0x4000_0000) * 100 + low;
    Divides(m, 100, high + a * 0x4000_0000, low);
    Divides(m / 100, 0x100, a * 0x40_0000, high);
  }

  lemma {:induction false} BrokenWraps(rest: nat, k: nat, m: nat)
    requires rest < 10000 && k % 25 != 0 && m == rest + k * TWO_32
    ensures m / 100 >= 0x1_0000
    ensures rest != 100 * (m / 100 % 0x100) + if m % 100 != 0 then m % 100 else 1
  {
    Residues(rest, k, m);
    var p, last := m / 100 % 0x100, if m % 100 != 0 then m % 100 else 1;
    if rest == 100 * p + last {
      Divides(rest, 100, p, last);
    }
  }

  lemma {:induction false} Residues(rest: nat, k: nat, m: nat)
    requires m == rest + k * TWO_32 && k % 25 != 0
    ensures m % 100 != rest % 100
    ensures m % 100 == 0 ==> rest % 100 != 1
  {
    var a, b := k / 25, k % 25;
    var t := rest % 100 + 96 * b;
    assert TWO_32 == 100 * 42949672 + 96;
    assert m == (rest / 100 + 42949672 * k + 24 * a + t / 100) * 100 + t % 100;
    Divides(m, 100, rest / 100 + 42949672 * k + 24 * a + t / 100, t % 100);
    SmallResidues(rest % 100, b);
  }

  lemma {:induction false} SmallResidues(low: nat, b: nat)
    requires low < 100 && 1 <= b < 25
    ensures (low + 96 * b) % 100 != low
    ensures (low + 96 * b) % 100 == 0 ==> low != 1
  {
  }

  lemma {:induction false} AfterSomeWraps(money: nat)
    requires money < 10000 * TWO_32
    ensures 10000 * CrystalCount(money) == money - money % 10000
    ensures AfterCrystals(money) == money % 10000 + ((money - money % 10000) / TWO_32) * TWO_32
  {
    Divides(money / 10000, TWO_32, 0, money / 10000);
  }

  /** The crystal coins are worth the money only up to the wraps of the 32-bit product. */
  lemma {:induction false} MadeWorthExactly(money: nat)
    ensures TotalWorth(Made(money)) == money <==> Exact(money)
  {
    hide SmallChange, TotalWorth;
    var c := CrystalCount(money);
    var m := AfterCrystals(money);
    SmallChangeWorth(m);
    TotalWorthAppend(Crystals(c), SmallChange(m));
    var small := TotalWorth(SmallChange(m));
    if money < 10000 * TWO_32 {
      AfterSomeWraps(money);
      SmallChangeAfterWraps(money % 10000, (money - money % 10000) / TWO_32);
    } else {
      TooMuch(money);
    }
  }

  /** The least amount that wraps: ten thousand times 2^32 / 10000 rounded up. */
  lemma {:induction false} FirstWrap()
    ensures TotalWorth(Made(4294970000)) != 4294970000
    ensures forall money | 0 <= money < 4294970000 :: TotalWorth(Made(money)) == money
  {
    hide Made, TotalWorth, Exact;
    MadeWorthExactly(4294970000);
    NotExact();
    forall money | 0 <= money < 4294970000 ensures TotalWorth(Made(money)) == money {
      MadeWorthExactly(money);
      BelowFirstWrap(money);
    }
  }

  lemma {:induction false} NotExact()
    ensures !Exact(4294970000)
  {
  }

  lemma {:induction false} BelowFirstWrap(money: nat)
    requires money < 4294970000
    ensures Exact(money)
  {
    var q, rest := money / 10000, money % 10000;
    assert money == q * 10000 + rest && q <= 429496;
    Divides(money - rest, TWO_32, 0, money - rest);
  }

  lemma {:induction false} TooMuch(money: nat)
    requires money >= 10000 * TWO_32
    ensures money - 10000 * CrystalCount(money) >= 10000 * TWO_32
  {
    var q, c := (money / 10000) / TWO_32, CrystalCount(money);
    assert money / 10000 == q * TWO_32 + c;
  }

  lemma {:induction false} CrystalsFirst(n: nat)
    ensures Crystals(0) == []
    ensures n > 0 ==> var count := if n < 100 then n else 100;
                      Crystals(n) == [Coin(Crystal, count)] + Crystals(n - count)
  {
  }

  ghost predicate Joined(a: seq<Coin>, b: seq<Coin>, all: seq<Coin>) {
    a + b == all
  }

  lemma {:induction false} JoinedStep(a: seq<Coin>, c: Coin, b: seq<Coin>, all: seq<Coin>)
    requires Joined(a, [c] + b, all)
    ensures Joined(a + [c], b, all)
  {
    assert a + ([c] + b) == a + [c] + b;
  }

  lemma {:induction false} NothingMade()
    ensures Made(0) == [] && TotalWorth([]) == 0
  {
    assert CrystalCount(0) == 0 && AfterCrystals(0) == 0;
  }

  lemma {:induction false} SmallChangeFew(money: nat, p: nat, d: nat)
    requires money == 100 * p + d && d < 100
    requires p % 0x1_0000 < 100 && (d != 0 || p < 0x1_0000)
    ensures forall c | c in SmallChange(money) :: 1 <= c.count < 100 && !c.kind.Crystal?
    ensures forall i, j | 0 <= i < j < |SmallChange(money)| :: SmallChange(money)[i].kind != SmallChange(money)[j].kind
  {
    LowBits(money, p, d);
    Divides(money, 100, p, d);
  }

  /** For those amounts all stacks are well filled, with fewer than 100 platinum and fewer than 100 gold coins. */
  lemma {:induction false} MadeStacks(money: nat)
    requires Exact(money)
    ensures forall c | c in Made(money) :: 1 <= c.count <= 100 && (c.kind.Crystal? || c.count < 100)
    ensures forall i, j | 0 <= i < j < |Made(money)| ::
              Made(money)[i].kind == Made(money)[j].kind ==> Made(money)[i].kind.Crystal?
  {
    hide SmallChange, TotalWorth;
    var m := AfterCrystals(money);
    var rest := money % 10000;
    var k := (money - rest) / TWO_32;
    var high, low := rest / 100, rest % 100;
    AfterSomeWraps(money);
    if k == 0 {
      Divides(high, 0x1_0000, 0, high);
      SmallChangeFew(m, high, low);
    } else {
      var a := k / 25;
      assert m == (high + a * 0x4000_0000) * 100 + low;
      Divides(high + a * 0x4000_0000, 0x1_0000, a * 0x4000, high);
      SmallChangeFew(m, high + a * 0x4000_0000, low);
    }
  }

  /** As many coins of the kind as cover what is owed. */
  function CoinsFor(owed: nat, kind: Kind): nat {
    (owed + UnitWorth(kind) - 1) / UnitWorth(kind)
  }

  /** Rounded up, the coins that cover what is owed are no more than the stack has and change less than one coin. */
  lemma {:induction false} CoinsNeeded(owed: nat, kind: Kind, count: nat)
    requires 0 < owed < UnitWorth(kind) * count
    ensures 0 < CoinsFor(owed, kind) <= count
    ensures 0 <= UnitWorth(kind) * CoinsFor(owed, kind) - owed < UnitWorth(kind)
  {
    var n, worth := CoinsFor(owed, kind), UnitWorth(kind);
    hide UnitWorth;
    assert owed + worth - 1 == n * worth + (owed + worth - 1) % worth;
    var k := n - count;
    assert k * worth == n * worth - worth * count;
    AtLeastOnce(k, worth);
  }

  lemma {:induction false} AllCoins(kind: Kind, count: nat)
    ensures CoinsFor(UnitWorth(kind) * count, kind) == count
  {
    var worth := UnitWorth(kind);
    hide UnitWorth;
    Divides(worth * count + worth - 1, worth, count, worth - 1);
  }

  // ----- The purse -----------------------------------------------------------------------------

  class CoinStack {
    const kind: Kind
    var count: nat

    constructor (kind: Kind, requested: nat)
      ensures this.kind == kind && count == Created(requested)
    {
      this.kind, count := kind, Created(requested);
    }

    function Worth(): nat
      reads `count
    {
      UnitWorth(kind) * count
    }
  }

  function Worth(stacks: seq<CoinStack>): nat
    reads stacks`count
  {
    if stacks == [] then 0 else stacks[0].Worth() + Worth(stacks[1..])
  }

  function Shown(stacks: seq<CoinStack>): (coins: seq<Coin>)
    reads stacks`count
    ensures |coins| == |stacks| && forall i | 0 <= i < |stacks| :: coins[i] == Coin(stacks[i].kind, stacks[i].count)
  {
    if stacks == [] then [] else [Coin(stacks[0].kind, stacks[0].count)] + Shown(stacks[1..])
  }

  lemma {:induction false} WorthAppend(a: seq<CoinStack>, b: seq<CoinStack>)
    ensures Worth(a + b) == Worth(a) + Worth(b)
    decreases a
  {
    if a == [] {
      assert a + b == b;
    } else {
      assert (a + b)[1..] == a[1..] + b;
      WorthAppend(a[1..], b);
    }
  }

  lemma {:induction false} OnlyAt(stacks: seq<CoinStack>, k: nat)
    requires Distinct(stacks) && k < |stacks|
    ensures forall i | 0 <= i < |stacks| && i != k :: stacks[i] != stacks[k]
  {
  }

  lemma {:induction false} WithoutKeeps(stacks: seq<CoinStack>, x: CoinStack)
    requires Distinct(stacks) && x in stacks
    ensures Worth(Without(stacks, x)) == Worth(stacks) - x.Worth()
    ensures Distinct(Without(stacks, x)) && x !in Without(stacks, x)
    ensures forall y | y in Without(stacks, x) :: y in stacks
    ensures forall y | y in stacks && y != x :: y in Without(stacks, x)
    decreases stacks
  {
    if stacks[0] != x {
      WithoutKeeps(stacks[1..], x);
      var r := Without(stacks[1..], x);
      assert Without(stacks, x) == [stacks[0]] + r;
      assert ([stacks[0]] + r)[1..] == r;
      assert forall i | 0 <= i < |r| :: r[i] in stacks[1..];
    }
  }

  lemma {:induction false} DistinctInsert(a: seq<CoinStack>, b: seq<CoinStack>, s: CoinStack)
    requires Distinct(a + b) && s !in a && s !in b
    ensures Distinct(a + [s] + b) && Distinct(a + (b + [s]))
  {
    var c := a + b;
    var d, e := a + [s] + b, a + (b + [s]);
    assert forall i | 0 <= i < |d| :: d[i] == if i < |a| then c[i] else if i == |a| then s else c[i - 1];
    assert forall i | 0 <= i < |e| :: e[i] == if i < |c| then c[i] else s;
    assert forall i | 0 <= i < |c| :: c[i] != s;
    forall i, j | 0 <= i < j < |d|
      ensures d[i] != d[j]
    {
      if i == |a| {
        assert d[j] == c[j - 1];
      } else if j == |a| {
        assert d[i] == c[i];
      } else {
        assert d[i] == c[if i < |a| then i else i - 1] && d[j] == c[if j < |a| then j else j - 1];
      }
    }
  }

  lemma {:induction false} WithoutFloor(held: seq<CoinStack>, floor: seq<CoinStack>, x: CoinStack)
    requires Distinct(held + floor) && x in held
    ensures Distinct(Without(held, x) + floor)
    decreases held
  {
    if held[0] == x {
      assert (held + floor)[1..] == held[1..] + floor;
    } else {
      var rest := held[1..];
      assert (held + floor)[1..] == rest + floor;
      WithoutFloor(rest, floor, x);
      var r := Without(rest, x) + floor;
      assert Without(held, x) + floor == [held[0]] + r;
      OnlyFrom(rest, x);
      forall i | 0 <= i < |r|
        ensures r[i] != held[0]
      {
        assert i < |Without(rest, x)| ==> r[i] in Without(rest, x);
        assert i >= |Without(rest, x)| ==> r[i] == floor[i - |Without(rest, x)|];
        assert r[i] in rest + floor;
        var j :| 0 <= j < |rest + floor| && (rest + floor)[j] == r[i];
        assert (held + floor)[j + 1] == r[i] && (held + floor)[0] == held[0];
      }
    }
  }

  lemma {:induction false} OnlyFrom(stacks: seq<CoinStack>, x: CoinStack)
    ensures forall y | y in Without(stacks, x) :: y in stacks
    decreases stacks
  {
    if stacks != [] && stacks[0] != x {
      OnlyFrom(stacks[1..], x);
    }
  }

  lemma {:induction false} WorthShown(stacks: seq<CoinStack>)
    ensures Worth(stacks) == TotalWorth(Shown(stacks))
    decreases stacks
  {
    if stacks != [] {
      WorthShown(stacks[1..]);
      assert Shown(stacks)[1..] == Shown(stacks[1..]);
    }
  }

  /** The stack at `k` is not what it was; the others are. */
  lemma {:induction false} OneChanged(before: seq<Coin>, after: seq<Coin>, k: nat)
    requires k < |before| == |after| && after == before[k := after[k]] && after[k].kind == before[k].kind
    ensures TotalWorth(after)
         == TotalWorth(before) + UnitWorth(before[k].kind) * (after[k].count - before[k].count)
    decreases before
  {
    if k == 0 {
      assert after[1..] == before[1..];
    } else {
      OneChanged(before[1..], after[1..], k - 1);
    }
  }

  // ----- The map of coins by worth -------------------------------------------------------------

  /** An entry of moneyMap; the worth is the one at the time of the scan. */
  datatype Entry = Entry(worth: nat, stack: CoinStack)

  /** A multimap keeps its entries by key, and those of one key in the order of their arrival. */
  function Emplace(entries: seq<Entry>, e: Entry): seq<Entry> {
    if entries == [] || e.worth < entries[0].worth then [e] + entries
    else [entries[0]] + Emplace(entries[1..], e)
  }

  function MoneyMap(stacks: seq<CoinStack>): seq<Entry>
    reads stacks`count
  {
    if stacks == [] then [] else
      var last := stacks[|stacks| - 1];
      var before := MoneyMap(stacks[..|stacks| - 1]);
      if last.Worth() == 0 then before else Emplace(before, Entry(last.Worth(), last))
  }

  function SumFrom(entries: seq<Entry>, i: nat): nat
    requires i <= |entries|
    decreases |entries| - i
  {
    if i == |entries| then 0 else entries[i].worth + SumFrom(entries, i + 1)
  }

  /** What is still owed when the walk over the entries from `i` on ends. */
  function Residual(entries: seq<Entry>, i: nat, money: nat): (due: nat)
    requires i <= |entries|
    ensures due <= money
    ensures money > 0 ==> due > 0
    ensures SumFrom(entries, i) < money ==> due == money - SumFrom(entries, i)
    decreases |entries| - i
  {
    if i < |entries| && entries[i].worth < money then Residual(entries, i + 1, money - entries[i].worth) else money
  }

  lemma {:induction false} EmplaceSum(entries: seq<Entry>, e: Entry)
    ensures SumFrom(Emplace(entries, e), 0) == SumFrom(entries, 0) + e.worth
    decreases entries
  {
    if entries == [] || e.worth < entries[0].worth {
      SumShift([e], entries);
    } else {
      var rest := entries[1..];
      EmplaceSum(rest, e);
      assert entries == [entries[0]] + rest;
      SumShift([entries[0]], rest);
      SumShift([entries[0]], Emplace(rest, e));
    }
  }

  lemma {:induction false} EmplaceKeeps(entries: seq<Entry>, e: Entry)
    requires OncePerStack(entries) && Ascending(entries) && forall x | x in entries :: x.stack != e.stack
    ensures forall x | x in Emplace(entries, e) :: x == e || x in entries
    ensures OncePerStack(Emplace(entries, e)) && Ascending(Emplace(entries, e))
    decreases entries
  {
    if entries != [] && entries[0].worth <= e.worth {
      var rest := entries[1..];
      EmplaceKeeps(rest, e);
      var r := Emplace(rest, e);
      assert forall i | 0 <= i < |r| :: r[i] == e || r[i] in rest;
      assert forall x | x in rest :: x.stack != entries[0].stack && entries[0].worth <= x.worth;
      assert forall i | 0 <= i < |r| :: r[i].stack != entries[0].stack && entries[0].worth <= r[i].worth;
    }
  }

  lemma {:induction false} SumShift(first: seq<Entry>, rest: seq<Entry>)
    requires |first| == 1
    ensures SumFrom(first + rest, 0) == first[0].worth + SumFrom(rest, 0)
  {
    SumShiftFrom(first, rest, 0);
  }

  lemma {:induction false} SumShiftFrom(first: seq<Entry>, rest: seq<Entry>, i: nat)
    requires |first| == 1 && i <= |rest|
    ensures SumFrom(first + rest, i + 1) == SumFrom(rest, i)
    decreases |rest| - i
  {
    if i < |rest| {
      SumShiftFrom(first, rest, i + 1);
    }
  }

  ghost predicate OncePerStack(entries: seq<Entry>) {
    forall i, j | 0 <= i < j < |entries| :: entries[i].stack != entries[j].stack
  }

  ghost predicate Ascending(entries: seq<Entry>) {
    forall i, j | 0 <= i < j < |entries| :: entries[i].worth <= entries[j].worth
  }

  /** The stack is among the first `k` of the map. */
  ghost predicate Listed(entries: seq<Entry>, k: nat, s: CoinStack) {
    exists j | 0 <= j < |entries| && j < k :: entries[j].stack == s
  }

  lemma {:induction false} ListedStep(entries: seq<Entry>, k: nat)
    requires k < |entries| && OncePerStack(entries)
    ensures forall s :: Listed(entries, k + 1, s) <==> Listed(entries, k, s) || s == entries[k].stack
    ensures !Listed(entries, k, entries[k].stack)
  {
    forall s | Listed(entries, k + 1, s)
      ensures Listed(entries, k, s) || s == entries[k].stack
    {
      var j :| 0 <= j < |entries| && j < k + 1 && entries[j].stack == s;
    }
    forall s | Listed(entries, k, s) || s == entries[k].stack
      ensures Listed(entries, k + 1, s)
    {
      if Listed(entries, k, s) {
        var j :| 0 <= j < |entries| && j < k && entries[j].stack == s;
      }
    }
  }

  lemma {:induction false} ListedNone(entries: seq<Entry>)
    ensures forall s :: !Listed(entries, 0, s)
    ensures forall s :: Listed(entries, |entries| + 1, s) <==> Listed(entries, |entries|, s)
  {
    forall s | Listed(entries, |entries| + 1, s)
      ensures Listed(entries, |entries|, s)
    {
      var j :| 0 <= j < |entries| && entries[j].stack == s;
    }
    forall s | Listed(entries, |entries|, s)
      ensures Listed(entries, |entries| + 1, s)
    {
      var j :| 0 <= j < |entries| && entries[j].stack == s;
    }
  }

  /** The map lists each stack that is worth something once, cheapest first, and all the worth there is. */
  lemma {:induction false} MoneyMapLists(stacks: seq<CoinStack>)
    requires Distinct(stacks)
    ensures SumFrom(MoneyMap(stacks), 0) == Worth(stacks)
    ensures forall e | e in MoneyMap(stacks) :: e.stack in stacks && e.worth == e.stack.Worth() > 0
    ensures OncePerStack(MoneyMap(stacks)) && Ascending(MoneyMap(stacks))
    decreases stacks
  {
    if stacks != [] {
      var init, last := stacks[..|stacks| - 1], stacks[|stacks| - 1];
      assert stacks == init + [last];
      MoneyMapLists(init);
      WorthAppend(init, [last]);
      assert Worth([last]) == last.Worth();
      assert forall e | e in MoneyMap(init) :: e.stack in init && e.stack != last;
      EmplaceKeeps(MoneyMap(init), Entry(last.Worth(), last));
      EmplaceSum(MoneyMap(init), Entry(last.Worth(), last));
    }
  }

  lemma {:induction false} EmplaceAt(entries: seq<Entry>, e: Entry) returns (k: nat)
    ensures k <= |entries| && |Emplace(entries, e)| == |entries| + 1
    ensures forall i {:trigger Emplace(entries, e)[i]} | 0 <= i < k :: Emplace(entries, e)[i] == entries[i]
    ensures Emplace(entries, e)[k] == e
    ensures forall i {:trigger Emplace(entries, e)[i]} | k < i <= |entries| ::
              Emplace(entries, e)[i] == entries[i - 1]
    ensures forall i | 0 <= i < k :: entries[i].worth <= e.worth
    ensures k < |entries| ==> e.worth < entries[k].worth
    decreases entries
  {
    if entries == [] || e.worth < entries[0].worth {
      k := 0;
    } else {
      var below := EmplaceAt(entries[1..], e);
      k := below + 1;
      var r, rest := Emplace(entries, e), Emplace(entries[1..], e);
      assert forall i | 0 < i < |r| :: r[i] == rest[i - 1];
      assert forall i | 0 < i < |entries| :: entries[i] == entries[1..][i - 1];
    }
  }

  /** Stacks of one worth are listed in the order in which the purse yields them. */
  lemma {:induction false} EqualWorthInOrder(stacks: seq<CoinStack>, i: nat, j: nat) returns (p: nat, q: nat)
    requires Distinct(stacks) && i < j < |MoneyMap(stacks)| && MoneyMap(stacks)[i].worth == MoneyMap(stacks)[j].worth
    ensures p < q < |stacks| && stacks[p] == MoneyMap(stacks)[i].stack && stacks[q] == MoneyMap(stacks)[j].stack
    decreases stacks
  {
    hide *;
    LastInMap(stacks);
    var init, last := stacks[..|stacks| - 1], stacks[|stacks| - 1];
    var before := MoneyMap(init);
    if last.Worth() == 0 {
      p, q := EqualWorthInOrder(init, i, j);
      return;
    }
    var e := Entry(last.Worth(), last);
    var k := EmplaceAt(before, e);
    if j == k {
      p := Where(init, before[i].stack);
      q := |stacks| - 1;
    } else {
      NotFirst(before, Emplace(before, e), k, i, j);
      p, q := EqualWorthInOrder(init, if i < k then i else i - 1, if j < k then j else j - 1);
    }
  }

  lemma {:induction false} LastInMap(stacks: seq<CoinStack>)
    requires Distinct(stacks)
    ensures stacks == [] ==> MoneyMap(stacks) == []
    ensures stacks != [] ==>
              var init, last := stacks[..|stacks| - 1], stacks[|stacks| - 1];
              && Distinct(init) && Ascending(MoneyMap(init))
              && (forall i | 0 <= i < |MoneyMap(init)| :: MoneyMap(init)[i].stack in init)
              && MoneyMap(stacks) == if last.Worth() == 0 then MoneyMap(init)
                                     else Emplace(MoneyMap(init), Entry(last.Worth(), last))
  {
    hide Worth, SumFrom, Emplace, Ascending;
    if stacks != [] {
      var init := stacks[..|stacks| - 1];
      MoneyMapLists(init);
      assert forall i | 0 <= i < |MoneyMap(init)| :: MoneyMap(init)[i] in MoneyMap(init);
    }
  }

  lemma {:induction false} Where(stacks: seq<CoinStack>, x: CoinStack) returns (p: nat)
    requires x in stacks
    ensures p < |stacks| && stacks[p] == x
  {
    p :| 0 <= p < |stacks| && stacks[p] == x;
  }

  lemma {:induction false} NotFirst(before: seq<Entry>, all: seq<Entry>, k: nat, i: nat, j: nat)
    requires Ascending(before) && k <= |before| == |all| - 1 && i < j < |all| && all[i].worth == all[j].worth
    requires forall m | k < m < |all| :: all[m] == before[m - 1]
    requires k < |before| ==> all[k].worth < before[k].worth
    ensures i != k
  {
    assert j > k ==> all[j] == before[j - 1];
  }

  // ----- Adding and removing money -------------------------------------------------------------

  /** The stacks that did fit (`fit`), or those that did not. */
  ghost function Picked(made: seq<CoinStack>, fits: seq<bool>, fit: bool): seq<CoinStack>
    requires |made| == |fits|
  {
    if made == [] then []
    else Picked(made[..|made| - 1], fits[..|made| - 1], fit)
         + if fits[|made| - 1] == fit then [made[|made| - 1]] else []
  }

  lemma {:induction false} PickedFrom(made: seq<CoinStack>, fits: seq<bool>, want: bool)
    requires |made| == |fits|
    ensures forall s | s in Picked(made, fits, want) :: s in made
    decreases |made|
  {
    if made != [] {
      PickedFrom(made[..|made| - 1], fits[..|made| - 1], want);
    }
  }

  lemma {:induction false} PickedPush(made: seq<CoinStack>, fits: seq<bool>, s: CoinStack, fit: bool, want: bool)
    requires |made| == |fits|
    ensures Picked(made + [s], fits + [fit], want) == Picked(made, fits, want) + if fit == want then [s] else []
  {
    assert (made + [s])[..|made|] == made && (fits + [fit])[..|made|] == fits;
  }

  // ----- What is paid --------------------------------------------------------------------------

  /** The worth of the coins a player carries, and what he has in the bank. */
  datatype Account = Account(cash: nat, bank: nat)

  /**
   What a payment of `money` may do to an account: `due` is what the bank is asked for, and change worth `dropped`
   ends on the floor.
   */
  ghost predicate Charged(before: Account, after: Account, dropped: nat, due: nat, money: nat, useBalance: bool) {
    && 0 < due <= money
    && after.bank == (if useBalance && before.bank >= due then before.bank - due else before.bank)
    && (if before.cash < money then due == money - before.cash && after.cash == 0 && dropped == 0
        else after.cash + dropped == before.cash - money)
  }

  lemma {:induction false} IsCharged(
      before: Account, after: Account, dropped: nat, due: nat, money: nat, useBalance: bool)
    requires 0 < due <= money
    requires after.bank == if useBalance && before.bank >= due then before.bank - due else before.bank
    requires before.cash < money ==> due == money - before.cash && after.cash == 0 && dropped == 0
    requires before.cash >= money ==> after.cash + dropped == before.cash - money
    ensures Charged(before, after, dropped, due, money, useBalance)
  {
  }

  /** What a successful `RemoveMoney` takes in all, from coins and bank. */
  ghost function Paid(held: seq<CoinStack>, balance: nat, money: nat, useBalance: bool): nat
    reads held`count
  {
    var due := Residual(MoneyMap(held), 0, money);
    (if Worth(held) >= money then money else Worth(held)) + if useBalance && balance >= due then due else 0
  }

  /**
   A payment that goes through never takes less than the price, and it takes exactly the price unless the coins
   suffice and the bank can also pay what the walk over the coins left owed.
   */
  lemma {:induction false} PaidExactly(held: seq<CoinStack>, balance: nat, money: nat, useBalance: bool)
    requires Distinct(held) && money <= Worth(held) + if useBalance then balance else 0
    ensures money <= Paid(held, balance, money, useBalance) <= 2 * money
    ensures Paid(held, balance, money, useBalance) == money
       <==> money == 0 || !useBalance || Worth(held) < money || balance < Residual(MoneyMap(held), 0, money)
  {
    MoneyMapLists(held);
  }

  /** Ten gold coins in the purse and ten in the bank: a price of ten takes all of them. */
  lemma {:induction false} ChargedTwice(x: CoinStack)
    requires x.kind == Gold && x.count == 10
    ensures Paid([x], 10, 10, true) == 20
  {
    assert [x][..0] == [] && MoneyMap([]) == [];
    assert MoneyMap([x]) == [Entry(10, x)];
    assert Worth([x]) == x.Worth() + Worth([]);
  }

  /** What is owed at the end when the coins suffice: the price less all stacks that are cheaper than what is left. */
  lemma {:induction false} ResidualReachesABreak(entries: seq<Entry>, i: nat, money: nat)
    requires i <= |entries| && 0 < money <= SumFrom(entries, i)
    ensures exists k | i <= k < |entries| ::
              && Residual(entries, i, money) == money - (SumFrom(entries, i) - SumFrom(entries, k))
              && 0 < Residual(entries, i, money) <= entries[k].worth
    decreases |entries| - i
  {
    if entries[i].worth < money {
      ResidualReachesABreak(entries, i + 1, money - entries[i].worth);
      var k :| i + 1 <= k < |entries|
            && Residual(entries, i + 1, money - entries[i].worth)
               == money - entries[i].worth - (SumFrom(entries, i + 1) - SumFrom(entries, k))
            && 0 < Residual(entries, i + 1, money - entries[i].worth) <= entries[k].worth;
    } else {
      assert Residual(entries, i, money) == money - (SumFrom(entries, i) - SumFrom(entries, i));
    }
  }

  class Purse {
    var held: seq<CoinStack>
    var floor: seq<CoinStack>
    var balance: nat

    ghost predicate Valid()
      reads `held, `floor
    {
      Distinct(held + floor)
    }

    /** All coins in the purse and on the floor. */
    ghost function Cash(): nat
      reads `held, `floor, held`count, floor`count
    {
      Worth(held) + Worth(floor)
    }

    /** CreateItem and internalAddItem: whether the stack fits is for the inventory to say. */
    method Put(kind: Kind, requested: nat) returns (s: CoinStack, fit: bool)
      requires Valid()
      modifies `held, `floor
      ensures Valid() && fresh(s) && s.kind == kind && s.count == Created(requested)
      ensures held == old(held) + if fit then [s] else []
      ensures floor == old(floor) + if fit then [] else [s]
      ensures Cash() == old(Cash()) + UnitWorth(kind) * Created(requested)
    {
      hide Distinct;
      s := new CoinStack(kind, requested);
      DistinctInsert(held, floor, s);
      assert Worth(held) == old(Worth(held)) && Worth(floor) == old(Worth(floor));
      assert Worth([s]) == s.Worth();
      if * {
        fit := true;
        WorthAppend(held, [s]);
        held := held + [s];
      } else {
        fit := false;
        WorthAppend(floor, [s]);
        floor := floor + [s];
      }
    }

    /** So far `made` has been made, from a purse of `held0` over `floor0`. */
    ghost predicate Gave(made: seq<CoinStack>, fits: seq<bool>, held0: seq<CoinStack>, floor0: seq<CoinStack>)
      reads `held, `floor
    {
      && |made| == |fits|
      && held == held0 + Picked(made, fits, true)
      && floor == floor0 + Picked(made, fits, false)
    }

    method Create(kind: Kind, requested: nat, ghost made: seq<CoinStack>, ghost fits: seq<bool>,
                  ghost held0: seq<CoinStack>, ghost floor0: seq<CoinStack>)
      returns (s: CoinStack, ghost fit: bool)
      requires Valid() && Gave(made, fits, held0, floor0)
      modifies `held, `floor
      ensures Valid() && fresh(s) && Gave(made + [s], fits + [fit], held0, floor0)
      ensures Shown(made + [s]) == old(Shown(made)) + [Coin(kind, Created(requested))]
      ensures Cash() == old(Cash()) + UnitWorth(kind) * Created(requested)
    {
      hide UnitWorth, Created, Shown, Picked, Valid, Cash;
      var fitting;
      s, fitting := Put(kind, requested);
      fit := fitting;
      PickedPush(made, fits, s, fit, true);
      PickedPush(made, fits, s, fit, false);
      assert Shown(made + [s]) == Shown(made) + [Coin(kind, Created(requested))];
    }

    /** Change of any amount: the stacks of `Made`, in that order, on top of what is there. */
    method AddMoney(money: nat) returns (ghost made: seq<CoinStack>, ghost fits: seq<bool>)
      requires Valid()
      modifies `held, `floor
      ensures Valid()
      ensures Gave(made, fits, old(held), old(floor)) && Shown(made) == Made(money)
      ensures forall s | s in made :: fresh(s)
      ensures Cash() == old(Cash()) + TotalWorth(Made(money))
    {
      hide TotalWorth, Crystals, CrystalCount, AfterCrystals, SmallChange, Shown, Valid, Cash;
      if money == 0 {
        made, fits := [], [];
        NothingMade();
        return;
      }
      made, fits := AddCrystals(CrystalCount(money));
      made, fits := AddSmallChange(AfterCrystals(money), made, fits, old(held), old(floor));
      assert Made(money) == Crystals(CrystalCount(money)) + SmallChange(AfterCrystals(money));
      TotalWorthAppend(Crystals(CrystalCount(money)), SmallChange(AfterCrystals(money)));
    }

    method AddCrystals(n: nat) returns (ghost made: seq<CoinStack>, ghost fits: seq<bool>)
      requires Valid()
      modifies `held, `floor
      ensures Valid()
      ensures Gave(made, fits, old(held), old(floor)) && Shown(made) == Crystals(n)
      ensures forall s | s in made :: fresh(s)
      ensures Cash() == old(Cash()) + TotalWorth(Crystals(n))
    {
      hide Created, TotalWorth, Crystals, Shown, Valid, Cash;
      made, fits := [], [];
      CrystalsFirst(0);
      assert Joined(Shown(made), Crystals(n), Crystals(n));
      var crystalCoins: nat := n;
      while crystalCoins > 0
        invariant Valid()
        invariant Gave(made, fits, old(held), old(floor)) && forall s | s in made :: fresh(s)
        invariant Joined(Shown(made), Crystals(crystalCoins), Crystals(n))
        invariant Cash() == old(Cash()) + 10000 * (n - crystalCoins)
        decreases crystalCoins
      {
        var count: nat := if crystalCoins < 100 then crystalCoins else 100;
        ghost var before, rest := Shown(made), Crystals(crystalCoins - count);
        CrystalsFirst(crystalCoins);
        var s, fit := Create(Crystal, count, made, fits, old(held), old(floor));
        made, fits := made + [s], fits + [fit];
        crystalCoins := crystalCoins - count;
        JoinedStep(before, Coin(Crystal, count), rest, Crystals(n));
        assert UnitWorth(Crystal) == 10000;
      }
      assert Shown(made) == Crystals(n);
    }

    method AddSmallChange(amount: nat, ghost made0: seq<CoinStack>, ghost fits0: seq<bool>,
                          ghost held0: seq<CoinStack>, ghost floor0: seq<CoinStack>)
      returns (ghost made: seq<CoinStack>, ghost fits: seq<bool>)
      requires Valid() && Gave(made0, fits0, held0, floor0)
      modifies `held, `floor
      ensures Valid()
      ensures Gave(made, fits, held0, floor0) && Shown(made) == old(Shown(made0)) + SmallChange(amount)
      ensures forall s | s in made :: s in made0 || fresh(s)
      ensures Cash() == old(Cash()) + TotalWorth(SmallChange(amount))
    {
      hide Created, Shown, Valid, Cash, Gave;
      made, fits := made0, fits0;
      ghost var silver, copper: seq<Coin> := [], [];
      var money := amount;
      var platinumCoins := (money / 100) % 0x1_0000;
      if platinumCoins != 0 {
        var s, fit := Create(Platinum, platinumCoins, made, fits, held0, floor0);
        made, fits := made + [s], fits + [fit];
        silver := [Coin(Platinum, Created(platinumCoins))];
        money := money - platinumCoins * 100;
      }
      if money != 0 {
        var s, fit := Create(Gold, money, made, fits, held0, floor0);
        made, fits := made + [s], fits + [fit];
        copper := [Coin(Gold, Created(money))];
      }
      assert SmallChange(amount) == silver + copper;
      TotalWorthAppend(silver, copper);
      assert TotalWorth(silver) + TotalWorth(copper) == Cash() - old(Cash());
    }

    /** internalRemoveItem on a stack of the purse. */
    method RemoveItem(x: CoinStack, count: nat)
      requires Valid() && x in held && count <= x.count
      modifies `held, x`count
      ensures Valid()
      ensures held == old(if count == x.count then Without(held, x) else held)
      ensures x.count == old(if count == x.count then x.count else x.count - count)
      ensures Worth(held) == old(Worth(held)) - UnitWorth(x.kind) * count && Worth(floor) == old(Worth(floor))
    {
      HeldDistinct();
      if count == x.count {
        WithoutKeeps(held, x);
        WithoutFloor(held, floor, x);
        held := Without(held, x);
      } else {
        LowerCount(x, count);
      }
    }

    method LowerCount(x: CoinStack, count: nat)
      requires Valid() && x in held && count <= x.count
      modifies x`count
      ensures x.count == old(x.count) - count
      ensures Worth(held) == old(Worth(held)) - UnitWorth(x.kind) * count && Worth(floor) == old(Worth(floor))
    {
      hide Worth, TotalWorth, Shown, Distinct;
      HeldDistinct();
      ghost var k :| 0 <= k < |held| && held[k] == x;
      OnlyAt(held, k);
      ghost var before := Shown(held);
      WorthShown(held);
      x.count := x.count - count;
      WorthShown(held);
      assert Shown(held) == before[k := Coin(x.kind, x.count)];
      OneChanged(before, Shown(held), k);
    }

    lemma {:induction false} HeldDistinct()
      requires Valid()
      ensures Distinct(held) && Distinct(floor) && forall x | x in held :: x !in floor
    {
      var all := held + floor;
      assert forall i | 0 <= i < |held| :: all[i] == held[i];
      assert forall i | 0 <= i < |floor| :: all[|held| + i] == floor[i];
    }

    /** Coins of a stack that is worth more than is owed; the change is given before they are taken away. */
    method BreakStack(x: CoinStack, owed: nat)
      requires Valid() && x in held && 0 < owed < x.Worth()
      modifies `held, `floor, x`count
      ensures Valid() && Cash() == old(Cash()) - owed && Worth(floor) >= old(Worth(floor))
      ensures forall s | s in old(held) && s != x :: s in held
      ensures forall s | s in held :: s in old(held) || fresh(s)
      ensures var n := CoinsFor(owed, x.kind);
              && n <= old(x.count) && (x in held <==> n < old(x.count))
              && (x in held ==> x.count == old(x.count) - n)
    {
      hide TotalWorth, Made, Worth, Distinct, Picked;
      Divides(x.Worth(), x.count, UnitWorth(x.kind), 0);
      var worth := x.Worth() / x.count;
      var removeCount: nat := (owed + worth - 1) / worth;
      CoinsNeeded(owed, x.kind, x.count);
      var change := worth * removeCount - owed;
      MadeWorthExactly(change);
      ghost var made, fits := AddMoney(change);
      assert Exact(change) by {
        Divides(change, 10000, 0, change);
      }
      PickedFrom(made, fits, true);
      assert x in held && forall s | s in old(held) :: s in held;
      WorthAppend(old(floor), Picked(made, fits, false));
      HeldDistinct();
      WithoutKeeps(held, x);
      RemoveItem(x, removeCount);
    }

    /**
     The loop over the map: what is still owed when it ends.  The first `k` stacks of the map are gone, of the next
     one as many coins as cover what is owed, and all others stay.
     */
    method TakeCoins(entries: seq<Entry>, money: nat) returns (owed: nat, ghost k: nat)
      requires Valid() && money > 0 && entries == MoneyMap(held)
      modifies `held, `floor, held`count
      ensures Valid() && owed == Residual(entries, 0, money)
      ensures old(Worth(held)) >= money ==> Cash() == old(Cash()) - money && Worth(floor) >= old(Worth(floor))
      ensures old(Worth(held)) < money ==> Worth(held) == 0 && floor == old(floor) && Worth(floor) == old(Worth(floor))
      ensures k <= |entries| && owed == money - (SumFrom(entries, 0) - SumFrom(entries, k))
      ensures k == |entries| <==> old(Worth(held)) < money
      ensures k < |entries| ==> 0 < owed <= entries[k].worth
      ensures forall s | s in old(held) && Listed(entries, k, s) :: s !in held
      ensures k < |entries| ==>
                var x := entries[k].stack;
                var n := CoinsFor(owed, x.kind);
                (x in held <==> n < old(x.count)) && (x in held ==> x.count == old(x.count) - n)
      ensures forall s | s in old(held) && !Listed(entries, k + 1, s) :: s in held && s.count == old(s.count)
    {
      hide Worth, MoneyMap, Distinct, Listed, UnitWorth, CoinsFor;
      HeldDistinct();
      MoneyMapLists(held);
      ListedNone(entries);
      owed, k := money, 0;
      for i := 0 to |entries|
        invariant Valid() && owed > 0 && floor == old(floor) && Worth(floor) == old(Worth(floor))
        invariant forall s | s in old(held) :: s.count == old(s.count)
        invariant forall s :: s in held <==> s in old(held) && !Listed(entries, i, s)
        invariant Worth(held) == SumFrom(entries, i) == old(Worth(held)) - (money - owed)
        invariant Residual(entries, i, owed) == Residual(entries, 0, money)
        invariant k == i
      {
        var x := entries[i].stack;
        assert entries[i] in entries;
        HeldDistinct();
        ListedStep(entries, i);
        WithoutKeeps(held, x);
        if entries[i].worth < owed {
          RemoveItem(x, x.count);
          owed := owed - entries[i].worth;
          k := i + 1;
        } else if entries[i].worth > owed {
          BreakStack(x, owed);
          return;
        } else {
          AllCoins(x.kind, x.count);
          RemoveItem(x, x.count);
          return;
        }
      }
    }

    /** The scan of the purse. */
    method CountMoney() returns (entries: seq<Entry>, moneyCount: nat)
      ensures entries == MoneyMap(held) && moneyCount == Worth(held)
    {
      entries, moneyCount := [], 0;
      for k := 0 to |held|
        invariant entries == MoneyMap(held[..k]) && moneyCount == Worth(held[..k])
      {
        var item := held[k];
        assert held[..k + 1] == held[..k] + [item];
        WorthAppend(held[..k], [item]);
        assert Worth([item]) == item.Worth();
        var worth := item.Worth();
        if worth != 0 {
          moneyCount := moneyCount + worth;
          entries := Emplace(entries, Entry(worth, item));
        }
      }
      assert held[..|held|] == held;
    }

    /**
     Takes `money` from the purse and, if asked, from the bank.  What the walk over the coins still owes when it
     ends is the shortfall of the coins, but also the price less the cheaper stacks when the coins suffice; the bank
     pays it in either case.
     */
    method RemoveMoney(money: nat, useBalance: bool) returns (ok: bool, ghost k: nat)
      requires Valid()
      modifies `held, `floor, `balance, held`count
      ensures Valid()
      ensures ok <==> old(Worth(held)) + (if useBalance then old(balance) else 0) >= money
      ensures !ok || money == 0 ==> held == old(held) && floor == old(floor) && balance == old(balance)
                                    && forall s | s in old(held) :: s.count == old(s.count)
      ensures ok && old(Worth(held)) >= money ==> Cash() == old(Cash()) - money
      ensures ok && old(Worth(held)) < money ==> Worth(held) == 0 && Worth(floor) == old(Worth(floor))
      ensures ok ==> balance == old(var due := Residual(MoneyMap(held), 0, money);
                                    if useBalance && balance >= due then balance - due else balance)
      ensures ok ==> old(Cash() + balance) - (Cash() + balance) == old(Paid(held, balance, money, useBalance))
      ensures Worth(floor) >= old(Worth(floor))
      ensures ok && money > 0 ==>
                var entries, due := old(MoneyMap(held)), old(Residual(MoneyMap(held), 0, money));
                && k <= |entries| && due == money - (SumFrom(entries, 0) - SumFrom(entries, k))
                && (k == |entries| <==> old(Worth(held)) < money)
                && (forall s | s in old(held) && Listed(entries, k, s) :: s !in held)
                && (k < |entries| ==>
                      var x := entries[k].stack;
                      var n := CoinsFor(due, x.kind);
                      && 0 < due <= entries[k].worth
                      && (x in held <==> n < old(x.count)) && (x in held ==> x.count == old(x.count) - n))
                && (forall s | s in old(held) && !Listed(entries, k + 1, s) :: s in held && s.count == old(s.count))
      ensures ok && money > 0 ==>
                Charged(old(Account(Worth(held), balance)), Account(Worth(held), balance),
                        Worth(floor) - old(Worth(floor)), old(Residual(MoneyMap(held), 0, money)), money, useBalance)
    {
      hide Worth, MoneyMap, Distinct, Listed, UnitWorth, CoinsFor, Charged, Residual, SumFrom, CoinStack.Worth;
      HeldDistinct();
      MoneyMapLists(held);
      k := 0;
      if money == 0 {
        ok := true;
        return;
      }
      var entries, moneyCount := CountMoney();
      if moneyCount + (if useBalance then balance else 0) < money {
        ok := false;
        return;
      }
      ghost var before := Account(Worth(held), balance);
      var owed;
      owed, k := TakeCoins(entries, money);
      ghost var cash, dropped := Worth(held), Worth(floor) - old(Worth(floor));
      if useBalance && balance >= owed {
        balance := balance - owed;
      }
      assert Worth(held) == cash && Worth(floor) == old(Worth(floor)) + dropped;
      IsCharged(before, Account(cash, balance), dropped, owed, money, useBalance);
      ok := true;
    }
  }
}
