/**
 The lists of creatures that think (`Game::addCreatureCheck`, `Game::removeCreatureCheck` and `Game::checkCreatures`
 in src/game/game.cpp).

 Creatures are spread over ten lists, one of which is walked every tick.  A creature that is to stop thinking is only
 marked; the walk over its list takes it out, by moving the last element into its place.  While a creature thinks it
 may add or remove any creature.
 */
module CreatureChecks {
  import opened Basics

  const BUCKETS := 10

  class Creature {
    var creatureCheck: bool
    var inCheckCreaturesVector: bool
    /** The references that the lists, and releases that are still to be made, account for. */
    var references: nat
  }

  /** What a thinking creature may do to the lists; the bucket is the one that chance picks. */
  datatype Call = Add(creature: Creature, bucket: nat) | Remove(creature: Creature)

  /** A call from anywhere in the server, or the tick of a list. */
  datatype Event = Ask(call: Call) | Tick(index: nat, thoughts: seq<seq<Call>>)
  {
    predicate Known(creatures: set<Creature>) {
      match this
      case Ask(call) => call.creature in creatures && (call.Add? ==> call.bucket < BUCKETS)
      case Tick(index, thoughts) =>
        && index < BUCKETS
        && forall calls, call | calls in thoughts && call in calls ::
             call.creature in creatures && (call.Add? ==> call.bucket < BUCKETS)
    }
  }

  /** Some call is about the creature. */
  ghost predicate Names(thoughts: seq<seq<Call>>, c: Creature) {
    exists calls, call | calls in thoughts && call in calls :: call.creature == c
  }

  /** Some call would enter a creature into the list `index`. */
  ghost predicate Pushes(thoughts: seq<seq<Call>>, index: nat) {
    exists calls, call: Call | calls in thoughts && call in calls :: call.Add? && call.bucket == index
  }

  /** Some of the calls enters the creature. */
  ghost predicate Adds(calls: seq<Call>, c: Creature) {
    exists call: Call | call in calls :: call.Add? && call.creature == c
  }

  /** The mark of the creature after the calls, if it was `check` before and the creature was listed or not. */
  ghost function CheckAfter(calls: seq<Call>, c: Creature, check: bool, listed: bool): bool {
    if calls == [] then check
    else
      var call, earlier := calls[|calls| - 1], calls[..|calls| - 1];
      if call.creature != c then CheckAfter(earlier, c, check, listed)
      else call.Add? || (CheckAfter(earlier, c, check, listed) && !listed && !Adds(earlier, c))
  }

  lemma {:induction false} OneMoreCall(calls: seq<Call>, k: nat, c: Creature, check: bool, listed: bool)
    requires k < |calls|
    ensures Adds(calls[..k + 1], c) <==> Adds(calls[..k], c) || (calls[k].Add? && calls[k].creature == c)
    ensures CheckAfter(calls[..k + 1], c, check, listed)
         == if calls[k].creature != c then CheckAfter(calls[..k], c, check, listed)
            else calls[k].Add? || (CheckAfter(calls[..k], c, check, listed) && !listed && !Adds(calls[..k], c))
  {
    var more := calls[..k + 1];
    assert more[..k] == calls[..k] && more[k] == calls[k];
    if Adds(more, c) {
      var call: Call :| call in more && call.Add? && call.creature == c;
      assert call in calls[..k] || call == calls[k];
    }
    if Adds(calls[..k], c) {
      var call: Call :| call in calls[..k] && call.Add? && call.creature == c;
      assert call in more;
    }
    if calls[k].Add? && calls[k].creature == c {
      assert calls[k] in more;
    }
  }

  lemma {:induction false} NoCalls(c: Creature, check: bool, listed: bool)
    ensures !Adds([], c) && CheckAfter([], c, check, listed) == check
  {
  }

  lemma {:induction false} NotNamed(calls: seq<Call>, c: Creature, check: bool, listed: bool)
    requires forall call | call in calls :: call.creature != c
    ensures CheckAfter(calls, c, check, listed) == check
    decreases |calls|
  {
    if calls != [] {
      NotNamed(calls[..|calls| - 1], c, check, listed);
    }
  }

  /** The last call about a creature counts: it is marked to think on, or to stop if it is listed by then. */
  lemma {:induction false} LastCallCounts(calls: seq<Call>, k: nat, check: bool, listed: bool)
    requires k < |calls| && forall j | k < j < |calls| :: calls[j].creature != calls[k].creature
    ensures var after := CheckAfter(calls, calls[k].creature, check, listed);
            if calls[k].Add? then after else (listed || Adds(calls, calls[k].creature)) ==> !after
    decreases |calls|
  {
    var n, c := |calls| - 1, calls[k].creature;
    assert calls[..n + 1] == calls;
    OneMoreCall(calls, n, c, check, listed);
    if k < n {
      LastCallCounts(calls[..n], k, check, listed);
    }
  }

  /** All entries of all lists. */
  function Entries(lists: seq<seq<Creature>>): multiset<Creature> {
    if lists == [] then multiset{} else multiset(lists[0]) + Entries(lists[1..])
  }

  lemma {:induction false} EntriesUpdate(lists: seq<seq<Creature>>, b: nat, list: seq<Creature>)
    requires b < |lists|
    ensures multiset(lists[b]) <= Entries(lists)
    ensures Entries(lists[b := list]) == Entries(lists) - multiset(lists[b]) + multiset(list)
    decreases lists
  {
    if b == 0 {
      assert lists[b := list][1..] == lists[1..];
    } else {
      assert lists[b := list][1..] == lists[1..][b - 1 := list];
      EntriesUpdate(lists[1..], b - 1, list);
    }
  }

  /** The last element in the place of the one at `i`. */
  function SwapRemoved(list: seq<Creature>, i: nat): (r: seq<Creature>)
    requires i < |list|
    ensures |r| == |list| - 1
    ensures forall j | 0 <= j < |r| && j != i :: r[j] == list[j]
    ensures i < |r| ==> r[i] == list[|list| - 1]
  {
    list[i := list[|list| - 1]][..|list| - 1]
  }

  lemma {:induction false} SwapRemovedEntries(list: seq<Creature>, i: nat)
    requires i < |list|
    ensures multiset(SwapRemoved(list, i)) == multiset(list) - multiset{list[i]}
  {
    var last := |list| - 1;
    SwapParts(list, i);
    hide *;
    if i < last {
      Parts(list[..i], list[i], list[i + 1..last], list[last]);
    }
  }

  lemma {:induction false} SwapParts(list: seq<Creature>, i: nat)
    requires i < |list|
    ensures var last := |list| - 1;
            if i < last then
              && list == list[..i] + [list[i]] + list[i + 1..last] + [list[last]]
              && SwapRemoved(list, i) == list[..i] + [list[last]] + list[i + 1..last]
            else
              list == list[..last] + [list[last]] && SwapRemoved(list, i) == list[..last]
  {
  }

  lemma {:induction false} Parts(a: seq<Creature>, x: Creature, b: seq<Creature>, y: Creature)
    ensures multiset(a + [y] + b) == multiset(a + [x] + b + [y]) - multiset{x}
  {
  }

  /** `list[it] = list.back(); list.pop_back()`. */
  method SwapRemove(list: seq<Creature>, it: nat) returns (r: seq<Creature>)
    requires it < |list|
    ensures r == SwapRemoved(list, it)
  {
    r := list[it := list[|list| - 1]];
    r := r[..|list| - 1];
  }

  lemma {:induction false} EntriesPush(lists: seq<seq<Creature>>, b: nat, c: Creature)
    requires b < |lists|
    ensures Entries(lists[b := lists[b] + [c]]) == Entries(lists) + multiset{c}
  {
    EntriesUpdate(lists, b, lists[b] + [c]);
    assert multiset(lists[b] + [c]) == multiset(lists[b]) + multiset{c};
  }

  lemma {:induction false} EntriesTake(lists: seq<seq<Creature>>, b: nat, i: nat)
    requires b < |lists| && i < |lists[b]|
    ensures Entries(lists)[lists[b][i]] >= 1
    ensures Entries(lists[b := SwapRemoved(lists[b], i)]) == Entries(lists) - multiset{lists[b][i]}
  {
    EntriesUpdate(lists, b, SwapRemoved(lists[b], i));
    SwapRemovedEntries(lists[b], i);
    assert lists[b][i] in multiset(lists[b]);
  }

  lemma {:induction false} NotListed(lists: seq<seq<Creature>>, c: Creature)
    requires Entries(lists)[c] == 0
    ensures forall b | 0 <= b < |lists| :: c !in lists[b]
    decreases lists
  {
    if lists != [] {
      assert c !in multiset(lists[0]);
      NotListed(lists[1..], c);
      assert forall b | 0 < b < |lists| :: lists[b] == lists[1..][b - 1];
    }
  }

  lemma {:induction false} PlaceInList(list: seq<Creature>, c: Creature) returns (i: nat)
    requires multiset(list)[c] == 1
    ensures i < |list| && list[i] == c && forall j | 0 <= j < |list| && list[j] == c :: j == i
  {
    assert c in multiset(list);
    i :| i < |list| && list[i] == c;
    var first, rest := list[..i], list[i + 1..];
    assert list == first + [c] + rest;
    assert multiset(list) == multiset(first) + multiset{c} + multiset(rest);
    assert multiset(first)[c] == 0 && multiset(rest)[c] == 0;
    assert c !in first && c !in rest;
    assert forall j | 0 <= j < i :: list[j] == first[j];
    assert forall j | i < j < |list| :: list[j] == rest[j - i - 1];
  }

  lemma {:induction false} ListedOnce(lists: seq<seq<Creature>>, c: Creature) returns (b: nat, i: nat)
    requires Entries(lists)[c] == 1
    ensures b < |lists| && i < |lists[b]| && lists[b][i] == c
    ensures forall b', i' | 0 <= b' < |lists| && 0 <= i' < |lists[b']| && lists[b'][i'] == c :: b' == b && i' == i
    decreases lists
  {
    var rest := lists[1..];
    assert forall k | 0 < k < |lists| :: lists[k] == rest[k - 1];
    if c in multiset(lists[0]) {
      b := 0;
      i := PlaceInList(lists[0], c);
      NotListed(rest, c);
    } else {
      b, i := ListedOnce(rest, c);
      b := b + 1;
      assert c !in lists[0];
    }
  }

  // ----- Who goes without ----------------------------------------------------------------------

  /** Where a walk stands: the list as it is now, the next place, and the end of what is still to be walked. */
  datatype Place = Place(list: seq<Creature>, it: nat, end: nat)

  predicate TakesOut(p: Place, q: Place) {
    q.it == p.it
  }

  /** One turn: the creature at `it` thinks, whereby others may come in at the end, or it is taken out. */
  predicate Leads(p: Place, q: Place) {
    && p.it < p.end <= |p.list|
    && if TakesOut(p, q) then q.end == p.end - 1 && q.list == SwapRemoved(p.list, p.it)
       else q.it == p.it + 1 && q.end == p.end && p.list <= q.list
  }

  /** All places of a walk over a list that was `before`. */
  ghost predicate IsWalk(path: seq<Place>, before: seq<Creature>) {
    && path != [] && path[0] == Place(before, 0, |before|)
    && (forall k | 0 <= k < |path| - 1 :: Leads(path[k], path[k + 1]))
    && forall k | 0 <= k < |path| :: Distinct(path[k].list)
  }

  function TakenOut(path: seq<Place>): seq<Creature>
    requires forall k | 0 <= k < |path| - 1 :: Leads(path[k], path[k + 1])
  {
    if |path| < 2 then [] else
      var k := |path| - 2;
      assert Leads(path[k], path[k + 1]);
      TakenOut(path[..k + 1]) + if TakesOut(path[k], path[k + 1]) then [path[k].list[path[k].it]] else []
  }

  /** The turn takes out a creature while a newcomer is in the list already and another creature is still to come:
      the newcomer takes the free place, and the last of those to come is left behind the end. */
  predicate Displaces(p: Place, q: Place) {
    TakesOut(p, q) && |p.list| > p.end && p.it + 1 < p.end
  }

  ghost predicate Displaced(path: seq<Place>) {
    exists k {:trigger path[k]} :: 0 <= k < |path| - 1 && Displaces(path[k], path[k + 1])
  }

  /** The creature was listed when the walk began, and has neither got its turn nor been taken out. */
  predicate Waits(p: Place, before: seq<Creature>, gone: seq<Creature>, c: Creature)
    requires p.it <= |p.list|
  {
    c in before && c !in gone && forall k | 0 <= k < p.it :: p.list[k] != c
  }

  /** Nobody who was listed before is lost; all between `it` and the end were and are still to come; and behind the end
      there is one who was, and is left behind, exactly if some turn has displaced one. */
  ghost predicate Sorted(p: Place, before: seq<Creature>, gone: seq<Creature>, displaced: bool) {
    && p.it <= p.end <= |p.list|
    && (forall c | c in before :: c in p.list || c in gone)
    && (forall k | p.it < k < p.end :: p.list[k] in before && p.list[k] !in gone)
    && (displaced <==> exists k :: p.end <= k < |p.list| && p.list[k] in before && p.list[k] !in gone)
  }

  lemma {:induction false} SortedVisit(p: Place, q: Place, before: seq<Creature>, gone: seq<Creature>, displaced: bool)
    requires Sorted(p, before, gone, displaced) && Leads(p, q) && !TakesOut(p, q) && Distinct(q.list)
    ensures Sorted(q, before, gone, displaced)
  {
    forall k | p.end <= k < |q.list| && q.list[k] in before && q.list[k] !in gone ensures k < |p.list| {
      var j :| 0 <= j < |p.list| && p.list[j] == q.list[k];
      assert q.list[j] == q.list[k];
    }
  }

  lemma {:induction false} SortedTake(p: Place, q: Place, before: seq<Creature>, gone: seq<Creature>, displaced: bool)
    requires Sorted(p, before, gone, displaced) && Leads(p, q) && TakesOut(p, q) && Distinct(p.list)
    ensures Sorted(q, before, gone + [p.list[p.it]], displaced || Displaces(p, q))
  {
    var last, gone' := |p.list| - 1, gone + [p.list[p.it]];
    forall c | c in before ensures c in q.list || c in gone' {
      if c !in gone' {
        var k :| 0 <= k < |p.list| && p.list[k] == c;
        assert c == q.list[if k == last then p.it else k];
      }
    }
    BehindTheEnd(p, q, before, gone, displaced);
  }

  lemma {:induction false} BehindTheEnd(p: Place, q: Place, before: seq<Creature>, gone: seq<Creature>, displaced: bool)
    requires Sorted(p, before, gone, displaced) && Leads(p, q) && TakesOut(p, q) && Distinct(p.list)
    ensures displaced || Displaces(p, q) <==>
              exists k :: q.end <= k < |q.list| && q.list[k] in before && q.list[k] !in gone + [p.list[p.it]]
  {
    var last, gone' := |p.list| - 1, gone + [p.list[p.it]];
    if Displaces(p, q) {
      assert q.list[q.end] == p.list[p.end - 1];
    } else if displaced {
      var k :| p.end <= k < |p.list| && p.list[k] in before && p.list[k] !in gone;
      assert q.list[if k == last then p.it else k] == p.list[k];
    } else {
      forall k | q.end <= k < |q.list| ensures q.list[k] !in before || q.list[k] in gone' {
        assert q.list[k] == p.list[if k == p.it then last else k];
      }
    }
  }

  lemma {:induction false} DisplacedGrows(path: seq<Place>, n: nat)
    requires |path| == n + 1 && n > 0
    ensures Displaced(path) <==> Displaced(path[..n]) || Displaces(path[n - 1], path[n])
  {
    var init := path[..n];
    assert forall k | 0 <= k < n :: init[k] == path[k];
    if Displaced(init) {
      var k :| 0 <= k < n - 1 && Displaces(init[k], init[k + 1]);
      assert Displaces(path[k], path[k + 1]);
    }
    if Displaced(path) {
      var k :| 0 <= k < n && Displaces(path[k], path[k + 1]);
      assert k < n - 1 ==> Displaces(init[k], init[k + 1]);
    }
  }

  lemma {:induction false} WalkSorted(path: seq<Place>, before: seq<Creature>)
    requires IsWalk(path, before)
    ensures Sorted(path[|path| - 1], before, TakenOut(path), Displaced(path))
    decreases |path|
  {
    var n := |path| - 1;
    if n > 0 {
      var init, p, q := path[..n], path[n - 1], path[n];
      WalkSorted(init, before);
      DisplacedGrows(path, n);
      assert init[|init| - 1] == p && Leads(p, q);
      hide Displaced, Sorted, Displaces, Distinct;
      if TakesOut(p, q) {
        SortedTake(p, q, before, TakenOut(init), Displaced(init));
      } else {
        SortedVisit(p, q, before, TakenOut(init), Displaced(init));
        assert TakenOut(path) == TakenOut(init);
      }
    }
  }

  /** Of those listed when the walk began someone goes without exactly if some turn displaced one. */
  lemma {:induction false} GoesWithoutIff(path: seq<Place>, before: seq<Creature>)
    requires IsWalk(path, before) && path[|path| - 1].it == path[|path| - 1].end
    ensures var p := path[|path| - 1];
            p.it <= |p.list| && ((exists c :: Waits(p, before, TakenOut(path), c)) <==> Displaced(path))
  {
    WalkSorted(path, before);
    assert Distinct(path[|path| - 1].list);
    WaitsIff(path[|path| - 1], before, TakenOut(path), Displaced(path));
  }

  lemma {:induction false} WaitsIff(p: Place, before: seq<Creature>, gone: seq<Creature>, displaced: bool)
    requires Sorted(p, before, gone, displaced) && p.it == p.end && Distinct(p.list)
    ensures (exists c :: Waits(p, before, gone, c)) <==> displaced
  {
    if displaced {
      var k :| p.end <= k < |p.list| && p.list[k] in before && p.list[k] !in gone;
      assert Waits(p, before, gone, p.list[k]);
    }
    if c :| Waits(p, before, gone, c) {
      var k :| 0 <= k < |p.list| && p.list[k] == c;
    }
  }

  /** The shortest such walk: the first of three enters a newcomer and the second is marked, so that the newcomer
      takes the second place and the third goes without. */
  lemma {:induction false} ThirdGoesWithout(a: Creature, b: Creature, c: Creature, newcomer: Creature)
    requires Distinct([a, b, c, newcomer])
    ensures var path := [Place([a, b, c], 0, 3), Place([a, b, c, newcomer], 1, 3), Place([a, newcomer, c], 1, 2),
                         Place([a, newcomer, c], 2, 2)];
            IsWalk(path, [a, b, c]) && TakenOut(path) == [b] && Waits(path[3], [a, b, c], [b], c)
  {
    var path := [Place([a, b, c], 0, 3), Place([a, b, c, newcomer], 1, 3), Place([a, newcomer, c], 1, 2),
                 Place([a, newcomer, c], 2, 2)];
    var all := [a, b, c, newcomer];
    assert all[0] != all[1] && all[0] != all[2] && all[0] != all[3];
    assert all[1] != all[2] && all[1] != all[3] && all[2] != all[3];
    assert Leads(path[0], path[1]) && Leads(path[1], path[2]) && Leads(path[2], path[3]);
    assert path[..3][..2] == path[..2];
    assert TakenOut(path[..2]) == [];
    assert TakenOut(path[..3]) == [b];
  }

  // ----- The walk, as the loop keeps it --------------------------------------------------------

  /** How far the loop has come: `list[..it]` has thought, `list[end..]` came in since or was displaced. */
  ghost predicate Walked(path: seq<Place>, before: seq<Creature>, p: Place,
                         visited: seq<Creature>, gone: seq<Creature>, pushed: nat)
  {
    && IsWalk(path, before) && path[|path| - 1] == p && TakenOut(path) == gone
    && p.it == |visited| <= p.end && |p.list| == p.end + pushed
    && visited == p.list[..p.it]
    && (pushed == 0 ==> multiset(before) == multiset(p.list) + multiset(gone))
  }

  lemma {:induction false} WalkedFirst(before: seq<Creature>)
    requires Distinct(before)
    ensures var p := Place(before, 0, |before|); Walked([p], before, p, [], [], 0)
  {
  }

  lemma {:induction false} NoneTwiceBefore(list: seq<Creature>, visited: seq<Creature>)
    requires Distinct(list) && visited <= list
    ensures Distinct(visited)
  {
    assert forall i | 0 <= i < |visited| :: visited[i] == list[i];
  }

  lemma {:induction false} WalkGoesOn(path: seq<Place>, before: seq<Creature>, q: Place)
    requires IsWalk(path, before) && Leads(path[|path| - 1], q) && Distinct(q.list)
    ensures IsWalk(path + [q], before)
    ensures var p := path[|path| - 1];
            TakenOut(path + [q]) == TakenOut(path) + if TakesOut(p, q) then [p.list[p.it]] else []
  {
    assert (path + [q])[..|path|] == path;
  }

  lemma {:induction false} WalkedVisit(path: seq<Place>, before: seq<Creature>, p: Place,
      visited: seq<Creature>, gone: seq<Creature>, pushed: nat, after: seq<Creature>, more: nat)
    requires Walked(path, before, p, visited, gone, pushed) && p.it < p.end && Distinct(after)
    requires p.list <= after && |after| == |p.list| + more
    ensures var q := Place(after, p.it + 1, p.end);
            Walked(path + [q], before, q, visited + [p.list[p.it]], gone, pushed + more)
  {
    WalkGoesOn(path, before, Place(after, p.it + 1, p.end));
    hide IsWalk, TakenOut, Distinct;
    assert after[..p.it + 1] == p.list[..p.it] + [p.list[p.it]];
    if more == 0 {
      assert after == p.list;
    }
  }

  lemma {:induction false} WalkedTake(path: seq<Place>, before: seq<Creature>, p: Place,
      visited: seq<Creature>, gone: seq<Creature>, pushed: nat)
    requires Walked(path, before, p, visited, gone, pushed) && p.it < p.end
    requires Distinct(SwapRemoved(p.list, p.it))
    ensures var q := Place(SwapRemoved(p.list, p.it), p.it, p.end - 1);
            Walked(path + [q], before, q, visited, gone + [p.list[p.it]], pushed)
  {
    var list, it := p.list, p.it;
    WalkGoesOn(path, before, Place(SwapRemoved(list, it), it, p.end - 1));
    hide IsWalk, TakenOut, Distinct;
    SwapRemovedEntries(list, it);
    hide SwapRemoved;
    assert SwapRemoved(list, it)[..it] == list[..it];
    OneMoves(list, SwapRemoved(list, it), gone, list[it]);
  }

  lemma {:induction false} OneMoves(list: seq<Creature>, rest: seq<Creature>, gone: seq<Creature>, c: Creature)
    requires c in list && multiset(rest) == multiset(list) - multiset{c}
    ensures multiset(rest) + multiset(gone + [c]) == multiset(list) + multiset(gone)
  {
    assert c in multiset(list);
    assert multiset(gone + [c]) == multiset(gone) + multiset{c};
  }

  lemma {:induction false} WalkedThrough(path: seq<Place>, before: seq<Creature>, p: Place,
      visited: seq<Creature>, gone: seq<Creature>, pushed: nat)
    requires Walked(path, before, p, visited, gone, pushed) && p.it == p.end
    ensures visited <= p.list && |p.list| == |visited| + pushed
    ensures pushed == 0 ==> multiset(before) == multiset(visited) + multiset(gone)
    ensures IsWalk(path, before) && gone == TakenOut(path) && path[|path| - 1] == Place(p.list, |visited|, |visited|)
    ensures (exists c :: c in before && c !in visited && c !in gone) <==> Displaced(path)
  {
    assert pushed == 0 ==> visited == p.list;
    GoesWithoutIff(path, before);
    hide IsWalk, TakenOut, Displaced, Leads;
    assert forall c :: Waits(p, before, gone, c) <==> c in before && c !in visited && c !in gone;
  }

  lemma {:induction false} NoEntries(lists: seq<seq<Creature>>)
    requires forall k | 0 <= k < |lists| :: lists[k] == []
    ensures Entries(lists) == multiset{}
    decreases lists
  {
    if lists != [] {
      NoEntries(lists[1..]);
    }
  }

  class Game {
    var creatures: set<Creature>
    var lists: seq<seq<Creature>>
    var toRelease: seq<Creature>

    constructor (creatures: set<Creature>)
      requires forall c | c in creatures :: !c.inCheckCreaturesVector && c.references == 0
      ensures Valid() && this.creatures == creatures
    {
      this.creatures := creatures;
      lists := seq(BUCKETS, k => []);
      toRelease := [];
      new;
      NoEntries(lists);
      hide Entries;
    }

    /**
     A creature is flagged exactly when it is in the lists, and then it is in one list once; a reference is held for
     each of its entries and for each release that is due.
     */
    ghost predicate Valid()
      reads this, creatures
    {
      && |lists| == BUCKETS
      && (forall c | c in Entries(lists) :: c in creatures)
      && (forall c | c in toRelease :: c in creatures)
      && (forall c | c in creatures :: Entries(lists)[c] == if c.inCheckCreaturesVector then 1 else 0)
      && forall c | c in creatures :: c.references == Entries(lists)[c] + multiset(toRelease)[c]
    }

    method AddCreatureCheck(creature: Creature, bucket: nat)
      requires Valid() && creature in creatures && bucket < BUCKETS
      modifies `lists, creature
      ensures Valid() && creature.creatureCheck && creature.inCheckCreaturesVector
      ensures lists == if old(creature.inCheckCreaturesVector) then old(lists)
                       else old(lists)[bucket := old(lists)[bucket] + [creature]]
    {
      hide Entries;
      creature.creatureCheck := true;
      assert Valid();
      if creature.inCheckCreaturesVector {
        // already in a vector
        return;
      }
      Enter(creature, bucket);
    }

    method Enter(creature: Creature, bucket: nat)
      requires Valid() && creature in creatures && bucket < BUCKETS && !creature.inCheckCreaturesVector
      modifies `lists, creature`inCheckCreaturesVector, creature`references
      ensures Valid() && creature.inCheckCreaturesVector
      ensures lists == old(lists)[bucket := old(lists)[bucket] + [creature]]
    {
      hide Entries;
      EntriesPush(lists, bucket, creature);
      creature.inCheckCreaturesVector := true;
      lists := lists[bucket := lists[bucket] + [creature]];
      creature.references := creature.references + 1;
    }

    method RemoveCreatureCheck(creature: Creature)
      requires Valid() && creature in creatures
      modifies creature`creatureCheck
      ensures Valid()
      ensures creature.creatureCheck == (old(creature.creatureCheck) && !creature.inCheckCreaturesVector)
    {
      if creature.inCheckCreaturesVector {
        creature.creatureCheck := false;
      }
    }

    /** One call; `pushed` is 1 if it adds to the list `index`. */
    method Obey(call: Call, index: nat) returns (pushed: nat)
      requires Valid() && index < BUCKETS && call.creature in creatures && (call.Add? ==> call.bucket < BUCKETS)
      modifies `lists, call.creature
      ensures Valid()
      ensures old(lists)[index] <= lists[index] && |lists[index]| == |old(lists)[index]| + pushed
      ensures pushed == if call.Add? && call.bucket == index && !old(call.creature.inCheckCreaturesVector) then 1 else 0
      ensures call.creature.inCheckCreaturesVector == (old(call.creature.inCheckCreaturesVector) || call.Add?)
      ensures call.creature.creatureCheck
           == (call.Add? || old(call.creature.creatureCheck && !call.creature.inCheckCreaturesVector))
    {
      hide Entries;
      pushed := 0;
      match call {
        case Add(creature, bucket) =>
          if !creature.inCheckCreaturesVector && bucket == index {
            pushed := 1;
          }
          AddCreatureCheck(creature, bucket);
        case Remove(creature) =>
          RemoveCreatureCheck(creature);
      }
    }

    /** What happens while a creature thinks, attacks or dies; `pushed` counts what it adds to the list `index`. */
    method OnThink(calls: seq<Call>, index: nat) returns (pushed: nat)
      requires Valid() && index < BUCKETS
      requires forall call | call in calls :: call.creature in creatures && (call.Add? ==> call.bucket < BUCKETS)
      modifies `lists, creatures
      ensures Valid()
      ensures old(lists)[index] <= lists[index] && |lists[index]| == |old(lists)[index]| + pushed
      ensures (forall call | call in calls :: call.Add? ==> call.bucket != index) ==> pushed == 0
      ensures forall c | c in creatures ::
                && c.inCheckCreaturesVector == (old(c.inCheckCreaturesVector) || Adds(calls, c))
                && c.creatureCheck == CheckAfter(calls, c, old(c.creatureCheck), old(c.inCheckCreaturesVector))
    {
      hide Entries, Adds, CheckAfter, Valid;
      TenLists();
      assert calls[..0] == [];
      forall c | c in creatures {
        NoCalls(c, c.creatureCheck, c.inCheckCreaturesVector);
      }
      pushed := 0;
      for k := 0 to |calls|
        invariant Valid() && |lists| == BUCKETS
        invariant old(lists)[index] <= lists[index] && |lists[index]| == |old(lists)[index]| + pushed
        invariant (forall call | call in calls :: call.Add? ==> call.bucket != index) ==> pushed == 0
        invariant forall c | c in creatures ::
                    && c.inCheckCreaturesVector == (old(c.inCheckCreaturesVector) || Adds(calls[..k], c))
                    && c.creatureCheck
                       == CheckAfter(calls[..k], c, old(c.creatureCheck), old(c.inCheckCreaturesVector))
      {
        assert calls[k] in calls;
        var more := Obey(calls[k], index);
        TenLists();
        pushed := pushed + more;
        forall c | c in creatures
          ensures c.inCheckCreaturesVector == (old(c.inCheckCreaturesVector) || Adds(calls[..k + 1], c))
          ensures c.creatureCheck
               == CheckAfter(calls[..k + 1], c, old(c.creatureCheck), old(c.inCheckCreaturesVector))
        {
          OneMoreCall(calls, k, c, old(c.creatureCheck), old(c.inCheckCreaturesVector));
        }
      }
      assert calls[..|calls|] == calls;
    }

    /** The creature at `it` has been marked: it leaves the list. */
    method TakeOut(index: nat, it: nat, creature: Creature)
      requires Valid() && index < BUCKETS && it < |lists[index]| && lists[index][it] == creature
      modifies `lists, `toRelease, creature`inCheckCreaturesVector
      ensures Valid() && !creature.inCheckCreaturesVector
      ensures lists == old(lists)[index := SwapRemoved(old(lists)[index], it)]
      ensures toRelease == old(toRelease) + [creature]
    {
      hide Entries, SwapRemoved;
      EntriesTake(lists, index, it);
      creature.inCheckCreaturesVector := false;
      toRelease := toRelease + [creature];
      assert multiset(toRelease) == multiset(old(toRelease)) + multiset{creature};
      var list := SwapRemove(lists[index], it);
      lists := lists[index := list];
    }

    /** cleanup(): the releases that are due. */
    method Cleanup()
      requires Valid()
      modifies `toRelease, creatures`references
      ensures Valid() && toRelease == []
    {
      hide Entries;
      while toRelease != []
        invariant Valid()
        decreases |toRelease|
      {
        ReleaseFirst();
      }
    }

    method ReleaseFirst()
      requires Valid() && toRelease != []
      modifies `toRelease, creatures`references
      ensures Valid() && toRelease == old(toRelease)[1..]
    {
      hide Entries;
      var creature := toRelease[0];
      assert toRelease == [creature] + toRelease[1..];
      assert multiset(toRelease) == multiset{creature} + multiset(toRelease[1..]);
      assert creature in toRelease;
      creature.references := creature.references - 1;
      toRelease := toRelease[1..];
    }

    method Visit(thoughts: seq<seq<Call>>, v: nat, index: nat) returns (pushed: nat)
      requires Valid() && index < BUCKETS
      requires forall calls, call | calls in thoughts && call in calls ::
                 call.creature in creatures && (call.Add? ==> call.bucket < BUCKETS)
      modifies `lists, creatures
      ensures Valid()
      ensures old(lists)[index] <= lists[index] && |lists[index]| == |old(lists)[index]| + pushed
      ensures !Pushes(thoughts, index) ==> pushed == 0
      ensures forall c | c in creatures && !Names(thoughts, c) :: c.creatureCheck == old(c.creatureCheck)
      ensures forall c | c in creatures :: c.inCheckCreaturesVector
                <==> old(c.inCheckCreaturesVector) || (v < |thoughts| && Adds(thoughts[v], c))
    {
      hide Adds, CheckAfter, Entries;
      pushed := 0;
      if v < |thoughts| {
        assert thoughts[v] in thoughts;
        forall c | c in creatures && !Names(thoughts, c) {
          NotNamed(thoughts[v], c, c.creatureCheck, c.inCheckCreaturesVector);
        }
        pushed := OnThink(thoughts[v], index);
      }
    }

    /** One turn of the walk: the creature at `it` gets to think, as the v-th, or it is taken out. */
    method Turn(index: nat, it: nat, thoughts: seq<seq<Call>>, v: nat) returns (visited: bool, ghost pushed: nat)
      requires Valid() && index < BUCKETS && it < |lists[index]|
      requires forall calls, call | calls in thoughts && call in calls ::
                 call.creature in creatures && (call.Add? ==> call.bucket < BUCKETS)
      modifies `lists, `toRelease, creatures
      ensures Valid() && visited == old(lists[index][it].creatureCheck)
      ensures if visited then old(lists)[index] <= lists[index] && |lists[index]| == |old(lists)[index]| + pushed
              else lists[index] == SwapRemoved(old(lists)[index], it) && pushed == 0
      ensures |lists| == BUCKETS && (!Pushes(thoughts, index) ==> pushed == 0)
      ensures forall c | c in creatures && !Names(thoughts, c) :: c.creatureCheck == old(c.creatureCheck)
      ensures forall c | c in creatures && (visited || c != old(lists[index][it])) :: c.inCheckCreaturesVector
                <==> old(c.inCheckCreaturesVector) || (visited && v < |thoughts| && Adds(thoughts[v], c))
    {
      hide Names, Pushes, Entries, SwapRemoved, Adds;
      assert |lists| == BUCKETS;
      var creature := lists[index][it];
      visited, pushed := creature.creatureCheck, 0;
      if visited {
        var more := Visit(thoughts, v, index);
        pushed := more;
      } else {
        ListedIsKnown(index, it);
        TakeOut(index, it, creature);
      }
    }

    /**
     One walk over a list.  `thoughts[v]` is what the v-th creature that gets to think does; the walk returns the
     creatures that thought, in that order, those that it took out, how many others entered this list meanwhile, and
     all places where it stood.
     */
    method CheckCreatures(index: nat, thoughts: seq<seq<Call>>)
      returns (visited: seq<Creature>, ghost gone: seq<Creature>, ghost pushed: nat, ghost path: seq<Place>)
      requires Valid() && index < BUCKETS && toRelease == []
      requires forall calls, call | calls in thoughts && call in calls ::
                 call.creature in creatures && (call.Add? ==> call.bucket < BUCKETS)
      modifies `lists, `toRelease, creatures
      ensures Valid() && toRelease == []
      ensures visited <= lists[index] && |lists[index]| == |visited| + pushed
      ensures Distinct(visited)
      ensures pushed == 0 ==> multiset(old(lists)[index]) == multiset(visited) + multiset(gone)
      ensures !Pushes(thoughts, index) ==> pushed == 0
      ensures IsWalk(path, old(lists)[index]) && gone == TakenOut(path)
      ensures path[|path| - 1] == Place(lists[index], |visited|, |visited|)
      ensures (exists c :: c in old(lists)[index] && c !in visited && c !in gone) <==> Displaced(path)
      ensures forall c | c in creatures && !Names(thoughts, c) ::
                && c.creatureCheck == old(c.creatureCheck)
                && (c in visited ==> c.creatureCheck)
                && (c in gone ==> !c.creatureCheck)
      ensures forall v, c | 0 <= v < |visited| && v < |thoughts| && c in creatures && Adds(thoughts[v], c) ::
                c.inCheckCreaturesVector || c in gone
    {
      hide Valid, Adds, Names, Pushes, Entries, SwapRemoved, Walked, IsWalk, TakenOut, Displaced, Distinct, Leads;
      TenLists();
      visited, gone, pushed := [], [], 0;
      var it, end: nat := 0, |lists[index]|;
      ghost var before := lists[index];
      ghost var marked := set c | c in creatures && c.creatureCheck;
      path := [Place(before, it, end)];
      NoneTwice(index);
      WalkedFirst(before);
      while it < end
        invariant Valid() && |lists| == BUCKETS && it == |visited| <= end <= |lists[index]|
        invariant Walked(path, before, Place(lists[index], it, end), visited, gone, pushed)
        invariant !Pushes(thoughts, index) ==> pushed == 0
        invariant forall c | c in creatures && !Names(thoughts, c) :: c.creatureCheck == (c in marked)
        invariant forall c | c in visited && !Names(thoughts, c) :: c in marked
        invariant forall c | c in gone && !Names(thoughts, c) :: c !in marked
        invariant forall v, c | 0 <= v < |visited| && v < |thoughts| && c in creatures && Adds(thoughts[v], c) ::
                    c.inCheckCreaturesVector || c in gone
        decreases end - it
      {
        ghost var p := Place(lists[index], it, end);
        var creature := lists[index][it];
        var thought;
        ghost var more;
        ListedIsKnown(index, it);
        thought, more := Turn(index, it, thoughts, |visited|);
        NoneTwice(index);
        if thought {
          WalkedVisit(path, before, p, visited, gone, pushed, lists[index], more);
          visited, pushed := visited + [creature], pushed + more;
          it := it + 1;
        } else {
          WalkedTake(path, before, p, visited, gone, pushed);
          gone := gone + [creature];
          end := end - 1;
        }
        path := path + [Place(lists[index], it, end)];
      }
      WalkedThrough(path, before, Place(lists[index], it, end), visited, gone, pushed);
      Cleanup();
      NoneTwice(index);
      NoneTwiceBefore(lists[index], visited);
    }

    lemma {:induction false} TenLists()
      requires Valid()
      ensures |lists| == BUCKETS
    {
    }

    lemma {:induction false} NoneTwice(index: nat)
      requires Valid() && index < BUCKETS
      ensures Distinct(lists[index])
    {
      hide Entries;
      forall i, j | 0 <= i < j < |lists[index]|
        ensures lists[index][i] != lists[index][j]
      {
        EntriesTake(lists, index, i);
        var b, k := ListedOnce(lists, lists[index][i]);
      }
    }

    lemma {:induction false} ListedIsKnown(index: nat, it: nat)
      requires Valid() && index < BUCKETS && it < |lists[index]|
      ensures lists[index][it] in creatures
    {
      EntriesTake(lists, index, it);
    }

    /** Flagged means: in one list, at one place.  Not flagged means: nowhere. */
    lemma {:induction false} FlaggedIffListedOnce(c: Creature)
      requires Valid() && c in creatures
      ensures c.inCheckCreaturesVector <==>
                exists b, i | 0 <= b < BUCKETS && 0 <= i < |lists[b]| ::
                  lists[b][i] == c && forall b', i' | 0 <= b' < BUCKETS && 0 <= i' < |lists[b']| ::
                                        lists[b'][i'] == c ==> b' == b && i' == i
      ensures !c.inCheckCreaturesVector <==> forall b | 0 <= b < BUCKETS :: c !in lists[b]
    {
      hide Entries;
      if Entries(lists)[c] == 0 {
        NotListed(lists, c);
      } else {
        var b, i := ListedOnce(lists, c);
        assert lists[b][i] == c;
      }
    }

    /** Whatever is asked of the lists, and in whatever order the ticks come, the flags stay exact. */
    method Run(events: seq<Event>)
      requires Valid() && toRelease == []
      requires forall e | e in events :: e.Known(creatures)
      modifies `lists, `toRelease, creatures
      ensures Valid() && toRelease == []
    {
      hide Valid, Entries;
      for k := 0 to |events|
        invariant Valid() && toRelease == []
      {
        assert events[k].Known(creatures);
        match events[k] {
          case Ask(call) =>
            var pushed := Obey(call, 0);
          case Tick(index, thoughts) =>
            var visited;
            ghost var gone, pushed, path;
            visited, gone, pushed, path := CheckCreatures(index, thoughts);
        }
      }
    }
  }
}
