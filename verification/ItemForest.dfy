/**
 Saving and loading a player's items (src/io/iologindata.cpp: saveItems, loadItems, and the loops of
 loadPlayer that put the loaded items back into their containers).

 A forest of nested containers is written as flat rows (pid, sid, item), breadth first, with running ids
 from 101; a pid is a root slot below 100 or the sid of the container the item lies in.  Loading makes one
 item per row and then walks the sids downward, pushing every item to the front of its slot or container.
 */
module ItemForest {

  const FIRST_ID := 100     // runningId before the first row
  const ROOT_SLOTS := 100   // a pid below this is a root slot

  /** The columns that say what the item is. */
  datatype Payload = Payload(itemType: nat, count: nat, attributes: seq<int>)

  /** An item as a value; a container has items in it. */
  datatype Tree = Single(payload: Payload) | Container(payload: Payload, children: seq<Tree>)
  {
    function Inside(): seq<Tree> {
      if Container? then children else []
    }
  }

  datatype Root = Root(pid: nat, tree: Tree)

  datatype Row = Row(pid: nat, sid: nat, payload: Payload)

  /** What an item type number means to the server: it may have gone since the rows were written. */
  datatype Kind = Missing | Plain | Holder

  type Catalog = nat -> Kind

  predicate Alive(types: Catalog, p: Payload) {
    types(p.itemType) != Missing
  }

  // ----- Writing -------------------------------------------------------------------------------

  /** A container whose items are still to be written, under the id of its own row. */
  datatype Block = Block(parentId: nat, children: seq<Tree>)

  function Under(ts: seq<Tree>, pid: nat): (r: seq<Root>)
    ensures |r| == |ts| && forall k | 0 <= k < |ts| :: r[k] == Root(pid, ts[k])
  {
    if ts == [] then [] else [Root(pid, ts[0])] + Under(ts[1..], pid)
  }

  /** The rows of some items, numbered on from `id`. */
  function HeadRows(roots: seq<Root>, id: nat): (r: seq<Row>)
    ensures |r| == |roots|
    ensures forall k | 0 <= k < |roots| :: r[k] == Row(roots[k].pid, id + 1 + k, roots[k].tree.payload)
  {
    if roots == [] then []
    else [Row(roots[0].pid, id + 1, roots[0].tree.payload)] + HeadRows(roots[1..], id + 1)
  }

  /** The containers among them, in order. */
  function HeadBlocks(roots: seq<Root>, id: nat): seq<Block> {
    if roots == [] then []
    else
      (if roots[0].tree.Container? then [Block(id + 1, roots[0].tree.Inside())] else [])
      + HeadBlocks(roots[1..], id + 1)
  }

  /** The number of items in a forest. */
  function Size(ts: seq<Tree>): nat {
    if ts == [] then 0 else 1 + (if ts[0].Container? then Size(ts[0].children) else 0) + Size(ts[1..])
  }

  function Weight(queue: seq<Block>): nat {
    if queue == [] then 0 else 1 + Size(queue[0].children) + Weight(queue[1..])
  }

  lemma {:induction false} WeightOfSum(a: seq<Block>, b: seq<Block>)
    ensures Weight(a + b) == Weight(a) + Weight(b)
  {
    if a == [] {
      assert a + b == b;
    } else {
      assert (a + b)[1..] == a[1..] + b;
      WeightOfSum(a[1..], b);
    }
  }

  function TreesOf(roots: seq<Root>): (r: seq<Tree>)
    ensures |r| == |roots| && forall k | 0 <= k < |roots| :: r[k] == roots[k].tree
  {
    if roots == [] then [] else [roots[0].tree] + TreesOf(roots[1..])
  }

  lemma {:induction false} WeightOfHead(roots: seq<Root>, id: nat)
    ensures Weight(HeadBlocks(roots, id)) <= Size(TreesOf(roots))
  {
    if roots != [] {
      WeightOfHead(roots[1..], id + 1);
      var first := if roots[0].tree.Container? then [Block(id + 1, roots[0].tree.Inside())] else [];
      WeightOfSum(first, HeadBlocks(roots[1..], id + 1));
      assert TreesOf(roots)[1..] == TreesOf(roots[1..]);
      if roots[0].tree.Container? {
        assert first[1..] == [];
      }
    }
  }

  /** The items of the container in front of the queue. */
  function Popped(queue: seq<Block>): seq<Root>
    requires queue != []
  {
    Under(queue[0].children, queue[0].parentId)
  }

  /** The queue after one turn of the loop. */
  function Next(queue: seq<Block>, id: nat): seq<Block>
    requires queue != []
  {
    queue[1..] + HeadBlocks(Popped(queue), id)
  }

  /** Popping a container and queueing the containers in it makes the queue lighter. */
  lemma {:induction false} QueueShrinks(queue: seq<Block>, id: nat)
    requires queue != []
    ensures Weight(Next(queue, id)) < Weight(queue)
  {
    var head := Popped(queue);
    WeightOfSum(queue[1..], HeadBlocks(head, id));
    WeightOfHead(head, id);
    assert TreesOf(head) == queue[0].children;
  }

  /** The rows that a queue of containers still gives. */
  function Bfs(queue: seq<Block>, id: nat): seq<Row>
    decreases Weight(queue)
  {
    if queue == [] then []
    else
      QueueShrinks(queue, id);
      HeadRows(Popped(queue), id) + Bfs(Next(queue, id), id + |Popped(queue)|)
  }

  function RootBlocks(roots: seq<Root>): seq<Block> {
    HeadBlocks(roots, FIRST_ID)
  }

  /** All rows of a forest. */
  function Flatten(roots: seq<Root>): seq<Row> {
    HeadRows(roots, FIRST_ID) + Bfs(RootBlocks(roots), FIRST_ID + |roots|)
  }

  // ----- What the rows look like ---------------------------------------------------------------

  /** `Bfs` numbers its rows on from `id`; each lies in a queued container or in an earlier row's. */
  lemma {:induction false} BfsNumbers(queue: seq<Block>, id: nat, k: nat)
    requires forall b | b in queue :: b.parentId <= id
    requires k < |Bfs(queue, id)|
    ensures Bfs(queue, id)[k].sid == id + 1 + k
    ensures Bfs(queue, id)[k].pid <= id + k
    ensures Bfs(queue, id)[k].pid > id || exists b :: b in queue && b.parentId == Bfs(queue, id)[k].pid
    decreases Weight(queue)
  {
    var head, rest := Popped(queue), Next(queue, id);
    QueueShrinks(queue, id);
    var first, more := HeadRows(head, id), Bfs(rest, id + |head|);
    assert Bfs(queue, id) == first + more;
    if k < |head| {
      assert queue[0] in queue && Bfs(queue, id)[k] == first[k];
    } else {
      assert Bfs(queue, id)[k] == more[k - |head|];
      ParentsBelow(queue, head, id);
      BfsNumbers(rest, id + |head|, k - |head|);
      if more[k - |head|].pid <= id {
        var b :| b in rest && b.parentId == more[k - |head|].pid;
        FromTheQueue(queue, head, id, b);
      }
    }
  }

  lemma {:induction false} ParentsBelow(queue: seq<Block>, head: seq<Root>, id: nat)
    requires queue != [] && forall b | b in queue :: b.parentId <= id
    ensures forall b | b in queue[1..] + HeadBlocks(head, id) :: b.parentId <= id + |head|
  {
    HeadBlockIds(head, id);
    forall b | b in queue[1..] + HeadBlocks(head, id) ensures b.parentId <= id + |head| {
      if b in queue[1..] {
        assert b in queue;
      }
    }
  }

  lemma {:induction false} FromTheQueue(queue: seq<Block>, head: seq<Root>, id: nat, b: Block)
    requires queue != [] && b in queue[1..] + HeadBlocks(head, id) && b.parentId <= id
    ensures b in queue
  {
    HeadBlockIds(head, id);
  }

  predicate IsBlockOf(b: Block, roots: seq<Root>, id: nat) {
    && id < b.parentId <= id + |roots|
    && roots[b.parentId - id - 1].tree.Container?
    && b.children == roots[b.parentId - id - 1].tree.Inside()
  }

  /** The blocks of some rows are holders among them, each under its own row's id... */
  lemma {:induction false} HeadBlockIds(roots: seq<Root>, id: nat)
    ensures forall b | b in HeadBlocks(roots, id) :: IsBlockOf(b, roots, id)
  {
    if roots != [] {
      HeadBlockIds(roots[1..], id + 1);
      forall b | b in HeadBlocks(roots, id) ensures IsBlockOf(b, roots, id) {
        if b in HeadBlocks(roots[1..], id + 1) {
          assert IsBlockOf(b, roots[1..], id + 1);
        }
      }
    }
  }

  /** ...in ascending order... */
  lemma {:induction false} HeadBlocksAscend(roots: seq<Root>, id: nat)
    ensures forall i, j | 0 <= i < j < |HeadBlocks(roots, id)| ::
              HeadBlocks(roots, id)[i].parentId < HeadBlocks(roots, id)[j].parentId
  {
    if roots != [] {
      var tail := HeadBlocks(roots[1..], id + 1);
      HeadBlocksAscend(roots[1..], id + 1);
      HeadBlockIds(roots[1..], id + 1);
      assert forall i | 0 <= i < |tail| :: IsBlockOf(tail[i], roots[1..], id + 1);
    }
  }

  /** ...and all of them. */
  lemma {:induction false} HoldersAreQueued(roots: seq<Root>, id: nat, k: nat)
    requires k < |roots| && roots[k].tree.Container?
    ensures Block(id + 1 + k, roots[k].tree.Inside()) in HeadBlocks(roots, id)
  {
    if k > 0 {
      HoldersAreQueued(roots[1..], id + 1, k - 1);
    }
  }

  /** The items behind the rows of a queue, each with the id that it lies under. */
  function BfsRoots(queue: seq<Block>, id: nat): seq<Root>
    decreases Weight(queue)
  {
    if queue == [] then []
    else
      QueueShrinks(queue, id);
      Popped(queue) + BfsRoots(Next(queue, id), id + |Popped(queue)|)
  }

  /** The items behind all rows. */
  function Behind(roots: seq<Root>): seq<Root> {
    roots + BfsRoots(RootBlocks(roots), FIRST_ID + |roots|)
  }

  lemma {:induction false} BfsRows(queue: seq<Block>, id: nat, k: nat)
    ensures |Bfs(queue, id)| == |BfsRoots(queue, id)|
    ensures k < |Bfs(queue, id)| ==>
              Bfs(queue, id)[k] == Row(BfsRoots(queue, id)[k].pid, id + 1 + k, BfsRoots(queue, id)[k].tree.payload)
    decreases Weight(queue)
  {
    if queue != [] {
      QueueShrinks(queue, id);
      var head, rest := Popped(queue), Next(queue, id);
      var n := |head|;
      var first, more, roots := HeadRows(head, id), Bfs(rest, id + n), BfsRoots(rest, id + n);
      assert Bfs(queue, id) == first + more && BfsRoots(queue, id) == head + roots;
      hide *;
      BfsRows(rest, id + n, if k < n then 0 else k - n);
    }
  }

  /** The item behind row `k` lies in a container that was queued, or in one that was written before it. */
  ghost predicate LiesRight(queue: seq<Block>, id: nat, all: seq<Root>, k: nat)
    requires k < |all|
  {
    var x := all[k];
    if x.pid <= id then exists b :: b in queue && b.parentId == x.pid && x.tree in b.children
    else x.pid - id - 1 < k && x.tree in all[x.pid - id - 1].tree.Inside()
  }

  lemma {:induction false} BfsParents(queue: seq<Block>, id: nat, k: nat)
    requires k < |BfsRoots(queue, id)| && forall b | b in queue :: b.parentId <= id
    ensures LiesRight(queue, id, BfsRoots(queue, id), k)
    decreases Weight(queue)
  {
    QueueShrinks(queue, id);
    var head, rest := Popped(queue), Next(queue, id);
    var more := BfsRoots(rest, id + |head|);
    assert BfsRoots(queue, id) == head + more;
    hide BfsRoots, HeadBlocks, Next, LiesRight;
    if k < |head| {
      HeadLiesRight(queue, id, more, k);
    } else {
      ParentsBelow(queue, head, id);
      assert rest == queue[1..] + HeadBlocks(head, id) by { NextIs(queue, id); }
      BfsParents(rest, id + |head|, k - |head|);
      LaterLiesRight(queue, id, more, k);
    }
  }

  lemma {:induction false} NextIs(queue: seq<Block>, id: nat)
    requires queue != []
    ensures Next(queue, id) == queue[1..] + HeadBlocks(Popped(queue), id)
  {
  }

  lemma {:induction false} HeadLiesRight(queue: seq<Block>, id: nat, more: seq<Root>, k: nat)
    requires queue != [] && k < |Popped(queue)| && forall b | b in queue :: b.parentId <= id
    ensures LiesRight(queue, id, Popped(queue) + more, k)
  {
    assert queue[0] in queue && (Popped(queue) + more)[k] == Root(queue[0].parentId, queue[0].children[k]);
  }

  lemma {:induction false} LaterLiesRight(queue: seq<Block>, id: nat, more: seq<Root>, k: nat)
    requires queue != [] && |Popped(queue)| <= k < |Popped(queue)| + |more|
    requires forall b | b in queue :: b.parentId <= id
    requires LiesRight(Next(queue, id), id + |Popped(queue)|, more, k - |Popped(queue)|)
    ensures LiesRight(queue, id, Popped(queue) + more, k)
  {
    hide Next, HeadBlocks, Popped;
    var head := Popped(queue);
    var all, x := head + more, more[k - |head|];
    assert all[k] == x;
    if x.pid <= id + |head| {
      var b :| b in Next(queue, id) && b.parentId == x.pid && x.tree in b.children;
      FromHeadOrQueue(queue, head, id, b);
      assert x.pid > id ==> all[x.pid - id - 1] == head[x.pid - id - 1];
    } else {
      assert all[x.pid - id - 1] == more[x.pid - (id + |head|) - 1];
    }
  }

  lemma {:induction false} FromHeadOrQueue(queue: seq<Block>, head: seq<Root>, id: nat, b: Block)
    requires queue != [] && head == Popped(queue) && b in Next(queue, id) && forall c | c in queue :: c.parentId <= id
    ensures if b.parentId <= id then b in queue else IsBlockOf(b, head, id)
  {
    HeadBlockIds(head, id);
    if b in queue[1..] {
      assert b in queue;
    }
  }

  /** The ids are consecutive from 101, and every pid is a root slot below 100 or the id of an earlier row, that of the
      container in which the item of this row lies. */
  lemma {:induction false} RowIds(roots: seq<Root>, k: nat)
    requires forall j | 0 <= j < |roots| :: roots[j].pid < ROOT_SLOTS
    requires k < |Flatten(roots)|
    ensures |Behind(roots)| == |Flatten(roots)|
    ensures Flatten(roots)[k] == Row(Behind(roots)[k].pid, FIRST_ID + 1 + k, Behind(roots)[k].tree.payload)
    ensures Flatten(roots)[k].pid < ROOT_SLOTS
         || exists j | 0 <= j < k :: Flatten(roots)[k].pid == Flatten(roots)[j].sid
                                     && Behind(roots)[k].tree in Behind(roots)[j].tree.Inside()
  {
    BehindRow(roots, k);
    hide Bfs, BfsRoots, HeadBlocks, HeadRows, Behind, Flatten;
    if k >= |roots| {
      BehindParent(roots, k);
      BehindRow(roots, Behind(roots)[k].pid - FIRST_ID - 1);
    }
  }

  lemma {:induction false} BehindRow(roots: seq<Root>, k: nat)
    ensures |Behind(roots)| == |Flatten(roots)|
    ensures k < |Flatten(roots)| ==>
              Flatten(roots)[k] == Row(Behind(roots)[k].pid, FIRST_ID + 1 + k, Behind(roots)[k].tree.payload)
    ensures k < |roots| ==> k < |Behind(roots)| && Behind(roots)[k] == roots[k]
  {
    hide Bfs, BfsRoots, HeadBlocks;
    BfsRows(RootBlocks(roots), FIRST_ID + |roots|, if k < |roots| then 0 else k - |roots|);
  }

  lemma {:induction false} BehindParent(roots: seq<Root>, k: nat)
    requires |roots| <= k < |Behind(roots)|
    ensures FIRST_ID < Behind(roots)[k].pid <= FIRST_ID + k
    ensures Behind(roots)[k].tree in Behind(roots)[Behind(roots)[k].pid - FIRST_ID - 1].tree.Inside()
  {
    hide Bfs, BfsRoots, HeadBlocks, HeadRows;
    var blocks, id, n := RootBlocks(roots), FIRST_ID + |roots|, |roots|;
    HeadBlockIds(roots, FIRST_ID);
    assert forall b | b in blocks :: IsBlockOf(b, roots, FIRST_ID);
    BfsParents(blocks, id, k - n);
    var all := BfsRoots(blocks, id);
    var x := all[k - n];
    assert Behind(roots)[k] == x;
    if x.pid <= id {
      var b :| b in blocks && b.parentId == x.pid && x.tree in b.children;
      assert IsBlockOf(b, roots, FIRST_ID);
      assert Behind(roots)[x.pid - FIRST_ID - 1] == roots[x.pid - FIRST_ID - 1];
    } else {
      assert Behind(roots)[x.pid - FIRST_ID - 1] == all[x.pid - id - 1];
    }
  }

  ghost predicate Queued(queue: seq<Block>, id: nat) {
    && (forall i | 0 <= i < |queue| :: queue[i].parentId <= id)
    && forall i, j | 0 <= i < j < |queue| :: queue[i].parentId < queue[j].parentId
  }

  lemma {:induction false} NextIsQueued(queue: seq<Block>, id: nat)
    requires queue != [] && Queued(queue, id)
    ensures Queued(Next(queue, id), id + |Popped(queue)|)
    ensures Next(queue, id) != [] ==> queue[0].parentId < Next(queue, id)[0].parentId
  {
    var blocks := HeadBlocks(Popped(queue), id);
    HeadBlocksAscend(Popped(queue), id);
    HeadBlockIds(Popped(queue), id);
    assert forall i | 0 <= i < |blocks| :: IsBlockOf(blocks[i], Popped(queue), id);
    hide HeadBlocks;
  }

  lemma {:induction false} BfsPidsAscend(queue: seq<Block>, id: nat, i: nat, j: nat)
    requires Queued(queue, id) && i <= j < |Bfs(queue, id)|
    ensures queue != [] && queue[0].parentId <= Bfs(queue, id)[i].pid <= Bfs(queue, id)[j].pid
    decreases Weight(queue)
  {
    hide *;
    BfsFirst(queue, id);
    NextIsQueued(queue, id);
    var n, rest := |Popped(queue)|, Next(queue, id);
    if j >= n {
      BfsPidsAscend(rest, id + n, if i < n then 0 else i - n, j - n);
    }
  }

  lemma {:induction false} BfsFirst(queue: seq<Block>, id: nat)
    ensures queue == [] ==> Bfs(queue, id) == []
    ensures queue != [] ==>
              var n, rest := |Popped(queue)|, Next(queue, id);
              && Weight(rest) < Weight(queue) && |Bfs(queue, id)| == n + |Bfs(rest, id + n)|
              && (forall k | 0 <= k < n :: Bfs(queue, id)[k].pid == queue[0].parentId)
              && forall k | n <= k < |Bfs(queue, id)| :: Bfs(queue, id)[k] == Bfs(rest, id + n)[k - n]
  {
    hide *;
    BfsSplits(queue, id);
    if queue != [] {
      QueueShrinks(queue, id);
      var head := Popped(queue);
      var first, more := HeadRows(head, id), Bfs(Next(queue, id), id + |head|);
      assert forall k | 0 <= k < |head| :: (first + more)[k] == first[k];
      assert forall k | |head| <= k < |first + more| :: (first + more)[k] == more[k - |head|];
    }
  }

  lemma {:induction false} BfsSplits(queue: seq<Block>, id: nat)
    ensures queue == [] ==> Bfs(queue, id) == []
    ensures queue != [] ==>
              Bfs(queue, id) == HeadRows(Popped(queue), id) + Bfs(Next(queue, id), id + |Popped(queue)|)
    ensures queue != [] ==> Popped(queue) == Under(queue[0].children, queue[0].parentId)
  {
    hide HeadRows, HeadBlocks, Next, Under;
  }

  lemma {:induction false} RootsAreQueued(roots: seq<Root>)
    ensures Queued(RootBlocks(roots), FIRST_ID + |roots|)
  {
    HeadBlocksAscend(roots, FIRST_ID);
    HeadBlockIds(roots, FIRST_ID);
    hide HeadBlocks;
    assert forall i | 0 <= i < |RootBlocks(roots)| :: IsBlockOf(RootBlocks(roots)[i], roots, FIRST_ID);
  }

  /** The roots come first, in order, and behind them the pids ascend: what lies in a container comes before what lies
      in those written later. */
  lemma {:induction false} BreadthFirst(roots: seq<Root>)
    ensures |roots| <= |Flatten(roots)|
    ensures forall k | 0 <= k < |roots| :: Flatten(roots)[k] == Row(roots[k].pid, 101 + k, roots[k].tree.payload)
    ensures forall i, j | |roots| <= i < j < |Flatten(roots)| :: Flatten(roots)[i].pid <= Flatten(roots)[j].pid
  {
    var n := |roots|;
    var first, more := HeadRows(roots, FIRST_ID), Bfs(RootBlocks(roots), FIRST_ID + n);
    assert Flatten(roots) == first + more;
    RootsAreQueued(roots);
    hide Bfs, HeadRows, HeadBlocks, Queued, RootBlocks, Flatten;
    forall i, j | n <= i < j < |Flatten(roots)|
      ensures Flatten(roots)[i].pid <= Flatten(roots)[j].pid
    {
      BfsPidsAscend(RootBlocks(roots), FIRST_ID + n, i - n, j - n);
    }
  }

  // ----- Reading back, on values ---------------------------------------------------------------

  /** The loaded items by sid: a later row with the same sid replaces an earlier one. */
  function Table(rows: seq<Row>, types: Catalog): map<nat, Row> {
    if rows == [] then map[]
    else
      var last := rows[|rows| - 1];
      var before := Table(rows[..|rows| - 1], types);
      if Alive(types, last.payload) then before[last.sid := last] else before
  }

  /** Of the rows of a living type with that sid, the last one is in the table. */
  lemma {:induction false} LastRowCounts(rows: seq<Row>, types: Catalog, sid: nat)
    ensures sid in Table(rows, types)
       <==> exists k | 0 <= k < |rows| :: rows[k].sid == sid && types(rows[k].payload.itemType) != Missing
    ensures sid in Table(rows, types) ==>
              exists k | 0 <= k < |rows| ::
                && rows[k] == Table(rows, types)[sid]
                && forall j | k < j < |rows| && rows[j].sid == sid :: types(rows[j].payload.itemType) == Missing
    decreases |rows|
  {
    if rows != [] {
      var n := |rows| - 1;
      var before := rows[..n];
      LastRowCounts(before, types, sid);
      assert forall k | 0 <= k < n :: before[k] == rows[k];
      if rows[n].sid == sid && Alive(types, rows[n].payload) {
        assert Table(rows, types)[sid] == rows[n];
      } else if sid in Table(before, types) {
        var k :| 0 <= k < |before| && before[k] == Table(before, types)[sid]
                 && forall j | k < j < |before| && before[j].sid == sid :: types(before[j].payload.itemType) == Missing;
        assert rows[k] == Table(rows, types)[sid];
        assert forall j | k < j < n && rows[j].sid == sid ::
            before[j].sid == sid && types(before[j].payload.itemType) == Missing;
      }
    }
  }

  /** The forest under `pid` that the table spells out, from the items with `lo <= sid < hi`. */
  function Grow(table: map<nat, Row>, types: Catalog, pid: nat, lo: nat, hi: nat): seq<Tree>
    decreases hi - lo
  {
    if lo >= hi then []
    else
      (if lo in table && table[lo].pid == pid then [Unfold(table, types, lo, hi)] else [])
      + Grow(table, types, pid, lo + 1, hi)
  }

  /** The item with id `sid` and what lies in it. */
  function Unfold(table: map<nat, Row>, types: Catalog, sid: nat, hi: nat): Tree
    requires sid in table
    requires sid < hi
    decreases hi - sid, 0
  {
    var payload := table[sid].payload;
    if types(payload.itemType) == Holder then Container(payload, Grow(table, types, sid, sid + 1, hi))
    else Single(payload)
  }

  /** What is left of a forest when item types are gone: an item of a missing type vanishes with all that
      lies in it, and so do the contents of a type that is no container any more. */
  function PruneAll(ts: seq<Tree>, types: Catalog): seq<Tree> {
    if ts == [] then []
    else (if Alive(types, ts[0].payload) then [Prune(ts[0], types)] else []) + PruneAll(ts[1..], types)
  }

  function Prune(t: Tree, types: Catalog): Tree {
    if types(t.payload.itemType) == Holder then
      Container(t.payload, if t.Container? then PruneAll(t.children, types) else [])
    else Single(t.payload)
  }

  /** The trees at one slot, in order. */
  function TreesAt(roots: seq<Root>, pid: nat): seq<Tree> {
    if roots == [] then []
    else (if roots[0].pid == pid then [roots[0].tree] else []) + TreesAt(roots[1..], pid)
  }

  // ----- The forest grows back -----------------------------------------------------------------

  ghost predicate RowIn(table: map<nat, Row>, types: Catalog, row: Row, sid: nat) {
    if Alive(types, row.payload) then sid in table && table[sid] == row else sid !in table
  }

  /** The row of an item that was given the id `sid`. */
  ghost predicate RootIn(table: map<nat, Row>, types: Catalog, root: Root, sid: nat) {
    RowIn(table, types, Row(root.pid, sid, root.tree.payload), sid)
  }

  /** From `id` on, the table holds the rows that are alive and nothing else. */
  ghost predicate Agrees(table: map<nat, Row>, types: Catalog, rows: seq<Row>, id: nat, hi: nat) {
    && id + |rows| < hi
    && (forall k | 0 <= k < |rows| :: RowIn(table, types, rows[k], id + 1 + k))
    && forall s | id + |rows| < s < hi :: s !in table
  }

  lemma {:induction false} AgreesSplits(
      table: map<nat, Row>, types: Catalog, first: seq<Row>, rest: seq<Row>, id: nat, hi: nat)
    requires Agrees(table, types, first + rest, id, hi)
    ensures forall k | 0 <= k < |first| :: RowIn(table, types, first[k], id + 1 + k)
    ensures Agrees(table, types, rest, id + |first|, hi)
  {
    var rows := first + rest;
    forall k | 0 <= k < |first| ensures RowIn(table, types, first[k], id + 1 + k) {
      assert rows[k] == first[k];
    }
    forall k | 0 <= k < |rest| ensures RowIn(table, types, rest[k], id + |first| + 1 + k) {
      assert RowIn(table, types, rows[|first| + k], id + 1 + (|first| + k));
    }
  }

  /** Ids whose rows lie elsewhere add nothing. */
  lemma {:induction false} GrowSkips(table: map<nat, Row>, types: Catalog, pid: nat, lo: nat, mid: nat, hi: nat)
    requires lo <= mid <= hi
    requires forall s | lo <= s < mid && s in table :: table[s].pid != pid
    ensures Grow(table, types, pid, lo, hi) == Grow(table, types, pid, mid, hi)
    decreases mid - lo
  {
    if lo < mid {
      GrowSkips(table, types, pid, lo + 1, mid, hi);
    }
  }

  /** The table holds the rows of `roots`, and what lies in each of them grows back. */
  ghost predicate HeadReady(table: map<nat, Row>, types: Catalog, roots: seq<Root>, id: nat, hi: nat) {
    && id + |roots| < hi
    && forall k | 0 <= k < |roots| :: ItemReady(table, types, roots[k], id + 1 + k, hi)
  }

  ghost predicate ItemReady(table: map<nat, Row>, types: Catalog, root: Root, sid: nat, hi: nat)
    requires sid < hi
  {
    if Alive(types, root.tree.payload) then
      && sid in table
      && table[sid] == Row(root.pid, sid, root.tree.payload)
      && Unfold(table, types, sid, hi) == Prune(root.tree, types)
    else
      sid !in table
  }

  /** Then the rows grow back into the items. */
  lemma {:induction false} HeadGrows(table: map<nat, Row>, types: Catalog, roots: seq<Root>, id: nat,
                                     k: nat, pid: nat, hi: nat)
    requires HeadReady(table, types, roots, id, hi)
    requires k <= |roots|
    ensures Grow(table, types, pid, id + 1 + k, hi)
         == PruneAll(TreesAt(roots[k..], pid), types) + Grow(table, types, pid, id + 1 + |roots|, hi)
    decreases |roots| - k
  {
    hide Unfold, Prune, Alive;
    if k < |roots| {
      HeadGrows(table, types, roots, id, k + 1, pid, hi);
      assert roots[k..][1..] == roots[k + 1..];
      assert ItemReady(table, types, roots[k], id + 1 + k, hi);
      hide HeadReady;
      var rest := TreesAt(roots[k + 1..], pid);
      if roots[k].pid == pid {
        assert TreesAt(roots[k..], pid) == [roots[k].tree] + rest;
        assert ([roots[k].tree] + rest)[1..] == rest;
      } else {
        assert TreesAt(roots[k..], pid) == rest;
      }
    }
  }

  /** What the queue says lies in the container with id `pid`. */
  function Contents(queue: seq<Block>, pid: nat): seq<Tree> {
    if queue == [] then []
    else if queue[0].parentId == pid then queue[0].children
    else Contents(queue[1..], pid)
  }

  /** A queue as the loop has it: known ids, and no container twice. */
  ghost predicate Sound(queue: seq<Block>, id: nat) {
    && (forall i | 0 <= i < |queue| :: queue[i].parentId <= id)
    && (forall i, j | 0 <= i < j < |queue| :: queue[i].parentId != queue[j].parentId)
  }

  lemma {:induction false} NoContents(queue: seq<Block>, pid: nat)
    requires forall i | 0 <= i < |queue| :: queue[i].parentId != pid
    ensures Contents(queue, pid) == []
  {
    if queue != [] {
      assert queue[0].parentId != pid;
      forall i | 0 <= i < |queue[1..]| ensures queue[1..][i].parentId != pid {
        assert queue[1..][i] == queue[i + 1];
      }
      NoContents(queue[1..], pid);
    }
  }

  lemma {:induction false} ContentsOfSum(a: seq<Block>, b: seq<Block>, pid: nat)
    requires forall i | 0 <= i < |a| :: a[i].parentId != pid
    ensures Contents(a + b, pid) == Contents(b, pid)
  {
    if a == [] {
      assert a + b == b;
    } else {
      assert (a + b)[1..] == a[1..] + b;
      forall i | 0 <= i < |a[1..]| ensures a[1..][i].parentId != pid {
        assert a[1..][i] == a[i + 1];
      }
      ContentsOfSum(a[1..], b, pid);
    }
  }

  lemma {:induction false} ContentsOfPrefix(a: seq<Block>, b: seq<Block>, pid: nat)
    requires forall i | 0 <= i < |b| :: b[i].parentId != pid
    ensures Contents(a + b, pid) == Contents(a, pid)
  {
    if a == [] {
      assert a + b == b;
      NoContents(b, pid);
    } else {
      assert (a + b)[1..] == a[1..] + b;
      ContentsOfPrefix(a[1..], b, pid);
    }
  }

  lemma {:induction false} ContentsOf(queue: seq<Block>, k: nat)
    requires k < |queue|
    requires forall i, j | 0 <= i < j < |queue| :: queue[i].parentId != queue[j].parentId
    ensures Contents(queue, queue[k].parentId) == queue[k].children
  {
    if k > 0 {
      assert queue[0].parentId != queue[k].parentId;
      ContentsOf(queue[1..], k - 1);
    }
  }

  /** What the queued containers say of a row just numbered. */
  lemma {:induction false} ContentsOfHead(roots: seq<Root>, id: nat, k: nat)
    requires k < |roots|
    ensures Contents(HeadBlocks(roots, id), id + 1 + k)
         == roots[k].tree.Inside()
  {
    var blocks := HeadBlocks(roots, id);
    if roots[k].tree.Container? {
      HoldersAreQueued(roots, id, k);
      HeadBlocksAscend(roots, id);
      var i :| 0 <= i < |blocks| && blocks[i] == Block(id + 1 + k, roots[k].tree.Inside());
      ContentsOf(blocks, i);
    } else {
      HeadBlockIds(roots, id);
      forall i | 0 <= i < |blocks| ensures blocks[i].parentId != id + 1 + k {
        assert IsBlockOf(blocks[i], roots, id);
      }
      NoContents(blocks, id + 1 + k);
    }
  }

  lemma {:induction false} TreesUnder(ts: seq<Tree>, parentId: nat, pid: nat)
    ensures TreesAt(Under(ts, parentId), pid) == if pid == parentId then ts else []
  {
    if ts != [] {
      assert Under(ts, parentId)[1..] == Under(ts[1..], parentId);
      TreesUnder(ts[1..], parentId, pid);
    }
  }

  /** Queueing the containers of a block that was popped keeps the queue sound. */
  lemma {:induction false} StaysSound(blocks: seq<Block>, roots: seq<Root>, id: nat)
    requires Sound(blocks, id)
    ensures Sound(blocks + HeadBlocks(roots, id), id + |roots|)
  {
    var head := HeadBlocks(roots, id);
    HeadBlockIds(roots, id);
    HeadBlocksAscend(roots, id);
    assert forall i | 0 <= i < |head| :: IsBlockOf(head[i], roots, id);
  }

  lemma {:induction false} SoundNext(queue: seq<Block>, id: nat)
    requires queue != [] && Sound(queue, id)
    ensures Sound(Next(queue, id), id + |Popped(queue)|)
  {
    hide HeadBlocks, Under;
    assert forall i | 0 <= i < |queue[1..]| :: queue[1..][i] == queue[i + 1];
    assert Sound(queue[1..], id);
    StaysSound(queue[1..], Popped(queue), id);
  }

  /** One turn of the loop: the table holds the popped container's rows, and agrees with the rest. */
  lemma {:induction false} AfterPop(table: map<nat, Row>, types: Catalog, queue: seq<Block>, id: nat, hi: nat)
    requires queue != [] && Sound(queue, id)
    requires Agrees(table, types, Bfs(queue, id), id, hi)
    ensures Weight(Next(queue, id)) < Weight(queue)
    ensures Sound(Next(queue, id), id + |Popped(queue)|)
    ensures Agrees(table, types, Bfs(Next(queue, id), id + |Popped(queue)|), id + |Popped(queue)|, hi)
    ensures id + |Popped(queue)| < hi
    ensures forall k | 0 <= k < |Popped(queue)| ::
              Popped(queue)[k].pid <= id && RootIn(table, types, Popped(queue)[k], id + 1 + k)
  {
    assert queue[0].parentId <= id;
    assert Bfs(queue, id) == HeadRows(Popped(queue), id) + Bfs(Next(queue, id), id + |Popped(queue)|);
    hide Bfs, HeadBlocks, Sound, Weight;
    QueueShrinks(queue, id);
    SoundNext(queue, id);
    var first, rows := HeadRows(Popped(queue), id), Bfs(Next(queue, id), id + |Popped(queue)|);
    AgreesSplits(table, types, first, rows, id, hi);
    forall k | 0 <= k < |Popped(queue)| ensures RootIn(table, types, Popped(queue)[k], id + 1 + k) {
      assert RowIn(table, types, first[k], id + 1 + k);
    }
  }

  /** What a queue still has to write grows back from its rows. */
  lemma {:induction false} BfsGrows(table: map<nat, Row>, types: Catalog, queue: seq<Block>, id: nat,
                                    pid: nat, hi: nat)
    requires Sound(queue, id) && pid <= id
    requires Agrees(table, types, Bfs(queue, id), id, hi)
    ensures Grow(table, types, pid, id + 1, hi) == PruneAll(Contents(queue, pid), types)
    decreases Weight(queue), 2
  {
    if queue == [] {
      GrowSkips(table, types, pid, id + 1, hi, hi);
    } else {
      AfterPop(table, types, queue, id, hi);
      BfsGrows(table, types, Next(queue, id), id + |Popped(queue)|, pid, hi);
      ChildrenReady(table, types, queue, id, hi);
      PoppedGrows(table, types, queue, id, pid, hi);
    }
  }

  lemma {:induction false} ChildrenReady(table: map<nat, Row>, types: Catalog, queue: seq<Block>, id: nat, hi: nat)
    requires queue != [] && Sound(queue, id)
    requires Agrees(table, types, Bfs(queue, id), id, hi)
    ensures HeadReady(table, types, Popped(queue), id, hi)
    decreases Weight(queue), 1
  {
    AfterPop(table, types, queue, id, hi);
    var head := Popped(queue);
    forall k | 0 <= k < |head| ensures ItemReady(table, types, head[k], id + 1 + k, hi) {
      ChildGrows(table, types, queue, id, k, hi);
      assert RootIn(table, types, head[k], id + 1 + k);
    }
  }

  /** The popped container's rows on top of what the rest of the queue gives. */
  lemma {:induction false} PoppedGrows(
      table: map<nat, Row>, types: Catalog, queue: seq<Block>, id: nat, pid: nat, hi: nat)
    requires queue != [] && Sound(queue, id) && pid <= id
    requires HeadReady(table, types, Popped(queue), id, hi)
    requires Grow(table, types, pid, id + 1 + |Popped(queue)|, hi)
          == PruneAll(Contents(Next(queue, id), pid), types)
    ensures Grow(table, types, pid, id + 1, hi) == PruneAll(Contents(queue, pid), types)
  {
    assert PruneAll([], types) == [];
    assert Popped(queue) == Under(queue[0].children, queue[0].parentId);
    hide *;
    HeadGrows(table, types, Popped(queue), id, 0, pid, hi);
    assert Popped(queue)[0..] == Popped(queue);
    TreesUnder(queue[0].children, queue[0].parentId, pid);
    ContentsAfterPop(queue, id, pid);
  }

  /** Between a row's own id and the last id of its block no row lies in it. */
  lemma {:induction false} NothingInBetween(
      table: map<nat, Row>, types: Catalog, head: seq<Root>, id: nat, k: nat, hi: nat)
    requires k < |head| && id + |head| < hi
    requires forall j | 0 <= j < |head| :: head[j].pid <= id && RootIn(table, types, head[j], id + 1 + j)
    ensures Grow(table, types, id + 1 + k, id + 2 + k, hi) == Grow(table, types, id + 1 + k, id + |head| + 1, hi)
  {
    var sid := id + 1 + k;
    forall s | sid + 1 <= s < id + |head| + 1 && s in table ensures table[s].pid != sid {
      var j := s - id - 1;
      assert RootIn(table, types, head[j], id + 1 + j);
    }
    GrowSkips(table, types, sid, sid + 1, id + |head| + 1, hi);
  }

  /** The queue after the pop has the contents of the popped container's children. */
  lemma {:induction false} ContentsOfChild(queue: seq<Block>, id: nat, k: nat)
    requires queue != [] && Sound(queue, id) && k < |Popped(queue)|
    ensures Contents(Next(queue, id), id + 1 + k) == Popped(queue)[k].tree.Inside()
  {
    var head := Popped(queue);
    assert forall i | 0 <= i < |queue[1..]| :: queue[1..][i] == queue[i + 1];
    ContentsOfSum(queue[1..], HeadBlocks(head, id), id + 1 + k);
    ContentsOfHead(head, id, k);
  }

  /** What lies in a child of the popped container grows back. */
  lemma {:induction false} ChildGrows(table: map<nat, Row>, types: Catalog, queue: seq<Block>, id: nat,
                                      k: nat, hi: nat)
    requires queue != [] && Sound(queue, id) && k < |Popped(queue)|
    requires Agrees(table, types, Bfs(queue, id), id, hi)
    ensures Grow(table, types, id + 1 + k, id + 2 + k, hi)
         == PruneAll(Popped(queue)[k].tree.Inside(), types)
    decreases Weight(queue), 0
  {
    hide *;
    AfterPop(table, types, queue, id, hi);
    var head, sid := Popped(queue), id + 1 + k;
    NothingInBetween(table, types, head, id, k, hi);
    BfsGrows(table, types, Next(queue, id), id + |head|, sid, hi);
    ContentsOfChild(queue, id, k);
  }

  /** The queue after the pop says the same of every container but the popped one. */
  lemma {:induction false} ContentsAfterPop(queue: seq<Block>, id: nat, pid: nat)
    requires queue != [] && Sound(queue, id) && pid <= id
    ensures Contents(Next(queue, id), pid)
         == if pid == queue[0].parentId then [] else Contents(queue, pid)
    ensures pid == queue[0].parentId ==> Contents(queue, pid) == queue[0].children
  {
    var head := Popped(queue);
    var blocks := HeadBlocks(head, id);
    HeadBlockIds(head, id);
    assert forall i | 0 <= i < |blocks| :: IsBlockOf(blocks[i], head, id);
    ContentsOfPrefix(queue[1..], blocks, pid);
    if pid == queue[0].parentId {
      assert forall i | 0 <= i < |queue[1..]| :: queue[1..][i] == queue[i + 1];
      NoContents(queue[1..], pid);
    }
  }

  // ----- The whole round trip, on values -------------------------------------------------------

  lemma {:induction false} TableSound(rows: seq<Row>, types: Catalog, sid: nat)
    requires sid in Table(rows, types)
    ensures Table(rows, types)[sid] in rows
    ensures Table(rows, types)[sid].sid == sid && Alive(types, Table(rows, types)[sid].payload)
  {
    if rows != [] {
      var last := rows[|rows| - 1];
      if !(Alive(types, last.payload) && last.sid == sid) {
        TableSound(rows[..|rows| - 1], types, sid);
      }
    }
  }

  lemma {:induction false} TableComplete(rows: seq<Row>, types: Catalog, row: Row)
    requires forall a, b | a in rows && b in rows && a.sid == b.sid :: a == b
    requires row in rows && Alive(types, row.payload)
    ensures row.sid in Table(rows, types) && Table(rows, types)[row.sid] == row
  {
    var last, before := rows[|rows| - 1], rows[..|rows| - 1];
    assert rows == before + [last];
    if row != last {
      TableComplete(before, types, row);
    }
  }

  /** Whatever order the rows come back in, the table is that of the rows that were written. */
  lemma {:induction false} TableAgrees(roots: seq<Root>, types: Catalog, rows: seq<Row>, hi: nat)
    requires forall k | 0 <= k < |roots| :: roots[k].pid < ROOT_SLOTS
    requires forall r :: r in rows <==> r in Flatten(roots)
    requires FIRST_ID + |Flatten(roots)| < hi
    ensures Agrees(Table(rows, types), types, Flatten(roots), FIRST_ID, hi)
    ensures forall s | s in Table(rows, types) :: s > FIRST_ID
  {
    hide Flatten, Table, Behind;
    var written, table := Flatten(roots), Table(rows, types);
    forall k | 0 <= k < |written| ensures written[k].sid == FIRST_ID + 1 + k {
      RowIds(roots, k);
    }
    forall s | s in table ensures WrittenAt(written, types, table[s], s) {
      TableSound(rows, types, s);
      var k :| 0 <= k < |written| && written[k] == table[s];
    }
    forall k | 0 <= k < |written| ensures RowIn(table, types, written[k], FIRST_ID + 1 + k) {
      if Alive(types, written[k].payload) {
        assert written[k] in written;
        TableComplete(rows, types, written[k]);
      } else {
        assert FIRST_ID + 1 + k in table ==> WrittenAt(written, types, table[FIRST_ID + 1 + k], FIRST_ID + 1 + k);
      }
    }
    assert forall s | s in table :: s <= FIRST_ID + |written|;
  }

  predicate WrittenAt(written: seq<Row>, types: Catalog, row: Row, sid: nat) {
    FIRST_ID < sid <= FIRST_ID + |written| && row == written[sid - FIRST_ID - 1] && Alive(types, row.payload)
  }

  ghost predicate Rooted(roots: seq<Root>) {
    forall k | 0 <= k < |roots| :: roots[k].pid < ROOT_SLOTS
  }

  /** After the rows of the roots: they are in the table, and the queue is ready. */
  lemma {:induction false} AfterRoots(table: map<nat, Row>, types: Catalog, roots: seq<Root>, hi: nat)
    requires Rooted(roots)
    requires Agrees(table, types, Flatten(roots), FIRST_ID, hi)
    ensures FIRST_ID + |roots| < hi
    ensures forall k | 0 <= k < |roots| ::
              roots[k].pid <= FIRST_ID && RootIn(table, types, roots[k], FIRST_ID + 1 + k)
    ensures Sound(RootBlocks(roots), FIRST_ID + |roots|)
    ensures Agrees(table, types, Bfs(RootBlocks(roots), FIRST_ID + |roots|), FIRST_ID + |roots|, hi)
  {
    hide Bfs, HeadBlocks, Agrees;
    var first := HeadRows(roots, FIRST_ID);
    AgreesSplits(table, types, first, Bfs(RootBlocks(roots), FIRST_ID + |roots|), FIRST_ID, hi);
    StaysSound([], roots, FIRST_ID);
    assert [] + RootBlocks(roots) == RootBlocks(roots);
    forall k | 0 <= k < |roots| ensures RootIn(table, types, roots[k], FIRST_ID + 1 + k) {
      assert RowIn(table, types, first[k], FIRST_ID + 1 + k);
    }
  }

  lemma {:induction false} RootGrows(table: map<nat, Row>, types: Catalog, roots: seq<Root>, k: nat, hi: nat)
    requires Rooted(roots) && k < |roots|
    requires Agrees(table, types, Flatten(roots), FIRST_ID, hi)
    ensures Grow(table, types, FIRST_ID + 1 + k, FIRST_ID + 2 + k, hi) == PruneAll(roots[k].tree.Inside(), types)
  {
    hide Agrees, Sound, Bfs, Flatten, Contents, HeadBlocks, Grow, PruneAll;
    AfterRoots(table, types, roots, hi);
    NothingInBetween(table, types, roots, FIRST_ID, k, hi);
    BfsGrows(table, types, RootBlocks(roots), FIRST_ID + |roots|, FIRST_ID + 1 + k, hi);
    ContentsOfHead(roots, FIRST_ID, k);
  }

  lemma {:induction false} RootsReady(table: map<nat, Row>, types: Catalog, roots: seq<Root>, hi: nat)
    requires Rooted(roots)
    requires Agrees(table, types, Flatten(roots), FIRST_ID, hi)
    ensures HeadReady(table, types, roots, FIRST_ID, hi)
  {
    AfterRoots(table, types, roots, hi);
    forall k | 0 <= k < |roots| ensures ItemReady(table, types, roots[k], FIRST_ID + 1 + k, hi) {
      RootGrows(table, types, roots, k, hi);
      assert RootIn(table, types, roots[k], FIRST_ID + 1 + k);
    }
  }

  /** Only the roots' own rows name a slot. */
  lemma {:induction false} SlotsAreRoots(table: map<nat, Row>, types: Catalog, roots: seq<Root>, pid: nat, hi: nat)
    requires Rooted(roots) && pid < ROOT_SLOTS
    requires Agrees(table, types, Flatten(roots), FIRST_ID, hi)
    ensures Grow(table, types, pid, FIRST_ID + |roots| + 1, hi) == []
  {
    var blocks := RootBlocks(roots);
    AfterRoots(table, types, roots, hi);
    BfsGrows(table, types, blocks, FIRST_ID + |roots|, pid, hi);
    HeadBlockIds(roots, FIRST_ID);
    forall i | 0 <= i < |blocks| ensures blocks[i].parentId != pid {
      assert IsBlockOf(blocks[i], roots, FIRST_ID);
    }
    NoContents(blocks, pid);
  }

  /** Loading the saved rows gives every slot its forest back: the same items in the same nesting and order,
      but for what item types that have gone take with them. */
  lemma {:induction false} RoundTrip(roots: seq<Root>, types: Catalog, rows: seq<Row>, pid: nat, hi: nat)
    requires Rooted(roots) && pid < ROOT_SLOTS
    requires forall r :: r in rows <==> r in Flatten(roots)
    requires FIRST_ID + |Flatten(roots)| < hi
    ensures Grow(Table(rows, types), types, pid, 0, hi) == PruneAll(TreesAt(roots, pid), types)
  {
    var table := Table(rows, types);
    TableAgrees(roots, types, rows, hi);
    RootsReady(table, types, roots, hi);
    SlotGrows(table, types, roots, pid, hi);
  }

  lemma {:induction false} SlotGrows(table: map<nat, Row>, types: Catalog, roots: seq<Root>, pid: nat, hi: nat)
    requires Rooted(roots) && pid < ROOT_SLOTS
    requires Agrees(table, types, Flatten(roots), FIRST_ID, hi)
    requires HeadReady(table, types, roots, FIRST_ID, hi)
    requires forall s | s in table :: s > FIRST_ID
    ensures Grow(table, types, pid, 0, hi) == PruneAll(TreesAt(roots, pid), types)
  {
    GrowSkips(table, types, pid, 0, FIRST_ID + 1, hi);
    SlotsAreRoots(table, types, roots, pid, hi);
    HeadGrows(table, types, roots, FIRST_ID, 0, pid, hi);
    assert roots[0..] == roots;
  }

  /** With no type gone and none that changed between container and plain item, nothing is lost. */
  lemma {:induction false} PruneIsIdentity(ts: seq<Tree>, types: Catalog)
    requires Unchanged(ts, types)
    ensures PruneAll(ts, types) == ts
  {
    if ts != [] {
      if ts[0].Container? {
        PruneIsIdentity(ts[0].children, types);
      }
      PruneIsIdentity(ts[1..], types);
    }
  }

  predicate Unchanged(ts: seq<Tree>, types: Catalog) {
    forall k | 0 <= k < |ts| ::
      && types(ts[k].payload.itemType) == (if ts[k].Container? then Holder else Plain)
      && (ts[k].Container? ==> Unchanged(ts[k].children, types))
  }

  // ----- The objects ---------------------------------------------------------------------------

  class Item {
    const payload: Payload
    const isContainer: bool
    var itemList: seq<Item>

    constructor (payload: Payload, isContainer: bool)
      ensures this.payload == payload && this.isContainer == isContainer && itemList == []
    {
      this.payload, this.isContainer := payload, isContainer;
      itemList := [];
    }

    /** Container::internalAddThing puts the item in front. */
    method InternalAddThing(item: Item)
      modifies `itemList
      ensures itemList == [item] + old(itemList)
    {
      itemList := [item] + itemList;
    }
  }

  /** The object `item` and what it holds spell out the tree `t`. */
  ghost predicate Represents(item: Item, t: Tree, items: set<Item>)
    reads items
    decreases t
  {
    && item in items
    && item.payload == t.payload && item.isContainer == t.Container?
    && (t.Container? ==>
          && |item.itemList| == |t.children|
          && forall k | 0 <= k < |t.children| :: Represents(item.itemList[k], t.children[k], items))
  }

  // ----- saveItems -----------------------------------------------------------------------------

  lemma {:induction false} HeadBlocksGrow(roots: seq<Root>, k: nat, id: nat)
    requires k < |roots|
    ensures HeadBlocks(roots[..k + 1], id)
         == HeadBlocks(roots[..k], id)
            + (if roots[k].tree.Container? then [Block(id + 1 + k, roots[k].tree.Inside())] else [])
  {
    if k == 0 {
      assert roots[..1] == [roots[0]] && roots[..1][1..] == [];
    } else {
      assert roots[..k + 1][1..] == roots[1..][..k] && roots[..k][1..] == roots[1..][..k - 1];
      HeadBlocksGrow(roots[1..], k - 1, id + 1);
    }
  }

  /** A queued container object stands for a block. */
  ghost predicate EntryAgrees(entry: (Item, nat), block: Block, items: set<Item>)
    reads items
  {
    && entry.0 in items && entry.1 == block.parentId
    && |entry.0.itemList| == |block.children|
    && forall k | 0 <= k < |block.children| :: Represents(entry.0.itemList[k], block.children[k], items)
  }

  ghost predicate QueueAgrees(queue: seq<(Item, nat)>, blocks: seq<Block>, items: set<Item>)
    reads items
  {
    |queue| == |blocks| && forall i | 0 <= i < |queue| :: EntryAgrees(queue[i], blocks[i], items)
  }

  /** Numbers one item and queues it if it is a container. */
  method WriteItem(item: Item, pid: nat, runningId: nat, queue: seq<(Item, nat)>,
                   ghost blocks: seq<Block>, ghost t: Tree, ghost items: set<Item>)
    returns (row: Row, queue': seq<(Item, nat)>)
    requires Represents(item, t, items) && QueueAgrees(queue, blocks, items)
    ensures row == Row(pid, runningId, t.payload)
    ensures QueueAgrees(queue', blocks + (if t.Container? then [Block(runningId, t.Inside())] else []), items)
  {
    queue' := queue;
    if item.isContainer {
      assert EntryAgrees((item, runningId), Block(runningId, t.Inside()), items);
      queue' := queue + [(item, runningId)];
    }
    row := Row(pid, runningId, item.payload);
  }

  lemma {:induction false} RowsGrow(roots: seq<Root>, k: nat, id: nat)
    requires k < |roots|
    ensures HeadRows(roots, id)[..k + 1]
         == HeadRows(roots, id)[..k] + [Row(roots[k].pid, id + 1 + k, roots[k].tree.payload)]
  {
    hide HeadRows;
  }

  /** The first loop: the items in the slots. */
  method SaveRoots(itemList: seq<(nat, Item)>, ghost roots: seq<Root>, ghost items: set<Item>)
    returns (rows: seq<Row>, queue: seq<(Item, nat)>)
    requires |itemList| == |roots|
    requires forall k | 0 <= k < |roots| ::
               itemList[k].0 == roots[k].pid && Represents(itemList[k].1, roots[k].tree, items)
    ensures rows == HeadRows(roots, FIRST_ID)
    ensures QueueAgrees(queue, RootBlocks(roots), items)
  {
    assert HeadBlocks(roots[..0], FIRST_ID) == [] && QueueAgrees([], [], items);
    hide HeadRows, HeadBlocks, Represents, QueueAgrees;
    queue, rows := [], [];
    for k := 0 to |itemList|
      invariant rows == HeadRows(roots, FIRST_ID)[..k]
      invariant QueueAgrees(queue, HeadBlocks(roots[..k], FIRST_ID), items)
    {
      HeadBlocksGrow(roots, k, FIRST_ID);
      RowsGrow(roots, k, FIRST_ID);
      var row;
      row, queue := WriteItem(itemList[k].1, itemList[k].0, FIRST_ID + 1 + k, queue,
                              HeadBlocks(roots[..k], FIRST_ID), roots[k].tree, items);
      rows := rows + [row];
    }
    assert roots[..|itemList|] == roots;
  }

  lemma {:induction false} BlocksGrow(blocks: seq<Block>, head: seq<Root>, k: nat, id: nat)
    requires k < |head|
    ensures blocks + HeadBlocks(head[..k + 1], id)
         == blocks + HeadBlocks(head[..k], id)
            + (if head[k].tree.Container? then [Block(id + 1 + k, head[k].tree.Inside())] else [])
  {
    HeadBlocksGrow(head, k, id);
  }

  /** One turn of the second loop: the items of the container that was popped. */
  method SaveContainer(container: Item, parentId: nat, runningId: nat, queue: seq<(Item, nat)>,
                       ghost head: seq<Root>, ghost blocks: seq<Block>, ghost items: set<Item>)
    returns (rows: seq<Row>, queue': seq<(Item, nat)>)
    requires |container.itemList| == |head|
    requires forall k | 0 <= k < |head| ::
               head[k].pid == parentId && Represents(container.itemList[k], head[k].tree, items)
    requires QueueAgrees(queue, blocks, items)
    ensures rows == HeadRows(head, runningId)
    ensures QueueAgrees(queue', blocks + HeadBlocks(head, runningId), items)
  {
    assert HeadBlocks(head[..0], runningId) == [] && blocks + [] == blocks;
    hide *;
    queue', rows := queue, [];
    for k := 0 to |container.itemList|
      invariant rows == HeadRows(head, runningId)[..k]
      invariant QueueAgrees(queue', blocks + HeadBlocks(head[..k], runningId), items)
    {
      BlocksGrow(blocks, head, k, runningId);
      RowsGrow(head, k, runningId);
      ghost var queued := blocks + HeadBlocks(head[..k], runningId);
      var row;
      row, queue' := WriteItem(container.itemList[k], parentId, runningId + 1 + k, queue',
                               queued, head[k].tree, items);
      rows := rows + [row];
    }
    assert head[..|container.itemList|] == head;
  }

  lemma {:induction false} PopAgrees(queue: seq<(Item, nat)>, blocks: seq<Block>, items: set<Item>)
    requires queue != [] && QueueAgrees(queue, blocks, items)
    ensures QueueAgrees(queue[1..], blocks[1..], items)
    ensures queue[0].1 == blocks[0].parentId && |queue[0].0.itemList| == |Popped(blocks)|
    ensures forall k | 0 <= k < |Popped(blocks)| ::
              && Popped(blocks)[k].pid == queue[0].1
              && Represents(queue[0].0.itemList[k], Popped(blocks)[k].tree, items)
  {
    assert EntryAgrees(queue[0], blocks[0], items);
    hide EntryAgrees;
    forall i | 0 <= i < |queue[1..]| ensures EntryAgrees(queue[1..][i], blocks[1..][i], items) {
      assert EntryAgrees(queue[i + 1], blocks[i + 1], items);
    }
  }

  /** One turn of the second loop: pops a container and writes the items in it. */
  method SaveNext(queue: seq<(Item, nat)>, runningId: nat, ghost blocks: seq<Block>, ghost items: set<Item>)
    returns (rows: seq<Row>, queue': seq<(Item, nat)>, runningId': nat)
    requires queue != [] && QueueAgrees(queue, blocks, items)
    ensures rows == HeadRows(Popped(blocks), runningId)
    ensures runningId' == runningId + |Popped(blocks)|
    ensures QueueAgrees(queue', Next(blocks, runningId), items)
  {
    PopAgrees(queue, blocks, items);
    var (container, parentId) := queue[0];
    rows, queue' := SaveContainer(container, parentId, runningId, queue[1..], Popped(blocks), blocks[1..], items);
    runningId' := runningId + |container.itemList|;
  }

  /** Writes the rows of a forest, given as a list of (slot, item). */
  method SaveItems(itemList: seq<(nat, Item)>, ghost roots: seq<Root>, ghost items: set<Item>)
    returns (rows: seq<Row>)
    requires |itemList| == |roots|
    requires forall k | 0 <= k < |roots| ::
               itemList[k].0 == roots[k].pid && Represents(itemList[k].1, roots[k].tree, items)
    ensures rows == Flatten(roots)
  {
    var queue;
    rows, queue := SaveRoots(itemList, roots, items);
    var runningId: nat := FIRST_ID + |itemList|;
    ghost var blocks := RootBlocks(roots);
    LengthsAgree(queue, blocks, items);
    assert Flatten(roots) == rows + Bfs(blocks, runningId);
    hide HeadRows, Popped, Next, QueueAgrees, Weight, Flatten, RootBlocks, Bfs;
    while |queue| > 0
      invariant QueueAgrees(queue, blocks, items) && |queue| == |blocks|
      invariant Flatten(roots) == rows + Bfs(blocks, runningId)
      decreases Weight(blocks)
    {
      QueueShrinks(blocks, runningId);
      WrittenSoFar(rows, blocks, runningId);
      ghost var id := runningId;
      var more;
      more, queue, runningId := SaveNext(queue, runningId, blocks, items);
      LengthsAgree(queue, Next(blocks, id), items);
      blocks := Next(blocks, id);
      rows := rows + more;
    }
    WrittenSoFar(rows, blocks, runningId);
  }

  lemma {:induction false} WrittenSoFar(rows: seq<Row>, queue: seq<Block>, id: nat)
    ensures queue == [] ==> rows + Bfs(queue, id) == rows
    ensures queue != [] ==>
              (rows + Bfs(queue, id)
               == (rows + HeadRows(Popped(queue), id)) + Bfs(Next(queue, id), id + |Popped(queue)|))
  {
    hide HeadRows, Popped, Next, Weight;
  }

  lemma {:induction false} LengthsAgree(queue: seq<(Item, nat)>, blocks: seq<Block>, items: set<Item>)
    requires QueueAgrees(queue, blocks, items)
    ensures |queue| == |blocks|
  {
  }

  // ----- loadItems and the rebuild loop --------------------------------------------------------

  /** The ids of the loaded items whose row lies in `pid`, ascending, from those with `lo <= sid < hi`. */
  function Sids(table: map<nat, Row>, pid: nat, lo: nat, hi: nat): (r: seq<nat>)
    ensures forall s | s in r :: lo <= s < hi && s in table && table[s].pid == pid
    decreases hi - lo
  {
    if lo >= hi then []
    else (if lo in table && table[lo].pid == pid then [lo] else []) + Sids(table, pid, lo + 1, hi)
  }

  type ItemMap = map<nat, (Item, nat)>

  /** The map holds one object for every row of the table. */
  ghost predicate LoadedFrom(itemMap: ItemMap, table: map<nat, Row>, types: Catalog) {
    && itemMap.Keys == table.Keys
    && (forall s | s in itemMap ::
          && itemMap[s].1 == table[s].pid
          && itemMap[s].0.payload == table[s].payload
          && itemMap[s].0.isContainer == (types(table[s].payload.itemType) == Holder))
    && forall s, t | s in itemMap && t in itemMap && s != t :: itemMap[s].0 != itemMap[t].0
  }

  function ObjectsIn(itemMap: ItemMap): set<Item> {
    set s | s in itemMap :: itemMap[s].0
  }

  /** The list is that of the objects with these ids. */
  ghost predicate AreObjects(list: seq<Item>, sids: seq<nat>, itemMap: ItemMap) {
    |list| == |sids| && forall i | 0 <= i < |list| :: sids[i] in itemMap && list[i] == itemMap[sids[i]].0
  }

  /** One new item for every row whose type still exists. */
  method LoadItems(rows: seq<Row>, types: Catalog) returns (itemMap: ItemMap)
    ensures LoadedFrom(itemMap, Table(rows, types), types)
    ensures forall s | s in itemMap :: fresh(itemMap[s].0) && itemMap[s].0.itemList == []
  {
    itemMap := map[];
    for k := 0 to |rows|
      invariant LoadedFrom(itemMap, Table(rows[..k], types), types)
      invariant forall s | s in itemMap :: fresh(itemMap[s].0) && itemMap[s].0.itemList == []
    {
      assert rows[..k + 1][..k] == rows[..k];
      var row := rows[k];
      var kind := types(row.payload.itemType);
      if kind != Missing {
        var item := new Item(row.payload, kind == Holder);
        itemMap := itemMap[row.sid := (item, row.pid)];
      }
    }
    assert rows[..|rows|] == rows;
  }

  /** What has been put into the container with id `sid` once all ids from `lo` on are visited. */
  ghost predicate FilledFrom(itemMap: ItemMap, table: map<nat, Row>, sid: nat, lo: nat, hi: nat)
    requires sid in itemMap
    reads itemMap[sid].0
  {
    var item := itemMap[sid].0;
    AreObjects(item.itemList, if item.isContainer && sid >= ROOT_SLOTS then Sids(table, sid, lo, hi) else [], itemMap)
  }

  function SlotOf(slots: map<nat, seq<Item>>, pid: nat): seq<Item> {
    if pid in slots then slots[pid] else []
  }

  ghost predicate SlotsFrom(slots: map<nat, seq<Item>>, itemMap: ItemMap, table: map<nat, Row>, lo: nat, hi: nat) {
    forall pid: nat | pid < ROOT_SLOTS :: AreObjects(SlotOf(slots, pid), Sids(table, pid, lo, hi), itemMap)
  }

  /** Visiting an id puts it in front of the list of its own pid and leaves every other list alone. */
  lemma {:induction false} Visited(
      list: seq<Item>, itemMap: ItemMap, table: map<nat, Row>, types: Catalog, pid: nat, sid: nat, hi: nat)
    requires sid < hi && LoadedFrom(itemMap, table, types)
    requires AreObjects(list, Sids(table, pid, sid + 1, hi), itemMap)
    ensures sid in itemMap && itemMap[sid].1 == pid ==>
              AreObjects([itemMap[sid].0] + list, Sids(table, pid, sid, hi), itemMap)
    ensures !(sid in itemMap && itemMap[sid].1 == pid) ==>
              AreObjects(list, Sids(table, pid, sid, hi), itemMap)
  {
  }

  /** One turn of the loop: puts the item with id `sid`, if there is one, where its pid says. */
  method PutBack(itemMap: ItemMap, slots: map<nat, seq<Item>>, sid: nat, hi: nat,
                 ghost table: map<nat, Row>, ghost types: Catalog)
    returns (slots': map<nat, seq<Item>>)
    requires sid < hi && LoadedFrom(itemMap, table, types)
    requires SlotsFrom(slots, itemMap, table, sid + 1, hi)
    requires forall s | s in itemMap :: FilledFrom(itemMap, table, s, sid + 1, hi)
    modifies ObjectsIn(itemMap)
    ensures SlotsFrom(slots', itemMap, table, sid, hi)
    ensures forall s | s in itemMap :: FilledFrom(itemMap, table, s, sid, hi)
  {
    slots' := slots;
    if sid in itemMap {
      var (item, pid) := itemMap[sid];
      if pid < ROOT_SLOTS {
        slots' := slots[pid := [item] + SlotOf(slots, pid)];
      } else if pid in itemMap {
        var container := itemMap[pid].0;
        if container.isContainer {
          assert container in ObjectsIn(itemMap);
          container.InternalAddThing(item);
        }
      }
    }
    hide AreObjects, Sids;
    forall pid: nat | pid < ROOT_SLOTS ensures AreObjects(SlotOf(slots', pid), Sids(table, pid, sid, hi), itemMap) {
      Visited(SlotOf(slots, pid), itemMap, table, types, pid, sid, hi);
    }
    forall s | s in itemMap ensures FilledFrom(itemMap, table, s, sid, hi) {
      assert old(FilledFrom(itemMap, table, s, sid + 1, hi));
      if itemMap[s].0.isContainer && s >= ROOT_SLOTS {
        Visited(old(itemMap[s].0.itemList), itemMap, table, types, s, sid, hi);
      }
    }
  }

  /** Visits the loaded items from the highest id down and puts each in front of its slot or container.
      A row whose container is gone, or holds nothing, is left out.  The outcome is exact for any rows. */
  method Rebuild(itemMap: ItemMap, hi: nat, ghost table: map<nat, Row>, ghost types: Catalog)
    returns (slots: map<nat, seq<Item>>)
    requires LoadedFrom(itemMap, table, types)
    requires forall s | s in itemMap :: s < hi && itemMap[s].0.itemList == []
    modifies ObjectsIn(itemMap)
    ensures SlotsFrom(slots, itemMap, table, 0, hi)
    ensures forall s | s in itemMap :: FilledFrom(itemMap, table, s, 0, hi)
  {
    slots := map[];
    var sid := hi;
    assert forall s | s in itemMap :: FilledFrom(itemMap, table, s, hi, hi);
    assert SlotsFrom(slots, itemMap, table, hi, hi);
    hide FilledFrom, SlotsFrom, LoadedFrom;
    while sid > 0
      invariant 0 <= sid <= hi
      invariant SlotsFrom(slots, itemMap, table, sid, hi)
      invariant forall s | s in itemMap :: FilledFrom(itemMap, table, s, sid, hi)
    {
      sid := sid - 1;
      slots := PutBack(itemMap, slots, sid, hi, table, types);
    }
  }

  // ----- The whole round trip, on objects ------------------------------------------------------

  lemma {:induction false} SidsSkip(table: map<nat, Row>, pid: nat, lo: nat, mid: nat, hi: nat)
    requires lo <= mid <= hi
    requires forall s | lo <= s < mid && s in table :: table[s].pid != pid
    ensures Sids(table, pid, lo, hi) == Sids(table, pid, mid, hi)
    decreases mid - lo
  {
    if lo < mid {
      SidsSkip(table, pid, lo + 1, mid, hi);
    }
  }

  /** The trees under a pid are those of its ids. */
  lemma {:induction false} GrowFollowsSids(table: map<nat, Row>, types: Catalog, pid: nat, lo: nat, hi: nat, i: nat)
    requires i < |Sids(table, pid, lo, hi)|
    ensures |Grow(table, types, pid, lo, hi)| == |Sids(table, pid, lo, hi)|
    ensures Grow(table, types, pid, lo, hi)[i] == Unfold(table, types, Sids(table, pid, lo, hi)[i], hi)
    decreases hi - lo
  {
    GrowHasSidsLength(table, types, pid, lo, hi);
    if lo in table && table[lo].pid == pid {
      if i > 0 {
        GrowFollowsSids(table, types, pid, lo + 1, hi, i - 1);
      }
    } else {
      GrowFollowsSids(table, types, pid, lo + 1, hi, i);
    }
  }

  lemma {:induction false} GrowHasSidsLength(table: map<nat, Row>, types: Catalog, pid: nat, lo: nat, hi: nat)
    ensures |Grow(table, types, pid, lo, hi)| == |Sids(table, pid, lo, hi)|
    decreases hi - lo
  {
    if lo < hi {
      GrowHasSidsLength(table, types, pid, lo + 1, hi);
    }
  }

  /** A list of objects spells out a list of trees. */
  ghost predicate SpellsOut(list: seq<Item>, trees: seq<Tree>, items: set<Item>)
    reads items
  {
    |list| == |trees| && forall i | 0 <= i < |list| :: Represents(list[i], trees[i], items)
  }

  /** All containers are filled, and every row lies in a slot or in a row with a lower id. */
  ghost predicate Filled(itemMap: ItemMap, table: map<nat, Row>, types: Catalog, hi: nat)
    reads ObjectsIn(itemMap)
  {
    && LoadedFrom(itemMap, table, types)
    && (forall s | s in itemMap :: FilledFrom(itemMap, table, s, 0, hi))
    && forall s | s in table :: ROOT_SLOTS <= s < hi && table[s].pid < s
  }

  /** Then every object spells out the tree that its row and the rows in it stand for. */
  lemma {:induction false} ObjectSpellsOut(itemMap: ItemMap, table: map<nat, Row>, types: Catalog, sid: nat, hi: nat)
    requires Filled(itemMap, table, types, hi) && sid in itemMap && sid < hi
    ensures Represents(itemMap[sid].0, Unfold(table, types, sid, hi), ObjectsIn(itemMap))
    decreases hi - sid, 1
  {
    hide Grow, Sids;
    assert itemMap[sid].0 in ObjectsIn(itemMap);
    if itemMap[sid].0.isContainer {
      assert FilledFrom(itemMap, table, sid, 0, hi);
      SidsSkip(table, sid, 0, sid + 1, hi);
      ListSpellsOut(itemMap, table, types, itemMap[sid].0.itemList, sid, sid + 1, hi);
    }
  }

  lemma {:induction false} ListSpellsOut(itemMap: ItemMap, table: map<nat, Row>, types: Catalog,
                                         list: seq<Item>, pid: nat, lo: nat, hi: nat)
    requires Filled(itemMap, table, types, hi)
    requires AreObjects(list, Sids(table, pid, lo, hi), itemMap)
    ensures SpellsOut(list, Grow(table, types, pid, lo, hi), ObjectsIn(itemMap))
    decreases hi - lo, 2
  {
    GrowHasSidsLength(table, types, pid, lo, hi);
    var sids := Sids(table, pid, lo, hi);
    hide Filled, Grow, Represents;
    forall i | 0 <= i < |list|
      ensures Represents(list[i], Grow(table, types, pid, lo, hi)[i], ObjectsIn(itemMap))
    {
      GrowFollowsSids(table, types, pid, lo, hi, i);
      assert sids[i] in sids;
      ObjectSpellsOut(itemMap, table, types, sids[i], hi);
    }
  }

  lemma {:induction false} RowsGoDown(roots: seq<Root>, types: Catalog, rows: seq<Row>, hi: nat)
    requires Rooted(roots)
    requires forall r :: r in rows <==> r in Flatten(roots)
    requires FIRST_ID + |Flatten(roots)| < hi
    ensures forall s | s in Table(rows, types) :: ROOT_SLOTS <= s < hi && Table(rows, types)[s].pid < s
  {
    var table, written := Table(rows, types), Flatten(roots);
    forall s | s in table ensures ROOT_SLOTS <= s < hi && table[s].pid < s {
      TableSound(rows, types, s);
      var k :| 0 <= k < |written| && written[k] == table[s];
      RowIds(roots, k);
      if written[k].pid >= ROOT_SLOTS {
        var j :| 0 <= j < k && written[k].pid == written[j].sid;
        RowIds(roots, j);
      }
    }
  }

  /** Loads saved rows: every slot then holds objects that spell out what was saved from it. */
  method LoadForest(rows: seq<Row>, types: Catalog, hi: nat, ghost roots: seq<Root>)
    returns (slots: map<nat, seq<Item>>, ghost items: set<Item>)
    requires Rooted(roots)
    requires forall r :: r in rows <==> r in Flatten(roots)
    requires FIRST_ID + |Flatten(roots)| < hi
    ensures forall pid: nat | pid < ROOT_SLOTS ::
              SpellsOut(SlotOf(slots, pid), PruneAll(TreesAt(roots, pid), types), items)
  {
    ghost var table := Table(rows, types);
    RowsGoDown(roots, types, rows, hi);
    var itemMap := LoadItems(rows, types);
    slots := Rebuild(itemMap, hi, table, types);
    items := ObjectsIn(itemMap);
    assert Filled(itemMap, table, types, hi);
    hide Filled, FilledFrom, Represents, Grow, Flatten, PruneAll, TreesAt;
    forall pid: nat | pid < ROOT_SLOTS
      ensures SpellsOut(SlotOf(slots, pid), PruneAll(TreesAt(roots, pid), types), items)
    {
      ListSpellsOut(itemMap, table, types, SlotOf(slots, pid), pid, 0, hi);
      RoundTrip(roots, types, rows, pid, hi);
    }
  }
}
