/**
 The walk cache of a creature (src/creatures/creature.cpp): a window of 23 by 23 squares around the creature
 that remembers which of them it could walk on.

 `Creature.localMapCache` is shifted and overwritten in place when the creature steps.  A `World` is the set
 of positions where a tile is that lets this creature in.  `Grid` is the cache as a value; `SteppedAt`,
 `SquareAt` and `LookedUpAt` say cell by cell what each notification makes of it.
 */
module WalkCache {

  const MAP_WALK_WIDTH := 23
  const MAP_WALK_HEIGHT := 23
  const MAX_WALK_CACHE_WIDTH := 11
  const MAX_WALK_CACHE_HEIGHT := 11

  type u16 = x: int | 0 <= x < 0x1_0000
  type u8 = x: int | 0 <= x < 0x100

  datatype Position = Position(x: u16, y: u16, z: u8)

  type World = set<Position>

  function Abs(x: int): nat {
    if x < 0 then -x else x
  }

  /** A coordinate handed to the map as a 16-bit number. */
  function Wrap(x: int): u16 {
    x % 0x1_0000
  }

  predicate InWindow(i: int, j: int) {
    0 <= i < MAP_WALK_HEIGHT && 0 <= j < MAP_WALK_WIDTH
  }

  /** The cache as a value, row by row. */
  type Grid = g: seq<seq<bool>> | |g| == MAP_WALK_HEIGHT && forall i | 0 <= i < |g| :: |g[i]| == MAP_WALK_WIDTH
    witness Blank()

  function Blank(): (g: seq<seq<bool>>)
    ensures |g| == MAP_WALK_HEIGHT && forall i | 0 <= i < |g| :: |g[i]| == MAP_WALK_WIDTH
  {
    seq(MAP_WALK_HEIGHT, i => seq(MAP_WALK_WIDTH, j => false))
  }

  function Cell(g: Grid, i: int, j: int): bool {
    InWindow(i, j) && g[i][j]
  }

  /** What the map says of the square at cell (i, j) of a window around `p`. */
  predicate Look(w: World, p: Position, i: int, j: int) {
    Position(Wrap(p.x + j - MAX_WALK_CACHE_WIDTH), Wrap(p.y + i - MAX_WALK_CACHE_HEIGHT), p.z) in w
  }

  /** Cell (i, j) of a window around `p` is a square whose coordinates exist. */
  predicate OnMap(p: Position, i: int, j: int) {
    && 0 <= p.x + j - MAX_WALK_CACHE_WIDTH < 0x1_0000
    && 0 <= p.y + i - MAX_WALK_CACHE_HEIGHT < 0x1_0000
  }

  // ----- The cell (i, j) after each notification -----------------------------------------------

  /** The whole window looked up.  A square beyond the edge of the map wraps around, lands outside the
      window and is not written. */
  predicate LookedUpAt(g: Grid, w: World, p: Position, i: int, j: int) {
    if OnMap(p, i, j) then Look(w, p, i, j) else Cell(g, i, j)
  }

  /** Cell (i, j) of a window around `p` is the square `at`. */
  predicate IsAt(p: Position, at: Position, i: int, j: int) {
    at.z == p.z && i == at.y - p.y + MAX_WALK_CACHE_HEIGHT && j == at.x - p.x + MAX_WALK_CACHE_WIDTH
  }

  /** One square refreshed, if it lies in the window around `p`. */
  predicate SquareAt(g: Grid, w: World, p: Position, at: Position, i: int, j: int) {
    if IsAt(p, at, i, j) then at in w else Cell(g, i, j)
  }

  /** The rows shifted against a northward or southward step, and the row that came into view looked up. */
  predicate VerticalAt(g: Grid, w: World, from: Position, to: Position, i: int, j: int) {
    if from.y > to.y then (if i == 0 then Look(w, to, i, j) else Cell(g, i - 1, j))
    else if from.y < to.y then
      (if i == MAP_WALK_HEIGHT - 1 then Look(w, to, i, j) else Cell(g, i + 1, j))
    else Cell(g, i, j)
  }

  /** Then the columns shifted against an eastward or westward step.  The rows in front of `dy` stay as they
      are, and `dy` is an absolute value: it is row 0 that stays, whether the step went north or south. */
  predicate HorizontalAt(g: Grid, w: World, from: Position, to: Position, i: int, j: int) {
    var shifted := Abs(from.y - to.y) <= i;
    if from.x < to.x then
      if j == MAP_WALK_WIDTH - 1 then Look(w, to, i, j)
      else VerticalAt(g, w, from, to, i, if shifted then j + 1 else j)
    else if from.x > to.x then
      if j == 0 then Look(w, to, i, j)
      else VerticalAt(g, w, from, to, i, if shifted then j - 1 else j)
    else VerticalAt(g, w, from, to, i, j)
  }

  /** Then the square that was left refreshed: the cell after a step on one floor. */
  predicate SteppedAt(g: Grid, w: World, from: Position, to: Position, i: int, j: int) {
    if IsAt(to, from, i, j) then from in w else HorizontalAt(g, w, from, to, i, j)
  }

  // ----- The creature --------------------------------------------------------------------------

  /** What the item handlers ask of an item's type. */
  datatype ItemType = ItemType(blockSolid: bool, blockPathFind: bool, groundTile: bool)

  predicate UpdateNoticed(oldType: ItemType, newType: ItemType) {
    oldType.blockSolid || newType.blockSolid || oldType.blockPathFind || newType.blockPathFind
  }

  predicate RemoveNoticed(iType: ItemType) {
    iType.groundTile || iType.blockSolid || iType.blockPathFind
  }

  class Creature {
    const localMapCache: array2<bool>
    var position: Position
    var isMapLoaded: bool
    const useCacheMap: bool

    ghost predicate Valid() {
      localMapCache.Length0 == MAP_WALK_HEIGHT && localMapCache.Length1 == MAP_WALK_WIDTH
    }

    /** The cache as a value. */
    ghost function Contents(): (g: Grid)
      requires Valid()
      reads localMapCache
      ensures forall i, j {:trigger Cell(g, i, j)} | InWindow(i, j) :: Cell(g, i, j) == localMapCache[i, j]
    {
      seq(MAP_WALK_HEIGHT, i requires 0 <= i < MAP_WALK_HEIGHT reads localMapCache =>
        seq(MAP_WALK_WIDTH, j requires 0 <= j < MAP_WALK_WIDTH reads localMapCache => localMapCache[i, j]))
    }

    constructor (position: Position, useCacheMap: bool)
      ensures Valid() && fresh(localMapCache)
      ensures this.position == position && !isMapLoaded && this.useCacheMap == useCacheMap
    {
      this.position, this.useCacheMap := position, useCacheMap;
      isMapLoaded := false;
      localMapCache := new bool[MAP_WALK_HEIGHT, MAP_WALK_WIDTH]((i, j) => false);
    }

    /** updateTileCache for an offset from the creature. */
    method UpdateOffset(walkable: bool, dx: int, dy: int)
      requires Valid()
      modifies localMapCache
      ensures forall i, j {:trigger localMapCache[i, j]} | InWindow(i, j) ::
                localMapCache[i, j] == if i == MAX_WALK_CACHE_HEIGHT + dy && j == MAX_WALK_CACHE_WIDTH + dx
                                       then walkable else old(localMapCache[i, j])
    {
      if Abs(dx) <= MAX_WALK_CACHE_WIDTH && Abs(dy) <= MAX_WALK_CACHE_HEIGHT {
        localMapCache[MAX_WALK_CACHE_HEIGHT + dy, MAX_WALK_CACHE_WIDTH + dx] := walkable;
      }
    }

    /** updateTileCache for a position. */
    method UpdateTileCache(w: World, at: Position)
      requires Valid()
      modifies localMapCache
      ensures forall i, j {:trigger localMapCache[i, j]} | InWindow(i, j) ::
                localMapCache[i, j] == if IsAt(position, at, i, j) then at in w else old(localMapCache[i, j])
    {
      if at.z == position.z {
        UpdateOffset(at in w, at.x - position.x, at.y - position.y);
      }
    }

    method UpdateMapCache(w: World)
      requires Valid()
      modifies localMapCache
      ensures forall i, j {:trigger localMapCache[i, j]} | InWindow(i, j) ::
                localMapCache[i, j] == if OnMap(position, i, j) then Look(w, position, i, j)
                                       else old(localMapCache[i, j])
    {
      var y := -MAX_WALK_CACHE_HEIGHT;
      while y <= MAX_WALK_CACHE_HEIGHT
        invariant -MAX_WALK_CACHE_HEIGHT <= y <= MAX_WALK_CACHE_HEIGHT + 1
        invariant forall i, j {:trigger localMapCache[i, j]} | InWindow(i, j) ::
                    localMapCache[i, j] == if OnMap(position, i, j) && i < y + MAX_WALK_CACHE_HEIGHT
                                           then Look(w, position, i, j) else old(localMapCache[i, j])
      {
        var x := -MAX_WALK_CACHE_WIDTH;
        while x <= MAX_WALK_CACHE_WIDTH
          invariant -MAX_WALK_CACHE_WIDTH <= x <= MAX_WALK_CACHE_WIDTH + 1
          invariant forall i, j {:trigger localMapCache[i, j]} | InWindow(i, j) ::
                      localMapCache[i, j] == if OnMap(position, i, j) && Before(i, j, y, x)
                                             then Look(w, position, i, j) else old(localMapCache[i, j])
        {
          var pos := Position(Wrap(position.x + x), Wrap(position.y + y), position.z);
          UpdateTileCache(w, pos);
          x := x + 1;
        }
        y := y + 1;
      }
    }

    /** In row order, cell (i, j) comes before the one at the offset (y, x). */
    predicate Before(i: int, j: int, y: int, x: int) {
      i < y + MAX_WALK_CACHE_HEIGHT || (i == y + MAX_WALK_CACHE_HEIGHT && j < x + MAX_WALK_CACHE_WIDTH)
    }

    /** The rows move down by one; row 0 keeps its content. */
    method ShiftRowsSouth()
      requires Valid()
      modifies localMapCache
      ensures forall i, j {:trigger localMapCache[i, j]} | InWindow(i, j) ::
                localMapCache[i, j] == if i > 0 then old(localMapCache[i - 1, j]) else old(localMapCache[i, j])
    {
      var y := MAP_WALK_HEIGHT - 1;
      while y > 0
        invariant 0 <= y < MAP_WALK_HEIGHT
        invariant forall i, j {:trigger localMapCache[i, j]} | InWindow(i, j) ::
                    localMapCache[i, j] == if i > y then old(localMapCache[i - 1, j]) else old(localMapCache[i, j])
      {
        y := y - 1;
        forall x | 0 <= x < MAP_WALK_WIDTH {
          localMapCache[y + 1, x] := localMapCache[y, x];
        }
      }
    }

    /** The rows move up by one; the last row keeps its content. */
    method ShiftRowsNorth()
      requires Valid()
      modifies localMapCache
      ensures forall i, j {:trigger localMapCache[i, j]} | InWindow(i, j) ::
                localMapCache[i, j] == if i < MAP_WALK_HEIGHT - 1 then old(localMapCache[i + 1, j])
                                       else old(localMapCache[i, j])
    {
      var y := 0;
      while y <= MAP_WALK_HEIGHT - 2
        invariant 0 <= y < MAP_WALK_HEIGHT
        invariant forall i, j {:trigger localMapCache[i, j]} | InWindow(i, j) ::
                    localMapCache[i, j] == if i < y then old(localMapCache[i + 1, j]) else old(localMapCache[i, j])
      {
        forall x | 0 <= x < MAP_WALK_WIDTH {
          localMapCache[y, x] := localMapCache[y + 1, x];
        }
        y := y + 1;
      }
    }

    /** In the rows from `starty` to `endy` the cells move left by one. */
    method ShiftColumnsWest(starty: int, endy: int)
      requires Valid() && 0 <= starty && endy < MAP_WALK_HEIGHT
      modifies localMapCache
      ensures forall i, j {:trigger localMapCache[i, j]} | InWindow(i, j) ::
                localMapCache[i, j] == if starty <= i <= endy && j < MAP_WALK_WIDTH - 1
                                       then old(localMapCache[i, j + 1]) else old(localMapCache[i, j])
    {
      var y := starty;
      while y <= endy
        invariant starty <= y && (y <= endy + 1 || y == starty)
        invariant forall i, j {:trigger localMapCache[i, j]} | InWindow(i, j) ::
                    localMapCache[i, j] == if starty <= i < y && j < MAP_WALK_WIDTH - 1
                                           then old(localMapCache[i, j + 1]) else old(localMapCache[i, j])
      {
        var x := 0;
        while x <= MAP_WALK_WIDTH - 2
          invariant 0 <= x < MAP_WALK_WIDTH
          invariant forall i, j {:trigger localMapCache[i, j]} | InWindow(i, j) ::
                      localMapCache[i, j] == if (starty <= i < y && j < MAP_WALK_WIDTH - 1) || (i == y && j < x)
                                             then old(localMapCache[i, j + 1]) else old(localMapCache[i, j])
        {
          localMapCache[y, x] := localMapCache[y, x + 1];
          x := x + 1;
        }
        y := y + 1;
      }
    }

    /** In the rows from `starty` to `endy` the cells move right by one. */
    method ShiftColumnsEast(starty: int, endy: int)
      requires Valid() && 0 <= starty && endy < MAP_WALK_HEIGHT
      modifies localMapCache
      ensures forall i, j {:trigger localMapCache[i, j]} | InWindow(i, j) ::
                localMapCache[i, j] == if starty <= i <= endy && j > 0
                                       then old(localMapCache[i, j - 1]) else old(localMapCache[i, j])
    {
      var y := starty;
      while y <= endy
        invariant starty <= y && (y <= endy + 1 || y == starty)
        invariant forall i, j {:trigger localMapCache[i, j]} | InWindow(i, j) ::
                    localMapCache[i, j] == if starty <= i < y && j > 0
                                           then old(localMapCache[i, j - 1]) else old(localMapCache[i, j])
      {
        var x := MAP_WALK_WIDTH - 1;
        while x > 0
          invariant 0 <= x < MAP_WALK_WIDTH
          invariant forall i, j {:trigger localMapCache[i, j]} | InWindow(i, j) ::
                      localMapCache[i, j] == if (starty <= i < y && j > 0) || (i == y && j > x)
                                             then old(localMapCache[i, j - 1]) else old(localMapCache[i, j])
        {
          x := x - 1;
          localMapCache[y, x + 1] := localMapCache[y, x];
        }
        y := y + 1;
      }
    }

    /** Row 0 or the last row looked up anew. */
    method LookUpRow(w: World, dy: int)
      requires Valid() && Abs(dy) == MAX_WALK_CACHE_HEIGHT
      modifies localMapCache
      ensures forall i, j {:trigger localMapCache[i, j]} | InWindow(i, j) ::
                localMapCache[i, j] == if i == dy + MAX_WALK_CACHE_HEIGHT then Look(w, position, i, j)
                                       else old(localMapCache[i, j])
    {
      var x := -MAX_WALK_CACHE_WIDTH;
      while x <= MAX_WALK_CACHE_WIDTH
        invariant -MAX_WALK_CACHE_WIDTH <= x <= MAX_WALK_CACHE_WIDTH + 1
        invariant forall i, j {:trigger localMapCache[i, j]} | InWindow(i, j) ::
                    localMapCache[i, j] == if i == dy + MAX_WALK_CACHE_HEIGHT && j < x + MAX_WALK_CACHE_WIDTH
                                           then Look(w, position, i, j) else old(localMapCache[i, j])
      {
        var pos := Position(Wrap(position.x + x), Wrap(position.y + dy), position.z);
        UpdateOffset(pos in w, x, dy);
        x := x + 1;
      }
    }

    /** Column 0 or the last column looked up anew. */
    method LookUpColumn(w: World, dx: int)
      requires Valid() && Abs(dx) == MAX_WALK_CACHE_WIDTH
      modifies localMapCache
      ensures forall i, j {:trigger localMapCache[i, j]} | InWindow(i, j) ::
                localMapCache[i, j] == if j == dx + MAX_WALK_CACHE_WIDTH then Look(w, position, i, j)
                                       else old(localMapCache[i, j])
    {
      var y := -MAX_WALK_CACHE_HEIGHT;
      while y <= MAX_WALK_CACHE_HEIGHT
        invariant -MAX_WALK_CACHE_HEIGHT <= y <= MAX_WALK_CACHE_HEIGHT + 1
        invariant forall i, j {:trigger localMapCache[i, j]} | InWindow(i, j) ::
                    localMapCache[i, j] == if j == dx + MAX_WALK_CACHE_WIDTH && i < y + MAX_WALK_CACHE_HEIGHT
                                           then Look(w, position, i, j) else old(localMapCache[i, j])
      {
        var pos := Position(Wrap(position.x + dx), Wrap(position.y + y), position.z);
        UpdateOffset(pos in w, dx, y);
        y := y + 1;
      }
    }

    /** The part of onCreatureMove for the creature's own move; `position` is `newPos` already. */
    method OnOwnMove(w: World, oldPos: Position, newPos: Position, teleport: bool)
      requires Valid() && position == newPos
      modifies localMapCache
      ensures !isMapLoaded ==> Contents() == old(Contents())
      ensures isMapLoaded ==>
                forall i, j {:trigger Cell(Contents(), i, j)} | InWindow(i, j) ::
                  Cell(Contents(), i, j)
                  == (if teleport || oldPos.z != newPos.z then LookedUpAt(old(Contents()), w, newPos, i, j)
                      else SteppedAt(old(Contents()), w, oldPos, newPos, i, j))
    {
      if !isMapLoaded {
        return;
      }
      ghost var g := Contents();
      if teleport || oldPos.z != newPos.z {
        UpdateMapCache(w);
        return;
      }
      if oldPos.y > newPos.y {
        ShiftRowsSouth();
        LookUpRow(w, -MAX_WALK_CACHE_HEIGHT);
      } else if oldPos.y < newPos.y {
        ShiftRowsNorth();
        LookUpRow(w, MAX_WALK_CACHE_HEIGHT);
      }
      assert forall i, j {:trigger localMapCache[i, j]} | InWindow(i, j) ::
               localMapCache[i, j] == VerticalAt(g, w, oldPos, newPos, i, j);
      ShiftColumns(w, oldPos, newPos, g);
      UpdateTileCache(w, oldPos);
    }

    /** The eastward or westward half of a step. */
    method ShiftColumns(w: World, oldPos: Position, newPos: Position, ghost g: Grid)
      requires Valid() && position == newPos
      requires forall i, j {:trigger localMapCache[i, j]} | InWindow(i, j) ::
                 localMapCache[i, j] == VerticalAt(g, w, oldPos, newPos, i, j)
      modifies localMapCache
      ensures forall i, j {:trigger localMapCache[i, j]} | InWindow(i, j) ::
                localMapCache[i, j] == HorizontalAt(g, w, oldPos, newPos, i, j)
    {
      var starty, endy := 0, MAP_WALK_HEIGHT - 1;
      var dy: int := Abs(oldPos.y - newPos.y);
      if dy < 0 {
        endy := endy + dy;
      } else if dy > 0 {
        starty := dy;
      }
      if oldPos.x < newPos.x {
        ShiftColumnsWest(starty, endy);
        LookUpColumn(w, MAX_WALK_CACHE_WIDTH);
      } else if oldPos.x > newPos.x {
        ShiftColumnsEast(starty, endy);
        LookUpColumn(w, -MAX_WALK_CACHE_WIDTH);
      }
    }

    /** The part of onCreatureMove for another creature's move. */
    method OnOtherMove(w: World, oldPos: Position, newPos: Position)
      requires Valid()
      modifies localMapCache
      ensures forall i, j {:trigger localMapCache[i, j]} | InWindow(i, j) ::
                localMapCache[i, j]
                == (if isMapLoaded && IsAt(position, oldPos, i, j) then oldPos in w
                    else if isMapLoaded && IsAt(position, newPos, i, j) then newPos in w
                    else old(localMapCache[i, j]))
    {
      if isMapLoaded {
        if newPos.z == position.z {
          UpdateTileCache(w, newPos);
        }
        if oldPos.z == position.z {
          UpdateTileCache(w, oldPos);
        }
      }
    }

    method OnAddTileItem(w: World, at: Position)
      requires Valid()
      modifies localMapCache
      ensures forall i, j {:trigger localMapCache[i, j]} | InWindow(i, j) ::
                localMapCache[i, j]
                == if isMapLoaded && IsAt(position, at, i, j) then at in w else old(localMapCache[i, j])
    {
      if isMapLoaded && at.z == position.z {
        UpdateTileCache(w, at);
      }
    }

    method OnUpdateTileItem(w: World, at: Position, oldType: ItemType, newType: ItemType)
      requires Valid()
      modifies localMapCache
      ensures forall i, j {:trigger localMapCache[i, j]} | InWindow(i, j) ::
                localMapCache[i, j]
                == if isMapLoaded && IsAt(position, at, i, j)
                      && (oldType.blockSolid || oldType.blockPathFind || newType.blockPathFind || newType.blockSolid)
                   then at in w else old(localMapCache[i, j])
    {
      if !isMapLoaded {
        return;
      }
      if oldType.blockSolid || oldType.blockPathFind || newType.blockPathFind || newType.blockSolid {
        if at.z == position.z {
          UpdateTileCache(w, at);
        }
      }
    }

    method OnRemoveTileItem(w: World, at: Position, iType: ItemType)
      requires Valid()
      modifies localMapCache
      ensures forall i, j {:trigger localMapCache[i, j]} | InWindow(i, j) ::
                localMapCache[i, j]
                == if isMapLoaded && IsAt(position, at, i, j)
                      && (iType.blockSolid || iType.blockPathFind || iType.groundTile)
                   then at in w else old(localMapCache[i, j])
    {
      if !isMapLoaded {
        return;
      }
      if iType.blockSolid || iType.blockPathFind || iType.groundTile {
        if at.z == position.z {
          UpdateTileCache(w, at);
        }
      }
    }

    /** Another creature comes or goes: onCreatureAppear and onRemoveCreature. */
    method OnOtherCreature(w: World, at: Position)
      requires Valid()
      modifies localMapCache
      ensures forall i, j {:trigger localMapCache[i, j]} | InWindow(i, j) ::
                localMapCache[i, j]
                == if isMapLoaded && IsAt(position, at, i, j) then at in w else old(localMapCache[i, j])
    {
      if isMapLoaded {
        if at.z == position.z {
          UpdateTileCache(w, at);
        }
      }
    }

    /** The creature's own appearance, or its first think: the cache is filled. */
    method LoadMap(w: World)
      requires Valid()
      modifies `isMapLoaded, localMapCache
      ensures isMapLoaded == (old(isMapLoaded) || useCacheMap)
      ensures forall i, j {:trigger localMapCache[i, j]} | InWindow(i, j) ::
                localMapCache[i, j] == if useCacheMap && OnMap(position, i, j) then Look(w, position, i, j)
                                       else old(localMapCache[i, j])
    {
      if useCacheMap {
        isMapLoaded := true;
        UpdateMapCache(w);
      }
    }

    /** 1 for walkable, 0 for blocked, 2 for not known. */
    method GetWalkCache(pos: Position) returns (r: int)
      requires Valid()
      ensures r == if !useCacheMap then 2 else Answer(Contents(), position, pos)
    {
      if !useCacheMap {
        return 2;
      }
      if position.z != pos.z {
        return 0;
      }
      if pos == position {
        return 1;
      }
      var dx := pos.x - position.x;
      if Abs(dx) <= MAX_WALK_CACHE_WIDTH {
        var dy := pos.y - position.y;
        if Abs(dy) <= MAX_WALK_CACHE_HEIGHT {
          if localMapCache[MAX_WALK_CACHE_HEIGHT + dy, MAX_WALK_CACHE_WIDTH + dx] {
            return 1;
          } else {
            return 0;
          }
        }
      }
      return 2;
    }
  }

  /** What a grid around `p` answers for the square `q`. */
  function Answer(g: Grid, p: Position, q: Position): int {
    var i, j := q.y - p.y + MAX_WALK_CACHE_HEIGHT, q.x - p.x + MAX_WALK_CACHE_WIDTH;
    if p.z != q.z then 0
    else if q == p then 1
    else if !InWindow(i, j) then 2
    else if Cell(g, i, j) then 1
    else 0
  }

  // ----- Freshness -----------------------------------------------------------------------------

  /** Every square of the window but the creature's own shows what the map would say now. */
  ghost predicate Fresh(g: Grid, w: World, p: Position) {
    forall i, j {:trigger Cell(g, i, j)} |
      InWindow(i, j) && OnMap(p, i, j) && (i, j) != (MAX_WALK_CACHE_HEIGHT, MAX_WALK_CACHE_WIDTH) ::
      Cell(g, i, j) == Look(w, p, i, j)
  }

  /** A fresh cache answers for every square of the map what the map would say, with 1 for the creature's own
      square, 0 on other floors and 2 out of range. */
  lemma {:induction false} FreshAnswers(g: Grid, w: World, p: Position, q: Position)
    requires Fresh(g, w, p)
    ensures Answer(g, p, q)
         == if p.z != q.z then 0
            else if q == p then 1
            else if Abs(q.x - p.x) > MAX_WALK_CACHE_WIDTH || Abs(q.y - p.y) > MAX_WALK_CACHE_HEIGHT then 2
            else if q in w then 1
            else 0
  {
  }

  /** Two worlds differ at most at some squares. */
  predicate AgreeBut(w: World, w': World, at: set<Position>) {
    w - at == w' - at
  }

  predicate UnitStep(from: Position, to: Position) {
    from.z == to.z && from != to && Abs(from.x - to.x) <= 1 && Abs(from.y - to.y) <= 1
  }

  predicate SouthernDiagonal(from: Position, to: Position) {
    to.y == from.y + 1 && to.x != from.x
  }

  /** `g'` is what the code makes of `g` when the creature steps from `from` to `to`. */
  ghost predicate AfterStep(g: Grid, g': Grid, w': World, from: Position, to: Position) {
    forall i, j {:trigger Cell(g', i, j)} | InWindow(i, j) :: Cell(g', i, j) == SteppedAt(g, w', from, to, i, j)
  }

  /** In every direction but the two southern diagonals a step keeps the cache fresh. */
  lemma {:induction false} StepKeepsFresh(g: Grid, g': Grid, w: World, w': World, from: Position, to: Position)
    requires Fresh(g, w, from) && UnitStep(from, to) && AgreeBut(w, w', {from, to})
    requires AfterStep(g, g', w', from, to)
    requires !SouthernDiagonal(from, to)
    ensures Fresh(g', w', to)
  {
    forall i, j | InWindow(i, j) && OnMap(to, i, j) && (i, j) != (MAX_WALK_CACHE_HEIGHT, MAX_WALK_CACHE_WIDTH)
      ensures Cell(g', i, j) == Look(w', to, i, j)
    {
      StepKeepsCell(g, w, w', from, to, i, j);
    }
  }

  lemma {:induction false} StepKeepsCell(g: Grid, w: World, w': World, from: Position, to: Position, i: int, j: int)
    requires Fresh(g, w, from) && UnitStep(from, to) && AgreeBut(w, w', {from, to})
    requires InWindow(i, j) && OnMap(to, i, j) && (i, j) != (MAX_WALK_CACHE_HEIGHT, MAX_WALK_CACHE_WIDTH)
    requires SouthernDiagonal(from, to) ==> 0 < i < MAP_WALK_HEIGHT - 1
    ensures SteppedAt(g, w', from, to, i, j) == Look(w', to, i, j)
  {
    var dx, dy := to.x - from.x, to.y - from.y;
    if InWindow(i + dy, j + dx) {
      // the same square, seen from where the creature stood
      var at := Position(to.x + j - MAX_WALK_CACHE_WIDTH, to.y + i - MAX_WALK_CACHE_HEIGHT, to.z);
      assert at != to;
      assert at != from ==> (at in w' <==> at in w - {from, to});
      assert at != from ==> Cell(g, i + dy, j + dx) == Look(w, from, i + dy, j + dx);
    }
  }

  // ----- The southern diagonals ----------------------------------------------------------------

  /** The column that a diagonal step leaves in the place of column `j` where the shift went wrong. */
  function Slipped(from: Position, to: Position, j: int): int {
    if from.x < to.x then j + 1 else j - 1
  }

  /** The last row was looked up before the columns moved, so it is moved once too often; row 0 is not moved
      at all.  These are the cells of theirs that happen to be right all the same. */
  ghost predicate SlipHarmless(g: Grid, w: World, from: Position, to: Position) {
    forall j | 0 <= j < MAP_WALK_WIDTH && 0 <= Slipped(from, to, j) < MAP_WALK_WIDTH ::
      && (OnMap(to, 0, j) ==> Cell(g, 1, j) == Look(w, to, 0, j))
      && (OnMap(to, MAP_WALK_HEIGHT - 1, j) ==>
            Look(w, to, MAP_WALK_HEIGHT - 1, Slipped(from, to, j)) == Look(w, to, MAP_WALK_HEIGHT - 1, j))
  }

  /** A step to the south-east or south-west keeps the cache fresh exactly when the slip does no harm. */
  lemma {:induction false} SouthernDiagonalKeepsFreshIff(
      g: Grid, g': Grid, w: World, w': World, from: Position, to: Position)
    requires Fresh(g, w, from) && UnitStep(from, to) && AgreeBut(w, w', {from, to})
    requires AfterStep(g, g', w', from, to)
    requires SouthernDiagonal(from, to)
    ensures Fresh(g', w', to) <==> SlipHarmless(g, w', from, to)
  {
    var last := MAP_WALK_HEIGHT - 1;
    forall j | 0 <= j < MAP_WALK_WIDTH
      ensures Cell(g', 0, j) == if 0 <= Slipped(from, to, j) < MAP_WALK_WIDTH then Cell(g, 1, j)
                                else Look(w', to, 0, j)
      ensures Cell(g', last, j) == if 0 <= Slipped(from, to, j) < MAP_WALK_WIDTH
                                   then Look(w', to, last, Slipped(from, to, j)) else Look(w', to, last, j)
    {
      assert Cell(g', 0, j) == SteppedAt(g, w', from, to, 0, j);
      assert Cell(g', last, j) == SteppedAt(g, w', from, to, last, j);
    }
    if SlipHarmless(g, w', from, to) {
      forall i, j | InWindow(i, j) && OnMap(to, i, j) && (i, j) != (MAX_WALK_CACHE_HEIGHT, MAX_WALK_CACHE_WIDTH)
        ensures Cell(g', i, j) == Look(w', to, i, j)
      {
        if 0 < i < last {
          StepKeepsCell(g, w, w', from, to, i, j);
        }
      }
    }
    if Fresh(g', w', to) {
      forall j | 0 <= j < MAP_WALK_WIDTH && 0 <= Slipped(from, to, j) < MAP_WALK_WIDTH
        ensures OnMap(to, 0, j) ==> Cell(g, 1, j) == Look(w', to, 0, j)
        ensures OnMap(to, last, j) ==> Look(w', to, last, Slipped(from, to, j)) == Look(w', to, last, j)
      {
        assert OnMap(to, 0, j) ==> Cell(g', 0, j) == Look(w', to, 0, j);
        assert OnMap(to, last, j) ==> Cell(g', last, j) == Look(w', to, last, j);
      }
    }
  }

  /** A step between two positions that keeps every fresh cache fresh, whatever the world is. */
  ghost predicate Safe(from: Position, to: Position) {
    forall g: Grid, g': Grid, w: World, w': World |
      Fresh(g, w, from) && AgreeBut(w, w', {from, to}) && AfterStep(g, g', w', from, to) :: Fresh(g', w', to)
  }

  /** A fresh grid for any world and position. */
  function Drawn(w: World, p: Position): (g: Grid)
    ensures Fresh(g, w, p)
  {
    seq(MAP_WALK_HEIGHT, i => seq(MAP_WALK_WIDTH, j => Look(w, p, i, j)))
  }

  function Stepped(g: Grid, w: World, from: Position, to: Position): (g': Grid)
    ensures AfterStep(g, g', w, from, to)
  {
    seq(MAP_WALK_HEIGHT, i => seq(MAP_WALK_WIDTH, j => SteppedAt(g, w, from, to, i, j)))
  }

  /** A unit step is safe exactly when it is not a southern diagonal. */
  lemma {:induction false} SafeIff(from: Position, to: Position)
    requires UnitStep(from, to)
    ensures Safe(from, to) <==> !SouthernDiagonal(from, to)
  {
    if SouthernDiagonal(from, to) {
      SlipShows(from, to);
    } else {
      forall g: Grid, g': Grid, w: World, w': World |
        Fresh(g, w, from) && AgreeBut(w, w', {from, to}) && AfterStep(g, g', w', from, to)
        ensures Fresh(g', w', to)
      {
        StepKeepsFresh(g, g', w, w', from, to);
      }
    }
  }

  /** On the map the square of a cell is found without wrapping. */
  lemma {:induction false} LookOnMap(w: World, p: Position, i: int, j: int)
    requires OnMap(p, i, j)
    ensures Look(w, p, i, j) == (Position(p.x + j - MAX_WALK_CACHE_WIDTH, p.y + i - MAX_WALK_CACHE_HEIGHT, p.z) in w)
  {
  }

  /** A world with one walkable square, in the row that slips: row 0, or the last row at the northern edge. */
  lemma {:induction false} SlipShows(from: Position, to: Position)
    requires UnitStep(from, to) && SouthernDiagonal(from, to)
    ensures !Safe(from, to)
  {
    var j := MAX_WALK_CACHE_WIDTH;
    var north := to.y >= MAX_WALK_CACHE_HEIGHT;
    var at := Position(to.x, if north then to.y - MAX_WALK_CACHE_HEIGHT else to.y + MAX_WALK_CACHE_HEIGHT, to.z);
    var w := {at};
    assert at in w;
    var g := Drawn(w, from);
    var g' := Stepped(g, w, from, to);
    SouthernDiagonalKeepsFreshIff(g, g', w, w, from, to);
    assert 0 <= Slipped(from, to, j) < MAP_WALK_WIDTH;
    if north {
      LookOnMap(w, to, 0, j);
      assert OnMap(to, 0, j) && Look(w, to, 0, j);
      assert Cell(g, 1, j) == Look(w, from, 1, j);
    } else {
      LookOnMap(w, to, MAP_WALK_HEIGHT - 1, j);
      assert OnMap(to, MAP_WALK_HEIGHT - 1, j) && Look(w, to, MAP_WALK_HEIGHT - 1, j);
      assert !Look(w, to, MAP_WALK_HEIGHT - 1, Slipped(from, to, j));
    }
    assert !SlipHarmless(g, w, from, to);
    assert AgreeBut(w, w, {from, to});
  }

  // ----- What can happen -----------------------------------------------------------------------

  /**
   What can happen around a creature whose cache is loaded.  Whether a square lets the creature in depends on more
   than the handlers' test on item types looks at (floor changes and teleports on the square, fields), and on the
   creature itself (locked movement, fields it ignores, the target of its master), of which no handler is told.
   */
  datatype Event =
    | Step(to: Position)                                        // an own step to a neighbouring square
    | Jump(to: Position)                                        // an own teleport or change of floor
    | OtherMoves(oldPos: Position, newPos: Position)
    | ItemAdded(at: Position)
    | ItemUpdated(at: Position, oldType: ItemType, newType: ItemType)
    | ItemRemoved(at: Position, iType: ItemType)
    | OtherComesOrGoes(at: Position)
    | Unseen                                                    // anything that no handler is called for

  /** `clean` holds as long as nothing has spoilt the cache since it was last looked up whole. */
  datatype State = State(g: Grid, w: World, p: Position, clean: bool)

  /** The world changes where the event happens; a jump comes with any new world. */
  predicate WorldFollows(p: Position, w: World, e: Event, w': World) {
    match e
    case Step(to) => UnitStep(p, to) && AgreeBut(w, w', {p, to})
    case Jump(_) => true
    case OtherMoves(oldPos, newPos) => AgreeBut(w, w', {oldPos, newPos})
    case ItemAdded(at) => AgreeBut(w, w', {at})
    case ItemUpdated(at, _, _) => AgreeBut(w, w', {at})
    case ItemRemoved(at, _) => AgreeBut(w, w', {at})
    case OtherComesOrGoes(at) => AgreeBut(w, w', {at})
    case Unseen => true
  }

  function Moved(p: Position, e: Event): Position {
    if e.Step? || e.Jump? then e.to else p
  }

  /** The cell after the event, as the handlers leave it. */
  predicate CellAfter(g: Grid, p: Position, e: Event, w': World, i: int, j: int) {
    match e
    case Step(to) => SteppedAt(g, w', p, to, i, j)
    case Jump(to) => LookedUpAt(g, w', to, i, j)
    case OtherMoves(oldPos, newPos) =>
      if IsAt(p, oldPos, i, j) then oldPos in w' else SquareAt(g, w', p, newPos, i, j)
    case ItemAdded(at) => SquareAt(g, w', p, at, i, j)
    case ItemUpdated(at, oldType, newType) =>
      if UpdateNoticed(oldType, newType) then SquareAt(g, w', p, at, i, j) else Cell(g, i, j)
    case ItemRemoved(at, iType) =>
      if RemoveNoticed(iType) then SquareAt(g, w', p, at, i, j) else Cell(g, i, j)
    case OtherComesOrGoes(at) => SquareAt(g, w', p, at, i, j)
    case Unseen => Cell(g, i, j)
  }

  ghost predicate After(g: Grid, p: Position, e: Event, w': World, g': Grid) {
    forall i, j {:trigger Cell(g', i, j)} | InWindow(i, j) :: Cell(g', i, j) == CellAfter(g, p, e, w', i, j)
  }

  // ----- What spoils the cache -----------------------------------------------------------------

  /** The cache around `p` holds an answer about the square. */
  predicate Watched(p: Position, at: Position) {
    && at.z == p.z && at != p
    && Abs(at.x - p.x) <= MAX_WALK_CACHE_WIDTH && Abs(at.y - p.y) <= MAX_WALK_CACHE_HEIGHT
  }

  /** The two worlds say the same of every square that is watched. */
  ghost predicate SeenAlike(w: World, w': World, p: Position) {
    forall at: Position | Watched(p, at) :: at in w <==> at in w'
  }

  /** No handler looks at the squares anew. */
  predicate Unnoticed(e: Event) {
    match e
    case ItemUpdated(_, oldType, newType) => !UpdateNoticed(oldType, newType)
    case ItemRemoved(_, iType) => !RemoveNoticed(iType)
    case Unseen => true
    case _ => false
  }

  /** The two ways in which an event spoils a fresh cache. */
  ghost predicate Spoils(g: Grid, w: World, p: Position, e: Event, w': World) {
    || (e.Step? && SouthernDiagonal(p, e.to) && !SlipHarmless(g, w', p, e.to))
    || (Unnoticed(e) && !SeenAlike(w, w', p))
  }

  /** Any event leaves a fresh cache in agreement with the map as it is then, unless it spoils it. */
  lemma {:induction false} EventKeepsFreshIff(g: Grid, w: World, p: Position, e: Event, g': Grid, w': World)
    requires Fresh(g, w, p) && WorldFollows(p, w, e, w') && After(g, p, e, w', g')
    ensures Fresh(g', w', Moved(p, e)) <==> !Spoils(g, w, p, e, w')
  {
    match e {
      case Step(to) =>
        assert AfterStep(g, g', w', p, to);
        if SouthernDiagonal(p, to) {
          SouthernDiagonalKeepsFreshIff(g, g', w, w', p, to);
        } else {
          StepKeepsFresh(g, g', w, w', p, to);
        }
      case Jump(_) =>
      case _ =>
        if Unnoticed(e) {
          UnnoticedKeepsFreshIff(g, w, p, g', w');
        } else {
          NoticedKeepsFresh(g, w, p, e, g', w');
        }
    }
  }

  /** If no cell is written, the cache stays fresh exactly when no watched square has changed. */
  lemma {:induction false} UnnoticedKeepsFreshIff(g: Grid, w: World, p: Position, g': Grid, w': World)
    requires Fresh(g, w, p)
    requires forall i, j {:trigger Cell(g', i, j)} | InWindow(i, j) :: Cell(g', i, j) == Cell(g, i, j)
    ensures Fresh(g', w', p) <==> SeenAlike(w, w', p)
  {
    if Fresh(g', w', p) {
      forall at: Position | Watched(p, at) ensures at in w <==> at in w' {
        FreshAnswers(g, w, p, at);
        FreshAnswers(g', w', p, at);
      }
    }
    if SeenAlike(w, w', p) {
      forall i, j | InWindow(i, j) && OnMap(p, i, j) && (i, j) != (MAX_WALK_CACHE_HEIGHT, MAX_WALK_CACHE_WIDTH)
        ensures Cell(g', i, j) == Look(w', p, i, j)
      {
        assert Cell(g, i, j) == Look(w, p, i, j);
        assert Watched(p, Position(p.x + j - MAX_WALK_CACHE_WIDTH, p.y + i - MAX_WALK_CACHE_HEIGHT, p.z));
      }
    }
  }

  lemma {:induction false} NoticedKeepsFresh(g: Grid, w: World, p: Position, e: Event, g': Grid, w': World)
    requires Fresh(g, w, p) && WorldFollows(p, w, e, w') && After(g, p, e, w', g')
    requires !e.Step? && !e.Jump? && !Unnoticed(e)
    ensures Fresh(g', w', p)
  {
    forall i, j | InWindow(i, j) && OnMap(p, i, j) && (i, j) != (MAX_WALK_CACHE_HEIGHT, MAX_WALK_CACHE_WIDTH)
      ensures Cell(g', i, j) == Look(w', p, i, j)
    {
      SquareKeepsFresh(g, w, p, e, w', i, j);
    }
  }

  lemma {:induction false} SquareKeepsFresh(g: Grid, w: World, p: Position, e: Event, w': World, i: int, j: int)
    requires Fresh(g, w, p) && WorldFollows(p, w, e, w') && !e.Step? && !e.Jump? && !Unnoticed(e)
    requires InWindow(i, j) && OnMap(p, i, j) && (i, j) != (MAX_WALK_CACHE_HEIGHT, MAX_WALK_CACHE_WIDTH)
    ensures CellAfter(g, p, e, w', i, j) == Look(w', p, i, j)
  {
    var at := Position(p.x + j - MAX_WALK_CACHE_WIDTH, p.y + i - MAX_WALK_CACHE_HEIGHT, p.z);
    assert Cell(g, i, j) == Look(w, p, i, j);
    if e.OtherMoves? {
      assert at != e.oldPos && at != e.newPos ==> (at in w' <==> at in w - {e.oldPos, e.newPos});
    } else {
      assert at != e.at ==> (at in w' <==> at in w' - {e.at}) && (at in w <==> at in w - {e.at});
    }
  }

  /** An event that happens to a creature at `p` and keeps every fresh cache fresh, whatever the world is. */
  ghost predicate Harmless(p: Position, e: Event) {
    forall g: Grid, w: World, g': Grid, w': World |
      Fresh(g, w, p) && WorldFollows(p, w, e, w') && After(g, p, e, w', g') :: Fresh(g', w', Moved(p, e))
  }

  /** Harmless are all events but steps to the south-east and south-west, updates and removals of items that the
      handlers let pass on a square that is watched, and what no handler is told of. */
  lemma {:induction false} HarmlessIff(p: Position, e: Event)
    requires e.Step? ==> UnitStep(p, e.to)
    ensures Harmless(p, e) <==>
              match e
              case Step(to) => !SouthernDiagonal(p, to)
              case ItemUpdated(at, oldType, newType) =>
                oldType.blockSolid || oldType.blockPathFind || newType.blockSolid || newType.blockPathFind
                || at.z != p.z || at == p || Abs(at.x - p.x) > 11 || Abs(at.y - p.y) > 11
              case ItemRemoved(at, iType) =>
                iType.blockSolid || iType.blockPathFind || iType.groundTile
                || at.z != p.z || at == p || Abs(at.x - p.x) > 11 || Abs(at.y - p.y) > 11
              case Unseen => false
              case _ => true
  {
    if e.Step? && SouthernDiagonal(p, e.to) {
      SlipShows(p, e.to);
      var g: Grid, g': Grid, w: World, w': World :|
        Fresh(g, w, p) && AgreeBut(w, w', {p, e.to}) && AfterStep(g, g', w', p, e.to) && !Fresh(g', w', e.to);
      assert After(g, p, e, w', g');
    } else if Unnoticed(e) && (e.Unseen? || Watched(p, e.at)) {
      MissShows(p, e);
    } else {
      forall g: Grid, w: World, g': Grid, w': World |
        Fresh(g, w, p) && WorldFollows(p, w, e, w') && After(g, p, e, w', g')
        ensures Fresh(g', w', Moved(p, e))
      {
        if Unnoticed(e) {
          OthersSeenAlike(w, w', p, e.at);
        }
        EventKeepsFreshIff(g, w, p, e, g', w');
      }
    }
  }

  lemma {:induction false} OthersSeenAlike(w: World, w': World, p: Position, at: Position)
    requires AgreeBut(w, w', {at}) && !Watched(p, at)
    ensures SeenAlike(w, w', p)
  {
    forall q: Position | Watched(p, q) ensures q in w <==> q in w' {
      assert q in w - {at} <==> q in w' - {at};
    }
  }

  /** For every event that the handlers let pass there is a map that goes wrong: all closed, but for the square
      that opens. */
  lemma {:induction false} MissShows(p: Position, e: Event)
    requires Unnoticed(e) && (!e.Unseen? ==> Watched(p, e.at))
    ensures !Harmless(p, e)
  {
    var beside := Position(if p.x > 0 then p.x - 1 else p.x + 1, p.y, p.z);
    var at := if e.Unseen? then beside else e.at;
    var w, w': World := {}, {at};
    var g := Drawn(w, p);
    assert WorldFollows(p, w, e, w');
    assert After(g, p, e, w', g);
    assert Watched(p, at) && at in w' && at !in w;
    EventKeepsFreshIff(g, w, p, e, g, w');
  }

  // ----- Whole runs ----------------------------------------------------------------------------

  ghost predicate Next(s: State, e: Event, s': State) {
    && WorldFollows(s.p, s.w, e, s'.w)
    && s'.p == Moved(s.p, e)
    && s'.clean == (e.Jump? || (s.clean && !Spoils(s.g, s.w, s.p, e, s'.w)))
    && After(s.g, s.p, e, s'.w, s'.g)
  }

  lemma {:induction false} EventKeepsFresh(s: State, e: Event, s': State)
    requires Next(s, e, s') && (s.clean ==> Fresh(s.g, s.w, s.p))
    ensures s'.clean ==> Fresh(s'.g, s'.w, s'.p)
    ensures s.clean ==> (s'.clean <==> Fresh(s'.g, s'.w, s'.p))
  {
    if s.clean {
      EventKeepsFreshIff(s.g, s.w, s.p, e, s'.g, s'.w);
    }
  }

  ghost predicate IsRun(run: seq<State>, events: seq<Event>) {
    && |run| == |events| + 1
    && forall k | 0 <= k < |events| :: Next(run[k], events[k], run[k + 1])
  }

  /** After any run that starts from a fresh cache, whatever else moves, comes, goes or changes, the cache
      answers what the map would say, unless it was spoilt since the last full look-up. */
  lemma {:induction false} RunStaysFresh(run: seq<State>, events: seq<Event>)
    requires IsRun(run, events)
    requires run[0].clean ==> Fresh(run[0].g, run[0].w, run[0].p)
    ensures var last := run[|events|]; last.clean ==> Fresh(last.g, last.w, last.p)
    decreases |events|
  {
    if events != [] {
      var n := |events| - 1;
      RunStaysFresh(run[..n + 1], events[..n]);
      EventKeepsFresh(run[n], events[n], run[n + 1]);
    }
  }

  /** Each event comes with the map as it is then. */
  predicate Possible(p: Position, w: World, events: seq<(Event, World)>)
    decreases |events|
  {
    events == [] ||
    (WorldFollows(p, w, events[0].0, events[0].1) && Possible(Moved(p, events[0].0), events[0].1, events[1..]))
  }

  /** The handler of an event, called once the creature and the map are where the event has left them. */
  method Handle(c: Creature, e: Event, w': World)
    requires c.Valid() && c.isMapLoaded && (e.Step? ==> UnitStep(c.position, e.to))
    modifies c`position, c.localMapCache
    ensures c.position == Moved(old(c.position), e)
    ensures After(old(c.Contents()), old(c.position), e, w', c.Contents())
  {
    match e {
      case Step(to) =>
        var oldPos := c.position;
        c.position := to;
        c.OnOwnMove(w', oldPos, to, false);
      case Jump(to) =>
        var oldPos := c.position;
        c.position := to;
        c.OnOwnMove(w', oldPos, to, true);
      case OtherMoves(oldPos, newPos) =>
        c.OnOtherMove(w', oldPos, newPos);
      case ItemAdded(at) =>
        c.OnAddTileItem(w', at);
      case ItemUpdated(at, oldType, newType) =>
        c.OnUpdateTileItem(w', at, oldType, newType);
      case ItemRemoved(at, iType) =>
        c.OnRemoveTileItem(w', at, iType);
      case OtherComesOrGoes(at) =>
        c.OnOtherCreature(w', at);
      case Unseen =>
    }
  }

  /** A square in the window, asked about right after an item on it has changed: if one of the two types blocks, the
      answer is what the map says now, and otherwise what it was. */
  method AskAfterUpdate(c: Creature, w': World, at: Position, oldType: ItemType, newType: ItemType)
    returns (before: int, answer: int)
    requires c.Valid() && c.isMapLoaded && c.useCacheMap
    requires at.z == c.position.z && at != c.position
    requires Abs(at.x - c.position.x) <= 11 && Abs(at.y - c.position.y) <= 11
    modifies c.localMapCache
    ensures answer == if oldType.blockSolid || oldType.blockPathFind || newType.blockSolid || newType.blockPathFind
                      then (if at in w' then 1 else 0) else before
  {
    before := c.GetWalkCache(at);
    c.OnUpdateTileItem(w', at, oldType, newType);
    answer := c.GetWalkCache(at);
  }

  /** The same after an item has been taken away: if its type blocks or is ground. */
  method AskAfterRemoval(c: Creature, w': World, at: Position, iType: ItemType) returns (before: int, answer: int)
    requires c.Valid() && c.isMapLoaded && c.useCacheMap
    requires at.z == c.position.z && at != c.position
    requires Abs(at.x - c.position.x) <= 11 && Abs(at.y - c.position.y) <= 11
    modifies c.localMapCache
    ensures answer == if iType.blockSolid || iType.blockPathFind || iType.groundTile
                      then (if at in w' then 1 else 0) else before
  {
    before := c.GetWalkCache(at);
    c.OnRemoveTileItem(w', at, iType);
    answer := c.GetWalkCache(at);
  }

  /** A creature appears, lives through any events, and is asked about a square: unless its cache was spoilt since
      the last full look-up, it answers what the map says of that square by then. */
  method Run(c: Creature, w: World, events: seq<(Event, World)>, q: Position)
    returns (answer: int, ghost run: seq<State>)
    requires c.Valid() && c.useCacheMap && Possible(c.position, w, events)
    modifies c`position, c`isMapLoaded, c.localMapCache
    ensures IsRun(run, seq(|events|, k requires 0 <= k < |events| => events[k].0))
    ensures run[0].p == old(c.position) && run[0].w == w && run[0].clean
    ensures forall k | 0 <= k < |events| :: run[k + 1].w == events[k].1
    ensures var last := run[|events|];
            && c.position == last.p && c.Contents() == last.g
            && (last.clean ==>
                  answer == if last.p.z != q.z then 0
                            else if q == last.p then 1
                            else if !Watched(last.p, q) then 2
                            else if q in last.w then 1
                            else 0)
  {
    hide After, Spoils, Moved;
    c.LoadMap(w);
    ghost var s := State(c.Contents(), w, c.position, true);
    run := [s];
    for k := 0 to |events|
      invariant |run| == k + 1 && run[0].p == old(c.position) && run[0].w == w && run[0].clean
      invariant c.isMapLoaded && s == run[k] && s.g == c.Contents() && s.p == c.position
      invariant s.clean ==> Fresh(s.g, s.w, s.p)
      invariant Possible(s.p, s.w, events[k..])
      invariant forall j | 0 <= j < k :: run[j + 1].w == events[j].1 && Next(run[j], events[j].0, run[j + 1])
    {
      ghost var before, e := s, events[k].0;
      assert events[k..][0] == events[k] && events[k..][1..] == events[k + 1..];
      Handle(c, events[k].0, events[k].1);
      s := State(c.Contents(), events[k].1, c.position,
                 e.Jump? || (before.clean && !Spoils(before.g, before.w, before.p, e, events[k].1)));
      EventKeepsFresh(before, e, s);
      run := run + [s];
    }
    answer := c.GetWalkCache(q);
    if s.clean {
      FreshAnswers(s.g, s.w, s.p, q);
    }
  }
}
