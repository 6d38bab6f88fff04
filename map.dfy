/**
 * The dungeon map of roguelike/src/map.rs: rectangles, the 80x50 tile grid
 * indexed row by row, room and tunnel carving, the blocked-tile index, the
 * neighbour enumeration used by path finding, and the room-placement loop of
 * the map generator with its random draws supplied as inputs.
 *
 * Coordinates are unbounded integers; the grid width 80 and height 50 are
 * written as literals in index arithmetic, as the source's `xy_idx` does.
 */
module RoguelikeMap {

  datatype TileType = Wall | Floor

  /** Map width and height; the source keeps them in fields that are always 80 and 50. */
  const WIDTH: int := 80
  const HEIGHT: int := 50
  /** Number of tiles, `80 * 50`. */
  const TILES: nat := 4000

  /** Opaque entity handles stored per tile. */
  type Entity = nat

  function Min(a: int, b: int): int { if a <= b then a else b }
  function Max(a: int, b: int): int { if a <= b then b else a }

  // ---------------------------------------------------------------------
  // Rectangles
  // ---------------------------------------------------------------------

  /** An axis-aligned rectangle with inclusive corners. */
  datatype Rect = Rect(x1: int, x2: int, y1: int, y2: int)

  /** `Rect::new`: corner (x, y), extending w columns right and h rows down. */
  function RectNew(x: int, y: int, w: int, h: int): (r: Rect)
    ensures r.x1 == x && r.y1 == y
    ensures r.x2 - r.x1 == w && r.y2 - r.y1 == h
  {
    Rect(x, x + w, y, y + h)
  }

  predicate WellFormed(r: Rect) {
    r.x1 <= r.x2 && r.y1 <= r.y2
  }

  /** The point (x, y) lies in r, borders included. */
  predicate Contains(r: Rect, x: int, y: int) {
    r.x1 <= x <= r.x2 && r.y1 <= y <= r.y2
  }

  /** `Rect::intersect`: the closed ranges overlap on both axes. */
  predicate Intersect(a: Rect, b: Rect) {
    a.x1 <= b.x2 && a.x2 >= b.x1 && a.y1 <= b.y2 && a.y2 >= b.y1
  }

  lemma IntersectSymmetric(a: Rect, b: Rect)
    ensures Intersect(a, b) <==> Intersect(b, a)
  {
  }

  /** Two well-formed rectangles intersect exactly when they share a point. */
  lemma IntersectIffSharedPoint(a: Rect, b: Rect)
    requires WellFormed(a) && WellFormed(b)
    ensures Intersect(a, b) <==> exists x, y :: Contains(a, x, y) && Contains(b, x, y)
  {
    if Intersect(a, b) {
      var x, y := Max(a.x1, b.x1), Max(a.y1, b.y1);
      assert Contains(a, x, y) && Contains(b, x, y);
    }
  }

  /** Borders are inclusive: rectangles that only touch along an edge intersect. */
  lemma TouchingIntersect(a: Rect, b: Rect)
    requires WellFormed(a) && WellFormed(b)
    requires a.x2 == b.x1 && a.y1 <= b.y2 && b.y1 <= a.y2
    ensures Intersect(a, b)
  {
    assert Contains(a, a.x2, Max(a.y1, b.y1)) && Contains(b, a.x2, Max(a.y1, b.y1));
  }

  /** Integer halving as Rust's `/` on `i32` does it: rounded toward zero. */
  function HalfTowardZero(n: int): (r: int)
    ensures 0 <= n ==> 0 <= n - 2 * r <= 1
    ensures n < 0 ==> 0 <= 2 * r - n <= 1
  {
    if n >= 0 then n / 2 else -((-n) / 2)
  }

  /** `Rect::center`. */
  function Center(r: Rect): (int, int) {
    (HalfTowardZero(r.x1 + r.x2), HalfTowardZero(r.y1 + r.y2))
  }

  /** The centre of a well-formed rectangle lies inside it, whatever the signs. */
  lemma CenterInside(r: Rect)
    requires WellFormed(r)
    ensures Contains(r, Center(r).0, Center(r).1)
  {
    var c := Center(r);
    assert 2 * c.0 - 1 <= r.x1 + r.x2 <= 2 * c.0 + 1;
    assert 2 * c.1 - 1 <= r.y1 + r.y2 <= 2 * c.1 + 1;
  }

  // ---------------------------------------------------------------------
  // Tile indices
  // ---------------------------------------------------------------------

  /**
   * `xy_idx`: row-major index with the literal row length 80. The source
   * casts to `usize`, so a negative coordinate wraps to a huge index; every
   * caller either stays inside the grid or rejects indices outside
   * (0, 4000), which treats the wrapped and the negative value alike.
   */
  function XyIdx(x: int, y: int): int {
    y * 80 + x
  }

  lemma XyIdxRoundTrip(x: int, y: int)
    requires 0 <= x < 80 && 0 <= y < 50
    ensures 0 <= XyIdx(x, y) < TILES
    ensures XyIdx(x, y) % 80 == x && XyIdx(x, y) / 80 == y
  {
  }

  lemma XyIdxInjective(xa: int, ya: int, xb: int, yb: int)
    requires 0 <= xa < 80 && 0 <= ya < 50
    requires 0 <= xb < 80 && 0 <= yb < 50
    ensures XyIdx(xa, ya) == XyIdx(xb, yb) <==> xa == xb && ya == yb
  {
    XyIdxRoundTrip(xa, ya);
    XyIdxRoundTrip(xb, yb);
  }

  /** Tile i lies strictly inside the room's borders: x1 < x <= x2, y1 < y <= y2. */
  predicate InRoom(room: Rect, i: int) {
    room.x1 < i % 80 <= room.x2 && room.y1 < i / 80 <= room.y2
  }

  /** Index i is one of those the horizontal tunnel from xa to xb on row y writes. */
  predicate OnHorizontal(i: int, xa: int, xb: int, y: int) {
    0 < i < TILES && Min(xa, xb) <= i - y * 80 <= Max(xa, xb)
  }

  /** Index i is one of those the vertical tunnel from ya to yb on column x writes. */
  predicate OnVertical(i: int, ya: int, yb: int, x: int) {
    0 < i < TILES && (i - x) % 80 == 0 && Min(ya, yb) <= (i - x) / 80 <= Max(ya, yb)
  }

  // ---------------------------------------------------------------------
  // Corridors between room centres
  // ---------------------------------------------------------------------

  /** Every tile of row y between columns xa and xb is floor. */
  ghost predicate HorizontalFloor(t: seq<TileType>, xa: int, xb: int, y: int)
    requires |t| == TILES
  {
    forall x :: Min(xa, xb) <= x <= Max(xa, xb) ==> 0 <= XyIdx(x, y) < TILES && t[XyIdx(x, y)] == Floor
  }

  /** Every tile of column x between rows ya and yb is floor. */
  ghost predicate VerticalFloor(t: seq<TileType>, ya: int, yb: int, x: int)
    requires |t| == TILES
  {
    forall y :: Min(ya, yb) <= y <= Max(ya, yb) ==> 0 <= XyIdx(x, y) < TILES && t[XyIdx(x, y)] == Floor
  }

  /** An L-shaped floor path joins a to b, bending at (b.0, a.1) or at (a.0, b.1). */
  ghost predicate Connected(t: seq<TileType>, a: (int, int), b: (int, int))
    requires |t| == TILES
  {
    (HorizontalFloor(t, a.0, b.0, a.1) && VerticalFloor(t, a.1, b.1, b.0))
    || (VerticalFloor(t, a.1, b.1, a.0) && HorizontalFloor(t, a.0, b.0, b.1))
  }

  /** Every floor tile of t is still floor in u. */
  ghost predicate FloorGrows(t: seq<TileType>, u: seq<TileType>) {
    |t| == |u| && forall i :: 0 <= i < |t| && t[i] == Floor ==> u[i] == Floor
  }

  lemma FloorGrowsTransitive(t: seq<TileType>, u: seq<TileType>, v: seq<TileType>)
    requires FloorGrows(t, u) && FloorGrows(u, v)
    ensures FloorGrows(t, v)
  {
  }

  lemma HorizontalFloorGrows(t: seq<TileType>, u: seq<TileType>, xa: int, xb: int, y: int)
    requires |t| == TILES && FloorGrows(t, u) && HorizontalFloor(t, xa, xb, y)
    ensures HorizontalFloor(u, xa, xb, y)
  {
  }

  lemma VerticalFloorGrows(t: seq<TileType>, u: seq<TileType>, ya: int, yb: int, x: int)
    requires |t| == TILES && FloorGrows(t, u) && VerticalFloor(t, ya, yb, x)
    ensures VerticalFloor(u, ya, yb, x)
  {
  }

  /** A horizontal tunnel on an inner row makes its whole segment floor and removes no floor. */
  lemma HorizontalTunnelCarves(t: seq<TileType>, u: seq<TileType>, xa: int, xb: int, y: int)
    requires |t| == TILES && |u| == TILES
    requires 1 <= y <= 48 && 0 <= Min(xa, xb) && Max(xa, xb) <= 79
    requires forall i :: 0 <= i < TILES ==> u[i] == if OnHorizontal(i, xa, xb, y) then Floor else t[i]
    ensures FloorGrows(t, u) && HorizontalFloor(u, xa, xb, y)
  {
    forall x | Min(xa, xb) <= x <= Max(xa, xb)
      ensures 0 <= XyIdx(x, y) < TILES && u[XyIdx(x, y)] == Floor
    {
      assert OnHorizontal(XyIdx(x, y), xa, xb, y);
    }
  }

  /** A vertical tunnel on an inner column makes its whole segment floor and removes no floor. */
  lemma VerticalTunnelCarves(t: seq<TileType>, u: seq<TileType>, ya: int, yb: int, x: int)
    requires |t| == TILES && |u| == TILES
    requires 1 <= x <= 78 && 0 <= Min(ya, yb) && Max(ya, yb) <= 49
    requires forall i :: 0 <= i < TILES ==> u[i] == if OnVertical(i, ya, yb, x) then Floor else t[i]
    ensures FloorGrows(t, u) && VerticalFloor(u, ya, yb, x)
  {
    forall y | Min(ya, yb) <= y <= Max(ya, yb)
      ensures 0 <= XyIdx(x, y) < TILES && u[XyIdx(x, y)] == Floor
    {
      assert (XyIdx(x, y) - x) % 80 == 0 && (XyIdx(x, y) - x) / 80 == y;
      assert OnVertical(XyIdx(x, y), ya, yb, x);
    }
  }

  lemma ConnectedGrows(t: seq<TileType>, u: seq<TileType>, a: (int, int), b: (int, int))
    requires |t| == TILES && FloorGrows(t, u) && Connected(t, a, b)
    ensures Connected(u, a, b)
  {
    if HorizontalFloor(t, a.0, b.0, a.1) && VerticalFloor(t, a.1, b.1, b.0) {
      assert HorizontalFloor(u, a.0, b.0, a.1);
      assert VerticalFloor(u, a.1, b.1, b.0);
    } else {
      assert VerticalFloor(u, a.1, b.1, a.0);
      assert HorizontalFloor(u, a.0, b.0, b.1);
    }
  }

  /**
   * The tiles the corridor code of rand_map_rooms_and_corridors writes as it
   * stands: both tunnels start from the previous centre (the vertical one on
   * column prev.0, the horizontal one on row prev.1), whichever the coin.
   */
  predicate CorridorAsWritten(prev: (int, int), next: (int, int), i: int) {
    OnHorizontal(i, prev.0, next.0, prev.1) || OnVertical(i, prev.1, next.1, prev.0)
  }

  /**
   * Two rooms that do not intersect, and not one tile of the corridor
   * written for them lies in the second room: the room is left unreached.
   */
  lemma CorridorAsWrittenMissesRoom()
    ensures !Intersect(Rect(5, 15, 5, 15), Rect(35, 45, 25, 35))
    ensures Center(Rect(5, 15, 5, 15)) == (10, 10) && Center(Rect(35, 45, 25, 35)) == (40, 30)
    ensures forall i :: CorridorAsWritten((10, 10), (40, 30), i) ==> !InRoom(Rect(35, 45, 25, 35), i)
  {
    forall i | CorridorAsWritten((10, 10), (40, 30), i)
      ensures !InRoom(Rect(35, 45, 25, 35), i)
    {
      if OnHorizontal(i, 10, 40, 10) {
        assert 810 <= i <= 840;
      } else {
        assert (i - 10) % 80 == 0;
      }
    }
  }

  /** Placement bounds every room the generator builds satisfies. */
  predicate Placeable(r: Rect) {
    0 <= r.x1 && r.x1 + 2 <= r.x2 <= 78 && 0 <= r.y1 && r.y1 + 2 <= r.y2 <= 48
  }

  lemma PlaceableCenter(r: Rect)
    requires Placeable(r)
    ensures 1 <= Center(r).0 <= 78 && 1 <= Center(r).1 <= 48
  {
    CenterInside(r);
  }

  // ---------------------------------------------------------------------
  // Neighbour offsets of get_available_exits, cardinals first
  // ---------------------------------------------------------------------

  /** Offset (dx, dy) of neighbour j: west, east, north, south, then the four diagonals. */
  function Offset(j: nat): (int, int)
    requires j < 8
  {
    match j
    case 0 => (-1, 0)
    case 1 => (1, 0)
    case 2 => (0, -1)
    case 3 => (0, 1)
    case 4 => (-1, -1)
    case 5 => (1, -1)
    case 6 => (-1, 1)
    case 7 => (1, 1)
  }

  /** The draws the generator takes from its random number generator for one room. */
  datatype RoomDraw = RoomDraw(w: int, h: int, xRoll: int, yRoll: int, coin: int)

  /**
   * What the draws can be: `range(6, 10)` for w and h, `roll_dice(1, n)` for
   * the corner rolls, `range(0, 2)` for the coin.
   */
  predicate DrawInRange(d: RoomDraw) {
    6 <= d.w < 10 && 6 <= d.h < 10
    && 1 <= d.xRoll <= WIDTH - d.w - 1 && 1 <= d.yRoll <= HEIGHT - d.h - 1
    && 0 <= d.coin < 2
  }

  /** The room a draw describes, `Rect::new(roll_x - 1, roll_y - 1, w, h)`. */
  function DrawnRoom(d: RoomDraw): (r: Rect)
    requires DrawInRange(d)
    ensures Placeable(r) && WellFormed(r)
  {
    RectNew(d.xRoll - 1, d.yRoll - 1, d.w, d.h)
  }

  /** The room intersects none of the rooms of the list. */
  predicate IntersectsNone(room: Rect, rooms: seq<Rect>) {
    forall j :: 0 <= j < |rooms| ==> !Intersect(room, rooms[j])
  }

  /** No two rooms of the list intersect. */
  ghost predicate Disjoint(rooms: seq<Rect>) {
    forall j, k :: 0 <= j < k < |rooms| ==> !Intersect(rooms[j], rooms[k])
  }

  /** Every room's interior is floor, and consecutive rooms' centres are connected. */
  ghost predicate Carved(t: seq<TileType>, rooms: seq<Rect>)
    requires |t| == TILES
  {
    (forall j, i :: 0 <= j < |rooms| && 0 <= i < TILES && InRoom(rooms[j], i) ==> t[i] == Floor)
    && (forall k :: 0 < k < |rooms| ==> Connected(t, Center(rooms[k - 1]), Center(rooms[k])))
  }

  lemma CarvedGrows(t: seq<TileType>, u: seq<TileType>, rooms: seq<Rect>)
    requires |t| == TILES && FloorGrows(t, u) && Carved(t, rooms)
    ensures Carved(u, rooms)
  {
    forall k | 0 < k < |rooms|
      ensures Connected(u, Center(rooms[k - 1]), Center(rooms[k]))
    {
      ConnectedGrows(t, u, Center(rooms[k - 1]), Center(rooms[k]));
    }
  }

  // ---------------------------------------------------------------------
  // The map
  // ---------------------------------------------------------------------

  class Map {
    var tiles: array<TileType>
    var rooms: seq<Rect>
    var blocked: array<bool>
    var tileContent: array<seq<Entity>>

    ghost predicate Valid()
      reads this
    {
      tiles.Length == TILES && blocked.Length == TILES && tileContent.Length == TILES
    }

    /** The map rand_map_rooms_and_corridors starts from: all wall, nothing blocked, no rooms. */
    constructor ()
      ensures Valid() && fresh(tiles) && fresh(blocked) && fresh(tileContent)
      ensures rooms == []
      ensures forall i :: 0 <= i < TILES ==> tiles[i] == Wall && !blocked[i] && tileContent[i] == []
    {
      tiles := new TileType[TILES](_ => Wall);
      rooms := [];
      blocked := new bool[TILES](_ => false);
      tileContent := new seq<Entity>[TILES](_ => []);
    }

    /** `apply_room_to_map`: the interior of the room becomes floor, nothing else changes. */
    method ApplyRoomToMap(room: Rect)
      requires Valid()
      requires -1 <= room.x1 && room.x2 < 80 && -1 <= room.y1 && room.y2 < 50
      modifies tiles
      ensures forall i :: 0 <= i < TILES ==> tiles[i] == if InRoom(room, i) then Floor else old(tiles[i])
    {
      var y := room.y1 + 1;
      while y <= room.y2
        invariant room.y1 + 1 <= y && (y == room.y1 + 1 || y <= room.y2 + 1)
        invariant forall i :: 0 <= i < TILES ==>
          tiles[i] == if room.x1 < i % 80 <= room.x2 && room.y1 < i / 80 < y then Floor else old(tiles[i])
      {
        var x := room.x1 + 1;
        while x <= room.x2
          invariant room.x1 + 1 <= x && (x == room.x1 + 1 || x <= room.x2 + 1)
          invariant forall i :: 0 <= i < TILES ==>
            tiles[i] == if (room.x1 < i % 80 <= room.x2 && room.y1 < i / 80 < y) || (i / 80 == y && room.x1 < i % 80 < x)
                        then Floor else old(tiles[i])
        {
          XyIdxRoundTrip(x, y);
          tiles[XyIdx(x, y)] := Floor;
          x := x + 1;
        }
        y := y + 1;
      }
    }

    /**
     * `apply_horizontal_tunnel`: along row y from min(xa, xb) to max(xa, xb),
     * every index strictly between 0 and 4000 becomes floor.
     */
    method ApplyHorizontalTunnel(xa: int, xb: int, y: int)
      requires Valid()
      modifies tiles
      ensures forall i :: 0 <= i < TILES ==> tiles[i] == if OnHorizontal(i, xa, xb, y) then Floor else old(tiles[i])
    {
      var x := Min(xa, xb);
      while x <= Max(xa, xb)
        invariant Min(xa, xb) <= x <= Max(xa, xb) + 1
        invariant forall i :: 0 <= i < TILES ==>
          tiles[i] == if 0 < i && Min(xa, xb) <= i - y * 80 < x then Floor else old(tiles[i])
      {
        var idx := XyIdx(x, y);
        if 0 < idx < TILES {
          tiles[idx] := Floor;
        }
        x := x + 1;
      }
    }

    /**
     * `apply_vertical_tunnel`: along column x from min(ya, yb) to max(ya, yb),
     * every index strictly between 0 and 4000 becomes floor.
     */
    method ApplyVerticalTunnel(ya: int, yb: int, x: int)
      requires Valid()
      modifies tiles
      ensures forall i :: 0 <= i < TILES ==> tiles[i] == if OnVertical(i, ya, yb, x) then Floor else old(tiles[i])
    {
      var y := Min(ya, yb);
      while y <= Max(ya, yb)
        invariant Min(ya, yb) <= y <= Max(ya, yb) + 1
        invariant forall i :: 0 <= i < TILES ==>
          tiles[i] == if 0 < i && (i - x) % 80 == 0 && Min(ya, yb) <= (i - x) / 80 < y then Floor else old(tiles[i])
      {
        var idx := XyIdx(x, y);
        assert (idx - x) % 80 == 0 && (idx - x) / 80 == y;
        if 0 < idx < TILES {
          tiles[idx] := Floor;
        }
        y := y + 1;
      }
    }

    /** `is_exit_valid`: inside the border ring of the map and not blocked. */
    predicate IsExitValid(x: int, y: int)
      requires Valid()
      reads this, blocked
    {
      if x < 1 || x > WIDTH - 1 || y < 1 || y > HEIGHT - 1 then false
      else !blocked[XyIdx(x, y)]
    }

    /** `populate_blocked`: a tile is blocked exactly when it is a wall. */
    method PopulateBlocked()
      requires Valid()
      modifies blocked
      ensures forall i :: 0 <= i < TILES ==> blocked[i] == (tiles[i] == Wall)
    {
      var i := 0;
      while i < tiles.Length
        invariant 0 <= i <= TILES
        invariant forall k :: 0 <= k < i ==> blocked[k] == (tiles[k] == Wall)
      {
        blocked[i] := tiles[i] == Wall;
        i := i + 1;
      }
    }

    /** Once populated, an exit is valid exactly when it is an inner floor tile. */
    lemma ExitValidAfterPopulate(x: int, y: int)
      requires Valid()
      requires forall i :: 0 <= i < TILES ==> blocked[i] == (tiles[i] == Wall)
      ensures IsExitValid(x, y) <==> 1 <= x <= 79 && 1 <= y <= 49 && tiles[XyIdx(x, y)] == Floor
    {
    }

    /** `clear_content_index`: every tile's entity list becomes empty. */
    method ClearContentIndex()
      requires Valid()
      modifies tileContent
      ensures forall i :: 0 <= i < TILES ==> tileContent[i] == []
    {
      var i := 0;
      while i < tileContent.Length
        invariant 0 <= i <= TILES
        invariant forall k :: 0 <= k < i ==> tileContent[k] == []
      {
        tileContent[i] := [];
        i := i + 1;
      }
    }

    /** The j-th neighbour of tile idx is a valid exit, and e is its index. */
    predicate IsNeighbourExit(idx: nat, j: nat, e: int)
      requires Valid() && j < 8
      reads this, blocked
    {
      IsExitValid(idx % 80 + Offset(j).0, idx / 80 + Offset(j).1)
      && e == XyIdx(idx % 80 + Offset(j).0, idx / 80 + Offset(j).1)
    }

    /** The exit through neighbour j of tile idx, if that neighbour is a valid exit. */
    function ExitAt(idx: nat, j: nat): (r: seq<int>)
      requires Valid() && j < 8
      reads this, blocked
      ensures |r| <= 1 && forall e :: e in r ==> IsNeighbourExit(idx, j, e)
    {
      var x, y := idx % 80 + Offset(j).0, idx / 80 + Offset(j).1;
      if IsExitValid(x, y) then [XyIdx(x, y)] else []
    }

    /**
     * The exits of tile idx through the neighbours lo .. hi - 1 of the offset
     * table, in table order.
     */
    function ExitsIn(idx: nat, lo: nat, hi: nat): (r: seq<int>)
      requires Valid() && lo <= hi <= 8
      reads this, blocked
      ensures |r| <= hi - lo
      decreases hi - lo
    {
      if lo == hi then [] else ExitsIn(idx, lo, hi - 1) + ExitAt(idx, hi - 1)
    }

    /** Each exit in ExitsIn(idx, lo, hi) is a valid neighbour through an offset in lo..hi. */
    lemma {:induction false} ExitsAreNeighbours(idx: nat, lo: nat, hi: nat)
      requires Valid() && lo <= hi <= 8
      ensures forall e :: e in ExitsIn(idx, lo, hi) ==> exists j :: lo <= j < hi && IsNeighbourExit(idx, j, e)
      decreases hi - lo
    {
      if lo < hi {
        ExitsAreNeighbours(idx, lo, hi - 1);
        forall e | e in ExitsIn(idx, lo, hi)
          ensures exists j :: lo <= j < hi && IsNeighbourExit(idx, j, e)
        {
          if e in ExitAt(idx, hi - 1) {
            assert IsNeighbourExit(idx, hi - 1, e);
          } else {
            assert e in ExitsIn(idx, lo, hi - 1);
          }
        }
      }
    }

    lemma {:induction false} ExitsInSplit(idx: nat, lo: nat, mid: nat, hi: nat)
      requires Valid() && lo <= mid <= hi <= 8
      ensures ExitsIn(idx, lo, hi) == ExitsIn(idx, lo, mid) + ExitsIn(idx, mid, hi)
      decreases hi - mid
    {
      if mid < hi {
        ExitsInSplit(idx, lo, mid, hi - 1);
        var a, b, c := ExitsIn(idx, lo, mid), ExitsIn(idx, mid, hi - 1), ExitAt(idx, hi - 1);
        assert ExitsIn(idx, lo, hi) == (a + b) + c;
        assert ExitsIn(idx, mid, hi) == b + c;
        assert (a + b) + c == a + (b + c);
      }
    }

    /**
     * get_available_exits lists at most eight exits: first the valid
     * cardinal neighbours (table entries 0..4), then the valid diagonal ones.
     */
    lemma CardinalsBeforeDiagonals(idx: nat)
      requires Valid()
      ensures ExitsIn(idx, 0, 8) == ExitsIn(idx, 0, 4) + ExitsIn(idx, 4, 8)
      ensures |ExitsIn(idx, 0, 8)| <= 8
      ensures forall e :: e in ExitsIn(idx, 0, 4) ==> exists j :: 0 <= j < 4 && IsNeighbourExit(idx, j, e)
      ensures forall e :: e in ExitsIn(idx, 4, 8) ==> exists j :: 4 <= j < 8 && IsNeighbourExit(idx, j, e)
    {
      ExitsInSplit(idx, 0, 4, 8);
      ExitsAreNeighbours(idx, 0, 4);
      ExitsAreNeighbours(idx, 4, 8);
    }

    /** The valid neighbour through offset j is listed among the exits of lo..hi. */
    lemma {:induction false} ValidNeighbourListed(idx: nat, j: nat, lo: nat, hi: nat)
      requires Valid() && lo <= j < hi <= 8
      requires IsExitValid(idx % 80 + Offset(j).0, idx / 80 + Offset(j).1)
      ensures XyIdx(idx % 80 + Offset(j).0, idx / 80 + Offset(j).1) in ExitsIn(idx, lo, hi)
    {
      ExitsInSplit(idx, lo, j, hi);
      ExitsInSplit(idx, j, j + 1, hi);
      assert ExitsIn(idx, j, j + 1) == ExitAt(idx, j);
    }

    /**
     * The exits of tile idx are exactly its valid neighbours: an index is
     * listed iff some offset leads to it and the neighbour there is a valid exit.
     */
    lemma ExitsExactly(idx: nat, e: int)
      requires Valid()
      ensures e in ExitsIn(idx, 0, 8) <==> exists j :: 0 <= j < 8 && IsNeighbourExit(idx, j, e)
    {
      ExitsAreNeighbours(idx, 0, 8);
      if exists j :: 0 <= j < 8 && IsNeighbourExit(idx, j, e) {
        var j :| 0 <= j < 8 && IsNeighbourExit(idx, j, e);
        ValidNeighbourListed(idx, j, 0, 8);
      }
    }

    /**
     * `get_available_exits`: the valid exits among the eight neighbours of
     * idx, cardinals first; the per-exit cost (always 1.0) is left out.
     */
    method GetAvailableExits(idx: nat) returns (exits: seq<int>)
      requires Valid() && idx < 0x8000_0000
      ensures exits == ExitsIn(idx, 0, 8)
    {
      var x, y := idx % 80, idx / 80;
      var w := 80;
      exits := [];
      // Cardinal.
      exits := PushExit(idx, 0, exits, x - 1, y, idx - 1);
      exits := PushExit(idx, 1, exits, x + 1, y, idx + 1);
      exits := PushExit(idx, 2, exits, x, y - 1, idx - w);
      exits := PushExit(idx, 3, exits, x, y + 1, idx + w);
      // Diagonal.
      exits := PushExit(idx, 4, exits, x - 1, y - 1, idx - w - 1);
      exits := PushExit(idx, 5, exits, x + 1, y - 1, idx - w + 1);
      exits := PushExit(idx, 6, exits, x - 1, y + 1, idx + w - 1);
      exits := PushExit(idx, 7, exits, x + 1, y + 1, idx + w + 1);
    }

    /**
     * One `if is_exit_valid(x, y) { exits.push(e) }` of get_available_exits,
     * for the k-th neighbour (x, y) of idx, whose index is e.
     */
    method PushExit(idx: nat, ghost k: nat, exits: seq<int>, x: int, y: int, e: int) returns (r: seq<int>)
      requires Valid() && k < 8 && exits == ExitsIn(idx, 0, k)
      requires x == idx % 80 + Offset(k).0 && y == idx / 80 + Offset(k).1
      requires e == idx + Offset(k).1 * 80 + Offset(k).0
      ensures r == ExitsIn(idx, 0, k + 1)
    {
      if IsExitValid(x, y) {
        r := exits + [e];
      } else {
        r := exits;
      }
    }

    /**
     * One pass of the loop body of rand_map_rooms_and_corridors: the room is
     * accepted only if it intersects no earlier room; then it is carved, a
     * corridor joins its centre to the previous room's centre (horizontal
     * arm first when the coin is 1), and it is appended to the rooms.
     *
     * The source's corridor starts both arms at the previous centre
     * (map.rs:196-200), so it need not reach the new room at all; here the
     * second arm starts at the bend, as an L-shaped corridor must.
     */
    method PlaceRoom(newRoom: Rect, coin: int)
      returns (ok: bool)
      requires Valid() && Placeable(newRoom) && forall r :: r in rooms ==> Placeable(r)
      modifies this`rooms, tiles
      ensures ok <==> IntersectsNone(newRoom, old(rooms))
      ensures rooms == if ok then old(rooms) + [newRoom] else old(rooms)
      ensures !ok ==> unchanged(tiles)
      ensures FloorGrows(old(tiles[..]), tiles[..])
      ensures ok ==> forall i :: 0 <= i < TILES && InRoom(newRoom, i) ==> tiles[i] == Floor
      ensures ok && |old(rooms)| > 0 ==> Connected(tiles[..], Center(old(rooms)[|old(rooms)| - 1]), Center(newRoom))
    {
      ok := true;
      var k := 0;
      while k < |rooms|
        invariant 0 <= k <= |rooms|
        invariant ok <==> forall j :: 0 <= j < k ==> !Intersect(newRoom, rooms[j])
      {
        if Intersect(newRoom, rooms[k]) {
          ok := false;
        }
        k := k + 1;
      }
      if ok {
        ApplyRoomToMap(newRoom);
        if |rooms| > 0 {
          PlaceableCenter(rooms[|rooms| - 1]);
          PlaceableCenter(newRoom);
          Corridor(Center(rooms[|rooms| - 1]), Center(newRoom), coin);
        }
        rooms := rooms + [newRoom];
      }
    }

    /** The two tunnels joining centre prev to centre next. */
    method Corridor(prev: (int, int), next: (int, int), coin: int)
      requires Valid()
      requires 1 <= prev.0 <= 78 && 1 <= prev.1 <= 48 && 1 <= next.0 <= 78 && 1 <= next.1 <= 48
      modifies tiles
      ensures FloorGrows(old(tiles[..]), tiles[..])
      ensures Connected(tiles[..], prev, next)
    {
      ghost var t0 := tiles[..];
      if coin == 1 {
        ApplyHorizontalTunnel(prev.0, next.0, prev.1);
        ghost var t1 := tiles[..];
        HorizontalTunnelCarves(t0, t1, prev.0, next.0, prev.1);
        ApplyVerticalTunnel(prev.1, next.1, next.0);
        VerticalTunnelCarves(t1, tiles[..], prev.1, next.1, next.0);
        HorizontalFloorGrows(t1, tiles[..], prev.0, next.0, prev.1);
        FloorGrowsTransitive(t0, t1, tiles[..]);
      } else {
        ApplyVerticalTunnel(prev.1, next.1, prev.0);
        ghost var t1 := tiles[..];
        VerticalTunnelCarves(t0, t1, prev.1, next.1, prev.0);
        ApplyHorizontalTunnel(prev.0, next.0, next.1);
        HorizontalTunnelCarves(t1, tiles[..], prev.0, next.0, next.1);
        VerticalFloorGrows(t1, tiles[..], prev.1, next.1, prev.0);
        FloorGrowsTransitive(t0, t1, tiles[..]);
      }
    }
  }

  /**
   * The rooms the generator keeps from the first n draws: each drawn room in
   * turn, when it intersects none of the rooms kept before it.
   */
  function KeptRooms(draws: seq<RoomDraw>, n: nat): (r: seq<Rect>)
    requires n <= |draws| && forall d :: d in draws ==> DrawInRange(d)
    ensures |r| <= n
  {
    if n == 0 then []
    else
      var kept := KeptRooms(draws, n - 1);
      var room := DrawnRoom(draws[n - 1]);
      if IntersectsNone(room, kept) then kept + [room] else kept
  }

  /** The first draw is always kept: nothing was kept before it to intersect. */
  lemma {:induction false} FirstDrawKept(draws: seq<RoomDraw>, n: nat)
    requires 1 <= n <= |draws| && forall d :: d in draws ==> DrawInRange(d)
    ensures |KeptRooms(draws, n)| >= 1 && KeptRooms(draws, n)[0] == DrawnRoom(draws[0])
  {
    if n > 1 {
      FirstDrawKept(draws, n - 1);
    }
  }

  /**
   * One round of rand_map_rooms_and_corridors: the n-th drawn room is placed
   * when it intersects no room kept so far.
   */
  method PlaceDraw(m: Map, draws: seq<RoomDraw>, n: nat)
    requires n < |draws| && forall d :: d in draws ==> DrawInRange(d)
    requires m.Valid() && m.rooms == KeptRooms(draws, n)
    requires forall r :: r in m.rooms ==> Placeable(r)
    requires Disjoint(m.rooms) && Carved(m.tiles[..], m.rooms)
    modifies m`rooms, m.tiles
    ensures m.Valid() && m.rooms == KeptRooms(draws, n + 1)
    ensures forall r :: r in m.rooms ==> Placeable(r)
    ensures Disjoint(m.rooms) && Carved(m.tiles[..], m.rooms)
  {
    var room := DrawnRoom(draws[n]);
    ghost var before, t0 := m.rooms, m.tiles[..];
    var ok := m.PlaceRoom(room, draws[n].coin);
    if ok {
      KeepsPlan(t0, m.tiles[..], before, room);
    }
  }

  /**
   * `rand_map_rooms_and_corridors`, with the thirty rounds' random draws as
   * input: the rooms kept are the drawn rooms that intersect no earlier kept
   * room; they lie inside the map, their interiors are floor and consecutive
   * rooms are joined by a corridor.
   */
  method RandMapRoomsAndCorridors(draws: seq<RoomDraw>) returns (m: Map)
    requires |draws| == 30 && forall d :: d in draws ==> DrawInRange(d)
    ensures fresh(m) && fresh(m.tiles) && m.Valid()
    ensures m.rooms == KeptRooms(draws, 30)
    ensures |m.rooms| <= 30
    ensures forall r :: r in m.rooms ==> Placeable(r)
    ensures Disjoint(m.rooms)
    ensures Carved(m.tiles[..], m.rooms)
  {
    m := new Map();
    var round := 0;
    while round < 30
      invariant 0 <= round <= 30
      invariant fresh(m) && fresh(m.tiles) && m.Valid()
      invariant m.rooms == KeptRooms(draws, round)
      invariant |m.rooms| <= round
      invariant forall r :: r in m.rooms ==> Placeable(r)
      invariant Disjoint(m.rooms)
      invariant Carved(m.tiles[..], m.rooms)
    {
      PlaceDraw(m, draws, round);
      round := round + 1;
    }
  }

  /** Appending an accepted, carved and connected room keeps the plan's invariants. */
  lemma KeepsPlan(t: seq<TileType>, u: seq<TileType>, rooms: seq<Rect>, room: Rect)
    requires |t| == TILES && FloorGrows(t, u)
    requires Disjoint(rooms) && Carved(t, rooms)
    requires forall j :: 0 <= j < |rooms| ==> !Intersect(room, rooms[j])
    requires forall i :: 0 <= i < TILES && InRoom(room, i) ==> u[i] == Floor
    requires |rooms| > 0 ==> Connected(u, Center(rooms[|rooms| - 1]), Center(room))
    ensures Disjoint(rooms + [room]) && Carved(u, rooms + [room])
  {
    CarvedGrows(t, u, rooms);
    var all := rooms + [room];
    forall j, k | 0 <= j < k < |all|
      ensures !Intersect(all[j], all[k])
    {
      if k == |rooms| {
        IntersectSymmetric(room, rooms[j]);
      }
    }
    forall k | 0 < k < |all|
      ensures Connected(u, Center(all[k - 1]), Center(all[k]))
    {
      if k < |rooms| {
        assert all[k - 1] == rooms[k - 1] && all[k] == rooms[k];
      }
    }
  }
}
