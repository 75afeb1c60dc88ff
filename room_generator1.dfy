/**
 * RoomGenerator1.cs: rooms at least 10 wide placed with a gap of 8, each
 * numbered by its position, connected by straight corridors of thickness 0.
 */
module FirstGen {
  import opened Drawing
  import opened Rooms
  import opened Wrappers
  import opened Placement
  import opened Connectivity
  import opened Sequences

  /**
   * `Room`. Rooms carry their `RoomInfo` and a 1-based `Index`; corridors
   * carry their `RoomConnectionInfo` and leave `Index` at 0.
   */
  datatype Room = Room(
    rect: Rect, info: Option<RoomInfo>, connection: Option<Connection>,
    kind: RoomType, orientation: Orientation, index: int)

  /** The minimum separation `GenerateRooms` keeps between rooms. */
  const Gap := 8

  /** The values `GenerateDimension`'s four `Random.Next` calls may return. */
  predicate ValidDraw(mapWidth: int, mapHeight: int, roomMaxWidth: int, roomMaxHeight: int, d: Draw) {
    && NextReturns(10, roomMaxWidth, d.width)
    && NextReturns(5, roomMaxHeight, d.height)
    && NextReturns(2, mapWidth - d.width - 2, d.x)
    && NextReturns(2, mapHeight - d.height - 2, d.y)
  }

  /**
   * Where a drawn room may lie: at least 10 wide and 5 high and below the
   * maxima, at least 2 from the top-left edges and 3 from the far edges
   * (the bounds are reached only when `Random.Next(a, a)` returns a).
   */
  predicate InBounds(mapWidth: int, mapHeight: int, roomMaxWidth: int, roomMaxHeight: int, r: Rect) {
    && 10 <= r.width && (r.width < roomMaxWidth || r.width == roomMaxWidth == 10)
    && 5 <= r.height && (r.height < roomMaxHeight || r.height == roomMaxHeight == 5)
    && 2 <= r.x && (Right(r) <= mapWidth - 3 || (r.x == 2 && Right(r) == mapWidth - 2))
    && 2 <= r.y && (Bottom(r) <= mapHeight - 3 || (r.y == 2 && Bottom(r) == mapHeight - 2))
  }

  /** `GenerateDimension`, given the values its random source returned. */
  function GenerateDimension(mapWidth: int, mapHeight: int, roomMaxWidth: int, roomMaxHeight: int, d: Draw): (dim: Rect)
    requires ValidDraw(mapWidth, mapHeight, roomMaxWidth, roomMaxHeight, d)
    ensures InBounds(mapWidth, mapHeight, roomMaxWidth, roomMaxHeight, dim)
  {
    Rect(d.x, d.y, d.width, d.height)
  }

  /** The candidate rooms a stream of draws produces. */
  function Candidates(mapWidth: int, mapHeight: int, roomMaxWidth: int, roomMaxHeight: int, draws: seq<Draw>): seq<Rect>
    requires forall k :: 0 <= k < |draws| ==> ValidDraw(mapWidth, mapHeight, roomMaxWidth, roomMaxHeight, draws[k])
  {
    seq(|draws|, k requires 0 <= k < |draws| => GenerateDimension(mapWidth, mapHeight, roomMaxWidth, roomMaxHeight, draws[k]))
  }

  /** The record `GenerateRooms` appends for an accepted rectangle when `count` rooms precede it. */
  function NewRoom(dim: Rect, count: int): Room {
    Room.Room(dim, Some(GetRoomInfo(dim)), Option.None, RoomType.Room, Orientation.None, count + 1)
  }

  function Rects(rooms: seq<Room>): seq<Rect> {
    seq(|rooms|, k requires 0 <= k < |rooms| => rooms[k].rect)
  }

  function RectOf(room: Room): Rect { room.rect }

  /**
   * Rooms whose rectangles are the placement of a stream of draws: at most
   * `numRooms` of them, each inside the map, pairwise separated and disjoint.
   */
  lemma PlacedRooms(mapWidth: int, mapHeight: int, roomMaxWidth: int, roomMaxHeight: int, numRooms: int,
                    draws: seq<Draw>, rooms: seq<Room>)
    requires forall k :: 0 <= k < |draws| ==> ValidDraw(mapWidth, mapHeight, roomMaxWidth, roomMaxHeight, draws[k])
    requires Rects(rooms) == Place(Gap, [], Candidates(mapWidth, mapHeight, roomMaxWidth, roomMaxHeight, draws), 0, numRooms)
    ensures numRooms >= 0 ==> |rooms| <= numRooms
    ensures forall k :: 0 <= k < |rooms| ==> InBounds(mapWidth, mapHeight, roomMaxWidth, roomMaxHeight, rooms[k].rect)
    ensures PairwiseSeparated(Rects(rooms), Gap)
    ensures forall i, j :: 0 <= i < |rooms| && 0 <= j < |rooms| && i != j ==> !IntersectsWith(rooms[i].rect, rooms[j].rect)
  {
    PlaceFromEmpty(Gap, Candidates(mapWidth, mapHeight, roomMaxWidth, roomMaxHeight, draws), numRooms);
    forall k | 0 <= k < |rooms|
      ensures InBounds(mapWidth, mapHeight, roomMaxWidth, roomMaxHeight, rooms[k].rect)
    {
      assert rooms[k].rect == Rects(rooms)[k];
    }
    forall i, j | 0 <= i < |rooms| && 0 <= j < |rooms| && i != j
      ensures !IntersectsWith(rooms[i].rect, rooms[j].rect)
    {
      assert rooms[i].rect == Rects(rooms)[i] && rooms[j].rect == Rects(rooms)[j];
    }
  }

  /**
   * `GenerateRooms`: for each of `numRooms` rooms, draw candidates until one
   * is more than `Gap` away from every room so far, then append it. The
   * random source is the finite stream `draws`; should it run dry, the rooms
   * placed so far are returned.
   */
  method GenerateRooms(mapWidth: int, mapHeight: int, roomMaxWidth: int, roomMaxHeight: int, numRooms: int, draws: seq<Draw>)
    returns (rooms: seq<Room>)
    requires forall k :: 0 <= k < |draws| ==> ValidDraw(mapWidth, mapHeight, roomMaxWidth, roomMaxHeight, draws[k])
    ensures Rects(rooms) == Place(Gap, [], Candidates(mapWidth, mapHeight, roomMaxWidth, roomMaxHeight, draws), 0, numRooms)
    ensures numRooms >= 0 ==> |rooms| <= numRooms
    ensures forall k :: 0 <= k < |rooms| ==>
      rooms[k] == NewRoom(rooms[k].rect, k) && InBounds(mapWidth, mapHeight, roomMaxWidth, roomMaxHeight, rooms[k].rect)
    ensures PairwiseSeparated(Rects(rooms), Gap)
    ensures forall i, j :: 0 <= i < |rooms| && 0 <= j < |rooms| && i != j ==> !IntersectsWith(rooms[i].rect, rooms[j].rect)
  {
    ghost var candidates := Candidates(mapWidth, mapHeight, roomMaxWidth, roomMaxHeight, draws);
    ghost var target := Place(Gap, [], candidates, 0, numRooms);
    rooms := [];
    var next := 0;
    var i := 0;
    label placing:
    while i < numRooms
      invariant 0 <= next <= |draws| && 0 <= i && (i <= numRooms || i == 0)
      invariant Place(Gap, Rects(rooms), candidates, next, numRooms - i) == target
      invariant forall k :: 0 <= k < |rooms| ==> rooms[k] == NewRoom(rooms[k].rect, k)
    {
      if next == |draws| {
        break;
      }
      var dim := GenerateDimension(mapWidth, mapHeight, roomMaxWidth, roomMaxHeight, draws[next]);
      next := next + 1;
      while TooClose(dim, Rects(rooms), Gap)
        invariant 1 <= next <= |draws| && dim == candidates[next - 1]
        invariant Place(Gap, Rects(rooms), candidates, next - 1, numRooms - i) == target
        decreases |draws| - next
      {
        if next == |draws| {
          break placing;
        }
        dim := GenerateDimension(mapWidth, mapHeight, roomMaxWidth, roomMaxHeight, draws[next]);
        next := next + 1;
      }
      assert Rects(rooms + [NewRoom(dim, |rooms|)]) == Rects(rooms) + [dim];
      rooms := rooms + [NewRoom(dim, |rooms|)];
      i := i + 1;
    }
    PlacedRooms(mapWidth, mapHeight, roomMaxWidth, roomMaxHeight, numRooms, draws, rooms);
  }

  /** A room `AreRoomsConnectable` can read: its `RoomInfo` is set and its sizes are non-negative. */
  predicate Connectable(room: Room) {
    room.info.Some? && RangesDefined(room.info.value)
  }

  function Infos(rooms: seq<Room>): (infos: seq<RoomInfo>)
    requires forall k :: 0 <= k < |rooms| ==> Connectable(rooms[k])
    ensures Analysable(Rects(rooms), infos)
  {
    seq(|rooms|, k requires 0 <= k < |rooms| && Connectable(rooms[k]) => rooms[k].info.value)
  }

  /** Corridors of RoomGenerator1.cs have thickness 0. */
  const CorridorThickness := 0

  /** The corridor record built from one connection. */
  function CorridorOf(cnx: Connection): Room
    requires |cnx.range| > 0
  {
    Room.Room(StraightCorridor(cnx, CorridorThickness), Option.None, Some(cnx), RoomType.Corridor, cnx.orientation, 0)
  }

  function CorridorsOf(cnxs: seq<Connection>): seq<Room>
    requires forall k :: 0 <= k < |cnxs| ==> ConnectionOk(cnxs[k])
  {
    seq(|cnxs|, k requires 0 <= k < |cnxs| && ConnectionOk(cnxs[k]) => CorridorOf(cnxs[k]))
  }

  /** The corridor loop of `GenerateCorridors`: one corridor per connection. */
  method BuildCorridors(roomConnectionInfos: seq<Connection>) returns (corridors: seq<Room>)
    requires forall k :: 0 <= k < |roomConnectionInfos| ==> ConnectionOk(roomConnectionInfos[k])
    ensures corridors == CorridorsOf(roomConnectionInfos)
  {
    corridors := [];
    var k := 0;
    while k < |roomConnectionInfos|
      invariant 0 <= k <= |roomConnectionInfos|
      invariant corridors == CorridorsOf(roomConnectionInfos[..k])
    {
      var cnx := roomConnectionInfos[k];
      var corridor := Empty;
      var corridorIntersection := cnx.range[|cnx.range| / 2];
      if cnx.orientation == Vertical {
        corridor := Rect(corridorIntersection, Bottom(cnx.dominant), 0, Top(cnx.inferior) - Bottom(cnx.dominant));
      } else if cnx.orientation == Horizontal {
        corridor := Rect(Right(cnx.dominant), corridorIntersection, Left(cnx.inferior) - Right(cnx.dominant), 0);
      }
      assert Room.Room(corridor, Option.None, Some(cnx), RoomType.Corridor, cnx.orientation, 0) == CorridorOf(cnx);
      corridors := corridors + [Room.Room(corridor, Option.None, Some(cnx), RoomType.Corridor, cnx.orientation, 0)];
      k := k + 1;
      assert roomConnectionInfos[..k] == roomConnectionInfos[..k - 1] + [cnx];
    }
    assert roomConnectionInfos[..k] == roomConnectionInfos;
  }

  /**
   * `GenerateCorridors`: collect the connection of every ordered pair of
   * distinct rooms, build one corridor per connection at the middle of its
   * intersection range, then drop the corridors that some room intersects.
   * Distinct `Room` objects are the distinct positions of the list.
   */
  method GenerateCorridors(rooms: seq<Room>) returns (result: seq<Room>)
    requires forall k :: 0 <= k < |rooms| ==> Connectable(rooms[k])
    ensures result == KeepClear(CorridorsOf(Connections(Rects(rooms), Infos(rooms))), RectOf, Rects(rooms))
    ensures forall c :: c in result ==> c.kind == RoomType.Corridor && !HitsRoom(c.rect, Rects(rooms))
  {
    var roomConnectionInfos := ConnectAll(Rects(rooms), Infos(rooms));
    var corridors := BuildCorridors(roomConnectionInfos);
    result := RemoveBlocked(corridors, RectOf, Rects(rooms));
  }

  /**
   * A corridor never intersects the two rooms it joins, so the filter
   * drops it only for crossing some third room.
   */
  lemma DroppedCorridorCrossesThirdRoom(cnx: Connection, rooms: seq<Room>)
    requires ConnectionOk(cnx) && HitsRoom(CorridorOf(cnx).rect, Rects(rooms))
    ensures exists k :: (0 <= k < |rooms| && IntersectsWith(rooms[k].rect, CorridorOf(cnx).rect) &&
                         rooms[k].rect != cnx.dominant && rooms[k].rect != cnx.inferior)
  {
    CorridorAvoidsItsRooms(cnx, CorridorThickness);
  }

  /**
   * For rooms as `GenerateRooms` places them, every room can be analysed and
   * every corridor runs more than `Gap` cells between its two rooms.
   */
  lemma CorridorsOutlastGap(rooms: seq<Room>)
    requires forall k :: 0 <= k < |rooms| ==>
      rooms[k].info == Some(GetRoomInfo(rooms[k].rect)) && rooms[k].rect.width >= 0 && rooms[k].rect.height >= 0
    requires PairwiseSeparated(Rects(rooms), Gap)
    ensures forall k :: 0 <= k < |rooms| ==> Connectable(rooms[k])
    ensures forall c :: c in Connections(Rects(rooms), Infos(rooms)) ==> (
      && (c.orientation == Vertical ==> CorridorOf(c).rect.height > Gap)
      && (c.orientation == Horizontal ==> CorridorOf(c).rect.width > Gap))
  {
    ConnectionsSpanGap(Rects(rooms), Infos(rooms), Gap, CorridorThickness);
  }
}
