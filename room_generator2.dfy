/**
 * RoomGenerator2.cs: rooms built through `CreateRoomFromRect`, placed with
 * a padding of 8, and joined west to east by horizontal corridors that bend
 * through a vertical joint when the two rooms' middles differ.
 */
module SecondGen {
  import opened Drawing
  import opened Rooms
  import opened Wrappers
  import opened Placement

  /** `RoomConnection`: four points, all left at their default. */
  datatype RoomConnection = RoomConnection(topMiddle: Point, leftMiddle: Point, rightMiddle: Point, bottomMiddle: Point)

  /** A freshly constructed `RoomConnection`. */
  const UnsetConnection := RoomConnection(Point(0, 0), Point(0, 0), Point(0, 0), Point(0, 0))

  /** `Room`: every room and corridor carries the information of its own rectangle. */
  datatype Room = Room(rect: Rect, info: RoomInfo, kind: RoomType, orientation: Orientation, connection: RoomConnection)

  /** A record as `CreateRoomFromRect` builds it: its information describes its own rectangle. */
  predicate Consistent(room: Room) {
    room.info == GetRoomInfo(room.rect) && room.connection == UnsetConnection
  }

  /** `CreateRoomFromRect`. */
  function CreateRoomFromRect(x: int, y: int, width: int, height: int, orientation: Orientation, roomType: RoomType): (room: Room)
    ensures Consistent(room)
    ensures room.rect == Rect(x, y, width, height)
    ensures room.info.topRight == Point(x + width, y) && room.info.bottomRight == Point(x + width, y + height)
    ensures room.orientation == orientation && room.kind == roomType
  {
    var roomInfo := GetRoomInfo(Rect(x, y, width, height));
    Room.Room(roomInfo.rectangle, roomInfo, roomType, orientation, RoomConnection(Point(0, 0), Point(0, 0), Point(0, 0), Point(0, 0)))
  }

  /** The padding `GenerateRooms` keeps between rooms. */
  const Padding := 8

  /** The values `GenerateDimension`'s four `Random.Next` calls may return. */
  predicate ValidDraw(mapWidth: int, mapHeight: int, roomMaxWidth: int, roomMaxHeight: int, d: Draw) {
    && NextReturns(10, roomMaxWidth, d.width)
    && NextReturns(5, roomMaxHeight, d.height)
    && NextReturns(2, mapWidth - d.width - 2, d.x)
    && NextReturns(2, mapHeight - d.height - 2, d.y)
  }

  /**
   * Where a drawn room may lie: at least 10 wide and 5 high and below the
   * maxima, at least 2 from the top-left edges and 3 from the far edges
   * (the bounds are reached only when `Random.Next(a, a)` returns a).
   */
  predicate InBounds(mapWidth: int, mapHeight: int, roomMaxWidth: int, roomMaxHeight: int, r: Rect) {
    && 10 <= r.width && (r.width < roomMaxWidth || r.width == roomMaxWidth == 10)
    && 5 <= r.height && (r.height < roomMaxHeight || r.height == roomMaxHeight == 5)
    && 2 <= r.x && (Right(r) <= mapWidth - 3 || (r.x == 2 && Right(r) == mapWidth - 2))
    && 2 <= r.y && (Bottom(r) <= mapHeight - 3 || (r.y == 2 && Bottom(r) == mapHeight - 2))
  }

  /** `GenerateDimension`, given the values its random source returned. */
  function GenerateDimension(mapWidth: int, mapHeight: int, roomMaxWidth: int, roomMaxHeight: int, d: Draw): (dim: Rect)
    requires ValidDraw(mapWidth, mapHeight, roomMaxWidth, roomMaxHeight, d)
    ensures InBounds(mapWidth, mapHeight, roomMaxWidth, roomMaxHeight, dim)
  {
    Rect(d.x, d.y, d.width, d.height)
  }

  /** With `MAX_ROOM_WIDTH` at 10, `Random.Next(10, 10)` makes every room exactly 10 wide. */
  lemma MaxWidthTenFixesWidth(mapWidth: int, mapHeight: int, roomMaxHeight: int, d: Draw)
    requires ValidDraw(mapWidth, mapHeight, 10, roomMaxHeight, d)
    ensures GenerateDimension(mapWidth, mapHeight, 10, roomMaxHeight, d).width == 10
  {
  }

  /** The candidate rooms a stream of draws produces. */
  function Candidates(mapWidth: int, mapHeight: int, roomMaxWidth: int, roomMaxHeight: int, draws: seq<Draw>): seq<Rect>
    requires forall k :: 0 <= k < |draws| ==> ValidDraw(mapWidth, mapHeight, roomMaxWidth, roomMaxHeight, draws[k])
  {
    seq(|draws|, k requires 0 <= k < |draws| => GenerateDimension(mapWidth, mapHeight, roomMaxWidth, roomMaxHeight, draws[k]))
  }

  /** The record `GenerateRooms` appends for an accepted rectangle. */
  function NewRoom(dim: Rect): Room {
    CreateRoomFromRect(dim.x, dim.y, dim.width, dim.height, Orientation.None, RoomType.Room)
  }

  function Rects(rooms: seq<Room>): seq<Rect> {
    seq(|rooms|, k requires 0 <= k < |rooms| => rooms[k].rect)
  }

  /**
   * Rooms whose rectangles are the placement of a stream of draws: at most
   * `numRooms` of them, each inside the map, pairwise separated and disjoint.
   */
  lemma PlacedRooms(mapWidth: int, mapHeight: int, roomMaxWidth: int, roomMaxHeight: int, numRooms: int,
                    draws: seq<Draw>, rooms: seq<Room>)
    requires forall k :: 0 <= k < |draws| ==> ValidDraw(mapWidth, mapHeight, roomMaxWidth, roomMaxHeight, draws[k])
    requires Rects(rooms) == Place(Padding, [], Candidates(mapWidth, mapHeight, roomMaxWidth, roomMaxHeight, draws), 0, numRooms)
    ensures numRooms >= 0 ==> |rooms| <= numRooms
    ensures forall k :: 0 <= k < |rooms| ==> InBounds(mapWidth, mapHeight, roomMaxWidth, roomMaxHeight, rooms[k].rect)
    ensures PairwiseSeparated(Rects(rooms), Padding)
    ensures forall i, j :: 0 <= i < |rooms| && 0 <= j < |rooms| && i != j ==> !IntersectsWith(rooms[i].rect, rooms[j].rect)
  {
    PlaceFromEmpty(Padding, Candidates(mapWidth, mapHeight, roomMaxWidth, roomMaxHeight, draws), numRooms);
    forall k | 0 <= k < |rooms|
      ensures InBounds(mapWidth, mapHeight, roomMaxWidth, roomMaxHeight, rooms[k].rect)
    {
      assert rooms[k].rect == Rects(rooms)[k];
    }
    forall i, j | 0 <= i < |rooms| && 0 <= j < |rooms| && i != j
      ensures !IntersectsWith(rooms[i].rect, rooms[j].rect)
    {
      assert rooms[i].rect == Rects(rooms)[i] && rooms[j].rect == Rects(rooms)[j];
    }
  }

  /**
   * `GenerateRooms`: for each of `numRooms` rooms, draw candidates until one
   * is more than `Padding` away from every room so far, then append it. The
   * random source is the finite stream `draws`; should it run dry, the rooms
   * placed so far are returned.
   */
  method GenerateRooms(mapWidth: int, mapHeight: int, roomMaxWidth: int, roomMaxHeight: int, numRooms: int, draws: seq<Draw>)
    returns (rooms: seq<Room>)
    requires forall k :: 0 <= k < |draws| ==> ValidDraw(mapWidth, mapHeight, roomMaxWidth, roomMaxHeight, draws[k])
    ensures Rects(rooms) == Place(Padding, [], Candidates(mapWidth, mapHeight, roomMaxWidth, roomMaxHeight, draws), 0, numRooms)
    ensures numRooms >= 0 ==> |rooms| <= numRooms
    ensures forall k :: 0 <= k < |rooms| ==>
      rooms[k] == NewRoom(rooms[k].rect) && InBounds(mapWidth, mapHeight, roomMaxWidth, roomMaxHeight, rooms[k].rect)
    ensures PairwiseSeparated(Rects(rooms), Padding)
    ensures forall i, j :: 0 <= i < |rooms| && 0 <= j < |rooms| && i != j ==> !IntersectsWith(rooms[i].rect, rooms[j].rect)
  {
    ghost var candidates := Candidates(mapWidth, mapHeight, roomMaxWidth, roomMaxHeight, draws);
    ghost var target := Place(Padding, [], candidates, 0, numRooms);
    rooms := [];
    var next := 0;
    var i := 0;
    label placing:
    while i < numRooms
      invariant 0 <= next <= |draws| && 0 <= i && (i <= numRooms || i == 0)
      invariant Place(Padding, Rects(rooms), candidates, next, numRooms - i) == target
      invariant forall k :: 0 <= k < |rooms| ==> rooms[k] == NewRoom(rooms[k].rect)
    {
      if next == |draws| {
        break;
      }
      var dim := GenerateDimension(mapWidth, mapHeight, roomMaxWidth, roomMaxHeight, draws[next]);
      next := next + 1;
      while TooClose(dim, Rects(rooms), Padding)
        invariant 1 <= next <= |draws| && dim == candidates[next - 1]
        invariant Place(Padding, Rects(rooms), candidates, next - 1, numRooms - i) == target
        decreases |draws| - next
      {
        if next == |draws| {
          break placing;
        }
        dim := GenerateDimension(mapWidth, mapHeight, roomMaxWidth, roomMaxHeight, draws[next]);
        next := next + 1;
      }
      var room := CreateRoomFromRect(dim.x, dim.y, dim.width, dim.height, Orientation.None, RoomType.Room);
      assert Rects(rooms + [room]) == Rects(rooms) + [dim];
      rooms := rooms + [room];
      i := i + 1;
    }
    PlacedRooms(mapWidth, mapHeight, roomMaxWidth, roomMaxHeight, numRooms, draws, rooms);
  }

  // ---------------------------------------------------------------------------
  // Ordering by X and the closest neighbour to the east

  predicate SortedByX(s: seq<Room>) {
    forall i, j :: 0 <= i < j < |s| ==> s[i].rect.x <= s[j].rect.x
  }

  /** Inserts `r` after every element whose X is at most its own. */
  function InsertByX(r: Room, s: seq<Room>): (t: seq<Room>)
    ensures multiset(t) == multiset(s) + multiset{r}
    decreases |s|
  {
    if s == [] then [r]
    else if r.rect.x < s[0].rect.x then [r] + s
    else
      assert s == [s[0]] + s[1..];
      [s[0]] + InsertByX(r, s[1..])
  }

  /** Inserting into an ordered list keeps it ordered. */
  lemma {:induction false} InsertByXSorted(r: Room, s: seq<Room>)
    requires SortedByX(s)
    ensures SortedByX(InsertByX(r, s))
    decreases |s|
  {
    if s != [] && r.rect.x >= s[0].rect.x {
      var rest := InsertByX(r, s[1..]);
      InsertByXSorted(r, s[1..]);
      forall k | 0 <= k < |rest| ensures s[0].rect.x <= rest[k].rect.x {
        assert rest[k] in multiset(rest);
        if rest[k] != r {
          assert rest[k] in multiset(s[1..]);
          var m :| 0 <= m < |s[1..]| && s[1..][m] == rest[k];
          assert s[m + 1] == rest[k];
        }
      }
    }
  }

  /**
   * `OrderBy(x => x.Rectangle.X)`: a stable sort, each element inserted
   * after the earlier elements whose X is no greater.
   */
  function SortByX(s: seq<Room>): (t: seq<Room>)
    ensures multiset(t) == multiset(s)
    ensures SortedByX(t)
    decreases |s|
  {
    if s == [] then []
    else
      assert s == s[..|s| - 1] + [s[|s| - 1]];
      InsertByXSorted(s[|s| - 1], SortByX(s[..|s| - 1]));
      InsertByX(s[|s| - 1], SortByX(s[..|s| - 1]))
  }

  /** The filter of `FirstOrDefault`: `x` lies east of `room` and starts less than 3 below its bottom. */
  predicate EastNeighbour(room: Room, x: Room) {
    room.rect.x < x.rect.x && Bottom(room.rect) + 3 > x.rect.y
  }

  /** `FirstOrDefault`: the first element of `s` that passes the filter. */
  function FirstWhere(room: Room, s: seq<Room>): (r: Option<Room>)
    ensures r.None? <==> forall k :: 0 <= k < |s| ==> !EastNeighbour(room, s[k])
    ensures r.Some? ==> exists k :: (0 <= k < |s| && s[k] == r.value && EastNeighbour(room, s[k]) &&
                                      forall m :: 0 <= m < k ==> !EastNeighbour(room, s[m]))
    decreases |s|
  {
    if s == [] then Option.None
    else if EastNeighbour(room, s[0]) then Some(s[0])
    else
      var r := FirstWhere(room, s[1..]);
      assert forall k :: 1 <= k < |s| ==> s[k] == s[1..][k - 1];
      r
  }

  /** The closest room east of `room`: the first passing the filter in the list ordered by X. */
  function ClosestHorizontalNeighbor(room: Room, rooms: seq<Room>): Option<Room> {
    FirstWhere(room, SortByX(rooms))
  }

  /**
   * The neighbour exists exactly when some room passes the filter; it is
   * one of the rooms, it passes, and no room that passes lies further west.
   */
  lemma ClosestHorizontalNeighborIsClosest(room: Room, rooms: seq<Room>)
    ensures var r := ClosestHorizontalNeighbor(room, rooms);
      && (r.None? <==> forall x :: x in rooms ==> !EastNeighbour(room, x))
      && (r.Some? ==> r.value in rooms && EastNeighbour(room, r.value))
      && (r.Some? ==> forall x :: x in rooms && EastNeighbour(room, x) ==> r.value.rect.x <= x.rect.x)
  {
    SortByXMembers(rooms);
    FirstWhereSortedIsWestmost(room, SortByX(rooms));
  }

  /** Sorting keeps the same members. */
  lemma SortByXMembers(rooms: seq<Room>)
    ensures forall x :: x in rooms <==> x in SortByX(rooms)
  {
    forall x ensures x in rooms <==> x in SortByX(rooms) {
      assert x in rooms <==> x in multiset(rooms);
      assert x in SortByX(rooms) <==> x in multiset(SortByX(rooms));
    }
  }

  /** In a list ordered by X, the first element passing the filter has the least X of all that pass. */
  lemma FirstWhereSortedIsWestmost(room: Room, s: seq<Room>)
    requires SortedByX(s)
    ensures FirstWhere(room, s).Some? ==>
      forall m :: 0 <= m < |s| && EastNeighbour(room, s[m]) ==> FirstWhere(room, s).value.rect.x <= s[m].rect.x
  {
    var r := FirstWhere(room, s);
    if r.Some? {
      var k :| 0 <= k < |s| && s[k] == r.value && EastNeighbour(room, s[k]) &&
        forall m :: 0 <= m < k ==> !EastNeighbour(room, s[m]);
      forall m | 0 <= m < |s| && EastNeighbour(room, s[m]) ensures r.value.rect.x <= s[m].rect.x {
        assert k <= m;
      }
    }
  }

  // ---------------------------------------------------------------------------
  // Corridors

  /** What one visited room adds: corridors, and the joint appended to the room list. */
  datatype Link = Link(corridors: seq<Room>, joint: Option<Room>)

  /**
   * The corridors from `room` to its neighbour `n`: one straight corridor
   * when their vertical middles agree, otherwise two halves joined by a
   * vertical joint, the far half first.
   */
  function Connect(room: Room, n: Room): Link {
    var distance := n.info.topLeft.x - room.info.topRight.x;
    if n.info.verticalMiddle.y == room.info.verticalMiddle.y then
      Link([CreateRoomFromRect(room.info.topRight.x, room.info.verticalMiddle.y, distance, 0, Horizontal, RoomType.Corridor)], Option.None)
    else
      var corrRoom1 := CreateRoomFromRect(room.info.topRight.x, room.info.verticalMiddle.y, TruncDiv(distance, 2), 0, Horizontal, RoomType.Corridor);
      var corrJoint :=
        if n.info.verticalMiddle.y > room.info.verticalMiddle.y then
          Rect(corrRoom1.info.topRight.x, corrRoom1.info.bottomRight.y, 0, n.info.verticalMiddle.y - corrRoom1.info.verticalMiddle.y)
        else
          Rect(corrRoom1.info.topRight.x, n.info.verticalMiddle.y, 0, corrRoom1.info.verticalMiddle.y - n.info.verticalMiddle.y);
      var farY := if n.info.verticalMiddle.y > room.info.verticalMiddle.y then Bottom(corrJoint) else n.info.verticalMiddle.y;
      var corrRoom2 := CreateRoomFromRect(corrJoint.x, farY, TruncDiv(distance, 2), 0, Horizontal, RoomType.Corridor);
      Link([corrRoom2, corrRoom1], Some(CreateRoomFromRect(corrJoint.x, corrJoint.y, corrJoint.width, corrJoint.height, Horizontal, RoomType.Corridor)))
  }

  /** A horizontal corridor record built by `CreateRoomFromRect`. */
  predicate CorridorPiece(c: Room) {
    Consistent(c) && c.kind == RoomType.Corridor && c.orientation == Horizontal
  }

  /**
   * The shape of `Connect`. With `room`'s right edge at (x0, y0) (y0 its
   * vertical middle), the neighbour's middle at y1 and its left edge at x0 + d:
   * a straight corridor of length d when y0 == y1; otherwise a first half of
   * length d/2 (truncated) along y0, a joint at its end spanning exactly the
   * rows between y0 and y1, and a second half of the same length along y1
   * starting at the joint. Either way the last corridor listed ends at the
   * neighbour's edge, or one short of it when d is odd and positive.
   */
  lemma ConnectShape(room: Room, n: Room)
    ensures var link := Connect(room, n);
      var x0, y0, y1 := room.info.topRight.x, room.info.verticalMiddle.y, n.info.verticalMiddle.y;
      var d := n.info.topLeft.x - x0;
      var half := TruncDiv(d, 2);
      && (y0 == y1 ==> link.joint.None? && link.corridors == [CreateRoomFromRect(x0, y0, d, 0, Horizontal, RoomType.Corridor)])
      && (y0 != y1 ==> (
        && |link.corridors| == 2 && link.joint.Some?
        && link.corridors[1].rect == Rect(x0, y0, half, 0)
        && link.joint.value.rect == Rect(x0 + half, if y0 < y1 then y0 else y1, 0, Abs(y1 - y0))
        && link.joint.value.rect.height > 0
        && link.corridors[0].rect == Rect(x0 + half, y1, half, 0)))
      && Right(link.corridors[0].rect) == n.info.topLeft.x - (if y0 == y1 then 0 else TruncRem(d, 2))
      && (d >= 0 ==> Right(link.corridors[0].rect) == n.info.topLeft.x - (if y0 == y1 then 0 else d % 2))
  {
    var x0, y0, y1 := room.info.topRight.x, room.info.verticalMiddle.y, n.info.verticalMiddle.y;
    var d := n.info.topLeft.x - x0;
    AverageOfEqual(y0);
    if d >= 0 {
      TruncRemOfNatural(d, 2);
    }
  }

  /** How one room of the ordered snapshot changes the room list and the corridors. */
  datatype Layout = Layout(rooms: seq<Room>, corridors: seq<Room>)

  function Advance(room: Room, s: Layout): Layout {
    match ClosestHorizontalNeighbor(room, s.rooms)
    case None => s
    case Some(n) =>
      var link := Connect(room, n);
      Layout(s.rooms + ToSeq(link.joint), s.corridors + link.corridors)
  }

  /** The loop over the snapshot `order`, from the layout `start`. */
  function Visit(order: seq<Room>, start: Layout): Layout
    decreases |order|
  {
    if order == [] then start else Advance(order[|order| - 1], Visit(order[..|order| - 1], start))
  }

  /** One more room of the snapshot visited. */
  lemma VisitStep(order: seq<Room>, k: nat, start: Layout)
    requires k < |order|
    ensures Visit(order[..k + 1], start) == Advance(order[k], Visit(order[..k], start))
  {
    assert order[..k + 1][..k] == order[..k];
  }

  /** The list the source mutates: `GenerateCorridors` appends joints to its `rooms` argument. */
  class RoomList {
    var items: seq<Room>

    constructor (items: seq<Room>)
      ensures this.items == items
    {
      this.items := items;
    }

    /** `List.Add`. */
    method Add(room: Room)
      modifies this
      ensures items == old(items) + [room]
    {
      items := items + [room];
    }
  }

  /**
   * The body of `GenerateCorridors` once a neighbour `n` is found: the
   * corridors to add, and the joint to append to the room list, if any.
   */
  method Join(room: Room, n: Room) returns (corridors: seq<Room>, joint: Option<Room>)
    ensures Link(corridors, joint) == Connect(room, n)
  {
    var distanceToNearestHorizontalNeighbor := n.info.topLeft.x - room.info.topRight.x;
    if n.info.verticalMiddle.y == room.info.verticalMiddle.y {
      // no joint needed
      corridors := [CreateRoomFromRect(room.info.topRight.x, room.info.verticalMiddle.y,
        distanceToNearestHorizontalNeighbor, 0, Horizontal, RoomType.Corridor)];
      joint := Option.None;
    } else {
      var corrRoom1 := CreateRoomFromRect(room.info.topRight.x, room.info.verticalMiddle.y,
        TruncDiv(distanceToNearestHorizontalNeighbor, 2), 0, Horizontal, RoomType.Corridor);
      var corrJoint := Rect(corrRoom1.info.topRight.x, 0, 0, 0);
      if n.info.verticalMiddle.y > room.info.verticalMiddle.y {
        corrJoint := corrJoint.(y := corrRoom1.info.bottomRight.y);
        corrJoint := corrJoint.(height := n.info.verticalMiddle.y - corrRoom1.info.verticalMiddle.y);
        corridors := [CreateRoomFromRect(corrJoint.x, Bottom(corrJoint),
          TruncDiv(distanceToNearestHorizontalNeighbor, 2), 0, Horizontal, RoomType.Corridor)];
      } else {
        corrJoint := corrJoint.(y := n.info.verticalMiddle.y);
        corrJoint := corrJoint.(height := corrRoom1.info.verticalMiddle.y - n.info.verticalMiddle.y);
        corridors := [CreateRoomFromRect(corrJoint.x, n.info.verticalMiddle.y,
          TruncDiv(distanceToNearestHorizontalNeighbor, 2), 0, Horizontal, RoomType.Corridor)];
      }
      corridors := corridors + [corrRoom1];
      joint := Some(CreateRoomFromRect(corrJoint.x, corrJoint.y, corrJoint.width, corrJoint.height, Horizontal, RoomType.Corridor));
    }
  }

  /**
   * `GenerateCorridors`: visit the rooms in X order (a snapshot taken before
   * the loop); for each, find the closest east neighbour among the current
   * rooms, joints included, and add the corridors to it, appending any
   * joint to `rooms`.
   */
  method GenerateCorridors(rooms: RoomList) returns (corridors: seq<Room>)
    modifies rooms
    ensures Layout(rooms.items, corridors) == Visit(SortByX(old(rooms.items)), Layout(old(rooms.items), []))
  {
    var order := SortByX(rooms.items);
    ghost var start := Layout(rooms.items, []);
    corridors := [];
    var k := 0;
    while k < |order|
      invariant 0 <= k <= |order|
      invariant Layout(rooms.items, corridors) == Visit(order[..k], start)
    {
      var room := order[k];
      ghost var before := Layout(rooms.items, corridors);
      VisitStep(order, k, start);
      var closestHorizontalNeighbor := ClosestHorizontalNeighbor(room, rooms.items);
      if closestHorizontalNeighbor.Some? {
        var added, joint := Join(room, closestHorizontalNeighbor.value);
        corridors := corridors + added;
        if joint.Some? {
          rooms.Add(joint.value);
        }
        assert rooms.items == before.rooms + ToSeq(joint);
      }
      assert Layout(rooms.items, corridors) == Advance(room, before);
      k := k + 1;
    }
    assert order[..k] == order;
  }

  /** `Connect` adds at most two corridors and one joint, all horizontal corridor pieces. */
  lemma ConnectPieces(room: Room, n: Room)
    ensures var link := Connect(room, n);
      && |link.corridors| <= 2
      && (forall c :: c in link.corridors ==> CorridorPiece(c) && c.rect.height == 0)
      && (link.joint.Some? ==> CorridorPiece(link.joint.value) && link.joint.value.rect.width == 0 && link.joint.value.rect.height > 0)
  {
    AverageOfEqual(room.info.verticalMiddle.y);
  }

  /** One visit only appends: at most one joint and two corridors. */
  lemma AdvanceGrows(room: Room, s: Layout)
    ensures var out := Advance(room, s);
      && |s.rooms| <= |out.rooms| <= |s.rooms| + 1
      && out.rooms[..|s.rooms|] == s.rooms
      && |s.corridors| <= |out.corridors| <= |s.corridors| + 2
      && out.corridors[..|s.corridors|] == s.corridors
  {
    match ClosestHorizontalNeighbor(room, s.rooms)
    case None =>
    case Some(n) =>
      ConnectPieces(room, n);
      var link := Connect(room, n);
      assert (s.rooms + ToSeq(link.joint))[..|s.rooms|] == s.rooms;
      assert (s.corridors + link.corridors)[..|s.corridors|] == s.corridors;
  }

  /** The loop only appends: at most one joint and two corridors per visited room. */
  lemma {:induction false} VisitGrows(order: seq<Room>, start: Layout)
    ensures var out := Visit(order, start);
      && |start.rooms| <= |out.rooms| <= |start.rooms| + |order|
      && out.rooms[..|start.rooms|] == start.rooms
      && |start.corridors| <= |out.corridors| <= |start.corridors| + 2 * |order|
      && out.corridors[..|start.corridors|] == start.corridors
    decreases |order|
  {
    if order != [] {
      var prev := Visit(order[..|order| - 1], start);
      VisitGrows(order[..|order| - 1], start);
      var out := Advance(order[|order| - 1], prev);
      AdvanceGrows(order[|order| - 1], prev);
      assert out.rooms[..|start.rooms|] == out.rooms[..|prev.rooms|][..|start.rooms|];
      assert out.corridors[..|start.corridors|] == out.corridors[..|prev.corridors|][..|start.corridors|];
    }
  }

  /**
   * Everything the loop adds, to the room list or to the corridors, is a
   * horizontal corridor piece: joints zero wide and at least one high,
   * corridors zero high.
   */
  lemma {:induction false} VisitAddsPieces(order: seq<Room>, start: Layout)
    ensures var out := Visit(order, start);
      && (forall k :: |start.rooms| <= k < |out.rooms| ==>
            CorridorPiece(out.rooms[k]) && out.rooms[k].rect.width == 0 && out.rooms[k].rect.height > 0)
      && (forall k :: |start.corridors| <= k < |out.corridors| ==>
            CorridorPiece(out.corridors[k]) && out.corridors[k].rect.height == 0)
    decreases |order|
  {
    if order != [] {
      var prev := Visit(order[..|order| - 1], start);
      VisitAddsPieces(order[..|order| - 1], start);
      VisitGrows(order[..|order| - 1], start);
      var room := order[|order| - 1];
      match ClosestHorizontalNeighbor(room, prev.rooms)
      case None =>
      case Some(n) =>
        ConnectPieces(room, n);
        var link := Connect(room, n);
        var out := Layout(prev.rooms + ToSeq(link.joint), prev.corridors + link.corridors);
        forall k | |start.rooms| <= k < |out.rooms|
          ensures CorridorPiece(out.rooms[k]) && out.rooms[k].rect.width == 0 && out.rooms[k].rect.height > 0
        {
          if k >= |prev.rooms| {
            assert out.rooms[k] == link.joint.value;
          } else {
            assert out.rooms[k] == prev.rooms[k];
          }
        }
        forall k | |start.corridors| <= k < |out.corridors|
          ensures CorridorPiece(out.corridors[k]) && out.corridors[k].rect.height == 0
        {
          if k >= |prev.corridors| {
            assert out.corridors[k] == link.corridors[k - |prev.corridors|];
          } else {
            assert out.corridors[k] == prev.corridors[k];
          }
        }
    }
  }

  /**
   * For the method's result: every room the caller passed in is still there
   * in place, and everything added, to the list or to the corridors, is a
   * horizontal corridor piece.
   */
  lemma GenerateCorridorsShape(rooms: seq<Room>)
    ensures var out := Visit(SortByX(rooms), Layout(rooms, []));
      && |rooms| <= |out.rooms| <= 2 * |rooms| && out.rooms[..|rooms|] == rooms
      && |out.corridors| <= 2 * |rooms|
      && (forall k :: |rooms| <= k < |out.rooms| ==> CorridorPiece(out.rooms[k]) && out.rooms[k].rect.width == 0)
      && (forall c :: c in out.corridors ==> CorridorPiece(c) && c.rect.height == 0)
  {
    VisitGrows(SortByX(rooms), Layout(rooms, []));
    VisitAddsPieces(SortByX(rooms), Layout(rooms, []));
    assert |SortByX(rooms)| == |rooms| by {
      assert |multiset(SortByX(rooms))| == |multiset(rooms)|;
    }
  }
}
