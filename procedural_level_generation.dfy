/**
 * ProceduralLevelGeneration/Program.cs: the earliest generator. Rooms are
 * plain rectangles drawn through a `Dimension`, placed with a gap of 2, and
 * never connected.
 */
module ProceduralLevelGeneration {
  import opened Drawing
  import opened Rooms
  import opened Placement

  /** `Dimension`: the four values drawn for a room. */
  datatype Dimension = Dimension(x: int, y: int, width: int, height: int)

  /** The gap `GenerateRooms` keeps between rooms. */
  const Gap := 2

  /** `new int[height, width]` with every cell set to 0 by the nested loops. */
  method InitializeMap(width: nat, height: nat) returns (grid: array2<int>)
    ensures grid.Length0 == height && grid.Length1 == width
    ensures forall y, x :: 0 <= y < height && 0 <= x < width ==> grid[y, x] == 0
  {
    grid := new int[height, width];
    var y := 0;
    while y < height
      invariant 0 <= y <= height
      invariant forall y', x' :: 0 <= y' < y && 0 <= x' < width ==> grid[y', x'] == 0
    {
      var x := 0;
      while x < width
        invariant 0 <= x <= width
        invariant forall y', x' :: 0 <= y' < y && 0 <= x' < width ==> grid[y', x'] == 0
        invariant forall x' :: 0 <= x' < x ==> grid[y, x'] == 0
      {
        grid[y, x] := 0;
        x := x + 1;
      }
      y := y + 1;
    }
  }

  /** The values `GenerateDimension`'s four `Random.Next` calls may return. */
  predicate ValidDraw(mapWidth: int, mapHeight: int, roomMaxWidth: int, roomMaxHeight: int, d: Draw) {
    && NextReturns(1, roomMaxWidth, d.width)
    && NextReturns(1, roomMaxHeight, d.height)
    && NextReturns(1, mapWidth - d.width, d.x)
    && NextReturns(1, mapHeight - d.height, d.y)
  }

  /**
   * Where a drawn room may lie: at least 1 wide and 1 high and below the
   * maxima, at least 1 from the top-left edges and with its far edges
   * inside the map (each bound reached only when `Random.Next(a, a)` returns a).
   */
  predicate InBounds(mapWidth: int, mapHeight: int, roomMaxWidth: int, roomMaxHeight: int, d: Dimension) {
    && 1 <= d.width && (d.width < roomMaxWidth || d.width == roomMaxWidth == 1)
    && 1 <= d.height && (d.height < roomMaxHeight || d.height == roomMaxHeight == 1)
    && 1 <= d.x && (d.x + d.width <= mapWidth - 1 || (d.x == 1 && d.x + d.width == mapWidth))
    && 1 <= d.y && (d.y + d.height <= mapHeight - 1 || (d.y == 1 && d.y + d.height == mapHeight))
  }

  /** `GenerateDimension`, given the values its random source returned. */
  function GenerateDimension(mapWidth: int, mapHeight: int, roomMaxWidth: int, roomMaxHeight: int, d: Draw): (dim: Dimension)
    requires ValidDraw(mapWidth, mapHeight, roomMaxWidth, roomMaxHeight, d)
    ensures InBounds(mapWidth, mapHeight, roomMaxWidth, roomMaxHeight, dim)
  {
    Dimension(d.x, d.y, d.width, d.height)
  }

  function RectOf(dim: Dimension): Rect {
    Rect(dim.x, dim.y, dim.width, dim.height)
  }

  /** The candidate rooms a stream of draws produces. */
  function Candidates(mapWidth: int, mapHeight: int, roomMaxWidth: int, roomMaxHeight: int, draws: seq<Draw>): seq<Rect>
    requires forall k :: 0 <= k < |draws| ==> ValidDraw(mapWidth, mapHeight, roomMaxWidth, roomMaxHeight, draws[k])
  {
    seq(|draws|, k requires 0 <= k < |draws| => RectOf(GenerateDimension(mapWidth, mapHeight, roomMaxWidth, roomMaxHeight, draws[k])))
  }

  /**
   * Rooms that are the placement of a stream of draws: at most `numRooms`
   * of them, each inside the map, pairwise separated and disjoint.
   */
  lemma PlacedRooms(mapWidth: int, mapHeight: int, roomMaxWidth: int, roomMaxHeight: int, numRooms: int,
                    draws: seq<Draw>, rooms: seq<Rect>)
    requires forall k :: 0 <= k < |draws| ==> ValidDraw(mapWidth, mapHeight, roomMaxWidth, roomMaxHeight, draws[k])
    requires rooms == Place(Gap, [], Candidates(mapWidth, mapHeight, roomMaxWidth, roomMaxHeight, draws), 0, numRooms)
    ensures numRooms >= 0 ==> |rooms| <= numRooms
    ensures forall k :: 0 <= k < |rooms| ==>
      InBounds(mapWidth, mapHeight, roomMaxWidth, roomMaxHeight, Dimension(rooms[k].x, rooms[k].y, rooms[k].width, rooms[k].height))
    ensures PairwiseSeparated(rooms, Gap)
    ensures forall i, j :: 0 <= i < |rooms| && 0 <= j < |rooms| && i != j ==> !IntersectsWith(rooms[i], rooms[j])
  {
    PlaceFromEmpty(Gap, Candidates(mapWidth, mapHeight, roomMaxWidth, roomMaxHeight, draws), numRooms);
  }

  /**
   * `GenerateRooms`: for each of `numRooms` rooms, draw dimensions until
   * they lie more than `Gap` away from every room so far, then append the
   * rectangle. The random source is the finite stream `draws`; should it
   * run dry, the rooms placed so far are returned.
   */
  method GenerateRooms(mapWidth: int, mapHeight: int, roomMaxWidth: int, roomMaxHeight: int, numRooms: int, draws: seq<Draw>)
    returns (rooms: seq<Rect>)
    requires forall k :: 0 <= k < |draws| ==> ValidDraw(mapWidth, mapHeight, roomMaxWidth, roomMaxHeight, draws[k])
    ensures rooms == Place(Gap, [], Candidates(mapWidth, mapHeight, roomMaxWidth, roomMaxHeight, draws), 0, numRooms)
    ensures numRooms >= 0 ==> |rooms| <= numRooms
    ensures forall k :: 0 <= k < |rooms| ==>
      InBounds(mapWidth, mapHeight, roomMaxWidth, roomMaxHeight, Dimension(rooms[k].x, rooms[k].y, rooms[k].width, rooms[k].height))
    ensures PairwiseSeparated(rooms, Gap)
    ensures forall i, j :: 0 <= i < |rooms| && 0 <= j < |rooms| && i != j ==> !IntersectsWith(rooms[i], rooms[j])
  {
    ghost var candidates := Candidates(mapWidth, mapHeight, roomMaxWidth, roomMaxHeight, draws);
    ghost var target := Place(Gap, [], candidates, 0, numRooms);
    rooms := [];
    var next := 0;
    var i := 0;
    label placing:
    while i < numRooms
      invariant 0 <= next <= |draws| && 0 <= i && (i <= numRooms || i == 0)
      invariant Place(Gap, rooms, candidates, next, numRooms - i) == target
    {
      if next == |draws| {
        break;
      }
      var dim := GenerateDimension(mapWidth, mapHeight, roomMaxWidth, roomMaxHeight, draws[next]);
      next := next + 1;
      while TooClose(RectOf(dim), rooms, Gap)
        invariant 1 <= next <= |draws| && RectOf(dim) == candidates[next - 1]
        invariant Place(Gap, rooms, candidates, next - 1, numRooms - i) == target
        decreases |draws| - next
      {
        if next == |draws| {
          break placing;
        }
        dim := GenerateDimension(mapWidth, mapHeight, roomMaxWidth, roomMaxHeight, draws[next]);
        next := next + 1;
      }
      rooms := rooms + [Rect(dim.x, dim.y, dim.width, dim.height)];
      i := i + 1;
    }
    PlacedRooms(mapWidth, mapHeight, roomMaxWidth, roomMaxHeight, numRooms, draws, rooms);
  }
}
