/**
 * What the three corridor-generating variants share: the `Orientation` and
 * `RoomType` enumerations, the `RoomInfo` record of a room's reference
 * points with `GetRoomInfo`, and the random source that every
 * `GenerateDimension` draws from.
 */
module Rooms {
  import opened Drawing

  datatype Orientation = Vertical | Horizontal | None

  datatype RoomType = Room | Corridor

  /** The corner and midpoint points derived from a rectangle. */
  datatype RoomInfo = RoomInfo(
    topLeft: Point, topRight: Point, bottomLeft: Point, bottomRight: Point,
    horizontalMiddle: Point, verticalMiddle: Point,
    width: int, height: int, rectangle: Rect)

  /**
   * `GetRoomInfo`. The midpoints keep the coordinates the source gives them:
   * the horizontal middle is (mean of left and right, Left) and the vertical
   * middle is (Top, mean of top and bottom), both means truncated toward zero.
   */
  function GetRoomInfo(r: Rect): RoomInfo {
    RoomInfo(
      Point(r.x, r.y), Point(r.x + r.width, r.y),
      Point(r.x, r.y + r.height), Point(r.x + r.width, r.y + r.height),
      Point(Average(Left(r), Right(r)), Left(r)), Point(Top(r), Average(Top(r), Bottom(r))),
      r.width, r.height, r)
  }

  /**
   * The information describes its rectangle: the corners are its four
   * corners, the sizes its sizes. The middles lie within its extent (for
   * non-negative sizes) and round down to the cell left of or above the
   * exact middle for non-negative coordinates. As in the source, the
   * horizontal middle's Y is the rectangle's left edge and the vertical
   * middle's X its top edge.
   */
  lemma RoomInfoDescribes(r: Rect)
    ensures var info := GetRoomInfo(r);
      && info.topLeft == Point(Left(r), Top(r)) && info.topRight == Point(Right(r), Top(r))
      && info.bottomLeft == Point(Left(r), Bottom(r)) && info.bottomRight == Point(Right(r), Bottom(r))
      && info.width == r.width && info.height == r.height && info.rectangle == r
      && info.horizontalMiddle.y == Left(r) && info.verticalMiddle.x == Top(r)
      && (r.width >= 0 ==> Left(r) <= info.horizontalMiddle.x <= Right(r))
      && (r.height >= 0 ==> Top(r) <= info.verticalMiddle.y <= Bottom(r))
      && (Left(r) + Right(r) >= 0 ==> info.horizontalMiddle.x == (Left(r) + Right(r)) / 2)
      && (Top(r) + Bottom(r) >= 0 ==> info.verticalMiddle.y == (Top(r) + Bottom(r)) / 2)
  {
    AverageBounds(Left(r), Right(r));
    AverageBounds(Top(r), Bottom(r));
  }

  /**
   * `Random.Next(lo, hi)` may return `v`: lo <= v < hi, or lo itself when
   * lo == hi. When lo > hi the call throws, so no value is possible.
   */
  predicate NextReturns(lo: int, hi: int, v: int) {
    lo <= hi && (if lo == hi then v == lo else lo <= v < hi)
  }

  /** The four values one `GenerateDimension` call draws, in the order it draws them. */
  datatype Draw = Draw(width: int, height: int, x: int, y: int)
}
