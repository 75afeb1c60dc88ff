/**
 * `AreRoomsConnectable`, shared word for word by Program.cs and
 * RoomGenerator1.cs, the pairwise sweep that both `GenerateCorridors`
 * variants run over it, the straight corridor built from one connection,
 * and the filter that drops the corridors crossing a room.
 */
module Connectivity {
  import opened Drawing
  import opened Rooms
  import opened Wrappers
  import opened Sequences
  import Placement

  function Max(a: int, b: int): int { if a < b then b else a }
  function Min(a: int, b: int): int { if a < b then a else b }

  /** `Enumerable.Range(start, count)`: the `count` consecutive integers from `start`. */
  function Range(start: int, count: nat): (r: seq<int>)
    ensures |r| == count
    decreases count
  {
    if count == 0 then [] else [start] + Range(start + 1, count - 1)
  }

  /** Element k of the range is start + k. */
  lemma {:induction false} RangeAt(start: int, count: nat)
    ensures forall k :: 0 <= k < count ==> Range(start, count)[k] == start + k
    decreases count
  {
    if count > 0 {
      RangeAt(start + 1, count - 1);
      assert forall k :: 1 <= k < count ==> Range(start, count)[k] == Range(start + 1, count - 1)[k - 1];
    }
  }

  function Elements(s: seq<int>): set<int> {
    set x | x in s
  }

  /**
   * LINQ's `first.Intersect(second)`: the elements of `first` that `second`
   * holds, in `first`'s order; each element yielded is removed from the set,
   * so a repeated element is yielded once.
   */
  function Intersect(first: seq<int>, second: set<int>): seq<int>
    decreases |first|
  {
    if first == [] then []
    else if first[0] in second then [first[0]] + Intersect(first[1..], second - {first[0]})
    else Intersect(first[1..], second)
  }

  /** The intersection holds exactly the elements of `first` that `second` holds, each once. */
  lemma {:induction false} IntersectMembers(first: seq<int>, second: set<int>)
    ensures forall x :: x in Intersect(first, second) <==> x in first && x in second
    ensures forall i, j :: 0 <= i < j < |Intersect(first, second)| ==> Intersect(first, second)[i] != Intersect(first, second)[j]
    decreases |first|
  {
    if first != [] {
      var x0 := first[0];
      assert first == [x0] + first[1..];
      if x0 in second {
        IntersectMembers(first[1..], second - {x0});
      } else {
        IntersectMembers(first[1..], second);
      }
    }
  }

  /** Number of integers the half-open ranges [lo1, hi1) and [lo2, hi2) share. */
  function Span(lo1: int, hi1: int, lo2: int, hi2: int): nat {
    if Min(hi1, hi2) <= Max(lo1, lo2) then 0 else Min(hi1, hi2) - Max(lo1, lo2)
  }

  /** How the shared part of [a, a + n) and [lo, hi) changes when the range loses its first integer `a`. */
  lemma SpanStep(a: int, n: nat, lo: int, hi: int)
    requires n > 0
    ensures var m, m' := Span(a, a + n, lo, hi), Span(a + 1, a + n, lo, hi);
      && (lo <= a < hi ==> m == m' + 1 && Max(a, lo) == a && Max(a + 1, lo) == a + 1)
      && (!(lo <= a < hi) ==> m == m' && (m > 0 ==> Max(a, lo) == Max(a + 1, lo)))
  {
  }

  /** The set left once `a` is removed agrees with [lo, hi) from `a + 1` on. */
  lemma RemoveFirst(a: int, second: set<int>, lo: int, hi: int)
    requires forall x :: a <= x ==> (x in second <==> lo <= x < hi)
    ensures forall x :: a + 1 <= x ==> (x in second - {a} <==> lo <= x < hi)
  {
    forall x | a + 1 <= x ensures x in second - {a} <==> lo <= x < hi {
      assert x in second <==> lo <= x < hi;
    }
  }

  /** The intersection of a range with a set that agrees with [lo, hi) from the range's start on. */
  lemma {:induction false} IntersectRange(a: int, n: nat, second: set<int>, lo: int, hi: int)
    requires forall x :: a <= x ==> (x in second <==> lo <= x < hi)
    ensures Intersect(Range(a, n), second) == Range(Max(a, lo), Span(a, a + n, lo, hi))
    decreases n
  {
    if n > 0 {
      var first, rest := Range(a, n), Range(a + 1, n - 1);
      assert first[0] == a && first[1..] == rest;
      SpanStep(a, n, lo, hi);
      var m' := Span(a + 1, a + n, lo, hi);
      if lo <= a < hi {
        assert a in second;
        RemoveFirst(a, second, lo, hi);
        IntersectRange(a + 1, n - 1, second - {a}, lo, hi);
        assert Intersect(first, second) == [a] + Intersect(rest, second - {a});
        assert Range(a, m' + 1) == [a] + Range(a + 1, m');
      } else {
        assert a !in second;
        IntersectRange(a + 1, n - 1, second, lo, hi);
        assert Intersect(first, second) == Intersect(rest, second);
      }
    }
  }

  /** The set of a range's elements is the half-open interval it covers. */
  lemma RangeElements(start: int, count: nat)
    ensures forall x :: x in Elements(Range(start, count)) <==> start <= x < start + count
  {
    RangeAt(start, count);
    forall x | start <= x < start + count
      ensures x in Elements(Range(start, count))
    {
      assert Range(start, count)[x - start] == x;
    }
  }

  /** The integers in both [lo1, lo1 + n1) and [lo2, lo2 + n2), ascending. */
  function Overlap(lo1: int, n1: int, lo2: int, n2: int): seq<int> {
    Range(Max(lo1, lo2), Span(lo1, lo1 + n1, lo2, lo2 + n2))
  }

  /** `Range(lo1, n1).Intersect(Range(lo2, n2))` is the ascending run of the integers both cover. */
  lemma IntersectRanges(lo1: int, n1: nat, lo2: int, n2: nat)
    ensures Intersect(Range(lo1, n1), Elements(Range(lo2, n2))) == Overlap(lo1, n1, lo2, n2)
  {
    RangeElements(lo2, n2);
    IntersectRange(lo1, n1, Elements(Range(lo2, n2)), lo2, lo2 + n2);
  }

  /** `Enumerable.Range` throws on a negative count, so both sizes must be non-negative. */
  predicate RangesDefined(info: RoomInfo) {
    info.width >= 0 && info.height >= 0
  }

  /** The X ranges [X, X + Width) of the two rooms share an integer. */
  predicate XMeet(info1: RoomInfo, info2: RoomInfo) {
    Span(info1.topLeft.x, info1.topLeft.x + info1.width, info2.topLeft.x, info2.topLeft.x + info2.width) > 0
  }

  /** The Y ranges [Y, Y + Height) of the two rooms share an integer. */
  predicate YMeet(info1: RoomInfo, info2: RoomInfo) {
    Span(info1.topLeft.y, info1.topLeft.y + info1.height, info2.topLeft.y, info2.topLeft.y + info2.height) > 0
  }

  /** `RoomConnectionInfo`. */
  datatype Connection = Connection(
    room1: Rect, room2: Rect, info1: RoomInfo, info2: RoomInfo,
    dominant: Rect, inferior: Rect, range: seq<int>, orientation: Orientation)

  /** A connection a corridor can be built from: a non-empty range and an axis. */
  predicate ConnectionOk(c: Connection) {
    |c.range| > 0 && c.orientation != Orientation.None
  }

  /**
   * `AreRoomsConnectable(room1, room2)`: the Vertical connection through the
   * shared X range when there is one, else the Horizontal connection through
   * the shared Y range, else none. The pair is ordered by a stable sort on Y
   * (Vertical) or X (Horizontal), so on a tie the first room dominates.
   */
  function AreRoomsConnectable(rect1: Rect, info1: RoomInfo, rect2: Rect, info2: RoomInfo): (c: Option<Connection>)
    requires RangesDefined(info1) && RangesDefined(info2)
    ensures c.None? <==> !XMeet(info1, info2) && !YMeet(info1, info2)
    ensures c.Some? ==> (
      && ConnectionOk(c.value)
      && c.value.room1 == rect1 && c.value.room2 == rect2 && c.value.info1 == info1 && c.value.info2 == info2)
    ensures XMeet(info1, info2) ==> (
      && c.Some? && c.value.orientation == Vertical
      && c.value.range == Overlap(info1.topLeft.x, info1.width, info2.topLeft.x, info2.width)
      && if rect2.y < rect1.y then c.value.dominant == rect2 && c.value.inferior == rect1
         else c.value.dominant == rect1 && c.value.inferior == rect2)
    ensures !XMeet(info1, info2) && YMeet(info1, info2) ==> (
      && c.Some? && c.value.orientation == Horizontal
      && c.value.range == Overlap(info1.topLeft.y, info1.height, info2.topLeft.y, info2.height)
      && if rect2.x < rect1.x then c.value.dominant == rect2 && c.value.inferior == rect1
         else c.value.dominant == rect1 && c.value.inferior == rect2)
  {
    var rangeX1 := Range(info1.topLeft.x, info1.width);
    var rangeX2 := Range(info2.topLeft.x, info2.width);
    var rangeY1 := Range(info1.topLeft.y, info1.height);
    var rangeY2 := Range(info2.topLeft.y, info2.height);
    var verticalConnection := Intersect(rangeX1, Elements(rangeX2));
    var horizontalConnection := Intersect(rangeY1, Elements(rangeY2));
    IntersectRanges(info1.topLeft.x, info1.width, info2.topLeft.x, info2.width);
    IntersectRanges(info1.topLeft.y, info1.height, info2.topLeft.y, info2.height);
    if |verticalConnection| > 0 || |horizontalConnection| > 0 then
      if |verticalConnection| > 0 then
        var (dominant, inferior) := if rect2.y < rect1.y then (rect2, rect1) else (rect1, rect2);
        Some(Connection(rect1, rect2, info1, info2, dominant, inferior, verticalConnection, Vertical))
      else
        var (dominant, inferior) := if rect2.x < rect1.x then (rect2, rect1) else (rect1, rect2);
        Some(Connection(rect1, rect2, info1, info2, dominant, inferior, horizontalConnection, Horizontal))
    else
      Option.None
  }

  /** For rooms whose info is their own `GetRoomInfo`, the connection in terms of the rectangles. */
  lemma ConnectionOfRooms(rect1: Rect, rect2: Rect)
    requires rect1.width >= 0 && rect1.height >= 0 && rect2.width >= 0 && rect2.height >= 0
    ensures var c := AreRoomsConnectable(rect1, GetRoomInfo(rect1), rect2, GetRoomInfo(rect2));
      var xs := Span(Left(rect1), Right(rect1), Left(rect2), Right(rect2));
      var ys := Span(Top(rect1), Bottom(rect1), Top(rect2), Bottom(rect2));
      && (c.None? <==> xs == 0 && ys == 0)
      && (xs > 0 ==> (
            && c.Some? && c.value.orientation == Vertical
            && c.value.range == Range(Max(Left(rect1), Left(rect2)), xs)
            && c.value.dominant.y <= c.value.inferior.y
            && multiset{c.value.dominant, c.value.inferior} == multiset{rect1, rect2}))
      && (xs == 0 && ys > 0 ==> (
            && c.Some? && c.value.orientation == Horizontal
            && c.value.range == Range(Max(Top(rect1), Top(rect2)), ys)
            && c.value.dominant.x <= c.value.inferior.x
            && multiset{c.value.dominant, c.value.inferior} == multiset{rect1, rect2}))
  {
    var info1, info2 := GetRoomInfo(rect1), GetRoomInfo(rect2);
    assert info1.topLeft == Point(Left(rect1), Top(rect1)) && info1.width == rect1.width && info1.height == rect1.height;
    assert info2.topLeft == Point(Left(rect2), Top(rect2)) && info2.width == rect2.width && info2.height == rect2.height;
  }

  /** The connections of room `i` against `rooms[..j]`, skipping `i` itself, in list order. */
  function Row(rects: seq<Rect>, infos: seq<RoomInfo>, i: nat, j: nat): seq<Connection>
    requires Analysable(rects, infos) && i < |rects| && j <= |rects|
    decreases j
  {
    if j == 0 then []
    else
      Row(rects, infos, i, j - 1) +
      (if j - 1 == i then [] else ToSeq(AreRoomsConnectable(rects[i], infos[i], rects[j - 1], infos[j - 1])))
  }

  /** The connections found for the first `i` rooms of the outer loop. */
  function Rows(rects: seq<Rect>, infos: seq<RoomInfo>, i: nat): seq<Connection>
    requires Analysable(rects, infos) && i <= |rects|
    decreases i
  {
    if i == 0 then [] else Rows(rects, infos, i - 1) + Row(rects, infos, i - 1, |rects|)
  }

  /** Each connection in row `i` is a usable connection of room `i` with a room other than itself. */
  lemma {:induction false} RowConnects(rects: seq<Rect>, infos: seq<RoomInfo>, i: nat, j: nat)
    requires Analysable(rects, infos) && i < |rects| && j <= |rects|
    ensures forall c :: c in Row(rects, infos, i, j) ==> (
      && ConnectionOk(c)
      && exists k :: 0 <= k < j && k != i && AreRoomsConnectable(rects[i], infos[i], rects[k], infos[k]) == Some(c))
    decreases j
  {
    if j > 0 {
      RowConnects(rects, infos, i, j - 1);
      var prev := Row(rects, infos, i, j - 1);
      var tail := if j - 1 == i then [] else ToSeq(AreRoomsConnectable(rects[i], infos[i], rects[j - 1], infos[j - 1]));
      assert Row(rects, infos, i, j) == prev + tail;
      forall c | c in Row(rects, infos, i, j)
        ensures ConnectionOk(c)
        ensures exists k :: 0 <= k < j && k != i && AreRoomsConnectable(rects[i], infos[i], rects[k], infos[k]) == Some(c)
      {
        if c in prev {
          var k :| 0 <= k < j - 1 && k != i && AreRoomsConnectable(rects[i], infos[i], rects[k], infos[k]) == Some(c);
        } else {
          assert c in tail && j - 1 != i;
          assert AreRoomsConnectable(rects[i], infos[i], rects[j - 1], infos[j - 1]) == Some(c);
        }
      }
    }
  }

  /** Each collected connection is a usable connection of two distinct rooms. */
  lemma {:induction false} RowsConnect(rects: seq<Rect>, infos: seq<RoomInfo>, i: nat)
    requires Analysable(rects, infos) && i <= |rects|
    ensures forall c :: c in Rows(rects, infos, i) ==> (
      && ConnectionOk(c)
      && exists a, b :: 0 <= a < i && 0 <= b < |rects| && a != b &&
           AreRoomsConnectable(rects[a], infos[a], rects[b], infos[b]) == Some(c))
    decreases i
  {
    if i > 0 {
      RowsConnect(rects, infos, i - 1);
      RowConnects(rects, infos, i - 1, |rects|);
      forall c | c in Rows(rects, infos, i)
        ensures ConnectionOk(c)
        ensures exists a, b :: (0 <= a < i && 0 <= b < |rects| && a != b &&
                                AreRoomsConnectable(rects[a], infos[a], rects[b], infos[b]) == Some(c))
      {
        if c !in Rows(rects, infos, i - 1) {
          assert c in Row(rects, infos, i - 1, |rects|);
          var k :| 0 <= k < |rects| && k != i - 1 &&
            AreRoomsConnectable(rects[i - 1], infos[i - 1], rects[k], infos[k]) == Some(c);
        }
      }
    }
  }

  /** Every room of the list paired with the room information it carries. */
  predicate Analysable(rects: seq<Rect>, infos: seq<RoomInfo>) {
    |rects| == |infos| && forall k :: 0 <= k < |infos| ==> RangesDefined(infos[k])
  }

  /** A connection of room `i` with an earlier room `b` other than itself is in row `i`. */
  lemma {:induction false} RowComplete(rects: seq<Rect>, infos: seq<RoomInfo>, i: nat, j: nat, b: nat)
    requires Analysable(rects, infos) && i < |rects| && b < j <= |rects| && b != i
    requires AreRoomsConnectable(rects[i], infos[i], rects[b], infos[b]).Some?
    ensures AreRoomsConnectable(rects[i], infos[i], rects[b], infos[b]).value in Row(rects, infos, i, j)
    decreases j
  {
    var tail := if j - 1 == i then [] else ToSeq(AreRoomsConnectable(rects[i], infos[i], rects[j - 1], infos[j - 1]));
    assert Row(rects, infos, i, j) == Row(rects, infos, i, j - 1) + tail;
    if b < j - 1 {
      RowComplete(rects, infos, i, j - 1, b);
    } else {
      assert tail == [AreRoomsConnectable(rects[i], infos[i], rects[b], infos[b]).value];
    }
  }

  /** A connection of an ordered pair of distinct rooms, the first among the first `i`, is collected. */
  lemma {:induction false} RowsComplete(rects: seq<Rect>, infos: seq<RoomInfo>, i: nat, a: nat, b: nat)
    requires Analysable(rects, infos) && i <= |rects| && a < i && b < |rects| && a != b
    requires AreRoomsConnectable(rects[a], infos[a], rects[b], infos[b]).Some?
    ensures AreRoomsConnectable(rects[a], infos[a], rects[b], infos[b]).value in Rows(rects, infos, i)
    decreases i
  {
    if a < i - 1 {
      RowsComplete(rects, infos, i - 1, a, b);
    } else {
      RowComplete(rects, infos, a, |rects|, b);
    }
  }

  /** The connections of every ordered pair of distinct rooms, room by room, each in list order. */
  function Connections(rects: seq<Rect>, infos: seq<RoomInfo>): (cnxs: seq<Connection>)
    requires Analysable(rects, infos)
    ensures forall k :: 0 <= k < |cnxs| ==> ConnectionOk(cnxs[k])
  {
    RowsConnect(rects, infos, |rects|);
    Rows(rects, infos, |rects|)
  }

  /**
   * The sweep collects exactly the connections of the ordered pairs of
   * distinct rooms: each connectable pair's connection is there, and
   * everything there is one.
   */
  lemma ConnectionsExact(rects: seq<Rect>, infos: seq<RoomInfo>)
    requires Analysable(rects, infos)
    ensures forall a, b ::
      (0 <= a < |rects| && 0 <= b < |rects| && a != b &&
       AreRoomsConnectable(rects[a], infos[a], rects[b], infos[b]).Some?) ==>
        AreRoomsConnectable(rects[a], infos[a], rects[b], infos[b]).value in Connections(rects, infos)
    ensures forall c :: c in Connections(rects, infos) ==>
      exists a, b :: (0 <= a < |rects| && 0 <= b < |rects| && a != b &&
                      AreRoomsConnectable(rects[a], infos[a], rects[b], infos[b]) == Some(c))
  {
    forall a, b | 0 <= a < |rects| && 0 <= b < |rects| && a != b &&
      AreRoomsConnectable(rects[a], infos[a], rects[b], infos[b]).Some?
      ensures AreRoomsConnectable(rects[a], infos[a], rects[b], infos[b]).value in Connections(rects, infos)
    {
      RowsComplete(rects, infos, |rects|, a, b);
    }
    RowsConnect(rects, infos, |rects|);
  }

  /** The inner loop of the sweep: the connections of room `i` with every other room. */
  method ConnectRoom(rects: seq<Rect>, infos: seq<RoomInfo>, i: nat) returns (row: seq<Connection>)
    requires Analysable(rects, infos) && i < |rects|
    ensures row == Row(rects, infos, i, |rects|)
  {
    row := [];
    var j := 0;
    while j < |rects|
      invariant 0 <= j <= |rects|
      invariant row == Row(rects, infos, i, j)
    {
      if j != i {
        var cnx := AreRoomsConnectable(rects[i], infos[i], rects[j], infos[j]);
        assert Row(rects, infos, i, j + 1) == row + ToSeq(cnx);
        if cnx.Some? {
          row := row + [cnx.value];
        }
      } else {
        assert Row(rects, infos, i, j + 1) == row + [];
      }
      j := j + 1;
    }
  }

  /** The nested loop of the sweep: every connection, room by room. */
  method ConnectAll(rects: seq<Rect>, infos: seq<RoomInfo>) returns (roomConnectionInfos: seq<Connection>)
    requires Analysable(rects, infos)
    ensures roomConnectionInfos == Connections(rects, infos)
  {
    roomConnectionInfos := [];
    var i := 0;
    while i < |rects|
      invariant 0 <= i <= |rects|
      invariant roomConnectionInfos == Rows(rects, infos, i)
    {
      var row := ConnectRoom(rects, infos, i);
      roomConnectionInfos := roomConnectionInfos + row;
      i := i + 1;
    }
  }

  /**
   * A straight corridor of the given thickness through the middle element
   * of the intersection range, from the dominant room's far edge to the
   * inferior room's near edge.
   */
  function StraightCorridor(c: Connection, thickness: int): (corridor: Rect)
    requires |c.range| > 0
  {
    var p := c.range[|c.range| / 2];
    match c.orientation
    case Vertical => Rect(p, Bottom(c.dominant), thickness, Top(c.inferior) - Bottom(c.dominant))
    case Horizontal => Rect(Right(c.dominant), p, Left(c.inferior) - Right(c.dominant), thickness)
    case None => Empty
  }

  /**
   * A corridor starts on the dominant room's far edge and ends on the
   * inferior room's near edge, so it never intersects either of them.
   */
  lemma CorridorAvoidsItsRooms(c: Connection, thickness: int)
    requires ConnectionOk(c)
    ensures var corridor := StraightCorridor(c, thickness);
      !IntersectsWith(c.dominant, corridor) && !IntersectsWith(c.inferior, corridor)
  {
  }

  /**
   * The corridor of a connection lies at the middle element of the shared
   * range, which falls inside both rooms' ranges.
   */
  lemma CorridorAtMiddle(rect1: Rect, info1: RoomInfo, rect2: Rect, info2: RoomInfo, thickness: int)
    requires RangesDefined(info1) && RangesDefined(info2)
    requires AreRoomsConnectable(rect1, info1, rect2, info2).Some?
    ensures var c := AreRoomsConnectable(rect1, info1, rect2, info2).value;
      var lo1, lo2 := info1.topLeft.x, info2.topLeft.x;
      var hi1, hi2 := lo1 + info1.width, lo2 + info2.width;
      var p := StraightCorridor(c, thickness).x;
      c.orientation == Vertical ==>
        p == Max(lo1, lo2) + Span(lo1, hi1, lo2, hi2) / 2 && lo1 <= p < hi1 && lo2 <= p < hi2
    ensures var c := AreRoomsConnectable(rect1, info1, rect2, info2).value;
      var lo1, lo2 := info1.topLeft.y, info2.topLeft.y;
      var hi1, hi2 := lo1 + info1.height, lo2 + info2.height;
      var p := StraightCorridor(c, thickness).y;
      c.orientation == Horizontal ==>
        p == Max(lo1, lo2) + Span(lo1, hi1, lo2, hi2) / 2 && lo1 <= p < hi1 && lo2 <= p < hi2
  {
    var c := AreRoomsConnectable(rect1, info1, rect2, info2).value;
    if c.orientation == Vertical {
      var lo1, lo2 := info1.topLeft.x, info2.topLeft.x;
      var m := Span(lo1, lo1 + info1.width, lo2, lo2 + info2.width);
      assert c.range == Range(Max(lo1, lo2), m);
      RangeAt(Max(lo1, lo2), m);
      assert StraightCorridor(c, thickness).x == c.range[m / 2];
    } else if c.orientation == Horizontal {
      var lo1, lo2 := info1.topLeft.y, info2.topLeft.y;
      var m := Span(lo1, lo1 + info1.height, lo2, lo2 + info2.height);
      assert c.range == Range(Max(lo1, lo2), m);
      RangeAt(Max(lo1, lo2), m);
      assert StraightCorridor(c, thickness).y == c.range[m / 2];
    }
  }

  /**
   * For two rooms placed more than `gap` apart, the X and Y ranges never both
   * meet, and the corridor between them is longer than the gap.
   */
  lemma CorridorSpansGap(rect1: Rect, rect2: Rect, gap: int, thickness: int)
    requires rect1.width >= 0 && rect1.height >= 0 && rect2.width >= 0 && rect2.height >= 0 && gap >= 0
    requires Placement.Separated(rect1, rect2, gap)
    ensures !(XMeet(GetRoomInfo(rect1), GetRoomInfo(rect2)) && YMeet(GetRoomInfo(rect1), GetRoomInfo(rect2)))
    ensures var c := AreRoomsConnectable(rect1, GetRoomInfo(rect1), rect2, GetRoomInfo(rect2));
      c.Some? ==>
        var corridor := StraightCorridor(c.value, thickness);
        (c.value.orientation == Vertical ==> corridor.height > gap) &&
        (c.value.orientation == Horizontal ==> corridor.width > gap)
  {
  }

  /**
   * Rooms kept more than `gap` apart, each carrying its own room information:
   * no pair overlaps on both axes, and every corridor built from their
   * connections is longer than the gap.
   */
  lemma ConnectionsSpanGap(rects: seq<Rect>, infos: seq<RoomInfo>, gap: int, thickness: int)
    requires |rects| == |infos| && gap >= 0
    requires forall k :: 0 <= k < |rects| ==>
      rects[k].width >= 0 && rects[k].height >= 0 && infos[k] == GetRoomInfo(rects[k])
    requires Placement.PairwiseSeparated(rects, gap)
    ensures Analysable(rects, infos)
    ensures forall c :: c in Rows(rects, infos, |rects|) ==> (
      && ConnectionOk(c)
      && (c.orientation == Vertical ==> StraightCorridor(c, thickness).height > gap)
      && (c.orientation == Horizontal ==> StraightCorridor(c, thickness).width > gap))
  {
    assert Analysable(rects, infos);
    RowsConnect(rects, infos, |rects|);
    forall c | c in Rows(rects, infos, |rects|)
      ensures (c.orientation == Vertical ==> StraightCorridor(c, thickness).height > gap)
      ensures (c.orientation == Horizontal ==> StraightCorridor(c, thickness).width > gap)
    {
      var a, b :| 0 <= a < |rects| && 0 <= b < |rects| && a != b &&
        AreRoomsConnectable(rects[a], infos[a], rects[b], infos[b]) == Some(c);
      if a < b {
        Placement.SeparatedSymmetric(rects[b], rects[a], gap);
      }
      CorridorSpansGap(rects[a], rects[b], gap, thickness);
    }
  }

  // ---------------------------------------------------------------------------
  // The overlap filter

  /** `rooms.Any(y => y.Rectangle.IntersectsWith(r))`. */
  predicate HitsRoom(r: Rect, rooms: seq<Rect>) {
    exists k :: 0 <= k < |rooms| && IntersectsWith(rooms[k], r)
  }

  /** The corridors, each with the rectangle `rectOf` gives it, that no room intersects, in their original order. */
  function KeepClear<R>(corridors: seq<R>, rectOf: R -> Rect, rooms: seq<Rect>): seq<R>
    decreases |corridors|
  {
    if corridors == [] then []
    else
      var last := corridors[|corridors| - 1];
      KeepClear(corridors[..|corridors| - 1], rectOf, rooms) + (if HitsRoom(rectOf(last), rooms) then [] else [last])
  }

  /** The filter keeps exactly the corridors clear of every room, in order. */
  lemma {:induction false} KeepClearExact<R>(corridors: seq<R>, rectOf: R -> Rect, rooms: seq<Rect>)
    ensures forall c :: c in KeepClear(corridors, rectOf, rooms) <==> c in corridors && !HitsRoom(rectOf(c), rooms)
    ensures Subsequence(KeepClear(corridors, rectOf, rooms), corridors)
    decreases |corridors|
  {
    if corridors != [] {
      var init, last := corridors[..|corridors| - 1], corridors[|corridors| - 1];
      assert corridors == init + [last];
      KeepClearExact(init, rectOf, rooms);
      SubsequenceStep(KeepClear(init, rectOf, rooms), init, last, !HitsRoom(rectOf(last), rooms));
    }
  }

  /**
   * The closing `Where`/`Except` of both generators: the corridors that no
   * room intersects, in order. `Except` compares by reference and every
   * corridor is a distinct object, so it removes exactly the blocked ones.
   */
  method RemoveBlocked<R>(corridors: seq<R>, rectOf: R -> Rect, rooms: seq<Rect>) returns (result: seq<R>)
    ensures result == KeepClear(corridors, rectOf, rooms)
    ensures forall c :: c in result ==> c in corridors && !HitsRoom(rectOf(c), rooms)
  {
    result := [];
    var k := 0;
    while k < |corridors|
      invariant 0 <= k <= |corridors|
      invariant result == KeepClear(corridors[..k], rectOf, rooms)
    {
      assert corridors[..k + 1][..k] == corridors[..k];
      if !HitsRoom(rectOf(corridors[k]), rooms) {
        result := result + [corridors[k]];
      }
      k := k + 1;
    }
    assert corridors[..k] == corridors;
    KeepClearExact(corridors, rectOf, rooms);
  }
}
