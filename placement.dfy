/**
 * The rejection sampling that every `GenerateRooms` performs: a candidate
 * rectangle is drawn again while it is too close to some room already
 * accepted, and accepted once it is clear of all of them.
 */
module Placement {
  import opened Drawing

  /**
   * The acceptance test of the `do … while` condition: candidate `c` lies more
   * than `gap` away from `room` on at least one side.
   */
  predicate Separated(c: Rect, room: Rect, gap: int) {
    c.x > room.x + room.width + gap || c.x + c.width + gap < room.x ||
    c.y > room.y + room.height + gap || c.y + c.height + gap < room.y
  }

  /** `rooms.Any(room => !Separated(dim, room))`: the loop draws again. */
  predicate TooClose(c: Rect, rooms: seq<Rect>, gap: int) {
    exists k :: 0 <= k < |rooms| && !Separated(c, rooms[k], gap)
  }

  /** Each room is separated from every room accepted before it. */
  predicate PairwiseSeparated(rooms: seq<Rect>, gap: int) {
    forall i, j :: 0 <= i < j < |rooms| ==> Separated(rooms[j], rooms[i], gap)
  }

  /**
   * The rooms accepted after `accepted` when `n` more are wanted and the
   * random source yields `candidates` in order, starting at position `next`.
   * A candidate that is too close is dropped and the next one drawn; when
   * the stream runs dry the rooms placed so far are the result (the source
   * would go on drawing).
   */
  function Place(gap: int, accepted: seq<Rect>, candidates: seq<Rect>, next: nat, n: int): seq<Rect>
    decreases |candidates| - next
  {
    if n <= 0 || next >= |candidates| then accepted
    else if TooClose(candidates[next], accepted, gap) then Place(gap, accepted, candidates, next + 1, n)
    else Place(gap, accepted + [candidates[next]], candidates, next + 1, n - 1)
  }

  /** The acceptance test does not depend on which of the two rectangles is the candidate. */
  lemma SeparatedSymmetric(a: Rect, b: Rect, gap: int)
    ensures Separated(a, b, gap) <==> Separated(b, a, gap)
  {
  }

  /** Rooms more than a non-negative gap apart do not intersect. */
  lemma SeparatedDoNotIntersect(a: Rect, b: Rect, gap: int)
    requires gap >= 0 && Separated(a, b, gap)
    ensures !IntersectsWith(a, b) && !IntersectsWith(b, a)
  {
  }

  /**
   * Placing keeps the rooms already accepted in front, adds at most `n`
   * more, and every room it adds is one of the candidates.
   */
  lemma {:induction false} PlaceExtends(gap: int, accepted: seq<Rect>, candidates: seq<Rect>, next: nat, n: int)
    ensures var r := Place(gap, accepted, candidates, next, n);
      |accepted| <= |r| && r[..|accepted|] == accepted &&
      (n >= 0 ==> |r| <= |accepted| + n) &&
      forall k :: |accepted| <= k < |r| ==> r[k] in candidates
    decreases |candidates| - next
  {
    if n <= 0 || next >= |candidates| {
    } else if TooClose(candidates[next], accepted, gap) {
      PlaceExtends(gap, accepted, candidates, next + 1, n);
    } else {
      var acc' := accepted + [candidates[next]];
      PlaceExtends(gap, acc', candidates, next + 1, n - 1);
      var r := Place(gap, acc', candidates, next + 1, n - 1);
      assert r[..|acc'|][..|accepted|] == r[..|accepted|];
      forall k | |accepted| <= k < |r|
        ensures r[k] in candidates
      {
        if k == |accepted| {
          assert r[k] == r[..|acc'|][k];
        }
      }
    }
  }

  /** Every round of placement keeps the rooms pairwise separated. */
  lemma {:induction false} PlaceKeepsSeparation(gap: int, accepted: seq<Rect>, candidates: seq<Rect>, next: nat, n: int)
    requires PairwiseSeparated(accepted, gap)
    ensures PairwiseSeparated(Place(gap, accepted, candidates, next, n), gap)
    decreases |candidates| - next
  {
    if n <= 0 || next >= |candidates| {
    } else if TooClose(candidates[next], accepted, gap) {
      PlaceKeepsSeparation(gap, accepted, candidates, next + 1, n);
    } else {
      var acc' := accepted + [candidates[next]];
      forall i, j | 0 <= i < j < |acc'|
        ensures Separated(acc'[j], acc'[i], gap)
      {
        if j == |accepted| {
          assert !(!Separated(candidates[next], accepted[i], gap));
        }
      }
      PlaceKeepsSeparation(gap, acc', candidates, next + 1, n - 1);
    }
  }

  /**
   * A short result only means the stream ran dry: once `n` rooms are placed
   * later draws `more` are never consulted, and with fewer placed, drawing
   * goes on at the first of them from exactly the rooms placed so far.
   */
  lemma {:induction false} PlaceMoreDraws(gap: int, accepted: seq<Rect>, candidates: seq<Rect>, more: seq<Rect>, next: nat, n: int)
    requires n >= 0 && next <= |candidates|
    ensures var r := Place(gap, accepted, candidates, next, n);
      (|r| == |accepted| + n ==> Place(gap, accepted, candidates + more, next, n) == r) &&
      (|r| < |accepted| + n ==>
        Place(gap, accepted, candidates + more, next, n) == Place(gap, r, candidates + more, |candidates|, |accepted| + n - |r|))
    decreases |candidates| - next
  {
    if n == 0 {
    } else if next == |candidates| {
    } else {
      assert (candidates + more)[next] == candidates[next];
      if TooClose(candidates[next], accepted, gap) {
        PlaceMoreDraws(gap, accepted, candidates, more, next + 1, n);
      } else {
        PlaceMoreDraws(gap, accepted + [candidates[next]], candidates, more, next + 1, n - 1);
      }
    }
  }

  /** Pairwise separated rooms, with a non-negative gap, are pairwise disjoint. */
  lemma PairwiseSeparatedDisjoint(rooms: seq<Rect>, gap: int)
    requires gap >= 0 && PairwiseSeparated(rooms, gap)
    ensures forall i, j :: 0 <= i < |rooms| && 0 <= j < |rooms| && i != j ==> !IntersectsWith(rooms[i], rooms[j])
  {
    forall i, j | 0 <= i < |rooms| && 0 <= j < |rooms| && i != j
      ensures !IntersectsWith(rooms[i], rooms[j])
    {
      if i < j {
        SeparatedDoNotIntersect(rooms[j], rooms[i], gap);
      } else {
        SeparatedDoNotIntersect(rooms[i], rooms[j], gap);
      }
    }
  }

  /**
   * What every `GenerateRooms` promises, starting from an empty room list:
   * at most `n` rooms, each one a candidate, pairwise separated by more
   * than `gap`, and (for a non-negative gap) pairwise disjoint.
   */
  lemma PlaceFromEmpty(gap: int, candidates: seq<Rect>, n: int)
    ensures var r := Place(gap, [], candidates, 0, n);
      (n >= 0 ==> |r| <= n) &&
      (forall k :: 0 <= k < |r| ==> r[k] in candidates) &&
      PairwiseSeparated(r, gap) &&
      (gap >= 0 ==> forall i, j :: 0 <= i < |r| && 0 <= j < |r| && i != j ==> !IntersectsWith(r[i], r[j]))
  {
    PlaceExtends(gap, [], candidates, 0, n);
    PlaceKeepsSeparation(gap, [], candidates, 0, n);
    if gap >= 0 {
      PairwiseSeparatedDisjoint(Place(gap, [], candidates, 0, n), gap);
    }
  }
}
