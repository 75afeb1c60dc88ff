/**
 * The parts of System.Drawing the generators use: integer points and
 * rectangles, with `Rectangle.IntersectsWith`, and C#'s integer division,
 * which truncates toward zero (Dafny's `/` is Euclidean).
 */
module Drawing {

  datatype Point = Point(x: int, y: int)

  /** A rectangle by its top-left corner and its size; nothing keeps the size non-negative. */
  datatype Rect = Rect(x: int, y: int, width: int, height: int)

  /** `Rectangle.Empty`. */
  const Empty := Rect(0, 0, 0, 0)

  function Left(r: Rect): int { r.x }
  function Top(r: Rect): int { r.y }
  function Right(r: Rect): int { r.x + r.width }
  function Bottom(r: Rect): int { r.y + r.height }

  /**
   * `a.IntersectsWith(b)`: the two boxes share an interior point. Touching
   * edges do not count, and a box of width or height zero can still meet a
   * box that straddles it.
   */
  predicate IntersectsWith(a: Rect, b: Rect) {
    b.x < a.x + a.width && a.x < b.x + b.width && b.y < a.y + a.height && a.y < b.y + b.height
  }

  function Abs(a: int): nat { if a < 0 then -a else a }

  /** C#'s `a / b` on `int`: the quotient rounded toward zero. */
  function TruncDiv(a: int, b: int): int
    requires b != 0
  {
    var q := Abs(a) / Abs(b);
    if (a < 0) == (b < 0) then q else -q
  }

  /** C#'s `a % b` on `int`: the remainder takes the sign of the dividend. */
  function TruncRem(a: int, b: int): int
    requires b != 0
  {
    a - b * TruncDiv(a, b)
  }

  /** `(int)(new int[] { a, b }).Average()`: the mean as a double, cast back to int. */
  function Average(a: int, b: int): int {
    TruncDiv(a + b, 2)
  }

  /**
   * The truncated mean lies between its two operands; it is the floor of
   * the exact mean when the sum is non-negative and its ceiling otherwise.
   */
  lemma AverageBounds(a: int, b: int)
    ensures a <= b ==> a <= Average(a, b) <= b
    ensures b <= a ==> b <= Average(a, b) <= a
    ensures a + b >= 0 ==> Average(a, b) == (a + b) / 2
    ensures a + b < 0 ==> Average(a, b) == -((-(a + b)) / 2)
  {
  }

  /** The middle of a zero-length span is its end point: (v + v) / 2 == v for every v. */
  lemma AverageOfEqual(v: int)
    ensures Average(v, v) == v
  {
  }

  /**
   * For a non-negative dividend, C#'s `%` is Dafny's `%` by the divisor's
   * magnitude, whatever the divisor's sign.
   */
  lemma TruncRemOfNatural(a: int, b: int)
    requires a >= 0 && b != 0
    ensures TruncRem(a, b) == a % Abs(b)
  {
    var q := a / Abs(b);
    if b > 0 {
      assert TruncDiv(a, b) == q;
    } else {
      assert TruncDiv(a, b) == -q;
      assert b * -q == Abs(b) * q;
    }
  }
}
