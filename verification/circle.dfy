// The column geometry of DrawCircle (main.cpp:218-235): a filled circle is
// drawn as one-pixel-wide vertical strips, one per integer column, each as
// tall as the circle's chord at that column and centred on the circle's row.
module Circle {
  import opened Render

  /** Radius of both bob markers (main.cpp:201-202). */
  const BobRadius := 10

  /** First column visited: centre minus radius, clamped to 0 (main.cpp:219-222). */
  function ColumnStart(cx: int, r: int): (s: int)
    ensures 0 <= s && cx - r <= s
    ensures s == 0 || s == cx - r
  {
    if cx - r < 0 then 0 else cx - r
  }

  /** Column bound, excluded: centre plus radius, clamped to ScreenWidth - 1 (main.cpp:223-225). */
  function ColumnEnd(cx: int, r: int): (e: int)
    ensures e <= ScreenWidth - 1 && e <= cx + r
    ensures e == ScreenWidth - 1 || e == cx + r
  {
    if cx + r >= ScreenWidth then ScreenWidth - 1 else cx + r
  }

  /** Number of columns the loop at main.cpp:226 visits. */
  function ColumnCount(cx: int, r: int): (n: nat)
    ensures n == 0 <==> ColumnEnd(cx, r) <= ColumnStart(cx, r)
    ensures n > 0 ==> ColumnStart(cx, r) + n == ColumnEnd(cx, r)
  {
    if ColumnEnd(cx, r) > ColumnStart(cx, r) then ColumnEnd(cx, r) - ColumnStart(cx, r) else 0
  }

  /**
   * n * n, defined by the sum of the first n odd numbers so that its
   * unfoldings stay linear (SquareIsProduct).
   */
  function Square(n: nat): nat
    decreases n
  {
    if n == 0 then 0 else Square(n - 1) + 2 * n - 1
  }

  lemma {:induction false} SquareIsProduct(n: nat)
    ensures Square(n) == n * n
    decreases n
  {
    if n > 0 {
      SquareIsProduct(n - 1);
      assert n * n == (n - 1) * (n - 1) + 2 * n - 1;
    }
  }

  lemma {:induction false} SquareMonotone(a: nat, b: nat)
    requires a <= b
    ensures Square(a) <= Square(b)
    decreases b
  {
    if a < b {
      SquareMonotone(a, b - 1);
    }
  }

  lemma {:induction false} SquareAtLeast(n: nat)
    ensures Square(n) >= n
    decreases n
  {
    if n > 0 {
      SquareAtLeast(n - 1);
    }
  }

  /**
   * k is the nearest integer to the real square root of n: k - 1/2 <= sqrt(n)
   * < k + 1/2, squared and scaled by 4. Since 4n is even and every (2k +- 1)^2
   * is odd, sqrt(n) is never exactly halfway between two integers, so this is
   * what round(sqrt(n)) yields.
   */
  ghost predicate IsRoundedRoot(n: nat, k: nat)
  {
    4 * n < Square(2 * k + 1) && (k == 0 || Square(2 * k - 1) <= 4 * n)
  }

  /** At most one integer is the rounded square root of n. */
  lemma RoundedRootUnique(n: nat, a: nat, b: nat)
    requires IsRoundedRoot(n, a) && IsRoundedRoot(n, b)
    ensures a == b
  {
    if a < b {
      SquareMonotone(2 * a + 1, 2 * b - 1);
    } else if b < a {
      SquareMonotone(2 * b + 1, 2 * a - 1);
    }
  }

  /** Searches upward from k for the rounded square root of n. */
  function SearchRoot(n: nat, k: nat): (r: nat)
    requires k == 0 || Square(2 * k - 1) <= 4 * n
    ensures k <= r
    decreases 4 * n + 1 - 2 * k
  {
    if 4 * n < Square(2 * k + 1) then k
    else
      SquareAtLeast(2 * k + 1);
      SearchRoot(n, k + 1)
  }

  /**
   * The search started at any admissible k ends at the rounded root of n,
   * and never goes below where it started.
   */
  lemma {:induction false} SearchRootFinds(n: nat, k: nat)
    requires k == 0 || Square(2 * k - 1) <= 4 * n
    ensures k <= SearchRoot(n, k) && IsRoundedRoot(n, SearchRoot(n, k))
    decreases 4 * n + 1 - 2 * k
  {
    if 4 * n >= Square(2 * k + 1) {
      SquareAtLeast(2 * k + 1);
      SearchRootFinds(n, k + 1);
    }
  }

  /** round(sqrt(n)) computed exactly on integers. */
  function RoundSqrt(n: nat): (k: nat)
    ensures k <= n
  {
    RoundSqrtAtMost(n);
    SearchRoot(n, 0)
  }

  /** The rounded root of n is never larger than n itself. */
  lemma RoundSqrtAtMost(n: nat)
    ensures SearchRoot(n, 0) <= n
  {
    SearchRootFinds(n, 0);
    SquareAtLeast(n);
    RoundedRootAtMost(n, SearchRoot(n, 0), n);
  }

  /** RoundSqrt(n) is the rounded square root of n. */
  lemma RoundSqrtIsRoundedRoot(n: nat)
    ensures IsRoundedRoot(n, RoundSqrt(n))
  {
    SearchRootFinds(n, 0);
  }

  /** The rounded root of a number at most r^2 is at most r. */
  lemma RoundedRootAtMost(n: nat, k: nat, r: nat)
    requires IsRoundedRoot(n, k) && n <= Square(r)
    ensures k <= r
  {
    if k > r {
      SquareMonotone(2 * r + 1, 2 * k - 1);
      SquareOdd(r);
    }
  }

  /** (2r - 1)^2 and (2r + 1)^2 bracket 4 r^2. */
  lemma SquareOdd(r: nat)
    ensures Square(2 * r + 1) == 4 * Square(r) + 4 * r + 1
    ensures r > 0 ==> Square(2 * r - 1) == 4 * Square(r) - 4 * r + 1
  {
    SquareIsProduct(r);
    SquareIsProduct(2 * r + 1);
    assert (2 * r + 1) * (2 * r + 1) == 4 * (r * r) + 4 * r + 1;
    if r > 0 {
      SquareIsProduct(2 * r - 1);
      assert (2 * r - 1) * (2 * r - 1) == 4 * (r * r) - 4 * r + 1;
    }
  }

  /** The rounded root of a perfect square r^2 is r. */
  lemma RoundedRootOfSquare(r: nat)
    ensures IsRoundedRoot(Square(r), r)
  {
    SquareOdd(r);
  }

  function Abs(x: int): nat
  {
    if x < 0 then -x else x
  }

  /**
   * The argument of the square root at main.cpp:227 on a column at offset
   * dx, written as r^2 - dx^2 (ChordSquareIsProduct), never negative when
   * |dx| <= r.
   */
  function ChordSquare(r: int, dx: int): (n: nat)
    requires -r <= dx <= r
    ensures n <= Square(r)
  {
    SquareMonotone(Abs(dx), r);
    Square(r) - Square(Abs(dx))
  }

  /** ChordSquare is the product (r + dx)(r - dx) the source passes to sqrt. */
  lemma ChordSquareIsProduct(r: int, dx: int)
    requires -r <= dx <= r
    ensures ChordSquare(r, dx) == (r + dx) * (r - dx)
  {
    SquareIsProduct(r);
    SquareIsProduct(Abs(dx));
    assert (r + dx) * (r - dx) == r * r - dx * dx;
  }

  /**
   * The rounded half-height of the circle of radius r at horizontal offset
   * dx from its centre: round(sqrt((r + dx) * (r - dx))) (main.cpp:227-231).
   * It never exceeds the radius, and equals it on the centre column.
   */
  function HalfChord(r: int, dx: int): (k: nat)
    requires -r <= dx <= r
    ensures k <= r
    ensures dx == 0 ==> k == r
  {
    HalfChordIsRounded(r, dx);
    RoundSqrt(ChordSquare(r, dx))
  }

  lemma HalfChordIsRounded(r: int, dx: int)
    requires -r <= dx <= r
    ensures RoundSqrt(ChordSquare(r, dx)) <= r
    ensures dx == 0 ==> RoundSqrt(ChordSquare(r, dx)) == r
  {
    var n := ChordSquare(r, dx);
    var k := RoundSqrt(n);
    RoundSqrtIsRoundedRoot(n);
    RoundedRootAtMost(n, k, r);
    if dx == 0 {
      RoundedRootOfSquare(r);
      RoundedRootUnique(n, k, r);
    }
  }

  /**
   * The half-chord is round(sqrt(n)) for the very product n the source
   * passes to sqrt, which is never negative on the columns visited.
   */
  lemma HalfChordIsRoundedRootOfProduct(r: int, dx: int)
    requires -r <= dx <= r
    ensures 0 <= (r + dx) * (r - dx) && IsRoundedRoot((r + dx) * (r - dx), HalfChord(r, dx))
  {
    ChordSquareIsProduct(r, dx);
    RoundSqrtIsRoundedRoot(ChordSquare(r, dx));
  }

  /**
   * The strip filled at column x of the circle at c with radius r: one pixel
   * wide, from c.y - k down to c.y + k (main.cpp:228-231). No vertical
   * clamping is applied.
   */
  function ColumnRect(c: Point, r: int, x: int): (rect: Rect)
    requires -r <= x - c.x <= r
    ensures rect.x == x && rect.w == 1
    ensures 0 <= rect.h <= 2 * r
    ensures rect.y + rect.h - c.y == c.y - rect.y
    ensures x == c.x ==> rect == Rect(c.x, c.y - r, 1, 2 * r)
  {
    var k := HalfChord(r, x - c.x);
    Rect(x, c.y - k, 1, 2 * k)
  }

  /** The fill commands DrawCircle(c, r) issues, left to right (main.cpp:226-234). */
  function CircleFill(c: Point, r: int): (cmds: seq<Cmd>)
    ensures |cmds| == ColumnCount(c.x, r)
  {
    FillsBefore(c, r, ColumnStart(c.x, r) + ColumnCount(c.x, r))
  }

  /** The fill commands for the columns visited before the loop variable reaches x. */
  function FillsBefore(c: Point, r: int, x: int): (cmds: seq<Cmd>)
    requires ColumnStart(c.x, r) <= x <= ColumnStart(c.x, r) + ColumnCount(c.x, r)
    ensures |cmds| == x - ColumnStart(c.x, r)
    decreases x
  {
    if x == ColumnStart(c.x, r) then []
    else FillsBefore(c, r, x - 1) + [FillRect(ColumnRect(c, r, x - 1), White)]
  }

  lemma {:induction false} FillsBeforeAt(c: Point, r: int, x: int, i: int)
    requires ColumnStart(c.x, r) <= x <= ColumnStart(c.x, r) + ColumnCount(c.x, r)
    requires 0 <= i < x - ColumnStart(c.x, r)
    ensures var col := ColumnStart(c.x, r) + i;
      0 <= col < ScreenWidth - 1 && -r <= col - c.x < r &&
      FillsBefore(c, r, x)[i] == FillRect(ColumnRect(c, r, col), White)
    decreases x
  {
    if i < x - 1 - ColumnStart(c.x, r) {
      FillsBeforeAt(c, r, x - 1, i);
    }
  }

  /**
   * Fill i of the circle is the strip at column ColumnStart + i, a column
   * that is on screen, left of ScreenWidth - 1, and at offset dx from the
   * centre with -r <= dx < r, so the square-root argument is never negative.
   */
  lemma CircleFillAt(c: Point, r: int, i: int)
    requires 0 <= i < ColumnCount(c.x, r)
    ensures var col := ColumnStart(c.x, r) + i;
      0 <= col < ScreenWidth - 1 && -r <= col - c.x < r &&
      CircleFill(c, r)[i] == FillRect(ColumnRect(c, r, col), White)
  {
    FillsBeforeAt(c, r, ColumnStart(c.x, r) + ColumnCount(c.x, r), i);
  }

  /**
   * Every strip of a circle is one pixel wide, lies on a column strictly
   * inside [c.x - r, c.x + r) and [0, ScreenWidth - 1), and is symmetric
   * about the centre row; column c.x + r is never filled.
   */
  lemma CircleFillShape(c: Point, r: int, i: int)
    requires 0 <= i < |CircleFill(c, r)|
    ensures CircleFill(c, r)[i].FillRect?
    ensures var rect := CircleFill(c, r)[i].rect;
      rect.w == 1 && 0 <= rect.x < ScreenWidth - 1 &&
      c.x - r <= rect.x < c.x + r && rect.x != c.x + r &&
      2 * rect.y + rect.h == 2 * c.y && 0 <= rect.h <= 2 * r
  {
    CircleFillAt(c, r, i);
  }

  /**
   * When the centre column is on screen, the strip filled there is the
   * vertical diameter: height 2r starting at c.y - r.
   */
  lemma CentreColumnIsDiameter(c: Point, r: int)
    requires 0 < r && 0 <= c.x < ScreenWidth - 1
    ensures 0 <= c.x - ColumnStart(c.x, r) < |CircleFill(c, r)|
    ensures CircleFill(c, r)[c.x - ColumnStart(c.x, r)] == FillRect(Rect(c.x, c.y - r, 1, 2 * r), White)
  {
    CircleFillAt(c, r, c.x - ColumnStart(c.x, r));
  }

  /** A circle reaching past the left edge starts at column 0 (main.cpp:221-222). */
  lemma LeftEdgeClamped(c: Point, r: int)
    requires c.x - r < 0 && |CircleFill(c, r)| > 0
    ensures CircleFill(c, r)[0].FillRect? && CircleFill(c, r)[0].rect.x == 0
  {
    CircleFillAt(c, r, 0);
  }
}
