// The trace buffer: the bounded FIFO of the second bob's past pixel
// positions (main.cpp:26), appended to once per frame and evicted from
// once it holds more than Cap points, and the polyline drawn over it.
module TraceBuffer {
  import opened Render

  /** The trace holds at most this many points between frames (main.cpp:213). */
  const Cap := 1000

  /**
   * The trace after one frame: the newest point p is pushed at the back
   * (main.cpp:199) and, when that makes the trace longer than Cap, the
   * oldest point is erased from the front (main.cpp:213-214).
   */
  function Advance(t: seq<Point>, p: Point): (r: seq<Point>)
    ensures |t| < Cap ==> |r| == |t| + 1
    ensures |t| >= Cap ==> |r| == |t|
    ensures |t| <= Cap ==> |r| == Min(|t| + 1, Cap)
    ensures r[|r| - 1] == p
  {
    var s := t + [p];
    if |s| > Cap then s[1..] else s
  }

  /**
   * Below Cap the new point is simply appended; from Cap on, the oldest
   * point is dropped and the others keep their order.
   */
  lemma AdvanceKeepsOrder(t: seq<Point>, p: Point)
    ensures |t| < Cap ==> Advance(t, p) == t + [p]
    ensures |t| >= Cap ==> |t| > 0 && Advance(t, p) == t[1..] + [p]
  {
    if |t| >= Cap {
      assert (t + [p])[1..] == t[1..] + [p];
    }
  }

  /** The newest Cap points of a history s, oldest first. */
  function Window(s: seq<Point>): (r: seq<Point>)
    ensures |r| == Min(|s|, Cap)
    ensures |s| > 0 ==> |r| > 0 && r[|r| - 1] == s[|s| - 1]
  {
    if |s| <= Cap then s else s[|s| - Cap..]
  }

  /** The window is a suffix of the history. */
  lemma WindowIsSuffix(s: seq<Point>)
    ensures Window(s) == s[|s| - |Window(s)|..]
  {
  }

  /**
   * Advancing a trace that is the window of a history gives the window of
   * the history extended by the new point: the trace is always exactly the
   * newest Cap points seen so far, in the order they were seen.
   */
  lemma AdvanceWindow(s: seq<Point>, p: Point)
    ensures Advance(Window(s), p) == Window(s + [p])
  {
    if |s| > Cap {
      var w := Window(s);
      assert w == s[|s| - Cap..];
      assert (w + [p])[1..] == s[|s| - Cap + 1..] + [p];
      assert (s + [p])[|s| + 1 - Cap..] == s[|s| + 1 - Cap..] + [p];
    }
  }

  /**
   * The segments drawn over the trace t with colour c (main.cpp:207-212):
   * first from t[0] to t[1], then one per later point (PolylineAt). The
   * trace always holds two points here, because Draw appends before it
   * reads t[1].
   */
  function Polyline(t: seq<Point>, c: Color): (r: seq<Cmd>)
    requires |t| >= 2
    ensures |r| == |t| - 1
    ensures r[0] == Line(t[0], t[1], c)
  {
    [Line(t[0], t[1], c)] + LaterSegments(t, |t|, c)
  }

  /** The segments the loop at main.cpp:209-211 has drawn once i reaches n. */
  function LaterSegments(t: seq<Point>, n: int, c: Color): (r: seq<Cmd>)
    requires 2 <= n <= |t|
    ensures |r| == n - 2
    decreases n
  {
    if n == 2 then [] else LaterSegments(t, n - 1, c) + [Line(t[n - 1], t[n - 2], c)]
  }

  lemma {:induction false} LaterSegmentsAt(t: seq<Point>, n: int, c: Color, i: int)
    requires 2 <= i < n <= |t|
    ensures LaterSegments(t, n, c)[i - 2] == Line(t[i], t[i - 1], c)
    decreases n
  {
    if i < n - 1 {
      LaterSegmentsAt(t, n - 1, c, i);
    }
  }

  /** For every later trace index i, segment i - 1 runs from t[i] back to t[i - 1]. */
  lemma PolylineAt(t: seq<Point>, c: Color, i: int)
    requires 2 <= i < |t|
    ensures Polyline(t, c)[i - 1] == Line(t[i], t[i - 1], c)
  {
    LaterSegmentsAt(t, |t|, c, i);
  }

  /**
   * Every segment of the polyline joins two neighbouring trace points, so
   * the polyline connects consecutive positions and nothing else.
   */
  lemma PolylineJoinsNeighbours(t: seq<Point>, c: Color, k: int)
    requires |t| >= 2 && 0 <= k < |t| - 1
    ensures Polyline(t, c)[k].Line? && Polyline(t, c)[k].color == c
    ensures {Polyline(t, c)[k].p, Polyline(t, c)[k].q} == {t[k], t[k + 1]}
  {
    if k > 0 {
      PolylineAt(t, c, k + 1);
    }
  }
}
