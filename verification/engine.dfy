// The per-frame drawing of the pendulum demo (main.cpp:103-136, 168-235)
// with the renderer replaced by a log of draw commands. The two bob
// positions p1 and p2 are inputs: the floating-point integrator and the
// angle-to-pixel projection that produce them are not part of this model.
module Engine {
  import opened Render
  import opened TraceBuffer
  import opened Circle

  /** A strip of the circle of radius r at c: the shape every fill of DrawCircle has. */
  ghost predicate IsStripOf(rect: Rect, c: Point, r: int)
  {
    rect.w == 1 && c.x - r <= rect.x < c.x + r && 0 <= rect.x < ScreenWidth - 1 &&
    2 * rect.y + rect.h == 2 * c.y && 0 <= rect.h <= 2 * r
  }

  /** The draw colour after DrawCircle: it sets white before every fill (main.cpp:232). */
  function ColorAfterCircle(c: Point, r: int, before: Color): (after: Color)
    ensures after == White <==> ColumnCount(c.x, r) > 0 || before == White
    ensures ColumnCount(c.x, r) == 0 ==> after == before
  {
    if ColumnCount(c.x, r) == 0 then before else White
  }

  /**
   * What Draw issues, given the trace t before the frame and the colour c in
   * force: both bobs' circles, the two arms, then the polyline over the trace
   * with p2 appended (main.cpp:199-212).
   */
  function DrawCmds(p1: Point, p2: Point, t: seq<Point>, c: Color): (r: seq<Cmd>)
    requires |t| >= 1
    ensures |r| == |CircleFill(p1, BobRadius)| + |CircleFill(p2, BobRadius)| + 2 + |t|
  {
    var lineColor := ColorAfterCircle(p2, BobRadius, ColorAfterCircle(p1, BobRadius, c));
    CircleFill(p1, BobRadius) + CircleFill(p2, BobRadius)
      + [Line(p1, Pivot, lineColor), Line(p2, p1, lineColor)]
      + Polyline(t + [p2], lineColor)
  }

  /**
   * The first commands of a frame are the strips of the circle at p1, in
   * column order (main.cpp:201).
   */
  lemma DrawOrderFirstCircle(p1: Point, p2: Point, t: seq<Point>, c: Color, i: int)
    requires |t| >= 1 && 0 <= i < |CircleFill(p1, BobRadius)|
    ensures var r := DrawCmds(p1, p2, t, c);
      i < |r| && r[i] == CircleFill(p1, BobRadius)[i] &&
      r[i].FillRect? && IsStripOf(r[i].rect, p1, BobRadius)
  {
    var f1 := CircleFill(p1, BobRadius);
    var r := DrawCmds(p1, p2, t, c);
    assert r == f1 + r[|f1|..];
    CircleFillShape(p1, BobRadius, i);
  }

  /**
   * The strips of the circle at p2, in column order, follow those of the
   * circle at p1 (main.cpp:202).
   */
  lemma DrawOrderSecondCircle(p1: Point, p2: Point, t: seq<Point>, c: Color, i: int)
    requires |t| >= 1 && 0 <= i < |CircleFill(p2, BobRadius)|
    ensures var r := DrawCmds(p1, p2, t, c);
      var j := |CircleFill(p1, BobRadius)| + i;
      j < |r| && r[j] == CircleFill(p2, BobRadius)[i] &&
      r[j].FillRect? && IsStripOf(r[j].rect, p2, BobRadius)
  {
    var f1, f2 := CircleFill(p1, BobRadius), CircleFill(p2, BobRadius);
    var r := DrawCmds(p1, p2, t, c);
    assert r == f1 + f2 + r[|f1| + |f2|..];
    assert r[|f1| + i] == f2[i];
    CircleFillShape(p2, BobRadius, i);
  }

  /**
   * After the strips come the arm from p1 to the pivot and the arm from p2
   * to p1 (main.cpp:203-205), in the colour the circles left, then |t|
   * trace segments.
   */
  lemma DrawOrderArms(p1: Point, p2: Point, t: seq<Point>, c: Color)
    requires |t| >= 1
    ensures var r := DrawCmds(p1, p2, t, c);
      var a := |CircleFill(p1, BobRadius)| + |CircleFill(p2, BobRadius)|;
      var lineColor := ColorAfterCircle(p2, BobRadius, ColorAfterCircle(p1, BobRadius, c));
      |r| == a + 2 + |t| &&
      r[a] == Line(p1, Pivot, lineColor) && r[a + 1] == Line(p2, p1, lineColor)
  {
  }

  /**
   * The last |t| commands of a frame are the polyline over t + [p2]: the
   * first from t[0] to its successor, each later one from a point back to
   * its predecessor (main.cpp:207-212).
   */
  lemma DrawOrderTrace(p1: Point, p2: Point, t: seq<Point>, c: Color, j: int)
    requires |t| >= 1 && 0 <= j < |t|
    ensures var r := DrawCmds(p1, p2, t, c);
      var a := |CircleFill(p1, BobRadius)| + |CircleFill(p2, BobRadius)|;
      var u := t + [p2];
      var lineColor := ColorAfterCircle(p2, BobRadius, ColorAfterCircle(p1, BobRadius, c));
      a + 2 + j < |r| &&
      (j == 0 ==> r[a + 2] == Line(u[0], u[1], lineColor)) &&
      (j > 0 ==> r[a + 2 + j] == Line(u[j + 1], u[j], lineColor))
  {
    var f1, f2 := CircleFill(p1, BobRadius), CircleFill(p2, BobRadius);
    var lineColor := ColorAfterCircle(p2, BobRadius, ColorAfterCircle(p1, BobRadius, c));
    var head := f1 + f2 + [Line(p1, Pivot, lineColor), Line(p2, p1, lineColor)];
    var poly := Polyline(t + [p2], lineColor);
    var r := DrawCmds(p1, p2, t, c);
    assert r == head + poly;
    assert r[|head| + j] == poly[j];
    if j > 0 {
      PolylineAt(t + [p2], lineColor, j + 1);
    }
  }

  /**
   * The last command of a frame: on the first frame after the seed (|t| = 1)
   * the only segment runs from t[0] to p2; later, the last segment runs from
   * p2 back to t[|t| - 1].
   */
  lemma DrawLastSegment(p1: Point, p2: Point, t: seq<Point>, c: Color)
    requires |t| >= 1
    ensures var r := DrawCmds(p1, p2, t, c);
      var lineColor := ColorAfterCircle(p2, BobRadius, ColorAfterCircle(p1, BobRadius, c));
      |r| >= 1 &&
      (|t| == 1 ==> r[|r| - 1] == Line(t[0], p2, lineColor)) &&
      (|t| >= 2 ==> r[|r| - 1] == Line(p2, t[|t| - 1], lineColor))
  {
    DrawOrderTrace(p1, p2, t, c, |t| - 1);
  }

  lemma AppendAssoc3(a: seq<Cmd>, b: seq<Cmd>, c: seq<Cmd>)
    ensures a + b + c == a + (b + c)
  {
  }

  lemma AppendAssoc(a: seq<Cmd>, b: seq<Cmd>, c: seq<Cmd>, d: seq<Cmd>, e: seq<Cmd>)
    ensures a + b + c + d + e == a + (b + c + d + e)
  {
  }

  /** Inside a frame the draw colour is white, so everything Draw issues is white. */
  lemma DrawIsWhite(p1: Point, p2: Point, t: seq<Point>, i: int)
    requires |t| >= 1 && 0 <= i < |DrawCmds(p1, p2, t, White)|
    ensures (DrawCmds(p1, p2, t, White)[i].FillRect? || DrawCmds(p1, p2, t, White)[i].Line?) &&
      DrawCmds(p1, p2, t, White)[i].color == White
  {
    var f1, f2 := CircleFill(p1, BobRadius), CircleFill(p2, BobRadius);
    var head := f1 + f2 + [Line(p1, Pivot, White), Line(p2, p1, White)];
    var poly := Polyline(t + [p2], White);
    var r := DrawCmds(p1, p2, t, White);
    assert r == head + poly;
    if i < |f1| {
      assert r[i] == f1[i];
      CircleFillAt(p1, BobRadius, i);
    } else if i < |f1| + |f2| {
      assert r[i] == f2[i - |f1|];
      CircleFillAt(p2, BobRadius, i - |f1|);
    } else if i >= |head| {
      assert r[i] == poly[i - |head|];
      PolylineJoinsNeighbours(t + [p2], White, i - |head|);
    }
  }

  lemma FillsStep(l: seq<Cmd>, c: Point, r: int, x: int)
    requires ColumnStart(c.x, r) <= x < ColumnStart(c.x, r) + ColumnCount(c.x, r)
    ensures -r <= x - c.x < r
    ensures l + FillsBefore(c, r, x) + [FillRect(ColumnRect(c, r, x), White)] == l + FillsBefore(c, r, x + 1)
  {
    AppendAssoc3(l, FillsBefore(c, r, x), [FillRect(ColumnRect(c, r, x), White)]);
  }

  /** One pass of the frame gate in Run: clear to black, Draw in white, present (main.cpp:126-136). */
  function FrameCmds(p1: Point, p2: Point, t: seq<Point>): (r: seq<Cmd>)
    requires |t| >= 1
    ensures |r| == |DrawCmds(p1, p2, t, White)| + 2
    ensures r[0] == FillRect(Screen, Black) && r[|r| - 1] == Present
  {
    [FillRect(Screen, Black)] + DrawCmds(p1, p2, t, White) + [Present]
  }

  lemma FrameLog(l: seq<Cmd>, p1: Point, p2: Point, t: seq<Point>)
    requires |t| >= 1
    ensures l + [FillRect(Screen, Black)] + DrawCmds(p1, p2, t, White) + [Present] == l + FrameCmds(p1, p2, t)
  {
    AppendAssoc(l, [FillRect(Screen, Black)], DrawCmds(p1, p2, t, White), [Present], []);
  }

  /**
   * The history after the first n frames: the points h followed by the
   * second bob's position in each of those frames, oldest first.
   */
  function History(h: seq<Point>, frames: seq<(Point, Point)>, n: nat): (s: seq<Point>)
    requires n <= |frames|
    ensures |s| == |h| + n
    ensures n > 0 ==> s[|s| - 1] == frames[n - 1].1
  {
    if n == 0 then h else History(h, frames, n - 1) + [frames[n - 1].1]
  }

  /** The trace after the first n frames, starting from the trace h. */
  function TraceAfter(h: seq<Point>, frames: seq<(Point, Point)>, n: nat): (t: seq<Point>)
    requires n <= |frames|
    ensures |h| >= 1 ==> |t| >= 1
    ensures n > 0 ==> |t| >= 1 && t[|t| - 1] == frames[n - 1].1
  {
    if n == 0 then h else Advance(TraceAfter(h, frames, n - 1), frames[n - 1].1)
  }

  /** Everything the first n frames issue, each drawn over the trace the earlier ones left. */
  function RunCmds(h: seq<Point>, frames: seq<(Point, Point)>, n: nat): (r: seq<Cmd>)
    requires |h| >= 1 && n <= |frames|
    ensures n == 0 <==> r == []
    ensures n > 0 ==> r[|r| - 1] == Present
  {
    if n == 0 then []
    else RunCmds(h, frames, n - 1) + FrameCmds(frames[n - 1].0, frames[n - 1].1, TraceAfter(h, frames, n - 1))
  }

  lemma RunLog(l: seq<Cmd>, h: seq<Point>, frames: seq<(Point, Point)>, i: nat)
    requires |h| >= 1 && i < |frames|
    ensures l + RunCmds(h, frames, i) + FrameCmds(frames[i].0, frames[i].1, TraceAfter(h, frames, i))
      == l + RunCmds(h, frames, i + 1)
    ensures TraceAfter(h, frames, i + 1) == Advance(TraceAfter(h, frames, i), frames[i].1)
  {
    AppendAssoc3(l, RunCmds(h, frames, i), FrameCmds(frames[i].0, frames[i].1, TraceAfter(h, frames, i)));
  }

  /**
   * Starting from a trace of at most Cap points, the trace after any number
   * of frames is the newest Cap points of the whole history.
   */
  lemma {:induction false} TraceAfterIsWindow(h: seq<Point>, frames: seq<(Point, Point)>, n: nat)
    requires |h| <= Cap && n <= |frames|
    ensures TraceAfter(h, frames, n) == Window(History(h, frames, n))
  {
    if n > 0 {
      TraceAfterIsWindow(h, frames, n - 1);
      AdvanceWindow(History(h, frames, n - 1), frames[n - 1].1);
    }
  }

  /**
   * The program's global drawing state: the trace buffer, the renderer's
   * draw colour, and the log of rendering calls made so far.
   */
  class Scene {
    var trace: seq<Point>
    var color: Color
    var log: seq<Cmd>

    /** The globals at the start of Run: empty trace, black renderer already cleared (main.cpp:26, 86-87). */
    constructor ()
      ensures trace == [] && color == Black && log == [Clear(Black)]
    {
      trace := [];
      color := Black;
      log := [Clear(Black)];
    }

    /**
     * Fills the circle of the given radius at center one column at a time
     * (main.cpp:218-235).
     */
    method DrawCircle(center: Point, radius: int)
      modifies this`color, this`log
      ensures log == old(log) + CircleFill(center, radius)
      ensures color == ColorAfterCircle(center, radius, old(color))
    {
      var x := center.x - radius;
      if x < 0 {
        x := 0;
      }
      var endx := center.x + radius;
      if endx >= ScreenWidth {
        endx := ScreenWidth - 1;
      }
      if x < endx {
        for col := x to endx
          invariant log == old(log) + FillsBefore(center, radius, col)
          invariant col > x ==> color == White
        {
          FillsStep(old(log), center, radius, col);
          FillColumn(center, radius, col);
        }
      }
    }

    /**
     * The body of DrawCircle's loop for column x (main.cpp:227-233): the
     * half-chord, the strip written into the rectangle pos, white, fill.
     */
    method FillColumn(center: Point, radius: int, x: int)
      requires -radius <= x - center.x < radius
      modifies this`color, this`log
      ensures color == White
      ensures log == old(log) + [FillRect(ColumnRect(center, radius, x), White)]
    {
      var k := HalfChord(radius, x - center.x);
      var pos := Rect(x, center.y - k, 1, 2 * k);
      color := White;
      log := log + [FillRect(pos, color)];
    }

    /**
     * One frame's drawing (main.cpp:199-215): append p2 to the trace, draw
     * both bobs and both arms, draw the polyline over the trace, then evict
     * the oldest point if the trace holds more than Cap points.
     */
    method Draw(p1: Point, p2: Point)
      requires |trace| >= 1
      modifies this
      ensures trace == Advance(old(trace), p2)
      ensures log == old(log) + DrawCmds(p1, p2, old(trace), old(color))
      ensures color == ColorAfterCircle(p2, BobRadius, ColorAfterCircle(p1, BobRadius, old(color)))
    {
      ghost var t0, c0, l0 := trace, color, log;
      trace := trace + [p2];
      DrawCircle(p1, BobRadius);
      DrawCircle(p2, BobRadius);
      ghost var lineColor, fills := color, log;
      log := log + [Line(p1, Pivot, color)];
      log := log + [Line(p2, p1, color)];
      DrawTrace();
      assert log == fills + [Line(p1, Pivot, lineColor), Line(p2, p1, lineColor)] + Polyline(t0 + [p2], lineColor);
      AppendAssoc(l0, CircleFill(p1, BobRadius), CircleFill(p2, BobRadius),
        [Line(p1, Pivot, lineColor), Line(p2, p1, lineColor)], Polyline(t0 + [p2], lineColor));
      if |trace| > Cap {
        trace := trace[1..];
      }
    }

    /**
     * The polyline over the trace (main.cpp:207-212): one segment from
     * trace[0] to trace[1], then one from trace[i] back to trace[i-1] for
     * every later i.
     */
    method DrawTrace()
      requires |trace| >= 2
      modifies this`log
      ensures log == old(log) + Polyline(trace, color)
    {
      log := log + [Line(trace[0], trace[1], color)];
      if |trace| > 2 {
        for i := 2 to |trace|
          invariant log == old(log) + [Line(trace[0], trace[1], color)] + LaterSegments(trace, i, color)
        {
          log := log + [Line(trace[i], trace[i - 1], color)];
        }
      }
    }

    /** One pass of the frame gate in Run (main.cpp:125-137). */
    method Frame(p1: Point, p2: Point)
      requires |trace| >= 1
      modifies this
      ensures trace == Advance(old(trace), p2)
      ensures log == old(log) + FrameCmds(p1, p2, old(trace))
      ensures color == White
    {
      ghost var l0, t0 := log, trace;
      var pos := Screen;
      color := Black;
      log := log + [FillRect(pos, color)];
      color := White;
      Draw(p1, p2);
      log := log + [Present];
      FrameLog(l0, p1, p2, t0);
    }

    /**
     * Run (main.cpp:103-137): seed the trace with the second bob's starting
     * position, then draw one frame per pass of the frame gate; frames lists
     * the bob positions of those passes in order.
     */
    method Run(seed: Point, frames: seq<(Point, Point)>)
      modifies this
      ensures trace == TraceAfter(old(trace) + [seed], frames, |frames|)
      ensures |old(trace)| < Cap ==> trace == Window(History(old(trace) + [seed], frames, |frames|))
      ensures |old(trace)| < Cap ==> |trace| == Min(|old(trace)| + 1 + |frames|, Cap)
      ensures frames != [] ==> trace[|trace| - 1] == frames[|frames| - 1].1
      ensures log == old(log) + RunCmds(old(trace) + [seed], frames, |frames|)
      ensures color == if frames == [] then old(color) else White
    {
      trace := trace + [seed];
      ghost var h := trace;
      DrawFrames(frames);
      if |h| <= Cap {
        TraceAfterIsWindow(h, frames, |frames|);
      }
    }

    /** The main loop of Run, drawing one frame per pass of the frame gate (main.cpp:121-137). */
    method DrawFrames(frames: seq<(Point, Point)>)
      requires |trace| >= 1
      modifies this
      ensures trace == TraceAfter(old(trace), frames, |frames|)
      ensures log == old(log) + RunCmds(old(trace), frames, |frames|)
      ensures color == if frames == [] then old(color) else White
    {
      ghost var h := trace;
      for i := 0 to |frames|
        invariant trace == TraceAfter(h, frames, i)
        invariant log == old(log) + RunCmds(h, frames, i)
        invariant i == 0 ==> color == old(color)
        invariant i > 0 ==> color == White
      {
        RunLog(old(log), h, frames, i);
        Frame(frames[i].0, frames[i].1);
      }
    }
  }
}
