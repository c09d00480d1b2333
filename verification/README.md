# Double pendulum: trace buffer and bob drawing

This project models the drawing side of an SDL double-pendulum demo
(`main.cpp`). Each frame, the position `p2` of the second bob is pushed onto a
trace buffer. Both bobs are then drawn as filled circles of radius 10. Next
come the two arms: from the first bob to the pivot, and from the second bob to
the first. Then the trace is drawn as a polyline, and the oldest trace point is
evicted once the buffer holds more than 1000 points. A filled circle is drawn as
a series of one-pixel-wide vertical strips, one per integer column, each as
tall as the rounded chord of the circle at that column.

The model has four modules:

- **`Render`**: points, rectangles, colours, the window constants, and the
  draw commands that stand for the SDL rendering calls.
- **`TraceBuffer`**: the trace as a value (`Advance`, `Window`) and the polyline
  drawn over it.
- **`Circle`**: the column geometry of `DrawCircle`, including an exact
  integer model of `round(sqrt(...))`.
- **`Engine`**: a `Scene` class holding the program's mutable globals. These are
  the trace, the renderer's draw colour, and a log of every rendering call made
  so far. Its methods follow `Run`, `Draw` and `DrawCircle` statement by
  statement, loops included. Each method is proved against a function that
  gives the commands it must append (`CircleFill`, `Polyline`, `DrawCmds`,
  `FrameCmds`, `RunCmds`), and lemmas state what those functions mean.

Bob positions are inputs. `Run` takes the seed position and the list of
`(p1, p2)` pairs, one pair per pass of the frame gate.

## Model

| member | source | states |
|---|---|---|
| TraceBuffer.Advance | main.cpp:199-215 | One frame adds exactly one point while the trace is below 1000 points, and otherwise keeps the length the same. With at most 1000 points before, the length after is min(old + 1, 1000). The newest point is p2. |
| TraceBuffer.AdvanceKeepsOrder | main.cpp:199-215 | Below the cap, p2 is appended. At or above the cap, the oldest point is dropped, the rest keep their order, and p2 follows them. |
| TraceBuffer.Window | main.cpp:213-215 | The window of a history holds min(length, 1000) points, and its last point is the newest one in the history. |
| TraceBuffer.WindowIsSuffix | main.cpp:213-215 | The window is the suffix of the history of that length. |
| TraceBuffer.AdvanceWindow | main.cpp:199-215 | Advancing the window of a history by p gives the window of the history extended by p. So push-then-evict always keeps exactly the newest 1000 points, in arrival order. |
| Circle.ColumnStart | main.cpp:219-222 | The first column is max(cx - r, 0): it is at least 0 and at least cx - r, and equal to one of them. |
| Circle.ColumnEnd | main.cpp:223-225 | The excluded end column is min(cx + r, W - 1): it is at most both, and equal to one of them. |
| Circle.ColumnCount | main.cpp:226 | The loop runs zero times exactly when end <= start. Otherwise it visits end - start columns, from start up to end. |
| TraceBuffer.Polyline | main.cpp:207-212 | Over a trace of n >= 2 points the polyline has n - 1 segments, and the first goes from trace[0] to trace[1]. |
| TraceBuffer.LaterSegments | main.cpp:208-211 | After the loop has run up to index n, it has drawn n - 2 segments. |
| TraceBuffer.LaterSegmentsAt | main.cpp:209-210 | Segment i - 2 of the loop goes from t[i] to t[i-1], for every i with 2 <= i < n. |
| TraceBuffer.PolylineAt | main.cpp:207-211 | Polyline segment i - 1 goes from t[i] back to t[i-1], for every i >= 2. |
| TraceBuffer.PolylineJoinsNeighbours | main.cpp:207-211 | Every polyline segment is a line in the current colour whose endpoints are exactly the neighbours t[k] and t[k+1]. |
| Circle.SquareIsProduct | main.cpp:227 | Arithmetic helper: the odd-number sum Square(n), used in place of n * n in the square-root argument, equals n * n. |
| Circle.SquareMonotone | main.cpp:227 | Arithmetic helper for the root bounds: Square is monotone. |
| Circle.SquareAtLeast | main.cpp:227 | Arithmetic helper for the termination of the root search: Square(n) >= n. |
| Circle.SearchRoot | main.cpp:227-229 | The upward search for the rounded root never returns less than its starting point. SearchRootFinds states that it ends at the rounded root. |
| Circle.SearchRootFinds | main.cpp:227-229 | Searching upward from any admissible k ends at a value no smaller than k that is the rounded square root of n. |
| Circle.RoundSqrtIsRoundedRoot | main.cpp:227-229 | RoundSqrt(n) is the integer nearest to the real square root of n. |
| Circle.RoundSqrt | main.cpp:227-229 | round(sqrt(n)) on integers is never larger than n. RoundSqrtIsRoundedRoot states that it is the nearest integer to the real root. |
| Circle.RoundSqrtAtMost | main.cpp:227-229 | The rounded root of n is at most n. |
| Circle.RoundedRootUnique | main.cpp:227-229 | At most one integer is the rounded square root of n, so the computed value is the only possible one. |
| Circle.RoundedRootAtMost | main.cpp:227-231 | The rounded root of a number at most r^2 is at most r. |
| Circle.SquareOdd | main.cpp:227-229 | Arithmetic helper for the root bounds: (2r+1)^2 = 4r^2 + 4r + 1 and (2r-1)^2 = 4r^2 - 4r + 1. |
| Circle.RoundedRootOfSquare | main.cpp:227-229 | The rounded root of r^2 is r. |
| Circle.ChordSquare | main.cpp:227 | The square-root argument at offset dx is a natural number no larger than r^2. |
| Circle.ChordSquareIsProduct | main.cpp:227 | ChordSquare(r, dx) is the product (radius + x - center.x) * (radius - x + center.x) that the source passes to sqrt. |
| Circle.HalfChord | main.cpp:227-231 | The rounded half-height of the circle at offset dx never exceeds r, and equals r on the centre column. |
| Circle.HalfChordIsRoundedRootOfProduct | main.cpp:227-231 | The half-chord is round(sqrt((r+dx)(r-dx))), and that product is never negative on a visited column. |
| Circle.ColumnRect | main.cpp:227-231 | The strip at column x has x as its left edge, width 1 and height 2k with 0 <= 2k <= 2r. It is centred on the circle's row, with no vertical clamp. On the centre column it is Rect(cx, cy - r, 1, 2r). |
| Circle.CircleFill | main.cpp:219-226 | The circle issues one fill per visited column, and the number of fills is max(0, min(cx+r, W-1) - max(cx-r, 0)). |
| Circle.FillsBefore | main.cpp:226-234 | Before the loop variable reaches x, x - start fills have been issued. |
| Circle.FillsBeforeAt | main.cpp:219-233 | Fill i is the white strip at column start + i. That column satisfies 0 <= col < W - 1 and -r <= col - cx < r. |
| Circle.CircleFillAt | main.cpp:219-233 | Fill i of a circle is the white strip at column max(cx - r, 0) + i, which is on screen, left of W - 1, and within [cx - r, cx + r). |
| Circle.CircleFillShape | main.cpp:219-233 | Every fill of a circle is a width-1 strip inside [cx - r, cx + r) and [0, W - 1). The column cx + r is never filled. Each strip is symmetric about cy, with height between 0 and 2r. |
| Circle.CentreColumnIsDiameter | main.cpp:226-231 | When the centre column is visited, its strip is the full vertical diameter Rect(cx, cy - r, 1, 2r). |
| Circle.LeftEdgeClamped | main.cpp:219-222 | A circle crossing the left edge starts filling at column 0. |
| Engine.ColorAfterCircle | main.cpp:232 | After DrawCircle the draw colour is white exactly when at least one column was filled or it was white before. When no column is visited, the colour is unchanged. |
| Engine.DrawCmds | main.cpp:199-212 | A frame issues one strip per visited column of each circle, two arm lines, and as many trace segments as the trace held before the push. The order lemmas below pin down each command. |
| Engine.DrawOrderFirstCircle | main.cpp:201 | The first commands of a frame are exactly CircleFill(p1, 10), in column order: each is the white strip at that column, so column, height and colour are fixed. |
| Engine.DrawOrderSecondCircle | main.cpp:202 | Right after them come exactly the commands of CircleFill(p2, 10), in column order. |
| Engine.DrawOrderArms | main.cpp:201-205 | After both circles, a frame has exactly two arm lines, p1 to the pivot and then p2 to p1, in the colour the circles left, followed by as many trace segments as t has points. |
| Engine.DrawOrderTrace | main.cpp:207-212 | Trace segment 0 goes from t[0] to its successor. Segment j > 0 goes from u[j+1] back to u[j], where u = t + [p2]. |
| Engine.DrawLastSegment | main.cpp:207-212 | On the first frame after the seed, the only trace segment runs from t[0] to p2. On later frames, the last segment runs from p2 back to the last point of t. |
| Engine.DrawIsWhite | main.cpp:199-212 | When Draw starts in white, every command it issues is a white fill or a white line. |
| Engine.FrameCmds | main.cpp:126-136 | A pass of the frame gate starts with the black full-screen fill, ends with the present, and has Draw's commands in between. |
| Engine.History | main.cpp:199 | The history after n frames is the seeded trace h (main.cpp:118) followed by the n second-bob positions, and its last point is the newest one. |
| Engine.TraceAfter | main.cpp:199-215 | The trace after n > 0 frames is nonempty and ends with the latest second-bob position. |
| Engine.RunCmds | main.cpp:121-137 | The commands of n frames are empty exactly when n = 0. Otherwise they end with a present, the last call of the last frame. |
| Engine.TraceAfterIsWindow | main.cpp:199-215 | From a trace of at most 1000 points, the trace after any number of frames equals the newest 1000 points of the whole history, in order. |
| Engine.Scene.constructor | main.cpp:86-87 | The program starts with an empty trace and a black renderer that has been cleared. |
| Engine.Scene.DrawCircle | main.cpp:218-235 | The loop appends exactly CircleFill(center, radius). Afterwards the colour is white if any column was filled, and unchanged otherwise. |
| Engine.Scene.FillColumn | main.cpp:227-233 | One pass of the column loop sets the colour to white and appends the white strip ColumnRect. |
| Engine.Scene.Draw | main.cpp:199-215 | The trace becomes Advance(trace, p2), and the log gains DrawCmds: circle at p1, circle at p2, the two arms, then the polyline. The colour is the one the circles left. |
| Engine.Scene.DrawTrace | main.cpp:207-212 | The segment loop appends exactly Polyline(trace, colour). Its reads of trace[0], trace[1] and trace[i-1] are in bounds. |
| Engine.Scene.Frame | main.cpp:125-137 | One pass of the frame gate advances the trace by p2, appends black clear, Draw in white and present, and leaves the colour white. |
| Engine.Scene.Run | main.cpp:103-137 | Run seeds the trace with the starting p2 and runs one Frame per pass of the gate. From a trace below the cap, the final trace is the window of the history and holds min(old + 1 + frames, 1000) points. It ends with the last frame's p2, and the log gains RunCmds. |
| Engine.Scene.DrawFrames | main.cpp:121-137 | The main loop leaves the trace at TraceAfter and appends RunCmds. The colour is white after any frame. |

## Left out

- The physics integrator (main.cpp:169-191) and the angle-to-pixel projection (main.cpp:111-117, 193-198) are left out because they are floating-point code. The bob positions `p1` and `p2` are integer inputs instead.
- `sqrt` and `round` in DrawCircle are modelled exactly, as the integer nearest to the real square root of the integer argument. The argument (radius + dx)(radius - dx) is an exact small integer. sqrt(n) is never halfway between two integers, so `round(sqrt(n) + cy) - cy == round(sqrt(n))`. Floating-point sqrt is not modelled bit by bit.
- The loop variable `x` of DrawCircle is a `double` in the source; here it is an integer. The loop only ever holds whole values, because it starts from a whole value and adds 1.
- Engine.Scene.DrawCircle enters its column loop only when `x < endx`. The source's loop runs zero times in that case, so the behaviour is the same.
- The global `pos` rectangle is modelled as a local in each method. Every write to it is immediately followed by the fill that reads it, and nothing else reads it.
- SDL and OpenGL initialisation, `glClear` and `SDL_GL_SwapWindow`, event polling, the quit key and `CleanUp` are left out (main.cpp:28-101, 139-165). They are I/O.
- The `clock()` frame gate is left out because it reads a clock. Run takes the sequence of frames that passed the gate, so a run that never ends is represented by its finite prefixes.
- Coordinates are unbounded integers here, while `SDL_Point` fields and `center.x ± radius` are 32-bit `int` in the source. No reachable position overflows: the arms are 100 and 150 pixels long around the pivot (250, 100). So wrap-around is not modelled.
- `srand` is left out. Nothing reads the random state.
- The pushes onto `Pendulums` (main.cpp:108-109) belong to the integrator's state and are not modelled.
