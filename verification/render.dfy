// Shared vocabulary of the renderer: pixel points, rectangles, draw colours,
// the fixed window constants, and the draw commands that stand in for the
// SDL rendering calls (every call the program makes is appended to a log).
module Render {

  /** An integer pixel coordinate (SDL_Point). */
  datatype Point = Point(x: int, y: int)

  /** An integer rectangle (SDL_Rect): top-left corner, width and height. */
  datatype Rect = Rect(x: int, y: int, w: int, h: int)

  /** An RGBA draw colour as passed to SDL_SetRenderDrawColor. */
  datatype Color = Color(r: int, g: int, b: int, a: int)

  const Black := Color(0, 0, 0, 255)
  const White := Color(255, 255, 255, 255)

  /** Window size (main.cpp:18-19). */
  const ScreenWidth := 500
  const ScreenHeight := 500

  /** The screen offset (xoff, yoff) of the fixed pivot (main.cpp:20-21). */
  const Pivot := Point(250, 100)

  /** The whole window, as filled to clear each frame (main.cpp:126-129). */
  const Screen := Rect(0, 0, ScreenWidth, ScreenHeight)

  /**
   * One rendering call with the draw colour in force when it was made:
   * SDL_RenderClear, SDL_RenderDrawLine from p to q, SDL_RenderFillRect,
   * SDL_RenderPresent.
   */
  datatype Cmd =
    | Clear(color: Color)
    | Line(p: Point, q: Point, color: Color)
    | FillRect(rect: Rect, color: Color)
    | Present

  function Min(a: int, b: int): int
  {
    if a < b then a else b
  }
}
