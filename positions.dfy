/**
 * Caret positions and selections of the gotex text buffer
 * (internal/buffer/buffer.go), with the row-major order in which
 * selection bounds are normalized.
 */
module Positions {

  /** A caret location: X is the column, Y the row (Go's `int` fields). */
  datatype Position = Position(X: int, Y: int)

  /**
   * A selection as the buffer stores it: `start` is where it was anchored,
   * `end` follows the cursor, so `end` may come before `start`.
   */
  datatype Selection = Selection(start: Position, end: Position)

  /** Strict row-major order: an earlier row, or the same row and an earlier column. */
  predicate Before(p: Position, q: Position)
  {
    p.Y < q.Y || (p.Y == q.Y && p.X < q.X)
  }

  /** Reflexive row-major order. */
  predicate AtOrBefore(p: Position, q: Position)
  {
    Before(p, q) || p == q
  }

  /**
   * getNormalizedSelectionBounds: the two endpoints of `sel`, swapped when the
   * selection runs backwards, so that the result is ordered.
   */
  function Normalized(sel: Selection): (n: Selection)
    ensures n == sel || n == Selection(sel.end, sel.start)
    ensures AtOrBefore(n.start, n.end)
    ensures multiset{n.start, n.end} == multiset{sel.start, sel.end}
    ensures AtOrBefore(sel.start, sel.end) ==> n == sel
  {
    var start, end := sel.start, sel.end;
    if start.Y > end.Y || (start.Y == end.Y && start.X > end.X) then
      Selection(end, start)
    else
      Selection(start, end)
  }

  /**
   * isPositionBetween: whether `pos` lies in the half-open span from `start`
   * (included) to `end` (excluded) in row-major order.
   */
  function IsPositionBetween(pos: Position, start: Position, end: Position): (r: bool)
    ensures r <==> AtOrBefore(start, pos) && Before(pos, end)
  {
    if pos.Y < start.Y || pos.Y > end.Y then
      false
    else if pos.Y == start.Y && pos.X < start.X then
      false
    else if pos.Y == end.Y && pos.X >= end.X then
      false
    else
      true
  }
}
