/**
 * The gotex text buffer (internal/buffer/buffer.go): a list of lines, a
 * cursor and an optional selection, updated in place by its methods.
 *
 * Positions are not re-checked against later edits: a selection keeps the
 * endpoints it had when they were set, so the operations that index with
 * them (GetSelection, DeleteSelection) ask their callers to keep those
 * endpoints inside the current lines, as the Go code silently does.
 */
module TextBuffer {
  import opened Positions
  import opened Lines

  datatype Option<T> = None | Some(value: T)

  /**
   * The package's error values. InvalidSelection is declared by the Go package
   * but no operation returns it.
   */
  datatype Error = InvalidPosition | InvalidSelection | NoSelection

  /** A Go `error` result: nil (Pass) or one of the errors above. */
  datatype Outcome = Pass | Fail(error: Error)

  /** A Go `(value, error)` pair in which exactly one side is meaningful. */
  datatype Result<T> = Ok(value: T) | Err(error: Error)

  class Buffer {
    var lines: seq<Line>
    var cursor: Position
    var selection: Option<Selection>

    /** The buffer invariant: at least one line, and the cursor on a valid position. */
    ghost predicate Valid()
      reads this
    {
      |lines| >= 1 && ValidPosition(lines, cursor)
    }

    /** Both endpoints of the current selection, if any, are valid positions now. */
    predicate SelectionInBounds()
      reads this
    {
      selection.Some? ==>
        ValidPosition(lines, selection.value.start) && ValidPosition(lines, selection.value.end)
    }

    /** New: a single empty line, the cursor at (0,0), no selection. */
    constructor New()
      ensures Valid()
      ensures lines == [""] && cursor == Position(0, 0) && selection == None
      ensures Join(lines) == ""
    {
      lines := [""];
      cursor := Position(0, 0);
      selection := None;
    }

    function GetLines(): (r: seq<Line>)
      reads this
      ensures r == lines
      ensures Valid() ==> |r| >= 1
    {
      lines
    }

    function GetCursor(): (c: Position)
      reads this
      ensures c == cursor
      ensures Valid() ==> ValidPosition(lines, c)
    {
      cursor
    }

    /** validatePosition: accepts exactly the valid positions, else InvalidPosition. */
    function ValidatePosition(pos: Position): (err: Outcome)
      reads this
      ensures err == Pass <==> ValidPosition(lines, pos)
      ensures err != Pass ==> err == Fail(InvalidPosition)
    {
      if pos.Y < 0 || pos.Y >= |lines| then
        Fail(InvalidPosition)
      else if pos.X < 0 || pos.X > |lines[pos.Y]| then
        Fail(InvalidPosition)
      else
        Pass
    }

    /** validateCursor: the cursor check is the buffer invariant, once there is a line. */
    function ValidateCursor(): (err: Outcome)
      reads this
      ensures err == Pass <==> Valid()
      ensures err != Pass ==> err == Fail(InvalidPosition)
    {
      ValidatePosition(cursor)
    }

    function HasSelection(): (has: bool)
      reads this
      ensures has <==> selection != None
    {
      selection != None
    }

    /** StartSelection: a fresh, empty selection anchored at the cursor. */
    method StartSelection()
      modifies this
      ensures selection == Some(Selection(cursor, cursor))
      ensures lines == old(lines) && cursor == old(cursor)
    {
      selection := Some(Selection(cursor, cursor));
    }

    /** EndSelection: the selection is dropped; calling it again changes nothing more. */
    method EndSelection()
      modifies this
      ensures selection == None
      ensures lines == old(lines) && cursor == old(cursor)
    {
      selection := None;
    }

    /** UpdateSelection: an active selection's end follows the cursor; its anchor stays. */
    method UpdateSelection()
      modifies this
      ensures selection == if old(selection).Some? then Some(Selection(old(selection).value.start, cursor)) else None
      ensures lines == old(lines) && cursor == old(cursor)
    {
      if HasSelection() {
        selection := Some(selection.value.(end := cursor));
      }
    }

    /**
     * getTextBetween: the text between two ordered valid positions, built row
     * by row; it is the joined text between their offsets.
     */
    method GetTextBetween(start: Position, end: Position) returns (text: seq<char>)
      requires ValidPosition(lines, start) && ValidPosition(lines, end) && AtOrBefore(start, end)
      ensures text == Span(lines, start, end)
    {
      if start.Y == end.Y {
        text := lines[start.Y][start.X..end.X];
        SpanInRow(lines, start, end);
        return;
      }
      text := lines[start.Y][start.X..] + "\n";
      var y := start.Y + 1;
      while y < end.Y
        invariant start.Y + 1 <= y <= end.Y
        invariant text == lines[start.Y][start.X..] + ("\n" + Terminated(lines[start.Y + 1..y]))
      {
        TerminatedSnoc(lines, start.Y + 1, y);
        text := text + lines[y] + "\n";
        y := y + 1;
      }
      text := text + lines[end.Y][..end.X];
      SpanAcrossRows(lines, start, end);
    }

    /**
     * GetSelection: NoSelection without a selection; otherwise the joined
     * text between the normalized selection bounds.
     */
    method GetSelection() returns (r: Result<seq<char>>)
      requires SelectionInBounds()
      ensures selection == None ==> r == Err(NoSelection)
      ensures selection.Some? ==>
        var n := Normalized(selection.value);
        r == Ok(Span(lines, n.start, n.end))
    {
      if !HasSelection() {
        return Err(NoSelection);
      }
      var n := Normalized(selection.value);
      var text := GetTextBetween(n.start, n.end);
      return Ok(text);
    }

    /**
     * NewLine: with a valid cursor, the cursor's row is split at the cursor
     * and the cursor moves to the start of the new row, which puts a line
     * separator into the joined text just before the cursor; otherwise
     * InvalidPosition and nothing changes. The selection is left alone.
     */
    method NewLine() returns (err: Outcome)
      modifies this
      ensures !ValidPosition(old(lines), old(cursor)) ==>
        err == Fail(InvalidPosition) && lines == old(lines) && cursor == old(cursor)
      ensures ValidPosition(old(lines), old(cursor)) ==>
        err == Pass && lines == SplitAt(old(lines), old(cursor)) && cursor == Position(0, old(cursor).Y + 1)
      ensures selection == old(selection)
      ensures old(Valid()) ==> Valid()
      ensures err == Pass ==>
        var k := Offset(old(lines), old(cursor));
        |lines| == |old(lines)| + 1 && k <= |Join(old(lines))| &&
        Join(lines) == Join(old(lines))[..k] + "\n" + Join(old(lines))[k..] &&
        Offset(lines, cursor) == k + 1
    {
      err := ValidateCursor();
      if err.Fail? {
        return;
      }
      var currentLine := lines[cursor.Y];
      var remainingText := currentLine[cursor.X..];
      lines := lines[cursor.Y := currentLine[..cursor.X]];
      lines := lines[..cursor.Y + 1] + [remainingText] + lines[cursor.Y + 1..];
      cursor := Position(0, cursor.Y + 1);
      assert lines == SplitAt(old(lines), old(cursor));
      SplitAtText(old(lines), old(cursor));
    }

    /**
     * InsertRune: with a valid cursor, `r` is put into the cursor's row at the
     * cursor and the cursor moves one column right, past it: the joined text
     * gains `r` just before the cursor. Otherwise InvalidPosition and nothing
     * changes. The selection is left alone.
     */
    method InsertRune(r: char) returns (err: Outcome)
      modifies this
      ensures !ValidPosition(old(lines), old(cursor)) ==>
        err == Fail(InvalidPosition) && lines == old(lines) && cursor == old(cursor)
      ensures ValidPosition(old(lines), old(cursor)) ==>
        err == Pass && lines == InsertAt(old(lines), old(cursor), r) &&
        cursor == Position(old(cursor).X + 1, old(cursor).Y)
      ensures selection == old(selection)
      ensures old(Valid()) ==> Valid()
      ensures err == Pass ==>
        var k := Offset(old(lines), old(cursor));
        |lines| == |old(lines)| && k <= |Join(old(lines))| &&
        Join(lines) == Join(old(lines))[..k] + [r] + Join(old(lines))[k..] &&
        Offset(lines, cursor) == k + 1
    {
      err := ValidateCursor();
      if err.Fail? {
        return;
      }
      var currentLine := lines[cursor.Y];
      if cursor.X > |currentLine| {
        return Fail(InvalidPosition);
      }
      var newLine := currentLine[..cursor.X] + [r] + currentLine[cursor.X..];
      lines := lines[cursor.Y := newLine];
      cursor := cursor.(X := cursor.X + 1);
      InsertAtText(old(lines), old(cursor), r);
    }

    /**
     * DeleteSelection: NoSelection without a selection, changing nothing.
     * Otherwise the rows from the normalized start to the normalized end are
     * replaced by one row joining what lies before the start and after the
     * end, the cursor goes to the start and the selection is dropped: the
     * joined text loses exactly the selected text.
     */
    method DeleteSelection() returns (err: Outcome)
      requires SelectionInBounds()
      modifies this
      ensures old(selection) == None ==>
        err == Fail(NoSelection) && lines == old(lines) && cursor == old(cursor) && selection == None
      ensures old(selection).Some? ==>
        var n := Normalized(old(selection).value);
        err == Pass && lines == DeleteRange(old(lines), n.start, n.end) &&
        cursor == n.start && selection == None
      ensures old(selection).Some? ==> Valid()
      ensures old(Valid()) ==> Valid()
      ensures old(selection).Some? ==>
        var n := Normalized(old(selection).value);
        var k := Offset(old(lines), n.start);
        |lines| == |old(lines)| - (n.end.Y - n.start.Y) &&
        Offset(lines, cursor) == k <= |Join(lines)| &&
        Join(old(lines)) == Join(lines)[..k] + Span(old(lines), n.start, n.end) + Join(lines)[k..]
    {
      if !HasSelection() {
        return Fail(NoSelection);
      }
      var n := Normalized(selection.value);
      var start, end := n.start, n.end;
      DeleteRangeText(lines, start, end);
      DeleteRangeRestores(lines, start, end);
      if start.Y == end.Y {
        var line := lines[start.Y];
        lines := lines[start.Y := line[..start.X] + line[end.X..]];
        assert lines == DeleteRange(old(lines), start, end);
        cursor := start;
        EndSelection();
        return Pass;
      }
      var newLine := lines[start.Y][..start.X] + lines[end.Y][end.X..];
      lines := lines[..start.Y] + [newLine] + lines[end.Y + 1..];
      cursor := start;
      EndSelection();
      return Pass;
    }

    /**
     * MoveCursor: the cursor moves by (dx, dy) when the target is a valid
     * position, and an active selection's end follows it; otherwise
     * InvalidPosition and nothing changes (no wrapping, no clamping).
     */
    method MoveCursor(dx: int, dy: int) returns (err: Outcome)
      modifies this
      ensures lines == old(lines)
      ensures !ValidPosition(old(lines), Position(old(cursor).X + dx, old(cursor).Y + dy)) ==>
        err == Fail(InvalidPosition) && cursor == old(cursor) && selection == old(selection)
      ensures ValidPosition(old(lines), Position(old(cursor).X + dx, old(cursor).Y + dy)) ==>
        err == Pass && cursor == Position(old(cursor).X + dx, old(cursor).Y + dy) &&
        selection == (if old(selection).Some? then Some(Selection(old(selection).value.start, cursor)) else None)
      ensures err == Pass ==> Valid()
      ensures old(Valid()) ==> Valid()
    {
      var newPos := Position(cursor.X + dx, cursor.Y + dy);
      err := ValidatePosition(newPos);
      if err.Fail? {
        return;
      }
      cursor := newPos;
      UpdateSelection();
    }

    /**
     * IsPositionInSelection: false without a selection; otherwise whether
     * `pos` lies in the half-open span from the normalized start to the
     * normalized end.
     */
    function IsPositionInSelection(pos: Position): (r: bool)
      reads this
      ensures selection == None ==> !r
      ensures selection.Some? ==>
        (r <==> AtOrBefore(Normalized(selection.value).start, pos) && Before(pos, Normalized(selection.value).end))
    {
      if !HasSelection() then
        false
      else
        var n := Normalized(selection.value);
        IsPositionBetween(pos, n.start, n.end)
    }
  }
}
