/**
 * The demonstration driver of cmd/gotex/main.go, minus its printing: text is
 * typed one character at a time, "Hello" is selected and replaced by
 * "Greetings".
 */
module Demo {
  import opened Positions
  import opened Lines
  import opened TextBuffer

  /**
   * insertText: every character of `text` goes through InsertRune, so the
   * text lands in the cursor's row at the cursor and the cursor ends after it.
   */
  method InsertText(b: Buffer, text: seq<char>)
    requires b.Valid()
    modifies b
    ensures b.Valid()
    ensures var row, x := old(b.lines)[old(b.cursor).Y], old(b.cursor).X;
      b.lines == old(b.lines)[old(b.cursor).Y := row[..x] + text + row[x..]]
    ensures b.cursor == Position(old(b.cursor).X + |text|, old(b.cursor).Y)
    ensures b.selection == old(b.selection)
  {
    ghost var row, x, y := b.lines[b.cursor.Y], b.cursor.X, b.cursor.Y;
    assert row[..x] + text[..0] + row[x..] == row;
    var i := 0;
    while i < |text|
      invariant 0 <= i <= |text|
      invariant b.Valid()
      invariant b.lines == old(b.lines)[y := row[..x] + text[..i] + row[x..]]
      invariant b.cursor == Position(x + i, y)
      invariant b.selection == old(b.selection)
    {
      var err := b.InsertRune(text[i]);
      ghost var current := row[..x] + text[..i] + row[x..];
      assert current[..x + i] + [text[i]] + current[x + i..] == row[..x] + text[..i + 1] + row[x..];
      i := i + 1;
    }
    assert text[..i] == text;
  }

  /**
   * The first half of demonstrateSelection: move to the start of the
   * cursor's row, anchor a selection there, extend it five columns and read
   * it. A row shorter than five columns makes the second move fail, which
   * leaves an empty selection at the row start.
   */
  method SelectFive(b: Buffer) returns (selected: Option<seq<char>>)
    requires b.Valid()
    modifies b
    ensures b.Valid() && b.lines == old(b.lines)
    ensures var row, y := old(b.lines)[old(b.cursor).Y], old(b.cursor).Y;
      if |row| < 5 then
        selected == None && b.cursor == Position(0, y) &&
        b.selection == Some(Selection(Position(0, y), Position(0, y)))
      else
        selected == Some(row[..5]) && b.cursor == Position(5, y) &&
        b.selection == Some(Selection(Position(0, y), Position(5, y)))
  {
    ghost var row, y := b.lines[b.cursor.Y], b.cursor.Y;
    var err := b.MoveCursor(-b.GetCursor().X, 0);
    assert err == Pass;
    b.StartSelection();
    err := b.MoveCursor(5, 0);
    if err.Fail? {
      return None;
    }
    var r := b.GetSelection();
    SpanInRow(b.lines, Position(0, y), Position(5, y));
    assert r == Ok(row[..5]);
    return Some(r.value);
  }

  /**
   * demonstrateSelection: select the first five columns of the cursor's
   * row, delete them and type "Greetings" in their place; when the row is
   * too short the demo stops after the failed move.
   */
  method DemonstrateSelection(b: Buffer) returns (selected: Option<seq<char>>)
    requires b.Valid()
    modifies b
    ensures b.Valid()
    ensures var row, y := old(b.lines)[old(b.cursor).Y], old(b.cursor).Y;
      if |row| < 5 then
        selected == None && b.lines == old(b.lines) && b.cursor == Position(0, y) &&
        b.selection == Some(Selection(Position(0, y), Position(0, y)))
      else
        selected == Some(row[..5]) && b.lines == old(b.lines)[y := "Greetings" + row[5..]] &&
        b.cursor == Position(9, y) && b.selection == None
  {
    ghost var row, y := b.lines[b.cursor.Y], b.cursor.Y;
    selected := SelectFive(b);
    if selected == None {
      return;
    }
    ghost var before := b.lines;
    var err := b.DeleteSelection();
    assert row[..0] + row[5..] == row[5..];
    assert b.lines == DeleteRange(before, Position(0, y), Position(5, y)) == before[y := row[5..]];
    InsertText(b, "Greetings");
    assert row[5..][..0] + "Greetings" + row[5..][0..] == "Greetings" + row[5..];
  }

  /**
   * main, without its printing: on a new buffer, type "Hello, World!" and run
   * the selection demonstration, which reads "Hello" and leaves
   * "Greetings, World!" with the cursor after "Greetings".
   */
  method RunDemo() returns (selected: seq<char>, lines: seq<Line>, cursor: Position)
    ensures selected == "Hello"
    ensures lines == ["Greetings, World!"]
    ensures cursor == Position(9, 0)
  {
    var b := new Buffer.New();
    InsertText(b, "Hello, World!");
    assert ""[..0] + "Hello, World!" + ""[0..] == "Hello, World!";
    var r := DemonstrateSelection(b);
    assert "Hello, World!"[..5] == "Hello";
    assert "Greetings" + "Hello, World!"[5..] == "Greetings, World!";
    selected, lines, cursor := r.value, b.lines, b.cursor;
  }
}
