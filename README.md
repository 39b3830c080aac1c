# gotex text buffer, modelled in Dafny

gotex is a small text editor written in Go. Its one piece of real logic is
the line-oriented text buffer of `internal/buffer/buffer.go`: a list of
lines, a cursor `(X, Y)` and an optional selection whose `start` is the
anchor and whose `end` follows the cursor. This project models that buffer
and proves what its operations do.

- `positions.dfy` (module `Positions`): `Position`, `Selection`, the
  row-major order, `getNormalizedSelectionBounds` and `isPositionBetween`.
- `lines.dfy` (module `Lines`): the line sequence as a value. It defines which
  positions are valid, the text the lines stand for (`Join`, the lines joined
  by `"\n"`), the caret offset of a position in that text (`Offset`) and its
  inverse (`PositionAt`). It also defines the three splices performed by
  `InsertRune`, `NewLine` and `DeleteSelection`. For each splice it proves
  the edit it makes to the joined text, and it proves that the splices undo
  each other.
- `buffer.dfy` (module `TextBuffer`): the `Buffer` class. Its fields
  `lines`, `cursor` and `selection` are updated in place by methods with
  `modifies this`. Each mutator states its whole new state and what it does
  to the joined text. The buffer invariant `Valid()` says there is at least
  one line and the cursor is a valid position.
- `demo.dfy` (module `Demo`): the driver of `cmd/gotex/main.go` without its
  printing. `insertText` is a loop over `InsertRune`. `demonstrateSelection`
  is proved for every valid buffer. Together they prove the scenario in which
  "Hello, World!" becomes "Greetings, World!" and the selection reads
  "Hello".

Each character of a line is one column unit. The Go code measures and slices
lines in bytes but moves the cursor by one per rune. The two agree for
single-byte (ASCII) text, and that is the assumption made here.

The model follows the Go code in these places:
- `MoveCursor` rejects an out-of-range target with `ErrInvalidPosition` and
  changes nothing. It does not wrap to the neighbouring line.
- `InsertRune` and `NewLine` leave the selection as it was.
- `EndSelection` drops the selection entirely.
- The buffer has no replace-selection, load or save operations.

## Model

| member | source | states |
|---|---|---|
| Positions.Normalized | internal/buffer/buffer.go:202-212 | The result is the selection or its swap. Its start is at or before its end in row-major order. It has the same endpoints as a multiset, and an already ordered selection is returned unchanged. |
| Positions.IsPositionBetween | internal/buffer/buffer.go:241-252 | True exactly when `start` is at or before `pos` and `pos` is strictly before `end` in row-major order, so the span is half-open. |
| Lines.JoinTerminated | internal/buffer/buffer.go:215-238 | The lines with every line terminated equal the joined text plus one final separator. |
| Lines.OffsetBound | internal/buffer/buffer.go:191-199 | The caret offset of every valid position lies inside the joined text, from 0 up to and including its length. |
| Lines.OffsetOrder | internal/buffer/buffer.go:202-212 | For valid positions, row-major order is the order of their caret offsets. Equal positions and equal offsets imply each other. |
| Lines.PositionAt | internal/buffer/buffer.go:191-199 | Every caret offset of the joined text is the offset of a valid position. Together with OffsetOrder, valid positions and carets correspond one to one. |
| Lines.InsertAtText | internal/buffer/buffer.go:118-125 | The splice keeps the new cursor valid. The joined text gains the character at the old cursor's offset, and the new cursor's offset is one more. |
| Lines.SplitAtText | internal/buffer/buffer.go:97-108 | The line count grows by one and `(0, Y+1)` is valid. The joined text gains a separator at the cursor's offset, and the new cursor's offset is one more. |
| Lines.DeleteRangeText | internal/buffer/buffer.go:136-153 | The line count drops by `e.Y - s.Y`, and `s` stays valid at the same offset. The joined text loses exactly the characters between the offsets of `s` and `e`. |
| Lines.SpanInRow | internal/buffer/buffer.go:219-221 | Within one row, the text between two positions is the row sliced from `s.X` to `e.X`. |
| Lines.SpanAcrossRows | internal/buffer/buffer.go:224-237 | Across rows, the text between two positions is the tail of the first row, a separator, each middle row with its separator, and the head of the last row. |
| Lines.DeleteRangeRestores | internal/buffer/buffer.go:136-153 | The old joined text equals the new one with the deleted span put back at the start's offset. |
| Lines.BetweenByOffset | internal/buffer/buffer.go:241-252 | For valid positions, isPositionBetween holds exactly when the offset of `pos` lies in the half-open range from the offset of `s` to the offset of `e`. |
| Lines.InsertThenDelete | internal/buffer/buffer.go:123-125 | Deleting the range from the insertion point to one column past it removes the inserted character and gives back the original lines. |
| Lines.SplitThenDelete | internal/buffer/buffer.go:97-108 | Deleting the range from the split point to the start of the next row gives back the original lines. |
| TextBuffer.Buffer.New | internal/buffer/buffer.go:38-43 | A new buffer has one empty line, the cursor at (0,0) and no selection. It satisfies the invariant and its joined text is empty. |
| TextBuffer.Buffer.GetLines | internal/buffer/buffer.go:46-48 | Returns the lines, which are non-empty under the invariant. |
| TextBuffer.Buffer.GetCursor | internal/buffer/buffer.go:51-53 | Returns the cursor, which is a valid position under the invariant. |
| TextBuffer.Buffer.ValidatePosition | internal/buffer/buffer.go:191-199 | Passes exactly for `0 <= Y < len(lines)` and `0 <= X <= len(lines[Y])`. Otherwise it is `InvalidPosition`. |
| TextBuffer.Buffer.ValidateCursor | internal/buffer/buffer.go:186-188 | Passes exactly when the buffer invariant holds. Otherwise it is `InvalidPosition`. |
| TextBuffer.Buffer.HasSelection | internal/buffer/buffer.go:69-71 | True exactly when there is a selection. |
| TextBuffer.Buffer.StartSelection | internal/buffer/buffer.go:56-61 | The selection becomes empty, with both ends at the cursor. The lines and the cursor are unchanged. |
| TextBuffer.Buffer.EndSelection | internal/buffer/buffer.go:64-66 | The selection becomes none and nothing else changes, so a second call changes nothing. |
| TextBuffer.Buffer.UpdateSelection | internal/buffer/buffer.go:74-78 | An active selection keeps its anchor and its end becomes the cursor. With no selection nothing changes. |
| TextBuffer.Buffer.GetTextBetween | internal/buffer/buffer.go:215-238 | For ordered valid positions, the text built row by row is the joined text between their offsets. |
| TextBuffer.Buffer.GetSelection | internal/buffer/buffer.go:82-89 | With no selection the result is `NoSelection`. Otherwise it is the joined text between the normalized bounds. |
| TextBuffer.Buffer.NewLine | internal/buffer/buffer.go:92-110 | An invalid cursor gives `InvalidPosition` and changes nothing. Otherwise the row is split at the cursor and the cursor moves to `(0, Y+1)`. The selection is unchanged and the invariant is kept. The joined text gains a separator at the old caret. |
| TextBuffer.Buffer.InsertRune | internal/buffer/buffer.go:113-127 | An invalid cursor gives `InvalidPosition` and changes nothing. Otherwise the character is spliced in at the cursor, `X` grows by one and the line count is unchanged. The selection is unchanged and the invariant is kept. The joined text gains the character at the old caret. |
| TextBuffer.Buffer.DeleteSelection | internal/buffer/buffer.go:131-154 | With no selection the result is `NoSelection` and nothing changes. Otherwise the normalized range is cut and the rows are merged. The cursor goes to the start, the selection is dropped and the invariant holds. The line count drops by `e.Y - s.Y`. The old joined text is the new one with exactly the selected text put back at the cursor. |
| TextBuffer.Buffer.MoveCursor | internal/buffer/buffer.go:158-171 | An invalid target gives `InvalidPosition` and changes nothing. Otherwise the cursor becomes the target and an active selection's end follows it. The lines never change. |
| TextBuffer.Buffer.IsPositionInSelection | internal/buffer/buffer.go:174-181 | False with no selection. Otherwise true exactly for the half-open row-major span from the normalized start to the normalized end. |
| Demo.InsertText | cmd/gotex/main.go:26-32 | Typing a string puts it into the cursor's row at the cursor. The cursor ends after it, and the selection and the invariant are kept. |
| Demo.SelectFive | cmd/gotex/main.go:36-58 | Moves to the row start and selects five columns. A row of at least five columns yields its first five; a shorter row makes the move fail and leaves an empty selection at the row start. |
| Demo.DemonstrateSelection | cmd/gotex/main.go:35-67 | On a row of at least five columns, its first five are read and replaced by "Greetings", leaving the cursor at column 9 with no selection. A shorter row is left unchanged. |
| Demo.RunDemo | cmd/gotex/main.go:11-19 | On a new buffer the demo reads "Hello" and leaves the single line "Greetings, World!" with the cursor at (9,0). |

## Left out

- The `filename` field (internal/buffer/buffer.go:26): no buffer operation reads or writes it.
- UTF-8: a line is a sequence of column units, not of bytes. A multi-byte rune, which Go counts by its byte length, is not modelled.
- TextBuffer.Buffer.MoveCursor: Go's `int` addition can overflow. Dafny's integers are unbounded, so a target past the machine range is not modelled.
- TextBuffer.Buffer.GetLines: Go returns the buffer's own slice, which a caller could write through. The model returns the value of the lines, so aliasing is not modelled.
- TextBuffer.Buffer.GetSelection, TextBuffer.Buffer.DeleteSelection: these require both selection ends to be valid positions of the current lines. The Go code never re-checks a selection after an edit, so a stale one would make it panic. No error path is invented for that case.
- `ErrInvalidSelection` (internal/buffer/buffer.go:32) is declared, as `InvalidSelection`, but no operation returns it, in the Go package or in this model.
- TextBuffer.Buffer.InsertRune: the second check, `X > len(line)` at internal/buffer/buffer.go:119, is kept. It can never fail once `validateCursor` has passed.
- The editor GUI (internal/editor/*.go) is not part of this model. That includes `handleTextChanged`, which rebuilds the buffer rune by rune, and file loading and saving. All of it is windowing and I/O.
- cmd/gotex/main.go: the printing (`fmt`, `log`), `printBufferContents`, `additionalExamples` and `handleError` are left out. The error branches that only log are modelled where they can be taken, which is the second move in a short row.
